/** State publication: the two messages `PublishState` sends for one window,
    and the per-window report the periodic timer sends. */
module Publishing {
  import opened Velux
  import opened Decimal
  import opened Selection

  /** The binary state payload for a percentage: above 10 counts as open. */
  function StateText(state: int): string {
    if state > 10 then MessageMqttOpen else MessageMqttClosed
  }

  /** The messages `PublishState(number, state)` sends on a live connection:
      the percentage, then the binary state. */
  function StateMessages(number: int, state: int): seq<Event> {
    [ Publish(TopicVelux + IntToText(number), IntToText(state)),
      Publish(VeluxState + IntToText(number), StateText(state)) ]
  }

  /** What `PublishState` sends: nothing unless the client is connected. */
  function Published(connected: bool, number: int, state: int): seq<Event> {
    if connected then StateMessages(number, state) else []
  }

  /** The percentage reported for a commanded state. */
  function Percent(open: bool): int {
    if open then 100 else 0
  }

  /** The messages of the timer's window loop, windows in increasing order. */
  function Report(commanded: seq<bool>): seq<Event> {
    Flatten(WindowMessages(commanded))
  }

  /** Each window's two messages, window by window. */
  function WindowMessages(commanded: seq<bool>): seq<seq<Event>> {
    seq(|commanded|, k requires 0 <= k < |commanded| => StateMessages(k, Percent(commanded[k])))
  }

  function Flatten<T>(xs: seq<seq<T>>): seq<T> {
    if xs == [] then [] else Flatten(xs[..|xs| - 1]) + xs[|xs| - 1]
  }

  /** A subscriber can read back from the two messages which window they are
      about, the percentage, and whether that percentage means open. */
  lemma StateMessagesReadBack(number: int, state: int)
    ensures var m := StateMessages(number, state);
      && |m| == 2 && m[0].Publish? && m[1].Publish?
      && m[0].topic[..|TopicVelux|] == TopicVelux
      && ParseInt(m[0].topic[|TopicVelux|..]) == Some(number)
      && ParseInt(m[0].payload) == Some(state)
      && m[1].topic[..|VeluxState|] == VeluxState
      && ParseInt(m[1].topic[|VeluxState|..]) == Some(number)
      && (m[1].payload == MessageMqttOpen <==> state > 10)
  {
    var m := StateMessages(number, state);
    assert m[0].topic[|TopicVelux|..] == IntToText(number);
    assert m[1].topic[|VeluxState|..] == IntToText(number);
    IntRoundTrip(number);
    IntRoundTrip(state);
  }

  /** The reported commanded state, read with the dispatcher's own payload
      decoding (open iff the payload is "ON"), gives back the commanded state;
      the percentage is "100" for open and "0" for closed. */
  lemma PercentRoundTrip(open: bool)
    ensures (StateText(Percent(open)) == MessageMqttOpen) == open
    ensures IntToText(Percent(open)) == if open then "100" else "0"
  {
    assert NatToText(10) == "10";
  }

  lemma {:induction false} FlattenPairsAt<T>(xs: seq<seq<T>>, i: nat)
    requires forall k :: 0 <= k < |xs| ==> |xs[k]| == 2
    requires i < |xs|
    ensures |Flatten(xs)| == 2 * |xs|
    ensures Flatten(xs)[2 * i] == xs[i][0] && Flatten(xs)[2 * i + 1] == xs[i][1]
  {
    var n := |xs| - 1;
    if n > 0 {
      FlattenPairsAt(xs[..n], if i < n then i else 0);
    }
  }

  /** Window `i`'s two messages sit at positions 2i and 2i+1 of the report:
      its percentage, then its binary state. */
  lemma ReportAt(commanded: seq<bool>, i: nat)
    requires i < |commanded|
    ensures |Report(commanded)| == 2 * |commanded|
    ensures Report(commanded)[2 * i] == Publish(TopicVelux + IntToText(i), IntToText(Percent(commanded[i])))
    ensures Report(commanded)[2 * i + 1] == Publish(VeluxState + IntToText(i), StateText(Percent(commanded[i])))
  {
    var xs := WindowMessages(commanded);
    assert forall k :: 0 <= k < |xs| ==> |xs[k]| == 2;
    FlattenPairsAt(xs, i);
  }

  /** The report of one window more, appended to earlier events. */
  lemma AppendReport(before: seq<Event>, commanded: seq<bool>, i: nat)
    requires i < |commanded|
    ensures before + Report(commanded[..i + 1]) ==
      before + Report(commanded[..i]) + StateMessages(i, Percent(commanded[i]))
  {
    var xs := WindowMessages(commanded[..i + 1]);
    assert xs[..i] == WindowMessages(commanded[..i]);
  }

  lemma PublishedDoesNotMove(connected: bool, number: int, state: int)
    ensures Displacement(Published(connected, number, state)) == 0
  {
    if connected {
      var m := StateMessages(number, state);
      assert m[..|m| - 1] == m[..1];
      assert m[..1][..0] == [];
      assert Displacement(m[..1]) == 0;
    }
  }
}

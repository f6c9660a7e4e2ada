/** Opening and closing covers: the commanded-state update of `OpenWindow` and
    `CloseWindow`, and the events one such operation produces. */
module Windows {
  import opened Velux
  import opened Selection
  import opened Publishing

  /** The commanded states after commanding window `number` to `open`; the
      alias window commands every entry, itself included. */
  function Commanded(s: seq<bool>, number: int, open: bool): seq<bool>
    requires |s| == NumberOfWindows && 0 <= number < NumberOfWindows
  {
    if number == AllWindows then seq(|s|, _ => open) else s[number := open]
  }

  /** The button that moves the selected cover in the commanded direction. */
  function PulseButton(open: bool): Button {
    if open then MiddleUp else MiddleDown
  }

  /** The events of one `OpenWindow`/`CloseWindow`, for a cursor at `from`:
      the selector presses, one open or close pulse, then the state report. */
  function Actuation(from: int, number: int, open: bool, connected: bool): seq<Event> {
    Clicks(from, number) + [Press(PulseButton(open))] + Published(connected, number, Percent(open))
  }

  /** The events of an operation appended to earlier ones, part by part. */
  lemma AppendActuation(before: seq<Event>, from: int, number: int, open: bool, connected: bool)
    ensures before + Actuation(from, number, open, connected) ==
      before + Clicks(from, number) + [Press(PulseButton(open))] + Published(connected, number, Percent(open))
  {
  }

  /** How many open or close pulses the events hold. */
  function PulseCount(t: seq<Event>): nat {
    if t == [] then 0
    else PulseCount(t[..|t| - 1]) + if t[|t| - 1] in {Press(MiddleUp), Press(MiddleDown)} then 1 else 0
  }

  /** Commanding window `number` sets its entry; the alias sets every entry;
      any other window leaves every other entry as it was. */
  lemma CommandedEffect(s: seq<bool>, number: int, open: bool)
    requires |s| == NumberOfWindows && 0 <= number < NumberOfWindows
    ensures var r := Commanded(s, number, open);
      && |r| == |s|
      && r[number] == open
      && (number == AllWindows ==> forall k :: 0 <= k < |r| ==> r[k] == open)
      && (number != AllWindows ==> forall k :: 0 <= k < |r| && k != number ==> r[k] == s[k])
  {
  }

  /** A command repeated, or overridden by a later one for the same window,
      leaves only the later command's effect. */
  lemma CommandedLastWins(s: seq<bool>, number: int, first: bool, second: bool)
    requires |s| == NumberOfWindows && 0 <= number < NumberOfWindows
    ensures Commanded(Commanded(s, number, first), number, second) == Commanded(s, number, second)
  {
  }

  lemma {:induction false} PulseCountAppend(a: seq<Event>, b: seq<Event>)
    ensures PulseCount(a + b) == PulseCount(a) + PulseCount(b)
    decreases |b|
  {
    if b == [] {
      assert a + b == a;
    } else {
      var b' := b[..|b| - 1];
      assert (a + b)[..|a + b| - 1] == a + b';
      PulseCountAppend(a, b');
    }
  }

  lemma {:induction false} NoPulseInRepeat(b: Button, n: nat)
    requires b in {UpMiddleUp, UpMiddleDown}
    ensures PulseCount(Repeat(Press(b), n)) == 0
  {
    if n > 0 {
      NoPulseInRepeat(b, n - 1);
      var r := Repeat(Press(b), n);
      assert r[..|r| - 1] == Repeat(Press(b), n - 1);
    }
  }

  lemma NoPulseInPublished(connected: bool, number: int, state: int)
    ensures PulseCount(Published(connected, number, state)) == 0
  {
    if connected {
      var m := StateMessages(number, state);
      assert m[..|m| - 1] == m[..1];
      assert m[..1][..0] == [];
      assert PulseCount(m[..1]) == 0;
    }
  }

  /** One open or close operation presses exactly one pulse button, right after
      the selector presses, and it is the one for the commanded direction. */
  lemma ActuationOnePulse(from: int, number: int, open: bool, connected: bool)
    ensures var t := Actuation(from, number, open, connected);
      && PulseCount(t) == 1
      && t[|Clicks(from, number)|] == Press(PulseButton(open))
  {
    var c := Clicks(from, number);
    var p := Published(connected, number, Percent(open));
    NoPulseInRepeat(SelectButton(number - from > 0), Abs(number - from));
    NoPulseInPublished(connected, number, Percent(open));
    PulseCountAppend(c, [Press(PulseButton(open))]);
    PulseCountAppend(c + [Press(PulseButton(open))], p);
    assert [Press(PulseButton(open))][..0] == [];
  }

  /** After one open or close operation the remote's selection is at `number`. */
  lemma ActuationLands(from: int, number: int, open: bool, connected: bool)
    ensures from + Displacement(Actuation(from, number, open, connected)) == number
  {
    var c := Clicks(from, number);
    var pulse := [Press(PulseButton(open))];
    var p := Published(connected, number, Percent(open));
    ClicksReachTarget(from, number);
    PublishedDoesNotMove(connected, number, Percent(open));
    assert pulse[..0] == [];
    assert Displacement(pulse) == 0;
    DisplacementAppend(c, pulse);
    DisplacementAppend(c + pulse, p);
  }
}

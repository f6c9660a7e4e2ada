/** The program's mutable state and the operations that change it in place:
    the commanded state of each window, the believed selector cursor, the busy
    flag, the broker connection, and the trace of everything pressed, published
    or requested from the broker. */
module Remote {
  import opened Velux
  import opened Selection
  import opened Publishing
  import opened Windows
  import opened Dispatch
  import opened Connectivity

  class Controller {
    var lastAction: array<bool>  // commanded open state per window
    var current: int             // the window the remote is believed to have selected
    var busy: bool               // an open or close operation is in progress
    var connected: bool          // the broker session is up
    var trace: seq<Event>        // the observable effects so far, oldest first

    /** The state array has one entry per window, and the believed cursor is
        exactly where the presses made so far have taken the remote, which
        starts at window 0 after its reset. */
    ghost predicate Valid()
      reads this
    {
      lastAction.Length == NumberOfWindows && current == Displacement(trace)
    }

    /** The state right after the remote has been reset: every window
        commanded closed, the cursor on window 0, not busy, no broker session. */
    constructor ()
      ensures Valid() && fresh(lastAction)
      ensures lastAction[..] == [false, false, false, false, false]
      ensures current == 0 && !busy && !connected && trace == []
    {
      lastAction := new bool[NumberOfWindows](_ => false);
      current, busy, connected, trace := 0, false, false, [];
    }

    /** One click on the selector, towards the next window when `down`. */
    method ButtonSelectWindow(down: bool)
      modifies this`trace
      ensures trace == old(trace) + [Press(SelectButton(down))]
    {
      trace := trace + [Press(SelectButton(down))];
    }

    /** Press the selector until the remote has moved to `number`, then record
        that as the cursor. */
    method SelectWindows(number: int)
      requires Valid()
      modifies this`trace, this`current
      ensures Valid()
      ensures current == number
      ensures trace == old(trace) + Clicks(old(current), number)
    {
      var toMove := number - current;
      var direction := false;
      if toMove > 0 {
        direction := true;
      } else {
        toMove := -toMove;
      }
      for i := 0 to toMove
        invariant trace == old(trace) + Repeat(Press(SelectButton(direction)), i)
        modifies this`trace
      {
        ButtonSelectWindow(direction);
      }
      ClicksReachTarget(current, number);
      DisplacementAppend(old(trace), Clicks(current, number));
      current := number;
    }

    /** Send the percentage and the binary state of one window, if connected. */
    method PublishState(number: int, state: int)
      requires Valid()
      modifies this`trace
      ensures Valid()
      ensures trace == old(trace) + Published(connected, number, state)
    {
      PublishedDoesNotMove(connected, number, state);
      DisplacementAppend(trace, Published(connected, number, state));
      if !connected {
        return;
      }
      var topic := TopicVelux + Decimal.IntToText(number);
      trace := trace + [Publish(topic, Decimal.IntToText(state))];
      topic := VeluxState + Decimal.IntToText(number);
      if state > 10 {
        trace := trace + [Publish(topic, MessageMqttOpen)];
      } else {
        trace := trace + [Publish(topic, MessageMqttClosed)];
      }
    }

    /** Press the open or close contact once. */
    method Pulse(open: bool)
      requires Valid()
      modifies this`trace
      ensures Valid()
      ensures trace == old(trace) + [Press(PulseButton(open))]
    {
      var pulse := [Press(PulseButton(open))];
      assert pulse[..0] == [];
      DisplacementAppend(trace, pulse);
      trace := trace + pulse;
    }

    /** Open one window, or every window for the alias. The caller has set the
        busy flag; the operation clears it once done. */
    method OpenWindow(number: int)
      requires Valid() && busy
      requires 0 <= number < NumberOfWindows
      modifies this`current, this`busy, this`trace, lastAction
      ensures Valid()
      ensures lastAction[..] == Commanded(old(lastAction[..]), number, true)
      ensures current == number && !busy
      ensures trace == old(trace) + Actuation(old(current), number, true, connected)
    {
      ghost var from := current;
      lastAction[number] := true;
      if number == AllWindows {
        for i := 0 to NumberOfWindows
          invariant forall k :: 0 <= k < i ==> lastAction[k]
          invariant forall k :: i <= k < NumberOfWindows ==> lastAction[k] == (k == number || old(lastAction[k]))
          modifies lastAction
        {
          lastAction[i] := true;
        }
      }
      assert lastAction[..] == Commanded(old(lastAction[..]), number, true);
      SelectWindows(number);
      ghost var clicked := trace;
      Pulse(true);
      PublishState(number, 100);
      assert trace == clicked + [Press(PulseButton(true))] + Published(connected, number, Percent(true));
      AppendActuation(old(trace), from, number, true, connected);
      busy := false;
    }

    /** Close one window, or every window for the alias. The caller has set
        the busy flag; the operation clears it once done. */
    method CloseWindow(number: int)
      requires Valid() && busy
      requires 0 <= number < NumberOfWindows
      modifies this`current, this`busy, this`trace, lastAction
      ensures Valid()
      ensures lastAction[..] == Commanded(old(lastAction[..]), number, false)
      ensures current == number && !busy
      ensures trace == old(trace) + Actuation(old(current), number, false, connected)
    {
      ghost var from := current;
      lastAction[number] := false;
      if number == AllWindows {
        for i := 0 to NumberOfWindows
          invariant forall k :: 0 <= k < i ==> !lastAction[k]
          invariant forall k :: i <= k < NumberOfWindows ==> lastAction[k] == (k != number && old(lastAction[k]))
          modifies lastAction
        {
          lastAction[i] := false;
        }
      }
      assert lastAction[..] == Commanded(old(lastAction[..]), number, false);
      SelectWindows(number);
      ghost var clicked := trace;
      Pulse(false);
      PublishState(number, 0);
      assert trace == clicked + [Press(PulseButton(false))] + Published(connected, number, Percent(false));
      AppendActuation(old(trace), from, number, false, connected);
      busy := false;
    }

    /** Handle one inbound command. A command that finds its window already
        in the asked-for state, or whose topic is unusable, changes nothing. */
    method MqttMsgPublishReceived(topic: string, message: string) returns (r: Outcome)
      requires Valid()
      modifies this`current, this`busy, this`trace, lastAction
      ensures Valid()
      ensures r == Decide(old(lastAction[..]), topic, message)
      ensures lastAction[..] == Dispatched(old(lastAction[..]), topic, message)
      ensures r.Actuates() ==>
        && current == r.window && !busy
        && trace == old(trace) + Actuation(old(current), r.window, r.Opened?, connected)
      ensures !r.Actuates() ==> current == old(current) && busy == old(busy) && trace == old(trace)
    {
      if |topic| <= |TopicSubscribe| {
        return Malformed;
      }
      var number := TopicNumber(topic);
      if number < 0 || number >= NumberOfWindows {
        return Rejected(number);
      }
      if message == MessageMqttOpen {
        if !lastAction[number] {
          busy := true;
          OpenWindow(number);
          r := Opened(number);
        } else {
          r := Unchanged(number);
        }
      } else {
        if lastAction[number] {
          busy := true;
          CloseWindow(number);
          r := Closed(number);
        } else {
          r := Unchanged(number);
        }
      }
    }

    /** Connect to the broker, retrying after each failure until the retry
        budget is spent, then deep sleep; on success subscribe to the commands. */
    method TryReconnectMqtt(outcome: nat -> bool) returns (r: Reconnected)
      requires Valid()
      modifies this`connected, this`trace
      ensures Valid()
      ensures r == Reconnect(outcome)
      ensures connected == r.Subscribed?
      ensures trace == old(trace) + ReconnectTrace(r)
    {
      // Each round is one `Connect`; the loop goes round again while the
      // attempt failed and the check `retry++ > 10` did not fire.
      var retry: nat := 0;
      var connects := [Connect(DeviceName)];
      var ok := outcome(retry);
      while !ok && retry <= MaxRetry
        invariant retry <= MaxRetry + 1
        invariant ok == outcome(retry)
        invariant forall j :: 0 <= j < retry ==> !outcome(j)
        invariant connects == Repeat(Connect(DeviceName), retry + 1)
        decreases MaxRetry + 1 - retry
      {
        retry := retry + 1;
        connects := connects + [Connect(DeviceName)];
        ok := outcome(retry);
      }
      ReconnectEnds(outcome, retry);
      r := if ok then Subscribed(retry + 1) else Slept(retry + 1);
      // `SubscribeTopics()` on success, `SetupDeepSleepAndRetry()` otherwise
      var last := if ok then Subscribe(ActionTopics) else DeepSleep;
      assert ReconnectTrace(r) == connects + [last];
      ReconnectKeepsCursor(trace, r);
      connected, trace := ok, trace + ReconnectTrace(r);
    }

    /** The broker dropped the session: reconnect. */
    method MqttConnectionClosed(outcome: nat -> bool) returns (r: Reconnected)
      requires Valid()
      modifies this`connected, this`trace
      ensures Valid()
      ensures r == Reconnect(outcome)
      ensures connected == r.Subscribed?
      ensures trace == old(trace) + ReconnectTrace(r)
    {
      connected := false;
      r := TryReconnectMqtt(outcome);
    }

    /** The timer's window loop: every window's commanded state, in order. */
    method PublishWindows()
      requires Valid()
      modifies this`trace
      ensures Valid()
      ensures trace == old(trace) + if connected then Report(lastAction[..]) else []
    {
      for i := 0 to NumberOfWindows
        invariant Valid()
        invariant trace == old(trace) + if connected then Report(lastAction[..i]) else []
      {
        ghost var before := trace;
        PublishState(i, if lastAction[i] then 100 else 0);
        assert trace == before + Published(connected, i, Percent(lastAction[i]));
        AppendReport(old(trace), lastAction[..], i);
      }
      assert lastAction[..NumberOfWindows] == lastAction[..];
    }

    /** The periodic report: reconnect first if the session is down, then
        publish every window's state. `None` means no reconnect was needed. */
    method TimerCallBackPublish(outcome: nat -> bool) returns (r: Option<Reconnected>)
      requires Valid()
      modifies this`connected, this`trace
      ensures Valid()
      ensures r.None? <==> old(connected)
      ensures r.Some? ==> r.value == Reconnect(outcome)
      ensures r.Some? && r.value.Slept? ==> trace == old(trace) + ReconnectTrace(r.value)
      ensures !(r.Some? && r.value.Slept?) ==>
        && connected
        && trace == old(trace) + (if r.Some? then ReconnectTrace(r.value) else []) + Report(lastAction[..])
    {
      r := None;
      if !connected {
        var reconnected := TryReconnectMqtt(outcome);
        r := Some(reconnected);
        if reconnected.Slept? {
          return;
        }
      }
      PublishWindows();
    }
  }
}

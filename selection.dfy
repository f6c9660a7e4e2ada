/** The selector of the remote: which press sequence moves it from one window
    to another, and where a sequence of presses leaves it.

    The program never reads the selector back. `Displacement` is the reference
    model of the remote that the program's bookkeeping relies on: each press of
    `UpMiddleDown` moves the selection one window up the numbering, each press
    of `UpMiddleUp` one window down, and nothing else moves it. */
module Selection {
  import opened Velux

  function Abs(x: int): nat {
    if x < 0 then -x else x
  }

  /** `n` copies of the event `e`. */
  function Repeat(e: Event, n: nat): seq<Event> {
    if n == 0 then [] else Repeat(e, n - 1) + [e]
  }

  /** The selector button `ButtonSelectWindow(down)` presses. */
  function SelectButton(down: bool): Button {
    if down then UpMiddleDown else UpMiddleUp
  }

  /** The presses `SelectWindows` emits to move from window `from` to window `to`:
      one per window of distance, all in the same direction. */
  function Clicks(from: int, to: int): seq<Event> {
    Repeat(Press(SelectButton(to - from > 0)), Abs(to - from))
  }

  /** How far the remote's selection moves under the events `t`. */
  function Displacement(t: seq<Event>): int {
    if t == [] then 0
    else
      Displacement(t[..|t| - 1]) +
        match t[|t| - 1]
        case Press(UpMiddleDown) => 1
        case Press(UpMiddleUp) => -1
        case _ => 0
  }

  lemma {:induction false} RepeatAt(e: Event, n: nat)
    ensures |Repeat(e, n)| == n
    ensures forall k :: 0 <= k < n ==> Repeat(e, n)[k] == e
  {
    if n > 0 {
      RepeatAt(e, n - 1);
    }
  }

  lemma {:induction false} DisplacementAppend(a: seq<Event>, b: seq<Event>)
    ensures Displacement(a + b) == Displacement(a) + Displacement(b)
    decreases |b|
  {
    if b == [] {
      assert a + b == a;
    } else {
      var b' := b[..|b| - 1];
      assert (a + b)[..|a + b| - 1] == a + b';
      DisplacementAppend(a, b');
    }
  }

  lemma {:induction false} DisplacementRepeat(b: Button, n: nat)
    ensures Displacement(Repeat(Press(b), n)) ==
      n * (match b case UpMiddleDown => 1 case UpMiddleUp => -1 case _ => 0)
  {
    if n > 0 {
      DisplacementRepeat(b, n - 1);
      var r := Repeat(Press(b), n);
      assert r[..|r| - 1] == Repeat(Press(b), n - 1);
    }
  }

  /** `SelectWindows(to)` from `from` presses the selector exactly |to - from|
      times, always the same button, `UpMiddleDown` exactly when the target is
      above the cursor; no press at all when it is already there. */
  lemma ClicksShape(from: int, to: int)
    ensures |Clicks(from, to)| == Abs(to - from)
    ensures from == to ==> Clicks(from, to) == []
    ensures forall k :: 0 <= k < |Clicks(from, to)| ==>
      Clicks(from, to)[k] == Press(if to > from then UpMiddleDown else UpMiddleUp)
  {
    RepeatAt(Press(SelectButton(to - from > 0)), Abs(to - from));
  }

  /** The presses of `Clicks(from, to)` take the remote from `from` to exactly
      `to`, which is what justifies setting the cursor to the target afterwards. */
  lemma ClicksReachTarget(from: int, to: int)
    ensures from + Displacement(Clicks(from, to)) == to
  {
    DisplacementRepeat(SelectButton(to - from > 0), Abs(to - from));
  }

  /** Moving there and back costs the same number of presses, in opposite directions. */
  lemma ClicksReverse(from: int, to: int)
    ensures |Clicks(to, from)| == |Clicks(from, to)|
    ensures Displacement(Clicks(to, from)) == -Displacement(Clicks(from, to))
  {
    ClicksShape(from, to);
    ClicksShape(to, from);
    ClicksReachTarget(from, to);
    ClicksReachTarget(to, from);
  }
}

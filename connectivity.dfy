/** The broker reconnect policy of `TryReconnectMqtt`: connect; on failure
    check `retry++ > 10`, deep-sleep when it holds, otherwise wait and connect
    again; on success subscribe to the command topics. The connect results are
    an input: `outcome(k)` is whether the attempt made after `k` failures
    succeeds. */
module Connectivity {
  import opened Velux
  import opened Selection
  import opened Dispatch

  /** The bound the retry counter is compared with. */
  const MaxRetry: nat := 10

  /** The attempts made before giving up: the check fires when the counter,
      read before its increment, already exceeds `MaxRetry`, which is on the
      failure that follows `MaxRetry + 1` others. */
  const MaxAttempts: nat := MaxRetry + 2

  datatype Reconnected =
    | Subscribed(attempts: nat)  // connected on the last attempt, then subscribed
    | Slept(attempts: nat)       // gave up: deep sleep, the process restarts from scratch

  /** The result once `retry` attempts have failed. */
  function ReconnectFrom(outcome: nat -> bool, retry: nat): Reconnected
    requires retry <= MaxRetry + 1
    decreases MaxRetry + 1 - retry
  {
    if outcome(retry) then Subscribed(retry + 1)
    else if retry > MaxRetry then Slept(retry + 1)
    else ReconnectFrom(outcome, retry + 1)
  }

  function Reconnect(outcome: nat -> bool): Reconnected {
    ReconnectFrom(outcome, 0)
  }

  /** The events of a reconnect: one connect per attempt, then the
      subscription or the deep sleep. */
  function ReconnectTrace(r: Reconnected): seq<Event> {
    Repeat(Connect(DeviceName), r.attempts) + if r.Subscribed? then [Subscribe(ActionTopics)] else [DeepSleep]
  }

  /** Where the retry loop stops: after `retry` failures, at a success or
      when the check fires, the result is settled. */
  lemma ReconnectEnds(outcome: nat -> bool, retry: nat)
    requires retry <= MaxRetry + 1
    requires forall j :: 0 <= j < retry ==> !outcome(j)
    requires outcome(retry) || retry > MaxRetry
    ensures Reconnect(outcome) == if outcome(retry) then Subscribed(retry + 1) else Slept(retry + 1)
  {
    ReconnectFromSpec(outcome, 0);
    SleepsIffTwelveFailures(outcome);
    SubscribesOnFirstSuccess(outcome, retry);
  }

  /** The trace of a finished reconnect appended to earlier events, the last
      connect and the final event taken apart. */
  lemma AppendReconnectTrace(before: seq<Event>, r: Reconnected)
    requires r.attempts > 0
    ensures before + ReconnectTrace(r) ==
      before + Repeat(Connect(DeviceName), r.attempts - 1) + [Connect(DeviceName)] +
      if r.Subscribed? then [Subscribe(ActionTopics)] else [DeepSleep]
  {
  }

  lemma {:induction false} ReconnectFromSpec(outcome: nat -> bool, retry: nat)
    requires retry <= MaxRetry + 1
    ensures var r := ReconnectFrom(outcome, retry);
      && retry < r.attempts <= MaxAttempts
      && (r.Slept? <==> forall j :: retry <= j < MaxAttempts ==> !outcome(j))
      && (r.Slept? ==> r.attempts == MaxAttempts)
      && (r.Subscribed? ==> outcome(r.attempts - 1))
      && (forall j :: retry <= j < r.attempts - 1 ==> !outcome(j))
    decreases MaxRetry + 1 - retry
  {
    if !outcome(retry) && retry <= MaxRetry {
      ReconnectFromSpec(outcome, retry + 1);
    }
  }

  /** With every attempt failing, the check first fires on the 12th failure,
      and that is the only way the process ends in deep sleep. */
  lemma SleepsIffTwelveFailures(outcome: nat -> bool)
    ensures Reconnect(outcome).Slept? <==> forall j :: 0 <= j < 12 ==> !outcome(j)
    ensures Reconnect(outcome).Slept? ==> Reconnect(outcome).attempts == 12
  {
    ReconnectFromSpec(outcome, 0);
  }

  /** The reconnect stops at the first successful attempt, provided it comes
      within the first twelve. */
  lemma SubscribesOnFirstSuccess(outcome: nat -> bool, k: nat)
    ensures Reconnect(outcome) == Subscribed(k + 1) <==>
      k < MaxAttempts && outcome(k) && forall j :: 0 <= j < k ==> !outcome(j)
  {
    ReconnectFromSpec(outcome, 0);
  }

  /** The trace of a reconnect is only connect attempts, with one subscription
      at the end when it succeeds. */
  lemma ReconnectTraceShape(r: Reconnected)
    ensures var t := ReconnectTrace(r);
      && |t| == r.attempts + 1
      && (forall k :: 0 <= k < r.attempts ==> t[k] == Connect(DeviceName))
      && (t[r.attempts] == if r.Subscribed? then Subscribe(ActionTopics) else DeepSleep)
  {
    RepeatAt(Connect(DeviceName), r.attempts);
  }

  /** Connect attempts, subscriptions and deep sleep do not move the selector. */
  lemma ReconnectKeepsCursor(before: seq<Event>, r: Reconnected)
    ensures Displacement(before + ReconnectTrace(r)) == Displacement(before)
  {
    var tail := if r.Subscribed? then [Subscribe(ActionTopics)] else [DeepSleep];
    ConnectsDoNotMove(r.attempts);
    assert tail[..0] == [];
    DisplacementAppend(Repeat(Connect(DeviceName), r.attempts), tail);
    DisplacementAppend(before, ReconnectTrace(r));
  }

  lemma {:induction false} ConnectsDoNotMove(n: nat)
    ensures Displacement(Repeat(Connect(DeviceName), n)) == 0
  {
    if n > 0 {
      ConnectsDoNotMove(n - 1);
      var t := Repeat(Connect(DeviceName), n);
      assert t[..|t| - 1] == Repeat(Connect(DeviceName), n - 1);
    }
  }
}

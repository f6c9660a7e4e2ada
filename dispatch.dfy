/** Inbound commands on `velux/action{id}`: which window a topic addresses,
    what the payload asks for, and whether the command needs any actuation. */
module Dispatch {
  import opened Velux
  import opened Decimal
  import opened Windows

  /** The topics subscribed to, one per window including the alias. */
  const ActionTopics: seq<string> := [
    TopicSubscribe + "0", TopicSubscribe + "1", TopicSubscribe + "2",
    TopicSubscribe + "3", TopicSubscribe + "4"]

  /** Reading a window number out of a topic. */
  datatype Parsed =
    | TooShort              // no character after the prefix length: the indexer throws
    | OutOfRange(number: int)
    | Window(number: int)

  /** The character right after the prefix length, minus '0'; the topic's
      prefix itself is never compared. */
  function TopicNumber(topic: string): int
    requires |topic| > |TopicSubscribe|
  {
    (topic[|TopicSubscribe|] as int) - ('0' as int)
  }

  /** The window guard as the handler writes it: it rejects numbers below 0 or
      above `NumberOfWindows`, so it lets `NumberOfWindows` itself through. */
  function ParseWindowAsWritten(topic: string): Parsed {
    if |topic| <= |TopicSubscribe| then TooShort
    else
      var number := TopicNumber(topic);
      if number < 0 || number > NumberOfWindows then OutOfRange(number) else Window(number)
  }

  /** The window guard as intended: a window is admitted only when it indexes
      the commanded-state array. It differs from the guard as written only on
      the number `NumberOfWindows`. */
  function ParseWindow(topic: string): (r: Parsed)
    ensures r.TooShort? <==> |topic| <= |TopicSubscribe|
    ensures r.Window? ==> 0 <= r.number < NumberOfWindows && topic[|TopicSubscribe|] == DigitChar(r.number)
    ensures r.OutOfRange? ==> r.number == TopicNumber(topic) && (r.number < 0 || r.number >= NumberOfWindows)
    ensures ParseWindowAsWritten(topic) ==
      if r == OutOfRange(NumberOfWindows) then Window(NumberOfWindows) else r
  {
    if |topic| <= |TopicSubscribe| then TooShort
    else
      var number := TopicNumber(topic);
      if number < 0 || number >= NumberOfWindows then OutOfRange(number) else Window(number)
  }

  /** The finding: the guard as written admits window 5 for the topic
      "velux/action5", and 5 is past the end of the five-entry state array, so
      the handler's `LastAction[number]` would throw. */
  lemma GuardAdmitsFive()
    ensures ParseWindowAsWritten(TopicSubscribe + "5") == Window(5)
    ensures 5 >= NumberOfWindows
    ensures ParseWindow(TopicSubscribe + "5") == OutOfRange(5)
  {
  }

  /** Every subscribed topic addresses its own window. */
  lemma ActionTopicsParse()
    ensures |ActionTopics| == NumberOfWindows
    ensures forall i :: 0 <= i < NumberOfWindows ==> ParseWindow(ActionTopics[i]) == Window(i)
  {
    forall i | 0 <= i < NumberOfWindows
      ensures ParseWindow(ActionTopics[i]) == Window(i)
    {
      assert ActionTopics[i][|TopicSubscribe|] == DigitChar(i);
    }
  }

  /** What the handler does with one message. */
  datatype Outcome =
    | Malformed               // topic too short: the handler throws, nothing changes
    | Rejected(number: int)   // number out of range: logged and discarded
    | Unchanged(window: int)  // already in the commanded state: nothing to do
    | Opened(window: int)
    | Closed(window: int)
  {
    predicate Actuates() {
      Opened? || Closed?
    }
  }

  /** The payload decoding: exactly "ON" means open, anything else close. */
  predicate WantsOpen(message: string) {
    message == MessageMqttOpen
  }

  function Decide(commanded: seq<bool>, topic: string, message: string): Outcome
    requires |commanded| == NumberOfWindows
  {
    match ParseWindow(topic)
    case TooShort => Malformed
    case OutOfRange(number) => Rejected(number)
    case Window(number) =>
      if WantsOpen(message) then
        if !commanded[number] then Opened(number) else Unchanged(number)
      else
        if commanded[number] then Closed(number) else Unchanged(number)
  }

  /** The commanded states after handling one message. */
  function Dispatched(commanded: seq<bool>, topic: string, message: string): seq<bool>
    requires |commanded| == NumberOfWindows
  {
    match ParseWindow(topic)
    case Window(number) =>
      if commanded[number] == WantsOpen(message) then commanded
      else Commanded(commanded, number, WantsOpen(message))
    case _ => commanded
  }

  /** A message opens a window exactly when its topic addresses a valid window,
      its payload is "ON" and the window is commanded closed; it closes one
      exactly when the payload is anything else and the window is commanded
      open. Nothing is actuated for a malformed or out-of-range topic. */
  lemma DecideActuatesIff(commanded: seq<bool>, topic: string, message: string)
    requires |commanded| == NumberOfWindows
    ensures var r := Decide(commanded, topic, message);
      && (r.Opened? <==>
            ParseWindow(topic).Window? && WantsOpen(message) && !commanded[ParseWindow(topic).number])
      && (r.Closed? <==>
            ParseWindow(topic).Window? && !WantsOpen(message) && commanded[ParseWindow(topic).number])
      && (r.Actuates() ==> r.window == ParseWindow(topic).number)
      && (!r.Actuates() ==> Dispatched(commanded, topic, message) == commanded)
  {
  }

  /** After a message for a valid window, that window is commanded as the
      payload says, whether or not anything was actuated. */
  lemma DispatchedMatchesCommand(commanded: seq<bool>, topic: string, message: string)
    requires |commanded| == NumberOfWindows
    requires ParseWindow(topic).Window?
    ensures Dispatched(commanded, topic, message)[ParseWindow(topic).number] == WantsOpen(message)
  {
    CommandedEffect(commanded, ParseWindow(topic).number, WantsOpen(message));
  }

  /** A repeated command is a no-op: the second delivery of the same message
      actuates nothing and changes nothing. */
  lemma DispatchIdempotent(commanded: seq<bool>, topic: string, message: string)
    requires |commanded| == NumberOfWindows
    ensures var after := Dispatched(commanded, topic, message);
      && |after| == NumberOfWindows
      && !Decide(after, topic, message).Actuates()
      && Dispatched(after, topic, message) == after
  {
    if ParseWindow(topic).Window? {
      CommandedEffect(commanded, ParseWindow(topic).number, WantsOpen(message));
    }
  }

  /** "ON" on the alias topic, while the alias is commanded closed, opens the
      alias and leaves every window commanded open. */
  lemma AliasOpensAll(commanded: seq<bool>)
    requires |commanded| == NumberOfWindows && !commanded[AllWindows]
    ensures Decide(commanded, TopicSubscribe + "4", MessageMqttOpen) == Opened(AllWindows)
    ensures Dispatched(commanded, TopicSubscribe + "4", MessageMqttOpen) == [true, true, true, true, true]
  {
    assert ParseWindow(TopicSubscribe + "4") == Window(4);
  }
}

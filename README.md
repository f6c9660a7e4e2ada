# OpenVeluxMqtt — a verified model of the remote-control driver

OpenVeluxMqtt runs on an ESP32 wired to the buttons of a Velux remote. It
opens and closes roof windows on MQTT commands by pressing those buttons.
Nothing reads back the remote or the windows. The program keeps three pieces
of state: the commanded open state of each window (`LastAction`), the window
it believes the remote's selector is on (`currentWindowsNumber`), and a busy
flag (`_isBuzy`). This project models that state and the operations that
change it:

- the selector: `SelectWindows` and `ButtonSelectWindow`;
- open and close: `OpenWindow` and `CloseWindow`, including the "all
  windows" alias 4;
- the command handler `MqttMsgPublishReceived`;
- state publication: `PublishState` and the window loop of
  `TimerCallBackPublish`;
- the broker reconnect loop `TryReconnectMqtt` and the `MqttConnectionClosed`
  callback.

Button presses and MQTT traffic become `Event`s appended to a trace:
`Press(button)`, `Publish(topic, payload)`, `Connect(clientId)`,
`Subscribe(topics)` and `DeepSleep`.

Modules, one file each:

- `Velux` (`velux.dfy`): constants, buttons and their pins, events.
- `Decimal` (`decimal.dfy`): the decimal text of an `int`, as C# string
  interpolation renders it, and its inverse.
- `Selection` (`selection.dfy`): the selector presses for a move.
  `Displacement` is a reference model of the remote: it says where a
  sequence of presses leaves the selector.
- `Publishing` (`publishing.dfy`): the two messages of `PublishState` and the
  timer's report.
- `Windows` (`windows.dfy`): the commanded-state update of open and close,
  and the events of one operation.
- `Dispatch` (`dispatch.dfy`): the topic guard, the payload decoding and
  duplicate suppression.
- `Connectivity` (`connectivity.dfy`): the retry policy of the reconnect.
- `Remote` (`remote.dfy`): the class `Controller`. It holds the array, the
  cursor, the busy flag, the connection flag and the trace. Its methods change
  them in place.

`Controller.Valid()` states that the believed cursor always equals where the
presses made so far have taken the remote. The remote starts at window 0
after its reset. Every method preserves this, except the helper
`ButtonSelectWindow`: it records one selector press without moving the
cursor, and only `SelectWindows` calls it.

Connect results are an input: `outcome(k)` says whether the attempt made
after `k` failures succeeds.

## Model

| member | source | states |
|---|---|---|
| `Decimal.NatToText` | OpenVeluxMqtt/Program.cs:337-338 | a natural number is rendered as a non-empty string of digits with no leading zero |
| `Decimal.NatRoundTrip` | OpenVeluxMqtt/Program.cs:337-338 | reading back the digits of `n` gives `n` |
| `Decimal.IntRoundTrip` | OpenVeluxMqtt/Program.cs:337-338 | reading back the text of any `int`, negative ones included, gives that number |
| `Decimal.IntToTextInjective` | OpenVeluxMqtt/Program.cs:337-339 | two numbers get the same text only when they are equal, so topics of different windows differ |
| `Decimal.SingleDigit` | OpenVeluxMqtt/Program.cs:337 | a window number 0..9 is rendered as its single digit |
| `Selection.ClicksShape` | OpenVeluxMqtt/Program.cs:268-285 | moving from `from` to `to` takes exactly abs(to - from) selector presses, none when they are equal; every press is `ButtonUpMiddleDown` when `to > from` and `ButtonUpMiddleUp` otherwise |
| `Selection.ClicksReachTarget` | OpenVeluxMqtt/Program.cs:281-287 | those presses take the remote's selector from `from` to exactly `to`, so setting the cursor to the target is justified |
| `Selection.ClicksReverse` | OpenVeluxMqtt/Program.cs:268-285 | moving back costs the same number of presses, in the opposite direction |
| `Publishing.StateMessagesReadBack` | OpenVeluxMqtt/Program.cs:330-348 | `PublishState(n, s)` sends `velux/percent<n>` with `s`, then `velux/state<n>` with "ON" exactly when `s > 10`; a subscriber reads `n` and `s` back from them |
| `Publishing.PercentRoundTrip` | OpenVeluxMqtt/Program.cs:208 | the reported percentage is "100" for open and "0" for closed, and its state payload, read with the handler's own decoding, gives back the commanded state |
| `Publishing.ReportAt` | OpenVeluxMqtt/Program.cs:206-209 | the timer's report holds two messages per window in window order: percentage then state of window `i`, at positions 2i and 2i+1 |
| `Publishing.PublishedDoesNotMove` | OpenVeluxMqtt/Program.cs:330-348 | publishing presses no selector button |
| `Windows.CommandedEffect` | OpenVeluxMqtt/Program.cs:293-300 | opening or closing window `n` sets `LastAction[n]`; the alias 4 sets every entry; any other window leaves the other entries unchanged |
| `Windows.CommandedLastWins` | OpenVeluxMqtt/Program.cs:293-300 | of two commands for the same window only the later one's effect remains; a repeated command changes nothing more |
| `Windows.ActuationOnePulse` | OpenVeluxMqtt/Program.cs:301-305 | one open or close presses the open or close contact exactly once, right after the selector presses |
| `Windows.ActuationLands` | OpenVeluxMqtt/Program.cs:301-305 | after one open or close the remote's selector is on the addressed window, the alias 4 included |
| `Dispatch.ParseWindow` | OpenVeluxMqtt/Program.cs:128-133 | a topic is rejected when it has no character after the 12-character prefix or when that character minus '0' is not 0..4; an admitted window is that digit; the only difference from the guard as written is the number 5 |
| `Dispatch.GuardAdmitsFive` | OpenVeluxMqtt/Program.cs:128-133 | the guard as written admits 5 for "velux/action5", which is past the end of `LastAction` |
| `Dispatch.ActionTopicsParse` | OpenVeluxMqtt/Program.cs:164-178 | each subscribed topic `velux/action<i>` addresses window `i` |
| `Dispatch.DecideActuatesIff` | OpenVeluxMqtt/Program.cs:136-161 | a message opens exactly when its window is valid, its payload is "ON" and the window is commanded closed, and closes exactly when the payload is anything else and the window is commanded open; otherwise nothing changes |
| `Dispatch.DispatchedMatchesCommand` | OpenVeluxMqtt/Program.cs:136-161 | after a message for a valid window, that window is commanded as the payload says |
| `Dispatch.DispatchIdempotent` | OpenVeluxMqtt/Program.cs:136-161 | delivering the same message a second time actuates nothing and changes nothing |
| `Dispatch.AliasOpensAll` | OpenVeluxMqtt/Program.cs:136-147 | "ON" on `velux/action4` with the alias commanded closed opens the alias and commands every window open |
| `Connectivity.SleepsIffTwelveFailures` | OpenVeluxMqtt/Program.cs:216-229 | the reconnect ends in deep sleep exactly when the first twelve attempts all fail, and then it has made exactly twelve attempts |
| `Connectivity.SubscribesOnFirstSuccess` | OpenVeluxMqtt/Program.cs:216-232 | the reconnect succeeds on attempt k+1 exactly when attempt k is the first that succeeds and k < 12 |
| `Connectivity.ReconnectTraceShape` | OpenVeluxMqtt/Program.cs:217-232 | a reconnect emits one connect per attempt, followed by exactly one subscription on success or the deep sleep otherwise |
| `Connectivity.ReconnectKeepsCursor` | OpenVeluxMqtt/Program.cs:212-233 | a reconnect presses no selector button |
| `Remote.Controller.constructor` | OpenVeluxMqtt/Program.cs:56-59 | initial state: every window commanded closed, cursor 0, not busy, not connected, nothing emitted |
| `Remote.Controller.ButtonSelectWindow` | OpenVeluxMqtt/Program.cs:249-263 | one press of `ButtonUpMiddleDown` when `down`, of `ButtonUpMiddleUp` otherwise |
| `Remote.Controller.SelectWindows` | OpenVeluxMqtt/Program.cs:265-288 | emits the presses of `Clicks(old cursor, number)` and sets the cursor to `number` |
| `Remote.Controller.PublishState` | OpenVeluxMqtt/Program.cs:330-348 | sends nothing when not connected, otherwise the two state messages |
| `Remote.Controller.Pulse` | OpenVeluxMqtt/Program.cs:302-304 | one press of the open or close contact |
| `Remote.Controller.OpenWindow` | OpenVeluxMqtt/Program.cs:290-308 | `LastAction` becomes `Commanded(old, n, true)`, the cursor becomes `n`, the busy flag is cleared, and the trace gains the selector presses, one `ButtonMiddleUp` press and the state messages for 100 |
| `Remote.Controller.CloseWindow` | OpenVeluxMqtt/Program.cs:310-328 | the same with `false`, `ButtonMiddleDown` and 0 |
| `Remote.Controller.MqttMsgPublishReceived` | OpenVeluxMqtt/Program.cs:124-162 | the outcome and the new `LastAction` are those of `Decide` and `Dispatched`; when it actuates, the busy flag is set before the operation and is clear afterwards; otherwise cursor, busy flag and trace are unchanged |
| `Remote.Controller.TryReconnectMqtt` | OpenVeluxMqtt/Program.cs:212-233 | the result is `Reconnect(outcome)`, the session is up exactly when it subscribed, and the trace gains `ReconnectTrace` of the result |
| `Remote.Controller.MqttConnectionClosed` | OpenVeluxMqtt/Program.cs:181-184 | a dropped session runs the same reconnect |
| `Remote.Controller.PublishWindows` | OpenVeluxMqtt/Program.cs:206-209 | publishes `Report(LastAction)` when connected, nothing otherwise |
| `Remote.Controller.TimerCallBackPublish` | OpenVeluxMqtt/Program.cs:186-210 | reconnects first when the session is down; unless that ends in deep sleep, the session is up afterwards and every window's state is published |

## Findings

| source | as written | input that shows it | evidently intended | confidence | as-written member | corrected member |
|---|---|---|---|---|---|---|
| OpenVeluxMqtt/Program.cs:129 | `number > NumberOfWindows` admits 5, and the next line indexes `LastAction[5]` in a 5-entry array | topic "velux/action5" with any payload | `number >= NumberOfWindows`, so that 5 is logged and discarded like any other out-of-range number | medium, not executed; the program only subscribes to `velux/action0`..`velux/action4`, so the broker never delivers this topic | `Dispatch.GuardAdmitsFive` | `Dispatch.ParseWindow` |

`Dispatch.ParseWindowAsWritten` is the guard as written. The handler
`Controller.MqttMsgPublishReceived` uses the corrected guard.

## The alias window

- The alias 4 goes through `SelectWindows(4)` (Program.cs:301 and 321), so
  the cursor becomes 4 after an alias operation.
- `OpenWindow`/`CloseWindow` publish only window 4's state (Program.cs:305
  and 325). The next timer tick reports the other windows.

## Left out

- GPIO setup, the remote reset and the pin writes: each click is one
  `Press` event.
- Every `Thread.Sleep`: click length, the gap between clicks, the 28 s travel
  time and the 30 s reconnect back-off. They are delays with no logical
  content.
- The busy-wait on `_isBuzy` before an operation (Program.cs:140-143,
  153-156), and the races between the MQTT callback, the timer and the
  connection-closed callback. The model is sequential. The handler sets the
  busy flag, and `OpenWindow`/`CloseWindow` require it to be set and clear it.
- `ConnectToWifi`, `Main` and `SubscribeTopics` as a call. `Main`'s second
  `SubscribeTopics` after the first reconnect (Program.cs:112) is not
  modelled. The subscription is the `Subscribe(ActionTopics)` event a
  successful reconnect emits.
- The MQTT client library and the deep-sleep calls. A connect result is the
  input `outcome`; deep sleep is a terminal `DeepSleep` event.
- A null `_mqtt` in `PublishState` is folded into "not connected": no publish
  happens before the client exists.
- The AM2320 temperature and humidity read and publish
  (Program.cs:193-204): a foreign driver with floating-point values.
- UTF-8 encoding of payloads and `Debug.WriteLine` logging. Payloads are
  strings.
- Dispatch.ParseWindow: a topic of 12 characters or fewer makes the source's
  indexer throw. The model returns `TooShort`, and the handler reports
  `Malformed` and changes nothing.
- Dispatch.TopicNumber: the length test and the index count Unicode scalar
  values, while C# counts UTF-16 code units. A topic with a character outside
  the Basic Multilingual Plane before position 12 is read at a different
  character. The five subscribed topics are plain ASCII, so the broker never
  delivers such a topic.
- Remote.Controller.MqttMsgPublishReceived: for the topic "velux/action5" the
  source passes its guard and then throws at `LastAction[5]` (Program.cs:138
  or 151). The model applies the corrected guard and returns `Rejected(5)`.
  The state is unchanged in both, and the broker never delivers this topic.
- Remote.Controller: nothing stops an operation after a reconnect has ended
  in `DeepSleep`. On the device, deep sleep restarts the program. The class
  does not enforce that the trace ends there.

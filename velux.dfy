/** Constants, buttons and observable events of the Velux remote driver.

    The program never reads anything back from the remote or the covers: all
    it does is press emulated buttons and talk to an MQTT broker. Both kinds of
    effect are recorded here as `Event`s in an output trace. */
module Velux {

  datatype Option<T> = None | Some(value: T)

  // MQTT topics and payloads
  const TopicSubscribe: string := "velux/action"
  const VeluxState: string := "velux/state"
  const TopicVelux: string := "velux/percent"
  const MessageMqttOpen: string := "ON"
  const MessageMqttClosed: string := "OFF"
  const DeviceName: string := "Velux2"

  // Windows: 0..3 are single covers, 4 is the alias for all of them
  const NumberOfWindows: nat := 5
  const AllWindows: nat := 4

  /** The remote-control contacts the program drives. */
  datatype Button =
    | UpMiddleUp    // selector: previous window
    | UpMiddleDown  // selector: next window
    | MiddleUp      // open the selected window
    | MiddleDown    // close the selected window
  {
    /** The GPIO pin wired to this contact. */
    function Pin(): nat
    {
      match this
      case UpMiddleUp => 22
      case UpMiddleDown => 19
      case MiddleUp => 18
      case MiddleDown => 17
    }
  }

  /** What the outside world can observe of the program. A `Press` is one
      click: the pin is driven high, held for the click length, then low. */
  datatype Event =
    | Press(button: Button)
    | Publish(topic: string, payload: string)
    | Connect(clientId: string)
    | Subscribe(topics: seq<string>)
    | DeepSleep
}

/**
 What the collector sees of the outside world: device events from udev, and
 the answers of the TEMPer matcher, of the sensor classes' constructors and
 of the open sensor handles. None of that code is part of this model; each
 answer is an oracle the caller supplies.
 */
module Devices {
  import opened Wrappers

  /**
   A udev device as delivered to `handle_device_event`: its identity and its
   `action`, which is `None` for devices found by the coldplug enumeration.
   */
  datatype Event<D> = Event(device: D, action: Option<string>)

  /** Outcome of constructing a sensor handle (`cls(device)`). */
  datatype Opened<H> = Opened(handle: H) | OpenFailed

  /**
   The answers the add and remove paths depend on.
   `supported`: `temper.matcher.match(device)` returns a sensor class.
   `open`: the first, guarded construction `cls(device)` (a failure is an IOError).
   `reopen`: the second, unguarded construction whose handle is stored.
   `closeFails`: `close()` on the handle raises.
   */
  datatype Driver<!D, !H> = Driver(
    supported: D -> bool,
    open: D -> Opened<H>,
    reopen: D -> Opened<H>,
    closeFails: H -> bool)

  /** One `(type, name, value)` triple returned by `read_sensor()`. */
  datatype Reading<V> = Reading(kind: string, name: string, value: V)

  /** Outcome of `read_sensor()` on one handle. */
  datatype ReadOutcome<V> = ReadOk(readings: seq<Reading<V>>) | ReadFailed

  /** The answers one collection pass depends on: each handle's read, `phy()` and `version`. */
  datatype Sensors<!H, V> = Sensors(
    read: H -> ReadOutcome<V>,
    phy: H -> string,
    version: H -> string)

  /** The readings a handle contributes: none when its read fails. */
  function ReadingsOf<H, V>(sensors: Sensors<H, V>, h: H): seq<Reading<V>>
  {
    match sensors.read(h)
    case ReadOk(rs) => rs
    case ReadFailed => []
  }
}

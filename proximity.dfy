/** The value types of the evdev proximity adaptor: the proximity state enumeration
    with its numeric encodings, the raw evdev record and the timestamped value that
    is published to listening clients. */
module Proximity {

  datatype Option<T> = None | Some(value: T)

  /** The three proximity states. Open: no target detected; Closed: target nearby. */
  datatype ProximityState = Unknown | Open | Closed

  /** The numeric value the enumeration assigns to each state. */
  function Encode(s: ProximityState): int
  {
    match s
    case Unknown => -1
    case Open => 0
    case Closed => 1
  }

  /** The state a recognised raw value stands for, if any: only the encodings of
      Open and Closed are accepted; every other value (Unknown's -1 included)
      names no state. */
  function DecodeValue(v: int): (r: Option<ProximityState>)
    ensures r.Some? <==> v == Encode(Open) || v == Encode(Closed)
    ensures r.Some? ==> Encode(r.value) == v && r.value != Unknown
  {
    if v == 0 then Some(Open)
    else if v == 1 then Some(Closed)
    else None
  }

  /** Every state is one of the three enumerators, each with its fixed encoding. */
  lemma ExactlyThreeStates(s: ProximityState)
    ensures s == Unknown || s == Open || s == Closed
    ensures Encode(Unknown) == -1 && Encode(Open) == 0 && Encode(Closed) == 1
    ensures Encode(s) in {-1, 0, 1}
  {
  }

  /** The encodings are pairwise distinct, so a published number identifies its state. */
  lemma EncodeInjective(a: ProximityState, b: ProximityState)
    ensures Encode(a) == Encode(b) <==> a == b
  {
  }

  /** Decoding inverts encoding on the two states a device can report. */
  lemma DecodeEncode(s: ProximityState)
    ensures DecodeValue(Encode(s)) == if s == Unknown then None else Some(s)
  {
  }

  /** A raw evdev record (`struct input_event`), without the kernel timestamp,
      which the adaptor does not use. */
  datatype InputEvent = InputEvent(evType: int, code: int, value: int)

  /** One published entry: the encoding of a proximity state and the time it was
      published at. */
  datatype TimedValue = TimedValue(value: int, timestamp: nat)
}

/** The event-to-state machine of the evdev proximity adaptor: one current state,
    updated by recognised evdev records, and an append-only sequence of published
    timestamped values standing for the output ring buffer as one reader sees it. */
module ProximityAdaptor {
  import opened Proximity

  /** The adaptor's observable state: the current proximity state and every value
      published so far, oldest first. */
  datatype AdaptorState = AdaptorState(current: ProximityState, published: seq<TimedValue>)

  /** The state of a freshly constructed adaptor. */
  function Initial(): AdaptorState
  {
    AdaptorState(Unknown, [])
  }

  /** The value listening clients last heard: the latest publication, or the
      initial Unknown when nothing has been published yet. */
  function LastPublished(published: seq<TimedValue>): int
  {
    if published == [] then Encode(Unknown)
    else published[|published| - 1].value
  }

  /** True when the current state is not what listening clients were last told. */
  predicate ChangedSincePublished(s: AdaptorState)
  {
    LastPublished(s.published) != Encode(s.current)
  }

  /** The state after one evdev record: a recognised record whose value encodes
      Open or Closed sets the state to it; any other record leaves it alone. */
  function AfterEvent(isProximityEvent: InputEvent -> bool, current: ProximityState, ev: InputEvent)
    : (r: ProximityState)
    ensures !isProximityEvent(ev) ==> r == current
    ensures isProximityEvent(ev) && (ev.value == 0 || ev.value == 1) ==> Encode(r) == ev.value
    ensures isProximityEvent(ev) && ev.value != 0 && ev.value != 1 ==> r == current
  {
    if isProximityEvent(ev) then
      match DecodeValue(ev.value)
      case Some(s) => s
      case None => current
    else current
  }

  /** The state after a synchronisation marker at time `timestamp`: clients are
      told the current state exactly when it differs from what they were last told. */
  function AfterSync(s: AdaptorState, timestamp: nat): (r: AdaptorState)
    ensures r.current == s.current
    ensures s.published <= r.published
    ensures |r.published| == |s.published| + 1 <==> ChangedSincePublished(s)
    ensures |r.published| == |s.published| <==> !ChangedSincePublished(s)
    ensures ChangedSincePublished(s) ==>
              r.published[|s.published|] == TimedValue(Encode(s.current), timestamp)
    ensures LastPublished(r.published) == Encode(s.current)
  {
    if ChangedSincePublished(s) then
      AdaptorState(s.current, s.published + [TimedValue(Encode(s.current), timestamp)])
    else s
  }

  /** No two adjacent published entries carry the same state. */
  predicate NoRepeats(published: seq<TimedValue>)
  {
    forall i :: 0 < i < |published| ==> published[i - 1].value != published[i].value
  }

  /** The invariant the adaptor keeps: clients are never told the same state twice
      in a row, never told Unknown, and told nothing while the state is still Unknown. */
  predicate Consistent(s: AdaptorState)
  {
    && NoRepeats(s.published)
    && (forall i :: 0 <= i < |s.published| ==> s.published[i].value != Encode(Unknown))
    && (s.current == Unknown ==> s.published == [])
  }

  lemma InitialConsistent()
    ensures Consistent(Initial())
    ensures Initial().current == Unknown && Initial().published == []
  {
  }

  /** An evdev record never touches what has been published and keeps the invariant. */
  lemma EventKeepsConsistent(isProximityEvent: InputEvent -> bool, s: AdaptorState, ev: InputEvent)
    requires Consistent(s)
    ensures Consistent(AdaptorState(AfterEvent(isProximityEvent, s.current, ev), s.published))
  {
  }

  /** A synchronisation marker keeps the invariant. */
  lemma SyncKeepsConsistent(s: AdaptorState, timestamp: nat)
    requires Consistent(s)
    ensures Consistent(AfterSync(s, timestamp))
  {
  }

  /** A second synchronisation marker with no record in between publishes nothing. */
  lemma SyncIdempotent(s: AdaptorState, t1: nat, t2: nat)
    ensures AfterSync(AfterSync(s, t1), t2) == AfterSync(s, t1)
    ensures |AfterSync(AfterSync(s, t1), t2).published| <= |s.published| + 1
  {
  }

  /** The adaptor. The recognition of a proximity record (its evdev type and code)
      is a parameter fixed at construction. */
  class ProximityAdaptorEvdev {
    var currentState: ProximityState
    var buffer: seq<TimedValue>
    const isProximityEvent: InputEvent -> bool

    /** The object invariant. */
    ghost predicate Valid()
      reads this
    {
      Consistent(State())
    }

    /** The abstract value of the adaptor. */
    function State(): AdaptorState
      reads this
    {
      AdaptorState(currentState, buffer)
    }

    constructor (isProximityEvent: InputEvent -> bool)
      ensures Valid()
      ensures this.isProximityEvent == isProximityEvent
      ensures State() == Initial()
    {
      this.isProximityEvent := isProximityEvent;
      currentState := Unknown;
      buffer := [];
    }

    /** Takes one evdev record from source `src`; only the current state may change. */
    method InterpretEvent(src: int, ev: InputEvent)
      requires Valid()
      modifies this`currentState
      ensures Valid()
      ensures currentState == AfterEvent(isProximityEvent, old(currentState), ev)
      ensures buffer == old(buffer)
    {
      EventKeepsConsistent(isProximityEvent, State(), ev);
      if isProximityEvent(ev) {
        if ev.value == Encode(Open) {
          currentState := Open;
        } else if ev.value == Encode(Closed) {
          currentState := Closed;
        }
      }
    }

    /** Publishes the current state with time `timestamp`: one entry is appended and
        the earlier ones stay as they were. Reached only from a marker at which the
        state has changed. */
    method CommitOutput(timestamp: nat)
      requires Valid() && ChangedSincePublished(State())
      modifies this`buffer
      ensures Valid()
      ensures buffer == old(buffer) + [TimedValue(Encode(currentState), timestamp)]
      ensures |buffer| == |old(buffer)| + 1 && old(buffer) <= buffer
    {
      SyncKeepsConsistent(State(), timestamp);
      buffer := buffer + [TimedValue(Encode(currentState), timestamp)];
    }

    /** Handles the synchronisation marker from source `src` at time `timestamp`:
        publishes the current state when it differs from the last published one. */
    method InterpretSync(src: int, timestamp: nat)
      requires Valid()
      modifies this`buffer
      ensures Valid()
      ensures State() == AfterSync(old(State()), timestamp)
    {
      var last := if buffer == [] then Encode(Unknown) else buffer[|buffer| - 1].value;
      if last != Encode(currentState) {
        CommitOutput(timestamp);
      }
    }
  }
}

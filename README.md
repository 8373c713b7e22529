# Evdev proximity adaptor — a Dafny model

This project models the core of sensorfw's `ProximityAdaptorEvdev`, the adaptor that
turns the kernel's evdev record stream from a proximity sensor into proximity
states and tells listening clients whenever the state has changed.

- `proximity.dfy` (module `Proximity`): the `ProximityState` enumeration
  (Unknown = -1, Open = 0 "no target detected", Closed = 1 "target nearby"), the
  decoding of a raw value into a state, the evdev record, and the timestamped
  value that is published.
- `adaptor.dfy` (module `ProximityAdaptor`): the class `ProximityAdaptorEvdev`
  with the header's two fields: `currentState` and `buffer`. `buffer` is an
  append-only sequence that stands for the output ring buffer as one reader sees
  it. The class has the methods `InterpretEvent`, `InterpretSync` and
  `CommitOutput`. `InterpretEvent` and `InterpretSync` are specified by functions
  on the abstract state (`AfterEvent`, `AfterSync`); `CommitOutput`'s contract
  gives the new buffer directly. The object invariant `Consistent` says that no two
  adjacent published entries carry the same state, that Unknown is never
  published, and that nothing is published while the state is still Unknown.
- `traces.dfy` (module `ProximityTraces`): runs over a stream of records and
  synchronisation markers, as the polling loop delivers them. It proves what a
  whole run publishes, compared against an independent reference (`Collapse`).
  It also proves that unrecognised records have no effect, and that the source
  index plays no part. Records and markers from different source indices are
  NOT kept apart: they all update and compare the one `currentState`, as the
  header's single field implies.

Modelling decisions:

- The header does not show which evdev type and code make a record a proximity
  record. Recognition is therefore a predicate `isProximityEvent`, fixed when the
  adaptor is constructed.
- A recognised record whose value is 0 sets the state to Open. A value of 1 sets
  it to Closed. Any other value leaves the state unchanged.
- The header declares no pending-state field, so a marker compares
  `currentState` with the last published entry. If they differ, `CommitOutput` is
  called, and it appends exactly one entry.
- The header promises a notification whenever the state changes. It does not
  say that a marker without a change publishes nothing; that is this model's
  reading of the promise. `NoRepeats` and `Consistent` depend on it: a body that
  committed at every marker would publish repeated values.
- Before anything has been published, clients are taken to know the initial
  state, Unknown. A marker before any recognised record therefore publishes
  nothing, since the state has not changed.
- The publication time comes from a clock, so it is a parameter of
  `InterpretSync` and `CommitOutput`.

## Model

| member | source | states |
|---|---|---|
| Proximity.DecodeValue | adaptors/proximityadaptor-evdev/proximityadaptor-evdev.h:50-54 | a raw value names a state exactly when it is the encoding of Open (0) or Closed (1), and then it is that state's encoding; Unknown is never decoded |
| Proximity.ExactlyThreeStates | adaptors/proximityadaptor-evdev/proximityadaptor-evdev.h:50-54 | every state is one of Unknown, Open, Closed, and their encodings are exactly Unknown = -1, Open = 0, Closed = 1 |
| Proximity.EncodeInjective | adaptors/proximityadaptor-evdev/proximityadaptor-evdev.h:50-54 | two states have the same encoding if and only if they are the same state |
| Proximity.DecodeEncode | adaptors/proximityadaptor-evdev/proximityadaptor-evdev.h:51-53 | decoding inverts encoding for Open and Closed and rejects Unknown's encoding |
| ProximityAdaptor.AfterEvent | adaptors/proximityadaptor-evdev/proximityadaptor-evdev.h:76-78 | an unrecognised record keeps the state; a recognised record with value 0 or 1 yields the state with that encoding; any other value keeps the state |
| ProximityAdaptor.AfterSync | adaptors/proximityadaptor-evdev/proximityadaptor-evdev.h:79-80 | a marker keeps the state and only extends the buffer; it appends one entry exactly when the state differs from the last published value (Unknown when nothing was published); that entry is the state's encoding with the marker's time; afterwards the last published value is the current state |
| ProximityAdaptor.InitialConsistent | adaptors/proximityadaptor-evdev/proximityadaptor-evdev.h:75-76 | a fresh adaptor is Unknown with an empty buffer and satisfies the invariant |
| ProximityAdaptor.EventKeepsConsistent | adaptors/proximityadaptor-evdev/proximityadaptor-evdev.h:75-78 | a record keeps the invariant (no adjacent repeats; Unknown never published; nothing published while the state is Unknown) |
| ProximityAdaptor.SyncKeepsConsistent | adaptors/proximityadaptor-evdev/proximityadaptor-evdev.h:75-80 | a marker keeps the invariant |
| ProximityAdaptor.SyncIdempotent | adaptors/proximityadaptor-evdev/proximityadaptor-evdev.h:80 | a second marker with no record in between publishes nothing; two markers publish at most one entry |
| ProximityAdaptor.ProximityAdaptorEvdev.constructor | adaptors/proximityadaptor-evdev/proximityadaptor-evdev.h:70-76 | a new adaptor is Unknown, has published nothing, and satisfies the invariant |
| ProximityAdaptor.ProximityAdaptorEvdev.InterpretEvent | adaptors/proximityadaptor-evdev/proximityadaptor-evdev.h:76-78 | the new state is AfterEvent of the old one, whatever `src` is; the buffer is untouched; the invariant is kept |
| ProximityAdaptor.ProximityAdaptorEvdev.CommitOutput | adaptors/proximityadaptor-evdev/proximityadaptor-evdev.h:75-79 | called only at a marker where the state has changed, it appends exactly one entry (the current state's encoding and the given time), leaves earlier entries unchanged and keeps the invariant |
| ProximityAdaptor.ProximityAdaptorEvdev.InterpretSync | adaptors/proximityadaptor-evdev/proximityadaptor-evdev.h:79-80 | the new abstract state is AfterSync of the old one, whatever `src` is; the invariant is kept |
| ProximityTraces.CollapseHasNoRepeats | adaptors/proximityadaptor-evdev/proximityadaptor-evdev.h:41 | the reference "one notification per change" sequence has no equal adjacent values, does not repeat the last published value, and is no longer than its input |
| ProximityTraces.RunPublishesCollapsed | adaptors/proximityadaptor-evdev/proximityadaptor-evdev.h:75-80 | after any run, the published values are the earlier ones followed by the states at each marker, with adjacent duplicates (and a repeat of the last published value) removed |
| ProximityTraces.FinalizedPerMarker | adaptors/proximityadaptor-evdev/proximityadaptor-evdev.h:80 | a run has exactly one finalized state per synchronisation marker |
| ProximityTraces.PublishCount | adaptors/proximityadaptor-evdev/proximityadaptor-evdev.h:79-80 | a run publishes as many entries as there are distinct adjacent states at its markers, and never more than the number of markers |
| ProximityTraces.RunOnlyAppends | adaptors/proximityadaptor-evdev/proximityadaptor-evdev.h:75-79 | no run modifies or removes an entry that was already published |
| ProximityTraces.RunKeepsConsistent | adaptors/proximityadaptor-evdev/proximityadaptor-evdev.h:41 | the invariant, and so "no two adjacent entries carry the same state", holds after any run |
| ProximityTraces.RunIgnoresSource | adaptors/proximityadaptor-evdev/proximityadaptor-evdev.h:76-80 | two runs that differ only in the source indices end in the same state with the same buffer |
| ProximityTraces.RunSkipsIgnored | adaptors/proximityadaptor-evdev/proximityadaptor-evdev.h:78 | deleting every unrecognised record, or every record with a value other than 0 or 1, from a run changes nothing |
| ProximityTraces.FirstReport | adaptors/proximityadaptor-evdev/proximityadaptor-evdev.h:76-80 | from a fresh adaptor, a record followed by a marker publishes something if and only if the record is a recognised Open or Closed report (the state differs from Unknown), and then exactly that value with the marker's time |
| ProximityTraces.FreshSyncSilent | adaptors/proximityadaptor-evdev/proximityadaptor-evdev.h:41 | a marker on a fresh adaptor changes nothing and publishes nothing |
| ProximityTraces.Scenario | adaptors/proximityadaptor-evdev/proximityadaptor-evdev.h:76-80 | the records 0, 0, 1, 1, 99, each followed by a marker, publish only Open at the first marker and Closed at the third |
| ProximityTraces.ScenarioOnAdaptor | adaptors/proximityadaptor-evdev/proximityadaptor-evdev.h:78-80 | the same scenario, driven through the class's methods, leaves exactly those two entries in the buffer |

## Left out

- `factoryMethod`, the destructor and adaptor-id registration (proximityadaptor-evdev.h:60-71): object creation and factory wiring only. The constructor is modelled only as the initial state.
- The `InputDevAdaptor` base class: opening and closing the device node, and the polling loop that delivers records. This is I/O. `ProximityTraces.Run` stands for the sequence of calls that loop makes.
- The ring buffer's internals: fixed capacity, overwriting the oldest entry, per-reader cursors, waking readers and locking. These are about concurrency and several readers. The buffer is modelled as the unbounded append-only sequence one reader sees.
- The clock (`QTime`, the system timestamp source): timestamps are parameters. Their monotonicity is therefore not modelled.
- The concrete evdev type and code constants and the layout of `struct input_event`: they are not visible in the header. Recognition is the predicate `isProximityEvent`, and the kernel's own timestamp in the record is dropped.
- The conversion of the signed state value into the unsigned field of `TimedUnsigned`: entries record the state's signed encoding (0 or 1; Unknown is never published).
- The bodies of the three member functions in the `.cpp` file are not part of this model. Their behaviour is reconstructed from the header's declarations and doc comments.

/** Runs of the adaptor over a stream of evdev records and synchronisation markers,
    as the polling loop delivers them, and what a run publishes. */
module ProximityTraces {
  import opened Proximity
  import opened ProximityAdaptor

  /** One call the polling loop makes into the adaptor. */
  datatype Step = Event(src: int, ev: InputEvent) | Sync(src: int, timestamp: nat)

  /** The effect of one call, as the adaptor's methods specify it. */
  function Apply(isProximityEvent: InputEvent -> bool, s: AdaptorState, step: Step): AdaptorState
  {
    match step
    case Event(_, ev) => AdaptorState(AfterEvent(isProximityEvent, s.current, ev), s.published)
    case Sync(_, t) => AfterSync(s, t)
  }

  /** The effect of a whole stream of calls, first call first. */
  function Run(isProximityEvent: InputEvent -> bool, s: AdaptorState, steps: seq<Step>): AdaptorState
    decreases |steps|
  {
    if steps == [] then s
    else Run(isProximityEvent, Apply(isProximityEvent, s, steps[0]), steps[1..])
  }

  /** The published values, without their timestamps. */
  function Values(published: seq<TimedValue>): seq<int>
  {
    seq(|published|, i requires 0 <= i < |published| => published[i].value)
  }

  /** The encoding of the state the adaptor is in at each synchronisation marker of
      `steps`, starting from state `current`; computed from the records alone. */
  function Finalized(isProximityEvent: InputEvent -> bool, current: ProximityState, steps: seq<Step>)
    : seq<int>
    decreases |steps|
  {
    if steps == [] then []
    else match steps[0]
      case Event(_, ev) => Finalized(isProximityEvent, AfterEvent(isProximityEvent, current, ev), steps[1..])
      case Sync(_, _) => [Encode(current)] + Finalized(isProximityEvent, current, steps[1..])
  }

  /** Reference definition of "one notification per change": `xs` with each run of
      equal adjacent values shrunk to one, and a leading run equal to `last` dropped. */
  function Collapse(last: int, xs: seq<int>): seq<int>
    decreases |xs|
  {
    if xs == [] then []
    else if last == xs[0] then Collapse(last, xs[1..])
    else [xs[0]] + Collapse(xs[0], xs[1..])
  }

  /** A collapsed sequence has no two equal adjacent values and does not start with `last`. */
  lemma {:induction false} CollapseHasNoRepeats(last: int, xs: seq<int>)
    ensures forall i :: 0 < i < |Collapse(last, xs)| ==> Collapse(last, xs)[i - 1] != Collapse(last, xs)[i]
    ensures Collapse(last, xs) != [] ==> last != Collapse(last, xs)[0]
    ensures |Collapse(last, xs)| <= |xs|
    decreases |xs|
  {
    if xs != [] {
      CollapseHasNoRepeats(last, xs[1..]);
      CollapseHasNoRepeats(xs[0], xs[1..]);
    }
  }

  lemma ValuesAppend(published: seq<TimedValue>, e: TimedValue)
    ensures Values(published + [e]) == Values(published) + [e.value]
  {
  }

  /** What a run publishes: exactly the finalized-at-sync states with consecutive
      duplicates (and a repeat of the last published value) removed, appended
      after what was there before. */
  lemma {:induction false} RunPublishesCollapsed(isProximityEvent: InputEvent -> bool, s: AdaptorState, steps: seq<Step>)
    ensures Values(Run(isProximityEvent, s, steps).published)
         == Values(s.published) + Collapse(LastPublished(s.published), Finalized(isProximityEvent, s.current, steps))
    decreases |steps|
  {
    if steps == [] {
    } else {
      var s' := Apply(isProximityEvent, s, steps[0]);
      RunPublishesCollapsed(isProximityEvent, s', steps[1..]);
      match steps[0]
      case Event(_, ev) =>
      case Sync(_, t) =>
        var e := Encode(s.current);
        var rest := Finalized(isProximityEvent, s.current, steps[1..]);
        assert Finalized(isProximityEvent, s.current, steps) == [e] + rest;
        if ChangedSincePublished(s) {
          ValuesAppend(s.published, TimedValue(e, t));
          assert Collapse(LastPublished(s.published), [e] + rest) == [e] + Collapse(e, rest) by {
            assert ([e] + rest)[1..] == rest;
          }
        } else {
          assert Collapse(LastPublished(s.published), [e] + rest) == Collapse(e, rest) by {
            assert ([e] + rest)[1..] == rest;
          }
        }
    }
  }

  /** The number of synchronisation markers in `steps`. */
  function Markers(steps: seq<Step>): nat
    decreases |steps|
  {
    if steps == [] then 0
    else (if steps[0].Sync? then 1 else 0) + Markers(steps[1..])
  }

  /** There is one finalized state per marker. */
  lemma {:induction false} FinalizedPerMarker(isProximityEvent: InputEvent -> bool, current: ProximityState, steps: seq<Step>)
    ensures |Finalized(isProximityEvent, current, steps)| == Markers(steps)
    decreases |steps|
  {
    if steps != [] {
      match steps[0]
      case Event(_, ev) => FinalizedPerMarker(isProximityEvent, AfterEvent(isProximityEvent, current, ev), steps[1..]);
      case Sync(_, _) => FinalizedPerMarker(isProximityEvent, current, steps[1..]);
    }
  }

  /** The number of notifications a run makes is the number of distinct adjacent
      finalized states; in particular never more than the number of markers. */
  lemma PublishCount(isProximityEvent: InputEvent -> bool, s: AdaptorState, steps: seq<Step>)
    ensures |Run(isProximityEvent, s, steps).published|
         == |s.published| + |Collapse(LastPublished(s.published), Finalized(isProximityEvent, s.current, steps))|
    ensures |Run(isProximityEvent, s, steps).published| <= |s.published| + Markers(steps)
  {
    RunPublishesCollapsed(isProximityEvent, s, steps);
    CollapseHasNoRepeats(LastPublished(s.published), Finalized(isProximityEvent, s.current, steps));
    FinalizedPerMarker(isProximityEvent, s.current, steps);
  }

  /** Entries already published are never modified, whatever the run does. */
  lemma {:induction false} RunOnlyAppends(isProximityEvent: InputEvent -> bool, s: AdaptorState, steps: seq<Step>)
    ensures s.published <= Run(isProximityEvent, s, steps).published
    decreases |steps|
  {
    if steps != [] {
      RunOnlyAppends(isProximityEvent, Apply(isProximityEvent, s, steps[0]), steps[1..]);
    }
  }

  /** The adaptor's invariant holds after any run, so no two adjacent entries of the
      buffer ever carry the same state. */
  lemma {:induction false} RunKeepsConsistent(isProximityEvent: InputEvent -> bool, s: AdaptorState, steps: seq<Step>)
    requires Consistent(s)
    ensures Consistent(Run(isProximityEvent, s, steps))
    ensures NoRepeats(Run(isProximityEvent, s, steps).published)
    decreases |steps|
  {
    if steps != [] {
      match steps[0] {
        case Event(_, ev) => EventKeepsConsistent(isProximityEvent, s, ev);
        case Sync(_, t) => SyncKeepsConsistent(s, t);
      }
      RunKeepsConsistent(isProximityEvent, Apply(isProximityEvent, s, steps[0]), steps[1..]);
    }
  }

  /** A step with its source index erased. */
  function Unsourced(step: Step): Step
  {
    match step
    case Event(_, ev) => Event(0, ev)
    case Sync(_, t) => Sync(0, t)
  }

  /** Two streams that differ only in their source indices. */
  predicate SameUpToSource(a: seq<Step>, b: seq<Step>)
  {
    |a| == |b| && forall i :: 0 <= i < |a| ==> Unsourced(a[i]) == Unsourced(b[i])
  }

  /** The adaptor keeps one state for all sources: relabelling the source index of
      any record or marker changes neither the state nor what is published. */
  lemma {:induction false} RunIgnoresSource(isProximityEvent: InputEvent -> bool, s: AdaptorState, a: seq<Step>, b: seq<Step>)
    requires SameUpToSource(a, b)
    ensures Run(isProximityEvent, s, a) == Run(isProximityEvent, s, b)
    decreases |a|
  {
    if a != [] {
      assert Unsourced(a[0]) == Unsourced(b[0]);
      assert Apply(isProximityEvent, s, a[0]) == Apply(isProximityEvent, s, b[0]);
      assert SameUpToSource(a[1..], b[1..]) by {
        forall i | 0 <= i < |a| - 1 ensures Unsourced(a[1..][i]) == Unsourced(b[1..][i]) {
          assert a[1..][i] == a[i + 1] && b[1..][i] == b[i + 1];
        }
      }
      RunIgnoresSource(isProximityEvent, Apply(isProximityEvent, s, a[0]), a[1..], b[1..]);
    }
  }

  /** A record that cannot change the state: not a proximity record, or one whose
      value encodes neither Open nor Closed. */
  predicate Ignored(isProximityEvent: InputEvent -> bool, step: Step)
  {
    step.Event? && (!isProximityEvent(step.ev) || DecodeValue(step.ev.value).None?)
  }

  /** `steps` without its ignored records. */
  function DropIgnored(isProximityEvent: InputEvent -> bool, steps: seq<Step>): (r: seq<Step>)
    ensures |r| <= |steps|
    ensures forall i :: 0 <= i < |r| ==> !Ignored(isProximityEvent, r[i])
    decreases |steps|
  {
    if steps == [] then []
    else if Ignored(isProximityEvent, steps[0]) then DropIgnored(isProximityEvent, steps[1..])
    else [steps[0]] + DropIgnored(isProximityEvent, steps[1..])
  }

  /** Unrecognised records, however many and wherever interleaved, neither change
      the state nor cause a notification. */
  lemma {:induction false} RunSkipsIgnored(isProximityEvent: InputEvent -> bool, s: AdaptorState, steps: seq<Step>)
    ensures Run(isProximityEvent, s, steps) == Run(isProximityEvent, s, DropIgnored(isProximityEvent, steps))
    decreases |steps|
  {
    if steps != [] {
      RunSkipsIgnored(isProximityEvent, Apply(isProximityEvent, s, steps[0]), steps[1..]);
      if !Ignored(isProximityEvent, steps[0]) {
        var r := DropIgnored(isProximityEvent, steps[1..]);
        assert DropIgnored(isProximityEvent, steps) == [steps[0]] + r;
        assert ([steps[0]] + r)[1..] == r;
      }
    }
  }

  /** From a fresh adaptor, a first record followed by a marker publishes exactly
      when the record is a recognised Open or Closed report, that is, exactly when
      the state differs from the initial Unknown; it then publishes that value with
      the marker's time. */
  lemma FirstReport(isProximityEvent: InputEvent -> bool, ev: InputEvent, src: int, src': int, t: nat)
    ensures var published := Run(isProximityEvent, Initial(), [Event(src, ev), Sync(src', t)]).published;
      && (published != [] <==> isProximityEvent(ev) && (ev.value == Encode(Open) || ev.value == Encode(Closed)))
      && (published != [] ==> published == [TimedValue(ev.value, t)])
  {
    var steps := [Event(src, ev), Sync(src', t)];
    var s1 := Apply(isProximityEvent, Initial(), steps[0]);
    assert s1.published == [];
    assert steps[1..] == [Sync(src', t)];
    assert Run(isProximityEvent, s1, steps[1..]) == AfterSync(s1, t);
  }

  /** A marker on a fresh adaptor tells clients nothing: the state has not changed. */
  lemma FreshSyncSilent(isProximityEvent: InputEvent -> bool, src: int, t: nat)
    ensures Run(isProximityEvent, Initial(), [Sync(src, t)]) == Initial()
  {
  }

  /** Open, Open, Closed, Closed, then an unrecognised value 99, each followed by a
      marker: only the two changes are published. */
  lemma Scenario(isProximityEvent: InputEvent -> bool, e0: InputEvent, e1: InputEvent, e99: InputEvent)
    requires e0.value == 0 && e1.value == 1 && e99.value == 99
    requires isProximityEvent(e0) && isProximityEvent(e1) && isProximityEvent(e99)
    ensures Run(isProximityEvent, Initial(),
                [Event(0, e0), Sync(0, 1), Event(0, e0), Sync(0, 2),
                 Event(0, e1), Sync(0, 3), Event(0, e1), Sync(0, 4),
                 Event(0, e99), Sync(0, 5)])
         == AdaptorState(Closed, [TimedValue(Encode(Open), 1), TimedValue(Encode(Closed), 3)])
  {
    var steps := [Event(0, e0), Sync(0, 1), Event(0, e0), Sync(0, 2),
                  Event(0, e1), Sync(0, 3), Event(0, e1), Sync(0, 4),
                  Event(0, e99), Sync(0, 5)];
    var s1 := AdaptorState(Open, []);
    var s2 := AdaptorState(Open, [TimedValue(0, 1)]);
    var s5 := AdaptorState(Closed, [TimedValue(0, 1)]);
    var s6 := AdaptorState(Closed, [TimedValue(0, 1), TimedValue(1, 3)]);
    var states := [Initial(), s1, s2, s2, s2, s5, s6, s6, s6, s6, s6];
    forall k | 0 <= k < 10
      ensures Run(isProximityEvent, states[k], steps[k..]) == Run(isProximityEvent, states[k + 1], steps[k + 1..])
    {
      assert Apply(isProximityEvent, states[k], steps[k]) == states[k + 1];
      assert steps[k..][1..] == steps[k + 1..];
    }
    assert Run(isProximityEvent, Initial(), steps) == Run(isProximityEvent, states[0], steps[0..]);
    assert Run(isProximityEvent, states[10], steps[10..]) == s6;
  }

  /** A client driving the adaptor object through the same scenario. */
  method ScenarioOnAdaptor(isProximityEvent: InputEvent -> bool, e0: InputEvent, e1: InputEvent, e99: InputEvent)
    returns (published: seq<TimedValue>)
    requires e0.value == 0 && e1.value == 1 && e99.value == 99
    requires isProximityEvent(e0) && isProximityEvent(e1) && isProximityEvent(e99)
    ensures published == [TimedValue(Encode(Open), 1), TimedValue(Encode(Closed), 3)]
  {
    var a := new ProximityAdaptorEvdev(isProximityEvent);
    a.InterpretEvent(0, e0);
    a.InterpretSync(0, 1);
    a.InterpretEvent(0, e0);
    a.InterpretSync(0, 2);
    a.InterpretEvent(0, e1);
    a.InterpretSync(0, 3);
    a.InterpretEvent(0, e1);
    a.InterpretSync(0, 4);
    a.InterpretEvent(0, e99);
    a.InterpretSync(0, 5);
    published := a.buffer;
  }
}

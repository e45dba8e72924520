/** A lazily loaded relation property: an accessor that starts a load on first
    read and turns into a plain property once a value is loaded or set. */
module LazyProperties {
  import opened Metadata

  /** A started load, as the holders of its promise see it. */
  datatype Load<V> = InFlight | Resolved(value: V) | Failed

  /** The property on the entity; only a plain one is enumerable. */
  datatype Property<V> = Accessor | Plain(value: V)

  datatype State<V> = State(loaded: bool, cached: Option<V>, inFlight: Option<nat>, property: Property<V>,
                            loads: seq<Load<V>>)

  datatype Event<V> = Get | Set(value: V) | Resolve(result: V) | Reject

  function Injected<V>(): State<V> {
    State(false, None, None, Accessor, [])
  }

  /** The accessor's getter: an in-flight load is shared. A plain property
      answers without running it. */
  function AfterGet<V>(s: State<V>): State<V> {
    if s.property.Plain? || s.loaded || s.inFlight.Some? then s
    else s.(inFlight := Some(|s.loads|), loads := s.loads + [InFlight])
  }

  /** Assignment: the setter while it is an accessor, a plain write after. */
  function AfterSet<V>(s: State<V>, value: V): State<V> {
    if s.property.Plain? then s.(property := Plain(value))
    else s.(loaded := true, cached := Some(value), property := Plain(value))
  }

  /** The in-flight load's result arrives; a value set meanwhile is kept. */
  function AfterResolve<V>(s: State<V>, result: V): State<V> {
    if s.inFlight.None? || s.inFlight.value >= |s.loads| then s
    else
      var i := s.inFlight.value;
      if s.loaded then
        s.(inFlight := None, loads := s.loads[i := Resolved(if s.cached.Some? then s.cached.value else result)])
      else
        State(true, Some(result), None, Plain(result), s.loads[i := Resolved(result)])
  }

  /** A failed load frees the slot, so a later read tries again. */
  function AfterReject<V>(s: State<V>): State<V> {
    if s.inFlight.None? || s.inFlight.value >= |s.loads| then s
    else s.(inFlight := None, loads := s.loads[s.inFlight.value := Failed])
  }

  /** Settling without a load in flight is no event at all. */
  function Step<V>(s: State<V>, event: Event<V>): State<V> {
    match event
    case Get => AfterGet(s)
    case Set(value) => AfterSet(s, value)
    case Resolve(result) => AfterResolve(s, result)
    case Reject => AfterReject(s)
  }

  function Run<V>(events: seq<Event<V>>): State<V> {
    if events == [] then Injected() else Step(Run(events[..|events| - 1]), events[|events| - 1])
  }

  /** The values assigned, in order. */
  function Sets<V>(events: seq<Event<V>>): seq<V> {
    if events == [] then []
    else
      var last := events[|events| - 1];
      Sets(events[..|events| - 1]) + (if last.Set? then [last.value] else [])
  }

  function Count<V>(loads: seq<Load<V>>, which: Load<V> -> bool): nat {
    if loads == [] then 0
    else Count(loads[..|loads| - 1], which) + (if which(loads[|loads| - 1]) then 1 else 0)
  }

  function Flying<V>(): Load<V> -> bool { (l: Load<V>) => l.InFlight? }

  function Failures<V>(): Load<V> -> bool { (l: Load<V>) => l.Failed? }

  function Resolutions<V>(): Load<V> -> bool { (l: Load<V>) => l.Resolved? }

  // --------------------------------------------------------------- invariants

  /** Only the newest load can be unsettled, and the slot says whether it is. */
  ghost predicate OneInFlight<V>(s: State<V>) {
    && (s.inFlight.Some? ==> s.inFlight.value == |s.loads| - 1)
    && forall i :: 0 <= i < |s.loads| ==> (s.loads[i].InFlight? <==> s.inFlight == Some(i))
  }

  /** Until something is loaded or set every finished load has failed; only the
      last load can have resolved. */
  ghost predicate OnlyLastResolves<V>(s: State<V>) {
    && (s.loaded <==> s.cached.Some?) && (s.loaded <==> s.property.Plain?)
    && (forall i :: 0 <= i < |s.loads| - 1 ==> s.loads[i].Failed?)
    && (!s.loaded && s.loads != [] ==> !s.loads[|s.loads| - 1].Resolved?)
  }

  /** What the values assigned so far decide. */
  ghost predicate SetsDecide<V>(s: State<V>, sets: seq<V>) {
    && (sets != [] ==> s.property == Plain(sets[|sets| - 1]))
    && (sets == [] && s.loaded ==>
          s.inFlight.None? && s.loads != [] && s.property.Plain? && s.loads[|s.loads| - 1] == Resolved(s.property.value))
    && (s.inFlight.Some? ==> s.cached == if sets == [] then None else Some(sets[0]))
    && (!s.loaded ==> sets == [])
  }

  lemma {:induction false} RunKeeps<V>(events: seq<Event<V>>)
    ensures OneInFlight(Run(events)) && OnlyLastResolves(Run(events)) && SetsDecide(Run(events), Sets(events))
  {
    if events != [] {
      RunKeeps(events[..|events| - 1]);
      StepKeeps(Run(events[..|events| - 1]), Sets(events[..|events| - 1]), events[|events| - 1]);
    }
  }

  lemma StepKeeps<V>(s: State<V>, sets: seq<V>, event: Event<V>)
    requires OneInFlight(s) && OnlyLastResolves(s) && SetsDecide(s, sets)
    ensures OneInFlight(Step(s, event)) && OnlyLastResolves(Step(s, event))
    ensures SetsDecide(Step(s, event), sets + (if event.Set? then [event.value] else []))
  {}

  lemma {:induction false} CountAll<V>(loads: seq<Load<V>>)
    ensures |loads| == Count(loads, Failures()) + Count(loads, Resolutions()) + Count(loads, Flying())
  {
    if loads != [] { CountAll(loads[..|loads| - 1]); }
  }

  lemma {:induction false} CountNone<V>(loads: seq<Load<V>>, which: Load<V> -> bool)
    requires forall i :: 0 <= i < |loads| ==> !which(loads[i])
    ensures Count(loads, which) == 0
  {
    if loads != [] { CountNone(loads[..|loads| - 1], which); }
  }

  /** In every run each load started has failed, resolved or is in flight, with
      at most one resolution and at most one in flight. */
  lemma LoadsAreAccounted<V>(events: seq<Event<V>>)
    ensures var s := Run(events);
            && |s.loads| == Count(s.loads, Failures()) + Count(s.loads, Resolutions()) + (if s.inFlight.Some? then 1 else 0)
            && Count(s.loads, Flying()) == (if s.inFlight.Some? then 1 else 0)
            && Count(s.loads, Resolutions()) <= 1
  {
    RunKeeps(events);
    StateIsAccounted(Run(events));
  }

  lemma StateIsAccounted<V>(s: State<V>)
    requires OneInFlight(s) && OnlyLastResolves(s)
    ensures |s.loads| == Count(s.loads, Failures()) + Count(s.loads, Resolutions()) + (if s.inFlight.Some? then 1 else 0)
    ensures Count(s.loads, Flying()) == if s.inFlight.Some? then 1 else 0
    ensures Count(s.loads, Resolutions()) <= 1
  {
    CountAll(s.loads);
    if s.loads != [] {
      CountNone(s.loads[..|s.loads| - 1], Flying());
      CountNone(s.loads[..|s.loads| - 1], Resolutions());
    }
  }

  /** Once a value was set, no load changes it: the property holds the last value
      set. Without one it holds what the load returned. */
  lemma SetIsNeverOverwritten<V>(events: seq<Event<V>>)
    ensures var s := Run(events);
            && (Sets(events) != [] ==> s.property == Plain(Sets(events)[|Sets(events)| - 1]))
            && (Sets(events) == [] ==> s.property == if s.loads != [] && s.loads[|s.loads| - 1].Resolved?
                                                     then Plain(s.loads[|s.loads| - 1].value) else Accessor)
  {
    RunKeeps(events);
  }

  /** Whether the `i`th event loads or sets a value. */
  ghost predicate Delivers<V>(events: seq<Event<V>>, i: nat)
    requires i < |events|
  {
    events[i].Set? || (events[i].Resolve? && Run(events[..i]).inFlight.Some?)
  }

  lemma StepOfRun<V>(events: seq<Event<V>>, n: nat)
    requires n < |events|
    ensures Run(events[..n + 1]) == Step(Run(events[..n]), events[n])
  {
    assert events[..n + 1][..n] == events[..n];
  }

  lemma DeliveryStep<V>(events: seq<Event<V>>, n: nat)
    requires n < |events|
    ensures Run(events[..n + 1]).property.Plain? <==> Run(events[..n]).property.Plain? || Delivers(events, n)
    ensures Run(events[..n]).property.Plain? ==> |Run(events[..n + 1]).loads| == |Run(events[..n]).loads|
  {
    StepOfRun(events, n);
    RunKeeps(events[..n]);
  }

  /** The property is enumerable exactly once a value was loaded or set, and no
      load starts after that. */
  lemma {:induction false} EnumerableOnceDelivered<V>(events: seq<Event<V>>, n: nat)
    requires n <= |events|
    ensures Run(events[..n]).property.Plain? <==> exists i :: 0 <= i < n && Delivers(events, i)
    ensures n < |events| && Run(events[..n]).property.Plain? ==>
              |Run(events[..n + 1]).loads| == |Run(events[..n]).loads|
  {
    if n < |events| { DeliveryStep(events, n); }
    if n > 0 {
      EnumerableOnceDelivered(events, n - 1);
      DeliveryStep(events, n - 1);
    } else {
      assert events[..0] == [];
    }
  }

  /** A load that resolves after assignments hands its awaiters the first value
      assigned while the property holds the last: the two agree exactly when
      nothing was assigned or the first and last value are the same. */
  lemma AwaiterAgreesIff<V>(events: seq<Event<V>>, result: V)
    requires Run(events).inFlight.Some?
    ensures var s := Step(Run(events), Resolve(result));
            && |s.loads| > 0 && s.loads[|s.loads| - 1].Resolved? && s.property.Plain?
            && (Sets(events) == [] ==> s.property == Plain(result) && s.loads[|s.loads| - 1].value == result)
            && (Sets(events) != [] ==> s.loads[|s.loads| - 1].value == Sets(events)[0])
            && (s.loads[|s.loads| - 1].value == s.property.value
                <==> Sets(events) == [] || Sets(events)[0] == Sets(events)[|Sets(events)| - 1])
  {
    RunKeeps(events);
  }

  /** For example: read, assign `a`, assign `b`, then the load resolves. */
  lemma AwaiterMissesSecondSet<V>(a: V, b: V, result: V)
    requires a != b
    ensures var s := Run([Get, Set(a), Set(b), Resolve(result)]);
            s.property == Plain(b) && s.loads == [Resolved(a)]
  {
    var events := [Get, Set(a), Set(b), Resolve(result)];
    assert events[..0] == [] && events[..4] == events;
    StepOfRun(events, 0);
    StepOfRun(events, 1);
    StepOfRun(events, 2);
    StepOfRun(events, 3);
  }

  // ------------------------------------------------------- the property itself

  /** What reading the property gives. */
  datatype Read<V> = Value(value: Option<V>) | Promise(load: nat)

  class LazyProperty<V(==)> {
    var loaded: bool
    var cachedValue: Option<V>
    var loadPromise: Option<nat>
    var property: Property<V>
    var loads: seq<Load<V>>

    ghost function Contents(): State<V>
      reads this
    {
      State(loaded, cachedValue, loadPromise, property, loads)
    }

    ghost predicate Valid()
      reads this
    {
      OneInFlight(Contents()) && OnlyLastResolves(Contents())
    }

    constructor ()
      ensures Valid() && Contents() == Injected()
    {
      loaded, cachedValue, loadPromise, property, loads := false, None, None, Accessor, [];
    }

    method Get() returns (r: Read<V>)
      requires Valid()
      modifies this
      ensures Valid() && Contents() == Step(old(Contents()), Event.Get)
      ensures r == if property.Plain? then Value(Some(property.value)) else Promise(|loads| - 1)
      ensures property.Accessor? ==> loads[|loads| - 1].InFlight?
    {
      ghost var before := Contents();
      if property.Plain? { return Value(Some(property.value)); }
      if loaded { return Value(cachedValue); }
      if loadPromise.None? {
        loadPromise := Some(|loads|);
        loads := loads + [InFlight];
      }
      StepKeepsValid(before, Event.Get);
      return Promise(loadPromise.value);
    }

    method Set(value: V)
      requires Valid()
      modifies this
      ensures Valid() && Contents() == Step(old(Contents()), Event.Set(value))
    {
      if property.Accessor? {
        loaded := true;
        cachedValue := Some(value);
      }
      property := Plain(value);
    }

    /** The reaction to the load's result. */
    method Resolved(result: V)
      requires Valid() && loadPromise.Some?
      modifies this
      ensures Valid() && Contents() == Step(old(Contents()), Resolve(result))
    {
      var i := loadPromise.value;
      loadPromise := None;
      if loaded {
        loads := loads[i := Load.Resolved(cachedValue.value)];
        return;
      }
      loaded := true;
      cachedValue := Some(result);
      property := Plain(result);
      loads := loads[i := Load.Resolved(result)];
    }

    /** The reaction to its failure. */
    method Rejected()
      requires Valid() && loadPromise.Some?
      modifies this
      ensures Valid() && Contents() == Step(old(Contents()), Reject)
    {
      loads := loads[loadPromise.value := Failed];
      loadPromise := None;
    }
  }

  lemma StepKeepsValid<V>(s: State<V>, event: Event<V>)
    requires OneInFlight(s) && OnlyLastResolves(s)
    ensures OneInFlight(Step(s, event)) && OnlyLastResolves(Step(s, event))
  {}
}

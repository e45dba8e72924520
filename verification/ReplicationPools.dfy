/** The pool registry of a replicated connection: one opening per node, shared
    by its readers, detached and closed by the next release. */
module ReplicationPools {
  import opened Metadata

  type Node = string
  type Config = string

  /** A `Map` from a node to its opening. */
  type Registry = map<Node, nat>

  datatype Status = Opening | Open | Failed

  /** An opening: its node, the registry it was put in (the map its failure
      handler captured), how far it got and how often its pool was closed. */
  datatype Pool = Pool(node: Node, registry: nat, status: Status, closes: nat)

  /** A release waiting for an opening it detached. */
  datatype Pending = Pending(registry: nat, pool: nat)

  /** `registries` are the maps the manager ever used; the last is current. */
  datatype State = State(router: Option<Config>, options: Option<Config>, registries: seq<Registry>,
                         pools: seq<Pool>, pending: set<Pending>)

  datatype Event =
    | Initialize(config: Config, supported: bool)
    | Connect(node: Node)
    | Opens(pool: nat)
    | Fails(pool: nat)
    | Drops(pool: nat)
    | Closes(waiting: Pending)
    | Shutdown

  const START := State(None, None, [map[]], [], {})

  function Current(s: State): Registry {
    if s.registries == [] then map[] else s.registries[|s.registries| - 1]
  }

  /** What a release waits for: every opening of the map it detaches. */
  function Detached(held: nat, registry: Registry): set<Pending> {
    set n | n in registry :: Pending(held, registry[n])
  }

  /** Drops the router and detaches every opening; each is closed once it is
      known to have opened. */
  function Released(s: State): State {
    State(None, None, s.registries + [map[]], s.pools,
          s.pending + (if s.registries == [] then {} else Detached(|s.registries| - 1, Current(s))))
  }

  /** The error path of a type replication does not support comes first. */
  function Initialized(s: State, config: Config, supported: bool): State {
    if supported then Released(s).(router := Some(config), options := Some(config)) else s
  }

  /** A connect shares its node's opening, or starts it. */
  function Connected(s: State, node: Node): State {
    if s.options.None? || node in Current(s) || s.registries == [] then s
    else
      var last: nat := |s.registries| - 1;
      var registry: Registry := s.registries[last][node := |s.pools|];
      s.(registries := s.registries[last := registry],
         pools := s.pools + [Pool(node, last, Opening, 0)])
  }

  function Settled(s: State, p: nat, status: Status): State {
    if p < |s.pools| && s.pools[p].status.Opening? then s.(pools := s.pools[p := s.pools[p].(status := status)]) else s
  }

  /** The reaction to a failure: the opening is dropped from the map it was put
      in, if that map still has it. */
  function Dropped(s: State, p: nat): State {
    if p < |s.pools| && s.pools[p].status.Failed? && s.pools[p].registry < |s.registries| then
      var r, node := s.pools[p].registry, s.pools[p].node;
      if node in s.registries[r] && s.registries[r][node] == p then
        s.(registries := s.registries[r := s.registries[r] - {node}])
      else s
    else s
  }

  /** A release goes on once the opening it waits for is settled. */
  function Closed(s: State, w: Pending): State {
    if w in s.pending && w.pool < |s.pools| && !s.pools[w.pool].status.Opening? then
      var pool := s.pools[w.pool];
      s.(pending := s.pending - {w},
         pools := if pool.status.Open? then s.pools[w.pool := pool.(closes := pool.closes + 1)] else s.pools)
    else s
  }

  function Step(s: State, event: Event): State {
    match event
    case Initialize(config, supported) => Initialized(s, config, supported)
    case Connect(node) => Connected(s, node)
    case Opens(p) => Settled(s, p, Open)
    case Fails(p) => Settled(s, p, Failed)
    case Drops(p) => Dropped(s, p)
    case Closes(w) => Closed(s, w)
    case Shutdown => Released(s)
  }

  function Run(events: seq<Event>): State {
    if events == [] then START else Step(Run(events[..|events| - 1]), events[|events| - 1])
  }

  // --------------------------------------------------------------- invariants

  ghost predicate InCurrent(s: State, p: nat)
    requires p < |s.pools|
  {
    s.pools[p].node in Current(s) && Current(s)[s.pools[p].node] == p
  }

  /** A map entry is an opening for that node, put in that map. */
  ghost predicate EntriesAreOpenings(s: State) {
    && s.registries != []
    && forall r, node :: 0 <= r < |s.registries| && node in s.registries[r] ==>
         s.registries[r][node] < |s.pools|
         && s.pools[s.registries[r][node]].node == node && s.pools[s.registries[r][node]].registry == r
  }

  /** Where an opening stands: current ones are unclosed and awaited by nobody;
      detached ones are awaited, or were closed once, by the one release that
      detached them. A failed one is never closed. */
  ghost predicate Accounted(s: State, p: nat)
    requires p < |s.pools|
  {
    var pool := s.pools[p];
    && pool.registry < |s.registries| && (pool.status.Opening? || pool.status.Failed? ==> pool.closes == 0)
    && (!pool.status.Failed? && pool.registry == |s.registries| - 1 ==>
          InCurrent(s, p) && pool.closes == 0 && Pending(pool.registry, p) !in s.pending)
    && (!pool.status.Failed? && pool.registry < |s.registries| - 1 ==>
          pool.closes == if Pending(pool.registry, p) in s.pending then 0 else 1)
  }

  ghost predicate AllAccounted(s: State) {
    && (forall p :: 0 <= p < |s.pools| ==> Accounted(s, p))
    && (forall w :: w in s.pending ==>
          w.pool < |s.pools| && w.registry == s.pools[w.pool].registry && w.registry < |s.registries| - 1)
  }

  ghost predicate Good(s: State) {
    EntriesAreOpenings(s) && AllAccounted(s) && (s.options.Some? <==> s.router.Some?)
  }

  lemma ReleaseKeeps(s: State)
    requires Good(s)
    ensures Good(Released(s))
  {
    var s' := Released(s);
    assert s'.registries[..|s.registries|] == s.registries;
    forall p | 0 <= p < |s.pools| ensures Accounted(s', p) {
      assert Accounted(s, p);
      if Pending(s.pools[p].registry, p) in s'.pending && Pending(s.pools[p].registry, p) !in s.pending {
        assert exists n :: n in Current(s) && Pending(|s.registries| - 1, Current(s)[n]) == Pending(s.pools[p].registry, p);
      }
    }
  }

  lemma RouterKeeps(s: State, config: Config)
    requires Good(s)
    ensures Good(s.(router := Some(config), options := Some(config)))
  {
    var s' := s.(router := Some(config), options := Some(config));
    forall p | 0 <= p < |s.pools| ensures Accounted(s', p) { assert Accounted(s, p); }
  }

  lemma ConnectKeeps(s: State, node: Node)
    requires Good(s)
    ensures Good(Connected(s, node))
  {
    var s' := Connected(s, node);
    if s' != s {
      forall p | 0 <= p < |s.pools| ensures Accounted(s', p) { assert Accounted(s, p); }
    }
  }

  lemma SettleKeeps(s: State, p: nat, status: Status)
    requires Good(s) && status != Opening
    ensures Good(Settled(s, p, status))
  {
    var s' := Settled(s, p, status);
    forall q | 0 <= q < |s.pools| ensures Accounted(s', q) { assert Accounted(s, q); }
  }

  lemma DropKeeps(s: State, p: nat)
    requires Good(s)
    ensures Good(Dropped(s, p))
  {
    var s' := Dropped(s, p);
    forall q | 0 <= q < |s.pools| ensures Accounted(s', q) { assert Accounted(s, q); }
  }

  lemma CloseKeeps(s: State, w: Pending)
    requires Good(s)
    ensures Good(Closed(s, w))
  {
    var s' := Closed(s, w);
    forall q | 0 <= q < |s.pools| ensures Accounted(s', q) { assert Accounted(s, q); }
  }

  lemma StepKeeps(s: State, event: Event)
    requires Good(s)
    ensures Good(Step(s, event))
  {
    match event
    case Initialize(config, supported) =>
      ReleaseKeeps(s);
      if supported { RouterKeeps(Released(s), config); }
    case Connect(node) => ConnectKeeps(s, node);
    case Opens(p) => SettleKeeps(s, p, Open);
    case Fails(p) => SettleKeeps(s, p, Failed);
    case Drops(p) => DropKeeps(s, p);
    case Closes(w) => CloseKeeps(s, w);
    case Shutdown => ReleaseKeeps(s);
  }

  lemma {:induction false} RunKeeps(events: seq<Event>)
    ensures Good(Run(events))
  {
    if events != [] {
      RunKeeps(events[..|events| - 1]);
      StepKeeps(Run(events[..|events| - 1]), events[|events| - 1]);
    }
  }

  // ------------------------------------------------------------ what it means

  /** In every interleaving no node has two unfailed openings in the current
      registry. */
  lemma OneOpeningPerNode(events: seq<Event>, p: nat, q: nat)
    requires var s := Run(events);
             && p < |s.pools| && q < |s.pools| && s.pools[p].node == s.pools[q].node
             && s.pools[p].registry == s.pools[q].registry == |s.registries| - 1
             && !s.pools[p].status.Failed? && !s.pools[q].status.Failed?
    ensures p == q
  {
    RunKeeps(events);
    assert Accounted(Run(events), p) && Accounted(Run(events), q);
  }

  /** Every pool that opens is current, awaited by the release that detached it,
      or closed exactly once: exactly one of the three. */
  lemma OpenPoolIsAccounted(events: seq<Event>, p: nat)
    requires p < |Run(events).pools| && Run(events).pools[p].status.Open?
    ensures var s := Run(events); var pool := s.pools[p];
            && (InCurrent(s, p) <==> pool.registry == |s.registries| - 1)
            && pool.closes == (if InCurrent(s, p) || Pending(pool.registry, p) in s.pending then 0 else 1)
            && !(InCurrent(s, p) && Pending(pool.registry, p) in s.pending)
            && (forall w :: w in s.pending && w.pool == p ==> w == Pending(pool.registry, p))
  {
    RunKeeps(events);
    var s := Run(events);
    assert Accounted(s, p);
    if InCurrent(s, p) { assert s.registries[|s.registries| - 1][s.pools[p].node] == p; }
  }

  /** After a shutdown and once its openings have settled, no pool is left open. */
  lemma {:induction false} ShutdownLeavesNoneOpen(events: seq<Event>, rest: seq<Event>, p: nat)
    requires forall e :: e in rest ==> !e.Initialize?
    requires var s := Run(events + [Shutdown] + rest); s.pending == {} && p < |s.pools| && s.pools[p].status.Open?
    ensures Run(events + [Shutdown] + rest).pools[p].closes == 1
  {
    NoneCurrent(events, rest);
    OpenPoolIsAccounted(events + [Shutdown] + rest, p);
  }

  lemma {:induction false} NoneCurrent(events: seq<Event>, rest: seq<Event>)
    requires forall e :: e in rest ==> !e.Initialize?
    ensures var s := Run(events + [Shutdown] + rest); s.options.None? && Current(s) == map[]
  {
    var all := events + [Shutdown] + rest;
    if rest == [] {
      assert all[..|all| - 1] == events;
    } else {
      var before := rest[..|rest| - 1];
      assert all[..|all| - 1] == events + [Shutdown] + before && all[|all| - 1] == rest[|rest| - 1];
      NoneCurrent(events, before);
      RunKeeps(events + [Shutdown] + before);
      var s := Run(events + [Shutdown] + before);
      assert rest[|rest| - 1] in rest;
      NothingStarts(s, rest[|rest| - 1]);
    }
  }

  lemma NothingStarts(s: State, e: Event)
    requires Good(s) && s.options.None? && Current(s) == map[] && !e.Initialize?
    ensures Step(s, e).options.None? && Current(Step(s, e)) == map[]
  {}

  /** A late failure drops its own opening and no other: a newer opening of the
      same node stays. */
  lemma LateFailureSparesOthers(s: State, p: nat, q: nat)
    requires Good(s) && p < |s.pools| && q < |s.pools| && p != q && InCurrent(s, q)
    ensures InCurrent(Dropped(s, p), q) && InCurrent(Settled(s, p, Failed), q)
  {}

  /** After a failure is noticed, the next connect opens the node again. */
  lemma FailureIsRetried(s: State, p: nat)
    requires Good(s) && s.options.Some? && p < |s.pools| && s.pools[p].status.Failed? && InCurrent(s, p)
    ensures var s1 := Connected(Dropped(s, p), s.pools[p].node);
            && |s1.pools| == |s.pools| + 1 && InCurrent(s1, |s.pools|) && s1.pools[|s.pools|].status.Opening?
  {
    assert Accounted(s, p);
    assert s.registries[|s.registries| - 1][s.pools[p].node] == p;
  }

  /** Until it fails or a release detaches it, every connect to a node shares
      its opening. */
  lemma ConnectShares(s: State, p: nat, e: Event)
    requires Good(s) && p < |s.pools| && InCurrent(s, p) && !s.pools[p].status.Failed?
    requires !e.Shutdown? && !(e.Initialize? && e.supported)
    ensures InCurrent(Step(s, e), p) && Connected(Step(s, e), s.pools[p].node) == Step(s, e)
  {}

  // -------------------------------------------------------- what each event does

  /** The event replaces the configuration or takes it away. */
  ghost predicate Reconfigures(e: Event) {
    e.Shutdown? || (e.Initialize? && e.supported)
  }

  /** `config` was accepted and nothing was accepted or shut down since. */
  ghost predicate LatestConfig(events: seq<Event>, config: Config) {
    exists i :: 0 <= i < |events| && events[i] == Initialize(config, true)
                && forall j :: i < j < |events| ==> !Reconfigures(events[j])
  }

  /** Connections are routed and opened by the configuration accepted last, by none
      before one was accepted or after a shutdown. */
  lemma {:induction false} ConfigIsLatestIff(events: seq<Event>, config: Config)
    ensures Run(events).options == Some(config) <==> LatestConfig(events, config)
    ensures Run(events).router == Run(events).options
  {
    if events != [] {
      var before, last := events[..|events| - 1], events[|events| - 1];
      ConfigIsLatestIff(before, config);
      ConfigStep(Run(before), last);
      LatestStep(before, last, config);
      assert events == before + [last];
    }
  }

  lemma ConfigStep(s: State, e: Event)
    ensures e.Shutdown? ==> Step(s, e).options == None && Step(s, e).router == None
    ensures e.Initialize? && e.supported ==> Step(s, e).options == Some(e.config) && Step(s, e).router == Some(e.config)
    ensures !Reconfigures(e) ==> Step(s, e).options == s.options && Step(s, e).router == s.router
  {}

  lemma LatestStep(before: seq<Event>, e: Event, config: Config)
    ensures LatestConfig(before + [e], config)
            <==> if Reconfigures(e) then e == Initialize(config, true) else LatestConfig(before, config)
  {
    var events := before + [e];
    if e == Initialize(config, true) { assert events[|before|] == e; }
    if LatestConfig(events, config) {
      var i :| 0 <= i < |events| && events[i] == Initialize(config, true)
               && forall j :: i < j < |events| ==> !Reconfigures(events[j]);
      if i < |before| {
        assert !Reconfigures(events[|before|]);
        assert forall j :: i < j < |before| ==> before[j] == events[j];
      }
    }
    if LatestConfig(before, config) && !Reconfigures(e) {
      var i :| 0 <= i < |before| && before[i] == Initialize(config, true)
               && forall j :: i < j < |before| ==> !Reconfigures(before[j]);
      assert events[i] == Initialize(config, true);
    }
  }

  /** An opening settles once, as its event says, and nothing else settles it; only
      a release that waited for it closes it. */
  lemma SettlesOnce(s: State, e: Event, p: nat)
    requires p < |s.pools|
    ensures p < |Step(s, e).pools|
    ensures var after := Step(s, e).pools[p];
            && after.node == s.pools[p].node && after.registry == s.pools[p].registry
            && after.status == (if s.pools[p].status.Opening? && e == Opens(p) then Open
                                else if s.pools[p].status.Opening? && e == Fails(p) then Failed
                                else s.pools[p].status)
            && after.closes == s.pools[p].closes
                               + (if e.Closes? && e.waiting.pool == p && e.waiting in s.pending && s.pools[p].status.Open?
                                  then 1 else 0)
  {}

  /** A release stops waiting for an opening exactly when it goes on after it has
      settled. */
  lemma WaitsUntilSettled(s: State, e: Event, w: Pending)
    requires Good(s) && w in s.pending && w.pool < |s.pools|
    ensures w in Step(s, e).pending <==> !(e == Closes(w) && !s.pools[w.pool].status.Opening?)
  {}

  function After(s: State, events: seq<Event>): State
    decreases |events|
  {
    if events == [] then s else After(Step(s, events[0]), events[1..])
  }

  /** Once every opening has settled the releases can finish: some order in which
      they go on leaves nothing awaited, and opens or fails nothing. */
  lemma {:induction false} ReleasesFinish(s: State) returns (events: seq<Event>)
    requires Good(s) && forall p :: 0 <= p < |s.pools| ==> !s.pools[p].status.Opening?
    ensures After(s, events).pending == {} && forall e :: e in events ==> e.Closes?
    decreases |s.pending|
  {
    if s.pending == {} {
      events := [];
    } else {
      var w :| w in s.pending;
      var s1 := Step(s, Closes(w));
      CloseKeeps(s, w);
      assert s1.pending == s.pending - {w};
      forall p | 0 <= p < |s1.pools| ensures !s1.pools[p].status.Opening? { SettlesOnce(s, Closes(w), p); }
      var rest := ReleasesFinish(s1);
      events := [Closes(w)] + rest;
      assert events[1..] == rest;
    }
  }
}

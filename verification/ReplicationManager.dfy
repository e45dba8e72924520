/** The replication manager as it runs: fields replaced by every release, and a
    map of openings its callbacks hold on to. */
module ReplicationManager {
  import opened Metadata
  import opened ReplicationPools

  datatype Connection = NotConnected | Through(pool: nat)

  class Manager {
    var router: Option<Config>
    var connectionOptions: Option<Config>
    var registries: seq<Registry>
    var pools: seq<Pool>
    var pending: set<Pending>

    ghost function Contents(): State
      reads this
    {
      State(router, connectionOptions, registries, pools, pending)
    }

    ghost predicate Valid()
      reads this
    {
      Good(Contents())
    }

    constructor ()
      ensures Valid() && Contents() == START
    {
      router, connectionOptions, registries, pools, pending := None, None, [map[]], [], {};
    }

    /** Registering again replaces the previous router and its pools; a database
        type without replication is refused before anything changes. */
    method Initialize(config: Config, supported: bool) returns (accepted: bool)
      requires Valid()
      modifies this
      ensures Valid() && Contents() == Step(old(Contents()), Event.Initialize(config, supported)) && accepted == supported
      ensures accepted ==> router == Some(config) && connectionOptions == Some(config) && Current(Contents()) == map[]
      ensures !accepted ==> Contents() == old(Contents())
    {
      StepKeeps(Contents(), Event.Initialize(config, supported));
      if !supported { return false; }
      Release();
      router := Some(config);
      connectionOptions := Some(config);
      return true;
    }

    /** Checks a connection out of the node's pool, opening it on first use. */
    method ConnectSession(node: Node) returns (r: Connection)
      requires Valid()
      modifies this
      ensures Valid() && Contents() == Step(old(Contents()), Connect(node))
      ensures r.NotConnected? <==> old(connectionOptions).None?
      ensures r.Through? ==> r.pool < |pools| && pools[r.pool].node == node && InCurrent(Contents(), r.pool)
    {
      StepKeeps(Contents(), Connect(node));
      if connectionOptions.None? { return NotConnected; }
      var opening := NodePool(node);
      return Through(opening);
    }

    method NodePool(node: Node) returns (opening: nat)
      requires Valid() && connectionOptions.Some?
      modifies this
      ensures Valid() && Contents() == Step(old(Contents()), Connect(node))
      ensures opening < |pools| && pools[opening].node == node && InCurrent(Contents(), opening)
    {
      StepKeeps(Contents(), Connect(node));
      var held := |registries| - 1;
      if node in registries[held] { return registries[held][node]; }
      opening := |pools|;
      var registry: Registry := registries[held][node := opening];
      registries := registries[held := registry];
      pools := pools + [Pool(node, held, Opening, 0)];
    }

    /** The failure handler of an opening, run whenever its failure is noticed. */
    method DropFailed(opening: nat)
      requires Valid() && opening < |pools| && pools[opening].status.Failed?
      modifies this
      ensures Valid() && Contents() == Step(old(Contents()), Drops(opening))
      ensures forall q :: 0 <= q < |pools| && q != opening && old(InCurrent(Contents(), q)) ==> InCurrent(Contents(), q)
    {
      StepKeeps(Contents(), Drops(opening));
      forall q | 0 <= q < |pools| && q != opening && InCurrent(Contents(), q) ensures InCurrent(Dropped(Contents(), opening), q) {
        LateFailureSparesOthers(Contents(), opening, q);
      }
      assert Accounted(Contents(), opening);
      var held, node := pools[opening].registry, pools[opening].node;
      if node in registries[held] && registries[held][node] == opening {
        registries := registries[held := registries[held] - {node}];
      }
    }

    /** Stops routing and detaches every opening, to be closed once it is known
        to have opened. */
    method Release()
      requires Valid()
      modifies this
      ensures Valid() && Contents() == Step(old(Contents()), Shutdown)
      ensures router == None && connectionOptions == None && forall p :: 0 <= p < |pools| ==> !InCurrent(Contents(), p)
      ensures forall n :: n in old(Current(Contents())) ==>
                Pending(old(|registries|) - 1, old(Current(Contents()))[n]) in pending
    {
      StepKeeps(Contents(), Shutdown);
      router := None;
      connectionOptions := None;
      var detached := registries[|registries| - 1];
      var held: nat := |registries| - 1;
      pending := pending + Detached(held, detached);
      registries := registries + [map[]];
    }

    /** One detached opening has settled: its pool is closed unless it never
        opened. */
    method CloseDetached(waiting: Pending)
      requires Valid() && waiting in pending && !pools[waiting.pool].status.Opening?
      modifies this
      ensures Valid() && Contents() == Step(old(Contents()), Closes(waiting))
      ensures pending == old(pending) - {waiting}
      ensures pools[waiting.pool].closes
              == old(pools[waiting.pool].closes) + (if pools[waiting.pool].status.Open? then 1 else 0)
    {
      StepKeeps(Contents(), Closes(waiting));
      pending := pending - {waiting};
      var pool := pools[waiting.pool];
      if pool.status.Open? { pools := pools[waiting.pool := pool.(closes := pool.closes + 1)]; }
    }
  }
}

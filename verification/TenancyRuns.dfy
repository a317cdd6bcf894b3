/** Fencing of provider tenancies by generation, over whole runs. */
module TenancyRuns {
  import opened Wrappers
  import opened ProviderTenancy

  datatype Event =
    | Buy(externalId: ExternalId)
    | Claim(id: ResourceId)
    | Provision(externalId: ExternalId)
    | Return(lease: LeaseId)
    | Start(key: Key)
    | Settle(key: Key, outcome: Outcome)

  function Step(s: Store, e: Event): Store {
    match e
    case Buy(externalId) => Replenish(s, externalId)
    case Claim(id) => AcquireSmsBower(s, id).0
    case Provision(externalId) => AcquireOnDemand(s, externalId).0
    case Return(lease) => ReleaseLease(s, lease)
    case Start(key) => MarkRunning(s, key)
    case Settle(key, outcome) => Finalize(s, key, outcome).0
  }

  function Run(s: Store, es: seq<Event>): Store
    decreases |es|
  {
    if es == [] then s else Run(Step(s, es[0]), es[1..])
  }

  lemma {:induction false} RunSplits(s: Store, es: seq<Event>, fs: seq<Event>)
    ensures Run(s, es + fs) == Run(Run(s, es), fs)
    decreases |es|
  {
    if es == [] {
      assert es + fs == fs;
    } else {
      assert (es + fs)[1..] == es[1..] + fs;
      RunSplits(Step(s, es[0]), es[1..], fs);
    }
  }

  predicate Holds(s: Store, lease: LeaseId, id: ResourceId) {
    lease in s.leases && !s.leases[lease].released && s.leases[lease].resource == id
  }

  predicate LeaseOk(s: Store, lease: LeaseId)
    requires lease in s.leases
  {
    var l := s.leases[lease];
    && lease < s.nextLease && l.resource in s.resources
    && var r := s.resources[l.resource];
       && l.kind == r.kind && 0 < l.tenancy <= r.generation
       && (!l.released ==> r.lifecycle == Claimed && l.tenancy == r.generation)
  }

  /** An operation belongs to a released lease and names the generation of its tenancy. */
  predicate OperationOk(s: Store, key: Key)
    requires key in s.operations
  {
    && key.0 in s.leases && s.leases[key.0].released
    && s.operations[key].resource == s.leases[key.0].resource
    && key.1 == s.leases[key.0].tenancy
  }

  /** A resource is held exactly while it is claimed, and waits for a remote release only on account of an operation. */
  ghost predicate ResourceOk(s: Store, id: ResourceId)
    requires id in s.resources
  {
    var r := s.resources[id];
    && id < s.nextResource
    && (r.lifecycle == Claimed ==> exists lease :: Holds(s, lease, id))
    && (AwaitsRelease(r) ==> exists key :: key in s.operations && s.operations[key].resource == id && key.1 == r.generation)
    && (r.kind == OnDemand ==> r.lifecycle == Claimed || r.lifecycle == Retired)
  }

  /** Later leases on a resource belong to larger generations. */
  predicate Ordered(s: Store, i: LeaseId, j: LeaseId)
    requires i in s.leases && j in s.leases
  {
    i < j && s.leases[i].resource == s.leases[j].resource ==> s.leases[i].tenancy < s.leases[j].tenancy && s.leases[i].released
  }

  ghost predicate Inv(s: Store) {
    && (forall lease :: lease in s.leases ==> LeaseOk(s, lease))
    && (forall key :: key in s.operations ==> OperationOk(s, key))
    && (forall id :: id in s.resources ==> ResourceOk(s, id))
    && (forall i, j :: i in s.leases && j in s.leases ==> Ordered(s, i, j))
  }

  /** A resource that did not change stays in order if its leases and operations are still there. */
  lemma CarryResource(s: Store, v: Store, id: ResourceId)
    requires id in s.resources && id in v.resources && ResourceOk(s, id) && s.resources[id] == v.resources[id]
    requires s.nextResource <= v.nextResource
    requires forall lease :: Holds(s, lease, id) ==> Holds(v, lease, id)
    requires forall key :: key in s.operations ==> key in v.operations && v.operations[key].resource == s.operations[key].resource
    ensures ResourceOk(v, id)
  {
    if v.resources[id].lifecycle == Claimed {
      var lease :| Holds(s, lease, id);
      assert Holds(v, lease, id);
    }
    if AwaitsRelease(v.resources[id]) {
      var key :| key in s.operations && s.operations[key].resource == id && key.1 == s.resources[id].generation;
      assert key in v.operations;
    }
  }

  /** A resource that nobody holds may be added or moved on, except into a client's hands. */
  lemma FreeResourceMoves(s: Store, v: Store, id: ResourceId)
    requires Inv(s) && v.leases == s.leases && v.nextLease == s.nextLease && s.nextResource <= v.nextResource
    requires id in v.resources && v.resources == s.resources[id := v.resources[id]] && ResourceOk(v, id)
    requires v.operations.Keys == s.operations.Keys
    requires forall key :: key in s.operations ==> v.operations[key].resource == s.operations[key].resource
    requires v.resources[id].lifecycle != Claimed
    requires id in s.resources ==>
               var r := s.resources[id];
               r.lifecycle != Claimed && v.resources[id].kind == r.kind && r.generation <= v.resources[id].generation
    ensures Inv(v)
  {
    hide AwaitsRelease;
    forall lease | lease in v.leases ensures LeaseOk(v, lease) {
      assert LeaseOk(s, lease);
    }
    forall key | key in v.operations ensures OperationOk(v, key) {
      assert OperationOk(s, key);
    }
    forall i, j | i in v.leases && j in v.leases ensures Ordered(v, i, j) {
      assert Ordered(s, i, j);
    }
    hide LeaseOk, OperationOk, Ordered;
    forall r | r in v.resources ensures ResourceOk(v, r) {
      if r != id {
        CarryResource(s, v, r);
      }
    }
  }

  lemma BuyingKeepsInv(s: Store, externalId: ExternalId)
    requires Inv(s)
    ensures Inv(Step(s, Buy(externalId)))
  {
    if !Known(s, externalId) {
      hide Known, LeaseOk, OperationOk, Ordered;
      var id := s.nextResource;
      assert id in s.resources ==> ResourceOk(s, id);
      hide Inv;
      FreeResourceMoves(s, Replenish(s, externalId), id);
    }
  }

  lemma SettledIsOk(s: Store, v: Store, key: Key, id: ResourceId, outcome: Outcome)
    requires id in s.resources && ResourceOk(s, id) && AwaitsRelease(s.resources[id]) && s.resources[id].generation == key.1
    requires id in v.resources && v.resources[id] == Settled(s.resources[id], outcome)
    requires v.nextResource == s.nextResource && key in v.operations && v.operations[key].resource == id
    ensures ResourceOk(v, id) && v.resources[id].lifecycle != Claimed && s.resources[id].lifecycle != Claimed
    ensures v.resources[id].kind == s.resources[id].kind && s.resources[id].generation <= v.resources[id].generation
  {
  }

  lemma SettlingKeepsInv(s: Store, key: Key, outcome: Outcome)
    requires Inv(s)
    ensures Inv(Step(s, Settle(key, outcome)))
  {
    hide Settled, AwaitsRelease, LeaseOk, OperationOk, ResourceOk, Ordered;
    var v := Finalize(s, key, outcome).0;
    if v != s {
      var id := s.operations[key].resource;
      assert ResourceOk(s, id);
      hide Inv;
      assert v.resources[id] == Settled(s.resources[id], outcome);
      SettledIsOk(s, v, key, id, outcome);
      FreeResourceMoves(s, v, id);
    }
  }

  /** A tenancy begins on a resource that nobody holds, with a generation of its own. */
  lemma TenancyBegins(s: Store, v: Store, id: ResourceId)
    requires Inv(s) && v.operations == s.operations && s.nextResource <= v.nextResource && id < v.nextResource
    requires id in v.resources && v.resources == s.resources[id := v.resources[id]]
    requires var r := v.resources[id];
             r.lifecycle == Claimed && r.generation > 0 && v.leases == s.leases[s.nextLease := Lease(id, r.kind, false, r.generation)]
    requires v.nextLease == s.nextLease + 1
    requires id in s.resources ==>
               var r := s.resources[id];
               r.lifecycle != Claimed && v.resources[id].kind == r.kind && r.generation < v.resources[id].generation
    ensures Inv(v)
  {
    forall lease | lease in s.leases
      ensures lease < s.nextLease && lease in v.leases && v.leases[lease] == s.leases[lease] && LeaseOk(v, lease)
      ensures s.leases[lease].resource == id ==> s.leases[lease].released && s.leases[lease].tenancy < v.resources[id].generation
    {
      assert LeaseOk(s, lease);
    }
    assert LeaseOk(v, s.nextLease);
    hide LeaseOk, AwaitsRelease;
    forall key | key in v.operations ensures OperationOk(v, key) {
      assert OperationOk(s, key);
    }
    forall i, j | i in v.leases && j in v.leases ensures Ordered(v, i, j) {
      assert i in s.leases && j in s.leases ==> Ordered(s, i, j);
    }
    hide OperationOk, Ordered;
    assert Holds(v, s.nextLease, id);
    forall r | r in v.resources ensures ResourceOk(v, r) {
      if r != id {
        CarryResource(s, v, r);
      } else {
        ClaimedIsOk(v, s.nextLease, id);
      }
    }
  }

  lemma ClaimedIsOk(v: Store, lease: LeaseId, id: ResourceId)
    requires id in v.resources && id < v.nextResource && v.resources[id].lifecycle == Claimed && Holds(v, lease, id)
    ensures ResourceOk(v, id)
  {
  }

  lemma ProvisioningKeepsInv(s: Store, externalId: ExternalId)
    requires Inv(s)
    ensures Inv(Step(s, Provision(externalId)))
  {
    if !Known(s, externalId) {
      hide Known, LeaseOk, OperationOk, Ordered;
      var id := s.nextResource;
      assert id in s.resources ==> ResourceOk(s, id);
      hide Inv;
      TenancyBegins(s, AcquireOnDemand(s, externalId).0, id);
    }
  }

  lemma ClaimingKeepsInv(s: Store, id: ResourceId)
    requires Inv(s)
    ensures Inv(Step(s, Claim(id)))
  {
    var v := AcquireSmsBower(s, id).0;
    if v != s {
      assert ResourceOk(s, id);
      hide Inv;
      TenancyBegins(s, v, id);
    }
  }

  /** Releasing always meets a claimed resource: the other branch of the release is dead. */
  lemma ReleaseFindsClaimedResource(s: Store, lease: LeaseId)
    requires Inv(s) && lease in s.leases && !s.leases[lease].released
    ensures var r := s.resources[s.leases[lease].resource];
            r.lifecycle == Claimed && (lease, r.generation) !in s.operations
  {
    assert LeaseOk(s, lease);
  }

  /** An effective release in terms of the rows it writes. */
  lemma ReturnShape(s: Store, lease: LeaseId)
    requires Inv(s) && lease in s.leases && !s.leases[lease].released
    ensures var v := ReleaseLease(s, lease);
            var id := s.leases[lease].resource;
            && id in s.resources && id in v.resources
            && var r := s.resources[id];
               && v == s.(leases := s.leases[lease := s.leases[lease].(released := true)],
                          resources := s.resources[id := v.resources[id]],
                          operations := (if r.kind == SmsBower then s.operations[(lease, r.generation) := Operation(id, Pending)] else s.operations))
               && v.resources[id].generation == r.generation && v.resources[id].kind == r.kind
               && v.resources[id].externalId == r.externalId
               && v.resources[id].lifecycle == (if r.kind == SmsBower then Releasing else Retired)
               && r.lifecycle == Claimed && (lease, r.generation) !in s.operations
               && s.leases[lease].tenancy == r.generation
  {
    ReleaseFindsClaimedResource(s, lease);
    assert LeaseOk(s, lease);
    hide Inv;
  }

  /** A claimed resource leaves its holder's hands. */
  lemma TenancyEnds(s: Store, v: Store, lease: LeaseId, id: ResourceId)
    requires Inv(s) && lease in s.leases && !s.leases[lease].released && s.leases[lease].resource == id && id in s.resources
    requires v.leases == s.leases[lease := s.leases[lease].(released := true)]
    requires v.nextLease == s.nextLease && v.nextResource == s.nextResource
    requires id in v.resources && v.resources == s.resources[id := v.resources[id]]
    requires v.resources[id].kind == s.resources[id].kind && v.resources[id].generation == s.resources[id].generation
    requires v.resources[id].lifecycle != Claimed && ResourceOk(v, id)
    requires forall key :: key in s.operations ==> key in v.operations && v.operations[key] == s.operations[key]
    requires forall key :: key in v.operations && key !in s.operations ==>
               key == (lease, s.resources[id].generation) && v.operations[key].resource == id
    ensures Inv(v)
  {
    hide AwaitsRelease;
    assert LeaseOk(s, lease);
    forall l | l in v.leases ensures LeaseOk(v, l) {
      assert LeaseOk(s, l);
      assert l != lease && s.leases[l].resource == id ==> Ordered(s, l, lease) && Ordered(s, lease, l);
    }
    forall key | key in v.operations ensures OperationOk(v, key) {
      assert key in s.operations ==> OperationOk(s, key);
    }
    forall i, j | i in v.leases && j in v.leases ensures Ordered(v, i, j) {
      assert Ordered(s, i, j);
    }
    hide LeaseOk, OperationOk, Ordered;
    forall r | r in v.resources ensures ResourceOk(v, r) {
      if r != id {
        CarryResource(s, v, r);
      }
    }
  }

  lemma ReturningKeepsInv(s: Store, lease: LeaseId)
    requires Inv(s)
    ensures Inv(Step(s, Return(lease)))
  {
    hide ReleaseLease, LeaseOk, OperationOk, Ordered;
    if lease in s.leases && !s.leases[lease].released {
      ReturnShape(s, lease);
      var v, id := ReleaseLease(s, lease), s.leases[lease].resource;
      assert ResourceOk(s, id);
      hide Inv;
      if v.resources[id].kind == SmsBower {
        var key := (lease, s.resources[id].generation);
        assert key in v.operations && v.operations[key].resource == id;
      }
      assert ResourceOk(v, id);
      TenancyEnds(s, v, lease, id);
    } else {
      IneffectiveReturn(s, lease);
    }
  }

  lemma IneffectiveReturn(s: Store, lease: LeaseId)
    requires lease !in s.leases || s.leases[lease].released
    ensures ReleaseLease(s, lease) == s
  {
  }

  lemma StartingKeepsInv(s: Store, key: Key)
    requires Inv(s)
    ensures Inv(Step(s, Start(key)))
  {
    hide AwaitsRelease;
    var v := MarkRunning(s, key);
    forall lease | lease in v.leases ensures LeaseOk(v, lease) {
      assert LeaseOk(s, lease);
    }
    forall k | k in v.operations ensures OperationOk(v, k) {
      assert OperationOk(s, k);
    }
    forall i, j | i in v.leases && j in v.leases ensures Ordered(v, i, j) {
      assert Ordered(s, i, j);
    }
    hide LeaseOk, OperationOk, Ordered;
    forall r | r in v.resources ensures ResourceOk(v, r) {
      CarryResource(s, v, r);
    }
  }

  lemma StepKeepsInv(s: Store, e: Event)
    requires Inv(s)
    ensures Inv(Step(s, e))
  {
    hide Inv, Step;
    match e
    case Claim(id) => ClaimingKeepsInv(s, id);
    case Return(lease) => ReturningKeepsInv(s, lease);
    case Start(key) => StartingKeepsInv(s, key);
    case Settle(key, outcome) => SettlingKeepsInv(s, key, outcome);
    case Buy(externalId) => BuyingKeepsInv(s, externalId);
    case Provision(externalId) => ProvisioningKeepsInv(s, externalId);
  }

  lemma {:induction false} RunKeepsInv(s: Store, es: seq<Event>)
    requires Inv(s)
    ensures Inv(Run(s, es))
    decreases |es|
  {
    hide Inv, Step;
    if es != [] {
      StepKeepsInv(s, es[0]);
      RunKeepsInv(Step(s, es[0]), es[1..]);
    }
  }

  const Empty := Store(map[], map[], map[], 0, 0)

  /** In every reachable store a resource has at most one unreleased lease, and has one exactly if it is claimed. */
  lemma HeldExactlyWhileClaimed(es: seq<Event>, id: ResourceId)
    requires id in Run(Empty, es).resources
    ensures var s := Run(Empty, es);
            && (s.resources[id].lifecycle == Claimed <==> exists lease :: Holds(s, lease, id))
            && (forall i, j :: Holds(s, i, id) && Holds(s, j, id) ==> i == j)
  {
    RunKeepsInv(Empty, es);
    var s := Run(Empty, es);
    assert ResourceOk(s, id);
    forall lease | Holds(s, lease, id) ensures s.resources[id].lifecycle == Claimed {
      assert LeaseOk(s, lease);
    }
    forall i, j | Holds(s, i, id) && Holds(s, j, id) ensures i == j {
      assert Ordered(s, i, j) && Ordered(s, j, i);
    }
  }

  /** Each lease on a resource is a tenancy of its own, with a strictly larger generation than any before it. */
  lemma TenanciesStrictlyIncrease(es: seq<Event>, i: LeaseId, j: LeaseId)
    requires i < j && i in Run(Empty, es).leases && j in Run(Empty, es).leases
    requires Run(Empty, es).leases[i].resource == Run(Empty, es).leases[j].resource
    ensures Run(Empty, es).leases[i].tenancy < Run(Empty, es).leases[j].tenancy
  {
    RunKeepsInv(Empty, es);
    assert Ordered(Run(Empty, es), i, j);
  }

  // ---------------------------------------------------------------------------------- finalizers

  /** A finalizer changes something exactly if its generation is current and the resource awaits release. */
  lemma FinalizerWritesIff(s: Store, key: Key, outcome: Outcome)
    requires Inv(s) && key in s.operations
    ensures var (v, applied) := Finalize(s, key, outcome);
            var r := s.resources[s.operations[key].resource];
            && (v != s <==> r.generation == key.1 && AwaitsRelease(r))
            && (v != s ==> applied)
            && (applied && v == s ==> r.generation == key.1 && (s.operations[key].status == Succeeded || s.operations[key].status == Failed))
  {
    assert OperationOk(s, key) && LeaseOk(s, key.0);
    var r := s.resources[s.operations[key].resource];
    var v := Finalize(s, key, outcome).0;
    if r.generation == key.1 && AwaitsRelease(r) {
      assert v.resources[s.operations[key].resource].stateVersion == r.stateVersion + 1;
    }
  }

  /** Once a later tenancy has begun, no finalizer of an earlier lease touches anything, whatever it reports. */
  lemma LaterTenancyIsFenced(s: Store, key: Key, outcome: Outcome, later: LeaseId)
    requires Inv(s) && key in s.operations
    requires later in s.leases && key.0 < later && s.leases[later].resource == s.operations[key].resource
    ensures Finalize(s, key, outcome) == (s, false)
  {
    assert OperationOk(s, key) && Ordered(s, key.0, later) && LeaseOk(s, later);
  }

  /** No step removes a resource or an operation, lowers a generation, or moves a cooled-down resource. */
  ghost predicate Extends(s: Store, v: Store) {
    && (forall id :: id in s.resources ==>
          && id in v.resources
          && s.resources[id].generation <= v.resources[id].generation
          && s.resources[id].externalId == v.resources[id].externalId
          && (s.resources[id].lifecycle == Cooldown ==> v.resources[id] == s.resources[id]))
    && (forall key :: key in s.operations ==> key in v.operations && v.operations[key].resource == s.operations[key].resource)
  }

  lemma StepExtends(s: Store, e: Event)
    requires Inv(s)
    ensures Extends(s, Step(s, e))
  {
    hide Known, Ordered, OperationOk, LeaseOk, ResourceOk, ReleaseLease, Finalize, Extends, Replenish, AcquireSmsBower, AcquireOnDemand, MarkRunning;
    match e
    case Return(lease) => ReturnExtends(s, lease);
    case Settle(key, outcome) => SettleExtends(s, key, outcome);
    case _ =>
      forall id | id in s.resources ensures id != s.nextResource {
        ResourceIsNumbered(s, id);
      }
      hide Inv, Step;
      OtherStepsExtend(s, e);
  }

  lemma ResourceIsNumbered(s: Store, id: ResourceId)
    requires Inv(s) && id in s.resources
    ensures id < s.nextResource
  {
    assert ResourceOk(s, id);
  }

  lemma OtherStepsExtend(s: Store, e: Event)
    requires s.nextResource !in s.resources && !e.Return? && !e.Settle?
    ensures Extends(s, Step(s, e))
  {
    hide Known;
  }

  lemma ReturnExtends(s: Store, lease: LeaseId)
    requires Inv(s)
    ensures Extends(s, ReleaseLease(s, lease))
  {
    hide ReleaseLease;
    if lease in s.leases && !s.leases[lease].released {
      ReturnShape(s, lease);
    } else {
      IneffectiveReturn(s, lease);
    }
    hide Inv;
  }

  lemma SettleExtends(s: Store, key: Key, outcome: Outcome)
    ensures Extends(s, Finalize(s, key, outcome).0)
  {
    var v := Finalize(s, key, outcome).0;
    if v != s {
      var id := s.operations[key].resource;
      assert v == s.(resources := s.resources[id := v.resources[id]], operations := s.operations[key := v.operations[key]]);
    }
  }

  lemma {:induction false} RunExtends(s: Store, es: seq<Event>)
    requires Inv(s)
    ensures Extends(s, Run(s, es))
    decreases |es|
  {
    hide Inv, Step;
    if es != [] {
      StepKeepsInv(s, es[0]);
      StepExtends(s, es[0]);
      RunExtends(Step(s, es[0]), es[1..]);
    }
  }

  /** After a success has been applied for an operation, every further report about it changes nothing, forever. */
  lemma SuccessAppliesOnce(s: Store, key: Key, es: seq<Event>, outcome: Outcome)
    requires Inv(s) && key in s.operations && Step(s, Settle(key, RemoteSucceeded)) != s
    ensures var v := Run(Step(s, Settle(key, RemoteSucceeded)), es);
            Finalize(v, key, outcome) == (v, false)
  {
    var t := Step(s, Settle(key, RemoteSucceeded));
    FinalizerWritesIff(s, key, RemoteSucceeded);
    StepKeepsInv(s, Settle(key, RemoteSucceeded));
    var id := s.operations[key].resource;
    assert t.resources[id].generation == key.1 + 1;
    RunExtends(t, es);
  }

  /** A resource whose remote release failed is out of circulation for good. */
  lemma CooldownIsFinal(s: Store, es: seq<Event>, id: ResourceId)
    requires Inv(s) && id in s.resources && s.resources[id].lifecycle == Cooldown
    ensures id in Run(s, es).resources && Run(s, es).resources[id] == s.resources[id]
  {
    RunExtends(s, es);
  }

  ghost predicate UniqueExternalIds(s: Store) {
    forall i, j :: i in s.resources && j in s.resources && s.resources[i].externalId == s.resources[j].externalId ==> i == j
  }

  lemma StepKeepsExternalIdsUnique(s: Store, e: Event)
    requires Inv(s) && UniqueExternalIds(s)
    ensures UniqueExternalIds(Step(s, e))
  {
    hide LeaseOk, OperationOk, Ordered;
    var v := Step(s, e);
    StepExtends(s, e);
    forall i | i in v.resources && i !in s.resources
      ensures i == s.nextResource && !Known(s, v.resources[i].externalId)
    {
      if e.Return? && e.lease in s.leases && !s.leases[e.lease].released {
        ReturnShape(s, e.lease);
      }
    }
  }

  /** A bought activation and a provisioned address are stored at most once, however often they are reported. */
  lemma {:induction false} ExternalIdsAreUnique(s: Store, es: seq<Event>)
    requires Inv(s) && UniqueExternalIds(s)
    ensures UniqueExternalIds(Run(s, es))
    decreases |es|
  {
    hide Inv, Step, UniqueExternalIds;
    if es != [] {
      StepKeepsInv(s, es[0]);
      StepKeepsExternalIdsUnique(s, es[0]);
      ExternalIdsAreUnique(Step(s, es[0]), es[1..]);
    }
  }
}

/** What becomes of a resource, told by who may claim it next. */
module TenancyOutcomes {
  import opened Wrappers
  import opened ProviderTenancy
  import opened TenancyRuns

  /** The answer to a client that asks for the resource. */
  function ClaimAnswer(s: Store, id: ResourceId): Option<LeaseId> {
    AcquireSmsBower(s, id).1
  }

  predicate Leased(s: Store, id: ResourceId) {
    exists lease :: lease in s.leases && !s.leases[lease].released && s.leases[lease].resource == id
  }

  /** The report about the operation has an effect. */
  predicate Effective(s: Store, key: Key, outcome: Outcome) {
    key in s.operations && Step(s, Settle(key, outcome)) != s
  }

  // --------------------------------------------------------------------------------- one tenancy

  /** A purchase that is new for its instance makes one resource more, and this can be claimed at once. */
  lemma BoughtCanBeClaimed(s: Store, externalId: ExternalId)
    requires Inv(s) && forall id :: id in s.resources ==> s.resources[id].externalId != externalId
    ensures var v := Step(s, Buy(externalId));
            && s.nextResource !in s.resources && v.resources.Keys == s.resources.Keys + {s.nextResource}
            && v.resources[s.nextResource].externalId == externalId && v.resources[s.nextResource].hasSecret
            && ClaimAnswer(v, s.nextResource) == Some(v.nextLease)
  {
    assert !Known(s, externalId);
    assert s.nextResource in s.resources ==> ResourceOk(s, s.nextResource);
    hide Inv, LeaseOk, OperationOk, ResourceOk, Ordered;
  }

  /** A claim is granted exactly for a ready, available SMSBower resource; then only the caller has it. */
  lemma ClaimedIff(s: Store, id: ResourceId)
    requires Inv(s)
    ensures ClaimAnswer(s, id).Some? <==>
              id in s.resources && s.resources[id].kind == SmsBower && s.resources[id].lifecycle == Available && s.resources[id].ready
    ensures ClaimAnswer(s, id).Some? ==>
              var v, lease := Step(s, Claim(id)), ClaimAnswer(s, id).value;
              && !Leased(s, id) && lease !in s.leases
              && v.leases == s.leases[lease := v.leases[lease]] && v.leases[lease].resource == id && !v.leases[lease].released
              && v.leases[lease].tenancy == s.resources[id].generation + 1 == v.resources[id].generation
              && ClaimAnswer(v, id).None?
    ensures ClaimAnswer(s, id).None? ==> Step(s, Claim(id)) == s
  {
    forall lease | lease in s.leases ensures lease < s.nextLease && (s.leases[lease].resource == id && !s.leases[lease].released ==> s.resources[id].lifecycle == Claimed) {
      assert LeaseOk(s, lease);
    }
    hide Inv, LeaseOk, OperationOk, ResourceOk, Ordered;
  }

  /** A provisioned address is leased to its requester, and a name that is known already is refused. */
  lemma ProvisionedIff(s: Store, externalId: ExternalId)
    ensures var (v, lease) := AcquireOnDemand(s, externalId);
            if exists id :: id in s.resources && s.resources[id].externalId == externalId then lease.None? && v == s
            else
              && lease == Some(s.nextLease) && s.nextLease in v.leases && !v.leases[s.nextLease].released
              && v.leases[s.nextLease].resource == s.nextResource && s.nextResource in v.resources
              && v.resources[s.nextResource].externalId == externalId
              && v.resources[s.nextResource].kind == OnDemand && v.resources[s.nextResource].lifecycle == Claimed
  {
  }

  /** Giving a lease back ends it at once; an SMSBower resource then waits for the provider, under an operation of this tenancy. */
  lemma ReturnedWaits(s: Store, lease: LeaseId)
    requires Inv(s) && lease in s.leases && !s.leases[lease].released && s.leases[lease].kind == SmsBower
    ensures var v := Step(s, Return(lease));
            var id := s.leases[lease].resource;
            var key := (lease, s.leases[lease].tenancy);
            && v.leases == s.leases[lease := s.leases[lease].(released := true)]
            && key in v.operations && v.operations[key] == Operation(id, Pending) && key !in s.operations
            && ClaimAnswer(v, id).None? && !Leased(v, id)
            && Effective(v, key, RemoteSucceeded) && Effective(v, key, RemoteFailed) && Effective(v, key, RemoteUnknown)
  {
    ReturnShape(s, lease);
    var v, id := Step(s, Return(lease)), s.leases[lease].resource;
    assert LeaseOk(s, lease);
    forall l | l in v.leases && v.leases[l].resource == id ensures v.leases[l].released {
      assert LeaseOk(s, l);
      assert l != lease ==> Ordered(s, l, lease) && Ordered(s, lease, l);
    }
    hide Inv, LeaseOk, OperationOk, ResourceOk, Ordered, ReleaseLease;
    var key := (lease, s.leases[lease].tenancy);
    assert v.resources[id].lifecycle == Releasing && v.resources[id].generation == key.1;
    forall outcome: Outcome ensures Effective(v, key, outcome) {
      SettledDiffers(v, key, outcome);
    }
  }

  lemma SettledDiffers(s: Store, key: Key, outcome: Outcome)
    requires key in s.operations && s.operations[key].resource in s.resources
    requires s.resources[s.operations[key].resource].generation == key.1
    requires s.resources[s.operations[key].resource].lifecycle in {Releasing, ReleaseUnknown}
    ensures Effective(s, key, outcome)
  {
    var id := s.operations[key].resource;
    assert Step(s, Settle(key, outcome)).resources[id].stateVersion == s.resources[id].stateVersion + 1;
  }

  // ------------------------------------------------------------------------------ remote outcomes

  /** After a confirmed release the resource can be claimed at once, under a larger generation and without the old secret. */
  lemma SuccessCanBeClaimed(s: Store, key: Key)
    requires Inv(s) && Effective(s, key, RemoteSucceeded)
    ensures var v, id := Step(s, Settle(key, RemoteSucceeded)), s.operations[key].resource;
            && id in v.resources && !v.resources[id].hasSecret && v.resources[id].generation > key.1
            && v.operations[key].status == Succeeded && v.leases == s.leases
            && ClaimAnswer(v, id) == Some(v.nextLease) && AcquireSmsBower(v, id).0.leases[v.nextLease].tenancy > key.1 + 1
  {
    assert OperationOk(s, key) && LeaseOk(s, key.0) && ResourceOk(s, s.operations[key].resource);
    hide Inv;
  }

  /** Nobody gets the resource any more: it is neither leased nor can it be claimed, whatever happens. */
  lemma {:induction false} CooledDownIsGone(s: Store, es: seq<Event>, id: ResourceId)
    requires Inv(s) && id in s.resources && s.resources[id].lifecycle == Cooldown
    ensures var v := Run(s, es); ClaimAnswer(v, id).None? && !Leased(v, id)
  {
    CooldownIsFinal(s, es, id);
    RunKeepsInv(s, es);
    UnleasedUnlessClaimed(Run(s, es), id);
    hide Inv, Run, Leased;
  }

  lemma UnleasedUnlessClaimed(s: Store, id: ResourceId)
    requires Inv(s) && id in s.resources && s.resources[id].lifecycle != Claimed
    ensures !Leased(s, id)
  {
    forall lease | lease in s.leases && !s.leases[lease].released ensures s.leases[lease].resource != id {
      assert LeaseOk(s, lease);
    }
  }

  /** After a refused release the operation has failed, and in every later run the resource is never leased again. */
  lemma FailureEndsCirculation(s: Store, key: Key, es: seq<Event>)
    requires Inv(s) && Effective(s, key, RemoteFailed)
    ensures var v, id := Step(s, Settle(key, RemoteFailed)), s.operations[key].resource;
            && v.operations[key].status == Failed
            && ClaimAnswer(Run(v, es), id).None? && !Leased(Run(v, es), id)
            && ((forall i :: 0 <= i < |es| ==> es[i] != Start(key)) ==> key in Run(v, es).operations && Run(v, es).operations[key].status == Failed)
  {
    assert OperationOk(s, key) && LeaseOk(s, key.0);
    var v, id := Step(s, Settle(key, RemoteFailed)), s.operations[key].resource;
    StepKeepsInv(s, Settle(key, RemoteFailed));
    CooledDownIsGone(v, es, id);
    if forall i :: 0 <= i < |es| ==> es[i] != Start(key) {
      FailedStays(v, es, key);
    }
    hide Inv, Run, Leased;
  }

  lemma StepKeepsFailed(s: Store, e: Event, key: Key)
    requires Inv(s) && key in s.operations && s.operations[key].status == Failed && e != Start(key)
    requires s.operations[key].resource in s.resources && s.resources[s.operations[key].resource].lifecycle == Cooldown
    ensures var v := Step(s, e); key in v.operations && v.operations[key] == s.operations[key]
  {
    if e.Return? && e.lease in s.leases && !s.leases[e.lease].released {
      ReturnShape(s, e.lease);
    }
    hide Inv, Known;
  }

  lemma {:induction false} FailedStays(s: Store, es: seq<Event>, key: Key)
    requires Inv(s) && key in s.operations && s.operations[key].status == Failed
    requires s.operations[key].resource in s.resources && s.resources[s.operations[key].resource].lifecycle == Cooldown
    requires forall i :: 0 <= i < |es| ==> es[i] != Start(key)
    ensures key in Run(s, es).operations && Run(s, es).operations[key].status == Failed
    decreases |es|
  {
    if es != [] {
      StepKeepsInv(s, es[0]);
      StepKeepsFailed(s, es[0], key);
      StepExtends(s, es[0]);
      hide Inv, Step;
      FailedStays(Step(s, es[0]), es[1..], key);
    }
  }

  // ------------------------------------------------------------------------------------- retirement

  predicate Retires(s: Store, id: ResourceId) {
    id in s.resources && s.resources[id].kind == OnDemand && s.resources[id].lifecycle == Retired && !s.resources[id].hasSecret
  }

  lemma StepKeepsRetired(s: Store, e: Event, id: ResourceId)
    requires Inv(s) && Retires(s, id)
    ensures Retires(Step(s, e), id)
  {
    ResourceIsNumbered(s, id);
    hide Known, ReleaseLease;
    match e
    case Return(lease) =>
      if lease in s.leases && !s.leases[lease].released {
        ReturnShape(s, lease);
        assert s.leases[lease].resource != id;
      } else {
        IneffectiveReturn(s, lease);
      }
      hide Inv;
    case _ => hide Inv;
  }

  lemma {:induction false} RetiredIsGone(s: Store, es: seq<Event>, id: ResourceId)
    requires Inv(s) && Retires(s, id)
    ensures Retires(Run(s, es), id) && !Leased(Run(s, es), id) && ClaimAnswer(Run(s, es), id).None?
    decreases |es|
  {
    if es == [] {
      UnleasedUnlessClaimed(s, id);
      hide Inv, Leased;
    } else {
      StepKeepsInv(s, es[0]);
      StepKeepsRetired(s, es[0], id);
      hide Inv, Step, Leased, Retires;
      RetiredIsGone(Step(s, es[0]), es[1..], id);
    }
  }

  /** A provisioned address that is given back loses its secret and is never leased again. */
  lemma OnDemandIsUsedOnce(s: Store, lease: LeaseId, es: seq<Event>)
    requires Inv(s) && lease in s.leases && !s.leases[lease].released && s.leases[lease].kind == OnDemand
    ensures var v, id := Step(s, Return(lease)), s.leases[lease].resource;
            && v.leases == s.leases[lease := s.leases[lease].(released := true)] && v.operations == s.operations
            && Retires(Run(v, es), id) && !Leased(Run(v, es), id) && ClaimAnswer(Run(v, es), id).None?
  {
    assert LeaseOk(s, lease);
    StepKeepsInv(s, Return(lease));
    assert Retires(Step(s, Return(lease)), s.leases[lease].resource);
    hide Inv, Step, Leased, Retires;
    RetiredIsGone(Step(s, Return(lease)), es, s.leases[lease].resource);
    ReturnOnDemandShape(s, lease);
  }

  lemma ReturnOnDemandShape(s: Store, lease: LeaseId)
    requires lease in s.leases && !s.leases[lease].released && s.leases[lease].kind == OnDemand
    ensures var v := Step(s, Return(lease));
            v.leases == s.leases[lease := s.leases[lease].(released := true)] && v.operations == s.operations
  {
  }

  /** A report that comes again after a failure is acknowledged and changes nothing; after a success it is too late for its generation. */
  lemma RepeatedReportIsAnswered(s: Store, key: Key, again: Outcome)
    requires Inv(s)
    ensures Effective(s, key, RemoteFailed) ==>
              var v := Step(s, Settle(key, RemoteFailed)); Finalize(v, key, again) == (v, true)
    ensures Effective(s, key, RemoteSucceeded) ==>
              var v := Step(s, Settle(key, RemoteSucceeded)); Finalize(v, key, again) == (v, false)
  {
    hide Inv;
  }

  /** Marking an operation as running is visible in its status and nowhere else. */
  lemma StartedIsRunning(s: Store, key: Key)
    ensures var v := Step(s, Start(key));
            if key in s.operations
            then v == s.(operations := s.operations[key := Operation(s.operations[key].resource, Running)])
            else v == s
  {
  }

  // ----------------------------------------------------------------------------------- uncertainty

  /** The resource waits for a report about this operation. */
  predicate WaitsFor(s: Store, key: Key) {
    && key in s.operations && s.operations[key].resource in s.resources
    && var r := s.resources[s.operations[key].resource];
       r.generation == key.1 && (r.lifecycle == Releasing || r.lifecycle == ReleaseUnknown)
  }

  lemma ReturnKeepsWaiting(s: Store, lease: LeaseId, key: Key)
    requires Inv(s) && WaitsFor(s, key)
    ensures WaitsFor(ReleaseLease(s, lease), key)
    ensures ReleaseLease(s, lease).operations[key].resource == s.operations[key].resource
  {
    hide ReleaseLease;
    if lease in s.leases && !s.leases[lease].released {
      ReturnShape(s, lease);
    } else {
      IneffectiveReturn(s, lease);
    }
    hide Inv;
  }

  lemma OtherReportsKeepWaiting(s: Store, other: Key, outcome: Outcome, key: Key)
    requires Inv(s) && WaitsFor(s, key) && (other != key || outcome == RemoteUnknown)
    ensures var v := Finalize(s, other, outcome).0; WaitsFor(v, key) && v.operations[key].resource == s.operations[key].resource
  {
    if other != key && other in s.operations {
      assert OperationOk(s, key) && OperationOk(s, other);
      assert Ordered(s, key.0, other.0) && Ordered(s, other.0, key.0);
    }
    hide Inv;
  }

  lemma StepKeepsWaiting(s: Store, e: Event, key: Key)
    requires Inv(s) && WaitsFor(s, key) && !(e.Settle? && e.key == key && e.outcome != RemoteUnknown)
    ensures WaitsFor(Step(s, e), key) && Step(s, e).operations[key].resource == s.operations[key].resource
  {
    hide ReleaseLease, Finalize, Known;
    match e
    case Return(lease) => ReturnKeepsWaiting(s, lease, key);
    case Settle(other, outcome) => OtherReportsKeepWaiting(s, other, outcome, key);
    case _ =>
      ResourceIsNumbered(s, s.operations[key].resource);
      hide Inv;
  }

  /** As long as nobody reports a success or a failure about this operation, the resource cannot be claimed and is not leased. */
  lemma {:induction false} UncertainStaysOut(s: Store, es: seq<Event>, key: Key)
    requires Inv(s) && WaitsFor(s, key)
    requires forall i :: 0 <= i < |es| ==> !(es[i].Settle? && es[i].key == key && es[i].outcome != RemoteUnknown)
    ensures var v, id := Run(s, es), s.operations[key].resource; WaitsFor(v, key) && ClaimAnswer(v, id).None? && !Leased(v, id)
    ensures Run(s, es).operations[key].resource == s.operations[key].resource
    decreases |es|
  {
    if es == [] {
      UnleasedUnlessClaimed(s, s.operations[key].resource);
      hide Inv, Leased;
    } else {
      StepKeepsInv(s, es[0]);
      StepKeepsWaiting(s, es[0], key);
      hide Inv, Step, Leased, WaitsFor;
      UncertainStaysOut(Step(s, es[0]), es[1..], key);
    }
  }

  /** An unknown outcome leaves the resource waiting; any later report about the operation is still effective. */
  lemma UnknownStillWaits(s: Store, key: Key)
    requires Inv(s) && Effective(s, key, RemoteUnknown)
    ensures var v := Step(s, Settle(key, RemoteUnknown));
            && WaitsFor(v, key) && v.operations[key].status == Unknown
            && Effective(v, key, RemoteSucceeded) && Effective(v, key, RemoteFailed)
  {
    assert OperationOk(s, key) && LeaseOk(s, key.0);
    var v := Step(s, Settle(key, RemoteUnknown));
    SettledDiffers(v, key, RemoteSucceeded);
    SettledDiffers(v, key, RemoteFailed);
    hide Inv;
  }
}

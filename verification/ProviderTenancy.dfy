/**
 * Resources of outside providers: leased to one client at a time, released locally at once and
 * remotely by finalizers that may be late, repeated or out of order.
 */
module ProviderTenancy {
  import opened Wrappers

  type ResourceId = nat
  type LeaseId = nat

  datatype Lifecycle = Available | Claimed | Releasing | Cooldown | ReleaseUnknown | Retired

  datatype Kind = SmsBower | OnDemand

  /** The number a provider instance has given to an address; numbers of different instances may coincide. */
  datatype ExternalId = ExternalId(instance: string, number: string)

  datatype Resource = Resource(kind: Kind, externalId: ExternalId, lifecycle: Lifecycle, ready: bool, generation: nat, stateVersion: nat, hasSecret: bool)

  /** `tenancy` records the generation of the resource when the lease was granted; no transaction reads it. */
  datatype Lease = Lease(resource: ResourceId, kind: Kind, released: bool, tenancy: nat)

  datatype Status = Pending | Running | Succeeded | Failed | Unknown

  /** A release operation; its idempotency key is the pair of lease and generation. */
  type Key = (LeaseId, nat)

  datatype Operation = Operation(resource: ResourceId, status: Status)

  datatype Outcome = RemoteSucceeded | RemoteFailed | RemoteUnknown

  datatype Store = Store(
    resources: map<ResourceId, Resource>,
    leases: map<LeaseId, Lease>,
    operations: map<Key, Operation>,
    nextResource: ResourceId,
    nextLease: LeaseId)

  predicate Known(s: Store, externalId: ExternalId) {
    exists id :: id in s.resources && s.resources[id].externalId == externalId
  }

  function AddResource(s: Store, resource: Resource): Store {
    s.(resources := s.resources[s.nextResource := resource], nextResource := s.nextResource + 1)
  }

  function AddLease(s: Store, lease: Lease): Store {
    s.(leases := s.leases[s.nextLease := lease], nextLease := s.nextLease + 1)
  }

  /** Stores a bought activation once, however often its success is reported. */
  function Replenish(s: Store, externalId: ExternalId): Store {
    if Known(s, externalId) then s
    else AddResource(s, Resource(SmsBower, externalId, Available, true, 0, 0, true))
  }

  /** Leases an available resource; this begins a tenancy. */
  function AcquireSmsBower(s: Store, id: ResourceId): (Store, Option<LeaseId>) {
    if id !in s.resources then (s, None)
    else
      var r := s.resources[id];
      if r.kind != SmsBower || r.lifecycle != Available || !r.ready then (s, None)
      else
        var t := s.(resources := s.resources[id := r.(lifecycle := Claimed, generation := r.generation + 1, stateVersion := r.stateVersion + 1)]);
        (AddLease(t, Lease(id, SmsBower, false, r.generation + 1)), Some(s.nextLease))
  }

  /** Stores a freshly provisioned address together with its only lease. */
  function AcquireOnDemand(s: Store, externalId: ExternalId): (Store, Option<LeaseId>) {
    if Known(s, externalId) then (s, None)
    else
      var t := AddResource(s, Resource(OnDemand, externalId, Claimed, true, 1, 1, true));
      (AddLease(t, Lease(s.nextResource, OnDemand, false, 1)), Some(s.nextLease))
  }

  function BeginRelease(s: Store, lease: LeaseId, id: ResourceId): Store
    requires id in s.resources
  {
    var r := s.resources[id];
    var key := (lease, r.generation);
    if key in s.operations then s
    else
      s.(resources := s.resources[id := r.(lifecycle := Releasing, stateVersion := r.stateVersion + 1)],
         operations := s.operations[key := Operation(id, Pending)])
  }

  /** The local release; repeating it changes nothing. */
  function ReleaseLease(s: Store, lease: LeaseId): Store {
    if lease !in s.leases || s.leases[lease].released then s
    else
      var l := s.leases[lease];
      var t := s.(leases := s.leases[lease := l.(released := true)]);
      if l.resource !in s.resources then t
      else
        var r := s.resources[l.resource];
        match l.kind
        case SmsBower => if r.lifecycle == Claimed || r.lifecycle == Available then BeginRelease(t, lease, l.resource) else t
        case OnDemand =>
          t.(resources := s.resources[l.resource := r.(lifecycle := Retired, ready := false, stateVersion := r.stateVersion + 1, hasSecret := false)])
  }

  /** Before a finalizer goes to the provider its operation may be marked as running; this says nothing about the resource. */
  function MarkRunning(s: Store, key: Key): Store {
    if key in s.operations then s.(operations := s.operations[key := s.operations[key].(status := Running)]) else s
  }

  predicate AwaitsRelease(r: Resource) {
    r.lifecycle == Releasing || r.lifecycle == ReleaseUnknown
  }

  function Settled(r: Resource, outcome: Outcome): Resource {
    var v := r.(stateVersion := r.stateVersion + 1);
    match outcome
    case RemoteSucceeded => v.(lifecycle := Available, ready := true, generation := r.generation + 1, hasSecret := false)
    case RemoteFailed => v.(lifecycle := Cooldown, ready := false)
    case RemoteUnknown => v.(lifecycle := ReleaseUnknown, ready := false)
  }

  function StatusOf(outcome: Outcome): Status {
    match outcome
    case RemoteSucceeded => Succeeded
    case RemoteFailed => Failed
    case RemoteUnknown => Unknown
  }

  /** Finalizes a release if the resource is still in the generation that the operation names. */
  function Finalize(s: Store, key: Key, outcome: Outcome): (Store, bool) {
    if key !in s.operations || s.operations[key].resource !in s.resources then (s, false)
    else
      var op := s.operations[key];
      var r := s.resources[op.resource];
      if r.generation != key.1 then (s, false)
      else if !AwaitsRelease(r) then (s, op.status == Succeeded || op.status == Failed)
      else
        (s.(resources := s.resources[op.resource := Settled(r, outcome)],
            operations := s.operations[key := op.(status := StatusOf(outcome))]), true)
  }

  /** The two tables and the operations, updated in place. */
  class Provider {
    var resources: map<ResourceId, Resource>
    var leases: map<LeaseId, Lease>
    var operations: map<Key, Operation>
    var nextResource: ResourceId
    var nextLease: LeaseId

    function Tables(): Store
      reads this
    {
      Store(resources, leases, operations, nextResource, nextLease)
    }

    constructor ()
      ensures Tables() == Store(map[], map[], map[], 0, 0)
    {
      resources, leases, operations, nextResource, nextLease := map[], map[], map[], 0, 0;
    }

    method Claim(id: ResourceId) returns (lease: Option<LeaseId>)
      modifies this
      ensures (Tables(), lease) == AcquireSmsBower(old(Tables()), id)
    {
      if id !in resources {
        return None;
      }
      var r := resources[id];
      if !(r.kind == SmsBower && r.lifecycle == Available && r.ready) {
        return None;
      }
      r := r.(lifecycle := Claimed);
      r := r.(generation := r.generation + 1);
      r := r.(stateVersion := r.stateVersion + 1);
      resources := resources[id := r];
      leases := leases[nextLease := Lease(id, SmsBower, false, r.generation)];
      nextLease := nextLease + 1;
      return Some(nextLease - 1);
    }

    method Provision(externalId: ExternalId) returns (lease: Option<LeaseId>)
      modifies this
      ensures (Tables(), lease) == AcquireOnDemand(old(Tables()), externalId)
    {
      if exists id :: id in resources && resources[id].externalId == externalId {
        return None;
      }
      resources := resources[nextResource := Resource(OnDemand, externalId, Claimed, true, 1, 1, true)];
      leases := leases[nextLease := Lease(nextResource, OnDemand, false, 1)];
      nextResource, nextLease := nextResource + 1, nextLease + 1;
      return Some(nextLease - 1);
    }

    method Release(lease: LeaseId)
      modifies this
      ensures Tables() == ReleaseLease(old(Tables()), lease)
    {
      if lease !in leases || leases[lease].released {
        return;
      }
      var l := leases[lease];
      leases := leases[lease := l.(released := true)];
      if l.resource !in resources {
        return;
      }
      var r := resources[l.resource];
      if l.kind == SmsBower {
        if r.lifecycle == Claimed || r.lifecycle == Available {
          var key := (lease, r.generation);
          if key !in operations {
            resources := resources[l.resource := r.(lifecycle := Releasing, stateVersion := r.stateVersion + 1)];
            operations := operations[key := Operation(l.resource, Pending)];
          }
        }
      } else {
        resources := resources[l.resource := r.(lifecycle := Retired, ready := false, stateVersion := r.stateVersion + 1, hasSecret := false)];
      }
    }

    method MarkOperationRunning(key: Key) returns (found: bool)
      modifies this
      ensures Tables() == MarkRunning(old(Tables()), key) && found == (key in old(operations))
    {
      if key !in operations {
        return false;
      }
      operations := operations[key := operations[key].(status := Running)];
      return true;
    }

    method FinalizeReleaseCas(key: Key, outcome: Outcome) returns (applied: bool)
      modifies this
      ensures (Tables(), applied) == Finalize(old(Tables()), key, outcome)
    {
      if key !in operations || operations[key].resource !in resources {
        return false;
      }
      var op := operations[key];
      var r := resources[op.resource];
      if r.generation != key.1 {
        return false;
      }
      if r.lifecycle != Releasing && r.lifecycle != ReleaseUnknown {
        return op.status == Succeeded || op.status == Failed;
      }
      r := r.(stateVersion := r.stateVersion + 1);
      match outcome {
        case RemoteSucceeded =>
          r := r.(lifecycle := Available, ready := true, hasSecret := false);
          r := r.(generation := r.generation + 1);
          op := op.(status := Succeeded);
        case RemoteFailed =>
          r := r.(lifecycle := Cooldown, ready := false);
          op := op.(status := Failed);
        case RemoteUnknown =>
          r := r.(lifecycle := ReleaseUnknown, ready := false);
          op := op.(status := Unknown);
      }
      resources := resources[op.resource := r];
      operations := operations[key := op];
      return true;
    }
  }
}

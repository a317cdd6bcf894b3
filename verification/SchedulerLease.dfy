/** Ownership of named background jobs, with fencing tokens. */
module SchedulerLease {
  import opened Wrappers

  type Time = int

  datatype Row = Row(owner: string, leaseUntil: Time, token: int)

  datatype Handle = Handle(job: string, owner: string, token: int)

  type Table = map<string, Row>

  /** Becomes the owner of a job that is new, expired, or already its own. */
  function TryAcquire(t: Table, now: Time, job: string, owner: string, seconds: nat): (Table, Option<Handle>) {
    if job !in t then (t[job := Row(owner, now + seconds, 1)], Some(Handle(job, owner, 1)))
    else
      var row := t[job];
      if now < row.leaseUntil && row.owner != owner then (t, None)
      else
        var token := if row.owner != owner then row.token + 1 else row.token;
        (t[job := Row(owner, now + seconds, token)], Some(Handle(job, owner, token)))
  }

  /** The row still belongs to the handle. */
  predicate Current(t: Table, h: Handle) {
    h.job in t && t[h.job].owner == h.owner && t[h.job].token == h.token
  }

  function Renew(t: Table, now: Time, h: Handle, seconds: nat): (Table, bool) {
    if Current(t, h) then (t[h.job := t[h.job].(leaseUntil := now + seconds)], true) else (t, false)
  }

  function Release(t: Table, now: Time, h: Handle): Table {
    if Current(t, h) then t[h.job := t[h.job].(leaseUntil := now)] else t
  }

  class Repository {
    var leases: Table

    constructor ()
      ensures leases == map[]
    {
      leases := map[];
    }

    method AcquireJob(now: Time, job: string, owner: string, seconds: nat) returns (handle: Option<Handle>)
      modifies this
      ensures (leases, handle) == TryAcquire(old(leases), now, job, owner, seconds)
    {
      if job !in leases {
        leases := leases[job := Row(owner, now + seconds, 1)];
        return Some(Handle(job, owner, 1));
      }
      var row := leases[job];
      if !(row.leaseUntil <= now) && row.owner != owner {
        return None;
      }
      if row.owner != owner {
        row := row.(token := row.token + 1);
      }
      row := row.(owner := owner, leaseUntil := now + seconds);
      leases := leases[job := row];
      return Some(Handle(job, owner, row.token));
    }

    method RenewJob(now: Time, handle: Handle, seconds: nat) returns (renewed: bool)
      modifies this
      ensures (leases, renewed) == Renew(old(leases), now, handle, seconds)
    {
      if handle.job !in leases {
        return false;
      }
      var row := leases[handle.job];
      if row.owner != handle.owner || row.token != handle.token {
        return false;
      }
      leases := leases[handle.job := row.(leaseUntil := now + seconds)];
      return true;
    }

    method ReleaseJob(now: Time, handle: Handle)
      modifies this
      ensures leases == Release(old(leases), now, handle)
    {
      if handle.job !in leases {
        return;
      }
      var row := leases[handle.job];
      if row.owner != handle.owner || row.token != handle.token {
        return;
      }
      leases := leases[handle.job := row.(leaseUntil := now)];
    }
  }

  // ------------------------------------------------------------------------------------- runs

  /** `granted` records the handles given out; no step reads it. */
  datatype World = World(now: Time, table: Table, granted: set<Handle>)

  datatype Event =
    | Tick(seconds: nat)
    | Acquire(job: string, owner: string, seconds: nat)
    | Extend(handle: Handle, seconds: nat)
    | GiveUp(handle: Handle)

  function Step(w: World, e: Event): World {
    match e
    case Tick(seconds) => w.(now := w.now + seconds)
    case Acquire(job, owner, seconds) =>
      var (table, handle) := TryAcquire(w.table, w.now, job, owner, seconds);
      w.(table := table, granted := if handle.Some? then w.granted + {handle.value} else w.granted)
    case Extend(h, seconds) => w.(table := Renew(w.table, w.now, h, seconds).0)
    case GiveUp(h) => w.(table := Release(w.table, w.now, h))
  }

  function Run(w: World, es: seq<Event>): World
    decreases |es|
  {
    if es == [] then w else Run(Step(w, es[0]), es[1..])
  }

  /** The event gives the job to an owner other than the present one. */
  predicate TakesOver(w: World, e: Event, job: string) {
    && e.Acquire? && e.job == job && job in w.table && w.table[job].owner != e.owner
    && TryAcquire(w.table, w.now, job, e.owner, e.seconds).1.Some?
  }

  function Takeovers(w: World, es: seq<Event>, job: string): nat
    decreases |es|
  {
    if es == [] then 0 else (if TakesOver(w, es[0], job) then 1 else 0) + Takeovers(Step(w, es[0]), es[1..], job)
  }

  /** The token counts the changes of owner; without one the owner stays. */
  lemma {:induction false} TokenCountsTakeovers(w: World, es: seq<Event>, job: string)
    requires job in w.table
    ensures var v := Run(w, es);
            && job in v.table
            && v.table[job].token == w.table[job].token + Takeovers(w, es, job)
            && (Takeovers(w, es, job) == 0 ==> v.table[job].owner == w.table[job].owner)
    decreases |es|
  {
    if es != [] {
      TokenCountsTakeovers(Step(w, es[0]), es[1..], job);
    }
  }

  /** A job changes hands only once its lease has run out, and then under a fresh token. */
  lemma OwnerChangesOnlyAfterExpiry(w: World, e: Event, job: string)
    requires job in w.table
    requires Step(w, e).table[job].owner != w.table[job].owner
    ensures TakesOver(w, e, job) && w.table[job].leaseUntil <= w.now
    ensures Step(w, e).table[job].token == w.table[job].token + 1
  {
  }

  ghost predicate Inv(w: World) {
    forall h :: h in w.granted ==>
                  h.job in w.table && h.token <= w.table[h.job].token
                  && (h.token == w.table[h.job].token ==> h.owner == w.table[h.job].owner)
  }

  /** The stored token is one some handle carries. */
  ghost predicate Issued(w: World) {
    forall job :: job in w.table ==> Handle(job, w.table[job].owner, w.table[job].token) in w.granted
  }

  /** No two granted handles carry one token for different owners. */
  ghost predicate TokensBelongToOneOwner(w: World) {
    forall h, k :: h in w.granted && k in w.granted && h.job == k.job && h.token == k.token ==> h.owner == k.owner
  }

  lemma StepKeepsInv(w: World, e: Event)
    requires Inv(w)
    ensures Inv(Step(w, e))
  {
  }

  lemma StepKeepsIssued(w: World, e: Event)
    requires Issued(w)
    ensures Issued(Step(w, e))
  {
  }

  lemma StepKeepsTokens(w: World, e: Event)
    requires Inv(w) && TokensBelongToOneOwner(w)
    ensures TokensBelongToOneOwner(Step(w, e))
  {
    var v := Step(w, e);
    forall h, k | h in v.granted && k in v.granted && h.job == k.job && h.token == k.token ensures h.owner == k.owner {
      StepKeepsInv(w, e);
      assert h in w.granted || h.owner == v.table[h.job].owner;
      assert k in w.granted || k.owner == v.table[k.job].owner;
    }
  }

  lemma {:induction false} TokensIdentifyOwners(w: World, es: seq<Event>)
    requires Inv(w) && Issued(w) && TokensBelongToOneOwner(w)
    ensures var v := Run(w, es); Inv(v) && Issued(v) && TokensBelongToOneOwner(v)
    decreases |es|
  {
    hide Inv, Issued, TokensBelongToOneOwner, Step;
    if es != [] {
      StepKeepsInv(w, es[0]);
      StepKeepsIssued(w, es[0]);
      StepKeepsTokens(w, es[0]);
      TokensIdentifyOwners(Step(w, es[0]), es[1..]);
    }
  }

  /**
   * From the moment a handle is granted, it renews and releases exactly as long as nobody has taken the
   * job over. After that it never works again, not even when its owner has the job back.
   */
  lemma HandleWorksIffNeverTakenOver(w: World, h: Handle, es: seq<Event>, seconds: nat)
    requires Current(w.table, h)
    ensures var v := Run(w, es);
            && (Renew(v.table, v.now, h, seconds).1 <==> Takeovers(w, es, h.job) == 0)
            && (Takeovers(w, es, h.job) > 0 ==>
                  Renew(v.table, v.now, h, seconds).0 == v.table && Release(v.table, v.now, h) == v.table)
  {
    TokenCountsTakeovers(w, es, h.job);
  }

  /** The owner that comes back gets a handle of its own, under a larger token. */
  lemma ReturningOwnerGetsFreshToken(w: World, h: Handle, es: seq<Event>, seconds: nat)
    requires Current(w.table, h) && Takeovers(w, es, h.job) > 0
    ensures var v := Run(w, es);
            var r := TryAcquire(v.table, v.now, h.job, h.owner, seconds).1;
            r.Some? ==> r.value.owner == h.owner && r.value.token > h.token
  {
    TokenCountsTakeovers(w, es, h.job);
  }

  /** The deadline an event's author is told about when the event succeeds. */
  function Granted(w: World, e: Event, job: string): Option<Time> {
    match e
    case Acquire(j, owner, seconds) =>
      if j == job && TryAcquire(w.table, w.now, j, owner, seconds).1.Some? then Some(w.now + seconds) else None
    case Extend(h, seconds) => if h.job == job && Renew(w.table, w.now, h, seconds).1 then Some(w.now + seconds) else None
    case GiveUp(h) => if h.job == job && Current(w.table, h) then Some(w.now) else None
    case Tick(_) => None
  }

  /** The deadline granted last in a run, or `deadline` if none was. */
  function LastGranted(w: World, es: seq<Event>, job: string, deadline: Option<Time>): Option<Time>
    decreases |es|
  {
    if es == [] then deadline
    else
      var granted := Granted(w, es[0], job);
      LastGranted(Step(w, es[0]), es[1..], job, if granted.Some? then granted else deadline)
  }

  function Deadline(t: Table, job: string): Option<Time> {
    if job in t then Some(t[job].leaseUntil) else None
  }

  lemma {:induction false} DeadlineIsLastGranted(w: World, es: seq<Event>, job: string)
    ensures Deadline(Run(w, es).table, job) == LastGranted(w, es, job, Deadline(w.table, job))
    decreases |es|
  {
    if es != [] {
      DeadlineIsLastGranted(Step(w, es[0]), es[1..], job);
    }
  }

  /**
   * After any run an owner that does not have the job gets it exactly if no deadline was ever granted, by acquiring,
   * renewing or giving up, or the one granted last has come. Until then every attempt is refused and changes nothing.
   */
  lemma TakenOverIffLastDeadlinePassed(w: World, es: seq<Event>, job: string, owner: string, seconds: nat)
    requires job in Run(w, es).table ==> Run(w, es).table[job].owner != owner
    ensures var v := Run(w, es);
            var deadline := LastGranted(w, es, job, Deadline(w.table, job));
            var (table, handle) := TryAcquire(v.table, v.now, job, owner, seconds);
            && (handle.Some? <==> deadline.None? || deadline.value <= v.now)
            && (handle.None? ==> table == v.table)
            && (handle.Some? ==>
                  && handle.value.job == job && handle.value.owner == owner
                  && handle.value.token == if job in v.table then v.table[job].token + 1 else 1)
  {
    DeadlineIsLastGranted(w, es, job);
  }

  predicate LeftAloneBy(es: seq<Event>, h: Handle) {
    forall i :: 0 <= i < |es| ==>
                  match es[i]
                  case Acquire(job, owner, _) => job != h.job || owner != h.owner
                  case Extend(k, _) => k != h
                  case GiveUp(k) => k != h
                  case Tick(_) => true
  }

  /** Whoever holds a handle has the job alone until the deadline, however hard the others try. */
  lemma {:induction false} HolderIsAloneUntilDeadline(w: World, h: Handle, es: seq<Event>)
    requires Current(w.table, h) && LeftAloneBy(es, h) && Run(w, es).now < w.table[h.job].leaseUntil
    ensures Takeovers(w, es, h.job) == 0
    ensures h.job in Run(w, es).table && Run(w, es).table[h.job] == w.table[h.job]
    decreases |es|
  {
    if es != [] {
      var v := Step(w, es[0]);
      TimePasses(v, es[1..]);
      assert v.table[h.job] == w.table[h.job];
      assert forall i :: 0 <= i < |es| - 1 ==> es[1..][i] == es[i + 1];
      HolderIsAloneUntilDeadline(v, h, es[1..]);
    }
  }

  lemma {:induction false} TimePasses(w: World, es: seq<Event>)
    ensures w.now <= Run(w, es).now
    decreases |es|
  {
    if es != [] {
      TimePasses(Step(w, es[0]), es[1..]);
    }
  }

  /**
   * Who acquires a job, known or new, for some time has it alone for that time: over any run in which the owner leaves
   * it alone, nobody else gets a handle before that moment, and the handle itself can still be renewed.
   */
  lemma AcquiredForThatLong(w: World, job: string, owner: string, seconds: nat, es: seq<Event>, other: string, wanted: nat)
    requires other != owner
    requires var (table, handle) := TryAcquire(w.table, w.now, job, owner, seconds);
             && handle.Some? && LeftAloneBy(es, handle.value)
             && Run(Step(w, Acquire(job, owner, seconds)), es).now < w.now + seconds
    ensures var h := TryAcquire(w.table, w.now, job, owner, seconds).1.value;
            var v := Run(Step(w, Acquire(job, owner, seconds)), es);
            && h.job == job && h.owner == owner
            && TryAcquire(v.table, v.now, job, other, wanted) == (v.table, None)
            && Renew(v.table, v.now, h, wanted).1
  {
    HolderIsAloneUntilDeadline(Step(w, Acquire(job, owner, seconds)), TryAcquire(w.table, w.now, job, owner, seconds).1.value, es);
  }

  /** The same for an extension. */
  lemma ExtendedForThatLong(w: World, h: Handle, seconds: nat, es: seq<Event>, other: string, wanted: nat)
    requires other != h.owner && Renew(w.table, w.now, h, seconds).1
    requires LeftAloneBy(es, h) && Run(Step(w, Extend(h, seconds)), es).now < w.now + seconds
    ensures var v := Run(Step(w, Extend(h, seconds)), es);
            TryAcquire(v.table, v.now, h.job, other, wanted) == (v.table, None) && Renew(v.table, v.now, h, wanted).1
  {
    HolderIsAloneUntilDeadline(Step(w, Extend(h, seconds)), h, es);
  }

  /** A job that has been given up is free at once for anybody, for as long as it is wanted, and the old handle is void then. */
  lemma GivenUpIsFree(w: World, h: Handle, other: string, seconds: nat)
    requires other != h.owner && h.job in w.table && w.table[h.job].owner == h.owner && w.table[h.job].token == h.token
    ensures var v := Step(w, GiveUp(h));
            var (table, handle) := TryAcquire(v.table, v.now, h.job, other, seconds);
            && handle == Some(Handle(h.job, other, h.token + 1))
            && table == w.table[h.job := Row(other, w.now + seconds, h.token + 1)]
            && !Renew(table, v.now, h, seconds).1
  {
  }

  /** An owner may acquire its own job again at any time: the token stays, so earlier handles stay good, and the time counts from now. */
  lemma OwnerMayAcquireAgain(w: World, h: Handle, seconds: nat)
    requires h.job in w.table && w.table[h.job].owner == h.owner && w.table[h.job].token == h.token
    ensures TryAcquire(w.table, w.now, h.job, h.owner, seconds) == (w.table[h.job := Row(h.owner, w.now + seconds, h.token)], Some(h))
  {
  }
}

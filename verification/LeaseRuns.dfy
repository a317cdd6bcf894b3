/** The guarantees of leasing over whole runs. */
module LeaseRuns {
  import opened Wrappers
  import opened Text
  import opened AliasAddress
  import opened LeaseOccupancy
  import opened LeaseSafety
  import opened LeaseService

  // ---------------------------------------------------------------------- every step keeps Inv

  /** `v` has no lease, claim or active lease that `s` does not have. */
  ghost predicate Shrinks(s: Store, v: Store) {
    && s.now <= v.now && v.nextLease == s.nextLease
    && (forall id :: id in v.leases ==>
          && id in s.leases && v.leases[id] == s.leases[id].(releasedAt := v.leases[id].releasedAt)
          && (v.leases[id].releasedAt.None? ==> s.leases[id].releasedAt.None?)
          && v.leases[id].mailbox in v.mailboxes)
    && (forall id :: id in v.claims ==>
          id in s.claims && v.claims[id] == s.claims[id] && id in v.leases && v.leases[id].releasedAt.None?)
    && (forall id :: Active(v, id) ==> id in v.claims)
  }

  lemma ShrinkingKeepsInv(s: Store, v: Store)
    requires Inv(s) && Shrinks(s, v)
    ensures Inv(v)
  {
    hide Normalize, Normal, BaseOf, PlainPrimary;
    forall id | id in v.leases ensures LeaseOk(v, id) {
      assert LeaseOk(s, id);
    }
    forall id | id in v.claims ensures ClaimOk(v, id) {
      assert ClaimOk(s, id);
    }
    forall i, j | Active(v, i) && Active(v, j) && i != j ensures Compatible(v.leases[i], v.leases[j]) {
      assert Active(s, i) && Active(s, j);
    }
  }

  lemma ReleaseShrinks(s: Store, client: string, id: LeaseId)
    requires Inv(s)
    ensures Shrinks(s, Release(s, client, id).0)
  {
    var v := Release(s, client, id).0;
    if v == s {
      StaysShrunk(s);
    } else {
      assert v == s.(leases := s.leases[id := s.leases[id].(releasedAt := Some(s.now))], claims := s.claims - {id});
      hide Release, Compatible;
      forall k | k in v.leases ensures k in s.leases && v.leases[k].mailbox in v.mailboxes {
        assert LeaseOk(s, k);
      }
      forall k | k in v.claims ensures k in v.leases && v.leases[k].releasedAt.None? {
        assert ClaimOk(s, k);
      }
      forall k | Active(v, k) ensures k in v.claims {
        assert Active(s, k);
      }
    }
  }

  lemma StaysShrunk(s: Store)
    requires Inv(s)
    ensures Shrinks(s, s)
  {
    hide Compatible;
    forall k | k in s.leases ensures s.leases[k].mailbox in s.mailboxes {
      assert LeaseOk(s, k);
    }
    forall k | k in s.claims ensures k in s.leases && s.leases[k].releasedAt.None? {
      assert ClaimOk(s, k);
    }
  }

  lemma ForceReleaseShrinks(s: Store, mailbox: string)
    requires Inv(s)
    ensures Shrinks(s, ForceRelease(s, mailbox))
  {
    hide Normalize, Normal, BaseOf, PlainPrimary;
    var v := ForceRelease(s, mailbox);
    forall k | k in v.leases ensures v.leases[k].mailbox in v.mailboxes {
      assert LeaseOk(s, k);
    }
    forall k | k in v.claims ensures k in v.leases && v.leases[k].releasedAt.None? {
      assert ClaimOk(s, k);
    }
    forall k | Active(v, k) ensures k in v.claims {
      assert Active(s, k) && ClaimOk(s, k);
    }
  }

  lemma PurgeShrinks(s: Store, wanted: set<string>)
    requires Inv(s)
    ensures Shrinks(s, Purge(s, wanted))
  {
    hide Normalize, Normal, BaseOf, PlainPrimary;
    var v := Purge(s, wanted);
    forall k | k in v.leases ensures v.leases[k].mailbox in v.mailboxes {
      assert LeaseOk(s, k);
    }
    forall k | k in v.claims ensures k in v.leases && v.leases[k].releasedAt.None? {
      assert ClaimOk(s, k);
    }
    forall k | Active(v, k) ensures k in v.claims {
      assert Active(s, k) && ClaimOk(s, k);
    }
  }

  lemma TickOrInventoryShrinks(s: Store, e: Event)
    requires Inv(s) && (e.Tick? || e.AddMailbox? || e.SetMailbox?)
    ensures Shrinks(s, Step(s, e))
  {
    hide Normalize, Normal, BaseOf, PlainPrimary, Compatible, Acquire, Reacquire, Release, ForceRelease, AdminDelete, DeleteSite, Revoke;
    var v := Step(s, e);
    OnlyTimeOrInventoryMoved(s, v);
  }

  lemma OnlyTimeOrInventoryMoved(s: Store, v: Store)
    requires Inv(s) && v == s.(now := v.now, mailboxes := v.mailboxes) && s.now <= v.now
    requires s.mailboxes.Keys <= v.mailboxes.Keys
    ensures Shrinks(s, v)
  {
    hide Normalize, Normal, BaseOf, PlainPrimary, Compatible;
    forall k | k in v.leases ensures v.leases[k].mailbox in v.mailboxes {
      assert LeaseOk(s, k);
    }
    forall k | k in v.claims ensures k in v.leases && v.leases[k].releasedAt.None? {
      assert ClaimOk(s, k);
    }
    forall k | Active(v, k) ensures k in v.claims {
      assert Active(s, k);
    }
  }

  lemma StepKeepsInv(s: Store, e: Event)
    requires Inv(s)
    ensures Inv(Step(s, e))
  {
    hide Inv, Shrinks, Acquire, Reacquire, Release, ForceRelease, Purge;
    match e
    case AcquireLease(p, client, ttl, request) => AcquireKeepsInv(s, p, client, ttl, request);
    case ReacquireLease(client, email, ttl) => ReacquireKeepsInv(s, client, email, ttl);
    case ReleaseLease(client, id) => ReleaseShrinks(s, client, id); ShrinkingKeepsInv(s, Step(s, e));
    case ForceReleaseMailbox(p) => ForceReleaseShrinks(s, p); ShrinkingKeepsInv(s, Step(s, e));
    case DeleteMailboxes(wanted, force) =>
      PurgeShrinks(s, wanted * s.mailboxes.Keys);
      ShrinkingKeepsInv(s, Purge(s, wanted * s.mailboxes.Keys));
    case SetSite(_, _) => InvIgnoresSites(s, Step(s, e));
    case RemoveSite(_) => InvIgnoresSites(s, Step(s, e));
    case RevokeUsage(_, _) => InvIgnoresSites(s, Step(s, e));
    case _ => TickOrInventoryShrinks(s, e); ShrinkingKeepsInv(s, Step(s, e));
  }

  lemma {:induction false} RunKeepsInv(s: Store, es: seq<Event>)
    requires Inv(s)
    ensures Inv(Run(s, es))
    decreases |es|
  {
    hide Inv, Step;
    if es != [] {
      StepKeepsInv(s, es[0]);
      RunKeepsInv(Step(s, es[0]), es[1..]);
    }
  }

  lemma EmptyStoreIsOk(s: Store)
    requires Empty(s)
    ensures PlainInv(s)
  {
  }

  predicate AddsPlain(e: Event) {
    e.AddMailbox? ==> PlainPrimary(e.primary)
  }

  /** No lease of `v` is new or has moved to another address. */
  ghost predicate KeepsAddresses(s: Store, v: Store) {
    forall id :: id in v.leases ==>
      && id in s.leases && v.leases[id].mode == s.leases[id].mode
      && v.leases[id].address == s.leases[id].address && v.leases[id].mailbox == s.leases[id].mailbox
  }

  lemma AddressesStayPlain(s: Store, v: Store)
    requires Plain(s) && KeepsAddresses(s, v) && forall p :: p in v.mailboxes ==> PlainPrimary(p)
    ensures Plain(v)
  {
    hide Normal, BaseOf, PlainPrimary;
    forall id | id in v.leases ensures AddressOk(v.leases[id]) {
      assert AddressOk(s.leases[id]);
    }
  }

  lemma OtherStepsKeepAddresses(s: Store, e: Event)
    requires !e.AcquireLease? && !e.ReacquireLease?
    ensures KeepsAddresses(s, Step(s, e))
    ensures forall p :: p in Step(s, e).mailboxes ==> p in s.mailboxes || (e.AddMailbox? && p == e.primary)
  {
    hide Acquire, Reacquire, Blocked;
  }

  lemma StepKeepsPlain(s: Store, e: Event)
    requires PlainInv(s) && AddsPlain(e)
    ensures PlainInv(Step(s, e))
  {
    StepKeepsInv(s, e);
    hide PlainPrimary, Acquire, Reacquire, Inv, AddressOk, KeepsAddresses, Release, ForceRelease, AdminDelete, DeleteSite, Revoke;
    match e
    case AcquireLease(p, client, ttl, request) => AcquireSucceedsIff(s, p, client, ttl, request);
    case ReacquireLease(client, email, ttl) => ReacquireSucceedsIff(s, client, email, ttl);
    case _ =>
      OtherStepsKeepAddresses(s, e);
      hide Step;
      AddressesStayPlain(s, Step(s, e));
  }

  lemma {:induction false} RunKeepsPlain(s: Store, es: seq<Event>)
    requires PlainInv(s) && forall i :: 0 <= i < |es| ==> AddsPlain(es[i])
    ensures PlainInv(Run(s, es))
    decreases |es|
  {
    hide PlainInv, Step, AddsPlain;
    if es != [] {
      StepKeepsPlain(s, es[0]);
      RunKeepsPlain(Step(s, es[0]), es[1..]);
    }
  }

  // --------------------------------------------------------------------------------- occupancy

  /** In no reachable store are two exclusive leases on one mailbox active, nor two leases on one address. */
  lemma NoTwoExclusiveLeases(s: Store, es: seq<Event>, i: LeaseId, j: LeaseId)
    requires Empty(s) && i != j
    ensures var v := Run(s, es);
            Active(v, i) && Active(v, j) ==>
              && (v.leases[i].mailbox == v.leases[j].mailbox ==> OnAlias(v.leases[i]) || OnAlias(v.leases[j]))
              && (v.leases[i].address.Some? ==> v.leases[i].address != v.leases[j].address)
  {
    EmptyStoreIsOk(s);
    RunKeepsInv(s, es);
    hide OnAlias;
    var v := Run(s, es);
    if Active(v, i) && Active(v, j) {
      assert Compatible(v.leases[i], v.leases[j]);
    }
  }

  /** The claim table is the index of the active leases, row by row. */
  lemma ClaimsIndexActiveLeases(s: Store, es: seq<Event>, id: LeaseId)
    requires Empty(s)
    ensures var v := Run(s, es);
            && (Active(v, id) <==> Live(v, id))
            && (Live(v, id) ==> v.claims[id] == ClaimOf(v.leases[id]))
  {
    EmptyStoreIsOk(s);
    RunKeepsInv(s, es);
    ActiveIffLive(Run(s, es), id);
  }

  /** The lease that a step grants or renews. */
  function Granted(s: Store, e: Event): Option<LeaseId> {
    match e
    case AcquireLease(p, client, ttl, request) =>
      (match Acquire(s, p, client, ttl, request).1 case Ok(id) => Some(id) case Err(_) => None)
    case ReacquireLease(client, email, ttl) =>
      (match Reacquire(s, client, email, ttl).1 case Ok(id) => Some(id) case Err(_) => None)
    case _ => None
  }

  /** Whenever an exclusive lease is granted or renewed, no other lease on the mailbox is active, on an alias or not. */
  lemma ExclusiveGrantHasMailboxAlone(s: Store, e: Event)
    requires Inv(s) && Granted(s, e).Some?
    ensures var v := Step(s, e);
            var id := Granted(s, e).value;
            && id in v.leases && id in v.claims
            && (!OnAlias(v.leases[id]) ==> AloneOnMailbox(v, id))
            && (forall k :: Active(s, k) && k != id ==> Active(v, k) && v.leases[k] == s.leases[k])
  {
    hide OnAlias, Acquire, Reacquire, Inv, AloneOnMailbox, Reaches, AddressFor, OwnedMatch;
    match e
    case AcquireLease(p, client, ttl, request) => AcquireKeepsInv(s, p, client, ttl, request);
    case ReacquireLease(client, email, ttl) => ReacquireKeepsInv(s, client, email, ttl);
  }

  /** Among plain primaries a reacquire gives the mailbox on which the caller had a lease with that very address before. */
  lemma ReacquireReturnsItsMailbox(s: Store, client: string, email: string, ttl: nat)
    requires PlainInv(s) && Reacquire(s, client, email, ttl).1.Ok?
    ensures var (v, r) := Reacquire(s, client, email, ttl);
            && r.value in v.leases
            && exists k :: k in s.leases && s.leases[k].client == client && s.leases[k].mode == MailReadMode
                 && s.leases[k].address == Some(Normalize(email)) && s.leases[k].mailbox == v.leases[r.value].mailbox
  {
    var address := Normalize(email);
    ReacquireSucceedsIff(s, client, email, ttl);
    ReacquireKeepsInv(s, client, email, ttl);
    PlainInventory(s);
    ResolvedBase(address, s.mailboxes.Keys);
    hide Normalize, Normal, BaseOf, PlainPrimary, Inv, Reacquire, Scan, Resolve;
    var k :| k in s.leases && s.leases[k].client == client && s.leases[k].mode == MailReadMode && s.leases[k].address == Some(address);
    assert AddressOk(s.leases[k]);
  }

  /** A well-formed, unused alias may join a mailbox whatever leases are active on it, and disturbs none of them. */
  lemma AliasMayJoin(s: Store, p: string, client: string, ttl: nat, suffix: string)
    requires PlainInv(s) && MailReady(s, p)
    requires GoodSuffix(Normalize(suffix)) && !AddressInUse(s, PlusAlias(p, Normalize(suffix)))
    ensures var (v, r) := Acquire(s, p, client, ttl, AliasMail(suffix, None));
            && r == Ok(s.nextLease) && s.nextLease in v.leases && OnAlias(v.leases[s.nextLease])
            && (forall k :: Active(s, k) ==> Active(v, k) && v.leases[k] == s.leases[k])
  {
    hide Normalize, Normal, BaseOf, PlusAlias, GoodSuffix, PlainPrimary, OnAlias, Acquire, PlainInv, AddressInUse, AddressFor;
    var request := AliasMail(suffix, None);
    AcquireSucceedsIff(s, p, client, ttl, request);
    AcquiredLeaseFits(s, p, client, ttl, request);
  }

  // ------------------------------------------------------------------- deleting and compensating

  /** An unforced delete goes through exactly if no active lease is on any of the mailboxes, and leaves every active lease alone. */
  lemma UnforcedDeleteSparesActiveLeases(s: Store, wanted: set<string>)
    requires Inv(s)
    ensures var r := AdminDelete(s, wanted, false);
            && (r.Ok? <==> forall id :: Active(s, id) ==> s.leases[id].mailbox !in wanted)
            && (r.Ok? ==> forall id :: Active(s, id) ==> Active(r.value, id) && r.value.leases[id] == s.leases[id])
            && (r.Ok? ==> r.value.mailboxes.Keys == s.mailboxes.Keys - wanted)
            && (r.Err? ==> r.error == set id | id in s.leases && Active(s, id) && s.leases[id].mailbox in wanted :: s.leases[id].mailbox)
  {
    hide Normalize, PlainPrimary, Compatible;
    var found := wanted * s.mailboxes.Keys;
    forall id ensures Active(s, id) <==> Live(s, id)
      ensures Active(s, id) ==> s.leases[id].mailbox == s.claims[id].mailbox && s.leases[id].mailbox in s.mailboxes
    {
      ActiveIffLive(s, id);
      if Active(s, id) {
        assert LeaseOk(s, id);
      }
    }
    assert Blocked(s, found) == set id | id in s.leases && Active(s, id) && s.leases[id].mailbox in wanted :: s.leases[id].mailbox;
    forall id | Active(s, id) && s.leases[id].mailbox in wanted ensures s.leases[id].mailbox in Blocked(s, found) {
    }
  }

  /** Apart from `except`, the two stores have the same active leases and the same live claims. */
  ghost predicate SameOccupancy(s: Store, v: Store, except: set<LeaseId>) {
    && (forall k :: k !in except ==> (Active(s, k) <==> Active(v, k)) && (Live(s, k) <==> Live(v, k)))
    && (forall k :: k !in except && Active(s, k) ==> s.leases[k] == v.leases[k])
    && (forall k :: k !in except && Live(s, k) ==> s.claims[k] == v.claims[k])
  }

  /** Releasing takes exactly one lease and its claim out of circulation. */
  lemma ReleaseRemovesExactlyOne(s: Store, client: string, id: LeaseId)
    requires Inv(s) && id in s.leases && s.leases[id].client == client
    ensures var v := Release(s, client, id).0;
            !Active(v, id) && !Live(v, id) && SameOccupancy(s, v, {id})
            && Release(v, client, id).0 == v && Release(v, client, id).1 == Release(s, client, id).1
            && Release(v, client, id).1.Some?
  {
    if id in s.claims {
      assert ClaimOk(s, id);
    }
    hide Inv, ClaimOk;
  }

  lemma NextIsUnused(s: Store)
    requires Inv(s)
    ensures s.nextLease !in s.leases && s.nextLease !in s.claims
  {
    forall k | k in s.leases ensures k < s.nextLease {
      LeaseIsNumbered(s, k);
    }
    forall k | k in s.claims ensures k in s.leases {
      assert ClaimOk(s, k);
    }
  }

  /** Acquiring puts exactly one lease and its claim into circulation. */
  lemma AcquireAddsExactlyOne(s: Store, p: string, client: string, ttl: nat, request: Request)
    requires Inv(s) && Acquire(s, p, client, ttl, request).1.Ok?
    ensures var (v, r) := Acquire(s, p, client, ttl, request);
            Inv(v) && v.now == s.now && SameOccupancy(s, v, {r.value})
            && !Active(s, r.value) && !Live(s, r.value)
            && r.value in v.leases && v.leases[r.value].client == client
  {
    hide OnAlias, AddressFor, Acquire, Inv, AloneOnMailbox;
    AcquireKeepsInv(s, p, client, ttl, request);
    assert s.nextLease !in s.leases by { NextIsUnused(s); }
    var (v, r) := Acquire(s, p, client, ttl, request);
    forall k
      ensures k != r.value ==> (Active(s, k) <==> Active(v, k)) && (Live(s, k) <==> Live(v, k))
      ensures k != r.value && Live(s, k) ==> s.claims[k] == v.claims[k]
      ensures k == r.value ==> !Live(s, k)
    {
      ActiveIffLive(s, k);
      ActiveIffLive(v, k);
    }
  }

  lemma TimeKeepsSameOccupancy(s: Store, v: Store, except: set<LeaseId>, elapsed: nat)
    requires SameOccupancy(s, v, except) && s.now == v.now
    ensures SameOccupancy(s.(now := s.now + elapsed), v.(now := v.now + elapsed), except)
  {
    var s', v' := s.(now := s.now + elapsed), v.(now := v.now + elapsed);
    forall k | k !in except
      ensures (Active(s', k) <==> Active(v', k)) && (Active(s', k) ==> s'.leases[k] == v'.leases[k])
      ensures (Live(s', k) <==> Live(v', k)) && (Live(s', k) ==> s'.claims[k] == v'.claims[k])
    {
      assert (Active(s', k) ==> Active(s, k)) && (Active(v', k) ==> Active(v, k));
      assert (Live(s', k) ==> Live(s, k)) && (Live(v', k) ==> Live(v, k));
    }
  }

  /**
   * Reserving an access-token lease and releasing it again when the exchange fails leaves the active
   * leases and the live claims as time alone would have left them.
   */
  lemma CompensationRestoresOccupancy(s: Store, p: string, client: string, ttl: nat, elapsed: nat)
    requires Inv(s) && Acquire(s, p, client, ttl, TokenLease(false)).1.Ok?
    ensures var (reserved, r) := Acquire(s, p, client, ttl, TokenLease(false));
            var compensated := Release(reserved.(now := reserved.now + elapsed), client, r.value).0;
            SameOccupancy(s.(now := s.now + elapsed), compensated, {})
  {
    hide Acquire, Inv, Release;
    AcquireAddsExactlyOne(s, p, client, ttl, TokenLease(false));
    var (reserved, r) := Acquire(s, p, client, ttl, TokenLease(false));
    TimeKeepsSameOccupancy(s, reserved, {r.value}, elapsed);
    var later := reserved.(now := reserved.now + elapsed);
    assert later == Step(reserved, Tick(elapsed));
    StepKeepsInv(reserved, Tick(elapsed));
    ReleaseRemovesExactlyOne(later, client, r.value);
  }

  /** A lease number is used once, and its holder never changes. */
  predicate SameHolder(s: Store, v: Store, id: LeaseId) {
    id < v.nextLease && (id in v.leases ==> id in s.leases && v.leases[id].client == s.leases[id].client)
  }

  lemma StepKeepsHolder(s: Store, e: Event, id: LeaseId)
    requires Inv(s) && id < s.nextLease
    ensures SameHolder(s, Step(s, e), id)
  {
    hide Normalize, Normal, BaseOf, PlusAlias, GoodSuffix, Resolve, PlainPrimary, OnAlias, Compatible, LeaseOk, ClaimOk, UpsertClaim, Eligible, AddressFor, HasHistory, MailReady, Inv;
    match e
    case ReacquireLease(client, email, ttl) => ReacquireKeepsHolder(s, client, email, ttl, id);
    case _ =>
  }

  lemma ReacquireKeepsHolder(s: Store, client: string, email: string, ttl: nat, id: LeaseId)
    requires id < s.nextLease
    ensures SameHolder(s, Reacquire(s, client, email, ttl).0, id)
  {
    hide Normalize, Resolve, HasHistory, MailReady, UpsertClaim, Scan, OwnedMatch, InTheWay;
    var address := Normalize(email);
    var kind := Resolve(address, s.mailboxes.Keys);
    if kind.Ok? {
      var mailbox := if kind.value.AliasOf? then kind.value.base else address;
      ScanFinds(s, mailbox, client, address, kind.value.AliasOf?, s.nextLease);
    }
  }

  lemma {:induction false} RunKeepsHolder(s: Store, es: seq<Event>, id: LeaseId)
    requires Inv(s) && id < s.nextLease
    ensures SameHolder(s, Run(s, es), id)
    decreases |es|
  {
    hide Inv, Step;
    if es != [] {
      StepKeepsInv(s, es[0]);
      StepKeepsHolder(s, es[0], id);
      RunKeepsHolder(Step(s, es[0]), es[1..], id);
    }
  }

  /**
   * However long the exchange took and whatever happened meanwhile, the compensation ends the reserved lease, if it
   * still exists, and disturbs no other active lease or live claim.
   */
  lemma CompensationEndsOnlyItsLease(s: Store, p: string, client: string, ttl: nat, es: seq<Event>)
    requires Inv(s) && Acquire(s, p, client, ttl, TokenLease(false)).1.Ok?
    ensures var (reserved, r) := Acquire(s, p, client, ttl, TokenLease(false));
            var v := Run(reserved, es);
            var compensated := Release(v, client, r.value).0;
            !Active(compensated, r.value) && !Live(compensated, r.value) && SameOccupancy(v, compensated, {r.value})
  {
    hide *;
    AcquireAddsExactlyOne(s, p, client, ttl, TokenLease(false));
    var (reserved, r) := Acquire(s, p, client, ttl, TokenLease(false));
    LeaseIsNumbered(reserved, r.value);
    RunKeepsHolder(reserved, es, r.value);
    RunKeepsInv(reserved, es);
    ReleaseEndsOwnLease(reserved, Run(reserved, es), client, r.value);
  }

  lemma ReleaseEndsOwnLease(s: Store, v: Store, client: string, id: LeaseId)
    requires Inv(v) && SameHolder(s, v, id) && id in s.leases && s.leases[id].client == client
    ensures var u := Release(v, client, id).0; !Active(u, id) && !Live(u, id) && SameOccupancy(v, u, {id})
  {
    if id in v.leases {
      ReleaseRemovesExactlyOne(v, client, id);
    } else {
      ActiveIffLive(v, id);
      hide Inv;
    }
  }

  lemma FreeAliasIsWanted(s: Store, p: string, suffix: string, site: Option<string>)
    requires PlainPrimary(p) && GoodSuffix(suffix) && Free(s, PlusAlias(p, suffix), site)
    ensures AliasFree(s, p, AliasMail(suffix, site)) && AddressFor(s, p, AliasMail(suffix, site)) == Ok(Some(PlusAlias(p, suffix)))
  {
    hide Normalize, Normal, PlusAlias, GoodSuffix, PlainPrimary, AddressInUse, Occupied;
    SuffixIsNormal(suffix);
    NormalizeOfNormal(suffix);
    PlainIsWellFormed(p);
    AliasIsNormal(p, suffix);
    NormalizeOfNormal(PlusAlias(p, suffix));
  }

  lemma EligibleIsPlain(s: Store, p: string, request: Request)
    requires PlainInv(s) && Eligible(s, p, request)
    ensures PlainPrimary(p)
  {
    hide PlainPrimary;
  }

  /** What random allocation finds is granted: a free alias with a well-formed suffix, on a mailbox that takes alias leases. */
  lemma FreeAliasIsGranted(s: Store, p: string, client: string, ttl: nat, suffix: string, site: Option<string>)
    requires PlainInv(s) && SiteEnabled(s, site) && Eligible(s, p, AliasMail(suffix, site))
    requires GoodSuffix(suffix) && Free(s, PlusAlias(p, suffix), site)
    ensures var (v, r) := Acquire(s, p, client, ttl, AliasMail(suffix, site));
            r == Ok(s.nextLease) && s.nextLease in v.leases && v.leases[s.nextLease].address == Some(PlusAlias(p, suffix))
  {
    assert SiteOf(AliasMail(suffix, site)) == site;
    hide *;
    EligibleIsPlain(s, p, AliasMail(suffix, site));
    FreeAliasIsWanted(s, p, suffix, site);
    AcquireSucceedsIff(s, p, client, ttl, AliasMail(suffix, site));
  }

  lemma SuffixIsNormal(suffix: string)
    requires GoodSuffix(suffix)
    ensures Normal(suffix)
  {
    forall i | 0 <= i < |suffix| ensures !IsSpace(suffix[i]) && ToLower(suffix[i]) == suffix[i] {
      assert InAlphabet(suffix[i]);
    }
  }

  // -------------------------------------------------------------------------------------- sites

  /** The (address, site) pair that a step registers. */
  function RegisteredPair(s: Store, e: Event): Option<(string, string)> {
    match e
    case AcquireLease(p, client, ttl, request) =>
      var (v, r) := Acquire(s, p, client, ttl, request);
      if r.Ok? && SiteOf(request).Some? && r.value in v.leases && v.leases[r.value].address.Some?
      then Some((Normalize(v.leases[r.value].address.value), SiteOf(request).value)) else None
    case _ => None
  }

  lemma RegistrationTakesAFreePair(s: Store, e: Event)
    requires RegisteredPair(s, e).Some?
    ensures var k := RegisteredPair(s, e).value;
            !Occupied(s, k.0, k.1) && Occupied(Step(s, e), k.0, k.1)
  {
    hide Normalize, UpsertClaim, AddressFor, Eligible;
  }

  lemma OnlyRevocationFreesAPair(s: Store, e: Event, address: string, site: string)
    requires Occupied(s, address, site) && e != RevokeUsage(address, site)
    ensures Occupied(Step(s, e), address, site)
  {
    hide Normalize, UpsertClaim, AddressFor, Eligible, Scan, Resolve;
  }

  lemma {:induction false} OccupiedUntilRevoked(s: Store, es: seq<Event>, address: string, site: string)
    requires Occupied(s, address, site)
    requires forall k :: 0 <= k < |es| ==> es[k] != RevokeUsage(address, site)
    ensures Occupied(Run(s, es), address, site)
    decreases |es|
  {
    hide Step, Occupied;
    if es != [] {
      OnlyRevocationFreesAPair(s, es[0], address, site);
      OccupiedUntilRevoked(Step(s, es[0]), es[1..], address, site);
    }
  }

  /** Between two registrations of one address at one site lies a revocation of that occupancy. */
  lemma RegistrationsAreSeparatedByRevocation(s: Store, es: seq<Event>, i: nat, j: nat, address: string, site: string)
    requires i < j < |es|
    requires RegisteredPair(Run(s, es[..i]), es[i]) == Some((address, site))
    requires RegisteredPair(Run(s, es[..j]), es[j]) == Some((address, site))
    ensures exists k :: i < k < j && es[k] == RevokeUsage(address, site)
  {
    hide Step, RegisteredPair, Occupied;
    var v := Run(s, es[..i]);
    RegistrationTakesAFreePair(v, es[i]);
    RegistrationTakesAFreePair(Run(s, es[..j]), es[j]);
    var between := es[i + 1..j];
    assert es[..j] == es[..i] + ([es[i]] + between);
    RunSplits(s, es[..i], [es[i]] + between);
    assert ([es[i]] + between)[1..] == between;
    if forall k :: 0 <= k < |between| ==> between[k] != RevokeUsage(address, site) {
      OccupiedUntilRevoked(Step(v, es[i]), between, address, site);
      assert false;
    }
    var k :| 0 <= k < |between| && between[k] == RevokeUsage(address, site);
    assert es[i + 1 + k] == RevokeUsage(address, site);
  }
}

/**
 * Leasing without the restriction on primary addresses. A primary that contains a plus sign can equal an alias
 * of another mailbox; then the unique index on claimed addresses decides. The conditions assume no invariant, so a
 * claim may also belong to a provider resource: its owner is then a name that is not a mailbox.
 */
module AddressClash {
  import opened Wrappers
  import opened Text
  import opened AliasAddress
  import opened LeaseOccupancy
  import opened LeaseSafety
  import opened LeaseRuns
  import TokenRepository

  /** The claim has this address and is not among those that an upsert for `mailbox` purges. */
  predicate ClaimedBy(s: Store, k: LeaseId, mailbox: string, address: Option<string>) {
    k in s.claims && address.Some? && s.claims[k].address == address && (s.claims[k].mailbox == mailbox ==> Live(s, k))
  }

  /** Why the claim of a lease cannot be written. */
  ghost predicate Clashes(s: Store, id: LeaseId, lease: Lease) {
    || (exists k :: k != id && ClaimedBy(s, k, lease.mailbox, lease.address))
    || (!OnAlias(lease) && exists k :: k != id && LiveOn(s, k, lease.mailbox))
  }

  lemma UpsertFailsIff(s: Store, t: Store, id: LeaseId)
    requires id in t.leases && t.claims == s.claims && t.now == s.now
    ensures UpsertClaim(t, id).Err? <==> Clashes(s, id, t.leases[id])
  {
    hide OnAlias;
    var lease := t.leases[id];
    var kept := map k | k in t.claims && k != id
                        && !(t.claims[k].mailbox == lease.mailbox && t.claims[k].expiresAt <= t.now) :: t.claims[k];
    forall k ensures k != id && ClaimedBy(s, k, lease.mailbox, lease.address)
                  <==> lease.address.Some? && k in kept && kept[k].address == lease.address
    {
    }
    forall k ensures k != id && LiveOn(s, k, lease.mailbox)
                  <==> k in kept && kept[k].mailbox == lease.mailbox && s.now < kept[k].expiresAt
    {
    }
  }

  // -------------------------------------------------------------------------------------- acquiring

  /** The lease an acquire transaction tries to write. */
  function Wanted(s: Store, mailbox: string, client: string, ttl: nat, request: Request): Lease
    requires AddressFor(s, mailbox, request).Ok?
  {
    Lease(mailbox, client, ModeOf(request), AddressFor(s, mailbox, request).value, s.now + ttl, None)
  }

  /** Whatever the inventory, an eligible mailbox is refused exactly if the claim of its lease cannot be written. */
  lemma AcquireRefusedIff(s: Store, mailbox: string, client: string, ttl: nat, request: Request)
    requires SiteEnabled(s, SiteOf(request)) && Eligible(s, mailbox, request) && AddressFor(s, mailbox, request).Ok?
    ensures Acquire(s, mailbox, client, ttl, request).1 == Err(NoMailbox)
       <==> Clashes(s, s.nextLease, Wanted(s, mailbox, client, ttl, request))
  {
    hide WriteAcquired, Eligible, AddressFor, Clashes;
    WriteRefusedIff(s, Wanted(s, mailbox, client, ttl, request), SiteOf(request));
  }

  lemma WriteRefusedIff(s: Store, lease: Lease, site: Option<string>)
    ensures WriteAcquired(s, lease, site).1 == Err(NoMailbox) <==> Clashes(s, s.nextLease, lease)
  {
    hide UpsertClaim, Clashes, Normalize, Occupied;
    UpsertFailsIff(s, s.(leases := s.leases[s.nextLease := lease], nextLease := s.nextLease + 1), s.nextLease);
  }

  /**
   * A primary address is refused exactly if a claim of another mailbox is on it, live or expired: the upsert
   * purges the expired claims of its own mailbox only. Otherwise it is granted.
   */
  lemma PrimaryRefusedIffClaimedElsewhere(s: Store, m: string, client: string, ttl: nat, site: string)
    requires Normal(m) && SiteEnabled(s, Some(site)) && Eligible(s, m, PrimaryMail(site)) && s.nextLease !in s.claims
    ensures var (v, r) := Acquire(s, m, client, ttl, PrimaryMail(site));
            if exists k :: k in s.claims && s.claims[k].mailbox != m && s.claims[k].address == Some(m)
            then (v, r) == (s, Err(NoMailbox))
            else r == Ok(s.nextLease)
  {
    NormalizeOfNormal(m);
    hide Normalize, Normal;
    AcquireRefusedIff(s, m, client, ttl, PrimaryMail(site));
    var lease := Wanted(s, m, client, ttl, PrimaryMail(site));
    assert lease.address == Some(m);
    forall k ensures !LiveOn(s, k, m) {
    }
    forall k ensures ClaimedBy(s, k, m, Some(m)) <==> k in s.claims && s.claims[k].mailbox != m && s.claims[k].address == Some(m) {
    }
    hide UpsertClaim, Eligible;
  }

  /** The address of a claimed provider resource is refused even in an inventory of plain primaries. */
  lemma ResourceClaimBlocksPrimary(s: Store, m: string, client: string, ttl: nat, site: string, k: LeaseId)
    requires Normal(m) && SiteEnabled(s, Some(site)) && Eligible(s, m, PrimaryMail(site)) && s.nextLease !in s.claims
    requires k in s.claims && s.claims[k].mailbox !in s.mailboxes && s.claims[k].address == Some(m)
    ensures Acquire(s, m, client, ttl, PrimaryMail(site)) == (s, Err(NoMailbox))
  {
    PrimaryRefusedIffClaimedElsewhere(s, m, client, ttl, site);
    hide Normal, Acquire;
  }

  // ------------------------------------------------------------------------------------ reacquiring

  /** Reacquiring does not catch the error: it fails with it exactly if it would write and the claim cannot be written. */
  lemma ReacquireBreaksIff(s: Store, client: string, email: string, ttl: nat)
    ensures var r := Reacquire(s, client, email, ttl).1;
            (r.Err? && r.error.Integrity?) <==>
              && Reaches(s, client, email).Some?
              && var (mailbox, own) := Reaches(s, client, email).value;
                 Clashes(s, if own.Some? then own.value else s.nextLease, ReacquiredLease(s, client, Normalize(email), mailbox, ttl, own))
  {
    hide Normalize, Resolve, HasHistory, MailReady, Scan, ReacquiredLease, UpsertClaim, Clashes;
    if Reaches(s, client, email).Some? {
      var (mailbox, own) := Reaches(s, client, email).value;
      var id := if own.Some? then own.value else s.nextLease;
      var lease := ReacquiredLease(s, client, Normalize(email), mailbox, ttl, own);
      UpsertFailsIff(s, s.(leases := s.leases[id := lease], nextLease := if own.Some? then s.nextLease else id + 1), id);
    }
  }

  lemma {:induction false} NobodyInTheWay(s: Store, m: string, client: string, upTo: LeaseId)
    requires forall k :: !ActiveOn(s, k, m)
    ensures Scan(s, m, client, m, false, upTo) == Ok(None)
  {
    hide SameAddress, OwnedMatch;
    if upTo > 0 {
      NobodyInTheWay(s, m, client, upTo - 1);
    }
  }

  lemma UpsertOfFreePrimary(s: Store, t: Store, id: LeaseId, m: string)
    requires id in t.leases && id !in s.claims && t.claims == s.claims && t.now == s.now
    requires t.leases[id].mailbox == m && t.leases[id].address == Some(m) && forall k :: !LiveOn(s, k, m)
    ensures if exists k :: k in s.claims && s.claims[k].mailbox != m && s.claims[k].address == Some(m)
            then UpsertClaim(t, id) == Err(DuplicateAddress) else UpsertClaim(t, id).Ok?
  {
    UpsertFailsIff(s, t, id);
    forall k ensures ClaimedBy(s, k, m, Some(m)) <==> k in s.claims && s.claims[k].mailbox != m && s.claims[k].address == Some(m) {
      assert !LiveOn(s, k, m);
    }
    hide OnAlias;
    var kept := map k | k in t.claims && k != id && !(t.claims[k].mailbox == m && t.claims[k].expiresAt <= t.now) :: t.claims[k];
    forall k | k in kept ensures kept[k].mailbox != m {
      assert !LiveOn(s, k, m);
    }
  }

  lemma WriteOfFreePrimary(s: Store, m: string, client: string, ttl: nat)
    requires s.nextLease !in s.claims && forall k :: !LiveOn(s, k, m)
    ensures var (v, r) := WriteReacquired(s, client, m, m, ttl, None);
            if exists k :: k in s.claims && s.claims[k].mailbox != m && s.claims[k].address == Some(m)
            then (v, r) == (s, Err(Integrity(DuplicateAddress)))
            else r == Ok(s.nextLease)
  {
    hide UpsertClaim, LiveOn;
    var lease := ReacquiredLease(s, client, m, m, ttl, None);
    UpsertOfFreePrimary(s, s.(leases := s.leases[s.nextLease := lease], nextLease := s.nextLease + 1), s.nextLease, m);
  }

  /**
   * A client that held the primary address of a mailbox nobody is on any more gets it back, unless a claim of
   * another mailbox is on it, live or expired; then reacquiring breaks off with the unique index's error.
   */
  lemma PrimaryBreaksIffClaimedElsewhere(s: Store, m: string, client: string, ttl: nat)
    requires Normal(m) && Resolve(m, s.mailboxes.Keys) == Ok(PrimaryAddress) && s.nextLease !in s.claims
    requires HasHistory(s, client, m) && MailReady(s, m) && forall k :: !ActiveOn(s, k, m) && !LiveOn(s, k, m)
    ensures var (v, r) := Reacquire(s, client, m, ttl);
            if exists k :: k in s.claims && s.claims[k].mailbox != m && s.claims[k].address == Some(m)
            then (v, r) == (s, Err(Integrity(DuplicateAddress)))
            else r == Ok(s.nextLease)
  {
    NormalizeOfNormal(m);
    NobodyInTheWay(s, m, client, s.nextLease);
    WriteOfFreePrimary(s, m, client, ttl);
    hide Normalize, Normal, Resolve, HasHistory, MailReady, Scan, WriteReacquired, ActiveOn, LiveOn;
  }

  // ----------------------------------------------------------------------------------- an example

  const BASE := "a@d"
  const PLUS := "a+x@d"
  const READY := Mailbox(TokenRepository.Active, true, true)

  /** Two mailboxes, the primary address of one of which looks like an alias of the other. */
  const TwoMailboxes := Store(0, map[BASE := READY, PLUS := READY], map[], map[], map[], map["site" := true], 0)

  lemma ExampleAlias()
    ensures PlusAlias(BASE, "x") == PLUS
  {
    hide Strip, Find, Lower;
    FindIsFirst(BASE, '@', 1);
    FindIsFirst("a", '+', 1);
    StripOfTrimmed(BASE);
    LowerFacts("d");
    assert BASE[..1] == "a" && BASE[2..] == "d" && "a"[..1] == "a";
    assert Local(BASE) == "a" && Domain(BASE) == "d";
    assert BaseLocal(BASE) == "a";
  }

  lemma ExampleResolves()
    ensures Resolve(PLUS, {BASE, PLUS}) == Ok(PrimaryAddress)
  {
    hide Find;
    FindIsFirst(PLUS, '@', 3);
  }

  lemma ExampleStrings()
    ensures Normalize(BASE) == BASE && Normalize(PLUS) == PLUS && Normalize("x") == "x"
    ensures Normal(PLUS) && GoodSuffix("x")
  {
    NormalizeOfNormal(BASE);
    NormalizeOfNormal(PLUS);
    NormalizeOfNormal("x");
    hide Normalize;
  }

  lemma BaseHasParts()
    ensures HasBothParts(Strip(BASE))
  {
    StripOfTrimmed(BASE);
    FindIsFirst(BASE, '@', 1);
    hide Find, Strip;
  }

  /** The alias of one mailbox, while leased. */
  function AliasLeased(s: Store): Store {
    Acquire(s, BASE, "other", 60, AliasMail("x", None)).0
  }

  lemma AliasIsLeased(s: Store)
    requires s.mailboxes == TwoMailboxes.mailboxes && s.claims == map[] && forall id :: id in s.leases ==> !Active(s, id)
    ensures var v := AliasLeased(s);
            && v.mailboxes == s.mailboxes && v.sites == s.sites && v.revoked == s.revoked && v.now == s.now
            && v.nextLease == s.nextLease + 1
            && v.leases == s.leases[s.nextLease := Lease(BASE, "other", MailReadMode, Some(PLUS), s.now + 60, None)]
            && v.claims == map[s.nextLease := Claim(BASE, "other", MailReadMode, Some(PLUS), s.now + 60)]
  {
    ExampleAlias();
    ExampleStrings();
    BaseHasParts();
    hide Normalize, PlusAlias, GoodSuffix, HasBothParts, Strip;
    var request := AliasMail("x", None);
    assert AddressFor(s, BASE, request) == Ok(Some(PLUS));
    assert Eligible(s, BASE, request);
    hide AddressFor, Eligible;
  }

  /** The stores of the example: nobody is on the mailbox of the other primary, but its address is claimed. */
  predicate Clashing(v: Store, id: LeaseId) {
    && v.mailboxes == TwoMailboxes.mailboxes && v.sites == TwoMailboxes.sites && v.nextLease == id + 1
    && (forall k :: k in v.leases ==> v.leases[k].mailbox != PLUS || v.leases[k].releasedAt.Some?)
    && v.claims.Keys == {id} && v.claims[id].mailbox == BASE && v.claims[id].address == Some(PLUS)
  }

  lemma ClashingIsEligible(v: Store, id: LeaseId)
    requires Clashing(v, id) && v.revoked == map[]
    ensures SiteEnabled(v, Some("site")) && Eligible(v, PLUS, PrimaryMail("site")) && v.nextLease !in v.claims
    ensures exists k :: k in v.claims && v.claims[k].mailbox != PLUS && v.claims[k].address == Some(PLUS)
  {
    assert v.claims[id].mailbox != PLUS;
  }

  lemma AliasClashes(s: Store, elapsed: nat)
    requires s.mailboxes == TwoMailboxes.mailboxes && s.sites == TwoMailboxes.sites && s.claims == map[]
    requires forall k :: k in s.leases ==> s.leases[k].releasedAt.Some?
    ensures Clashing(AliasLeased(s).(now := elapsed), s.nextLease) && AliasLeased(s).revoked == s.revoked
    ensures forall k :: k in s.leases && k != s.nextLease ==> k in AliasLeased(s).leases && AliasLeased(s).leases[k] == s.leases[k]
  {
    hide AliasLeased, TwoMailboxes;
    assert BASE != PLUS;
    hide BASE, PLUS, READY;
    AliasIsLeased(s);
  }

  /** The other primary address is free, but refused at all times from then on, the alias's expiry included. */
  lemma PrimaryClashIsReached(client: string, ttl: nat, elapsed: nat)
    ensures var v := AliasLeased(TwoMailboxes).(now := elapsed);
            && (forall k :: k in v.leases ==> v.leases[k].mailbox != PLUS || v.leases[k].releasedAt.Some?)
            && Acquire(v, PLUS, client, ttl, PrimaryMail("site")) == (v, Err(NoMailbox))
  {
    AliasClashes(TwoMailboxes, elapsed);
    ExampleStrings();
    hide Normalize, Normal, AliasLeased, Acquire, Eligible, SiteEnabled;
    var v := AliasLeased(TwoMailboxes).(now := elapsed);
    ClashingIsEligible(v, 0);
    PrimaryRefusedIffClaimedElsewhere(v, PLUS, client, ttl, "site");
  }

  /** A lease on the other primary, taken and given back before. */
  function OnceLeased(client: string): Store {
    Release(Acquire(TwoMailboxes, PLUS, client, 60, PrimaryMail("site")).0, client, 0).0
  }

  lemma IsOnceLeased(client: string)
    ensures var v := OnceLeased(client);
            && v == TwoMailboxes.(leases := v.leases, revoked := v.revoked, nextLease := 1)
            && v.leases == map[0 := Lease(PLUS, client, MailReadMode, Some(PLUS), 60, Some(0))]
  {
    ExampleStrings();
    hide Normalize, Normal;
    assert Eligible(TwoMailboxes, PLUS, PrimaryMail("site"));
  }

  lemma ClashingReacquireBreaks(v: Store, client: string, ttl: nat, id: LeaseId)
    requires Clashing(v, id) && HasHistory(v, client, PLUS)
    ensures Reacquire(v, client, PLUS, ttl).1 == Err(Integrity(DuplicateAddress))
  {
    ExampleStrings();
    ExampleResolves();
    hide Normalize, Normal, Reacquire, Resolve, HasHistory;
    assert v.mailboxes.Keys == {BASE, PLUS};
    assert v.claims[id].mailbox != PLUS;
    PrimaryBreaksIffClaimedElsewhere(v, PLUS, client, ttl);
  }

  /** A client that comes back to its primary address runs into the error that reacquiring does not catch. */
  lemma ReacquireClashIsReached(client: string, ttl: nat, elapsed: nat)
    ensures var v := AliasLeased(OnceLeased(client)).(now := elapsed);
            Reacquire(v, client, PLUS, ttl).1 == Err(Integrity(DuplicateAddress))
  {
    IsOnceLeased(client);
    hide OnceLeased;
    AliasClashes(OnceLeased(client), elapsed);
    hide AliasLeased, Clashing;
    var v := AliasLeased(OnceLeased(client)).(now := elapsed);
    assert 0 in v.leases && v.leases[0] == Lease(PLUS, client, MailReadMode, Some(PLUS), 60, Some(0));
    ClashingReacquireBreaks(v, client, ttl, 1);
  }

  /** A client that held an alias of the one mailbox and comes back for it. */
  function AliasReturned(): Store {
    Release(AliasLeased(TwoMailboxes), "other", 0).0
  }

  lemma LeasedIsInv()
    ensures Inv(TwoMailboxes) && Inv(AliasLeased(TwoMailboxes))
  {
    assert Inv(TwoMailboxes);
    hide Inv, AddressFor, Grants, Acquire, TwoMailboxes;
    AcquireKeepsInv(TwoMailboxes, BASE, "other", 60, AliasMail("x", None));
  }

  lemma IsAliasReturned()
    ensures var v := AliasReturned();
            && Inv(v) && v.mailboxes == TwoMailboxes.mailboxes && v.claims == map[] && v.nextLease == 1
            && v.leases == map[0 := Lease(BASE, "other", MailReadMode, Some(PLUS), 60, Some(0))]
  {
    hide AliasLeased, Inv, TwoMailboxes;
    LeasedIsInv();
    NoneLeased();
    AliasIsLeased(TwoMailboxes);
    StepKeepsInv(AliasLeased(TwoMailboxes), ReleaseLease("other", 0));
  }

  lemma NoneLeased()
    ensures TwoMailboxes.claims == map[] && TwoMailboxes.leases == map[] && TwoMailboxes.nextLease == 0 && TwoMailboxes.now == 0
  {
  }

  /**
   * History is kept by address, not by mailbox, and a primary address is tried first. So the client is given the
   * other mailbox, on which neither it nor anybody else ever had a lease.
   */
  lemma AliasLeadsToStrangersMailbox(ttl: nat)
    ensures var s := AliasReturned();
            var (v, r) := Reacquire(s, "other", PLUS, ttl);
            && (forall k :: k in s.leases ==> s.leases[k].mailbox == BASE)
            && r == Ok(1) && 1 in v.leases && v.leases[1].mailbox == PLUS
  {
    IsAliasReturned();
    ExampleStrings();
    ExampleResolves();
    hide AliasReturned, Normalize, Normal, Resolve, Inv, Grants, OwnedMatch;
    var s := AliasReturned();
    assert s.mailboxes.Keys == {BASE, PLUS};
    assert s.leases[0].client == "other" && s.leases[0].address == Some(PLUS);
    assert HasHistory(s, "other", PLUS);
    assert forall k :: !ActiveOn(s, k, PLUS) && !LiveOn(s, k, PLUS);
    PrimaryBreaksIffClaimedElsewhere(s, PLUS, "other", ttl);
    ReacquireKeepsInv(s, "other", PLUS, ttl);
    hide Reacquire, HasHistory, Scan;
    assert Reaches(s, "other", PLUS).value.0 == PLUS;
  }
}

/** What leasing means for the parties: whose lease it is, who may end it, what was asked for and given. */
module LeaseOutcomes {
  import opened Wrappers
  import opened Text
  import opened AliasAddress
  import opened LeaseOccupancy
  import opened LeaseSafety
  import opened LeaseRuns
  import TokenRepository

  // --------------------------------------------------------------------------------------- acquiring

  /** Nobody has the mailbox. */
  predicate Unused(s: Store, m: string) {
    forall k :: k in s.leases && s.leases[k].mailbox == m && s.leases[k].releasedAt.None? ==> s.leases[k].expiresAt <= s.now
  }

  /** What is granted is what was asked for, on a mailbox that can serve it, and in the caller's name. */
  lemma AcquiredAsAsked(s: Store, m: string, client: string, ttl: nat, request: Request)
    requires Inv(s) && Acquire(s, m, client, ttl, request).1.Ok?
    ensures var (v, r) := Acquire(s, m, client, ttl, request);
            && r.value !in s.leases && r.value in v.leases && v.leases == s.leases[r.value := v.leases[r.value]]
            && m in s.mailboxes && s.mailboxes[m].status == TokenRepository.Active && s.mailboxes[m].credentials
            && v.leases[r.value].mailbox == m && v.leases[r.value].client == client
            && v.leases[r.value].releasedAt.None? && v.leases[r.value].expiresAt == s.now + ttl
            && match request
               case TokenLease(refreshToken) =>
                 && v.leases[r.value].mode == (if refreshToken then RefreshTokenMode else AccessTokenMode)
                 && v.leases[r.value].address.None? && Unused(s, m)
               case PrimaryMail(_) =>
                 && v.leases[r.value].mode == MailReadMode && v.leases[r.value].address == Some(Normalize(m))
                 && s.mailboxes[m].channel && Unused(s, m)
               case AliasMail(suffix, _) =>
                 && v.leases[r.value].mode == MailReadMode && v.leases[r.value].address == Some(PlusAlias(m, Normalize(suffix)))
                 && s.mailboxes[m].channel && GoodSuffix(Normalize(suffix))
  {
    AcquireKeepsInv(s, m, client, ttl, request);
    NextIsUnused(s);
    hide Normalize, PlusAlias, GoodSuffix, Inv, OnAlias, AddressInUse, WriteAcquired, AloneOnMailbox;
    if !request.AliasMail? {
      forall k | k in s.leases && s.leases[k].mailbox == m && s.leases[k].releasedAt.None? ensures s.leases[k].expiresAt <= s.now {
        assert !ActiveOn(s, k, m);
      }
    }
  }

  /** Mail reading on another address than the primary one; everything else wants the mailbox alone. */
  predicate ReadsAlias(lease: Lease) {
    lease.mode == MailReadMode && lease.address.Some? && Normalize(lease.address.value) != Normalize(lease.mailbox)
  }

  /** Over any run in any inventory: of two leases that are active on a mailbox at least one reads an alias, and no address is leased twice. */
  lemma TwoTogetherReadAliases(s: Store, es: seq<Event>, i: LeaseId, j: LeaseId)
    requires Empty(s) && i != j
    ensures var v := Run(s, es);
            i in v.leases && j in v.leases
            && v.leases[i].releasedAt.None? && v.now < v.leases[i].expiresAt && v.leases[j].releasedAt.None? && v.now < v.leases[j].expiresAt ==>
              && (v.leases[i].mailbox == v.leases[j].mailbox ==> ReadsAlias(v.leases[i]) || ReadsAlias(v.leases[j]))
              && (v.leases[i].address.Some? ==> v.leases[i].address != v.leases[j].address)
  {
    NoTwoExclusiveLeases(s, es, i, j);
    hide Run, Normalize;
  }

  /** Whoever asks for a mailbox itself, and not for an alias, gets it alone. */
  lemma MailboxIsGrantedAlone(s: Store, m: string, client: string, ttl: nat, request: Request, k: LeaseId)
    requires Inv(s) && !request.AliasMail? && Acquire(s, m, client, ttl, request).1.Ok?
    ensures var (v, r) := Acquire(s, m, client, ttl, request);
            k in v.leases && k != r.value && v.leases[k].mailbox == m && v.leases[k].releasedAt.None? ==> v.leases[k].expiresAt <= v.now
  {
    AcquiredAsAsked(s, m, client, ttl, request);
    AcquireKeepsInv(s, m, client, ttl, request);
    hide Acquire, Inv, Normalize, PlusAlias, GoodSuffix, AddressFor, AloneOnMailbox, OnAlias;
  }

  /** A plain mailbox that nobody has is granted, whatever exclusive mode is wanted. */
  lemma UnusedIsGranted(s: Store, m: string, client: string, ttl: nat, request: Request)
    requires PlainInv(s) && !request.AliasMail? && Unused(s, m)
    requires m in s.mailboxes && s.mailboxes[m].status == TokenRepository.Active && s.mailboxes[m].credentials
    requires request.PrimaryMail? ==>
               && s.mailboxes[m].channel && request.site in s.sites && s.sites[request.site]
               && ((m, request.site) in s.revoked ==> s.revoked[(m, request.site)])
    ensures Acquire(s, m, client, ttl, request).1 == Ok(s.nextLease)
  {
    AcquireSucceedsIff(s, m, client, ttl, request);
    EligibleIfUnused(s, m, request);
    hide *;
  }

  lemma NobodyThere(s: Store, m: string)
    requires Inv(s) && Unused(s, m)
    ensures forall k :: !ActiveOn(s, k, m) && !LiveOn(s, k, m)
  {
    forall k ensures !ActiveOn(s, k, m) && !LiveOn(s, k, m) {
      if k in s.claims {
        assert ClaimOk(s, k);
      }
    }
  }

  lemma EligibleIfUnused(s: Store, m: string, request: Request)
    requires Inv(s) && !request.AliasMail? && Unused(s, m)
    requires m in s.mailboxes && s.mailboxes[m].status == TokenRepository.Active && s.mailboxes[m].credentials
    requires request.PrimaryMail? ==>
               && s.mailboxes[m].channel && request.site in s.sites && s.sites[request.site]
               && ((m, request.site) in s.revoked ==> s.revoked[(m, request.site)])
    ensures Eligible(s, m, request) && SiteEnabled(s, SiteOf(request)) && AliasFree(s, m, request)
  {
    NobodyThere(s, m);
    hide Inv, Unused, ActiveOn, LiveOn;
  }

  /** An alias is refused while anybody has it, and at a site where it is registered; nothing changes. */
  lemma TakenAliasIsRefused(s: Store, m: string, client: string, ttl: nat, suffix: string, site: Option<string>)
    requires PlainInv(s) && SiteEnabled(s, site) && Readable(s, m) && GoodSuffix(suffix)
    requires var alias := PlusAlias(m, suffix);
             || (exists k :: k in s.leases && s.leases[k].address == Some(alias) && s.leases[k].releasedAt.None? && s.now < s.leases[k].expiresAt)
             || (site.Some? && (alias, site.value) in s.revoked && !s.revoked[(alias, site.value)])
    ensures Acquire(s, m, client, ttl, AliasMail(suffix, site)).0 == s && Acquire(s, m, client, ttl, AliasMail(suffix, site)).1.Err?
  {
    NotFree(s, m, suffix, site);
    hide *;
    AcquireSucceedsIff(s, m, client, ttl, AliasMail(suffix, site));
  }

  lemma NotFree(s: Store, m: string, suffix: string, site: Option<string>)
    requires GoodSuffix(suffix)
    requires var alias := PlusAlias(m, suffix);
             || (exists k :: k in s.leases && s.leases[k].address == Some(alias) && s.leases[k].releasedAt.None? && s.now < s.leases[k].expiresAt)
             || (site.Some? && (alias, site.value) in s.revoked && !s.revoked[(alias, site.value)])
    ensures !AliasFree(s, m, AliasMail(suffix, site))
  {
    hide Normalize, Normal, PlusAlias;
    SuffixIsNormal(suffix);
    NormalizeOfNormal(suffix);
    hide GoodSuffix;
  }

  // ------------------------------------------------------------------------------------- reacquiring

  /** The caller has had a mail-read lease with this address. */
  predicate HadBefore(s: Store, client: string, address: string) {
    exists k :: k in s.leases && s.leases[k].client == client && s.leases[k].mode == MailReadMode && s.leases[k].address == Some(address)
  }

  predicate Readable(s: Store, m: string) {
    m in s.mailboxes && s.mailboxes[m].status == TokenRepository.Active && s.mailboxes[m].credentials && s.mailboxes[m].channel
  }

  /** The lease is active, on this mailbox. */
  predicate Holding(s: Store, k: LeaseId, m: string) {
    k in s.leases && s.leases[k].mailbox == m && s.leases[k].releasedAt.None? && s.now < s.leases[k].expiresAt
  }

  predicate OnAddress(lease: Lease, address: string) {
    lease.address.Some? && Normalize(lease.address.value) == address
  }

  /** Mail reading on this address by this client. */
  predicate OwnReading(lease: Lease, client: string, address: string) {
    lease.client == client && lease.mode == MailReadMode && OnAddress(lease, address)
  }

  lemma ResolvedIsNotEmpty(address: string, primaries: set<string>)
    requires Resolve(address, primaries).Ok?
    ensures address != ""
  {
    hide Find;
  }

  lemma MatchMeansReading(lease: Lease, client: string, address: string)
    requires address != ""
    ensures OwnedMatch(lease, client, address) <==> OwnReading(lease, client, address)
    ensures SameAddress(lease, address) <==> OnAddress(lease, address)
  {
    NormalizeOfNormal("");
    assert Normalize("") == "";
    hide Normalize, Normal;
  }

  /** What a reacquire returns is the caller's own mail-read lease on that address, renewed or new; nobody else's lease changes. */
  lemma ReacquiredIsTheCallers(s: Store, client: string, email: string, ttl: nat)
    requires Inv(s) && Reacquire(s, client, email, ttl).1.Ok?
    ensures var (v, r) := Reacquire(s, client, email, ttl);
            var id := r.value;
            && id in v.leases && v.leases == s.leases[id := v.leases[id]]
            && OwnReading(v.leases[id], client, Normalize(email))
            && v.leases[id].expiresAt == s.now + ttl && v.leases[id].releasedAt.None?
            && Some(v.leases[id].mailbox) == ResolvedMailbox(Normalize(email), s.mailboxes.Keys)
            && (id in s.leases ==> OwnReading(s.leases[id], client, Normalize(email)) && Holding(s, id, v.leases[id].mailbox))
            && HadBefore(s, client, Normalize(email)) && Readable(s, v.leases[id].mailbox)
  {
    var address := Normalize(email);
    var (v, r) := Reacquire(s, client, email, ttl);
    ReacquireKeepsInv(s, client, email, ttl);
    ReachesOwn(s, client, email);
    ReacquireWrites(s, client, email, ttl);
    ResolvedIsNotEmpty(address, s.mailboxes.Keys);
    NextIsUnused(s);
    var (m, own) := Reaches(s, client, email).value;
    MatchMeansReading(v.leases[r.value], client, address);
    if own.Some? {
      MatchMeansReading(s.leases[own.value], client, address);
    }
    ActiveIffLive(v, r.value);
    hide Normalize, Inv, Resolve, OwnedMatch, Scan, Grants, OnAddress, UpsertClaim;
  }

  /** Another active lease in the way: on the address, or any if the primary address is wanted. */
  lemma OtherLeaseIsBusy(s: Store, client: string, email: string, ttl: nat, m: string, k: LeaseId)
    requires Inv(s) && ResolvedMailbox(Normalize(email), s.mailboxes.Keys) == Some(m)
    requires HadBefore(s, client, Normalize(email)) && Readable(s, m) && Holding(s, k, m)
    requires !OwnReading(s.leases[k], client, Normalize(email))
    requires OnAddress(s.leases[k], Normalize(email)) || Normalize(email) in s.mailboxes
    ensures Reacquire(s, client, email, ttl) == (s, Err(Busy))
  {
    var address := Normalize(email);
    var kind := Resolve(address, s.mailboxes.Keys);
    hide Normalize, Inv, Scan, OwnReading, OnAddress, Resolve, HasHistory, MailReady;
    ReachesLeases(s, client, email, m);
    ScanIsBlocked(s, client, address, m, kind.value.AliasOf?, k);
    hide Readable, HadBefore, Holding;
  }

  lemma ReachesLeases(s: Store, client: string, email: string, m: string)
    requires ResolvedMailbox(Normalize(email), s.mailboxes.Keys) == Some(m)
    requires HadBefore(s, client, Normalize(email)) && Readable(s, m)
    ensures HasHistory(s, client, Normalize(email)) && MailReady(s, m) && Normalize(email) != ""
    ensures var kind := Resolve(Normalize(email), s.mailboxes.Keys);
            kind.Ok? && m == (if kind.value.AliasOf? then kind.value.base else Normalize(email))
            && (kind.value.AliasOf? <==> Normalize(email) !in s.mailboxes)
  {
    var address := Normalize(email);
    hide Normalize, Find;
    ResolvedIsNotEmpty(address, s.mailboxes.Keys);
  }

  lemma ScanIsBlocked(s: Store, client: string, address: string, m: string, alias: bool, k: LeaseId)
    requires Inv(s) && Holding(s, k, m) && address != "" && !OwnReading(s.leases[k], client, address)
    requires OnAddress(s.leases[k], address) || !alias
    ensures Scan(s, m, client, address, alias, s.nextLease).Err?
  {
    MatchMeansReading(s.leases[k], client, address);
    LeaseIsNumbered(s, k);
    ScanFinds(s, m, client, address, alias, s.nextLease);
    hide Normalize, Inv, Scan, OwnedMatch, SameAddress, OwnReading, OnAddress;
    assert InTheWay(s, k, m, client, address, alias);
  }

  /** While another client has the address, a returning client is told that it is busy, and nothing changes. */
  lemma AddressOfAnotherIsBusy(s: Store, client: string, email: string, ttl: nat, m: string, k: LeaseId)
    requires Inv(s) && ResolvedMailbox(Normalize(email), s.mailboxes.Keys) == Some(m)
    requires HadBefore(s, client, Normalize(email)) && Readable(s, m)
    requires Holding(s, k, m) && s.leases[k].client != client && OnAddress(s.leases[k], Normalize(email))
    ensures Reacquire(s, client, email, ttl) == (s, Err(Busy))
  {
    OtherLeaseIsBusy(s, client, email, ttl, m, k);
  }

  /** A primary address is busy while anything else is going on in the mailbox, even by the caller itself. */
  lemma PrimaryInUseIsBusy(s: Store, client: string, email: string, ttl: nat, k: LeaseId)
    requires Inv(s) && Normalize(email) in s.mailboxes && ResolvedMailbox(Normalize(email), s.mailboxes.Keys).Some?
    requires HadBefore(s, client, Normalize(email)) && Readable(s, Normalize(email))
    requires Holding(s, k, Normalize(email)) && !OwnReading(s.leases[k], client, Normalize(email))
    ensures Reacquire(s, client, email, ttl) == (s, Err(Busy))
  {
    ResolvedMailboxIs(Normalize(email), s.mailboxes.Keys);
    OtherLeaseIsBusy(s, client, email, ttl, Normalize(email), k);
  }

  /** Among plain primaries an alias is given back beside any lease that is not on it. */
  lemma AliasIsGivenBack(s: Store, client: string, email: string, ttl: nat, m: string)
    requires PlainInv(s) && ResolvedMailbox(Normalize(email), s.mailboxes.Keys) == Some(m) && Normalize(email) != m
    requires HadBefore(s, client, Normalize(email)) && Readable(s, m)
    requires forall k :: Holding(s, k, m) && OnAddress(s.leases[k], Normalize(email)) ==> OwnReading(s.leases[k], client, Normalize(email))
    ensures Reacquire(s, client, email, ttl).1.Ok?
  {
    var address := Normalize(email);
    ReacquireSucceedsIff(s, client, email, ttl);
    PlainInventory(s);
    ResolvedBase(address, s.mailboxes.Keys);
    ResolvedMailboxIs(address, s.mailboxes.Keys);
    forall k | 0 <= k < s.nextLease ensures !InTheWay(s, k, m, client, address, true) {
      if k in s.leases {
        MatchMeansReading(s.leases[k], client, address);
        assert ActiveOn(s, k, m) ==> Holding(s, k, m);
      }
    }
    hide Normalize, PlainInv, Reacquire, Resolve, OwnedMatch, SameAddress, OnAddress, BaseOf, PlainPrimary;
  }

  /** Without a lease in its past a client learns nothing: a known and an unknown address are answered alike. */
  lemma StrangersLearnNothing(s: Store, client: string, email: string, ttl: nat)
    requires !HadBefore(s, client, Normalize(email)) && Resolve(Normalize(email), s.mailboxes.Keys) != Err(Malformed)
    ensures Reacquire(s, client, email, ttl) == (s, Err(NotFound))
  {
    hide Normalize, Resolve;
  }

  // ------------------------------------------------------------------------------------------ ending

  /** Only the holder can release a lease; for everybody else it does not exist. */
  lemma OnlyTheHolderReleases(s: Store, client: string, id: LeaseId)
    ensures if id in s.leases && s.leases[id].client == client then
              var (v, t) := Release(s, client, id);
              && t.Some? && id in v.leases && v.leases[id].releasedAt == t
              && t == (if s.leases[id].releasedAt.Some? then s.leases[id].releasedAt else Some(s.now))
            else Release(s, client, id) == (s, None)
  {
  }

  /** The step may end the lease: time passes, its holder gives it up (or renews it for no time at all), or an administrator uses force. */
  predicate MayEnd(s: Store, e: Event, id: LeaseId)
    requires id in s.leases
  {
    match e
    case Tick(_) => true
    case ReleaseLease(client, k) => k == id && client == s.leases[id].client
    case ReacquireLease(client, _, ttl) => client == s.leases[id].client && ttl == 0
    case ForceReleaseMailbox(m) => m == s.leases[id].mailbox
    case DeleteMailboxes(wanted, force) => force && s.leases[id].mailbox in wanted
    case _ => false
  }

  lemma UnforcedDeleteEndsNothing(s: Store, wanted: set<string>, id: LeaseId)
    requires Inv(s) && Active(s, id)
    ensures Active(Step(s, DeleteMailboxes(wanted, false)), id)
  {
    UnforcedDeleteSparesActiveLeases(s, wanted);
    hide Inv, AdminDelete;
  }

  lemma ReacquireEndsOnlyOwn(s: Store, client: string, email: string, ttl: nat, id: LeaseId)
    requires Inv(s) && Active(s, id) && (client != s.leases[id].client || ttl > 0)
    ensures Active(Reacquire(s, client, email, ttl).0, id)
  {
    ReacquireKeepsInv(s, client, email, ttl);
    if Reacquire(s, client, email, ttl).1.Ok? {
      ReacquiredIsTheCallers(s, client, email, ttl);
    }
    hide Inv, Reacquire, Reaches, Grants, OnAddress, Resolve, Normalize, HadBefore, Readable;
  }

  lemma AcquireEndsNothing(s: Store, p: string, client: string, ttl: nat, request: Request, id: LeaseId)
    requires Inv(s) && Active(s, id)
    ensures Active(Acquire(s, p, client, ttl, request).0, id)
  {
    AcquireKeepsInv(s, p, client, ttl, request);
    NextIsUnused(s);
    hide Inv, Acquire, AloneOnMailbox, AddressFor, OnAlias;
  }

  /** Nothing else ends an active lease: no other client, no acquire, no site, no unforced deletion. */
  lemma StepEndsOnlyWhatItMay(s: Store, e: Event, id: LeaseId)
    requires Inv(s) && Active(s, id) && !Active(Step(s, e), id)
    ensures MayEnd(s, e, id)
  {
    match e
    case AcquireLease(p, client, ttl, request) =>
      AcquireEndsNothing(s, p, client, ttl, request, id);
    case ReacquireLease(client, email, ttl) =>
      hide Inv, Reacquire;
      if client != s.leases[id].client || ttl > 0 {
        ReacquireEndsOnlyOwn(s, client, email, ttl, id);
      }
    case DeleteMailboxes(wanted, force) =>
      hide Inv, Blocked;
      if !force {
        UnforcedDeleteEndsNothing(s, wanted, id);
      }
    case _ => OtherStepEndsOnlyWhatItMay(s, e, id);
  }

  lemma OtherStepEndsOnlyWhatItMay(s: Store, e: Event, id: LeaseId)
    requires Active(s, id) && !Active(Step(s, e), id) && !e.AcquireLease? && !e.ReacquireLease? && !e.DeleteMailboxes?
    ensures MayEnd(s, e, id)
  {
    hide Acquire, Reacquire, Blocked;
  }

  /** Over any run: a lease that was active and is not any more met an event that may end it, while it still was. */
  lemma {:induction false} LeaseEndsOnlyByItsOwn(s: Store, es: seq<Event>, id: LeaseId) returns (i: nat)
    requires Inv(s) && Active(s, id) && !Active(Run(s, es), id)
    ensures i < |es| && Active(Run(s, es[..i]), id) && MayEnd(Run(s, es[..i]), es[i], id)
    decreases |es|
  {
    hide Inv, Step, Active, MayEnd;
    var v := Step(s, es[0]);
    StepKeepsInv(s, es[0]);
    ActiveIsThere(s, id);
    if Active(v, id) {
      var k := LeaseEndsOnlyByItsOwn(v, es[1..], id);
      i := k + 1;
      assert es[..i] == [es[0]] + es[1..][..k];
      assert ([es[0]] + es[1..][..k])[1..] == es[1..][..k];
    } else {
      StepEndsOnlyWhatItMay(s, es[0], id);
      i := 0;
      assert es[..0] == [];
    }
    ActiveIsThere(Run(s, es[..i]), id);
  }

  lemma ActiveIsThere(s: Store, id: LeaseId)
    ensures Active(s, id) ==> id in s.leases
  {
  }

  // -------------------------------------------------------------------------------- administration

  /** A new primary address makes a new mailbox; a known one keeps what it has. */
  lemma AddingKeepsKnown(s: Store, p: string, mailbox: Mailbox)
    ensures Step(s, AddMailbox(p, mailbox)) == if p in s.mailboxes then s else s.(mailboxes := s.mailboxes[p := mailbox])
  {
  }

  /** A forced release ends every lease on the mailbox and leaves all others alone; the mailbox is nobody's then. */
  lemma ForcedReleaseFreesMailbox(s: Store, m: string)
    requires Inv(s)
    ensures var v := Step(s, ForceReleaseMailbox(m));
            && Unused(v, m) && v.mailboxes == s.mailboxes && v.revoked == s.revoked && v.leases.Keys == s.leases.Keys
            && (forall k :: k in v.claims ==> v.claims[k].mailbox != m)
            && (forall k :: Active(s, k) && s.leases[k].mailbox != m ==>
                  Active(v, k) && v.leases[k] == s.leases[k] && k in v.claims && v.claims[k] == s.claims[k])
            && (forall k :: Active(s, k) && s.leases[k].mailbox == m ==> v.leases[k] == s.leases[k].(releasedAt := Some(s.now)))
  {
    forall k | Active(s, k) ensures k in s.claims && s.claims[k].mailbox == s.leases[k].mailbox {
      assert ClaimOk(s, k);
    }
    hide Inv, ClaimOk, LeaseOk;
  }

  /** A forced deletion takes the mailboxes away with all that hangs on them, and nothing else. */
  lemma ForcedDeletionIsExact(s: Store, wanted: set<string>)
    requires Inv(s)
    ensures var v := Step(s, DeleteMailboxes(wanted, true));
            && v.mailboxes == (map m | m in s.mailboxes && m !in wanted :: s.mailboxes[m])
            && v.leases == (map k | k in s.leases && s.leases[k].mailbox !in wanted :: s.leases[k])
            && v.claims == (map k | k in s.claims && s.claims[k].mailbox !in wanted :: s.claims[k])
            && v == s.(mailboxes := v.mailboxes, leases := v.leases, claims := v.claims)
  {
    forall k | k in s.leases ensures s.leases[k].mailbox in s.mailboxes {
      assert LeaseOk(s, k);
    }
    forall k | k in s.claims ensures s.claims[k].mailbox in s.mailboxes {
      assert ClaimOk(s, k);
    }
    hide Inv, ClaimOk, LeaseOk, Blocked;
    var v := Step(s, DeleteMailboxes(wanted, true));
    assert v.mailboxes == map m | m in s.mailboxes && m !in wanted :: s.mailboxes[m];
    assert v.leases == map k | k in s.leases && s.leases[k].mailbox !in wanted :: s.leases[k];
    assert v.claims == map k | k in s.claims && s.claims[k].mailbox !in wanted :: s.claims[k];
  }

  // ----------------------------------------------------------------------------------------- sites

  /** The address is in use at the site. */
  predicate Registered(s: Store, address: string, site: string) {
    (address, site) in s.revoked && !s.revoked[(address, site)]
  }

  /** A lease for a site registers its address there, which must be known, enabled and new to the address; nothing else is registered. */
  lemma SiteLeaseRegisters(s: Store, m: string, client: string, ttl: nat, request: Request)
    requires Acquire(s, m, client, ttl, request).1.Ok?
    ensures var (v, r) := Acquire(s, m, client, ttl, request);
            match SiteOf(request)
            case None => v.revoked == s.revoked
            case Some(site) =>
              && site in s.sites && s.sites[site]
              && r.value in v.leases && v.leases[r.value].address.Some?
              && var address := Normalize(v.leases[r.value].address.value);
                 && !Registered(s, address, site) && Registered(v, address, site)
                 && v.revoked == s.revoked[(address, site) := false]
  {
    hide Normalize, UpsertClaim, Eligible, PlusAlias, GoodSuffix, AddressInUse;
  }

  /** An unknown or disabled site is refused before anything else. */
  lemma UnknownSiteIsRefused(s: Store, m: string, client: string, ttl: nat, request: Request, site: string)
    requires SiteOf(request) == Some(site) && (site !in s.sites || !s.sites[site])
    ensures Acquire(s, m, client, ttl, request) == (s, Err(UnknownSite))
  {
  }

  /** Revoking frees exactly the one address at the one site. */
  lemma RevocationFreesOnePair(s: Store, address: string, site: string, other: string, elsewhere: string)
    ensures var v := Step(s, RevokeUsage(address, site));
            && !Registered(v, address, site)
            && ((other, elsewhere) != (address, site) ==> (Registered(v, other, elsewhere) <==> Registered(s, other, elsewhere)))
            && v == s.(revoked := v.revoked)
  {
  }

  /** A known site can be deleted exactly when no address is registered at it, and takes no registration elsewhere along. */
  lemma SiteIsDeletedIff(s: Store, site: string, other: string, elsewhere: string)
    ensures var r := DeleteSite(s, site);
            && (r.Ok? <==> site in s.sites && forall k :: k in s.revoked && k.1 == site ==> !Registered(s, k.0, k.1))
            && (r.Ok? ==>
                  && r.value == s.(sites := r.value.sites, revoked := r.value.revoked)
                  && site !in r.value.sites && (forall k :: k in r.value.revoked <==> k in s.revoked && k.1 != site) && (elsewhere != site ==> (elsewhere in r.value.sites <==> elsewhere in s.sites))
                  && (Registered(r.value, other, elsewhere) <==> Registered(s, other, elsewhere)))
  {
  }
}

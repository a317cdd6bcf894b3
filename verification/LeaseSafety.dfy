/** The steps of leasing, administration and sites, their invariant, and when acquiring and reacquiring succeed. */
module LeaseSafety {
  import opened Wrappers
  import opened Text
  import opened AliasAddress
  import opened LeaseOccupancy

  datatype Event =
    | Tick(seconds: nat)
    | AddMailbox(primary: string, mailbox: Mailbox)
    | SetMailbox(primary: string, mailbox: Mailbox)
    | AcquireLease(primary: string, client: string, ttl: nat, request: Request)
    | ReacquireLease(client: string, email: string, ttl: nat)
    | ReleaseLease(client: string, id: LeaseId)
    | ForceReleaseMailbox(primary: string)
    | DeleteMailboxes(wanted: set<string>, force: bool)
    | SetSite(site: string, enabled: bool)
    | RemoveSite(site: string)
    | RevokeUsage(address: string, site: string)

  function Step(s: Store, e: Event): Store {
    match e
    case Tick(seconds) => s.(now := s.now + seconds)
    case AddMailbox(p, m) => if p !in s.mailboxes then s.(mailboxes := s.mailboxes[p := m]) else s
    case SetMailbox(p, m) => if p in s.mailboxes then s.(mailboxes := s.mailboxes[p := m]) else s
    case AcquireLease(p, client, ttl, request) => Acquire(s, p, client, ttl, request).0
    case ReacquireLease(client, email, ttl) => Reacquire(s, client, email, ttl).0
    case ReleaseLease(client, id) => Release(s, client, id).0
    case ForceReleaseMailbox(p) => ForceRelease(s, p)
    case DeleteMailboxes(wanted, force) => (match AdminDelete(s, wanted, force) case Ok(t) => t case Err(_) => s)
    case SetSite(site, enabled) => s.(sites := s.sites[site := enabled])
    case RemoveSite(site) => (match DeleteSite(s, site) case Ok(t) => t case Err(_) => s)
    case RevokeUsage(address, site) => Revoke(s, address, site)
  }

  function Run(s: Store, es: seq<Event>): Store
    decreases |es|
  {
    if es == [] then s else Run(Step(s, es[0]), es[1..])
  }

  lemma {:induction false} RunSplits(s: Store, es: seq<Event>, fs: seq<Event>)
    ensures Run(s, es + fs) == Run(Run(s, es), fs)
    decreases |es|
  {
    if es == [] {
      assert es + fs == fs;
    } else {
      assert (es + fs)[1..] == es[1..] + fs;
      RunSplits(Step(s, es[0]), es[1..], fs);
    }
  }

  predicate LeaseOk(s: Store, id: LeaseId)
    requires id in s.leases
  {
    id < s.nextLease && s.leases[id].mailbox in s.mailboxes
  }

  predicate ClaimOk(s: Store, id: LeaseId)
    requires id in s.claims
  {
    id in s.leases && s.leases[id].releasedAt.None? && s.claims[id] == ClaimOf(s.leases[id])
  }

  /** Two active leases on one mailbox: at most one of them is not on an alias, and their addresses differ. */
  predicate Compatible(x: Lease, y: Lease) {
    && (x.mailbox == y.mailbox ==> OnAlias(x) || OnAlias(y))
    && (x.address.Some? ==> x.address != y.address)
  }

  /** Holds in every inventory, whatever its primary addresses look like. */
  ghost predicate Inv(s: Store) {
    && (forall id :: id in s.leases ==> LeaseOk(s, id))
    && (forall id :: id in s.claims ==> ClaimOk(s, id))
    && (forall id :: Active(s, id) ==> id in s.claims)
    && (forall i, j :: Active(s, i) && Active(s, j) && i != j ==> Compatible(s.leases[i], s.leases[j]))
  }

  /** A mail-read lease has an address of the mailbox it is on; the other leases have none. */
  predicate AddressOk(lease: Lease) {
    && (lease.mode == MailReadMode <==> lease.address.Some?)
    && (lease.address.Some? ==> Normal(lease.address.value) && BaseOf(lease.address.value) == lease.mailbox)
  }

  /** Holds besides while all primary addresses are plain: then an address tells its mailbox. */
  ghost predicate Plain(s: Store) {
    && (forall p :: p in s.mailboxes ==> PlainPrimary(p))
    && (forall id :: id in s.leases ==> AddressOk(s.leases[id]))
  }

  ghost predicate PlainInv(s: Store) {
    Inv(s) && Plain(s)
  }

  predicate Empty(s: Store) {
    s.mailboxes == map[] && s.leases == map[] && s.claims == map[] && s.revoked == map[]
  }

  /** The lease `id` may be written as `lease`: it has an address of its mailbox, and is compatible with every other active one. */
  ghost predicate Fits(s: Store, id: LeaseId, lease: Lease) {
    && lease.mailbox in s.mailboxes && lease.releasedAt.None? && AddressOk(lease)
    && (forall k :: Active(s, k) && k != id ==> Compatible(lease, s.leases[k]))
    && (!OnAlias(lease) ==> forall k :: Active(s, k) && k != id ==> s.leases[k].mailbox != lease.mailbox)
  }

  function Put(s: Store, id: LeaseId, lease: Lease): Store {
    s.(leases := s.leases[id := lease], nextLease := if id < s.nextLease then s.nextLease else id + 1)
  }

  /** A lease is active exactly if it has a live claim, and the claim says what the lease says. */
  lemma ActiveIffLive(s: Store, id: LeaseId)
    requires Inv(s)
    ensures Active(s, id) <==> Live(s, id)
    ensures Live(s, id) ==> s.claims[id] == ClaimOf(s.leases[id])
  {
    hide PlainPrimary, LeaseOk, Compatible;
    if id in s.claims {
      assert ClaimOk(s, id);
    }
  }

  // ------------------------------------------------------------------------- writing one lease

  /** The new table after an upsert: the other claims that are not stale, and the lease's own. */
  ghost predicate Reindexed(s: Store, v: Store, id: LeaseId, lease: Lease) {
    && v == Put(s, id, lease).(claims := v.claims)
    && id in v.claims && v.claims[id] == ClaimOf(lease)
    && (forall k :: k in v.claims && k != id ==> k in s.claims && v.claims[k] == s.claims[k])
    && (forall k :: Live(s, k) && k != id ==> k in v.claims)
  }

  ghost predicate AloneOnMailbox(s: Store, id: LeaseId) {
    id in s.leases && forall k :: Active(s, k) && k != id ==> s.leases[k].mailbox != s.leases[id].mailbox
  }

  /** What a transaction that grants or renews a lease does to the tables. */
  ghost predicate Grants(s: Store, v: Store, id: LeaseId) {
    && v.now == s.now && v.mailboxes == s.mailboxes
    && id in v.leases && id in v.claims && v.leases == s.leases[id := v.leases[id]]
    && (id in s.leases || id == s.nextLease)
    && (!OnAlias(v.leases[id]) ==> AloneOnMailbox(v, id))
  }

  /** What the upsert lets through is compatible with every other active lease, since these have live claims. */
  lemma UpsertChecks(s: Store, id: LeaseId, lease: Lease)
    requires Inv(s) && UpsertClaim(Put(s, id, lease), id).Ok?
    ensures forall k :: Active(s, k) && k != id ==> Compatible(lease, s.leases[k]) && Compatible(s.leases[k], lease)
    ensures !OnAlias(lease) ==> forall k :: Active(s, k) && k != id ==> s.leases[k].mailbox != lease.mailbox
    ensures Reindexed(s, Put(s, id, lease).(claims := UpsertClaim(Put(s, id, lease), id).value), id, lease)
  {
    hide LeaseOk, OnAlias;
    var t := Put(s, id, lease);
    var kept := map k | k in t.claims && k != id
                        && !(t.claims[k].mailbox == lease.mailbox && t.claims[k].expiresAt <= t.now) :: t.claims[k];
    forall k | Active(s, k) && k != id
      ensures k in kept && kept[k] == ClaimOf(s.leases[k]) && s.now < kept[k].expiresAt
    {
      assert ClaimOk(s, k);
    }
  }

  /** Any lease whose claim can be written keeps the invariant, and if it is exclusive it has the mailbox to itself. */
  lemma UpsertKeepsInv(s: Store, id: LeaseId, lease: Lease)
    requires Inv(s) && UpsertClaim(Put(s, id, lease), id).Ok?
    requires lease.mailbox in s.mailboxes && lease.releasedAt.None?
    ensures var v := Put(s, id, lease).(claims := UpsertClaim(Put(s, id, lease), id).value);
            && Inv(v) && id in v.claims && v.leases[id] == lease
            && (id in s.leases || id == s.nextLease ==> Grants(s, v, id))
  {
    UpsertChecks(s, id, lease);
    hide OnAlias, UpsertClaim, Compatible;
    var v := Put(s, id, lease).(claims := UpsertClaim(Put(s, id, lease), id).value);
    ReindexedIsIndex(s, v, id, lease);
    forall i, j | Active(v, i) && Active(v, j) && i != j ensures Compatible(v.leases[i], v.leases[j]) {
      assert i != id ==> Active(s, i);
      assert j != id ==> Active(s, j);
    }
    if !OnAlias(lease) {
      forall k | Active(v, k) && k != id ensures v.leases[k].mailbox != lease.mailbox {
        assert Active(s, k);
      }
    }
  }

  lemma ReindexedIsIndex(s: Store, v: Store, id: LeaseId, lease: Lease)
    requires Inv(s) && Reindexed(s, v, id, lease) && lease.mailbox in s.mailboxes && lease.releasedAt.None?
    ensures forall k :: k in v.leases ==> LeaseOk(v, k)
    ensures forall k :: k in v.claims ==> ClaimOk(v, k)
    ensures forall k :: Active(v, k) ==> k in v.claims
  {
    hide Compatible;
    forall k | k in v.leases ensures LeaseOk(v, k) {
      assert k != id ==> LeaseOk(s, k);
    }
    forall k | k in v.claims ensures ClaimOk(v, k) {
      assert k != id ==> ClaimOk(s, k);
    }
    forall k | Active(v, k) ensures k in v.claims {
      if k != id {
        assert Active(s, k) && ClaimOk(s, k);
        assert Live(s, k);
      }
    }
  }

  // ------------------------------------------------------------------------- any inventory: acquiring

  lemma InvIgnoresSites(s: Store, v: Store)
    requires v == s.(revoked := v.revoked, sites := v.sites)
    ensures Inv(s) ==> Inv(v)
    ensures Plain(s) ==> Plain(v)
  {
    hide OnAlias, PlainPrimary, AddressOk;
    if Inv(s) {
      forall id | id in v.leases ensures LeaseOk(v, id) {
        assert LeaseOk(s, id);
      }
      forall id | id in v.claims ensures ClaimOk(v, id) {
        assert ClaimOk(s, id);
      }
      forall id | Active(v, id) ensures id in v.claims {
        assert Active(s, id);
      }
      forall i, j | Active(v, i) && Active(v, j) && i != j ensures Compatible(v.leases[i], v.leases[j]) {
        assert Active(s, i) && Active(s, j);
      }
    }
  }

  lemma WriteAcquiredKeepsInv(s: Store, lease: Lease, site: Option<string>)
    requires Inv(s) && lease.mailbox in s.mailboxes && lease.releasedAt.None?
    ensures var (v, r) := WriteAcquired(s, lease, site);
            && Inv(v) && (r.Err? ==> v == s)
            && (r.Ok? ==> r.value == s.nextLease && Grants(s, v, r.value) && v.leases[r.value] == lease)
  {
    hide OnAlias, Normalize, UpsertClaim, Inv, Occupied;
    var id := s.nextLease;
    var t := Put(s, id, lease);
    assert t == s.(leases := s.leases[id := lease], nextLease := id + 1);
    if WriteAcquired(s, lease, site).1.Ok? {
      UpsertKeepsInv(s, id, lease);
      var u := t.(claims := UpsertClaim(t, id).value);
      InvIgnoresSites(u, WriteAcquired(s, lease, site).0);
      assert forall k :: Active(WriteAcquired(s, lease, site).0, k) <==> Active(u, k);
    }
  }

  /** Whatever the primaries look like, an acquire keeps the invariant, and an exclusive lease has its mailbox alone. */
  lemma AcquireKeepsInv(s: Store, mailbox: string, client: string, ttl: nat, request: Request)
    requires Inv(s)
    ensures var (v, r) := Acquire(s, mailbox, client, ttl, request);
            && Inv(v) && (r.Err? ==> v == s)
            && (r.Ok? ==>
                  && r.value == s.nextLease && Grants(s, v, r.value) && AddressFor(s, mailbox, request).Ok?
                  && v.leases[r.value] == Lease(mailbox, client, ModeOf(request), AddressFor(s, mailbox, request).value, s.now + ttl, None))
  {
    hide Inv, WriteAcquired, AddressFor, Grants;
    if AddressFor(s, mailbox, request).Ok? && Eligible(s, mailbox, request) {
      var lease := Lease(mailbox, client, ModeOf(request), AddressFor(s, mailbox, request).value, s.now + ttl, None);
      WriteAcquiredKeepsInv(s, lease, SiteOf(request));
    }
  }

  // ---------------------------------------------------------------------- any inventory: reacquiring

  predicate InTheWay(s: Store, id: LeaseId, mailbox: string, client: string, address: string, alias: bool) {
    ActiveOn(s, id, mailbox) && !OwnedMatch(s.leases[id], client, address) && (SameAddress(s.leases[id], address) || !alias)
  }

  predicate Clear(s: Store, mailbox: string, client: string, address: string, alias: bool, upTo: LeaseId) {
    forall id :: 0 <= id < upTo ==> !InTheWay(s, id, mailbox, client, address, alias)
  }

  /** What the walk over the active leases finds. */
  lemma {:induction false} ScanFinds(s: Store, mailbox: string, client: string, address: string, alias: bool, upTo: LeaseId)
    ensures var r := Scan(s, mailbox, client, address, alias, upTo);
            && (r.Ok? <==> Clear(s, mailbox, client, address, alias, upTo))
            && (r.Ok? && r.value.Some? ==>
                  r.value.value < upTo && ActiveOn(s, r.value.value, mailbox) && OwnedMatch(s.leases[r.value.value], client, address))
            && (r.Ok? && r.value.None? ==>
                  forall id :: 0 <= id < upTo && ActiveOn(s, id, mailbox) ==> !OwnedMatch(s.leases[id], client, address))
  {
    hide Normalize, Normal, BaseOf, PlusAlias, GoodSuffix, Resolve, PlainPrimary;
    if upTo > 0 {
      ScanFinds(s, mailbox, client, address, alias, upTo - 1);
      var r := Scan(s, mailbox, client, address, alias, upTo - 1);
      if r.Ok? && Scan(s, mailbox, client, address, alias, upTo).Err? {
        assert InTheWay(s, upTo - 1, mailbox, client, address, alias);
      }
    }
  }

  /** What the transaction finds before it writes: the mailbox and the caller's own active lease, if there is one. */
  function Reaches(s: Store, client: string, email: string): Option<(string, Option<LeaseId>)> {
    var address := Normalize(email);
    match Resolve(address, s.mailboxes.Keys)
    case Err(_) => None
    case Ok(kind) =>
      var mailbox := if kind.AliasOf? then kind.base else address;
      if !HasHistory(s, client, address) || !MailReady(s, mailbox) then None
      else
        match Scan(s, mailbox, client, address, kind.AliasOf?, s.nextLease)
        case Err(_) => None
        case Ok(own) => Some((mailbox, own))
  }

  lemma ReachesOwn(s: Store, client: string, email: string)
    requires Reaches(s, client, email).Some?
    ensures var (mailbox, own) := Reaches(s, client, email).value;
            && mailbox in s.mailboxes
            && (own.Some? ==> ActiveOn(s, own.value, mailbox) && OwnedMatch(s.leases[own.value], client, Normalize(email)))
  {
    hide Normalize, Resolve, HasHistory, Scan, OwnedMatch, ActiveOn;
    var address := Normalize(email);
    var kind := Resolve(address, s.mailboxes.Keys).value;
    ScanFinds(s, Reaches(s, client, email).value.0, client, address, kind.AliasOf?, s.nextLease);
  }

  lemma ReacquireWrites(s: Store, client: string, email: string, ttl: nat)
    ensures Reaches(s, client, email).None? ==> Reacquire(s, client, email, ttl).0 == s && Reacquire(s, client, email, ttl).1.Err?
    ensures Reaches(s, client, email).Some? ==>
              var (mailbox, own) := Reaches(s, client, email).value;
              Reacquire(s, client, email, ttl) == WriteReacquired(s, client, Normalize(email), mailbox, ttl, own)
  {
    hide Normalize, Resolve, HasHistory, MailReady, Scan, WriteReacquired;
  }

  lemma ReacquiredIsOwn(s: Store, client: string, address: string, mailbox: string, ttl: nat, own: Option<LeaseId>)
    requires own.Some? ==> ActiveOn(s, own.value, mailbox) && OwnedMatch(s.leases[own.value], client, address)
    requires Normalize(address) == address
    ensures var lease := ReacquiredLease(s, client, address, mailbox, ttl, own);
            && lease.mailbox == mailbox && lease.releasedAt.None? && lease.expiresAt == s.now + ttl
            && OwnedMatch(lease, client, address)
    ensures own.Some? ==> own.value in s.leases
  {
    hide Normalize;
  }

  lemma WriteReacquiredKeepsInv(s: Store, client: string, address: string, mailbox: string, ttl: nat, own: Option<LeaseId>)
    requires Inv(s) && mailbox in s.mailboxes
    requires own.Some? ==> ActiveOn(s, own.value, mailbox) && OwnedMatch(s.leases[own.value], client, address)
    requires Normalize(address) == address
    ensures var (v, r) := WriteReacquired(s, client, address, mailbox, ttl, own);
            && Inv(v) && (r.Err? ==> v == s)
            && (r.Ok? ==>
                  && r.value == (if own.Some? then own.value else s.nextLease) && Grants(s, v, r.value)
                  && v.leases[r.value] == ReacquiredLease(s, client, address, mailbox, ttl, own))
  {
    hide *;
    ReacquiredIsOwn(s, client, address, mailbox, ttl, own);
    if own.Some? {
      LeaseIsNumbered(s, own.value);
    }
    var id := if own.Some? then own.value else s.nextLease;
    var lease := ReacquiredLease(s, client, address, mailbox, ttl, own);
    WriteReacquiredIs(s, client, address, mailbox, ttl, own);
    if UpsertClaim(Put(s, id, lease), id).Ok? {
      UpsertKeepsInv(s, id, lease);
    }
  }

  lemma LeaseIsNumbered(s: Store, id: LeaseId)
    requires Inv(s) && id in s.leases
    ensures id < s.nextLease
  {
    assert LeaseOk(s, id);
  }

  lemma WriteReacquiredIs(s: Store, client: string, address: string, mailbox: string, ttl: nat, own: Option<LeaseId>)
    requires own.Some? ==> own.value < s.nextLease
    ensures var id := if own.Some? then own.value else s.nextLease;
            var t := Put(s, id, ReacquiredLease(s, client, address, mailbox, ttl, own));
            id in t.leases
            && WriteReacquired(s, client, address, mailbox, ttl, own)
               == match UpsertClaim(t, id)
                  case Err(error) => (s, Err(Integrity(error)))
                  case Ok(claims) => (t.(claims := claims), Ok(id))
  {
    hide UpsertClaim, ReacquiredLease;
  }

  /** Whatever the primaries look like, a reacquire keeps the invariant, and an exclusive lease has its mailbox alone. */
  lemma ReacquireKeepsInv(s: Store, client: string, email: string, ttl: nat)
    requires Inv(s)
    ensures var (v, r) := Reacquire(s, client, email, ttl);
            && Inv(v) && (r.Err? ==> v == s)
            && (r.Ok? ==>
                  && Reaches(s, client, email).Some? && Grants(s, v, r.value)
                  && v.leases[r.value].mailbox == Reaches(s, client, email).value.0 && v.leases[r.value].expiresAt == s.now + ttl
                  && OwnedMatch(v.leases[r.value], client, Normalize(email)))
  {
    NormalizeOfNormal(email);
    NormalizeOfNormal(Normalize(email));
    hide Inv, Grants, Reaches, Reacquire, WriteReacquired, Normalize, Normal, OwnedMatch, ActiveOn;
    ReacquireWrites(s, client, email, ttl);
    if Reaches(s, client, email).Some? {
      var (mailbox, own) := Reaches(s, client, email).value;
      ReachesOwn(s, client, email);
      ReacquiredIsOwn(s, client, Normalize(email), mailbox, ttl, own);
      WriteReacquiredKeepsInv(s, client, Normalize(email), mailbox, ttl, own);
    }
  }

  // -------------------------------------------------------------------- plain primaries: acquiring

  /** No integrity error can arise for a lease that fits, not even from the unique index with expired claims of others. */
  lemma UpsertSucceeds(s: Store, id: LeaseId, lease: Lease)
    requires PlainInv(s) && Fits(s, id, lease)
    ensures UpsertClaim(Put(s, id, lease), id).Ok?
  {
    hide Normalize, Normal, BaseOf, PlusAlias, GoodSuffix, Resolve, PlainPrimary;
    forall k | k in s.claims && k != id && !(s.claims[k].mailbox == lease.mailbox && s.claims[k].expiresAt <= s.now)
      ensures !OnAlias(lease) && s.claims[k].mailbox == lease.mailbox ==> s.claims[k].expiresAt <= s.now
      ensures lease.address.Some? ==> s.claims[k].address != lease.address
    {
      assert ClaimOk(s, k) && AddressOk(s.leases[k]);
      if s.now < s.claims[k].expiresAt {
        assert Active(s, k);
      }
    }
  }

  /** Neither integrity error can arise for a lease that fits, and the claim table stays the index of the active leases. */
  lemma UpsertOfFittingLease(s: Store, id: LeaseId, lease: Lease)
    requires PlainInv(s) && Fits(s, id, lease)
    ensures var t := Put(s, id, lease);
            UpsertClaim(t, id).Ok? && id in UpsertClaim(t, id).value && PlainInv(t.(claims := UpsertClaim(t, id).value))
  {
    UpsertSucceeds(s, id, lease);
    PutKeepsPlain(s, id, lease);
    hide OnAlias, AddressOk, UpsertClaim, Inv, AloneOnMailbox;
    UpsertKeepsInv(s, id, lease);
  }

  lemma PutKeepsPlain(s: Store, id: LeaseId, lease: Lease)
    requires Plain(s) && Fits(s, id, lease)
    ensures Plain(Put(s, id, lease))
  {
    hide AddressOk, OnAlias, PlainPrimary;
  }

  lemma PlainInventory(s: Store)
    requires PlainInv(s)
    ensures forall p :: p in s.mailboxes.Keys ==> PlainPrimary(p)
  {
  }

  lemma PlainIsWellFormed(p: string)
    requires PlainPrimary(p)
    ensures WellFormed(p) && '+' !in Local(p) && HasBothParts(Strip(p))
  {
    StripOfTrimmed(p);
    hide Strip;
  }

  lemma PrimaryFacts(p: string)
    requires PlainPrimary(p)
    ensures Normal(p) && Normalize(p) == p && BaseOf(p) == p
  {
    NormalizeOfNormal(p);
    BaseIsOwnIff(p);
  }

  lemma AddressFits(s: Store, mailbox: string, request: Request)
    requires PlainInv(s) && Eligible(s, mailbox, request) && AddressFor(s, mailbox, request).Ok?
    ensures var address := AddressFor(s, mailbox, request).value;
            && (ModeOf(request) == MailReadMode <==> address.Some?)
            && (address.Some? ==> Normal(address.value) && Normalize(address.value) == address.value && BaseOf(address.value) == mailbox)
            && (request.AliasMail? ==> address.Some? && address.value != mailbox && !AddressInUse(s, address.value))
            && (request.PrimaryMail? ==> address == Some(mailbox))
  {
    hide Normalize, Normal, BaseOf, PlusAlias, GoodSuffix, Resolve, PlainPrimary;
    PrimaryFacts(mailbox);
    if request.AliasMail? {
      var suffix := Normalize(request.suffix);
      PlainIsWellFormed(mailbox);
      AliasHasItsBase(mailbox, suffix);
      AliasIsNormal(mailbox, suffix);
      NormalizeOfNormal(PlusAlias(mailbox, suffix));
    }
  }

  lemma AcquiredLeaseFits(s: Store, mailbox: string, client: string, ttl: nat, request: Request)
    requires PlainInv(s) && Eligible(s, mailbox, request) && AddressFor(s, mailbox, request).Ok?
    ensures var lease := Lease(mailbox, client, ModeOf(request), AddressFor(s, mailbox, request).value, s.now + ttl, None);
            Fits(s, s.nextLease, lease) && (OnAlias(lease) <==> request.AliasMail?)
  {
    hide Normalize, Normal, BaseOf, PlusAlias, GoodSuffix, Resolve, PlainPrimary;
    var address := AddressFor(s, mailbox, request).value;
    var lease := Lease(mailbox, client, ModeOf(request), address, s.now + ttl, None);
    AddressFits(s, mailbox, request);
    PrimaryFacts(mailbox);
    assert OnAlias(lease) <==> request.AliasMail?;
    forall k | Active(s, k) ensures Compatible(lease, s.leases[k]) {
      assert LeaseOk(s, k) && AddressOk(s.leases[k]);
    }
  }

  lemma WriteAcquiredSucceeds(s: Store, lease: Lease, site: Option<string>)
    requires PlainInv(s) && Fits(s, s.nextLease, lease)
    requires site.Some? && lease.address.Some? ==> Normal(lease.address.value) && !Occupied(s, lease.address.value, site.value)
    ensures var (v, r) := WriteAcquired(s, lease, site);
            && r == Ok(s.nextLease) && PlainInv(v)
            && v.now == s.now && v.leases == s.leases[s.nextLease := lease] && s.nextLease in v.claims
            && (forall k :: Active(s, k) ==> k != s.nextLease)
  {
    hide Normalize, Normal, UpsertClaim, Inv, Plain, Fits;
    if lease.address.Some? && site.Some? {
      NormalizeOfNormal(lease.address.value);
    }
    var t := Put(s, s.nextLease, lease);
    UpsertOfFittingLease(s, s.nextLease, lease);
    InvIgnoresSites(t.(claims := UpsertClaim(t, s.nextLease).value), WriteAcquired(s, lease, site).0);
    forall k | Active(s, k) ensures k != s.nextLease {
      LeaseIsNumbered(s, k);
    }
  }

  predicate SiteEnabled(s: Store, site: Option<string>) {
    site.Some? ==> site.value in s.sites && s.sites[site.value]
  }

  /** The alias an alias request asks for is well formed, unused, and not registered at the named site. */
  predicate AliasFree(s: Store, mailbox: string, request: Request) {
    request.AliasMail? ==>
      var suffix := Normalize(request.suffix);
      && GoodSuffix(suffix)
      && !AddressInUse(s, PlusAlias(mailbox, suffix))
      && (request.wantedSite.Some? ==> !Occupied(s, PlusAlias(mailbox, suffix), request.wantedSite.value))
  }

  lemma AddressForSucceedsIff(s: Store, mailbox: string, request: Request)
    requires PlainPrimary(mailbox)
    ensures AddressFor(s, mailbox, request).Ok? <==> AliasFree(s, mailbox, request)
  {
    hide Normalize, Normal, PlusAlias, GoodSuffix, PlainPrimary, AddressInUse, Occupied;
    PlainIsWellFormed(mailbox);
    if request.AliasMail? && GoodSuffix(Normalize(request.suffix)) {
      AliasIsNormal(mailbox, Normalize(request.suffix));
      NormalizeOfNormal(PlusAlias(mailbox, Normalize(request.suffix)));
    }
  }

  /**
   * Acquiring succeeds exactly if the site is enabled, the mailbox is eligible, the alias is well
   * formed and free, and the address is not registered at the site; integrity errors play no part.
   */
  lemma AcquireSucceedsIff(s: Store, mailbox: string, client: string, ttl: nat, request: Request)
    requires PlainInv(s)
    ensures var (v, r) := Acquire(s, mailbox, client, ttl, request);
            && (r.Ok? <==> SiteEnabled(s, SiteOf(request)) && Eligible(s, mailbox, request) && AliasFree(s, mailbox, request))
            && (r.Err? ==> v == s)
            && PlainInv(v)
    ensures var (v, r) := Acquire(s, mailbox, client, ttl, request);
            r.Ok? ==>
              && r.value == s.nextLease && r.value in v.claims && v.now == s.now
              && AddressFor(s, mailbox, request).Ok?
              && v.leases == s.leases[r.value := Lease(mailbox, client, ModeOf(request), AddressFor(s, mailbox, request).value, s.now + ttl, None)]
              && (forall k :: Active(s, k) ==> k != r.value)
  {
    hide Normalize, Normal, PlusAlias, GoodSuffix, PlainPrimary, AddressInUse, Fits, WriteAcquired, BaseOf, AliasFree, PlainInv;
    if Eligible(s, mailbox, request) {
      PlainInventory(s);
      PrimaryFacts(mailbox);
      AddressForSucceedsIff(s, mailbox, request);
      if AddressFor(s, mailbox, request).Ok? {
        AddressFits(s, mailbox, request);
        AcquiredLeaseFits(s, mailbox, client, ttl, request);
        var lease := Lease(mailbox, client, ModeOf(request), AddressFor(s, mailbox, request).value, s.now + ttl, None);
        SiteIsFree(s, mailbox, request);
        WriteAcquiredSucceeds(s, lease, SiteOf(request));
      }
    }
  }

  /** Eligibility and the choice of the address have already looked at the site register. */
  lemma SiteIsFree(s: Store, mailbox: string, request: Request)
    requires PlainInv(s) && Eligible(s, mailbox, request) && AddressFor(s, mailbox, request).Ok?
    ensures var address := AddressFor(s, mailbox, request).value;
            SiteOf(request).Some? && address.Some? ==> !Occupied(s, address.value, SiteOf(request).value)
  {
    hide Normalize, Normal, BaseOf, PlusAlias, GoodSuffix, PlainPrimary, AddressInUse;
    AddressFits(s, mailbox, request);
  }

  // ------------------------------------------------------------------ plain primaries: reacquiring

  lemma AddressOfActive(s: Store, k: LeaseId, address: string)
    requires PlainInv(s) && Active(s, k) && Normal(address)
    ensures SameAddress(s.leases[k], address) ==>
              address == "" || (s.leases[k].address == Some(address) && s.leases[k].mailbox == BaseOf(address))
    ensures s.leases[k].address == Some(address) ==> SameAddress(s.leases[k], address) && s.leases[k].mailbox == BaseOf(address)
  {
    assert LeaseOk(s, k) && AddressOk(s.leases[k]);
    if s.leases[k].address.Some? {
      NormalizeOfNormal(s.leases[k].address.value);
    } else {
      NormalizeOfNormal("");
    }
  }

  lemma ReacquiredLeaseFits(s: Store, client: string, address: string, ttl: nat, own: Option<LeaseId>)
    requires PlainInv(s) && Normal(address) && address != "" && BaseOf(address) in s.mailboxes
    requires Scan(s, BaseOf(address), client, address, address != BaseOf(address), s.nextLease) == Ok(own)
    ensures own.Some? ==> own.value in s.leases
    ensures var lease := ReacquiredLease(s, client, address, BaseOf(address), ttl, own);
            && Fits(s, if own.Some? then own.value else s.nextLease, lease)
            && lease.address == Some(address) && lease.mailbox == BaseOf(address)
            && (OnAlias(lease) <==> address != BaseOf(address))
  {
    hide Normalize, Normal, BaseOf, PlusAlias, GoodSuffix, Resolve, PlainPrimary;
    var mailbox := BaseOf(address);
    var alias := address != mailbox;
    ScanFinds(s, mailbox, client, address, alias, s.nextLease);
    PrimaryFacts(mailbox);
    NormalizeOfNormal(address);
    if own.Some? {
      AddressOfActive(s, own.value, address);
      assert LeaseOk(s, own.value) && AddressOk(s.leases[own.value]);
    }
    var id := if own.Some? then own.value else s.nextLease;
    var lease := ReacquiredLease(s, client, address, mailbox, ttl, own);
    forall k | Active(s, k) && k != id
      ensures Compatible(lease, s.leases[k]) && (!alias ==> s.leases[k].mailbox != mailbox)
    {
      AddressOfActive(s, k, address);
      assert LeaseOk(s, k) && AddressOk(s.leases[k]);
      assert !InTheWay(s, k, mailbox, client, address, alias);
      assert own.Some? ==> Compatible(s.leases[id], s.leases[k]);
    }
  }

  lemma WriteReacquiredSucceeds(s: Store, client: string, address: string, ttl: nat, own: Option<LeaseId>)
    requires PlainInv(s) && Normal(address) && address != "" && BaseOf(address) in s.mailboxes
    requires Scan(s, BaseOf(address), client, address, address != BaseOf(address), s.nextLease) == Ok(own)
    ensures var (v, r) := WriteReacquired(s, client, address, BaseOf(address), ttl, own);
            && r == Ok(if own.Some? then own.value else s.nextLease) && PlainInv(v)
            && v.leases == s.leases[r.value := ReacquiredLease(s, client, address, BaseOf(address), ttl, own)]
            && r.value in v.claims && v.now == s.now
  {
    hide Normalize, Normal, BaseOf, PlusAlias, GoodSuffix, Resolve, PlainPrimary, Scan, Fits, PlainInv;
    var id := if own.Some? then own.value else s.nextLease;
    ReacquiredLeaseFits(s, client, address, ttl, own);
    if own.Some? {
      ScanFinds(s, BaseOf(address), client, address, address != BaseOf(address), s.nextLease);
    }
    UpsertOfFittingLease(s, id, ReacquiredLease(s, client, address, BaseOf(address), ttl, own));
  }

  /**
   * Reacquiring succeeds exactly if the address resolves, the caller has held it, the mailbox can be
   * read and no active lease is in the way. It never raises an integrity error, and a failed one changes nothing.
   */
  lemma ReacquireSucceedsIff(s: Store, client: string, email: string, ttl: nat)
    requires PlainInv(s)
    ensures var (v, r) := Reacquire(s, client, email, ttl);
            var address := Normalize(email);
            var mailbox := BaseOf(address);
            && (r.Ok? <==>
                  && Resolve(address, s.mailboxes.Keys).Ok?
                  && HasHistory(s, client, address) && MailReady(s, mailbox)
                  && Clear(s, mailbox, client, address, address != mailbox, s.nextLease))
            && (r.Err? ==> v == s && !r.error.Integrity?)
            && PlainInv(v)
  {
    hide Normalize, Normal, BaseOf, PlusAlias, GoodSuffix, Resolve, PlainPrimary, Scan, WriteReacquired, PlainInv;
    var address := Normalize(email);
    NormalizeOfNormal(email);
    var primaries := s.mailboxes.Keys;
    if Resolve(address, primaries).Ok? {
      PlainInventory(s);
      ResolvedBase(address, primaries);
      var mailbox := BaseOf(address);
      ScanFinds(s, mailbox, client, address, address != mailbox, s.nextLease);
      var scan := Scan(s, mailbox, client, address, address != mailbox, s.nextLease);
      if scan.Ok? {
        WriteReacquiredSucceeds(s, client, address, ttl, scan.value);
      }
    }
  }
}

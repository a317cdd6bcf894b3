/**
 * Leases on the owned mailboxes, the claim table that indexes the live ones, and the register of
 * addresses used at a site. Each function is one transaction on the tables; `Err` means rolled back.
 * A mailbox is named by its unique primary address.
 */
module LeaseOccupancy {
  import opened Wrappers
  import opened Text
  import opened AliasAddress
  import TokenRepository

  type Time = TokenRepository.Time
  type MailboxStatus = TokenRepository.MailboxStatus
  type LeaseId = nat

  datatype Mode = AccessTokenMode | RefreshTokenMode | MailReadMode

  /** What leasing looks at: status, complete credentials, a proven mail channel. */
  datatype Mailbox = Mailbox(status: MailboxStatus, credentials: bool, channel: bool)

  datatype Lease = Lease(mailbox: string, client: string, mode: Mode, address: Option<string>, expiresAt: Time, releasedAt: Option<Time>)

  datatype Claim = Claim(mailbox: string, client: string, mode: Mode, address: Option<string>, expiresAt: Time)

  datatype Store = Store(
    now: Time,
    mailboxes: map<string, Mailbox>,
    leases: map<LeaseId, Lease>,
    claims: map<LeaseId, Claim>,
    /** (address, site) to whether the occupancy has been revoked. */
    revoked: map<(string, string), bool>,
    /** Site code to whether it is enabled. */
    sites: map<string, bool>,
    nextLease: LeaseId)

  predicate Active(s: Store, id: LeaseId) {
    id in s.leases && s.leases[id].releasedAt.None? && s.now < s.leases[id].expiresAt
  }

  predicate ActiveOn(s: Store, id: LeaseId, mailbox: string) {
    Active(s, id) && s.leases[id].mailbox == mailbox
  }

  predicate Live(s: Store, id: LeaseId) {
    id in s.claims && s.now < s.claims[id].expiresAt
  }

  predicate LiveOn(s: Store, id: LeaseId, mailbox: string) {
    Live(s, id) && s.claims[id].mailbox == mailbox
  }

  function ClaimOf(lease: Lease): Claim {
    Claim(lease.mailbox, lease.client, lease.mode, lease.address, lease.expiresAt)
  }

  /** A mail-read lease on an address other than the primary one. */
  predicate OnAlias(lease: Lease) {
    lease.mode == MailReadMode && lease.address.Some? && Normalize(lease.address.value) != Normalize(lease.mailbox)
  }

  datatype IntegrityError = ActiveClaimExists | DuplicateAddress

  /** Installs or replaces the claim of one lease. */
  function UpsertClaim(s: Store, id: LeaseId): Result<map<LeaseId, Claim>, IntegrityError>
    requires id in s.leases
  {
    var lease := s.leases[id];
    var kept := map k | k in s.claims && k != id
                        && !(s.claims[k].mailbox == lease.mailbox && s.claims[k].expiresAt <= s.now) :: s.claims[k];
    if !OnAlias(lease) && exists k :: k in kept && kept[k].mailbox == lease.mailbox && s.now < kept[k].expiresAt
    then Err(ActiveClaimExists)
    else if lease.address.Some? && exists k :: k in kept && kept[k].address == lease.address
    then Err(DuplicateAddress)
    else Ok(kept[id := ClaimOf(lease)])
  }

  // ------------------------------------------------------------------------------- acquiring

  datatype Request =
    | TokenLease(refreshToken: bool)
    | PrimaryMail(site: string)
    | AliasMail(suffix: string, wantedSite: Option<string>)

  function ModeOf(request: Request): Mode {
    if !request.TokenLease? then MailReadMode else if request.refreshToken then RefreshTokenMode else AccessTokenMode
  }

  function SiteOf(request: Request): Option<string> {
    match request
    case TokenLease(_) => None
    case PrimaryMail(site) => Some(site)
    case AliasMail(_, site) => site
  }

  predicate Occupied(s: Store, address: string, site: string) {
    (address, site) in s.revoked && !s.revoked[(address, site)]
  }

  predicate AddressInUse(s: Store, address: string) {
    exists id :: id in s.leases && Active(s, id) && s.leases[id].address == Some(address)
  }

  /** Everything but an alias request wants the mailbox to itself. */
  predicate Eligible(s: Store, mailbox: string, request: Request) {
    && mailbox in s.mailboxes
    && s.mailboxes[mailbox].status == TokenRepository.Active
    && s.mailboxes[mailbox].credentials
    && (!request.AliasMail? ==>
          && (forall id :: id in s.leases ==> !ActiveOn(s, id, mailbox))
          && (forall id :: id in s.claims ==> !LiveOn(s, id, mailbox)))
    && (!request.TokenLease? ==> s.mailboxes[mailbox].channel)
    && (request.PrimaryMail? ==> !Occupied(s, mailbox, request.site))
  }

  datatype AcquireError = UnknownSite | NoMailbox | BadPrimary | BadSuffix | AliasTaken | SiteConflict

  /** The business address the request is served with. */
  function AddressFor(s: Store, mailbox: string, request: Request): Result<Option<string>, AcquireError> {
    match request
    case TokenLease(_) => Ok(None)
    case PrimaryMail(_) => Ok(Some(Normalize(mailbox)))
    case AliasMail(wanted, site) =>
      var suffix := Normalize(wanted);
      if !HasBothParts(Strip(mailbox)) then Err(BadPrimary)
      else if !GoodSuffix(suffix) then Err(BadSuffix)
      else
        var address := PlusAlias(mailbox, suffix);
        if AddressInUse(s, Normalize(address)) then Err(AliasTaken)
        else if site.Some? && Occupied(s, Normalize(address), site.value) then Err(SiteConflict)
        else Ok(Some(address))
  }

  /** Writes lease, claim and, where a site was named, the registration. */
  function WriteAcquired(s: Store, lease: Lease, site: Option<string>): (Store, Result<LeaseId, AcquireError>) {
    var id := s.nextLease;
    var t := s.(leases := s.leases[id := lease], nextLease := id + 1);
    match UpsertClaim(t, id)
    case Err(_) => (s, Err(NoMailbox))
    case Ok(claims) =>
      if site.None? || lease.address.None? then (t.(claims := claims), Ok(id))
      else
        var key := (Normalize(lease.address.value), site.value);
        if Occupied(s, key.0, key.1) then (s, Err(SiteConflict))
        else (t.(claims := claims, revoked := t.revoked[key := false]), Ok(id))
  }

  /** Acquires a lease on `mailbox`, which the query has picked among the eligible, unlocked ones. */
  function Acquire(s: Store, mailbox: string, client: string, ttl: nat, request: Request): (Store, Result<LeaseId, AcquireError>) {
    var site := SiteOf(request);
    if site.Some? && !(site.value in s.sites && s.sites[site.value]) then (s, Err(UnknownSite))
    else if !Eligible(s, mailbox, request) then (s, Err(NoMailbox))
    else
      match AddressFor(s, mailbox, request)
      case Err(error) => (s, Err(error))
      case Ok(address) =>
        WriteAcquired(s, Lease(mailbox, client, ModeOf(request), address, s.now + ttl, None), site)
  }

  // ----------------------------------------------------------------------------- reacquiring

  datatype ReacquireError = BadAddress | NotFound | Unusable | Busy | Integrity(error: IntegrityError)

  predicate HasHistory(s: Store, client: string, address: string) {
    exists id :: id in s.leases && s.leases[id].client == client && s.leases[id].mode == MailReadMode
                 && s.leases[id].address == Some(address)
  }

  predicate SameAddress(lease: Lease, address: string) {
    Normalize(if lease.address.Some? then lease.address.value else "") == address
  }

  predicate OwnedMatch(lease: Lease, client: string, address: string) {
    lease.client == client && lease.mode == MailReadMode && SameAddress(lease, address)
  }

  /** Walks the active leases on the mailbox: the caller's own one on this address, or `None`; `Err` if one is in the way. */
  function Scan(s: Store, mailbox: string, client: string, address: string, alias: bool, upTo: LeaseId): Result<Option<LeaseId>, ()> {
    if upTo == 0 then Ok(None)
    else
      var id := upTo - 1;
      match Scan(s, mailbox, client, address, alias, id)
      case Err(_) => Err(())
      case Ok(found) =>
        if !ActiveOn(s, id, mailbox) then Ok(found)
        else if OwnedMatch(s.leases[id], client, address) then Ok(Some(id))
        else if SameAddress(s.leases[id], address) || !alias then Err(())
        else Ok(found)
  }

  predicate MailReady(s: Store, mailbox: string) {
    mailbox in s.mailboxes && s.mailboxes[mailbox] == Mailbox(TokenRepository.Active, true, true)
  }

  /** The lease a reacquire transaction writes: the caller's own one extended, or a new one. */
  function ReacquiredLease(s: Store, client: string, address: string, mailbox: string, ttl: nat, own: Option<LeaseId>): Lease {
    if own.Some? && own.value in s.leases then s.leases[own.value].(expiresAt := s.now + ttl)
    else Lease(mailbox, client, MailReadMode, Some(address), s.now + ttl, None)
  }

  function WriteReacquired(s: Store, client: string, address: string, mailbox: string, ttl: nat, own: Option<LeaseId>)
    : (Store, Result<LeaseId, ReacquireError>)
  {
    var id := if own.Some? then own.value else s.nextLease;
    var t := s.(leases := s.leases[id := ReacquiredLease(s, client, address, mailbox, ttl, own)],
                nextLease := if own.Some? then s.nextLease else id + 1);
    match UpsertClaim(t, id)
    case Err(error) => (s, Err(Integrity(error)))
    case Ok(claims) => (t.(claims := claims), Ok(id))
  }

  /** Re-opens or renews the caller's mail-read lease on an address it held before. */
  function Reacquire(s: Store, client: string, email: string, ttl: nat): (Store, Result<LeaseId, ReacquireError>) {
    var address := Normalize(email);
    match Resolve(address, s.mailboxes.Keys)
    case Err(Malformed) => (s, Err(BadAddress))
    case Err(UnknownAddress) => (s, Err(NotFound))
    case Ok(kind) =>
      var mailbox := if kind.AliasOf? then kind.base else address;
      if !HasHistory(s, client, address) then (s, Err(NotFound))
      else if !MailReady(s, mailbox) then (s, Err(Unusable))
      else
        match Scan(s, mailbox, client, address, kind.AliasOf?, s.nextLease)
        case Err(_) => (s, Err(Busy))
        case Ok(own) => WriteReacquired(s, client, address, mailbox, ttl, own)
  }

  // ------------------------------------------------------------------- releasing and deleting

  /** Releases an owned lease; repeating it changes nothing. */
  function Release(s: Store, client: string, id: LeaseId): (Store, Option<Time>) {
    if id !in s.leases || s.leases[id].client != client then (s, None)
    else if s.leases[id].releasedAt.Some? then (s, s.leases[id].releasedAt)
    else
      (s.(leases := s.leases[id := s.leases[id].(releasedAt := Some(s.now))], claims := s.claims - {id}), Some(s.now))
  }

  /** The administrator's forced release of one mailbox. */
  function ForceRelease(s: Store, mailbox: string): Store {
    s.(leases := map id | id in s.leases ::
                   if ActiveOn(s, id, mailbox) then s.leases[id].(releasedAt := Some(s.now)) else s.leases[id],
       claims := map id | id in s.claims && s.claims[id].mailbox != mailbox :: s.claims[id])
  }

  /** The mailboxes among `wanted` that a live claim protects. */
  function Blocked(s: Store, wanted: set<string>): set<string> {
    set id | id in s.claims && Live(s, id) && s.claims[id].mailbox in wanted :: s.claims[id].mailbox
  }

  function Purge(s: Store, wanted: set<string>): Store {
    s.(claims := map id | id in s.claims && s.claims[id].mailbox !in wanted :: s.claims[id],
       leases := map id | id in s.leases && s.leases[id].mailbox !in wanted :: s.leases[id],
       mailboxes := s.mailboxes - wanted)
  }

  /** Deletes mailboxes with everything that hangs on them; `Err` lists the protected ones. */
  function AdminDelete(s: Store, wanted: set<string>, force: bool): Result<Store, set<string>> {
    var found := wanted * s.mailboxes.Keys;
    if !force && Blocked(s, found) != {} then Err(Blocked(s, found)) else Ok(Purge(s, found))
  }

  // ----------------------------------------------------------------------------------- sites

  function Revoke(s: Store, address: string, site: string): Store {
    if (address, site) in s.revoked then s.(revoked := s.revoked[(address, site) := true]) else s
  }

  /** Deletes a site without occupied addresses, together with the revoked entries. */
  function DeleteSite(s: Store, site: string): Result<Store, ()> {
    if site !in s.sites || exists k :: k in s.revoked && k.1 == site && !s.revoked[k] then Err(())
    else Ok(s.(sites := s.sites - {site}, revoked := map k | k in s.revoked && k.1 != site :: s.revoked[k]))
  }
}

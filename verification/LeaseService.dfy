/** The leasing transactions as they update the tables in place. */
module LeaseService {
  import opened Wrappers
  import opened Text
  import opened AliasAddress
  import opened LeaseOccupancy

  const MAX_ALIAS_ATTEMPTS := 32

  class Database {
    var mailboxes: map<string, Mailbox>
    var leases: map<LeaseId, Lease>
    var claims: map<LeaseId, Claim>
    var revoked: map<(string, string), bool>
    var sites: map<string, bool>
    var nextLease: LeaseId

    /** The tables as a transaction running at `now` sees them. */
    function At(now: Time): Store
      reads this
    {
      Store(now, mailboxes, leases, claims, revoked, sites, nextLease)
    }

    constructor ()
      ensures At(0) == Store(0, map[], map[], map[], map[], map[], 0)
    {
      mailboxes, leases, claims, revoked, sites, nextLease := map[], map[], map[], map[], map[], 0;
    }

    /** Inserts or replaces the claim of a lease; on an error nothing is written. */
    method UpsertLeaseClaim(now: Time, id: LeaseId) returns (r: Result<(), IntegrityError>)
      requires id in leases
      modifies this`claims
      ensures match UpsertClaim(old(At(now)), id)
              case Ok(table) => r == Ok(()) && claims == table
              case Err(error) => r == Err(error) && claims == old(claims)
    {
      hide Normalize;
      var lease := leases[id];
      var kept := map k | k in claims && !(claims[k].mailbox == lease.mailbox && claims[k].expiresAt <= now) :: claims[k];
      kept := kept - {id};
      ghost var expected := map k | k in claims && k != id
                                    && !(claims[k].mailbox == lease.mailbox && claims[k].expiresAt <= now) :: claims[k];
      assert kept == expected;
      var onAlias := lease.mode == MailReadMode && lease.address.Some?
                     && Normalize(lease.address.value) != Normalize(lease.mailbox);
      if !onAlias && exists k :: k in kept && kept[k].mailbox == lease.mailbox && now < kept[k].expiresAt {
        return Err(ActiveClaimExists);
      }
      if lease.address.Some? && exists k :: k in kept && kept[k].address == lease.address {
        return Err(DuplicateAddress);
      }
      claims := kept[id := Claim(lease.mailbox, lease.client, lease.mode, lease.address, lease.expiresAt)];
      return Ok(());
    }

    /** Tries random suffixes until one gives an address that is neither leased nor registered at the site. */
    method AllocateRandomAlias(now: Time, primary: string, suffixes: seq<string>, site: Option<string>)
      returns (address: Option<string>)
      requires |suffixes| == 32 && forall i :: 0 <= i < |suffixes| ==> GoodSuffix(suffixes[i])
      ensures address.Some? ==>
                exists i :: 0 <= i < |suffixes| && address.value == PlusAlias(primary, suffixes[i])
                            && Free(At(now), address.value, site)
                            && forall j :: 0 <= j < i ==> !Free(At(now), PlusAlias(primary, suffixes[j]), site)
      ensures address.None? ==> forall j :: 0 <= j < |suffixes| ==> !Free(At(now), PlusAlias(primary, suffixes[j]), site)
    {
      hide PlusAlias, Free, GoodSuffix;
      for attempt := 0 to MAX_ALIAS_ATTEMPTS
        invariant forall j :: 0 <= j < attempt ==> !Free(At(now), PlusAlias(primary, suffixes[j]), site)
      {
        var candidate := PlusAlias(primary, suffixes[attempt]);
        if Free(At(now), candidate, site) {
          return Some(candidate);
        }
      }
      return None;
    }

    method AcquireLease(now: Time, mailbox: string, client: string, ttl: nat, request: Request)
      returns (r: Result<LeaseId, AcquireError>)
      modifies this
      ensures (At(now), r) == Acquire(old(At(now)), mailbox, client, ttl, request)
    {
      hide Normalize, AddressFor, Eligible, UpsertClaim;
      var site := SiteOf(request);
      if site.Some? && !(site.value in sites && sites[site.value]) {
        return Err(UnknownSite);
      }
      if !Eligible(At(now), mailbox, request) {
        return Err(NoMailbox);
      }
      var address :- AddressFor(At(now), mailbox, request);
      var id := nextLease;
      var before := leases;
      leases, nextLease := leases[id := Lease(mailbox, client, ModeOf(request), address, now + ttl, None)], id + 1;
      var claimsBefore := claims;
      var upsert := UpsertLeaseClaim(now, id);
      if upsert.Err? {
        leases, nextLease := before, id;
        return Err(NoMailbox);
      }
      if site.Some? && address.Some? {
        var key := (Normalize(address.value), site.value);
        if key in revoked && !revoked[key] {
          leases, nextLease, claims := before, id, claimsBefore;
          return Err(SiteConflict);
        }
        revoked := revoked[key := false];
      }
      return Ok(id);
    }

    method ReacquireLeaseByEmail(now: Time, client: string, email: string, ttl: nat)
      returns (r: Result<LeaseId, ReacquireError>)
      modifies this
      ensures (At(now), r) == Reacquire(old(At(now)), client, email, ttl)
    {
      hide Normalize, Resolve, HasHistory, UpsertClaim;
      var address := Normalize(email);
      var resolved := Resolve(address, mailboxes.Keys);
      if resolved.Err? {
        return Err(if resolved.error == Malformed then BadAddress else NotFound);
      }
      var alias := resolved.value.AliasOf?;
      var mailbox := if alias then resolved.value.base else address;
      if !HasHistory(At(now), client, address) {
        return Err(NotFound);
      }
      if !MailReady(At(now), mailbox) {
        return Err(Unusable);
      }
      var own: Option<LeaseId> := None;
      for id := 0 to nextLease
        invariant Scan(At(now), mailbox, client, address, alias, id) == Ok(own)
        invariant At(now) == old(At(now))
      {
        if ActiveOn(At(now), id, mailbox) {
          if OwnedMatch(leases[id], client, address) {
            own := Some(id);
          } else if SameAddress(leases[id], address) || !alias {
            ScanStopsAt(At(now), mailbox, client, address, alias, id + 1, nextLease);
            return Err(Busy);
          }
        }
      }
      var before, nextBefore := leases, nextLease;
      var id := if own.Some? then own.value else nextLease;
      leases := leases[id := ReacquiredLease(At(now), client, address, mailbox, ttl, own)];
      nextLease := if own.Some? then nextLease else id + 1;
      var upsert := UpsertLeaseClaim(now, id);
      if upsert.Err? {
        leases, nextLease := before, nextBefore;
        return Err(Integrity(upsert.error));
      }
      return Ok(id);
    }

    method ReleaseLease(now: Time, client: string, id: LeaseId) returns (releasedAt: Option<Time>)
      modifies this
      ensures (At(now), releasedAt) == Release(old(At(now)), client, id)
    {
      if id !in leases || leases[id].client != client {
        return None;
      }
      if leases[id].releasedAt.None? {
        leases := leases[id := leases[id].(releasedAt := Some(now))];
        claims := claims - {id};
      }
      return leases[id].releasedAt;
    }

    /** Marks the active leases on a mailbox released, one by one. */
    method MarkReleased(now: Time, mailbox: string)
      modifies this`leases
      ensures leases.Keys == old(leases).Keys
      ensures forall id :: id in leases ==>
                leases[id] == if ActiveOn(old(At(now)), id, mailbox) then old(leases)[id].(releasedAt := Some(now)) else old(leases)[id]
    {
      var pending := leases.Keys;
      while pending != {}
        invariant pending <= leases.Keys == old(leases).Keys
        invariant forall id :: id in leases ==>
                    leases[id] == if id !in pending && ActiveOn(old(At(now)), id, mailbox) then old(leases)[id].(releasedAt := Some(now))
                                  else old(leases)[id]
        decreases pending
      {
        var id :| id in pending;
        if leases[id].mailbox == mailbox && leases[id].releasedAt.None? && now < leases[id].expiresAt {
          leases := leases[id := leases[id].(releasedAt := Some(now))];
        }
        pending := pending - {id};
      }
    }

    /** Releases the active leases on a mailbox and drops all of its claims. */
    method ForceReleaseActiveClaims(now: Time, mailbox: string)
      modifies this
      ensures At(now) == ForceRelease(old(At(now)), mailbox)
    {
      hide ForceRelease, ActiveOn;
      ghost var s := At(now);
      MarkReleased(now, mailbox);
      claims := map id | id in claims && claims[id].mailbox != mailbox :: claims[id];
      ForceReleased(s, At(now), mailbox);
    }
  }

  lemma ForceReleased(s: Store, v: Store, mailbox: string)
    requires v == s.(leases := v.leases, claims := map id | id in s.claims && s.claims[id].mailbox != mailbox :: s.claims[id])
    requires v.leases.Keys == s.leases.Keys
    requires forall id :: id in v.leases ==>
               v.leases[id] == if ActiveOn(s, id, mailbox) then s.leases[id].(releasedAt := Some(s.now)) else s.leases[id]
    ensures v == ForceRelease(s, mailbox)
  {
    assert v.leases == ForceRelease(s, mailbox).leases;
  }

  /** The address can be handed out: no active lease is on it and it is not registered at the site. */
  predicate Free(s: Store, address: string, site: Option<string>) {
    !AddressInUse(s, Normalize(address)) && (site.Some? ==> !Occupied(s, Normalize(address), site.value))
  }

  lemma {:induction false} ScanStopsAt(s: Store, mailbox: string, client: string, address: string, alias: bool, i: LeaseId, n: LeaseId)
    requires i <= n && Scan(s, mailbox, client, address, alias, i).Err?
    ensures Scan(s, mailbox, client, address, alias, n).Err?
    decreases n - i
  {
    hide SameAddress, OwnedMatch;
    if i < n {
      ScanStopsAt(s, mailbox, client, address, alias, i, n - 1);
    }
  }
}

/** The administrator's deletions: by identifier, and the sweep of invalid mailboxes in chunks. */
module MailboxAdmin {
  import opened Wrappers
  import opened LeaseOccupancy
  import opened LeaseService
  import TokenRepository

  function Invalid(s: Store): set<string> {
    set p | p in s.mailboxes && s.mailboxes[p].status == TokenRepository.Invalid
  }

  lemma PurgeAbsorbsForceRelease(s: Store, m: string, wanted: set<string>)
    requires m in wanted
    ensures Purge(ForceRelease(s, m), wanted) == Purge(s, wanted)
  {
    var a, b := Purge(ForceRelease(s, m), wanted), Purge(s, wanted);
    assert a.leases == b.leases;
    assert a.claims == b.claims;
  }

  lemma PurgeTwice(s: Store, first: set<string>, second: set<string>)
    ensures Purge(Purge(s, first), second) == Purge(s, first + second)
    ensures Invalid(Purge(s, first)) == Invalid(s) - first
    ensures second !! first ==> Blocked(Purge(s, first), second) == Blocked(s, second)
    ensures Blocked(s, first + second) == Blocked(s, first) + Blocked(s, second)
  {
    var a, b := Purge(Purge(s, first), second), Purge(s, first + second);
    assert a.leases == b.leases;
    assert a.claims == b.claims;
    assert a.mailboxes == b.mailboxes;
    if second !! first {
      var p := Purge(s, first);
      forall id | id in s.claims && Live(s, id) && s.claims[id].mailbox in second
        ensures Live(p, id) && p.claims[id] == s.claims[id]
      {
      }
      assert Blocked(p, second) == Blocked(s, second);
    }
  }

  lemma ChunkExists(rows: set<string>, limit: nat)
    ensures exists chunk :: IsChunk(chunk, rows, limit)
    decreases rows
  {
    if |rows| <= limit {
      assert IsChunk(rows, rows, limit);
    } else {
      var p :| p in rows;
      ChunkExists(rows - {p}, limit);
      var chunk :| IsChunk(chunk, rows - {p}, limit);
      assert IsChunk(chunk, rows, limit);
    }
  }

  /** What a query limited to `limit` rows returns when no row is locked. */
  predicate IsChunk(chunk: set<string>, rows: set<string>, limit: nat) {
    chunk <= rows && |chunk| == if |rows| <= limit then |rows| else limit
  }

  lemma NoProperChunkOfAll(chunk: set<string>, rows: set<string>, limit: nat)
    requires IsChunk(chunk, rows, limit) && |chunk| < limit
    ensures chunk == rows
  {
    if !(rows <= chunk) {
      var p :| p in rows && p !in chunk;
      SubsetIsNoLarger(chunk + {p}, rows);
    }
  }

  lemma SubsetIsNoLarger(a: set<string>, b: set<string>)
    requires a <= b
    ensures |a| <= |b|
    decreases a
  {
    if a != {} {
      var p :| p in a;
      SubsetIsNoLarger(a - {p}, b - {p});
    }
  }

  method ForceReleaseAll(db: Database, now: Time, wanted: set<string>)
    modifies db
    ensures Purge(db.At(now), wanted) == Purge(old(db.At(now)), wanted)
  {
    var pending := wanted;
    while pending != {}
      invariant pending <= wanted
      invariant Purge(db.At(now), wanted) == Purge(old(db.At(now)), wanted)
      decreases pending
    {
      var m :| m in pending;
      PurgeAbsorbsForceRelease(db.At(now), m, wanted);
      db.ForceReleaseActiveClaims(now, m);
      pending := pending - {m};
    }
  }

  method DeleteRows(db: Database, now: Time, wanted: set<string>)
    modifies db
    ensures db.At(now) == Purge(old(db.At(now)), wanted)
  {
    db.claims := map id | id in db.claims && db.claims[id].mailbox !in wanted :: db.claims[id];
    db.leases := map id | id in db.leases && db.leases[id].mailbox !in wanted :: db.leases[id];
    db.mailboxes := db.mailboxes - wanted;
  }

  /** Deletes the mailboxes that exist among `ids`; an error lists the ones with live claims and deletes nothing. */
  method DeleteMailboxesByIds(db: Database, now: Time, ids: set<string>, force: bool)
    returns (r: Result<set<string>, set<string>>)
    modifies db
    ensures match AdminDelete(old(db.At(now)), ids, force)
            case Ok(s) => db.At(now) == s && r == Ok(ids * old(db.mailboxes).Keys)
            case Err(blocked) => db.At(now) == old(db.At(now)) && r == Err(blocked)
  {
    var found := set p | p in ids && p in db.mailboxes;
    assert found == ids * db.mailboxes.Keys;
    var blocked := Blocked(db.At(now), found);
    if blocked != {} && !force {
      return Err(blocked);
    }
    if force {
      ForceReleaseAll(db, now, found);
    }
    DeleteRows(db, now, found);
    return Ok(found);
  }

  /** The rows a sweep gets to see: other transactions hold the locked ones. */
  function Sweepable(s: Store, locked: set<string>): set<string> {
    Invalid(s) - locked
  }

  /** Nothing but invalid mailboxes, and of these all that are not locked. */
  lemma SweepableIff(s: Store, locked: set<string>, p: string)
    ensures p in Sweepable(s, locked) <==> p in s.mailboxes && s.mailboxes[p].status == TokenRepository.Invalid && p !in locked
  {
  }

  /** One chunk more, in terms of the tables before the sweep. */
  lemma SweepAdvances(s: Store, locked: set<string>, deleted: set<string>, chunk: set<string>)
    requires deleted <= Sweepable(s, locked)
    ensures Sweepable(Purge(s, deleted), locked) == Sweepable(s, locked) - deleted
    ensures chunk <= Sweepable(s, locked) - deleted ==>
              && Purge(Purge(s, deleted), chunk) == Purge(s, deleted + chunk)
              && Blocked(Purge(s, deleted), chunk) == Blocked(s, chunk)
              && Blocked(s, deleted + chunk) == Blocked(s, deleted) + Blocked(s, chunk)
              && Blocked(s, chunk) <= Blocked(s, Sweepable(s, locked))
  {
    hide Purge, Blocked, Invalid;
    PurgeTwice(s, deleted, chunk);
    if chunk <= Sweepable(s, locked) - deleted {
      PurgeTwice(s, chunk, Sweepable(s, locked) - chunk);
      assert chunk + (Sweepable(s, locked) - chunk) == Sweepable(s, locked);
    }
  }

  lemma PurgeOfNothing(s: Store)
    ensures Purge(s, {}) == s && Blocked(s, {}) == {}
  {
    assert Purge(s, {}).leases == s.leases && Purge(s, {}).claims == s.claims;
  }

  /**
   * Sweeps the invalid mailboxes chunk by chunk, passing over locked rows. It ends with exactly the unlocked
   * invalid mailboxes gone, or stops at a chunk with a live claim; what it deleted before that is left for the
   * caller to roll back. A zero batch size sweeps nothing.
   */
  method DeleteInvalidMailboxesInChunks(db: Database, now: Time, batchSize: nat, force: bool, locked: set<string>)
    returns (r: Result<set<string>, set<string>>)
    modifies db
    ensures batchSize == 0 ==> r == Ok({}) && db.At(now) == old(db.At(now))
    ensures batchSize > 0 ==> (r.Ok? <==> force || Blocked(old(db.At(now)), Sweepable(old(db.At(now)), locked)) == {})
    ensures batchSize > 0 && r.Ok? ==>
              && r.value == Sweepable(old(db.At(now)), locked)
              && db.At(now) == Purge(old(db.At(now)), r.value)
              && Sweepable(db.At(now), locked) == {}
    ensures r.Err? ==>
              && r.error != {} && r.error <= Blocked(old(db.At(now)), Sweepable(old(db.At(now)), locked))
              && exists gone :: gone <= Sweepable(old(db.At(now)), locked) && Blocked(old(db.At(now)), gone) == {}
                                && db.At(now) == Purge(old(db.At(now)), gone)
  {
    hide Purge, Blocked, Sweepable;
    ghost var s := db.At(now);
    var deleted: set<string> := {};
    PurgeOfNothing(s);
    while true
      invariant deleted <= Sweepable(s, locked)
      invariant db.At(now) == Purge(s, deleted)
      invariant force || Blocked(s, deleted) == {}
      invariant batchSize == 0 ==> deleted == {}
      decreases Sweepable(s, locked) - deleted
    {
      var rows := Sweepable(db.At(now), locked);
      ChunkExists(rows, batchSize);
      var chunk :| IsChunk(chunk, rows, batchSize);
      SweepAdvances(s, locked, deleted, chunk);
      if chunk == {} {
        break;
      }
      if !force {
        var blocked := Blocked(db.At(now), chunk);
        if blocked != {} {
          return Err(blocked);
        }
      } else {
        ForceReleaseAll(db, now, chunk);
      }
      DeleteRows(db, now, chunk);
      deleted := deleted + chunk;
      if |chunk| < batchSize {
        NoProperChunkOfAll(chunk, rows, batchSize);
        break;
      }
    }
    SweepAdvances(s, locked, deleted, {});
    assert batchSize > 0 ==> deleted == Sweepable(s, locked);
    return Ok(deleted);
  }
}

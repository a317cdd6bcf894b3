/** Sticky binding of mailboxes to egress proxies, ranked selection, and one failover. */
module ProxySelection {
  import opened Wrappers
  import opened ProxyHealth

  type ProxyId = nat

  datatype Protocol = HttpConnect | Socks5

  datatype Proxy = Proxy(enabled: bool, protocol: Protocol, priority: int, health: Health)

  datatype Policy = Policy(enabled: bool, required: bool, allowed: set<Protocol>, allowDirect: bool, threshold: nat, cooldown: nat)

  /** Proxies, and the proxy each mailbox sticks to. */
  datatype Pool = Pool(proxies: map<ProxyId, Proxy>, bindings: map<string, Option<ProxyId>>)

  predicate Available(p: Proxy, policy: Policy, now: Time) {
    p.enabled && p.protocol in policy.allowed && CooledDown(p.health, now)
  }

  /** The selection query's filter; it also lets a cooldown without a deadline through. */
  predicate Listed(p: Proxy, policy: Policy, now: Time) {
    p.enabled && p.protocol in policy.allowed
    && (p.health.status != Cooldown || p.health.cooldownUntil.None? || p.health.cooldownUntil.value <= now)
  }

  function BoundCount(pool: Pool, id: ProxyId): nat {
    |set m | m in pool.bindings && pool.bindings[m] == Some(id)|
  }

  /** Order of the selection query: priority, then number of bound mailboxes, then identifier. */
  predicate Before(pool: Pool, a: ProxyId, b: ProxyId)
    requires a in pool.proxies && b in pool.proxies
  {
    var p, q := pool.proxies[a].priority, pool.proxies[b].priority;
    p < q || (p == q && (BoundCount(pool, a) < BoundCount(pool, b) || (BoundCount(pool, a) == BoundCount(pool, b) && a < b)))
  }

  /** A possible result of the ranking query. */
  ghost predicate IsRanking(pool: Pool, policy: Policy, now: Time, excluded: set<ProxyId>, ranking: seq<ProxyId>) {
    && (forall i :: 0 <= i < |ranking| ==> ranking[i] in pool.proxies)
    && (forall id :: id in ranking <==> id in pool.proxies && Listed(pool.proxies[id], policy, now) && id !in excluded)
    && (forall i, j :: 0 <= i < j < |ranking| ==> Before(pool, ranking[i], ranking[j]))
  }

  lemma LeastExists(pool: Pool, ids: set<ProxyId>)
    requires ids != {} && forall id :: id in ids ==> id in pool.proxies
    ensures exists id :: IsLeast(pool, ids, id)
    decreases ids
  {
    hide BoundCount;
    var x :| x in ids;
    if ids - {x} == {} {
      assert ids == {x};
      assert IsLeast(pool, ids, x);
    } else {
      LeastExists(pool, ids - {x});
      var y :| IsLeast(pool, ids - {x}, y);
      var least := if Before(pool, x, y) then x else y;
      forall k | k in ids && k != least ensures Before(pool, least, k) {
        assert k != x ==> k in ids - {x};
      }
      assert IsLeast(pool, ids, least);
    }
  }

  predicate IsLeast(pool: Pool, ids: set<ProxyId>, id: ProxyId)
    requires forall k :: k in ids ==> k in pool.proxies
  {
    id in ids && forall k :: k in ids && k != id ==> Before(pool, id, k)
  }

  /** A proxy that selection may choose when the rows in `locked` are held by others. */
  predicate Candidate(pool: Pool, policy: Policy, now: Time, excluded: set<ProxyId>, locked: set<ProxyId>, id: ProxyId) {
    id in pool.proxies && Available(pool.proxies[id], policy, now) && id !in excluded && id !in locked
  }

  /** `id` ranks before every other candidate. */
  predicate Best(pool: Pool, policy: Policy, now: Time, excluded: set<ProxyId>, locked: set<ProxyId>, id: ProxyId) {
    && Candidate(pool, policy, now, excluded, locked, id)
    && forall k :: k in pool.proxies && k != id && Candidate(pool, policy, now, excluded, locked, k) ==> Before(pool, id, k)
  }

  /** What one selection attempt has to return. */
  predicate Selects(pool: Pool, policy: Policy, now: Time, excluded: set<ProxyId>, locked: set<ProxyId>, r: Option<ProxyId>) {
    match r
    case Some(id) => Best(pool, policy, now, excluded, locked, id)
    case None => forall k :: k in pool.proxies ==> !Candidate(pool, policy, now, excluded, locked, k)
  }

  /** The choice is determined by pool, exclusions and locks. */
  lemma SelectionIsUnique(pool: Pool, policy: Policy, now: Time, excluded: set<ProxyId>, locked: set<ProxyId>, r: Option<ProxyId>, q: Option<ProxyId>)
    requires Selects(pool, policy, now, excluded, locked, r) && Selects(pool, policy, now, excluded, locked, q)
    ensures r == q
  {
    hide BoundCount, Available;
  }

  /** While one selection holds its row, an overlapping one gets the runner-up, and nothing iff there is none. */
  lemma OverlappingSelectionsDiffer(pool: Pool, policy: Policy, now: Time, excluded: set<ProxyId>, locked: set<ProxyId>,
                                    a: ProxyId, r: Option<ProxyId>)
    requires Selects(pool, policy, now, excluded, locked, Some(a))
    requires Selects(pool, policy, now, excluded, locked + {a}, r)
    ensures r.Some? ==> r.value != a && Candidate(pool, policy, now, excluded, locked, r.value) && Before(pool, a, r.value)
    ensures r.Some? ==> forall k :: k in pool.proxies && k != a && k != r.value && Candidate(pool, policy, now, excluded, locked, k) ==> Before(pool, r.value, k)
    ensures r.None? <==> forall k :: k in pool.proxies && k != a ==> !Candidate(pool, policy, now, excluded, locked, k)
  {
    hide BoundCount, Available, Before;
    forall k | k in pool.proxies && k != a
      ensures Candidate(pool, policy, now, excluded, locked, k) == Candidate(pool, policy, now, excluded, locked + {a}, k)
    {}
    assert !Candidate(pool, policy, now, excluded, locked + {a}, a);
  }

  /** The query's looser filter lists nothing that the in-memory test would refuse, once cooldowns have deadlines. */
  lemma ListedIsAvailable(p: Proxy, policy: Policy, now: Time, history: seq<Event>)
    requires p.health == Run(history)
    ensures Listed(p, policy, now) <==> Available(p, policy, now)
  {
    CooldownHasDeadline(history);
  }

  /** The chosen proxy compared with any other one that could have been chosen: priority, then mailboxes bound to it, then identifier. */
  lemma ChosenIsFirst(pool: Pool, policy: Policy, now: Time, excluded: set<ProxyId>, locked: set<ProxyId>, id: ProxyId, other: ProxyId)
    requires Selects(pool, policy, now, excluded, locked, Some(id))
    ensures id in pool.proxies && Usable(pool.proxies[id], policy, now) && id !in excluded && id !in locked
    ensures other in pool.proxies && Usable(pool.proxies[other], policy, now) && other !in excluded && other !in locked && other != id ==>
              var p, q := pool.proxies[id].priority, pool.proxies[other].priority;
              var m, n := (set b | b in pool.bindings && pool.bindings[b] == Some(id)), (set b | b in pool.bindings && pool.bindings[b] == Some(other));
              p < q || (p == q && (|m| < |n| || (|m| == |n| && id < other)))
  {
    assert other in pool.proxies && other != id ==> (Candidate(pool, policy, now, excluded, locked, other) ==> Before(pool, id, other));
  }

  /** Nothing is chosen exactly if every usable proxy is excluded or locked. */
  lemma NoneIsChosenIff(pool: Pool, policy: Policy, now: Time, excluded: set<ProxyId>, locked: set<ProxyId>, r: Option<ProxyId>)
    requires Selects(pool, policy, now, excluded, locked, r)
    ensures r.None? <==> forall id :: id in pool.proxies && Usable(pool.proxies[id], policy, now) ==> id in excluded || id in locked
  {
    hide BoundCount, Before;
    forall id | id in pool.proxies
      ensures Candidate(pool, policy, now, excluded, locked, id) <==> Usable(pool.proxies[id], policy, now) && id !in excluded && id !in locked
    {
      AvailableIsUsable(pool.proxies[id], policy, now);
    }
  }

  /** A rebinding by others moves this mailbox only. */
  lemma ReboundMovesOne(pool: Pool, mailbox: string, to: Option<Option<ProxyId>>)
    ensures var v := Rebound(pool, mailbox, to);
            && v.proxies == pool.proxies
            && (to.None? ==> v == pool)
            && (to.Some? ==> v.bindings == pool.bindings[mailbox := to.value])
  {
  }

  /** A mailbox keeps its proxy exactly while this is usable and wanted. */
  lemma KeepsProxyIff(pool: Pool, policy: Policy, now: Time, excluded: set<ProxyId>, mailbox: string, id: ProxyId)
    ensures StickyProxy(pool, policy, now, excluded, mailbox) == Some(id) <==>
            && mailbox in pool.bindings && pool.bindings[mailbox] == Some(id)
            && id in pool.proxies && id !in excluded && Usable(pool.proxies[id], policy, now)
  {
  }

  lemma SelectedIsAvailable(pool: Pool, policy: Policy, now: Time, excluded: set<ProxyId>, locks: seq<set<ProxyId>>, id: ProxyId)
    requires exists i :: 0 <= i < |locks| && Selects(pool, policy, now, excluded, locks[i], Some(id))
    ensures id in pool.proxies && id !in excluded && Available(Cleared(pool, id).proxies[id], policy, now)
  {
    hide BoundCount;
    var i :| 0 <= i < |locks| && Selects(pool, policy, now, excluded, locks[i], Some(id));
    assert Best(pool, policy, now, excluded, locks[i], id);
  }

  function Cleared(pool: Pool, id: ProxyId): Pool
    requires id in pool.proxies
  {
    pool.(proxies := pool.proxies[id := pool.proxies[id].(health := Reuse(pool.proxies[id].health))])
  }

  /** Being chosen ends an expired cooldown of this proxy and touches nothing else, in particular not its count of failures. */
  lemma ChosenIsCleared(pool: Pool, id: ProxyId)
    requires id in pool.proxies
    ensures var v, h := Cleared(pool, id), pool.proxies[id].health;
            && v.bindings == pool.bindings && v.proxies == pool.proxies[id := pool.proxies[id].(health := v.proxies[id].health)]
            && v.proxies[id].health == (if h.status == Cooldown then h.(status := Unknown, cooldownUntil := None) else h)
  {
  }

  datatype ResolveError = PoolClosed | MailboxMissing | NoHealthyProxy

  predicate DirectAllowed(policy: Policy) {
    !policy.required && policy.allowDirect
  }

  /** The proxy the mailbox sticks to, if it may keep it. */
  function StickyProxy(pool: Pool, policy: Policy, now: Time, excluded: set<ProxyId>, mailbox: string): Option<ProxyId> {
    if mailbox !in pool.bindings then None
    else
      var current := pool.bindings[mailbox];
      if current.Some? && current.value in pool.proxies && current.value !in excluded
         && Available(pool.proxies[current.value], policy, now) then current else None
  }

  /** The pool after another writer has bound the mailbox to something else, or has not. */
  function Rebound(pool: Pool, mailbox: string, to: Option<Option<ProxyId>>): Pool {
    if to.Some? then pool.(bindings := pool.bindings[mailbox := to.value]) else pool
  }

  /** What one run of an operation answers: a broken proxy chain is the only reason to fail over. */
  datatype Reply = Answered | ChainBroken | Refused

  datatype ExecuteError = NoRoute(error: ResolveError) | OperationFailed

  /** What a call meets on one of its two turns: policy, clock, a rebinding by others, locked rows, and the clock after the operation. */
  datatype Turn = Turn(policy: Policy, now: Time, rebound: Option<Option<ProxyId>>, locks: seq<set<ProxyId>>, observedAt: Time)

  /** The pool after one observation. */
  function Observed(pool: Pool, id: ProxyId, success: bool, at: Time, policy: Policy): Pool {
    if id !in pool.proxies then pool
    else
      var p := pool.proxies[id];
      pool.(proxies := pool.proxies[id := p.(health := Record(p.health, success, at, policy.threshold, policy.cooldown).0)])
  }

  /** One observation in the pool: the policy's threshold and cooldown decide, and no other proxy is touched. */
  lemma ObservationFollowsPolicy(pool: Pool, id: ProxyId, success: bool, at: Time, policy: Policy)
    requires id in pool.proxies && Accepts(pool.proxies[id].health, at)
    ensures var v, h := Observed(pool, id, success, at, policy), pool.proxies[id].health;
            && v.bindings == pool.bindings && id in v.proxies && v.proxies == pool.proxies[id := v.proxies[id]]
            && v.proxies[id] == pool.proxies[id].(health := v.proxies[id].health)
            && (success ==> v.proxies[id].health.status == Healthy && v.proxies[id].health.failures == 0)
            && (!success ==>
                  && v.proxies[id].health.failures == h.failures + 1
                  && (h.failures + 1 >= policy.threshold ==>
                        v.proxies[id].health.status == Cooldown && v.proxies[id].health.cooldownUntil == Some(at + policy.cooldown))
                  && (h.failures + 1 < policy.threshold ==> v.proxies[id].health.status == Unknown))
  {
  }

  /** Direct routing is for a policy that allows it and does not insist on a proxy. */
  lemma DirectIff(policy: Policy)
    ensures DirectAllowed(policy) <==> policy.allowDirect && !policy.required
  {
  }

  /** The mailbox may use this route: a proxy that is available, wanted and bound to it, or permitted direct routing. */
  predicate Routed(pool: Pool, policy: Policy, now: Time, excluded: set<ProxyId>, mailbox: string, route: Option<ProxyId>) {
    match route
    case None => policy.allowDirect && !policy.required
    case Some(id) =>
      && policy.enabled && id !in excluded
      && mailbox in pool.bindings && pool.bindings[mailbox] == route
      && id in pool.proxies && Usable(pool.proxies[id], policy, now)
  }

  /** Switched on, of an allowed protocol, and not cooling down. */
  predicate Usable(p: Proxy, policy: Policy, now: Time) {
    && p.enabled && p.protocol in policy.allowed
    && (p.health.status == Cooldown ==> p.health.cooldownUntil.Some? && p.health.cooldownUntil.value <= now)
  }

  lemma AvailableIsUsable(p: Proxy, policy: Policy, now: Time)
    ensures Available(p, policy, now) <==> Usable(p, policy, now)
  {
  }

  const MAX_ATTEMPTS := 8

  class ProxyService {
    var proxies: map<ProxyId, Proxy>
    var bindings: map<string, Option<ProxyId>>

    function Rows(): Pool
      reads this
    {
      Pool(proxies, bindings)
    }

    constructor (pool: Pool)
      ensures Rows() == pool
    {
      proxies, bindings := pool.proxies, pool.bindings;
    }

    /** The unlocked query that ranks the listed proxies. */
    method RankCandidates(policy: Policy, now: Time, excluded: set<ProxyId>) returns (ranking: seq<ProxyId>)
      ensures IsRanking(Rows(), policy, now, excluded, ranking)
    {
      hide BoundCount, Listed;
      var remaining := set id | id in proxies && Listed(proxies[id], policy, now) && id !in excluded;
      ghost var all := remaining;
      ranking := [];
      while remaining != {}
        invariant remaining <= all && forall id :: id in remaining ==> id in proxies
        invariant forall id :: id in ranking <==> id in all && id !in remaining
        invariant forall i, id :: 0 <= i < |ranking| && id in remaining ==> Before(Rows(), ranking[i], id)
        invariant forall i, j :: 0 <= i < j < |ranking| ==> Before(Rows(), ranking[i], ranking[j])
        decreases remaining
      {
        LeastExists(Rows(), remaining);
        var id :| IsLeast(Rows(), remaining, id);
        ranking := ranking + [id];
        remaining := remaining - {id};
      }
    }

    /** Walks the ranking and takes the first row that is neither locked nor meanwhile unavailable. */
    method SelectCandidate(policy: Policy, now: Time, excluded: set<ProxyId>, locked: set<ProxyId>)
      returns (selected: Option<ProxyId>)
      modifies this`proxies
      ensures Selects(old(Rows()), policy, now, excluded, locked, selected)
      ensures Rows() == if selected.Some? then Cleared(old(Rows()), selected.value) else old(Rows())
    {
      hide BoundCount;
      var ranking := RankCandidates(policy, now, excluded);
      for i := 0 to |ranking|
        invariant forall j :: 0 <= j < i ==> !Candidate(Rows(), policy, now, excluded, locked, ranking[j])
      {
        var id := ranking[i];
        if id in locked || !Available(proxies[id], policy, now) {
          continue;
        }
        ghost var before := Rows();
        forall k | k in before.proxies && k != id && Candidate(before, policy, now, excluded, locked, k)
          ensures Before(before, id, k)
        {
          assert k in ranking;
        }
        if proxies[id].health.status == Cooldown {
          var p := proxies[id];
          proxies := proxies[id := p.(health := p.health.(status := Unknown, cooldownUntil := None))];
        }
        assert proxies == Cleared(before, id).proxies;
        return Some(id);
      }
      forall k | k in proxies ensures !Candidate(Rows(), policy, now, excluded, locked, k) {
        assert Candidate(Rows(), policy, now, excluded, locked, k) ==> k in ranking;
      }
      return None;
    }

    /** Tries again a few times while other workers hold the rows. */
    method SelectWithRetry(policy: Policy, now: Time, excluded: set<ProxyId>, locks: seq<set<ProxyId>>)
      returns (selected: Option<ProxyId>)
      requires |locks| == MAX_ATTEMPTS
      modifies this`proxies
      ensures selected.Some? ==> exists i :: 0 <= i < |locks| && Selects(old(Rows()), policy, now, excluded, locks[i], selected)
      ensures selected.None? ==> forall i :: 0 <= i < |locks| ==> Selects(old(Rows()), policy, now, excluded, locks[i], None)
      ensures Rows() == if selected.Some? then Cleared(old(Rows()), selected.value) else old(Rows())
    {
      hide Selects;
      for attempt := 0 to MAX_ATTEMPTS
        invariant Rows() == old(Rows())
        invariant forall i :: 0 <= i < attempt ==> Selects(old(Rows()), policy, now, excluded, locks[i], None)
      {
        selected := SelectCandidate(policy, now, excluded, locks[attempt]);
        if selected.Some? {
          return;
        }
      }
      return None;
    }

    /** Selects a proxy afresh and binds the mailbox to it, or to nothing if direct routing is permitted. */
    method Rebind(mailbox: string, policy: Policy, now: Time, excluded: set<ProxyId>, locks: seq<set<ProxyId>>)
      returns (r: Result<Option<ProxyId>, ResolveError>)
      requires |locks| == MAX_ATTEMPTS && mailbox in bindings
      modifies this
      ensures r.Ok? && r.value.Some? ==>
                exists i :: 0 <= i < |locks| && Selects(old(Rows()), policy, now, excluded, locks[i], r.value)
      ensures r.Ok? && r.value.Some? ==>
                var id := r.value.value;
                && id in old(proxies) && id !in excluded && proxies == Cleared(old(Rows()), id).proxies
                && Available(proxies[id], policy, now)
      ensures !(r.Ok? && r.value.Some?) ==>
                && proxies == old(proxies)
                && forall i :: 0 <= i < |locks| ==> Selects(old(Rows()), policy, now, excluded, locks[i], None)
      ensures r.Ok? ==> bindings == old(bindings)[mailbox := r.value] && (r.value.None? ==> DirectAllowed(policy))
      ensures r.Err? ==> r.error == NoHealthyProxy && !DirectAllowed(policy) && Rows() == old(Rows())
    {
      hide Candidate, BoundCount, Best, Available, Selects;
      var selected := SelectWithRetry(policy, now, excluded, locks);
      if selected.Some? {
        SelectedIsAvailable(old(Rows()), policy, now, excluded, locks, selected.value);
      }
      if selected.None? && (policy.required || !policy.allowDirect) {
        return Err(NoHealthyProxy);
      }
      if bindings[mailbox] != selected {
        bindings := bindings[mailbox := selected];
      }
      return Ok(selected);
    }

    /**
     * Resolves the route of a mailbox. `rebound` is what another writer may have bound between the plain
     * read and the locking one.
     */
    method ResolveForMailbox(mailbox: string, policy: Policy, now: Time, excluded: set<ProxyId>, force: bool,
                             rebound: Option<Option<ProxyId>>, locks: seq<set<ProxyId>>)
      returns (r: Result<Option<ProxyId>, ResolveError>)
      requires |locks| == MAX_ATTEMPTS
      modifies this
      ensures !policy.enabled ==> r == (if DirectAllowed(policy) then Ok(None) else Err(PoolClosed)) && Rows() == old(Rows())
      ensures policy.enabled && mailbox !in old(bindings) ==> r == Err(MailboxMissing) && Rows() == old(Rows())
      ensures policy.enabled && mailbox in old(bindings) ==>
                var pool := Rebound(old(Rows()), mailbox, rebound);
                if !force && StickyProxy(old(Rows()), policy, now, excluded, mailbox).Some? then
                  r == Ok(StickyProxy(old(Rows()), policy, now, excluded, mailbox)) && Rows() == old(Rows())
                else if !force && StickyProxy(pool, policy, now, excluded, mailbox).Some? then
                  r == Ok(StickyProxy(pool, policy, now, excluded, mailbox)) && Rows() == pool
                else if r.Ok? && r.value.Some? then
                  && r.value.value in pool.proxies
                  && Rows() == Cleared(pool, r.value.value).(bindings := pool.bindings[mailbox := r.value])
                  && exists i :: 0 <= i < |locks| && Selects(pool, policy, now, excluded, locks[i], r.value)
                else
                  && r == (if DirectAllowed(policy) then Ok(None) else Err(NoHealthyProxy))
                  && Rows() == (if r.Ok? then pool.(bindings := pool.bindings[mailbox := None]) else pool)
                  && forall i :: 0 <= i < |locks| ==> Selects(pool, policy, now, excluded, locks[i], None)
      ensures r.Ok? ==> Routed(Rows(), policy, now, excluded, mailbox, r.value)
    {
      if !policy.enabled {
        if policy.required || !policy.allowDirect {
          return Err(PoolClosed);
        }
        return Ok(None);
      }
      if mailbox !in bindings {
        return Err(MailboxMissing);
      }
      hide Candidate, BoundCount, Best, Available, Selects;
      var current := bindings[mailbox];
      if !force && current.Some? && current.value in proxies && current.value !in excluded
         && Available(proxies[current.value], policy, now) {
        return Ok(current);
      }
      if rebound.Some? {
        bindings := bindings[mailbox := rebound.value];
      }
      current := bindings[mailbox];
      if !force && current.Some? && current.value in proxies && current.value !in excluded
         && Available(proxies[current.value], policy, now) {
        return Ok(current);
      }
      r := Rebind(mailbox, policy, now, excluded, locks);
    }

    method RecordObservation(id: ProxyId, success: bool, at: Time, policy: Policy) returns (applied: bool)
      modifies this`proxies
      ensures Rows() == Observed(old(Rows()), id, success, at, policy)
      ensures applied <==> id in old(proxies) && Accepts(old(proxies)[id].health, at)
    {
      if id !in proxies {
        return false;
      }
      var (health, ok) := Record(proxies[id].health, success, at, policy.threshold, policy.cooldown);
      proxies := proxies[id := proxies[id].(health := health)];
      return ok;
    }

    /** What other writers leave behind between two transactions of a call. */
    method MeanwhileOthersWrite(pool: Pool)
      modifies this
      ensures Rows() == pool
    {
      proxies, bindings := pool.proxies, pool.bindings;
    }

    /**
     * Runs an operation over the mailbox's route, with one failover if the proxy chain breaks. `calls` is the
     * route of each run, `replies` what the operation answers the first and the second time, `others` what other
     * writers leave behind before the second, third and fourth transaction; `states` is the pool after each.
     */
    method ExecuteWithProxyRetry(mailbox: string, first: Turn, second: Turn, replies: (Reply, Reply), others: (Pool, Pool, Pool))
      returns (calls: seq<Option<ProxyId>>, r: Result<(), ExecuteError>, ghost states: seq<Pool>)
      requires |first.locks| == MAX_ATTEMPTS && |second.locks| == MAX_ATTEMPTS
      modifies this
      ensures |calls| <= 2
      ensures |calls| == 2 ==> replies.0 == ChainBroken && calls[0].Some? && calls[1] != calls[0]
      ensures |calls| == 1 && calls[0].Some? && replies.0 == ChainBroken ==> r.Err? && r.error.NoRoute?
      ensures r.Ok? <==> |calls| > 0 && (if |calls| == 1 then replies.0 else replies.1) == Answered
      ensures |states| > 0 && Rows() == states[|states| - 1]
      ensures |calls| > 0 ==> Routed(states[0], first.policy, first.now, {}, mailbox, calls[0])
      ensures |calls| > 0 && calls[0].Some? && replies.0 != Refused ==>
                |states| >= 2 && states[1] == Observed(others.0, calls[0].value, replies.0 == Answered, first.observedAt, first.policy)
      ensures |calls| == 2 ==>
                |states| >= 3 && Routed(states[2], second.policy, second.now, {calls[0].value}, mailbox, calls[1])
      ensures r.Ok? && |calls| == 2 && calls[1].Some? ==>
                |states| == 4 && states[3] == Observed(others.2, calls[1].value, true, second.observedAt, second.policy)
    {
      hide StickyProxy, Rebound, Selects, Available;
      var route := ResolveForMailbox(mailbox, first.policy, first.now, {}, false, first.rebound, first.locks);
      states := [Rows()];
      if route.Err? {
        return [], Err(NoRoute(route.error)), states;
      }
      calls := [route.value];
      match replies.0 {
        case ChainBroken =>
          if route.value.None? {
            return calls, Err(OperationFailed), states;
          }
          var failed := route.value.value;
          MeanwhileOthersWrite(others.0);
          var _ := RecordObservation(failed, false, first.observedAt, first.policy);
          states := states + [Rows()];
          MeanwhileOthersWrite(others.1);
          var replacement := ResolveForMailbox(mailbox, second.policy, second.now, {failed}, true, second.rebound, second.locks);
          states := states + [Rows()];
          if replacement.Err? {
            return calls, Err(NoRoute(replacement.error)), states;
          }
          calls := calls + [replacement.value];
          if replies.1 != Answered {
            return calls, Err(OperationFailed), states;
          }
          if replacement.value.Some? {
            MeanwhileOthersWrite(others.2);
            var _ := RecordObservation(replacement.value.value, true, second.observedAt, second.policy);
            states := states + [Rows()];
          }
          return calls, Ok(()), states;
        case Refused =>
          return calls, Err(OperationFailed), states;
        case Answered =>
          if route.value.Some? {
            MeanwhileOthersWrite(others.0);
            var _ := RecordObservation(route.value.value, true, first.observedAt, first.policy);
            states := states + [Rows()];
          }
          return calls, Ok(()), states;
      }
    }
  }
}

/** Health of one egress proxy, folded from observations that may arrive late. */
module ProxyHealth {
  import opened Wrappers

  type Time = int

  datatype Status = Healthy | Cooldown | Unknown

  datatype Health = Health(
    status: Status,
    failures: nat,
    cooldownUntil: Option<Time>,
    lastSuccessAt: Option<Time>,
    lastFailureAt: Option<Time>,
    lastObservedAt: Option<Time>,
    version: nat)

  predicate Accepts(h: Health, observedAt: Time) {
    h.lastObservedAt.Some? ==> h.lastObservedAt.value <= observedAt
  }

  /** Applies one observation; an observation older than the last accepted one is dropped. */
  function Record(h: Health, success: bool, observedAt: Time, threshold: nat, cooldown: nat): (Health, bool) {
    if !Accepts(h, observedAt) then (h, false)
    else
      var seen := h.(lastObservedAt := Some(observedAt), version := h.version + 1);
      if success then
        (seen.(status := Healthy, failures := 0, cooldownUntil := None, lastSuccessAt := Some(observedAt)), true)
      else
        var failed := seen.(failures := h.failures + 1, lastFailureAt := Some(observedAt));
        (if failed.failures >= threshold
         then failed.(status := Cooldown, cooldownUntil := Some(observedAt + cooldown))
         else failed.(status := Unknown),
         true)
  }

  /** An operator's recovery. */
  function Recover(h: Health): Health {
    h.(status := Unknown, failures := 0, cooldownUntil := None)
  }

  /** Being selected after its cooldown has run out clears the cooldown, but not the count. */
  function Reuse(h: Health): Health {
    if h.status == Cooldown then h.(status := Unknown, cooldownUntil := None) else h
  }

  predicate CooledDown(h: Health, now: Time) {
    h.status != Cooldown || (h.cooldownUntil.Some? && h.cooldownUntil.value <= now)
  }

  class EgressProxy {
    var status: Status
    var failures: nat
    var cooldownUntil: Option<Time>
    var lastSuccessAt: Option<Time>
    var lastFailureAt: Option<Time>
    var lastObservedAt: Option<Time>
    var version: nat

    function Columns(): Health
      reads this
    {
      Health(status, failures, cooldownUntil, lastSuccessAt, lastFailureAt, lastObservedAt, version)
    }

    constructor ()
      ensures Columns() == Fresh
    {
      status, failures, version := Unknown, 0, 0;
      cooldownUntil, lastSuccessAt, lastFailureAt, lastObservedAt := None, None, None, None;
    }

    method RecordObservation(success: bool, observedAt: Time, threshold: nat, cooldown: nat) returns (applied: bool)
      modifies this
      ensures (Columns(), applied) == Record(old(Columns()), success, observedAt, threshold, cooldown)
    {
      if lastObservedAt.Some? && lastObservedAt.value > observedAt {
        return false;
      }
      if success {
        status, failures, cooldownUntil, lastSuccessAt := Healthy, 0, None, Some(observedAt);
      } else {
        failures, lastFailureAt := failures + 1, Some(observedAt);
        if failures >= threshold {
          status, cooldownUntil := Cooldown, Some(observedAt + cooldown);
        } else {
          status := Unknown;
        }
      }
      lastObservedAt, version := Some(observedAt), version + 1;
      return true;
    }

    method RecoverProxy()
      modifies this
      ensures Columns() == Recover(old(Columns()))
    {
      status, failures, cooldownUntil := Unknown, 0, None;
    }
  }

  const Fresh := Health(Unknown, 0, None, None, None, None, 0)

  // -------------------------------------------------------------------------------------- history

  datatype Event =
    | Observe(success: bool, observedAt: Time, threshold: nat, cooldown: nat)
    | Recovery
    | Selection(now: Time)

  function Step(h: Health, e: Event): Health {
    match e
    case Observe(success, at, threshold, cooldown) => Record(h, success, at, threshold, cooldown).0
    case Recovery => Recover(h)
    case Selection(now) => if CooledDown(h, now) then Reuse(h) else h
  }

  function Run(es: seq<Event>): Health {
    if es == [] then Fresh else Step(Run(es[..|es| - 1]), es[|es| - 1])
  }

  /** The i-th event is an observation that is not older than any accepted one before it. */
  predicate Counts(es: seq<Event>, i: nat)
    requires i < |es|
    decreases i + 1, 0
  {
    es[i].Observe? && (NewestBefore(es, i).Some? ==> NewestBefore(es, i).value <= es[i].observedAt)
  }

  function NewestBefore(es: seq<Event>, i: nat): Option<Time>
    requires i <= |es|
    decreases i, 1
  {
    if i == 0 then None
    else if Counts(es, i - 1) then Some(es[i - 1].observedAt)
    else NewestBefore(es, i - 1)
  }

  predicate CountsAsFailure(es: seq<Event>, i: nat)
    requires i < |es|
  {
    Counts(es, i) && !es[i].success
  }

  predicate Resets(es: seq<Event>, i: nat)
    requires i < |es|
  {
    es[i].Recovery? || (Counts(es, i) && es[i].success)
  }

  /** How many of the events from `i` up to `n` are counted failures. */
  function FailuresBetween(es: seq<Event>, i: nat, n: nat): nat
    requires i <= n <= |es|
    decreases n
  {
    if i == n then 0 else FailuresBetween(es, i, n - 1) + if CountsAsFailure(es, n - 1) then 1 else 0
  }

  function CountedBefore(es: seq<Event>, n: nat): nat
    requires n <= |es|
  {
    if n == 0 then 0 else CountedBefore(es, n - 1) + if Counts(es, n - 1) then 1 else 0
  }

  /** Position after the last event that resets the count, among the first `n`. */
  function SinceReset(es: seq<Event>, n: nat): nat
    requires n <= |es|
    ensures SinceReset(es, n) <= n
    ensures SinceReset(es, n) > 0 ==> Resets(es, SinceReset(es, n) - 1)
    ensures forall i :: SinceReset(es, n) <= i < n ==> !Resets(es, i)
  {
    if n == 0 then 0 else if Resets(es, n - 1) then n else SinceReset(es, n - 1)
  }

  /**
   * The stored health is a fold of the history: the count is the number of accepted failures since the
   * last accepted success or recovery, the version is the number of accepted observations, and the last
   * observation time is the newest accepted one. Dropped observations and selections leave no trace in them.
   */
  lemma {:induction false} HealthFoldsHistory(es: seq<Event>, n: nat)
    requires n <= |es|
    ensures var h := Run(es[..n]);
            && h.lastObservedAt == NewestBefore(es, n)
            && h.version == CountedBefore(es, n)
            && h.failures == FailuresBetween(es, SinceReset(es, n), n)
  {
    if n > 0 {
      HealthFoldsHistory(es, n - 1);
      assert es[..n][..n - 1] == es[..n - 1];
    }
  }

  /** An accepted failure puts the proxy into cooldown exactly if it brings the count to the threshold. */
  lemma CooldownExactlyAtThreshold(es: seq<Event>, n: nat)
    requires n < |es| && CountsAsFailure(es, n)
    ensures var h := Run(es[..n + 1]);
            && (h.status == Cooldown <==> FailuresBetween(es, SinceReset(es, n), n) + 1 >= es[n].threshold)
            && (h.status == Cooldown ==> h.cooldownUntil == Some(es[n].observedAt + es[n].cooldown))
            && h.status != Healthy
  {
    HealthFoldsHistory(es, n);
    assert es[..n + 1][..n] == es[..n];
    assert Run(es[..n + 1]) == Step(Run(es[..n]), es[n]);
    hide SinceReset, FailuresBetween, Run, NewestBefore;
  }

  /** A proxy in cooldown always has a deadline, so the query's test and the in-memory test agree. */
  lemma {:induction false} CooldownHasDeadline(es: seq<Event>)
    ensures Run(es).status == Cooldown ==> Run(es).cooldownUntil.Some?
  {
    if es != [] {
      CooldownHasDeadline(es[..|es| - 1]);
    }
  }

  /** Selection after cooldown forgives nothing: with the same threshold the next accepted failure cools the proxy down again. */
  lemma NextFailureAfterReuseCoolsDown(es: seq<Event>, now: Time, at: Time, threshold: nat, cooldown: nat)
    requires threshold <= Run(es).failures && CooledDown(Run(es), now) && Accepts(Run(es), at)
    ensures var h := Run(es + [Selection(now), Observe(false, at, threshold, cooldown)]);
            h.status == Cooldown && h.failures == Run(es).failures + 1
  {
    var fs := es + [Selection(now)];
    var gs := es + [Selection(now), Observe(false, at, threshold, cooldown)];
    assert gs[..|gs| - 1] == fs;
    assert fs[..|fs| - 1] == es;
  }

  /** A success that counts makes the proxy healthy and forgets all failures; it may be used at once. */
  lemma SuccessHeals(es: seq<Event>, n: nat, now: Time)
    requires n < |es| && Counts(es, n) && es[n].success
    ensures var h := Run(es[..n + 1]);
            && h.status == Healthy && h.failures == 0 && h.cooldownUntil.None? && CooledDown(h, now)
            && h.lastSuccessAt == Some(es[n].observedAt) && h.lastFailureAt == Run(es[..n]).lastFailureAt
  {
    HealthFoldsHistory(es, n);
    assert es[..n + 1][..n] == es[..n];
    assert Run(es[..n + 1]) == Step(Run(es[..n]), es[n]);
    hide Run, NewestBefore, SinceReset, FailuresBetween;
  }

  /** A failure that counts is noted; below the threshold the proxy stays in use. */
  lemma FailureIsNoted(es: seq<Event>, n: nat, now: Time)
    requires n < |es| && CountsAsFailure(es, n)
    ensures var h := Run(es[..n + 1]);
            && h.lastFailureAt == Some(es[n].observedAt) && h.lastSuccessAt == Run(es[..n]).lastSuccessAt
            && (FailuresBetween(es, SinceReset(es, n), n) + 1 < es[n].threshold ==> h.status == Unknown && CooledDown(h, now))
            && (FailuresBetween(es, SinceReset(es, n), n) + 1 >= es[n].threshold ==>
                  (CooledDown(h, now) <==> es[n].observedAt + es[n].cooldown <= now))
  {
    HealthFoldsHistory(es, n);
    assert es[..n + 1][..n] == es[..n];
    assert Run(es[..n + 1]) == Step(Run(es[..n]), es[n]);
    hide Run, NewestBefore, SinceReset, FailuresBetween;
  }

  /** An operator's recovery brings a proxy back at once, with a clean count, but invents no observation. */
  lemma RecoveryBringsBack(h: Health, now: Time)
    ensures var v := Step(h, Recovery);
            && v.status == Unknown && v.failures == 0 && v.cooldownUntil.None? && CooledDown(v, now)
            && v.version == h.version && v.lastObservedAt == h.lastObservedAt
            && v.lastSuccessAt == h.lastSuccessAt && v.lastFailureAt == h.lastFailureAt
  {
  }

  /** Selection uses a proxy only outside its cooldown and clears nothing but an expired cooldown. */
  lemma SelectionClearsOnlyCooldown(h: Health, now: Time)
    ensures var v := Step(h, Selection(now));
            if h.status == Cooldown && h.cooldownUntil.Some? && h.cooldownUntil.value <= now
            then v == h.(status := Unknown, cooldownUntil := None)
            else v == h
  {
  }
}

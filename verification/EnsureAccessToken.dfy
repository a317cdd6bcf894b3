/**
 * One call that has to come back with an access token: cache, claim, exchange, finalize, and one
 * retry after a lost race. Other writers act between its transactions; a script says what they do.
 */
module EnsureAccessToken {
  import opened Wrappers
  import opened TokenRepository
  import opened TokenProtocol

  datatype Reply = Success(accessToken: string, expiresIn: Time, issued: Option<string>, scope: Option<string>) | InvalidGrant | TransportFault

  /** What everybody else does around the transactions of one pass, and what Microsoft answers to it. */
  datatype Script = Script(
    beforeCacheRead: seq<Event>,
    beforeClaim: seq<Event>,
    duringExchange: seq<Event>,
    reply: Reply,
    afterFinalize: seq<Event>)

  /** Constants of the call; `fits` tests the audience of a cached token against the wanted mail channel. */
  datatype Call = Call(skew: nat, claimTtl: Time, skipLeaseCheck: bool, rtLeased: bool, fits: Row -> bool)

  datatype CallError = RefreshInProgress | ClaimRefused(error: ClaimError) | GrantRejected | ExchangeFailed | StaleAfterRetry

  datatype Outcome =
    | Cached(accessToken: string, version: int)
    | Refreshed(accessToken: string, version: int)
    | Failed(error: CallError)

  /** The events of all writers in order, how many exchanges this call made, and what it returned. */
  datatype Report = Report(trace: seq<Event>, exchanges: nat, outcome: Outcome)

  predicate CacheHit(w: World, call: Call) {
    Usable(w.row, w.now, call.skew) && call.fits(w.row)
  }

  function FromCache(w: World): Outcome
    requires w.row.accessToken.Some?
  {
    Cached(w.row.accessToken.value, w.row.tokenVersion)
  }

  function Prepend(trace: seq<Event>, exchanges: nat, rest: Report): Report {
    Report(trace + rest.trace, exchanges + rest.exchanges, rest.outcome)
  }

  /** Phase A: what the claiming transaction decides in `w`. */
  function Claiming(w: World, call: Call): Result<(Row, Claim), ClaimError> {
    InstallClaim(w.row, w.now, w.nextClaim, call.claimTtl, call.skipLeaseCheck, call.rtLeased)
  }

  function InstallEvent(call: Call): Event {
    Install(call.claimTtl, call.skipLeaseCheck, call.rtLeased)
  }

  function AnswerEvent(id: ClaimId, reply: Reply): Event {
    match reply
    case Success(at, expiresIn, issued, scope) => Answer(id, at, expiresIn, issued, scope)
    case InvalidGrant => Reject(id)
    case TransportFault => Fault(id)
  }

  function FinalEvent(id: ClaimId, reply: Reply): Event {
    match reply
    case Success(_, _, _, _) => Complete(id)
    case InvalidGrant => Invalidate(id)
    case TransportFault => Release(id)
  }

  /** What the finalizing transaction reports about `w`, in which the exchange has been answered. */
  function Completion(w: World, id: ClaimId): Option<int> {
    if CanComplete(w, id) then CompleteRefresh(w.row, w.workers[id].claim, GrantOf(w.workers[id])).1 else None
  }

  function Ensure(w: World, call: Call, force: bool, first: Script, retry: Option<Script>): Report
    decreases if retry.Some? then 1 else 0
  {
    var w0 := Run(w, first.beforeCacheRead);
    if !force && CacheHit(w0, call) then Report(first.beforeCacheRead, 0, FromCache(w0))
    else
      var toClaim := first.beforeCacheRead + first.beforeClaim;
      var w1 := Run(w, toClaim);
      if !force && CacheHit(w1, call) then Report(toClaim, 0, FromCache(w1))
      else
        match Claiming(w1, call)
        case Err(AlreadyClaimed(_)) =>
          Report(toClaim, 0, if CacheHit(w1, call) then FromCache(w1) else Failed(RefreshInProgress))
        case Err(error) => Report(toClaim, 0, Failed(ClaimRefused(error)))
        case Ok((_, claim)) =>
          var toAnswer := toClaim + [InstallEvent(call)] + first.duringExchange + [AnswerEvent(claim.id, first.reply)];
          var w2 := Run(w, toAnswer);
          var toFinal := toAnswer + [FinalEvent(claim.id, first.reply)];
          match first.reply
          case InvalidGrant => Report(toFinal, 1, Failed(GrantRejected))
          case TransportFault => Report(toFinal, 1, Failed(ExchangeFailed))
          case Success(at, _, _, _) =>
            var toEnd := toFinal + first.afterFinalize;
            var w3 := Run(w, toEnd);
            match Completion(w2, claim.id)
            case Some(_) =>
              Report(toEnd, 1,
                     Refreshed(if w3.row.accessToken.Some? then w3.row.accessToken.value else at, w3.row.tokenVersion))
            case None =>
              if CacheHit(w3, call) then Report(toEnd, 1, FromCache(w3))
              else if retry.Some? then Prepend(toEnd, 1, Ensure(w3, call, true, retry.value, None))
              else Report(toEnd, 1, Failed(StaleAfterRetry))
  }

  /** The world the call leaves behind. */
  function After(w: World, report: Report): World {
    Run(w, report.trace)
  }

  // ---------------------------------------------------------------------------------------------

  /** At most one exchange per pass, hence at most two in all. */
  lemma {:induction false} AtMostTwoExchanges(w: World, call: Call, force: bool, first: Script, retry: Option<Script>)
    ensures Ensure(w, call, force, first, retry).exchanges <= if retry.Some? then 2 else 1
    decreases if retry.Some? then 1 else 0
  {
    if retry.Some? {
      var toClaim := first.beforeCacheRead + first.beforeClaim;
      var w1 := Run(w, toClaim);
      if Claiming(w1, call).Ok? {
        var id := Claiming(w1, call).value.1.id;
        var toEnd := toClaim + [InstallEvent(call)] + first.duringExchange + [AnswerEvent(id, first.reply)]
                     + [FinalEvent(id, first.reply)] + first.afterFinalize;
        AtMostTwoExchanges(Run(w, toEnd), call, true, retry.value, None);
      }
    }
  }

  lemma CacheHitIsSound(v: World, call: Call)
    requires Inv(v)
    ensures CacheHit(v, call) ==>
              && v.row.accessToken.Some? && v.row.refreshToken.Some?
              && ComesFrom(v.exchanges, v.row.accessToken.value, v.row.refreshToken.value)
  {
  }

  /** A token taken from the cache has the stored version and a known origin, in the world the call leaves behind. */
  lemma {:induction false} CachedOutcomeIsSound(w: World, call: Call, force: bool, first: Script, retry: Option<Script>)
    requires Inv(w)
    ensures var report := Ensure(w, call, force, first, retry);
            var v := After(w, report);
            report.outcome.Cached? ==>
              && report.outcome.version == v.row.tokenVersion
              && v.row.accessToken == Some(report.outcome.accessToken)
              && Usable(v.row, v.now, call.skew)
              && v.row.refreshToken.Some?
              && ComesFrom(v.exchanges, report.outcome.accessToken, v.row.refreshToken.value)
    decreases if retry.Some? then 1 else 0
  {
    var v := After(w, Ensure(w, call, force, first, retry));
    RunKeepsInv(w, Ensure(w, call, force, first, retry).trace);
    CacheHitIsSound(v, call);
    hide Step, Claiming, Completion, Inv, Usable, ComesFrom;
    var toClaim := first.beforeCacheRead + first.beforeClaim;
    var w1 := Run(w, toClaim);
    if retry.Some? && Claiming(w1, call).Ok? {
      var id := Claiming(w1, call).value.1.id;
      var toEnd := toClaim + [InstallEvent(call)] + first.duringExchange + [AnswerEvent(id, first.reply)]
                   + [FinalEvent(id, first.reply)] + first.afterFinalize;
      var w3 := Run(w, toEnd);
      RunKeepsInv(w, toEnd);
      CachedOutcomeIsSound(w3, call, true, retry.value, None);
      RunSplits(w, toEnd, Ensure(w3, call, true, retry.value, None).trace);
    }
  }

  /** A lost race leaves the loser's own claim in place: nothing clears it when only the version moved. */
  lemma LostRaceKeepsOwnClaim(w: World, id: ClaimId)
    requires Inv(w) && CanComplete(w, id)
    requires w.row.claimId == Some(id) && w.row.tokenVersion != w.workers[id].claim.expectedVersion
    ensures Completion(w, id).None?
    ensures Step(w, Complete(id)) == w
  {
  }

  predicate Claims(w: World, call: Call, first: Script) {
    Claiming(Run(w, first.beforeCacheRead + first.beforeClaim), call).Ok?
  }

  function OwnClaim(w: World, call: Call, first: Script): Claim
    requires Claims(w, call, first)
  {
    Claiming(Run(w, first.beforeCacheRead + first.beforeClaim), call).value.1
  }

  /** The events up to the answer of the first exchange. */
  function AnswerTrace(w: World, call: Call, first: Script): seq<Event>
    requires Claims(w, call, first)
  {
    first.beforeCacheRead + first.beforeClaim + [InstallEvent(call)] + first.duringExchange
    + [AnswerEvent(OwnClaim(w, call, first).id, first.reply)]
  }

  /** The events up to the decision about a retry. */
  function LoserTrace(w: World, call: Call, first: Script): seq<Event>
    requires Claims(w, call, first)
  {
    AnswerTrace(w, call, first) + [FinalEvent(OwnClaim(w, call, first).id, first.reply)] + first.afterFinalize
  }

  /** The world of the retry's claiming transaction, if there is a retry. */
  function RetryWorld(w: World, call: Call, first: Script, retry: Script): World
    requires Claims(w, call, first)
  {
    Run(Run(w, LoserTrace(w, call, first)), retry.beforeCacheRead + retry.beforeClaim)
  }

  lemma StepKeepsClaimOf(w: World, e: Event, id: ClaimId)
    requires Inv(w) && id in w.workers
    ensures id in Step(w, e).workers && Step(w, e).workers[id].claim == w.workers[id].claim
  {
    assert WorkerOk(w, id);
  }

  lemma {:induction false} WorkerKeepsClaim(w: World, es: seq<Event>, id: ClaimId)
    requires Inv(w) && id in w.workers
    ensures id in Run(w, es).workers && Run(w, es).workers[id].claim == w.workers[id].claim
    decreases |es|
  {
    hide Inv, Step;
    if es != [] {
      StepKeepsInv(w, es[0]);
      StepKeepsClaimOf(w, es[0], id);
      WorkerKeepsClaim(Step(w, es[0]), es[1..], id);
    }
  }

  lemma Installed(w: World, call: Call)
    requires Claiming(w, call).Ok?
    ensures var v, claim := Step(w, InstallEvent(call)), Claiming(w, call).value.1;
            && Carries(v, claim.id) && v.workers[claim.id] == Worker(claim, InFlight)
            && claim.expiresAt == w.now + call.claimTtl
  {
  }

  lemma RunOfOne(w: World, e: Event, es: seq<Event>)
    ensures Run(w, [e] + es) == Run(Step(w, e), es)
    ensures Run(w, es + [e]) == Step(Run(w, es), e)
  {
    assert ([e] + es)[1..] == es;
    RunSplits(w, es, [e]);
    assert Run(Run(w, es), [e]) == Run(Step(Run(w, es), e), []);
  }

  /** The run of the first pass, transaction by transaction. */
  lemma AnswerWorld(w: World, call: Call, first: Script)
    requires Inv(w) && Claims(w, call, first)
    ensures OwnClaim(w, call, first).expiresAt == Run(w, first.beforeCacheRead + first.beforeClaim).now + call.claimTtl
    ensures var id := OwnClaim(w, call, first).id;
            var w1 := Step(Run(w, first.beforeCacheRead + first.beforeClaim), InstallEvent(call));
            var w2 := Run(w, AnswerTrace(w, call, first));
            && Inv(w1) && Carries(w1, id) && w1.workers[id] == Worker(OwnClaim(w, call, first), InFlight)
            && w2 == Step(Run(w1, first.duringExchange), AnswerEvent(id, first.reply))
            && Inv(w2) && id in w2.workers && w2.workers[id].claim == OwnClaim(w, call, first)
  {
    hide Step, Inv, Claiming, AnswerEvent;
    var toClaim := first.beforeCacheRead + first.beforeClaim;
    var w0, id := Run(w, toClaim), OwnClaim(w, call, first).id;
    var w1 := Step(w0, InstallEvent(call));
    var answer := AnswerEvent(id, first.reply);
    RunKeepsInv(w, toClaim);
    StepKeepsInv(w0, InstallEvent(call));
    Installed(w0, call);
    assert AnswerTrace(w, call, first) == toClaim + ([InstallEvent(call)] + (first.duringExchange + [answer]));
    RunSplits(w, toClaim, [InstallEvent(call)] + (first.duringExchange + [answer]));
    RunOfOne(w0, InstallEvent(call), first.duringExchange + [answer]);
    RunOfOne(w1, answer, first.duringExchange);
    RunKeepsInv(w1, first.duringExchange + [answer]);
    WorkerKeepsClaim(w1, first.duringExchange + [answer], id);
  }

  lemma NoExchangeUnderClaim(w: World, call: Call, script: Script, id: ClaimId)
    requires var w1 := Run(w, script.beforeCacheRead + script.beforeClaim);
             Inv(w1) && Carries(w1, id) && w1.now < w1.workers[id].claim.expiresAt
    ensures var report := Ensure(w, call, true, script, None);
            report.exchanges == 0 && !report.outcome.Refreshed?
  {
    hide Run, WorkerOk, ComesFrom;
  }

  /**
   * The retry after a lost race is stopped by the call's own claim until that claim runs out: if the version
   * moved during the exchange and the row still carries the claim, then whatever other writers do afterwards,
   * the call makes no second exchange before the claim's deadline; it returns a cached token or fails.
   */
  lemma RetryBlockedByOwnClaim(w: World, call: Call, force: bool, first: Script, retry: Script)
    requires Inv(w) && Claims(w, call, first) && first.reply.Success?
    requires LostButClaimed(Run(w, AnswerTrace(w, call, first)), OwnClaim(w, call, first).id)
    requires RetryWorld(w, call, first, retry).now < OwnClaim(w, call, first).expiresAt
    ensures var report := Ensure(w, call, force, first, Some(retry));
            report.exchanges <= 1 && !report.outcome.Refreshed?
  {
    var id := OwnClaim(w, call, first).id;
    var w2, w3 := Run(w, AnswerTrace(w, call, first)), Run(w, LoserTrace(w, call, first));
    var after, before := [Complete(id)] + first.afterFinalize, retry.beforeCacheRead + retry.beforeClaim;
    AnswerWorld(w, call, first);
    LostRaceKeepsOwnClaim(w2, id);
    assert LoserTrace(w, call, first) == AnswerTrace(w, call, first) + after;
    RunSplits(w, AnswerTrace(w, call, first), after);
    RunSplits(w2, after, before);
    ClaimStandsUntilDeadline(w2, after + before, id);
    RunKeepsInv(w2, after + before);
    NoExchangeUnderClaim(w3, call, retry, id);
    hide Run, Inv, Claiming, LostButClaimed, CacheHit, Completion;
  }

  lemma SecondExchangeFollowsLostRace(w: World, call: Call, force: bool, first: Script, retry: Script)
    ensures Ensure(w, call, force, first, Some(retry)).exchanges == 2 ==>
              && Claims(w, call, first) && first.reply.Success?
              && Completion(Run(w, AnswerTrace(w, call, first)), OwnClaim(w, call, first).id).None?
  {
    hide Run, Claiming, Completion, CacheHit;
  }

  /** An answered worker that cannot complete although the row carries its claim has lost to a newer version. */
  lemma AnsweredAndStuckMeansLost(w: World, id: ClaimId, reply: Reply)
    requires Inv(w) && Carries(w, id) && w.workers[id].phase.InFlight? && reply.Success?
    ensures var v := Step(w, AnswerEvent(id, reply)); Completion(v, id).None? ==> LostButClaimed(v, id)
  {
    assert WorkerOk(w, id);
  }

  lemma {:induction false} TimeNeverGoesBack(w: World, es: seq<Event>)
    ensures w.now <= Run(w, es).now
  {
    VersionDeterminesRefreshToken(w, es);
  }

  /**
   * Without anybody else acting for its worker, a call makes a second exchange only after the deadline of the
   * claim under which it made the first one.
   */
  lemma SecondExchangeOnlyAfterDeadline(w: World, call: Call, force: bool, first: Script, retry: Script)
    requires Inv(w)
    requires Claims(w, call, first) ==> Untouched(first.duringExchange, OwnClaim(w, call, first).id)
    ensures Ensure(w, call, force, first, Some(retry)).exchanges == 2 ==>
              Claims(w, call, first) && OwnClaim(w, call, first).expiresAt <= RetryWorld(w, call, first, retry).now
  {
    SecondExchangeFollowsLostRace(w, call, force, first, retry);
    if Ensure(w, call, force, first, Some(retry)).exchanges == 2 {
      var id := OwnClaim(w, call, first).id;
      var w1 := Step(Run(w, first.beforeCacheRead + first.beforeClaim), InstallEvent(call));
      var during, w2 := Run(w1, first.duringExchange), Run(w, AnswerTrace(w, call, first));
      var after, before := [Complete(id)] + first.afterFinalize, retry.beforeCacheRead + retry.beforeClaim;
      AnswerWorld(w, call, first);
      assert LoserTrace(w, call, first) == AnswerTrace(w, call, first) + after;
      RunSplits(w, AnswerTrace(w, call, first), after);
      TimeNeverGoesBack(w2, after);
      TimeNeverGoesBack(Run(w2, after), before);
      assert during.now == w2.now;
      if RetryWorld(w, call, first, retry).now < OwnClaim(w, call, first).expiresAt {
        ClaimStandsUntilDeadline(w1, first.duringExchange, id);
        RunKeepsInv(w1, first.duringExchange);
        AnsweredAndStuckMeansLost(during, id, first.reply);
        RetryBlockedByOwnClaim(w, call, force, first, retry);
        assert false;
      }
    }
  }

  lemma {:induction false} CacheStaysBound(w: World, es: seq<Event>)
    requires BoundToCurrent(w.row) && StoreCount(w, es) == 0
    ensures BoundToCurrent(Run(w, es).row)
    decreases |es|
  {
    if es != [] {
      CacheStaysBound(Step(w, es[0]), es[1..]);
    }
  }

  predicate ClearsCache(e: Event) {
    e.Swap? ==> e.clear
  }

  /** Whatever access token the row stores belongs to the stored version. */
  predicate CacheIsBound(row: Row) {
    row.accessToken.Some? ==> BoundToCurrent(row)
  }

  /** No writer but a swap that keeps the cache leaves an access token behind under a version it does not belong to. */
  lemma {:induction false} CacheStaysBoundOrEmpty(w: World, es: seq<Event>)
    requires CacheIsBound(w.row) && forall i :: 0 <= i < |es| ==> ClearsCache(es[i])
    ensures CacheIsBound(Run(w, es).row)
    decreases |es|
  {
    if es != [] {
      CacheStaysBoundOrEmpty(Step(w, es[0]), es[1..]);
    }
  }

  lemma {:induction false} RefreshedReadsRow(w: World, call: Call, force: bool, first: Script, retry: Option<Script>)
    ensures var report := Ensure(w, call, force, first, retry);
            var row := After(w, report).row;
            report.outcome.Refreshed? ==>
              && report.outcome.version == row.tokenVersion
              && (row.accessToken.Some? ==> row.accessToken == Some(report.outcome.accessToken))
    decreases if retry.Some? then 1 else 0
  {
    hide Step, Claiming, Completion, CacheHit;
    var toClaim := first.beforeCacheRead + first.beforeClaim;
    var w1 := Run(w, toClaim);
    if retry.Some? && Claiming(w1, call).Ok? {
      var id := Claiming(w1, call).value.1.id;
      var toEnd := toClaim + [InstallEvent(call)] + first.duringExchange + [AnswerEvent(id, first.reply)]
                   + [FinalEvent(id, first.reply)] + first.afterFinalize;
      var w3 := Run(w, toEnd);
      RefreshedReadsRow(w3, call, true, retry.value, None);
      RunSplits(w, toEnd, Ensure(w3, call, true, retry.value, None).trace);
    }
  }

  /** The row stores this access token for this version. */
  predicate PairIsBound(row: Row, accessToken: string, version: int) {
    row.accessToken == Some(accessToken) && row.sourceVersion == Some(version) && row.tokenVersion == version
  }

  /**
   * After its own exchange the call re-reads the row. The pair of access token and version it returns is bound
   * exactly if the re-read row still stores an access token, and then the token is of the stored refresh token.
   */
  lemma RefreshedPairIsBoundIff(w: World, call: Call, force: bool, first: Script, retry: Option<Script>)
    requires Inv(w) && CacheIsBound(w.row)
    requires var trace := Ensure(w, call, force, first, retry).trace; forall i :: 0 <= i < |trace| ==> ClearsCache(trace[i])
    ensures var report := Ensure(w, call, force, first, retry);
            var v := After(w, report);
            report.outcome.Refreshed? ==>
              && (PairIsBound(v.row, report.outcome.accessToken, report.outcome.version) <==> v.row.accessToken.Some?)
              && (v.row.accessToken.Some? ==>
                    v.row.refreshToken.Some? && ComesFrom(v.exchanges, report.outcome.accessToken, v.row.refreshToken.value))
  {
    var report := Ensure(w, call, force, first, retry);
    RefreshedReadsRow(w, call, force, first, retry);
    CacheStaysBoundOrEmpty(w, report.trace);
    RunKeepsInv(w, report.trace);
    hide Ensure, ComesFrom, Run;
  }

  /** In particular the pair is bound if nobody stored a refresh token after the finalizing transaction. */
  lemma PairIsBoundWithoutLaterStore(w: World, call: Call, first: Script)
    requires Inv(w) && Claims(w, call, first) && first.reply.Success?
    requires var w2, id := Run(w, AnswerTrace(w, call, first)), OwnClaim(w, call, first).id;
             Completion(w2, id).Some? && StoreCount(Step(w2, Complete(id)), first.afterFinalize) == 0
    ensures var report := Ensure(w, call, true, first, None);
            report.outcome.Refreshed? && PairIsBound(After(w, report).row, report.outcome.accessToken, report.outcome.version)
  {
    var id := OwnClaim(w, call, first).id;
    var w2 := Run(w, AnswerTrace(w, call, first));
    AnswerWorld(w, call, first);
    CompletionResultIsSound(w2, id);
    CacheStaysBound(Step(w2, Complete(id)), first.afterFinalize);
    assert LoserTrace(w, call, first) == AnswerTrace(w, call, first) + ([Complete(id)] + first.afterFinalize);
    RunSplits(w, AnswerTrace(w, call, first), [Complete(id)] + first.afterFinalize);
    RunOfOne(w2, Complete(id), first.afterFinalize);
    RefreshedReadsRow(w, call, true, first, None);
    hide Run, Inv, Claiming, CompleteRefresh;
  }

  const ExampleAnswer := Answer(0, "at", 3600, None, None)
  const ExampleReplace := Replace("client", "new")

  function ExampleWorld(): World {
    World(0, Row(Active, Some("client"), Some("old"), None, None, 1, None, None, None, None, None, None, None), map[], 0, {}, {}, {})
  }

  lemma ExampleSteps(call: Call)
    requires call.claimTtl == 45 && call.skipLeaseCheck
    ensures var w := ExampleWorld();
            var w2 := Step(Step(w, InstallEvent(call)), ExampleAnswer);
            var w4 := Step(Step(w2, Complete(0)), ExampleReplace);
            && Claiming(w, call).Ok? && Claiming(w, call).value.1.id == 0 && Completion(w2, 0).Some?
            && w4.row.refreshToken == Some("new") && w4.row.accessToken == None && w4.row.tokenVersion == 2
            && w4.exchanges == {Exchange("old", "at", None)}
  {
    var w := ExampleWorld();
    var w1 := Step(w, InstallEvent(call));
    assert InPhase(w1, 0, InFlight) && w1.row.claimId == Some(0) && w1.row.tokenVersion == 1;
    assert w1.workers[0].claim.expectedVersion == 1 && w1.workers[0].claim.id == 0 && w1.workers[0].claim.refreshToken == "old";
  }

  lemma RunOfTwo(w: World, e: Event, f: Event)
    ensures Run(w, [e, f]) == Step(Step(w, e), f)
  {
    assert [e, f][1..] == [f] && [f][1..] == [];
    assert Run(Step(w, e), [f]) == Run(Step(Step(w, e), f), []);
  }

  /** The other case is real: a replace between the finalizing transaction and the re-read. */
  lemma RefreshedPairCanBeUnbound() returns (w: World, call: Call, first: Script)
    ensures Init(w)
    ensures var report := Ensure(w, call, true, first, None);
            && report.outcome == Refreshed("at", 2)
            && After(w, report).row.refreshToken == Some("new")
            && !ComesFrom(After(w, report).exchanges, "at", "new")
  {
    hide Step, Claiming, Completion;
    w := ExampleWorld();
    call := Call(0, 45, true, false, (_: Row) => true);
    first := Script([], [], [], Success("at", 3600, None, None), [ExampleReplace]);
    ExampleSteps(call);
    var w2 := Step(Step(w, InstallEvent(call)), ExampleAnswer);
    RunOfTwo(w, InstallEvent(call), ExampleAnswer);
    RunOfTwo(w2, Complete(0), ExampleReplace);
    var toAnswer := [InstallEvent(call), ExampleAnswer];
    var rest := [Complete(0), ExampleReplace];
    RunSplits(w, toAnswer, rest);
    assert [] + [InstallEvent(call)] + [] + [ExampleAnswer] == toAnswer;
    assert toAnswer + [Complete(0)] + [ExampleReplace] == toAnswer + rest;
    assert Run(w, []) == w;
    hide Run;
    assert Ensure(w, call, true, first, None) == Report(toAnswer + rest, 1, Refreshed("at", 2));
  }
}

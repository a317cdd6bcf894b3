/** What single events and single calls achieve, column by column. */
module TokenOutcomes {
  import opened Wrappers
  import opened TokenRepository
  import opened TokenProtocol
  import opened EnsureAccessToken

  // -------------------------------------------------------------------------------------- claiming

  /** Nobody has to be respected, and there is something to exchange. */
  predicate Claimable(row: Row, now: Time) {
    && row.status != Invalid
    && row.clientId.Some? && row.clientId.value != "" && row.refreshToken.Some?
    && !(row.claimId.Some? && row.claimExpiresAt.Some? && now < row.claimExpiresAt.value)
  }

  /**
   * A refresh begins exactly on a claimable mailbox, in the background only without a refresh-token lease. It takes
   * along the stored credentials and version, and changes nothing but the claim.
   */
  lemma RefreshBeginsIff(w: World, ttl: Time, skip: bool, leased: bool)
    ensures var v := Step(w, Install(ttl, skip, leased));
            var id := w.nextClaim;
            if Claimable(w.row, w.now) && (skip || !leased) then
              && v == w.(row := v.row, workers := v.workers, nextClaim := id + 1)
              && v.row == w.row.(claimId := Some(id), claimExpiresAt := Some(w.now + ttl))
              && id in v.workers && v.workers == w.workers[id := v.workers[id]] && v.workers[id].phase == InFlight
              && v.workers[id].claim.id == id && v.workers[id].claim.expiresAt == w.now + ttl
              && Some(v.workers[id].claim.clientId) == w.row.clientId
              && Some(v.workers[id].claim.refreshToken) == w.row.refreshToken
              && v.workers[id].claim.expectedVersion == w.row.tokenVersion
            else v == w
  {
  }

  /** An invalid mailbox is not exchanged any more and stays invalid until its credentials are replaced. */
  lemma {:induction false} InvalidRests(w: World, es: seq<Event>)
    requires w.row.status == Invalid && forall i :: 0 <= i < |es| ==> !es[i].Replace?
    ensures Run(w, es).row.status == Invalid && Run(w, es).nextClaim == w.nextClaim
    decreases |es|
  {
    if es != [] {
      assert Step(w, es[0]).row.status == Invalid && Step(w, es[0]).nextClaim == w.nextClaim;
      hide Step;
      InvalidRests(Step(w, es[0]), es[1..]);
    }
  }

  /** The replacement makes it usable again at once, with the new credentials, unless a claim still lives. */
  lemma ReplacementRevives(w: World, client: string, token: string)
    requires client != ""
    ensures var v := Step(w, Replace(client, token));
            && v == w.(row := v.row)
            && v.row.status == Active && v.row.clientId == Some(client) && v.row.refreshToken == Some(token)
            && v.row.tokenVersion == w.row.tokenVersion + 1 && v.row.refreshTokenExpiresAt == Some(w.now + REFRESH_TOKEN_LIFETIME)
            && v.row.accessToken.None? && v.row.sourceVersion.None? && v.row.accessTokenExpiresAt.None? && v.row.scope.None?
            && v.row.claimId == w.row.claimId && v.row.claimExpiresAt == w.row.claimExpiresAt
            && (Claimable(v.row, v.now) <==> !(w.row.claimId.Some? && w.row.claimExpiresAt.Some? && w.now < w.row.claimExpiresAt.value))
  {
  }

  // ------------------------------------------------------------------------------------ finalizing

  /** Claim and version are still those the worker set out with. */
  predicate StillHeld(w: World, id: ClaimId) {
    id in w.workers && w.row.claimId == Some(id) && w.row.tokenVersion == w.workers[id].claim.expectedVersion
  }

  /**
   * A worker that still holds the mailbox stores what it was given: the access token with its expiry, and a refresh
   * token exactly if a new, different one was issued; only then does the version move.
   */
  lemma CompletionStoresWhatWasIssued(w: World, id: ClaimId)
    requires Inv(w) && CanComplete(w, id) && StillHeld(w, id)
    ensures var x, t := w.workers[id].phase.exchange, w.workers[id].phase.startedAt;
            var v := Step(w, Complete(id));
            && v == w.(row := v.row)
            && (if x.issued.Some? && x.issued.value != "" && x.issued.value != x.used
                then v.row.refreshToken == x.issued && v.row.tokenVersion == w.row.tokenVersion + 1
                else v.row.refreshToken == w.row.refreshToken && v.row.tokenVersion == w.row.tokenVersion)
            && v.row.refreshTokenUpdatedAt == Some(t) && v.row.refreshTokenExpiresAt == Some(t + 90 * 86400)
            && v.row.accessToken == Some(x.accessToken) && v.row.sourceVersion == Some(v.row.tokenVersion)
            && v.row.accessTokenExpiresAt == Some(t + w.workers[id].phase.expiresIn) && v.row.accessTokenRefreshedAt == Some(t)
            && v.row.scope == w.workers[id].phase.scope
            && v.row.claimId.None? && v.row.claimExpiresAt.None?
            && v.row.status == w.row.status && v.row.clientId == w.row.clientId
  {
    assert WorkerOk(w, id);
    hide Inv, ComesFrom;
  }

  /** A held rejection makes the mailbox invalid and gives the claim back; the tokens stay for inspection. */
  lemma RejectionInvalidates(w: World, id: ClaimId)
    requires Inv(w) && StillHeld(w, id) && w.workers[id].phase == Rejected
    ensures Step(w, Invalidate(id)) == w.(row := w.row.(status := Invalid, claimId := None, claimExpiresAt := None))
  {
    assert WorkerOk(w, id);
    hide Inv, ComesFrom;
  }

  /** Any other failure gives the claim back and changes nothing else, whatever happened to the version. */
  lemma FaultGivesClaimBack(w: World, id: ClaimId)
    requires Inv(w) && id in w.workers && w.row.claimId == Some(id) && w.workers[id].phase == Faulted
    ensures Step(w, Release(id)) == w.(row := w.row.(claimId := None, claimExpiresAt := None))
  {
    assert WorkerOk(w, id);
    hide Inv, ComesFrom;
  }

  /** A completion that is reported twice is answered the same, and writes once. */
  lemma RepeatedCompletionAnswersTheSame(w: World, id: ClaimId)
    requires Inv(w) && CanComplete(w, id) && StillHeld(w, id)
    ensures var v := Step(w, Complete(id));
            && Completion(w, id).Some? && Completion(v, id) == Completion(w, id)
            && Step(v, Complete(id)) == v && Completion(w, id) == Some(v.row.tokenVersion)
  {
    assert WorkerOk(w, id);
  }

  /** An answer is recorded together with the token that was used, and with its time; the row is not touched. */
  lemma AnswerIsRecorded(w: World, id: ClaimId, at: string, expiresIn: Time, issued: Option<string>, scope: Option<string>)
    requires id in w.workers && w.workers[id].phase == InFlight
    ensures var x := Exchange(w.workers[id].claim.refreshToken, at, issued);
            Step(w, Answer(id, at, expiresIn, issued, scope)) ==
              w.(workers := w.workers[id := Worker(w.workers[id].claim, Granted(x, w.now, expiresIn, scope))], exchanges := w.exchanges + {x})
  {
  }

  /** One undisturbed refresh from claim to row, with time passing before and after the answer. */
  lemma RefreshEndToEnd(w: World, ttl: Time, d: nat, at: string, expiresIn: Time, issued: Option<string>, scope: Option<string>, e: nat)
    requires Inv(w) && Claimable(w.row, w.now)
    ensures var id := w.nextClaim;
            var w1 := Step(Step(w, Install(ttl, true, false)), Tick(d));
            var v := Step(Step(Step(w1, Answer(id, at, expiresIn, issued, scope)), Tick(e)), Complete(id));
            var rotated := issued.Some? && issued.value != "" && issued != w.row.refreshToken;
            && v.row.refreshToken == (if rotated then issued else w.row.refreshToken)
            && v.row.tokenVersion == w.row.tokenVersion + (if rotated then 1 else 0)
            && v.row.accessToken == Some(at) && v.row.sourceVersion == Some(v.row.tokenVersion)
            && v.row.accessTokenExpiresAt == Some(w.now + d + expiresIn) && v.row.claimId.None?
            && v.exchanges == w.exchanges + {Exchange(w.row.refreshToken.value, at, issued)}
  {
    hide Step, Inv;
    var id := w.nextClaim;
    var answer := Answer(id, at, expiresIn, issued, scope);
    RefreshBeginsIff(w, ttl, true, false);
    var claimed := Step(w, Install(ttl, true, false));
    var waited := Step(claimed, Tick(d));
    TickIsTime(claimed, d);
    AnswerIsRecorded(waited, id, at, expiresIn, issued, scope);
    var answered := Step(waited, answer);
    TickIsTime(answered, e);
    StepKeepsInv(w, Install(ttl, true, false));
    StepKeepsInv(claimed, Tick(d));
    StepKeepsInv(waited, answer);
    StepKeepsInv(answered, Tick(e));
    CompletionStoresWhatWasIssued(Step(answered, Tick(e)), id);
  }

  lemma TickIsTime(w: World, d: nat)
    ensures Step(w, Tick(d)) == w.(now := w.now + d)
  {
  }

  // ---------------------------------------------------------------------------------- other writers

  /** A swap stores its token exactly under the expected version. */
  lemma SwapStoresIff(w: World, expected: int, token: string, clear: bool)
    ensures var v := Step(w, Swap(expected, token, clear));
            if w.row.tokenVersion != expected then v == w
            else
              && v == w.(row := v.row)
              && v.row.refreshToken == Some(token) && v.row.tokenVersion == expected + 1
              && v.row.refreshTokenUpdatedAt == Some(w.now) && v.row.refreshTokenExpiresAt == Some(w.now + REFRESH_TOKEN_LIFETIME)
              && (if clear then v.row.accessToken.None? && v.row.sourceVersion.None? && v.row.accessTokenExpiresAt.None?
                  else v.row.accessToken == w.row.accessToken && v.row.sourceVersion == w.row.sourceVersion)
              && v.row.status == w.row.status && v.row.clientId == w.row.clientId
              && v.row.claimId == w.row.claimId && v.row.claimExpiresAt == w.row.claimExpiresAt
  {
  }

  /** A lease holder's token is stored exactly on an active mailbox, under the expected version, and if it is a different one. */
  lemma WriteBackStoresIff(w: World, expected: int, token: string)
    requires w.row.refreshToken.Some?
    ensures var v := Step(w, LeaseWriteBack(expected, token));
            if w.row.status == Active && w.row.tokenVersion == expected && w.row.refreshToken.value != token then
              && v == w.(row := v.row)
              && v.row.refreshToken == Some(token) && v.row.tokenVersion == expected + 1 && v.row.accessToken.None?
              && v.row.refreshTokenUpdatedAt == Some(w.now) && v.row.refreshTokenExpiresAt == Some(w.now + REFRESH_TOKEN_LIFETIME)
              && v.row.status == Active && v.row.clientId == w.row.clientId
              && v.row.claimId == w.row.claimId && v.row.claimExpiresAt == w.row.claimExpiresAt
            else v == w
    ensures var r := WriteBack(w.row, expected, token, w.now, w.now).1;
            && (r.MailboxUnavailable? <==> w.row.status != Active)
            && (r.VersionConflict? <==> w.row.status == Active && w.row.tokenVersion != expected)
            && (r.Unchanged? ==> r.version == w.row.tokenVersion) && (r.Updated? ==> r.version == w.row.tokenVersion + 1)
  {
  }

  /**
   * A lease holder who was handed the token may write a new one back under the version it came with, however long it
   * takes, as long as nobody else has stored one and the mailbox is active; and the pair it was handed is on record.
   */
  lemma HolderMayWriteBack(w: World, es: seq<Event>, token: string)
    requires w.row.refreshToken.Some? && w.row.refreshToken.value != token
    requires var w1 := Step(w, DeliverToLease); StoreCount(w1, es) == 0 && Run(w1, es).row.status == Active
    ensures Step(w, DeliverToLease) == w.(leased := w.leased + {(w.row.tokenVersion, w.row.refreshToken.value)})
    ensures var v := Step(Run(Step(w, DeliverToLease), es), LeaseWriteBack(w.row.tokenVersion, token));
            v.row.refreshToken == Some(token) && v.row.tokenVersion == w.row.tokenVersion + 1
  {
    var w1 := Step(w, DeliverToLease);
    assert w1 == w.(leased := w.leased + {(w.row.tokenVersion, w.row.refreshToken.value)});
    VersionCountsStores(w1, es);
    VersionDeterminesRefreshToken(w1, es);
    hide Step, StoreCount;
    WriteBackStoresIff(Run(w1, es), w.row.tokenVersion, token);
  }

  // ------------------------------------------------------------------------------------ whole calls

  /** The row stores an access token of its own version that lives longer than the safety margin and fits the purpose. */
  predicate Fresh(w: World, call: Call) {
    && w.row.accessToken.Some? && w.row.sourceVersion == Some(w.row.tokenVersion)
    && w.row.accessTokenExpiresAt.Some? && w.row.accessTokenExpiresAt.value > w.now + call.skew
    && call.fits(w.row)
  }

  /** A call that is not forced is served from a fresh cache without any exchange. */
  lemma FreshCacheIsServed(w: World, call: Call, first: Script, retry: Option<Script>)
    requires Fresh(Run(w, first.beforeCacheRead), call)
    ensures var w0 := Run(w, first.beforeCacheRead);
            Ensure(w, call, false, first, retry) ==
              Report(first.beforeCacheRead, 0, Cached(w0.row.accessToken.value, w0.row.tokenVersion))
  {
  }

  /** So is one whose cache was filled by somebody else before its claiming transaction. */
  lemma CacheFilledMeanwhileIsServed(w: World, call: Call, first: Script, retry: Option<Script>)
    requires !Fresh(Run(w, first.beforeCacheRead), call) && Fresh(Run(w, first.beforeCacheRead + first.beforeClaim), call)
    ensures var w1 := Run(w, first.beforeCacheRead + first.beforeClaim);
            Ensure(w, call, false, first, retry) ==
              Report(first.beforeCacheRead + first.beforeClaim, 0, Cached(w1.row.accessToken.value, w1.row.tokenVersion))
  {
  }

  /** The first pass has exchanged a token and found itself overtaken. */
  predicate Overtaken(w: World, call: Call, first: Script) {
    && Claims(w, call, first) && first.reply.Success?
    && var w2, id := Run(w, AnswerTrace(w, call, first)), OwnClaim(w, call, first).id;
       id in w2.workers && w2.row.claimId.Some? && !(w2.row.claimId == Some(id) && w2.row.tokenVersion == w2.workers[id].claim.expectedVersion)
  }

  /**
   * An overtaken call is served by the winner's token if that is fresh. Otherwise it tries once more, forced, if it
   * may, and makes its second exchange exactly if the mailbox is claimable by then; a call that may not retry fails.
   */
  lemma OvertakenCallEnds(w: World, call: Call, first: Script, retry: Option<Script>)
    requires Inv(w) && Overtaken(w, call, first)
    ensures var report, w3 := Ensure(w, call, true, first, retry), Run(w, LoserTrace(w, call, first));
            if Fresh(w3, call) then report == Report(LoserTrace(w, call, first), 1, Cached(w3.row.accessToken.value, w3.row.tokenVersion))
            else if retry.None? then report == Report(LoserTrace(w, call, first), 1, Failed(StaleAfterRetry))
            else
              var w4 := RetryWorld(w, call, first, retry.value);
              report.exchanges == if Claimable(w4.row, w4.now) && (call.skipLeaseCheck || !call.rtLeased) then 2 else 1
  {
    AnswerWorld(w, call, first);
    OvertakenCannotComplete(w, call, first);
    var w3 := Run(w, LoserTrace(w, call, first));
    if retry.Some? {
      OneMorePass(w3, call, retry.value);
    }
    hide Step, Run, Claiming, Completion, Inv, Claimable;
  }

  lemma OvertakenCannotComplete(w: World, call: Call, first: Script)
    requires Inv(w) && Overtaken(w, call, first)
    ensures Completion(Run(w, AnswerTrace(w, call, first)), OwnClaim(w, call, first).id).None?
  {
    var w2, id := Run(w, AnswerTrace(w, call, first)), OwnClaim(w, call, first).id;
    AnswerWorld(w, call, first);
    assert WorkerOk(w2, id);
    hide Step, Run, Claiming, Inv;
  }

  lemma OneMorePass(w: World, call: Call, script: Script)
    ensures var w1 := Run(w, script.beforeCacheRead + script.beforeClaim);
            Ensure(w, call, true, script, None).exchanges
            == if Claimable(w1.row, w1.now) && (call.skipLeaseCheck || !call.rtLeased) then 1 else 0
  {
  }

  /** Whatever a call returns from the cache is fresh. */
  lemma {:induction false} CachedOutcomeIsFresh(w: World, call: Call, force: bool, first: Script, retry: Option<Script>)
    ensures var report := Ensure(w, call, force, first, retry);
            report.outcome.Cached? ==> Fresh(After(w, report), call)
    decreases if retry.Some? then 1 else 0
  {
    hide Step, Claiming, Completion;
    if retry.Some? && Claims(w, call, first) {
      var w3 := Run(w, LoserTrace(w, call, first));
      CachedOutcomeIsFresh(w3, call, true, retry.value, None);
      RunSplits(w, LoserTrace(w, call, first), Ensure(w3, call, true, retry.value, None).trace);
    }
  }

  /** While somebody else's claim lives, a call makes no exchange; it is served by the winner's token if there is a fresh one. */
  lemma BusyCallWaits(w: World, call: Call, first: Script, retry: Option<Script>)
    requires var w1 := Run(w, first.beforeCacheRead + first.beforeClaim);
             && w1.row.status != Invalid && w1.row.clientId.Some? && w1.row.clientId.value != "" && w1.row.refreshToken.Some?
             && w1.row.claimId.Some? && w1.row.claimExpiresAt.Some? && w1.now < w1.row.claimExpiresAt.value
    ensures var w1 := Run(w, first.beforeCacheRead + first.beforeClaim);
            Ensure(w, call, true, first, retry) ==
              Report(first.beforeCacheRead + first.beforeClaim, 0,
                   if Fresh(w1, call) then Cached(w1.row.accessToken.value, w1.row.tokenVersion) else Failed(RefreshInProgress))
  {
  }

  /** A call that is refused for another reason makes no exchange either and says why. */
  lemma RefusedCallSaysWhy(w: World, call: Call, first: Script, retry: Option<Script>)
    requires var w1 := Run(w, first.beforeCacheRead + first.beforeClaim);
             w1.row.status == Invalid || (Claimable(w1.row, w1.now) && !call.skipLeaseCheck && call.rtLeased)
    ensures var w1 := Run(w, first.beforeCacheRead + first.beforeClaim);
            Ensure(w, call, true, first, retry) ==
              Report(first.beforeCacheRead + first.beforeClaim, 0,
                   Failed(ClaimRefused(if w1.row.status == Invalid then MailboxInvalid else RefreshTokenLeased)))
  {
  }

  /** The world in which the first exchange is answered, just before the answer. */
  function Asking(w: World, call: Call, first: Script): World {
    Run(Step(Run(w, first.beforeCacheRead + first.beforeClaim), InstallEvent(call)), first.duringExchange)
  }

  /** Each kind of answer is recorded with its worker and leaves the row alone. */
  lemma ReplyIsRecorded(w: World, id: ClaimId, reply: Reply)
    requires id in w.workers && w.workers[id].phase == InFlight
    ensures var v := Step(w, AnswerEvent(id, reply));
            && v.row == w.row && v.now == w.now && id in v.workers && v.workers[id].claim == w.workers[id].claim
            && match reply
               case Success(at, expiresIn, issued, scope) =>
                 && v.workers[id].phase == Granted(Exchange(w.workers[id].claim.refreshToken, at, issued), w.now, expiresIn, scope)
                 && v.exchanges == w.exchanges + {Exchange(w.workers[id].claim.refreshToken, at, issued)}
               case InvalidGrant =>
                 v.workers[id].phase == Rejected && v.rejected == w.rejected + {w.workers[id].claim.refreshToken} && v.exchanges == w.exchanges
               case TransportFault =>
                 v.workers[id].phase == Faulted && v.exchanges == w.exchanges && v.rejected == w.rejected
  {
  }

  /** A forced call whose claim still stands when the answer arrives: one exchange, and exactly what the answer means for the row. */
  lemma HeldCallEnds(w: World, call: Call, first: Script, retry: Option<Script>)
    requires Inv(w) && Claims(w, call, first) && first.afterFinalize == []
    requires var w1, id := Asking(w, call, first), OwnClaim(w, call, first).id;
             StillHeld(w1, id) && w1.workers[id].phase == InFlight
    ensures var report := Ensure(w, call, true, first, retry);
            var row, v := Asking(w, call, first).row, After(w, report);
            && report.exchanges == 1
            && match first.reply
               case Success(at, expiresIn, issued, _) =>
                 && report.outcome == Refreshed(at, v.row.tokenVersion)
                 && v.row.accessToken == Some(at) && v.row.accessTokenExpiresAt == Some(v.now + expiresIn) && v.row.claimId.None?
                 && (issued.Some? && issued.value != "" && issued != row.refreshToken ==>
                       v.row.refreshToken == issued && v.row.tokenVersion == row.tokenVersion + 1)
               case InvalidGrant =>
                 report.outcome == Failed(GrantRejected) && v.row == row.(status := Invalid, claimId := None, claimExpiresAt := None)
               case TransportFault =>
                 report.outcome == Failed(ExchangeFailed) && v.row == row.(claimId := None, claimExpiresAt := None)
  {
    var w1, id := Asking(w, call, first), OwnClaim(w, call, first).id;
    var final := FinalEvent(id, first.reply);
    HeldUntilAnswer(w, call, first);
    CallAfterAnswer(w, call, first, retry);
    hide *;
    var w2 := Run(w, AnswerTrace(w, call, first));
    ReplyIsRecorded(w1, id, first.reply);
    match first.reply
    case Success(_, _, _, _) =>
      CompletionStoresWhatWasIssued(w2, id);
      RepeatedCompletionAnswersTheSame(w2, id);
    case InvalidGrant => RejectionInvalidates(w2, id);
    case TransportFault => FaultGivesClaimBack(w2, id);
  }

  lemma HeldUntilAnswer(w: World, call: Call, first: Script)
    requires Inv(w) && Claims(w, call, first)
    requires var w1, id := Asking(w, call, first), OwnClaim(w, call, first).id;
             StillHeld(w1, id) && w1.workers[id].phase == InFlight
    ensures var w1, w2, id := Asking(w, call, first), Run(w, AnswerTrace(w, call, first)), OwnClaim(w, call, first).id;
            && w2 == Step(w1, AnswerEvent(id, first.reply)) && Inv(w2) && StillHeld(w2, id)
            && (first.reply.Success? ==> CanComplete(w2, id))
            && w1.row.refreshToken == Some(w1.workers[id].claim.refreshToken)
  {
    var w1, id := Asking(w, call, first), OwnClaim(w, call, first).id;
    AnswerWorld(w, call, first);
    ReplyIsRecorded(w1, id, first.reply);
    RunKeepsInv(Step(Run(w, first.beforeCacheRead + first.beforeClaim), InstallEvent(call)), first.duringExchange);
    assert WorkerOk(w1, id);
    hide Step, Run, Claiming, Completion, Inv, AnswerEvent, ComesFrom;
  }

  lemma CallAfterAnswer(w: World, call: Call, first: Script, retry: Option<Script>)
    requires Claims(w, call, first) && first.afterFinalize == []
    ensures var w2, id := Run(w, AnswerTrace(w, call, first)), OwnClaim(w, call, first).id;
            var report, v := Ensure(w, call, true, first, retry), Step(w2, FinalEvent(id, first.reply));
            && (first.reply.Success? && Completion(w2, id).Some? ==>
                  && report.exchanges == 1 && After(w, report) == Step(w2, Complete(id))
                  && report.outcome == Refreshed(if v.row.accessToken.Some? then v.row.accessToken.value else first.reply.accessToken, v.row.tokenVersion))
            && (first.reply.InvalidGrant? ==>
                  report.exchanges == 1 && After(w, report) == Step(w2, Invalidate(id)) && report.outcome == Failed(GrantRejected))
            && (first.reply.TransportFault? ==>
                  report.exchanges == 1 && After(w, report) == Step(w2, Release(id)) && report.outcome == Failed(ExchangeFailed))
  {
    var final := FinalEvent(OwnClaim(w, call, first).id, first.reply);
    RunOfOne(w, final, AnswerTrace(w, call, first));
    assert LoserTrace(w, call, first) == AnswerTrace(w, call, first) + [final];
    hide Step, Run, Claiming, Completion;
  }
}

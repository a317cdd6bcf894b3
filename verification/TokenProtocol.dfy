/**
 * All the writers of one mailbox's token columns, interleaved at transaction boundaries.
 * The exchange with Microsoft is a separate event, outside any transaction.
 */
module TokenProtocol {
  import opened Wrappers
  import opened TokenRepository

  /** One successful call of the token endpoint (section 6 of RFC 6749). */
  datatype Exchange = Exchange(used: string, accessToken: string, issued: Option<string>)

  datatype Phase = InFlight | Granted(exchange: Exchange, startedAt: Time, expiresIn: Time, scope: Option<string>) | Rejected | Faulted

  datatype Worker = Worker(claim: Claim, phase: Phase)

  /**
   * `exchanges` and `rejected` record what Microsoft answered; `leased` records the (version,
   * refresh token) pairs handed to lease holders. No step reads them.
   */
  datatype World = World(
    now: Time,
    row: Row,
    workers: map<ClaimId, Worker>,
    nextClaim: ClaimId,
    exchanges: set<Exchange>,
    rejected: set<string>,
    leased: set<(int, string)>)

  datatype Event =
    | Tick(seconds: nat)
    | Install(ttl: Time, skipLeaseCheck: bool, rtLeased: bool)
    | Answer(id: ClaimId, accessToken: string, expiresIn: Time, issued: Option<string>, scope: Option<string>)
    | Reject(id: ClaimId)
    | Fault(id: ClaimId)
    | Complete(id: ClaimId)
    | Invalidate(id: ClaimId)
    | Release(id: ClaimId)
    | DeliverToLease
    | LeaseWriteBack(expected: int, token: string)
    | Replace(clientId: string, token: string)
    | Swap(expected: int, token: string, clear: bool)

  const REFRESH_TOKEN_LIFETIME: Time := 90 * 86400

  /** A returned refresh token counts as a rotation only if it is a different one. */
  function Rotation(used: string, issued: Option<string>): Option<string> {
    if HasText(issued) && issued.value != used then issued else None
  }

  function GrantOf(worker: Worker): Grant
    requires worker.phase.Granted?
  {
    var g := worker.phase;
    Grant(g.exchange.accessToken, g.startedAt + g.expiresIn, g.startedAt, g.scope,
          Rotation(worker.claim.refreshToken, g.exchange.issued), g.startedAt + REFRESH_TOKEN_LIFETIME)
  }

  predicate InPhase(w: World, id: ClaimId, phase: Phase) {
    id in w.workers && w.workers[id].phase == phase
  }

  predicate CanComplete(w: World, id: ClaimId) {
    id in w.workers && w.workers[id].phase.Granted?
  }

  function Answered(w: World, id: ClaimId, phase: Phase): World
    requires id in w.workers
  {
    w.(workers := w.workers[id := w.workers[id].(phase := phase)])
  }

  /** One event; an event that its author could not issue in `w` changes nothing. */
  function Step(w: World, e: Event): World {
    match e
    case Tick(seconds) => w.(now := w.now + seconds)
    case Install(ttl, skip, rtLeased) =>
      (match InstallClaim(w.row, w.now, w.nextClaim, ttl, skip, rtLeased)
       case Ok((row, claim)) =>
         w.(row := row, nextClaim := w.nextClaim + 1, workers := w.workers[w.nextClaim := Worker(claim, InFlight)])
       case Err(_) => w)
    case Answer(id, at, expiresIn, issued, scope) =>
      if !InPhase(w, id, InFlight) then w
      else
        var x := Exchange(w.workers[id].claim.refreshToken, at, issued);
        Answered(w, id, Granted(x, w.now, expiresIn, scope)).(exchanges := w.exchanges + {x})
    case Reject(id) =>
      if !InPhase(w, id, InFlight) then w
      else Answered(w, id, Rejected).(rejected := w.rejected + {w.workers[id].claim.refreshToken})
    case Fault(id) =>
      if !InPhase(w, id, InFlight) then w else Answered(w, id, Faulted)
    case Complete(id) =>
      if !CanComplete(w, id) then w
      else w.(row := CompleteRefresh(w.row, w.workers[id].claim, GrantOf(w.workers[id])).0)
    case Invalidate(id) =>
      if !InPhase(w, id, Rejected) then w
      else w.(row := FailInvalidGrant(w.row, w.workers[id].claim).0)
    case Release(id) =>
      if !InPhase(w, id, Faulted) then w
      else w.(row := ReleaseClaim(w.row, w.workers[id].claim))
    case DeliverToLease =>
      if w.row.refreshToken.None? then w
      else w.(leased := w.leased + {(w.row.tokenVersion, w.row.refreshToken.value)})
    case LeaseWriteBack(expected, token) =>
      w.(row := WriteBack(w.row, expected, token, w.now, w.now + REFRESH_TOKEN_LIFETIME).0)
    case Replace(clientId, token) =>
      w.(row := AdminReplace(w.row, clientId, token, w.now, w.now + REFRESH_TOKEN_LIFETIME))
    case Swap(expected, token, clear) =>
      (match CompareAndSwap(w.row, expected, token, w.now, w.now + REFRESH_TOKEN_LIFETIME, clear)
       case Ok(row) => w.(row := row)
       case Err(_) => w)
  }

  function Run(w: World, es: seq<Event>): World
    decreases |es|
  {
    if es == [] then w else Run(Step(w, es[0]), es[1..])
  }

  lemma {:induction false} RunSplits(w: World, es: seq<Event>, fs: seq<Event>)
    ensures Run(w, es + fs) == Run(Run(w, es), fs)
    decreases |es|
  {
    if es == [] {
      assert es + fs == fs;
    } else {
      assert (es + fs)[1..] == es[1..] + fs;
      RunSplits(Step(w, es[0]), es[1..], fs);
    }
  }

  // ---------------------------------------------------------------------------------------------
  // The version is a clock of the stored refresh token.

  /** Nothing earlier than `v` differs from `w` in the refresh token while agreeing on the version. */
  predicate Advances(w: World, v: World) {
    && w.row.tokenVersion <= v.row.tokenVersion
    && (w.row.tokenVersion == v.row.tokenVersion ==> w.row.refreshToken == v.row.refreshToken)
    && w.now <= v.now
  }

  /** Over any run the version never decreases, and two moments with one version store one refresh token. */
  lemma {:induction false} VersionDeterminesRefreshToken(w: World, es: seq<Event>)
    ensures Advances(w, Run(w, es))
    decreases |es|
  {
    if es != [] {
      assert Advances(w, Step(w, es[0]));
      VersionDeterminesRefreshToken(Step(w, es[0]), es[1..]);
    }
  }

  /** Whether the event, issued in `w`, stores a refresh token. */
  predicate StoresRefreshToken(w: World, e: Event) {
    match e
    case Complete(id) =>
      && CanComplete(w, id) && Holds(w.row, w.workers[id].claim)
      && GrantOf(w.workers[id]).rotated.Some?
    case LeaseWriteBack(expected, token) => WriteBack(w.row, expected, token, 0, 0).1.Updated?
    case Replace(_, _) => true
    case Swap(expected, _, _) => w.row.tokenVersion == expected
    case _ => false
  }

  function StoreCount(w: World, es: seq<Event>): nat
    decreases |es|
  {
    if es == [] then 0
    else (if StoresRefreshToken(w, es[0]) then 1 else 0) + StoreCount(Step(w, es[0]), es[1..])
  }

  /** The version counts the refresh-token writes: rotations, write-backs, replaces and swaps, each once. */
  lemma {:induction false} VersionCountsStores(w: World, es: seq<Event>)
    ensures Run(w, es).row.tokenVersion == w.row.tokenVersion + StoreCount(w, es)
    decreases |es|
  {
    if es != [] {
      VersionCountsStores(Step(w, es[0]), es[1..]);
    }
  }

  // ---------------------------------------------------------------------------------------------
  // What holds in every reachable world.

  predicate ComesFrom(exchanges: set<Exchange>, accessToken: string, refreshToken: string) {
    exists x :: x in exchanges && x.accessToken == accessToken && (x.used == refreshToken || x.issued == Some(refreshToken))
  }

  predicate BoundToCurrent(row: Row) {
    row.accessToken.Some? && row.sourceVersion == Some(row.tokenVersion)
  }

  predicate WorkerOk(w: World, id: ClaimId)
    requires id in w.workers
  {
    var worker := w.workers[id];
    && id < w.nextClaim
    && worker.claim.id == id
    && worker.claim.expectedVersion <= w.row.tokenVersion
    && (worker.claim.expectedVersion == w.row.tokenVersion ==> w.row.refreshToken == Some(worker.claim.refreshToken))
    && (worker.phase.Granted? ==> worker.phase.exchange in w.exchanges && worker.phase.exchange.used == worker.claim.refreshToken)
    && (worker.phase.Rejected? ==> worker.claim.refreshToken in w.rejected)
  }

  predicate Inv(w: World) {
    && (forall id :: id in w.workers ==> WorkerOk(w, id))
    && (w.row.claimId.Some? ==>
          w.row.claimId.value in w.workers && w.row.claimExpiresAt == Some(w.workers[w.row.claimId.value].claim.expiresAt))
    && (w.row.sourceVersion.Some? ==> w.row.sourceVersion.value <= w.row.tokenVersion)
    && (BoundToCurrent(w.row) ==>
          w.row.refreshToken.Some? && ComesFrom(w.exchanges, w.row.accessToken.value, w.row.refreshToken.value))
    && (forall p :: p in w.leased ==>
          p.0 <= w.row.tokenVersion && (p.0 == w.row.tokenVersion ==> w.row.refreshToken == Some(p.1)))
  }

  /** A freshly imported mailbox nobody has worked on. */
  predicate Init(w: World) {
    && w.workers == map[] && w.exchanges == {} && w.rejected == {} && w.leased == {}
    && w.row.claimId.None? && w.row.accessToken.None? && w.row.sourceVersion.None? && w.row.status == Active
  }

  lemma StepKeepsInv(w: World, e: Event)
    requires Inv(w)
    ensures Inv(Step(w, e))
  {
    hide ComesFrom, WorkerOk;
    WorkersStayOk(w, e);
    if BoundToCurrent(Step(w, e).row) {
      CacheKeepsItsOrigin(w, e);
    }
    RowStaysOk(w, e);
  }

  lemma WorkersStayOk(w: World, e: Event)
    requires Inv(w)
    ensures forall id :: id in Step(w, e).workers ==> WorkerOk(Step(w, e), id)
  {
    hide ComesFrom;
    var v := Step(w, e);
    forall id | id in v.workers ensures WorkerOk(v, id) {
      if id in w.workers {
        assert WorkerOk(w, id);
      }
    }
  }

  lemma RowStaysOk(w: World, e: Event)
    requires Inv(w)
    ensures var v := Step(w, e);
            && (v.row.claimId.Some? ==>
                  v.row.claimId.value in v.workers && v.row.claimExpiresAt == Some(v.workers[v.row.claimId.value].claim.expiresAt))
            && (v.row.sourceVersion.Some? ==> v.row.sourceVersion.value <= v.row.tokenVersion)
            && (forall p :: p in v.leased ==>
                  p.0 <= v.row.tokenVersion && (p.0 == v.row.tokenVersion ==> v.row.refreshToken == Some(p.1)))
  {
    hide ComesFrom, WorkerOk;
  }

  lemma CacheKeepsItsOrigin(w: World, e: Event)
    requires Inv(w) && BoundToCurrent(Step(w, e).row)
    ensures var v := Step(w, e);
            v.row.refreshToken.Some? && ComesFrom(v.exchanges, v.row.accessToken.value, v.row.refreshToken.value)
  {
    var v := Step(w, e);
    if e.Complete? && CanComplete(w, e.id) && Holds(w.row, w.workers[e.id].claim) {
      assert WorkerOk(w, e.id);
      assert w.workers[e.id].phase.exchange in v.exchanges;
    } else {
      assert BoundToCurrent(w.row);
      var x :| x in w.exchanges && x.accessToken == w.row.accessToken.value
               && (x.used == w.row.refreshToken.value || x.issued == w.row.refreshToken);
      assert x in v.exchanges;
    }
  }

  lemma {:induction false} RunKeepsInv(w: World, es: seq<Event>)
    requires Inv(w)
    ensures Inv(Run(w, es))
    decreases |es|
  {
    if es != [] {
      StepKeepsInv(w, es[0]);
      RunKeepsInv(Step(w, es[0]), es[1..]);
    }
  }

  /**
   * In every reachable world an access token that passes the usability test was obtained with the
   * stored refresh token, or in the exchange that issued the stored refresh token.
   */
  lemma UsableTokenHasCurrentOrigin(w: World, es: seq<Event>, skew: nat)
    requires Init(w)
    ensures var v := Run(w, es);
            Usable(v.row, v.now, skew) ==>
              v.row.refreshToken.Some? && ComesFrom(v.exchanges, v.row.accessToken.value, v.row.refreshToken.value)
  {
    RunKeepsInv(w, es);
  }

  // ---------------------------------------------------------------------------------------------
  // Finalizers.

  predicate IsFinalizerOf(e: Event, id: ClaimId) {
    (e.Complete? || e.Invalidate? || e.Release?) && e.id == id
  }

  /** The finalizer was issued by its worker and changed the row. */
  predicate Finalizes(w: World, e: Event, id: ClaimId) {
    IsFinalizerOf(e, id) && Step(w, e).row != w.row
  }

  /** A finalizer writes exactly if the row still carries its claim and, unless it only releases, its version. */
  lemma FinalizerWritesIffHeld(w: World, e: Event, id: ClaimId)
    requires Inv(w) && IsFinalizerOf(e, id) && id in w.workers
    requires e.Complete? ==> CanComplete(w, id)
    requires e.Invalidate? ==> InPhase(w, id, Rejected)
    requires e.Release? ==> InPhase(w, id, Faulted)
    ensures Finalizes(w, e, id) <==>
            w.row.claimId == Some(id) && (e.Release? || w.row.tokenVersion == w.workers[id].claim.expectedVersion)
    ensures Finalizes(w, e, id) ==> Step(w, e).row.claimId.None?
    ensures !Finalizes(w, e, id) ==> Step(w, e) == w
  {
    assert WorkerOk(w, id);
  }

  /** The claim `id` has been created and the row no longer carries it. */
  predicate Spent(w: World, id: ClaimId) {
    id < w.nextClaim && w.row.claimId != Some(id)
  }

  lemma StepKeepsSpent(w: World, e: Event, id: ClaimId)
    requires Inv(w) && Spent(w, id)
    ensures Spent(Step(w, e), id)
  {
    hide ComesFrom, WorkerOk;
  }

  lemma {:induction false} SpentForever(w: World, es: seq<Event>, id: ClaimId)
    requires Inv(w) && Spent(w, id)
    ensures Spent(Run(w, es), id)
    decreases |es|
  {
    hide Inv, Step, Spent;
    if es != [] {
      StepKeepsInv(w, es[0]);
      StepKeepsSpent(w, es[0], id);
      SpentForever(Step(w, es[0]), es[1..], id);
    }
  }

  lemma FinalizingSpends(w: World, e: Event, id: ClaimId)
    requires Inv(w)
    ensures Finalizes(w, e, id) ==> Spent(Step(w, e), id)
    ensures Spent(w, id) ==> !Finalizes(w, e, id)
  {
    hide ComesFrom;
    if id in w.workers {
      assert WorkerOk(w, id);
    }
  }

  /** In any run at most one finalizer of a claim has an effect, however many are issued and however late. */
  lemma AtMostOneFinalizer(w: World, es: seq<Event>, id: ClaimId, i: nat, j: nat)
    requires Inv(w) && i < j < |es|
    requires Finalizes(Run(w, es[..i]), es[i], id)
    ensures !Finalizes(Run(w, es[..j]), es[j], id)
  {
    hide Inv, Step, Spent, Finalizes;
    var v, between := Run(w, es[..i]), es[i + 1..j];
    RunKeepsInv(w, es[..i]);
    FinalizingSpends(v, es[i], id);
    StepKeepsInv(v, es[i]);
    SpentForever(Step(v, es[i]), between, id);
    assert es[..j] == es[..i] + ([es[i]] + between);
    RunSplits(w, es[..i], [es[i]] + between);
    assert ([es[i]] + between)[1..] == between;
    RunKeepsInv(w, es[..j]);
    FinalizingSpends(Run(w, es[..j]), es[j], id);
  }

  /** Only expiry lets a claim be displaced: a different claim appears in one step only after the deadline. */
  lemma DisplacedOnlyAfterExpiry(w: World, e: Event)
    requires Inv(w) && w.row.claimId.Some? && w.row.claimExpiresAt.Some?
    requires Step(w, e).row.claimId.Some? && Step(w, e).row.claimId != w.row.claimId
    ensures e.Install? && w.row.claimExpiresAt.value <= w.now
  {
  }

  /** A result other than None vouches for the row: bound access token of a known origin, no claim. */
  lemma CompletionResultIsSound(w: World, id: ClaimId)
    requires Inv(w) && CanComplete(w, id)
    ensures var (row, version) := CompleteRefresh(w.row, w.workers[id].claim, GrantOf(w.workers[id]));
            version.Some? ==>
              && row.tokenVersion == version.value && BoundToCurrent(row) && row.claimId.None?
              && row.refreshToken.Some?
              && ComesFrom(w.exchanges, row.accessToken.value, row.refreshToken.value)
    ensures var (row, version) := CompleteRefresh(w.row, w.workers[id].claim, GrantOf(w.workers[id]));
            Holds(w.row, w.workers[id].claim) ==>
              version.Some? && row.accessToken == Some(w.workers[id].phase.exchange.accessToken)
  {
    assert WorkerOk(w, id);
    var (row, version) := CompleteRefresh(w.row, w.workers[id].claim, GrantOf(w.workers[id]));
    if Holds(w.row, w.workers[id].claim) {
      assert w.workers[id].phase.exchange in w.exchanges;
    }
  }

  // ---------------------------------------------------------------------------------------------
  // Invalidation.

  /** The step that turns a mailbox invalid answers a rejection of the very token that is stored at that step. */
  lemma InvalidatedOnlyByRejectionOfStoredToken(w: World, e: Event)
    requires Inv(w) && w.row.status != Invalid && Step(w, e).row.status == Invalid
    ensures e.Invalidate? && InPhase(w, e.id, Rejected)
    ensures w.row.refreshToken == Some(w.workers[e.id].claim.refreshToken)
    ensures w.row.tokenVersion == w.workers[e.id].claim.expectedVersion
    ensures w.workers[e.id].claim.refreshToken in w.rejected
  {
    assert WorkerOk(w, e.id);
  }

  predicate InvalidMeansRejected(w: World) {
    w.row.status == Invalid ==>
      w.row.claimId.None? && w.row.refreshToken.Some? && w.row.refreshToken.value in w.rejected
  }

  /** No swap is accepted while the row is invalid. */
  predicate SwapsSpareInvalid(w: World, es: seq<Event>)
    decreases |es|
  {
    es == [] || (!(es[0].Swap? && w.row.status == Invalid && w.row.tokenVersion == es[0].expected) && SwapsSpareInvalid(Step(w, es[0]), es[1..]))
  }

  /**
   * Unless the bare compare-and-swap helper is let loose on an invalid row, an invalid mailbox always stores a
   * token that Microsoft rejected, whatever else is in flight.
   */
  lemma {:induction false} InvalidRowStoresRejectedToken(w: World, es: seq<Event>)
    requires Inv(w) && InvalidMeansRejected(w) && SwapsSpareInvalid(w, es)
    ensures InvalidMeansRejected(Run(w, es))
    decreases |es|
  {
    if es != [] {
      StepKeepsInv(w, es[0]);
      RejectionStays(w, es[0]);
      hide Inv, Step, InvalidMeansRejected;
      InvalidRowStoresRejectedToken(Step(w, es[0]), es[1..]);
    }
  }

  lemma RejectionStays(w: World, e: Event)
    requires Inv(w) && InvalidMeansRejected(w) && !(e.Swap? && w.row.status == Invalid && w.row.tokenVersion == e.expected)
    ensures InvalidMeansRejected(Step(w, e))
  {
    if w.row.status != Invalid && Step(w, e).row.status == Invalid {
      InvalidatedOnlyByRejectionOfStoredToken(w, e);
    }
    hide Inv;
  }

  // ---------------------------------------------------------------------------------------------
  // The lease holder's write-back.

  /** An accepted write-back replaces the token that was delivered together with the version it names. */
  lemma WriteBackReplacesWhatWasDelivered(w: World, es: seq<Event>, expected: int, delivered: string, token: string, t: Time, x: Time)
    requires Inv(w) && (expected, delivered) in Run(w, es).leased
    ensures var v := Run(w, es);
            var (row, result) := WriteBack(v.row, expected, token, t, x);
            result.Updated? ==>
              && v.row.refreshToken == Some(delivered) && delivered != token
              && row.refreshToken == Some(token) && row.tokenVersion == expected + 1
              && row.accessToken.None?
  {
    RunKeepsInv(w, es);
  }

  // ---------------------------------------------------------------------------------------------
  // Lateness is not staleness.

  /** In `w` the event leaves claim and version of the row alone. */
  predicate Harmless(w: World, e: Event) {
    Step(w, e).row.claimId == w.row.claimId && Step(w, e).row.tokenVersion == w.row.tokenVersion
  }

  predicate Undisturbed(w: World, es: seq<Event>)
    decreases |es|
  {
    es == [] || (Harmless(w, es[0]) && Undisturbed(Step(w, es[0]), es[1..]))
  }

  lemma StepKeepsAnsweredWorker(w: World, e: Event, id: ClaimId)
    requires Inv(w) && CanComplete(w, id)
    ensures CanComplete(Step(w, e), id) && Step(w, e).workers[id] == w.workers[id]
  {
    assert WorkerOk(w, id);
    hide ComesFrom;
  }

  lemma DisturbanceIsFinal(w: World, e: Event, es: seq<Event>, id: ClaimId)
    requires Inv(w) && id in w.workers && Holds(w.row, w.workers[id].claim) && !Harmless(w, e)
    ensures !Holds(Run(Step(w, e), es).row, w.workers[id].claim)
  {
    assert WorkerOk(w, id);
    var v := Step(w, e);
    StepKeepsInv(w, e);
    assert Advances(w, v);
    VersionDeterminesRefreshToken(v, es);
    if v.row.claimId != w.row.claimId {
      hide Inv, WorkerOk;
      assert Spent(v, id);
      SpentForever(v, es, id);
    }
  }

  lemma {:induction false} HoldsIffUndisturbed(w: World, es: seq<Event>, id: ClaimId)
    requires Inv(w) && CanComplete(w, id) && Holds(w.row, w.workers[id].claim)
    ensures var v := Run(w, es);
            && CanComplete(v, id) && v.workers[id] == w.workers[id]
            && (Holds(v.row, w.workers[id].claim) <==> Undisturbed(w, es))
    decreases |es|
  {
    hide Inv, Step;
    if es != [] {
      var v := Step(w, es[0]);
      StepKeepsInv(w, es[0]);
      StepKeepsAnsweredWorker(w, es[0], id);
      AnsweredWorkerStays(v, es[1..], id);
      if Harmless(w, es[0]) {
        HoldsIffUndisturbed(v, es[1..], id);
      } else {
        DisturbanceIsFinal(w, es[0], es[1..], id);
      }
    }
  }

  lemma {:induction false} AnsweredWorkerStays(w: World, es: seq<Event>, id: ClaimId)
    requires Inv(w) && CanComplete(w, id)
    ensures CanComplete(Run(w, es), id) && Run(w, es).workers[id] == w.workers[id]
    decreases |es|
  {
    hide Inv, Step;
    if es != [] {
      StepKeepsInv(w, es[0]);
      StepKeepsAnsweredWorker(w, es[0], id);
      AnsweredWorkerStays(Step(w, es[0]), es[1..], id);
    }
  }

  /**
   * A worker finishes with its own access token, even long after its claim expired, exactly if no event since
   * then has displaced its claim or moved the version; otherwise it changes nothing.
   */
  lemma LateWorkerCompletesIff(w: World, es: seq<Event>, id: ClaimId)
    requires Inv(w) && CanComplete(w, id) && Holds(w.row, w.workers[id].claim)
    ensures var v := Run(w, es);
            var done := Step(v, Complete(id));
            if Undisturbed(w, es)
            then BoundToCurrent(done.row) && done.row.claimId.None?
                 && done.row.accessToken == Some(w.workers[id].phase.exchange.accessToken)
            else done == v
  {
    HoldsIffUndisturbed(w, es, id);
    hide Inv, Undisturbed, Run;
  }

  // ---------------------------------------------------------------------------------------------
  // A claim stands until its deadline.

  predicate ActsFor(e: Event, id: ClaimId) {
    match e
    case Answer(k, _, _, _, _) => k == id
    case Reject(k) => k == id
    case Fault(k) => k == id
    case Complete(k) => k == id
    case Invalidate(k) => k == id
    case Release(k) => k == id
    case _ => false
  }

  predicate Untouched(es: seq<Event>, id: ClaimId) {
    forall i :: 0 <= i < |es| ==> !ActsFor(es[i], id)
  }

  /** The row carries the claim `id`, and its worker exists. */
  predicate Carries(w: World, id: ClaimId) {
    w.row.claimId == Some(id) && id in w.workers
  }

  /** The row carries the claim of a worker that got its answer too late for the version. */
  predicate LostButClaimed(w: World, id: ClaimId) {
    Carries(w, id) && CanComplete(w, id) && w.row.tokenVersion != w.workers[id].claim.expectedVersion
  }

  lemma ClaimStandsOneStep(w: World, e: Event, id: ClaimId)
    requires Inv(w) && Carries(w, id) && w.now < w.workers[id].claim.expiresAt
    requires LostButClaimed(w, id) || !ActsFor(e, id)
    ensures Carries(Step(w, e), id) && Step(w, e).workers[id] == w.workers[id]
    ensures LostButClaimed(w, id) ==> LostButClaimed(Step(w, e), id)
  {
    hide ComesFrom;
    assert WorkerOk(w, id);
    if (e.Complete? || e.Invalidate? || e.Release?) && e.id in w.workers {
      assert WorkerOk(w, e.id);
    }
  }

  /**
   * Before its deadline nobody displaces a claim; and its own worker cannot give it up any more once the
   * version has moved under its answer, whatever else happens.
   */
  lemma {:induction false} ClaimStandsUntilDeadline(w: World, es: seq<Event>, id: ClaimId)
    requires Inv(w) && Carries(w, id) && Run(w, es).now < w.workers[id].claim.expiresAt
    requires LostButClaimed(w, id) || Untouched(es, id)
    ensures var v := Run(w, es);
            && Carries(v, id) && v.workers[id] == w.workers[id]
            && (LostButClaimed(w, id) ==> LostButClaimed(v, id))
    decreases |es|
  {
    VersionDeterminesRefreshToken(w, es);
    hide Inv, Step, LostButClaimed, ActsFor;
    if es != [] {
      StepKeepsInv(w, es[0]);
      ClaimStandsOneStep(w, es[0], id);
      ClaimStandsUntilDeadline(Step(w, es[0]), es[1..], id);
    }
  }
}

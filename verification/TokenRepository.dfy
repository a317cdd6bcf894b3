/** The token columns of one mailbox row and the conditional updates every writer goes through. */
module TokenRepository {
  import opened Wrappers

  datatype MailboxStatus = Active | Disabled | Invalid | Cooldown

  /** Claim identifiers are UUIDs in the database; here they are numbered in order of creation. */
  type ClaimId = nat

  /** Seconds. */
  type Time = int

  /** The credential columns; ciphertexts stand for the secrets they decrypt to. */
  datatype Row = Row(
    status: MailboxStatus,
    clientId: Option<string>,
    refreshToken: Option<string>,
    refreshTokenUpdatedAt: Option<Time>,
    refreshTokenExpiresAt: Option<Time>,
    tokenVersion: int,
    accessToken: Option<string>,
    accessTokenExpiresAt: Option<Time>,
    accessTokenRefreshedAt: Option<Time>,
    sourceVersion: Option<int>,
    scope: Option<string>,
    claimId: Option<ClaimId>,
    claimExpiresAt: Option<Time>)

  /** What a worker carries out of the claiming transaction. */
  datatype Claim = Claim(id: ClaimId, clientId: string, refreshToken: string, expectedVersion: int, expiresAt: Time)

  datatype ClaimError = MailboxInvalid | CredentialsMissing | AlreadyClaimed(holder: ClaimId) | RefreshTokenLeased

  /** What the finalizing transaction writes after a successful exchange. */
  datatype Grant = Grant(
    accessToken: string,
    accessTokenExpiresAt: Time,
    refreshedAt: Time,
    scope: Option<string>,
    rotated: Option<string>,
    refreshTokenExpiresAt: Time)

  /** A claim that another worker has to respect. */
  predicate ClaimLive(row: Row, now: Time) {
    row.claimId.Some? && row.claimExpiresAt.Some? && now < row.claimExpiresAt.value
  }

  /** The compare part of every finalizing compare-and-swap; it does not look at the clock. */
  predicate Holds(row: Row, claim: Claim) {
    row.claimId == Some(claim.id) && row.tokenVersion == claim.expectedVersion
  }

  predicate HasText(value: Option<string>) {
    value.Some? && value.value != ""
  }

  /** The cached access token may be handed out: present, bound to the current version, not about to expire. */
  predicate Usable(row: Row, now: Time, skew: nat) {
    && row.accessToken.Some?
    && row.accessTokenExpiresAt.Some?
    && row.sourceVersion == Some(row.tokenVersion)
    && row.accessTokenExpiresAt.value > now + skew
  }

  function InstallClaim(row: Row, now: Time, id: ClaimId, ttl: Time, skipLeaseCheck: bool, leased: bool)
    : (r: Result<(Row, Claim), ClaimError>)
  {
    if row.status == Invalid then Err(MailboxInvalid)
    else if !HasText(row.clientId) || row.refreshToken.None? then Err(CredentialsMissing)
    else if ClaimLive(row, now) then Err(AlreadyClaimed(row.claimId.value))
    else if !skipLeaseCheck && leased then Err(RefreshTokenLeased)
    else
      Ok((row.(claimId := Some(id), claimExpiresAt := Some(now + ttl)),
          Claim(id, row.clientId.value, row.refreshToken.value, row.tokenVersion, now + ttl)))
  }

  /** The re-read after an update that reported no affected row. */
  function ConfirmCompleted(row: Row, expected: int): (version: Option<int>)
    ensures version.Some? ==>
              && version.value == expected == row.tokenVersion
              && row.sourceVersion == Some(expected)
              && row.claimId.None? && row.accessToken.Some?
  {
    if row.tokenVersion == expected && row.sourceVersion == Some(expected) && row.claimId.None? && row.accessToken.Some?
    then Some(expected) else None
  }

  function CompleteRefresh(row: Row, claim: Claim, grant: Grant): (r: (Row, Option<int>))
  {
    var version := if grant.rotated.Some? then claim.expectedVersion + 1 else claim.expectedVersion;
    if Holds(row, claim) then
      (row.(
       refreshToken := if grant.rotated.Some? then grant.rotated else row.refreshToken,
       refreshTokenUpdatedAt := Some(grant.refreshedAt),
       refreshTokenExpiresAt := Some(grant.refreshTokenExpiresAt),
       tokenVersion := version,
       accessToken := Some(grant.accessToken),
       accessTokenExpiresAt := Some(grant.accessTokenExpiresAt),
       accessTokenRefreshedAt := Some(grant.refreshedAt),
       sourceVersion := Some(version),
       scope := grant.scope,
       claimId := None,
       claimExpiresAt := None),
       Some(version))
    else
      (row, ConfirmCompleted(row, version))
  }

  function FailInvalidGrant(row: Row, claim: Claim): (r: (Row, bool))
  {
    if Holds(row, claim)
    then (row.(status := Invalid, claimId := None, claimExpiresAt := None), true)
    else (row, false)
  }

  function ReleaseClaim(row: Row, claim: Claim): (r: Row)
  {
    if row.claimId == Some(claim.id) then row.(claimId := None, claimExpiresAt := None) else row
  }

  function DropCache(row: Row): Row {
    row.(accessToken := None, accessTokenExpiresAt := None, accessTokenRefreshedAt := None, sourceVersion := None)
  }

  function StoreRefreshToken(row: Row, token: string, touchedAt: Time, expiresAt: Time): Row {
    row.(refreshToken := Some(token), refreshTokenUpdatedAt := Some(touchedAt),
         refreshTokenExpiresAt := Some(expiresAt), tokenVersion := row.tokenVersion + 1)
  }

  /** The library compare-and-swap; an error is a version conflict. */
  function CompareAndSwap(row: Row, expected: int, token: string, touchedAt: Time, expiresAt: Time, clear: bool)
    : (r: Result<Row, ()>)
  {
    if row.tokenVersion != expected then Err(())
    else
      var stored := StoreRefreshToken(row, token, touchedAt, expiresAt);
      Ok(if clear then DropCache(stored) else stored)
  }

  datatype WriteBackResult = MailboxUnavailable | VersionConflict | Unchanged(version: int) | Updated(version: int)

  /**
   * The write-back of the holder of a refresh-token lease. It clears the cached access token but
   * leaves the source version behind.
   */
  function WriteBack(row: Row, expected: int, token: string, touchedAt: Time, expiresAt: Time): (r: (Row, WriteBackResult))
  {
    if row.status != Active then (row, MailboxUnavailable)
    else if row.tokenVersion != expected then (row, VersionConflict)
    else if row.refreshToken == Some(token) || (row.refreshToken.None? && token == "") then (row, Unchanged(expected))
    else
      (StoreRefreshToken(row, token, touchedAt, expiresAt).(
       accessToken := None, accessTokenExpiresAt := None, accessTokenRefreshedAt := None),
       Updated(expected + 1))
  }

  /** The replace branch of the administrator's import: last write wins, an in-flight claim is left alone. */
  function AdminReplace(row: Row, clientId: string, token: string, touchedAt: Time, expiresAt: Time): Row {
    DropCache(StoreRefreshToken(row, token, touchedAt, expiresAt)).(
    status := Active, clientId := Some(clientId), scope := None)
  }

  /** One mailbox row, updated in place by short transactions. */
  class Mailbox {
    var status: MailboxStatus
    var clientId: Option<string>
    var refreshToken: Option<string>
    var refreshTokenUpdatedAt: Option<Time>
    var refreshTokenExpiresAt: Option<Time>
    var tokenVersion: int
    var accessToken: Option<string>
    var accessTokenExpiresAt: Option<Time>
    var accessTokenRefreshedAt: Option<Time>
    var sourceVersion: Option<int>
    var scope: Option<string>
    var claimId: Option<ClaimId>
    var claimExpiresAt: Option<Time>

    function Columns(): Row
      reads this
    {
      Row(status, clientId, refreshToken, refreshTokenUpdatedAt, refreshTokenExpiresAt, tokenVersion,
          accessToken, accessTokenExpiresAt, accessTokenRefreshedAt, sourceVersion, scope, claimId, claimExpiresAt)
    }

    constructor Imported(client: string, token: string, touchedAt: Time, expiresAt: Time)
      ensures Columns() == Row(Active, Some(client), Some(token), Some(touchedAt), Some(expiresAt), 1,
                               None, None, None, None, None, None, None)
    {
      status, clientId, refreshToken := Active, Some(client), Some(token);
      refreshTokenUpdatedAt, refreshTokenExpiresAt, tokenVersion := Some(touchedAt), Some(expiresAt), 1;
      accessToken, accessTokenExpiresAt, accessTokenRefreshedAt := None, None, None;
      sourceVersion, scope, claimId, claimExpiresAt := None, None, None, None;
    }

    method StoreToken(token: string, touchedAt: Time, expiresAt: Time)
      modifies this
      ensures Columns() == StoreRefreshToken(old(Columns()), token, touchedAt, expiresAt)
    {
      refreshToken, refreshTokenUpdatedAt, refreshTokenExpiresAt := Some(token), Some(touchedAt), Some(expiresAt);
      tokenVersion := tokenVersion + 1;
    }

    method ClearCache()
      modifies this
      ensures Columns() == DropCache(old(Columns()))
    {
      accessToken, accessTokenExpiresAt, accessTokenRefreshedAt, sourceVersion := None, None, None, None;
    }

    method StoreAccessToken(token: string, expiresAt: Time, refreshedAt: Time, version: int, granted: Option<string>)
      modifies this
      ensures Columns() == old(Columns()).(
                             accessToken := Some(token), accessTokenExpiresAt := Some(expiresAt), accessTokenRefreshedAt := Some(refreshedAt),
                             sourceVersion := Some(version), scope := granted)
    {
      accessToken, accessTokenExpiresAt, accessTokenRefreshedAt := Some(token), Some(expiresAt), Some(refreshedAt);
      sourceVersion, scope := Some(version), granted;
    }

    /** Phase A: install a claim unless a live one exists. */
    method ClaimTokenRefresh(now: Time, id: ClaimId, ttl: Time, skipLeaseCheck: bool, leased: bool)
      returns (r: Result<Claim, ClaimError>)
      modifies this
      ensures match InstallClaim(old(Columns()), now, id, ttl, skipLeaseCheck, leased)
              case Ok((row, claim)) => r == Ok(claim) && Columns() == row
              case Err(error) => r == Err(error) && Columns() == old(Columns())
    {
      if status == Invalid {
        return Err(MailboxInvalid);
      }
      if clientId.None? || clientId.value == "" || refreshToken.None? {
        return Err(CredentialsMissing);
      }
      if claimId.Some? && claimExpiresAt.Some? && now < claimExpiresAt.value {
        return Err(AlreadyClaimed(claimId.value));
      }
      if !skipLeaseCheck && leased {
        return Err(RefreshTokenLeased);
      }
      claimId, claimExpiresAt := Some(id), Some(now + ttl);
      return Ok(Claim(id, clientId.value, refreshToken.value, tokenVersion, now + ttl));
    }

    /** Phase C after a successful exchange. */
    method CompleteTokenRefresh(claim: Claim, grant: Grant) returns (version: Option<int>)
      modifies this
      ensures (Columns(), version) == CompleteRefresh(old(Columns()), claim, grant)
    {
      var matched := tokenVersion == claim.expectedVersion && claimId == Some(claim.id);
      var target := if grant.rotated.Some? then claim.expectedVersion + 1 else claim.expectedVersion;
      if !matched {
        return ConfirmCompleted(Columns(), target);
      }
      if grant.rotated.Some? {
        StoreToken(grant.rotated.value, grant.refreshedAt, grant.refreshTokenExpiresAt);
      } else {
        refreshTokenUpdatedAt, refreshTokenExpiresAt := Some(grant.refreshedAt), Some(grant.refreshTokenExpiresAt);
      }
      StoreAccessToken(grant.accessToken, grant.accessTokenExpiresAt, grant.refreshedAt, target, grant.scope);
      claimId, claimExpiresAt := None, None;
      return Some(target);
    }

    /** Phase C after Microsoft rejected the refresh token. */
    method FailTokenRefreshInvalidGrant(claim: Claim) returns (applied: bool)
      modifies this
      ensures (Columns(), applied) == FailInvalidGrant(old(Columns()), claim)
    {
      applied := tokenVersion == claim.expectedVersion && claimId == Some(claim.id);
      if applied {
        status, claimId, claimExpiresAt := Invalid, None, None;
      }
    }

    /** Phase C after any other failure. */
    method ReleaseTokenRefreshClaim(claim: Claim)
      modifies this
      ensures Columns() == ReleaseClaim(old(Columns()), claim)
    {
      if claimId == Some(claim.id) {
        claimId, claimExpiresAt := None, None;
      }
    }

    method CompareAndSwapRefreshToken(expected: int, token: string, touchedAt: Time, expiresAt: Time, clear: bool)
      returns (r: Result<int, ()>)
      modifies this
      ensures match CompareAndSwap(old(Columns()), expected, token, touchedAt, expiresAt, clear)
              case Ok(row) => Columns() == row && r == Ok(row.tokenVersion)
              case Err(_) => Columns() == old(Columns()) && r.Err?
    {
      if tokenVersion != expected {
        return Err(());
      }
      StoreToken(token, touchedAt, expiresAt);
      if clear {
        ClearCache();
      }
      return Ok(expected + 1);
    }

    /** The lease holder's write-back, once the lease itself has been checked. */
    method UpdateRefreshToken(expected: int, token: string, touchedAt: Time, expiresAt: Time)
      returns (r: WriteBackResult)
      modifies this
      ensures (Columns(), r) == WriteBack(old(Columns()), expected, token, touchedAt, expiresAt)
    {
      if status != Active {
        return MailboxUnavailable;
      }
      if tokenVersion != expected {
        return VersionConflict;
      }
      var current := if refreshToken.Some? then refreshToken.value else "";
      if current == token {
        return Unchanged(tokenVersion);
      }
      StoreToken(token, touchedAt, expiresAt);
      accessToken, accessTokenExpiresAt, accessTokenRefreshedAt := None, None, None;
      return Updated(expected + 1);
    }

    method ReplaceByImport(client: string, token: string, touchedAt: Time, expiresAt: Time)
      modifies this
      ensures Columns() == AdminReplace(old(Columns()), client, token, touchedAt, expiresAt)
    {
      ClearCache();
      StoreToken(token, touchedAt, expiresAt);
      status, clientId, scope := Active, Some(client), None;
    }
  }
}

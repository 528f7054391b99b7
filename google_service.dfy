/**
 * GoogleService's token handling: the stored Google credential of a user is
 * refreshed when it is missing an expiry or expires within five minutes
 * (refresh-token use as in section 6 of RFC 6749, with the `invalid_grant`
 * error of section 5.2 marking the credential disconnected), an
 * authenticated client is handed out only after a successful refresh, and
 * the connection check reports on both. The credential table is a map keyed
 * by (user id, provider); the clock, the token endpoint's answer and the
 * userinfo call are inputs.
 */
module GoogleService {
  import opened PhpString

  /** A row of the email_providers table, nullable columns as options. */
  datatype Credential = Credential(accessToken: Option<bytes>, refreshToken: Option<bytes>,
                                   expiresAt: Option<int>, connected: Option<bool>,
                                   providerEmail: Option<bytes>)

  type Key = (int, bytes)

  const GOOGLE: bytes := Ascii("google")
  const MARGIN: int := 300
  const INVALID_GRANT: bytes := Ascii("invalid_grant")
  /** The start of the message of the exception an unchecked missing array key raises. */
  const UNDEFINED_KEY: bytes := Ascii("Undefined array key")

  function KeyOf(userId: int): Key {
    (userId, GOOGLE)
  }

  /** PHP truthiness of a nullable string column. */
  predicate Present(s: Option<bytes>) {
    s.Some? && Truthy(s.value)
  }

  /** `expires_at && expires_at->subMinutes(5)->isFuture()`, with time in seconds. */
  predicate StillValid(c: Credential, now: int) {
    c.expiresAt.Some? && c.expiresAt.value - MARGIN > now
  }

  /**
   * What asking the token endpoint comes to: the token the client then holds
   * (its access token, lifetime and refresh token, each possibly absent), or
   * an exception with its message. A missing access token is checked for; a
   * missing lifetime is indexed anyway, and the warning PHP raises becomes
   * an exception whose message ("Undefined array key") the catch handles
   * like any other without invalid_grant.
   */
  datatype Exchange = Granted(accessToken: Option<bytes>, expiresIn: Option<int>, refreshToken: Option<bytes>)
                    | Threw(message: bytes)

  datatype RefreshOutcome = RefreshOutcome(ok: bool, rows: map<Key, Credential>)

  /** The row after a successful exchange: new access token and expiry, the new refresh token if one came. */
  function Renewed(c: Credential, now: int, access: bytes, expiresIn: int, refresh: Option<bytes>): Credential {
    c.(accessToken := Some(access), expiresAt := Some(now + expiresIn),
       refreshToken := if refresh.Some? then refresh else c.refreshToken)
  }

  /** True when refreshTokenIfNeeded would ask the token endpoint. */
  predicate NeedsExchange(rows: map<Key, Credential>, userId: int, now: int) {
    KeyOf(userId) in rows && Present(rows[KeyOf(userId)].refreshToken) && !StillValid(rows[KeyOf(userId)], now)
  }

  /**
   * refreshTokenIfNeeded: the result and the table afterwards. Only the
   * user's Google row can change; failure leaves its tokens alone and at
   * most marks it disconnected, which happens exactly for an exception
   * whose message mentions invalid_grant.
   */
  function Refresh(rows: map<Key, Credential>, userId: int, now: int, ex: Exchange): (r: RefreshOutcome)
    ensures r.rows.Keys == rows.Keys
    ensures forall k :: k in rows && k != KeyOf(userId) ==> r.rows[k] == rows[k]
    ensures r.ok ==> KeyOf(userId) in rows && Present(rows[KeyOf(userId)].refreshToken)
    ensures !NeedsExchange(rows, userId, now) ==> r.rows == rows
    ensures !r.ok ==> (r.rows == rows ||
      (ex.Threw? && Contains(ex.message, INVALID_GRANT) && KeyOf(userId) in rows &&
       r.rows == rows[KeyOf(userId) := rows[KeyOf(userId)].(connected := Some(false))]))
  {
    var key := KeyOf(userId);
    if key !in rows then RefreshOutcome(false, rows)
    else if !Present(rows[key].refreshToken) then RefreshOutcome(false, rows)
    else if StillValid(rows[key], now) then RefreshOutcome(true, rows)
    else match ex
      case Threw(message) =>
        if Contains(message, INVALID_GRANT) then RefreshOutcome(false, rows[key := rows[key].(connected := Some(false))])
        else RefreshOutcome(false, rows)
      case Granted(access, expiresIn, refresh) =>
        if access.None? || expiresIn.None? then RefreshOutcome(false, rows)
        else RefreshOutcome(true, rows[key := Renewed(rows[key], now, access.value, expiresIn.value, refresh)])
  }

  /** getAuthenticatedClient after the refresh: the access token the client gets, if any. */
  function ClientToken(r: RefreshOutcome, userId: int): (token: Option<bytes>)
    ensures token.Some? <==> r.ok && KeyOf(userId) in r.rows && Present(r.rows[KeyOf(userId)].accessToken)
    ensures token.Some? ==> token == r.rows[KeyOf(userId)].accessToken
  {
    if r.ok && KeyOf(userId) in r.rows && Present(r.rows[KeyOf(userId)].accessToken)
    then r.rows[KeyOf(userId)].accessToken else None
  }

  /** The answer of checkConnection. */
  datatype Connection = Disconnected(message: bytes)
                      | Connected(email: Option<bytes>, expiresAt: Option<int>, userInfo: bytes)

  /**
   * checkConnection: refresh (exchange ex1), reload the row, then getUserInfo,
   * which refreshes again (exchange ex2) and calls userinfo (info, None when
   * it throws). The reported email and expiry are those of the reloaded row.
   */
  function Check(rows: map<Key, Credential>, userId: int, now: int, ex1: Exchange, ex2: Exchange,
                 info: Option<bytes>): (Connection, map<Key, Credential>)
  {
    var key := KeyOf(userId);
    if key !in rows then (Disconnected(Ascii("No Google account connected")), rows)
    else
      var r1 := Refresh(rows, userId, now, ex1);
      if !r1.ok then (Disconnected(Ascii("Failed to refresh Google token")), r1.rows)
      else
        var reloaded := r1.rows[key];
        var r2 := Refresh(r1.rows, userId, now, ex2);
        if ClientToken(r2, userId).None? || info.None? then (Disconnected(Ascii("Failed to verify connection")), r2.rows)
        else (Connected(reloaded.providerEmail, reloaded.expiresAt, info.value), r2.rows)
  }

  /** The email_providers table, updated in place. */
  class ProviderTable {
    var rows: map<Key, Credential>

    constructor(initial: map<Key, Credential>)
      ensures rows == initial
    {
      rows := initial;
    }

    /** refreshTokenIfNeeded: a chain of guards ending in an update of the row. */
    method RefreshTokenIfNeeded(userId: int, now: int, ex: Exchange) returns (ok: bool)
      modifies this
      ensures RefreshOutcome(ok, rows) == Refresh(old(rows), userId, now, ex)
    {
      var key := KeyOf(userId);
      if key !in rows {
        return false;
      }
      var provider := rows[key];
      if !Present(provider.refreshToken) {
        return false;
      }
      if StillValid(provider, now) {
        return true;
      }
      match ex {
        case Threw(message) =>
          if Contains(message, INVALID_GRANT) {
            rows := rows[key := provider.(connected := Some(false))];
          }
          return false;
        case Granted(access, expiresIn, refresh) =>
          if access.None? {
            return false;
          }
          if expiresIn.None? {
            return false;
          }
          rows := rows[key := Renewed(provider, now, access.value, expiresIn.value, refresh)];
          return true;
      }
    }

    /** getAuthenticatedClient: refresh, re-read the row, hand out its access token when it has one. */
    method GetAuthenticatedClient(userId: int, now: int, ex: Exchange) returns (token: Option<bytes>)
      modifies this
      ensures var r := Refresh(old(rows), userId, now, ex); rows == r.rows && token == ClientToken(r, userId)
    {
      var ok := RefreshTokenIfNeeded(userId, now, ex);
      if !ok {
        return None;
      }
      var key := KeyOf(userId);
      if key !in rows || !Present(rows[key].accessToken) {
        return None;
      }
      token := rows[key].accessToken;
    }

    /** checkConnection. */
    method CheckConnection(userId: int, now: int, ex1: Exchange, ex2: Exchange, info: Option<bytes>)
        returns (status: Connection)
      modifies this
      ensures (status, rows) == Check(old(rows), userId, now, ex1, ex2, info)
    {
      var key := KeyOf(userId);
      if key !in rows {
        return Disconnected(Ascii("No Google account connected"));
      }
      var refreshed := RefreshTokenIfNeeded(userId, now, ex1);
      if !refreshed {
        return Disconnected(Ascii("Failed to refresh Google token"));
      }
      var provider := rows[key];
      var token := GetAuthenticatedClient(userId, now, ex2);
      if token.None? || info.None? {
        return Disconnected(Ascii("Failed to verify connection"));
      }
      status := Connected(provider.providerEmail, provider.expiresAt, info.value);
    }
  }

  /** Without a stored Google credential the refresh fails and nothing changes. */
  lemma NoCredential(rows: map<Key, Credential>, userId: int, now: int, ex: Exchange)
    requires KeyOf(userId) !in rows
    ensures Refresh(rows, userId, now, ex) == RefreshOutcome(false, rows)
  {
  }

  /** Without a refresh token the refresh fails, even while the access token is still valid. */
  lemma NoRefreshTokenFails(rows: map<Key, Credential>, userId: int, now: int, ex: Exchange)
    requires KeyOf(userId) in rows && !Present(rows[KeyOf(userId)].refreshToken)
    ensures Refresh(rows, userId, now, ex) == RefreshOutcome(false, rows)
  {
  }

  /**
   * A token valid for more than five more minutes needs no exchange: the
   * refresh succeeds and changes nothing, whatever the endpoint would say,
   * so a second call right after is the same.
   */
  lemma ValidTokenIdempotent(rows: map<Key, Credential>, userId: int, now: int, ex: Exchange, ex': Exchange)
    requires KeyOf(userId) in rows && Present(rows[KeyOf(userId)].refreshToken)
    requires StillValid(rows[KeyOf(userId)], now)
    ensures Refresh(rows, userId, now, ex) == RefreshOutcome(true, rows)
    ensures Refresh(Refresh(rows, userId, now, ex).rows, userId, now, ex') == Refresh(rows, userId, now, ex)
  {
  }

  /** A row without an expiry always goes to the token endpoint. */
  lemma MissingExpiryExchanges(rows: map<Key, Credential>, userId: int, now: int)
    requires KeyOf(userId) in rows && Present(rows[KeyOf(userId)].refreshToken)
    requires rows[KeyOf(userId)].expiresAt.None?
    ensures NeedsExchange(rows, userId, now)
    ensures Refresh(rows, userId, now, Threw([])) == RefreshOutcome(false, rows)
    ensures forall a: bytes, e: int :: Refresh(rows, userId, now, Granted(Some(a), Some(e), None)).rows[KeyOf(userId)].accessToken == Some(a)
  {
  }

  /**
   * A successful exchange sets exactly the access token, the expiry to now
   * plus the lifetime and the refresh token to the new one or else the old
   * one; the rest of the row is as before.
   */
  lemma ExchangeUpdatesRow(rows: map<Key, Credential>, userId: int, now: int, access: bytes, expiresIn: int,
                           refresh: Option<bytes>)
    requires NeedsExchange(rows, userId, now)
    ensures var r := Refresh(rows, userId, now, Granted(Some(access), Some(expiresIn), refresh));
      var before, after := rows[KeyOf(userId)], r.rows[KeyOf(userId)];
      && r.ok
      && after.accessToken == Some(access)
      && after.expiresAt == Some(now + expiresIn)
      && after.refreshToken == (if refresh.Some? then refresh else before.refreshToken)
      && after.connected == before.connected && after.providerEmail == before.providerEmail
  {
  }

  /** An answer without an access token fails and leaves the table as it was. */
  lemma MissingAccessTokenFails(rows: map<Key, Credential>, userId: int, now: int, expiresIn: Option<int>,
                                refresh: Option<bytes>)
    requires NeedsExchange(rows, userId, now)
    ensures Refresh(rows, userId, now, Granted(None, expiresIn, refresh)) == RefreshOutcome(false, rows)
  {
  }

  /**
   * An answer with an access token but no lifetime fails too: the unchecked
   * index throws before the update, the exception is caught, and as its
   * message has no invalid_grant the row stays as it was, connected flag
   * included.
   */
  lemma MissingLifetimeFails(rows: map<Key, Credential>, userId: int, now: int, access: bytes, refresh: Option<bytes>)
    requires NeedsExchange(rows, userId, now)
    ensures Refresh(rows, userId, now, Granted(Some(access), None, refresh)) == RefreshOutcome(false, rows)
    ensures Refresh(rows, userId, now, Granted(Some(access), None, refresh)) == Refresh(rows, userId, now, Threw(UNDEFINED_KEY))
  {
    UndefinedKeyIsNoInvalidGrant();
  }

  /** The missing-key message does not mention invalid_grant: it has no '_'. */
  lemma UndefinedKeyIsNoInvalidGrant()
    ensures !Contains(UNDEFINED_KEY, INVALID_GRANT)
  {
    var u, g := UNDEFINED_KEY, INVALID_GRANT;
    assert g[7] == 95;
    assert Free(u, 95);
    forall i | 0 <= i <= |u| - |g|
      ensures !OccursAt(u, g, i)
    {
      assert u[i..i + |g|][7] == u[i + 7];
    }
  }

  /**
   * An exception fails the refresh without touching the tokens; the row is
   * marked disconnected exactly when the message mentions invalid_grant.
   */
  lemma ExceptionKeepsTokens(rows: map<Key, Credential>, userId: int, now: int, message: bytes)
    requires NeedsExchange(rows, userId, now)
    ensures var r := Refresh(rows, userId, now, Threw(message));
      var before, after := rows[KeyOf(userId)], r.rows[KeyOf(userId)];
      && !r.ok
      && after.accessToken == before.accessToken && after.refreshToken == before.refreshToken
      && after.expiresAt == before.expiresAt
      && (after.connected == Some(false) <==> Contains(message, INVALID_GRANT) || before.connected == Some(false))
      && (!Contains(message, INVALID_GRANT) ==> r.rows == rows)
  {
  }

  /**
   * After a successful exchange with a lifetime of more than five minutes,
   * a later refresh within that margin needs no second exchange.
   */
  lemma {:induction false} RenewedTokenIsValid(rows: map<Key, Credential>, userId: int, now: int, access: bytes,
                                               expiresIn: int, refresh: Option<bytes>, later: int, ex: Exchange)
    requires NeedsExchange(rows, userId, now)
    requires later < now + expiresIn - MARGIN
    requires refresh.None? || Present(refresh)
    ensures var r := Refresh(rows, userId, now, Granted(Some(access), Some(expiresIn), refresh));
      Refresh(r.rows, userId, later, ex) == RefreshOutcome(true, r.rows)
  {
    var r := Refresh(rows, userId, now, Granted(Some(access), Some(expiresIn), refresh));
    ExchangeUpdatesRow(rows, userId, now, access, expiresIn, refresh);
    assert StillValid(r.rows[KeyOf(userId)], later);
  }

  /** A client is handed out only after a successful refresh, and only with a non-empty access token. */
  lemma ClientNeedsRefreshAndToken(rows: map<Key, Credential>, userId: int, now: int, ex: Exchange)
    ensures var r := Refresh(rows, userId, now, ex);
      ClientToken(r, userId).Some? ==> r.ok && Truthy(ClientToken(r, userId).value)
    ensures !Refresh(rows, userId, now, ex).ok ==> ClientToken(Refresh(rows, userId, now, ex), userId).None?
  {
  }

  /**
   * checkConnection reports a connection only when the first refresh
   * succeeded, the second one too and the client had a token; whenever the
   * first refresh fails it reports disconnected.
   */
  lemma CheckNeedsRefresh(rows: map<Key, Credential>, userId: int, now: int, ex1: Exchange, ex2: Exchange,
                          info: Option<bytes>)
    ensures !Refresh(rows, userId, now, ex1).ok ==> Check(rows, userId, now, ex1, ex2, info).0.Disconnected?
    ensures Check(rows, userId, now, ex1, ex2, info).0.Connected? ==>
      var r1 := Refresh(rows, userId, now, ex1);
      r1.ok && ClientToken(Refresh(r1.rows, userId, now, ex2), userId).Some? && info.Some?
  {
  }
}

/**
 * GoogleMailController: the OAuth callback stores the user's Google
 * credential, getAuthorizedClient refreshes the access token with the
 * stored refresh token when the client reports the token expired, and
 * sendEmail writes a three-field HTML message
 * and sends it as unpadded base64url (section 5 of RFC 4648). Whether the
 * client reports the token as expired, the clock and the token endpoint's
 * answers are inputs.
 */
module GoogleMail {
  import opened PhpString
  import opened Base64
  import opened MimeText
  import opened GoogleService
  import opened OutgoingMessage

  /** The token fetched with the refresh token: its access token and lifetime. */
  datatype FetchedToken = FetchedToken(accessToken: bytes, expiresIn: int)

  /**
   * What fetchAccessTokenWithAuthCode answers: an error, or a token array
   * whose keys may each be missing. A client with only the gmail.send scope
   * is not normally given an id_token.
   */
  datatype TokenResponse =
    | TokenError
    | Token(accessToken: Option<bytes>, refreshToken: Option<bytes>, expiresIn: Option<int>, idToken: Option<bytes>)

  /**
   * The callback's response. Uncaught stands for an exception that escapes
   * the controller: the framework answers with a server error.
   */
  datatype CallbackResponse = AuthorizationFailed | TokenExchangeFailed | Uncaught | RedirectConnected

  /** A token array the callback can store: the three keys it indexes without a check are all there. */
  predicate Storable(token: TokenResponse) {
    token.Token? && token.idToken.Some? && token.accessToken.Some? && token.expiresIn.Some?
  }

  /** The sendEmail response. */
  datatype SendResponse = NotConnected | EmailSent

  const HTML_UTF8: bytes := Ascii("text/html; charset=utf-8")

  const EMPTY_ROW: Credential := Credential(None, None, None, None, None)

  /**
   * getAuthorizedClient on a row: only an expired token with a refresh token
   * is refreshed, and then only the access token and the expiry change.
   */
  function Authorized(c: Credential, expired: bool, now: int, fetched: FetchedToken): (r: Credential)
    ensures !(expired && Present(c.refreshToken)) ==> r == c
    ensures expired && Present(c.refreshToken) ==>
      r.accessToken == Some(fetched.accessToken) && r.expiresAt == Some(now + fetched.expiresIn)
    ensures r.refreshToken == c.refreshToken && r.connected == c.connected && r.providerEmail == c.providerEmail
  {
    if expired && Present(c.refreshToken)
    then c.(accessToken := Some(fetched.accessToken), expiresAt := Some(now + fetched.expiresIn))
    else c
  }

  /** The SDK's margin: a token counts as expired 30 seconds before its end. */
  const EXPIRY_LEEWAY: int := 30

  /** The `expires_in` the client is given: the stored expiry's Unix time, or 0 without one. */
  function LifetimePassed(c: Credential): int {
    if c.expiresAt.Some? then c.expiresAt.value else 0
  }

  /**
   * The client library's expiry test, created + (expires_in - 30) < time(),
   * for a token created now; it reads expires_in as a lifetime in seconds.
   */
  predicate ClientReportsExpired(created: int, expiresIn: int, now: int) {
    created + (expiresIn - EXPIRY_LEEWAY) < now
  }

  /**
   * As written, getAuthorizedClient passes the absolute expiry where a
   * lifetime is expected, with created = now. The client then reports the
   * token expired exactly when no expiry is stored (or one earlier than 30
   * seconds into 1970): a row with a stored expiry is never refreshed, however
   * long ago it expired, and one without is refreshed on every call.
   */
  lemma {:induction false} AbsoluteExpiryPassed(c: Credential, now: int, fetched: FetchedToken)
    ensures ClientReportsExpired(now, LifetimePassed(c), now) <==> c.expiresAt.None? || c.expiresAt.value < EXPIRY_LEEWAY
    ensures c.expiresAt.Some? && c.expiresAt.value >= EXPIRY_LEEWAY ==>
      Authorized(c, ClientReportsExpired(now, LifetimePassed(c), now), now, fetched) == c
    ensures c.expiresAt.None? && Present(c.refreshToken) ==>
      Authorized(c, ClientReportsExpired(now, LifetimePassed(c), now), now, fetched).accessToken == Some(fetched.accessToken)
  {
  }

  /** updateOrCreate on (user, google): the three token columns of the existing or a new row. */
  function Upsert(rows: map<Key, Credential>, userId: int, now: int, token: TokenResponse): (r: map<Key, Credential>)
    requires token.Token? && token.accessToken.Some? && token.expiresIn.Some?
    ensures r.Keys == rows.Keys + {KeyOf(userId)}
    ensures forall k :: k in rows && k != KeyOf(userId) ==> r[k] == rows[k]
    ensures r[KeyOf(userId)].accessToken == token.accessToken
    ensures r[KeyOf(userId)].refreshToken == token.refreshToken
    ensures r[KeyOf(userId)].expiresAt == Some(now + token.expiresIn.value)
    ensures KeyOf(userId) in rows ==>
      r[KeyOf(userId)].connected == rows[KeyOf(userId)].connected &&
      r[KeyOf(userId)].providerEmail == rows[KeyOf(userId)].providerEmail
  {
    var key := KeyOf(userId);
    var row := if key in rows then rows[key] else EMPTY_ROW;
    rows[key := row.(accessToken := token.accessToken, refreshToken := token.refreshToken,
                     expiresAt := Some(now + token.expiresIn.value))]
  }

  /**
   * The callback. No code, an empty code (the exchange throws on it), an
   * error answer, a missing id_token, access_token or expires_in, and an
   * id token whose verification throws all store nothing; only a complete
   * answer upserts the row. verifyThrows is whether verifyIdToken throws;
   * what it returns is not used.
   */
  method Callback(t: ProviderTable, userId: int, code: Option<bytes>, now: int, token: TokenResponse,
                  verifyThrows: bool)
      returns (response: CallbackResponse)
    modifies t
    ensures response != RedirectConnected ==> t.rows == old(t.rows)
    ensures code.None? ==> response == AuthorizationFailed
    ensures code == Some([]) ==> response == Uncaught
    ensures code.Some? && code.value != [] && token.TokenError? ==> response == TokenExchangeFailed
    ensures code.Some? && code.value != [] && token.Token? && (!Storable(token) || verifyThrows) ==> response == Uncaught
    ensures response == RedirectConnected <==> code.Some? && code.value != [] && Storable(token) && !verifyThrows
    ensures response == RedirectConnected ==> t.rows == Upsert(old(t.rows), userId, now, token)
  {
    if code.None? {
      return AuthorizationFailed;
    }
    if code.value == [] {
      return Uncaught;
    }
    if token.TokenError? {
      return TokenExchangeFailed;
    }
    if token.idToken.None? || verifyThrows {
      return Uncaught;
    }
    if token.accessToken.None? || token.expiresIn.None? {
      return Uncaught;
    }
    t.rows := Upsert(t.rows, userId, now, token);
    response := RedirectConnected;
  }

  /** getAuthorizedClient on the user's row, updated in place. */
  method GetAuthorizedClient(t: ProviderTable, userId: int, expired: bool, now: int, fetched: FetchedToken)
    requires KeyOf(userId) in t.rows
    modifies t
    ensures t.rows == old(t.rows)[KeyOf(userId) := Authorized(old(t.rows)[KeyOf(userId)], expired, now, fetched)]
  {
    var key := KeyOf(userId);
    var provider := t.rows[key];
    if expired && Present(provider.refreshToken) {
      t.rows := t.rows[key := provider.(accessToken := Some(fetched.accessToken),
                                        expiresAt := Some(now + fetched.expiresIn))];
    }
  }

  /** The fields of the message sendEmail writes: To, Subject and an HTML Content-Type, no From. */
  function SimpleFields(to: bytes, subject: bytes): seq<(bytes, bytes)> {
    [(TO, to), (SUBJECT, subject), (CONTENT_TYPE, HTML_UTF8)]
  }

  /** The raw message, built by successive appends. */
  method BuildSimpleRaw(to: bytes, subject: bytes, body: bytes) returns (raw: bytes)
    ensures raw == Compose(SimpleFields(to, subject), body)
  {
    raw := Field(TO, to) + CRLF();
    raw := raw + Field(SUBJECT, subject) + CRLF();
    raw := raw + Field(CONTENT_TYPE, HTML_UTF8) + CRLF() + CRLF();
    raw := raw + body;
    var t := Terminated(FieldLines(SimpleFields(to, subject)), CRLF());
    ConcatThree(t);
  }

  /**
   * sendEmail: without a stored Google row nothing happens; otherwise the
   * row goes through getAuthorizedClient and the raw message is sent as
   * unpadded base64url.
   */
  method SendEmail(t: ProviderTable, userId: int, to: bytes, subject: bytes, body: bytes,
                   expired: bool, now: int, fetched: FetchedToken)
      returns (response: SendResponse, wire: Option<bytes>)
    modifies t
    ensures KeyOf(userId) !in old(t.rows) ==> response == NotConnected && wire.None? && t.rows == old(t.rows)
    ensures KeyOf(userId) in old(t.rows) ==>
      && response == EmailSent
      && t.rows == old(t.rows)[KeyOf(userId) := Authorized(old(t.rows)[KeyOf(userId)], expired, now, fetched)]
      && wire == Some(EncodeUnpaddedUrlSafe(Compose(SimpleFields(to, subject), body)))
  {
    if KeyOf(userId) !in t.rows {
      return NotConnected, None;
    }
    GetAuthorizedClient(t, userId, expired, now, fetched);
    var raw := BuildSimpleRaw(to, subject, body);
    wire := Some(EncodeUnpaddedUrlSafe(raw));
    response := EmailSent;
  }

  lemma SimpleFieldsGood(to: bytes, subject: bytes)
    requires Free(to, CR) && Free(subject, CR)
    ensures GoodFields(SimpleFields(to, subject))
  {
    NameText("To");
    NameText("Subject");
    NameText("Content-Type");
    PrintableText("text/html; charset=utf-8");
  }

  /**
   * Read back, the message has exactly the fields To, Subject and
   * Content-Type text/html, none of them From, and then the body.
   */
  lemma SimpleMessageReadsBack(to: bytes, subject: bytes, body: bytes)
    requires Free(to, CR) && Free(subject, CR)
    ensures Parse(Compose(SimpleFields(to, subject), body)) == Some((SimpleFields(to, subject), body))
    ensures forall i :: 0 <= i < |SimpleFields(to, subject)| ==> SimpleFields(to, subject)[i].0 != FROM
  {
    SimpleFieldsGood(to, subject);
    ParseCompose(SimpleFields(to, subject), body);
    assert FROM[0] != TO[0] && FROM[0] != SUBJECT[0] && FROM[0] != CONTENT_TYPE[0];
  }

  /** The wire form holds no '+', '/' or '=' and decodes back to the raw message. */
  lemma SimpleWireReadsBack(to: bytes, subject: bytes, body: bytes)
    ensures var raw := Compose(SimpleFields(to, subject), body);
      UrlSafeDecode(EncodeUnpaddedUrlSafe(raw)) == raw
  {
    UrlSafeRoundTrip(Compose(SimpleFields(to, subject), body));
  }

  /** getAuthorizedClient never changes the refresh token, and refreshing twice while expired keeps it too. */
  lemma RefreshTokenNeverRotates(c: Credential, e1: bool, e2: bool, now1: int, now2: int,
                                 f1: FetchedToken, f2: FetchedToken)
    ensures Authorized(Authorized(c, e1, now1, f1), e2, now2, f2).refreshToken == c.refreshToken
    ensures Present(c.refreshToken) <==> Present(Authorized(c, e1, now1, f1).refreshToken)
  {
  }

  /** A callback without a refresh token stores null, so getAuthorizedClient never refreshes that row. */
  lemma CallbackWithoutRefreshToken(rows: map<Key, Credential>, userId: int, now: int, access: bytes,
                                    expiresIn: int, id: bytes, expired: bool, later: int, fetched: FetchedToken)
    ensures var r := Upsert(rows, userId, now, Token(Some(access), None, Some(expiresIn), Some(id)));
      && r[KeyOf(userId)].refreshToken.None?
      && Authorized(r[KeyOf(userId)], expired, later, fetched) == r[KeyOf(userId)]
  {
  }

  /** The callback is the only writer of the refresh token: a later callback replaces it, null included. */
  lemma CallbackReplacesRefreshToken(rows: map<Key, Credential>, userId: int, now: int, t1: TokenResponse,
                                     t2: TokenResponse)
    requires Storable(t1) && Storable(t2)
    ensures Upsert(Upsert(rows, userId, now, t1), userId, now, t2)[KeyOf(userId)].refreshToken == t2.refreshToken
    ensures Upsert(Upsert(rows, userId, now, t1), userId, now, t2).Keys == Upsert(rows, userId, now, t1).Keys
  {
  }
}

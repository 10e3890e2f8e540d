/**
  The credential cache and the token acquisition around it (main.ts, getAuthCode).

  The cache file authCode.json holds {code, expires_at}: the access token and
  its absolute expiry in epoch milliseconds. A cached record is used when its
  code is a non-empty string and its expiry lies strictly after the current
  instant; the remaining lifetime handed to the API client is then the whole
  number of seconds left, rounded down. Otherwise the operator pastes the
  redirect URL, the authorization code is exchanged for a token, and the new
  token is written back with expires_at = now + expires_in * 1000.

  The clock, the pasted text and the token endpoint are parameters.
 */
module TokenCache {
  import opened Wrappers
  import opened AuthCode

  /**
    The cache file as parsed; a field is None when the JSON object lacks it or holds a
    non-value. A `code` that is present but not a string (a number, say) is also None here.
   */
  datatype StoredRecord = StoredRecord(code: Option<string>, expiresAt: Option<int>)

  /** The token record the API client is built from. */
  datatype Session = Session(accessToken: string, expiresIn: int, refreshToken: string)

  /** The JSON body of the token endpoint's answer, with the HTTP success flag. */
  datatype ExchangeResponse = ExchangeResponse(
    ok: bool,
    accessToken: string,
    expiresIn: int,
    refreshToken: Option<string>,
    error: Option<string>,
    errorDescription: Option<string>)

  /** What a successful acquisition yields: the token, the client session, and the new cache file if one is written. */
  datatype Acquired = Acquired(token: string, session: Session, saved: Option<StoredRecord>)

  const MillisPerSecond: int := 1000

  /** The acceptance test of main.ts:58-62; `file` is None when the read or the parse failed. */
  predicate Usable(file: Option<StoredRecord>, now: int)
  {
    && file.Some?
    && file.value.code.Some? && file.value.code.value != ""
    && file.value.expiresAt.Some? && file.value.expiresAt.value > now
  }

  /** Expiry is a deadline: a record accepted at an instant is accepted at every earlier one and rejected from its expiry on. */
  lemma UsableUntilExpiry(file: Option<StoredRecord>, now: int, earlier: int)
    requires Usable(file, now) && earlier <= now
    ensures Usable(file, earlier)
    ensures !Usable(file, file.value.expiresAt.value)
  {
  }

  /** Load the cached token: the session to resume, or None when the cache is unusable. */
  function LoadCached(file: Option<StoredRecord>, now: int): (r: Option<Session>)
    ensures r.Some? <==> Usable(file, now)
    ensures r.Some? ==> file.value.code == Some(r.value.accessToken) && r.value.refreshToken == ""
    ensures r.Some? ==>
      && 0 <= r.value.expiresIn
      && r.value.expiresIn * MillisPerSecond <= file.value.expiresAt.value - now
      && file.value.expiresAt.value - now < (r.value.expiresIn + 1) * MillisPerSecond
  {
    if Usable(file, now) then
      var remaining := file.value.expiresAt.value - now;
      Some(Session(file.value.code.value, remaining / MillisPerSecond, ""))
    else
      None
  }

  /** The record written after a successful exchange at instant `now` (main.ts:130-137). */
  function Save(token: string, expiresIn: int, now: int): (r: StoredRecord)
    ensures r.code == Some(token)
    ensures r.expiresAt.Some? && r.expiresAt.value - now == expiresIn * MillisPerSecond
  {
    StoredRecord(Some(token), Some(now + expiresIn * MillisPerSecond))
  }

  /** The detail of a failed exchange: error_description when it is a non-empty string, else error. */
  function FailureDetail(response: ExchangeResponse): (r: Option<string>)
    ensures r == response.errorDescription || r == response.error
    ensures r != response.errorDescription ==> response.errorDescription in {None, Some("")}
    ensures response.errorDescription in {None, Some("")} ==> r == response.error
  {
    if response.errorDescription.Some? && response.errorDescription.value != "" then response.errorDescription
    else response.error
  }

  /**
    getAuthCode: `file` is the parsed cache, `loadedAt` the instant of the cache check,
    `pasted` the operator's answer to the prompt, `exchange` the token endpoint and
    `savedAt` the instant at which the new record is written.
   */
  function GetAuthCode(
    file: Option<StoredRecord>, loadedAt: int,
    pasted: string, exchange: string -> ExchangeResponse, savedAt: int): (r: Result<Acquired, AuthError>)
    ensures Usable(file, loadedAt) ==>
      r.Success? && r.value.saved.None? && r.value.session == LoadCached(file, loadedAt).value
    ensures r.Failure? ==> !Usable(file, loadedAt)
    ensures r.Success? ==> r.value.token == r.value.session.accessToken
    ensures r.Success? && !Usable(file, loadedAt) ==>
      r.value.saved == Some(Save(r.value.token, r.value.session.expiresIn, savedAt))
    ensures r.Success? && !Usable(file, loadedAt) ==>
      && ExtractCode(pasted).Success?
      && var response := exchange(ExtractCode(pasted).value);
      && response.ok
      && r.value.session.accessToken == response.accessToken
      && r.value.session.expiresIn == response.expiresIn
      && r.value.session.refreshToken == (if response.refreshToken.Some? then response.refreshToken.value else "")
  {
    match LoadCached(file, loadedAt)
    case Some(session) => Success(Acquired(session.accessToken, session, None))
    case None =>
      match ExtractCode(pasted)
      case Failure(e) => Failure(e)
      case Success(code) =>
        var response := exchange(code);
        if !response.ok then
          Failure(TokenExchangeFailed(FailureDetail(response)))
        else
          var refresh := if response.refreshToken.Some? then response.refreshToken.value else "";
          var session := Session(response.accessToken, response.expiresIn, refresh);
          Success(Acquired(response.accessToken, session, Some(Save(response.accessToken, response.expiresIn, savedAt))))
  }

  /**
    Save/load consistency: a record saved at t for e seconds is accepted at a later
    load exactly when its token is non-empty and the load happens before t + 1000*e;
    the lifetime recomputed then never exceeds e, and equals e at the instant of saving.
   */
  lemma SaveThenLoad(token: string, e: int, t: int, now: int)
    ensures LoadCached(Some(Save(token, e, t)), now).Some? <==> token != "" && now < t + MillisPerSecond * e
    ensures t <= now && LoadCached(Some(Save(token, e, t)), now).Some? ==>
      LoadCached(Some(Save(token, e, t)), now).value.expiresIn <= e
    ensures token != "" && 0 < e ==>
      LoadCached(Some(Save(token, e, t)), t) == Some(Session(token, e, ""))
  {
    var r := LoadCached(Some(Save(token, e, t)), now);
    if t <= now && r.Some? {
      var remaining := t + e * MillisPerSecond - now;
      assert remaining <= e * MillisPerSecond;
      assert r.value.expiresIn * MillisPerSecond <= remaining;
    }
    if token != "" && 0 < e {
      assert (t + e * MillisPerSecond - t) / MillisPerSecond == e;
    }
  }

  /** A usable cache is returned as stored, whatever the operator would paste and the endpoint would answer. */
  lemma CachedTokenSkipsExchange(
    file: Option<StoredRecord>, loadedAt: int,
    pasted1: string, exchange1: string -> ExchangeResponse, savedAt1: int,
    pasted2: string, exchange2: string -> ExchangeResponse, savedAt2: int)
    requires Usable(file, loadedAt)
    ensures GetAuthCode(file, loadedAt, pasted1, exchange1, savedAt1) == GetAuthCode(file, loadedAt, pasted2, exchange2, savedAt2)
    ensures GetAuthCode(file, loadedAt, pasted1, exchange1, savedAt1).Success?
    ensures GetAuthCode(file, loadedAt, pasted1, exchange1, savedAt1).value.token == file.value.code.value
    ensures GetAuthCode(file, loadedAt, pasted1, exchange1, savedAt1).value.saved.None?
  {
  }

  /** An expired, empty or unreadable cache behaves exactly like no cache at all. */
  lemma UnusableCacheIsAbsent(
    file: Option<StoredRecord>, loadedAt: int,
    pasted: string, exchange: string -> ExchangeResponse, savedAt: int)
    requires !Usable(file, loadedAt)
    ensures GetAuthCode(file, loadedAt, pasted, exchange, savedAt) == GetAuthCode(None, loadedAt, pasted, exchange, savedAt)
  {
  }

  /** The two fatal errors of acquisition and exactly when each is raised. */
  lemma AcquisitionFailures(
    file: Option<StoredRecord>, loadedAt: int,
    pasted: string, exchange: string -> ExchangeResponse, savedAt: int)
    ensures GetAuthCode(file, loadedAt, pasted, exchange, savedAt) == Failure(AuthCodeNotFound) <==>
      !Usable(file, loadedAt) && StartsWithHttp(pasted) && forall i :: 0 <= i < |pasted| ==> !MatchAt(pasted, i)
    ensures GetAuthCode(file, loadedAt, pasted, exchange, savedAt).Failure? &&
            GetAuthCode(file, loadedAt, pasted, exchange, savedAt).error.TokenExchangeFailed? <==>
      !Usable(file, loadedAt) && ExtractCode(pasted).Success? && !exchange(ExtractCode(pasted).value).ok
  {
  }

  /**
    A freshly acquired token is cached so that a later run at `now` resumes it exactly
    when the token is non-empty and `now` lies before savedAt + 1000 * expires_in.
   */
  lemma FreshTokenIsCached(
    file: Option<StoredRecord>, loadedAt: int,
    pasted: string, exchange: string -> ExchangeResponse, savedAt: int, now: int)
    requires GetAuthCode(file, loadedAt, pasted, exchange, savedAt).Success?
    requires !Usable(file, loadedAt)
    ensures var a := GetAuthCode(file, loadedAt, pasted, exchange, savedAt).value;
      && a.saved.Some?
      && a.token == exchange(ExtractCode(pasted).value).accessToken
      && (Usable(a.saved, now) <==>
            a.token != "" && now < savedAt + MillisPerSecond * exchange(ExtractCode(pasted).value).expiresIn)
      && (Usable(a.saved, now) ==> LoadCached(a.saved, now).value.accessToken == a.token)
  {
    var a := GetAuthCode(file, loadedAt, pasted, exchange, savedAt).value;
    SaveThenLoad(a.token, a.session.expiresIn, savedAt, now);
  }

  /**
    The detail carried by a failed exchange: the endpoint's error_description when it
    sent a non-empty one, otherwise its error code (main.ts:114-120).
   */
  lemma ExchangeFailureDetail(
    file: Option<StoredRecord>, loadedAt: int,
    pasted: string, exchange: string -> ExchangeResponse, savedAt: int)
    requires GetAuthCode(file, loadedAt, pasted, exchange, savedAt).Failure?
    requires GetAuthCode(file, loadedAt, pasted, exchange, savedAt).error.TokenExchangeFailed?
    ensures var response := exchange(ExtractCode(pasted).value);
      var d := GetAuthCode(file, loadedAt, pasted, exchange, savedAt).error.detail;
      && !response.ok
      && (response.errorDescription.Some? && response.errorDescription.value != "" ==> d == response.errorDescription)
      && (response.errorDescription.None? || response.errorDescription == Some("") ==> d == response.error)
  {
  }
}

/**
 * Validation of the body of a token creation request
 * (`TokenRequestSchema` of wazo_auth/plugins/http/tokens/schemas.py): the
 * per-field rules and the two cross-field rules about `access_type`,
 * `refresh_token` and `client_id`.  A field absent from the body is `None`.
 */
module TokenRequest {
  import opened Wrappers

  const DefaultBackend: string := "wazo_user"
  const MaxClientIdLength: nat := 1024

  /** The request body as sent. */
  datatype RawRequest = RawRequest(
    backend: Option<string>,
    expiration: Option<int>,
    accessType: Option<string>,
    clientId: Option<string>,
    refreshToken: Option<string>)

  /** The request once loaded: the backend is always known. */
  datatype Request = Request(
    backend: string,
    expiration: Option<int>,
    accessType: Option<string>,
    clientId: Option<string>,
    refreshToken: Option<string>)

  datatype SchemaError =
    | ExpirationTooSmall
    | UnknownAccessType
    | ClientIdLength
    | OfflineWithRefreshToken
    | OfflineWithoutClientId
    | RefreshTokenWithoutClientId

  /** A string field is present and non-empty (Python truthiness). */
  predicate Truthy(s: Option<string>) {
    s.Some? && s.value != ""
  }

  /** The rule that the error `e` reports, as a property of the body. */
  predicate Violates(raw: RawRequest, e: SchemaError) {
    match e
    case ExpirationTooSmall => raw.expiration.Some? && raw.expiration.value < 1
    case UnknownAccessType => raw.accessType.Some? && raw.accessType.value !in {"online", "offline"}
    case ClientIdLength => raw.clientId.Some? && !(1 <= |raw.clientId.value| <= MaxClientIdLength)
    case OfflineWithRefreshToken => raw.accessType == Some("offline") && Truthy(raw.refreshToken)
    case OfflineWithoutClientId => raw.accessType == Some("offline") && !Truthy(raw.clientId)
    case RefreshTokenWithoutClientId => Truthy(raw.refreshToken) && !Truthy(raw.clientId)
  }

  /** Every rule of the schema holds. */
  predicate WellFormed(raw: RawRequest) {
    (raw.expiration.Some? ==> raw.expiration.value >= 1) &&
    (raw.accessType.Some? ==> raw.accessType.value == "online" || raw.accessType.value == "offline") &&
    (raw.clientId.Some? ==> 1 <= |raw.clientId.value| <= MaxClientIdLength) &&
    (raw.accessType == Some("offline") ==> !Truthy(raw.refreshToken) && Truthy(raw.clientId)) &&
    (Truthy(raw.refreshToken) ==> Truthy(raw.clientId))
  }

  /** `check_access_type_usage`: nothing to check unless the access type is
      `offline`; then no refresh token, and a client id. */
  function CheckAccessTypeUsage(raw: RawRequest): (r: Option<SchemaError>)
    ensures r.None? <==> (raw.accessType == Some("offline") ==> !Truthy(raw.refreshToken) && Truthy(raw.clientId))
    ensures r.Some? ==> Violates(raw, r.value)
  {
    if raw.accessType != Some("offline") then None
    else if Truthy(raw.refreshToken) then Some(OfflineWithRefreshToken)
    else if !Truthy(raw.clientId) then Some(OfflineWithoutClientId)
    else None
  }

  /** `check_refresh_token_usage`: a refresh token needs a client id. */
  function CheckRefreshTokenUsage(raw: RawRequest): (r: Option<SchemaError>)
    ensures r.None? <==> (Truthy(raw.refreshToken) ==> Truthy(raw.clientId))
    ensures r.Some? ==> r.value == RefreshTokenWithoutClientId && Violates(raw, r.value)
  {
    if !Truthy(raw.refreshToken) then None
    else if !Truthy(raw.clientId) then Some(RefreshTokenWithoutClientId)
    else None
  }

  /** Loads a request body: the field validators, then the two schema
      validators; the first rule that fails is reported. */
  function Load(raw: RawRequest): (r: Result<Request, SchemaError>)
    ensures r.Ok? <==> WellFormed(raw)
    ensures r.Err? ==> Violates(raw, r.error)
    ensures r.Ok? ==> r.value.backend == raw.backend.GetOr(DefaultBackend)
    ensures r.Ok? ==> r.value.expiration == raw.expiration && r.value.accessType == raw.accessType &&
                      r.value.clientId == raw.clientId && r.value.refreshToken == raw.refreshToken
  {
    if raw.expiration.Some? && raw.expiration.value < 1 then Err(ExpirationTooSmall)
    else if raw.accessType.Some? && raw.accessType.value != "online" && raw.accessType.value != "offline" then
      Err(UnknownAccessType)
    else if raw.clientId.Some? && !(1 <= |raw.clientId.value| <= MaxClientIdLength) then Err(ClientIdLength)
    else if CheckAccessTypeUsage(raw).Some? then Err(CheckAccessTypeUsage(raw).value)
    else if CheckRefreshTokenUsage(raw).Some? then Err(CheckRefreshTokenUsage(raw).value)
    else Ok(Request(raw.backend.GetOr(DefaultBackend), raw.expiration, raw.accessType, raw.clientId, raw.refreshToken))
  }

  /** A body is rejected exactly when it breaks one of the rules, and every
      rule that can be reported is one the body breaks. */
  lemma RejectedIffSomeRuleBroken(raw: RawRequest)
    ensures Load(raw).Err? <==> exists e :: Violates(raw, e)
  {
    if Load(raw).Err? {
      assert Violates(raw, Load(raw).error);
    }
  }

  /** A zero or negative lifetime is always refused. */
  lemma NonPositiveExpirationRejected(raw: RawRequest)
    requires raw.expiration.Some? && raw.expiration.value <= 0
    ensures Load(raw) == Err(ExpirationTooSmall)
  {
  }

  /** The two cross-field rules do not apply to an online (or unspecified)
      request without a refresh token. */
  lemma OnlineWithoutRefreshTokenSkipsCrossChecks(raw: RawRequest)
    requires raw.accessType != Some("offline") && !Truthy(raw.refreshToken)
    ensures CheckAccessTypeUsage(raw).None? && CheckRefreshTokenUsage(raw).None?
  {
  }

  /** An empty refresh token is treated as an absent one. */
  lemma EmptyRefreshTokenIsAbsent(raw: RawRequest)
    ensures Load(raw.(refreshToken := Some(""))).Ok? == Load(raw.(refreshToken := None)).Ok?
    ensures Load(raw.(refreshToken := Some(""))).Err? ==>
              Load(raw.(refreshToken := Some(""))) == Load(raw.(refreshToken := None))
  {
  }

  /** An offline request is accepted only with a client id and without a
      refresh token. */
  lemma OfflineNeedsClientIdAndNoRefreshToken(raw: RawRequest)
    requires raw.accessType == Some("offline")
    ensures Load(raw).Ok? ==> Truthy(raw.clientId) && !Truthy(raw.refreshToken)
  {
  }
}

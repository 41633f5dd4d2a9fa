/** TotpInfoResolver: resumes an OAuth login that is waiting for its TOTP step.

    The resolver reads the MFA session and the pending user id from two
    cookies, loads the user, fetches the encrypted TOTP information stored
    for (user id, MFA session, MfaOAuthSessionPrefix), decrypts it, parses it
    as a query string and assembles an AuthResponse. It stops at the first
    step that fails.

    Every collaborator outside this model (the request context, the cookie
    accessors, the user database, the memory store, the decryption and the
    three conversion helpers) is an input: `Env` holds the outcome of each
    call, or the function that gives it for the arguments it is called with.
    The resolver returns Go's `(*AuthResponse, error)` pair together with the
    list of collaborator calls it made, in order. */
module TotpInfo {
  import opened Wrappers
  import opened Errors
  import opened Strings
  import Url

  /** The collaborators, by the outcome they give. */
  datatype Env<!User, ApiUser> = Env(
    ginContextError: Option<Error>,                              // utils.GinContextFromContext
    mfaSessionCookie: Result<string, Error>,                     // cookie.GetMfaSession
    oauthMfaSessionCookie: Result<string, Error>,                // cookie.GetOAuthMfaSession
    getUserById: string -> Result<Option<User>, Error>,          // db.Provider.GetUserByID
    getMfaSession: (string, string, string) -> Result<string, Error>, // memorystore.Provider.GetMfaSession
    decryptB64: string -> Result<string, Error>,                 // crypto.DecryptB64
    mfaOAuthSessionPrefix: string,                               // redis.MfaOAuthSessionPrefix
    parseBool: string -> bool,                                   // utils.ParseBool
    parseStringArray: string -> seq<string>,                     // utils.ParseStringArray
    asApiUser: User -> ApiUser)                                  // (*models.User).AsAPIUser

  /** A call into a collaborator, with the arguments it was given. */
  datatype Call =
    | GinContextFromContext
    | GetMfaSessionCookie
    | GetOAuthMfaSessionCookie
    | GetUserByID(userId: string)
    | GetMfaSession(userId: string, mfaSession: string, prefix: string)
    | DecryptB64(encrypted: string)

  /** model.AuthResponse, with the fields this resolver sets. */
  datatype AuthResponse<ApiUser> = AuthResponse(
    message: string,
    shouldShowTotpScreen: bool,
    authenticatorScannerImage: Option<string>,
    authenticatorSecret: Option<string>,
    authenticatorRecoveryCodes: seq<string>,
    user: ApiUser)

  /** The resolver's `(res, err)` and the collaborator calls made, in order. */
  datatype Run<ApiUser> = Run(response: Option<AuthResponse<ApiUser>>, err: Option<Error>, calls: seq<Call>)

  const ProceedMessage := "Proceed to totp flow"
  const ShouldShowTotpScreenKey := "should_show_totp_screen"
  const ScannerImageKey := "authenticator_scanner_image"
  const SecretKey := "authenticator_secret"
  const RecoveryCodesKey := "authenticator_recovery_codes"

  /** fmt.Errorf(`invalid session: %s`, err.Error()) */
  function InvalidSession(e: Error): (r: Error)
    ensures r.Errorf? && |Text(r)| == 17 + |Text(e)| && Text(r)[..17] == "invalid session: " && Text(r)[17..] == Text(e)
    ensures r != UserNotFound
  {
    Errorf("invalid session: " + Text(e))
  }

  /** fmt.Errorf(`failed to get user by id: %s`, err.Error()) */
  function FailedToGetUser(e: Error): (r: Error)
    ensures r.Errorf? && |Text(r)| == 26 + |Text(e)| && Text(r)[..26] == "failed to get user by id: " && Text(r)[26..] == Text(e)
    ensures r != UserNotFound
  {
    Errorf("failed to get user by id: " + Text(e))
  }

  /** fmt.Errorf(`user not found`) */
  const UserNotFound := Errorf("user not found")

  function Fail<A>(e: Error, calls: seq<Call>): Run<A> {
    Run(None, Some(e), calls)
  }

  /** strings.Replace(image, " ", "+", -1): ParseQuery read every '+' of the
      stored image as a space; this puts the '+' back. */
  function NormaliseScannerImage(image: string): (r: string)
    ensures |r| == |image| && ' ' !in r
    ensures forall i :: 0 <= i < |image| ==> r[i] == (if image[i] == ' ' then '+' else image[i])
  {
    ReplaceLeavesNone(image, ' ', '+');
    Replace(image, ' ', '+')
  }

  /** The response built from the parsed TOTP information and the user. */
  function NewAuthResponse<U, A>(env: Env<U, A>, values: Url.Values, user: U): (r: AuthResponse<A>)
    ensures r.message == ProceedMessage
    ensures r.authenticatorScannerImage.Some? && ' ' !in r.authenticatorScannerImage.value
    ensures |r.authenticatorScannerImage.value| == |Url.Get(values, ScannerImageKey)|
    ensures r.authenticatorSecret == Some(Url.Get(values, SecretKey))
    ensures r.user == env.asApiUser(user)
  {
    AuthResponse(
      ProceedMessage,
      env.parseBool(Url.Get(values, ShouldShowTotpScreenKey)),
      Some(NormaliseScannerImage(Url.Get(values, ScannerImageKey))),
      Some(Url.Get(values, SecretKey)),
      env.parseStringArray(Url.Get(values, RecoveryCodesKey)),
      env.asApiUser(user))
  }

  /** TotpInfoResolver. */
  function TotpInfoResolver<U, A>(env: Env<U, A>): (run: Run<A>)
    ensures run.response.Some? <==> run.err.None?
    ensures |run.calls| >= 1 && run.calls[0] == GinContextFromContext
  {
    if env.ginContextError.Some? then Fail(env.ginContextError.value, [GinContextFromContext])
    else
      var calls := [GinContextFromContext, GetMfaSessionCookie];
      match env.mfaSessionCookie
      case Failure(e) => Fail(InvalidSession(e), calls)
      case Success(mfaSession) =>
        var calls := calls + [GetOAuthMfaSessionCookie];
        match env.oauthMfaSessionCookie
        case Failure(e) => Fail(InvalidSession(e), calls)
        case Success(userId) =>
          if userId == "" then Fail(UserNotFound, calls)
          else
            var calls := calls + [GetUserByID(userId)];
            match env.getUserById(userId)
            case Failure(e) => Fail(FailedToGetUser(e), calls)
            case Success(found) =>
              if found.None? then Fail(UserNotFound, calls)
              else
                var prefix := env.mfaOAuthSessionPrefix;
                var calls := calls + [GetMfaSession(userId, mfaSession, prefix)];
                match env.getMfaSession(userId, mfaSession, prefix)
                case Failure(e) => Fail(InvalidSession(e), calls)
                case Success(encrypted) =>
                  var calls := calls + [DecryptB64(encrypted)];
                  match env.decryptB64(encrypted)
                  case Failure(e) => Fail(e, calls)
                  case Success(totpInfo) =>
                    match Url.ParseQuery(totpInfo)
                    case Failure(e) => Fail(e, calls)
                    case Success(values) =>
                      Run(Some(NewAuthResponse(env, values, found.value)), None, calls)
  }

  // ---------------------------------------------------------------------
  // The steps before the payload, and how each failure is reported
  // ---------------------------------------------------------------------

  /** The request context is there and both cookies were read. */
  ghost predicate CookiesRead<U, A>(env: Env<U, A>, mfaSession: string, userId: string) {
    env.ginContextError.None?
    && env.mfaSessionCookie == Success(mfaSession)
    && env.oauthMfaSessionCookie == Success(userId)
  }

  /** The three errors the resolver builds itself can be told apart. */
  lemma {:induction false} OwnErrorsDistinct(e1: Error, e2: Error)
    ensures UserNotFound != InvalidSession(e1)
    ensures UserNotFound != FailedToGetUser(e1)
    ensures InvalidSession(e1) != FailedToGetUser(e2)
    ensures Text(InvalidSession(e1))[..17] == "invalid session: "
    ensures Text(FailedToGetUser(e1))[..26] == "failed to get user by id: "
    ensures Text(UserNotFound) == "user not found"
  {
    var invalid := "invalid session: " + Text(e1);
    var failed := "failed to get user by id: " + Text(e2);
    var failed1 := "failed to get user by id: " + Text(e1);
    assert invalid[0] == 'i' && failed[0] == 'f' && failed1[0] == 'f';
    assert "user not found"[0] == 'u';
    assert invalid[..17] == "invalid session: ";
    assert failed1[..26] == "failed to get user by id: ";
  }

  /** When the request context cannot be had, its error is returned as it is
      and no cookie, database or store call is made. */
  lemma ContextErrorReturnedUnchanged<U, A>(env: Env<U, A>)
    requires env.ginContextError.Some?
    ensures TotpInfoResolver(env) == Run(None, env.ginContextError, [GinContextFromContext])
  {
  }

  /** An unreadable MFA session cookie is an invalid session, whatever the
      user-id cookie holds: that cookie is not even read. */
  lemma SessionCookieErrorIsInvalidSession<U, A>(env: Env<U, A>)
    requires env.ginContextError.None? && env.mfaSessionCookie.Failure?
    ensures TotpInfoResolver(env)
            == Run(None, Some(InvalidSession(env.mfaSessionCookie.error)),
                   [GinContextFromContext, GetMfaSessionCookie])
  {
  }

  /** An unreadable user-id cookie is an invalid session too; nothing is
      looked up. */
  lemma UserIdCookieErrorIsInvalidSession<U, A>(env: Env<U, A>)
    requires env.ginContextError.None? && env.mfaSessionCookie.Success?
    requires env.oauthMfaSessionCookie.Failure?
    ensures TotpInfoResolver(env)
            == Run(None, Some(InvalidSession(env.oauthMfaSessionCookie.error)),
                   [GinContextFromContext, GetMfaSessionCookie, GetOAuthMfaSessionCookie])
  {
  }

  /** An empty user id is "user not found" without a database lookup. */
  lemma EmptyUserIdNotFound<U, A>(env: Env<U, A>, mfaSession: string)
    requires CookiesRead(env, mfaSession, "")
    ensures TotpInfoResolver(env)
            == Run(None, Some(UserNotFound),
                   [GinContextFromContext, GetMfaSessionCookie, GetOAuthMfaSessionCookie])
  {
  }

  /** A lookup that finds no user, without an error, is "user not found". */
  lemma NoUserNotFound<U, A>(env: Env<U, A>, mfaSession: string, userId: string)
    requires CookiesRead(env, mfaSession, userId) && userId != ""
    requires env.getUserById(userId) == Success(None)
    ensures TotpInfoResolver(env)
            == Run(None, Some(UserNotFound),
                   [GinContextFromContext, GetMfaSessionCookie, GetOAuthMfaSessionCookie, GetUserByID(userId)])
  {
  }

  /** A lookup error is reported as such, not as "user not found". */
  lemma LookupErrorReported<U, A>(env: Env<U, A>, mfaSession: string, userId: string)
    requires CookiesRead(env, mfaSession, userId) && userId != ""
    requires env.getUserById(userId).Failure?
    ensures TotpInfoResolver(env).err == Some(FailedToGetUser(env.getUserById(userId).error))
    ensures TotpInfoResolver(env).err != Some(UserNotFound)
    ensures TotpInfoResolver(env).calls
            == [GinContextFromContext, GetMfaSessionCookie, GetOAuthMfaSessionCookie, GetUserByID(userId)]
  {
    OwnErrorsDistinct(env.getUserById(userId).error, env.getUserById(userId).error);
  }

  /** A run that stops before the store step makes no store call. */
  lemma StopsBeforeStore<U, A>(env: Env<U, A>)
    ensures env.ginContextError.Some? || env.mfaSessionCookie.Failure? || env.oauthMfaSessionCookie.Failure?
            || env.oauthMfaSessionCookie.value == ""
            || env.getUserById(env.oauthMfaSessionCookie.value).Failure?
            || env.getUserById(env.oauthMfaSessionCookie.value).value.None?
            ==> forall c :: c in TotpInfoResolver(env).calls ==> !c.GetMfaSession?
  {
    var calls := TotpInfoResolver(env).calls;
    if env.ginContextError.Some? {
      assert calls == [GinContextFromContext];
    } else if env.mfaSessionCookie.Failure? {
      assert calls == [GinContextFromContext, GetMfaSessionCookie];
    } else if env.oauthMfaSessionCookie.Failure? || env.oauthMfaSessionCookie.value == "" {
      assert calls == [GinContextFromContext, GetMfaSessionCookie, GetOAuthMfaSessionCookie];
    } else {
      var userId := env.oauthMfaSessionCookie.value;
      if env.getUserById(userId).Failure? || env.getUserById(userId).value.None? {
        assert calls == [GinContextFromContext, GetMfaSessionCookie, GetOAuthMfaSessionCookie, GetUserByID(userId)];
      }
    }
  }

  /** Whenever the memory store is consulted, a user was found for the id in
      the cookie first, and the store is asked for exactly that user id, the
      MFA session from the other cookie and the OAuth MFA prefix. */
  lemma StoreConsultedOnlyForFoundUser<U, A>(env: Env<U, A>)
    requires exists c :: c in TotpInfoResolver(env).calls && c.GetMfaSession?
    ensures env.ginContextError.None?
    ensures env.mfaSessionCookie.Success? && env.oauthMfaSessionCookie.Success?
    ensures var userId := env.oauthMfaSessionCookie.value;
            userId != ""
            && env.getUserById(userId).Success? && env.getUserById(userId).value.Some?
            && |TotpInfoResolver(env).calls| >= 5
            && TotpInfoResolver(env).calls[..5]
               == [GinContextFromContext, GetMfaSessionCookie, GetOAuthMfaSessionCookie, GetUserByID(userId),
                   GetMfaSession(userId, env.mfaSessionCookie.value, env.mfaOAuthSessionPrefix)]
  {
    StopsBeforeStore(env);
    var userId := env.oauthMfaSessionCookie.value;
    var mfaSession := env.mfaSessionCookie.value;
    var prefix := env.mfaOAuthSessionPrefix;
    var calls := TotpInfoResolver(env).calls;
    var five := [GinContextFromContext, GetMfaSessionCookie, GetOAuthMfaSessionCookie, GetUserByID(userId),
                 GetMfaSession(userId, mfaSession, prefix)];
    match env.getMfaSession(userId, mfaSession, prefix)
    case Failure(_) =>
      assert calls == five;
    case Success(encrypted) =>
      assert calls == five + [DecryptB64(encrypted)];
  }

  // ---------------------------------------------------------------------
  // The payload steps
  // ---------------------------------------------------------------------

  /** Everything up to and including the store lookup succeeded. */
  ghost predicate PayloadFetched<U, A>(env: Env<U, A>, mfaSession: string, userId: string, user: U, encrypted: string) {
    CookiesRead(env, mfaSession, userId) && userId != ""
    && env.getUserById(userId) == Success(Some(user))
    && env.getMfaSession(userId, mfaSession, env.mfaOAuthSessionPrefix) == Success(encrypted)
  }

  /** The calls made when every step is reached. */
  function AllCalls(mfaSession: string, userId: string, prefix: string, encrypted: string): seq<Call> {
    [GinContextFromContext, GetMfaSessionCookie, GetOAuthMfaSessionCookie, GetUserByID(userId),
     GetMfaSession(userId, mfaSession, prefix), DecryptB64(encrypted)]
  }

  /** A store failure is an invalid session. */
  lemma StoreErrorIsInvalidSession<U, A>(env: Env<U, A>, mfaSession: string, userId: string, user: U)
    requires CookiesRead(env, mfaSession, userId) && userId != ""
    requires env.getUserById(userId) == Success(Some(user))
    requires env.getMfaSession(userId, mfaSession, env.mfaOAuthSessionPrefix).Failure?
    ensures TotpInfoResolver(env).response.None?
    ensures TotpInfoResolver(env).err
            == Some(InvalidSession(env.getMfaSession(userId, mfaSession, env.mfaOAuthSessionPrefix).error))
  {
  }

  /** A decryption error is returned as it is. */
  lemma DecryptErrorReturnedUnchanged<U, A>(env: Env<U, A>, mfaSession: string, userId: string, user: U, encrypted: string)
    requires PayloadFetched(env, mfaSession, userId, user, encrypted)
    requires env.decryptB64(encrypted).Failure?
    ensures TotpInfoResolver(env)
            == Run(None, Some(env.decryptB64(encrypted).error),
                   AllCalls(mfaSession, userId, env.mfaOAuthSessionPrefix, encrypted))
  {
  }

  /** A query-parse error is returned as it is. */
  lemma ParseErrorReturnedUnchanged<U, A>(env: Env<U, A>, mfaSession: string, userId: string, user: U,
                                         encrypted: string, totpInfo: string)
    requires PayloadFetched(env, mfaSession, userId, user, encrypted)
    requires env.decryptB64(encrypted) == Success(totpInfo)
    requires Url.ParseQuery(totpInfo).Failure?
    ensures TotpInfoResolver(env)
            == Run(None, Some(Url.ParseQuery(totpInfo).error),
                   AllCalls(mfaSession, userId, env.mfaOAuthSessionPrefix, encrypted))
  {
  }

  /** Decrypted TOTP information holding a ';' (as an image written as
      "data:image/png;base64,..." would) is always rejected by the parser. */
  lemma SemicolonPayloadRejected<U, A>(env: Env<U, A>, mfaSession: string, userId: string, user: U,
                                      encrypted: string, totpInfo: string)
    requires PayloadFetched(env, mfaSession, userId, user, encrypted)
    requires env.decryptB64(encrypted) == Success(totpInfo)
    requires ';' in totpInfo
    ensures TotpInfoResolver(env)
            == Run(None, Some(SemicolonSeparator), AllCalls(mfaSession, userId, env.mfaOAuthSessionPrefix, encrypted))
  {
    Url.ParseQueryRejectsSemicolon(totpInfo);
    ParseErrorReturnedUnchanged(env, mfaSession, userId, user, encrypted, totpInfo);
  }

  // ---------------------------------------------------------------------
  // Success
  // ---------------------------------------------------------------------

  /** A response comes back only when every step succeeded. */
  lemma ResponseOnlyWhenEveryStepSucceeds<U, A>(env: Env<U, A>)
    requires TotpInfoResolver(env).response.Some?
    ensures env.ginContextError.None?
    ensures env.mfaSessionCookie.Success? && env.oauthMfaSessionCookie.Success?
    ensures var mfaSession, userId := env.mfaSessionCookie.value, env.oauthMfaSessionCookie.value;
            var fetched := env.getMfaSession(userId, mfaSession, env.mfaOAuthSessionPrefix);
            userId != ""
            && env.getUserById(userId).Success? && env.getUserById(userId).value.Some?
            && fetched.Success?
            && env.decryptB64(fetched.value).Success?
            && Url.ParseQuery(env.decryptB64(fetched.value).value).Success?
  {
  }

  /** When every step succeeds, the response is the one assembled from the
      parsed values and the found user, after all six collaborator calls. */
  lemma ParsedTotpInfoAssembled<U, A>(env: Env<U, A>, mfaSession: string, userId: string, user: U,
                                      encrypted: string, totpInfo: string, values: Url.Values)
    requires PayloadFetched(env, mfaSession, userId, user, encrypted)
    requires env.decryptB64(encrypted) == Success(totpInfo)
    requires Url.ParseQuery(totpInfo) == Success(values)
    ensures TotpInfoResolver(env)
            == Run(Some(NewAuthResponse(env, values, user)), None,
                   AllCalls(mfaSession, userId, env.mfaOAuthSessionPrefix, encrypted))
  {
  }

  /** When every step succeeds the error is nil and the response carries the
      fixed message, the flag, the image with its '+' restored, the secret as
      parsed, the recovery codes and the user's API view. The image is the
      parsed one with each space turned into '+'. Image and secret
      are always set, to "" when the key is missing; the image never holds a
      space. */
  lemma SuccessResponse<U, A>(env: Env<U, A>, mfaSession: string, userId: string, user: U,
                              encrypted: string, totpInfo: string, values: Url.Values)
    requires PayloadFetched(env, mfaSession, userId, user, encrypted)
    requires env.decryptB64(encrypted) == Success(totpInfo)
    requires Url.ParseQuery(totpInfo) == Success(values)
    ensures var run := TotpInfoResolver(env);
            run.err.None? && run.response.Some?
            && run.calls == AllCalls(mfaSession, userId, env.mfaOAuthSessionPrefix, encrypted)
    ensures var r := TotpInfoResolver(env).response.value;
            var image := Url.Get(values, ScannerImageKey);
            r.message == "Proceed to totp flow"
            && r.shouldShowTotpScreen == env.parseBool(Url.Get(values, ShouldShowTotpScreenKey))
            && r.authenticatorScannerImage.Some?
            && |r.authenticatorScannerImage.value| == |image|
            && ' ' !in r.authenticatorScannerImage.value
            && (forall i :: 0 <= i < |image| && image[i] != ' ' ==> r.authenticatorScannerImage.value[i] == image[i])
            && (forall i :: 0 <= i < |image| && image[i] == ' ' ==> r.authenticatorScannerImage.value[i] == '+')
            && r.authenticatorScannerImage == Some(NormaliseScannerImage(image))
            && r.authenticatorSecret == Some(Url.Get(values, SecretKey))
            && r.authenticatorRecoveryCodes == env.parseStringArray(Url.Get(values, RecoveryCodesKey))
            && r.user == env.asApiUser(user)
    ensures (forall i :: 0 <= i < |values| ==> values[i].key != ScannerImageKey)
            ==> TotpInfoResolver(env).response.value.authenticatorScannerImage == Some("")
    ensures (forall i :: 0 <= i < |values| ==> values[i].key != SecretKey)
            ==> TotpInfoResolver(env).response.value.authenticatorSecret == Some("")
  {
    ParsedTotpInfoAssembled(env, mfaSession, userId, user, encrypted, totpInfo, values);
  }

  // ---------------------------------------------------------------------
  // The scanner-image normalisation
  // ---------------------------------------------------------------------

  /** Every space becomes '+', every other character is kept, the length is
      kept, no space is left, and normalising twice is normalising once. */
  lemma NormaliseScannerImageProperties(image: string)
    ensures |NormaliseScannerImage(image)| == |image|
    ensures forall i :: 0 <= i < |image| ==>
              NormaliseScannerImage(image)[i] == (if image[i] == ' ' then '+' else image[i])
    ensures ' ' !in NormaliseScannerImage(image)
    ensures NormaliseScannerImage(NormaliseScannerImage(image)) == NormaliseScannerImage(image)
  {
    ReplaceLeavesNone(image, ' ', '+');
    ReplaceIdempotent(image, ' ', '+');
  }

  /** The normalisation undoes the query parser's reading of '+' as a space
      for any image that had no space of its own. */
  lemma NormaliseUndoesPlusAsSpace(image: string)
    requires ' ' !in image
    ensures NormaliseScannerImage(Replace(image, '+', ' ')) == image
  {
    ReplaceUndone(image, '+', ' ');
  }

  /** For an image that did have a space of its own, the normalisation cannot
      tell it from a '+': the space is lost. */
  lemma NormaliseLosesSpaces(image: string)
    requires ' ' in image
    ensures NormaliseScannerImage(Replace(image, '+', ' ')) != image
  {
    var i :| 0 <= i < |image| && image[i] == ' ';
    assert NormaliseScannerImage(Replace(image, '+', ' '))[i] == '+';
  }

  // ---------------------------------------------------------------------
  // Round trip of the stored TOTP information
  // ---------------------------------------------------------------------

  /** The TOTP information as `key=value` pairs, in the order the four
      fields are read. */
  function TotpInfoPairs(flag: string, image: string, secret: string, codes: string): Url.Values {
    [Url.Param(ShouldShowTotpScreenKey, flag), Url.Param(ScannerImageKey, image),
     Url.Param(SecretKey, secret), Url.Param(RecoveryCodesKey, codes)]
  }

  /** Lower-case letters and underscores only, as the four keys are. */
  predicate IsKeyName(k: string) {
    forall j :: 0 <= j < |k| ==> ('a' <= k[j] <= 'z') || k[j] == '_'
  }

  lemma KeyNameIsUnreserved(k: string)
    requires IsKeyName(k)
    ensures Url.UnreservedText(k)
  {
  }

  lemma KeyNameIsPlain(k: string)
    requires IsKeyName(k)
    ensures Url.Plain(k) && '=' !in k && '+' !in k
  {
  }

  /** ParseQuery on the plain text of pairs whose keys are key names: the
      pairs come back in order, each value with '+' read as a space. */
  lemma KeyNamedDecode(ps: Url.Values)
    requires forall i :: 0 <= i < |ps| ==> IsKeyName(ps[i].key) && Url.Plain(ps[i].value)
    ensures Url.ParseQuery(Url.RawQuery(ps)).Success?
    ensures var vs := Url.ParseQuery(Url.RawQuery(ps)).value;
            |vs| == |ps|
            && forall i :: 0 <= i < |ps| ==> vs[i] == Url.Param(ps[i].key, Replace(ps[i].value, '+', ' '))
  {
    forall i | 0 <= i < |ps|
      ensures Url.Plain(ps[i].key) && '=' !in ps[i].key && Replace(ps[i].key, '+', ' ') == ps[i].key
    {
      KeyNameIsPlain(ps[i].key);
      ReplaceAbsent(ps[i].key, '+', ' ');
    }
    Url.ParseRawQuery(ps);
  }

  /** Get on four pairs with distinct keys. */
  lemma FourPairsGet(vs: Url.Values, k0: string, k1: string, k2: string, k3: string)
    requires |vs| == 4 && vs[0].key == k0 && vs[1].key == k1 && vs[2].key == k2 && vs[3].key == k3
    requires k0 != k1 && k0 != k2 && k0 != k3 && k1 != k2 && k1 != k3 && k2 != k3
    ensures Url.Get(vs, k0) == vs[0].value && Url.Get(vs, k1) == vs[1].value
            && Url.Get(vs, k2) == vs[2].value && Url.Get(vs, k3) == vs[3].value
  {
    Url.GetFirst(vs, k0, 0);
    Url.GetFirst(vs, k1, 1);
    Url.GetFirst(vs, k2, 2);
    Url.GetFirst(vs, k3, 3);
  }

  /** The four keys are pairwise distinct. */
  lemma TotpInfoKeysDistinct()
    ensures ShouldShowTotpScreenKey != ScannerImageKey && ShouldShowTotpScreenKey != SecretKey
            && ShouldShowTotpScreenKey != RecoveryCodesKey && ScannerImageKey != SecretKey
            && ScannerImageKey != RecoveryCodesKey && SecretKey != RecoveryCodesKey
  {
    assert |ShouldShowTotpScreenKey| == 23 && |ScannerImageKey| == 27
        && |SecretKey| == 20 && |RecoveryCodesKey| == 28;
  }

  /** The four keys are key names. */
  lemma TotpInfoKeyNames()
    ensures IsKeyName(ShouldShowTotpScreenKey) && IsKeyName(ScannerImageKey)
            && IsKeyName(SecretKey) && IsKeyName(RecoveryCodesKey)
  {
    assert IsKeyName(ShouldShowTotpScreenKey);
    assert IsKeyName(ScannerImageKey);
    assert IsKeyName(SecretKey);
    assert IsKeyName(RecoveryCodesKey);
  }

  /** Get finds each of the four fields under its own key. */
  lemma TotpInfoPairsGet(flag: string, image: string, secret: string, codes: string)
    ensures var ps := TotpInfoPairs(flag, image, secret, codes);
            Url.Get(ps, ShouldShowTotpScreenKey) == flag && Url.Get(ps, ScannerImageKey) == image
            && Url.Get(ps, SecretKey) == secret && Url.Get(ps, RecoveryCodesKey) == codes
  {
    TotpInfoKeysDistinct();
    FourPairsGet(TotpInfoPairs(flag, image, secret, codes),
                 ShouldShowTotpScreenKey, ScannerImageKey, SecretKey, RecoveryCodesKey);
  }

  /** What ParseQuery and Get make of the plain text of the four fields. */
  lemma TotpInfoPairsParse(flag: string, image: string, secret: string, codes: string)
    requires Url.Plain(flag) && Url.Plain(image) && Url.Plain(secret) && Url.Plain(codes)
    ensures Url.ParseQuery(Url.RawQuery(TotpInfoPairs(flag, image, secret, codes))).Success?
    ensures var values := Url.ParseQuery(Url.RawQuery(TotpInfoPairs(flag, image, secret, codes))).value;
            Url.Get(values, ShouldShowTotpScreenKey) == Replace(flag, '+', ' ')
            && Url.Get(values, ScannerImageKey) == Replace(image, '+', ' ')
            && Url.Get(values, SecretKey) == Replace(secret, '+', ' ')
            && Url.Get(values, RecoveryCodesKey) == Replace(codes, '+', ' ')
  {
    TotpInfoKeyNames();
    TotpInfoKeysDistinct();
    var ps := TotpInfoPairs(flag, image, secret, codes);
    KeyNamedDecode(ps);
    var vs := Url.ParseQuery(Url.RawQuery(ps)).value;
    FourPairsGet(vs, ShouldShowTotpScreenKey, ScannerImageKey, SecretKey, RecoveryCodesKey);
  }

  /** TOTP information stored as the plain `key=value&...` text of its four
      fields comes back field by field: the image exactly as it was, '+'
      included, and the other three with '+' read as a space (a base32 secret
      has no '+', so it too comes back as it was). */
  lemma PlainTotpInfoRoundTrip<U, A>(env: Env<U, A>, mfaSession: string, userId: string, user: U,
                                     encrypted: string, flag: string, image: string, secret: string, codes: string)
    requires PayloadFetched(env, mfaSession, userId, user, encrypted)
    requires env.decryptB64(encrypted) == Success(Url.RawQuery(TotpInfoPairs(flag, image, secret, codes)))
    requires Url.Plain(flag) && Url.Plain(image) && Url.Plain(secret) && Url.Plain(codes)
    requires ' ' !in image
    ensures TotpInfoResolver(env).response
            == Some(AuthResponse(ProceedMessage,
                                 env.parseBool(Replace(flag, '+', ' ')),
                                 Some(image),
                                 Some(Replace(secret, '+', ' ')),
                                 env.parseStringArray(Replace(codes, '+', ' ')),
                                 env.asApiUser(user)))
  {
    var totpInfo := Url.RawQuery(TotpInfoPairs(flag, image, secret, codes));
    TotpInfoPairsParse(flag, image, secret, codes);
    NormaliseUndoesPlusAsSpace(image);
    var values := Url.ParseQuery(totpInfo).value;
    assert TotpInfoResolver(env).response == Some(NewAuthResponse(env, values, user));
  }

  /** Fields without '+' (a base32 secret, a "true"/"false" flag) and an
      image without spaces all come back exactly as they were written. */
  lemma PlainTotpInfoVerbatim<U, A>(env: Env<U, A>, mfaSession: string, userId: string, user: U,
                                    encrypted: string, flag: string, image: string, secret: string, codes: string)
    requires PayloadFetched(env, mfaSession, userId, user, encrypted)
    requires env.decryptB64(encrypted) == Success(Url.RawQuery(TotpInfoPairs(flag, image, secret, codes)))
    requires Url.Plain(flag) && Url.Plain(image) && Url.Plain(secret) && Url.Plain(codes)
    requires ' ' !in image && '+' !in flag && '+' !in secret && '+' !in codes
    ensures TotpInfoResolver(env).err.None?
    ensures TotpInfoResolver(env).response
            == Some(AuthResponse(ProceedMessage, env.parseBool(flag), Some(image), Some(secret),
                                 env.parseStringArray(codes), env.asApiUser(user)))
  {
    ReplaceAbsent(flag, '+', ' ');
    ReplaceAbsent(secret, '+', ' ');
    ReplaceAbsent(codes, '+', ' ');
    PlainTotpInfoRoundTrip(env, mfaSession, userId, user, encrypted, flag, image, secret, codes);
  }

  /** The four fields written as `key=value&...` with each value passed
      through QueryEscape. The keys are written as they are, which is what
      QueryEscape makes of them. */
  function EscapedTotpInfo(flag: string, image: string, secret: string, codes: string): string
    requires Url.IsByteString(flag) && Url.IsByteString(image) && Url.IsByteString(secret) && Url.IsByteString(codes)
  {
    Url.RawQuery(Url.EscapeValues(TotpInfoPairs(flag, image, secret, codes)))
  }

  /** Escaping only the values of the TOTP information is escaping keys and
      values alike. */
  lemma EscapedTotpInfoIsEscapedQuery(flag: string, image: string, secret: string, codes: string)
    requires Url.IsByteString(flag) && Url.IsByteString(image) && Url.IsByteString(secret) && Url.IsByteString(codes)
    ensures Url.ByteStrings(TotpInfoPairs(flag, image, secret, codes))
    ensures EscapedTotpInfo(flag, image, secret, codes) == Url.EscapedQuery(TotpInfoPairs(flag, image, secret, codes))
  {
    TotpInfoKeyNames();
    var ps := TotpInfoPairs(flag, image, secret, codes);
    forall i | 0 <= i < |ps| ensures Url.UnreservedText(ps[i].key) && Url.IsByteString(ps[i].value) {
      KeyNameIsUnreserved(ps[i].key);
    }
    Url.EscapeValuesOfUnreservedKeys(ps);
  }

  /** TOTP information stored with every key and value passed through
      QueryEscape comes back exactly: flag, secret and codes as written, and
      the image as written except that a space of its own comes back as '+'. */
  lemma EscapedTotpInfoRoundTrip<U, A>(env: Env<U, A>, mfaSession: string, userId: string, user: U,
                                       encrypted: string, flag: string, image: string, secret: string, codes: string)
    requires PayloadFetched(env, mfaSession, userId, user, encrypted)
    requires Url.IsByteString(flag) && Url.IsByteString(image) && Url.IsByteString(secret) && Url.IsByteString(codes)
    requires env.decryptB64(encrypted) == Success(EscapedTotpInfo(flag, image, secret, codes))
    ensures TotpInfoResolver(env).err.None?
    ensures TotpInfoResolver(env).response
            == Some(AuthResponse(ProceedMessage,
                                 env.parseBool(flag),
                                 Some(NormaliseScannerImage(image)),
                                 Some(secret),
                                 env.parseStringArray(codes),
                                 env.asApiUser(user)))
  {
    var ps := TotpInfoPairs(flag, image, secret, codes);
    EscapedTotpInfoIsEscapedQuery(flag, image, secret, codes);
    Url.ParseEscapedQuery(ps);
    ParsedTotpInfoAssembled(env, mfaSession, userId, user, encrypted, Url.EscapedQuery(ps), ps);
    TotpInfoPairsGet(flag, image, secret, codes);
  }

  // ---------------------------------------------------------------------
  // A concrete payload
  // ---------------------------------------------------------------------

  /** A ';' placed between two texts is in their concatenation. */
  lemma SeparatorIn(head: string, tail: string)
    ensures ';' in head + ";" + tail
  {
    assert (head + ";" + tail)[|head|] == ';';
  }

  /** An image written unescaped as a data URL carries the ';' of
      "image/png;base64", and the whole payload is rejected. */
  lemma DataUrlImageExample<U, A>(env: Env<U, A>, mfaSession: string, userId: string, user: U, encrypted: string)
    requires PayloadFetched(env, mfaSession, userId, user, encrypted)
    requires env.decryptB64(encrypted)
             == Success("should_show_totp_screen=true&authenticator_scanner_image=data:image/png"
                        + ";" + "base64,AAA BBB&authenticator_secret=JBSWY3DP&authenticator_recovery_codes=code1,code2")
    ensures TotpInfoResolver(env) == Run(None, Some(SemicolonSeparator),
                                         AllCalls(mfaSession, userId, env.mfaOAuthSessionPrefix, encrypted))
  {
    var head := "should_show_totp_screen=true&authenticator_scanner_image=data:image/png";
    var tail := "base64,AAA BBB&authenticator_secret=JBSWY3DP&authenticator_recovery_codes=code1,code2";
    SeparatorIn(head, tail);
    SemicolonPayloadRejected(env, mfaSession, userId, user, encrypted, head + ";" + tail);
  }
}

/** The authentication-callback hook: what it does with the parameters an
    e-mail link or an identity provider puts in the URL. Each effect is an
    action in the order it is started. */
module AuthConfirmation {
  import opened Wrappers

  datatype Action =
    | ClearUrl                                                 // `history.replaceState` to the bare path
    | ToastError(message: string)
    | StartReset(code: string)                                 // `handleResetPassword(code)`, not awaited
    | Authenticate(accessToken: string, refreshToken: string, redirect: bool)

  const ExpiredToken := "Token expirado! Tente realizar o login novamente."
  const ExpiredOtp := "Código de verificação expirado. Por favor, solicite um novo."

  /** A present, non-empty parameter (a truthy `params.get(...)`). */
  predicate Given(p: Option<string>)
  {
    p.Some? && p.value != ""
  }

  /** The parameters of the callback: the fragment when it is non-empty,
      else the query string (each without its leading `#` or `?`). */
  function ParamsString(hash: string, search: string): (r: string)
    ensures hash != "" ==> r == hash
    ensures hash == "" ==> r == search
  {
    if hash != "" then hash else search
  }

  /** The URL's parsed parameters, as `URLSearchParams.get` answers them. */
  datatype Params = Params(accessToken: Option<string>, refreshToken: Option<string>, code: Option<string>,
                           authType: Option<string>, expiresAt: Option<string>, errorCode: Option<string>)

  /** `expiresAt && new Date(parseInt(expiresAt) * 1000) < new Date()`;
      `parseInt` answers `None` for `NaN`, whose date compares false. */
  predicate Expired(p: Params, parseInt: string -> Option<int>, now: int)
  {
    Given(p.expiresAt) && parseInt(p.expiresAt.value).Some? && parseInt(p.expiresAt.value).value * 1000 < now
  }

  /** The recovery branch: a code, with type `recovery` or no type. */
  predicate ResetRequested(p: Params)
  {
    Given(p.code) && (p.authType == Some("recovery") || !Given(p.authType))
  }

  /** The sign-up branch: both tokens, type `signup`, and an expiry. */
  predicate SignupLogin(p: Params)
  {
    Given(p.accessToken) && Given(p.refreshToken) && p.authType == Some("signup") && Given(p.expiresAt)
  }

  /** Any other typed login (a magic link, say): both tokens and a type other
      than `signup`. */
  predicate OtherLogin(p: Params)
  {
    Given(p.accessToken) && Given(p.refreshToken) && Given(p.authType) && p.authType.value != "signup"
  }

  /** `processAuthParams`; `parse` stands for `URLSearchParams`, `now` for the
      clock in milliseconds. */
  method ProcessAuthParams(hash: string, search: string, parse: string -> Params,
                           parseInt: string -> Option<int>, now: int)
    returns (actions: seq<Action>)
    ensures ParamsString(hash, search) == "" <==> actions == []
    ensures actions != [] ==> actions[0] == ClearUrl
    ensures var p := parse(ParamsString(hash, search));
      ParamsString(hash, search) != "" ==>
        (Expired(p, parseInt, now) ==> actions == [ClearUrl, ToastError(ExpiredToken)])
        && (!Expired(p, parseInt, now) && p.errorCode == Some("otp_expired") ==>
              actions == [ClearUrl, ToastError(ExpiredOtp)])
        && (!Expired(p, parseInt, now) && p.errorCode != Some("otp_expired") ==>
              actions == [ClearUrl]
                         + (if ResetRequested(p) then [StartReset(p.code.value)] else [])
                         + (if SignupLogin(p) then [Authenticate(p.accessToken.value, p.refreshToken.value, true)]
                            else if OtherLogin(p) then [Authenticate(p.accessToken.value, p.refreshToken.value, false)]
                            else []))
  {
    var paramsString := if hash != "" then hash else search;
    if paramsString == "" {
      return [];
    }
    var p := parse(paramsString);
    actions := [ClearUrl];
    if Given(p.expiresAt) {
      var seconds := parseInt(p.expiresAt.value);
      if seconds.Some? && seconds.value * 1000 < now {
        actions := actions + [ToastError(ExpiredToken)];
        return;
      }
    }
    if p.errorCode == Some("otp_expired") {
      actions := actions + [ToastError(ExpiredOtp)];
      return;
    }
    if Given(p.code) && (p.authType == Some("recovery") || !Given(p.authType)) {
      actions := actions + [StartReset(p.code.value)];
    }
    if Given(p.accessToken) && Given(p.refreshToken) && p.authType == Some("signup") && Given(p.expiresAt) {
      actions := actions + [Authenticate(p.accessToken.value, p.refreshToken.value, true)];
      return;
    }
    if Given(p.accessToken) && Given(p.refreshToken) && Given(p.authType) && p.authType.value != "signup" {
      actions := actions + [Authenticate(p.accessToken.value, p.refreshToken.value, false)];
    }
  }

  /** A reset and a login can both start from one URL only when a code
      comes with a `recovery` type and tokens: the sign-up login needs type
      `signup` and the other login needs a type, so neither combines with
      an untyped code. */
  lemma ResetAndLogin(p: Params)
    ensures ResetRequested(p) && SignupLogin(p) ==> false
    ensures ResetRequested(p) && OtherLogin(p) ==> p.authType == Some("recovery")
    ensures SignupLogin(p) ==> !OtherLogin(p)
  {
  }

  /** A sign-up link without an expiry logs nobody in. */
  lemma SignupNeedsExpiry(p: Params)
    requires p.authType == Some("signup") && !Given(p.expiresAt)
    ensures !SignupLogin(p) && !OtherLogin(p)
  {
  }

  /** What the session step does (`handleAuthentication`), given what
      setting the session answered. */
  datatype SessionAnswer = Session | NoSession | Failed

  datatype Effect =
    | UpdateAuthState
    | Toast(success: bool, message: string)
    | Push(url: string)

  function HandleAuthentication(answer: SessionAnswer, redirect: bool): (r: seq<Effect>)
    ensures answer.Session? <==> (|r| >= 1 && r[0] == UpdateAuthState)
    ensures Push("/dashboard") in r <==> answer.Session? && redirect
    ensures !answer.Session? ==> |r| == 1 && r[0].Toast? && !r[0].success
  {
    match answer
    case Session =>
      [UpdateAuthState] + (if redirect then [Toast(true, "Login feito com sucesso!"), Push("/dashboard")] else [])
    case NoSession => [Toast(false, "Token inválido! Tente realizar o login novamente.")]
    case Failed => [Toast(false, "Erro ao processar autenticação. Tente novamente.")]
  }

  /** `handleResetPassword`, given what exchanging the code answered. */
  function HandleResetPassword(answer: SessionAnswer): (r: seq<Effect>)
    ensures Push("/reset-password") in r <==> answer.Session?
    ensures answer.Session? ==> r == [UpdateAuthState, Push("/reset-password")]
    ensures !answer.Session? ==> |r| == 1 && r[0].Toast? && !r[0].success
  {
    match answer
    case Session => [UpdateAuthState, Push("/reset-password")]
    case NoSession => [Toast(false, "Código de recuperação inválido ou expirado.")]
    case Failed => [Toast(false, "Erro ao processar código de recuperação. Tente novamente.")]
  }
}

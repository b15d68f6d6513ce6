/** The requirement rules applied after command-line parsing, and the choice
    between a supplied bearer token and a fresh login. */
module Arguments {
  import opened Wrappers
  import BearerToken

  /** The parsed options that the rules and the token request read. An option
      is `None` when neither its flag nor its environment variable was set. */
  datatype Args = Args(
    email: Option<string>,
    password: Option<string>,
    ean: Option<string>,
    meterSerial: Option<string>,
    bearerToken: Option<string>,
    rememberMe: bool,
    quiet: bool)

  /** Python truthiness of an optional string: set and not empty. */
  predicate Given(o: Option<string>) {
    o.Some? && o.value != ""
  }

  /** The `parser.error` calls, in the order the rules check them. */
  datatype ArgError = MissingEmail | MissingPassword | MissingEan | MissingMeterSerial {
    /** The command-line flag whose value is missing. */
    function Flag(): string {
      match this
      case MissingEmail => "email"
      case MissingPassword => "password"
      case MissingEan => "ean"
      case MissingMeterSerial => "meter-serial"
    }

    /** The environment variable that can supply the flag's value. */
    function Variable(): string {
      match this
      case MissingEmail => "FLUVIUS_LOGIN"
      case MissingPassword => "FLUVIUS_PASSWORD"
      case MissingEan => "FLUVIUS_EAN"
      case MissingMeterSerial => "FLUVIUS_METER_SERIAL"
    }

    /** The text `parser.error` prints: it names the missing flag, then the
        environment variable that can supply it instead. */
    function Message(): (m: string)
      ensures |m| > 10 + |Flag()| && m[..10 + |Flag()|] == "Missing --" + Flag()
      ensures m[10 + |Flag()|] == ' '
    {
      "Missing --" + Flag() + " (or " + Variable() + ")"
    }
  }

  /** Each check prints its own message, so the message tells which check
      failed. */
  lemma MessagesIdentifyCheck(e1: ArgError, e2: ArgError)
    requires e1.Message() == e2.Message()
    ensures e1 == e2
  {
  }

  datatype Validation = Accepted | Rejected(error: ArgError)

  /** The checks after `parse_args`: credentials only without a bearer token,
      then the EAN and the meter serial in every case. The first failing check
      is the one reported. */
  function Validate(a: Args): (v: Validation)
    ensures v == Accepted <==>
              (Given(a.bearerToken) || (Given(a.email) && Given(a.password)))
              && Given(a.ean) && Given(a.meterSerial)
    ensures v == Rejected(MissingEmail) <==> !Given(a.bearerToken) && !Given(a.email)
    ensures v == Rejected(MissingPassword) <==>
              !Given(a.bearerToken) && Given(a.email) && !Given(a.password)
    ensures v == Rejected(MissingEan) <==>
              (Given(a.bearerToken) || (Given(a.email) && Given(a.password))) && !Given(a.ean)
    ensures v == Rejected(MissingMeterSerial) <==>
              (Given(a.bearerToken) || (Given(a.email) && Given(a.password)))
              && Given(a.ean) && !Given(a.meterSerial)
  {
    if !Given(a.bearerToken) && !Given(a.email) then Rejected(MissingEmail)
    else if !Given(a.bearerToken) && !Given(a.password) then Rejected(MissingPassword)
    else if !Given(a.ean) then Rejected(MissingEan)
    else if !Given(a.meterSerial) then Rejected(MissingMeterSerial)
    else Accepted
  }

  /** With a bearer token, the credentials play no part in validation. */
  lemma BearerTokenSkipsCredentials(a: Args, email: Option<string>, password: Option<string>)
    requires Given(a.bearerToken)
    ensures Validate(a) == Validate(a.(email := email, password := password))
  {
  }

  /** What the login routine is given. */
  datatype LoginRequest = LoginRequest(
    email: Option<string>, password: Option<string>, rememberMe: bool, verbose: bool)

  /** What the login routine yields: a token and its claims, or one of the two
      failures `main` catches. */
  datatype LoginResult =
    | LoggedIn(accessToken: string, claims: map<string, string>)
    | AuthFailed(message: string)
    | NetworkFailed(message: string)

  datatype TokenResult = Token(value: string) | TokenError(message: string)

  /** `request_access_token`, with the login flow passed in as `login`. */
  function RequestAccessToken(a: Args, login: LoginRequest -> LoginResult): (r: TokenResult)
    ensures Given(a.bearerToken) ==> r == Token(BearerToken.StripBearerPrefix(a.bearerToken.value))
    ensures !Given(a.bearerToken) ==>
              var outcome := login(LoginRequest(a.email, a.password, a.rememberMe, !a.quiet));
              r.Token? <==> outcome.LoggedIn?
    ensures !Given(a.bearerToken) && r.Token? ==>
              r.value == login(LoginRequest(a.email, a.password, a.rememberMe, !a.quiet)).accessToken
  {
    if Given(a.bearerToken) then
      Token(BearerToken.StripBearerPrefix(a.bearerToken.value))
    else
      match login(LoginRequest(a.email, a.password, a.rememberMe, !a.quiet))
      case LoggedIn(token, _) => Token(token)
      case AuthFailed(msg) => TokenError(msg)
      case NetworkFailed(msg) => TokenError(msg)
  }

  /** With a bearer token the login routine is never consulted: every login
      routine gives the same result. */
  lemma BearerTokenSkipsLogin(a: Args, login1: LoginRequest -> LoginResult, login2: LoginRequest -> LoginResult)
    requires Given(a.bearerToken)
    ensures RequestAccessToken(a, login1) == RequestAccessToken(a, login2)
  {
  }

  /** A token made only of whitespace passes the `if args.bearer_token` test and
      yields the empty token; the credentials are then never asked for. */
  lemma BlankBearerTokenYieldsEmptyToken(a: Args, login: LoginRequest -> LoginResult)
    requires a.bearerToken.Some? && a.bearerToken.value != []
    requires BearerToken.SpaceBetween(a.bearerToken.value, 0, |a.bearerToken.value|)
    ensures RequestAccessToken(a, login) == Token("")
  {
    BearerToken.StripIsTheFramedText(a.bearerToken.value, 0, 0);
  }

  /** The value of the `Authorization` header the data request sends. */
  function AuthorizationHeader(token: string): (h: string)
    ensures |h| == |token| + 7 && h[..7] == "Bearer " && h[7..] == token
  {
    "Bearer " + token
  }

  /** A token supplied as "Bearer <t>" (any case) is not sent with the prefix
      twice: the header carries exactly one "Bearer ". */
  lemma SuppliedPrefixNotDoubled(a: Args, prefix: string, t: string, login: LoginRequest -> LoginResult)
    requires |prefix| == 7 && BearerToken.HasBearerPrefix(prefix)
    requires t != [] && !BearerToken.IsSpace(t[|t| - 1])
    requires a.bearerToken == Some(prefix + t)
    ensures var r := RequestAccessToken(a, login); r.Token? && AuthorizationHeader(r.value) == "Bearer " + t
  {
    BearerToken.PrefixRemoved(prefix, t);
  }
}

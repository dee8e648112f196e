/** The `register` and `login` route handlers, over an abstract user service.

    The service's three awaited calls (`register_user`, `is_account_locked`,
    `login_user`) are given as functions from the request fields to the
    service's answer; the database session they also receive is passed
    through unchanged and is not modelled. Each handler returns its response
    together with the steps it took, in order, so that which collaborators it
    consulted, with which arguments and how often, is part of its result. */
module UserRoutes {
  import opened Failures
  import opened Config
  import opened Tokens

  /** The registration request body (`UserCreate`). */
  datatype UserCreate = UserCreate(username: string, email: string, password: string)

  /** The login request body (`LoginRequest`). */
  datatype LoginRequest = LoginRequest(username: string, password: string)

  /** A stored user as the service returns it. */
  datatype User = User(id: nat, username: string, email: string)

  /** The login response `{"access_token": ..., "token_type": ...}`. */
  datatype TokenResponse = TokenResponse(accessToken: string, tokenType: string)

  /** The answers of the user service. */
  datatype UserService = UserService(
    registerUser: UserCreate -> Option<User>,
    isAccountLocked: string -> bool,
    loginUser: (string, string) -> Option<User>)

  /** One step a handler takes: a call into the user service, or issuing an
      access token for a subject. */
  datatype Step =
    | RegisterUser(fields: UserCreate)
    | IsAccountLocked(username: string)
    | LoginUser(username: string, password: string)
    | IssueToken(subject: string)

  /** A handler's response and the steps it took to produce it. */
  datatype Handled<+T> = Handled(response: Result<T>, steps: seq<Step>)

  const UsernameExists: string := "Username already exists"
  const AccountLocked: string := "Account locked"
  const IncorrectCredentials: string := "Incorrect username or password"
  const BearerTokenType: string := "bearer"

  /** Asks the service once to create the user from the request's fields. The
      created user is returned as the service returned it; when the service
      reports a conflict by returning nothing, the handler raises 400 with
      "Username already exists". */
  function Register(req: UserCreate, service: UserService): (h: Handled<User>)
    ensures h.steps == [RegisterUser(req)]
    ensures h.response.Success? <==> service.registerUser(req).Some?
    ensures h.response.Success? ==> h.response.value == service.registerUser(req).value
    ensures h.response.Failure? ==> h.response.error == HttpException(BadRequest, UsernameExists)
  {
    match service.registerUser(req)
    case None => Handled(Failure(HttpException(BadRequest, UsernameExists)), [RegisterUser(req)])
    case Some(user) => Handled(Success(user), [RegisterUser(req)])
  }

  /** The claims the login handler has signed for a user: the user's name as
      `sub`, with the configured access-token lifetime. */
  function LoginClaims(user: User, now: int, settings: Settings): Claims {
    AccessTokenClaims(map[SubjectClaim := Text(user.username)], None, now, settings)
  }

  /** The login flow: lock check, then credential check, then token issue,
      each step reached only when the previous one passed.
      - A locked account is refused with 400 "Account locked" before its
        credentials are looked at.
      - Credentials the service rejects are refused with 401 "Incorrect
        username or password", without issuing a token.
      - Otherwise the response carries the issued token, of type "bearer". */
  function Login(req: LoginRequest, service: UserService, now: int, settings: Settings, sign: Claims -> string)
    : (h: Handled<TokenResponse>)
    ensures |h.steps| >= 1 && h.steps[0] == IsAccountLocked(req.username)
    ensures service.isAccountLocked(req.username) ==>
      h == Handled(Failure(HttpException(BadRequest, AccountLocked)), [IsAccountLocked(req.username)])
    ensures !service.isAccountLocked(req.username) ==>
      |h.steps| >= 2 && h.steps[1] == LoginUser(req.username, req.password)
    ensures !service.isAccountLocked(req.username) && service.loginUser(req.username, req.password).None? ==>
      h.response == Failure(HttpException(Unauthorized, IncorrectCredentials)) && |h.steps| == 2
    ensures h.response.Success? <==>
      !service.isAccountLocked(req.username) && service.loginUser(req.username, req.password).Some?
    ensures h.response.Success? ==>
      var user := service.loginUser(req.username, req.password).value;
      && h.response.value == TokenResponse(sign(LoginClaims(user, now, settings)), BearerTokenType)
      && h.steps == [IsAccountLocked(req.username), LoginUser(req.username, req.password), IssueToken(user.username)]
  {
    var lockCheck := IsAccountLocked(req.username);
    if service.isAccountLocked(req.username) then
      Handled(Failure(HttpException(BadRequest, AccountLocked)), [lockCheck])
    else
      var credentialCheck := LoginUser(req.username, req.password);
      match service.loginUser(req.username, req.password)
      case None =>
        Handled(Failure(HttpException(Unauthorized, IncorrectCredentials)), [lockCheck, credentialCheck])
      case Some(user) =>
        var token := CreateAccessToken(map[SubjectClaim := Text(user.username)], None, now, settings, sign);
        Handled(Success(TokenResponse(token, BearerTokenType)), [lockCheck, credentialCheck, IssueToken(user.username)])
  }

  /** The order the login flow must keep: the lock check comes first and
      exactly once; the credential check comes only after an unlocked
      answer, exactly once; a token is issued only after the credentials
      were accepted, for the user they were accepted for. */
  ghost predicate FollowsLoginProtocol(req: LoginRequest, service: UserService, steps: seq<Step>) {
    && |steps| >= 1
    && steps[0] == IsAccountLocked(req.username)
    && (forall i | 1 <= i < |steps| :: !steps[i].IsAccountLocked?)
    && (forall i | 0 <= i < |steps| && steps[i].LoginUser? ::
          i == 1 && !service.isAccountLocked(req.username) && steps[i] == LoginUser(req.username, req.password))
    && (forall i | 0 <= i < |steps| && steps[i].IssueToken? ::
          && i == 2 && steps[1].LoginUser?
          && service.loginUser(req.username, req.password).Some?
          && steps[i] == IssueToken(service.loginUser(req.username, req.password).value.username))
    && (forall i | 0 <= i < |steps| :: !steps[i].RegisterUser?)
  }

  /** Every run of the login flow keeps the protocol, and a token is issued
      on exactly the runs that succeed: a locked account never reaches
      credential checking, and a failed credential check never reaches token
      issuance. */
  lemma LoginFollowsProtocol(req: LoginRequest, service: UserService, now: int, settings: Settings, sign: Claims -> string)
    ensures FollowsLoginProtocol(req, service, Login(req, service, now, settings, sign).steps)
    ensures
      var h := Login(req, service, now, settings, sign);
      h.response.Success? <==> exists i | 0 <= i < |h.steps| :: h.steps[i].IssueToken?
  {
    var h := Login(req, service, now, settings, sign);
    if h.response.Success? {
      assert h.steps[2].IssueToken?;
    }
  }

  /** The token a successful login hands out names the user the service
      accepted: with a decoder that accepts it, it verifies to that user. */
  lemma LoginTokenNamesUser(
    req: LoginRequest, service: UserService, now: int, settings: Settings,
    sign: Claims -> string, decode: string -> Option<Claims>)
    requires !service.isAccountLocked(req.username)
    requires service.loginUser(req.username, req.password).Some?
    requires
      var claims := LoginClaims(service.loginUser(req.username, req.password).value, now, settings);
      decode(sign(claims)) == Some(claims)
    ensures
      var h := Login(req, service, now, settings, sign);
      && h.response.Success?
      && VerifyRefreshToken(h.response.value.accessToken, decode)
           == Success(Identity(service.loginUser(req.username, req.password).value.username))
  {
    IssuedTokenVerifies(service.loginUser(req.username, req.password).value.username, None, now, settings, sign, decode);
  }
}

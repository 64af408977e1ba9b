/**
 * The authentication router: the body validators of register and login, and the order
 * of registration that puts `/me` behind the token middleware. The address check of the
 * validator library is the oracle `isEmail`.
 */
module AuthRoutes {
  import opened Wrappers
  import opened Text
  import opened Http
  import opened ObjectIds
  import Auth
  import UserModel
  import AuthController

  const DefaultMessage: string := "Invalid value"
  const NameMessage: string := "İsim alanı zorunludur"
  const EmailMessage: string := "Geçerli bir e-posta adresi giriniz"
  const PasswordLengthMessage: string := "Şifre en az 6 karakter olmalıdır"
  const PasswordMessage: string := "Şifre alanı zorunludur"
  const MinPasswordLength: nat := 6

  /** `router.post('/register')`, `router.post('/login')`, then `router.use(authenticate)`, then `router.get('/me')`. */
  const Routes: seq<Route> := [Route("POST", "/register", false), Route("POST", "/login", false), Route("GET", "/me", true)]

  /** Body fields: absent, or a string. */
  datatype RegisterBody = RegisterBody(name: Option<string>, email: Option<string>, password: Option<string>)
  datatype LoginBody = LoginBody(email: Option<string>, password: Option<string>)

  /** The string a validator sees: an absent field reads as "". */
  function Value(field: Option<string>): string {
    if field.Some? then field.value else ""
  }

  /**
   * The register chain. Every validator of a chain runs; a `withMessage` names the message
   * of the validator just before it, the others report the default message. `isLength`
   * counts code points other than the variation selectors U+FE0E and U+FE0F.
   */
  function RegisterErrors(body: RegisterBody, isEmail: string -> bool): (errs: seq<FieldError>)
    ensures errs == [] <==> body.name.Some? && body.name.value != "" && isEmail(Value(body.email)) && ValidatorLength(Value(body.password)) >= MinPasswordLength
    ensures errs == [] ==> body.password.Some?
    ensures forall e | e in errs :: e.path == "name" || e.path == "email" || e.path == "password"
  {
    (if body.name.None? then [FieldError("name", DefaultMessage)] else [])
    + (if Value(body.name) == "" then [FieldError("name", NameMessage)] else [])
    + (if !isEmail(Value(body.email)) then [FieldError("email", EmailMessage)] else [])
    + (if ValidatorLength(Value(body.password)) < MinPasswordLength then [FieldError("password", PasswordLengthMessage)] else [])
  }

  /** A missing name fails both of its validators. */
  lemma MissingNameTwoErrors(email: Option<string>, password: Option<string>, isEmail: string -> bool)
    ensures RegisterErrors(RegisterBody(None, email, password), isEmail)[..2] == [FieldError("name", DefaultMessage), FieldError("name", NameMessage)]
  {
  }

  /** The login chain. */
  function LoginErrors(body: LoginBody, isEmail: string -> bool): (errs: seq<FieldError>)
    ensures errs == [] <==> isEmail(Value(body.email)) && Value(body.password) != ""
    ensures errs == [] ==> body.password.Some?
  {
    (if !isEmail(Value(body.email)) then [FieldError("email", EmailMessage)] else [])
    + (if Value(body.password) == "" then [FieldError("password", PasswordMessage)] else [])
  }

  /** Only `/me` sits behind `authenticate`; register and login need no token. */
  lemma OnlyMeNeedsToken()
    ensures forall r | r in Routes :: r.authenticated <==> r.path == "/me"
    ensures Lookup(Routes, "GET", "/me") == [Route("GET", "/me", true)]
  {
  }

  /** `POST /register`: the validators, then the handler. */
  method PostRegister(store: AuthController.UserStore, body: RegisterBody, isEmail: string -> bool, now: int,
                      hash: string -> string, sign: AuthController.TokenRequest -> string, development: bool, stack: string)
    returns (reply: AuthController.AuthReply)
    requires store.Valid()
    modifies store
    ensures store.Valid()
    ensures RegisterErrors(body, isEmail) != [] ==>
            reply == AuthController.AuthReply(400, AuthController.Invalid(RegisterErrors(body, isEmail))) && store.users == old(store.users)
    ensures reply.status == 201 ==> RegisterErrors(body, isEmail) == [] && |store.users| == |old(store.users)| + 1
    ensures reply.status != 201 ==> store.users == old(store.users) && store.nextId == old(store.nextId)
    ensures reply.status == 201 ==>
            var u := UserModel.StoredUser(JsTrim(Value(body.name)), UserModel.NormalizeEmail(Value(body.email)),
                                          hash(Value(body.password)), "user", now);
            store.users == old(store.users)[old(store.nextId) := u] && store.nextId == old(store.nextId) + 1
            && reply.body == AuthController.SessionFor(old(store.nextId), u, sign)
  {
    reply := store.Register(RegisterErrors(body, isEmail), Value(body.name), Value(body.email), Value(body.password),
                            now, hash, sign, development, stack);
    if reply.status == 201 {
      assert old(store.nextId) !in old(store.users);
    }
  }

  /** `POST /login`: the validators, then the handler. */
  function PostLogin(store: AuthController.UserStore, body: LoginBody, isEmail: string -> bool,
                     compare: (string, string) -> bool, sign: AuthController.TokenRequest -> string): (r: AuthController.AuthReply)
    reads store
    requires store.Valid()
    ensures r.status == 200 || r.status == 400 || r.status == 401
    ensures r.status == 400 <==> LoginErrors(body, isEmail) != []
    ensures r.status == 400 ==> r.body == AuthController.Invalid(LoginErrors(body, isEmail))
    ensures r.status == 200 <==> (LoginErrors(body, isEmail) == [] &&
            exists id | id in store.users :: store.users[id].email == UserModel.NormalizeEmail(Value(body.email))
                                             && compare(Value(body.password), store.users[id].passwordHash))
    ensures r.status == 200 ==> isEmail(Value(body.email)) && body.password.Some? && body.password.value != ""
    ensures r.status == 200 ==> exists id | id in store.users :: r.body == AuthController.SessionFor(id, store.users[id], sign)
    ensures r.status == 401 ==> r.body == AuthController.Message(AuthController.BadCredentials)
  {
    store.Login(LoginErrors(body, isEmail), Value(body.email), Value(body.password), compare, sign)
  }

  /** `GET /me`: `authenticate`, then `getMe`. The handler's own 401 branch cannot be reached. */
  function GetMeRoute(store: AuthController.UserStore, header: Option<string>, verify: string -> Option<Auth.Claims>,
                      development: bool, stack: string): (r: AuthController.AuthReply)
    reads store
    ensures r.status == 401 ==> r == AuthController.AuthReply(401, AuthController.Message(Auth.MissingTokenMessage))
    ensures r.status == 403 <==> Auth.Decide(header, verify).Deny? && Auth.Decide(header, verify).reply.status == 403
    ensures r.status == 500 <==> Auth.Decide(header, verify).Pass? && ParseId(Auth.Decide(header, verify).user.id).None?
    ensures r.status == 404 <==> Auth.Decide(header, verify).Pass? && ParseId(Auth.Decide(header, verify).user.id).Some?
                                 && ParseId(Auth.Decide(header, verify).user.id).value !in store.users
    ensures r.status == 200 <==> Auth.Decide(header, verify).Pass? && ParseId(Auth.Decide(header, verify).user.id).Some?
                                 && ParseId(Auth.Decide(header, verify).user.id).value in store.users
    ensures r.status == 200 ==>
      var u := store.users[ParseId(Auth.Decide(header, verify).user.id).value];
      r.body == AuthController.Profile(AuthController.UserView(Auth.Decide(header, verify).user.id, u.name, u.email, u.role, u.createdAt))
  {
    match Auth.Decide(header, verify)
    case Deny(refusal) => AuthController.AuthReply(refusal.status, AuthController.Message(refusal.message))
    case Pass(user) => store.GetMe(Some(user), development, stack)
  }

  /**
   * Example: the route checks and the schema disagree: a name of spaces passes `notEmpty` but is
   * empty once trimmed, and the library's address check accepts endings the schema pattern
   * refuses. Such a request passes the route and fails at `save`.
   */
  lemma RouteAcceptsSchemaRefuses(isEmail: string -> bool)
    requires isEmail("a@b.info")
    ensures RegisterErrors(RegisterBody(Some("Ada"), Some("a@b.info"), Some("secret")), isEmail) == []
    ensures UserModel.FieldErrors("Ada", "a@b.info", "secret", "user") == [FieldError("email", UserModel.EmailInvalid)]
    ensures RegisterErrors(RegisterBody(Some(" "), Some("a@b.info"), Some("secret")), isEmail) == []
    ensures JsTrim(" ") == ""
  {
    UserModel.RejectsLongTopLevelDomain();
    assert Utf16Length("secret") >= 6 by {
      assert CountWhere("secret", IsAstral) >= 0;
    }
    ValidatorLengthPlain("secret");
    assert PrefixRun(" ", IsJsSpace) == 1;
  }
}

/**
 * The authentication handlers over the user store: registration with a unique address,
 * login whose two failures look alike, and the current-user lookup. Password hashing
 * (`hash`, `compare`) and token signing (`sign`) are oracles.
 */
module AuthController {
  import opened Wrappers
  import opened Text
  import opened Http
  import opened ObjectIds
  import Auth
  import ErrorHandler
  import UserModel

  /** What `generateToken` hands to the signer: the payload and the lifetime. */
  datatype TokenRequest = TokenRequest(payload: Auth.Claims, expiresIn: string)

  const TokenLifetime: string := "7d"

  /** `generateToken`: the payload is `{ id, role }`, the role defaulting to "user". */
  function TokenFor(id: Id, role: string): (t: TokenRequest)
    ensures t.payload.id == IdText(id) && t.payload.role != "" && t.expiresIn == TokenLifetime
    ensures role != "" ==> t.payload.role == role
  {
    TokenRequest(Auth.Claims(IdText(id), if role == "" then Auth.RoleValue(Auth.User) else role), TokenLifetime)
  }

  /** The `user` object of a session reply; it has no password field. */
  datatype PublicUser = PublicUser(id: string, name: string, email: string)

  /** The document `getMe` returns: `select('-password')` leaves every field but the password. */
  datatype UserView = UserView(id: string, name: string, email: string, role: string, createdAt: int)

  datatype AuthBody =
    | Invalid(errors: seq<FieldError>)
    | Message(message: string)
    | Session(token: string, user: PublicUser)
    | Profile(profile: UserView)
    | Failure(error: ErrorHandler.ErrorBody)

  datatype AuthReply = AuthReply(status: int, body: AuthBody)

  const EmailTaken: string := "Bu e-posta adresi zaten kullanılıyor"
  const BadCredentials: string := "Geçersiz e-posta veya şifre"
  const Unauthorized: string := "Yetkilendirme hatası"
  const UserMissing: string := "Kullanıcı bulunamadı"
  const UserValidationFailed: string := "User validation failed"

  /** A handler's `next(error)`: the error middleware writes the reply. */
  function Forward(err: ErrorHandler.AppError, development: bool): AuthReply {
    var e := ErrorHandler.HandleError(err, development);
    AuthReply(e.status, Failure(e.body))
  }

  function SessionFor(id: Id, u: UserModel.StoredUser, sign: TokenRequest -> string): AuthBody {
    Session(sign(TokenFor(id, u.role)), PublicUser(IdText(id), u.name, u.email))
  }

  class UserStore {
    var users: map<Id, UserModel.StoredUser>
    var nextId: Id

    /** Every id was handed out before, and no two users share an address. */
    ghost predicate Valid()
      reads this
    {
      && (forall id | id in users :: id < nextId)
      && (forall a, b | a in users && b in users && users[a].email == users[b].email :: a == b)
    }

    constructor ()
      ensures users == map[] && nextId == 0 && Valid()
    {
      users := map[];
      nextId := 0;
    }

    function FindFrom(email: string, k: Id): (r: Option<Id>)
      reads this
      ensures r.Some? ==> k <= r.value && r.value in users && users[r.value].email == email
      ensures r.None? ==> forall id | id in users && k <= id < nextId :: users[id].email != email
      decreases nextId - k
    {
      if k >= nextId then None
      else if k in users && users[k].email == email then Some(k)
      else FindFrom(email, k + 1)
    }

    /**
     * `User.findOne({ email })`. The filter goes through the schema's `trim` and `lowercase`
     * setters, so the stored form of the address is looked up.
     */
    function FindByEmail(email: string): (r: Option<Id>)
      reads this
      requires Valid()
      ensures r.Some? ==> r.value in users && users[r.value].email == UserModel.NormalizeEmail(email)
      ensures r.None? ==> forall id | id in users :: users[id].email != UserModel.NormalizeEmail(email)
    {
      FindFrom(UserModel.NormalizeEmail(email), 0)
    }

    /** `register`: 400 for the route's validation errors, 400 for a taken address, then `save`, a token and 201. */
    method Register(validation: seq<FieldError>, name: string, email: string, password: string, now: int,
                    hash: string -> string, sign: TokenRequest -> string, development: bool, stack: string)
      returns (reply: AuthReply)
      requires Valid()
      modifies this
      ensures Valid()
      ensures validation != [] ==> reply == AuthReply(400, Invalid(validation))
      ensures validation == [] && old(FindByEmail(email)).Some? ==> reply == AuthReply(400, Message(EmailTaken))
      ensures validation == [] && old(FindByEmail(email)).None?
              && UserModel.FieldErrors(JsTrim(name), UserModel.NormalizeEmail(email), password, "user") != [] ==>
              reply == Forward(ErrorHandler.AppError("ValidationError", UserValidationFailed, None, None,
                Some(UserModel.FieldErrors(JsTrim(name), UserModel.NormalizeEmail(email), password, "user")), stack), development)
      ensures reply.status == 201 <==> (validation == [] && old(FindByEmail(email)).None?
              && UserModel.FieldErrors(JsTrim(name), UserModel.NormalizeEmail(email), password, "user") == [])
      ensures reply.status != 201 ==> users == old(users) && nextId == old(nextId)
      ensures reply.status == 201 ==>
              var u := UserModel.StoredUser(JsTrim(name), UserModel.NormalizeEmail(email), hash(password), "user", now);
              users == old(users)[old(nextId) := u] && nextId == old(nextId) + 1
              && reply.body == SessionFor(old(nextId), u, sign)
    {
      if validation != [] {
        return AuthReply(400, Invalid(validation));
      }
      if FindByEmail(email).Some? {
        return AuthReply(400, Message(EmailTaken));
      }
      assert Auth.RoleValue(Auth.User) == "user";
      var doc := new UserModel.UserDocument(name, email, password, now);
      var saved := doc.Save(hash);
      if saved.Err? {
        reply := Forward(ErrorHandler.AppError("ValidationError", UserValidationFailed, None, None, Some(saved.error), stack), development);
        assert reply.status == 400;
        return;
      }
      var id := Add(saved.value);
      reply := AuthReply(201, SessionFor(id, saved.value, sign));
    }

    /** The insert of `save`: the next id for a user whose address is not taken. */
    method Add(u: UserModel.StoredUser) returns (id: Id)
      requires Valid() && forall k | k in users :: users[k].email != u.email
      modifies this
      ensures Valid()
      ensures id == old(nextId) && users == old(users)[id := u] && nextId == old(nextId) + 1
    {
      id := nextId;
      users := users[id := u];
      nextId := nextId + 1;
    }

    /** `login`: a read of the store that cannot change it. */
    function Login(validation: seq<FieldError>, email: string, password: string,
                   compare: (string, string) -> bool, sign: TokenRequest -> string): (r: AuthReply)
      reads this
      requires Valid()
      ensures r.status == 400 <==> validation != []
      ensures r.status == 200 || r.status == 400 || r.status == 401
      ensures r.status == 401 ==> r.body == Message(BadCredentials)
      ensures r.status == 200 <==> (validation == [] &&
              exists id | id in users :: users[id].email == UserModel.NormalizeEmail(email) && compare(password, users[id].passwordHash))
      ensures r.status == 200 ==> exists id | id in users :: r.body == SessionFor(id, users[id], sign)
    {
      if validation != [] then AuthReply(400, Invalid(validation))
      else
        match FindByEmail(email)
        case None => AuthReply(401, Message(BadCredentials))
        case Some(id) =>
          if !compare(password, users[id].passwordHash) then AuthReply(401, Message(BadCredentials))
          else AuthReply(200, SessionFor(id, users[id], sign))
    }

    /** `getMe`: 401 without a caller, a cast error for a malformed id, 404 for a missing user, else the profile. */
    function GetMe(user: Option<Auth.AuthUser>, development: bool, stack: string): (r: AuthReply)
      reads this
      ensures user.None? ==> r == AuthReply(401, Message(Unauthorized))
      ensures user.Some? && ParseId(user.value.id).None? ==> r.status == 500
      ensures r.status == 404 <==> user.Some? && ParseId(user.value.id).Some? && ParseId(user.value.id).value !in users
      ensures r.status == 200 <==> user.Some? && ParseId(user.value.id).Some? && ParseId(user.value.id).value in users
      ensures r.status == 200 ==> var u := users[ParseId(user.value.id).value];
              r.body == Profile(UserView(user.value.id, u.name, u.email, u.role, u.createdAt))
    {
      if user.None? then AuthReply(401, Message(Unauthorized))
      else
        match ParseId(user.value.id)
        case None => Forward(CastFailure(user.value.id, "_id", "User", stack), development)
        case Some(id) =>
          if id !in users then AuthReply(404, Message(UserMissing))
          else
            var u := users[id];
            AuthReply(200, Profile(UserView(IdText(id), u.name, u.email, u.role, u.createdAt)))
    }
  }

  /** An unknown address and a wrong password give the very same reply. */
  lemma FailuresLookAlike(store: UserStore, email1: string, password1: string, email2: string, password2: string,
                          compare: (string, string) -> bool, sign: TokenRequest -> string)
    requires store.Valid()
    requires store.FindByEmail(email1).None?
    requires store.FindByEmail(email2).Some? && !compare(password2, store.users[store.FindByEmail(email2).value].passwordHash)
    ensures store.Login([], email1, password1, compare, sign) == store.Login([], email2, password2, compare, sign)
  {
  }

  /**
   * A token issued at registration or login opens the Bearer gate, and the middleware then
   * attaches the same id and role. `verify` is assumed to accept what `sign` produced.
   */
  lemma IssuedTokenAuthenticates(id: Id, role: string, sign: TokenRequest -> string, verify: string -> Option<Auth.Claims>)
    requires sign(TokenFor(id, role)) != "" && ' ' !in sign(TokenFor(id, role))
    requires verify(sign(TokenFor(id, role))) == Some(TokenFor(id, role).payload)
    ensures Auth.Decide(Some("Bearer " + sign(TokenFor(id, role))), verify)
            == Auth.Pass(Auth.AuthUser(IdText(id), if role == "" then "user" else role))
  {
    Auth.BearerTokenOfScheme("Bearer", sign(TokenFor(id, role)));
    assert "Bearer" + " " == "Bearer ";
  }
}

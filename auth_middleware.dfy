/**
 * The token middleware: read a Bearer token from the Authorization header, verify it and
 * attach the caller to the request; and the admin gate that reads what was attached.
 * Token verification (a JSON Web Token library) is an oracle: `verify` gives the decoded
 * payload, or None when the token is invalid or expired.
 */
module Auth {
  import opened Wrappers
  import opened Text

  datatype UserRole = User | Admin

  /** The string value of each `UserRole` member. */
  function RoleValue(role: UserRole): string {
    match role
    case User => "user"
    case Admin => "admin"
  }

  /** The member whose value is `s`, if any. */
  function RoleOfValue(s: string): (r: Option<UserRole>)
    ensures r.Some? <==> s == "user" || s == "admin"
    ensures r.Some? ==> RoleValue(r.value) == s
  {
    if s == "user" then Some(User) else if s == "admin" then Some(Admin) else None
  }

  /** The decoded token payload; `role` is "" when the payload has none. */
  datatype Claims = Claims(id: string, role: string)

  /** What `req.user` holds. The role is the decoded string, which is not checked against `UserRole`. */
  datatype AuthUser = AuthUser(id: string, role: string)

  /** `{ message }` replies of the middleware. */
  datatype Reply = Reply(status: int, message: string)

  const MissingTokenMessage: string := "Yetkilendirme hatası: Token bulunamadı"
  const BadTokenMessage: string := "Geçersiz veya süresi dolmuş token"
  const NoUserMessage: string := "Yetkilendirme hatası: Kullanıcı bulunamadı"
  const NotAdminMessage: string := "Erişim engellendi: Admin yetkisi gerekli"

  /**
   * `authHeader && authHeader.split(' ')[1]`: the second space-separated piece of the header.
   * A missing or empty header, a header without a space, or an empty second piece gives no token.
   */
  function BearerToken(header: Option<string>): (t: Option<string>)
    ensures t.Some? ==> t.value != "" && ' ' !in t.value
  {
    if header.None? || header.value == "" then None
    else
      var parts := Split(header.value, ' ');
      SplitPieces(header.value, ' ');
      if |parts| < 2 || parts[1] == "" then None else Some(parts[1])
  }

  /** The header of section 2.1 of RFC 6750, `Bearer <token>`, gives its token, and so does any other scheme word. */
  lemma BearerTokenOfScheme(scheme: string, token: string)
    requires ' ' !in scheme && token != "" && ' ' !in token
    ensures BearerToken(Some(scheme + " " + token)) == Some(token)
  {
    SplitFirstPiece(scheme, token, ' ');
    SplitWithout(token, ' ');
    assert scheme + " " + token == scheme + [' '] + token;
  }

  /** Whatever follows a second space is ignored. */
  lemma BearerTokenIgnoresRest(scheme: string, token: string, rest: string)
    requires ' ' !in scheme && token != "" && ' ' !in token
    ensures BearerToken(Some(scheme + " " + token + " " + rest)) == Some(token)
  {
    var h := scheme + " " + token + " " + rest;
    assert h == scheme + [' '] + (token + [' '] + rest);
    SplitFirstPiece(scheme, token + [' '] + rest, ' ');
    SplitFirstPiece(token, rest, ' ');
  }

  /** A header without a space, such as a bare token, gives no token. */
  lemma NoSpaceNoToken(header: string)
    requires ' ' !in header
    ensures BearerToken(Some(header)) == None
  {
    SplitWithout(header, ' ');
  }

  /** Two spaces after the scheme leave the second piece empty, so there is no token. */
  lemma DoubleSpaceNoToken(scheme: string, rest: string)
    requires ' ' !in scheme
    ensures BearerToken(Some(scheme + "  " + rest)) == None
  {
    var h := scheme + "  " + rest;
    assert h == scheme + [' '] + ([] + [' '] + rest);
    SplitFirstPiece(scheme, [] + [' '] + rest, ' ');
    SplitFirstPiece([], rest, ' ');
  }

  datatype Decision = Pass(user: AuthUser) | Deny(reply: Reply)

  /** `req.user` after a successful verification: the role defaults to "user". */
  function UserOf(claims: Claims): AuthUser {
    AuthUser(claims.id, if claims.role == "" then RoleValue(User) else claims.role)
  }

  /** What `authenticate` decides for a header. */
  function Decide(header: Option<string>, verify: string -> Option<Claims>): (d: Decision)
    ensures d.Deny? ==> d.reply.status == 401 || d.reply.status == 403
    ensures (d.Deny? && d.reply.status == 401) <==> BearerToken(header).None?
    ensures (d.Deny? && d.reply.status == 403) <==> BearerToken(header).Some? && verify(BearerToken(header).value).None?
    ensures d.Pass? ==> exists t | BearerToken(header) == Some(t) :: verify(t).Some? && d.user == UserOf(verify(t).value)
    ensures d.Pass? ==> d.user.role != ""
  {
    match BearerToken(header)
    case None => Deny(Reply(401, MissingTokenMessage))
    case Some(t) =>
      match verify(t)
      case None => Deny(Reply(403, BadTokenMessage))
      case Some(claims) => Pass(UserOf(claims))
  }

  /** An invalid token and an expired one are both refused with 403, never with 401. */
  lemma RejectedTokenIsForbidden(header: Option<string>, verify: string -> Option<Claims>)
    requires BearerToken(header).Some? && verify(BearerToken(header).value).None?
    ensures Decide(header, verify) == Deny(Reply(403, BadTokenMessage))
  {
  }

  /** The request object: the header is read, `user` is what the middleware attaches. */
  class Request {
    const authorization: Option<string>
    var user: Option<AuthUser>

    constructor (authorization: Option<string>)
      ensures this.authorization == authorization && user == None
    {
      this.authorization := authorization;
      user := None;
    }

    /** `authenticate`: attach the caller and return None (`next()`), or return the refusal and leave `user` as it was. */
    method Authenticate(verify: string -> Option<Claims>) returns (refusal: Option<Reply>)
      modifies this
      ensures refusal.None? <==> Decide(authorization, verify).Pass?
      ensures refusal.Some? ==> refusal.value == Decide(authorization, verify).reply && user == old(user)
      ensures refusal.None? ==> user == Some(Decide(authorization, verify).user)
    {
      var d := Decide(authorization, verify);
      if d.Pass? {
        user := Some(d.user);
        refusal := None;
      } else {
        refusal := Some(d.reply);
      }
    }
  }

  /** `isAdmin`: None means the request passes on. */
  function IsAdmin(user: Option<AuthUser>): (r: Option<Reply>)
    ensures r.None? <==> user.Some? && user.value.role == RoleValue(Admin)
    ensures r.Some? ==> (r.value.status == 401 <==> user.None?)
    ensures r.Some? ==> r.value.status == 401 || r.value.status == 403
  {
    if user.None? then Some(Reply(401, NoUserMessage))
    else if user.value.role != RoleValue(Admin) then Some(Reply(403, NotAdminMessage))
    else None
  }

  /** Behind `authenticate`, the admin gate passes exactly the tokens whose payload says "admin". */
  lemma AdminGateAfterAuthenticate(header: Option<string>, verify: string -> Option<Claims>)
    requires Decide(header, verify).Pass?
    ensures IsAdmin(Some(Decide(header, verify).user)).None? <==> verify(BearerToken(header).value).value.role == "admin"
  {
  }
}

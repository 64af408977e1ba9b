/**
 * The User schema: setters (trim, lower-case), defaults, the validators run by `save`,
 * the pre-save hook that hashes a modified password, and `comparePassword`.
 * bcrypt is an oracle: `hash` gives the stored form of a password and `compare` checks a
 * candidate against a stored hash.
 */
module UserModel {
  import opened Wrappers
  import opened Text
  import opened Http
  import Auth

  // ---------------------------------------------------------------------------
  // The email pattern ^\w+([.-]?\w+)*@\w+([.-]?\w+)*(\.\w{2,3})+$ (no flags, so \w is ASCII).
  // ---------------------------------------------------------------------------

  predicate IsSeparator(c: char) {
    c == '.' || c == '-'
  }

  /** `\w+([.-]?\w+)*`: word characters, with single separators between them. */
  predicate Runs(s: string) {
    && |s| > 0
    && IsAsciiWord(s[0])
    && IsAsciiWord(s[|s| - 1])
    && (forall i | 0 <= i < |s| :: IsAsciiWord(s[i]) || IsSeparator(s[i]))
    && (forall i | 0 <= i < |s| - 1 :: IsSeparator(s[i]) ==> IsAsciiWord(s[i + 1]))
  }

  /** `(\.\w{2,3})+`: one or more groups, each a dot and two or three word characters. */
  predicate DotGroups(s: string)
    decreases |s|
  {
    && |s| >= 3 && s[0] == '.' && IsAsciiWord(s[1]) && IsAsciiWord(s[2])
    && (|s| == 3 || DotGroups(s[3..]) || (IsAsciiWord(s[3]) && (|s| == 4 || DotGroups(s[4..]))))
  }

  /** The part after '@', as the pattern states it: runs, then dot groups, split anywhere the pattern can backtrack to. */
  predicate DomainMatches(t: string) {
    exists i | 0 < i < |t| :: Runs(t[..i]) && DotGroups(t[i..])
  }

  /** The last part is a dot and two or three word characters. */
  predicate ShortLastPart(t: string) {
    || (|t| >= 3 && t[|t| - 3] == '.' && IsAsciiWord(t[|t| - 2]) && IsAsciiWord(t[|t| - 1]))
    || (|t| >= 4 && t[|t| - 4] == '.' && IsAsciiWord(t[|t| - 3]) && IsAsciiWord(t[|t| - 2]) && IsAsciiWord(t[|t| - 1]))
  }

  /** The same language by its shape: runs whose last separator is a dot followed by two or three word characters. */
  predicate DomainShape(t: string) {
    Runs(t) && ShortLastPart(t)
  }

  /** The `match` pattern of the e-mail field: word runs joined by single separators, `@`, then a domain the rest of the pattern matches. */
  predicate IsEmail(s: string) {
    exists k | 0 <= k < |s| :: s[k] == '@' && Runs(s[..k]) && DomainMatches(s[k + 1..])
  }

  lemma RunsJoin(a: string, b: string)
    requires Runs(a) && Runs(b)
    ensures Runs(a + "." + b)
  {
    var s := a + "." + b;
    assert forall i | 0 <= i < |a| :: s[i] == a[i];
    assert s[|a|] == '.';
    assert forall i | |a| < i < |s| :: s[i] == b[i - |a| - 1];
  }

  /** Two runs around a dot form one run. */
  lemma RunsAround(t: string, i: nat)
    requires 0 < i < |t| - 1 && t[i] == '.' && Runs(t[..i]) && Runs(t[i + 1..])
    ensures Runs(t)
  {
    var a, b := t[..i], t[i + 1..];
    assert t[0] == a[0] && t[|t| - 1] == b[|b| - 1];
    forall k | 0 <= k < |t|
      ensures IsAsciiWord(t[k]) || IsSeparator(t[k])
    {
      if k < i { assert t[k] == a[k]; } else if k > i { assert t[k] == b[k - i - 1]; }
    }
    forall k | 0 <= k < |t| - 1 && IsSeparator(t[k])
      ensures IsAsciiWord(t[k + 1])
    {
      if k < i - 1 {
        assert t[k] == a[k] && t[k + 1] == a[k + 1];
      } else if k == i - 1 {
        assert t[k] == a[|a| - 1];
      } else if k == i {
        assert t[k + 1] == b[0];
      } else {
        assert t[k] == b[k - i - 1] && t[k + 1] == b[k - i];
      }
    }
  }

  lemma {:induction false} DotGroupsShape(u: string)
    requires DotGroups(u)
    ensures u[0] == '.' && Runs(u[1..]) && ShortLastPart(u)
    decreases |u|
  {
    if |u| == 3 {
    } else if |u| == 4 && IsAsciiWord(u[3]) && !DotGroups(u[3..]) {
    } else {
      var n := if DotGroups(u[3..]) then 3 else 4;
      var rest := u[n..];
      DotGroupsShape(rest);
      var v := u[1..];
      assert v[..n - 1] == u[1..n];
      assert Runs(v[..n - 1]);
      assert v[n..] == rest[1..];
      RunsAround(v, n - 1);
      LastPartOfSuffix(u, n);
    }
  }

  lemma MatchesHaveShape(t: string)
    requires DomainMatches(t)
    ensures DomainShape(t)
  {
    var i :| 0 < i < |t| && Runs(t[..i]) && DotGroups(t[i..]);
    var u := t[i..];
    DotGroupsShape(u);
    assert u[1..] == t[i + 1..];
    RunsAround(t, i);
    LastPartOfSuffix(t, i);
  }

  lemma LastPartOfSuffix(t: string, i: nat)
    requires i <= |t| && ShortLastPart(t[i..])
    ensures ShortLastPart(t)
  {
    var u := t[i..];
    assert |u| >= 3 ==> u[|u| - 3] == t[|t| - 3] && u[|u| - 2] == t[|t| - 2] && u[|u| - 1] == t[|t| - 1];
    assert |u| >= 4 ==> u[|u| - 4] == t[|t| - 4];
  }

  lemma ShapesMatch(t: string)
    requires DomainShape(t)
    ensures DomainMatches(t)
  {
    var j := if t[|t| - 3] == '.' then |t| - 3 else |t| - 4;
    assert !IsSeparator(t[j - 1]);
    assert Runs(t[..j]);
    assert DotGroups(t[j..]);
  }

  /** The pattern's domain part and the shape describe the same strings. */
  lemma DomainMatchesShape(t: string)
    ensures DomainMatches(t) <==> DomainShape(t)
  {
    if DomainMatches(t) {
      MatchesHaveShape(t);
    }
    if DomainShape(t) {
      ShapesMatch(t);
    }
  }

  /** Runs, '@', runs, a dot and a two- or three-character ending form an address. */
  lemma EmailOfParts(local: string, host: string, ending: string)
    requires Runs(local) && Runs(host) && 2 <= |ending| <= 3 && forall i | 0 <= i < |ending| :: IsAsciiWord(ending[i])
    ensures IsEmail(local + "@" + host + "." + ending)
  {
    var d := host + "." + ending;
    assert d[..|host|] == host;
    assert DotGroups(d[|host|..]);
    var s := local + "@" + d;
    assert s[..|local|] == local && s[|local|] == '@' && s[|local| + 1..] == d;
    assert local + "@" + host + "." + ending == s;
  }

  /** Example: a common address is accepted. */
  lemma AcceptsPlainAddress()
    ensures IsEmail("a.b@c-d.org")
  {
    var local, host, ending := "a.b", "c-d", "org";
    assert Runs(local) && Runs(host);
    assert local + "@" + host + "." + ending == "a.b@c-d.org";
    EmailOfParts(local, host, ending);
  }

  /** Only the character at `k` is '@'. */
  lemma OnlyAt(s: string, k: nat)
    requires k < |s| && s[k] == '@' && forall i | 0 <= i < |s| && i != k :: s[i] != '@'
    ensures IsEmail(s) <==> Runs(s[..k]) && DomainMatches(s[k + 1..])
  {
  }

  /** Example: the last part must be two or three characters long, so a four-letter ending such as `.info` is refused. */
  lemma RejectsLongTopLevelDomain()
    ensures !IsEmail("a@b.info")
  {
    var s := "a@b.info";
    OnlyAt(s, 1);
    assert s[2..] == "b.info";
    DomainMatchesShape("b.info");
  }

  /** Examples: a host without a dot, a doubled separator and a missing local part are refused. */
  lemma RejectsMalformed()
    ensures !IsEmail("a@host")
    ensures !IsEmail("a..b@c.com")
    ensures !IsEmail("@c.com")
  {
    OnlyAt("a@host", 1);
    assert "a@host"[2..] == "host";
    DomainMatchesShape("host");
    OnlyAt("a..b@c.com", 4);
    assert "a..b@c.com"[..4] == "a..b";
    assert IsSeparator("a..b"[1]) && !IsAsciiWord("a..b"[2]);
    OnlyAt("@c.com", 0);
  }

  // ---------------------------------------------------------------------------
  // Setters, defaults and validators.
  // ---------------------------------------------------------------------------

  const NameRequired: string := "İsim alanı zorunludur"
  const EmailRequired: string := "E-posta alanı zorunludur"
  const EmailInvalid: string := "Lütfen geçerli bir e-posta adresi girin"
  const PasswordRequired: string := "Şifre alanı zorunludur"
  const PasswordShort: string := "Şifre en az 6 karakter olmalıdır"
  const MinPasswordLength: nat := 6

  /** Mongoose's default message for a value outside an `enum`. */
  function EnumMessage(value: string, path: string): string {
    "`" + value + "` is not a valid enum value for path `" + path + "`."
  }

  /** The `trim` and `lowercase` setters of `email`. */
  function NormalizeEmail(email: string): string {
    Lower(JsTrim(email))
  }

  /**
   * The first failing validator of each path, in schema order. A `required` string fails
   * when it is empty, so an absent field is the empty string here; `minlength` counts
   * UTF-16 code units, as JavaScript's `length` does.
   */
  function FieldErrors(name: string, email: string, password: string, role: string): (errs: seq<FieldError>)
    ensures errs == [] <==> name != "" && IsEmail(email) && Utf16Length(password) >= MinPasswordLength && Auth.RoleOfValue(role).Some?
    ensures |errs| <= 4
  {
    (if name == "" then [FieldError("name", NameRequired)] else [])
    + (if email == "" then [FieldError("email", EmailRequired)]
       else if !IsEmail(email) then [FieldError("email", EmailInvalid)] else [])
    + (if password == "" then [FieldError("password", PasswordRequired)]
       else if Utf16Length(password) < MinPasswordLength then [FieldError("password", PasswordShort)] else [])
    + (if Auth.RoleOfValue(role).None? then [FieldError("role", EnumMessage(role, "role"))] else [])
  }

  /** A saved user. `passwordHash` is what the hook stored in the `password` field. */
  datatype StoredUser = StoredUser(name: string, email: string, passwordHash: string, role: string, createdAt: int)

  /** A user document between `new User(...)` and `save()`. */
  class UserDocument {
    var name: string
    var email: string
    var password: string
    var role: string
    var createdAt: int
    /** `isModified('password')`: a new document counts every field it was given as modified. */
    var passwordModified: bool

    /** `new User({ name, email, password })`: setters applied, role and creation time defaulted. */
    constructor (name: string, email: string, password: string, now: int)
      ensures this.name == JsTrim(name) && this.email == NormalizeEmail(email) && this.password == password
      ensures role == Auth.RoleValue(Auth.User) && createdAt == now && passwordModified
    {
      this.name := JsTrim(name);
      this.email := NormalizeEmail(email);
      this.password := password;
      role := Auth.RoleValue(Auth.User);
      createdAt := now;
      passwordModified := true;
    }

    function Errors(): seq<FieldError>
      reads this
    {
      FieldErrors(name, email, password, role)
    }

    /** Assigning the password marks it modified. */
    method SetPassword(p: string)
      modifies this
      ensures password == p && passwordModified
      ensures name == old(name) && email == old(email) && role == old(role) && createdAt == old(createdAt)
    {
      password := p;
      passwordModified := true;
    }

    /** The pre-save hook: hash the password only when it was modified. */
    method PreSave(hash: string -> string)
      modifies this
      ensures password == (if old(passwordModified) then hash(old(password)) else old(password))
      ensures passwordModified == old(passwordModified)
      ensures name == old(name) && email == old(email) && role == old(role) && createdAt == old(createdAt)
    {
      if passwordModified {
        password := hash(password);
      }
    }

    /**
     * `save()`: validation first (on the plain password), then the hook, then the write;
     * afterwards nothing counts as modified, so a second save stores the same hash.
     */
    method Save(hash: string -> string) returns (r: Result<StoredUser, seq<FieldError>>)
      modifies this
      ensures r.Err? <==> old(Errors()) != []
      ensures r.Err? ==> r.error == old(Errors()) && password == old(password) && passwordModified == old(passwordModified)
      ensures r.Ok? ==> password == (if old(passwordModified) then hash(old(password)) else old(password)) && !passwordModified
      ensures r.Ok? ==> r.value == StoredUser(name, email, password, role, createdAt)
      ensures name == old(name) && email == old(email) && role == old(role) && createdAt == old(createdAt)
    {
      var errs := Errors();
      if errs != [] {
        return Err(errs);
      }
      PreSave(hash);
      passwordModified := false;
      r := Ok(StoredUser(name, email, password, role, createdAt));
    }

    /** `comparePassword`: the bcrypt check of the candidate against the stored hash. */
    predicate ComparePassword(compare: (string, string) -> bool, candidate: string)
      reads this
    {
      compare(candidate, password)
    }
  }

  /** A password saved once can be checked with itself, and a second save does not hash the hash. */
  method SaveTwiceKeepsPassword(name: string, email: string, password: string, now: int,
                                hash: string -> string, compare: (string, string) -> bool)
    returns (first: Result<StoredUser, seq<FieldError>>, second: Result<StoredUser, seq<FieldError>>)
    requires forall p :: compare(p, hash(p))
    requires forall p :: Utf16Length(hash(p)) >= MinPasswordLength
    ensures first.Ok? <==> FieldErrors(JsTrim(name), NormalizeEmail(email), password, "user") == []
    ensures first.Ok? ==> second.Ok? && second.value.passwordHash == first.value.passwordHash == hash(password)
    ensures first.Ok? ==> compare(password, second.value.passwordHash)
  {
    var doc := new UserDocument(name, email, password, now);
    first := doc.Save(hash);
    second := doc.Save(hash);
  }
}

/** The user document: roles, the setters and validators of the schema, and
    the pre-save hook that hashes a modified password. */
module UserModel {
  import opened Base
  import Text

  datatype Role = RegularUser | Admin

  function RoleName(r: Role): string {
    match r
    case RegularUser => "user"
    case Admin => "admin"
  }

  function ParseRole(s: string): (r: Option<Role>)
    ensures r.Some? ==> RoleName(r.value) == s
    ensures r.None? ==> forall x :: RoleName(x) != s
  {
    if s == "user" then Some(RegularUser)
    else if s == "admin" then Some(Admin)
    else None
  }

  lemma ParseRoleName(x: Role)
    ensures ParseRole(RoleName(x)) == Some(x)
  {
  }

  const DefaultRole: Role := RegularUser

  datatype User = User(
    firstName: string,
    lastName: string,
    email: string,
    password: string,             // the stored hash once saved
    role: Role,
    avatarUrl: string,
    createdAt: Timestamp)

  /** The `lowercase` then `trim` setters of the email field: the result
      is trimmed, has no ASCII capital and is what the two setters give in
      the other order too. */
  function NormaliseEmail(s: string): (r: string)
    ensures Text.Trimmed(r) && |r| <= |s|
  {
    Text.LowerTrimCommute(s);
    Text.Trim(Text.Lower(s))
  }

  /** Normalising twice is normalising once, whichever order the two setters
      run in. */
  lemma NormaliseEmailIdempotent(s: string)
    ensures NormaliseEmail(NormaliseEmail(s)) == NormaliseEmail(s)
    ensures NormaliseEmail(s) == Text.Lower(Text.Trim(s))
  {
    var l := Text.Lower(s);
    Text.LowerTrimCommute(s);
    Text.LowerTrimCommute(Text.Trim(l));
    Text.TrimIdempotent(l);
    Text.LowerIdempotent(Text.Trim(s));
  }

  /** `\w`: ASCII letters, digits and underscore. */
  predicate WordChar(c: char) {
    ('a' <= c <= 'z') || ('A' <= c <= 'Z') || ('0' <= c <= '9') || c == '_'
  }

  predicate SepChar(c: char) {
    c == '.' || c == '-'
  }

  /** Strings matched by `\w+([.-]?\w+)*`: word characters, with single
      dots or hyphens between them, starting and ending with a word
      character. */
  predicate Dotted(s: string) {
    && |s| > 0
    && WordChar(s[0])
    && WordChar(s[|s| - 1])
    && (forall i :: 0 <= i < |s| ==> WordChar(s[i]) || SepChar(s[i]))
    && (forall i :: 0 <= i < |s| - 1 ==> !(SepChar(s[i]) && SepChar(s[i + 1])))
  }

  /** Index of the last separator of `s`, `|s|` when it has none. */
  function LastSep(s: string): (k: nat)
    ensures k <= |s|
    ensures k < |s| ==> SepChar(s[k]) && forall j :: k < j < |s| ==> !SepChar(s[j])
    ensures k == |s| ==> forall j :: 0 <= j < |s| ==> !SepChar(s[j])
  {
    if s == [] then 0
    else if SepChar(s[|s| - 1]) then |s| - 1
    else
      var k := LastSep(s[..|s| - 1]);
      if k == |s| - 1 then |s| else k
  }

  /** Strings matched by `\w+([.-]?\w+)*(\.\w{2,})+`: dotted, with a last
      separator that is a dot followed by at least two word characters. */
  predicate DomainPart(s: string) {
    && Dotted(s)
    && var k := LastSep(s);
       k < |s| && s[k] == '.' && |s| - k - 1 >= 2
  }

  /** The email pattern of the schema, anchored at both ends: a dotted
      local part, one `@`, and a domain part. */
  predicate ValidEmail(e: string): (b: bool)
    ensures b ==> var at := Text.IndexOf(e, '@');
      && 0 < at && at + 4 < |e| && '@' !in e[at + 1..]
      && forall i :: 0 <= i < |e| ==> WordChar(e[i]) || SepChar(e[i]) || e[i] == '@'
  {
    var at := Text.IndexOf(e, '@');
    if at < |e| && Dotted(e[..at]) && DomainPart(e[at + 1..]) then
      EmailShape(e, at);
      true
    else false
  }

  /** What a match says about the characters: word characters and
      separators around exactly one `@`, with a domain of four or more. */
  lemma EmailShape(e: string, at: nat)
    requires at < |e| && e[at] == '@' && Dotted(e[..at]) && DomainPart(e[at + 1..])
    ensures 0 < at && at + 4 < |e| && '@' !in e[at + 1..]
    ensures forall i :: 0 <= i < |e| ==> WordChar(e[i]) || SepChar(e[i]) || e[i] == '@'
  {
    var local, domain := e[..at], e[at + 1..];
    var k := LastSep(domain);
    assert k != 0 by { assert WordChar(domain[0]); }
    forall i | 0 <= i < |e| ensures WordChar(e[i]) || SepChar(e[i]) || e[i] == '@' {
      if i < at {
        assert e[i] == local[i];
      } else if i > at {
        assert e[i] == domain[i - at - 1];
      }
    }
    forall i | 0 <= i < |domain| ensures domain[i] != '@' {
      assert WordChar(domain[i]) || SepChar(domain[i]);
    }
  }

  /** Matching splits at the `@`: an address whose local part has no `@`
      matches exactly when the local part is dotted and the rest is a
      domain. */
  lemma ValidEmailParts(local: string, domain: string)
    requires '@' !in local
    ensures ValidEmail(local + "@" + domain) <==> Dotted(local) && DomainPart(domain)
  {
    var e := local + "@" + domain;
    Text.IndexOfAfter(local, '@', domain);
    assert e[..|local|] == local && e[|local| + 1..] == domain;
  }

  /** A dotted address with a two-letter top-level domain matches the
      pattern. */
  lemma EmailAccepted()
    ensures ValidEmail("ann.lee@mail.fr")
  {
    var local, domain := "ann.lee", "mail.fr";
    DottedAnnLee();
    DomainMailFr();
    ValidEmailParts(local, domain);
    assert local + "@" + domain == "ann.lee@mail.fr";
  }

  /** A one-letter top-level domain does not match. */
  lemma EmailRefused()
    ensures !ValidEmail("ann@mail.c")
  {
    ValidEmailParts("ann", "mail.c");
    NoDomainMailC();
  }

  lemma DottedAnnLee()
    ensures Dotted("ann.lee")
  {
  }

  lemma NoDomainMailC()
    ensures !DomainPart("mail.c")
  {
    assert "mail.c"[..5] == "mail.";
    assert LastSep("mail.c") == 4;
  }

  lemma DomainMailFr()
    ensures DomainPart("mail.fr")
  {
    assert "mail.fr"[..6] == "mail.f" && "mail.f"[..5] == "mail.";
    assert LastSep("mail.f") == 4;
    assert LastSep("mail.fr") == 4;
  }

  /** What the validators require of a stored user (apart from the password,
      which is checked by the hook before it is replaced by its hash). */
  predicate Conforms(u: User): (b: bool)
    ensures b ==> Text.Trim(u.firstName) == u.firstName && Text.Trim(u.lastName) == u.lastName
    ensures b ==> '@' in u.email
  {
    Text.TrimOfTrimmedIf(u.firstName);
    Text.TrimOfTrimmedIf(u.lastName);
    && u.firstName != "" && Text.Trimmed(u.firstName)
    && u.lastName != "" && Text.Trimmed(u.lastName)
    && u.email != "" && u.email == NormaliseEmail(u.email) && ValidEmail(u.email)
  }

  /** A new document as the setters leave it: names trimmed, email
      normalised, role and avatar at their defaults. */
  function Cast(firstName: string, lastName: string, email: string, password: string, createdAt: Timestamp): (u: User)
    ensures Text.Trimmed(u.firstName) && Text.Trimmed(u.lastName)
    ensures u.email == NormaliseEmail(email) && u.email == NormaliseEmail(u.email)
    ensures u.password == password && u.role == DefaultRole && u.avatarUrl == ""
  {
    NormaliseEmailIdempotent(email);
    User(Text.Trim(firstName), Text.Trim(lastName), NormaliseEmail(email), password,
         DefaultRole, "", createdAt)
  }
  /** The setters leave a stored document as it is: casting its own fields
      again gives it back, up to the role and avatar defaults. */
  lemma CastOfStored(u: User)
    requires Conforms(u)
    ensures Cast(u.firstName, u.lastName, u.email, u.password, u.createdAt) == u.(role := DefaultRole, avatarUrl := "")
  {
  }


  /** The pre-save hook: an empty password fails the save; a password that
      was modified is replaced by its hash; otherwise the document is kept. */
  function PreSave(u: User, passwordModified: bool, hash: string -> string): (r: Result<User>)
    ensures r.Err? <==> u.password == ""
    ensures r.Ok? ==> r.value.(password := u.password) == u
    ensures r.Ok? ==> r.value.password == if passwordModified then hash(u.password) else u.password
  {
    if u.password == "" then Err(ServerError)
    else if !passwordModified then Ok(u)
    else Ok(u.(password := hash(u.password)))
  }

  /** Saving again without touching the password does not hash it twice. */
  lemma NoRehash(u: User, hash: string -> string)
    requires PreSave(u, true, hash).Ok?
    requires hash(u.password) != ""
    ensures PreSave(PreSave(u, true, hash).value, false, hash) == PreSave(u, true, hash)
  {
  }

  /** Save-time validation: validators, then the hook. */
  function Save(u: User, passwordModified: bool, hash: string -> string): (r: Result<User>)
    ensures r.Ok? <==> Conforms(u) && u.password != ""
    ensures r.Ok? ==> Conforms(r.value) && r.value.(password := u.password) == u
  {
    if !Conforms(u) then Err(ServerError) else PreSave(u, passwordModified, hash)
  }
}

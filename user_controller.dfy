/** The user handlers: registration, login, the admin's delete and password
    reset, and the profile update. bcrypt's hash and compare and jwt's sign
    are library calls, passed in as functions (`hash`, `matches`, `sign`).
    Email lookups go through the email setters (lowercase, then trim), as
    Mongoose casts query values with the schema. */
module UserController {
  import opened Base
  import Text
  import Files
  import opened UserModel
  import Database

  // ---------------------------------------------------------------------
  // Lookup by email

  /** The user whose email is `email`, scanning the ids below `n` from the
      top. Emails are unique in a valid store, so at most one matches. */
  function FindByEmail(users: map<UserId, User>, email: string, n: nat): (r: Option<UserId>)
    ensures r.Some? ==> r.value in users && users[r.value].email == email && r.value < n
    ensures r.None? ==> forall k :: k in users && k < n ==> users[k].email != email
  {
    if n == 0 then None
    else if n - 1 in users && users[n - 1].email == email then Some(n - 1)
    else FindByEmail(users, email, n - 1)
  }

  /** With every id below `n`, the lookup finds a user exactly when the
      email is taken. */
  lemma {:induction false} FindByEmailTaken(users: map<UserId, User>, email: string, n: nat)
    requires Database.Below(users, n)
    ensures FindByEmail(users, email, n).Some? <==> Database.EmailTaken(users, email)
  {
    if n > 0 && !(n - 1 in users && users[n - 1].email == email) {
      FindByEmailBelow(users, email, n - 1);
    }
  }

  /** Scanning below `n` finds a user whenever some id below `n` has the
      email. */
  lemma {:induction false} FindByEmailBelow(users: map<UserId, User>, email: string, n: nat)
    ensures FindByEmail(users, email, n).None? <==> forall k :: k in users && k < n ==> users[k].email != email
  {
    if n > 0 {
      FindByEmailBelow(users, email, n - 1);
    }
  }

  // ---------------------------------------------------------------------
  // registerUser

  /** The error registerUser answers, if any: 400 for a missing field, 400
      for an email already in use, 500 when validation rejects the new
      document (a whitespace-only name, an email that does not match). */
  function RegisterRefusal(users: map<UserId, User>, firstName: Option<string>, lastName: Option<string>,
                           email: Option<string>, password: Option<string>, now: Timestamp): Option<Status>
  {
    if !Truthy(firstName) || !Truthy(lastName) || !Truthy(email) || !Truthy(password) then Some(BadRequest)
    else if Database.EmailTaken(users, NormaliseEmail(email.value)) then Some(BadRequest)
    else if !Conforms(Cast(firstName.value, lastName.value, email.value, password.value, now)) then Some(ServerError)
    else None
  }

  /** The user registerUser stores: cast by the setters, password hashed. */
  function Registered(firstName: string, lastName: string, email: string, password: string,
                      now: Timestamp, hash: string -> string): User
  {
    Cast(firstName, lastName, email, password, now).(password := hash(password))
  }

  /** A registered user passes validation, has the trimmed names, the
      normalised email, the hashed password, the role "user" and no avatar,
      and does not share its email with anyone already stored. */
  lemma RegisterOutcome(users: map<UserId, User>, firstName: Option<string>, lastName: Option<string>,
                        email: Option<string>, password: Option<string>, now: Timestamp, hash: string -> string)
    requires RegisterRefusal(users, firstName, lastName, email, password, now).None?
    ensures var u := Registered(firstName.value, lastName.value, email.value, password.value, now, hash);
      && Conforms(u) && !Database.EmailTaken(users, u.email)
      && u.firstName == Text.Trim(firstName.value) && u.lastName == Text.Trim(lastName.value)
      && u.email == NormaliseEmail(email.value) && u.password == hash(password.value)
      && u.role == RegularUser && u.avatarUrl == ""
  {
  }

  /** registerUser. */
  method RegisterUser(db: Database.Store, firstName: Option<string>, lastName: Option<string>,
                      email: Option<string>, password: Option<string>, now: Timestamp, hash: string -> string)
    returns (r: Result<UserId>)
    requires db.Valid()
    modifies db`users, db`nextId
    ensures db.Valid()
    ensures var refusal := RegisterRefusal(old(db.users), firstName, lastName, email, password, now);
      && (refusal.Some? ==> r == Err(refusal.value) && db.users == old(db.users))
      && (refusal.None? ==>
            && r == Ok(old(db.nextId)) && old(db.nextId) !in old(db.users)
            && db.users == old(db.users)[old(db.nextId) :=
                 Registered(firstName.value, lastName.value, email.value, password.value, now, hash)])
  {
    if !Truthy(firstName) || !Truthy(lastName) || !Truthy(email) || !Truthy(password) {
      return Err(BadRequest);
    }
    var existing := FindByEmail(db.users, NormaliseEmail(email.value), db.nextId);
    FindByEmailTaken(db.users, NormaliseEmail(email.value), db.nextId);
    if existing.Some? {
      return Err(BadRequest);
    }

    var u := Cast(firstName.value, lastName.value, email.value, password.value, now);
    var saved := Save(u, true, hash);
    if saved.Err? {
      return Err(ServerError);
    }
    var id := db.InsertUser(saved.value);
    return Ok(id);
  }

  /** Exactly one user is added by a registration. */
  lemma RegisterAddsOne(users: map<UserId, User>, id: UserId, u: User)
    requires id !in users
    ensures |users[id := u]| == |users| + 1
    ensures forall k :: k in users ==> k in users[id := u] && users[id := u][k] == users[k]
  {
  }

  // ---------------------------------------------------------------------
  // loginUser

  /** What a successful login answers: the token and the user's public
      fields. */
  datatype Session = Session(token: string, id: UserId, firstName: string, lastName: string,
                             email: string, avatarUrl: string, role: Role)

  /** loginUser: 400 for a missing credential, an unknown email or a wrong
      password, 500 for a stored user without a password. */
  function LoginUser(users: map<UserId, User>, bound: nat, email: Option<string>, password: Option<string>,
                     matches: (string, string) -> bool, sign: UserId -> string): (r: Result<Session>)
    ensures r.Ok? ==>
      && Truthy(email) && Truthy(password)
      && r.value.id in users && users[r.value.id].email == NormaliseEmail(email.value)
      && matches(password.value, users[r.value.id].password)
      && r.value.token == sign(r.value.id)
    ensures r.Err? ==> r.status == BadRequest || r.status == ServerError
  {
    if !Truthy(email) || !Truthy(password) then Err(BadRequest)
    else
      match FindByEmail(users, NormaliseEmail(email.value), bound)
      case None => Err(BadRequest)
      case Some(id) =>
        var u := users[id];
        if u.password == "" then Err(ServerError)
        else if !matches(password.value, u.password) then Err(BadRequest)
        else Ok(Session(sign(id), id, u.firstName, u.lastName, u.email, u.avatarUrl, u.role))
  }

  /** Only a stored user whose email matches and whose password compares
      equal gets a session, carrying the token signed for that user and the
      user's role; every other outcome is an error. */
  lemma LoginOutcome(users: map<UserId, User>, bound: nat, email: Option<string>, password: Option<string>,
                     matches: (string, string) -> bool, sign: UserId -> string)
    requires Database.Below(users, bound)
    ensures var r := LoginUser(users, bound, email, password, matches, sign);
      && (!Truthy(email) || !Truthy(password) ==> r == Err(BadRequest))
      && (Truthy(email) && !Database.EmailTaken(users, NormaliseEmail(email.value)) ==> r == Err(BadRequest))
      && (r.Ok? ==>
            && Truthy(email) && Truthy(password)
            && r.value.id in users && users[r.value.id].email == NormaliseEmail(email.value)
            && matches(password.value, users[r.value.id].password)
            && r.value.token == sign(r.value.id) && r.value.role == users[r.value.id].role)
      && (r.Err? ==> r == Err(BadRequest) || r == Err(ServerError))
    ensures var r := LoginUser(users, bound, email, password, matches, sign);
      forall k :: k in users && Truthy(email) && Truthy(password) && Database.UniqueEmails(users)
                  && users[k].email == NormaliseEmail(email.value) ==>
        && (users[k].password != "" && matches(password.value, users[k].password) ==>
              r == Ok(Session(sign(k), k, users[k].firstName, users[k].lastName, users[k].email,
                              users[k].avatarUrl, users[k].role)))
        && (users[k].password == "" ==> r == Err(ServerError))
        && (users[k].password != "" && !matches(password.value, users[k].password) ==> r == Err(BadRequest))
  {
    if Truthy(email) {
      FindByEmailTaken(users, NormaliseEmail(email.value), bound);
    }
    forall k | k in users && Truthy(email) && Truthy(password) && Database.UniqueEmails(users)
               && users[k].email == NormaliseEmail(email.value)
      ensures FindByEmail(users, NormaliseEmail(email.value), bound) == Some(k)
    {
      assert Database.EmailTaken(users, NormaliseEmail(email.value));
    }
  }

  /** Logging in with the credentials just registered succeeds, for the new
      user, provided the comparison accepts a password against its hash. */
  lemma RegisterThenLogin(users: map<UserId, User>, id: UserId, firstName: Option<string>, lastName: Option<string>,
                          email: Option<string>, password: Option<string>, now: Timestamp,
                          hash: string -> string, matches: (string, string) -> bool, sign: UserId -> string)
    requires Database.Below(users, id)
    requires RegisterRefusal(users, firstName, lastName, email, password, now).None?
    requires hash(password.value) != "" && matches(password.value, hash(password.value))
    ensures var after := users[id := Registered(firstName.value, lastName.value, email.value, password.value, now, hash)];
      var r := LoginUser(after, id + 1, email, password, matches, sign);
      r.Ok? && r.value.id == id && r.value.token == sign(id) && r.value.role == RegularUser
  {
    var u := Registered(firstName.value, lastName.value, email.value, password.value, now, hash);
    LoginAfterInsert(users, id, u, email, password, matches, sign);
  }

  /** A user stored under the newest id is found by its email and logs in
      with a password that matches the stored one. */
  lemma LoginAfterInsert(users: map<UserId, User>, id: UserId, u: User, email: Option<string>,
                         password: Option<string>, matches: (string, string) -> bool, sign: UserId -> string)
    requires Database.Below(users, id)
    requires Truthy(email) && Truthy(password) && u.email == NormaliseEmail(email.value)
    requires u.password != "" && matches(password.value, u.password)
    ensures LoginUser(users[id := u], id + 1, email, password, matches, sign)
         == Ok(Session(sign(id), id, u.firstName, u.lastName, u.email, u.avatarUrl, u.role))
  {
    assert FindByEmail(users[id := u], u.email, id + 1) == Some(id);
  }

  // ---------------------------------------------------------------------
  // adminDeleteUser and adminResetPassword

  /** adminDeleteUser: 404 for an unknown id; otherwise that user alone is
      removed (nothing else refers to it is touched). */
  method AdminDeleteUser(db: Database.Store, actor: UserId, id: UserId) returns (r: Result<()>)
    requires db.Valid() && actor in db.users && db.users[actor].role == Admin
    modifies db`users
    ensures db.Valid()
    ensures id !in old(db.users) ==> r == Err(NotFound) && db.users == old(db.users)
    ensures id in old(db.users) ==> r == Ok(()) && db.users == old(db.users) - {id}
  {
    if id !in db.users {
      return Err(NotFound);
    }
    db.RemoveUser(id);
    return Ok(());
  }

  const MinPasswordLength: nat := 6

  /** The minimum counts UTF-16 code units, so three characters outside the
      Basic Multilingual Plane (emoji, say) are long enough. */
  lemma AstralPasswordLength(c: char)
    requires c as int >= 0x1_0000
    ensures Text.Utf16Length([c, c, c]) == MinPasswordLength
  {
    assert [c][1..] == [];
    assert Text.Utf16Length([c]) == 2;
    assert [c, c][1..] == [c];
    assert Text.Utf16Length([c, c]) == 4;
    assert [c, c, c][1..] == [c, c];
  }

  /** adminResetPassword: 400 for a missing or short password, checked
      before the lookup; 404 for an unknown id; otherwise the user's stored
      password becomes the hash of the new one, and nothing else changes. */
  method AdminResetPassword(db: Database.Store, actor: UserId, id: UserId, newPassword: Option<string>,
                            hash: string -> string)
    returns (r: Result<()>)
    requires db.Valid() && actor in db.users && db.users[actor].role == Admin
    modifies db`users
    ensures db.Valid()
    ensures !Truthy(newPassword) || Text.Utf16Length(newPassword.value) < MinPasswordLength ==>
      r == Err(BadRequest) && db.users == old(db.users)
    ensures Truthy(newPassword) && Text.Utf16Length(newPassword.value) >= MinPasswordLength && id !in old(db.users) ==>
      r == Err(NotFound) && db.users == old(db.users)
    ensures Truthy(newPassword) && Text.Utf16Length(newPassword.value) >= MinPasswordLength && id in old(db.users) ==>
      r == Ok(()) && db.users == old(db.users)[id := old(db.users)[id].(password := hash(newPassword.value))]
  {
    if !Truthy(newPassword) || Text.Utf16Length(newPassword.value) < MinPasswordLength {
      return Err(BadRequest);
    }
    if id !in db.users {
      return Err(NotFound);
    }
    var u := db.users[id];
    assert Conforms(db.users[id]);
    u := u.(password := newPassword.value);
    var saved := Save(u, true, hash);
    assert saved == Ok(u.(password := hash(newPassword.value)));
    db.SaveUser(id, saved.value);
    return Ok(());
  }

  // ---------------------------------------------------------------------
  // updateProfile

  /** The profile after the update: each given non-empty field, trimmed. */
  function Profile(u: User, firstName: Option<string>, lastName: Option<string>, avatarUrl: Option<string>): User {
    u.(firstName := if Truthy(firstName) then Text.Trim(firstName.value) else u.firstName,
       lastName := if Truthy(lastName) then Text.Trim(lastName.value) else u.lastName,
       avatarUrl := if Truthy(avatarUrl) then Text.Trim(avatarUrl.value) else u.avatarUrl)
  }

  /** The profile update touches the names and the avatar only; email, role,
      password and creation date stay as they were. */
  lemma ProfileKeeps(u: User, firstName: Option<string>, lastName: Option<string>, avatarUrl: Option<string>)
    ensures var p := Profile(u, firstName, lastName, avatarUrl);
      && p.email == u.email && p.role == u.role && p.password == u.password && p.createdAt == u.createdAt
      && (!Truthy(firstName) ==> p.firstName == u.firstName)
      && (!Truthy(lastName) ==> p.lastName == u.lastName)
      && (!Truthy(avatarUrl) ==> p.avatarUrl == u.avatarUrl)
      && Profile(p, firstName, lastName, avatarUrl) == p
  {
    if Truthy(firstName) {
      Text.TrimIdempotent(firstName.value);
    }
    if Truthy(lastName) {
      Text.TrimIdempotent(lastName.value);
    }
    if Truthy(avatarUrl) {
      Text.TrimIdempotent(avatarUrl.value);
    }
  }

  /** The old-avatar cleanup condition as the handler writes it: a new
      avatar is given, the previous one is set, differs from the value as
      sent (before trimming) and lies under `/uploads/`. */
  predicate RemovesOldAvatarAsWritten(previous: string, avatarUrl: Option<string>) {
    Truthy(avatarUrl) && previous != "" && previous != avatarUrl.value && Text.StartsWith(previous, Files.UploadsUrlPrefix)
  }

  /** As written, re-sending the current avatar with a trailing space keeps
      it as the profile's avatar and still deletes its file. */
  lemma AsWrittenDeletesCurrentAvatar()
    ensures var previous := "/uploads/a.png";
      var sent := Some("/uploads/a.png ");
      && RemovesOldAvatarAsWritten(previous, sent)
      && Text.Trim(sent.value) == previous
      && AfterCleanupAsWritten({"uploads/a.png"}, {}, previous, sent) == {}
      && AfterCleanup({"uploads/a.png"}, {}, previous, sent) == {"uploads/a.png"}
  {
    var previous := "/uploads/a.png";
    assert Text.StartsWith(previous, Files.UploadsUrlPrefix);
    TrimDropsTrailingSpace(previous);
    assert previous + " " == "/uploads/a.png ";
    assert Files.RelativePath(previous) == "uploads/a.png";
  }

  /** A trailing space is all trim takes from a trimmed string. */
  lemma TrimDropsTrailingSpace(s: string)
    requires s != "" && Text.Trimmed(s)
    ensures Text.Trim(s + " ") == s
  {
    var t := s + " ";
    assert t[0] == s[0] && t[|s|] == ' ' && t[|s| - 1] == s[|s| - 1];
    assert Text.SkipSpaces(t, 0) == 0;
    assert Text.SkipSpacesBack(t, 0, |s|) == |s|;
    assert Text.SkipSpacesBack(t, 0, |t|) == |s|;
    assert t[0..|s|] == s;
  }

  /** The cleanup condition compared against the avatar as stored: the old
      file goes only when the profile no longer points to it. */
  predicate RemovesOldAvatar(previous: string, avatarUrl: Option<string>) {
    Truthy(avatarUrl) && previous != "" && previous != Text.Trim(avatarUrl.value)
    && Text.StartsWith(previous, Files.UploadsUrlPrefix)
  }

  /** The trimmed comparison removes the old avatar only when the stored
      avatar URL differs from it, and the path it removes starts with
      `uploads/` as a string (before `path.join` resolves `.` and `..`). */
  lemma RemovesOnlyReplacedAvatar(u: User, firstName: Option<string>, lastName: Option<string>,
                                  avatarUrl: Option<string>)
    ensures RemovesOldAvatar(u.avatarUrl, avatarUrl) ==>
      && Profile(u, firstName, lastName, avatarUrl).avatarUrl != u.avatarUrl
      && Text.StartsWith(Files.RelativePath(u.avatarUrl), "uploads/")
  {
    if RemovesOldAvatar(u.avatarUrl, avatarUrl) {
      assert u.avatarUrl[..|Files.UploadsUrlPrefix|] == Files.UploadsUrlPrefix;
      assert Files.RelativePath(u.avatarUrl)[..8] == u.avatarUrl[1..9];
    }
  }

  /** As written, the `/uploads/` prefix test looks at the URL before
      `path.join` resolves it: a stored avatar `/uploads/../<name>` passes
      it, and the file removed is `<name>` beside the uploads directory. */
  lemma AvatarPathEscapes(name: string)
    requires '/' !in name && name != "" && name != "." && name != ".."
    ensures var previous := "/uploads/../" + name;
      && RemovesOldAvatarAsWritten(previous, Some("/uploads/b.png"))
      && Files.Normalise(Files.RelativePath(previous)) == [name]
      && !Files.InUploads(Files.Normalise(Files.RelativePath(previous)))
      && !RemovesOldAvatarContained(previous, Some("/uploads/b.png"))
  {
    var previous := "/uploads/../" + name;
    assert previous[..|Files.UploadsUrlPrefix|] == Files.UploadsUrlPrefix;
    assert previous[9] == '.' && "/uploads/b.png"[9] == 'b';
    assert Files.RelativePath(previous) == "uploads/../" + name;
    EscapeSegments(name);
    EscapeResolves(name);
  }

  lemma EscapeSegments(name: string)
    requires '/' !in name
    ensures Text.Split("uploads/../" + name, '/') == ["uploads", "..", name]
  {
    assert "uploads/../" + name == "uploads" + ['/'] + ("../" + name);
    Text.SplitAfter("uploads", '/', "../" + name);
    assert "../" + name == ".." + ['/'] + name;
    Text.SplitAfter("..", '/', name);
    Text.IndexOfAbsent(name, '/');
  }

  lemma EscapeResolves(name: string)
    requires name != "" && name != "." && name != ".."
    ensures Files.Resolve([], ["uploads", "..", name]) == [name]
  {
    var segs := ["uploads", "..", name];
    assert segs[1..] == ["..", name] && segs[1..][1..] == [name] && [name][1..] == [];
    assert ([] + ["uploads"])[..0] == [];
    assert Files.Resolve([], [name]) == Files.Resolve([name], []);
  }

  /** The cleanup condition with both comparisons made on the file as
      `path.join` resolves it: the previous avatar's file lies inside the
      uploads directory, and differs from the file of the avatar stored. */
  predicate RemovesOldAvatarContained(previous: string, avatarUrl: Option<string>) {
    && Truthy(avatarUrl) && previous != "" && Text.StartsWith(previous, Files.UploadsUrlPrefix)
    && Files.InUploads(Files.Normalise(Files.RelativePath(previous)))
    && Files.Normalise(Files.RelativePath(previous)) != Files.Normalise(Files.RelativePath(Text.Trim(avatarUrl.value)))
  }

  /** Under the resolved comparison the cleanup removes a file inside the
      uploads directory and never the file the stored avatar names. */
  lemma ContainedCleanup(u: User, firstName: Option<string>, lastName: Option<string>, avatarUrl: Option<string>)
    ensures RemovesOldAvatarContained(u.avatarUrl, avatarUrl) ==>
      var stored := Profile(u, firstName, lastName, avatarUrl).avatarUrl;
      && Files.InUploads(Files.Normalise(Files.RelativePath(u.avatarUrl)))
      && Files.Normalise(Files.RelativePath(u.avatarUrl)) != Files.Normalise(Files.RelativePath(stored))
      && RemovesOldAvatar(u.avatarUrl, avatarUrl)
  {
  }

  /** The uploads directory after the corrected cleanup, with every file
      named by its resolved path: the previous avatar's file goes under the
      resolved condition, unless its removal fails. */
  function AfterCleanupContained(files: set<seq<string>>, locked: set<seq<string>>, previous: string,
                                 avatarUrl: Option<string>): set<seq<string>>
  {
    var target := Files.Normalise(Files.RelativePath(previous));
    if RemovesOldAvatarContained(previous, avatarUrl) then files - ({target} - locked) else files
  }

  /** The corrected cleanup removes at most one file; whatever it removes
      lies inside the uploads directory and is not the file of the avatar
      the profile keeps, so that file and every file outside uploads stay. */
  lemma ContainedCleanupOnDisk(files: set<seq<string>>, locked: set<seq<string>>, u: User,
                               firstName: Option<string>, lastName: Option<string>, avatarUrl: Option<string>)
    ensures var after := AfterCleanupContained(files, locked, u.avatarUrl, avatarUrl);
      var kept := Files.Normalise(Files.RelativePath(Profile(u, firstName, lastName, avatarUrl).avatarUrl));
      && after <= files
      && |files - after| <= 1
      && (forall f :: f in files && f !in after ==> Files.InUploads(f) && f != kept)
      && (kept in files ==> kept in after)
      && (forall f :: f in files && !Files.InUploads(f) ==> f in after)
  {
    var after := AfterCleanupContained(files, locked, u.avatarUrl, avatarUrl);
    var target := Files.Normalise(Files.RelativePath(u.avatarUrl));
    if RemovesOldAvatarContained(u.avatarUrl, avatarUrl) {
      ContainedCleanup(u, firstName, lastName, avatarUrl);
      assert files - after <= {target};
      SubsetSize(files - after, {target});
    }
  }

  /** For avatars the upload handler produces, the resolved condition and
      the trimmed one agree: the correction loses no cleanup of a replaced
      upload. */
  lemma ContainedAgreesOnUploads(a: string, b: string, avatarUrl: Option<string>)
    requires '/' !in a && Files.Plain(a) && '/' !in b && Files.Plain(b)
    requires avatarUrl.Some? && Text.Trim(avatarUrl.value) == Files.UploadUrl(b)
    ensures RemovesOldAvatarContained(Files.UploadUrl(a), avatarUrl) <==> RemovesOldAvatar(Files.UploadUrl(a), avatarUrl)
  {
    Files.UploadUrlResolves(a);
    Files.UploadUrlResolves(b);
    assert Files.UploadUrl(a)[..|Files.UploadsUrlPrefix|] == Files.UploadsUrlPrefix;
    if Files.UploadUrl(a) == Files.UploadUrl(b) {
      assert Files.UploadsUrlPrefix + a == Files.UploadsUrlPrefix + b;
    } else {
      assert a != b;
      assert ["uploads", a][1] != ["uploads", b][1];
    }
  }

  /** The error updateProfile answers, if any: 404 for an unknown user, and
      500 when the save rejects the document (a name that trims to nothing,
      a stored user without a password). */
  function ProfileRefusal(users: map<UserId, User>, actor: UserId, firstName: Option<string>,
                          lastName: Option<string>, avatarUrl: Option<string>): Option<Status>
  {
    if actor !in users then Some(NotFound)
    else if !Conforms(Profile(users[actor], firstName, lastName, avatarUrl)) || users[actor].password == ""
    then Some(ServerError)
    else None
  }

  /** The field assignments of updateProfile, applied to the loaded user. */
  method EditProfile(u0: User, firstName: Option<string>, lastName: Option<string>, avatarUrl: Option<string>)
    returns (u: User)
    ensures u == Profile(u0, firstName, lastName, avatarUrl)
  {
    u := u0;
    if Truthy(firstName) {
      u := u.(firstName := Text.Trim(firstName.value));
    }
    if Truthy(lastName) {
      u := u.(lastName := Text.Trim(lastName.value));
    }
    if Truthy(avatarUrl) {
      u := u.(avatarUrl := Text.Trim(avatarUrl.value));
    }
  }

  /** The uploads directory after updateProfile's best-effort removal of
      the previous avatar, under the condition as the handler writes it. */
  function AfterCleanupAsWritten(files: set<string>, locked: set<string>, previous: string, avatarUrl: Option<string>)
    : set<string>
  {
    if RemovesOldAvatarAsWritten(previous, avatarUrl) then files - ({Files.RelativePath(previous)} - locked) else files
  }

  /** The cleanup as written removes at most one path, the previous
      avatar's, whose string starts with `uploads/`; it agrees with the
      trimmed comparison whenever the avatar is sent already trimmed (or
      not sent). */
  lemma CleanupAsWritten(files: set<string>, locked: set<string>, previous: string, avatarUrl: Option<string>)
    ensures var after := AfterCleanupAsWritten(files, locked, previous, avatarUrl);
      && after <= files
      && |files - after| <= 1
      && (forall f :: f in files - after ==> f == Files.RelativePath(previous) && Text.StartsWith(f, "uploads/"))
      && (avatarUrl.None? || Text.Trim(avatarUrl.value) == avatarUrl.value ==>
            after == AfterCleanup(files, locked, previous, avatarUrl))
  {
    var after := AfterCleanupAsWritten(files, locked, previous, avatarUrl);
    if RemovesOldAvatarAsWritten(previous, avatarUrl) {
      assert previous[..|Files.UploadsUrlPrefix|] == Files.UploadsUrlPrefix;
      assert Files.RelativePath(previous)[..8] == previous[1..9];
      assert files - after <= {Files.RelativePath(previous)};
      SubsetSize(files - after, {Files.RelativePath(previous)});
    }
  }

  /** The uploads directory after the corrected cleanup, which compares the
      previous avatar with the one stored. */
  function AfterCleanup(files: set<string>, locked: set<string>, previous: string, avatarUrl: Option<string>)
    : set<string>
  {
    if RemovesOldAvatar(previous, avatarUrl) then files - ({Files.RelativePath(previous)} - locked) else files
  }

  /** The cleanup under the trimmed comparison takes away at most one path,
      and never the path string of the stored avatar when that avatar is a
      root-relative URL such as the upload handler produces. */
  lemma CleanupKeepsAvatar(files: set<string>, locked: set<string>, u: User, firstName: Option<string>,
                           lastName: Option<string>, avatarUrl: Option<string>)
    ensures var p := Profile(u, firstName, lastName, avatarUrl);
      && AfterCleanup(files, locked, u.avatarUrl, avatarUrl) <= files
      && |files - AfterCleanup(files, locked, u.avatarUrl, avatarUrl)| <= 1
      && (Files.RelativePath(p.avatarUrl) in files && |p.avatarUrl| > 0 && p.avatarUrl[0] == '/' ==>
            Files.RelativePath(p.avatarUrl) in AfterCleanup(files, locked, u.avatarUrl, avatarUrl))
  {
    var after := AfterCleanup(files, locked, u.avatarUrl, avatarUrl);
    if RemovesOldAvatar(u.avatarUrl, avatarUrl) {
      var p := Profile(u, firstName, lastName, avatarUrl);
      RemovesOnlyReplacedAvatar(u, firstName, lastName, avatarUrl);
      if |p.avatarUrl| > 0 && p.avatarUrl[0] == '/' {
        assert u.avatarUrl[..|Files.UploadsUrlPrefix|] == Files.UploadsUrlPrefix;
        RelativePathInjective(p.avatarUrl, u.avatarUrl);
      }
      var gone := {Files.RelativePath(u.avatarUrl)} - locked;
      assert files - after <= {Files.RelativePath(u.avatarUrl)};
      assert |{Files.RelativePath(u.avatarUrl)}| == 1;
      SubsetSize(files - after, {Files.RelativePath(u.avatarUrl)});
    }
  }

  lemma SubsetSize<T>(a: set<T>, b: set<T>)
    requires a <= b
    ensures |a| <= |b|
  {
    assert b == a + (b - a);
  }

  /** Two different root-relative URLs name different files. */
  lemma RelativePathInjective(a: string, b: string)
    requires |a| > 0 && a[0] == '/' && |b| > 0 && b[0] == '/' && a != b
    ensures Files.RelativePath(a) != Files.RelativePath(b)
  {
    assert a == "/" + Files.RelativePath(a) && b == "/" + Files.RelativePath(b);
  }

  /** Removes the previous avatar's file when the cleanup condition, as the
      handler writes it, holds. */
  method CleanUpAvatar(disk: Files.Disk, previous: string, avatarUrl: Option<string>)
    modifies disk`files
    ensures disk.files == AfterCleanupAsWritten(old(disk.files), disk.locked, previous, avatarUrl)
  {
    if RemovesOldAvatarAsWritten(previous, avatarUrl) {
      disk.Unlink(Files.RelativePath(previous));
    }
  }

  /** The load, assignments and save of updateProfile. */
  method SaveProfile(db: Database.Store, actor: UserId, firstName: Option<string>, lastName: Option<string>,
                     avatarUrl: Option<string>, hash: string -> string)
    returns (r: Result<User>)
    requires db.Valid()
    modifies db`users
    ensures db.Valid()
    ensures ProfileRefusal(old(db.users), actor, firstName, lastName, avatarUrl).Some? ==>
      && r == Err(ProfileRefusal(old(db.users), actor, firstName, lastName, avatarUrl).value)
      && db.users == old(db.users)
    ensures ProfileRefusal(old(db.users), actor, firstName, lastName, avatarUrl).None? ==>
      && r == Ok(Profile(old(db.users)[actor], firstName, lastName, avatarUrl))
      && db.users == old(db.users)[actor := Profile(old(db.users)[actor], firstName, lastName, avatarUrl)]
  {
    if actor !in db.users {
      return Err(NotFound);
    }
    ghost var before := db.users;
    var u := EditProfile(db.users[actor], firstName, lastName, avatarUrl);
    var saved := Save(u, false, hash);
    if saved.Err? {
      return Err(ServerError);
    }
    assert saved.value == u && u.email == before[actor].email;
    db.SaveUser(actor, u);
    return Ok(u);
  }

  /** updateProfile. After the save, the previous avatar's file is removed,
      best effort, when an avatar URL was sent that differs from the old
      one as sent (before trimming) and the old one is a local upload. */
  method UpdateProfile(db: Database.Store, disk: Files.Disk, actor: UserId, firstName: Option<string>,
                       lastName: Option<string>, avatarUrl: Option<string>, hash: string -> string)
    returns (r: Result<User>)
    requires db.Valid()
    modifies db`users, disk`files
    ensures db.Valid()
    ensures ProfileRefusal(old(db.users), actor, firstName, lastName, avatarUrl).Some? ==>
      && r == Err(ProfileRefusal(old(db.users), actor, firstName, lastName, avatarUrl).value)
      && db.users == old(db.users) && disk.files == old(disk.files)
    ensures ProfileRefusal(old(db.users), actor, firstName, lastName, avatarUrl).None? ==>
      && r == Ok(Profile(old(db.users)[actor], firstName, lastName, avatarUrl))
      && db.users == old(db.users)[actor := Profile(old(db.users)[actor], firstName, lastName, avatarUrl)]
      && disk.files == AfterCleanupAsWritten(old(disk.files), disk.locked, old(db.users)[actor].avatarUrl, avatarUrl)
  {
    var previous := if actor in db.users then db.users[actor].avatarUrl else "";
    r := SaveProfile(db, actor, firstName, lastName, avatarUrl, hash);
    if r.Ok? {
      CleanUpAvatar(disk, previous, avatarUrl);
    }
  }
}

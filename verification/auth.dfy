/** The client's user registry and session (`client/src/lib/auth.tsx`):
    login, registration and update of users with their error codes, the
    e-mail pattern, the stored-list loaders and the rule that ends a session
    whose user no longer exists. Local storage is a parameter; fresh ids are
    supplied by the caller. */
module Auth {
  import opened Wrappers
  import Json
  import Seqs
  import Text

  /** A registered user. `role` is `"general"` or `"admin"` in the UI; values
      read back from storage are kept as they are. */
  datatype User = User(id: string, name: string, password: string, role: string, email: string)

  /** The signed-in user kept in the session. */
  datatype Session = Session(name: string, role: string, email: string)

  datatype AuthError =
    | NameRequired | EmailRequired | InvalidEmail | PasswordRequired | PasswordTooShort
    | DuplicateUser | DuplicateEmail | UserNotFound | InvalidCredentials | UnknownError

  /** The minimum password length. */
  const MinPassword: nat := 6

  const DefaultAdmin := User("default-admin", "admin", "admin123", "admin", "admin@example.com")

  /** Names are unique, and e-mails are unique ignoring case. */
  predicate Unique(users: seq<User>)
  {
    forall i, j :: 0 <= i < j < |users| ==>
      users[i].name != users[j].name && Text.ToLower(users[i].email) != Text.ToLower(users[j].email)
  }

  // ---------------------------------------------------------------- e-mail

  /** A run of the character class `[^\s@]+`. */
  predicate Plain(t: string)
  {
    |t| > 0 && forall k :: 0 <= k < |t| ==> t[k] != '@' && !Text.IsWhitespace(t[k])
  }

  /** `/^[^\s@]+@[^\s@]+\.[^\s@]+$/`: the string splits at an `@` and a later
      `.` into three plain runs. */
  predicate EmailRegex(s: string)
  {
    exists i, j :: 0 < i && i + 1 < j < |s| - 1 && s[i] == '@' && s[j] == '.'
                   && Plain(s[..i]) && Plain(s[i + 1..j]) && Plain(s[j + 1..])
  }

  /** The same pattern checked character by character: no whitespace, exactly
      one `@` which is not first, and a `.` at least two places after it that
      is not last. */
  predicate EmailCheck(s: string)
  {
    && (forall k :: 0 <= k < |s| ==> !Text.IsWhitespace(s[k]))
    && exists i :: 0 < i < |s| && s[i] == '@' && OnlyAt(s, i)
                   && exists j :: i + 1 < j < |s| - 1 && s[j] == '.'
  }

  predicate OnlyAt(s: string, i: int)
  {
    forall k :: 0 <= k < |s| && k != i ==> s[k] != '@'
  }

  /** The character-wise check accepts exactly the strings the regular
      expression matches. */
  lemma EmailCheckIsRegex(s: string)
    ensures EmailCheck(s) <==> EmailRegex(s)
  {
    if EmailCheck(s) {
      CheckedIsRegex(s);
    }
    if EmailRegex(s) {
      RegexIsChecked(s);
    }
  }

  lemma CheckedIsRegex(s: string)
    requires EmailCheck(s)
    ensures EmailRegex(s)
  {
    var i :| 0 < i < |s| && s[i] == '@' && OnlyAt(s, i) && exists j :: i + 1 < j < |s| - 1 && s[j] == '.';
    var j :| i + 1 < j < |s| - 1 && s[j] == '.';
    PlainSlice(s, 0, i, i);
    PlainSlice(s, i + 1, j, i);
    PlainSlice(s, j + 1, |s|, i);
    assert s[..i] == s[0..i];
    assert s[j + 1..] == s[j + 1..|s|];
  }

  lemma RegexIsChecked(s: string)
    requires EmailRegex(s)
    ensures EmailCheck(s)
  {
    var i, j :| 0 < i && i + 1 < j < |s| - 1 && s[i] == '@' && s[j] == '.'
                && Plain(s[..i]) && Plain(s[i + 1..j]) && Plain(s[j + 1..]);
    forall k | 0 <= k < |s| ensures !Text.IsWhitespace(s[k]) && (k != i ==> s[k] != '@') {
      if k < i {
        assert s[..i][k] == s[k];
      } else if i < k < j {
        assert s[i + 1..j][k - i - 1] == s[k];
      } else if j < k {
        assert s[j + 1..][k - j - 1] == s[k];
      }
    }
    assert OnlyAt(s, i);
  }

  lemma PlainSlice(s: string, lo: int, hi: int, at: int)
    requires 0 <= lo < hi <= |s|
    requires forall k :: 0 <= k < |s| ==> !Text.IsWhitespace(s[k])
    requires OnlyAt(s, at) && !(lo <= at < hi)
    ensures Plain(s[lo..hi])
  {
    forall k | 0 <= k < hi - lo ensures s[lo..hi][k] != '@' && !Text.IsWhitespace(s[lo..hi][k]) {
      assert s[lo..hi][k] == s[lo + k];
    }
  }

  // ---------------------------------------------------------------- login

  predicate Matches(u: User, name: string, password: string, role: string)
  {
    u.name == Text.Trim(name) && u.password == Text.Trim(password) && u.role == role
  }

  /** `users.find(…)`: the first user with the trimmed name, trimmed password
      and the role. */
  function FindLogin(users: seq<User>, name: string, password: string, role: string): (r: Option<nat>)
    ensures r.None? <==> forall i :: 0 <= i < |users| ==> !Matches(users[i], name, password, role)
    ensures r.Some? ==> r.value < |users| && Matches(users[r.value], name, password, role)
    ensures r.Some? ==> forall i :: 0 <= i < r.value ==> !Matches(users[i], name, password, role)
  {
    if |users| == 0 then None
    else if Matches(users[0], name, password, role) then Some(0)
    else
      var rest := FindLogin(users[1..], name, password, role);
      if rest.None? then None else Some(rest.value + 1)
  }

  /** `login(input)`. */
  function Login(users: seq<User>, name: string, password: string, role: string): (r: Result<Session, AuthError>)
    ensures r.Ok? <==> exists i :: 0 <= i < |users| && Matches(users[i], name, password, role)
    ensures r.Err? ==> r.error == InvalidCredentials
    ensures r.Ok? ==> exists i :: 0 <= i < |users| && Matches(users[i], name, password, role)
                       && r.value == Session(users[i].name, users[i].role, users[i].email)
  {
    var found := FindLogin(users, name, password, role);
    if found.None? then Err(InvalidCredentials)
    else
      var u := users[found.value];
      Ok(Session(u.name, u.role, u.email))
  }

  // ---------------------------------------------------------------- register

  /** The checks `registerUser` makes on its input before it reads the list, in order. */
  function ValidateRegister(name: string, email: string, password: string): (r: Option<AuthError>)
    ensures r == Some(NameRequired) <==> Text.Trim(name) == ""
    ensures r == Some(EmailRequired) <==> Text.Trim(name) != "" && Text.Trim(email) == ""
    ensures r == Some(InvalidEmail) <==>
              Text.Trim(name) != "" && Text.Trim(email) != "" && !EmailCheck(Text.ToLower(Text.Trim(email)))
    ensures r == Some(PasswordRequired) <==>
              Text.Trim(name) != "" && Text.Trim(email) != "" && EmailCheck(Text.ToLower(Text.Trim(email)))
              && Text.Trim(password) == ""
    ensures r == Some(PasswordTooShort) <==>
              Text.Trim(name) != "" && Text.Trim(email) != "" && EmailCheck(Text.ToLower(Text.Trim(email)))
              && Text.Trim(password) != "" && |Text.Trim(password)| < MinPassword
    ensures r.None? <==>
              Text.Trim(name) != "" && EmailCheck(Text.ToLower(Text.Trim(email))) && |Text.Trim(password)| >= MinPassword
  {
    if Text.Trim(name) == "" then Some(NameRequired)
    else if Text.Trim(email) == "" then Some(EmailRequired)
    else if !EmailCheck(Text.ToLower(Text.Trim(email))) then Some(InvalidEmail)
    else if Text.Trim(password) == "" then Some(PasswordRequired)
    else if |Text.Trim(password)| < MinPassword then Some(PasswordTooShort)
    else None
  }

  /** Some user other than the one at `skip` has the name. */
  predicate NameTaken(users: seq<User>, name: string, skip: int)
  {
    exists i :: 0 <= i < |users| && i != skip && users[i].name == name
  }

  /** Some user other than the one at `skip` has the e-mail, ignoring case. */
  predicate EmailTaken(users: seq<User>, email: string, skip: int)
  {
    exists i :: 0 <= i < |users| && i != skip && Text.ToLower(users[i].email) == email
  }

  /** `registerUser(input)`: the new list and the created user. */
  function Register(users: seq<User>, name: string, email: string, password: string, role: string, id: string)
    : (r: Result<(seq<User>, User), AuthError>)
    ensures ValidateRegister(name, email, password).Some? ==> r == Err(ValidateRegister(name, email, password).value)
    ensures ValidateRegister(name, email, password).None? ==>
              (r == Err(DuplicateUser) <==> NameTaken(users, Text.Trim(name), -1))
    ensures ValidateRegister(name, email, password).None? ==>
              (r == Err(DuplicateEmail) <==>
                 !NameTaken(users, Text.Trim(name), -1) && EmailTaken(users, Text.ToLower(Text.Trim(email)), -1))
    ensures r.Ok? <==>
              && ValidateRegister(name, email, password).None?
              && !NameTaken(users, Text.Trim(name), -1)
              && !EmailTaken(users, Text.ToLower(Text.Trim(email)), -1)
    ensures r.Ok? ==> r.value.1 == User(id, Text.Trim(name), Text.Trim(password), role, Text.ToLower(Text.Trim(email)))
    ensures r.Ok? ==> r.value.0 == users + [r.value.1]
  {
    match ValidateRegister(name, email, password)
    case Some(e) => Err(e)
    case None =>
      var trimmedName := Text.Trim(name);
      var normalizedEmail := Text.ToLower(Text.Trim(email));
      if NameTaken(users, trimmedName, -1) then Err(DuplicateUser)
      else if EmailTaken(users, normalizedEmail, -1) then Err(DuplicateEmail)
      else
        var u := User(id, trimmedName, Text.Trim(password), role, normalizedEmail);
        Ok((users + [u], u))
  }

  /** Registration keeps names and case-folded e-mails unique. */
  lemma RegisterKeepsUnique(users: seq<User>, name: string, email: string, password: string, role: string, id: string)
    requires Unique(users)
    ensures var r := Register(users, name, email, password, role, id);
            r.Ok? ==> Unique(r.value.0)
  {
    var r := Register(users, name, email, password, role, id);
    if r.Ok? {
      var u := r.value.1;
      var next := r.value.0;
      Text.ToLowerIdempotent(Text.Trim(email));
      forall i, j | 0 <= i < j < |next|
        ensures next[i].name != next[j].name && Text.ToLower(next[i].email) != Text.ToLower(next[j].email)
      {
        if j == |users| {
          assert next[j] == u;
          assert next[i] == users[i];
        }
      }
    }
  }

  // ---------------------------------------------------------------- update

  /** The input checks of `updateUser`, in order. `password` is `None` when
      the field is omitted. */
  function ValidateUpdate(name: string, email: string, password: Option<string>): (r: Option<AuthError>)
    ensures r == Some(NameRequired) <==> Text.Trim(name) == ""
    ensures r == Some(EmailRequired) <==> Text.Trim(name) != "" && Text.Trim(email) == ""
    ensures r == Some(InvalidEmail) <==>
              Text.Trim(name) != "" && Text.Trim(email) != "" && !EmailCheck(Text.ToLower(Text.Trim(email)))
    ensures r == Some(PasswordTooShort) <==>
              Text.Trim(name) != "" && Text.Trim(email) != "" && EmailCheck(Text.ToLower(Text.Trim(email)))
              && password.Some? && Text.Trim(password.value) != "" && |Text.Trim(password.value)| < MinPassword
    ensures r == Some(PasswordRequired) <==>
              Text.Trim(name) != "" && Text.Trim(email) != "" && EmailCheck(Text.ToLower(Text.Trim(email)))
              && password.Some? && Text.Trim(password.value) == ""
    ensures r.None? <==>
              Text.Trim(name) != "" && EmailCheck(Text.ToLower(Text.Trim(email)))
              && (password.None? || |Text.Trim(password.value)| >= MinPassword)
  {
    var trimmedPassword := if password.Some? then Text.Trim(password.value) else "";
    if Text.Trim(name) == "" then Some(NameRequired)
    else if Text.Trim(email) == "" then Some(EmailRequired)
    else if !EmailCheck(Text.ToLower(Text.Trim(email))) then Some(InvalidEmail)
    else if password.Some? && trimmedPassword == "" then Some(PasswordRequired)
    else if trimmedPassword != "" && |trimmedPassword| < MinPassword then Some(PasswordTooShort)
    else None
  }

  /** `prev.findIndex(item => item.id === id)`. */
  function FindIndex(users: seq<User>, id: string): (r: int)
    ensures -1 <= r < |users|
    ensures r == -1 <==> forall i :: 0 <= i < |users| ==> users[i].id != id
    ensures r >= 0 ==> users[r].id == id && forall i :: 0 <= i < r ==> users[i].id != id
  {
    if |users| == 0 then -1
    else if users[0].id == id then 0
    else
      var rest := FindIndex(users[1..], id);
      if rest == -1 then -1 else rest + 1
  }

  /** The outcome of `updateUser`: the new list, the previous and the updated user. */
  datatype Updated = Updated(users: seq<User>, previous: User, user: User)

  /** `updateUser(input)`. */
  function UpdateUser(users: seq<User>, id: string, name: string, email: string, password: Option<string>, role: string)
    : (r: Result<Updated, AuthError>)
    ensures ValidateUpdate(name, email, password).Some? ==> r == Err(ValidateUpdate(name, email, password).value)
    ensures ValidateUpdate(name, email, password).None? ==>
              (r == Err(UserNotFound) <==> forall i :: 0 <= i < |users| ==> users[i].id != id)
    ensures ValidateUpdate(name, email, password).None? && FindIndex(users, id) >= 0 ==>
              (r == Err(DuplicateUser) <==> NameTaken(users, Text.Trim(name), FindIndex(users, id)))
    ensures ValidateUpdate(name, email, password).None? && FindIndex(users, id) >= 0 ==>
              (r == Err(DuplicateEmail) <==>
                 !NameTaken(users, Text.Trim(name), FindIndex(users, id))
                 && EmailTaken(users, Text.ToLower(Text.Trim(email)), FindIndex(users, id)))
    ensures r.Ok? <==>
              && ValidateUpdate(name, email, password).None?
              && FindIndex(users, id) >= 0
              && !NameTaken(users, Text.Trim(name), FindIndex(users, id))
              && !EmailTaken(users, Text.ToLower(Text.Trim(email)), FindIndex(users, id))
    ensures r.Ok? ==> var k := FindIndex(users, id);
                      && 0 <= k < |users|
                      && r.value.users == users[k := r.value.user]
                      && r.value.previous == users[k]
                      && r.value.user.id == users[k].id
                      && r.value.user.name == Text.Trim(name)
                      && r.value.user.email == Text.ToLower(Text.Trim(email))
                      && r.value.user.role == role
    ensures r.Ok? ==> (password.None? ==> r.value.user.password == r.value.previous.password)
    ensures r.Ok? ==> (password.Some? ==> r.value.user.password == Text.Trim(password.value))
  {
    match ValidateUpdate(name, email, password)
    case Some(e) => Err(e)
    case None =>
      var index := FindIndex(users, id);
      var trimmedName := Text.Trim(name);
      var normalizedEmail := Text.ToLower(Text.Trim(email));
      var trimmedPassword := if password.Some? then Text.Trim(password.value) else "";
      if index == -1 then Err(UserNotFound)
      else if NameTaken(users, trimmedName, index) then Err(DuplicateUser)
      else if EmailTaken(users, normalizedEmail, index) then Err(DuplicateEmail)
      else
        var current := users[index];
        var updated := current.(name := trimmedName, role := role,
                                password := if trimmedPassword != "" then trimmedPassword else current.password,
                                email := normalizedEmail);
        Ok(Updated(users[index := updated], current, updated))
  }

  /** Updating keeps names and case-folded e-mails unique. */
  lemma UpdateKeepsUnique(users: seq<User>, id: string, name: string, email: string, password: Option<string>, role: string)
    requires Unique(users)
    ensures var r := UpdateUser(users, id, name, email, password, role);
            r.Ok? ==> Unique(r.value.users)
  {
    var r := UpdateUser(users, id, name, email, password, role);
    if r.Ok? {
      var k := FindIndex(users, id);
      var next := r.value.users;
      var u := r.value.user;
      Text.ToLowerIdempotent(Text.Trim(email));
      assert !NameTaken(users, Text.Trim(name), k);
      assert !EmailTaken(users, Text.ToLower(Text.Trim(email)), k);
      forall i, j | 0 <= i < j < |next|
        ensures next[i].name != next[j].name && Text.ToLower(next[i].email) != Text.ToLower(next[j].email)
      {
        if i == k {
          assert next[i] == u && next[j] == users[j];
        } else if j == k {
          assert next[j] == u && next[i] == users[i];
        }
      }
    }
  }

  /** `setUser` after an update: a session of the previous (name, role)
      follows the updated user; any other session is kept. */
  function SessionAfterUpdate(session: Option<Session>, u: Updated): (r: Option<Session>)
    ensures (session.Some? && session.value.name == u.previous.name && session.value.role == u.previous.role)
            ==> r == Some(Session(u.user.name, u.user.role, u.user.email))
    ensures !(session.Some? && session.value.name == u.previous.name && session.value.role == u.previous.role)
            ==> r == session
  {
    if session.Some? && session.value.name == u.previous.name && session.value.role == u.previous.role
    then Some(Session(u.user.name, u.user.role, u.user.email))
    else session
  }

  // ------------------------------------------------- errors thrown in setUsers

  /* `registerUser` and `updateUser` make their duplicate and not-found checks
     inside the `setUsers(prev => ...)` updater. React runs that updater
     eagerly when nothing else is queued and swallows what it throws, replaying
     it at the next render; the local `createdUser` / `updatedUser` then stays
     null, so the caller receives UNKNOWN_ERROR instead of the specific code.
     `Register` and `UpdateUser` above are the intended behaviour; the two
     functions below are what the caller receives as written. */

  /** `registerUser` as its caller observes it. */
  function RegisterAsWritten(users: seq<User>, name: string, email: string, password: string, role: string, id: string)
    : (r: Result<(seq<User>, User), AuthError>)
    ensures Register(users, name, email, password, role, id).Ok? ==> r == Register(users, name, email, password, role, id)
    ensures Register(users, name, email, password, role, id).Err? ==>
              var e := Register(users, name, email, password, role, id).error;
              r == Err(if e.DuplicateUser? || e.DuplicateEmail? then UnknownError else e)
  {
    match ValidateRegister(name, email, password)
    case Some(e) => Err(e)
    case None =>
      if NameTaken(users, Text.Trim(name), -1) || EmailTaken(users, Text.ToLower(Text.Trim(email)), -1) then
        Err(UnknownError)
      else Register(users, name, email, password, role, id)
  }

  /** A taken name or e-mail, which `Register` reports as DUPLICATE_USER or
      DUPLICATE_EMAIL, reaches the caller as UNKNOWN_ERROR. */
  lemma RegisterDuplicateHidden(users: seq<User>, name: string, email: string, password: string, role: string, id: string)
    requires ValidateRegister(name, email, password).None?
    requires NameTaken(users, Text.Trim(name), -1) || EmailTaken(users, Text.ToLower(Text.Trim(email)), -1)
    ensures Register(users, name, email, password, role, id).Err?
    ensures Register(users, name, email, password, role, id).error in {DuplicateUser, DuplicateEmail}
    ensures RegisterAsWritten(users, name, email, password, role, id) == Err(UnknownError)
  {
  }

  /** The witness: registering a second "alice" is reported to the caller as
      UNKNOWN_ERROR, where DUPLICATE_USER was meant. */
  lemma RegisterTakenNameExample()
    ensures var users := [User("1", "alice", "secret1", "general", "a@b.co")];
            && Register(users, "alice", "c@d.ee", "secret2", "general", "2") == Err(DuplicateUser)
            && RegisterAsWritten(users, "alice", "c@d.ee", "secret2", "general", "2") == Err(UnknownError)
  {
    var users := [User("1", "alice", "secret1", "general", "a@b.co")];
    ExampleInputValid();
    assert NameTaken(users, Text.Trim("alice"), -1) by {
      assert users[0].name == "alice";
    }
    RegisterDuplicateHidden(users, "alice", "c@d.ee", "secret2", "general", "2");
  }

  /** The witness input passes every check made before the updater. */
  lemma ExampleInputValid()
    ensures Text.Trim("alice") == "alice"
    ensures ValidateRegister("alice", "c@d.ee", "secret2").None?
  {
    var n, e, p := "alice", "c@d.ee", "secret2";
    assert Text.Trim(n) == n by { TrimmedWord(n); }
    assert Text.Trim(e) == e by { TrimmedWord(e); }
    assert Text.Trim(p) == p by { TrimmedWord(p); }
    ExampleEmailValid();
  }

  /** A word that starts with a letter and ends with a letter or digit is its own trim. */
  lemma TrimmedWord(s: string)
    requires |s| > 0 && 'a' <= s[0] <= 'z' && ('a' <= s[|s| - 1] <= 'z' || '0' <= s[|s| - 1] <= '9')
    ensures Text.Trim(s) == s
  {
    Text.TrimProperties(s);
  }

  /** The witness e-mail passes the e-mail check. */
  lemma ExampleEmailValid()
    ensures EmailCheck(Text.ToLower("c@d.ee"))
  {
    var e := "c@d.ee";
    PlainAddress(e);
    assert e[1] == '@' && OnlyAt(e, 1) && e[3] == '.';
  }

  /** An address of lower-case letters, '@' and '.' has no blank and no
      upper-case letter. */
  lemma PlainAddress(e: string)
    requires forall k :: 0 <= k < |e| ==> 'a' <= e[k] <= 'z' || e[k] == '@' || e[k] == '.'
    ensures forall k :: 0 <= k < |e| ==> !Text.IsWhitespace(e[k])
    ensures Text.ToLower(e) == e
  {
  }

  /** `updateUser` as its caller observes it. */
  function UpdateUserAsWritten(users: seq<User>, id: string, name: string, email: string, password: Option<string>, role: string)
    : (r: Result<Updated, AuthError>)
    ensures UpdateUser(users, id, name, email, password, role).Ok? ==> r == UpdateUser(users, id, name, email, password, role)
    ensures UpdateUser(users, id, name, email, password, role).Err? ==>
              var e := UpdateUser(users, id, name, email, password, role).error;
              r == Err(if e.UserNotFound? || e.DuplicateUser? || e.DuplicateEmail? then UnknownError else e)
  {
    match ValidateUpdate(name, email, password)
    case Some(e) => Err(e)
    case None =>
      var index := FindIndex(users, id);
      if index == -1 || NameTaken(users, Text.Trim(name), index) || EmailTaken(users, Text.ToLower(Text.Trim(email)), index) then
        Err(UnknownError)
      else UpdateUser(users, id, name, email, password, role)
  }

  /** An unknown id or a taken name or e-mail, which `UpdateUser` reports as
      USER_NOT_FOUND, DUPLICATE_USER or DUPLICATE_EMAIL, reaches the caller as
      UNKNOWN_ERROR. */
  lemma UpdateFailureHidden(users: seq<User>, id: string, name: string, email: string, password: Option<string>, role: string)
    requires ValidateUpdate(name, email, password).None?
    requires || FindIndex(users, id) == -1
             || NameTaken(users, Text.Trim(name), FindIndex(users, id))
             || EmailTaken(users, Text.ToLower(Text.Trim(email)), FindIndex(users, id))
    ensures UpdateUser(users, id, name, email, password, role).Err?
    ensures UpdateUser(users, id, name, email, password, role).error in {UserNotFound, DuplicateUser, DuplicateEmail}
    ensures UpdateUserAsWritten(users, id, name, email, password, role) == Err(UnknownError)
  {
  }

  // ---------------------------------------------------------------- session

  /** Some registered user has the session's name and role. */
  predicate StillExists(users: seq<User>, s: Session)
  {
    exists i :: 0 <= i < |users| && users[i].name == s.name && users[i].role == s.role
  }

  /** The effect that logs out a session whose user is gone. */
  function CheckSession(session: Option<Session>, users: seq<User>): (r: Option<Session>)
    ensures r.Some? ==> r == session && StillExists(users, r.value)
    ensures session.Some? && StillExists(users, session.value) ==> r == session
  {
    if session.Some? && !StillExists(users, session.value) then None else session
  }

  /** A user who just logged in keeps the session under the same list. */
  lemma LoginSessionSurvives(users: seq<User>, name: string, password: string, role: string)
    requires Login(users, name, password, role).Ok?
    ensures CheckSession(Some(Login(users, name, password, role).value), users).Some?
  {
  }

  /** After an update the session, carried over by `SessionAfterUpdate`,
      survives the check exactly when it was the updated user's or some other
      user still has its name and role. */
  lemma UpdatedSessionSurvives(session: Session, u: Updated)
    requires session.name == u.previous.name && session.role == u.previous.role
    requires u.user in u.users
    ensures CheckSession(SessionAfterUpdate(Some(session), u), u.users).Some?
  {
    var i :| 0 <= i < |u.users| && u.users[i] == u.user;
  }

  // ---------------------------------------------------------------- storage

  /** `getInitialUsers()`. `stored` is the parsed list, `None` when nothing is
      stored or it does not parse; `newId(i)` is the id generated for entry `i`. */
  function InitialUsers(stored: Option<Json.Json>, newId: nat -> string): (r: seq<User>)
    ensures stored.None? ==> r == [DefaultAdmin]
    ensures stored.Some? && (!stored.value.JArr? || |stored.value.items| == 0) ==> r == [DefaultAdmin]
    ensures stored.Some? && stored.value.JArr? && |stored.value.items| > 0 ==>
              var entries := TruthyEntries(stored.value.items);
              && |r| == |entries|
              && forall i :: 0 <= i < |r| ==> UserFrom(r[i], entries[i], newId(i))
  {
    if stored.None? || !stored.value.JArr? || |stored.value.items| == 0 then [DefaultAdmin]
    else
      var entries := TruthyEntries(stored.value.items);
      seq(|entries|, i requires 0 <= i < |entries| => UserOf(entries[i], newId(i)))
  }

  /** `parsed.filter(Boolean)`. */
  function TruthyEntries(items: seq<Json.Json>): (r: seq<Json.Json>)
    ensures r == Seqs.Filter(items, Json.Truthy)
    ensures Seqs.IsSubsequence(r, items)
    ensures forall i :: 0 <= i < |r| ==> Json.Truthy(r[i])
    ensures forall i :: 0 <= i < |items| && Json.Truthy(items[i]) ==> items[i] in r
  {
    Seqs.FilterIsSubsequence(items, Json.Truthy);
    Seqs.Filter(items, Json.Truthy)
  }

  /** A user field read from a stored value with `v ?? fallback`: the fallback
      when the value is missing or `null`, the stored text when it is a string. */
  predicate FieldFrom(field: string, v: Option<Json.Json>, fallback: string)
  {
    && (Json.IsNullish(v) ==> field == fallback)
    && (v.Some? && v.value.JStr? ==> field == v.value.s)
  }

  /** A user built from one stored entry, field by field. */
  predicate UserFrom(u: User, entry: Json.Json, freshId: string)
  {
    && FieldFrom(u.id, Json.Get(entry, "id"), freshId)
    && FieldFrom(u.name, Json.Get(entry, "name"), "")
    && FieldFrom(u.password, Json.Get(entry, "password"), "")
    && FieldFrom(u.role, Json.Get(entry, "role"), "general")
    && FieldFrom(u.email, Json.Get(entry, "email"), "")
  }

  /** `String(v.key ?? fallback)` in the model's terms: a stored field, or the
      fallback when it is missing or `null`. */
  function FieldOr(v: Json.Json, key: string, fallback: string): (r: string)
    ensures Json.IsNullish(Json.Get(v, key)) ==> r == fallback
    ensures Json.Get(v, key).Some? && Json.Get(v, key).value.JStr? ==> r == Json.Get(v, key).value.s
  {
    if Json.IsNullish(Json.Get(v, key)) then fallback else Json.ToJsString(Json.Get(v, key).value)
  }

  /** One stored entry: missing fields default (`??`). */
  function UserOf(entry: Json.Json, freshId: string): User
  {
    User(FieldOr(entry, "id", freshId), FieldOr(entry, "name", ""), FieldOr(entry, "password", ""),
         FieldOr(entry, "role", "general"), FieldOr(entry, "email", ""))
  }

  /** A stored list whose entries are all falsy yields no users at all: the
      default administrator is restored only for an empty or unreadable list. */
  lemma AllFalsyListHasNoUsers(newId: nat -> string)
    ensures InitialUsers(Some(Json.JArr([Json.JNull])), newId) == []
  {
    assert TruthyEntries([Json.JNull]) == [];
  }

  /** `getInitialUser()`: the stored session, with missing fields defaulted. */
  function InitialSession(stored: Option<Json.Json>): (r: Option<Session>)
    ensures stored.None? || !Json.Truthy(stored.value) ==> r.None?
    ensures stored.Some? && Json.Truthy(stored.value) ==> r.Some?
    ensures r.Some? ==> && FieldFrom(r.value.name, Json.Get(stored.value, "name"), "")
                        && FieldFrom(r.value.role, Json.Get(stored.value, "role"), "general")
                        && FieldFrom(r.value.email, Json.Get(stored.value, "email"), "")
  {
    if stored.None? || !Json.Truthy(stored.value) then None
    else
      var v := stored.value;
      Some(Session(FieldOr(v, "name", ""), FieldOr(v, "role", "general"), FieldOr(v, "email", "")))
  }
}

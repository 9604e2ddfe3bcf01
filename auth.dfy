/**
 * Registration, login and the session predicates of js/auth.js, over the record store of module
 * Storage and the password hashing of module Crypto. The hash primitive, the random salt and
 * the clock are inputs.
 */
module Auth {
  import opened Wrappers
  import opened Text
  import opened Records
  import opened Storage
  import opened Crypto

  // ----- validateEmail -----

  /** A run the class `[^\s@]` accepts: no whitespace and no '@'. */
  predicate NoSpaceOrAt(s: string) {
    forall k :: 0 <= k < |s| ==> !IsSpace(s[k]) && s[k] != '@'
  }

  /**
   * `validateEmail`: the whole string matches `^[^\s@]+@[^\s@]+\.[^\s@]+$`, i.e. splits into
   * three non-empty runs without whitespace or '@', the first two separated by '@' and the last
   * two by a literal '.'.
   */
  predicate ValidateEmail(e: string) {
    exists at, dot :: 0 < at && at + 1 < dot && dot + 1 < |e| && e[at] == '@' && e[dot] == '.'
      && NoSpaceOrAt(e[..at]) && NoSpaceOrAt(e[at + 1..dot]) && NoSpaceOrAt(e[dot + 1..])
  }

  /** The index of the first '@', or -1 when there is none. */
  function FirstAt(e: string): (i: int)
    ensures -1 <= i < |e|
    ensures i >= 0 ==> e[i] == '@'
    ensures forall k :: 0 <= k < |e| && (i < 0 || k < i) ==> e[k] != '@'
  {
    if |e| == 0 then -1
    else if e[0] == '@' then 0
    else
      var j := FirstAt(e[1..]);
      if j < 0 then -1 else j + 1
  }

  /**
   * The same language described by what it requires: no whitespace anywhere, exactly one '@'
   * and not at the front, and a '.' in the domain that is neither its first nor its last character.
   */
  predicate EmailShape(e: string) {
    && (forall k :: 0 <= k < |e| ==> !IsSpace(e[k]))
    && var a := FirstAt(e);
    && 0 < a && a + 3 < |e|
    && (forall k :: a < k < |e| ==> e[k] != '@')
    && '.' in e[a + 2..|e| - 1]
  }

  /** A match of the pattern, with its '@' at `at` and its '.' at `dot`, has the shape. */
  lemma PatternHasShape(e: string, at: int, dot: int)
    requires 0 < at && at + 1 < dot && dot + 1 < |e| && e[at] == '@' && e[dot] == '.'
    requires NoSpaceOrAt(e[..at]) && NoSpaceOrAt(e[at + 1..dot]) && NoSpaceOrAt(e[dot + 1..])
    ensures EmailShape(e)
  {
    assert !IsSpace('@') && !IsSpace('.');
    var a := FirstAt(e);
    assert a == at;
    forall k | 0 <= k < |e| ensures !IsSpace(e[k]) && (k > at ==> e[k] != '@') {
      if k < at {
        assert e[k] == e[..at][k];
      } else if at < k < dot {
        assert e[k] == e[at + 1..dot][k - at - 1];
      } else if dot < k {
        assert e[k] == e[dot + 1..][k - dot - 1];
      }
    }
    assert e[a + 2..|e| - 1][dot - a - 2] == '.';
  }

  /** A string of that shape matches the pattern, splitting at its '@' and at a '.' of the domain. */
  lemma ShapeHasPattern(e: string)
    requires EmailShape(e)
    ensures ValidateEmail(e)
  {
    var at := FirstAt(e);
    var sub := e[at + 2..|e| - 1];
    var j :| 0 <= j < |sub| && sub[j] == '.';
    var dot := at + 2 + j;
    assert e[dot] == '.';
    assert NoSpaceOrAt(e[..at]);
    assert NoSpaceOrAt(e[at + 1..dot]);
    assert NoSpaceOrAt(e[dot + 1..]);
  }

  /** The pattern accepts exactly the strings of that shape. */
  lemma ValidateEmailShape(e: string)
    ensures ValidateEmail(e) <==> EmailShape(e)
  {
    if ValidateEmail(e) {
      var at, dot :| 0 < at && at + 1 < dot && dot + 1 < |e| && e[at] == '@' && e[dot] == '.'
        && NoSpaceOrAt(e[..at]) && NoSpaceOrAt(e[at + 1..dot]) && NoSpaceOrAt(e[dot + 1..]);
      PatternHasShape(e, at, dot);
    }
    if EmailShape(e) {
      ShapeHasPattern(e);
    }
  }

  /** A well-formed address is accepted. */
  lemma ValidateEmailAccepts()
    ensures ValidateEmail("ann@example.org")
  {
    var e := "ann@example.org";
    assert e[3] == '@' && e[11] == '.';
    assert NoSpaceOrAt(e[..3]) && NoSpaceOrAt(e[4..11]) && NoSpaceOrAt(e[12..]);
  }

  /** An address whose domain has no '.' is refused. */
  lemma ValidateEmailRefusesUndottedDomain()
    ensures !ValidateEmail("ann@localhost")
  {
    var e := "ann@localhost";
    assert forall i :: 0 <= i < |e| ==> e[i] != '.';
  }

  // ----- register / login -----

  /** The messages `register` and `login` throw, one constructor per message. */
  datatype AuthError =
    | FieldsRequired      // 'All fields are required'
    | InvalidEmail        // 'Please enter a valid email address'
    | PasswordTooShort    // 'Password must be at least 8 characters'
    | AccountExists       // 'An account with this email already exists'
    | InvalidCredentials  // 'Invalid email or password'
    | AccountDisabled     // 'Your account has been disabled. Contact admin.'

  /** The four checks `register` makes before hashing, in the order it makes them. */
  function RegisterCheck(users: map<string, User>, email: string, name: string, password: string): (r: Outcome<AuthError>)
    ensures r == Pass <==>
      email != "" && name != "" && password != "" && ValidateEmail(email)
      && JsLength(password) >= 8 && LookupUser(users, email).None?
    ensures r == Fail(FieldsRequired) <==> email == "" || name == "" || password == ""
    ensures r == Fail(InvalidEmail) <==>
      email != "" && name != "" && password != "" && !ValidateEmail(email)
    ensures r == Fail(PasswordTooShort) <==>
      email != "" && name != "" && password != "" && ValidateEmail(email) && JsLength(password) < 8
    ensures r == Fail(AccountExists) <==>
      email != "" && name != "" && password != "" && ValidateEmail(email)
      && JsLength(password) >= 8 && LookupUser(users, email).Some?
    ensures r.Fail? ==> r.error in {FieldsRequired, InvalidEmail, PasswordTooShort, AccountExists}
  {
    if email == "" || name == "" || password == "" then Fail(FieldsRequired)
    else if !ValidateEmail(email) then Fail(InvalidEmail)
    else if JsLength(password) < 8 then Fail(PasswordTooShort)
    else if LookupUser(users, email).Some? then Fail(AccountExists)
    else Pass
  }

  /**
   * The record `register` saves: lower-cased email, trimmed name, the salted hash, no teams,
   * active, and admin exactly when it is the first account.
   */
  function NewUser(email: string, name: string, h: Hashed, now: string, isFirst: bool): (u: User)
    ensures SameEmail(u.email, email) && ToLower(u.email) == u.email
    ensures u.role == (if isFirst then "admin" else "user")
    ensures u.name == Trim(name) && u.passwordHash == h.hash && u.passwordSalt == h.salt
    ensures u.createdAt == now && u.status == "active" && u.teams == []
  {
    ToLowerIdempotent(email);
    User(ToLower(email), Trim(name), h.hash, h.salt, now, [], if isFirst then "admin" else "user", "active")
  }

  /** The public profile kept in the session; a missing role reads as "user". */
  function SessionOf(u: User): (s: SessionUser)
    ensures s.email == u.email && s.name == u.name && s.createdAt == u.createdAt && s.teams == u.teams
    ensures u.role == "" ==> s.role == "user"
    ensures u.role != "" ==> s.role == u.role
  {
    SessionUser(u.email, u.name, u.createdAt, u.teams, if u.role == "" then "user" else u.role)
  }

  /**
   * What `login` decides: an unknown account and a wrong password give the same error; a
   * disabled account is refused before its password is checked.
   */
  function Authenticate(users: map<string, User>, d: Digest, email: string, password: string): (r: Result<User, AuthError>)
    ensures r.Ok? <==>
      && LookupUser(users, email).Some?
      && LookupUser(users, email).value.status != "disabled"
      && VerifyPassword(d, password, LookupUser(users, email).value.passwordHash, LookupUser(users, email).value.passwordSalt)
    ensures r.Ok? ==> LookupUser(users, email) == Some(r.value)
    ensures r == Err(AccountDisabled) <==> LookupUser(users, email).Some? && LookupUser(users, email).value.status == "disabled"
    ensures LookupUser(users, email).None? ==> r == Err(InvalidCredentials)
    ensures r.Err? ==> r.error in {InvalidCredentials, AccountDisabled}
  {
    match LookupUser(users, email)
    case None => Err(InvalidCredentials)
    case Some(u) =>
      if u.status == "disabled" then Err(AccountDisabled)
      else if !VerifyPassword(d, password, u.passwordHash, u.passwordSalt) then Err(InvalidCredentials)
      else Ok(u)
  }

  /**
   * An account `register` has just saved can log in with its password under any casing of its
   * email, and it is the saved record that logs in.
   */
  lemma RegisteredUserCanLogIn(users: map<string, User>, d: Digest, email: string, login: string, name: string, password: string, salt: seq<Byte>, now: string, isFirst: bool)
    requires |salt| == 16 && SameEmail(login, email)
    ensures var u := NewUser(email, name, HashPassword(d, password, salt), now, isFirst);
      Authenticate(PutUser(users, u), d, login, password) == Ok(u)
  {
    var u := NewUser(email, name, HashPassword(d, password, salt), now, isFirst);
    LookupAfterPut(users, u, login);
    HashThenVerify(d, password, salt);
  }

  /** Once an account is saved, registering again under any casing of its email is refused. */
  lemma SecondRegistrationRefused(users: map<string, User>, u: User, email: string, name: string, password: string)
    requires SameEmail(email, u.email) && email != "" && name != "" && password != ""
    requires ValidateEmail(email) && JsLength(password) >= 8
    ensures RegisterCheck(PutUser(users, u), email, name, password) == Fail(AccountExists)
  {
    LookupAfterPut(users, u, email);
  }

  /** Only the first account gets the admin role. */
  lemma OnlyFirstUserIsAdmin(users: map<string, User>, email: string, name: string, h: Hashed, now: string)
    requires |users| > 0
    ensures NewUser(email, name, h, now, |users| == 0).role == "user"
  {
  }

  /**
   * `login(email, password)`: on success the session holds the user's public profile and the
   * master key is the password; on failure nothing changes.
   */
  method Login(store: Store, d: Digest, email: string, password: string) returns (r: Result<SessionUser, AuthError>)
    modifies store
    ensures r.Err? ==> Authenticate(old(store.Users()), d, email, password) == Err(r.error)
    ensures r.Ok? ==> (Authenticate(old(store.Users()), d, email, password).Ok?
      && r.value == SessionOf(Authenticate(old(store.Users()), d, email, password).value))
    ensures r.Err? ==> store.currentUser == old(store.currentUser) && store.masterKey == old(store.masterKey)
    ensures r.Ok? ==> store.currentUser == Some(r.value) && store.masterKey == Some(password)
    ensures r.Ok? ==> IsLoggedIn(store) && (IsAdmin(store) <==> r.value.role == "admin")
    ensures store.users == old(store.users) && store.passwords == old(store.passwords) && store.teams == old(store.teams)
  {
    var found := store.GetUser(email);
    if found.None? {
      return Err(InvalidCredentials);
    }
    var user := found.value;
    if user.status == "disabled" {
      return Err(AccountDisabled);
    }
    var isValid := VerifyPassword(d, password, user.passwordHash, user.passwordSalt);
    if !isValid {
      return Err(InvalidCredentials);
    }
    var session := SessionOf(user);
    store.SetCurrentUser(session, password);
    return Ok(session);
  }

  /**
   * `register(email, name, password)`: the checks in order, then the new record saved under its
   * lower-cased email, then a login with the same credentials, which always succeeds.
   */
  method Register(store: Store, d: Digest, email: string, name: string, password: string, salt: seq<Byte>, now: string)
    returns (r: Result<SessionUser, AuthError>)
    requires |salt| == 16
    modifies store
    ensures var check := RegisterCheck(old(store.Users()), email, name, password);
      check.Fail? ==> (r == Err(check.error) && store.users == old(store.users)
        && store.currentUser == old(store.currentUser) && store.masterKey == old(store.masterKey))
    ensures var u := NewUser(email, name, HashPassword(d, password, salt), now, |old(store.Users())| == 0);
      RegisterCheck(old(store.Users()), email, name, password) == Pass ==>
        && r == Ok(SessionOf(u))
        && store.users == Some(PutUser(old(store.Users()), u))
        && store.currentUser == Some(SessionOf(u)) && store.masterKey == Some(password)
    ensures store.passwords == old(store.passwords) && store.teams == old(store.teams)
  {
    if email == "" || name == "" || password == "" {
      return Err(FieldsRequired);
    }
    if !ValidateEmail(email) {
      return Err(InvalidEmail);
    }
    if JsLength(password) < 8 {
      return Err(PasswordTooShort);
    }
    if store.GetUser(email).Some? {
      return Err(AccountExists);
    }
    var h := HashPassword(d, password, salt);
    var isFirstUser := |store.Users()| == 0;
    var user := NewUser(email, name, h, now, isFirstUser);
    store.SaveUser(user);
    RegisteredUserCanLogIn(old(store.Users()), d, user.email, email, name, password, salt, now, isFirstUser);
    assert NewUser(user.email, name, h, now, isFirstUser) == user;
    r := Login(store, d, email, password);
  }

  // ----- Session -----

  /** `isLoggedIn()`: a session user and a master key are both present. */
  predicate IsLoggedIn(store: Store)
    reads store
  {
    store.currentUser.Some? && store.masterKey.Some?
  }

  /** `isAdmin()`: the session user's role is "admin". */
  predicate IsAdmin(store: Store)
    reads store
  {
    store.currentUser.Some? && store.currentUser.value.role == "admin"
  }

  /** `logout()`: the session is cleared; the stored maps are untouched. */
  method Logout(store: Store)
    modifies store
    ensures !IsLoggedIn(store) && !IsAdmin(store)
    ensures store.Db() == old(store.Db())
  {
    store.ClearSession();
  }
}

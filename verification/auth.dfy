/**
 * The `Auth` object: registration, login and logout over the stored user
 * table and the current session. Persistence to local storage is not
 * modelled; the clock reading (`new Date().toISOString()`) is a parameter.
 */
module Auth {
  import opened Wrappers
  import opened PasswordHash
  import opened Email

  /** A stored account; `password` holds the hash, never the password. */
  datatype User = User(name: string, email: string, password: string, createdAt: string)

  /** The logged-in user. */
  datatype Session = Session(email: string, name: string, loginTime: string)

  /** `users` keyed by email, and `currentUser` (null as None). */
  datatype AuthState = AuthState(users: map<string, User>, currentUser: Option<Session>)

  /** The `{ success, message }` object every operation returns. */
  datatype Response = Response(success: bool, message: string)

  /** The state after a call together with what the call returned. */
  datatype Outcome = Outcome(response: Response, state: AuthState)

  /** No accounts and nobody logged in: what an empty local storage loads as. */
  const Init: AuthState := AuthState(map[], None)

  /**
   * The property names every plain object inherits from `Object.prototype`:
   * `users[email]` is truthy for them even with no account of that name.
   */
  const InheritedNames: set<string> := {
    "constructor", "__defineGetter__", "__defineSetter__", "hasOwnProperty",
    "__lookupGetter__", "__lookupSetter__", "isPrototypeOf", "propertyIsEnumerable",
    "toString", "valueOf", "__proto__", "toLocaleString"
  }

  /** What `this.users[email]` reads. */
  datatype Lookup = Own(user: User) | Inherited | Absent

  function LookupUser(users: map<string, User>, email: string): Lookup {
    if email in users then Own(users[email])
    else if email in InheritedNames then Inherited
    else Absent
  }

  /** The messages, as the source spells them. */
  const MissingField := "All fields are required"
  const ShortPassword := "Password must be at least 6 characters"
  const Mismatch := "Passwords do not match"
  const Taken := "Email already registered"
  const BadEmail := "Invalid email format"
  const Registered := "Registration successful! Please login."
  const MissingCredentials := "Email and password are required"
  const NoSuchUser := "User not found"
  const WrongPassword := "Incorrect password"
  const LoggedIn := "Login successful!"
  const LoggedOut := "Logged out successfully"

  /** `password.length`: the number of UTF-16 code units. */
  function Length(s: string): nat {
    |CodeUnits(s)|
  }

  /** Everything `register` checks, in its order, holds. */
  predicate CanRegister(users: map<string, User>, name: string, email: string, password: string, confirm: string) {
    && name != [] && email != [] && password != [] && confirm != []
    && Length(password) >= 6
    && password == confirm
    && LookupUser(users, email).Absent?
    && IsEmail(email)
  }

  /**
   * `register(name, email, password, confirmPassword)` at time `now`: on
   * success the account is stored under its email with the hashed password;
   * any failure leaves the state as it was.
   */
  function Register(st: AuthState, name: string, email: string, password: string, confirm: string, now: string): (out: Outcome)
    ensures out.response.success <==> CanRegister(st.users, name, email, password, confirm)
    ensures !out.response.success ==> out.state == st
    ensures out.response.success ==>
              && out.state.users == st.users[email := User(name, email, HashPassword(password), now)]
              && out.state.currentUser == st.currentUser
              && out.response.message == Registered
    ensures name == [] || email == [] || password == [] || confirm == [] ==>
              out.response.message == MissingField
    ensures name != [] && email != [] && password != [] && confirm != [] ==>
              && (Length(password) < 6 ==> out.response.message == ShortPassword)
              && (Length(password) >= 6 && password != confirm ==> out.response.message == Mismatch)
              && (Length(password) >= 6 && password == confirm && !LookupUser(st.users, email).Absent? ==>
                    out.response.message == Taken)
              && (Length(password) >= 6 && password == confirm && LookupUser(st.users, email).Absent? && !IsEmail(email)
                  ==> out.response.message == BadEmail)
  {
    var fail := (msg: string) => Outcome(Response(false, msg), st);
    if name == [] || email == [] || password == [] || confirm == [] then fail(MissingField)
    else if Length(password) < 6 then fail(ShortPassword)
    else if password != confirm then fail(Mismatch)
    else if !LookupUser(st.users, email).Absent? then fail(Taken)
    else if !IsEmail(email) then fail(BadEmail)
    else
      var user := User(name, email, HashPassword(password), now);
      Outcome(Response(true, Registered), st.(users := st.users[email := user]))
  }

  /**
   * `login(email, password)` at time `now`: on success the stored account
   * becomes the current user; any failure leaves the state as it was.
   */
  function Login(st: AuthState, email: string, password: string, now: string): (out: Outcome)
    ensures out.response.success <==>
              email != [] && password != [] && email in st.users &&
              VerifyPassword(password, st.users[email].password)
    ensures !out.response.success ==> out.state == st
    ensures out.response.success ==>
              && email in st.users
              && out.state.users == st.users
              && out.state.currentUser == Some(Session(st.users[email].email, st.users[email].name, now))
              && out.response.message == LoggedIn
    ensures email == [] || password == [] ==> out.response.message == MissingCredentials
    ensures email != [] && password != [] && LookupUser(st.users, email).Absent? ==>
              out.response.message == NoSuchUser
    ensures email != [] && password != [] && !LookupUser(st.users, email).Absent? && !out.response.success ==>
              out.response.message == WrongPassword
  {
    var fail := (msg: string) => Outcome(Response(false, msg), st);
    if email == [] || password == [] then fail(MissingCredentials)
    else
      match LookupUser(st.users, email)
      case Absent => fail(NoSuchUser)
      case Inherited => fail(WrongPassword)
      case Own(user) =>
        if !VerifyPassword(password, user.password) then fail(WrongPassword)
        else
          var session := Session(user.email, user.name, now);
          Outcome(Response(true, LoggedIn), st.(currentUser := Some(session)))
  }

  /** `logout()`: nobody is logged in afterwards; the accounts stay. */
  function Logout(st: AuthState): (out: Outcome)
    ensures out.response.success
    ensures out.state.users == st.users && out.state.currentUser.None?
  {
    Outcome(Response(true, LoggedOut), st.(currentUser := None))
  }

  /** `isLoggedIn()`: someone is logged in exactly when `getCurrentUser()` is not null. */
  function IsLoggedIn(st: AuthState): (b: bool)
    ensures b <==> GetCurrentUser(st).Some?
  {
    st.currentUser.Some?
  }

  function GetCurrentUser(st: AuthState): Option<Session> {
    st.currentUser
  }

  /**
   * What registration and login keep true from an empty store on: every
   * account sits under its own well-formed email with a hexadecimal hash,
   * and a current user is one of the accounts.
   */
  ghost predicate Valid(st: AuthState) {
    && (forall e :: e in st.users ==>
          st.users[e].email == e && IsEmail(e) &&
          forall k :: 0 <= k < |st.users[e].password| ==> st.users[e].password[k] in HexDigits)
    && (st.currentUser.Some? ==>
          st.currentUser.value.email in st.users &&
          st.users[st.currentUser.value.email].name == st.currentUser.value.name)
  }

  lemma InitValid()
    ensures Valid(Init)
  {
  }

  /** Register, login and logout each keep the store valid. */
  lemma OperationsPreserveValid(st: AuthState, name: string, email: string, password: string, confirm: string, now: string)
    requires Valid(st)
    ensures Valid(Register(st, name, email, password, confirm, now).state)
    ensures Valid(Login(st, email, password, now).state)
    ensures Valid(Logout(st).state)
  {
    var r := Register(st, name, email, password, confirm, now);
    if r.response.success {
      var s' := r.state;
      assert email !in st.users;
      forall e | e in s'.users
        ensures s'.users[e].email == e && IsEmail(e)
        ensures forall k :: 0 <= k < |s'.users[e].password| ==> s'.users[e].password[k] in HexDigits
      {
        if e != email {
          assert s'.users[e] == st.users[e];
        }
      }
    }
  }

  /** No inherited property name contains '@', so none is a well-formed email. */
  lemma InheritedNamesAreNotEmails(e: string)
    requires e in InheritedNames
    ensures !IsEmail(e)
  {
    assert '@' !in e by {
      if e == "constructor" {} else if e == "__defineGetter__" {} else if e == "__defineSetter__" {}
      else if e == "hasOwnProperty" {} else if e == "__lookupGetter__" {} else if e == "__lookupSetter__" {}
      else if e == "isPrototypeOf" {} else if e == "propertyIsEnumerable" {} else if e == "toString" {}
      else if e == "valueOf" {} else if e == "__proto__" {} else {}
    }
  }

  /** In a valid store, `users[email]` is truthy exactly for the stored accounts and well-formed names. */
  lemma ValidLookup(st: AuthState, email: string)
    requires Valid(st) && IsEmail(email)
    ensures LookupUser(st.users, email).Absent? <==> email !in st.users
  {
    if email in InheritedNames {
      InheritedNamesAreNotEmails(email);
    }
  }

  /**
   * A successful registration is followed by a successful login with the
   * same email and password, which makes the new account the current user.
   */
  lemma RegisterThenLogin(st: AuthState, name: string, email: string, password: string, now: string, later: string)
    requires Register(st, name, email, password, password, now).response.success
    ensures var st' := Register(st, name, email, password, password, now).state;
      var out := Login(st', email, password, later);
      out.response.success && out.state.currentUser == Some(Session(email, name, later))
  {
  }

  /** A second registration of the same email is refused and changes nothing. */
  lemma RegisterTwiceRefused(st: AuthState, name: string, email: string, password: string, now: string,
                             name2: string, password2: string, now2: string)
    requires Register(st, name, email, password, password, now).response.success
    requires name2 != [] && Length(password2) >= 6
    ensures var st' := Register(st, name, email, password, password, now).state;
      var out := Register(st', name2, email, password2, password2, now2);
      out.response == Response(false, Taken) && out.state == st'
  {
  }

  /**
   * Login fails with "Incorrect password" for a stored account exactly when
   * the password's hash differs from the stored one.
   */
  lemma LoginWrongPassword(st: AuthState, email: string, password: string, now: string)
    requires email in st.users && email != [] && password != []
    ensures Login(st, email, password, now).response == Response(false, WrongPassword) <==>
            HashPassword(password) != st.users[email].password
  {
  }

  /** Register refuses an inherited property name as taken, before the email check. */
  lemma InheritedNameTaken(st: AuthState, name: string, email: string, password: string, now: string)
    requires email in InheritedNames && email !in st.users
    requires name != [] && Length(password) >= 6
    ensures Register(st, name, email, password, password, now).response == Response(false, Taken)
  {
  }

  /** After `logout()`, `isLoggedIn()` is false and `getCurrentUser()` is null. */
  lemma LogoutEndsSession(st: AuthState)
    ensures !IsLoggedIn(Logout(st).state) && GetCurrentUser(Logout(st).state) == None
  {
  }

  /** After a successful login, `isLoggedIn()` holds and `getCurrentUser()` is that account. */
  lemma LoginStartsSession(st: AuthState, email: string, password: string, now: string)
    requires Login(st, email, password, now).response.success
    ensures var st' := Login(st, email, password, now).state;
      IsLoggedIn(st') && GetCurrentUser(st').value.email == st.users[email].email
  {
  }
}

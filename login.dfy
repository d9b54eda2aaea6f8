/**
 * The login and sign-out actions of app/login/action.ts. The credential
 * checks are a decision over the user table; only a successful login and a
 * sign-out write the session table.
 */
module LoginAction {
  import opened Wrappers
  import opened Text
  import opened Records
  import opened Backend
  import Signup

  /** User `id` is the account of e-mail `email` and `password` matches its hash. */
  predicate PasswordMatches(users: map<string, User>, id: string, email: string, password: string,
                            compare: (string, string) -> Option<bool>)
  {
    id in users && users[id].email == email && compare(password, users[id].hashedPassword) == Some(true)
  }

  /**
   * The checks of `login` in their order: the form parses, the lower-cased
   * e-mail has an account, the password matches, the e-mail is verified.
   * `compare` stands for `comparePasswords`; `None` is a comparison that
   * throws, which the surrounding `catch` turns into InvalidCredentials.
   * The result is the id of the user to start a session for.
   */
  function CheckCredentials(users: map<string, User>, email: Option<string>, password: Option<string>,
                            isEmail: string -> bool, compare: (string, string) -> Option<bool>): (r: Result<string, ResultCode>)
    requires UsersWellFormed(users)
    ensures r.Success? <==>
      && CredentialsParse(email, password, isEmail)
      && exists id :: PasswordMatches(users, id, ToLower(email.value), password.value, compare) && users[id].isEmailVerified
    ensures r.Success? ==>
      PasswordMatches(users, r.value, ToLower(email.value), password.value, compare) && users[r.value].isEmailVerified
    ensures r == Failure(EmailNotVerified) <==>
      && CredentialsParse(email, password, isEmail)
      && exists id :: PasswordMatches(users, id, ToLower(email.value), password.value, compare) && !users[id].isEmailVerified
    ensures r.Failure? ==> r.error == InvalidCredentials || r.error == EmailNotVerified
  {
    if !CredentialsParse(email, password, isEmail) then Failure(InvalidCredentials)
    else
      var e := ToLower(email.value);
      var existing := FindUserByEmail(users, e);
      if existing.None? then Failure(InvalidCredentials)
      else if compare(password.value, existing.value.hashedPassword) != Some(true) then Failure(InvalidCredentials)
      else if !existing.value.isEmailVerified then Failure(EmailNotVerified)
      else Success(existing.value.id)
  }

  /**
   * Logging in with the credentials just used to sign up, before the link is
   * followed, is refused with EmailNotVerified: the new row is unverified.
   */
  lemma {:induction false} NewAccountIsNotVerified(users: map<string, User>, email: string, password: string,
                                                   isEmail: string -> bool, hash: string -> string,
                                                   compare: (string, string) -> Option<bool>, userId: string,
                                                   verificationToken: string)
    requires UsersWellFormed(users) && CredentialsParse(Some(email), Some(password), isEmail)
    requires !EmailInUse(users, ToLower(email)) && userId !in users
    requires compare(password, hash(password)) == Some(true)
    ensures var after := users[userId := Signup.NewUser(ToLower(email), hash(password), userId, verificationToken)];
            UsersWellFormed(after)
            && CheckCredentials(after, Some(email), Some(password), isEmail, compare) == Failure(EmailNotVerified)
  {
    var after := users[userId := Signup.NewUser(ToLower(email), hash(password), userId, verificationToken)];
    assert UsersWellFormed(after);
    assert PasswordMatches(after, userId, ToLower(email), password, compare) && !after[userId].isEmailVerified;
  }

  /**
   * `login`: the outcome of the checks; on success one session, with the
   * fresh id `sessionId`, is created for the user, and a request carrying
   * that session cookie is authenticated as the user.
   */
  method Login(st: Stores, email: Option<string>, password: Option<string>, isEmail: string -> bool,
               compare: (string, string) -> Option<bool>, sessionId: string) returns (r: FormResult)
    requires st.Valid()
    requires sessionId !in st.sessions
    modifies st`sessions
    ensures st.Valid()
    ensures
      var c := CheckCredentials(st.users, email, password, isEmail, compare);
      if c.Success? then
        && r == Succeeded(UserLoggedIn) && st.sessions == old(st.sessions)[sessionId := c.value]
        && st.SessionUserId(Some(sessionId)) == Some(c.value)
      else
        r == Failed(c.error) && st.sessions == old(st.sessions)
  {
    var c := CheckCredentials(st.users, email, password, isEmail, compare);
    if c.Failure? {
      return Failed(c.error);
    }
    st.CreateSession(sessionId, c.value);
    r := Succeeded(UserLoggedIn);
  }

  /**
   * `signOut`: 'Unauthorized' without a session; otherwise the session is
   * invalidated, so the cookie no longer authenticates, and the action
   * redirects to '/login'.
   */
  method SignOut(st: Stores, cookie: Option<string>) returns (r: ActionResult)
    requires st.Valid()
    modifies st`sessions
    ensures st.Valid()
    ensures old(st.ValidateRequest(cookie)).session.None? ==>
      r == Error("Unauthorized") && st.sessions == old(st.sessions)
    ensures old(st.ValidateRequest(cookie)).session.Some? ==>
      && r == Redirect("/login")
      && st.sessions == old(st.sessions) - {cookie.value}
      && st.ValidateRequest(cookie).session.None?
  {
    var ctx := st.ValidateRequest(cookie);
    if ctx.session.None? {
      return Error("Unauthorized");
    }
    st.sessions := st.sessions - {ctx.session.value};
    r := Redirect("/login");
  }
}

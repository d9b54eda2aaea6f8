/**
 * The form action of app/invitation/action.ts, which an invited visitor
 * without an account submits: create a pre-verified user, add it to the
 * team, and log it in.
 */
module InvitationAction {
  import opened Wrappers
  import opened Text
  import opened Records
  import opened Backend
  import Actions

  /** The row `createUser` inserts: verified from the start, with no code. */
  function PreverifiedUser(email: string, hashedPassword: string, userId: string): User {
    User(userId, None, email, hashedPassword, true, None, None)
  }

  /**
   * `createUser`: the insert, which fails (UnknownError) when the e-mail or
   * the generated id is taken; there is no prior duplicate check.
   */
  method CreateUser(st: Stores, email: string, hashedPassword: string, userId: string)
    returns (r: Result<User, ResultCode>)
    requires st.Valid()
    modifies st`users
    ensures st.Valid()
    ensures EmailInUse(old(st.users), email) || userId in old(st.users) ==>
      r == Failure(UnknownError) && st.users == old(st.users)
    ensures !EmailInUse(old(st.users), email) && userId !in old(st.users) ==>
      && r == Success(PreverifiedUser(email, hashedPassword, userId))
      && st.users == old(st.users)[userId := r.value]
  {
    if EmailInUse(st.users, email) || userId in st.users {
      return Failure(UnknownError);
    }
    var u := PreverifiedUser(email, hashedPassword, userId);
    st.users := st.users[userId := u];
    r := Success(u);
  }

  /** The form's schema: the credentials, and a non-empty team id. */
  predicate FormParses(email: Option<string>, password: Option<string>, teamId: Option<string>, isEmail: string -> bool) {
    CredentialsParse(email, password, isEmail) && teamId.Some? && |teamId.value| >= 1
  }

  /**
   * `authenticate`: InvalidCredentials when the form does not parse; a failed
   * user insert passes UnknownError through. Otherwise the new user is kept,
   * and for a team id that is not a number (`NaN`) or lies outside the team id
   * column's range the member count throws, which the `catch` reports as
   * InvalidCredentials. For a number, the user is
   * added with `addTeamMember`, whose refusal ('Team is full' and the like)
   * is ignored, a session is started and the action redirects to '/'.
   * `hash`, `userId` and `sessionId` stand for `hashPassword`, `generateId`
   * and the session id the session library picks.
   */
  method Authenticate(st: Stores, email: Option<string>, password: Option<string>, teamId: Option<string>,
                      isEmail: string -> bool, hash: string -> string, userId: string, sessionId: string)
    returns (r: FormResult)
    requires st.Valid()
    requires sessionId !in st.sessions
    modifies st`users, st`members, st`sessions
    ensures st.Valid()
    ensures old(AllWithinCap(st.members)) ==> AllWithinCap(st.members)
    ensures !FormParses(email, password, teamId, isEmail) ==>
      && r == Failed(InvalidCredentials)
      && st.users == old(st.users) && st.members == old(st.members) && st.sessions == old(st.sessions)
    ensures FormParses(email, password, teamId, isEmail) ==>
      var e := ToLower(email.value);
      var n := ParseInt(teamId.value);
      if EmailInUse(old(st.users), e) || userId in old(st.users) then
        && r == Failed(UnknownError)
        && st.users == old(st.users) && st.members == old(st.members) && st.sessions == old(st.sessions)
      else
        && st.users == old(st.users)[userId := PreverifiedUser(e, hash(password.value), userId)]
        && if n.None? || !IsInt4(n.value) then
             r == Failed(InvalidCredentials) && st.members == old(st.members) && st.sessions == old(st.sessions)
           else
             var row := TeamMember(userId, n.value, MEMBER);
             && r == FormRedirect("/")
             && st.sessions == old(st.sessions)[sessionId := userId]
             && st.members == if MemberCount(old(st.members), n.value) != 5 && n.value in st.teams
                              then old(st.members) + {row} else old(st.members)
  {
    if !FormParses(email, password, teamId, isEmail) {
      return Failed(InvalidCredentials);
    }
    var e := ToLower(email.value);
    var n := ParseInt(teamId.value);
    var created := CreateUser(st, e, hash(password.value), userId);
    if created.Failure? {
      return Failed(created.error);
    }
    if n.None? {
      return Failed(InvalidCredentials);
    }
    forall m | m in st.members ensures m.userId != userId {
      assert m.userId in old(st.users);
    }
    r := JoinAndLogIn(st, n.value, userId, sessionId);
  }

  /**
   * The tail of `authenticate` for a numeric team id: `addTeamMember`, whose
   * refusal is only logged, then the session, then the redirect to '/'. An id
   * outside the range of the team id column makes its member count throw,
   * which the `catch` of `authenticate` reports as InvalidCredentials.
   */
  method JoinAndLogIn(st: Stores, teamId: int, userId: string, sessionId: string) returns (r: FormResult)
    requires st.Valid()
    requires userId in st.users && !HasRow(st.members, userId, teamId)
    requires sessionId !in st.sessions
    modifies st`members, st`sessions
    ensures st.Valid()
    ensures old(AllWithinCap(st.members)) ==> AllWithinCap(st.members)
    ensures !IsInt4(teamId) ==>
      r == Failed(InvalidCredentials) && st.members == old(st.members) && st.sessions == old(st.sessions)
    ensures IsInt4(teamId) ==>
      && r == FormRedirect("/")
      && st.sessions == old(st.sessions)[sessionId := userId]
      && st.members == if MemberCount(old(st.members), teamId) != 5 && teamId in st.teams
                       then old(st.members) + {TeamMember(userId, teamId, MEMBER)} else old(st.members)
  {
    var added := Actions.AddTeamMember(st, teamId, userId);
    if added.Thrown? {
      return Failed(InvalidCredentials);
    }
    st.CreateSession(sessionId, userId);
    r := FormRedirect("/");
  }
}

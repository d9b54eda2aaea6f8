/**
 * The GET handler of app/api/verify-email/route.ts: looks up the user a
 * verification link names, marks the e-mail verified, clears the code and
 * logs the user in.
 */
module VerifyEmailRoute {
  import opened Wrappers
  import opened Text
  import opened Records
  import opened Backend
  import opened Signup

  /**
   * A `where` clause over the user table. An absent field is a filter set to
   * `undefined`, which Prisma drops.
   */
  datatype UserFilter = UserFilter(email: Option<string>, id: Option<string>, verificationToken: Option<string>)

  predicate MatchesFilter(u: User, f: UserFilter) {
    && (f.email.None? || u.email == f.email.value)
    && (f.id.None? || u.id == f.id.value)
    && (f.verificationToken.None? || u.verificationToken == f.verificationToken)
  }

  /** `db.user.findFirst({ where: f })` finds a row. */
  predicate HasMatch(users: map<string, User>, f: UserFilter) {
    exists id :: id in users && MatchesFilter(users[id], f)
  }

  /**
   * Which claim of the token the handler compares with the stored code: as
   * written it reads `code`, which `signup` never signs; evidently meant is
   * `verificationToken`, the claim `signup` signs the code under.
   */
  datatype CodeClaim = ReadsCode | ReadsVerificationToken

  const AsWritten: CodeClaim := ReadsCode
  const Intended: CodeClaim := ReadsVerificationToken

  function Filter(p: Payload, claim: CodeClaim): UserFilter {
    UserFilter(p.email, p.userId, if claim == ReadsCode then p.code else p.verificationToken)
  }

  /** The filter the handler builds. */
  function FilterAsWritten(p: Payload): UserFilter { Filter(p, AsWritten) }

  /** The filter the handler evidently means. */
  function IntendedFilter(p: Payload): UserFilter { Filter(p, Intended) }

  /** The update the handler applies to the matched user. */
  function Verified(u: User): User {
    u.(isEmailVerified := true, verificationToken := None)
  }

  /**
   * The handler for query parameter `token`; `verify` is the outcome of
   * `jwt.verify`, `sessionId` the id the new session receives, and `claim`
   * the claim read as the code (`AsWritten` is the route as it stands).
   * The update selects its row by the token's `email` and `userId`; with
   * neither present it is rejected, and a session needs a user id.
   */
  method Get(st: Stores, token: Option<string>, verify: string -> Result<Payload, string>,
             baseUrl: string, sessionId: string, claim: CodeClaim) returns (resp: Response)
    requires st.Valid()
    requires sessionId !in st.sessions
    modifies st`users, st`sessions
    ensures st.Valid()
    ensures !(resp.Found? || (resp.BadRequestFromException? && Truthy(token) && verify(token.value).Success?
                              && verify(token.value).value.email.Some?)) ==>
      st.users == old(st.users) && st.sessions == old(st.sessions)
    ensures
      if !Truthy(token) then resp == BadRequest("Token is not existed")
      else if verify(token.value).Failure? then resp == BadRequest(verify(token.value).error)
      else
        var p := verify(token.value).value;
        if !HasMatch(old(st.users), Filter(p, claim)) then resp == BadRequest("Invalid token")
        else if p.userId.Some? then
          var id := p.userId.value;
          && id in old(st.users)
          && st.users == old(st.users)[id := Verified(old(st.users)[id])]
          && st.sessions == old(st.sessions)[sessionId := id]
          && resp == Found(baseUrl)
        else if p.email.Some? then
          // the user is updated, then creating a session without a user id throws
          var u := FindUserByEmail(old(st.users), p.email.value).value;
          && st.users == old(st.users)[u.id := Verified(u)]
          && st.sessions == old(st.sessions)
          && resp == BadRequestFromException(ValidationError)
        else
          resp == BadRequestFromException(ValidationError)
  {
    if !Truthy(token) {
      return BadRequest("Token is not existed");
    }
    var decoded := verify(token.value);
    if decoded.Failure? {
      return BadRequest(decoded.error);
    }
    var p := decoded.value;
    var f := Filter(p, claim);
    if !HasMatch(st.users, f) {
      return BadRequest("Invalid token");
    }
    if p.userId.Some? {
      var id := p.userId.value;
      assert id in st.users by {
        var m :| m in st.users && MatchesFilter(st.users[m], f);
      }
      UserUpdateKeepsConsistent(st.users, st.teams, st.wallets, st.members, st.sessions, st.nextTeamId, st.nextWalletId, id, Verified(st.users[id]));
      st.users := st.users[id := Verified(st.users[id])];
      st.CreateSession(sessionId, id);
      return Found(baseUrl);
    }
    if p.email.None? {
      return BadRequestFromException(ValidationError);
    }
    var u := FindUserByEmail(st.users, p.email.value);
    UserUpdateKeepsConsistent(st.users, st.teams, st.wallets, st.members, st.sessions, st.nextTeamId, st.nextWalletId, u.value.id, Verified(u.value));
    st.users := st.users[u.value.id := Verified(u.value)];
    resp := BadRequestFromException(ValidationError);
  }

  /**
   * A link `signup` mailed to a user it created, visited twice. As written
   * both visits log the user in; with the intended filter the second visit
   * is refused, because the first cleared the code.
   */
  method VisitTwice(st: Stores, token: string, verify: string -> Result<Payload, string>, baseUrl: string,
                    id: string, code: string, first: string, second: string, claim: CodeClaim)
    returns (r1: Response, r2: Response)
    requires st.Valid()
    requires token != "" && id in st.users && st.users[id].verificationToken == Some(code)
    requires verify(token) == Success(VerificationPayload(st.users[id].email, id, code))
    requires first !in st.sessions && second !in st.sessions && first != second
    modifies st`users, st`sessions
    ensures r1 == Found(baseUrl)
    ensures claim == AsWritten ==> r2 == Found(baseUrl)
    ensures claim == Intended ==> r2 == BadRequest("Invalid token")
  {
    var p := VerificationPayload(st.users[id].email, id, code);
    assert MatchesFilter(st.users[id], Filter(p, claim));
    r1 := Get(st, Some(token), verify, baseUrl, first, claim);
    if claim == AsWritten {
      LinkStillMatchesAfterVerification(old(st.users), id, code);
    } else {
      IntendedLinkIsSingleUse(old(st.users), id, code);
    }
    r2 := Get(st, Some(token), verify, baseUrl, second, claim);
  }

  /**
   * As written, the link `signup` mails is matched on e-mail and id alone:
   * the code it carries is never compared, so the link still matches after
   * it has been used, and each visit logs the user in again.
   */
  lemma LinkStillMatchesAfterVerification(users: map<string, User>, id: string, code: string)
    requires UsersWellFormed(users)
    requires id in users
    ensures var p := VerificationPayload(users[id].email, id, code);
      HasMatch(users[id := Verified(users[id])], FilterAsWritten(p))
  {
    var users' := users[id := Verified(users[id])];
    assert MatchesFilter(users'[id], FilterAsWritten(VerificationPayload(users[id].email, id, code)));
  }

  /** With the intended filter the mailed link matches exactly its unverified user. */
  lemma IntendedLinkMatchesItsUser(users: map<string, User>, email: string, id: string, code: string)
    requires UsersWellFormed(users)
    ensures HasMatch(users, IntendedFilter(VerificationPayload(email, id, code))) <==>
      id in users && users[id].email == email && users[id].verificationToken == Some(code)
  {
    var f := IntendedFilter(VerificationPayload(email, id, code));
    if HasMatch(users, f) {
      var m :| m in users && MatchesFilter(users[m], f);
      assert m == id;
    }
    if id in users && users[id].email == email && users[id].verificationToken == Some(code) {
      assert MatchesFilter(users[id], f);
    }
  }

  /** ... and once used, since verification clears the code, it matches no one. */
  lemma IntendedLinkIsSingleUse(users: map<string, User>, id: string, code: string)
    requires UsersWellFormed(users)
    requires id in users
    ensures var p := VerificationPayload(users[id].email, id, code);
      !HasMatch(users[id := Verified(users[id])], IntendedFilter(p))
  {
    var users' := users[id := Verified(users[id])];
    IntendedLinkMatchesItsUser(users', users[id].email, id, code);
  }
}

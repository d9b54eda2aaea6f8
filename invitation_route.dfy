/**
 * The GET handler of app/api/invitation/route.ts: redeems a signed
 * invitation `{ email, teamId }` into a membership row for whoever is logged in.
 */
module InvitationRoute {
  import opened Wrappers
  import opened Text
  import opened Records
  import opened Backend
  import Actions

  /**
   * `db.team.findFirst({ where: { id: teamId } })` finds a team: an undefined
   * `teamId` drops the filter, so then any team will do.
   */
  predicate TeamFound(teams: map<int, Team>, teamId: Option<int>) {
    if teamId.Some? then teamId.value in teams else teams != map[]
  }

  /**
   * The handler for a request with session cookie `cookie` and query
   * parameter `token`; `verify` is the outcome of `jwt.verify` on a token
   * (the decoded payload, or the message of the error it throws).
   * The e-mail address the invitation was sent to is never compared with the
   * logged-in user, and no member limit is checked.
   */
  method Get(st: Stores, cookie: Option<string>, token: Option<string>,
             verify: string -> Result<Payload, string>, baseUrl: string) returns (resp: Response)
    requires st.Valid()
    modifies st`members
    ensures st.Valid()
    ensures
      if !Truthy(token) then
        resp == BadRequest("Token is not existed") && st.members == old(st.members)
      else if verify(token.value).Failure? then
        resp == BadRequest(verify(token.value).error) && st.members == old(st.members)
      else if st.SessionUserId(cookie).None? then
        resp == Found(baseUrl + "/invitation?token=" + token.value) && st.members == old(st.members)
      else
        var p, u := verify(token.value).value, st.SessionUserId(cookie).value;
        if p.teamId.Some? && !IsInt4(p.teamId.value) then
          // the team lookup refuses an id outside the column's range; the outer catch answers 400
          resp == BadRequestFromException(ValidationError) && st.members == old(st.members)
        else if !TeamFound(st.teams, p.teamId) then
          resp == BadRequest("Invalid token") && st.members == old(st.members)
        else if p.teamId.None? then
          // the insert without a team id is rejected; the handler swallows that error
          resp == Found(baseUrl) && st.members == old(st.members)
        else if HasRow(old(st.members), u, p.teamId.value) then
          resp == BadRequest("You are already a member of this team") && st.members == old(st.members)
        else
          && resp == Found(baseUrl)
          && st.members == old(st.members) + {TeamMember(u, p.teamId.value, MEMBER)}
          && st.users[u] in Actions.GetTeamMembers(st, p.teamId.value)
  {
    if !Truthy(token) {
      return BadRequest("Token is not existed");
    }
    var decoded := verify(token.value);
    if decoded.Failure? {
      return BadRequest(decoded.error);
    }
    var p := decoded.value;
    var u := st.SessionUserId(cookie);
    if u.None? {
      return Found(baseUrl + "/invitation?token=" + token.value);
    }
    if p.teamId.Some? && !IsInt4(p.teamId.value) {
      return BadRequestFromException(ValidationError);
    }
    if !TeamFound(st.teams, p.teamId) {
      return BadRequest("Invalid token");
    }
    if p.teamId.None? {
      return Found(baseUrl);
    }
    var t := p.teamId.value;
    if HasRow(st.members, u.value, t) {
      return BadRequest("You are already a member of this team");
    }
    var row := TeamMember(u.value, t, MEMBER);
    InsertKeepsConsistent(st.users, st.teams, st.wallets, st.members, st.sessions, st.nextTeamId, st.nextWalletId, row);
    st.members := st.members + {row};
    Actions.MemberRowListsUser(st, u.value, t);
    resp := Found(baseUrl);
  }

  /**
   * Redeeming an invitation into a team that already has five members
   * leaves it with six: unlike `addTeamMember`, the handler has no cap.
   */
  lemma RedeemIgnoresCap(members: set<TeamMember>, userId: string, teamId: int)
    requires MemberCount(members, teamId) == 5
    requires !HasRow(members, userId, teamId)
    ensures !WithinCap(members + {TeamMember(userId, teamId, MEMBER)}, teamId)
  {
    MemberCountAfterInsert(members, TeamMember(userId, teamId, MEMBER), teamId);
  }
}

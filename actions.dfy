/**
 * The server actions of app/actions.ts: team-scoped chat history in the
 * key-value store, credit metering on first save, teams, wallets and
 * membership rows in the relational store.
 */
module Actions {
  import opened Wrappers
  import opened Text
  import opened Records
  import opened ChatStore
  import opened Backend

  // ---------------------------------------------------------------------------
  // Chat history
  // ---------------------------------------------------------------------------

  /** What `team:${user?.currentTeamId}:chats` interpolates when no team is set. */
  function InterpolatedTeam(ctx: AuthContext): Interpolated {
    if ctx.user.None? then Undefined
    else if ctx.user.value.currentTeamId.None? then Null
    else Num(ctx.user.value.currentTeamId.value)
  }

  /** The index `getChats` reads for the request with session cookie `cookie`. */
  function ListedIndex(st: Stores, cookie: Option<string>): string
    reads st
  {
    IndexKey(InterpolatedTeam(st.ValidateRequest(cookie)))
  }

  /** `chats` holds the `hgetall` result of each key of `keys`, in order. */
  predicate Fetched(kv: Kv, keys: seq<string>, chats: seq<Option<Chat>>) {
    |chats| == |keys| && forall i :: 0 <= i < |keys| ==> chats[i] == HGetAll(kv, keys[i])
  }

  /** One `hgetall` per key, as the pipeline `getChats` builds issues them. */
  method FetchAll(kv: Kv, keys: seq<string>) returns (chats: seq<Option<Chat>>)
    ensures Fetched(kv, keys, chats)
  {
    chats := [];
    for i := 0 to |keys|
      invariant |chats| == i
      invariant forall j :: 0 <= j < i ==> chats[j] == HGetAll(kv, keys[j])
    {
      chats := chats + [HGetAll(kv, keys[i])];
    }
  }

  /**
   * `getChats`: nothing when neither a current team nor a user id is given;
   * otherwise one `hgetall` result per member of the index, newest first
   * (null where an indexed chat no longer exists).
   */
  method GetChats(st: Stores, cookie: Option<string>, userId: Option<string>) returns (chats: seq<Option<Chat>>)
    ensures st.CurrentTeamOf(cookie).None? && !Truthy(userId) ==> chats == []
    ensures st.CurrentTeamOf(cookie).Some? || Truthy(userId) ==>
      Fetched(st.kv, ZRangeRev(Scores(st.kv, ListedIndex(st, cookie))), chats)
  {
    if st.CurrentTeamOf(cookie).None? && !Truthy(userId) {
      return [];
    }
    var listed := ZRangeRev(Scores(st.kv, ListedIndex(st, cookie)));
    chats := FetchAll(st.kv, listed);
  }

  /**
   * A request without a logged-in user, or whose user has no current team,
   * reads `team:undefined:chats` or `team:null:chats`: no such index exists,
   * so `getChats` lists nothing even when a user id is passed.
   */
  lemma GetChatsWithoutTeamIsEmpty(st: Stores, cookie: Option<string>)
    requires st.Valid()
    requires !InterpolatedTeam(st.ValidateRequest(cookie)).Num?
    ensures ZRangeRev(Scores(st.kv, ListedIndex(st, cookie))) == []
  {
    NullishIndexIsEmpty(st.kv, InterpolatedTeam(st.ValidateRequest(cookie)));
  }

  /**
   * `getChat`: the chat stored under `chat:<id>`, only when the caller has a
   * current team, passes a user id, and that team's index lists the chat.
   */
  method GetChat(st: Stores, cookie: Option<string>, id: string, userId: string) returns (chat: Option<Chat>)
    requires st.Valid()
    ensures chat.Some? <==>
      && st.CurrentTeamOf(cookie).Some? && userId != ""
      && HGetAll(st.kv, ChatKey(id)).Some?
      && ChatKey(id) in Scores(st.kv, TeamChatsKey(st.CurrentTeamOf(cookie).value))
    ensures chat.Some? ==> chat == HGetAll(st.kv, ChatKey(id)) && chat.value.id == id
  {
    var ctx := st.ValidateRequest(cookie);
    var team := CurrentTeam(ctx);
    if team.None? || userId == "" {
      return None;
    }
    var stored := HGetAll(st.kv, ChatKey(id));
    if stored.None? {
      return None;
    }
    var score := ZScore(st.kv, TeamChatsKey(team.value), ChatKey(id));
    if score.None? {
      return None;
    }
    ChatUnderItsKey(st.kv, id);
    chat := stored;
  }

  /**
   * `removeChat`: 'Unauthorized' with nothing changed unless the caller has a
   * session, a current team, and that team's index lists the chat; otherwise
   * the chat and its index entry are deleted and nothing else.
   */
  method RemoveChat(st: Stores, cookie: Option<string>, id: string) returns (r: ActionResult)
    requires st.Valid()
    modifies st`kv
    ensures st.Valid()
    ensures
      var team := st.CurrentTeamOf(cookie);
      if st.ValidateRequest(cookie).session.None? || team.None?
         || ChatKey(id) !in Scores(old(st.kv), TeamChatsKey(team.value))
      then r == Error("Unauthorized") && st.kv == old(st.kv)
      else
        && r == Done
        && ChatKey(id) !in st.kv
        && Scores(st.kv, TeamChatsKey(team.value)) == Scores(old(st.kv), TeamChatsKey(team.value)) - {ChatKey(id)}
        && SameExcept(old(st.kv), st.kv, {ChatKey(id), TeamChatsKey(team.value)})
  {
    var ctx := st.ValidateRequest(cookie);
    var team := CurrentTeam(ctx);
    if ctx.session.None? || team.None? {
      return Error("Unauthorized");
    }
    var ck, tk := ChatKey(id), TeamChatsKey(team.value);
    if ZScore(st.kv, tk, ck).None? {
      return Error("Unauthorized");
    }
    ChatKeyIsChatKey(id);
    ClearStart(st.kv, tk);
    RemoveStep(st.kv, st.kv, team.value, {}, ck);
    st.kv := ZRem(Del(st.kv, ck), tk, ck);
    r := Done;
  }

  /**
   * `clearChats`: 'Unauthorized' with nothing changed without a session whose
   * user id is truthy (not '') and a current team; otherwise every chat the team's index lists is deleted, the
   * index itself disappears, every other key (including chats indexed only by
   * other teams) is untouched, and the action redirects to '/'.
   */
  method ClearChats(st: Stores, cookie: Option<string>) returns (r: ActionResult)
    requires st.Valid()
    modifies st`kv
    ensures st.Valid()
    ensures
      var team := st.CurrentTeamOf(cookie);
      var u := st.SessionUserId(cookie);
      if u.None? || u.value == "" || team.None?
      then r == Error("Unauthorized") && st.kv == old(st.kv)
      else
        r == Redirect("/") && Cleared(old(st.kv), st.kv, TeamChatsKey(team.value))
  {
    var ctx := st.ValidateRequest(cookie);
    var team := CurrentTeam(ctx);
    if ctx.session.None? || ctx.user.value.id == "" || team.None? {
      return Error("Unauthorized");
    }
    ClearTeamChats(st, team.value);
    r := Redirect("/");
  }

  /** The part of `clearChats` past the authorisation check: team `t`'s chats go. */
  method ClearTeamChats(st: Stores, t: int)
    requires WellFormed(st.kv)
    modifies st`kv
    ensures WellFormed(st.kv)
    ensures Cleared(old(st.kv), st.kv, TeamChatsKey(t))
  {
    var tk := TeamChatsKey(t);
    var listed := ZRange(Scores(st.kv, tk));
    ElemsOfZRange(Scores(st.kv, tk));
    if |listed| == 0 {
      ClearStart(st.kv, tk);
      ClearedIndexGone(st.kv, st.kv, t, {});
      return;
    }
    ChatIndexListsChatKeys(st.kv, tk);
    DeleteChats(st, t, listed);
    ClearedIndexGone(old(st.kv), st.kv, t, Elems(listed));
  }

  /**
   * The pipeline `clearChats` executes: for each listed chat key, DEL of the
   * chat and ZREM of it from team `t`'s index.
   */
  method DeleteChats(st: Stores, t: int, keys: seq<string>)
    requires WellFormed(st.kv)
    requires forall k :: k in keys ==> IsChatKey(k)
    modifies st`kv
    ensures WellFormed(st.kv)
    ensures ClearedSoFar(old(st.kv), st.kv, TeamChatsKey(t), Elems(keys))
  {
    var tk := TeamChatsKey(t);
    ClearStart(st.kv, tk);
    for i := 0 to |keys|
      invariant ClearedSoFar(old(st.kv), st.kv, tk, Elems(keys[..i]))
    {
      RemoveNext(old(st.kv), st.kv, t, keys, i);
      st.kv := ZRem(Del(st.kv, keys[i]), tk, keys[i]);
    }
    assert keys[..|keys|] == keys;
  }

  // ---------------------------------------------------------------------------
  // Credits
  // ---------------------------------------------------------------------------

  /** `getCreditsForTeam`: the team's wallet balance; 0 for -1 and for a team without wallet. */
  function GetCreditsForTeam(st: Stores, teamId: int): int
    reads st
  {
    if teamId == -1 then 0
    else if teamId in st.teams && teamId in st.wallets then st.wallets[teamId].balance
    else 0
  }

  /** The wallets after one credit is taken from team `t`'s wallet. */
  function Debited(wallets: map<int, CreditWallet>, t: int): map<int, CreditWallet>
    requires t in wallets
  {
    wallets[t := wallets[t].(balance := wallets[t].balance - 1)]
  }

  /**
   * `deductCreditFromTeam`: nothing for -1; an update of a team that does not
   * exist throws; otherwise the balance drops by exactly one, with no floor.
   */
  method DeductCreditFromTeam(st: Stores, teamId: int) returns (r: ActionResult)
    requires st.Valid()
    modifies st`wallets
    ensures st.Valid()
    ensures teamId == -1 ==> r == Done && st.wallets == old(st.wallets)
    ensures teamId != -1 && teamId !in st.teams ==> r == Thrown(RecordNotFound) && st.wallets == old(st.wallets)
    ensures teamId != -1 && teamId in st.teams ==>
      r == Done && teamId in old(st.wallets) && st.wallets == Debited(old(st.wallets), teamId)
    ensures teamId != -1 && teamId in st.teams ==> GetCreditsForTeam(st, teamId) == old(GetCreditsForTeam(st, teamId)) - 1
  {
    if teamId == -1 {
      return Done;
    }
    // A team always has its wallet: a missing team and a missing wallet both make the nested update throw.
    if teamId !in st.wallets {
      return Thrown(RecordNotFound);
    }
    st.wallets := Debited(st.wallets, teamId);
    r := Done;
  }

  /**
   * `saveChat`: without a session and a current team nothing happens. A chat
   * key that does not exist yet costs one credit first (an uncaught error when
   * the team does not exist). The save is then refused with 'Insufficient
   * credits' if the balance is at most 0 — the credit stays taken. Otherwise
   * the chat is stored under `chat:<id>` and indexed for the team at `now`.
   */
  method SaveChat(st: Stores, cookie: Option<string>, chat: Chat, now: int) returns (r: ActionResult)
    requires st.Valid()
    modifies st`kv, st`wallets
    ensures st.Valid()
    ensures
      var team := st.CurrentTeamOf(cookie);
      if st.ValidateRequest(cookie).session.None? || team.None? then
        r == Done && st.kv == old(st.kv) && st.wallets == old(st.wallets)
      else
        SavedForTeam(old(st.kv), old(st.wallets), st, team.value, chat, now, r)
  {
    var ctx := st.ValidateRequest(cookie);
    var team := CurrentTeam(ctx);
    if ctx.session.None? || team.None? {
      return Done;
    }
    r := SaveForTeam(st, team.value, chat, now);
  }

  /**
   * The outcome of `saveChat` for team `t`, from keyspace `kv0` and wallets
   * `wallets0`: a new chat key costs one credit first (an uncaught error when
   * the team does not exist); the save is refused when the balance is then at
   * most 0; otherwise the chat is stored and indexed at `now`.
   */
  ghost predicate SavedForTeam(kv0: Kv, wallets0: map<int, CreditWallet>, st: Stores, t: int, chat: Chat, now: int,
                               r: ActionResult)
    reads st
  {
    var ck := ChatKey(chat.id);
    var tk := TeamChatsKey(t);
    var isNew := ck !in kv0;
    var charged := isNew && t != -1 && t in st.teams;
    && (charged ==> t in wallets0 && st.wallets == Debited(wallets0, t))
    && (!charged ==> st.wallets == wallets0)
    && (if isNew && t != -1 && t !in st.teams then
          r == Thrown(RecordNotFound) && st.kv == kv0
        else if GetCreditsForTeam(st, t) <= 0 then
          r == Error("Insufficient credits") && st.kv == kv0
        else
          && r == Done
          && HGetAll(st.kv, ck) == Some(chat)
          && ZScore(st.kv, tk, ck) == Some(now)
          && Scores(st.kv, tk) == Scores(kv0, tk)[ck := now]
          && SameExcept(kv0, st.kv, {ck, tk}))
  }

  /** The part of `saveChat` past the session check, for the caller's team `t`. */
  method SaveForTeam(st: Stores, t: int, chat: Chat, now: int) returns (r: ActionResult)
    requires st.Valid()
    modifies st`kv, st`wallets
    ensures st.Valid()
    ensures SavedForTeam(old(st.kv), old(st.wallets), st, t, chat, now, r)
  {
    var ck := ChatKey(chat.id);
    var tk := TeamChatsKey(t);
    if !Exists(st.kv, ck) {
      var d := DeductCreditFromTeam(st, t);
      if d.Thrown? {
        return d;
      }
    }
    var credits := GetCreditsForTeam(st, t);
    if credits <= 0 {
      return Error("Insufficient credits");
    }
    SaveEffect(st.kv, chat, t, now);
    st.kv := ZAdd(HmSet(st.kv, ck, chat), tk, ck, now);
    r := Done;
  }

  /**
   * A save that goes through is read back: `getChat` with the chat's id then
   * returns exactly the saved chat to any caller passing a user id.
   */
  method SaveThenGet(st: Stores, cookie: Option<string>, chat: Chat, now: int, userId: string)
    returns (saved: ActionResult, got: Option<Chat>)
    requires st.Valid()
    modifies st`kv, st`wallets
    ensures st.Valid()
    ensures st.ValidateRequest(cookie).session.Some? && st.CurrentTeamOf(cookie).Some? && saved == Done && userId != "" ==>
      got == Some(chat)
  {
    saved := SaveChat(st, cookie, chat, now);
    got := GetChat(st, cookie, chat.id, userId);
  }

  /**
   * Saving the same new chat twice in a row. When the first save goes through,
   * the team is charged one credit: the second save finds the chat key and
   * only updates it. When the first is refused for want of credits, nothing
   * was stored, so the retry is charged again and refused again.
   */
  method SaveTwice(st: Stores, cookie: Option<string>, chat: Chat, now: int, later: int)
    returns (first: ActionResult, second: ActionResult)
    requires st.Valid()
    modifies st`kv, st`wallets
    ensures st.Valid()
    ensures
      var team := st.CurrentTeamOf(cookie);
      st.ValidateRequest(cookie).session.Some? && team.Some? && team.value != -1 && team.value in st.teams
      && ChatKey(chat.id) !in old(st.kv) && first == Done ==>
        && team.value in old(st.wallets)
        && st.wallets == Debited(old(st.wallets), team.value)
    ensures
      var team := st.CurrentTeamOf(cookie);
      st.ValidateRequest(cookie).session.Some? && team.Some? && team.value != -1 && team.value in st.teams
      && ChatKey(chat.id) !in old(st.kv) && first == Error("Insufficient credits") ==>
        && team.value in old(st.wallets)
        && second == Error("Insufficient credits")
        && st.wallets == Debited(Debited(old(st.wallets), team.value), team.value)
  {
    first := SaveChat(st, cookie, chat, now);
    second := SaveChat(st, cookie, chat, later);
  }

  // ---------------------------------------------------------------------------
  // Environment
  // ---------------------------------------------------------------------------

  const RequiredKeys: seq<string> := ["OPENAI_API_KEY"]

  /** `process.env[key]` is truthy. */
  predicate IsSet(env: map<string, string>, key: string) { key in env && env[key] != "" }

  /** `keys.map(key => process.env[key] ? '' : key)` */
  function BlankSetKeys(keys: seq<string>, env: map<string, string>): seq<string> {
    seq(|keys|, i requires 0 <= i < |keys| => if IsSet(env, keys[i]) then "" else keys[i])
  }

  /** `.filter(key => key !== '')` */
  function DropBlank(xs: seq<string>): (r: seq<string>)
    ensures "" !in r
  {
    if xs == [] then [] else if xs[0] == "" then DropBlank(xs[1..]) else [xs[0]] + DropBlank(xs[1..])
  }

  function GetMissingKeys(env: map<string, string>): seq<string> {
    DropBlank(BlankSetKeys(RequiredKeys, env))
  }

  lemma {:induction false} DropBlankKeeps(xs: seq<string>, k: string)
    requires k != ""
    ensures k in DropBlank(xs) <==> k in xs
  {
    if xs != [] {
      DropBlankKeeps(xs[1..], k);
      assert xs == [xs[0]] + xs[1..];
    }
  }

  /** `getMissingKeys` lists exactly the required keys that are not set. */
  lemma GetMissingKeysExactly(env: map<string, string>, k: string)
    ensures k in GetMissingKeys(env) <==> k in RequiredKeys && !IsSet(env, k)
  {
    var b := BlankSetKeys(RequiredKeys, env);
    if k != "" {
      DropBlankKeeps(b, k);
      assert k in b <==> k in RequiredKeys && !IsSet(env, k) by {
        if k in b {
          var i :| 0 <= i < |b| && b[i] == k;
        }
        if k in RequiredKeys && !IsSet(env, k) {
          assert b[0] == k;
        }
      }
    }
  }

  // ---------------------------------------------------------------------------
  // Teams
  // ---------------------------------------------------------------------------

  datatype TeamView = TeamView(team: Team, isOwner: bool)

  datatype TeamResult = TeamCreated(team: Team) | TeamError(msg: string)

  /** `teamsAsOwner.map(... isOwner: true).concat(teamsAsMember.map(... isOwner: false))` */
  function MergeTeams(owned: seq<Team>, joined: seq<Team>): seq<TeamView> {
    seq(|owned|, i requires 0 <= i < |owned| => TeamView(owned[i], true))
      + seq(|joined|, i requires 0 <= i < |joined| => TeamView(joined[i], false))
  }

  /** The teams user `u` owns. */
  function OwnedTeams(st: Stores, u: string): set<Team>
    reads st
  {
    set t | t in st.teams.Values && t.ownerId == u
  }

  /** The teams user `u` has a membership row in. */
  function JoinedTeams(st: Stores, u: string): set<Team>
    reads st
  {
    set m | m in st.members && m.userId == u && m.teamId in st.teams :: st.teams[m.teamId]
  }

  /**
   * `getTeams`: nothing without a session; otherwise every team the user owns
   * (flagged as owner) followed by every team the user is a member of.
   */
  method GetTeams(st: Stores, cookie: Option<string>) returns (r: seq<TeamView>)
    ensures st.SessionUserId(cookie).None? ==> r == []
    ensures st.SessionUserId(cookie).Some? ==>
      var u := st.SessionUserId(cookie).value;
      && |r| == |OwnedTeams(st, u)| + |JoinedTeams(st, u)|
      && (forall v :: v in r <==>
            (v.isOwner && v.team in OwnedTeams(st, u)) || (!v.isOwner && v.team in JoinedTeams(st, u)))
      && (forall i, j :: 0 <= i < j < |r| && r[j].isOwner ==> r[i].isOwner)
  {
    var u := st.SessionUserId(cookie);
    if u.None? {
      return [];
    }
    var owned := Rows(OwnedTeams(st, u.value));
    var joined := Rows(JoinedTeams(st, u.value));
    r := MergeTeams(owned, joined);
    forall v | v in r
      ensures (v.isOwner && v.team in OwnedTeams(st, u.value)) || (!v.isOwner && v.team in JoinedTeams(st, u.value))
    {
      var i :| 0 <= i < |r| && r[i] == v;
      if i >= |owned| { assert r[|owned| + (i - |owned|)] == v; }
    }
    forall v: TeamView | (v.isOwner && v.team in OwnedTeams(st, u.value)) || (!v.isOwner && v.team in JoinedTeams(st, u.value))
      ensures v in r
    {
      if v.isOwner {
        var i :| 0 <= i < |owned| && owned[i] == v.team;
        assert r[i] == v;
      } else {
        var i :| 0 <= i < |joined| && joined[i] == v.team;
        assert r[|owned| + i] == v;
      }
    }
  }

  /**
   * `createTeam`: 'Unauthorized' without a session; otherwise a new team owned
   * by the caller, with the next id and a wallet of 10 credits.
   */
  method CreateTeam(st: Stores, cookie: Option<string>, name: string) returns (r: TeamResult)
    requires st.Valid()
    modifies st`teams, st`wallets, st`nextTeamId, st`nextWalletId
    ensures st.Valid()
    ensures st.SessionUserId(cookie).None? ==>
      && r == TeamError("Unauthorized")
      && st.teams == old(st.teams) && st.wallets == old(st.wallets)
      && st.nextTeamId == old(st.nextTeamId) && st.nextWalletId == old(st.nextWalletId)
    ensures st.SessionUserId(cookie).Some? ==>
      var t := old(st.nextTeamId);
      && t !in old(st.teams)
      && r == TeamCreated(Team(t, name, st.SessionUserId(cookie).value))
      && st.teams == old(st.teams)[t := r.team]
      && st.wallets == old(st.wallets)[t := CreditWallet(old(st.nextWalletId), t, 10)]
      && st.nextTeamId == t + 1 && st.nextWalletId == old(st.nextWalletId) + 1
      && GetCreditsForTeam(st, t) == 10
  {
    var u := st.SessionUserId(cookie);
    if u.None? {
      return TeamError("Unauthorized");
    }
    NewTeamKeepsConsistent(st.users, st.teams, st.wallets, st.members, st.sessions, st.nextTeamId, st.nextWalletId,
                           name, u.value);
    var team := Team(st.nextTeamId, name, u.value);
    st.teams := st.teams[team.id := team];
    st.wallets := st.wallets[team.id := CreditWallet(st.nextWalletId, team.id, 10)];
    st.nextTeamId := st.nextTeamId + 1;
    st.nextWalletId := st.nextWalletId + 1;
    r := TeamCreated(team);
  }

  /** `getTeamMembers`: the users with a membership row in the team; nothing for -1. */
  function GetTeamMembers(st: Stores, teamId: int): set<User>
    reads st
  {
    if teamId == -1 then {}
    else set m | m in st.members && m.teamId == teamId && m.userId in st.users :: st.users[m.userId]
  }

  /** A membership row of an existing user lists that user among the team's members. */
  lemma MemberRowListsUser(st: Stores, userId: string, teamId: int)
    requires teamId != -1 && userId in st.users && TeamMember(userId, teamId, MEMBER) in st.members
    ensures st.users[userId] in GetTeamMembers(st, teamId)
  {
    var m := TeamMember(userId, teamId, MEMBER);
    assert m in st.members && m.teamId == teamId && m.userId in st.users;
  }

  /** `getTeamOwnerEmail`: the owner's email, or '' when the team does not exist. */
  function GetTeamOwnerEmail(st: Stores, teamId: int): string
    requires st.Valid()
    reads st
  {
    if teamId in st.teams then st.users[st.teams[teamId].ownerId].email else ""
  }

  /** The payload `inviteTeamMember` signs into the invitation link. */
  function InvitationPayload(email: string, teamId: int): Payload {
    Payload(Some(email), Some(teamId), None, None, None)
  }

  /**
   * `inviteTeamMember`: the checks run in this order — no session, no such
   * team, the owner inviting their own email, an email already among the
   * members, an invalid email; a passing invitation signs `{ email, teamId }`
   * into the link it mails. Nothing in either store changes.
   */
  method InviteTeamMember(st: Stores, cookie: Option<string>, teamId: int, email: string, isEmail: string -> bool)
    returns (r: ActionResult, mail: Option<Payload>)
    requires st.Valid()
    ensures r != Done ==> mail.None?
    ensures st.SessionUserId(cookie).None? ==> r == Error("Unauthorized")
    ensures st.SessionUserId(cookie).Some? ==>
      var u := st.SessionUserId(cookie).value;
      if teamId !in st.teams then r == Error("Team not found")
      else if st.teams[teamId].ownerId == u && st.users[u].email == email then
        r == Error("You can not invite yourself to the team!")
      else if exists m :: m in GetTeamMembers(st, teamId) && m.email == email then
        r == Error("User is already a member of the team")
      else if !isEmail(email) then r == Error("Invalid email")
      else r == Done && mail == Some(InvitationPayload(email, teamId))
  {
    mail := None;
    var u := st.SessionUserId(cookie);
    if u.None? {
      return Error("Unauthorized"), None;
    }
    if teamId !in st.teams {
      return Error("Team not found"), None;
    }
    var team := st.teams[teamId];
    if team.ownerId == u.value && st.users[team.ownerId].email == email {
      return Error("You can not invite yourself to the team!"), None;
    }
    var existing := GetTeamMembers(st, teamId);
    if exists m :: m in existing && m.email == email {
      return Error("User is already a member of the team"), None;
    }
    if !isEmail(email) {
      return Error("Invalid email"), None;
    }
    r, mail := Done, Some(InvitationPayload(email, teamId));
  }

  /** The owner inviting the address `getTeamOwnerEmail` reports is inviting themself. */
  method OwnerInvitesSelf(st: Stores, cookie: Option<string>, teamId: int, isEmail: string -> bool)
    returns (r: ActionResult)
    requires st.Valid()
    requires teamId in st.teams && st.SessionUserId(cookie) == Some(st.teams[teamId].ownerId)
    ensures r == Error("You can not invite yourself to the team!")
  {
    var email := GetTeamOwnerEmail(st, teamId);
    var mail;
    r, mail := InviteTeamMember(st, cookie, teamId, email, isEmail);
  }

  /**
   * Inviting, by e-mail, a user who holds a membership row of the team (one
   * `addTeamMember` or a redeemed invitation inserted) is refused, unless it
   * is the owner inviting themself.
   */
  method InviteExistingMember(st: Stores, cookie: Option<string>, teamId: int, userId: string, isEmail: string -> bool)
    returns (r: ActionResult)
    requires st.Valid() && st.SessionUserId(cookie).Some?
    requires teamId in st.teams && TeamMember(userId, teamId, MEMBER) in st.members
    requires userId != st.teams[teamId].ownerId
    ensures r == Error("User is already a member of the team")
  {
    MemberRowListsUser(st, userId, teamId);
    var mail;
    r, mail := InviteTeamMember(st, cookie, teamId, st.users[userId].email, isEmail);
  }

  /**
   * `addTeamMember`: 'Team is full' when the team has exactly five rows;
   * otherwise one MEMBER row is inserted, unless the insert violates the
   * primary key or a foreign key ('Error adding team member').
   */
  method AddTeamMember(st: Stores, teamId: int, userId: string) returns (r: ActionResult)
    requires st.Valid()
    modifies st`members
    ensures st.Valid()
    ensures
      var before := old(MemberCount(st.members, teamId));
      if !IsInt4(teamId) then r == Thrown(ValidationError) && st.members == old(st.members)
      else if before == 5 then r == Error("Team is full") && st.members == old(st.members)
      else if HasRow(old(st.members), userId, teamId) || teamId !in st.teams || userId !in st.users then
        r == Error("Error adding team member") && st.members == old(st.members)
      else
        && r == Done
        && st.members == old(st.members) + {TeamMember(userId, teamId, MEMBER)}
        && MemberCount(st.members, teamId) == before + 1
        && st.users[userId] in GetTeamMembers(st, teamId)
    ensures old(MemberCount(st.members, teamId)) < 5 ==> WithinCap(st.members, teamId)
    ensures old(AllWithinCap(st.members)) ==> AllWithinCap(st.members)
  {
    if !IsInt4(teamId) {
      return Thrown(ValidationError);
    }
    var count := MemberCount(st.members, teamId);
    if count == 5 {
      return Error("Team is full");
    }
    if HasRow(st.members, userId, teamId) || teamId !in st.teams || userId !in st.users {
      return Error("Error adding team member");
    }
    var row := TeamMember(userId, teamId, MEMBER);
    MemberCountAfterInsert(st.members, row, teamId);
    if AllWithinCap(st.members) {
      assert WithinCap(st.members, teamId);
      InsertKeepsAllWithinCap(st.members, row);
    }
    InsertKeepsConsistent(st.users, st.teams, st.wallets, st.members, st.sessions, st.nextTeamId, st.nextWalletId, row);
    st.members := st.members + {row};
    MemberRowListsUser(st, userId, teamId);
    r := Done;
  }

  /**
   * `setCurrTeamId`: 'Unauthorized' without a session; otherwise the caller's
   * `currentTeamId` becomes `teamId`, and a truthy id is the caller's current
   * team from then on. An id outside the column's range makes the update
   * throw. No check ties the id to a team the caller owns or belongs to.
   */
  method SetCurrTeamId(st: Stores, cookie: Option<string>, teamId: int) returns (r: ActionResult)
    requires st.Valid()
    modifies st`users
    ensures st.Valid()
    ensures old(st.SessionUserId(cookie)).None? ==> r == Error("Unauthorized") && st.users == old(st.users)
    ensures old(st.SessionUserId(cookie)).Some? && !IsInt4(teamId) ==> r == Thrown(ValidationError) && st.users == old(st.users)
    ensures old(st.SessionUserId(cookie)).Some? && IsInt4(teamId) ==>
      var u := old(st.SessionUserId(cookie)).value;
      && r == Done
      && st.users == old(st.users)[u := old(st.users)[u].(currentTeamId := Some(teamId))]
      && (teamId != 0 ==> st.CurrentTeamOf(cookie) == Some(teamId))
  {
    var u := st.SessionUserId(cookie);
    if u.None? {
      return Error("Unauthorized");
    }
    if !IsInt4(teamId) {
      return Thrown(ValidationError);
    }
    UserUpdateKeepsConsistent(st.users, st.teams, st.wallets, st.members, st.sessions, st.nextTeamId, st.nextWalletId,
                              u.value, st.users[u.value].(currentTeamId := Some(teamId)));
    st.users := st.users[u.value := st.users[u.value].(currentTeamId := Some(teamId))];
    r := Done;
  }
}

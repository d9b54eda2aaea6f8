/**
 * The two stores the server actions act on, plus the session table of the
 * authentication library: one object whose fields the actions update in place.
 */
module Backend {
  import opened Wrappers
  import opened Records
  import opened ChatStore

  // ---------------------------------------------------------------------------
  // Table constraints
  // ---------------------------------------------------------------------------

  /** Users are keyed by their id and no two users share an email (both unique columns). */
  predicate UsersWellFormed(users: map<string, User>) {
    && (forall id :: id in users ==> users[id].id == id)
    && (forall a, b :: a in users && b in users && users[a].email == users[b].email ==> a == b)
  }

  predicate EmailInUse(users: map<string, User>, email: string) {
    exists id :: id in users && users[id].email == email
  }

  /** `db.user.findUnique({ where: { email } })` */
  function FindUserByEmail(users: map<string, User>, email: string): (r: Option<User>)
    requires UsersWellFormed(users)
    ensures r.Some? <==> EmailInUse(users, email)
    ensures r.Some? ==> r.value.id in users && users[r.value.id] == r.value && r.value.email == email
  {
    if EmailInUse(users, email) then
      var id :| id in users && users[id].email == email; Some(users[id])
    else None
  }

  /** Whether a `(userId, teamId)` membership row exists. */
  predicate HasRow(members: set<TeamMember>, userId: string, teamId: int) {
    exists m :: m in members && m.userId == userId && m.teamId == teamId
  }

  /** The primary key `(userId, teamId)` identifies each membership row. */
  predicate RowKeysUnique(members: set<TeamMember>) {
    forall a, b :: a in members && b in members && a.userId == b.userId && a.teamId == b.teamId ==> a == b
  }

  function MembersOf(members: set<TeamMember>, teamId: int): set<TeamMember> {
    set m | m in members && m.teamId == teamId
  }

  /** `db.teamMember.count({ where: { teamId } })` */
  function MemberCount(members: set<TeamMember>, teamId: int): nat {
    |MembersOf(members, teamId)|
  }

  /** Inserting a new row grows its team by one member and no other team at all. */
  lemma MemberCountAfterInsert(members: set<TeamMember>, row: TeamMember, t: int)
    requires !HasRow(members, row.userId, row.teamId)
    ensures MemberCount(members + {row}, t) == MemberCount(members, t) + (if t == row.teamId then 1 else 0)
  {
    assert row !in members;
    if t == row.teamId {
      assert MembersOf(members + {row}, t) == MembersOf(members, t) + {row};
    } else {
      assert MembersOf(members + {row}, t) == MembersOf(members, t);
    }
  }

  /** The five-member limit, for one team and for every team. */
  predicate WithinCap(members: set<TeamMember>, teamId: int) { MemberCount(members, teamId) <= 5 }

  ghost predicate AllWithinCap(members: set<TeamMember>) {
    forall t :: WithinCap(members, t)
  }

  /** A row added to a team below the limit keeps every team within it. */
  lemma InsertKeepsAllWithinCap(members: set<TeamMember>, row: TeamMember)
    requires AllWithinCap(members)
    requires !HasRow(members, row.userId, row.teamId) && MemberCount(members, row.teamId) < 5
    ensures AllWithinCap(members + {row})
  {
    forall t ensures WithinCap(members + {row}, t) {
      MemberCountAfterInsert(members, row, t);
      assert WithinCap(members, t);
    }
  }

  /**
   * The rows of a `findMany` over the set `s`, one per element, in an order
   * the database chooses (no `orderBy` is given anywhere in the modelled code).
   */
  method Rows<T(==)>(s: set<T>) returns (xs: seq<T>)
    ensures |xs| == |s|
    ensures forall x :: x in xs <==> x in s
    ensures forall i, j :: 0 <= i < j < |xs| ==> xs[i] != xs[j]
  {
    xs := [];
    var rest := s;
    while rest != {}
      invariant forall x :: x in s <==> x in rest || x in xs
      invariant forall x :: x in rest ==> x !in xs
      invariant forall i, j :: 0 <= i < j < |xs| ==> xs[i] != xs[j]
      invariant |xs| + |rest| == |s|
      decreases |rest|
    {
      var x :| x in rest;
      xs := xs + [x];
      rest := rest - {x};
    }
  }

  // ---------------------------------------------------------------------------
  // The request's authentication context
  // ---------------------------------------------------------------------------

  /** The range of Prisma's `Int` columns (PostgreSQL INT4), such as every team id. */
  predicate IsInt4(n: int) { -0x8000_0000 <= n < 0x8000_0000 }

  /** What `validateRequest()` yields: the session id and its user, or neither. */
  datatype AuthContext = AuthContext(session: Option<string>, user: Option<User>)

  /** JavaScript truthiness of `user?.currentTeamId`: an id other than 0. */
  function CurrentTeam(ctx: AuthContext): Option<int> {
    if ctx.user.Some? && ctx.user.value.currentTeamId.Some? && ctx.user.value.currentTeamId.value != 0
    then ctx.user.value.currentTeamId else None
  }

  /**
   * The relational store's constraints: primary keys, the unique email, the
   * one wallet per team, the foreign keys of teams, wallets, membership rows
   * and sessions, and autoincrement counters past every id in use.
   */
  ghost predicate Consistent(users: map<string, User>, teams: map<int, Team>, wallets: map<int, CreditWallet>,
                             members: set<TeamMember>, sessions: map<string, string>, nextTeamId: int, nextWalletId: int)
  {
    && UsersWellFormed(users)
    && 1 <= nextTeamId && 1 <= nextWalletId
    && (forall t :: t in teams ==> teams[t].id == t && 1 <= t < nextTeamId && teams[t].ownerId in users)
    && (forall t :: t in teams ==> t in wallets)
    && (forall t :: t in wallets ==> t in teams && wallets[t].teamId == t && 1 <= wallets[t].id < nextWalletId)
    && (forall m :: m in members ==> m.userId in users && m.teamId in teams)
    && RowKeysUnique(members)
    && (forall s :: s in sessions ==> sessions[s] in users)
  }

  /** A new membership row of an existing user and team keeps the stores consistent. */
  lemma InsertKeepsConsistent(users: map<string, User>, teams: map<int, Team>, wallets: map<int, CreditWallet>,
                              members: set<TeamMember>, sessions: map<string, string>, nextTeamId: int,
                              nextWalletId: int, row: TeamMember)
    requires Consistent(users, teams, wallets, members, sessions, nextTeamId, nextWalletId)
    requires row.userId in users && row.teamId in teams && !HasRow(members, row.userId, row.teamId)
    ensures Consistent(users, teams, wallets, members + {row}, sessions, nextTeamId, nextWalletId)
  {
  }

  /** A new team of an existing user, with its wallet, under the next ids keeps the stores consistent. */
  lemma NewTeamKeepsConsistent(users: map<string, User>, teams: map<int, Team>, wallets: map<int, CreditWallet>,
                               members: set<TeamMember>, sessions: map<string, string>, nextTeamId: int,
                               nextWalletId: int, name: string, ownerId: string)
    requires Consistent(users, teams, wallets, members, sessions, nextTeamId, nextWalletId)
    requires ownerId in users
    ensures nextTeamId !in teams && nextTeamId !in wallets
    ensures Consistent(users, teams[nextTeamId := Team(nextTeamId, name, ownerId)],
                       wallets[nextTeamId := CreditWallet(nextWalletId, nextTeamId, 10)],
                       members, sessions, nextTeamId + 1, nextWalletId + 1)
  {
  }

  /** A session of an existing user keeps the stores consistent. */
  lemma NewSessionKeepsConsistent(users: map<string, User>, teams: map<int, Team>, wallets: map<int, CreditWallet>,
                                  members: set<TeamMember>, sessions: map<string, string>, nextTeamId: int,
                                  nextWalletId: int, sessionId: string, userId: string)
    requires Consistent(users, teams, wallets, members, sessions, nextTeamId, nextWalletId)
    requires userId in users
    ensures Consistent(users, teams, wallets, members, sessions[sessionId := userId], nextTeamId, nextWalletId)
  {
  }

  /** Changing columns of a user other than its id and e-mail keeps the stores consistent. */
  lemma UserUpdateKeepsConsistent(users: map<string, User>, teams: map<int, Team>, wallets: map<int, CreditWallet>,
                                  members: set<TeamMember>, sessions: map<string, string>, nextTeamId: int,
                                  nextWalletId: int, id: string, u: User)
    requires Consistent(users, teams, wallets, members, sessions, nextTeamId, nextWalletId)
    requires id in users && u.id == id && u.email == users[id].email
    ensures Consistent(users[id := u], teams, wallets, members, sessions, nextTeamId, nextWalletId)
  {
  }

  class Stores {
    /** The key-value chat store. */
    var kv: Kv
    /** The relational store: users by id, teams by id, wallets by team id, membership rows. */
    var users: map<string, User>
    var teams: map<int, Team>
    var wallets: map<int, CreditWallet>
    var members: set<TeamMember>
    /** The authentication library's sessions: session id to user id. */
    var sessions: map<string, string>
    /** The next values of the autoincrement columns Team.id and CreditWallet.id. */
    var nextTeamId: int
    var nextWalletId: int

    /** The keyspace is well formed and the relational store is consistent. */
    ghost predicate Valid()
      reads this
    {
      WellFormed(kv) && Consistent(users, teams, wallets, members, sessions, nextTeamId, nextWalletId)
    }

    /** Empty stores. */
    constructor ()
      ensures Valid()
      ensures kv == map[] && users == map[] && teams == map[] && wallets == map[]
      ensures members == {} && sessions == map[]
    {
      kv, users, teams, wallets, members, sessions := map[], map[], map[], map[], {}, map[];
      nextTeamId, nextWalletId := 1, 1;
    }

    /** `validateRequest()` for a request carrying the session cookie `cookie`. */
    function ValidateRequest(cookie: Option<string>): AuthContext
      reads this
    {
      if cookie.Some? && cookie.value in sessions && sessions[cookie.value] in users
      then AuthContext(cookie, Some(users[sessions[cookie.value]]))
      else AuthContext(None, None)
    }

    /** The id of `getUserAuth().session.user`, or null when there is no session. */
    function SessionUserId(cookie: Option<string>): Option<string>
      reads this
    {
      var ctx := ValidateRequest(cookie);
      if ctx.session.Some? then Some(ctx.user.value.id) else None
    }

    /**
     * `lucia.createSession(userId, {})` under the fresh id `sessionId`: from
     * then on a request carrying that session cookie is authenticated as the user.
     */
    method CreateSession(sessionId: string, userId: string)
      requires Valid() && userId in users
      requires sessionId !in sessions
      modifies this`sessions
      ensures Valid()
      ensures sessions == old(sessions)[sessionId := userId]
      ensures SessionUserId(Some(sessionId)) == Some(userId)
    {
      NewSessionKeepsConsistent(users, teams, wallets, members, sessions, nextTeamId, nextWalletId, sessionId, userId);
      sessions := sessions[sessionId := userId];
    }

    /** The logged-in user's current team, when it is truthy. */
    function CurrentTeamOf(cookie: Option<string>): Option<int>
      reads this
    {
      CurrentTeam(ValidateRequest(cookie))
    }
  }
}

# ChatGPT for Teams: server actions and auth routes in Dafny

This project models the server core of a team chat application. Users sign up
and verify their e-mail with a signed link, then log in. They own teams, join
teams by invitation, and keep a team-scoped chat history. Each new chat costs
the team one credit from its wallet.

Two stores are modelled, plus the session table of the authentication library:

- **The key-value store** (`ChatStore`). It is one map from keys to values.
  `chat:<id>` holds a hash with one chat. `team:<id>:chats` holds a sorted set:
  chat key to save time. The Redis commands the actions issue are functions on
  that map: EXISTS, HGETALL, ZSCORE, DEL, HMSET, ZADD, ZREM and ZRANGE
  (ascending and REV). ZREM deletes a set it empties, as Redis does. ZRANGE
  orders by score, then by member.
- **The relational store** (`Backend`). It holds users, teams, credit wallets
  and membership rows, with autoincrement counters. `Backend.Consistent` states
  the table constraints: primary keys, the unique e-mail, one wallet per team,
  and the foreign keys.
- Both stores and the sessions are fields of one object, `Backend.Stores`. The
  actions update it in place. `Stores.Valid()` is the invariant every action
  preserves.

Each core source file is one module:

| source | module |
|---|---|
| app/actions.ts | `Actions` |
| app/api/invitation/route.ts | `InvitationRoute` |
| app/api/verify-email/route.ts | `VerifyEmailRoute` |
| app/signup/action.ts | `Signup` |
| app/login/action.ts | `LoginAction` |
| app/invitation/action.ts | `InvitationAction` |

Shared modules: `Wrappers` (Option, Result), `Text` (string helpers),
`Records` (rows and results), `ChatStore` and `Backend`.

The model keeps the JavaScript details the code relies on:

- A `currentTeamId` of 0 counts as no team, because 0 is falsy.
- `team:${user?.currentTeamId}:chats` becomes `team:undefined:chats` or `team:null:chats` when
  there is no user or no `currentTeamId`; a `currentTeamId` of 0 gives `team:0:chats`.
- Team ids are Prisma `Int` columns (PostgreSQL INT4). An id outside that range
  makes a query on it throw a validation error.
- A Prisma filter set to `undefined` is dropped.
- `Number()` of a non-numeric string is `NaN`.

What the libraries do is passed in as parameters:

- e-mail validation (`isEmail`);
- password hashing and comparison;
- generated ids;
- `Date.now()`;
- the outcome of `jwt.verify`, given as the decoded payload or the message of the error it throws.

## Model

| member | source | states |
|---|---|---|
| Text.ParseIntOfIntToString | app/invitation/action.ts:62 | `Number` of the decimal rendering of a team id gives the id back |
| Text.IntToStringInjective | app/actions.ts:27 | distinct team ids render as distinct strings |
| Text.Utf16LengthBounds | app/signup/action.ts:63 | the length zod checks against the six-character minimum counts UTF-16 units: at least the number of characters, at most twice it, and equal to it when no character lies above U+FFFF |
| Text.StrLessIrreflexive | app/actions.ts:109 | no member sorts before itself in the order that breaks score ties |
| Text.StrLessAsymmetric | app/actions.ts:109 | the tie-break order never puts two members each before the other |
| Text.StrLessTotal | app/actions.ts:109 | of two distinct members, one sorts first |
| Text.StrLessTransitive | app/actions.ts:109 | the tie-break order is transitive |
| ChatStore.ChatKeyIsNoIndexKey | app/actions.ts:55 | a `chat:` key never collides with a `team:…:chats` key, whatever is interpolated |
| ChatStore.TeamChatsKeyInjective | app/actions.ts:27 | distinct teams have distinct index keys |
| ChatStore.NullishIndexKeyIsNoTeamKey | app/actions.ts:18-27 | `team:undefined:chats` and `team:null:chats` are no team's index key |
| ChatStore.Del | app/actions.ts:90 | the key is gone and every other key is unchanged |
| ChatStore.ZRem | app/actions.ts:91 | the member leaves the set, an emptied set is deleted, and every other key is unchanged |
| ChatStore.HmSet | app/actions.ts:148 | the chat is read back by HGETALL and every other key is unchanged |
| ChatStore.ZAdd | app/actions.ts:149-152 | the member gets the score, the other members keep theirs, and every other key is unchanged |
| ChatStore.CommandLaws | app/actions.ts:55-61 | HGETALL after DEL is null and after HMSET is the chat written; ZSCORE after ZREM is null and after ZADD is the new score; every other key reads as before |
| ChatStore.ZRange | app/actions.ts:109 | each member of the set is listed, and nothing else, one entry per member |
| ChatStore.ZRangeRev | app/actions.ts:26-33 | the same set of members as ZRANGE, one entry per member |
| ChatStore.LeastExists | app/actions.ts:109 | a non-empty sorted set has a member that sorts before all the others |
| ChatStore.ZRangeAscending | app/actions.ts:109 | ZRANGE lists members strictly ascending: by score, then by member |
| ChatStore.ZRangeRevDescending | app/actions.ts:26-33 | ZRANGE REV lists members strictly descending, so the newest chat comes first |
| ChatStore.ElemsOfZRange | app/actions.ts:109-119 | the keys `clearChats` lists are exactly the members of the team index |
| ChatStore.DelKeepsWellFormed | app/actions.ts:90 | DEL keeps the keyspace well formed: chats under chat keys, indexes holding only chat keys |
| ChatStore.ZRemKeepsWellFormed | app/actions.ts:91 | ZREM keeps the keyspace well formed |
| ChatStore.SaveEffect | app/actions.ts:148-154 | HMSET then ZADD stores the chat, indexes it for the team at the given score, keeps the keyspace well formed and touches no other key |
| ChatStore.ChatIndexListsChatKeys | app/actions.ts:109-118 | a team index lists only chat keys |
| ChatStore.ClearStart | app/actions.ts:114 | before the pipeline runs, nothing has been removed |
| ChatStore.RemoveStep | app/actions.ts:117-118 | DEL and ZREM of one listed key extend the removed set by that key and keep every unlisted key as it was |
| ChatStore.RemoveNext | app/actions.ts:116-119 | the same step for the next key of the listing |
| ChatStore.ClearedIndexGone | app/actions.ts:114-121 | once every listed key is removed, the team index is gone too and no other key has changed |
| ChatStore.NullishIndexIsEmpty | app/actions.ts:18-27 | in a well-formed keyspace no index exists under an undefined or null team id |
| ChatStore.ChatUnderItsKey | app/actions.ts:55-67 | the hash found under `chat:<id>` is the chat with id `id` |
| Backend.FindUserByEmail | app/signup/action.ts:20-22 | a user is found exactly when one has the e-mail, and it is that user |
| Backend.MemberCountAfterInsert | app/actions.ts:336-355 | a new row adds one to its own team's member count and leaves every other team's count alone |
| Backend.InsertKeepsAllWithinCap | app/actions.ts:342-355 | a row added to a team below five members keeps every team at five or fewer |
| Backend.InsertKeepsConsistent | app/actions.ts:349-355 | a new row of an existing user and team keeps the table constraints |
| Backend.NewTeamKeepsConsistent | app/actions.ts:215-229 | a team of an existing user and its wallet, under ids no row uses yet, keep the table constraints |
| Backend.NewSessionKeepsConsistent | app/login/action.ts:65-67 | a session of an existing user keeps the stores consistent |
| Backend.UserUpdateKeepsConsistent | app/actions.ts:372-379 | an update of a user that keeps its id and e-mail keeps the stores consistent |
| Backend.Rows | app/actions.ts:178-191 | `findMany` returns each matching row once, and no other row |
| Backend.Stores.CreateSession | app/login/action.ts:65 | the session is added, and from then on a request carrying its cookie is authenticated as that user |
| Actions.FetchAll | app/actions.ts:35-39 | the pipeline returns one HGETALL result per listed key, in listing order |
| Actions.GetChats | app/actions.ts:16-45 | empty without a team and without a user id; otherwise the HGETALL result of each member of the interpolated index, newest first |
| Actions.GetChatsWithoutTeamIsEmpty | app/actions.ts:18-27 | with no team to interpolate, the list is empty even when a user id is passed |
| Actions.GetChat | app/actions.ts:47-68 | a chat is returned exactly when the caller has a team, passes a user id, the chat exists and the team's index lists it; it is the chat stored under the id |
| Actions.RemoveChat | app/actions.ts:70-95 | 'Unauthorized' with nothing changed unless the caller has a session and a team whose index lists the chat; otherwise the chat and its index entry go and no other key changes |
| Actions.ClearChats | app/actions.ts:97-125 | 'Unauthorized' with nothing changed unless the caller has a session with a non-empty user id and a current team, or a redirect to '/' once the team's listed chats and index are gone and every other key is as it was |
| Actions.ClearTeamChats | app/actions.ts:107-121 | the listed chats and the index of the team go; nothing else changes |
| Actions.DeleteChats | app/actions.ts:114-121 | the loop over the listing removes exactly the listed keys from the keyspace and the index |
| Actions.DeductCreditFromTeam | app/actions.ts:401-418 | nothing for -1; a missing team throws; otherwise the team's balance drops by exactly one, even below zero, so `getCreditsForTeam` reports one credit less |
| Actions.SaveChat | app/actions.ts:127-158 | nothing without a session and a team; otherwise the outcome `SavedForTeam` describes |
| Actions.SaveForTeam | app/actions.ts:133-154 | a new chat key costs one credit first; 'Insufficient credits' refuses the save with the credit still taken; otherwise the chat is stored and indexed at `now` and nothing else changes |
| Actions.SaveThenGet | app/actions.ts:131-154 | after a save that goes through, `getChat` returns the saved chat |
| Actions.SaveTwice | app/actions.ts:135-138 | saving a new chat twice in a row: when the first save goes through, the team is charged one credit, not two; when the first is refused for want of credits, the retry is charged again and refused again |
| Actions.DropBlank | app/actions.ts:168 | the filtered list has no empty entry |
| Actions.DropBlankKeeps | app/actions.ts:168 | a non-empty key survives the filter exactly when it was in the list |
| Actions.GetMissingKeysExactly | app/actions.ts:164-169 | a key is reported exactly when it is required and not set |
| Actions.GetTeams | app/actions.ts:171-206 | empty without a session; otherwise every owned team as owner and every joined team as member, owners first, nothing else |
| Actions.CreateTeam | app/actions.ts:210-232 | 'Unauthorized' with nothing changed, or a team with the next id, owned by the caller, with a new wallet of 10 credits that `getCreditsForTeam` then reports; both id counters advance by one |
| Actions.MemberRowListsUser | app/actions.ts:234-247 | a user holding a membership row of a team is among the users `getTeamMembers` lists for it |
| Actions.InviteTeamMember | app/actions.ts:268-333 | the five refusals in the code's order; on success `{ email, teamId }` is signed into the link mailed; no store changes |
| Actions.OwnerInvitesSelf | app/actions.ts:251-296 | the owner inviting the address `getTeamOwnerEmail` reports for the team is told they can not invite themself |
| Actions.InviteExistingMember | app/actions.ts:298-303 | inviting the e-mail of a user who holds a membership row of the team, other than the owner, is refused as already a member |
| Actions.AddTeamMember | app/actions.ts:335-361 | a team id outside the INT4 column range throws; 'Team is full' at exactly five members; a duplicate, a missing team or a missing user fails the insert; otherwise one MEMBER row is added and the user is among the team's members; the five-member limit is kept |
| Actions.SetCurrTeamId | app/actions.ts:363-380 | 'Unauthorized' with nothing changed; an id outside the INT4 column range throws; otherwise the caller's `currentTeamId` becomes the id, a non-zero id is the caller's current team from then on, and nothing checks that the caller belongs to it |
| InvitationRoute.Get | app/api/invitation/route.ts:9-92 | the responses in the handler's order; a team id outside the INT4 column range is a validation error; a new membership row only for a logged-in user, an existing team and no existing row, after which the user is among the team's members; no member limit and no e-mail check |
| InvitationRoute.RedeemIgnoresCap | app/api/invitation/route.ts:59-66 | redeeming into a team of five members leaves it above the limit `addTeamMember` enforces |
| Signup.CreateUser | app/signup/action.ts:14-51 | UserAlreadyExists for a taken e-mail; UnknownError when the insert fails on the id; otherwise the new unverified user holding the code |
| Signup.SignUp | app/signup/action.ts:53-120 | InvalidCredentials for a form that does not parse (the password minimum counted in UTF-16 units); otherwise `createUser` on the lower-cased e-mail, and on success a link with `{ email, userId, verificationToken }` |
| LoginAction.CheckCredentials | app/login/action.ts:15-63 | success exactly when the form parses (the password minimum counted in UTF-16 units) and the password matches a verified account; EmailNotVerified exactly when it matches an unverified one; InvalidCredentials otherwise |
| LoginAction.NewAccountIsNotVerified | app/login/action.ts:52-63 | logging in with the credentials of an account `signup` just created is refused with EmailNotVerified |
| LoginAction.Login | app/login/action.ts:11-85 | the outcome of the checks; only on success a session for the user, whose cookie then authenticates as that user |
| LoginAction.SignOut | app/login/action.ts:87-101 | 'Unauthorized' without a session; otherwise the session is removed, the cookie no longer authenticates, and the action redirects to '/login' |
| VerifyEmailRoute.Get | app/api/verify-email/route.ts:9-83 | the responses in the handler's order; a match marks the user verified, clears the code and starts a session; a token with an e-mail but no user id verifies the user and then fails with no session started; every other refusal changes nothing |
| VerifyEmailRoute.VisitTwice | app/api/verify-email/route.ts:34-65 | a mailed link visited twice: as written both visits log the user in; with the intended filter the second visit is refused |
| VerifyEmailRoute.LinkStillMatchesAfterVerification | app/api/verify-email/route.ts:34-40 | as written the link still matches its user after verification |
| VerifyEmailRoute.IntendedLinkMatchesItsUser | app/api/verify-email/route.ts:34-40 | under the intended filter a link matches exactly the user it names, while that user still holds the code |
| VerifyEmailRoute.IntendedLinkIsSingleUse | app/api/verify-email/route.ts:53-62 | under the intended filter a used link matches no one |
| InvitationAction.CreateUser | app/invitation/action.ts:13-36 | UnknownError when the e-mail or the id is taken; otherwise a verified user without a code |
| InvitationAction.Authenticate | app/invitation/action.ts:38-98 | InvalidCredentials for a bad form; UnknownError for a failed insert; the user is kept even when a NaN team id, or one outside the INT4 column range, gives InvalidCredentials; otherwise the user joins the team if there is room, is logged in and redirected to '/' |
| InvitationAction.JoinAndLogIn | app/invitation/action.ts:60-85 | a team id outside the INT4 column range makes the member count throw: InvalidCredentials and no session; otherwise a refusal from `addTeamMember` is ignored, and the session and the redirect follow either way |

## Left out

- lib/auth/lucia.ts is not part of this model. Sessions are a table from
  session id to user id, with no expiry.
- Cookies are left out. `setAuthCookie` and the blank cookie are not modelled;
  a request names its session directly.
- E-mail sending through Resend is left out. The link payload is returned
  instead, and the outcome of the send is ignored, as the code ignores it.
- JWT signing and verification are left out. The payload is signed as a
  record, and `jwt.verify` is a parameter that gives the decoded payload or an
  error message.
- `revalidatePath` and `refreshHistory` are left out. They only touch Next.js's
  cache and routing.
- Transport failures and timeouts of either store are left out. The
  `try`/`catch` around `getChats` is reached through them and through an
  empty listing, where `exec()` of a pipeline with no commands throws. The
  result is `[]` on both paths, as `FetchAll` of an empty listing is here.
- Concurrency is left out. Pipelines and the action sequence run atomically
  and one at a time here, so the race between the member count and the insert
  in `addTeamMember` is not modelled.
- The Next.js `redirect('/')` inside the `try` at app/invitation/action.ts:85
  is modelled as a result value. In Next.js the redirect is thrown, and this
  `catch` would turn it into InvalidCredentials.
- `createdAt`, `updatedAt` and the other timestamp columns are left out. The
  prisma/zod schemas serve only for the fields of the rows.
- lib/types.ts is not part of this model. A chat is an id plus its remaining
  fields, as one value.
- Text.ToLower: lower-cases ASCII letters only, because Unicode case mapping is
  outside the model.
- Text.ParseInt: accepts an optional '-' or '+' followed by decimal digits. Every
  other string counts as `NaN`. JavaScript's `Number` also accepts surrounding
  whitespace, hexadecimal, exponents and decimals, and reads a blank or
  whitespace-only string as 0. A decimal such as "1.5" gives InvalidCredentials
  in `authenticate` either way, because Prisma refuses a non-integer id. An
  exponent form such as "1e3", hexadecimal, an integer-valued decimal such as
  "1.0", whitespace-padded digits and a whitespace-only string such as "  " are
  ids for `Number` but `NaN` here, so `authenticate` refuses them where the
  code would go on to `addTeamMember` and log the user in.
- ChatStore.HmSet: replaces the whole hash. HMSET merges fields into an existing
  hash, and a chat saved again always carries every field.
- Actions.DeductCreditFromTeam: the balance is an unbounded integer, so the
  32-bit limit of the `Int` column is not modelled.
- Actions.GetCreditsForTeam: a team id outside the INT4 range is treated as an
  ordinary missing id (0 credits), where Prisma would throw a validation error.
- Actions.GetTeamOwnerEmail: a team id outside the INT4 range gives '', where
  Prisma would throw a validation error.
- Actions.InviteTeamMember: a team id outside the INT4 range gives 'Team not
  found', where Prisma would throw a validation error.
- Actions.DeductCreditFromTeam: a team id outside the INT4 range fails as a
  missing team (RecordNotFound), where Prisma would report a validation error.
- Actions.GetTeamMembers: a team id outside the INT4 range lists no one, where
  Prisma would throw a validation error. It returns a set of users. `findMany` returns one
  `{ user }` object per row, in database order.
- Actions.GetTeams: the order within the owned teams and within the joined
  teams is the database's, so it is left unspecified.
- Backend.Consistent: does not state that wallet ids are unique. Ids are taken
  from one counter, and no operation relies on their uniqueness.

## Findings

| source | as written | input that shows it | evidently intended | confidence | as-written member | corrected member |
|---|---|---|---|---|---|---|
| app/api/verify-email/route.ts:38 | the lookup compares the stored code with the token's `code` claim; `signup` signs the code as `verificationToken` (app/signup/action.ts:82), so that claim is undefined and Prisma drops the condition | the link `signup` mails, `{ email, userId, verificationToken }`, visited a second time after verification: it still matches, and the handler starts another session | compare with the `verificationToken` claim, so a link works once and only while its code is stored | not executed | VerifyEmailRoute.LinkStillMatchesAfterVerification | VerifyEmailRoute.IntendedLinkIsSingleUse |

`VerifyEmailRoute.Get` takes the claim it reads as a parameter.

- `AsWritten` reads `code`, as the route does.
- `Intended` reads `verificationToken`.

`VerifyEmailRoute.VisitTwice` calls the handler twice with one link.

- Under `AsWritten`, both visits end in a redirect with a new session.
- Under `Intended`, the second visit gets 'Invalid token'.

/**
 * The records both stores hold and the values the server actions return.
 * Field shapes follow the generated schemas (prisma/zod/user.ts, team.ts,
 * creditwallet.ts, teammember.ts); the `createdAt`/`updatedAt` timestamps are
 * left out because no modelled operation reads them.
 */
module Records {
  import opened Wrappers

  datatype User = User(
    id: string,
    name: Option<string>,
    email: string,
    hashedPassword: string,
    isEmailVerified: bool,
    verificationToken: Option<string>,
    currentTeamId: Option<int>)

  datatype Team = Team(id: int, name: string, ownerId: string)

  /** One wallet per team, holding the team's integer credit balance. */
  datatype CreditWallet = CreditWallet(id: int, teamId: int, balance: int)

  /** The only role the modelled code writes is `MEMBER`. */
  datatype Role = MEMBER

  /** A membership row; `(userId, teamId)` is its primary key. */
  datatype TeamMember = TeamMember(userId: string, teamId: int, role: Role)

  /**
   * A chat transcript as stored in the key-value store. Only `id` is read by
   * the modelled code; the remaining fields are carried as one opaque value.
   */
  datatype Chat = Chat(id: string, content: string)

  /**
   * The payload of a JSON Web Token, restricted to the claim names the server
   * signs or reads. An absent claim is `None` (JavaScript's `undefined`).
   * The sign-up action signs `email`, `userId` and `verificationToken`; the
   * invitation action signs `email` and `teamId`; the e-mail verification route
   * reads `email`, `userId` and `code`.
   */
  datatype Payload = Payload(
    email: Option<string>,
    teamId: Option<int>,
    userId: Option<string>,
    code: Option<string>,
    verificationToken: Option<string>)

  /** The failures of the relational store that the modelled code can meet. */
  datatype DbError =
    | RecordNotFound       // an update whose `where` matches no row
    | UniqueViolation      // Prisma error P2002
    | ForeignKeyViolation  // a row that references a missing user or team
    | ValidationError      // an undefined required argument, or a value outside its column's range

  /** Results of the server actions in app/actions.ts and of `signOut`. */
  datatype ActionResult =
    | Done                  // the action returned `undefined`
    | Error(msg: string)    // the action returned `{ error: msg }`
    | Redirect(path: string)
    | Thrown(cause: DbError) // a store error the action does not catch

  /** The `resultCode` values of the form actions. */
  datatype ResultCode =
    | InvalidCredentials
    | UserAlreadyExists
    | UserCreated
    | UnknownError
    | UserLoggedIn
    | EmailNotVerified
    | VerificationEmailSent

  /** `{ type: 'success' | 'error', resultCode }`, or a redirect. */
  datatype FormResult =
    | Succeeded(code: ResultCode)
    | Failed(code: ResultCode)
    | FormRedirect(path: string)

  /** The responses of the two route handlers. */
  datatype Response =
    | BadRequest(error: string)          // status 400, body `{ error }`
    | BadRequestFromException(cause: DbError) // status 400 carrying the error's message
    | Found(location: string)            // status 302
}

/**
 * The sign-up form action of app/signup/action.ts: validate, lower-case the
 * e-mail, insert an unverified user holding a verification code, and mail a
 * signed link to the verification route.
 */
module Signup {
  import opened Wrappers
  import opened Text
  import opened Records
  import opened Backend

  /** The row `createUser` inserts; the other columns take their defaults. */
  function NewUser(email: string, hashedPassword: string, userId: string, verificationToken: string): User {
    User(userId, None, email, hashedPassword, false, Some(verificationToken), None)
  }

  /** The payload `signup` signs into the verification link. */
  function VerificationPayload(email: string, userId: string, verificationToken: string): Payload {
    Payload(Some(email), None, Some(userId), None, Some(verificationToken))
  }

  /**
   * `createUser`: UserAlreadyExists when the e-mail is taken; otherwise the
   * insert, which fails (UnknownError) when the generated id is taken.
   */
  method CreateUser(st: Stores, email: string, hashedPassword: string, userId: string, verificationToken: string)
    returns (r: FormResult)
    requires st.Valid()
    modifies st`users
    ensures st.Valid()
    ensures EmailInUse(old(st.users), email) ==>
      r == Failed(UserAlreadyExists) && st.users == old(st.users)
    ensures !EmailInUse(old(st.users), email) && userId in old(st.users) ==>
      r == Failed(UnknownError) && st.users == old(st.users)
    ensures !EmailInUse(old(st.users), email) && userId !in old(st.users) ==>
      && r == Succeeded(UserCreated)
      && st.users == old(st.users)[userId := NewUser(email, hashedPassword, userId, verificationToken)]
  {
    var existing := FindUserByEmail(st.users, email);
    if existing.Some? {
      return Failed(UserAlreadyExists);
    }
    if userId in st.users {
      return Failed(UnknownError);
    }
    st.users := st.users[userId := NewUser(email, hashedPassword, userId, verificationToken)];
    r := Succeeded(UserCreated);
  }

  /**
   * `signup`: InvalidCredentials when the form does not parse; otherwise the
   * result of `createUser` on the lower-cased e-mail, where success mails
   * the signed link (the send's outcome is ignored) and reports
   * VerificationEmailSent, and a failure passes its code through.
   * `hash`, `userId` and `verificationToken` stand for `hashPassword` and the
   * two `generateId` calls.
   */
  method SignUp(st: Stores, email: Option<string>, password: Option<string>, isEmail: string -> bool,
                hash: string -> string, userId: string, verificationToken: string)
    returns (r: FormResult, mail: Option<Payload>)
    requires st.Valid()
    modifies st`users
    ensures st.Valid()
    ensures r != Succeeded(VerificationEmailSent) ==> mail.None?
    ensures !CredentialsParse(email, password, isEmail) ==>
      r == Failed(InvalidCredentials) && st.users == old(st.users)
    ensures CredentialsParse(email, password, isEmail) ==>
      var e := ToLower(email.value);
      if EmailInUse(old(st.users), e) then
        r == Failed(UserAlreadyExists) && st.users == old(st.users)
      else if userId in old(st.users) then
        r == Failed(UnknownError) && st.users == old(st.users)
      else
        && r == Succeeded(VerificationEmailSent)
        && mail == Some(VerificationPayload(e, userId, verificationToken))
        && st.users == old(st.users)[userId := NewUser(e, hash(password.value), userId, verificationToken)]
  {
    mail := None;
    if !CredentialsParse(email, password, isEmail) {
      return Failed(InvalidCredentials), None;
    }
    var e := ToLower(email.value);
    var created := CreateUser(st, e, hash(password.value), userId, verificationToken);
    if created == Succeeded(UserCreated) {
      return Succeeded(VerificationEmailSent), Some(VerificationPayload(e, userId, verificationToken));
    }
    r := Failed(created.code);
  }
}

/**
 * The account actions of controllers/auth.js: log in, log out, sign up, and
 * the two-phase password reset. The password hash, the clock and the random
 * bytes of a reset token are parameters; the request has already passed the
 * validator chains of AuthRoutes, whose first error the controller reports.
 */
module AuthController {
  import opened Optional
  import opened Hex
  import opened JsText
  import opened UserModel
  import opened Http
  import opened AuthRoutes

  /** bcrypt's `hash` and `compare`, left uninterpreted. */
  datatype Hasher = Hasher(hash: string -> string, verify: (string, string) -> bool)

  /** A password verifies against its own hash. */
  ghost predicate Sound(h: Hasher) {
    forall pw :: h.verify(pw, h.hash(pw))
  }

  /**
   * A hash verifies no password other than the one it was made from. bcrypt
   * reads only the first 72 bytes of a password, so it is binding only on
   * passwords that differ within them; lemmas that need this say so.
   */
  ghost predicate Binding(h: Hasher) {
    forall pw, other :: h.verify(pw, h.hash(other)) ==> pw == other
  }

  /** The session keeps a snapshot of the logged-in user's record. */
  datatype SessionUser = SessionUser(id: UserId, record: User)

  datatype Session = Session(isLoggedIn: bool, user: Option<SessionUser>)

  /** The request's session after the action; `None` once it has been destroyed. */
  datatype SessionOutcome = SessionOutcome(session: Option<Session>, response: Response)

  datatype StoreOutcome = StoreOutcome(users: Users, response: Response)

  const InvalidCredentialsMsg: string := "Invalid email or password."
  const AccountNotFoundMsg: string := "Email account not found."

  /** How long a reset token stays usable, in milliseconds (one hour). */
  const ResetTokenLifetime: int := 3600000

  /** What the views read as `isAuthenticated` (app.js:49). */
  predicate IsAuthenticated(session: Option<Session>) {
    session.Some? && session.value.isLoggedIn
  }

  /**
   * `postLogIn`. A validation error is reported as is. An unknown email and a
   * wrong password are answered identically with status 422, and the session
   * is left as it was; a verified password logs the found user in.
   */
  function PostLogIn(users: Users, h: Hasher, rules: EmailRules, email: string, password: string, session: Option<Session>): (r: SessionOutcome)
    ensures ValidateLogIn(rules, email, password) != [] ==>
              r == SessionOutcome(session, Unprocessable(ValidateLogIn(rules, email, password)[0].msg))
    ensures r.response.Unprocessable? || r.response == Redirect("/")
    ensures r.response.Unprocessable? ==> r.session == session
    ensures r.response == Redirect("/") ==>
              && ValidateLogIn(rules, email, password) == []
              && r.session.Some? && r.session.value.isLoggedIn && r.session.value.user.Some?
              && var su := r.session.value.user.value;
                 && su.id in users && su.record == users[su.id]
                 && su.record.email == rules.normalize(email)
                 && h.verify(Trim(password), su.record.password)
  {
    var errors := ValidateLogIn(rules, email, password);
    if errors != [] then SessionOutcome(session, Unprocessable(errors[0].msg))
    else match FindOne(users, EmailIs(rules.normalize(email)))
      case None => SessionOutcome(session, Unprocessable(InvalidCredentialsMsg))
      case Some(id) =>
        if h.verify(Trim(password), users[id].password)
        then SessionOutcome(Some(Session(true, Some(SessionUser(id, users[id])))), Redirect("/"))
        else SessionOutcome(session, Unprocessable(InvalidCredentialsMsg))
  }

  /** Unknown email and wrong password cannot be told apart by the answer, and neither touches the session. */
  lemma LogInFailuresLookAlike(users: Users, h: Hasher, rules: EmailRules, email: string, password: string, session: Option<Session>)
    requires ValidateLogIn(rules, email, password) == []
    requires !EmailInUse(users, rules.normalize(email))
             || forall id :: id in users && users[id].email == rules.normalize(email)
                             ==> !h.verify(Trim(password), users[id].password)
    ensures PostLogIn(users, h, rules, email, password, session) == SessionOutcome(session, Unprocessable(InvalidCredentialsMsg))
  {
    var found := FindOne(users, EmailIs(rules.normalize(email)));
    if found.Some? {
      assert users[found.value].email == rules.normalize(email);
    }
  }

  /** With distinct emails, valid credentials of a stored user always log that user in. */
  lemma LogInSucceedsForStoredCredentials(users: Users, h: Hasher, rules: EmailRules, id: UserId, email: string, password: string, session: Option<Session>)
    requires UniqueEmails(users) && id in users
    requires ValidateLogIn(rules, email, password) == []
    requires rules.normalize(email) == users[id].email && h.verify(Trim(password), users[id].password)
    ensures PostLogIn(users, h, rules, email, password, session)
            == SessionOutcome(Some(Session(true, Some(SessionUser(id, users[id])))), Redirect("/"))
  {
    FindByUniqueEmail(users, id);
  }

  /** `postLogOut`: the session is destroyed whatever it held. */
  function PostLogOut(session: Option<Session>): (r: SessionOutcome)
    ensures !IsAuthenticated(r.session) && r.session.None?
    ensures r.response == Redirect("/")
  {
    SessionOutcome(None, Redirect("/"))
  }

  lemma LogOutIdempotent(session: Option<Session>)
    ensures PostLogOut(PostLogOut(session).session) == PostLogOut(session)
  {
  }

  /**
   * `postSignUp`: after validation, one new user is stored under the fresh
   * id the store hands out, with the normalized email, the hash of the
   * trimmed password, and no reset token.
   */
  function PostSignUp(users: Users, h: Hasher, rules: EmailRules, newId: UserId, email: string, password: string, confirmPassword: string): (r: StoreOutcome)
    requires newId !in users
    ensures ValidateSignUp(rules, users, email, password, confirmPassword) != [] ==>
              r == StoreOutcome(users, Unprocessable(ValidateSignUp(rules, users, email, password, confirmPassword)[0].msg))
    ensures ValidateSignUp(rules, users, email, password, confirmPassword) == [] ==>
              && r.response == Redirect("/log-in")
              && r.users.Keys == users.Keys + {newId}
              && r.users[newId].email == rules.normalize(email)
              && r.users[newId].password == h.hash(Trim(password))
              && ResetStateOf(r.users[newId]) == NoReset
    ensures forall id :: id in users ==> id in r.users && r.users[id] == users[id]
  {
    var errors := ValidateSignUp(rules, users, email, password, confirmPassword);
    if errors != [] then StoreOutcome(users, Unprocessable(errors[0].msg))
    else
      var user := User(rules.normalize(email), h.hash(Trim(password)), None, None);
      StoreOutcome(users[newId := user], Redirect("/log-in"))
  }

  /** Signing up with an email already held changes nothing. */
  lemma SignUpRejectsDuplicate(users: Users, h: Hasher, rules: EmailRules, newId: UserId, email: string, password: string, confirmPassword: string)
    requires newId !in users && EmailInUse(users, rules.normalize(email))
    ensures var r := PostSignUp(users, h, rules, newId, email, password, confirmPassword);
            r.users == users
            && r.response == Unprocessable(if rules.isEmail(rules.normalize(email)) then EmailInUseMsg else InvalidEmailMsg)
  {
  }

  /** Signup keeps emails distinct and reset fields paired. */
  lemma SignUpKeepsInvariants(users: Users, h: Hasher, rules: EmailRules, newId: UserId, email: string, password: string, confirmPassword: string)
    requires newId !in users && UniqueEmails(users) && AllTokensConsistent(users)
    ensures var r := PostSignUp(users, h, rules, newId, email, password, confirmPassword);
            UniqueEmails(r.users) && AllTokensConsistent(r.users)
  {
  }

  /** Whoever has just signed up can log in with the same email and password. */
  lemma SignUpThenLogIn(users: Users, h: Hasher, rules: EmailRules, newId: UserId, email: string, password: string, confirmPassword: string, session: Option<Session>)
    requires Sound(h) && newId !in users && UniqueEmails(users) && AllTokensConsistent(users)
    requires ValidateSignUp(rules, users, email, password, confirmPassword) == []
    ensures var stored := PostSignUp(users, h, rules, newId, email, password, confirmPassword).users;
            PostLogIn(stored, h, rules, email, password, session)
            == SessionOutcome(Some(Session(true, Some(SessionUser(newId, stored[newId])))), Redirect("/"))
  {
    var stored := PostSignUp(users, h, rules, newId, email, password, confirmPassword).users;
    SignUpKeepsInvariants(users, h, rules, newId, email, password, confirmPassword);
    SignUpValidImpliesLogInValid(rules, users, email, password, confirmPassword);
    assert h.verify(Trim(password), stored[newId].password);
    LogInSucceedsForStoredCredentials(stored, h, rules, newId, email, password, session);
  }

  /**
   * `postReset`. A failure of the random source sends the requester back to
   * the form. Otherwise the token is the hexadecimal rendering of the 32
   * random bytes; an unknown email is reported through a flash message, and
   * a known one gets the token and an expiry one hour from `now`, with no
   * other field or user touched.
   */
  function PostReset(users: Users, email: string, entropy: Option<seq<Byte>>, now: int): (r: StoreOutcome)
    requires entropy.Some? ==> |entropy.value| == TokenBytes
    ensures entropy.None? ==> r == StoreOutcome(users, Redirect("/reset"))
    ensures entropy.Some? && !EmailInUse(users, email) ==>
              r == StoreOutcome(users, RedirectWithFlash("/reset", AccountNotFoundMsg))
    ensures entropy.Some? && EmailInUse(users, email) ==>
              && r.response == Redirect("/")
              && r.users.Keys == users.Keys
              && exists id :: id in users && users[id].email == email && PendingResetOf(users, r.users, id, entropy.value, now)
  {
    match entropy
    case None => StoreOutcome(users, Redirect("/reset"))
    case Some(buffer) =>
      var token := ResetToken(buffer);
      match FindOne(users, EmailIs(email))
      case None => StoreOutcome(users, RedirectWithFlash("/reset", AccountNotFoundMsg))
      case Some(id) =>
        var u := users[id].(resetToken := Some(token), resetTokenExpiration := Some(now + ResetTokenLifetime));
        StoreOutcome(users[id := u], Redirect("/"))
  }

  /**
   * `after` is `before` with only user `id` moved to the pending reset state,
   * holding the token made from `buffer` and expiring one hour after `now`.
   */
  predicate PendingResetOf(before: Users, after: Users, id: UserId, buffer: seq<Byte>, now: int)
    requires |buffer| == TokenBytes
  {
    && id in before && id in after
    && after[id].email == before[id].email
    && after[id].password == before[id].password
    && ResetStateOf(after[id]) == Pending(ResetToken(buffer), now + ResetTokenLifetime)
    && forall k :: k in before && k != id ==> k in after && after[k] == before[k]
  }

  /**
   * `getNewPassword`: the form is shown for the user whose token is still
   * valid. The handler does not check for a failed lookup; that case ends on
   * the error path.
   */
  function GetNewPassword(users: Users, token: string, now: int): (r: Response)
    ensures r.ServerError? || r.NewPasswordForm?
    ensures r.NewPasswordForm? ==> r.token == token && r.userId in users && TokenValid(users[r.userId], token, now)
    ensures r.ServerError? <==> forall id :: id in users ==> !TokenValid(users[id], token, now)
  {
    match FindOne(users, TokenValidAt(token, now))
    case None => ServerError
    case Some(id) => NewPasswordForm(id, token)
  }

  /**
   * `after` is `before` with only user `id` changed: its password replaced by
   * `password` and no reset pending any more.
   */
  predicate ResetCompleted(before: Users, after: Users, id: UserId, password: string) {
    && id in before && after.Keys == before.Keys
    && after[id].email == before[id].email
    && after[id].password == password
    && ResetStateOf(after[id]) == NoReset
    && forall k :: k in before && k != id ==> after[k] == before[k]
  }

  /**
   * `postNewPassword`, as written, on the request body as parsed: the
   * `userId` and `passwordToken` fields go into the lookup unchanged, so a
   * JSON body can put a query operator where a string was expected. The new
   * password is hashed as submitted (no route validator applies) and both
   * reset fields are cleared. The handler does not check for a failed
   * lookup; that case ends on the error path with the store untouched.
   */
  function PostNewPasswordBody(users: Users, h: Hasher, newPassword: string, userId: FieldFilter<UserId>, token: FieldFilter<string>, now: int): (r: StoreOutcome)
    ensures r.response == Redirect("/log-in") || r == StoreOutcome(users, ServerError)
    ensures r.response.ServerError? <==> forall id :: id in users ==> !Matches(ResetFor(token, now, userId), id, users[id])
    ensures r.response == Redirect("/log-in") ==>
              exists id :: id in users && Matches(ResetFor(token, now, userId), id, users[id])
                           && ResetCompleted(users, r.users, id, h.hash(newPassword))
  {
    match FindOne(users, ResetFor(token, now, userId))
    case None => StoreOutcome(users, ServerError)
    case Some(id) =>
      var u := users[id].(password := h.hash(newPassword), resetToken := None, resetTokenExpiration := None);
      StoreOutcome(users[id := u], Redirect("/log-in"))
  }

  /**
   * `postNewPassword` on a submitted form, whose fields are strings: the
   * token must be valid for the submitted user id at `now`.
   */
  function PostNewPassword(users: Users, h: Hasher, newPassword: string, userId: UserId, token: string, now: int): (r: StoreOutcome)
    ensures !(userId in users && TokenValid(users[userId], token, now)) ==> r == StoreOutcome(users, ServerError)
    ensures userId in users && TokenValid(users[userId], token, now) ==>
              && r.response == Redirect("/log-in")
              && r.users.Keys == users.Keys
              && r.users[userId].email == users[userId].email
              && r.users[userId].password == h.hash(newPassword)
              && ResetStateOf(r.users[userId]) == NoReset
    ensures forall k :: k in users && k != userId ==> k in r.users && r.users[k] == users[k]
  {
    FindTokenForId(users, token, now, userId);
    PostNewPasswordBody(users, h, newPassword, Equals(userId), Equals(token), now)
  }

  /**
   * Account takeover through the JSON body: anyone may request a reset for
   * another user's email, and then complete it by sending `{"$ne": null}`
   * as the token, never having seen the emailed one. The new password then
   * logs them in as that user.
   */
  lemma OperatorTokenTakesOver(users: Users, h: Hasher, rules: EmailRules, email: string, buffer: seq<Byte>, now: int,
                               newPassword: string, later: int, session: Option<Session>)
    requires Sound(h) && UniqueEmails(users) && AllTokensConsistent(users)
    requires |buffer| == TokenBytes && EmailInUse(users, rules.normalize(email))
    requires ValidateLogIn(rules, email, newPassword) == [] && Trim(newPassword) == newPassword
    requires later < now + ResetTokenLifetime
    ensures var requested := PostReset(users, rules.normalize(email), Some(buffer), now).users;
            var id := FindOne(users, EmailIs(rules.normalize(email))).value;
            var done := PostNewPasswordBody(requested, h, newPassword, Equals(id), NotNull, later);
            && done.response == Redirect("/log-in")
            && PostLogIn(done.users, h, rules, email, newPassword, session)
               == SessionOutcome(Some(Session(true, Some(SessionUser(id, done.users[id])))), Redirect("/"))
  {
    var e := rules.normalize(email);
    var id := FindOne(users, EmailIs(e)).value;
    ResetRequestKeepsInvariants(users, e, Some(buffer), now);
    var requested := PostReset(users, e, Some(buffer), now).users;
    FindPendingWithoutToken(requested, later, id);
    var done := PostNewPasswordBody(requested, h, newPassword, Equals(id), NotNull, later);
    assert done.users == requested[id := requested[id].(password := h.hash(newPassword), resetToken := None, resetTokenExpiration := None)];
    assert UniqueEmails(done.users);
    assert h.verify(Trim(newPassword), done.users[id].password);
    LogInSucceedsForStoredCredentials(done.users, h, rules, id, email, newPassword, session);
  }

  /** The reset lifecycle: a request makes the token usable for exactly one hour, measured strictly. */
  lemma ResetRequestOpensOneHourWindow(users: Users, email: string, buffer: seq<Byte>, now: int, t: int)
    requires |buffer| == TokenBytes && EmailInUse(users, email)
    ensures var r := PostReset(users, email, Some(buffer), now);
            var id := FindOne(users, EmailIs(email)).value;
            FindOne(r.users, ResetFor(Equals(ResetToken(buffer)), t, Equals(id))).Some? <==> t < now + ResetTokenLifetime
  {
    var r := PostReset(users, email, Some(buffer), now);
    var id := FindOne(users, EmailIs(email)).value;
    FindTokenForId(r.users, ResetToken(buffer), t, id);
  }

  /** A token is single-use: once a reset completes, the same token can neither open the form for that user nor complete again. */
  lemma ResetTokenSingleUse(users: Users, h: Hasher, newPassword: string, userId: UserId, token: string, now: int,
                            later: int, otherPassword: string)
    requires userId in users && TokenValid(users[userId], token, now)
    ensures var r := PostNewPassword(users, h, newPassword, userId, token, now);
            && PostNewPassword(r.users, h, otherPassword, userId, token, later) == StoreOutcome(r.users, ServerError)
            && GetNewPassword(r.users, token, later) != NewPasswordForm(userId, token)
  {
  }

  /** Completing a reset with a token at or past its expiry, or for another user, fails and changes nothing. */
  lemma StaleResetFails(users: Users, h: Hasher, newPassword: string, userId: UserId, token: string, now: int)
    requires userId in users && users[userId].resetTokenExpiration.Some?
    requires now >= users[userId].resetTokenExpiration.value || users[userId].resetToken != Some(token)
    ensures PostNewPassword(users, h, newPassword, userId, token, now) == StoreOutcome(users, ServerError)
  {
  }

  /** A reset request keeps emails distinct and reset fields paired. */
  lemma ResetRequestKeepsInvariants(users: Users, email: string, entropy: Option<seq<Byte>>, now: int)
    requires entropy.Some? ==> |entropy.value| == TokenBytes
    requires UniqueEmails(users) && AllTokensConsistent(users)
    ensures var r := PostReset(users, email, entropy, now);
            UniqueEmails(r.users) && AllTokensConsistent(r.users)
  {
  }

  /** A reset completion keeps emails distinct and reset fields paired. */
  lemma ResetCompletionKeepsInvariants(users: Users, h: Hasher, newPassword: string, userId: FieldFilter<UserId>, token: FieldFilter<string>, now: int)
    requires UniqueEmails(users) && AllTokensConsistent(users)
    ensures var r := PostNewPasswordBody(users, h, newPassword, userId, token, now);
            UniqueEmails(r.users) && AllTokensConsistent(r.users)
  {
  }

  /**
   * The corrected completion: the new password goes through the same trim
   * and minimum-length rule as at signup before it is hashed, so it is one
   * that login accepts.
   */
  function PostNewPasswordChecked(users: Users, h: Hasher, newPassword: string, userId: UserId, token: string, now: int): (r: StoreOutcome)
    ensures |Trim(newPassword)| < MinPasswordLength ==> r == StoreOutcome(users, Unprocessable(ShortPasswordMsg))
    ensures |Trim(newPassword)| >= MinPasswordLength && !(userId in users && TokenValid(users[userId], token, now)) ==>
              r == StoreOutcome(users, ServerError)
    ensures |Trim(newPassword)| >= MinPasswordLength && userId in users && TokenValid(users[userId], token, now) ==>
              r.response == Redirect("/log-in")
    ensures r.response == Redirect("/log-in") ==>
              && userId in users && TokenValid(users[userId], token, now)
              && r.users.Keys == users.Keys
              && r.users[userId].email == users[userId].email
              && r.users[userId].password == h.hash(Trim(newPassword))
              && ResetStateOf(r.users[userId]) == NoReset
    ensures forall k :: k in users && k != userId ==> k in r.users && r.users[k] == users[k]
  {
    if |Trim(newPassword)| < MinPasswordLength then StoreOutcome(users, Unprocessable(ShortPasswordMsg))
    else PostNewPassword(users, h, Trim(newPassword), userId, token, now)
  }

  /**
   * The corrected completion on the request body as parsed: a `userId` or
   * `passwordToken` that is not a plain value is refused like a failed
   * lookup, before any query runs; plain values go through the checked
   * completion. A reset therefore completes only for a caller who presents
   * the user's own unexpired token.
   */
  function PostNewPasswordStrict(users: Users, h: Hasher, newPassword: string, userId: FieldFilter<UserId>, token: FieldFilter<string>, now: int): (r: StoreOutcome)
    ensures r.response == Redirect("/log-in") <==>
              && userId.Equals? && token.Equals? && |Trim(newPassword)| >= MinPasswordLength
              && userId.value in users && TokenValid(users[userId.value], token.value, now)
    ensures r.response == Redirect("/log-in") ==> ResetCompleted(users, r.users, userId.value, h.hash(Trim(newPassword)))
    ensures r.response != Redirect("/log-in") ==> r.users == users
    ensures userId.NotNull? || token.NotNull? ==> r == StoreOutcome(users, ServerError)
  {
    if userId.NotNull? || token.NotNull? then StoreOutcome(users, ServerError)
    else PostNewPasswordChecked(users, h, newPassword, userId.value, token.value, now)
  }

  /**
   * The full reset round trip on the corrected completion: a request, then a
   * completion with the emailed token within the hour, after which the new password logs the user in
   * and (for a binding hash) the old one no longer does.
   */
  lemma ResetThenLogIn(users: Users, h: Hasher, rules: EmailRules, email: string, buffer: seq<Byte>, now: int,
                       newPassword: string, oldPassword: string, later: int, session: Option<Session>)
    requires Sound(h) && UniqueEmails(users) && AllTokensConsistent(users)
    requires |buffer| == TokenBytes && EmailInUse(users, rules.normalize(email))
    requires ValidateLogIn(rules, email, newPassword) == [] && later < now + ResetTokenLifetime
    ensures var requested := PostReset(users, rules.normalize(email), Some(buffer), now).users;
            var id := FindOne(users, EmailIs(rules.normalize(email))).value;
            var done := PostNewPasswordStrict(requested, h, newPassword, Equals(id), Equals(ResetToken(buffer)), later);
            && done.response == Redirect("/log-in")
            && PostLogIn(done.users, h, rules, email, newPassword, session)
               == SessionOutcome(Some(Session(true, Some(SessionUser(id, done.users[id])))), Redirect("/"))
            && (Binding(h) && Trim(oldPassword) != Trim(newPassword) ==>
                  PostLogIn(done.users, h, rules, email, oldPassword, session).response.Unprocessable?)
  {
    var e := rules.normalize(email);
    var token := ResetToken(buffer);
    var id := FindOne(users, EmailIs(e)).value;
    ResetRequestKeepsInvariants(users, e, Some(buffer), now);
    var requested := PostReset(users, e, Some(buffer), now).users;
    assert TokenValid(requested[id], token, later);
    ResetCompletionKeepsInvariants(requested, h, Trim(newPassword), Equals(id), Equals(token), later);
    var done := PostNewPasswordStrict(requested, h, newPassword, Equals(id), Equals(token), later);
    assert h.verify(Trim(newPassword), done.users[id].password);
    LogInSucceedsForStoredCredentials(done.users, h, rules, id, email, newPassword, session);
    if Binding(h) && Trim(oldPassword) != Trim(newPassword) {
      if ValidateLogIn(rules, email, oldPassword) == [] {
        LogInFailuresLookAlike(done.users, h, rules, email, oldPassword, session);
      }
    }
  }

  /**
   * The as-written completion accepts a password that login will never
   * accept: after resetting to "ab", every login attempt with "ab" fails
   * validation, so the user is locked out.
   */
  lemma ShortResetPasswordLocksOut(users: Users, h: Hasher, rules: EmailRules, userId: UserId, token: string, now: int,
                                   email: string, session: Option<Session>)
    requires userId in users && TokenValid(users[userId], token, now)
    requires rules.isEmail(rules.normalize(email))
    ensures var r := PostNewPassword(users, h, "ab", userId, token, now);
            && r.response == Redirect("/log-in")
            && r.users[userId].password == h.hash("ab")
            && PostLogIn(r.users, h, rules, email, "ab", session) == SessionOutcome(session, Unprocessable(InvalidPasswordMsg))
  {
    TrimUntouched("ab");
  }

  /**
   * The as-written completion hashes the password untrimmed while login
   * trims what it compares: after resetting to " abc", logging in with
   * " abc" compares "abc" against the hash of " abc", which bcrypt rejects
   * because the two differ within the 72 bytes it reads.
   */
  lemma PaddedResetPasswordLocksOut(users: Users, h: Hasher, rules: EmailRules, userId: UserId, token: string, now: int,
                                    email: string, session: Option<Session>)
    requires !h.verify("abc", h.hash(" abc")) && UniqueEmails(users) && AllTokensConsistent(users)
    requires userId in users && TokenValid(users[userId], token, now)
    requires rules.isEmail(rules.normalize(email)) && rules.normalize(email) == users[userId].email
    ensures var r := PostNewPassword(users, h, " abc", userId, token, now);
            && r.response == Redirect("/log-in")
            && r.users[userId].password == h.hash(" abc")
            && PostLogIn(r.users, h, rules, email, " abc", session) == SessionOutcome(session, Unprocessable(InvalidCredentialsMsg))
  {
    var r := PostNewPassword(users, h, " abc", userId, token, now);
    TrimPadded();
    ResetCompletionKeepsInvariants(users, h, " abc", Equals(userId), Equals(token), now);
    forall id | id in r.users && r.users[id].email == rules.normalize(email)
      ensures !h.verify(Trim(" abc"), r.users[id].password)
    {
      assert id == userId;
    }
    LogInFailuresLookAlike(r.users, h, rules, email, " abc", session);
  }
}

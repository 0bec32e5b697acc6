# Comment board with accounts — a Dafny model

This project models the behavioural core of a small Express/Mongoose web
application: a comment board on which logged-in users add, edit and delete
their own comments, read newest-first in pages of five, and the account
flows behind it — sign-up, log-in, log-out and a two-phase password reset
by emailed token.

The two persisted collections are finite maps from id to immutable record:
`Users` (email, password hash, optional reset token, optional token
expiration) and `Comments` (creation date, optional edit date, optional
content, owning user id). Both record types make the schema's required
fields (`email`, `password`, `date`, `userId`) plain fields and its optional
fields `Option`s, so a record without a required field cannot be built.
Every controller action is a pure function from the store (and, for log-in
and log-out, the request's session) to the new store and the response.
The one exception is the listing page, a method, because it sorts.

Collaborators the core does not implement are parameters:

- the clock is `now: int`, in milliseconds;
- bcrypt is a `Hasher` (`hash`, `verify`), with the assumptions `Sound` (a password verifies against its own hash) and `Binding` (a hash verifies no other password) stated where a lemma needs them. bcrypt reads only the first 72 bytes of a password, so it is binding only on passwords that differ within them: the old-password clause of `AuthController.ResetThenLogIn` is conditional on `Binding`, and `AuthController.PaddedResetPasswordLocksOut` assumes just the one instance it needs, that the hash of " abc" does not verify "abc";
- the validation library's `isEmail` and `normalizeEmail` are an `EmailRules` value;
- `crypto.randomBytes(32)` is an optional 32-byte buffer, where `None` is the entropy error the handler branches on;
- a fresh document id is an argument that the caller guarantees is not yet in the map.

`findOne` returns the least matching id, standing for the collection's
natural order. Emails are kept distinct by the sign-up validator, not by the
schema; `UniqueEmails` is the invariant this establishes.

The validation chains are modelled as the validation library's version 5
(the `express-validator/check` entry point) runs them. A chain's sanitizers
are applied before its validators, and the sanitized value is written back
into the request. So the email checks and the controllers see
`normalizeEmail(email)`, and the length checks and password hashing see
the trimmed password. Errors are collected in chain order (email, then
password, then confirmPassword), and the controller reports the first one.
The `/reset` and `/new-password` routes have no chains, so those handlers
see the raw input. Request bodies are parsed both as forms and as JSON
(app.js:33), so a field can arrive as an object rather than a string. The
model's `FieldFilter` covers the object that matters to the reset
completion: `{"$ne": null}`, which the lookup reads as an operator.

The handlers that dereference a lookup result without checking it
(`postEditComment`, `getNewPassword`, `postNewPassword`) end on the error
path with the store untouched (`ServerError`). The source's error helper
itself refers to an undefined `next`; every such fault is collapsed into
that one outcome. A negative page number makes the query's skip negative.
The store rejects that, so the listing fails (`ListingError`).

## Model

| member | source | states |
|---|---|---|
| UserModel.ResetStateOf | models/user.js:14-15 | a user has no reset pending exactly when both reset fields are absent, and has `Pending(token, expiry)` exactly when both are present |
| UserModel.FindOne | controllers/auth.js:55-57 | `findOne` yields a stored id whose record matches the filter, yields nothing exactly when no record matches, and of several matches yields the least id |
| UserModel.FindByUniqueEmail | controllers/auth.js:55 | while emails are distinct, looking up a stored user's email finds that user |
| UserModel.FindTokenForId | controllers/auth.js:230-234 | the completion lookup finds exactly the named user, and only while that user's token equals the submitted one and its expiration is later than `now` |
| UserModel.FindPendingWithoutToken | controllers/auth.js:230-234 | with `{"$ne": null}` as the token, the completion lookup for a named id finds that user exactly when any unexpired reset of theirs is pending, whatever its token |
| UserModel.TokenExpiresAtInstant | controllers/auth.js:207 | the `$gt` test is strict: at the exact instant of its expiration a token no longer matches |
| CommentModel.ListingLength | controllers/comment.js:56-62 | a newest-first listing of the comments is exactly as long as the collection the count reports |
| Hex.Encode | controllers/auth.js:178 | the hex rendering has two lower-case hex digits per byte |
| Hex.DecodeEncode | controllers/auth.js:178 | the hex rendering loses nothing: decoding it gives back the bytes |
| Hex.ResetToken | controllers/auth.js:173-178 | a reset token made from 32 random bytes is 64 lower-case hex characters and determines the bytes |
| Hex.ResetTokenInjective | controllers/auth.js:173-178 | different random buffers give different tokens |
| JsText.Trim | routes/auth.js:17-19 | the trimmed password is the infix left after dropping leading and trailing white space, and it neither starts nor ends with white space |
| JsText.TrimIdempotent | routes/auth.js:50-52 | trimming an already trimmed value changes nothing |
| JsText.ParseIntDecimal | controllers/comment.js:52 | `parseInt` reads the decimal rendering of every natural number back as that number |
| JsText.ParseIntNegativeDecimal | controllers/comment.js:52 | `parseInt` reads a minus sign followed by a decimal rendering as the negated number |
| JsText.ParseIntLetterIsNaN | controllers/comment.js:52 | a query starting with a letter is NaN to `parseInt` |
| Pagination.LastPage | controllers/comment.js:22 | the last page is the ceiling of count / 5 for a non-empty board, so the pages just hold the count, and 1 for an empty board; it is never below 1 |
| Pagination.Paginator | controllers/comment.js:14-24 | the record has items exactly when the count is positive, has a next page exactly when 5·page < count, has a previous page exactly when page > 1, reports page ± 1 as next and previous page and `LastPage(count)`, never below 1, as last page |
| Pagination.NextPageIffBeforeLast | controllers/comment.js:18-22 | for a page of at least 1 on a non-empty board, `hasNextPage` (5·page < count) holds exactly when the page is before the last page |
| Pagination.PreviousPageInRange | controllers/comment.js:19-21 | `hasPreviousPage` holds exactly when the previous page number is at least 1 |
| Pagination.Window | controllers/comment.js:63-64 | the page shows at most 5 entries, namely the consecutive listing entries starting at offset (page - 1)·5; it is short only when the listing runs out |
| Pagination.WindowsCoverListing | controllers/comment.js:63-64 | every listing entry i appears on page i / 5 + 1 at position i mod 5 |
| Pagination.WindowNonEmptyIffUpToLast | controllers/comment.js:63-64 | a page shows entries exactly when the board is non-empty and the page is not past the last page |
| Pagination.HasNextPageIffNextWindow | controllers/comment.js:18 | `hasNextPage` is announced exactly when the next page would show entries |
| CommentController.PageNumber | controllers/comment.js:52 | the page number parsed from the query, with 1 standing in for NaN and zero, is never 0 |
| CommentController.PageNumberOfDecimal | controllers/comment.js:52 | a decimal page query n selects page n, except that 0 selects page 1 |
| CommentController.PageNumberOfNegative | controllers/comment.js:52 | a query "-n" selects the negative page -n |
| CommentController.PageNumberWithoutQuery | controllers/comment.js:52 | a request without a page query shows page 1 |
| CommentController.ListNewestFirst | controllers/comment.js:60-62 | the sorted listing names every comment exactly once, with creation dates non-increasing |
| CommentController.GetComments | controllers/comment.js:50-76 | the listing fails exactly for a page below 1; otherwise it shows the window at offset (page - 1)·5 of a complete newest-first listing, each entry with its record, together with the paginator for the page and the collection count; the next page is announced exactly when the next window of the same listing holds entries |
| CommentController.PostAddComment | controllers/comment.js:33-48 | adding inserts exactly one comment dated `now`, without edit date, with the submitted content and the current user as owner; all other comments stay as they were |
| CommentController.PostEditComment | controllers/comment.js:98-117 | a missing comment fails and a non-owner is redirected home, both with the board unchanged; the owner's edit changes only that comment's content and edit date, keeping its date and owner |
| CommentController.PostDeleteComment | controllers/comment.js:120-131 | the comment is removed exactly when it exists and the current user owns it; nothing else changes |
| CommentController.EditTouchesOnlyOwnComment | controllers/comment.js:104-108 | an edit changes no comment the current user does not own |
| CommentController.DeleteTouchesOnlyOwnComment | controllers/comment.js:122-125 | a delete removes no comment the current user does not own |
| CommentController.DeleteUndoesAdd | controllers/comment.js:122-125 | deleting a comment one has just added restores the previous board |
| CommentController.ActionsKeepOwnersStored | models/comment.js:16-20 | adding, editing and deleting keep every comment's owner a stored user |
| CommentController.EditIdempotent | controllers/comment.js:107-108 | repeating the same edit at the same instant has no further effect |
| AuthRoutes.ValidateLogIn | routes/auth.js:11-20 | log-in validation passes exactly when the normalized email is an email and the trimmed password has at least 3 characters; the first error is the email's, then `'Invalid password.'` |
| AuthRoutes.ValidateSignUp | routes/auth.js:26-59 | sign-up validation passes exactly when the normalized email is an email held by no stored user, the trimmed password has at least 3 characters and the trimmed confirmation equals it; the first error follows the order email syntax, email in use, password length, confirmation |
| AuthRoutes.SignUpValidImpliesLogInValid | routes/auth.js:11-59 | credentials that pass sign-up validation pass log-in validation |
| AuthController.PostLogIn | controllers/auth.js:43-94 | a validation error is answered with status 422 and its message; every 422 leaves the session as it was; a redirect home happens only after a stored user with the normalized email verified the trimmed password, and binds the session to that user's record with `isLoggedIn` set |
| AuthController.LogInFailuresLookAlike | controllers/auth.js:55-86 | an unknown email and a wrong password get the same 422 answer `'Invalid email or password.'`, and neither touches the session |
| AuthController.LogInSucceedsForStoredCredentials | controllers/auth.js:67-72 | with distinct emails, a password that verifies against the stored hash logs exactly that user in |
| AuthController.PostLogOut | controllers/auth.js:96-100 | log-out destroys the session whatever it held, leaving the request unauthenticated, and redirects home |
| AuthController.LogOutIdempotent | controllers/auth.js:96-100 | logging out twice is the same as logging out once |
| AuthController.PostSignUp | controllers/auth.js:121-154 | a validation error is answered with status 422 and the store unchanged; otherwise exactly one user is added under the fresh id, with the normalized email, the hash of the trimmed password and no reset pending |
| AuthController.SignUpRejectsDuplicate | routes/auth.js:31-41 | signing up with an email already stored never adds a user and reports that the email is in use (or, before that, that it is malformed) |
| AuthController.SignUpKeepsInvariants | controllers/auth.js:135-142 | sign-up keeps emails distinct and every user's reset fields paired |
| AuthController.SignUpThenLogIn | controllers/auth.js:135-142 | a user who has just signed up can log in with the same email and password |
| AuthController.PostReset | controllers/auth.js:172-202 | an entropy failure sends the requester back with the store unchanged; an unknown email gets the flash `'Email account not found.'` with the store unchanged; a known email moves only that user to a pending reset with the hex token and expiry `now + 3600000`, keeping email and password |
| AuthController.ResetRequestOpensOneHourWindow | controllers/auth.js:185-186 | after a reset request the token completes a reset for that user at time t exactly when t is before `now + 3600000` |
| AuthController.GetNewPassword | controllers/auth.js:205-223 | the form is bound to a stored user whose token is still valid, and the request fails exactly when no user holds a valid token equal to the one given |
| AuthController.PostNewPasswordBody | controllers/auth.js:226-240 | on the body as parsed, the completion fails with the store unchanged exactly when no user matches the filter built from the submitted fields; otherwise only one matching user changes: password becomes the hash of the submitted password and no reset is pending |
| AuthController.PostNewPassword | controllers/auth.js:226-248 | on a submitted form (string fields), a token that is invalid, expired or not the named user's fails with the store unchanged; otherwise only that user changes: password becomes the hash of the submitted password and no reset is pending |
| AuthController.OperatorTokenTakesOver | controllers/auth.js:228-234 | after a reset request for someone's email, a JSON body naming their id with `{"$ne": null}` as the token completes the reset within the hour, and the chosen password then logs in as that user |
| AuthController.ResetTokenSingleUse | controllers/auth.js:238-240 | once a reset completes, the same token can neither complete again nor open the form for that user, at any later time |
| AuthController.StaleResetFails | controllers/auth.js:230-234 | completing with a token at or past its expiry, or not equal to the user's, fails and changes nothing |
| AuthController.ResetRequestKeepsInvariants | controllers/auth.js:185-187 | a reset request keeps emails distinct and every user's reset fields paired |
| AuthController.ResetCompletionKeepsInvariants | controllers/auth.js:230-240 | a reset completion on any parsed body, operator fields included, keeps emails distinct and every user's reset fields paired |
| AuthController.PostNewPasswordChecked | controllers/auth.js:226-240 | the corrected completion rejects a trimmed password shorter than 3 with the store unchanged; a long enough password with a valid token for the named user succeeds and stores the hash of the trimmed password; an invalid token fails with the store unchanged |
| AuthController.PostNewPasswordStrict | controllers/auth.js:226-234 | the corrected completion on a parsed body succeeds exactly when both fields are plain values, the trimmed password has at least 3 characters and the token is the named user's unexpired one; an operator field is refused with the store unchanged |
| AuthController.ResetThenLogIn | controllers/auth.js:172-248 | a reset requested and completed with the emailed token (on the corrected completion) within the hour lets the user log in with the new password, and with a binding hash no longer with a different old one |
| AuthController.ShortResetPasswordLocksOut | routes/auth.js:65 | the original completion accepts the password "ab", after which every log-in with "ab" is refused by validation |
| AuthController.PaddedResetPasswordLocksOut | routes/auth.js:65 | the original completion stores the hash of " abc" untrimmed, after which log-in with " abc" compares "abc" and is refused by any hash under which the hash of " abc" does not verify "abc", as bcrypt's does |

## Findings

| source | as written | input that shows it | evidently intended | confidence | as-written member | corrected member |
|---|---|---|---|---|---|---|
| routes/auth.js:65 | `POST /new-password` runs no validator, so the new password is hashed whatever its length | a reset to "ab": every later log-in with "ab" fails the 3-character rule | the new password obeys the same minimum length as at sign-up, so it can be used to log in | medium, not executed | AuthController.ShortResetPasswordLocksOut | AuthController.PostNewPasswordChecked |
| controllers/auth.js:236 | the new password is hashed untrimmed, while log-in trims before comparing | a reset to " abc": log-in with " abc" compares "abc" against the hash of " abc" | the new password is trimmed as at sign-up | medium, not executed | AuthController.PaddedResetPasswordLocksOut | AuthController.PostNewPasswordChecked |
| controllers/auth.js:230-234 | `userId` and `passwordToken` from a JSON body go into the lookup unchanged, so an object there acts as a query operator | after a reset request for the victim's email, a body with the victim's id as `userId`, `{"$ne": null}` as `passwordToken` and any password completes the reset without the emailed token | a reset completes only for the holder of the emailed token; a field that is not a string is refused | medium, not executed | AuthController.OperatorTokenTakesOver | AuthController.PostNewPasswordStrict |

## Left out

- Rendering: view data, flash plumbing and `res.render` calls are not modelled. The comments page does not populate each comment's owner record, and the `getAddComment`, `getEditComment`, `getLogIn`, `getSignUp` and `getReset` form pages are omitted.
- Email sending is not modelled. Sign-up confirmation and reset-link messages are fire-and-forget network I/O that does not change the store or the response.
- Infrastructure failures of the store, of bcrypt, and of saving the session are not modelled. Most of their handlers only log or reach the broken error helper. `postLogIn` answers a failed `bcrypt.compare` with a redirect to `log-in`, and `postSignUp` has no handler for a failed hash or save. The entropy failure is modelled, because the reset handler branches on it.
- The session rehydration middleware, CSRF, helmet, compression and the MongoDB session store are not modelled. The authentication guard of the comment routes is reduced to the current user's id being an argument.
- Concurrency is not modelled: every action is one atomic step. In particular, two sign-ups racing past the duplicate check, or two completions racing on one token, cannot happen in the model.
- UserModel.FindOne: when several records match, it returns the least id. The real query returns whichever the database yields first.
- AuthController.PostSignUp: does not state that the stored hash differs from the plaintext, because the hash is uninterpreted. bcrypt's random salt is folded into the deterministic `hash` parameter.
- CommentController.GetComments: takes `estimatedDocumentCount` to be the exact collection size. It does not model the order among comments with equal dates, which it leaves to any newest-first order.
- CommentController.PageNumber: treats the query as a single string, not a repeated parameter. It does not model the floating-point rounding `parseInt` applies to very long digit strings. Limits the database puts on a very large skip are left out too.
- JsText.Trim: white space is the ECMAScript WhiteSpace and LineTerminator set, for the code points listed in `IsWhiteSpace`.
- AuthController.PostNewPassword: takes the form case, where `userId` and `passwordToken` are strings. A JSON body may carry `{"$ne": null}` in either field; that case is `AuthController.PostNewPasswordBody`, and the third finding shows what it allows.
- AuthController.StaleResetFails: holds for a string token only. With `{"$ne": null}` as the token, the as-written completion succeeds for any pending, unexpired reset (`AuthController.OperatorTokenTakesOver`).
- AuthController.PostReset: takes the email as a string. A JSON body may send `{"$ne": null}` as the email, and the lookup then opens a reset for the first user with an email. This is not modelled, because it gives the sender no token, and the takeover it helps with is already shown through the completion.
- AuthController.PostNewPasswordBody: takes the new password itself as a string. An object there reaches bcrypt, whose failure is an infrastructure fault left out above.
- AuthController.PostLogIn: takes the password as a string. A JSON body may send a number, array or object instead. It passes the length check through its string form, `trim` leaves it as it is, and `bcrypt.compare` then throws. The handler answers that with a redirect to `log-in`, a branch this model does not have.

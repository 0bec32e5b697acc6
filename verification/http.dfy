/** What a controller action answers with, apart from rendering details. */
module Http {
  import opened UserModel

  datatype Response =
    | Redirect(location: string)
      /** A redirect that first stores a one-shot flash error message in the session. */
    | RedirectWithFlash(location: string, flash: string)
      /** Status 422: the form is rendered again, showing this error message. */
    | Unprocessable(message: string)
      /** The new-password form, bound to the user the reset token belongs to. */
    | NewPasswordForm(userId: UserId, token: string)
      /** A fault on the request, such as a failed lookup that is dereferenced; the error helper it reaches is itself broken, so no regular answer follows. */
    | ServerError
}

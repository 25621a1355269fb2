/**
 * The authorisation policy of the Identifier skeleton: whether a resolved
 * caller may request an identification on behalf of a declared application.
 */
module RequestVerifier {
  import opened Biometry

  /** The application and user the credentials resolver attributes to a caller. */
  datatype Credentials = Credentials(app: Application, user: User)

  /** The application id that is trusted to act for every application. */
  const Unconfined: string := "unconfined"

  /**
   * A caller may act for its own application; an unconfined caller may act
   * for any application; nobody else is accepted.
   */
  function VerifyIdentifyUserRequest(app: Application, provided: Credentials): (ok: bool)
    ensures app == provided.app ==> ok
    ensures provided.app.AsString() == Unconfined ==> ok
    ensures app != provided.app && provided.app.AsString() != Unconfined ==> !ok
  {
    if app == provided.app then true
    else provided.app.AsString() == Unconfined
  }

  /** A confined caller is accepted for exactly one declared application: its own. */
  lemma ConfinedCallerOnlyForItself(app: Application, provided: Credentials)
    requires provided.app.AsString() != Unconfined
    ensures VerifyIdentifyUserRequest(app, provided) <==> app == provided.app
  {
  }

  /** For an unconfined caller the declared application does not matter. */
  lemma UnconfinedCallerForAnyone(app: Application, other: Application, provided: Credentials)
    requires provided.app.AsString() == Unconfined
    ensures VerifyIdentifyUserRequest(app, provided) == VerifyIdentifyUserRequest(other, provided)
  {
  }
}

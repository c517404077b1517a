/**
 * What a route handler sees of the web framework and the session layer, and
 * what it hands back. The session store, the cookie and the redirect
 * sanitiser live outside the model: a request arrives with its `Session`
 * already resolved, and starting a session is an outcome, not an effect.
 */
module Http {
  import opened Wrappers

  /** What `getUserId` / `requireUser` find for the request. */
  datatype Session = Anonymous | SignedIn(userId: nat)

  type FieldErrors = map<string, seq<string>>

  /** The body of a failed submission: the raw fields echoed back, per-field messages and a whole-form message. */
  datatype ActionData = ActionData(fields: map<string, string>, fieldErrors: Option<FieldErrors>, formError: Option<string>)

  datatype Response<P> =
    | Ok(payload: P)                  // json(payload), status 200
    | Redirect(location: string)      // redirect(location)
    | LoginRequired                   // what requireUser throws for an anonymous request
    | StartSession(userId: nat, remember: bool, redirectTo: string)
                                      // createUserSession: sets the cookie and redirects to safeRedirect(redirectTo, "/")
    | Rejected(data: ActionData)      // json(data, { status: 400 })

  function Status<P>(r: Response<P>): nat {
    match r
    case Ok(_) => 200
    case Rejected(_) => 400
    case _ => 302
  }
}

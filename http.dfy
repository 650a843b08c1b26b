/**
 * The request, session and response shapes the authentication core sees
 * from the web framework: the parsed JSON body, the per-client session
 * binding, the `{status, message}` object handed to the error handler,
 * and the response a handler sends.
 */
module Http {
  import opened Wrappers
  import opened UsersModel

  /** The `{status, message}` descriptor a stage passes to `next(err)`. */
  datatype Rejection = Rejection(status: nat, message: string)

  /** A JSON response body: a bare message, or the public part of a new user. */
  datatype Payload = Message(text: string) | Created(user_id: nat, username: string)

  /**
   * What the client receives. `clearsCookie` records the expired session
   * cookie that a completed logout sets; `Fault` is the generic server
   * error an exception thrown inside a handler turns into.
   */
  datatype Response = Reply(status: nat, payload: Payload, clearsCookie: bool) | Fault

  /** The error handler's rendering of a rejection: its status and `{message}`. */
  function ErrorResponse(r: Rejection): (resp: Response) {
    Reply(r.status, Message(r.message), false)
  }

  /** The fields of `req.body` the core reads; a missing `password` is `None`. */
  datatype Credentials = Credentials(username: string, password: Option<string>)

  /** `req.session`: the server-side session of one client, with its bound user if any. */
  class Session {
    var user: Option<User>

    constructor ()
      ensures user == None
    {
      user := None;
    }

    /**
     * `req.session.destroy`: removes the binding from the session store.
     * `storeFails` stands for the store's answer; on failure the stored
     * binding is left as it was.
     */
    method Destroy(storeFails: bool) returns (failed: bool)
      modifies this
      ensures failed == storeFails
      ensures user == if failed then old(user) else None
    {
      failed := storeFails;
      if !failed {
        user := None;
      }
    }
  }

  /** `req`: the body, the client's session, and the candidate user a stage may attach. */
  class Request {
    const body: Credentials
    const session: Session
    var user: Option<User>

    constructor (body: Credentials, session: Session)
      ensures this.body == body && this.session == session && user == None
    {
      this.body := body;
      this.session := session;
      user := None;
    }
  }
}

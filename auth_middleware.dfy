/**
 * The four gate stages. Each one either lets the request through
 * (`Proceed`, the model of `next()`) or stops it with a fixed descriptor
 * (`Reject`, the model of `next({status, message})`). None of them touches
 * the user table or the session; `CheckUsernameExists` alone writes to the
 * request, attaching the candidate user.
 */
module AuthMiddleware {
  import opened Wrappers
  import opened UsersModel
  import opened JsString
  import opened Http

  datatype Step = Proceed | Reject(err: Rejection)

  const NotLoggedIn := Rejection(401, "You shall not pass!")
  const UsernameTakenError := Rejection(422, "Username taken")
  const InvalidCredentials := Rejection(401, "Invalid credentials")
  const PasswordTooShort := Rejection(422, "Password must be longer than 3 chars")

  /** `restricted`: only a request whose session has a bound user gets through. */
  function Restricted(req: Request): (r: Step)
    reads req.session
    ensures r.Proceed? <==> req.session.user.Some?
    ensures r.Reject? ==> r.err == NotLoggedIn
  {
    if req.session.user.Some? then Proceed else Reject(NotLoggedIn)
  }

  /** `checkUsernameFree`: the request gets through when no stored row has its username. */
  function CheckUsernameFree(users: UserStore, req: Request): (r: Step)
    reads users
    ensures r.Proceed? <==> forall u :: u in users.rows ==> u.username != req.body.username
    ensures r.Reject? ==> r.err == UsernameTakenError
  {
    if |FindBy(users.rows, req.body.username)| == 0 then Proceed else Reject(UsernameTakenError)
  }

  /**
   * `checkUsernameExists`: when some row has the request's username, the
   * first such row becomes `req.user` and the request gets through;
   * otherwise it is stopped and `req.user` is left alone.
   */
  method CheckUsernameExists(users: UserStore, req: Request) returns (r: Step)
    modifies req
    ensures r.Proceed? <==> Taken(users.rows, req.body.username)
    ensures r.Proceed? ==> req.user.Some? && IsFirstMatch(users.rows, req.body.username, req.user.value)
    ensures r.Proceed? ==> req.user == Some(FindBy(users.rows, req.body.username)[0])
    ensures r.Reject? ==> r.err == InvalidCredentials && req.user == old(req.user)
  {
    var result := FindBy(users.rows, req.body.username);
    if |result| > 0 {
      FindByHeadIsFirstMatch(users.rows, req.body.username);
      req.user := Some(result[0]);
      r := Proceed;
    } else {
      r := Reject(InvalidCredentials);
    }
  }

  /** The password rule: present, with more than three UTF-16 code units left once trimmed. */
  predicate PasswordAcceptable(password: Option<string>) {
    password.Some? && NonBlankSpanLongerThan(password.value, 3)
  }

  /**
   * `checkPasswordLength`: a missing or empty password, or one whose
   * trimmed length is at most three code units, is stopped; any other gets
   * through.
   */
  function CheckPasswordLength(req: Request): (r: Step)
    ensures r.Proceed? <==> PasswordAcceptable(req.body.password)
    ensures r.Reject? ==> r.err == PasswordTooShort
  {
    var password := req.body.password;
    if password.None? then Reject(PasswordTooShort)
    else
      TrimmedLengthExceeds(password.value, 3);
      if password.value != "" && Utf16Length(Trim(password.value)) > 3 then Proceed else Reject(PasswordTooShort)
  }
}

/**
 * The `/register`, `/login` and `/logout` routes: each runs its stages in
 * order, stops at the first rejection, and otherwise runs its handler.
 */
module AuthRouter {
  import opened Wrappers
  import opened UsersModel
  import opened Bcrypt
  import opened Http
  import opened AuthMiddleware

  function Welcome(username: string): (message: string) {
    "Welcome " + username + "!"
  }

  /**
   * `POST /register`: `checkUsernameFree`, then `checkPasswordLength`, then
   * the handler, which stores the username with the hash of the password
   * and answers 201 with the new id and the username. A taken username is
   * reported before a bad password; any rejection leaves the table as it
   * was. `salt` stands for the randomness of the hash.
   */
  method Register(users: UserStore, req: Request, hasher: Hasher, salt: string) returns (resp: Response)
    requires users.Valid()
    requires Sound(hasher)
    modifies users
    ensures users.Valid()
    ensures Taken(old(users.rows), req.body.username) ==>
      resp == ErrorResponse(UsernameTakenError) && unchanged(users)
    ensures !Taken(old(users.rows), req.body.username) && !PasswordAcceptable(req.body.password) ==>
      resp == ErrorResponse(PasswordTooShort) && unchanged(users)
    ensures !Taken(old(users.rows), req.body.username) && PasswordAcceptable(req.body.password) ==>
      var stored := hasher.hash(req.body.password.value, salt);
      && users.rows == old(users.rows) + [User(old(users.nextId), req.body.username, stored)]
      && users.nextId == old(users.nextId) + 1
      && (forall u :: u in old(users.rows) ==> u.user_id != old(users.nextId))
      && hasher.compare(req.body.password.value, stored)
      && stored != req.body.password.value
      && resp == Reply(201, Created(old(users.nextId), req.body.username), false)
    ensures UniqueUsernames(old(users.rows)) ==> UniqueUsernames(users.rows)
  {
    var step := CheckUsernameFree(users, req);
    if step.Reject? {
      return ErrorResponse(step.err);
    }
    step := CheckPasswordLength(req);
    if step.Reject? {
      return ErrorResponse(step.err);
    }
    var password := req.body.password.value;
    var hash := hasher.hash(password, salt);
    var result := users.Add(req.body.username, hash);
    resp := Reply(201, Created(result.user_id, result.username), false);
  }

  /**
   * `POST /login`: `checkUsernameExists`, then the handler, which compares
   * the password with the candidate's stored hash. A match binds the
   * session to the candidate and answers with a welcome; a mismatch is
   * rejected with the same descriptor as an unknown username and leaves
   * the session alone. A missing password makes the comparison throw.
   */
  method Login(users: UserStore, req: Request, hasher: Hasher) returns (resp: Response)
    modifies req, req.session
    ensures !Taken(users.rows, req.body.username) ==>
      resp == ErrorResponse(InvalidCredentials) && req.user == old(req.user) &&
      req.session.user == old(req.session.user)
    ensures Taken(users.rows, req.body.username) ==>
      var candidate := FindBy(users.rows, req.body.username)[0];
      && req.user == Some(candidate)
      && IsFirstMatch(users.rows, req.body.username, candidate)
      && (req.body.password.None? ==> resp == Fault && req.session.user == old(req.session.user))
      && (req.body.password.Some? && hasher.compare(req.body.password.value, candidate.password) ==>
            && req.session.user == Some(candidate)
            && resp == Reply(200, Message(Welcome(req.body.username)), false))
      && (req.body.password.Some? && !hasher.compare(req.body.password.value, candidate.password) ==>
            resp == ErrorResponse(InvalidCredentials) && req.session.user == old(req.session.user))
    ensures req.session.user != old(req.session.user) ==>
      req.session.user.Some? && req.session.user.value in users.rows && Restricted(req).Proceed?
  {
    var step := CheckUsernameExists(users, req);
    if step.Reject? {
      return ErrorResponse(step.err);
    }
    if req.body.password.None? {
      return Fault;
    }
    var candidate := req.user.value;
    if hasher.compare(req.body.password.value, candidate.password) {
      req.session.user := Some(candidate);
      resp := Reply(200, Message(Welcome(candidate.username)), false);
    } else {
      resp := ErrorResponse(InvalidCredentials);
    }
  }

  /**
   * `GET /logout`: with no bound user, "no session" and nothing changes.
   * Otherwise the session is destroyed: on success "logged out", the cookie
   * is expired and `restricted` now rejects; when the store fails to
   * destroy it, "no session" again and the binding stays.
   */
  method Logout(req: Request, storeFails: bool) returns (resp: Response)
    modifies req.session
    ensures old(req.session.user).None? ==>
      resp == Reply(200, Message("no session"), false) && req.session.user == None
    ensures old(req.session.user).Some? && !storeFails ==>
      && resp == Reply(200, Message("logged out"), true)
      && req.session.user == None
      && Restricted(req) == Reject(NotLoggedIn)
    ensures old(req.session.user).Some? && storeFails ==>
      resp == Reply(200, Message("no session"), false) && req.session.user == old(req.session.user)
  {
    if req.session.user.Some? {
      var failed := req.session.Destroy(storeFails);
      if failed {
        resp := Reply(200, Message("no session"), false);
      } else {
        resp := Reply(200, Message("logged out"), true);
      }
    } else {
      resp := Reply(200, Message("no session"), false);
    }
  }
}

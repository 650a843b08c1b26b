/**
 * Worked examples of the routes: a padded short password, a password of
 * two emoji, and the register/login sequence for the user "sue".
 */
module AuthExamples {
  import opened Wrappers
  import opened UsersModel
  import opened JsString
  import opened Bcrypt
  import opened Http
  import opened AuthMiddleware
  import opened AuthRouter

  /** A stand-in hasher: the hash tags the plaintext, the comparison checks the tag. */
  function TagHasher(): (h: Hasher)
    ensures Sound(h)
  {
    Hasher((p: string, salt: string) => "#" + p, (p: string, stored: string) => stored == "#" + p)
  }

  /** Two spaces either side leave only "ab", so the password is refused. */
  lemma PaddedShortPasswordRejected(req: Request)
    requires req.body.password == Some("  ab  ")
    ensures Trim("  ab  ") == "ab"
    ensures CheckPasswordLength(req) == Reject(PasswordTooShort)
  {
    PaddedTrim();
    assert Utf16Length("ab"[1..][1..]) == 0;
  }

  lemma PaddedTrim()
    ensures Trim("  ab  ") == "ab"
  {
    var s := "  ab  ";
    assert LeadingWhitespace(s) == 2 by {
      assert s[1..] == " ab  " && s[1..][1..] == "ab  ";
    }
    var t := Trim(s);
    assert t == s[2..2 + |t|] && WhitespaceBetween(s, 2 + |t|, |s|);
    assert !IsWhitespace(s[3]) && IsWhitespace(s[4]) && IsWhitespace(s[5]);
    assert |t| == 2;
    assert t == s[2..4] == "ab";
  }

  /**
   * Two emoji are two characters but four UTF-16 code units, so the
   * password is accepted.
   */
  lemma AstralPasswordAccepted(req: Request)
    requires req.body.password == Some("\U{1F600}\U{1F600}")
    ensures CheckPasswordLength(req) == Proceed
  {
    var s := "\U{1F600}\U{1F600}";
    assert Utf16Length(s[1..][1..]) == 0;
    assert Utf16Length(s[1..]) == 2;
    assert Utf16Length(s[0..2]) == 4 by { assert s[0..2] == s; }
    assert NonBlankSpanLongerThan(s, 3) by {
      assert !IsWhitespace(s[0]) && !IsWhitespace(s[1]);
    }
  }

  /**
   * Registering "sue" with "1234" creates user 1; registering the same name
   * again is refused. The two replies, in order, and the final table.
   */
  method RegisterSueTwice() returns (users: UserStore, replies: seq<Response>)
    ensures users.Valid() && users.rows == [User(1, "sue", "#1234")]
    ensures replies == [
      Reply(201, Created(1, "sue"), false),
      Reply(422, Message("Username taken"), false)]
  {
    var hasher := TagHasher();
    users := new UserStore();
    var session := new Session();

    var first := new Request(Credentials("sue", Some("1234")), session);
    assert NonBlankSpanLongerThan("1234", 3) by { assert !IsWhitespace("1234"[0]) && !IsWhitespace("1234"[3]); }
    var resp := Register(users, first, hasher, "salt");
    assert hasher.hash("1234", "salt") == "#1234";
    assert resp == Reply(201, Created(1, "sue"), false);
    replies := [resp];

    var again := new Request(Credentials("sue", Some("1234")), session);
    assert users.rows[0].username == "sue";
    resp := Register(users, again, hasher, "salt");
    assert resp == ErrorResponse(UsernameTakenError);
    replies := replies + [resp];
  }

  /**
   * "sue" logs in with the right password, a second request fails on a
   * wrong password, then two logouts follow: the four replies, in order.
   */
  method LoginSue() returns (replies: seq<Response>)
    ensures replies == [
      Reply(200, Message("Welcome sue!"), false),
      Reply(401, Message("Invalid credentials"), false),
      Reply(200, Message("logged out"), true),
      Reply(200, Message("no session"), false)]
  {
    var users, registered := RegisterSueTwice();
    var hasher := TagHasher();
    var session := new Session();

    var login := new Request(Credentials("sue", Some("1234")), session);
    var resp := Login(users, login, hasher);
    assert FindBy(users.rows, "sue") == [User(1, "sue", "#1234")];
    assert hasher.compare("1234", "#1234");
    assert Welcome("sue") == "Welcome sue!";
    assert resp == Reply(200, Message("Welcome sue!"), false);
    assert Restricted(login).Proceed?;
    replies := [resp];

    var wrong := new Request(Credentials("sue", Some("wrong")), session);
    resp := Login(users, wrong, hasher);
    assert !hasher.compare("wrong", "#1234");
    assert resp == ErrorResponse(InvalidCredentials);
    replies := replies + [resp];

    resp := Logout(login, false);
    assert resp == Reply(200, Message("logged out"), true);
    assert Restricted(wrong) == Reject(NotLoggedIn);
    replies := replies + [resp];

    resp := Logout(login, false);
    assert resp == Reply(200, Message("no session"), false);
    replies := replies + [resp];
  }
}

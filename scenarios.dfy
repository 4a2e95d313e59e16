/**
  Sequences of calls against the session and account operations, each proved
  to end as the code's comments and messages announce: a flash is shown once,
  a CSRF token stays fixed for the session, a reset token is spent by its
  first use and lapses after 24 hours, and the registration/login/reset walk
  through of one user.
*/
module Scenarios {

  import opened Wrappers
  import opened PhpStrings
  import opened Externals
  import opened Session
  import opened Auth

  /** A flash set once is returned by the next read and by no later one. */
  method FlashIsOneShot(s: SessionState, kind: string, message: string) returns (first: Option<Flash>, second: Option<Flash>)
    requires s.Valid()
    modifies s`fields
    ensures first == Some(Flash(kind, message)) && second == None
    ensures s.fields == old(s.fields) - {FlashKey}
  {
    s.SetFlashMessage(kind, message);
    first := s.GetFlashMessage();
    second := s.GetFlashMessage();
  }

  /** The second of two flashes set before a read is the one shown. */
  method LastFlashWins(s: SessionState, a: Flash, b: Flash) returns (shown: Option<Flash>, present: bool)
    requires s.Valid()
    modifies s`fields
    ensures shown == Some(b) && !present
  {
    s.SetFlashMessage(a.kind, a.message);
    s.SetFlashMessage(b.kind, b.message);
    shown := s.GetFlashMessage();
    present := s.HasFlashMessage();
  }

  /** Whatever random bytes a later call draws, the token first issued is kept and verifies. */
  method CsrfTokenIsStable(s: SessionState, r1: seq<Byte>, r2: seq<Byte>, forged: string)
    returns (t1: string, t2: string, genuine: bool, accepted: bool)
    requires s.Valid() && |r1| == 32 && |r2| == 32
    modifies s`fields
    ensures t1 == t2 && genuine
    ensures accepted <==> forged == t1
  {
    t1 := s.GenerateCSRFToken(r1);
    t2 := s.GenerateCSRFToken(r2);
    genuine := s.VerifyCSRFToken(t1);
    accepted := s.VerifyCSRFToken(forged);
  }

  /** The token survives the identifier rotation of a login, so a form rendered before it still posts. */
  method CsrfTokenSurvivesRotation(s: SessionState, r: seq<Byte>, freshId: SessionId) returns (t: string, ok: bool)
    requires s.Valid() && |r| == 32 && s.id in s.live && freshId !in s.live
    modifies s
    ensures ok
  {
    t := s.GenerateCSRFToken(r);
    s.RegenerateSession(freshId);
    ok := s.VerifyCSRFToken(t);
  }

  /** A freshly issued token that no one else holds resets the password once; the same token then fails. */
  method ResetTokenIsSingleUse(auth: AuthService, email: string, random: seq<Byte>, password: string,
                               salt: Salt, now: int) returns (first: Response, second: Response)
    requires auth.Valid() && |random| == 32 && IsEmail(email)
    requires exists id :: id in auth.users && auth.users[id].email == email
    requires forall id :: id in auth.users ==> auth.users[id].resetToken != Some(Bin2Hex(random))
    requires StrLen(password) >= MinPasswordBytes
    modifies auth
    ensures first.success && second == Response(false, MsgInvalidOrExpiredToken)
  {
    EmailNotEmpty(email);
    var issued, token := auth.GeneratePasswordResetToken(email, random, now, false);
    ghost var holder :| holder in old(auth.users) && old(auth.users)[holder].email == email &&
                  auth.users == old(auth.users)[holder := WithResetToken(old(auth.users)[holder], token.value, now)];
    IssuedTokenHolders(old(auth.users), holder, token.value, now, now);
    ghost var redeemed;
    first, redeemed := auth.ResetPassword(token.value, password, salt, now, false);
    second, redeemed := auth.ResetPassword(token.value, password, salt, now, false);
  }

  /** A token redeemed 24 hours or more after it was issued is refused and changes nothing. */
  method ResetTokenExpires(auth: AuthService, email: string, random: seq<Byte>, password: string,
                           salt: Salt, issued: int, later: int) returns (r: Response)
    requires auth.Valid() && |random| == 32 && IsEmail(email)
    requires exists id :: id in auth.users && auth.users[id].email == email
    requires forall id :: id in auth.users ==> auth.users[id].resetToken != Some(Bin2Hex(random))
    requires StrLen(password) >= MinPasswordBytes && later >= issued + ResetTokenLifetime
    modifies auth
    ensures r == Response(false, MsgInvalidOrExpiredToken)
  {
    EmailNotEmpty(email);
    var g, token := auth.GeneratePasswordResetToken(email, random, issued, false);
    ghost var holder :| holder in old(auth.users) && old(auth.users)[holder].email == email &&
                  auth.users == old(auth.users)[holder := WithResetToken(old(auth.users)[holder], token.value, issued)];
    IssuedTokenHolders(old(auth.users), holder, token.value, issued, later);
    ghost var redeemed;
    r, redeemed := auth.ResetPassword(token.value, password, salt, later, false);
  }

  /** After logging out, the visitor is not logged in, even when logged in before. */
  method LogoutEndsLogin(auth: AuthService, identifier: string, password: string) returns (before: bool, after: bool)
    requires auth.Valid()
    requires !Empty(identifier) && !Empty(password) && Authenticates(auth.users, identifier, password)
    modifies auth.session
    ensures before && !after
  {
    var r, who := auth.LoginUser(identifier, password, false);
    before := auth.IsUserLoggedIn();
    auth.LogoutUser();
    after := auth.IsUserLoggedIn();
  }

  /**
    The premises the walk through needs of its account: the identifier is a username, not an
    address, and the two passwords differ within the 72 bytes bcrypt reads.
  */
  predicate Walkable(username: string, email: string, password: string, newPassword: string) {
    && !Empty(username) && !IsEmail(username) && IsEmail(email)
    && StrLen(password) >= MinPasswordBytes && StrLen(newPassword) >= MinPasswordBytes
    && BcryptKey(password) != BcryptKey(newPassword)
  }

  /** Registration into the empty table, then a second account with the same address. */
  method RegisterTwice(auth: AuthService, username: string, other: string, email: string, password: string,
                       salt1: Salt, salt2: Salt, now: int) returns (registered: Response, duplicate: Response)
    requires auth.Valid() && auth.users == map[] && auth.nextId == 1
    requires !Empty(username) && !Empty(other) && IsEmail(email) && StrLen(password) >= MinPasswordBytes
    modifies auth
    ensures auth.Valid()
    ensures registered.success && duplicate == Response(false, MsgAccountExists)
    ensures auth.users == map[1 := User(username, email, Hash(password, salt1), None, None, now)]
  {
    EmailNotEmpty(email);
    registered := auth.RegisterUser(username, email, password, salt1, now, false);
    assert Taken(auth.users, other, email) by {
      assert auth.users[1].email == email;
    }
    duplicate := auth.RegisterUser(other, email, password, salt2, now, false);
  }

  /** The reset request for the address writes a token and its expiry to the one row. */
  method RequestReset(auth: AuthService, username: string, email: string, h: PasswordHash, random: seq<Byte>,
                      now: int) returns (token: string)
    requires auth.Valid() && |random| == 32 && IsEmail(email)
    requires auth.users == map[1 := User(username, email, h, None, None, now)]
    modifies auth
    ensures auth.Valid()
    ensures auth.users == map[1 := User(username, email, h, Some(token), Some(now + ResetTokenLifetime), now)]
    ensures |token| == 64 && IsLowerHexString(token)
  {
    EmailNotEmpty(email);
    assert auth.users[1].email == email;
    var issued, t := auth.GeneratePasswordResetToken(email, random, now, false);
    token := t.value;
  }

  /**
    The walk through of one account: register it, refuse a second account
    with its address, log in by username, reset the password with the issued
    token, and find that only the new password logs in afterwards.
  */
  method AccountWalkThrough(s: SessionState, username: string, other: string, email: string,
                            password: string, newPassword: string, salt1: Salt, salt2: Salt, salt3: Salt,
                            random: seq<Byte>, now: int, freshId: SessionId)
    returns (registered: Response, duplicate: Response, login: Response, reset: Response,
             oldLogin: Response, newLogin: Response)
    requires s.Valid() && s.id in s.live && freshId !in s.live && |random| == 32
    requires Walkable(username, email, password, newPassword) && !Empty(other)
    modifies s
    ensures registered.success && duplicate == Response(false, MsgAccountExists) && login.success
    ensures reset.success && !oldLogin.success && newLogin.success
  {
    var auth := new AuthService(s);
    registered, duplicate := RegisterTwice(auth, username, other, email, password, salt1, salt2, now);
    assert Authenticates(auth.users, username, password) by {
      assert MatchesBy(auth.users[1], IsEmail(username), username) && Verify(password, auth.users[1].hash);
    }
    var who;
    login, who := auth.LoginUser(username, password, false);
    s.RegenerateSession(freshId);
    var token := RequestReset(auth, username, email, Hash(password, salt1), random, now);
    reset, oldLogin, newLogin := ResetAndLogInAgain(auth, username, email, password, newPassword, Hash(password, salt1),
                                                    token, salt3, now);
  }

  /** Redeem the token a second later, then log in with the old and the new password. */
  method ResetAndLogInAgain(auth: AuthService, username: string, email: string, password: string, newPassword: string,
                            h: PasswordHash, token: string, salt: Salt, now: int)
    returns (reset: Response, oldLogin: Response, newLogin: Response)
    requires auth.Valid() && Walkable(username, email, password, newPassword) && |token| == 64
    requires auth.users == map[1 := User(username, email, h, Some(token), Some(now + ResetTokenLifetime), now)]
    modifies auth, auth.session
    ensures reset.success && !oldLogin.success && newLogin.success
  {
    reset := RedeemIssuedToken(auth, username, email, newPassword, h, token, salt, now);
    oldLogin, newLogin := LogInOldAndNew(auth, username, email, password, newPassword, salt, now);
  }

  /** A token redeemed a second after issue sets the new hash and clears the token columns. */
  method RedeemIssuedToken(auth: AuthService, username: string, email: string, newPassword: string,
                           h: PasswordHash, token: string, salt: Salt, now: int)
    returns (reset: Response)
    requires auth.Valid() && IsEmail(email) && StrLen(newPassword) >= MinPasswordBytes && |token| == 64
    requires auth.users == map[1 := User(username, email, h, Some(token), Some(now + ResetTokenLifetime), now)]
    modifies auth
    ensures auth.Valid() && reset.success
    ensures auth.users == map[1 := User(username, email, Hash(newPassword, salt), None, None, now)]
  {
    EmailNotEmpty(email);
    ghost var before := auth.users;
    assert 1 in TokenHolders(before, token, now + 1);
    ghost var redeemed;
    reset, redeemed := auth.ResetPassword(token, newPassword, salt, now + 1, false);
    assert redeemed.value in before;
  }

  /** After a reset to `newPassword`, the old password no longer logs in and the new one does. */
  method LogInOldAndNew(auth: AuthService, username: string, email: string, password: string, newPassword: string,
                        salt: Salt, now: int)
    returns (oldLogin: Response, newLogin: Response)
    requires auth.Valid() && Walkable(username, email, password, newPassword)
    requires auth.users == map[1 := User(username, email, Hash(newPassword, salt), None, None, now)]
    modifies auth.session
    ensures !oldLogin.success && newLogin.success
  {
    assert Authenticates(auth.users, username, newPassword) by {
      assert MatchesBy(auth.users[1], IsEmail(username), username) && Verify(newPassword, auth.users[1].hash);
    }
    assert !Authenticates(auth.users, username, password) by {
      assert !Verify(password, auth.users[1].hash);
    }
    var who;
    oldLogin, who := auth.LoginUser(username, password, false);
    newLogin, who := auth.LoginUser(username, newPassword, false);
  }

  const AliceEmail := "alice@example.com"

  lemma AliceEmailIsAddress()
    ensures IsEmail(AliceEmail)
  {
    assert AliceEmail[..5] == "alice" && AliceEmail[6..] == "example.com";
    assert IsLocalPart("alice") && IsDomain("example.com");
    assert AliceEmail[5] == '@';
  }

  lemma AliceIsUsername()
    ensures !Empty("alice") && !IsEmail("alice")
  {
    if IsEmail("alice") {
      EmailNotEmpty("alice");
    }
  }

  lemma AlicePasswordLongEnough()
    ensures StrLen("password123") >= MinPasswordBytes
  {
    StrLenAscii("password123");
  }

  lemma AliceNewPasswordLongEnough()
    ensures StrLen("newpassword1") >= MinPasswordBytes
  {
    StrLenAscii("newpassword1");
  }

  /** alice's two passwords already differ in the first byte bcrypt reads. */
  lemma AlicePasswordsDiffer()
    ensures BcryptKey("password123") != BcryptKey("newpassword1")
  {
    KeysDifferByFirstChar("password123", "newpassword1");
  }

  /** alice's strings meet the premises of the walk through. */
  lemma AliceWalkable()
    ensures Walkable("alice", AliceEmail, "password123", "newpassword1") && !Empty("alice2")
  {
    AliceEmailIsAddress();
    AliceIsUsername();
    AlicePasswordLongEnough();
    AliceNewPasswordLongEnough();
    AlicePasswordsDiffer();
  }

  /** The walk through for alice, `alice@example.com`, `password123`, then `newpassword1`. */
  method AliceWalkThrough(s: SessionState, salt1: Salt, salt2: Salt, salt3: Salt, random: seq<Byte>,
                          now: int, freshId: SessionId)
    returns (registered: Response, duplicate: Response, login: Response, reset: Response,
             oldLogin: Response, newLogin: Response)
    requires s.Valid() && s.id in s.live && freshId !in s.live && |random| == 32
    modifies s
    ensures registered.success && duplicate == Response(false, MsgAccountExists) && login.success
    ensures reset.success && !oldLogin.success && newLogin.success
  {
    AliceWalkable();
    registered, duplicate, login, reset, oldLogin, newLogin :=
      AccountWalkThrough(s, "alice", "alice2", AliceEmail, "password123", "newpassword1", salt1, salt2, salt3,
                         random, now, freshId);
  }
}

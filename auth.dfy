/**
  includes/auth.php: registration, login, logout, password reset, profile and
  password changes, over the `users` table and the visitor's session. The
  table is a map from the AUTO_INCREMENT id to the row; its UNIQUE constraints
  on `username` and `email` are part of `TableInvariant`. Hashing salts, random
  bytes, the clock and a storage error (`PDOException`) are inputs.
*/
module Auth {

  import opened Wrappers
  import opened PhpStrings
  import opened Externals
  import opened Session

  type UserId = int

  /** A row of `users` (the columns this code reads or writes). */
  datatype User = User(
    username: string,
    email: string,
    hash: PasswordHash,
    resetToken: Option<string>,
    resetExpires: Option<int>,
    createdAt: int)

  /** The `user` part of a successful `loginUser` result. */
  datatype Identity = Identity(id: UserId, username: string, email: string)

  /** What `getUserById` selects. */
  datatype Profile = Profile(id: UserId, username: string, email: string, createdAt: int)

  /** The `['success' => ..., 'message' => ...]` array every operation returns. */
  datatype Response = Response(success: bool, message: string)

  const MinPasswordBytes := 8
  /** Seconds a reset token stays valid: 24 hours. */
  const ResetTokenLifetime := 86400

  const MsgAllFieldsRequired := "All fields are required"
  const MsgInvalidEmailFormat := "Invalid email format"
  const MsgPasswordTooShort := "Password must be at least 8 characters long"
  const MsgAccountExists := "Username or email already exists"
  const MsgRegistered := "Registration successful! You can now login."
  const MsgRegisterError := "An error occurred during registration."
  const MsgLoginRequired := "Both username/email and password are required"
  const MsgInvalidCredentials := "Invalid username/email or password"
  const MsgLoggedIn := "Login successful"
  const MsgLoginError := "An error occurred during login."
  const MsgInvalidEmailAddress := "Invalid email address"
  const MsgResetIfRegistered := "If your email is registered, a password reset link will be sent."
  const MsgResetGenerated := "Password reset link has been generated."
  const MsgResetTokenError := "An error occurred while processing your request."
  const MsgInvalidTokenOrPassword := "Invalid token or password"
  const MsgInvalidOrExpiredToken := "Invalid or expired reset token"
  const MsgPasswordReset := "Password has been reset successfully. You can now login."
  const MsgResetError := "An error occurred while resetting your password."
  const MsgInvalidUserOrData := "Invalid user ID or data"
  const MsgNoFieldsToUpdate := "No fields to update"
  const MsgProfileUpdated := "Profile updated successfully"
  const MsgProfileError := "An error occurred while updating your profile"
  const MsgNewPasswordTooShort := "New password must be at least 8 characters long"
  const MsgUserNotFound := "User not found"
  const MsgCurrentPasswordIncorrect := "Current password is incorrect"
  const MsgPasswordChanged := "Password changed successfully"
  const MsgChangeError := "An error occurred while changing your password"

  /**
    The table's invariant: ids are below the AUTO_INCREMENT counter, `username`
    and `email` are each unique, and a reset token always has an expiry.
  */
  predicate TableInvariant(users: map<UserId, User>, nextId: UserId) {
    && 1 <= nextId
    && (forall id :: id in users ==> 1 <= id < nextId)
    && (forall id :: id in users ==> (users[id].resetToken.Some? <==> users[id].resetExpires.Some?))
    && (forall a, b :: a in users && b in users && a != b ==>
          users[a].username != users[b].username && users[a].email != users[b].email)
  }

  /** `WHERE email = ?` when `byEmail`, `WHERE username = ?` otherwise. */
  predicate MatchesBy(u: User, byEmail: bool, key: string) {
    if byEmail then u.email == key else u.username == key
  }

  /**
    The credentials log in: the row found by email when the identifier is a
    valid address, by username otherwise, verifies the password.
  */
  predicate Authenticates(users: map<UserId, User>, identifier: string, password: string) {
    exists id :: id in users && MatchesBy(users[id], IsEmail(identifier), identifier) && Verify(password, users[id].hash)
  }

  /** `SELECT id FROM users WHERE username = ? OR email = ?` returns a row. */
  predicate Taken(users: map<UserId, User>, username: string, email: string) {
    exists id :: id in users && (users[id].username == username || users[id].email == email)
  }

  /** `reset_token = ? AND reset_token_expires_at > NOW()`: a NULL expiry never compares greater. */
  predicate HoldsValidToken(u: User, token: string, now: int) {
    u.resetToken == Some(token) && u.resetExpires.Some? && u.resetExpires.value > now
  }

  /** The users a reset with `token` at time `now` can redeem. */
  function TokenHolders(users: map<UserId, User>, token: string, now: int): (holders: set<UserId>)
    ensures forall id :: id in holders <==> id in users && HoldsValidToken(users[id], token, now)
  {
    set id | id in users && HoldsValidToken(users[id], token, now)
  }

  /** The checks `registerUser` makes before it touches the store, in its order. */
  function RegisterInputError(username: string, email: string, password: string): (e: Option<string>)
    ensures e.None? <==> !Empty(username) && !Empty(email) && !Empty(password) && IsEmail(email)
                         && StrLen(password) >= MinPasswordBytes
    ensures (Empty(username) || Empty(email) || Empty(password)) ==> e == Some(MsgAllFieldsRequired)
  {
    if Empty(username) || Empty(email) || Empty(password) then Some(MsgAllFieldsRequired)
    else if !IsEmail(email) then Some(MsgInvalidEmailFormat)
    else if StrLen(password) < MinPasswordBytes then Some(MsgPasswordTooShort)
    else None
  }

  /** A token issued now to `u`: the 64 hexadecimal characters of the random bytes, expiring in 24 hours. */
  function WithResetToken(u: User, token: string, now: int): User {
    u.(resetToken := Some(token), resetExpires := Some(now + ResetTokenLifetime))
  }

  /** A redeemed token: the new hash, and both token columns set to NULL. */
  function Redeemed(u: User, h: PasswordHash): User {
    u.(hash := h, resetToken := None, resetExpires := None)
  }

  /** The non-empty `username` of an update request, if any. */
  function RequestedUsername(data: map<string, string>): Option<string> {
    if UsernameKey in data && !Empty(data[UsernameKey]) then Some(data[UsernameKey]) else None
  }

  /** The non-empty `email` of an update request, if any. */
  function RequestedEmail(data: map<string, string>): Option<string> {
    if EmailKey in data && !Empty(data[EmailKey]) then Some(data[EmailKey]) else None
  }

  /** What `updateUserProfile` reports before its first query, if anything: a bad address, then nothing to update. */
  function ProfileInputError(data: map<string, string>): (e: Option<string>)
    ensures e.None? <==> (RequestedUsername(data).Some? || RequestedEmail(data).Some?) &&
                         (RequestedEmail(data).Some? ==> IsEmail(RequestedEmail(data).value))
    ensures RequestedEmail(data).Some? && !IsEmail(RequestedEmail(data).value) ==> e == Some(MsgInvalidEmailFormat)
  {
    if RequestedEmail(data).Some? && !IsEmail(RequestedEmail(data).value) then Some(MsgInvalidEmailFormat)
    else if RequestedUsername(data).None? && RequestedEmail(data).None? then Some(MsgNoFieldsToUpdate)
    else None
  }

  /** The row after `UPDATE users SET username = ?, email = ?` with the requested columns only. */
  function ApplyProfile(u: User, data: map<string, string>): (v: User)
    ensures v.username == (if RequestedUsername(data).Some? then RequestedUsername(data).value else u.username)
    ensures v.email == (if RequestedEmail(data).Some? then RequestedEmail(data).value else u.email)
    ensures v.hash == u.hash && v.resetToken == u.resetToken && v.resetExpires == u.resetExpires
    ensures v.createdAt == u.createdAt
  {
    var n := RequestedUsername(data);
    var m := RequestedEmail(data);
    u.(username := if n.Some? then n.value else u.username, email := if m.Some? then m.value else u.email)
  }

  /** The update would break a UNIQUE constraint: the new name or address belongs to another row. */
  predicate ProfileCollides(users: map<UserId, User>, userId: UserId, data: map<string, string>) {
    userId in users &&
    exists other :: other in users && other != userId &&
      ((RequestedUsername(data).Some? && users[other].username == RequestedUsername(data).value) ||
       (RequestedEmail(data).Some? && users[other].email == RequestedEmail(data).value))
  }

  /**
    How a successful update rewrites the cached identity: a key the session
    already has is overwritten whenever the request sets that key, even to a
    value the table update skipped as empty.
  */
  function CachedIdentity(fields: map<string, Value>, data: map<string, string>): (r: map<string, Value>)
    ensures r.Keys == fields.Keys
    ensures forall k :: k in fields && k != UsernameKey && k != EmailKey ==> r[k] == fields[k]
    ensures UsernameKey in fields ==> r[UsernameKey] == (if UsernameKey in data then Str(data[UsernameKey]) else fields[UsernameKey])
    ensures EmailKey in fields ==> r[EmailKey] == (if EmailKey in data then Str(data[EmailKey]) else fields[EmailKey])
  {
    var f1 := if UsernameKey in data && UsernameKey in fields then fields[UsernameKey := Str(data[UsernameKey])] else fields;
    if EmailKey in data && EmailKey in f1 then f1[EmailKey := Str(data[EmailKey])] else f1
  }

  /**
    The cache follows the request rather than the row: a request whose
    `username` is set but empty leaves the stored name alone and still writes
    the empty string into a session that caches a name.
  */
  lemma CachedNameCanDivergeFromRow(u: User, fields: map<string, Value>, data: map<string, string>)
    requires UsernameKey in fields && UsernameKey in data && Empty(data[UsernameKey])
    ensures ApplyProfile(u, data).username == u.username
    ensures CachedIdentity(fields, data)[UsernameKey] == Str(data[UsernameKey])
  {
  }

  /** Registration keeps the invariant: the fresh id is unused and the new name and address are not taken. */
  lemma InsertKeepsInvariant(users: map<UserId, User>, nextId: UserId, u: User)
    requires TableInvariant(users, nextId)
    requires !Taken(users, u.username, u.email)
    requires u.resetToken.None? && u.resetExpires.None?
    ensures nextId !in users
    ensures TableInvariant(users[nextId := u], nextId + 1)
  {
    var t := users[nextId := u];
    forall a, b | a in t && b in t && a != b
      ensures t[a].username != t[b].username && t[a].email != t[b].email
    {
      if a == nextId {
        assert !(users[b].username == u.username || users[b].email == u.email);
      } else if b == nextId {
        assert !(users[a].username == u.username || users[a].email == u.email);
      }
    }
  }

  /** Changing a row in place keeps the invariant when name, address, and the token pairing are kept. */
  lemma UpdateKeepsInvariant(users: map<UserId, User>, nextId: UserId, id: UserId, u: User)
    requires TableInvariant(users, nextId) && id in users
    requires u.username == users[id].username && u.email == users[id].email
    requires u.resetToken.Some? <==> u.resetExpires.Some?
    ensures TableInvariant(users[id := u], nextId)
  {
  }

  /** A redemption removes exactly the redeemed user from the holders of the token. */
  lemma {:induction false} RedeemRemovesHolder(users: map<UserId, User>, token: string, now: int, id: UserId, h: PasswordHash)
    requires id in TokenHolders(users, token, now)
    ensures TokenHolders(users[id := Redeemed(users[id], h)], token, now) == TokenHolders(users, token, now) - {id}
  {
    var after := users[id := Redeemed(users[id], h)];
    assert !HoldsValidToken(after[id], token, now);
    forall x | x in TokenHolders(users, token, now) - {id} ensures x in TokenHolders(after, token, now) {
      assert after[x] == users[x];
    }
  }

  /**
    A token issued at `issued` to a row, and held by no other row, can be
    redeemed at `now` by that row alone while `now < issued + 86400`, and by
    no one afterwards.
  */
  lemma {:induction false} IssuedTokenHolders(users: map<UserId, User>, id: UserId, token: string, issued: int, now: int)
    requires id in users
    requires forall other :: other in users && other != id ==> users[other].resetToken != Some(token)
    ensures TokenHolders(users[id := WithResetToken(users[id], token, issued)], token, now)
            == if now < issued + ResetTokenLifetime then {id} else {}
  {
    var after := users[id := WithResetToken(users[id], token, issued)];
    forall x | x in users && x != id ensures x !in TokenHolders(after, token, now) {
      assert after[x] == users[x];
    }
    if now < issued + ResetTokenLifetime {
      assert id in TokenHolders(after, token, now);
    }
  }

  class AuthService {
    var users: map<UserId, User>
    /** The table's AUTO_INCREMENT counter. */
    var nextId: UserId
    const session: SessionState

    ghost predicate Valid()
      reads this, session
    {
      TableInvariant(users, nextId) && session.Valid()
    }

    /** The service over an empty table and the visitor's session. */
    constructor (s: SessionState)
      requires s.Valid()
      ensures Valid() && users == map[] && nextId == 1 && session == s
    {
      users := map[];
      nextId := 1;
      session := s;
    }

    /** `SELECT ... FROM users WHERE email = ?` (or `username = ?`): by uniqueness at most one row. */
    method SelectUser(byEmail: bool, key: string) returns (found: Option<UserId>)
      requires Valid()
      ensures found.None? <==> forall id :: id in users ==> !MatchesBy(users[id], byEmail, key)
      ensures found.Some? ==> found.value in users && MatchesBy(users[found.value], byEmail, key)
      ensures found.Some? ==> forall id :: id in users && MatchesBy(users[id], byEmail, key) ==> id == found.value
    {
      if exists id :: id in users && MatchesBy(users[id], byEmail, key) {
        var id :| id in users && MatchesBy(users[id], byEmail, key);
        found := Some(id);
      } else {
        found := None;
      }
    }

    /** `registerUser`: the input checks, the uniqueness check, then one INSERT. */
    method RegisterUser(username: string, email: string, password: string, salt: Salt, now: int, dbFails: bool)
      returns (r: Response)
      requires Valid()
      modifies this`users, this`nextId
      ensures Valid()
      ensures RegisterInputError(username, email, password).Some? ==>
                r == Response(false, RegisterInputError(username, email, password).value)
      ensures RegisterInputError(username, email, password).None? && dbFails ==> r == Response(false, MsgRegisterError)
      ensures RegisterInputError(username, email, password).None? && !dbFails && Taken(old(users), username, email) ==>
                r == Response(false, MsgAccountExists)
      ensures r.success <==> RegisterInputError(username, email, password).None? && !dbFails && !Taken(old(users), username, email)
      ensures !r.success ==> users == old(users) && nextId == old(nextId)
      ensures r.success ==> r.message == MsgRegistered && old(nextId) !in old(users) && nextId == old(nextId) + 1
      ensures r.success ==> users == old(users)[old(nextId) := User(username, email, Hash(password, salt), None, None, now)]
      ensures r.success ==> Verify(password, users[old(nextId)].hash)
    {
      var invalid := RegisterInputError(username, email, password);
      if invalid.Some? {
        return Response(false, invalid.value);
      }
      if dbFails {
        return Response(false, MsgRegisterError);
      }
      if exists id :: id in users && (users[id].username == username || users[id].email == email) {
        return Response(false, MsgAccountExists);
      }
      var hashedPassword := Hash(password, salt);
      var row := User(username, email, hashedPassword, None, None, now);
      InsertKeepsInvariant(users, nextId, row);
      users := users[nextId := row];
      nextId := nextId + 1;
      return Response(true, MsgRegistered);
    }

    /**
      `loginUser`: one lookup, by email when the identifier is a valid address and
      by username otherwise; an unknown user and a wrong password fail alike and
      leave the session as it was.
    */
    method LoginUser(identifier: string, password: string, dbFails: bool) returns (r: Response, who: Option<Identity>)
      requires Valid()
      modifies session`fields
      ensures Valid()
      ensures Empty(identifier) || Empty(password) ==> r == Response(false, MsgLoginRequired)
      ensures !Empty(identifier) && !Empty(password) && dbFails ==> r == Response(false, MsgLoginError)
      ensures r.success <==> !Empty(identifier) && !Empty(password) && !dbFails && Authenticates(users, identifier, password)
      ensures !Empty(identifier) && !Empty(password) && !dbFails && !r.success ==> r.message == MsgInvalidCredentials
      ensures !r.success ==> who.None? && session.fields == old(session.fields)
      ensures r.success ==> r.message == MsgLoggedIn && who.Some? && who.value.id in users
      ensures r.success ==> var u := users[who.value.id];
                && MatchesBy(u, IsEmail(identifier), identifier) && Verify(password, u.hash)
                && who.value == Identity(who.value.id, u.username, u.email)
                && session.fields == old(session.fields)[UserIdKey := Int(who.value.id)][UsernameKey := Str(u.username)]
                                       [EmailKey := Str(u.email)][LoggedInKey := Bool(true)]
      ensures r.success ==> LoggedIn(session.fields)
    {
      if Empty(identifier) || Empty(password) {
        return Response(false, MsgLoginRequired), None;
      }
      if dbFails {
        return Response(false, MsgLoginError), None;
      }
      var byEmail := IsEmail(identifier);
      var found := SelectUser(byEmail, identifier);
      if found.None? {
        return Response(false, MsgInvalidCredentials), None;
      }
      var id := found.value;
      var user := users[id];
      if Verify(password, user.hash) {
        session.fields := session.fields[UserIdKey := Int(id)];
        session.fields := session.fields[UsernameKey := Str(user.username)];
        session.fields := session.fields[EmailKey := Str(user.email)];
        session.fields := session.fields[LoggedInKey := Bool(true)];
        return Response(true, MsgLoggedIn), Some(Identity(id, user.username, user.email));
      } else {
        return Response(false, MsgInvalidCredentials), None;
      }
    }

    /** `logoutUser`: `$_SESSION = []`, then `session_destroy()`. */
    method LogoutUser()
      requires Valid()
      modifies session`fields, session`live
      ensures Valid()
      ensures session.fields == map[] && !LoggedIn(session.fields)
      ensures session.live == old(session.live) - {session.id}
    {
      session.fields := map[];
      session.Destroy();
    }

    /** `isUserLoggedIn`. */
    method IsUserLoggedIn() returns (b: bool)
      ensures b <==> LoggedIn(session.fields)
    {
      b := LoggedInKey in session.fields && session.fields[LoggedInKey] == Bool(true);
    }

    /**
      `generatePasswordResetToken`: every well-formed address gets `success`,
      registered or not; only a registered one gets a token, written to that
      row alone.
    */
    method GeneratePasswordResetToken(email: string, random: seq<Byte>, now: int, dbFails: bool)
      returns (r: Response, token: Option<string>)
      requires Valid() && |random| == 32
      modifies this`users
      ensures Valid()
      ensures token.None? ==> users == old(users)
      ensures Empty(email) || !IsEmail(email) ==> r == Response(false, MsgInvalidEmailAddress) && token.None?
      ensures !Empty(email) && IsEmail(email) && dbFails ==> r == Response(false, MsgResetTokenError) && token.None?
      ensures r.success <==> !Empty(email) && IsEmail(email) && !dbFails
      ensures r.success && (forall id :: id in old(users) ==> old(users)[id].email != email) ==>
                r.message == MsgResetIfRegistered && token.None?
      ensures r.success && (exists id :: id in old(users) && old(users)[id].email == email) ==>
                r.message == MsgResetGenerated && token == Some(Bin2Hex(random))
      ensures token.Some? ==> |token.value| == 64 && IsLowerHexString(token.value)
      ensures token.Some? ==> exists id :: (id in old(users) && old(users)[id].email == email &&
                users == old(users)[id := WithResetToken(old(users)[id], token.value, now)])
    {
      if Empty(email) || !IsEmail(email) {
        return Response(false, MsgInvalidEmailAddress), None;
      }
      if dbFails {
        return Response(false, MsgResetTokenError), None;
      }
      var found := SelectUser(true, email);
      if found.None? {
        // the same `success` whether or not the address is registered
        return Response(true, MsgResetIfRegistered), None;
      }
      var id := found.value;
      var t := Bin2Hex(random);
      var row := WithResetToken(users[id], t, now);
      UpdateKeepsInvariant(users, nextId, id, row);
      users := users[id := row];
      return Response(true, MsgResetGenerated), Some(t);
    }

    /**
      `resetPassword`: succeeds exactly when some user holds `token` unexpired and
      the new password is long enough; that user's hash is replaced and the token
      cleared, so the same token cannot be redeemed for that user again.
    */
    method ResetPassword(token: string, newPassword: string, salt: Salt, now: int, dbFails: bool)
      returns (r: Response, ghost redeemed: Option<UserId>)
      requires Valid()
      modifies this`users
      ensures Valid()
      ensures Empty(token) || Empty(newPassword) ==> r == Response(false, MsgInvalidTokenOrPassword)
      ensures !Empty(token) && !Empty(newPassword) && StrLen(newPassword) < MinPasswordBytes ==>
                r == Response(false, MsgPasswordTooShort)
      ensures !Empty(token) && !Empty(newPassword) && StrLen(newPassword) >= MinPasswordBytes && dbFails ==>
                r == Response(false, MsgResetError)
      ensures (!Empty(token) && !Empty(newPassword) && StrLen(newPassword) >= MinPasswordBytes && !dbFails &&
                TokenHolders(old(users), token, now) == {}) ==> r == Response(false, MsgInvalidOrExpiredToken)
      ensures r.success <==> (!Empty(token) && !Empty(newPassword) && StrLen(newPassword) >= MinPasswordBytes &&
                !dbFails && TokenHolders(old(users), token, now) != {})
      ensures !r.success ==> users == old(users)
      ensures r.success ==> (r.message == MsgPasswordReset && redeemed.Some? &&
                redeemed.value in TokenHolders(old(users), token, now) &&
                users == old(users)[redeemed.value := Redeemed(old(users)[redeemed.value], Hash(newPassword, salt))])
      ensures r.success ==> Verify(newPassword, users[redeemed.value].hash)
      ensures r.success ==> TokenHolders(users, token, now) == TokenHolders(old(users), token, now) - {redeemed.value}
    {
      redeemed := None;
      if Empty(token) || Empty(newPassword) {
        return Response(false, MsgInvalidTokenOrPassword), redeemed;
      }
      if StrLen(newPassword) < MinPasswordBytes {
        return Response(false, MsgPasswordTooShort), redeemed;
      }
      if dbFails {
        return Response(false, MsgResetError), redeemed;
      }
      if !exists id :: id in users && HoldsValidToken(users[id], token, now) {
        assert TokenHolders(users, token, now) == {};
        return Response(false, MsgInvalidOrExpiredToken), redeemed;
      }
      // `fetch()` takes one of the matching rows
      var id :| id in users && HoldsValidToken(users[id], token, now);
      var hashedPassword := Hash(newPassword, salt);
      RedeemRemovesHolder(users, token, now, id, hashedPassword);
      var row := Redeemed(users[id], hashedPassword);
      UpdateKeepsInvariant(users, nextId, id, row);
      users := users[id := row];
      redeemed := Some(id);
      return Response(true, MsgPasswordReset), redeemed;
    }

    /** `getUserById`: the row's public columns, or `null`. */
    method GetUserById(userId: int, dbFails: bool) returns (p: Option<Profile>)
      requires Valid()
      ensures p.Some? <==> !dbFails && userId in users
      ensures p.Some? ==> p.value == Profile(userId, users[userId].username, users[userId].email, users[userId].createdAt)
    {
      if dbFails || userId !in users {
        return None;
      }
      var u := users[userId];
      return Some(Profile(userId, u.username, u.email, u.createdAt));
    }

    /**
      `updateUserProfile`: updates only the non-empty columns supplied; an
      update of a user id that does not exist changes no row and still succeeds.
    */
    method UpdateUserProfile(userId: int, data: map<string, string>, dbFails: bool) returns (r: Response)
      requires Valid()
      modifies this`users, session`fields
      ensures Valid()
      ensures userId == 0 || data == map[] ==> r == Response(false, MsgInvalidUserOrData)
      ensures userId != 0 && data != map[] && ProfileInputError(data).Some? ==>
                r == Response(false, ProfileInputError(data).value)
      ensures (userId != 0 && data != map[] && ProfileInputError(data).None? &&
                (dbFails || ProfileCollides(old(users), userId, data))) ==> r == Response(false, MsgProfileError)
      ensures r.success <==> (userId != 0 && data != map[] && !dbFails && ProfileInputError(data).None? &&
                !ProfileCollides(old(users), userId, data))
      ensures !r.success ==> users == old(users) && session.fields == old(session.fields)
      ensures r.success ==> r.message == MsgProfileUpdated
      ensures r.success && userId in old(users) ==> users == old(users)[userId := ApplyProfile(old(users)[userId], data)]
      ensures r.success && userId !in old(users) ==> users == old(users)
      ensures r.success ==> session.fields == CachedIdentity(old(session.fields), data)
    {
      if userId == 0 || data == map[] {
        return Response(false, MsgInvalidUserOrData);
      }
      var username: Option<string> := None;
      var email: Option<string> := None;
      if UsernameKey in data && !Empty(data[UsernameKey]) {
        username := Some(data[UsernameKey]);
      }
      if EmailKey in data && !Empty(data[EmailKey]) {
        if !IsEmail(data[EmailKey]) {
          return Response(false, MsgInvalidEmailFormat);
        }
        email := Some(data[EmailKey]);
      }
      if username.None? && email.None? {
        return Response(false, MsgNoFieldsToUpdate);
      }
      if dbFails || ProfileCollides(users, userId, data) {
        // the UPDATE is the first query; a violated UNIQUE constraint raises PDOException like any other storage error
        return Response(false, MsgProfileError);
      }
      if userId in users {
        var row := ApplyProfile(users[userId], data);
        ProfileUpdateKeepsInvariant(users, nextId, userId, data);
        users := users[userId := row];
      }
      RefreshCachedIdentity(data);
      return Response(true, MsgProfileUpdated);
    }

    /** Lines 300-306: the cached `username` and `email` follow a successful update. */
    method RefreshCachedIdentity(data: map<string, string>)
      requires Valid()
      modifies session`fields
      ensures Valid()
      ensures session.fields == CachedIdentity(old(session.fields), data)
    {
      if UsernameKey in data && UsernameKey in session.fields {
        session.fields := session.fields[UsernameKey := Str(data[UsernameKey])];
      }
      if EmailKey in data && EmailKey in session.fields {
        session.fields := session.fields[EmailKey := Str(data[EmailKey])];
      }
    }

    /**
      `changePassword`: the stored hash is replaced only when the current password
      verifies and the new one has at least 8 bytes; nothing else in the row changes.
    */
    method ChangePassword(userId: int, currentPassword: string, newPassword: string, salt: Salt, dbFails: bool)
      returns (r: Response)
      requires Valid()
      modifies this`users
      ensures Valid()
      ensures userId == 0 || Empty(currentPassword) || Empty(newPassword) ==> r == Response(false, MsgAllFieldsRequired)
      ensures userId != 0 && !Empty(currentPassword) && !Empty(newPassword) && StrLen(newPassword) < MinPasswordBytes ==>
                r == Response(false, MsgNewPasswordTooShort)
      ensures (userId != 0 && !Empty(currentPassword) && !Empty(newPassword) && StrLen(newPassword) >= MinPasswordBytes) ==>
                (dbFails ==> r == Response(false, MsgChangeError)) &&
                (!dbFails && userId !in old(users) ==> r == Response(false, MsgUserNotFound)) &&
                (!dbFails && userId in old(users) && !Verify(currentPassword, old(users)[userId].hash) ==>
                   r == Response(false, MsgCurrentPasswordIncorrect))
      ensures r.success <==> (userId != 0 && !Empty(currentPassword) && !Empty(newPassword) &&
                StrLen(newPassword) >= MinPasswordBytes && !dbFails && userId in old(users) &&
                Verify(currentPassword, old(users)[userId].hash))
      ensures !r.success ==> users == old(users)
      ensures r.success ==> (r.message == MsgPasswordChanged &&
                users == old(users)[userId := old(users)[userId].(hash := Hash(newPassword, salt))])
      ensures r.success ==> Verify(newPassword, users[userId].hash)
      ensures r.success ==> (Verify(currentPassword, users[userId].hash) <==> BcryptKey(currentPassword) == BcryptKey(newPassword))
    {
      if userId == 0 || Empty(currentPassword) || Empty(newPassword) {
        return Response(false, MsgAllFieldsRequired);
      }
      if StrLen(newPassword) < MinPasswordBytes {
        return Response(false, MsgNewPasswordTooShort);
      }
      if dbFails {
        return Response(false, MsgChangeError);
      }
      if userId !in users {
        return Response(false, MsgUserNotFound);
      }
      if !Verify(currentPassword, users[userId].hash) {
        return Response(false, MsgCurrentPasswordIncorrect);
      }
      var hashedPassword := Hash(newPassword, salt);
      var row := users[userId].(hash := hashedPassword);
      UpdateKeepsInvariant(users, nextId, userId, row);
      users := users[userId := row];
      return Response(true, MsgPasswordChanged);
    }
  }

  /** A profile update that collides with no other row keeps both UNIQUE constraints. */
  lemma ProfileUpdateKeepsInvariant(users: map<UserId, User>, nextId: UserId, id: UserId, data: map<string, string>)
    requires TableInvariant(users, nextId) && id in users
    requires !ProfileCollides(users, id, data)
    ensures TableInvariant(users[id := ApplyProfile(users[id], data)], nextId)
  {
    var t := users[id := ApplyProfile(users[id], data)];
    forall a, b | a in t && b in t && a != b
      ensures t[a].username != t[b].username && t[a].email != t[b].email
    {
      if a == id {
        assert b in users && b != id;
      } else if b == id {
        assert a in users && a != id;
      }
    }
  }
}

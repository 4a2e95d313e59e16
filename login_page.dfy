/**
  login.php: the request handler in front of `loginUser`. It sends a visitor
  who is already logged in to the dashboard, refuses a POST without the
  session's CSRF token, sanitizes and validates the form, and on a good login
  rotates the session identifier, sets the welcome flash and redirects.
*/
module LoginPage {

  import opened Wrappers
  import opened PhpStrings
  import opened Externals
  import opened Sanitize
  import opened Validation
  import opened Session
  import opened Auth

  /** How the request ends. */
  datatype Outcome =
    | Exit(location: string)                                        // `header('Location: ...'); exit;`
    | Died(message: string)                                         // `die(...)`
    | Render(errors: map<string, string>, username: string, csrf: string)  // the form, with its errors

  const CsrfFailure := "CSRF token validation failed"
  const GeneralKey := "general"
  const UsernameField := "username"
  const PasswordField := "password"

  /** `$_POST[key] ?? ''`. */
  function Param(post: map<string, string>, key: string): string {
    if key in post then post[key] else ""
  }

  /** The posted token is set and equals the session's. */
  predicate CsrfAccepted(fields: map<string, Value>, post: map<string, string>) {
    CsrfKey in post && CsrfKey in fields && fields[CsrfKey] == Str(post[CsrfKey])
  }

  /** The two form fields after sanitizing the username. */
  function LoginData(post: map<string, string>): map<string, string> {
    map[UsernameField := SanitizeInput(Param(post, UsernameField)), PasswordField := Param(post, PasswordField)]
  }

  /** Neither the sanitized username nor the password is PHP-`empty`: what the login rules accept. */
  predicate Filled(post: map<string, string>) {
    !Empty(LoginData(post)[UsernameField]) && !Empty(LoginData(post)[PasswordField])
  }

  function LoginRules(): map<string, string> {
    map[UsernameField := "required", PasswordField := "required"]
  }

  /** The flash a successful login leaves for the dashboard. */
  function Welcome(username: string): Flash {
    Flash("success", "Welcome back, " + username + "!")
  }

  /**
    `$_SESSION` after a good login as user `id` with row `u`: the four entries
    `loginUser` writes, then the welcome flash; every other entry is kept.
  */
  function SignedIn(fields: map<string, Value>, id: UserId, u: User): map<string, Value> {
    fields[UserIdKey := Int(id)][UsernameKey := Str(u.username)][EmailKey := Str(u.email)]
          [LoggedInKey := Bool(true)][FlashKey := FlashValue(Welcome(u.username))]
  }

  /** Lines 25-39 of login.php: the sanitized username, the password and their validation errors. */
  method ValidateLogin(post: map<string, string>) returns (username: string, password: string, errors: map<string, string>)
    ensures username == LoginData(post)[UsernameField] && password == LoginData(post)[PasswordField]
    ensures errors == FormErrors(LoginData(post), LoginRules())
    ensures errors == map[] <==> Filled(post)
  {
    username := SanitizeInput(Param(post, UsernameField));
    password := Param(post, PasswordField);
    errors := ValidateFormInput(map[UsernameField := username, PasswordField := password], LoginRules());
    LoginRulesAcceptExactlyFilled(username, password);
  }

  /**
    Lines 44-60 of login.php: log in; on success rotate the identifier and set
    the welcome flash, otherwise report the failure under `general`.
  */
  method LogIn(auth: AuthService, username: string, password: string, freshId: SessionId, dbFails: bool)
    returns (done: bool, errors: map<string, string>)
    requires auth.Valid() && auth.session.id in auth.session.live && freshId !in auth.session.live
    requires !Empty(username) && !Empty(password)
    modifies auth.session
    ensures auth.Valid()
    ensures done <==> !dbFails && Authenticates(auth.users, username, password)
    ensures !done && dbFails ==> errors == map[GeneralKey := MsgLoginError]
    ensures !done && !dbFails ==> errors == map[GeneralKey := MsgInvalidCredentials]
    ensures !done ==> && auth.session.fields == old(auth.session.fields)
                      && auth.session.id == old(auth.session.id) && auth.session.live == old(auth.session.live)
    ensures done ==> exists id :: (&& id in auth.users
                                   && MatchesBy(auth.users[id], IsEmail(username), username)
                                   && auth.session.fields == SignedIn(old(auth.session.fields), id, auth.users[id]))
    ensures done ==> && auth.session.id == freshId
                     && auth.session.live == old(auth.session.live) - {old(auth.session.id)} + {freshId}
    ensures done ==> && LoggedIn(auth.session.fields)
                     && UserIdKey in auth.session.fields && auth.session.fields[UserIdKey].Int?
                     && auth.session.fields[UserIdKey].i in auth.users
                     && FlashKey in auth.session.fields
                     && auth.session.fields[FlashKey] == FlashValue(Welcome(auth.users[auth.session.fields[UserIdKey].i].username))
  {
    var result, who := auth.LoginUser(username, password, dbFails);
    if !result.success {
      errors := map[GeneralKey := result.message];
      return false, errors;
    }
    auth.session.RegenerateSession(freshId);
    auth.session.SetFlashMessage("success", "Welcome back, " + who.value.username + "!");
    return true, map[];
  }

  /**
    One request to login.php. A POST logs in exactly when the visitor was not
    logged in, the CSRF token matches, both fields pass validation and the
    sanitized username (or address) and password authenticate; the form is
    rendered otherwise, with a CSRF token the session now holds.
  */
  method HandleRequest(auth: AuthService, isPost: bool, post: map<string, string>, freshId: SessionId,
                       random: seq<Byte>, dbFails: bool) returns (o: Outcome)
    requires auth.Valid() && auth.session.id in auth.session.live && freshId !in auth.session.live
    requires |random| == 32
    modifies auth.session
    ensures auth.Valid()
    ensures !o.Exit? || old(LoggedIn(auth.session.fields)) ==>
              auth.session.id == old(auth.session.id) && auth.session.live == old(auth.session.live)
    ensures old(LoggedIn(auth.session.fields)) ==>
              o == Exit(DashboardPage) && auth.session.fields == old(auth.session.fields)
    ensures !old(LoggedIn(auth.session.fields)) && isPost && !old(CsrfAccepted(auth.session.fields, post)) ==>
              o == Died(CsrfFailure) && auth.session.fields == old(auth.session.fields)
    ensures o.Render? && old(CsrfKey in auth.session.fields) ==>
              auth.session.fields == old(auth.session.fields) && o.csrf == old(auth.session.fields[CsrfKey].s)
    ensures o.Render? && old(CsrfKey !in auth.session.fields) ==>
              o.csrf == Bin2Hex(random) && auth.session.fields == old(auth.session.fields)[CsrfKey := Str(o.csrf)]
    ensures (!old(LoggedIn(auth.session.fields)) && isPost && old(CsrfAccepted(auth.session.fields, post)) &&
             !Filled(post)) ==>
              o.Render? && o.errors == FormErrors(LoginData(post), LoginRules()) && o.errors != map[]
    ensures !old(LoggedIn(auth.session.fields)) && !isPost ==> o.Render? && o.errors == map[]
    ensures o.Render? ==> CsrfKey in auth.session.fields && auth.session.fields[CsrfKey] == Str(o.csrf)
    ensures !old(LoggedIn(auth.session.fields)) ==>
              (o.Exit? <==> (isPost && old(CsrfAccepted(auth.session.fields, post)) &&
                 Filled(post) && !dbFails &&
                 Authenticates(auth.users, LoginData(post)[UsernameField], LoginData(post)[PasswordField])))
    ensures (!old(LoggedIn(auth.session.fields)) && isPost && old(CsrfAccepted(auth.session.fields, post)) &&
             Filled(post) && !o.Exit?) ==>
              o.Render? && o.errors == map[GeneralKey := if dbFails then MsgLoginError else MsgInvalidCredentials]
    ensures (!old(LoggedIn(auth.session.fields)) && o.Exit?) ==>
              && o.location == DashboardPage
              && (exists id :: (&& id in auth.users
                                && MatchesBy(auth.users[id], IsEmail(LoginData(post)[UsernameField]), LoginData(post)[UsernameField])
                                && auth.session.fields == SignedIn(old(auth.session.fields), id, auth.users[id])))
              && auth.session.id == freshId
              && auth.session.live == old(auth.session.live) - {old(auth.session.id)} + {freshId}
              && LoggedIn(auth.session.fields)
              && UserIdKey in auth.session.fields && auth.session.fields[UserIdKey].Int?
              && auth.session.fields[UserIdKey].i in auth.users
              && FlashKey in auth.session.fields
              && auth.session.fields[FlashKey] == FlashValue(Welcome(auth.users[auth.session.fields[UserIdKey].i].username))
  {
    var g := auth.session.RedirectIfLoggedIn();
    if g.Redirect? {
      return Exit(g.location);
    }
    var errors: map<string, string> := map[];
    var username := "";
    if isPost {
      var ok := false;
      if CsrfKey in post {
        ok := auth.session.VerifyCSRFToken(post[CsrfKey]);
      }
      if !ok {
        return Died(CsrfFailure);
      }
      var password, validation;
      username, password, validation := ValidateLogin(post);
      if validation != map[] {
        errors := validation;
      } else {
        var done;
        done, errors := LogIn(auth, username, password, freshId, dbFails);
        if done {
          return Exit(DashboardPage);
        }
      }
    }
    var csrfToken := auth.session.GenerateCSRFToken(random);
    return Render(errors, username, csrfToken);
  }

  /** `required` on both fields passes exactly when neither is PHP-`empty`. */
  lemma LoginRulesAcceptExactlyFilled(username: string, password: string)
    ensures FormErrors(map[UsernameField := username, PasswordField := password], LoginRules()) == map[]
            <==> !Empty(username) && !Empty(password)
  {
    var data := map[UsernameField := username, PasswordField := password];
    RequiredOnlyRule(data, UsernameField);
    RequiredOnlyRule(data, PasswordField);
    assert LoginRules().Keys == {UsernameField, PasswordField};
    NoErrorsIffAllPass(data, LoginRules());
  }

  /** A field whose whole rule is `required` fails exactly when it is missing. */
  lemma RequiredOnlyRule(data: map<string, string>, field: string)
    ensures FieldError(data, field, "required").None? <==> !Missing(data, field)
  {
    RequiredHasNoArguments();
    if Missing(data, field) {
      assert MatchesAt("required", 0, "required");
    }
  }

  /** The rule `required` names no email, min, max or match check. */
  lemma RequiredHasNoArguments()
    ensures !Contains("required", "email")
    ensures MinArg("required").None? && MaxArg("required").None? && MatchArg("required").None?
  {
    ContainedCharsOccur("required", "email");
    assert 'm' in "email" && 'm' !in "required";
    CapturedPrefixOccurs("required", "min:", Digit);
    CapturedPrefixOccurs("required", "max:", Digit);
    CapturedPrefixOccurs("required", "match:", Word);
    assert ':' in "min:" && ':' in "max:" && ':' in "match:" && ':' !in "required";
  }
}

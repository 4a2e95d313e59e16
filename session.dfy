/**
  includes/session.php: the `$_SESSION` record of one visitor and the session
  store behind it. `fields` is `$_SESSION`, `id` is `session_id()`, and `live`
  is the set of identifiers the store currently resolves to a session.
*/
module Session {

  import opened Wrappers
  import opened PhpStrings

  type SessionId = string

  /** The one-shot notification `['type' => ..., 'message' => ...]`. */
  datatype Flash = Flash(kind: string, message: string)

  /** A value stored under a key of `$_SESSION`. */
  datatype Value = Str(s: string) | Int(i: int) | Bool(b: bool) | FlashValue(flash: Flash)

  const FlashKey := "flash"
  const CsrfKey := "csrf_token"
  const LoggedInKey := "logged_in"
  const ErrorKey := "error"
  const UserIdKey := "user_id"
  const UsernameKey := "username"
  const EmailKey := "email"

  const NotLoggedInMessage := "You must be logged in to access that page"
  const LoginPage := "login.php"
  const DashboardPage := "dashboard.php"

  /** What a guard does to the request: let it go on, or send a `Location:` header and `exit`. */
  datatype Guard = Continue | Redirect(location: string)

  /** `flash` only ever holds a flash record and `csrf_token` a string: the only code that writes them. */
  predicate WellFormed(fields: map<string, Value>) {
    && (FlashKey in fields ==> fields[FlashKey].FlashValue?)
    && (CsrfKey in fields ==> fields[CsrfKey].Str?)
  }

  /** `isset($_SESSION['logged_in']) && $_SESSION['logged_in'] === true`: the boolean `true`, nothing truthy. */
  predicate LoggedIn(fields: map<string, Value>) {
    LoggedInKey in fields && fields[LoggedInKey] == Bool(true)
  }

  /** The markup `displayFlashMessage` echoes. */
  function RenderFlash(f: Flash): string {
    "<div class='alert alert-" + f.kind + "'>" + f.message + "</div>"
  }

  class SessionState {
    var id: SessionId
    var fields: map<string, Value>
    var live: set<SessionId>

    ghost predicate Valid()
      reads this
    {
      WellFormed(fields)
    }

    /** `session_start()` resuming session `sid` with the data the store holds for it. */
    constructor (sid: SessionId, data: map<string, Value>, others: set<SessionId>)
      requires WellFormed(data)
      ensures Valid()
      ensures id == sid && fields == data && live == others + {sid}
    {
      id := sid;
      fields := data;
      live := others + {sid};
    }

    /** `requireLogin`: a visitor who is not logged in gets the `error` message and is sent to the login page. */
    method RequireLogin() returns (g: Guard)
      requires Valid()
      modifies this`fields
      ensures Valid()
      ensures g == Continue <==> old(LoggedIn(fields))
      ensures g == Continue ==> fields == old(fields)
      ensures g != Continue ==> g == Redirect(LoginPage) && fields == old(fields)[ErrorKey := Str(NotLoggedInMessage)]
    {
      if !(LoggedInKey in fields) || fields[LoggedInKey] != Bool(true) {
        fields := fields[ErrorKey := Str(NotLoggedInMessage)];
        return Redirect(LoginPage);
      }
      return Continue;
    }

    /** `redirectIfLoggedIn`: the converse guard, which writes nothing. */
    method RedirectIfLoggedIn() returns (g: Guard)
      ensures g == Continue <==> !LoggedIn(fields)
      ensures g != Continue ==> g == Redirect(DashboardPage)
    {
      if LoggedInKey in fields && fields[LoggedInKey] == Bool(true) {
        return Redirect(DashboardPage);
      }
      return Continue;
    }

    /** `setFlashMessage`: replaces whatever flash was there. */
    method SetFlashMessage(kind: string, message: string)
      requires Valid()
      modifies this`fields
      ensures Valid()
      ensures fields == old(fields)[FlashKey := FlashValue(Flash(kind, message))]
    {
      fields := fields[FlashKey := FlashValue(Flash(kind, message))];
    }

    /** `getFlashMessage`: hands out the flash and removes it, so it is read at most once. */
    method GetFlashMessage() returns (f: Option<Flash>)
      requires Valid()
      modifies this`fields
      ensures Valid()
      ensures old(FlashKey in fields) ==> f == Some(old(fields)[FlashKey].flash)
      ensures old(FlashKey !in fields) ==> f == None
      ensures fields == old(fields) - {FlashKey}
    {
      if FlashKey in fields {
        var flash := fields[FlashKey].flash;
        fields := fields - {FlashKey};
        return Some(flash);
      }
      return None;
    }

    /** `hasFlashMessage`: a read that changes nothing. */
    method HasFlashMessage() returns (b: bool)
      ensures b <==> FlashKey in fields
    {
      b := FlashKey in fields;
    }

    /** `displayFlashMessage`: consumes the flash as `getFlashMessage` does and returns what it echoes. */
    method DisplayFlashMessage() returns (html: string)
      requires Valid()
      modifies this`fields
      ensures Valid()
      ensures fields == old(fields) - {FlashKey}
      ensures old(FlashKey in fields) ==> html == RenderFlash(old(fields)[FlashKey].flash)
      ensures old(FlashKey !in fields) ==> html == ""
    {
      var flash := GetFlashMessage();
      html := "";
      if flash.Some? {
        html := RenderFlash(flash.value);
      }
    }

    /** `generateCSRFToken`: creates the token from 32 random bytes on first use and afterwards returns it unchanged. */
    method GenerateCSRFToken(random: seq<Byte>) returns (token: string)
      requires Valid() && |random| == 32
      modifies this`fields
      ensures Valid()
      ensures old(CsrfKey in fields) ==> fields == old(fields) && token == old(fields)[CsrfKey].s
      ensures old(CsrfKey !in fields) ==> token == Bin2Hex(random) && fields == old(fields)[CsrfKey := Str(token)]
      ensures fields[CsrfKey] == Str(token)
      ensures old(CsrfKey !in fields) ==> |token| == 64 && IsLowerHexString(token)
    {
      if CsrfKey !in fields {
        fields := fields[CsrfKey := Str(Bin2Hex(random))];
      }
      token := fields[CsrfKey].s;
    }

    /** `verifyCSRFToken`: false before any token exists, otherwise string equality with the stored token. */
    method VerifyCSRFToken(candidate: string) returns (ok: bool)
      requires Valid()
      ensures CsrfKey !in fields ==> !ok
      ensures CsrfKey in fields ==> (ok <==> fields[CsrfKey].s == candidate)
    {
      if CsrfKey !in fields {
        return false;
      }
      ok := fields[CsrfKey].s == candidate;
    }

    /** `session_destroy()`: the store forgets the current identifier; `$_SESSION` itself is left as it is. */
    method Destroy()
      modifies this`live
      ensures live == old(live) - {id}
    {
      live := live - {id};
    }

    /**
      `regenerateSession`: clear, destroy, restart and `session_regenerate_id(true)`,
      then restore. Every field is kept; only the identifier changes, and the old
      one no longer resolves. The session must be active (`session_regenerate_id`
      refuses otherwise), and `freshId` is the identifier PHP generates, which no
      live session uses.
    */
    method RegenerateSession(freshId: SessionId)
      requires Valid() && id in live && freshId !in live
      modifies this
      ensures Valid()
      ensures fields == old(fields)
      ensures id == freshId && id != old(id)
      ensures old(id) !in live && live == old(live) - {old(id)} + {freshId}
    {
      var oldSessionData := fields;
      fields := map[];
      Destroy();
      live := live + {id};               // session_start() under the same identifier
      live := live - {id} + {freshId};   // session_regenerate_id(true) deletes the old one
      id := freshId;
      fields := oldSessionData;
    }
  }
}

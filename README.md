# whackamole authentication and session core, in Dafny

This project models the authentication and session-security part of the
whackamole PHP application:

- **Session** (`includes/session.php`): one visitor's `$_SESSION` record and the session store behind it.
  - The login guards.
  - The one-shot flash message.
  - The lazily created CSRF token.
  - Session-identifier regeneration.
- **Accounts** (`includes/auth.php`): register, log in, log out, issue a password-reset token, redeem it, read a profile, update a profile, and change the password. These run over the `users` table, together with the visitor's session.
- **Form helpers** (`includes/functions.php`):
  - `sanitizeInput`: `trim`, then `stripslashes`, then `htmlspecialchars`.
  - `validateFormInput`: the `required` / `email` / `min:n` / `max:n` / `match:f` rule language and its errors map.
- **The login page** (`login.php`): the request handler in front of `loginUser`.

Each PHP entity takes the form the code gives it.

- The session is a class (`Session.SessionState`). Its `fields` map is `$_SESSION`, and `live` is the set of identifiers the store currently resolves.
- The account operations are methods of `Auth.AuthService`. The class holds the `users` table as a map from the AUTO_INCREMENT id to the row, the next id, and the session.
  - `Auth.TableInvariant` states the table's UNIQUE constraints on `username` and `email`.
  - It also states that a reset token always has an expiry.
  - Every method preserves them.
- `validateFormInput` is a loop over the rules that overwrites entries of an errors map, proved equal to the pure definition `Validation.FormErrors`.
- `sanitizeInput` is a composition of pure functions. Each stage has a partner that fixes its meaning:
  - `trim` has idempotence and an edge property;
  - `stripslashes` undoes `addslashes`;
  - an HTML unescaper undoes `htmlspecialchars`.

PHP's own semantics are written out where they matter:

- `empty("0")` is true.
- `strlen` counts UTF-8 bytes.
- `strpos` is a substring search.
- `preg_match` takes the leftmost match, greedily.
- `(int)` reads the digits as a decimal number.
- `ucfirst` upper-cases an ASCII first letter.
- `bin2hex` writes lowercase hexadecimal.
- `trim` strips space, tab, LF, CR, NUL and vertical tab.
- `htmlspecialchars` with `ENT_QUOTES` writes `&amp; &quot; &#039; &lt; &gt;`.

The environment becomes parameters:

- The salt `password_hash` draws.
- The 32 bytes from `random_bytes`.
- The clock `now`, in seconds.
- The identifier PHP generates for `session_regenerate_id`.
- `dbFails`, which stands for a `PDOException` raised by a query on a live connection. It takes effect at the operation's first query, gives the operation's generic failure message and changes nothing. In `updateUserProfile` the first query comes after the input checks, so an invalid address or an empty request is still reported as such.

`password_hash(..., PASSWORD_DEFAULT)` is bcrypt, which reads only the first 72 bytes of the password's UTF-8 encoding. The model's hash is a salted record of exactly those bytes (`Externals.BcryptKey`), and `password_verify` compares them (`Externals.Hash`). Passwords of at most 72 bytes verify exactly (`Externals.ShortPasswordsVerifyExactly`), and longer ones that share their first 72 bytes verify each other's hash (`Externals.LongPasswordsShareHash`). `filter_var(..., FILTER_VALIDATE_EMAIL)` becomes a fixed, simplified address predicate (`Externals.IsEmail`). No proof depends on which strings it accepts, beyond the concrete addresses of the walk-through and the fact that an accepted address contains `@`.

Where the code and its own comments or the behaviour they announce differ, the model follows the code:

- The reset request is meant not to reveal whether an address is registered (includes/auth.php:158). It still tells the two apart by message and by the returned token; only `success` is the same for both (`Auth.AuthService.GeneratePasswordResetToken`).
- `regenerateSession` keeps the CSRF token, along with every other field.
- A profile update overwrites the cached `username`/`email` whenever the request sets the key (`isset`), even to an empty value that the table update skipped. `Auth.CachedNameCanDivergeFromRow` shows the result: a stored name and a cached name that differ.

`Scenarios` proves, across several calls, the behaviour the code's comments and messages announce:

- A flash is shown once.
- The CSRF token is stable, and survives login's identifier rotation.
- A reset token is spent by its first use and lapses after 24 hours.
- Logging out ends the login.
- The register/login/reset walk-through for `alice` ends as described.

## Model

| member | source | states |
|---|---|---|
| PhpStrings.Empty | includes/functions.php:33 | PHP's `empty()` on a string: true for `""` and for `"0"` |
| PhpStrings.Utf8Char | includes/functions.php:50 | a character's UTF-8 bytes, as many as its width, and the character itself when ASCII |
| PhpStrings.Utf8Encode | includes/functions.php:50 | the bytes PHP holds for a text, `strlen` of them |
| PhpStrings.Utf8EncodeAppend | includes/functions.php:50 | the bytes of a concatenation are the concatenated bytes |
| PhpStrings.Utf8LeadByte | includes/functions.php:50 | the first byte of a character's encoding tells how many bytes it has |
| PhpStrings.Utf8Decodes | includes/functions.php:50 | the code point is read back from the payload bits of its bytes |
| PhpStrings.Utf8CharInjective | includes/functions.php:50 | no two characters share an encoding |
| PhpStrings.Utf8EncodeInjective | includes/functions.php:50 | no two texts share an encoding |
| PhpStrings.StrLen | includes/functions.php:50 | `strlen` counts UTF-8 bytes: between the character count and four times it |
| PhpStrings.StrLenAscii | includes/auth.php:33 | on ASCII text the byte length equals the character count |
| PhpStrings.StrLenNonAscii | includes/functions.php:58 | one non-ASCII character makes the byte length exceed the character count |
| PhpStrings.Contains | includes/functions.php:34 | `strpos(...) !== false` holds exactly when the needle occurs at some position |
| PhpStrings.ContainedCharsOccur | includes/functions.php:43 | a contained needle's characters all occur in the haystack |
| PhpStrings.Ucfirst | includes/functions.php:35 | same length and tail; the first character upper-cased when it is an ASCII lowercase letter |
| PhpStrings.NatToString | includes/functions.php:51 | the decimal text of the limit is a non-empty digit string |
| PhpStrings.DigitsValue | includes/functions.php:49 | `(int)` of a digit string as a decimal number, leading zeros allowed; `DigitsValueOfNatToString` fixes its meaning |
| PhpStrings.DigitsValueOfNatToString | includes/functions.php:49 | reading the printed number back with `(int)` gives the number |
| PhpStrings.Bin2Hex | includes/session.php:93 | `bin2hex` of n bytes is 2n lowercase hexadecimal characters |
| PhpStrings.Hex2BinOfBin2Hex | includes/session.php:93 | the hexadecimal token decodes back to the random bytes |
| PhpStrings.Hex2Bin | includes/session.php:93 | the decoding partner of `bin2hex`: half as many bytes as hex characters, and none for malformed text |
| PhpStrings.Bin2HexInjective | includes/auth.php:163 | different random bytes give different tokens |
| Externals.BcryptKey | includes/auth.php:49 | bcrypt reads the first 72 bytes of the UTF-8 encoding, or all of a shorter one |
| Externals.Hash | includes/auth.php:49 | the stored hash verifies the hashed password, and exactly the passwords with the same first 72 bytes |
| Externals.SaltedHashesDiffer | includes/auth.php:217 | the same password under different salts gives different hashes, both verifying |
| Externals.ShortPasswordsVerifyExactly | includes/auth.php:94 | for passwords of at most 72 bytes, a hash verifies exactly the password it was made from |
| Externals.KeysDifferByFirstChar | includes/auth.php:94 | passwords beginning with different ASCII characters never verify each other's hash |
| Externals.KeyOfLongStart | includes/auth.php:49 | text after a 72-byte start does not reach what bcrypt reads |
| Externals.LongPasswordsShareHash | includes/auth.php:94 | two passwords sharing a 72-byte start verify each other's hash, however they differ later |
| Externals.EmailNotEmpty | includes/auth.php:25-29 | an accepted address contains `@`, so it is never PHP-`empty` |
| Sanitize.TrimLeft | includes/functions.php:15 | the suffix left after only strippable characters were removed, starting with a kept one |
| Sanitize.TrimRight | includes/functions.php:15 | the prefix left after only strippable characters were removed, ending with a kept one |
| Sanitize.Trim | includes/functions.php:15 | the result has no strippable character at either end |
| Sanitize.TrimIsInfix | includes/functions.php:15 | `trim` keeps a contiguous middle and cuts only strippable characters at both ends |
| Sanitize.InfixOfSuffix | includes/functions.php:15 | a prefix of a suffix is an infix, followed by what followed it |
| Sanitize.TrimIdempotent | includes/functions.php:15 | text without strippable edges is unchanged, so trimming twice is trimming once |
| Sanitize.StripSlashes | includes/functions.php:16 | never longer than its input; text without backslashes is unchanged |
| Sanitize.AddSlashes | includes/functions.php:16 | the escaping partner at most doubles the length |
| Sanitize.StripSlashesOfAddSlashes | includes/functions.php:16 | `stripslashes` undoes `addslashes` |
| Sanitize.HtmlSpecialChars | includes/functions.php:17 | no raw `<`, `>`, `"` or `'` is left in the output |
| Sanitize.UnescapeEscapedChar | includes/functions.php:17 | decoding one escaped character gives the character back and continues after its entity |
| Sanitize.HtmlUnescapeOfHtmlSpecialChars | includes/functions.php:17 | decoding the entities of `htmlspecialchars` output gives back its input |
| Sanitize.SanitizeInput | includes/functions.php:14-19 | no raw special characters in the output; decoding gives back the trimmed, slash-stripped input |
| Sanitize.SanitizePlainText | includes/functions.php:14-19 | for backslash-free input the output is the escaped trimmed input, and its decoded text has no strippable edge |
| Sanitize.SanitizeCanLeaveEdgeSpace | includes/functions.php:15-16 | an escaped strippable character at the start survives as leading whitespace of the decoded output |
| Validation.Run | includes/functions.php:48 | the greedy `\d+`/`\w+` run: a prefix of class characters followed by none |
| Validation.FirstCapture | includes/functions.php:48-49 | no capture exactly when the pattern matches nowhere; otherwise the capture is the whole greedy run of the class after the leftmost match |
| Validation.ShiftMatch | includes/functions.php:48 | past a first position that does not match, the matches are those of the rest, one place later, the leftmost included |
| Validation.MinArg | includes/functions.php:48-49 | the `n` of `min:n`, after the `(int)` cast; its meaning is stated by MinArgIsLeftmostRun and PrintedLimitParses |
| Validation.MaxArg | includes/functions.php:56-57 | the `n` of `max:n`, after the `(int)` cast; its meaning is stated by MaxArgIsLeftmostRun and PrintedLimitParses |
| Validation.MatchArg | includes/functions.php:64-65 | the field named by `match:f`; its meaning is stated by MatchArgIsLeftmostRun |
| Validation.MinArgIsLeftmostRun | includes/functions.php:48-49 | no limit without a `min:` digit match; otherwise the value of the greedy digit run at the leftmost match |
| Validation.MaxArgIsLeftmostRun | includes/functions.php:56-57 | no limit without a `max:` digit match; otherwise the value of the greedy digit run at the leftmost match |
| Validation.MatchArgIsLeftmostRun | includes/functions.php:64-65 | no field without a `match:` word match; otherwise the greedy word run at the leftmost match |
| Validation.RunStopsAtEnd | includes/functions.php:48 | the greedy run over class characters stops exactly where a character outside the class follows |
| Validation.CaptureAtStart | includes/functions.php:48 | a rule starting with the prefix and a class argument captures exactly that argument |
| Validation.PrintedLimitParses | includes/functions.php:48-57 | a limit printed after `min:` or `max:` and followed by a non-digit reads back as the same number |
| Validation.CapturedPrefixOccurs | includes/functions.php:48 | a rule with a capture contains every character of the pattern's prefix |
| Validation.FieldError | includes/functions.php:33-69 | the per-field rule interpreter; its meaning is stated by MissingFieldOnlyRequired and PresentFieldLastCheckWins |
| Validation.LastFailure | includes/functions.php:43-69 | no message exactly when every check passes; otherwise the message of the last failing check |
| Validation.FormErrors | includes/functions.php:28-73 | errors are keyed only by fields named in the rules |
| Validation.LastOfFour | includes/functions.php:43-69 | of the email, min, max and match checks, the last that fails decides the message |
| Validation.OverlayTwice | includes/functions.php:44-67 | two writes of the same error key keep the later |
| Validation.ErrorsOfStep | includes/functions.php:31 | one more field of the loop adds exactly that field's error |
| Validation.ApplyEmailRule | includes/functions.php:43-45 | the email check overwrites the field's entry exactly when it fails |
| Validation.ApplyMinRule | includes/functions.php:48-53 | the `min:n` check overwrites the entry exactly when the byte length is below n |
| Validation.ApplyMaxRule | includes/functions.php:56-61 | the `max:n` check overwrites the entry exactly when the byte length is above n |
| Validation.ApplyMatchRule | includes/functions.php:64-69 | the `match:f` check overwrites the entry exactly when `f` is unset or different |
| Validation.CheckField | includes/functions.php:33-69 | one iteration leaves the field's entry equal to its error, failed checks overwriting in order |
| Validation.ValidateFormInput | includes/functions.php:28-73 | the loop returns exactly the errors map of the rules, in whatever order it visits them |
| Validation.NoErrorsIffAllPass | includes/functions.php:72 | the result is empty exactly when every field passes |
| Validation.MissingFieldOnlyRequired | includes/functions.php:33-37 | an unset or `empty` field (including `"0"`) has an error exactly when its rule names `required`, and it is the required message |
| Validation.PresentFieldLastCheckWins | includes/functions.php:40-69 | a present field fails exactly when one of its four checks fails, with the last failure's message |
| Validation.LengthChecksUseBytes | includes/functions.php:48-61 | `min:n` fails below n bytes and `max:n` above n bytes; no limit, no failure |
| Validation.MatchCheckMeaning | includes/functions.php:64-69 | `match:f` fails exactly when `f` is unset or holds a different string |
| Session.SessionState.constructor | includes/session.php:8-11 | a started session of the given identifier and data, now resolvable |
| Session.SessionState.RequireLogin | includes/session.php:18-24 | execution continues exactly when `logged_in` is the boolean true; otherwise `error` is set and the visitor sent to login.php |
| Session.SessionState.RedirectIfLoggedIn | includes/session.php:31-36 | redirects to dashboard.php exactly when logged in; changes nothing |
| Session.SessionState.SetFlashMessage | includes/session.php:44-49 | the flash is replaced by the new one, and nothing else changes |
| Session.SessionState.GetFlashMessage | includes/session.php:56-63 | returns the stored flash, or none, and removes it |
| Session.SessionState.HasFlashMessage | includes/session.php:70-72 | true exactly when a flash is stored; changes nothing |
| Session.SessionState.DisplayFlashMessage | includes/session.php:77-84 | renders the stored flash, or nothing, and consumes it |
| Session.SessionState.GenerateCSRFToken | includes/session.php:91-96 | an existing token is returned unchanged; otherwise 64 hex characters of the random bytes are stored and returned |
| Session.SessionState.VerifyCSRFToken | includes/session.php:104-110 | false without a token; otherwise true exactly when the candidate equals it |
| Session.SessionState.Destroy | includes/session.php:123 | the store stops resolving the current identifier |
| Session.SessionState.RegenerateSession | includes/session.php:115-131 | every field is kept; the identifier becomes the fresh one and the old one no longer resolves |
| Auth.Taken | includes/auth.php:41-44 | some row already has the username or the address |
| Auth.Authenticates | includes/auth.php:82-94 | the row found by email (for an address) or by username verifies the password |
| Auth.HoldsValidToken | includes/auth.php:205-208 | the row holds the token and its expiry is later than now; a NULL expiry never is |
| Auth.RegisterInputError | includes/auth.php:25-35 | no error exactly when all fields are non-empty, the address valid and the password at least 8 bytes |
| Auth.ProfileInputError | includes/auth.php:273-288 | no error exactly when there is an update to make and any given address is valid; a given invalid address is reported first |
| Auth.ApplyProfile | includes/auth.php:273-294 | only the non-empty requested columns change; hash, token and creation time are kept |
| Auth.CachedIdentity | includes/auth.php:300-306 | a cached `username`/`email` is overwritten when the request sets it; no key is added and others are kept |
| Auth.CachedNameCanDivergeFromRow | includes/auth.php:273-301 | an empty requested name leaves the row's name but is still written to the session |
| Auth.InsertKeepsInvariant | includes/auth.php:41-53 | inserting a row whose name and address are not taken keeps the table invariant |
| Auth.UpdateKeepsInvariant | includes/auth.php:169-170 | changing a row's non-unique columns keeps the table invariant |
| Auth.ProfileUpdateKeepsInvariant | includes/auth.php:294-296 | a profile update that collides with no other row keeps both UNIQUE constraints |
| Auth.RedeemRemovesHolder | includes/auth.php:220-223 | redeeming removes exactly the redeemed row from the token's holders |
| Auth.IssuedTokenHolders | includes/auth.php:163-170 | a freshly issued token is held by its row alone until 86400 seconds later, then by none |
| Auth.AuthService.constructor | includes/auth.php:13 | an empty table over a session satisfying the invariants |
| Auth.AuthService.SelectUser | includes/auth.php:84-91 | the lookup finds the matching row, which is the only one, or reports none |
| Auth.AuthService.RegisterUser | includes/auth.php:23-63 | input errors, storage failure and a taken name or address each leave the table unchanged with their message; otherwise exactly one row is added, whose hash verifies the password |
| Auth.AuthService.LoginUser | includes/auth.php:73-116 | succeeds exactly when the row found by email (for an address) or username verifies the password; every other failure gives the same message and leaves the session as it was; success caches the row's id, name and address and sets `logged_in` |
| Auth.AuthService.LogoutUser | includes/auth.php:122-128 | `$_SESSION` becomes empty, so the visitor is not logged in; the identifier stops resolving |
| Auth.AuthService.IsUserLoggedIn | includes/auth.php:135-137 | true exactly when `logged_in` is the boolean true |
| Auth.AuthService.GeneratePasswordResetToken | includes/auth.php:145-182 | success exactly for a well-formed address when storage works; an unknown address changes nothing; a known one gets a 64-hex-character token expiring 86400 seconds later, on that row only |
| Auth.AuthService.ResetPassword | includes/auth.php:192-229 | succeeds exactly when some row holds the token unexpired and the password has 8 bytes; that row gets the new hash and both token columns cleared, and leaves the token's holders |
| Auth.AuthService.GetUserById | includes/auth.php:238-253 | the row's id, name, address and creation time when it exists, otherwise null |
| Auth.AuthService.UpdateUserProfile | includes/auth.php:262-316 | each refusal gives its own message and changes nothing, the input checks coming before any storage failure; otherwise only the requested columns of the row change, and the cached identity follows the request |
| Auth.AuthService.RefreshCachedIdentity | includes/auth.php:300-306 | the session's cached name and address become the requested ones where already cached |
| Auth.AuthService.ChangePassword | includes/auth.php:326-367 | the hash changes only when the current password verifies and the new one has 8 bytes, and then only that row's hash; each refusal gives its own message; afterwards the old password still verifies exactly when its first 72 bytes are the new one's |
| LoginPage.ValidateLogin | login.php:25-39 | the sanitized username and password have no errors exactly when neither is `empty` |
| LoginPage.LogIn | login.php:44-60 | on success the session is the old one plus the user's id, name, address, `logged_in` and the welcome flash, under a fresh identifier that replaces the old one; otherwise the session is unchanged and the failure is reported under `general` |
| LoginPage.HandleRequest | login.php:12-64 | a logged-in visitor is redirected; a POST without the session's token dies with no change; a POST logs in exactly when the token matches, both fields are filled and the credentials authenticate, and then the session is as after LogIn; every other outcome keeps the identifier, and a rendered form changes at most the stored CSRF token, which it carries |
| LoginPage.LoginRulesAcceptExactlyFilled | login.php:29-39 | the two `required` rules pass exactly when both fields are non-empty |
| LoginPage.RequiredOnlyRule | includes/functions.php:33-37 | a field whose rule is `required` fails exactly when it is missing |
| LoginPage.RequiredHasNoArguments | includes/functions.php:43-64 | the rule `required` triggers no email, min, max or match check |
| Scenarios.FlashIsOneShot | includes/session.php:44-63 | a flash set once is returned by the next read and not by a second one |
| Scenarios.LastFlashWins | includes/session.php:44-72 | of two flashes set before a read, the second is shown, and none is left |
| Scenarios.CsrfTokenIsStable | includes/session.php:91-110 | two generations return the same token, which verifies; a candidate verifies exactly when it is that token |
| Scenarios.CsrfTokenSurvivesRotation | includes/session.php:91-131 | a token issued before the identifier rotation still verifies after it |
| Scenarios.ResetTokenIsSingleUse | includes/auth.php:145-229 | a fresh token resets the password once; the same token then fails as invalid or expired |
| Scenarios.ResetTokenExpires | includes/auth.php:166-211 | a token redeemed 86400 seconds or more after issue is refused |
| Scenarios.LogoutEndsLogin | includes/auth.php:94-137 | logged in after a good login, and not after logging out |
| Scenarios.RegisterTwice | includes/auth.php:23-56 | the first registration succeeds and a second with the same address fails as existing |
| Scenarios.RequestReset | includes/auth.php:157-170 | the request for the only row's address writes a 64-character token and its expiry to it |
| Scenarios.ResetAndLogInAgain | includes/auth.php:192-229 | after redemption the old password no longer logs in and the new one does, for passwords that differ within bcrypt's 72 bytes |
| Scenarios.RedeemIssuedToken | includes/auth.php:192-225 | a token redeemed a second after issue sets the new hash and clears both token columns |
| Scenarios.LogInOldAndNew | includes/auth.php:73-111 | after the reset the old password is refused and the new one logs in |
| Scenarios.AccountWalkThrough | includes/auth.php:23-229 | register, duplicate refused, login, reset, and only the new password logs in |
| Scenarios.AlicePasswordsDiffer | includes/auth.php:94 | `password123` and `newpassword1` differ in the first byte bcrypt reads |
| Scenarios.AliceWalkable | includes/auth.php:29-33 | `alice@example.com` is an address, `alice` is a username, and both passwords are long enough |
| Scenarios.AliceWalkThrough | includes/auth.php:23-229 | the walk-through for alice with `password123`, then `newpassword1` |

## Left out

- All HTML, CSS and browser JavaScript, and the pages other than login.php. These are rendering and the password-strength meter.
- `header()`, `exit` and `die()` are modelled as the returned `Guard`/`Outcome`, not as control transfer out of PHP.
- `config/database.php` is reduced to the table invariant (the UNIQUE constraints) and to the failure input `dbFails`, a `PDOException` raised by a query. `error_log` is left out.
- A failed connection is left out. `connectDB` catches its own `PDOException` and returns null (config/database.php:16-31), so the next `$db->prepare` throws an `Error`, which `catch (PDOException $e)` does not catch; the request then ends in a fatal error instead of the operation's generic message. The model has no outcome for this.
- The `if ($result) ... else` failure branches after `execute` (includes/auth.php:55-59, 298-311, 358-362) are left out: with PDO in exception mode a failing `execute` throws, so these branches are unreachable and are covered by `dbFails`.
- `saveScore`, `getTopScores`, `getUserScores` and `formatDate` are left out. They are score queries and date formatting outside the authentication core.
- Externals.Hash: `password_hash` is modelled by a salted record of the 72 bytes bcrypt reads, so the model does not capture one-wayness, the bcrypt format or bcrypt's handling of NUL bytes. The timing behaviour of `password_verify` and `hash_equals` is not modelled either.
- Externals.IsEmail: a simplified stand-in for PHP's email filter; it does not accept exactly the same strings.
- MySQL's case-insensitive collation and the `VARCHAR` column limits are left out. Usernames and addresses are compared exactly, as strings.
- `NOW()` versus `date()` time zones are left out: the expiry and the comparison use the same clock `now`.
- Concurrency between requests is left out. For example, two registrations racing between the uniqueness check and the insert (includes/auth.php:41-53) are a check-then-act window that this sequential model cannot express.
- Validation.MinArg: `(int)` of a digit string beyond PHP's integer range saturates in PHP. The model reads the value with unbounded integers.
- Validation.ValidateFormInput: PHP arrays keep insertion order. The model's rules and errors are maps, so the model states the contents of the errors array but not its order.
- Sanitize.HtmlSpecialChars: the handling of invalid UTF-8 (PHP returns an empty string) is left out, because strings here are sequences of characters.
- Session.SessionState.RegenerateSession: the destroy-restart-regenerate sequence is modelled as its net effect on `live`: the old identifier is removed and the fresh one added. Session cookies and the file store are left out.
- `session_start()` at the top of each file is modelled by the session object the operations are given.

/**
  `validateFormInput` of includes/functions.php: a rule string per field
  (`required`, `email`, `min:n`, `max:n`, `match:f`, found by substring search
  and by the regular expressions `min:(\d+)`, `max:(\d+)`, `match:(\w+)`), and
  a map from field name to one error message.
*/
module Validation {

  import opened Wrappers
  import opened PhpStrings
  import opened Externals

  /** The two character classes the rule patterns use: `\d` and `\w`. */
  datatype CharClass = Digit | Word

  predicate InClass(c: char, k: CharClass) {
    match k
    case Digit => IsDigit(c)
    case Word => IsDigit(c) || 'a' <= c <= 'z' || 'A' <= c <= 'Z' || c == '_'
  }

  /** The greedy `\d+` / `\w+` run at the start of `s` (possibly empty). */
  function Run(s: string, k: CharClass): (r: string)
    ensures |r| <= |s| && r == s[..|r|]
    ensures forall i :: 0 <= i < |r| ==> InClass(r[i], k)
    ensures |r| < |s| ==> !InClass(s[|r|], k)
    decreases |s|
  {
    if s != [] && InClass(s[0], k) then [s[0]] + Run(s[1..], k) else []
  }

  /** `prefix` followed by at least one character of class `k` begins at position `i` of `s`. */
  predicate PatternAt(s: string, i: int, prefix: string, k: CharClass) {
    0 <= i && i + |prefix| < |s| && s[i..i + |prefix|] == prefix && InClass(s[i + |prefix|], k)
  }

  /** The match at `i` is the leftmost one: no occurrence of the pattern starts before it. */
  predicate LeftmostMatch(s: string, i: int, prefix: string, k: CharClass) {
    PatternAt(s, i, prefix, k) && forall j :: 0 <= j < i ==> !PatternAt(s, j, prefix, k)
  }

  /** The group `preg_match('/prefix(\d+)/')` or `preg_match('/prefix(\w+)/')` captures: the leftmost match, taken greedily. */
  function FirstCapture(s: string, prefix: string, k: CharClass): (r: Option<string>)
    ensures r.None? <==> forall i :: !PatternAt(s, i, prefix, k)
    ensures r.Some? ==> |r.value| >= 1 && forall i :: 0 <= i < |r.value| ==> InClass(r.value[i], k)
    ensures r.Some? ==> exists i :: LeftmostMatch(s, i, prefix, k) && r.value == Run(s[i + |prefix|..], k)
    decreases |s|
  {
    if |s| <= |prefix| then
      assert forall i :: !PatternAt(s, i, prefix, k);
      None
    else if s[..|prefix|] == prefix && InClass(s[|prefix|], k) then
      assert LeftmostMatch(s, 0, prefix, k);
      Some(Run(s[|prefix|..], k))
    else
      ShiftMatch(s, prefix, k);
      FirstCapture(s[1..], prefix, k)
  }

  /** Past a first position that does not match, the matches of `s` are those of `s[1..]`, one place later. */
  lemma ShiftMatch(s: string, prefix: string, k: CharClass)
    requires |s| > 0 && !PatternAt(s, 0, prefix, k)
    ensures forall i :: PatternAt(s, i, prefix, k) ==> PatternAt(s[1..], i - 1, prefix, k)
    ensures forall i :: PatternAt(s[1..], i, prefix, k) ==> PatternAt(s, i + 1, prefix, k)
    ensures forall i :: LeftmostMatch(s[1..], i, prefix, k) ==>
              LeftmostMatch(s, i + 1, prefix, k) && s[1..][i + |prefix|..] == s[i + 1 + |prefix|..]
  {
    forall i | PatternAt(s, i, prefix, k) ensures PatternAt(s[1..], i - 1, prefix, k) {
      assert s[1..][i - 1..i - 1 + |prefix|] == s[i..i + |prefix|];
    }
    forall i | PatternAt(s[1..], i, prefix, k) ensures PatternAt(s, i + 1, prefix, k) {
      assert s[1..][i..i + |prefix|] == s[i + 1..i + 1 + |prefix|];
    }
  }

  /** A rule with a capture for `prefix` contains every character of `prefix`. */
  lemma CapturedPrefixOccurs(s: string, prefix: string, k: CharClass)
    ensures FirstCapture(s, prefix, k).Some? ==> forall c :: c in prefix ==> c in s
  {
    if FirstCapture(s, prefix, k).Some? {
      var i :| PatternAt(s, i, prefix, k);
      forall c | c in prefix ensures c in s {
        var j :| 0 <= j < |prefix| && prefix[j] == c;
        assert s[i..i + |prefix|][j] == s[i + j];
      }
    }
  }

  /** The `n` of `min:n` (after the `(int)` cast), if the rule has one. */
  function MinArg(rule: string): Option<nat> {
    match FirstCapture(rule, "min:", Digit)
    case None => None
    case Some(d) => Some(DigitsValue(d))
  }

  /** The `n` of `max:n`, if the rule has one. */
  function MaxArg(rule: string): Option<nat> {
    match FirstCapture(rule, "max:", Digit)
    case None => None
    case Some(d) => Some(DigitsValue(d))
  }

  /** The other field named by `match:f`, if the rule has one. */
  function MatchArg(rule: string): Option<string> {
    FirstCapture(rule, "match:", Word)
  }

  /** `min:(\d+)`: no argument without a match, else the cast of the greedy digit run at the leftmost match. */
  lemma MinArgIsLeftmostRun(rule: string)
    ensures MinArg(rule).None? <==> forall i :: !PatternAt(rule, i, "min:", Digit)
    ensures MinArg(rule).Some? ==> exists i :: (LeftmostMatch(rule, i, "min:", Digit) &&
              MinArg(rule).value == DigitsValue(Run(rule[i + 4..], Digit)))
  {
  }

  /** `max:(\d+)`, likewise. */
  lemma MaxArgIsLeftmostRun(rule: string)
    ensures MaxArg(rule).None? <==> forall i :: !PatternAt(rule, i, "max:", Digit)
    ensures MaxArg(rule).Some? ==> exists i :: (LeftmostMatch(rule, i, "max:", Digit) &&
              MaxArg(rule).value == DigitsValue(Run(rule[i + 4..], Digit)))
  {
  }

  /** `match:(\w+)`: the greedy word run at the leftmost match. */
  lemma MatchArgIsLeftmostRun(rule: string)
    ensures MatchArg(rule).None? <==> forall i :: !PatternAt(rule, i, "match:", Word)
    ensures MatchArg(rule).Some? ==> exists i :: (LeftmostMatch(rule, i, "match:", Word) &&
              MatchArg(rule).value == Run(rule[i + 6..], Word))
  {
  }

  /** The greedy run over a class-`k` text stops exactly where a character outside the class follows. */
  lemma RunStopsAtEnd(d: string, tail: string, k: CharClass)
    requires forall i :: 0 <= i < |d| ==> InClass(d[i], k)
    requires tail == [] || !InClass(tail[0], k)
    ensures Run(d + tail, k) == d
  {
    assert Run(d + tail, k) == (d + tail)[..|d|] == d;
  }

  /** A rule that starts with the pattern's prefix and a class-`k` argument captures exactly that argument. */
  lemma CaptureAtStart(prefix: string, d: string, tail: string, k: CharClass)
    requires |d| >= 1 && forall i :: 0 <= i < |d| ==> InClass(d[i], k)
    requires tail == [] || !InClass(tail[0], k)
    ensures FirstCapture(prefix + d + tail, prefix, k) == Some(d)
  {
    var s := prefix + d + tail;
    assert s[..|prefix|] == prefix && s[|prefix|] == d[0];
    assert s[|prefix|..] == d + tail;
    RunStopsAtEnd(d, tail, k);
  }

  /** A limit printed into a `min:`/`max:` rule reads back as the same number. */
  lemma PrintedLimitParses(n: nat, tail: string)
    requires tail == [] || !IsDigit(tail[0])
    ensures MinArg("min:" + NatToString(n) + tail) == Some(n)
    ensures MaxArg("max:" + NatToString(n) + tail) == Some(n)
  {
    CaptureAtStart("min:", NatToString(n), tail, Digit);
    CaptureAtStart("max:", NatToString(n), tail, Digit);
    DigitsValueOfNatToString(n);
  }

  function RequiredMessage(field: string): string {
    Ucfirst(field) + " is required"
  }

  const InvalidEmailMessage := "Invalid email format"

  function MinMessage(field: string, n: nat): string {
    Ucfirst(field) + " must be at least " + NatToString(n) + " characters"
  }

  function MaxMessage(field: string, n: nat): string {
    Ucfirst(field) + " must not exceed " + NatToString(n) + " characters"
  }

  function MatchMessage(field: string, other: string): string {
    Ucfirst(field) + " does not match " + other
  }

  // ---- the four checks of a present field, each on its own

  function EmailCheck(value: string, rule: string): Option<string> {
    if Contains(rule, "email") && !IsEmail(value) then Some(InvalidEmailMessage) else None
  }

  function MinCheck(field: string, value: string, rule: string): Option<string> {
    match MinArg(rule)
    case Some(n) => if StrLen(value) < n then Some(MinMessage(field, n)) else None
    case None => None
  }

  function MaxCheck(field: string, value: string, rule: string): Option<string> {
    match MaxArg(rule)
    case Some(n) => if StrLen(value) > n then Some(MaxMessage(field, n)) else None
    case None => None
  }

  function MatchCheck(data: map<string, string>, field: string, value: string, rule: string): Option<string> {
    match MatchArg(rule)
    case Some(other) => if other !in data || value != data[other] then Some(MatchMessage(field, other)) else None
    case None => None
  }

  /** The message of the last failing check in `checks`. */
  function LastFailure(checks: seq<Option<string>>): (r: Option<string>)
    ensures r.None? <==> forall i :: 0 <= i < |checks| ==> checks[i].None?
    ensures r.Some? ==> exists i :: 0 <= i < |checks| && checks[i] == r && forall j :: i < j < |checks| ==> checks[j].None?
  {
    if checks == [] then None
    else if checks[|checks| - 1].Some? then checks[|checks| - 1]
    else
      var prefix := checks[..|checks| - 1];
      assert forall i :: 0 <= i < |prefix| ==> prefix[i] == checks[i];
      LastFailure(prefix)
  }

  /** A field that is unset or PHP-`empty` (which includes "0"). */
  predicate Missing(data: map<string, string>, field: string) {
    field !in data || Empty(data[field])
  }

  /**
    The error a field gets: a missing field is only checked for `required`;
    a present one runs email, min, max and match in that order and keeps the
    message of the last that fails.
  */
  function FieldError(data: map<string, string>, field: string, rule: string): Option<string> {
    if Missing(data, field) then
      if Contains(rule, "required") then Some(RequiredMessage(field)) else None
    else
      var value := data[field];
      LastFailure([EmailCheck(value, rule), MinCheck(field, value, rule), MaxCheck(field, value, rule),
                   MatchCheck(data, field, value, rule)])
  }

  /** The errors map `validateFormInput` returns: field to message, for the failing fields of the rules. */
  function FormErrors(data: map<string, string>, rules: map<string, string>): (errors: map<string, string>)
    ensures errors.Keys <= rules.Keys
  {
    map f | f in rules && FieldError(data, f, rules[f]).Some? :: FieldError(data, f, rules[f]).value
  }

  /** The errors of the fields in `done`. */
  function ErrorsOf(data: map<string, string>, rules: map<string, string>, done: set<string>): map<string, string> {
    map f | f in rules && f in done && FieldError(data, f, rules[f]).Some? :: FieldError(data, f, rules[f]).value
  }

  /** `m` with `f` set to the message of `o`, or unchanged when `o` is `None`. */
  function Overlay(m: map<string, string>, f: string, o: Option<string>): map<string, string> {
    if o.Some? then m[f := o.value] else m
  }

  lemma LastOfFour(a: Option<string>, b: Option<string>, c: Option<string>, d: Option<string>)
    ensures LastFailure([a, b, c, d]) == if d.Some? then d else if c.Some? then c else if b.Some? then b else a
  {
    var s := [a, b, c, d];
    assert s[..3] == [a, b, c] && s[..3][..2] == [a, b] && s[..3][..2][..1] == [a] && [a][..0] == [];
    assert LastFailure(s) == if d.Some? then d else LastFailure([a, b, c]);
    assert LastFailure([a, b, c]) == if c.Some? then c else LastFailure([a, b]);
    assert LastFailure([a, b]) == if b.Some? then b else LastFailure([a]);
    assert LastFailure([a]) == if a.Some? then a else LastFailure([]);
  }

  /** Writing the same key twice keeps the later message. */
  lemma OverlayTwice(m: map<string, string>, f: string, a: Option<string>, b: Option<string>)
    ensures Overlay(Overlay(m, f, a), f, b) == Overlay(m, f, if b.Some? then b else a)
  {
  }

  lemma ErrorsOfStep(data: map<string, string>, rules: map<string, string>, done: set<string>, f: string)
    requires f in rules && f !in done
    ensures ErrorsOf(data, rules, done + {f}) == Overlay(ErrorsOf(data, rules, done), f, FieldError(data, f, rules[f]))
  {
  }

  // ---- the `foreach` body, one check at a time

  /** Lines 43-45: the email check. */
  method ApplyEmailRule(field: string, value: string, rule: string, errors: map<string, string>)
    returns (updated: map<string, string>)
    ensures updated == Overlay(errors, field, EmailCheck(value, rule))
  {
    updated := errors;
    if Contains(rule, "email") && !IsEmail(value) {
      updated := updated[field := InvalidEmailMessage];
    }
  }

  /** Lines 48-53: the `min:n` check. */
  method ApplyMinRule(field: string, value: string, rule: string, errors: map<string, string>)
    returns (updated: map<string, string>)
    ensures updated == Overlay(errors, field, MinCheck(field, value, rule))
  {
    updated := errors;
    var matches := FirstCapture(rule, "min:", Digit);
    if matches.Some? {
      var min := DigitsValue(matches.value);
      if StrLen(value) < min {
        updated := updated[field := MinMessage(field, min)];
      }
    }
  }

  /** Lines 56-61: the `max:n` check. */
  method ApplyMaxRule(field: string, value: string, rule: string, errors: map<string, string>)
    returns (updated: map<string, string>)
    ensures updated == Overlay(errors, field, MaxCheck(field, value, rule))
  {
    updated := errors;
    var matches := FirstCapture(rule, "max:", Digit);
    if matches.Some? {
      var max := DigitsValue(matches.value);
      if StrLen(value) > max {
        updated := updated[field := MaxMessage(field, max)];
      }
    }
  }

  /** Lines 64-69: the `match:f` check. */
  method ApplyMatchRule(data: map<string, string>, field: string, value: string, rule: string, errors: map<string, string>)
    returns (updated: map<string, string>)
    ensures updated == Overlay(errors, field, MatchCheck(data, field, value, rule))
  {
    updated := errors;
    var matches := FirstCapture(rule, "match:", Word);
    if matches.Some? {
      var matchField := matches.value;
      if matchField !in data || value != data[matchField] {
        updated := updated[field := MatchMessage(field, matchField)];
      }
    }
  }

  /** One pass of the `foreach` body: the checks of `rule` on `field`, written into `errors` in order. */
  method CheckField(data: map<string, string>, field: string, rule: string, errors: map<string, string>)
    returns (updated: map<string, string>)
    ensures updated == Overlay(errors, field, FieldError(data, field, rule))
  {
    if field !in data || Empty(data[field]) {
      updated := errors;
      if Contains(rule, "required") {
        updated := updated[field := RequiredMessage(field)];
      }
      return;
    }
    var value := data[field];
    ghost var c0, c1, c2, c3 := EmailCheck(value, rule), MinCheck(field, value, rule),
      MaxCheck(field, value, rule), MatchCheck(data, field, value, rule);
    updated := ApplyEmailRule(field, value, rule, errors);
    updated := ApplyMinRule(field, value, rule, updated);
    OverlayTwice(errors, field, c0, c1);
    updated := ApplyMaxRule(field, value, rule, updated);
    OverlayTwice(errors, field, if c1.Some? then c1 else c0, c2);
    updated := ApplyMatchRule(data, field, value, rule, updated);
    OverlayTwice(errors, field, if c2.Some? then c2 else if c1.Some? then c1 else c0, c3);
    LastOfFour(c0, c1, c2, c3);
  }

  /** `validateFormInput($data, $rules)`: each field of the rules checked once, in any order. */
  method ValidateFormInput(data: map<string, string>, rules: map<string, string>) returns (errors: map<string, string>)
    ensures errors == FormErrors(data, rules)
  {
    errors := map[];
    var pending := rules.Keys;
    while pending != {}
      invariant pending <= rules.Keys
      invariant errors == ErrorsOf(data, rules, rules.Keys - pending)
      decreases pending
    {
      var field :| field in pending;
      ErrorsOfStep(data, rules, rules.Keys - pending, field);
      assert rules.Keys - (pending - {field}) == (rules.Keys - pending) + {field};
      errors := CheckField(data, field, rules[field], errors);
      pending := pending - {field};
    }
    assert rules.Keys - pending == rules.Keys;
  }

  // ---- what the errors map means

  /** No errors exactly when every field named in the rules passes. */
  lemma NoErrorsIffAllPass(data: map<string, string>, rules: map<string, string>)
    ensures FormErrors(data, rules) == map[] <==> forall f :: f in rules ==> FieldError(data, f, rules[f]).None?
  {
    if FormErrors(data, rules) == map[] {
      forall f | f in rules ensures FieldError(data, f, rules[f]).None? {
        assert f !in FormErrors(data, rules);
      }
    }
  }

  /** A missing field gets an error exactly when its rule mentions `required`, and then no other message. */
  lemma MissingFieldOnlyRequired(data: map<string, string>, rules: map<string, string>, f: string)
    requires f in rules && Missing(data, f)
    ensures f in FormErrors(data, rules) <==> Contains(rules[f], "required")
    ensures f in FormErrors(data, rules) ==> FormErrors(data, rules)[f] == RequiredMessage(f)
  {
  }

  /** A present field fails exactly when one of its four checks does, and the message is the last failing one's. */
  lemma PresentFieldLastCheckWins(data: map<string, string>, rules: map<string, string>, f: string)
    requires f in rules && !Missing(data, f)
    ensures var v, rule := data[f], rules[f];
      var checks := [EmailCheck(v, rule), MinCheck(f, v, rule), MaxCheck(f, v, rule), MatchCheck(data, f, v, rule)];
      && (f in FormErrors(data, rules) <==> exists i :: 0 <= i < 4 && checks[i].Some?)
      && (checks[3].Some? ==> f in FormErrors(data, rules) && FormErrors(data, rules)[f] == checks[3].value)
      && (checks[3].None? && checks[2].Some? ==> f in FormErrors(data, rules) && FormErrors(data, rules)[f] == checks[2].value)
      && (checks[3].None? && checks[2].None? && checks[1].Some? ==> f in FormErrors(data, rules) && FormErrors(data, rules)[f] == checks[1].value)
      && (checks[3].None? && checks[2].None? && checks[1].None? && checks[0].Some? ==> f in FormErrors(data, rules) && FormErrors(data, rules)[f] == InvalidEmailMessage)
  {
    var v, rule := data[f], rules[f];
    var a, b, c, d := EmailCheck(v, rule), MinCheck(f, v, rule), MaxCheck(f, v, rule), MatchCheck(data, f, v, rule);
    LastOfFour(a, b, c, d);
    assert FieldError(data, f, rule) == LastFailure([a, b, c, d]);
  }

  /** `min:n` and `max:n` compare the byte length, not the number of characters. */
  lemma LengthChecksUseBytes(field: string, value: string, rule: string, n: nat)
    ensures MinArg(rule) == Some(n) ==> (MinCheck(field, value, rule).Some? <==> StrLen(value) < n)
    ensures MaxArg(rule) == Some(n) ==> (MaxCheck(field, value, rule).Some? <==> StrLen(value) > n)
    ensures MinArg(rule).None? ==> MinCheck(field, value, rule).None?
    ensures MaxArg(rule).None? ==> MaxCheck(field, value, rule).None?
  {
  }

  /** `match:f` fails when `f` is unset or holds a different string. */
  lemma MatchCheckMeaning(data: map<string, string>, field: string, value: string, rule: string, other: string)
    requires MatchArg(rule) == Some(other)
    ensures MatchCheck(data, field, value, rule).Some? <==> other !in data || data[other] != value
  {
  }
}

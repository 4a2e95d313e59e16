/**
  `sanitizeInput` of includes/functions.php: `trim`, then `stripslashes`, then
  `htmlspecialchars($s, ENT_QUOTES, 'UTF-8')`. Each stage is given with a partner
  that fixes its meaning: trimming leaves no strippable edge, `addslashes` is
  undone by `stripslashes`, and unescaping undoes `htmlspecialchars`.
*/
module Sanitize {

  /** The characters `trim` strips by default: space, tab, LF, CR, NUL and vertical tab. */
  predicate IsTrimChar(c: char) {
    c == ' ' || c == '\t' || c == '\n' || c == '\r' || c == '\0' || c == '\U{B}'
  }

  /** `ltrim`: the suffix left after dropping every leading strippable character. */
  function TrimLeft(s: string): (r: string)
    ensures |r| <= |s| && r == s[|s| - |r|..]
    ensures forall i :: 0 <= i < |s| - |r| ==> IsTrimChar(s[i])
    ensures r != [] ==> !IsTrimChar(r[0])
  {
    if s != [] && IsTrimChar(s[0]) then TrimLeft(s[1..]) else s
  }

  /** `rtrim`: the prefix left after dropping every trailing strippable character. */
  function TrimRight(s: string): (r: string)
    ensures |r| <= |s| && r == s[..|r|]
    ensures forall i :: |r| <= i < |s| ==> IsTrimChar(s[i])
    ensures r != [] ==> !IsTrimChar(r[|r| - 1])
  {
    if s != [] && IsTrimChar(s[|s| - 1]) then TrimRight(s[..|s| - 1]) else s
  }

  predicate NoEdgeWhitespace(s: string) {
    s == [] || (!IsTrimChar(s[0]) && !IsTrimChar(s[|s| - 1]))
  }

  /** `trim`. */
  function Trim(s: string): (r: string)
    ensures |r| <= |s|
    ensures NoEdgeWhitespace(r)
  {
    TrimRight(TrimLeft(s))
  }

  /** Trimming keeps the middle: the result is `s` with only strippable characters cut from each end. */
  lemma TrimIsInfix(s: string)
    ensures var k := |s| - |TrimLeft(s)|;
      && k + |Trim(s)| <= |s|
      && Trim(s) == s[k..k + |Trim(s)|]
      && (forall i :: 0 <= i < k ==> IsTrimChar(s[i]))
      && (forall i :: k + |Trim(s)| <= i < |s| ==> IsTrimChar(s[i]))
  {
    var l := TrimLeft(s);
    InfixOfSuffix(s, l, TrimRight(l), |s| - |l|);
  }

  /** A prefix `r` of the suffix `s[k..]` is the slice `s[k..k + |r|]`, followed in `s` by what followed it in the suffix. */
  lemma InfixOfSuffix(s: string, l: string, r: string, k: nat)
    requires k <= |s| && l == s[k..] && |r| <= |l| && r == l[..|r|]
    requires forall i :: |r| <= i < |l| ==> IsTrimChar(l[i])
    ensures r == s[k..k + |r|]
    ensures forall i :: k + |r| <= i < |s| ==> IsTrimChar(s[i])
  {
    forall i | k + |r| <= i < |s| ensures IsTrimChar(s[i]) {
      assert s[i] == l[i - k];
    }
  }

  /** A string without strippable edges is left alone, so `trim` is idempotent. */
  lemma TrimIdempotent(s: string)
    ensures NoEdgeWhitespace(s) ==> Trim(s) == s
    ensures Trim(Trim(s)) == Trim(s)
  {
  }

  // ---- stripslashes and its partner addslashes

  /**
    `stripslashes`: a backslash is dropped and the character after it kept,
    except that `\0` becomes NUL; a lone trailing backslash is dropped.
  */
  function StripSlashes(s: string): (r: string)
    ensures |r| <= |s|
    ensures '\\' !in s ==> r == s
    decreases |s|
  {
    if s == [] then []
    else if s[0] != '\\' then [s[0]] + StripSlashes(s[1..])
    else if |s| == 1 then []
    else [if s[1] == '0' then '\0' else s[1]] + StripSlashes(s[2..])
  }

  function AddSlashesChar(c: char): string {
    if c == '\'' || c == '"' || c == '\\' then ['\\', c]
    else if c == '\0' then ['\\', '0']
    else [c]
  }

  /** `addslashes`: a backslash before quote, double quote and backslash, and NUL written as `\0`. */
  function AddSlashes(s: string): (r: string)
    ensures |s| <= |r| <= 2 * |s|
  {
    if s == [] then [] else AddSlashesChar(s[0]) + AddSlashes(s[1..])
  }

  /** `stripslashes` undoes `addslashes`. */
  lemma {:induction false} StripSlashesOfAddSlashes(s: string)
    ensures StripSlashes(AddSlashes(s)) == s
  {
    if s != [] {
      var t := AddSlashes(s[1..]);
      StripSlashesOfAddSlashes(s[1..]);
      var a := AddSlashesChar(s[0]) + t;
      if |AddSlashesChar(s[0])| == 2 {
        assert a[2..] == t;
      } else {
        assert a[1..] == t;
      }
      assert [s[0]] + s[1..] == s;
    }
  }

  // ---- htmlspecialchars with ENT_QUOTES, and unescaping

  /** The characters that must never reach the page raw. */
  predicate IsHtmlSpecial(c: char) {
    c == '<' || c == '>' || c == '"' || c == '\''
  }

  predicate NoRawSpecials(s: string) {
    forall i :: 0 <= i < |s| ==> !IsHtmlSpecial(s[i])
  }

  function EscapeChar(c: char): (r: string)
    ensures NoRawSpecials(r)
  {
    if c == '&' then "&amp;"
    else if c == '"' then "&quot;"
    else if c == '\'' then "&#039;"
    else if c == '<' then "&lt;"
    else if c == '>' then "&gt;"
    else [c]
  }

  /** `htmlspecialchars($s, ENT_QUOTES, 'UTF-8')` with its default double encoding. */
  function HtmlSpecialChars(s: string): (r: string)
    ensures |s| <= |r|
    ensures NoRawSpecials(r)
  {
    if s == [] then [] else EscapeChar(s[0]) + HtmlSpecialChars(s[1..])
  }

  predicate StartsWith(s: string, p: string) {
    |p| <= |s| && s[..|p|] == p
  }

  /** Decodes exactly the five entities `HtmlSpecialChars` writes; every other character stands for itself. */
  function HtmlUnescape(s: string): string
    decreases |s|
  {
    if s == [] then []
    else if StartsWith(s, "&amp;") then "&" + HtmlUnescape(s[5..])
    else if StartsWith(s, "&quot;") then "\"" + HtmlUnescape(s[6..])
    else if StartsWith(s, "&#039;") then "'" + HtmlUnescape(s[6..])
    else if StartsWith(s, "&lt;") then "<" + HtmlUnescape(s[4..])
    else if StartsWith(s, "&gt;") then ">" + HtmlUnescape(s[4..])
    else [s[0]] + HtmlUnescape(s[1..])
  }

  lemma UnescapeAmp(rest: string)
    ensures HtmlUnescape("&amp;" + rest) == "&" + HtmlUnescape(rest)
  {
    var s := "&amp;" + rest;
    assert s[..5] == "&amp;" && s[5..] == rest;
  }

  lemma UnescapeQuot(rest: string)
    ensures HtmlUnescape("&quot;" + rest) == "\"" + HtmlUnescape(rest)
  {
    var s := "&quot;" + rest;
    assert s[..5][1] == 'q';
    assert s[..6] == "&quot;" && s[6..] == rest;
  }

  lemma UnescapeApos(rest: string)
    ensures HtmlUnescape("&#039;" + rest) == "'" + HtmlUnescape(rest)
  {
    var s := "&#039;" + rest;
    assert s[..5][1] == '#' && s[..6][1] == '#';
    assert s[..6] == "&#039;" && s[6..] == rest;
  }

  lemma UnescapeLt(rest: string)
    ensures HtmlUnescape("&lt;" + rest) == "<" + HtmlUnescape(rest)
  {
    var s := "&lt;" + rest;
    assert |s| >= 5 ==> s[..5][1] == 'l';
    assert |s| >= 6 ==> s[..6][1] == 'l';
    assert s[..4] == "&lt;" && s[4..] == rest;
  }

  lemma UnescapeGt(rest: string)
    ensures HtmlUnescape("&gt;" + rest) == ">" + HtmlUnescape(rest)
  {
    var s := "&gt;" + rest;
    assert |s| >= 5 ==> s[..5][1] == 'g';
    assert |s| >= 6 ==> s[..6][1] == 'g';
    assert s[..4][1] == 'g';
    assert s[..4] == "&gt;" && s[4..] == rest;
  }

  lemma UnescapePlain(c: char, rest: string)
    requires c != '&'
    ensures HtmlUnescape([c] + rest) == [c] + HtmlUnescape(rest)
  {
    var s := [c] + rest;
    assert s[0] == c && s[1..] == rest;
  }

  lemma UnescapeEscapedChar(c: char, rest: string)
    ensures HtmlUnescape(EscapeChar(c) + rest) == [c] + HtmlUnescape(rest)
  {
    if c == '&' {
      UnescapeAmp(rest);
    } else if c == '"' {
      UnescapeQuot(rest);
    } else if c == '\'' {
      UnescapeApos(rest);
    } else if c == '<' {
      UnescapeLt(rest);
    } else if c == '>' {
      UnescapeGt(rest);
    } else {
      UnescapePlain(c, rest);
    }
  }

  /** Escaping loses nothing: unescaping gives the original text back. */
  lemma {:induction false} HtmlUnescapeOfHtmlSpecialChars(s: string)
    ensures HtmlUnescape(HtmlSpecialChars(s)) == s
  {
    if s != [] {
      UnescapeEscapedChar(s[0], HtmlSpecialChars(s[1..]));
      HtmlUnescapeOfHtmlSpecialChars(s[1..]);
      assert [s[0]] + s[1..] == s;
    }
  }

  // ---- the pipeline

  /** `sanitizeInput`: the output never holds a raw `<`, `>`, `"` or `'`. */
  function SanitizeInput(input: string): (r: string)
    ensures NoRawSpecials(r)
    ensures HtmlUnescape(r) == StripSlashes(Trim(input))
  {
    var t := StripSlashes(Trim(input));
    HtmlUnescapeOfHtmlSpecialChars(t);
    HtmlSpecialChars(t)
  }

  /** Text without backslashes comes out of the pipeline as its trimmed, escaped self. */
  lemma SanitizePlainText(input: string)
    requires '\\' !in input
    ensures SanitizeInput(input) == HtmlSpecialChars(Trim(input))
    ensures NoEdgeWhitespace(HtmlUnescape(SanitizeInput(input)))
  {
    TrimIsInfix(input);
  }

  /**
    `stripslashes` runs after `trim`, so an escaped strippable character at the
    start survives as a bare one: the output's unescaped text can begin with
    whitespace (for example `\\ a` becomes ` a`).
  */
  lemma SanitizeCanLeaveEdgeSpace(c: char, t: string)
    requires IsTrimChar(c) && t != [] && !IsTrimChar(t[|t| - 1]) && '\\' !in t
    ensures HtmlUnescape(SanitizeInput(['\\', c] + t)) == [c] + t
    ensures !NoEdgeWhitespace(HtmlUnescape(SanitizeInput(['\\', c] + t)))
  {
    var x := ['\\', c] + t;
    assert TrimLeft(x) == x;
    assert TrimRight(x) == x by {
      assert x[|x| - 1] == t[|t| - 1];
    }
    assert StripSlashes(x) == [c] + StripSlashes(x[2..]);
    assert x[2..] == t;
  }
}

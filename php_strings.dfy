/**
  The pieces of PHP's string library the authentication code relies on:
  `empty()` on strings, `strlen`, `strpos(...) !== false`, `ucfirst`, the
  `(int)` cast of a digit string and its printing, and `bin2hex`, with the
  partners (`hex2bin`, decimal printing) that pin down what each one means.
*/
module PhpStrings {

  import opened Wrappers

  /** A byte, as `random_bytes` produces and `bin2hex` consumes them. */
  newtype Byte = x: int | 0 <= x < 256

  /** PHP's `empty()` applied to a string: true for "" and, notoriously, for "0". */
  predicate Empty(s: string) {
    s == "" || s == "0"
  }

  /** Number of bytes of the UTF-8 encoding of one character. */
  function Utf8Width(c: char): (w: nat)
    ensures 1 <= w <= 4
    ensures w == 1 <==> c as int < 0x80
  {
    if c as int < 0x80 then 1
    else if c as int < 0x800 then 2
    else if c as int < 0x10000 then 3
    else 4
  }

  /** `strlen`: PHP strings are bytes, so this is the length of the UTF-8 encoding. */
  function StrLen(s: string): (n: nat)
    ensures |s| <= n <= 4 * |s|
  {
    if s == [] then 0 else Utf8Width(s[0]) + StrLen(s[1..])
  }

  predicate IsAscii(s: string) {
    forall i :: 0 <= i < |s| ==> s[i] as int < 0x80
  }

  /** On ASCII text `strlen` counts characters. */
  lemma {:induction false} StrLenAscii(s: string)
    requires IsAscii(s)
    ensures StrLen(s) == |s|
  {
    if s != [] {
      assert IsAscii(s[1..]) by {
        forall i | 0 <= i < |s[1..]| ensures s[1..][i] as int < 0x80 {
          assert s[1..][i] == s[i + 1];
        }
      }
      StrLenAscii(s[1..]);
    }
  }

  /** Any non-ASCII character makes `strlen` exceed the number of characters. */
  lemma {:induction false} StrLenNonAscii(s: string, k: nat)
    requires k < |s| && s[k] as int >= 0x80
    ensures StrLen(s) > |s|
  {
    if k > 0 {
      StrLenNonAscii(s[1..], k - 1);
    }
  }

  /** The UTF-8 bytes of one character, as PHP stores the text it is given: 6 payload bits per continuation byte. */
  function Utf8Char(c: char): (b: seq<Byte>)
    ensures |b| == Utf8Width(c)
    ensures c as int < 0x80 ==> b == [c as int as Byte]
  {
    var n := c as int;
    var q1, r0 := n / 64, n % 64;
    var q2, r1 := q1 / 64, q1 % 64;
    var q3, r2 := q2 / 64, q2 % 64;
    if n < 0x80 then [n as Byte]
    else if n < 0x800 then [(0xC0 + q1) as Byte, (0x80 + r0) as Byte]
    else if n < 0x10000 then [(0xE0 + q2) as Byte, (0x80 + r1) as Byte, (0x80 + r0) as Byte]
    else [(0xF0 + q3) as Byte, (0x80 + r2) as Byte, (0x80 + r1) as Byte, (0x80 + r0) as Byte]
  }

  /** The byte string PHP holds for a text: its UTF-8 encoding, `strlen` bytes long. */
  function Utf8Encode(s: string): (b: seq<Byte>)
    ensures |b| == StrLen(s)
  {
    if s == [] then [] else Utf8Char(s[0]) + Utf8Encode(s[1..])
  }

  /** Encoding is a homomorphism: the bytes of a concatenation are the concatenated bytes. */
  lemma {:induction false} Utf8EncodeAppend(s: string, t: string)
    ensures Utf8Encode(s + t) == Utf8Encode(s) + Utf8Encode(t)
  {
    if s == [] {
      assert s + t == t;
    } else {
      assert (s + t)[0] == s[0] && (s + t)[1..] == s[1..] + t;
      Utf8EncodeAppend(s[1..], t);
    }
  }

  /** The first byte of a character's encoding fixes how many bytes follow it. */
  lemma Utf8LeadByte(c: char)
    ensures Utf8Width(c) == 1 <==> Utf8Char(c)[0] < 0x80
    ensures Utf8Width(c) == 2 <==> 0xC0 <= Utf8Char(c)[0] < 0xE0
    ensures Utf8Width(c) == 3 <==> 0xE0 <= Utf8Char(c)[0] < 0xF0
    ensures Utf8Width(c) == 4 <==> 0xF0 <= Utf8Char(c)[0]
  {
  }

  /** No two characters share an encoding. */
  lemma Utf8CharInjective(c: char, d: char)
    requires Utf8Char(c) == Utf8Char(d)
    ensures c == d
  {
    Utf8LeadByte(c);
    Utf8LeadByte(d);
    Utf8Decodes(c);
    Utf8Decodes(d);
  }

  /** The code point is read back from the payload bits of its bytes. */
  lemma Utf8Decodes(c: char)
    ensures var b := Utf8Char(c);
      c as int == match |b|
        case 1 => b[0] as int
        case 2 => (b[0] as int - 0xC0) * 64 + (b[1] as int - 0x80)
        case 3 => (b[0] as int - 0xE0) * 4096 + (b[1] as int - 0x80) * 64 + (b[2] as int - 0x80)
        case _ => (b[0] as int - 0xF0) * 262144 + (b[1] as int - 0x80) * 4096 + (b[2] as int - 0x80) * 64
                  + (b[3] as int - 0x80)
  {
  }

  /** UTF-8 is a prefix code: an encoding followed by anything starts with one character's bytes only. */
  lemma {:induction false} Utf8EncodeInjective(s: string, t: string)
    requires Utf8Encode(s) == Utf8Encode(t)
    ensures s == t
  {
    if s != [] && t != [] {
      var a, b := Utf8Char(s[0]), Utf8Char(t[0]);
      Utf8LeadByte(s[0]);
      Utf8LeadByte(t[0]);
      assert a[0] == Utf8Encode(s)[0] && b[0] == Utf8Encode(t)[0];
      assert |a| == |b|;
      assert a == Utf8Encode(s)[..|a|] && b == Utf8Encode(t)[..|b|];
      Utf8CharInjective(s[0], t[0]);
      assert Utf8Encode(s[1..]) == Utf8Encode(s)[|a|..] && Utf8Encode(t[1..]) == Utf8Encode(t)[|b|..];
      Utf8EncodeInjective(s[1..], t[1..]);
      assert s == [s[0]] + s[1..] && t == [t[0]] + t[1..];
    }
  }

  predicate MatchesAt(hay: string, i: int, needle: string) {
    0 <= i && i + |needle| <= |hay| && hay[i..i + |needle|] == needle
  }

  /** `strpos($hay, $needle) !== false`: `needle` occurs somewhere in `hay`. */
  function Contains(hay: string, needle: string): (r: bool)
    ensures r <==> exists i :: MatchesAt(hay, i, needle)
    decreases |hay|
  {
    if |hay| < |needle| then false
    else if hay[..|needle|] == needle then (assert MatchesAt(hay, 0, needle); true)
    else
      var r := Contains(hay[1..], needle);
      assert r ==> exists i :: MatchesAt(hay, i, needle) by {
        if r {
          var i :| MatchesAt(hay[1..], i, needle);
          assert hay[1..][i..i + |needle|] == hay[i + 1..i + 1 + |needle|];
          assert MatchesAt(hay, i + 1, needle);
        }
      }
      assert (exists i :: MatchesAt(hay, i, needle)) ==> r by {
        if exists i :: MatchesAt(hay, i, needle) {
          var i :| MatchesAt(hay, i, needle);
          assert i != 0;
          assert hay[1..][i - 1..i - 1 + |needle|] == hay[i..i + |needle|];
          assert MatchesAt(hay[1..], i - 1, needle);
        }
      }
      r
  }

  /** Every character of a needle that occurs in `hay` is a character of `hay`. */
  lemma ContainedCharsOccur(hay: string, needle: string)
    ensures Contains(hay, needle) ==> forall c :: c in needle ==> c in hay
  {
    if Contains(hay, needle) {
      var i :| MatchesAt(hay, i, needle);
      forall c | c in needle ensures c in hay {
        var j :| 0 <= j < |needle| && needle[j] == c;
        assert hay[i..i + |needle|][j] == hay[i + j];
      }
    }
  }

  function UpperAscii(c: char): char {
    if 'a' <= c <= 'z' then (c as int - 32) as char else c
  }

  /** `ucfirst`: upper-cases the first byte when it is an ASCII lower-case letter. */
  function Ucfirst(s: string): (r: string)
    ensures |r| == |s|
    ensures forall i :: 0 < i < |s| ==> r[i] == s[i]
    ensures |s| > 0 && 'a' <= s[0] <= 'z' ==> 'A' <= r[0] <= 'Z' && r[0] as int + 32 == s[0] as int
    ensures |s| > 0 && !('a' <= s[0] <= 'z') ==> r[0] == s[0]
  {
    if s == [] then [] else [UpperAscii(s[0])] + s[1..]
  }

  // ---- decimal digits: the `(int)` cast of a `\d+` capture, and printing an int back

  predicate IsDigit(c: char) {
    '0' <= c <= '9'
  }

  predicate AllDigits(s: string) {
    forall i :: 0 <= i < |s| ==> IsDigit(s[i])
  }

  /** `(int)$digits` for a string of decimal digits (leading zeros allowed). */
  function DigitsValue(s: string): nat
    requires AllDigits(s)
  {
    if s == [] then 0
    else DigitsValue(s[..|s| - 1]) * 10 + (s[|s| - 1] as int - '0' as int)
  }

  function DigitChar(d: nat): (c: char)
    requires d < 10
    ensures IsDigit(c)
  {
    ('0' as int + d) as char
  }

  /** Decimal printing of a natural number, as string concatenation does it. */
  function NatToString(n: nat): (s: string)
    ensures |s| >= 1 && AllDigits(s)
  {
    if n < 10 then [DigitChar(n)] else NatToString(n / 10) + [DigitChar(n % 10)]
  }

  /** Printing and then casting back gives the number again. */
  lemma {:induction false} DigitsValueOfNatToString(n: nat)
    ensures DigitsValue(NatToString(n)) == n
  {
    var s := NatToString(n);
    if n >= 10 {
      assert s[..|s| - 1] == NatToString(n / 10);
      DigitsValueOfNatToString(n / 10);
    }
  }

  // ---- hexadecimal: bin2hex and hex2bin

  /** The characters `bin2hex` writes: lower-case hexadecimal digits. */
  predicate IsLowerHex(c: char) {
    '0' <= c <= '9' || 'a' <= c <= 'f'
  }

  predicate IsHexChar(c: char) {
    IsLowerHex(c) || 'A' <= c <= 'F'
  }

  predicate IsLowerHexString(s: string) {
    forall i :: 0 <= i < |s| ==> IsLowerHex(s[i])
  }

  function HexDigit(n: int): (c: char)
    requires 0 <= n < 16
    ensures IsLowerHex(c)
  {
    if n < 10 then ('0' as int + n) as char else ('a' as int + n - 10) as char
  }

  function HexValue(c: char): (n: int)
    requires IsHexChar(c)
    ensures 0 <= n < 16
  {
    if c <= '9' then c as int - '0' as int
    else if c <= 'F' then c as int - 'A' as int + 10
    else c as int - 'a' as int + 10
  }

  /** `bin2hex`: two lower-case hexadecimal digits per byte, high nibble first. */
  function Bin2Hex(b: seq<Byte>): (r: string)
    ensures |r| == 2 * |b|
    ensures IsLowerHexString(r)
  {
    if b == [] then []
    else [HexDigit(b[0] as int / 16), HexDigit(b[0] as int % 16)] + Bin2Hex(b[1..])
  }

  /** `hex2bin`: `None` (PHP's `false`) for odd length or a non-hexadecimal character. */
  function Hex2Bin(s: string): (r: Option<seq<Byte>>)
    ensures r.Some? ==> 2 * |r.value| == |s|
    decreases |s|
  {
    if s == [] then Some([])
    else if |s| == 1 || !IsHexChar(s[0]) || !IsHexChar(s[1]) then None
    else match Hex2Bin(s[2..])
      case None => None
      case Some(rest) => Some([(HexValue(s[0]) * 16 + HexValue(s[1])) as Byte] + rest)
  }

  /** `hex2bin` undoes `bin2hex`. */
  lemma {:induction false} Hex2BinOfBin2Hex(b: seq<Byte>)
    ensures Hex2Bin(Bin2Hex(b)) == Some(b)
  {
    if b != [] {
      var s := Bin2Hex(b);
      assert s[2..] == Bin2Hex(b[1..]);
      Hex2BinOfBin2Hex(b[1..]);
      var hi, lo := b[0] as int / 16, b[0] as int % 16;
      assert HexValue(HexDigit(hi)) == hi && HexValue(HexDigit(lo)) == lo;
      assert (hi * 16 + lo) as Byte == b[0];
      assert [b[0]] + b[1..] == b;
    }
  }

  /** Hence distinct byte strings give distinct hexadecimal tokens. */
  lemma Bin2HexInjective(a: seq<Byte>, b: seq<Byte>)
    requires Bin2Hex(a) == Bin2Hex(b)
    ensures a == b
  {
    Hex2BinOfBin2Hex(a);
    Hex2BinOfBin2Hex(b);
  }
}

/**
  The library services the authentication code calls and does not implement:
  `password_hash` / `password_verify` and `filter_var(..., FILTER_VALIDATE_EMAIL)`.
  Randomness (`random_bytes`) and the clock (`time()`, `NOW()`) are not here:
  they are inputs of the operations that use them.
*/
module Externals {

  import opened PhpStrings

  /** The random salt `password_hash` draws for each call. */
  type Salt = seq<Byte>

  /** bcrypt, the algorithm behind `PASSWORD_DEFAULT`, reads at most this many bytes of a password. */
  const BcryptMaxBytes := 72

  /** The part of a password bcrypt reads: the first 72 bytes of its UTF-8 encoding. */
  function BcryptKey(password: string): (k: seq<Byte>)
    ensures |k| == if StrLen(password) <= BcryptMaxBytes then StrLen(password) else BcryptMaxBytes
    ensures k == Utf8Encode(password)[..|k|]
  {
    var b := Utf8Encode(password);
    if |b| <= BcryptMaxBytes then b else b[..BcryptMaxBytes]
  }

  /**
    A stored password hash. In place of the bcrypt digest it records the bytes
    of the password bcrypt read; nothing in the model looks at `key` except
    `Verify`, so the hash behaves as a one-way function of those bytes.
  */
  datatype PasswordHash = PasswordHash(salt: Salt, key: seq<Byte>)

  /** `password_hash($password, PASSWORD_DEFAULT)` with the salt it drew. */
  function Hash(password: string, salt: Salt): (h: PasswordHash)
    ensures Verify(password, h)
    ensures forall other :: Verify(other, h) <==> BcryptKey(other) == BcryptKey(password)
    ensures h.salt == salt
  {
    PasswordHash(salt, BcryptKey(password))
  }

  /** `password_verify($password, $hash)`. */
  predicate Verify(password: string, h: PasswordHash) {
    BcryptKey(password) == h.key
  }

  /** Hashing one password twice with different salts gives two different hashes, both of which verify. */
  lemma SaltedHashesDiffer(password: string, s1: Salt, s2: Salt)
    requires s1 != s2
    ensures Hash(password, s1) != Hash(password, s2)
    ensures Verify(password, Hash(password, s1)) && Verify(password, Hash(password, s2))
  {
  }

  /** Up to 72 bytes a hash verifies exactly the password it was made from. */
  lemma ShortPasswordsVerifyExactly(password: string, other: string, salt: Salt)
    requires StrLen(password) <= BcryptMaxBytes && StrLen(other) <= BcryptMaxBytes
    ensures Verify(other, Hash(password, salt)) <==> other == password
  {
    if Verify(other, Hash(password, salt)) {
      Utf8EncodeInjective(other, password);
    }
  }

  /** Passwords that begin with different ASCII characters have different keys. */
  lemma KeysDifferByFirstChar(p: string, q: string)
    requires p != [] && q != [] && p[0] as int < 0x80 && q[0] as int < 0x80 && p[0] != q[0]
    ensures BcryptKey(p) != BcryptKey(q)
  {
    assert BcryptKey(p)[0] == Utf8Encode(p)[0] == p[0] as int as Byte;
    assert BcryptKey(q)[0] == Utf8Encode(q)[0] == q[0] as int as Byte;
  }

  /** Past 72 bytes the rest is ignored: what follows a 72-byte start does not reach the key. */
  lemma {:induction false} KeyOfLongStart(start: string, x: string)
    requires StrLen(start) >= BcryptMaxBytes
    ensures BcryptKey(start + x) == BcryptKey(start)
  {
    Utf8EncodeAppend(start, x);
    var b := Utf8Encode(start);
    assert (b + Utf8Encode(x))[..BcryptMaxBytes] == b[..BcryptMaxBytes];
  }

  /** So any two passwords sharing a 72-byte start verify each other's hash, however they differ later. */
  lemma LongPasswordsShareHash(start: string, x: string, y: string, salt: Salt)
    requires StrLen(start) >= BcryptMaxBytes
    ensures Verify(start + x, Hash(start + y, salt))
  {
    KeyOfLongStart(start, x);
    KeyOfLongStart(start, y);
  }

  // ---- filter_var(..., FILTER_VALIDATE_EMAIL), simplified

  predicate IsAlnum(c: char) {
    'a' <= c <= 'z' || 'A' <= c <= 'Z' || '0' <= c <= '9'
  }

  predicate IsLocalChar(c: char) {
    IsAlnum(c) || c in "!#$%&'*+/=?^_`{|}~.-"
  }

  predicate IsDomainChar(c: char) {
    IsAlnum(c) || c == '-' || c == '.'
  }

  predicate IsLocalPart(l: string) {
    0 < |l| <= 64 && (forall i :: 0 <= i < |l| ==> IsLocalChar(l[i])) && l[0] != '.' && l[|l| - 1] != '.'
  }

  predicate IsDomain(d: string) {
    && 0 < |d| <= 253
    && (forall i :: 0 <= i < |d| ==> IsDomainChar(d[i]))
    && '.' in d
    && d[0] != '.' && d[0] != '-'
    && d[|d| - 1] != '.' && d[|d| - 1] != '-'
  }

  /**
    A plain stand-in for PHP's email filter: one `@` between a local part of
    atom characters and a dotted domain name. The rest of the model only asks
    that this be some fixed predicate on strings.
  */
  predicate IsEmail(s: string) {
    exists i :: 0 <= i < |s| && s[i] == '@' && IsLocalPart(s[..i]) && IsDomain(s[i + 1..])
  }

  /** Every address the filter accepts contains `@` and so is not PHP-`empty`. */
  lemma EmailNotEmpty(s: string)
    requires IsEmail(s)
    ensures '@' in s && !Empty(s)
  {
    var i :| 0 <= i < |s| && s[i] == '@' && IsLocalPart(s[..i]) && IsDomain(s[i + 1..]);
    assert s[i] in s;
  }
}

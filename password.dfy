/**
 * The salted-SHA-256 password scheme of ACC/api.py: the salt is 16 bytes written
 * as lower-case hex, the stored value is `salt:hexdigest(sha256(salt + password))`,
 * and checking a password splits the stored value on ':' and recomputes the digest.
 *
 * SHA-256 (applied to the UTF-8 encoding of its argument) is a parameter
 * `sha256: string -> seq<byte>` about which nothing is assumed; `hexdigest()` is
 * the hex encoding of its bytes. The 16 random bytes are a parameter too.
 */
module Password {
  import opened Wrappers

  // ---------------------------------------------------------------------------
  // Hex encoding (binascii.hexlify, hashlib's hexdigest)
  // ---------------------------------------------------------------------------

  predicate IsLowerHexDigit(c: char) {
    '0' <= c <= '9' || 'a' <= c <= 'f'
  }

  predicate IsLowerHex(s: string) {
    forall i :: 0 <= i < |s| ==> IsLowerHexDigit(s[i])
  }

  /** The lower-case hex digit of a nibble. */
  function HexDigit(n: int): (c: char)
    requires 0 <= n < 16
    ensures IsLowerHexDigit(c)
    ensures HexValue(c) == n
  {
    if n < 10 then ('0' as int + n) as char else ('a' as int + n - 10) as char
  }

  /** The nibble a lower-case hex digit stands for. */
  function HexValue(c: char): (n: int)
    requires IsLowerHexDigit(c)
    ensures 0 <= n < 16
  {
    if c <= '9' then c as int - '0' as int else c as int - 'a' as int + 10
  }

  /** Two hex digits per byte, high nibble first. */
  function HexEncode(bs: seq<byte>): (s: string)
    ensures |s| == 2 * |bs|
    ensures IsLowerHex(s)
  {
    if bs == [] then []
    else [HexDigit(bs[0] as int / 16), HexDigit(bs[0] as int % 16)] + HexEncode(bs[1..])
  }

  /** Distinct byte strings have distinct hex encodings. */
  lemma {:induction false} HexEncodeInjective(a: seq<byte>, b: seq<byte>)
    requires HexEncode(a) == HexEncode(b)
    ensures a == b
  {
    if a != [] {
      var ea, eb := HexEncode(a), HexEncode(b);
      assert ea[0] == HexDigit(a[0] as int / 16) && ea[1] == HexDigit(a[0] as int % 16);
      assert eb[0] == HexDigit(b[0] as int / 16) && eb[1] == HexDigit(b[0] as int % 16);
      assert a[0] as int / 16 == b[0] as int / 16 && a[0] as int % 16 == b[0] as int % 16;
      assert a[0] == b[0];
      assert HexEncode(a[1..]) == ea[2..] == eb[2..] == HexEncode(b[1..]);
      HexEncodeInjective(a[1..], b[1..]);
    }
  }

  // ---------------------------------------------------------------------------
  // Occurrences, first index and Python's str.split(sep)
  // ---------------------------------------------------------------------------

  /** The number of occurrences of `c` in `s`. */
  function Count(s: string, c: char): (n: nat)
    ensures n <= |s|
    ensures n == 0 <==> c !in s
  {
    if s == [] then 0 else (if s[0] == c then 1 else 0) + Count(s[1..], c)
  }

  lemma {:induction false} CountAppend(a: string, b: string, c: char)
    ensures Count(a + b, c) == Count(a, c) + Count(b, c)
  {
    if a != [] {
      assert (a + b)[1..] == a[1..] + b;
      CountAppend(a[1..], b, c);
    } else {
      assert a + b == b;
    }
  }

  /** The index of the first occurrence of `c` in `s`. */
  function IndexOf(s: string, c: char): (i: nat)
    requires c in s
    ensures i < |s| && s[i] == c && c !in s[..i]
  {
    if s[0] == c then 0
    else
      var j := IndexOf(s[1..], c);
      assert s[..j + 1] == [s[0]] + s[1..][..j];
      1 + j
  }

  /**
   * `s.split(sep)`: the pieces of `s` between occurrences of `sep`, so that
   * `"a:b".split(':') == ["a", "b"]` and `"".split(':') == [""]`.
   */
  function Split(s: string, sep: char): (parts: seq<string>)
    ensures |parts| >= 1
    ensures forall k :: 0 <= k < |parts| ==> sep !in parts[k]
    decreases |s|
  {
    if sep !in s then [s]
    else
      var i := IndexOf(s, sep);
      [s[..i]] + Split(s[i + 1..], sep)
  }

  /** `sep.join(parts)`. */
  function Join(parts: seq<string>, sep: char): string
    requires |parts| >= 1
  {
    if |parts| == 1 then parts[0] else parts[0] + [sep] + Join(parts[1..], sep)
  }

  /** Joining the pieces back with the separator gives the original string. */
  lemma {:induction false} JoinSplit(s: string, sep: char)
    ensures Join(Split(s, sep), sep) == s
    decreases |s|
  {
    if sep in s {
      var i := IndexOf(s, sep);
      var parts := Split(s, sep);
      assert parts == [s[..i]] + Split(s[i + 1..], sep);
      assert parts[1..] == Split(s[i + 1..], sep);
      JoinSplit(s[i + 1..], sep);
      assert Join(parts, sep) == s[..i] + [sep] + Join(parts[1..], sep);
      assert s == s[..i] + [sep] + s[i + 1..];
    }
  }

  /** A string with n separators splits into n + 1 pieces. */
  lemma {:induction false} SplitLength(s: string, sep: char)
    ensures |Split(s, sep)| == Count(s, sep) + 1
    decreases |s|
  {
    if sep in s {
      var i := IndexOf(s, sep);
      assert s == s[..i] + ([sep] + s[i + 1..]);
      CountAppend(s[..i], [sep] + s[i + 1..], sep);
      CountAppend([sep], s[i + 1..], sep);
      SplitLength(s[i + 1..], sep);
    }
  }

  /** Two separator-free strings joined by one separator split back into the two. */
  lemma SplitPair(a: string, b: string, sep: char)
    requires sep !in a && sep !in b
    ensures Split(a + [sep] + b, sep) == [a, b]
  {
    var s := a + [sep] + b;
    assert s[|a|] == sep && s[..|a|] == a && s[|a| + 1..] == b;
    assert IndexOf(s, sep) == |a|;
  }

  // ---------------------------------------------------------------------------
  // generate_salt, generate_salted_hash, verify_password
  // ---------------------------------------------------------------------------

  /** `hashlib.sha256(s.encode('utf-8')).hexdigest()`. */
  function HexDigest(sha256: string -> seq<byte>, s: string): (h: string)
    ensures IsLowerHex(h) && ':' !in h
  {
    var h := HexEncode(sha256(s));
    assert forall i :: 0 <= i < |h| ==> h[i] != ':' by {
      forall i | 0 <= i < |h| ensures h[i] != ':' { assert IsLowerHexDigit(h[i]); }
    }
    h
  }

  /** `generate_salt()` with the 16 bytes of `os.urandom(16)` given as `random`. */
  function GenerateSalt(random: seq<byte>): (salt: string)
    requires |random| == 16
    ensures |salt| == 32 && IsLowerHex(salt) && ':' !in salt
  {
    var salt := HexEncode(random);
    assert forall i :: 0 <= i < |salt| ==> salt[i] != ':' by {
      forall i | 0 <= i < |salt| ensures salt[i] != ':' { assert IsLowerHexDigit(salt[i]); }
    }
    salt
  }

  /** `generate_salted_hash(password)`: `salt + ":" + hexdigest(salt + password)`. */
  function GenerateSaltedHash(sha256: string -> seq<byte>, random: seq<byte>, password: string): (stored: string)
    requires |random| == 16
    ensures Count(stored, ':') == 1
    ensures |stored| > 32 && stored[..32] == GenerateSalt(random) && stored[32] == ':'
  {
    var salt := GenerateSalt(random);
    var digest := HexDigest(sha256, salt + password);
    CountAppend(salt, [':'], ':');
    CountAppend(salt + [':'], digest, ':');
    assert (salt + [':'] + digest)[..32] == salt;
    salt + [':'] + digest
  }

  /**
   * `verify_password(stored, provided)`: false for a stored value without ':';
   * otherwise `stored.split(':')` is unpacked into exactly two names, which raises
   * ValueError when there are two or more colons.
   */
  function VerifyPassword(sha256: string -> seq<byte>, stored: string, provided: string): (r: Result<bool>)
    ensures ':' !in stored ==> r == Ok(false)
    ensures r.Raised? <==> Count(stored, ':') >= 2
    ensures r.Raised? ==> r.error == ValueError
  {
    if stored == "" || ':' !in stored then Ok(false)
    else
      var parts := Split(stored, ':');
      SplitLength(stored, ':');
      if |parts| != 2 then Raised(ValueError)
      else Ok(HexDigest(sha256, parts[0] + provided) == parts[1])
  }

  /**
   * A stored value `salt:digest` with no other ':' is checked by recomputing the
   * digest of the salt followed by the provided password and comparing it with
   * the part after the colon.
   */
  lemma VerifyOneColon(sha256: string -> seq<byte>, salt: string, digest: string, provided: string)
    requires ':' !in salt && ':' !in digest
    ensures VerifyPassword(sha256, salt + [':'] + digest, provided) == Ok(HexDigest(sha256, salt + provided) == digest)
  {
    SplitPair(salt, digest, ':');
  }

  /**
   * Checking any password against a freshly generated stored value succeeds
   * exactly when its salted digest equals the one of the password that was stored.
   */
  lemma VerifySaltedHash(sha256: string -> seq<byte>, random: seq<byte>, password: string, candidate: string)
    requires |random| == 16
    ensures var salt := GenerateSalt(random);
      VerifyPassword(sha256, GenerateSaltedHash(sha256, random, password), candidate)
      == Ok(HexDigest(sha256, salt + candidate) == HexDigest(sha256, salt + password))
  {
    var salt := GenerateSalt(random);
    VerifyOneColon(sha256, salt, HexDigest(sha256, salt + password), candidate);
  }

  /** Round trip: a stored value always accepts the password it was made from, whatever the salt. */
  lemma VerifyAcceptsOwnPassword(sha256: string -> seq<byte>, random: seq<byte>, password: string)
    requires |random| == 16
    ensures VerifyPassword(sha256, GenerateSaltedHash(sha256, random, password), password) == Ok(true)
  {
    VerifySaltedHash(sha256, random, password, password);
  }

  /**
   * A different password is rejected provided the digest has no collisions;
   * without that hypothesis the model only promises VerifySaltedHash.
   */
  lemma VerifyRejectsOtherPassword(sha256: string -> seq<byte>, random: seq<byte>, password: string, candidate: string)
    requires |random| == 16
    requires forall x, y :: sha256(x) == sha256(y) ==> x == y
    requires candidate != password
    ensures VerifyPassword(sha256, GenerateSaltedHash(sha256, random, password), candidate) == Ok(false)
  {
    var salt := GenerateSalt(random);
    VerifySaltedHash(sha256, random, password, candidate);
    assert (salt + candidate)[|salt|..] == candidate && (salt + password)[|salt|..] == password;
    if HexDigest(sha256, salt + candidate) == HexDigest(sha256, salt + password) {
      HexEncodeInjective(sha256(salt + candidate), sha256(salt + password));
    }
  }
}

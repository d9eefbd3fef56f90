/**
 * The salt handling and key preparation of
 * `CryptSharp.TraditionalDesCrypter`, the traditional (13-character) DES
 * crypt.
 *
 * The .NET regular expression is replaced by a matcher written against its
 * pattern, piece by piece.  DES itself, the crypt base-64 alphabet and the
 * random source are parameters: `des` is `DesCipher.Create(key).Crypt(...)`
 * on a zero block, `cryptValue` and `cryptString` are
 * `Base64Encoding.UnixCrypt.GetValue` and `GetString`, `md5String` is
 * `Base64Encoding.UnixMD5.GetString`, and `draw(k)` is the k-th result of
 * `Security.GenerateRandomBytes(2)`.
 */
module TraditionalDesCrypter {
  import opened Wrappers
  import opened BitPacking
  import WordValue

  /** `MaxPasswordLength`: DES keys use at most eight password bytes. */
  const MaxPasswordLength: nat := 8

  /** One round of salted DES crypt: key, iteration count and salt value to the eight output bytes. */
  type DesCrypt = (seq<byte>, nat, int) -> seq<byte>

  // ---------------------------------------------------------------------
  // The salt format: \A(?<salt>[A-Za-z0-9./]{2})(?<hash>[A-Za-z0-9./]{11})?\z
  // ---------------------------------------------------------------------

  /** The character class `[A-Za-z0-9./]`. */
  predicate IsSaltChar(c: char) {
    ('A' <= c <= 'Z') || ('a' <= c <= 'z') || ('0' <= c <= '9') || c == '.' || c == '/'
  }

  /** Every character of `s` is in the class. */
  predicate AllSaltChars(s: string) {
    forall i :: 0 <= i < |s| ==> IsSaltChar(s[i])
  }

  /** The pattern piece `[A-Za-z0-9./]{n}` matched at position `i` of `s`. */
  function Repeat(s: string, i: nat, n: nat): (m: bool)
    requires i <= |s|
    ensures m ==> i + n <= |s|
    decreases n
  {
    n == 0 || (i < |s| && IsSaltChar(s[i]) && Repeat(s, i + 1, n - 1))
  }

  /** `[A-Za-z0-9./]{n}` matches at `i` exactly when the next n characters exist and are all in the class. */
  lemma {:induction false} RepeatMeans(s: string, i: nat, n: nat)
    requires i <= |s|
    ensures Repeat(s, i, n) <==> i + n <= |s| && forall k :: i <= k < i + n ==> IsSaltChar(s[k])
    decreases n
  {
    if n > 0 && i < |s| {
      RepeatMeans(s, i + 1, n - 1);
    }
  }

  /**
   * The regular expression matched against the whole of `s` (`\A` ... `\z`):
   * the `salt` group, then the optional `hash` group, then the end.  On a
   * match the result is the text of the `salt` group.
   */
  function MatchSalt(s: string): (group: Option<string>)
    ensures group.Some? ==> |s| >= 2 && group.value == s[..2]
  {
    if !Repeat(s, 0, 2) then None
    else if |s| == 2 then Some(s[..2])                        // (?<hash>...)? takes nothing, then \z
    else if Repeat(s, 2, 11) && |s| == 13 then Some(s[..2])   // (?<hash>...)? takes 11, then \z
    else None
  }

  /** The pattern accepts exactly the strings of 2 or 13 characters, all in the class. */
  lemma MatchSaltMeans(s: string)
    ensures MatchSalt(s).Some? <==> (|s| == 2 || |s| == 13) && AllSaltChars(s)
  {
    RepeatMeans(s, 0, 2);
    if |s| >= 2 {
      RepeatMeans(s, 2, 11);
    }
    if (|s| == 2 || |s| == 13) && AllSaltChars(s) {
      assert forall k :: 0 <= k < 2 ==> IsSaltChar(s[k]);
      assert |s| == 13 ==> forall k :: 2 <= k < 13 ==> IsSaltChar(s[k]);
    }
    if MatchSalt(s).Some? {
      forall k | 0 <= k < |s|
        ensures IsSaltChar(s[k])
      {
        if k >= 2 {
          assert 2 <= k < 2 + 11;
        }
      }
    }
  }

  /** `CanCrypt`: a `null` salt is rejected; otherwise whether the salt has the format. */
  function CanCrypt(salt: Option<string>): (result: Result<bool, Error>)
    ensures salt.None? ==> result == Failure(ArgumentNull("salt"))
    ensures salt.Some? ==> result.Success?
  {
    if salt.None? then Failure(ArgumentNull("salt")) else Success(MatchSalt(salt.value).Some?)
  }

  /** What `CanCrypt` accepts, stated without the matcher. */
  lemma CanCryptMeans(salt: string)
    ensures CanCrypt(Some(salt)) == Success(true) <==> (|salt| == 2 || |salt| == 13) && AllSaltChars(salt)
    ensures CanCrypt(Some(salt)) == Success(false) <==> !((|salt| == 2 || |salt| == 13) && AllSaltChars(salt))
  {
    MatchSaltMeans(salt);
  }

  // ---------------------------------------------------------------------
  // FilterSalt and GenerateSalt
  // ---------------------------------------------------------------------

  /** `FilterSalt`: PHP's crypt replaces the salt ".." by "/."; every other salt passes unchanged. */
  function FilterSalt(salt: string): (filtered: string)
    ensures filtered != ".."
    ensures |filtered| == |salt|
    ensures filtered == salt || (salt == ".." && filtered == "/.")
  {
    if salt == ".." then "/." else salt
  }

  /** Filtering twice is filtering once. */
  lemma FilterSaltIdempotent(salt: string)
    ensures FilterSalt(FilterSalt(salt)) == FilterSalt(salt)
  {
  }

  /** The fixed points of `FilterSalt` are the strings other than "..". */
  lemma FilterSaltFixedPoints(salt: string)
    ensures FilterSalt(salt) == salt <==> salt != ".."
  {
  }

  /** A salt in the class stays in the class. */
  lemma FilterSaltKeepsClass(salt: string)
    requires AllSaltChars(salt)
    ensures AllSaltChars(FilterSalt(salt))
  {
  }

  /** `UnixMD5.GetString` of two bytes is three characters of the crypt alphabet `./0-9A-Za-z`. */
  ghost predicate EncodesTwoBytes(md5String: seq<byte> -> string) {
    forall b: seq<byte> :: |b| == 2 ==> |md5String(b)| == 3 && AllSaltChars(md5String(b))
  }

  /** The salt candidate of one turn of the `GenerateSalt` loop: two random bytes, encoded, first two characters. */
  function Candidate(md5String: seq<byte> -> string, bytes: seq<byte>): (salt: string)
    requires EncodesTwoBytes(md5String) && |bytes| == 2
    ensures |salt| == 2 && AllSaltChars(salt)
  {
    md5String(bytes)[..2]
  }

  /** The loop draws again after these bytes: their candidate is "..". */
  predicate Rejected(md5String: seq<byte> -> string, bytes: seq<byte>)
    requires EncodesTwoBytes(md5String) && |bytes| == 2
  {
    FilterSalt(Candidate(md5String, bytes)) != Candidate(md5String, bytes)
  }

  /** The random source eventually yields a candidate that `FilterSalt` does not change. */
  ghost predicate EventuallyAccepted(md5String: seq<byte> -> string, draw: nat -> seq<byte>)
    requires EncodesTwoBytes(md5String) && forall k :: |draw(k)| == 2
  {
    exists k: nat :: FilterSalt(Candidate(md5String, draw(k))) == Candidate(md5String, draw(k))
  }

  /**
   * `GenerateSalt`: draws two random bytes at a time until the encoded
   * candidate is a fixed point of `FilterSalt`.  The loop ends because the
   * random source is required to produce such a candidate at some turn.
   */
  method GenerateSalt(options: Option<()>, md5String: seq<byte> -> string, draw: nat -> seq<byte>)
    returns (result: Result<string, Error>)
    requires EncodesTwoBytes(md5String) && forall k :: |draw(k)| == 2
    requires EventuallyAccepted(md5String, draw)
    ensures options.None? ==> result == Failure(ArgumentNull("options"))
    ensures options.Some? ==> result.Success?
    ensures result.Success? ==> |result.value| == 2 && result.value != ".."
    ensures result.Success? ==> FilterSalt(result.value) == result.value
    ensures result.Success? ==> CanCrypt(Some(result.value)) == Success(true)
    ensures result.Success? ==>
              exists k: nat :: (result.value == Candidate(md5String, draw(k)) && forall t :: 0 <= t < k ==> Rejected(md5String, draw(t)))
  {
    if options.None? {
      return Failure(ArgumentNull("options"));
    }
    ghost var last: nat :| FilterSalt(Candidate(md5String, draw(last))) == Candidate(md5String, draw(last));
    var turn: nat := 0;
    var salt := Candidate(md5String, draw(turn));
    while FilterSalt(salt) != salt
      invariant turn <= last && salt == Candidate(md5String, draw(turn))
      invariant forall t :: 0 <= t < turn ==> Rejected(md5String, draw(t))
      decreases last - turn
    {
      turn := turn + 1;
      salt := Candidate(md5String, draw(turn));
    }
    FilterSaltFixedPoints(salt);
    CanCryptMeans(salt);
    return Success(salt);
  }

  // ---------------------------------------------------------------------
  // Crypt
  // ---------------------------------------------------------------------

  /**
   * `ByteArray.NullTerminatedLength(buffer, maxLength)` (not part of this
   * model's sources): the index of the first zero byte, capped at
   * `maxLength` and at the length of the buffer.
   */
  function NullTerminatedLength(buffer: seq<byte>, maxLength: nat): (n: nat)
    ensures n <= maxLength && n <= |buffer|
    ensures forall i :: 0 <= i < n ==> buffer[i] != 0
    ensures n < maxLength && n < |buffer| ==> buffer[n] == 0
  {
    if maxLength == 0 || |buffer| == 0 || buffer[0] == 0 then 0
    else 1 + NullTerminatedLength(buffer[1..], maxLength - 1)
  }

  /** A left shift of a byte by one is doubling modulo 256. */
  lemma ShiftIsDouble(b: byte)
    ensures (b << 1) as int == (b as int * 2) % 256
  {
  }

  /**
   * The DES key `Crypt` builds from `password`: eight bytes, the password
   * bytes before the first zero (at most eight) each doubled modulo 256,
   * then zeros.
   */
  predicate IsPreparedKey(password: seq<byte>, key: seq<byte>) {
    |key| == MaxPasswordLength
    && (forall n :: 0 <= n < NullTerminatedLength(password, MaxPasswordLength) ==>
          key[n] as int == (password[n] as int * 2) % 256)
    && (forall n :: NullTerminatedLength(password, MaxPasswordLength) <= n < MaxPasswordLength ==> key[n] == 0)
  }

  /** A password determines its key: at most one key is prepared from it. */
  lemma PreparedKeyUnique(password: seq<byte>, k1: seq<byte>, k2: seq<byte>)
    requires IsPreparedKey(password, k1) && IsPreparedKey(password, k2)
    ensures k1 == k2
  {
  }

  /**
   * Lines 55-60 of `Crypt`: up to eight password bytes before the first zero
   * are copied into a zeroed 8-byte key, and every key byte is shifted left
   * by one.  The shift drops the high bit of each byte, which crypt ignores
   * (seven bits per ASCII character), and leaves the low bit, the bit DES
   * keeps for parity, zero.
   */
  method PrepareKey(password: seq<byte>) returns (input: array<byte>)
    ensures fresh(input) && IsPreparedKey(password, input[..])
  {
    input := new byte[8](_ => 0);
    var length := NullTerminatedLength(password, input.Length);
    var count := if length < input.Length then length else input.Length;
    forall i | 0 <= i < count {
      input[i] := password[i];
    }
    for n := 0 to 8
      invariant forall k :: 0 <= k < n ==> input[k] as int == (if k < length then (password[k] as int * 2) % 256 else 0)
      invariant forall k :: n <= k < 8 ==> input[k] == (if k < length then password[k] else 0)
    {
      ShiftIsDouble(input[n]);
      input[n] := input[n] << 1;
    }
  }

  /** The C# `|` on non-negative `int`s, bit by bit from the least significant. */
  function Or(a: nat, b: nat): (c: nat)
    decreases a + b
  {
    if a == 0 && b == 0 then 0
    else (if a % 2 == 1 || b % 2 == 1 then 1 else 0) + 2 * Or(a / 2, b / 2)
  }

  /** The C# `x << k` on a non-negative `int` that does not overflow. */
  function ShiftLeft(x: nat, k: nat): (y: nat) {
    x * WordValue.Pow2(k)
  }

  /** OR with a value shifted past all the bits of `a` adds the two. */
  lemma {:induction false} OrDisjoint(a: nat, b: nat, k: nat)
    requires a < WordValue.Pow2(k)
    ensures Or(a, ShiftLeft(b, k)) == a + ShiftLeft(b, k)
    decreases k
  {
    if k == 0 {
      assert a == 0;
      OrZero(b);
    } else {
      var p := WordValue.Pow2(k - 1);
      var hb := ShiftLeft(b, k);
      assert hb == 2 * (b * p);
      assert hb % 2 == 0 && hb / 2 == ShiftLeft(b, k - 1);
      assert a / 2 < p;
      OrDisjoint(a / 2, b, k - 1);
      if a == 0 && hb == 0 {
      } else {
        assert Or(a, hb) == a % 2 + 2 * Or(a / 2, hb / 2);
      }
    }
  }

  /** OR with zero changes nothing. */
  lemma {:induction false} OrZero(b: nat)
    ensures Or(0, b) == b
    decreases b
  {
    if b != 0 {
      OrZero(b / 2);
    }
  }

  /**
   * `GetValue(s[0]) << 0 | GetValue(s[1]) << 6`: two 6-bit character values
   * packed, the first in the low bits, into a 12-bit salt.
   */
  function SaltValue(v0: nat, v1: nat): (value: nat)
    requires v0 < 64 && v1 < 64
    ensures value == v0 + 64 * v1
    ensures value < 4096
    ensures value % 64 == v0 && value / 64 == v1
  {
    var lo, hi := ShiftLeft(v0, 0), ShiftLeft(v1, 6);
    assert lo == v0 && WordValue.Pow2(6) == 64;
    OrDisjoint(lo, v1, 6);
    Digits64(v0, v1, hi);
    Or(lo, hi)
  }

  /** The base-64 digits of v0 + 64 v1. */
  lemma Digits64(v0: nat, v1: nat, hi: nat)
    requires v0 < 64 && v1 < 64 && hi == v1 * 64
    ensures v0 + hi < 4096 && (v0 + hi) % 64 == v0 && (v0 + hi) / 64 == v1
  {
  }

  /**
   * The result of `Crypt` for a key and the salt characters that matched:
   * the filtered salt, then the crypt encoding of 25 rounds of DES salted
   * by the value of the first character plus 64 times that of the second.
   */
  function Hashed(des: DesCrypt, cryptValue: char -> int, cryptString: seq<byte> -> string, key: seq<byte>, salt: string)
    : (hash: string)
    requires |salt| == 2
    ensures |hash| >= 2 && hash[..2] == FilterSalt(salt)
  {
    var s := FilterSalt(salt);
    s + cryptString(des(key, 25, cryptValue(s[0]) + 64 * cryptValue(s[1])))
  }

  /** `Base64Encoding.UnixCrypt.GetValue` maps each character of the class to a 6-bit value. */
  ghost predicate DecodesClass(cryptValue: char -> int) {
    forall c :: IsSaltChar(c) ==> 0 <= cryptValue(c) < 64
  }

  /**
   * `Crypt`: the null checks, the format check, then the filtered salt
   * followed by the crypt encoding of 25 rounds of salted DES keyed by the
   * prepared password.
   */
  method Crypt(des: DesCrypt, cryptValue: char -> int, cryptString: seq<byte> -> string,
               password: Option<seq<byte>>, salt: Option<string>)
    returns (result: Result<string, Error>)
    requires DecodesClass(cryptValue)
    ensures password.None? ==> result == Failure(ArgumentNull("password"))
    ensures password.Some? && salt.None? ==> result == Failure(ArgumentNull("salt"))
    ensures password.Some? && salt.Some? && CanCrypt(salt) == Success(false) ==> result == Failure(Argument("salt"))
    ensures password.Some? && salt.Some? && CanCrypt(salt) == Success(true) ==> result.Success?
    ensures result.Success? ==> password.Some? && salt.Some? && |salt.value| >= 2 && |result.value| >= 2
    ensures result.Success? ==> result.value[..2] == FilterSalt(salt.value[..2]) && AllSaltChars(result.value[..2])
    ensures result.Success? ==> (exists key :: IsPreparedKey(password.value, key) && result.value == Hashed(des, cryptValue, cryptString, key, salt.value[..2]))
  {
    if password.None? {
      return Failure(ArgumentNull("password"));
    }
    if salt.None? {
      return Failure(ArgumentNull("salt"));
    }
    var matched := MatchSalt(salt.value);
    if matched.None? {
      return Failure(Argument("salt"));
    }
    MatchSaltMeans(salt.value);
    var saltString := FilterSalt(matched.value);
    assert AllSaltChars(saltString) by {
      assert forall k :: 0 <= k < 2 ==> matched.value[k] == salt.value[k];
    }
    var input := PrepareKey(password.value);
    var saltValue := SaltValue(cryptValue(saltString[0]), cryptValue(saltString[1]));
    var crypt := des(input[..], 25, saltValue);
    result := Success(saltString + cryptString(crypt));
    assert result.value[..2] == saltString;
  }
}

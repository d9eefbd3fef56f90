/**
 * The unsigned value of a 32-bit word and the C# cast `(uint)n`.
 *
 * A word's value is assembled from its four bytes, so that every proof
 * about it reasons on 8-bit quantities: each fact about the bits of a
 * word is a lemma of its own, and the arithmetic on values is stated over
 * bytes.
 */
module WordValue {
  type Word = bv32

  /** The low byte of `w`. */
  function Lo8(w: Word): (b: bv8)
  {
    (w & 0xFF) as bv8
  }

  /** The value of the word with bytes `b3 b2 b1 b0`, most significant first. */
  function NatOfBytes(b3: bv8, b2: bv8, b1: bv8, b0: bv8): (n: nat)
  {
    b3 as int * 0x100_0000 + b2 as int * 0x1_0000 + b1 as int * 0x100 + b0 as int
  }

  /** The unsigned value of `w`, as C# reads a `uint`. */
  function ToNat(w: Word): (n: nat)
  {
    NatOfBytes(Lo8(w >> 24), Lo8(w >> 16), Lo8(w >> 8), Lo8(w))
  }

  /** The value of a word is below 2^32. */
  lemma ToNatBelow(w: Word)
    ensures ToNat(w) < 0x1_0000_0000
  {
  }

  /** The word with bytes `b3 b2 b1 b0`, most significant first. */
  function WordOfBytes(b3: bv8, b2: bv8, b1: bv8, b0: bv8): (w: Word)
  {
    ((b3 as Word) << 24) | ((b2 as Word) << 16) | ((b1 as Word) << 8) | (b0 as Word)
  }

  /** The byte with high nibble `hi` and low nibble `lo`. */
  function ByteOfNibbles(hi: nat, lo: nat): (b: bv8)
    requires hi < 0x10 && lo < 0x10
  {
    ((hi as bv8) << 4) | (lo as bv8)
  }

  /** The byte of value `n`. */
  function ByteOfNat(n: nat): (b: bv8)
    requires n < 0x100
  {
    ByteOfNibbles(n / 0x10, n % 0x10)
  }

  /** The C# cast `(uint)n` of a value that fits in 32 bits: its four base-256 digits. */
  function FromNat(n: nat): (w: Word)
    requires n < 0x1_0000_0000
  {
    TopDigit(n);
    var q1 := n / 0x100;
    var q2 := q1 / 0x100;
    WordOfBytes(ByteOfNat(q2 / 0x100), ByteOfNat(q2 % 0x100), ByteOfNat(q1 % 0x100), ByteOfNat(n % 0x100))
  }

  // ---------------------------------------------------------------------
  // The cast is undone by reading the value
  // ---------------------------------------------------------------------

  lemma Byte3OfWord(b3: bv8, b2: bv8, b1: bv8, b0: bv8)
    ensures Lo8(WordOfBytes(b3, b2, b1, b0) >> 24) == b3
  {
  }

  lemma Byte2OfWord(b3: bv8, b2: bv8, b1: bv8, b0: bv8)
    ensures Lo8(WordOfBytes(b3, b2, b1, b0) >> 16) == b2
  {
  }

  lemma Byte1OfWord(b3: bv8, b2: bv8, b1: bv8, b0: bv8)
    ensures Lo8(WordOfBytes(b3, b2, b1, b0) >> 8) == b1
  {
  }

  lemma Byte0OfWord(b3: bv8, b2: bv8, b1: bv8, b0: bv8)
    ensures Lo8(WordOfBytes(b3, b2, b1, b0)) == b0
  {
  }

  /** WordOfBytes and the byte reading of ToNat are inverse. */
  lemma ToNatOfBytes(b3: bv8, b2: bv8, b1: bv8, b0: bv8)
    ensures ToNat(WordOfBytes(b3, b2, b1, b0)) == NatOfBytes(b3, b2, b1, b0)
  {
    Byte3OfWord(b3, b2, b1, b0);
    Byte2OfWord(b3, b2, b1, b0);
    Byte1OfWord(b3, b2, b1, b0);
    Byte0OfWord(b3, b2, b1, b0);
  }

  lemma NibbleCast(n: nat)
    requires n < 0x10
    ensures (n as bv8) as int == n
  {
  }

  lemma NibbleCastSmall(n: nat)
    requires n < 0x10
    ensures (n as bv8) < 0x10
  {
  }

  lemma NibblesCombine(x: bv8, y: bv8)
    requires x < 0x10 && y < 0x10
    ensures ((x << 4) | y) as int == 0x10 * x as int + y as int
  {
  }

  lemma ByteOfNibblesValue(hi: nat, lo: nat)
    requires hi < 0x10 && lo < 0x10
    ensures ByteOfNibbles(hi, lo) as int == 0x10 * hi + lo
  {
    NibbleCast(hi);
    NibbleCast(lo);
    NibbleCastSmall(hi);
    NibbleCastSmall(lo);
    NibblesCombine(hi as bv8, lo as bv8);
  }

  lemma SplitNibbles(n: nat)
    requires n < 0x100
    ensures n / 0x10 < 0x10 && 0x10 * (n / 0x10) + n % 0x10 == n
  {
  }

  /** `ByteOfNat(n)` has value `n`. */
  lemma ByteOfNatValue(n: nat)
    requires n < 0x100
    ensures ByteOfNat(n) as int == n
  {
    SplitNibbles(n);
    ByteOfNibblesValue(n / 0x10, n % 0x10);
  }

  lemma DivMod256(m: nat)
    ensures m == 0x100 * (m / 0x100) + m % 0x100
  {
  }

  lemma TopDigit(n: nat)
    requires n < 0x1_0000_0000
    ensures n / 0x100 / 0x100 / 0x100 < 0x100
  {
  }

  lemma Digits(n: nat)
    requires n < 0x1_0000_0000
    ensures n == n % 0x100 + 0x100 * (n / 0x100 % 0x100 + 0x100 * (n / 0x100 / 0x100 % 0x100 + 0x100 * (n / 0x100 / 0x100 / 0x100)))
  {
    DivMod256(n);
    DivMod256(n / 0x100);
    DivMod256(n / 0x100 / 0x100);
  }

  /** `(uint)n` has value `n`. */
  lemma ToNatFromNat(n: nat)
    requires n < 0x1_0000_0000
    ensures ToNat(FromNat(n)) == n
  {
    TopDigit(n);
    var q1 := n / 0x100;
    var q2 := q1 / 0x100;
    ToNatOfBytes(ByteOfNat(q2 / 0x100), ByteOfNat(q2 % 0x100), ByteOfNat(q1 % 0x100), ByteOfNat(n % 0x100));
    ByteOfNatValue(q2 / 0x100);
    ByteOfNatValue(q2 % 0x100);
    ByteOfNatValue(q1 % 0x100);
    ByteOfNatValue(n % 0x100);
    Digits(n);
  }

  // ---------------------------------------------------------------------
  // Masking keeps a value at or below the mask
  // ---------------------------------------------------------------------

  lemma AndBelow(x: bv8, y: bv8)
    ensures (x & y) as int <= y as int
  {
  }

  lemma Byte3OfAnd(w: Word, m: Word)
    ensures Lo8((w & m) >> 24) == Lo8(w >> 24) & Lo8(m >> 24)
  {
  }

  lemma Byte2OfAnd(w: Word, m: Word)
    ensures Lo8((w & m) >> 16) == Lo8(w >> 16) & Lo8(m >> 16)
  {
  }

  lemma Byte1OfAnd(w: Word, m: Word)
    ensures Lo8((w & m) >> 8) == Lo8(w >> 8) & Lo8(m >> 8)
  {
  }

  lemma Byte0OfAnd(w: Word, m: Word)
    ensures Lo8(w & m) == Lo8(w) & Lo8(m)
  {
  }

  lemma Byte3Masked(w: Word, m: Word)
    ensures Lo8((w & m) >> 24) as int <= Lo8(m >> 24) as int
  {
    Byte3OfAnd(w, m);
    AndBelow(Lo8(w >> 24), Lo8(m >> 24));
  }

  lemma Byte2Masked(w: Word, m: Word)
    ensures Lo8((w & m) >> 16) as int <= Lo8(m >> 16) as int
  {
    Byte2OfAnd(w, m);
    AndBelow(Lo8(w >> 16), Lo8(m >> 16));
  }

  lemma Byte1Masked(w: Word, m: Word)
    ensures Lo8((w & m) >> 8) as int <= Lo8(m >> 8) as int
  {
    Byte1OfAnd(w, m);
    AndBelow(Lo8(w >> 8), Lo8(m >> 8));
  }

  lemma Byte0Masked(w: Word, m: Word)
    ensures Lo8(w & m) as int <= Lo8(m) as int
  {
    Byte0OfAnd(w, m);
    AndBelow(Lo8(w), Lo8(m));
  }

  /** `w & m` is at most `m`. */
  lemma MaskedBelow(w: Word, m: Word)
    ensures ToNat(w & m) <= ToNat(m)
  {
    Byte3Masked(w, m);
    Byte2Masked(w, m);
    Byte1Masked(w, m);
    Byte0Masked(w, m);
  }

  // ---------------------------------------------------------------------
  // Subtracting one from a nonzero word subtracts one from its value
  // ---------------------------------------------------------------------

  lemma PredByte(x: bv8)
    requires x != 0
    ensures (x - 1) as int + 1 == x as int
  {
  }

  lemma SomeByteNonzero(a: Word)
    requires a != 0
    ensures Lo8(a) != 0 || Lo8(a >> 8) != 0 || Lo8(a >> 16) != 0 || Lo8(a >> 24) != 0
  {
  }

  // Borrow<c>Byte<i>: byte i of a - 1 when byte c is the lowest nonzero byte of a.

  lemma Borrow0Byte0(a: Word)
    requires Lo8(a) != 0
    ensures Lo8(a - 1) == Lo8(a) - 1
  {
  }

  lemma Borrow0Byte1(a: Word)
    requires Lo8(a) != 0
    ensures Lo8((a - 1) >> 8) == Lo8(a >> 8)
  {
  }

  lemma Borrow0Byte2(a: Word)
    requires Lo8(a) != 0
    ensures Lo8((a - 1) >> 16) == Lo8(a >> 16)
  {
  }

  lemma Borrow0Byte3(a: Word)
    requires Lo8(a) != 0
    ensures Lo8((a - 1) >> 24) == Lo8(a >> 24)
  {
  }

  lemma Borrow1Byte0(a: Word)
    requires Lo8(a) == 0 && Lo8(a >> 8) != 0
    ensures Lo8(a - 1) == 0xFF
  {
  }

  lemma Borrow1Byte1(a: Word)
    requires Lo8(a) == 0 && Lo8(a >> 8) != 0
    ensures Lo8((a - 1) >> 8) == Lo8(a >> 8) - 1
  {
  }

  lemma Borrow1Byte2(a: Word)
    requires Lo8(a) == 0 && Lo8(a >> 8) != 0
    ensures Lo8((a - 1) >> 16) == Lo8(a >> 16)
  {
  }

  lemma Borrow1Byte3(a: Word)
    requires Lo8(a) == 0 && Lo8(a >> 8) != 0
    ensures Lo8((a - 1) >> 24) == Lo8(a >> 24)
  {
  }

  lemma Borrow2Byte0(a: Word)
    requires Lo8(a) == 0 && Lo8(a >> 8) == 0 && Lo8(a >> 16) != 0
    ensures Lo8(a - 1) == 0xFF
  {
  }

  lemma Borrow2Byte1(a: Word)
    requires Lo8(a) == 0 && Lo8(a >> 8) == 0 && Lo8(a >> 16) != 0
    ensures Lo8((a - 1) >> 8) == 0xFF
  {
  }

  lemma Borrow2Byte2(a: Word)
    requires Lo8(a) == 0 && Lo8(a >> 8) == 0 && Lo8(a >> 16) != 0
    ensures Lo8((a - 1) >> 16) == Lo8(a >> 16) - 1
  {
  }

  lemma Borrow2Byte3(a: Word)
    requires Lo8(a) == 0 && Lo8(a >> 8) == 0 && Lo8(a >> 16) != 0
    ensures Lo8((a - 1) >> 24) == Lo8(a >> 24)
  {
  }

  lemma Borrow3Byte0(a: Word)
    requires Lo8(a) == 0 && Lo8(a >> 8) == 0 && Lo8(a >> 16) == 0 && Lo8(a >> 24) != 0
    ensures Lo8(a - 1) == 0xFF
  {
  }

  lemma Borrow3Byte1(a: Word)
    requires Lo8(a) == 0 && Lo8(a >> 8) == 0 && Lo8(a >> 16) == 0 && Lo8(a >> 24) != 0
    ensures Lo8((a - 1) >> 8) == 0xFF
  {
  }

  lemma Borrow3Byte2(a: Word)
    requires Lo8(a) == 0 && Lo8(a >> 8) == 0 && Lo8(a >> 16) == 0 && Lo8(a >> 24) != 0
    ensures Lo8((a - 1) >> 16) == 0xFF
  {
  }

  lemma Borrow3Byte3(a: Word)
    requires Lo8(a) == 0 && Lo8(a >> 8) == 0 && Lo8(a >> 16) == 0 && Lo8(a >> 24) != 0
    ensures Lo8((a - 1) >> 24) == Lo8(a >> 24) - 1
  {
  }

  lemma PredNoBorrow(a: Word)
    requires Lo8(a) != 0
    ensures ToNat(a - 1) + 1 == ToNat(a)
  {
    Borrow0Byte0(a);
    Borrow0Byte1(a);
    Borrow0Byte2(a);
    Borrow0Byte3(a);
    PredByte(Lo8(a));
  }

  lemma PredBorrow1(a: Word)
    requires Lo8(a) == 0 && Lo8(a >> 8) != 0
    ensures ToNat(a - 1) + 1 == ToNat(a)
  {
    Borrow1Byte0(a);
    Borrow1Byte1(a);
    Borrow1Byte2(a);
    Borrow1Byte3(a);
    PredByte(Lo8(a >> 8));
  }

  lemma PredBorrow2(a: Word)
    requires Lo8(a) == 0 && Lo8(a >> 8) == 0 && Lo8(a >> 16) != 0
    ensures ToNat(a - 1) + 1 == ToNat(a)
  {
    Borrow2Byte0(a);
    Borrow2Byte1(a);
    Borrow2Byte2(a);
    Borrow2Byte3(a);
    PredByte(Lo8(a >> 16));
  }

  lemma PredBorrow3(a: Word)
    requires Lo8(a) == 0 && Lo8(a >> 8) == 0 && Lo8(a >> 16) == 0 && Lo8(a >> 24) != 0
    ensures ToNat(a - 1) + 1 == ToNat(a)
  {
    Borrow3Byte0(a);
    Borrow3Byte1(a);
    Borrow3Byte2(a);
    Borrow3Byte3(a);
    PredByte(Lo8(a >> 24));
  }

  /** For a nonzero word, `a - 1` (no wrap-around) has value one less. */
  lemma Pred(a: Word)
    requires a != 0
    ensures ToNat(a - 1) + 1 == ToNat(a)
  {
    SomeByteNonzero(a);
    if Lo8(a) != 0 {
      PredNoBorrow(a);
    } else if Lo8(a >> 8) != 0 {
      PredBorrow1(a);
    } else if Lo8(a >> 16) != 0 {
      PredBorrow2(a);
    } else {
      PredBorrow3(a);
    }
  }

  /**
   * The index `w & (N - 1)` of a nonzero table size `N` lies inside a
   * table of `N` entries.
   */
  lemma MaskedIndexInRange(w: Word, N: Word)
    requires N != 0
    ensures ToNat(w & (N - 1)) < ToNat(N)
  {
    MaskedBelow(w, N - 1);
    Pred(N);
  }

  /** Only the zero word has value zero, so a table of ToNat(N) > 0 entries has N != 0. */
  lemma PositiveIsNonzero(w: Word)
    requires ToNat(w) > 0
    ensures w != 0
  {
    assert ToNat(0) == 0;
  }

  // ---------------------------------------------------------------------
  // Masking with 2^k - 1 takes the value modulo 2^k
  // ---------------------------------------------------------------------

  /** 2 to the power k. */
  function Pow2(k: nat): (p: nat)
    ensures p >= 1
  {
    if k == 0 then 1 else 2 * Pow2(k - 1)
  }

  /** Powers of two add their exponents when multiplied. */
  lemma {:induction false} Pow2Add(a: nat, b: nat)
    ensures Pow2(a + b) == Pow2(a) * Pow2(b)
  {
    if a > 0 {
      Pow2Add(a - 1, b);
    }
  }

  /** The bytes of `w`, least significant first. */
  function Bytes(w: Word): (bs: seq<bv8>)
    ensures |bs| == 4
  {
    [Lo8(w), Lo8(w >> 8), Lo8(w >> 16), Lo8(w >> 24)]
  }

  /** The little-endian base-256 value of a byte sequence. */
  function Val(bs: seq<bv8>): (n: nat)
  {
    if |bs| == 0 then 0 else bs[0] as int + 0x100 * Val(bs[1..])
  }

  /** The value of a word is the value of its bytes. */
  lemma ToNatIsVal(w: Word)
    ensures ToNat(w) == Val(Bytes(w))
  {
    var bs := Bytes(w);
    assert bs[1..][1..][1..][1..] == [];
    assert Val(bs[1..][1..][1..]) == Lo8(w >> 24) as int;
    assert Val(bs[1..][1..]) == Lo8(w >> 16) as int + 0x100 * Lo8(w >> 24) as int;
    assert Val(bs[1..]) == Lo8(w >> 8) as int + 0x100 * Val(bs[1..][1..]);
  }

  // A byte masked with 2^k - 1 keeps its value modulo 2^k, for each k.
  lemma Mask0(b: bv8) ensures b & 0 == 0 {}
  lemma Mask1(b: bv8) ensures (b & 1) as int == b as int % 2 {}
  lemma Mask2(b: bv8) ensures (b & 3) as int == b as int % 4 {}
  lemma Mask3(b: bv8) ensures (b & 7) as int == b as int % 8 {}
  lemma Mask4(b: bv8) ensures (b & 0xF) as int == b as int % 0x10 {}
  lemma Mask5(b: bv8) ensures (b & 0x1F) as int == b as int % 0x20 {}
  lemma Mask6(b: bv8) ensures (b & 0x3F) as int == b as int % 0x40 {}
  lemma Mask7(b: bv8) ensures (b & 0x7F) as int == b as int % 0x80 {}
  lemma MaskAll(b: bv8) ensures b & 0xFF == b {}

  /** A byte masked with 2^k - 1, k < 8, keeps its value modulo 2^k. */
  lemma ByteMaskMod(b: bv8, m: bv8, k: nat)
    requires k < 8 && m as int + 1 == Pow2(k)
    ensures (b & m) as int == b as int % Pow2(k)
  {
    if k == 0 {
      assert m == 0;
      Mask0(b);
    } else if k == 1 {
      assert Pow2(1) == 2 && m == 1;
      Mask1(b);
    } else if k == 2 {
      assert Pow2(2) == 4 && m == 3;
      Mask2(b);
    } else if k == 3 {
      assert Pow2(3) == 8 && m == 7;
      Mask3(b);
    } else if k == 4 {
      assert Pow2(4) == 0x10 && m == 0xF;
      Mask4(b);
    } else if k == 5 {
      assert Pow2(5) == 0x20 && m == 0x1F;
      Mask5(b);
    } else if k == 6 {
      assert Pow2(6) == 0x40 && m == 0x3F;
      Mask6(b);
    } else {
      assert Pow2(7) == 0x80 && m == 0x7F;
      Mask7(b);
    }
  }

  /** The low digit and the rest of a base-256 number are unique. */
  lemma SplitDigit(a0: int, a: int, b0: int, b: int)
    requires 0 <= a0 < 0x100 && 0 <= b0 < 0x100 && a0 + 0x100 * a == b0 + 0x100 * b
    ensures a0 == b0 && a == b
  {
  }

  /** A positive multiple of d is at least d. */
  lemma MulAtLeast(a: int, d: int)
    requires a >= 1 && d > 0
    ensures a * d >= d
  {
  }

  /** Division with remainder is unique. */
  lemma ModUnique(x: int, d: int, q: int, r: int)
    requires d > 0 && 0 <= r < d && x == q * d + r
    ensures x % d == r
  {
    var q2, r2 := x / d, x % d;
    assert x == q2 * d + r2;
    if q > q2 {
      assert (q - q2) * d == q * d - q2 * d;
      MulAtLeast(q - q2, d);
    } else if q < q2 {
      assert (q2 - q) * d == q2 * d - q * d;
      MulAtLeast(q2 - q, d);
    }
  }

  /** Above the low byte, reducing modulo 256 P reduces the upper digits modulo P. */
  lemma ModShift(b0: nat, R: nat, P: nat)
    requires b0 < 0x100 && P >= 1
    ensures (b0 + 0x100 * R) % (0x100 * P) == b0 + 0x100 * (R % P)
  {
    var q, r := R / P, R % P;
    assert R == q * P + r;
    assert 0x100 * R == q * (0x100 * P) + 0x100 * r;
    assert b0 + 0x100 * r < 0x100 * P;
    ModUnique(b0 + 0x100 * R, 0x100 * P, q, b0 + 0x100 * r);
  }

  /** Adding a multiple of d does not change the value modulo d. */
  lemma ModAddMultiple(x: int, d: int, y: int)
    requires d > 0
    ensures (x + d * y) % d == x % d
  {
    assert x + d * y == (x / d + y) * d + x % d;
    ModUnique(x + d * y, d, x / d + y, x % d);
  }

  /** Regrouping a product P == d * e. */
  lemma Regroup(d: int, e: int, P: int, R: int)
    requires d * e == P
    ensures P * R == d * (e * R)
  {
  }

  /** Modulo a divisor of 256, only the low byte counts. */
  lemma ModLow(b0: nat, R: nat, k: nat)
    requires k <= 8
    ensures (b0 + 0x100 * R) % Pow2(k) == b0 % Pow2(k)
  {
    Pow2Add(k, 8 - k);
    assert Pow2(8) == 0x100;
    Regroup(Pow2(k), Pow2(8 - k), 0x100, R);
    ModAddMultiple(b0, Pow2(k), Pow2(8 - k) * R);
  }

  /** Pow2 is monotonic. */
  lemma {:induction false} Pow2Mono(a: nat, b: nat)
    requires a <= b
    ensures Pow2(a) <= Pow2(b)
  {
    if a < b {
      Pow2Mono(a, b - 1);
    }
  }

  /** From 2^8 upwards, each power of two is 256 times a smaller one. */
  lemma {:induction false} Pow2Above8(k: nat)
    requires k >= 8
    ensures Pow2(k) == 0x100 * Pow2(k - 8)
  {
    if k == 8 {
      assert Pow2(8) == 0x100;
    } else {
      Pow2Above8(k - 1);
    }
  }

  /** c is b masked bytewise with m. */
  predicate AndOf(c: seq<bv8>, b: seq<bv8>, m: seq<bv8>) {
    |c| == |b| == |m| && (|c| == 0 || (c[0] == b[0] & m[0] && AndOf(c[1..], b[1..], m[1..])))
  }

  /** 2^32, by way of `Pow2Above8`. */
  lemma Pow2Of32()
    ensures Pow2(32) == 0x1_0000_0000
  {
    assert Pow2(8) == 0x100;
    Pow2Above8(16);
    assert Pow2(16) == 0x1_0000;
    Pow2Above8(24);
    assert Pow2(24) == 0x100_0000;
    Pow2Above8(32);
  }

  /** Modulo a power of two that fits a word, only the low word of a number counts. */
  lemma ModLowWord(a: nat, R: nat, k: nat)
    requires Pow2(k) < 0x1_0000_0000
    ensures (a + 0x1_0000_0000 * R) % Pow2(k) == a % Pow2(k)
  {
    Pow2Of32();
    if k > 32 {
      Pow2Mono(32, k);
    }
    Pow2Add(k, 32 - k);
    Regroup(Pow2(k), Pow2(32 - k), 0x1_0000_0000, R);
    ModAddMultiple(a, Pow2(k), Pow2(32 - k) * R);
  }

  /** Masking with a zero-valued mask gives zero. */
  lemma {:induction false} ZeroMask(b: seq<bv8>, m: seq<bv8>, c: seq<bv8>)
    requires AndOf(c, b, m) && Val(m) == 0
    ensures Val(c) == 0
  {
    if |b| > 0 {
      assert m[0] == 0;
      Mask0(b[0]);
      ZeroMask(b[1..], m[1..], c[1..]);
    }
  }

  /** The digits of 2^k - 1 for k >= 8: a low byte 0xFF over 2^(k-8) - 1. */
  lemma HighDigits(m: seq<bv8>, k: nat)
    requires |m| > 0 && k >= 8 && Val(m) + 1 == Pow2(k)
    ensures m[0] == 0xFF && Val(m[1..]) + 1 == Pow2(k - 8)
  {
    Pow2Above8(k);
    SplitDigit(m[0] as int, Val(m[1..]), 0xFF, Pow2(k - 8) - 1);
  }

  /** The digits of 2^k - 1 for k < 8: a low byte 2^k - 1 and nothing above it. */
  lemma LowDigits(m: seq<bv8>, k: nat)
    requires |m| > 0 && k < 8 && Val(m) + 1 == Pow2(k)
    ensures m[0] as int + 1 == Pow2(k) && Val(m[1..]) == 0
  {
    Pow2Mono(k, 7);
    assert Pow2(7) == 0x80;
  }

  /** The step of `MaskedVal` above the low byte, which the mask keeps whole. */
  lemma HighStep(b: seq<bv8>, c: seq<bv8>, k: nat)
    requires |b| == |c| > 0 && k >= 8 && c[0] == b[0]
    requires Val(c[1..]) == Val(b[1..]) % Pow2(k - 8)
    ensures Val(c) == Val(b) % Pow2(k)
  {
    ModShift(b[0] as int, Val(b[1..]), Pow2(k - 8));
    Pow2Above8(k);
  }

  /** The step of `MaskedVal` in the low byte, where the mask ends. */
  lemma LowStep(b: seq<bv8>, c: seq<bv8>, k: nat)
    requires |b| == |c| > 0 && k < 8 && c[0] as int == b[0] as int % Pow2(k) && Val(c[1..]) == 0
    ensures Val(c) == Val(b) % Pow2(k)
  {
    assert Val(c) == c[0] as int;
    ModLow(b[0] as int, Val(b[1..]), k);
  }

  /** Bytewise masking with the bytes of 2^k - 1 takes the value modulo 2^k. */
  lemma {:induction false} MaskedVal(b: seq<bv8>, m: seq<bv8>, c: seq<bv8>, k: nat)
    requires AndOf(c, b, m) && Val(m) + 1 == Pow2(k)
    ensures Val(c) == Val(b) % Pow2(k)
  {
    if |b| == 0 {
    } else if k >= 8 {
      HighDigits(m, k);
      MaskAll(b[0]);
      MaskedVal(b[1..], m[1..], c[1..], k - 8);
      HighStep(b, c, k);
    } else {
      LowDigits(m, k);
      ZeroMask(b[1..], m[1..], c[1..]);
      ByteMaskMod(b[0], m[0], k);
      LowStep(b, c, k);
    }
  }

  /** The bytes of `w & m` are the bytes of w masked with those of m. */
  lemma BytesOfAnd(w: Word, m: Word)
    ensures AndOf(Bytes(w & m), Bytes(w), Bytes(m))
  {
    var c, b, n := Bytes(w & m), Bytes(w), Bytes(m);
    Byte0OfAnd(w, m);
    Byte1OfAnd(w, m);
    Byte2OfAnd(w, m);
    Byte3OfAnd(w, m);
    assert AndOf(c[1..][1..][1..][1..], b[1..][1..][1..][1..], n[1..][1..][1..][1..]);
    assert AndOf(c[1..][1..][1..], b[1..][1..][1..], n[1..][1..][1..]);
    assert AndOf(c[1..][1..], b[1..][1..], n[1..][1..]);
    assert AndOf(c[1..], b[1..], n[1..]);
  }

  /** A word masked with one of value 2^k - 1 keeps its value modulo 2^k. */
  lemma MaskValue(w: Word, m: Word, k: nat)
    requires ToNat(m) + 1 == Pow2(k)
    ensures ToNat(w & m) == ToNat(w) % Pow2(k)
  {
    ToNatIsVal(w);
    ToNatIsVal(m);
    ToNatIsVal(w & m);
    BytesOfAnd(w, m);
    MaskedVal(Bytes(w), Bytes(m), Bytes(w & m), k);
  }

  /**
   * For a word N of value 2^k, the index `w & (N - 1)` is the value of w
   * modulo N.
   */
  lemma MaskIsMod(w: Word, N: Word, k: nat)
    requires ToNat(N) == Pow2(k)
    ensures ToNat(w & (N - 1)) == ToNat(w) % ToNat(N)
  {
    PositiveIsNonzero(N);
    Pred(N);
    MaskValue(w, N - 1, k);
  }
}

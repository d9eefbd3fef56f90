/**
 * The scrypt construction of RFC 7914 as pure functions: BlockMix
 * (section 4), ROMix (section 5) and the lane split, word conversion and
 * parameter checks of `SCrypt.MFcrypt`.  The imperative methods of module
 * `SCrypt` are proved against these definitions.
 *
 * Salsa20/8 and PBKDF2-HMAC-SHA256 are parameters: `core` is any function
 * from 16 words to 16 words, and `pbkdf2` maps a password and a salt to
 * the infinite byte stream whose first `n` bytes are the derived key of
 * length `n` (one iteration).
 */
module SCryptSpec {
  import opened Wrappers
  import opened BitPacking
  import opened WordValue

  /** Sixteen words: the 64-byte unit Salsa20/8 works on. */
  type Block = s: seq<Word> | |s| == 16 witness [0, 0, 0, 0, 0, 0, 0, 0, 0, 0, 0, 0, 0, 0, 0, 0]

  /** Salsa20/8 (`Salsa20Core.Compute(8, ...)`), which this model does not define. */
  type Core = Block -> Block

  /** A PBKDF2 key stream: byte `i` of every derived key long enough to have one. */
  type Stream = nat -> byte

  /** PBKDF2-HMAC-SHA256 with one iteration, keyed by the password and salted by the salt. */
  type Pbkdf2 = (seq<byte>, seq<byte>) -> Stream

  /** A C# `int`. */
  type int32 = x: int | -0x8000_0000 <= x <= 0x7FFF_FFFF

  const IntMax: int := 0x7FFF_FFFF

  // ---------------------------------------------------------------------
  // BlockMix (RFC 7914, section 4)
  // ---------------------------------------------------------------------

  function Xor(a: seq<Word>, b: seq<Word>): (c: seq<Word>)
    requires |a| == |b|
    ensures |c| == |a|
  {
    seq(|a|, i requires 0 <= i < |a| => a[i] ^ b[i])
  }

  /**
   * The running state of BlockMix after absorbing the first `t` 16-word
   * sub-blocks of `input`, starting from `seed`.
   */
  function Chain(core: Core, seed: Block, input: seq<Word>, t: nat): (state: Block)
    requires 16 * t <= |input|
  {
    if t == 0 then seed
    else core(Xor(Chain(core, seed, input, t - 1), input[16 * (t - 1) .. 16 * t]))
  }

  /** The states after absorbing sub-blocks 0, 2, ..., 2i-2, concatenated. */
  function Evens(core: Core, seed: Block, input: seq<Word>, i: nat): (y: seq<Word>)
    requires 32 * i <= |input|
    ensures |y| == 16 * i
  {
    if i == 0 then [] else Evens(core, seed, input, i - 1) + Chain(core, seed, input, 2 * i - 1)
  }

  /** The states after absorbing sub-blocks 1, 3, ..., 2i-1, concatenated. */
  function Odds(core: Core, seed: Block, input: seq<Word>, i: nat): (y: seq<Word>)
    requires 32 * i <= |input|
    ensures |y| == 16 * i
  {
    if i == 0 then [] else Odds(core, seed, input, i - 1) + Chain(core, seed, input, 2 * i)
  }

  /** BlockMix of `input` with the running state started at `seed`. */
  function MixFrom(core: Core, seed: Block, input: seq<Word>, r: nat): (y: seq<Word>)
    requires |input| == 32 * r
    ensures |y| == 32 * r
  {
    Evens(core, seed, input, r) + Odds(core, seed, input, r)
  }

  /** BlockMix of RFC 7914: the state starts as the last sub-block of the input. */
  function BlockMix(core: Core, B: seq<Word>, r: nat): (y: seq<Word>)
    requires r >= 1 && |B| == 32 * r
    ensures |y| == 32 * r
  {
    MixFrom(core, B[32 * r - 16 .. 32 * r], B, r)
  }

  lemma {:induction false} EvensSubBlock(core: Core, seed: Block, input: seq<Word>, i: nat, p: nat)
    requires 32 * i <= |input| && p < i
    ensures Evens(core, seed, input, i)[16 * p .. 16 * p + 16] == Chain(core, seed, input, 2 * p + 1)
  {
    var prev := Evens(core, seed, input, i - 1);
    var last := Chain(core, seed, input, 2 * i - 1);
    assert Evens(core, seed, input, i) == prev + last;
    if p < i - 1 {
      EvensSubBlock(core, seed, input, i - 1, p);
      assert (prev + last)[16 * p .. 16 * p + 16] == prev[16 * p .. 16 * p + 16];
    } else {
      assert (prev + last)[16 * p .. 16 * p + 16] == last;
    }
  }

  lemma {:induction false} OddsSubBlock(core: Core, seed: Block, input: seq<Word>, i: nat, p: nat)
    requires 32 * i <= |input| && p < i
    ensures Odds(core, seed, input, i)[16 * p .. 16 * p + 16] == Chain(core, seed, input, 2 * p + 2)
  {
    var prev := Odds(core, seed, input, i - 1);
    var last := Chain(core, seed, input, 2 * i);
    assert Odds(core, seed, input, i) == prev + last;
    if p < i - 1 {
      OddsSubBlock(core, seed, input, i - 1, p);
      assert (prev + last)[16 * p .. 16 * p + 16] == prev[16 * p .. 16 * p + 16];
    } else {
      assert (prev + last)[16 * p .. 16 * p + 16] == last;
    }
  }

  /**
   * The shape RFC 7914 gives BlockMix: with X the state after absorbing
   * sub-blocks 0..t-1 (X starting as sub-block 2r-1), output sub-block i
   * is the state after absorbing sub-block 2i, and output sub-block r+i
   * the state after absorbing sub-block 2i+1.
   */
  lemma BlockMixSubBlocks(core: Core, B: seq<Word>, r: nat, i: nat)
    requires r >= 1 && |B| == 32 * r && i < r
    ensures BlockMix(core, B, r)[16 * i .. 16 * i + 16] == Chain(core, B[32 * r - 16 .. 32 * r], B, 2 * i + 1)
    ensures BlockMix(core, B, r)[16 * (r + i) .. 16 * (r + i) + 16] == Chain(core, B[32 * r - 16 .. 32 * r], B, 2 * i + 2)
  {
    var seed: Block := B[32 * r - 16 .. 32 * r];
    var ev := Evens(core, seed, B, r);
    var od := Odds(core, seed, B, r);
    EvensSubBlock(core, seed, B, r, i);
    OddsSubBlock(core, seed, B, r, i);
    assert (ev + od)[16 * i .. 16 * i + 16] == ev[16 * i .. 16 * i + 16];
    assert (ev + od)[16 * (r + i) .. 16 * (r + i) + 16] == od[16 * i .. 16 * i + 16];
  }

  // ---------------------------------------------------------------------
  // ROMix (RFC 7914, section 5)
  // ---------------------------------------------------------------------

  /** BlockMix applied `i` times. */
  function Iterate(core: Core, X: seq<Word>, r: nat, i: nat): (y: seq<Word>)
    requires r >= 1 && |X| == 32 * r
    ensures |y| == 32 * r
  {
    if i == 0 then X else BlockMix(core, Iterate(core, X, r, i - 1), r)
  }

  /**
   * The table index `SMix` reads: the first word of the last sub-block of
   * `x`, masked with N - 1.
   */
  function MaskedIndex(x: seq<Word>, r: nat, N: Word): (j: nat)
    requires r >= 1 && |x| == 32 * r && N != 0
    ensures j < ToNat(N)
  {
    var w := x[32 * r - 16];
    MaskedIndexInRange(w, N);
    ToNat(w & (N - 1))
  }

  /** The little-endian value of a sequence of words, least significant word first. */
  function WordsValue(ws: seq<Word>): (n: nat)
  {
    if |ws| == 0 then 0 else ToNat(ws[0]) + 0x1_0000_0000 * WordsValue(ws[1..])
  }

  /**
   * Integerify(X) mod N of RFC 7914, section 5: the last 64-byte
   * sub-block of X, read as a little-endian integer, modulo N.
   */
  function Integerify(x: seq<Word>, r: nat, N: Word): (j: nat)
    requires r >= 1 && |x| == 32 * r && N != 0
    ensures j < ToNat(N)
  {
    Pred(N);
    WordsValue(x[32 * r - 16..]) % ToNat(N)
  }

  /**
   * For a power of two N, masking the low word of the last sub-block with
   * N - 1 is RFC 7914's Integerify modulo N.
   */
  lemma MaskedIndexIsIntegerify(x: seq<Word>, r: nat, N: Word)
    requires r >= 1 && |x| == 32 * r && IsPositivePowerOf2(ToNat(N))
    ensures N != 0 && MaskedIndex(x, r, N) == Integerify(x, r, N)
  {
    PositiveIsNonzero(N);
    IntegerifyOfLowWord(x, r, N);
    MaskIsMod(x[32 * r - 16], N, Log2(ToNat(N)));
  }

  /** For a power of two N, Integerify modulo N depends only on the low word of the last sub-block. */
  lemma IntegerifyOfLowWord(x: seq<Word>, r: nat, N: Word)
    requires r >= 1 && |x| == 32 * r && N != 0 && IsPositivePowerOf2(ToNat(N))
    ensures Integerify(x, r, N) == ToNat(x[32 * r - 16]) % ToNat(N)
  {
    var ws := x[32 * r - 16..];
    assert ws[0] == x[32 * r - 16];
    ToNatBelow(N);
    ModLowWord(ToNat(ws[0]), WordsValue(ws[1..]), Log2(ToNat(N)));
  }

  /** Every entry of the table is a block of 32r words. */
  predicate IsTable(V: seq<seq<Word>>, r: nat) {
    forall t :: 0 <= t < |V| ==> |V[t]| == 32 * r
  }

  /** The n table entries of the fill pass: entry t is BlockMix applied t times. */
  function Table(core: Core, X: seq<Word>, r: nat, n: nat): (V: seq<seq<Word>>)
    requires r >= 1 && |X| == 32 * r
    ensures |V| == n && IsTable(V, r)
  {
    if n == 0 then [] else Table(core, X, r, n - 1) + [Iterate(core, X, r, n - 1)]
  }

  /** Entry t of the table is BlockMix applied t times to the lane. */
  lemma {:induction false} TableEntry(core: Core, X: seq<Word>, r: nat, n: nat, t: nat)
    requires r >= 1 && |X| == 32 * r && t < n
    ensures Table(core, X, r, n)[t] == Iterate(core, X, r, t)
  {
    if t < n - 1 {
      TableEntry(core, X, r, n - 1, t);
    }
  }

  /** One round of the mix pass: X := BlockMix(X xor V[j]), j the masked index. */
  function MixStep(core: Core, V: seq<seq<Word>>, x: seq<Word>, r: nat, N: Word): (y: seq<Word>)
    requires r >= 1 && |x| == 32 * r && N != 0 && |V| == ToNat(N) && IsTable(V, r)
    ensures |y| == 32 * r
  {
    BlockMix(core, Xor(x, V[MaskedIndex(x, r, N)]), r)
  }

  /** For a power of two N, a round of the mix pass is RFC 7914's X := BlockMix(X xor V[Integerify(X) mod N]). */
  lemma MixStepIsIntegerify(core: Core, V: seq<seq<Word>>, x: seq<Word>, r: nat, N: Word)
    requires r >= 1 && |x| == 32 * r && IsPositivePowerOf2(ToNat(N)) && |V| == ToNat(N) && IsTable(V, r)
    ensures N != 0 && MixStep(core, V, x, r, N) == BlockMix(core, Xor(x, V[Integerify(x, r, N)]), r)
  {
    MaskedIndexIsIntegerify(x, r, N);
  }

  /** The first `k` rounds of the mix pass. */
  function MixPass(core: Core, V: seq<seq<Word>>, x: seq<Word>, r: nat, N: Word, k: nat): (y: seq<Word>)
    requires r >= 1 && |x| == 32 * r && (k == 0 || N != 0) && |V| == ToNat(N) && IsTable(V, r)
    ensures |y| == 32 * r
  {
    if k == 0 then x else MixStep(core, V, MixPass(core, V, x, r, N, k - 1), r, N)
  }

  /**
   * ROMix of RFC 7914, section 5, for the table size `N` that `SMix`
   * receives: N rounds of each pass, with the index taken by masking,
   * which for a power of two N is Integerify modulo N
   * (`MixStepIsIntegerify`).
   */
  function ROMix(core: Core, B: seq<Word>, r: nat, N: Word): (y: seq<Word>)
    requires r >= 1 && |B| == 32 * r
    ensures |y| == 32 * r
  {
    var n := ToNat(N);
    assert N == 0 ==> n == 0;
    MixPass(core, Table(core, B, r, n), Iterate(core, B, r, n), r, N, n)
  }

  // ---------------------------------------------------------------------
  // Lanes (RFC 7914, section 6, step 2)
  // ---------------------------------------------------------------------

  /** The words in k lanes of 32r words: k * (32 * r), by repeated addition. */
  function LaneWords(r: nat, k: nat): (n: nat)
  {
    if k == 0 then 0 else LaneWords(r, k - 1) + 32 * r
  }

  lemma {:induction false} LaneWordsIsProduct(r: nat, k: nat)
    ensures LaneWords(r, k) == k * (32 * r)
  {
    if k > 0 {
      LaneWordsIsProduct(r, k - 1);
      assert (k - 1) * (32 * r) + 32 * r == k * (32 * r);
    }
  }

  /** Lane k of p lanes ends at or before the end of the last. */
  lemma {:induction false} LaneFits(r: nat, p: nat, k: nat)
    requires k < p
    ensures LaneWords(r, k) + 32 * r <= LaneWords(r, p)
    decreases p
  {
    if k < p - 1 {
      LaneFits(r, p - 1, k);
    }
  }

  lemma SlicePrefix<T>(s: seq<T>, cut: nat, a: nat, b: nat)
    requires a <= b <= cut <= |s|
    ensures s[..cut][a..b] == s[a..b]
  {
  }

  lemma SliceFront<T>(front: seq<T>, back: seq<T>, a: nat, b: nat)
    requires a <= b <= |front|
    ensures (front + back)[a..b] == front[a..b]
  {
  }

  lemma SliceBack<T>(front: seq<T>, back: seq<T>)
    ensures (front + back)[|front| .. |front| + |back|] == back
  {
  }

  lemma SliceSuffix<T>(s: seq<T>, a: nat)
    requires a <= |s|
    ensures s[a..] == s[a .. |s|]
  {
  }

  lemma PrefixOfPrefix<T>(s: seq<T>, a: nat, b: nat)
    requires a <= b <= |s|
    ensures s[..b][..a] == s[..a]
  {
  }

  lemma SuffixOfPrefix<T>(s: seq<T>, a: nat, b: nat)
    requires a <= b <= |s|
    ensures s[..b][a..] == s[a..b]
  {
  }

  /** ROMix applied to each of the `p` lanes of 32r words. */
  function MixLanes(core: Core, words: seq<Word>, r: nat, N: Word, p: nat): (out: seq<Word>)
    requires r >= 1 && |words| == LaneWords(r, p)
    ensures |out| == |words|
    decreases p
  {
    if p == 0 then []
    else
      var cut := LaneWords(r, p - 1);
      MixLanes(core, words[..cut], r, N, p - 1) + ROMix(core, words[cut..], r, N)
  }

  /** The last lane of the result is ROMix of the last input lane. */
  lemma MixLanesLast(core: Core, words: seq<Word>, r: nat, N: Word, p: nat, k: nat)
    requires r >= 1 && |words| == LaneWords(r, p) && k + 1 == p
    ensures LaneWords(r, k) + 32 * r == |words|
    ensures MixLanes(core, words, r, N, p)[LaneWords(r, k) .. LaneWords(r, k) + 32 * r]
         == ROMix(core, words[LaneWords(r, k) .. LaneWords(r, k) + 32 * r], r, N)
  {
    var cut := LaneWords(r, k);
    SliceBack(MixLanes(core, words[..cut], r, N, k), ROMix(core, words[cut..], r, N));
    SliceSuffix(words, cut);
  }

  /** A lane before the last is the same lane of the result on the first p-1 lanes. */
  lemma MixLanesFront(core: Core, words: seq<Word>, r: nat, N: Word, p: nat, k: nat)
    requires r >= 1 && |words| == LaneWords(r, p) && k + 1 < p
    ensures LaneWords(r, k) + 32 * r <= LaneWords(r, p - 1) <= |words|
    ensures MixLanes(core, words, r, N, p)[LaneWords(r, k) .. LaneWords(r, k) + 32 * r]
         == MixLanes(core, words[..LaneWords(r, p - 1)], r, N, p - 1)[LaneWords(r, k) .. LaneWords(r, k) + 32 * r]
  {
    LaneFits(r, p - 1, k);
    var cut := LaneWords(r, p - 1);
    SliceFront(MixLanes(core, words[..cut], r, N, p - 1), ROMix(core, words[cut..], r, N), LaneWords(r, k), LaneWords(r, k) + 32 * r);
  }

  /** Lane k of the result is ROMix of lane k of the input, whatever the other lanes hold. */
  lemma {:induction false} MixLanesLane(core: Core, words: seq<Word>, r: nat, N: Word, p: nat, k: nat)
    requires r >= 1 && |words| == LaneWords(r, p) && k < p
    ensures LaneWords(r, k) + 32 * r <= |words|
    ensures MixLanes(core, words, r, N, p)[LaneWords(r, k) .. LaneWords(r, k) + 32 * r]
         == ROMix(core, words[LaneWords(r, k) .. LaneWords(r, k) + 32 * r], r, N)
    decreases p
  {
    LaneFits(r, p, k);
    if k + 1 < p {
      var a, cut := LaneWords(r, k), LaneWords(r, p - 1);
      LaneFits(r, p - 1, k);
      MixLanesLane(core, words[..cut], r, N, p - 1, k);
      LaneThroughFront(core, words, r, N, p, k, a, a + 32 * r, cut);
    } else {
      MixLanesLast(core, words, r, N, p, k);
    }
  }

  /** The inductive step of `MixLanesLane`: a lane before the last passes through the first p-1 lanes. */
  lemma LaneThroughFront(core: Core, words: seq<Word>, r: nat, N: Word, p: nat, k: nat, a: nat, b: nat, cut: nat)
    requires r >= 1 && |words| == LaneWords(r, p) && k + 1 < p
    requires a == LaneWords(r, k) && b == a + 32 * r && cut == LaneWords(r, p - 1) && b <= cut <= |words|
    requires MixLanes(core, words[..cut], r, N, p - 1)[a..b] == ROMix(core, words[..cut][a..b], r, N)
    ensures MixLanes(core, words, r, N, p)[a..b] == ROMix(core, words[a..b], r, N)
  {
    MixLanesFront(core, words, r, N, p, k);
    SlicePrefix(words, cut, a, b);
  }

  /** Mixing the first lanes leaves the rest for later: the loop shape of `ThreadSMixCalls`. */
  lemma MixLanesPrefix(core: Core, words: seq<Word>, r: nat, N: Word, p: nat, c: nat)
    requires r >= 1 && |words| == LaneWords(r, p) && c < p
    ensures LaneWords(r, c + 1) <= |words|
    ensures MixLanes(core, words[..LaneWords(r, c + 1)], r, N, c + 1)
         == MixLanes(core, words[..LaneWords(r, c)], r, N, c)
          + ROMix(core, words[LaneWords(r, c) .. LaneWords(r, c + 1)], r, N)
  {
    LaneFits(r, p, c);
    PrefixOfPrefix(words, LaneWords(r, c), LaneWords(r, c + 1));
    SuffixOfPrefix(words, LaneWords(r, c), LaneWords(r, c + 1));
  }

  // ---------------------------------------------------------------------
  // Byte and word views (RFC 7914, section 6, steps 1 and 3)
  // ---------------------------------------------------------------------

  /** The little-endian words of `bytes`, four bytes each. */
  function BytesToWords(bytes: seq<byte>): (words: seq<Word>)
    requires |bytes| % 4 == 0
    ensures |words| == |bytes| / 4
  {
    seq(|bytes| / 4, i requires 0 <= i < |bytes| / 4 => UInt32FromLEBytes(bytes, 4 * i))
  }

  /** The little-endian bytes of `words`, four per word. */
  function WordsToBytes(words: seq<Word>): (bytes: seq<byte>)
    ensures |bytes| == 4 * |words|
  {
    if |words| == 0 then [] else WordsToBytes(words[..|words| - 1]) + LEBytes32(words[|words| - 1])
  }

  lemma {:induction false} WordsToBytesAt(words: seq<Word>, i: nat)
    requires i < |words|
    ensures WordsToBytes(words)[4 * i .. 4 * i + 4] == LEBytes32(words[i])
    decreases |words|
  {
    var front := WordsToBytes(words[..|words| - 1]);
    var last := LEBytes32(words[|words| - 1]);
    assert WordsToBytes(words) == front + last;
    if i < |words| - 1 {
      WordsToBytesAt(words[..|words| - 1], i);
      assert (front + last)[4 * i .. 4 * i + 4] == front[4 * i .. 4 * i + 4];
    } else {
      assert (front + last)[4 * i .. 4 * i + 4] == last;
    }
  }

  /** Converting words to bytes and back restores the words. */
  lemma WordsBytesRoundTrip(words: seq<Word>)
    ensures BytesToWords(WordsToBytes(words)) == words
  {
    var bytes := WordsToBytes(words);
    forall i | 0 <= i < |words|
      ensures BytesToWords(bytes)[i] == words[i]
    {
      WordsToBytesAt(words, i);
      LE32Window(bytes, 4 * i);
      LEBytes32RoundTrip(words[i]);
    }
  }

  /** Converting bytes to words and back restores the bytes. */
  lemma {:induction false} BytesWordsRoundTrip(bytes: seq<byte>)
    requires |bytes| % 4 == 0
    ensures WordsToBytes(BytesToWords(bytes)) == bytes
    decreases |bytes|
  {
    if |bytes| > 0 {
      var m := |bytes| / 4;
      var n := 4 * (m - 1);
      var front := bytes[..n];
      var words := BytesToWords(bytes);
      assert |front| % 4 == 0 && |words| == m;
      BytesToWordsPrefix(bytes, m - 1);
      BytesWordsRoundTrip(front);
      assert words[m - 1] == UInt32FromLEBytes(bytes, n);
      LEBytes32OfDecoded(bytes, n);
      calc {
        WordsToBytes(words);
        WordsToBytes(words[..m - 1]) + LEBytes32(words[m - 1]);
        front + bytes[n .. n + 4];
        { assert n + 4 == |bytes|; }
        bytes;
      }
    }
  }

  /** The first k words of a conversion are the conversion of the first 4k bytes. */
  lemma BytesToWordsPrefix(bytes: seq<byte>, k: nat)
    requires |bytes| % 4 == 0 && 4 * k <= |bytes|
    ensures BytesToWords(bytes)[..k] == BytesToWords(bytes[..4 * k])
  {
    var front := bytes[..4 * k];
    assert |front| / 4 == k;
    forall i | 0 <= i < k
      ensures BytesToWords(bytes)[i] == BytesToWords(front)[i]
    {
      LE32Window(bytes, 4 * i);
      LE32Window(front, 4 * i);
      assert bytes[4 * i .. 4 * i + 4] == front[4 * i .. 4 * i + 4];
    }
  }

  /** The first `n` bytes of a PBKDF2 stream: the derived key of length `n`. */
  function Read(s: Stream, n: nat): (key: seq<byte>)
    ensures |key| == n
  {
    seq(n, i requires 0 <= i < n => s(i))
  }

  // ---------------------------------------------------------------------
  // Parameter checks and the whole construction (RFC 7914, section 6)
  // ---------------------------------------------------------------------

  /** C#'s unchecked `int` arithmetic: reduce modulo 2^32 into the signed range. */
  function Wrap32(x: int): (w: int32)
    ensures (w - x) % 0x1_0000_0000 == 0
    ensures -0x8000_0000 <= x <= IntMax ==> w == x
  {
    var m := x % 0x1_0000_0000;
    if m > IntMax then m - 0x1_0000_0000 else m
  }

  /** The C# cast `(uint)x`: the same 32 bits, read unsigned. */
  function UInt(x: int32): (w: Word)
    ensures x >= 0 ==> ToNat(w) == x
    ensures x < 0 ==> ToNat(w) == x + 0x1_0000_0000
  {
    var n := if x >= 0 then x else x + 0x1_0000_0000;
    ToNatFromNat(n);
    FromNat(n)
  }

  /**
   * `BitMath.IsPositivePowerOf2`: n is 2^k for some k
   * (`PositivePowerOf2Means`).
   */
  predicate IsPositivePowerOf2(n: int)
    decreases if n > 0 then n else 0
  {
    n > 0 && (n == 1 || (n % 2 == 0 && IsPositivePowerOf2(n / 2)))
  }

  /** The exponent of a positive power of two. */
  function Log2(n: int): (k: nat)
    requires IsPositivePowerOf2(n)
    ensures Pow2(k) == n
    decreases n
  {
    if n == 1 then 0 else 1 + Log2(n / 2)
  }

  /** Every power of two passes `IsPositivePowerOf2`. */
  lemma {:induction false} Pow2IsPositivePowerOf2(k: nat)
    ensures IsPositivePowerOf2(Pow2(k))
  {
    if k > 0 {
      Pow2IsPositivePowerOf2(k - 1);
      assert Pow2(k) / 2 == Pow2(k - 1);
    }
  }

  /** `IsPositivePowerOf2` accepts exactly the powers of two 2^k. */
  lemma PositivePowerOf2Means(n: int)
    ensures IsPositivePowerOf2(n) <==> exists k: nat :: Pow2(k) == n
  {
    if IsPositivePowerOf2(n) {
      var k := Log2(n);
      assert Pow2(k) == n;
    }
    if exists k: nat :: Pow2(k) == n {
      var k: nat :| Pow2(k) == n;
      Pow2IsPositivePowerOf2(k);
    }
  }

  /**
   * The argument checks of `MFcrypt`, in the order it makes them; `None`
   * when all pass.  `MFLen` is computed with wrap-around before the
   * checks, but is only used once `blockSize` is known to be in range.
   */
  function CheckParameters(cost: int32, blockSize: int32, parallel: int32, maxThreads: Option<int32>): (e: Option<Error>)
    ensures e.None? <==>
      IsPositivePowerOf2(cost) && 1 <= blockSize <= IntMax / 128 && 1 <= parallel <= IntMax / (128 * blockSize)
      && (maxThreads.None? || maxThreads.value >= 1)
    ensures !IsPositivePowerOf2(cost) ==> e == Some(ArgumentOutOfRange("cost"))
    ensures IsPositivePowerOf2(cost) && !(1 <= blockSize <= IntMax / 128) ==> e == Some(ArgumentOutOfRange("blockSize"))
    ensures IsPositivePowerOf2(cost) && 1 <= blockSize <= IntMax / 128 && !(1 <= parallel <= IntMax / (128 * blockSize))
            ==> e == Some(ArgumentOutOfRange("parallel"))
    ensures (IsPositivePowerOf2(cost) && 1 <= blockSize <= IntMax / 128 && 1 <= parallel <= IntMax / (128 * blockSize)
             && maxThreads.Some? && maxThreads.value < 1) ==> e == Some(ArgumentOutOfRange("maxThreads"))
    ensures e.Some? ==> e.value in {ArgumentOutOfRange("cost"), ArgumentOutOfRange("blockSize"),
                                    ArgumentOutOfRange("parallel"), ArgumentOutOfRange("maxThreads")}
  {
    var mfLen := Wrap32(blockSize * 128);
    var threads := if maxThreads.None? then IntMax else maxThreads.value;
    if !IsPositivePowerOf2(cost) then Some(ArgumentOutOfRange("cost"))
    else if !(1 <= blockSize <= IntMax / 128) then Some(ArgumentOutOfRange("blockSize"))
    else if !(1 <= parallel <= IntMax / mfLen) then Some(ArgumentOutOfRange("parallel"))
    else if !(1 <= threads <= IntMax) then Some(ArgumentOutOfRange("maxThreads"))
    else None
  }

  lemma BelowQuotient(a: int, d: int, M: int)
    requires d > 0 && 0 <= a <= M / d
    ensures a * d <= M
  {
    assert a * d <= (M / d) * d;
  }

  lemma Quadruple(p: int, b: int)
    ensures p * (128 * b) == 4 * (p * (32 * b))
  {
  }

  /**
   * Valid sizes do not overflow: the PBKDF2 output of parallel*MFLen bytes
   * fits an `int`, and is four bytes for each word of `parallel` lanes.
   */
  lemma ValidSizesFit(blockSize: int, parallel: int)
    requires 1 <= blockSize <= IntMax / 128 && 1 <= parallel <= IntMax / (128 * blockSize)
    ensures parallel * (128 * blockSize) <= IntMax
    ensures parallel * (128 * blockSize) == 4 * LaneWords(blockSize, parallel)
  {
    BelowQuotient(parallel, 128 * blockSize, IntMax);
    LaneWordsIsProduct(blockSize, parallel);
    Quadruple(parallel, blockSize);
  }

  /** The effective salt for parameters that passed the checks: PBKDF2 output of parallel*MFLen bytes, mixed lane by lane. */
  function EffectiveSalt(pbkdf2: Pbkdf2, core: Core, P: seq<byte>, S: seq<byte>, cost: int32, blockSize: int32, parallel: int32)
    : (B: seq<byte>)
    requires IsPositivePowerOf2(cost) && 1 <= blockSize <= IntMax / 128 && 1 <= parallel <= IntMax / (128 * blockSize)
    ensures |B| == 4 * LaneWords(blockSize, parallel)
  {
    var n := LaneWords(blockSize, parallel);
    assert (4 * n) % 4 == 0 && (4 * n) / 4 == n;
    var words := BytesToWords(Read(pbkdf2(P, S), 4 * n));
    WordsToBytes(MixLanes(core, words, blockSize, UInt(cost), parallel))
  }

  /** `MFcrypt`: the checks, then the effective salt. `maxThreads` does not enter the result. */
  function MFcrypt(pbkdf2: Pbkdf2, core: Core, P: seq<byte>, S: seq<byte>,
                   cost: int32, blockSize: int32, parallel: int32, maxThreads: Option<int32>)
    : (result: Result<seq<byte>, Error>)
    ensures result.Success? <==> CheckParameters(cost, blockSize, parallel, maxThreads).None?
    ensures result.Failure? ==> Some(result.error) == CheckParameters(cost, blockSize, parallel, maxThreads)
  {
    match CheckParameters(cost, blockSize, parallel, maxThreads)
    case Some(e) => Failure(e)
    case None => Success(EffectiveSalt(pbkdf2, core, P, S, cost, blockSize, parallel))
  }

  /** `GetEffectivePbkdf2Salt`: `null` key, then `null` salt, are rejected first. */
  function GetEffectivePbkdf2Salt(pbkdf2: Pbkdf2, core: Core, key: Option<seq<byte>>, salt: Option<seq<byte>>,
                                  cost: int32, blockSize: int32, parallel: int32, maxThreads: Option<int32>)
    : (result: Result<seq<byte>, Error>)
    ensures key.None? ==> result == Failure(ArgumentNull("key"))
    ensures key.Some? && salt.None? ==> result == Failure(ArgumentNull("salt"))
    ensures key.Some? && salt.Some? ==> result == MFcrypt(pbkdf2, core, key.value, salt.value, cost, blockSize, parallel, maxThreads)
  {
    if key.None? then Failure(ArgumentNull("key"))
    else if salt.None? then Failure(ArgumentNull("salt"))
    else MFcrypt(pbkdf2, core, key.value, salt.value, cost, blockSize, parallel, maxThreads)
  }

  /** `GetStream`: the PBKDF2 stream keyed by the password and salted by the effective salt. */
  function GetStream(pbkdf2: Pbkdf2, core: Core, key: Option<seq<byte>>, salt: Option<seq<byte>>,
                     cost: int32, blockSize: int32, parallel: int32, maxThreads: Option<int32>)
    : (result: Result<Stream, Error>)
    ensures result.Success? <==> GetEffectivePbkdf2Salt(pbkdf2, core, key, salt, cost, blockSize, parallel, maxThreads).Success?
    ensures result.Failure? ==> result.error == GetEffectivePbkdf2Salt(pbkdf2, core, key, salt, cost, blockSize, parallel, maxThreads).error
    ensures result.Success? ==> key.Some?
    ensures result.Success? ==>
              result.value == pbkdf2(key.value, GetEffectivePbkdf2Salt(pbkdf2, core, key, salt, cost, blockSize, parallel, maxThreads).value)
  {
    match GetEffectivePbkdf2Salt(pbkdf2, core, key, salt, cost, blockSize, parallel, maxThreads)
    case Failure(e) => Failure(e)
    case Success(B) => Success(pbkdf2(key.value, B))
  }

  /** `ComputeDerivedKey`: rejects a negative length, then reads that many bytes of the stream. */
  function ComputeDerivedKey(pbkdf2: Pbkdf2, core: Core, key: Option<seq<byte>>, salt: Option<seq<byte>>,
                             cost: int32, blockSize: int32, parallel: int32, maxThreads: Option<int32>,
                             derivedKeyLength: int32)
    : (result: Result<seq<byte>, Error>)
    ensures derivedKeyLength < 0 ==> result == Failure(ArgumentOutOfRange("derivedKeyLength"))
    ensures result.Success? ==> |result.value| == derivedKeyLength
  {
    if derivedKeyLength < 0 then Failure(ArgumentOutOfRange("derivedKeyLength"))
    else
      match GetStream(pbkdf2, core, key, salt, cost, blockSize, parallel, maxThreads)
      case Failure(e) => Failure(e)
      case Success(s) => Success(Read(s, derivedKeyLength))
  }

  lemma SaltBytesIsProduct(blockSize: int, parallel: int)
    requires 1 <= blockSize && 1 <= parallel
    ensures 4 * LaneWords(blockSize, parallel) == parallel * 128 * blockSize
  {
    LaneWordsIsProduct(blockSize, parallel);
  }

  lemma SaltWordsIsProduct(blockSize: int, parallel: int)
    requires 1 <= blockSize && 1 <= parallel
    ensures LaneWords(blockSize, parallel) == parallel * 32 * blockSize
  {
    LaneWordsIsProduct(blockSize, parallel);
  }

  /** The effective salt is parallel*128*blockSize bytes, whose word view is parallel*32*blockSize words. */
  lemma EffectiveSaltLength(pbkdf2: Pbkdf2, core: Core, P: seq<byte>, S: seq<byte>,
                            cost: int32, blockSize: int32, parallel: int32, maxThreads: Option<int32>)
    requires MFcrypt(pbkdf2, core, P, S, cost, blockSize, parallel, maxThreads).Success?
    ensures |MFcrypt(pbkdf2, core, P, S, cost, blockSize, parallel, maxThreads).value| == parallel * 128 * blockSize
    ensures |BytesToWords(MFcrypt(pbkdf2, core, P, S, cost, blockSize, parallel, maxThreads).value)| == parallel * 32 * blockSize
  {
    SaltBytesIsProduct(blockSize, parallel);
    SaltWordsIsProduct(blockSize, parallel);
  }

  /** The thread limit does not change the effective salt, as long as it passes its check. */
  lemma MaxThreadsIrrelevant(pbkdf2: Pbkdf2, core: Core, P: seq<byte>, S: seq<byte>,
                             cost: int32, blockSize: int32, parallel: int32, m1: Option<int32>, m2: Option<int32>)
    requires m1.None? || m1.value >= 1
    requires m2.None? || m2.value >= 1
    ensures MFcrypt(pbkdf2, core, P, S, cost, blockSize, parallel, m1) == MFcrypt(pbkdf2, core, P, S, cost, blockSize, parallel, m2)
  {
  }

  /** Without the mixing step, the word conversion hands back the PBKDF2 bytes unchanged. */
  lemma ConversionIsTransparent(pbkdf2: Pbkdf2, P: seq<byte>, S: seq<byte>, blockSize: int32, parallel: int32)
    requires 1 <= blockSize <= IntMax / 128 && 1 <= parallel <= IntMax / (128 * blockSize)
    ensures WordsToBytes(BytesToWords(Read(pbkdf2(P, S), 4 * LaneWords(blockSize, parallel))))
         == Read(pbkdf2(P, S), 4 * LaneWords(blockSize, parallel))
  {
    BytesWordsRoundTrip(Read(pbkdf2(P, S), 4 * LaneWords(blockSize, parallel)));
  }

  /** Derived keys of different lengths from the same inputs are prefixes of one another. */
  lemma DerivedKeyPrefix(pbkdf2: Pbkdf2, core: Core, key: Option<seq<byte>>, salt: Option<seq<byte>>,
                         cost: int32, blockSize: int32, parallel: int32, maxThreads: Option<int32>, n: int32, m: int32)
    requires 0 <= n <= m
    requires ComputeDerivedKey(pbkdf2, core, key, salt, cost, blockSize, parallel, maxThreads, m).Success?
    ensures ComputeDerivedKey(pbkdf2, core, key, salt, cost, blockSize, parallel, maxThreads, n).Success?
    ensures ComputeDerivedKey(pbkdf2, core, key, salt, cost, blockSize, parallel, maxThreads, n).value
         == ComputeDerivedKey(pbkdf2, core, key, salt, cost, blockSize, parallel, maxThreads, m).value[..n]
  {
    match GetStream(pbkdf2, core, key, salt, cost, blockSize, parallel, maxThreads)
    case Success(s) => ReadPrefix(s, n as nat, m as nat);
    case Failure(_) =>
  }

  /** Reading fewer bytes of a stream gives a prefix of reading more. */
  lemma ReadPrefix(s: Stream, n: nat, m: nat)
    requires n <= m
    ensures Read(s, n) == Read(s, m)[..n]
  {
  }

  /** Every check that fails is reported, whatever the derived key length. */
  lemma DerivedKeyErrors(pbkdf2: Pbkdf2, core: Core, key: Option<seq<byte>>, salt: Option<seq<byte>>,
                         cost: int32, blockSize: int32, parallel: int32, maxThreads: Option<int32>, n: int32)
    ensures ComputeDerivedKey(pbkdf2, core, key, salt, cost, blockSize, parallel, maxThreads, n).Success?
        <==> n >= 0 && key.Some? && salt.Some? && CheckParameters(cost, blockSize, parallel, maxThreads).None?
  {
  }

  // ---------------------------------------------------------------------
  // Worker threads
  // ---------------------------------------------------------------------

  /**
   * The number of workers `ThreadSMixCalls` runs: the smallest of the
   * processor count, maxThreads and parallel, but at least one.
   */
  function ThreadCount(processorCount: int, maxThreads: int, parallel: int): (t: int)
    ensures t >= 1
    ensures maxThreads >= 1 && parallel >= 1 ==> t <= maxThreads && t <= parallel
    ensures processorCount >= 1 ==> t <= processorCount
    ensures processorCount < 1 || maxThreads < 1 || parallel < 1 ==> t == 1
    ensures processorCount >= 1 && maxThreads >= 1 && parallel >= 1 ==>
              t == processorCount || t == maxThreads || t == parallel
  {
    var inner := if maxThreads < parallel then maxThreads else parallel;
    var limit := if processorCount < inner then processorCount else inner;
    if limit < 1 then 1 else limit
  }
}

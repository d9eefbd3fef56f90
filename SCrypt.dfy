/**
 * The imperative core of `CryptSharp.Utility.SCrypt`: BlockMix and SMix
 * over `uint[]` buffers with offsets, the lane loop of `ThreadSMixCalls`
 * run by a single worker, and `MFcrypt` with its byte/word conversion
 * loops.  Each method is proved against the functions of `SCryptSpec`.
 */
module SCrypt {
  import opened Wrappers
  import opened BitPacking
  import opened WordValue
  import opened SCryptSpec

  /**
   * `Array.Copy(src, srcIndex, dst, dstIndex, length)`: the elements are
   * copied as if through a temporary, so `src` and `dst` may be the same.
   */
  method Copy(src: array<Word>, srcIndex: nat, dst: array<Word>, dstIndex: nat, length: nat)
    requires srcIndex + length <= src.Length && dstIndex + length <= dst.Length
    modifies dst
    ensures dst[..] == old(dst[..dstIndex]) + old(src[srcIndex .. srcIndex + length]) + old(dst[dstIndex + length..])
  {
    ghost var moved := src[srcIndex .. srcIndex + length];
    forall k | 0 <= k < length {
      dst[dstIndex + k] := src[srcIndex + k];
    }
    assert dst[..] == old(dst[..dstIndex]) + moved + old(dst[dstIndex + length..]);
  }

  /** `Salsa20Core.Compute(8, input, 0, output, 0)`: `output` receives the core of `input`. */
  method Compute(core: Core, input: array<Word>, output: array<Word>)
    requires input.Length == 16 && output.Length == 16
    modifies output
    ensures output[..] == core(old(input[..]))
  {
    var result := core(input[..]);
    forall k | 0 <= k < 16 {
      output[k] := result[k];
    }
    assert output[..] == result;
  }

  /** The loop `scratch[j] = x[j] ^ B[j + k]` of `BlockMix`. */
  method XorInto(scratch: array<Word>, x: array<Word>, B: array<Word>, k: nat)
    requires scratch.Length == 16 && x.Length == 16 && k + 16 <= B.Length
    requires scratch != x && scratch != B
    modifies scratch
    ensures scratch[..] == Xor(x[..], B[k .. k + 16])
  {
    ghost var want := Xor(x[..], B[k .. k + 16]);
    for j := 0 to scratch.Length
      invariant x[..] == old(x[..]) && B[..] == old(B[..])
      invariant scratch[..j] == want[..j]
    {
      scratch[j] := x[j] ^ B[j + k];
      assert scratch[..j + 1] == scratch[..j] + [want[j]];
    }
    assert scratch[..] == scratch[..16];
  }

  /**
   * One half-round of `BlockMix`: x := Salsa(x xor B[k..k+16]), then the
   * new x is copied to y[at..at+16].
   */
  method Absorb(core: Core, B: array<Word>, k: nat, x: array<Word>, scratch: array<Word>, y: array<Word>, at: nat,
                ghost blk: seq<Word>)
    requires k + 16 <= B.Length && at + 16 <= y.Length && x.Length == 16 && scratch.Length == 16
    requires x != y && x != scratch && y != scratch && scratch != B && y != B && x != B
    requires B[k .. k + 16] == blk
    modifies x, scratch, y
    ensures x[..] == core(Xor(old(x[..]), blk))
    ensures y[..] == old(y[..at]) + x[..] + old(y[at + 16..])
  {
    XorInto(scratch, x, B, k);
    Compute(core, scratch, x);
    Copy(x, 0, y, at, 16);
  }

  /** Absorbing sub-block t advances the running state from Chain(t) to Chain(t+1). */
  lemma ChainNext(core: Core, seed: Block, input: seq<Word>, t: nat, u: nat, x0: seq<Word>, blk: seq<Word>)
    requires u == t + 1 && 16 * u <= |input| && x0 == Chain(core, seed, input, t)
    requires blk == input[16 * t .. 16 * u]
    ensures core(Xor(x0, blk)) == Chain(core, seed, input, u)
  {
    assert u - 1 == t;
  }

  /** Sub-block t of the window at `offset` sits at offset + 16t of the array. */
  lemma SubBlockAt(B: seq<Word>, offset: nat, r: nat, t: nat)
    requires offset + 32 * r <= |B| && t < 2 * r
    ensures B[offset + 16 * t .. offset + 16 * t + 16] == B[offset .. offset + 32 * r][16 * t .. 16 * (t + 1)]
  {
  }

  /** Writing the state after sub-block 2i at y[16i..] extends the even half. */
  lemma EvensStep(core: Core, seed: Block, input: seq<Word>, r: nat, i: nat, y0: seq<Word>, y1: seq<Word>, s: seq<Word>)
    requires |input| == 32 * r && i < r && |y0| == 32 * r
    requires y0[..16 * i] == Evens(core, seed, input, i)
    requires y0[16 * r .. 16 * r + 16 * i] == Odds(core, seed, input, i)
    requires s == Chain(core, seed, input, 2 * i + 1)
    requires y1 == y0[..16 * i] + s + y0[16 * i + 16..]
    ensures y1[..16 * (i + 1)] == Evens(core, seed, input, i + 1)
    ensures y1[16 * r .. 16 * r + 16 * i] == Odds(core, seed, input, i)
  {
    assert y1[..16 * (i + 1)] == y0[..16 * i] + s;
    assert y1[16 * r .. 16 * r + 16 * i] == y0[16 * r .. 16 * r + 16 * i];
  }

  /** Writing the state after sub-block 2i+1 at y[16(r+i)..] extends the odd half. */
  lemma OddsStep(core: Core, seed: Block, input: seq<Word>, r: nat, i: nat, y1: seq<Word>, y2: seq<Word>, s: seq<Word>)
    requires |input| == 32 * r && i < r && |y1| == 32 * r
    requires y1[..16 * (i + 1)] == Evens(core, seed, input, i + 1)
    requires y1[16 * r .. 16 * r + 16 * i] == Odds(core, seed, input, i)
    requires s == Chain(core, seed, input, 2 * (i + 1))
    requires y2 == y1[..16 * r + 16 * i] + s + y1[16 * r + 16 * i + 16..]
    ensures y2[..16 * (i + 1)] == Evens(core, seed, input, i + 1)
    ensures y2[16 * r .. 16 * r + 16 * (i + 1)] == Odds(core, seed, input, i + 1)
  {
    assert y2[..16 * (i + 1)] == y1[..16 * (i + 1)];
    assert y2[16 * r .. 16 * r + 16 * (i + 1)] == y1[16 * r .. 16 * r + 16 * i] + s;
  }

  /**
   * The first half of round i of the `BlockMix` loop: sub-block 2i is
   * absorbed and the new state stored at y[16i..].
   */
  method EvenHalf(core: Core, B: array<Word>, Boffset: nat, x: array<Word>, y: array<Word>, scratch: array<Word>,
                  r: nat, i: nat, ghost seed: Block, ghost input: seq<Word>)
    requires i < r && Boffset + 32 * r <= B.Length && input == B[Boffset .. Boffset + 32 * r]
    requires x.Length == 16 && y.Length == 32 * r && scratch.Length == 16
    requires x != y && x != scratch && y != scratch && x != B && y != B && scratch != B
    requires x[..] == Chain(core, seed, input, 2 * i)
    requires y[..16 * i] == Evens(core, seed, input, i)
    requires y[16 * r .. 16 * r + 16 * i] == Odds(core, seed, input, i)
    modifies x, y, scratch
    ensures x[..] == Chain(core, seed, input, 2 * i + 1)
    ensures y[..16 * (i + 1)] == Evens(core, seed, input, i + 1)
    ensures y[16 * r .. 16 * r + 16 * i] == Odds(core, seed, input, i)
  {
    SubBlockAt(B[..], Boffset, r, 2 * i);
    ghost var y0, x0 := y[..], x[..];
    Absorb(core, B, Boffset + 32 * i, x, scratch, y, 16 * i, input[16 * (2 * i) .. 16 * (2 * i + 1)]);
    ChainNext(core, seed, input, 2 * i, 2 * i + 1, x0, input[16 * (2 * i) .. 16 * (2 * i + 1)]);
    EvensStep(core, seed, input, r, i, y0, y[..], x[..]);
  }

  /**
   * The second half of round i of the `BlockMix` loop: sub-block 2i+1 is
   * absorbed and the new state stored at y[16(r+i)..].
   */
  method OddHalf(core: Core, B: array<Word>, Boffset: nat, x: array<Word>, y: array<Word>, scratch: array<Word>,
                 r: nat, i: nat, ghost seed: Block, ghost input: seq<Word>)
    requires i < r && Boffset + 32 * r <= B.Length && input == B[Boffset .. Boffset + 32 * r]
    requires x.Length == 16 && y.Length == 32 * r && scratch.Length == 16
    requires x != y && x != scratch && y != scratch && x != B && y != B && scratch != B
    requires x[..] == Chain(core, seed, input, 2 * i + 1)
    requires y[..16 * (i + 1)] == Evens(core, seed, input, i + 1)
    requires y[16 * r .. 16 * r + 16 * i] == Odds(core, seed, input, i)
    modifies x, y, scratch
    ensures x[..] == Chain(core, seed, input, 2 * (i + 1))
    ensures y[..16 * (i + 1)] == Evens(core, seed, input, i + 1)
    ensures y[16 * r .. 16 * r + 16 * (i + 1)] == Odds(core, seed, input, i + 1)
  {
    SubBlockAt(B[..], Boffset, r, 2 * i + 1);
    ghost var y1, x1 := y[..], x[..];
    Absorb(core, B, Boffset + 32 * i + 16, x, scratch, y, 16 * r + 16 * i, input[16 * (2 * i + 1) .. 16 * (2 * (i + 1))]);
    ChainNext(core, seed, input, 2 * i + 1, 2 * (i + 1), x1, input[16 * (2 * i + 1) .. 16 * (2 * (i + 1))]);
    OddsStep(core, seed, input, r, i, y1, y[..], x[..]);
  }

  /** Round i of the `BlockMix` loop: sub-blocks 2i and 2i+1 are absorbed. */
  method Round(core: Core, B: array<Word>, Boffset: nat, x: array<Word>, y: array<Word>, scratch: array<Word>,
               r: nat, i: nat, ghost seed: Block, ghost input: seq<Word>)
    requires i < r && Boffset + 32 * r <= B.Length && input == B[Boffset .. Boffset + 32 * r]
    requires x.Length == 16 && y.Length == 32 * r && scratch.Length == 16
    requires x != y && x != scratch && y != scratch && x != B && y != B && scratch != B
    requires x[..] == Chain(core, seed, input, 2 * i)
    requires y[..16 * i] == Evens(core, seed, input, i)
    requires y[16 * r .. 16 * r + 16 * i] == Odds(core, seed, input, i)
    modifies x, y, scratch
    ensures x[..] == Chain(core, seed, input, 2 * (i + 1))
    ensures y[..16 * (i + 1)] == Evens(core, seed, input, i + 1)
    ensures y[16 * r .. 16 * r + 16 * (i + 1)] == Odds(core, seed, input, i + 1)
  {
    EvenHalf(core, B, Boffset, x, y, scratch, r, i, seed, input);
    OddHalf(core, B, Boffset, x, y, scratch, r, i, seed, input);
  }

  lemma Halves<T>(s: seq<T>, n: nat)
    requires |s| == n + n
    ensures s == s[..n] + s[n .. n + n]
  {
  }

  /** The loop of `BlockMix`: y receives BlockMix of `input` with the state seeded by x. */
  method Rounds(core: Core, B: array<Word>, Boffset: nat, x: array<Word>, y: array<Word>, scratch: array<Word>,
                r: nat, ghost seed: Block, ghost input: seq<Word>)
    requires Boffset + 32 * r <= B.Length && input == B[Boffset .. Boffset + 32 * r]
    requires x.Length == 16 && y.Length == 32 * r && scratch.Length == 16
    requires x != y && x != scratch && y != scratch && x != B && y != B && scratch != B
    requires x[..] == seed
    modifies x, y, scratch
    ensures y[..] == MixFrom(core, seed, input, r)
  {
    for i := 0 to r
      invariant x[..] == Chain(core, seed, input, 2 * i)
      invariant y[..16 * i] == Evens(core, seed, input, i)
      invariant y[16 * r .. 16 * r + 16 * i] == Odds(core, seed, input, i)
    {
      Round(core, B, Boffset, x, y, scratch, r, i, seed, input);
    }
    Halves(y[..], 16 * r);
  }

  /**
   * `SCrypt.BlockMix`.  The running state `x` is seeded from sub-block
   * 2r-1 of `B` counted from index 0, not from `Boffset`, as the code is
   * written; the sub-blocks absorbed are those at `Boffset`.  The result
   * is staged in `y`, so `B` and `Bp` may be the same array.
   */
  method BlockMix(core: Core, B: array<Word>, Boffset: nat, Bp: array<Word>, Bpoffset: nat,
                  x: array<Word>, y: array<Word>, scratch: array<Word>, r: nat)
    requires r >= 1 && 32 * r <= B.Length && Boffset + 32 * r <= B.Length && Bpoffset + 32 * r <= Bp.Length
    requires x.Length == 16 && y.Length == 32 * r && scratch.Length == 16
    requires x != y && x != scratch && y != scratch
    requires x != B && y != B && scratch != B && x != Bp && y != Bp && scratch != Bp
    modifies Bp, x, y, scratch
    ensures Bp[..] == old(Bp[..Bpoffset])
                    + MixFrom(core, old(B[(2 * r - 1) * 16 .. 32 * r]), old(B[Boffset .. Boffset + 32 * r]), r)
                    + old(Bp[Bpoffset + 32 * r..])
  {
    Copy(B, (2 * r - 1) * 16, x, 0, 16);
    Rounds(core, B, Boffset, x, y, scratch, r, old(B[(2 * r - 1) * 16 .. 32 * r]), old(B[Boffset .. Boffset + 32 * r]));
    Copy(y, 0, Bp, Bpoffset, y.Length);
  }

  /** With the offset 0 that every caller passes, the `BlockMix` method computes RFC 7914's BlockMix. */
  lemma BlockMixAtZero(core: Core, X: seq<Word>, r: nat)
    requires r >= 1 && |X| == 32 * r
    ensures MixFrom(core, X[(2 * r - 1) * 16 .. 32 * r], X[0 .. 32 * r], r) == SCryptSpec.BlockMix(core, X, r)
  {
    assert X[0 .. 32 * r] == X;
  }

  /** `BlockMix` on whole 32r-word arrays at offset 0 (B and Bp may be the same array). */
  method BlockMixWhole(core: Core, B: array<Word>, Bp: array<Word>, x: array<Word>, y: array<Word>, scratch: array<Word>, r: nat)
    requires r >= 1 && B.Length == 32 * r && Bp.Length == 32 * r
    requires x.Length == 16 && y.Length == 32 * r && scratch.Length == 16
    requires x != y && x != scratch && y != scratch
    requires x != B && y != B && scratch != B && x != Bp && y != Bp && scratch != Bp
    modifies Bp, x, y, scratch
    ensures Bp[..] == SCryptSpec.BlockMix(core, old(B[..]), r)
  {
    ghost var X := B[..];
    assert old(B[(2 * r - 1) * 16 .. 32 * r]) == X[(2 * r - 1) * 16 .. 32 * r];
    assert old(B[0 .. 32 * r]) == X;
    BlockMix(core, B, 0, Bp, 0, x, y, scratch, r);
    assert Bp[..] == [] + MixFrom(core, X[(2 * r - 1) * 16 .. 32 * r], X, r) + [];
    BlockMixAtZero(core, X, r);
  }

  /** One step of the table fill: entry i is the i-th iterate. */
  lemma TableNext(core: Core, X: seq<Word>, r: nat, i: nat, vs: seq<seq<Word>>, xs: seq<Word>)
    requires r >= 1 && |X| == 32 * r && i < |vs|
    requires vs[..i] == Table(core, X, r, i) && xs == Iterate(core, X, r, i)
    ensures vs[i := xs][..i + 1] == Table(core, X, r, i + 1)
  {
    UpdateTake(vs, i, xs);
  }

  lemma UpdateTake<T>(s: seq<T>, i: nat, e: T)
    requires i < |s|
    ensures s[i := e][..i + 1] == s[..i] + [e]
  {
  }

  /** The loop `scratchZ[k] = x[k] ^ vj[k]` of `SMix`. */
  method XorWith(scratchZ: array<Word>, x: array<Word>, vj: seq<Word>)
    requires scratchZ.Length == x.Length == |vj| && scratchZ != x
    modifies scratchZ
    ensures scratchZ[..] == Xor(x[..], vj)
  {
    ghost var want := Xor(x[..], vj);
    for k := 0 to scratchZ.Length
      invariant x[..] == old(x[..])
      invariant scratchZ[..k] == want[..k]
    {
      scratchZ[k] := x[k] ^ vj[k];
      assert scratchZ[..k + 1] == scratchZ[..k] + [want[k]];
    }
    assert scratchZ[..] == scratchZ[..scratchZ.Length];
  }

  /** The fill pass of `SMix`: v[i] receives BlockMix applied i times, and x the block after the last. */
  method FillTable(core: Core, x: array<Word>, v: array<seq<Word>>, scratchX: array<Word>, scratchY: array<Word>,
                   scratch1: array<Word>, r: nat, ghost X: seq<Word>)
    requires r >= 1 && x.Length == 32 * r && scratchX.Length == 16 && scratchY.Length == 32 * r && scratch1.Length == 16
    requires x != scratchX && x != scratchY && x != scratch1 && scratchX != scratchY && scratchX != scratch1 && scratchY != scratch1
    requires v as object != x && v as object != scratchX && v as object != scratchY && v as object != scratch1
    requires x[..] == X
    modifies x, v, scratchX, scratchY, scratch1
    ensures v[..] == Table(core, X, r, v.Length)
    ensures x[..] == Iterate(core, X, r, v.Length)
  {
    var i := 0;
    while i < v.Length
      invariant i <= v.Length
      invariant x[..] == Iterate(core, X, r, i)
      invariant v[..i] == Table(core, X, r, i)
    {
      ghost var vs := v[..];
      assert vs[..i] == Table(core, X, r, i);
      v[i] := x[..];
      ghost var xs := v[i];
      assert v[..] == vs[i := xs];
      BlockMixWhole(core, x, x, scratchX, scratchY, scratch1, r);
      TableNext(core, X, r, i, vs, xs);
      i := i + 1;
    }
    assert v[..] == v[..v.Length];
  }

  /** The mix pass of `SMix`: N rounds of x := BlockMix(x xor v[x[Bs-16] & (N-1)]). */
  method MixTable(core: Core, x: array<Word>, v: array<seq<Word>>, scratchZ: array<Word>, scratchX: array<Word>,
                  scratchY: array<Word>, scratch1: array<Word>, r: nat, N: Word, ghost V: seq<seq<Word>>, ghost start: seq<Word>)
    requires r >= 1 && x.Length == 32 * r && scratchZ.Length == 32 * r
    requires scratchX.Length == 16 && scratchY.Length == 32 * r && scratch1.Length == 16
    requires x != scratchZ && x != scratchX && x != scratchY && x != scratch1
    requires scratchZ != scratchX && scratchZ != scratchY && scratchZ != scratch1
    requires scratchX != scratchY && scratchX != scratch1 && scratchY != scratch1
    requires v as object != x && v as object != scratchZ && v as object != scratchX
    requires v as object != scratchY && v as object != scratch1
    requires v[..] == V && |V| == ToNat(N) && IsTable(V, r) && x[..] == start
    modifies x, scratchZ, scratchX, scratchY, scratch1
    ensures x[..] == MixPass(core, V, start, r, N, ToNat(N))
  {
    var Nmask := N - 1;
    var n := ToNat(N);
    var i := 0;
    while i < n
      invariant i <= n
      invariant v[..] == V
      invariant x[..] == MixPass(core, V, start, r, N, i)
    {
      PositiveIsNonzero(N);
      MixRound(core, x, v, scratchZ, scratchX, scratchY, scratch1, r, N, Nmask, V);
      i := i + 1;
    }
  }

  /** One round of the mix pass of `SMix`, on the arrays. */
  method MixRound(core: Core, x: array<Word>, v: array<seq<Word>>, scratchZ: array<Word>, scratchX: array<Word>,
                  scratchY: array<Word>, scratch1: array<Word>, r: nat, N: Word, Nmask: Word, ghost V: seq<seq<Word>>)
    requires r >= 1 && x.Length == 32 * r && scratchZ.Length == 32 * r
    requires scratchX.Length == 16 && scratchY.Length == 32 * r && scratch1.Length == 16
    requires x != scratchZ && x != scratchX && x != scratchY && x != scratch1
    requires scratchZ != scratchX && scratchZ != scratchY && scratchZ != scratch1
    requires scratchX != scratchY && scratchX != scratch1 && scratchY != scratch1
    requires v as object != x && v as object != scratchZ && v as object != scratchX
    requires v as object != scratchY && v as object != scratch1
    requires N != 0 && Nmask == N - 1 && v[..] == V && |V| == ToNat(N) && IsTable(V, r)
    modifies x, scratchZ, scratchX, scratchY, scratch1
    ensures x[..] == MixStep(core, V, old(x[..]), r, N)
  {
    ghost var xs := x[..];
    var Bs := 16 * 2 * r;
    var j := x[Bs - 16] & Nmask;
    MaskedIndexAt(xs, r, N, x[Bs - 16], j);
    var vj := v[ToNat(j)];
    XorWith(scratchZ, x, vj);
    BlockMixWhole(core, scratchZ, x, scratchX, scratchY, scratch1, r);
  }

  /** The index `x[Bs - 16] & Nmask` that `SMix` reads is `MaskedIndex`. */
  lemma MaskedIndexAt(xs: seq<Word>, r: nat, N: Word, w: Word, j: Word)
    requires r >= 1 && |xs| == 32 * r && N != 0
    requires w == xs[32 * r - 16] && j == w & (N - 1)
    ensures ToNat(j) == MaskedIndex(xs, r, N)
  {
  }

  /** The two passes of `SMix` compose to ROMix. */
  lemma ROMixOfPasses(core: Core, X: seq<Word>, r: nat, N: Word, V: seq<seq<Word>>, start: seq<Word>, y: seq<Word>)
    requires r >= 1 && |X| == 32 * r
    requires V == Table(core, X, r, ToNat(N)) && start == Iterate(core, X, r, ToNat(N))
    requires y == MixPass(core, V, start, r, N, ToNat(N))
    ensures y == ROMix(core, X, r, N)
  {
  }

  /**
   * `SCrypt.SMix`: ROMix of the 32r words at `B[Boffset..]`, written to
   * `Bp[Bpoffset..]` and nowhere else.  The table `v` holds one block per
   * entry; the index is the masked first word of the last sub-block.
   */
  method SMix(core: Core, B: array<Word>, Boffset: nat, Bp: array<Word>, Bpoffset: nat, N: Word, r: nat)
    requires r >= 1 && Boffset + 32 * r <= B.Length && Bpoffset + 32 * r <= Bp.Length
    modifies Bp
    ensures Bp[..] == old(Bp[..Bpoffset]) + ROMix(core, old(B[Boffset .. Boffset + 32 * r]), r, N) + old(Bp[Bpoffset + 32 * r..])
  {
    var Bs := 16 * 2 * r;
    var x := new Word[Bs];
    Copy(B, Boffset, x, 0, Bs);
    ghost var X := x[..];
    assert X == old(B[Boffset .. Boffset + 32 * r]);
    Passes(core, x, r, N, X);
    ghost var pre := Bp[..];
    assert pre == old(Bp[..]);
    assert x[0 .. 32 * r] == ROMix(core, X, r, N);
    Copy(x, 0, Bp, Bpoffset, 32 * r);
  }

  /** The two passes of `SMix` on its working block `x`, with the table and scratch arrays they allocate. */
  method Passes(core: Core, x: array<Word>, r: nat, N: Word, ghost X: seq<Word>)
    requires r >= 1 && x.Length == 32 * r && x[..] == X
    modifies x
    ensures x[..] == ROMix(core, X, r, N)
  {
    var Bs := 16 * 2 * r;
    var scratch1 := new Word[16];
    var scratchX, scratchY := new Word[16], new Word[Bs];
    var scratchZ := new Word[Bs];
    var v := new seq<Word>[ToNat(N)];
    FillTable(core, x, v, scratchX, scratchY, scratch1, r, X);
    ghost var V, start := v[..], x[..];
    MixTable(core, x, v, scratchZ, scratchX, scratchY, scratch1, r, N, V, start);
    ROMixOfPasses(core, X, r, N, V, start, x[..]);
  }

  // ---------------------------------------------------------------------
  // ThreadSMixCalls and MFcrypt
  // ---------------------------------------------------------------------

  /** Lane j starts at word `j * MFLen / 4`, which does not overflow for validated sizes. */
  function LaneStart(j: nat, blockSize: nat, parallel: nat, MFLen: int32): (offset: int)
    requires blockSize >= 1 && MFLen == 128 * blockSize && j < parallel <= IntMax / MFLen
    ensures offset == LaneWords(blockSize, j)
  {
    BelowQuotient(j, MFLen, IntMax);
    LaneWordsIsProduct(blockSize, j);
    assert j * MFLen == 4 * (j * (32 * blockSize));
    Wrap32(j * MFLen) / 4
  }

  /** Mixing lane j, which starts at word a, in place extends the mixed prefix by one lane. */
  lemma LaneStep(core: Core, W: seq<Word>, r: nat, N: Word, p: nat, j: nat, a: nat, pre: seq<Word>, post: seq<Word>)
    requires r >= 1 && |W| == LaneWords(r, p) && j < p && a == LaneWords(r, j) && a + 32 * r <= |W|
    requires pre == MixLanes(core, W[..a], r, N, j) + W[a..]
    requires post == pre[..a] + ROMix(core, pre[a .. a + 32 * r], r, N) + pre[a + 32 * r..]
    ensures post == MixLanes(core, W[..LaneWords(r, j + 1)], r, N, j + 1) + W[LaneWords(r, j + 1)..]
  {
    var b := LaneWords(r, j + 1);
    assert b == a + 32 * r;
    var mixed := MixLanes(core, W[..a], r, N, j);
    assert pre[..a] == mixed;
    assert pre[a .. a + 32 * r] == W[a .. b];
    assert pre[a + 32 * r..] == W[b..];
    MixLanesPrefix(core, W, r, N, p, j);
  }

  /**
   * `SCrypt.ThreadSMixCalls` with one worker: lane j of `B0` is replaced by
   * its ROMix for j = 0, 1, ..., parallel - 1, each lane exactly once.  The
   * counter the workers share is `current`; `threadCount` is the number of
   * workers the source would start.
   */
  method ThreadSMixCalls(core: Core, B0: array<Word>, MFLen: int32, cost: int32, blockSize: int32, parallel: int32,
                         maxThreads: int32, processorCount: int) returns (threadCount: int)
    requires 1 <= blockSize && MFLen == 128 * blockSize && 1 <= parallel <= IntMax / MFLen
    requires B0.Length == LaneWords(blockSize, parallel)
    modifies B0
    ensures B0[..] == MixLanes(core, old(B0[..]), blockSize, UInt(cost), parallel)
    ensures threadCount == ThreadCount(processorCount, maxThreads, parallel)
  {
    ghost var W := B0[..];
    var N := UInt(cost);
    threadCount := ThreadCount(processorCount, maxThreads, parallel);
    var current := 0;
    while true
      invariant 0 <= current <= parallel && LaneWords(blockSize, current) <= |W|
      invariant B0[..] == MixLanes(core, W[..LaneWords(blockSize, current)], blockSize, N, current)
                        + W[LaneWords(blockSize, current)..]
      decreases parallel - current
    {
      var j := current;
      current := current + 1;
      if j >= parallel {
        assert W[..LaneWords(blockSize, current - 1)] == W;
        break;
      }
      var offset := LaneStart(j, blockSize as nat, parallel as nat, MFLen);
      MixLane(core, B0, offset, N, blockSize as nat, parallel as nat, j, W);
    }
  }

  /** One turn of the worker loop: SMix over lane j, in place. */
  method MixLane(core: Core, B0: array<Word>, offset: nat, N: Word, r: nat, p: nat, j: nat, ghost W: seq<Word>)
    requires r >= 1 && |W| == LaneWords(r, p) && j < p && offset == LaneWords(r, j) <= |W| && B0.Length == |W|
    requires B0[..] == MixLanes(core, W[..offset], r, N, j) + W[offset..]
    modifies B0
    ensures LaneWords(r, j + 1) <= |W|
    ensures B0[..] == MixLanes(core, W[..LaneWords(r, j + 1)], r, N, j + 1) + W[LaneWords(r, j + 1)..]
  {
    LaneFits(r, p, j);
    ghost var pre := B0[..];
    SMix(core, B0, offset, B0, offset, N, r);
    LaneStep(core, W, r, N, p, j, offset, pre, B0[..]);
  }

  /** `Pbkdf2.ComputeDerivedKey(..., length)`: the first `length` bytes of the stream, in a new array. */
  method DeriveBytes(stream: Stream, length: nat) returns (B: array<byte>)
    ensures fresh(B) && B[..] == Read(stream, length)
  {
    B := new byte[length](i requires 0 <= i < length => stream(i));
  }

  /** The loop `B0[i] = UInt32FromLEBytes(B, i * 4)` of `MFcrypt`. */
  method WordsOf(B: array<byte>) returns (B0: array<Word>)
    requires B.Length % 4 == 0
    ensures fresh(B0) && B0[..] == BytesToWords(B[..])
  {
    ghost var want := BytesToWords(B[..]);
    B0 := new Word[B.Length / 4];
    for i := 0 to B0.Length
      invariant B0[..i] == want[..i]
    {
      B0[i] := UInt32FromLEBytes(B[..], i * 4);
      assert B0[..i + 1] == B0[..i] + [want[i]];
    }
    assert B0[..] == B0[..B0.Length];
  }

  /** The loop `LEBytesFromUInt32(B0[i], B, i * 4)` of `MFcrypt`. */
  method StoreWords(B0: array<Word>, B: array<byte>)
    requires B.Length == 4 * B0.Length
    modifies B
    ensures B[..] == WordsToBytes(B0[..])
  {
    for i := 0 to B0.Length
      invariant B[..4 * i] == WordsToBytes(B0[..i])
    {
      ghost var front := B[..4 * i];
      LEBytesFromUInt32(B0[i], B, i * 4);
      assert B[..4 * (i + 1)] == front + LEBytes32(B0[i]);
      assert B0[..i + 1][..i] == B0[..i];
    }
    assert B[..] == B[..4 * B0.Length];
    assert B0[..] == B0[..B0.Length];
  }

  /**
   * `SCrypt.MFcrypt`: the argument checks in the source's order, then
   * PBKDF2, the words of each lane mixed by `ThreadSMixCalls`, and the words
   * stored back into the PBKDF2 output.  `processorCount` stands for
   * `Environment.ProcessorCount`.
   */
  method MFcrypt(pbkdf2: Pbkdf2, core: Core, P: seq<byte>, S: seq<byte>, cost: int32, blockSize: int32,
                 parallel: int32, maxThreads: Option<int32>, processorCount: int)
    returns (result: Result<seq<byte>, Error>)
    ensures result == SCryptSpec.MFcrypt(pbkdf2, core, P, S, cost, blockSize, parallel, maxThreads)
  {
    var MFLen := Wrap32(blockSize * 128);
    var threads: int32 := if maxThreads.None? then IntMax else maxThreads.value;
    if !IsPositivePowerOf2(cost) {
      return Failure(ArgumentOutOfRange("cost"));
    }
    if !(1 <= blockSize <= IntMax / 128) {
      return Failure(ArgumentOutOfRange("blockSize"));
    }
    if !(1 <= parallel <= IntMax / MFLen) {
      return Failure(ArgumentOutOfRange("parallel"));
    }
    if !(1 <= threads <= IntMax) {
      return Failure(ArgumentOutOfRange("maxThreads"));
    }
    var B := MixedSalt(pbkdf2, core, P, S, cost, blockSize, parallel, threads, processorCount, MFLen);
    return Success(B);
  }

  /** The body of `MFcrypt` after the checks: PBKDF2, the lanes mixed, the words stored back. */
  method MixedSalt(pbkdf2: Pbkdf2, core: Core, P: seq<byte>, S: seq<byte>, cost: int32, blockSize: int32,
                   parallel: int32, threads: int32, processorCount: int, MFLen: int32)
    returns (salt: seq<byte>)
    requires IsPositivePowerOf2(cost) && 1 <= blockSize <= IntMax / 128 && MFLen == 128 * blockSize
    requires 1 <= parallel <= IntMax / MFLen
    ensures salt == EffectiveSalt(pbkdf2, core, P, S, cost, blockSize, parallel)
  {
    ValidSizesFit(blockSize, parallel);
    var B := DeriveBytes(pbkdf2(P, S), parallel * MFLen);
    var B0 := WordsOf(B);
    var _ := ThreadSMixCalls(core, B0, MFLen, cost, blockSize, parallel, threads, processorCount);
    StoreWords(B0, B);
    salt := B[..];
  }

  /** `SCrypt.GetEffectivePbkdf2Salt`: a `null` key, then a `null` salt, are rejected before `MFcrypt`. */
  method GetEffectivePbkdf2Salt(pbkdf2: Pbkdf2, core: Core, key: Option<seq<byte>>, salt: Option<seq<byte>>,
                                cost: int32, blockSize: int32, parallel: int32, maxThreads: Option<int32>,
                                processorCount: int)
    returns (result: Result<seq<byte>, Error>)
    ensures result == SCryptSpec.GetEffectivePbkdf2Salt(pbkdf2, core, key, salt, cost, blockSize, parallel, maxThreads)
  {
    if key.None? {
      return Failure(ArgumentNull("key"));
    }
    if salt.None? {
      return Failure(ArgumentNull("salt"));
    }
    result := MFcrypt(pbkdf2, core, key.value, salt.value, cost, blockSize, parallel, maxThreads, processorCount);
  }

  /** `SCrypt.ComputeDerivedKey`: a negative length is rejected, then the key is read from the stream. */
  method ComputeDerivedKey(pbkdf2: Pbkdf2, core: Core, key: Option<seq<byte>>, salt: Option<seq<byte>>,
                           cost: int32, blockSize: int32, parallel: int32, maxThreads: Option<int32>,
                           derivedKeyLength: int32, processorCount: int)
    returns (result: Result<seq<byte>, Error>)
    ensures result == SCryptSpec.ComputeDerivedKey(pbkdf2, core, key, salt, cost, blockSize, parallel, maxThreads,
                                                   derivedKeyLength)
  {
    if derivedKeyLength < 0 {
      return Failure(ArgumentOutOfRange("derivedKeyLength"));
    }
    var B := GetEffectivePbkdf2Salt(pbkdf2, core, key, salt, cost, blockSize, parallel, maxThreads, processorCount);
    match B
    case Failure(e) =>
      result := Failure(e);
    case Success(b) =>
      var kdf := pbkdf2(key.value, b);
      result := Success(Read(kdf, derivedKeyLength as nat));
  }
}

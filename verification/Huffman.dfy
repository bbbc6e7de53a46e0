// Huffman decoding in jpeg.c: dec_makehuff, DEC_REC and dec_rec2 against the codes of
// ITU-T T.81, Annex C and section F.2.2.

module Huffman {
  import opened Arith
  import opened BitStream

  // ---- The code tables of T.81 ----

  /** BITS: how many codes there are of each length 1..16. */
  type Lengths = l: seq<nat> | |l| == 16 witness seq(16, _ => 0)

  /** How many codes are shorter than i + 1 bits. */
  function Shorter(l: Lengths, i: nat): nat
    requires i <= 16
  {
    if i == 0 then 0 else Shorter(l, i - 1) + l[i - 1]
  }

  function Count(l: Lengths): nat { Shorter(l, 16) }

  /** HUFFSIZE(k), figure C.1: the length of the k-th code. */
  function Size(l: Lengths, k: nat): (n: nat)
    requires k < Count(l)
    ensures 1 <= n <= 16 && Shorter(l, n - 1) <= k < Shorter(l, n)
  {
    SizeFrom(l, k, 16)
  }

  function SizeFrom(l: Lengths, k: nat, i: nat): (n: nat)
    requires i <= 16 && k < Shorter(l, i)
    ensures 1 <= n <= i && Shorter(l, n - 1) <= k < Shorter(l, n)
  {
    if k < Shorter(l, i - 1) then SizeFrom(l, k, i - 1) else i
  }

  /** HUFFCODE(k), figure C.2: count up, and append zeros whenever the length grows. */
  function Code(l: Lengths, k: nat): nat
    requires k < Count(l)
  {
    if k == 0 then 0 else (Code(l, k - 1) + 1) * Pow2(Grow(l, k))
  }

  function Grow(l: Lengths, k: nat): nat
    requires 0 < k < Count(l)
  {
    SizeMonotone(l, k - 1, k);
    Size(l, k) - Size(l, k - 1)
  }

  lemma ShorterMonotone(l: Lengths, i: nat, j: nat)
    requires i <= j <= 16
    ensures Shorter(l, i) <= Shorter(l, j)
  {
    if i < j { ShorterMonotone(l, i, j - 1); }
  }

  lemma SizeMonotone(l: Lengths, j: nat, k: nat)
    requires j <= k < Count(l)
    ensures Size(l, j) <= Size(l, k)
  {
    if Size(l, k) < Size(l, j) { ShorterMonotone(l, Size(l, k), Size(l, j) - 1); }
  }

  /** The codes fit: sum of 2^-length is at most 1. */
  predicate Kraft(l: Lengths) { Weight(l, 16) <= Pow2(16) }

  /** The codes of up to i bits, in units of 2^-16. */
  function Weight(l: Lengths, i: nat): nat
    requires i <= 16
  {
    if i == 0 then 0 else Weight(l, i - 1) + l[i - 1] * Pow2(16 - i)
  }

  // ---- The numbers dec_makehuff computes ----

  /** `code` when the sizes loop reaches length i + 1. */
  function First(l: Lengths, i: nat): nat
    requires i <= 16
  {
    if i == 0 then 0 else 2 * (First(l, i - 1) + l[i - 1])
  }

  /** maxcode[i]: one past the last code of i + 1 bits. */
  function Max(l: Lengths, i: nat): nat
    requires i < 16
  {
    First(l, i) + l[i]
  }

  lemma {:induction false} FirstIsWeight(l: Lengths, i: nat)
    requires i <= 16
    ensures First(l, i) * Pow2(16 - i) == 2 * Weight(l, i)
  {
    if i > 0 {
      FirstIsWeight(l, i - 1);
      var p := Pow2(16 - i);
      assert Pow2(16 - (i - 1)) == 2 * p;
      Double(First(l, i - 1), l[i - 1], p, Weight(l, i - 1));
    }
  }

  lemma Double(f: int, n: int, p: int, w: int)
    requires f * (2 * p) == 2 * w
    ensures 2 * (f + n) * p == 2 * (w + n * p)
  {
    assert 2 * (f + n) * p == 2 * (f * p) + 2 * (n * p);
    assert f * (2 * p) == 2 * (f * p);
  }

  lemma WeightMonotone(l: Lengths, i: nat, j: nat)
    requires i <= j <= 16
    ensures Weight(l, i) <= Weight(l, j)
  {
    if i < j { WeightMonotone(l, i, j - 1); }
  }

  /** Under Kraft no code overflows its length. */
  lemma MaxFits(l: Lengths, i: nat)
    requires Kraft(l) && i < 16
    ensures Max(l, i) <= Pow2(i + 1)
  {
    FirstIsWeight(l, i + 1);
    WeightMonotone(l, i + 1, 16);
    Pow2Add(i + 1, 15 - i);
    var m, p := Max(l, i), Pow2(15 - i);
    assert Pow2(i + 1) * p == Pow2(16);
    assert First(l, i + 1) == 2 * m;
    assert 2 * m * p <= 2 * (Pow2(i + 1) * p);
    CancelLe(m, Pow2(i + 1), p);
  }

  lemma CancelLe(a: int, b: int, p: int)
    requires p > 0 && 2 * a * p <= 2 * (b * p)
    ensures a <= b
  {
    assert (a - b) * p == a * p - b * p;
    MulSign(a - b, p);
  }

  lemma CodeNext(l: Lengths, k: nat)
    requires 0 < k < Count(l)
    ensures Size(l, k - 1) <= Size(l, k) && Code(l, k) == (Code(l, k - 1) + 1) * Pow2(Size(l, k) - Size(l, k - 1))
  {
    SizeMonotone(l, k - 1, k);
  }

  /** Where the length grows, all codes of the previous length are used up. */
  lemma {:induction false} CodeJump(l: Lengths, k: nat)
    requires 0 < k < Count(l) && Size(l, k - 1) < Size(l, k)
    requires Code(l, k - 1) == First(l, Size(l, k - 1) - 1) + (k - 1 - Shorter(l, Size(l, k - 1) - 1))
    ensures Code(l, k) == First(l, Size(l, k) - 1) && Shorter(l, Size(l, k) - 1) == k
  {
    hide Pow2, SizeFrom, Code;
    var m, n := Size(l, k - 1), Size(l, k);
    CodeNext(l, k);
    ShorterMonotone(l, m, n - 1);
    FirstJump(l, m, n - 1);
    assert Code(l, k - 1) + 1 == Max(l, m - 1);
  }

  lemma CodeZero(l: Lengths)
    requires 0 < Count(l)
    ensures Code(l, 0) == 0 && First(l, Size(l, 0) - 1) == 0 && Shorter(l, Size(l, 0) - 1) == 0
  {
    FirstEmpty(l, Size(l, 0) - 1);
  }

  /** T.81's code list is the one dec_makehuff counts through. */
  lemma {:induction false} CodeIsCanonical(l: Lengths, k: nat)
    requires k < Count(l)
    ensures Code(l, k) == First(l, Size(l, k) - 1) + (k - Shorter(l, Size(l, k) - 1))
  {
    hide Pow2, SizeFrom, Size, First, Shorter, Code;
    if k == 0 {
      CodeZero(l);
    } else {
      CodeIsCanonical(l, k - 1);
      CodeNext(l, k);
      if Size(l, k - 1) < Size(l, k) {
        CodeJump(l, k);
      } else {
        Pow2Values();
        TimesOne(Code(l, k - 1) + 1, Pow2(0));
      }
    }
  }

  lemma TimesOne(x: int, p: int)
    requires p == 1
    ensures x * p == x
  {}

  lemma {:induction false} FirstEmpty(l: Lengths, i: nat)
    requires i <= 16 && Shorter(l, i) == 0
    ensures First(l, i) == 0
  {
    if i > 0 { FirstEmpty(l, i - 1); }
  }

  /** Over lengths without codes the first code just doubles. */
  lemma {:induction false} FirstJump(l: Lengths, i: nat, j: nat)
    requires 1 <= i <= j <= 16 && Shorter(l, i) == Shorter(l, j)
    ensures First(l, j) == Max(l, i - 1) * Pow2(j + 1 - i)
  {
    if i == j {
      assert Pow2(1) == 2;
    } else {
      ShorterMonotone(l, i, j - 1);
      ShorterMonotone(l, j - 1, j);
      FirstJump(l, i, j - 1);
      assert First(l, j) == 2 * First(l, j - 1);
      var p := Pow2(j - i);
      assert Pow2(j + 1 - i) == 2 * p;
      TwiceProduct(Max(l, i - 1), p);
    }
  }

  lemma TwiceProduct(m: int, p: int)
    ensures 2 * (m * p) == m * (2 * p)
  {}

  // ---- Which code a stream starts with ----

  /** The stream has the k-th code at bit `pos`. */
  predicate Matches(l: Lengths, s: seq<byte>, pos: nat, k: nat) {
    k < Count(l) && Peek(s, pos, Size(l, k)) == Code(l, k)
  }

  /** Some code stands at bit `pos`. */
  ghost predicate HasCode(l: Lengths, s: seq<byte>, pos: nat) {
    exists k :: Matches(l, s, pos, k)
  }

  lemma CodeRange(l: Lengths, k: nat)
    requires k < Count(l)
    ensures First(l, Size(l, k) - 1) <= Code(l, k) < Max(l, Size(l, k) - 1)
  {
    CodeIsCanonical(l, k);
  }

  lemma SizeIs(l: Lengths, k: nat, n: nat)
    requires 1 <= n <= 16 && Shorter(l, n - 1) <= k < Shorter(l, n)
    ensures k < Count(l) && Size(l, k) == n
  {
    ShorterMonotone(l, n, 16);
    var m := Size(l, k);
    if m < n { ShorterMonotone(l, m, n - 1); }
    if n < m { ShorterMonotone(l, n, m - 1); }
  }

  /** Bits that are no code of at most i + 1 bits lead to no shorter one either. */
  lemma {:induction false} StaysAbove(l: Lengths, s: seq<byte>, pos: nat, i: nat, j: nat)
    requires i < j < 16 && Peek(s, pos, j + 1) >= First(l, j)
    ensures Peek(s, pos, i + 1) >= Max(l, i)
  {
    hide Bit;
    assert Peek(s, pos, j + 1) == 2 * Peek(s, pos, j) + Bit(s, pos + j);
    assert Bit(s, pos + j) <= 1 by { BitBound(s, pos + j); }
    if i + 1 < j { StaysAbove(l, s, pos, i, j - 1); }
  }

  lemma BitBound(s: seq<byte>, k: nat)
    ensures Bit(s, k) <= 1
  {}

  /** No bits shorter than a code the stream starts with look like a code. */
  lemma MatchAbove(l: Lengths, s: seq<byte>, pos: nat, k: nat, i: nat)
    requires Matches(l, s, pos, k) && i + 1 < Size(l, k)
    ensures Peek(s, pos, i + 1) >= Max(l, i)
  {
    CodeRange(l, k);
    StaysAbove(l, s, pos, i, Size(l, k) - 1);
  }

  /** Bits below maxcode[i] start with a code of at most i + 1 bits. */
  lemma {:induction false} BelowMaxMatches(l: Lengths, s: seq<byte>, pos: nat, i: nat) returns (k: nat)
    requires i < 16 && Peek(s, pos, i + 1) < Max(l, i)
    ensures Matches(l, s, pos, k) && Size(l, k) <= i + 1
  {
    if Peek(s, pos, i + 1) >= First(l, i) {
      k := Shorter(l, i) + (Peek(s, pos, i + 1) - First(l, i));
      SizeIs(l, k, i + 1);
      CodeIsCanonical(l, k);
    } else {
      k := BelowMaxMatches(l, s, pos, i - 1);
    }
  }

  /** The code is prefix-free: a stream starts with at most one. */
  lemma MatchUnique(l: Lengths, s: seq<byte>, pos: nat, j: nat, k: nat)
    requires Matches(l, s, pos, j) && Matches(l, s, pos, k)
    ensures j == k
  {
    CodeRange(l, j);
    CodeRange(l, k);
    if Size(l, j) < Size(l, k) { MatchAbove(l, s, pos, k, Size(l, j) - 1); }
    if Size(l, k) < Size(l, j) { MatchAbove(l, s, pos, j, Size(l, k) - 1); }
    CodeIsCanonical(l, j);
    CodeIsCanonical(l, k);
  }

  // ---- EXTEND, and the entries of llvals ----

  /** EXTEND, figure F.12: `v` of `t` bits as a signed number. */
  function Extend(v: nat, t: nat): int {
    if t == 0 then 0 else if v < Pow2(t - 1) then v - Pow2(t) + 1 else v
  }

  const DECBITS: nat := 10

  /** An entry with a known value: the value in the top half, the run from bit 8 on, a set bit 7,
      and below it the number of bits to give back. */
  function Known(x: int, run: nat, u: nat): int { x * 0x10000 % TWO32 + run * 0x100 + 0x80 + u }

  /** An entry with an unknown value: the same with its size in the top half and bit 7 clear. */
  function Unknown(b: nat, run: nat, u: nat): int { b * 0x10000 + run * 0x100 + u }

  /** i >> 16 of a C int. */
  function TopHalf(e: int): int { (if e >= 0x8000_0000 then e - TWO32 else e) / 0x10000 }

  /** The fields of a packed word. */
  lemma Fields(t: int, run: nat, k: nat, u: nat)
    requires run < 16 && k < 2 && u < 128
    ensures var e := t * 0x10000 + run * 0x100 + k * 0x80 + u;
            e / 0x80 % 2 == k && e % 0x80 == u && e / 0x100 % 0x10 == run && e / 0x10000 == t
  {
    var e := t * 0x10000 + run * 0x100 + k * 0x80 + u;
    DivMod(e, t * 0x200 + run * 2 + k, 0x80, u);
    DivMod(t * 0x200 + run * 2 + k, t * 0x100 + run, 2, k);
    DivMod(e, t * 0x100 + run, 0x100, k * 0x80 + u);
    DivMod(t * 0x100 + run, t * 0x10, 0x10, run);
    DivMod(e, t, 0x10000, run * 0x100 + k * 0x80 + u);
  }

  lemma UnpackKnown(x: int, run: nat, u: nat)
    requires -0x8000 <= x < 0x8000 && run < 16 && u < 128
    ensures var e := Known(x, run, u);
            0 <= e < TWO32 && e / 0x80 % 2 == 1 && e % 0x80 == u && e / 0x100 % 0x10 == run && TopHalf(e) == x
  {
    var base := if x >= 0 then x else x + 0x10000;
    assert x * 0x10000 % TWO32 == base * 0x10000 by { DivMod(x * 0x10000, if x >= 0 then 0 else -1, TWO32, base * 0x10000); }
    Fields(base, run, 1, u);
    if x < 0 { Fields(x, run, 1, u); }
  }

  lemma UnpackUnknown(b: nat, run: nat, u: nat)
    requires b < 16 && run < 16 && u < 128
    ensures var e := Unknown(b, run, u);
            0 <= e < TWO32 && e / 0x80 % 2 == 0 && e % 0x80 == u && e / 0x100 % 0x10 == run && TopHalf(e) == b
  {
    Fields(b, run, 0, u);
  }

  lemma DivNonNegative(x: nat, m: nat)
    requires m > 0
    ensures x / m >= 0
  {}

  /** The `size` bits after the first `n` of the ten bits `r`. */
  function After(r: nat, n: nat, size: nat): nat
    requires n + size <= DECBITS
  {
    DivNonNegative(r % Pow2(DECBITS - n), Pow2(DECBITS - n - size));
    r % Pow2(DECBITS - n) / Pow2(DECBITS - n - size)
  }

  /** The entry for the ten bits `r` when they start with a code of `n` bits for `rs`. */
  function Entry(n: nat, rs: byte, r: nat): int
    requires 1 <= n <= DECBITS
  {
    var size := rs % 16;
    if size + n <= DECBITS then
      Known(Extend(After(r, n, size), size), rs / 16, DECBITS - n - size)
    else
      Unknown(size, rs / 16, DECBITS - n)
  }

  /** Ten bits that start with the k-th code. */
  predicate StartsWith(l: Lengths, k: nat, r: nat) {
    k < Count(l) && Size(l, k) <= DECBITS && r / Pow2(DECBITS - Size(l, k)) == Code(l, k)
  }

  /** A stream whose first ten bits are `r`. */
  lemma TenBits(r: nat) returns (s: seq<byte>)
    requires r < Pow2(DECBITS)
    ensures Peek(s, 0, DECBITS) == r
  {
    hide Pow2, Peek;
    Pow2Values();
    Pow2Add(8, 2);
    s := [r / 4, r % 4 * 64];
    PeekByte(s, 0);
    PeekByte(s, 1);
    PeekSplit(s, 0, 8, 8);
    PeekParts(s, 0, DECBITS, 6);
    assert Pow2(6) == 64 by { Pow2Six(); }
    assert Peek(s, 0, 16) == r * 64;
  }

  lemma Pow2Six()
    ensures Pow2(6) == 64
  {
    assert Pow2(3) == 8;
    Pow2Add(3, 3);
  }

  lemma StartsIsMatch(l: Lengths, s: seq<byte>, pos: nat, k: nat)
    requires k < Count(l) && Size(l, k) <= DECBITS
    ensures StartsWith(l, k, Peek(s, pos, DECBITS)) <==> Matches(l, s, pos, k)
  {
    PeekParts(s, pos, Size(l, k), DECBITS - Size(l, k));
  }

  lemma StartsUnique(l: Lengths, j: nat, k: nat, r: nat)
    requires r < Pow2(DECBITS) && StartsWith(l, j, r) && StartsWith(l, k, r)
    ensures j == k
  {
    var s := TenBits(r);
    StartsIsMatch(l, s, 0, j);
    StartsIsMatch(l, s, 0, k);
    MatchUnique(l, s, 0, j, k);
  }

  lemma BlockDiv(r: int, c: int, p: int)
    requires p > 0
    ensures r / p == c <==> c * p <= r < c * p + p
    ensures r / p == c ==> r % p == r - c * p
  {
    if c * p <= r < c * p + p { DivMod(r, c, p, r - c * p); }
    assert r == r / p * p + r % p;
  }

  /** The first index of the block of indices that start with the k-th code, and its length. */
  function BlockAt(l: Lengths, k: nat): nat
    requires k < Count(l) && Size(l, k) <= DECBITS
  {
    Code(l, k) * BlockLen(Size(l, k))
  }

  function BlockLen(n: nat): (p: nat)
    requires n <= DECBITS
    ensures p > 0
  {
    Pow2(DECBITS - n)
  }

  lemma StartsBlock(l: Lengths, k: nat, r: nat)
    requires k < Count(l) && Size(l, k) <= DECBITS
    ensures StartsWith(l, k, r) <==> BlockAt(l, k) <= r < BlockAt(l, k) + BlockLen(Size(l, k))
  {
    BlockDiv(r, Code(l, k), BlockLen(Size(l, k)));
  }

  /** A block lies inside the table. */
  lemma BlockFits(l: Lengths, k: nat)
    requires Kraft(l) && k < Count(l) && Size(l, k) <= DECBITS
    ensures BlockAt(l, k) + BlockLen(Size(l, k)) <= 0x400
  {
    hide Pow2, Code, Max, First, Size, Kraft;
    var n := Size(l, k);
    CodeRange(l, k);
    MaxFits(l, n - 1);
    Pow2Add(n, DECBITS - n);
    Pow2Values();
    Scale(Code(l, k) + 1, Pow2(n), BlockLen(n));
    PlusOne(Code(l, k), BlockLen(n));
  }

  lemma PlusOne(c: int, p: int)
    ensures (c + 1) * p == c * p + p
  {}

  lemma Scale(a: int, b: int, p: int)
    requires p > 0 && a <= b
    ensures a * p <= b * p
  {}

  /** struct dec_hufftbl */
  class Table {
    const maxcode: array<int>
    const valptr: array<nat>
    const vals: array<byte>
    const llvals: array<int>

    constructor ()
      ensures Shape() && fresh(maxcode) && fresh(valptr) && fresh(vals) && fresh(llvals)
    {
      maxcode := new int[17](_ => 0);
      valptr := new nat[16](_ => 0);
      vals := new byte[256](_ => 0);
      llvals := new int[0x400](_ => 0);
    }

    ghost predicate Shape() {
      && maxcode.Length == 17 && valptr.Length == 16 && vals.Length == 256 && llvals.Length == 0x400
      && maxcode as object != valptr && maxcode as object != vals && maxcode as object != llvals
      && valptr as object != vals && valptr as object != llvals && vals as object != llvals
    }

    /** The table decodes the code given by `l` with symbols `hv`. */
    ghost predicate Decodes(l: Lengths, hv: seq<byte>)
      reads maxcode, valptr, vals, llvals
    {
      && Shape() && Count(l) <= |hv| && Count(l) <= 256
      && (forall i :: 0 <= i < 16 ==> maxcode[i] == Max(l, i) && valptr[i] == Shorter(l, i))
      && maxcode[16] == 0x20000
      && vals[..Count(l)] == hv[..Count(l)]
      && Filled(l, hv, Count(l)) && ZeroFrom(Max(l, DECBITS - 1))
    }

    /** The first `k` codes have their entries. */
    ghost predicate Filled(l: Lengths, hv: seq<byte>, k: nat)
      requires Shape() && k <= Count(l) <= |hv|
      reads llvals
    {
      forall j, r :: 0 <= j < k && 0 <= r < 0x400 && StartsWith(l, j, r) ==> llvals[r] == Entry(Size(l, j), hv[j], r)
    }

    ghost predicate ZeroFrom(bound: nat)
      requires Shape()
      reads llvals
    {
      forall r :: bound <= r < 0x400 ==> llvals[r] == 0
    }

    /** The innermost loop of dec_makehuff: the `p` table indices from `c` on start with a
        code of i + 1 bits. */
    method FillBlock(i: nat, code: nat, rs: byte)
      requires Shape() && i < DECBITS && code * BlockLen(i + 1) + BlockLen(i + 1) <= 0x400
      modifies llvals
      ensures var c := code * BlockLen(i + 1);
              forall r :: 0 <= r < 0x400 ==>
                llvals[r] == if c <= r < c + BlockLen(i + 1) then Entry(i + 1, rs, r) else old(llvals[r])
    {
      hide Pow2, Entry, BlockLen;
      var c := code * BlockLen(i + 1);
      var d := BlockLen(i + 1);
      ghost var p := d;
      while d > 0
        invariant 0 <= d <= p
        invariant forall r :: 0 <= r < 0x400 ==>
                    llvals[r] == if c + d <= r < c + p then Entry(i + 1, rs, r) else old(llvals[r])
      {
        d := d - 1;
        PackedIsEntry(i, code, d, rs);
        llvals[c + d] := Packed(i, d, rs);
      }
    }

    /** The state of the fill before code `code` of i + 1 bits, the k-th of all. */
    ghost predicate Filling(l: Lengths, hv: seq<byte>, i: nat, k: nat, code: nat)
      requires k <= Count(l) <= |hv| && Count(l) <= 256 && i <= 16
      reads llvals, vals
    {
      && Shape() && vals[..k] == hv[..k] && Filled(l, hv, k)
      && ZeroFrom(Bound(l, i, code))
    }

    /** One turn of the middle loop: the k-th code. */
    method AddCode(l: Lengths, hv: seq<byte>, i: nat, k: nat, code: nat)
      requires Kraft(l) && Count(l) <= |hv| && Count(l) <= 256
      requires i < 16 && k < Count(l) && Size(l, k) == i + 1 && Code(l, k) == code
      requires Filling(l, hv, i, k, code)
      modifies vals, llvals
      ensures Filling(l, hv, i, k + 1, code + 1)
    {
      hide Pow2, Entry, BlockLen, Code, Size, Kraft;
      vals[k] := hv[k];
      assert vals[..k+1] == hv[..k+1];
      if i < DECBITS {
        BlockFits(l, k);
        PlusOne(code, BlockLen(i + 1));
        FillBlock(i, code, hv[k]);
        forall j, r | 0 <= j < k + 1 && 0 <= r < 0x400 && StartsWith(l, j, r)
          ensures llvals[r] == Entry(Size(l, j), hv[j], r)
        {
          StartsBlock(l, k, r);
          Pow2Values();
          if j < k && StartsWith(l, k, r) { StartsUnique(l, j, k, r); }
        }
      }
    }

    /** The codes of i + 1 bits. */
    method AddLevel(l: Lengths, hv: seq<byte>, i: nat)
      requires Kraft(l) && Count(l) <= |hv| && Count(l) <= 256
      requires i < 16 && Shorter(l, i) <= Count(l) && Filling(l, hv, i, Shorter(l, i), First(l, i))
      modifies vals, llvals
      ensures Shorter(l, i + 1) <= Count(l)
      ensures Filling(l, hv, i + 1, Shorter(l, i + 1), First(l, i + 1))
    {
      hide Pow2, Entry, BlockLen, Code, Size, Kraft, Shape, Filled, ZeroFrom, Bound;
      ShorterMonotone(l, i + 1, 16);
      var k, code := Shorter(l, i), First(l, i);
      for j := 0 to l[i]
        invariant k == Shorter(l, i) + j && code == First(l, i) + j
        invariant Filling(l, hv, i, k, code)
      {
        SizeIs(l, k, i + 1);
        CodeIsCanonical(l, k);
        AddCode(l, hv, i, k, code);
        code := code + 1;
        k := k + 1;
      }
      BoundNext(l, i);
    }

    /** dec_makehuff */
    method Make(l: Lengths, hv: seq<byte>)
      requires Kraft(l) && Count(l) <= |hv| && Count(l) <= 256 && Shape()
      modifies maxcode, valptr, vals, llvals
      ensures Decodes(l, hv)
    {
      hide Pow2, Entry, BlockLen, Code, Size, Kraft, StartsWith, Bound, Shorter, First;
      for r := 0 to 0x400
        invariant ZeroBelow(r)
      {
        llvals[r] := 0;
      }
      Levels(l);
      var code, k := 0, 0;
      for i := 0 to 16
        invariant k == Shorter(l, i) && k <= Count(l) && code == First(l, i)
        invariant Filling(l, hv, i, k, code)
        invariant forall n :: 0 <= n < i ==> maxcode[n] == Max(l, n) && valptr[n] == Shorter(l, n)
      {
        valptr[i] := k;
        AddLevel(l, hv, i);
        assert First(l, i + 1) == 2 * Max(l, i);
        k := k + l[i];
        code := code + l[i];
        maxcode[i] := code;
        code := code * 2;
      }
      maxcode[16] := 0x20000;
    }

    ghost predicate ZeroBelow(n: nat)
      requires Shape() && n <= 0x400
      reads llvals
    {
      forall r :: 0 <= r < n ==> llvals[r] == 0
    }
  }

  lemma Levels(l: Lengths)
    ensures Shorter(l, 0) == First(l, 0) == Bound(l, 0, 0) == 0 && Count(l) == Shorter(l, 16)
    ensures forall i :: 0 <= i < 16 ==> Shorter(l, i + 1) == Shorter(l, i) + l[i] && First(l, i + 1) == 2 * Max(l, i)
    ensures forall code :: 0 <= code ==> Bound(l, 16, code) == Max(l, DECBITS - 1)
  {}

  /** Where the unfilled part of llvals begins. */
  function Bound(l: Lengths, i: nat, code: nat): nat
  {
    if i < DECBITS then code * BlockLen(i + 1) else Max(l, DECBITS - 1)
  }

  lemma BoundNext(l: Lengths, i: nat)
    requires i < 16
    ensures Bound(l, i, Max(l, i)) == Bound(l, i + 1, First(l, i + 1))
  {
    hide Max, First, Pow2;
    NextFirst(l, i);
    if i + 1 < DECBITS {
      TwiceBlock(i + 1);
      TwiceProduct(Max(l, i), BlockLen(i + 2));
    } else if i + 1 == DECBITS {
      Pow2Values();
    }
  }

  lemma NextFirst(l: Lengths, i: nat)
    requires i < 16
    ensures First(l, i + 1) == 2 * Max(l, i)
  {}

  lemma TwiceBlock(i: nat)
    requires i < DECBITS
    ensures BlockLen(i) == 2 * BlockLen(i + 1)
  {}

  /** The word built for the bits `d` that follow a code of i + 1 bits. */
  function Packed(i: nat, d: nat, rs: byte): int
    requires i < DECBITS
  {
    var v := rs % 16;
    if v + i < DECBITS then
      DivNonNegative(d, Pow2(DECBITS - 1 - v - i));
      var bits := d / Pow2(DECBITS - 1 - v - i);
      var x := if v != 0 && bits < Pow2(v - 1) then bits - Pow2(v) + 1 else bits;
      x * 0x10000 % TWO32 + rs / 16 * 0x100 + (DECBITS - (i + 1 + v)) + 0x80
    else
      v * 0x10000 + rs / 16 * 0x100 + (DECBITS - (i + 1))
  }

  lemma PackedIsEntry(i: nat, code: nat, d: nat, rs: byte)
    requires i < DECBITS && d < BlockLen(i + 1)
    ensures Packed(i, d, rs) == Entry(i + 1, rs, code * BlockLen(i + 1) + d)
  {
    DivMod(code * BlockLen(i + 1) + d, code, BlockLen(i + 1), d);
    if rs % 16 + i < DECBITS {
      assert After(code * BlockLen(i + 1) + d, i + 1, rs % 16) == d / Pow2(DECBITS - 1 - rs % 16 - i);
      if rs % 16 == 0 { DivBelow(d, Pow2(DECBITS - 1 - i)); }
    }
  }

  lemma DivBelow(d: nat, p: nat)
    requires d < p
    ensures d / p == 0
  {}

  // ---- DEC_REC ----

  /** What T.81 decodes at bit `pos`, given that the k-th code stands there: DECODE yields
      the symbol, RECEIVE its low four bits' worth of further bits, EXTEND the sign. */
  function Run(hv: seq<byte>, k: nat): nat
    requires k < |hv|
  {
    hv[k] / 16
  }

  function Value(l: Lengths, hv: seq<byte>, s: seq<byte>, pos: nat, k: nat): int
    requires k < Count(l) <= |hv|
  {
    Extend(Peek(s, pos + Size(l, k), hv[k] % 16), hv[k] % 16)
  }

  function Used(l: Lengths, hv: seq<byte>, k: nat): nat
    requires k < Count(l) <= |hv|
  {
    Size(l, k) + hv[k] % 16
  }

  /** `run`, `value` and the new position are those of the code at `pos`. */
  ghost predicate Decoded(l: Lengths, hv: seq<byte>, s: seq<byte>, pos: nat, run: nat, value: int, pos': nat)
    requires Count(l) <= |hv|
  {
    exists k :: Matches(l, s, pos, k) && run == Run(hv, k) && value == Value(l, hv, s, pos, k) && pos' == pos + Used(l, hv, k)
  }

  /** The magnitude categories of T.81: `t` bits stand for a number whose absolute value has
      exactly t bits, positive ones for themselves and negative ones for themselves less one. */
  lemma ExtendMagnitude(v: nat, t: nat)
    requires v < Pow2(t)
    ensures t == 0 ==> Extend(v, t) == 0
    ensures t > 0 ==> var x := Extend(v, t);
                      && Pow2(t - 1) <= (if x < 0 then -x else x) < Pow2(t)
                      && (x > 0 <==> v >= Pow2(t - 1)) && v == if x > 0 then x else x + Pow2(t) - 1
    ensures 0 - Pow2(t) < Extend(v, t) < Pow2(t)
  {}

  /** The same in terms of the bits received: `value` has the magnitude category that the code
      names, and the bits behind the code are its number in that category. */
  ghost predicate Received(l: Lengths, hv: seq<byte>, s: seq<byte>, pos: nat, run: nat, value: int, pos': nat)
    requires Count(l) <= |hv|
  {
    exists k: nat ::
      && Matches(l, s, pos, k) && run == hv[k] / 16 && pos' == pos + Size(l, k) + hv[k] % 16
      && var t := hv[k] % 16; var v := Peek(s, pos + Size(l, k), t);
         && (t == 0 ==> value == 0)
         && (t > 0 ==> && Pow2(t - 1) <= (if value < 0 then -value else value) < Pow2(t)
                       && (value > 0 <==> v >= Pow2(t - 1))
                       && v == if value > 0 then value else value + Pow2(t) - 1)
  }

  lemma DecodedReceived(l: Lengths, hv: seq<byte>, s: seq<byte>, pos: nat, run: nat, value: int, pos': nat)
    requires Count(l) <= |hv| && Decoded(l, hv, s, pos, run, value, pos')
    ensures Received(l, hv, s, pos, run, value, pos')
  {
    hide Pow2, Peek, Size, Extend, Code;
    var k: nat :| Matches(l, s, pos, k) && run == Run(hv, k) && value == Value(l, hv, s, pos, k) && pos' == pos + Used(l, hv, k);
    var t := hv[k] % 16;
    PeekBound(s, pos + Size(l, k), t);
    ExtendMagnitude(Peek(s, pos + Size(l, k), t), t);
  }

  lemma Pow2Monotone(a: nat, b: nat)
    requires a <= b
    ensures Pow2(a) <= Pow2(b)
  {
    if a < b { Pow2Monotone(a, b - 1); }
  }

  /** What the lookahead table says about the ten bits at `pos`. */
  lemma LookaheadEntry(l: Lengths, hv: seq<byte>, s: seq<byte>, pos: nat, k: nat)
    requires Matches(l, s, pos, k) && Count(l) <= |hv| && Size(l, k) <= DECBITS
    ensures var e := Entry(Size(l, k), hv[k], Peek(s, pos, DECBITS));
            && 0 < e < TWO32 && e / 0x100 % 0x10 == Run(hv, k)
            && (e / 0x80 % 2 == 1 <==> Used(l, hv, k) <= DECBITS)
            && (e / 0x80 % 2 == 1 ==> e % 0x80 == DECBITS - Used(l, hv, k) && TopHalf(e) == Value(l, hv, s, pos, k))
            && (e / 0x80 % 2 != 1 ==> e % 0x80 == DECBITS - Size(l, k) && TopHalf(e) == hv[k] % 16)
  {
    hide Pow2, Peek, Extend, Code;
    var n, size, r := Size(l, k), hv[k] % 16, Peek(s, pos, DECBITS);
    if n + size <= DECBITS {
      PeekParts(s, pos, n, DECBITS - n);
      PeekParts(s, pos + n, size, DECBITS - n - size);
      assert After(r, n, size) == Peek(s, pos + n, size);
      PeekBound(s, pos + n, size);
      ExtendMagnitude(Peek(s, pos + n, size), size);
      Pow2Monotone(size, DECBITS);
      Pow2Values();
      UnpackKnown(Extend(After(r, n, size), size), hv[k] / 16, DECBITS - n - size);
    } else {
      UnpackUnknown(size, hv[k] / 16, DECBITS - n);
    }
  }

  /** Sixteen bits at or above maxcode[15] start with no code at all. */
  lemma NoCode(l: Lengths, s: seq<byte>, pos: nat)
    requires Peek(s, pos, 16) >= Max(l, 15)
    ensures !HasCode(l, s, pos)
  {
    forall k: nat ensures !Matches(l, s, pos, k) {
      if k < Count(l) {
        CodeRange(l, k);
        if Size(l, k) < 16 { StaysAbove(l, s, pos, Size(l, k) - 1, 15); }
      }
    }
  }

  /** Bits between the first and the last code of their length are the code the search loop
      computes the index of. */
  lemma CodeFound(l: Lengths, s: seq<byte>, pos: nat, i: nat)
    requires i < 16 && First(l, i) <= Peek(s, pos, i + 1) < Max(l, i)
    ensures var k := Shorter(l, i) + Peek(s, pos, i + 1) - First(l, i);
            Matches(l, s, pos, k) && Size(l, k) == i + 1 && HasCode(l, s, pos)
  {
    var k := Shorter(l, i) + Peek(s, pos, i + 1) - First(l, i);
    SizeIs(l, k, i + 1);
    CodeIsCanonical(l, k);
    assert Matches(l, s, pos, k);
  }

  lemma FirstIsTwiceMax(l: Lengths, i: nat)
    requires 0 < i < 16
    ensures First(l, i) == 2 * Max(l, i - 1)
  {}

  /** One more bit on top of `n` of them. */
  lemma PeekNext(s: seq<byte>, pos: nat, n: nat)
    ensures Peek(s, pos, n + 1) == 2 * Peek(s, pos, n) + Peek(s, pos + n, 1)
  {}

  /** The search loop of dec_rec2: the index of the code at in.pos - 10, whose first ten
      bits `c0` are taken; longer codes only. */
  method SearchCode(input: Reader, hu: Table, c0: nat, ghost l: Lengths, ghost hv: seq<byte>) returns (ok: bool, k: nat)
    requires input.Valid() && hu.Decodes(l, hv) && DECBITS <= input.pos
    requires c0 == Peek(input.Stream(), input.pos - DECBITS, DECBITS) && c0 >= Max(l, DECBITS - 1)
    modifies input
    ensures ok <==> HasCode(l, old(input.Stream()), old(input.pos) - DECBITS)
    ensures ok ==> input.Valid() && input.start == old(input.start)
    ensures ok ==> Matches(l, old(input.Stream()), old(input.pos) - DECBITS, k)
                   && input.pos == old(input.pos) - DECBITS + Size(l, k)
    ensures !ok ==> input.marker == -1
  {
    hide Pow2, Peek, Size, Code, Unstuff, HasMarker, HasCode, Matches, Max, First, Shorter;
    ghost var s, pos := input.Stream(), input.pos - DECBITS;
    var c, i := c0, DECBITS;
    while true
      invariant DECBITS <= i <= 16 && input.Valid() && input.start == old(input.start)
      invariant input.pos == pos + i && c == Peek(s, pos, i) && c >= Max(l, i - 1)
      decreases 16 - i
    {
      var b := input.GetBits(1);
      PeekNext(s, pos, i);
      c := 2 * c + b;
      if c < hu.maxcode[i] { break; }
      if i == 16 {
        PeekBound(s, pos, 17);
        Pow2Seventeen();
        assert false;
      }
      i := i + 1;
    }
    if i >= 16 {
      NoCode(l, s, pos);
      input.marker := -1;
      return false, 0;
    }
    FirstIsTwiceMax(l, i);
    CodeFound(l, s, pos, i);
    k := hu.valptr[i] + c - hu.maxcode[i - 1] * 2;
    ok := true;
  }

  lemma Pow2Seventeen()
    ensures Pow2(17) == 0x20000
  {
    Pow2Values();
    assert Pow2(17) == 2 * Pow2(16);
  }

  /** `e` is the entry of a code of at most ten bits whose value is still to be read. */
  ghost predicate Unsettled(l: Lengths, hv: seq<byte>, s: seq<byte>, pos: nat, e: nat, k: nat) {
    && Count(l) <= |hv| && Matches(l, s, pos, k) && Size(l, k) <= DECBITS
    && e % 0x80 == DECBITS - Size(l, k) && e / 0x100 % 0x10 == Run(hv, k) && TopHalf(e) == hv[k] % 16
  }

  /** dec_rec2: `c` is the ten bits just taken and `e` their table entry, which did not
      settle the value. */
  method DecRec2(input: Reader, hu: Table, c: nat, e: nat, ghost code0: nat, ghost l: Lengths, ghost hv: seq<byte>)
    returns (ok: bool, run: nat, value: int)
    requires input.Valid() && hu.Decodes(l, hv) && DECBITS <= input.pos && input.left + DECBITS <= input.avail
    requires c == Peek(input.Stream(), input.pos - DECBITS, DECBITS)
    requires e == 0 ==> c >= Max(l, DECBITS - 1)
    requires e != 0 ==> Unsettled(l, hv, input.Stream(), input.pos - DECBITS, e, code0)
    modifies input
    ensures ok <==> HasCode(l, old(input.Stream()), old(input.pos) - DECBITS)
    ensures ok ==> input.Valid() && input.start == old(input.start)
                   && Decoded(l, hv, old(input.Stream()), old(input.pos) - DECBITS, run, value, input.pos)
                   && Received(l, hv, old(input.Stream()), old(input.pos) - DECBITS, run, value, input.pos)
    ensures !ok ==> input.marker == -1 && value == 0
  {
    hide Pow2, Peek, Size, Code, Unstuff, HasMarker, Decoded, Received;
    ghost var s, pos := input.Stream(), input.pos - DECBITS;
    var size;
    ghost var code := code0;
    if e != 0 {
      input.UngetBits(e % 0x80);
      run := e / 0x100 % 0x10;
      size := TopHalf(e);
    } else {
      var k;
      ok, k := SearchCode(input, hu, c, l, hv);
      if !ok {
        return false, 0, 0;
      }
      code := k;
      assert hu.vals[..Count(l)][k] == hv[..Count(l)][k];
      run := hu.vals[k] / 16;
      size := hu.vals[k] % 16;
    }
    ok := true;
    if size == 0 {
      value := 0;
    } else {
      value := input.GetBits(size);
      if value < Pow2(size - 1) {
        value := value - Pow2(size) + 1;
      }
    }
    DecodedIs(l, hv, s, pos, code, run, value, input.pos);
    DecodedReceived(l, hv, s, pos, run, value, input.pos);
  }

  lemma DecodedIs(l: Lengths, hv: seq<byte>, s: seq<byte>, pos: nat, k: nat, run: nat, value: int, pos': nat)
    requires Matches(l, s, pos, k) && Count(l) <= |hv|
    requires run == Run(hv, k) && value == Value(l, hv, s, pos, k) && pos' == pos + Used(l, hv, k)
    ensures Decoded(l, hv, s, pos, run, value, pos')
  {}

  /** DEC_REC: the next run and value of the stream. */
  method DecRec(input: Reader, hu: Table, ghost l: Lengths, ghost hv: seq<byte>)
    returns (ok: bool, run: nat, value: int)
    requires input.Valid() && Kraft(l) && hu.Decodes(l, hv)
    modifies input
    ensures ok <==> HasCode(l, old(input.Stream()), old(input.pos))
    ensures ok ==> input.Valid() && input.start == old(input.start)
                   && Decoded(l, hv, old(input.Stream()), old(input.pos), run, value, input.pos)
                   && Received(l, hv, old(input.Stream()), old(input.pos), run, value, input.pos)
    ensures !ok ==> input.marker == -1 && value == 0
  {
    hide Pow2, Peek, Size, Code, Unstuff, HasMarker, Entry, Decoded, Received;
    ghost var s, pos := input.Stream(), input.pos;
    var r := input.GetBits(DECBITS);
    Pow2Values();
    PeekBound(s, pos, DECBITS);
    var e := hu.llvals[r];
    ghost var code := 0;
    if r < Max(l, DECBITS - 1) {
      code := BelowMaxMatches(l, s, pos, DECBITS - 1);
      StartsIsMatch(l, s, pos, code);
      LookaheadEntry(l, hv, s, pos, code);
    }
    if e / 0x80 % 2 == 1 {
      input.UngetBits(e % 0x80);
      run := e / 0x100 % 0x10;
      value := TopHalf(e);
      ok := true;
      DecodedIs(l, hv, s, pos, code, run, value, input.pos);
      DecodedReceived(l, hv, s, pos, run, value, input.pos);
    } else {
      ok, run, value := DecRec2(input, hu, r, e, code, l, hv);
    }
  }

  /** The result is determined: what is decoded at a position can only be one thing. */
  lemma DecodedUnique(l: Lengths, hv: seq<byte>, s: seq<byte>, pos: nat,
                      run1: nat, value1: int, end1: nat, run2: nat, value2: int, end2: nat)
    requires Count(l) <= |hv|
    requires Decoded(l, hv, s, pos, run1, value1, end1) && Decoded(l, hv, s, pos, run2, value2, end2)
    ensures run1 == run2 && value1 == value2 && end1 == end2
  {
    var j :| Matches(l, s, pos, j) && run1 == Run(hv, j) && value1 == Value(l, hv, s, pos, j) && end1 == pos + Used(l, hv, j);
    var k :| Matches(l, s, pos, k) && run2 == Run(hv, k) && value2 == Value(l, hv, s, pos, k) && end2 == pos + Used(l, hv, k);
    MatchUnique(l, s, pos, j, k);
  }

  // ---- One block of decode_mcus ----

  function Zeros(n: nat): seq<int> { seq(n, _ => 0) }

  ghost function CodeAt(l: Lengths, s: seq<byte>, pos: nat): (k: nat)
    requires HasCode(l, s, pos)
    ensures Matches(l, s, pos, k)
  {
    var k: nat :| Matches(l, s, pos, k);
    k
  }

  /** The stream from `pos` to `end` encodes the remaining AC coefficients `a`: runs of
      zeros with the value that ends them, and 0/0 for "zeros from here on" (F.2.2.2). */
  ghost predicate AcCoded(l: Lengths, hv: seq<byte>, s: seq<byte>, pos: nat, a: seq<int>, end: nat)
    requires Count(l) <= |hv|
    decreases |a|
  {
    if a == [] then end == pos
    else HasCode(l, s, pos) && AcContinues(l, hv, s, pos, a, end, CodeAt(l, s, pos))
  }

  ghost predicate AcContinues(l: Lengths, hv: seq<byte>, s: seq<byte>, pos: nat, a: seq<int>, end: nat, k: nat)
    requires k < Count(l) <= |hv|
    decreases |a|, 0
  {
    var run, value, next := Run(hv, k), Value(l, hv, s, pos, k), pos + Used(l, hv, k);
    if run == 0 && value == 0 then a == Zeros(|a|) && end == next
    else run < |a| && a[..run] == Zeros(run) && a[run] == value && AcCoded(l, hv, s, next, a[run+1..], end)
  }

  /** One step along such a coding, for the run and value that were decoded. */
  lemma AcStep(l: Lengths, hv: seq<byte>, s: seq<byte>, pos: nat, a: seq<int>, end: nat, run: nat, value: int, next: nat)
    requires Count(l) <= |hv| && a != [] && AcCoded(l, hv, s, pos, a, end)
    requires Decoded(l, hv, s, pos, run, value, next)
    ensures run == 0 && value == 0 ==> a == Zeros(|a|) && end == next
    ensures !(run == 0 && value == 0) ==>
              run < |a| && a[..run] == Zeros(run) && a[run] == value && AcCoded(l, hv, s, next, a[run+1..], end)
  {
    hide Code, Peek, Extend, Zeros;
    var k: nat :| Matches(l, s, pos, k) && run == Run(hv, k) && value == Value(l, hv, s, pos, k) && next == pos + Used(l, hv, k);
    MatchUnique(l, s, pos, k, CodeAt(l, s, pos));
  }

  /** Memory in which the first `n` coefficients of block `a` are in place and the rest is 0. */
  function Partly(before: seq<int>, a: seq<int>, n: nat, after: seq<int>): seq<int>
    requires n <= |a|
  {
    before + (a[..n] + Zeros(|a| - n)) + after
  }

  /** Such a block takes the next run and value. */
  lemma BlockStep(before: seq<int>, a: seq<int>, n: nat, after: seq<int>, run: nat)
    requires n + run < |a| && a[n..][..run] == Zeros(run)
    ensures Partly(before, a, n, after)[|before| + n + run := a[n + run]] == Partly(before, a, n + run + 1, after)
    ensures a[n..][run] == a[n + run] && a[n..][run+1..] == a[n + run + 1..]
  {
    assert forall j :: n <= j < n + run ==> a[j] == a[n..][..run][j - n];
  }

  lemma BlockStart(m: seq<int>, at: nat, a: seq<int>)
    requires at + |a| <= |m| && m[at..at+|a|] == Zeros(|a|)
    ensures m == Partly(m[..at], a, 0, m[at+|a|..]) && a[0..] == a
  {
    assert m == m[..at] + (m[at..at+|a|] + m[at+|a|..]);
  }

  lemma BlockDone(before: seq<int>, a: seq<int>, n: nat, after: seq<int>)
    requires n <= |a| && a[n..] == Zeros(|a| - n)
    ensures Partly(before, a, n, after) == before + a + after
  {
    assert a == a[..n] + a[n..];
  }

  /** The AC loop of decode_mcus: fills dct[at..at+63], which holds zeros, with the
      coefficients the stream encodes.  `max` tells idct how many leading coefficients of the
      block can differ from 0. */
  method DecodeAc(input: Reader, hu: Table, dct: array<int>, at: nat,
                  ghost l: Lengths, ghost hv: seq<byte>, ghost coeffs: seq<int>, ghost end: nat) returns (max: nat)
    requires input.Valid() && Kraft(l) && hu.Decodes(l, hv)
    requires |coeffs| == 63 && AcCoded(l, hv, input.Stream(), input.pos, coeffs, end)
    requires at + 63 <= dct.Length && dct[at..at+63] == Zeros(63)
    requires dct != hu.llvals && dct != hu.maxcode && dct as object != hu.vals && dct as object != hu.valptr
    modifies input, dct
    ensures input.Valid() && input.start == old(input.start) && input.pos == end
    ensures dct[..] == old(dct[..at]) + coeffs + old(dct[at+63..])
    ensures 1 <= max <= 64 && coeffs[max-1..] == Zeros(64 - max)
  {
    hide Pow2, Peek, Size, Code, Unstuff, HasMarker, Matches, HasCode, Decoded, AcCoded, Kraft, Table.Filled, Table.ZeroFrom, Max, Shorter, Partly, Zeros;
    ghost var s, before, after := input.Stream(), dct[..at], dct[at+63..];
    var i := 63;
    var p := at;
    BlockStart(dct[..], at, coeffs);
    while i > 0
      invariant 0 <= i <= 63 && p == at + 63 - i
      invariant input.Valid() && input.start == old(input.start) && hu.Decodes(l, hv)
      invariant AcCoded(l, hv, s, input.pos, coeffs[63-i..], end)
      invariant dct[..] == Partly(before, coeffs, 63 - i, after)
    {
      ghost var n, pos := 63 - i, input.pos;
      HasCodeHere(l, hv, s, pos, coeffs[n..], end);
      var ok, r, t := DecRec(input, hu, l, hv);
      AcStep(l, hv, s, pos, coeffs[n..], end, r, t, input.pos);
      if t == 0 && r == 0 {
        BlockDone(before, coeffs, n, after);
        max := 64 - i;
        return;
      }
      BlockStep(before, coeffs, n, after, r);
      dct[p + r] := t;
      p := p + r + 1;
      i := i - (r + 1);
    }
    EmptyEnds(l, hv, s, input.pos, end, coeffs[63-i..]);
    BlockDone(before, coeffs, 63, after);
    max := 64 - i;
  }

  lemma HasCodeHere(l: Lengths, hv: seq<byte>, s: seq<byte>, pos: nat, a: seq<int>, end: nat)
    requires Count(l) <= |hv| && a != [] && AcCoded(l, hv, s, pos, a, end)
    ensures HasCode(l, s, pos)
  {}

  lemma EmptyEnds(l: Lengths, hv: seq<byte>, s: seq<byte>, pos: nat, end: nat, a: seq<int>)
    requires Count(l) <= |hv| && |a| == 0 && AcCoded(l, hv, s, pos, a, end)
    ensures end == pos && a == Zeros(0)
  {}
}

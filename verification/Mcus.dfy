// decode_mcus of src/jpeg.c: the blocks of one MCU, each with a DC coefficient that is coded as
// the difference from the last one of its component, and 63 AC coefficients.

module Mcus {
  import opened Arith
  import opened BitStream
  import opened Huffman

  // ---- What the stream encodes ----

  /** The codes of one component. */
  datatype Comp = Comp(dcl: Lengths, dcv: seq<byte>, acl: Lengths, acv: seq<byte>) {
    ghost predicate Ok() { Kraft(dcl) && Kraft(acl) && Count(dcl) <= |dcv| && Count(acl) <= |acv| }
  }

  /** One block from `pos` to `end`: its DC coefficient is `dc` and a coded difference, section
      F.2.2.1 of ITU-T T.81. */
  ghost predicate BlockCoded(c: Comp, s: seq<byte>, pos: nat, dc: int, block: seq<int>, end: nat)
    requires c.Ok() && |block| == 64
  {
    exists run: nat, mid: nat :: CodedAs(c, s, pos, dc, block, end, run, mid)
  }

  ghost predicate CodedAs(c: Comp, s: seq<byte>, pos: nat, dc: int, block: seq<int>, end: nat, run: nat, mid: nat)
    requires c.Ok() && |block| == 64
  {
    Decoded(c.dcl, c.dcv, s, pos, run, block[0] - dc, mid) && AcCoded(c.acl, c.acv, s, mid, block[1..], end)
  }

  /** The component of the k-th of `n` blocks: the list goes on to the next one when the number
      of blocks left is the one that the component says. */
  function Which(nexts: seq<int>, n: int, k: nat): nat {
    if k == 0 then 0
    else
      var w := Which(nexts, n, k - 1);
      if w < |nexts| && n - k == nexts[w] then w + 1 else w
  }

  predicate AllWithin(nexts: seq<int>, n: nat) { forall k :: 0 <= k < n ==> Which(nexts, n, k) < |nexts| }

  /** The DC coefficients that the components remember before block `k`: those of their last
      blocks. */
  function Remembered(dcs: seq<int>, nexts: seq<int>, n: int, blocks: seq<seq<int>>, k: nat): (r: seq<int>)
    requires k <= |blocks| && forall b :: b in blocks ==> |b| == 64
    ensures |r| == |dcs|
  {
    if k == 0 then dcs
    else
      var r := Remembered(dcs, nexts, n, blocks, k - 1);
      var w := Which(nexts, n, k - 1);
      assert blocks[k-1] in blocks;
      if w < |r| then r[w := blocks[k-1][0]] else r
  }

  /** What a component remembers is the DC coefficient of its last block, if it had one. */
  lemma {:induction false} RemembersLast(dcs: seq<int>, nexts: seq<int>, n: int, blocks: seq<seq<int>>, k: nat, j: nat)
    requires j < k <= |blocks| && forall b :: b in blocks ==> |b| == 64
    requires Which(nexts, n, j) < |dcs| && forall i :: j < i < k ==> Which(nexts, n, i) != Which(nexts, n, j)
    ensures blocks[j] in blocks && Remembered(dcs, nexts, n, blocks, k)[Which(nexts, n, j)] == blocks[j][0]
  {
    if j + 1 < k { RemembersLast(dcs, nexts, n, blocks, k - 1, j); }
  }

  /** The blocks from the k-th on are coded from `pos` to `end`. */
  ghost predicate Coded(comps: seq<Comp>, dcs: seq<int>, nexts: seq<int>, s: seq<byte>, pos: nat, blocks: seq<seq<int>>, k: nat, end: nat)
    requires |comps| == |nexts| == |dcs| && k <= |blocks| && AllWithin(nexts, |blocks|)
    requires (forall c :: c in comps ==> c.Ok()) && forall b :: b in blocks ==> |b| == 64
    decreases |blocks| - k
  {
    if k == |blocks| then pos == end
    else exists mid: nat :: BlockAt(comps, dcs, nexts, s, pos, blocks, k, mid) && Coded(comps, dcs, nexts, s, mid, blocks, k + 1, end)
  }

  ghost predicate BlockAt(comps: seq<Comp>, dcs: seq<int>, nexts: seq<int>, s: seq<byte>, pos: nat, blocks: seq<seq<int>>, k: nat, mid: nat)
    requires |comps| == |nexts| == |dcs| && k < |blocks| && AllWithin(nexts, |blocks|)
    requires (forall c :: c in comps ==> c.Ok()) && forall b :: b in blocks ==> |b| == 64
  {
    var w := Which(nexts, |blocks|, k);
    assert comps[w] in comps && blocks[k] in blocks;
    BlockCoded(comps[w], s, pos, Remembered(dcs, nexts, |blocks|, blocks, k)[w], blocks[k], mid)
  }

  // ---- decode_mcus ----

  class Scan {
    var dc: int
    const hudc: Table
    const huac: Table
    const next: int

    constructor (hudc: Table, huac: Table, next: int)
      ensures this.hudc == hudc && this.huac == huac && this.next == next && dc == 0
    {
      this.hudc, this.huac, this.next, dc := hudc, huac, next, 0;
    }

    ghost predicate Decodes(c: Comp)
      reads hudc.maxcode, hudc.valptr, hudc.vals, hudc.llvals, huac.maxcode, huac.valptr, huac.vals, huac.llvals
    {
      c.Ok() && hudc.Decodes(c.dcl, c.dcv) && huac.Decodes(c.acl, c.acv)
    }

    ghost predicate Without(dct: array<int>) {
      && dct != hudc.llvals && dct != hudc.maxcode && dct as object != hudc.vals && dct as object != hudc.valptr
      && dct != huac.llvals && dct != huac.maxcode && dct as object != huac.vals && dct as object != huac.valptr
    }
  }

  /** A zero block at `at` gets the coefficients that the stream encodes. */
  method DecodeBlock(input: Reader, sc: Scan, dct: array<int>, at: nat,
                     ghost c: Comp, ghost block: seq<int>, ghost end: nat) returns (max: nat)
    requires input.Valid() && sc.Decodes(c) && sc.Without(dct) && |block| == 64
    requires BlockCoded(c, input.Stream(), input.pos, sc.dc, block, end)
    requires at + 64 <= dct.Length && forall i :: at <= i < at + 64 ==> dct[i] == 0
    modifies input, dct, sc`dc
    ensures input.Valid() && input.start == old(input.start) && input.pos == end && sc.dc == block[0]
    ensures dct[at..at+64] == block && forall i :: 0 <= i < dct.Length && !(at <= i < at + 64) ==> dct[i] == old(dct[i])
    ensures Bounds(max, block)
  {
    hide Pow2, Peek, Size, Code, Unstuff, HasMarker, Matches, HasCode, Decoded, AcCoded, Kraft, Table.Filled, Table.ZeroFrom, Max, Shorter, Zeros;
    ghost var s, pos := input.Stream(), input.pos;
    ghost var run0: nat, mid: nat :| CodedAs(c, s, pos, sc.dc, block, end, run0, mid);
    DcHasCode(c, s, pos, sc.dc, block, end, run0, mid);
    var ok, run, diff := DecRec(input, sc.hudc, c.dcl, c.dcv);
    DecodedUnique(c.dcl, c.dcv, s, pos, run0, block[0] - sc.dc, mid, run, diff, input.pos);
    sc.dc := sc.dc + diff;
    dct[at] := sc.dc;
    ZerosAt(dct[..], at + 1);
    ghost var m := dct[..];
    max := DecodeAc(input, sc.huac, dct, at + 1, c.acl, c.acv, block[1..], end);
    Assembled(m, dct[..], at, block, max);
  }

  lemma ZerosAt(m: seq<int>, at: nat)
    requires at + 63 <= |m| && forall i :: at <= i < at + 63 ==> m[i] == 0
    ensures m[at..at+63] == Zeros(63)
  {}

  lemma DcHasCode(c: Comp, s: seq<byte>, pos: nat, dc: int, block: seq<int>, end: nat, run: nat, mid: nat)
    requires c.Ok() && |block| == 64 && CodedAs(c, s, pos, dc, block, end, run, mid)
    ensures HasCode(c.dcl, s, pos)
  {
    hide AcCoded;
  }

  lemma Assembled(m: seq<int>, m': seq<int>, at: nat, block: seq<int>, max: nat)
    requires at + 64 <= |m| && |block| == 64 && m[at] == block[0] && 1 <= max <= 64
    requires m' == m[..at + 1] + block[1..] + m[at + 1 + 63..] && block[1..][max - 1..] == Zeros(64 - max)
    ensures |m'| == |m| && m'[at..at+64] == block && forall i :: 0 <= i < |m| && !(at <= i < at + 64) ==> m'[i] == m[i]
    ensures block[max..] == Zeros(64 - max)
  {
    assert block == [block[0]] + block[1..];
    assert block[1..][max - 1..] == block[max..];
  }

  /** The coefficients of all blocks, and for each the bound that tells idct how many of them can
      differ from 0. */
  method DecodeMcus(input: Reader, dct: array<int>, n0: nat, scans: seq<Scan>,
                    ghost comps: seq<Comp>, ghost blocks: seq<seq<int>>, ghost end: nat) returns (maxs: seq<nat>)
    requires input.Valid() && n0 == |blocks| && n0 * 64 <= dct.Length && |comps| == |scans| && NoSharing(scans)
    requires (forall c :: c in comps ==> c.Ok()) && forall b :: b in blocks ==> |b| == 64
    requires forall i :: 0 <= i < |scans| ==> scans[i].Decodes(comps[i]) && scans[i].Without(dct)
    requires AllWithin(Nexts(scans), n0)
    requires Coded(comps, Dcs(scans), Nexts(scans), input.Stream(), input.pos, blocks, 0, end)
    modifies input, dct, scans
    ensures input.Valid() && input.start == old(input.start) && input.pos == end
    ensures forall k :: 0 <= k < n0 ==> dct[64 * k..64 * k + 64] == blocks[k]
    ensures forall i :: n0 * 64 <= i < dct.Length ==> dct[i] == old(dct[i])
    ensures Dcs(scans) == Remembered(old(Dcs(scans)), Nexts(scans), n0, blocks, n0)
    ensures |maxs| == n0 && forall k :: 0 <= k < n0 ==> Bounds(maxs[k], blocks[k])
  {
    hide Pow2, BlockCoded, Unstuff, HasMarker, Coded, Scan.Decodes, Scan.Without, Bounds, Comp.Ok, Which, Remembered, Done, AllWithin,
         Nexts, Dcs, Standing;
    ghost var m0 := dct[..];
    Clear(dct, n0 * 64, scans, comps);
    ghost var nexts, dcs := Nexts(scans), Dcs(scans);
    FirstState(dct[..], m0, comps, dcs, nexts, input.Stream(), input.pos, blocks, end);
    var n, sc := n0, 0;
    maxs := [];
    while n > 0
      invariant 0 <= n <= n0 && sc == Which(nexts, n0, n0 - n)
      invariant input.Valid() && input.start == old(input.start)
      invariant forall i :: 0 <= i < |scans| ==> scans[i].Decodes(comps[i])
      invariant Standing(dct[..], m0, Dcs(scans), comps, dcs, nexts, input.Stream(), input.pos, blocks, n0 - n, end)
      invariant |maxs| == n0 - n && forall k :: 0 <= k < n0 - n ==> Bounds(maxs[k], blocks[k])
    {
      n := n - 1;
      var max := DecodeNext(input, scans, sc, dct, n0 - n - 1, comps, dcs, nexts, m0, blocks, end);
      maxs := maxs + [max];
      NextState(nexts, n0, n0 - n - 1);
      NextAt(scans, sc);
      if n == scans[sc].next {
        sc := sc + 1;
      }
    }
    AllDone(dct[..], m0, Dcs(scans), comps, dcs, nexts, input.Stream(), input.pos, blocks, end);
  }

  /** Where the decoding stands before block `k`: the blocks so far are in place and remembered,
      and the stream goes on with the others. */
  ghost predicate Standing(m: seq<int>, m0: seq<int>, now: seq<int>, comps: seq<Comp>, dcs: seq<int>, nexts: seq<int>,
                           s: seq<byte>, pos: nat, blocks: seq<seq<int>>, k: nat, end: nat)
    requires |comps| == |nexts| == |dcs| && AllWithin(nexts, |blocks|) && k <= |blocks|
    requires (forall c :: c in comps ==> c.Ok()) && forall b :: b in blocks ==> |b| == 64
  {
    && Done(m0, m, blocks, k) && now == Remembered(dcs, nexts, |blocks|, blocks, k)
    && Coded(comps, dcs, nexts, s, pos, blocks, k, end)
  }

  lemma AllDone(m: seq<int>, m0: seq<int>, now: seq<int>, comps: seq<Comp>, dcs: seq<int>, nexts: seq<int>,
                s: seq<byte>, pos: nat, blocks: seq<seq<int>>, end: nat)
    requires |comps| == |nexts| == |dcs| && AllWithin(nexts, |blocks|)
    requires (forall c :: c in comps ==> c.Ok()) && forall b :: b in blocks ==> |b| == 64
    requires Standing(m, m0, now, comps, dcs, nexts, s, pos, blocks, |blocks|, end)
    ensures pos == end && |m| == |m0| && 64 * |blocks| <= |m| && forall k :: 0 <= k < |blocks| ==> m[64 * k..64 * k + 64] == blocks[k]
    ensures forall i :: 64 * |blocks| <= i < |m| ==> m[i] == m0[i]
    ensures now == Remembered(dcs, nexts, |blocks|, blocks, |blocks|)
  {
    hide Which, Remembered;
  }

  /** memset */
  method Clear(dct: array<int>, n: nat, scans: seq<Scan>, ghost comps: seq<Comp>)
    requires n <= dct.Length && |comps| == |scans|
    requires forall i :: 0 <= i < |scans| ==> scans[i].Decodes(comps[i]) && scans[i].Without(dct)
    modifies dct
    ensures forall i :: 0 <= i < |scans| ==> scans[i].Decodes(comps[i])
    ensures (forall i :: 0 <= i < n ==> dct[i] == 0) && forall i :: n <= i < dct.Length ==> dct[i] == old(dct[i])
  {
    hide Scan.Decodes;
    forall i | 0 <= i < n { dct[i] := 0; }
  }

  /** One block in one of the components; the tables of all stay as they are. */
  method DecodeIn(input: Reader, scans: seq<Scan>, sc: nat, dct: array<int>, at: nat,
                  ghost comps: seq<Comp>, ghost block: seq<int>, ghost end: nat) returns (max: nat)
    requires input.Valid() && sc < |scans| == |comps| && NoSharing(scans) && |block| == 64 && comps[sc].Ok()
    requires forall i :: 0 <= i < |scans| ==> scans[i].Decodes(comps[i]) && scans[i].Without(dct)
    requires BlockCoded(comps[sc], input.Stream(), input.pos, Dcs(scans)[sc], block, end)
    requires at + 64 <= dct.Length && forall i :: at <= i < at + 64 ==> dct[i] == 0
    modifies input, dct, scans
    ensures input.Valid() && input.start == old(input.start) && input.pos == end
    ensures forall i :: 0 <= i < |scans| ==> scans[i].Decodes(comps[i])
    ensures Dcs(scans) == old(Dcs(scans))[sc := block[0]]
    ensures dct[at..at+64] == block && forall i :: 0 <= i < dct.Length && !(at <= i < at + 64) ==> dct[i] == old(dct[i])
    ensures Bounds(max, block)
  {
    hide Scan.Decodes, BlockCoded, Bounds, Unstuff, HasMarker, Pow2;
    max := DecodeBlock(input, scans[sc], dct, at, comps[sc], block, end);
  }

  /** Block `k`, in the component that is on. */
  method DecodeNext(input: Reader, scans: seq<Scan>, sc: nat, dct: array<int>, k: nat, ghost comps: seq<Comp>,
                    ghost dcs: seq<int>, ghost nexts: seq<int>, ghost m0: seq<int>, ghost blocks: seq<seq<int>>, ghost end: nat)
    returns (max: nat)
    requires input.Valid() && |scans| == |comps| == |nexts| == |dcs| && NoSharing(scans)
    requires k < |blocks| && AllWithin(nexts, |blocks|) && sc == Which(nexts, |blocks|, k)
    requires (forall c :: c in comps ==> c.Ok()) && forall b :: b in blocks ==> |b| == 64
    requires forall i :: 0 <= i < |scans| ==> scans[i].Decodes(comps[i]) && scans[i].Without(dct)
    requires Standing(dct[..], m0, Dcs(scans), comps, dcs, nexts, input.Stream(), input.pos, blocks, k, end)
    modifies input, dct, scans
    ensures input.Valid() && input.start == old(input.start) && sc < |scans|
    ensures forall i :: 0 <= i < |scans| ==> scans[i].Decodes(comps[i])
    ensures Standing(dct[..], m0, Dcs(scans), comps, dcs, nexts, input.Stream(), input.pos, blocks, k + 1, end)
    ensures Bounds(max, blocks[k])
  {
    hide Scan.Decodes, Scan.Without, BlockCoded, Bounds, Unstuff, HasMarker, Pow2, Standing, Comp.Ok, Which, AllWithin, Coded, Dcs, NoSharing;
    ghost var m, before, s, pos := dct[..], Dcs(scans), input.Stream(), input.pos;
    ghost var mid := FirstBlock(m, m0, before, comps, dcs, nexts, input.Stream(), input.pos, blocks, k, end);
    max := DecodeIn(input, scans, sc, dct, 64 * k, comps, blocks[k], mid);
    BlockInPlace(m, dct[..], m0, Dcs(scans), before, comps, dcs, nexts, input.Stream(), mid, s, pos, blocks, k, end);
  }

  /** The first `k` blocks are in place, and there are zeros where the others go. */
  ghost predicate Done(m0: seq<int>, m: seq<int>, blocks: seq<seq<int>>, k: nat) {
    && |m| == |m0| && 64 * |blocks| <= |m| && k <= |blocks|
    && (forall j :: 0 <= j < k ==> m[64 * j..64 * j + 64] == blocks[j])
    && (forall i :: 64 * k <= i < 64 * |blocks| ==> m[i] == 0)
    && (forall i :: 64 * |blocks| <= i < |m| ==> m[i] == m0[i])
  }

  lemma DoneMeans(m0: seq<int>, m: seq<int>, blocks: seq<seq<int>>, k: nat)
    requires Done(m0, m, blocks, k)
    ensures |m| == |m0| && 64 * |blocks| <= |m| && (forall j :: 0 <= j < k ==> m[64 * j..64 * j + 64] == blocks[j])
    ensures k < |blocks| ==> forall i :: 64 * k <= i < 64 * k + 64 ==> m[i] == 0
    ensures forall i :: 64 * |blocks| <= i < |m| ==> m[i] == m0[i]
  {}

  lemma DoneMore(m0: seq<int>, m: seq<int>, m': seq<int>, blocks: seq<seq<int>>, k: nat)
    requires Done(m0, m, blocks, k) && k < |blocks| && |m'| == |m| && m'[64 * k..64 * k + 64] == blocks[k]
    requires forall i :: 0 <= i < |m| && !(64 * k <= i < 64 * k + 64) ==> m'[i] == m[i]
    ensures Done(m0, m', blocks, k + 1)
  {
    forall j | 0 <= j < k ensures m'[64 * j..64 * j + 64] == blocks[j] {
      assert m'[64 * j..64 * j + 64] == m[64 * j..64 * j + 64];
    }
  }

  lemma NextAt(scans: seq<Scan>, i: nat)
    requires i < |scans|
    ensures Nexts(scans)[i] == scans[i].next
  {}

  lemma FirstState(m: seq<int>, m0: seq<int>, comps: seq<Comp>, dcs: seq<int>, nexts: seq<int>,
                   s: seq<byte>, pos: nat, blocks: seq<seq<int>>, end: nat)
    requires |comps| == |nexts| == |dcs| && AllWithin(nexts, |blocks|)
    requires (forall c :: c in comps ==> c.Ok()) && forall b :: b in blocks ==> |b| == 64
    requires |m| == |m0| && 64 * |blocks| <= |m| && Coded(comps, dcs, nexts, s, pos, blocks, 0, end)
    requires (forall i :: 0 <= i < 64 * |blocks| ==> m[i] == 0) && forall i :: 64 * |blocks| <= i < |m| ==> m[i] == m0[i]
    ensures Which(nexts, |blocks|, 0) == 0 && Standing(m, m0, dcs, comps, dcs, nexts, s, pos, blocks, 0, end)
  {
    hide Coded;
  }

  lemma NextState(nexts: seq<int>, n: nat, k: nat)
    requires k < n && AllWithin(nexts, n)
    ensures var w := Which(nexts, n, k);
            w < |nexts| && Which(nexts, n, k + 1) == if n - (k + 1) == nexts[w] then w + 1 else w
  {}

  predicate Bounds(max: nat, block: seq<int>) { 1 <= max <= 64 == |block| && block[max..] == Zeros(64 - max) }

  predicate NoSharing(scans: seq<Scan>) { forall i, j :: 0 <= i < j < |scans| ==> scans[i] != scans[j] }

  lemma FirstBlock(m: seq<int>, m0: seq<int>, now: seq<int>, comps: seq<Comp>, dcs: seq<int>, nexts: seq<int>,
                   s: seq<byte>, pos: nat, blocks: seq<seq<int>>, k: nat, end: nat) returns (mid: nat)
    requires |comps| == |nexts| == |dcs| && k < |blocks| && AllWithin(nexts, |blocks|)
    requires (forall c :: c in comps ==> c.Ok()) && forall b :: b in blocks ==> |b| == 64
    requires Standing(m, m0, now, comps, dcs, nexts, s, pos, blocks, k, end)
    ensures var w := Which(nexts, |blocks|, k);
            w < |comps| == |now| && comps[w].Ok() && |blocks[k]| == 64 && BlockCoded(comps[w], s, pos, now[w], blocks[k], mid)
    ensures Coded(comps, dcs, nexts, s, mid, blocks, k + 1, end)
    ensures 64 * k + 64 <= |m| && forall i :: 64 * k <= i < 64 * k + 64 ==> m[i] == 0
  {
    hide Which, BlockCoded, Remembered, Comp.Ok;
    assert comps[Which(nexts, |blocks|, k)] in comps && blocks[k] in blocks;
    DoneMeans(m0, m, blocks, k);
    mid :| BlockAt(comps, dcs, nexts, s, pos, blocks, k, mid) && Coded(comps, dcs, nexts, s, mid, blocks, k + 1, end);
  }

  lemma BlockInPlace(m: seq<int>, m': seq<int>, m0: seq<int>, now: seq<int>, before: seq<int>, comps: seq<Comp>, dcs: seq<int>, nexts: seq<int>,
                     s: seq<byte>, pos: nat, s0: seq<byte>, pos0: nat, blocks: seq<seq<int>>, k: nat, end: nat)
    requires |comps| == |nexts| == |dcs| && k < |blocks| && AllWithin(nexts, |blocks|)
    requires (forall c :: c in comps ==> c.Ok()) && forall b :: b in blocks ==> |b| == 64
    requires Standing(m, m0, before, comps, dcs, nexts, s0, pos0, blocks, k, end)
    requires Coded(comps, dcs, nexts, s, pos, blocks, k + 1, end)
    requires |m'| == |m| && 64 * k + 64 <= |m| && m'[64 * k..64 * k + 64] == blocks[k]
    requires forall i :: 0 <= i < |m| && !(64 * k <= i < 64 * k + 64) ==> m'[i] == m[i]
    requires var w := Which(nexts, |blocks|, k); w < |before| && |blocks[k]| == 64 && now == before[w := blocks[k][0]]
    ensures Standing(m', m0, now, comps, dcs, nexts, s, pos, blocks, k + 1, end)
  {
    hide Which, Coded, Comp.Ok, AllWithin;
    DoneMore(m0, m, m', blocks, k);
  }

  function Nexts(scans: seq<Scan>): (r: seq<int>)
    ensures |r| == |scans|
  {
    seq(|scans|, i requires 0 <= i < |scans| => scans[i].next)
  }

  function Dcs(scans: seq<Scan>): (r: seq<int>)
    reads scans
    ensures |r| == |scans|
  {
    seq(|scans|, i requires 0 <= i < |scans| reads scans => scans[i].dc)
  }
}

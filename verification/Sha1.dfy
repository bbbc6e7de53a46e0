// SHA-1 as src/sha1.c computes it, against RFC 3174.

module Sha1 {
  import opened Arith

  // ---- RFC 3174 ----

  type word = x: int | 0 <= x < TWO32
  type byte = x: int | 0 <= x < 0x100

  /** Operations on words, section 3 */
  function And(x: bv32, y: bv32): bv32 { x & y }
  function Or(x: bv32, y: bv32): bv32 { x | y }
  function Xor(x: bv32, y: bv32): bv32 { x ^ y }
  function Not(x: bv32): bv32 { !x }
  function Plus(x: bv32, y: bv32): bv32 { x + y }

  /** S^n(X) of section 3 */
  function Rol(x: bv32, n: bv8): bv32
    requires n < 32
  {
    (x << n) | (x >> (32 - n))
  }

  datatype Five = Five(a: bv32, b: bv32, c: bv32, d: bv32, e: bv32)

  /** The big-endian number at byte i. */
  function BigEndian(block: seq<byte>, i: nat): word
    requires i + 4 <= |block|
  {
    0x100_0000 * (block[i] as int) + 0x1_0000 * (block[i+1] as int) + 0x100 * (block[i+2] as int) + (block[i+3] as int)
  }

  function Octet(b: byte): bv32 { b as bv32 }

  /** Words to compute with, from big-endian bytes and back. */
  function Load(block: seq<byte>, i: nat): bv32
    requires i + 4 <= |block|
  {
    (Octet(block[i]) << 24) | (Octet(block[i+1]) << 16) | (Octet(block[i+2]) << 8) | Octet(block[i+3])
  }

  function Store(x: bv32): (r: seq<byte>)
    ensures |r| == 4
  {
    WordBytes(x as int)
  }

  /** f(t;B,C,D) of section 5 */
  function F(t: nat, b: bv32, c: bv32, d: bv32): bv32 {
    if t <= 19 then Or(And(b, c), And(Not(b), d))
    else if t <= 39 then Xor(Xor(b, c), d)
    else if t <= 59 then Or(Or(And(b, c), And(b, d)), And(c, d))
    else Xor(Xor(b, c), d)
  }

  /** K(t) of section 5 */
  function K(t: nat): bv32 {
    if t <= 19 then 0x5A827999 else if t <= 39 then 0x6ED9EBA1 else if t <= 59 then 0x8F1BBCDC else 0xCA62C1D6
  }

  /** W(t) of section 6.1, steps a and b */
  function W(block: seq<byte>, t: nat): bv32
    requires |block| == 64 && t < 80
  {
    if t < 16 then Load(block, 4 * t)
    else Rol(Xor(Xor(Xor(W(block, t - 3), W(block, t - 8)), W(block, t - 14)), W(block, t - 16)), 1)
  }

  /** Step d for one t; the sum is modulo 2^32, so its order does not matter. */
  function Round(s: Five, t: nat, w: bv32): Five {
    Five(Plus(Plus(Plus(Plus(Rol(s.a, 5), F(t, s.b, s.c, s.d)), s.e), K(t)), w), s.a, Rol(s.b, 30), s.c, s.d)
  }

  /** The first n rounds */
  function Rounds(s: Five, block: seq<byte>, n: nat): Five
    requires |block| == 64 && n <= 80
  {
    if n == 0 then s else Round(Rounds(s, block, n - 1), n - 1, W(block, n - 1))
  }

  /** Step e */
  function Compress(s: Five, block: seq<byte>): Five
    requires |block| == 64
  {
    var r := Rounds(s, block, 80);
    Five(Plus(s.a, r.a), Plus(s.b, r.b), Plus(s.c, r.c), Plus(s.d, r.d), Plus(s.e, r.e))
  }

  /** All blocks of a padded message in order */
  function Process(s: Five, m: seq<byte>): Five
    requires |m| % 64 == 0
  {
    if m == [] then s else Compress(Process(s, m[..|m|-64]), m[|m|-64..])
  }

  const INITIAL := Five(0x67452301, 0xEFCDAB89, 0x98BADCFE, 0x10325476, 0xC3D2E1F0)

  function Zeros(n: nat): seq<byte> { seq(n, i => 0) }

  /** The 64-bit length field: two big-endian words. */
  function Field(l: nat): (f: seq<byte>)
    ensures |f| == 8
  {
    WordBytes(l / TWO32 % TWO32) + WordBytes(l % TWO32)
  }

  /** Section 4: a one bit, as few zeros as fill up a block, and the length in bits. */
  function Padded(m: seq<byte>, bits: nat): (p: seq<byte>)
    ensures |p| % 64 == 0
  {
    m + [0x80] + Zeros((55 - |m|) % 64) + Field(bits)
  }

  function WordBytes(x: word): (r: seq<byte>)
    ensures |r| == 4
  {
    [x / 0x100_0000, x / 0x1_0000 % 0x100, x / 0x100 % 0x100, x % 0x100]
  }

  function Bytes(s: Five): (r: seq<byte>)
    ensures |r| == 20
  {
    Store(s.a) + Store(s.b) + Store(s.c) + Store(s.d) + Store(s.e)
  }

  /** The message digest. */
  function Digest(m: seq<byte>): seq<byte> { Bytes(Process(INITIAL, Padded(m, 8 * |m|))) }

  // ---- The code ----

  function State(h: seq<bv32>): Five
    requires |h| == 5
  {
    Five(h[0], h[1], h[2], h[3], h[4])
  }

  const SHA_KO: seq<bv32> := [0x5a827999, 0x6ed9eba1, 0x8f1bbcdc, 0xca62c1d6]

  lemma InvertedIsNot(b: bv32)
    ensures Xor(b, 0xffffffff) == Not(b)
  {}

  /** The first loops of sha1_block: byte order, then the message schedule. */
  method Schedule(block: seq<byte>, w: array<bv32>)
    requires |block| == 64 && w.Length == 80
    modifies w
    ensures forall j :: 0 <= j < 80 ==> w[j] == W(block, j)
  {
    hide Rol, Load, Xor;
    for i := 0 to 16
      invariant forall j :: 0 <= j < i ==> w[j] == W(block, j)
    {
      w[i] := Load(block, 4 * i);
    }
    for i := 16 to 80
      invariant forall j :: 0 <= j < i ==> w[j] == W(block, j)
    {
      var tmp := Xor(Xor(Xor(w[i-3], w[i-8]), w[i-14]), w[i-16]);
      w[i] := Rol(tmp, 1);
    }
  }

  /** The function and the constant of round i. */
  method Mix(i: nat, b: bv32, c: bv32, d: bv32) returns (f: bv32, idx: nat)
    requires i < 80
    ensures f == F(i, b, c, d) && idx < 4 && SHA_KO[idx] == K(i)
  {
    hide And, Or, Xor, Not;
    if i <= 19 {
      InvertedIsNot(b);
      f, idx := Or(And(b, c), And(Xor(b, 0xffffffff), d)), 0;
    } else if i <= 39 {
      f, idx := Xor(Xor(b, c), d), 1;
    } else if i <= 59 {
      f, idx := Or(Or(And(b, c), And(b, d)), And(c, d)), 2;
    } else {
      f, idx := Xor(Xor(b, c), d), 3;
    }
  }

  lemma RoundIs(s: Five, t: nat, w: bv32, f: bv32, k: bv32)
    requires f == F(t, s.b, s.c, s.d) && k == K(t)
    ensures Round(s, t, w) == Five(Plus(Plus(Plus(Plus(Rol(s.a, 5), f), s.e), k), w), s.a, Rol(s.b, 30), s.c, s.d)
  {
    hide F, K, Rol, Plus;
  }

  method Sha1Block(block: seq<byte>, w: array<bv32>, h: array<bv32>)
    requires |block| == 64 && w.Length == 80 && h.Length == 5 && w != h
    modifies w, h
    ensures State(h[..]) == Compress(old(State(h[..])), block)
  {
    hide Rol, Plus, F, K, W, Round;
    Schedule(block, w);
    var a, b, c, d, e := h[0], h[1], h[2], h[3], h[4];
    for i := 0 to 80
      invariant h[..] == old(h[..]) && forall j :: 0 <= j < 80 ==> w[j] == W(block, j)
      invariant Five(a, b, c, d, e) == Rounds(old(State(h[..])), block, i)
    {
      var f, idx := Mix(i, b, c, d);
      RoundIs(Five(a, b, c, d, e), i, w[i], f, SHA_KO[idx]);
      var tmp := Plus(Plus(Plus(Plus(Rol(a, 5), f), e), SHA_KO[idx]), w[i]);
      e := d;
      d := c;
      c := Rol(b, 30);
      b := a;
      a := tmp;
    }
    h[0] := Plus(h[0], a);
    h[1] := Plus(h[1], b);
    h[2] := Plus(h[2], c);
    h[3] := Plus(h[3], d);
    h[4] := Plus(h[4], e);
  }

  /** Copies `data` to the start of a block. */
  method Copy(block: array<byte>, data: seq<byte>)
    requires |data| <= block.Length
    modifies block
    ensures block[..] == data + old(block[|data|..])
  {
    for i := 0 to |data|
      invariant block[..i] == data[..i] && block[|data|..] == old(block[|data|..])
    {
      block[i] := data[i];
    }
  }

  lemma ProcessMore(s: Five, m: seq<byte>, block: seq<byte>)
    requires |m| % 64 == 0 && |block| == 64
    ensures Process(s, m + block) == Compress(Process(s, m), block)
  {
    assert (m + block)[..|m|] == m && (m + block)[|m|..] == block;
  }

  lemma ZerosSplit(a: nat, b: nat)
    ensures Zeros(a + b) == Zeros(a) + Zeros(b)
  {}

  /** How many zeros the padding has. */
  lemma Fill(n: nat, offset: nat)
    requires offset <= n < offset + 64 && offset % 64 == 0
    ensures (55 - n) % 64 == if n - offset >= 56 then 63 - (n - offset) + 56 else 55 - (n - offset)
  {
    assert n % 64 == n - offset;
  }

  /** The last block or blocks: what is left of the message, padded. */
  lemma LastBlocks(m: seq<byte>, offset: nat, bits: nat, one: seq<byte>, two: seq<byte>)
    requires offset <= |m| < offset + 64 && offset % 64 == 0
    requires var num := |m| - offset;
             if num >= 56 then one == m[offset..] + [0x80] + Zeros(63 - num) && two == Zeros(56) + Field(bits)
             else one == m[offset..] + [0x80] + Zeros(55 - num) + Field(bits) && two == []
    ensures Padded(m, bits) == m[..offset] + one + two
  {
    hide Zeros, Field;
    var num, zeros := |m| - offset, Zeros((55 - |m|) % 64);
    Fill(|m|, offset);
    var head, tail, field := m[..offset], m[offset..], Field(bits);
    assert m == head + tail;
    if num >= 56 {
      ZerosSplit(63 - num, 56);
      assert head + tail + [0x80] + (Zeros(63 - num) + Zeros(56)) + field == head + (tail + [0x80] + Zeros(63 - num)) + (Zeros(56) + field);
    } else {
      assert head + tail + [0x80] + zeros + field == head + (tail + [0x80] + zeros + field) + [];
    }
  }

  /** The state after the blocks made of the rest of the message and its padding. */
  function Last(s: Five, tail: seq<byte>, bits: nat): Five
    requires |tail| < 64
  {
    if |tail| >= 56 then Compress(Compress(s, tail + [0x80] + Zeros(63 - |tail|)), Zeros(56) + Field(bits))
    else Compress(s, tail + [0x80] + Zeros(55 - |tail|) + Field(bits))
  }

  lemma PaddedProcessed(m: seq<byte>, offset: nat, bits: nat)
    requires offset <= |m| < offset + 64 && offset % 64 == 0
    ensures Process(INITIAL, Padded(m, bits)) == Last(Process(INITIAL, m[..offset]), m[offset..], bits)
  {
    hide Compress, Process, Padded, Field;
    var tail := m[offset..];
    if |tail| >= 56 {
      var one, two := tail + [0x80] + Zeros(63 - |tail|), Zeros(56) + Field(bits);
      LastBlocks(m, offset, bits, one, two);
      ProcessMore(INITIAL, m[..offset], one);
      ProcessMore(INITIAL, m[..offset] + one, two);
    } else {
      var one := tail + [0x80] + Zeros(55 - |tail|) + Field(bits);
      LastBlocks(m, offset, bits, one, []);
      assert m[..offset] + one + [] == m[..offset] + one;
      ProcessMore(INITIAL, m[..offset], one);
    }
  }

  /** The end of sha1_do. */
  method Finish(h: array<bv32>, w: array<bv32>, block: array<byte>, tail: seq<byte>, bits: nat)
    requires h.Length == 5 && w.Length == 80 && block.Length == 64 && h != w && |tail| < 64
    requires block as object != h && block as object != w
    modifies h, w, block
    ensures State(h[..]) == Last(old(State(h[..])), tail, bits)
  {
    hide Compress, Field;
    var num := |tail|;
    Copy(block, tail);
    block[num] := 0x80;
    forall i | num < i < 64 {
      block[i] := 0;
    }
    if num >= 56 {
      assert block[..] == tail + [0x80] + Zeros(63 - num);
      Sha1Block(block[..], w, h);
      forall i | 0 <= i < 60 {
        block[i] := 0;
      }
    }
    var field := Field(bits);
    forall i | 0 <= i < 8 {
      block[56 + i] := field[i];
    }
    assert block[..] == if num >= 56 then Zeros(56) + field else tail + [0x80] + Zeros(55 - num) + field;
    Sha1Block(block[..], w, h);
  }

  lemma ProcessNext(m: seq<byte>, offset: nat)
    requires offset + 64 <= |m| && offset % 64 == 0
    ensures (offset + 64) % 64 == 0
    ensures Process(INITIAL, m[..offset+64]) == Compress(Process(INITIAL, m[..offset]), m[offset..offset+64])
  {
    hide Process, Compress;
    assert m[..offset+64] == m[..offset] + m[offset..offset+64];
    ProcessMore(INITIAL, m[..offset], m[offset..offset+64]);
  }

  /** The main loop of sha1_do. */
  method FullBlocks(h: array<bv32>, w: array<bv32>, block: array<byte>, data: seq<byte>) returns (offset: nat, bits: nat)
    requires h.Length == 5 && w.Length == 80 && block.Length == 64 && h != w
    requires block as object != h && block as object != w
    requires State(h[..]) == INITIAL
    modifies h, w, block
    ensures offset <= |data| < offset + 64 && offset % 64 == 0 && bits == 8 * offset % TWO32
    ensures State(h[..]) == Process(INITIAL, data[..offset])
  {
    hide Compress, Process;
    bits, offset := 0, 0;
    ProcessEmpty();
    assert data[..0] == [];
    while |data| - offset >= 64
      invariant 0 <= offset <= |data| && offset % 64 == 0
      invariant bits == 8 * offset % TWO32
      invariant State(h[..]) == Process(INITIAL, data[..offset])
    {
      Copy(block, data[offset..offset+64]);
      assert block[..] == data[offset..offset+64];
      Sha1Block(block[..], w, h);
      bits := (bits + 64 * 8) % TWO32;
      ProcessNext(data, offset);
      offset := offset + 64;
    }
  }

  /** sha1 with sha1_do: the length field has the number of bits modulo 2^32, so the digest is
      the one of RFC 3174 for messages below 2^29 bytes. */
  method Sha1(data: seq<byte>) returns (hash: seq<byte>)
    requires |data| < TWO32
    ensures hash == Bytes(Process(INITIAL, Padded(data, 8 * |data| % TWO32)))
    ensures |data| < 0x2000_0000 ==> hash == Digest(data)
  {
    hide Compress, Process, Padded, Field, Bytes, Last, Store;
    var h := new bv32[5] [0x67452301, 0xefcdab89, 0x98badcfe, 0x10325476, 0xc3d2e1f0];
    var w := new bv32[80];
    var block := new byte[64];
    var offset, bits := FullBlocks(h, w, block, data);
    bits := (bits + 8 * (|data| - offset)) % TWO32;
    PaddedProcessed(data, offset, bits);
    Finish(h, w, block, data[offset..], bits);
    BytesAre(State(h[..]));
    hash := Store(h[0]) + Store(h[1]) + Store(h[2]) + Store(h[3]) + Store(h[4]);
  }

  lemma ProcessEmpty()
    ensures Process(INITIAL, []) == INITIAL
  {}

  lemma BytesAre(s: Five)
    ensures Bytes(s) == Store(s.a) + Store(s.b) + Store(s.c) + Store(s.d) + Store(s.e)
  {}

  // ---- What the operations of RFC 3174 do to words ----

  /** The rotations in numbers: what is shifted out at the top comes in at the bottom. */
  lemma RotateIs(x: bv32)
    ensures Rol(x, 1) == x * 2 + x / 0x8000_0000
    ensures Rol(x, 5) == x * 0x20 + x / 0x800_0000
    ensures Rol(x, 30) == x * 0x4000_0000 + x / 4
  {
    RotateBy1(x);
    RotateBy5(x);
    RotateBy30(x);
    hide Rol;
  }

  lemma RotateBy1(x: bv32)
    ensures Rol(x, 1) == x * 2 + x / 0x8000_0000
  {}

  lemma RotateBy5(x: bv32)
    ensures Rol(x, 5) == x * 0x20 + x / 0x800_0000
  {}

  lemma RotateBy30(x: bv32)
    ensures Rol(x, 30) == x * 0x4000_0000 + x / 4
  {}

  /** The constants are the square roots of 2, 3, 5 and 10, as 30-bit fractions. */
  lemma RootConstants(t: nat)
    ensures var n := if t <= 19 then 2 else if t <= 39 then 3 else if t <= 59 then 5 else 10;
            var k := K(t) as int;
            k * k <= n * 0x1000_0000_0000_0000 < (k + 1) * (k + 1)
  {}

  /** The initial words, byte by byte. */
  lemma InitialBytes()
    ensures Bytes(INITIAL) == [0x67, 0x45, 0x23, 0x01, 0xEF, 0xCD, 0xAB, 0x89, 0x98, 0xBA,
                               0xDC, 0xFE, 0x10, 0x32, 0x54, 0x76, 0xC3, 0xD2, 0xE1, 0xF0]
  {}

  /** In the first twenty rounds each bit of B chooses between those of C and D. */
  lemma FirstChooses(t: nat, b: bv32, c: bv32, d: bv32)
    requires t <= 19
    ensures F(t, b, c, d) & b == c & b && F(t, b, c, d) & !b == d & !b
  {}

  /** In the third twenty each bit is what at least two of B, C and D have. */
  lemma ThirdIsMajority(t: nat, b: bv32, c: bv32, d: bv32)
    requires 40 <= t <= 59
    ensures (F(t, b, c, d) ^ b) & !(b ^ c) == 0 && (F(t, b, c, d) ^ d) & (b ^ c) == 0
  {}

  /** In the others it is their parity: 0 for zeros, and any bit flipped in one flips the result's. */
  lemma OthersAreParity(t: nat, b: bv32, c: bv32, d: bv32, m: bv32)
    requires 20 <= t <= 39 || 60 <= t
    ensures F(t, 0, 0, 0) == 0
    ensures F(t, b ^ m, c, d) == F(t, b, c, d) ^ m
    ensures F(t, b, c ^ m, d) == F(t, b, c, d) ^ m
    ensures F(t, b, c, d ^ m) == F(t, b, c, d) ^ m
  {
    hide F, Xor;
    OtherIs(t, 0, 0, 0);
    OtherIs(t, b, c, d);
    OtherIs(t, b ^ m, c, d);
    OtherIs(t, b, c ^ m, d);
    OtherIs(t, b, c, d ^ m);
    FlipOne(b, c, d, m);
  }

  lemma OtherIs(t: nat, b: bv32, c: bv32, d: bv32)
    requires 20 <= t <= 39 || 60 <= t
    ensures F(t, b, c, d) == Xor(Xor(b, c), d)
  {
    hide And, Or, Xor, Not;
  }

  lemma FlipOne(b: bv32, c: bv32, d: bv32, m: bv32)
    ensures Xor(Xor(0, 0), 0) == 0
    ensures Xor(Xor(b ^ m, c), d) == Xor(Xor(b, c), d) ^ m
    ensures Xor(Xor(b, c ^ m), d) == Xor(Xor(b, c), d) ^ m
    ensures Xor(Xor(b, c), d ^ m) == Xor(Xor(b, c), d) ^ m
  {}

  // ---- The first test of RFC 3174, section 7.3: the digest of "abc" ----

  lemma WordIs(block: seq<byte>, t: nat)
    requires |block| == 64 && 16 <= t < 80
    ensures W(block, t) == Rol(Xor(Xor(Xor(W(block, t - 3), W(block, t - 8)), W(block, t - 14)), W(block, t - 16)), 1)
  {}

  lemma RoundsNext(s: Five, block: seq<byte>, t: nat)
    requires |block| == 64 && t < 80
    ensures Rounds(s, block, t + 1) == Round(Rounds(s, block, t), t, W(block, t))
  {}

  /** Its one block: the message, a one bit, and its length of 24 bits. */
  ghost predicate AbcBlock(block: seq<byte>)
    requires |block| == 64
  {
    && block[0] == 0x61 && block[1] == 0x62 && block[2] == 0x63 && block[3] == 0x80 && block[63] == 24
    && forall i :: 4 <= i < 63 ==> block[i] == 0
  }

  lemma AbcWords0(block: seq<byte>)
    requires |block| == 64 && AbcBlock(block)
    ensures W(block, 0) == 0x61626380 && W(block, 1) == 0 && W(block, 2) == 0 && W(block, 3) == 0
    ensures W(block, 4) == 0 && W(block, 5) == 0 && W(block, 6) == 0 && W(block, 7) == 0
    ensures W(block, 8) == 0 && W(block, 9) == 0 && W(block, 10) == 0 && W(block, 11) == 0
    ensures W(block, 12) == 0 && W(block, 13) == 0 && W(block, 14) == 0 && W(block, 15) == 0x00000018
  {
    hide W, AbcBlock;
    forall t | 0 <= t < 16 ensures W(block, t) == if t == 0 then 0x61626380 else if t == 15 then 24 else 0 {
      AbcWord(block, t);
    }
  }

  lemma AbcWord(block: seq<byte>, t: nat)
    requires |block| == 64 && AbcBlock(block) && t < 16
    ensures W(block, t) == if t == 0 then 0x61626380 else if t == 15 then 24 else 0
  {
    hide Load;
    if t == 0 { LoadFirst(block); } else { LoadShort(block, 4 * t, block[4 * t + 3]); }
  }

  lemma LoadFirst(block: seq<byte>)
    requires |block| == 64 && block[0] == 0x61 && block[1] == 0x62 && block[2] == 0x63 && block[3] == 0x80
    ensures Load(block, 0) == 0x61626380
  {
    hide Octet;
    AbcOctets();
  }

  lemma LoadShort(block: seq<byte>, i: nat, b: byte)
    requires i + 4 <= |block| && block[i] == block[i+1] == block[i+2] == 0 && block[i+3] == b && (b == 0 || b == 24)
    ensures Load(block, i) == if b == 0 then 0 else 24
  {
    hide Octet;
    AbcOctets();
  }

  lemma AbcOctets()
    ensures Octet(0) == 0 && Octet(24) == 24 && Octet(0x61) == 0x61 && Octet(0x62) == 0x62 && Octet(0x63) == 0x63
    ensures Octet(0x80) == 0x80
  {}

  lemma AbcWords1(block: seq<byte>)
    requires |block| == 64 && AbcBlock(block)
    ensures W(block, 16) == 0xC2C4C700 && W(block, 17) == 0 && W(block, 18) == 0x00000030 && W(block, 19) == 0x85898E01
    ensures W(block, 20) == 0 && W(block, 21) == 0x00000060 && W(block, 22) == 0x0B131C03 && W(block, 23) == 0x00000030
    ensures W(block, 24) == 0x85898EC1 && W(block, 25) == 0x16263806 && W(block, 26) == 0 && W(block, 27) == 0x00000180
    ensures W(block, 28) == 0x2C4C700C && W(block, 29) == 0x000000F0 && W(block, 30) == 0x93AFB507 && W(block, 31) == 0x5898E048
  {
    hide W, AbcBlock;
    AbcWords0(block);
    WordIs(block, 16);
    WordIs(block, 17);
    WordIs(block, 18);
    WordIs(block, 19);
    WordIs(block, 20);
    WordIs(block, 21);
    WordIs(block, 22);
    WordIs(block, 23);
    WordIs(block, 24);
    WordIs(block, 25);
    WordIs(block, 26);
    WordIs(block, 27);
    WordIs(block, 28);
    WordIs(block, 29);
    WordIs(block, 30);
    WordIs(block, 31);
  }

  lemma AbcWords2(block: seq<byte>)
    requires |block| == 64 && AbcBlock(block)
    ensures W(block, 32) == 0x8E9A9202 && W(block, 33) == 0x00000600 && W(block, 34) == 0xB131C0F0 && W(block, 35) == 0x16263BC6
    ensures W(block, 36) == 0x4EBED41E && W(block, 37) == 0x626380A1 && W(block, 38) == 0x16263806 && W(block, 39) == 0x000018C0
    ensures W(block, 40) == 0xD2E138C4 && W(block, 41) == 0x00000F00 && W(block, 42) == 0x3AFB5079 && W(block, 43) == 0x898E04E5
    ensures W(block, 44) == 0xE2BA3C2B && W(block, 45) == 0x000060C0 && W(block, 46) == 0x053A37CD && W(block, 47) == 0x74458547
  {
    hide W, AbcBlock;
    AbcWords1(block);
    WordIs(block, 32);
    WordIs(block, 33);
    WordIs(block, 34);
    WordIs(block, 35);
    WordIs(block, 36);
    WordIs(block, 37);
    WordIs(block, 38);
    WordIs(block, 39);
    WordIs(block, 40);
    WordIs(block, 41);
    WordIs(block, 42);
    WordIs(block, 43);
    WordIs(block, 44);
    WordIs(block, 45);
    WordIs(block, 46);
    WordIs(block, 47);
  }

  lemma AbcWords3(block: seq<byte>)
    requires |block| == 64 && AbcBlock(block)
    ensures W(block, 48) == 0xDA9415ED && W(block, 49) == 0x26380A16 && W(block, 50) == 0x626383A1 && W(block, 51) == 0x4EBF54DE
    ensures W(block, 52) == 0x3835B44B && W(block, 53) == 0x0000F600 && W(block, 54) == 0x1E84C7A3 && W(block, 55) == 0x98E04D98
    ensures W(block, 56) == 0x651D16A0 && W(block, 57) == 0x62658CA1 && W(block, 58) == 0x458544D6 && W(block, 59) == 0x44584CB7
    ensures W(block, 60) == 0x7BA06619 && W(block, 61) == 0x6380AEA2 && W(block, 62) == 0x0AE55269 && W(block, 63) == 0x627B49A1
  {
    hide W, AbcBlock;
    AbcWords2(block);
    WordIs(block, 48);
    WordIs(block, 49);
    WordIs(block, 50);
    WordIs(block, 51);
    WordIs(block, 52);
    WordIs(block, 53);
    WordIs(block, 54);
    WordIs(block, 55);
    WordIs(block, 56);
    WordIs(block, 57);
    WordIs(block, 58);
    WordIs(block, 59);
    WordIs(block, 60);
    WordIs(block, 61);
    WordIs(block, 62);
    WordIs(block, 63);
  }

  lemma AbcWords4(block: seq<byte>)
    requires |block| == 64 && AbcBlock(block)
    ensures W(block, 64) == 0x7CD45C9D && W(block, 65) == 0x000F0000 && W(block, 66) == 0xFB50753A && W(block, 67) == 0xEC6765E8
    ensures W(block, 68) == 0xBA3C2BE2 && W(block, 69) == 0x0060C000 && W(block, 70) == 0x3A37CD05 && W(block, 71) == 0x458546F4
    ensures W(block, 72) == 0xB8599DD6 && W(block, 73) == 0x380A1A26 && W(block, 74) == 0x01E02203 && W(block, 75) == 0xE7CC3456
    ensures W(block, 76) == 0xE6E60B69 && W(block, 77) == 0x00F60A00 && W(block, 78) == 0x5795EF4F && W(block, 79) == 0x822E0879
  {
    hide W, AbcBlock;
    AbcWords3(block);
    WordIs(block, 64);
    WordIs(block, 65);
    WordIs(block, 66);
    WordIs(block, 67);
    WordIs(block, 68);
    WordIs(block, 69);
    WordIs(block, 70);
    WordIs(block, 71);
    WordIs(block, 72);
    WordIs(block, 73);
    WordIs(block, 74);
    WordIs(block, 75);
    WordIs(block, 76);
    WordIs(block, 77);
    WordIs(block, 78);
    WordIs(block, 79);
  }

  lemma RoundsNone(block: seq<byte>)
    requires |block| == 64
    ensures Rounds(INITIAL, block, 0) == INITIAL
  {}

  lemma AbcRounds10(block: seq<byte>)
    requires |block| == 64 && AbcBlock(block)
    ensures Rounds(INITIAL, block, 10) == Five(0x8351F929, 0x4B6AE328, 0x27A301F5, 0x664F8C30, 0x0FF1F290)
  {
    hide W, Rounds, AbcBlock;
    RoundsNone(block);
    AbcWords0(block);
    RoundsNext(INITIAL, block, 0);
    RoundsNext(INITIAL, block, 1);
    RoundsNext(INITIAL, block, 2);
    RoundsNext(INITIAL, block, 3);
    RoundsNext(INITIAL, block, 4);
    RoundsNext(INITIAL, block, 5);
    RoundsNext(INITIAL, block, 6);
    RoundsNext(INITIAL, block, 7);
    RoundsNext(INITIAL, block, 8);
    RoundsNext(INITIAL, block, 9);
  }

  lemma AbcRounds20(block: seq<byte>)
    requires |block| == 64 && AbcBlock(block)
    ensures Rounds(INITIAL, block, 20) == Five(0xFD9E1D7D, 0xDC64901D, 0x20AA99CA, 0xD3A49608, 0xC82F758B)
  {
    hide W, Rounds, AbcBlock;
    AbcRounds10(block);
    AbcWords0(block);
    AbcWords1(block);
    RoundsNext(INITIAL, block, 10);
    RoundsNext(INITIAL, block, 11);
    RoundsNext(INITIAL, block, 12);
    RoundsNext(INITIAL, block, 13);
    RoundsNext(INITIAL, block, 14);
    RoundsNext(INITIAL, block, 15);
    RoundsNext(INITIAL, block, 16);
    RoundsNext(INITIAL, block, 17);
    RoundsNext(INITIAL, block, 18);
    RoundsNext(INITIAL, block, 19);
  }

  lemma AbcRounds30(block: seq<byte>)
    requires |block| == 64 && AbcBlock(block)
    ensures Rounds(INITIAL, block, 30) == Five(0xC5FBAF5D, 0x8370B52E, 0xD2AA1365, 0x6F8D7EF5, 0x12104EE9)
  {
    hide W, Rounds, AbcBlock;
    AbcRounds20(block);
    AbcWords1(block);
    RoundsNext(INITIAL, block, 20);
    RoundsNext(INITIAL, block, 21);
    RoundsNext(INITIAL, block, 22);
    RoundsNext(INITIAL, block, 23);
    RoundsNext(INITIAL, block, 24);
    RoundsNext(INITIAL, block, 25);
    RoundsNext(INITIAL, block, 26);
    RoundsNext(INITIAL, block, 27);
    RoundsNext(INITIAL, block, 28);
    RoundsNext(INITIAL, block, 29);
  }

  lemma AbcRounds40(block: seq<byte>)
    requires |block| == 64 && AbcBlock(block)
    ensures Rounds(INITIAL, block, 40) == Five(0x32DE1CBA, 0x4C986405, 0xF718E5CF, 0x03D447F6, 0xF72EEC32)
  {
    hide W, Rounds, AbcBlock;
    AbcRounds30(block);
    AbcWords1(block);
    AbcWords2(block);
    RoundsNext(INITIAL, block, 30);
    RoundsNext(INITIAL, block, 31);
    RoundsNext(INITIAL, block, 32);
    RoundsNext(INITIAL, block, 33);
    RoundsNext(INITIAL, block, 34);
    RoundsNext(INITIAL, block, 35);
    RoundsNext(INITIAL, block, 36);
    RoundsNext(INITIAL, block, 37);
    RoundsNext(INITIAL, block, 38);
    RoundsNext(INITIAL, block, 39);
  }

  lemma AbcRounds50(block: seq<byte>)
    requires |block| == 64 && AbcBlock(block)
    ensures Rounds(INITIAL, block, 50) == Five(0x120731C5, 0xBAF39337, 0xAFAB40B2, 0x2806E11B, 0x8714787C)
  {
    hide W, Rounds, AbcBlock;
    AbcRounds40(block);
    AbcWords2(block);
    AbcWords3(block);
    RoundsNext(INITIAL, block, 40);
    RoundsNext(INITIAL, block, 41);
    RoundsNext(INITIAL, block, 42);
    RoundsNext(INITIAL, block, 43);
    RoundsNext(INITIAL, block, 44);
    RoundsNext(INITIAL, block, 45);
    RoundsNext(INITIAL, block, 46);
    RoundsNext(INITIAL, block, 47);
    RoundsNext(INITIAL, block, 48);
    RoundsNext(INITIAL, block, 49);
  }

  lemma AbcRounds60(block: seq<byte>)
    requires |block| == 64 && AbcBlock(block)
    ensures Rounds(INITIAL, block, 60) == Five(0x3F52DE5A, 0x09D785FD, 0x3498BFD4, 0xF211824F, 0xD79915AB)
  {
    hide W, Rounds, AbcBlock;
    AbcRounds50(block);
    AbcWords3(block);
    RoundsNext(INITIAL, block, 50);
    RoundsNext(INITIAL, block, 51);
    RoundsNext(INITIAL, block, 52);
    RoundsNext(INITIAL, block, 53);
    RoundsNext(INITIAL, block, 54);
    RoundsNext(INITIAL, block, 55);
    RoundsNext(INITIAL, block, 56);
    RoundsNext(INITIAL, block, 57);
    RoundsNext(INITIAL, block, 58);
    RoundsNext(INITIAL, block, 59);
  }

  lemma AbcRounds70(block: seq<byte>)
    requires |block| == 64 && AbcBlock(block)
    ensures Rounds(INITIAL, block, 70) == Five(0x3F2588C2, 0x497093C0, 0xDE37534A, 0x030F7CAD, 0x4405957E)
  {
    hide W, Rounds, AbcBlock;
    AbcRounds60(block);
    AbcWords3(block);
    AbcWords4(block);
    RoundsNext(INITIAL, block, 60);
    RoundsNext(INITIAL, block, 61);
    RoundsNext(INITIAL, block, 62);
    RoundsNext(INITIAL, block, 63);
    RoundsNext(INITIAL, block, 64);
    RoundsNext(INITIAL, block, 65);
    RoundsNext(INITIAL, block, 66);
    RoundsNext(INITIAL, block, 67);
    RoundsNext(INITIAL, block, 68);
    RoundsNext(INITIAL, block, 69);
  }

  lemma AbcRounds80(block: seq<byte>)
    requires |block| == 64 && AbcBlock(block)
    ensures Rounds(INITIAL, block, 80) == Five(0x42541B35, 0x5738D5E1, 0x21834873, 0x681E6DF6, 0xD8FDF6AD)
  {
    hide W, Rounds, AbcBlock;
    AbcRounds70(block);
    AbcWords4(block);
    RoundsNext(INITIAL, block, 70);
    RoundsNext(INITIAL, block, 71);
    RoundsNext(INITIAL, block, 72);
    RoundsNext(INITIAL, block, 73);
    RoundsNext(INITIAL, block, 74);
    RoundsNext(INITIAL, block, 75);
    RoundsNext(INITIAL, block, 76);
    RoundsNext(INITIAL, block, 77);
    RoundsNext(INITIAL, block, 78);
    RoundsNext(INITIAL, block, 79);
  }

  lemma AbcPadded(m: seq<byte>)
    requires m == [0x61, 0x62, 0x63]
    ensures |Padded(m, 24)| == 64 && AbcBlock(Padded(m, 24))
  {
    assert Field(24) == [0, 0, 0, 0, 0, 0, 0, 24];
  }

  lemma AbcCompressed(block: seq<byte>)
    requires |block| == 64 && AbcBlock(block)
    ensures Compress(INITIAL, block) == Five(0xA9993E36, 0x4706816A, 0xBA3E2571, 0x7850C26C, 0x9CD0D89D)
  {
    hide Rounds, AbcBlock;
    AbcRounds80(block);
  }

  lemma SingleBlock(block: seq<byte>)
    requires |block| == 64
    ensures Process(INITIAL, block) == Compress(INITIAL, block)
  {
    hide Compress;
    ProcessEmpty();
    assert block[..0] == [] && block[0..] == block;
  }

  lemma AbcBytes()
    ensures Bytes(Five(0xA9993E36, 0x4706816A, 0xBA3E2571, 0x7850C26C, 0x9CD0D89D))
            == [0xA9, 0x99, 0x3E, 0x36, 0x47, 0x06, 0x81, 0x6A, 0xBA, 0x3E,
                0x25, 0x71, 0x78, 0x50, 0xC2, 0x6C, 0x9C, 0xD0, 0xD8, 0x9D]
  {}

  /** The digest of "abc". */
  lemma AbcDigest()
    ensures Digest([0x61, 0x62, 0x63])
            == [0xA9, 0x99, 0x3E, 0x36, 0x47, 0x06, 0x81, 0x6A, 0xBA, 0x3E,
                0x25, 0x71, 0x78, 0x50, 0xC2, 0x6C, 0x9C, 0xD0, 0xD8, 0x9D]
  {
    hide Padded, Compress, Process, Bytes, AbcBlock;
    var m: seq<byte> := [0x61, 0x62, 0x63];
    AbcPadded(m);
    AbcCompressed(Padded(m, 24));
    SingleBlock(Padded(m, 24));
    AbcBytes();
  }
}

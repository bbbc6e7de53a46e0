// A JPEG entropy-coded segment as an endless stream of bits: the bytes of the segment with
// their stuffing removed, then zeros.

module BitStream {
  import opened Arith

  type byte = x: int | 0 <= x < 256

  /** Bit `k` of the stream, most significant bit of each byte first. */
  function Bit(s: seq<byte>, k: nat): nat {
    if k / 8 < |s| then s[k / 8] / Pow2(7 - k % 8) % 2 else 0
  }

  /** The number spelled by the `n` bits from `k` on. */
  function Peek(s: seq<byte>, k: nat, n: nat): nat {
    if n == 0 then 0 else 2 * Peek(s, k, n - 1) + Bit(s, k + n - 1)
  }

  lemma {:induction false} PeekBound(s: seq<byte>, k: nat, n: nat)
    ensures Peek(s, k, n) < Pow2(n)
  {
    if n > 0 { PeekBound(s, k, n - 1); }
  }

  lemma {:induction false} PeekSplit(s: seq<byte>, k: nat, a: nat, b: nat)
    ensures Peek(s, k, a + b) == Peek(s, k, a) * Pow2(b) + Peek(s, k + a, b)
  {
    hide Bit;
    if b > 0 {
      PeekSplit(s, k, a, b - 1);
      var hi, p, lo, bit := Peek(s, k, a), Pow2(b - 1), Peek(s, k + a, b - 1), Bit(s, k + a + b - 1);
      Shift(hi, p, lo, bit);
    }
  }

  lemma Shift(hi: int, p: int, lo: int, bit: int)
    ensures 2 * (hi * p + lo) + bit == hi * (2 * p) + (2 * lo + bit)
  {}

  lemma PeekParts(s: seq<byte>, k: nat, a: nat, b: nat)
    ensures Peek(s, k, a + b) / Pow2(b) == Peek(s, k, a)
    ensures Peek(s, k, a + b) % Pow2(b) == Peek(s, k + a, b)
  {
    PeekSplit(s, k, a, b);
    PeekBound(s, k + a, b);
    DivMod(Peek(s, k, a + b), Peek(s, k, a), Pow2(b), Peek(s, k + a, b));
  }

  /** A register whose low `w` bits are stream bits, less the highest of them. */
  lemma Narrow(x: int, s: seq<byte>, k: nat, w: nat, n: nat)
    requires n <= w && x % Pow2(w) == Peek(s, k, w)
    ensures x % Pow2(n) == Peek(s, k + w - n, n)
  {
    hide Pow2, Peek;
    Pow2Add(w - n, n);
    Middle(x, Pow2(w - n), Pow2(n));
    PeekParts(s, k, w - n, n);
  }

  /** `n` bits out of the middle of such a register: bi >> low & ((1 << n) - 1). */
  lemma Extract(x: int, s: seq<byte>, k: nat, n: nat, low: nat)
    requires x % Pow2(n + low) == Peek(s, k, n + low)
    ensures x / Pow2(low) % Pow2(n) == Peek(s, k, n)
  {
    hide Pow2, Peek;
    Pow2Add(n, low);
    Middle(x, Pow2(n), Pow2(low));
    PeekParts(s, k, n, low);
  }

  lemma Cut32(x: int, w: nat)
    requires w <= 32
    ensures x % TWO32 % Pow2(w) == x % Pow2(w)
  {
    hide Pow2;
    Pow2Values();
    Pow2Add(32 - w, w);
    Middle(x, Pow2(32 - w), Pow2(w));
  }

  /** Fetching `n` more bits: bi << n | v, cut to 32 bits. */
  lemma Append(x: int, s: seq<byte>, k: nat, w: nat, n: nat, v: nat)
    requires w + n <= 32 && x % Pow2(w) == Peek(s, k, w) && v == Peek(s, k + w, n)
    ensures (x * Pow2(n) + v) % TWO32 % Pow2(w + n) == Peek(s, k, w + n)
  {
    hide Pow2, Peek;
    Cut32(x * Pow2(n) + v, w + n);
    PeekSplit(s, k, w, n);
    PeekBound(s, k, w + n);
    Pow2Add(w, n);
    AppendCore(x, Pow2(w), Pow2(n), Pow2(w + n), Peek(s, k, w), v, Peek(s, k, w + n));
  }

  lemma AppendCore(x: int, pw: int, pn: int, pwn: int, r: int, v: int, t: int)
    requires pw > 0 && pwn > 0 && pwn == pw * pn && r == x % pw && t == r * pn + v && 0 <= t < pwn
    ensures (x * pn + v) % pwn == t
  {
    var q := x / pw;
    assert x == q * pw + r;
    Regroup2(x, q, pw, pn, r, v);
    DivMod(x * pn + v, q, pwn, t);
  }

  lemma Regroup2(x: int, q: int, pw: int, pn: int, r: int, v: int)
    requires x == q * pw + r
    ensures x * pn + v == q * (pw * pn) + (r * pn + v)
  {
    assert q * pw * pn == q * (pw * pn);
  }

  /** A whole byte of the stream. */
  lemma PeekByte(s: seq<byte>, j: nat)
    ensures Peek(s, 8 * j, 8) == if j < |s| then s[j] else 0
  {
    var b := if j < |s| then s[j] else 0;
    PeekOfByte(s, j, b, 8);
  }

  lemma {:induction false} PeekOfByte(s: seq<byte>, j: nat, b: byte, n: nat)
    requires n <= 8 && b == (if j < |s| then s[j] else 0)
    ensures Peek(s, 8 * j, n) == b / Pow2(8 - n)
  {
    if n == 0 {
      assert Pow2(8) == 256;
    } else {
      PeekOfByte(s, j, b, n - 1);
      var k := 8 * j + n - 1;
      assert k / 8 == j && k % 8 == n - 1;
      assert Bit(s, k) == b / Pow2(8 - n) % 2;
      assert Pow2(8 - (n - 1)) == 2 * Pow2(8 - n);
      HalfOf(b, Pow2(8 - n));
    }
  }

  lemma HalfOf(x: nat, m: nat)
    requires m > 0
    ensures x / m == 2 * (x / (2 * m)) + x / m % 2
  {
    var q, r := x / m, x % m;
    assert x == (q / 2 * 2 + q % 2) * m + r;
    assert x == q / 2 * (2 * m) + (q % 2 * m + r);
    DivMod(x, q / 2, 2 * m, q % 2 * m + r);
  }

  /** Past the last byte the stream is zero. */
  lemma {:induction false} PeekEnd(s: seq<byte>, k: nat, n: nat)
    requires 8 * |s| <= k
    ensures Peek(s, k, n) == 0
  {
    if n > 0 { PeekEnd(s, k, n - 1); }
  }

  // ---- Byte stuffing ----

  /** From `p` on, the data reaches a marker: 0xff and then a byte other than 0. */
  predicate HasMarker(data: seq<byte>, p: nat)
    decreases |data| - p
  {
    p < |data| &&
    if data[p] != 0xff then HasMarker(data, p + 1)
    else p + 1 < |data| && (data[p+1] != 0 || HasMarker(data, p + 2))
  }

  /** The data bytes from `p` up to the marker: ff 00 stands for ff. */
  function Unstuff(data: seq<byte>, p: nat): seq<byte>
    requires HasMarker(data, p)
    decreases |data| - p
  {
    if data[p] != 0xff then [data[p]] + Unstuff(data, p + 1)
    else if data[p+1] == 0 then [0xff] + Unstuff(data, p + 2)
    else []
  }

  function MarkerOf(data: seq<byte>, p: nat): byte
    requires HasMarker(data, p)
    decreases |data| - p
  {
    if data[p] != 0xff then MarkerOf(data, p + 1)
    else if data[p+1] == 0 then MarkerOf(data, p + 2)
    else data[p+1]
  }

  /** Where the data goes on after the marker. */
  function AfterMarker(data: seq<byte>, p: nat): nat
    requires HasMarker(data, p)
    decreases |data| - p
  {
    if data[p] != 0xff then AfterMarker(data, p + 1)
    else if data[p+1] == 0 then AfterMarker(data, p + 2)
    else p + 2
  }

  /** What an encoder writes for the bytes `s`. */
  function Stuff(s: seq<byte>): seq<byte> {
    if s == [] then [] else (if s[0] == 0xff then [0xff, 0] else [s[0]]) + Stuff(s[1..])
  }

  /** Reading undoes stuffing, wherever in memory the segment lies. */
  lemma {:induction false} UnstuffStuff(before: seq<byte>, s: seq<byte>, m: byte, rest: seq<byte>)
    requires m != 0
    ensures var data := before + Stuff(s) + [0xff, m] + rest;
            && HasMarker(data, |before|) && Unstuff(data, |before|) == s
            && MarkerOf(data, |before|) == m && AfterMarker(data, |before|) == |before + Stuff(s)| + 2
    decreases s
  {
    var data := before + Stuff(s) + [0xff, m] + rest;
    var p := |before|;
    if s == [] {
      assert data[p] == 0xff && data[p+1] == m;
    } else {
      var head: seq<byte> := if s[0] == 0xff then [0xff, 0] else [s[0]];
      assert data == before + head + Stuff(s[1..]) + [0xff, m] + rest;
      UnstuffStuff(before + head, s[1..], m, rest);
      assert data[p] == s[0] && (s[0] == 0xff ==> data[p+1] == 0);
    }
  }

  /** ff 00 is read as ff, any other byte as itself, and ff with another byte behind it ends the data. */
  lemma UnstuffNext(data: seq<byte>, p: nat)
    requires HasMarker(data, p)
    ensures p < |data| && (data[p] == 0xff ==> p + 1 < |data|)
    ensures data[p] != 0xff ==> HasMarker(data, p + 1) && Unstuff(data, p) == [data[p]] + Unstuff(data, p + 1)
    ensures data[p] == 0xff && data[p+1] == 0 ==> HasMarker(data, p + 2) && Unstuff(data, p) == [0xff] + Unstuff(data, p + 2)
    ensures data[p] == 0xff && data[p+1] != 0 ==> Unstuff(data, p) == [] && MarkerOf(data, p) == data[p+1]
  {}

  /** `fetched` bits of stream `s` precede the bytes at `p`. */
  ghost predicate At(data: seq<byte>, s: seq<byte>, p: nat, fetched: nat) {
    && HasMarker(data, p) && |Unstuff(data, p)| <= |s|
    && fetched == 8 * (|s| - |Unstuff(data, p)|)
    && s[|s| - |Unstuff(data, p)|..] == Unstuff(data, p)
  }

  /** One turn of the fetch loop: a plain byte, a stuffed ff, or the marker. */
  lemma NextByte(data: seq<byte>, s: seq<byte>, p: nat, fetched: nat)
    requires At(data, s, p, fetched)
    ensures p < |data| && (data[p] == 0xff ==> p + 1 < |data|)
    ensures data[p] == 0xff && data[p+1] != 0 ==> fetched == 8 * |s| && MarkerOf(data, p) == data[p+1] && AfterMarker(data, p) == p + 2
    ensures data[p] != 0xff || data[p+1] == 0 ==>
              var next := if data[p] == 0xff then p + 2 else p + 1;
              At(data, s, next, fetched + 8) && Peek(s, fetched, 8) == data[p]
              && MarkerOf(data, next) == MarkerOf(data, p) && AfterMarker(data, next) == AfterMarker(data, p)
  {
    if data[p] != 0xff || data[p+1] == 0 {
      var next := if data[p] == 0xff then p + 2 else p + 1;
      var nb := |s| - |Unstuff(data, p)|;
      assert Unstuff(data, p) == [data[p]] + Unstuff(data, next);
      assert s[nb] == s[nb..][0] == data[p];
      assert s[nb+1..] == s[nb..][1..] == Unstuff(data, next);
      PeekByte(s, nb);
    }
  }

  lemma FetchByte(x: nat, s: seq<byte>, k: nat, w: nat, b: byte)
    requires w <= 24 && x % Pow2(w) == Peek(s, k, w) && b == Peek(s, k + w, 8)
    ensures (x * 0x100 + b) % TWO32 % Pow2(w + 8) == Peek(s, k, w + 8)
  {
    hide Pow2, Peek;
    Pow2Values();
    Append(x, s, k, w, 8, b);
  }

  lemma FetchZeros(x: nat, s: seq<byte>, k: nat, w: nat)
    requires w <= 16 && x % Pow2(w) == Peek(s, k, w) && 8 * |s| <= k + w
    ensures x * 0x10000 % TWO32 % Pow2(w + 16) == Peek(s, k, w + 16)
  {
    hide Pow2, Peek;
    Pow2Values();
    PeekEnd(s, k + w, 16);
    Append(x, s, k, w, 16, 0);
  }

  // ---- struct in ----

  /** The bit reader of jpeg.c.  `pos` counts the bits consumed so far and `avail` those at
      the bottom of `bits` that are still stream bits, including ones already consumed. */
  class Reader {
    const data: seq<byte>
    ghost var start: nat
    var p: nat
    var bits: nat
    var left: nat
    var marker: int
    ghost var pos: nat
    ghost var avail: nat

    /** The segment that began at `start`. */
    ghost function Stream(): seq<byte>
      requires HasMarker(data, start)
      reads this`start
    {
      Unstuff(data, start)
    }

    ghost predicate Valid()
      reads this
    {
      && HasMarker(data, start)
      && left <= avail <= 32 && avail <= pos + left && bits < TWO32
      && bits % Pow2(avail) == Peek(Stream(), pos + left - avail, avail)
      && (if marker == 0 then Pending() else Finished())
    }

    /** What is still to be fetched: the bytes at `p` are those after the fetched bits. */
    ghost predicate Pending()
      reads this
      requires HasMarker(data, start)
    {
      At(data, Stream(), p, pos + left) && MarkerOf(data, p) == MarkerOf(data, start)
      && AfterMarker(data, p) == AfterMarker(data, start)
    }

    /** Every byte is fetched, and perhaps zeros after them. */
    ghost predicate Finished()
      reads this
      requires HasMarker(data, start)
    {
      8 * |Stream()| <= pos + left && marker == MarkerOf(data, start) && p == AfterMarker(data, start)
    }

    /** setinput */
    constructor (data: seq<byte>, start: nat)
      requires HasMarker(data, start)
      ensures Valid() && pos == 0 && this.data == data && this.start == start
    {
      this.data := data;
      this.start := start;
      p, left, bits, marker := start, 0, 0, 0;
      pos, avail := 0, 0;
    }

    /** fillbits: top up to more than 24 bits, or with zeros once the marker is reached. */
    method FillBits()
      requires Valid()
      modifies this`p, this`bits, this`left, this`marker, this`avail
      ensures Valid() && pos == old(pos)
      ensures old(left) <= left == avail && 16 <= left && start == old(start)
      ensures marker == 0 ==> 24 < left
    {
      hide Pow2, Peek, Unstuff, HasMarker, MarkerOf, AfterMarker, At;
      Narrow(bits, Stream(), pos + left - avail, avail, left);
      avail := left;
      if marker != 0 {
        if left <= 16 {
          FillZeros();
        }
        return;
      }
      while left <= 24
        invariant Valid() && marker == 0 && pos == old(pos) && old(left) <= left == avail
        decreases 32 - left
      {
        NextByte(data, Stream(), p, pos + left);
        var b := data[p];
        p := p + 1;
        if b == 0xff {
          var m := data[p];
          p := p + 1;
          if m != 0 {
            marker := m;
            if left <= 16 {
              FillZeros();
            }
            return;
          }
        }
        FetchByte(bits, Stream(), pos, left, b);
        bits := (bits * 0x100 + b) % TWO32;
        left := left + 8;
        avail := left;
      }
    }

    /** bi << 16 after the end of the segment. */
    method FillZeros()
      requires Valid() && marker != 0 && left == avail && left <= 16
      modifies this`bits, this`left, this`avail
      ensures Valid() && left == avail == old(left) + 16
    {
      hide Pow2, Peek, Unstuff, HasMarker, MarkerOf, AfterMarker, At;
      FetchZeros(bits, Stream(), pos, left);
      bits := bits * 0x10000 % TWO32;
      left := left + 16;
      avail := left;
    }

    /** GETBITS: the next `n` bits of the stream. */
    method GetBits(n: nat) returns (r: nat)
      requires Valid() && n <= 16
      modifies this`p, this`bits, this`left, this`marker, this`avail, this`pos
      ensures Valid() && start == old(start)
      ensures r == Peek(Stream(), old(pos), n)
      ensures pos == old(pos) + n && left + n <= avail
    {
      hide Pow2, Peek, Unstuff, HasMarker, MarkerOf, AfterMarker, At;
      if left < n {
        FillBits();
      }
      Narrow(bits, Stream(), pos + left - avail, avail, left);
      Extract(bits, Stream(), pos, n, left - n);
      left := left - n;
      pos := pos + n;
      r := bits / Pow2(left) % Pow2(n);
    }

    /** UNGETBITS: gives back bits taken before. */
    method UngetBits(n: nat)
      requires Valid() && left + n <= avail
      modifies this`left, this`pos
      ensures Valid() && pos == old(pos) - n && left == old(left) + n
    {
      left := left + n;
      pos := pos - n;
    }

    /** dec_readmarker: the marker that ends the segment, if it is within reach; the next
        segment begins behind it. */
    method ReadMarker() returns (m: int)
      requires Valid()
      modifies this
      ensures m == 0 ==> Valid() && start == old(start) && pos == old(pos) && pos + 24 < 8 * |Stream()|
      ensures m != 0 ==> m == MarkerOf(data, old(start)) && 8 * |old(Stream())| <= old(pos) + 32
      ensures m != 0 ==> start == AfterMarker(data, old(start)) && pos == 0 && (HasMarker(data, start) ==> Valid())
    {
      hide Pow2, Unstuff, HasMarker, MarkerOf, AfterMarker;
      FillBits();
      m := marker;
      if m == 0 {
        return;
      }
      left, marker := 0, 0;
      start, pos, avail := p, 0, 0;
      Pow2Values();
      assert HasMarker(data, start) ==> Stream()[|Stream()| - |Stream()|..] == Stream();
    }
  }
}

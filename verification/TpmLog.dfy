// The TPM event log of src/tcgbios.c: appending to the ACPI log area, and the digests of one
// event in the byte orders of the TPM and of the log.

module TpmLog {
  import opened Arith
  import opened Sha1
  import opened Wrappers

  function Le32(x: int): (r: seq<byte>)
    ensures |r| == 4
  {
    [x % 0x100, x / 0x100 % 0x100, x / 0x1_0000 % 0x100, x / 0x100_0000 % 0x100]
  }

  function FromLe32(b: seq<byte>): int
    requires |b| >= 4
  {
    (b[0] as int) + 0x100 * (b[1] as int) + 0x1_0000 * (b[2] as int) + 0x100_0000 * (b[3] as int)
  }

  lemma Le32Back(x: word, rest: seq<byte>)
    ensures FromLe32(Le32(x) + rest) == x
  {
    var b := Le32(x) + rest;
    assert b[0] as int == x % 0x100 && b[1] as int == x / 0x100 % 0x100;
    assert b[2] as int == x / 0x1_0000 % 0x100 && b[3] as int == x / 0x100_0000 % 0x100;
    Recombine(x);
  }

  lemma Recombine(x: word)
    ensures x % 0x100 + 0x100 * (x / 0x100 % 0x100) + 0x1_0000 * (x / 0x1_0000 % 0x100) + 0x100_0000 * (x / 0x100_0000 % 0x100) == x
  {
    var q1, q2 := x / 0x100, x / 0x1_0000;
    assert q2 == q1 / 0x100 && x / 0x100_0000 == q2 / 0x100;
    assert x / 0x100_0000 < 0x100;
  }

  // ---- Records ----

  datatype Event = Event(pcrindex: word, eventtype: word, digest: seq<byte>, data: seq<byte>)

  const HEADER_SIZE := 8
  const TRAILER_SIZE := 4

  /** tpm_log_header, digest, tpm_log_trailer and event */
  function Record(e: Event): (r: seq<byte>)
    ensures |r| == HEADER_SIZE + |e.digest| + TRAILER_SIZE + |e.data|
  {
    Le32(e.pcrindex) + Le32(e.eventtype) + e.digest + Le32(|e.data|) + e.data
  }

  function Log(es: seq<Event>): seq<byte> {
    if es == [] then [] else Record(es[0]) + Log(es[1..])
  }

  lemma {:induction false} LogAppend(es: seq<Event>, e: Event)
    ensures Log(es + [e]) == Log(es) + Record(e)
  {
    hide Record;
    if es == [] {
      assert [e][1..] == [] && es + [e] == [e];
    } else {
      LogAppend(es[1..], e);
      assert (es + [e])[1..] == es[1..] + [e];
    }
  }

  /** Reads one record whose digest has `d` bytes. */
  function ParseRecord(b: seq<byte>, d: nat): Option<(Event, seq<byte>)> {
    var body := HEADER_SIZE + d + TRAILER_SIZE;
    if |b| < body then None
    else
      var size := FromLe32(b[HEADER_SIZE + d..]);
      if |b| < body + size then None
      else Some((Event(FromLe32(b) % TWO32, FromLe32(b[4..]) % TWO32, b[HEADER_SIZE..HEADER_SIZE + d], b[body..body + size]),
                 b[body + size..]))
  }

  /** The parts of a record where ParseRecord looks for them. */
  lemma RecordParts(e: Event, rest: seq<byte>)
    ensures var b := Record(e) + rest; var body := HEADER_SIZE + |e.digest| + TRAILER_SIZE;
            && b == Le32(e.pcrindex) + (Le32(e.eventtype) + (e.digest + Le32(|e.data|) + e.data + rest))
            && b[4..] == Le32(e.eventtype) + (e.digest + Le32(|e.data|) + e.data + rest)
            && b[HEADER_SIZE..HEADER_SIZE + |e.digest|] == e.digest
            && b[HEADER_SIZE + |e.digest|..] == Le32(|e.data|) + (e.data + rest)
            && b[body..body + |e.data|] == e.data && b[body + |e.data|..] == rest
  {
    hide Le32;
  }

  /** A record byte by byte: four numbers and byte sequences, the numbers with the low byte first. */
  lemma RecordBytes(e: Event)
    requires |e.data| < TWO32
    ensures var b, d := Record(e), |e.digest|;
            && b[0] as int + 0x100 * b[1] as int + 0x1_0000 * b[2] as int + 0x100_0000 * b[3] as int == e.pcrindex
            && b[4] as int + 0x100 * b[5] as int + 0x1_0000 * b[6] as int + 0x100_0000 * b[7] as int == e.eventtype
            && b[8..8 + d] == e.digest
            && b[8+d] as int + 0x100 * b[9+d] as int + 0x1_0000 * b[10+d] as int + 0x100_0000 * b[11+d] as int == |e.data|
            && b[12 + d..] == e.data
  {
    var b, d := Record(e), |e.digest|;
    LittleEndian(e.pcrindex);
    LittleEndian(e.eventtype);
    LittleEndian(|e.data|);
    hide Le32;
    FourBytes(b, 0, Le32(e.pcrindex));
    FourBytes(b, 4, Le32(e.eventtype));
    FourBytes(b, 8 + d, Le32(|e.data|));
  }

  lemma FourBytes(b: seq<byte>, at: nat, w: seq<byte>)
    requires |w| == 4 && at + 4 <= |b| && b[at..at + 4] == w
    ensures b[at] == w[0] && b[at + 1] == w[1] && b[at + 2] == w[2] && b[at + 3] == w[3]
  {}

  lemma LittleEndian(x: word)
    ensures var l := Le32(x); l[0] as int + 0x100 * l[1] as int + 0x1_0000 * l[2] as int + 0x100_0000 * l[3] as int == x
  {
    Recombine(x);
  }

  lemma {:induction false} ParseOne(e: Event, rest: seq<byte>)
    requires |e.data| < TWO32
    ensures ParseRecord(Record(e) + rest, |e.digest|) == Some((e, rest))
  {
    hide Le32, FromLe32, Record;
    var after := e.digest + Le32(|e.data|) + e.data + rest;
    RecordParts(e, rest);
    Le32Back(e.pcrindex, Le32(e.eventtype) + after);
    Le32Back(e.eventtype, after);
    Le32Back(|e.data|, e.data + rest);
  }

  /** Reads n records; the k-th has a digest of digestLen(k) bytes. */
  function Parse(b: seq<byte>, digestLen: nat -> nat, k: nat, n: nat): Option<seq<Event>>
    decreases n
  {
    if n == 0 then Some([])
    else
      match ParseRecord(b, digestLen(k))
      case None => None
      case Some(p) =>
        match Parse(p.1, digestLen, k + 1, n - 1)
        case None => None
        case Some(es) => Some([p.0] + es)
  }

  lemma ParseStep(b: seq<byte>, digestLen: nat -> nat, k: nat, e: Event, rest: seq<byte>, es: seq<Event>)
    requires ParseRecord(b, digestLen(k)) == Some((e, rest))
    requires Parse(rest, digestLen, k + 1, |es|) == Some(es)
    ensures Parse(b, digestLen, k, |es| + 1) == Some([e] + es)
  {
    hide ParseRecord;
  }

  /** The log parses back to its events, whatever follows it. */
  lemma {:induction false} ParseBack(es: seq<Event>, tail: seq<byte>, digestLen: nat -> nat, k: nat)
    requires forall i :: 0 <= i < |es| ==> |es[i].digest| == digestLen(k + i) && |es[i].data| < TWO32
    ensures Parse(Log(es) + tail, digestLen, k, |es|) == Some(es)
  {
    hide Record, ParseRecord, Log, Parse;
    if es == [] {
      ParseNone(Log(es) + tail, digestLen, k);
    } else {
      var rest := Log(es[1..]) + tail;
      LogFront(es, tail);
      assert |es[0].digest| == digestLen(k + 0);
      ParseOne(es[0], rest);
      TailLengths(es, digestLen, k);
      ParseBack(es[1..], tail, digestLen, k + 1);
      ParseStep(Log(es) + tail, digestLen, k, es[0], rest, es[1..]);
      assert es == [es[0]] + es[1..];
    }
  }

  lemma ParseNone(b: seq<byte>, digestLen: nat -> nat, k: nat)
    ensures Parse(b, digestLen, k, 0) == Some([])
  {}

  lemma LogFront(es: seq<Event>, tail: seq<byte>)
    requires es != []
    ensures Log(es) + tail == Record(es[0]) + (Log(es[1..]) + tail)
  {
    hide Record;
  }

  lemma TailLengths(es: seq<Event>, digestLen: nat -> nat, k: nat)
    requires es != [] && forall i :: 0 <= i < |es| ==> |es[i].digest| == digestLen(k + i) && |es[i].data| < TWO32
    ensures forall i :: 0 <= i < |es[1..]| ==> |es[1..][i].digest| == digestLen(k + 1 + i) && |es[1..][i].data| < TWO32
  {
    forall i | 0 <= i < |es[1..]| ensures |es[1..][i].digest| == digestLen(k + 1 + i) && |es[1..][i].data| < TWO32 {
      assert es[1..][i] == es[i+1] && k + (i + 1) == k + 1 + i;
    }
  }

  // ---- The overflow test of tpm_log_event ----

  /** The 32-bit sum of what is used and what a record needs is below 2^32, or wraps to more than
      the length of the area. */
  predicate TestIsRight(used: nat, record: nat, length: nat) {
    used + record < TWO32 || (used + record) % TWO32 > length
  }

  predicate TestWithDigest(used: nat, digest: nat, event: nat, length: nat) {
    TestIsRight(used, HEADER_SIZE + digest + TRAILER_SIZE + event, length)
  }

  /** With any digest that a log entry can hold. */
  predicate TestsAreRight(used: nat, event: nat, length: nat) {
    forall d :: 0 <= d <= PAD_SIZE ==> TestWithDigest(used, d, event, length)
  }

  /** Exactly then the test tells whether the record fits. */
  lemma OverflowTest(used: nat, record: nat, length: nat)
    requires used <= length < TWO32
    ensures ((used + record) % TWO32 <= length <==> used + record <= length) <==> TestIsRight(used, record, length)
  {
    if used + record < TWO32 { assert (used + record) % TWO32 == used + record; }
  }

  /** An event whose size wraps to nothing passes the test, however small the area. */
  lemma WrappedEvent(length: nat)
    requires length < TWO32
    ensures !TestIsRight(0, HEADER_SIZE + SHA1_BUFSIZE + TRAILER_SIZE + (TWO32 - 32), length)
  {}

  // ---- tpm_state ----

  class TpmState {
    var area: array<byte>
    /** the addresses of the area, of the next and of the last entry; 0 is NULL */
    var start: int
    var next: int
    var last: int
    var entryCount: int
    ghost var events: seq<Event>

    ghost predicate Valid()
      reads this, area
    {
      next != 0 ==>
        && 0 < start && start + area.Length <= TWO32
        && 0 <= next - start <= area.Length && next - start == |Log(events)|
        && area[..next - start] == Log(events)
        && (forall i :: next - start <= i < area.Length ==> area[i] == 0)
        && entryCount == |events| && (forall e :: e in events ==> |e.data| < TWO32)
        && (if events == [] then last == 0 else last == start + |Log(events[..|events|-1])|)
    }

    constructor ()
      ensures Valid() && next == 0
    {
      area := new byte[0];
      start, next, last, entryCount, events := 0, 0, 0, 0, [];
    }

    /** tpm_set_log_area */
    method SetLogArea(a: array<byte>, address: int) returns (ret: int)
      requires Valid() && 0 <= address && address + a.Length <= TWO32
      modifies this, a
      ensures Valid()
      ensures ret == if address == 0 || a.Length == 0 then -1 else 0
      ensures ret == 0 ==> next == address && area == a && start == address && events == []
      ensures ret != 0 ==> unchanged(this) && unchanged(a)
    {
      if address == 0 || a.Length == 0 {
        return -1;
      }
      forall i | 0 <= i < a.Length {
        a[i] := 0;
      }
      area, start, next, last, entryCount, events := a, address, address, 0, 0, [];
      return 0;
    }

    /** Copies bytes into the area. */
    method Store(at: nat, b: seq<byte>)
      requires at + |b| <= area.Length
      modifies area
      ensures area[at..at + |b|] == b
      ensures forall i :: 0 <= i < area.Length && !(at <= i < at + |b|) ==> area[i] == old(area[i])
    {
      for i := 0 to |b|
        invariant area[at..at + i] == b[..i]
        invariant forall j :: 0 <= j < area.Length && !(at <= j < at + i) ==> area[j] == old(area[j])
      {
        area[at + i] := b[i];
      }
    }

    method StoreRecord(dest: nat, e: Event)
      requires dest + |Record(e)| <= area.Length
      modifies area
      ensures area[..dest + |Record(e)|] == old(area[..dest]) + Record(e)
      ensures forall i :: dest + |Record(e)| <= i < area.Length ==> area[i] == old(area[i])
    {
      hide Record;
      var header := Le32(e.pcrindex) + Le32(e.eventtype) + e.digest;
      Store(dest, header);
      Store(dest + |header|, Le32(|e.data|));
      Store(dest + |header| + 4, e.data);
      RecordStored(e, area[..], dest, old(area[..]), header);
    }

    /** tpm_log_event, on a state and an event for which the overflow test is right; with others
        it writes behind the area. */
    method LogEvent(e: Event) returns (ret: int)
      requires Valid() && |e.data| < TWO32 && (next != 0 ==> TestIsRight(next - start, |Record(e)|, area.Length))
      modifies this, area
      ensures Valid() && area == old(area) && start == old(start)
      ensures ret == 0 <==> old(next) != 0 && old(|Log(events)| + |Record(e)|) <= area.Length
      ensures ret == 0 ==> events == old(events) + [e] && last == old(next) && entryCount == old(entryCount) + 1
      ensures ret != 0 ==> ret == -1 && unchanged(this) && unchanged(area)
    {
      hide Record, Log, TestIsRight;
      if next == 0 {
        return -1;
      }
      var size := (HEADER_SIZE + |e.digest| + TRAILER_SIZE + |e.data|) % TWO32;
      var logsize := (next + size - start) % TWO32;
      LogFits(next, start, |Record(e)|, area.Length);
      if logsize > area.Length {
        return -1;
      }
      StoreRecord(next - start, e);
      LogAppend(events, e);
      assert (events + [e])[..|events|] == events;
      last := next;
      next := next + size;
      entryCount := entryCount + 1;
      events := events + [e];
      return 0;
    }
  }

  lemma LogFits(next: int, start: int, record: nat, length: nat)
    requires 0 <= start <= next && next - start <= length < TWO32 && TestIsRight(next - start, record, length)
    ensures (next + record % TWO32 - start) % TWO32 <= length <==> next - start + record <= length
    ensures next - start + record <= length ==> record % TWO32 == record
  {
    OverflowTest(next - start, record, length);
    SameWrap(next, start, record);
  }

  lemma SameWrap(next: int, start: int, record: nat)
    requires 0 <= start <= next
    ensures (next + record % TWO32 - start) % TWO32 == (next - start + record) % TWO32
  {
    var q := record / TWO32;
    assert record == q * TWO32 + record % TWO32;
    var x := next + record % TWO32 - start;
    var y := x / TWO32;
    DivMod(next - start + record, y + q, TWO32, x % TWO32);
  }

  lemma RecordStored(e: Event, a: seq<byte>, dest: nat, was: seq<byte>, header: seq<byte>)
    requires dest + |Record(e)| <= |a| == |was| && header == Le32(e.pcrindex) + Le32(e.eventtype) + e.digest
    requires forall i :: 0 <= i < |a| && !(dest <= i < dest + |header| + 4 + |e.data|) ==> a[i] == was[i]
    requires a[dest..dest + |header|] == header
    requires a[dest + |header|..dest + |header| + 4] == Le32(|e.data|)
    requires a[dest + |header| + 4..dest + |header| + 4 + |e.data|] == e.data
    ensures a[dest..dest + |Record(e)|] == Record(e)
    ensures a[..dest + |Record(e)|] == was[..dest] + Record(e)
  {
    assert a[dest..dest + |Record(e)|] == a[dest..dest + |header|] + a[dest + |header|..dest + |header| + 4]
                                          + a[dest + |header| + 4..dest + |header| + 4 + |e.data|];
    assert a[..dest] == was[..dest];
    assert a[..dest + |Record(e)|] == a[..dest] + a[dest..dest + |Record(e)|];
  }

  lemma {:induction false} AreaParses(area: seq<byte>, es: seq<Event>, digestLen: nat -> nat)
    requires Log(es) <= area
    requires forall i :: 0 <= i < |es| ==> |es[i].digest| == digestLen(i) && |es[i].data| < TWO32
    ensures Parse(area, digestLen, 0, |es|) == Some(es)
  {
    hide Log, Record, Parse, ParseRecord;
    var tail := area[|Log(es)|..];
    assert area == Log(es) + tail;
    forall i | 0 <= i < |es| ensures |es[i].digest| == digestLen(0 + i) && |es[i].data| < TWO32 {}
    ParseBack(es, tail, digestLen, 0);
  }

  lemma {:induction false} LastParses(area: seq<byte>, es: seq<Event>)
    requires Log(es) <= area && es != [] && |es[|es|-1].data| < TWO32
    ensures var e, at := es[|es|-1], |Log(es[..|es|-1])|;
            at <= |area| && ParseRecord(area[at..], |e.digest|) == Some((e, area[|Log(es)|..]))
  {
    hide Log, Record, Parse, ParseRecord;
    var e, before, tail := es[|es|-1], es[..|es|-1], area[|Log(es)|..];
    assert es == before + [e];
    LogAppend(before, e);
    assert area == Log(es) + tail;
    assert area[|Log(before)|..] == Record(e) + tail;
    ParseOne(e, tail);
  }

  /** In every state of the log the area parses back to the accepted events, and the address
      of the last entry is that of the last event's record. */
  lemma {:induction false} LogParses(t: TpmState, digestLen: nat -> nat)
    requires t.Valid() && t.next != 0
    requires forall i :: 0 <= i < |t.events| ==> |t.events[i].digest| == digestLen(i)
    ensures Parse(t.area[..], digestLen, 0, t.entryCount) == Some(t.events)
    ensures t.events != [] ==>
              var e := t.events[|t.events|-1];
              0 <= t.last - t.start <= t.area.Length && ParseRecord(t.area[t.last - t.start..], |e.digest|) == Some((e, t.area[t.next - t.start..]))
  {
    hide Log, Record, Parse, ParseRecord;
    var es := t.events;
    assert t.area[..t.next - t.start] <= t.area[..];
    forall i | 0 <= i < |es| ensures |es[i].data| < TWO32 { assert es[i] in es; }
    AreaParses(t.area[..], es, digestLen);
    if es != [] {
      LastParses(t.area[..], es);
      assert t.area[..][t.last - t.start..] == t.area[t.last - t.start..];
      assert t.area[..][t.next - t.start..] == t.area[t.next - t.start..];
    }
  }

  // ---- Digests ----

  const SHA1_BUFSIZE := 20
  /** The space of struct tpm_log_entry behind its header: a count and one digest of each kind. */
  const PAD_SIZE := 210

  /** tpm20_get_hash_buffersize */
  function HashSize(alg: int): int {
    if alg == 0x4 then 20 else if alg == 0xb then 32 else if alg == 0xc then 48
    else if alg == 0xd then 64 else if alg == 0x12 then 32 else -1
  }

  function Be16(b: seq<byte>, at: nat): int
    requires at + 2 <= |b|
  {
    0x100 * (b[at] as int) + (b[at+1] as int)
  }

  /** The algorithms of the PCR banks listed from `pos`, and where the list ends. */
  function Banks(sel: seq<byte>, pos: nat, count: nat): (r: (seq<int>, nat))
    ensures forall a :: a in r.0 ==> 0 <= a < 0x1_0000
    decreases count
  {
    if count == 0 || pos + 3 > |sel| || pos + 3 + sel[pos+2] > |sel| then ([], pos)
    else
      var r := Banks(sel, pos + 3 + sel[pos+2], count - 1);
      ([Be16(sel, pos)] + r.0, r.1)
  }

  /** A bank in a selection: its algorithm, high byte first, and a bitmap behind its length. */
  datatype Bank = Bank(alg: int, bitmap: seq<byte>)

  predicate IsBank(b: Bank) { 0 <= b.alg < 0x1_0000 && |b.bitmap| < 0x100 }

  function BankBytes(b: Bank): (r: seq<byte>)
    requires IsBank(b)
    ensures |r| == 3 + |b.bitmap| && r[0] as int * 0x100 + r[1] as int == b.alg && r[2] as int == |b.bitmap|
  {
    var head: seq<byte> := [b.alg / 0x100, b.alg % 0x100, |b.bitmap|];
    head + b.bitmap
  }

  function Listed(bs: seq<Bank>): seq<byte>
    requires forall b :: b in bs ==> IsBank(b)
  {
    if bs == [] then []
    else
      assert bs[0] in bs;
      BankBytes(bs[0]) + Listed(bs[1..])
  }

  function Algs(bs: seq<Bank>): (r: seq<int>)
    ensures |r| == |bs| && forall k :: 0 <= k < |bs| ==> r[k] == bs[k].alg
  {
    if bs == [] then [] else [bs[0].alg] + Algs(bs[1..])
  }

  /** The banks of such a selection are found, whatever else it is part of. */
  lemma {:induction false} BanksOfListed(before: seq<byte>, bs: seq<Bank>, rest: seq<byte>)
    requires forall b :: b in bs ==> IsBank(b)
    ensures Banks(before + Listed(bs) + rest, |before|, |bs|) == (Algs(bs), |before| + |Listed(bs)|)
    decreases bs
  {
    if bs != [] {
      assert bs[0] in bs;
      var head, more := BankBytes(bs[0]), Listed(bs[1..]);
      hide BankBytes, Banks;
      BankAt(before, bs[0], more + rest, |bs| - 1);
      BanksOfListed(before + head, bs[1..], rest);
      BankGroups(before, head, more, rest);
    }
  }

  lemma BankGroups(a: seq<byte>, b: seq<byte>, c: seq<byte>, d: seq<byte>)
    ensures a + (b + c) + d == a + b + (c + d) == (a + b) + c + d
  {}

  lemma BankAt(before: seq<byte>, b: Bank, rest: seq<byte>, n: nat)
    requires IsBank(b)
    ensures var sel := before + BankBytes(b) + rest; var r := Banks(sel, |before + BankBytes(b)|, n);
            Banks(sel, |before|, n + 1) == ([b.alg] + r.0, r.1)
  {
    hide BankBytes;
    var sel, p, h := before + BankBytes(b) + rest, |before|, BankBytes(b);
    assert sel[p] == h[0] && sel[p+1] == h[1] && sel[p+2] == h[2];
  }

  function Alg(a: int, bigEndian: bool): (r: seq<byte>)
    ensures |r| == 2
  {
    if bigEndian then [a / 0x100 % 0x100, a % 0x100] else [a % 0x100, a / 0x100 % 0x100]
  }

  /** The hash cut or filled up with zeros to n bytes. */
  function Fitted(hash: seq<byte>, n: nat): (r: seq<byte>)
    requires |hash| == SHA1_BUFSIZE
    ensures |r| == n
  {
    if n <= SHA1_BUFSIZE then hash[..n] else hash + Zeros(n - SHA1_BUFSIZE)
  }

  /** tpm2_digest_value */
  function Value(a: int, hash: seq<byte>, bigEndian: bool): (r: seq<byte>)
    requires |hash| == SHA1_BUFSIZE && 0 <= HashSize(a)
    ensures |r| == 2 + HashSize(a)
  {
    Alg(a, bigEndian) + Fitted(hash, HashSize(a))
  }

  predicate Supported(algs: seq<int>) { forall a :: a in algs ==> 0 <= HashSize(a) }

  function Values(algs: seq<int>, hash: seq<byte>, bigEndian: bool): seq<byte>
    requires Supported(algs) && |hash| == SHA1_BUFSIZE
  {
    if algs == [] then []
    else
      var a := algs[|algs|-1];
      Values(algs[..|algs|-1], hash, bigEndian) + Value(a, hash, bigEndian)
  }

  function ValuesSize(algs: seq<int>): int {
    if algs == [] then 0 else ValuesSize(algs[..|algs|-1]) + 2 + HashSize(algs[|algs|-1])
  }

  function Count(n: nat, bigEndian: bool): (r: seq<byte>)
    ensures |r| == 4
  {
    if bigEndian then WordBytes(n % TWO32) else Le32(n)
  }

  /** tpm2_digest_values */
  function DigestValues(algs: seq<int>, hash: seq<byte>, bigEndian: bool): seq<byte>
    requires Supported(algs) && |hash| == SHA1_BUFSIZE
  {
    Count(|algs|, bigEndian) + Values(algs, hash, bigEndian)
  }

  lemma {:induction false} ValuesLength(algs: seq<int>, hash: seq<byte>, bigEndian: bool)
    requires Supported(algs) && |hash| == SHA1_BUFSIZE
    ensures |Values(algs, hash, bigEndian)| == ValuesSize(algs) && 0 <= ValuesSize(algs)
  {
    if algs != [] { ValuesLength(algs[..|algs|-1], hash, bigEndian); }
  }

  lemma {:induction false} SizeGrows(a: seq<int>, b: seq<int>)
    requires Supported(a + b)
    ensures ValuesSize(a) <= ValuesSize(a + b)
  {
    if b == [] {
      assert a + b == a;
    } else {
      assert (a + b)[..|a + b|-1] == a + b[..|b|-1] && (a + b)[|a + b|-1] == b[|b|-1];
      assert b[|b|-1] in a + b;
      SizeGrows(a, b[..|b|-1]);
    }
  }

  /** A list of banks of which the TPM gave the extent and whose digests fit in the entry. */
  predicate Buildable(sel: seq<byte>)
    requires |sel| >= 4
  {
    var b := Banks(sel, 4, BigEndian(sel, 0));
    b.1 == |sel| && Supported(b.0) && 4 + ValuesSize(b.0) <= PAD_SIZE
  }

  lemma ValuesNext(done: seq<int>, a: int, hash: seq<byte>, bigEndian: bool)
    requires Supported(done) && |hash| == SHA1_BUFSIZE && 0 <= HashSize(a)
    ensures Supported(done + [a]) && Values(done + [a], hash, bigEndian) == Values(done, hash, bigEndian) + Value(a, hash, bigEndian)
    ensures ValuesSize(done + [a]) == ValuesSize(done) + 2 + HashSize(a)
  {
    assert (done + [a])[..|done|] == done;
  }

  /** The list still to be read behind the banks already seen. */
  ghost predicate Seen(sel: seq<byte>, declared: nat, done: seq<int>, pos: nat) {
    && |done| <= declared
    && Banks(sel, 4, declared) == (done + Banks(sel, pos, declared - |done|).0, Banks(sel, pos, declared - |done|).1)
  }

  lemma SeenNext(sel: seq<byte>, declared: nat, done: seq<int>, pos: nat)
    requires Seen(sel, declared, done, pos) && |done| < declared && pos + 3 <= |sel| && pos + 3 + sel[pos+2] <= |sel|
    ensures Seen(sel, declared, done + [Be16(sel, pos)], pos + 3 + sel[pos+2])
    ensures done + [Be16(sel, pos)] <= Banks(sel, 4, declared).0
  {
    var rest := Banks(sel, pos + 3 + sel[pos+2], declared - |done| - 1);
    assert done + ([Be16(sel, pos)] + rest.0) == (done + [Be16(sel, pos)]) + rest.0;
  }

  lemma SeenAll(sel: seq<byte>, declared: nat, done: seq<int>, pos: nat)
    requires Seen(sel, declared, done, pos)
    requires |done| == declared || pos + 3 > |sel| || pos + 3 + sel[pos+2] > |sel|
    ensures Banks(sel, 4, declared) == (done, pos)
  {
    assert done + [] == done;
  }

  lemma SeenNone(sel: seq<byte>, declared: nat)
    ensures Seen(sel, declared, [], 4)
  {
    assert [] + Banks(sel, 4, declared).0 == Banks(sel, 4, declared).0;
  }

  /** The banks already seen, and the digests written for them. */
  ghost predicate Built(sel: seq<byte>, declared: nat, done: seq<int>, pos: nat, values: seq<byte>, hash: seq<byte>, bigEndian: bool)
    requires |hash| == SHA1_BUFSIZE
  {
    Supported(done) && Seen(sel, declared, done, pos) && values == Values(done, hash, bigEndian) && 4 + |values| <= PAD_SIZE
  }

  lemma BuiltNone(sel: seq<byte>, declared: nat, hash: seq<byte>, bigEndian: bool)
    requires |hash| == SHA1_BUFSIZE
    ensures Built(sel, declared, [], 4, [], hash, bigEndian)
  {
    SeenNone(sel, declared);
    ValuesEmpty(hash, bigEndian);
  }

  lemma BuiltNext(sel: seq<byte>, declared: nat, done: seq<int>, pos: nat, values: seq<byte>, hash: seq<byte>, bigEndian: bool)
    requires |hash| == SHA1_BUFSIZE && |sel| >= 4 && declared == BigEndian(sel, 0)
    requires Built(sel, declared, done, pos, values, hash, bigEndian)
    requires |done| < declared && pos + 3 <= |sel| && pos + 3 + sel[pos+2] <= |sel|
    ensures var alg := Be16(sel, pos); var hsize := HashSize(alg);
            if hsize < 0 || 4 + |values| + 2 + hsize > PAD_SIZE then !Buildable(sel)
            else Built(sel, declared, done + [alg], pos + 3 + sel[pos+2], values + Value(alg, hash, bigEndian), hash, bigEndian)
  {
    hide Value, HashSize, Be16, BigEndian, Banks, Values, ValuesSize, Supported, Seen, Buildable;
    var alg := Be16(sel, pos);
    SeenNext(sel, declared, done, pos);
    NotBuildable(sel, declared);
    if HashSize(alg) < 0 {
      Unsupported(done + [alg], Banks(sel, 4, declared).0);
    } else {
      ValuesNext(done, alg, hash, bigEndian);
      ValuesLength(done, hash, bigEndian);
      if 4 + |values| + 2 + HashSize(alg) > PAD_SIZE {
        TooLarge(done + [alg], Banks(sel, 4, declared).0);
      }
    }
  }

  lemma BuiltAll(sel: seq<byte>, declared: nat, done: seq<int>, pos: nat, values: seq<byte>, hash: seq<byte>, bigEndian: bool)
    requires |hash| == SHA1_BUFSIZE && |sel| >= 4 && declared == BigEndian(sel, 0)
    requires Built(sel, declared, done, pos, values, hash, bigEndian)
    requires |done| == declared || pos + 3 > |sel| || pos + 3 + sel[pos+2] > |sel|
    ensures Buildable(sel) <==> pos == |sel|
    ensures Banks(sel, 4, declared).0 == done && DigestValues(done, hash, bigEndian) == Count(|done|, bigEndian) + values
  {
    hide HashSize, Be16, BigEndian, Banks, Values, ValuesSize, Supported, Seen, Count, Buildable, DigestValues;
    SeenAll(sel, declared, done, pos);
    ValuesLength(done, hash, bigEndian);
    Outcome(sel, declared, done, pos, hash, bigEndian);
  }

  /** tpm20_build_digest on the PCR selection that the TPM reported. */
  method BuildDigest(sel: Option<seq<byte>>, hash: seq<byte>, bigEndian: bool) returns (r: Option<seq<byte>>)
    requires |hash| == SHA1_BUFSIZE && (sel.Some? ==> |sel.value| >= 4)
    ensures r.Some? <==> sel.Some? && Buildable(sel.value)
    ensures r.Some? ==> r.value == DigestValues(Banks(sel.value, 4, BigEndian(sel.value, 0)).0, hash, bigEndian)
  {
    if sel.None? {
      return None;
    }
    hide Value, HashSize, Be16, BigEndian, Banks, Values, ValuesSize, Supported, Built, Count, Buildable, DigestValues;
    var s := sel.value;
    var declared := BigEndian(s, 0);
    var pos: nat, count: nat, values: seq<byte> := 4, 0, [];
    ghost var done: seq<int> := [];
    BuiltNone(s, declared, hash, bigEndian);
    while count < declared
      invariant count <= declared && |done| == count && Built(s, declared, done, pos, values, hash, bigEndian)
    {
      if pos + 3 > |s| { break; }
      var nsel := pos + 3 + s[pos+2];
      if nsel > |s| { break; }
      var alg := Be16(s, pos);
      var hsize := HashSize(alg);
      BuiltNext(s, declared, done, pos, values, hash, bigEndian);
      if hsize < 0 {
        return None;
      }
      if 4 + |values| + 2 + hsize > PAD_SIZE {
        return None;
      }
      values := values + Value(alg, hash, bigEndian);
      done := done + [alg];
      pos := nsel;
      count := count + 1;
    }
    BuiltAll(s, declared, done, pos, values, hash, bigEndian);
    if pos != |s| {
      return None;
    }
    return Some(Count(count, bigEndian) + values);
  }

  lemma NotBuildable(sel: seq<byte>, declared: nat)
    requires |sel| >= 4 && declared == BigEndian(sel, 0)
    ensures !(Supported(Banks(sel, 4, declared).0) && 4 + ValuesSize(Banks(sel, 4, declared).0) <= PAD_SIZE) ==> !Buildable(sel)
  {}

  lemma Outcome(sel: seq<byte>, declared: nat, done: seq<int>, pos: nat, hash: seq<byte>, bigEndian: bool)
    requires |sel| >= 4 && declared == BigEndian(sel, 0) && Banks(sel, 4, declared) == (done, pos) && Supported(done)
    requires |hash| == SHA1_BUFSIZE && 4 + ValuesSize(done) <= PAD_SIZE
    ensures Buildable(sel) <==> pos == |sel|
    ensures DigestValues(done, hash, bigEndian) == Count(|done|, bigEndian) + Values(done, hash, bigEndian)
  {}

  lemma ValuesEmpty(hash: seq<byte>, bigEndian: bool)
    requires |hash| == SHA1_BUFSIZE
    ensures Supported([]) && Values([], hash, bigEndian) == []
  {}

  lemma Unsupported(a: seq<int>, all: seq<int>)
    requires a != [] && a <= all && HashSize(a[|a|-1]) < 0
    ensures !Supported(all)
  {
    assert all[|a|-1] in all;
  }

  lemma TooLarge(a: seq<int>, all: seq<int>)
    requires a <= all && 4 + ValuesSize(a) > PAD_SIZE
    ensures !(Supported(all) && 4 + ValuesSize(all) <= PAD_SIZE)
  {
    assert all == a + all[|a|..];
    if Supported(all) { SizeGrows(a, all[|a|..]); }
  }

  /** The digests built for the TPM and for the log have the same length; their count fields
      tell the number of digests written, and the digests carry the same hashes. */
  lemma {:induction false} SameDigests(algs: seq<int>, hash: seq<byte>)
    requires Supported(algs) && |hash| == SHA1_BUFSIZE && |algs| < TWO32
    ensures var big, little := DigestValues(algs, hash, true), DigestValues(algs, hash, false);
            |big| == |little| && BigEndian(big, 0) == |algs| == FromLe32(little)
  {
    hide Values, BigEndian, FromLe32, WordBytes, Le32;
    ValuesLength(algs, hash, true);
    ValuesLength(algs, hash, false);
    Le32Back(|algs|, Values(algs, hash, false));
    WordBytesBack(|algs|, Values(algs, hash, true));
  }

  lemma WordBytesBack(x: word, rest: seq<byte>)
    ensures BigEndian(WordBytes(x) + rest, 0) == x
  {
    var b := WordBytes(x) + rest;
    assert b[3] as int == x % 0x100 && b[2] as int == x / 0x100 % 0x100;
    assert b[1] as int == x / 0x1_0000 % 0x100 && b[0] as int == x / 0x100_0000 % 0x100;
    Recombine(x);
  }

  lemma {:induction false} ValuesSplit(a: seq<int>, b: seq<int>, hash: seq<byte>, bigEndian: bool)
    requires Supported(a) && Supported(a + b) && |hash| == SHA1_BUFSIZE
    ensures Values(a, hash, bigEndian) <= Values(a + b, hash, bigEndian)
  {
    hide Value;
    if b == [] {
      assert a + b == a;
    } else {
      assert (a + b)[..|a + b|-1] == a + b[..|b|-1];
      ValuesSplit(a, b[..|b|-1], hash, bigEndian);
    }
  }

  /** Where the k-th digest lies: behind the count and those before it, in both byte orders. */
  lemma {:induction false} DigestAt(algs: seq<int>, hash: seq<byte>, bigEndian: bool, k: nat)
    requires Supported(algs) && |hash| == SHA1_BUFSIZE && k < |algs|
    ensures algs[k] in algs && 0 <= ValuesSize(algs[..k])
    ensures var d := DigestValues(algs, hash, bigEndian); var at := 4 + ValuesSize(algs[..k]); var size := 2 + HashSize(algs[k]);
            at + size <= |d| && d[at..at + size] == Alg(algs[k], bigEndian) + Fitted(hash, HashSize(algs[k]))
  {
    hide Alg, Fitted, HashSize, Count, Values, ValuesSize;
    assert Supported(algs[..k]) && Supported(algs[..k+1]);
    ValuesLength(algs[..k], hash, bigEndian);
    assert algs[..k+1] == algs[..k] + [algs[k]];
    ValuesNext(algs[..k], algs[k], hash, bigEndian);
    assert algs == algs[..k+1] + algs[k+1..];
    ValuesSplit(algs[..k+1], algs[k+1..], hash, bigEndian);
    var c, u, v, x := Count(|algs|, bigEndian), Values(algs, hash, bigEndian), Values(algs[..k], hash, bigEndian), Value(algs[k], hash, bigEndian);
    Inside(c, v, x, u);
  }

  /** One of SHA-1, SHA-256, SHA-384, SHA-512 and SM3-256 by its number, with the bits it has;
      the first alone takes the hash as it is, the others with zeros behind.  The number stands
      before it with the high or the low byte first. */
  lemma SizeInBits(a: int, hash: seq<byte>)
    requires |hash| == 20
    ensures 0 <= HashSize(a) <==> a in {0x4, 0xb, 0xc, 0xd, 0x12}
    ensures a == 0x4 ==> 8 * HashSize(a) == 160 && Fitted(hash, HashSize(a)) == hash
    ensures a == 0xb || a == 0x12 ==> 8 * HashSize(a) == 256
    ensures a == 0xc ==> 8 * HashSize(a) == 384
    ensures a == 0xd ==> 8 * HashSize(a) == 512
    ensures 0 <= a < 0x1_0000 ==> Alg(a, true)[0] as int * 0x100 + Alg(a, true)[1] as int == a
    ensures 0 <= a < 0x1_0000 ==> Alg(a, false)[0] as int + Alg(a, false)[1] as int * 0x100 == a
    ensures a in {0xb, 0xc, 0xd, 0x12} ==> Fitted(hash, HashSize(a)) == hash + Zeros(HashSize(a) - 20)
  {}

  lemma Inside(c: seq<byte>, v: seq<byte>, x: seq<byte>, u: seq<byte>)
    requires v + x <= u
    ensures |c| + |v| + |x| <= |c + u| && (c + u)[|c| + |v|..|c| + |v| + |x|] == x
  {
    assert u == v + x + u[|v| + |x|..];
  }

  // ---- Measurements ----

  /** What tpm_build_digest makes of a hash; TPM 1.2 takes it as it is. */
  function BuiltDigest(tpm12: bool, sel: seq<byte>, hash: seq<byte>, bigEndian: bool): seq<byte>
    requires |hash| == SHA1_BUFSIZE && |sel| >= 4 && (tpm12 || Buildable(sel))
  {
    if tpm12 then hash else DigestValues(Banks(sel, 4, BigEndian(sel, 0)).0, hash, bigEndian)
  }

  method TpmBuildDigest(tpm12: bool, sel: seq<byte>, hash: seq<byte>, bigEndian: bool) returns (r: Option<seq<byte>>)
    requires |hash| == SHA1_BUFSIZE && |sel| >= 4
    ensures r.Some? <==> tpm12 || Buildable(sel)
    ensures r.Some? ==> r.value == BuiltDigest(tpm12, sel, hash, bigEndian)
  {
    hide Buildable, DigestValues;
    if tpm12 {
      return Some(hash);
    }
    r := BuildDigest(Some(sel), hash, bigEndian);
  }

  lemma BothForms(tpm12: bool, sel: seq<byte>, hash: seq<byte>)
    requires |hash| == SHA1_BUFSIZE && |sel| >= 4 && (tpm12 || Buildable(sel))
    ensures |BuiltDigest(tpm12, sel, hash, true)| == |BuiltDigest(tpm12, sel, hash, false)| <= PAD_SIZE
  {
    if !tpm12 {
      var algs := Banks(sel, 4, BigEndian(sel, 0)).0;
      hide Values, Banks, BigEndian, Count;
      ValuesLength(algs, hash, true);
      ValuesLength(algs, hash, false);
    }
  }

  /** The event that a measurement adds to the log. */
  function MeasuredEvent(tpm12: bool, sel: seq<byte>, pcrindex: word, eventtype: word, event: seq<byte>, hashdata: seq<byte>): Event
    requires |sel| >= 4 && (tpm12 || Buildable(sel))
  {
    var hash := Bytes(Process(INITIAL, Padded(hashdata, 8 * |hashdata| % TWO32)));
    Event(pcrindex, eventtype, BuiltDigest(tpm12, sel, hash, false), event)
  }

  /** tpm_add_measurement_to_log; `accepted` is the TPM's answer to the extend command. What goes
      to the log is the whole digest in the log's byte order: its length was taken from the
      form that went to the TPM. */
  method AddMeasurement(t: TpmState, working: bool, tpm12: bool, sel: seq<byte>, pcrindex: word, eventtype: word, event: seq<byte>,
                        hashdata: seq<byte>, accepted: bool) returns (logged: bool)
    requires t.Valid() && |sel| >= 4 && |hashdata| < TWO32 && |event| < TWO32
    requires t.next != 0 ==> TestsAreRight(t.next - t.start, |event|, t.area.Length)
    modifies t, t.area
    ensures t.Valid()
    ensures logged <==> working && accepted && (tpm12 || Buildable(sel)) && old(t.next) != 0
                        && old(|Log(t.events)|) + |Record(MeasuredEvent(tpm12, sel, pcrindex, eventtype, event, hashdata))| <= old(t.area.Length)
    ensures !logged ==> t.events == old(t.events) && t.next == old(t.next) && t.area[..] == old(t.area[..])
    ensures logged ==> t.events == old(t.events) + [MeasuredEvent(tpm12, sel, pcrindex, eventtype, event, hashdata)]
  {
    hide Buildable, BuiltDigest, Log, Record, Bytes, Process, Padded;
    if !working {
      return false;
    }
    var hash := Sha1.Sha1(hashdata);
    var big := TpmBuildDigest(tpm12, sel, hash, true);
    if big.None? || !accepted {
      return false;
    }
    var little := TpmBuildDigest(tpm12, sel, hash, false);
    BothForms(tpm12, sel, hash);
    assert t.next != 0 ==> TestWithDigest(t.next - t.start, |little.value|, |event|, t.area.Length);
    var ret := t.LogEvent(Event(pcrindex, eventtype, little.value[..|big.value|], event));
    assert little.value[..|big.value|] == little.value;
    logged := ret == 0;
  }
}

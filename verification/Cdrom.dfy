// Reading 512-byte sectors of an emulated disk from a CD with 2048-byte sectors: cdemu_read
// of src/cdrom.c and the count rules of process_op in src/block.c.

module Cdrom {

  type byte = x: int | 0 <= x < 0x100

  const SUCCESS := 0
  const EBOUNDARY := 9
  const DISK_SECTOR_SIZE := 512
  const CDROM_SECTOR_SIZE := 2048

  /** Memory at `buf` has the n bytes of the disk that begin at `from`. */
  predicate Delivered(m: seq<byte>, buf: nat, n: nat, disk: seq<byte>, from: nat) {
    buf + n <= |m| && from + n <= |disk| && forall i :: buf <= i < buf + n ==> m[i] == disk[i - buf + from]
  }

  /** Only [buf, buf + n) changed. */
  predicate WroteAt(m: seq<byte>, m': seq<byte>, buf: nat, n: nat) {
    |m'| == |m| && buf + n <= |m| && forall i :: 0 <= i < |m| && !(buf <= i < buf + n) ==> m'[i] == m[i]
  }

  predicate Clear(a: nat, n: nat, b: nat, k: nat) { a + n <= b || b + k <= a }

  /** disk_op_s: what to read and where to put it; `count` becomes what was delivered. */
  class DiskOp {
    var lba: nat
    var count: nat
    var buf: nat

    constructor (lba: nat, count: nat, buf: nat)
      ensures this.lba == lba && this.count == count && this.buf == buf
    {
      this.lba, this.count, this.buf := lba, count, buf;
    }
  }

  /** memcpy_fl between places that do not overlap */
  method Copy(mem: array<byte>, dst: nat, src: nat, n: nat)
    requires dst + n <= mem.Length && src + n <= mem.Length && Clear(dst, n, src, n)
    modifies mem
    ensures WroteAt(old(mem[..]), mem[..], dst, n)
    ensures forall i :: dst <= i < dst + n ==> mem[i] == old(mem[i - dst + src])
  {
    for i := 0 to n
      invariant WroteAt(old(mem[..]), mem[..], dst, n)
      invariant forall j :: dst <= j < dst + i ==> mem[j] == old(mem[j - dst + src])
    {
      mem[dst + i] := mem[src + i];
    }
  }

  /** A CD, and the drive that reads it: status(b) is SUCCESS if block `b` can be read, and
      report(lba, count) is the count the driver leaves when a request fails. */
  class Cd {
    const disk: seq<byte>
    const status: nat -> int
    const report: (nat, nat) -> nat

    constructor (disk: seq<byte>, status: nat -> int, report: (nat, nat) -> nat)
      ensures this.disk == disk && this.status == status && this.report == report
    {
      this.disk, this.status, this.report := disk, status, report;
    }

    predicate Readable(b: nat) { status(b) == SUCCESS && (b + 1) * CDROM_SECTOR_SIZE <= |disk| }

    /** How many blocks from `lba` on can be read, up to `count`. */
    function Leading(lba: nat, count: nat): (n: nat)
      ensures n <= count && (n > 0 ==> (lba + n) * CDROM_SECTOR_SIZE <= |disk|)
      ensures n < count ==> !Readable(lba + n)
      decreases count
    {
      if count == 0 || !Readable(lba) then 0 else 1 + Leading(lba + 1, count - 1)
    }

    /** The count that process_op leaves: all, or what the driver reports of a failed request. A
        driver that does not touch the count is taken to have transferred nothing. */
    function Got(lba: nat, count: nat): (n: nat)
      ensures n <= Leading(lba, count)
      ensures Leading(lba, count) == count ==> n == count
    {
      if Leading(lba, count) == count then count
      else if report(lba, count) <= Leading(lba, count) then report(lba, count)
      else 0
    }

    /** The device driver. What it leaves in the buffer behind the blocks it has read is not
        known; nor is the count it leaves on an error, except that it is true or unchanged. */
    method Transfer(op: DiskOp, mem: array<byte>) returns (ret: int)
      requires op.buf + op.count * CDROM_SECTOR_SIZE <= mem.Length
      modifies op`count, mem
      ensures ret == SUCCESS <==> Leading(op.lba, old(op.count)) == old(op.count)
      ensures op.count == Got(op.lba, old(op.count))
              || (ret != SUCCESS && op.count == old(op.count) && Got(op.lba, old(op.count)) == 0)
      ensures op.count > 0 && op.count == Got(op.lba, old(op.count)) ==>
                Delivered(mem[..], op.buf, op.count * CDROM_SECTOR_SIZE, disk, op.lba * CDROM_SECTOR_SIZE)
      ensures WroteAt(old(mem[..]), mem[..], op.buf, old(op.count) * CDROM_SECTOR_SIZE)
    {
      hide Leading, Readable;
      var total: nat := op.count * CDROM_SECTOR_SIZE;
      var from: nat := op.lba * CDROM_SECTOR_SIZE;
      var can := Leading(op.lba, op.count);
      if can < op.count {
        var code := status(op.lba + can);
        ret := if code == SUCCESS then 1 else code;
        if report(op.lba, op.count) <= can {
          op.count := report(op.lba, op.count);
        }
      } else {
        ret := SUCCESS;
      }
      var good: nat, left := can * CDROM_SECTOR_SIZE, op.count;
      for i := 0 to total
        invariant op.count == left
        invariant WroteAt(old(mem[..]), mem[..], op.buf, total)
        invariant forall j :: op.buf <= j < op.buf + i && j < op.buf + good ==> mem[j] == disk[j - op.buf + from]
      {
        if i < good {
          mem[op.buf + i] := disk[from + i];
        } else {
          mem[op.buf + i] := *;
        }
      }
    }

    /** process_op: at most 64K at a time, and an unchanged count on an error means nothing
        was transferred. */
    method ProcessOp(op: DiskOp, mem: array<byte>) returns (ret: int)
      requires op.buf + op.count * CDROM_SECTOR_SIZE <= mem.Length
      modifies op`count, mem
      ensures if old(op.count) > 32 then ret == EBOUNDARY && op.count == 0
              else op.count == Got(op.lba, old(op.count)) && (ret == SUCCESS <==> Leading(op.lba, old(op.count)) == old(op.count))
      ensures op.count > 0 ==>
                Delivered(mem[..], op.buf, op.count * CDROM_SECTOR_SIZE, disk, op.lba * CDROM_SECTOR_SIZE)
      ensures WroteAt(old(mem[..]), mem[..], op.buf, old(op.count) * CDROM_SECTOR_SIZE)
    {
      var origcount := op.count;
      if origcount * CDROM_SECTOR_SIZE > 64 * 1024 {
        op.count := 0;
        return EBOUNDARY;
      }
      ret := Transfer(op, mem);
      if ret != SUCCESS && op.count == origcount {
        op.count := 0;
      }
    }
  }

  // ---- What a read of the emulated disk comes to ----

  /** The sectors of a request that lie in its first CD sector, if it begins inside one. */
  function Head(lba: nat, count: nat): (n: nat)
    ensures n <= count
  {
    if lba % 4 == 0 then 0 else if 4 - lba % 4 > count then count else 4 - lba % 4
  }

  /** The first CD sector behind that. */
  function Whole(first: nat, lba: nat): nat { if lba % 4 == 0 then first else first + 1 }

  /** The number of CD sectors that a request touches; a request for no sectors inside a CD
      sector still reads that one. */
  function Touched(lba: nat, count: nat): nat {
    (if lba % 4 == 0 then 0 else 1) + (count - Head(lba, count) + 3) / 4
  }

  /** The sectors delivered of a request that begins in CD sector `first`. */
  function Answer(cd: Cd, first: nat, lba: nat, count: nat): (n: nat)
    ensures n <= count
  {
    if lba % 4 != 0 && !cd.Readable(first) then 0
    else Head(lba, count) + AnswerRest(cd, Whole(first, lba), count - Head(lba, count))
  }

  /** The same for a request that begins with a CD sector. */
  function AnswerRest(cd: Cd, block: nat, count: nat): (n: nat)
    ensures n <= count
  {
    if cd.Leading(block, count / 4) < count / 4 then 4 * cd.Got(block, count / 4)
    else if count % 4 != 0 && !cd.Readable(block + count / 4) then 4 * (count / 4)
    else count
  }

  predicate AllReadable(cd: Cd, first: nat, n: nat) { forall b :: first <= b < first + n ==> cd.Readable(b) }

  /** Only the destination and the bounce buffer changed. */
  predicate KeptBut(m: seq<byte>, m': seq<byte>, buf: nat, n: nat, cdbuf: nat) {
    |m'| == |m| && forall i :: 0 <= i < |m| && !(buf <= i < buf + n) && !(cdbuf <= i < cdbuf + CDROM_SECTOR_SIZE) ==> m'[i] == m[i]
  }

  lemma DeliveredKept(m: seq<byte>, m': seq<byte>, at: nat, k: nat, cdbuf: nat, buf: nat, n: nat, disk: seq<byte>, from: nat)
    requires Delivered(m, buf, n, disk, from) && KeptBut(m, m', at, k, cdbuf)
    requires Clear(buf, n, at, k) && Clear(buf, n, cdbuf, CDROM_SECTOR_SIZE)
    ensures Delivered(m', buf, n, disk, from)
  {}

  lemma DeliveredMore(m: seq<byte>, buf: nat, n: nat, k: nat, disk: seq<byte>, from: nat)
    requires Delivered(m, buf, n, disk, from) && Delivered(m, buf + n, k, disk, from + n)
    ensures Delivered(m, buf, n + k, disk, from)
  {}

  lemma KeptTwice(m: seq<byte>, m1: seq<byte>, m2: seq<byte>, a: nat, n: nat, b: nat, k: nat, buf: nat, total: nat, cdbuf: nat)
    requires KeptBut(m, m1, a, n, cdbuf) && KeptBut(m1, m2, b, k, cdbuf)
    requires buf <= a && a + n <= buf + total && buf <= b && b + k <= buf + total
    ensures KeptBut(m, m2, buf, total, cdbuf)
  {}

  /** Reads one CD sector to the bounce buffer and copies some of its four parts. */
  method ReadPart(cd: Cd, op: DiskOp, dop: DiskOp, mem: array<byte>, skip: nat, part: nat, cdbuf: nat) returns (ret: int)
    requires op != dop && skip + part <= 4 && op.buf + part * DISK_SECTOR_SIZE <= mem.Length
    requires cdbuf + CDROM_SECTOR_SIZE <= mem.Length && Clear(op.buf, part * DISK_SECTOR_SIZE, cdbuf, CDROM_SECTOR_SIZE)
    modifies op`count, dop`count, dop`buf, mem
    ensures ret == SUCCESS <==> cd.Readable(dop.lba)
    ensures op.count == old(op.count) + if ret == SUCCESS then part else 0
    ensures ret == SUCCESS ==> Delivered(mem[..], op.buf, part * DISK_SECTOR_SIZE, cd.disk,
                                         dop.lba * CDROM_SECTOR_SIZE + skip * DISK_SECTOR_SIZE)
    ensures KeptBut(old(mem[..]), mem[..], op.buf, if ret == SUCCESS then part * DISK_SECTOR_SIZE else 0, cdbuf)
  {
    dop.count, dop.buf := 1, cdbuf;
    OneBlock(cd, dop.lba);
    ret := cd.ProcessOp(dop, mem);
    if ret != SUCCESS {
      return;
    }
    Copy(mem, op.buf, cdbuf + skip * 512, part * 512);
    op.count := op.count + part;
  }

  lemma OneBlock(cd: Cd, lba: nat)
    ensures cd.Leading(lba, 1) == 1 <==> cd.Readable(lba)
    ensures cd.Readable(lba) ==> cd.Got(lba, 1) == 1
  {
    assert cd.Leading(lba + 1, 0) == 0;
  }

  /** Where the read stands: `done` sectors of the request are delivered. */
  ghost predicate Standing(m0: seq<byte>, m: seq<byte>, buf: nat, total: nat, done: nat, cdbuf: nat, disk: seq<byte>, from: nat) {
    && done <= total && KeptBut(m0, m, buf, total * DISK_SECTOR_SIZE, cdbuf)
    && (done > 0 ==> Delivered(m, buf, done * DISK_SECTOR_SIZE, disk, from))
  }

  /** One more step of the read. */
  lemma {:induction false} Advance(m0: seq<byte>, m: seq<byte>, m': seq<byte>, buf: nat, total: nat, done: nat, more: nat, touched: nat,
                                   cdbuf: nat, disk: seq<byte>, from: nat)
    requires Standing(m0, m, buf, total, done, cdbuf, disk, from) && more <= touched && done + touched <= total
    requires Clear(buf, total * DISK_SECTOR_SIZE, cdbuf, CDROM_SECTOR_SIZE)
    requires KeptBut(m, m', buf + done * DISK_SECTOR_SIZE, touched * DISK_SECTOR_SIZE, cdbuf)
    requires more > 0 ==> Delivered(m', buf + done * DISK_SECTOR_SIZE, more * DISK_SECTOR_SIZE, disk, from + done * DISK_SECTOR_SIZE)
    ensures Standing(m0, m', buf, total, done + more, cdbuf, disk, from)
  {
    hide Delivered, KeptBut;
    KeptTwice(m0, m, m', buf, total * DISK_SECTOR_SIZE, buf + done * DISK_SECTOR_SIZE, touched * DISK_SECTOR_SIZE,
              buf, total * DISK_SECTOR_SIZE, cdbuf);
    if done > 0 {
      DeliveredKept(m, m', buf + done * DISK_SECTOR_SIZE, touched * DISK_SECTOR_SIZE, cdbuf, buf, done * DISK_SECTOR_SIZE, disk, from);
      if more > 0 {
        DeliveredMore(m', buf, done * DISK_SECTOR_SIZE, more * DISK_SECTOR_SIZE, disk, from);
      }
    }
  }

  /** cdemu_read: `cdbuf` is the bounce buffer for one CD sector, `ilba` where the disk image
      begins on the CD. It succeeds exactly when every CD sector that it touches can be read;
      success or not, the first op.count sectors are the requested ones. */
  method CdemuRead(cd: Cd, op: DiskOp, mem: array<byte>, ilba: nat, cdbuf: nat) returns (ret: int)
    requires op.count <= 128 && op.buf + op.count * DISK_SECTOR_SIZE <= mem.Length
    requires cdbuf + CDROM_SECTOR_SIZE <= mem.Length && Clear(op.buf, op.count * DISK_SECTOR_SIZE, cdbuf, CDROM_SECTOR_SIZE)
    modifies op, mem
    ensures ret == SUCCESS <==> AllReadable(cd, ilba + old(op.lba) / 4, Touched(old(op.lba), old(op.count)))
    ensures op.count == Answer(cd, ilba + old(op.lba) / 4, old(op.lba), old(op.count))
    ensures ret == SUCCESS ==> op.count == old(op.count)
    ensures op.count > 0 ==>
              Delivered(mem[..], old(op.buf), op.count * DISK_SECTOR_SIZE, cd.disk,
                        ilba * CDROM_SECTOR_SIZE + old(op.lba) * DISK_SECTOR_SIZE)
    ensures KeptBut(old(mem[..]), mem[..], old(op.buf), old(op.count) * DISK_SECTOR_SIZE, cdbuf)
  {
    hide Delivered, KeptBut, WroteAt, Standing, Ready, Clear, Answer, AnswerRest, Touched, AllReadable;
    var dop := new DiskOp(ilba + op.lba / 4, 0, 0);
    var count := op.count;
    op.count := 0;
    ghost var buf, total, from, m0 := op.buf, count, ilba * CDROM_SECTOR_SIZE + op.lba * DISK_SECTOR_SIZE, mem[..];
    ghost var first, lba := dop.lba, op.lba;
    StandingStart(m0, buf, total, cdbuf, cd.disk, from);
    FirstReadable(cd, first, lba, total);
    if op.lba % 4 != 0 {
      ret, count := ReadFirst(cd, op, dop, mem, count, cdbuf, m0, buf, from);
      if ret != SUCCESS {
        StandingMeans(m0, mem[..], buf, total, op.count, cdbuf, cd.disk, from);
        return;
      }
    } else {
      ReadyStart(op, dop, buf, from);
    }
    ret := ReadRest(cd, op, dop, mem, count, cdbuf, m0, buf, total, from);
    StandingMeans(m0, mem[..], buf, total, op.count, cdbuf, cd.disk, from);
  }

  /** What is behind the part in the first CD sector. */
  method ReadRest(cd: Cd, op: DiskOp, dop: DiskOp, mem: array<byte>, count0: nat, cdbuf: nat,
                  ghost m0: seq<byte>, ghost buf: nat, ghost total: nat, ghost from: nat) returns (ret: int)
    requires op != dop && count0 <= 128 && op.count + count0 == total && buf + total * DISK_SECTOR_SIZE <= mem.Length
    requires (count0 > 0 ==> Ready(op, dop, buf, from)) && Standing(m0, mem[..], buf, total, op.count, cdbuf, cd.disk, from)
    requires cdbuf + CDROM_SECTOR_SIZE <= mem.Length && Clear(buf, total * DISK_SECTOR_SIZE, cdbuf, CDROM_SECTOR_SIZE)
    modifies op, dop, mem
    ensures Standing(m0, mem[..], buf, total, op.count, cdbuf, cd.disk, from)
    ensures ret == SUCCESS <==> AllReadable(cd, old(dop.lba), (count0 + 3) / 4)
    ensures op.count == old(op.count) + AnswerRest(cd, old(dop.lba), count0)
    ensures ret == SUCCESS ==> op.count == total
  {
    hide Delivered, KeptBut, WroteAt, Standing, Ready, Clear, AllReadable;
    var count := count0;
    RestReadable(cd, dop.lba, count);
    if count > 3 {
      ret := ReadWhole(cd, op, dop, mem, count, cdbuf, m0, buf, total, from);
      if ret != SUCCESS {
        return;
      }
      count := count % 4;
    }
    if count != 0 {
      ret := ReadLast(cd, op, dop, mem, count, cdbuf, m0, buf, total, from);
      if ret != SUCCESS {
        return;
      }
    }
    return SUCCESS;
  }

  lemma RestReadable(cd: Cd, block: nat, count: nat)
    ensures AllReadable(cd, block, (count + 3) / 4)
            <==> cd.Leading(block, count / 4) == count / 4 && (count % 4 != 0 ==> cd.Readable(block + count / 4))
    ensures cd.Leading(block, 0) == 0
  {
    LeadingAll(cd, block, count / 4);
    assert (count + 3) / 4 == count / 4 + if count % 4 == 0 then 0 else 1;
  }

  lemma FirstReadable(cd: Cd, first: nat, lba: nat, count: nat)
    ensures AllReadable(cd, first, Touched(lba, count))
            <==> (lba % 4 != 0 ==> cd.Readable(first)) && AllReadable(cd, Whole(first, lba), (count - Head(lba, count) + 3) / 4)
    ensures Answer(cd, first, lba, count) == if lba % 4 != 0 && !cd.Readable(first) then 0
                                             else Head(lba, count) + AnswerRest(cd, Whole(first, lba), count - Head(lba, count))
  {
    hide AnswerRest;
    if lba % 4 != 0 { SplitReadable(cd, first, (count - Head(lba, count) + 3) / 4); }
  }

  lemma SplitReadable(cd: Cd, b: nat, n: nat)
    ensures AllReadable(cd, b, n + 1) <==> cd.Readable(b) && AllReadable(cd, b + 1, n)
  {}

  lemma {:induction false} LeadingAll(cd: Cd, b: nat, n: nat)
    ensures cd.Leading(b, n) == n <==> AllReadable(cd, b, n)
    decreases n
  {
    hide AllReadable, cd.Readable;
    if n > 0 {
      LeadingAll(cd, b + 1, n - 1);
      SplitReadable(cd, b, n - 1);
    } else {
      NoneToRead(cd, b);
    }
  }

  lemma NoneToRead(cd: Cd, b: nat)
    ensures AllReadable(cd, b, 0) && cd.Leading(b, 0) == 0
  {}

  lemma {:induction false} LeadingFrom(cd: Cd, b: nat, n: nat, k: nat)
    requires k <= n
    ensures cd.Leading(b, n) == if cd.Leading(b, k) < k then cd.Leading(b, k) else k + cd.Leading(b + k, n - k)
    decreases n
  {
    hide cd.Readable;
    if k > 0 {
      LeadingFrom(cd, b + 1, n - 1, k - 1);
    } else {
      NoneToRead(cd, b);
    }
  }

  /** With a driver that reports the blocks it has read, exactly the sectors before the first CD
      sector that cannot be read are delivered. */
  lemma {:induction false} AnswerIsLeading(cd: Cd, first: nat, lba: nat, count: nat)
    requires forall b, n :: cd.report(b, n) == cd.Leading(b, n)
    ensures var before := 4 * cd.Leading(first, Touched(lba, count)) - lba % 4;
            Answer(cd, first, lba, count) == if before < 0 then 0 else if before < count then before else count
  {
    hide cd.Leading, cd.Readable, AnswerRest;
    var rest := count - Head(lba, count);
    RestIsLeading(cd, Whole(first, lba), rest);
    if lba % 4 != 0 {
      OneBlock(cd, first);
      LeadingFrom(cd, first, Touched(lba, count), 1);
      if !cd.Readable(first) { assert cd.Leading(first, 1) == 0; }
    }
  }

  lemma {:induction false} RestIsLeading(cd: Cd, block: nat, count: nat)
    requires forall b, n :: cd.report(b, n) == cd.Leading(b, n)
    ensures var before := 4 * cd.Leading(block, (count + 3) / 4);
            AnswerRest(cd, block, count) == if before < count then before else count
  {
    hide cd.Leading, cd.Readable;
    var whole := count / 4;
    assert (count + 3) / 4 == whole + if count % 4 == 0 then 0 else 1;
    LeadingFrom(cd, block, (count + 3) / 4, whole);
    if count % 4 != 0 {
      OneBlock(cd, block + whole);
    } else {
      NoneToRead(cd, block + whole);
    }
  }

  /** The next sector to deliver begins a CD sector, and the pointers have moved up to it. */
  predicate Ready(op: DiskOp, dop: DiskOp, buf: nat, from: nat)
    reads op, dop
  {
    op.buf == buf + op.count * DISK_SECTOR_SIZE && dop.lba * CDROM_SECTOR_SIZE == from + op.count * DISK_SECTOR_SIZE
  }

  lemma ReadyStart(op: DiskOp, dop: DiskOp, buf: nat, from: nat)
    requires op.count == 0 && op.buf == buf && op.lba % 4 == 0
    requires exists ilba: nat :: from == ilba * CDROM_SECTOR_SIZE + op.lba * DISK_SECTOR_SIZE && dop.lba == ilba + op.lba / 4
    ensures Ready(op, dop, buf, from)
  {}

  /** The beginning of cdemu_read: the part of the first CD sector behind the start. */
  method ReadFirst(cd: Cd, op: DiskOp, dop: DiskOp, mem: array<byte>, total: nat, cdbuf: nat,
                   ghost m0: seq<byte>, ghost buf: nat, ghost from: nat) returns (ret: int, count: nat)
    requires op != dop && op.count == 0 && op.buf == buf && op.lba % 4 != 0 && buf + total * DISK_SECTOR_SIZE <= mem.Length
    requires dop.lba * CDROM_SECTOR_SIZE + op.lba % 4 * DISK_SECTOR_SIZE == from && m0 == mem[..]
    requires cdbuf + CDROM_SECTOR_SIZE <= mem.Length && Clear(buf, total * DISK_SECTOR_SIZE, cdbuf, CDROM_SECTOR_SIZE)
    modifies op, dop, mem
    ensures Standing(m0, mem[..], buf, total, op.count, cdbuf, cd.disk, from)
    ensures ret == SUCCESS <==> cd.Readable(old(dop.lba))
    ensures ret != SUCCESS ==> op.count == 0
    ensures ret == SUCCESS ==> op.count == Head(old(op.lba), total) && count == total - op.count && dop.lba == old(dop.lba) + 1
                               && (count > 0 ==> Ready(op, dop, buf, from))
  {
    hide Delivered, KeptBut, WroteAt, Standing;
    var thiscount := 4 - op.lba % 4;
    if thiscount > total {
      thiscount := total;
    }
    StandingStart(m0, buf, total, cdbuf, cd.disk, from);
    ret := ReadPart(cd, op, dop, mem, op.lba % 4, thiscount, cdbuf);
    Advance(m0, m0, mem[..], buf, total, 0, op.count, op.count, cdbuf, cd.disk, from);
    count := total - thiscount;
    if ret == SUCCESS {
      op.buf := op.buf + thiscount * 512;
      dop.lba := dop.lba + 1;
    }
  }

  /** The end of cdemu_read: the first part of the last CD sector. */
  method ReadLast(cd: Cd, op: DiskOp, dop: DiskOp, mem: array<byte>, count: nat, cdbuf: nat,
                  ghost m0: seq<byte>, ghost buf: nat, ghost total: nat, ghost from: nat) returns (ret: int)
    requires op != dop && 0 < count <= 3 && op.count + count == total && buf + total * DISK_SECTOR_SIZE <= mem.Length
    requires Ready(op, dop, buf, from) && Standing(m0, mem[..], buf, total, op.count, cdbuf, cd.disk, from)
    requires cdbuf + CDROM_SECTOR_SIZE <= mem.Length && Clear(buf, total * DISK_SECTOR_SIZE, cdbuf, CDROM_SECTOR_SIZE)
    modifies op, dop, mem
    ensures Standing(m0, mem[..], buf, total, op.count, cdbuf, cd.disk, from)
    ensures ret == SUCCESS <==> cd.Readable(old(dop.lba))
    ensures op.count == if ret == SUCCESS then total else old(op.count)
  {
    hide Delivered, KeptBut, WroteAt, Standing;
    ghost var m1, done := mem[..], op.count;
    ret := ReadPart(cd, op, dop, mem, 0, count, cdbuf);
    Advance(m0, m1, mem[..], buf, total, done, op.count - done, op.count - done, cdbuf, cd.disk, from);
  }

  /** The middle of cdemu_read: all whole CD sectors straight to the destination. */
  method ReadWhole(cd: Cd, op: DiskOp, dop: DiskOp, mem: array<byte>, count: nat, cdbuf: nat,
                   ghost m0: seq<byte>, ghost buf: nat, ghost total: nat, ghost from: nat) returns (ret: int)
    requires op != dop && 4 <= count <= 128 && op.count + count == total && buf + total * DISK_SECTOR_SIZE <= mem.Length
    requires Ready(op, dop, buf, from) && Standing(m0, mem[..], buf, total, op.count, cdbuf, cd.disk, from)
    requires Clear(buf, total * DISK_SECTOR_SIZE, cdbuf, CDROM_SECTOR_SIZE)
    modifies op, dop, mem
    ensures Standing(m0, mem[..], buf, total, op.count, cdbuf, cd.disk, from)
    ensures ret == SUCCESS <==> cd.Leading(old(dop.lba), count / 4) == count / 4
    ensures op.count == old(op.count) + 4 * cd.Got(old(dop.lba), count / 4)
    ensures ret == SUCCESS ==> op.count == total - count % 4 && Ready(op, dop, buf, from) && dop.lba == old(dop.lba) + count / 4
  {
    hide Delivered, KeptBut, WroteAt, Standing, Clear, cd.Leading, cd.Got;
    ghost var m1, done := mem[..], op.count;
    WholeSectors(count);
    dop.count, dop.buf := count / 4, op.buf;
    ret := cd.ProcessOp(dop, mem);
    op.count := op.count + dop.count * 4;
    WroteIsKept(m1, mem[..], op.buf, count / 4 * CDROM_SECTOR_SIZE, cdbuf);
    Advance(m0, m1, mem[..], buf, total, done, dop.count * 4, count / 4 * 4, cdbuf, cd.disk, from);
    if ret != SUCCESS {
      return;
    }
    var thiscount := (count - count % 4) % 256;
    op.buf := op.buf + thiscount * 512;
    dop.lba := dop.lba + thiscount / 4;
  }

  lemma WholeSectors(count: nat)
    requires count <= 128
    ensures (count - count % 4) % 256 == count - count % 4 == 4 * (count / 4) && (count - count % 4) / 4 == count / 4
  {}

  lemma StandingStart(m: seq<byte>, buf: nat, total: nat, cdbuf: nat, disk: seq<byte>, from: nat)
    ensures Standing(m, m, buf, total, 0, cdbuf, disk, from)
  {}

  lemma StandingMeans(m0: seq<byte>, m: seq<byte>, buf: nat, total: nat, done: nat, cdbuf: nat, disk: seq<byte>, from: nat)
    requires Standing(m0, m, buf, total, done, cdbuf, disk, from)
    ensures done <= total && KeptBut(m0, m, buf, total * DISK_SECTOR_SIZE, cdbuf)
    ensures done > 0 ==> Delivered(m, buf, done * DISK_SECTOR_SIZE, disk, from)
  {}

  lemma WroteIsKept(m: seq<byte>, m': seq<byte>, buf: nat, n: nat, cdbuf: nat)
    requires WroteAt(m, m', buf, n)
    ensures KeptBut(m, m', buf, n, cdbuf)
  {}

  /** Short of a success, some requested sector is missing. */
  lemma AnswerAll(cd: Cd, first: nat, lba: nat, count: nat)
    requires 0 < count
    ensures Answer(cd, first, lba, count) == count <==> AllReadable(cd, first, Touched(lba, count))
  {
    hide AllReadable;
    FirstReadable(cd, first, lba, count);
    RestReadable(cd, Whole(first, lba), count - Head(lba, count));
  }

  /** process_op for the emulated drive, whose sectors have 512 bytes. */
  method ReadEmulated(cd: Cd, op: DiskOp, mem: array<byte>, ilba: nat, cdbuf: nat) returns (ret: int)
    requires op.buf + op.count * DISK_SECTOR_SIZE <= mem.Length
    requires cdbuf + CDROM_SECTOR_SIZE <= mem.Length && Clear(op.buf, op.count * DISK_SECTOR_SIZE, cdbuf, CDROM_SECTOR_SIZE)
    modifies op, mem
    ensures old(op.count) > 128 ==> ret == EBOUNDARY && op.count == 0
    ensures old(op.count) <= 128 ==>
              (ret == SUCCESS <==> AllReadable(cd, ilba + old(op.lba) / 4, Touched(old(op.lba), old(op.count))))
              && op.count == Answer(cd, ilba + old(op.lba) / 4, old(op.lba), old(op.count))
    ensures ret == SUCCESS ==> op.count == old(op.count)
    ensures ret != SUCCESS && 0 < old(op.count) ==> op.count < old(op.count)
    ensures op.count > 0 ==>
              Delivered(mem[..], old(op.buf), op.count * DISK_SECTOR_SIZE, cd.disk,
                        ilba * CDROM_SECTOR_SIZE + old(op.lba) * DISK_SECTOR_SIZE)
    ensures KeptBut(old(mem[..]), mem[..], old(op.buf), old(op.count) * DISK_SECTOR_SIZE, cdbuf)
  {
    hide Answer, Touched, AllReadable, Delivered;
    var origcount := op.count;
    if origcount * DISK_SECTOR_SIZE > 64 * 1024 {
      op.count := 0;
      return EBOUNDARY;
    }
    if op.count > 0 { AnswerAll(cd, ilba + op.lba / 4, op.lba, op.count); }
    ret := CdemuRead(cd, op, mem, ilba, cdbuf);
    if ret != SUCCESS && op.count == origcount {
      op.count := 0;
    }
  }
}

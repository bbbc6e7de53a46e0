// Scrolling a text window in place: memmove_stride, memset16_stride, vgafb_move_chars,
// vgafb_clear_chars and vgafb_scroll of vgasrc/vgafb.c, in text mode.

module Scroll {
  import opened Arith

  type u8 = x: int | 0 <= x < 0x100

  /** One character cell of the framebuffer: character and attribute. */
  type cell = x: int | 0 <= x < 0x1_0000

  datatype Pos = Pos(x: u8, y: u8)

  datatype CharAttr = CharAttr(car: u8, attr: u8, useAttr: bool)

  // ---- Rectangles of cells ----

  /** The cell at offset i lies in rows y0.. y0 + h and columns x0.. x0 + w of the page at b. */
  predicate InRect(i: int, b: int, cols: int, y0: int, h: int, x0: int, w: int)
    requires cols > 0
  {
    b <= i && y0 <= (i - b) / cols < y0 + h && x0 <= (i - b) % cols < x0 + w
  }

  function CellAt(b: int, cols: int, y: int, x: int): int { b + y * cols + x }

  /** The cells of a rectangle, counted row by row. */
  lemma {:induction false} InRectIs(i: int, b: int, cols: int, y0: int, h: int, x0: int, w: int)
    requires cols > 0 && 0 <= y0 && 0 <= x0 && x0 + w <= cols
    ensures InRect(i, b, cols, y0, h, x0, w) <==>
              exists y, x :: y0 <= y < y0 + h && x0 <= x < x0 + w && i == CellAt(b, cols, y, x)
    ensures forall y, x :: CellAt(b, cols, y, x) == b + y * cols + x
  {
    if InRect(i, b, cols, y0, h, x0, w) {
      assert i == CellAt(b, cols, (i - b) / cols, (i - b) % cols);
    }
    forall y, x | y0 <= y < y0 + h && x0 <= x < x0 + w && i == CellAt(b, cols, y, x) ensures InRect(i, b, cols, y0, h, x0, w) {
      MulNat(y, cols);
      DivMod(i - b, y, cols, x);
    }
  }

  /** One row of a rectangle is a run of cells. */
  lemma RowIs(i: int, b: int, cols: int, y: int, x0: int, w: int)
    requires cols > 0 && 0 <= y && 0 <= x0 && x0 + w <= cols && 0 <= w
    ensures InRect(i, b, cols, y, 1, x0, w) <==> CellAt(b, cols, y, x0) <= i < CellAt(b, cols, y, x0) + w
  {
    var c := CellAt(b, cols, y, x0);
    if c <= i < c + w {
      MulLe(0, cols, y, cols);
      DivMod(i - b, y, cols, x0 + (i - c));
    }
    if InRect(i, b, cols, y, 1, x0, w) {
      assert (i - b) / cols == y;
      assert i - b == (i - b) / cols * cols + (i - b) % cols;
    }
  }

  /** A rectangle with one more row at its end, or at its beginning. */
  lemma RowBelow(i: int, b: int, cols: int, y0: int, h: int, x0: int, w: int)
    requires cols > 0 && 0 <= h
    ensures InRect(i, b, cols, y0, h + 1, x0, w) <==> InRect(i, b, cols, y0, h, x0, w) || InRect(i, b, cols, y0 + h, 1, x0, w)
    ensures InRect(i, b, cols, y0 - 1, h + 1, x0, w) <==> InRect(i, b, cols, y0, h, x0, w) || InRect(i, b, cols, y0 - 1, 1, x0, w)
    ensures !(InRect(i, b, cols, y0, h, x0, w) && InRect(i, b, cols, y0 + h, 1, x0, w))
  {}

  // ---- Copying and filling rows ----

  /** The n cells at c have been taken from `delta` further on. */
  predicate RunCopied(m: seq<cell>, m': seq<cell>, c: int, n: int, delta: int) {
    && |m'| == |m| && 0 <= c && 0 <= n && c + n <= |m| && 0 <= c + delta && c + n + delta <= |m|
    && (forall i :: c <= i < c + n ==> m'[i] == m[i + delta])
    && (forall i :: 0 <= i < |m| && !(c <= i < c + n) ==> m'[i] == m[i])
  }

  predicate MovedAt(m: seq<cell>, m': seq<cell>, i: int, b: int, cols: int, y: int, h: int, d: int, x0: int, w: int)
    requires cols > 0 && |m'| == |m| && 0 <= i < |m|
  {
    if InRect(i, b, cols, y, h, x0, w) then 0 <= i + d * cols < |m| && m'[i] == m[i + d * cols] else m'[i] == m[i]
  }

  /** The rectangle has been taken from d rows further down; nothing else changed. */
  predicate Moved(m: seq<cell>, m': seq<cell>, b: int, cols: int, y: int, h: int, d: int, x0: int, w: int)
    requires cols > 0
  {
    |m'| == |m| && forall i :: 0 <= i < |m| ==> MovedAt(m, m', i, b, cols, y, h, d, x0, w)
  }

  /** memcpy_far within the framebuffer */
  method CopyRun(mem: array<cell>, dst: nat, src: nat, n: nat)
    requires dst + n <= mem.Length && src + n <= mem.Length && (dst + n <= src || src + n <= dst)
    modifies mem
    ensures RunCopied(old(mem[..]), mem[..], dst, n, src - dst)
  {
    for j := 0 to n
      invariant forall i :: 0 <= i < mem.Length ==> mem[i] == if dst <= i < dst + j then old(mem[i + (src - dst)]) else old(mem[i])
    {
      mem[dst + j] := mem[src + j];
    }
  }

  /** One more row, ahead of those already moved when the text moves up and behind them when
      it moves down, takes its cells from a row that is still unchanged. */
  lemma {:induction false} MoveStep(m0: seq<cell>, m: seq<cell>, m': seq<cell>, b: int, cols: int, y: int, k: int, d: int, x0: int, w: int, row: int)
    requires cols > 0 && 0 <= b && 0 <= x0 && 0 <= w && x0 + w <= cols && 0 <= k && 0 <= row && 0 <= row + d
    requires Moved(m0, m, b, cols, y, k, d, x0, w)
    requires RunCopied(m, m', CellAt(b, cols, row, x0), w, d * cols)
    requires (d > 0 && row == y + k) || (d < 0 && row == y - 1)
    ensures Moved(m0, m', b, cols, if d > 0 then y else y - 1, k + 1, d, x0, w)
  {
    hide InRect;
    var y', n := if d > 0 then y else y - 1, k + 1;
    forall i | 0 <= i < |m0| ensures MovedAt(m0, m', i, b, cols, y', n, d, x0, w) {
      assert MovedAt(m0, m, i, b, cols, y, k, d, x0, w);
      RowIs(i, b, cols, row, x0, w);
      RowBelow(i, b, cols, y, k, x0, w);
      if InRect(i, b, cols, row, 1, x0, w) {
        var s := i + d * cols;
        RowStart(b, cols, row + d, x0);
        assert CellAt(b, cols, row, x0) + d * cols == CellAt(b, cols, row + d, x0) by { RowShift(b, cols, row, d, x0); }
        RowIs(s, b, cols, row + d, x0, w);
        RowsDiffer(s, b, cols, y, k, x0, w, row + d);
        assert MovedAt(m0, m, s, b, cols, y, k, d, x0, w);
        assert m'[i] == m[s] && m[s] == m0[s];
      } else {
        assert m'[i] == m[i];
      }
    }
  }

  lemma RowStart(b: int, cols: int, y: int, x: int)
    requires 0 <= b && cols > 0 && 0 <= y && 0 <= x
    ensures b <= CellAt(b, cols, y, x)
  {
    MulNat(y, cols);
  }

  lemma RowShift(b: int, cols: int, y: int, d: int, x: int)
    ensures CellAt(b, cols, y + d, x) == CellAt(b, cols, y, x) + d * cols
  {
    assert (y + d) * cols == y * cols + d * cols;
  }

  lemma RowsDiffer(i: int, b: int, cols: int, y: int, k: int, x0: int, w: int, row: int)
    requires cols > 0 && InRect(i, b, cols, row, 1, x0, w) && (row < y || y + k <= row)
    ensures !InRect(i, b, cols, y, k, x0, w)
  {}

  /** A run of a row lies in the page. */
  lemma RunInPage(b: int, cols: int, rows: int, y: int, x0: int, w: int, len: int)
    requires 0 <= b && cols > 0 && 0 <= y < rows && 0 <= x0 && 0 <= w && x0 + w <= cols && b + rows * cols <= len
    ensures 0 <= CellAt(b, cols, y, x0) && CellAt(b, cols, y, x0) + w <= len
  {
    MulLe(y + 1, cols, rows, cols);
    MulNat(y, cols);
    assert (y + 1) * cols == y * cols + cols;
  }

  /** memmove_stride for rows of one page: from row ys to row yd. */
  method MemmoveStride(mem: array<cell>, dst0: int, src0: int, copylen: nat, stride0: int, lines: nat,
                       ghost b: int, ghost rows: int, ghost yd: int, ghost ys: int, ghost x0: int)
    requires stride0 > 0 && 0 <= b && b + rows * stride0 <= mem.Length && 0 <= x0 && x0 + copylen <= stride0
    requires 0 <= yd && yd + lines <= rows && 0 <= ys && ys + lines <= rows && yd != ys
    requires dst0 == CellAt(b, stride0, yd, x0) && src0 == CellAt(b, stride0, ys, x0)
    modifies mem
    ensures Moved(old(mem[..]), mem[..], b, stride0, yd, lines, ys - yd, x0, copylen)
  {
    hide Moved, RunCopied, CellAt;
    ghost var d := ys - yd;
    RowShift(b, stride0, yd, d, x0);
    var dst, src, stride := dst0, src0, stride0;
    SignOf(d, stride0);
    if src < dst {
      RowShift(b, stride0, yd, lines - 1, x0);
      dst := dst + stride * (lines - 1);
      src := src + stride * (lines - 1);
      stride := -stride;
    }
    NothingMoved(mem[..], b, stride0, if d > 0 then yd else yd + lines, d, x0, copylen);
    for n := 0 to lines
      invariant stride == if d > 0 then stride0 else 0 - stride0
      invariant dst == CellAt(b, stride0, if d > 0 then yd + n else yd + lines - 1 - n, x0) && src == dst + d * stride0
      invariant Moved(old(mem[..]), mem[..], b, stride0, if d > 0 then yd else yd + lines - n, n, d, x0, copylen)
    {
      ghost var row := if d > 0 then yd + n else yd + lines - 1 - n;
      RunInPage(b, stride0, rows, row, x0, copylen, mem.Length);
      RunInPage(b, stride0, rows, row + d, x0, copylen, mem.Length);
      RowShift(b, stride0, row, d, x0);
      RowShift(b, stride0, row, 1, x0);
      RowShift(b, stride0, row, -1, x0);
      FarApart(d, stride0, copylen);
      ghost var before := mem[..];
      CopyRun(mem, dst, src, copylen);
      MoveStep(old(mem[..]), before, mem[..], b, stride0, if d > 0 then yd else yd + lines - n, n, d, x0, copylen, row);
      dst := dst + stride;
      src := src + stride;
    }
  }

  lemma SignOf(d: int, cols: int)
    requires d != 0 && cols > 0
    ensures d * cols < 0 <==> d < 0
  {
    MulSign(d, cols);
  }

  lemma FarApart(d: int, cols: int, w: int)
    requires d != 0 && cols > 0 && 0 <= w <= cols
    ensures w <= d * cols || d * cols <= 0 - w
  {
    MulSign(d, cols);
  }

  lemma NothingMoved(m: seq<cell>, b: int, cols: int, y: int, d: int, x0: int, w: int)
    requires cols > 0
    ensures Moved(m, m, b, cols, y, 0, d, x0, w)
  {}

  /** The rectangle has been filled with one cell value. */
  predicate Filled(m: seq<cell>, m': seq<cell>, b: int, cols: int, y: int, h: int, x0: int, w: int, val: cell)
    requires cols > 0
  {
    |m'| == |m| && forall i :: 0 <= i < |m| ==> m'[i] == if InRect(i, b, cols, y, h, x0, w) then val else m[i]
  }

  /** memset16_stride for rows of one page */
  method Memset16Stride(mem: array<cell>, dst0: int, val: cell, setlen: nat, stride: int, lines: nat,
                        ghost b: int, ghost rows: int, ghost y: int, ghost x0: int)
    requires stride > 0 && 0 <= b && b + rows * stride <= mem.Length && 0 <= x0 && x0 + setlen <= stride
    requires 0 <= y && y + lines <= rows && dst0 == CellAt(b, stride, y, x0)
    modifies mem
    ensures Filled(old(mem[..]), mem[..], b, stride, y, lines, x0, setlen, val)
  {
    hide Filled, CellAt, InRect;
    var dst := dst0;
    NothingFilled(mem[..], b, stride, y, x0, setlen, val);
    for n := 0 to lines
      invariant dst == CellAt(b, stride, y + n, x0)
      invariant Filled(old(mem[..]), mem[..], b, stride, y, n, x0, setlen, val)
    {
      RunInPage(b, stride, rows, y + n, x0, setlen, mem.Length);
      RowShift(b, stride, y + n, 1, x0);
      ghost var before := mem[..];
      forall j | 0 <= j < setlen {
        mem[dst + j] := val;
      }
      assert forall i :: 0 <= i < |before| ==> mem[..][i] == if dst <= i < dst + setlen then val else before[i];
      FillStep(old(mem[..]), before, mem[..], b, stride, y, n, x0, setlen, val);
      dst := dst + stride;
    }
  }

  lemma NothingFilled(m: seq<cell>, b: int, cols: int, y: int, x0: int, w: int, val: cell)
    requires cols > 0
    ensures Filled(m, m, b, cols, y, 0, x0, w, val)
  {}

  lemma {:induction false} FillStep(m0: seq<cell>, m: seq<cell>, m': seq<cell>, b: int, cols: int, y: int, k: int, x0: int, w: int, val: cell)
    requires cols > 0 && 0 <= b && 0 <= x0 && 0 <= w && x0 + w <= cols && 0 <= k && 0 <= y
    requires Filled(m0, m, b, cols, y, k, x0, w, val) && |m'| == |m|
    requires var c := CellAt(b, cols, y + k, x0); forall i :: 0 <= i < |m| ==> m'[i] == if c <= i < c + w then val else m[i]
    ensures Filled(m0, m', b, cols, y, k + 1, x0, w, val)
  {
    hide InRect, CellAt;
    forall i | 0 <= i < |m0| ensures m'[i] == if InRect(i, b, cols, y, k + 1, x0, w) then val else m0[i] {
      RowIs(i, b, cols, y + k, x0, w);
      RowBelow(i, b, cols, y, k, x0, w);
    }
  }

  // ---- Windows ----

  /** What the window at `win` shows after a scroll by `lines`: up when positive, down when
      negative, blank when zero. */
  function Scrolled(m: seq<cell>, i: int, b: int, cols: int, win: Pos, size: Pos, lines: int, blank: cell): cell
    requires cols > 0 && 0 <= i < |m|
  {
    if !InRect(i, b, cols, win.y, size.y, win.x, size.x) then m[i]
    else if lines == 0 || !InRect(i + lines * cols, b, cols, win.y, size.y, win.x, size.x) then blank
    else if 0 <= i + lines * cols < |m| then m[i + lines * cols]
    else blank
  }

  class Screen {
    const mem: array<cell>
    /** video_cols, video_rows + 1 and the offset of the active page, in cells */
    const cols: nat
    const rows: nat
    const base: nat

    predicate Valid() { 0 < cols && 0 < rows <= 0x100 && base + rows * cols <= mem.Length }

    constructor (mem: array<cell>, cols: nat, rows: nat, base: nat)
      ensures this.mem == mem && this.cols == cols && this.rows == rows && this.base == base
    {
      this.mem, this.cols, this.rows, this.base := mem, cols, rows, base;
    }

    /** text_address, in cells */
    function TextAddress(p: Pos): int { CellAt(base, cols, p.y, p.x) }

    predicate OnScreen(win: Pos, size: Pos) { win.x + size.x <= cols && win.y + size.y <= rows }

    method MoveChars(dest: Pos, movesize: Pos, lines: int)
      requires Valid() && OnScreen(dest, movesize) && lines != 0 && 0 <= dest.y + lines && dest.y + lines + movesize.y <= rows
      modifies mem
      ensures Moved(old(mem[..]), mem[..], base, cols, dest.y, movesize.y, lines, dest.x, movesize.x)
    {
      hide Moved;
      var destAddr := TextAddress(dest);
      var srcAddr := destAddr + lines * cols;
      RowShift(base, cols, dest.y, lines, dest.x);
      MemmoveStride(mem, destAddr, srcAddr, movesize.x, cols, movesize.y, base, rows, dest.y, dest.y + lines, dest.x);
    }

    method ClearChars(win: Pos, winsize: Pos, ca: CharAttr)
      requires Valid() && OnScreen(win, winsize)
      modifies mem
      ensures Filled(old(mem[..]), mem[..], base, cols, win.y, winsize.y, win.x, winsize.x,
                     (if ca.useAttr then ca.attr else 7) as int * 0x100 + ca.car)
    {
      hide Filled;
      Memset16Stride(mem, TextAddress(win), Blank(ca), winsize.x, cols, winsize.y, base, rows, win.y, win.x);
    }

    /** vgafb_scroll: a simultaneous shift of the window, although its rows move one by one. */
    method Scroll(win0: Pos, winsize0: Pos, lines: int, ca: CharAttr)
      requires Valid() && OnScreen(win0, winsize0) && (lines != 0 ==> 0 - winsize0.y < lines < winsize0.y)
      modifies mem
      ensures forall i :: 0 <= i < mem.Length ==>
                mem[i] == Scrolled(old(mem[..]), i, base, cols, win0, winsize0, lines,
                                   (if ca.useAttr then ca.attr else 7) as int * 0x100 + ca.car)
    {
      hide Moved, Filled, Scrolled;
      var win, winsize := win0, winsize0;
      ghost var m0 := mem[..];
      if lines == 0 {
        ClearChars(win, winsize, ca);
        Cleared(m0, mem[..], base, cols, win0, winsize0, Blank(ca));
      } else if lines > 0 {
        winsize := winsize.(y := winsize.y - lines);
        MoveChars(win, winsize, lines);
        ghost var m1 := mem[..];
        win := win.(y := win.y + winsize.y);
        winsize := winsize.(y := lines);
        ClearChars(win, winsize, ca);
        ScrolledUp(m0, m1, mem[..], base, cols, win0, winsize0, lines, Blank(ca));
      } else {
        win := win.(y := win.y - lines);
        winsize := winsize.(y := winsize.y + lines);
        MoveChars(win, winsize, lines);
        ghost var m1 := mem[..];
        win := win.(y := win.y + lines);
        winsize := winsize.(y := 0 - lines);
        ClearChars(win, winsize, ca);
        ScrolledDown(m0, m1, mem[..], base, cols, win0, winsize0, lines, Blank(ca));
      }
    }
  }

  /** Character and attribute as they stand in the framebuffer. */
  function Blank(ca: CharAttr): cell { (if ca.useAttr then ca.attr else 7) as int * 0x100 + ca.car }

  lemma {:induction false} Cleared(m0: seq<cell>, m: seq<cell>, b: int, cols: int, win: Pos, size: Pos, blank: cell)
    requires cols > 0 && Filled(m0, m, b, cols, win.y, size.y, win.x, size.x, blank)
    ensures forall i :: 0 <= i < |m| ==> m[i] == Scrolled(m0, i, b, cols, win, size, 0, blank)
  {
    hide InRect;
  }

  /** How the shifted rows and the revealed ones make up the window. */
  lemma WindowParts(i: int, b: int, cols: int, y: int, h: int, d: int, x: int, w: int)
    requires cols > 0 && 0 <= b && 0 <= y && 0 <= x && x + w <= cols && 0 < d < h
    ensures InRect(i, b, cols, y, h, x, w) <==> InRect(i, b, cols, y, h - d, x, w) || InRect(i, b, cols, y + h - d, d, x, w)
    ensures !(InRect(i, b, cols, y, h - d, x, w) && InRect(i, b, cols, y + h - d, d, x, w))
    ensures InRect(i, b, cols, y, h, x, w) ==> (InRect(i + d * cols, b, cols, y, h, x, w) <==> InRect(i, b, cols, y, h - d, x, w))
    ensures InRect(i, b, cols, y, h, x, w) <==> InRect(i, b, cols, y + d, h - d, x, w) || InRect(i, b, cols, y, d, x, w)
    ensures !(InRect(i, b, cols, y + d, h - d, x, w) && InRect(i, b, cols, y, d, x, w))
    ensures InRect(i, b, cols, y, h, x, w) ==> (InRect(i - d * cols, b, cols, y, h, x, w) <==> InRect(i, b, cols, y + d, h - d, x, w))
  {
    if b <= i {
      var q, r := (i - b) / cols, (i - b) % cols;
      assert i - b == q * cols + r;
      assert (q + d) * cols == q * cols + d * cols;
      assert (q - d) * cols == q * cols - d * cols;
      DivMod(i + d * cols - b, q + d, cols, r);
      DivMod(i - d * cols - b, q - d, cols, r);
      MulSign(d, cols);
      if q >= d { MulNat(q - d, cols); } else { MulSign(q - d, cols); }
    }
  }

  lemma {:induction false} ScrolledUp(m0: seq<cell>, m1: seq<cell>, m2: seq<cell>, b: int, cols: int, win: Pos, size: Pos, lines: int, blank: cell)
    requires cols > 0 && 0 <= b && 0 < lines < size.y && win.x + size.x <= cols
    requires Moved(m0, m1, b, cols, win.y, size.y - lines, lines, win.x, size.x)
    requires Filled(m1, m2, b, cols, win.y + size.y - lines, lines, win.x, size.x, blank)
    ensures forall i :: 0 <= i < |m2| ==> m2[i] == Scrolled(m0, i, b, cols, win, size, lines, blank)
  {
    hide InRect;
    forall i | 0 <= i < |m2| ensures m2[i] == Scrolled(m0, i, b, cols, win, size, lines, blank) {
      WindowParts(i, b, cols, win.y, size.y, lines, win.x, size.x);
      assert MovedAt(m0, m1, i, b, cols, win.y, size.y - lines, lines, win.x, size.x);
    }
  }

  lemma {:induction false} ScrolledDown(m0: seq<cell>, m1: seq<cell>, m2: seq<cell>, b: int, cols: int, win: Pos, size: Pos, lines: int, blank: cell)
    requires cols > 0 && 0 <= b && 0 < 0 - lines < size.y && win.x + size.x <= cols
    requires Moved(m0, m1, b, cols, win.y - lines, size.y + lines, lines, win.x, size.x)
    requires Filled(m1, m2, b, cols, win.y, 0 - lines, win.x, size.x, blank)
    ensures forall i :: 0 <= i < |m2| ==> m2[i] == Scrolled(m0, i, b, cols, win, size, lines, blank)
  {
    hide InRect;
    var d := 0 - lines;
    forall i | 0 <= i < |m2| ensures m2[i] == Scrolled(m0, i, b, cols, win, size, lines, blank) {
      WindowParts(i, b, cols, win.y, size.y, d, win.x, size.x);
      assert i - d * cols == i + lines * cols;
      assert MovedAt(m0, m1, i, b, cols, win.y - lines, size.y + lines, lines, win.x, size.x);
    }
  }

  // ---- Scroll requests ----

  /** handle_1006 and handle_1007 with verify_scroll: the window that the registers name, cut
      to the screen, moves `al` rows in direction `dir`, or is cleared. */
  method VerifyScroll(s: Screen, al: u8, bh: u8, cl: u8, ch: u8, dl: u8, dh: u8, dir: int)
    requires s.Valid() && s.cols < 0x100 && s.rows < 0x100 && (dir == 1 || dir == -1)
    modifies s.mem
    ensures var lrx := if dl < s.cols then dl as int else s.cols - 1;
            var lry := if dh < s.rows then dh as int else s.rows - 1;
            var w, h := lrx - cl + 1, lry - ch + 1;
            var lines := if al < h then al * dir else 0;
            if w <= 0 || h <= 0 then s.mem[..] == old(s.mem[..])
            else forall i :: 0 <= i < s.mem.Length ==>
              s.mem[i] == Scrolled(old(s.mem[..]), i, s.base, s.cols, Pos(cl, ch), Pos(w, h), lines, bh * 0x100 + 0x20)
  {
    var lry: int := dh;
    if lry >= s.rows { lry := s.rows - 1; }
    var lrx: int := dl;
    if lrx >= s.cols { lrx := s.cols - 1; }
    var wincols, winrows := lrx - cl + 1, lry - ch + 1;
    if wincols <= 0 || winrows <= 0 {
      return;
    }
    var lines: int := al;
    if lines >= winrows { lines := 0; }
    lines := lines * dir;
    s.Scroll(Pos(cl, ch), Pos(wincols, winrows), lines, CharAttr(0x20, bh, true));
  }
}

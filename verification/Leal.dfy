// scripts/vgafixup.py: replacing "leal" (and the call/ret pair) by instructions that
// x86emu executes correctly.

module Leal {
  import opened Arith
  import opened Wrappers

  // ---- The machine ----

  type word = x: int | 0 <= x < TWO32
  type half = x: int | 0 <= x < 0x10000
  type byte = x: int | 0 <= x < 256

  datatype Reg = EAX | ECX | EDX | EBX | ESP | EBP | ESI | EDI

  function Wrap(v: int): word { v % TWO32 }

  /** The address `k` bytes above `a`, or below it where `k` is negative. */
  function At(a: word, k: int): word
    requires 0 - TWO32 < k < TWO32
  {
    if a + k < 0 then a + k + TWO32 else if a + k >= TWO32 then a + k - TWO32 else a + k
  }

  lemma AtIsWrap(a: word, k: int)
    requires 0 - TWO32 < k < TWO32
    ensures At(a, k) == Wrap(a + k)
  {}

  /** Bytes that the map does not mention are 0. */
  type Memory = map<word, byte>

  function Peek(m: Memory, a: word): byte { if a in m then m[a] else 0 }

  function Read16(m: Memory, a: word): half { Peek(m, a) + 0x100 * Peek(m, At(a, 1)) }

  function Write16(m: Memory, a: word, v: half): Memory { m[a := v % 0x100][At(a, 1) := v / 0x100] }

  function Read32(m: Memory, a: word): word { Read16(m, a) + 0x10000 * Read16(m, At(a, 2)) }

  function Write32(m: Memory, a: word, v: word): Memory {
    Write16(Write16(m, a, v % 0x10000), At(a, 2), v / 0x10000)
  }

  /** `flags` is the 16 bit register that pushfw and popfw move. */
  datatype State = State(regs: map<Reg, word>, mem: Memory, flags: half) {
    function R(r: Reg): word { if r in regs then regs[r] else 0 }

    function Set(r: Reg, v: word): State { this.(regs := regs[r := v]) }
  }

  datatype Insn =
    | Movl(src: Reg, dst: Reg)
    | Pushfw
    | Popfw
    | Shll(count: nat, dst: Reg)
    | Addl(src: Reg, dst: Reg)
    | AddlImm(imm: int, dst: Reg)
    | Imull(imm: int, dst: Reg)
    | Pushl(src: Reg)
    | Popl(dst: Reg)

  /** The flags an arithmetic instruction leaves behind are arbitrary: any function of the
      instruction and the state. */
  type FlagRule = (Insn, State) -> half

  function Scaled(x: int, n: nat): int { x * Pow2(n) }

  function Step(i: Insn, st: State, f: FlagRule): State {
    match i
    case Movl(src, dst) => st.Set(dst, st.R(src))
    case Pushfw => st.Set(ESP, At(st.R(ESP), -2)).(mem := Write16(st.mem, At(st.R(ESP), -2), st.flags))
    case Popfw => st.Set(ESP, At(st.R(ESP), 2)).(flags := Read16(st.mem, st.R(ESP)))
    case Shll(n, dst) => st.Set(dst, Wrap(Scaled(st.R(dst), n))).(flags := f(i, st))
    case Addl(src, dst) => st.Set(dst, Wrap(st.R(dst) + st.R(src))).(flags := f(i, st))
    case AddlImm(v, dst) => st.Set(dst, Wrap(st.R(dst) + v)).(flags := f(i, st))
    case Imull(v, dst) => st.Set(dst, Wrap(st.R(dst) * v)).(flags := f(i, st))
    case Pushl(src) => st.Set(ESP, At(st.R(ESP), -4)).(mem := Write32(st.mem, At(st.R(ESP), -4), st.R(src)))
    case Popl(dst) => st.Set(ESP, At(st.R(ESP), 4)).Set(dst, Read32(st.mem, st.R(ESP)))
  }

  function Exec(p: seq<Insn>, st: State, f: FlagRule): State {
    if p == [] then st else Exec(p[1..], Step(p[0], st, f), f)
  }

  lemma ExecConcat(p: seq<Insn>, q: seq<Insn>, st: State, f: FlagRule)
    ensures Exec(p + q, st, f) == Exec(q, Exec(p, st, f), f)
  {
    if p == [] {
      assert p + q == q;
    } else {
      assert (p + q)[1..] == p[1..] + q;
      ExecConcat(p[1..], q, Step(p[0], st, f), f);
    }
  }

  lemma ExecOne(i: Insn, st: State, f: FlagRule)
    ensures Exec([i], st, f) == Step(i, st, f)
  {
    assert Exec([], Step(i, st, f), f) == Step(i, st, f);
  }

  // ---- Stack bytes ----

  /** `a` is one of the `depth` bytes below `esp`. */
  predicate JustBelow(esp: word, a: word, depth: nat) { 1 <= At(esp, -(a as int)) <= depth }

  lemma PushedFour(esp: word)
    ensures var low := At(esp, -4);
            && At(low, 4) == esp && JustBelow(esp, low, 4) && JustBelow(esp, At(low, 1), 4)
            && JustBelow(esp, At(low, 2), 4) && JustBelow(esp, At(low, 3), 4)
  {}

  lemma ReadWrite16(m: Memory, a: word, v: half)
    ensures Read16(Write16(m, a, v), a) == v
    ensures forall x: word :: x != a && x != At(a, 1) ==> Peek(Write16(m, a, v), x) == Peek(m, x)
  {}

  lemma ReadWrite32(m: Memory, a: word, v: word)
    ensures Read32(Write32(m, a, v), a) == v
    ensures forall x: word :: Peek(Write32(m, a, v), x) != Peek(m, x) ==>
              x == a || x == At(a, 1) || x == At(a, 2) || x == At(a, 3)
  {
    var lo := Write16(m, a, v % 0x10000);
    ReadWrite16(m, a, v % 0x10000);
    ReadWrite16(lo, At(a, 2), v / 0x10000);
    assert Read16(Write32(m, a, v), a) == Read16(lo, a);
  }

  // ---- Arithmetic on `dest` between pushfw and popfw ----

  /** `after` differs from `st` in `dest`, in the flags, and within `depth` bytes below the
      stack pointer. */
  ghost predicate Computes(after: State, st: State, dest: Reg, v: word, depth: nat) {
    && after.R(dest) == v
    && (forall r: Reg :: r != dest ==> after.R(r) == st.R(r))
    && (forall a: word :: Peek(after.mem, a) != Peek(st.mem, a) ==> JustBelow(st.R(ESP), a, depth))
  }

  /** What a leal to `dest` may do: set `dest`, and overwrite bytes that lie within `depth`
      below the stack pointer. */
  ghost predicate OnlySets(after: State, st: State, dest: Reg, v: word, depth: nat) {
    Computes(after, st, dest, v, depth) && after.flags == st.flags
  }

  lemma WrapAdd(x: int, y: int)
    ensures Wrap(Wrap(x) + y) == Wrap(x + y)
  {}

  lemma WrapMul(x: int, y: int)
    ensures Wrap(Wrap(x) * y) == Wrap(x * y)
  {
    var q := x / TWO32;
    assert x == q * TWO32 + Wrap(x);
    assert x * y == Wrap(x) * y + (q * y) * TWO32;
    WrapMultiple(Wrap(x) * y, q * y);
  }

  lemma WrapMultiple(x: int, k: int)
    ensures Wrap(x + k * TWO32) == Wrap(x)
  {}

  ghost predicate SameBut(after: State, st: State, dest: Reg, v: word) {
    && after.mem == st.mem && after.R(dest) == v
    && forall r: Reg :: r != dest ==> after.R(r) == st.R(r)
  }

  lemma StepAlu(i: Insn, st: State, f: FlagRule, dest: Reg, v: int, w: int)
    requires st.R(dest) == Wrap(v)
    requires
      || (i.Shll? && i.dst == dest && w == Scaled(v, i.count))
      || (i.Addl? && i.dst == dest && w == v + st.R(i.src))
      || (i.AddlImm? && i.dst == dest && w == v + i.imm)
      || (i.Imull? && i.dst == dest && w == v * i.imm)
    ensures SameBut(Step(i, st, f), st, dest, Wrap(w))
  {
    match i {
      case Shll(n, _) => WrapMul(v, Pow2(n));
      case Addl(src, _) => WrapAdd(v, st.R(src));
      case AddlImm(k, _) => WrapAdd(v, k);
      case Imull(k, _) => WrapMul(v, k);
    }
  }

  /** One more shift, add, add-immediate or multiply on `dest`. */
  lemma Extend(p: seq<Insn>, i: Insn, st: State, f: FlagRule, dest: Reg, v: int, depth: nat, w: int)
    requires dest != ESP && Computes(Exec(p, st, f), st, dest, Wrap(v), depth)
    requires
      || (i.Shll? && i.dst == dest && w == Scaled(v, i.count))
      || (i.Addl? && i.dst == dest && i.src != dest && w == v + st.R(i.src))
      || (i.AddlImm? && i.dst == dest && w == v + i.imm)
      || (i.Imull? && i.dst == dest && w == v * i.imm)
    ensures Computes(Exec(p + [i], st, f), st, dest, Wrap(w), depth)
  {
    var mid := Exec(p, st, f);
    ExecConcat(p, [i], st, f);
    ExecOne(i, mid, f);
    StepAlu(i, mid, f, dest, v, w);
    hide Step, Exec;
    var after := Step(i, mid, f);
    assert Exec(p + [i], st, f) == after;
    assert forall a: word :: Peek(after.mem, a) == Peek(mid.mem, a);
  }

  /** Popping the flags that lie just above the area the computation used. */
  lemma PopRestores(st: State, f: FlagRule, done: State, dest: Reg, v: word, depth: nat)
    requires dest != ESP && depth <= 4
    requires Computes(done, Step(Pushfw, st, f), dest, v, depth)
    ensures OnlySets(Step(Popfw, done, f), st, dest, v, depth + 2)
  {
    var esp := st.R(ESP);
    var low := At(esp, -2);
    var pushed := Step(Pushfw, st, f);
    ReadWrite16(st.mem, low, st.flags);
    assert pushed.R(ESP) == low && done.R(ESP) == low && At(low, 2) == esp;
    assert Peek(done.mem, low) == Peek(pushed.mem, low) && Peek(done.mem, At(low, 1)) == Peek(pushed.mem, At(low, 1));
    var after := Step(Popfw, done, f);
    forall r: Reg | r != dest ensures after.R(r) == st.R(r) {
      if r != ESP { assert after.R(r) == done.R(r) == pushed.R(r); }
    }
    forall a: word | Peek(after.mem, a) != Peek(st.mem, a) ensures JustBelow(esp, a, depth + 2) {
      if Peek(done.mem, a) != Peek(pushed.mem, a) {
        assert JustBelow(low, a, depth);
      } else {
        assert a == low || a == At(low, 1);
      }
    }
  }

  /** Saving and restoring the flags around such a computation hides it. */
  lemma FlagsFrame(body: seq<Insn>, st: State, f: FlagRule, dest: Reg, v: word, depth: nat)
    requires dest != ESP && depth <= 4
    requires var pushed := Step(Pushfw, st, f); Computes(Exec(body, pushed, f), pushed, dest, v, depth)
    ensures OnlySets(Exec([Pushfw] + body + [Popfw], st, f), st, dest, v, depth + 2)
  {
    var pushed := Step(Pushfw, st, f);
    var done := Exec(body, pushed, f);
    ExecConcat([Pushfw] + body, [Popfw], st, f);
    ExecConcat([Pushfw], body, st, f);
    ExecOne(Pushfw, st, f);
    ExecOne(Popfw, done, f);
    PopRestores(st, f, done, dest, v, depth);
  }

  // ---- The operand of a leal, and the code that replaces it ----

  /** The text before the parenthesis: nothing, the literal "0", or any other expression. */
  datatype Offset = Empty | Zero | Expr(v: int) {
    function Value(): int { if this.Expr? then v else 0 }

    /** The text with "+2" appended. */
    function PlusTwo(): Offset { Expr(Value() + 2) }
  }

  function RegValue(r: Option<Reg>, st: State): word { if r.Some? then st.R(r.value) else 0 }

  /** offset + base + index * scale, as leal defines it. */
  function Address(offset: Offset, base: Option<Reg>, index: Option<Reg>, scale: int, st: State): word {
    Wrap(offset.Value() + RegValue(base, st) + RegValue(index, st) * scale)
  }

  /** `insns` has the effect of the leal, from every state and whatever the flags do. */
  ghost predicate ReplacesLeal(insns: seq<Insn>, offset: Offset, base: Option<Reg>, index: Option<Reg>,
                               scale: int, dest: Reg) {
    forall st: State, f: FlagRule ::
      OnlySets(Exec(insns, st, f), st, dest, Address(offset, base, index, scale, st), 6)
  }

  datatype Fixup = Rewritten(insns: seq<Insn>) | Leaw | Rejected

  function MovTo(index: Reg, dest: Reg): seq<Insn> { if index == dest then [] else [Movl(index, dest)] }

  function AddOffset(offset: Offset, dest: Reg): seq<Insn> {
    if offset.Expr? then [AddlImm(offset.v, dest)] else []
  }

  function ShiftBy(log: nat, dest: Reg): seq<Insn> { if log != 0 then [Shll(log, dest)] else [] }

  function AddBase(base: Option<Reg>, dest: Reg): seq<Insn> {
    if base.Some? then [Addl(base.value, dest)] else []
  }

  /** The offset to add once pushfw has lowered the stack pointer by two. */
  function Adjusted(offset: Offset, base: Option<Reg>): Offset {
    if base == Some(ESP) then offset.PlusTwo() else offset
  }

  /** The address built up in the destination register itself. */
  function Direct(offset: Offset, base: Option<Reg>, log: nat, dest: Reg): seq<Insn> {
    ShiftBy(log, dest) + AddBase(base, dest) + AddOffset(Adjusted(offset, base), dest)
  }

  /** The index register is scaled in place and gets its value back from the stack. */
  function Borrowing(offset: Offset, index: Reg, log: nat, dest: Reg): seq<Insn> {
    [Pushl(index), Shll(log, index), Addl(index, dest), Popl(index)] + AddOffset(offset, dest)
  }

  lemma ComputesNothing(st: State, f: FlagRule, dest: Reg)
    ensures Computes(Exec([], st, f), st, dest, Wrap(st.R(dest)), 0)
  {}

  lemma ComputesOffset(p: seq<Insn>, offset: Offset, st: State, f: FlagRule, dest: Reg, v: int, depth: nat)
    requires dest != ESP && Computes(Exec(p, st, f), st, dest, Wrap(v), depth)
    ensures Computes(Exec(p + AddOffset(offset, dest), st, f), st, dest, Wrap(v + offset.Value()), depth)
  {
    if offset.Expr? {
      Extend(p, AddlImm(offset.v, dest), st, f, dest, v, depth, v + offset.v);
    } else {
      assert p + AddOffset(offset, dest) == p;
    }
  }

  /** The stack pointer a direct computation adds is the one pushfw lowered by two. */
  lemma DirectComputes(offset: Offset, base: Option<Reg>, log: nat, dest: Reg, st: State, f: FlagRule)
    requires dest != ESP && base != Some(dest)
    ensures var code := Direct(offset, base, log, dest);
            var v := Scaled(st.R(dest), log) + RegValue(base, st) + offset.Value() + if base == Some(ESP) then 2 else 0;
            Computes(Exec(code, st, f), st, dest, Wrap(v), 0)
  {
    var p0: seq<Insn> := if log != 0 then [Shll(log, dest)] else [];
    var v0 := Scaled(st.R(dest), log);
    ComputesNothing(st, f, dest);
    if log != 0 {
      assert [] + [Shll(log, dest)] == [Shll(log, dest)];
      Extend([], Shll(log, dest), st, f, dest, st.R(dest), 0, v0);
    }
    var p1: seq<Insn> := p0 + if base.Some? then [Addl(base.value, dest)] else [];
    var v1 := v0 + RegValue(base, st);
    if base.Some? {
      Extend(p0, Addl(base.value, dest), st, f, dest, v0, 0, v1);
    } else {
      assert p1 == p0;
    }
    ComputesOffset(p1, Adjusted(offset, base), st, f, dest, v1, 0);
  }

  lemma ImullValue(x: int, log: nat)
    ensures x * (Pow2(log) + 1) == x + Scaled(x, log)
  {}

  lemma ImullComputes(offset: Offset, log: nat, dest: Reg, st: State, f: FlagRule)
    requires dest != ESP
    ensures Computes(Exec([Imull(Pow2(log) + 1, dest)] + AddOffset(offset, dest), st, f), st, dest,
                     Wrap(st.R(dest) + Scaled(st.R(dest), log) + offset.Value()), 0)
  {
    hide Exec, Computes, Scaled, Wrap, Step;
    ComputesNothing(st, f, dest);
    ImullValue(st.R(dest), log);
    var v := st.R(dest) + Scaled(st.R(dest), log);
    assert [] + [Imull(Pow2(log) + 1, dest)] == [Imull(Pow2(log) + 1, dest)];
    Extend([], Imull(Pow2(log) + 1, dest), st, f, dest, st.R(dest), 0, v);
    ComputesOffset([Imull(Pow2(log) + 1, dest)], offset, st, f, dest, v, 0);
  }

  lemma ExecFour(a: Insn, b: Insn, c: Insn, d: Insn, st: State, f: FlagRule)
    ensures Exec([a, b, c, d], st, f) == Step(d, Step(c, Step(b, Step(a, st, f), f), f), f)
  {
    var s1 := Step(a, st, f);
    var s2 := Step(b, s1, f);
    hide Step;
    assert [a, b, c, d][1..] == [b, c, d] && [b, c, d][1..] == [c, d] && [c, d][1..] == [d];
    assert Exec([c, d], s2, f) == Exec([d], Step(c, s2, f), f);
    ExecOne(d, Step(c, s2, f), f);
    assert Exec([b, c, d], s1, f) == Exec([c, d], s2, f);
    assert Exec([a, b, c, d], st, f) == Exec([b, c, d], s1, f);
  }

  /** Popping `index` after its scaled copy went into `dest`: the pushed bytes are intact. */
  lemma PopIndexRestores(st: State, f: FlagRule, done: State, index: Reg, dest: Reg, v: word)
    requires dest != ESP && index != ESP && index != dest
    requires done.mem == Write32(st.mem, At(st.R(ESP), -4), st.R(index)) && done.R(ESP) == At(st.R(ESP), -4)
    requires forall r: Reg :: r != dest && r != index && r != ESP ==> done.R(r) == st.R(r)
    requires done.R(dest) == v
    ensures Computes(Step(Popl(index), done, f), st, dest, v, 4)
  {
    hide Read32, Write32, JustBelow, At, Peek;
    var esp := st.R(ESP);
    var low := At(esp, -4);
    ReadWrite32(st.mem, low, st.R(index));
    PushedFour(esp);
  }

  lemma BorrowingComputes(offset: Offset, index: Reg, log: nat, dest: Reg, st: State, f: FlagRule)
    requires dest != ESP && index != ESP && index != dest
    ensures Computes(Exec(Borrowing(offset, index, log, dest), st, f), st, dest,
                     Wrap(st.R(dest) + Scaled(st.R(index), log) + offset.Value()), 4)
  {
    hide Step, Exec, Wrap, Write32, Scaled, Computes;
    var s1 := Step(Pushl(index), st, f);
    var s2 := Step(Shll(log, index), s1, f);
    var s3 := Step(Addl(index, dest), s2, f);
    var v := st.R(dest) + Scaled(st.R(index), log);
    ExecFour(Pushl(index), Shll(log, index), Addl(index, dest), Popl(index), st, f);
    BorrowingValue(index, log, dest, st, f, s1, s2, s3);
    PopIndexRestores(st, f, s3, index, dest, Wrap(v));
    ComputesOffset([Pushl(index), Shll(log, index), Addl(index, dest), Popl(index)], offset, st, f, dest, v, 4);
  }

  lemma BorrowingValue(index: Reg, log: nat, dest: Reg, st: State, f: FlagRule, s1: State, s2: State, s3: State)
    requires dest != ESP && index != ESP && index != dest
    requires s1 == Step(Pushl(index), st, f)
    requires s2 == Step(Shll(log, index), s1, f) && s3 == Step(Addl(index, dest), s2, f)
    ensures s3.mem == Write32(st.mem, At(st.R(ESP), -4), st.R(index)) && s3.R(ESP) == At(st.R(ESP), -4)
    ensures forall r: Reg :: r != dest && r != index && r != ESP ==> s3.R(r) == st.R(r)
    ensures s3.R(dest) == Wrap(st.R(dest) + Scaled(st.R(index), log))
  {
    WrapAdd(Scaled(st.R(index), log), st.R(dest));
    hide Write32, Scaled, At, Wrap;
  }

  // ---- Whole sequences ----

  /** Computing in `dest` after copying the index register there. */
  lemma AfterMov(rest: seq<Insn>, index: Reg, st: State, f: FlagRule, dest: Reg, v: word, depth: nat)
    requires dest != ESP
    requires var moved := if index == dest then st else st.Set(dest, st.R(index));
             OnlySets(Exec(rest, moved, f), moved, dest, v, depth)
    ensures OnlySets(Exec(MovTo(index, dest) + rest, st, f), st, dest, v, depth)
  {
    ExecConcat(MovTo(index, dest), rest, st, f);
    if index != dest {
      ExecOne(Movl(index, dest), st, f);
    }
    hide Peek, JustBelow;
  }

  lemma DirectReplaces(offset: Offset, base: Option<Reg>, index: Reg, log: nat, dest: Reg, st: State, f: FlagRule)
    requires dest != ESP && base != Some(dest)
    ensures OnlySets(Exec(MovTo(index, dest) + [Pushfw] + Direct(offset, base, log, dest) + [Popfw], st, f), st, dest,
                     Wrap(offset.Value() + RegValue(base, st) + Scaled(st.R(index), log)), 2)
  {
    hide Exec, Scaled, Computes, OnlySets, Direct, Write16;
    var moved := if index == dest then st else st.Set(dest, st.R(index));
    var pushed := Step(Pushfw, moved, f);
    var body := Direct(offset, base, log, dest);
    DirectComputes(offset, base, log, dest, pushed, f);
    var sum := Scaled(st.R(index), log) + RegValue(base, pushed) + offset.Value() + if base == Some(ESP) then 2 else 0;
    var v := Wrap(offset.Value() + RegValue(base, st) + Scaled(st.R(index), log));
    assert Wrap(sum) == v by {
      var rest := offset.Value() + Scaled(st.R(index), log);
      if base == Some(ESP) {
        AtIsWrap(st.R(ESP), -2);
        WrapAdd(st.R(ESP) - 2, rest + 2);
      }
    }
    FlagsFrame(body, moved, f, dest, v, 0);
    AfterMov([Pushfw] + body + [Popfw], index, st, f, dest, v, 2);
    assert MovTo(index, dest) + [Pushfw] + body + [Popfw] == MovTo(index, dest) + ([Pushfw] + body + [Popfw]);
  }

  lemma PushfwKeeps(st: State, f: FlagRule, r: Reg)
    requires r != ESP
    ensures Step(Pushfw, st, f).R(r) == st.R(r)
  {}

  lemma ImullReplaces(offset: Offset, log: nat, dest: Reg, st: State, f: FlagRule)
    requires dest != ESP
    ensures OnlySets(Exec([Pushfw] + ([Imull(Pow2(log) + 1, dest)] + AddOffset(offset, dest)) + [Popfw], st, f), st, dest,
                     Wrap(offset.Value() + st.R(dest) + Scaled(st.R(dest), log)), 2)
  {
    hide Exec, Computes, OnlySets, Scaled, Wrap, Step, Pow2, AddOffset;
    PushfwKeeps(st, f, dest);
    ImullComputes(offset, log, dest, Step(Pushfw, st, f), f);
    FlagsFrame([Imull(Pow2(log) + 1, dest)] + AddOffset(offset, dest), st, f, dest,
               Wrap(offset.Value() + st.R(dest) + Scaled(st.R(dest), log)), 0);
  }

  lemma BorrowingReplaces(offset: Offset, index: Reg, log: nat, dest: Reg, st: State, f: FlagRule)
    requires dest != ESP && index != ESP && index != dest
    ensures OnlySets(Exec([Pushfw] + Borrowing(offset, index, log, dest) + [Popfw], st, f), st, dest,
                     Wrap(offset.Value() + st.R(dest) + Scaled(st.R(index), log)), 6)
  {
    hide Exec, Scaled, Computes, OnlySets, Step, Wrap, Borrowing;
    PushfwKeeps(st, f, dest);
    PushfwKeeps(st, f, index);
    BorrowingComputes(offset, index, log, dest, Step(Pushfw, st, f), f);
    FlagsFrame(Borrowing(offset, index, log, dest), st, f, dest,
               Wrap(offset.Value() + st.R(dest) + Scaled(st.R(index), log)), 4);
  }

  lemma AtMostSix(after: State, st: State, dest: Reg, v: word, d: nat)
    requires OnlySets(after, st, dest, v, d) && d <= 6
    ensures OnlySets(after, st, dest, v, 6)
  {}

  // ---- handle_leal ----

  function ScaleOf(text: Option<int>): int { if text.Some? then text.value else 1 }

  /** The instructions for a rearranged operand. */
  method Produce(offset: Offset, base: Option<Reg>, index: Reg, scale: nat, dest: Reg) returns (insns: seq<Insn>)
    requires dest != ESP
    ensures insns == Head(base, index, scale, dest) + AddOffset(Adjusted(offset, base), dest) + [Popfw]
  {
    insns := [Pushfw];
    var off := offset;
    if base != Some(dest) {
      if index != dest {
        insns := [Movl(index, dest)] + insns;
      }
      if scale != 0 {
        insns := insns + [Shll(scale, dest)];
      }
      if base.Some? {
        if base.value == ESP {
          off := off.PlusTwo();
        }
        insns := insns + [Addl(base.value, dest)];
      }
    } else if base == Some(index) {
      insns := insns + [Imull(Pow2(scale) + 1, dest)];
    } else {
      insns := insns + [Pushl(index)];
      insns := insns + [Shll(scale, index)];
      insns := insns + [Addl(index, dest)];
      insns := insns + [Popl(index)];
    }
    assert insns == Head(base, index, scale, dest);
    if off.Expr? {
      insns := insns + [AddlImm(off.v, dest)];
    }
    assert insns == Head(base, index, scale, dest) + AddOffset(Adjusted(offset, base), dest);
    insns := insns + [Popfw];
  }

  /** handle_leal: the operand is offset(base,index,scale), any part of which may be missing
      as long as base or index is there; the scale is a number when present. */
  method HandleLeal(offset: Offset, base0: Option<Reg>, index0: Option<Reg>, scaleText: Option<int>, dest: Reg)
    returns (r: Fixup)
    requires base0.Some? || index0.Some?
    ensures r.Leaw? <==> index0 != Some(ESP) && dest == ESP
    ensures r.Rejected? <==> index0 == Some(ESP) || (dest != ESP && scaleText.Some? && scaleText.value !in {1, 2, 4, 8})
    ensures r.Rewritten? && scaleText.Some? ==> ReplacesLeal(r.insns, offset, base0, index0, scaleText.value, dest)
    ensures r.Rewritten? && scaleText.None? ==> ReplacesLeal(r.insns, offset, base0, index0, 1, dest)
  {
    hide Exec, Scaled, OnlySets, Computes;
    if index0 == Some(ESP) {
      return Rejected;
    }
    if dest == ESP {
      return Leaw;
    }
    var scale;
    match ScaleOf(scaleText) {
      case 1 => scale := 0;
      case 2 => scale := 1;
      case 4 => scale := 2;
      case 8 => scale := 3;
      case _ => return Rejected;
    }
    var base, index := base0, index0;
    // Rearrange the arguments to simplify the base.
    if scale == 0 && base == index {
      base, scale := None, 1;
    } else if index == None || (scale == 0 && (base == Some(dest) || base == Some(ESP)) && index != Some(dest)) {
      base, index, scale := index, base, 0;
    }
    RearrangedOk(base0, index0, ScaleOf(scaleText), base, index, scale);
    var insns := Produce(offset, base, index.value, scale, dest);
    forall st: State, f: FlagRule
      ensures OnlySets(Exec(insns, st, f), st, dest, Address(offset, base0, index0, ScaleOf(scaleText), st), 6)
    {
      SequenceReplaces(insns, offset, base0, index0, ScaleOf(scaleText), base, index.value, scale, dest, st, f);
    }
    r := Rewritten(insns);
  }

  /** The two ways of writing the operand denote the same sum. */
  ghost predicate Rearranged(base0: Option<Reg>, index0: Option<Reg>, scale0: int,
                             base: Option<Reg>, index: Option<Reg>, log: nat) {
    && index.Some? && log <= 3
    && forall st: State ::
         RegValue(base0, st) + RegValue(index0, st) * scale0 == RegValue(base, st) + Scaled(st.R(index.value), log)
  }

  lemma RearrangedOk(base0: Option<Reg>, index0: Option<Reg>, scale0: int,
                     base: Option<Reg>, index: Option<Reg>, log: nat)
    requires scale0 in {1, 2, 4, 8} && index.Some? && log <= 3
    requires
      || (base0 == index0 == index && base == None && scale0 == 1 && log == 1)
      || (base == index0 && index == base0 && log == 0 && (scale0 == 1 || index0 == None))
      || (base == base0 && index == index0 && scale0 == Pow2(log))
    ensures Rearranged(base0, index0, scale0, base, index, log)
  {
    forall st: State
      ensures RegValue(base0, st) + RegValue(index0, st) * scale0 == RegValue(base, st) + Scaled(st.R(index.value), log)
    {
      assert Scaled(st.R(index.value), 0) == st.R(index.value);
      assert Scaled(st.R(index.value), 1) == 2 * st.R(index.value);
    }
  }

  /** The code handle_leal emits for a rearranged operand, up to the offset. */
  function Head(base: Option<Reg>, index: Reg, log: nat, dest: Reg): seq<Insn> {
    if base != Some(dest) then
      MovTo(index, dest) + [Pushfw] + ShiftBy(log, dest) + AddBase(base, dest)
    else if index == dest then
      [Pushfw] + [Imull(Pow2(log) + 1, dest)]
    else
      [Pushfw] + [Pushl(index), Shll(log, index), Addl(index, dest), Popl(index)]
  }

  lemma SequenceReplaces(insns: seq<Insn>, offset: Offset, base0: Option<Reg>, index0: Option<Reg>, scale0: int,
                         base: Option<Reg>, index: Reg, log: nat, dest: Reg, st: State, f: FlagRule)
    requires dest != ESP && Rearranged(base0, index0, scale0, base, Some(index), log)
    requires base == Some(dest) ==> index != ESP
    requires insns == Head(base, index, log, dest) + AddOffset(Adjusted(offset, base), dest) + [Popfw]
    ensures OnlySets(Exec(insns, st, f), st, dest, Address(offset, base0, index0, scale0, st), 6)
  {
    hide Exec, Scaled, OnlySets, Wrap, Pow2, AddOffset, ShiftBy, AddBase, MovTo;
    var v := Address(offset, base0, index0, scale0, st);
    assert v == Wrap(offset.Value() + RegValue(base, st) + Scaled(st.R(index), log));
    if base != Some(dest) {
      assert insns == MovTo(index, dest) + [Pushfw] + Direct(offset, base, log, dest) + [Popfw];
      DirectReplaces(offset, base, index, log, dest, st, f);
      AtMostSix(Exec(insns, st, f), st, dest, v, 2);
    } else if index == dest {
      assert insns == [Pushfw] + ([Imull(Pow2(log) + 1, dest)] + AddOffset(offset, dest)) + [Popfw];
      ImullReplaces(offset, log, dest, st, f);
      AtMostSix(Exec(insns, st, f), st, dest, v, 2);
    } else {
      assert insns == [Pushfw] + Borrowing(offset, index, log, dest) + [Popfw];
      BorrowingReplaces(offset, index, log, dest, st, f);
    }
  }

  // ---- call and ret ----

  /** What gcc means by "call" in 16 bit code: push a 32 bit return address. */
  function Call(st: State, ret: word): State {
    st.Set(ESP, At(st.R(ESP), -4)).(mem := Write32(st.mem, At(st.R(ESP), -4), ret))
  }

  function Pushw(st: State, v: half): State {
    st.Set(ESP, At(st.R(ESP), -2)).(mem := Write16(st.mem, At(st.R(ESP), -2), v))
  }

  /** "pushw %ax ; callw": a filler, then a 16 bit return address. */
  function FixedCall(st: State, ret: word): State {
    Pushw(Pushw(st, st.R(EAX) % 0x10000), ret % 0x10000)
  }

  /** "ret": where execution goes on, and the state there. */
  function Ret(st: State): (word, State) {
    (Read32(st.mem, st.R(ESP)), st.Set(ESP, At(st.R(ESP), 4)))
  }

  /** "retw $2". */
  function FixedRet(st: State): (word, State) {
    (Read16(st.mem, st.R(ESP)), st.Set(ESP, At(At(st.R(ESP), 2), 2)))
  }

  lemma AtTwice(a: word)
    ensures At(At(a, -2), -2) == At(a, -4) && At(At(a, 2), 2) == At(a, 4) && At(At(a, -4), 4) == a
  {}

  /** The callee sees the same registers and, from the arguments upwards, the same stack. */
  lemma FixedCallLooksTheSame(st: State, ret: word)
    ensures forall r: Reg :: FixedCall(st, ret).R(r) == Call(st, ret).R(r)
    ensures forall a: word :: Peek(FixedCall(st, ret).mem, a) != Peek(Call(st, ret).mem, a) ==> JustBelow(st.R(ESP), a, 4)
  {
    var esp := st.R(ESP);
    var mid := Pushw(st, st.R(EAX) % 0x10000);
    hide Write32, Write16;
    AtTwice(esp);
    PushedFour(esp);
    ReadWrite32(st.mem, At(esp, -4), ret);
    ReadWrite16(st.mem, At(esp, -2), st.R(EAX) % 0x10000);
    ReadWrite16(mid.mem, At(esp, -4), ret % 0x10000);
    assert At(esp, -2) == At(At(esp, -4), 2) && At(At(esp, -2), 1) == At(At(esp, -4), 3);
  }

  /** Two callees, of the call and of its replacement, that have the same registers and left the
      return slot and the stack pointer as they found them: both come back with the same
      registers and the caller's stack pointer, and to the same place exactly when the return
      address has 16 bits. */
  lemma FixedRetReturns(st: State, ret: word, callee: State, fixed: State)
    requires forall r: Reg :: fixed.R(r) == callee.R(r)
    requires callee.R(ESP) == Call(st, ret).R(ESP)
    requires forall a: word :: JustBelow(st.R(ESP), a, 4) ==> Peek(callee.mem, a) == Peek(Call(st, ret).mem, a)
    requires forall a: word :: JustBelow(st.R(ESP), a, 4) ==> Peek(fixed.mem, a) == Peek(FixedCall(st, ret).mem, a)
    ensures Ret(callee).0 == ret && Ret(callee).1.R(ESP) == st.R(ESP)
    ensures forall r: Reg :: FixedRet(fixed).1.R(r) == Ret(callee).1.R(r)
    ensures FixedRet(fixed).1.mem == fixed.mem && Ret(callee).1.mem == callee.mem
    ensures FixedRet(fixed).0 == Ret(callee).0 <==> ret < 0x10000
  {
    hide Call, FixedCall, Peek, Read16, Read32;
    AtTwice(st.R(ESP));
    AtTwice(At(st.R(ESP), -4));
    CallReturns(st, ret, callee.mem);
    FixedCallReturns(st, ret, fixed.mem);
    forall r: Reg ensures FixedRet(fixed).1.R(r) == Ret(callee).1.R(r) {
      assert fixed.R(r) == callee.R(r);
    }
  }

  /** From a call at 64K retw comes back to address 0. */
  lemma FarCallIsLost(st: State)
    ensures Ret(Call(st, 0x10000)).0 == 0x10000 && FixedRet(FixedCall(st, 0x10000)).0 == 0
  {
    hide Call, FixedCall, Peek, Read16, Read32;
    CallReturns(st, 0x10000, Call(st, 0x10000).mem);
    FixedCallReturns(st, 0x10000, FixedCall(st, 0x10000).mem);
    FixedCallLooksTheSame(st, 0x10000);
    assert FixedCall(st, 0x10000).R(ESP) == Call(st, 0x10000).R(ESP);
  }

  lemma CallReturns(st: State, ret: word, mem: Memory)
    requires forall a: word :: JustBelow(st.R(ESP), a, 4) ==> Peek(mem, a) == Peek(Call(st, ret).mem, a)
    ensures Call(st, ret).R(ESP) == At(st.R(ESP), -4) && Read32(mem, At(st.R(ESP), -4)) == ret
  {
    var low := At(st.R(ESP), -4);
    PushedFour(st.R(ESP));
    assert Read32(mem, low) == Read32(Call(st, ret).mem, low);
    ReadWrite32(st.mem, low, ret);
  }

  lemma FixedCallReturns(st: State, ret: word, mem: Memory)
    requires forall a: word :: JustBelow(st.R(ESP), a, 4) ==> Peek(mem, a) == Peek(FixedCall(st, ret).mem, a)
    ensures Read16(mem, At(st.R(ESP), -4)) == ret % 0x10000
  {
    var low := At(st.R(ESP), -4);
    AtTwice(st.R(ESP));
    PushedFour(st.R(ESP));
    assert Read16(mem, low) == Read16(FixedCall(st, ret).mem, low);
    ReadWrite16(Pushw(st, st.R(EAX) % 0x10000).mem, low, ret % 0x10000);
  }
}

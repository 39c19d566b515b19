/** Literal-pool placement in the ARM assembler: span5, checkpool, flushpool, addpool, and the
    encodings of a constant load (src/liblink/asm5.c). Outside NaCl, without CASE tables. */
module LiteralPool {
  import opened Wrappers

  type word = x: int | 0 <= x < 0x1_0000_0000

  // ---- Instructions and the Prog list ----

  /** The pool-related flag of an instruction's table entry; a literal operand carries its constant. */
  datatype Flag = NoFlag | LFrom(c: word) | LTo(c: word) | LPool

  /** size is what the table says; always means the instruction is not conditional; toPC means it
      is a MOVW to the program counter. */
  datatype Instr = Instr(size: nat, flag: Flag, always: bool, toPC: bool) {
    predicate UsesPool() { flag.LFrom? || flag.LTo? }

    function Literal(): word
      requires UsesPool()
    {
      flag.c
    }

    /** Control never reaches the following instruction: the conditions span5 tests before it
        drops a pool without a branch around it. */
    predicate NeverFalls() { always && (flag.LPool? || toPC) }
  }

  /** A Prog: an instruction of the function with its number, the branch around a pool, or a pool
      word. A user's pcond and a word's id stand for the pointer between them. */
  datatype Prog =
    | Code(src: nat, ins: Instr, pc: int, pcond: Option<nat>)
    | Skip(to: nat, pc: int)
    | Word(id: nat, value: word, pc: int)
  {
    function Size(): nat { if Code? then ins.size else 4 }

    function At(c: int): Prog {
      match this
      case Code(src, ins, _, pcond) => Code(src, ins, c, pcond)
      case Skip(to, _) => Skip(to, c)
      case Word(id, value, _) => Word(id, value, c)
    }
  }

  /** The table's sizes: whole words, at most five, and at least one for a user of the pool. */
  ghost predicate WellFormed(orig: seq<Instr>) {
    forall k :: 0 <= k < |orig| ==>
      orig[k].size % 4 == 0 && orig[k].size <= 20 && (orig[k].UsesPool() ==> orig[k].size >= 4)
  }

  function Pos(code: seq<Prog>, j: nat): nat
    requires j <= |code|
  {
    if j == 0 then 0 else Pos(code, j - 1) + code[j - 1].Size()
  }

  function Count(code: seq<Prog>, j: nat): nat
    requires j <= |code|
  {
    if j == 0 then 0 else Count(code, j - 1) + if code[j - 1].Code? then 1 else 0
  }

  /** Deleting pool words and skip branches gives back the original sequence. */
  function Erase(code: seq<Prog>): seq<Instr> {
    if code == [] then []
    else
      var last := code[|code| - 1];
      Erase(code[..|code| - 1]) + if last.Code? then [last.ins] else []
  }

  // ---- What a finished list must satisfy ----

  /** The instructions are the original ones in order, and each skip branch goes to the next. */
  ghost predicate SameProgram(orig: seq<Instr>, code: seq<Prog>) {
    && Count(code, |code|) == |orig|
    && (forall j :: 0 <= j < |code| && code[j].Code? ==>
          code[j].src == Count(code, j) < |orig| && code[j].ins == orig[code[j].src])
    && (forall j :: 0 <= j < |code| && code[j].Skip? ==> code[j].to == Count(code, j))
  }

  /** Control cannot run into a pool word. */
  ghost predicate Guarded(code: seq<Prog>) {
    forall w :: 0 <= w < |code| && code[w].Word? ==>
      w > 0 && (code[w - 1].Code? ==> code[w - 1].ins.NeverFalls())
  }

  /** Word ids increase along the list, so an id names one word. */
  ghost predicate IdsIncrease(code: seq<Prog>, bound: nat) {
    && (forall w :: 0 <= w < |code| && code[w].Word? ==> code[w].id < bound)
    && (forall w, x :: 0 <= w < x < |code| && code[w].Word? && code[x].Word? ==> code[w].id < code[x].id)
  }

  /** The pool word w serves the instruction j: its own id and constant, within 12-bit reach. */
  ghost predicate Serves(code: seq<Prog>, j: nat, w: nat)
    requires j < |code| && code[j].Code? && code[j].ins.UsesPool()
  {
    && w < |code| && code[w].Word? && code[j].pcond == Some(code[w].id)
    && code[w].value == code[j].ins.Literal()
    && -4095 <= Pos(code, w) - Pos(code, j) - 8 <= 4095
  }

  ghost predicate Laid(code: seq<Prog>, n: nat)
    requires n <= |code|
  {
    forall j :: 0 <= j < n ==> code[j].pc == Pos(code, j)
  }

  ghost predicate Finished(orig: seq<Instr>, code: seq<Prog>, ids: nat) {
    && SameProgram(orig, code) && Guarded(code) && IdsIncrease(code, ids) && Laid(code, |code|)
    && forall j :: 0 <= j < |code| && code[j].Code? && code[j].ins.UsesPool() ==>
         exists w :: Serves(code, j, w)
  }

  // ---- Consequences for the emitted program ----

  lemma EraseNext(code: seq<Prog>, n: nat)
    requires n < |code|
    ensures Erase(code[..n + 1]) == Erase(code[..n]) + if code[n].Code? then [code[n].ins] else []
  {
    assert code[..n + 1][..n] == code[..n];
  }

  lemma {:induction false} EraseIsOriginal(orig: seq<Instr>, code: seq<Prog>, n: nat)
    requires SameProgram(orig, code) && n <= |code|
    ensures Count(code, n) <= |orig| && Erase(code[..n]) == orig[..Count(code, n)]
  {
    if n > 0 {
      EraseIsOriginal(orig, code, n - 1);
      EraseNext(code, n - 1);
      hide Erase;
      if code[n - 1].Code? {
        var k := Count(code, n - 1);
        assert orig[..k + 1] == orig[..k] + [orig[k]];
      }
    }
  }

  /** Inserting pools preserves the program and its control flow: deleting them restores the
      original, and an instruction that can fall through is followed by its original successor,
      directly or by a skip branch to it. */
  lemma ProgramPreserved(orig: seq<Instr>, code: seq<Prog>, ids: nat, j: nat)
    requires Finished(orig, code, ids)
    ensures Erase(code) == orig
    ensures j + 1 < |code| && code[j].Code? && !code[j].ins.NeverFalls() ==>
      match code[j + 1]
      case Code(src, _, _, _) => src == code[j].src + 1
      case Skip(to, _) => to == code[j].src + 1
      case Word(_, _, _) => false
    ensures j < |code| && code[j].Skip? && j + 1 < |code| && code[j + 1].Code? ==> code[j + 1].src == code[j].to
    ensures j + 1 < |code| && code[j].Code? && code[j + 1].Word? ==>
      code[j].ins.always && (code[j].ins.flag.LPool? || code[j].ins.toPC)
    ensures 0 < |code| ==> code[0].pc == 0 && !code[0].Word?
    ensures j + 1 < |code| ==> code[j + 1].pc == code[j].pc + if code[j].Code? then code[j].ins.size else 4
  {
    EraseIsOriginal(orig, code, |code|);
    assert code[..|code|] == code && orig[..|orig|] == orig;
  }

  lemma {:induction false} NthInstr(code: seq<Prog>, n: nat, k: nat) returns (j: nat)
    requires n <= |code| && k < Count(code, n)
    ensures j < n && code[j].Code? && Count(code, j) == k
  {
    if code[n - 1].Code? && Count(code, n - 1) == k {
      j := n - 1;
    } else {
      j := NthInstr(code, n - 1, k);
    }
  }

  /** Instruction k of the original stands in the list once, and in its order. */
  lemma OriginalInOrder(orig: seq<Instr>, code: seq<Prog>, ids: nat, k: nat) returns (j: nat)
    requires Finished(orig, code, ids) && k < |orig|
    ensures j < |code| && code[j].Code? && code[j].src == k && code[j].ins == orig[k]
    ensures forall i :: 0 <= i < |code| && code[i].Code? ==>
      (i < j <==> code[i].src < k) && (i == j <==> code[i].src == k)
  {
    hide Count, Guarded, IdsIncrease, Laid, Serves;
    j := NthInstr(code, |code|, k);
    forall i | 0 <= i < |code| && code[i].Code? ensures (i < j <==> code[i].src < k) && (i == j <==> code[i].src == k) {
      if i < j { CountGrows(code, i, j); } else if i > j { CountGrows(code, j, i); }
    }
  }

  lemma {:induction false} CountGrows(code: seq<Prog>, i: nat, j: nat)
    requires i < j <= |code| && code[i].Code?
    ensures Count(code, i) < Count(code, j)
    decreases j
  {
    if i + 1 < j { CountGrows(code, i, j - 1); }
  }

  // ---- Encoding a constant ----

  function RotateLeft2(v: word): word { v * 4 % 0x1_0000_0000 + v / 0x4000_0000 }

  function RotateRight2(v: word): word { v / 4 + v % 4 * 0x4000_0000 }

  /** Section A5.2.4 of the ARM Architecture Reference Manual, ARMv7-A/R edition: the low eight bits
      rotated right by twice the value of the next four. */
  function RotateRight(v: word, i: nat): word { if i == 0 then v else RotateRight2(RotateRight(v, i - 1)) }

  function ExpandImm(imm12: nat): word
    requires imm12 < 4096
  {
    RotateRight(imm12 % 256, imm12 / 256)
  }

  function Power(base: nat, n: nat): nat { if n == 0 then 1 else base * Power(base, n - 1) }

  /** Rotating 32 bits right by two is dividing by four, modulo 2^32 - 1: so the expanded immediate, times
      four to the number of rotations, is the eight-bit value. */
  lemma {:induction false} RotationDivides(v: word, i: nat) returns (k: nat)
    ensures RotateRight(v, i) * Power(4, i) == v + k * 0xffff_ffff
  {
    if i == 0 {
      k := 0;
    } else {
      var j := RotationDivides(v, i - 1);
      var x: int, y: int, p := RotateRight(v, i - 1), RotateRight2(RotateRight(v, i - 1)), Power(4, i - 1);
      assert y * 4 == x + x % 4 * 0xffff_ffff;
      k := j + x % 4 * p;
      Scaled(x, y, x % 4, p);
    }
  }

  lemma Scaled(x: int, y: int, t: int, p: int)
    requires y * 4 == x + t * 0xffff_ffff
    ensures y * (4 * p) == x * p + t * p * 0xffff_ffff
  {
    assert y * (4 * p) == (y * 4) * p;
    assert (x + t * 0xffff_ffff) * p == x * p + (t * 0xffff_ffff) * p;
    assert (t * 0xffff_ffff) * p == t * p * 0xffff_ffff;
  }

  ghost predicate Encodable(v: word) {
    exists imm12: nat :: imm12 < 4096 && ExpandImm(imm12) == v
  }

  function RotateLeft(v: word, i: nat): word { if i == 0 then v else RotateLeft2(RotateLeft(v, i - 1)) }

  lemma {:induction false} RotateBack(v: word, i: nat)
    ensures RotateRight(RotateLeft(v, i), i) == v && RotateLeft(RotateRight(v, i), i) == v
  {
    if i > 0 {
      RotateBack(v, i - 1);
      RightShift(RotateLeft2(RotateLeft(v, i - 1)), i - 1);
      LeftShift(RotateRight2(RotateRight(v, i - 1)), i - 1);
      Inverse2(RotateLeft(v, i - 1));
      Inverse2(RotateRight(v, i - 1));
    }
  }

  lemma Left2(hi: nat, lo: nat)
    requires hi < 4 && lo < 0x4000_0000
    ensures RotateLeft2(hi * 0x4000_0000 + lo) == lo * 4 + hi
  {
    assert (hi * 0x4000_0000 + lo) / 0x4000_0000 == hi;
    assert (hi * 0x4000_0000 + lo) * 4 == hi * 0x1_0000_0000 + lo * 4;
  }

  lemma Right2(q: nat, r: nat)
    requires r < 4 && q < 0x4000_0000
    ensures RotateRight2(q * 4 + r) == r * 0x4000_0000 + q
  {
  }

  lemma Inverse2(v: word)
    ensures RotateRight2(RotateLeft2(v)) == v && RotateLeft2(RotateRight2(v)) == v
  {
    hide RotateLeft2, RotateRight2;
    var hi, lo := v / 0x4000_0000, v % 0x4000_0000;
    Left2(hi, lo);
    Right2(lo, hi);
    var q, r := v / 4, v % 4;
    Right2(q, r);
    Left2(r, q);
  }

  lemma {:induction false} RightShift(v: word, i: nat)
    ensures RotateRight2(RotateRight(v, i)) == RotateRight(RotateRight2(v), i)
  {
    if i > 0 { RightShift(v, i - 1); }
  }

  lemma {:induction false} LeftShift(v: word, i: nat)
    ensures RotateLeft2(RotateLeft(v, i)) == RotateLeft(RotateLeft2(v), i)
  {
    if i > 0 { LeftShift(v, i - 1); }
  }

  lemma RotatedByte(v: word, i: nat)
    requires i < 16 && RotateLeft(v, i) < 256
    ensures ExpandImm(i * 256 + RotateLeft(v, i)) == v
  {
    RotateBack(v, i);
    hide RotateLeft, RotateRight;
    assert (i * 256 + RotateLeft(v, i)) % 256 == RotateLeft(v, i);
  }

  lemma NoRotation(v: word)
    requires forall k :: 0 <= k < 16 ==> RotateLeft(v, k) >= 256
    ensures !Encodable(v)
  {
    forall imm12: nat | imm12 < 4096 ensures ExpandImm(imm12) != v {
      RotateBack(imm12 % 256, imm12 / 256);
      hide RotateLeft, RotateRight;
    }
  }

  /** immrot: the data-processing immediate for v with bit 25, or 0 when there is none. */
  method ImmRot(v: word) returns (r: nat)
    ensures r == 0 <==> !Encodable(v)
    ensures r != 0 ==> 0x200_0000 <= r < 0x200_0000 + 4096 && ExpandImm(r - 0x200_0000) == v
  {
    hide RotateLeft2, ExpandImm;
    var x := v;
    var i := 0;
    while i < 16
      invariant i <= 16 && x == RotateLeft(v, i)
      invariant forall k :: 0 <= k < i ==> RotateLeft(v, k) >= 256
    {
      if x < 256 {
        RotatedByte(v, i);
        return i * 256 + x + 0x200_0000;
      }
      x := RotateLeft2(x);
      i := i + 1;
    }
    NoRotation(v);
    return 0;
  }

  // ---- The two ways of loading c into a register, and their execution ----

  /** Condition field and destination register of a data-processing word with opcode op. */
  function DataProcessing(op: nat, cond: nat, rd: nat): (w: nat)
    requires op < 16 && cond < 16 && rd < 16
  {
    cond * 0x1000_0000 + op * 0x20_0000 + rd * 0x1000
  }

  /** olr with no addressing bits set: a word load at distance v from rb, if v fits 12 bits. */
  function Olr(v: int, rb: nat, rd: nat, cond: nat): Option<word>
    requires rb < 16 && rd < 16 && cond < 16
  {
    if -4096 < v < 4096 then
      Some(cond * 0x1000_0000 + 0x400_0000 + 0x100_0000 + (if v < 0 then 0 else 0x80_0000) + 0x10_0000
           + rb * 0x1_0000 + rd * 0x1000 + (if v < 0 then -v else v))
    else None
  }

  /** The condition, the register written, its new value, and whether the condition flags change too. */
  datatype Effect = Effect(cond: nat, rd: nat, value: word, flags: bool)

  /** The fields of an instruction word: 4, 3, 5, 4, 4 and 12 bits from the top. */
  datatype Fields = Fields(cond: nat, kind: nat, op: nat, rn: nat, rd: nat, imm12: nat)

  function Unpack(w: word): (f: Fields)
    ensures f.imm12 < 4096
  {
    var w1 := w / 4096;
    var w2 := w1 / 16;
    var w3 := w2 / 16;
    var w4 := w3 / 32;
    Fields(w4 / 8, w4 % 8, w3 % 32, w2 % 16, w1 % 16, w % 4096)
  }

  lemma Unpacks(f: Fields)
    requires f.cond < 16 && f.kind < 8 && f.op < 32 && f.rn < 16 && f.rd < 16 && f.imm12 < 4096
    ensures Unpack(f.cond * 0x1000_0000 + f.kind * 0x200_0000 + f.op * 0x10_0000
                   + f.rn * 0x1_0000 + f.rd * 0x1000 + f.imm12) == f
  {
    var w4 := f.cond * 8 + f.kind;
    var w3 := w4 * 32 + f.op;
    var w2 := w3 * 16 + f.rn;
    var w1 := w2 * 16 + f.rd;
    assert w4 / 8 == f.cond && w4 % 8 == f.kind && w3 / 32 == w4 && w3 % 32 == f.op;
    assert w2 / 16 == w3 && w2 % 16 == f.rn && w1 / 16 == w2 && w1 % 16 == f.rd;
  }

  /** What a processor does with the word at pc: MOV and MVN of an immediate, which write the flags if bit
      20 is set and are not defined with a first operand; or a load of a word at an offset from the
      program counter, which reads as pc + 8. */
  ghost function Execute(w: word, pc: int, memory: int -> word): Option<Effect> {
    var f := Unpack(w);
    var imm := ExpandImm(f.imm12);
    if f.kind == 1 && f.op / 2 == 13 && f.rn == 0 then Some(Effect(f.cond, f.rd, imm, f.op % 2 == 1))
    else if f.kind == 1 && f.op / 2 == 15 && f.rn == 0 then
      Some(Effect(f.cond, f.rd, 0xffff_ffff - imm, f.op % 2 == 1))
    else if f.kind == 2 && f.rn == 15 && f.op == 0x19 then
      Some(Effect(f.cond, f.rd, memory(pc + 8 + f.imm12), false))
    else if f.kind == 2 && f.rn == 15 && f.op == 0x11 then
      Some(Effect(f.cond, f.rd, memory(pc + 8 - f.imm12), false))
    else None
  }

  /** The words themselves, as the manual lists them: MOV and MVN of an immediate, and the load at an
      offset from the program counter, up or down. */
  ghost predicate IsMov(w: word, cond: nat, rd: nat, c: word) {
    exists imm12: nat ::
      imm12 < 4096 && ExpandImm(imm12) == c && w == cond * 0x1000_0000 + 0x3a0_0000 + rd * 0x1000 + imm12
  }

  ghost predicate IsMvn(w: word, cond: nat, rd: nat, c: word) {
    exists imm12: nat ::
      && imm12 < 4096 && 0xffff_ffff - ExpandImm(imm12) == c
      && w == cond * 0x1000_0000 + 0x3e0_0000 + rd * 0x1000 + imm12
  }

  ghost predicate IsLoad(w: word, cond: nat, rd: nat, v: int) {
    w == cond * 0x1000_0000 + (if v < 0 then 0x51f_0000 - v else 0x59f_0000 + v) + rd * 0x1000
  }

  lemma DataProcessingExecutes(op: nat, cond: nat, rd: nat, imm12: nat, pc: int, memory: int -> word)
    requires (op == 13 || op == 15) && cond < 16 && rd < 16 && imm12 < 4096
    ensures var value := if op == 13 then ExpandImm(imm12) else 0xffff_ffff - ExpandImm(imm12);
            Execute(DataProcessing(op, cond, rd) + (imm12 + 0x200_0000), pc, memory) ==
            Some(Effect(cond, rd, value, false))
  {
    hide Unpack, ExpandImm;
    Unpacks(Fields(cond, 1, op * 2, 0, rd, imm12));
  }

  lemma LoadExecutes(v: int, rd: nat, cond: nat, pc: int, memory: int -> word)
    requires -4096 < v < 4096 && rd < 16 && cond < 16
    ensures Execute(Olr(v, 15, rd, cond).value, pc, memory) == Some(Effect(cond, rd, memory(pc + 8 + v), false))
  {
    hide Unpack, ExpandImm;
    Unpacks(Fields(cond, 2, if v < 0 then 0x11 else 0x19, 15, rd, if v < 0 then -v else v));
  }

  /** aclass on a plain constant: a rotated byte, the complement of one, or neither. */
  datatype Class = RCon | NCon | LCon

  ghost function ClassOf(c: word): Class {
    if Encodable(c) then RCon else if Encodable(0xffff_ffff - c) then NCon else LCon
  }

  method Classify(c: word) returns (class_: Class)
    ensures class_ == ClassOf(c)
  {
    var t := ImmRot(c);
    if t != 0 {
      return RCon;
    }
    t := ImmRot(0xffff_ffff - c);
    class_ := if t != 0 then NCon else LCon;
  }

  /** MOVW $c,R (cases 2 and 12 of asmout, and omvl): entry is the pc of the pool word that pcond
      points to. Executing the word puts c in R whichever of the three encodings was chosen. */
  method AssembleMovw(c: word, rd: nat, cond: nat, pc: int, entry: Option<int>) returns (w: Option<word>)
    requires rd < 16 && cond < 16
    requires entry.Some? <==> ClassOf(c) == LCon
    ensures entry.None? || -4096 < entry.value - pc - 8 < 4096 <==> w.Some?
    ensures w.Some? ==>
      match ClassOf(c)
      case RCon => IsMov(w.value, cond, rd, c)
      case NCon => IsMvn(w.value, cond, rd, c)
      case LCon => IsLoad(w.value, cond, rd, entry.value - pc - 8)
    ensures w.Some? ==> forall memory: int -> word ::
      (entry.Some? ==> memory(entry.value) == c) ==> Execute(w.value, pc, memory) == Some(Effect(cond, rd, c, false))
  {
    var class_ := Classify(c);
    if class_ == RCon {
      var v := ImmRot(c);
      w := Some(DataProcessing(13, cond, rd) + v);
      assert w.value == cond * 0x1000_0000 + 0x3a0_0000 + rd * 0x1000 + (v - 0x200_0000);
      forall memory: int -> word ensures Execute(w.value, pc, memory) == Some(Effect(cond, rd, c, false)) {
        DataProcessingExecutes(13, cond, rd, v - 0x200_0000, pc, memory);
      }
    } else if entry.None? {
      var v := ImmRot(0xffff_ffff - c);
      w := Some(DataProcessing(15, cond, rd) + v);
      assert w.value == cond * 0x1000_0000 + 0x3e0_0000 + rd * 0x1000 + (v - 0x200_0000);
      forall memory: int -> word ensures Execute(w.value, pc, memory) == Some(Effect(cond, rd, c, false)) {
        DataProcessingExecutes(15, cond, rd, v - 0x200_0000, pc, memory);
      }
    } else {
      var v := entry.value - pc - 8;
      w := Olr(v, 15, rd, cond);
      if w.Some? {
        forall memory: int -> word | memory(entry.value) == c
          ensures Execute(w.value, pc, memory) == Some(Effect(cond, rd, c, false))
        {
          LoadExecutes(v, rd, cond, pc, memory);
        }
      }
    }
  }

  /** Every literal-pool load of a finished list can be encoded, and yields its own constant. */
  lemma PoolLoadYields(orig: seq<Instr>, code: seq<Prog>, ids: nat, j: nat, rd: nat, cond: nat, memory: int -> word)
    returns (w: nat)
    requires Finished(orig, code, ids) && j < |code| && code[j].Code?
    requires code[j].ins.flag.LFrom? || code[j].ins.flag.LTo?
    requires rd < 16 && cond < 16
    requires forall x :: 0 <= x < |code| && code[x].Word? ==> memory(code[x].pc) == code[x].value
    ensures Serves(code, j, w)
    ensures forall x :: 0 <= x < |code| && code[x].Word? && Some(code[x].id) == code[j].pcond ==> x == w
    ensures var load := Olr(code[w].pc - code[j].pc - 8, 15, rd, cond);
            && load.Some? && IsLoad(load.value, cond, rd, code[w].pc - code[j].pc - 8)
            && Execute(load.value, code[j].pc, memory) == Some(Effect(cond, rd, code[j].ins.flag.c, false))
  {
    hide Execute, SameProgram, Guarded, Pos;
    w :| Serves(code, j, w);
    LoadExecutes(code[w].pc - code[j].pc - 8, rd, cond, code[j].pc, memory);
  }

  // ---- Dropping a pool into the list ----

  /** immaddr: a 12-bit addressing offset with its bits, or 0 when v does not fit. */
  function ImmAddr(v: int): (r: nat)
    ensures r == 0 <==> !(-4095 <= v <= 4095)
  {
    if 0 <= v <= 0xfff then v + 0x100_0000 + 0x80_0000
    else if -0xfff <= v < 0 then -v + 0x100_0000
    else 0
  }

  /** The Progs of a pool whose first word has id base. */
  function PoolBlock(pool: seq<word>, base: nat, skip: bool, to: nat): (block: seq<Prog>)
    ensures |block| == |pool| + (if skip then 1 else 0)
  {
    (if skip then [Skip(to, 0)] else []) + seq(|pool|, k requires 0 <= k < |pool| => Word(base + k, pool[k], 0))
  }

  lemma {:induction false} PosPrefix(code: seq<Prog>, code': seq<Prog>, j: nat)
    requires j <= |code| && j <= |code'|
    requires forall x :: 0 <= x < j ==> code[x].Size() == code'[x].Size() && code[x].Code? == code'[x].Code?
    ensures Pos(code, j) == Pos(code', j) && Count(code, j) == Count(code', j)
  {
    if j > 0 { PosPrefix(code, code', j - 1); }
  }

  /** Positions and counts inside an inserted block of words and branches. */
  lemma {:induction false} PosInBlock(code: seq<Prog>, at: nat, n: nat)
    requires at + n <= |code| && forall x :: at <= x < at + n ==> !code[x].Code?
    ensures Pos(code, at + n) == Pos(code, at) + 4 * n && Count(code, at + n) == Count(code, at)
  {
    if n > 0 { PosInBlock(code, at, n - 1); }
  }

  lemma {:induction false} CountShifted(code: seq<Prog>, code': seq<Prog>, at: nat, n: nat, j: nat)
    requires at <= j <= |code| && j + n <= |code'| && Count(code', at + n) == Count(code, at)
    requires forall x :: at <= x < j ==> code'[x + n] == code[x]
    ensures Count(code', j + n) == Count(code, j)
    decreases j
  {
    if at < j { CountShifted(code, code', at, n, j - 1); }
  }

  lemma {:induction false} PosMonotone(code: seq<Prog>, i: nat, j: nat)
    requires i <= j <= |code|
    ensures Pos(code, i) <= Pos(code, j)
    decreases j
  {
    if i < j { PosMonotone(code, i, j - 1); }
  }

  /** From position at on there are only instructions: no pool is waiting to be laid out. */
  ghost predicate PlainFrom(code: seq<Prog>, at: nat) {
    forall x :: at <= x < |code| ==> code[x].Code?
  }

  ghost function Insert(code: seq<Prog>, at: nat, block: seq<Prog>): seq<Prog>
    requires at <= |code|
  {
    code[..at] + block + code[at..]
  }

  lemma InsertAt(code: seq<Prog>, at: nat, block: seq<Prog>, j: nat)
    requires at <= |code| && j < |code| + |block|
    ensures |Insert(code, at, block)| == |code| + |block|
    ensures Insert(code, at, block)[j] ==
            if j < at then code[j] else if j < at + |block| then block[j - at] else code[j - |block|]
  {
  }

  /** Counting past an inserted block that holds no instruction. */
  lemma InsertedCount(code: seq<Prog>, at: nat, block: seq<Prog>, j: nat)
    requires at <= |code| && j <= |code| + |block| && forall b :: b in block ==> !b.Code?
    ensures var code' := Insert(code, at, block);
            Count(code', j) == if j <= at then Count(code, j) else if j <= at + |block| then Count(code, at)
                               else Count(code, j - |block|)
  {
    var code', n := Insert(code, at, block), |block|;
    PosPrefix(code, code', if j <= at then j else at);
    forall x | at <= x < at + n ensures !code'[x].Code? { assert code'[x] == block[x - at]; }
    PosInBlock(code', at, if j <= at then 0 else if j <= at + n then j - at else n);
    if j > at + n {
      forall x | at <= x < |code| ensures code'[x + n] == code[x] { InsertAt(code, at, block, x + n); }
      CountShifted(code, code', at, n, j - n);
    }
  }

  lemma InsertedProgram(orig: seq<Instr>, code: seq<Prog>, at: nat, block: seq<Prog>)
    requires SameProgram(orig, code) && at <= |code|
    requires forall b :: b in block ==> !b.Code? && (b.Skip? ==> b.to == Count(code, at))
    ensures SameProgram(orig, Insert(code, at, block))
  {
    var code' := Insert(code, at, block);
    hide Count, Insert;
    forall j | 0 <= j <= |code| + |block|
      ensures j < |code'| && code'[j].Code? ==>
        code'[j].src == Count(code', j) < |orig| && code'[j].ins == orig[code'[j].src]
      ensures j < |code'| && code'[j].Skip? ==> code'[j].to == Count(code', j)
      ensures j == |code'| ==> Count(code', j) == |orig|
    {
      InsertedCount(code, at, block, j);
      if j < |code| + |block| { InsertAt(code, at, block, j); }
      else if j > 0 { InsertAt(code, at, block, j - 1); }
    }
    if |code| + |block| > 0 { InsertAt(code, at, block, 0); }
  }

  lemma InsertedGuard(code: seq<Prog>, at: nat, pool: seq<word>, base: nat, skip: bool, to: nat)
    requires at <= |code| && Guarded(code) && PlainFrom(code, at) && IdsIncrease(code, base)
    requires at > 0 && (!skip ==> code[at - 1].Code? && code[at - 1].ins.NeverFalls())
    ensures var code' := Insert(code, at, PoolBlock(pool, base, skip, to));
            Guarded(code') && IdsIncrease(code', base + |pool|)
  {
    var block := PoolBlock(pool, base, skip, to);
    var code' := Insert(code, at, block);
    var n := |block|;
    forall w | 0 <= w < |code'| && code'[w].Word?
      ensures w < at + n && (w < at ==> code'[w] == code[w])
      ensures w >= at ==> code'[w] == block[w - at]
    {
      InsertAt(code, at, block, w);
    }
  }

  /** The users before position n, each with its word placed in reach or waiting in the pool. */
  ghost predicate Served(code: seq<Prog>, n: nat, pool: seq<word>, base: nat, start: int)
    requires n <= |code|
  {
    forall j :: 0 <= j < n && code[j].Code? && code[j].ins.UsesPool() ==>
      (exists w :: Serves(code, j, w)) || AwaitsWord(code, j, pool, base, start)
  }

  /** The user's word is in the pending pool. Each word before it has a user before this one, so the user
      is at least as far behind the first user as its word is behind the first word. */
  ghost predicate AwaitsWord(code: seq<Prog>, j: nat, pool: seq<word>, base: nat, start: int)
    requires j < |code| && code[j].Code? && code[j].ins.UsesPool()
  {
    && code[j].pcond.Some? && base <= code[j].pcond.value < base + |pool|
    && pool[code[j].pcond.value - base] == code[j].ins.Literal()
    && start + 4 * (code[j].pcond.value - base) <= Pos(code, j)
  }

  /** A served user stays served: the insertion lies after its word. */
  lemma InsertedStillServes(code: seq<Prog>, at: nat, block: seq<Prog>, j: nat, w: nat)
    requires j < at <= |code| && w < at && code[j].Code? && code[j].ins.UsesPool() && Serves(code, j, w)
    ensures var code' := Insert(code, at, block); code'[j] == code[j] && Serves(code', j, w)
  {
    var code' := Insert(code, at, block);
    PosPrefix(code, code', j);
    PosPrefix(code, code', w);
  }

  /** A waiting user gets its word, in reach given the slack that checkpool leaves: behind the skip
      branch, word k lands at Pos(at) + 4 + 4 * k. */
  lemma InsertedNowServes(code: seq<Prog>, at: nat, pool: seq<word>, base: nat, start: int, skip: bool, to: nat, j: nat)
    requires j < at <= |code| && code[j].Code? && code[j].ins.UsesPool() && AwaitsWord(code, j, pool, base, start)
    requires Pos(code, at) - start - 4 <= 4095
    ensures var code' := Insert(code, at, PoolBlock(pool, base, skip, to));
            code'[j] == code[j] && Serves(code', j, at + code[j].pcond.value - base + if skip then 1 else 0)
  {
    var block := PoolBlock(pool, base, skip, to);
    var code' := Insert(code, at, block);
    var k := code[j].pcond.value - base;
    var w := at + k + if skip then 1 else 0;
    PosPrefix(code, code', j);
    PosPrefix(code, code', at);
    PosMonotone(code, j, at);
    InsertAt(code, at, block, w);
    forall x | at <= x < w ensures !code'[x].Code? { InsertAt(code, at, block, x); }
    PosInBlock(code', at, w - at);
  }

  lemma InsertedServes(code: seq<Prog>, at: nat, pool: seq<word>, base: nat, start: int, skip: bool, to: nat)
    requires at <= |code| && PlainFrom(code, at) && Served(code, at, pool, base, start)
    requires Pos(code, at) - start - 4 <= 4095
    ensures Served(Insert(code, at, PoolBlock(pool, base, skip, to)), at, [], base + |pool|, 0)
  {
    var block := PoolBlock(pool, base, skip, to);
    var code' := Insert(code, at, block);
    hide PoolBlock, Insert, Pos;
    forall j | 0 <= j < at ensures |code'| >= at && code'[j] == code[j] { InsertAt(code, at, block, j); }
    if at > 0 { InsertAt(code, at, block, at - 1); }
    forall j | 0 <= j < at && code[j].Code? && code[j].ins.UsesPool() ensures exists w :: Serves(code', j, w) {
      if w :| Serves(code, j, w) {
        InsertedStillServes(code, at, block, j, w);
        assert Serves(code', j, w);
      } else {
        InsertedNowServes(code, at, pool, base, start, skip, to, j);
      }
    }
  }

  // ---- span5 ----

  /** The Prog list, the pending pool (blitrl with the static pool record) and the number of words
      already placed; word k of the pending pool will have id placed + k. */
  class Assembler {
    const orig: seq<Instr>
    var code: seq<Prog>
    var blitrl: seq<word>
    var placed: nat
    var poolStart: int
    var poolSize: int

    constructor (orig: seq<Instr>)
      ensures this.orig == orig && blitrl == [] && placed == 0 && poolStart == 0 && poolSize == 0
      ensures code == seq(|orig|, k requires 0 <= k < |orig| => Code(k, orig[k], 0, None))
    {
      this.orig := orig;
      code := seq(|orig|, k requires 0 <= k < |orig| => Code(k, orig[k], 0, None));
      blitrl, placed, poolStart, poolSize := [], 0, 0, 0;
    }

    /** flushpool: drop the pending pool before position at, branching around it if skip. */
    method FlushPool(at: nat, skip: bool, force: bool) returns (flushed: bool)
      requires 0 < at <= |code| && poolSize == 4 * |blitrl|
      requires blitrl != [] ==> SameProgram(orig, code) && PlainFrom(code, at)
      modifies this`code, this`blitrl, this`placed, this`poolStart, this`poolSize
      ensures flushed ==> old(blitrl) != [] && blitrl == [] && poolSize == poolStart == 0
      ensures flushed ==> placed == old(placed) + |old(blitrl)|
      ensures flushed ==>
        code == Insert(old(code), at, PoolBlock(old(blitrl), old(placed), skip, Count(old(code), at)))
      ensures !flushed ==> unchanged(this)
      ensures flushed <==>
        old(blitrl) != [] && (skip || force || old(code[at - 1].pc + 12 + poolSize - poolStart) >= 2048)
    {
      if blitrl == [] {
        return false;
      }
      if !skip && !force && code[at - 1].pc + (12 + poolSize) - poolStart < 2048 {
        return false;
      }
      var to := if at < |code| then code[at].src else |orig|;
      code := code[..at] + PoolBlock(blitrl, placed, skip, to) + code[at..];
      placed := placed + |blitrl|;
      blitrl, poolSize, poolStart := [], 0, 0;
      flushed := true;
    }

    /** checkpool: the range test uses the pc of the previous instruction and the size sz of the next. */
    method CheckPool(at: nat, sz: nat) returns (flushed: bool)
      requires 0 < at <= |code| && poolSize == 4 * |blitrl|
      requires blitrl != [] ==> SameProgram(orig, code) && PlainFrom(code, at)
      modifies this`code, this`blitrl, this`placed, this`poolStart, this`poolSize
      ensures flushed ==> old(blitrl) != [] && blitrl == [] && poolSize == poolStart == 0
      ensures flushed ==> placed == old(placed) + |old(blitrl)|
      ensures flushed ==>
        code == Insert(old(code), at, PoolBlock(old(blitrl), old(placed), true, Count(old(code), at)))
      ensures !flushed ==> unchanged(this)
      ensures !flushed && blitrl != [] ==>
        at < |code| && code[at - 1].pc + sz + 12 + poolSize - poolStart <= 4095
      ensures var v := old(code[at - 1].pc + sz + 12 + poolSize - poolStart);
              flushed <==> old(blitrl) != [] && (at == |old(code)| || old(poolSize) >= 0xff0 || !(-4095 <= v <= 4095))
    {
      var v := (code[at - 1].pc + sz + 4) + 4 + (12 + poolSize) - (poolStart + 8);
      if poolSize >= 0xff0 || ImmAddr(v) == 0 {
        flushed := FlushPool(at, true, false);
      } else if at == |code| {
        flushed := FlushPool(at, true, false);
      } else {
        flushed := false;
      }
    }

    /** addpool: reuse the pending word with the same constant, or append one. */
    method AddPool(i: nat) returns (ghost entry: nat)
      requires i < |code| && code[i].Code? && code[i].ins.UsesPool() && poolSize == 4 * |blitrl|
      modifies this`code, this`blitrl, this`poolStart, this`poolSize
      ensures poolSize == 4 * |blitrl| && blitrl != []
      ensures var c := old(code[i].ins.Literal());
              blitrl == if c in old(blitrl) then old(blitrl) else old(blitrl) + [c]
      ensures poolStart == if old(blitrl) == [] then old(code[i].pc) else old(poolStart)
      ensures entry < |blitrl| && blitrl[entry] == old(code[i].ins.Literal())
      ensures code == old(code)[i := Code(old(code[i].src), old(code[i].ins), old(code[i].pc), Some(placed + entry))]
    {
      var p := code[i];
      var k := 0;
      while k < |blitrl|
        invariant 0 <= k <= |blitrl| && p.ins.Literal() !in blitrl[..k]
      {
        if blitrl[k] == p.ins.Literal() {
          code := code[i := Code(p.src, p.ins, p.pc, Some(placed + k))];
          return k;
        }
        k := k + 1;
      }
      assert blitrl[..k] == blitrl;
      if blitrl == [] {
        poolStart := p.pc;
      }
      blitrl := blitrl + [p.ins.Literal()];
      poolSize := poolSize + 4;
      code := code[i := Code(p.src, p.ins, p.pc, Some(placed + k))];
      entry := k;
    }

    /** span5, first loop: lay the instructions out, dropping pools where they are due. */
    method Span() returns (size: nat)
      requires WellFormed(orig) && blitrl == [] && placed == 0 && poolStart == 0 && poolSize == 0
      requires code == seq(|orig|, k requires 0 <= k < |orig| => Code(k, orig[k], 0, None))
      modifies this`code, this`blitrl, this`placed, this`poolStart, this`poolSize
      ensures Finished(orig, code, placed)
      ensures size == Pos(code, |code|)
    {
      hide *;
      StartState(orig, code);
      var i, c := 0, 0;
      while i < |code| || blitrl != []
        invariant i <= |code| && State(orig, code, blitrl, placed, poolStart, i)
        invariant c == Pos(code, i) && poolSize == 4 * |blitrl|
        decreases |orig| - Count(code, i), |blitrl|, |code| - i
      {
        StateFacts(orig, code, blitrl, placed, poolStart, i);
        var visited := false;
        if i == |code| {
          DropPool(i);
        } else {
          c, visited := LayOut(i);
          if visited {
            i := i + 1;
          }
        }
      }
      FinalState(orig, code, placed, poolStart);
      size := c;
    }

    /** At the end of the function checkpool always drops the pending pool. */
    method DropPool(i: nat)
      requires i == |code| && State(orig, code, blitrl, placed, poolStart, i)
      requires poolSize == 4 * |blitrl| && blitrl != []
      modifies this`code, this`blitrl, this`placed, this`poolStart, this`poolSize
      ensures blitrl == [] && poolSize == 0 && i <= |code| && State(orig, code, blitrl, placed, poolStart, i)
      ensures Pos(code, i) == old(Pos(code, i)) && Count(code, i) == old(Count(code, i))
    {
      hide State, Insert;
      StateFacts(orig, code, blitrl, placed, poolStart, i);
      ghost var code0, pool0, placed0, start0 := code, blitrl, placed, poolStart;
      var flushed := CheckPool(i, 0);
      DropState(orig, code0, pool0, placed0, start0, i, true);
    }

    /** One iteration at Prog i, with c bytes laid out: either a pool is dropped before it, or it is
        laid out itself. */
    method LayOut(i: nat) returns (c: nat, visited: bool)
      requires i < |code| && State(orig, code, blitrl, placed, poolStart, i) && poolSize == 4 * |blitrl|
      modifies this`code, this`blitrl, this`placed, this`poolStart, this`poolSize
      ensures i < |code| && poolSize == 4 * |blitrl|
      ensures visited ==> State(orig, code, blitrl, placed, poolStart, i + 1) && c == Pos(code, i + 1)
      ensures visited ==> Count(code, i + 1) >= old(Count(code, i))
      ensures visited && Count(code, i + 1) == old(Count(code, i)) ==> |code| == old(|code|) && blitrl == old(blitrl)
      ensures !visited ==> State(orig, code, blitrl, placed, poolStart, i) && c == Pos(code, i)
      ensures !visited ==> Count(code, i) == old(Count(code, i)) && old(blitrl) != [] && blitrl == []
    {
      hide *;
      visited := false;
      c := Pos(code, i);
      SetPc(orig, code, blitrl, placed, poolStart, i);
      code := code[i := code[i].At(c)];
      var m := code[i].Size();
      if blitrl != [] {
        ghost var code1, pool1, placed1, start1 := code, blitrl, placed, poolStart;
        StateFacts(orig, code, blitrl, placed, poolStart, i);
        var flushed := CheckPool(i, m);
        if flushed {
          DropState(orig, code1, pool1, placed1, start1, i, true);
          return;
        }
      }
      Visit(i);
      c := c + m;
      visited := true;
    }

    /** The rest of an iteration: the operand that needs a pool word, or the end of a basic block
        that allows a pool without a branch around it. */
    method Visit(i: nat)
      requires i < |code| && State(orig, code, blitrl, placed, poolStart, i) && poolSize == 4 * |blitrl|
      requires code[i].pc == Pos(code, i)
      requires blitrl != [] ==> i > 0 && code[i - 1].pc + code[i].Size() + 12 + poolSize - poolStart <= 4095
      modifies this`code, this`blitrl, this`placed, this`poolStart, this`poolSize
      ensures i < |code| && State(orig, code, blitrl, placed, poolStart, i + 1) && poolSize == 4 * |blitrl|
      ensures Pos(code, i + 1) == old(Pos(code, i) + code[i].Size())
      ensures Count(code, i + 1) == old(Count(code, i)) + (if old(code[i].Code?) then 1 else 0)
      ensures old(!code[i].Code?) ==> unchanged(this)
    {
      hide State, Finished, Insert;
      if !code[i].Code? {
        VisitPlain(orig, code, blitrl, placed, poolStart, i);
        return;
      }
      var ins := code[i].ins;
      if ins.UsesPool() {
        ghost var code0, pool0, start0 := code, blitrl, poolStart;
        var entry := AddPool(i);
        VisitUser(orig, code0, code, pool0, blitrl, placed, start0, poolStart, i, entry);
      } else {
        VisitPlain(orig, code, blitrl, placed, poolStart, i);
      }
      if ins.flag.LPool? && ins.always {
        EndBlock(i);
      }
      if ins.toPC && ins.always {
        EndBlock(i);
      }
    }

    method EndBlock(i: nat)
      requires i < |code| && State(orig, code, blitrl, placed, poolStart, i + 1) && poolSize == 4 * |blitrl|
      requires code[i].Code? && code[i].ins.NeverFalls()
      modifies this`code, this`blitrl, this`placed, this`poolStart, this`poolSize
      ensures i < |code| && State(orig, code, blitrl, placed, poolStart, i + 1) && poolSize == 4 * |blitrl|
      ensures Pos(code, i + 1) == old(Pos(code, i + 1)) && Count(code, i + 1) == old(Count(code, i + 1))
      ensures code[i] == old(code[i])
    {
      hide State, Finished, Insert;
      ghost var code0, pool0, placed0, start0 := code, blitrl, placed, poolStart;
      StateFacts(orig, code, blitrl, placed, poolStart, i + 1);
      var flushed := FlushPool(i + 1, false, false);
      if flushed {
        DropState(orig, code0, pool0, placed0, start0, i + 1, false);
      }
    }
  }

  /** Before position i is looked at: everything before it is laid out and served, and a pending
      pool can still be dropped here, with a branch around it, in reach of all its users. */
  ghost predicate State(orig: seq<Instr>, code: seq<Prog>, pool: seq<word>, placed: nat, start: int, i: nat)
    requires i <= |code|
  {
    && WellFormed(orig)
    && SameProgram(orig, code) && Guarded(code) && IdsIncrease(code, placed) && Laid(code, i)
    && Served(code, i, pool, placed, start)
    && InReach(code, i, pool, start)
    && InsertedFirst(code, i)
  }

  lemma StartState(orig: seq<Instr>, code: seq<Prog>)
    requires WellFormed(orig) && code == seq(|orig|, k requires 0 <= k < |orig| => Code(k, orig[k], 0, None))
    ensures State(orig, code, [], 0, 0, 0) && Pos(code, 0) == 0
  {
    InitialProgram(orig, code, |orig|);
  }

  lemma FinalState(orig: seq<Instr>, code: seq<Prog>, placed: nat, start: int)
    requires State(orig, code, [], placed, start, |code|)
    ensures Finished(orig, code, placed)
  {
  }

  lemma StateFacts(orig: seq<Instr>, code: seq<Prog>, pool: seq<word>, placed: nat, start: int, i: nat)
    requires i <= |code| && State(orig, code, pool, placed, start, i)
    ensures SameProgram(orig, code) && Count(code, i) <= |orig|
    ensures pool != [] ==> PlainFrom(code, i) && i > 0
  {
    EraseIsOriginal(orig, code, i);
  }

  lemma SetPc(orig: seq<Instr>, code: seq<Prog>, pool: seq<word>, placed: nat, start: int, i: nat)
    requires i < |code| && State(orig, code, pool, placed, start, i)
    ensures var code' := code[i := code[i].At(Pos(code, i))];
            && State(orig, code', pool, placed, start, i)
            && Pos(code', i) == Pos(code, i) && Count(code', i) == Count(code, i)
            && code'[i].pc == Pos(code, i) && code'[i].Size() == code[i].Size() && code'[i].Code? == code[i].Code?
  {
    hide SameProgram, Guarded, IdsIncrease, Served, Pos, Count;
    var code' := code[i := code[i].At(Pos(code, i))];
    SameShape(orig, code, code', placed, i);
    ServedKept(code, code', i, pool, pool, placed, start, start);
  }

  /** Rewriting the pc or the pcond of one Prog changes no size, id or number. */
  lemma SameShape(orig: seq<Instr>, code: seq<Prog>, code': seq<Prog>, placed: nat, i: nat)
    requires SameProgram(orig, code) && Guarded(code) && IdsIncrease(code, placed) && ChangedAt(code, code', i)
    ensures SameProgram(orig, code') && Guarded(code') && IdsIncrease(code', placed)
    ensures forall j :: 0 <= j <= |code| ==> Pos(code', j) == Pos(code, j) && Count(code', j) == Count(code, j)
  {
    forall j | 0 <= j <= |code| ensures Pos(code', j) == Pos(code, j) && Count(code', j) == Count(code, j) {
      PosPrefix(code, code', j);
    }
  }

  ghost predicate ChangedAt(code: seq<Prog>, code': seq<Prog>, i: nat) {
    && i < |code| == |code'| && SameKind(code[i], code'[i])
    && forall x :: 0 <= x < |code| && x != i ==> code'[x] == code[x]
  }

  lemma ServedKept(code: seq<Prog>, code': seq<Prog>, i: nat, pool: seq<word>, pool': seq<word>, placed: nat,
                   start: int, start': int)
    requires ChangedAt(code, code', i) && Served(code, i, pool, placed, start)
    requires forall j :: 0 <= j <= |code| ==> Pos(code', j) == Pos(code, j)
    requires pool <= pool' && (pool != [] ==> start' == start)
    ensures Served(code', i, pool', placed, start')
  {
    hide Pos;
    forall j | 0 <= j < i && code'[j].Code? && code'[j].ins.UsesPool()
      ensures (exists w :: Serves(code', j, w)) || AwaitsWord(code', j, pool', placed, start')
    {
      assert code'[j] == code[j];
      if w :| Serves(code, j, w) { assert Serves(code', j, w); }
    }
  }

  ghost predicate SameKind(p: Prog, q: Prog) {
    match p
    case Code(src, ins, _, _) => q.Code? && q.src == src && q.ins == ins
    case Skip(to, _) => q.Skip? && q.to == to
    case Word(id, value, _) => q.Word? && q.id == id && q.value == value
  }

  lemma DropState(orig: seq<Instr>, code: seq<Prog>, pool: seq<word>, placed: nat, start: int, at: nat, skip: bool)
    requires 0 < at <= |code| && pool != [] && State(orig, code, pool, placed, start, at)
    requires !skip ==> code[at - 1].Code? && code[at - 1].ins.NeverFalls()
    ensures var code' := Insert(code, at, PoolBlock(pool, placed, skip, Count(code, at)));
            && |code| <= |code'| && State(orig, code', [], placed + |pool|, 0, at)
            && Pos(code', at) == Pos(code, at) && Count(code', at) == Count(code, at) && code'[at - 1] == code[at - 1]
  {
    hide SameProgram, Guarded, IdsIncrease, Served, Insert, Pos, Count, WellFormed;
    var block := PoolBlock(pool, placed, skip, Count(code, at));
    var code' := Insert(code, at, block);
    InsertedProgram(orig, code, at, block);
    InsertedGuard(code, at, pool, placed, skip, Count(code, at));
    InsertedServes(code, at, pool, placed, start, skip, Count(code, at));
    PosInserted(code, at, block, at);
    forall j | 0 <= j < |code'| ensures j < at ==> code'[j] == code[j] && Pos(code', j) == Pos(code, j)
      ensures j >= at + |block| ==> code'[j].Code? ensures at <= j < at + |block| ==> !code'[j].Code?
    {
      InsertAt(code, at, block, j);
      if j < at { PosInserted(code, at, block, j); }
    }
    if at > 0 { InsertAt(code, at, block, at - 1); }
  }

  lemma PosInserted(code: seq<Prog>, at: nat, block: seq<Prog>, j: nat)
    requires j <= at <= |code|
    ensures |Insert(code, at, block)| == |code| + |block|
    ensures Pos(Insert(code, at, block), j) == Pos(code, j) && Count(Insert(code, at, block), j) == Count(code, j)
  {
    PosPrefix(code, Insert(code, at, block), j);
  }

  /** Passing a Prog that needs no pool word keeps the slack: checkpool looked at the pc before the
      previous instruction's size and after this one's, and counted the pool, which needs no room. */
  lemma VisitPlain(orig: seq<Instr>, code: seq<Prog>, pool: seq<word>, placed: nat, start: int, i: nat)
    requires i < |code| && State(orig, code, pool, placed, start, i) && code[i].pc == Pos(code, i)
    requires code[i].Code? ==> !code[i].ins.UsesPool()
    requires pool != [] ==> i > 0 && code[i - 1].pc + code[i].Size() + 12 + 4 * |pool| - start <= 4095
    ensures State(orig, code, pool, placed, start, i + 1)
  {
    hide SameProgram, Guarded, IdsIncrease, Serves, AwaitsWord, Pos;
    if pool != [] { UserSlack(orig, code, pool, placed, start, i); }
  }

  lemma VisitUser(orig: seq<Instr>, code: seq<Prog>, code': seq<Prog>, pool: seq<word>, pool': seq<word>, placed: nat,
                  start: int, start': int, i: nat, entry: nat)
    requires i < |code| && State(orig, code, pool, placed, start, i) && code[i].pc == Pos(code, i)
    requires code[i].Code? && code[i].ins.UsesPool()
    requires pool != [] ==> i > 0 && code[i - 1].pc + code[i].Size() + 12 + 4 * |pool| - start <= 4095
    requires entry < |pool'| && pool'[entry] == code[i].ins.Literal()
    requires pool' == pool || pool' == pool + [code[i].ins.Literal()]
    requires start' == if pool == [] then code[i].pc else start
    requires code' == code[i := Code(code[i].src, code[i].ins, code[i].pc, Some(placed + entry))]
    ensures State(orig, code', pool', placed, start', i + 1)
    ensures Pos(code', i + 1) == Pos(code, i + 1) && Count(code', i + 1) == Count(code, i + 1)
  {
    hide SameProgram, Guarded, IdsIncrease, Serves, Pos, Count;
    SameShape(orig, code, code', placed, i);
    ServedKept(code, code', i, pool, pool', placed, start, start');
    UserSlack(orig, code, pool, placed, start, i);
    assert AwaitsWord(code', i, pool', placed, start');
  }

  /** What checkpool's test leaves: wherever the next pool goes, this instruction's word is in reach. The
      test allows for the pool and the branch, and the instruction before may be larger by 16 bytes. */
  lemma UserSlack(orig: seq<Instr>, code: seq<Prog>, pool: seq<word>, placed: nat, start: int, i: nat)
    requires i < |code| && State(orig, code, pool, placed, start, i) && code[i].Code?
    requires pool != [] ==> i > 0 && code[i - 1].pc + code[i].Size() + 12 + 4 * |pool| - start <= 4095
    ensures pool != [] ==> start + 4 * |pool| <= Pos(code, i) && Pos(code, i + 1) - start - 4 <= 4095
    ensures Pos(code, i + 1) == Pos(code, i) + code[i].Size() <= Pos(code, i) + 20
    ensures code[i].ins.UsesPool() ==> code[i].Size() >= 4
  {
    assert code[i].ins == orig[code[i].src];
    if pool != [] { assert code[i - 1].ins == orig[code[i - 1].src]; }
  }

  lemma {:induction false} InitialProgram(orig: seq<Instr>, code: seq<Prog>, n: nat)
    requires |code| == |orig| && n <= |orig|
    requires forall k :: 0 <= k < |orig| ==> code[k] == Code(k, orig[k], 0, None)
    ensures Count(code, n) == n
    ensures n == |orig| ==> SameProgram(orig, code)
  {
    if n > 0 { InitialProgram(orig, code, n - 1); }
    if n == |orig| { forall j | 0 <= j < n ensures Count(code, j) == j { InitialProgram(orig, code, j); } }
  }

  /** A pending pool's users end just before position i, and its slack holds there. */
  ghost predicate InReach(code: seq<Prog>, i: nat, pool: seq<word>, start: int)
    requires i <= |code|
  {
    pool != [] ==>
      && i > 0 && code[i - 1].Code? && PlainFrom(code, i)
      && 0 <= start && start + 4 * |pool| <= Pos(code, i) && Pos(code, i) - start - 4 <= 4095
  }

  /** Words and branches not yet looked at come before all remaining instructions. */
  ghost predicate InsertedFirst(code: seq<Prog>, i: nat) {
    forall x, y :: i <= x < y < |code| && code[x].Code? ==> code[y].Code?
  }
}

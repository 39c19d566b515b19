/** Branch relaxation in the 386 assembler: span8 and the branch cases of doasm (src/liblink/asm8.c).

    The first half is the specification: layouts, their validity, and what one pass of span8
    computes from the short/long bits it starts with. The second half is span8 itself, as a class
    whose fields are the Prog fields that the passes rewrite. */
module Relax {
  import opened Wrappers
  import opened Bits

  /** An instruction: opaque bytes, or a local branch with its short and long opcodes. A branch
      without a target jumps to itself. Conditional long branches carry a 0x0f prefix. */
  datatype Instr =
    | Other(code: seq<byte>)
    | Jump(cond: bool, short: byte, long: byte, target: Option<nat>)

  /** Every branch is local to the function, and every instruction fits the assembler's buffer. */
  ghost predicate WellFormed(prog: seq<Instr>) {
    forall i :: 0 <= i < |prog| ==>
      match prog[i]
      case Other(code) => |code| <= 100
      case Jump(_, _, _, target) => target.Some? ==> target.value < |prog|
  }

  function Target(prog: seq<Instr>, i: nat): (t: nat)
    requires i < |prog| && prog[i].Jump?
  {
    prog[i].target.GetOr(i)
  }

  predicate Forward(prog: seq<Instr>, i: nat)
    requires i < |prog|
  {
    prog[i].Jump? && Target(prog, i) > i
  }

  predicate BackwardJump(prog: seq<Instr>, i: nat)
    requires i < |prog|
  {
    prog[i].Jump? && Target(prog, i) <= i
  }

  // ---- Layouts: one short/long bit for each instruction ----

  function SizeOf(ins: Instr, isLong: bool): nat {
    match ins
    case Other(code) => |code|
    case Jump(cond, _, _, _) => if !isLong then 2 else if cond then 6 else 5
  }

  /** The pc of instruction i when the first i instructions take the forms in lay. */
  function Pc(prog: seq<Instr>, lay: seq<bool>, i: nat): nat
    requires i <= |prog| && i <= |lay|
  {
    if i == 0 then 0 else Pc(prog, lay, i - 1) + SizeOf(prog[i - 1], lay[i - 1])
  }

  /** Displacement of a branch: target pc minus the pc of the next instruction. */
  function Disp(prog: seq<Instr>, lay: seq<bool>, i: nat): int
    requires i < |prog| && i < |lay| && prog[i].Jump? && Target(prog, i) <= |prog| && Target(prog, i) <= |lay|
  {
    Pc(prog, lay, Target(prog, i)) - Pc(prog, lay, i + 1)
  }

  /** Every branch in its short form reaches its target. */
  ghost predicate Valid(prog: seq<Instr>, lay: seq<bool>)
    requires WellFormed(prog)
  {
    |lay| == |prog| &&
    forall i :: 0 <= i < |prog| && prog[i].Jump? && !lay[i] ==> -128 <= Disp(prog, lay, i) <= 127
  }

  lemma PcMonotone(prog: seq<Instr>, lay: seq<bool>, i: nat, j: nat)
    requires i <= j <= |prog| && j <= |lay|
    ensures Pc(prog, lay, i) <= Pc(prog, lay, j)
    decreases j
  {
    if i < j { PcMonotone(prog, lay, i, j - 1); }
  }

  lemma PcPrefix(prog: seq<Instr>, lay: seq<bool>, lay': seq<bool>, i: nat)
    requires i <= |prog| && i <= |lay| && i <= |lay'|
    requires forall j :: 0 <= j < i ==> lay[j] == lay'[j]
    ensures Pc(prog, lay, i) == Pc(prog, lay', i)
  {
    if i > 0 { PcPrefix(prog, lay, lay', i - 1); }
  }

  // ---- One pass ----

  /** The backward form is picked from the distance in the pass's own layout. */
  predicate BackwardTooFar(prog: seq<Instr>, lay: seq<bool>, i: nat)
    requires i < |prog| && i <= |lay| && BackwardJump(prog, i)
  {
    Pc(prog, lay, Target(prog, i)) - (Pc(prog, lay, i) + 2) < -128
  }

  /** The forms a pass gives the first n instructions, from the bits of the forward branches. */
  function Choose(prog: seq<Instr>, bits: seq<bool>, n: nat): (lay: seq<bool>)
    requires n <= |prog| == |bits|
    ensures |lay| == n
  {
    if n == 0 then [] else
      var before := Choose(prog, bits, n - 1);
      before + [if BackwardJump(prog, n - 1) then BackwardTooFar(prog, before, n - 1)
                else Forward(prog, n - 1) && bits[n - 1]]
  }

  function Layout(prog: seq<Instr>, bits: seq<bool>): (lay: seq<bool>)
    requires |prog| == |bits|
    ensures |lay| == |prog|
  {
    Choose(prog, bits, |prog|)
  }

  /** A pass turns on the bit of every forward branch that its own layout puts out of reach. */
  function Flip(prog: seq<Instr>, bits: seq<bool>): (bits': seq<bool>)
    requires WellFormed(prog) && |prog| == |bits|
    ensures |bits'| == |prog|
  {
    seq(|prog|, i requires 0 <= i < |prog| =>
      bits[i] || (Forward(prog, i) && Disp(prog, Layout(prog, bits), i) > 127))
  }

  /** The bits left by the first k passes. */
  function BitsAfter(prog: seq<Instr>, k: nat): (bits: seq<bool>)
    requires WellFormed(prog)
    ensures |bits| == |prog|
  {
    if k == 0 then seq(|prog|, _ => false) else Flip(prog, BitsAfter(prog, k - 1))
  }

  /** The instruction sizes pass k lays down; before the first pass they are all zero. */
  function SizesIn(prog: seq<Instr>, k: nat): (sizes: seq<nat>)
    requires WellFormed(prog)
    ensures |sizes| == |prog|
  {
    if k == 0 then seq(|prog|, _ => 0)
    else
      var lay := Layout(prog, BitsAfter(prog, k - 1));
      seq(|prog|, i requires 0 <= i < |prog| => SizeOf(prog[i], lay[i]))
  }

  /** Nothing changed in pass k, so the loop ends with it. */
  predicate Settled(prog: seq<Instr>, k: nat)
    requires WellFormed(prog) && k > 0
  {
    BitsAfter(prog, k) == BitsAfter(prog, k - 1) && SizesIn(prog, k) == SizesIn(prog, k - 1)
  }

  lemma {:induction false} ChoosePrefix(prog: seq<Instr>, bits: seq<bool>, m: nat, n: nat)
    requires m <= n <= |prog| == |bits|
    ensures Choose(prog, bits, m) == Choose(prog, bits, n)[..m]
    decreases n
  {
    if m < n { ChoosePrefix(prog, bits, m, n - 1); }
  }

  /** What the layout of a pass is, instruction by instruction. */
  lemma LayoutAt(prog: seq<Instr>, bits: seq<bool>, i: nat)
    requires WellFormed(prog) && |prog| == |bits| && i < |prog|
    ensures prog[i].Other? ==> !Layout(prog, bits)[i]
    ensures Forward(prog, i) ==> Layout(prog, bits)[i] == bits[i]
    ensures BackwardJump(prog, i) ==> Layout(prog, bits)[i] == BackwardTooFar(prog, Layout(prog, bits), i)
  {
    var lay := Layout(prog, bits);
    ChoosePrefix(prog, bits, i, |prog|);
    ChoosePrefix(prog, bits, i + 1, |prog|);
    assert lay[i] == lay[..i + 1][i];
    if BackwardJump(prog, i) {
      PcPrefix(prog, lay[..i], lay, i);
      PcPrefix(prog, lay[..i], lay, Target(prog, i));
    }
  }

  // ---- Minimality ----

  ghost predicate Below(a: seq<bool>, b: seq<bool>) {
    |a| == |b| && forall i :: 0 <= i < |a| && a[i] ==> b[i]
  }

  /** More long branches give larger pcs, and larger gaps between any two instructions. */
  lemma {:induction false} GapMonotone(prog: seq<Instr>, a: seq<bool>, b: seq<bool>, i: nat, j: nat)
    requires i <= j <= |prog| && j <= |a| && j <= |b|
    requires forall x :: 0 <= x < j && a[x] ==> b[x]
    ensures Pc(prog, a, j) - Pc(prog, a, i) <= Pc(prog, b, j) - Pc(prog, b, i)
    decreases j
  {
    if i < j { GapMonotone(prog, a, b, i, j - 1); }
  }

  /** A forced choice: if the forward bits lie below a valid layout, so does the whole pass. */
  lemma {:induction false} ChooseBelowValid(prog: seq<Instr>, bits: seq<bool>, v: seq<bool>, n: nat)
    requires WellFormed(prog) && n <= |prog| == |bits|
    requires Valid(prog, v) && Below(bits, v)
    ensures forall i :: 0 <= i < n && Choose(prog, bits, n)[i] ==> v[i]
  {
    if n > 0 {
      var i := n - 1;
      var before := Choose(prog, bits, i);
      ChooseBelowValid(prog, bits, v, i);
      if BackwardJump(prog, i) && !v[i] {
        GapMonotone(prog, before, v, Target(prog, i), i);
        assert Disp(prog, v, i) >= -128;
      }
    }
  }

  /** Larger bits give a larger layout: a pass is monotone in the bits it starts from. */
  lemma {:induction false} ChooseMonotone(prog: seq<Instr>, a: seq<bool>, b: seq<bool>, n: nat)
    requires n <= |prog| == |a| && Below(a, b)
    ensures forall i :: 0 <= i < n && Choose(prog, a, n)[i] ==> Choose(prog, b, n)[i]
  {
    if n > 0 {
      ChooseMonotone(prog, a, b, n - 1);
      if BackwardJump(prog, n - 1) {
        GapMonotone(prog, Choose(prog, a, n - 1), Choose(prog, b, n - 1), Target(prog, n - 1), n - 1);
      }
    }
  }

  lemma {:induction false} BitsBelowValid(prog: seq<Instr>, v: seq<bool>, k: nat)
    requires WellFormed(prog) && Valid(prog, v)
    ensures Below(BitsAfter(prog, k), v)
  {
    if k > 0 {
      var bits := BitsAfter(prog, k - 1);
      var lay := Layout(prog, bits);
      BitsBelowValid(prog, v, k - 1);
      ChooseBelowValid(prog, bits, v, |prog|);
      forall i | 0 <= i < |prog| && BitsAfter(prog, k)[i] ensures v[i] {
        if !bits[i] {
          GapMonotone(prog, lay, v, i + 1, Target(prog, i));
          assert !(Disp(prog, v, i) <= 127);
        }
      }
    }
  }

  /** The optimality theorem: no pass ever puts an instruction later than any valid layout does. */
  lemma LayoutIsLeast(prog: seq<Instr>, k: nat, v: seq<bool>, i: nat)
    requires WellFormed(prog) && Valid(prog, v) && i <= |prog|
    ensures Below(Layout(prog, BitsAfter(prog, k)), v)
    ensures Pc(prog, Layout(prog, BitsAfter(prog, k)), i) <= Pc(prog, v, i)
  {
    BitsBelowValid(prog, v, k);
    ChooseBelowValid(prog, BitsAfter(prog, k), v, |prog|);
    GapMonotone(prog, Layout(prog, BitsAfter(prog, k)), v, 0, i);
  }

  /** The layout the loop stops at is itself valid, so it is the least valid one. */
  lemma SettledIsValid(prog: seq<Instr>, k: nat)
    requires WellFormed(prog) && k > 0 && Settled(prog, k)
    ensures Valid(prog, Layout(prog, BitsAfter(prog, k - 1)))
  {
    var bits := BitsAfter(prog, k - 1);
    var lay := Layout(prog, bits);
    forall i | 0 <= i < |prog| && prog[i].Jump? && !lay[i] ensures -128 <= Disp(prog, lay, i) <= 127 {
      LayoutAt(prog, bits, i);
      if Forward(prog, i) {
        assert Flip(prog, bits)[i] == bits[i];
        PcMonotone(prog, lay, i + 1, Target(prog, i));
      } else {
        PcMonotone(prog, lay, Target(prog, i), i + 1);
      }
    }
  }

  // ---- Termination on the loop's own measure ----

  /** Sizes never shrink from one pass to the next. */
  lemma SizesNeverShrink(prog: seq<Instr>, k: nat, i: nat)
    requires WellFormed(prog) && i < |prog|
    ensures SizesIn(prog, k)[i] <= SizesIn(prog, k + 1)[i]
  {
    if k > 0 { ChooseMonotone(prog, BitsAfter(prog, k - 1), BitsAfter(prog, k), |prog|); }
  }

  function CountForward(prog: seq<Instr>, n: nat): nat
    requires n <= |prog|
  {
    if n == 0 then 0 else CountForward(prog, n - 1) + if Forward(prog, n - 1) then 1 else 0
  }

  function CountLong(bits: seq<bool>, n: nat): nat
    requires n <= |bits|
  {
    if n == 0 then 0 else CountLong(bits, n - 1) + if bits[n - 1] then 1 else 0
  }

  lemma {:induction false} CountLongBound(prog: seq<Instr>, k: nat, n: nat)
    requires WellFormed(prog) && n <= |prog|
    ensures CountLong(BitsAfter(prog, k), n) <= CountForward(prog, n)
  {
    if n > 0 {
      CountLongBound(prog, k, n - 1);
      OnlyForwardBits(prog, k, n - 1);
    }
  }

  lemma {:induction false} OnlyForwardBits(prog: seq<Instr>, k: nat, i: nat)
    requires WellFormed(prog) && i < |prog|
    ensures BitsAfter(prog, k)[i] ==> Forward(prog, i)
  {
    if k > 0 { OnlyForwardBits(prog, k - 1, i); }
  }

  lemma {:induction false} CountLongGrows(a: seq<bool>, b: seq<bool>, n: nat)
    requires Below(a, b) && n <= |a|
    ensures CountLong(a, n) <= CountLong(b, n)
    ensures a[..n] != b[..n] ==> CountLong(a, n) < CountLong(b, n)
  {
    if n > 0 {
      CountLongGrows(a, b, n - 1);
      assert a[..n] == a[..n - 1] + [a[n - 1]] && b[..n] == b[..n - 1] + [b[n - 1]];
    }
  }

  /** While passes keep flipping bits, each flips at least one. */
  lemma {:induction false} FlipsAddUp(prog: seq<Instr>, k: nat)
    requires WellFormed(prog)
    requires forall j :: 1 <= j <= k ==> BitsAfter(prog, j) != BitsAfter(prog, j - 1)
    ensures CountLong(BitsAfter(prog, k), |prog|) >= k
  {
    if k > 0 {
      var a, b := BitsAfter(prog, k - 1), BitsAfter(prog, k);
      FlipsAddUp(prog, k - 1);
      CountLongGrows(a, b, |prog|);
      assert a[..|prog|] == a && b[..|prog|] == b;
    }
  }

  /** With F forward branches the loop settles within F + 2 passes. */
  lemma SettlesWithinBound(prog: seq<Instr>) returns (k: nat)
    requires WellFormed(prog)
    ensures 1 <= k <= CountForward(prog, |prog|) + 2 && Settled(prog, k)
  {
    var j := 1;
    while BitsAfter(prog, j) != BitsAfter(prog, j - 1)
      invariant 1 <= j <= CountForward(prog, |prog|) + 1
      invariant forall x :: 1 <= x < j ==> BitsAfter(prog, x) != BitsAfter(prog, x - 1)
      decreases CountForward(prog, |prog|) + 1 - j
    {
      FlipsAddUp(prog, j);
      CountLongBound(prog, j, |prog|);
      j := j + 1;
    }
    k := j + 1;
  }

  // ---- The bound is met for every number of branches ----

  function Nops(n: nat): (code: seq<byte>)
    ensures |code| == n
  {
    seq(n, _ => 0x90)
  }

  /** f forward branches, each over 124 bytes and the next branch, which the last has 128 bytes to jump:
      each is just in reach until the next one has grown. Branch m is instruction 3 * m. */
  function Cascade(f: nat): (prog: seq<Instr>)
    ensures |prog| == 3 * f + 2
  {
    seq(3 * f + 2, i requires 0 <= i < 3 * f + 2 =>
      if i >= 3 * f then Other([0xc3])
      else if i % 3 != 0 then Other(Nops(if i > 3 * f - 3 then 64 else 62))
      else Jump(false, 0xeb, 0xe9, Some(if i == 3 * f - 3 then 3 * f else i + 4)))
  }

  ghost predicate IsBranch(f: nat, i: nat) { i < 3 * f && i % 3 == 0 }

  lemma CascadeAt(f: nat, i: nat)
    requires i < 3 * f + 2
    ensures WellFormed(Cascade(f))
    ensures Forward(Cascade(f), i) <==> IsBranch(f, i)
    ensures !BackwardJump(Cascade(f), i)
  {
  }

  lemma {:induction false} CascadeCounts(f: nat, n: nat)
    requires n <= 3 * f + 2
    ensures CountForward(Cascade(f), n) == if n <= 3 * f then (n + 2) / 3 else f
  {
    hide Cascade, Forward;
    if n > 0 {
      CascadeCounts(f, n - 1);
      CascadeAt(f, n - 1);
      Thirds(n - 1);
    }
  }

  lemma Thirds(i: nat)
    ensures (i + 3) / 3 == (i + 2) / 3 + if i % 3 == 0 then 1 else 0
  {
  }

  /** After k passes the last k branches are long. */
  ghost predicate LastLong(f: nat, bits: seq<bool>, k: nat) {
    |bits| == 3 * f + 2 && forall i :: 0 <= i < 3 * f + 2 ==> bits[i] == (IsBranch(f, i) && i >= 3 * (f - k))
  }

  lemma CascadeLayout(f: nat, bits: seq<bool>, k: nat)
    requires LastLong(f, bits, k)
    ensures WellFormed(Cascade(f)) && Layout(Cascade(f), bits) == bits
  {
    var prog := Cascade(f);
    CascadeAt(f, 0);
    forall i | 0 <= i < 3 * f + 2 ensures Layout(prog, bits)[i] == bits[i] {
      CascadeAt(f, i);
      LayoutAt(prog, bits, i);
    }
  }

  lemma CascadeGroup(f: nat, m: nat)
    requires m < f
    ensures var prog, i := Cascade(f), 3 * m;
            && prog[i].Jump? && Target(prog, i) == (if m == f - 1 then i + 3 else i + 4) <= 3 * f
            && SizeOf(prog[i + 1], false) == SizeOf(prog[i + 1], true) == (if m == f - 1 then 64 else 62)
            && SizeOf(prog[i + 2], false) == SizeOf(prog[i + 2], true) == (if m == f - 1 then 64 else 62)
            && (m < f - 1 ==> SizeOf(prog[i + 3], false) == 2 && SizeOf(prog[i + 3], true) == 5)
  {
    var i := 3 * m;
    assert i % 3 == 0 && (i + 1) % 3 == 1 && (i + 2) % 3 == 2 && (i + 3) % 3 == 0;
  }

  lemma CascadeDisp(f: nat, lay: seq<bool>, m: nat)
    requires |lay| == 3 * f + 2 && m < f
    ensures WellFormed(Cascade(f)) && Cascade(f)[3 * m].Jump? && Target(Cascade(f), 3 * m) <= 3 * f
    ensures Disp(Cascade(f), lay, 3 * m) == if m == f - 1 then 128 else if lay[3 * m + 3] then 129 else 126
  {
    hide Pc, Cascade, SizeOf, WellFormed;
    var prog, i := Cascade(f), 3 * m;
    CascadeAt(f, i);
    CascadeGroup(f, m);
    PcStep(prog, lay, i + 1);
    PcStep(prog, lay, i + 2);
    if m < f - 1 { PcStep(prog, lay, i + 3); }
  }

  lemma CascadeFlip(f: nat, bits: seq<bool>, k: nat, i: nat)
    requires WellFormed(Cascade(f)) && LastLong(f, bits, k) && i < 3 * f + 2
    ensures Flip(Cascade(f), bits)[i] == (IsBranch(f, i) && i >= 3 * (f - (k + 1)))
  {
    CascadeLayout(f, bits, k);
    CascadeAt(f, i);
    if IsBranch(f, i) { CascadeDisp(f, bits, i / 3); }
    hide Layout, Cascade, WellFormed, Disp, Forward;
  }

  /** Exactly one more branch flips in each pass, until all have. */
  lemma {:induction false} CascadeBits(f: nat, k: nat)
    ensures WellFormed(Cascade(f)) && LastLong(f, BitsAfter(Cascade(f), k), k)
  {
    CascadeAt(f, 0);
    if k > 0 {
      CascadeBits(f, k - 1);
      var bits := BitsAfter(Cascade(f), k - 1);
      forall i | 0 <= i < 3 * f + 2 ensures Flip(Cascade(f), bits)[i] == (IsBranch(f, i) && i >= 3 * (f - k)) {
        CascadeFlip(f, bits, k - 1, i);
      }
    }
  }

  lemma CascadeUnsettled(f: nat, k: nat)
    requires 1 <= k < f + 2
    ensures WellFormed(Cascade(f)) && !Settled(Cascade(f), k)
  {
    hide Cascade, WellFormed, BitsAfter, SizesIn;
    CascadeBits(f, k);
    CascadeBits(f, k - 1);
    if k <= f {
      var i := 3 * (f - k);
      assert IsBranch(f, i) && BitsAfter(Cascade(f), k)[i] != BitsAfter(Cascade(f), k - 1)[i];
    } else {
      CascadeSizes(f);
    }
  }

  lemma CascadeSettles(f: nat)
    ensures WellFormed(Cascade(f)) && Settled(Cascade(f), f + 2)
  {
    hide Cascade, WellFormed, Layout;
    CascadeBits(f, f);
    CascadeBits(f, f + 1);
    CascadeBits(f, f + 2);
    assert BitsAfter(Cascade(f), f) == BitsAfter(Cascade(f), f + 1) == BitsAfter(Cascade(f), f + 2);
  }

  /** For every number of branches the loop may need as many passes as the bound allows. */
  lemma BoundIsTight(f: nat)
    ensures var prog := Cascade(f);
            && WellFormed(prog) && CountForward(prog, |prog|) == f
            && (forall k :: 1 <= k < f + 2 ==> !Settled(prog, k)) && Settled(prog, f + 2)
  {
    hide Settled;
    CascadeAt(f, 0);
    CascadeCounts(f, 3 * f + 2);
    forall k | 1 <= k < f + 2 ensures !Settled(Cascade(f), k) {
      CascadeUnsettled(f, k);
    }
    CascadeSettles(f);
  }

  /** The first branch, or without one the first instruction, still changes size in pass f + 1. */
  lemma CascadeSizes(f: nat)
    ensures WellFormed(Cascade(f)) && SizesIn(Cascade(f), f + 1)[0] != SizesIn(Cascade(f), f)[0]
  {
    CascadeAt(f, 0);
    CascadeBits(f, f);
    CascadeLayout(f, BitsAfter(Cascade(f), f), f);
    if f > 0 {
      CascadeBits(f, f - 1);
      CascadeLayout(f, BitsAfter(Cascade(f), f - 1), f - 1);
    }
  }

  // ---- Machine code ----

  /** The bytes of instruction i in a layout, with displacement d when it is a branch. */
  function Encode(ins: Instr, isLong: bool, d: int): (code: seq<byte>)
    ensures |code| == SizeOf(ins, isLong)
  {
    match ins
    case Other(code) => code
    case Jump(cond, short, long, _) =>
      if !isLong then [short, Byte(d)]
      else (if cond then [0x0f] else []) + [long] + LittleEndian32(d)
  }

  /** What the bytes of a branch must be, by the instruction formats: an opcode and an 8-bit displacement;
      an opcode and 32 bits, low byte first; or the same behind the byte 0x0f, for conditional ones. */
  ghost predicate BranchCode(ins: Instr, code: seq<byte>, d: int)
    requires ins.Jump?
  {
    || (|code| == 2 && code[0] == ins.short && code[1] == d % 0x100)
    || (|code| == 5 && !ins.cond && code[0] == ins.long
        && (var b1: int, b2: int, b3: int, b4: int := code[1], code[2], code[3], code[4];
            b1 + 0x100 * b2 + 0x1_0000 * b3 + 0x100_0000 * b4 == d % 0x1_0000_0000))
    || (|code| == 6 && ins.cond && code[0] == 0x0f && code[1] == ins.long
        && (var b2: int, b3: int, b4: int, b5: int := code[2], code[3], code[4], code[5];
            b2 + 0x100 * b3 + 0x1_0000 * b4 + 0x100_0000 * b5 == d % 0x1_0000_0000))
  }

  lemma EncodedBranch(ins: Instr, isLong: bool, d: int)
    requires ins.Jump?
    ensures BranchCode(ins, Encode(ins, isLong, d), d) && (|Encode(ins, isLong, d)| == 2 <==> !isLong)
  {
    LittleEndianValue(d);
  }

  /** The displacement a processor reads from a branch: 8 or 32 bits, sign-extended. */
  function DecodeDisp(code: seq<byte>): int
    requires |code| == 2 || |code| >= 4
  {
    if |code| == 2 then SignExtend8(code[1]) else Signed32(code[|code| - 4..])
  }

  lemma EncodedDisp(ins: Instr, isLong: bool, d: int)
    requires ins.Jump? && if isLong then -0x8000_0000 <= d < 0x8000_0000 else -128 <= d < 128
    ensures DecodeDisp(Encode(ins, isLong, d)) == d
  {
    var code := Encode(ins, isLong, d);
    if isLong {
      LittleEndianRoundTrip(d);
      assert code[|code| - 4..] == LittleEndian32(d);
    } else {
      ByteRoundTrip(d);
    }
  }

  /** When the loop stops, every branch decodes to exactly its target, short or long. */
  lemma DisplacementsDecode(prog: seq<Instr>, k: nat, i: nat)
    requires WellFormed(prog) && k > 0 && Settled(prog, k)
    requires i < |prog| && prog[i].Jump?
    requires Pc(prog, Layout(prog, BitsAfter(prog, k - 1)), |prog|) < 0x8000_0000
    ensures var lay := Layout(prog, BitsAfter(prog, k - 1));
            DecodeDisp(Encode(prog[i], lay[i], Disp(prog, lay, i)))
            == Pc(prog, lay, Target(prog, i)) - Pc(prog, lay, i + 1)
  {
    hide Layout, Encode, DecodeDisp, BitsAfter, Settled;
    var lay := Layout(prog, BitsAfter(prog, k - 1));
    SettledIsValid(prog, k);
    PcMonotone(prog, lay, i + 1, |prog|);
    PcMonotone(prog, lay, Target(prog, i), |prog|);
    EncodedDisp(prog[i], lay[i], Disp(prog, lay, i));
  }

  // ---- span8 ----

  /** A slot of the code buffer that lies apart from a rewritten stretch keeps its bytes. */
  lemma SliceApart(p: seq<byte>, p': seq<byte>, a: nat, b: nat, x: nat, y: nat)
    requires a <= b <= |p| == |p'| && x <= y <= |p|
    requires p'[..a] == p[..a] && p'[b..] == p[b..]
    requires y <= a || b <= x
    ensures p'[x..y] == p[x..y]
  {
    forall i | x <= i < y ensures p'[i] == p[i] {
      assert if i < a then p'[i] == p'[..a][i] && p[i] == p[..a][i]
             else p'[i] == p'[b..][i - b] && p[i] == p[b..][i - b];
    }
  }

  /** Forward branch i has been patched once its target's turn has come, unless still in todo. */
  ghost predicate Patched(prog: seq<Instr>, i: nat, n: nat, todo: seq<nat>)
    requires i < |prog|
  {
    Forward(prog, i) && (Target(prog, i) < n || (Target(prog, i) == n && i !in todo))
  }

  ghost function SlotBytes(prog: seq<Instr>, lay: seq<bool>, i: nat, n: nat, todo: seq<nat>): seq<byte>
    requires WellFormed(prog) && i < |prog| == |lay|
  {
    Encode(prog[i], lay[i],
           if prog[i].Jump? && (BackwardJump(prog, i) || Patched(prog, i, n, todo)) then Disp(prog, lay, i) else 0)
  }

  /** The code buffer holds the first n instructions, one slot after the other. */
  ghost predicate Slots(prog: seq<Instr>, p: seq<byte>, lay: seq<bool>, n: nat, todo: seq<nat>)
    requires WellFormed(prog) && n <= |prog| == |lay|
  {
    |p| == Pc(prog, lay, n) &&
    forall i :: 0 <= i < n ==> Slot(prog, p, lay, i) == SlotBytes(prog, lay, i, n, todo)
  }

  ghost function Slot(prog: seq<Instr>, p: seq<byte>, lay: seq<bool>, i: nat): seq<byte>
    requires i < |prog| == |lay|
  {
    if Pc(prog, lay, i) <= Pc(prog, lay, i + 1) <= |p| then p[Pc(prog, lay, i)..Pc(prog, lay, i + 1)] else []
  }

  /** Filling in the displacement field of a zeroed branch. */
  lemma PatchedSlot(ins: Instr, isLong: bool, v: int, slot: seq<byte>, slot': seq<byte>)
    requires ins.Jump? && slot == Encode(ins, isLong, 0) && |slot'| == |slot|
    requires var at := if isLong then |slot| - 4 else 1;
             slot'[..at] == slot[..at] && slot'[at..] == if isLong then LittleEndian32(v) else [Byte(v)]
    ensures slot' == Encode(ins, isLong, v)
  {
    var at := if isLong then |slot| - 4 else 1;
    assert slot' == slot'[..at] + slot'[at..];
    assert slot[..at] == Encode(ins, isLong, v)[..at];
    assert Encode(ins, isLong, v)[at..] == if isLong then LittleEndian32(v) else [Byte(v)];
  }

  /** p' is p with the displacement field of branch q filled in. */
  ghost predicate Filled(prog: seq<Instr>, p: seq<byte>, p': seq<byte>, lay: seq<bool>, q: nat)
    requires WellFormed(prog) && q < |prog| == |lay| && prog[q].Jump?
  {
    var end: int := Pc(prog, lay, q + 1);
    var at := end - (if lay[q] then 4 else 1);
    0 <= at && end <= |p| == |p'| && p'[..at] == p[..at] && p'[end..] == p[end..] &&
    p'[at..end] == if lay[q] then LittleEndian32(Disp(prog, lay, q)) else [Byte(Disp(prog, lay, q))]
  }

  /** The buffer after the stores of the patch loop, for a branch whose slot ends at end. */
  function Store(p: seq<byte>, end: int, isLong: bool, v: int): (p': seq<byte>)
    requires (if isLong then 4 else 1) <= end <= |p|
    ensures |p'| == |p|
  {
    if isLong then
      p[end - 4 := Byte(v)][end - 3 := Byte(v / 0x100)][end - 2 := Byte(v / 0x1_0000)][end - 1 := Byte(v / 0x100_0000)]
    else p[end - 1 := Byte(v)]
  }

  lemma StoreFills(prog: seq<Instr>, p: seq<byte>, lay: seq<bool>, q: nat)
    requires WellFormed(prog) && q < |prog| == |lay| && prog[q].Jump? && Pc(prog, lay, q + 1) <= |p|
    ensures Filled(prog, p, Store(p, Pc(prog, lay, q + 1), lay[q], Disp(prog, lay, q)), lay, q)
  {
  }

  lemma FilledOwnSlot(prog: seq<Instr>, p: seq<byte>, p': seq<byte>, lay: seq<bool>, q: nat)
    requires WellFormed(prog) && q < |prog| == |lay| && prog[q].Jump?
    requires Filled(prog, p, p', lay, q) && Slot(prog, p, lay, q) == Encode(prog[q], lay[q], 0)
    ensures Slot(prog, p', lay, q) == Encode(prog[q], lay[q], Disp(prog, lay, q))
  {
    var start, end := Pc(prog, lay, q), Pc(prog, lay, q + 1);
    var at := end - (if lay[q] then 4 else 1);
    var slot, slot' := p[start..end], p'[start..end];
    assert slot'[..at - start] == p'[..at][start..] && slot[..at - start] == p[..at][start..];
    assert slot'[at - start..] == p'[at..end];
    PatchedSlot(prog[q], lay[q], Disp(prog, lay, q), slot, slot');
  }

  lemma FilledOtherSlot(prog: seq<Instr>, p: seq<byte>, p': seq<byte>, lay: seq<bool>, q: nat, i: nat)
    requires WellFormed(prog) && q < |prog| == |lay| && prog[q].Jump? && i < |prog| && i != q
    requires Filled(prog, p, p', lay, q) && Pc(prog, lay, i + 1) <= |p|
    ensures Slot(prog, p', lay, i) == Slot(prog, p, lay, i)
  {
    var end := Pc(prog, lay, q + 1);
    PcMonotone(prog, lay, if i < q then i + 1 else q + 1, if i < q then q else i);
    SliceApart(p, p', end - (if lay[q] then 4 else 1), end, Pc(prog, lay, i), Pc(prog, lay, i + 1));
  }

  /** Writing the displacement of forward branch q completes its slot and disturbs no other. */
  lemma PatchedSlots(prog: seq<Instr>, p: seq<byte>, p': seq<byte>, lay: seq<bool>, q: nat, n: nat, rest: seq<nat>)
    requires WellFormed(prog) && q < n < |prog| == |lay| && Forward(prog, q) && Target(prog, q) == n && q !in rest
    requires Slots(prog, p, lay, n, [q] + rest) && Filled(prog, p, p', lay, q)
    ensures Slots(prog, p', lay, n, rest)
  {
    forall i | 0 <= i < n ensures Slot(prog, p', lay, i) == SlotBytes(prog, lay, i, n, rest) {
      PcMonotone(prog, lay, i + 1, n);
      assert Slot(prog, p, lay, i) == SlotBytes(prog, lay, i, n, [q] + rest);
      if i == q {
        assert q in [q] + rest;
        FilledOwnSlot(prog, p, p', lay, q);
      } else {
        FilledOtherSlot(prog, p, p', lay, q, i);
        assert Patched(prog, i, n, rest) == Patched(prog, i, n, [q] + rest);
      }
    }
  }

  ghost predicate PcsPlaced(prog: seq<Instr>, pc: seq<int>, isize: seq<nat>, mark: seq<nat>, lay: seq<bool>, n: nat)
    requires n <= |prog| == |lay| == |pc| == |isize| == |mark|
  {
    forall i :: 0 <= i < n ==> pc[i] == Pc(prog, lay, i) && isize[i] == mark[i] == SizeOf(prog[i], lay[i])
  }

  ghost predicate WaitsFor(prog: seq<Instr>, q: nat, t: nat, n: nat)
    requires n <= |prog|
  {
    q < n && Forward(prog, q) && Target(prog, q) == t
  }

  /** Each comefrom list from m on holds the emitted forward branches to that target; todo holds
      those to n. */
  ghost predicate Waiting(prog: seq<Instr>, comefrom: seq<seq<nat>>, m: nat, n: nat, todo: seq<nat>)
    requires |comefrom| == |prog| && n <= |prog|
  {
    && (forall t, q :: 0 <= t < |prog| ==> (q in comefrom[t] <==> t >= m && WaitsFor(prog, q, t, n)))
    && (forall t :: 0 <= t < |prog| ==> Distinct(comefrom[t]))
    && (forall q :: q in todo ==> WaitsFor(prog, q, n, n))
    && Distinct(todo)
  }

  ghost predicate Distinct(list: seq<nat>) {
    forall i, j :: 0 <= i < j < |list| ==> list[i] != list[j]
  }

  /** The bits during a pass: those it started with, less the branches found out of reach. */
  ghost predicate BitsDuring(prog: seq<Instr>, isShort: seq<bool>, bits: seq<bool>, n: nat, todo: seq<nat>)
    requires WellFormed(prog) && |isShort| == |prog| == |bits|
  {
    forall i :: 0 <= i < |prog| ==>
      isShort[i] == !(bits[i] || (i < n && Patched(prog, i, n, todo) && Disp(prog, Layout(prog, bits), i) > 127))
  }

  lemma HeadOfTodo(prog: seq<Instr>, comefrom: seq<seq<nat>>, m: nat, n: nat, q: nat, rest: seq<nat>)
    requires |comefrom| == |prog| && n <= |prog| && Waiting(prog, comefrom, m, n, [q] + rest)
    ensures WaitsFor(prog, q, n, n) && q !in rest && Waiting(prog, comefrom, m, n, rest)
  {
    var todo := [q] + rest;
    assert todo[0] == q && forall j :: 0 <= j < |rest| ==> rest[j] == todo[j + 1];
  }

  lemma FlippedBits(prog: seq<Instr>, isShort: seq<bool>, isShort': seq<bool>, bits: seq<bool>, n: nat, q: nat,
                    rest: seq<nat>)
    requires WellFormed(prog) && |isShort| == |prog| == |bits| && n < |prog| && WaitsFor(prog, q, n, n) && q !in rest
    requires BitsDuring(prog, isShort, bits, n, [q] + rest)
    requires isShort' == if isShort[q] && Disp(prog, Layout(prog, bits), q) > 127 then isShort[q := false] else isShort
    ensures BitsDuring(prog, isShort', bits, n, rest)
  {
    assert q in [q] + rest;
    forall i | 0 <= i < |prog| && i != q ensures Patched(prog, i, n, rest) == Patched(prog, i, n, [q] + rest) {
    }
  }

  /** One round of the patch loop. */
  lemma PatchStep(prog: seq<Instr>, bits: seq<bool>, p: seq<byte>, isShort: seq<bool>, comefrom: seq<seq<nat>>,
                  n: nat, q: nat, rest: seq<nat>)
    requires WellFormed(prog) && |bits| == |prog| == |isShort| == |comefrom| && n < |prog|
    requires Slots(prog, p, Layout(prog, bits), n, [q] + rest) && BitsDuring(prog, isShort, bits, n, [q] + rest)
    requires Waiting(prog, comefrom, n + 1, n, [q] + rest)
    ensures WaitsFor(prog, q, n, n) && Waiting(prog, comefrom, n + 1, n, rest)
    ensures var lay := Layout(prog, bits);
            var end, v := Pc(prog, lay, q + 1), Disp(prog, lay, q);
            && isShort[q] == !lay[q] && end == Pc(prog, lay, q) + SizeOf(prog[q], lay[q]) <= |p|
            && v == Pc(prog, lay, n) - end
            && Slots(prog, Store(p, end, lay[q], v), lay, n, rest)
            && BitsDuring(prog, if isShort[q] && v > 127 then isShort[q := false] else isShort, bits, n, rest)
  {
    var lay := Layout(prog, bits);
    HeadOfTodo(prog, comefrom, n + 1, n, q, rest);
    LayoutAt(prog, bits, q);
    PcMonotone(prog, lay, q + 1, n);
    StoreFills(prog, p, lay, q);
    assert !Patched(prog, q, n, [q] + rest) by { assert ([q] + rest)[0] == q; }
    var v := Disp(prog, lay, q);
    PatchedSlots(prog, p, Store(p, Pc(prog, lay, q + 1), lay[q], v), lay, q, n, rest);
    FlippedBits(prog, isShort, if isShort[q] && v > 127 then isShort[q := false] else isShort, bits, n, q, rest);
  }

  lemma PlacedAt(prog: seq<Instr>, pc: seq<int>, isize: seq<nat>, mark: seq<nat>, lay: seq<bool>, n: nat, q: nat)
    requires q < n <= |prog| == |lay| == |pc| == |isize| == |mark|
    requires PcsPlaced(prog, pc, isize, mark, lay, n)
    ensures pc[q] == Pc(prog, lay, q) && mark[q] == SizeOf(prog[q], lay[q])
    ensures pc[q] + mark[q] == Pc(prog, lay, q + 1)
  {
  }

  lemma PlacedKeeps(prog: seq<Instr>, pc: seq<int>, pc': seq<int>, isize: seq<nat>, mark: seq<nat>,
                    lay: seq<bool>, n: nat)
    requires n <= |prog| == |lay| == |pc| == |isize| == |mark| == |pc'|
    requires PcsPlaced(prog, pc, isize, mark, lay, n) && forall i :: 0 <= i < n ==> pc'[i] == pc[i]
    ensures PcsPlaced(prog, pc', isize, mark, lay, n)
  {
  }

  lemma PlacedNext(prog: seq<Instr>, pc: seq<int>, isize: seq<nat>, mark: seq<nat>, lay: seq<bool>, n: nat, m: nat)
    requires n < |prog| == |lay| == |pc| == |isize| == |mark|
    requires PcsPlaced(prog, pc, isize, mark, lay, n) && pc[n] == Pc(prog, lay, n) && m == SizeOf(prog[n], lay[n])
    ensures PcsPlaced(prog, pc, isize[n := m], mark[n := m], lay, n + 1)
  {
  }

  lemma HasMember(list: seq<nat>)
    ensures list != [] ==> exists q :: q in list
  {
    if list != [] { assert list[0] in list; }
  }

  /** A size changed in one round stays changed in it. */
  lemma ResizeSticks(before: seq<nat>, a: seq<nat>, n: nat, m: nat)
    requires |before| == |a| && n < |a| && a[n..] == before[n..]
    ensures a[n := m] == before <==> a == before && a[n] == m
    ensures a[n := m][n + 1..] == before[n + 1..]
  {
    assert a[n] == a[n..][0] && before[n] == before[n..][0];
    assert a[n + 1..] == a[n..][1..] && before[n + 1..] == before[n..][1..];
    if a[n := m] == before { assert a == before; }
  }

  ghost predicate OnlyCleared(a: seq<bool>, b: seq<bool>) {
    |a| == |b| && forall i :: 0 <= i < |a| && b[i] ==> a[i]
  }

  /** So does a bit, because bits only go from short to long. */
  lemma FlipSticks(before: seq<bool>, a: seq<bool>, b: seq<bool>)
    requires |before| == |a| == |b|
    requires OnlyCleared(before, a) && OnlyCleared(a, b)
    ensures b == before <==> a == before && b == a
    ensures OnlyCleared(before, b)
  {
    if b == before { assert a == before; }
  }

  lemma SlotsLength(prog: seq<Instr>, p: seq<byte>, lay: seq<bool>, n: nat, todo: seq<nat>)
    requires WellFormed(prog) && n <= |prog| == |lay| && Slots(prog, p, lay, n, todo)
    ensures |p| == Pc(prog, lay, n)
  {
  }

  /** The form picked for a backward branch from the running pcs is the layout's. */
  lemma BackwardPicked(prog: seq<Instr>, lay: seq<bool>, pc: seq<int>, isize: seq<nat>, mark: seq<nat>, n: nat)
    requires WellFormed(prog) && n < |prog| == |lay| == |pc| == |isize| == |mark| && BackwardJump(prog, n)
    requires PcsPlaced(prog, pc, isize, mark, lay, n) && pc[n] == Pc(prog, lay, n)
    requires lay[n] == BackwardTooFar(prog, lay, n)
    ensures var t := Target(prog, n);
      && lay[n] == (pc[t] - (pc[n] + 2) < -128)
      && pc[t] - (pc[n] + SizeOf(prog[n], lay[n])) == Disp(prog, lay, n)
  {
    hide PcsPlaced, Pc;
    PcStep(prog, lay, n);
    if Target(prog, n) < n {
      PlacedAt(prog, pc, isize, mark, lay, n, Target(prog, n));
    }
  }

  lemma PcStep(prog: seq<Instr>, lay: seq<bool>, i: nat)
    requires i < |prog| && i < |lay|
    ensures Pc(prog, lay, i + 1) == Pc(prog, lay, i) + SizeOf(prog[i], lay[i])
  {
  }

  lemma ForwardPicked(prog: seq<Instr>, bits: seq<bool>, isShort: seq<bool>, n: nat)
    requires WellFormed(prog) && n < |prog| == |bits| == |isShort| && BitsDuring(prog, isShort, bits, n, [])
    requires Forward(prog, n) && Layout(prog, bits)[n] == bits[n]
    ensures isShort[n] == !Layout(prog, bits)[n]
  {
  }

  lemma SizesPlaced(prog: seq<Instr>, k: nat, pc: seq<int>, isize: seq<nat>, mark: seq<nat>)
    requires WellFormed(prog) && |prog| == |pc| == |isize| == |mark|
    requires PcsPlaced(prog, pc, isize, mark, Layout(prog, BitsAfter(prog, k)), |prog|)
    ensures isize == SizesIn(prog, k + 1)
  {
  }

  lemma NextBits(prog: seq<Instr>, k: nat)
    requires WellFormed(prog)
    ensures BitsAfter(prog, k + 1) == Flip(prog, BitsAfter(prog, k))
  {
  }

  ghost function TodoAt(comefrom: seq<seq<nat>>, n: nat): seq<nat> {
    if n < |comefrom| then comefrom[n] else []
  }

  /** Reaching instruction n takes its list off the waiting ones. */
  lemma TakeList(prog: seq<Instr>, comefrom: seq<seq<nat>>, n: nat)
    requires |comefrom| == |prog| && n < |prog| && Waiting(prog, comefrom, n, n, comefrom[n])
    ensures Waiting(prog, comefrom[n := []], n + 1, n, comefrom[n])
  {
  }

  /** The lists after instruction n has been assembled. */
  lemma ListsAfter(prog: seq<Instr>, comefrom: seq<seq<nat>>, comefrom': seq<seq<nat>>, n: nat)
    requires WellFormed(prog) && |comefrom| == |prog| && n < |prog| && Waiting(prog, comefrom, n + 1, n, [])
    requires comefrom' ==
             if Forward(prog, n) then var t := Target(prog, n); comefrom[t := [n] + comefrom[t]] else comefrom
    ensures Waiting(prog, comefrom', n + 1, n + 1, TodoAt(comefrom', n + 1))
  {
    forall t, q | 0 <= t < |prog| ensures q in comefrom'[t] <==> t >= n + 1 && WaitsFor(prog, q, t, n + 1) {
      assert q in comefrom[t] <==> t >= n + 1 && WaitsFor(prog, q, t, n);
      if Forward(prog, n) && t == Target(prog, n) {
        assert q in comefrom'[t] <==> q == n || q in comefrom[t];
      }
    }
    forall t | 0 <= t < |prog| ensures Distinct(comefrom'[t]) {
      assert n !in comefrom[t] by { assert n in comefrom[t] <==> t >= n + 1 && WaitsFor(prog, n, t, n); }
    }
  }

  lemma SlotAppend(prog: seq<Instr>, p: seq<byte>, code: seq<byte>, lay: seq<bool>, i: nat)
    requires i < |prog| == |lay| && Pc(prog, lay, i + 1) <= |p| + |code|
    ensures Pc(prog, lay, i + 1) <= |p| ==> Slot(prog, p + code, lay, i) == Slot(prog, p, lay, i)
    ensures Pc(prog, lay, i) == |p| && Pc(prog, lay, i + 1) == |p| + |code| ==> Slot(prog, p + code, lay, i) == code
  {
  }

  /** Appending instruction n, with its backward displacement or with zeros. */
  lemma SlotsAfter(prog: seq<Instr>, p: seq<byte>, code: seq<byte>, lay: seq<bool>, n: nat,
                   comefrom: seq<seq<nat>>)
    requires WellFormed(prog) && n < |prog| == |lay| == |comefrom|
    requires Slots(prog, p, lay, n, []) && Waiting(prog, comefrom, n + 1, n + 1, TodoAt(comefrom, n + 1))
    requires code == Encode(prog[n], lay[n], if BackwardJump(prog, n) then Disp(prog, lay, n) else 0)
    ensures Slots(prog, p + code, lay, n + 1, TodoAt(comefrom, n + 1))
  {
    var todo := TodoAt(comefrom, n + 1);
    forall i | 0 <= i < n + 1 ensures Slot(prog, p + code, lay, i) == SlotBytes(prog, lay, i, n + 1, todo) {
      PcMonotone(prog, lay, i + 1, n + 1);
      SlotAppend(prog, p, code, lay, i);
      if i < n {
        PcMonotone(prog, lay, i + 1, n);
        assert Slot(prog, p, lay, i) == SlotBytes(prog, lay, i, n, []);
        assert Patched(prog, i, n, []) == Patched(prog, i, n + 1, todo) by {
          if n + 1 < |prog| { assert i in comefrom[n + 1] <==> WaitsFor(prog, i, n + 1, n + 1); }
        }
      } else {
        assert !Patched(prog, n, n + 1, todo) by {
          if n + 1 < |prog| { assert n in comefrom[n + 1] <==> WaitsFor(prog, n, n + 1, n + 1); }
        }
      }
    }
  }

  lemma BitsAfterEmit(prog: seq<Instr>, isShort: seq<bool>, bits: seq<bool>, n: nat, comefrom: seq<seq<nat>>)
    requires WellFormed(prog) && |isShort| == |prog| == |bits| == |comefrom| && n < |prog|
    requires BitsDuring(prog, isShort, bits, n, []) && Waiting(prog, comefrom, n + 1, n + 1, TodoAt(comefrom, n + 1))
    ensures BitsDuring(prog, isShort, bits, n + 1, TodoAt(comefrom, n + 1))
  {
    var todo := TodoAt(comefrom, n + 1);
    forall i | 0 <= i < n + 1
      ensures (i < n && Patched(prog, i, n, [])) == Patched(prog, i, n + 1, todo)
    {
      if n + 1 < |prog| { assert i in comefrom[n + 1] <==> WaitsFor(prog, i, n + 1, n + 1); }
    }
  }

  /** What the buffer holds for instruction i when span8 leaves its loop after pass k. */
  lemma FinalBytes(prog: seq<Instr>, k: nat, p: seq<byte>, pc: seq<int>, isize: seq<nat>, mark: seq<nat>, i: nat)
    requires WellFormed(prog) && k > 0 && Settled(prog, k) && |prog| == |pc| == |isize| == |mark|
    requires var lay := Layout(prog, BitsAfter(prog, k - 1));
             PcsPlaced(prog, pc, isize, mark, lay, |prog|) && Slots(prog, p, lay, |prog|, [])
    requires i < |prog|
    ensures 0 <= pc[i] <= pc[i] + mark[i] <= |p|
    ensures pc[i] == (if i == 0 then 0 else pc[i - 1] + mark[i - 1]) && (i == |prog| - 1 ==> pc[i] + mark[i] == |p|)
    ensures prog[i].Jump? ==> mark[i] == 2 || mark[i] >= 4
    ensures prog[i].Jump? ==>
      BranchCode(prog[i], p[pc[i]..pc[i] + mark[i]], pc[Target(prog, i)] - (pc[i] + mark[i]))
    ensures prog[i].Jump? && |p| < 0x8000_0000 ==>
      DecodeDisp(p[pc[i]..pc[i] + mark[i]]) == pc[Target(prog, i)] - (pc[i] + mark[i])
    ensures prog[i].Other? ==> p[pc[i]..pc[i] + mark[i]] == prog[i].code
  {
    hide Layout, BitsAfter, Settled, DecodeDisp, PcsPlaced, BranchCode;
    var lay := Layout(prog, BitsAfter(prog, k - 1));
    PlacedAt(prog, pc, isize, mark, lay, |prog|, i);
    if i > 0 { PlacedAt(prog, pc, isize, mark, lay, |prog|, i - 1); }
    PcMonotone(prog, lay, i + 1, |prog|);
    assert Slot(prog, p, lay, i) == SlotBytes(prog, lay, i, |prog|, []);
    if prog[i].Jump? {
      PlacedAt(prog, pc, isize, mark, lay, |prog|, Target(prog, i));
      EncodedBranch(prog[i], lay[i], Disp(prog, lay, i));
      if |p| < 0x8000_0000 { DisplacementsDecode(prog, k, i); }
    }
  }

  /** Where instruction i stands then: in reach, and no later than in any valid layout. */
  lemma FinalPlace(prog: seq<Instr>, k: nat, pc: seq<int>, isize: seq<nat>, mark: seq<nat>, i: nat)
    requires WellFormed(prog) && k > 0 && Settled(prog, k) && |prog| == |pc| == |isize| == |mark|
    requires PcsPlaced(prog, pc, isize, mark, Layout(prog, BitsAfter(prog, k - 1)), |prog|)
    requires i < |prog|
    ensures prog[i].Jump? && mark[i] == 2 ==> -128 <= pc[Target(prog, i)] - (pc[i] + mark[i]) <= 127
    ensures forall v :: Valid(prog, v) ==> pc[i] <= Pc(prog, v, i)
  {
    hide Layout, BitsAfter, Settled, PcsPlaced;
    var lay := Layout(prog, BitsAfter(prog, k - 1));
    SettledIsValid(prog, k);
    PlacedAt(prog, pc, isize, mark, lay, |prog|, i);
    if prog[i].Jump? { PlacedAt(prog, pc, isize, mark, lay, |prog|, Target(prog, i)); }
    forall v | Valid(prog, v) ensures pc[i] <= Pc(prog, v, i) {
      LayoutIsLeast(prog, k - 1, v, i);
    }
  }

  /** The state of span8: the Prog fields it rewrites, indexed by position in the Prog list, and
      the code buffer s->p. The bits of back are two fields; the intrusive list comefrom/forwd of
      a target is a sequence. */
  class Assembler {
    const prog: seq<Instr>
    var pc: seq<int>
    var isShort: seq<bool>
    var isBackward: seq<bool>
    var isize: seq<nat>
    var mark: seq<nat>
    var comefrom: seq<seq<nat>>
    var p: seq<byte>
    var size: nat

    constructor (prog: seq<Instr>)
      ensures this.prog == prog && p == [] && size == 0
      ensures Shape()
      ensures forall i :: 0 <= i < |prog| ==> !isShort[i] && !isBackward[i] && isize[i] == 0 && comefrom[i] == []
    {
      this.prog := prog;
      pc, isize, mark := seq(|prog|, _ => 0), seq(|prog|, _ => 0), seq(|prog|, _ => 0);
      isShort, isBackward := seq(|prog|, _ => false), seq(|prog|, _ => false);
      comefrom := seq(|prog|, _ => []);
      p, size := [], 0;
    }

    ghost predicate Shape()
      reads this
    {
      |pc| == |isShort| == |isBackward| == |isize| == |mark| == |comefrom| == |prog|
    }

    /** The forward bits, as the specification has them. */
    ghost function LongBits(): (bits: seq<bool>)
      reads this
      requires Shape()
      ensures |bits| == |prog|
    {
      seq(|prog|, i requires 0 <= i < |prog| reads this requires |isShort| == |prog| => !isShort[i])
    }

    ghost predicate Ready()
      reads this
    {
      WellFormed(prog) && Shape() &&
      forall i :: 0 <= i < |prog| ==>
        isBackward[i] == BackwardJump(prog, i) && comefrom[i] == []
    }

    /** First loop: use short branches first, and mark the backward ones. */
    method MarkBackward()
      requires WellFormed(prog) && Shape()
      requires forall i :: 0 <= i < |prog| ==> !isShort[i] && !isBackward[i] && isize[i] == 0 && comefrom[i] == []
      modifies this`isShort, this`isBackward
      ensures Ready()
      ensures LongBits() == BitsAfter(prog, 0) && isize == SizesIn(prog, 0)
    {
      var i := 0;
      while i < |prog|
        invariant 0 <= i <= |prog| && Shape()
        invariant forall j :: 0 <= j < |prog| ==> isShort[j] == (j < i)
        invariant forall j :: 0 <= j < |prog| ==> isBackward[j] == (j < i && BackwardJump(prog, j))
      {
        isShort := isShort[i := true];
        if prog[i].Jump? && isShort[Target(prog, i)] {
          isBackward := isBackward[i := true];
        }
        i := i + 1;
      }
    }

    /** Invariant of a pass that started with bits: the first n instructions are emitted, and all
        branches to the first m are patched, except that those in todo still wait for n. */
    ghost predicate Emitted(bits: seq<bool>, m: nat, n: nat, todo: seq<nat>)
      reads this
    {
      && WellFormed(prog) && Shape() && |bits| == |prog| && n <= |prog|
      && (forall i :: 0 <= i < |prog| ==> isBackward[i] == BackwardJump(prog, i))
      && PcsPlaced(prog, pc, isize, mark, Layout(prog, bits), n)
      && Slots(prog, p, Layout(prog, bits), n, todo)
      && BitsDuring(prog, isShort, bits, n, todo)
      && Waiting(prog, comefrom, m, n, todo)
    }

    /** Process one forward jump q to instruction n, whose pc has just been set. */
    method PatchJump(q: nat, n: nat) returns (flipped: bool)
      requires Shape() && q < |prog| && n < |prog|
      requires 2 <= mark[q] && 0 <= pc[q] && pc[q] + mark[q] <= |p|
      requires (isShort[q] <==> mark[q] == 2) && (!isShort[q] ==> mark[q] >= 4)
      modifies this`p, this`isShort
      ensures var v := pc[n] - (pc[q] + mark[q]);
              && flipped == (old(isShort[q]) && v > 127)
              && p == Store(old(p), pc[q] + mark[q], !old(isShort[q]), v)
              && isShort == if flipped then old(isShort)[q := false] else old(isShort)
    {
      var v := pc[n] - (pc[q] + mark[q]);
      flipped := false;
      if isShort[q] {
        if v > 127 {
          flipped := true;
          isShort := isShort[q := false];
        }
        p := p[pc[q] + 1 := Byte(v)];
      } else {
        var b := pc[q] + mark[q] - 4;
        p := p[b := Byte(v)][b + 1 := Byte(v / 0x100)][b + 2 := Byte(v / 0x1_0000)][b + 3 := Byte(v / 0x100_0000)];
      }
    }

    /** The branch cases of doasm, and any other instruction: the bytes for instruction n at pc[n]. */
    method Assemble(n: nat) returns (code: seq<byte>)
      requires WellFormed(prog) && Shape() && n < |prog|
      modifies this`comefrom
      ensures |comefrom| == old(|comefrom|)
      ensures match prog[n]
              case Other(_) => code == Encode(prog[n], false, 0) && comefrom == old(comefrom)
              case Jump(_, _, _, _) =>
                var t := Target(prog, n);
                if isBackward[n] then
                  var tooFar := pc[t] - (pc[n] + 2) < -128;
                  comefrom == old(comefrom) &&
                  code == Encode(prog[n], tooFar, pc[t] - (pc[n] + SizeOf(prog[n], tooFar)))
                else
                  comefrom == old(comefrom)[t := [n] + old(comefrom)[t]] &&
                  code == Encode(prog[n], !isShort[n], 0)
      ensures prog[n].Jump? ==>
        BranchCode(prog[n], code, if isBackward[n] then pc[Target(prog, n)] - (pc[n] + |code|) else 0)
    {
      hide BranchCode;
      match prog[n] {
        case Other(bytes) => code := bytes;
        case Jump(cond, short, long, _) =>
          var t := Target(prog, n);
          if isBackward[n] {
            var v: int := pc[t] - (pc[n] + 2);
            EncodedBranch(prog[n], v < -128, pc[t] - (pc[n] + SizeOf(prog[n], v < -128)));
            if v >= -128 {
              code := [short, Byte(v)];
            } else {
              v := v - 3;
              code := [];
              if cond {
                code := [0x0f];
                v := v - 1;
              }
              code := code + [long, Byte(v), Byte(v / 0x100), Byte(v / 0x1_0000), Byte(v / 0x100_0000)];
            }
            return;
          }
          comefrom := comefrom[t := [n] + comefrom[t]];
          EncodedBranch(prog[n], !isShort[n], 0);
          if isShort[n] {
            code := [short, 0];
          } else {
            code := if cond then [0x0f, long, 0, 0, 0, 0] else [long, 0, 0, 0, 0];
          }
      }
    }

    /** Set the pc of instruction n and process the forward jumps to it. */
    method PatchTarget(n: nat, ghost bits: seq<bool>) returns (flips: nat)
      requires n < |prog| && Emitted(bits, n, n, TodoAt(comefrom, n))
      modifies this`pc, this`isShort, this`comefrom, this`p
      ensures Shape() && Emitted(bits, n + 1, n, []) && pc[n] == |p|
      ensures flips == 0 <==> isShort == old(isShort)
      ensures OnlyCleared(old(isShort), isShort)
    {
      hide Slots, Waiting, BitsDuring, Layout, Store, PcsPlaced, Disp, Pc;
      flips := 0;
      pc := pc[n := |p|];
      var todo := comefrom[n];
      PlacedKeeps(prog, old(pc), pc, isize, mark, Layout(prog, bits), n);
      TakeList(prog, comefrom, n);
      comefrom := comefrom[n := []];
      while todo != []
        invariant Emitted(bits, n + 1, n, todo) && pc[n] == |p|
        invariant OnlyCleared(old(isShort), isShort)
        invariant flips == 0 <==> isShort == old(isShort)
        decreases |todo|
      {
        var q := todo[0];
        assert todo == [q] + todo[1..];
        PatchStep(prog, bits, p, isShort, comefrom, n, q, todo[1..]);
        PlacedAt(prog, pc, isize, mark, Layout(prog, bits), n, q);
        var flipped := PatchJump(q, n);
        if flipped {
          flips := flips + 1;
        }
        todo := todo[1..];
      }
    }

    /** Assemble instruction n and append its bytes to the code buffer. */
    method Emit(n: nat, ghost bits: seq<bool>) returns (resized: bool)
      requires n < |prog| && Emitted(bits, n + 1, n, []) && pc[n] == |p|
      modifies this`isize, this`mark, this`comefrom, this`p
      ensures Shape() && Emitted(bits, n + 1, n + 1, TodoAt(comefrom, n + 1))
      ensures isize == old(isize)[n := isize[n]] && resized == (isize != old(isize))
    {
      hide Slots, Waiting, BitsDuring, Layout, Encode, Disp, BackwardTooFar, PcsPlaced;
      ghost var lay := Layout(prog, bits);
      SlotsLength(prog, p, lay, n, []);
      LayoutAt(prog, bits, n);
      if BackwardJump(prog, n) {
        BackwardPicked(prog, lay, pc, isize, mark, n);
      } else if Forward(prog, n) {
        ForwardPicked(prog, bits, isShort, n);
      }
      var code := Assemble(n);
      ListsAfter(prog, old(comefrom), comefrom, n);
      SlotsAfter(prog, p, code, lay, n, comefrom);
      BitsAfterEmit(prog, isShort, bits, n, comefrom);
      var m := |code|;
      PlacedNext(prog, pc, isize, mark, lay, n, m);
      resized := isize[n] != m;
      if resized {
        isize := isize[n := m];
      }
      assert isize == old(isize)[n := m];
      p := p + code;
      mark := mark[n := m];
    }

    /** The for loop's turn for instruction n. */
    method Step(n: nat, ghost bits: seq<bool>) returns (changes: nat)
      requires n < |prog| && Emitted(bits, n, n, TodoAt(comefrom, n))
      modifies this`pc, this`isShort, this`isize, this`mark, this`comefrom, this`p
      ensures Shape() && Emitted(bits, n + 1, n + 1, TodoAt(comefrom, n + 1))
      ensures isize == old(isize)[n := isize[n]]
      ensures OnlyCleared(old(isShort), isShort)
      ensures changes == 0 <==> isize == old(isize) && isShort == old(isShort)
    {
      changes := PatchTarget(n, bits);
      var resized := Emit(n, bits);
      if resized {
        changes := changes + 1;
      }
    }

    lemma PassStart(bits: seq<bool>)
      requires Ready() && bits == LongBits() && p == []
      ensures Emitted(bits, 0, 0, TodoAt(comefrom, 0))
    {
    }

    lemma PassEnd(bits: seq<bool>)
      requires Emitted(bits, |prog|, |prog|, [])
      ensures Ready() && LongBits() == Flip(prog, bits)
      ensures PcsPlaced(prog, pc, isize, mark, Layout(prog, bits), |prog|)
      ensures Slots(prog, p, Layout(prog, bits), |prog|, [])
    {
      forall t | 0 <= t < |prog| ensures comefrom[t] == [] {
        HasMember(comefrom[t]);
      }
    }

    /** One round of the do loop: lay the function out again with the bits of the last round. */
    method Pass() returns (loop: nat)
      requires Ready()
      modifies this`pc, this`isShort, this`isize, this`mark, this`comefrom, this`p
      ensures Ready() && LongBits() == Flip(prog, old(LongBits()))
      ensures var lay := Layout(prog, old(LongBits()));
              && PcsPlaced(prog, pc, isize, mark, lay, |prog|)
              && Slots(prog, p, lay, |prog|, [])
      ensures loop == 0 <==> isize == old(isize) && isShort == old(isShort)
    {
      ghost var bits, sizes0, shorts0 := LongBits(), isize, isShort;
      loop := 0;
      p := [];
      PassStart(bits);
      hide Emitted, Layout, Slots, PcsPlaced, Flip, WellFormed, LongBits, Ready;
      var n := 0;
      while n < |prog|
        invariant n <= |prog| && Shape() && Emitted(bits, n, n, TodoAt(comefrom, n))
        invariant |bits| == |prog| == |sizes0| == |shorts0|
        invariant isize[n..] == sizes0[n..]
        invariant OnlyCleared(shorts0, isShort)
        invariant loop == 0 <==> isize == sizes0 && isShort == shorts0
      {
        ghost var shorts, sizes := isShort, isize;
        var changes := Step(n, bits);
        FlipSticks(shorts0, shorts, isShort);
        ResizeSticks(sizes0, sizes, n, isize[n]);
        loop := loop + changes;
        n := n + 1;
      }
      PassEnd(bits);
    }

    /** Instruction i stands right behind the one before it, and where no valid layout could put it
        earlier; its bytes are its own. As a branch it has its short or its long opcode and decodes to the
        distance to its target, or to itself without one, which the short form can hold. */
    ghost predicate Resolved(i: nat)
      reads this
      requires WellFormed(prog) && Shape() && i < |prog|
    {
      && 0 <= pc[i] <= pc[i] + mark[i] <= |p|
      && (forall v :: Valid(prog, v) ==> pc[i] <= Pc(prog, v, i))
      && (prog[i].Other? ==> p[pc[i]..pc[i] + mark[i]] == prog[i].code)
      && pc[i] == (if i == 0 then 0 else pc[i - 1] + mark[i - 1])
      && (i == |prog| - 1 ==> pc[i] + mark[i] == |p|)
      && (prog[i].Jump? ==>
            var t := if prog[i].target.Some? then prog[i].target.value else i;
            var d := pc[t] - (pc[i] + mark[i]);
            && mark[i] in {2, 5, 6} && BranchCode(prog[i], p[pc[i]..pc[i] + mark[i]], d)
            && (mark[i] == 2 ==> p[pc[i]] == prog[i].short)
            && (mark[i] == 5 ==> !prog[i].cond && p[pc[i]] == prog[i].long)
            && (mark[i] == 6 ==> prog[i].cond && p[pc[i]] == 0x0f && p[pc[i] + 1] == prog[i].long)
            && (mark[i] == 2 ==> -128 <= d <= 127)
            && (|p| < 0x8000_0000 ==> DecodeDisp(p[pc[i]..pc[i] + mark[i]]) == d))
    }

    lemma ResolvedAll(k: nat)
      requires WellFormed(prog) && Shape() && k > 0 && Settled(prog, k)
      requires var lay := Layout(prog, BitsAfter(prog, k - 1));
               PcsPlaced(prog, pc, isize, mark, lay, |prog|) && Slots(prog, p, lay, |prog|, [])
      ensures forall i :: 0 <= i < |prog| ==> Resolved(i)
    {
      hide Layout, BitsAfter, Settled, PcsPlaced, Slots, DecodeDisp, Valid, Pc;
      forall i | 0 <= i < |prog| ensures Resolved(i) {
        FinalBytes(prog, k, p, pc, isize, mark, i);
        FinalPlace(prog, k, pc, isize, mark, i);
        if prog[i].Jump? {
          var code := p[pc[i]..pc[i] + mark[i]];
          assert |code| == mark[i] && code[0] == p[pc[i]] && code[1] == p[pc[i] + 1];
        }
      }
    }

    /** span8: rounds until nothing changes. The twenty-first round is one too many. */
    method Span() returns (ok: bool, passes: nat)
      requires WellFormed(prog) && Shape() && p == [] && size == 0
      requires forall i :: 0 <= i < |prog| ==> !isShort[i] && !isBackward[i] && isize[i] == 0 && comefrom[i] == []
      modifies this
      ensures |prog| < 2 ==> ok && passes == 0 && p == [] && size == 0
      ensures Shape()
      ensures |prog| >= 2 ==>
        && passes > 0
        && (forall k :: 1 <= k < passes ==> !Settled(prog, k))
        && (ok <==> Settled(prog, passes) && passes <= 20)
        && (!ok ==> passes == 21)
      ensures |prog| >= 2 && ok ==>
        var lay := Layout(prog, BitsAfter(prog, passes - 1));
        && PcsPlaced(prog, pc, isize, mark, lay, |prog|)
        && Slots(prog, p, lay, |prog|, [])
        && |p| <= size < |p| + 16 && size % 16 == 0
      ensures passes <= CountForward(prog, |prog|) + 2
      ensures CountForward(prog, |prog|) <= 18 ==> ok
      ensures |prog| >= 2 && ok ==> forall i :: 0 <= i < |prog| ==> Resolved(i)
    {
      hide Slots, PcsPlaced, Layout, SizesIn, BitsAfter, Flip, Resolved, CountForward;
      ok, passes := true, 0;
      if |prog| < 2 {
        return;
      }
      MarkBackward();
      var loop := 1;
      ghost var bound := SettlesWithinBound(prog);
      while loop != 0
        invariant Ready() && passes <= 20 && (loop != 0 ==> passes < bound) && passes <= bound
        invariant LongBits() == BitsAfter(prog, passes) && isize == SizesIn(prog, passes)
        invariant forall k :: 1 <= k < passes ==> !Settled(prog, k)
        invariant passes == 0 ==> loop != 0
        invariant passes > 0 ==> (loop == 0 <==> Settled(prog, passes))
        invariant passes > 0 ==>
          var lay := Layout(prog, BitsAfter(prog, passes - 1));
          && PcsPlaced(prog, pc, isize, mark, lay, |prog|)
          && Slots(prog, p, lay, |prog|, [])
        decreases 20 - passes
      {
        ghost var bits, shorts, sizes := LongBits(), isShort, isize;
        loop := Pass();
        passes := passes + 1;
        assert isShort == shorts <==> LongBits() == bits by { SameBits(shorts, bits); }
        SizesPlaced(prog, passes - 1, pc, isize, mark);
        NextBits(prog, passes - 1);
        if passes > 20 {
          return false, passes;
        }
      }
      var c := |p|;
      size := c + (-c) % 16;
      ResolvedAll(passes);
    }

    lemma SameBits(shorts: seq<bool>, bits: seq<bool>)
      requires Shape() && |shorts| == |prog| == |bits| && forall i :: 0 <= i < |prog| ==> bits[i] == !shorts[i]
      ensures isShort == shorts <==> LongBits() == bits
    {
      if LongBits() == bits {
        forall i | 0 <= i < |prog| ensures isShort[i] == shorts[i] { assert LongBits()[i] == bits[i]; }
      }
    }
  }

  /** Up to 18 forward branches span8 always succeeds. With 19 or more it can give up although the
      function has a valid layout. */
  method SpanCascade(f: nat) returns (ok: bool, ghost lay: seq<bool>)
    ensures ok <==> f <= 18
    ensures WellFormed(Cascade(f)) && CountForward(Cascade(f), 3 * f + 2) == f && Valid(Cascade(f), lay)
  {
    hide Settled, Cascade, CountForward, BitsAfter, Layout;
    BoundIsTight(f);
    var asm := new Assembler(Cascade(f));
    var passes;
    ok, passes := asm.Span();
    SettledIsValid(Cascade(f), f + 2);
    lay := Layout(Cascade(f), BitsAfter(Cascade(f), f + 1));
  }
}

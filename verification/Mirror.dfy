/**
  Class Cpu names the registers the firmware uses as fields and keeps its live stack bytes apart; in the core they
  are cells of one array. When the two agree, and what keeps them agreeing.
*/
module Mirror {
  import opened Bits
  import opened Ramsfr
  import CallStack
  import Cpu

  /** The cells of the registers the firmware routines use, in the register bank PSW selects after reset. */
  const BANKED: seq<byte> := [0, 1, 2, 5, 6, 7]

  predicate IsRegister(cell: byte) {
    cell in BANKED || cell == ACC || cell == BREG || cell == PSW || cell == 0x82 || cell == 0x83
  }

  function Field(v: Cpu.View, cell: byte): byte
    requires IsRegister(cell)
  {
    if cell == ACC then v.acc else if cell == BREG then v.b else if cell == PSW then v.psw
    else if cell == 0x82 then v.dpl else if cell == 0x83 then v.dph
    else if cell == 0 then v.r0 else if cell == 1 then v.r1 else if cell == 2 then v.r2
    else if cell == 5 then v.r5 else if cell == 6 then v.r6 else v.r7
  }

  function WithField(v: Cpu.View, cell: byte, x: byte): Cpu.View
    requires IsRegister(cell)
  {
    if cell == ACC then v.(acc := x) else if cell == BREG then v.(b := x) else if cell == PSW then v.(psw := x)
    else if cell == 0x82 then v.(dpl := x) else if cell == 0x83 then v.(dph := x)
    else if cell == 0 then v.(r0 := x) else if cell == 1 then v.(r1 := x) else if cell == 2 then v.(r2 := x)
    else if cell == 5 then v.(r5 := x) else if cell == 6 then v.(r6 := x) else v.(r7 := x)
  }

  ghost predicate Agree(v: Cpu.View, ram: Ram) {
    forall cell: byte :: IsRegister(cell) ==> ram[cell] == Field(v, cell)
  }

  lemma SameFields(v: Cpu.View, stack: seq<byte>, ram: Ram)
    ensures Agree(v.(stack := stack), ram) <==> Agree(v, ram)
  {
    assert forall cell: byte :: IsRegister(cell) ==> Field(v.(stack := stack), cell) == Field(v, cell);
  }

  /** Every register is in its cell, and SP and IRAM represent the stack. */
  ghost predicate Mirrors(v: Cpu.View, ram: Ram, base: byte) {
    Agree(v, ram) && CallStack.Refines(ram, v.stack, base)
  }

  /** Which register is which cell. */
  lemma CellsNamed(v: Cpu.View, ram: Ram, base: byte)
    requires Mirrors(v, ram, base)
    ensures ram[0xe0] == v.acc && ram[0xf0] == v.b && ram[0xd0] == v.psw && ram[0x82] == v.dpl && ram[0x83] == v.dph
    ensures ram[0] == v.r0 && ram[1] == v.r1 && ram[2] == v.r2 && ram[5] == v.r5 && ram[6] == v.r6 && ram[7] == v.r7
  {
    assert IsRegister(0xe0) && IsRegister(0xf0) && IsRegister(0xd0) && IsRegister(0x82) && IsRegister(0x83);
    assert IsRegister(0) && IsRegister(1) && IsRegister(2) && IsRegister(5) && IsRegister(6) && IsRegister(7);
  }

  /**
    A push on the core is a push on Cpu's stack exactly when it does not land on a register: the next cell is none of
    them, or already holds the byte.
  */
  lemma PushMirrored(v: Cpu.View, ram: Ram, base: byte, x: byte)
    requires Mirrors(v, ram, base) && |v.stack| < 0x100
    ensures Mirrors(v.(stack := v.stack + [x]), CallStack.Push(ram, x), base) <==>
            CallStack.MovedSp(ram, 1) in BANKED ==> ram[CallStack.MovedSp(ram, 1)] == x
  {
    CallStack.PushRefines(ram, v.stack, base, x);
    var v', ram', sp := v.(stack := v.stack + [x]), CallStack.Push(ram, x), CallStack.MovedSp(ram, 1);
    assert forall cell :: IsRegister(cell) ==> Field(v', cell) == Field(v, cell);
    if sp in BANKED {
      assert IsRegister(sp) && ram'[sp] == x;
    }
    forall cell: byte | IsRegister(cell) && cell != sp
      ensures ram'[cell] == ram[cell]
    {
    }
  }

  /**
    So with the stack based above the bank, as at reset (7) or where hello.s:460 puts it (0xb0), no push short of the
    wrap disturbs a register.
  */
  lemma PushAboveBank(v: Cpu.View, ram: Ram, base: byte, x: byte)
    requires Mirrors(v, ram, base) && base >= 7 && base + |v.stack| < 0xff
    ensures Mirrors(v.(stack := v.stack + [x]), CallStack.Push(ram, x), base)
  {
    PushMirrored(v, ram, base, x);
  }

  /** A pop on the core is a pop on Cpu's stack, always. */
  lemma PopMirrored(v: Cpu.View, ram: Ram, base: byte)
    requires Mirrors(v, ram, base) && v.stack != []
    ensures CallStack.Top(ram) == v.stack[|v.stack| - 1]
    ensures Mirrors(v.(stack := v.stack[..|v.stack| - 1]), CallStack.Drop(ram), base)
  {
    CallStack.DropRefines(ram, v.stack, base);
  }

  /** Storing in a register's cell is storing in the field, unless the cell is a live stack byte. */
  lemma StoreMirrored(v: Cpu.View, ram: Ram, base: byte, cell: byte, x: byte)
    requires Mirrors(v, ram, base) && IsRegister(cell)
    requires forall k :: 0 <= k < |v.stack| ==> CallStack.LiveCell(base, k) != cell
    ensures Mirrors(WithField(v, cell, x), ram[cell := x], base)
  {
    forall other: byte | IsRegister(other)
      ensures ram[cell := x][other] == Field(WithField(v, cell, x), other)
    {
      OneField(v, cell, x, other);
    }
  }

  lemma OneField(v: Cpu.View, cell: byte, x: byte, other: byte)
    requires IsRegister(cell) && IsRegister(other)
    ensures Field(WithField(v, cell, x), other) == if other == cell then x else Field(v, other)
    ensures WithField(v, cell, x).stack == v.stack
  {
  }

  // ----- whole routines -----

  /** What a routine does to the stack, and to registers in between. */
  datatype Step =
    | Registers(v: Cpu.View) // any instructions that leave the stack alone, ending with v's registers
    | Push(cell: byte)
    | Pop(cell: byte)

  predicate Named(s: Step) {
    s.Registers? || IsRegister(s.cell)
  }

  /** The step as class Cpu sees it. */
  function ExecView(s: Step, v: Cpu.View): Cpu.View
    requires Named(s)
  {
    match s
    case Registers(w) => w.(stack := v.stack)
    case Push(cell) => v.(stack := v.stack + [Field(v, cell)])
    case Pop(cell) =>
      if v.stack == [] then v
      else WithField(v, cell, v.stack[|v.stack| - 1]).(stack := v.stack[..|v.stack| - 1])
  }

  /** Every register's cell set to its field. */
  function Stored(ram: Ram, v: Cpu.View): Ram {
    seq(RAM_SIZE, i requires 0 <= i < RAM_SIZE => if i < 0x100 && IsRegister(i) then Field(v, i) else ram[i])
  }

  /** The step on the core's memory, stack instructions as CallStack has them. */
  function ExecRam(s: Step, ram: Ram): Ram {
    match s
    case Registers(w) => Stored(ram, w)
    case Push(cell) => CallStack.Exec(CallStack.PushDirect(cell, 0, false), CallStack.State(ram, 0)).ram
    case Pop(cell) => CallStack.Exec(CallStack.PopDirect(cell, 0, false), CallStack.State(ram, 0)).ram
  }

  function RunView(steps: seq<Step>, v: Cpu.View): Cpu.View
    requires forall s :: s in steps ==> Named(s)
  {
    if steps == [] then v else ExecView(steps[|steps| - 1], RunView(steps[..|steps| - 1], v))
  }

  function RunRam(steps: seq<Step>, ram: Ram): Ram {
    if steps == [] then ram else ExecRam(steps[|steps| - 1], RunRam(steps[..|steps| - 1], ram))
  }

  predicate StepFits(s: Step, v: Cpu.View, limit: nat) {
    match s
    case Registers(_) => true
    case Push(_) => |v.stack| < limit
    case Pop(_) => v.stack != []
  }

  /** The stack stays within `limit` bytes and no pop finds it empty. */
  predicate Fits(steps: seq<Step>, v: Cpu.View, limit: nat)
    requires forall s :: s in steps ==> Named(s)
  {
    steps == [] ||
    (var before := steps[..|steps| - 1];
     Fits(before, v, limit) && StepFits(steps[|steps| - 1], RunView(before, v), limit))
  }

  lemma Untrapped(cell: byte)
    requires IsRegister(cell)
    ensures !Trapped(cell) && cell !in {SP, SBUF, PCON}
  {
  }

  /** No live cell of a stack between the bank and SP's wrap is a register. */
  lemma AboveBank(base: byte, n: nat, k: nat)
    requires base >= 7 && base + n <= 0xff && k < n
    ensures var c := CallStack.LiveCell(base, k); c >= 0x100 || !IsRegister(c)
  {
  }

  lemma StoredAgrees(ram: Ram, v: Cpu.View)
    ensures Agree(v, Stored(ram, v)) && Stored(ram, v)[SP] == ram[SP]
  {
  }

  lemma SegmentMirrored(v: Cpu.View, w: Cpu.View, ram: Ram, base: byte)
    requires Mirrors(v, ram, base) && base >= 7 && base + |v.stack| <= 0xff
    ensures Mirrors(w.(stack := v.stack), Stored(ram, w), base)
  {
    StoredAgrees(ram, w);
    SameFields(w, v.stack, Stored(ram, w));
    forall k | 0 <= k < |v.stack|
      ensures Stored(ram, w)[CallStack.LiveCell(base, k)] == v.stack[k]
    {
      AboveBank(base, |v.stack|, k);
    }
  }

  lemma PopIntoMirrored(v: Cpu.View, ram: Ram, base: byte, cell: byte)
    requires Mirrors(v, ram, base) && base >= 7 && base + |v.stack| <= 0xff && v.stack != [] && IsRegister(cell)
    ensures Mirrors(ExecView(Pop(cell), v), ExecRam(Pop(cell), ram), base)
  {
    PopMirrored(v, ram, base);
    var n := |v.stack| - 1;
    forall k | 0 <= k < n
      ensures CallStack.LiveCell(base, k) != cell
    {
      AboveBank(base, n, k);
    }
    StoreMirrored(v.(stack := v.stack[..n]), CallStack.Drop(ram), base, cell, v.stack[n]);
    WithFieldStack(v, cell, v.stack[n], v.stack[..n]);
    PopRam(cell, ram);
  }

  /** POP of a register's cell, hooks and all else aside. */
  lemma PopRam(cell: byte, ram: Ram)
    requires IsRegister(cell)
    ensures ExecRam(Pop(cell), ram) == CallStack.Drop(ram)[cell := CallStack.Top(ram)]
  {
    Untrapped(cell);
  }

  lemma PushRam(cell: byte, ram: Ram)
    requires IsRegister(cell)
    ensures ExecRam(Push(cell), ram) == CallStack.Push(ram, ram[cell])
  {
    Untrapped(cell);
  }

  lemma WithFieldStack(v: Cpu.View, cell: byte, x: byte, stack: seq<byte>)
    requires IsRegister(cell)
    ensures WithField(v, cell, x).(stack := stack) == WithField(v.(stack := stack), cell, x)
  {
  }

  lemma StepMirrored(s: Step, v: Cpu.View, ram: Ram, base: byte, limit: nat)
    requires Mirrors(v, ram, base) && base >= 7 && |v.stack| <= limit && base + limit <= 0xff
    requires Named(s) && StepFits(s, v, limit)
    ensures Mirrors(ExecView(s, v), ExecRam(s, ram), base) && |ExecView(s, v).stack| <= limit
  {
    match s
    case Registers(w) => SegmentMirrored(v, w, ram, base);
    case Push(cell) =>
      PushRam(cell, ram);
      PushAboveBank(v, ram, base, Field(v, cell));
    case Pop(cell) =>
      PopIntoMirrored(v, ram, base, cell);
      WithFieldStack(v, cell, v.stack[|v.stack| - 1], v.stack[..|v.stack| - 1]);
  }

  /**
    A routine of any length that keeps its stack between the register bank and SP's wrap does on the core's one array
    what class Cpu says it does on named registers and a stack apart.
  */
  lemma {:induction false} RunMirrored(steps: seq<Step>, v: Cpu.View, ram: Ram, base: byte, limit: nat)
    requires Mirrors(v, ram, base) && base >= 7 && |v.stack| <= limit && base + limit <= 0xff
    requires (forall s :: s in steps ==> Named(s)) && Fits(steps, v, limit)
    ensures Mirrors(RunView(steps, v), RunRam(steps, ram), base) && |RunView(steps, v).stack| <= limit
  {
    if steps != [] {
      var before := steps[..|steps| - 1];
      RunMirrored(before, v, ram, base, limit);
      StepMirrored(steps[|steps| - 1], RunView(before, v), RunRam(before, ram), base, limit);
    }
  }

  /** One step more at the end of a trace. */
  lemma Snoc(steps: seq<Step>, s: Step, v: Cpu.View, limit: nat)
    requires (forall t :: t in steps ==> Named(t)) && Named(s)
    requires Fits(steps, v, limit) && StepFits(s, RunView(steps, v), limit)
    ensures forall t :: t in steps + [s] ==> Named(t)
    ensures RunView(steps + [s], v) == ExecView(s, RunView(steps, v)) && Fits(steps + [s], v, limit)
  {
    assert (steps + [s])[..|steps|] == steps;
  }

  /** A trace of class Cpu from v to w: its steps lead there, within the limit. */
  ghost predicate Traces(steps: seq<Step>, v: Cpu.View, w: Cpu.View, limit: nat) {
    (forall s :: s in steps ==> Named(s)) && Fits(steps, v, limit) && RunView(steps, v) == w
  }

  lemma SnocTraces(steps: seq<Step>, s: Step, v: Cpu.View, w: Cpu.View, limit: nat)
    requires Traces(steps, v, w, limit) && Named(s) && StepFits(s, w, limit)
    ensures Traces(steps + [s], v, ExecView(s, w), limit)
  {
    Snoc(steps, s, v, limit);
  }

  lemma {:induction false} ConcatTraces(x: seq<Step>, y: seq<Step>, v: Cpu.View, w: Cpu.View, u: Cpu.View, limit: nat)
    requires Traces(x, v, w, limit) && Traces(y, w, u, limit)
    ensures Traces(x + y, v, u, limit)
    decreases |y|
  {
    if y == [] {
      assert x + y == x;
    } else {
      var before, last := y[..|y| - 1], y[|y| - 1];
      ConcatTraces(x, before, v, w, RunView(before, w), limit);
      SnocTraces(x + before, last, v, RunView(before, w), limit);
      assert x + before + [last] == x + y;
    }
  }

  /** Instructions that leave the stack alone are one step. */
  lemma SegmentTraces(v: Cpu.View, w: Cpu.View, limit: nat)
    requires w.stack == v.stack
    ensures Traces([Registers(w)], v, w, limit)
  {
    SnocTraces([], Registers(w), v, v, limit);
    assert [] + [Registers(w)] == [Registers(w)];
  }

  /** A traced part with such instructions before and after. */
  lemma AroundTraces(inner: seq<Step>, v: Cpu.View, before: Cpu.View, after: Cpu.View, w: Cpu.View, limit: nat)
    requires before.stack == v.stack && Traces(inner, before, after, limit) && w.stack == after.stack
    ensures Traces([Registers(before)] + inner + [Registers(w)], v, w, limit)
  {
    SegmentTraces(v, before, limit);
    ConcatTraces([Registers(before)], inner, v, before, after, limit);
    SnocTraces([Registers(before)] + inner, Registers(w), v, after, limit);
  }

  /** PUSH B, instructions that leave the stack alone, POP B, with such instructions before and after. */
  lemma PushPopTraces(v: Cpu.View, before: Cpu.View, between: Cpu.View, w: Cpu.View)
    requires before.stack == v.stack == w.stack && between.stack == v.stack + [before.b]
    ensures Traces([Registers(before), Push(BREG), Registers(between), Pop(BREG), Registers(w)], v, w, |v.stack| + 1)
  {
    var limit := |v.stack| + 1;
    SegmentTraces(v, before, limit);
    SnocTraces([Registers(before)], Push(BREG), v, before, limit);
    var pushed := before.(stack := v.stack + [before.b]);
    var t := [Registers(before), Push(BREG)];
    assert [Registers(before)] + [Push(BREG)] == t;
    SnocTraces(t, Registers(between), v, pushed, limit);
    var t' := t + [Registers(between)];
    SnocTraces(t', Pop(BREG), v, between, limit);
    var popped := ExecView(Pop(BREG), between);
    assert popped.stack == v.stack;
    SnocTraces(t' + [Pop(BREG)], Registers(w), v, popped, limit);
    assert t' + [Pop(BREG)] + [Registers(w)] ==
           [Registers(before), Push(BREG), Registers(between), Pop(BREG), Registers(w)];
  }
}

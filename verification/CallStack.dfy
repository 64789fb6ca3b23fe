/**
  The call stack: SP and IRAM bytes (core.c PUSH/POP, the call, return, push and pop bodies of ops.txt, and
  interrupt entry) against a plain sequence of bytes.
*/
module CallStack {
  import opened Bits
  import opened Ramsfr

  /** SP moved by d, wrapping as a uint8_t does. */
  function MovedSp(ram: Ram, d: int): byte {
    var sp: int := ram[SP];
    U8(sp + d)
  }

  /** `writei(++SP, x)` */
  function Push(ram: Ram, x: byte): Ram {
    var sp := MovedSp(ram, 1);
    WriteI(ram[SP := sp], sp, x)
  }

  /** What `readi(SP--)` returns. */
  function Top(ram: Ram): byte {
    ReadI(ram, ram[SP])
  }

  /** What `readi(SP--)` leaves. */
  function Drop(ram: Ram): Ram {
    ram[SP := MovedSp(ram, -1)]
  }

  function PushWord(ram: Ram, x: word): Ram {
    Push(Push(ram, x % 0x100), x / 0x100)
  }

  function WordOf(high: byte, low: byte): word {
    0x100 * high + low
  }

  function TopWord(ram: Ram): word {
    WordOf(Top(ram), Top(Drop(ram)))
  }

  datatype Op =
    | Lcall(target: word)
    | Acall(reladdr: word)
    | Interrupt(vec: word)
    | PushDirect(addr: byte, got: byte, late: bool)
    | PopDirect(addr: byte, left: byte, hook: bool)
    | Return                       // RET and RETI
    | Other(ram: Ram, pc: word)    // any other instruction, listener or hook step, with its effect on memory and pc

  datatype State = State(ram: Ram, pc: word)

  /**
    The byte PUSH finds. A trapped SFR's get routine leaves `got` in its cell. In `writei(++SP, readd(addr))` C leaves
    open whether SP moves before the read, which matters to PUSH of SP alone: `late` says it does.
  */
  function Pushed(ram: Ram, addr: byte, got: byte, late: bool): byte {
    if addr == SP && late then MovedSp(ram, 1) else Got(ram, addr, got)[addr]
  }

  /**
    What POP leaves, where a trapped SFR's put routine leaves `left` in its cell. A write to SBUF also sets TI, and one
    to PCON sets TF2 on a board that hooks it.
  */
  function Popped(ram: Ram, addr: byte, left: byte, hook: bool): Ram {
    var x := Top(ram);
    if addr == SBUF then SetTi(Drop(ram)[SBUF := x])
    else if hook && addr == PCON then SetTf2(Drop(ram)[PCON := x])
    else Drop(ram)[addr := if Trapped(addr) then left else x]
  }

  function Exec(op: Op, s: State): State {
    match op
    case Lcall(target) => State(PushWord(s.ram, U16(s.pc + 3)), target)
    case Acall(reladdr) =>
      var pc := U16(s.pc + 2);
      State(PushWord(s.ram, pc), pc - pc % 0x800 + reladdr % 0x800)
    case Interrupt(vec) => State(PushWord(s.ram, s.pc), vec)
    case PushDirect(addr, got, late) =>
      State(Push(Got(s.ram, addr, got), Pushed(s.ram, addr, got, late)), U16(s.pc + 2))
    case PopDirect(addr, left, hook) => State(Popped(s.ram, addr, left, hook), U16(s.pc + 2))
    case Return => State(Drop(Drop(s.ram)), TopWord(s.ram))
    case Other(ram, pc) => State(ram, pc)
  }

  // A state is its memory and its pc; these spare the callers the other operations.

  lemma PushDirectState(op: Op, s: State, t: State)
    requires op.PushDirect? && t.pc == U16(s.pc + 2)
    requires t.ram == Push(Got(s.ram, op.addr, op.got), Pushed(s.ram, op.addr, op.got, op.late))
    ensures t == Exec(op, s)
  {
  }

  lemma PopDirectState(op: Op, s: State, t: State)
    requires op.PopDirect? && t.ram == Popped(s.ram, op.addr, op.left, op.hook) && t.pc == U16(s.pc + 2)
    ensures t == Exec(op, s)
  {
  }

  lemma LcallState(target: word, s: State, t: State)
    requires t.ram == PushWord(s.ram, U16(s.pc + 3)) && t.pc == target
    ensures t == Exec(Lcall(target), s)
  {
  }

  lemma AcallState(reladdr: word, s: State, t: State)
    requires var next := U16(s.pc + 2); t.ram == PushWord(s.ram, next) && t.pc == next - next % 0x800 + reladdr % 0x800
    ensures t == Exec(Acall(reladdr), s)
  {
  }

  function ExecAll(ops: seq<Op>, s: State): State {
    if ops == [] then s else ExecAll(ops[1..], Exec(ops[0], s))
  }

  // ----- the abstract stack: live bytes, top last -----

  /** The cell that holds the k-th live byte when the empty stack has SP == base. */
  function LiveCell(base: byte, k: nat): nat {
    Cell(U8(base + 1 + k))
  }

  /** SP and IRAM represent the live bytes. */
  ghost predicate Refines(ram: Ram, live: seq<byte>, base: byte) {
    && |live| <= 0x100
    && ram[SP] == U8(base + |live|)
    && forall k :: 0 <= k < |live| ==> ram[LiveCell(base, k)] == live[k]
  }

  function Word(x: word): seq<byte> {
    [x % 0x100, x / 0x100]
  }

  /** `n` bytes less at the top. */
  function Less(live: seq<byte>, n: nat): seq<byte> {
    if n <= |live| then live[..|live| - n] else []
  }

  /** The live bytes an operation leaves; state s supplies what it saves. */
  function NextLive(op: Op, s: State, live: seq<byte>): seq<byte> {
    match op
    case Lcall(_) => live + Word(U16(s.pc + 3))
    case Acall(_) => live + Word(U16(s.pc + 2))
    case Interrupt(_) => live + Word(s.pc)
    case PushDirect(addr, got, late) => live + [Pushed(s.ram, addr, got, late)]
    case PopDirect(_, _, _) => Less(live, 1)
    case Return => Less(live, 2)
    case Other(_, _) => live
  }

  /**
    What the theorems ask of a run: its depth stays within 0 and 256 bytes, and nothing but the stack operations
    writes SP or a live byte. What a RET finds on top, or a POP takes off, is left open.
  */
  ghost predicate Allowed(op: Op, s: State, live: seq<byte>, base: byte) {
    match op
    case Lcall(_) => |live| + 2 <= 0x100
    case Acall(_) => |live| + 2 <= 0x100
    case Interrupt(_) => |live| + 2 <= 0x100
    case PushDirect(_, _, _) => |live| + 1 <= 0x100
    case PopDirect(addr, _, _) => live != [] && addr != SP && forall k :: 0 <= k < |live| - 1 ==> LiveCell(base, k) != addr
    case Return => |live| >= 2
    case Other(ram, _) =>
      && ram[SP] == s.ram[SP]
      && forall k :: 0 <= k < |live| ==> ram[LiveCell(base, k)] == s.ram[LiveCell(base, k)]
  }

  // ----- one byte at a time -----

  lemma PushRefines(ram: Ram, live: seq<byte>, base: byte, x: byte)
    requires Refines(ram, live, base) && |live| < 0x100
    ensures Refines(Push(ram, x), live + [x], base)
  {
    forall k | 0 <= k < |live|
      ensures LiveCell(base, k) != LiveCell(base, |live|)
    {
      if LiveCell(base, k) == LiveCell(base, |live|) {
        CellInjective(U8(base + 1 + k), U8(base + 1 + |live|));
      }
    }
    assert MovedSp(ram, 1) == U8(base + 1 + |live|);
  }

  lemma DropRefines(ram: Ram, live: seq<byte>, base: byte)
    requires Refines(ram, live, base) && live != []
    ensures Top(ram) == live[|live| - 1]
    ensures Refines(Drop(ram), Less(live, 1), base)
  {
    StepBack(base, |live|);
    assert LiveCell(base, |live| - 1) == Cell(ram[SP]);
    forall k | 0 <= k < |live| - 1
      ensures Drop(ram)[LiveCell(base, k)] == live[k]
    {
      assert ram[LiveCell(base, k)] == live[k];
    }
  }

  lemma StepBack(base: byte, n: nat)
    ensures U8(base + n) == U8(base + 1 + (n - 1))
    ensures U8(U8(base + n) - 1) == U8(base + (n - 1))
  {
  }

  /** A push writes SP and one IRAM cell, so no other special function register changes. */
  lemma PushKeepsSfrs(ram: Ram, x: byte, i: nat)
    requires 0x80 <= i < 0x100 && i != SP
    ensures Push(ram, x)[i] == ram[i]
  {
  }

  lemma PushWordRefines(ram: Ram, live: seq<byte>, base: byte, x: word)
    requires Refines(ram, live, base) && |live| + 2 <= 0x100
    ensures Refines(PushWord(ram, x), live + Word(x), base)
  {
    PushRefines(ram, live, base, x % 0x100);
    PushRefines(Push(ram, x % 0x100), live + [x % 0x100], base, x / 0x100);
    assert live + [x % 0x100] + [x / 0x100] == live + Word(x);
  }

  lemma DropWordRefines(ram: Ram, live: seq<byte>, base: byte)
    requires Refines(ram, live, base) && |live| >= 2
    ensures TopWord(ram) == WordOf(live[|live| - 1], live[|live| - 2])
    ensures Refines(Drop(Drop(ram)), Less(live, 2), base)
  {
    DropRefines(ram, live, base);
    DropRefines(Drop(ram), Less(live, 1), base);
    assert Less(Less(live, 1), 1) == Less(live, 2);
  }

  lemma PopDirectRefines(ram: Ram, live: seq<byte>, base: byte, addr: byte, left: byte, hook: bool)
    requires Refines(ram, live, base) && live != [] && addr != SP
    requires forall k :: 0 <= k < |live| - 1 ==> LiveCell(base, k) != addr
    ensures Refines(Popped(ram, addr, left, hook), Less(live, 1), base)
  {
    DropRefines(ram, live, base);
  }

  /**
    Every operation is its step on the live bytes. A return resumes at the address the two top bytes spell, whatever
    pushed them; a pop stores the top byte, unless a hook stores something else.
  */
  lemma StepRefines(op: Op, s: State, live: seq<byte>, base: byte)
    requires Refines(s.ram, live, base) && Allowed(op, s, live, base)
    ensures Refines(Exec(op, s).ram, NextLive(op, s, live), base)
    ensures op.Return? ==> Exec(op, s).pc == WordOf(live[|live| - 1], live[|live| - 2])
    ensures op.PopDirect? && (Trapped(op.addr) && op.addr != SBUF ==> op.left == live[|live| - 1]) ==>
            Exec(op, s).ram[op.addr] == live[|live| - 1]
    ensures op.Lcall? ==> Exec(op, s).pc == op.target
    ensures op.Acall? ==> Exec(op, s).pc / 0x800 == U16(s.pc + 2) / 0x800 && Exec(op, s).pc % 0x800 == op.reladdr % 0x800
    ensures op.Interrupt? ==> Exec(op, s).pc == op.vec
    ensures op.PushDirect? || op.PopDirect? ==> Exec(op, s).pc == U16(s.pc + 2)
  {
    if op.Acall? {
      InPage(U16(s.pc + 2), op.reladdr);
    }
    match op
    case Lcall(_) => PushWordRefines(s.ram, live, base, U16(s.pc + 3));
    case Acall(_) => PushWordRefines(s.ram, live, base, U16(s.pc + 2));
    case Interrupt(_) => PushWordRefines(s.ram, live, base, s.pc);
    case PushDirect(addr, got, late) =>
      assert Refines(Got(s.ram, addr, got), live, base);
      PushRefines(Got(s.ram, addr, got), live, base, Pushed(s.ram, addr, got, late));
    case PopDirect(addr, left, hook) =>
      DropRefines(s.ram, live, base);
      PopDirectRefines(s.ram, live, base, addr, left, hook);
    case Return => DropWordRefines(s.ram, live, base);
    case Other(_, _) =>
  }

  lemma InPage(next: word, reladdr: word)
    ensures var pc := next - next % 0x800 + reladdr % 0x800;
      pc / 0x800 == next / 0x800 && pc % 0x800 == reladdr % 0x800
  {
    DivModUnique(next - next % 0x800 + reladdr % 0x800, 0x800, next / 0x800, reladdr % 0x800);
  }

  /**
    The two bytes a call or interrupt entry saves: SP moves up by two, its cell holds the high byte of the address the
    return resumes at, and the cell below the low byte.
  */
  lemma CallSaves(op: Op, s: State)
    requires IsCall(op)
    ensures var t, at := Exec(op, s), if op.Lcall? then U16(s.pc + 3) else if op.Acall? then U16(s.pc + 2) else s.pc;
      var sp: int := s.ram[SP];
      && t.ram[SP] == U8(sp + 2)
      && t.ram[Cell(t.ram[SP])] == at / 0x100
      && t.ram[Cell(U8(sp + 1))] == at % 0x100
  {
    var sp: int := s.ram[SP];
    assert U8(U8(sp + 1) + 1) == U8(sp + 2) != U8(sp + 1);
    if Cell(U8(sp + 1)) == Cell(U8(sp + 2)) {
      CellInjective(U8(sp + 1), U8(sp + 2));
    }
  }

  /**
    PUSH saves the byte of an untrapped cell as it is, and what the read hook leaves of a trapped one; PUSH of SP saves
    SP from before or after it moves.
  */
  lemma PushSaves(op: Op, s: State)
    requires op.PushDirect?
    ensures var t, sp: int := Exec(op, s), s.ram[SP];
      && t.ram[SP] == U8(sp + 1)
      && t.ram[Cell(t.ram[SP])] ==
         if op.addr == SP && op.late then U8(sp + 1) else if Trapped(op.addr) then op.got else s.ram[op.addr]
  {
  }

  // ----- whole runs -----

  ghost predicate AllowedRun(ops: seq<Op>, s: State, live: seq<byte>, base: byte) {
    ops == [] ||
    (Allowed(ops[0], s, live, base) && AllowedRun(ops[1..], Exec(ops[0], s), NextLive(ops[0], s, live), base))
  }

  function LiveAfter(ops: seq<Op>, s: State, live: seq<byte>): seq<byte> {
    if ops == [] then live else LiveAfter(ops[1..], Exec(ops[0], s), NextLive(ops[0], s, live))
  }

  /** Every run within 256 bytes keeps SP and IRAM representing the live bytes. */
  lemma {:induction false} RunRefines(ops: seq<Op>, s: State, live: seq<byte>, base: byte)
    requires Refines(s.ram, live, base) && AllowedRun(ops, s, live, base)
    ensures Refines(ExecAll(ops, s).ram, LiveAfter(ops, s, live), base)
  {
    if ops != [] {
      StepRefines(ops[0], s, live, base);
      RunRefines(ops[1..], Exec(ops[0], s), NextLive(ops[0], s, live), base);
    }
  }

  /** The run never removes any of the lowest `floor` bytes. */
  predicate StaysAbove(ops: seq<Op>, s: State, live: seq<byte>, floor: nat) {
    |live| >= floor && (ops == [] || StaysAbove(ops[1..], Exec(ops[0], s), NextLive(ops[0], s, live), floor))
  }

  lemma {:induction false} FloorUntouched(ops: seq<Op>, s: State, live: seq<byte>, floor: nat)
    requires StaysAbove(ops, s, live, floor)
    ensures |LiveAfter(ops, s, live)| >= floor && LiveAfter(ops, s, live)[..floor] == live[..floor]
  {
    if ops != [] {
      FloorUntouched(ops[1..], Exec(ops[0], s), NextLive(ops[0], s, live), floor);
    }
  }

  predicate IsCall(op: Op) {
    op.Lcall? || op.Acall? || op.Interrupt?
  }

  function ResumeAddress(op: Op, pc: word): word
    requires IsCall(op)
  {
    match op
    case Lcall(_) => U16(pc + 3)
    case Acall(_) => U16(pc + 2)
    case Interrupt(_) => pc
  }

  /**
    Main theorem. Take a call or interrupt entry, then any run that leaves the depth as it found it without ever
    popping the saved address, then RET or RETI: execution resumes where the call left off, SP is what it was, and
    every byte that was live is still live and unchanged. The run may return to addresses it pushed as data, or pop
    its own callees' return addresses.
  */
  lemma ReturnMatchesCall(call: Op, body: seq<Op>, s: State, live: seq<byte>, base: byte)
    requires Refines(s.ram, live, base)
    requires IsCall(call) && Allowed(call, s, live, base)
    requires var s1 := Exec(call, s); var l1 := NextLive(call, s, live);
      && AllowedRun(body, s1, l1, base)
      && StaysAbove(body, s1, l1, |live| + 2)
      && |LiveAfter(body, s1, l1)| == |live| + 2
    ensures var end := Exec(Return, ExecAll(body, Exec(call, s)));
      && end.pc == ResumeAddress(call, s.pc)
      && (call.Lcall? ==> end.pc == U16(s.pc + 3))
      && (call.Acall? ==> end.pc == U16(s.pc + 2))
      && (call.Interrupt? ==> end.pc == s.pc)
      && end.ram[SP] == s.ram[SP]
      && Refines(end.ram, live, base)
      && forall k :: 0 <= k < |live| ==> end.ram[LiveCell(base, k)] == s.ram[LiveCell(base, k)]
  {
    var s1, l1 := Exec(call, s), NextLive(call, s, live);
    StepRefines(call, s, live, base);
    CallBytes(call, s, live);
    RunRefines(body, s1, l1, base);
    FloorUntouched(body, s1, l1, |live| + 2);
    var l2 := LiveAfter(body, s1, l1);
    assert l2 == l2[..|live| + 2] == l1[..|live| + 2] == l1;
    ReturnResumes(ExecAll(body, s1), live, ResumeAddress(call, s.pc), base);
    SameRepresentation(s.ram, Exec(Return, ExecAll(body, s1)).ram, live, base);
  }

  /** With a saved address on top, a return resumes there and takes it off. */
  lemma ReturnResumes(s: State, live: seq<byte>, saved: word, base: byte)
    requires Refines(s.ram, live + Word(saved), base)
    ensures Exec(Return, s).pc == saved && Refines(Exec(Return, s).ram, live, base)
  {
    DropWordRefines(s.ram, live + Word(saved), base);
    assert Less(live + Word(saved), 2) == live;
  }

  lemma CallBytes(call: Op, s: State, live: seq<byte>)
    requires IsCall(call)
    ensures NextLive(call, s, live) == live + Word(ResumeAddress(call, s.pc))
  {
  }

  lemma SameRepresentation(ram: Ram, ram': Ram, live: seq<byte>, base: byte)
    requires Refines(ram, live, base) && Refines(ram', live, base)
    ensures ram'[SP] == ram[SP]
    ensures forall k :: 0 <= k < |live| ==> ram'[LiveCell(base, k)] == ram[LiveCell(base, k)]
  {
  }

  // ----- runs that keep to whole frames -----

  datatype Frame = Resume(pc: word) | Data(x: byte)

  function Bytes(f: Frame): seq<byte> {
    match f
    case Resume(pc) => Word(pc)
    case Data(x) => [x]
  }

  function Flat(frames: seq<Frame>): seq<byte> {
    if frames == [] then [] else Flat(frames[..|frames| - 1]) + Bytes(frames[|frames| - 1])
  }

  /** Returns meet saved addresses, and pops meet pushed bytes. */
  predicate KeepsFrames(op: Op, frames: seq<Frame>) {
    && (op.Return? ==> frames != [] && frames[|frames| - 1].Resume?)
    && (op.PopDirect? ==> frames != [] && frames[|frames| - 1].Data?)
  }

  function NextFrames(op: Op, s: State, frames: seq<Frame>): seq<Frame>
    requires KeepsFrames(op, frames)
  {
    match op
    case Lcall(_) => frames + [Resume(U16(s.pc + 3))]
    case Acall(_) => frames + [Resume(U16(s.pc + 2))]
    case Interrupt(_) => frames + [Resume(s.pc)]
    case PushDirect(addr, got, late) => frames + [Data(Pushed(s.ram, addr, got, late))]
    case PopDirect(_, _, _) => frames[..|frames| - 1]
    case Return => frames[..|frames| - 1]
    case Other(_, _) => frames
  }

  /** Where a run keeps to frames, its live bytes are its frames laid end to end, and a return resumes at its frame. */
  lemma FrameStep(op: Op, s: State, frames: seq<Frame>, base: byte)
    requires Refines(s.ram, Flat(frames), base) && Allowed(op, s, Flat(frames), base) && KeepsFrames(op, frames)
    ensures NextLive(op, s, Flat(frames)) == Flat(NextFrames(op, s, frames))
    ensures Refines(Exec(op, s).ram, Flat(NextFrames(op, s, frames)), base)
    ensures op.Return? ==> Exec(op, s).pc == frames[|frames| - 1].pc
  {
    FlatNext(op, s, frames);
    StepRefines(op, s, Flat(frames), base);
    if op.Return? {
      TopFrame(frames);
    }
  }

  lemma FlatAppend(frames: seq<Frame>, f: Frame)
    ensures Flat(frames + [f]) == Flat(frames) + Bytes(f)
  {
    assert (frames + [f])[..|frames|] == frames;
  }

  lemma FlatDrop(frames: seq<Frame>)
    requires frames != []
    ensures Flat(frames[..|frames| - 1]) == Less(Flat(frames), |Bytes(frames[|frames| - 1])|)
  {
  }

  /** The two top bytes spell the address on top. */
  lemma TopFrame(frames: seq<Frame>)
    requires frames != [] && frames[|frames| - 1].Resume?
    ensures var live := Flat(frames);
      |live| >= 2 && WordOf(live[|live| - 1], live[|live| - 2]) == frames[|frames| - 1].pc
  {
    var below, pc := Flat(frames[..|frames| - 1]), frames[|frames| - 1].pc;
    assert Flat(frames) == below + Word(pc);
  }

  lemma FlatNext(op: Op, s: State, frames: seq<Frame>)
    requires KeepsFrames(op, frames)
    ensures NextLive(op, s, Flat(frames)) == Flat(NextFrames(op, s, frames))
  {
    match op
    case Lcall(_) => FlatAppend(frames, Resume(U16(s.pc + 3)));
    case Acall(_) => FlatAppend(frames, Resume(U16(s.pc + 2)));
    case Interrupt(_) => FlatAppend(frames, Resume(s.pc));
    case PushDirect(addr, got, late) => FlatAppend(frames, Data(Pushed(s.ram, addr, got, late)));
    case PopDirect(_, _, _) => FlatDrop(frames);
    case Return => FlatDrop(frames);
    case Other(_, _) =>
  }

  ghost predicate FrameRun(ops: seq<Op>, s: State, frames: seq<Frame>, base: byte) {
    ops == [] ||
    (Allowed(ops[0], s, Flat(frames), base) && KeepsFrames(ops[0], frames) &&
     FrameRun(ops[1..], Exec(ops[0], s), NextFrames(ops[0], s, frames), base))
  }

  ghost function FramesAfter(ops: seq<Op>, s: State, frames: seq<Frame>, base: byte): seq<Frame>
    requires FrameRun(ops, s, frames, base)
  {
    if ops == [] then frames else FramesAfter(ops[1..], Exec(ops[0], s), NextFrames(ops[0], s, frames), base)
  }

  lemma {:induction false} FrameRunRefines(ops: seq<Op>, s: State, frames: seq<Frame>, base: byte)
    requires Refines(s.ram, Flat(frames), base) && FrameRun(ops, s, frames, base)
    ensures AllowedRun(ops, s, Flat(frames), base)
    ensures LiveAfter(ops, s, Flat(frames)) == Flat(FramesAfter(ops, s, frames, base))
    ensures Refines(ExecAll(ops, s).ram, Flat(FramesAfter(ops, s, frames, base)), base)
  {
    if ops != [] {
      FrameStep(ops[0], s, frames, base);
      FrameRunRefines(ops[1..], Exec(ops[0], s), NextFrames(ops[0], s, frames), base);
    }
  }
}

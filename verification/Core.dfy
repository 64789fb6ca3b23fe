/**
  The emulator core (core.c) and the stack and bit instructions of ops.txt, updating ramsfr, pc and the interrupt
  state in place. Each method is tied to the functions of Ramsfr, CallStack and Interrupts, where its meaning over
  whole runs is proved.
*/
module Core {
  import Alu
  import opened Bits
  import opened Ramsfr
  import opened Interrupts
  import CS = CallStack

  class Core {
    const ramsfr: array<byte>
    const irqs: array<Irq>
    const ramsfrnotifiers: array<seq<IrqIndex>>
    const pconHook: bool   // the board hooks PCON, as rtl8372.lua does and rtl8367s.lua does not
    var pc: word
    var irqlevel: nat
    var irqpendl0: nat
    var irqpendl1: nat

    ghost predicate Valid()
      reads this
    {
      && ramsfr.Length == RAM_SIZE && irqs.Length == 32 && ramsfrnotifiers.Length == 0x100
      && irqpendl0 < Pow2(32) && irqpendl1 < Pow2(32)
    }

    function Memory(): Ram
      requires ramsfr.Length == RAM_SIZE
      reads ramsfr
    {
      ramsfr[..]
    }

    ghost function Control(): Ctl
      requires Valid()
      reads this, ramsfr, irqs, ramsfrnotifiers
    {
      Ctl(ramsfr[..], irqs[..], ramsfrnotifiers[..], Masks(irqpendl0, irqpendl1))
    }

    ghost function Stack(): CS.State
      requires ramsfr.Length == RAM_SIZE
      reads this, ramsfr
    {
      CS.State(ramsfr[..], pc)
    }

    constructor (pconHook: bool)
      ensures Valid() && fresh(ramsfr) && fresh(irqs) && fresh(ramsfrnotifiers)
      ensures this.pconHook == pconHook && irqlevel == 0 && Blank(Control())
    {
      this.pconHook := pconHook;
      ramsfr := new byte[RAM_SIZE](_ => 0);
      irqs := new Irq[32](_ => FREE);
      ramsfrnotifiers := new seq<IrqIndex>[0x100](_ => []);
      pc, irqlevel, irqpendl0, irqpendl1 := 0, 0, 0, 0;
    }

    // ----- notification -----

    method SfrNotifyIrq(i: IrqIndex)
      requires Valid()
      modifies this`irqpendl0, this`irqpendl1
      ensures Valid()
      ensures Masks(irqpendl0, irqpendl1) == Refresh(Memory(), irqs[i], old(Masks(irqpendl0, irqpendl1)), i)
    {
      var enable := SfrBitval(irqs[i].enable);
      var source := SfrBitval(irqs[i].source);
      var pending := enable && source;
      ClearThenSet(Masks(irqpendl0, irqpendl1), i, false);
      ClearThenSet(Masks(irqpendl0, irqpendl1), i, true);
      irqpendl0 := SetBit(irqpendl0, i, false);
      irqpendl1 := SetBit(irqpendl1, i, false);
      if pending {
        var prio := SfrBitval(irqs[i].prio);
        if prio {
          irqpendl1 := SetBit(irqpendl1, i, true);
        } else {
          irqpendl0 := SetBit(irqpendl0, i, true);
        }
      }
    }

    method SfrBitval(bit: Option<SfrBit>) returns (v: bool)
      requires Valid()
      ensures v == Holds(Memory(), bit)
    {
      if bit.None? {
        return false;
      }
      v := And(Xor(ramsfr[bit.value.addr], bit.value.xorval), bit.value.mask) != 0;
    }

    method SfrNotify(addr: byte)
      requires Valid()
      modifies this`irqpendl0, this`irqpendl1
      ensures Valid()
      ensures Masks(irqpendl0, irqpendl1) ==
              RefreshAll(Memory(), irqs[..], old(Masks(irqpendl0, irqpendl1)), ramsfrnotifiers[addr])
    {
      var list := ramsfrnotifiers[addr];
      ghost var was := Masks(irqpendl0, irqpendl1);
      var i := 0;
      while i < |list|
        invariant 0 <= i <= |list| && Valid()
        invariant Masks(irqpendl0, irqpendl1) == RefreshAll(Memory(), irqs[..], was, list[..i])
      {
        SfrNotifyIrq(list[i]);
        assert list[..i + 1][..i] == list[..i];
        i := i + 1;
      }
      assert list[..i] == list;
    }

    method WatchSfr(sfr: byte, i: IrqIndex) returns (ok: bool)
      requires Valid()
      modifies ramsfrnotifiers
      ensures ok == (old(|ramsfrnotifiers[sfr]|) < 8)
      ensures ramsfrnotifiers[..] ==
              if ok then old(ramsfrnotifiers[..])[sfr := old(ramsfrnotifiers[sfr]) + [i]] else old(ramsfrnotifiers[..])
    {
      if |ramsfrnotifiers[sfr]| >= 8 {
        return false;
      }
      ramsfrnotifiers[sfr] := ramsfrnotifiers[sfr] + [i];
      return true;
    }

    method MapIrq(idx: IrqIndex, vec: word, enable: Option<SfrBit>, source: Option<SfrBit>, prio: Option<SfrBit>)
      returns (ok: bool)
      requires Valid()
      modifies irqs, ramsfrnotifiers
      ensures ok == old(CanMap(irqs[..], ramsfrnotifiers[..], Irq(vec, enable, source, prio), idx))
      ensures old(irqs[idx].source.Some?) ==> !ok && irqs[..] == old(irqs[..]) && ramsfrnotifiers[..] == old(ramsfrnotifiers[..])
      ensures ok ==> irqs[..] == old(irqs[..])[idx := Irq(vec, enable, source, prio)]
      ensures ok ==> ramsfrnotifiers[..] == AddIrq(old(ramsfrnotifiers[..]), Irq(vec, enable, source, prio), idx)
    {
      if irqs[idx].source.Some? {
        return false;
      }
      irqs[idx] := Irq(vec, enable, source, prio);
      ok := WatchBit(enable, idx);
      if ok {
        ok := WatchBit(source, idx);
      }
      if ok {
        ok := WatchBit(prio, idx);
      }
    }

    /** `if (bit) watch_sfr(bit->data, ...)` */
    method WatchBit(bit: Option<SfrBit>, i: IrqIndex) returns (ok: bool)
      requires Valid()
      modifies ramsfrnotifiers
      ensures ok == old(HasSlot(ramsfrnotifiers[..], bit))
      ensures ok ==> ramsfrnotifiers[..] == AddWatch(old(ramsfrnotifiers[..]), bit, i)
    {
      ok := true;
      if bit.Some? {
        ok := WatchSfr(bit.value.addr, i);
      }
    }

    /** main.c:682-696, on a core nothing was mapped on yet: every hypothesis of the coherence theorems holds. */
    method MapMainIrqs() returns (ok: bool)
      requires Valid() && Blank(Control())
      modifies irqs, ramsfrnotifiers
      ensures ok && irqs[..] == old(irqs[..])[4 := UART0][5 := TIMER2]
      ensures SetUp(Control()) && MainIrqs(irqs[..]) && Coherent(Memory(), irqs[..], Masks(irqpendl0, irqpendl1))
    {
      MainMapping(Control());
      ok := MapIrq(4, 0x23, UART0.enable, UART0.source, UART0.prio);
      var ok5 := MapIrq(5, 0x2b, TIMER2.enable, TIMER2.source, TIMER2.prio);
      ok := ok && ok5;
    }

    /** main.c's sfr_init: the trap words say exactly which addresses are trapped, and SP starts at 7. */
    method SfrInit() returns (ramsfrtrap: seq<nat>)
      requires Valid()
      modifies ramsfr
      ensures Memory() == old(Memory())[SP := 7]
      ensures |ramsfrtrap| == 8 && forall addr: byte :: Bit(ramsfrtrap[addr / 32], addr % 32) <==> Trapped(addr)
    {
      ramsfrtrap := seq(8, w => if w < 4 then 0 else Pow2(32) - 1);
      forall addr: byte
        ensures Bit(ramsfrtrap[addr / 32], addr % 32) <==> addr >= 0x80
      {
        ZeroBit(addr % 32);
        AllOnes(32, addr % 32);
      }
      ramsfrtrap := NoTrap(ramsfrtrap, 0x81);
      ramsfrtrap := NoTrap(ramsfrtrap, 0x82);
      ramsfrtrap := NoTrap(ramsfrtrap, 0x83);
      ramsfrtrap := NoTrap(ramsfrtrap, 0xd0);
      ramsfrtrap := NoTrap(ramsfrtrap, 0xe0);
      ramsfrtrap := NoTrap(ramsfrtrap, 0xf0);
      ramsfr[0x81] := 7;
    }

    // ----- memory access -----

    /**
      readd of any SFR but a hooked PCON, such as the byte of a bit address; `left` is what a trapped SFR's get routine
      leaves in its cell.
    */
    method ReadPlain(addr: byte, left: byte) returns (v: byte)
      requires Valid()
      modifies ramsfr
      ensures Memory() == Got(old(Memory()), addr, left)
      ensures v == Memory()[addr] == if Trapped(addr) then left else old(Memory())[addr]
      ensures forall k :: 0 <= k < RAM_SIZE && k != addr ==> Memory()[k] == old(Memory())[k]
    {
      if Trapped(addr) {
        ramsfr[addr] := left;
      }
      v := ramsfr[addr];
    }

    /** default_ramd_put where the put routine stores val and its hook then leaves `left` in the cell. */
    method DefaultRamdPut(addr: byte, val: byte, left: byte)
      requires Valid()
      modifies this`irqpendl0, this`irqpendl1, ramsfr
      ensures Valid() && Control() == Stored(old(Control()), addr, left)
    {
      ramsfr[addr] := val;
      ramsfr[addr] := left;
      assert Memory() == old(Memory())[addr := left];
      SfrNotify(addr);
    }

    /** The same for SBUF, whose put routine pokes SCON on the way. */
    method PutSbuf(val: byte)
      requires Valid()
      modifies this`irqpendl0, this`irqpendl1, ramsfr
      ensures Valid() && Control() == WriteSbuf(old(Control()), val)
    {
      ramsfr[SBUF] := val;
      var scon := UpdateBit(ramsfr[SCON], TI, true);
      DefaultRamdPut(SCON, scon, scon);
      ghost var c2 := Control();
      SfrNotify(SBUF);
      assert c2.ram[SBUF := c2.ram[SBUF]] == c2.ram;
    }

    /** The same for writed; `left` is what a trapped SFR's put routine leaves in its cell (val itself where there is no hook). */
    method WritePlain(addr: byte, val: byte, left: byte)
      requires Valid()
      modifies this`irqpendl0, this`irqpendl1, ramsfr
      ensures Valid()
      ensures addr != SBUF ==> Control() == Writed(old(Control()), addr, if Trapped(addr) then left else val)
      ensures addr == SBUF ==> Control() == WriteSbuf(old(Control()), val)
    {
      if !Trapped(addr) {
        ramsfr[addr] := val;
      } else if addr == SBUF {
        PutSbuf(val);
      } else {
        DefaultRamdPut(addr, val, left);
      }
    }

    /** sfr_pcon, the hook of rtl8372.lua. */
    method SfrPcon(write: bool)
      requires Valid()
      modifies this`irqpendl0, this`irqpendl1, ramsfr
      ensures Valid() && Control() == PconHook(old(Control()), write)
    {
      if write {
        var t2con := ReadPlain(T2CON, ramsfr[T2CON]);
        assert Memory() == old(Memory());
        var t2con' := UpdateBit(t2con, 7, true);
        WritePlain(T2CON, t2con', t2con');
      }
      label Scon:
      var scon := ReadPlain(SCON, ramsfr[SCON]);
      assert Memory() == old@Scon(Memory());
      WritePlain(SCON, scon, scon);
    }

    /** A write to PCON with that hook. */
    method WritePcon(val: byte)
      requires Valid()
      modifies this`irqpendl0, this`irqpendl1, ramsfr
      ensures Valid() && Control() == Interrupts.Exec(PconWrite(val), old(Control()))
    {
      ramsfr[PCON] := val;
      SfrPcon(true);
      DefaultRamdPut(PCON, ramsfr[PCON], val);
    }

    /** readd of any direct address. */
    method ReadD(addr: byte, got: byte) returns (v: byte)
      requires Valid()
      modifies this`irqpendl0, this`irqpendl1, ramsfr
      ensures Valid() && Control() == ReadDirect(old(Control()), addr, got, pconHook)
      ensures v == Memory()[addr]
      ensures pconHook && addr == PCON ==> Control() == Interrupts.Exec(PconRead, old(Control()))
      ensures !(pconHook && addr == PCON) ==> v == if Trapped(addr) then got else old(Memory())[addr]
    {
      if pconHook && addr == PCON {
        SfrPcon(false);
        v := ramsfr[PCON];
      } else {
        v := ReadPlain(addr, got);
      }
    }

    /** writed of any direct address. */
    method WriteD(addr: byte, val: byte, left: byte)
      requires Valid()
      modifies this`irqpendl0, this`irqpendl1, ramsfr
      ensures Valid() && Control() == WriteDirect(old(Control()), addr, val, left, pconHook)
      ensures pconHook && addr == PCON ==> Control() == Interrupts.Exec(PconWrite(val), old(Control()))
      ensures addr == SBUF ==> Control() == Interrupts.Exec(Sbuf(val), old(Control()))
      ensures addr != SBUF && !(pconHook && addr == PCON) ==>
              Control() == Interrupts.Exec(Write(addr, if Trapped(addr) then left else val), old(Control()))
    {
      if pconHook && addr == PCON {
        WritePcon(val);
      } else {
        WritePlain(addr, val, left);
      }
    }

    /** One pass of the UART listener's loop: a direct store, past the notifiers, when RI is clear. */
    method ListenerStore(d: byte) returns (ok: bool)
      requires Valid()
      modifies ramsfr
      ensures ok == !Bit(old(Memory())[SCON], RI)
      ensures Control() == Interrupts.Exec(Listener(d), old(Control()))
      ensures Memory()[SBUF] == (if ok then d else old(Memory())[SBUF]) && Bit(Memory()[SCON], RI)
      ensures forall k :: 0 <= k < RAM_SIZE && k != SBUF && k != SCON ==> Memory()[k] == old(Memory())[k]
      ensures forall i: nat :: i != RI ==> Bit(Memory()[SCON], i) == Bit(old(Memory())[SCON], i)
    {
      ListenerStores(Control(), d);
      ok := !Bit(ramsfr[SCON], RI);
      if ok {
        ramsfr[SBUF] := d;
        ramsfr[SCON] := UpdateBit(ramsfr[SCON], RI, true);
      }
    }

    method Readi(addr: byte) returns (v: byte)
      requires Valid()
      ensures v == ReadI(Memory(), addr) == Memory()[if addr < 0x80 then addr else addr + 0x80]
    {
      v := ramsfr[Cell(addr)];
    }

    method Writei(addr: byte, val: byte)
      requires Valid()
      modifies ramsfr
      ensures Memory() == WriteI(old(Memory()), addr, val)
      ensures Control() == Interrupts.Exec(Iram(addr, val), old(Control()))
      ensures Memory() == old(Memory())[if addr < 0x80 then addr else addr + 0x80 := val]
    {
      ramsfr[Cell(addr)] := val;
    }

    // ----- stack instructions -----

    method Push(x: byte)
      requires Valid()
      modifies ramsfr
      ensures Memory() == CS.Push(old(Memory()), x)
    {
      ramsfr[SP] := CS.MovedSp(Memory(), 1);
      Writei(ramsfr[SP], x);
    }

    method Pop() returns (x: byte)
      requires Valid()
      modifies ramsfr
      ensures x == CS.Top(old(Memory())) && Memory() == CS.Drop(old(Memory()))
    {
      x := Readi(ramsfr[SP]);
      ramsfr[SP] := CS.MovedSp(Memory(), -1);
    }

    method PushPc()
      requires Valid()
      modifies ramsfr
      ensures Memory() == CS.PushWord(old(Memory()), pc)
    {
      Push(pc % 0x100);
      Push(pc / 0x100);
    }

    method Lcall(reladdr: word)
      requires Valid()
      modifies this`pc, ramsfr
      ensures Stack() == CS.Exec(CS.Lcall(reladdr), old(Stack()))
    {
      pc := U16(pc + 3);
      PushPc();
      pc := reladdr;
      CS.LcallState(reladdr, old(Stack()), Stack());
    }

    method Acall(reladdr: word)
      requires Valid()
      modifies this`pc, ramsfr
      ensures Stack() == CS.Exec(CS.Acall(reladdr), old(Stack()))
    {
      pc := U16(pc + 2);
      PushPc();
      var page := pc - pc % 0x800;
      pc := page + reladdr % 0x800;
      CS.AcallState(reladdr, old(Stack()), Stack());
    }

    method Ret()
      requires Valid()
      modifies this`pc, ramsfr
      ensures Stack() == CS.Exec(CS.Return, old(Stack()))
    {
      var high: int := Pop();
      var low: int := Pop();
      pc := 0x100 * high + low;
    }

    method Reti()
      requires Valid()
      modifies this`pc, this`irqlevel, ramsfr
      ensures Stack() == CS.Exec(CS.Return, old(Stack()))
      ensures irqlevel == 0
    {
      IrqlevelReti();
      Ret();
    }

    /** PUSH of any direct address; see CallStack.Pushed for `got` and `late`. A hooked PCON's cell stays as it is. */
    method PushDirect(addr: byte, got: byte, late: bool)
      requires Valid()
      modifies this`pc, this`irqpendl0, this`irqpendl1, ramsfr
      ensures Valid()
      ensures var kept := if pconHook && addr == PCON then old(Memory())[PCON] else got;
              Stack() == CS.Exec(CS.PushDirect(addr, kept, late), old(Stack()))
      ensures Masks(irqpendl0, irqpendl1) == ReadDirect(old(Control()), addr, got, pconHook).masks
    {
      ghost var kept := if pconHook && addr == PCON then Memory()[PCON] else got;
      ReadMemory(Control(), addr, got, pconHook);
      var x := ReadD(addr, got);
      if addr == SP && late {
        x := CS.MovedSp(Memory(), 1);
      }
      Push(x);
      pc := U16(pc + 2);
      CS.PushDirectState(CS.PushDirect(addr, kept, late), old(Stack()), Stack());
    }

    /** `writed(addr, POP())` */
    method PopStore(addr: byte, left: byte)
      requires Valid()
      modifies this`irqpendl0, this`irqpendl1, ramsfr
      ensures Valid() && Control() == PoppedInto(old(Control()), addr, left, pconHook)
    {
      var x := Pop();
      WriteD(addr, x, left);
    }

    /** POP of any direct address; watchers of an SFR are notified as by any writed. */
    method PopDirect(addr: byte, left: byte)
      requires Valid()
      modifies this`pc, this`irqpendl0, this`irqpendl1, ramsfr
      ensures Valid() && Stack() == CS.Exec(CS.PopDirect(addr, left, pconHook), old(Stack()))
      ensures Control() == PoppedInto(old(Control()), addr, left, pconHook)
    {
      PoppedMemory(Control(), addr, left, pconHook);
      PopStore(addr, left);
      pc := U16(pc + 2);
      CS.PopDirectState(CS.PopDirect(addr, left, pconHook), old(Stack()), Stack());
    }

    // ----- interrupt acceptance -----

    /** irqlevel_reti: no case of its switch breaks, so all fall through to the last one. */
    method IrqlevelReti()
      modifies this`irqlevel
      ensures irqlevel == 0
    {
      var n := irqlevel % 16;
      if n >= 8 { irqlevel := SetBit(irqlevel, 3, false); }
      if n >= 4 { irqlevel := SetBit(irqlevel, 2, false); }
      if n >= 2 { irqlevel := SetBit(irqlevel, 1, false); }
      if n >= 1 { irqlevel := SetBit(irqlevel, 0, false); }
      irqlevel := 0;
    }

    /** irq_vec; -1 is None. */
    method IrqVec(mask: nat, level: nat) returns (vec: Option<word>)
      requires Valid() && mask < Pow2(32) && level <= 1
      modifies this`irqlevel
      ensures mask == 0 || old(irqlevel) >= Pow2(level) ==> vec == None && irqlevel == old(irqlevel)
      ensures mask > 0 && old(irqlevel) < Pow2(level) ==>
              && HighestBit(mask) < 32
              && vec == Some(irqs[HighestBit(mask)].vec) && irqlevel == SetBit(old(irqlevel), level, true)
    {
      if mask == 0 || irqlevel >= Pow2(level) {
        return None;
      }
      irqlevel := SetBit(irqlevel, level, true);
      HighBitsClear(mask, 32, HighestBit(mask));
      var bit := HighestBit(mask);
      vec := Some(irqs[bit].vec);
    }

    /** handle_irq:813-818: only the highest pending level is tried. */
    method ChooseIrq() returns (vec: Option<word>)
      requires Valid()
      modifies this`irqlevel
      ensures irqlevel == LevelAfter(Masks(irqpendl0, irqpendl1), true, old(irqlevel))
      ensures var a := Accepted(Masks(irqpendl0, irqpendl1), old(irqlevel));
              if a.None? then vec == None else a.value.index < 32 && vec == Some(irqs[a.value.index].vec)
    {
      assert Pow2(0) == 1 && Pow2(1) == 2;
      vec := None;
      if irqpendl1 != 0 {
        vec := IrqVec(irqpendl1, 1);
      } else if irqpendl0 != 0 {
        vec := IrqVec(irqpendl0, 0);
      }
    }

    /** handle_irq: accept per the acceptance rule, and enter the vector unless it is 0. */
    method HandleIrq()
      requires Valid()
      modifies this`pc, this`irqlevel, ramsfr
      ensures Valid()
      ensures irqlevel == LevelAfter(Masks(irqpendl0, irqpendl1), true, old(irqlevel))
      ensures var a := Accepted(Masks(irqpendl0, irqpendl1), old(irqlevel));
              if a.None? then Stack() == old(Stack())
              else a.value.index < 32 &&
                   var vec := irqs[a.value.index].vec;
                   Stack() == (if vec > 0 then CS.Exec(CS.Interrupt(vec), old(Stack())) else old(Stack())) &&
                   pc == if vec > 0 then vec else old(pc)
    {
      var vec := ChooseIrq();
      if vec.None? || vec.value == 0 {
        return;
      }
      PushPc();
      pc := vec.value;
    }

    /** The interrupt poll of nextop; EA is bit 7 of IE. */
    method PollIrq()
      requires Valid()
      modifies this`pc, this`irqlevel, ramsfr
      ensures Valid()
      ensures irqlevel == LevelAfter(Masks(irqpendl0, irqpendl1), Bit(old(ramsfr[0xa8]), 7), old(irqlevel))
      ensures var a := if Bit(old(ramsfr[0xa8]), 7) then Accepted(Masks(irqpendl0, irqpendl1), old(irqlevel)) else None;
              if a.None? then Stack() == old(Stack())
              else a.value.index < 32 &&
                   var vec := irqs[a.value.index].vec;
                   Stack() == (if vec > 0 then CS.Exec(CS.Interrupt(vec), old(Stack())) else old(Stack())) &&
                   pc == if vec > 0 then vec else old(pc)
    {
      if (irqpendl0 != 0 || irqpendl1 != 0) && Bit(ramsfr[0xa8], 7) {
        HandleIrq();
      }
    }

    /**
      The poll under main.c's mapping: with EA set and a level mask that allows it, a pending UART interrupt ends at
      0x23 and a pending timer 2 interrupt at 0x2b, the higher level first and timer 2 first within a level.
    */
    method PollMainIrqs()
      requires Valid() && MainIrqs(irqs[..]) && Coherent(Memory(), irqs[..], Masks(irqpendl0, irqpendl1))
      modifies this`pc, this`irqlevel, ramsfr
      ensures Valid()
      ensures var ram := old(Memory());
              var uart := Bit(ram[0xa8], 4) && (Bit(ram[SCON], 0) || Bit(ram[SCON], 1));
              var timer := Bit(ram[0xa8], 5) && Bit(ram[T2CON], 7);
              var highUart, highTimer := uart && Bit(ram[0xb8], 4), timer && Bit(ram[0xb8], 5);
              pc ==
                if !Bit(ram[0xa8], 7) then old(pc)
                else if highUart || highTimer then (if old(irqlevel) >= 2 then old(pc) else if highTimer then 0x2b else 0x23)
                else if (uart || timer) && old(irqlevel) == 0 then (if timer then 0x2b else 0x23)
                else old(pc)
    {
      MainAccepted(Control(), irqlevel);
      PollIrq();
    }

    // ----- bit instructions -----
    // `got` is what a trapped byte's get routine leaves in its cell, `left` what its put routine leaves.

    method Readb(bit: byte, got: byte) returns (v: bool)
      requires Valid()
      modifies ramsfr
      ensures Memory() == Got(old(Memory()), ByteOf(bit), got)
      ensures v == ReadB(Memory(), bit)
    {
      var x := ReadPlain(ByteOf(bit), got);
      v := Bit(x, bit % 8);
    }

    method Writeb(bit: byte, value: bool, got: byte, left: byte)
      requires Valid()
      modifies this`irqpendl0, this`irqpendl1, ramsfr
      ensures Valid() && Control() == BitWritten(old(Control()), bit, value, got, left)
      ensures HooksKeep(old(Memory()), bit, value, got, left) ==> Memory() == WriteB(old(Memory()), bit, value)
    {
      ByteOfRange(bit);
      if HooksKeep(Memory(), bit, value, got, left) {
        HooksKeepBit(Control(), bit, value, got, left);
      }
      var addr := ByteOf(bit);
      var x := ReadPlain(addr, got);
      var tmp := UpdateBit(x, bit % 8, false);
      if value {
        SetBitTwice(x, bit % 8, false, true);
        tmp := UpdateBit(tmp, bit % 8, true);
      }
      WritePlain(addr, tmp, left);
    }

    /** `writed(tmp1, readd(tmp1) | tmp2)`, or with `& ~tmp2`. */
    method ModifyBit(bit: byte, value: bool, got: byte, left: byte)
      requires Valid()
      modifies this`irqpendl0, this`irqpendl1, ramsfr
      ensures Valid() && Control() == BitWritten(old(Control()), bit, value, got, left)
      ensures HooksKeep(old(Memory()), bit, value, got, left) ==> Memory() == WriteB(old(Memory()), bit, value)
    {
      ByteOfRange(bit);
      if HooksKeep(Memory(), bit, value, got, left) {
        HooksKeepBit(Control(), bit, value, got, left);
      }
      var x := ReadPlain(ByteOf(bit), got);
      WritePlain(ByteOf(bit), UpdateBit(x, bit % 8, value), left);
    }

    method SetbBit(bit: byte, got: byte, left: byte)
      requires Valid()
      modifies this`irqpendl0, this`irqpendl1, ramsfr
      ensures Valid() && Control() == BitWritten(old(Control()), bit, true, got, left)
      ensures HooksKeep(old(Memory()), bit, true, got, left) ==> Memory() == ExecBit(Setb(bit), old(Memory()))
    {
      ModifyBit(bit, true, got, left);
    }

    method ClrBit(bit: byte, got: byte, left: byte)
      requires Valid()
      modifies this`irqpendl0, this`irqpendl1, ramsfr
      ensures Valid() && Control() == BitWritten(old(Control()), bit, false, got, left)
      ensures HooksKeep(old(Memory()), bit, false, got, left) ==> Memory() == ExecBit(Clr(bit), old(Memory()))
    {
      Writeb(bit, false, got, left);
    }

    /** CPL reads its byte twice: once for the digit, once to write it back. */
    method CplBit(bit: byte, got: byte, got': byte, left: byte)
      requires Valid()
      modifies this`irqpendl0, this`irqpendl1, ramsfr
      ensures Valid()
      ensures var c := Loaded(old(Control()), ByteOf(bit), got);
              && Control() == BitWritten(c, bit, !ReadB(c.ram, bit), got', left)
              && (c.ram == old(Memory()) && HooksKeep(c.ram, bit, !ReadB(c.ram, bit), got', left) ==>
                  Memory() == ExecBit(Cpl(bit), old(Memory())))
    {
      var v := Readb(bit, got);
      Writeb(bit, !v, got', left);
    }

    method MovBitCarry(bit: byte, got: byte, left: byte)
      requires Valid()
      modifies this`irqpendl0, this`irqpendl1, ramsfr
      ensures Valid() && Control() == BitWritten(old(Control()), bit, Bit(old(Memory())[PSW], 7), got, left)
      ensures HooksKeep(old(Memory()), bit, Bit(old(Memory())[PSW], 7), got, left) ==>
              Memory() == ExecBit(MovBitC(bit), old(Memory()))
    {
      MovBitMemory(Memory(), bit);
      Writeb(bit, Bit(ramsfr[PSW], 7), got, left);
    }

    /** C is cleared before the byte is read. */
    method MovCarryBit(bit: byte, got: byte)
      requires Valid()
      modifies ramsfr
      ensures Memory() == ExecBit(MovCBit(bit), Got(old(Memory()), ByteOf(bit), got))
    {
      ghost var ram := Got(Memory(), ByteOf(bit), got);
      SetBitTwice(ramsfr[PSW], 7, false, true);
      GotOthers(Memory(), bit, got, UpdateBit(ramsfr[PSW], 7, false));
      ramsfr[PSW] := UpdateBit(ramsfr[PSW], 7, false);
      var v := Readb(bit, got);
      MovCarryMemory(ram, bit, Memory());
      if v {
        ramsfr[PSW] := UpdateBit(ramsfr[PSW], 7, true);
      }
    }

    /** ANL C and ORL C, with the bit or its complement; C decides first whether the byte is read at all. */
    method LogicCarryBit(op: BitOp, got: byte)
      requires Valid() && (op.AnlC? || op.AnlCNot? || op.OrlC? || op.OrlCNot?)
      modifies ramsfr
      ensures var read := (op.AnlC? || op.AnlCNot?) == Bit(old(Memory())[PSW], 7);
              Memory() == ExecBit(op, if read then Got(old(Memory()), ByteOf(op.bit), got) else old(Memory()))
    {
      var c := Bit(ramsfr[PSW], 7);
      var v' := c;
      if (op.AnlC? || op.AnlCNot?) == c {
        var v := Readb(op.bit, got);
        v' := if op.AnlC? || op.OrlC? then v else !v;
      }
      ramsfr[PSW] := UpdateBit(ramsfr[PSW], 7, v');
    }

    /** JBC reads the byte to test it and again to clear the bit. */
    method TestAndClear(bit: byte, got: byte, got': byte, left: byte) returns (taken: bool)
      requires Valid()
      modifies this`irqpendl0, this`irqpendl1, ramsfr
      ensures Valid()
      ensures var c := Loaded(old(Control()), ByteOf(bit), got);
              && taken == ReadB(c.ram, bit)
              && Control() == if taken then BitWritten(c, bit, false, got', left) else c
    {
      taken := Readb(bit, got);
      if taken {
        ModifyBit(bit, false, got', left);
      }
    }

    method JbcBit(bit: byte, reladdr: byte, got: byte, got': byte, left: byte)
      requires Valid()
      modifies this`pc, this`irqpendl0, this`irqpendl1, ramsfr
      ensures Valid()
      ensures var c := Loaded(old(Control()), ByteOf(bit), got); var taken := ReadB(c.ram, bit);
              && Control() == (if taken then BitWritten(c, bit, false, got', left) else c)
              && (c.ram == old(Memory()) && (taken ==> HooksKeep(c.ram, bit, false, got', left)) ==>
                  Memory() == ExecBit(Jbc(bit), old(Memory())))
      ensures pc == if !ReadB(Got(old(Memory()), ByteOf(bit), got), bit) then U16(old(pc) + 3)
                    else if reladdr < 0x80 then U16(old(pc) + 3 + reladdr) else U16(old(pc) + 3 + reladdr - 0x100)
    {
      ghost var at := pc;
      JbcMemory(Loaded(Control(), ByteOf(bit), got), bit, got', left);
      pc := U16(pc + 3);
      var taken := TestAndClear(bit, got, got', left);
      JumpIf(taken, reladdr, at);
    }

    /** The end of a three-byte conditional branch at `at`. */
    method JumpIf(taken: bool, reladdr: byte, ghost at: word)
      requires pc == U16(at + 3)
      modifies this`pc
      ensures pc == if !taken then U16(at + 3)
                    else if reladdr < 0x80 then U16(at + 3 + reladdr) else U16(at + 3 + reladdr - 0x100)
    {
      if taken {
        BranchFrom(at, 3, reladdr);
        pc := Branch(pc, reladdr);
      }
    }
  }

  /** SFRNOTRAP */
  function NoTrap(traps: seq<nat>, x: byte): (r: seq<nat>)
    requires |traps| == 8
    ensures |r| == 8
    ensures forall addr: byte :: Bit(r[addr / 32], addr % 32) <==> addr != x && Bit(traps[addr / 32], addr % 32)
  {
    assert forall i: nat :: Bit(SetBit(traps[x / 32], x % 32, false), i) == (i != x % 32 && Bit(traps[x / 32], i)) by {
      forall i: nat
        ensures Bit(SetBit(traps[x / 32], x % 32, false), i) == (i != x % 32 && Bit(traps[x / 32], i))
      {
        BitSetBit(traps[x / 32], x % 32, false, i);
      }
    }
    traps[x / 32 := SetBit(traps[x / 32], x % 32, false)]
  }

  /** `pc += (int8_t)reladdr` */
  function Branch(pc: word, reladdr: byte): word {
    U16(pc + Alu.Signed(reladdr))
  }

  /** From the instruction after an n-byte one at pc, the offset counts forward below 0x80 and backward from it on. */
  lemma BranchFrom(pc: word, n: nat, reladdr: byte)
    ensures Branch(U16(pc + n), reladdr) ==
      if reladdr < 0x80 then U16(pc + n + reladdr) else U16(pc + n + reladdr - 0x100)
  {
  }

  /** Offset -n, here for a three-byte instruction, branches to the instruction itself. */
  lemma BranchToSelf(pc: word)
    ensures Branch(U16(pc + 3), 0xfd) == pc
  {
  }

  /** A branch by r and one by its two's complement lead back. */
  lemma BranchBack(pc: word, r: byte)
    requires r != 0x80
    ensures Branch(Branch(pc, r), U8(0x100 - r)) == pc
  {
  }

  lemma JbcMemory(c: Ctl, bit: byte, got: byte, left: byte)
    ensures var taken := ReadB(c.ram, bit);
      (taken ==> HooksKeep(c.ram, bit, false, got, left)) ==>
      (if taken then BitWritten(c, bit, false, got, left) else c).ram == ExecBit(Jbc(bit), c.ram)
  {
    if HooksKeep(c.ram, bit, false, got, left) {
      HooksKeepBit(c, bit, false, got, left);
    }
  }

  lemma MovBitMemory(ram: Ram, bit: byte)
    ensures ExecBit(MovBitC(bit), ram) == WriteB(ram, bit, Bit(ram[PSW], 7))
  {
  }

  lemma MovCarryMemory(ram: Ram, bit: byte, cleared: Ram)
    requires cleared == ram[PSW := UpdateBit(ram[PSW], 7, false)]
    ensures ExecBit(MovCBit(bit), ram) ==
      if ReadB(cleared, bit) then ram[PSW := UpdateBit(ram[PSW], 7, true)] else cleared
  {
  }

  /** Memory and masks after a POP. */
  function PoppedInto(c: Ctl, addr: byte, left: byte, hook: bool): Ctl {
    WriteDirect(c.(ram := CS.Drop(c.ram)), addr, CS.Top(c.ram), left, hook)
  }

  lemma PoppedMemory(c: Ctl, addr: byte, left: byte, hook: bool)
    ensures PoppedInto(c, addr, left, hook).ram == CS.Popped(c.ram, addr, left, hook)
  {
    var x, c1 := CS.Top(c.ram), c.(ram := CS.Drop(c.ram));
    WriteSbufMemory(c1, x);
    PconStoreMemory(c1, x);
    WritedMemory(c1, addr, if Trapped(addr) then left else x);
  }

  lemma ReadMemory(c: Ctl, addr: byte, got: byte, hook: bool)
    ensures ReadDirect(c, addr, got, hook).ram == Got(c.ram, addr, if hook && addr == PCON then c.ram[PCON] else got)
  {
    PconReadMemory(c);
  }

  /** Reading a hooked byte and changing PSW, which has no hooks, do not disturb each other. */
  lemma GotOthers(ram: Ram, bit: byte, got: byte, psw: byte)
    ensures Got(ram[PSW := psw], ByteOf(bit), got) == Got(ram, ByteOf(bit), got)[PSW := psw]
    ensures Got(ram, ByteOf(bit), got)[PSW] == ram[PSW]
  {
  }
}

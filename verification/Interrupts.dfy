/**
  The interrupt controller of core.c: mapped interrupts, the SFR watch lists that refresh the cached pending
  masks irqpendl0/irqpendl1, and the acceptance rule with its level mask.
*/
module Interrupts {
  import opened Bits
  import opened Ramsfr


  datatype Option<+T> = None | Some(value: T)

  /** struct sfr_bit, with the SFR's address for the data pointer. */
  datatype SfrBit = SfrBit(addr: byte, mask: byte, xorval: byte)

  datatype Irq = Irq(vec: word, enable: Option<SfrBit>, source: Option<SfrBit>, prio: Option<SfrBit>)

  const FREE := Irq(0, None, None, None)

  /** irqs[32]; entry i is free while its source is NULL. */
  type Irqs = s: seq<Irq> | |s| == 32 witness seq(32, _ => FREE)

  type IrqIndex = i: nat | i < 32

  /** ramsfrnotifiers[256]: for each SFR, the interrupts refreshed after a write to it. */
  type Watch = s: seq<seq<IrqIndex>> | |s| == 0x100 witness seq(0x100, _ => [])

  /** sfr_bitval */
  predicate Holds(ram: Ram, bit: Option<SfrBit>) {
    bit.Some? && And(Xor(ram[bit.value.addr], bit.value.xorval), bit.value.mask) != 0
  }

  predicate Pending(ram: Ram, irq: Irq) {
    Holds(ram, irq.enable) && Holds(ram, irq.source)
  }

  /** irqpendl0 and irqpendl1 */
  datatype Masks = Masks(l0: nat, l1: nat)

  /** The cache is right for interrupt i. */
  predicate Fresh(ram: Ram, irq: Irq, m: Masks, i: nat) {
    && (Bit(m.l1, i) <==> Pending(ram, irq) && Holds(ram, irq.prio))
    && (Bit(m.l0, i) <==> Pending(ram, irq) && !Holds(ram, irq.prio))
  }

  ghost predicate Coherent(ram: Ram, irqs: Irqs, m: Masks) {
    forall i: IrqIndex :: Fresh(ram, irqs[i], m, i)
  }

  predicate Reads(irq: Irq, addr: byte) {
    || (irq.enable.Some? && irq.enable.value.addr == addr)
    || (irq.source.Some? && irq.source.value.addr == addr)
    || (irq.prio.Some? && irq.prio.value.addr == addr)
  }

  /** What map_irq sets up: an interrupt is on the watch list of every SFR its bits live in. */
  ghost predicate Watching(irqs: Irqs, watch: Watch) {
    forall i: IrqIndex, addr: byte :: Reads(irqs[i], addr) ==> i in watch[addr]
  }

  /** Watched SFRs are trapped ones, as IE, IP, SCON and T2CON are: an untrapped write notifies nobody. */
  ghost predicate WatchedAreTrapped(watch: Watch) {
    forall addr: byte :: watch[addr] != [] ==> Trapped(addr)
  }

  /** sfr_notify_irq */
  function Refresh(ram: Ram, irq: Irq, m: Masks, i: nat): Masks {
    Masks(SetBit(m.l0, i, Pending(ram, irq) && !Holds(ram, irq.prio)),
          SetBit(m.l1, i, Pending(ram, irq) && Holds(ram, irq.prio)))
  }

  /** sfr_notify over one watch list. */
  function RefreshAll(ram: Ram, irqs: Irqs, m: Masks, list: seq<IrqIndex>): Masks {
    if list == [] then m
    else
      var n := |list| - 1;
      Refresh(ram, irqs[list[n]], RefreshAll(ram, irqs, m, list[..n]), list[n])
  }

  lemma RefreshEffect(ram: Ram, irq: Irq, m: Masks, i: nat)
    ensures Fresh(ram, irq, Refresh(ram, irq, m, i), i)
    ensures forall j: nat :: j != i ==> Bit(Refresh(ram, irq, m, i).l0, j) == Bit(m.l0, j)
    ensures forall j: nat :: j != i ==> Bit(Refresh(ram, irq, m, i).l1, j) == Bit(m.l1, j)
  {
    var v := Pending(ram, irq);
    var p := Holds(ram, irq.prio);
    BitSetBit(m.l0, i, v && !p, i);
    BitSetBit(m.l1, i, v && p, i);
    forall j: nat
      ensures Bit(SetBit(m.l0, i, v && !p), j) == if j == i then v && !p else Bit(m.l0, j)
      ensures Bit(SetBit(m.l1, i, v && p), j) == if j == i then v && p else Bit(m.l1, j)
    {
      BitSetBit(m.l0, i, v && !p, j);
      BitSetBit(m.l1, i, v && p, j);
    }
  }

  /** Clearing both digits and then setting at most one of them, as sfr_notify_irq does, is Refresh. */
  lemma ClearThenSet(m: Masks, i: IrqIndex, v: bool)
    requires m.l0 < Pow2(32) && m.l1 < Pow2(32)
    ensures SetBit(SetBit(m.l0, i, false), i, v) == SetBit(m.l0, i, v) < Pow2(32)
    ensures SetBit(SetBit(m.l1, i, false), i, v) == SetBit(m.l1, i, v) < Pow2(32)
  {
    SetBitTwice(m.l0, i, false, v);
    SetBitTwice(m.l1, i, false, v);
    SetBitBound(m.l0, i, v, 32);
    SetBitBound(m.l1, i, v, 32);
  }

  lemma {:induction false} RefreshAllEffect(ram: Ram, irqs: Irqs, m: Masks, list: seq<IrqIndex>, i: IrqIndex)
    ensures i in list ==> Fresh(ram, irqs[i], RefreshAll(ram, irqs, m, list), i)
    ensures i !in list ==> Bit(RefreshAll(ram, irqs, m, list).l0, i) == Bit(m.l0, i)
    ensures i !in list ==> Bit(RefreshAll(ram, irqs, m, list).l1, i) == Bit(m.l1, i)
  {
    if list != [] {
      var n := |list| - 1;
      RefreshAllEffect(ram, irqs, m, list[..n], i);
      RefreshEffect(ram, irqs[list[n]], RefreshAll(ram, irqs, m, list[..n]), list[n]);
      assert list == list[..n] + [list[n]];
    }
  }

  // ----- mapping interrupts -----

  /** watch_sfr has eight slots for each SFR. */
  predicate HasSlot(w: Watch, bit: Option<SfrBit>) {
    bit.Some? ==> |w[bit.value.addr]| < 8
  }

  function AddWatch(w: Watch, bit: Option<SfrBit>, i: IrqIndex): Watch {
    if bit.None? then w else w[bit.value.addr := w[bit.value.addr] + [i]]
  }

  /** The watch lists map_irq leaves. */
  function AddIrq(w: Watch, irq: Irq, i: IrqIndex): Watch {
    AddWatch(AddWatch(AddWatch(w, irq.enable, i), irq.source, i), irq.prio, i)
  }

  /** map_irq gets through: the entry is free and every watch it adds finds a slot. */
  predicate CanMap(irqs: Irqs, w: Watch, irq: Irq, i: IrqIndex) {
    var w1 := AddWatch(w, irq.enable, i);
    irqs[i].source.None? && HasSlot(w, irq.enable) && HasSlot(w1, irq.source) && HasSlot(AddWatch(w1, irq.source, i), irq.prio)
  }

  lemma WatchedBy(w: Watch, irq: Irq, i: IrqIndex, addr: byte)
    ensures forall j :: j in w[addr] ==> j in AddIrq(w, irq, i)[addr]
    ensures Reads(irq, addr) ==> i in AddIrq(w, irq, i)[addr]
    ensures !Reads(irq, addr) ==> AddIrq(w, irq, i)[addr] == w[addr]
  {
  }

  /**
    Mapping an interrupt keeps every watch list complete. The pending masks are not recomputed, so the cache stays
    right exactly when the new interrupt is not pending already.
  */
  lemma MappingKeeps(c: Ctl, irq: Irq, i: IrqIndex)
    requires CanMap(c.irqs, c.watch, irq, i)
    ensures Watching(c.irqs, c.watch) ==> Watching(c.irqs[i := irq], AddIrq(c.watch, irq, i))
    ensures WatchedAreTrapped(c.watch) && (forall addr: byte :: Reads(irq, addr) ==> Trapped(addr)) ==>
            WatchedAreTrapped(AddIrq(c.watch, irq, i))
    ensures Coherent(c.ram, c.irqs, c.masks) ==>
            (Coherent(c.ram, c.irqs[i := irq], c.masks) <==> !Pending(c.ram, irq))
  {
    forall addr: byte
      ensures forall j :: j in c.watch[addr] ==> j in AddIrq(c.watch, irq, i)[addr]
      ensures Reads(irq, addr) ==> i in AddIrq(c.watch, irq, i)[addr]
      ensures !Reads(irq, addr) ==> AddIrq(c.watch, irq, i)[addr] == c.watch[addr]
    {
      WatchedBy(c.watch, irq, i, addr);
    }
    if Coherent(c.ram, c.irqs, c.masks) {
      assert Fresh(c.ram, c.irqs[i], c.masks, i);
      if Coherent(c.ram, c.irqs[i := irq], c.masks) {
        assert Fresh(c.ram, c.irqs[i := irq][i], c.masks, i);
      }
    }
  }

  /** A cleared core with nothing mapped. */
  ghost predicate Blank(c: Ctl) {
    && c.masks == Masks(0, 0)
    && (forall i: IrqIndex :: c.irqs[i] == FREE)
    && (forall addr: byte :: c.watch[addr] == [])
    && (forall k :: 0 <= k < RAM_SIZE ==> c.ram[k] == 0)
  }

  /** The two interrupts main.c maps. */
  const UART0 := Irq(0x23, Some(SfrBit(0xa8, 0x10, 0)), Some(SfrBit(SCON, 0x03, 0)), Some(SfrBit(0xb8, 0x10, 0)))
  const TIMER2 := Irq(0x2b, Some(SfrBit(0xa8, 0x20, 0)), Some(SfrBit(T2CON, 0x80, 0)), Some(SfrBit(0xb8, 0x20, 0)))

  /** main.c's two map_irq calls on a blank core go through, and leave what the coherence theorems ask for. */
  lemma MainMapping(c: Ctl)
    requires Blank(c)
    ensures CanMap(c.irqs, c.watch, UART0, 4)
    ensures var irqs, watch := c.irqs[4 := UART0], AddIrq(c.watch, UART0, 4);
      && CanMap(irqs, watch, TIMER2, 5)
      && var c2 := c.(irqs := irqs[5 := TIMER2], watch := AddIrq(watch, TIMER2, 5));
         SetUp(c2) && MainIrqs(c2.irqs) && Coherent(c2.ram, c2.irqs, c2.masks)
  {
    forall i: IrqIndex
      ensures Fresh(c.ram, c.irqs[i], c.masks, i)
    {
      ZeroBit(i);
    }
    MainInterrupts(c.ram);
    ZeroBit(4);
    ZeroBit(5);
    var c1 := c.(irqs := c.irqs[4 := UART0], watch := AddIrq(c.watch, UART0, 4));
    MappingKeeps(c, UART0, 4);
    assert SetUp(c1) && Coherent(c1.ram, c1.irqs, c1.masks);
    MappingKeeps(c1, TIMER2, 5);
  }

  /** A single-digit mask tests that digit. */
  lemma MaskTest(x: nat, k: nat)
    ensures And(Xor(x, 0), Pow2(k)) != 0 <==> Bit(x, k)
  {
  }

  /** What main.c's masks mean: the UART is pending for ES with RI or TI, timer 2 for ET2 with TF2; IP picks the level. */
  lemma MainInterrupts(ram: Ram)
    ensures Holds(ram, UART0.enable) == Bit(ram[0xa8], 4) && Holds(ram, UART0.prio) == Bit(ram[0xb8], 4)
    ensures Holds(ram, TIMER2.enable) == Bit(ram[0xa8], 5) && Holds(ram, TIMER2.prio) == Bit(ram[0xb8], 5)
    ensures Holds(ram, TIMER2.source) == Bit(ram[T2CON], 7)
    ensures Holds(ram, UART0.source) == (Bit(ram[SCON], RI) || Bit(ram[SCON], TI))
  {
    Pow2Values();
    MaskTest(ram[0xa8], 4);
    MaskTest(ram[0xb8], 4);
    MaskTest(ram[0xa8], 5);
    MaskTest(ram[0xb8], 5);
    MaskTest(ram[T2CON], 7);
    LowPair(ram[SCON]);
  }

  /** sfr_bitval holds exactly when some bit the mask selects differs from its inverted sense. */
  lemma HoldsExactly(ram: Ram, bit: SfrBit)
    ensures Holds(ram, Some(bit)) <==>
      exists i: nat :: Bit(bit.mask, i) && Bit(ram[bit.addr], i) != Bit(bit.xorval, i)
  {
    var x := Xor(ram[bit.addr], bit.xorval);
    forall i: nat
      ensures Bit(And(x, bit.mask), i) == (Bit(bit.mask, i) && Bit(ram[bit.addr], i) != Bit(bit.xorval, i))
    {
      AndBit(x, bit.mask, i);
      XorBit(ram[bit.addr], bit.xorval, i);
    }
    EmptyMask(And(x, bit.mask));
    if Holds(ram, Some(bit)) {
      var i: nat :| Bit(And(x, bit.mask), i);
      assert Bit(bit.mask, i) && Bit(ram[bit.addr], i) != Bit(bit.xorval, i);
    }
  }

  lemma LowPair(x: byte)
    ensures And(Xor(x, 0), 0x03) != 0 <==> Bit(x, 0) || Bit(x, 1)
  {
    assert And(x, 3) == Digit(x % 2 == 1) + 2 * And(x / 2, 1);
    assert And(x / 2, 1) == Digit(x / 2 % 2 == 1) + 2 * And(x / 2 / 2, 0);
  }

  // ----- steps of the machine that touch memory -----

  datatype Ctl = Ctl(ram: Ram, irqs: Irqs, watch: Watch, masks: Masks)

  /** default_ramd_put for an SFR whose put routine leaves `left` in its cell. */
  function Stored(c: Ctl, addr: byte, left: byte): Ctl
  {
    var ram := c.ram[addr := left];
    c.(ram := ram, masks := RefreshAll(ram, c.irqs, c.masks, c.watch[addr]))
  }

  /** writed: a trapped store notifies, an untrapped one does not. */
  function Writed(c: Ctl, addr: byte, left: byte): Ctl
  {
    if Trapped(addr) then Stored(c, addr, left) else c.(ram := c.ram[addr := left])
  }

  lemma WritedMemory(c: Ctl, addr: byte, left: byte)
    ensures Writed(c, addr, left).ram == c.ram[addr := left]
  {
  }

  lemma WriteSbufMemory(c: Ctl, val: byte)
    ensures WriteSbuf(c, val).ram == SetTi(c.ram[SBUF := val])
  {
  }

  /** A direct read, where a trapped SFR's get routine leaves `got` in its cell. */
  function Loaded(c: Ctl, addr: byte, got: byte): Ctl {
    c.(ram := Got(c.ram, addr, got))
  }

  /** readd; `hook` tells whether the board hooks PCON, as rtl8372.lua does. That hook keeps the cell. */
  function ReadDirect(c: Ctl, addr: byte, got: byte, hook: bool): Ctl {
    if hook && addr == PCON then PconHook(c, false) else Loaded(c, addr, got)
  }

  /** writed of `val`, where any other put routine leaves `left` in a trapped SFR's cell. */
  function WriteDirect(c: Ctl, addr: byte, val: byte, left: byte, hook: bool): Ctl {
    if addr == SBUF then WriteSbuf(c, val)
    else if hook && addr == PCON then PconStore(c, val)
    else Writed(c, addr, if Trapped(addr) then left else val)
  }

  /** A write to a hooked PCON. */
  function PconStore(c: Ctl, val: byte): Ctl {
    Stored(PconHook(c.(ram := c.ram[PCON := val]), true), PCON, val)
  }

  lemma PconReadMemory(c: Ctl)
    ensures PconHook(c, false).ram == c.ram
  {
    WritedMemory(c, SCON, c.ram[SCON]);
  }

  lemma PconStoreMemory(c: Ctl, val: byte)
    ensures PconStore(c, val).ram == SetTf2(c.ram[PCON := val])
  {
    var c1 := c.(ram := c.ram[PCON := val]);
    var c2 := Writed(c1, T2CON, UpdateBit(c1.ram[T2CON], 7, true));
    WritedMemory(c1, T2CON, UpdateBit(c1.ram[T2CON], 7, true));
    PconReadMemory(c2);
    assert c2.ram[PCON := val] == c2.ram;
  }

  /** writeb: a read of the byte and a write of it with one digit changed, whatever the two hooks leave. */
  function BitWritten(c: Ctl, bit: byte, value: bool, got: byte, left: byte): Ctl {
    var addr := ByteOf(bit);
    var c1 := Loaded(c, addr, got);
    Writed(c1, addr, if Trapped(addr) then left else UpdateBit(c1.ram[addr], bit % 8, value))
  }

  /** The byte has no hooks, or its hooks leave in the cell what is there and what is stored. */
  predicate HooksKeep(ram: Ram, bit: byte, value: bool, got: byte, left: byte) {
    var addr := ByteOf(bit);
    Trapped(addr) ==> got == ram[addr] && left == UpdateBit(ram[addr], bit % 8, value)
  }

  lemma HooksKeepBit(c: Ctl, bit: byte, value: bool, got: byte, left: byte)
    requires HooksKeep(c.ram, bit, value, got, left)
    ensures BitWritten(c, bit, value, got, left).ram == WriteB(c.ram, bit, value)
  {
    var addr := ByteOf(bit);
    assert c.ram[addr := c.ram[addr]] == c.ram;
    WritedMemory(c, addr, UpdateBit(c.ram[addr], bit % 8, value));
  }

  /** A write to SBUF stores the byte, pokes SCON with TI set, and then notifies SBUF's own watchers. */
  function WriteSbuf(c: Ctl, val: byte): Ctl
  {
    var c1 := c.(ram := c.ram[SBUF := val]);
    var c2 := Writed(c1, SCON, UpdateBit(c1.ram[SCON], TI, true));
    Stored(c2, SBUF, c2.ram[SBUF])
  }

  /**
    The body of sfr_pcon in rtl8372.lua. Its test is `write and (data & 1)`, and in Lua every number is true, so
    each write (not only one with bit 0 set) pokes T2CON; reads and writes both poke SCON with its own value.
  */
  function PconHook(c: Ctl, write: bool): Ctl
  {
    var c1 := if write then Writed(c, T2CON, UpdateBit(c.ram[T2CON], 7, true)) else c;
    Writed(c1, SCON, c1.ram[SCON])
  }

  datatype Step =
    | Write(addr: byte, left: byte)   // writed to any SFR but SBUF and a hooked PCON; `left` is what its hook leaves there
    | Read(addr: byte, left: byte)    // readd; a trapped read's hook may replace an unwatched cell
    | Sbuf(val: byte)
    | PconWrite(val: byte)
    | PconRead
    | Iram(addr: byte, val: byte)     // writei, a register or a stack byte
    | Direct(addr: byte, val: byte)   // ACC, B, PSW, SP and DPTR updates inside instruction bodies
    | Listener(d: byte)               // the UART thread's direct store, when RI is clear

  function Exec(s: Step, c: Ctl): Ctl
  {
    match s
    case Write(addr, left) => Writed(c, addr, left)
    case Read(addr, left) => if Trapped(addr) && c.watch[addr] == [] then c.(ram := c.ram[addr := left]) else c
    case Sbuf(val) => WriteSbuf(c, val)
    case PconWrite(val) => PconStore(c, val)
    case PconRead => PconHook(c, false)
    case Iram(addr, val) => c.(ram := WriteI(c.ram, addr, val))
    case Direct(addr, val) => if Trapped(addr) then c else c.(ram := c.ram[addr := val])
    case Listener(d) =>
      if Bit(c.ram[SCON], RI) then c
      else c.(ram := c.ram[SBUF := d][SCON := UpdateBit(c.ram[SCON], RI, true)])
  }

  /** The one cell each plain step changes. */
  lemma PlainStores(c: Ctl, addr: byte, val: byte)
    ensures Exec(Write(addr, val), c).ram == c.ram[addr := val]
    ensures Exec(Iram(addr, val), c) == c.(ram := c.ram[if addr < 0x80 then addr else addr + 0x80 := val])
    ensures !Trapped(addr) ==> Exec(Write(addr, val), c) == Exec(Direct(addr, val), c) == c.(ram := c.ram[addr := val])
  {
    WritedMemory(c, addr, val);
  }

  /**
    The listener's store, cell by cell: with RI clear the byte is in SBUF, RI is set, and every other cell, every other
    bit of SCON and both masks stay; with RI set nothing changes.
  */
  lemma ListenerStores(c: Ctl, d: byte)
    ensures var e := Exec(Listener(d), c);
      && e.masks == c.masks
      && (forall k :: 0 <= k < RAM_SIZE && k != SBUF && k != SCON ==> e.ram[k] == c.ram[k])
      && (forall i: nat :: i != RI ==> Bit(e.ram[SCON], i) == Bit(c.ram[SCON], i))
      && Bit(e.ram[SCON], RI)
      && e.ram[SBUF] == if Bit(c.ram[SCON], RI) then c.ram[SBUF] else d
  {
    forall i: nat
      ensures Bit(UpdateBit(c.ram[SCON], RI, true), i) == (i == RI || Bit(c.ram[SCON], i))
    {
      BitSetBit(c.ram[SCON], RI, true, i);
    }
  }

  /** A write to SBUF, cell by cell: the byte is in SBUF, TI is set, and every other cell and bit of SCON stays. */
  lemma SbufStores(c: Ctl, val: byte)
    ensures var e := WriteSbuf(c, val);
      && e.ram[SBUF] == val
      && (forall k :: 0 <= k < RAM_SIZE && k != SBUF && k != SCON ==> e.ram[k] == c.ram[k])
      && (forall i: nat :: Bit(e.ram[SCON], i) == (i == TI || Bit(c.ram[SCON], i)))
  {
    WriteSbufMemory(c, val);
    forall i: nat
      ensures Bit(UpdateBit(c.ram[SCON], TI, true), i) == (i == TI || Bit(c.ram[SCON], i))
    {
      BitSetBit(c.ram[SCON], TI, true, i);
    }
  }

  /** A write to a hooked PCON, cell by cell: the byte is in PCON, TF2 is set, and every other cell and bit stays. */
  lemma PconStores(c: Ctl, val: byte)
    ensures var e := PconStore(c, val);
      && e.ram[PCON] == val
      && (forall k :: 0 <= k < RAM_SIZE && k != PCON && k != T2CON ==> e.ram[k] == c.ram[k])
      && (forall i: nat :: Bit(e.ram[T2CON], i) == (i == 7 || Bit(c.ram[T2CON], i)))
  {
    PconStoreMemory(c, val);
    forall i: nat
      ensures Bit(UpdateBit(c.ram[T2CON], 7, true), i) == (i == 7 || Bit(c.ram[T2CON], i))
    {
      BitSetBit(c.ram[T2CON], 7, true, i);
    }
  }

  /** Everything the two theorems below need of a controller's set-up; no step changes it. */
  ghost predicate SetUp(c: Ctl) {
    Watching(c.irqs, c.watch) && WatchedAreTrapped(c.watch)
  }

  /** Interrupts that read SCON or SBUF may be stale after the listener ran; the others never are. */
  ghost predicate CoherentButUart(c: Ctl) {
    forall i: IrqIndex :: !Reads(c.irqs[i], SCON) && !Reads(c.irqs[i], SBUF) ==> Fresh(c.ram, c.irqs[i], c.masks, i)
  }

  /** A cell an interrupt does not read does not matter to it. */
  lemma OtherCell(ram: Ram, irq: Irq, m: Masks, i: nat, cell: nat, val: byte)
    requires cell < RAM_SIZE && (cell < 0x100 ==> !Reads(irq, cell))
    ensures Fresh(ram[cell := val], irq, m, i) == Fresh(ram, irq, m, i)
  {
  }

  lemma StoredFresh(c: Ctl, addr: byte, left: byte, i: IrqIndex)
    requires SetUp(c)
    requires Fresh(c.ram, c.irqs[i], c.masks, i) || Reads(c.irqs[i], addr)
    ensures Fresh(Stored(c, addr, left).ram, c.irqs[i], Stored(c, addr, left).masks, i)
  {
    RefreshAllEffect(c.ram[addr := left], c.irqs, c.masks, c.watch[addr], i);
    if i !in c.watch[addr] {
      OtherCell(c.ram, c.irqs[i], c.masks, i, addr, left);
    }
  }

  lemma WritedFresh(c: Ctl, addr: byte, left: byte, i: IrqIndex)
    requires SetUp(c)
    requires Fresh(c.ram, c.irqs[i], c.masks, i) || (Reads(c.irqs[i], addr) && Trapped(addr))
    ensures Fresh(Writed(c, addr, left).ram, c.irqs[i], Writed(c, addr, left).masks, i)
  {
    if Trapped(addr) {
      StoredFresh(c, addr, left, i);
    } else {
      assert c.watch[addr] == [];
      OtherCell(c.ram, c.irqs[i], c.masks, i, addr, left);
    }
  }

  lemma PconHookFresh(c: Ctl, write: bool, i: IrqIndex)
    requires SetUp(c)
    requires Fresh(c.ram, c.irqs[i], c.masks, i) || Reads(c.irqs[i], SCON)
    ensures Fresh(PconHook(c, write).ram, c.irqs[i], PconHook(c, write).masks, i)
  {
    var c1 := if write then Writed(c, T2CON, UpdateBit(c.ram[T2CON], 7, true)) else c;
    if write && Fresh(c.ram, c.irqs[i], c.masks, i) {
      WritedFresh(c, T2CON, UpdateBit(c.ram[T2CON], 7, true), i);
    }
    WritedFresh(c1, SCON, c1.ram[SCON], i);
  }

  lemma SbufFresh(c: Ctl, val: byte, i: IrqIndex)
    requires SetUp(c)
    requires Fresh(c.ram, c.irqs[i], c.masks, i)
    ensures Fresh(WriteSbuf(c, val).ram, c.irqs[i], WriteSbuf(c, val).masks, i)
  {
    var c1 := c.(ram := c.ram[SBUF := val]);
    if !Reads(c.irqs[i], SBUF) {
      OtherCell(c.ram, c.irqs[i], c.masks, i, SBUF, val);
      WritedFresh(c1, SCON, UpdateBit(c1.ram[SCON], TI, true), i);
    }
    var c2 := Writed(c1, SCON, UpdateBit(c1.ram[SCON], TI, true));
    StoredFresh(c2, SBUF, c2.ram[SBUF], i);
  }

  lemma PconFresh(c: Ctl, s: Step, i: IrqIndex)
    requires SetUp(c) && (s.PconWrite? || s.PconRead?)
    requires Fresh(c.ram, c.irqs[i], c.masks, i) || Reads(c.irqs[i], SCON)
    ensures Fresh(Exec(s, c).ram, c.irqs[i], Exec(s, c).masks, i)
  {
    if s.PconRead? {
      PconHookFresh(c, false, i);
    } else {
      var c1 := c.(ram := c.ram[PCON := s.val]);
      if Reads(c.irqs[i], PCON) {
        var c2 := PconHook(c1, true);
        StoredFresh(c2, PCON, s.val, i);
      } else {
        OtherCell(c.ram, c.irqs[i], c.masks, i, PCON, s.val);
        PconHookFresh(c1, true, i);
        StoredFresh(PconHook(c1, true), PCON, s.val, i);
      }
    }
  }

  lemma CpuStepFresh(s: Step, c: Ctl, i: IrqIndex)
    requires SetUp(c) && !s.Listener?
    requires Fresh(c.ram, c.irqs[i], c.masks, i)
    ensures Fresh(Exec(s, c).ram, c.irqs[i], Exec(s, c).masks, i)
  {
    match s
    case Write(addr, left) => WritedFresh(c, addr, left, i);
    case Read(addr, left) =>
      if Trapped(addr) && c.watch[addr] == [] {
        assert !Reads(c.irqs[i], addr);
        OtherCell(c.ram, c.irqs[i], c.masks, i, addr, left);
      }
    case Sbuf(val) => SbufFresh(c, val, i);
    case PconWrite(_) => PconFresh(c, s, i);
    case PconRead => PconFresh(c, s, i);
    case Iram(addr, val) =>
      assert Cell(addr) < 0x100 ==> c.watch[addr] == [];
      OtherCell(c.ram, c.irqs[i], c.masks, i, Cell(addr), val);
    case Direct(addr, val) =>
      if !Trapped(addr) {
        assert c.watch[addr] == [];
        OtherCell(c.ram, c.irqs[i], c.masks, i, addr, val);
      }
  }

  lemma StepKeepsSetUp(s: Step, c: Ctl)
    requires SetUp(c)
    ensures Exec(s, c).irqs == c.irqs && Exec(s, c).watch == c.watch && SetUp(Exec(s, c))
  {
  }

  function Run(steps: seq<Step>, c: Ctl): Ctl {
    if steps == [] then c else Run(steps[1..], Exec(steps[0], c))
  }

  /** CPU-side steps of any kind and number keep both cached masks equal to what the SFR bytes say. */
  lemma {:induction false} CpuRunKeepsCoherence(steps: seq<Step>, c: Ctl)
    requires SetUp(c) && Coherent(c.ram, c.irqs, c.masks)
    requires forall s :: s in steps ==> !s.Listener?
    ensures var e := Run(steps, c); e.irqs == c.irqs && Coherent(e.ram, e.irqs, e.masks)
  {
    if steps != [] {
      var c1 := Exec(steps[0], c);
      StepKeepsSetUp(steps[0], c);
      forall i: IrqIndex
        ensures Fresh(c1.ram, c1.irqs[i], c1.masks, i)
      {
        CpuStepFresh(steps[0], c, i);
      }
      CpuRunKeepsCoherence(steps[1..], c1);
    }
  }

  /** No interrupt is ever cached at both levels. */
  lemma CoherentMasksDisjoint(c: Ctl, i: IrqIndex)
    requires Coherent(c.ram, c.irqs, c.masks)
    ensures !(Bit(c.masks.l0, i) && Bit(c.masks.l1, i))
  {
    assert Fresh(c.ram, c.irqs[i], c.masks, i);
  }

  lemma {:induction false} RunKeepsCoherenceButUart(steps: seq<Step>, c: Ctl)
    requires SetUp(c) && CoherentButUart(c)
    ensures var e := Run(steps, c); e.irqs == c.irqs && e.watch == c.watch && SetUp(e) && CoherentButUart(e)
  {
    if steps != [] {
      var s, c1 := steps[0], Exec(steps[0], c);
      StepKeepsSetUp(s, c);
      forall i: IrqIndex | !Reads(c.irqs[i], SCON) && !Reads(c.irqs[i], SBUF)
        ensures Fresh(c1.ram, c1.irqs[i], c1.masks, i)
      {
        if s.Listener? {
          OtherCell(c.ram, c.irqs[i], c.masks, i, SBUF, s.d);
          OtherCell(c.ram[SBUF := s.d], c.irqs[i], c.masks, i, SCON, UpdateBit(c.ram[SCON], RI, true));
        } else {
          CpuStepFresh(s, c, i);
        }
      }
      RunKeepsCoherenceButUart(steps[1..], c1);
    }
  }

  /**
    The listener's store goes past the notifiers, so the cache may be stale for the UART until the next notified
    SCON write. However many listener and CPU steps interleave, one access to PCON makes the cache right again.
  */
  lemma PconRestoresCoherence(steps: seq<Step>, c: Ctl, s: Step)
    requires SetUp(c) && CoherentButUart(c)
    requires s.PconWrite? || s.PconRead?
    requires forall i: IrqIndex :: Reads(c.irqs[i], SBUF) ==> Reads(c.irqs[i], SCON)
    ensures var e := Exec(s, Run(steps, c)); Coherent(e.ram, e.irqs, e.masks)
  {
    RunKeepsCoherenceButUart(steps, c);
    var c1 := Run(steps, c);
    StepKeepsSetUp(s, c1);
    forall i: IrqIndex
      ensures Fresh(Exec(s, c1).ram, c1.irqs[i], Exec(s, c1).masks, i)
    {
      PconFresh(c1, s, i);
    }
  }

  function Listeners(bytes: seq<byte>): seq<Step> {
    seq(|bytes|, i requires 0 <= i < |bytes| => Listener(bytes[i]))
  }

  /**
    The hook's poke of SCON is no single step to the listener: it loads SCON, stores the value and notifies. Whatever
    value it stores, and whatever the listener stores between those accesses, the notification makes the cache right.
  */
  lemma SplitPokeRestoresCoherence(steps: seq<Step>, c: Ctl, val: byte, between: seq<byte>)
    requires SetUp(c) && CoherentButUart(c)
    requires forall i: IrqIndex :: Reads(c.irqs[i], SBUF) ==> Reads(c.irqs[i], SCON)
    ensures var c1 := Run(steps, c);
      var c2 := Run(Listeners(between), c1.(ram := c1.ram[SCON := val]));
      Coherent(c2.ram, c2.irqs, RefreshAll(c2.ram, c2.irqs, c2.masks, c2.watch[SCON]))
  {
    RunKeepsCoherenceButUart(steps, c);
    var c1 := Run(steps, c);
    var stored := c1.(ram := c1.ram[SCON := val]);
    forall i: IrqIndex | !Reads(c.irqs[i], SCON) && !Reads(c.irqs[i], SBUF)
      ensures Fresh(stored.ram, stored.irqs[i], stored.masks, i)
    {
      OtherCell(c1.ram, c1.irqs[i], c1.masks, i, SCON, val);
    }
    RunKeepsCoherenceButUart(Listeners(between), stored);
    var c2 := Run(Listeners(between), stored);
    forall i: IrqIndex
      ensures Fresh(c2.ram, c2.irqs[i], RefreshAll(c2.ram, c2.irqs, c2.masks, c2.watch[SCON]), i)
    {
      RefreshAllEffect(c2.ram, c2.irqs, c2.masks, c2.watch[SCON], i);
    }
  }

  /** The interrupts main.c maps, and no others. */
  ghost predicate MainIrqs(irqs: Irqs) {
    irqs[4] == UART0 && irqs[5] == TIMER2 && forall i: IrqIndex :: i != 4 && i != 5 ==> irqs[i] == FREE
  }

  predicate Harmless(c: Ctl) {
    Bit(c.ram[SCON], RI) || Bit(c.ram[SCON], TI) || !Bit(c.ram[0xa8], 4)
  }

  /**
    Under main.c's mapping the listener's store leaves the cache right exactly when it has no effect, because RI is
    set already, or the UART interrupt was pending already for TI, or ES is clear.
  */
  lemma ListenerCoherence(c: Ctl, d: byte)
    requires MainIrqs(c.irqs) && Coherent(c.ram, c.irqs, c.masks)
    ensures var e := Exec(Listener(d), c);
      Coherent(e.ram, e.irqs, e.masks) <==> Harmless(c)
  {
    var e := Exec(Listener(d), c);
    MainInterrupts(c.ram);
    MainInterrupts(e.ram);
    BitSetBit(c.ram[SCON], RI, true, RI);
    BitSetBit(c.ram[SCON], RI, true, TI);
    assert Fresh(c.ram, c.irqs[4], c.masks, 4);
    if Coherent(e.ram, e.irqs, e.masks) {
      assert Fresh(e.ram, e.irqs[4], e.masks, 4);
    } else {
      var i: IrqIndex :| !Fresh(e.ram, e.irqs[i], e.masks, i);
      assert Fresh(c.ram, c.irqs[i], c.masks, i);
    }
  }

  predicate AllHarmless(steps: seq<Step>, c: Ctl) {
    steps == [] || ((steps[0].Listener? ==> Harmless(c)) && AllHarmless(steps[1..], Exec(steps[0], c)))
  }

  ghost predicate CoherentThroughout(steps: seq<Step>, c: Ctl) {
    Coherent(c.ram, c.irqs, c.masks) && (steps == [] || CoherentThroughout(steps[1..], Exec(steps[0], c)))
  }

  /** Over any run of both threads the cache is right throughout exactly when every listener store meets that condition. */
  lemma {:induction false} ListenerRunCoherence(steps: seq<Step>, c: Ctl)
    requires SetUp(c) && MainIrqs(c.irqs) && Coherent(c.ram, c.irqs, c.masks)
    ensures CoherentThroughout(steps, c) <==> AllHarmless(steps, c)
  {
    if steps != [] {
      var c1 := Exec(steps[0], c);
      StepKeepsSetUp(steps[0], c);
      if steps[0].Listener? {
        ListenerCoherence(c, steps[0].d);
      } else {
        CpuRunKeepsCoherence([steps[0]], c);
        assert Run([steps[0]], c) == Run([], c1);
      }
      if Coherent(c1.ram, c1.irqs, c1.masks) {
        ListenerRunCoherence(steps[1..], c1);
      }
    }
  }

  /** So it can: once ES is set on a cleared core, a received byte is pending and neither mask shows it. */
  lemma ListenerCanBreakCoherence(c: Ctl, d: byte)
    requires MainIrqs(c.irqs) && SetUp(c) && Coherent(c.ram, c.irqs, c.masks) && !Bit(c.ram[SCON], RI) && !Bit(c.ram[SCON], TI)
    ensures var ie := UpdateBit(c.ram[0xa8], 4, true);
      var e := Exec(Listener(d), Exec(Write(0xa8, ie), c));
      && Pending(e.ram, UART0)
      && !Bit(e.masks.l0, 4) && !Bit(e.masks.l1, 4)
  {
    var ie := UpdateBit(c.ram[0xa8], 4, true);
    BitSetBit(c.ram[0xa8], 4, true, 4);
    var c1 := Exec(Write(0xa8, ie), c);
    CpuStepFresh(Write(0xa8, ie), c, 4);
    var e := Exec(Listener(d), c1);
    BitSetBit(c1.ram[SCON], RI, true, RI);
    MainInterrupts(c1.ram);
    MainInterrupts(e.ram);
  }

  // ----- acceptance and nesting -----

  /** `31 - __builtin_clz(mask)` */
  function HighestBit(mask: nat): (b: nat)
    requires mask > 0
    ensures Bit(mask, b) && forall j: nat :: j > b ==> !Bit(mask, j)
  {
    if mask == 1 then
      OneBits();
      0
    else
      var b := 1 + HighestBit(mask / 2);
      assert forall j: nat :: j > b ==> Bit(mask, j) == Bit(mask / 2, j - 1);
      b
  }

  lemma OneBits()
    ensures forall j: nat :: j > 0 ==> !Bit(1, j)
  {
    forall j: nat | j > 0
      ensures !Bit(1, j)
    {
      ZeroBit(j - 1);
    }
  }

  /** The level handle_irq accepts, if any: only the highest pending level is tried. */
  function AcceptedLevel(m: Masks, irqlevel: nat): Option<nat> {
    if m.l1 != 0 then (if irqlevel >= 2 then None else Some(1))
    else if m.l0 != 0 then (if irqlevel >= 1 then None else Some(0))
    else None
  }

  /** The level mask after nextop has looked at the masks with EA as given. */
  function LevelAfter(m: Masks, ea: bool, irqlevel: nat): nat {
    if ea && AcceptedLevel(m, irqlevel).Some? then SetBit(irqlevel, AcceptedLevel(m, irqlevel).value, true) else irqlevel
  }

  /** Whatever happens between two instruction fetches may change the masks and EA in any way. */
  datatype Event = Fetch(masks: Masks, ea: bool) | Reti

  function LevelMask(m: Masks, level: nat): nat {
    if level == 1 then m.l1 else m.l0
  }

  /** An accepted interrupt. */
  datatype Accept = Accept(level: nat, index: nat)

  function Accepted(m: Masks, irqlevel: nat): Option<Accept> {
    match AcceptedLevel(m, irqlevel)
    case None => None
    case Some(level) => Some(Accept(level, HighestBit(LevelMask(m, level))))
  }

  /** An acceptance takes the highest-numbered pending interrupt of the highest pending level. */
  lemma AcceptedIsHighest(m: Masks, irqlevel: nat)
    requires Accepted(m, irqlevel).Some?
    ensures var a := Accepted(m, irqlevel).value;
      && (a.level == 1 <==> m.l1 != 0)
      && Bit(LevelMask(m, a.level), a.index)
      && (forall j: nat :: Bit(LevelMask(m, a.level), j) ==> j <= a.index)
      && irqlevel < Pow2(a.level)
  {
  }

  /** The masks are uint32_t. */
  predicate Bounded(m: Masks) {
    m.l0 < Pow2(32) && m.l1 < Pow2(32)
  }

  lemma {:induction false} RefreshBounded(ram: Ram, irqs: Irqs, m: Masks, list: seq<IrqIndex>)
    requires Bounded(m)
    ensures Bounded(RefreshAll(ram, irqs, m, list))
  {
    if list != [] {
      var n := |list| - 1;
      RefreshBounded(ram, irqs, m, list[..n]);
      var before, irq := RefreshAll(ram, irqs, m, list[..n]), irqs[list[n]];
      SetBitBound(before.l0, list[n], Pending(ram, irq) && !Holds(ram, irq.prio), 32);
      SetBitBound(before.l1, list[n], Pending(ram, irq) && Holds(ram, irq.prio), 32);
    }
  }

  lemma WritedBounded(c: Ctl, addr: byte, left: byte)
    requires Bounded(c.masks)
    ensures Bounded(Writed(c, addr, left).masks) && Bounded(Stored(c, addr, left).masks)
  {
    RefreshBounded(c.ram[addr := left], c.irqs, c.masks, c.watch[addr]);
  }

  lemma HookBounded(c: Ctl, write: bool)
    requires Bounded(c.masks)
    ensures Bounded(PconHook(c, write).masks)
  {
    var c1 := if write then Writed(c, T2CON, UpdateBit(c.ram[T2CON], 7, true)) else c;
    WritedBounded(c, T2CON, UpdateBit(c.ram[T2CON], 7, true));
    WritedBounded(c1, SCON, c1.ram[SCON]);
  }

  lemma StepBounded(s: Step, c: Ctl)
    requires Bounded(c.masks)
    ensures Bounded(Exec(s, c).masks)
  {
    match s
    case Write(addr, left) => WritedBounded(c, addr, left);
    case Sbuf(val) =>
      var c1 := c.(ram := c.ram[SBUF := val]);
      var c2 := Writed(c1, SCON, UpdateBit(c1.ram[SCON], TI, true));
      WritedBounded(c1, SCON, UpdateBit(c1.ram[SCON], TI, true));
      WritedBounded(c2, SBUF, c2.ram[SBUF]);
    case PconWrite(val) =>
      var c1 := c.(ram := c.ram[PCON := val]);
      HookBounded(c1, true);
      WritedBounded(PconHook(c1, true), PCON, val);
    case PconRead => HookBounded(c, false);
    case _ =>
  }

  lemma {:induction false} RunBounded(steps: seq<Step>, c: Ctl)
    requires Bounded(c.masks)
    ensures Bounded(Run(steps, c).masks)
  {
    if steps != [] {
      StepBounded(steps[0], c);
      RunBounded(steps[1..], Exec(steps[0], c));
    }
  }

  /** Interrupt i is pending at a level by the SFR bytes themselves. */
  predicate PendingAt(ram: Ram, irq: Irq, level: nat) {
    Pending(ram, irq) && (Holds(ram, irq.prio) <==> level == 1)
  }

  /**
    After any run of CPU-side steps, what the masks make the core accept is what the SFR bytes call for: an interrupt
    that is enabled, with its source set and at the accepted level, none of that level with a higher number, and no
    level 1 interrupt at all when level 0 is accepted.
  */
  lemma AcceptedIsPending(steps: seq<Step>, c: Ctl, irqlevel: nat)
    requires SetUp(c) && Coherent(c.ram, c.irqs, c.masks) && Bounded(c.masks)
    requires forall s :: s in steps ==> !s.Listener?
    requires Accepted(Run(steps, c).masks, irqlevel).Some?
    ensures var e := Run(steps, c); var a := Accepted(e.masks, irqlevel).value;
      && a.index < 32
      && PendingAt(e.ram, c.irqs[a.index], a.level)
      && (forall j: IrqIndex :: PendingAt(e.ram, c.irqs[j], a.level) ==> j <= a.index)
      && (a.level == 0 ==> forall j: IrqIndex :: !PendingAt(e.ram, c.irqs[j], 1))
  {
    CpuRunKeepsCoherence(steps, c);
    RunBounded(steps, c);
    var e := Run(steps, c);
    var a := Accepted(e.masks, irqlevel).value;
    AcceptedIsHighest(e.masks, irqlevel);
    HighBitsClear(LevelMask(e.masks, a.level), 32, a.index);
    assert Fresh(e.ram, e.irqs[a.index], e.masks, a.index);
    forall j: IrqIndex
      ensures PendingAt(e.ram, c.irqs[j], a.level) ==> j <= a.index
      ensures a.level == 0 ==> !PendingAt(e.ram, c.irqs[j], 1)
    {
      assert Fresh(e.ram, e.irqs[j], e.masks, j);
      ZeroBit(j);
    }
  }

  /** Both pending masks read off the SFR bytes, under main.c's mapping: bit 4 for the UART, bit 5 for timer 2. */
  lemma MainMasks(c: Ctl, i: nat)
    requires MainIrqs(c.irqs) && Coherent(c.ram, c.irqs, c.masks) && Bounded(c.masks)
    ensures var uart := Bit(c.ram[0xa8], 4) && (Bit(c.ram[SCON], 0) || Bit(c.ram[SCON], 1));
      var timer := Bit(c.ram[0xa8], 5) && Bit(c.ram[T2CON], 7);
      && Bit(c.masks.l1, i) == ((i == 4 && uart && Bit(c.ram[0xb8], 4)) || (i == 5 && timer && Bit(c.ram[0xb8], 5)))
      && Bit(c.masks.l0, i) == ((i == 4 && uart && !Bit(c.ram[0xb8], 4)) || (i == 5 && timer && !Bit(c.ram[0xb8], 5)))
  {
    MainInterrupts(c.ram);
    if i < 32 {
      assert Fresh(c.ram, c.irqs[i], c.masks, i);
    } else {
      if Bit(c.masks.l1, i) {
        HighBitsClear(c.masks.l1, 32, i);
      }
      if Bit(c.masks.l0, i) {
        HighBitsClear(c.masks.l0, 32, i);
      }
    }
  }

  /** A mask is empty exactly when no bit is set. */
  lemma EmptyMask(mask: nat)
    ensures mask == 0 ==> forall i: nat :: !Bit(mask, i)
    ensures mask != 0 ==> exists i: nat :: Bit(mask, i)
  {
    if mask == 0 {
      forall i: nat
        ensures !Bit(mask, i)
      {
        ZeroBit(i);
      }
    } else {
      var b := HighestBit(mask);
      assert Bit(mask, b);
    }
  }

  /** An acceptance happens exactly when the highest pending level is above every level in service. */
  lemma AcceptsExactly(m: Masks, irqlevel: nat)
    ensures Accepted(m, irqlevel).Some? <==>
      ((exists i: nat :: Bit(m.l1, i)) && irqlevel < 2) ||
      ((forall i: nat :: !Bit(m.l1, i)) && (exists i: nat :: Bit(m.l0, i)) && irqlevel == 0)
  {
    EmptyMask(m.l1);
    EmptyMask(m.l0);
  }

  /** main.c's interrupt taken for the given pending bits and priorities: its level and number. */
  lemma MainAccepted(c: Ctl, irqlevel: nat)
    requires MainIrqs(c.irqs) && Coherent(c.ram, c.irqs, c.masks) && Bounded(c.masks)
    ensures var uart := Bit(c.ram[0xa8], 4) && (Bit(c.ram[SCON], 0) || Bit(c.ram[SCON], 1));
      var timer := Bit(c.ram[0xa8], 5) && Bit(c.ram[T2CON], 7);
      var highUart, highTimer := uart && Bit(c.ram[0xb8], 4), timer && Bit(c.ram[0xb8], 5);
      Accepted(c.masks, irqlevel) ==
        if highUart || highTimer then (if irqlevel < 2 then Some(Accept(1, if highTimer then 5 else 4)) else None)
        else if uart || timer then (if irqlevel == 0 then Some(Accept(0, if timer then 5 else 4)) else None)
        else None
  {
    forall i: nat
      ensures var uart := Bit(c.ram[0xa8], 4) && (Bit(c.ram[SCON], 0) || Bit(c.ram[SCON], 1));
        var timer := Bit(c.ram[0xa8], 5) && Bit(c.ram[T2CON], 7);
        && Bit(c.masks.l1, i) == ((i == 4 && uart && Bit(c.ram[0xb8], 4)) || (i == 5 && timer && Bit(c.ram[0xb8], 5)))
        && Bit(c.masks.l0, i) == ((i == 4 && uart && !Bit(c.ram[0xb8], 4)) || (i == 5 && timer && !Bit(c.ram[0xb8], 5)))
    {
      MainMasks(c, i);
    }
    EmptyMask(c.masks.l1);
    EmptyMask(c.masks.l0);
  }

  /**
    The level mask, what was accepted since the last RETI, and the levels of all handlers entered and not returned
    from, innermost last.
  */
  datatype Nest = Nest(irqlevel: nat, accepted: seq<Accept>, unfinished: seq<nat>)

  /** RETI falls through every case of irqlevel_reti and so always ends at level mask 0. */
  function NestStep(e: Event, n: Nest): Nest {
    match e
    case Fetch(m, ea) =>
      var a := if ea then Accepted(m, n.irqlevel) else None;
      Nest(LevelAfter(m, ea, n.irqlevel),
           if a.Some? then n.accepted + [a.value] else n.accepted,
           if a.Some? then n.unfinished + [a.value.level] else n.unfinished)
    case Reti => Nest(0, [], if n.unfinished == [] then [] else n.unfinished[..|n.unfinished| - 1])
  }

  function NestRun(es: seq<Event>, n: Nest): Nest {
    if es == [] then n else NestRun(es[1..], NestStep(es[0], n))
  }

  function Levels(accepted: seq<Accept>): seq<nat> {
    seq(|accepted|, i requires 0 <= i < |accepted| => accepted[i].level)
  }

  /** irqlevel tells exactly which levels were accepted since the last RETI, and in which order. */
  predicate NestOk(n: Nest) {
    var levels := Levels(n.accepted);
    || (n.irqlevel == 0 && levels == [])
    || (n.irqlevel == 1 && levels == [0])
    || (n.irqlevel == 2 && levels == [1])
    || (n.irqlevel == 3 && levels == [0, 1])
  }

  lemma LevelValues()
    ensures SetBit(0, 0, true) == 1 && SetBit(0, 1, true) == 2 && SetBit(1, 1, true) == 3
  {
  }

  /** Interrupt frames pushed for the accepted interrupts: handle_irq pushes nothing for a zero vector. */
  function FrameBytes(accepted: seq<Accept>, vec: nat -> word): nat {
    if accepted == [] then 0
    else (if vec(accepted[0].index) > 0 then 2 else 0) + FrameBytes(accepted[1..], vec)
  }

  lemma {:induction false} FrameBytesBound(accepted: seq<Accept>, vec: nat -> word)
    ensures FrameBytes(accepted, vec) <= 2 * |accepted|
  {
    if accepted != [] {
      FrameBytesBound(accepted[1..], vec);
    }
  }

  lemma NestStepOk(e: Event, n: Nest)
    requires NestOk(n)
    ensures NestOk(NestStep(e, n))
  {
    LevelValues();
    if e.Fetch? && e.ea && Accepted(e.masks, n.irqlevel).Some? {
      var a := Accepted(e.masks, n.irqlevel).value;
      assert Levels(n.accepted + [a]) == Levels(n.accepted) + [a.level];
    }
  }

  /**
    In every run, irqlevel stays in 0..3; since the last RETI at most two interrupts were accepted, and when two
    were, the first was level 0 and the second level 1; their frames take at most four bytes.
  */
  lemma {:induction false} NestingBounded(es: seq<Event>, n: Nest, vec: nat -> word)
    requires NestOk(n)
    ensures NestOk(NestRun(es, n))
    ensures FrameBytes(NestRun(es, n).accepted, vec) <= 4
  {
    if es != [] {
      NestStepOk(es[0], n);
      NestingBounded(es[1..], NestStep(es[0], n), vec);
    } else {
      FrameBytesBound(n.accepted, vec);
      assert |n.accepted| == |Levels(n.accepted)|;
    }
  }

  /** irqlevel has exactly the levels of the unfinished handlers: what the mask is for. */
  predicate Shows(n: Nest) {
    || (n.irqlevel == 0 && n.unfinished == [])
    || (n.irqlevel == 1 && n.unfinished == [0])
    || (n.irqlevel == 2 && n.unfinished == [1])
    || (n.irqlevel == 3 && n.unfinished == [0, 1])
  }

  predicate ShowsThroughout(es: seq<Event>, n: Nest) {
    Shows(n) && (es == [] || ShowsThroughout(es[1..], NestStep(es[0], n)))
  }

  /** No RETI is executed with both levels in service. */
  predicate NoInnerReti(es: seq<Event>, n: Nest) {
    es == [] || (!(es[0].Reti? && n.irqlevel == 3) && NoInnerReti(es[1..], NestStep(es[0], n)))
  }

  lemma StepShows(e: Event, n: Nest)
    requires Shows(n)
    ensures Shows(NestStep(e, n)) <==> !(e.Reti? && n.irqlevel == 3)
  {
    LevelValues();
  }

  /**
    RETI takes every level out of service, and not only the returning handler's. Over any run the mask shows the
    unfinished handlers throughout exactly when no handler returns to one it interrupted.
  */
  lemma {:induction false} RetiExact(es: seq<Event>, n: Nest)
    requires Shows(n)
    ensures ShowsThroughout(es, n) <==> NoInnerReti(es, n)
  {
    if es != [] {
      StepShows(es[0], n);
      if Shows(NestStep(es[0], n)) {
        RetiExact(es[1..], NestStep(es[0], n));
      }
    }
  }

  /** A level 0 interrupt, a level 1 interrupt inside it, and the return from that one. */
  const ROUND: seq<Event> := [Fetch(Masks(1, 0), true), Fetch(Masks(0, 1), true), Reti]

  function Rounds(d: nat): seq<Event> {
    if d == 0 then [] else ROUND + Rounds(d - 1)
  }

  /**
    So the bound above holds between RETIs only. Each round leaves its level 0 handler unfinished and the mask 0, and
    across rounds the unfinished handlers grow without bound.
  */
  lemma {:induction false} NestingAcrossReti(d: nat, n: Nest)
    requires n.irqlevel == 0
    ensures |NestRun(Rounds(d), n).unfinished| == |n.unfinished| + d
    decreases d
  {
    if d > 0 {
      LevelValues();
      var es, rest := Rounds(d), Rounds(d - 1);
      assert es[1..][1..][1..] == rest;
      var n1 := NestStep(es[0], n);
      var n2 := NestStep(es[1], n1);
      var n3 := NestStep(es[2], n2);
      assert n1.irqlevel == 1 && n3.irqlevel == 0 && |n3.unfinished| == |n.unfinished| + 1;
      assert NestRun(es, n) == NestRun(es[1..], n1) == NestRun(es[1..][1..], n2) == NestRun(rest, n3);
      NestingAcrossReti(d - 1, n3);
    }
  }
}

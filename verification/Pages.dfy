/**
  Paged code and external memory (core.c map_rom, map_xram, map_xram_ro, readc, readx, writex), the bank-switch
  hooks of rtl8367s.lua and the external stack behind SSIO.
*/
module Pages {
  import opened Bits

  const SRAM_SIZE := 0xc000

  datatype Buffer = Rom | Sram

  /** An entry of rompage or xrampage: NULL, or a pointer to byte `base` of a buffer. */
  datatype Page = Unmapped | At(buf: Buffer, base: nat)

  type Table = s: seq<Page> | |s| == 0x100 witness seq(0x100, _ => Unmapped)
  type Flags = s: seq<bool> | |s| == 0x100 witness seq(0x100, _ => false)

  /** External memory: the page table, which pages go to writex_ro, the two buffers, and the last DATA_BANK. */
  datatype Xram = Xram(page: Table, ro: Flags, sram: seq<byte>, rom: seq<byte>, bank: byte)

  /** How many pages p lies after start, the uint8_t page number wrapping. */
  function PageIndex(start: byte, p: int): byte {
    U8(p - start)
  }

  function MappedEntry(was: Page, i: nat, buf: Buffer, len: nat, ofs: nat): Page {
    if i < len then At(buf, (i + ofs) * 0x100) else was
  }

  /** Pages start .. start + len - 1, wrapping as the uint8_t page number does, point at consecutive buffer pages. */
  function Mapped(t: Table, buf: Buffer, start: byte, len: nat, ofs: nat): Table
    requires len <= 0x100
  {
    seq(0x100, p requires 0 <= p < 0x100 => MappedEntry(t[p], PageIndex(start, p), buf, len, ofs))
  }

  function Flagged(f: Flags, start: byte, len: nat, v: bool): Flags
    requires len <= 0x100
  {
    seq(0x100, p requires 0 <= p < 0x100 => if PageIndex(start, p) < len then v else f[p])
  }

  function Contents(x: Xram, buf: Buffer): seq<byte> {
    if buf.Rom? then x.rom else x.sram
  }

  /** The access stays inside the buffer; the C code relies on it. */
  predicate InBuffer(x: Xram, addr: word) {
    var p := x.page[addr / 0x100];
    p.Unmapped? || p.base + addr % 0x100 < |Contents(x, p.buf)|
  }

  function ReadX(x: Xram, addr: word): byte
    requires InBuffer(x, addr)
  {
    var p := x.page[addr / 0x100];
    if p.Unmapped? then 0xff else Contents(x, p.buf)[p.base + addr % 0x100]
  }

  function WriteX(x: Xram, addr: word, val: byte): Xram
    requires InBuffer(x, addr)
  {
    var p := x.page[addr / 0x100];
    if x.ro[addr / 0x100] || p.Unmapped? then x
    else if p.buf.Rom? then x.(rom := x.rom[p.base + addr % 0x100 := val])
    else x.(sram := x.sram[p.base + addr % 0x100 := val])
  }

  function SetDataBank(x: Xram, bank: byte): Xram {
    if bank == 0 then
      x.(page := Mapped(x.page, Sram, 0, 0xc0, 0), ro := Flagged(x.ro, 0, 0xc0, false), bank := bank)
    else
      x.(page := Mapped(x.page, Rom, 0x40, 0xc0, 0x40 + bank * 0x100), ro := Flagged(x.ro, 0x40, 0xc0, true), bank := bank)
  }

  // ----- bank switching and memory safety -----

  /** Addresses that reach SRAM: the low quarter always, the rest below 0xc000 in bank 0. */
  predicate SramMapped(addr: word, bank: byte) {
    addr < 0x4000 || (bank == 0 && addr < 0xc000)
  }

  /** The page a table holds after any sequence of bank switches from the start-up mapping. */
  predicate PageOk(page: Page, ro: bool, p: nat, bank: byte) {
    if p < 0x40 || (p < 0xc0 && bank == 0) then page == At(Sram, p * 0x100) && !ro
    else if bank > 0 then page == At(Rom, bank * 0x1_0000 + p * 0x100) && ro
    else page.Unmapped? || (page.buf.Rom? && ro)
  }

  ghost predicate TablesOk(page: Table, ro: Flags, bank: byte) {
    forall p :: 0 <= p < 0x100 ==> PageOk(page[p], ro[p], p, bank)
  }

  ghost predicate Inv(x: Xram) {
    |x.sram| == SRAM_SIZE && TablesOk(x.page, x.ro, x.bank)
  }

  lemma DataBankKeepsInv(x: Xram, bank: byte)
    requires Inv(x)
    ensures Inv(SetDataBank(x, bank))
    ensures SetDataBank(x, bank).sram == x.sram && SetDataBank(x, bank).rom == x.rom
    ensures SetDataBank(x, bank).bank == bank
  {
    var y := SetDataBank(x, bank);
    forall p | 0 <= p < 0x100
      ensures PageOk(y.page[p], y.ro[p], p, bank)
    {
      assert PageOk(x.page[p], x.ro[p], p, x.bank);
      if bank == 0 {
        assert PageIndex(0, p) == p;
      } else {
        assert PageIndex(0x40, p) == if p < 0x40 then p + 0xc0 else p - 0x40;
      }
    }
  }

  lemma InvWrite(x: Xram, addr: word, val: byte)
    requires Inv(x)
    ensures WriteAny(x, addr, val) == if SramMapped(addr, x.bank) then x.(sram := x.sram[addr := val]) else x
    ensures Inv(WriteAny(x, addr, val))
  {
  }

  lemma InvRead(x: Xram, addr: word)
    requires Inv(x) && SramMapped(addr, x.bank)
    ensures InBuffer(x, addr) && ReadX(x, addr) == x.sram[addr]
  {
  }

  /** writex; a read-only or unmapped page takes no bytes, so no pointer into a buffer is followed for it. */
  function WriteAny(x: Xram, addr: word, val: byte): Xram {
    if x.ro[addr / 0x100] || !InBuffer(x, addr) then x else WriteX(x, addr, val)
  }

  /** readx, with a value of no meaning for a page that points past the end of the rom buffer. */
  function ReadAny(x: Xram, addr: word): byte {
    if InBuffer(x, addr) then ReadX(x, addr) else 0xff
  }

  datatype Step = DataBank(bank: byte) | Write(addr: word, val: byte)

  function Exec(s: Step, x: Xram): Xram {
    match s
    case DataBank(bank) => SetDataBank(x, bank)
    case Write(addr, val) => WriteAny(x, addr, val)
  }

  function Run(steps: seq<Step>, x: Xram): Xram {
    if steps == [] then x else Run(steps[1..], Exec(steps[0], x))
  }

  /** The last value written to `addr` by a write made while `addr` was SRAM-mapped, else `init`. */
  function LastWritten(steps: seq<Step>, bank: byte, addr: word, init: byte): byte {
    if steps == [] then init
    else match steps[0]
      case DataBank(b) => LastWritten(steps[1..], b, addr, init)
      case Write(a, val) =>
        LastWritten(steps[1..], bank, addr, if a == addr && SramMapped(addr, bank) then val else init)
  }

  /**
    Under any interleaving of bank switches and writes no ROM byte changes; and whenever an address is SRAM-mapped,
    reading it gives the last value written to it while it was, however often the bank changed in between.
  */
  lemma {:induction false} BankSwitchingIsSafe(steps: seq<Step>, x: Xram, addr: word)
    requires Inv(x) && addr < 0xc000
    ensures var e := Run(steps, x);
      && Inv(e)
      && e.rom == x.rom
      && e.sram[addr] == LastWritten(steps, x.bank, addr, x.sram[addr])
      && (SramMapped(addr, e.bank) ==> InBuffer(e, addr) && ReadX(e, addr) == e.sram[addr])
  {
    if steps == [] {
      if SramMapped(addr, x.bank) {
        InvRead(x, addr);
      }
    } else {
      match steps[0] {
        case DataBank(bank) => DataBankKeepsInv(x, bank);
        case Write(a, val) => InvWrite(x, a, val);
      }
      BankSwitchingIsSafe(steps[1..], Exec(steps[0], x), addr);
    }
  }

  /** In bank b >= 1 addresses from 0x4000 read bank b of the unpacked image. */
  lemma ReadBanked(x: Xram, addr: word)
    requires Inv(x) && x.bank > 0 && addr >= 0x4000 && x.bank * 0x1_0000 + addr < |x.rom|
    ensures InBuffer(x, addr) && ReadX(x, addr) == x.rom[x.bank * 0x1_0000 + addr]
  {
  }

  // ----- code banks -----

  /** The access stays inside the rom buffer; the C code relies on it. */
  predicate InRom(t: Table, rom: seq<byte>, addr: word) {
    var p := t[addr / 0x100];
    p.Unmapped? || p.base + addr % 0x100 < |rom|
  }

  /** readc through a page table over the rom buffer. */
  function Fetch(t: Table, rom: seq<byte>, addr: word): byte
    requires InRom(t, rom, addr)
  {
    var p := t[addr / 0x100];
    if p.Unmapped? then 0xff else rom[p.base + addr % 0x100]
  }

  function SetCodeBank(t: Table, bank: byte): Table {
    Mapped(t, Rom, 0x40, 0xc0, 0x40 + bank * 0x100)
  }

  /** Where the code at an address lies in the rom buffer: the low quarter never moves. */
  function CodeAddress(bank: byte, addr: word): nat {
    if addr < 0x4000 then addr else bank * 0x1_0000 + addr
  }

  /** The code table any sequence of CODE_BANK writes leaves; before the first the upper pages are unmapped. */
  predicate CodeOk(t: Table, bank: byte) {
    && (forall p :: 0 <= p < 0x40 ==> t[p] == At(Rom, p * 0x100))
    && ((forall p :: 0x40 <= p < 0x100 ==> t[p] == Unmapped) ||
        (forall p :: 0x40 <= p < 0x100 ==> t[p] == At(Rom, bank * 0x1_0000 + p * 0x100)))
  }

  predicate CodeMapped(t: Table, bank: byte, addr: word) {
    CodeOk(t, bank) && (addr < 0x4000 || t[0x40].At?)
  }

  lemma CodeBankKeepsOk(t: Table, was: byte, bank: byte)
    requires CodeOk(t, was)
    ensures CodeOk(SetCodeBank(t, bank), bank) && SetCodeBank(t, bank)[0x40].At?
  {
    var t' := SetCodeBank(t, bank);
    forall p | 0 <= p < 0x100
      ensures t'[p] == if p < 0x40 then t[p] else At(Rom, bank * 0x1_0000 + p * 0x100)
    {
      assert PageIndex(0x40, p) == if p < 0x40 then p + 0xc0 else p - 0x40;
    }
  }

  /** A fetch reads the low quarter of bank 0 and the rest of the current bank. */
  lemma FetchBanked(t: Table, bank: byte, rom: seq<byte>, addr: word)
    requires CodeMapped(t, bank, addr) && CodeAddress(bank, addr) < |rom|
    ensures InRom(t, rom, addr) && Fetch(t, rom, addr) == rom[CodeAddress(bank, addr)]
  {
    var p := addr / 0x100;
    assert addr == p * 0x100 + addr % 0x100;
    if p >= 0x40 {
      assert t[p].At?;
    }
  }

  // ----- the external stack -----

  function WithSspl(ssp: int, data: byte): (r: int)
    ensures r % 0x100 == data && r / 0x100 == ssp / 0x100
  {
    ssp / 0x100 * 0x100 + data
  }

  function WithSsph(ssp: int, data: byte): (r: int)
    ensures r / 0x100 == data && r % 0x100 == ssp % 0x100
  {
    data * 0x100 + ssp % 0x100
  }

  datatype StackStep = Push(val: byte) | Pop | Outside(step: Step)

  /** External memory, SSP, and the bytes SSIO reads have returned so far. */
  datatype XStack = XStack(x: Xram, ssp: int, popped: seq<byte>)

  /** sfr_ssio; poke_xram and peek_xram take the address as a uint16_t. */
  function ExecStack(s: StackStep, t: XStack): XStack {
    match s
    case Push(val) => XStack(WriteAny(t.x, U16(t.ssp - 1), val), t.ssp - 1, t.popped)
    case Pop => XStack(t.x, t.ssp + 1, t.popped + [ReadAny(t.x, U16(t.ssp))])
    case Outside(step) => t.(x := Exec(step, t.x))
  }

  /** SSP and SRAM represent `live` (top last), growing down from `base`. */
  ghost predicate Represents(t: XStack, live: seq<byte>, base: nat) {
    && Inv(t.x)
    && |live| <= base <= SRAM_SIZE
    && t.ssp == base - |live|
    && forall k :: 0 <= k < |live| ==> t.x.sram[base - 1 - k] == live[k]
  }

  /** Pushes and pops meet SRAM-mapped addresses, and other writes miss the live bytes. */
  predicate AllowedStack(s: StackStep, t: XStack, live: seq<byte>, base: nat) {
    match s
    case Push(_) => t.ssp > 0 && t.ssp <= SRAM_SIZE && SramMapped(t.ssp - 1, t.x.bank)
    case Pop => live != [] && 0 <= t.ssp < SRAM_SIZE && SramMapped(t.ssp, t.x.bank)
    case Outside(DataBank(_)) => true
    case Outside(Write(addr, _)) => addr < base - |live| || base <= addr
  }

  /** The same step on a plain stack: what is live after it, and what it returns. */
  function NextLive(s: StackStep, live: seq<byte>): seq<byte> {
    match s
    case Push(val) => live + [val]
    case Pop => if live == [] then [] else live[..|live| - 1]
    case Outside(_) => live
  }

  function Returned(s: StackStep, live: seq<byte>): seq<byte> {
    if s.Pop? && live != [] then [live[|live| - 1]] else []
  }

  lemma Fits(ssp: int)
    requires 0 <= ssp < 0x1_0000
    ensures U16(ssp) == ssp
  {
  }

  lemma PushRefines(val: byte, t: XStack, live: seq<byte>, base: nat)
    requires Represents(t, live, base) && AllowedStack(Push(val), t, live, base)
    ensures Represents(ExecStack(Push(val), t), live + [val], base)
  {
    Fits(t.ssp - 1);
    InvWrite(t.x, t.ssp - 1, val);
    assert base - 1 - |live| == t.ssp - 1;
  }

  lemma PopRefines(t: XStack, live: seq<byte>, base: nat)
    requires Represents(t, live, base) && AllowedStack(Pop, t, live, base)
    ensures Represents(ExecStack(Pop, t), live[..|live| - 1], base)
    ensures ExecStack(Pop, t).popped == t.popped + [live[|live| - 1]]
  {
    Fits(t.ssp);
    InvRead(t.x, t.ssp);
    assert t.x.sram[base - 1 - (|live| - 1)] == live[|live| - 1];
  }

  lemma StackStepRefines(s: StackStep, t: XStack, live: seq<byte>, base: nat)
    requires Represents(t, live, base) && AllowedStack(s, t, live, base)
    ensures Represents(ExecStack(s, t), NextLive(s, live), base)
    ensures ExecStack(s, t).popped == t.popped + Returned(s, live)
  {
    match s
    case Push(val) => PushRefines(val, t, live, base);
    case Pop => PopRefines(t, live, base);
    case Outside(DataBank(bank)) => DataBankKeepsInv(t.x, bank);
    case Outside(Write(addr, val)) => InvWrite(t.x, addr, val);
  }

  predicate AllowedStackRun(steps: seq<StackStep>, t: XStack, live: seq<byte>, base: nat) {
    steps == [] ||
    (AllowedStack(steps[0], t, live, base) &&
     AllowedStackRun(steps[1..], ExecStack(steps[0], t), NextLive(steps[0], live), base))
  }

  function RunStack(steps: seq<StackStep>, t: XStack): XStack {
    if steps == [] then t else RunStack(steps[1..], ExecStack(steps[0], t))
  }

  /** The same run on a plain stack: what is live at the end, and what the pops returned. */
  function RunLive(steps: seq<StackStep>, live: seq<byte>): seq<byte> {
    if steps == [] then live else RunLive(steps[1..], NextLive(steps[0], live))
  }

  function RunReturned(steps: seq<StackStep>, live: seq<byte>): seq<byte> {
    if steps == [] then [] else Returned(steps[0], live) + RunReturned(steps[1..], NextLive(steps[0], live))
  }

  /** SSIO over any run is a plain stack: same results, and SSP tells its height. */
  lemma {:induction false} StackRunRefines(steps: seq<StackStep>, t: XStack, live: seq<byte>, base: nat)
    requires Represents(t, live, base) && AllowedStackRun(steps, t, live, base)
    ensures Represents(RunStack(steps, t), RunLive(steps, live), base)
    ensures RunStack(steps, t).popped == t.popped + RunReturned(steps, live)
  {
    if steps != [] {
      StackStepRefines(steps[0], t, live, base);
      StackRunRefines(steps[1..], ExecStack(steps[0], t), NextLive(steps[0], live), base);
      Regroup(t.popped, Returned(steps[0], live), RunReturned(steps[1..], NextLive(steps[0], live)));
    }
  }

  function CountPushes(steps: seq<StackStep>): nat {
    if steps == [] then 0 else (if steps[0].Push? then 1 else 0) + CountPushes(steps[1..])
  }

  function CountPops(steps: seq<StackStep>): nat {
    if steps == [] then 0 else (if steps[0].Pop? then 1 else 0) + CountPops(steps[1..])
  }

  lemma {:induction false} Height(steps: seq<StackStep>, t: XStack, live: seq<byte>, base: nat)
    requires AllowedStackRun(steps, t, live, base)
    ensures |RunLive(steps, live)| + CountPops(steps) == |live| + CountPushes(steps)
  {
    if steps != [] {
      Height(steps[1..], ExecStack(steps[0], t), NextLive(steps[0], live), base);
    }
  }

  /** However they interleave, equally many pushes and pops bring SSP back. */
  lemma BalancedRestoresSsp(steps: seq<StackStep>, t: XStack, live: seq<byte>, base: nat)
    requires Represents(t, live, base) && AllowedStackRun(steps, t, live, base)
    requires CountPushes(steps) == CountPops(steps)
    ensures RunStack(steps, t).ssp == t.ssp
  {
    StackRunRefines(steps, t, live, base);
    Height(steps, t, live, base);
  }

  function Pushes(vals: seq<byte>): seq<StackStep> {
    seq(|vals|, i requires 0 <= i < |vals| => Push(vals[i]))
  }

  function Pops(n: nat): seq<StackStep> {
    seq(n, _ => Pop)
  }

  function Reversed(vals: seq<byte>): seq<byte> {
    if vals == [] then [] else [vals[|vals| - 1]] + Reversed(vals[..|vals| - 1])
  }

  lemma {:induction false} PlainPops(live: seq<byte>, vals: seq<byte>)
    ensures RunLive(Pops(|vals|), live + vals) == live && RunReturned(Pops(|vals|), live + vals) == Reversed(vals)
  {
    if vals == [] {
      assert live + vals == live;
    } else {
      var n := |vals| - 1;
      assert Pops(|vals|)[1..] == Pops(n);
      assert (live + vals)[..|live| + n] == live + vals[..n];
      PlainPops(live, vals[..n]);
    }
  }

  lemma {:induction false} PlainPushesPops(live: seq<byte>, vals: seq<byte>, k: nat)
    requires k <= |vals|
    ensures var steps := Pushes(vals)[k..] + Pops(|vals|);
      RunLive(steps, live + vals[..k]) == live && RunReturned(steps, live + vals[..k]) == Reversed(vals)
    decreases |vals| - k
  {
    if k == |vals| {
      assert Pushes(vals)[k..] + Pops(|vals|) == Pops(|vals|);
      assert vals[..k] == vals;
      PlainPops(live, vals);
    } else {
      var steps := Pushes(vals)[k..] + Pops(|vals|);
      assert steps[1..] == Pushes(vals)[k + 1..] + Pops(|vals|);
      assert live + vals[..k] + [vals[k]] == live + vals[..k + 1];
      PlainPushesPops(live, vals, k + 1);
    }
  }

  /** SSP leaves room for n pushes, and every address they use is SRAM-mapped. */
  predicate Room(t: XStack, n: nat) {
    n == 0 || (n <= t.ssp <= SRAM_SIZE && (t.x.bank == 0 || t.ssp <= 0x4000))
  }

  lemma {:induction false} PopsAllowed(n: nat, t: XStack, live: seq<byte>, base: nat)
    requires Represents(t, live, base) && n <= |live| && Room(t.(ssp := t.ssp + n), n)
    ensures AllowedStackRun(Pops(n), t, live, base)
    decreases n
  {
    if n > 0 {
      StackStepRefines(Pop, t, live, base);
      assert Pops(n)[1..] == Pops(n - 1);
      PopsAllowed(n - 1, ExecStack(Pop, t), NextLive(Pop, live), base);
    }
  }

  /** The discipline of the run theorem holds of k pushes and n pops exactly when there is room for the pushes. */
  lemma {:induction false} PushesAllowed(vals: seq<byte>, n: nat, t: XStack, live: seq<byte>, base: nat)
    requires Represents(t, live, base) && n >= |vals| && n - |vals| <= |live|
    requires n > |vals| ==> Room(t.(ssp := t.ssp + (n - |vals|)), n - |vals|)
    ensures AllowedStackRun(Pushes(vals) + Pops(n), t, live, base) <==> Room(t, |vals|)
    decreases |vals|
  {
    if vals == [] {
      assert Pushes(vals) + Pops(n) == Pops(n);
      PopsAllowed(n, t, live, base);
    } else {
      var steps := Pushes(vals) + Pops(n);
      assert steps[0] == Push(vals[0]) && steps[1..] == Pushes(vals[1..]) + Pops(n);
      if AllowedStack(Push(vals[0]), t, live, base) {
        StackStepRefines(Push(vals[0]), t, live, base);
        var t' := ExecStack(Push(vals[0]), t);
        InvWrite(t.x, U16(t.ssp - 1), vals[0]);
        PushesAllowed(vals[1..], n, t', live + [vals[0]], base);
      }
    }
  }

  /** Pushing any bytes there is room for and popping as many returns them in reverse order and restores SSP. */
  lemma PushesThenPops(vals: seq<byte>, t: XStack, live: seq<byte>, base: nat)
    requires Represents(t, live, base) && Room(t, |vals|)
    ensures var e := RunStack(Pushes(vals) + Pops(|vals|), t);
      e.ssp == t.ssp && e.popped == t.popped + Reversed(vals)
  {
    PushesAllowed(vals, |vals|, t, live, base);
    StackRunRefines(Pushes(vals) + Pops(|vals|), t, live, base);
    PlainPushesPops(live, vals, 0);
    assert live + vals[..0] == live;
    assert Pushes(vals)[0..] == Pushes(vals);
  }

  /** Page number start + i, and no other, lies i pages after start. */
  lemma PageNumber(start: byte, i: nat)
    requires i < 0x100
    ensures PageIndex(start, U8(start + i)) == i
    ensures forall p :: 0 <= p < 0x100 && p != U8(start + i) ==> PageIndex(start, p) != i
  {
  }

  /** The page i after start points at buffer page ofs + i for each i < len, and no other page moves. */
  lemma MappedPage(t: Table, buf: Buffer, start: byte, len: nat, ofs: nat, i: nat)
    requires len <= 0x100 && i < 0x100
    ensures Mapped(t, buf, start, len, ofs)[U8(start + i)] == if i < len then At(buf, (ofs + i) * 0x100) else t[U8(start + i)]
  {
    PageNumber(start, i);
  }

  // ----- the emulator's tables, updated in place -----

  class Memory {
    const rom: array<byte>
    const sram: array<byte>
    const rompage: array<Page>
    const xrampage: array<Page>
    const xramro: array<bool>
    var bank: byte
    var codeBank: byte
    var ssp: int

    ghost predicate Valid()
      reads this
    {
      && rompage.Length == 0x100 && xrampage.Length == 0x100 && xramro.Length == 0x100
      && sram != rom && rompage != xrampage
    }

    ghost function External(): Xram
      requires Valid()
      reads this, rom, sram, xrampage, xramro
    {
      Xram(xrampage[..], xramro[..], sram[..], rom[..], bank)
    }

    /** Start-up: the rom buffer is loaded, then rtl8367s.lua maps page 0x00-0x3f of it and all of SRAM. */
    constructor (image: seq<byte>)
      ensures Valid() && fresh(rom) && fresh(sram) && fresh(rompage) && fresh(xrampage) && fresh(xramro)
      ensures rom[..] == image && Inv(External())
      ensures CodeOk(rompage[..], codeBank)
    {
      rom := new byte[|image|](i requires 0 <= i < |image| => image[i]);
      sram := new byte[SRAM_SIZE](_ => 0);
      rompage := new Page[0x100](p => if 0 <= p < 0x40 then At(Rom, p * 0x100) else Unmapped);
      xrampage := new Page[0x100](p => if 0 <= p < 0xc0 then At(Sram, p * 0x100) else Unmapped);
      xramro := new bool[0x100](_ => false);
      bank := 0;
      codeBank := 0;
      ssp := 0;
    }

    method MapRom(start: byte, len: nat, ofs: nat)
      requires Valid() && len <= 0x100
      modifies rompage
      ensures rompage[..] == Mapped(old(rompage[..]), Rom, start, len, ofs)
    {
      for i := 0 to len
        invariant forall p :: 0 <= p < 0x100 ==>
          rompage[p] == MappedEntry(old(rompage[p]), PageIndex(start, p), Rom, i, ofs)
      {
        PageNumber(start, i);
        var page := U8(start + i);
        rompage[page] := At(Rom, (i + ofs) * 0x100);
      }
    }

    method MapXram(buf: Buffer, start: byte, len: nat, ofs: nat, readonly: bool)
      requires Valid() && len <= 0x100
      modifies xrampage, xramro
      ensures xrampage[..] == Mapped(old(xrampage[..]), buf, start, len, ofs)
      ensures xramro[..] == Flagged(old(xramro[..]), start, len, readonly)
    {
      for i := 0 to len
        invariant forall p :: 0 <= p < 0x100 ==>
          xrampage[p] == MappedEntry(old(xrampage[p]), PageIndex(start, p), buf, i, ofs)
        invariant forall p :: 0 <= p < 0x100 ==> xramro[p] == if PageIndex(start, p) < i then readonly else old(xramro[p])
      {
        PageNumber(start, i);
        var page := U8(start + i);
        xrampage[page] := At(buf, (i + ofs) * 0x100);
        xramro[page] := readonly;
      }
    }

    method SfrDataBank(data: byte)
      requires Valid()
      modifies this`bank, xrampage, xramro
      ensures External() == SetDataBank(old(External()), data)
    {
      if data == 0 {
        MapXram(Sram, 0x00, 0xc0, 0, false);
      } else {
        MapXram(Rom, 0x40, 0xc0, 0x40 + data * 0x100, true);
      }
      bank := data;
    }

    method SfrCodeBank(data: byte)
      requires Valid()
      modifies this`codeBank, rompage
      ensures rompage[..] == SetCodeBank(old(rompage[..]), data) && codeBank == data
      ensures old(CodeOk(rompage[..], codeBank)) ==> CodeOk(rompage[..], codeBank) && rompage[0x40].At?
    {
      if CodeOk(rompage[..], codeBank) {
        CodeBankKeepsOk(rompage[..], codeBank, data);
      }
      codeBank := data;
      MapRom(0x40, 0xc0, 0x40 + data * 0x100);
    }

    method Readx(addr: word) returns (v: byte)
      requires Valid() && InBuffer(External(), addr)
      ensures v == ReadX(External(), addr)
      ensures var low := addr % 0x100;
              match xrampage[addr / 0x100]
              case Unmapped => v == 0xff
              case At(Rom, base) => v == rom[base + low]
              case At(Sram, base) => v == sram[base + low]
    {
      var p := xrampage[addr / 0x100];
      match p
      case Unmapped => v := 0xff;
      case At(Rom, base) => v := rom[base + addr % 0x100];
      case At(Sram, base) => v := sram[base + addr % 0x100];
    }

    method Writex(addr: word, val: byte)
      requires Valid() && (xramro[addr / 0x100] || InBuffer(External(), addr))
      modifies rom, sram
      ensures External() == WriteAny(old(External()), addr, val)
      ensures var page, low := xrampage[addr / 0x100], addr % 0x100;
              var stores := !xramro[addr / 0x100] && page.At?;
              && rom[..] == (if stores && page.buf.Rom? then old(rom[..])[page.base + low := val] else old(rom[..]))
              && sram[..] == (if stores && page.buf.Sram? then old(sram[..])[page.base + low := val] else old(sram[..]))
    {
      if xramro[addr / 0x100] {
        return;
      }
      var p := xrampage[addr / 0x100];
      match p
      case Unmapped =>
      case At(Rom, base) => rom[base + addr % 0x100] := val;
      case At(Sram, base) => sram[base + addr % 0x100] := val;
    }

    /** Under any CODE_BANK the low quarter fetches from bank 0 and the rest from that bank. */
    method Readc(addr: word) returns (v: byte)
      requires Valid() && InRom(rompage[..], rom[..], addr)
      ensures v == Fetch(rompage[..], rom[..], addr)
      ensures rompage[addr / 0x100].Unmapped? ==> v == 0xff
      ensures CodeMapped(rompage[..], codeBank, addr) && CodeAddress(codeBank, addr) < rom.Length ==>
              v == rom[CodeAddress(codeBank, addr)]
    {
      var p := rompage[addr / 0x100];
      if CodeMapped(rompage[..], codeBank, addr) && CodeAddress(codeBank, addr) < rom.Length {
        FetchBanked(rompage[..], codeBank, rom[..], addr);
      }
      if p.Unmapped? {
        return 0xff;
      }
      v := rom[p.base + addr % 0x100];
    }

    // ----- SSPL, SSPH and SSIO -----

    /** External memory and SSP; the third component is what SSIO reads return from here on. */
    ghost function ExternalStack(): XStack
      requires Valid()
      reads this, rom, sram, xrampage, xramro
    {
      XStack(External(), ssp, [])
    }

    method SfrSspl(data: byte)
      modifies this`ssp
      ensures ssp % 0x100 == data && ssp / 0x100 == old(ssp) / 0x100
    {
      ssp := WithSspl(ssp, data);
    }

    method SfrSsph(data: byte)
      modifies this`ssp
      ensures ssp / 0x100 == data && ssp % 0x100 == old(ssp) % 0x100
    {
      ssp := WithSsph(ssp, data);
    }

    method SsioWrite(data: byte)
      requires Valid()
      requires var addr := U16(ssp - 1); xramro[addr / 0x100] || InBuffer(External(), addr)
      modifies this`ssp, rom, sram
      ensures ExternalStack() == ExecStack(Push(data), old(ExternalStack()))
    {
      ssp := ssp - 1;
      Writex(U16(ssp), data);
    }

    method SsioRead() returns (data: byte)
      requires Valid() && InBuffer(External(), U16(ssp))
      modifies this`ssp
      ensures ExternalStack().(popped := [data]) == ExecStack(Pop, old(ExternalStack()))
    {
      data := Readx(U16(ssp));
      ssp := ssp + 1;
    }
  }
}

/**
  The RTL8372 register file behind INDACC (rtl8372.lua): 32-bit registers reached through two address bytes, four
  data bytes and a command, some of whose bits clear themselves when written.
*/
module Soc8372 {
  import opened Bits

  type word32 = x: int | 0 <= x < 0x1_0000_0000

  const NO_DATA: word32 := 0xdeadbeef

  type Regs = map<word, word32>

  function Reg(regs: Regs, addr: word): word32 {
    if addr in regs then regs[addr] else NO_DATA
  }

  /** What socreg_write stores: the listed control registers clear some or all of their bits. */
  function SelfCleared(addr: word, data: word32): word32 {
    if addr == 0x0024 || addr == 0x53d4 then 0
    else if addr == 0x5cac then data - data % 4
    else if addr == 0x0f60 then data - data % 2
    else data
  }

  datatype Port = Port(addrH: byte, addrL: byte, d24: byte, d16: byte, d8: byte, d0: byte, regs: Regs)

  /** A write to one of the INDACC SFRs. */
  datatype Op = AddrH(x: byte) | AddrL(x: byte) | Data24(x: byte) | Data16(x: byte) | Data8(x: byte) | Data0(x: byte) | Cmd(x: byte)

  function Addr(p: Port): word {
    p.addrH * 0x100 + p.addrL
  }

  /** The word the four data bytes spell. */
  function Data(p: Port): word32 {
    p.d24 * 0x100_0000 + p.d16 * 0x1_0000 + p.d8 * 0x100 + p.d0
  }

  function Loaded(p: Port, v: word32): Port {
    p.(d24 := v / 0x100_0000, d16 := v / 0x1_0000 % 0x100, d8 := v / 0x100 % 0x100, d0 := v % 0x100)
  }

  function Exec(op: Op, p: Port): Port {
    match op
    case AddrH(x) => p.(addrH := x)
    case AddrL(x) => p.(addrL := x)
    case Data24(x) => p.(d24 := x)
    case Data16(x) => p.(d16 := x)
    case Data8(x) => p.(d8 := x)
    case Data0(x) => p.(d0 := x)
    case Cmd(x) =>
      if x == 1 then Loaded(p, Reg(p.regs, Addr(p)))
      else if x == 3 then p.(regs := p.regs[Addr(p) := SelfCleared(Addr(p), Data(p))])
      else p
  }

  function Run(ops: seq<Op>, p: Port): Port {
    if ops == [] then p else Run(ops[1..], Exec(ops[0], p))
  }

  // ----- a plain map from addresses to words -----

  /** The port as one address, one data word and a table; the table is total, with NO_DATA where nothing is stored. */
  datatype Plain = Plain(addr: word, data: word32, table: Table)

  type Table = s: seq<word32> | |s| == 0x1_0000 witness seq(0x1_0000, _ => 0)

  function TableOf(regs: Regs): Table {
    seq(0x1_0000, a requires 0 <= a < 0x1_0000 => Reg(regs, a))
  }

  function View(p: Port): Plain {
    Plain(Addr(p), Data(p), TableOf(p.regs))
  }

  /** Byte k of a word replaced. */
  function WithByte(v: word32, scale: nat, x: byte): int
    requires scale > 0
  {
    v - v / scale % 0x100 * scale + x * scale
  }

  ghost predicate PlainStep(op: Op, s: Plain, t: Plain) {
    match op
    case AddrH(x) => t.addr == x * 0x100 + s.addr % 0x100 && t.data == s.data && t.table == s.table
    case AddrL(x) => t.addr == s.addr / 0x100 * 0x100 + x && t.data == s.data && t.table == s.table
    case Data24(x) => t.addr == s.addr && t.data == WithByte(s.data, 0x100_0000, x) && t.table == s.table
    case Data16(x) => t.addr == s.addr && t.data == WithByte(s.data, 0x1_0000, x) && t.table == s.table
    case Data8(x) => t.addr == s.addr && t.data == WithByte(s.data, 0x100, x) && t.table == s.table
    case Data0(x) => t.addr == s.addr && t.data == WithByte(s.data, 1, x) && t.table == s.table
    case Cmd(x) =>
      if x == 1 then t == s.(data := s.table[s.addr])
      else if x == 3 then t == s.(table := s.table[s.addr := SelfCleared(s.addr, s.data)])
      else t == s
  }

  lemma LoadedData(p: Port, v: word32)
    ensures Data(Loaded(p, v)) == v
  {
    assert v == v / 0x100 * 0x100 + v % 0x100;
    assert v / 0x100 == v / 0x1_0000 * 0x100 + v / 0x100 % 0x100;
    assert v / 0x1_0000 == v / 0x100_0000 * 0x100 + v / 0x1_0000 % 0x100;
  }

  lemma DataBytes(p: Port)
    ensures Data(p) / 0x100_0000 % 0x100 == p.d24 && Data(p) / 0x1_0000 % 0x100 == p.d16
    ensures Data(p) / 0x100 % 0x100 == p.d8 && Data(p) % 0x100 == p.d0
  {
    assert Data(p) / 0x100 == p.d24 * 0x1_0000 + p.d16 * 0x100 + p.d8;
    assert Data(p) / 0x1_0000 == p.d24 * 0x100 + p.d16;
  }

  lemma StoredTable(regs: Regs, addr: word, v: word32)
    ensures TableOf(regs[addr := v]) == TableOf(regs)[addr := v]
  {
  }

  /** Every access through the byte-wide port is one step on the plain table. */
  lemma StepRefines(op: Op, p: Port)
    ensures PlainStep(op, View(p), View(Exec(op, p)))
  {
    DataBytes(p);
    if op.Cmd? && op.x == 1 {
      LoadedData(p, Reg(p.regs, Addr(p)));
    } else if op.Cmd? && op.x == 3 {
      StoredTable(p.regs, Addr(p), SelfCleared(Addr(p), Data(p)));
    }
  }

  // ----- whole runs -----

  /** The word register `addr` holds after `ops`: the last one stored there, else what it held before. */
  function LastStored(ops: seq<Op>, p: Port, addr: word, init: word32): word32 {
    if ops == [] then init
    else
      var op := ops[0];
      LastStored(ops[1..], Exec(op, p), addr, if op == Cmd(3) && Addr(p) == addr then SelfCleared(addr, Data(p)) else init)
  }

  lemma {:induction false} RegisterHistory(ops: seq<Op>, p: Port, addr: word)
    ensures Reg(Run(ops, p).regs, addr) == LastStored(ops, p, addr, Reg(p.regs, addr))
  {
    if ops != [] {
      RegisterHistory(ops[1..], Exec(ops[0], p), addr);
    }
  }

  /** The three writes that read a register. */
  function ReadOps(addr: word): seq<Op> {
    [AddrH(addr / 0x100), AddrL(addr % 0x100), Cmd(1)]
  }

  lemma ReadLoads(p: Port, addr: word)
    ensures Addr(Run(ReadOps(addr), p)) == addr && Data(Run(ReadOps(addr), p)) == Reg(p.regs, addr)
    ensures Run(ReadOps(addr), p).regs == p.regs
  {
    var p1 := Exec(AddrH(addr / 0x100), p);
    var p2 := Exec(AddrL(addr % 0x100), p1);
    LoadedData(p2, Reg(p.regs, addr));
    assert ReadOps(addr)[1..] == [AddrL(addr % 0x100), Cmd(1)];
    assert ReadOps(addr)[1..][1..] == [Cmd(1)];
    assert Run([Cmd(1)], p2) == Run([], Exec(Cmd(1), p2));
  }

  /** Nothing in the run stores to `addr`. */
  predicate NoStore(ops: seq<Op>, p: Port, addr: word) {
    ops == [] || (!(ops[0] == Cmd(3) && Addr(p) == addr) && NoStore(ops[1..], Exec(ops[0], p), addr))
  }

  lemma {:induction false} NoStoreKeeps(ops: seq<Op>, p: Port, addr: word, init: word32)
    requires NoStore(ops, p, addr)
    ensures LastStored(ops, p, addr, init) == init
  {
    if ops != [] {
      NoStoreKeeps(ops[1..], Exec(ops[0], p), addr, init);
    }
  }

  /**
    A store, then any run that does not store there again, then a read: the read returns the stored bytes, less
    those the register clears itself; it returns exactly the stored bytes when there was nothing to clear.
  */
  lemma ReadAfterWrite(p: Port, ops: seq<Op>)
    requires NoStore(ops, Exec(Cmd(3), p), Addr(p))
    ensures var e := Run(ReadOps(Addr(p)), Run(ops, Exec(Cmd(3), p)));
      && Data(e) == SelfCleared(Addr(p), Data(p))
      && (e.d24 == p.d24 && e.d16 == p.d16 && e.d8 == p.d8 && e.d0 == p.d0 <==> SelfCleared(Addr(p), Data(p)) == Data(p))
  {
    var p1 := Exec(Cmd(3), p);
    var e := Run(ReadOps(Addr(p)), Run(ops, p1));
    RegisterHistory(ops, p1, Addr(p));
    NoStoreKeeps(ops, p1, Addr(p), Reg(p1.regs, Addr(p)));
    ReadLoads(Run(ops, p1), Addr(p));
    DataBytes(p);
    DataBytes(e);
  }

  lemma SameBytes(p: Port, q: Port)
    requires Data(p) == Data(q)
    ensures p.d24 == q.d24 && p.d16 == q.d16 && p.d8 == q.d8 && p.d0 == q.d0
  {
    DataBytes(p);
    DataBytes(q);
  }

  /**
    The same, byte by byte: the four bytes read are the bytes stored, but for two registers that read 0 and two that
    clear the lowest two bits or the lowest bit of the lowest byte.
  */
  lemma ReadsBackBytes(p: Port, ops: seq<Op>)
    requires NoStore(ops, Exec(Cmd(3), p), Addr(p))
    ensures var addr, e := Addr(p), Run(ReadOps(Addr(p)), Run(ops, Exec(Cmd(3), p)));
      if addr in {0x0024, 0x53d4} then e.d24 == 0 && e.d16 == 0 && e.d8 == 0 && e.d0 == 0
      else
        && e.d24 == p.d24 && e.d16 == p.d16 && e.d8 == p.d8
        && e.d0 == if addr == 0x5cac then p.d0 / 4 * 4 else if addr == 0x0f60 then p.d0 / 2 * 2 else p.d0
  {
    ReadAfterWrite(p, ops);
    var addr, e := Addr(p), Run(ReadOps(Addr(p)), Run(ops, Exec(Cmd(3), p)));
    LowByte(p);
    SameBytes(e,
      if addr in {0x0024, 0x53d4} then p.(d24 := 0, d16 := 0, d8 := 0, d0 := 0)
      else if addr == 0x5cac then p.(d0 := p.d0 / 4 * 4) else if addr == 0x0f60 then p.(d0 := p.d0 / 2 * 2) else p);
  }

  /** And bit by bit: which bits of the lowest byte clear themselves. */
  lemma ReadsBackBits(p: Port, ops: seq<Op>, i: nat)
    requires NoStore(ops, Exec(Cmd(3), p), Addr(p))
    ensures var addr, w := Addr(p), Data(Run(ReadOps(Addr(p)), Run(ops, Exec(Cmd(3), p))));
      Bit(w, i) == (Bit(Data(p), i) && addr !in {0x0024, 0x53d4} && (addr == 0x5cac ==> i >= 2) && (addr == 0x0f60 ==> i >= 1))
  {
    ReadAfterWrite(p, ops);
    LowBitsClear(Data(p), i);
    ZeroBit(i);
  }

  /** Clearing the lowest one or two bits of a word changes its lowest byte only. */
  lemma LowByte(p: Port)
    ensures Data(p) - Data(p) % 2 == Data(p.(d0 := p.d0 / 2 * 2))
    ensures Data(p) - Data(p) % 4 == Data(p.(d0 := p.d0 / 4 * 4))
  {
    var h := p.d24 * 0x1_0000 + p.d16 * 0x100 + p.d8;
    DivModUnique(Data(p), 2, 0x80 * h + p.d0 / 2, p.d0 % 2);
    DivModUnique(Data(p), 4, 0x40 * h + p.d0 / 4, p.d0 % 4);
  }

  lemma LowBitsClear(v: word32, i: nat)
    ensures Bit(v - v % 2, i) == (i >= 1 && Bit(v, i))
    ensures Bit(v - v % 4, i) == (i >= 2 && Bit(v, i))
  {
    Quarters(v);
    DoubleBit(v / 2, i);
    DoubleBit(2 * (v / 4), i);
    if i >= 1 {
      DoubleBit(v / 4, i - 1);
    }
  }

  lemma DoubleBit(x: nat, i: nat)
    ensures Bit(2 * x, i) == (i >= 1 && Bit(x, i - 1))
  {
    assert 2 * x / 2 == x;
  }

  lemma Quarters(v: nat)
    ensures v - v % 2 == 2 * (v / 2) && v - v % 4 == 2 * (2 * (v / 4)) && v / 2 / 2 == v / 4
  {
  }

  /** A register nothing was stored to reads back as it was, or as 0xdeadbeef. */
  lemma ReadsInitial(p: Port, ops: seq<Op>, addr: word)
    requires NoStore(ops, p, addr)
    ensures Data(Run(ReadOps(addr), Run(ops, p))) == if addr in p.regs then p.regs[addr] else 0xdeadbeef
  {
    RegisterHistory(ops, p, addr);
    NoStoreKeeps(ops, p, addr, Reg(p.regs, addr));
    ReadLoads(Run(ops, p), addr);
  }

  // ----- the hooks, updating the globals in place -----

  class Soc {
    var addrH: byte
    var addrL: byte
    var d24: byte
    var d16: byte
    var d8: byte
    var d0: byte
    var regs: Regs

    constructor (regs: Regs)
      ensures State() == Port(0, 0, 0, 0, 0, 0, regs)
    {
      addrH, addrL, d24, d16, d8, d0, this.regs := 0, 0, 0, 0, 0, 0, regs;
    }

    function State(): Port
      reads this
    {
      Port(addrH, addrL, d24, d16, d8, d0, regs)
    }

    method SocregRead(addr: word) returns (data: word32)
      ensures data == Reg(regs, addr)
    {
      data := if addr in regs then regs[addr] else NO_DATA;
    }

    method SocregWrite(addr: word, val: word32)
      modifies this`regs
      ensures regs == old(regs)[addr := SelfCleared(addr, val)]
      ensures addr !in {0x0024, 0x53d4, 0x5cac, 0x0f60} ==> regs == old(regs)[addr := val]
      ensures addr in {0x0024, 0x53d4} ==> regs == old(regs)[addr := 0]
      ensures addr == 0x5cac ==> regs == old(regs)[addr := val / 4 * 4]
      ensures addr == 0x0f60 ==> regs == old(regs)[addr := val / 2 * 2]
    {
      var data: word32 := val;
      if addr == 0x0024 {
        data := 0;
      }
      if addr == 0x5cac {
        data := data - data % 4;
      }
      if addr == 0x53d4 {
        data := 0;
      }
      if addr == 0x0f60 {
        data := data - data % 2;
      }
      regs := regs[addr := data];
    }

    method SfrWrite(op: Op)
      modifies this
      ensures State() == Exec(op, old(State()))
    {
      match op {
        case AddrH(x) => addrH := x;
        case AddrL(x) => addrL := x;
        case Data24(x) => d24 := x;
        case Data16(x) => d16 := x;
        case Data8(x) => d8 := x;
        case Data0(x) => d0 := x;
        case Cmd(x) => SfrIndaccCmd(x);
      }
    }

    method SfrIndaccCmd(data: byte)
      modifies this`d24, this`d16, this`d8, this`d0, this`regs
      ensures State() == Exec(Cmd(data), old(State()))
    {
      var addr: word := addrH * 0x100 + addrL;
      if data == 1 {
        var v := SocregRead(addr);
        d24 := v / 0x100_0000;
        d16 := v / 0x1_0000 % 0x100;
        d8 := v / 0x100 % 0x100;
        d0 := v % 0x100;
      }
      if data == 3 {
        var v := d24 * 0x100_0000 + d16 * 0x1_0000 + d8 * 0x100 + d0;
        SocregWrite(addr, v);
      }
    }
  }
}

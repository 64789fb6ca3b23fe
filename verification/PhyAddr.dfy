/**
  phyocp_reg_addr of hello.s: it packs a 16-bit PHY OCP address and a port into a register address and the OCP
  prefix register, and socreg_read unpacks the pair again.
*/
module PhyAddr {
  import opened Bits
  import Alu
  import SocRegs
  import opened Cpu
  import Mirror
  import Ramsfr

  /** The register address: PHY base, port, OCP bits 5-1 and OCP bits 9-6. */
  function RegAddress(port: byte, ocp: word): word {
    0x2000 + port * 0x20 + ocp / 2 % 0x20 + ocp / 0x40 % 0x10 * 0x100
  }

  /** The prefix register with OCP bits 15-10 in its low six bits. */
  function NewPrefix(prefix: word, ocp: word): word {
    prefix - prefix % 0x40 + ocp / 0x400
  }

  /** Decoding the packed pair gives the OCP address back, without its lowest bit. */
  lemma RoundTrip(port: byte, ocp: word, prefix: word)
    requires port < 8
    ensures SocRegs.IsPhy(RegAddress(port, ocp))
    ensures SocRegs.PhyAddress(NewPrefix(prefix, ocp), RegAddress(port, ocp)) == ocp - ocp % 2
  {
    RegFields(port, ocp);
    PrefixField(prefix, ocp);
    Decoded(NewPrefix(prefix, ocp), RegAddress(port, ocp), ocp / 2 % 0x20, ocp / 0x40 % 0x10, ocp / 0x400);
    OcpFields(ocp);
  }

  lemma Decoded(prefix: word, addr: word, low: nat, mid: nat, high: nat)
    requires addr % 0x20 == low && addr / 0x100 % 0x10 == mid && prefix % 0x40 == high
    ensures SocRegs.PhyAddress(prefix, addr) == 2 * (low + mid * 0x20 + high * 0x200)
  {
    SocRegs.PhyAddressValue(prefix, addr);
  }

  lemma RegFields(port: byte, ocp: word)
    requires port < 8
    ensures var addr := RegAddress(port, ocp);
      SocRegs.IsPhy(addr) && addr % 0x20 == ocp / 2 % 0x20 && addr / 0x100 % 0x10 == ocp / 0x40 % 0x10
  {
    FieldsApart(port, ocp / 2 % 0x20, ocp / 0x40 % 0x10);
  }

  lemma FieldsApart(port: nat, low: nat, mid: nat)
    requires port < 8 && low < 0x20 && mid < 0x10
    ensures var addr := 0x2000 + port * 0x20 + low + mid * 0x100;
      0x2000 <= addr < 0x3000 && addr % 0x20 == low && addr / 0x100 % 0x10 == mid
  {
    var addr := 0x2000 + port * 0x20 + low + mid * 0x100;
    DivModUnique(addr, 0x20, 0x100 + port + 8 * mid, low);
    DivModUnique(addr, 0x100, 0x20 + mid, port * 0x20 + low);
    DivModUnique(0x20 + mid, 0x10, 2, mid);
  }

  lemma PrefixField(prefix: word, ocp: word)
    ensures NewPrefix(prefix, ocp) % 0x40 == ocp / 0x400 && NewPrefix(prefix, ocp) / 0x40 == prefix / 0x40
  {
    DivModUnique(NewPrefix(prefix, ocp), 0x40, prefix / 0x40, ocp / 0x400);
  }

  lemma OcpFields(ocp: word)
    ensures 2 * (ocp / 2 % 0x20 + ocp / 0x40 % 0x10 * 0x20 + ocp / 0x400 * 0x200) == ocp - ocp % 2
  {
    var x := ocp / 2;
    assert x / 0x20 == ocp / 0x40;
    assert x / 0x200 == ocp / 0x400;
    assert x / 0x20 / 0x10 == x / 0x200;
  }

  lemma KeepHigh(x: byte)
    ensures And(x, 0xc0) == x - x % 0x40
  {
    KeepTopDigits(x / 0x40, x % 0x40);
  }

  lemma KeepTopDigits(high: nat, low: nat)
    requires high < 4 && low < 0x40
    ensures And(high * 0x40 + low, 0xc0) == high * 0x40
  {
    JoinSix(high, low);
    JoinSix(3, 0);
    JoinSix(high, 0);
    AndSplit(high, low, 3, 0, 6);
    TwoDigits(high);
    assert And(low, 0) == 0;
  }

  lemma JoinSix(high: nat, low: nat)
    ensures Join(high, low, 6) == high * 0x40 + low && Pow2(6) == 0x40
  {
    Pow2Values();
  }

  lemma TwoDigits(x: nat)
    requires x < 4
    ensures And(x, 3) == x
  {
    assert Pow2(2) == 4;
    AndLow(x, 2);
  }

  lemma OrFields(high: byte, low: byte)
    requires high % 0x40 == 0 && low < 0x40
    ensures OrByte(low, high) == high + low
  {
    Pow2Values();
    OrDisjoint(high / 0x40, low, 6);
  }

  /** hello.s:337-339 */
  method KeepPrefix(m: Cpu)
    modifies m`acc, m`b
    ensures m.b == m.indaccRdataL - m.indaccRdataL % 0x40
  {
    m.acc := m.indaccRdataL;
    KeepHigh(m.acc);
    m.acc := AndByte(m.acc, 0xc0);
    m.b := m.acc;
  }

  /** hello.s:340-343 */
  method OcpPrefix(m: Cpu)
    modifies m`acc
    ensures m.acc == m.r6 / 4
  {
    m.acc := m.r6;
    m.RrA();
    m.RrA();
    RotateTwice(m.r6);
    SocRegs.LowSix(m.acc);
    m.acc := AndByte(m.acc, 0x3f);
  }

  lemma RotateTwice(x: byte)
    ensures var y := x / 2 + x % 2 * 0x80; (y / 2 + y % 2 * 0x80) % 0x40 == x / 4
  {
    var y := x / 2 + x % 2 * 0x80;
    DivModUnique(y, 2, x / 2 / 2 + x % 2 * 0x40, x / 2 % 2);
    DivModUnique(y / 2 + y % 2 * 0x80, 0x40, x % 2 + 2 * (y % 2), x / 4);
  }

  /** hello.s:335-345 */
  method MergePrefix(m: Cpu)
    modifies m`acc, m`b, m`indaccWdataH, m`indaccWdataL
    ensures m.indaccWdataH == m.indaccRdataH
    ensures m.indaccWdataL == m.indaccRdataL - m.indaccRdataL % 0x40 + m.r6 / 4
  {
    m.acc := m.indaccRdataH;
    m.indaccWdataH := m.acc;
    KeepPrefix(m);
    OcpPrefix(m);
    OrFields(m.b, m.acc);
    m.acc := OrByte(m.acc, m.b);
    m.indaccWdataL := m.acc;
  }

  /** hello.s:329-346 */
  method StorePrefix(m: Cpu)
    requires SocRegs.OCP_PREFIX in m.regs
    modifies m`acc, m`b, m`psw, m`dpl, m`dph, m`r5, m`r6, m`indaccAddrH, m`indaccAddrL
    modifies m`indaccWdataH, m`indaccWdataL, m`indaccRdataH, m`indaccRdataL, m`regs, m`phyReads
    ensures m.r6 == old(m.dph) && m.r5 == old(m.dpl) && m.phyReads == old(m.phyReads)
    ensures m.regs == old(m.regs)[SocRegs.OCP_PREFIX := NewPrefix(old(m.regs[SocRegs.OCP_PREFIX]), old(m.Dptr()))]
  {
    ghost var ocp, prefix := m.Dptr(), m.regs[SocRegs.OCP_PREFIX];
    m.r6 := m.dph;
    m.r5 := m.dpl;
    m.dph, m.dpl := 0x1d, 0x15;
    m.RegRead();
    MergePrefix(m);
    PrefixBytes(m.indaccRdataH, m.indaccRdataL, m.r6, m.r5);
    m.RegWrite();
  }

  lemma PrefixBytes(high: byte, low: byte, ocpHigh: byte, ocpLow: byte)
    ensures Joined(high, low - low % 0x40 + ocpHigh / 4) == NewPrefix(Joined(high, low), Joined(ocpHigh, ocpLow))
  {
    assert Joined(high, low) % 0x40 == low % 0x40;
  }

  /** ADD A,x; MOV DPL,A */
  method AddLow(m: Cpu, x: byte)
    modifies m`acc, m`psw, m`dpl
    ensures m.dpl + 0x100 * Alu.Carry(m.psw) == old(m.acc) + x
  {
    BitSetBit(m.psw, Alu.PSW_C, false, Alu.PSW_C);
    Alu.AddcExact(UpdateBit(m.psw, Alu.PSW_C, false), m.acc, x);
    var sum := m.AluAdd(m.acc, x);
    m.acc := sum;
    m.dpl := m.acc;
  }

  /** ADDC A,x; MOV DPH,A */
  method AddHigh(m: Cpu, x: byte)
    requires m.acc + x + Alu.Carry(m.psw) < 0x100
    modifies m`acc, m`psw, m`dph
    ensures m.dph == old(m.acc) + x + old(Alu.Carry(m.psw))
  {
    Alu.AddcExact(m.psw, m.acc, x);
    var sum := m.AluAddc(m.acc, x);
    m.acc := sum;
    m.dph := m.acc;
  }

  /** hello.s:349-361: DPTR becomes the PHY base plus 0x20 per port. */
  method PortBase(m: Cpu) returns (ghost trace: seq<Mirror.Step>)
    modifies m`acc, m`b, m`psw, m`dpl, m`dph, m`stack
    ensures m.Dptr() == 0x2000 + m.r7 * 0x20 && m.stack == old(m.stack)
    ensures Mirror.Traces(trace, old(m.AsView()), m.AsView(), |m.stack| + 1)
  {
    ghost var v := m.AsView();
    m.dph, m.dpl := 0x20, 0x00;
    m.acc := m.r7;
    m.b := 0x20;
    m.MulAB();
    ghost var before := m.AsView();
    m.PushByte(m.b);
    m.b := m.acc;
    m.acc := m.dpl;
    AddLow(m, m.b);
    m.acc := m.dph;
    ghost var between := m.AsView();
    m.b := m.PopByte();
    AddHigh(m, m.b);
    trace := [Mirror.Registers(before), Mirror.Push(Ramsfr.BREG), Mirror.Registers(between), Mirror.Pop(Ramsfr.BREG),
              Mirror.Registers(m.AsView())];
    Mirror.PushPopTraces(v, before, between, m.AsView());
  }

  /** hello.s:365-367: the bit RRC brings in from C is masked away. */
  method OcpLowBits(m: Cpu)
    modifies m`acc, m`psw
    ensures m.acc == m.r5 / 2 % 0x20
  {
    m.acc := m.r5;
    DropCarryBit(m.r5, Alu.Carry(m.psw));
    m.RrcA();
    SocRegs.LowFive(m.acc);
    m.acc := AndByte(m.acc, 0x1f);
  }

  lemma DropCarryBit(x: byte, c: nat)
    ensures (x / 2 + 0x80 * c) % 0x20 == x / 2 % 0x20
  {
    DivModUnique(x / 2 + 0x80 * c, 0x20, x / 2 / 0x20 + 4 * c, x / 2 % 0x20);
  }

  /** hello.s:364-372: OCP bits 5-1 are added to DPTR. */
  method AddLowBits(m: Cpu)
    requires m.Dptr() + 0x1f < 0x1_0000
    modifies m`acc, m`b, m`psw, m`dpl, m`dph
    ensures m.Dptr() == old(m.Dptr()) + m.r5 / 2 % 0x20
  {
    m.b := m.dpl;
    OcpLowBits(m);
    AddLow(m, m.b);
    m.acc := m.dph;
    AddHigh(m, 0);
  }

  lemma RrcCarry(acc: byte, psw: byte)
    ensures Alu.Carry(Alu.Rrc(acc, psw).psw) == acc % 2
  {
    BitSetBit(psw, Alu.PSW_C, acc % 2 == 1, Alu.PSW_C);
  }

  /** RRC of R6, then of R5: the pair moves right, and R5 takes in R6's low bit through C. */
  method RotatePair(m: Cpu)
    modifies m`acc, m`psw, m`r5, m`r6
    ensures m.r6 == old(m.r6) / 2 + 0x80 * old(Alu.Carry(m.psw))
    ensures m.r5 == old(m.r5) / 2 + 0x80 * (old(m.r6) % 2)
  {
    m.acc := m.r6;
    RrcCarry(m.acc, m.psw);
    m.RrcA();
    m.r6 := m.acc;
    m.acc := m.r5;
    m.RrcA();
    m.r5 := m.acc;
  }

  /** hello.s:375-387: R6:R5 moves right by two through C, and the nibble now on top is OCP bits 9-6. */
  method HighNibble(m: Cpu)
    modifies m`acc, m`psw, m`r5, m`r6
    ensures m.acc == Joined(old(m.r6), old(m.r5)) / 0x40 % 0x10
  {
    ghost var h, l := m.r6, m.r5;
    ghost var c := Alu.Carry(m.psw);
    RotatePair(m);
    HalveTwice(h, l, c, m.r6, m.r5);
    RotateLast(m);
    TopNibble(h, l, m.acc);
    SwapLow(m.acc);
    m.SwapA();
    LowNibble(m.acc);
    m.acc := AndByte(m.acc, 0x0f);
  }

  /** hello.s:381-385: the second rotation leaves its low byte in A only. */
  method RotateLast(m: Cpu)
    modifies m`acc, m`psw, m`r6
    ensures m.acc == m.r5 / 2 + 0x80 * (old(m.r6) % 2)
  {
    m.acc := m.r6;
    RrcCarry(m.acc, m.psw);
    m.RrcA();
    m.r6 := m.acc;
    m.acc := m.r5;
    m.RrcA();
  }

  lemma HalveTwice(h: byte, l: byte, c: nat, h1: byte, l1: byte)
    requires h1 == h / 2 + 0x80 * c && l1 == l / 2 + 0x80 * (h % 2)
    ensures l1 / 2 + 0x80 * (h1 % 2) == l / 4 + 0x40 * (h % 2) + 0x80 * (h / 2 % 2)
  {
    DivModUnique(h1, 2, h / 2 / 2 + 0x40 * c, h / 2 % 2);
    DivModUnique(l1, 2, l / 2 / 2 + 0x40 * (h % 2), l / 2 % 2);
  }

  lemma SwapLow(x: byte)
    ensures (x % 0x10 * 0x10 + x / 0x10) % 0x10 == x / 0x10
  {
  }

  lemma TopNibble(h: byte, l: byte, acc: byte)
    requires acc == l / 4 + 0x40 * (h % 2) + 0x80 * (h / 2 % 2)
    ensures acc / 0x10 == Joined(h, l) / 0x40 % 0x10
  {
    var q, s := l / 4 / 0x10, l / 4 % 0x10;
    DivModUnique(l, 0x40, q, 4 * s + l % 4);
    DivModUnique(acc, 0x10, q + 4 * (h % 2) + 8 * (h / 2 % 2), s);
    DivModUnique(Joined(h, l), 0x40, 4 * h + q, l % 0x40);
    DivModUnique(4 * h + q, 0x10, h / 2 / 2, q + 4 * (h % 2) + 8 * (h / 2 % 2));
  }

  /**
    phyocp_reg_addr: for every OCP address in DPTR and every port in R7 it leaves the packed register address in
    DPTR, the OCP prefix in its register with the other bits kept, and the stack as it was. Its trace is what it does
    to the stack and the registers, so Mirror.RunMirrored carries it to the core's memory.
  */
  method PhyocpRegAddr(m: Cpu) returns (ghost trace: seq<Mirror.Step>)
    requires SocRegs.OCP_PREFIX in m.regs
    modifies m`acc, m`b, m`psw, m`dpl, m`dph, m`r5, m`r6, m`stack, m`indaccAddrH, m`indaccAddrL
    modifies m`indaccWdataH, m`indaccWdataL, m`indaccRdataH, m`indaccRdataL, m`regs, m`phyReads
    ensures m.Dptr() == RegAddress(m.r7, old(m.Dptr()))
    ensures m.Dptr() ==
            0x2000 + m.r7 * 0x20 + old(m.Dptr()) / 2 % 0x20 + old(m.Dptr()) / 0x40 % 0x10 * 0x100
    ensures m.regs == old(m.regs)[SocRegs.OCP_PREFIX := NewPrefix(old(m.regs[SocRegs.OCP_PREFIX]), old(m.Dptr()))]
    ensures m.regs[SocRegs.OCP_PREFIX] / 0x40 == old(m.regs[SocRegs.OCP_PREFIX]) / 0x40
    ensures m.regs[SocRegs.OCP_PREFIX] % 0x40 == old(m.Dptr()) / 0x400
    ensures m.stack == old(m.stack) && m.phyReads == old(m.phyReads)
    ensures Mirror.Traces(trace, old(m.AsView()), m.AsView(), |m.stack| + 1)
  {
    ghost var v := m.AsView();
    PrefixField(m.regs[SocRegs.OCP_PREFIX], m.Dptr());
    LowBits(m.dph, m.dpl);
    StorePrefix(m);
    ghost var before := m.AsView();
    ghost var inner := PortBase(m);
    ghost var after := m.AsView();
    AddOcpBits(m);
    trace := [Mirror.Registers(before)] + inner + [Mirror.Registers(m.AsView())];
    Mirror.AroundTraces(inner, v, before, after, m.AsView(), |m.stack| + 1);
  }

  /** hello.s:364-390: OCP bits 5-1 and 9-6 are added to the port's base. */
  method AddOcpBits(m: Cpu)
    requires m.Dptr() == 0x2000 + m.r7 * 0x20
    modifies m`acc, m`b, m`psw, m`dpl, m`dph, m`r5, m`r6
    ensures m.Dptr() == old(m.Dptr()) + old(m.r5) / 2 % 0x20 + Joined(old(m.r6), old(m.r5)) / 0x40 % 0x10 * 0x100
  {
    AddLowBits(m);
    HighNibble(m);
    BitSetBit(m.psw, Alu.PSW_C, false, Alu.PSW_C);
    Alu.AddcExact(UpdateBit(m.psw, Alu.PSW_C, false), m.acc, m.dph);
    var sum := m.AluAdd(m.acc, m.dph);
    m.acc := sum;
    m.dph := m.acc;
  }

  lemma LowBits(h: byte, l: byte)
    ensures l / 2 % 0x20 == Joined(h, l) / 2 % 0x20
  {
    assert Joined(h, l) / 2 == 0x80 * h + l / 2;
  }

  /** The pair of calls that opens every PHY access: the read reaches phyocp_read with the OCP address, bit 0 cleared. */
  method ReadPhy(m: Cpu)
    requires SocRegs.OCP_PREFIX in m.regs && m.r7 < 8
    modifies m`acc, m`b, m`psw, m`dpl, m`dph, m`r5, m`r6, m`stack, m`indaccAddrH, m`indaccAddrL
    modifies m`indaccWdataH, m`indaccWdataL, m`indaccRdataH, m`indaccRdataL, m`regs, m`phyReads
    ensures m.phyReads == old(m.phyReads) + [old(m.Dptr()) - old(m.Dptr()) % 2]
  {
    RoundTrip(m.r7, m.Dptr(), m.regs[SocRegs.OCP_PREFIX]);
    ghost var trace := PhyocpRegAddr(m);
    m.RegRead();
  }
}

/**
  The RTL8367S register file as rtl8367s.lua keeps it: socreg_read and socreg_write over soc_regs, and the decoding
  of a PHY access from a register address and the OCP prefix register.
*/
module SocRegs {
  import opened Bits

  const OCP_PREFIX: word := 0x1d15
  const NIC_RXRDRL: word := 0x1a04
  const NO_DATA: word := 0xdead

  type Regs = map<word, word>

  function Reg(regs: Regs, addr: word): word {
    if addr in regs then regs[addr] else NO_DATA
  }

  predicate IsPhy(addr: word) {
    0x2000 <= addr < 0x3000
  }

  /** The OCP address socreg_read passes to phyocp_read. */
  function PhyAddress(prefix: word, addr: word): nat {
    Or(Or(And(addr, 0x1f), And(addr, 0xf00) / 8), And(prefix, 0x3f) * 0x200) * 2
  }

  function ReadValue(regs: Regs, addr: word): word {
    if IsPhy(addr) then NO_DATA else Reg(regs, addr)
  }

  /** Reading NIC_RXRDRL resets it; no other read changes a register. */
  function AfterRead(regs: Regs, addr: word): Regs {
    if addr == NIC_RXRDRL then regs[addr := 0] else regs
  }

  lemma PhyAddressValue(prefix: word, addr: word)
    ensures PhyAddress(prefix, addr) == 2 * (addr % 0x20 + addr / 0x100 % 0x10 * 0x20 + prefix % 0x40 * 0x200)
  {
    LowFive(addr);
    LowSix(prefix);
    Nibble(addr);
    OrFields(addr % 0x20, addr / 0x100 % 0x10, prefix % 0x40);
    var low, mid, high := And(addr, 0x1f), And(addr, 0xf00) / 8, And(prefix, 0x3f) * 0x200;
    assert Or(Or(low, mid), high) == addr % 0x20 + addr / 0x100 % 0x10 * 0x20 + prefix % 0x40 * 0x200;
  }

  lemma LowFive(x: word)
    ensures And(x, 0x1f) == x % 0x20
  {
    Pow2Values();
    AndLow(x, 5);
  }

  lemma LowSix(x: word)
    ensures And(x, 0x3f) == x % 0x40
  {
    Pow2Values();
    AndLow(x, 6);
  }

  lemma Nibble(addr: word)
    ensures And(addr, 0xf00) / 8 == addr / 0x100 % 0x10 * 0x20
  {
    Pow2Values();
    AndLow(addr / 0x100, 4);
    AndSplit(addr / 0x100, addr % 0x100, 0xf, 0, 8);
    assert Join(addr / 0x100, addr % 0x100, 8) == addr && Join(0xf, 0, 8) == 0xf00;
    assert And(addr % 0x100, 0) == 0;
  }

  lemma OrFields(low: nat, mid: nat, high: nat)
    requires low < 0x20 && mid < 0x10
    ensures Or(Or(low, mid * 0x20), high * 0x200) == low + mid * 0x20 + high * 0x200
  {
    Pow2Values();
    assert Pow2(9) == 2 * Pow2(8);
    OrDisjoint(mid, low, 5);
    OrDisjoint(high, mid * 0x20 + low, 9);
  }
}

/**
  The instructions of ops.txt that the firmware routines use, on the registers those routines touch, together with
  the special function registers they reach: the UART, the indirect register access port and the external stack.
*/
module Cpu {
  import opened Bits
  import opened Alu
  import opened SocRegs

  const SCON_TI := 1

  /** The registers of class Cpu that are cells of the core's memory, and the live stack bytes, top last. */
  datatype View = View(
    acc: byte, b: byte, psw: byte, dpl: byte, dph: byte,
    r0: byte, r1: byte, r2: byte, r5: byte, r6: byte, r7: byte,
    stack: seq<byte>)

  class Cpu {
    var acc: byte
    var b: byte
    var psw: byte
    var dpl: byte
    var dph: byte
    var r0: byte
    var r1: byte
    var r2: byte
    var r5: byte
    var r6: byte
    var r7: byte
    var stack: seq<byte>       // the live stack bytes, top last; see Mirror
    var scon: byte
    var sent: seq<byte>        // every byte written to SBUF
    var indaccAddrH: byte
    var indaccAddrL: byte
    var indaccWdataH: byte
    var indaccWdataL: byte
    var indaccRdataH: byte
    var indaccRdataL: byte
    var regs: Regs
    var phyReads: seq<nat>     // every address handed to phyocp_read
    var ssp: int
    const code: word -> byte   // readc under the current mapping
    const xram: word -> byte   // readx under the current mapping

    constructor (code: word -> byte, xram: word -> byte, regs: Regs)
      ensures this.code == code && this.xram == xram && this.regs == regs && sent == [] && stack == []
    {
      this.code, this.xram, this.regs := code, xram, regs;
      acc, b, psw, dpl, dph, scon := 0, 0, 0, 0, 0, 0;
      r0, r1, r2, r5, r6, r7 := 0, 0, 0, 0, 0, 0;
      indaccAddrH, indaccAddrL, indaccWdataH, indaccWdataL, indaccRdataH, indaccRdataL := 0, 0, 0, 0, 0, 0;
      stack, sent, phyReads, ssp := [], [], [], 0;
    }

    function Dptr(): word
      reads this`dph, this`dpl
    {
      0x100 * dph + dpl
    }

    function AsView(): View
      reads this
    {
      View(acc, b, psw, dpl, dph, r0, r1, r2, r5, r6, r7, stack)
    }

    // ----- arithmetic -----

    /** The four assignments to PSW that alu_addc and alu_subb end with. */
    method SetFlags(c: bool, ac: bool, ov: bool)
      modifies this`psw
      ensures psw == WithFlags(old(psw), c, ac, ov)
    {
      MaskedFlags(psw, c, ac, ov);
      psw := AndByte(psw, 0x3b);
      psw := OrByte(psw, if c then 0x80 else 0);
      psw := OrByte(psw, if ac then 0x40 else 0);
      psw := OrByte(psw, if ov then 0x04 else 0);
    }

    method AluAddc(op1: byte, op2: byte) returns (res: byte)
      modifies this`psw
      ensures Out(res, psw) == Addc(old(psw), op1, op2)
    {
      var c := Carry(psw);
      res := U8(op1 + op2 + c);
      var sres := Signed(op1) + Signed(op2) + c;
      SetFlags(op1 + op2 + c > 0xff, op1 % 0x10 + op2 % 0x10 + c > 0xf, sres > 127 || sres < -128);
    }

    method AluAdd(op1: byte, op2: byte) returns (res: byte)
      modifies this`psw
      ensures Out(res, psw) == Addc(UpdateBit(old(psw), PSW_C, false), op1, op2)
    {
      psw := UpdateBit(psw, PSW_C, false);
      res := AluAddc(op1, op2);
    }

    method AluSubb(op1: byte, op2: byte) returns (res: byte)
      modifies this`psw
      ensures Out(res, psw) == Subb(old(psw), op1, op2)
    {
      var c := Carry(psw);
      res := U8(op1 - op2 - c);
      var sres := Signed(op1) - Signed(op2) - c;
      SetFlags(op2 + c > op1, (op2 + c) % 0x10 > op1 % 0x10, sres > 127 || sres < -128);
    }

    /** CJNE A,#data: alu_cmp sets C; the branch is taken when the operands differ. */
    method CjneA(data: byte) returns (taken: bool)
      modifies this`psw
      ensures taken == (acc != data) && psw == UpdateBit(old(psw), PSW_C, acc < data)
    {
      SetBitTwice(psw, PSW_C, false, true);
      psw := UpdateBit(psw, PSW_C, false);
      if acc < data {
        psw := UpdateBit(psw, PSW_C, true);
      }
      taken := acc != data;
    }

    method RrcA()
      modifies this`acc, this`psw
      ensures Out(acc, psw) == Rrc(old(acc), old(psw))
    {
      var tmp1 := acc;
      acc := acc / 2 + if Bit(psw, PSW_C) then 0x80 else 0;
      psw := UpdateBit(psw, PSW_C, tmp1 % 2 == 1);
    }

    method RlcA()
      modifies this`acc, this`psw
      ensures Out(acc, psw) == Rlc(old(acc), old(psw))
    {
      var tmp1 := acc;
      acc := acc % 0x80 * 2 + if Bit(psw, PSW_C) then 1 else 0;
      psw := UpdateBit(psw, PSW_C, tmp1 >= 0x80);
    }

    method DaA()
      modifies this`acc, this`psw
      ensures Out(acc, psw) == DecimalAdjust(old(acc), old(psw))
      ensures var low := old(acc) + if old(acc) % 0x10 > 9 || Bit(old(psw), PSW_AC) then 6 else 0;
              var all := low + if low / 0x10 > 9 || Bit(old(psw), PSW_C) then 0x60 else 0;
              acc == all % 0x100 && psw == if all > 0x99 then UpdateBit(old(psw), PSW_C, true) else old(psw)
    {
      var tmp16: int := acc;
      if tmp16 % 0x10 > 9 || Bit(psw, PSW_AC) {
        tmp16 := tmp16 + 6;
      }
      if tmp16 / 0x10 > 9 || Bit(psw, PSW_C) {
        tmp16 := tmp16 + 0x60;
      }
      acc := U8(tmp16);
      if tmp16 > 0x99 {
        psw := UpdateBit(psw, PSW_C, true);
      }
    }

    method RrA()
      modifies this`acc
      ensures acc == old(acc) / 2 + old(acc) % 2 * 0x80
    {
      acc := acc / 2 + acc % 2 * 0x80;
    }

    method SwapA()
      modifies this`acc
      ensures acc == old(acc) % 0x10 * 0x10 + old(acc) / 0x10
    {
      var tmp1 := acc / 0x10;
      var tmp2 := acc % 0x10 * 0x10;
      acc := tmp2 + tmp1;
    }

    /** MUL AB: `|` binds tighter than `?:`, so the whole PSW becomes OV or 0. */
    method MulAB()
      modifies this`acc, this`b, this`psw
      ensures acc + 0x100 * b == old(acc) * old(b)
      ensures psw == (if And(old(psw), 0x7b) != 0 || b != 0 then 0x04 else 0) && !Bit(psw, PSW_C)
    {
      var x: int, y: int := acc, b;
      var tmp16 := x * y;
      ProductFits(x, y);
      acc := tmp16 % 0x100;
      b := tmp16 / 0x100;
      psw := if And(psw, 0x7b) != 0 || b != 0 then 0x04 else 0;
      OnlyOvHasNoCarry();
    }

    // ----- moves, counters and bits -----

    /** CLR A; MOVC A,@A+DPTR; INC DPTR: the three instructions every table walk repeats. */
    method FetchCode()
      modifies this`acc, this`dpl, this`dph
      ensures acc == code(old(Dptr())) && Dptr() == Inc16(old(Dptr()))
    {
      acc := 0;
      MovcADptr();
      IncDptr();
    }

    method MovcADptr()
      modifies this`acc
      ensures acc == code(U16(Dptr() + old(acc)))
    {
      var dptr: int, a: int := Dptr(), acc;
      acc := code(U16(dptr + a));
    }

    method IncDptr()
      modifies this`dpl, this`dph
      ensures Dptr() == Inc16(old(Dptr()))
    {
      var dptr: int := Dptr();
      Inc16Exact(Dptr());
      var tmp16 := U16(dptr + 1);
      dph := tmp16 / 0x100;
      dpl := tmp16 % 0x100;
    }

    method DjnzR2() returns (taken: bool)
      modifies this`r2
      ensures r2 == (if old(r2) == 0 then 0xff else old(r2) - 1) && taken == (r2 != 0)
    {
      var x: int := r2;
      r2 := U8(x - 1);
      taken := r2 != 0;
    }

    method ClrC()
      modifies this`psw
      ensures psw == UpdateBit(old(psw), PSW_C, false)
    {
      psw := UpdateBit(psw, PSW_C, false);
    }

    method WriteF0(v: bool)
      modifies this`psw
      ensures psw == UpdateBit(old(psw), PSW_F0, v)
    {
      psw := UpdateBit(psw, PSW_F0, v);
    }

    method PushByte(x: byte)
      modifies this`stack
      ensures AsView() == old(AsView()).(stack := old(stack) + [x])
    {
      stack := stack + [x];
    }

    method PopByte() returns (x: byte)
      requires stack != []
      modifies this`stack
      ensures AsView() == old(AsView()).(stack := old(stack)[..|old(stack)| - 1]) && x == old(stack)[|old(stack)| - 1]
    {
      x := stack[|stack| - 1];
      stack := stack[..|stack| - 1];
    }

    // ----- UART -----

    /** MOV SBUF,A: the byte goes out and the put routine pokes SCON with TI set. */
    method WriteSbuf()
      modifies this`sent, this`scon
      ensures sent == old(sent) + [acc] && scon == UpdateBit(old(scon), SCON_TI, true)
    {
      sent := sent + [acc];
      scon := UpdateBit(scon, SCON_TI, true);
    }

    method ClrTi()
      modifies this`scon
      ensures scon == UpdateBit(old(scon), SCON_TI, false)
    {
      scon := UpdateBit(scon, SCON_TI, false);
    }

    // ----- indirect register access -----

    method SocregRead(addr: word) returns (data: word)
      requires OCP_PREFIX in regs
      modifies this`regs, this`phyReads
      ensures data == ReadValue(old(regs), addr)
      ensures data == if 0x2000 <= addr < 0x3000 || addr !in old(regs) then 0xdead else old(regs)[addr]
      ensures regs == (if addr == 0x1a04 then old(regs)[addr := 0] else old(regs))
      ensures regs == if IsPhy(addr) then old(regs) else AfterRead(old(regs), addr)
      ensures phyReads == if IsPhy(addr) then old(phyReads) + [PhyAddress(regs[OCP_PREFIX], addr)] else old(phyReads)
    {
      if addr >= 0x2000 && addr < 0x3000 {
        var addr15_10 := And(regs[OCP_PREFIX], 0x3f) * 0x200;
        var addr5_1 := And(addr, 0x1f);
        var addr9_6 := And(addr, 0xf00) / 8;
        phyReads := phyReads + [Or(Or(addr5_1, addr9_6), addr15_10) * 2];
        return NO_DATA;
      }
      data := if addr in regs then regs[addr] else NO_DATA;
      if addr == NIC_RXRDRL {
        regs := regs[addr := 0];
      }
    }

    method SfrIndaccCmd(data: byte)
      requires OCP_PREFIX in regs
      modifies this`indaccRdataH, this`indaccRdataL, this`regs, this`phyReads
      ensures var addr := Joined(indaccAddrH, indaccAddrL);
              && (data == 1 ==>
                  && Joined(indaccRdataH, indaccRdataL) == ReadValue(old(regs), addr)
                  && regs == (if IsPhy(addr) then old(regs) else AfterRead(old(regs), addr))
                  && phyReads == if IsPhy(addr) then old(phyReads) + [PhyAddress(regs[OCP_PREFIX], addr)] else old(phyReads))
              && (data == 3 ==> regs == old(regs)[addr := Joined(indaccWdataH, indaccWdataL)])
              && (data != 1 ==>
                  && phyReads == old(phyReads)
                  && indaccRdataH == old(indaccRdataH) && indaccRdataL == old(indaccRdataL))
              && (data != 1 && data != 3 ==> regs == old(regs))
    {
      var addr := Joined(indaccAddrH, indaccAddrL);
      if data == 1 {
        var v := SocregRead(addr);
        indaccRdataH := v / 0x100;
        indaccRdataL := v % 0x100;
      }
      if data == 3 {
        regs := regs[addr := Joined(indaccWdataH, indaccWdataL)];
      }
    }

    /** reg_status_loop: INDACC_STATUS always reads 0, so the CJNE falls through at once, with C clear. */
    method RegStatusLoop()
      modifies this`acc, this`psw
      ensures acc == 0 && psw == UpdateBit(old(psw), PSW_C, false)
    {
      var taken := true;
      while taken
        invariant !taken ==> acc == 0 && psw == UpdateBit(old(psw), PSW_C, false)
        invariant taken ==> psw == old(psw)
        decreases taken
      {
        acc := 0;
        taken := CjneA(0);
      }
    }

    method RegRead()
      requires OCP_PREFIX in regs
      modifies this`acc, this`psw, this`indaccAddrH, this`indaccAddrL, this`indaccRdataH, this`indaccRdataL
      modifies this`regs, this`phyReads
      ensures Joined(indaccRdataH, indaccRdataL) == ReadValue(old(regs), Dptr())
      ensures regs == if IsPhy(Dptr()) then old(regs) else AfterRead(old(regs), Dptr())
      ensures phyReads ==
              if IsPhy(Dptr()) then old(phyReads) + [PhyAddress(regs[OCP_PREFIX], Dptr())] else old(phyReads)
    {
      indaccAddrH := dph;
      indaccAddrL := dpl;
      SfrIndaccCmd(1);
      RegStatusLoop();
    }

    method RegWrite()
      requires OCP_PREFIX in regs
      modifies this`acc, this`psw, this`indaccAddrH, this`indaccAddrL, this`indaccRdataH, this`indaccRdataL
      modifies this`regs, this`phyReads
      ensures regs == old(regs)[Dptr() := Joined(indaccWdataH, indaccWdataL)] && phyReads == old(phyReads)
    {
      indaccAddrH := dph;
      indaccAddrL := dpl;
      SfrIndaccCmd(3);
      RegStatusLoop();
    }
  }

  function Joined(high: byte, low: byte): word {
    0x100 * high + low
  }

  lemma ProductFits(x: int, y: int)
    requires 0 <= x < 0x100 && 0 <= y < 0x100
    ensures 0 <= x * y < 0x1_0000
  {
    assert x * y <= 0xff * y;
  }

  lemma OnlyOvHasNoCarry()
    ensures !Bit(0, PSW_C) && !Bit(0x04, PSW_C)
  {
  }

  /** Clearing C, AC and OV with a mask and or-ing in the new ones sets exactly those three flags. */
  lemma MaskedFlags(psw: byte, c: bool, ac: bool, ov: bool)
    ensures OrByte(OrByte(OrByte(AndByte(psw, 0x3b), if c then 0x80 else 0), if ac then 0x40 else 0), if ov then 0x04 else 0)
         == WithFlags(psw, c, ac, ov)
  {
    var p1 := AndByte(psw, 0x3b);
    var p2 := OrByte(p1, if c then 0x80 else 0);
    var p3 := OrByte(p2, if ac then 0x40 else 0);
    var p4 := OrByte(p3, if ov then 0x04 else 0);
    FlagsRead(psw, c, ac, ov);
    forall i: nat | i < 8
      ensures Bit(p4, i) == Bit(WithFlags(psw, c, ac, ov), i)
    {
      AndBit(psw, 0x3b, i);
      OrBit(p1, if c then 0x80 else 0, i);
      OrBit(p2, if ac then 0x40 else 0, i);
      OrBit(p3, if ov then 0x04 else 0, i);
      MaskDigits(i);
    }
    Pow2Values();
    SameBits(p4, WithFlags(psw, c, ac, ov), 8);
  }

  lemma MaskDigits(i: nat)
    requires i < 8
    ensures Bit(0x3b, i) == (i !in {PSW_C, PSW_AC, PSW_OV})
    ensures Bit(0x80, i) == (i == PSW_C) && Bit(0x40, i) == (i == PSW_AC) && Bit(0x04, i) == (i == PSW_OV)
    ensures !Bit(0, i)
  {
    Pow2Values();
    OneDigit(7, i);
    OneDigit(6, i);
    assert Pow2(2) == 4;
    OneDigit(2, i);
    ZeroBit(i);
  }
}

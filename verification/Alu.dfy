/**
  The arithmetic of the emulator (core.c alu_*, ops.txt RLC/RRC/DA) on one accumulator byte and the PSW,
  and what chaining those byte operations computes on numbers of any length.
*/
module Alu {
  import opened Bits

  const PSW_C := 7
  const PSW_AC := 6
  const PSW_F0 := 5
  const PSW_OV := 2

  /** An accumulator and the flags left beside it. */
  datatype Out = Out(acc: byte, psw: byte)

  function Carry(psw: byte): nat {
    Digit(Bit(psw, PSW_C))
  }

  function WithFlags(psw: byte, c: bool, ac: bool, ov: bool): byte {
    UpdateBit(UpdateBit(UpdateBit(psw, PSW_C, c), PSW_AC, ac), PSW_OV, ov)
  }

  /** A byte read as a two's-complement number. */
  function Signed(x: byte): int {
    if x < 0x80 then x else x - 0x100
  }

  predicate FitsSigned(x: int) {
    -0x80 <= x < 0x80
  }

  function Addc(psw: byte, x: byte, y: byte): Out {
    var c := Carry(psw);
    Out((x + y + c) % 0x100,
        WithFlags(psw, x + y + c > 0xff, x % 0x10 + y % 0x10 + c > 0xf, !FitsSigned(Signed(x) + Signed(y) + c)))
  }

  /** AC is as core.c:907 computes it, which is not the borrow of the low nibbles when y ends in 0xf and C is set. */
  function Subb(psw: byte, x: byte, y: byte): Out {
    var c := Carry(psw);
    Out((x - y - c) % 0x100,
        WithFlags(psw, y + c > x, (y + c) % 0x10 > x % 0x10, !FitsSigned(Signed(x) - Signed(y) - c)))
  }

  /** tmp16 of DA A: the two corrections, before the carry out is taken. */
  function Corrected(acc: byte, ac: bool, c: bool): nat {
    var low := if acc % 0x10 > 9 || ac then acc + 6 else acc;
    if low / 0x10 > 9 || c then low + 0x60 else low
  }

  function DecimalAdjust(acc: byte, psw: byte): Out {
    var tmp := Corrected(acc, Bit(psw, PSW_AC), Bit(psw, PSW_C));
    Out(tmp % 0x100, if tmp > 0x99 then UpdateBit(psw, PSW_C, true) else psw)
  }

  function Rlc(acc: byte, psw: byte): Out {
    Out((2 * acc + Carry(psw)) % 0x100, UpdateBit(psw, PSW_C, acc >= 0x80))
  }

  function Rrc(acc: byte, psw: byte): Out {
    Out(acc / 2 + 0x80 * Carry(psw), UpdateBit(psw, PSW_C, acc % 2 == 1))
  }

  lemma FlagsRead(psw: byte, c: bool, ac: bool, ov: bool)
    ensures Bit(WithFlags(psw, c, ac, ov), PSW_C) == c
    ensures Bit(WithFlags(psw, c, ac, ov), PSW_AC) == ac
    ensures Bit(WithFlags(psw, c, ac, ov), PSW_OV) == ov
    ensures forall i: nat :: i !in {PSW_C, PSW_AC, PSW_OV} ==> Bit(WithFlags(psw, c, ac, ov), i) == Bit(psw, i)
  {
    var p1 := UpdateBit(psw, PSW_C, c);
    var p2 := UpdateBit(p1, PSW_AC, ac);
    forall i: nat
      ensures Bit(WithFlags(psw, c, ac, ov), i) ==
        if i == PSW_OV then ov else if i == PSW_AC then ac else if i == PSW_C then c else Bit(psw, i)
    {
      BitSetBit(psw, PSW_C, c, i);
      BitSetBit(p1, PSW_AC, ac, i);
      BitSetBit(p2, PSW_OV, ov, i);
    }
  }

  lemma AddcExact(psw: byte, x: byte, y: byte)
    ensures var o := Addc(psw, x, y); o.acc + 0x100 * Carry(o.psw) == x + y + Carry(psw)
    ensures Bit(Addc(psw, x, y).psw, PSW_OV) <==> !FitsSigned(Signed(x) + Signed(y) + Carry(psw))
    ensures Bit(Addc(psw, x, y).psw, PSW_AC) <==> x % 0x10 + y % 0x10 + Carry(psw) > 0xf
  {
    var c := Carry(psw);
    FlagsRead(psw, x + y + c > 0xff, x % 0x10 + y % 0x10 + c > 0xf, !FitsSigned(Signed(x) + Signed(y) + c));
  }

  lemma SubbExact(psw: byte, x: byte, y: byte)
    ensures var o := Subb(psw, x, y); o.acc - 0x100 * Carry(o.psw) == x - y - Carry(psw)
    ensures Bit(Subb(psw, x, y).psw, PSW_OV) <==> !FitsSigned(Signed(x) - Signed(y) - Carry(psw))
  {
    var c := Carry(psw);
    FlagsRead(psw, y + c > x, (y + c) % 0x10 > x % 0x10, !FitsSigned(Signed(x) - Signed(y) - c));
  }

  /** SUBB's AC is the borrow of the low nibbles exactly when y's is not 0xf or C is clear. */
  lemma SubbAcExact(psw: byte, x: byte, y: byte)
    ensures (Bit(Subb(psw, x, y).psw, PSW_AC) <==> x % 0x10 < y % 0x10 + Carry(psw)) <==> y % 0x10 != 0xf || !Bit(psw, PSW_C)
  {
    var c := Carry(psw);
    FlagsRead(psw, y + c > x, (y + c) % 0x10 > x % 0x10, !FitsSigned(Signed(x) - Signed(y) - c));
    NibbleSum(y, c);
  }

  lemma NibbleSum(y: byte, c: nat)
    requires c <= 1
    ensures (y + c) % 0x10 == if y % 0x10 + c == 0x10 then 0 else y % 0x10 + c
  {
    if y % 0x10 + c == 0x10 {
      DivModUnique(y + c, 0x10, y / 0x10 + 1, 0);
    } else {
      DivModUnique(y + c, 0x10, y / 0x10, y % 0x10 + c);
    }
  }

  /** The rotates and DA leave every flag but C, and DA never clears C. */
  lemma RotatesKeepFlags(x: byte, psw: byte, i: nat)
    requires i != PSW_C
    ensures Bit(Rlc(x, psw).psw, i) == Bit(psw, i) && Bit(Rrc(x, psw).psw, i) == Bit(psw, i)
    ensures Bit(DecimalAdjust(x, psw).psw, i) == Bit(psw, i)
    ensures Bit(psw, PSW_C) ==> Bit(DecimalAdjust(x, psw).psw, PSW_C)
  {
    BitSetBit(psw, PSW_C, x >= 0x80, i);
    BitSetBit(psw, PSW_C, x % 2 == 1, i);
    BitSetBit(psw, PSW_C, true, i);
    BitSetBit(psw, PSW_C, true, PSW_C);
  }

  /** The additions leave every flag but C, AC and OV. */
  lemma AddsKeepFlags(x: byte, y: byte, psw: byte, i: nat)
    requires i !in {PSW_C, PSW_AC, PSW_OV}
    ensures Bit(Addc(psw, x, y).psw, i) == Bit(psw, i) && Bit(Subb(psw, x, y).psw, i) == Bit(psw, i)
  {
    var c := Carry(psw);
    FlagsRead(psw, x + y + c > 0xff, x % 0x10 + y % 0x10 + c > 0xf, !FitsSigned(Signed(x) + Signed(y) + c));
    FlagsRead(psw, y + c > x, (y + c) % 0x10 > x % 0x10, !FitsSigned(Signed(x) - Signed(y) - c));
  }

  // ----- numbers of any length, low byte first -----

  /** The bytes a chain of operations leaves, and the PSW after its last operation. */
  datatype Chain = Chain(bytes: seq<byte>, psw: byte)

  function Power(radix: nat, n: nat): (p: nat)
    requires radix > 0
    ensures p > 0
  {
    if n == 0 then 1 else radix * Power(radix, n - 1)
  }

  function Val(x: seq<byte>): nat {
    if x == [] then 0 else x[0] + 0x100 * Val(x[1..])
  }

  function SignedVal(x: seq<byte>): int
    requires x != []
  {
    if |x| == 1 then Signed(x[0]) else x[0] + 0x100 * SignedVal(x[1..])
  }

  /** p when the flag is set: the weight a carry out of an n-byte number has. */
  function Weighted(carry: bool, p: nat): nat {
    if carry then p else 0
  }

  lemma {:induction false} ValBound(x: seq<byte>)
    ensures Val(x) < Power(0x100, |x|)
  {
    if x != [] {
      ValBound(x[1..]);
    }
  }

  /** The signed reading is the two's complement of the unsigned one. */
  lemma {:induction false} SignedValIsTwosComplement(x: seq<byte>)
    requires x != []
    ensures SignedVal(x) == Val(x) - Weighted(x[|x| - 1] >= 0x80, Power(0x100, |x|))
  {
    if |x| > 1 {
      SignedValIsTwosComplement(x[1..]);
    } else {
      assert Val(x[1..]) == 0;
      assert Power(0x100, 1) == 0x100 * Power(0x100, 0);
    }
  }

  function AddcChain(x: seq<byte>, y: seq<byte>, psw: byte): (r: Chain)
    requires |x| == |y|
    ensures |r.bytes| == |x|
    decreases |x|
  {
    if x == [] then Chain([], psw)
    else
      var first := Addc(psw, x[0], y[0]);
      var rest := AddcChain(x[1..], y[1..], first.psw);
      Chain([first.acc] + rest.bytes, rest.psw)
  }

  function SubbChain(x: seq<byte>, y: seq<byte>, psw: byte): (r: Chain)
    requires |x| == |y|
    ensures |r.bytes| == |x|
    decreases |x|
  {
    if x == [] then Chain([], psw)
    else
      var first := Subb(psw, x[0], y[0]);
      var rest := SubbChain(x[1..], y[1..], first.psw);
      Chain([first.acc] + rest.bytes, rest.psw)
  }

  lemma {:induction false} AddcChainExact(x: seq<byte>, y: seq<byte>, psw: byte)
    requires |x| == |y|
    ensures var r := AddcChain(x, y, psw);
      Val(r.bytes) + Weighted(Bit(r.psw, PSW_C), Power(0x100, |x|)) == Val(x) + Val(y) + Carry(psw)
    decreases |x|
  {
    if x != [] {
      var first := Addc(psw, x[0], y[0]);
      AddcExact(psw, x[0], y[0]);
      AddcChainExact(x[1..], y[1..], first.psw);
      assert AddcChain(x, y, psw).bytes[1..] == AddcChain(x[1..], y[1..], first.psw).bytes;
    }
  }

  lemma {:induction false} SubbChainExact(x: seq<byte>, y: seq<byte>, psw: byte)
    requires |x| == |y|
    ensures var r := SubbChain(x, y, psw);
      Val(r.bytes) - Weighted(Bit(r.psw, PSW_C), Power(0x100, |x|)) == Val(x) - Val(y) - Carry(psw)
    decreases |x|
  {
    if x != [] {
      var first := Subb(psw, x[0], y[0]);
      SubbExact(psw, x[0], y[0]);
      SubbChainExact(x[1..], y[1..], first.psw);
      assert SubbChain(x, y, psw).bytes[1..] == SubbChain(x[1..], y[1..], first.psw).bytes;
    }
  }

  /** A chain of ADDC adds mod 256^n, and its last C is exactly the unsigned carry. */
  lemma AddcChainAdds(x: seq<byte>, y: seq<byte>, psw: byte)
    requires |x| == |y|
    ensures var r := AddcChain(x, y, psw); var p := Power(0x100, |x|); var sum := Val(x) + Val(y) + Carry(psw);
      Val(r.bytes) < p && (Bit(r.psw, PSW_C) <==> sum >= p) && Val(r.bytes) == sum - Weighted(sum >= p, p)
  {
    AddcChainExact(x, y, psw);
    ValBound(AddcChain(x, y, psw).bytes);
  }

  /** A chain of SUBB subtracts mod 256^n, and its last C is exactly the unsigned borrow. */
  lemma SubbChainSubtracts(x: seq<byte>, y: seq<byte>, psw: byte)
    requires |x| == |y|
    ensures var r := SubbChain(x, y, psw); var p := Power(0x100, |x|); var diff := Val(x) - Val(y) - Carry(psw);
      Val(r.bytes) < p && (Bit(r.psw, PSW_C) <==> diff < 0) && Val(r.bytes) == diff + Weighted(diff < 0, p)
  {
    SubbChainExact(x, y, psw);
    ValBound(SubbChain(x, y, psw).bytes);
  }

  /** t fits a two's-complement number of n + 1 bytes. */
  predicate InRange(t: int, n: nat) {
    -0x80 * Power(0x100, n) <= t < 0x80 * Power(0x100, n)
  }

  lemma RangeStep(t: int, low: byte, n: nat)
    ensures InRange(0x100 * t + low, n + 1) <==> InRange(t, n)
  {
  }

  /** OV after the last ADDC is exactly two's-complement overflow of the whole number. */
  lemma {:induction false} AddcChainOverflow(x: seq<byte>, y: seq<byte>, psw: byte)
    requires |x| == |y| > 0
    ensures Bit(AddcChain(x, y, psw).psw, PSW_OV) <==> !InRange(SignedVal(x) + SignedVal(y) + Carry(psw), |x| - 1)
    decreases |x|
  {
    AddcExact(psw, x[0], y[0]);
    var first := Addc(psw, x[0], y[0]);
    if |x| == 1 {
      assert AddcChain(x[1..], y[1..], first.psw) == Chain([], first.psw);
    } else {
      AddcChainOverflow(x[1..], y[1..], first.psw);
      RangeStep(SignedVal(x[1..]) + SignedVal(y[1..]) + Carry(first.psw), first.acc, |x| - 2);
    }
  }

  /** OV after the last SUBB is exactly two's-complement overflow of the whole difference. */
  lemma {:induction false} SubbChainOverflow(x: seq<byte>, y: seq<byte>, psw: byte)
    requires |x| == |y| > 0
    ensures Bit(SubbChain(x, y, psw).psw, PSW_OV) <==> !InRange(SignedVal(x) - SignedVal(y) - Carry(psw), |x| - 1)
    decreases |x|
  {
    SubbExact(psw, x[0], y[0]);
    var first := Subb(psw, x[0], y[0]);
    if |x| == 1 {
      assert SubbChain(x[1..], y[1..], first.psw) == Chain([], first.psw);
    } else {
      SubbChainOverflow(x[1..], y[1..], first.psw);
      RangeStep(SignedVal(x[1..]) - SignedVal(y[1..]) - Carry(first.psw), first.acc, |x| - 2);
    }
  }

  // ----- packed decimal -----

  predicate IsBcd(x: byte) {
    x / 0x10 <= 9 && x % 0x10 <= 9
  }

  function Dec(x: byte): nat {
    10 * (x / 0x10) + x % 0x10
  }

  predicate AllBcd(x: seq<byte>) {
    forall i :: 0 <= i < |x| ==> IsBcd(x[i])
  }

  function DecVal(x: seq<byte>): nat {
    if x == [] then 0 else Dec(x[0]) + 100 * DecVal(x[1..])
  }

  function BcdChain(x: seq<byte>, y: seq<byte>, psw: byte): (r: Chain)
    requires |x| == |y|
    ensures |r.bytes| == |x|
    decreases |x|
  {
    if x == [] then Chain([], psw)
    else
      var sum := Addc(psw, x[0], y[0]);
      var first := DecimalAdjust(sum.acc, sum.psw);
      var rest := BcdChain(x[1..], y[1..], first.psw);
      Chain([first.acc] + rest.bytes, rest.psw)
  }

  lemma BcdByteExact(psw: byte, x: byte, y: byte)
    requires IsBcd(x) && IsBcd(y)
    ensures var s := Addc(psw, x, y); var o := DecimalAdjust(s.acc, s.psw);
      IsBcd(o.acc) && Dec(o.acc) + 100 * Carry(o.psw) == Dec(x) + Dec(y) + Carry(psw)
  {
    AddcExact(psw, x, y);
    var s := Addc(psw, x, y);
    AdjustCarry(s.acc, s.psw);
    AdjustDigits(x / 0x10 + y / 0x10, x % 0x10 + y % 0x10 + Carry(psw),
                 s.acc, Bit(s.psw, PSW_AC), Bit(s.psw, PSW_C));
  }

  lemma AdjustCarry(acc: byte, psw: byte)
    ensures Carry(DecimalAdjust(acc, psw).psw) ==
      Digit(Bit(psw, PSW_C) || Corrected(acc, Bit(psw, PSW_AC), Bit(psw, PSW_C)) > 0x99)
  {
    BitSetBit(psw, PSW_C, true, PSW_C);
  }

  lemma AdjustDigits(h: nat, l: nat, acc: byte, ac: bool, c: bool)
    requires h <= 18 && l <= 19 && acc + 0x100 * Digit(c) == 0x10 * h + l && (ac <==> l > 0xf)
    ensures var tmp := Corrected(acc, ac, c);
      IsBcd(tmp % 0x100) && Dec(tmp % 0x100) + 100 * Digit(c || tmp > 0x99) == 10 * h + l
  {
    AdjustLow(h, l, Digit(c));
    AdjustHigh(if l > 9 then h + 1 else h, if l > 9 then l - 10 else l, Digit(c));
  }

  /** DA's first correction moves a low digit sum above 9 into the high digit. */
  lemma AdjustLow(h: nat, l: nat, carry: nat)
    requires h <= 18 && l <= 19 && carry <= 1 && 0 <= 0x10 * h + l - 0x100 * carry < 0x100
    ensures var acc := 0x10 * h + l - 0x100 * carry;
      acc + (if acc % 0x10 > 9 || l > 0xf then 6 else 0)
      == 0x10 * (if l > 9 then h + 1 else h) + (if l > 9 then l - 10 else l) - 0x100 * carry
  {
  }

  /** DA's second correction moves a high digit above 9 into C. */
  lemma AdjustHigh(h: nat, l: nat, carry: nat)
    requires h <= 19 && l <= 9 && carry <= 1 && (carry == 1 ==> h >= 16) && (carry == 0 ==> h <= 16)
    ensures var low := 0x10 * h + l - 0x100 * carry;
      var all := if low / 0x10 > 9 || carry == 1 then low + 0x60 else low;
      var carry' := Digit(carry == 1 || all > 0x99);
      all >= 0 && IsBcd(all % 0x100) && Dec(all % 0x100) + 100 * carry' == 10 * h + l
  {
    var low := 0x10 * h + l - 0x100 * carry;
    DivModUnique(low, 0x10, h - 0x10 * carry, l);
    var digit := if h > 9 then h - 10 else h;
    var all := if low / 0x10 > 9 || carry == 1 then low + 0x60 else low;
    assert all == (if h > 9 && carry == 0 then 0x100 else 0) + 0x10 * digit + l;
    DivModUnique(all, 0x100, if h > 9 && carry == 0 then 1 else 0, 0x10 * digit + l);
    DivModUnique(0x10 * digit + l, 0x10, digit, l);
  }

  lemma {:induction false} BcdChainExact(x: seq<byte>, y: seq<byte>, psw: byte)
    requires |x| == |y| && AllBcd(x) && AllBcd(y)
    ensures var r := BcdChain(x, y, psw);
      AllBcd(r.bytes) &&
      DecVal(r.bytes) + Weighted(Bit(r.psw, PSW_C), Power(100, |x|)) == DecVal(x) + DecVal(y) + Carry(psw)
    decreases |x|
  {
    if x != [] {
      var sum := Addc(psw, x[0], y[0]);
      var first := DecimalAdjust(sum.acc, sum.psw);
      BcdByteExact(psw, x[0], y[0]);
      BcdChainExact(x[1..], y[1..], first.psw);
      assert BcdChain(x, y, psw).bytes[1..] == BcdChain(x[1..], y[1..], first.psw).bytes;
    }
  }

  lemma {:induction false} DecValBound(x: seq<byte>)
    requires AllBcd(x)
    ensures DecVal(x) < Power(100, |x|)
  {
    if x != [] {
      DecValBound(x[1..]);
    }
  }

  /** ADDC then DA on each byte adds packed decimals mod 100^n; the last C is exactly the decimal carry. */
  lemma BcdChainAdds(x: seq<byte>, y: seq<byte>, psw: byte)
    requires |x| == |y| && AllBcd(x) && AllBcd(y)
    ensures var r := BcdChain(x, y, psw); var p := Power(100, |x|); var sum := DecVal(x) + DecVal(y) + Carry(psw);
      AllBcd(r.bytes) && DecVal(r.bytes) < p && (Bit(r.psw, PSW_C) <==> sum >= p) &&
      DecVal(r.bytes) == sum - Weighted(sum >= p, p)
  {
    BcdChainExact(x, y, psw);
    DecValBound(BcdChain(x, y, psw).bytes);
  }

  // ----- shifts -----

  /** RLC over each byte from the low end. */
  function RlcChain(x: seq<byte>, psw: byte): (r: Chain)
    ensures |r.bytes| == |x|
  {
    if x == [] then Chain([], psw)
    else
      var first := Rlc(x[0], psw);
      var rest := RlcChain(x[1..], first.psw);
      Chain([first.acc] + rest.bytes, rest.psw)
  }

  /** RRC over each byte from the high end. */
  function RrcChain(x: seq<byte>, psw: byte): (r: Chain)
    ensures |r.bytes| == |x|
  {
    if x == [] then Chain([], psw)
    else
      var rest := RrcChain(x[1..], psw);
      var first := Rrc(x[0], rest.psw);
      Chain([first.acc] + rest.bytes, first.psw)
  }

  lemma RlcExact(acc: byte, psw: byte)
    ensures var o := Rlc(acc, psw); o.acc + 0x100 * Carry(o.psw) == 2 * acc + Carry(psw)
  {
    BitSetBit(psw, PSW_C, acc >= 0x80, PSW_C);
  }

  lemma RrcExact(acc: byte, psw: byte)
    ensures var o := Rrc(acc, psw); 2 * o.acc + Carry(o.psw) == acc + 0x100 * Carry(psw)
  {
    BitSetBit(psw, PSW_C, acc % 2 == 1, PSW_C);
  }

  lemma {:induction false} RlcChainDoubles(x: seq<byte>, psw: byte)
    ensures var r := RlcChain(x, psw);
      Val(r.bytes) + Weighted(Bit(r.psw, PSW_C), Power(0x100, |x|)) == 2 * Val(x) + Carry(psw)
  {
    if x != [] {
      var first := Rlc(x[0], psw);
      RlcExact(x[0], psw);
      RlcChainDoubles(x[1..], first.psw);
      assert RlcChain(x, psw).bytes[1..] == RlcChain(x[1..], first.psw).bytes;
    }
  }

  lemma {:induction false} RrcChainHalves(x: seq<byte>, psw: byte)
    ensures var r := RrcChain(x, psw);
      2 * Val(r.bytes) + Carry(r.psw) == Val(x) + Weighted(Bit(psw, PSW_C), Power(0x100, |x|))
  {
    if x != [] {
      var rest := RrcChain(x[1..], psw);
      RrcExact(x[0], rest.psw);
      RrcChainHalves(x[1..], psw);
      assert RrcChain(x, psw).bytes[1..] == rest.bytes;
    }
  }

  lemma RotateBack(acc: byte, psw: byte)
    ensures var l := Rlc(acc, psw); Rrc(l.acc, l.psw) == Out(acc, psw)
    ensures var r := Rrc(acc, psw); Rlc(r.acc, r.psw) == Out(acc, psw)
  {
    CarryBack(psw, acc >= 0x80);
    CarryBack(psw, acc % 2 == 1);
    RotateBits(acc, Carry(psw));
  }

  lemma RotateBits(acc: byte, c: nat)
    requires c <= 1
    ensures var l := (2 * acc + c) % 0x100; l / 2 + 0x80 * Digit(acc >= 0x80) == acc && l % 2 == c
    ensures var r := acc / 2 + 0x80 * c; (2 * r + acc % 2) % 0x100 == acc && (r >= 0x80 <==> c == 1)
  {
  }

  lemma CarryBack(psw: byte, v: bool)
    ensures var p := UpdateBit(psw, PSW_C, v); Bit(p, PSW_C) == v && UpdateBit(p, PSW_C, Bit(psw, PSW_C)) == psw
  {
    BitSetBit(psw, PSW_C, v, PSW_C);
    SetBitTwice(psw, PSW_C, v, Bit(psw, PSW_C));
    SetBitSame(psw, PSW_C);
  }

  /** The two chains undo each other, bytes and whole PSW. */
  lemma {:induction false} RrcUndoesRlc(x: seq<byte>, psw: byte)
    ensures var r := RlcChain(x, psw); RrcChain(r.bytes, r.psw) == Chain(x, psw)
  {
    if x != [] {
      RotateBack(x[0], psw);
      var first := Rlc(x[0], psw);
      RrcUndoesRlc(x[1..], first.psw);
      assert RlcChain(x, psw).bytes[1..] == RlcChain(x[1..], first.psw).bytes;
      assert [x[0]] + x[1..] == x;
    }
  }

  lemma {:induction false} RlcUndoesRrc(x: seq<byte>, psw: byte)
    ensures var r := RrcChain(x, psw); RlcChain(r.bytes, r.psw) == Chain(x, psw)
  {
    if x != [] {
      RlcUndoesRrc(x[1..], psw);
      var rest := RrcChain(x[1..], psw);
      RotateBack(x[0], rest.psw);
      assert RrcChain(x, psw).bytes[1..] == rest.bytes;
      assert [x[0]] + x[1..] == x;
    }
  }
}

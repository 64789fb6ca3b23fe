/**
  The emulator's one array of internal memory (core.c ramsfr): lower IRAM at 0x00-0x7f, special function
  registers at 0x80-0xff and upper IRAM, reached only indirectly, at 0x100-0x17f; and its bit space.
*/
module Ramsfr {
  import opened Bits

  const RAM_SIZE := 0x180
  type Ram = s: seq<byte> | |s| == RAM_SIZE witness seq(RAM_SIZE, _ => 0)

  const SP: byte := 0x81
  const PSW: byte := 0xd0
  const ACC: byte := 0xe0
  const BREG: byte := 0xf0
  const SBUF: byte := 0x99
  const SCON: byte := 0x98
  const PCON: byte := 0x87
  const T2CON: byte := 0xc8
  const RI: nat := 0
  const TI: nat := 1
  const CARRY_BIT: byte := 0xd7

  /** `addr + (addr & 0x80)`: indirect addresses skip over the special function registers. */
  function Cell(addr: byte): (c: nat)
    ensures c < RAM_SIZE && !(0x80 <= c < 0x100)
  {
    if addr < 0x80 then addr else addr + 0x80
  }

  lemma CellInjective(a: byte, b: byte)
    requires Cell(a) == Cell(b)
    ensures a == b
  {
  }

  function ReadI(ram: Ram, addr: byte): byte {
    ram[Cell(addr)]
  }

  function WriteI(ram: Ram, addr: byte, val: byte): Ram {
    ram[Cell(addr) := val]
  }

  /** The SFRs main.c sfr_init leaves trapped: every one but SP, DPL, DPH, PSW, ACC and B. */
  predicate Trapped(addr: byte) {
    addr >= 0x80 && addr !in {SP, 0x82, 0x83, PSW, ACC, BREG}
  }

  /** Memory after a direct read: a trapped SFR's get routine leaves `got` in its cell. */
  function Got(ram: Ram, addr: byte, got: byte): Ram {
    if Trapped(addr) then ram[addr := got] else ram
  }

  /** What the put routine of SBUF does to SCON. */
  function SetTi(ram: Ram): Ram {
    ram[SCON := UpdateBit(ram[SCON], TI, true)]
  }

  /** What the PCON hook of rtl8372.lua does to T2CON on a write. */
  function SetTf2(ram: Ram): Ram {
    ram[T2CON := UpdateBit(ram[T2CON], 7, true)]
  }

  // ----- bit addresses -----

  const BITADDR: seq<byte> := [
    0x20, 0x21, 0x22, 0x23, 0x24, 0x25, 0x26, 0x27,
    0x28, 0x29, 0x2a, 0x2b, 0x2c, 0x2d, 0x2e, 0x2f,
    0x80, 0x88, 0x90, 0x98, 0xa0, 0xa8, 0xb0, 0xb8,
    0xc0, 0xc8, 0xd0, 0xd8, 0xe0, 0xe8, 0xf0, 0xf8
  ]

  function ByteOf(bit: byte): byte {
    BITADDR[bit / 8]
  }

  lemma ByteOfRange(bit: byte)
    ensures ByteOf(bit) == if bit < 0x80 then 0x20 + bit / 8 else 8 * (bit / 8)
  {
  }

  /** The 256 bit addresses name 256 different (byte, digit) positions. */
  lemma BitPositionsDistinct(b: byte, b': byte)
    requires ByteOf(b) == ByteOf(b') && b % 8 == b' % 8
    ensures b == b'
  {
    ByteOfRange(b);
    ByteOfRange(b');
  }

  function ReadB(ram: Ram, bit: byte): bool {
    Bit(ram[ByteOf(bit)], bit % 8)
  }

  function WriteB(ram: Ram, bit: byte, v: bool): Ram {
    ram[ByteOf(bit) := UpdateBit(ram[ByteOf(bit)], bit % 8, v)]
  }

  /** The bit instructions of ops.txt, apart from their effect on pc. */
  datatype BitOp =
    | Setb(bit: byte) | Clr(bit: byte) | Cpl(bit: byte)
    | MovBitC(bit: byte) | MovCBit(bit: byte) | Jbc(bit: byte)
    | AnlC(bit: byte) | AnlCNot(bit: byte) | OrlC(bit: byte) | OrlCNot(bit: byte)

  function ExecBit(op: BitOp, ram: Ram): Ram {
    match op
    case Setb(b) => WriteB(ram, b, true)
    case Clr(b) => WriteB(ram, b, false)
    case Cpl(b) => WriteB(ram, b, !ReadB(ram, b))
    case MovBitC(b) => WriteB(ram, b, Bit(ram[PSW], 7))
    case MovCBit(b) =>
      var cleared := ram[PSW := UpdateBit(ram[PSW], 7, false)];
      if ReadB(cleared, b) then ram[PSW := UpdateBit(ram[PSW], 7, true)] else cleared
    case Jbc(b) => if ReadB(ram, b) then WriteB(ram, b, false) else ram
    case AnlC(b) => ram[PSW := UpdateBit(ram[PSW], 7, Bit(ram[PSW], 7) && ReadB(ram, b))]
    case AnlCNot(b) => ram[PSW := UpdateBit(ram[PSW], 7, Bit(ram[PSW], 7) && !ReadB(ram, b))]
    case OrlC(b) => ram[PSW := UpdateBit(ram[PSW], 7, Bit(ram[PSW], 7) || ReadB(ram, b))]
    case OrlCNot(b) => ram[PSW := UpdateBit(ram[PSW], 7, Bit(ram[PSW], 7) || !ReadB(ram, b))]
  }

  /**
    What each instruction means on a plain table of 256 booleans; C is entry 0xd7 of that table. MOV C,bit clears C
    before it reads the bit, so MOV C,0xd7 leaves C clear.
  */
  function ApplyBit(op: BitOp, bits: seq<bool>): (r: seq<bool>)
    requires |bits| == 0x100
    ensures |r| == 0x100
  {
    var c := bits[CARRY_BIT];
    match op
    case Setb(b) => bits[b := true]
    case Clr(b) => bits[b := false]
    case Cpl(b) => bits[b := !bits[b]]
    case MovBitC(b) => bits[b := c]
    case MovCBit(b) => bits[CARRY_BIT := b != CARRY_BIT && bits[b]]
    case Jbc(b) => bits[b := false]
    case AnlC(b) => bits[CARRY_BIT := c && bits[b]]
    case AnlCNot(b) => bits[CARRY_BIT := c && !bits[b]]
    case OrlC(b) => bits[CARRY_BIT := c || bits[b]]
    case OrlCNot(b) => bits[CARRY_BIT := c || !bits[b]]
  }

  function BitView(ram: Ram): (v: seq<bool>)
    ensures |v| == 0x100
  {
    seq(0x100, b requires 0 <= b < 0x100 => ReadB(ram, b))
  }

  /** Cells no bit address names. */
  predicate SameOutsideBits(ram: Ram, ram': Ram) {
    forall i :: 0 <= i < RAM_SIZE && i !in BITADDR ==> ram'[i] == ram[i]
  }

  lemma WriteBView(ram: Ram, bit: byte, v: bool)
    ensures BitView(WriteB(ram, bit, v)) == BitView(ram)[bit := v]
    ensures SameOutsideBits(ram, WriteB(ram, bit, v))
  {
    var ram' := WriteB(ram, bit, v);
    forall b: byte
      ensures ReadB(ram', b) == if b == bit then v else ReadB(ram, b)
    {
      BitSetBit(ram[ByteOf(bit)], bit % 8, v, b % 8);
      if ByteOf(b) == ByteOf(bit) && b % 8 == bit % 8 {
        BitPositionsDistinct(b, bit);
      }
    }
    assert ByteOf(bit) in BITADDR;
  }

  lemma CarryIsBit(ram: Ram, v: bool)
    ensures ReadB(ram, CARRY_BIT) == Bit(ram[PSW], 7)
    ensures WriteB(ram, CARRY_BIT, v) == ram[PSW := UpdateBit(ram[PSW], 7, v)]
  {
  }

  lemma BitStepRefines(op: BitOp, ram: Ram)
    ensures BitView(ExecBit(op, ram)) == ApplyBit(op, BitView(ram))
    ensures SameOutsideBits(ram, ExecBit(op, ram))
  {
    var was, c := ReadB(ram, op.bit), ReadB(ram, CARRY_BIT);
    var v := match op
      case Setb(_) => true
      case Clr(_) => false
      case Jbc(_) => false
      case Cpl(_) => !was
      case MovBitC(_) => c
      case MovCBit(b) => b != CARRY_BIT && was
      case AnlC(_) => c && was
      case AnlCNot(_) => c && !was
      case OrlC(_) => c || was
      case OrlCNot(_) => c || !was;
    CarryIsBit(ram, v);
    if op.MovCBit? {
      CarryIsBit(ram, false);
      WriteBView(ram, CARRY_BIT, false);
      assert ReadB(ExecBit(Clr(CARRY_BIT), ram), op.bit) == BitView(WriteB(ram, CARRY_BIT, false))[op.bit];
    }
    if op.Setb? || op.Clr? || op.Cpl? || op.MovBitC? || op.Jbc? {
      WriteBView(ram, op.bit, v);
    } else {
      WriteBView(ram, CARRY_BIT, v);
    }
  }

  /** Where C and the addressed bit end up, for every instruction. */
  lemma BitEffects(op: BitOp, ram: Ram)
    ensures var t, c, was := ExecBit(op, ram), ReadB(ram, CARRY_BIT), ReadB(ram, op.bit);
      var carry, bit := ReadB(t, CARRY_BIT), ReadB(t, op.bit);
      && (op.Setb? ==> bit) && (op.Clr? || op.Jbc? ==> !bit) && (op.Cpl? ==> bit == !was) && (op.MovBitC? ==> bit == c)
      && (op.MovCBit? ==> carry == (op.bit != CARRY_BIT && was))
      && (op.AnlC? ==> carry == (c && was)) && (op.AnlCNot? ==> carry == (c && !was))
      && (op.OrlC? ==> carry == (c || was)) && (op.OrlCNot? ==> carry == (c || !was))
  {
    BitStepRefines(op, ram);
    var view := BitView(ExecBit(op, ram));
    assert ReadB(ExecBit(op, ram), CARRY_BIT) == view[CARRY_BIT] && ReadB(ExecBit(op, ram), op.bit) == view[op.bit];
    assert ReadB(ram, CARRY_BIT) == BitView(ram)[CARRY_BIT] && ReadB(ram, op.bit) == BitView(ram)[op.bit];
  }

  /** MOV C,bit does what the manual says exactly when its bit is not C itself, or C is clear already. */
  lemma MovCarryExact(ram: Ram, bit: byte)
    ensures ReadB(ExecBit(MovCBit(bit), ram), CARRY_BIT) == ReadB(ram, bit) <==>
            bit != CARRY_BIT || !ReadB(ram, CARRY_BIT)
  {
    BitStepRefines(MovCBit(bit), ram);
    assert ReadB(ExecBit(MovCBit(bit), ram), CARRY_BIT) == BitView(ExecBit(MovCBit(bit), ram))[CARRY_BIT];
    assert ReadB(ram, bit) == BitView(ram)[bit];
  }

  function ExecBits(ops: seq<BitOp>, ram: Ram): Ram {
    if ops == [] then ram else ExecBits(ops[1..], ExecBit(ops[0], ram))
  }

  function ApplyBits(ops: seq<BitOp>, bits: seq<bool>): (r: seq<bool>)
    requires |bits| == 0x100
    ensures |r| == 0x100
  {
    if ops == [] then bits else ApplyBits(ops[1..], ApplyBit(ops[0], bits))
  }

  /** Any run of bit instructions is the same run on a table of 256 independent booleans. */
  lemma {:induction false} BitRunRefines(ops: seq<BitOp>, ram: Ram)
    ensures BitView(ExecBits(ops, ram)) == ApplyBits(ops, BitView(ram))
    ensures SameOutsideBits(ram, ExecBits(ops, ram))
  {
    if ops != [] {
      BitStepRefines(ops[0], ram);
      BitRunRefines(ops[1..], ExecBit(ops[0], ram));
    }
  }

  predicate DigitsAre(x: byte, digits: seq<bool>)
    requires |digits| == 8
  {
    forall i: nat :: i < 8 ==> Bit(x, i) == digits[i]
  }

  /** A direct read of a bit-addressable byte agrees with the table: it is the one byte with those eight digits. */
  lemma BytesAgreeWithBits(ram: Ram, bit: byte, x: byte)
    requires bit % 8 == 0
    ensures x == ram[ByteOf(bit)] <==> DigitsAre(x, BitView(ram)[bit..bit + 8])
  {
    Pow2Values();
    var y := ram[ByteOf(bit)];
    assert DigitsAre(y, BitView(ram)[bit..bit + 8]) by {
      forall i: nat | i < 8
        ensures BitView(ram)[bit..bit + 8][i] == Bit(y, i)
      {
        assert (bit + i) / 8 == bit / 8 && (bit + i) % 8 == i;
      }
    }
    if DigitsAre(x, BitView(ram)[bit..bit + 8]) {
      SameBits(x, y, 8);
    }
  }
}

/**
  The hexdump printer of hello.s on the modelled instructions, the text it must send, and a parser for that text.
*/
module Hexdump {
  import opened Bits
  import Pages
  import Alu
  import opened Cpu

  const SPACE: byte := 0x20
  const COLON: byte := 0x3a
  const CR: byte := 13
  const LF: byte := 10

  // ----- the text -----

  /** '0'-'9', 'a'-'f' */
  function HexDigit(n: nat): byte
    requires n < 0x10
  {
    if n < 10 then 0x30 + n else 0x61 + (n - 10)
  }

  function Hex(x: byte): (r: seq<byte>)
    ensures |r| == 2
  {
    [HexDigit(x / 0x10), HexDigit(x % 0x10)]
  }

  function AddressText(high: byte, low: byte): seq<byte> {
    Hex(high) + Hex(low) + [COLON]
  }

  /** The memories a dump can read, and the R7 that selects one. */
  datatype Source = Source(code: word -> byte, xram: word -> byte, r7: byte)

  /** R7 selects code, external data, or the external stack, whose read comes from one address further up. */
  function ByteAt(mem: Source, addr: word): byte {
    if mem.r7 == 0 then mem.code(addr) else if mem.r7 == 1 then mem.xram(addr) else mem.xram(Inc16(addr))
  }

  /** One byte field, and the line end after the last of a line. */
  function ByteText(x: byte, last: bool): seq<byte> {
    [SPACE] + Hex(x) + (if last then [CR, LF] else [])
  }

  /** The address that starts a line. */
  function LineStart(addr: word, first: bool): seq<byte> {
    if first then AddressText(addr / 0x100, addr % 0x100) else []
  }

  /** Field k of a dump: an address before every 16th field from the first, CR LF after every 16th field. */
  function Field(mem: Source, addr: word, k: nat): seq<byte> {
    LineStart(addr, k % 16 == 0) + ByteText(ByteAt(mem, addr), k % 16 == 15)
  }

  /** Fields k to n - 1, of the bytes from addr on. */
  function Dump(mem: Source, addr: word, k: nat, n: nat): seq<byte>
    decreases n - k
  {
    if k >= n then [] else Field(mem, addr, k) + Dump(mem, Inc16(addr), k + 1, n)
  }

  // ----- reading it back -----

  datatype Token = Address(addr: word) | Byte(x: byte) | LineEnd

  datatype Parsed = Bad | Tokens(tokens: seq<Token>)

  /** 16 stands for a character that is no hex digit. */
  function Digit16(c: byte): (d: nat)
    ensures d <= 0x10
  {
    if 0x30 <= c < 0x3a then c - 0x30 else if 0x61 <= c < 0x67 then c - 0x61 + 10 else 0x10
  }

  predicate IsHexPair(text: seq<byte>) {
    |text| >= 2 && Digit16(text[0]) < 0x10 && Digit16(text[1]) < 0x10
  }

  function PairValue(text: seq<byte>): byte
    requires IsHexPair(text)
  {
    0x10 * Digit16(text[0]) + Digit16(text[1])
  }

  function Prefixed(t: seq<Token>, rest: Parsed): Parsed {
    if rest.Bad? then Bad else Tokens(t + rest.tokens)
  }

  function Parse(text: seq<byte>): Parsed
    decreases |text|
  {
    if text == [] then Tokens([])
    else if text[0] == SPACE then
      if IsHexPair(text[1..]) then Prefixed([Byte(PairValue(text[1..]))], Parse(text[3..])) else Bad
    else if |text| >= 2 && text[0] == CR && text[1] == LF then Prefixed([LineEnd], Parse(text[2..]))
    else if |text| >= 5 && IsHexPair(text) && IsHexPair(text[2..]) && text[4] == COLON then
      Prefixed([Address(Joined(PairValue(text), PairValue(text[2..])))], Parse(text[5..]))
    else Bad
  }

  function FieldTokens(mem: Source, addr: word, k: nat): seq<Token> {
    (if k % 16 == 0 then [Address(addr)] else []) + ([Byte(ByteAt(mem, addr))] + (if k % 16 == 15 then [LineEnd] else []))
  }

  function DumpTokens(mem: Source, addr: word, k: nat, n: nat): seq<Token>
    decreases n - k
  {
    if k >= n then [] else FieldTokens(mem, addr, k) + DumpTokens(mem, Inc16(addr), k + 1, n)
  }

  /** The bytes among the tokens. */
  function BytesOf(tokens: seq<Token>): seq<byte> {
    if tokens == [] then []
    else (match tokens[0] case Byte(x) => [x] case _ => []) + BytesOf(tokens[1..])
  }

  lemma HexPair(x: byte, rest: seq<byte>)
    ensures IsHexPair(Hex(x) + rest) && PairValue(Hex(x) + rest) == x
  {
  }

  lemma ParseAddress(high: byte, low: byte, rest: seq<byte>)
    ensures Parse(AddressText(high, low) + rest) == Prefixed([Address(Joined(high, low))], Parse(rest))
  {
    var text := AddressText(high, low) + rest;
    var tail := Hex(low) + ([COLON] + rest);
    HexPair(high, tail);
    HexPair(low, [COLON] + rest);
    assert text == Hex(high) + tail;
    assert text[2..] == tail;
    assert text[5..] == rest;
  }

  lemma ParseByte(x: byte, rest: seq<byte>)
    ensures Parse([SPACE] + Hex(x) + rest) == Prefixed([Byte(x)], Parse(rest))
  {
    var text := [SPACE] + Hex(x) + rest;
    HexPair(x, rest);
    assert text[1..] == Hex(x) + rest;
    assert text[3..] == rest;
  }

  lemma ParseNewline(rest: seq<byte>)
    ensures Parse([CR, LF] + rest) == Prefixed([LineEnd], Parse(rest))
  {
    assert ([CR, LF] + rest)[2..] == rest;
  }

  lemma ParseByteText(x: byte, last: bool, rest: seq<byte>)
    ensures Parse(ByteText(x, last) + rest) == Prefixed([Byte(x)] + (if last then [LineEnd] else []), Parse(rest))
  {
    if last {
      ParseByte(x, [CR, LF] + rest);
      ParseNewline(rest);
      assert ByteText(x, last) + rest == [SPACE] + Hex(x) + ([CR, LF] + rest);
      TwoPrefixes([Byte(x)], [LineEnd], Parse(rest));
    } else {
      ParseByte(x, rest);
      assert ByteText(x, last) + rest == [SPACE] + Hex(x) + rest;
      assert [Byte(x)] + [] == [Byte(x)];
    }
  }

  lemma TwoPrefixes(s: seq<Token>, t: seq<Token>, rest: Parsed)
    ensures Prefixed(s, Prefixed(t, rest)) == Prefixed(s + t, rest)
  {
    if rest.Tokens? {
      assert s + (t + rest.tokens) == s + t + rest.tokens;
    }
  }

  lemma ParseLineStart(addr: word, first: bool, rest: seq<byte>)
    ensures Parse(LineStart(addr, first) + rest) == Prefixed(if first then [Address(addr)] else [], Parse(rest))
  {
    if first {
      var high, low := addr / 0x100, addr % 0x100;
      assert Joined(high, low) == addr;
      ParseAddress(high, low, rest);
    } else {
      assert [] + rest == rest;
    }
  }

  lemma ParseParts(addr: word, first: bool, x: byte, last: bool, rest: seq<byte>)
    ensures Parse(LineStart(addr, first) + ByteText(x, last) + rest)
         == Prefixed((if first then [Address(addr)] else []) + ([Byte(x)] + (if last then [LineEnd] else [])), Parse(rest))
  {
    var start, body := LineStart(addr, first), ByteText(x, last);
    Regroup(start, body, rest);
    ParseLineStart(addr, first, body + rest);
    ParseByteText(x, last, rest);
    TwoPrefixes(if first then [Address(addr)] else [], [Byte(x)] + (if last then [LineEnd] else []), Parse(rest));
  }

  lemma {:induction false} ParseDump(mem: Source, addr: word, k: nat, n: nat)
    ensures Parse(Dump(mem, addr, k, n)) == Tokens(DumpTokens(mem, addr, k, n))
    decreases n - k
  {
    if k < n {
      ParseParts(addr, k % 16 == 0, ByteAt(mem, addr), k % 16 == 15, Dump(mem, Inc16(addr), k + 1, n));
      ParseDump(mem, Inc16(addr), k + 1, n);
    }
  }

  /** The n bytes from addr on, in address order. */
  function MemoryRead(mem: Source, addr: word, n: nat): (r: seq<byte>)
    ensures |r| == n
    decreases n
  {
    if n == 0 then [] else [ByteAt(mem, addr)] + MemoryRead(mem, Inc16(addr), n - 1)
  }

  lemma {:induction false} MemoryReadAt(mem: Source, addr: word, n: nat, i: nat)
    requires i < n
    ensures MemoryRead(mem, addr, n)[i] == ByteAt(mem, U16(addr + i))
    decreases n
  {
    if i > 0 {
      MemoryReadAt(mem, Inc16(addr), n - 1, i - 1);
      Inc16Exact(addr);
      assert U16(Inc16(addr) + (i - 1)) == U16(addr + i);
    }
  }

  lemma BytesOfConcat(s: seq<Token>, t: seq<Token>)
    ensures BytesOf(s + t) == BytesOf(s) + BytesOf(t)
  {
    if s == [] {
      assert s + t == t;
    } else {
      assert (s + t)[1..] == s[1..] + t;
      BytesOfConcat(s[1..], t);
    }
  }

  lemma FieldBytes(mem: Source, addr: word, k: nat)
    ensures BytesOf(FieldTokens(mem, addr, k)) == [ByteAt(mem, addr)]
  {
    var x := ByteAt(mem, addr);
    var head, tail := if k % 16 == 0 then [Address(addr)] else [], if k % 16 == 15 then [LineEnd] else [];
    BytesOfConcat(head, [Byte(x)] + tail);
    BytesOfConcat([Byte(x)], tail);
    assert [Address(addr)][1..] == [] && [Byte(x)][1..] == [] && [LineEnd][1..] == [];
  }

  lemma {:induction false} TokenBytes(mem: Source, addr: word, k: nat, n: nat)
    requires k <= n
    ensures BytesOf(DumpTokens(mem, addr, k, n)) == MemoryRead(mem, addr, n - k)
    decreases n - k
  {
    if k < n {
      FieldBytes(mem, addr, k);
      BytesOfConcat(FieldTokens(mem, addr, k), DumpTokens(mem, Inc16(addr), k + 1, n));
      TokenBytes(mem, Inc16(addr), k + 1, n);
    }
  }

  /** Parsing a dump back yields exactly the n bytes of memory it was taken from, in address order. */
  lemma DumpReadsBack(mem: Source, start: word, n: nat)
    ensures var p := Parse(Dump(mem, start, 0, n));
      p.Tokens? && |BytesOf(p.tokens)| == n && forall i :: 0 <= i < n ==> BytesOf(p.tokens)[i] == ByteAt(mem, U16(start + i))
  {
    ParseDump(mem, start, 0, n);
    TokenBytes(mem, start, 0, n);
    forall i | 0 <= i < n
      ensures MemoryRead(mem, start, n)[i] == ByteAt(mem, U16(start + i))
    {
      MemoryReadAt(mem, start, n, i);
    }
  }

  // ----- the text character by character -----

  const DIGITS: string := "0123456789abcdef"

  /** The character at each place of field i, which prints byte x of address addr. */
  predicate FieldReads(text: seq<byte>, i: nat, addr: word, x: byte) {
    var at := if i % 16 == 0 then 5 else 0;
    && |text| == at + 3 + (if i % 16 == 15 then 2 else 0)
    && (i % 16 == 0 ==>
        && text[0] == DIGITS[addr / 0x1000] as int && text[1] == DIGITS[addr / 0x100 % 0x10] as int
        && text[2] == DIGITS[addr / 0x10 % 0x10] as int && text[3] == DIGITS[addr % 0x10] as int
        && text[4] == ':' as int)
    && text[at] == ' ' as int && text[at + 1] == DIGITS[x / 0x10] as int && text[at + 2] == DIGITS[x % 0x10] as int
    && (i % 16 == 15 ==> text[at + 3] == '\r' as int && text[at + 4] == '\n' as int)
  }

  function FieldLength(i: nat): nat {
    3 + (if i % 16 == 0 then 5 else 0) + (if i % 16 == 15 then 2 else 0)
  }

  /** Characters before field i. */
  function FieldStart(i: nat): nat {
    if i == 0 then 0 else FieldStart(i - 1) + FieldLength(i - 1)
  }

  /** Three for each byte, an address for each line begun, a line end for each line full. */
  lemma {:induction false} FieldStartCounts(i: nat)
    ensures FieldStart(i) == 3 * i + 5 * ((i + 15) / 16) + 2 * (i / 16)
  {
    if i > 0 {
      FieldStartCounts(i - 1);
      LinesStep(i - 1);
    }
  }

  lemma LinesStep(i: nat)
    ensures (i + 1 + 15) / 16 == (i + 15) / 16 + (if i % 16 == 0 then 1 else 0)
    ensures (i + 1) / 16 == i / 16 + (if i % 16 == 15 then 1 else 0)
  {
  }

  lemma DigitText(n: nat)
    requires n < 0x10
    ensures HexDigit(n) == DIGITS[n] as int
  {
  }

  lemma FieldText(mem: Source, addr: word, i: nat)
    ensures FieldReads(Field(mem, addr, i), i, addr, ByteAt(mem, addr))
  {
    var x := ByteAt(mem, addr);
    DigitText(x / 0x10);
    DigitText(x % 0x10);
    AddressDigits(addr);
    DigitText(addr / 0x1000);
    DigitText(addr / 0x100 % 0x10);
    DigitText(addr / 0x10 % 0x10);
    DigitText(addr % 0x10);
  }

  lemma FieldSize(mem: Source, addr: word, i: nat)
    ensures |Field(mem, addr, i)| == FieldLength(i)
  {
  }

  lemma AddressDigits(addr: word)
    ensures addr / 0x100 / 0x10 == addr / 0x1000
    ensures addr % 0x100 / 0x10 == addr / 0x10 % 0x10 && addr % 0x100 % 0x10 == addr % 0x10
  {
    var h, l := addr / 0x100, addr % 0x100;
    DivModUnique(addr, 0x10, 0x10 * h + l / 0x10, l % 0x10);
    DivModUnique(0x10 * h + l / 0x10, 0x10, h, l / 0x10);
    DivModUnique(addr, 0x1000, h / 0x10, h % 0x10 * 0x100 + l);
  }

  lemma {:induction false} DumpSize(mem: Source, addr: word, k: nat, n: nat)
    requires k <= n
    ensures |Dump(mem, addr, k, n)| == FieldStart(n) - FieldStart(k)
    decreases n - k
  {
    if k < n {
      FieldSize(mem, addr, k);
      DumpSize(mem, Inc16(addr), k + 1, n);
    }
  }

  /** A dump is what comes before field i, and what comes from it on. */
  lemma {:induction false} DumpSplit(mem: Source, addr: word, k: nat, i: nat, n: nat)
    requires k <= i <= n
    ensures Dump(mem, addr, k, n) == Dump(mem, addr, k, i) + Dump(mem, Advanced(addr, i - k), i, n)
    decreases i - k
  {
    if i > k {
      DumpSplit(mem, Inc16(addr), k + 1, i, n);
      Regroup(Field(mem, addr, k), Dump(mem, Inc16(addr), k + 1, i), Dump(mem, Advanced(addr, i - k), i, n));
    }
  }

  lemma DumpText(mem: Source, start: word, n: nat, i: nat)
    requires i < n
    ensures var t, at, next := Dump(mem, start, 0, n), FieldStart(i), FieldStart(i + 1);
      at <= next <= |t| && t[at..next] == Field(mem, U16(start + i), i)
  {
    var addr := Advanced(start, i);
    AdvancedExact(start, i);
    DumpSplit(mem, start, 0, i, n);
    DumpSize(mem, start, 0, i);
    FieldSize(mem, addr, i);
    Middle(Dump(mem, start, 0, i), Field(mem, addr, i), Dump(mem, Inc16(addr), i + 1, n));
  }

  lemma Middle(x: seq<byte>, y: seq<byte>, z: seq<byte>)
    ensures (x + (y + z))[|x|..|x| + |y|] == y
  {
  }

  // ----- the routines -----

  lemma AddcKeepsF0(psw: byte, x: byte, y: byte)
    ensures Bit(Alu.Addc(psw, x, y).psw, Alu.PSW_F0) == Bit(psw, Alu.PSW_F0)
  {
    var c := Alu.Carry(psw);
    Alu.FlagsRead(psw, x + y + c > 0xff, x % 0x10 + y % 0x10 + c > 0xf, !Alu.FitsSigned(Alu.Signed(x) + Alu.Signed(y) + c));
  }

  lemma SubbKeepsF0(psw: byte, x: byte, y: byte)
    ensures Bit(Alu.Subb(psw, x, y).psw, Alu.PSW_F0) == Bit(psw, Alu.PSW_F0)
  {
    var c := Alu.Carry(psw);
    Alu.FlagsRead(psw, y + c > x, (y + c) % 0x10 > x % 0x10, !Alu.FitsSigned(Alu.Signed(x) - Alu.Signed(y) - c));
  }

  /** ADD A,#x */
  method AddImmediate(m: Cpu, x: byte)
    modifies m`acc, m`psw
    ensures m.acc + 0x100 * Alu.Carry(m.psw) == old(m.acc) + x
    ensures Bit(m.psw, Alu.PSW_F0) == Bit(old(m.psw), Alu.PSW_F0)
  {
    var p := UpdateBit(m.psw, Alu.PSW_C, false);
    BitSetBit(m.psw, Alu.PSW_C, false, Alu.PSW_C);
    BitSetBit(m.psw, Alu.PSW_C, false, Alu.PSW_F0);
    AddcKeepsF0(p, m.acc, x);
    Alu.AddcExact(p, m.acc, x);
    var sum := m.AluAdd(m.acc, x);
    m.acc := sum;
  }

  /** ADDC A,#x */
  method AddcImmediate(m: Cpu, x: byte)
    modifies m`acc, m`psw
    ensures m.acc + 0x100 * Alu.Carry(m.psw) == old(m.acc) + x + old(Alu.Carry(m.psw))
    ensures Bit(m.psw, Alu.PSW_F0) == Bit(old(m.psw), Alu.PSW_F0)
  {
    AddcKeepsF0(m.psw, m.acc, x);
    Alu.AddcExact(m.psw, m.acc, x);
    var sum := m.AluAddc(m.acc, x);
    m.acc := sum;
  }

  /** SUBB A,#x */
  method SubbImmediate(m: Cpu, x: byte)
    modifies m`acc, m`psw
    ensures m.acc - 0x100 * Alu.Carry(m.psw) == old(m.acc) - x - old(Alu.Carry(m.psw))
    ensures Bit(m.psw, Alu.PSW_F0) == Bit(old(m.psw), Alu.PSW_F0)
  {
    SubbKeepsF0(m.psw, m.acc, x);
    Alu.SubbExact(m.psw, m.acc, x);
    var diff := m.AluSubb(m.acc, x);
    m.acc := diff;
  }

  method ClearCarry(m: Cpu)
    modifies m`psw
    ensures Alu.Carry(m.psw) == 0 && Bit(m.psw, Alu.PSW_F0) == Bit(old(m.psw), Alu.PSW_F0)
  {
    BitSetBit(m.psw, Alu.PSW_C, false, Alu.PSW_F0);
    BitSetBit(m.psw, Alu.PSW_C, false, Alu.PSW_C);
    m.ClrC();
  }

  /** serial_write: the put routine of SBUF sets TI, so the wait ends at its first look. */
  method SerialWrite(m: Cpu)
    modifies m`scon, m`sent
    ensures m.sent == old(m.sent) + [m.acc]
  {
    m.ClrTi();
    BitSetBit(m.scon, SCON_TI, true, SCON_TI);
    m.WriteSbuf();
    var waiting := true;
    while waiting
      invariant Bit(m.scon, SCON_TI)
      decreases waiting
    {
      waiting := !Bit(m.scon, SCON_TI);
    }
  }

  method SerialHexNibble(m: Cpu)
    requires m.acc < 0x10
    modifies m`acc, m`psw, m`scon, m`sent
    ensures m.sent == old(m.sent) + [HexDigit(old(m.acc))] == old(m.sent) + [DIGITS[old(m.acc)] as int]
    ensures Bit(m.psw, Alu.PSW_F0) == Bit(old(m.psw), Alu.PSW_F0)
  {
    ClearCarry(m);
    SubbImmediate(m, 0xa);
    if !Bit(m.psw, Alu.PSW_C) {
      AddImmediate(m, 0x27);
    }
    AddImmediate(m, 0x3a);
    SerialWrite(m);
  }

  lemma HighNibble(x: byte)
    ensures AndByte(x % 0x10 * 0x10 + x / 0x10, 0xf) == x / 0x10
  {
    var y := x % 0x10 * 0x10 + x / 0x10;
    LowNibble(y);
    DivModUnique(y, 0x10, x % 0x10, x / 0x10);
  }

  /** XCH A,B; MOV A,B; SWAP A; ANL A,#0xf */
  method TakeHigh(m: Cpu)
    modifies m`acc, m`b
    ensures m.b == old(m.acc) && m.acc == m.b / 0x10
  {
    m.acc, m.b := m.b, m.acc;
    m.acc := m.b;
    HighNibble(m.acc);
    m.SwapA();
    m.acc := AndByte(m.acc, 0xf);
  }

  /** MOV A,B; ANL A,#0xf */
  method TakeLow(m: Cpu)
    modifies m`acc
    ensures m.acc == m.b % 0x10
  {
    m.acc := m.b;
    LowNibble(m.acc);
    m.acc := AndByte(m.acc, 0xf);
  }

  method SerialHex(m: Cpu)
    modifies m`acc, m`b, m`psw, m`scon, m`sent
    ensures m.sent == old(m.sent) + Hex(old(m.acc))
    ensures Bit(m.psw, Alu.PSW_F0) == Bit(old(m.psw), Alu.PSW_F0)
  {
    TakeHigh(m);
    SerialHexNibble(m);
    TakeLow(m);
    SerialHexNibble(m);
  }

  method SerialNewline(m: Cpu)
    modifies m`acc, m`scon, m`sent
    ensures m.sent == old(m.sent) + [CR, LF]
  {
    m.acc := 13;
    SerialWrite(m);
    m.acc := 10;
    SerialWrite(m);
  }

  method HexAddr(m: Cpu)
    modifies m`acc, m`b, m`psw, m`scon, m`sent
    ensures m.sent == old(m.sent) + AddressText(m.dph, m.dpl)
    ensures Bit(m.psw, Alu.PSW_F0) == Bit(old(m.psw), Alu.PSW_F0)
  {
    ghost var sent := m.sent;
    m.acc := m.dph;
    SerialHex(m);
    m.acc := m.dpl;
    SerialHex(m);
    m.acc := COLON;
    SerialWrite(m);
    assert m.sent == sent + (Hex(m.dph) + Hex(m.dpl) + [COLON]);
  }

  /** hello.s:161-166: SSP becomes the address after DPTR. */
  method PointStack(m: Cpu)
    modifies m`acc, m`psw, m`ssp
    ensures m.ssp == Joined(HighAfter(m.dph, m.dpl), LowAfter(m.dpl))
    ensures Bit(m.psw, Alu.PSW_F0) == Bit(old(m.psw), Alu.PSW_F0)
  {
    m.acc := m.dpl;
    AddImmediate(m, 1);
    m.ssp := Pages.WithSspl(m.ssp, m.acc);
    m.acc := m.dph;
    AddcImmediate(m, 0);
    m.ssp := Pages.WithSsph(m.ssp, m.acc);
  }

  /** read_stack_byte: SSIO reads at SSP, which is one address above DPTR. */
  method ReadStackByte(m: Cpu)
    modifies m`acc, m`psw, m`ssp
    ensures m.acc == m.xram(Inc16(m.Dptr()))
    ensures Bit(m.psw, Alu.PSW_F0) == Bit(old(m.psw), Alu.PSW_F0)
  {
    PointStack(m);
    NextAddress(m.dph, m.dpl);
    var addr: word := m.ssp;
    m.acc := m.xram(addr);
    m.ssp := m.ssp + 1;
  }

  /** The address after high:low, byte by byte. */
  function HighAfter(high: byte, low: byte): byte {
    if low == 0xff then (if high == 0xff then 0 else high + 1) else high
  }

  function LowAfter(low: byte): byte {
    if low == 0xff then 0 else low + 1
  }

  /** Adding 1 to the low byte and the carry to the high byte adds 1 to the address. */
  lemma NextAddress(high: byte, low: byte)
    ensures Joined(HighAfter(high, low), LowAfter(low)) == Inc16(Joined(high, low))
  {
  }

  /** read_byte, all three ways. */
  method ReadByte(m: Cpu)
    modifies m`acc, m`psw, m`ssp
    ensures m.acc == ByteAt(Source(m.code, m.xram, m.r7), m.Dptr())
    ensures m.r7 == 0 ==> m.acc == m.code(m.Dptr())
    ensures m.r7 == 1 ==> m.acc == m.xram(m.Dptr())
    ensures m.r7 > 1 ==> m.acc == m.xram(U16(m.Dptr() + 1))
    ensures Bit(m.psw, Alu.PSW_F0) == Bit(old(m.psw), Alu.PSW_F0)
  {
    Inc16Exact(m.Dptr());
    m.acc := m.r7;
    if m.acc == 0 {
      m.acc := 0;
      m.MovcADptr();
      return;
    }
    m.acc := U8(m.r7 - 1);
    if m.acc == 0 {
      m.acc := m.xram(m.Dptr());
      return;
    }
    ReadStackByte(m);
  }

  /** Bytes a dump prints: R0:R1, where 0 counts as 65536. */
  function Count(left: word): nat {
    if left == 0 then 0x1_0000 else left
  }

  /** hello.s:190-192 */
  method PrintAddress(m: Cpu)
    modifies m`acc, m`b, m`psw, m`scon, m`sent
    ensures m.sent == old(m.sent) + if old(Bit(m.psw, Alu.PSW_F0)) then AddressText(m.dph, m.dpl) else []
    ensures !Bit(m.psw, Alu.PSW_F0)
  {
    if Bit(m.psw, Alu.PSW_F0) {
      HexAddr(m);
      BitSetBit(m.psw, Alu.PSW_F0, false, Alu.PSW_F0);
      m.WriteF0(false);
    }
  }

  /** hello.s:194-202 */
  method PrintByte(m: Cpu)
    requires !Bit(m.psw, Alu.PSW_F0) && 1 <= m.r2 <= 16
    modifies m`acc, m`b, m`psw, m`dpl, m`dph, m`r2, m`scon, m`sent, m`ssp
    ensures m.sent == old(m.sent) + ByteText(ByteAt(Source(m.code, m.xram, m.r7), old(m.Dptr())), old(m.r2) == 1)
    ensures m.Dptr() == Inc16(old(m.Dptr()))
    ensures m.r2 == (if old(m.r2) == 1 then 16 else old(m.r2) - 1) && (Bit(m.psw, Alu.PSW_F0) <==> old(m.r2) == 1)
  {
    m.acc := SPACE;
    SerialWrite(m);
    ReadByte(m);
    SerialHex(m);
    m.IncDptr();
    var taken := m.DjnzR2();
    if !taken {
      m.r2 := 16;
      SerialNewline(m);
      BitSetBit(m.psw, Alu.PSW_F0, true, Alu.PSW_F0);
      m.WriteF0(true);
    }
  }

  /** R2 and F0 agree with the number of the next field. */
  predicate AtField(r2: byte, f0: bool, k: nat) {
    r2 == 16 - k % 16 && (f0 <==> k % 16 == 0)
  }

  lemma NextField(r2: byte, f0: bool, k: nat)
    requires AtField(r2, f0, k)
    ensures AtField(if r2 == 1 then 16 else r2 - 1, r2 == 1, k + 1)
    ensures r2 == 1 <==> k % 16 == 15
  {
  }

  lemma DptrBytes(high: byte, low: byte)
    ensures Joined(high, low) / 0x100 == high && Joined(high, low) % 0x100 == low
  {
  }

  /** hello.s:190-202: one field, with its address before it and its line end after it. */
  method PrintField(m: Cpu, ghost k: nat)
    requires AtField(m.r2, Bit(m.psw, Alu.PSW_F0), k)
    modifies m`acc, m`b, m`psw, m`dpl, m`dph, m`r2, m`scon, m`sent, m`ssp
    ensures m.sent == old(m.sent) + Field(Source(m.code, m.xram, m.r7), old(m.Dptr()), k)
    ensures m.Dptr() == Inc16(old(m.Dptr())) && AtField(m.r2, Bit(m.psw, Alu.PSW_F0), k + 1)
  {
    NextField(m.r2, Bit(m.psw, Alu.PSW_F0), k);
    DptrBytes(m.dph, m.dpl);
    PrintAddress(m);
    PrintByte(m);
  }

  /** hello.s:204-212: R0:R1 counts down by one through SUBB's borrow; the branch is taken while it is not zero. */
  method CountDown(m: Cpu) returns (taken: bool)
    modifies m`acc, m`psw, m`r0, m`r1
    ensures Joined(m.r0, m.r1) == Count(old(Joined(m.r0, m.r1))) - 1
    ensures taken == (Joined(m.r0, m.r1) != 0)
    ensures Bit(m.psw, Alu.PSW_F0) == Bit(old(m.psw), Alu.PSW_F0)
  {
    ClearCarry(m);
    m.acc := m.r1;
    SubbImmediate(m, 1);
    m.r1 := m.acc;
    m.acc := m.r0;
    SubbImmediate(m, 0);
    m.r0 := m.acc;
    OrIsZero(m.acc, m.r1);
    m.acc := OrByte(m.acc, m.r1);
    taken := m.acc != 0;
  }

  /** One round of hexdump_loop. */
  method OneRound(m: Cpu, ghost k: nat) returns (taken: bool)
    requires AtField(m.r2, Bit(m.psw, Alu.PSW_F0), k)
    modifies m`acc, m`b, m`psw, m`dpl, m`dph, m`r0, m`r1, m`r2, m`scon, m`sent, m`ssp
    ensures m.sent == old(m.sent) + Field(Source(m.code, m.xram, m.r7), old(m.Dptr()), k)
    ensures m.Dptr() == Inc16(old(m.Dptr())) && AtField(m.r2, Bit(m.psw, Alu.PSW_F0), k + 1)
    ensures Joined(m.r0, m.r1) == Count(old(Joined(m.r0, m.r1))) - 1
    ensures taken == (Joined(m.r0, m.r1) != 0)
  {
    PrintField(m, k);
    taken := CountDown(m);
  }

  /** hello.s:187-188 */
  method StartDump(m: Cpu)
    modifies m`psw, m`r2
    ensures AtField(m.r2, Bit(m.psw, Alu.PSW_F0), 0)
  {
    BitSetBit(m.psw, Alu.PSW_F0, true, Alu.PSW_F0);
    m.WriteF0(true);
    m.r2 := 16;
  }

  /** Sending field k moves it from what is left to send to what was sent. */
  lemma SentField(sent: seq<byte>, mem: Source, addr: word, k: nat, n: nat)
    requires k < n
    ensures sent + Dump(mem, addr, k, n) == sent + Field(mem, addr, k) + Dump(mem, Inc16(addr), k + 1, n)
    ensures Advanced(addr, n - k) == Advanced(Inc16(addr), n - (k + 1))
  {
    Regroup(sent, Field(mem, addr, k), Dump(mem, Inc16(addr), k + 1, n));
  }

  lemma AllSent(sent: seq<byte>, mem: Source, addr: word, n: nat)
    ensures sent + Dump(mem, addr, n, n) == sent
  {
  }

  /** hello.s:189-212, with the number of fields as a ghost argument. */
  method PrintFields(m: Cpu, ghost n: nat)
    requires AtField(m.r2, Bit(m.psw, Alu.PSW_F0), 0) && n == Count(Joined(m.r0, m.r1))
    modifies m`acc, m`b, m`psw, m`dpl, m`dph, m`r0, m`r1, m`r2, m`scon, m`sent, m`ssp
    ensures m.sent == old(m.sent) + Dump(Source(m.code, m.xram, m.r7), old(m.Dptr()), 0, n)
    ensures m.Dptr() == Advanced(old(m.Dptr()), n) && Joined(m.r0, m.r1) == 0
  {
    ghost var mem, start, k := Source(m.code, m.xram, m.r7), m.Dptr(), 0;
    ghost var all := m.sent + Dump(mem, start, 0, n);
    var taken := true;
    while taken
      invariant k <= n && AtField(m.r2, Bit(m.psw, Alu.PSW_F0), k)
      invariant Advanced(m.Dptr(), n - k) == Advanced(start, n)
      invariant taken == (k < n) && (taken ==> Count(Joined(m.r0, m.r1)) == n - k)
      invariant !taken ==> Joined(m.r0, m.r1) == 0
      invariant m.sent + Dump(mem, m.Dptr(), k, n) == all
      decreases n - k
    {
      SentField(m.sent, mem, m.Dptr(), k, n);
      taken := OneRound(m, k);
      k := k + 1;
    }
    AllSent(m.sent, mem, m.Dptr(), n);
  }

  /** The byte at address addr of the memory R7 selects; the stack path reads one address further up. */
  lemma SelectedByte(mem: Source, addr: word)
    ensures mem.r7 == 0 ==> ByteAt(mem, addr) == mem.code(addr)
    ensures mem.r7 == 1 ==> ByteAt(mem, addr) == mem.xram(addr)
    ensures mem.r7 > 1 ==> ByteAt(mem, addr) == mem.xram(U16(addr + 1))
  {
    Inc16Exact(addr);
  }

  /** Field i of the text is at its place, and prints byte i of the memory R7 selects. */
  predicate PrintsByte(text: seq<byte>, i: nat, code: word -> byte, xram: word -> byte, r7: byte, start: word) {
    var addr, at, next := U16(start + i), FieldStart(i), FieldStart(i + 1);
    var x := if r7 == 0 then code(addr) else if r7 == 1 then xram(addr) else xram(U16(addr + 1));
    at <= next <= |text| && FieldReads(text[at..next], i, addr, x)
  }

  /** The text parses to the n bytes from start on of the memory R7 selects. */
  predicate ReadsBack(text: seq<byte>, n: nat, code: word -> byte, xram: word -> byte, r7: byte, start: word) {
    var p := Parse(text);
    p.Tokens? && |BytesOf(p.tokens)| == n &&
    forall i :: 0 <= i < n ==>
      BytesOf(p.tokens)[i] ==
      if r7 == 0 then code(U16(start + i)) else if r7 == 1 then xram(U16(start + i)) else xram(U16(start + i + 1))
  }

  lemma DumpsReadBack(mem: Source, start: word, n: nat)
    ensures ReadsBack(Dump(mem, start, 0, n), n, mem.code, mem.xram, mem.r7, start)
  {
    DumpReadsBack(mem, start, n);
    var bytes := BytesOf(Parse(Dump(mem, start, 0, n)).tokens);
    forall i | 0 <= i < n
      ensures bytes[i] ==
        if mem.r7 == 0 then mem.code(U16(start + i)) else if mem.r7 == 1 then mem.xram(U16(start + i))
        else mem.xram(U16(start + i + 1))
    {
      SelectedByte(mem, U16(start + i));
      NextOf(start, i);
    }
  }

  lemma NextOf(start: word, i: nat)
    ensures U16(U16(start + i) + 1) == U16(start + i + 1)
  {
  }

  lemma PrintsAll(mem: Source, start: word, n: nat)
    ensures var text := Dump(mem, start, 0, n);
      |text| == FieldStart(n) && forall i :: 0 <= i < n ==> PrintsByte(text, i, mem.code, mem.xram, mem.r7, start)
  {
    DumpSize(mem, start, 0, n);
    forall i | 0 <= i < n
      ensures PrintsByte(Dump(mem, start, 0, n), i, mem.code, mem.xram, mem.r7, start)
    {
      PrintsOne(mem, start, n, i);
    }
  }

  lemma PrintsOne(mem: Source, start: word, n: nat, i: nat)
    requires i < n
    ensures PrintsByte(Dump(mem, start, 0, n), i, mem.code, mem.xram, mem.r7, start)
  {
    DumpText(mem, start, n, i);
    FieldText(mem, U16(start + i), i);
    SelectedByte(mem, U16(start + i));
  }

  /**
    hexdump: for every start address, count and R7 it terminates, having sent n fields and no other character, each
    at its place and with every character as FieldReads says, and moves DPTR past the bytes.
  */
  method Hexdump(m: Cpu)
    modifies m`acc, m`b, m`psw, m`dpl, m`dph, m`r0, m`r1, m`r2, m`scon, m`sent, m`ssp
    ensures var n := if old(Joined(m.r0, m.r1)) == 0 then 0x1_0000 else old(Joined(m.r0, m.r1));
      && m.sent == old(m.sent) + Dump(Source(m.code, m.xram, m.r7), old(m.Dptr()), 0, n)
      && m.Dptr() == U16(old(m.Dptr()) + n)
      && |m.sent| == |old(m.sent)| + FieldStart(n)
      && ReadsBack(m.sent[|old(m.sent)|..], n, m.code, m.xram, m.r7, old(m.Dptr()))
      && forall i :: 0 <= i < n ==> PrintsByte(m.sent[|old(m.sent)|..], i, m.code, m.xram, m.r7, old(m.Dptr()))
  {
    ghost var n, sent := Count(Joined(m.r0, m.r1)), m.sent;
    ghost var text := Dump(Source(m.code, m.xram, m.r7), m.Dptr(), 0, n);
    AdvancedExact(m.Dptr(), n);
    PrintsAll(Source(m.code, m.xram, m.r7), m.Dptr(), n);
    DumpsReadBack(Source(m.code, m.xram, m.r7), m.Dptr(), n);
    StartDump(m);
    PrintFields(m, n);
    assert m.sent[|sent|..] == text;
  }
}

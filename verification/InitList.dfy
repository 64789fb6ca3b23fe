/**
  The init-list interpreter reg_from_initlist of hello.s, and what a whole list means: one mask-and-set pair per
  register.
*/
module InitList {
  import opened Bits
  import SocRegs
  import opened Cpu

  /** An entry of a well-formed list; a word with bit 15 set announces a read-modify-write. */
  datatype Entry = Plain(addr: word, val: word) | Rmw(addr: word, mask: word, bits: word)

  /** A plain entry for register 0 would be the end mark. */
  predicate WellFormed(e: Entry) {
    e.addr < 0x8000 && (e.Plain? ==> e.addr != 0)
  }

  predicate AllWellFormed(es: seq<Entry>) {
    forall i :: 0 <= i < |es| ==> WellFormed(es[i])
  }

  /** A word as the assembler lays it out: high byte first. */
  function Word(x: word): (r: seq<byte>)
    ensures |r| == 2
  {
    [x / 0x100, x % 0x100]
  }

  function Encode(e: Entry): seq<byte>
    requires WellFormed(e)
  {
    match e
    case Plain(addr, val) => Word(addr) + Word(val)
    case Rmw(addr, mask, bits) => Word(addr + 0x8000) + Word(mask) + Word(bits)
  }

  function EncodeList(es: seq<Entry>): seq<byte>
    requires AllWellFormed(es)
  {
    if es == [] then Word(0) else Encode(es[0]) + EncodeList(es[1..])
  }

  function MaskSet(x: word, mask: word, bits: word): word {
    Pow2Values();
    AndOrBound(x, mask, bits, 16);
    Or(And(x, mask), bits)
  }

  function Apply(e: Entry, regs: SocRegs.Regs): SocRegs.Regs {
    match e
    case Plain(addr, val) => regs[addr := val]
    case Rmw(addr, mask, bits) => regs[addr := MaskSet(SocRegs.ReadValue(regs, addr), mask, bits)]
  }

  function ApplyList(es: seq<Entry>, regs: SocRegs.Regs): SocRegs.Regs {
    if es == [] then regs else ApplyList(es[1..], Apply(es[0], regs))
  }

  // ----- the normal form -----

  /** r := (r & mask) | bits */
  datatype Pair = Pair(mask: word, bits: word)

  /** The pair of one entry. PHY registers always read NO_DATA, so there a read-modify-write stores a constant. */
  function PairOf(e: Entry): Pair {
    match e
    case Plain(_, val) => Pair(0, val)
    case Rmw(addr, mask, bits) =>
      if SocRegs.IsPhy(addr) then Pair(0, MaskSet(SocRegs.NO_DATA, mask, bits)) else Pair(mask, bits)
  }

  function Compose(p: Pair, q: Pair): Pair {
    AndBound(p.mask, q.mask);
    Pair(And(p.mask, q.mask), MaskSet(p.bits, q.mask, q.bits))
  }

  function AddPair(m: map<word, Pair>, addr: word, q: Pair): map<word, Pair> {
    m[addr := if addr in m then Compose(m[addr], q) else q]
  }

  /** The one pair per register that `es` amounts to when it follows a list amounting to m. */
  function Pairs(es: seq<Entry>, m: map<word, Pair>): map<word, Pair> {
    if es == [] then m else Pairs(es[1..], AddPair(m, es[0].addr, PairOf(es[0])))
  }

  /** The value x of register r after the pair m has for it, if any. */
  function Adjusted(m: map<word, Pair>, r: word, x: word): word {
    if r in m then MaskSet(x, m[r].mask, m[r].bits) else x
  }

  /** regs with every pair of m applied. */
  ghost predicate Amounts(regs: SocRegs.Regs, m: map<word, Pair>, regs': SocRegs.Regs) {
    && regs'.Keys == regs.Keys + m.Keys
    && forall r: word :: SocRegs.Reg(regs', r) == Adjusted(m, r, SocRegs.Reg(regs, r))
  }

  lemma ZeroMask(x: word, bits: word)
    ensures MaskSet(x, 0, bits) == bits
  {
    OrZero(bits);
  }

  /** One entry is its pair applied to its register. */
  lemma ApplyIsPair(e: Entry, regs: SocRegs.Regs)
    ensures Apply(e, regs) == regs[e.addr := MaskSet(SocRegs.Reg(regs, e.addr), PairOf(e).mask, PairOf(e).bits)]
  {
    ZeroMask(SocRegs.Reg(regs, e.addr), PairOf(e).bits);
  }

  lemma ComposeExact(x: word, p: Pair, q: Pair)
    ensures MaskSet(MaskSet(x, p.mask, p.bits), q.mask, q.bits) == MaskSet(x, Compose(p, q).mask, Compose(p, q).bits)
  {
    Pow2Values();
    AndOrCompose(x, p.mask, p.bits, q.mask, q.bits, 16);
  }

  lemma {:induction false} ListAmounts(es: seq<Entry>, m: map<word, Pair>, regs: SocRegs.Regs, mid: SocRegs.Regs)
    requires Amounts(regs, m, mid)
    ensures Amounts(regs, Pairs(es, m), ApplyList(es, mid))
  {
    if es != [] {
      var a, q := es[0].addr, PairOf(es[0]);
      var m', mid' := AddPair(m, a, q), Apply(es[0], mid);
      ApplyIsPair(es[0], mid);
      if a in m {
        ComposeExact(SocRegs.Reg(regs, a), m[a], q);
      }
      assert SocRegs.Reg(mid, a) == Adjusted(m, a, SocRegs.Reg(regs, a));
      forall r: word
        ensures SocRegs.Reg(mid', r) == Adjusted(m', r, SocRegs.Reg(regs, r))
      {
        if r != a {
          assert SocRegs.Reg(mid', r) == SocRegs.Reg(mid, r);
        }
      }
      ListAmounts(es[1..], m', regs, mid');
    }
  }

  /** The effect of every list is one pair per register it names; all other registers are untouched. */
  lemma NormalForm(es: seq<Entry>, regs: SocRegs.Regs)
    ensures Amounts(regs, Pairs(es, map[]), ApplyList(es, regs))
  {
    ListAmounts(es, map[], regs, regs);
  }

  /** Applying a list a second time changes nothing. */
  lemma ApplyTwice(es: seq<Entry>, regs: SocRegs.Regs)
    ensures ApplyList(es, ApplyList(es, regs)) == ApplyList(es, regs)
  {
    var once := ApplyList(es, regs);
    var twice := ApplyList(es, once);
    var m := Pairs(es, map[]);
    NormalForm(es, regs);
    NormalForm(es, once);
    forall r: word
      ensures SocRegs.Reg(twice, r) == SocRegs.Reg(once, r)
    {
      if r in m {
        Pow2Values();
        AndOrIdempotent(SocRegs.Reg(regs, r), m[r].mask, m[r].bits, 16);
      }
    }
    SameRegs(once, twice);
  }

  lemma SameRegs(x: SocRegs.Regs, y: SocRegs.Regs)
    requires x.Keys == y.Keys && forall r: word :: SocRegs.Reg(x, r) == SocRegs.Reg(y, r)
    ensures x == y
  {
    forall r | r in x
      ensures x[r] == y[r]
    {
      assert SocRegs.Reg(x, r) == SocRegs.Reg(y, r);
    }
  }

  /** Concatenated lists compose, as register files and as normal forms. */
  lemma {:induction false} ApplyConcat(es: seq<Entry>, fs: seq<Entry>, regs: SocRegs.Regs, m: map<word, Pair>)
    ensures ApplyList(es + fs, regs) == ApplyList(fs, ApplyList(es, regs))
    ensures Pairs(es + fs, m) == Pairs(fs, Pairs(es, m))
  {
    if es == [] {
      assert es + fs == fs;
    } else {
      assert (es + fs)[1..] == es[1..] + fs;
      ApplyConcat(es[1..], fs, Apply(es[0], regs), AddPair(m, es[0].addr, PairOf(es[0])));
    }
  }

  /** Bit by bit, a read-modify-write keeps what its mask has and adds its own bits. */
  lemma MaskSetBit(x: word, mask: word, bits: word, i: nat)
    ensures Bit(MaskSet(x, mask, bits), i) == ((Bit(x, i) && Bit(mask, i)) || Bit(bits, i))
  {
    AndOrBit(x, mask, bits, i);
  }

  /** A plain entry's four bytes store its second word in the register its first word names. */
  lemma PlainMeans(addr: word, val: word, rest: seq<Entry>, regs: SocRegs.Regs)
    requires 0 < addr < 0x8000 && AllWellFormed(rest)
    ensures AllWellFormed([Plain(addr, val)] + rest)
    ensures EncodeList([Plain(addr, val)] + rest) ==
      [addr / 0x100, addr % 0x100, val / 0x100, val % 0x100] + EncodeList(rest)
    ensures ApplyList([Plain(addr, val)] + rest, regs) == ApplyList(rest, regs[addr := val])
  {
    assert ([Plain(addr, val)] + rest)[1..] == rest;
  }

  /** A marked entry's six bytes mask its register with its second word and set the bits of its third. */
  lemma RmwMeans(addr: word, mask: word, bits: word, rest: seq<Entry>, regs: SocRegs.Regs, i: nat)
    requires addr < 0x8000 && AllWellFormed(rest)
    ensures var e := Rmw(addr, mask, bits); var x := if 0x2000 <= addr < 0x3000 || addr !in regs then 0xdead else regs[addr];
      && AllWellFormed([e] + rest)
      && EncodeList([e] + rest) ==
         [addr / 0x100 + 0x80, addr % 0x100, mask / 0x100, mask % 0x100, bits / 0x100, bits % 0x100] + EncodeList(rest)
      && ApplyList([e] + rest, regs) == ApplyList(rest, Apply(e, regs))
      && (forall r :: r != addr ==> (r in Apply(e, regs) <==> r in regs))
      && (forall r :: r in regs && r != addr ==> Apply(e, regs)[r] == regs[r])
      && addr in Apply(e, regs)
      && Bit(Apply(e, regs)[addr], i) == ((Bit(x, i) && Bit(mask, i)) || Bit(bits, i))
  {
    var e := Rmw(addr, mask, bits);
    assert ([e] + rest)[1..] == rest;
    assert (addr + 0x8000) / 0x100 == addr / 0x100 + 0x80 && (addr + 0x8000) % 0x100 == addr % 0x100;
    MaskSetBit(SocRegs.ReadValue(regs, addr), mask, bits, i);
  }

  /** A zero word ends a list and does nothing. */
  lemma EndMeans(regs: SocRegs.Regs)
    ensures EncodeList([]) == [0, 0] && ApplyList([], regs) == regs
  {
  }

  // ----- the interpreter -----

  /** The code bytes from dptr on (wrapping at 64 KiB) start with `bytes`. */
  ghost predicate CodeAt(code: word -> byte, dptr: word, bytes: seq<byte>) {
    forall k :: 0 <= k < |bytes| ==> code(U16(dptr + k)) == bytes[k]
  }

  lemma CodeAfter(code: word -> byte, dptr: word, x: seq<byte>, y: seq<byte>)
    requires CodeAt(code, dptr, x + y)
    ensures CodeAt(code, dptr, x) && CodeAt(code, U16(dptr + |x|), y)
  {
    forall k | 0 <= k < |x|
      ensures code(U16(dptr + k)) == x[k]
    {
      assert (x + y)[k] == x[k];
    }
    forall k | 0 <= k < |y|
      ensures code(U16(U16(dptr + |x|) + k)) == y[k]
    {
      assert (x + y)[|x| + k] == y[k];
      assert U16(U16(dptr + |x|) + k) == U16(dptr + (|x| + k));
    }
  }

  /** A word, high byte first, at dptr. */
  predicate WordAt(code: word -> byte, dptr: word, x: word) {
    code(dptr) == x / 0x100 && code(Inc16(dptr)) == x % 0x100
  }

  function FirstWord(e: Entry): word
    requires WellFormed(e)
  {
    if e.Rmw? then e.addr + 0x8000 else e.addr
  }

  /** The address of the next word. */
  function Next(dptr: word): word {
    Inc16(Inc16(dptr))
  }

  /** The address of the next entry. */
  function NextEntry(dptr: word, e: Entry): word {
    if e.Rmw? then Next(Next(Next(dptr))) else Next(Next(dptr))
  }

  /** Where the interpreter finds the words of an encoded list. */
  predicate ListAt(code: word -> byte, dptr: word, es: seq<Entry>)
    requires AllWellFormed(es)
    decreases |es|
  {
    if es == [] then WordAt(code, dptr, 0)
    else
      && WordAt(code, dptr, FirstWord(es[0]))
      && (match es[0]
          case Plain(_, val) => WordAt(code, Next(dptr), val)
          case Rmw(_, mask, bits) => WordAt(code, Next(dptr), mask) && WordAt(code, Next(Next(dptr)), bits))
      && ListAt(code, NextEntry(dptr, es[0]), es[1..])
  }

  lemma WordInCode(code: word -> byte, dptr: word, bytes: seq<byte>, k: nat, x: word)
    requires CodeAt(code, dptr, bytes) && k + 1 < |bytes| && bytes[k] == x / 0x100 && bytes[k + 1] == x % 0x100
    ensures WordAt(code, U16(dptr + k), x)
  {
  }

  lemma NextIsTwo(dptr: word)
    ensures Next(dptr) == Advanced(dptr, 2)
  {
  }

  lemma EntrySize(dptr: word, e: Entry)
    requires WellFormed(e)
    ensures NextEntry(dptr, e) == Advanced(dptr, |Encode(e)|)
  {
    NextIsTwo(dptr);
    NextIsTwo(Next(dptr));
    NextIsTwo(Next(Next(dptr)));
    AdvancedPlus(dptr, 2, 2);
    AdvancedPlus(dptr, 4, 2);
  }

  lemma EntryInCode(code: word -> byte, dptr: word, e: Entry)
    requires WellFormed(e) && CodeAt(code, dptr, Encode(e))
    ensures WordAt(code, dptr, FirstWord(e))
    ensures e.Plain? ==> WordAt(code, Next(dptr), e.val)
    ensures e.Rmw? ==> WordAt(code, Next(dptr), e.mask) && WordAt(code, Next(Next(dptr)), e.bits)
  {
    assert U16(dptr + 0) == dptr;
    NextIsTwo(dptr);
    NextIsTwo(Next(dptr));
    AdvancedPlus(dptr, 2, 2);
    AdvancedExact(dptr, 2);
    AdvancedExact(dptr, 4);
    WordInCode(code, dptr, Encode(e), 0, FirstWord(e));
    if e.Plain? {
      WordInCode(code, dptr, Encode(e), 2, e.val);
    } else {
      WordInCode(code, dptr, Encode(e), 2, e.mask);
      WordInCode(code, dptr, Encode(e), 4, e.bits);
    }
  }

  lemma {:induction false} ListInCode(code: word -> byte, dptr: word, es: seq<Entry>)
    requires AllWellFormed(es) && CodeAt(code, dptr, EncodeList(es))
    ensures ListAt(code, dptr, es)
    decreases |es|
  {
    if es == [] {
      assert U16(dptr + 0) == dptr;
      WordInCode(code, dptr, Word(0), 0, 0);
    } else {
      CodeAfter(code, dptr, Encode(es[0]), EncodeList(es[1..]));
      EntrySize(dptr, es[0]);
      AdvancedExact(dptr, |Encode(es[0])|);
      EntryInCode(code, dptr, es[0]);
      ListInCode(code, NextEntry(dptr, es[0]), es[1..]);
    }
  }

  lemma HighBit(x: byte)
    ensures Bit(x, 7) == (x >= 0x80)
    ensures UpdateBit(x, 7, false) == if x >= 0x80 then x - 0x80 else x
  {
    Pow2Values();
    var h, l := if x >= 0x80 then 1 else 0, if x >= 0x80 then x - 0x80 else x;
    assert Join(h, l, 7) == x;
    JoinBit(h, l, 7, 7);
    SetBitValue(x, 7, false);
  }

  /** A first word without its mark. */
  function Unmarked(first: word): word {
    if first >= 0x8000 then first - 0x8000 else first
  }

  /** B keeps the mark in its top bit; without it the bytes are the register address. */
  lemma SplitFirst(first: word)
    ensures first / 0x100 >= 0x80 <==> first >= 0x8000
    ensures Joined(UpdateBit(first / 0x100, 7, false), first % 0x100) == Unmarked(first)
  {
    var h, l := first / 0x100, first % 0x100;
    assert first == 0x100 * h + l;
    HighBit(h);
  }

  /** Writing a register that was just read leaves no trace of the read. */
  lemma ReadThenWrite(regs: SocRegs.Regs, addr: word, val: word)
    ensures (if SocRegs.IsPhy(addr) then regs else SocRegs.AfterRead(regs, addr))[addr := val] == regs[addr := val]
  {
  }

  /** Masking and setting byte by byte is masking and setting the whole register. */
  lemma WordMaskSet(high: byte, low: byte, mask: word, bits: word)
    ensures MaskSet(Joined(high, low), mask, bits) ==
      Joined(OrByte(bits / 0x100, AndByte(mask / 0x100, high)), OrByte(bits % 0x100, AndByte(mask % 0x100, low)))
  {
    BytesMaskSet(high, low, mask / 0x100, mask % 0x100, bits / 0x100, bits % 0x100);
    assert Joined(mask / 0x100, mask % 0x100) == mask && Joined(bits / 0x100, bits % 0x100) == bits;
  }

  lemma BytesMaskSet(xh: byte, xl: byte, mh: byte, ml: byte, bh: byte, bl: byte)
    ensures MaskSet(Joined(xh, xl), Joined(mh, ml), Joined(bh, bl)) ==
      Joined(OrByte(bh, AndByte(mh, xh)), OrByte(bl, AndByte(ml, xl)))
  {
    Pow2Values();
    assert Join(xh, xl, 8) == Joined(xh, xl) && Join(mh, ml, 8) == Joined(mh, ml) && Join(bh, bl, 8) == Joined(bh, bl);
    AndSplit(xh, xl, mh, ml, 8);
    AndBound(xl, ml);
    OrSplit(And(xh, mh), And(xl, ml), bh, bl, 8);
    AndCommutes(xh, mh);
    AndCommutes(xl, ml);
    OrCommutes(AndByte(mh, xh), bh);
    OrCommutes(AndByte(ml, xl), bl);
  }

  lemma OrCommutes(x: byte, y: byte)
    ensures Or(x, y) == Or(y, x)
  {
  }

  lemma AndCommutes(x: byte, y: byte)
    ensures And(x, y) == And(y, x)
  {
  }

  /** hello.s:252-261: the entry's first word goes to B and the address registers, without its top bit. */
  method LoadAddress(m: Cpu, ghost first: word)
    requires WordAt(m.code, m.Dptr(), first)
    modifies m`acc, m`b, m`dpl, m`dph, m`indaccAddrH, m`indaccAddrL
    ensures m.b >= 0x80 <==> first >= 0x8000
    ensures Joined(m.indaccAddrH, m.indaccAddrL) == Unmarked(first) && m.acc == m.indaccAddrL
    ensures m.Dptr() == Next(old(m.Dptr()))
  {
    SplitFirst(first);
    m.FetchCode();
    m.b := m.acc;
    m.acc := UpdateBit(m.acc, 7, false);
    m.indaccAddrH := m.acc;
    m.FetchCode();
    m.indaccAddrL := m.acc;
  }

  /** hello.s:266-273 */
  method LoadData(m: Cpu, ghost val: word)
    requires WordAt(m.code, m.Dptr(), val)
    modifies m`acc, m`dpl, m`dph, m`indaccWdataH, m`indaccWdataL
    ensures Joined(m.indaccWdataH, m.indaccWdataL) == val
    ensures m.Dptr() == Next(old(m.Dptr()))
  {
    m.FetchCode();
    m.indaccWdataH := m.acc;
    m.FetchCode();
    m.indaccWdataL := m.acc;
  }

  /** hello.s:283-292 */
  method MaskData(m: Cpu, ghost mask: word)
    requires WordAt(m.code, m.Dptr(), mask)
    modifies m`acc, m`dpl, m`dph, m`indaccWdataH, m`indaccWdataL
    ensures m.indaccWdataH == AndByte(mask / 0x100, m.indaccRdataH)
    ensures m.indaccWdataL == AndByte(mask % 0x100, m.indaccRdataL)
    ensures m.Dptr() == Next(old(m.Dptr()))
  {
    m.FetchCode();
    m.acc := AndByte(m.acc, m.indaccRdataH);
    m.indaccWdataH := m.acc;
    m.FetchCode();
    m.acc := AndByte(m.acc, m.indaccRdataL);
    m.indaccWdataL := m.acc;
  }

  /** hello.s:293-302 */
  method SetData(m: Cpu, ghost bits: word)
    requires WordAt(m.code, m.Dptr(), bits)
    modifies m`acc, m`dpl, m`dph, m`indaccWdataH, m`indaccWdataL
    ensures m.indaccWdataH == OrByte(bits / 0x100, old(m.indaccWdataH))
    ensures m.indaccWdataL == OrByte(bits % 0x100, old(m.indaccWdataL))
    ensures m.Dptr() == Next(old(m.Dptr()))
  {
    m.FetchCode();
    m.acc := OrByte(m.acc, m.indaccWdataH);
    m.indaccWdataH := m.acc;
    m.FetchCode();
    m.acc := OrByte(m.acc, m.indaccWdataL);
    m.indaccWdataL := m.acc;
  }

  /** hello.s:280-281 */
  method ReadRegister(m: Cpu)
    requires SocRegs.OCP_PREFIX in m.regs
    modifies m`acc, m`psw, m`indaccRdataH, m`indaccRdataL, m`regs, m`phyReads
    ensures var addr := Joined(m.indaccAddrH, m.indaccAddrL);
      && Joined(m.indaccRdataH, m.indaccRdataL) == SocRegs.ReadValue(old(m.regs), addr)
      && m.regs == if SocRegs.IsPhy(addr) then old(m.regs) else SocRegs.AfterRead(old(m.regs), addr)
  {
    m.SfrIndaccCmd(1);
    m.RegStatusLoop();
  }

  /** hello.s:274-276 */
  method StoreRegister(m: Cpu)
    requires SocRegs.OCP_PREFIX in m.regs
    modifies m`acc, m`psw, m`indaccRdataH, m`indaccRdataL, m`regs, m`phyReads
    ensures m.regs == old(m.regs)[Joined(m.indaccAddrH, m.indaccAddrL) := Joined(m.indaccWdataH, m.indaccWdataL)]
  {
    m.SfrIndaccCmd(3);
    m.RegStatusLoop();
  }

  /** hello.s:266-276: store the next word in the register addressed. */
  method PlainEntry(m: Cpu, ghost val: word)
    requires SocRegs.OCP_PREFIX in m.regs && WordAt(m.code, m.Dptr(), val)
    modifies m`acc, m`psw, m`dpl, m`dph
    modifies m`indaccWdataH, m`indaccWdataL, m`indaccRdataH, m`indaccRdataL, m`regs, m`phyReads
    ensures m.regs == old(m.regs)[Joined(m.indaccAddrH, m.indaccAddrL) := val] && m.Dptr() == Next(old(m.Dptr()))
  {
    LoadData(m, val);
    StoreRegister(m);
  }

  /** hello.s:283-302 */
  method MaskAndSet(m: Cpu, ghost e: Entry)
    requires e.Rmw? && WordAt(m.code, m.Dptr(), e.mask) && WordAt(m.code, Next(m.Dptr()), e.bits)
    modifies m`acc, m`dpl, m`dph, m`indaccWdataH, m`indaccWdataL
    ensures Joined(m.indaccWdataH, m.indaccWdataL) == MaskSet(Joined(m.indaccRdataH, m.indaccRdataL), e.mask, e.bits)
    ensures m.Dptr() == Next(Next(old(m.Dptr())))
  {
    WordMaskSet(m.indaccRdataH, m.indaccRdataL, e.mask, e.bits);
    MaskData(m, e.mask);
    SetData(m, e.bits);
  }

  /** reg_from_initlist_rmw: read the register, mask it with the next word and set the bits of the one after. */
  method RmwEntry(m: Cpu, ghost e: Entry)
    requires e.Rmw? && e.addr == Joined(m.indaccAddrH, m.indaccAddrL)
    requires SocRegs.OCP_PREFIX in m.regs && WordAt(m.code, m.Dptr(), e.mask) && WordAt(m.code, Next(m.Dptr()), e.bits)
    modifies m`acc, m`psw, m`dpl, m`dph
    modifies m`indaccWdataH, m`indaccWdataL, m`indaccRdataH, m`indaccRdataL, m`regs, m`phyReads
    ensures m.regs == Apply(e, old(m.regs)) && m.Dptr() == Next(Next(old(m.Dptr())))
  {
    ghost var x := SocRegs.ReadValue(m.regs, e.addr);
    ReadThenWrite(m.regs, e.addr, MaskSet(x, e.mask, e.bits));
    ReadRegister(m);
    MaskAndSet(m, e);
    StoreRegister(m);
  }

  /** The address just past an encoded list at dptr. */
  function ListEnd(dptr: word, es: seq<Entry>): word
    decreases |es|
  {
    if es == [] then Next(dptr) else ListEnd(NextEntry(dptr, es[0]), es[1..])
  }

  lemma {:induction false} ListEndExact(dptr: word, es: seq<Entry>)
    requires AllWellFormed(es)
    ensures ListEnd(dptr, es) == Advanced(dptr, |EncodeList(es)|)
    decreases |es|
  {
    if es == [] {
      NextIsTwo(dptr);
    } else {
      EntrySize(dptr, es[0]);
      ListEndExact(NextEntry(dptr, es[0]), es[1..]);
      AdvancedPlus(dptr, |Encode(es[0])|, |EncodeList(es[1..])|);
    }
  }

  function ListWord(es: seq<Entry>): word
    requires AllWellFormed(es)
  {
    if es == [] then 0 else FirstWord(es[0])
  }

  /** The first word tells the end mark and the two kinds of entry apart, and holds the register address. */
  lemma WordTells(es: seq<Entry>)
    requires AllWellFormed(es)
    ensures ListWord(es) >= 0x8000 <==> es != [] && es[0].Rmw?
    ensures ListWord(es) == 0 <==> es == []
    ensures es != [] ==> es[0].addr == Unmarked(ListWord(es))
  {
  }

  /** JB B.7 */
  method JumpRmw(m: Cpu) returns (taken: bool)
    ensures taken == (m.b >= 0x80)
  {
    HighBit(m.b);
    taken := Bit(m.b, 7);
  }

  /** ORL A,INDACC_ADDR_H; JZ */
  method JumpDone(m: Cpu) returns (taken: bool)
    modifies m`acc
    ensures taken == (Joined(m.indaccAddrH, old(m.acc)) == 0)
  {
    OrIsZero(m.acc, m.indaccAddrH);
    m.acc := OrByte(m.acc, m.indaccAddrH);
    taken := m.acc == 0;
  }

  /** One round of the interpreter: stop at the end mark, or carry out one entry and move past it. */
  method OneEntry(m: Cpu, ghost es: seq<Entry>) returns (done: bool)
    requires AllWellFormed(es) && ListAt(m.code, m.Dptr(), es)
    requires SocRegs.OCP_PREFIX in m.regs
    modifies m`acc, m`b, m`psw, m`dpl, m`dph, m`indaccAddrH, m`indaccAddrL
    modifies m`indaccWdataH, m`indaccWdataL, m`indaccRdataH, m`indaccRdataL, m`regs, m`phyReads
    ensures done <==> es == []
    ensures done ==> m.regs == old(m.regs) && m.Dptr() == Next(old(m.Dptr()))
    ensures !done ==> m.regs == Apply(es[0], old(m.regs)) && m.Dptr() == NextEntry(old(m.Dptr()), es[0])
  {
    WordTells(es);
    LoadAddress(m, ListWord(es));
    var rmw := JumpRmw(m);
    if rmw {
      RmwEntry(m, es[0]);
      done := false;
    } else {
      done := PlainOrDone(m, ListWord(es), if es == [] then 0 else es[0].val);
    }
  }

  /** hello.s:263-276: a zero word ends the list, any other without the mark is a plain entry. */
  method PlainOrDone(m: Cpu, ghost addr: word, ghost val: word) returns (done: bool)
    requires SocRegs.OCP_PREFIX in m.regs && m.acc == m.indaccAddrL
    requires Joined(m.indaccAddrH, m.indaccAddrL) == addr
    requires addr != 0 ==> WordAt(m.code, m.Dptr(), val)
    modifies m`acc, m`psw, m`dpl, m`dph
    modifies m`indaccWdataH, m`indaccWdataL, m`indaccRdataH, m`indaccRdataL, m`regs, m`phyReads
    ensures done <==> addr == 0
    ensures done ==> m.regs == old(m.regs) && m.Dptr() == old(m.Dptr())
    ensures !done ==> m.regs == old(m.regs)[addr := val] && m.Dptr() == Next(old(m.Dptr()))
  {
    done := JumpDone(m);
    if !done {
      PlainEntry(m, val);
    }
  }

  /** The rounds of reg_from_initlist. */
  method Interpret(m: Cpu, ghost es: seq<Entry>)
    requires AllWellFormed(es) && ListAt(m.code, m.Dptr(), es) && SocRegs.OCP_PREFIX in m.regs
    modifies m`acc, m`b, m`psw, m`dpl, m`dph, m`indaccAddrH, m`indaccAddrL
    modifies m`indaccWdataH, m`indaccWdataL, m`indaccRdataH, m`indaccRdataL, m`regs, m`phyReads
    ensures m.regs == ApplyList(es, old(m.regs)) && m.Dptr() == ListEnd(old(m.Dptr()), es)
  {
    ghost var rest := es;
    var done := false;
    while !done
      invariant AllWellFormed(rest) && SocRegs.OCP_PREFIX in m.regs
      invariant !done ==> ListAt(m.code, m.Dptr(), rest) && ListEnd(m.Dptr(), rest) == ListEnd(old(m.Dptr()), es)
      invariant !done ==> ApplyList(rest, m.regs) == ApplyList(es, old(m.regs))
      invariant done ==> m.regs == ApplyList(es, old(m.regs)) && m.Dptr() == ListEnd(old(m.Dptr()), es)
      decreases |rest|, !done
    {
      done := OneEntry(m, rest);
      if !done {
        rest := rest[1..];
      }
    }
  }

  /**
    reg_from_initlist: for every well-formed list it consumes the encoding exactly up to its zero word, terminates,
    and leaves the register file ApplyList says.
  */
  method RegFromInitlist(m: Cpu, ghost es: seq<Entry>)
    requires AllWellFormed(es) && CodeAt(m.code, m.Dptr(), EncodeList(es))
    requires SocRegs.OCP_PREFIX in m.regs
    modifies m`acc, m`b, m`psw, m`dpl, m`dph, m`indaccAddrH, m`indaccAddrL
    modifies m`indaccWdataH, m`indaccWdataL, m`indaccRdataH, m`indaccRdataL, m`regs, m`phyReads
    ensures m.regs == ApplyList(es, old(m.regs))
    ensures m.Dptr() == U16(old(m.Dptr()) + |EncodeList(es)|)
  {
    ListInCode(m.code, m.Dptr(), es);
    ListEndExact(m.Dptr(), es);
    AdvancedExact(m.Dptr(), |EncodeList(es)|);
    Interpret(m, es);
  }
}

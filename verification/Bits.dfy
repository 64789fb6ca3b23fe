/**
  Bytes, words and the bitwise operators the emulator applies to them.

  C, Lua and 8051 code all work on non-negative values here, so `&`, `|`, `^` and single-bit updates are
  defined on naturals by recursion over the binary digits, and every law below is an induction over digits.
*/
module Bits {
  type byte = x: int | 0 <= x < 0x100
  type word = x: int | 0 <= x < 0x1_0000

  /** Conversion to uint8_t. */
  function U8(x: int): byte {
    x % 0x100
  }

  /** Conversion to uint16_t. */
  function U16(x: int): word {
    x % 0x1_0000
  }

  /** The next 16-bit address. */
  function Inc16(x: word): word {
    if x == 0xffff then 0 else x + 1
  }

  lemma Inc16Exact(x: word)
    ensures Inc16(x) == U16(x + 1)
  {
  }

  /** The address n steps on. */
  function Advanced(x: word, n: nat): word
    decreases n
  {
    if n == 0 then x else Advanced(Inc16(x), n - 1)
  }

  lemma {:induction false} AdvancedExact(x: word, n: nat)
    ensures Advanced(x, n) == U16(x + n)
    decreases n
  {
    if n > 0 {
      Inc16Exact(x);
      AdvancedExact(Inc16(x), n - 1);
    }
  }

  lemma {:induction false} AdvancedPlus(x: word, i: nat, j: nat)
    ensures Advanced(Advanced(x, i), j) == Advanced(x, i + j)
    decreases i
  {
    if i > 0 {
      AdvancedPlus(Inc16(x), i - 1, j);
    }
  }

  function Pow2(n: nat): (p: nat)
    ensures p >= 1
  {
    if n == 0 then 1 else 2 * Pow2(n - 1)
  }

  /** Binary digit i of x, i.e. `x & (1 << i)` as a truth value. */
  predicate Bit(x: nat, i: nat)
  {
    if i == 0 then x % 2 == 1 else Bit(x / 2, i - 1)
  }

  /** x with digit i replaced: `x |= 1 << i` for true, `x &= ~(1 << i)` for false. */
  function SetBit(x: nat, i: nat, v: bool): nat
  {
    if i == 0 then x - x % 2 + Digit(v) else x % 2 + 2 * SetBit(x / 2, i - 1, v)
  }

  function Digit(v: bool): nat {
    if v then 1 else 0
  }

  function And(x: nat, y: nat): nat
  {
    if y == 0 then 0 else Digit(x % 2 == 1 && y % 2 == 1) + 2 * And(x / 2, y / 2)
  }

  function Or(x: nat, y: nat): nat
  {
    if y == 0 then x else Digit(x % 2 == 1 || y % 2 == 1) + 2 * Or(x / 2, y / 2)
  }

  function Xor(x: nat, y: nat): nat
  {
    if y == 0 then x else Digit(x % 2 != y % 2) + 2 * Xor(x / 2, y / 2)
  }

  // ----- single digits -----

  lemma {:induction false} BitSetBit(x: nat, i: nat, v: bool, j: nat)
    ensures Bit(SetBit(x, i, v), j) == if i == j then v else Bit(x, j)
    decreases i
  {
    if i > 0 && j > 0 {
      BitSetBit(x / 2, i - 1, v, j - 1);
    }
  }

  lemma {:induction false} SetBitBound(x: nat, i: nat, v: bool, n: nat)
    requires i < n && x < Pow2(n)
    ensures SetBit(x, i, v) < Pow2(n)
    decreases i
  {
    var half := Pow2(n - 1);
    assert Pow2(n) == 2 * half && x / 2 < half;
    if i > 0 {
      SetBitBound(x / 2, i - 1, v, n - 1);
      assert x % 2 + 2 * SetBit(x / 2, i - 1, v) < 2 * half;
    } else {
      assert x - x % 2 + 1 < 2 * half;
    }
  }

  lemma {:induction false} SetBitValue(x: nat, i: nat, v: bool)
    ensures SetBit(x, i, v) == x - Digit(Bit(x, i)) * Pow2(i) + Digit(v) * Pow2(i)
    decreases i
  {
    if i > 0 {
      SetBitValue(x / 2, i - 1, v);
    }
  }

  /** The last of two updates of one digit wins. */
  lemma {:induction false} SetBitTwice(x: nat, i: nat, v: bool, w: bool)
    ensures SetBit(SetBit(x, i, v), i, w) == SetBit(x, i, w)
    decreases i
  {
    if i > 0 {
      SetBitTwice(x / 2, i - 1, v, w);
      assert SetBit(x, i, v) / 2 == SetBit(x / 2, i - 1, v);
    }
  }

  /** Writing back a digit's own value changes nothing. */
  lemma {:induction false} SetBitSame(x: nat, i: nat)
    ensures SetBit(x, i, Bit(x, i)) == x
    decreases i
  {
    if i > 0 {
      SetBitSame(x / 2, i - 1);
    }
  }

  lemma {:induction false} SameBits(x: nat, y: nat, n: nat)
    requires x < Pow2(n) && y < Pow2(n)
    requires forall i: nat :: i < n ==> Bit(x, i) == Bit(y, i)
    ensures x == y
  {
    if n > 0 {
      forall i: nat | i < n - 1
        ensures Bit(x / 2, i) == Bit(y / 2, i)
      {
        assert Bit(x, i + 1) == Bit(y, i + 1);
      }
      SameBits(x / 2, y / 2, n - 1);
      assert Bit(x, 0) == Bit(y, 0);
    }
  }

  lemma Pow2Values()
    ensures Pow2(4) == 0x10 && Pow2(5) == 0x20 && Pow2(6) == 0x40 && Pow2(7) == 0x80
    ensures Pow2(8) == 0x100 && Pow2(16) == 0x1_0000
  {
  }

  function UpdateBit(x: byte, i: nat, v: bool): (r: byte)
    requires i < 8
    ensures r == SetBit(x, i, v)
  {
    Pow2Values();
    SetBitBound(x, i, v, 8);
    SetBit(x, i, v)
  }

  // ----- the operators -----

  lemma {:induction false} AndBit(x: nat, y: nat, i: nat)
    ensures Bit(And(x, y), i) == (Bit(x, i) && Bit(y, i))
    decreases i
  {
    if y == 0 {
      ZeroBit(i);
    } else if i > 0 {
      AndBit(x / 2, y / 2, i - 1);
    }
  }

  lemma {:induction false} OrBit(x: nat, y: nat, i: nat)
    ensures Bit(Or(x, y), i) == (Bit(x, i) || Bit(y, i))
    decreases i
  {
    if y == 0 {
      ZeroBit(i);
    } else if i > 0 {
      OrBit(x / 2, y / 2, i - 1);
    }
  }

  lemma {:induction false} ZeroBit(i: nat)
    ensures !Bit(0, i)
  {
    if i > 0 {
      ZeroBit(i - 1);
    }
  }

  lemma {:induction false} AndBound(x: nat, y: nat)
    ensures And(x, y) <= x && And(x, y) <= y
    decreases y
  {
    if y > 0 {
      AndBound(x / 2, y / 2);
    }
  }

  lemma {:induction false} OrBound(x: nat, y: nat, n: nat)
    requires x < Pow2(n) && y < Pow2(n)
    ensures Or(x, y) < Pow2(n)
    decreases y
  {
    if y > 0 {
      OrBound(x / 2, y / 2, n - 1);
    }
  }

  /** `x & (2^k - 1)` keeps the low k digits. */
  lemma {:induction false} AndLow(x: nat, k: nat)
    ensures And(x, Pow2(k) - 1) == x % Pow2(k)
  {
    if k > 0 {
      AndLowStep(x, Pow2(k - 1));
      AndLow(x / 2, k - 1);
      ModTwice(x, Pow2(k - 1));
    }
  }

  lemma AndLowStep(x: nat, p: nat)
    requires p >= 1
    ensures And(x, 2 * p - 1) == x % 2 + 2 * And(x / 2, p - 1)
  {
  }

  lemma ModTwice(x: nat, p: nat)
    requires p >= 1
    ensures x % (2 * p) == x % 2 + 2 * ((x / 2) % p)
  {
    var q, r := (x / 2) / p, (x / 2) % p;
    assert x == (2 * p) * q + (2 * r + x % 2);
    DivModUnique(x, 2 * p, q, 2 * r + x % 2);
  }

  lemma DivModUnique(x: int, d: nat, q: int, r: int)
    requires d > 0 && x == d * q + r && 0 <= r < d
    ensures x / d == q && x % d == r
  {
    DistinctQuotients(d, q, r, x / d, x % d);
  }

  lemma DistinctQuotients(d: nat, q: int, r: int, q': int, r': int)
    requires 0 <= r < d && 0 <= r' < d && d * q + r == d * q' + r'
    ensures q == q' && r == r'
  {
    var t := q' - q;
    assert d * t == r - r';
    MulApart(d, t);
  }

  lemma MulApart(d: nat, t: int)
    ensures t >= 1 ==> d * t >= d
    ensures t <= -1 ==> d * t + d <= 0
  {
  }

  /** h written above the k-digit number l. */
  function Join(h: nat, l: nat, k: nat): nat {
    h * Pow2(k) + l
  }

  lemma {:induction false} JoinBit(h: nat, l: nat, k: nat, i: nat)
    requires l < Pow2(k)
    ensures Bit(Join(h, l, k), i) == if i < k then Bit(l, i) else Bit(h, i - k)
    decreases k
  {
    if k > 0 {
      Halve(h, l, k);
      if i > 0 {
        JoinBit(h, l / 2, k - 1, i - 1);
      }
    }
  }

  lemma Halve(h: nat, l: nat, k: nat)
    requires k > 0 && l < Pow2(k)
    ensures (h * Pow2(k) + l) % 2 == l % 2
    ensures (h * Pow2(k) + l) / 2 == h * Pow2(k - 1) + l / 2
    ensures l / 2 < Pow2(k - 1)
  {
    var p := h * Pow2(k - 1);
    assert h * Pow2(k) == 2 * p;
  }

  lemma OneDigit(k: nat, i: nat)
    ensures Bit(Pow2(k), i) == (i == k)
  {
    assert Join(1, 0, k) == Pow2(k);
    JoinBit(1, 0, k, i);
    ZeroBit(i);
    if i > k {
      ZeroBit(i - k - 1);
    }
  }

  lemma {:induction false} BelowPow2(x: nat, n: nat)
    requires x <= n
    ensures x < Pow2(n)
  {
    if n > 0 {
      BelowPow2(if x == 0 then 0 else x - 1, n - 1);
    }
  }

  lemma EqualByBits(x: nat, y: nat)
    requires forall i: nat :: Bit(x, i) == Bit(y, i)
    ensures x == y
  {
    BelowPow2(x, x + y);
    BelowPow2(y, x + y);
    SameBits(x, y, x + y);
  }

  /** Operators act separately on the digits below and above position k. */
  lemma AndSplit(h: nat, l: nat, a: nat, b: nat, k: nat)
    requires l < Pow2(k) && b < Pow2(k)
    ensures And(Join(h, l, k), Join(a, b, k)) == Join(And(h, a), And(l, b), k)
  {
    var l', r' := And(Join(h, l, k), Join(a, b, k)), Join(And(h, a), And(l, b), k);
    forall i: nat
      ensures Bit(l', i) == Bit(r', i)
    {
      AndSplitBit(h, l, a, b, k, i);
    }
    EqualByBits(l', r');
  }

  lemma AndSplitBit(h: nat, l: nat, a: nat, b: nat, k: nat, i: nat)
    requires l < Pow2(k) && b < Pow2(k)
    ensures Bit(And(Join(h, l, k), Join(a, b, k)), i) == Bit(Join(And(h, a), And(l, b), k), i)
  {
    AndBound(l, b);
    AndBit(Join(h, l, k), Join(a, b, k), i);
    JoinBit(h, l, k, i);
    JoinBit(a, b, k, i);
    JoinBit(And(h, a), And(l, b), k, i);
    if i < k {
      AndBit(l, b, i);
    } else {
      AndBit(h, a, i - k);
    }
  }

  lemma OrSplit(h: nat, l: nat, a: nat, b: nat, k: nat)
    requires l < Pow2(k) && b < Pow2(k)
    ensures Or(Join(h, l, k), Join(a, b, k)) == Join(Or(h, a), Or(l, b), k)
  {
    var l', r' := Or(Join(h, l, k), Join(a, b, k)), Join(Or(h, a), Or(l, b), k);
    forall i: nat
      ensures Bit(l', i) == Bit(r', i)
    {
      OrSplitBit(h, l, a, b, k, i);
    }
    EqualByBits(l', r');
  }

  lemma OrSplitBit(h: nat, l: nat, a: nat, b: nat, k: nat, i: nat)
    requires l < Pow2(k) && b < Pow2(k)
    ensures Bit(Or(Join(h, l, k), Join(a, b, k)), i) == Bit(Join(Or(h, a), Or(l, b), k), i)
  {
    OrBound(l, b, k);
    OrBit(Join(h, l, k), Join(a, b, k), i);
    JoinBit(h, l, k, i);
    JoinBit(a, b, k, i);
    JoinBit(Or(h, a), Or(l, b), k, i);
    if i < k {
      OrBit(l, b, i);
    } else {
      OrBit(h, a, i - k);
    }
  }

  /** Disjoint digits: `|` is `+`. */
  lemma OrDisjoint(h: nat, l: nat, k: nat)
    requires l < Pow2(k)
    ensures Or(l, h * Pow2(k)) == h * Pow2(k) + l
    ensures Or(h * Pow2(k), l) == h * Pow2(k) + l
  {
    assert Join(0, l, k) == l && Join(h, 0, k) == h * Pow2(k);
    OrSplit(0, l, h, 0, k);
    OrSplit(h, 0, 0, l, k);
    OrZero(h);
    OrZero(l);
  }

  lemma {:induction false} OrZero(y: nat)
    ensures Or(0, y) == y
    decreases y
  {
    if y > 0 {
      OrZero(y / 2);
    }
  }

  lemma OrIsZero(x: byte, y: byte)
    ensures Or(x, y) == 0 <==> x == 0 && y == 0
  {
  }

  /** Masking then setting, twice, is masking then setting once. */
  lemma AndOrCompose(x: nat, a: nat, o: nat, b: nat, p: nat, n: nat)
    requires x < Pow2(n) && o < Pow2(n) && p < Pow2(n)
    ensures Or(And(Or(And(x, a), o), b), p) == Or(And(x, And(a, b)), Or(And(o, b), p))
  {
    var l, r := Or(And(Or(And(x, a), o), b), p), Or(And(x, And(a, b)), Or(And(o, b), p));
    AndOrBound(x, a, o, n);
    AndOrBound(Or(And(x, a), o), b, p, n);
    AndOrBound(o, b, p, n);
    AndOrBound(x, And(a, b), Or(And(o, b), p), n);
    forall i: nat | i < n
      ensures Bit(l, i) == Bit(r, i)
    {
      AndOrBit(x, a, o, i);
      AndOrBit(Or(And(x, a), o), b, p, i);
      AndOrBit(o, b, p, i);
      AndOrBit(x, And(a, b), Or(And(o, b), p), i);
      AndBit(a, b, i);
    }
    SameBits(l, r, n);
  }

  /** Applying one mask-and-set pair a second time changes nothing. */
  lemma AndOrIdempotent(x: nat, a: nat, o: nat, n: nat)
    requires x < Pow2(n) && o < Pow2(n)
    ensures Or(And(Or(And(x, a), o), a), o) == Or(And(x, a), o)
  {
    var y := Or(And(x, a), o);
    AndOrBound(x, a, o, n);
    AndOrBound(y, a, o, n);
    forall i: nat | i < n
      ensures Bit(Or(And(y, a), o), i) == Bit(y, i)
    {
      AndOrBit(x, a, o, i);
      AndOrBit(y, a, o, i);
    }
    SameBits(Or(And(y, a), o), y, n);
  }

  lemma AndOrBit(x: nat, a: nat, o: nat, i: nat)
    ensures Bit(Or(And(x, a), o), i) == ((Bit(x, i) && Bit(a, i)) || Bit(o, i))
  {
    AndBit(x, a, i);
    OrBit(And(x, a), o, i);
  }

  lemma AndOrBound(x: nat, a: nat, o: nat, n: nat)
    requires x < Pow2(n) && o < Pow2(n)
    ensures Or(And(x, a), o) < Pow2(n)
  {
    AndBound(x, a);
    OrBound(And(x, a), o, n);
  }

  function AndByte(x: byte, y: byte): (r: byte)
    ensures r == And(x, y)
  {
    AndBound(x, y);
    And(x, y)
  }

  function OrByte(x: byte, y: byte): (r: byte)
    ensures r == Or(x, y)
  {
    Pow2Values();
    OrBound(x, y, 8);
    Or(x, y)
  }

  lemma LowNibble(x: byte)
    ensures AndByte(x, 0xf) == x % 0x10
  {
    Pow2Values();
    AndLow(x, 4);
  }

  lemma Regroup(x: seq<byte>, y: seq<byte>, z: seq<byte>)
    ensures x + y + z == x + (y + z)
  {
  }

  lemma {:induction false} HighBitsClear(mask: nat, n: nat, i: nat)
    requires mask < Pow2(n) && Bit(mask, i)
    ensures i < n
  {
    if n == 0 {
      ZeroBit(i);
    } else if i > 0 {
      HighBitsClear(mask / 2, n - 1, i - 1);
    }
  }

  lemma {:induction false} XorBit(x: nat, y: nat, i: nat)
    ensures Bit(Xor(x, y), i) == (Bit(x, i) != Bit(y, i))
    decreases i
  {
    if y == 0 {
      ZeroBit(i);
    } else if i > 0 {
      XorBit(x / 2, y / 2, i - 1);
    }
  }

  /** Every one of the n lowest digits of 2^n - 1 is set. */
  lemma {:induction false} AllOnes(n: nat, i: nat)
    requires i < n
    ensures Bit(Pow2(n) - 1, i)
  {
    assert Pow2(n) - 1 == 2 * (Pow2(n - 1) - 1) + 1;
    if i > 0 {
      AllOnes(n - 1, i - 1);
    }
  }
}

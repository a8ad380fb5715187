/**
 The CRC shift register, seen as a linear map over GF(2).

 A register value is a polynomial of degree below 32 in bit-reflected form: the top bit is the
 coefficient of x^0. `Advance` multiplies by x modulo a generator polynomial; everything the CRC
 engine does with tables and swaths is, in the end, a power of this one map.
 */
module CrcRegister {
  // The polynomial 1 in reflected form.
  const ONE: bv32 := 0x8000_0000

  /** Addition in GF(2)[x]; named so that proofs can use its laws without its bits. */
  function Xor(a: bv32, b: bv32): bv32 {
    a ^ b
  }

  /** One zero bit through the register: multiply by x, reduce modulo `poly`. */
  function Advance(poly: bv32, c: bv32): bv32 {
    if c & 1 != 0 then (c >> 1) ^ poly else c >> 1
  }

  /** `n` zero bits through the register. */
  function AdvanceBy(poly: bv32, n: nat, c: bv32): bv32 {
    if n == 0 then c else Advance(poly, AdvanceBy(poly, n - 1, c))
  }

  // ----- Xor is an abelian group in which every element is its own inverse

  lemma XorComm(a: bv32, b: bv32)
    ensures Xor(a, b) == Xor(b, a)
  {
  }

  lemma {:induction false} XorAssoc(a: bv32, b: bv32, c: bv32)
    ensures Xor(Xor(a, b), c) == Xor(a, Xor(b, c))
  {
    assert (a ^ b) ^ c == a ^ (b ^ c);
  }

  lemma XorZero(a: bv32)
    ensures Xor(a, 0) == a && Xor(0, a) == a && Xor(a, a) == 0
  {
  }

  lemma {:induction false} XorSwap(a: bv32, b: bv32, c: bv32, d: bv32)
    ensures Xor(Xor(a, b), Xor(c, d)) == Xor(Xor(a, c), Xor(b, d))
  {
    hide Xor;
    XorAssoc(a, b, Xor(c, d));
    XorAssoc(b, c, d);
    XorComm(b, c);
    XorAssoc(c, b, d);
    XorAssoc(a, c, Xor(b, d));
  }

  lemma {:induction false} XorCancel(a: bv32, b: bv32)
    ensures Xor(Xor(a, b), b) == a && Xor(b, Xor(b, a)) == a
  {
    hide Xor;
    XorAssoc(a, b, b);
    XorAssoc(b, b, a);
    XorZero(a);
    XorZero(b);
  }

  // ----- Advance is linear

  lemma AdvanceXorOddOdd(poly: bv32, a: bv32, b: bv32)
    requires a & 1 != 0 && b & 1 != 0
    ensures Advance(poly, a ^ b) == Advance(poly, a) ^ Advance(poly, b)
  {
  }

  lemma AdvanceXorOddEven(poly: bv32, a: bv32, b: bv32)
    requires a & 1 != 0 && b & 1 == 0
    ensures Advance(poly, a ^ b) == Advance(poly, a) ^ Advance(poly, b)
  {
  }

  lemma AdvanceXorEvenEven(poly: bv32, a: bv32, b: bv32)
    requires a & 1 == 0 && b & 1 == 0
    ensures Advance(poly, a ^ b) == Advance(poly, a) ^ Advance(poly, b)
  {
  }

  lemma {:induction false} AdvanceXor(poly: bv32, a: bv32, b: bv32)
    ensures Advance(poly, Xor(a, b)) == Xor(Advance(poly, a), Advance(poly, b))
  {
    hide Advance;
    if a & 1 != 0 {
      if b & 1 != 0 {
        AdvanceXorOddOdd(poly, a, b);
      } else {
        AdvanceXorOddEven(poly, a, b);
      }
    } else if b & 1 != 0 {
      AdvanceXorOddEven(poly, b, a);
      XorComm(a, b);
      XorComm(Advance(poly, a), Advance(poly, b));
    } else {
      AdvanceXorEvenEven(poly, a, b);
    }
  }

  lemma {:induction false} AdvanceByXor(poly: bv32, n: nat, a: bv32, b: bv32)
    ensures AdvanceBy(poly, n, Xor(a, b)) == Xor(AdvanceBy(poly, n, a), AdvanceBy(poly, n, b))
  {
    hide Advance, Xor;
    if n > 0 {
      AdvanceByXor(poly, n - 1, a, b);
      AdvanceXor(poly, AdvanceBy(poly, n - 1, a), AdvanceBy(poly, n - 1, b));
    }
  }

  lemma {:induction false} AdvanceByZero(poly: bv32, n: nat)
    ensures AdvanceBy(poly, n, 0) == 0
  {
    if n > 0 {
      AdvanceByZero(poly, n - 1);
    }
  }

  lemma {:induction false} AdvanceByAdd(poly: bv32, m: nat, n: nat, c: bv32)
    ensures AdvanceBy(poly, m + n, c) == AdvanceBy(poly, m, AdvanceBy(poly, n, c))
  {
    hide Advance;
    if m > 0 {
      AdvanceByAdd(poly, m - 1, n, c);
    }
  }

  lemma {:induction false} AdvanceByCommute(poly: bv32, m: nat, n: nat, c: bv32)
    ensures AdvanceBy(poly, m, AdvanceBy(poly, n, c)) == AdvanceBy(poly, n, AdvanceBy(poly, m, c))
  {
    hide Advance;
    AdvanceByAdd(poly, m, n, c);
    AdvanceByAdd(poly, n, m, c);
  }

  /** The first bit can be taken at either end. */
  lemma {:induction false} AdvanceByFirst(poly: bv32, n: nat, c: bv32)
    ensures AdvanceBy(poly, n + 1, c) == AdvanceBy(poly, n, Advance(poly, c))
  {
    hide Advance;
    AdvanceByAdd(poly, n, 1, c);
    assert AdvanceBy(poly, 1, c) == Advance(poly, AdvanceBy(poly, 0, c));
  }

  lemma AdvanceByLast(poly: bv32, n: nat, c: bv32)
    ensures AdvanceBy(poly, n + 1, c) == Advance(poly, AdvanceBy(poly, n, c))
  {
  }

  // ----- Multiplication of polynomials

  /** The part of the product `l * m` due to the bits of `l` at `one` and below. */
  function MultiplyFrom(poly: bv32, l: bv32, m: bv32, one: bv32): bv32
    decreases one
  {
    if one == 0 then 0
    else Xor(if l & one != 0 then m else 0, MultiplyFrom(poly, l, Advance(poly, m), one >> 1))
  }

  function Multiply(poly: bv32, l: bv32, m: bv32): bv32 {
    MultiplyFrom(poly, l, m, ONE)
  }

  predicate SingleBit(one: bv32) {
    one != 0 && one & (one - 1) == 0
  }

  /** The position of the highest bit of `one`. */
  function Log(one: bv32): nat
    decreases one
  {
    if one <= 1 then 0 else 1 + Log(one >> 1)
  }

  lemma SingleBitHalves(one: bv32)
    requires SingleBit(one)
    ensures one != 1 ==> SingleBit(one >> 1) && one & 1 == 0 && one > 1
    ensures one >> 1 == 0 <==> one == 1
  {
  }

  lemma {:induction false} LogDouble(x: bv32)
    requires 0 < x < ONE
    ensures Log(x << 1) == 1 + Log(x)
  {
    assert (x << 1) >> 1 == x && x << 1 > 1;
  }

  lemma {:induction false} LogOne()
    ensures Log(ONE) == 31
  {
    var x: bv32, k: bv32 := 1, 0;
    while x != ONE
      invariant k <= 31 && x == 1 << k && Log(x) == k as int
      decreases 31 - k
    {
      LogDouble(x);
      assert k != 31 && x < ONE && (k + 1) as int == k as int + 1 && 1 << (k + 1) == x << 1;
      x, k := x << 1, k + 1;
    }
    assert k == 31;
  }

  lemma {:induction false} XorAdvance(poly: bv32, bit: bool, m: bv32, rest: bv32)
    ensures Advance(poly, Xor(if bit then m else 0, rest))
         == Xor(if bit then Advance(poly, m) else 0, Advance(poly, rest))
  {
    hide Advance, Xor;
    AdvanceXor(poly, if bit then m else 0, rest);
    assert Advance(poly, 0) == 0 by {
      AdvanceByZero(poly, 1);
    }
  }

  lemma {:induction false} MultiplyFromAdvance(poly: bv32, l: bv32, m: bv32, one: bv32)
    ensures MultiplyFrom(poly, l, Advance(poly, m), one) == Advance(poly, MultiplyFrom(poly, l, m, one))
    decreases one
  {
    if one == 0 {
      AdvanceByZero(poly, 1);
    } else {
      hide Advance, Xor;
      MultiplyFromAdvance(poly, l, Advance(poly, m), one >> 1);
      XorAdvance(poly, l & one != 0, m, MultiplyFrom(poly, l, Advance(poly, m), one >> 1));
    }
  }

  /** The lowest bit of `l`, which is its highest power, can be split off. */
  lemma {:induction false} MultiplyFromLow(poly: bv32, l: bv32, m: bv32, one: bv32)
    requires SingleBit(one)
    ensures MultiplyFrom(poly, l, m, one)
         == Xor(MultiplyFrom(poly, l >> 1, m, one >> 1),
                if l & 1 != 0 then AdvanceBy(poly, Log(one), m) else 0)
    decreases one
  {
    hide Advance, Xor;
    if one == 1 {
      XorZero(if l & 1 != 0 then m else 0);
    } else {
      SingleBitHalves(one);
      assert l & one != 0 <==> (l >> 1) & (one >> 1) != 0;
      var m' := Advance(poly, m);
      MultiplyFromLow(poly, l, m', one >> 1);
      AdvanceByFirst(poly, Log(one >> 1), m);
      XorAssoc(if l & one != 0 then m else 0, MultiplyFrom(poly, l >> 1, m', one >> 1 >> 1),
               if l & 1 != 0 then AdvanceBy(poly, Log(one), m) else 0);
    }
  }

  lemma {:induction false} MultiplyAdvanceRight(poly: bv32, l: bv32, n: nat, m: bv32)
    ensures Multiply(poly, l, AdvanceBy(poly, n, m)) == AdvanceBy(poly, n, Multiply(poly, l, m))
  {
    hide Advance, Xor;
    if n > 0 {
      MultiplyAdvanceRight(poly, l, n - 1, m);
      MultiplyFromAdvance(poly, l, AdvanceBy(poly, n - 1, m), ONE);
    }
  }

  /** The bits of `l` at `one`, under it, and both. */
  function At(l: bv32, one: bv32): bv32 {
    l & one
  }

  function Under(l: bv32, one: bv32): bv32 {
    l & (one - 1)
  }

  function UpTo(l: bv32, one: bv32): bv32 {
    l & (one | (one - 1))
  }

  lemma {:induction false} UpToHalf(l: bv32, one: bv32)
    requires SingleBit(one) && one != 1
    ensures UpTo(l, one >> 1) == Under(l, one)
  {
    assert (one >> 1) | ((one >> 1) - 1) == one - 1;
  }

  lemma UpToLowest(l: bv32)
    ensures UpTo(l, 1) == At(l, 1)
  {
  }

  lemma {:induction false} AtSelects(l: bv32, one: bv32)
    requires SingleBit(one)
    ensures At(l, one) == if l & one != 0 then one else 0
  {
    assert l & one == 0 || l & one == one;
  }

  lemma UpToSplits(l: bv32, one: bv32)
    requires SingleBit(one)
    ensures Xor(At(l, one), Under(l, one)) == UpTo(l, one)
  {
  }

  /** Reading a product with 1 bit by bit gives the other factor back. */
  lemma {:induction false} MultiplyFromIdentity(poly: bv32, l: bv32, one: bv32)
    requires SingleBit(one)
    ensures MultiplyFrom(poly, l, one, one) == UpTo(l, one)
    decreases one
  {
    hide Xor, At, Under, UpTo, Advance;
    AtSelects(l, one);
    if one == 1 {
      XorZero(At(l, 1));
      UpToLowest(l);
    } else {
      SingleBitHalves(one);
      AdvanceEven(poly, one);
      MultiplyFromIdentity(poly, l, one >> 1);
      UpToHalf(l, one);
      UpToSplits(l, one);
    }
  }

  lemma AdvanceEven(poly: bv32, c: bv32)
    requires c & 1 == 0
    ensures Advance(poly, c) == c >> 1
  {
  }

  lemma {:induction false} MultiplyIdentity(poly: bv32, l: bv32)
    ensures Multiply(poly, l, ONE) == l
  {
    MultiplyFromIdentity(poly, l, ONE);
  }
}

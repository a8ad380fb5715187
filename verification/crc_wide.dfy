/**
 Multiplying a register by a table entry one byte at a time in a 64-bit accumulator, as
 `ExtendByZeroesImpl` does, and why that is multiplication modulo the generator.
 */
module CrcWide {
  import opened CrcRegister
  import opened CrcBytes
  import opened CrcTables

  // ----- Horner's rule, highest power (lowest bit) first

  function FoldBits(poly: bv32, r: bv32, w: bv32, m: bv32, k: nat): bv32
    decreases k
  {
    if k == 0 then r
    else FoldBits(poly, Xor(Advance(poly, r), if w & 1 != 0 then m else 0), w >> 1, m, k - 1)
  }

  function Halve(x: bv32, k: nat): bv32
    decreases k
  {
    if k == 0 then x else Halve(x >> 1, k - 1)
  }

  lemma {:induction false} HalveFour(x: bv32)
    ensures Halve(x, 4) == x >> 4
  {
    assert (x >> 1) >> 1 == x >> 2 && (x >> 2) >> 1 == x >> 3 && (x >> 3) >> 1 == x >> 4;
    assert Halve(x >> 4, 0) == x >> 4;
    assert Halve(x >> 3, 1) == x >> 4;
    assert Halve(x >> 2, 2) == x >> 4;
    assert Halve(x >> 1, 3) == x >> 4;
  }

  lemma {:induction false} HalveEight(x: bv32)
    ensures Halve(x, 8) == x >> 8
  {
    HalveAdd(x, 4, 4);
    HalveFour(x);
    HalveFour(x >> 4);
    assert (x >> 4) >> 4 == x >> 8;
  }

  lemma {:induction false} HalveAdd(x: bv32, i: nat, j: nat)
    ensures Halve(x, i + j) == Halve(Halve(x, i), j)
    decreases i
  {
    if i > 0 {
      HalveAdd(x >> 1, i - 1, j);
    }
  }

  /** `one` is the bit that stands `left` bits before the end of the word. */
  predicate Position(one: bv32, left: nat) {
    if left == 0 then one == 0 else SingleBit(one) && Log(one) == left - 1
  }

  lemma {:induction false} PositionHalves(one: bv32, left: nat)
    requires left > 0 && Position(one, left)
    ensures Position(one >> 1, left - 1)
  {
    SingleBitHalves(one);
  }

  /** The product is what has been folded, advanced by what is left, plus the bits still to fold. */
  lemma {:induction false} FoldBit(poly: bv32, r: bv32, a: bv32, m: bv32, one: bv32, left: nat)
    requires left > 0 && Position(one, left)
    ensures Xor(AdvanceBy(poly, left, r), MultiplyFrom(poly, a, m, one))
         == Xor(AdvanceBy(poly, left - 1, Xor(Advance(poly, r), if a & 1 != 0 then m else 0)),
                MultiplyFrom(poly, a >> 1, m, one >> 1))
  {
    hide Xor, Advance;
    var bit := if a & 1 != 0 then m else 0;
    MultiplyFromLow(poly, a, m, one);
    AdvanceByZero(poly, left - 1);
    AdvanceByFirst(poly, left - 1, r);
    hide AdvanceBy, MultiplyFrom;
    AdvanceByXor(poly, left - 1, Advance(poly, r), bit);
    var rest := MultiplyFrom(poly, a >> 1, m, one >> 1);
    XorComm(rest, AdvanceBy(poly, left - 1, bit));
    XorAssoc(AdvanceBy(poly, left, r), AdvanceBy(poly, left - 1, bit), rest);
  }

  lemma {:induction false} FoldMany(poly: bv32, r: bv32, a: bv32, m: bv32, one: bv32, left: nat, k: nat)
    requires k <= left && Position(one, left)
    ensures Position(Halve(one, k), left - k)
    ensures Xor(AdvanceBy(poly, left, r), MultiplyFrom(poly, a, m, one))
         == Xor(AdvanceBy(poly, left - k, FoldBits(poly, r, a, m, k)),
                MultiplyFrom(poly, Halve(a, k), m, Halve(one, k)))
    decreases k
  {
    hide Xor, Advance, AdvanceBy, MultiplyFrom;
    if k > 0 {
      FoldBit(poly, r, a, m, one, left);
      PositionHalves(one, left);
      FoldMany(poly, Xor(Advance(poly, r), if a & 1 != 0 then m else 0), a >> 1, m, one >> 1, left - 1, k - 1);
    }
  }

  // ----- The same eight steps in a 64-bit accumulator

  function Wide(x: bv32): bv64 {
    x as bv64
  }

  function Xor64(a: bv64, b: bv64): bv64 {
    a ^ b
  }

  function Twice(a: bv64): bv64 {
    a << 1
  }

  function WideAdvance(poly: bv32, c: bv64): bv64 {
    if c & 1 != 0 then (c >> 1) ^ (poly as bv64) else c >> 1
  }

  function WideAdvanceBy(poly: bv32, n: nat, c: bv64): bv64 {
    if n == 0 then c else WideAdvanceBy(poly, n - 1, WideAdvance(poly, c))
  }

  /** Carry-less product of the low `k` bits of `w` with `m`, shifted up by one. */
  function CarryLess(w: bv32, m: bv32, k: nat): bv64
    decreases k
  {
    if k == 0 then 0
    else Xor64(if w & 1 != 0 then Twice(Wide(m)) else 0, Twice(CarryLess(w >> 1, m, k - 1)))
  }

  function Limit(k: nat): bv64 {
    match k
    case 0 => 0x1_0000_0000
    case 1 => 0x2_0000_0000
    case 2 => 0x4_0000_0000
    case 3 => 0x8_0000_0000
    case 4 => 0x10_0000_0000
    case 5 => 0x20_0000_0000
    case 6 => 0x40_0000_0000
    case 7 => 0x80_0000_0000
    case _ => 0x100_0000_0000
  }

  lemma LimitDoubles(k: nat)
    requires 0 < k <= 8
    ensures Limit(k) == Twice(Limit(k - 1)) && Limit(k) & (Limit(k) - 1) == 0
    ensures 0x1_0000_0000 <= Limit(k - 1) <= 0x80_0000_0000 && 0x2_0000_0000 <= Limit(k)
  {
  }

  lemma XorBelow(a: bv64, b: bv64, limit: bv64)
    requires a < limit && b < limit && limit & (limit - 1) == 0
    ensures Xor64(a, b) < limit
  {
  }

  lemma TwiceBelow(a: bv64, limit: bv64)
    requires a < limit <= 0x80_0000_0000
    ensures Twice(a) < Twice(limit)
  {
  }

  lemma WideBelow(m: bv32)
    ensures Wide(m) < 0x1_0000_0000 && Twice(Wide(m)) < 0x2_0000_0000
  {
  }

  lemma {:induction false} CarryLessFits(w: bv32, m: bv32, k: nat)
    requires k <= 8
    ensures CarryLess(w, m, k) < Limit(k)
    decreases k
  {
    if k > 0 {
      CarryLessFits(w >> 1, m, k - 1);
      LimitDoubles(k);
      hide Xor64, Twice, Wide, Limit;
      TwiceBelow(CarryLess(w >> 1, m, k - 1), Limit(k - 1));
      WideBelow(m);
      XorBelow(if w & 1 != 0 then Twice(Wide(m)) else 0, Twice(CarryLess(w >> 1, m, k - 1)), Limit(k));
    }
  }

  /** One wide step on a register with an even value on top. */
  lemma {:induction false} WideStep(poly: bv32, x: bv32, y: bv64)
    requires y < 0x100_0000_0000
    ensures WideAdvance(poly, Xor64(Wide(x), Twice(y))) == Xor64(Wide(Advance(poly, x)), y)
  {
    StepTerms(x, y);
    StepTerms(Advance(poly, x), y);
    hide Advance, WideAdvance, Xor64, Wide, Twice;
    if x & 1 == 0 {
      WideStepEven(poly, x, y);
    } else {
      WideStepOdd(poly, x, y);
    }
  }

  lemma StepTerms(x: bv32, y: bv64)
    ensures Xor64(Wide(x), Twice(y)) == (x as bv64) ^ (y << 1)
    ensures Xor64(Wide(x), y) == (x as bv64) ^ y
  {
  }

  lemma WideStepEven(poly: bv32, x: bv32, y: bv64)
    requires y < 0x100_0000_0000 && x & 1 == 0
    ensures WideAdvance(poly, (x as bv64) ^ (y << 1)) == (Advance(poly, x) as bv64) ^ y
  {
  }

  lemma WideStepOdd(poly: bv32, x: bv32, y: bv64)
    requires y < 0x100_0000_0000 && x & 1 != 0
    ensures WideAdvance(poly, (x as bv64) ^ (y << 1)) == (Advance(poly, x) as bv64) ^ y
  {
  }

  lemma TwiceXor(a: bv64, b: bv64)
    ensures Twice(Xor64(a, b)) == Xor64(Twice(a), Twice(b))
  {
  }

  lemma WideXor(a: bv32, b: bv32, c: bv64)
    ensures Xor64(Wide(a), Xor64(Wide(b), c)) == Xor64(Wide(Xor(a, b)), c)
  {
  }

  lemma WideZero(r: bv32)
    ensures Xor64(Wide(r), 0) == Wide(r) && Wide(0) == 0 && Twice(0) == 0
  {
  }

  lemma {:induction false} WideBit(poly: bv32, r: bv32, bit: bv32, more: bv64)
    requires more < 0x80_0000_0000
    ensures WideAdvance(poly, Xor64(Wide(r), Twice(Xor64(Wide(bit), more))))
         == Xor64(Wide(Xor(Advance(poly, r), bit)), more)
  {
    hide Xor64, Twice, Wide, Xor, Advance, WideAdvance;
    WideBelow(bit);
    XorBelow(Wide(bit), more, 0x80_0000_0000);
    WideStep(poly, r, Xor64(Wide(bit), more));
    WideXor(Advance(poly, r), bit, more);
  }

  lemma {:induction false} CarryLessBit(w: bv32, m: bv32, k: nat)
    requires k > 0
    ensures CarryLess(w, m, k)
         == Twice(Xor64(Wide(if w & 1 != 0 then m else 0), CarryLess(w >> 1, m, k - 1)))
  {
    hide Xor64, Twice, Wide;
    WideZero(0);
    TwiceXor(Wide(if w & 1 != 0 then m else 0), CarryLess(w >> 1, m, k - 1));
  }

  /** Adding the carry-less product and taking `k` wide steps is folding `k` bits. */
  lemma {:induction false} WideMany(poly: bv32, r: bv32, w: bv32, m: bv32, k: nat)
    requires k <= 8
    ensures WideAdvanceBy(poly, k, Xor64(Wide(r), CarryLess(w, m, k))) == Wide(FoldBits(poly, r, w, m, k))
    decreases k
  {
    hide Xor64, Twice, Wide, Xor, Advance, WideAdvance;
    if k == 0 {
      WideZero(r);
    } else {
      hide CarryLess;
      var bit: bv32 := if w & 1 != 0 then m else 0;
      CarryLessBit(w, m, k);
      CarryLessBelow(w >> 1, m, k - 1);
      WideBit(poly, r, bit, CarryLess(w >> 1, m, k - 1));
      WideMany(poly, Xor(Advance(poly, r), bit), w >> 1, m, k - 1);
    }
  }

  lemma {:induction false} CarryLessBelow(w: bv32, m: bv32, k: nat)
    requires k < 8
    ensures CarryLess(w, m, k) < 0x80_0000_0000
  {
    hide CarryLess;
    CarryLessFits(w, m, k);
    LimitDoubles(k + 1);
  }

  function TwiceBy(h: bv64, k: nat): bv64 {
    if k == 0 then h else Twice(TwiceBy(h, k - 1))
  }

  lemma {:induction false} TwiceByFits(h: bv64, k: nat)
    requires k <= 8 && h < 0x1_0000_0000
    ensures TwiceBy(h, k) < Limit(k)
  {
    if k > 0 {
      TwiceByFits(h, k - 1);
      LimitDoubles(k);
      hide Twice;
      TwiceBelow(TwiceBy(h, k - 1), Limit(k - 1));
    }
  }

  lemma {:induction false} TwiceByBelow(h: bv64, k: nat)
    requires k < 8 && h < 0x1_0000_0000
    ensures TwiceBy(h, k) < 0x80_0000_0000
  {
    hide TwiceBy;
    TwiceByFits(h, k);
    LimitDoubles(k + 1);
  }

  lemma {:induction false} TwiceByTwo(h: bv64)
    ensures TwiceBy(h, 2) == h << 2
  {
    assert TwiceBy(h, 1) == Twice(TwiceBy(h, 0));
  }

  lemma {:induction false} TwiceByAdd(h: bv64, i: nat, j: nat)
    ensures TwiceBy(h, i + j) == TwiceBy(TwiceBy(h, i), j)
    decreases j
  {
    hide Twice;
    if j > 0 {
      TwiceByAdd(h, i, j - 1);
    }
  }

  lemma {:induction false} TwiceByFour(h: bv64)
    ensures TwiceBy(h, 4) == h << 4
  {
    hide TwiceBy;
    TwiceByTwo(h);
    TwiceByAdd(h, 2, 2);
    TwiceByTwo(h << 2);
    assert (h << 2) << 2 == h << 4;
  }

  lemma {:induction false} TwiceByEight(h: bv64)
    ensures TwiceBy(h, 8) == h << 8
  {
    hide TwiceBy;
    TwiceByFour(h);
    TwiceByAdd(h, 4, 4);
    TwiceByFour(h << 4);
    assert (h << 4) << 4 == h << 8;
  }

  /** Wide steps of a register with something on top: the top shifts down untouched. */
  lemma {:induction false} WideDrop(poly: bv32, x: bv32, h: bv64, k: nat)
    requires k <= 8 && h < 0x1_0000_0000
    ensures WideAdvanceBy(poly, k, Xor64(Wide(x), TwiceBy(h, k))) == Xor64(Wide(AdvanceBy(poly, k, x)), h)
    decreases k
  {
    hide Xor64, Twice, Wide, Advance, WideAdvance;
    if k > 0 {
      TwiceByBelow(h, k - 1);
      WideStep(poly, x, TwiceBy(h, k - 1));
      WideDrop(poly, Advance(poly, x), h, k - 1);
      AdvanceByFirst(poly, k - 1, x);
    }
  }

  lemma SplitWide(c: bv64)
    requires c < 0x100_0000_0000
    ensures Xor64(Wide((c & 0xff) as bv32), (c >> 8) << 8) == c && c >> 8 < 0x1_0000_0000
  {
  }

  lemma {:induction false} WideByte(poly: bv32, c: bv64)
    requires c < 0x100_0000_0000
    ensures WideAdvanceBy(poly, 8, c) == Xor64(Wide(AdvanceBy(poly, 8, (c & 0xff) as bv32)), c >> 8)
  {
    hide WideAdvanceBy, AdvanceBy, TwiceBy, Xor64, Wide;
    SplitWide(c);
    TwiceByEight(c >> 8);
    WideDrop(poly, (c & 0xff) as bv32, c >> 8, 8);
  }

  /** The four products of two bits with `m`, as tabulated before the multiplication. */
  function Pick(m: bv32, d: bv32): bv64 {
    if d == 0 then 0
    else if d == 1 then Twice(Wide(m))
    else if d == 2 then Twice(Twice(Wide(m)))
    else Xor64(Twice(Twice(Wide(m))), Twice(Wide(m)))
  }

  lemma {:induction false} CarryLessTwo(w: bv32, m: bv32, k: nat)
    requires k >= 2
    ensures CarryLess(w, m, k) == Xor64(Pick(m, w & 3), Twice(Twice(CarryLess(w >> 2, m, k - 2))))
  {
    var u := Twice(Wide(m));
    var c := CarryLess(w >> 2, m, k - 2);
    TwoBits(w);
    hide Xor64, Twice, Wide;
    assert CarryLess(w >> 1, m, k - 1) == Xor64(if (w >> 1) & 1 != 0 then u else 0, Twice(c));
    hide CarryLess;
    TwoPicks(u, c);
    WideZero(0);
  }

  lemma TwoBits(w: bv32)
    ensures (w >> 1) >> 1 == w >> 2
    ensures w & 3 == 0 <==> w & 1 == 0 && (w >> 1) & 1 == 0
    ensures w & 3 == 1 <==> w & 1 != 0 && (w >> 1) & 1 == 0
    ensures w & 3 == 2 <==> w & 1 == 0 && (w >> 1) & 1 != 0
  {
  }

  lemma {:induction false} TwoPicks(u: bv64, c: bv64)
    ensures Xor64(0, Twice(Xor64(0, Twice(c)))) == Xor64(0, Twice(Twice(c)))
    ensures Xor64(u, Twice(Xor64(0, Twice(c)))) == Xor64(u, Twice(Twice(c)))
    ensures Xor64(0, Twice(Xor64(u, Twice(c)))) == Xor64(Twice(u), Twice(Twice(c)))
    ensures Xor64(u, Twice(Xor64(u, Twice(c)))) == Xor64(Xor64(Twice(u), u), Twice(Twice(c)))
  {
    hide Xor64, Twice;
    TwiceXor(u, Twice(c));
    ZeroXor64(Twice(c));
    ZeroXor64(Xor64(Twice(u), Twice(Twice(c))));
    Xor64Swap(u, Twice(u), Twice(Twice(c)));
  }

  lemma ZeroXor64(a: bv64)
    ensures Xor64(0, a) == a
  {
  }

  lemma {:induction false} Xor64Swap(a: bv64, b: bv64, c: bv64)
    ensures Xor64(a, Xor64(b, c)) == Xor64(Xor64(b, a), c)
  {
    assert a ^ (b ^ c) == (b ^ a) ^ c;
  }

  function Quarter(w: bv32): bv32 {
    w >> 2
  }

  function Up(c: bv64): bv64 {
    Twice(Twice(c))
  }

  lemma {:induction false} CarryLessUp(w: bv32, m: bv32, k: nat)
    requires k >= 2
    ensures CarryLess(w, m, k) == Xor64(Pick(m, w & 3), Up(CarryLess(Quarter(w), m, k - 2)))
  {
    hide Xor64, Twice, CarryLess, Pick;
    CarryLessTwo(w, m, k);
  }

  lemma {:induction false} UpXor(a: bv64, b: bv64)
    ensures Up(Xor64(a, b)) == Xor64(Up(a), Up(b))
  {
    hide Xor64, Twice;
    TwiceXor(a, b);
    TwiceXor(Twice(a), Twice(b));
  }

  lemma UpZero(a: bv64)
    ensures Xor64(a, Up(0)) == a
  {
  }

  lemma {:induction false} Xor64Assoc(a: bv64, b: bv64, c: bv64)
    ensures Xor64(a, Xor64(b, c)) == Xor64(Xor64(a, b), c)
  {
    assert a ^ (b ^ c) == (a ^ b) ^ c;
  }

  /** Four tabulated products, moved up and added, make the carry-less product with a byte. */
  lemma {:induction false} CarryLessByte(w: bv32, m: bv32)
    ensures CarryLess(w, m, 8)
         == Xor64(Xor64(Xor64(Pick(m, w & 3), Up(Pick(m, Quarter(w) & 3))),
                        Up(Up(Pick(m, Quarter(Quarter(w)) & 3)))),
                  Up(Up(Up(Pick(m, Quarter(Quarter(Quarter(w))) & 3)))))
  {
    hide Pick, CarryLess, Quarter, Up, Xor64;
    var q := Quarter(w);
    var qq := Quarter(q);
    var qqq := Quarter(qq);
    var a, b, c, d := Pick(m, w & 3), Pick(m, q & 3), Pick(m, qq & 3), Pick(m, qqq & 3);
    CarryLessUp(w, m, 8);
    CarryLessUp(q, m, 6);
    CarryLessUp(qq, m, 4);
    CarryLessUp(qqq, m, 2);
    CarryLessNone(Quarter(qqq), m);
    UpZero(d);
    UpXor(c, Up(d));
    UpXor(b, Xor64(Up(c), Up(Up(d))));
    UpXor(Up(c), Up(Up(d)));
    UpXor(b, Up(Xor64(c, Up(d))));
    Xor64Assoc(Up(b), Up(Up(c)), Up(Up(Up(d))));
    Xor64Assoc(a, Up(b), Xor64(Up(Up(c)), Up(Up(Up(d)))));
    Xor64Assoc(Xor64(a, Up(b)), Up(Up(c)), Up(Up(Up(d))));
  }

  lemma CarryLessNone(w: bv32, m: bv32)
    ensures CarryLess(w, m, 0) == 0
  {
  }

  lemma UpShift(a: bv64)
    ensures Up(a) == a << 2
  {
  }

  lemma {:induction false} UpUpShift(a: bv64)
    ensures Up(Up(a)) == a << 4
  {
    hide Up;
    UpShift(a);
    UpShift(a << 2);
    assert (a << 2) << 2 == a << 4;
  }

  lemma {:induction false} UpUpUpShift(a: bv64)
    ensures Up(Up(Up(a))) == a << 6
  {
    hide Up;
    UpUpShift(a);
    UpShift(a << 4);
    assert (a << 4) << 2 == a << 6;
  }

  lemma {:induction false} Quarters(w: bv32)
    ensures Quarter(w) == w >> 2 && Quarter(Quarter(w)) == w >> 4 && Quarter(Quarter(Quarter(w))) == w >> 6
  {
    assert (w >> 2) >> 2 == w >> 4 && (w >> 4) >> 2 == w >> 6;
  }

  /** The sum of the four lookups, as the engine writes it. */
  function Sum(a: bv64, b: bv64, c: bv64, d: bv64): bv64 {
    Xor64(Xor64(Xor64(a, b << 2), c << 4), d << 6)
  }

  lemma {:induction false} SumUp(a: bv64, b: bv64, c: bv64, d: bv64)
    ensures Sum(a, b, c, d) == Xor64(Xor64(Xor64(a, Up(b)), Up(Up(c))), Up(Up(Up(d))))
  {
    hide Up, Xor64;
    UpShift(b);
    UpUpShift(c);
    UpUpUpShift(d);
  }

  function Product(w: bv32, m: bv32): bv64 {
    Sum(Pick(m, w & 3), Pick(m, (w >> 2) & 3), Pick(m, (w >> 4) & 3), Pick(m, (w >> 6) & 3))
  }

  lemma {:induction false} ProductIsCarryLess(w: bv32, m: bv32)
    ensures Product(w, m) == CarryLess(w, m, 8)
  {
    hide CarryLess, Pick, Up, Quarter, Sum, Xor64;
    CarryLessByte(w, m);
    Quarters(w);
    SumUp(Pick(m, w & 3), Pick(m, (w >> 2) & 3), Pick(m, (w >> 4) & 3), Pick(m, (w >> 6) & 3));
  }

  /** Add a byte's product to the accumulator and reduce: eight bits folded. */
  lemma {:induction false} MultiplyByte(poly: bv32, r: bv32, w: bv32, m: bv32)
    ensures Xor64(Wide(r), Product(w, m)) < 0x100_0000_0000
    ensures Wide(FoldBits(poly, r, w, m, 8))
         == Xor64(Wide(AdvanceBy(poly, 8, (Xor64(Wide(r), Product(w, m)) & 0xff) as bv32)),
                  Xor64(Wide(r), Product(w, m)) >> 8)
  {
    ProductIsCarryLess(w, m);
    CarryLessFits(w, m, 8);
    hide CarryLess, Product, FoldBits, AdvanceBy, WideAdvanceBy, Xor64, Wide;
    WideBelow(r);
    XorBelow(Wide(r), CarryLess(w, m, 8), 0x100_0000_0000);
    WideMany(poly, r, w, m, 8);
    WideByte(poly, Xor64(Wide(r), Product(w, m)));
  }
}

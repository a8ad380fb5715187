/**
 The portable CRC32C engine: tables built once, bytes consumed four swaths at a time, zero bytes
 appended or removed by multiplication modulo the generator.
 */
module CrcEngine {
  import opened CrcRegister
  import opened CrcBytes
  import opened CrcTables
  import opened CrcWide
  import opened CrcSwath

  const CRC32C_POLY: bv32 := 0x82f6_3b78
  const TWO_TO_THE_64: nat := 0x1_0000_0000_0000_0000
  const PREFETCH_HORIZON: nat := 256
  const SWATH_SIZE: nat := 16

  // The width of size_t.
  type Size = n: nat | n < 0x1_0000_0000_0000_0000

  // ----- Bit reversal, by which the engine runs the register backwards

  function SwapBytes(b: bv32): bv32 {
    (b >> 24) | ((b >> 8) & 0xff00) | ((b << 8) & 0xff_0000) | (b << 24)
  }

  function ReverseBits(bits: bv32): bv32 {
    var pairs := ((bits & 0xaaaa_aaaa) >> 1) | ((bits & 0x5555_5555) << 1);
    var nibbles := ((pairs & 0xcccc_cccc) >> 2) | ((pairs & 0x3333_3333) << 2);
    var bytes := ((nibbles & 0xf0f0_f0f0) >> 4) | ((nibbles & 0x0f0f_0f0f) << 4);
    SwapBytes(bytes)
  }

  const CRC32C_UNEXTEND_POLY: bv32 := ReverseBits((CRC32C_POLY << 1) ^ 1)

  lemma ReverseTwice(c: bv32)
    ensures ReverseBits(ReverseBits(c)) == c
  {
  }

  /** With its bits reversed, advancing by the alternate polynomial undoes advancing by the generator. */
  lemma {:induction false} ReverseAdvance(c: bv32)
    ensures Advance(CRC32C_POLY, ReverseBits(Advance(CRC32C_UNEXTEND_POLY, ReverseBits(c)))) == c
  {
    if ReverseBits(c) & 1 == 0 {
      ReverseAdvanceEven(c);
    } else {
      ReverseAdvanceOdd(c);
    }
  }

  lemma ReverseAdvanceEven(c: bv32)
    requires ReverseBits(c) & 1 == 0
    ensures Advance(CRC32C_POLY, ReverseBits(Advance(CRC32C_UNEXTEND_POLY, ReverseBits(c)))) == c
  {
  }

  lemma ReverseAdvanceOdd(c: bv32)
    requires ReverseBits(c) & 1 != 0
    ensures Advance(CRC32C_POLY, ReverseBits(Advance(CRC32C_UNEXTEND_POLY, ReverseBits(c)))) == c
  {
  }

  lemma {:induction false} ReverseAdvanceBy(n: nat, c: bv32)
    ensures ReverseBits(AdvanceBy(CRC32C_UNEXTEND_POLY, n, ReverseBits(c))) == RetreatBy(CRC32C_POLY, n, c)
  {
    hide ReverseBits, Advance, Retreat;
    if n == 0 {
      ReverseTwice(c);
    } else {
      ReverseAdvanceBy(n - 1, c);
      var d := AdvanceBy(CRC32C_UNEXTEND_POLY, n - 1, ReverseBits(c));
      var e := ReverseBits(d);
      ReverseTwice(d);
      ReverseAdvance(e);
      assert CRC32C_POLY & ONE != 0;
      RetreatAdvance(CRC32C_POLY, ReverseBits(Advance(CRC32C_UNEXTEND_POLY, d)));
    }
  }

  // ----- Building the tables

  /** The product of two registers, one bit of the left factor after the other. */
  method PolyMultiply(val: bv32, m0: bv32, poly: bv32) returns (result: bv32)
    ensures result == Multiply(poly, val, m0)
  {
    hide Xor, Advance;
    result := 0;
    var m, one := m0, ONE;
    XorZero(Multiply(poly, val, m0));
    while one != 0
      invariant Xor(result, MultiplyFrom(poly, val, m, one)) == Multiply(poly, val, m0)
      decreases one
    {
      var rest := MultiplyFrom(poly, val, Advance(poly, m), one >> 1);
      XorAssoc(result, if val & one != 0 then m else 0, rest);
      XorZero(result);
      if val & one != 0 {
        result := Xor(result, m);
      }
      m := Advance(poly, m);
      one := one >> 1;
    }
    XorZero(result);
  }

  lemma AdvanceCases(poly: bv32, c: bv32)
    ensures Advance(poly, c) == if c & 1 != 0 then (c >> 1) ^ poly else c >> 1
  {
  }

  lemma {:induction false} GeneratorRow(poly: bv32)
    ensures poly == AdvanceBy(poly, 8, 128)
  {
    NibbleFirst(poly, 4, 128);
    QuarterFirst(poly, 2, 8);
    HalveFirst(poly, 1, 2);
    AdvanceByNone(poly, 1);
    AdvanceCases(poly, 1);
    assert AdvanceBy(poly, 1, 1) == Advance(poly, AdvanceBy(poly, 0, 1));
  }

  /** A byte advanced by `n` bits: what a word table holds. */
  ghost function Entry(poly: bv32, n: nat, i: nat): bv32 {
    AdvanceBy(poly, n, Bits(i))
  }

  lemma {:induction false} EntryNone(poly: bv32, n: nat)
    ensures Entry(poly, n, 0) == 0
  {
    AdvanceByZero(poly, n);
  }

  /** Halving a power of two advances its entry by one bit. */
  lemma {:induction false} EntryHalves(poly: bv32, n: nat, i: nat)
    requires PowerOfTwo(i) && i > 1
    ensures Entry(poly, n, i / 2) == Advance(poly, Entry(poly, n, i))
  {
    hide Bits, Advance, AdvanceBy;
    BitsHalve(poly, i);
    AdvanceByFirst(poly, n, Bits(i));
    AdvanceByLast(poly, n, Bits(i));
  }

  /** The lowest bit of one byte, advanced once more, is the top bit of the next. */
  lemma {:induction false} EntryCarries(poly: bv32, n: nat)
    ensures Entry(poly, n + 8, 128) == Advance(poly, Entry(poly, n, 1))
  {
    BitsPower();
    hide Advance, Bits, AdvanceBy;
    GeneratorRow(poly);
    AdvanceByAdd(poly, n, 8, 128);
    AdvanceOfOne(poly);
    AdvanceByFirst(poly, n, 1);
    AdvanceByLast(poly, n, 1);
  }

  lemma {:induction false} AdvanceOfOne(poly: bv32)
    ensures Advance(poly, 1) == poly
  {
    assert (1 >> 1) ^ poly == poly;
  }

  lemma {:induction false} EntryXor(poly: bv32, n: nat, i: nat, k: nat)
    requires PowerOfTwo(i) && i < k < 2 * i
    ensures Entry(poly, n, k) == Xor(Entry(poly, n, i), Entry(poly, n, k - i))
  {
    hide Bits, AdvanceBy, Xor;
    BitsSplit(i, k);
    AdvanceByXor(poly, n, Bits(i), Bits(k - i));
  }

  lemma {:induction false} EntryRow(poly: bv32, n: nat, row: seq<bv32>)
    requires |row| == 256 && forall b :: 0 <= b < 256 ==> row[b] == Entry(poly, n, b)
    ensures WordRow(poly, n, row)
  {
    hide Bits, AdvanceBy;
  }

  /**
   * Fill `wordSize` rows; `last` is the entry for the top bit of row 0. Row j holds, for every
   * byte, that byte advanced by n + 8 * j bits.
   */
  method FillWordTable(poly: bv32, last: bv32, wordSize: nat, t: seq<array<bv32>>, ghost n: nat)
    requires wordSize <= |t|
    requires forall j :: 0 <= j < |t| ==> t[j].Length == 256
    requires forall j, k :: 0 <= j < k < |t| ==> t[j] != t[k]
    requires last == AdvanceBy(poly, n, 128)
    modifies t
    ensures forall j :: 0 <= j < wordSize ==> WordRow(poly, n + 8 * j, t[j][..])
    ensures forall j :: wordSize <= j < |t| ==> t[j][..] == old(t[j][..])
  {
    hide AdvanceBy, Advance, WordRow;
    BitsPower();
    hide Bits;
    var j, top := 0, last;
    while j != wordSize
      invariant 0 <= j <= wordSize
      invariant top == Entry(poly, n + 8 * j, 128)
      invariant forall r :: 0 <= r < j ==> WordRow(poly, n + 8 * r, t[r][..])
      invariant forall r :: j <= r < |t| ==> t[r][..] == old(t[r][..])
    {
      FillRow(poly, top, t[j], n + 8 * j);
      EntryCarries(poly, n + 8 * j);
      top := Advance(poly, t[j][1]);
      j := j + 1;
    }
  }

  /** One row, from its entry for the top bit. */
  method FillRow(poly: bv32, top: bv32, row: array<bv32>, ghost n: nat)
    requires row.Length == 256
    requires top == Entry(poly, n, 128)
    modifies row
    ensures WordRow(poly, n, row[..])
    ensures row[1] == Entry(poly, n, 1)
  {
    hide Entry, Advance, Xor, WordRow;
    FillPowers(poly, top, row, n);
    FillSums(poly, row, n);
    EntryRow(poly, n, row[..]);
  }

  /** The entries of single bits, each one bit further on than the last. */
  method FillPowers(poly: bv32, top: bv32, row: array<bv32>, ghost n: nat)
    requires row.Length == 256
    requires top == Entry(poly, n, 128)
    modifies row
    ensures row[0] == Entry(poly, n, 0)
    ensures forall b :: PowerOfTwo(b) ==> row[b] == Entry(poly, n, b)
  {
    hide Entry, Advance;
    row[0] := 0;
    EntryNone(poly, n);
    row[128] := top;
    var i := 64;
    while i != 0
      invariant i == 0 || (PowerOfTwo(i) && i <= 64)
      invariant row[0] == Entry(poly, n, 0)
      invariant forall b :: PowerOfTwo(b) && b > i ==> row[b] == Entry(poly, n, b)
      decreases i
    {
      EntryHalves(poly, n, 2 * i);
      row[i] := Advance(poly, row[2 * i]);
      i := i / 2;
    }
  }

  /** All other entries, as sums of smaller ones. */
  method FillSums(poly: bv32, row: array<bv32>, ghost n: nat)
    requires row.Length == 256
    requires row[0] == Entry(poly, n, 0)
    requires forall b :: PowerOfTwo(b) ==> row[b] == Entry(poly, n, b)
    modifies row
    ensures forall b :: 0 <= b < 256 ==> row[b] == Entry(poly, n, b)
  {
    hide Entry, Xor;
    var i := 2;
    while i != 256
      invariant i == 256 || (PowerOfTwo(i) && i >= 2)
      invariant forall b :: PowerOfTwo(b) ==> row[b] == Entry(poly, n, b)
      invariant forall b :: 0 <= b < i ==> row[b] == Entry(poly, n, b)
      decreases 256 - i
    {
      var k := i + 1;
      while k != 2 * i
        invariant i < k <= 2 * i
        invariant forall b :: PowerOfTwo(b) ==> row[b] == Entry(poly, n, b)
        invariant forall b :: 0 <= b < k ==> row[b] == Entry(poly, n, b)
      {
        EntryXor(poly, n, i, k);
        row[k] := Xor(row[i], row[k - i]);
        k := k + 1;
      }
      i := 2 * i;
    }
  }

  /** Multiplying by x^n on the right is advancing by n bits. */
  lemma {:induction false} MultiplyByPower(poly: bv32, l: bv32, n: nat)
    ensures Multiply(poly, l, AdvanceBy(poly, n, ONE)) == AdvanceBy(poly, n, l)
  {
    hide Multiply, AdvanceBy;
    MultiplyAdvanceRight(poly, l, n, ONE);
    MultiplyIdentity(poly, l);
  }

  lemma {:induction false} PowerSixteen()
    ensures Power16(16) == TWO_TO_THE_64
  {
    assert Power16(4) == 0x1_0000;
    assert Power16(8) == 0x1_0000_0000;
    assert Power16(12) == 0x1_0000_0000_0000;
  }

  lemma {:induction false} PowerBelow(b: nat)
    requires b < 16
    ensures Power16(b) < TWO_TO_THE_64
  {
    PowerSixteen();
    PowerMonotone(b, 16);
  }

  lemma {:induction false} PowerMonotone(b: nat, c: nat)
    requires b <= c
    ensures Power16(b) <= Power16(c)
    ensures b < c ==> Power16(b) < Power16(c)
    decreases c
  {
    if b < c {
      PowerMonotone(b, c - 1);
    }
  }

  /** Entry a - 1 + 15 * b appends a * 16^b zero bytes; 240 entries cover every length of 64 bits. */
  method FillZeroesTable(poly: bv32, t: array<bv32>) returns (j: nat)
    requires t.Length == 256
    modifies t
    ensures j == 240 && ZeroesTable(poly, j, t[..])
  {
    hide AdvanceBy, Multiply, Power16;
    var inc := ONE >> 1;
    HalveFirst(poly, 0, ONE);
    AdvanceByNone(poly, ONE >> 1);
    ghost var d: nat := 1;
    for i := 0 to 3
      invariant inc == AdvanceBy(poly, d, ONE)
      invariant d == if i == 0 then 1 else if i == 1 then 2 else if i == 2 then 4 else 8
    {
      MultiplyByPower(poly, inc, d);
      AdvanceByAdd(poly, d, d, ONE);
      inc := PolyMultiply(inc, inc, poly);
      d := 2 * d;
    }
    j := 0;
    var incLen := 1;
    ghost var b := 0;
    PowerZero();
    while incLen != 0
      invariant b <= 16 && j == 15 * b
      invariant incLen == if b < 16 then Power16(b) else 0
      invariant inc == AdvanceBy(poly, 8 * Power16(b), ONE)
      invariant ZeroesTable(poly, j, t[..])
      decreases 16 - b
    {
      inc := FillDigits(poly, t, j, inc, b);
      j := j + 15;
      PowerStep(b);
      PowerSixteen();
      if b < 15 {
        PowerBelow(b + 1);
      }
      incLen := incLen * ZEROES_BASE % TWO_TO_THE_64;
      b := b + 1;
    }
  }

  lemma PowerZero()
    ensures Power16(0) == 1
  {
  }

  lemma PowerStep(b: nat)
    ensures Power16(b + 1) == 16 * Power16(b)
  {
  }

  /** The fifteen entries for the digits at place `b`. */
  method FillDigits(poly: bv32, t: array<bv32>, j0: nat, inc: bv32, ghost b: nat) returns (v: bv32)
    requires t.Length == 256 && j0 == 15 * b && b < 16
    requires inc == AdvanceBy(poly, 8 * Power16(b), ONE)
    requires ZeroesTable(poly, j0, t[..])
    modifies t
    ensures ZeroesTable(poly, j0 + 15, t[..])
    ensures v == AdvanceBy(poly, 8 * Power16(b + 1), ONE)
  {
    hide AdvanceBy, Multiply, Power16;
    v := inc;
    var a := 1;
    ghost var bytes := Power16(b);
    while a != ZEROES_BASE
      invariant 1 <= a <= ZEROES_BASE && bytes == a * Power16(b)
      invariant v == AdvanceBy(poly, 8 * bytes, ONE)
      invariant ZeroesTable(poly, j0 + a - 1, t[..])
    {
      assert (j0 + a - 1) % 15 == a - 1 && (j0 + a - 1) / 15 == b;
      assert ZeroBytes(j0 + a - 1) == bytes;
      ghost var before := t[..];
      t[j0 + a - 1] := v;
      assert forall k :: 0 <= k < j0 + a - 1 ==> t[..][k] == before[k];
      MultiplyByPower(poly, v, 8 * Power16(b));
      AdvanceByAdd(poly, 8 * Power16(b), 8 * bytes, ONE);
      v := PolyMultiply(v, inc, poly);
      a, bytes := a + 1, bytes + Power16(b);
    }
    PowerStep(b);
  }

  // ----- Appending zero bytes

  /** After x bits of `l0`: the accumulator is what has been folded, `l` what is left to fold. */
  ghost predicate Folding(poly: bv32, l0: bv32, m: bv32, x: nat, l: bv32, result: bv64, r: bv32, one: bv32) {
    x <= 32 && result == Wide(r) && Position(one, 32 - x)
    && Xor(AdvanceBy(poly, 32 - x, r), MultiplyFrom(poly, l, m, one)) == Multiply(poly, l0, m)
  }

  lemma {:induction false} StartFold(poly: bv32, l: bv32, m: bv32)
    ensures Folding(poly, l, m, 0, l, 0, 0, ONE)
  {
    LogOne();
    assert SingleBit(ONE);
    hide Xor, AdvanceBy, MultiplyFrom;
    AdvanceByZero(poly, 32);
    XorZero(MultiplyFrom(poly, l, m, ONE));
  }

  lemma {:induction false} FoldByte(poly: bv32, l0: bv32, m: bv32, x: nat, l: bv32, result: bv64, r: bv32, one: bv32)
    requires x <= 24 && Folding(poly, l0, m, x, l, result, r, one)
    ensures Folding(poly, l0, m, x + 8, l >> 8,
                    Xor64(Wide(AdvanceBy(poly, 8, (Xor64(result, Product(l, m)) & 0xff) as bv32)),
                          Xor64(result, Product(l, m)) >> 8),
                    FoldBits(poly, r, l, m, 8), Halve(one, 8))
  {
    hide Xor, Xor64, AdvanceBy, Advance, MultiplyFrom, FoldBits, Product, Wide, Halve, Multiply;
    MultiplyByte(poly, r, l, m);
    FoldMany(poly, r, l, m, one, 32 - x, 8);
    HalveEight(l);
  }

  lemma {:induction false} EndFold(poly: bv32, l0: bv32, m: bv32, l: bv32, result: bv64, r: bv32, one: bv32)
    requires Folding(poly, l0, m, 32, l, result, r, one)
    ensures result == Wide(r) && r == Multiply(poly, l0, m)
  {
    hide Multiply;
    XorZero(r);
  }

  /** One register times one table entry, a byte at a time in a 64-bit accumulator. */
  method MultiplyByEntry(l0: bv32, m: bv32, polyTable: array<bv32>, ghost poly: bv32) returns (l: bv32)
    requires WordRow(poly, 8, polyTable[..])
    ensures l == Multiply(poly, l0, m)
  {
    hide Xor64, AdvanceBy, FoldBits, Product, Wide, Pick, Folding, Multiply, WordRow, Halve;
    l := l0;
    var mtab := Tabulate(m);
    var result: bv64 := 0;
    ghost var r: bv32, one: bv32 := 0, ONE;
    StartFold(poly, l0, m);
    var x := 0;
    while x < 32
      invariant 0 <= x <= 32 && x % 8 == 0
      invariant Folding(poly, l0, m, x, l, result, r, one)
    {
      FoldByte(poly, l0, m, x, l, result, r, one);
      r, one := FoldBits(poly, r, l, m, 8), Halve(one, 8);
      var sum := SumOfLookups(mtab, l, m);
      result := Xor64(result, sum);
      l := l >> 8;
      result := ReduceByte(result, polyTable, poly);
      x := x + 8;
    }
    EndFold(poly, l0, m, l, result, r, one);
    l := Narrow(result, r);
  }

  /** Reduce modulo the polynomial: eight bits out at the bottom, their remainder in at the top. */
  method ReduceByte(c: bv64, polyTable: array<bv32>, ghost poly: bv32) returns (result: bv64)
    requires WordRow(poly, 8, polyTable[..])
    ensures result == Xor64(Wide(AdvanceBy(poly, 8, (c & 0xff) as bv32)), c >> 8)
  {
    LookUpWide(poly, polyTable[..], c);
    hide AdvanceBy;
    var i := ((c & 0xff) as bv32) as int;
    assert polyTable[..][i] == polyTable[i];
    result := Xor64(Wide(polyTable[i]), c >> 8);
  }

  lemma {:induction false} LookUpWide(poly: bv32, row: seq<bv32>, c: bv64)
    requires WordRow(poly, 8, row)
    ensures 0 <= ((c & 0xff) as bv32) as int < 256
    ensures row[((c & 0xff) as bv32) as int] == AdvanceBy(poly, 8, (c & 0xff) as bv32)
  {
    var x := (c & 0xff) as bv32;
    assert x < 0x100;
    BitsOfByte(x);
  }

  method Tabulate(m: bv32) returns (mtab: seq<bv64>)
    ensures mtab == [Pick(m, 0), Pick(m, 1), Pick(m, 2), Pick(m, 3)]
  {
    var m1 := Twice(Wide(m));
    var m2 := Twice(m1);
    mtab := [0, m1, m2, Xor64(m2, m1)];
  }

  method SumOfLookups(mtab: seq<bv64>, l: bv32, ghost m: bv32) returns (sum: bv64)
    requires mtab == [Pick(m, 0), Pick(m, 1), Pick(m, 2), Pick(m, 3)]
    ensures sum == Product(l, m)
  {
    hide Pick;
    TwoBitIndex(l);
    TwoBitIndex(l >> 2);
    TwoBitIndex(l >> 4);
    TwoBitIndex(l >> 6);
    sum := Sum(mtab[(l & 3) as int], mtab[((l >> 2) & 3) as int], mtab[((l >> 4) & 3) as int], mtab[((l >> 6) & 3) as int]);
  }

  lemma TwoBitIndex(w: bv32)
    ensures w & 3 == 0 || w & 3 == 1 || w & 3 == 2 || w & 3 == 3
    ensures 0 <= (w & 3) as int < 4
    ensures (w & 3) as int == if w & 3 == 0 then 0 else if w & 3 == 1 then 1 else if w & 3 == 2 then 2 else 3
  {
  }

  function Narrow(c: bv64, ghost r: bv32): (n: bv32)
    requires c == Wide(r)
    ensures n == r
  {
    c as bv32
  }

  /** What is left of `length` counts places from `b` up. */
  lemma {:induction false} DigitStep(length: nat, b: nat)
    ensures length * Power16(b) == (length % 16) * Power16(b) + (length / 16) * Power16(b + 1)
  {
    assert length == 16 * (length / 16) + length % 16;
    Distribute(length / 16, length % 16, Power16(b));
  }

  lemma Distribute(q: nat, r: nat, p: nat)
    ensures (16 * q + r) * p == r * p + q * (16 * p)
  {
  }

  lemma {:induction false} DigitFits(length: nat, b: nat)
    requires b < 16 && length < Power16(16 - b)
    ensures length / 16 < Power16(15 - b)
  {
    PowerStep(15 - b);
  }

  lemma {:induction false} DigitEntry(poly: bv32, z: seq<bv32>, c: nat, b: nat)
    requires ZeroesTable(poly, 240, z) && 0 < c < 16 && b < 16
    ensures z[c + 15 * b - 1] == AdvanceBy(poly, 8 * (c * Power16(b)), ONE)
  {
    var j := c + 15 * b - 1;
    assert j % 15 == c - 1 && j / 15 == b;
    assert ZeroBytes(j) == c * Power16(b);
  }

  /**
   * Append `length` zero bytes (or, with the tables of the alternate polynomial, remove them) by
   * one multiplication for every non-zero digit of `length` in base 16.
   */
  method ExtendByZeroesImpl(crc: bv32, length: Size, zeroesTable: array<bv32>, polyTable: array<bv32>,
                            ghost poly: bv32)
    returns (l: bv32)
    requires ZeroesTable(poly, 240, zeroesTable[..]) && WordRow(poly, 8, polyTable[..])
    ensures l == AdvanceBy(poly, 8 * length, crc)
  {
    hide AdvanceBy, Multiply, WordRow, Power16;
    l := crc;
    var i: nat, len: nat := 0, length;
    ghost var b: nat := 0;
    PowerZero();
    PowerSixteen();
    while len != 0
      invariant b <= 16 && i == 15 * b && len < Power16(16 - b)
      invariant AdvanceBy(poly, 8 * (len * Power16(b)), l) == AdvanceBy(poly, 8 * length, crc)
      decreases len
    {
      var c := len % ZEROES_BASE;
      DigitStep(len, b);
      if b == 16 {
        assert false;
      }
      DigitFits(len, b);
      if c != 0 {
        DigitEntry(poly, zeroesTable[..], c, b);
        MultiplyByPower(poly, l, 8 * (c * Power16(b)));
        AdvanceByAdd(poly, 8 * (len / 16 * Power16(b + 1)), 8 * (c * Power16(b)), l);
        l := MultiplyByEntry(l, zeroesTable[c + i - 1], polyTable, poly);
      }
      i, len, b := i + (ZEROES_BASE - 1), len / ZEROES_BASE, b + 1;
    }
    AdvanceByNone(poly, l);
  }

  lemma {:induction false} ExtendSlice(poly: bv32, c: bv32, bytes: seq<Byte>, p: nat, q: nat)
    requires p <= q <= |bytes|
    ensures Extend(poly, c, bytes[..q]) == Extend(poly, Extend(poly, c, bytes[..p]), bytes[p..q])
  {
    assert bytes[..q] == bytes[..p] + bytes[p..q];
    ExtendAppend(poly, c, bytes[..p], bytes[p..q]);
  }

  lemma {:induction false} ExtendOne(poly: bv32, c: bv32, bytes: seq<Byte>, p: nat)
    requires p < |bytes|
    ensures Extend(poly, c, bytes[..p + 1]) == AdvanceBy(poly, 8, Xor(Extend(poly, c, bytes[..p]), bytes[p] as bv32))
  {
    assert bytes[..p + 1][..p] == bytes[..p];
  }

  /** The 32-bit implementation, with its five lookup tables. */
  class Crc32 {
    const table0: array<bv32>
    const zeroes: array<bv32>
    const table: seq<array<bv32>>
    const reverseTable0: array<bv32>
    const reverseZeroes: array<bv32>

    /** The tables exist, apart from one another; what they hold is `Ready`. */
    ghost predicate Allocated() {
      && table0.Length == zeroes.Length == reverseTable0.Length == reverseZeroes.Length == 256
      && |table| == 4
      && (forall b :: 0 <= b < 4 ==> table[b].Length == 256)
      && (forall b, c :: 0 <= b < c < 4 ==> table[b] != table[c])
      && table0 != zeroes && table0 != reverseTable0 && table0 != reverseZeroes
      && zeroes != reverseTable0 && zeroes != reverseZeroes && reverseTable0 != reverseZeroes
      && (forall b :: 0 <= b < 4 ==> table[b] != table0 && table[b] != zeroes
                                          && table[b] != reverseTable0 && table[b] != reverseZeroes)
    }

    ghost predicate Ready()
      reads table0, zeroes, table, reverseTable0, reverseZeroes
    {
      && Allocated()
      && WordRow(CRC32C_POLY, 8, table0[..])
      && (forall b :: 0 <= b < 4 ==> WordRow(CRC32C_POLY, 104 + 8 * b, table[b][..]))
      && ZeroesTable(CRC32C_POLY, 240, zeroes[..])
      && WordRow(CRC32C_UNEXTEND_POLY, 8, reverseTable0[..])
      && ZeroesTable(CRC32C_UNEXTEND_POLY, 240, reverseZeroes[..])
    }

    constructor ()
      ensures Allocated()
      ensures fresh(table0) && fresh(zeroes) && fresh(reverseTable0) && fresh(reverseZeroes)
      ensures forall b :: 0 <= b < 4 ==> fresh(table[b])
    {
      table0 := new bv32[256];
      zeroes := new bv32[256];
      reverseTable0 := new bv32[256];
      reverseZeroes := new bv32[256];
      var r0, r1 := new bv32[256], new bv32[256];
      var r2, r3 := new bv32[256], new bv32[256];
      table := [r0, r1, r2, r3];
    }

    method InitTables()
      requires Allocated()
      modifies table0, zeroes, table, reverseTable0, reverseZeroes
      ensures Ready()
    {
      hide AdvanceBy, WordRow, ZeroesTable;
      GeneratorRow(CRC32C_POLY);
      FillWordTable(CRC32C_POLY, CRC32C_POLY, 1, [table0], 8);
      assert WordRow(CRC32C_POLY, 8 + 8 * 0, [table0][0][..]);
      var last := CRC32C_POLY;
      var size := 12;
      for i := 0 to size
        invariant last == AdvanceBy(CRC32C_POLY, 8 + 8 * i, 128)
        invariant WordRow(CRC32C_POLY, 8, table0[..])
      {
        AdvanceByAdd(CRC32C_POLY, 8, 8 + 8 * i, 128);
        last := AdvanceOneByte(table0, last, CRC32C_POLY);
      }
      FillWordTable(CRC32C_POLY, last, 4, table, 104);
      var j := FillZeroesTable(CRC32C_POLY, zeroes);
      GeneratorRow(CRC32C_UNEXTEND_POLY);
      FillWordTable(CRC32C_UNEXTEND_POLY, CRC32C_UNEXTEND_POLY, 1, [reverseTable0], 8);
      assert WordRow(CRC32C_UNEXTEND_POLY, 8 + 8 * 0, [reverseTable0][0][..]);
      j := FillZeroesTable(CRC32C_UNEXTEND_POLY, reverseZeroes);
    }

    /** Four lookups and one word: what a register becomes after 128 bits. */
    method StepSwathOnce(crcIn: bv32, bytes: seq<Byte>, p: nat) returns (r: bv32)
      requires Ready() && p + 4 <= |bytes|
      ensures r == StepSwath(CRC32C_POLY, crcIn, LoadWord(bytes[p..p + 4]))
    {
      hide AdvanceBy, WordRow, ZeroesTable, Xor, LoadWord;
      assert WordRow(CRC32C_POLY, 104 + 8 * 0, table[0][..]);
      assert WordRow(CRC32C_POLY, 104 + 8 * 1, table[1][..]);
      assert WordRow(CRC32C_POLY, 104 + 8 * 2, table[2][..]);
      assert WordRow(CRC32C_POLY, 104 + 8 * 3, table[3][..]);
      LookUpWord(CRC32C_POLY, table[0][..], table[1][..], table[2][..], table[3][..], crcIn);
      var i3, i2 := (crcIn & 0xff) as int, ((crcIn >> 8) & 0xff) as int;
      var i1, i0 := ((crcIn >> 16) & 0xff) as int, (crcIn >> 24) as int;
      assert table[3][..][i3] == table[3][i3] && table[2][..][i2] == table[2][i2];
      assert table[1][..][i1] == table[1][i1] && table[0][..][i0] == table[0][i0];
      r := Xor(LoadWord(bytes[p..p + 4]), Xor(Xor(Xor(table[3][i3], table[2][i2]), table[1][i1]), table[0][i0]));
    }

    /** One stride of 16 bytes, each register taking its own word. */
    method StepStride(b0: bv32, b1: bv32, b2: bv32, b3: bv32, bytes: seq<Byte>, p: nat, ghost crc: bv32)
      returns (r0: bv32, r1: bv32, r2: bv32, r3: bv32)
      requires Ready() && p + SWATH_SIZE <= |bytes|
      requires Combine(CRC32C_POLY, b0, b1, b2, b3) == Extend(CRC32C_POLY, crc, bytes[..p])
      ensures Combine(CRC32C_POLY, r0, r1, r2, r3) == Extend(CRC32C_POLY, crc, bytes[..p + SWATH_SIZE])
    {
      hide Extend, Combine, StepSwath, LoadWord, Ready;
      r0 := StepSwathOnce(b0, bytes, p);
      r1 := StepSwathOnce(b1, bytes, p + 4);
      r2 := StepSwathOnce(b2, bytes, p + 8);
      r3 := StepSwathOnce(b3, bytes, p + 12);
      var s := bytes[p..p + 16];
      StrideWords(bytes, p);
      StrideStep(CRC32C_POLY, b0, b1, b2, b3, s);
      ExtendSlice(CRC32C_POLY, crc, bytes, p, p + 16);
    }

    /** w + crcIn, four bytes advanced. */
    method CombineOneWord(crcIn: bv32, w0: bv32) returns (w: bv32)
      requires Ready()
      ensures w == AddWord(CRC32C_POLY, crcIn, w0)
    {
      hide AdvanceBy, WordRow, ZeroesTable;
      w := Xor(w0, crcIn);
      AdvanceByNone(CRC32C_POLY, w);
      for i := 0 to 4
        invariant w == AdvanceBy(CRC32C_POLY, 8 * i, Xor(w0, crcIn))
      {
        AdvanceByAdd(CRC32C_POLY, 8, 8 * i, Xor(w0, crcIn));
        w := AdvanceOneByte(table0, w, CRC32C_POLY);
      }
    }

    /** All the strides and whole words of `bytes` from `p0` on. */
    method ExtendSwaths(l0: bv32, bytes: seq<Byte>, p0: nat, ghost crc: bv32) returns (l: bv32, p: nat)
      requires Ready() && p0 + SWATH_SIZE <= |bytes|
      requires l0 == Extend(CRC32C_POLY, crc, bytes[..p0])
      ensures p0 <= p <= |bytes| && |bytes| - p < 4
      ensures l == Extend(CRC32C_POLY, crc, bytes[..p])
    {
      hide Extend, Combine, StepSwath, LoadWord, Ready, Xor, AddWord;
      var e := |bytes|;
      p := p0;
      var buf0 := Xor(LoadWord(bytes[p..p + 4]), l0);
      var buf1 := LoadWord(bytes[p + 4..p + 8]);
      var buf2 := LoadWord(bytes[p + 8..p + 12]);
      var buf3 := LoadWord(bytes[p + 12..p + 16]);
      StartSwaths(l0, bytes, p, crc);
      p := p + SWATH_SIZE;
      while e - p > PREFETCH_HORIZON
        invariant p0 <= p <= e && Combine(CRC32C_POLY, buf0, buf1, buf2, buf3) == Extend(CRC32C_POLY, crc, bytes[..p])
      {
        buf0, buf1, buf2, buf3 := StepStride(buf0, buf1, buf2, buf3, bytes, p, crc);
        buf0, buf1, buf2, buf3 := StepStride(buf0, buf1, buf2, buf3, bytes, p + 16, crc);
        buf0, buf1, buf2, buf3 := StepStride(buf0, buf1, buf2, buf3, bytes, p + 32, crc);
        buf0, buf1, buf2, buf3 := StepStride(buf0, buf1, buf2, buf3, bytes, p + 48, crc);
        p := p + 64;
      }
      while e - p >= SWATH_SIZE
        invariant p0 <= p <= e && Combine(CRC32C_POLY, buf0, buf1, buf2, buf3) == Extend(CRC32C_POLY, crc, bytes[..p])
      {
        buf0, buf1, buf2, buf3 := StepStride(buf0, buf1, buf2, buf3, bytes, p, crc);
        p := p + SWATH_SIZE;
      }
      while e - p >= 4
        invariant p0 <= p <= e && Combine(CRC32C_POLY, buf0, buf1, buf2, buf3) == Extend(CRC32C_POLY, crc, bytes[..p])
      {
        WordStep(CRC32C_POLY, buf0, buf1, buf2, buf3, bytes[p..p + 4]);
        ExtendSlice(CRC32C_POLY, crc, bytes, p, p + 4);
        buf0 := StepSwathOnce(buf0, bytes, p);
        buf0, buf1, buf2, buf3 := buf1, buf2, buf3, buf0;
        p := p + 4;
      }
      CombineUnfolds(buf0, buf1, buf2, buf3);
      l := CombineOneWord(0, buf0);
      l := CombineOneWord(l, buf1);
      l := CombineOneWord(l, buf2);
      l := CombineOneWord(l, buf3);
    }

    /** Run `bytes` through the register; `toAligned` bytes are needed to reach an aligned address. */
    method ExtendBytes(crc: bv32, bytes: seq<Byte>, needAlignedLoads: bool, toAligned: nat) returns (l: bv32)
      requires Ready()
      ensures l == Extend(CRC32C_POLY, crc, bytes)
    {
      hide Extend, Ready;
      var p, e := 0, |bytes|;
      l := crc;
      assert bytes[..0] == [];
      ExtendNothing(crc);
      if needAlignedLoads {
        var x := toAligned;
        if x <= e {
          while p != x
            invariant 0 <= p <= x && l == Extend(CRC32C_POLY, crc, bytes[..p])
          {
            l := StepOneByte(l, bytes, p, crc);
            p := p + 1;
          }
        }
      }
      if e - p >= SWATH_SIZE {
        l, p := ExtendSwaths(l, bytes, p, crc);
      }
      while p != e
        invariant 0 <= p <= e && l == Extend(CRC32C_POLY, crc, bytes[..p])
      {
        l := StepOneByte(l, bytes, p, crc);
        p := p + 1;
      }
      assert bytes[..e] == bytes;
    }

    method StepOneByte(l0: bv32, bytes: seq<Byte>, p: nat, ghost crc: bv32) returns (l: bv32)
      requires Ready() && p < |bytes| && l0 == Extend(CRC32C_POLY, crc, bytes[..p])
      ensures l == Extend(CRC32C_POLY, crc, bytes[..p + 1])
    {
      hide Extend, AdvanceBy, WordRow, ZeroesTable;
      ExtendOne(CRC32C_POLY, crc, bytes, p);
      l := AdvanceOneByte(table0, Xor(l0, bytes[p] as bv32), CRC32C_POLY);
    }

    /** The register after `length` zero bytes. */
    method ExtendByZeroes(crc: bv32, length: Size) returns (l: bv32)
      requires Ready()
      ensures l == AdvanceBy(CRC32C_POLY, 8 * length, crc)
    {
      hide AdvanceBy, WordRow, ZeroesTable;
      l := ExtendByZeroesImpl(crc, length, zeroes, table0, CRC32C_POLY);
    }

    /** The register before `length` zero bytes. */
    method UnextendByZeroes(crc: bv32, length: Size) returns (l: bv32)
      requires Ready()
      ensures l == RetreatBy(CRC32C_POLY, 8 * length, crc)
    {
      hide AdvanceBy, WordRow, ZeroesTable, ReverseBits, RetreatBy;
      l := ReverseBits(crc);
      l := ExtendByZeroesImpl(l, length, reverseZeroes, reverseTable0, CRC32C_UNEXTEND_POLY);
      ReverseAdvanceBy(8 * length, crc);
      l := ReverseBits(l);
    }
  }

  lemma ExtendNothing(crc: bv32)
    ensures Extend(CRC32C_POLY, crc, []) == crc
  {
  }

  lemma {:induction false} SliceOfSlice(s: seq<Byte>, p: nat, n: nat, i: nat, j: nat)
    requires p + n <= |s| && i <= j <= n
    ensures s[p..p + n][i..j] == s[p + i..p + j]
  {
    var a, b := s[p..p + n][i..j], s[p + i..p + j];
    assert forall k :: 0 <= k < |a| ==> a[k] == b[k];
  }

  lemma {:induction false} StrideWords(bytes: seq<Byte>, p: nat)
    requires p + 16 <= |bytes|
    ensures bytes[p..p + 16][..4] == bytes[p..p + 4]
    ensures bytes[p..p + 16][4..8] == bytes[p + 4..p + 8]
    ensures bytes[p..p + 16][8..12] == bytes[p + 8..p + 12]
    ensures bytes[p..p + 16][12..] == bytes[p + 12..p + 16]
  {
    SliceOfSlice(bytes, p, 16, 0, 4);
    SliceOfSlice(bytes, p, 16, 4, 8);
    SliceOfSlice(bytes, p, 16, 8, 12);
    SliceOfSlice(bytes, p, 16, 12, 16);
  }

  lemma {:induction false} StartSwaths(l: bv32, bytes: seq<Byte>, p: nat, crc: bv32)
    requires p + 16 <= |bytes| && l == Extend(CRC32C_POLY, crc, bytes[..p])
    ensures Combine(CRC32C_POLY, Xor(LoadWord(bytes[p..p + 4]), l), LoadWord(bytes[p + 4..p + 8]),
                    LoadWord(bytes[p + 8..p + 12]), LoadWord(bytes[p + 12..p + 16]))
         == Extend(CRC32C_POLY, crc, bytes[..p + 16])
  {
    hide Extend, Combine, LoadWord, Xor;
    var s := bytes[p..p + 16];
    StrideWords(bytes, p);
    ExtendStride(CRC32C_POLY, l, s);
    ExtendSlice(CRC32C_POLY, crc, bytes, p, p + 16);
  }

  lemma CombineUnfolds(b0: bv32, b1: bv32, b2: bv32, b3: bv32)
    ensures Combine(CRC32C_POLY, b0, b1, b2, b3)
         == AddWord(CRC32C_POLY, AddWord(CRC32C_POLY, AddWord(CRC32C_POLY, AddWord(CRC32C_POLY, 0, b0), b1), b2), b3)
  {
  }

  /** (c >> 8) ^ table0[c & 0xff]. */
  method AdvanceOneByte(table0: array<bv32>, c: bv32, ghost poly: bv32) returns (r: bv32)
    requires WordRow(poly, 8, table0[..])
    ensures r == AdvanceBy(poly, 8, c)
  {
    hide AdvanceBy;
    LookUpByte(poly, table0[..], c);
    var i := (c & 0xff) as int;
    assert table0[..][i] == table0[i];
    r := table0[i] ^ (c >> 8);
  }
}

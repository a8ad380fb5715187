/**
 Which changes of a buffer its checksum gives away, beyond whole bytes: any change of an odd number
 of bits, and any change within 32 consecutive bits wherever they start.
 */
module CrcDetection {
  import opened CrcRegister
  import opened CrcBytes
  import opened CrcEngine
  import opened Crc32c

  // ----- Parity

  predicate Even(a: nat, b: nat, c: nat) {
    (a + b + c) % 2 == 0
  }

  function Bit(c: bv32): (b: nat)
    ensures b <= 1
  {
    if c & 1 != 0 then 1 else 0
  }

  function Half(c: bv32): bv32 {
    c >> 1
  }

  /** How many bits are set. */
  function Ones(c: bv32): nat {
    if c == 0 then 0 else Bit(c) + Ones(Half(c))
  }

  function ByteOnes(b: Byte): nat {
    Ones(b as bv32)
  }

  function TotalOnes(bytes: seq<Byte>): nat {
    if bytes == [] then 0 else TotalOnes(bytes[..|bytes| - 1]) + ByteOnes(bytes[|bytes| - 1])
  }

  lemma XorHalves(a: bv32, b: bv32)
    ensures Half(Xor(a, b)) == Xor(Half(a), Half(b))
  {
  }

  lemma XorBits(a: bv32, b: bv32)
    ensures Bit(Xor(a, b)) == if Bit(a) == Bit(b) then 0 else 1
  {
    assert Xor(a, b) & 1 == Xor(a & 1, b & 1);
    assert (a & 1 == 0 || a & 1 == 1) && (b & 1 == 0 || b & 1 == 1);
  }

  lemma OnesNone()
    ensures Ones(0) == 0 && Bit(0) == 0 && Half(0) == 0 && Xor(0, 0) == 0
  {
  }

  lemma OnesStep(c: bv32)
    ensures Ones(c) == Bit(c) + Ones(Half(c))
  {
    OnesNone();
  }

  /** Parities add up. */
  lemma {:induction false} OnesXor(a: bv32, b: bv32)
    ensures Even(Ones(Xor(a, b)), Ones(a), Ones(b))
    decreases a, b
  {
    hide Xor, Ones, Half, Bit, Even;
    OnesNone();
    if a == 0 && b == 0 {
      EvenTwice(0);
    } else {
      XorHalves(a, b);
      XorBits(a, b);
      OnesStep(a);
      OnesStep(b);
      OnesStep(Xor(a, b));
      Shrinks(a, b);
      OnesXor(Half(a), Half(b));
      EvenStep(Ones(Xor(Half(a), Half(b))), Ones(Half(a)), Ones(Half(b)), Bit(a), Bit(b));
    }
  }

  lemma Shrinks(a: bv32, b: bv32)
    requires a != 0 || b != 0
    ensures Half(a) < a || (Half(a) == a && Half(b) < b)
  {
  }

  lemma {:induction false} OnesNibble(c: bv32)
    ensures Ones(c) == Ones(c & 0xf) + Ones(c >> 4)
  {
    hide Ones, Half, Bit;
    var d := c & 0xf;
    NibbleBits(c);
    OnesFourBits(c);
    OnesFourBits(d);
    OnesNone();
  }

  lemma {:induction false} OnesFourBits(c: bv32)
    ensures Ones(c) == Bit(c) + Bit(Half(c)) + Bit(Half(Half(c))) + Bit(Half(Half(Half(c)))) + Ones(Half(Half(Half(Half(c)))))
  {
    hide Ones, Half, Bit;
    OnesStep(c);
    OnesStep(Half(c));
    OnesStep(Half(Half(c)));
    OnesStep(Half(Half(Half(c))));
  }

  lemma NibbleBits(c: bv32)
    ensures Half(Half(Half(Half(c)))) == c >> 4 && Half(Half(Half(Half(c & 0xf)))) == 0
    ensures Bit(c & 0xf) == Bit(c) && Bit(Half(c & 0xf)) == Bit(Half(c))
    ensures Bit(Half(Half(c & 0xf))) == Bit(Half(Half(c))) && Bit(Half(Half(Half(c & 0xf)))) == Bit(Half(Half(Half(c))))
  {
  }

  /** The generator has seventeen terms below its leading one, so its value at one is zero. */
  lemma {:induction false} GeneratorIsOdd()
    ensures Ones(CRC32C_POLY) % 2 == 1
  {
    hide Ones;
    OnesNibble(0x82f6_3b78);
    OnesNibble(0x082f_63b7);
    OnesNibble(0x0082_f63b);
    OnesNibble(0x0008_2f63);
    OnesNibble(0x0000_82f6);
    OnesNibble(0x0000_082f);
    OnesNibble(0x0000_0082);
    SmallOnes();
  }

  lemma SmallOnes()
    ensures Ones(0x2) == 1 && Ones(0x3) == 2 && Ones(0x6) == 2 && Ones(0x7) == 3
    ensures Ones(0x8) == 1 && Ones(0xb) == 3 && Ones(0xf) == 4
  {
    assert Ones(1) == 1 && Ones(2) == 1 && Ones(3) == 2 && Ones(4) == 1;
    assert Ones(5) == 2 && Ones(7) == 3;
  }

  lemma AdvanceParts(poly: bv32, c: bv32)
    ensures Advance(poly, c) == if Bit(c) == 1 then Xor(Half(c), poly) else Half(c)
  {
  }

  lemma {:induction false} AdvanceKeepsParity(c: bv32)
    ensures Ones(Advance(CRC32C_POLY, c)) % 2 == Ones(c) % 2
  {
    hide Ones, Xor, Half, Bit, Advance;
    AdvanceParts(CRC32C_POLY, c);
    OnesStep(c);
    GeneratorIsOdd();
    OnesXor(Half(c), CRC32C_POLY);
  }

  lemma {:induction false} AdvanceByKeepsParity(n: nat, c: bv32)
    ensures Ones(AdvanceBy(CRC32C_POLY, n, c)) % 2 == Ones(c) % 2
  {
    hide Ones, Advance;
    if n > 0 {
      AdvanceByKeepsParity(n - 1, c);
      AdvanceKeepsParity(AdvanceBy(CRC32C_POLY, n - 1, c));
    }
  }

  lemma {:induction false} StepAddsParity(c: bv32, b: Byte)
    ensures Even(Ones(StepByte(CRC32C_POLY, c, b)), Ones(c), ByteOnes(b))
  {
    hide Ones, Xor, AdvanceBy;
    OnesXor(c, b as bv32);
    AdvanceByKeepsParity(8, Xor(c, b as bv32));
  }

  lemma {:induction false} ExtendAddsParity(c: bv32, bytes: seq<Byte>)
    ensures Even(Ones(Extend(CRC32C_POLY, c, bytes)), Ones(c), TotalOnes(bytes))
  {
    hide Ones, StepByte, TotalOnes, Extend, ByteOnes, Even;
    if bytes == [] {
      NothingTotal(bytes);
      NothingExtended(c, bytes);
      EvenTwice(Ones(c));
    } else {
      var front, b := bytes[..|bytes| - 1], bytes[|bytes| - 1];
      var before := Extend(CRC32C_POLY, c, front);
      ExtendAddsParity(c, front);
      StepAddsParity(before, b);
      LastOnes(bytes);
      LastByte(c, bytes);
      EvenChain(Ones(StepByte(CRC32C_POLY, before, b)), Ones(before), ByteOnes(b), Ones(c), TotalOnes(front));
    }
  }

  lemma EvenChain(s: nat, e: nat, b: nat, c: nat, t: nat)
    requires Even(s, e, b) && Even(e, c, t)
    ensures Even(s, c, t + b)
  {
  }

  lemma EvenStep(x: nat, a: nat, b: nat, p: nat, q: nat)
    requires Even(x, a, b) && p <= 1 && q <= 1
    ensures Even((if p == q then 0 else 1) + x, p + a, q + b)
  {
  }

  lemma EvenTwice(a: nat)
    ensures Even(a, a, 0)
  {
  }

  lemma NothingExtended(c: bv32, bytes: seq<Byte>)
    requires |bytes| == 0
    ensures Extend(CRC32C_POLY, c, bytes) == c
  {
  }

  /** A checksum has the parity of its data, so any change of an odd number of bits shows. */
  lemma {:induction false} ChecksumParity(bytes: seq<Byte>)
    ensures Ones(Checksum(bytes)) % 2 == TotalOnes(bytes) % 2
  {
    hide Ones, Xor, Extend;
    var start := Xor(0, CRC32_XOR);
    ExtendAddsParity(start, bytes);
    OnesXor(Extend(CRC32C_POLY, start, bytes), CRC32_XOR);
    OnesXor(0, CRC32_XOR);
    OnesNone();
  }

  /** In how many bits two bytes differ. */
  function Differing(p: Byte, q: Byte): nat {
    ByteOnes(p ^ q)
  }

  lemma {:induction false} ByteParity(p: Byte, q: Byte)
    ensures Even(Differing(p, q), ByteOnes(p), ByteOnes(q))
  {
    hide Ones, Xor;
    WidenXor(p, q);
    OnesXor(p as bv32, q as bv32);
  }

  lemma {:induction false} LastXor(a: seq<Byte>, b: seq<Byte>)
    requires |a| == |b| > 0
    ensures TotalOnes(XorBytes(a, b)) ==
            TotalOnes(XorBytes(a[..|a| - 1], b[..|a| - 1])) + Differing(a[|a| - 1], b[|a| - 1])
  {
    hide Ones;
    var n := |a| - 1;
    assert XorBytes(a, b)[..n] == XorBytes(a[..n], b[..n]);
  }

  lemma NoneDiffer(a: seq<Byte>, b: seq<Byte>)
    requires |a| == |b| == 0
    ensures TotalOnes(XorBytes(a, b)) == 0
  {
  }

  lemma NothingTotal(bytes: seq<Byte>)
    requires |bytes| == 0
    ensures TotalOnes(bytes) == 0
  {
  }

  lemma LastOnes(bytes: seq<Byte>)
    requires bytes != []
    ensures TotalOnes(bytes) == TotalOnes(bytes[..|bytes| - 1]) + ByteOnes(bytes[|bytes| - 1])
  {
  }

  lemma {:induction false} TotalOnesXor(a: seq<Byte>, b: seq<Byte>)
    requires |a| == |b|
    ensures Even(TotalOnes(XorBytes(a, b)), TotalOnes(a), TotalOnes(b))
  {
    hide Ones, TotalOnes, XorBytes, Differing;
    if a == [] {
      NoneDiffer(a, b);
      NothingTotal(a);
      NothingTotal(b);
    } else {
      var n := |a| - 1;
      LastXor(a, b);
      TotalOnesXor(a[..n], b[..n]);
      ByteParity(a[n], b[n]);
      LastOnes(a);
      LastOnes(b);
    }
  }

  /** Two buffers of one length that differ in an odd number of bits never have the same checksum. */
  lemma {:induction false} OddChangeDetected(a: seq<Byte>, b: seq<Byte>)
    requires |a| == |b| && TotalOnes(XorBytes(a, b)) % 2 == 1
    ensures Checksum(a) != Checksum(b)
  {
    hide Ones, Checksum, TotalOnes, XorBytes;
    TotalOnesXor(a, b);
    ChecksumParity(a);
    ChecksumParity(b);
  }

  // ----- Bursts of bits

  // Forty bits: a word, and eight more above it.
  datatype Bits40 = Bits40(low: bv32, high: bv32)

  /** A word shifted up by k places, least significant bits first. */
  function ShiftedUp(u: bv32, k: nat): Bits40 {
    if k == 0 then Bits40(u, 0) else OneUp(ShiftedUp(u, k - 1))
  }

  function OneUp(p: Bits40): Bits40 {
    Bits40(p.low << 1, (p.high << 1) | (p.low >> 31))
  }

  lemma {:induction false} TopFalls(poly: bv32)
    ensures AdvanceBy(poly, 31, ONE) == 1
  {
    hide AdvanceBy;
    AdvanceByAdd(poly, 23, 8, ONE);
    AdvanceEight(poly, ONE);
    AdvanceByAdd(poly, 15, 8, 0x80_0000);
    AdvanceEight(poly, 0x80_0000);
    AdvanceByAdd(poly, 7, 8, 0x8000);
    AdvanceEight(poly, 0x8000);
    NibbleFirst(poly, 3, 0x80);
    QuarterFirst(poly, 1, 8);
    HalveFirst(poly, 0, 2);
    AdvanceByNone(poly, 1);
  }

  lemma LowEven(low: bv32)
    ensures (low << 1) & 1 == 0 && (low << 1) >> 1 == low & 0x7fff_ffff
  {
  }

  lemma LowWithoutTop(low: bv32)
    ensures low & 0x7fff_ffff == if low >> 31 != 0 then low ^ ONE else low
  {
  }

  lemma {:induction false} LowShift(low: bv32)
    ensures (low << 1) & 1 == 0 && (low << 1) >> 1 == Xor(low, if low >> 31 != 0 then ONE else 0)
  {
    LowEven(low);
    LowWithoutTop(low);
    XorZero(low);
  }

  lemma HighShift(high: bv32)
    requires high < 0x8000_0000
    ensures (high << 1) & 1 == 0 && (high << 1) >> 1 == high
  {
  }

  lemma HighJoin(low: bv32, high: bv32)
    ensures (high << 1) | (low >> 31) == Xor(high << 1, if low >> 31 != 0 then 1 else 0)
  {
  }

  /** Where forty bits leave an empty register after all of them and n more. */
  function Run40(n: nat, p: Bits40): bv32 {
    Xor(AdvanceBy(CRC32C_POLY, 32 + n, p.low), AdvanceBy(CRC32C_POLY, n, p.high))
  }

  /** Shifting up by a place costs a step. */
  lemma {:induction false} ShiftCosts(n: nat, low: bv32, high: bv32)
    requires high < 0x8000_0000
    ensures Run40(n + 1, Bits40(low << 1, (high << 1) | (low >> 31))) == Run40(n, Bits40(low, high))
  {
    hide Xor, AdvanceBy;
    var top: bv32, one: bv32 := if low >> 31 != 0 then ONE else 0, if low >> 31 != 0 then 1 else 0;
    var a, b := AdvanceBy(CRC32C_POLY, 32 + n, low), AdvanceBy(CRC32C_POLY, n, high);
    var x := AdvanceBy(CRC32C_POLY, n + 1, one);
    LowShift(low);
    HighShift(high);
    HighJoin(low, high);
    HalveFirst(CRC32C_POLY, 32 + n, low << 1);
    AdvanceByXor(CRC32C_POLY, 32 + n, low, top);
    AdvanceByAdd(CRC32C_POLY, n + 1, 31, top);
    TopFalls(CRC32C_POLY);
    AdvanceByZero(CRC32C_POLY, 31);
    assert AdvanceBy(CRC32C_POLY, 32 + n, top) == x;
    AdvanceByXor(CRC32C_POLY, n + 1, high << 1, one);
    HalveFirst(CRC32C_POLY, n, high << 1);
    XorSwap(a, x, b, x);
    XorCancel(Xor(a, b), x);
    XorZero(Xor(a, b));
    Nilpotent(x);
  }

  lemma Nilpotent(x: bv32)
    ensures Xor(x, x) == 0
  {
  }

  lemma {:induction false} ShiftedRuns(u: bv32, n: nat, k: nat)
    requires k <= 8
    ensures Run40(n + k, ShiftedUp(u, k)) == AdvanceBy(CRC32C_POLY, 32 + n, u)
    ensures k <= 8 && ShiftedUp(u, k).high < 0x200
  {
    hide Xor, AdvanceBy;
    if k == 0 {
      AdvanceByZero(CRC32C_POLY, n);
      XorZero(AdvanceBy(CRC32C_POLY, 32 + n, u));
    } else {
      var p := ShiftedUp(u, k - 1);
      ShiftedRuns(u, n, k - 1);
      hide Run40;
      ShiftCosts(n + k - 1, p.low, p.high);
      HighFits(u, k);
    }
  }

  /** The k-th power of two. */
  function Bound(k: nat): bv32 {
    match k
    case 0 => 1
    case 1 => 2
    case 2 => 4
    case 3 => 8
    case 4 => 0x10
    case 5 => 0x20
    case 6 => 0x40
    case 7 => 0x80
    case _ => 0x100
  }

  lemma BoundDoubles(k: nat)
    requires 0 < k <= 8
    ensures Bound(k) == Bound(k - 1) << 1 && Bound(k - 1) <= 0x80 && Bound(k) <= 0x100
  {
  }

  lemma {:induction false} HighFits(u: bv32, k: nat)
    requires k <= 8
    ensures ShiftedUp(u, k).high < Bound(k) <= 0x100
  {
    if k > 0 {
      HighFits(u, k - 1);
      var p := ShiftedUp(u, k - 1);
      BoundDoubles(k);
      HighDoubles(p.low, p.high, Bound(k - 1));
      hide Bound;
    }
  }

  lemma HighDoubles(low: bv32, high: bv32, bound: bv32)
    requires high < bound <= 0x80
    ensures (high << 1) | (low >> 31) < bound << 1
  {
  }

  lemma {:induction false} ShiftedNothing(k: nat)
    ensures ShiftedUp(0, k) == Bits40(0, 0)
  {
    if k > 0 {
      ShiftedNothing(k - 1);
    }
  }

  /** Do five bytes hold the word u, starting k bits in? */
  ghost predicate Holds(d: seq<Byte>, u: bv32, k: nat) {
    |d| == 5 && k <= 8 && ShiftedUp(u, k) == Bits40(LoadWord(d[..4]), d[4] as bv32)
  }

  lemma {:induction false} HeldRuns(d: seq<Byte>, u: bv32, k: nat)
    requires Holds(d, u, k)
    ensures Extend(CRC32C_POLY, 0, d) == AdvanceBy(CRC32C_POLY, 40 - k, u)
  {
    hide Xor, AdvanceBy, LoadWord, ShiftedUp;
    ExtendWord(CRC32C_POLY, 0, d[..4]);
    var w := LoadWord(d[..4]);
    XorZero(w);
    XorComm(0, w);
    var b := d[4] as bv32;
    AdvanceByXor(CRC32C_POLY, 8, AdvanceBy(CRC32C_POLY, 32, w), b);
    AdvanceByAdd(CRC32C_POLY, 8, 32, w);
    ShiftedRuns(u, 8 - k, k);
    hide Extend;
    assert Extend(CRC32C_POLY, 0, d) == StepByte(CRC32C_POLY, Extend(CRC32C_POLY, 0, d[..4]), d[4]) by {
      LastByte(0, d);
    }
  }

  lemma LastByte(c: bv32, d: seq<Byte>)
    requires d != []
    ensures Extend(CRC32C_POLY, c, d) == StepByte(CRC32C_POLY, Extend(CRC32C_POLY, c, d[..|d| - 1]), d[|d| - 1])
  {
    hide StepByte;
  }

  /** Differences that are a word shifted into place. */
  lemma {:induction false} HeldBurst(before: seq<Byte>, s: seq<Byte>, t: seq<Byte>, after: seq<Byte>, u: bv32, k: nat)
    requires |s| == |t| == 5 && Holds(XorBytes(s, t), u, k)
    ensures Checksum(before + s + after) == Checksum(before + t + after) <==> s == t
  {
    if Checksum(before + s + after) == Checksum(before + t + after) {
      hide Extend, Xor, ShiftedUp, AdvanceBy, LoadWord;
      var c := Extend(CRC32C_POLY, Xor(0, CRC32_XOR), before);
      SameInside(before, s, t, after);
      var d := XorBytes(s, t);
      DifferenceOfChecksums(c, c, s, t);
      Nilpotent(Extend(CRC32C_POLY, c, s));
      Nilpotent(c);
      HeldRuns(d, u, k);
      AdvanceByZero(CRC32C_POLY, 40 - k);
      TopBit();
      AdvanceByInjective(CRC32C_POLY, 40 - k, u, 0);
      ShiftedNothing(k);
      NoDifference(d, s, t);
    }
  }

  /** Are all bits below a power of two clear? */
  predicate ClearBelow(c: bv32, bound: bv32) {
    c & (bound - 1) == 0
  }

  function OneDown(p: Bits40): Bits40 {
    Bits40((p.low >> 1) | (p.high << 31), p.high >> 1)
  }

  lemma DownAndUp(p: Bits40, bound: bv32)
    requires 0 < bound <= 0x80 && ClearBelow(p.low, bound << 1) && p.high < bound << 1
    ensures OneUp(OneDown(p)) == p && ClearBelow(OneDown(p).low, bound) && OneDown(p).high < bound
  {
  }

  /** Forty bits that leave k places free below and reach no more than 32 bits beyond them are a word shifted up. */
  lemma {:induction false} Unshifted(p: Bits40, k: nat) returns (u: bv32)
    requires k <= 8 && ClearBelow(p.low, Bound(k)) && p.high < Bound(k)
    ensures ShiftedUp(u, k) == p
    decreases k
  {
    if k == 0 {
      NoPlaces(p);
      u := p.low;
    } else {
      BoundDoubles(k);
      BoundPositive(k - 1);
      hide Bound, OneUp, OneDown, ClearBelow;
      DownAndUp(p, Bound(k - 1));
      u := Unshifted(OneDown(p), k - 1);
    }
  }

  lemma NoPlaces(p: Bits40)
    requires p.high < Bound(0)
    ensures ShiftedUp(p.low, 0) == p
  {
  }

  lemma BoundPositive(k: nat)
    ensures 0 < Bound(k) && Bound(k) <= 0x100
  {
  }

  lemma LowestByte(a: Byte, b: Byte, c: Byte, d: Byte, bound: bv32)
    requires 0 < bound <= 0x100 && ClearBelow(a as bv32, bound)
    ensures ClearBelow(Xor(Xor(Xor(a as bv32, (b as bv32) << 8), (c as bv32) << 16), (d as bv32) << 24), bound)
  {
  }

  lemma {:induction false} LowestOfWord(d: seq<Byte>, bound: bv32)
    requires |d| == 4 && 0 < bound <= 0x100 && ClearBelow(d[0] as bv32, bound)
    ensures ClearBelow(LoadWord(d), bound)
  {
    hide Xor, ClearBelow;
    LowestByte(d[0], d[1], d[2], d[3], bound);
  }

  /**
   * Bursts of bits: two buffers whose differences lie within 32 consecutive bits, starting k bits into
   * a byte, have the same checksum exactly when they are the same buffer.
   */
  lemma {:induction false} BitBurstDetected(before: seq<Byte>, s: seq<Byte>, t: seq<Byte>, after: seq<Byte>, k: nat)
    requires |s| == |t| == 5 && k <= 8
    requires ClearBelow((s[0] ^ t[0]) as bv32, Bound(k)) && (s[4] ^ t[4]) as bv32 < Bound(k)
    ensures Checksum(before + s + after) == Checksum(before + t + after) <==> s == t
  {
    var d := XorBytes(s, t);
    BoundPositive(k);
    hide Bound, Checksum, LoadWord, ShiftedUp;
    hide ClearBelow;
    LowestOfWord(d[..4], Bound(k));
    var u := Unshifted(Bits40(LoadWord(d[..4]), d[4] as bv32), k);
    HeldBurst(before, s, t, after, u, k);
  }

  /** Equal checksums mean equal registers where the buffers differ last. */
  lemma {:induction false} SameInside(before: seq<Byte>, s: seq<Byte>, t: seq<Byte>, after: seq<Byte>)
    requires Checksum(before + s + after) == Checksum(before + t + after)
    ensures var c := Extend(CRC32C_POLY, Xor(0, CRC32_XOR), before);
            Extend(CRC32C_POLY, c, s) == Extend(CRC32C_POLY, c, t)
  {
    hide Extend;
    var start := Xor(0, CRC32_XOR);
    var c := Extend(CRC32C_POLY, start, before);
    ExtendAppend(CRC32C_POLY, start, before, s);
    ExtendAppend(CRC32C_POLY, start, before, t);
    ExtendAppend(CRC32C_POLY, start, before + s, after);
    ExtendAppend(CRC32C_POLY, start, before + t, after);
    hide Xor;
    InvertTwice(Extend(CRC32C_POLY, Extend(CRC32C_POLY, c, s), after));
    InvertTwice(Extend(CRC32C_POLY, Extend(CRC32C_POLY, c, t), after));
    ExtendInjective(Extend(CRC32C_POLY, c, s), Extend(CRC32C_POLY, c, t), after);
  }

  lemma {:induction false} NoDifference(d: seq<Byte>, s: seq<Byte>, t: seq<Byte>)
    requires |s| == |t| == 5 && d == XorBytes(s, t) && LoadWord(d[..4]) == 0 && d[4] == 0
    ensures s == t
  {
    var z := Zeroes(4);
    assert LoadWord(z) == 0;
    LoadWordInjective(d[..4], z);
    hide LoadWord;
    forall i | 0 <= i < 5 ensures s[i] == t[i] {
      assert i < 4 ==> d[..4][i] == 0;
      XorNothing(s[i], t[i]);
    }
  }

  lemma XorNothing(a: Byte, b: Byte)
    requires a ^ b == 0
    ensures a == b
  {
  }
}

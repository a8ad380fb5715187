/**
 The CRC32C interface: computing, extending, joining and taking apart checksums.

 A checksum is the register inverted on the way in and on the way out. `Checksum` is the meaning of
 a buffer; every function below is proved to return the `Checksum` of the buffer it speaks about.
 */
module Crc32c {
  import opened CrcRegister
  import opened CrcBytes
  import opened CrcEngine

  const CRC32_XOR: bv32 := 0xffff_ffff

  /** The checksum of a buffer continued by `bytes`, given the buffer's checksum. */
  function Extended(crc: bv32, bytes: seq<Byte>): bv32 {
    Xor(Extend(CRC32C_POLY, Xor(crc, CRC32_XOR), bytes), CRC32_XOR)
  }

  function Checksum(bytes: seq<Byte>): bv32 {
    Extended(0, bytes)
  }

  // ----- The functions, over an engine whose tables have been built

  method ExtendCrc32cInternal(engine: Crc32, initialCrc: bv32, bytes: seq<Byte>,
                              needAlignedLoads: bool, toAligned: nat) returns (r: bv32)
    requires engine.Ready()
    ensures r == Extended(initialCrc, bytes)
  {
    hide Extend;
    var crc := Xor(initialCrc, CRC32_XOR);
    crc := engine.ExtendBytes(crc, bytes, needAlignedLoads, toAligned);
    r := Xor(crc, CRC32_XOR);
  }

  /** The hardware instructions run one, two, four or eight bytes through the register. */
  method ExtendCrc32cInline(hardware: bool, crc0: bv32, bytes: seq<Byte>) returns (done: bool, crc: bv32)
    ensures done == hardware
    ensures crc == if done then Extended(crc0, bytes) else crc0
  {
    hide Extend, Xor;
    crc := crc0;
    if !hardware {
      return false, crc;
    }
    crc := Xor(crc, CRC32_XOR);
    ghost var c := crc;
    var p, n := 0, |bytes|;
    crc, p, n := ExtendOddLengths(crc, bytes);
    while n != 0
      invariant n >= 0 && n % 8 == 0 && p >= 0 && p + n == |bytes|
      invariant crc == Extend(CRC32C_POLY, c, bytes[..p])
    {
      crc := HardwareStep(crc, bytes, p, 8, c);
      n, p := n - 8, p + 8;
    }
    assert bytes[..p] == bytes;
    crc := Xor(crc, CRC32_XOR);
    return true, crc;
  }

  /** One, two and four bytes, as the low bits of the length ask, leaving whole eights. */
  method ExtendOddLengths(c: bv32, bytes: seq<Byte>) returns (crc: bv32, p: nat, n: nat)
    ensures n % 8 == 0 && p + n == |bytes| && crc == Extend(CRC32C_POLY, c, bytes[..p])
  {
    hide Extend;
    crc, p, n := c, 0, |bytes|;
    StartOfBuffer(c, bytes);
    if n % 2 != 0 {
      crc := HardwareStep(crc, bytes, p, 1, c);
      n, p := n - 1, p + 1;
    }
    ghost var half := |bytes| / 2;
    assert n == 2 * half;
    if n / 2 % 2 != 0 {
      crc := HardwareStep(crc, bytes, p, 2, c);
      n, p := n - 2, p + 2;
    }
    ghost var quarter := half / 2;
    assert n == 4 * quarter;
    if n / 4 % 2 != 0 {
      crc := HardwareStep(crc, bytes, p, 4, c);
      n, p := n - 4, p + 4;
    }
    assert n == 8 * (quarter / 2);
  }

  lemma {:induction false} StartOfBuffer(c: bv32, bytes: seq<Byte>)
    ensures Extend(CRC32C_POLY, c, bytes[..0]) == c
  {
    assert bytes[..0] == [];
  }

  /** One crc32 instruction on the next `width` bytes. */
  method HardwareStep(crc: bv32, bytes: seq<Byte>, p: nat, width: nat, ghost c: bv32) returns (r: bv32)
    requires p + width <= |bytes| && crc == Extend(CRC32C_POLY, c, bytes[..p])
    ensures r == Extend(CRC32C_POLY, c, bytes[..p + width])
  {
    hide Extend;
    ExtendSlice(CRC32C_POLY, c, bytes, p, p + width);
    r := Extend(CRC32C_POLY, crc, bytes[p..p + width]);
  }

  method ExtendCrc32c(engine: Crc32, hardware: bool, initialCrc: bv32, bytes: seq<Byte>,
                      needAlignedLoads: bool, toAligned: nat) returns (r: bv32)
    requires engine.Ready()
    ensures r == Extended(initialCrc, bytes)
  {
    hide Extended;
    if |bytes| <= 64 {
      var done, crc := ExtendCrc32cInline(hardware, initialCrc, bytes);
      if done {
        return crc;
      }
    }
    r := ExtendCrc32cInternal(engine, initialCrc, bytes, needAlignedLoads, toAligned);
  }

  method ComputeCrc32c(engine: Crc32, hardware: bool, bytes: seq<Byte>, needAlignedLoads: bool, toAligned: nat)
    returns (r: bv32)
    requires engine.Ready()
    ensures r == Checksum(bytes)
  {
    r := ExtendCrc32c(engine, hardware, 0, bytes, needAlignedLoads, toAligned);
  }

  method ExtendCrc32cByZeroes(engine: Crc32, initialCrc: bv32, length: Size) returns (r: bv32)
    requires engine.Ready()
    ensures r == Extended(initialCrc, Zeroes(length))
  {
    hide Extend, AdvanceBy;
    var crc := Xor(initialCrc, CRC32_XOR);
    ExtendZeroes(CRC32C_POLY, crc, length);
    crc := engine.ExtendByZeroes(crc, length);
    r := Xor(crc, CRC32_XOR);
  }

  /** The checksum whose continuation by `length` zero bytes is `crc`. */
  function Unextended(crc: bv32, length: nat): bv32 {
    Xor(RetreatBy(CRC32C_POLY, 8 * length, Xor(crc, CRC32_XOR)), CRC32_XOR)
  }

  method UnextendCrc32cByZeroes(engine: Crc32, initialCrc: bv32, length: Size) returns (r: bv32)
    requires engine.Ready()
    ensures r == Unextended(initialCrc, length)
  {
    hide RetreatBy;
    var crc := Xor(initialCrc, CRC32_XOR);
    crc := engine.UnextendByZeroes(crc, length);
    r := Xor(crc, CRC32_XOR);
  }

  /** Joins two checksums; the inversions of the two parts cancel, so neither is undone. */
  function Concat(lhsCrc: bv32, rhsCrc: bv32, rhsLen: nat): bv32 {
    Xor(AdvanceBy(CRC32C_POLY, 8 * rhsLen, lhsCrc), rhsCrc)
  }

  method ConcatCrc32c(engine: Crc32, lhsCrc: bv32, rhsCrc: bv32, rhsLen: Size) returns (r: bv32)
    requires engine.Ready()
    ensures r == Concat(lhsCrc, rhsCrc, rhsLen)
  {
    hide AdvanceBy;
    var result := engine.ExtendByZeroes(lhsCrc, rhsLen);
    r := Xor(result, rhsCrc);
  }

  method RemoveCrc32cPrefix(engine: Crc32, crcA: bv32, crcAB: bv32, lengthB: Size) returns (r: bv32)
    requires engine.Ready()
    ensures r == Concat(crcA, crcAB, lengthB)
  {
    r := ConcatCrc32c(engine, crcA, crcAB, lengthB);
  }

  /** What is left of a checksum when a suffix with a known checksum is taken off. */
  function WithoutSuffix(fullCrc: bv32, suffixCrc: bv32, suffixLen: nat): bv32 {
    RetreatBy(CRC32C_POLY, 8 * suffixLen, Xor(fullCrc, suffixCrc))
  }

  method RemoveCrc32cSuffix(engine: Crc32, fullCrc: bv32, suffixCrc: bv32, suffixLen: Size) returns (r: bv32)
    requires engine.Ready()
    ensures r == WithoutSuffix(fullCrc, suffixCrc, suffixLen)
  {
    hide RetreatBy;
    var result := Xor(fullCrc, suffixCrc);
    result := engine.UnextendByZeroes(result, suffixLen);
    r := result;
  }

  // ----- What these mean for buffers

  lemma {:induction false} InvertTwice(c: bv32)
    ensures Xor(Xor(c, CRC32_XOR), CRC32_XOR) == c
  {
    XorCancel(c, CRC32_XOR);
  }

  /** Continuing a buffer's checksum is the checksum of the longer buffer. */
  lemma {:induction false} ExtendedIsChecksum(a: seq<Byte>, b: seq<Byte>)
    ensures Extended(Checksum(a), b) == Checksum(a + b)
  {
    hide Extend, Xor;
    var start := Xor(0, CRC32_XOR);
    InvertTwice(Extend(CRC32C_POLY, start, a));
    ExtendAppend(CRC32C_POLY, start, a, b);
  }

  /** Any change of the incoming checksum comes out advanced by the length of the buffer. */
  lemma {:induction false} ExtendedXor(crc: bv32, d: bv32, b: seq<Byte>)
    ensures Extended(Xor(crc, d), b) == Xor(Extended(crc, b), AdvanceBy(CRC32C_POLY, 8 * |b|, d))
  {
    hide Extend, Xor, AdvanceBy;
    XorRotate(crc, d, CRC32_XOR);
    ExtendXor(CRC32C_POLY, Xor(crc, CRC32_XOR), d, b);
    XorRotate(Extend(CRC32C_POLY, Xor(crc, CRC32_XOR), b), AdvanceBy(CRC32C_POLY, 8 * |b|, d), CRC32_XOR);
  }

  lemma {:induction false} XorRotate(a: bv32, b: bv32, c: bv32)
    ensures Xor(Xor(a, b), c) == Xor(Xor(a, c), b)
  {
    hide Xor;
    XorAssoc(a, b, c);
    XorComm(b, c);
    XorAssoc(a, c, b);
  }

  /** Joining the checksums of two buffers gives the checksum of the buffers joined. */
  lemma {:induction false} ConcatIsChecksum(a: seq<Byte>, b: seq<Byte>)
    ensures Concat(Checksum(a), Checksum(b), |b|) == Checksum(a + b)
  {
    hide Extended, Xor, AdvanceBy;
    ExtendedIsChecksum(a, b);
    ExtendedXor(0, Checksum(a), b);
    XorZero(Checksum(a));
    XorComm(Extended(0, b), AdvanceBy(CRC32C_POLY, 8 * |b|, Checksum(a)));
  }

  /** Taking a prefix off leaves the checksum of the rest. */
  lemma {:induction false} PrefixRemoved(a: seq<Byte>, b: seq<Byte>)
    ensures Concat(Checksum(a), Checksum(a + b), |b|) == Checksum(b)
  {
    hide Checksum, Xor, AdvanceBy;
    ConcatIsChecksum(a, b);
    XorCancel(Checksum(b), AdvanceBy(CRC32C_POLY, 8 * |b|, Checksum(a)));
  }

  /** Taking a suffix off leaves the checksum of what came before it. */
  lemma {:induction false} SuffixRemoved(a: seq<Byte>, b: seq<Byte>)
    ensures WithoutSuffix(Checksum(a + b), Checksum(b), |b|) == Checksum(a)
  {
    hide Checksum, Xor, AdvanceBy, RetreatBy;
    ConcatIsChecksum(a, b);
    XorCancel(AdvanceBy(CRC32C_POLY, 8 * |b|, Checksum(a)), Checksum(b));
    TopBit();
    RetreatAdvanceBy(CRC32C_POLY, 8 * |b|, Checksum(a));
  }

  lemma TopBit()
    ensures CRC32C_POLY & ONE != 0
  {
  }

  /** Zero bytes can be put on and taken off again, in either order, whatever the checksum. */
  lemma {:induction false} ZeroesUndone(crc: bv32, n: nat)
    ensures Unextended(Extended(crc, Zeroes(n)), n) == crc
    ensures Extended(Unextended(crc, n), Zeroes(n)) == crc
  {
    hide Extend, Xor, AdvanceBy, RetreatBy;
    var c := Xor(crc, CRC32_XOR);
    TopBit();
    ExtendZeroes(CRC32C_POLY, c, n);
    InvertTwice(AdvanceBy(CRC32C_POLY, 8 * n, c));
    RetreatAdvanceBy(CRC32C_POLY, 8 * n, c);
    InvertTwice(crc);
    var d := RetreatBy(CRC32C_POLY, 8 * n, c);
    InvertTwice(d);
    ExtendZeroes(CRC32C_POLY, d, n);
  }

  // ----- A buffer in pieces, in any division

  function Flatten(pieces: seq<seq<Byte>>): seq<Byte> {
    if pieces == [] then [] else Flatten(pieces[..|pieces| - 1]) + pieces[|pieces| - 1]
  }

  /** Joining checksums from left to right. */
  function Joined(pieces: seq<seq<Byte>>): bv32 {
    if pieces == [] then 0
    else var last := pieces[|pieces| - 1]; Concat(Joined(pieces[..|pieces| - 1]), Checksum(last), |last|)
  }

  /** However a buffer is cut, joining the checksums of the pieces gives the checksum of the whole. */
  lemma {:induction false} JoinedIsChecksum(pieces: seq<seq<Byte>>)
    ensures Joined(pieces) == Checksum(Flatten(pieces))
  {
    if pieces == [] {
      InvertTwice(0);
    } else {
      hide Checksum, Concat;
      JoinedIsChecksum(pieces[..|pieces| - 1]);
      ConcatIsChecksum(Flatten(pieces[..|pieces| - 1]), pieces[|pieces| - 1]);
    }
  }

  // ----- Error detection

  function XorBytes(a: seq<Byte>, b: seq<Byte>): seq<Byte>
    requires |a| == |b|
  {
    seq(|a|, i requires 0 <= i < |a| => a[i] ^ b[i])
  }

  /** Two buffers of one length: their checksums differ by the register of their difference. */
  lemma {:induction false} DifferenceOfChecksums(c: bv32, d: bv32, a: seq<Byte>, b: seq<Byte>)
    requires |a| == |b|
    ensures Xor(Extend(CRC32C_POLY, c, a), Extend(CRC32C_POLY, d, b))
         == Extend(CRC32C_POLY, Xor(c, d), XorBytes(a, b))
  {
    hide Xor, StepByte;
    if a != [] {
      var n := |a| - 1;
      assert XorBytes(a, b)[..n] == XorBytes(a[..n], b[..n]);
      DifferenceOfChecksums(c, d, a[..n], b[..n]);
      DifferenceOfByte(Extend(CRC32C_POLY, c, a[..n]), Extend(CRC32C_POLY, d, b[..n]), a[n], b[n]);
    }
  }

  lemma {:induction false} DifferenceOfByte(x: bv32, y: bv32, p: Byte, q: Byte)
    ensures Xor(StepByte(CRC32C_POLY, x, p), StepByte(CRC32C_POLY, y, q)) == StepByte(CRC32C_POLY, Xor(x, y), p ^ q)
  {
    WidenXor(p, q);
    hide Xor, AdvanceBy;
    XorSwap(x, p as bv32, y, q as bv32);
    AdvanceByXor(CRC32C_POLY, 8, Xor(x, p as bv32), Xor(y, q as bv32));
  }

  lemma WidenXor(a: Byte, b: Byte)
    ensures Xor(a as bv32, b as bv32) == (a ^ b) as bv32
  {
  }

  /** Buffers continue different registers to different registers. */
  lemma {:induction false} ExtendInjective(c: bv32, d: bv32, s: seq<Byte>)
    requires Extend(CRC32C_POLY, c, s) == Extend(CRC32C_POLY, d, s)
    ensures c == d
  {
    hide Extend, Xor, AdvanceBy;
    ExtendXor(CRC32C_POLY, 0, c, s);
    ExtendXor(CRC32C_POLY, 0, d, s);
    XorZero(c);
    XorZero(d);
    var z := Extend(CRC32C_POLY, 0, s);
    XorCancel(AdvanceBy(CRC32C_POLY, 8 * |s|, c), z);
    XorCancel(AdvanceBy(CRC32C_POLY, 8 * |s|, d), z);
    TopBit();
    AdvanceByInjective(CRC32C_POLY, 8 * |s|, c, d);
  }

  lemma {:induction false} LoadWordInjective(s: seq<Byte>, t: seq<Byte>)
    requires |s| == 4 && |t| == 4 && LoadWord(s) == LoadWord(t)
    ensures s == t
  {
    WordBytes(s[0], s[1], s[2], s[3]);
    WordBytes(t[0], t[1], t[2], t[3]);
  }

  lemma WordBytes(a: Byte, b: Byte, c: Byte, d: Byte)
    ensures var w := Xor(Xor(Xor(a as bv32, (b as bv32) << 8), (c as bv32) << 16), (d as bv32) << 24);
            a == (w & 0xff) as Byte && b == ((w >> 8) & 0xff) as Byte && c == ((w >> 16) & 0xff) as Byte && d == (w >> 24) as Byte
  {
  }

  /** Up to four bytes leave the register in a state of their own. */
  lemma {:induction false} ShortInjective(c: bv32, s: seq<Byte>, t: seq<Byte>)
    requires |s| == |t| <= 4 && Extend(CRC32C_POLY, c, s) == Extend(CRC32C_POLY, c, t)
    ensures s == t
  {
    hide Extend, Xor, AdvanceBy, LoadWord;
    var z := Zeroes(4 - |s|);
    ExtendAppend(CRC32C_POLY, c, s, z);
    ExtendAppend(CRC32C_POLY, c, t, z);
    ExtendWord(CRC32C_POLY, c, s + z);
    ExtendWord(CRC32C_POLY, c, t + z);
    TopBit();
    AdvanceByInjective(CRC32C_POLY, 32, Xor(c, LoadWord(s + z)), Xor(c, LoadWord(t + z)));
    XorCancel(LoadWord(s + z), c);
    XorCancel(LoadWord(t + z), c);
    LoadWordInjective(s + z, t + z);
    assert s == (s + z)[..|s|] && t == (t + z)[..|s|];
  }

  /**
   * Burst detection: two buffers that differ only inside a window of at most four bytes have the
   * same checksum exactly when they are the same buffer.
   */
  lemma {:induction false} BurstDetected(before: seq<Byte>, s: seq<Byte>, t: seq<Byte>, after: seq<Byte>)
    requires |s| == |t| <= 4
    ensures Checksum(before + s + after) == Checksum(before + t + after) <==> s == t
  {
    hide Extend;
    if Checksum(before + s + after) == Checksum(before + t + after) {
      var c := Extend(CRC32C_POLY, Xor(0, CRC32_XOR), before);
      ExtendAppend(CRC32C_POLY, Xor(0, CRC32_XOR), before, s);
      ExtendAppend(CRC32C_POLY, Xor(0, CRC32_XOR), before, t);
      ExtendAppend(CRC32C_POLY, Xor(0, CRC32_XOR), before + s, after);
      ExtendAppend(CRC32C_POLY, Xor(0, CRC32_XOR), before + t, after);
      hide Xor;
      InvertTwice(Extend(CRC32C_POLY, Extend(CRC32C_POLY, c, s), after));
      InvertTwice(Extend(CRC32C_POLY, Extend(CRC32C_POLY, c, t), after));
      ExtendInjective(Extend(CRC32C_POLY, c, s), Extend(CRC32C_POLY, c, t), after);
      ShortInjective(c, s, t);
    }
  }

  // ----- Check values

  function EightSteps(c: bv32): bv32 {
    Advance(CRC32C_POLY, Advance(CRC32C_POLY, Advance(CRC32C_POLY, Advance(CRC32C_POLY,
      Advance(CRC32C_POLY, Advance(CRC32C_POLY, Advance(CRC32C_POLY, Advance(CRC32C_POLY, c))))))))
  }

  lemma {:induction false} EightAreEight(c: bv32)
    ensures AdvanceBy(CRC32C_POLY, 8, c) == EightSteps(c)
  {
    hide Advance;
    var d := Advance(CRC32C_POLY, Advance(CRC32C_POLY, Advance(CRC32C_POLY, Advance(CRC32C_POLY, c))));
    FourSteps(c);
    FourSteps(d);
    AdvanceByAdd(CRC32C_POLY, 4, 4, c);
  }

  lemma {:induction false} FourSteps(c: bv32)
    ensures AdvanceBy(CRC32C_POLY, 4, c)
         == Advance(CRC32C_POLY, Advance(CRC32C_POLY, Advance(CRC32C_POLY, Advance(CRC32C_POLY, c))))
  {
    hide Advance;
    AdvanceByNone(CRC32C_POLY, c);
    assert AdvanceBy(CRC32C_POLY, 1, c) == Advance(CRC32C_POLY, c);
    assert AdvanceBy(CRC32C_POLY, 2, c) == Advance(CRC32C_POLY, AdvanceBy(CRC32C_POLY, 1, c));
    assert AdvanceBy(CRC32C_POLY, 3, c) == Advance(CRC32C_POLY, AdvanceBy(CRC32C_POLY, 2, c));
  }

  lemma {:induction false} OneByteMore(c: bv32, s: seq<Byte>, i: nat)
    requires i < |s|
    ensures Extend(CRC32C_POLY, c, s[..i + 1]) == EightSteps(Xor(Extend(CRC32C_POLY, c, s[..i]), s[i] as bv32))
  {
    hide Xor, AdvanceBy, EightSteps;
    assert s[..i + 1][..i] == s[..i];
    EightAreEight(Xor(Extend(CRC32C_POLY, c, s[..i]), s[i] as bv32));
  }

  // The register after each of the digits one to nine, and after each four of 32 zero bytes.

  lemma FirstDigits()
    ensures EightSteps(Xor(0xffff_ffff, 0x31)) == 0x6f0a_661c
    ensures EightSteps(Xor(0x6f0a_661c, 0x32)) == 0x8caa_3b9f
    ensures EightSteps(Xor(0x8caa_3b9f, 0x33)) == 0xef84_d04d
    ensures EightSteps(Xor(0xef84_d04d, 0x34)) == 0x09c5_0b11
    ensures EightSteps(Xor(0x09c5_0b11, 0x35)) == 0xe72e_dcca
  {
  }

  lemma LastDigits()
    ensures EightSteps(Xor(0xe72e_dcca, 0x36)) == 0xbeca_8e79
    ensures EightSteps(Xor(0xbeca_8e79, 0x37)) == 0xedbd_6815
    ensures EightSteps(Xor(0xedbd_6815, 0x38)) == 0x9f78_7f65
    ensures EightSteps(Xor(0x9f78_7f65, 0x39)) == 0x1cf9_6d7c
    ensures Xor(0, CRC32_XOR) == 0xffff_ffff && Xor(0x1cf9_6d7c, CRC32_XOR) == 0xe306_9283
  {
  }

  function FourZeroBytes(c: bv32): bv32 {
    EightSteps(EightSteps(EightSteps(EightSteps(c))))
  }

  lemma FirstZeroes()
    ensures FourZeroBytes(0xffff_ffff) == 0xb798_b438
    ensures FourZeroBytes(0xb798_b438) == 0x73d7_4d75
    ensures FourZeroBytes(0x73d7_4d75) == 0xd49f_4aa2
    ensures FourZeroBytes(0xd49f_4aa2) == 0xbd8f_6515
  {
  }

  lemma LastZeroes()
    ensures FourZeroBytes(0xbd8f_6515) == 0x433a_a9c1
    ensures FourZeroBytes(0x433a_a9c1) == 0x7b04_1311
    ensures FourZeroBytes(0x7b04_1311) == 0x0836_3896
    ensures FourZeroBytes(0x0836_3896) == 0x756e_c955
    ensures Xor(0, CRC32_XOR) == 0xffff_ffff && Xor(0x756e_c955, CRC32_XOR) == 0x8a91_36aa
  {
  }

  lemma {:induction false} FourZeroesMore(n: nat, c: bv32)
    ensures AdvanceBy(CRC32C_POLY, 8 * (n + 4), c) == FourZeroBytes(AdvanceBy(CRC32C_POLY, 8 * n, c))
  {
    hide AdvanceBy, EightSteps;
    var d0 := AdvanceBy(CRC32C_POLY, 8 * n, c);
    var d1 := EightSteps(d0);
    var d2 := EightSteps(d1);
    EightAreEight(d0);
    EightAreEight(d1);
    EightAreEight(d2);
    EightAreEight(EightSteps(d2));
    AdvanceByAdd(CRC32C_POLY, 8, 8, d0);
    AdvanceByAdd(CRC32C_POLY, 8, 8, d2);
    AdvanceByAdd(CRC32C_POLY, 16, 16, d0);
    AdvanceByAdd(CRC32C_POLY, 32, 8 * n, c);
  }

  /** The check value of CRC32C: the checksum of the nine ASCII digits "123456789". */
  lemma {:induction false} ChecksumOfDigits()
    ensures Checksum([0x31, 0x32, 0x33, 0x34, 0x35, 0x36, 0x37, 0x38, 0x39]) == 0xe306_9283
  {
    hide Xor, EightSteps, Extend;
    FirstDigits();
    LastDigits();
    var c := Xor(0, CRC32_XOR);
    var s: seq<Byte> := [0x31, 0x32, 0x33, 0x34, 0x35, 0x36, 0x37, 0x38, 0x39];
    StartOfBuffer(c, s);
    OneByteMore(c, s, 0);
    OneByteMore(c, s, 1);
    OneByteMore(c, s, 2);
    OneByteMore(c, s, 3);
    OneByteMore(c, s, 4);
    OneByteMore(c, s, 5);
    OneByteMore(c, s, 6);
    OneByteMore(c, s, 7);
    OneByteMore(c, s, 8);
    assert s[..9] == s;
  }

  /** The checksum of 32 zero bytes, as RFC 3720 gives it in appendix B.4. */
  lemma {:induction false} ChecksumOfZeroes()
    ensures Checksum(Zeroes(32)) == 0x8a91_36aa
  {
    hide Xor, AdvanceBy, FourZeroBytes, Extend;
    FirstZeroes();
    LastZeroes();
    var c := Xor(0, CRC32_XOR);
    ExtendZeroes(CRC32C_POLY, c, 32);
    AdvanceByNone(CRC32C_POLY, c);
    FourZeroesMore(0, c);
    FourZeroesMore(4, c);
    FourZeroesMore(8, c);
    FourZeroesMore(12, c);
    FourZeroesMore(16, c);
    FourZeroesMore(20, c);
    FourZeroesMore(24, c);
    FourZeroesMore(28, c);
  }
}

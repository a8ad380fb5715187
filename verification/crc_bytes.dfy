/**
 What a CRC means: bytes run through the register, eight bits each, low bit first.

 `Extend` is the reference definition (section 12.1 of RFC 3720 for the CRC32C generator). The
 tables, words and swaths of the engine are proved against it. `Retreat` runs the register
 backwards and exists because the top bit of the generator is set.
 */
module CrcBytes {
  import opened CrcRegister

  type Byte = bv8

  function StepByte(poly: bv32, c: bv32, b: Byte): bv32 {
    AdvanceBy(poly, 8, Xor(c, b as bv32))
  }

  function Extend(poly: bv32, c: bv32, bytes: seq<Byte>): bv32 {
    if bytes == [] then c
    else StepByte(poly, Extend(poly, c, bytes[..|bytes| - 1]), bytes[|bytes| - 1])
  }

  function Zeroes(n: nat): (z: seq<Byte>)
    ensures |z| == n && forall i :: 0 <= i < n ==> z[i] == 0
  {
    seq(n, i => 0)
  }

  lemma {:induction false} ExtendAppend(poly: bv32, c: bv32, s: seq<Byte>, t: seq<Byte>)
    ensures Extend(poly, c, s + t) == Extend(poly, Extend(poly, c, s), t)
  {
    hide StepByte;
    if t == [] {
      assert s + t == s;
    } else {
      var t' := t[..|t| - 1];
      assert (s + t)[..|s + t| - 1] == s + t';
      ExtendAppend(poly, c, s, t');
    }
  }

  /** A change `d` of the starting register arrives at the end as `d` advanced by the whole length. */
  lemma {:induction false} ExtendXor(poly: bv32, c: bv32, d: bv32, s: seq<Byte>)
    ensures Extend(poly, Xor(c, d), s) == Xor(Extend(poly, c, s), AdvanceBy(poly, 8 * |s|, d))
  {
    hide Xor;
    if s != [] {
      var s', b := s[..|s| - 1], s[|s| - 1] as bv32;
      var e, d' := Extend(poly, c, s'), AdvanceBy(poly, 8 * |s'|, d);
      ExtendXor(poly, c, d, s');
      XorAssoc(e, d', b);
      XorComm(d', b);
      XorAssoc(e, b, d');
      hide AdvanceBy;
      AdvanceByXor(poly, 8, Xor(e, b), d');
      AdvanceByAdd(poly, 8, 8 * |s'|, d);
    }
  }

  lemma {:induction false} ExtendZeroes(poly: bv32, c: bv32, n: nat)
    ensures Extend(poly, c, Zeroes(n)) == AdvanceBy(poly, 8 * n, c)
  {
    if n > 0 {
      assert Zeroes(n)[..n - 1] == Zeroes(n - 1);
      ExtendZeroes(poly, c, n - 1);
      hide Xor, AdvanceBy;
      XorZero(AdvanceBy(poly, 8 * (n - 1), c));
      AdvanceByAdd(poly, 8, 8 * (n - 1), c);
    }
  }

  // ----- Running the register backwards

  /** Undo one zero bit; the top bit tells whether `poly` was added. */
  function Retreat(poly: bv32, c: bv32): bv32 {
    if c & ONE != 0 then ((c ^ poly) << 1) ^ 1 else c << 1
  }

  function RetreatBy(poly: bv32, n: nat, c: bv32): bv32 {
    if n == 0 then c else Retreat(poly, RetreatBy(poly, n - 1, c))
  }

  lemma RetreatAdvanceEven(poly: bv32, c: bv32)
    requires c & 1 == 0
    ensures Retreat(poly, Advance(poly, c)) == c
  {
  }

  lemma AdvanceOdd(poly: bv32, c: bv32)
    requires c & 1 != 0
    ensures Advance(poly, c) == (c >> 1) ^ poly
  {
  }

  lemma RetreatTop(poly: bv32, d: bv32)
    requires d & ONE != 0
    ensures Retreat(poly, d) == ((d ^ poly) << 1) ^ 1
  {
  }

  lemma OddHalves(c: bv32)
    requires c & 1 != 0
    ensures ((c >> 1) << 1) ^ 1 == c
  {
  }

  lemma {:induction false} RetreatAdvanceOdd(poly: bv32, c: bv32)
    requires poly & ONE != 0 && c & 1 != 0
    ensures Retreat(poly, Advance(poly, c)) == c
  {
    hide Advance, Retreat;
    AdvanceOdd(poly, c);
    TopOfOdd(poly, c);
    RetreatTop(poly, (c >> 1) ^ poly);
    XorCancel(c >> 1, poly);
    OddHalves(c);
  }

  lemma TopOfOdd(poly: bv32, c: bv32)
    requires poly & ONE != 0
    ensures ((c >> 1) ^ poly) & ONE != 0
  {
  }

  lemma LowOfTop(d: bv32)
    requires d & ONE == 0
    ensures ((d << 1) ^ 1) & 1 != 0 && ((d << 1) ^ 1) >> 1 == d
    ensures (d << 1) & 1 == 0 && (d << 1) >> 1 == d
  {
  }

  lemma TopCancels(poly: bv32, c: bv32)
    requires poly & ONE != 0 && c & ONE != 0
    ensures (c ^ poly) & ONE == 0
  {
  }

  lemma {:induction false} AdvanceRetreatTop(poly: bv32, c: bv32)
    requires poly & ONE != 0 && c & ONE != 0
    ensures Advance(poly, Retreat(poly, c)) == c
  {
    hide Advance, Retreat;
    RetreatTop(poly, c);
    TopCancels(poly, c);
    LowOfTop(c ^ poly);
    AdvanceOdd(poly, ((c ^ poly) << 1) ^ 1);
    XorCancel(c, poly);
  }

  lemma {:induction false} AdvanceRetreat(poly: bv32, c: bv32)
    requires poly & ONE != 0
    ensures Advance(poly, Retreat(poly, c)) == c
  {
    if c & ONE != 0 {
      AdvanceRetreatTop(poly, c);
    } else {
      LowOfTop(c);
    }
  }

  lemma {:induction false} RetreatAdvance(poly: bv32, c: bv32)
    requires poly & ONE != 0
    ensures Retreat(poly, Advance(poly, c)) == c
  {
    hide Advance, Retreat;
    if c & 1 == 0 {
      RetreatAdvanceEven(poly, c);
    } else {
      RetreatAdvanceOdd(poly, c);
    }
  }

  lemma {:induction false} RetreatFirst(poly: bv32, n: nat, c: bv32)
    ensures RetreatBy(poly, n + 1, c) == RetreatBy(poly, n, Retreat(poly, c))
  {
    hide Retreat;
    if n > 0 {
      RetreatFirst(poly, n - 1, c);
    }
  }

  lemma {:induction false} RetreatAdvanceBy(poly: bv32, n: nat, c: bv32)
    requires poly & ONE != 0
    ensures RetreatBy(poly, n, AdvanceBy(poly, n, c)) == c
    ensures AdvanceBy(poly, n, RetreatBy(poly, n, c)) == c
  {
    hide Retreat, Advance;
    if n > 0 {
      RetreatFirst(poly, n - 1, AdvanceBy(poly, n, c));
      RetreatAdvance(poly, AdvanceBy(poly, n - 1, c));
      RetreatAdvanceBy(poly, n - 1, c);
      AdvanceByFirst(poly, n - 1, RetreatBy(poly, n, c));
      AdvanceRetreat(poly, RetreatBy(poly, n - 1, c));
    }
  }

  lemma {:induction false} AdvanceByInjective(poly: bv32, n: nat, c: bv32, d: bv32)
    requires poly & ONE != 0
    requires AdvanceBy(poly, n, c) == AdvanceBy(poly, n, d)
    ensures c == d
  {
    RetreatAdvanceBy(poly, n, c);
    RetreatAdvanceBy(poly, n, d);
  }

  // ----- Words of four bytes, least significant first

  function LoadWord(s: seq<Byte>): bv32
    requires |s| == 4
  {
    Xor(Xor(Xor(s[0] as bv32, (s[1] as bv32) << 8), (s[2] as bv32) << 16), (s[3] as bv32) << 24)
  }

  lemma {:induction false} HalveFirst(poly: bv32, n: nat, c: bv32)
    requires c & 1 == 0
    ensures AdvanceBy(poly, n + 1, c) == AdvanceBy(poly, n, c >> 1)
  {
    AdvanceEven(poly, c);
    hide Advance;
    AdvanceByFirst(poly, n, c);
  }

  lemma AdvanceByNone(poly: bv32, c: bv32)
    ensures AdvanceBy(poly, 0, c) == c
  {
  }

  lemma {:induction false} QuarterFirst(poly: bv32, n: nat, c: bv32)
    requires c & 3 == 0
    ensures AdvanceBy(poly, n + 2, c) == AdvanceBy(poly, n, c >> 2)
  {
    hide AdvanceBy;
    assert c & 1 == 0 && (c >> 1) & 1 == 0 && (c >> 1) >> 1 == c >> 2;
    HalveFirst(poly, n + 1, c);
    HalveFirst(poly, n, c >> 1);
  }

  lemma {:induction false} NibbleFirst(poly: bv32, n: nat, c: bv32)
    requires c & 0xf == 0
    ensures AdvanceBy(poly, n + 4, c) == AdvanceBy(poly, n, c >> 4)
  {
    hide AdvanceBy;
    assert c & 3 == 0 && (c >> 2) & 3 == 0 && (c >> 2) >> 2 == c >> 4;
    QuarterFirst(poly, n + 2, c);
    QuarterFirst(poly, n, c >> 2);
  }

  /** A clear low byte just falls out of the register. */
  lemma {:induction false} AdvanceEight(poly: bv32, x: bv32)
    requires x & 0xff == 0
    ensures AdvanceBy(poly, 8, x) == x >> 8
  {
    hide AdvanceBy;
    assert x & 0xf == 0 && (x >> 4) & 0xf == 0 && (x >> 4) >> 4 == x >> 8;
    NibbleFirst(poly, 4, x);
    NibbleFirst(poly, 0, x >> 4);
    AdvanceByNone(poly, x >> 8);
  }

  lemma SplitByte(x: bv32)
    ensures Xor(x & 0xffff_ff00, x & 0xff) == x
    ensures (x & 0xffff_ff00) & 0xff == 0 && (x & 0xffff_ff00) >> 8 == x >> 8
  {
  }

  /** Eight bits at once: the rest shifts down, the low byte is looked up. */
  lemma {:induction false} AdvanceByte(poly: bv32, x: bv32)
    ensures AdvanceBy(poly, 8, x) == Xor(x >> 8, AdvanceBy(poly, 8, x & 0xff))
  {
    SplitByte(x);
    hide Xor, AdvanceBy;
    AdvanceByXor(poly, 8, x & 0xffff_ff00, x & 0xff);
    AdvanceEight(poly, x & 0xffff_ff00);
  }

  /** A byte standing `k` bytes up the word needs `8 * k` bits to reach the bottom. */
  lemma {:induction false} AdvanceWordByte(poly: bv32, n: nat, b: bv32)
    requires b < 0x100
    ensures AdvanceBy(poly, n + 8, b << 8) == AdvanceBy(poly, n, b)
    ensures AdvanceBy(poly, n + 16, b << 16) == AdvanceBy(poly, n, b)
    ensures AdvanceBy(poly, n + 24, b << 24) == AdvanceBy(poly, n, b)
  {
    WordByteShifts(b);
    hide AdvanceBy;
    AdvanceByAdd(poly, n, 8, b << 8);
    AdvanceEight(poly, b << 8);
    AdvanceByAdd(poly, n + 8, 8, b << 16);
    AdvanceEight(poly, b << 16);
    AdvanceByAdd(poly, n + 16, 8, b << 24);
    AdvanceEight(poly, b << 24);
  }

  lemma WordByteShifts(b: bv32)
    requires b < 0x100
    ensures (b << 8) & 0xff == 0 && (b << 8) >> 8 == b
    ensures (b << 16) & 0xff == 0 && (b << 16) >> 8 == b << 8
    ensures (b << 24) & 0xff == 0 && (b << 24) >> 8 == b << 16
  {
  }

  /** Four bytes through the register are one word added in and 32 bits advanced. */
  lemma {:induction false} ExtendWord(poly: bv32, c: bv32, s: seq<Byte>)
    requires |s| == 4
    ensures Extend(poly, c, s) == AdvanceBy(poly, 32, Xor(c, LoadWord(s)))
  {
    var b0, b1, b2, b3 := s[0] as bv32, s[1] as bv32, s[2] as bv32, s[3] as bv32;
    hide Xor, AdvanceBy;
    assert s[..3][..2] == s[..2] && s[..2][..1] == s[..1] && s[..1][..0] == [];
    var c1 := StepByte(poly, c, s[0]);
    assert Extend(poly, c, s[..1]) == c1 by {
      assert Extend(poly, c, []) == c;
    }
    var c2 := StepByte(poly, c1, s[1]);
    assert Extend(poly, c, s[..2]) == c2;
    var c3 := StepByte(poly, c2, s[2]);
    assert Extend(poly, c, s[..3]) == c3;
    AddByte(poly, 8, Xor(c, b0), b1, b1 << 8);
    AddByte(poly, 16, Xor(Xor(c, b0), b1 << 8), b2, b2 << 16);
    AddByte(poly, 24, Xor(Xor(Xor(c, b0), b1 << 8), b2 << 16), b3, b3 << 24);
    XorAssoc(c, b0, b1 << 8);
    XorAssoc(c, Xor(b0, b1 << 8), b2 << 16);
    XorAssoc(c, Xor(Xor(b0, b1 << 8), b2 << 16), b3 << 24);
  }

  /** One more byte, added in place `n` bits up instead of after `n` bits. */
  lemma {:induction false} AddByte(poly: bv32, n: nat, x: bv32, b: bv32, up: bv32)
    requires b < 0x100
    requires (n == 8 && up == b << 8) || (n == 16 && up == b << 16) || (n == 24 && up == b << 24)
    ensures AdvanceBy(poly, 8, Xor(AdvanceBy(poly, n, x), b)) == AdvanceBy(poly, n + 8, Xor(x, up))
  {
    hide Xor, AdvanceBy;
    AdvanceWordByte(poly, 0, b);
    AdvanceByNone(poly, b);
    AdvanceByXor(poly, n, x, up);
    AdvanceByAdd(poly, 8, n, Xor(x, up));
  }
}

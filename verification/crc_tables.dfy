/**
 What the engine's lookup tables hold, and the arithmetic of looking things up.

 A word table row sends a byte to that byte advanced by a fixed number of bits; the zeroes table
 holds powers of x, one for every digit a in base 16 at every place b.
 */
module CrcTables {
  import opened CrcRegister
  import opened CrcBytes

  const ZEROES_BASE: nat := 16

  /** The bits of a table index, as a register value. */
  function Bits(i: nat): bv32 {
    if i == 0 then 0 else (Bits(i / 2) << 1) | (if i % 2 == 1 then 1 else 0)
  }

  lemma ByteFits(x: bv32)
    requires x < 0x100
    ensures 0 <= x as int < 256
  {
  }

  lemma ByteHalves(x: bv32)
    requires x < 0x100
    ensures (x as int) / 2 == (x >> 1) as int && (x as int) % 2 == (if x & 1 != 0 then 1 else 0)
    ensures ((x >> 1) << 1) | (if x & 1 != 0 then 1 else 0) == x
  {
  }

  lemma {:induction false} BitsOfByte(x: bv32)
    requires x < 0x100
    ensures 0 <= x as int < 256 && Bits(x as int) == x
    decreases x
  {
    ByteFits(x);
    ByteHalves(x);
    if x == 0 {
      assert x as int == 0;
    } else {
      assert x >> 1 < x;
      BitsOfByte(x >> 1);
    }
  }

  predicate PowerOfTwo(i: int) {
    i in {1, 2, 4, 8, 16, 32, 64, 128}
  }

  function Join(b: bv32, low: bool): bv32 {
    (b << 1) | (if low then 1 else 0)
  }

  lemma BitsStep(i: nat)
    ensures Bits(i) == Join(Bits(i / 2), i % 2 == 1)
  {
  }

  lemma {:induction false} JoinXor(a: bv32, b: bv32, low: bool)
    ensures Join(Xor(a, b), low) == Xor(Join(a, false), Join(b, low))
  {
    var bit: bv32 := if low then 1 else 0;
    assert ((a ^ b) << 1) | bit == ((a << 1) | 0) ^ ((b << 1) | bit);
  }

  /** The bits of a number are its highest bit and the bits of the rest. */
  lemma {:induction false} BitsSplit(i: nat, k: nat)
    requires PowerOfTwo(i) && i <= k < 2 * i
    ensures Bits(k) == Xor(Bits(i), Bits(k - i))
  {
    hide Bits, Join, Xor;
    BitsNone();
    if i == k {
      XorZero(Bits(i));
    } else {
      assert k / 2 - i / 2 == (k - i) / 2 && (k - i) % 2 == k % 2 && i % 2 == 0;
      BitsSplit(i / 2, k / 2);
      BitsStep(i);
      BitsStep(k);
      BitsStep(k - i);
      JoinXor(Bits(i / 2), Bits((k - i) / 2), k % 2 == 1);
    }
  }

  lemma BitsNone()
    ensures Bits(0) == 0
  {
  }

  lemma {:induction false} BitsHalve(poly: bv32, i: nat)
    requires PowerOfTwo(i) && i > 1
    ensures Advance(poly, Bits(i)) == Bits(i / 2)
  {
    BitsPower();
  }

  lemma {:induction false} BitsPower()
    ensures Bits(1) == 1 && Bits(2) == 2 && Bits(4) == 4 && Bits(8) == 8
    ensures Bits(16) == 16 && Bits(32) == 32 && Bits(64) == 64 && Bits(128) == 128
  {
    assert Bits(0) == 0 && Bits(1) == 1;
    assert Bits(2) == 2;
    assert Bits(4) == 4;
    assert Bits(8) == 8;
    assert Bits(16) == 16;
    assert Bits(32) == 32;
    assert Bits(64) == 64;
  }

  ghost predicate WordRow(poly: bv32, n: nat, row: seq<bv32>) {
    |row| == 256 && forall i :: 0 <= i < 256 ==> row[i] == AdvanceBy(poly, n, Bits(i))
  }

  function Power16(b: nat): (r: nat)
    ensures r >= 1
  {
    if b == 0 then 1 else 16 * Power16(b - 1)
  }

  /** Entry j stands for appending (j % 15 + 1) * 16^(j / 15) zero bytes. */
  function ZeroBytes(j: nat): nat {
    (j % 15 + 1) * Power16(j / 15)
  }

  ghost predicate ZeroesTable(poly: bv32, n: nat, z: seq<bv32>) {
    n <= |z| && forall j :: 0 <= j < n ==> z[j] == AdvanceBy(poly, 8 * ZeroBytes(j), ONE)
  }

  /** One table lookup is eight bits of the register. */
  lemma {:induction false} LookUpByte(poly: bv32, row: seq<bv32>, x: bv32)
    requires WordRow(poly, 8, row)
    ensures 0 <= (x & 0xff) as int < 256
    ensures row[(x & 0xff) as int] ^ (x >> 8) == AdvanceBy(poly, 8, x)
  {
    assert x & 0xff < 0x100;
    BitsOfByte(x & 0xff);
    hide AdvanceBy, Bits;
    AdvanceByte(poly, x);
    XorComm(x >> 8, AdvanceBy(poly, 8, x & 0xff));
  }
}

/**
 Four interleaved CRCs.

 The engine keeps four registers, each fed every fourth word. `Combine` is the register they stand
 for; the lemmas say that one stride of 16 bytes, or one single word with the registers rotated,
 moves the combined register exactly as running the bytes one after the other would.
 */
module CrcSwath {
  import opened CrcRegister
  import opened CrcBytes
  import opened CrcTables

  function AddWord(poly: bv32, c: bv32, w: bv32): bv32 {
    AdvanceBy(poly, 32, Xor(w, c))
  }

  function Combine(poly: bv32, b0: bv32, b1: bv32, b2: bv32, b3: bv32): bv32 {
    AddWord(poly, AddWord(poly, AddWord(poly, AddWord(poly, 0, b0), b1), b2), b3)
  }

  lemma {:induction false} AddWordXor(poly: bv32, c: bv32, w: bv32, d: bv32, v: bv32)
    ensures AddWord(poly, Xor(c, d), Xor(w, v)) == Xor(AddWord(poly, c, w), AddWord(poly, d, v))
  {
    hide Xor, AdvanceBy;
    XorSwap(w, v, c, d);
    AdvanceByXor(poly, 32, Xor(w, c), Xor(v, d));
  }

  lemma {:induction false} AddWordAdvance(poly: bv32, n: nat, c: bv32, w: bv32)
    ensures AddWord(poly, AdvanceBy(poly, n, c), AdvanceBy(poly, n, w)) == AdvanceBy(poly, n, AddWord(poly, c, w))
  {
    hide Xor, AdvanceBy;
    AdvanceByXor(poly, n, w, c);
    AdvanceByCommute(poly, 32, n, Xor(w, c));
  }

  lemma {:induction false} CombineXor(poly: bv32, b0: bv32, b1: bv32, b2: bv32, b3: bv32, d0: bv32, d1: bv32, d2: bv32, d3: bv32)
    ensures Combine(poly, Xor(b0, d0), Xor(b1, d1), Xor(b2, d2), Xor(b3, d3))
         == Xor(Combine(poly, b0, b1, b2, b3), Combine(poly, d0, d1, d2, d3))
  {
    hide Xor, AddWord;
    var c0, e0 := AddWord(poly, 0, b0), AddWord(poly, 0, d0);
    var c1, e1 := AddWord(poly, c0, b1), AddWord(poly, e0, d1);
    var c2, e2 := AddWord(poly, c1, b2), AddWord(poly, e1, d2);
    XorZero(0);
    AddWordXor(poly, 0, b0, 0, d0);
    AddWordXor(poly, c0, b1, e0, d1);
    AddWordXor(poly, c1, b2, e1, d2);
    AddWordXor(poly, c2, b3, e2, d3);
  }

  lemma {:induction false} CombineAdvance(poly: bv32, n: nat, b0: bv32, b1: bv32, b2: bv32, b3: bv32)
    ensures Combine(poly, AdvanceBy(poly, n, b0), AdvanceBy(poly, n, b1), AdvanceBy(poly, n, b2), AdvanceBy(poly, n, b3))
         == AdvanceBy(poly, n, Combine(poly, b0, b1, b2, b3))
  {
    hide AdvanceBy, AddWord;
    var c0 := AddWord(poly, 0, b0);
    var c1 := AddWord(poly, c0, b1);
    var c2 := AddWord(poly, c1, b2);
    AdvanceByZero(poly, n);
    AddWordAdvance(poly, n, 0, b0);
    AddWordAdvance(poly, n, c0, b1);
    AddWordAdvance(poly, n, c1, b2);
    AddWordAdvance(poly, n, c2, b3);
  }

  /** A value only in the first register is 128 bits from the end. */
  lemma {:induction false} CombineFirst(poly: bv32, x: bv32)
    ensures Combine(poly, x, 0, 0, 0) == AdvanceBy(poly, 128, x)
  {
    hide Xor, AdvanceBy;
    XorZero(x);
    var c0 := AdvanceBy(poly, 32, x);
    XorZero(c0);
    var c1 := AdvanceBy(poly, 32, c0);
    XorZero(c1);
    var c2 := AdvanceBy(poly, 32, c1);
    XorZero(c2);
    AdvanceByAdd(poly, 32, 32, x);
    AdvanceByAdd(poly, 32, 64, x);
    AdvanceByAdd(poly, 32, 96, x);
  }

  /** Sixteen bytes from one register: the first word takes the register in. */
  lemma {:induction false} ExtendStride(poly: bv32, c: bv32, s: seq<Byte>)
    requires |s| == 16
    ensures Extend(poly, c, s)
         == Combine(poly, Xor(LoadWord(s[..4]), c), LoadWord(s[4..8]), LoadWord(s[8..12]), LoadWord(s[12..]))
  {
    hide Xor, AdvanceBy, LoadWord, Extend;
    var w0, w1, w2, w3 := s[..4], s[4..8], s[8..12], s[12..];
    assert s == ((w0 + w1) + w2) + w3;
    var c0 := Extend(poly, c, w0);
    var c1 := Extend(poly, c0, w1);
    var c2 := Extend(poly, c1, w2);
    ExtendAppend(poly, c, w0, w1);
    ExtendAppend(poly, c, w0 + w1, w2);
    ExtendAppend(poly, c, (w0 + w1) + w2, w3);
    ExtendAddsWord(poly, c, w0);
    ExtendAddsWord(poly, c0, w1);
    ExtendAddsWord(poly, c1, w2);
    ExtendAddsWord(poly, c2, w3);
    XorZero(Xor(LoadWord(w0), c));
  }

  lemma {:induction false} ExtendAddsWord(poly: bv32, c: bv32, s: seq<Byte>)
    requires |s| == 4
    ensures Extend(poly, c, s) == AddWord(poly, c, LoadWord(s))
  {
    hide Xor, AdvanceBy, LoadWord, Extend;
    ExtendWord(poly, c, s);
    XorComm(c, LoadWord(s));
  }

  /** What one swath step makes of a register. */
  function StepSwath(poly: bv32, b: bv32, w: bv32): bv32 {
    Xor(w, AdvanceBy(poly, 128, b))
  }

  lemma {:induction false} StrideStep(poly: bv32, b0: bv32, b1: bv32, b2: bv32, b3: bv32, s: seq<Byte>)
    requires |s| == 16
    ensures Extend(poly, Combine(poly, b0, b1, b2, b3), s)
         == Combine(poly, StepSwath(poly, b0, LoadWord(s[..4])), StepSwath(poly, b1, LoadWord(s[4..8])),
                    StepSwath(poly, b2, LoadWord(s[8..12])), StepSwath(poly, b3, LoadWord(s[12..])))
  {
    hide Xor, AdvanceBy, LoadWord, Extend, Combine;
    var c := Combine(poly, b0, b1, b2, b3);
    var w0, w1, w2, w3 := LoadWord(s[..4]), LoadWord(s[4..8]), LoadWord(s[8..12]), LoadWord(s[12..]);
    ExtendStride(poly, c, s);
    CombineXor(poly, w0, w1, w2, w3, c, 0, 0, 0);
    XorZero(w1);
    XorZero(w2);
    XorZero(w3);
    CombineFirst(poly, c);
    CombineAdvance(poly, 128, b0, b1, b2, b3);
    CombineXor(poly, w0, w1, w2, w3, AdvanceBy(poly, 128, b0), AdvanceBy(poly, 128, b1),
               AdvanceBy(poly, 128, b2), AdvanceBy(poly, 128, b3));
  }

  /** One word into the first register, which then becomes the last. */
  lemma {:induction false} WordStep(poly: bv32, b0: bv32, b1: bv32, b2: bv32, b3: bv32, s: seq<Byte>)
    requires |s| == 4
    ensures Extend(poly, Combine(poly, b0, b1, b2, b3), s)
         == Combine(poly, b1, b2, b3, StepSwath(poly, b0, LoadWord(s)))
  {
    hide Xor, AdvanceBy, LoadWord, Extend, AddWord;
    var w := LoadWord(s);
    ExtendAddsWord(poly, Combine(poly, b0, b1, b2, b3), s);
    Rotate(poly, b0, b1, b2, b3);
    var c := AddWord(poly, AddWord(poly, AddWord(poly, 0, b1), b2), b3);
    var a := AdvanceBy(poly, 128, b0);
    AddWordShift(poly, c, a, w);
  }

  lemma {:induction false} AddWordShift(poly: bv32, c: bv32, a: bv32, w: bv32)
    ensures AddWord(poly, Xor(c, a), w) == AddWord(poly, c, Xor(w, a))
  {
    hide Xor, AdvanceBy;
    XorComm(c, a);
    XorAssoc(w, a, c);
  }

  /** The first register, taken out, contributes 128 bits' worth. */
  lemma {:induction false} Rotate(poly: bv32, b0: bv32, b1: bv32, b2: bv32, b3: bv32)
    ensures Combine(poly, b0, b1, b2, b3)
         == Xor(AddWord(poly, AddWord(poly, AddWord(poly, 0, b1), b2), b3), AdvanceBy(poly, 128, b0))
  {
    hide Xor, AdvanceBy, AddWord;
    CombineXor(poly, 0, b1, b2, b3, b0, 0, 0, 0);
    XorZero(b0);
    XorZero(b1);
    XorZero(b2);
    XorZero(b3);
    CombineFirst(poly, b0);
    AddWordNothing(poly);
  }

  lemma {:induction false} AddWordNothing(poly: bv32)
    ensures AddWord(poly, 0, 0) == 0
  {
    AdvanceByZero(poly, 32);
    XorZero(0);
  }

  // ----- The tables that make a swath step

  lemma SplitWord(x: bv32)
    ensures Xor(Xor(Xor(x & 0xff, ((x >> 8) & 0xff) << 8), ((x >> 16) & 0xff) << 16), (x >> 24) << 24) == x
    ensures x & 0xff < 0x100 && (x >> 8) & 0xff < 0x100 && (x >> 16) & 0xff < 0x100 && x >> 24 < 0x100
  {
  }

  /** Row j advances a byte by 104 + 8 * j bits; the four lookups together advance a word by 128. */
  lemma {:induction false} LookUpWord(poly: bv32, t0: seq<bv32>, t1: seq<bv32>, t2: seq<bv32>, t3: seq<bv32>, x: bv32)
    requires WordRow(poly, 104, t0) && WordRow(poly, 112, t1) && WordRow(poly, 120, t2) && WordRow(poly, 128, t3)
    ensures 0 <= (x & 0xff) as int < 256 && 0 <= ((x >> 8) & 0xff) as int < 256
    ensures 0 <= ((x >> 16) & 0xff) as int < 256 && 0 <= (x >> 24) as int < 256
    ensures Xor(Xor(Xor(t3[(x & 0xff) as int], t2[((x >> 8) & 0xff) as int]), t1[((x >> 16) & 0xff) as int]),
                t0[(x >> 24) as int]) == AdvanceBy(poly, 128, x)
  {
    var b0, b1, b2, b3 := x & 0xff, (x >> 8) & 0xff, (x >> 16) & 0xff, x >> 24;
    hide Xor, AdvanceBy;
    SplitWord(x);
    LookUpEntry(poly, 128, t3, b0);
    LookUpEntry(poly, 120, t2, b1);
    LookUpEntry(poly, 112, t1, b2);
    LookUpEntry(poly, 104, t0, b3);
    AdvanceWord(poly, b0, b1, b2, b3);
  }

  lemma {:induction false} LookUpEntry(poly: bv32, n: nat, row: seq<bv32>, b: bv32)
    requires WordRow(poly, n, row) && b < 0x100
    ensures 0 <= b as int < 256 && row[b as int] == AdvanceBy(poly, n, b)
  {
    BitsOfByte(b);
    hide AdvanceBy, Bits;
  }

  lemma {:induction false} AdvanceWord(poly: bv32, b0: bv32, b1: bv32, b2: bv32, b3: bv32)
    requires b0 < 0x100 && b1 < 0x100 && b2 < 0x100 && b3 < 0x100
    ensures AdvanceBy(poly, 128, Xor(Xor(Xor(b0, b1 << 8), b2 << 16), b3 << 24))
         == Xor(Xor(Xor(AdvanceBy(poly, 128, b0), AdvanceBy(poly, 120, b1)), AdvanceBy(poly, 112, b2)),
                AdvanceBy(poly, 104, b3))
  {
    hide Xor, AdvanceBy;
    AdvanceWordByte(poly, 120, b1);
    AdvanceWordByte(poly, 112, b2);
    AdvanceWordByte(poly, 104, b3);
    AdvanceByXor(poly, 128, b0, b1 << 8);
    AdvanceByXor(poly, 128, Xor(b0, b1 << 8), b2 << 16);
    AdvanceByXor(poly, 128, Xor(Xor(b0, b1 << 8), b2 << 16), b3 << 24);
  }
}

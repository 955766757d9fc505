/** The tables of uffs_ecc.c, and what their entries mean. */
module EccTables {

  function Pick(k: bv8, e0: bv8, e1: bv8, e2: bv8, e3: bv8, e4: bv8, e5: bv8, e6: bv8, e7: bv8,
                e8: bv8, e9: bv8, e10: bv8, e11: bv8, e12: bv8, e13: bv8, e14: bv8, e15: bv8): bv8 {
    if k == 0 then e0 else if k == 1 then e1 else if k == 2 then e2 else if k == 3 then e3
    else if k == 4 then e4 else if k == 5 then e5 else if k == 6 then e6 else if k == 7 then e7
    else if k == 8 then e8 else if k == 9 then e9 else if k == 10 then e10 else if k == 11 then e11
    else if k == 12 then e12 else if k == 13 then e13 else if k == 14 then e14 else e15
  }

  function Xor(a: bv8, b: bv8): bv8 {
    a ^ b
  }

  lemma {:induction false} XorMoves(a: bv8, b: bv8, c: bv8)
    ensures Xor(Xor(a, b), c) == Xor(Xor(a, c), b) && Xor(Xor(a, b), c) == Xor(a, Xor(b, c))
    ensures Xor(a, a) == 0 && Xor(a, 0) == a && Xor(0, a) == a && Xor(a, b) == Xor(b, a)
  {
  }

  // ----- bits_tbl

  function Bits0To3(hi: bv8, lo: bv8): bv8 {
    if hi == 0 then Pick(lo, 0, 1, 1, 2, 1, 2, 2, 3, 1, 2, 2, 3, 2, 3, 3, 4)
    else if hi == 1 then Pick(lo, 1, 2, 2, 3, 2, 3, 3, 4, 2, 3, 3, 4, 3, 4, 4, 5)
    else if hi == 2 then Pick(lo, 1, 2, 2, 3, 2, 3, 3, 4, 2, 3, 3, 4, 3, 4, 4, 5)
    else Pick(lo, 2, 3, 3, 4, 3, 4, 4, 5, 3, 4, 4, 5, 4, 5, 5, 6)
  }

  function Bits4To7(hi: bv8, lo: bv8): bv8 {
    if hi == 4 then Pick(lo, 1, 2, 2, 3, 2, 3, 3, 4, 2, 3, 3, 4, 3, 4, 4, 5)
    else if hi == 5 then Pick(lo, 2, 3, 3, 4, 3, 4, 4, 5, 3, 4, 4, 5, 4, 5, 5, 6)
    else if hi == 6 then Pick(lo, 2, 3, 3, 4, 3, 4, 4, 5, 3, 4, 4, 5, 4, 5, 5, 6)
    else Pick(lo, 3, 4, 4, 5, 4, 5, 5, 6, 4, 5, 5, 6, 5, 6, 6, 7)
  }

  function Bits8To11(hi: bv8, lo: bv8): bv8 {
    if hi == 8 then Pick(lo, 1, 2, 2, 3, 2, 3, 3, 4, 2, 3, 3, 4, 3, 4, 4, 5)
    else if hi == 9 then Pick(lo, 2, 3, 3, 4, 3, 4, 4, 5, 3, 4, 4, 5, 4, 5, 5, 6)
    else if hi == 10 then Pick(lo, 2, 3, 3, 4, 3, 4, 4, 5, 3, 4, 4, 5, 4, 5, 5, 6)
    else Pick(lo, 3, 4, 4, 5, 4, 5, 5, 6, 4, 5, 5, 6, 5, 6, 6, 7)
  }

  function Bits12To15(hi: bv8, lo: bv8): bv8 {
    if hi == 12 then Pick(lo, 2, 3, 3, 4, 3, 4, 4, 5, 3, 4, 4, 5, 4, 5, 5, 6)
    else if hi == 13 then Pick(lo, 3, 4, 4, 5, 4, 5, 5, 6, 4, 5, 5, 6, 5, 6, 6, 7)
    else if hi == 14 then Pick(lo, 3, 4, 4, 5, 4, 5, 5, 6, 4, 5, 5, 6, 5, 6, 6, 7)
    else Pick(lo, 4, 5, 5, 6, 5, 6, 6, 7, 5, 6, 6, 7, 6, 7, 7, 8)
  }

  function BitCount(x: bv8): bv8 {
    var hi, lo := x >> 4, x & 15;
    if hi < 4 then Bits0To3(hi, lo) else if hi < 8 then Bits4To7(hi, lo)
    else if hi < 12 then Bits8To11(hi, lo) else Bits12To15(hi, lo)
  }

  /** Number of bits set. */
  function Ones(x: bv8): bv8 {
    (x & 1) + ((x >> 1) & 1) + ((x >> 2) & 1) + ((x >> 3) & 1) +
    ((x >> 4) & 1) + ((x >> 5) & 1) + ((x >> 6) & 1) + (x >> 7)
  }

  lemma {:induction false} Bits0To3Form(x: bv8)
    requires 0 <= x < 64
    ensures Bits0To3(x >> 4, x & 15) == Ones(x)
  {
  }

  lemma {:induction false} Bits4To7Form(x: bv8)
    requires 64 <= x < 128
    ensures Bits4To7(x >> 4, x & 15) == Ones(x)
  {
  }

  lemma {:induction false} Bits8To11Form(x: bv8)
    requires 128 <= x < 192
    ensures Bits8To11(x >> 4, x & 15) == Ones(x)
  {
  }

  lemma {:induction false} Bits12To15Form(x: bv8)
    requires 192 <= x
    ensures Bits12To15(x >> 4, x & 15) == Ones(x)
  {
  }

  /** bits_tbl counts the bits of a byte. */
  lemma {:induction false} BitCountForm(x: bv8)
    ensures BitCount(x) == Ones(x)
  {
    hide Bits0To3, Bits4To7, Bits8To11, Bits12To15, Ones;
    if x < 64 {
      Bits0To3Form(x);
    } else if x < 128 {
      Bits4To7Form(x);
    } else if x < 192 {
      Bits8To11Form(x);
    } else {
      Bits12To15Form(x);
    }
  }

  // ----- line_parity_tbl and line_parity_prime_tbl

  function LineParity(n: bv8): bv8 {
    Pick(n, 0x00, 0x02, 0x08, 0x0a, 0x20, 0x22, 0x28, 0x2a, 0x80, 0x82, 0x88, 0x8a, 0xa0, 0xa2, 0xa8, 0xaa)
  }

  function LineParityPrime(n: bv8): bv8 {
    Pick(n, 0x00, 0x01, 0x04, 0x05, 0x10, 0x11, 0x14, 0x15, 0x40, 0x41, 0x44, 0x45, 0x50, 0x51, 0x54, 0x55)
  }

  // ----- column_parity_tbl

  function Column0To3(hi: bv8, lo: bv8): bv8 {
    if hi == 0 then Pick(lo, 0x00, 0x55, 0x59, 0x0c, 0x65, 0x30, 0x3c, 0x69, 0x69, 0x3c, 0x30, 0x65, 0x0c, 0x59, 0x55,
                         0x00)
    else if hi == 1 then Pick(lo, 0x95, 0xc0, 0xcc, 0x99, 0xf0, 0xa5, 0xa9, 0xfc, 0xfc, 0xa9, 0xa5, 0xf0, 0x99, 0xcc,
                              0xc0, 0x95)
    else if hi == 2 then Pick(lo, 0x99, 0xcc, 0xc0, 0x95, 0xfc, 0xa9, 0xa5, 0xf0, 0xf0, 0xa5, 0xa9, 0xfc, 0x95, 0xc0,
                              0xcc, 0x99)
    else Pick(lo, 0x0c, 0x59, 0x55, 0x00, 0x69, 0x3c, 0x30, 0x65, 0x65, 0x30, 0x3c, 0x69, 0x00, 0x55, 0x59, 0x0c)
  }

  function Column4To7(hi: bv8, lo: bv8): bv8 {
    if hi == 4 then Pick(lo, 0xa5, 0xf0, 0xfc, 0xa9, 0xc0, 0x95, 0x99, 0xcc, 0xcc, 0x99, 0x95, 0xc0, 0xa9, 0xfc, 0xf0,
                         0xa5)
    else if hi == 5 then Pick(lo, 0x30, 0x65, 0x69, 0x3c, 0x55, 0x00, 0x0c, 0x59, 0x59, 0x0c, 0x00, 0x55, 0x3c, 0x69,
                              0x65, 0x30)
    else if hi == 6 then Pick(lo, 0x3c, 0x69, 0x65, 0x30, 0x59, 0x0c, 0x00, 0x55, 0x55, 0x00, 0x0c, 0x59, 0x30, 0x65,
                              0x69, 0x3c)
    else Pick(lo, 0xa9, 0xfc, 0xf0, 0xa5, 0xcc, 0x99, 0x95, 0xc0, 0xc0, 0x95, 0x99, 0xcc, 0xa5, 0xf0, 0xfc, 0xa9)
  }

  function Column8To11(hi: bv8, lo: bv8): bv8 {
    if hi == 8 then Pick(lo, 0xa9, 0xfc, 0xf0, 0xa5, 0xcc, 0x99, 0x95, 0xc0, 0xc0, 0x95, 0x99, 0xcc, 0xa5, 0xf0, 0xfc,
                         0xa9)
    else if hi == 9 then Pick(lo, 0x3c, 0x69, 0x65, 0x30, 0x59, 0x0c, 0x00, 0x55, 0x55, 0x00, 0x0c, 0x59, 0x30, 0x65,
                              0x69, 0x3c)
    else if hi == 10 then Pick(lo, 0x30, 0x65, 0x69, 0x3c, 0x55, 0x00, 0x0c, 0x59, 0x59, 0x0c, 0x00, 0x55, 0x3c, 0x69,
                               0x65, 0x30)
    else Pick(lo, 0xa5, 0xf0, 0xfc, 0xa9, 0xc0, 0x95, 0x99, 0xcc, 0xcc, 0x99, 0x95, 0xc0, 0xa9, 0xfc, 0xf0, 0xa5)
  }

  function Column12To15(hi: bv8, lo: bv8): bv8 {
    if hi == 12 then Pick(lo, 0x0c, 0x59, 0x55, 0x00, 0x69, 0x3c, 0x30, 0x65, 0x65, 0x30, 0x3c, 0x69, 0x00, 0x55, 0x59,
                          0x0c)
    else if hi == 13 then Pick(lo, 0x99, 0xcc, 0xc0, 0x95, 0xfc, 0xa9, 0xa5, 0xf0, 0xf0, 0xa5, 0xa9, 0xfc, 0x95, 0xc0,
                               0xcc, 0x99)
    else if hi == 14 then Pick(lo, 0x95, 0xc0, 0xcc, 0x99, 0xf0, 0xa5, 0xa9, 0xfc, 0xfc, 0xa9, 0xa5, 0xf0, 0x99, 0xcc,
                               0xc0, 0x95)
    else Pick(lo, 0x00, 0x55, 0x59, 0x0c, 0x65, 0x30, 0x3c, 0x69, 0x69, 0x3c, 0x30, 0x65, 0x0c, 0x59, 0x55, 0x00)
  }

  function Column(x: bv8): bv8 {
    var hi, lo := x >> 4, x & 15;
    if hi < 4 then Column0To3(hi, lo) else if hi < 8 then Column4To7(hi, lo)
    else if hi < 12 then Column8To11(hi, lo) else Column12To15(hi, lo)
  }

  function Fold4(x: bv8): bv8 {
    x ^ (x >> 4)
  }

  function Fold2(x: bv8): bv8 {
    x ^ (x >> 2)
  }

  function Fold1(x: bv8): bv8 {
    (x ^ (x >> 1)) & 1
  }

  function Parity(x: bv8): bv8 {
    Fold1(Fold2(Fold4(x)))
  }

  function Under(x: bv8, mask: bv8): bv8 {
    x & mask
  }

  function Place(bits: bv8, b: bv8): bv8 {
    (bits << 1) ^ b
  }

  function Join(a: bv8, b: bv8, c: bv8, d: bv8, e: bv8, f: bv8, g: bv8): bv8 {
    Place(Place(Place(Place(Place(Place(Place(a, b), c), d), e), f), 0), g)
  }

  /** P4, P4', P2, P2', P1, P1' from the top bit on, and the parity of the byte in the lowest bit. */
  function ColumnParities(x: bv8): bv8 {
    Join(Parity(Under(x, 0xF0)), Parity(Under(x, 0x0F)), Parity(Under(x, 0xCC)), Parity(Under(x, 0x33)),
         Parity(Under(x, 0xAA)), Parity(Under(x, 0x55)), Parity(x))
  }

  lemma {:induction false} FoldsLinear(x: bv8, m: bv8)
    ensures Fold4(Xor(x, m)) == Xor(Fold4(x), Fold4(m))
    ensures Fold2(Xor(x, m)) == Xor(Fold2(x), Fold2(m))
    ensures Fold1(Xor(x, m)) == Xor(Fold1(x), Fold1(m))
  {
  }

  lemma {:induction false} UnderLinear(x: bv8, m: bv8, mask: bv8)
    ensures Under(Xor(x, m), mask) == Xor(Under(x, mask), Under(m, mask))
  {
  }

  lemma {:induction false} ParityOfXor(x: bv8, m: bv8)
    ensures Parity(Xor(x, m)) == Xor(Parity(x), Parity(m))
  {
    hide Fold4, Fold2, Fold1, Xor;
    FoldsLinear(x, m);
    FoldsLinear(Fold4(x), Fold4(m));
    FoldsLinear(Fold2(Fold4(x)), Fold2(Fold4(m)));
  }

  lemma {:induction false} ParityLinear(x: bv8, m: bv8, mask: bv8)
    ensures Parity(Under(Xor(x, m), mask)) == Xor(Parity(Under(x, mask)), Parity(Under(m, mask)))
  {
    hide Parity, Xor, Under;
    UnderLinear(x, m, mask);
    ParityOfXor(Under(x, mask), Under(m, mask));
  }

  lemma {:induction false} PlaceLinear(x: bv8, m: bv8, b: bv8, c: bv8)
    ensures Place(Xor(x, m), Xor(b, c)) == Xor(Place(x, b), Place(m, c))
    ensures Place(Xor(x, m), 0) == Xor(Place(x, 0), Place(m, 0))
  {
  }

  lemma {:induction false} JoinLinear(a: bv8, b: bv8, c: bv8, d: bv8, e: bv8, f: bv8, g: bv8,
                                      a': bv8, b': bv8, c': bv8, d': bv8, e': bv8, f': bv8, g': bv8)
    ensures Join(Xor(a, a'), Xor(b, b'), Xor(c, c'), Xor(d, d'), Xor(e, e'), Xor(f, f'), Xor(g, g')) ==
            Xor(Join(a, b, c, d, e, f, g), Join(a', b', c', d', e', f', g'))
  {
    hide Xor, Place;
    PlaceLinear(a, a', b, b');
    var x, m := Place(a, b), Place(a', b');
    PlaceLinear(x, m, c, c');
    x, m := Place(x, c), Place(m, c');
    PlaceLinear(x, m, d, d');
    x, m := Place(x, d), Place(m, d');
    PlaceLinear(x, m, e, e');
    x, m := Place(x, e), Place(m, e');
    PlaceLinear(x, m, f, f');
    x, m := Place(x, f), Place(m, f');
    PlaceLinear(x, m, 0, 0);
    PlaceLinear(Place(x, 0), Place(m, 0), g, g');
  }

  /** The parities of a byte with bits flipped are those of the byte and of the flipped bits together. */
  lemma {:induction false} ParitiesLinear(x: bv8, m: bv8)
    ensures ColumnParities(Xor(x, m)) == Xor(ColumnParities(x), ColumnParities(m))
  {
    hide Xor, Parity, Under, Join;
    ParityLinear(x, m, 0xF0);
    ParityLinear(x, m, 0x0F);
    ParityLinear(x, m, 0xCC);
    ParityLinear(x, m, 0x33);
    ParityLinear(x, m, 0xAA);
    ParityLinear(x, m, 0x55);
    JoinLinear(Parity(Under(x, 0xF0)), Parity(Under(x, 0x0F)), Parity(Under(x, 0xCC)), Parity(Under(x, 0x33)),
               Parity(Under(x, 0xAA)), Parity(Under(x, 0x55)), Parity(x),
               Parity(Under(m, 0xF0)), Parity(Under(m, 0x0F)), Parity(Under(m, 0xCC)), Parity(Under(m, 0x33)),
               Parity(Under(m, 0xAA)), Parity(Under(m, 0x55)), Parity(m));
    ParityOfXor(x, m);
  }

  function Odd(x: bv8): bv8 {
    var a := x ^ (x >> 4);
    var b := a ^ (a >> 2);
    (b ^ (b >> 1)) & 1
  }

  /** The same parities, put side by side. */
  function ParityBits(x: bv8): bv8 {
    (Odd(x & 0xF0) << 7) | (Odd(x & 0x0F) << 6) | (Odd(x & 0xCC) << 5) | (Odd(x & 0x33) << 4) |
    (Odd(x & 0xAA) << 3) | (Odd(x & 0x55) << 2) | Odd(x)
  }

  lemma {:induction false} ParityBitsAre(x: bv8)
    ensures ParityBits(x) == ColumnParities(x)
  {
    hide Parity, Odd, Under;
    OddIsParity(x & 0xF0);
    OddIsParity(x & 0x0F);
    OddIsParity(x & 0xCC);
    OddIsParity(x & 0x33);
    OddIsParity(x & 0xAA);
    OddIsParity(x & 0x55);
    OddIsParity(x);
    UnderIs(x);
    SideBySide(Odd(x & 0xF0), Odd(x & 0x0F), Odd(x & 0xCC), Odd(x & 0x33), Odd(x & 0xAA), Odd(x & 0x55), Odd(x));
    hide Join;
  }

  lemma {:induction false} UnderIs(x: bv8)
    ensures Under(x, 0xF0) == x & 0xF0 && Under(x, 0x0F) == x & 0x0F && Under(x, 0xCC) == x & 0xCC
    ensures Under(x, 0x33) == x & 0x33 && Under(x, 0xAA) == x & 0xAA && Under(x, 0x55) == x & 0x55
  {
  }

  lemma {:induction false} OddIsParity(x: bv8)
    ensures Odd(x) == Parity(x) <= 1
  {
  }

  lemma {:induction false} SideBySide(a: bv8, b: bv8, c: bv8, d: bv8, e: bv8, f: bv8, g: bv8)
    requires a <= 1 && b <= 1 && c <= 1 && d <= 1 && e <= 1 && f <= 1 && g <= 1
    ensures (a << 7) | (b << 6) | (c << 5) | (d << 4) | (e << 3) | (f << 2) | g == Join(a, b, c, d, e, f, g)
  {
  }

  lemma {:induction false} Column0To3Form(x: bv8)
    requires 0 <= x < 64
    ensures Column0To3(x >> 4, x & 15) == ParityBits(x)
  {
  }

  lemma {:induction false} Column4To7Form(x: bv8)
    requires 64 <= x < 128
    ensures Column4To7(x >> 4, x & 15) == ParityBits(x)
  {
  }

  lemma {:induction false} Column8To11Form(x: bv8)
    requires 128 <= x < 192
    ensures Column8To11(x >> 4, x & 15) == ParityBits(x)
  {
  }

  lemma {:induction false} Column12To15Form(x: bv8)
    requires 192 <= x
    ensures Column12To15(x >> 4, x & 15) == ParityBits(x)
  {
  }

  /** column_parity_tbl holds the parities of the halves, quarters and eighths of a byte. */
  lemma {:induction false} ColumnForm(x: bv8)
    ensures Column(x) == ColumnParities(x)
  {
    hide Column0To3, Column4To7, Column8To11, Column12To15, ColumnParities, ParityBits;
    ParityBitsAre(x);
    if x < 64 {
      Column0To3Form(x);
    } else if x < 128 {
      Column4To7Form(x);
    } else if x < 192 {
      Column8To11Form(x);
    } else {
      Column12To15Form(x);
    }
  }
}

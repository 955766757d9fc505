/** What the bits of an ECC are: each is the complement of the parity of some of the data bits. */
module EccBits {
  import opened EccTables
  import opened Ecc

  // ----- counting bits

  /** Number of bits set in a byte. */
  function OnesIn(x: bv8): nat {
    Worth(Has(x, 1), 1) + Worth(Has(x, 2), 1) + Worth(Has(x, 4), 1) + Worth(Has(x, 8), 1) +
    Worth(Has(x, 16), 1) + Worth(Has(x, 32), 1) + Worth(Has(x, 64), 1) + Worth(Has(x, 128), 1)
  }

  /** Binary digit j of a number. */
  predicate BitOf(n: nat, j: nat) {
    if j == 0 then n % 2 == 1 else BitOf(n / 2, j - 1)
  }

  /** Number of bits set in the bytes whose index has digit j, or has it not. */
  function OnesWhere(chunk: Bytes, j: nat, digit: bool): nat {
    if chunk == [] then 0
    else
      var n := |chunk| - 1;
      OnesWhere(chunk[..n], j, digit) + if BitOf(n, j) == digit then OnesIn(chunk[n]) else 0
  }

  /** Number of bits set in the columns of the mask. */
  function OnesUnder(chunk: Bytes, mask: bv8): nat {
    if chunk == [] then 0
    else OnesUnder(chunk[..|chunk| - 1], mask) + OnesIn(Under(chunk[|chunk| - 1], mask))
  }

  predicate Even(n: nat) {
    n % 2 == 0
  }

  function Mask(k: nat): bv8 {
    if k == 0 then 1 else if k == 1 then 2 else if k == 2 then 4 else if k == 3 then 8
    else if k == 4 then 16 else if k == 5 then 32 else if k == 6 then 64 else 128
  }

  // ----- the ECC, bit by bit

  /** The bits of a line byte for digits first to first + count - 1 of the index. */
  ghost predicate LineBits(e: bv8, chunk: Bytes, first: nat, count: nat) {
    forall j :: 0 <= j < count ==>
      (Has(e, Mask(2 * j + 1)) <==> Even(OnesWhere(chunk, first + j, true))) &&
      (Has(e, Mask(2 * j)) <==> Even(OnesWhere(chunk, first + j, false)))
  }

  ghost predicate IsEcc(e: Ecc3, chunk: Bytes) {
    && LineBits(e.e0, chunk, 0, 4) && LineBits(e.e1, chunk, 4, 4)
    && (Has(e.e2, 0x80) <==> Even(OnesUnder(chunk, 0xF0))) && (Has(e.e2, 0x40) <==> Even(OnesUnder(chunk, 0x0F)))
    && (Has(e.e2, 0x20) <==> Even(OnesUnder(chunk, 0xCC))) && (Has(e.e2, 0x10) <==> Even(OnesUnder(chunk, 0x33)))
    && (Has(e.e2, 0x08) <==> Even(OnesUnder(chunk, 0xAA))) && (Has(e.e2, 0x04) <==> Even(OnesUnder(chunk, 0x55)))
    && Has(e.e2, 0x02) && Has(e.e2, 0x01)
  }

  // ----- parities of one byte

  lemma {:induction false} OddIsOnes(x: bv8)
    ensures EccTables.Odd(x) == 1 <==> !Even(OnesIn(x))
    ensures EccTables.Odd(x) <= 1
  {
    var b0, b1, b2, b3 := Has(x, 1), Has(x, 2), Has(x, 4), Has(x, 8);
    var b4, b5, b6, b7 := Has(x, 16), Has(x, 32), Has(x, 64), Has(x, 128);
    OddIsXor(x);
    hide Has, EccTables.Odd;
  }

  lemma {:induction false} OddIsXor(x: bv8)
    ensures EccTables.Odd(x) == 1 <==>
            ((((((Has(x, 1) != Has(x, 2)) != Has(x, 4)) != Has(x, 8)) != Has(x, 16)) != Has(x, 32)) != Has(x, 64)) !=
            Has(x, 128)
    ensures EccTables.Odd(x) <= 1
  {
  }

  /** Bits of a column entry: the parities under the six masks, and of the whole byte. */
  lemma {:induction false} ColumnBitsOf(x: bv8)
    ensures Has(Column(x), 0x80) <==> !Even(OnesIn(Under(x, 0xF0)))
    ensures Has(Column(x), 0x40) <==> !Even(OnesIn(Under(x, 0x0F)))
    ensures Has(Column(x), 0x20) <==> !Even(OnesIn(Under(x, 0xCC)))
    ensures Has(Column(x), 0x10) <==> !Even(OnesIn(Under(x, 0x33)))
    ensures Has(Column(x), 0x08) <==> !Even(OnesIn(Under(x, 0xAA)))
    ensures Has(Column(x), 0x04) <==> !Even(OnesIn(Under(x, 0x55)))
    ensures Has(Column(x), 0x01) <==> !Even(OnesIn(x))
  {
    ColumnForm(x);
    ParityBitsAre(x);
    UnderIs(x);
    OddIsOnes(x & 0xF0);
    OddIsOnes(x & 0x0F);
    OddIsOnes(x & 0xCC);
    OddIsOnes(x & 0x33);
    OddIsOnes(x & 0xAA);
    OddIsOnes(x & 0x55);
    OddIsOnes(x);
    SideBySideBits(EccTables.Odd(x & 0xF0), EccTables.Odd(x & 0x0F), EccTables.Odd(x & 0xCC), EccTables.Odd(x & 0x33),
                   EccTables.Odd(x & 0xAA), EccTables.Odd(x & 0x55), EccTables.Odd(x));
    hide Column, ColumnParities, EccTables.Odd, OnesIn, Even, Has, Under;
  }

  lemma {:induction false} SideBySideBits(a: bv8, b: bv8, c: bv8, d: bv8, e: bv8, f: bv8, g: bv8)
    requires a <= 1 && b <= 1 && c <= 1 && d <= 1 && e <= 1 && f <= 1 && g <= 1
    ensures var x := (a << 7) | (b << 6) | (c << 5) | (d << 4) | (e << 3) | (f << 2) | g;
            (Has(x, 0x80) <==> a == 1) && (Has(x, 0x40) <==> b == 1) && (Has(x, 0x20) <==> c == 1) &&
            (Has(x, 0x10) <==> d == 1) && (Has(x, 0x08) <==> e == 1) && (Has(x, 0x04) <==> f == 1) &&
            (Has(x, 0x01) <==> g == 1)
  {
  }

  /** The bits of the byte with value i are the digits of i. */
  lemma {:induction false} IndexBits(i: nat, j: nat)
    requires i < 256 && j < 8
    ensures Has(Index(i), Mask(j)) <==> BitOf(i, j)
  {
    var h1 := Half(i);
    var h2 := Half(h1);
    var h3 := Half(h2);
    var h4 := Half(h3);
    var h5 := Half(h4);
    var h6 := Half(h5);
    BitsBack(Ecc.Odd(i), Ecc.Odd(h1), Ecc.Odd(h2), Ecc.Odd(h3), Ecc.Odd(h4), Ecc.Odd(h5), Ecc.Odd(h6),
             Ecc.Odd(Half(h6)));
    hide FromBits, Has;
    BitDown(i, j);
    if j > 0 {
      BitDown(h1, j - 1);
    }
    if j > 1 {
      BitDown(h2, j - 2);
    }
    if j > 2 {
      BitDown(h3, j - 3);
    }
    if j > 3 {
      BitDown(h4, j - 4);
    }
    if j > 4 {
      BitDown(h5, j - 5);
    }
    if j > 5 {
      BitDown(h6, j - 6);
    }
    if j > 6 {
      BitDown(Half(h6), 0);
    }
  }

  lemma {:induction false} BitDown(n: nat, j: nat)
    ensures j == 0 ==> (BitOf(n, j) <==> Ecc.Odd(n))
    ensures j > 0 ==> (BitOf(n, j) <==> BitOf(Half(n), j - 1))
  {
  }

  // ----- parities of a chunk

  lemma {:induction false} XorBit(a: bv8, b: bv8, m: bv8)
    requires OneBit(m)
    ensures Has(Xor(a, b), m) <==> Has(a, m) != Has(b, m)
    ensures Has(Complement(a), m) <==> !Has(a, m)
    ensures Has(0, m) <==> false
  {
  }

  lemma {:induction false} MaskIsOneBit(j: nat)
    ensures OneBit(Mask(j))
  {
  }

  /** Line bits of what a byte adds. */
  lemma {:induction false} ContributionBits(i: nat, x: bv8, j: nat)
    requires i < 256 && j < 8
    ensures Has(Contribution(Index(i), x).line, Mask(j)) <==> BitOf(i, j) && !Even(OnesIn(x))
    ensures Has(Contribution(Index(i), x).prime, Mask(j)) <==> !BitOf(i, j) && !Even(OnesIn(x))
  {
    IndexBits(i, j);
    MaskIsOneBit(j);
    XorBit(Index(i), 0, Mask(j));
    ColumnBitsOf(x);
    OddColumn(Column(x), Index(i));
    OddColumn(Column(x), Complement(Index(i)));
    hide Column, Index, BitOf, Mask, Has, OnesIn, Complement, IfOdd, Even;
  }

  lemma {:induction false} OddColumn(c: bv8, i: bv8)
    ensures IfOdd(c, i) == if Has(c, 0x01) then i else 0
  {
  }

  lemma {:induction false} AccSteps(chunk: Bytes, j: nat, mask: bv8)
    requires |chunk| <= 256
    ensures chunk == [] ==> AccOf(chunk) == Acc(0, 0, 0) && OnesUnder(chunk, mask) == 0 &&
                            OnesWhere(chunk, j, true) == OnesWhere(chunk, j, false) == 0
    ensures chunk != [] ==>
              var n := |chunk| - 1;
              var a, c := AccOf(chunk[..n]), Contribution(Index(n), chunk[n]);
              AccOf(chunk) == Acc(Xor(a.col, Column(chunk[n])), Xor(a.line, c.line), Xor(a.prime, c.prime)) &&
              OnesUnder(chunk, mask) == OnesUnder(chunk[..n], mask) + OnesIn(Under(chunk[n], mask)) &&
              OnesWhere(chunk, j, true) ==
                OnesWhere(chunk[..n], j, true) + (if BitOf(n, j) then OnesIn(chunk[n]) else 0) &&
              OnesWhere(chunk, j, false) ==
                OnesWhere(chunk[..n], j, false) + (if BitOf(n, j) then 0 else OnesIn(chunk[n]))
  {
    hide Column, Index, Xor, Under, OnesIn, BitOf, IfOdd, Complement;
  }

  lemma {:induction false} SumEven(a: nat, b: nat)
    ensures Even(a + b) <==> (Even(a) <==> Even(b))
    ensures Even(0)
  {
  }

  lemma {:induction false} LineBitsOf(chunk: Bytes, j: nat)
    requires |chunk| <= 256 && j < 8
    ensures Has(AccOf(chunk).line, Mask(j)) <==> !Even(OnesWhere(chunk, j, true))
    ensures Has(AccOf(chunk).prime, Mask(j)) <==> !Even(OnesWhere(chunk, j, false))
  {
    hide *;
    MaskIsOneBit(j);
    AccSteps(chunk, j, 0);
    SumEven(0, 0);
    if chunk == [] {
      XorBit(0, 0, Mask(j));
    } else {
      var n := |chunk| - 1;
      LineBitsOf(chunk[..n], j);
      ContributionBits(n, chunk[n], j);
      var a, c := AccOf(chunk[..n]), Contribution(Index(n), chunk[n]);
      XorBit(a.line, c.line, Mask(j));
      XorBit(a.prime, c.prime, Mask(j));
      SumEven(OnesWhere(chunk[..n], j, true), OnesIn(chunk[n]));
      SumEven(OnesWhere(chunk[..n], j, false), OnesIn(chunk[n]));
    }
  }

  lemma {:induction false} ColumnsOf(chunk: Bytes, m: bv8, mask: bv8)
    requires |chunk| <= 256 && OneBit(m) && forall x :: Has(Column(x), m) <==> !Even(OnesIn(Under(x, mask)))
    ensures Has(AccOf(chunk).col, m) <==> !Even(OnesUnder(chunk, mask))
  {
    hide *;
    AccSteps(chunk, 0, mask);
    SumEven(0, 0);
    if chunk == [] {
      XorBit(0, 0, m);
    } else {
      var n := |chunk| - 1;
      ColumnsOf(chunk[..n], m, mask);
      XorBit(AccOf(chunk[..n]).col, Column(chunk[n]), m);
      SumEven(OnesUnder(chunk[..n], mask), OnesIn(Under(chunk[n], mask)));
    }
  }

  lemma {:induction false} ColumnParityBits(chunk: Bytes)
    requires |chunk| <= 256
    ensures var c := AccOf(chunk).col;
            (Has(c, 0x80) <==> !Even(OnesUnder(chunk, 0xF0))) && (Has(c, 0x40) <==> !Even(OnesUnder(chunk, 0x0F))) &&
            (Has(c, 0x20) <==> !Even(OnesUnder(chunk, 0xCC))) && (Has(c, 0x10) <==> !Even(OnesUnder(chunk, 0x33))) &&
            (Has(c, 0x08) <==> !Even(OnesUnder(chunk, 0xAA))) && (Has(c, 0x04) <==> !Even(OnesUnder(chunk, 0x55)))
  {
    hide Column, OnesIn, Under, OnesUnder, AccOf, Has;
    forall x
      ensures Has(Column(x), 0x80) <==> !Even(OnesIn(Under(x, 0xF0)))
      ensures Has(Column(x), 0x40) <==> !Even(OnesIn(Under(x, 0x0F)))
      ensures Has(Column(x), 0x20) <==> !Even(OnesIn(Under(x, 0xCC)))
      ensures Has(Column(x), 0x10) <==> !Even(OnesIn(Under(x, 0x33)))
      ensures Has(Column(x), 0x08) <==> !Even(OnesIn(Under(x, 0xAA)))
      ensures Has(Column(x), 0x04) <==> !Even(OnesIn(Under(x, 0x55)))
    {
      ColumnBitsOf(x);
    }
    ColumnsOf(chunk, 0x80, 0xF0);
    ColumnsOf(chunk, 0x40, 0x0F);
    ColumnsOf(chunk, 0x20, 0xCC);
    ColumnsOf(chunk, 0x10, 0x33);
    ColumnsOf(chunk, 0x08, 0xAA);
    ColumnsOf(chunk, 0x04, 0x55);
  }

  // ----- the layout

  /** The line byte interleaves the complements of four line parities and of their primes. */
  lemma {:induction false} LinesBits(l: bv8, p: bv8, j: nat)
    requires l < 16 && p < 16 && j < 4
    ensures Has(Complement(Lines(l, p)), Mask(2 * j + 1)) <==> !Has(l, Mask(j))
    ensures Has(Complement(Lines(l, p)), Mask(2 * j)) <==> !Has(p, Mask(j))
  {
    LineForm(l);
    LineForm(p);
    hide LineParity, LineParityPrime;
  }

  lemma {:induction false} HalfBits(x: bv8, j: nat)
    requires j < 4
    ensures Low(x) < 16 && High(x) < 16
    ensures Has(Low(x), Mask(j)) <==> Has(x, Mask(j))
    ensures Has(High(x), Mask(j)) <==> Has(x, Mask(4 + j))
  {
  }

  lemma {:induction false} ColumnLayout(c: bv8)
    ensures var e := Columns(Complement(c));
            (Has(e, 0x80) <==> !Has(c, 0x80)) && (Has(e, 0x40) <==> !Has(c, 0x40)) &&
            (Has(e, 0x20) <==> !Has(c, 0x20)) &&
            (Has(e, 0x10) <==> !Has(c, 0x10)) && (Has(e, 0x08) <==> !Has(c, 0x08)) &&
            (Has(e, 0x04) <==> !Has(c, 0x04)) &&
            Has(e, 0x02) && Has(e, 0x01)
  {
  }

  /** The bits of the ECC of a chunk. */
  lemma {:induction false} EccIs(chunk: Bytes)
    requires |chunk| <= 256
    ensures IsEcc(EccOf(chunk), chunk)
  {
    var a := AccOf(chunk);
    hide AccOf, Has, Mask, Lines, Low, High, Complement, Columns, OnesWhere, OnesUnder, Even;
    forall j | 0 <= j < 4
      ensures Has(EccOf(chunk).e0, Mask(2 * j + 1)) <==> Even(OnesWhere(chunk, 0 + j, true))
      ensures Has(EccOf(chunk).e0, Mask(2 * j)) <==> Even(OnesWhere(chunk, 0 + j, false))
      ensures Has(EccOf(chunk).e1, Mask(2 * j + 1)) <==> Even(OnesWhere(chunk, 4 + j, true))
      ensures Has(EccOf(chunk).e1, Mask(2 * j)) <==> Even(OnesWhere(chunk, 4 + j, false))
    {
      LineBitsOf(chunk, j);
      LineBitsOf(chunk, 4 + j);
      HalfBits(a.line, j);
      HalfBits(a.prime, j);
      LinesBits(Low(a.line), Low(a.prime), j);
      LinesBits(High(a.line), High(a.prime), j);
    }
    ColumnParityBits(chunk);
    ColumnLayout(a.col);
  }

  // ----- nothing else has these bits

  lemma {:induction false} SameBits(a: bv8, b: bv8)
    requires forall k :: 0 <= k < 8 ==> (Has(a, Mask(k)) <==> Has(b, Mask(k)))
    ensures a == b
  {
    assert Has(a, Mask(0)) <==> Has(b, Mask(0));
    assert Has(a, Mask(1)) <==> Has(b, Mask(1));
    assert Has(a, Mask(2)) <==> Has(b, Mask(2));
    assert Has(a, Mask(3)) <==> Has(b, Mask(3));
    assert Has(a, Mask(4)) <==> Has(b, Mask(4));
    assert Has(a, Mask(5)) <==> Has(b, Mask(5));
    assert Has(a, Mask(6)) <==> Has(b, Mask(6));
    assert Has(a, Mask(7)) <==> Has(b, Mask(7));
  }

  lemma {:induction false} OneLineByte(a: bv8, b: bv8, chunk: Bytes, first: nat)
    requires LineBits(a, chunk, first, 4) && LineBits(b, chunk, first, 4)
    ensures a == b
  {
    hide Has, Mask, OnesWhere, Even;
    forall k | 0 <= k < 8 ensures Has(a, Mask(k)) <==> Has(b, Mask(k)) {
      var j := k / 2;
      assert k == 2 * j || k == 2 * j + 1;
    }
    SameBits(a, b);
  }

  /** The bits leave one ECC for a chunk. */
  lemma {:induction false} OneEcc(e: Ecc3, f: Ecc3, chunk: Bytes)
    requires IsEcc(e, chunk) && IsEcc(f, chunk)
    ensures e == f
  {
    OneLineByte(e.e0, f.e0, chunk, 0);
    OneLineByte(e.e1, f.e1, chunk, 4);
    hide OnesUnder, Has, LineBits;
    forall k | 0 <= k < 8 ensures Has(e.e2, Mask(k)) <==> Has(f.e2, Mask(k)) {
    }
    SameBits(e.e2, f.e2);
  }

  /** A chunk of zeros. */
  lemma {:induction false} ZeroChunk(chunk: Bytes)
    requires |chunk| <= 256 && forall i :: 0 <= i < |chunk| ==> chunk[i] == 0
    ensures EccOf(chunk) == Ecc3(0xFF, 0xFF, 0xFF)
  {
    EccIs(chunk);
    NoOnes(chunk);
    AllOnes();
    AllEven(chunk);
    hide OnesWhere, OnesUnder, Has, Mask, EccOf, Even, LineBits;
    OneEcc(EccOf(chunk), Ecc3(0xFF, 0xFF, 0xFF), chunk);
  }

  lemma {:induction false} AllEven(chunk: Bytes)
    requires forall j: nat, digit :: OnesWhere(chunk, j, digit) == 0
    requires forall k :: Has(0xFF, Mask(k))
    ensures LineBits(0xFF, chunk, 0, 4) && LineBits(0xFF, chunk, 4, 4) && Even(0)
  {
    hide OnesWhere, Has, Mask;
  }

  lemma {:induction false} AllOnes()
    ensures forall k :: Has(0xFF, Mask(k))
    ensures Has(0xFF, 0x80) && Has(0xFF, 0x40) && Has(0xFF, 0x20) && Has(0xFF, 0x10) && Has(0xFF, 0x08) &&
            Has(0xFF, 0x04)
    ensures Has(0xFF, 0x02) && Has(0xFF, 0x01)
  {
  }

  lemma {:induction false} NoOnes(chunk: Bytes)
    requires forall i :: 0 <= i < |chunk| ==> chunk[i] == 0
    ensures forall j: nat, digit :: OnesWhere(chunk, j, digit) == 0
    ensures forall mask :: OnesUnder(chunk, mask) == 0
  {
    if chunk != [] {
      NoOnes(chunk[..|chunk| - 1]);
      assert OnesIn(0) == 0;
      assert forall mask :: Under(0, mask) == 0;
      hide OnesIn, Under, BitOf;
    }
  }
}

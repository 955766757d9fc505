/** The page ECC of uffs_ecc.c: three bytes per chunk of up to 256 bytes. One flipped bit per chunk and its ECC is
    restored; two are reported, or the data is right. */
module Ecc {
  import opened EccTables

  type Bytes = seq<bv8>

  // ----- parities of a chunk

  datatype Acc = Acc(col: bv8, line: bv8, prime: bv8)

  function XorAcc(a: Acc, b: Acc): Acc {
    Acc(Xor(a.col, b.col), Xor(a.line, b.line), Xor(a.prime, b.prime))
  }

  /** The byte with the value i, and the value of a byte. */
  function Index(i: nat): bv8
    requires i < 256
  {
    var h1 := Half(i);
    var h2 := Half(h1);
    var h3 := Half(h2);
    var h4 := Half(h3);
    var h5 := Half(h4);
    var h6 := Half(h5);
    FromBits(Odd(i), Odd(h1), Odd(h2), Odd(h3), Odd(h4), Odd(h5), Odd(h6), Odd(Half(h6)))
  }

  function Half(n: nat): nat {
    n / 2
  }

  predicate Odd(n: nat) {
    n % 2 == 1
  }

  function FromBits(b0: bool, b1: bool, b2: bool, b3: bool, b4: bool, b5: bool, b6: bool, b7: bool): bv8 {
    (if b0 then 1 else 0) | (if b1 then 2 else 0) | (if b2 then 4 else 0) | (if b3 then 8 else 0) |
    (if b4 then 16 else 0) | (if b5 then 32 else 0) | (if b6 then 64 else 0) | (if b7 then 128 else 0)
  }

  function Has(b: bv8, m: bv8): bool {
    b & m != 0
  }

  function Worth(b: bool, m: nat): nat {
    if b then m else 0
  }

  function ValueOf(b: bv8): nat {
    Worth(Has(b, 1), 1) + Worth(Has(b, 2), 2) + Worth(Has(b, 4), 4) + Worth(Has(b, 8), 8) +
    Worth(Has(b, 16), 16) + Worth(Has(b, 32), 32) + Worth(Has(b, 64), 64) + Worth(Has(b, 128), 128)
  }

  lemma {:induction false} BitsBack(b0: bool, b1: bool, b2: bool, b3: bool, b4: bool, b5: bool, b6: bool, b7: bool)
    ensures var b := FromBits(b0, b1, b2, b3, b4, b5, b6, b7);
            Has(b, 1) == b0 && Has(b, 2) == b1 && Has(b, 4) == b2 && Has(b, 8) == b3 &&
            Has(b, 16) == b4 && Has(b, 32) == b5 && Has(b, 64) == b6 && Has(b, 128) == b7
  {
  }

  /** One binary digit of n, worth w. */
  lemma {:induction false} Digit(n: nat, w: nat)
    requires w in {1, 2, 4, 8, 16, 32, 64, 128}
    ensures w * n == Worth(Odd(n), w) + 2 * w * Half(n)
  {
  }

  lemma {:induction false} HalfBelow(n: nat, m: nat)
    requires n < 2 * m
    ensures Half(n) < m
  {
  }

  lemma {:induction false} EightHalves(k: nat)
    requires k < 256
    ensures Half(Half(Half(Half(Half(Half(Half(Half(k)))))))) == 0
  {
    HalfBelow(k, 128);
    HalfBelow(Half(k), 64);
    hide Half;
    var h2 := Half(Half(k));
    HalfBelow(h2, 32);
    HalfBelow(Half(h2), 16);
    HalfBelow(Half(Half(h2)), 8);
    HalfBelow(Half(Half(Half(h2))), 4);
    HalfBelow(Half(Half(Half(Half(h2)))), 2);
    HalfBelow(Half(Half(Half(Half(Half(h2))))), 1);
  }

  lemma {:induction false} IndexBack(k: nat)
    requires k < 256
    ensures ValueOf(Index(k)) == k
  {
    hide Half, Odd, FromBits, Has, Worth;
    var h1 := Half(k);
    var h2 := Half(h1);
    var h3 := Half(h2);
    var h4 := Half(h3);
    var h5 := Half(h4);
    var h6 := Half(h5);
    var h7 := Half(h6);
    Digit(k, 1);
    Digit(h1, 2);
    Digit(h2, 4);
    Digit(h3, 8);
    Digit(h4, 16);
    Digit(h5, 32);
    Digit(h6, 64);
    Digit(h7, 128);
    EightHalves(k);
    BitsBack(Odd(k), Odd(h1), Odd(h2), Odd(h3), Odd(h4), Odd(h5), Odd(h6), Odd(h7));
  }

  /** What byte x at index i adds to the parities. */
  function Contribution(i: bv8, x: bv8): Acc {
    Acc(Column(x), IfOdd(Column(x), i), IfOdd(Column(x), Complement(i)))
  }

  function Complement(x: bv8): bv8 {
    !x
  }

  /** The lowest bit of a column entry is set for a byte with an odd number of bits. */
  function IfOdd(b: bv8, i: bv8): bv8 {
    if b & 0x01 == 1 then i else 0
  }

  function AccOf(chunk: Bytes): Acc
    requires |chunk| <= 256
  {
    if chunk == [] then Acc(0, 0, 0)
    else XorAcc(AccOf(chunk[..|chunk| - 1]), Contribution(Index(|chunk| - 1), chunk[|chunk| - 1]))
  }

  // ----- the stored ECC

  datatype Ecc3 = Ecc3(e0: bv8, e1: bv8, e2: bv8)

  function XorEcc(a: Ecc3, b: Ecc3): Ecc3 {
    Ecc3(Xor(a.e0, b.e0), Xor(a.e1, b.e1), Xor(a.e2, b.e2))
  }

  function Low(x: bv8): bv8 {
    x & 0xF
  }

  function High(x: bv8): bv8 {
    x >> 4
  }

  function Lines(l: bv8, p: bv8): bv8 {
    LineParity(l) | LineParityPrime(p)
  }

  function Columns(c: bv8): bv8 {
    c | 0x03
  }

  function Encode(a: Acc): Ecc3 {
    Ecc3(Complement(Lines(Low(a.line), Low(a.prime))), Complement(Lines(High(a.line), High(a.prime))),
         Columns(Complement(a.col)))
  }

  function EccOf(chunk: Bytes): Ecc3
    requires |chunk| <= 256
  {
    Encode(AccOf(chunk))
  }

  function ColumnDelta(c: bv8): bv8 {
    c & 0xFC
  }

  /** How the ECC changes when a contribution changes. */
  function Delta(c: Acc): Ecc3 {
    Ecc3(Lines(Low(c.line), Low(c.prime)), Lines(High(c.line), High(c.prime)), ColumnDelta(c.col))
  }

  lemma {:induction false} EncodeIsLinear(a: Acc, c: Acc)
    ensures Encode(XorAcc(a, c)) == XorEcc(Encode(a), Delta(c))
  {
    hide Xor, Low, High, Lines, Columns, Complement, ColumnDelta;
    Halves(a.line, c.line);
    Halves(a.prime, c.prime);
    LinesLinear(Low(a.line), Low(c.line), Low(a.prime), Low(c.prime));
    LinesLinear(High(a.line), High(c.line), High(a.prime), High(c.prime));
    ColumnBits(a.col, c.col);
  }

  lemma {:induction false} LinesLinear(a: bv8, c: bv8, p: bv8, q: bv8)
    requires a < 16 && c < 16 && p < 16 && q < 16
    ensures Complement(Lines(Xor(a, c), Xor(p, q))) == Xor(Complement(Lines(a, p)), Lines(c, q))
  {
    LineForm(a);
    LineForm(c);
    LineForm(a ^ c);
    LineForm(p);
    LineForm(q);
    LineForm(p ^ q);
    hide LineParity, LineParityPrime;
  }

  /** The tables spread four bits over the odd and over the even bits of a byte. */
  lemma {:induction false} LineForm(n: bv8)
    ensures n < 16 ==> LineParityPrime(n) == ((n & 1) | ((n & 2) << 1) | ((n & 4) << 2) | ((n & 8) << 3))
    ensures n < 16 ==> LineParity(n) == (((n & 1) | ((n & 2) << 1) | ((n & 4) << 2) | ((n & 8) << 3)) << 1)
  {
  }

  lemma {:induction false} Halves(a: bv8, c: bv8)
    ensures Low(Xor(a, c)) == Xor(Low(a), Low(c)) && High(Xor(a, c)) == Xor(High(a), High(c))
    ensures Low(a) < 16 && Low(c) < 16 && High(a) < 16 && High(c) < 16
  {
  }

  lemma {:induction false} ColumnBits(a: bv8, c: bv8)
    ensures Columns(Complement(Xor(a, c))) == Xor(Columns(Complement(a)), ColumnDelta(c))
  {
  }

  // ----- flipped bits

  predicate OneBit(m: bv8) {
    m == 1 || m == 2 || m == 4 || m == 8 || m == 16 || m == 32 || m == 64 || m == 128
  }

  function FlipAt(chunk: Bytes, k: nat, m: bv8): (r: Bytes)
    requires k < |chunk|
    ensures |r| == |chunk|
  {
    chunk[k := Xor(chunk[k], m)]
  }

  lemma {:induction false} ContributionLinear(i: bv8, x: bv8, m: bv8)
    ensures Contribution(i, Xor(x, m)) == XorAcc(Contribution(i, x), Contribution(i, m))
  {
    ColumnForm(x);
    ColumnForm(m);
    ColumnForm(Xor(x, m));
    hide Column, ColumnParities, Xor, IfOdd, Complement;
    ParitiesLinear(x, m);
    OddLinear(i, Column(x), Column(m));
    OddLinear(Complement(i), Column(x), Column(m));
  }

  lemma {:induction false} OddLinear(i: bv8, a: bv8, b: bv8)
    ensures IfOdd(Xor(a, b), i) == Xor(IfOdd(a, i), IfOdd(b, i))
  {
  }

  lemma {:induction false} XorAccMoves(a: Acc, b: Acc, c: Acc)
    ensures XorAcc(XorAcc(a, b), c) == XorAcc(XorAcc(a, c), b)
    ensures XorAcc(XorAcc(a, b), c) == XorAcc(a, XorAcc(b, c))
  {
    hide Xor;
    XorMoves(a.col, b.col, c.col);
    XorMoves(a.line, b.line, c.line);
    XorMoves(a.prime, b.prime, c.prime);
  }

  lemma {:induction false} FlipChangesAcc(chunk: Bytes, k: nat, m: bv8)
    requires k < |chunk| <= 256
    ensures AccOf(FlipAt(chunk, k, m)) == XorAcc(AccOf(chunk), Contribution(Index(k), m))
  {
    hide XorAcc, Contribution, Index, Xor;
    var n := |chunk| - 1;
    var flipped := FlipAt(chunk, k, m);
    if k == n {
      assert flipped[..n] == chunk[..n];
      ContributionLinear(Index(n), chunk[n], m);
      XorAccMoves(AccOf(chunk[..n]), Contribution(Index(n), chunk[n]), Contribution(Index(n), m));
    } else {
      assert flipped[..n] == FlipAt(chunk[..n], k, m);
      FlipChangesAcc(chunk[..n], k, m);
      XorAccMoves(AccOf(chunk[..n]), Contribution(Index(k), m), Contribution(Index(n), chunk[n]));
    }
  }

  // ----- correction of a chunk

  /** What the differences of stored and computed ECC say. */
  datatype Fix = NoError | DataBit(b: bv8, mask: bv8) | EccBit | Uncorrectable

  function MaskOf(bit: bv8): bv8 {
    if bit == 0 then 1 else if bit == 1 then 2 else if bit == 2 then 4 else if bit == 3 then 8
    else if bit == 4 then 16 else if bit == 5 then 32 else if bit == 6 then 64 else 128
  }

  function ErrorByte(d0: bv8, d1: bv8): bv8 {
    (if d1 & 0x80 != 0 then 0x80 else 0) | (if d1 & 0x20 != 0 then 0x40 else 0) |
    (if d1 & 0x08 != 0 then 0x20 else 0) | (if d1 & 0x02 != 0 then 0x10 else 0) |
    (if d0 & 0x80 != 0 then 0x08 else 0) | (if d0 & 0x20 != 0 then 0x04 else 0) |
    (if d0 & 0x08 != 0 then 0x02 else 0) | (if d0 & 0x02 != 0 then 0x01 else 0)
  }

  function ErrorBit(d2: bv8): bv8 {
    (if d2 & 0x80 != 0 then 0x04 else 0) | (if d2 & 0x20 != 0 then 0x02 else 0) | (if d2 & 0x08 != 0 then 0x01 else 0)
  }

  /** Of each of the pairs of parities selected by the mask exactly one differs. */
  predicate OneOfPairs(e: bv8, pairs: bv8) {
    (e ^ (e >> 1)) & pairs == pairs
  }

  predicate OneOfEachPair(d: Ecc3) {
    OneOfPairs(d.e0, 0x55) && OneOfPairs(d.e1, 0x55) && OneOfPairs(d.e2, 0x54)
  }

  function Or3(a: bv8, b: bv8, c: bv8): bv8 {
    a | b | c
  }

  function CountAll(d: Ecc3): bv8 {
    BitCount(d.e0) + BitCount(d.e1) + BitCount(d.e2)
  }

  function FixOf(d: Ecc3): Fix {
    if Or3(d.e0, d.e1, d.e2) == 0 then NoError
    else if OneOfEachPair(d) then DataBit(ErrorByte(d.e0, d.e1), MaskOf(ErrorBit(d.e2)))
    else if CountAll(d) == 1 then EccBit
    else Uncorrectable
  }

  // ----- what the differences are for one or two flipped bits

  /** The ECC differences for a flipped bit in the data: the mask at the index. */
  function DataDelta(i: bv8, m: bv8): Ecc3 {
    Delta(Contribution(i, m))
  }

  predicate OneEccBit(e: Ecc3) {
    (OneBit(e.e0) && e.e1 == 0 && e.e2 == 0) || (e.e0 == 0 && OneBit(e.e1) && e.e2 == 0) ||
    (e.e0 == 0 && e.e1 == 0 && OneBit(e.e2))
  }

  /** The lines that differ are the bits of the index, and their complements. */
  predicate LineSyndrome(e0: bv8, e1: bv8, i: bv8) {
    OneOfPairs(e0, 0x55) && OneOfPairs(e1, 0x55) && Ones(e0) == 4 && Ones(e1) == 4 &&
    ErrorByte(e0, e1) == i
  }

  lemma {:induction false} LinesOfIndex(i: bv8)
    ensures LineSyndrome(Lines(Low(i), Low(Complement(i))), Lines(High(i), High(Complement(i))), i)
  {
    LineForm(Low(i));
    LineForm(High(i));
    LineForm(Low(Complement(i)));
    LineForm(High(Complement(i)));
    hide LineParity, LineParityPrime;
  }

  predicate ColumnSyndrome(e2: bv8, m: bv8) {
    OneOfPairs(e2, 0x54) && Ones(e2) == 3 && e2 & 3 == 0 && MaskOf(ErrorBit(e2)) == m
  }

  lemma {:induction false} ColumnsOfBit(m: bv8)
    requires OneBit(m)
    ensures ColumnSyndrome(ColumnDelta(Column(m)), m)
    ensures forall i :: IfOdd(Column(m), i) == i
  {
    ColumnForm(m);
    hide Column;
  }

  lemma {:induction false} DataDeltaIs(i: bv8, m: bv8)
    requires OneBit(m)
    ensures var d := DataDelta(i, m); LineSyndrome(d.e0, d.e1, i) && ColumnSyndrome(d.e2, m)
  {
    hide Column, IfOdd, Lines, Low, High, Complement, ColumnDelta, LineSyndrome, ColumnSyndrome;
    LinesOfIndex(i);
    ColumnsOfBit(m);
  }

  /** One flipped data bit is found. */
  lemma {:induction false} OneDataBit(i: bv8, m: bv8)
    requires OneBit(m)
    ensures FixOf(DataDelta(i, m)) == DataBit(i, m)
  {
    DataDeltaIs(i, m);
    hide DataDelta;
    var d := DataDelta(i, m);
    SomeOnes(d.e0);
    hide Ones, OneOfPairs, ErrorByte, ErrorBit, MaskOf, CountAll;
    OrNotZero(d.e0, d.e1, d.e2);
    hide Or3;
  }

  lemma {:induction false} SomeOnes(x: bv8)
    ensures Ones(x) != 0 <==> x != 0
  {
  }

  lemma {:induction false} OrNotZero(a: bv8, b: bv8, c: bv8)
    ensures Or3(a, b, c) == 0 <==> a == 0 && b == 0 && c == 0
  {
  }

  /** One flipped ECC bit is told apart. */
  lemma {:induction false} OneBitOfEcc(e: Ecc3)
    requires OneEccBit(e)
    ensures FixOf(e) == EccBit
  {
    BitCountForm(e.e0);
    BitCountForm(e.e1);
    BitCountForm(e.e2);
    hide BitCount, ErrorByte, ErrorBit, MaskOf;
  }

  /** Two flipped ECC bits are not mistaken. */
  lemma {:induction false} TwoBitsOfEcc(e: Ecc3, f: Ecc3)
    requires OneEccBit(e) && OneEccBit(f) && e != f
    ensures FixOf(XorEcc(e, f)) == Uncorrectable
  {
    var d := XorEcc(e, f);
    BitCountForm(d.e0);
    BitCountForm(d.e1);
    BitCountForm(d.e2);
    hide BitCount, ErrorByte, ErrorBit, MaskOf;
  }

  /** In each pair both differ, or neither: an even number of differences. */
  lemma {:induction false} EvenPairs(a: bv8, b: bv8, pairs: bv8)
    requires OneOfPairs(a, pairs) && OneOfPairs(b, pairs)
    requires pairs == 0x55 || (pairs == 0x54 && a & 3 == 0 && b & 3 == 0)
    ensures !OneOfPairs(Xor(a, b), pairs) && Ones(Xor(a, b)) & 1 == 0
  {
  }

  lemma {:induction false} EvenSum(a: bv8, b: bv8, c: bv8)
    requires a & 1 == 0 && b & 1 == 0 && c & 1 == 0
    ensures a + b + c != 1
  {
  }

  /** Two flipped data bits are not mistaken. */
  lemma {:induction false} TwoDataBits(i: bv8, m: bv8, j: bv8, n: bv8)
    requires OneBit(m) && OneBit(n) && (i != j || m != n)
    ensures FixOf(XorEcc(DataDelta(i, m), DataDelta(j, n))) == Uncorrectable
  {
    var a, b := DataDelta(i, m), DataDelta(j, n);
    DataDeltaIs(i, m);
    DataDeltaIs(j, n);
    hide DataDelta;
    var d := XorEcc(a, b);
    EvenPairs(a.e0, b.e0, 0x55);
    EvenPairs(a.e1, b.e1, 0x55);
    EvenPairs(a.e2, b.e2, 0x54);
    BitCountForm(d.e0);
    BitCountForm(d.e1);
    BitCountForm(d.e2);
    XorZero(a.e0, b.e0);
    XorZero(a.e1, b.e1);
    XorZero(a.e2, b.e2);
    OrNotZero(d.e0, d.e1, d.e2);
    hide Ones, BitCount, OneOfPairs, ErrorByte, ErrorBit, MaskOf, Xor, Or3;
    EvenSum(BitCount(d.e0), BitCount(d.e1), BitCount(d.e2));
  }

  lemma {:induction false} XorZero(a: bv8, b: bv8)
    ensures Xor(a, b) == 0 <==> a == b
  {
  }

  /** A flipped data bit and a flipped ECC bit are not mistaken; the two unused ECC bits do no harm. */
  lemma {:induction false} DataAndEccBit(i: bv8, m: bv8, e: Ecc3)
    requires OneBit(m) && OneEccBit(e)
    ensures FixOf(XorEcc(DataDelta(i, m), e)) in {DataBit(i, m), Uncorrectable}
  {
    var a := DataDelta(i, m);
    DataDeltaIs(i, m);
    XorNothing(a.e0);
    XorNothing(a.e1);
    XorNothing(a.e2);
    hide DataDelta, Xor, FixOf, LineSyndrome, ColumnSyndrome, OneBit;
    if e.e0 != 0 {
      LineBitFlipped(a, i, m, e.e0, 0);
    } else if e.e1 != 0 {
      LineBitFlipped(a, i, m, 0, e.e1);
    } else {
      ColumnBitFlipped(a, i, m, e.e2);
    }
  }

  lemma {:induction false} LineBitFlipped(a: Ecc3, i: bv8, m: bv8, x: bv8, y: bv8)
    requires LineSyndrome(a.e0, a.e1, i) && ColumnSyndrome(a.e2, m)
    requires (OneBit(x) && y == 0) || (x == 0 && OneBit(y))
    ensures FixOf(Ecc3(Xor(a.e0, x), Xor(a.e1, y), a.e2)) == Uncorrectable
  {
    var d := Ecc3(Xor(a.e0, x), Xor(a.e1, y), a.e2);
    hide MaskOf, ErrorBit, ErrorByte, BitCount;
    OneMoreBit(a.e0, x, 4, 0x55);
    OneMoreBit(a.e1, y, 4, 0x55);
    XorNothing(a.e0);
    XorNothing(a.e1);
    hide OneBit, Xor, OneOfPairs;
    ManyOnes(d);
    hide Ones, CountAll, Or3;
  }

  lemma {:induction false} ColumnBitFlipped(a: Ecc3, i: bv8, m: bv8, x: bv8)
    requires LineSyndrome(a.e0, a.e1, i) && ColumnSyndrome(a.e2, m) && OneBit(x)
    ensures FixOf(Ecc3(a.e0, a.e1, Xor(a.e2, x))) in {DataBit(i, m), Uncorrectable}
  {
    var d := Ecc3(a.e0, a.e1, Xor(a.e2, x));
    hide MaskOf, ErrorByte, BitCount;
    OneMoreBit(a.e2, x, 3, 0x54);
    if x == 1 || x == 2 {
      UnusedBits(a.e2, x);
    }
    OneBitAbove(x);
    hide OneBit, Xor, OneOfPairs, ErrorBit;
    ManyOnes(d);
    hide Ones, CountAll, Or3;
  }

  lemma {:induction false} OneBitAbove(x: bv8)
    requires OneBit(x)
    ensures x == 1 || x == 2 || x > 2
  {
  }

  lemma {:induction false} ManyOnes(d: Ecc3)
    requires 3 <= Ones(d.e0) <= 5 && 3 <= Ones(d.e1) <= 5 && 2 <= Ones(d.e2) <= 4
    ensures CountAll(d) != 1 && Or3(d.e0, d.e1, d.e2) != 0
  {
    BitCountForm(d.e0);
    BitCountForm(d.e1);
    BitCountForm(d.e2);
    SomeOnes(d.e0);
    OrNotZero(d.e0, d.e1, d.e2);
    hide Ones, BitCount, Or3;
    CountNotOne(BitCount(d.e0), BitCount(d.e1), BitCount(d.e2));
  }

  lemma {:induction false} CountNotOne(a: bv8, b: bv8, c: bv8)
    requires 3 <= a <= 5 && 3 <= b <= 5 && 2 <= c <= 4
    ensures a + b + c != 1
  {
  }

  lemma {:induction false} XorNothing(a: bv8)
    ensures Xor(a, 0) == a
  {
  }

  lemma {:induction false} OneMoreBit(a: bv8, e: bv8, n: bv8, pairs: bv8)
    requires OneOfPairs(a, pairs) && Ones(a) == n && 3 <= n <= 4 && (pairs == 0x55 || pairs == 0x54)
    ensures OneBit(e) ==> n - 1 <= Ones(Xor(a, e)) <= n + 1
    ensures OneBit(e) && (pairs == 0x55 || e > 2) ==> !OneOfPairs(Xor(a, e), pairs)
  {
  }

  lemma {:induction false} UnusedBits(a: bv8, e: bv8)
    requires e == 1 || e == 2
    ensures ErrorBit(Xor(a, e)) == ErrorBit(a) && OneOfPairs(Xor(a, e), 0x54) == OneOfPairs(a, 0x54)
  {
  }
}

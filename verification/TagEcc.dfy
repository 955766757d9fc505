/** The 12-bit ECC of a page tag: the tag is stored in eight bytes, 52 bits of payload and the ECC on top. One
    flipped bit is restored; two are reported, or the payload is right. */
module TagEcc {
  import opened EccTables
  import opened Ecc
  import opened EccBits
  import opened EccPages

  // ----- twelve bits: six line parities, six column parities

  function Rows(e: bv16): bv8 {
    ((e >> 6) & 0x3F) as bv8
  }

  function Cols(e: bv16): bv8 {
    (e & 0x3F) as bv8
  }

  function Pack(rows: bv8, cols: bv8): bv16 {
    ((rows as bv16) << 6) | (cols as bv16)
  }

  function Six(x: bv8): bv8 {
    x & 0x3F
  }

  function Upper(x: bv8): bv8 {
    (x >> 2) & 0x3F
  }

  datatype Ecc8 = Ecc8(rows: bv8, cols: bv8)

  function XorEcc8(a: Ecc8, b: Ecc8): Ecc8 {
    Ecc8(Xor(a.rows, b.rows), Xor(a.cols, b.cols))
  }

  function Encode8(a: Acc): Ecc8 {
    Ecc8(Six(Complement(Lines(Low(a.line), Low(a.prime)))), Upper(Complement(a.col)))
  }

  function Delta8(c: Acc): Ecc8 {
    Ecc8(Six(Lines(Low(c.line), Low(c.prime))), Upper(c.col))
  }

  lemma {:induction false} PackBack(e: Ecc8)
    requires e.rows < 64 && e.cols < 64
    ensures Rows(Pack(e.rows, e.cols)) == e.rows && Cols(Pack(e.rows, e.cols)) == e.cols &&
            Pack(e.rows, e.cols) < 0x1000
  {
  }

  lemma {:induction false} EncodedSize(a: Acc)
    ensures Encode8(a).rows < 64 && Encode8(a).cols < 64
  {
  }

  lemma {:induction false} SixLinear(a: bv8, b: bv8)
    ensures Six(Xor(a, b)) == Xor(Six(a), Six(b)) && Upper(Xor(a, b)) == Xor(Upper(a), Upper(b))
    ensures Upper(Complement(Xor(a, b))) == Xor(Upper(Complement(a)), Upper(b))
  {
  }

  lemma {:induction false} Encode8IsLinear(a: Acc, c: Acc)
    ensures Encode8(XorAcc(a, c)) == XorEcc8(Encode8(a), Delta8(c))
  {
    hide Xor, Low, High, Lines, Complement, Six, Upper;
    Halves(a.line, c.line);
    Halves(a.prime, c.prime);
    LinesLinear(Low(a.line), Low(c.line), Low(a.prime), Low(c.prime));
    SixLinear(Complement(Lines(Low(a.line), Low(a.prime))), Lines(Low(c.line), Low(c.prime)));
    SixLinear(a.col, c.col);
  }

  /** Of the twelve bits, the upper six are the complements of the parities of the bytes whose index has a binary digit,
      or has it not, the lower six those of the columns. */
  ghost predicate IsEcc8(ecc: bv16, data: Bytes) {
    && ecc < 0x1000 && LineBits(Rows(ecc), data, 0, 3)
    && (Has(Cols(ecc), 0x20) <==> Even(OnesUnder(data, 0xF0)))
    && (Has(Cols(ecc), 0x10) <==> Even(OnesUnder(data, 0x0F)))
    && (Has(Cols(ecc), 0x08) <==> Even(OnesUnder(data, 0xCC)))
    && (Has(Cols(ecc), 0x04) <==> Even(OnesUnder(data, 0x33)))
    && (Has(Cols(ecc), 0x02) <==> Even(OnesUnder(data, 0xAA)))
    && (Has(Cols(ecc), 0x01) <==> Even(OnesUnder(data, 0x55)))
  }

  lemma {:induction false} SixBits(x: bv8, j: nat)
    requires j < 3
    ensures Has(Six(x), Mask(2 * j + 1)) <==> Has(x, Mask(2 * j + 1))
    ensures Has(Six(x), Mask(2 * j)) <==> Has(x, Mask(2 * j))
  {
  }

  lemma {:induction false} UpperBits(c: bv8)
    ensures var e := Upper(Complement(c));
            (Has(e, 0x20) <==> !Has(c, 0x80)) && (Has(e, 0x10) <==> !Has(c, 0x40)) &&
            (Has(e, 0x08) <==> !Has(c, 0x20)) &&
            (Has(e, 0x04) <==> !Has(c, 0x10)) && (Has(e, 0x02) <==> !Has(c, 0x08)) && (Has(e, 0x01) <==> !Has(c, 0x04))
  {
  }

  lemma {:induction false} Ecc8Is(data: Bytes)
    requires |data| <= 8
    ensures var e := Encode8(AccOf(data)); IsEcc8(Pack(e.rows, e.cols), data)
  {
    hide *;
    var a := AccOf(data);
    Encode8Is(a);
    EncodedSize(a);
    PackBack(Encode8(a));
    forall j | 0 <= j < 3
      ensures Has(Encode8(a).rows, Mask(2 * j + 1)) <==> Even(OnesWhere(data, j, true))
      ensures Has(Encode8(a).rows, Mask(2 * j)) <==> Even(OnesWhere(data, j, false))
    {
      LineBitsOf(data, j);
      HalfBits(a.line, j);
      HalfBits(a.prime, j);
      LinesBits(Low(a.line), Low(a.prime), j);
      SixBits(Complement(Lines(Low(a.line), Low(a.prime))), j);
    }
    ColumnParityBits(data);
    UpperBits(a.col);
    Ecc8Bits(Pack(Encode8(a).rows, Encode8(a).cols), data);
  }

  lemma {:induction false} Encode8Is(a: Acc)
    ensures Encode8(a) == Ecc8(Six(Complement(Lines(Low(a.line), Low(a.prime)))), Upper(Complement(a.col)))
  {
  }

  lemma {:induction false} Ecc8Bits(ecc: bv16, data: Bytes)
    requires ecc < 0x1000
    requires forall j :: 0 <= j < 3 ==>
               (Has(Rows(ecc), Mask(2 * j + 1)) <==> Even(OnesWhere(data, j, true))) &&
               (Has(Rows(ecc), Mask(2 * j)) <==> Even(OnesWhere(data, j, false)))
    requires (Has(Cols(ecc), 0x20) <==> Even(OnesUnder(data, 0xF0))) &&
             (Has(Cols(ecc), 0x10) <==> Even(OnesUnder(data, 0x0F)))
    requires (Has(Cols(ecc), 0x08) <==> Even(OnesUnder(data, 0xCC))) &&
             (Has(Cols(ecc), 0x04) <==> Even(OnesUnder(data, 0x33)))
    requires (Has(Cols(ecc), 0x02) <==> Even(OnesUnder(data, 0xAA))) &&
             (Has(Cols(ecc), 0x01) <==> Even(OnesUnder(data, 0x55)))
    ensures IsEcc8(ecc, data)
  {
    hide Has, Rows, Cols, Mask, OnesWhere, OnesUnder, Even;
  }

  /** The ECC of up to eight bytes. */
  method EccMake8(data: Bytes) returns (ecc: bv16)
    ensures IsEcc8(ecc, if |data| > 8 then data[..8] else data)
    ensures var e := Encode8(AccOf(if |data| > 8 then data[..8] else data));
            ecc == Pack(e.rows, e.cols)
  {
    hide Xor, Column, Complement, Low, High, Lines, Six, Upper, Pack, IsEcc8;
    var len := if |data| > 8 then 8 else |data|;
    var colParity: bv8, lineParity: bv8, lineParityPrime: bv8 := 0, 0, 0;
    for i := 0 to len
      invariant Acc(colParity, lineParity, lineParityPrime) == AccOf(data[..i])
    {
      assert data[..i + 1][..i] == data[..i];
      AddByte(colParity, lineParity, lineParityPrime, Index(i), data[i]);
      var b := Column(data[i]);
      colParity := Xor(colParity, b);
      if b & 0x01 == 1 {
        lineParity := Xor(lineParity, Index(i));
        lineParityPrime := Xor(lineParityPrime, Complement(Index(i)));
      }
    }
    assert |data| <= 8 ==> data[..len] == data;
    ecc := Pack(Six(Complement(Lines(Low(lineParity), Low(lineParityPrime)))), Upper(Complement(colParity)));
    Ecc8Is(if |data| > 8 then data[..8] else data);
  }

  // ----- correction

  function ErrorByte8(d0: bv8): bv8 {
    (if d0 & 0x20 != 0 then 0x04 else 0) | (if d0 & 0x08 != 0 then 0x02 else 0) | (if d0 & 0x02 != 0 then 0x01 else 0)
  }

  predicate OneOfEachPair8(d: Ecc8) {
    OneOfPairs(d.rows, 0x15) && OneOfPairs(d.cols, 0x15)
  }

  function CountAll8(d: Ecc8): bv8 {
    BitCount(d.rows) + BitCount(d.cols)
  }

  function Fix8Of(d: Ecc8): Fix {
    if Or3(d.rows, d.cols, 0) == 0 then NoError
    else if OneOfEachPair8(d) then DataBit(ErrorByte8(d.rows), MaskOf(ErrorByte8(d.cols)))
    else if CountAll8(d) == 1 then EccBit
    else Uncorrectable
  }

  predicate OneEccBit8(e: Ecc8) {
    (OneBit(e.rows) && e.rows < 64 && e.cols == 0) || (e.rows == 0 && OneBit(e.cols) && e.cols < 64)
  }

  function DataDelta8(i: bv8, m: bv8): Ecc8 {
    Delta8(Contribution(i, m))
  }

  predicate RowSyndrome(e: bv8, i: bv8) {
    OneOfPairs(e, 0x15) && Ones(e) == 3 && e < 64 && ErrorByte8(e) == i
  }

  predicate ColSyndrome(e: bv8, m: bv8) {
    OneOfPairs(e, 0x15) && Ones(e) == 3 && e < 64 && MaskOf(ErrorByte8(e)) == m
  }

  lemma {:induction false} RowsOfIndex(i: bv8)
    requires i < 8
    ensures RowSyndrome(Six(Lines(Low(i), Low(Complement(i)))), i)
  {
    LineForm(Low(i));
    LineForm(Low(Complement(i)));
    hide LineParity, LineParityPrime;
  }

  lemma {:induction false} ColsOfBit(m: bv8)
    requires OneBit(m)
    ensures ColSyndrome(Upper(Column(m)), m)
    ensures forall i :: IfOdd(Column(m), i) == i
  {
    ColumnForm(m);
    hide Column;
  }

  lemma {:induction false} DataDelta8Is(i: bv8, m: bv8)
    requires i < 8 && OneBit(m)
    ensures var d := DataDelta8(i, m); RowSyndrome(d.rows, i) && ColSyndrome(d.cols, m)
  {
    hide Column, IfOdd, Lines, Low, High, Complement, Six, Upper, RowSyndrome, ColSyndrome;
    RowsOfIndex(i);
    ColsOfBit(m);
  }

  lemma {:induction false} OneDataBit8(i: bv8, m: bv8)
    requires i < 8 && OneBit(m)
    ensures Fix8Of(DataDelta8(i, m)) == DataBit(i, m)
  {
    DataDelta8Is(i, m);
    hide DataDelta8;
    var d := DataDelta8(i, m);
    SomeOnes(d.rows);
    hide Ones, OneOfPairs, ErrorByte8, MaskOf, CountAll8;
    OrNotZero(d.rows, d.cols, 0);
    hide Or3;
  }

  lemma {:induction false} OneBitOfEcc8(e: Ecc8)
    requires OneEccBit8(e)
    ensures Fix8Of(e) == EccBit
  {
    BitCountForm(e.rows);
    BitCountForm(e.cols);
    hide BitCount, ErrorByte8, MaskOf;
  }

  lemma {:induction false} TwoBitsOfEcc8(e: Ecc8, f: Ecc8)
    requires OneEccBit8(e) && OneEccBit8(f) && e != f
    ensures Fix8Of(XorEcc8(e, f)) == Uncorrectable
  {
    var d := XorEcc8(e, f);
    BitCountForm(d.rows);
    BitCountForm(d.cols);
    hide BitCount, ErrorByte8, MaskOf;
  }

  lemma {:induction false} EvenPairs8(a: bv8, b: bv8)
    requires OneOfPairs(a, 0x15) && OneOfPairs(b, 0x15) && a < 64 && b < 64
    ensures !OneOfPairs(Xor(a, b), 0x15) && Ones(Xor(a, b)) & 1 == 0
  {
  }

  lemma {:induction false} TwoDataBits8(i: bv8, m: bv8, j: bv8, n: bv8)
    requires i < 8 && j < 8 && OneBit(m) && OneBit(n) && (i != j || m != n)
    ensures Fix8Of(XorEcc8(DataDelta8(i, m), DataDelta8(j, n))) == Uncorrectable
  {
    var a, b := DataDelta8(i, m), DataDelta8(j, n);
    DataDelta8Is(i, m);
    DataDelta8Is(j, n);
    hide DataDelta8;
    var d := XorEcc8(a, b);
    EvenPairs8(a.rows, b.rows);
    EvenPairs8(a.cols, b.cols);
    BitCountForm(d.rows);
    BitCountForm(d.cols);
    XorZero(a.rows, b.rows);
    XorZero(a.cols, b.cols);
    OrNotZero(d.rows, d.cols, 0);
    hide Ones, BitCount, OneOfPairs, ErrorByte8, MaskOf, Xor, Or3;
    EvenSum2(BitCount(d.rows), BitCount(d.cols));
  }

  lemma {:induction false} EvenSum2(a: bv8, b: bv8)
    requires a & 1 == 0 && b & 1 == 0
    ensures a + b != 1
  {
  }

  /** A flipped payload bit and a flipped ECC bit: reported. */
  lemma {:induction false} DataAndEccBit8(i: bv8, m: bv8, e: Ecc8)
    requires i < 8 && OneBit(m) && OneEccBit8(e)
    ensures Fix8Of(XorEcc8(DataDelta8(i, m), e)) == Uncorrectable
  {
    var a := DataDelta8(i, m);
    DataDelta8Is(i, m);
    XorNothing(a.rows);
    XorNothing(a.cols);
    hide DataDelta8, Fix8Of, ErrorByte8, MaskOf, Xor, OneBit;
    var d := XorEcc8(a, e);
    if e.rows != 0 {
      OneMoreBit8(a.rows, e.rows);
    } else {
      OneMoreBit8(a.cols, e.cols);
    }
    ManyOnes8(d);
  }

  lemma {:induction false} OneMoreBit8(a: bv8, e: bv8)
    requires OneOfPairs(a, 0x15) && Ones(a) == 3 && a < 64 && OneBit(e) && e < 64
    ensures 2 <= Ones(Xor(a, e)) <= 4 && !OneOfPairs(Xor(a, e), 0x15)
  {
  }

  lemma {:induction false} ManyOnes8(d: Ecc8)
    requires 2 <= Ones(d.rows) <= 4 && 2 <= Ones(d.cols) <= 4 && !OneOfEachPair8(d)
    ensures Fix8Of(d) == Uncorrectable
  {
    BitCountForm(d.rows);
    BitCountForm(d.cols);
    SomeOnes(d.rows);
    OrNotZero(d.rows, d.cols, 0);
    hide Ones, BitCount, Or3, OneOfPairs, ErrorByte8, MaskOf;
    CountNotOne2(BitCount(d.rows), BitCount(d.cols));
  }

  lemma {:induction false} CountNotOne2(a: bv8, b: bv8)
    requires 2 <= a <= 4 && 2 <= b <= 4
    ensures a + b != 1
  {
  }

  /** Correct up to eight bytes: -1, or the number of bits corrected. */
  function Correct8(data: Bytes, read: bv16, test: bv16, errTop: nat): (r: (int, Bytes))
    requires errTop <= |data|
    ensures |r.1| == |data| && -1 <= r.0 <= 1
  {
    match Fix8Of(XorEcc8(Ecc8(Rows(read), Cols(read)), Ecc8(Rows(test), Cols(test))))
    case NoError => (0, data)
    case DataBit(b, m) => if ValueOf(b) >= errTop then (-1, data) else (1, FlipAt(data, ValueOf(b), m))
    case EccBit => (1, data)
    case Uncorrectable => (-1, data)
  }

  method EccCorrect8(data: array<bv8>, read: bv16, test: bv16, errTop: nat) returns (ret: int)
    requires errTop <= data.Length
    modifies data
    ensures (ret, data[..]) == Correct8(old(data[..]), read, test, errTop)
  {
    hide Rows, Cols, XorEcc8, OneOfEachPair8, ErrorByte8, MaskOf, CountAll8, Or3, Xor;
    var d := XorEcc8(Ecc8(Rows(read), Cols(read)), Ecc8(Rows(test), Cols(test)));
    if Or3(d.rows, d.cols, 0) == 0 {
      return 0;
    }
    if OneOfEachPair8(d) {
      var b := ErrorByte8(d.rows);
      var bit := ErrorByte8(d.cols);
      if ValueOf(b) >= errTop {
        return -1;
      }
      ghost var before := data[..];
      var k: nat := ValueOf(b);
      data[k] := Xor(data[k], MaskOf(bit));
      assert data[..] == FlipAt(before, k, MaskOf(bit));
      return 1;
    }
    if CountAll8(d) == 1 {
      return 1;
    }
    return -1;
  }

  // ----- the stored tag: eight bytes, the ECC in the upper twelve bits

  function EccField(b6: bv8, b7: bv8): bv16 {
    ((b7 as bv16) << 4) | ((b6 as bv16) >> 4)
  }

  function Nibble(b: bv8): bv8 {
    b & 0x0F
  }

  function Byte6(b6: bv8, ecc: bv16): bv8 {
    (b6 & 0x0F) | ((ecc & 0x0F) << 4) as bv8
  }

  function Byte7(ecc: bv16): bv8 {
    ((ecc >> 4) & 0xFF) as bv8
  }

  function WithEcc(t: Bytes, ecc: bv16): (r: Bytes)
    requires |t| == 8
    ensures |r| == 8
  {
    t[..6] + [Byte6(t[6], ecc), Byte7(ecc)]
  }

  /** All bits of the tag but the ECC. */
  function Payload(t: Bytes): Bytes
    requires |t| == 8
  {
    t[..6] + [Nibble(t[6])]
  }

  const NO_ECC: bv16 := 0xFFF

  function Blank(t: Bytes): (r: Bytes)
    requires |t| == 8
    ensures |r| == 8
  {
    WithEcc(t, NO_ECC)
  }

  /** The tag with its ECC. */
  function Sealed(t: Bytes): (r: Bytes)
    requires |t| == 8
    ensures |r| == 8
  {
    var e := Encode8(AccOf(Blank(t)));
    WithEcc(t, Pack(e.rows, e.cols))
  }

  /** Outcome of correcting a tag: -1, or the number of bits corrected, and the tag. */
  function Corrected(t: Bytes): (r: (int, Bytes))
    requires |t| == 8
    ensures |r.1| == 8
  {
    var store := EccField(t[6], t[7]);
    var e := Encode8(AccOf(Blank(t)));
    var c := Correct8(Blank(t), Pack(e.rows, e.cols), store, 8);
    (c.0, WithEcc(c.1, store))
  }

  class TagStore {
    const bytes: array<bv8>

    ghost predicate Valid() {
      bytes.Length == 8
    }

    constructor (bytes: array<bv8>)
      requires bytes.Length == 8
      ensures Valid() && this.bytes == bytes
    {
      this.bytes := bytes;
    }

    method SetEcc(ecc: bv16)
      requires Valid()
      modifies bytes
      ensures bytes[..] == WithEcc(old(bytes[..]), ecc)
    {
      hide Byte6, Byte7;
      bytes[6] := Byte6(bytes[6], ecc);
      bytes[7] := Byte7(ecc);
    }

    method TagMakeEcc()
      requires Valid()
      modifies bytes
      ensures bytes[..] == Sealed(old(bytes[..]))
    {
      hide Byte6, Byte7, Encode8, AccOf, Pack;
      ghost var t := bytes[..];
      SetEcc(NO_ECC);
      var ecc := EccMake8(bytes[..]);
      Byte6Keeps(t[6], NO_ECC, ecc);
      SetEcc(ecc);
    }

    method TagEccCorrect() returns (ret: int)
      requires Valid()
      modifies bytes
      ensures (ret, bytes[..]) == Corrected(old(bytes[..]))
    {
      hide Byte6, Byte7, Encode8, AccOf, Pack, EccField, Correct8;
      var store := EccField(bytes[6], bytes[7]);
      SetEcc(NO_ECC);
      var read := EccMake8(bytes[..]);
      ret := EccCorrect8(bytes, read, store, 8);
      SetEcc(store);
    }
  }

  lemma {:induction false} Byte6Keeps(b6: bv8, a: bv16, b: bv16)
    ensures Byte6(Byte6(b6, a), b) == Byte6(b6, b) && Nibble(Byte6(b6, a)) == Nibble(b6)
  {
  }

  lemma {:induction false} FieldBack(b6: bv8, ecc: bv16)
    requires ecc < 0x1000
    ensures EccField(Byte6(b6, ecc), Byte7(ecc)) == ecc
  {
  }

  function RowPart(b7: bv8): bv8 {
    b7 >> 2
  }

  function ColPart(b6: bv8, b7: bv8): bv8 {
    ((b7 & 3) << 4) | (b6 >> 4)
  }

  lemma {:induction false} FieldParts(b6: bv8, b7: bv8)
    ensures Rows(EccField(b6, b7)) == RowPart(b7) && Cols(EccField(b6, b7)) == ColPart(b6, b7)
  {
  }

  // ----- flipped bits of a stored tag

  /** Bit m of byte k is a payload bit. */
  predicate InPayload(k: nat, m: bv8) {
    k < 6 || (k == 6 && m < 16)
  }

  /** What flipping an ECC bit changes in the stored ECC. */
  function EccFlip(k: nat, m: bv8): Ecc8 {
    if k == 7 then Ecc8(RowPart(m), ColPart(0, m)) else Ecc8(0, ColPart(m, 0))
  }

  lemma {:induction false} EccFlipIs(b6: bv8, b7: bv8, m: bv8)
    requires OneBit(m)
    ensures OneEccBit8(EccFlip(7, m)) && (m >= 16 ==> OneEccBit8(EccFlip(6, m)))
    ensures RowPart(Xor(b7, m)) == Xor(RowPart(b7), RowPart(m))
    ensures ColPart(b6, Xor(b7, m)) == Xor(ColPart(b6, b7), ColPart(0, m))
    ensures ColPart(Xor(b6, m), b7) == Xor(ColPart(b6, b7), ColPart(m, 0))
  {
    OneFieldBit(m);
    RowLinear(b7, m);
    Col7Linear(b6, b7, m);
    Col6Linear(b6, b7, m);
    hide OneBit, OneEccBit8, RowPart, ColPart, Xor;
  }

  lemma {:induction false} OneFieldBit(m: bv8)
    requires OneBit(m)
    ensures OneEccBit8(EccFlip(7, m)) && (m >= 16 ==> OneEccBit8(EccFlip(6, m)))
  {
  }

  lemma {:induction false} RowLinear(b7: bv8, m: bv8)
    ensures RowPart(Xor(b7, m)) == Xor(RowPart(b7), RowPart(m))
  {
  }

  lemma {:induction false} Col7Linear(b6: bv8, b7: bv8, m: bv8)
    ensures ColPart(b6, Xor(b7, m)) == Xor(ColPart(b6, b7), ColPart(0, m))
  {
  }

  lemma {:induction false} Col6Linear(b6: bv8, b7: bv8, m: bv8)
    ensures ColPart(Xor(b6, m), b7) == Xor(ColPart(b6, b7), ColPart(m, 0))
  {
  }

  function StoredEcc(t: Bytes): Ecc8
    requires |t| == 8
  {
    Ecc8(RowPart(t[7]), ColPart(t[6], t[7]))
  }

  /** A flip in the payload shows in the blanked tag, one in the ECC in the stored ECC. */
  lemma {:induction false} FlipShows(t: Bytes, k: nat, m: bv8)
    requires |t| == 8 && k < 8 && OneBit(m)
    ensures InPayload(k, m) ==>
            Blank(FlipAt(t, k, m)) == FlipAt(Blank(t), k, m) && StoredEcc(FlipAt(t, k, m)) == StoredEcc(t)
    ensures !InPayload(k, m) ==> Blank(FlipAt(t, k, m)) == Blank(t) && OneEccBit8(EccFlip(k, m)) &&
                                 StoredEcc(FlipAt(t, k, m)) == XorEcc8(StoredEcc(t), EccFlip(k, m))
  {
    EccFlipIs(t[6], t[7], m);
    XorNothing(RowPart(t[7]));
    Byte6Flip(t[6], t[7], m);
    LowMask(m);
    hide Xor, Byte6, Byte7, OneEccBit8, OneBit, RowPart, ColPart;
  }

  lemma {:induction false} LowMask(m: bv8)
    requires OneBit(m)
    ensures m < 16 || m >= 16
  {
  }

  lemma {:induction false} Byte6Flip(b6: bv8, b7: bv8, m: bv8)
    requires OneBit(m)
    ensures m < 16 ==>
            Byte6(Xor(b6, m), NO_ECC) == Xor(Byte6(b6, NO_ECC), m) && ColPart(Xor(b6, m), b7) == ColPart(b6, b7)
    ensures m >= 16 ==> Byte6(Xor(b6, m), NO_ECC) == Byte6(b6, NO_ECC)
  {
  }

  /** A correction compares the ECC of the payload with the stored one. */
  lemma {:induction false} CorrectedIs(t: Bytes)
    requires |t| == 8
    ensures var fix := Fix8Of(XorEcc8(Encode8(AccOf(Blank(t))), StoredEcc(t)));
            (fix == EccBit || fix == NoError ==> Payload(Corrected(t).1) == Payload(t)) &&
            (fix == EccBit ==> Corrected(t).0 == 1) && (fix == NoError ==> Corrected(t).0 == 0) &&
            (fix == Uncorrectable ==> Corrected(t).0 == -1) &&
            (fix.DataBit? && ValueOf(fix.b) < 8 ==>
              Corrected(t).0 == 1 && Payload(Corrected(t).1) == Payload(FlipAt(Blank(t), ValueOf(fix.b), fix.mask)))
  {
    var e := Encode8(AccOf(Blank(t)));
    EncodedSize(AccOf(Blank(t)));
    PackBack(e);
    FieldParts(t[6], t[7]);
    hide Encode8, AccOf, Pack, EccField, RowPart, ColPart, Rows, Cols, XorEcc8, Fix8Of, Xor, WithEcc, Payload, FlipAt;
    var c := Correct8(Blank(t), Pack(e.rows, e.cols), EccField(t[6], t[7]), 8);
    EccKeepsPayload(c.1, EccField(t[6], t[7]));
    EccKeepsPayload(t, NO_ECC);
  }

  lemma {:induction false} EccKeepsPayload(t: Bytes, ecc: bv16)
    requires |t| == 8
    ensures Payload(WithEcc(t, ecc)) == Payload(t)
  {
    Byte6Keeps(t[6], ecc, ecc);
    hide Byte6, Byte7, Nibble;
  }

  lemma {:induction false} SealedIs(t: Bytes)
    requires |t| == 8
    ensures Blank(Sealed(t)) == Blank(t) && Payload(Sealed(t)) == Payload(t)
    ensures StoredEcc(Sealed(t)) == Encode8(AccOf(Blank(t)))
    ensures forall z: Bytes :: |z| == 8 && z == Blank(t) ==> Payload(z) == Payload(t)
  {
    var e := Encode8(AccOf(Blank(t)));
    EncodedSize(AccOf(Blank(t)));
    PackBack(e);
    var ecc := Pack(e.rows, e.cols);
    Byte6Keeps(t[6], ecc, NO_ECC);
    Byte6Keeps(t[6], NO_ECC, NO_ECC);
    FieldBack(t[6], ecc);
    FieldParts(Byte6(t[6], ecc), Byte7(ecc));
    hide Encode8, AccOf, Pack, EccField, RowPart, ColPart, Rows, Cols, Byte6, Byte7, Nibble;
  }

  lemma {:induction false} Flip8Acc(z: Bytes, k: nat, m: bv8)
    requires |z| == 8 && k < 8 && OneBit(m)
    ensures Encode8(AccOf(FlipAt(z, k, m))) == XorEcc8(Encode8(AccOf(z)), DataDelta8(Index(k), m))
    ensures Index(k) < 8
  {
    hide XorAcc, Encode8, Contribution, Delta8, XorEcc8, AccOf;
    FlipChangesAcc(z, k, m);
    Encode8IsLinear(AccOf(z), Contribution(Index(k), m));
    SmallIndex(k);
  }

  lemma {:induction false} SmallIndex(k: nat)
    requires k < 8
    ensures Index(k) < 8
  {
  }

  lemma {:induction false} Difference8(e: Ecc8, a: Ecc8, b: Ecc8)
    ensures XorEcc8(XorEcc8(e, a), e) == a && XorEcc8(e, XorEcc8(e, a)) == a
    ensures XorEcc8(XorEcc8(XorEcc8(e, a), b), e) == XorEcc8(a, b)
    ensures XorEcc8(XorEcc8(e, a), XorEcc8(e, b)) == XorEcc8(a, b)
    ensures XorEcc8(e, XorEcc8(XorEcc8(e, a), b)) == XorEcc8(a, b)
    ensures XorEcc8(a, b) == XorEcc8(b, a)
  {
    hide Xor;
    ByteDifference(e.rows, a.rows, b.rows);
    ByteDifference(e.cols, a.cols, b.cols);
    ByteMoves(e.rows, a.rows, b.rows);
    ByteMoves(e.cols, a.cols, b.cols);
    ByteMoves(a.rows, b.rows, e.rows);
    ByteMoves(a.cols, b.cols, e.cols);
  }

  /** One flipped bit anywhere in the stored tag: the payload is right again. */
  lemma {:induction false} TagOneFlip(t: Bytes, k: nat, m: bv8)
    requires |t| == 8 && k < 8 && OneBit(m)
    ensures var r := Corrected(FlipAt(Sealed(t), k, m)); r.0 == 1 && Payload(r.1) == Payload(t)
  {
    hide Sealed, Corrected, Fix8Of, XorEcc8, Encode8, AccOf, StoredEcc, Blank, Payload, OneEccBit8, OneBit, Xor, Index,
      DataDelta8, EccFlip, FlipAt, InPayload;
    var s, z := Sealed(t), Blank(t);
    var e := Encode8(AccOf(z));
    SealedIs(t);
    FlipShows(s, k, m);
    CorrectedIs(FlipAt(s, k, m));
    if InPayload(k, m) {
      Flip8Acc(z, k, m);
      Difference8(e, DataDelta8(Index(k), m), e);
      OneDataBit8(Index(k), m);
      IndexBack(k);
      FlipBack(z, k, m);
    } else {
      Difference8(e, EccFlip(k, m), e);
      OneBitOfEcc8(EccFlip(k, m));
      EccFlipKeepsPayload(s, k, m);
    }
  }

  lemma {:induction false} EccFlipKeepsPayload(s: Bytes, k: nat, m: bv8)
    requires |s| == 8 && k < 8 && OneBit(m) && !InPayload(k, m)
    ensures Payload(FlipAt(s, k, m)) == Payload(s)
  {
    HighFlip(s[6], m);
    hide Xor, Nibble;
  }

  lemma {:induction false} HighFlip(b: bv8, m: bv8)
    requires OneBit(m)
    ensures m >= 16 ==> Nibble(Xor(b, m)) == Nibble(b)
    ensures m < 16 || m >= 16
  {
  }

  /** Two flipped bits: the correction fails, or the payload is right. */
  lemma {:induction false} TagTwoFlips(t: Bytes, k: nat, m: bv8, j: nat, n: bv8)
    requires |t| == 8 && k < 8 && OneBit(m) && j < 8 && OneBit(n) && (k != j || m != n)
    ensures var r := Corrected(FlipAt(FlipAt(Sealed(t), k, m), j, n)); r.0 == -1 || Payload(r.1) == Payload(t)
  {
    hide Sealed, Corrected, Fix8Of, XorEcc8, Encode8, AccOf, StoredEcc, Blank, Payload, OneEccBit8, OneBit, Xor, Index,
      DataDelta8, EccFlip, FlipAt, InPayload;
    var s, z := Sealed(t), Blank(t);
    var e := Encode8(AccOf(z));
    SealedIs(t);
    var s1 := FlipAt(s, k, m);
    FlipShows(s, k, m);
    FlipShows(s1, j, n);
    CorrectedIs(FlipAt(s1, j, n));
    IndexBack(k);
    IndexBack(j);
    if InPayload(k, m) && InPayload(j, n) {
      Flip8Acc(z, k, m);
      Flip8Acc(FlipAt(z, k, m), j, n);
      Difference8(e, DataDelta8(Index(k), m), DataDelta8(Index(j), n));
      TwoDataBits8(Index(k), m, Index(j), n);
    } else if InPayload(k, m) {
      Flip8Acc(z, k, m);
      Difference8(e, DataDelta8(Index(k), m), EccFlip(j, n));
      DataAndEccBit8(Index(k), m, EccFlip(j, n));
    } else if InPayload(j, n) {
      Flip8Acc(z, j, n);
      Difference8(e, DataDelta8(Index(j), n), EccFlip(k, m));
      DataAndEccBit8(Index(j), n, EccFlip(k, m));
    } else {
      Difference8(e, EccFlip(k, m), EccFlip(j, n));
      EccFlipsDiffer(k, m, j, n);
      TwoBitsOfEcc8(EccFlip(k, m), EccFlip(j, n));
    }
  }

  lemma {:induction false} EccFlipsDiffer(k: nat, m: bv8, j: nat, n: bv8)
    requires k < 8 && OneBit(m) && j < 8 && OneBit(n) && (k != j || m != n) && !InPayload(k, m) && !InPayload(j, n)
    ensures EccFlip(k, m) != EccFlip(j, n)
  {
  }
}

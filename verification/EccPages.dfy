/** The ECC of a whole page, chunk by chunk, and what correction does after bits have flipped. */
module EccPages {
  import opened EccTables
  import opened Ecc
  import opened EccBits

  // ----- one chunk

  /** The ECC of a chunk: each bit is the complement of the parity of the data bits it stands for. */
  method EccMakeChunk256(data: Bytes) returns (ecc: Ecc3)
    requires |data| <= 256
    ensures IsEcc(ecc, data) && ecc == EccOf(data)
  {
    hide Xor, Column, Complement, Low, High, Lines, Columns, IsEcc;
    var colParity: bv8, lineParity: bv8, lineParityPrime: bv8 := 0, 0, 0;
    for i := 0 to |data|
      invariant Acc(colParity, lineParity, lineParityPrime) == AccOf(data[..i])
    {
      assert data[..i + 1][..i] == data[..i];
      var b := Column(data[i]);
      AddByte(colParity, lineParity, lineParityPrime, Index(i), data[i]);
      colParity := Xor(colParity, b);
      if b & 0x01 == 1 {
        lineParity := Xor(lineParity, Index(i));
        lineParityPrime := Xor(lineParityPrime, Complement(Index(i)));
      }
    }
    assert data[..|data|] == data;
    ecc := Ecc3(Complement(Lines(Low(lineParity), Low(lineParityPrime))),
                Complement(Lines(High(lineParity), High(lineParityPrime))), Columns(Complement(colParity)));
    EccIs(data);
  }

  lemma {:induction false} AddByte(col: bv8, line: bv8, prime: bv8, i: bv8, x: bv8)
    ensures var b := Column(x);
            XorAcc(Acc(col, line, prime), Contribution(i, x)) ==
            if b & 0x01 == 1 then Acc(Xor(col, b), Xor(line, i), Xor(prime, Complement(i)))
              else Acc(Xor(col, b), line, prime)
  {
    hide Column, Complement;
    XorNothing(line);
    XorNothing(prime);
    hide Xor;
  }

  /** Outcome of correcting a chunk: -1, or the number of bits corrected, and the chunk. */
  function CorrectChunk(chunk: Bytes, read: Ecc3, test: Ecc3): (r: (int, Bytes))
    requires |chunk| <= 256
    ensures |r.1| == |chunk| && -1 <= r.0 <= 1
  {
    match FixOf(XorEcc(read, test))
    case NoError => (0, chunk)
    case DataBit(b, m) => if ValueOf(b) >= |chunk| then (-1, chunk) else (1, FlipAt(chunk, ValueOf(b), m))
    case EccBit => (1, chunk)
    case Uncorrectable => (-1, chunk)
  }

  method EccCorrectChunk256(data: array<bv8>, from: nat, len: nat, read: Ecc3, test: Ecc3) returns (ret: int)
    requires from + len <= data.Length && len <= 256
    modifies data
    ensures (ret, data[from..from + len]) == CorrectChunk(old(data[from..from + len]), read, test)
    ensures data[..from] == old(data[..from]) && data[from + len..] == old(data[from + len..])
  {
    hide FlipAt;
    var d := XorEcc(read, test);
    hide XorEcc, OneOfEachPair, ErrorByte, ErrorBit, MaskOf, CountAll, Or3, Xor;
    if Or3(d.e0, d.e1, d.e2) == 0 {
      return 0;
    }
    if OneOfEachPair(d) {
      var b := ErrorByte(d.e0, d.e1);
      var bit := ErrorBit(d.e2);
      if ValueOf(b) >= len {
        return -1;
      }
      ghost var before := data[..];
      var k: nat := ValueOf(b);
      data[from + k] := Xor(data[from + k], MaskOf(bit));
      FlipInside(before, data[..], from, len, k, MaskOf(bit));
      return 1;
    }
    if CountAll(d) == 1 {
      return 1;
    }
    return -1;
  }

  lemma {:induction false} FlipInside(a: Bytes, b: Bytes, from: nat, len: nat, k: nat, m: bv8)
    requires from + len <= |a| && k < len && |b| == |a| && b == a[from + k := Xor(a[from + k], m)]
    ensures b[from..from + len] == FlipAt(a[from..from + len], k, m)
    ensures b[..from] == a[..from] && b[from + len..] == a[from + len..]
  {
    hide Xor;
  }

  // ----- flipped bits of a chunk and its ECC

  datatype Flip = OnData(k: nat, m: bv8) | OnEcc(e: Ecc3)

  ghost predicate FlipOk(f: Flip, n: nat) {
    match f
    case OnData(k, m) => k < n && OneBit(m)
    case OnEcc(e) => OneEccBit(e)
  }

  function FlipData(chunk: Bytes, f: Flip): (r: Bytes)
    requires f.OnData? ==> f.k < |chunk|
    ensures |r| == |chunk|
  {
    if f.OnData? then FlipAt(chunk, f.k, f.m) else chunk
  }

  function FlipEcc(ecc: Ecc3, f: Flip): Ecc3 {
    if f.OnEcc? then XorEcc(ecc, f.e) else ecc
  }

  /** Differences a flip makes between stored and computed ECC. */
  function FlipDelta(f: Flip): Ecc3
    requires f.OnData? ==> f.k < 256
  {
    if f.OnData? then DataDelta(Index(f.k), f.m) else f.e
  }

  lemma {:induction false} EccMoves(a: Ecc3, b: Ecc3, c: Ecc3)
    ensures XorEcc(XorEcc(a, b), c) == XorEcc(XorEcc(a, c), b) && XorEcc(a, b) == XorEcc(b, a)
    ensures XorEcc(a, XorEcc(a, b)) == b && XorEcc(XorEcc(a, b), a) == b
  {
    hide Xor;
    ByteMoves(a.e0, b.e0, c.e0);
    ByteMoves(a.e1, b.e1, c.e1);
    ByteMoves(a.e2, b.e2, c.e2);
  }

  lemma {:induction false} ByteMoves(a: bv8, b: bv8, c: bv8)
    ensures Xor(Xor(a, b), c) == Xor(Xor(a, c), b) && Xor(a, b) == Xor(b, a)
    ensures Xor(a, Xor(a, b)) == b && Xor(Xor(a, b), a) == b
  {
  }

  lemma {:induction false} FlipsEcc(chunk: Bytes, f: Flip)
    requires |chunk| <= 256 && FlipOk(f, |chunk|)
    ensures EccOf(FlipData(chunk, f)) == if f.OnData? then XorEcc(EccOf(chunk), FlipDelta(f)) else EccOf(chunk)
  {
    hide XorEcc, XorAcc, Encode, Contribution;
    if f.OnData? {
      FlipChangesAcc(chunk, f.k, f.m);
      EncodeIsLinear(AccOf(chunk), Contribution(Index(f.k), f.m));
    }
  }

  lemma {:induction false} FlipBack(chunk: Bytes, k: nat, m: bv8)
    requires k < |chunk|
    ensures FlipAt(FlipAt(chunk, k, m), k, m) == chunk
  {
    ByteMoves(chunk[k], m, m);
    ByteMoves(m, chunk[k], m);
    hide Xor;
  }

  /** Nothing flipped: nothing to correct. One bit flipped, in the data or in the ECC: the data is right. */
  lemma {:induction false} OneFlip(chunk: Bytes, f: Flip)
    requires |chunk| <= 256 && FlipOk(f, |chunk|)
    ensures CorrectChunk(FlipData(chunk, f), FlipEcc(EccOf(chunk), f), EccOf(FlipData(chunk, f))) == (1, chunk)
  {
    hide XorEcc, FixOf, EccOf, DataDelta, OneBit, Index, ValueOf;
    FlipsEcc(chunk, f);
    EccMoves(EccOf(chunk), FlipDelta(f), FlipDelta(f));
    if f.OnData? {
      OneDataBit(Index(f.k), f.m);
      IndexBack(f.k);
      FlipBack(chunk, f.k, f.m);
    } else {
      OneBitOfEcc(f.e);
    }
  }

  lemma {:induction false} NoFlip(chunk: Bytes)
    requires |chunk| <= 256
    ensures CorrectChunk(chunk, EccOf(chunk), EccOf(chunk)) == (0, chunk)
  {
    hide EccOf;
    var e := EccOf(chunk);
    XorSelf(e.e0);
    XorSelf(e.e1);
    XorSelf(e.e2);
    hide Xor;
    OrNotZero(0, 0, 0);
  }

  lemma {:induction false} XorSelf(a: bv8)
    ensures Xor(a, a) == 0
  {
  }

  /** Two bits flipped: the correction fails, or the data is right. */
  lemma {:induction false} TwoFlips(chunk: Bytes, f: Flip, g: Flip)
    requires |chunk| <= 256 && FlipOk(f, |chunk|) && FlipOk(g, |chunk|) && f != g
    ensures var chunk' := FlipData(FlipData(chunk, f), g);
            var r := CorrectChunk(chunk', FlipEcc(FlipEcc(EccOf(chunk), f), g), EccOf(chunk'));
            r.0 == -1 || r.1 == chunk
  {
    hide XorEcc, FixOf, EccOf, DataDelta, OneBit, OneEccBit, Index, ValueOf;
    DifferenceOfTwo(chunk, f, g);
    if f.OnData? && g.OnData? {
      IndexBack(f.k);
      IndexBack(g.k);
      TwoDataBits(Index(f.k), f.m, Index(g.k), g.m);
    } else if f.OnData? {
      IndexBack(f.k);
      DataAndEccBit(Index(f.k), f.m, g.e);
      FlipBack(chunk, f.k, f.m);
    } else if g.OnData? {
      IndexBack(g.k);
      EccMoves(FlipDelta(f), FlipDelta(g), FlipDelta(f));
      DataAndEccBit(Index(g.k), g.m, f.e);
      FlipBack(chunk, g.k, g.m);
    } else {
      TwoBitsOfEcc(f.e, g.e);
    }
  }

  /** Stored and computed ECC differ by the differences of both flips. */
  lemma {:induction false} DifferenceOfTwo(chunk: Bytes, f: Flip, g: Flip)
    requires |chunk| <= 256 && FlipOk(f, |chunk|) && FlipOk(g, |chunk|)
    ensures XorEcc(FlipEcc(FlipEcc(EccOf(chunk), f), g), EccOf(FlipData(FlipData(chunk, f), g))) ==
            XorEcc(FlipDelta(f), FlipDelta(g))
  {
    hide XorEcc, EccOf, DataDelta, OneBit, OneEccBit;
    FlipsEcc(chunk, f);
    FlipsEcc(FlipData(chunk, f), g);
    var e, a, b := EccOf(chunk), FlipDelta(f), FlipDelta(g);
    DifferenceOf(e, a, b);
  }

  lemma {:induction false} DifferenceOf(e: Ecc3, a: Ecc3, b: Ecc3)
    ensures XorEcc(e, XorEcc(XorEcc(e, a), b)) == XorEcc(a, b)
    ensures XorEcc(XorEcc(e, a), XorEcc(e, b)) == XorEcc(a, b)
    ensures XorEcc(XorEcc(e, b), XorEcc(e, a)) == XorEcc(a, b)
    ensures XorEcc(XorEcc(XorEcc(e, a), b), e) == XorEcc(a, b)
  {
    hide Xor;
    ByteDifference(e.e0, a.e0, b.e0);
    ByteDifference(e.e1, a.e1, b.e1);
    ByteDifference(e.e2, a.e2, b.e2);
  }

  lemma {:induction false} ByteDifference(e: bv8, a: bv8, b: bv8)
    ensures Xor(e, Xor(Xor(e, a), b)) == Xor(a, b) && Xor(Xor(e, a), Xor(e, b)) == Xor(a, b)
    ensures Xor(Xor(e, b), Xor(e, a)) == Xor(a, b) && Xor(Xor(Xor(e, a), b), e) == Xor(a, b)
  {
    hide Xor;
    ByteMoves(e, a, b);
    ByteMoves(e, b, a);
    ByteMoves(a, b, e);
    ByteMoves(Xor(e, a), e, b);
    ByteMoves(Xor(e, a), b, e);
    ByteMoves(e, Xor(a, b), a);
    ByteMoves(e, Xor(e, a), b);
    ByteMoves(e, Xor(e, b), a);
  }

  // ----- a page: one ECC of three bytes for each chunk

  function ChunkLen(n: nat): nat {
    if n > 256 then 256 else n
  }

  function EccSeq(e: Ecc3): (s: Bytes)
    ensures |s| == 3
  {
    [e.e0, e.e1, e.e2]
  }

  function EccAt(ecc: Bytes, i: nat): Ecc3
    requires i + 3 <= |ecc|
  {
    Ecc3(ecc[i], ecc[i + 1], ecc[i + 2])
  }

  function EccSize(n: nat): nat {
    if n == 0 then 0 else 3 + EccSize(n - ChunkLen(n))
  }

  lemma {:induction false} EccSizeIs(n: nat)
    ensures EccSize(n) == (n + 255) / 256 * 3
  {
    if n > 256 {
      EccSizeIs(n - 256);
    }
  }

  /** The ECC of the first chunk, then that of the rest. */
  function EccBytes(data: Bytes): (ecc: Bytes)
    ensures |ecc| == EccSize(|data|)
  {
    if data == [] then []
    else EccSeq(EccOf(data[..ChunkLen(|data|)])) + EccBytes(data[ChunkLen(|data|)..])
  }

  /** Chunk k of a page. */
  function ChunkAt(data: Bytes, k: nat): (chunk: Bytes)
    requires 256 * k < |data|
    ensures 0 < |chunk| <= 256
  {
    if 256 * k + 256 <= |data| then data[256 * k..256 * k + 256] else data[256 * k..]
  }

  lemma {:induction false} PageEccIs(data: Bytes, k: nat)
    requires 256 * k < |data|
    ensures |EccBytes(data)| == EccSize(|data|) >= 3 * k + 3
    ensures IsEcc(EccAt(EccBytes(data), 3 * k), ChunkAt(data, k))
  {
    hide EccOf, IsEcc, EccBytes, ChunkAt;
    var n := ChunkLen(|data|);
    FirstChunk(data, k);
    EccIs(data[..n]);
    if k > 0 {
      PageEccIs(data[n..], k - 1);
    }
  }

  /** The first chunk of a page, its ECC, and the rest. */
  lemma {:induction false} FirstChunk(data: Bytes, k: nat)
    requires 256 * k < |data|
    ensures var n := ChunkLen(|data|);
            |EccBytes(data)| == 3 + |EccBytes(data[n..])| && ChunkAt(data, 0) == data[..n] &&
            EccAt(EccBytes(data), 0) == EccOf(data[..n]) &&
            (k > 0 ==> ChunkAt(data, k) == ChunkAt(data[n..], k - 1)) &&
            forall i :: 3 <= i < |EccBytes(data)| ==> EccBytes(data)[i] == EccBytes(data[n..])[i - 3]
  {
    hide EccOf;
  }

  /** Each chunk of a page has the three bytes of its ECC, and there are no other bytes. */
  ghost predicate IsPageEcc(ecc: Bytes, data: Bytes) {
    |ecc| == EccSize(|data|) &&
    forall k: nat :: 256 * k < |data| ==> 3 * k + 3 <= |ecc| && IsEcc(EccAt(ecc, 3 * k), ChunkAt(data, k))
  }

  lemma {:induction false} EccBytesIs(data: Bytes)
    ensures IsPageEcc(EccBytes(data), data)
  {
    hide EccBytes, EccAt, ChunkAt, IsEcc, EccSize;
    EccBytesSize(data);
    forall k: nat | 256 * k < |data|
      ensures 3 * k + 3 <= |EccBytes(data)| && IsEcc(EccAt(EccBytes(data), 3 * k), ChunkAt(data, k))
    {
      PageEccIs(data, k);
    }
  }

  lemma {:induction false} EccBytesSize(data: Bytes)
    ensures |EccBytes(data)| == EccSize(|data|)
  {
  }

  method EccMake(data: Bytes) returns (ecc: Bytes)
    ensures IsPageEcc(ecc, data) && ecc == EccBytes(data)
  {
    hide EccOf, EccSeq, IsPageEcc, EccBytes, IsEcc;
    ecc := [];
    var from := 0;
    assert data[0..] == data;
    while from < |data|
      invariant from <= |data|
      invariant ecc + EccBytes(data[from..]) == EccBytes(data)
    {
      var len := if |data| - from > 256 then 256 else |data| - from;
      NextChunk(data, from, len);
      var e := EccMakeChunk256(data[from..from + len]);
      assert ecc + (EccSeq(e) + EccBytes(data[from + len..])) == (ecc + EccSeq(e)) + EccBytes(data[from + len..]);
      ecc := ecc + EccSeq(e);
      from := from + len;
    }
    NoChunks(data[from..]);
    assert ecc + [] == ecc;
    EccBytesIs(data);
  }

  lemma {:induction false} NextChunk(data: Bytes, from: nat, len: nat)
    requires from < |data| && len == ChunkLen(|data| - from)
    ensures from + len <= |data|
    ensures EccBytes(data[from..]) == EccSeq(EccOf(data[from..from + len])) + EccBytes(data[from + len..])
  {
    hide EccOf, EccSeq;
    assert data[from..][..len] == data[from..from + len] && data[from..][len..] == data[from + len..];
  }

  lemma {:induction false} NoChunks(data: Bytes)
    requires data == []
    ensures EccBytes(data) == []
  {
  }

  /** Correction chunk by chunk, up to the first chunk that cannot be corrected. */
  function CorrectPage(data: Bytes, read: Bytes, test: Bytes): (r: (int, Bytes))
    requires |read| >= EccSize(|data|) && |test| >= EccSize(|data|)
    ensures |r.1| == |data| && -1 <= r.0
  {
    if data == [] then (0, [])
    else
      var n := ChunkLen(|data|);
      var first := CorrectChunk(data[..n], EccAt(read, 0), EccAt(test, 0));
      if first.0 < 0 then (first.0, first.1 + data[n..])
      else
        var rest := CorrectPage(data[n..], read[3..], test[3..]);
        (if rest.0 < 0 then rest.0 else first.0 + rest.0, first.1 + rest.1)
  }

  /** The chunks before `from` are corrected, `total` bits so far; the rest is still to be done. */
  ghost predicate RestToDo(data: Bytes, read: Bytes, test: Bytes, from: nat, i: nat, total: int, done: Bytes)
    requires |read| >= EccSize(|data|) && |test| >= EccSize(|data|)
  {
    && from <= |data| && i <= |read| && i <= |test| && total >= 0
    && |read| - i >= EccSize(|data| - from) && |test| - i >= EccSize(|data| - from)
    && var rest := CorrectPage(data[from..], read[i..], test[i..]);
       CorrectPage(data, read, test) == (if rest.0 < 0 then rest.0 else total + rest.0, done + rest.1)
  }

  lemma {:induction false} RestStarts(data: Bytes, read: Bytes, test: Bytes)
    requires |read| >= EccSize(|data|) && |test| >= EccSize(|data|)
    ensures RestToDo(data, read, test, 0, 0, 0, [])
  {
    assert data[0..] == data && read[0..] == read && test[0..] == test;
    assert [] + CorrectPage(data, read, test).1 == CorrectPage(data, read, test).1;
  }

  lemma {:induction false} RestEnds(data: Bytes, read: Bytes, test: Bytes, i: nat, total: int, done: Bytes)
    requires |read| >= EccSize(|data|) && |test| >= EccSize(|data|)
    requires RestToDo(data, read, test, |data|, i, total, done)
    ensures CorrectPage(data, read, test) == (total, done)
  {
    assert data[|data|..] == [] && done + [] == done;
  }

  lemma {:induction false} RestStep(data: Bytes, read: Bytes, test: Bytes, from: nat, i: nat, total: int, done: Bytes,
                                    len: nat)
    requires |read| >= EccSize(|data|) && |test| >= EccSize(|data|)
    requires RestToDo(data, read, test, from, i, total, done) && from < |data| && len == ChunkLen(|data| - from)
    ensures i + 3 <= |read| && i + 3 <= |test|
    ensures var r := CorrectChunk(data[from..from + len], EccAt(read, i), EccAt(test, i));
            if r.0 < 0 then CorrectPage(data, read, test) == (r.0, done + r.1 + data[from + len..])
            else RestToDo(data, read, test, from + len, i + 3, total + r.0, done + r.1)
  {
    hide CorrectChunk, EccAt;
    assert read[i..][3..] == read[i + 3..] && test[i..][3..] == test[i + 3..];
    assert data[from..][..len] == data[from..from + len] && data[from..][len..] == data[from + len..];
    ChunkEcc(read, i);
    ChunkEcc(test, i);
    var r := CorrectChunk(data[from..from + len], EccAt(read, i), EccAt(test, i));
    if r.0 < 0 {
      assert done + (r.1 + data[from + len..]) == done + r.1 + data[from + len..];
    } else {
      var rest := CorrectPage(data[from + len..], read[i + 3..], test[i + 3..]);
      assert done + (r.1 + rest.1) == done + r.1 + rest.1;
    }
  }

  method EccCorrect(data: array<bv8>, read: Bytes, test: Bytes) returns (total: int)
    requires |read| >= EccSize(data.Length) && |test| >= EccSize(data.Length)
    modifies data
    ensures (total, data[..]) == CorrectPage(old(data[..]), read, test)
  {
    hide *;
    ghost var before := data[..];
    RestStarts(before, read, test);
    total := 0;
    var from, i := 0, 0;
    while from < data.Length
      invariant from <= data.Length && data[from..] == before[from..]
      invariant RestToDo(before, read, test, from, i, total, data[..from])
    {
      var len := if data.Length - from > 256 then 256 else data.Length - from;
      LenIs(data.Length - from);
      RestStep(before, read, test, from, i, total, data[..from], len);
      assert data[from..from + len] == data[from..][..len] && before[from..from + len] == before[from..][..len];
      assert data[from + len..] == data[from..][len..] && before[from + len..] == before[from..][len..];
      ghost var head := data[..from];
      var ret := EccCorrectChunk256(data, from, len, EccAt(read, i), EccAt(test, i));
      assert data[..from + len] == head + data[from..from + len];
      if ret < 0 {
        total := ret;
        assert data[..] == data[..from + len] + data[from + len..];
        return;
      }
      total := total + ret;
      from := from + len;
      i := i + 3;
    }
    RestEnds(before, read, test, i, total, data[..from]);
    assert data[..from] == data[..];
  }

  lemma {:induction false} LenIs(n: nat)
    ensures ChunkLen(n) == if n > 256 then 256 else n
  {
  }

  lemma {:induction false} ChunkEcc(ecc: Bytes, i: nat)
    requires i + 3 <= |ecc|
    ensures EccAt(ecc[i..], 0) == EccAt(ecc, i)
  {
  }

  // ----- bits flipped all over the page

  ghost predicate HitsOk(data: Bytes, hits: seq<seq<Flip>>)
    decreases |data|
  {
    if data == [] then hits == []
    else
      var n := ChunkLen(|data|);
      hits != [] && |hits[0]| <= 2 && (forall i :: 0 <= i < |hits[0]| ==> FlipOk(hits[0][i], n)) &&
      (|hits[0]| == 2 ==> hits[0][0] != hits[0][1]) && HitsOk(data[n..], hits[1..])
  }

  ghost function HitChunk(chunk: Bytes, flips: seq<Flip>): (r: Bytes)
    requires forall i :: 0 <= i < |flips| ==> FlipOk(flips[i], |chunk|)
    ensures |r| == |chunk|
  {
    assert flips != [] ==> FlipOk(flips[|flips| - 1], |chunk|);
    if flips == [] then chunk else FlipData(HitChunk(chunk, flips[..|flips| - 1]), flips[|flips| - 1])
  }

  ghost function HitEcc(ecc: Ecc3, flips: seq<Flip>): Ecc3 {
    if flips == [] then ecc else FlipEcc(HitEcc(ecc, flips[..|flips| - 1]), flips[|flips| - 1])
  }

  ghost function HitData(data: Bytes, hits: seq<seq<Flip>>): (r: Bytes)
    requires HitsOk(data, hits)
    ensures |r| == |data|
  {
    if data == [] then []
    else var n := ChunkLen(|data|); HitChunk(data[..n], hits[0]) + HitData(data[n..], hits[1..])
  }

  /** The stored ECC of the page, with the flips in it. */
  ghost function HitStored(data: Bytes, hits: seq<seq<Flip>>): (ecc: Bytes)
    requires HitsOk(data, hits)
    ensures |ecc| == EccSize(|data|)
  {
    if data == [] then []
    else var n := ChunkLen(|data|); EccSeq(HitEcc(EccOf(data[..n]), hits[0])) + HitStored(data[n..], hits[1..])
  }

  function Total(hits: seq<seq<Flip>>): nat {
    if hits == [] then 0 else |hits[0]| + Total(hits[1..])
  }

  lemma {:induction false} ChunkCorrected(chunk: Bytes, flips: seq<Flip>)
    requires |chunk| <= 256 && |flips| <= 2 && forall i :: 0 <= i < |flips| ==> FlipOk(flips[i], |chunk|)
    requires |flips| == 2 ==> flips[0] != flips[1]
    ensures var r := CorrectChunk(HitChunk(chunk, flips), HitEcc(EccOf(chunk), flips), EccOf(HitChunk(chunk, flips)));
            (|flips| <= 1 ==> r == (|flips|, chunk)) && (r.0 == -1 || r.1 == chunk)
  {
    hide CorrectChunk, EccOf, FlipData, FlipEcc, OneBit, OneEccBit;
    if |flips| == 0 {
      NoFlip(chunk);
    } else if |flips| == 1 {
      assert flips[..0] == [];
      OneFlip(chunk, flips[0]);
    } else {
      var one := flips[..1];
      assert one == [flips[0]] && one[..0] == [];
      assert FlipOk(flips[0], |chunk|) && FlipOk(flips[1], |chunk|);
      assert HitChunk(chunk, one) == FlipData(chunk, flips[0]);
      assert HitEcc(EccOf(chunk), one) == FlipEcc(EccOf(chunk), flips[0]);
      TwoFlips(chunk, flips[0], flips[1]);
    }
  }

  /** With at most two flips in each chunk and its ECC the correction fails or restores the page; with at most one
      it restores the page and counts the flips. */
  lemma {:induction false} PageCorrected(data: Bytes, hits: seq<seq<Flip>>)
    requires HitsOk(data, hits)
    ensures var r := CorrectPage(HitData(data, hits), HitStored(data, hits), EccBytes(HitData(data, hits)));
            (r.0 < 0 || r.1 == data) &&
            ((forall i :: 0 <= i < |hits| ==> |hits[i]| <= 1) ==> r == (Total(hits), data))
    decreases |data|
  {
    hide CorrectChunk, EccOf, HitChunk, HitEcc, FlipOk;
    if data != [] {
      var n := ChunkLen(|data|);
      var chunk, rest, data' := data[..n], data[n..], HitData(data, hits);
      PageCorrected(rest, hits[1..]);
      ChunkCorrected(chunk, hits[0]);
      FirstOfPage(data, hits);
      assert chunk + rest == data;
    }
  }

  /** The first chunk of the page and its ECC. */
  lemma {:induction false} FirstOfPage(data: Bytes, hits: seq<seq<Flip>>)
    requires HitsOk(data, hits) && data != []
    ensures var n := ChunkLen(|data|);
            var data', stored := HitData(data, hits), HitStored(data, hits);
            data'[..n] == HitChunk(data[..n], hits[0]) && data'[n..] == HitData(data[n..], hits[1..]) &&
            EccAt(stored, 0) == HitEcc(EccOf(data[..n]), hits[0]) && stored[3..] == HitStored(data[n..], hits[1..]) &&
            EccAt(EccBytes(data'), 0) == EccOf(data'[..n]) && EccBytes(data')[3..] == EccBytes(data'[n..])
  {
    hide EccOf, HitChunk, HitEcc, FlipOk;
    var n := ChunkLen(|data|);
    var data' := HitData(data, hits);
    assert ChunkLen(|data'|) == n;
  }
}

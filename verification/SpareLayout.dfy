/** The spare area of a page: where the bytes of tag and ECC go around the bad-block status byte, and the seal byte
    behind them. */
module SpareLayout {
  import opened FlashModel

  const TAG_STORE_SIZE: nat := 8
  const END: nat := 0xFF

  // ----- layouts: pairs of offset and length, ended by 0xFF

  /** Positions in the spare area of the first `size` bytes laid out from entry p of the layout on. */
  function Positions(layout: seq<nat>, p: nat, size: nat): (pos: seq<nat>)
    requires Ended(layout, p)
    ensures |pos| <= size
    decreases |layout| - p
  {
    if layout[p] == END || size == 0 then []
    else
      var n := if layout[p + 1] > size then size else layout[p + 1];
      Run(layout[p], n) + Positions(layout, p + 2, size - n)
  }

  function Run(from: nat, n: nat): (s: seq<nat>)
    ensures |s| == n && forall i :: 0 <= i < n ==> s[i] == from + i
  {
    seq(n, i => from + i)
  }

  /** From entry p on the layout consists of pairs and ends with 0xFF. */
  predicate Ended(layout: seq<nat>, p: nat)
    decreases |layout| - p
  {
    p + 1 < |layout| && (layout[p] == END || Ended(layout, p + 2))
  }

  /** The layout for a status byte at offset s: tag first, then ECC, both around the status byte. */
  method InitSpareLayout(s: nat, eccSize: nat, hasEcc: bool) returns (data: seq<nat>, ecc: seq<nat>)
    requires s + 1 < END && TAG_STORE_SIZE + eccSize < END
    ensures Ended(data, 0) && Ended(ecc, 0)
    ensures NoEmptyRun(data, 0) && (eccSize > 0 ==> NoEmptyRun(ecc, 0))
    ensures Positions(data, 0, TAG_STORE_SIZE) == Slots(s, 0, TAG_STORE_SIZE)
    ensures Positions(ecc, 0, eccSize) == if hasEcc then Slots(s, TAG_STORE_SIZE, eccSize) else []
  {
    hide Positions, Ended, NoEmptyRun, Slots;
    TagRuns(s);
    EccRuns(s, eccSize);
    data, ecc := [], [];
    if s < TAG_STORE_SIZE {
      if s > 0 {
        data := data + [0, s];
      }
      data := data + [s + 1, TAG_STORE_SIZE - s];
      data := data + [END, 0];
      if hasEcc {
        ecc := ecc + [TAG_STORE_SIZE + 1, eccSize];
      }
      ecc := ecc + [END, 0];
    } else {
      data := data + [0, TAG_STORE_SIZE];
      data := data + [END, 0];
      if hasEcc {
        if s < TAG_STORE_SIZE + eccSize {
          if s > TAG_STORE_SIZE {
            ecc := ecc + [TAG_STORE_SIZE, s - TAG_STORE_SIZE];
          }
          ecc := ecc + [s + 1, TAG_STORE_SIZE + eccSize - s];
        } else {
          ecc := ecc + [TAG_STORE_SIZE, eccSize];
        }
      }
      ecc := ecc + [END, 0];
    }
    TwoRuns(data, TAG_STORE_SIZE);
    TwoRuns(ecc, eccSize);
  }

  /** The i-th byte of tag and ECC together skips the status byte. */
  function Slot(s: nat, i: nat): nat {
    if i < s then i else i + 1
  }

  function Slots(s: nat, from: nat, n: nat): (pos: seq<nat>)
    ensures |pos| == n && forall i :: 0 <= i < n ==> pos[i] == Slot(s, from + i)
  {
    if n == 0 then [] else Slots(s, from, n - 1) + [Slot(s, from + n - 1)]
  }

  /** The tag lies in front of the status byte, behind it, or on both sides. */
  lemma {:induction false} TagRuns(s: nat)
    ensures Slots(s, 0, TAG_STORE_SIZE) ==
            if s == 0 then Run(1, TAG_STORE_SIZE)
            else if s < TAG_STORE_SIZE then Run(0, s) + Run(s + 1, TAG_STORE_SIZE - s)
            else Run(0, TAG_STORE_SIZE)
  {
    hide Slots;
  }

  /** So does the ECC. */
  lemma {:induction false} EccRuns(s: nat, n: nat)
    ensures Slots(s, TAG_STORE_SIZE, n) ==
            if s <= TAG_STORE_SIZE then Run(TAG_STORE_SIZE + 1, n)
            else if s < TAG_STORE_SIZE + n then
              Run(TAG_STORE_SIZE, s - TAG_STORE_SIZE) + Run(s + 1, TAG_STORE_SIZE + n - s)
            else Run(TAG_STORE_SIZE, n)
  {
    hide Slots;
  }

  /** Layouts of at most two entries. */
  lemma {:induction false} TwoRuns(layout: seq<nat>, size: nat)
    requires 2 <= |layout| <= 6 && |layout| % 2 == 0 && layout[|layout| - 2] == END
    requires forall i :: 0 <= i < |layout| - 2 && i % 2 == 0 ==> layout[i] != END
    ensures Ended(layout, 0)
    ensures (|layout| >= 4 ==> layout[1] > 0) && (|layout| == 6 ==> layout[3] > 0) ==> NoEmptyRun(layout, 0)
    ensures |layout| == 2 ==> Positions(layout, 0, size) == []
    ensures |layout| == 4 && layout[1] >= size ==> Positions(layout, 0, size) == Run(layout[0], size)
    ensures |layout| == 6 && layout[1] < size <= layout[1] + layout[3] ==>
              Positions(layout, 0, size) == Run(layout[0], layout[1]) + Run(layout[2], size - layout[1])
  {
    if |layout| >= 4 {
      assert layout[0] != END;
    }
    if |layout| == 6 {
      assert layout[2] != END;
      assert Ended(layout, 4) && Ended(layout, 2);
      assert forall n :: Positions(layout, 4, n) == [];
    }
    if |layout| == 4 {
      assert Ended(layout, 2);
      assert forall n :: Positions(layout, 2, n) == [];
    }
  }

  // ----- size of the spare data

  /** End of the last run of the bytes laid out. */
  function LastEnd(layout: seq<nat>, p: nat, size: nat, last: nat): nat
    requires Ended(layout, p)
    decreases |layout| - p
  {
    if layout[p] == END || size == 0 then last
    else
      var n := if layout[p + 1] > size then size else layout[p + 1];
      LastEnd(layout, p + 2, size - n, layout[p] + n)
  }

  /** End of the bytes of one layout. */
  method LayoutEnd(layout: seq<nat>, size: nat) returns (last: nat)
    requires Ended(layout, 0)
    ensures last == LastEnd(layout, 0, size, 0)
  {
    last := 0;
    var left, p := size, 0;
    while layout[p] != END && left > 0
      invariant Ended(layout, p)
      invariant LastEnd(layout, p, left, last) == LastEnd(layout, 0, size, 0)
      decreases |layout| - p
    {
      var n := if layout[p + 1] > left then left else layout[p + 1];
      last := layout[p] + n;
      left := left - n;
      p := p + 2;
    }
  }

  method CalculateSpareDataSize(data: seq<nat>, ecc: seq<nat>, s: nat, eccSize: nat) returns (n: nat)
    requires Ended(data, 0) && Ended(ecc, 0)
    ensures n == SpareSize(data, ecc, s, eccSize)
  {
    var eccLast := LayoutEnd(ecc, eccSize);
    var tagLast := LayoutEnd(data, TAG_STORE_SIZE);
    n := if eccLast > tagLast then eccLast else tagLast;
    n := if n > s + 1 then n else s + 1;
    n := n + 1;
  }

  function Max(a: nat, b: nat): nat {
    if a > b then a else b
  }

  function SpareSize(data: seq<nat>, ecc: seq<nat>, s: nat, eccSize: nat): nat
    requires Ended(data, 0) && Ended(ecc, 0)
  {
    Max(Max(LastEnd(ecc, 0, eccSize, 0), LastEnd(data, 0, TAG_STORE_SIZE, 0)), s + 1) + 1
  }

  predicate NoEmptyRun(layout: seq<nat>, p: nat)
    requires Ended(layout, p)
    decreases |layout| - p
  {
    layout[p] == END || (layout[p + 1] > 0 && NoEmptyRun(layout, p + 2))
  }

  /** The end of the last run lies behind its last position. */
  lemma {:induction false} LastEndIs(layout: seq<nat>, p: nat, size: nat, last: nat)
    requires Ended(layout, p) && (size > 0 ==> NoEmptyRun(layout, p))
    ensures var pos := Positions(layout, p, size);
            LastEnd(layout, p, size, last) == if pos == [] then last else pos[|pos| - 1] + 1
    decreases |layout| - p
  {
    if layout[p] != END && size > 0 {
      var n := if layout[p + 1] > size then size else layout[p + 1];
      LastEndIs(layout, p + 2, size - n, layout[p] + n);
    }
  }

  /** Tag and ECC, the status byte and the seal byte have places of their own in the spare area. */
  ghost predicate LayoutsOk(data: seq<nat>, ecc: seq<nat>, s: nat, eccSize: nat, hasEcc: bool) {
    && Ended(data, 0) && Ended(ecc, 0) && NoEmptyRun(data, 0) && (eccSize > 0 ==> NoEmptyRun(ecc, 0))
    && Positions(data, 0, TAG_STORE_SIZE) == Slots(s, 0, TAG_STORE_SIZE)
    && Positions(ecc, 0, eccSize) == if hasEcc then Slots(s, TAG_STORE_SIZE, eccSize) else []
  }

  /** No two bytes share a place, none is at the status byte, and all lie before the seal byte. */
  lemma {:induction false} PlacesAreDisjoint(data: seq<nat>, ecc: seq<nat>, s: nat, eccSize: nat, hasEcc: bool)
    requires LayoutsOk(data, ecc, s, eccSize, hasEcc)
    ensures var all := Positions(data, 0, TAG_STORE_SIZE) + Positions(ecc, 0, eccSize);
            var size := SpareSize(data, ecc, s, eccSize);
            s < size - 1 && (forall i :: 0 <= i < |all| ==> all[i] != s && all[i] < size - 1) &&
            (forall i, j :: 0 <= i < j < |all| ==> all[i] != all[j])
  {
    LastEndIs(data, 0, TAG_STORE_SIZE, 0);
    LastEndIs(ecc, 0, eccSize, 0);
  }

  // ----- making and unloading a spare

  type Spare = seq<Byte>

  ghost predicate Within(pos: seq<nat>, size: nat) {
    forall i :: 0 <= i < |pos| ==> pos[i] < size
  }

  /** The spare with the bytes of src put at the positions. */
  ghost function Put(spare: Spare, pos: seq<nat>, src: seq<Byte>): (r: Spare)
    requires |pos| <= |src| && Within(pos, |spare|)
    ensures |r| == |spare|
    decreases |pos|
  {
    if pos == [] then spare else Put(spare[pos[0] := src[0]], pos[1..], src[1..])
  }

  lemma {:induction false} PutAt(spare: Spare, pos: seq<nat>, src: seq<Byte>)
    requires |pos| <= |src| && Within(pos, |spare|)
    requires forall i, j :: 0 <= i < j < |pos| ==> pos[i] != pos[j]
    ensures forall i :: 0 <= i < |pos| ==> Put(spare, pos, src)[pos[i]] == src[i]
    ensures forall x :: 0 <= x < |spare| && x !in pos ==> Put(spare, pos, src)[x] == spare[x]
    decreases |pos|
  {
    if pos != [] {
      PutAt(spare[pos[0] := src[0]], pos[1..], src[1..]);
      forall i | 0 <= i < |pos| ensures Put(spare, pos, src)[pos[i]] == src[i] {
        if i > 0 {
          assert pos[1..][i - 1] == pos[i];
        } else {
          assert pos[0] !in pos[1..];
        }
      }
    }
  }

  lemma {:induction false} PutTwice(spare: Spare, a: seq<nat>, b: seq<nat>, src: seq<Byte>)
    requires |a| + |b| <= |src| && Within(a, |spare|) && Within(b, |spare|)
    ensures Within(a + b, |spare|) && Put(spare, a + b, src) == Put(Put(spare, a, src), b, src[|a|..])
    decreases |a|
  {
    if a == [] {
      assert a + b == b && src[0..] == src;
    } else {
      assert (a + b)[1..] == a[1..] + b && src[1..][|a| - 1..] == src[|a|..];
      PutTwice(spare[a[0] := src[0]], a[1..], b, src[1..]);
    }
  }

  /** Copy a run of bytes. */
  ghost function Copied(spare: Spare, from: nat, bytes: seq<Byte>): (r: Spare)
    requires from + |bytes| <= |spare|
    ensures |r| == |spare|
  {
    spare[..from] + bytes + spare[from + |bytes|..]
  }

  lemma {:induction false} PutRun(spare: Spare, from: nat, n: nat, src: seq<Byte>)
    requires n <= |src| && from + n <= |spare|
    ensures Put(spare, Run(from, n), src) == Copied(spare, from, src[..n])
    decreases n
  {
    if n > 0 {
      var run, spare' := Run(from, n), spare[from := src[0]];
      assert run[1..] == Run(from + 1, n - 1);
      PutRun(spare', from + 1, n - 1, src[1..]);
      assert spare'[..from + 1] == spare[..from] + [src[0]];
      assert src[..n] == [src[0]] + src[1..][..n - 1];
      assert spare'[from + n..] == spare[from + n..];
    } else {
      assert Run(from, 0) == [];
    }
  }

  /** Copy bytes into the spare along a layout. */
  method LoadAlong(spare: array<Byte>, layout: seq<nat>, src: seq<Byte>, size: nat)
    requires Ended(layout, 0) && (size > 0 ==> NoEmptyRun(layout, 0)) && size <= |src|
    requires Within(Positions(layout, 0, size), spare.Length)
    modifies spare
    ensures spare[..] == Put(old(spare[..]), Positions(layout, 0, size), src)
  {
    hide *;
    var left: nat, p: nat, at: nat := size, 0, 0;
    ghost var before := spare[..];
    assert src[0..] == src;
    while At(layout, p) != END && left > 0
      invariant Ended(layout, p) && (left > 0 ==> NoEmptyRun(layout, p)) && at + left == size <= |src|
      invariant Within(Positions(layout, p, left), spare.Length)
      invariant Put(spare[..], Positions(layout, p, left), src[at..]) == Put(before, Positions(layout, 0, size), src)
      decreases |layout| - p
    {
      EntryFacts(layout, p);
      var n := if layout[p + 1] > left then left else layout[p + 1];
      RunStep(spare[..], layout, p, left, n, src, at);
      CopyIn(spare, layout[p], src[at..at + n]);
      left := left - n;
      at := at + n;
      p := p + 2;
    }
    NothingLeft(spare[..], layout, p, left, src[at..]);
  }

  function At(layout: seq<nat>, p: nat): nat
    requires Ended(layout, p)
  {
    layout[p]
  }

  lemma {:induction false} EntryFacts(layout: seq<nat>, p: nat)
    requires Ended(layout, p)
    ensures p + 1 < |layout| && At(layout, p) == layout[p] && (layout[p] != END ==> Ended(layout, p + 2))
    ensures NoEmptyRun(layout, p) && layout[p] != END ==> layout[p + 1] > 0 && NoEmptyRun(layout, p + 2)
  {
  }

  lemma {:induction false} NothingLeft(spare: Spare, layout: seq<nat>, p: nat, left: nat, src: seq<Byte>)
    requires Ended(layout, p) && (At(layout, p) == END || left == 0) && left <= |src|
    ensures Within(Positions(layout, p, left), |spare|) && Put(spare, Positions(layout, p, left), src) == spare
  {
  }

  lemma {:induction false} RunStep(spare: Spare, layout: seq<nat>, p: nat, left: nat, n: nat, src: seq<Byte>, at: nat)
    requires Ended(layout, p) && NoEmptyRun(layout, p) && layout[p] != END && left > 0 && at + left <= |src|
    requires n == if layout[p + 1] > left then left else layout[p + 1]
    requires Within(Positions(layout, p, left), |spare|)
    ensures layout[p] + n <= |spare| && n > 0 && n <= left && Within(Positions(layout, p + 2, left - n), |spare|)
    ensures Put(spare, Positions(layout, p, left), src[at..]) ==
            Put(Copied(spare, layout[p], src[at..at + n]), Positions(layout, p + 2, left - n), src[at + n..])
  {
    var run, rest := Run(layout[p], n), Positions(layout, p + 2, left - n);
    var pos := run + rest;
    assert Positions(layout, p, left) == pos;
    assert pos[n - 1] == layout[p] + n - 1;
    forall i | 0 <= i < |rest| ensures rest[i] < |spare| {
      assert pos[n + i] == rest[i];
    }
    forall i | 0 <= i < |run| ensures run[i] < |spare| {
      assert pos[i] == run[i];
    }
    hide Ended, NoEmptyRun, Positions, Put, Copied;
    PutTwice(spare, run, rest, src[at..]);
    PutRun(spare, layout[p], n, src[at..]);
    assert src[at..][n..] == src[at + n..] && src[at..][..n] == src[at..at + n];
  }

  method CopyIn(spare: array<Byte>, from: nat, bytes: seq<Byte>)
    requires from + |bytes| <= spare.Length
    modifies spare
    ensures spare[..] == Copied(old(spare[..]), from, bytes)
  {
    forall i | 0 <= i < |bytes| {
      spare[from + i] := bytes[i];
    }
    assert spare[..] == Copied(old(spare[..]), from, bytes);
  }

  const ALL_ONES: Byte := 0xFF

  function BlankSpare(size: nat): (r: Spare)
    ensures |r| == size && forall i :: 0 <= i < size ==> r[i] == ALL_ONES
  {
    seq(size, _ => ALL_ONES)
  }

  /** The spare that holds tag and ECC: all ones elsewhere, but for the seal byte at its end. */
  ghost function MadeSpare(data: seq<nat>, ecc: seq<nat>, tag: seq<Byte>, bytes: seq<Byte>, eccSize: nat,
                           size: nat): Spare
    requires Ended(data, 0) && Ended(ecc, 0) && |tag| == TAG_STORE_SIZE && eccSize <= |bytes| && size > 0
    requires Within(Positions(data, 0, TAG_STORE_SIZE), size) && Within(Positions(ecc, 0, eccSize), size)
  {
    Put(Put(BlankSpare(size)[size - 1 := 0], Positions(ecc, 0, eccSize), bytes), Positions(data, 0, TAG_STORE_SIZE),
        tag)
  }

  method MakeSpare(data: seq<nat>, ecc: seq<nat>, tag: seq<Byte>, bytes: seq<Byte>, eccSize: nat, spare: array<Byte>)
    requires Ended(data, 0) && Ended(ecc, 0) && NoEmptyRun(data, 0) && (eccSize > 0 ==> NoEmptyRun(ecc, 0))
    requires |tag| == TAG_STORE_SIZE && eccSize <= |bytes| && spare.Length > 0
    requires Within(Positions(data, 0, TAG_STORE_SIZE), spare.Length) &&
             Within(Positions(ecc, 0, eccSize), spare.Length)
    modifies spare
    ensures spare[..] == MadeSpare(data, ecc, tag, bytes, eccSize, spare.Length)
  {
    hide Put, Positions, Ended, NoEmptyRun, Within;
    forall i | 0 <= i < spare.Length {
      spare[i] := ALL_ONES;
    }
    spare[spare.Length - 1] := 0;
    assert spare[..] == BlankSpare(spare.Length)[spare.Length - 1 := 0];
    LoadAlong(spare, ecc, bytes, eccSize);
    LoadAlong(spare, data, tag, TAG_STORE_SIZE);
  }

  /** The bytes found at the positions. */
  function Take(spare: Spare, pos: seq<nat>): (r: seq<Byte>)
    requires forall i :: 0 <= i < |pos| ==> pos[i] < |spare|
    ensures |r| == |pos| && forall i :: 0 <= i < |pos| ==> r[i] == spare[pos[i]]
  {
    seq(|pos|, i requires 0 <= i < |pos| => spare[pos[i]])
  }

  /** Read bytes along a layout. */
  method UnloadAlong(spare: Spare, layout: seq<nat>, size: nat) returns (bytes: seq<Byte>)
    requires Ended(layout, 0) && (size > 0 ==> NoEmptyRun(layout, 0)) && Within(Positions(layout, 0, size), |spare|)
    ensures Within(Positions(layout, 0, size), |spare|) && bytes == Take(spare, Positions(layout, 0, size))
  {
    hide Positions, Ended, NoEmptyRun, At;
    bytes := [];
    var left: nat, p: nat := size, 0;
    while At(layout, p) != END && left > 0
      invariant Ended(layout, p) && (left > 0 ==> NoEmptyRun(layout, p)) && left <= size
      invariant Within(Positions(layout, p, left), |spare|)
      invariant bytes + Take(spare, Positions(layout, p, left)) == Take(spare, Positions(layout, 0, size))
      decreases |layout| - p
    {
      EntryFacts(layout, p);
      var n := if layout[p + 1] > left then left else layout[p + 1];
      TakeStep(spare, layout, p, left, n);
      bytes := bytes + spare[layout[p]..layout[p] + n];
      left := left - n;
      p := p + 2;
    }
    NothingToTake(layout, p, left);
  }

  lemma {:induction false} NothingToTake(layout: seq<nat>, p: nat, left: nat)
    requires Ended(layout, p) && (At(layout, p) == END || left == 0)
    ensures Positions(layout, p, left) == []
  {
  }

  lemma {:induction false} TakeStep(spare: Spare, layout: seq<nat>, p: nat, left: nat, n: nat)
    requires Ended(layout, p) && NoEmptyRun(layout, p) && layout[p] != END && left > 0
    requires n == if layout[p + 1] > left then left else layout[p + 1]
    requires Within(Positions(layout, p, left), |spare|)
    ensures layout[p] + n <= |spare| && 0 < n <= left && Within(Positions(layout, p + 2, left - n), |spare|)
    ensures Take(spare, Positions(layout, p, left)) ==
            spare[layout[p]..layout[p] + n] + Take(spare, Positions(layout, p + 2, left - n))
  {
    var run, rest := Run(layout[p], n), Positions(layout, p + 2, left - n);
    var pos := run + rest;
    assert Positions(layout, p, left) == pos;
    assert pos[n - 1] == layout[p] + n - 1;
    forall i | 0 <= i < |rest| ensures rest[i] < |spare| {
      assert pos[n + i] == rest[i];
    }
  }

  method UnloadSpare(data: seq<nat>, ecc: seq<nat>, eccSize: nat, spare: Spare)
    returns (tag: seq<Byte>, bytes: seq<Byte>)
    requires Ended(data, 0) && Ended(ecc, 0) && NoEmptyRun(data, 0) && (eccSize > 0 ==> NoEmptyRun(ecc, 0))
    requires Within(Positions(data, 0, TAG_STORE_SIZE), |spare|) && Within(Positions(ecc, 0, eccSize), |spare|)
    ensures Within(Positions(data, 0, TAG_STORE_SIZE), |spare|) &&
            tag == Take(spare, Positions(data, 0, TAG_STORE_SIZE))
    ensures Within(Positions(ecc, 0, eccSize), |spare|) && bytes == Take(spare, Positions(ecc, 0, eccSize))
  {
    bytes := UnloadAlong(spare, ecc, eccSize);
    tag := UnloadAlong(spare, data, TAG_STORE_SIZE);
  }

  /** Unloading after making gives back tag and ECC; the status byte stays 0xFF and the seal byte 0. */
  lemma {:induction false} SpareRoundTrip(data: seq<nat>, ecc: seq<nat>, s: nat, eccSize: nat, hasEcc: bool,
                                          tag: seq<Byte>, bytes: seq<Byte>)
    requires LayoutsOk(data, ecc, s, eccSize, hasEcc) && |tag| == TAG_STORE_SIZE && |bytes| == eccSize
    ensures var size := SpareSize(data, ecc, s, eccSize);
            Within(Positions(data, 0, TAG_STORE_SIZE), size) && Within(Positions(ecc, 0, eccSize), size) && size > 0 &&
            var spare := MadeSpare(data, ecc, tag, bytes, eccSize, size);
            |spare| == size && Take(spare, Positions(data, 0, TAG_STORE_SIZE)) == tag &&
            Take(spare, Positions(ecc, 0, eccSize)) == (if hasEcc then bytes else []) &&
            s < size && spare[s] == ALL_ONES && spare[size - 1] == 0
  {
    PlacesAreDisjoint(data, ecc, s, eccSize, hasEcc);
    hide *;
    PlacesCount(data, ecc, s, eccSize, hasEcc);
    RoundTripAt(Positions(data, 0, TAG_STORE_SIZE), Positions(ecc, 0, eccSize), s, SpareSize(data, ecc, s, eccSize),
                tag, bytes);
    MadeSpareIs(data, ecc, tag, bytes, eccSize, SpareSize(data, ecc, s, eccSize));
  }

  lemma {:induction false} PlacesCount(data: seq<nat>, ecc: seq<nat>, s: nat, eccSize: nat, hasEcc: bool)
    requires LayoutsOk(data, ecc, s, eccSize, hasEcc)
    ensures Ended(data, 0) && Ended(ecc, 0)
    ensures |Positions(data, 0, TAG_STORE_SIZE)| == TAG_STORE_SIZE
    ensures |Positions(ecc, 0, eccSize)| == if hasEcc then eccSize else 0
  {
  }

  lemma {:induction false} MadeSpareIs(data: seq<nat>, ecc: seq<nat>, tag: seq<Byte>, bytes: seq<Byte>, eccSize: nat,
                                       size: nat)
    requires Ended(data, 0) && Ended(ecc, 0) && |tag| == TAG_STORE_SIZE && eccSize <= |bytes| && size > 0
    requires Within(Positions(data, 0, TAG_STORE_SIZE), size) && Within(Positions(ecc, 0, eccSize), size)
    ensures MadeSpare(data, ecc, tag, bytes, eccSize, size) ==
            Put(Put(BlankSpare(size)[size - 1 := 0], Positions(ecc, 0, eccSize), bytes),
                Positions(data, 0, TAG_STORE_SIZE), tag)
  {
  }

  lemma {:induction false} RoundTripAt(a: seq<nat>, b: seq<nat>, s: nat, size: nat, tag: seq<Byte>, bytes: seq<Byte>)
    requires |a| == |tag| && |b| <= |bytes| && s < size - 1
    requires forall i :: 0 <= i < |a + b| ==> (a + b)[i] != s && (a + b)[i] < size - 1
    requires forall i, j :: 0 <= i < j < |a + b| ==> (a + b)[i] != (a + b)[j]
    ensures Within(a, size) && Within(b, size)
    ensures var spare := Put(Put(BlankSpare(size)[size - 1 := 0], b, bytes), a, tag);
            Take(spare, a) == tag && Take(spare, b) == bytes[..|b|] && spare[s] == ALL_ONES && spare[size - 1] == 0
  {
    hide Put;
    ApartFrom(a, b, s, size);
    var blank := BlankSpare(size)[size - 1 := 0];
    var withEcc := Put(blank, b, bytes);
    PutAt(blank, b, bytes);
    PutAt(withEcc, a, tag);
    var spare := Put(withEcc, a, tag);
    assert forall i :: 0 <= i < |a| ==> Take(spare, a)[i] == tag[i];
    assert forall i :: 0 <= i < |b| ==> b[i] !in a;
    assert forall i :: 0 <= i < |b| ==> Take(spare, b)[i] == bytes[i];
  }

  lemma {:induction false} ApartFrom(a: seq<nat>, b: seq<nat>, s: nat, size: nat)
    requires size > 0 && forall i :: 0 <= i < |a + b| ==> (a + b)[i] != s && (a + b)[i] < size - 1
    requires forall i, j :: 0 <= i < j < |a + b| ==> (a + b)[i] != (a + b)[j]
    ensures Within(a, size) && Within(b, size) && s !in a && s !in b && size - 1 !in a && size - 1 !in b
    ensures forall i :: 0 <= i < |b| ==> b[i] !in a
    ensures forall i, j :: 0 <= i < j < |a| ==> a[i] != a[j]
    ensures forall i, j :: 0 <= i < j < |b| ==> b[i] != b[j]
  {
    assert forall i :: 0 <= i < |a| ==> (a + b)[i] == a[i];
    assert forall i :: 0 <= i < |b| ==> (a + b)[|a| + i] == b[i];
  }
}

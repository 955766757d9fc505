/** The sparse bitmap of bitvec.c: whatever its form (bitmap, hash table, or split into sub-bitmaps) it is a set. */
module Bitvecs {
  import opened BitvecHash

  /** Sub-bitmap that holds bit i, and the bit there. */
  function Bin(i: nat, d: nat): nat
    requires i > 0 && d > 0
  {
    (i - 1) / d
  }

  function Off(i: nat, d: nat): (k: nat)
    requires i > 0 && d > 0
    ensures 1 <= k <= d
  {
    (i - 1) % d + 1
  }

  lemma {:induction false} BinFacts(i: nat, d: nat, size: nat)
    requires NBIT < size && size + NPTR - 1 < U32 && d == Divisor(size) && 0 < i <= size
    ensures 0 < d < size && Bin(i, d) < NPTR
  {
    DivisorCovers(size);
    if Bin(i, d) >= NPTR {
      Quotient(i - 1, d);
      assert ((i - 1) / d) * d >= NPTR * d by { Monotone(NPTR, (i - 1) / d, d); }
    }
  }

  lemma {:induction false} Quotient(x: nat, d: nat)
    requires d > 0
    ensures x == (x / d) * d + x % d && x % d < d
  {
  }

  lemma {:induction false} Monotone(a: nat, b: nat, d: nat)
    requires a <= b
    ensures a * d <= b * d
  {
  }

  lemma {:induction false} BinAndOff(i: nat, j: nat, d: nat)
    requires i > 0 && j > 0 && d > 0
    ensures Bin(i, d) == Bin(j, d) && Off(i, d) == Off(j, d) ==> i == j
  {
    Quotient(i - 1, d);
    Quotient(j - 1, d);
  }

  class Bitvec {
    var iSize: nat
    var nSet: nat
    var iDivisor: nat
    var bitmap: seq<bv8>
    var hash: Table
    var sub: seq<Bitvec?>
    ghost var Repr: set<object>
    ghost var bits: set<nat>

    ghost predicate Valid()
      reads this, Repr
      decreases Repr
    {
      && this in Repr && |bitmap| == USIZE && |sub| == NPTR && iSize + NPTR - 1 < U32
      && (iSize <= NBIT ==> iDivisor == 0 && BitmapIs(bitmap, iSize, bits))
      && (iSize > NBIT && iDivisor == 0 ==> HashIs(hash, nSet, iSize, bits))
      && (iSize > NBIT && iDivisor != 0 ==>
            iDivisor == Divisor(iSize) && SubsApart() &&
            (forall b :: 0 <= b < NPTR && sub[b] != null ==> sub[b].Valid() && sub[b].iSize == iDivisor) &&
            forall i :: i in bits <==> InSub(i))
    }

    /** The sub-bitmaps share no objects. */
    ghost predicate SubsApart()
      reads this, Repr
    {
      && (forall b :: 0 <= b < |sub| && sub[b] != null ==>
          sub[b] in Repr && sub[b].Repr <= Repr && this !in sub[b].Repr)
      && (forall a, b :: 0 <= a < b < |sub| && sub[a] != null && sub[b] != null ==>
            sub[a] in Repr && sub[b] in Repr && sub[a].Repr !! sub[b].Repr)
    }

    ghost predicate InSub(i: nat)
      requires forall b :: 0 <= b < |sub| && sub[b] != null ==> sub[b] in Repr
      reads this, Repr
    {
      0 < i <= iSize && iDivisor > 0 && Bin(i, iDivisor) < |sub| && sub[Bin(i, iDivisor)] != null &&
      Off(i, iDivisor) in sub[Bin(i, iDivisor)].bits
    }

    constructor (iSize: nat)
      requires iSize + NPTR - 1 < U32
      ensures Valid() && fresh(Repr) && this.iSize == iSize && bits == {}
    {
      this.iSize := iSize;
      nSet, iDivisor := 0, 0;
      bitmap := seq(USIZE, _ => 0);
      hash := seq(NINT, _ => 0);
      sub := seq(NPTR, _ => null);
      bits := {};
      Repr := {this};
      new;
      NothingSet(bitmap, iSize);
      EmptyTable(hash);
    }

    method Test(i: nat) returns (r: bool)
      requires Valid()
      ensures r <==> i in bits
      decreases iSize
    {
      if i > iSize || i == 0 {
        BitsInRange();
        return false;
      }
      if iDivisor > 0 {
        BinFacts(i, iDivisor, iSize);
        var p := sub[Bin(i, iDivisor)];
        if p == null {
          return false;
        }
        r := p.Test(Off(i, iDivisor));
        assert r <==> InSub(i);
      } else if iSize <= NBIT {
        r := BitAt(bitmap, i - 1);
      } else {
        r := Lookup(hash, i);
      }
    }

    // ----- setting a bit

    method Set(i: nat)
      requires Valid() && 0 < i <= iSize
      modifies Repr
      ensures Valid() && fresh(Repr - old(Repr)) && iSize == old(iSize)
      ensures bits == old(bits) + {i} && (old(iDivisor) > 0 ==> iDivisor == old(iDivisor))
      decreases iSize, if iDivisor == 0 then 1 else 0, 2
    {
      if iSize > NBIT && iDivisor > 0 {
        SetInSub(i);
      } else if iSize <= NBIT {
        BitmapChanges(bitmap, iSize, bits, i);
        bitmap := bitmap[(i - 1) / 8 := SetBit(bitmap[(i - 1) / 8], (i - 1) % 8)];
        bits := bits + {i};
      } else {
        SetInHash(i);
      }
    }

    /** Create a sub-bitmap. */
    method MakeSub(b: nat)
      requires Valid() && iSize > NBIT && iDivisor > 0 && b < NPTR && sub[b] == null
      modifies this
      ensures Valid() && fresh(Repr - old(Repr)) && iSize == old(iSize) && iDivisor == old(iDivisor) &&
              bits == old(bits)
      ensures sub[b] != null
    {
      DivisorCovers(iSize);
      hide Bin, Off, Divisor, BitmapIs, HashIs;
      var c := new Bitvec(iDivisor);
      sub := sub[b := c];
      Repr := Repr + c.Repr;
      forall i ensures InSub(i) <==> old(InSub(i)) { }
    }

    /** Set the bit in the sub-bitmap it belongs to, creating that if need be. */
    method SetInSub(i: nat)
      requires Valid() && 0 < i <= iSize && iSize > NBIT && iDivisor > 0
      modifies Repr
      ensures Valid() && fresh(Repr - old(Repr)) && iSize == old(iSize) && iDivisor == old(iDivisor)
      ensures bits == old(bits) + {i}
      decreases iSize, 0, 1
    {
      BinFacts(i, iDivisor, iSize);
      var b := Bin(i, iDivisor);
      if sub[b] == null {
        MakeSub(b);
      }
      SetInChild(b, i);
    }

    method SetInChild(b: nat, i: nat)
      requires Valid() && 0 < i <= iSize && iSize > NBIT && iDivisor > 0 && b < NPTR && sub[b] != null &&
               b == Bin(i, iDivisor)
      requires iDivisor < iSize
      modifies Repr
      ensures Valid() && fresh(Repr - old(Repr)) && iSize == old(iSize) && iDivisor == old(iDivisor)
      ensures bits == old(bits) + {i}
      decreases iSize, 0, 0
    {
      hide Bin, Off, Divisor, BitmapIs, HashIs;
      var p := sub[b];
      ghost var k := Off(i, iDivisor);
      p.Set(Off(i, iDivisor));
      Repr := Repr + p.Repr;
      bits := bits + {i};
      forall j | j > 0 ensures Bin(j, iDivisor) == b && Off(j, iDivisor) == k ==> j == i {
        BinAndOff(i, j, iDivisor);
      }
      forall j ensures InSub(j) <==> old(InSub(j)) || j == i { }
    }

    /** Put the value into the hash table, or split it when it is too full. */
    method SetInHash(i: nat)
      requires Valid() && 0 < i <= iSize && iSize > NBIT && iDivisor == 0
      modifies Repr
      ensures Valid() && fresh(Repr - old(Repr)) && iSize == old(iSize)
      ensures iDivisor > 0 <==>
                i !in old(hash) && old(nSet) >= (if old(hash)[Home(i)] > 0 then MXHASH else NINT - 1)
      ensures bits == old(bits) + {i}
      decreases iSize, 1, 0
    {
      hide TableOk, Count, Divisor, BitmapIs;
      var h := Home(i);
      ghost var d := 0;
      var collided := hash[h] > 0;
      while hash[h] > 0
        invariant d < NINT && h == Slot(i, d) && Probed(hash, i, d)
        decreases NINT - d
        modifies {}
      {
        if hash[h] == i {
          assert i in hash;
          return;
        }
        ProbeEnds(hash, i, d + 1);
        SlotFacts(i, d, d);
        h := h + 1;
        if h >= NINT {
          h := 0;
        }
        d := d + 1;
      }
      HashMisses(hash, nSet, iSize, bits, i, d);
      if nSet >= (if collided then MXHASH else NINT - 1) {
        Rehash(i);
        return;
      }
      InsertInHash(hash, nSet, iSize, bits, i, d);
      nSet := nSet + 1;
      hash := hash[h := i];
      bits := bits + {i};
    }

    /** Become a split bitmap and set all values again. */
    method Rehash(i: nat)
      requires Valid() && 0 < i <= iSize && iSize > NBIT && iDivisor == 0
      requires this in Repr
      modifies Repr
      ensures Valid() && fresh(Repr - old(Repr)) && iSize == old(iSize) && iDivisor > 0
      ensures bits == old(bits) + {i}
      decreases iSize, 0, 3
    {
      hide *;
      ghost var before := bits;
      var values := StartSplit();
      Set(i);
      for j := 0 to NINT
        invariant Valid() && fresh(Repr - old(Repr)) && iSize == old(iSize) && iDivisor > 0
        invariant forall x :: x in bits <==> x == i || (x > 0 && x in values[..j])
      {
        assert values[..j + 1] == values[..j] + [values[j]];
        if values[j] > 0 {
          assert values[j] in values;
          Set(values[j]);
        }
      }
      assert values[..NINT] == values;
    }

    /** Give up the hash table: a split bitmap without sub-bitmaps. */
    method StartSplit() returns (values: Table)
      requires Valid() && iSize > NBIT && iDivisor == 0
      modifies this
      ensures Valid() && Repr == old(Repr) && iSize == old(iSize) && iDivisor > 0 && bits == {}
      ensures forall v :: v in values ==> v <= iSize
      ensures forall x :: x in old(bits) <==> x > 0 && x in values
    {
      values := hash;
      DivisorCovers(iSize);
      hide Bin, Off, Divisor, BitmapIs, TableOk, Count;
      hash := seq(NINT, _ => 0);
      sub := seq(NPTR, _ => null);
      iDivisor := Divisor(iSize);
      bits := {};
    }

    // ----- clearing a bit

    method Clear(i: nat)
      requires Valid() && 0 < i <= iSize
      modifies Repr
      ensures Valid() && Repr == old(Repr) && iSize == old(iSize) && bits == old(bits) - {i}
      decreases iSize, 1
    {
      if iDivisor > 0 {
        BinFacts(i, iDivisor, iSize);
        var b := Bin(i, iDivisor);
        if sub[b] == null {
          assert !InSub(i);
          return;
        }
        ClearInChild(b, i);
      } else if iSize <= NBIT {
        BitmapChanges(bitmap, iSize, bits, i);
        bitmap := bitmap[(i - 1) / 8 := ClearBit(bitmap[(i - 1) / 8], (i - 1) % 8)];
        bits := bits - {i};
      } else {
        hash, nSet := Rebuild(hash, i);
        bits := bits - {i};
      }
    }

    method ClearInChild(b: nat, i: nat)
      requires Valid() && 0 < i <= iSize && iSize > NBIT && iDivisor > 0 && b < NPTR && sub[b] != null &&
               b == Bin(i, iDivisor)
      requires iDivisor < iSize
      modifies Repr
      ensures Valid() && Repr == old(Repr) && iSize == old(iSize) && bits == old(bits) - {i}
      decreases iSize, 0
    {
      hide Bin, Off, Divisor, BitmapIs, HashIs;
      var p := sub[b];
      ghost var k := Off(i, iDivisor);
      p.Clear(Off(i, iDivisor));
      bits := bits - {i};
      forall j | j > 0 ensures Bin(j, iDivisor) == b && Off(j, iDivisor) == k ==> j == i {
        BinAndOff(i, j, iDivisor);
      }
      forall j ensures InSub(j) <==> old(InSub(j)) && j != i { }
    }

    lemma BitsInRange()
      requires Valid()
      ensures forall i :: i in bits ==> 0 < i <= iSize
    {
      if iSize > NBIT && iDivisor > 0 {
        forall i | i in bits ensures 0 < i <= iSize {
          assert InSub(i);
        }
      }
    }
  }

  ghost predicate BitmapIs(bitmap: seq<bv8>, size: nat, bits: set<nat>) {
    |bitmap| == USIZE && size <= NBIT && forall i :: i in bits <==> 0 < i <= size && BitAt(bitmap, i - 1)
  }

  ghost predicate HashIs(hash: Table, nSet: nat, size: nat, bits: set<nat>) {
    && TableOk(hash) && nSet == Count(hash) < NINT
    && (forall v :: v in hash ==> v <= size)
    && (forall i :: i in bits <==> i > 0 && i in hash)
  }

  lemma {:induction false} InsertInHash(hash: Table, nSet: nat, size: nat, bits: set<nat>, i: nat, d: nat)
    requires HashIs(hash, nSet, size, bits) && 0 < i <= size && nSet + 1 < NINT
    requires Probed(hash, i, d) && d < NINT && hash[Slot(i, d)] == 0
    ensures HashIs(hash[Slot(i, d) := i], nSet + 1, size, bits + {i})
  {
    ProbeInserts(hash, i, d);
    hide TableOk, Count;
    var after := hash[Slot(i, d) := i];
    forall v | v in after ensures v <= size {
      if v > 0 && v != i {
        assert v in hash;
      }
    }
  }

  lemma {:induction false} HashMisses(hash: Table, nSet: nat, size: nat, bits: set<nat>, i: nat, d: nat)
    requires HashIs(hash, nSet, size, bits) && 0 < i <= size
    requires Probed(hash, i, d) && d < NINT && hash[Slot(i, d)] == 0
    ensures i !in hash
  {
    ProbeMisses(hash, i, d);
  }

  lemma {:induction false} NothingSet(bitmap: seq<bv8>, size: nat)
    requires |bitmap| == USIZE && forall i :: 0 <= i < USIZE ==> bitmap[i] == 0
    ensures size <= NBIT ==> BitmapIs(bitmap, size, {})
  {
    forall i | 0 <= i < NBIT ensures !BitAt(bitmap, i) {
      BitOps(0, 0, i % 8);
    }
  }

  /** Probe for a value. */
  method Lookup(t: Table, i: nat) returns (found: bool)
    requires TableOk(t) && Count(t) < NINT && i > 0
    ensures found <==> i in t
  {
    var h := Home(i);
    ghost var d := 0;
    while t[h] > 0
      invariant d < NINT && h == Slot(i, d) && Probed(t, i, d)
      decreases NINT - d
    {
      if t[h] == i {
        return true;
      }
      ProbeEnds(t, i, d + 1);
      SlotFacts(i, d, d);
      h := (h + 1) % NINT;
      d := d + 1;
    }
    ProbeMisses(t, i, d);
    found := false;
  }

  lemma {:induction false} BitmapChanges(bitmap: seq<bv8>, size: nat, bits: set<nat>, i: nat)
    requires BitmapIs(bitmap, size, bits) && 0 < i <= size
    ensures (i - 1) / 8 < |bitmap|
    ensures BitmapIs(bitmap[(i - 1) / 8 := SetBit(bitmap[(i - 1) / 8], (i - 1) % 8)], size, bits + {i})
    ensures BitmapIs(bitmap[(i - 1) / 8 := ClearBit(bitmap[(i - 1) / 8], (i - 1) % 8)], size, bits - {i})
  {
    hide BitAt, SetBit, ClearBit;
    forall j | 0 <= j < size
      ensures BitAt(bitmap[(i - 1) / 8 := SetBit(bitmap[(i - 1) / 8], (i - 1) % 8)], j) <==>
              j == i - 1 || BitAt(bitmap, j)
      ensures BitAt(bitmap[(i - 1) / 8 := ClearBit(bitmap[(i - 1) / 8], (i - 1) % 8)], j) <==>
              j != i - 1 && BitAt(bitmap, j)
    {
      BitChanged(bitmap, i - 1, j);
    }
  }

  /** Build the hash table again without one value. */
  method Rebuild(values: Table, i: nat) returns (t: Table, nSet: nat)
    requires TableOk(values) && Count(values) < NINT && i > 0
    ensures TableOk(t) && nSet == Count(t) < NINT
    ensures forall v :: v > 0 ==> (v in t <==> v in values && v != i)
  {
    t := seq(NINT, _ => 0);
    nSet := 0;
    EmptyTable(t);
    for j := 0 to NINT
      invariant TableOk(t) && nSet == Count(t) <= Count(values[..j])
      invariant forall v :: v > 0 ==> (v in t <==> v in values[..j] && v != i)
    {
      CountPrefix(values, j + 1);
      assert values[..j + 1][..j] == values[..j];
      if values[j] > 0 && values[j] != i {
        t := PutValue(t, values[j]);
        nSet := nSet + 1;
      }
    }
    assert values[..NINT] == values;
  }

  lemma {:induction false} CountPrefix(t: seq<nat>, n: nat)
    requires n <= |t|
    ensures Count(t[..n]) <= Count(t)
  {
    if n < |t| {
      CountPrefix(t[..|t| - 1], n);
      assert t[..|t| - 1][..n] == t[..n];
    } else {
      assert t[..n] == t;
    }
  }

  /** Put a value not in the table into the first free slot from its home on. */
  method PutValue(t: Table, v: nat) returns (r: Table)
    requires TableOk(t) && Count(t) < NINT && v > 0 && v !in t
    ensures TableOk(r) && Count(r) == Count(t) + 1
    ensures forall x :: x > 0 ==> (x in r <==> x == v || x in t)
  {
    var h := Home(v);
    ghost var d := 0;
    while t[h] > 0
      invariant d < NINT && h == Slot(v, d) && Probed(t, v, d)
      decreases NINT - d
    {
      assert t[h] in t;
      ProbeEnds(t, v, d + 1);
      SlotFacts(v, d, d);
      h := h + 1;
      if h >= NINT {
        h := 0;
      }
      d := d + 1;
    }
    ProbeInserts(t, v, d);
    r := t[h := v];
  }
}

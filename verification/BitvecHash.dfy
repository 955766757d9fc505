/** The open-addressing hash table of a sparse bitmap, and the bytes of a small one. */
module BitvecHash {

  // Constants of bitvec.c where a pointer has eight bytes.
  const USIZE: nat := 496
  const NBIT: nat := 3968
  const NINT: nat := 124
  const MXHASH: nat := 62
  const NPTR: nat := 62
  const U32: nat := 0x1_0000_0000

  // ----- the divisor of a split

  /** Computed in 32 bits. */
  function Divisor(size: nat): nat {
    ((size + NPTR - 1) % U32) / NPTR
  }

  /** The sub-bitmaps cover all bits exactly when the addition does not wrap around. */
  lemma {:induction false} DivisorCovers(size: nat)
    requires NBIT < size < U32
    ensures NPTR * Divisor(size) >= size <==> size + NPTR - 1 < U32
    ensures size + NPTR - 1 < U32 ==> 0 < Divisor(size) < size
    ensures size + NPTR - 1 >= U32 ==> Divisor(size) == 0
    ensures Divisor(U32 - 1) == 0
  {
  }

  // ----- the bitmap: a bit in a byte

  function Mask(k: nat): bv8
    requires k < 8
  {
    if k == 0 then 1 else if k == 1 then 2 else if k == 2 then 4 else if k == 3 then 8
    else if k == 4 then 16 else if k == 5 then 32 else if k == 6 then 64 else 128
  }

  predicate HasBit(b: bv8, k: nat)
    requires k < 8
  {
    b & Mask(k) != 0
  }

  function SetBit(b: bv8, k: nat): bv8
    requires k < 8
  {
    b | Mask(k)
  }

  function ClearBit(b: bv8, k: nat): bv8
    requires k < 8
  {
    b & !Mask(k)
  }

  lemma {:induction false} BitOps(b: bv8, k: nat, j: nat)
    requires k < 8 && j < 8
    ensures HasBit(SetBit(b, k), j) <==> j == k || HasBit(b, j)
    ensures HasBit(ClearBit(b, k), j) <==> j != k && HasBit(b, j)
    ensures !HasBit(0, j)
  {
  }

  /** Bit i of the bitmap, counted from 0. */
  predicate BitAt(bitmap: seq<bv8>, i: nat)
    requires i / 8 < |bitmap|
  {
    HasBit(bitmap[i / 8], i % 8)
  }

  lemma {:induction false} BitChanged(bitmap: seq<bv8>, i: nat, j: nat)
    requires i / 8 < |bitmap| && j / 8 < |bitmap|
    ensures BitAt(bitmap[i / 8 := SetBit(bitmap[i / 8], i % 8)], j) <==> j == i || BitAt(bitmap, j)
    ensures BitAt(bitmap[i / 8 := ClearBit(bitmap[i / 8], i % 8)], j) <==> j != i && BitAt(bitmap, j)
  {
    if i / 8 == j / 8 {
      BitOps(bitmap[i / 8], i % 8, j % 8);
    }
    hide HasBit, SetBit, ClearBit;
  }

  // ----- the hash table: slot 0 means free, value v is stored at or behind its home slot

  type Table = t: seq<nat> | |t| == NINT witness seq(NINT, _ => 0)

  function Home(v: nat): (h: nat)
    requires v > 0
    ensures h < NINT
  {
    (v - 1) % NINT
  }

  /** Slot at a distance from the home of v, around the end of the table. */
  function Slot(v: nat, d: nat): (s: nat)
    requires v > 0 && d <= NINT
    ensures s < NINT
  {
    if Home(v) + d >= NINT then Home(v) + d - NINT else Home(v) + d
  }

  /** Distance of slot s from the home of v. */
  function Dist(v: nat, s: nat): (d: nat)
    requires v > 0 && s < NINT
    ensures d < NINT && Slot(v, d) == s
  {
    if s >= Home(v) then s - Home(v) else s + NINT - Home(v)
  }

  lemma {:induction false} SlotFacts(v: nat, d: nat, e: nat)
    requires v > 0 && d < NINT && e < NINT
    ensures Slot(v, d) == Slot(v, e) <==> d == e
    ensures Dist(v, Slot(v, d)) == d
    ensures Slot(v, d + 1) == (if Slot(v, d) + 1 >= NINT then 0 else Slot(v, d) + 1) == (Slot(v, d) + 1) % NINT
  {
    hide Home;
  }

  /** Every value is found: no free slot between its home and it, and no value is there twice. */
  ghost predicate TableOk(t: Table) {
    && (forall s, e :: 0 <= s < NINT && t[s] > 0 && 0 <= e < Dist(t[s], s) ==> t[Slot(t[s], e)] > 0)
    && (forall s, r :: 0 <= s < r < NINT && t[s] > 0 ==> t[s] != t[r])
  }

  /** Distance d: slots before are taken by other values. */
  ghost predicate Probed(t: Table, v: nat, d: nat) {
    v > 0 && d <= NINT && forall e :: 0 <= e < d ==> t[Slot(v, e)] > 0 && t[Slot(v, e)] != v
  }

  function Count(t: seq<nat>): (n: nat)
    ensures n <= |t|
  {
    if t == [] then 0 else Count(t[..|t| - 1]) + (if t[|t| - 1] > 0 then 1 else 0)
  }

  lemma {:induction false} CountSet(t: seq<nat>, s: nat, v: nat)
    requires s < |t| && t[s] == 0 && v > 0
    ensures Count(t[s := v]) == Count(t) + 1
  {
    var n := |t| - 1;
    if s == n {
      assert t[s := v][..n] == t[..n];
    } else {
      assert t[s := v][..n] == t[..n][s := v];
      CountSet(t[..n], s, v);
    }
  }

  lemma {:induction false} CountFull(t: seq<nat>)
    ensures Count(t) == |t| <==> forall s :: 0 <= s < |t| ==> t[s] > 0
  {
    if t != [] {
      CountFull(t[..|t| - 1]);
    }
  }

  /** Probing ends: some slot is free. */
  lemma {:induction false} ProbeEnds(t: Table, v: nat, d: nat)
    requires Probed(t, v, d) && Count(t) < NINT
    ensures d < NINT
  {
    CountFull(t);
    var s :| 0 <= s < NINT && t[s] == 0;
    assert t[Slot(v, Dist(v, s))] == 0;
  }

  /** A free slot at the end of the probing means the value is not in the table. */
  lemma {:induction false} ProbeMisses(t: Table, v: nat, d: nat)
    requires TableOk(t) && Probed(t, v, d) && d < NINT && t[Slot(v, d)] == 0
    ensures v !in t
  {
    forall s | 0 <= s < NINT ensures t[s] != v {
      var e := Dist(v, s);
      SlotFacts(v, d, e);
      assert e < d ==> t[Slot(v, e)] != v;
      assert t[s] > 0 && d < Dist(t[s], s) ==> t[Slot(t[s], d)] > 0;
    }
  }

  lemma {:induction false} ProbeInserts(t: Table, v: nat, d: nat)
    requires TableOk(t) && Probed(t, v, d) && d < NINT && t[Slot(v, d)] == 0
    ensures TableOk(t[Slot(v, d) := v]) && Count(t[Slot(v, d) := v]) == Count(t) + 1
    ensures forall x :: x > 0 ==> (x in t[Slot(v, d) := v] <==> x == v || x in t)
  {
    var s := Slot(v, d);
    var t': Table := t[s := v];
    ProbeMisses(t, v, d);
    CountSet(t, s, v);
    SlotFacts(v, d, d);
    forall r, e | 0 <= r < NINT && t'[r] > 0 && 0 <= e < Dist(t'[r], r) ensures t'[Slot(t'[r], e)] > 0 {
      if r != s {
        assert t[Slot(t[r], e)] > 0;
      } else {
        assert t[Slot(v, e)] > 0;
      }
    }
    forall x | x > 0 && (x == v || x in t) ensures x in t' {
      if x == v {
        assert t'[s] == v;
      } else {
        var r :| 0 <= r < NINT && t[r] == x;
        assert t'[r] == x;
      }
    }
  }

  lemma {:induction false} EmptyTable(t: Table)
    requires forall s :: 0 <= s < NINT ==> t[s] == 0
    ensures TableOk(t) && Count(t) == 0 && forall x :: x > 0 ==> x !in t
  {
    NothingCounted(t);
  }

  lemma {:induction false} NothingCounted(t: seq<nat>)
    requires forall s :: 0 <= s < |t| ==> t[s] == 0
    ensures Count(t) == 0
  {
    if t != [] {
      NothingCounted(t[..|t| - 1]);
    }
  }
}

/** How the steps of the buffer cache change its state, and that they keep the cache well formed. */
module CacheSteps {
  import opened Chains
  import opened FlashModel
  import opened LogicalBlock
  import opened DeviceState

  /** A dirty buffer has been written to flash: it leaves its group and becomes valid. */
  function CleanOne(buf: BufSt, s: nat, i: nat, b: Buf): BufSt
    requires s < |buf.groups| && i < |buf.pool| && buf.groups[s].count > 0
  {
    BufSt(buf.pool[i := b], buf.lru,
          buf.groups[s := Group(Without(buf.groups[s].dirty, i), buf.groups[s].count - 1, buf.groups[s].lock)])
  }

  /** b' is b after its page has been written. */
  predicate Cleaned(b: Buf, b': Buf) {
    b' == b.(mark := Mark.Valid, truncTail := b'.truncTail) && (b'.truncTail ==> b.truncTail)
  }

  /** The dirty buffers of one object have become valid; nothing else has changed. */
  ghost predicate AllCleaned(pool: seq<Buf>, pool': seq<Buf>, o: Obj) {
    && |pool'| == |pool|
    && forall i :: 0 <= i < |pool| ==>
         if pool[i].mark == Dirty && ObjOf(pool[i]) == o then Cleaned(pool[i], pool'[i]) else pool'[i] == pool[i]
  }

  /** The buffer once its page is on flash. */
  function AsClean(b: Buf, clearTail: bool): (b': Buf)
    ensures Cleaned(b, b') && ObjOf(b') == ObjOf(b) && b'.pageId == b.pageId
  {
    b.(mark := Mark.Valid, truncTail := b.truncTail && !clearTail)
  }

  lemma {:induction false} DirtyIsInItsGroup(buf: BufSt, s: nat, i: nat)
    requires GroupsOk(buf) && s < |buf.groups| && buf.groups[s].dirty != []
    requires i < |buf.pool| && buf.pool[i].mark == Dirty && ObjOf(buf.pool[i]) == GroupObj(buf, s)
    ensures i in buf.groups[s].dirty
  {
    var t :| 0 <= t < |buf.groups| && i in buf.groups[t].dirty;
    assert GroupOk(buf, t);
    assert GroupObj(buf, t) == ObjOf(buf.pool[i]);
  }

  /** The dirty list of an object's group and its dirty pages are the same thing. */
  lemma {:induction false} GroupIsDirtyMap(buf: BufSt, g: Geometry, typeOf: Obj -> nat, s: nat, i: nat)
    requires CacheOk(buf, g, typeOf) && s < |buf.groups| && i in buf.groups[s].dirty
    ensures i < |buf.pool| && buf.pool[i].pageId < g.pages && ObjOf(buf.pool[i]) == GroupObj(buf, s)
    ensures IsDirtyOf(buf.pool[i], GroupObj(buf, s), buf.pool[i].pageId)
    ensures buf.pool[i].pageId in DirtyMap(buf.pool, GroupObj(buf, s), g.pages)
    ensures DirtyMap(buf.pool, GroupObj(buf, s), g.pages)[buf.pool[i].pageId] == DPageOf(buf.pool[i])
  {
    assert GroupOk(buf, s);
    DirtyMapAt(buf.pool, GroupObj(buf, s), g.pages, i);
  }

  lemma {:induction false} NotInGroupNotDirty(buf: BufSt, g: Geometry, typeOf: Obj -> nat, s: nat, id: nat)
    requires CacheOk(buf, g, typeOf) && s < |buf.groups| && buf.groups[s].dirty != []
    requires forall i :: i in buf.groups[s].dirty ==> i < |buf.pool| && buf.pool[i].pageId != id
    ensures id !in DirtyMap(buf.pool, GroupObj(buf, s), g.pages)
  {
    var i := DirtyIdx(buf.pool, GroupObj(buf, s), id);
    if i >= 0 {
      DirtyIsInItsGroup(buf, s, i);
    }
  }

  lemma {:induction false} CleanKeepsGroup(buf: BufSt, s: nat, i: nat, b: Buf, t: nat)
    requires GroupsOk(buf) && s < |buf.groups| && i in buf.groups[s].dirty && i < |buf.pool| && t < |buf.groups|
    requires Cleaned(buf.pool[i], b) && buf.groups[s].count > 0
    ensures var buf' := CleanOne(buf, s, i, b);
            GroupOk(buf', t) &&
            (buf'.groups[t].dirty != [] ==> buf.groups[t].dirty != [] && GroupObj(buf', t) == GroupObj(buf, t))
  {
    assert GroupOk(buf, s) && GroupOk(buf, t);
    var list := buf.groups[t].dirty;
    if t == s {
      WithoutKeepsNoDup(list, i);
      var rest := Without(list, i);
      forall x | 0 <= x < |rest| ensures rest[x] in list && rest[x] != i { assert rest[x] in rest; }
    } else {
      assert i in list ==> GroupObj(buf, t) == ObjOf(buf.pool[i]) == GroupObj(buf, s);
    }
  }

  lemma {:induction false} CleanKeepsGroupsOk(buf: BufSt, s: nat, i: nat, b: Buf)
    requires GroupsOk(buf) && s < |buf.groups| && i in buf.groups[s].dirty && i < |buf.pool|
    requires Cleaned(buf.pool[i], b) && buf.groups[s].count > 0
    ensures GroupsOk(CleanOne(buf, s, i, b))
  {
    var buf' := CleanOne(buf, s, i, b);
    forall t | 0 <= t < |buf.groups|
      ensures GroupOk(buf', t) &&
              (buf'.groups[t].dirty != [] ==> buf.groups[t].dirty != [] && GroupObj(buf', t) == GroupObj(buf, t))
    {
      CleanKeepsGroup(buf, s, i, b, t);
    }
    forall j | 0 <= j < |buf'.pool| && buf'.pool[j].mark == Dirty
      ensures exists t :: 0 <= t < |buf'.groups| && j in buf'.groups[t].dirty
    {
      var t :| 0 <= t < |buf.groups| && j in buf.groups[t].dirty;
      assert j in buf'.groups[t].dirty;
    }
  }

  lemma {:induction false} CleanKeepsCacheOk(buf: BufSt, g: Geometry, typeOf: Obj -> nat, s: nat, i: nat, b: Buf)
    requires CacheOk(buf, g, typeOf) && s < |buf.groups| && i in buf.groups[s].dirty && i < |buf.pool|
    requires Cleaned(buf.pool[i], b)
    ensures buf.groups[s].count > 0 && CacheOk(CleanOne(buf, s, i, b), g, typeOf)
  {
    assert GroupOk(buf, s);
    CleanKeepsGroupsOk(buf, s, i, b);
  }

  /** Its page is no longer among the dirty pages of its object; other objects see no change. */
  lemma {:induction false} CleanShrinksDirtyMap(pool: seq<Buf>, o: Obj, n: nat, i: nat, b: Buf)
    requires DistinctKeys(pool) && i < |pool| && pool[i].mark == Dirty && Cleaned(pool[i], b)
    ensures DirtyMap(pool[i := b], o, n) ==
            if ObjOf(pool[i]) == o then DirtyMap(pool, o, n) - {pool[i].pageId} else DirtyMap(pool, o, n)
  {
    hide DistinctKeys, IsDirtyOf;
    forall id: nat
      ensures DirtyIdx(pool[i := b], o, id) ==
              if ObjOf(pool[i]) == o && id == pool[i].pageId then -1 else DirtyIdx(pool, o, id)
      ensures DirtyIdx(pool[i := b], o, id) != i
    {
      CleanedDirtyIdx(pool, o, id, i, b);
    }
  }

  lemma {:induction false} CleanedDirtyIdx(pool: seq<Buf>, o: Obj, id: nat, i: nat, b: Buf)
    requires DistinctKeys(pool) && i < |pool| && pool[i].mark == Dirty && Cleaned(pool[i], b)
    ensures DirtyIdx(pool[i := b], o, id) ==
            if ObjOf(pool[i]) == o && id == pool[i].pageId then -1 else DirtyIdx(pool, o, id)
    ensures DirtyIdx(pool[i := b], o, id) != i
  {
    if !IsDirtyOf(pool[i], o, id) {
      SameDirtyIdx(pool, pool[i := b], o, id, i);
    }
  }

  lemma {:induction false} SameDirtyIdx(pool: seq<Buf>, pool': seq<Buf>, o: Obj, id: nat, i: nat)
    requires DistinctKeys(pool) && i < |pool| && |pool'| == |pool|
    requires forall j :: 0 <= j < |pool| && j != i ==> pool'[j] == pool[j]
    requires !IsDirtyOf(pool[i], o, id) && !IsDirtyOf(pool'[i], o, id)
    ensures DirtyIdx(pool', o, id) == DirtyIdx(pool, o, id)
  {
    var j, k := DirtyIdx(pool, o, id), DirtyIdx(pool', o, id);
    assert j >= 0 ==> IsDirtyOf(pool'[j], o, id);
    assert k >= 0 ==> IsDirtyOf(pool[k], o, id);
  }

  /** s is the dirty group of object o. */
  ghost predicate GroupOf(buf: BufSt, s: nat, o: Obj) {
    s < |buf.groups| && buf.groups[s].dirty != [] && GroupOk(buf, s) && GroupObj(buf, s) == o
  }

  lemma {:induction false} NewLruKeepsCacheOk(buf: BufSt, g: Geometry, typeOf: Obj -> nat, lru: seq<nat>)
    requires CacheOk(buf, g, typeOf) && LruOk(lru, |buf.pool|)
    ensures CacheOk(buf.(lru := lru), g, typeOf)
    ensures forall s, o :: GroupOf(buf, s, o) ==> GroupOf(buf.(lru := lru), s, o)
  {
    var buf' := buf.(lru := lru);
    forall s | 0 <= s < |buf.groups| ensures GroupOk(buf', s) { assert GroupOk(buf, s); }
  }

  lemma {:induction false} OneGroupPerObj(buf: BufSt, s: nat, t: nat, o: Obj)
    requires GroupsOk(buf) && GroupOf(buf, s, o) && GroupOf(buf, t, o)
    ensures s == t
  {
  }

  lemma {:induction false} CacheParts(buf: BufSt, g: Geometry, typeOf: Obj -> nat)
    requires CacheOk(buf, g, typeOf)
    ensures PoolOk(buf.pool, g, typeOf) && DistinctKeys(buf.pool) && LruOk(buf.lru, |buf.pool|) && GroupsOk(buf)
  {
  }

  lemma {:induction false} WrittenOutKeepsCacheOk(buf: BufSt, g: Geometry, typeOf: Obj -> nat, s: nat, i: nat, b: Buf)
    requires CacheOk(buf, g, typeOf) && i < |buf.pool| && buf.pool[i].mark == Dirty &&
             GroupOf(buf, s, ObjOf(buf.pool[i]))
    requires Cleaned(buf.pool[i], b)
    ensures buf.groups[s].count > 0 && CacheOk(CleanOne(buf, s, i, b), g, typeOf)
    ensures CleanOne(buf, s, i, b) == BufSt(buf.pool[i := b], buf.lru, CleanOne(buf, s, i, buf.pool[i]).groups)
  {
    DirtyIsInItsGroup(buf, s, i);
    CleanKeepsCacheOk(buf, g, typeOf, s, i, b);
  }

  // ----- cleaning a whole group, by increasing page id

  /** The dirty buffers of object o with page ids below id have become valid. */
  ghost predicate PartlyCleaned(buf: BufSt, buf': BufSt, s: nat, o: Obj, id: nat) {
    && |buf'.pool| == |buf.pool| && |buf'.groups| == |buf.groups| && s < |buf.groups|
    && (forall i :: 0 <= i < |buf.pool| ==>
          if buf.pool[i].mark == Dirty && ObjOf(buf.pool[i]) == o && buf.pool[i].pageId < id
          then Cleaned(buf.pool[i], buf'.pool[i]) else buf'.pool[i] == buf.pool[i])
    && buf'.groups == buf.groups[s := buf'.groups[s]] && buf'.groups[s].lock == buf.groups[s].lock
    && (buf'.groups[s].dirty != [] ==> GroupOf(buf', s, o))
  }

  lemma {:induction false} CleanStarts(buf: BufSt, g: Geometry, typeOf: Obj -> nat, s: nat, o: Obj)
    requires CacheOk(buf, g, typeOf) && GroupOf(buf, s, o)
    ensures PartlyCleaned(buf, buf, s, o, 0) && s < |buf.groups|
  {
  }

  lemma {:induction false} GroupWellFormed(buf: BufSt, g: Geometry, typeOf: Obj -> nat, s: nat)
    requires CacheOk(buf, g, typeOf) && s < |buf.groups|
    ensures GroupOk(buf, s)
  {
  }

  lemma {:induction false} DirtyBufOf(buf: BufSt, buf': BufSt, g: Geometry, typeOf: Obj -> nat, s: nat, o: Obj, id: nat,
                                      x: nat)
    requires CacheOk(buf', g, typeOf) && PartlyCleaned(buf, buf', s, o, id) && x in buf'.groups[s].dirty
    ensures x < |buf'.pool| && buf'.pool[x].mark == Dirty && ObjOf(buf'.pool[x]) == o &&
            GroupOf(buf', s, ObjOf(buf'.pool[x]))
  {
    assert GroupOk(buf', s);
  }

  /** No dirty buffer of the object with this page id. */
  lemma {:induction false} CleanSkips(buf: BufSt, buf': BufSt, g: Geometry, typeOf: Obj -> nat, s: nat, o: Obj, id: nat)
    requires CacheOk(buf, g, typeOf) && GroupOf(buf, s, o)
    requires CacheOk(buf', g, typeOf) && PartlyCleaned(buf, buf', s, o, id)
    requires forall j :: j in buf'.groups[s].dirty ==> j < |buf'.pool| && buf'.pool[j].pageId != id
    ensures PartlyCleaned(buf, buf', s, o, id + 1)
  {
    forall i | 0 <= i < |buf.pool| && buf.pool[i].mark == Dirty && ObjOf(buf.pool[i]) == o && buf.pool[i].pageId == id
      ensures false
    {
      StillListed(buf, buf', g, typeOf, s, o, id, i);
    }
  }

  lemma {:induction false} StillListed(buf: BufSt, buf': BufSt, g: Geometry, typeOf: Obj -> nat, s: nat, o: Obj,
                                       id: nat, i: nat)
    requires CacheOk(buf, g, typeOf) && GroupOf(buf, s, o)
    requires CacheOk(buf', g, typeOf) && PartlyCleaned(buf, buf', s, o, id)
    requires i < |buf.pool| && buf.pool[i].mark == Dirty && ObjOf(buf.pool[i]) == o && buf.pool[i].pageId >= id
    ensures buf'.pool[i] == buf.pool[i] && i in buf'.groups[s].dirty
  {
    hide DistinctKeys, LruOk, PoolOk;
    assert buf'.pool[i] == buf.pool[i];
    DirtyHasGroup(buf', i);
    var t: nat :| GroupOf(buf', t, o) && i in buf'.groups[t].dirty;
    if t != s {
      assert GroupOk(buf, t);
      OneGroupPerObj(buf, s, t, o);
    }
  }

  /** The dirty buffer with this page id has been cleaned. */
  lemma {:induction false} CleanTakes(buf: BufSt, buf': BufSt, buf'': BufSt, g: Geometry, typeOf: Obj -> nat,
                                      s: nat, o: Obj, id: nat, x: nat)
    requires CacheOk(buf, g, typeOf) && GroupOf(buf, s, o)
    requires CacheOk(buf', g, typeOf) && CacheOk(buf'', g, typeOf) && PartlyCleaned(buf, buf', s, o, id)
    requires x in buf'.groups[s].dirty && x < |buf'.pool| && buf'.pool[x].pageId == id && buf'.groups[s].count > 0
    requires |buf''.pool| == |buf'.pool| && buf''.pool == buf'.pool[x := buf''.pool[x]] &&
             Cleaned(buf'.pool[x], buf''.pool[x])
    requires buf''.groups == CleanOne(buf', s, x, buf'.pool[x]).groups
    ensures PartlyCleaned(buf, buf'', s, o, id + 1) && s < |buf''.groups|
  {
    assert GroupOk(buf', s) && GroupOk(buf'', s);
    assert buf'.pool[x].mark == Dirty && ObjOf(buf'.pool[x]) == o;
    CleanedRest(buf', buf'', s, o, x);
    OnlyOneWithId(buf, buf', s, o, id, x);
  }

  lemma {:induction false} OnlyOneWithId(buf: BufSt, buf': BufSt, s: nat, o: Obj, id: nat, x: nat)
    requires DistinctKeys(buf'.pool) && PartlyCleaned(buf, buf', s, o, id)
    requires x < |buf'.pool| && IsDirtyOf(buf'.pool[x], o, id)
    ensures forall i :: 0 <= i < |buf.pool| && IsDirtyOf(buf.pool[i], o, id) ==> i == x
  {
  }

  lemma {:induction false} CleanedRest(buf: BufSt, buf': BufSt, s: nat, o: Obj, x: nat)
    requires GroupOf(buf, s, o) && x in buf.groups[s].dirty && x < |buf.pool| && buf.groups[s].count > 0
    requires |buf'.pool| == |buf.pool| && buf'.pool == buf.pool[x := buf'.pool[x]] && Cleaned(buf.pool[x], buf'.pool[x])
    requires buf'.groups == CleanOne(buf, s, x, buf.pool[x]).groups && GroupOk(buf', s)
    ensures buf'.groups[s].dirty != [] ==> GroupOf(buf', s, o)
  {
    if buf'.groups[s].dirty != [] {
      assert buf'.groups[s].dirty[0] in buf'.groups[s].dirty;
    }
  }

  lemma {:induction false} CleanEnds(buf: BufSt, buf': BufSt, g: Geometry, typeOf: Obj -> nat, s: nat, o: Obj)
    requires CacheOk(buf, g, typeOf) && CacheOk(buf', g, typeOf) && PartlyCleaned(buf, buf', s, o, g.pages)
    ensures buf'.groups == buf.groups[s := Group([], 0, buf.groups[s].lock)]
    ensures AllCleaned(buf.pool, buf'.pool, o)
  {
    assert GroupOk(buf', s);
    if buf'.groups[s].dirty != [] {
      assert false;
    }
  }

  lemma {:induction false} DirtyHasGroup(buf: BufSt, i: nat)
    requires GroupsOk(buf) && i < |buf.pool| && buf.pool[i].mark == Dirty
    ensures exists s: nat :: GroupOf(buf, s, ObjOf(buf.pool[i])) && i in buf.groups[s].dirty
  {
    var s :| 0 <= s < |buf.groups| && i in buf.groups[s].dirty;
    assert GroupOk(buf, s);
    assert GroupOf(buf, s, ObjOf(buf.pool[i]));
  }
}

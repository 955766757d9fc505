/** What getting, loading and writing a page buffer does to the state of the device. */
module BufferSteps {
  import opened Chains
  import opened FlashModel
  import opened BlockLog
  import opened LogicalBlock
  import opened DeviceState
  import opened CacheSteps
  import opened StoreSteps
  import opened FlushSteps

  // ----- a buffer changes, but no dirty page does

  /** b' may stand for b: dirty as much as b was, and with the same page if dirty. */
  predicate SameDirt(b: Buf, b': Buf) {
    (b.mark == Dirty <==> b'.mark == Dirty) &&
    (b.mark == Dirty ==> ObjOf(b') == ObjOf(b) && b'.pageId == b.pageId && DPageOf(b') == DPageOf(b))
  }

  lemma {:induction false} SameDirtKeepsGroups(buf: BufSt, i: nat, b: Buf)
    requires GroupsOk(buf) && i < |buf.pool| && SameDirt(buf.pool[i], b)
    ensures GroupsOk(buf.(pool := buf.pool[i := b]))
  {
    var buf' := buf.(pool := buf.pool[i := b]);
    forall s | 0 <= s < |buf.groups| ensures GroupOk(buf', s) { assert GroupOk(buf, s); }
    forall s | 0 <= s < |buf.groups| && buf.groups[s].dirty != []
      ensures GroupObj(buf', s) == GroupObj(buf, s)
    {
      assert GroupOk(buf, s);
    }
  }

  lemma {:induction false} SameDirtKeepsCacheOk(buf: BufSt, g: Geometry, typeOf: Obj -> nat, i: nat, b: Buf)
    requires CacheOk(buf, g, typeOf) && i < |buf.pool| && SameDirt(buf.pool[i], b)
    requires BufFits(b, g, typeOf)
    requires Live(b) ==> forall j :: 0 <= j < |buf.pool| && j != i ==> !HasKey(buf.pool[j], ObjOf(b), b.pageId)
    ensures CacheOk(buf.(pool := buf.pool[i := b]), g, typeOf)
  {
    SameDirtKeepsGroups(buf, i, b);
  }

  predicate BufFits(b: Buf, g: Geometry, typeOf: Obj -> nat) {
    !b.truncTail && |b.data| == g.pageSize && b.dataLen <= g.pageSize &&
    (Live(b) ==> b.ty == typeOf(ObjOf(b)) && b.pageId < g.pages)
  }

  lemma {:induction false} SameDirtKeepsOk(g: Geometry, typeOf: Obj -> nat, content: Content, buf: BufSt, flash: Flash,
                                           tree: TreeSt, owner: map<nat, Owner>, i: nat, b: Buf)
    requires DeviceOk(g, typeOf, buf, flash, tree, owner, content) && i < |buf.pool| && SameDirt(buf.pool[i], b)
    requires BufFits(b, g, typeOf)
    requires Live(b) ==> forall j :: 0 <= j < |buf.pool| && j != i ==> !HasKey(buf.pool[j], ObjOf(b), b.pageId)
    requires b.mark == Mark.Valid ==> b.pageId < |Stored(flash, tree.nodes, ObjOf(b))| &&
                                      Stored(flash, tree.nodes, ObjOf(b))[b.pageId] == PageOf(b)
    ensures DeviceOk(g, typeOf, buf.(pool := buf.pool[i := b]), flash, tree, owner, content)
  {
    hide Merge, Extends, StoreOk, Logical, Stored, GroupsOk, LruOk, DirtyMap;
    var pool' := buf.pool[i := b];
    SameDirtKeepsCacheOk(buf, g, typeOf, i, b);
    forall o: Obj ensures DirtyMap(pool', o, g.pages) == DirtyMap(buf.pool, o, g.pages) {
      SameDirtyMap(buf.pool, pool', o, g.pages);
    }
  }

  /** Taking or dropping a reference. */
  lemma {:induction false} NewRefKeepsOk(g: Geometry, typeOf: Obj -> nat, content: Content, buf: BufSt, flash: Flash,
                                         tree: TreeSt, owner: map<nat, Owner>, i: nat, refs: nat)
    requires DeviceOk(g, typeOf, buf, flash, tree, owner, content) && i < |buf.pool|
    ensures DeviceOk(g, typeOf, buf.(pool := buf.pool[i := buf.pool[i].(refCount := refs)]), flash, tree, owner,
                     content)
  {
    hide Merge, Extends, StoreOk, Logical, Stored, GroupsOk, LruOk, DirtyMap, ContentOk;
    SameDirtKeepsOk(g, typeOf, content, buf, flash, tree, owner, i, buf.pool[i].(refCount := refs));
  }

  /** The LRU order is of no consequence. */
  lemma {:induction false} NewLruKeepsOk(g: Geometry, typeOf: Obj -> nat, content: Content, buf: BufSt, flash: Flash,
                                         tree: TreeSt, owner: map<nat, Owner>, lru: seq<nat>)
    requires DeviceOk(g, typeOf, buf, flash, tree, owner, content) && LruOk(lru, |buf.pool|)
    ensures DeviceOk(g, typeOf, buf.(lru := lru), flash, tree, owner, content)
  {
    hide CacheOk, StoreOk, Coherent, ContentOk;
    NewLruKeepsCacheOk(buf, g, typeOf, lru);
  }

  // ----- what a reader sees

  /** A live buffer holds the page a reader is to see. */
  lemma {:induction false} LiveBufferShows(g: Geometry, typeOf: Obj -> nat, content: Content, buf: BufSt, flash: Flash,
                                           tree: TreeSt, owner: map<nat, Owner>, o: Obj, i: nat)
    requires DeviceOk(g, typeOf, buf, flash, tree, owner, content)
    requires i < |buf.pool| && HasKey(buf.pool[i], o, buf.pool[i].pageId)
    ensures buf.pool[i].pageId < |ContentAt(content, o)| &&
            ContentAt(content, o)[buf.pool[i].pageId] == PageOf(buf.pool[i])
  {
    hide Merge, Extends, StoreOk, Logical, GroupsOk, LruOk;
    CleanedPageStored(buf.pool, Stored(flash, tree.nodes, o), g, o, i);
  }

  /** Without a live buffer for it, a page is what flash holds. */
  lemma {:induction false} NoBufferShowsFlash(g: Geometry, typeOf: Obj -> nat, content: Content, buf: BufSt,
                                              flash: Flash, tree: TreeSt, owner: map<nat, Owner>, o: Obj, id: nat)
    requires DeviceOk(g, typeOf, buf, flash, tree, owner, content) && id < g.pages
    requires forall j :: 0 <= j < |buf.pool| ==> !HasKey(buf.pool[j], o, id)
    ensures id < |ContentAt(content, o)| <==> id < |Stored(flash, tree.nodes, o)|
    ensures id < |ContentAt(content, o)| ==> ContentAt(content, o)[id] == Stored(flash, tree.nodes, o)[id]
  {
    hide StoreOk, Logical, GroupsOk, LruOk, Stored;
    MergeOverrides(Stored(flash, tree.nodes, o), DirtyMap(buf.pool, o, g.pages), 0, g.pages, id);
    assert DirtyIdx(buf.pool, o, id) < 0;
  }

  // ----- a page is written in its buffer

  /** Buffer i, now b, becomes the head of the dirty list of group s. */
  function LinkDirty(buf: BufSt, s: nat, i: nat, b: Buf): BufSt
    requires s < |buf.groups| && i < |buf.pool|
  {
    BufSt(buf.pool[i := b], buf.lru,
          buf.groups[s := Group([i] + buf.groups[s].dirty, buf.groups[s].count + 1, buf.groups[s].lock)])
  }

  /** s is the group of object o, or a free group while o has none. */
  ghost predicate SlotFor(buf: BufSt, s: nat, o: Obj) {
    s < |buf.groups| && (forall t :: 0 <= t < |buf.groups| ==> GroupOk(buf, t)) &&
    (GroupOf(buf, s, o) ||
     (buf.groups[s].dirty == [] &&
      forall t :: 0 <= t < |buf.groups| && buf.groups[t].dirty != [] ==> GroupObj(buf, t) != o))
  }

  /** b' is b with new data, dirty. */
  predicate Written(b: Buf, b': Buf) {
    b' == b.(mark := Dirty, data := b'.data, dataLen := b'.dataLen)
  }

  lemma {:induction false} LinkKeepsGroup(buf: BufSt, s: nat, i: nat, b: Buf, t: nat)
    requires SlotFor(buf, s, ObjOf(b)) && i < |buf.pool| && buf.pool[i].mark != Dirty && Written(buf.pool[i], b)
    requires t < |buf.groups|
    ensures var buf' := LinkDirty(buf, s, i, b);
            GroupOk(buf', t) &&
            (buf'.groups[t].dirty != [] ==>
              GroupObj(buf', t) == if t == s then ObjOf(b) else GroupObj(buf, t))
  {
    assert GroupOk(buf, t);
    assert forall x :: 0 <= x < |buf.groups[t].dirty| ==> buf.groups[t].dirty[x] != i;
  }

  lemma {:induction false} LinkKeepsGroupsOk(buf: BufSt, s: nat, i: nat, b: Buf)
    requires GroupsOk(buf) && SlotFor(buf, s, ObjOf(b))
    requires i < |buf.pool| && buf.pool[i].mark != Dirty && Written(buf.pool[i], b)
    ensures GroupsOk(LinkDirty(buf, s, i, b))
  {
    var buf' := LinkDirty(buf, s, i, b);
    forall t | 0 <= t < |buf.groups|
      ensures GroupOk(buf', t)
      ensures buf'.groups[t].dirty != [] ==> GroupObj(buf', t) == if t == s then ObjOf(b) else GroupObj(buf, t)
    {
      LinkKeepsGroup(buf, s, i, b, t);
    }
    forall j | 0 <= j < |buf'.pool| && buf'.pool[j].mark == Dirty
      ensures exists t :: 0 <= t < |buf'.groups| && j in buf'.groups[t].dirty
    {
      if j == i {
        assert i in buf'.groups[s].dirty;
      } else {
        var t :| 0 <= t < |buf.groups| && j in buf.groups[t].dirty;
        assert j in buf'.groups[t].dirty;
      }
    }
  }

  /** A buffer already dirty is written again: the groups stay as they are. */
  lemma {:induction false} RewriteKeepsGroupsOk(buf: BufSt, i: nat, b: Buf)
    requires GroupsOk(buf) && i < |buf.pool| && buf.pool[i].mark == Dirty && Written(buf.pool[i], b)
    ensures GroupsOk(buf.(pool := buf.pool[i := b]))
  {
    var buf' := buf.(pool := buf.pool[i := b]);
    forall s | 0 <= s < |buf.groups|
      ensures GroupOk(buf', s) && (buf.groups[s].dirty != [] ==> GroupObj(buf', s) == GroupObj(buf, s))
    {
      assert GroupOk(buf, s);
    }
  }

  lemma {:induction false} WrittenDirtyIdx(pool: seq<Buf>, i: nat, b: Buf, o: Obj, id: nat)
    requires i < |pool| && DistinctKeys(pool[i := b]) && DistinctKeys(pool) && Written(pool[i], b)
    ensures DirtyIdx(pool[i := b], o, id) == if ObjOf(b) == o && id == b.pageId then i else DirtyIdx(pool, o, id)
    ensures !(ObjOf(b) == o && id == b.pageId) ==> DirtyIdx(pool, o, id) != i
  {
    if !(ObjOf(b) == o && id == b.pageId) {
      SameDirtyIdx(pool, pool[i := b], o, id, i);
    } else {
      assert IsDirtyOf(pool[i := b][i], o, id);
    }
  }

  lemma {:induction false} WrittenDirtyMap(pool: seq<Buf>, i: nat, b: Buf, o: Obj, n: nat)
    requires i < |pool| && DistinctKeys(pool[i := b]) && DistinctKeys(pool) && Written(pool[i], b) && b.pageId < n
    ensures DirtyMap(pool[i := b], o, n) ==
            if ObjOf(b) == o then DirtyMap(pool, o, n)[b.pageId := DPageOf(b)] else DirtyMap(pool, o, n)
  {
    hide DistinctKeys, IsDirtyOf;
    forall id: nat
      ensures DirtyIdx(pool[i := b], o, id) == if ObjOf(b) == o && id == b.pageId then i else DirtyIdx(pool, o, id)
      ensures !(ObjOf(b) == o && id == b.pageId) ==> DirtyIdx(pool, o, id) != i
    {
      WrittenDirtyIdx(pool, i, b, o, id);
    }
  }

  /** Writing a buffer changes the page it is for, and nothing else a reader sees. */
  lemma {:induction false} WrittenContent(g: Geometry, content: Content, pool: seq<Buf>, flash: Flash,
                                          nodes: map<Obj, nat>, i: nat, b: Buf)
    requires ContentOk(content, pool, flash, nodes, g) && i < |pool| && Written(pool[i], b)
    requires DistinctKeys(pool[i := b]) && DistinctKeys(pool)
    requires b.pageId < g.pages && b.dataLen > 0 && !b.truncTail && b.pageId <= |ContentAt(content, ObjOf(b))|
    ensures ContentOk(content[ObjOf(b) := Put(ContentAt(content, ObjOf(b)), b.pageId, PageOf(b))],
                      pool[i := b], flash, nodes, g)
  {
    hide DistinctKeys, Merge, Extends, Stored, DirtyMap, Put;
    var o := ObjOf(b);
    var content' := content[o := Put(ContentAt(content, o), b.pageId, PageOf(b))];
    forall p: Obj | p != o ensures DirtyMap(pool[i := b], p, g.pages) == DirtyMap(pool, p, g.pages) {
      WrittenDirtyMap(pool, i, b, p, g.pages);
    }
    WrittenDirtyMap(pool, i, b, o, g.pages);
    DirtyPageShows(Stored(flash, nodes, o), DirtyMap(pool, o, g.pages), b.pageId, PageOf(b), g.pages);
    ContentOfOneObject(content, content', o, pool, pool[i := b], flash, flash, nodes, nodes, g);
  }

  lemma {:induction false} WrittenKeepsOk(g: Geometry, typeOf: Obj -> nat, content: Content, buf: BufSt, flash: Flash,
                                          tree: TreeSt, owner: map<nat, Owner>, i: nat, b: Buf, buf': BufSt)
    requires DeviceOk(g, typeOf, buf, flash, tree, owner, content) && i < |buf.pool| && Written(buf.pool[i], b)
    requires BufFits(b, g, typeOf) && b.dataLen > 0 && b.pageId <= |ContentAt(content, ObjOf(b))|
    requires forall j :: 0 <= j < |buf.pool| && j != i ==> !HasKey(buf.pool[j], ObjOf(b), b.pageId)
    requires buf'.pool == buf.pool[i := b] && buf'.lru == buf.lru && GroupsOk(buf')
    ensures DeviceOk(g, typeOf, buf', flash, tree, owner,
                     content[ObjOf(b) := Put(ContentAt(content, ObjOf(b)), b.pageId, PageOf(b))])
  {
    hide Merge, Extends, Stored, DirtyMap, Put, StoreOk, GroupsOk, LruOk, ContentOk;
    assert DistinctKeys(buf'.pool);
    WrittenContent(g, content, buf.pool, flash, tree.nodes, i, b);
  }

  // ----- when a flush cannot fail

  /** How many writes are still to report a bad block, and how many blocks there may be that have turned bad or are
      to. */
  datatype Wear = Wear(faults: nat, max: nat)

  /** No group is locked, every object with dirty pages but at most x has a block already, and there are
      erased blocks enough: one to merge into, one more if x is still to get its block, and one for each fault. */
  ghost predicate RoomFor(buf: BufSt, tree: TreeSt, w: Wear, x: Obj) {
    && (forall s :: 0 <= s < |buf.groups| ==> buf.groups[s].lock == 0)
    && (forall i :: 0 <= i < |buf.pool| && buf.pool[i].mark == Dirty ==>
        ObjOf(buf.pool[i]) in tree.nodes || ObjOf(buf.pool[i]) == x)
    && |tree.erased| >= w.faults + (if x in tree.nodes then 1 else 2) && |tree.bad| + w.faults <= w.max
  }

  lemma {:induction false} RoomForFlush(buf: BufSt, tree: TreeSt, w: Wear, s: nat, o: Obj, x: Obj)
    requires RoomFor(buf, tree, w, x) && GroupOf(buf, s, o)
    ensures |tree.erased| >= w.faults + (if o in tree.nodes then 1 else 2) && (o in tree.nodes || o == x)
  {
    var i := buf.groups[s].dirty[0];
    assert buf.pool[i].mark == Dirty && ObjOf(buf.pool[i]) == o;
  }

  lemma {:induction false} RoomKept(buf: BufSt, tree: TreeSt, w: Wear, buf': BufSt, tree': TreeSt, w': Wear, s: nat,
                                    o: Obj, x: Obj)
    requires RoomFor(buf, tree, w, x) && FlushStep(buf, buf', s, o) && (o in tree.nodes || o == x) && o in tree'.nodes
    requires tree.nodes.Keys <= tree'.nodes.Keys <= tree.nodes.Keys + {o}
    requires |tree'.erased| - w'.faults >= |tree.erased| - w.faults - (if o in tree.nodes then 0 else 1)
    requires |tree'.bad| + w'.faults <= |tree.bad| + w.faults && w'.max == w.max
    ensures RoomFor(buf', tree', w', x)
  {
  }

  /** Room depends on the dirty buffers and the groups only. */
  lemma {:induction false} SameDirtKeepsRoom(buf: BufSt, tree: TreeSt, w: Wear, i: nat, b: Buf, x: Obj)
    requires RoomFor(buf, tree, w, x) && i < |buf.pool| && SameDirt(buf.pool[i], b)
    ensures RoomFor(buf.(pool := buf.pool[i := b]), tree, w, x)
  {
  }

  /** What an operation that may flush has done to the buffers it was not asked for. */
  ghost predicate Flushed(buf: BufSt, buf': BufSt) {
    && |buf'.pool| == |buf.pool| && |buf'.groups| == |buf.groups|
    && (forall i :: 0 <= i < |buf.pool| ==>
          buf'.pool[i] == buf.pool[i] || (buf.pool[i].mark == Dirty && Cleaned(buf.pool[i], buf'.pool[i])))
    && (forall t :: 0 <= t < |buf.groups| ==> buf'.groups[t].count <= buf.groups[t].count)
  }

  /** One buffer changed, not its dirt. */
  lemma {:induction false} OnwardOne(buf: BufSt, flash: Flash, tree: TreeSt, i: nat, b: Buf, buf': BufSt)
    requires i < |buf.pool| && SameDirt(buf.pool[i], b) && buf'.pool == buf.pool[i := b]
    ensures Onward(buf, flash, tree, buf', flash, tree, {})
  {
    OnwardSame(buf, flash, tree, buf');
  }

  lemma {:induction false} SameDirtRefs(b: Buf, refs: nat)
    ensures SameDirt(b, b.(refCount := refs))
  {
  }

  lemma {:induction false} FlushStepIsFlushed(buf: BufSt, buf': BufSt, s: nat, o: Obj)
    requires FlushStep(buf, buf', s, o)
    ensures Flushed(buf, buf')
  {
  }

  lemma {:induction false} NothingFlushed(buf: BufSt, buf': BufSt)
    requires buf' == buf.(lru := buf'.lru)
    ensures Flushed(buf, buf')
  {
  }

  /** After a successful flush of the most dirty group a buffer nobody holds is free, if there is any. */
  lemma {:induction false} FlushFreesBuffer(buf: BufSt, buf': BufSt, g: Geometry, typeOf: Obj -> nat, s: nat, o: Obj)
    requires CacheOk(buf, g, typeOf) && CacheOk(buf', g, typeOf) && FlushStep(buf, buf', s, o) && GroupOf(buf, s, o)
    requires s < |buf'.groups| && buf'.groups[s].dirty == []
    requires forall i :: 0 <= i < |buf.pool| ==> buf.pool[i].refCount == 0
    ensures exists i :: 0 <= i < |buf'.pool| && buf'.pool[i].refCount == 0 && buf'.pool[i].mark != Dirty
  {
    assert GroupOk(buf, s);
    var i := buf.groups[s].dirty[0];
    FlushedGroupIsClean(buf, buf', g, typeOf, s, o);
    assert ObjOf(buf'.pool[i]) == o;
  }

  lemma {:induction false} OkParts(g: Geometry, typeOf: Obj -> nat, buf: BufSt, flash: Flash, tree: TreeSt,
                                   owner: map<nat, Owner>, content: Content)
    requires DeviceOk(g, typeOf, buf, flash, tree, owner, content)
    ensures CacheOk(buf, g, typeOf) && StoreOk(flash, tree, owner, g, typeOf)
    ensures PoolOk(buf.pool, g, typeOf) && DistinctKeys(buf.pool) && LruOk(buf.lru, |buf.pool|) && GroupsOk(buf)
  {
  }

  lemma {:induction false} SlotIsGroup(buf: BufSt, s: nat, o: Obj)
    requires GroupsOk(buf) && s < |buf.groups| && GroupOk(buf, s) && buf.groups[s].dirty != [] && GroupObj(buf, s) == o
    ensures GroupOf(buf, s, o)
  {
  }

  lemma {:induction false} OneObjPerGroup(buf: BufSt, s: nat, o: Obj, o': Obj)
    requires GroupOf(buf, s, o) && s < |buf.groups| && (buf.groups[s].dirty != [] ==> GroupOf(buf, s, o'))
    ensures o == o' && buf.groups[s].dirty != []
  {
  }

  lemma {:induction false} NoGroupNoDirty(buf: BufSt, o: Obj)
    requires GroupsOk(buf)
    requires forall t :: 0 <= t < |buf.groups| && buf.groups[t].dirty != [] ==> GroupOk(buf, t) && GroupObj(buf, t) != o
    ensures forall i :: 0 <= i < |buf.pool| ==> !(buf.pool[i].mark == Dirty && ObjOf(buf.pool[i]) == o)
  {
    forall i | 0 <= i < |buf.pool| && buf.pool[i].mark == Dirty ensures ObjOf(buf.pool[i]) != o {
      DirtyHasGroup(buf, i);
    }
  }

  /** A flushed group leaves no dirty buffer of its object. */
  lemma {:induction false} FlushedGroupIsClean(buf: BufSt, buf': BufSt, g: Geometry, typeOf: Obj -> nat, s: nat, o: Obj)
    requires CacheOk(buf, g, typeOf) && CacheOk(buf', g, typeOf) && FlushStep(buf, buf', s, o) && GroupOf(buf, s, o)
    requires s < |buf'.groups| && buf'.groups[s].dirty == []
    ensures forall i :: 0 <= i < |buf'.pool| ==> !(buf'.pool[i].mark == Dirty && ObjOf(buf'.pool[i]) == o)
  {
    forall i | 0 <= i < |buf'.pool| && buf'.pool[i].mark == Dirty ensures ObjOf(buf'.pool[i]) != o {
      DirtyHasGroup(buf', i);
      var t: nat :| GroupOf(buf', t, ObjOf(buf'.pool[i])) && i in buf'.groups[t].dirty;
      assert GroupOk(buf, t);
      if ObjOf(buf'.pool[i]) == o {
        assert GroupOf(buf, t, o);
        OneGroupPerObj(buf, s, t, o);
      }
    }
  }

  lemma {:induction false} FlushableGroup(buf: BufSt, g: Geometry, typeOf: Obj -> nat, s: nat)
    requires CacheOk(buf, g, typeOf) && s < |buf.groups| && Flushable(buf.groups[s])
    ensures GroupOk(buf, s) && buf.groups[s].dirty != []
  {
  }

  predicate IsFree(b: Buf) {
    b.refCount == 0 && b.mark != Dirty
  }

  /** An unlocked group with dirty buffers; none such has more, and none before it as many. */
  ghost predicate MostDirty(groups: seq<Group>, s: nat) {
    s < |groups| && Flushable(groups[s]) &&
    forall t :: 0 <= t < |groups| && Flushable(groups[t]) ==>
      groups[t].count <= groups[s].count && (t < s ==> groups[t].count < groups[s].count)
  }

  /** The LRU list after a page was looked up: the buffer of the page is first, if there is one. */
  ghost predicate LruAfter(buf: BufSt, o: Obj, id: nat, lru: seq<nat>) {
    if exists i :: 0 <= i < |buf.pool| && HasKey(buf.pool[i], o, id) then
      exists i :: 0 <= i < |buf.pool| && HasKey(buf.pool[i], o, id) && lru == [i] + Without(buf.lru, i)
    else lru == buf.lru
  }

  predicate HasFree(pool: seq<Buf>) {
    exists i :: 0 <= i < |pool| && IsFree(pool[i])
  }

  lemma {:induction false} HasFreeIs(pool: seq<Buf>)
    ensures HasFree(pool) <==> exists i :: 0 <= i < |pool| && IsFree(pool[i])
  {
  }

  /** The LRU list has a free buffer at k and none behind it: the one least recently used. */
  ghost predicate LastFree(buf: BufSt, k: nat) {
    k < |buf.lru| && buf.lru[k] < |buf.pool| && IsFree(buf.pool[buf.lru[k]]) &&
    forall x :: k < x < |buf.lru| && buf.lru[x] < |buf.pool| ==> !IsFree(buf.pool[buf.lru[x]])
  }

  ghost predicate LeastRecent(buf: BufSt, i: nat) {
    exists k :: 0 <= k < |buf.lru| && LastFree(buf, k) && buf.lru[k] == i
  }

  lemma {:induction false} HeadAgain(lru: seq<nat>, i: nat)
    requires lru != [] && lru[0] == i && NoDup(lru)
    ensures [i] + Without(lru, i) == lru
  {
    assert i !in lru[1..];
  }

  predicate Flushable(g: Group) {
    g.dirty != [] && g.lock == 0
  }

  predicate NoneHeld(pool: seq<Buf>) {
    |pool| > 0 && forall i :: 0 <= i < |pool| ==> pool[i].refCount == 0
  }

  lemma {:induction false} FlushFoundBuffer(buf: BufSt, buf': BufSt, g: Geometry, typeOf: Obj -> nat, s: nat, o: Obj,
                                            tree: TreeSt, w: Wear, x: Obj)
    requires CacheOk(buf, g, typeOf) && CacheOk(buf', g, typeOf) && NoneHeld(buf.pool) && RoomFor(buf, tree, w, x)
    requires buf' == buf ==> forall t :: 0 <= t < |buf.groups| ==> !Flushable(buf.groups[t])
    requires buf' == buf || (GroupOf(buf, s, o) && FlushStep(buf, buf', s, o) && s < |buf'.groups| &&
                             buf'.groups[s].dirty == [])
    ensures exists i :: 0 <= i < |buf'.pool| && IsFree(buf'.pool[i])
  {
    if buf' == buf {
      assert IsFree(buf.pool[0]);
    } else {
      FlushFreesBuffer(buf, buf', g, typeOf, s, o);
      var i :| 0 <= i < |buf'.pool| && buf'.pool[i].refCount == 0 && buf'.pool[i].mark != Dirty;
      assert IsFree(buf'.pool[i]);
    }
  }

  function WithRefs(buf: BufSt, i: nat, refs: nat): BufSt
    requires i < |buf.pool|
  {
    buf.(pool := buf.pool[i := buf.pool[i].(refCount := refs)])
  }

  lemma {:induction false} WithRefsIs(buf: BufSt, i: nat, refs: nat)
    requires i < |buf.pool|
    ensures WithRefs(buf, i, refs) == buf.(pool := buf.pool[i := buf.pool[i].(refCount := refs)])
  {
  }

  lemma {:induction false} WithRefsKeepsRoom(buf: BufSt, tree: TreeSt, w: Wear, i: nat, refs: nat, x: Obj)
    requires i < |buf.pool| && RoomFor(buf, tree, w, x)
    ensures RoomFor(WithRefs(buf, i, refs), tree, w, x)
  {
  }

  // ----- buffers handed out

  /** Exactly buffer i is held, once. */
  predicate OnlyHeld(pool: seq<Buf>, i: nat) {
    i < |pool| && forall j :: 0 <= j < |pool| ==> pool[j].refCount == if j == i then 1 else 0
  }

  lemma {:induction false} FlushedHolds(buf: BufSt, buf': BufSt)
    requires Flushed(buf, buf')
    ensures NoneHeld(buf.pool) ==> NoneHeld(buf'.pool)
    ensures forall i: nat :: OnlyHeld(buf.pool, i) ==> OnlyHeld(buf'.pool, i)
  {
  }

  lemma {:induction false} NowHeld(pool: seq<Buf>, pool': seq<Buf>, i: nat)
    requires i < |pool| && |pool'| == |pool| && pool' == pool[i := pool'[i]] &&
             pool'[i].refCount == pool[i].refCount + 1
    ensures NoneHeld(pool) ==> OnlyHeld(pool', i)
  {
  }

  /** A buffer newly assigned to a page: empty until it is written. */
  function NewBuf(ty: nat, o: Obj, id: nat, refs: nat, g: Geometry): Buf {
    Buf(ty, o.0, o.1, id, Mark.Empty, refs, 0, BlankPage(g).data, false)
  }

  function BlankPage(g: Geometry): (p: LPage)
    ensures |p.data| == g.pageSize && p.len == 0
  {
    LPage(seq(g.pageSize, _ => 0xFF), 0)
  }

  /** A buffer loaded with a page from flash. */
  function LoadedBuf(ty: nat, o: Obj, id: nat, refs: nat, p: LPage): Buf {
    Buf(ty, o.0, o.1, id, Mark.Valid, refs, p.len, p.data, false)
  }

  lemma {:induction false} NewBufFits(ty: nat, o: Obj, id: nat, refs: nat, g: Geometry, typeOf: Obj -> nat, b: Buf)
    requires b.mark != Dirty
    ensures var n := NewBuf(ty, o, id, refs, g);
            BufFits(n, g, typeOf) && SameDirt(b, n) && !Live(n) && n.mark == Mark.Empty && n.refCount == refs
  {
  }

  lemma {:induction false} LoadedBufFits(ty: nat, o: Obj, id: nat, refs: nat, p: LPage, g: Geometry, typeOf: Obj -> nat,
                                         b: Buf)
    requires b.mark != Dirty && LPageOk(p, g) && ty == typeOf(o) && id < g.pages
    ensures var n := LoadedBuf(ty, o, id, refs, p);
            BufFits(n, g, typeOf) && SameDirt(b, n) && HasKey(n, o, id) && ObjOf(n) == o && n.pageId == id &&
            n.mark == Mark.Valid && PageOf(n) == p && n.refCount == refs
  {
  }

  lemma {:induction false} FlushedKeys(buf: BufSt, buf': BufSt, o: Obj, id: nat)
    requires Flushed(buf, buf') && forall j :: 0 <= j < |buf.pool| ==> !HasKey(buf.pool[j], o, id)
    ensures forall j :: 0 <= j < |buf'.pool| ==> !HasKey(buf'.pool[j], o, id)
  {
  }

  /** The page of a block in use is a well-formed page. */
  lemma {:induction false} StoredPageOk(g: Geometry, typeOf: Obj -> nat, buf: BufSt, flash: Flash, tree: TreeSt,
                                        owner: map<nat, Owner>, content: Content, o: Obj, id: nat)
    requires DeviceOk(g, typeOf, buf, flash, tree, owner, content) && id < |Stored(flash, tree.nodes, o)|
    ensures LPageOk(Stored(flash, tree.nodes, o)[id], g) && id < g.pages
  {
    hide Merge, DirtyMap, Extends, CacheOk, Coherent, ContentOk;
    PagesOfBlockOk(flash[tree.nodes[o]], g, typeOf(o), o);
  }

  predicate BelowMax(groups: seq<Group>, max: nat) {
    forall s :: 0 <= s < |groups| ==> groups[s].count < max
  }

  lemma {:induction false} FlushedBelowMax(buf: BufSt, buf': BufSt, max: nat)
    requires Flushed(buf, buf')
    ensures BelowMax(buf.groups, max) ==> BelowMax(buf'.groups, max)
    ensures |buf'.pool| == |buf.pool| && |buf'.groups| == |buf.groups|
  {
  }

  lemma {:induction false} FreeFacts(b: Buf)
    requires IsFree(b)
    ensures b.refCount == 0 && b.mark != Dirty
  {
  }

  lemma {:induction false} DeadHasNoKey(b: Buf, o: Obj, id: nat)
    requires b.mark == Mark.Empty
    ensures !HasKey(b, o, id)
  {
  }

  lemma {:induction false} NewLruKeepsRoom(buf: BufSt, buf': BufSt, tree: TreeSt, w: Wear)
    requires buf' == buf.(lru := buf'.lru)
    ensures forall x :: RoomFor(buf, tree, w, x) ==> RoomFor(buf', tree, w, x)
  {
  }

  lemma {:induction false} KeyFacts(b: Buf, o: Obj, id: nat, refs: nat)
    requires HasKey(b, o, id)
    ensures b.pageId == id && HasKey(b.(refCount := refs), o, id) && PageOf(b.(refCount := refs)) == PageOf(b)
  {
  }

  /** The group of the object lists no buffer any more. */
  ghost predicate GroupEmptied(buf: BufSt, buf': BufSt, o: Obj) {
    forall t :: 0 <= t < |buf'.groups| && GroupOf(buf, t, o) ==> buf'.groups[t].dirty == []
  }

  lemma {:induction false} EmptiedIs(buf: BufSt, buf': BufSt, s: nat, o: Obj)
    requires GroupsOk(buf) && GroupOf(buf, s, o) && s < |buf'.groups| && buf'.groups[s].dirty == []
    ensures GroupEmptied(buf, buf', o)
  {
    forall t: nat | GroupOf(buf, t, o) ensures t == s {
      OneGroupPerObj(buf, s, t, o);
    }
  }

  lemma {:induction false} NoGroupEmptied(buf: BufSt, o: Obj)
    requires GroupsOk(buf)
    requires forall t :: 0 <= t < |buf.groups| && buf.groups[t].dirty != [] ==> GroupOk(buf, t) && GroupObj(buf, t) != o
    ensures GroupEmptied(buf, buf, o)
  {
  }

  lemma {:induction false} GroupEmptiedAt(buf: BufSt, buf': BufSt, s: nat, o: Obj)
    requires GroupEmptied(buf, buf', o) && GroupOf(buf, s, o) && s < |buf'.groups|
    ensures buf'.groups[s].dirty == []
  {
  }

  // ----- types

  /** An object with a block has pages. */
  lemma {:induction false} NodeHasPages(g: Geo, typeOf: Obj -> nat, buf: BufSt, flash: Flash, tree: TreeSt,
                                        owner: map<nat, Owner>, content: Content, o: Obj)
    requires DeviceOk(g, typeOf, buf, flash, tree, owner, content) && o in tree.nodes
    ensures ContentAt(content, o) != []
  {
    hide CacheOk, Coherent, BlockOk, Logical, Merge, DirtyMap, Extends;
    BlockHasPages(flash[tree.nodes[o]], g, typeOf(o), o);
    MergeOverrides(Stored(flash, tree.nodes, o), DirtyMap(buf.pool, o, g.pages), 0, g.pages, 0);
  }

  lemma {:induction false} BlockHasPages(b: Block, g: Geo, ty: nat, o: Obj)
    requires BlockOk(b, g, ty, o)
    ensures Logical(b) != []
  {
    BlockFacts(b, g, ty, o);
    TopIsBound(TagsOf(b));
  }

  /** Of an object without dirty buffers flash holds what a reader sees. */
  lemma {:induction false} CleanIsStored(g: Geometry, typeOf: Obj -> nat, buf: BufSt, flash: Flash, tree: TreeSt,
                                         owner: map<nat, Owner>, content: Content, o: Obj)
    requires DeviceOk(g, typeOf, buf, flash, tree, owner, content) && o !in DirtyObjs(buf.pool)
    ensures Stored(flash, tree.nodes, o) == ContentAt(content, o) && |ContentAt(content, o)| <= g.pages
  {
    hide CacheOk, StoreOk, Coherent, Stored;
    CleanObj(buf.pool, o);
    forall id: nat ensures DirtyIdx(buf.pool, o, id) < 0 { }
    assert DirtyMap(buf.pool, o, g.pages) == map[];
    MergeNothing(Stored(flash, tree.nodes, o), 0, g.pages);
    assert Stored(flash, tree.nodes, o)[0..] == Stored(flash, tree.nodes, o);
  }

  /** Other types for objects without pages. */
  lemma {:induction false} RetypeKeepsOk(g: Geo, typeOf: Obj -> nat, types: Obj -> nat, buf: BufSt, flash: Flash,
                                         tree: TreeSt, owner: map<nat, Owner>, content: Content)
    requires DeviceOk(g, typeOf, buf, flash, tree, owner, content)
    requires forall o :: types(o) != typeOf(o) ==> ContentAt(content, o) == []
    ensures DeviceOk(g, types, buf, flash, tree, owner, content)
  {
    forall o | o in tree.nodes ensures types(o) == typeOf(o) {
      NodeHasPages(g, typeOf, buf, flash, tree, owner, content, o);
    }
    forall i | 0 <= i < |buf.pool| && Live(buf.pool[i])
      ensures types(ObjOf(buf.pool[i])) == typeOf(ObjOf(buf.pool[i]))
    {
      LiveBufferShows(g, typeOf, content, buf, flash, tree, owner, ObjOf(buf.pool[i]), i);
    }
    hide ErasedListOk, BadListOk, GroupsOk, LruOk, DistinctKeys, Coherent, ContentOk, BlockOk;
  }

  // ----- a new buffer for a page that has one

  predicate Unbuffered(pool: seq<Buf>, o: Obj, id: nat) {
    forall j :: 0 <= j < |pool| ==> !HasKey(pool[j], o, id)
  }

  lemma {:induction false} UnbufferedIs(pool: seq<Buf>, o: Obj, id: nat)
    ensures Unbuffered(pool, o, id) <==> forall j :: 0 <= j < |pool| ==> !HasKey(pool[j], o, id)
  {
  }

  /** One more reference; a buffer that nobody held loses its length. */
  function Reset(b: Buf): Buf {
    b.(refCount := b.refCount + 1, dataLen := if b.refCount > 0 then b.dataLen else 0)
  }

  lemma {:induction false} ResetIs(b: Buf, b': Buf)
    requires b' == b.(refCount := b.refCount + 1, dataLen := if b.refCount + 1 > 1 then b.dataLen else 0)
    ensures b' == Reset(b)
  {
  }

  /** No page of an object is empty. */
  lemma {:induction false} PagesHaveBytes(g: Geo, typeOf: Obj -> nat, content: Content, buf: BufSt, flash: Flash,
                                          tree: TreeSt, owner: map<nat, Owner>, o: Obj, id: nat)
    requires DeviceOk(g, typeOf, buf, flash, tree, owner, content) && id < |ContentAt(content, o)|
    ensures ContentAt(content, o)[id].len > 0
  {
    hide StoreOk, Coherent, Merge, DirtyMap, Extends, Stored, GroupsOk, LruOk;
    forall j | 0 <= j < |Stored(flash, tree.nodes, o)| ensures LPageOk(Stored(flash, tree.nodes, o)[j], g) {
      StoredPageOk(g, typeOf, buf, flash, tree, owner, content, o, j);
    }
    DirtyPagesOk(buf.pool, g, typeOf, o);
    MergeKeepsPagesOk(Stored(flash, tree.nodes, o), DirtyMap(buf.pool, o, g.pages), 0, g.pages, g);
  }

  /** The reset keeps the device sound exactly if the buffer was held. */
  lemma {:induction false} ResetKeepsOkIff(g: Geo, typeOf: Obj -> nat, content: Content, buf: BufSt, flash: Flash,
                                           tree: TreeSt, owner: map<nat, Owner>, o: Obj, i: nat)
    requires DeviceOk(g, typeOf, buf, flash, tree, owner, content) && i < |buf.pool| &&
             HasKey(buf.pool[i], o, buf.pool[i].pageId)
    ensures DeviceOk(g, typeOf, buf.(pool := buf.pool[i := Reset(buf.pool[i])]), flash, tree, owner, content) <==>
            buf.pool[i].refCount > 0
  {
    hide DeviceOk, ContentAt;
    var b, id := buf.pool[i], buf.pool[i].pageId;
    var buf' := buf.(pool := buf.pool[i := Reset(b)]);
    if b.refCount > 0 {
      NewRefKeepsOk(g, typeOf, content, buf, flash, tree, owner, i, b.refCount + 1);
    } else if DeviceOk(g, typeOf, buf', flash, tree, owner, content) {
      LiveBufferShows(g, typeOf, content, buf, flash, tree, owner, o, i);
      LiveBufferShows(g, typeOf, content, buf', flash, tree, owner, o, i);
      PagesHaveBytes(g, typeOf, content, buf, flash, tree, owner, o, id);
    }
  }

  lemma {:induction false} LruIsNothing(g: Geometry, typeOf: Obj -> nat, content: Content, buf: BufSt, flash: Flash,
                                        tree: TreeSt, owner: map<nat, Owner>, lru: seq<nat>)
    requires LruOk(buf.lru, |buf.pool|) && LruOk(lru, |buf.pool|)
    ensures DeviceOk(g, typeOf, buf.(lru := lru), flash, tree, owner, content) <==>
            DeviceOk(g, typeOf, buf, flash, tree, owner, content)
  {
    hide LruOk, DeviceOk;
    if DeviceOk(g, typeOf, buf, flash, tree, owner, content) {
      NewLruKeepsOk(g, typeOf, content, buf, flash, tree, owner, lru);
    }
    if DeviceOk(g, typeOf, buf.(lru := lru), flash, tree, owner, content) {
      NewLruKeepsOk(g, typeOf, content, buf.(lru := lru), flash, tree, owner, buf.lru);
      assert buf.(lru := lru).(lru := buf.lru) == buf;
    }
  }
}

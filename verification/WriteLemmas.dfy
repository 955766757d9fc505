/** What writing into a page buffer does to the state of the device. */
module WriteSteps {
  import opened FlashModel
  import opened LogicalBlock
  import opened DeviceState
  import opened CacheSteps
  import opened CopySteps
  import opened FlushSteps
  import opened BufferSteps

  /** Bytes written over a page; its length grows to their end. */
  function Overwritten(p: LPage, ofs: nat, bytes: seq<Byte>): (q: LPage)
    requires ofs + |bytes| <= |p.data|
    ensures |q.data| == |p.data|
  {
    LPage(p.data[..ofs] + bytes + p.data[ofs + |bytes|..], if ofs + |bytes| > p.len then ofs + |bytes| else p.len)
  }

  /** Buffer i is the only buffer of a page the object has, or of the next page it may get. */
  ghost predicate Writable(buf: BufSt, g: Geometry, typeOf: Obj -> nat, content: Content, i: nat) {
    i < |buf.pool| && |buf.pool[i].data| == g.pageSize &&
    buf.pool[i].ty == typeOf(ObjOf(buf.pool[i])) && buf.pool[i].pageId < g.pages &&
    buf.pool[i].pageId <= |ContentAt(content, ObjOf(buf.pool[i]))| &&
    forall j :: 0 <= j < |buf.pool| && j != i ==> !HasKey(buf.pool[j], ObjOf(buf.pool[i]), buf.pool[i].pageId)
  }

  /** A live buffer of the pool may be written. */
  lemma {:induction false} LiveIsWritable(g: Geometry, typeOf: Obj -> nat, content: Content, buf: BufSt, flash: Flash,
                                          tree: TreeSt, owner: map<nat, Owner>, i: nat)
    requires DeviceOk(g, typeOf, buf, flash, tree, owner, content) && i < |buf.pool| && Live(buf.pool[i])
    ensures Writable(buf, g, typeOf, content, i)
  {
    hide Merge, Extends, StoreOk, Logical, GroupsOk, LruOk, ContentOk, Coherent;
    LiveBufferShows(g, typeOf, content, buf, flash, tree, owner, ObjOf(buf.pool[i]), i);
  }

  /** What a reader sees once bytes are written to the page of buffer b. */
  function Wrote(content: Content, b: Buf, ofs: nat, bytes: seq<Byte>): Content
    requires ofs + |bytes| <= |b.data|
  {
    content[ObjOf(b) := Put(ContentAt(content, ObjOf(b)), b.pageId, Overwritten(PageOf(b), ofs, bytes))]
  }

  function Filled(b: Buf, ofs: nat, bytes: seq<Byte>): (b': Buf)
    requires ofs + |bytes| <= |b.data|
    ensures |b'.data| == |b.data| && ObjOf(b') == ObjOf(b) && b'.pageId == b.pageId
  {
    var p := Overwritten(PageOf(b), ofs, bytes);
    b.(mark := Dirty, data := p.data, dataLen := p.len)
  }

  /** State of the buffers after the write: the buffer is dirty and listed in the group. */
  function FilledBuf(buf: BufSt, s: nat, i: nat, ofs: nat, bytes: seq<Byte>): BufSt
    requires s < |buf.groups| && i < |buf.pool| && ofs + |bytes| <= |buf.pool[i].data|
  {
    var b := Filled(buf.pool[i], ofs, bytes);
    if i in buf.groups[s].dirty then buf.(pool := buf.pool[i := b]) else LinkDirty(buf, s, i, b)
  }

  lemma {:induction false} FillKeepsOk(g: Geometry, typeOf: Obj -> nat, content: Content, buf: BufSt, flash: Flash,
                                       tree: TreeSt, owner: map<nat, Owner>, s: nat, i: nat, ofs: nat, bytes: seq<Byte>)
    requires DeviceOk(g, typeOf, buf, flash, tree, owner, content) && Writable(buf, g, typeOf, content, i)
    requires SlotFor(buf, s, ObjOf(buf.pool[i])) && ofs + |bytes| <= g.pageSize
    requires ofs + |bytes| > 0 || buf.pool[i].dataLen > 0
    ensures DeviceOk(g, typeOf, FilledBuf(buf, s, i, ofs, bytes), flash, tree, owner,
                     Wrote(content, buf.pool[i], ofs, bytes))
  {
    hide Merge, Extends, Stored, DirtyMap, Put, StoreOk, LruOk, ContentOk, Coherent, DistinctKeys;
    var b := Filled(buf.pool[i], ofs, bytes);
    OkParts(g, typeOf, buf, flash, tree, owner, content);
    FillKeepsGroupsOk(buf, s, i, b);
    WrittenKeepsOk(g, typeOf, content, buf, flash, tree, owner, i, b, FilledBuf(buf, s, i, ofs, bytes));
  }

  lemma {:induction false} FillKeepsGroupsOk(buf: BufSt, s: nat, i: nat, b: Buf)
    requires GroupsOk(buf) && SlotFor(buf, s, ObjOf(b)) && i < |buf.pool| && Written(buf.pool[i], b)
    ensures i in buf.groups[s].dirty ==> GroupsOk(buf.(pool := buf.pool[i := b]))
    ensures i !in buf.groups[s].dirty ==> buf.pool[i].mark != Dirty && GroupsOk(LinkDirty(buf, s, i, b))
  {
    assert GroupOk(buf, s);
    if i in buf.groups[s].dirty {
      RewriteKeepsGroupsOk(buf, i, b);
    } else {
      if buf.pool[i].mark == Dirty {
        DirtyHasGroup(buf, i);
        assert false;
      }
      LinkKeepsGroupsOk(buf, s, i, b);
    }
  }

  /** What the write leaves as it was, and the group of the buffer afterwards. */
  lemma {:induction false} FillFacts(buf: BufSt, g: Geometry, typeOf: Obj -> nat, s: nat, i: nat, ofs: nat,
                                     bytes: seq<Byte>)
    requires i < |buf.pool| && SlotFor(buf, s, ObjOf(buf.pool[i])) && ofs + |bytes| <= |buf.pool[i].data|
    requires CacheOk(FilledBuf(buf, s, i, ofs, bytes), g, typeOf)
    ensures var buf' := FilledBuf(buf, s, i, ofs, bytes);
            GroupOf(buf', s, ObjOf(buf.pool[i])) && |buf'.pool| == |buf.pool| && |buf'.groups| == |buf.groups| &&
            SameRefs(buf, buf') && IsDirtyOf(buf'.pool[i], ObjOf(buf.pool[i]), buf.pool[i].pageId) &&
            forall t :: 0 <= t < |buf.groups| && t != s ==> buf'.groups[t] == buf.groups[t]
  {
    var buf' := FilledBuf(buf, s, i, ofs, bytes);
    assert GroupOk(buf', s);
    assert GroupOk(buf, s);
    assert i in buf'.groups[s].dirty;
  }

  /** A write to a buffer makes its object dirty. */
  lemma {:induction false} FillOnward(buf: BufSt, flash: Flash, tree: TreeSt, s: nat, i: nat, ofs: nat,
                                      bytes: seq<Byte>)
    requires s < |buf.groups| && i < |buf.pool| && ofs + |bytes| <= |buf.pool[i].data|
    ensures Onward(buf, flash, tree, FilledBuf(buf, s, i, ofs, bytes), flash, tree, {ObjOf(buf.pool[i])})
  {
    hide Stored;
    var buf' := FilledBuf(buf, s, i, ofs, bytes);
    forall o | o in DirtyObjs(buf'.pool) ensures o in DirtyObjs(buf.pool) || o == ObjOf(buf.pool[i]) {
      var j :| 0 <= j < |buf'.pool| && buf'.pool[j].mark == Dirty && ObjOf(buf'.pool[j]) == o;
      assert j != i ==> buf'.pool[j] == buf.pool[j];
    }
  }

  ghost predicate SameRefs(buf: BufSt, buf': BufSt) {
    |buf'.pool| == |buf.pool| && forall j :: 0 <= j < |buf.pool| ==> buf'.pool[j].refCount == buf.pool[j].refCount
  }

  lemma {:induction false} FillKeepsRoom(buf: BufSt, tree: TreeSt, w: Wear, s: nat, i: nat, ofs: nat, bytes: seq<Byte>,
                                         x: Obj)
    requires RoomFor(buf, tree, w, x) && i < |buf.pool| && SlotFor(buf, s, ObjOf(buf.pool[i])) &&
             ofs + |bytes| <= |buf.pool[i].data|
    requires ObjOf(buf.pool[i]) in tree.nodes || ObjOf(buf.pool[i]) == x
    ensures RoomFor(FilledBuf(buf, s, i, ofs, bytes), tree, w, x)
  {
  }

  /** The counts are below the limit but for the written group, which then is flushed. */
  lemma {:induction false} BelowMaxAfterWrite(buf: BufSt, buf': BufSt, buf'': BufSt, g: Geometry, typeOf: Obj -> nat,
                                              s: nat, o: Obj, max: nat)
    requires BelowMax(buf.groups, max) && |buf'.groups| == |buf.groups| && s < |buf.groups|
    requires forall t :: 0 <= t < |buf.groups| && t != s ==> buf'.groups[t] == buf.groups[t]
    requires Flushed(buf', buf'') && CacheOk(buf'', g, typeOf)
    requires buf'.groups[s].count < max || buf''.groups[s].dirty == []
    ensures BelowMax(buf''.groups, max)
  {
    assert GroupOk(buf'', s);
    assert buf.groups[s].count < max;
  }

  /** No group is of an object without dirty buffers. */
  lemma {:induction false} NoDirtyNoGroup(buf: BufSt, o: Obj)
    requires GroupsOk(buf)
    requires forall i :: 0 <= i < |buf.pool| ==> !(buf.pool[i].mark == Dirty && ObjOf(buf.pool[i]) == o)
    ensures forall t :: 0 <= t < |buf.groups| ==> GroupOk(buf, t)
    ensures forall t :: 0 <= t < |buf.groups| && buf.groups[t].dirty != [] ==> GroupObj(buf, t) != o
  {
    forall t | 0 <= t < |buf.groups| ensures GroupOk(buf, t) && (buf.groups[t].dirty != [] ==> GroupObj(buf, t) != o) {
      assert GroupOk(buf, t);
    }
  }

  /** The group of the object is the slot to link its buffers to. */
  lemma {:induction false} GroupIsSlot(buf: BufSt, s: nat, o: Obj)
    requires GroupsOk(buf) && GroupOf(buf, s, o)
    ensures SlotFor(buf, s, o)
  {
    forall t | 0 <= t < |buf.groups| ensures GroupOk(buf, t) { }
  }

  lemma {:induction false} FreeIsSlot(buf: BufSt, s: nat, o: Obj)
    requires GroupsOk(buf) && s < |buf.groups| && buf.groups[s].dirty == []
    requires forall i :: 0 <= i < |buf.pool| ==> !(buf.pool[i].mark == Dirty && ObjOf(buf.pool[i]) == o)
    ensures SlotFor(buf, s, o)
  {
    NoDirtyNoGroup(buf, o);
  }

  /** A flush of other objects leaves a buffer as writable as it was. */
  lemma {:induction false} FlushedKeepsWritable(buf: BufSt, buf': BufSt, g: Geometry, typeOf: Obj -> nat,
                                                content: Content, i: nat)
    requires Flushed(buf, buf') && Writable(buf, g, typeOf, content, i)
    requires forall j :: 0 <= j < |buf.pool| ==>
             !(buf.pool[j].mark == Dirty && ObjOf(buf.pool[j]) == ObjOf(buf.pool[i]))
    ensures Writable(buf', g, typeOf, content, i) && buf'.pool[i] == buf.pool[i]
    ensures forall j :: 0 <= j < |buf'.pool| ==>
            !(buf'.pool[j].mark == Dirty && ObjOf(buf'.pool[j]) == ObjOf(buf'.pool[i]))
  {
  }

  lemma {:induction false} FlushedRefs(buf: BufSt, buf': BufSt)
    requires Flushed(buf, buf')
    ensures SameRefs(buf, buf')
  {
  }

  lemma {:induction false} SameRefsCompose(buf: BufSt, buf': BufSt, buf'': BufSt)
    requires SameRefs(buf, buf') && SameRefs(buf', buf'')
    ensures SameRefs(buf, buf'')
  {
  }

  lemma {:induction false} SameRefsHold(buf: BufSt, buf': BufSt)
    requires SameRefs(buf, buf')
    ensures NoneHeld(buf.pool) <==> NoneHeld(buf'.pool)
    ensures forall i: nat :: OnlyHeld(buf.pool, i) <==> OnlyHeld(buf'.pool, i)
  {
  }

  /** With unlocked groups a flush of the most dirty one frees a slot. */
  lemma {:induction false} FlushFreesSlot(buf: BufSt, tree: TreeSt, w: Wear, x: Obj)
    requires RoomFor(buf, tree, w, x) && |buf.groups| > 0
    requires forall t :: 0 <= t < |buf.groups| ==> !Flushable(buf.groups[t])
    ensures buf.groups[0].dirty == []
  {
    assert !Flushable(buf.groups[0]);
  }

  lemma {:induction false} WritableFacts(buf: BufSt, g: Geometry, typeOf: Obj -> nat, content: Content, i: nat)
    requires Writable(buf, g, typeOf, content, i)
    ensures i < |buf.pool| && |buf.pool[i].data| == g.pageSize
  {
  }

  lemma {:induction false} SlotInRange(buf: BufSt, s: nat, o: Obj)
    requires SlotFor(buf, s, o)
    ensures s < |buf.groups|
  {
  }

  lemma {:induction false} FilledIs(buf: BufSt, s: nat, i: nat, ofs: nat, bytes: seq<Byte>, b: Buf)
    requires s < |buf.groups| && i < |buf.pool| && ofs + |bytes| <= |buf.pool[i].data|
    requires b == buf.pool[i].(mark := Dirty,
                               data := buf.pool[i].data[..ofs] + bytes + buf.pool[i].data[ofs + |bytes|..],
                               dataLen := if ofs + |bytes| > buf.pool[i].dataLen then ofs + |bytes|
                                 else buf.pool[i].dataLen)
    ensures FilledBuf(buf, s, i, ofs, bytes) ==
            BufSt(buf.pool[i := b], buf.lru,
                  if i in buf.groups[s].dirty then buf.groups
                  else buf.groups[s := Group([i] + buf.groups[s].dirty, buf.groups[s].count + 1, buf.groups[s].lock)])
  {
  }

  lemma {:induction false} FlushedComposes(buf: BufSt, buf': BufSt, buf'': BufSt)
    requires Flushed(buf, buf') && Flushed(buf', buf'')
    ensures Flushed(buf, buf'')
  {
  }

  lemma {:induction false} FlushStepKeepsEmpty(buf: BufSt, buf': BufSt, s: nat, o: Obj, n: nat)
    requires FlushStep(buf, buf', s, o) && n <= |buf.groups|
    ensures |buf'.groups| == |buf.groups|
    ensures forall u :: 0 <= u < n && u != s && buf.groups[u].dirty == [] ==> buf'.groups[u].dirty == []
  {
  }

  // ----- what is flushed, and what is not

  /** The pages of the object's group, if it has one and a block, are where a flush without force puts them. */
  ghost predicate GroupFlushedTo(g: Geometry, buf0: BufSt, o: Obj, flash0: Flash, tree0: TreeSt, faults0: nat,
                                 flash: Flash, tree: TreeSt, faults: nat) {
    forall s: nat :: s < |buf0.groups| && GroupOf(buf0, s, o) && o in tree0.nodes ==>
      FlushedTo(g, false, buf0.groups[s].count, o, flash0, tree0, faults0, flash, tree, faults)
  }

  lemma {:induction false} GroupFlushedIs(g: Geometry, buf0: BufSt, s: nat, o: Obj, flash0: Flash, tree0: TreeSt,
                                          faults0: nat, flash: Flash, tree: TreeSt, faults: nat)
    requires GroupsOk(buf0) && s < |buf0.groups| && GroupOf(buf0, s, o)
    requires o in tree0.nodes ==>
               FlushedTo(g, false, buf0.groups[s].count, o, flash0, tree0, faults0, flash, tree, faults)
    ensures GroupFlushedTo(g, buf0, o, flash0, tree0, faults0, flash, tree, faults)
  {
    hide FlushedTo, GroupOf, GroupsOk;
    forall t: nat | t < |buf0.groups| && GroupOf(buf0, t, o) ensures t == s {
      OneGroupPerObj(buf0, s, t, o);
    }
  }

  lemma {:induction false} NoGroupFlushed(g: Geometry, buf0: BufSt, o: Obj, flash0: Flash, tree0: TreeSt, faults0: nat,
                                          flash: Flash, tree: TreeSt, faults: nat)
    requires forall t :: 0 <= t < |buf0.groups| && buf0.groups[t].dirty != [] ==>
               GroupOk(buf0, t) && GroupObj(buf0, t) != o
    ensures GroupFlushedTo(g, buf0, o, flash0, tree0, faults0, flash, tree, faults)
  {
    hide FlushedTo;
  }

  /** The groups from t on fit behind the pages of their objects' blocks. */
  ghost predicate RestFits(g: Geometry, buf: BufSt, flash: Flash, tree: TreeSt, t: nat) {
    forall s :: t <= s < |buf.groups| && buf.groups[s].dirty != [] ==> GroupFits(g, buf, flash, tree, s)
  }

  ghost predicate GroupFits(g: Geometry, buf: BufSt, flash: Flash, tree: TreeSt, s: nat) {
    s < |buf.groups| && buf.groups[s].dirty != [] && buf.groups[s].dirty[0] < |buf.pool| &&
    var o := ObjOf(buf.pool[buf.groups[s].dirty[0]]);
    o in tree.nodes && tree.nodes[o] in flash && Used(flash[tree.nodes[o]]) + buf.groups[s].count <= g.pages
  }

  /** As long as every group fits and no fault comes, no object is moved. */
  ghost predicate StaysPut(g: Geometry, buf0: BufSt, flash0: Flash, tree0: TreeSt, faults0: nat, buf: BufSt,
                           flash: Flash, tree: TreeSt, faults: nat, t: nat) {
    RestFits(g, buf0, flash0, tree0, 0) && faults == faults0 ==> tree == tree0 && RestFits(g, buf, flash, tree, t)
  }

  lemma {:induction false} StaysPutStart(g: Geometry, buf: BufSt, flash: Flash, tree: TreeSt, faults: nat)
    ensures StaysPut(g, buf, flash, tree, faults, buf, flash, tree, faults, 0)
  {
    hide GroupFits;
  }

  lemma {:induction false} StaysPutIs(g: Geometry, buf0: BufSt, flash0: Flash, tree0: TreeSt, faults0: nat,
                                      buf: BufSt, flash: Flash, tree: TreeSt, faults: nat, t: nat)
    requires StaysPut(g, buf0, flash0, tree0, faults0, buf, flash, tree, faults, t)
    ensures RestFits(g, buf0, flash0, tree0, 0) && faults == faults0 ==> tree == tree0
  {
  }

  /** An empty group. */
  lemma {:induction false} StaysPutSame(g: Geometry, buf0: BufSt, flash0: Flash, tree0: TreeSt, faults0: nat,
                                        buf: BufSt, flash: Flash, tree: TreeSt, faults: nat, buf': BufSt,
                                        flash': Flash, tree': TreeSt, faults': nat, t: nat)
    requires StaysPut(g, buf0, flash0, tree0, faults0, buf, flash, tree, faults, t)
    requires buf' == buf && flash' == flash && tree' == tree && faults' == faults
    ensures StaysPut(g, buf0, flash0, tree0, faults0, buf', flash', tree', faults', t + 1)
  {
    hide GroupFits;
  }

  lemma {:induction false} StaysPutSkip(g: Geometry, buf0: BufSt, flash0: Flash, tree0: TreeSt, faults0: nat,
                                        buf: BufSt, flash: Flash, tree: TreeSt, faults: nat, t: nat)
    requires StaysPut(g, buf0, flash0, tree0, faults0, buf, flash, tree, faults, t)
    ensures StaysPut(g, buf0, flash0, tree0, faults0, buf, flash, tree, faults, t + 1)
  {
    hide GroupFits;
  }

  lemma {:induction false} StaysPutStep(g: Geometry, typeOf: Obj -> nat, buf0: BufSt, flash0: Flash, tree0: TreeSt,
                                        faults0: nat, buf: BufSt, flash: Flash, tree: TreeSt, owner: map<nat, Owner>,
                                        faults: nat, buf': BufSt, flash': Flash, tree': TreeSt, faults': nat, t: nat,
                                        o: Obj)
    requires StaysPut(g, buf0, flash0, tree0, faults0, buf, flash, tree, faults, t) && faults' <= faults <= faults0
    requires CacheOk(buf, g, typeOf) && StoreOk(flash, tree, owner, g, typeOf)
    requires t < |buf.groups| && FlushStep(buf, buf', t, o) && GroupOf(buf, t, o)
    requires o in tree.nodes ==>
               FlushedTo(g, false, buf.groups[t].count, o, flash, tree, faults, flash', tree', faults')
    ensures StaysPut(g, buf0, flash0, tree0, faults0, buf', flash', tree', faults', t + 1)
  {
    hide Used, Appended, Cleaned, StoreOk, PoolOk, LruOk, DistinctKeys;
    if RestFits(g, buf0, flash0, tree0, 0) && faults' == faults0 {
      assert GroupOk(buf, t) && GroupFits(g, buf, flash, tree, t);
      NodeBlocksDiffer(flash, tree, owner, g, typeOf, o);
      forall s | t + 1 <= s < |buf'.groups| && buf'.groups[s].dirty != [] ensures GroupFits(g, buf', flash', tree', s) {
        assert GroupOk(buf, s) && GroupFits(g, buf, flash, tree, s);
        assert GroupObj(buf, s) != GroupObj(buf, t);
      }
    }
  }

  /** The object has a group, or there is a free one for it. */
  ghost predicate HasSlot(buf: BufSt, o: Obj) {
    exists s :: 0 <= s < |buf.groups| && SlotFor(buf, s, o)
  }

  lemma {:induction false} NoSlotLeft(buf: BufSt, o: Obj)
    requires forall t :: 0 <= t < |buf.groups| ==> buf.groups[t].dirty != [] && GroupOk(buf, t) && GroupObj(buf, t) != o
    ensures !HasSlot(buf, o)
  {
  }

  /** With buffer i dirty its group is below the limit. */
  ghost predicate BelowWith(buf: BufSt, i: nat, max: nat) {
    i < |buf.pool| && exists s ::
      0 <= s < |buf.groups| && SlotFor(buf, s, ObjOf(buf.pool[i])) && CountWith(buf, s, i) < max
  }

  function CountWith(buf: BufSt, s: nat, i: nat): nat
    requires s < |buf.groups|
  {
    buf.groups[s].count + if i in buf.groups[s].dirty then 0 else 1
  }

  lemma {:induction false} BelowWithSlot(buf: BufSt, i: nat, max: nat)
    requires BelowWith(buf, i, max) && GroupsOk(buf)
    ensures i < |buf.pool| && HasSlot(buf, ObjOf(buf.pool[i]))
    ensures forall s: nat :: SlotFor(buf, s, ObjOf(buf.pool[i])) ==> s < |buf.groups| && CountWith(buf, s, i) < max
  {
    var o := ObjOf(buf.pool[i]);
    var s :| 0 <= s < |buf.groups| && SlotFor(buf, s, o) && CountWith(buf, s, i) < max;
    forall t: nat | SlotFor(buf, t, o) ensures t < |buf.groups| && CountWith(buf, t, i) < max {
      assert GroupOk(buf, t) && GroupOk(buf, s);
      if GroupOf(buf, s, o) {
        assert GroupOf(buf, t, o);
        OneGroupPerObj(buf, s, t, o);
      }
    }
  }

  lemma {:induction false} FilledCount(buf: BufSt, s: nat, i: nat, ofs: nat, bytes: seq<Byte>)
    requires s < |buf.groups| && i < |buf.pool| && ofs + |bytes| <= |buf.pool[i].data|
    ensures s < |FilledBuf(buf, s, i, ofs, bytes).groups|
    ensures FilledBuf(buf, s, i, ofs, bytes).groups[s].count == CountWith(buf, s, i)
  {
  }

  /** No buffer has changed but dirty ones of objects with this parent. */
  ghost predicate OnlyOfParent(pool: seq<Buf>, pool': seq<Buf>, parent: nat) {
    |pool'| == |pool| && forall i :: 0 <= i < |pool| ==>
      pool'[i] == pool[i] || (pool[i].mark == Dirty && pool[i].parent == parent && Cleaned(pool[i], pool'[i]))
  }

  /** No buffer has changed but dirty ones of the object. */
  ghost predicate OnlyOfObj(pool: seq<Buf>, pool': seq<Buf>, o: Obj) {
    |pool'| == |pool| && forall i :: 0 <= i < |pool| ==>
      pool'[i] == pool[i] || (pool[i].mark == Dirty && ObjOf(pool[i]) == o && Cleaned(pool[i], pool'[i]))
  }

  lemma {:induction false} OnlyFlushedObj(buf: BufSt, buf': BufSt, s: nat, o: Obj)
    requires FlushStep(buf, buf', s, o)
    ensures OnlyOfObj(buf.pool, buf'.pool, o)
  {
  }

  lemma {:induction false} OnlySame(pool: seq<Buf>)
    ensures forall parent: nat :: OnlyOfParent(pool, pool, parent)
    ensures forall o :: OnlyOfObj(pool, pool, o)
  {
  }

  lemma {:induction false} OnlyOneMore(buf0: BufSt, buf: BufSt, buf': BufSt, s: nat, o: Obj, parent: nat)
    requires OnlyOfParent(buf0.pool, buf.pool, parent) && FlushStep(buf, buf', s, o) && GroupOf(buf, s, o)
    requires s < |buf.groups| && buf.groups[s].dirty != [] && buf.groups[s].dirty[0] < |buf.pool| &&
             buf.pool[buf.groups[s].dirty[0]].parent == parent
    ensures OnlyOfParent(buf0.pool, buf'.pool, parent)
  {
    assert o.0 == parent;
  }

  /** Group u holds no buffer of an object with this parent. */
  ghost predicate NotOfParent(buf: BufSt, u: nat, parent: nat) {
    u < |buf.groups| && (buf.groups[u].dirty != [] ==>
      buf.groups[u].dirty[0] < |buf.pool| && buf.pool[buf.groups[u].dirty[0]].parent != parent)
  }

  lemma {:induction false} NotOfParentIs(buf: BufSt, u: nat, parent: nat)
    requires GroupsOk(buf) && u < |buf.groups|
    ensures buf.groups[u].dirty != [] ==> buf.groups[u].dirty[0] < |buf.pool|
    ensures NotOfParent(buf, u, parent) <==>
            (buf.groups[u].dirty != [] ==> buf.pool[buf.groups[u].dirty[0]].parent != parent)
  {
    assert GroupOk(buf, u);
  }

  lemma {:induction false} StillNotOfParent(buf: BufSt, buf': BufSt, s: nat, o: Obj, u: nat, parent: nat)
    requires FlushStep(buf, buf', s, o) && NotOfParent(buf, u, parent) && u != s
    ensures NotOfParent(buf', u, parent)
  {
  }

  lemma {:induction false} NoneOfParent(buf: BufSt, parent: nat)
    requires GroupsOk(buf) && forall u :: 0 <= u < |buf.groups| ==> NotOfParent(buf, u, parent)
    ensures forall i :: 0 <= i < |buf.pool| ==> !(buf.pool[i].mark == Dirty && buf.pool[i].parent == parent)
  {
    forall i | 0 <= i < |buf.pool| && buf.pool[i].mark == Dirty ensures buf.pool[i].parent != parent {
      var u :| 0 <= u < |buf.groups| && i in buf.groups[u].dirty;
      assert GroupOk(buf, u) && NotOfParent(buf, u, parent);
      assert ObjOf(buf.pool[i]) == ObjOf(buf.pool[buf.groups[u].dirty[0]]);
    }
  }

  lemma {:induction false} AllGroupsEmpty(buf: BufSt)
    requires GroupsOk(buf) && forall u :: 0 <= u < |buf.groups| ==> buf.groups[u].dirty == []
    ensures forall i :: 0 <= i < |buf.pool| ==> buf.pool[i].mark != Dirty
  {
  }

  // ----- a page stored through its buffer

  /** Buffers and blocks suffice: no buffer is held, no group is too full, and there is room for new object x. */
  ghost predicate Ready(buf: BufSt, tree: TreeSt, w: Wear, max: nat, x: Obj) {
    NoneHeld(buf.pool) && RoomFor(buf, tree, w, x) && |buf.groups| > 0 && BelowMax(buf.groups, max)
  }

  /** Between two operations of the file layer: no dirty buffer belongs to an object without a block, and there is a
      block to merge into, and one for each fault; a device without objects has one more. */
  ghost predicate Calm(buf: BufSt, tree: TreeSt, w: Wear, max: nat) {
    && NoneHeld(buf.pool) && |buf.groups| > 0 && BelowMax(buf.groups, max)
    && (forall s :: 0 <= s < |buf.groups| ==> buf.groups[s].lock == 0)
    && (forall i :: 0 <= i < |buf.pool| && buf.pool[i].mark == Dirty ==> ObjOf(buf.pool[i]) in tree.nodes)
    && |tree.erased| >= w.faults + (if tree.nodes != map[] then 1 else 2) && |tree.bad| + w.faults <= w.max
  }

  lemma {:induction false} CalmIsReady(buf: BufSt, tree: TreeSt, w: Wear, max: nat, x: Obj)
    requires Calm(buf, tree, w, max) && (x in tree.nodes || |tree.erased| >= w.max + 2)
    ensures Ready(buf, tree, w, max, x)
  {
  }

  /** An object the device is ready for. */
  ghost function CalmFor(buf: BufSt, tree: TreeSt, w: Wear, max: nat): (x: Obj)
    requires Calm(buf, tree, w, max)
    ensures Ready(buf, tree, w, max, x) && (x in tree.nodes || tree.nodes == map[])
  {
    if tree.nodes == map[] then (0, 0) else var x :| x in tree.nodes; x
  }

  lemma {:induction false} ReadyIsCalm(buf: BufSt, tree: TreeSt, w: Wear, max: nat, x: Obj)
    requires Ready(buf, tree, w, max, x)
    requires x in tree.nodes || (forall i :: 0 <= i < |buf.pool| ==> buf.pool[i].mark != Dirty)
    ensures Calm(buf, tree, w, max)
  {
    assert x in tree.nodes ==> tree.nodes != map[];
  }

  lemma {:induction false} ReadyIs(buf: BufSt, tree: TreeSt, w: Wear, max: nat, x: Obj)
    ensures Ready(buf, tree, w, max, x) <==>
            NoneHeld(buf.pool) && RoomFor(buf, tree, w, x) && |buf.groups| > 0 && BelowMax(buf.groups, max)
  {
  }

  /** The page a store starts from. */
  function StoreBase(g: Geometry, content: Content, o: Obj, id: nat): LPage {
    if id < |ContentAt(content, o)| then ContentAt(content, o)[id] else BlankPage(g)
  }

  function Stored1(g: Geometry, content: Content, o: Obj, id: nat, ofs: nat, bytes: seq<Byte>): Content
    requires ofs + |bytes| <= |StoreBase(g, content, o, id).data|
  {
    content[o := Put(ContentAt(content, o), id, Overwritten(StoreBase(g, content, o, id), ofs, bytes))]
  }

  /** No buffer is live for a page the object does not have. */
  lemma {:induction false} NoLiveBeyond(g: Geometry, typeOf: Obj -> nat, content: Content, buf: BufSt, flash: Flash,
                                        tree: TreeSt, owner: map<nat, Owner>, o: Obj, id: nat)
    requires DeviceOk(g, typeOf, buf, flash, tree, owner, content) && id >= |ContentAt(content, o)|
    ensures forall j :: 0 <= j < |buf.pool| ==> !HasKey(buf.pool[j], o, id)
  {
    hide DeviceOk;
    forall j | 0 <= j < |buf.pool| && HasKey(buf.pool[j], o, id) ensures false {
      LiveBufferShows(g, typeOf, content, buf, flash, tree, owner, o, j);
    }
  }

  lemma {:induction false} NewBufWritable(buf: BufSt, g: Geometry, typeOf: Obj -> nat, content: Content, i: nat,
                                          ty: nat, o: Obj, id: nat)
    requires i < |buf.pool| && buf.pool[i] == NewBuf(ty, o, id, 1, g) && ty == typeOf(o)
    requires id < g.pages && id == |ContentAt(content, o)|
    requires forall j :: 0 <= j < |buf.pool| ==> !HasKey(buf.pool[j], o, id)
    ensures Writable(buf, g, typeOf, content, i)
    ensures ObjOf(buf.pool[i]) == o && buf.pool[i].pageId == id && PageOf(buf.pool[i]) == StoreBase(g, content, o, id)
  {
  }

  lemma {:induction false} LoadedWritable(g: Geometry, typeOf: Obj -> nat, content: Content, buf: BufSt, flash: Flash,
                                          tree: TreeSt, owner: map<nat, Owner>, i: nat, o: Obj, id: nat)
    requires DeviceOk(g, typeOf, buf, flash, tree, owner, content) && i < |buf.pool| && HasKey(buf.pool[i], o, id)
    requires id < |ContentAt(content, o)| && PageOf(buf.pool[i]) == ContentAt(content, o)[id]
    ensures Writable(buf, g, typeOf, content, i)
    ensures ObjOf(buf.pool[i]) == o && buf.pool[i].pageId == id && PageOf(buf.pool[i]) == StoreBase(g, content, o, id)
  {
    hide DeviceOk, Writable;
    LiveIsWritable(g, typeOf, content, buf, flash, tree, owner, i);
  }

  lemma {:induction false} WroteIs(g: Geometry, content: Content, b: Buf, o: Obj, id: nat, ofs: nat, bytes: seq<Byte>)
    requires ObjOf(b) == o && b.pageId == id && PageOf(b) == StoreBase(g, content, o, id) && ofs + |bytes| <= |b.data|
    ensures |StoreBase(g, content, o, id).data| == |b.data|
    ensures Wrote(content, b, ofs, bytes) == Stored1(g, content, o, id, ofs, bytes)
  {
  }

  lemma {:induction false} PutHeld(buf: BufSt, i: nat)
    requires OnlyHeld(buf.pool, i)
    ensures i < |buf.pool| && buf.pool[i].refCount == 1 && NoneHeld(WithRefs(buf, i, 0).pool)
    ensures WithRefs(buf, i, 0).groups == buf.groups
  {
  }

  lemma {:induction false} HeldPage(g: Geometry, typeOf: Obj -> nat, content: Content, buf: BufSt, flash: Flash,
                                    tree: TreeSt, owner: map<nat, Owner>, i: nat, o: Obj, id: nat)
    requires DeviceOk(g, typeOf, buf, flash, tree, owner, content) && i < |buf.pool| && HasKey(buf.pool[i], o, id)
    requires id < |ContentAt(content, o)| && PageOf(buf.pool[i]) == ContentAt(content, o)[id]
    ensures buf.pool[i].dataLen == ContentAt(content, o)[id].len <= g.pageSize
    ensures buf.pool[i].data == ContentAt(content, o)[id].data && |buf.pool[i].data| == g.pageSize
  {
    hide StoreOk, Coherent, ContentOk, GroupsOk, LruOk, DistinctKeys, ContentAt;
  }

  // ----- a device newly formatted

  function EmptyBufs(g: Geometry, n: nat): (pool: seq<Buf>)
    ensures |pool| == n && forall i :: 0 <= i < n ==> pool[i] == NewBuf(0, (0, 0), 0, 0, g)
  {
    seq(n, _ => NewBuf(0, (0, 0), 0, 0, g))
  }

  function UpTo(n: nat): (s: seq<nat>)
    ensures |s| == n && forall i :: 0 <= i < n ==> s[i] == i
  {
    seq(n, i => i)
  }

  function NewBufSt(g: Geometry, bufs: nat, groups: nat): BufSt {
    BufSt(EmptyBufs(g, bufs), UpTo(bufs), seq(groups, _ => Group([], 0, 0)))
  }

  function NewFlash(g: Geometry): Flash {
    map b | b in UpTo(g.blocks) :: ErasedBlock(g.pages, g.pageSize)
  }

  ghost function NewOwners(blocks: nat): map<nat, Owner> {
    map b | b in UpTo(blocks) :: InErased
  }

  lemma {:induction false} NewCacheOk(g: Geometry, typeOf: Obj -> nat, bufs: nat, groups: nat)
    ensures CacheOk(NewBufSt(g, bufs, groups), g, typeOf)
  {
    var lru := UpTo(bufs);
    forall i | 0 <= i < bufs ensures i in lru {
      assert lru[i] == i;
    }
  }

  lemma {:induction false} NewStoreOk(g: Geometry, typeOf: Obj -> nat)
    ensures StoreOk(NewFlash(g), TreeSt(map[], UpTo(g.blocks), []), NewOwners(g.blocks), g, typeOf)
  {
    var erased := UpTo(g.blocks);
    forall b: nat | b < g.blocks ensures b in erased {
      assert erased[b] == b;
    }
    ErasedBlockIsErased(g);
  }

  lemma {:induction false} NewDeviceOk(g: Geometry, typeOf: Obj -> nat, bufs: nat, groups: nat)
    ensures DeviceOk(g, typeOf, NewBufSt(g, bufs, groups), NewFlash(g), TreeSt(map[], UpTo(g.blocks), []),
                     NewOwners(g.blocks), map[])
  {
    hide CacheOk, StoreOk;
    NewCacheOk(g, typeOf, bufs, groups);
    NewStoreOk(g, typeOf);
    var pool := NewBufSt(g, bufs, groups).pool;
    forall o: Obj ensures DirtyMap(pool, o, g.pages) == map[] {
      forall id: nat ensures DirtyIdx(pool, o, id) < 0 { }
    }
  }

  lemma {:induction false} NewDeviceCalm(g: Geometry, bufs: nat, groups: nat, max: nat, faults: nat)
    requires bufs > 0 && groups > 0 && g.blocks >= faults + 2 && max > 0
    ensures Calm(NewBufSt(g, bufs, groups), TreeSt(map[], UpTo(g.blocks), []), Wear(faults, faults), max)
  {
  }
}

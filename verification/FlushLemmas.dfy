/** A flush changes where pages are kept, not what a reader sees. */
module FlushSteps {
  import opened FlashModel
  import opened BlockLog
  import opened LogicalBlock
  import opened DeviceState
  import opened CacheSteps
  import opened StoreSteps

  lemma {:induction false} SameStored(flash: Flash, flash': Flash, nodes: map<Obj, nat>, nodes': map<Obj, nat>, o: Obj)
    requires o in nodes <==> o in nodes'
    requires o in nodes ==> nodes[o] in flash && nodes'[o] in flash' && flash'[nodes'[o]] == flash[nodes[o]]
    ensures Stored(flash', nodes', o) == Stored(flash, nodes, o)
  {
  }

  /** No object has fewer pages on flash than before. */
  ghost predicate StoredGrows(flash: Flash, nodes: map<Obj, nat>, flash': Flash, nodes': map<Obj, nat>) {
    forall o: Obj :: |Stored(flash, nodes, o)| <= |Stored(flash', nodes', o)|
  }

  ghost function DirtyObjs(pool: seq<Buf>): set<Obj> {
    set i | 0 <= i < |pool| && pool[i].mark == Dirty :: ObjOf(pool[i])
  }

  lemma {:induction false} CleanObj(pool: seq<Buf>, o: Obj)
    ensures o !in DirtyObjs(pool) <==> forall i :: 0 <= i < |pool| ==> !(pool[i].mark == Dirty && ObjOf(pool[i]) == o)
  {
  }

  /** What an operation does on the way: no object but those given may have become dirty, and flash holds no page
      less. */
  ghost predicate Onward(buf: BufSt, flash: Flash, tree: TreeSt, buf': BufSt, flash': Flash, tree': TreeSt,
                         objs: set<Obj>) {
    DirtyObjs(buf'.pool) <= DirtyObjs(buf.pool) + objs && StoredGrows(flash, tree.nodes, flash', tree'.nodes)
  }

  lemma {:induction false} OnwardComposes(buf: BufSt, flash: Flash, tree: TreeSt, buf': BufSt, flash': Flash,
                                          tree': TreeSt, buf'': BufSt, flash'': Flash, tree'': TreeSt,
                                          objs: set<Obj>)
    requires Onward(buf, flash, tree, buf', flash', tree', objs)
    requires Onward(buf', flash', tree', buf'', flash'', tree'', objs)
    ensures Onward(buf, flash, tree, buf'', flash'', tree'', objs)
  {
    hide Stored, DirtyObjs;
    forall o: Obj ensures |Stored(flash, tree.nodes, o)| <= |Stored(flash'', tree''.nodes, o)| {
      assert |Stored(flash, tree.nodes, o)| <= |Stored(flash', tree'.nodes, o)|;
    }
  }

  lemma {:induction false} OnwardMore(buf: BufSt, flash: Flash, tree: TreeSt, buf': BufSt, flash': Flash, tree': TreeSt,
                                      objs: set<Obj>, objs': set<Obj>)
    requires Onward(buf, flash, tree, buf', flash', tree', objs) && objs <= objs'
    ensures Onward(buf, flash, tree, buf', flash', tree', objs')
  {
    hide StoredGrows, DirtyObjs;
  }

  /** Buffers with the same dirt, and nothing done to flash. */
  lemma {:induction false} OnwardSame(buf: BufSt, flash: Flash, tree: TreeSt, buf': BufSt)
    requires |buf'.pool| == |buf.pool|
    requires forall i :: 0 <= i < |buf.pool| && buf'.pool[i].mark == Dirty ==>
               buf.pool[i].mark == Dirty && ObjOf(buf'.pool[i]) == ObjOf(buf.pool[i])
    ensures Onward(buf, flash, tree, buf', flash, tree, {})
  {
    hide Stored;
  }

  lemma {:induction false} OnwardFlush(buf: BufSt, flash: Flash, tree: TreeSt, buf': BufSt, flash': Flash,
                                       tree': TreeSt, s: nat, o: Obj)
    requires FlushStep(buf, buf', s, o) && StoredGrows(flash, tree.nodes, flash', tree'.nodes)
    ensures Onward(buf, flash, tree, buf', flash', tree', {})
  {
    hide StoredGrows;
  }

  /** Everything about the other objects stays as it was. */
  ghost predicate OthersSame(o: Obj, pool: seq<Buf>, pool': seq<Buf>, flash: Flash, flash': Flash,
                             nodes: map<Obj, nat>, nodes': map<Obj, nat>, n: nat) {
    && (forall p: Obj :: p != o ==> Stored(flash', nodes', p) == Stored(flash, nodes, p))
    && (forall p: Obj :: p != o ==> DirtyMap(pool', p, n) == DirtyMap(pool, p, n))
  }

  /** So it is enough to look at the object itself. */
  lemma {:induction false} ContentOfOneObject(content: Content, content': Content, o: Obj, pool: seq<Buf>,
                                              pool': seq<Buf>, flash: Flash, flash': Flash, nodes: map<Obj, nat>,
                                              nodes': map<Obj, nat>, g: Geometry)
    requires ContentOk(content, pool, flash, nodes, g)
    requires OthersSame(o, pool, pool', flash, flash', nodes, nodes', g.pages)
    requires forall p: Obj :: p != o ==> ContentAt(content', p) == ContentAt(content, p)
    requires Extends(Stored(flash', nodes', o), DirtyMap(pool', o, g.pages), g.pages)
    requires ContentAt(content', o) == Merge(Stored(flash', nodes', o), DirtyMap(pool', o, g.pages), 0, g.pages)
    ensures ContentOk(content', pool', flash', nodes', g)
  {
    hide Extends, Merge, Stored, DirtyMap;
  }

  // ----- one dirty page appended to the block of its object

  lemma {:induction false} AppendContent(content: Content, pool: seq<Buf>, flash: Flash, nodes: map<Obj, nat>,
                                         g: Geometry, o: Obj, i: nat, b: Buf, block: Block)
    requires ContentOk(content, pool, flash, nodes, g) && DistinctKeys(pool)
    requires o in nodes && nodes[o] in flash &&
             forall p :: p in nodes && p != o ==> nodes[p] != nodes[o] && nodes[p] in flash
    requires i < |pool| && IsDirtyOf(pool[i], o, pool[i].pageId) && pool[i].pageId < g.pages && Cleaned(pool[i], b)
    requires forall id :: id in DirtyMap(pool, o, g.pages) ==> pool[i].pageId <= id
    requires Logical(block) == Put(Stored(flash, nodes, o), pool[i].pageId, PageOf(pool[i]))
    ensures ContentOk(content, pool[i := b], flash[nodes[o] := block], nodes, g)
  {
    var flash', pool', id := flash[nodes[o] := block], pool[i := b], pool[i].pageId;
    DirtyMapAt(pool, o, g.pages, i);
    CleanShrinksDirtyMap(pool, o, g.pages, i, b);
    AppendOthers(pool, flash, nodes, g, o, i, b, block);
    assert Stored(flash', nodes, o) == Logical(block);
    hide Extends, Merge, Put, Logical, DirtyMap, DistinctKeys, OthersSame, Stored;
    PutThenMerge(Stored(flash, nodes, o), DirtyMap(pool, o, g.pages), id, g.pages);
    ContentOfOneObject(content, content, o, pool, pool', flash, flash', nodes, nodes, g);
  }

  lemma {:induction false} AppendOthers(pool: seq<Buf>, flash: Flash, nodes: map<Obj, nat>, g: Geometry,
                                        o: Obj, i: nat, b: Buf, block: Block)
    requires DistinctKeys(pool)
    requires o in nodes && nodes[o] in flash &&
             forall p :: p in nodes && p != o ==> nodes[p] != nodes[o] && nodes[p] in flash
    requires i < |pool| && IsDirtyOf(pool[i], o, pool[i].pageId) && Cleaned(pool[i], b)
    ensures OthersSame(o, pool, pool[i := b], flash, flash[nodes[o] := block], nodes, nodes, g.pages)
  {
    hide Logical, DistinctKeys, DirtyMap, Stored;
    forall p: Obj | p != o
      ensures Stored(flash[nodes[o] := block], nodes, p) == Stored(flash, nodes, p)
      ensures DirtyMap(pool[i := b], p, g.pages) == DirtyMap(pool, p, g.pages)
    {
      CleanShrinksDirtyMap(pool, p, g.pages, i, b);
      SameStored(flash, flash[nodes[o] := block], nodes, nodes, p);
    }
  }

  lemma {:induction false} AppendCoherent(pool: seq<Buf>, flash: Flash, nodes: map<Obj, nat>,
                                          o: Obj, i: nat, b: Buf, block: Block)
    requires Coherent(pool, flash, nodes) && DistinctKeys(pool)
    requires o in nodes && nodes[o] in flash &&
             forall p :: p in nodes && p != o ==> nodes[p] != nodes[o] && nodes[p] in flash
    requires i < |pool| && IsDirtyOf(pool[i], o, pool[i].pageId) && Cleaned(pool[i], b)
    requires pool[i].pageId <= |Stored(flash, nodes, o)|
    requires Logical(block) == Put(Stored(flash, nodes, o), pool[i].pageId, PageOf(pool[i]))
    ensures Coherent(pool[i := b], flash[nodes[o] := block], nodes)
  {
    var flash', pool' := flash[nodes[o] := block], pool[i := b];
    assert Stored(flash', nodes, o) == Logical(block);
    forall j | 0 <= j < |pool'| && pool'[j].mark == Valid
      ensures pool'[j].pageId < |Stored(flash', nodes, ObjOf(pool'[j]))|
      ensures Stored(flash', nodes, ObjOf(pool'[j]))[pool'[j].pageId] == PageOf(pool'[j])
    {
      hide Logical, Stored;
      if ObjOf(pool'[j]) != o {
        SameStored(flash, flash', nodes, nodes, ObjOf(pool'[j]));
      }
    }
  }

  // ----- a page write that turned out bad: its page is dirty still

  lemma {:induction false} BadAppendContent(content: Content, pool: seq<Buf>, flash: Flash, nodes: map<Obj, nat>,
                                            g: Geometry, o: Obj, id: nat, page: LPage, block: Block)
    requires ContentOk(content, pool, flash, nodes, g)
    requires o in nodes && nodes[o] in flash &&
             forall p :: p in nodes && p != o ==> nodes[p] != nodes[o] && nodes[p] in flash
    requires id in DirtyMap(pool, o, g.pages) && id <= |Stored(flash, nodes, o)|
    requires Logical(block) == Put(Stored(flash, nodes, o), id, page)
    ensures ContentOk(content, pool, flash[nodes[o] := block], nodes, g)
  {
    var flash' := flash[nodes[o] := block];
    assert Stored(flash', nodes, o) == Logical(block);
    hide Extends, Merge, Put, Logical, DirtyMap, Stored;
    forall p: Obj | p != o ensures Stored(flash', nodes, p) == Stored(flash, nodes, p) {
      SameStored(flash, flash', nodes, nodes, p);
    }
    DirtyPageHidesStored(Stored(flash, nodes, o), DirtyMap(pool, o, g.pages), id, page, 0, g.pages);
    ContentOfOneObject(content, content, o, pool, pool, flash, flash', nodes, nodes, g);
  }

  lemma {:induction false} BadAppendCoherent(pool: seq<Buf>, flash: Flash, nodes: map<Obj, nat>, g: Geometry,
                                             o: Obj, i: nat, page: LPage, block: Block)
    requires Coherent(pool, flash, nodes) && DistinctKeys(pool)
    requires o in nodes && nodes[o] in flash &&
             forall p :: p in nodes && p != o ==> nodes[p] != nodes[o] && nodes[p] in flash
    requires i < |pool| && IsDirtyOf(pool[i], o, pool[i].pageId) && pool[i].pageId <= |Stored(flash, nodes, o)|
    requires Logical(block) == Put(Stored(flash, nodes, o), pool[i].pageId, page)
    ensures Coherent(pool, flash[nodes[o] := block], nodes)
  {
    var flash' := flash[nodes[o] := block];
    assert Stored(flash', nodes, o) == Logical(block);
    forall j | 0 <= j < |pool| && pool[j].mark == Mark.Valid
      ensures pool[j].pageId < |Stored(flash', nodes, ObjOf(pool[j]))|
      ensures Stored(flash', nodes, ObjOf(pool[j]))[pool[j].pageId] == PageOf(pool[j])
    {
      hide Logical, Stored;
      if ObjOf(pool[j]) != o {
        SameStored(flash, flash', nodes, nodes, ObjOf(pool[j]));
      }
    }
  }

  // ----- all dirty pages merged with the old block into a fresh one

  lemma {:induction false} AllCleanedDirtyMap(pool: seq<Buf>, pool': seq<Buf>, o: Obj, p: Obj, n: nat)
    requires AllCleaned(pool, pool', o) && DistinctKeys(pool)
    ensures DirtyMap(pool', p, n) == if p == o then map[] else DirtyMap(pool, p, n)
  {
    if p == o {
      assert forall id: nat :: DirtyIdx(pool', o, id) < 0;
    } else {
      SameDirtyMap(pool, pool', p, n);
    }
  }

  lemma {:induction false} RecoverContent(content: Content, pool: seq<Buf>, pool': seq<Buf>, flash: Flash,
                                          flash': Flash, nodes: map<Obj, nat>, nodes': map<Obj, nat>, g: Geometry,
                                          o: Obj)
    requires ContentOk(content, pool, flash, nodes, g) && DistinctKeys(pool) && AllCleaned(pool, pool', o)
    requires forall p: Obj :: p != o ==> Stored(flash', nodes', p) == Stored(flash, nodes, p)
    requires Stored(flash', nodes', o) == Merge(Stored(flash, nodes, o), DirtyMap(pool, o, g.pages), 0, g.pages)
    ensures ContentOk(content, pool', flash', nodes', g)
  {
    hide Logical, DistinctKeys, DirtyMap, Stored, AllCleaned, Merge;
    forall p: Obj | p != o ensures DirtyMap(pool', p, g.pages) == DirtyMap(pool, p, g.pages) {
      AllCleanedDirtyMap(pool, pool', o, p, g.pages);
    }
    AllCleanedDirtyMap(pool, pool', o, o, g.pages);
    MergeNothing(Stored(flash', nodes', o), 0, g.pages);
    ContentOfOneObject(content, content, o, pool, pool', flash, flash', nodes, nodes', g);
  }

  lemma {:induction false} RecoverCoherent(pool: seq<Buf>, pool': seq<Buf>, flash: Flash, flash': Flash,
                                           nodes: map<Obj, nat>, nodes': map<Obj, nat>, g: Geometry, o: Obj)
    requires Coherent(pool, flash, nodes) && DistinctKeys(pool) && AllCleaned(pool, pool', o)
    requires forall i :: 0 <= i < |pool| && Live(pool[i]) ==> pool[i].pageId < g.pages
    requires Extends(Stored(flash, nodes, o), DirtyMap(pool, o, g.pages), g.pages)
    requires forall p: Obj :: p != o ==> Stored(flash', nodes', p) == Stored(flash, nodes, p)
    requires Stored(flash', nodes', o) == Merge(Stored(flash, nodes, o), DirtyMap(pool, o, g.pages), 0, g.pages)
    ensures Coherent(pool', flash', nodes')
  {
    forall j | 0 <= j < |pool'| && pool'[j].mark == Valid
      ensures pool'[j].pageId < |Stored(flash', nodes', ObjOf(pool'[j]))|
      ensures Stored(flash', nodes', ObjOf(pool'[j]))[pool'[j].pageId] == PageOf(pool'[j])
    {
      if ObjOf(pool'[j]) == o {
        CleanedPageStored(pool, Stored(flash, nodes, o), g, o, j);
      }
    }
  }

  /** A buffer of the object holds what the merge writes for its page. */
  lemma {:induction false} CleanedPageStored(pool: seq<Buf>, pages: seq<LPage>, g: Geometry, o: Obj, j: nat)
    requires DistinctKeys(pool) && j < |pool| && Live(pool[j]) && ObjOf(pool[j]) == o && pool[j].pageId < g.pages
    requires Extends(pages, DirtyMap(pool, o, g.pages), g.pages)
    requires pool[j].mark == Valid ==> pool[j].pageId < |pages| && pages[pool[j].pageId] == PageOf(pool[j])
    ensures var merged := Merge(pages, DirtyMap(pool, o, g.pages), 0, g.pages);
            pool[j].pageId < |merged| && merged[pool[j].pageId] == PageOf(pool[j])
  {
    MergeOverrides(pages, DirtyMap(pool, o, g.pages), 0, g.pages, pool[j].pageId);
    if pool[j].mark == Dirty {
      DirtyMapAt(pool, o, g.pages, j);
    } else {
      assert DirtyIdx(pool, o, pool[j].pageId) < 0;
    }
  }

  // ----- the block a merge fills

  lemma {:induction false} MergeKeepsPagesOk(prior: seq<LPage>, dirty: map<nat, DPage>, i: nat, n: nat, g: Geometry)
    requires forall j :: 0 <= j < |prior| ==> LPageOk(prior[j], g)
    requires forall id :: id in dirty && dirty[id].page.len > 0 ==> LPageOk(dirty[id].page, g)
    ensures forall j :: 0 <= j < |Merge(prior, dirty, i, n)| ==> LPageOk(Merge(prior, dirty, i, n)[j], g)
    decreases n - i
  {
    if i < n {
      MergeKeepsPagesOk(prior, dirty, i + 1, n, g);
    }
  }

  lemma {:induction false} PagesOfBlockOk(b: Block, g: Geometry, ty: nat, o: Obj)
    requires BlockOk(b, g, ty, o)
    ensures forall j :: 0 <= j < |Logical(b)| ==> LPageOk(Logical(b)[j], g)
    ensures 0 < |Logical(b)| <= g.pages && OneObject(TagsOf(b)) && TagIsDirty(b[0].tag)
  {
    forall j | 0 <= j < |Logical(b)| ensures LPageOk(Logical(b)[j], g) {
      IdsAreThoseBelowTop(TagsOf(b), j);
      var k := Latest(TagsOf(b), j);
      assert TagIsGood(b[k].tag);
    }
    TopAtMostLength(TagsOf(b));
    TopIsBound(TagsOf(b));
  }

  /** The old block of a recover flush: the block of the object, or an erased one for a new object. */
  ghost predicate RecoverSource(b: Block, g: Geometry, ty: nat, o: Obj) {
    BlockOk(b, g, ty, o) || BlockErased(b, g)
  }

  lemma {:induction false} RecoverSourceFacts(b: Block, g: Geometry, ty: nat, o: Obj)
    requires RecoverSource(b, g, ty, o)
    ensures |b| == g.pages && LogInv(TagsOf(b)) && OneObject(TagsOf(b))
    ensures forall j :: 0 <= j < |Logical(b)| ==> LPageOk(Logical(b)[j], g)
  {
    if BlockOk(b, g, ty, o) {
      PagesOfBlockOk(b, g, ty, o);
    } else {
      ErasedMeansNothing(b, g);
    }
  }

  lemma {:induction false} RecoverSourceUse(b: Block, g: Geometry, ty: nat, o: Obj)
    requires RecoverSource(b, g, ty, o)
    ensures |b| == g.pages
    ensures 0 < g.pages && !TagIsDirty(b[0].tag) ==> BlockErased(b, g)
    ensures 0 < g.pages && BlockOk(b, g, ty, o) ==> TagIsDirty(b[0].tag)
  {
    if BlockOk(b, g, ty, o) {
      PagesOfBlockOk(b, g, ty, o);
    }
  }

  lemma {:induction false} ErasedBlockIsErased(g: Geometry)
    ensures BlockErased(ErasedBlock(g.pages, g.pageSize), g)
  {
  }

  lemma {:induction false} MergedBlockOk(buf: BufSt, g: Geometry, typeOf: Obj -> nat, s: nat, o: Obj, b: Block, ts: nat)
    requires CacheOk(buf, g, typeOf) && GroupOf(buf, s, o) && RecoverSource(b, g, typeOf(o), o) && ts < 3
    requires Extends(Logical(b), DirtyMap(buf.pool, o, g.pages), g.pages)
    ensures var pages := Merge(Logical(b), DirtyMap(buf.pool, o, g.pages), 0, g.pages);
            var b' := BlockOf(g, typeOf(o), o, ts, pages);
            BlockOk(b', g, typeOf(o), o) && Logical(b') == pages && b'[0].tag.ts == ts
  {
    hide BlockOk, BlockErased, LogInv, Logical, LPageOk;
    var dirty := DirtyMap(buf.pool, o, g.pages);
    RecoverSourceFacts(b, g, typeOf(o), o);
    DirtyPagesOk(buf.pool, g, typeOf, o);
    MergeKeepsPagesOk(Logical(b), dirty, 0, g.pages, g);
    var x := buf.groups[s].dirty[0];
    GroupIsDirtyMap(buf, g, typeOf, s, x);
    MergeOverrides(Logical(b), dirty, 0, g.pages, buf.pool[x].pageId);
    BlockOfIsOk(g, typeOf(o), o, ts, Merge(Logical(b), dirty, 0, g.pages));
  }

  lemma {:induction false} DirtyPagesOk(pool: seq<Buf>, g: Geometry, typeOf: Obj -> nat, o: Obj)
    requires PoolOk(pool, g, typeOf)
    ensures forall id :: id in DirtyMap(pool, o, g.pages) && DirtyMap(pool, o, g.pages)[id].page.len > 0 ==>
              LPageOk(DirtyMap(pool, o, g.pages)[id].page, g)
  {
  }

  // ----- what an operation has done to the blocks

  ghost predicate NothingTaken(owner: map<nat, Owner>) {
    forall b :: b in owner ==> owner[b] != Taken
  }

  /** Blocks that were not in the erased list keep their owner and their pages. */
  ghost predicate OnlyErasedUsed(owner: map<nat, Owner>, owner': map<nat, Owner>, flash: Flash, flash': Flash) {
    owner'.Keys == owner.Keys && flash'.Keys == flash.Keys &&
    forall b :: b in owner && owner[b] != InErased ==>
      owner'[b] == owner[b] && (b in flash ==> flash'[b] == flash[b])
  }

  /** An operation has taken no blocks but these. */
  ghost predicate TakenAtMost(owner: map<nat, Owner>, owner': map<nat, Owner>, taken: set<nat>) {
    forall b :: b in owner' && owner'[b] == Taken ==> b in taken || (b in owner && owner[b] == Taken)
  }

  lemma {:induction false} UsedNothing(owner: map<nat, Owner>, flash: Flash)
    ensures OnlyErasedUsed(owner, owner, flash, flash) && TakenAtMost(owner, owner, {})
  {
  }

  lemma {:induction false} NotErasedNotUsed(owner: map<nat, Owner>, owner': map<nat, Owner>, flash: Flash,
                                            flash': Flash, b: nat)
    requires OnlyErasedUsed(owner, owner', flash, flash') && b in owner && owner[b] != InErased && b in flash
    ensures b in owner' && owner'[b] == owner[b] && b in flash' && flash'[b] == flash[b]
  {
  }

  lemma {:induction false} ErasedAllAlong(owner: map<nat, Owner>, owner': map<nat, Owner>, flash: Flash, flash': Flash,
                                          b: nat)
    requires OnlyErasedUsed(owner, owner', flash, flash') && b in owner' && owner'[b] == InErased
    ensures b in owner && owner[b] == InErased
  {
  }

  lemma {:induction false} UsedErased(owner: map<nat, Owner>, owner': map<nat, Owner>, flash: Flash, flash': Flash,
                                      b: nat, x: Owner, block: Block)
    requires OnlyErasedUsed(owner, owner', flash, flash') && TakenAtMost(owner, owner', {})
    requires b in owner' && owner'[b] == InErased && b in flash'
    ensures OnlyErasedUsed(owner, owner'[b := x], flash, flash'[b := block])
    ensures TakenAtMost(owner, owner'[b := x], if x == Taken then {b} else {})
  {
  }

  /** The blocks of the other objects keep their pages. */
  ghost predicate OthersKept(nodes: map<Obj, nat>, flash: Flash, flash': Flash, o: Obj) {
    forall p :: p in nodes && p != o && nodes[p] in flash ==> nodes[p] in flash' && flash'[nodes[p]] == flash[nodes[p]]
  }

  lemma {:induction false} SourceNotErased(flash: Flash, tree: TreeSt, owner: map<nat, Owner>, g: Geometry,
                                           typeOf: Obj -> nat, o: Obj, ob: nat)
    requires StoreOk(flash, tree, owner, g, typeOf) && ob in owner
    requires if o in tree.nodes then tree.nodes[o] == ob else owner[ob] == Taken
    ensures owner[ob] != InErased
  {
  }

  lemma {:induction false} OthersAreKept(flash: Flash, nodes: map<Obj, nat>, owner: map<nat, Owner>,
                                         owner': map<nat, Owner>, flash': Flash, flash'': Flash, g: Geometry,
                                         typeOf: Obj -> nat, o: Obj, ob: nat)
    requires exists tree :: StoreOk(flash, tree, owner, g, typeOf) && tree.nodes == nodes
    requires if o in nodes then nodes[o] == ob else ob in owner && owner[ob] == Taken
    requires OnlyErasedUsed(owner, owner', flash, flash') && ob in flash'' && flash'' == flash'[ob := flash''[ob]]
    ensures OthersKept(nodes, flash, flash'', o)
  {
  }

  lemma {:induction false} TakenAfterRecover(owner: map<nat, Owner>, owner': map<nat, Owner>, owner'': map<nat, Owner>,
                                             nb: nat, ob: nat)
    requires TakenAtMost(owner, owner', {nb}) && nb in owner'' && ob in owner'' && owner''[ob] != Taken
    requires owner''.Keys == owner'.Keys && forall b :: b in owner' && b != nb && b != ob ==> owner''[b] == owner'[b]
    ensures TakenAtMost(owner, owner'', if owner''[nb] == Taken then {nb} else {})
  {
  }

  // ----- a whole flush

  /** All invariants of a mounted device. */
  ghost predicate DeviceOk(g: Geometry, typeOf: Obj -> nat, buf: BufSt, flash: Flash, tree: TreeSt,
                           owner: map<nat, Owner>, content: Content) {
    && CacheOk(buf, g, typeOf) && StoreOk(flash, tree, owner, g, typeOf) && NothingTaken(owner)
    && Coherent(buf.pool, flash, tree.nodes) && ContentOk(content, buf.pool, flash, tree.nodes, g)
  }

  /** What a flush of group s, object o, may do to the buffers: dirty buffers of o become valid. */
  ghost predicate FlushStep(buf: BufSt, buf': BufSt, s: nat, o: Obj) {
    && |buf'.pool| == |buf.pool| && |buf'.groups| == |buf.groups| && s < |buf.groups|
    && (forall i :: 0 <= i < |buf.pool| ==>
          buf'.pool[i] == buf.pool[i] ||
          (buf.pool[i].mark == Dirty && ObjOf(buf.pool[i]) == o && Cleaned(buf.pool[i], buf'.pool[i])))
    && buf'.groups == buf.groups[s := buf'.groups[s]]
    && buf'.groups[s].lock == buf.groups[s].lock && buf'.groups[s].count <= buf.groups[s].count
  }

  lemma {:induction false} NoFlushStep(buf: BufSt, buf': BufSt, s: nat, o: Obj)
    requires buf' == buf.(lru := buf'.lru) && s < |buf.groups|
    ensures FlushStep(buf, buf', s, o)
  {
  }

  lemma {:induction false} FlushStepsCompose(buf: BufSt, buf': BufSt, buf'': BufSt, s: nat, o: Obj)
    requires FlushStep(buf, buf', s, o) && FlushStep(buf', buf'', s, o)
    ensures FlushStep(buf, buf'', s, o)
  {
  }

  lemma {:induction false} WholeFlushStep(buf: BufSt, buf': BufSt, s: nat, o: Obj)
    requires AllCleaned(buf.pool, buf'.pool, o) && s < |buf.groups|
    requires buf'.groups == buf.groups[s := Group([], 0, buf.groups[s].lock)]
    ensures FlushStep(buf, buf', s, o) && s < |buf'.groups| && buf'.groups[s].dirty == []
  {
  }

  lemma {:induction false} MergeNotShorter(prior: seq<LPage>, dirty: map<nat, DPage>, n: nat)
    requires Extends(prior, dirty, n)
    ensures |prior| <= |Merge(prior, dirty, 0, n)|
  {
    if |prior| > 0 {
      MergeOverrides(prior, dirty, 0, n, |prior| - 1);
    }
  }

  lemma {:induction false} RecoverKeepsOk(g: Geometry, typeOf: Obj -> nat, content: Content,
                                          buf: BufSt, flash: Flash, tree: TreeSt, owner: map<nat, Owner>,
                                          buf': BufSt, flash': Flash, tree': TreeSt, owner': map<nat, Owner>, o: Obj)
    requires DeviceOk(g, typeOf, buf, flash, tree, owner, content)
    requires CacheOk(buf', g, typeOf) && StoreOk(flash', tree', owner', g, typeOf) && AllCleaned(buf.pool, buf'.pool, o)
    requires o in tree'.nodes && tree'.nodes == tree.nodes[o := tree'.nodes[o]]
    requires OthersKept(tree.nodes, flash, flash', o) && TakenAtMost(owner, owner', {})
    requires Stored(flash', tree'.nodes, o) ==
             Merge(Stored(flash, tree.nodes, o), DirtyMap(buf.pool, o, g.pages), 0, g.pages)
    ensures DeviceOk(g, typeOf, buf', flash', tree', owner', content)
    ensures StoredGrows(flash, tree.nodes, flash', tree'.nodes)
  {
    hide Merge, DirtyMap, Extends, BlockOk, BlockErased, Logical, GroupsOk, DistinctKeys, LruOk, AllCleaned;
    forall p: Obj | p != o ensures Stored(flash', tree'.nodes, p) == Stored(flash, tree.nodes, p) {
      SameStored(flash, flash', tree.nodes, tree'.nodes, p);
    }
    MergeNotShorter(Stored(flash, tree.nodes, o), DirtyMap(buf.pool, o, g.pages), g.pages);
    RecoverCoherent(buf.pool, buf'.pool, flash, flash', tree.nodes, tree'.nodes, g, o);
    RecoverContent(content, buf.pool, buf'.pool, flash, flash', tree.nodes, tree'.nodes, g, o);
  }

  lemma {:induction false} NodesKeepBlocks(flash: Flash, tree: TreeSt, owner: map<nat, Owner>, flash': Flash,
                                           owner': map<nat, Owner>, g: Geometry, typeOf: Obj -> nat)
    requires StoreOk(flash, tree, owner, g, typeOf) && OnlyErasedUsed(owner, owner', flash, flash')
    ensures forall p :: p in tree.nodes ==>
              tree.nodes[p] in flash && tree.nodes[p] in flash' && flash'[tree.nodes[p]] == flash[tree.nodes[p]]
  {
    hide BlockOk, BlockErased;
  }

  /** A flush that found no erased block has changed nothing that is seen. */
  lemma {:induction false} FailureKeepsOk(g: Geometry, typeOf: Obj -> nat, content: Content,
                                          buf: BufSt, flash: Flash, tree: TreeSt, owner: map<nat, Owner>,
                                          buf': BufSt, flash': Flash, tree': TreeSt, owner': map<nat, Owner>)
    requires DeviceOk(g, typeOf, buf, flash, tree, owner, content)
    requires CacheOk(buf', g, typeOf) && StoreOk(flash', tree', owner', g, typeOf)
    requires buf' == buf.(lru := buf'.lru) && tree'.nodes == tree.nodes
    requires OnlyErasedUsed(owner, owner', flash, flash') && TakenAtMost(owner, owner', {})
    ensures DeviceOk(g, typeOf, buf', flash', tree', owner', content)
    ensures StoredGrows(flash, tree.nodes, flash', tree'.nodes)
  {
    hide Merge, DirtyMap, Extends, BlockOk, BlockErased, Logical, CacheOk, StoreOk, OnlyErasedUsed, Stored;
    NodesKeepBlocks(flash, tree, owner, flash', owner', g, typeOf);
    forall p: Obj ensures Stored(flash', tree'.nodes, p) == Stored(flash, tree.nodes, p) {
      SameStored(flash, flash', tree.nodes, tree'.nodes, p);
    }
  }

  lemma {:induction false} StoredIs(flash: Flash, nodes: map<Obj, nat>, o: Obj)
    ensures Stored(flash, nodes, o) == if o in nodes && nodes[o] in flash then Logical(flash[nodes[o]]) else []
  {
  }

  /** The block of an object is fit to be merged with the object's dirty pages. */
  lemma {:induction false} RecoverReady(g: Geometry, typeOf: Obj -> nat, buf: BufSt, flash: Flash, tree: TreeSt,
                                        owner: map<nat, Owner>, content: Content, o: Obj)
    requires DeviceOk(g, typeOf, buf, flash, tree, owner, content)
    ensures CacheOk(buf, g, typeOf) && StoreOk(flash, tree, owner, g, typeOf)
    ensures o in tree.nodes ==>
              var ob := tree.nodes[o];
              ob in flash && ob in owner && owner[ob] == InNode(o) && BlockOk(flash[ob], g, typeOf(o), o) &&
              RecoverSource(flash[ob], g, typeOf(o), o) &&
              Stored(flash, tree.nodes, o) == Logical(flash[ob]) && ValidBuffersAgree(buf.pool, o, Logical(flash[ob]))
    ensures Extends(Stored(flash, tree.nodes, o), DirtyMap(buf.pool, o, g.pages), g.pages)
  {
    hide Merge, DirtyMap, Extends, BlockOk, BlockErased, Logical, CacheOk;
  }

  /** The valid buffers of an object hold what its pages hold. */
  ghost predicate ValidBuffersAgree(pool: seq<Buf>, o: Obj, pages: seq<LPage>) {
    forall j :: 0 <= j < |pool| && pool[j].mark == Mark.Valid && ObjOf(pool[j]) == o && pool[j].pageId < |pages| ==>
      PageOf(pool[j]) == pages[pool[j].pageId]
  }

  lemma {:induction false} ErasedSource(b: Block, g: Geometry, ty: nat, o: Obj)
    requires BlockErased(b, g)
    ensures RecoverSource(b, g, ty, o) && Logical(b) == [] && |b| == g.pages
    ensures forall i :: 0 <= i < |b| ==> TagsOf(b)[i] == ERASED_TAG
  {
    ErasedMeansNothing(b, g);
  }

  lemma {:induction false} NothingAgrees(pool: seq<Buf>, o: Obj, pages: seq<LPage>)
    requires pages == []
    ensures ValidBuffersAgree(pool, o, pages)
  {
  }

  lemma {:induction false} TakenAfterNewBlock(owner0: map<nat, Owner>, owner1: map<nat, Owner>, owner: map<nat, Owner>,
                                              ob: nat, nb: nat, o: Obj)
    requires owner1 == owner0[ob := Taken] && TakenAtMost(owner1, owner, {nb}) && nb in owner
    requires ob in owner && owner[ob] != Taken
    ensures TakenAtMost(owner0, owner[nb := InNode(o)], {})
  {
  }

  lemma {:induction false} GaveBackErased(owner0: map<nat, Owner>, owner1: map<nat, Owner>, owner: map<nat, Owner>,
                                          flash0: Flash, flash: Flash, b: nat, block: Block)
    requires b in owner0 && owner0[b] == InErased && owner1 == owner0[b := Taken] && b in flash0
    requires OnlyErasedUsed(owner1, owner, flash0, flash) && TakenAtMost(owner1, owner, {})
    ensures OnlyErasedUsed(owner0, owner[b := InErased], flash0, flash[b := block])
    ensures TakenAtMost(owner0, owner[b := InErased], {})
  {
  }

  // ----- appending to the block of an object

  /** The group's smallest dirty page can be appended: it rewrites a page of the block or is the next one. */
  lemma {:induction false} AppendReady(g: Geometry, typeOf: Obj -> nat, content: Content, buf: BufSt, flash: Flash,
                                       tree: TreeSt, owner: map<nat, Owner>, o: Obj, s: nat, i: nat)
    requires DeviceOk(g, typeOf, buf, flash, tree, owner, content) && o in tree.nodes && GroupOf(buf, s, o)
    requires i in buf.groups[s].dirty && i < |buf.pool|
    requires forall j :: j in buf.groups[s].dirty ==> j < |buf.pool| && buf.pool[i].pageId <= buf.pool[j].pageId
    ensures IsDirtyOf(buf.pool[i], o, buf.pool[i].pageId) && buf.pool[i].pageId < g.pages &&
            LPageOk(PageOf(buf.pool[i]), g)
    ensures buf.pool[i].pageId in DirtyMap(buf.pool, o, g.pages) && buf.pool[i].ty == typeOf(o)
    ensures forall id :: id in DirtyMap(buf.pool, o, g.pages) ==> buf.pool[i].pageId <= id
    ensures buf.pool[i].pageId <= |Stored(flash, tree.nodes, o)|
  {
    hide Merge, BlockOk, BlockErased, Logical, LruOk, StoreOk, Coherent, Stored;
    GroupIsDirtyMap(buf, g, typeOf, s, i);
    var dirty := DirtyMap(buf.pool, o, g.pages);
    forall id | id in dirty ensures buf.pool[i].pageId <= id {
      DirtyIsInItsGroup(buf, s, DirtyIdx(buf.pool, o, id));
    }
    DirtyPagesOk(buf.pool, g, typeOf, o);
    PutThenMerge(Stored(flash, tree.nodes, o), dirty, buf.pool[i].pageId, g.pages);
  }

  lemma {:induction false} NodeBlocksDiffer(flash: Flash, tree: TreeSt, owner: map<nat, Owner>, g: Geometry,
                                            typeOf: Obj -> nat, o: Obj)
    requires StoreOk(flash, tree, owner, g, typeOf) && o in tree.nodes
    ensures tree.nodes[o] in flash
    ensures forall p :: p in tree.nodes && p != o ==> tree.nodes[p] != tree.nodes[o] && tree.nodes[p] in flash
  {
    hide BlockOk, BlockErased;
  }

  lemma {:induction false} AppendGrows(flash: Flash, nodes: map<Obj, nat>, o: Obj, id: nat, page: LPage, block: Block)
    requires o in nodes && nodes[o] in flash && forall p :: p in nodes && p != o ==> nodes[p] != nodes[o]
    requires Logical(block) == Put(Stored(flash, nodes, o), id, page)
    ensures StoredGrows(flash, nodes, flash[nodes[o] := block], nodes)
  {
    hide Logical;
  }

  lemma {:induction false} AppendKeepsOk(g: Geometry, typeOf: Obj -> nat, content: Content, buf: BufSt, flash: Flash,
                                         tree: TreeSt, owner: map<nat, Owner>, o: Obj, i: nat, buf': BufSt,
                                         block: Block)
    requires DeviceOk(g, typeOf, buf, flash, tree, owner, content) && o in tree.nodes
    requires i < |buf.pool| && IsDirtyOf(buf.pool[i], o, buf.pool[i].pageId) && buf.pool[i].pageId < g.pages
    requires forall id :: id in DirtyMap(buf.pool, o, g.pages) ==> buf.pool[i].pageId <= id
    requires buf.pool[i].pageId <= |Stored(flash, tree.nodes, o)|
    requires BlockOk(block, g, typeOf(o), o)
    requires Logical(block) == Put(Stored(flash, tree.nodes, o), buf.pool[i].pageId, PageOf(buf.pool[i]))
    requires CacheOk(buf', g, typeOf) && |buf'.pool| == |buf.pool| && buf'.pool == buf.pool[i := buf'.pool[i]]
    requires Cleaned(buf.pool[i], buf'.pool[i])
    ensures DeviceOk(g, typeOf, buf', flash[tree.nodes[o] := block], tree, owner, content)
    ensures StoredGrows(flash, tree.nodes, flash[tree.nodes[o] := block], tree.nodes)
  {
    CacheParts(buf, g, typeOf);
    NodeBlocksDiffer(flash, tree, owner, g, typeOf, o);
    RewriteNode(flash, tree, owner, g, typeOf, o, block);
    AppendCoherent(buf.pool, flash, tree.nodes, o, i, buf'.pool[i], block);
    AppendContent(content, buf.pool, flash, tree.nodes, g, o, i, buf'.pool[i], block);
    AppendGrows(flash, tree.nodes, o, buf.pool[i].pageId, PageOf(buf.pool[i]), block);
    hide Merge, BlockOk, BlockErased, Logical, CacheOk, StoreOk, Coherent, ContentOk, Put, DirtyMap, Stored, Cleaned;
  }

  lemma {:induction false} BadAppendKeepsOk(g: Geometry, typeOf: Obj -> nat, content: Content, buf: BufSt, flash: Flash,
                                            tree: TreeSt, owner: map<nat, Owner>, o: Obj, i: nat, page: LPage,
                                            block: Block)
    requires DeviceOk(g, typeOf, buf, flash, tree, owner, content) && o in tree.nodes
    requires i < |buf.pool| && IsDirtyOf(buf.pool[i], o, buf.pool[i].pageId)
    requires buf.pool[i].pageId in DirtyMap(buf.pool, o, g.pages)
    requires buf.pool[i].pageId <= |Stored(flash, tree.nodes, o)|
    requires BlockOk(block, g, typeOf(o), o)
    requires Logical(block) == Put(Stored(flash, tree.nodes, o), buf.pool[i].pageId, page)
    ensures DeviceOk(g, typeOf, buf, flash[tree.nodes[o] := block], tree, owner, content)
    ensures StoredGrows(flash, tree.nodes, flash[tree.nodes[o] := block], tree.nodes)
  {
    CacheParts(buf, g, typeOf);
    NodeBlocksDiffer(flash, tree, owner, g, typeOf, o);
    RewriteNode(flash, tree, owner, g, typeOf, o, block);
    BadAppendCoherent(buf.pool, flash, tree.nodes, g, o, i, page, block);
    BadAppendContent(content, buf.pool, flash, tree.nodes, g, o, buf.pool[i].pageId, page, block);
    AppendGrows(flash, tree.nodes, o, buf.pool[i].pageId, page, block);
    hide Merge, BlockOk, BlockErased, Logical, CacheOk, StoreOk, Coherent, ContentOk, Put, DirtyMap, Stored;
  }

  /** The page behind the log of a block, and what programming it yields. */
  lemma {:induction false} AppendToBlock(b: Block, g: Geo, ty: nat, o: Obj, id: nat, p: LPage, wrote: Page)
    requires BlockOk(b, g, ty, o) && Used(b) < g.pages && id <= |Logical(b)| && LPageOk(p, g)
    requires wrote == MakePage(ty, o, b[0].tag.ts, id, LPage(wrote.data, p.len)) && |wrote.data| == |p.data|
    ensures |b| == g.pages && b[Used(b)] == ErasedPage(g.pageSize)
    ensures var b' := b[Used(b) := wrote];
            BlockOk(b', g, ty, o) && Used(b') == Used(b) + 1 &&
            Logical(b') == Put(Logical(b), id, LPage(wrote.data, p.len)) &&
            TagsOf(b') == TagsOf(b)[Used(b) := wrote.tag]
  {
    AppendKeepsBlockOk(b, g, ty, o, id, LPage(wrote.data, p.len));
  }

  lemma {:induction false} BlockFacts(b: Block, g: Geo, ty: nat, o: Obj)
    requires BlockOk(b, g, ty, o)
    ensures |b| == g.pages && 0 < Used(b) && LogInv(TagsOf(b)) && OneObject(TagsOf(b))
    ensures TimeStampOf(TagsOf(b)) == b[0].tag.ts < 3
    ensures forall i :: 0 <= i < |b| ==> (TagIsErased(TagsOf(b)[i]) <==> Used(b) <= i)
    ensures CountErased(TagsOf(b), AfterLastGood(TagsOf(b))) == g.pages - Used(b)
  {
    PagesOfBlockOk(b, g, ty, o);
    AllErasedFrom(TagsOf(b), Used(b));
  }

  lemma {:induction false} GroupFacts(buf: BufSt, g: Geometry, typeOf: Obj -> nat, s: nat, o: Obj)
    requires CacheOk(buf, g, typeOf) && GroupOf(buf, s, o)
    ensures s < |buf.groups| && GroupOk(buf, s) && buf.groups[s].dirty != [] &&
            buf.groups[s].count == |buf.groups[s].dirty|
    ensures forall j :: j in buf.groups[s].dirty ==> j < |buf.pool|
  {
  }

  lemma {:induction false} DirtyFacts(b: Buf, o: Obj)
    requires IsDirtyOf(b, o, b.pageId)
    ensures b.mark == Dirty && ObjOf(b) == o
    ensures PageOf(b) == LPage(b.data, b.dataLen)
  {
  }

  lemma {:induction false} WroteFacts(p: Page, ty: nat, o: Obj, ts: nat, id: nat, lp: LPage, wrote: Page)
    requires p == MakePage(ty, o, ts, id, lp) && wrote == p.(data := wrote.data)
    ensures wrote == MakePage(ty, o, ts, id, LPage(wrote.data, lp.len)) && p.data == lp.data && wrote.tag == p.tag
    ensures wrote == p ==> LPage(wrote.data, lp.len) == lp
  {
  }

  lemma {:induction false} OneWrittenStep(buf: BufSt, buf': BufSt, g: Geometry, typeOf: Obj -> nat, s: nat, o: Obj,
                                          i: nat)
    requires CacheOk(buf, g, typeOf) && CacheOk(buf', g, typeOf) && GroupOf(buf, s, o)
    requires i in buf.groups[s].dirty && i < |buf.pool| && IsDirtyOf(buf.pool[i], o, buf.pool[i].pageId)
    requires |buf'.pool| == |buf.pool| && buf'.pool == buf.pool[i := buf'.pool[i]] && Cleaned(buf.pool[i], buf'.pool[i])
    requires s < |buf.groups| && buf.groups[s].count > 0 && buf'.groups == CleanOne(buf, s, i, buf.pool[i]).groups
    ensures FlushStep(buf, buf', s, o) && |buf'.groups| == |buf.groups| &&
            buf'.groups[s].count == buf.groups[s].count - 1
    ensures buf'.groups[s].dirty != [] ==> GroupOf(buf', s, o)
  {
    GroupWellFormed(buf', g, typeOf, s);
    CleanedRest(buf, buf', s, o, i);
    hide CacheOk, GroupOf, IsDirtyOf, GroupOk;
  }

  lemma {:induction false} CountIsLength(buf: BufSt, g: Geometry, typeOf: Obj -> nat, s: nat)
    requires CacheOk(buf, g, typeOf) && s < |buf.groups|
    ensures GroupOk(buf, s) && buf.groups[s].count == |buf.groups[s].dirty|
  {
  }

  /** The buffer at the head of a dirty list names the object of the group. */
  function HeadOf(buf: BufSt, g: Geometry, ghost typeOf: Obj -> nat, s: nat): (i: nat)
    requires CacheOk(buf, g, typeOf) && s < |buf.groups| && buf.groups[s].dirty != []
    ensures i < |buf.pool| && GroupOf(buf, s, ObjOf(buf.pool[i]))
  {
    assert GroupOk(buf, s);
    buf.groups[s].dirty[0]
  }
}

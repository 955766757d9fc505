/** The copy of a block, page by page, and the states the flash goes through meanwhile. */
module CopySteps {
  import opened FlashModel
  import opened BlockLog
  import opened LogicalBlock
  import opened DeviceState
  import opened FlushSteps

  /** One step of a block-recover flush: nothing left to write, the tail of a truncated file, or a page. */
  datatype Next = Stop | Last(page: LPage) | More(page: LPage)

  function NextOf(prior: seq<LPage>, dirty: map<nat, DPage>, i: nat): Next {
    if i in dirty then
      if dirty[i].page.len == 0 then Stop else if dirty[i].trunc then Last(dirty[i].page) else More(dirty[i].page)
    else if i < |prior| then More(prior[i]) else Stop
  }

  /** After i pages of the merge, the rest of it is still to be written. */
  ghost predicate Remaining(prior: seq<LPage>, dirty: map<nat, DPage>, i: nat, n: nat, target: seq<LPage>,
                            written: seq<LPage>) {
    |written| == i && target == written + Merge(prior, dirty, i, n)
  }

  lemma {:induction false} MergeStarts(prior: seq<LPage>, dirty: map<nat, DPage>, n: nat)
    ensures Remaining(prior, dirty, 0, n, Merge(prior, dirty, 0, n), []) && |Merge(prior, dirty, 0, n)| <= n
  {
  }

  lemma {:induction false} MergeEnds(prior: seq<LPage>, dirty: map<nat, DPage>, n: nat, target: seq<LPage>,
                                     written: seq<LPage>)
    requires Remaining(prior, dirty, n, n, target, written)
    ensures target == written
  {
  }

  lemma {:induction false} MergeStep(prior: seq<LPage>, dirty: map<nat, DPage>, i: nat, n: nat, target: seq<LPage>,
                                     written: seq<LPage>)
    requires Remaining(prior, dirty, i, n, target, written) && i < n
    ensures NextOf(prior, dirty, i) == Stop ==> target == written
    ensures NextOf(prior, dirty, i).Last? ==> target == written + [NextOf(prior, dirty, i).page]
    ensures NextOf(prior, dirty, i).More? ==>
              Remaining(prior, dirty, i + 1, n, target, written + [NextOf(prior, dirty, i).page])
    ensures NextOf(prior, dirty, i) != Stop ==> written + [NextOf(prior, dirty, i).page] <= target
  {
  }

  lemma {:induction false} NotDirtyAgrees(pool: seq<Buf>, o: Obj, n: nat, pages: seq<LPage>, i: nat)
    requires ValidBuffersAgree(pool, o, pages) && i < n && i !in DirtyMap(pool, o, n)
    ensures forall j :: 0 <= j < |pool| && HasKey(pool[j], o, i) && i < |pages| ==> PageOf(pool[j]) == pages[i]
  {
    assert DirtyIdx(pool, o, i) < 0;
  }

  // ----- the states a copy goes through

  /** Since state flash0 the pages have been written to block nb one by one, and nothing else. */
  ghost predicate Copied(flash0: Flash, flash: Flash, nb: nat, g: Geometry, ty: nat, o: Obj, ts: nat,
                         written: seq<LPage>) {
    flash == flash0[nb := BlockOf(g, ty, o, ts, written)]
  }

  lemma {:induction false} CopiedBlock(flash0: Flash, flash: Flash, nb: nat, g: Geometry, ty: nat, o: Obj, ts: nat,
                                       written: seq<LPage>)
    requires Copied(flash0, flash, nb, g, ty, o, ts, written)
    ensures nb in flash && flash[nb] == BlockOf(g, ty, o, ts, written)
  {
  }

  /** A copy cut off somewhere. */
  ghost predicate CutBlock(b: Block, g: Geometry, ty: nat, o: Obj, ts: nat, pages: seq<LPage>) {
    |pages| <= g.pages &&
    exists j :: 0 <= j <= |pages| && CutAt(b, g, ty, o, ts, pages, j)
  }

  /** A copy cut off after j pages. The next page is erased, or as the cut left it: clean, or unclean in any way, but
      not sealed; or as a write left it that reported a bad block: with its tag, and with unknown data. */
  ghost predicate CutAt(b: Block, g: Geometry, ty: nat, o: Obj, ts: nat, pages: seq<LPage>, j: nat)
    requires j <= |pages| <= g.pages
  {
    b == BlockOf(g, ty, o, ts, pages[..j]) ||
    (j < |pages| && |b| == g.pages && b == BlockOf(g, ty, o, ts, pages[..j])[j := b[j]] &&
     (!b[j].tag.sealed || b[j].tag == MakePage(ty, o, ts, j, pages[j]).tag))
  }

  /** The device as it was but for block nb, a copy cut off somewhere. */
  ghost predicate CopyState(h: Snapshot, flash: Flash, marked: set<nat>, nb: nat, g: Geometry, ty: nat, o: Obj,
                            ts: nat, pages: seq<LPage>) {
    && h.marked == marked && nb in h.flash && h.flash == flash[nb := h.flash[nb]]
    && CutBlock(h.flash[nb], g, ty, o, ts, pages)
  }

  /** All states the device has gone through since were such states. */
  ghost predicate CopyHistory(history0: seq<Snapshot>, history: seq<Snapshot>, flash: Flash, marked: set<nat>, nb: nat,
                              g: Geometry, ty: nat, o: Obj, ts: nat, pages: seq<LPage>) {
    history0 <= history &&
    forall i :: |history0| <= i < |history| ==> CopyState(history[i], flash, marked, nb, g, ty, o, ts, pages)
  }

  lemma {:induction false} CopyStarts(flash: Flash, history: seq<Snapshot>, marked: set<nat>, nb: nat, g: Geometry,
                                      ty: nat, o: Obj, ts: nat, pages: seq<LPage>)
    requires nb in flash && BlockErased(flash[nb], g)
    ensures |flash[nb]| == g.pages && Copied(flash, flash, nb, g, ty, o, ts, [])
    ensures CopyHistory(history, history, flash, marked, nb, g, ty, o, ts, pages)
  {
    assert flash[nb] == BlockOf(g, ty, o, ts, []);
  }

  /** The next page is written, well or badly. */
  lemma {:induction false} CopyStep(flash0: Flash, flash: Flash, history0: seq<Snapshot>, history: seq<Snapshot>,
                                    marked: set<nat>, nb: nat, g: Geometry, ty: nat, o: Obj, ts: nat,
                                    pages: seq<LPage>, written: seq<LPage>, p: LPage, wrote: Page)
    requires nb in flash0 && |pages| <= g.pages && written + [p] <= pages
    requires Copied(flash0, flash, nb, g, ty, o, ts, written)
    requires CopyHistory(history0, history, flash0, marked, nb, g, ty, o, ts, pages)
    requires wrote.tag == MakePage(ty, o, ts, |written|, p).tag
    ensures nb in flash && |written| < |flash[nb]| == g.pages
    ensures var flash' := flash[nb := flash[nb][|written| := wrote]];
            CopyHistory(history0, history + [Snapshot(flash', marked)], flash0, marked, nb, g, ty, o, ts, pages) &&
            (wrote == MakePage(ty, o, ts, |written|, p) ==> Copied(flash0, flash', nb, g, ty, o, ts, written + [p]))
  {
    var j, b := |written|, flash[nb][|written| := wrote];
    BlockOfStep(g, ty, o, ts, written, p);
    assert pages[..j] == written && pages[j] == p;
    assert CutAt(b, g, ty, o, ts, pages, j);
    hide BlockOf, CutAt;
  }

  // ----- where a flush puts the pages

  /** The pages of a block in use are kept; pages may have been added behind them. */
  ghost predicate Appended(b: Block, b': Block) {
    |b'| == |b| && Used(b) <= Used(b') && forall i :: 0 <= i < Used(b) ==> b'[i] == b[i]
  }

  lemma {:induction false} AppendedNothing(b: Block)
    ensures Appended(b, b)
  {
  }

  lemma {:induction false} AppendedOne(b: Block, b': Block, b'': Block, page: nat, wrote: Page)
    requires Appended(b, b') && page == Used(b') < |b'| && b'' == b'[page := wrote] && Used(b'') == page + 1
    ensures Appended(b, b'')
  {
  }

  /** The object has another block; the one it had is erased and can be used again, or put aside as bad. */
  ghost predicate Moved(g: Geometry, o: Obj, ob: nat, badOld: bool, flash: Flash, tree: TreeSt) {
    && o in tree.nodes && tree.nodes[o] != ob
    && if badOld then ob in tree.bad
       else ob in tree.erased && ob in flash && flash[ob] == ErasedBlock(g.pages, g.pageSize)
  }

  /** Where a flush of `count` dirty pages of an object with a block puts them: behind the pages of that block if they
      fit, unless a merge is forced; else in another block, and the one it had is erased. A write that reports a bad
      block turns the first into the second, with the bad block put aside. */
  ghost predicate FlushedTo(g: Geometry, force: bool, count: nat, o: Obj, flash0: Flash, tree0: TreeSt, faults0: nat,
                            flash: Flash, tree: TreeSt, faults: nat) {
    o in tree0.nodes && tree0.nodes[o] in flash0 &&
    var ob := tree0.nodes[o];
    var fits := Used(flash0[ob]) + count <= g.pages;
    if fits && !force && faults == faults0 then
      tree == tree0 && ob in flash && flash == flash0[ob := flash[ob]] && Appended(flash0[ob], flash[ob]) &&
      Used(flash[ob]) == Used(flash0[ob]) + count
    else Moved(g, o, ob, fits && !force, flash, tree)
  }

  lemma {:induction false} MovedIs(g: Geometry, o: Obj, ob: nat, badOld: bool, flash: Flash, tree: TreeSt)
    ensures Moved(g, o, ob, badOld, flash, tree) <==>
            o in tree.nodes && tree.nodes[o] != ob &&
            if badOld then ob in tree.bad
            else ob in tree.erased && ob in flash && flash[ob] == ErasedBlock(g.pages, g.pageSize)
  {
  }

  lemma {:induction false} FlushedToIs(g: Geometry, force: bool, count: nat, o: Obj, flash0: Flash, tree0: TreeSt,
                                       faults0: nat, flash: Flash, tree: TreeSt, faults: nat)
    requires o in tree0.nodes && tree0.nodes[o] in flash0
    ensures FlushedTo(g, force, count, o, flash0, tree0, faults0, flash, tree, faults) <==>
            var ob := tree0.nodes[o];
            var fits := Used(flash0[ob]) + count <= g.pages;
            if fits && !force && faults == faults0 then
              tree == tree0 && ob in flash && flash == flash0[ob := flash[ob]] && Appended(flash0[ob], flash[ob]) &&
              Used(flash[ob]) == Used(flash0[ob]) + count
            else Moved(g, o, ob, fits && !force, flash, tree)
  {
  }

  // ----- what bad blocks cost

  predicate OneFault(faults0: nat, faults: nat, bad: bool) {
    if bad then faults0 == faults + 1 else faults == faults0
  }

  /** Each fault has cost an erased block and added a bad one; apart from that an operation has used so many erased
      blocks, and put aside so many bad ones. */
  predicate WornBy(tree0: TreeSt, faults0: nat, tree: TreeSt, faults: nat, used: nat, aside: nat) {
    && faults <= faults0
    && |tree.erased| + faults0 + used == |tree0.erased| + faults
    && |tree.bad| + faults == |tree0.bad| + faults0 + aside
  }

  lemma {:induction false} WearIs()
    ensures forall faults0, faults, bad :: OneFault(faults0, faults, bad) <==> faults0 == faults + if bad then 1 else 0
    ensures forall tree0, faults0, tree, faults, used, aside :: WornBy(tree0, faults0, tree, faults, used, aside) <==>
              faults <= faults0 && |tree.erased| + faults0 + used == |tree0.erased| + faults &&
              |tree.bad| + faults == |tree0.bad| + faults0 + aside
  {
  }

  // ----- the states of a merge that tries one block after the other

  /** Object o is being copied. The formerly erased blocks of `turned` have been put aside as bad. Of all other blocks
      only x may have changed: it was erased, and is the copy as far as it has come. */
  ghost predicate Copying(h: Snapshot, flash0: Flash, marked0: set<nat>, owner0: map<nat, Owner>, g: Geometry, ty: nat,
                          o: Obj, ts: nat, pages: seq<LPage>, x: nat, turned: set<nat>) {
    && h.marked == marked0 + turned && h.flash.Keys == flash0.Keys
    && (forall b :: b in turned ==> b in owner0 && owner0[b] == InErased && b in h.flash && |h.flash[b]| == g.pages)
    && (forall b :: b in flash0 && b !in turned && b != x ==> h.flash[b] == flash0[b])
    && (x in flash0 && x !in turned && h.flash[x] != flash0[x] ==>
          x in owner0 && owner0[x] == InErased && CutBlock(h.flash[x], g, ty, o, ts, pages))
  }

  ghost predicate MidCopy(h: Snapshot, flash0: Flash, marked0: set<nat>, owner0: map<nat, Owner>, g: Geometry, ty: nat,
                          o: Obj, ts: nat, pages: seq<LPage>) {
    exists x: nat, turned :: Copying(h, flash0, marked0, owner0, g, ty, o, ts, pages, x, turned)
  }

  /** All states the device has gone through since were such states. */
  ghost predicate MidRun(history0: seq<Snapshot>, history: seq<Snapshot>, flash0: Flash, marked0: set<nat>,
                         owner0: map<nat, Owner>, g: Geometry, ty: nat, o: Obj, ts: nat, pages: seq<LPage>) {
    history0 <= history &&
    forall i :: |history0| <= i < |history| ==> MidCopy(history[i], flash0, marked0, owner0, g, ty, o, ts, pages)
  }

  /** Between two tries: the blocks of `turned` have been put aside, and no other block has changed. */
  ghost predicate TurnedBad(turned: set<nat>, flash0: Flash, marked0: set<nat>, owner0: map<nat, Owner>, flash: Flash,
                            marked: set<nat>, owner: map<nat, Owner>, g: Geometry) {
    && marked == marked0 + turned && flash.Keys == flash0.Keys
    && (forall b :: b in turned ==> b in owner0 && owner0[b] == InErased && b in owner && owner[b] == InBad)
    && (forall b :: b in turned ==> b in flash && |flash[b]| == g.pages)
    && (forall b :: b in flash0 && b !in turned ==> flash[b] == flash0[b])
  }

  lemma {:induction false} NoneTurnedBad(flash: Flash, marked: set<nat>, owner: map<nat, Owner>, g: Geometry,
                                         history: seq<Snapshot>, ty: nat, o: Obj, ts: nat, pages: seq<LPage>)
    ensures TurnedBad({}, flash, marked, owner, flash, marked, owner, g)
    ensures MidRun(history, history, flash, marked, owner, g, ty, o, ts, pages)
  {
  }

  lemma {:induction false} CopyIsMid(turned: set<nat>, flash0: Flash, marked0: set<nat>, owner0: map<nat, Owner>,
                                     flash: Flash, marked: set<nat>, owner: map<nat, Owner>, g: Geometry,
                                     h: Snapshot, nb: nat, ty: nat, o: Obj, ts: nat, pages: seq<LPage>)
    requires TurnedBad(turned, flash0, marked0, owner0, flash, marked, owner, g)
    requires nb in owner0 && owner0[nb] == InErased && nb in owner && owner[nb] == InErased && nb in flash
    requires CopyState(h, flash, marked, nb, g, ty, o, ts, pages)
    ensures MidCopy(h, flash0, marked0, owner0, g, ty, o, ts, pages)
  {
    hide CutBlock;
    assert nb in flash0;
    assert Copying(h, flash0, marked0, owner0, g, ty, o, ts, pages, nb, turned);
  }

  /** A try to copy the object is part of the run. */
  lemma {:induction false} CopyJoins(turned: set<nat>, flash0: Flash, marked0: set<nat>, owner0: map<nat, Owner>,
                                     flash: Flash, marked: set<nat>, owner: map<nat, Owner>, g: Geometry,
                                     history0: seq<Snapshot>, history1: seq<Snapshot>, history: seq<Snapshot>,
                                     nb: nat, ty: nat, o: Obj, ts: nat, pages: seq<LPage>)
    requires TurnedBad(turned, flash0, marked0, owner0, flash, marked, owner, g)
    requires nb in owner0 && owner0[nb] == InErased && nb in owner && owner[nb] == InErased && nb in flash
    requires MidRun(history0, history1, flash0, marked0, owner0, g, ty, o, ts, pages)
    requires CopyHistory(history1, history, flash, marked, nb, g, ty, o, ts, pages)
    ensures MidRun(history0, history, flash0, marked0, owner0, g, ty, o, ts, pages)
  {
    hide MidCopy, CopyState, TurnedBad;
    forall i | |history0| <= i < |history| ensures MidCopy(history[i], flash0, marked0, owner0, g, ty, o, ts, pages) {
      if i < |history1| {
        assert history[i] == history1[i];
      } else {
        CopyIsMid(turned, flash0, marked0, owner0, flash, marked, owner, g, history[i], nb, ty, o, ts, pages);
      }
    }
  }

  /** The block copied to has turned bad and is put aside. */
  lemma {:induction false} OneMoreBad(turned: set<nat>, flash0: Flash, marked0: set<nat>, owner0: map<nat, Owner>,
                                      flash1: Flash, marked1: set<nat>, owner1: map<nat, Owner>, g: Geometry,
                                      nb: nat, flash: Flash, history0: seq<Snapshot>, history: seq<Snapshot>,
                                      ty: nat, o: Obj, ts: nat, pages: seq<LPage>)
    requires TurnedBad(turned, flash0, marked0, owner0, flash1, marked1, owner1, g)
    requires nb in owner0 && owner0[nb] == InErased && nb in flash1
    requires nb in flash && flash == flash1[nb := flash[nb]] && |flash[nb]| == g.pages
    requires MidRun(history0, history, flash0, marked0, owner0, g, ty, o, ts, pages)
    ensures TurnedBad(turned + {nb}, flash0, marked0, owner0, flash, marked1 + {nb}, owner1[nb := InBad], g)
    ensures MidRun(history0, history + [Snapshot(flash, marked1 + {nb})], flash0, marked0, owner0, g, ty, o, ts, pages)
  {
    OneMoreTurned(turned, flash0, marked0, owner0, flash1, marked1, owner1, g, nb, flash);
    var h := Snapshot(flash, marked1 + {nb});
    assert Copying(h, flash0, marked0, owner0, g, ty, o, ts, pages, nb, turned + {nb}) by {
      hide MidRun;
    }
    hide Copying, CutBlock, TurnedBad;
    assert MidCopy(h, flash0, marked0, owner0, g, ty, o, ts, pages);
    hide MidCopy;
  }

  lemma {:induction false} OneMoreTurned(turned: set<nat>, flash0: Flash, marked0: set<nat>, owner0: map<nat, Owner>,
                                         flash1: Flash, marked1: set<nat>, owner1: map<nat, Owner>, g: Geometry,
                                         nb: nat, flash: Flash)
    requires TurnedBad(turned, flash0, marked0, owner0, flash1, marked1, owner1, g)
    requires nb in owner0 && owner0[nb] == InErased && nb in flash1
    requires nb in flash && flash == flash1[nb := flash[nb]] && |flash[nb]| == g.pages
    ensures TurnedBad(turned + {nb}, flash0, marked0, owner0, flash, marked1 + {nb}, owner1[nb := InBad], g)
  {
  }

  lemma {:induction false} NodeBlockOk(flash: Flash, tree: TreeSt, owner: map<nat, Owner>, g: Geometry,
                                       typeOf: Obj -> nat, o: Obj)
    requires StoreOk(flash, tree, owner, g, typeOf) && o in tree.nodes
    ensures tree.nodes[o] in flash && BlockOk(flash[tree.nodes[o]], g, typeOf(o), o)
  {
  }

  /** The pages the merge is to leave. */
  ghost function RecoverPages(g: Geo, o: Obj, buf0: BufSt, flash0: Flash, tree0: TreeSt): seq<LPage>
    requires o in tree0.nodes && tree0.nodes[o] in flash0
  {
    Merge(Logical(flash0[tree0.nodes[o]]), DirtyMap(buf0.pool, o, g.pages), 0, g.pages)
  }

  /** The device was in the middle of the copy of object o all along. */
  ghost predicate CopyRun(g: Geo, typeOf: Obj -> nat, o: Obj, buf0: BufSt, flash0: Flash, tree0: TreeSt,
                          owner0: map<nat, Owner>, history0: seq<Snapshot>, history: seq<Snapshot>)
    requires o in tree0.nodes && tree0.nodes[o] in flash0 && |flash0[tree0.nodes[o]]| > 0
  {
    MidRun(history0, history, flash0, Marked(tree0), owner0, g, typeOf(o), o,
           NextTimeStamp(TimeStampOf(TagsOf(flash0[tree0.nodes[o]]))), RecoverPages(g, o, buf0, flash0, tree0))
  }

  /** A recover flush of object o, from one state of the device to another. When it was done, its last step was the
      erase of the old block, or its mark as bad, and left the merge on flash; all other steps belong to the copy. */
  ghost predicate RecoverRun(g: Geo, typeOf: Obj -> nat, o: Obj, buf0: BufSt, flash0: Flash, tree0: TreeSt,
                             owner0: map<nat, Owner>, history0: seq<Snapshot>, flash: Flash, tree: TreeSt,
                             history: seq<Snapshot>, done: bool) {
    && o in tree0.nodes && tree0.nodes[o] in flash0 && |flash0[tree0.nodes[o]]| > 0
    && if done then
         && o in tree.nodes && tree.nodes == tree0.nodes[o := tree.nodes[o]]
         && OthersKept(tree0.nodes, flash0, flash, o)
         && tree.nodes[o] in flash && Logical(flash[tree.nodes[o]]) == RecoverPages(g, o, buf0, flash0, tree0)
         && |history0| < |history| && history[|history| - 1] == Snapshot(flash, Marked(tree))
         && CopyRun(g, typeOf, o, buf0, flash0, tree0, owner0, history0, history[..|history| - 1])
       else
         tree.nodes == tree0.nodes && CopyRun(g, typeOf, o, buf0, flash0, tree0, owner0, history0, history)
  }

  lemma {:induction false} RecoverRunIs(g: Geo, typeOf: Obj -> nat, o: Obj, buf0: BufSt, flash0: Flash, tree0: TreeSt,
                                        owner0: map<nat, Owner>, history0: seq<Snapshot>, history1: seq<Snapshot>,
                                        flash: Flash, tree: TreeSt, history: seq<Snapshot>, done: bool)
    requires o in tree0.nodes && tree0.nodes[o] in flash0 && |flash0[tree0.nodes[o]]| > 0
    requires MidRun(history0, history1, flash0, Marked(tree0), owner0, g, typeOf(o), o,
                    NextTimeStamp(TimeStampOf(TagsOf(flash0[tree0.nodes[o]]))),
                    Merge(Logical(flash0[tree0.nodes[o]]), DirtyMap(buf0.pool, o, g.pages), 0, g.pages))
    requires history == history1 + if done then [Snapshot(flash, Marked(tree))] else []
    requires !done ==> tree.nodes == tree0.nodes
    requires done ==>
               o in tree.nodes && tree.nodes == tree0.nodes[o := tree.nodes[o]] && tree.nodes[o] in flash &&
               OthersKept(tree0.nodes, flash0, flash, o) &&
               Logical(flash[tree.nodes[o]]) ==
               Merge(Logical(flash0[tree0.nodes[o]]), DirtyMap(buf0.pool, o, g.pages), 0, g.pages)
    ensures RecoverRun(g, typeOf, o, buf0, flash0, tree0, owner0, history0, flash, tree, history, done)
  {
    hide MidCopy, Merge, Logical, DirtyMap, OthersKept;
    assert done ==> history[..|history| - 1] == history1;
    assert !done ==> history == history1;
  }

  // ----- the copy of a block without dirty pages

  /** The page a lookup finds for id i, and the step of the merge it stands for. */
  lemma {:induction false} LatestPage(b: Block, g: Geo, ty: nat, o: Obj, i: nat)
    requires BlockOk(b, g, ty, o) && i < g.pages
    ensures |Logical(b)| == Top(TagsOf(b))
    ensures NextOf(Logical(b), map[], i) == if i < |Logical(b)| then More(Logical(b)[i]) else Stop
    ensures i < |Logical(b)| ==>
              var k := Latest(TagsOf(b), i);
              0 <= k < |b| && b[k].tag.ty == ty && (b[k].tag.parent, b[k].tag.serial) == o &&
              b[k].tag.ts == b[0].tag.ts &&
              ContentOf(b[k]) == Logical(b)[i]
  {
    IdsAreThoseBelowTop(TagsOf(b), i);
    if i < |Logical(b)| {
      var k := Latest(TagsOf(b), i);
      assert PageOk(b[k], g, ty, o, b[0].tag.ts);
    }
  }

  /** What an operation does that moves an object to another block with the same pages. */
  lemma {:induction false} MovedKeepsOk(g: Geometry, typeOf: Obj -> nat, content: Content, buf: BufSt,
                                        flash: Flash, tree: TreeSt, owner: map<nat, Owner>,
                                        flash': Flash, tree': TreeSt, owner': map<nat, Owner>, o: Obj)
    requires DeviceOk(g, typeOf, buf, flash, tree, owner, content) && StoreOk(flash', tree', owner', g, typeOf)
    requires o in tree'.nodes && tree'.nodes == tree.nodes[o := tree'.nodes[o]]
    requires OthersKept(tree.nodes, flash, flash', o) && TakenAtMost(owner, owner', {})
    requires Stored(flash', tree'.nodes, o) == Stored(flash, tree.nodes, o)
    ensures DeviceOk(g, typeOf, buf, flash', tree', owner', content)
  {
    hide Merge, DirtyMap, Extends, BlockOk, BlockErased, Logical, CacheOk, Stored, ErasedListOk, BadListOk, BlocksOk;
    forall p: Obj ensures Stored(flash', tree'.nodes, p) == Stored(flash, tree.nodes, p) {
      if p != o {
        SameStored(flash, flash', tree.nodes, tree'.nodes, p);
      }
    }
  }

  lemma {:induction false} CopiedNothingNew(b: Block, g: Geo, ty: nat, o: Obj, ts: nat)
    requires BlockOk(b, g, ty, o) && ts < 3
    ensures Merge(Logical(b), map[], 0, g.pages) == Logical(b)
    ensures var b' := BlockOf(g, ty, o, ts, Logical(b)); BlockOk(b', g, ty, o) && Logical(b') == Logical(b)
  {
    PagesOfBlockOk(b, g, ty, o);
    MergeNothing(Logical(b), 0, g.pages);
    assert Logical(b)[0..] == Logical(b);
    BlockOfIsOk(g, ty, o, ts, Logical(b));
  }

  lemma {:induction false} NoNewLru(buf: BufSt)
    ensures buf == buf.(lru := buf.lru)
  {
  }
}

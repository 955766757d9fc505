/** A device flushes a group by a merge; the power may go at any step of it. */
module CrashRuns {
  import opened FlashModel
  import opened BlockLog
  import opened LogicalBlock
  import opened BlockInfoCache
  import opened DeviceState
  import opened CacheSteps
  import opened FlushSteps
  import opened CopySteps
  import opened DeviceModel
  import opened MountModel
  import opened MountSteps
  import opened Mounting
  import opened CrashSafety

  /** A mount that starts from state h finds object o with these pages, and every other object of the tree as it was. */
  ghost predicate FoundWith(h: Snapshot, n: nat, nodes: map<Obj, nat>, typeOf: Obj -> nat, o: Obj, pages: seq<LPage>,
                            flash0: Flash, nodes0: map<Obj, nat>) {
    && (forall b: nat :: b in h.flash <==> b < n)
    && Sized(BlocksOf(h.flash, n)) && Finds(BlocksOf(h.flash, n), h.marked, nodes, typeOf)
    && nodes.Keys == nodes0.Keys && o in nodes && nodes[o] in h.flash && Logical(h.flash[nodes[o]]) == pages
    && (forall p :: p in nodes && p != o ==>
          nodes[p] == nodes0[p] && nodes[p] in h.flash && nodes[p] in flash0 && h.flash[nodes[p]] == flash0[nodes[p]])
  }

  /** What a power cut may leave of this flush: old pages until the last step, new pages after it. */
  ghost predicate OldUntilOver(h: Snapshot, n: nat, typeOf: Obj -> nat, o: Obj, old0: seq<LPage>, new1: seq<LPage>,
                               flash0: Flash, nodes0: map<Obj, nat>, nodes: map<Obj, nat>, over: bool) {
    if over then FoundWith(h, n, nodes, typeOf, o, new1, flash0, nodes0)
    else FoundWith(h, n, nodes0, typeOf, o, old0, flash0, nodes0)
  }

  /** The last step of a flush has been taken. */
  ghost predicate Over(h: Snapshot, flash: Flash, tree: TreeSt, done: bool) {
    done && h == Snapshot(flash, Marked(tree))
  }

  /** Flush a group by a merge. Blocks may turn bad on the way, and the old block may be one that turned bad. In every
      state the device has gone through, with the page being written in any unsealed condition, a mount finds the pages
      flash held before; and once the old block is erased, or marked bad, the pages a reader saw. The flush fails only
      when erased blocks have run out, and then a mount finds the old pages whatever it tried. */
  method FlushThenCut(dev: Device, s: nat, o: Obj, badOld: bool) returns (ok: bool)
    requires dev.Valid() && s < |dev.buf.groups| && GroupOf(dev.buf, s, o) && o in dev.tree.nodes
    requires KeysDistinct(dev.tree.nodes, dev.typeOf)
    modifies dev`buf, dev`flash, dev`tree, dev`owner, dev`history, dev`faults
    ensures dev.Valid() && dev.tree.nodes.Keys == old(dev.tree).nodes.Keys && FlushStep(old(dev.buf), dev.buf, s, o)
    ensures if ok then s < |dev.buf.groups| && dev.buf.groups[s].dirty == [] else dev.tree.erased == []
    ensures |old(dev.tree).erased| > old(dev.faults) ==> ok
    ensures WornBy(old(dev.tree), old(dev.faults), dev.tree, dev.faults, if ok && badOld then 1 else 0,
                   if ok && badOld then 1 else 0)
    ensures Onward(old(dev.buf), old(dev.flash), old(dev.tree), dev.buf, dev.flash, dev.tree, {})
    ensures old(dev.history) <= dev.history
    ensures ok ==> |old(dev.history)| < |dev.history| && Over(dev.history[|dev.history| - 1], dev.flash, dev.tree, ok)
    ensures o in old(dev.tree).nodes && old(dev.tree).nodes[o] in old(dev.flash) &&
            |old(dev.flash)[old(dev.tree).nodes[o]]| > 0
    ensures forall i :: |old(dev.history)| <= i < |dev.history| ==>
              CutState(dev.history[i], dev.geo, dev.typeOf, o, old(dev.buf), old(dev.flash), old(dev.tree),
                       old(dev.owner), dev.flash, dev.tree, ok)
    ensures forall h: Snapshot ::
              CutState(h, dev.geo, dev.typeOf, o, old(dev.buf), old(dev.flash), old(dev.tree), old(dev.owner),
                       dev.flash, dev.tree, ok) ==>
              OldUntilOver(h, dev.geo.blocks, dev.typeOf, o, Stored(old(dev.flash), old(dev.tree).nodes, o),
                           ContentAt(dev.content, o), old(dev.flash), old(dev.tree).nodes, dev.tree.nodes,
                           Over(h, dev.flash, dev.tree, ok))
  {
    hide *;
    WearIs();
    dev.ValidIs();
    GeoFacts(dev.geo);
    RecoverReady(dev.geo, dev.typeOf, dev.buf, dev.flash, dev.tree, dev.owner, dev.content, o);
    BlockFacts(dev.flash[dev.tree.nodes[o]], dev.geo, dev.typeOf(o), o);
    ghost var buf0, flash0, tree0, owner0, history0 := dev.buf, dev.flash, dev.tree, dev.owner, dev.history;
    var bc := new BlockInfo(TagsOf(dev.flash[dev.tree.nodes[o]]));
    bc.LoadAll();
    ok := dev.FlushByRecover(s, o, bc, badOld);
    dev.ValidIs();
    CutAnywhere(dev.geo, dev.typeOf, o, buf0, flash0, tree0, owner0, history0, dev.buf, dev.flash, dev.tree, dev.owner,
                dev.history, dev.content, ok);
  }

  lemma {:induction false} CutAnywhere(g: Geo, typeOf: Obj -> nat, o: Obj, buf0: BufSt, flash0: Flash, tree0: TreeSt,
                                       owner0: map<nat, Owner>, history0: seq<Snapshot>, buf: BufSt, flash: Flash,
                                       tree: TreeSt, owner: map<nat, Owner>, history: seq<Snapshot>, content: Content,
                                       done: bool)
    requires DeviceOk(g, typeOf, buf0, flash0, tree0, owner0, content)
    requires DeviceOk(g, typeOf, buf, flash, tree, owner, content)
    requires RecoverRun(g, typeOf, o, buf0, flash0, tree0, owner0, history0, flash, tree, history, done)
    requires KeysDistinct(tree0.nodes, typeOf)
    ensures history0 <= history
    ensures done ==> |history0| < |history| && Over(history[|history| - 1], flash, tree, done)
    ensures o in tree0.nodes && tree0.nodes[o] in flash0 && |flash0[tree0.nodes[o]]| > 0
    ensures forall i :: |history0| <= i < |history| ==>
              CutState(history[i], g, typeOf, o, buf0, flash0, tree0, owner0, flash, tree, done)
    ensures forall h: Snapshot :: CutState(h, g, typeOf, o, buf0, flash0, tree0, owner0, flash, tree, done) ==>
              OldUntilOver(h, g.blocks, typeOf, o, Stored(flash0, tree0.nodes, o), ContentAt(content, o),
                           flash0, tree0.nodes, tree.nodes, Over(h, flash, tree, done))
  {
    hide *;
    RunFacts(g, typeOf, o, buf0, flash0, tree0, owner0, history0, flash, tree, history, content, done);
    BothOnFlash(g, typeOf, o, buf0, flash0, tree0, owner0, history0, buf, flash, tree, owner, history, content, done);
    forall i | |history0| <= i < |history|
      ensures CutState(history[i], g, typeOf, o, buf0, flash0, tree0, owner0, flash, tree, done)
    {
      HistoryIsCut(g, typeOf, o, buf0, flash0, tree0, owner0, history0, flash, tree, history, done, i);
    }
    forall h: Snapshot | CutState(h, g, typeOf, o, buf0, flash0, tree0, owner0, flash, tree, done)
      ensures OldUntilOver(h, g.blocks, typeOf, o, Stored(flash0, tree0.nodes, o), ContentAt(content, o),
                           flash0, tree0.nodes, tree.nodes, Over(h, flash, tree, done))
    {
      OldOrNew(g, typeOf, o, buf0, flash0, tree0, owner0, history0, flash, tree, owner, history, done, g.blocks, h);
      OverIs(h, flash, tree, done);
      FoundOldOrNew(h, g.blocks, typeOf, o, Stored(flash0, tree0.nodes, o), ContentAt(content, o),
                    flash0, tree0.nodes, tree.nodes, Over(h, flash, tree, done));
    }
  }

  lemma {:induction false} OverIs(h: Snapshot, flash: Flash, tree: TreeSt, done: bool)
    ensures Over(h, flash, tree, done) <==> done && h == Snapshot(flash, Marked(tree))
  {
  }

  lemma {:induction false} FoundOldOrNew(h: Snapshot, n: nat, typeOf: Obj -> nat, o: Obj, old0: seq<LPage>,
                                         new1: seq<LPage>, flash0: Flash, nodes0: map<Obj, nat>,
                                         nodes: map<Obj, nat>, over: bool)
    requires forall b: nat :: b in h.flash <==> b < n
    requires o in nodes0
    requires var found := if over then nodes else nodes0;
             Sized(BlocksOf(h.flash, n)) && Finds(BlocksOf(h.flash, n), h.marked, found, typeOf) &&
             found.Keys == nodes0.Keys && found[o] in h.flash &&
             Logical(h.flash[found[o]]) == (if over then new1 else old0) &&
             (forall p :: p in found && p != o ==>
               found[p] == nodes0[p] && found[p] in h.flash && found[p] in flash0 &&
               h.flash[found[p]] == flash0[found[p]])
    ensures OldUntilOver(h, n, typeOf, o, old0, new1, flash0, nodes0, nodes, over)
  {
    hide Finds, Logical, Sized;
  }

  /** Old pages are those flash held; new pages those a reader saw. */
  lemma {:induction false} RunFacts(g: Geo, typeOf: Obj -> nat, o: Obj, buf0: BufSt, flash0: Flash, tree0: TreeSt,
                                    owner0: map<nat, Owner>, history0: seq<Snapshot>, flash: Flash, tree: TreeSt,
                                    history: seq<Snapshot>, content: Content, done: bool)
    requires DeviceOk(g, typeOf, buf0, flash0, tree0, owner0, content)
    requires RecoverRun(g, typeOf, o, buf0, flash0, tree0, owner0, history0, flash, tree, history, done)
    ensures o in tree0.nodes && tree0.nodes[o] in flash0 && |flash0[tree0.nodes[o]]| > 0
    ensures tree.nodes.Keys == tree0.nodes.Keys && TagIsDirty(flash0[tree0.nodes[o]][0].tag)
    ensures Logical(flash0[tree0.nodes[o]]) == Stored(flash0, tree0.nodes, o)
    ensures RecoverPages(g, o, buf0, flash0, tree0) == ContentAt(content, o)
    ensures history0 <= history
    ensures done ==> |history0| < |history| && Over(history[|history| - 1], flash, tree, done)
  {
    hide DeviceOk, BlockOk, Logical, Merge, DirtyMap, NextTimeStamp, TimeStampOf, MidCopy, OthersKept, Marked;
    RecoverReady(g, typeOf, buf0, flash0, tree0, owner0, content, o);
    ContentIs(g, typeOf, buf0, flash0, tree0, owner0, content, o);
    FirstPageUsed(flash0[tree0.nodes[o]], g, typeOf(o), o);
    assert done ==> history[..|history| - 1] <= history;
  }

  lemma {:induction false} ContentIs(g: Geo, typeOf: Obj -> nat, buf: BufSt, flash: Flash, tree: TreeSt,
                                     owner: map<nat, Owner>, content: Content, o: Obj)
    requires DeviceOk(g, typeOf, buf, flash, tree, owner, content)
    ensures ContentAt(content, o) == Merge(Stored(flash, tree.nodes, o), DirtyMap(buf.pool, o, g.pages), 0, g.pages)
  {
    hide CacheOk, StoreOk, Coherent, Merge, DirtyMap, Stored, Extends;
  }

  lemma {:induction false} FirstPageUsed(b: Block, g: Geo, ty: nat, o: Obj)
    requires BlockOk(b, g, ty, o)
    ensures |b| > 0 && TagIsDirty(b[0].tag)
  {
    BlockFacts(b, g, ty, o);
    assert PageOk(b[0], g, ty, o, b[0].tag.ts);
  }

  lemma {:induction false} BothOnFlash(g: Geo, typeOf: Obj -> nat, o: Obj, buf0: BufSt, flash0: Flash, tree0: TreeSt,
                                       owner0: map<nat, Owner>, history0: seq<Snapshot>, buf: BufSt, flash: Flash,
                                       tree: TreeSt, owner: map<nat, Owner>, history: seq<Snapshot>, content: Content,
                                       done: bool)
    requires DeviceOk(g, typeOf, buf0, flash0, tree0, owner0, content)
    requires DeviceOk(g, typeOf, buf, flash, tree, owner, content)
    requires RecoverRun(g, typeOf, o, buf0, flash0, tree0, owner0, history0, flash, tree, history, done)
    requires KeysDistinct(tree0.nodes, typeOf)
    ensures OnFlash(flash0, tree0, owner0, g, typeOf, g.blocks) && OnFlash(flash, tree, owner, g, typeOf, g.blocks)
  {
    hide CacheOk, StoreOk, Coherent, ContentOk, NothingTaken, ObjKey, RecoverPages, Logical, CopyRun, OthersKept,
      Marked;
  }

  // ----- the mount after it

  /** Every object has one node in the mounted tree: object o with these pages, every other on its block as it was;
      and every block that is not an object's is listed for use or as bad. */
  ghost predicate SurviveWith(blocks: Blocks, tree: Tree, found: map<Obj, nat>, typeOf: Obj -> nat, o: Obj,
                              pages: seq<LPage>, flash0: Flash, nodes0: map<Obj, nat>) {
    && (forall k :: k in tree.nodes <==> exists p :: p in nodes0 && k == ObjKey(typeOf(p), p))
    && ObjKey(typeOf(o), o) in tree.nodes && tree.nodes[ObjKey(typeOf(o), o)].block < |blocks|
    && Logical(blocks[tree.nodes[ObjKey(typeOf(o), o)].block]) == pages
    && (forall p :: p in nodes0 && p != o ==>
          ObjKey(typeOf(p), p) in tree.nodes && tree.nodes[ObjKey(typeOf(p), p)].block == nodes0[p] < |blocks| &&
          nodes0[p] in flash0 && blocks[nodes0[p]] == flash0[nodes0[p]])
    && (forall b :: 0 <= b < |blocks| && (forall p :: p in found ==> found[p] != b) ==> Listed(tree, b))
  }

  /** The blocks and marks a mount starts from, as a state of the device. */
  function SnapshotOf(blocks: Blocks, marked: set<nat>): Snapshot {
    Snapshot(map b: nat | b < |blocks| :: blocks[b], marked)
  }

  lemma {:induction false} SnapshotBlocks(blocks: Blocks, marked: set<nat>)
    ensures var h := SnapshotOf(blocks, marked);
            h.marked == marked && (forall b: nat :: b in h.flash <==> b < |blocks|) &&
            BlocksOf(h.flash, |blocks|) == blocks
  {
  }

  /** Flush a group by a merge, cut the power at any step of it, and mount what that has left. Whatever it is, the whole
      mount succeeds, no data block is taken for an orphan, and object o has its old pages, or, once the flush is over,
      the pages a reader saw. */
  method FlushCutMount(dev: Device, s: nat, o: Obj, badOld: bool, blocks: Blocks, marked: set<nat>,
                       failing: set<nat>, now: nat)
    returns (done: bool, ok: bool, m: Mount)
    requires dev.Valid() && s < |dev.buf.groups| && GroupOf(dev.buf, s, o) && o in dev.tree.nodes
    requires KeysDistinct(dev.tree.nodes, dev.typeOf) && DataHaveFiles(dev.tree.nodes, dev.typeOf)
    requires Sized(blocks) && |blocks| == dev.geo.blocks
    modifies dev`buf, dev`flash, dev`tree, dev`owner, dev`history, dev`faults
    ensures dev.Valid() && dev.tree.nodes.Keys == old(dev.tree).nodes.Keys && FlushStep(old(dev.buf), dev.buf, s, o)
    ensures if done then s < |dev.buf.groups| && dev.buf.groups[s].dirty == [] else dev.tree.erased == []
    ensures |old(dev.tree).erased| > old(dev.faults) ==> done
    ensures WornBy(old(dev.tree), old(dev.faults), dev.tree, dev.faults, if done && badOld then 1 else 0,
                   if done && badOld then 1 else 0)
    ensures Onward(old(dev.buf), old(dev.flash), old(dev.tree), dev.buf, dev.flash, dev.tree, {})
    ensures old(dev.history) <= dev.history
    ensures done ==>
            |old(dev.history)| < |dev.history| && Over(dev.history[|dev.history| - 1], dev.flash, dev.tree, done)
    ensures o in old(dev.tree).nodes && old(dev.tree).nodes[o] in old(dev.flash) &&
            |old(dev.flash)[old(dev.tree).nodes[o]]| > 0
    ensures forall i :: |old(dev.history)| <= i < |dev.history| ==>
              CutState(dev.history[i], dev.geo, dev.typeOf, o, old(dev.buf), old(dev.flash), old(dev.tree),
                       old(dev.owner), dev.flash, dev.tree, done)
    ensures ok ==> BlocksPlaced(blocks, marked, m.blocks, m.marked, m.tree, m.unchecked, failing, dev.geo.pageSize)
    ensures CutState(SnapshotOf(blocks, marked), dev.geo, dev.typeOf, o, old(dev.buf), old(dev.flash), old(dev.tree),
                     old(dev.owner), dev.flash, dev.tree, done) ==>
            ok && var over := Over(SnapshotOf(blocks, marked), dev.flash, dev.tree, done);
                  SurviveWith(m.blocks, m.tree, if over then dev.tree.nodes else old(dev.tree).nodes, dev.typeOf, o,
                              if over then ContentAt(dev.content, o)
                              else Stored(old(dev.flash), old(dev.tree).nodes, o),
                              old(dev.flash), old(dev.tree).nodes)
  {
    hide *;
    ghost var buf0, flash0, tree0, owner0 := dev.buf, dev.flash, dev.tree, dev.owner;
    done := FlushThenCut(dev, s, o, badOld);
    ok, m := MountWhole(dev.geo, blocks, marked, failing, now);
    if CutState(SnapshotOf(blocks, marked), dev.geo, dev.typeOf, o, buf0, flash0, tree0, owner0, dev.flash, dev.tree,
                done) {
      CutSurvives(blocks, marked, dev.typeOf, o, Stored(flash0, tree0.nodes, o), ContentAt(dev.content, o), flash0,
                  tree0.nodes, dev.tree.nodes, Over(SnapshotOf(blocks, marked), dev.flash, dev.tree, done),
                  ok, m.blocks, m.tree, dev.geo.pageSize);
    }
  }

  /** A mount of what a cut has left. */
  lemma {:induction false} CutSurvives(blocks0: Blocks, marked: set<nat>, typeOf: Obj -> nat, o: Obj, old0: seq<LPage>,
                                       new1: seq<LPage>, flash0: Flash, nodes0: map<Obj, nat>, nodes: map<Obj, nat>,
                                       over: bool, ok: bool, blocks: Blocks, tree: Tree, pageSize: nat)
    requires Sized(blocks0) && (ok <==> NonePossible(blocks0, marked, |blocks0|))
    requires ok ==> Mounted(blocks0, marked, blocks, tree, pageSize)
    requires OldUntilOver(SnapshotOf(blocks0, marked), |blocks0|, typeOf, o, old0, new1, flash0, nodes0, nodes, over)
    requires KeysDistinct(nodes0, typeOf) && DataHaveFiles(nodes0, typeOf)
    ensures ok && SurviveWith(blocks, tree, if over then nodes else nodes0, typeOf, o, if over then new1 else old0,
                              flash0, nodes0)
  {
    hide *;
    var h, found := SnapshotOf(blocks0, marked), if over then nodes else nodes0;
    SnapshotBlocks(blocks0, marked);
    FoundIs(h, |blocks0|, typeOf, o, old0, new1, flash0, nodes0, nodes, over);
    SameObjects(nodes0, found, typeOf);
    FindsAll(blocks0, marked, found, typeOf);
    MountSurvives(blocks0, marked, blocks, tree, pageSize, found, typeOf);
    SurvivorsFound(h, blocks0, typeOf, o, old0, new1, flash0, nodes0, nodes, over, blocks, tree);
  }

  lemma {:induction false} FoundIs(h: Snapshot, n: nat, typeOf: Obj -> nat, o: Obj, old0: seq<LPage>, new1: seq<LPage>,
                                   flash0: Flash, nodes0: map<Obj, nat>, nodes: map<Obj, nat>, over: bool)
    requires OldUntilOver(h, n, typeOf, o, old0, new1, flash0, nodes0, nodes, over)
    ensures forall b: nat :: b in h.flash <==> b < n
    ensures var found := if over then nodes else nodes0;
            Sized(BlocksOf(h.flash, n)) && Finds(BlocksOf(h.flash, n), h.marked, found, typeOf) &&
            found.Keys == nodes0.Keys
  {
    hide Finds, Logical, Sized;
  }

  lemma {:induction false} SameObjects(nodes0: map<Obj, nat>, nodes: map<Obj, nat>, typeOf: Obj -> nat)
    requires nodes.Keys == nodes0.Keys && KeysDistinct(nodes0, typeOf) && DataHaveFiles(nodes0, typeOf)
    ensures KeysDistinct(nodes, typeOf) && DataHaveFiles(nodes, typeOf)
  {
    hide ObjKey;
    assert forall p :: p in nodes <==> p in nodes0;
    forall p | p in nodes && typeOf(p) == DATA ensures exists o :: FileOf(nodes, typeOf, o, p) {
      var o :| FileOf(nodes0, typeOf, o, p);
      assert FileOf(nodes, typeOf, o, p);
    }
  }

  lemma {:induction false} SurvivorsFound(h: Snapshot, blocks0: Blocks, typeOf: Obj -> nat, o: Obj, old0: seq<LPage>,
                                          new1: seq<LPage>, flash0: Flash, nodes0: map<Obj, nat>,
                                          nodes: map<Obj, nat>, over: bool, blocks: Blocks, tree: Tree)
    requires OldUntilOver(h, |blocks0|, typeOf, o, old0, new1, flash0, nodes0, nodes, over)
    requires (forall b: nat :: b < |blocks0| ==> b in h.flash) && blocks0 == BlocksOf(h.flash, |blocks0|)
    requires Survive(blocks0, blocks, tree, if over then nodes else nodes0, typeOf)
    ensures SurviveWith(blocks, tree, if over then nodes else nodes0, typeOf, o, if over then new1 else old0,
                        flash0, nodes0)
  {
    hide Finds, Logical, Sized, ObjKey, Listed;
    var found := if over then nodes else nodes0;
    assert forall p :: p in found <==> p in nodes0;
  }
}

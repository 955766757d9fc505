/** Mounting a device that has been written out gives back the tree of the run and the length of every file. */
module MountLengths {
  import opened FlashModel
  import opened BlockLog
  import opened BlockInfoCache
  import opened LogicalBlock
  import opened DeviceState
  import opened FlushSteps
  import opened MountModel
  import opened MountSteps
  import opened Mounting
  import opened CrashSafety

  /** Bytes on the pages from id `from` on. */
  function PageLens(pages: seq<LPage>, from: nat): nat {
    if |pages| <= from then 0 else PageLens(pages[..|pages| - 1], from) + pages[|pages| - 1].len
  }

  /** Page 0 of a file's head block holds its attributes. */
  function HeadPages(ty: nat): nat {
    if ty == FILE then 1 else 0
  }

  /** All pages but the last are full. */
  ghost predicate Packed(pages: seq<LPage>, from: nat, pageSize: nat) {
    forall i :: from <= i < |pages| - 1 ==> pages[i].len == pageSize
  }

  lemma {:induction false} SumLensIsPageLens(b: Block, from: nat, to: nat)
    requires LogInv(TagsOf(b)) && to <= |Logical(b)|
    ensures SumLens(TagsOf(b), from, to) == PageLens(Logical(b)[..to], from)
  {
    if from < to {
      SumLensIsPageLens(b, from, to - 1);
      IdsAreThoseBelowTop(TagsOf(b), to - 1);
      assert Logical(b)[..to][..to - 1] == Logical(b)[..to - 1];
    }
  }

  /** The length a mount gives the block of an object is the number of data bytes on its pages, if all but the last
      are full. */
  lemma {:induction false} NodeLength(b: Block, g: Geo, ty: nat, o: Obj, block: nat, node: Node)
    requires BlockOk(b, g, ty, o) && (ty == FILE || ty == DATA) && |b| >= 2 && NodeIs(b, g.pageSize, block, node)
    requires Packed(Logical(b), HeadPages(ty), g.pageSize)
    ensures node.len == PageLens(Logical(b), HeadPages(ty))
  {
    hide SumLens, PageLens, Logical, LogInv, OneObject;
    var tags := TagsOf(b);
    assert PageOk(b[0], g, ty, o, b[0].tag.ts);
    PagesOfBlockOk(b, g, ty, o);
    SumLensIsPageLens(b, HeadPages(ty), |Logical(b)|);
    assert Logical(b)[..|Logical(b)|] == Logical(b);
    LogicalSize(b);
    assert tags[0] == b[0].tag;
    if FullyLoaded(tags) {
      PackedTags(b, g, ty, o);
      FastLengthIsSlowLength(tags, g.pageSize);
    }
  }

  lemma {:induction false} LogicalSize(b: Block)
    ensures |Logical(b)| == Top(TagsOf(b))
  {
  }

  lemma {:induction false} PackedTags(b: Block, g: Geo, ty: nat, o: Obj)
    requires BlockOk(b, g, ty, o) && FullyLoaded(TagsOf(b)) && Packed(Logical(b), HeadPages(ty), g.pageSize)
    ensures forall i :: 0 <= i < |b| ==> TagsOf(b)[i].dataLen <= g.pageSize
    ensures forall i :: HeadPages(ty) <= i < |b| - 1 ==> TagsOf(b)[i].dataLen == g.pageSize
  {
    FullyLoadedMeansOnePagePerId(TagsOf(b));
    FullLog(TagsOf(b));
    forall i | 0 <= i < |b|
      ensures TagsOf(b)[i].dataLen <= g.pageSize &&
              (HeadPages(ty) <= i < |b| - 1 ==> TagsOf(b)[i].dataLen == g.pageSize)
    {
      assert Holds(TagsOf(b)[i], i);
      assert PageOk(b[i], g, ty, o, b[0].tag.ts);
      assert Logical(b)[i] == PageAt(b, i) == ContentOf(b[i]);
    }
  }

  // ----- the files of a device

  /** Files and their data blocks: a data block's parent is the serial of its file; the pages are packed. */
  ghost predicate FilesOk(nodes: map<Obj, nat>, flash: Flash, typeOf: Obj -> nat, g: Geo) {
    && (forall o, p :: o in nodes && p in nodes && typeOf(o) == FILE && p.0 == o.1 ==> typeOf(p) == DATA)
    && (forall p :: p in nodes && typeOf(p) == DATA ==> exists o :: o in nodes && typeOf(o) == FILE && o.1 == p.0)
    && (forall o :: o in nodes && typeOf(o) != DIR ==>
        Packed(Stored(flash, nodes, o), HeadPages(typeOf(o)), g.pageSize))
  }

  /** Bytes in the data blocks of a file with serials below n. */
  function DataBytes(flash: Flash, nodes: map<Obj, nat>, file: nat, n: nat): nat {
    if n == 0 then 0 else DataBytes(flash, nodes, file, n - 1) + PageLens(Stored(flash, nodes, (file, n - 1)), 0)
  }

  /** The length of a file: the bytes on its head block and those on its data blocks. */
  function FileBytes(flash: Flash, nodes: map<Obj, nat>, o: Obj, n: nat): nat {
    PageLens(Stored(flash, nodes, o), 1) + DataBytes(flash, nodes, o.1, n)
  }

  /** After step one each node has the length of its block. */
  lemma {:induction false} NodeOfObject(flash: Flash, tree: TreeSt, owner: map<nat, Owner>, g: Geo, typeOf: Obj -> nat,
                                        n: nat, blocks: Blocks, mounted: Tree, o: Obj)
    requires OnFlash(flash, tree, owner, g, typeOf, n) && o in tree.nodes && FilesOk(tree.nodes, flash, typeOf, g)
    requires MountedAt(BlocksOf(flash, n), blocks, mounted, tree.nodes, typeOf, g.pageSize)
    ensures ObjKey(typeOf(o), o) in mounted.nodes
    ensures var node := mounted.nodes[ObjKey(typeOf(o), o)];
            node.block == tree.nodes[o] && node.parent == o.0 && node.serial == o.1 &&
            (typeOf(o) == FILE || typeOf(o) == DATA ==>
             node.len == PageLens(Stored(flash, tree.nodes, o), HeadPages(typeOf(o))))
  {
    hide StoreOk, KeysDistinct, BlockOk, PageLens, Packed, LenIs, Logical;
    DeviceNodes(flash, tree, owner, g, typeOf, n);
    var b, node := flash[tree.nodes[o]], mounted.nodes[ObjKey(typeOf(o), o)];
    FirstPage(b, g, typeOf(o), o);
    if typeOf(o) == FILE || typeOf(o) == DATA {
      NodeLength(b, g, typeOf(o), o, tree.nodes[o], node);
    }
  }

  lemma {:induction false} FirstPage(b: Block, g: Geo, ty: nat, o: Obj)
    requires BlockOk(b, g, ty, o)
    ensures |b| >= 2 && b[0].tag.parent == o.0 && b[0].tag.serial == o.1 && b[0].tag.ty == ty
  {
    assert PageOk(b[0], g, ty, o, b[0].tag.ts);
  }

  /** The lengths of the data nodes of a file add up to its data bytes. */
  lemma {:induction false} SumIsDataBytes(flash: Flash, tree: TreeSt, owner: map<nat, Owner>, g: Geo,
                                          typeOf: Obj -> nat, n: nat, blocks: Blocks, mounted: Tree, file: Obj,
                                          bound: nat)
    requires OnFlash(flash, tree, owner, g, typeOf, n) && FilesOk(tree.nodes, flash, typeOf, g)
    requires MountedAt(BlocksOf(flash, n), blocks, mounted, tree.nodes, typeOf, g.pageSize)
    requires file in tree.nodes && typeOf(file) == FILE
    ensures SumData(mounted.nodes, DataKeys(mounted.nodes), file.1, bound) ==
            DataBytes(flash, tree.nodes, file.1, bound)
  {
    hide OnFlash, MountedAt, FilesOk, PageLens;
    if bound > 0 {
      SumIsDataBytes(flash, tree, owner, g, typeOf, n, blocks, mounted, file, bound - 1);
      DataNode(flash, tree, owner, g, typeOf, n, blocks, mounted, file, bound - 1);
    }
  }

  lemma {:induction false} DataNode(flash: Flash, tree: TreeSt, owner: map<nat, Owner>, g: Geo, typeOf: Obj -> nat,
                                    n: nat, blocks: Blocks, mounted: Tree, file: Obj, serial: nat)
    requires OnFlash(flash, tree, owner, g, typeOf, n) && FilesOk(tree.nodes, flash, typeOf, g)
    requires MountedAt(BlocksOf(flash, n), blocks, mounted, tree.nodes, typeOf, g.pageSize)
    requires file in tree.nodes && typeOf(file) == FILE
    ensures var k := DataKey(file.1, serial);
            (if k in mounted.nodes then mounted.nodes[k].len else 0) ==
              PageLens(Stored(flash, tree.nodes, (file.1, serial)), 0)
  {
    hide OnFlash, NodeIs, PageLens, Packed, MountedAt, FilesOk, KeysDistinct;
    OnFlashKeys(flash, tree, owner, g, typeOf, n);
    var p := (file.1, serial);
    DataKeyIs(flash, tree.nodes, typeOf, g, BlocksOf(flash, n), blocks, mounted, file, p);
    if p in tree.nodes {
      NodeOfObject(flash, tree, owner, g, typeOf, n, blocks, mounted, p);
    }
  }

  /** The data keys of a file are those of its data blocks. */
  lemma {:induction false} DataKeyIs(flash: Flash, nodes: map<Obj, nat>, typeOf: Obj -> nat, g: Geo, blocks0: Blocks,
                                     blocks: Blocks, mounted: Tree, file: Obj, p: Obj)
    requires FilesOk(nodes, flash, typeOf, g) && MountedAt(blocks0, blocks, mounted, nodes, typeOf, g.pageSize)
    requires file in nodes && typeOf(file) == FILE && p.0 == file.1
    ensures p in nodes ==> typeOf(p) == DATA && ObjKey(typeOf(p), p) == DataKey(file.1, p.1)
    ensures p !in nodes ==> DataKey(file.1, p.1) !in mounted.nodes && PageLens(Stored(flash, nodes, p), 0) == 0
  {
    KeysAreObjects(blocks0, blocks, mounted, nodes, typeOf, g.pageSize);
    hide NodeIs, Packed, Logical, MountedAt;
  }

  lemma {:induction false} KeysAreObjects(blocks0: Blocks, blocks: Blocks, mounted: Tree, nodes: map<Obj, nat>,
                                          typeOf: Obj -> nat, pageSize: nat)
    requires MountedAt(blocks0, blocks, mounted, nodes, typeOf, pageSize)
    ensures forall k :: k in mounted.nodes ==> exists o :: o in nodes && k == ObjKey(typeOf(o), o)
  {
    hide NodeIs, ObjKey;
  }

  const SERIALS: nat := MAX_SERIAL + 1

  /** The mounted tree is the tree of the run, with the length of every file. */
  ghost predicate RunTimeTree(mounted: map<Key, Node>, flash: Flash, nodes: map<Obj, nat>, typeOf: Obj -> nat) {
    && (forall k :: k in mounted ==> exists o :: o in nodes && k == ObjKey(typeOf(o), o))
    && (forall o :: o in nodes ==>
          ObjKey(typeOf(o), o) in mounted &&
          var node := mounted[ObjKey(typeOf(o), o)];
          node.block == nodes[o] && node.parent == o.0 && node.serial == o.1 &&
          (typeOf(o) == FILE ==> node.len == FileBytes(flash, nodes, o, SERIALS)))
  }

  lemma {:induction false} StepOneDistinct(flash: Flash, tree: TreeSt, owner: map<nat, Owner>, g: Geo,
                                           typeOf: Obj -> nat, n: nat, blocks: Blocks, mounted: Tree)
    requires OnFlash(flash, tree, owner, g, typeOf, n) && FilesOk(tree.nodes, flash, typeOf, g)
    requires MountedAt(BlocksOf(flash, n), blocks, mounted, tree.nodes, typeOf, g.pageSize)
    requires forall o :: o in tree.nodes ==> o.1 < SERIALS
    ensures NodesDistinct(mounted.nodes, n) && forall k :: k in mounted.nodes && k.DataKey? ==> k.serial < SERIALS
  {
    hide StoreOk, KeysDistinct, FilesOk, NodeIs, PageLens, BlockOk, ObjKey, NodesDistinct;
    DeviceNodes(flash, tree, owner, g, typeOf, n);
    forall o | o in tree.nodes
      ensures ObjKey(typeOf(o), o) in mounted.nodes
      ensures var node := mounted.nodes[ObjKey(typeOf(o), o)]; node.block == tree.nodes[o] && node.parent == o.0
    {
      NodeOfObject(flash, tree, owner, g, typeOf, n, blocks, mounted, o);
    }
    MatchingDistinct(mounted.nodes, tree.nodes, typeOf, n);
  }

  lemma {:induction false} MatchingDistinct(mounted: map<Key, Node>, nodes: map<Obj, nat>, typeOf: Obj -> nat, n: nat)
    requires forall k :: k in mounted ==> exists o :: o in nodes && k == ObjKey(typeOf(o), o)
    requires forall o :: o in nodes ==> ObjKey(typeOf(o), o) in mounted
    requires forall o :: o in nodes ==>
               var node := mounted[ObjKey(typeOf(o), o)]; node.block == nodes[o] && node.parent == o.0
    requires forall o :: o in nodes ==> nodes[o] < n && o.1 < SERIALS
    requires forall o, p :: o in nodes && p in nodes && o != p ==> nodes[o] != nodes[p]
    ensures NodesDistinct(mounted, n) && forall k :: k in mounted && k.DataKey? ==> k.serial < SERIALS
  {
    forall k, j | k in mounted && j in mounted && k != j ensures mounted[k].block != mounted[j].block {
      var o :| o in nodes && k == ObjKey(typeOf(o), o);
      var p :| p in nodes && j == ObjKey(typeOf(p), p);
      assert o != p;
    }
  }

  /** Step three leaves every node, and adds up the lengths of the files. */
  lemma {:induction false} StepThreeTree(flash: Flash, tree: TreeSt, owner: map<nat, Owner>, g: Geo, typeOf: Obj -> nat,
                                         n: nat, blocks: Blocks, mounted: Tree, nodes: map<Key, Node>)
    requires OnFlash(flash, tree, owner, g, typeOf, n) && FilesOk(tree.nodes, flash, typeOf, g)
    requires MountedAt(BlocksOf(flash, n), blocks, mounted, tree.nodes, typeOf, g.pageSize)
    requires Summed(mounted.nodes, nodes, DataKeys(mounted.nodes), SERIALS)
    ensures RunTimeTree(nodes, flash, tree.nodes, typeOf) && nodes.Keys == mounted.nodes.Keys
  {
    hide OnFlash, FilesOk, MountedAt, Summed, FileBytes, ObjKey, KeysDistinct;
    OnFlashKeys(flash, tree, owner, g, typeOf, n);
    SummedKeys(flash, tree.nodes, g, typeOf, BlocksOf(flash, n), blocks, mounted, nodes);
    forall o | o in tree.nodes
      ensures ObjKey(typeOf(o), o) in nodes
      ensures var node := nodes[ObjKey(typeOf(o), o)];
              node.block == tree.nodes[o] && node.parent == o.0 && node.serial == o.1 &&
              (typeOf(o) == FILE ==> node.len == FileBytes(flash, tree.nodes, o, SERIALS))
    {
      SummedNode(flash, tree, owner, g, typeOf, n, blocks, mounted, nodes, o);
    }
  }

  lemma {:induction false} SummedNode(flash: Flash, tree: TreeSt, owner: map<nat, Owner>, g: Geo, typeOf: Obj -> nat,
                                      n: nat, blocks: Blocks, mounted: Tree, nodes: map<Key, Node>, o: Obj)
    requires OnFlash(flash, tree, owner, g, typeOf, n) && FilesOk(tree.nodes, flash, typeOf, g) && o in tree.nodes
    requires MountedAt(BlocksOf(flash, n), blocks, mounted, tree.nodes, typeOf, g.pageSize)
    requires Summed(mounted.nodes, nodes, DataKeys(mounted.nodes), SERIALS) && nodes.Keys == mounted.nodes.Keys
    ensures ObjKey(typeOf(o), o) in nodes
    ensures var node := nodes[ObjKey(typeOf(o), o)];
            node.block == tree.nodes[o] && node.parent == o.0 && node.serial == o.1 &&
            (typeOf(o) == FILE ==> node.len == FileBytes(flash, tree.nodes, o, SERIALS))
  {
    hide OnFlash, FilesOk, MountedAt, PageLens, Stored, SumData, DataBytes, DataKeys;
    NodeOfObject(flash, tree, owner, g, typeOf, n, blocks, mounted, o);
    if typeOf(o) == FILE {
      SumIsDataBytes(flash, tree, owner, g, typeOf, n, blocks, mounted, o, SERIALS);
    }
  }

  lemma {:induction false} SummedKeys(flash: Flash, nodes0: map<Obj, nat>, g: Geo, typeOf: Obj -> nat, blocks0: Blocks,
                                      blocks: Blocks, mounted: Tree, nodes: map<Key, Node>)
    requires FilesOk(nodes0, flash, typeOf, g) && MountedAt(blocks0, blocks, mounted, nodes0, typeOf, g.pageSize)
    requires Summed(mounted.nodes, nodes, DataKeys(mounted.nodes), SERIALS)
    ensures nodes.Keys == mounted.nodes.Keys
    ensures forall k :: k in nodes ==> exists o :: o in nodes0 && k == ObjKey(typeOf(o), o)
  {
    hide FilesOk, NodeIs, SumData, ObjKey;
    forall k | k in mounted.nodes && k.DataKey? ensures FileKey(k.parent) in mounted.nodes {
      FileOfData(nodes0, flash, typeOf, g, blocks0, blocks, mounted, k);
    }
  }

  lemma {:induction false} FileOfData(nodes: map<Obj, nat>, flash: Flash, typeOf: Obj -> nat, g: Geo, blocks0: Blocks,
                                      blocks: Blocks, mounted: Tree, k: Key)
    requires FilesOk(nodes, flash, typeOf, g) && MountedAt(blocks0, blocks, mounted, nodes, typeOf, g.pageSize)
    requires k in mounted.nodes && k.DataKey?
    ensures FileKey(k.parent) in mounted.nodes
  {
    hide NodeIs, Packed, Stored;
    var p :| p in nodes && k == ObjKey(typeOf(p), p);
    var o :| o in nodes && typeOf(o) == FILE && o.1 == p.0;
    assert ObjKey(typeOf(o), o) in mounted.nodes;
  }

  /** Mounting a device whose dirty buffers have been written out: the tree of the run, each file with its length. */
  method Remount(g: Geo, blocks: Blocks, marked: set<nat>, failing: set<nat>, now: nat, ghost flash: Flash,
                 ghost tree: TreeSt, ghost owner: map<nat, Owner>, ghost typeOf: Obj -> nat)
    returns (ok: bool, m: Mount)
    requires OnFlash(flash, tree, owner, g, typeOf, |blocks|) && blocks == BlocksOf(flash, |blocks|) &&
             marked == Marked(tree)
    requires FilesOk(tree.nodes, flash, typeOf, g) && forall o :: o in tree.nodes ==> o.1 < SERIALS
    ensures ok && RunTimeTree(m.tree.nodes, flash, tree.nodes, typeOf)
    ensures BlocksPlaced(blocks, marked, m.blocks, m.marked, m.tree, m.unchecked, failing, g.pageSize)
    ensures |m.blocks| == |blocks| &&
            forall o :: o in tree.nodes ==> tree.nodes[o] < |blocks| && m.blocks[tree.nodes[o]] == blocks[tree.nodes[o]]
  {
    hide *;
    MountFinds(flash, tree, owner, g, typeOf, |blocks|);
    OnFlashKeys(flash, tree, owner, g, typeOf, |blocks|);
    ok, m := MountAfterCut(g, blocks, marked, failing, now, tree.nodes, typeOf);
    ghost var mounted, blocks1, marked1 := m.tree, m.blocks, m.marked;
    ScannedFacts(blocks, marked, m.blocks, m.marked, m.tree, g.pageSize);
    StepOneDistinct(flash, tree, owner, g, typeOf, |blocks|, m.blocks, m.tree);
    ScannedRight(blocks, marked, blocks1, marked1, mounted, m.unchecked, failing, g.pageSize);
    m.StepThree(SERIALS, blocks, marked);
    PlacedAfterOrphans(blocks, marked, blocks1, marked1, mounted, m.blocks, m.marked, m.tree, m.unchecked, failing,
                       g.pageSize);
    NothingPending(m.tree);
    m.RecoverPending();
    SummedUp(mounted.nodes, blocks1, m.tree.nodes, m.blocks, SERIALS);
    StepThreeTree(flash, tree, owner, g, typeOf, |blocks|, blocks1, mounted, m.tree.nodes);
    BlocksStay(blocks, blocks1, mounted, tree.nodes, typeOf, g.pageSize, m.tree.nodes, m.blocks, flash);
  }

  lemma {:induction false} OnFlashKeys(flash: Flash, tree: TreeSt, owner: map<nat, Owner>, g: Geo, typeOf: Obj -> nat,
                                       n: nat)
    requires OnFlash(flash, tree, owner, g, typeOf, n)
    ensures KeysDistinct(tree.nodes, typeOf) && forall b: nat :: b < n ==> b in flash
  {
  }

  lemma {:induction false} ScannedFacts(blocks0: Blocks, marked0: set<nat>, blocks: Blocks, marked: set<nat>,
                                        tree: Tree, pageSize: nat)
    requires Scanned(blocks0, marked0, |blocks0|, blocks, marked, tree, pageSize)
    ensures Sized(blocks) && |blocks| == |blocks0|
  {
  }

  lemma {:induction false} SummedUp(nodes0: map<Key, Node>, blocks0: Blocks, nodes: map<Key, Node>, blocks: Blocks,
                                    bound: nat)
    requires Summing(nodes0, blocks0, nodes, blocks, {}, DataKeys(nodes0), bound)
    ensures Summed(nodes0, nodes, DataKeys(nodes0), bound) && |blocks| == |blocks0|
    ensures forall k :: k in nodes ==> nodes[k].block < |blocks| && blocks[nodes[k].block] == blocks0[nodes[k].block]
  {
  }

  lemma {:induction false} BlocksStay(blocks0: Blocks, blocks1: Blocks, mounted: Tree, objs: map<Obj, nat>,
                                      typeOf: Obj -> nat, pageSize: nat, nodes: map<Key, Node>, blocks: Blocks,
                                      flash: Flash)
    requires MountedAt(blocks0, blocks1, mounted, objs, typeOf, pageSize) && RunTimeTree(nodes, flash, objs, typeOf)
    requires |blocks| == |blocks1| == |blocks0|
    requires forall k :: k in nodes ==> nodes[k].block < |blocks| && blocks[nodes[k].block] == blocks1[nodes[k].block]
    ensures forall o :: o in objs ==> objs[o] < |blocks0| && blocks[objs[o]] == blocks0[objs[o]]
  {
    hide NodeIs, FileBytes;
  }
}

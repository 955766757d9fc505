/** The length a mount computes for a file is the length the file had at run time. */
module FileLengths {
  import opened FlashModel
  import opened LogicalBlock
  import opened DeviceState
  import opened FlushSteps
  import opened BufferSteps
  import opened FileLayout
  import opened FileSteps
  import opened FileObjects
  import opened MountModel
  import opened MountSteps
  import opened CrashSafety
  import opened MountLengths
  import opened DeviceModel
  import opened Mounting

  /** First page id of a block that holds file data. */
  function FirstId(fdn: nat): nat {
    if fdn == 0 then 1 else 0
  }

  function Min(a: int, b: int): int {
    if a < b then a else b
  }

  /** Page i of a block of the file: there if the file reaches it, full unless it is the file's last page. */
  lemma {:induction false} PageOfBlock(content: Content, g: Geo, file: Obj, bytes: seq<Byte>, fdn: nat, i: nat)
    requires FileRep(content, g, file, bytes) && FirstId(fdn) <= i < g.pages
    ensures var pages, at := ContentAt(content, BlockObj(file, fdn)),
            GetStartOfDataBlock(g, fdn) + (i - FirstId(fdn)) * g.pageSize;
            (i < |pages| <==> at < |bytes|) && (i < |pages| ==> pages[i].len == Min(|bytes| - at, g.pageSize))
  {
    hide HomeObj, HomeId, Ofs, GetStartOfDataBlock, PageNumber;
    HomeOf(g, file, fdn, i);
    PageStart(g, fdn, i - FirstId(fdn));
    assert PageHeld(content, g, file, bytes, PageNumber(g, fdn, i));
  }

  /** The lengths of the first pages of a block add up to the bytes of the file in them. */
  lemma {:induction false} FirstPages(content: Content, g: Geo, file: Obj, bytes: seq<Byte>, fdn: nat, j: nat)
    requires FileRep(content, g, file, bytes) && FirstId(fdn) <= j <= g.pages &&
             j <= |ContentAt(content, BlockObj(file, fdn))|
    requires GetStartOfDataBlock(g, fdn) <= |bytes|
    ensures PageLens(ContentAt(content, BlockObj(file, fdn))[..j], FirstId(fdn)) ==
            Min(|bytes| - GetStartOfDataBlock(g, fdn), (j - FirstId(fdn)) * g.pageSize)
  {
    hide FileRep, BlockObj, ContentAt, GetStartOfDataBlock;
    var pages := ContentAt(content, BlockObj(file, fdn));
    if j > FirstId(fdn) {
      FirstPages(content, g, file, bytes, fdn, j - 1);
      PageOfBlock(content, g, file, bytes, fdn, j - 1);
      assert pages[..j][..j - 1] == pages[..j - 1];
      NextPage((j - 1 - FirstId(fdn)) * g.pageSize + 1, j - 1 - FirstId(fdn), g.pageSize);
    }
  }

  lemma {:induction false} BlockPacked(content: Content, g: Geo, file: Obj, bytes: seq<Byte>, fdn: nat)
    requires FileRep(content, g, file, bytes) && |ContentAt(content, BlockObj(file, fdn))| <= g.pages
    ensures Packed(ContentAt(content, BlockObj(file, fdn)), FirstId(fdn), g.pageSize)
  {
    var pages, first := ContentAt(content, BlockObj(file, fdn)), FirstId(fdn);
    hide FileRep, BlockObj, ContentAt, GetStartOfDataBlock;
    forall i | first <= i < |pages| - 1 ensures pages[i].len == g.pageSize {
      PageOfBlock(content, g, file, bytes, fdn, i);
      PageOfBlock(content, g, file, bytes, fdn, i + 1);
      OneMore(i - first, g.pageSize);
    }
  }

  lemma {:induction false} OneMore(k: nat, n: nat)
    ensures (k + 1) * n == k * n + n
  {
  }

  /** The bytes on a block: those of the file between the start of the block and the start of the next. */
  lemma {:induction false} BlockHolds(content: Content, g: Geo, file: Obj, bytes: seq<Byte>, fdn: nat)
    requires FileRep(content, g, file, bytes) && |ContentAt(content, BlockObj(file, fdn))| <= g.pages
    ensures PageLens(ContentAt(content, BlockObj(file, fdn)), FirstId(fdn)) ==
            Min(|bytes|, GetStartOfDataBlock(g, fdn + 1)) - Min(|bytes|, GetStartOfDataBlock(g, fdn))
  {
    var pages, first := ContentAt(content, BlockObj(file, fdn)), FirstId(fdn);
    HeadHasPage(content, g, file, bytes);
    BlockIsPages(g, fdn);
    NotNegative(g.pages - first, g.pageSize);
    hide FileRep, BlockObj, ContentAt, GetStartOfDataBlock, PageLens;
    GeoFacts(g);
    if GetStartOfDataBlock(g, fdn) <= |bytes| {
      FirstPages(content, g, file, bytes, fdn, |pages|);
      assert pages[..|pages|] == pages;
      if |pages| < g.pages {
        PageOfBlock(content, g, file, bytes, fdn, |pages|);
        MulMono(|pages| - first, g.pages - first, g.pageSize);
      }
    } else {
      NoPages(pages, first);
      PageOfBlock(content, g, file, bytes, fdn, first);
    }
  }

  lemma {:induction false} NoPages(pages: seq<LPage>, first: nat)
    ensures |pages| <= first ==> PageLens(pages, first) == 0
  {
  }

  lemma {:induction false} HeadHasPage(content: Content, g: Geo, file: Obj, bytes: seq<Byte>)
    requires FileRep(content, g, file, bytes)
    ensures |ContentAt(content, BlockObj(file, 0))| > 0
  {
  }

  /** Head block and data blocks up to serial n-1 together hold the bytes of the file up to block n. */
  lemma {:induction false} BlocksHold(content: Content, flash: Flash, nodes: map<Obj, nat>, g: Geo, file: Obj,
                                      bytes: seq<Byte>, n: nat)
    requires FileRep(content, g, file, bytes) && n > 0 && ContentAt(content, (file.1, 0)) == []
    requires forall o: Obj :: Stored(flash, nodes, o) == ContentAt(content, o) && |ContentAt(content, o)| <= g.pages
    ensures PageLens(Stored(flash, nodes, file), 1) + DataBytes(flash, nodes, file.1, n) ==
            Min(|bytes|, GetStartOfDataBlock(g, n))
  {
    hide FileRep, PageLens, Stored;
    if n > 1 {
      BlocksHold(content, flash, nodes, g, file, bytes, n - 1);
      BlockHolds(content, g, file, bytes, n - 1);
      assert Stored(flash, nodes, (file.1, n - 1)) == ContentAt(content, (file.1, n - 1));
    } else {
      BlockHolds(content, g, file, bytes, 0);
      assert Stored(flash, nodes, (file.1, 0)) == ContentAt(content, (file.1, 0));
      NoPages(ContentAt(content, (file.1, 0)), 0);
      assert DataBytes(flash, nodes, file.1, 0) == 0;
    }
  }

  /** Once all buffers are written out, the length a mount gives the file is the length it had. */
  lemma {:induction false} MountedLength(g: Geo, typeOf: Obj -> nat, buf: BufSt, flash: Flash, tree: TreeSt,
                                         owner: map<nat, Owner>, content: Content, file: Obj, bytes: seq<Byte>)
    requires DeviceOk(g, typeOf, buf, flash, tree, owner, content) && FileRep(content, g, file, bytes)
    requires forall i :: 0 <= i < |buf.pool| ==> buf.pool[i].mark != Dirty
    requires ContentAt(content, (file.1, 0)) == [] && |bytes| <= GetStartOfDataBlock(g, SERIALS)
    ensures FileBytes(flash, tree.nodes, file, SERIALS) == |bytes|
    ensures forall fdn: nat :: Packed(Stored(flash, tree.nodes, BlockObj(file, fdn)), FirstId(fdn), g.pageSize)
  {
    hide FileRep, Packed, PageLens, DataBytes, GetStartOfDataBlock, CacheOk, StoreOk, Coherent;
    forall o: Obj ensures Stored(flash, tree.nodes, o) == ContentAt(content, o) && |ContentAt(content, o)| <= g.pages {
      AllWrittenOut(g, typeOf, buf, flash, tree, owner, content, o);
    }
    BlocksHold(content, flash, tree.nodes, g, file, bytes, SERIALS);
    forall fdn: nat ensures Packed(Stored(flash, tree.nodes, BlockObj(file, fdn)), FirstId(fdn), g.pageSize) {
      BlockPacked(content, g, file, bytes, fdn);
    }
  }

  /** Without dirty buffers flash holds what a reader sees. */
  lemma {:induction false} AllWrittenOut(g: Geometry, typeOf: Obj -> nat, buf: BufSt, flash: Flash, tree: TreeSt,
                                         owner: map<nat, Owner>, content: Content, o: Obj)
    requires DeviceOk(g, typeOf, buf, flash, tree, owner, content)
    requires forall i :: 0 <= i < |buf.pool| ==> buf.pool[i].mark != Dirty
    ensures Stored(flash, tree.nodes, o) == ContentAt(content, o) && |ContentAt(content, o)| <= g.pages
  {
    CleanIsStored(g, typeOf, buf, flash, tree, owner, content, o);
  }

  // ----- a run ends, all buffers written out; a mount follows

  /** The files of a device and their bytes: every file in the tree is one of them, and every data block is of one. */
  ghost predicate FilesHeld(content: Content, nodes: map<Obj, nat>, typeOf: Obj -> nat, g: Geo,
                            files: map<Obj, seq<Byte>>) {
    && (forall o :: o in nodes && typeOf(o) == FILE ==> o in files)
    && (forall o, p :: o in nodes && p in nodes && typeOf(o) == FILE && p.0 == o.1 ==> typeOf(p) == DATA)
    && (forall p :: p in nodes && typeOf(p) == DATA ==> exists o :: OwnerOf(nodes, typeOf, o, p))
    && (forall o :: o in files ==>
          FileRep(content, g, o, files[o]) && ContentAt(content, (o.1, 0)) == [] &&
          |files[o]| <= GetStartOfDataBlock(g, SERIALS))
  }

  /** Serial 0 names no data block: the bytes before data block 1 are on the head block. */
  ghost predicate OwnerOf(nodes: map<Obj, nat>, typeOf: Obj -> nat, o: Obj, p: Obj) {
    o in nodes && typeOf(o) == FILE && o.1 == p.0 && p.1 > 0
  }

  lemma {:induction false} FilesAreOk(g: Geo, typeOf: Obj -> nat, buf: BufSt, flash: Flash, tree: TreeSt,
                                      owner: map<nat, Owner>, content: Content, files: map<Obj, seq<Byte>>)
    requires DeviceOk(g, typeOf, buf, flash, tree, owner, content) && FilesHeld(content, tree.nodes, typeOf, g, files)
    requires forall i :: 0 <= i < |buf.pool| ==> buf.pool[i].mark != Dirty
    requires forall o :: o in tree.nodes ==> typeOf(o) <= DATA
    ensures FilesOk(tree.nodes, flash, typeOf, g)
    ensures forall o :: o in files ==> FileBytes(flash, tree.nodes, o, SERIALS) == |files[o]|
  {
    hide DeviceOk, FileRep, Packed, FileBytes, GetStartOfDataBlock, Stored;
    forall o | o in files
      ensures FileBytes(flash, tree.nodes, o, SERIALS) == |files[o]|
      ensures forall fdn: nat :: Packed(Stored(flash, tree.nodes, BlockObj(o, fdn)), FirstId(fdn), g.pageSize)
    {
      MountedLength(g, typeOf, buf, flash, tree, owner, content, o, files[o]);
    }
    forall p | p in tree.nodes && typeOf(p) != DIR
      ensures Packed(Stored(flash, tree.nodes, p), HeadPages(typeOf(p)), g.pageSize)
    {
      if typeOf(p) == FILE {
        assert BlockObj(p, 0) == p;
      } else {
        var o :| OwnerOf(tree.nodes, typeOf, o, p);
        assert BlockObj(o, p.1) == p;
      }
    }
  }

  /** Mounting a device at rest: every object is found, on a block that holds the pages a reader saw, and every file
      has its length. */
  method RemountDevice(dev: Device, failing: set<nat>, now: nat, ghost files: map<Obj, seq<Byte>>)
    returns (ok: bool, m: Mount)
    requires dev.Valid() && forall i :: 0 <= i < |dev.buf.pool| ==> dev.buf.pool[i].mark != Dirty
    requires KeysDistinct(dev.tree.nodes, dev.typeOf) && forall o :: o in dev.tree.nodes ==> o.1 < SERIALS
    requires FilesHeld(dev.content, dev.tree.nodes, dev.typeOf, dev.geo, files)
    ensures ok && m.tree.nodes.Keys == set o | o in dev.tree.nodes :: ObjKey(dev.typeOf(o), o)
    ensures forall b: nat :: b < dev.geo.blocks ==> b in dev.flash
    ensures BlocksPlaced(BlocksOf(dev.flash, dev.geo.blocks), Marked(dev.tree), m.blocks, m.marked, m.tree, m.unchecked,
                         failing, dev.geo.pageSize)
    ensures forall o :: o in dev.tree.nodes ==>
              var node := m.tree.nodes[ObjKey(dev.typeOf(o), o)];
              node.block == dev.tree.nodes[o] && node.parent == o.0 && node.serial == o.1 &&
              (dev.typeOf(o) == FILE ==> o in files && node.len == |files[o]|) &&
              node.block < |m.blocks| && Logical(m.blocks[node.block]) == ContentAt(dev.content, o)
  {
    hide *;
    dev.ValidIs();
    AtRest(dev.geo, dev.typeOf, dev.buf, dev.flash, dev.tree, dev.owner, dev.content, files);
    ok, m := Remount(dev.geo, BlocksOf(dev.flash, dev.geo.blocks), Marked(dev.tree), failing, now, dev.flash, dev.tree,
                     dev.owner, dev.typeOf);
    AsBefore(dev.geo, dev.typeOf, dev.buf, dev.flash, dev.tree, dev.owner, dev.content, files, m.tree.nodes, m.blocks);
  }

  lemma {:induction false} AtRest(g: Geo, typeOf: Obj -> nat, buf: BufSt, flash: Flash, tree: TreeSt,
                                  owner: map<nat, Owner>, content: Content, files: map<Obj, seq<Byte>>)
    requires DeviceOk(g, typeOf, buf, flash, tree, owner, content) && FilesHeld(content, tree.nodes, typeOf, g, files)
    requires forall i :: 0 <= i < |buf.pool| ==> buf.pool[i].mark != Dirty
    requires KeysDistinct(tree.nodes, typeOf)
    ensures OnFlash(flash, tree, owner, g, typeOf, g.blocks) && FilesOk(tree.nodes, flash, typeOf, g)
    ensures forall b: nat :: b < g.blocks ==> b in flash
  {
    hide CacheOk, StoreOk, Coherent, ContentOk, FilesHeld, FilesOk, NothingTaken, ObjKey;
    FilesAreOk(g, typeOf, buf, flash, tree, owner, content, files);
    DeviceOwns(flash, tree, owner, g, typeOf, g.blocks);
  }

  lemma {:induction false} AsBefore(g: Geo, typeOf: Obj -> nat, buf: BufSt, flash: Flash, tree: TreeSt,
                                    owner: map<nat, Owner>, content: Content, files: map<Obj, seq<Byte>>,
                                    nodes: map<Key, Node>, blocks: Blocks)
    requires DeviceOk(g, typeOf, buf, flash, tree, owner, content) && FilesHeld(content, tree.nodes, typeOf, g, files)
    requires forall i :: 0 <= i < |buf.pool| ==> buf.pool[i].mark != Dirty
    requires (forall b: nat :: b < g.blocks ==> b in flash) && KeysDistinct(tree.nodes, typeOf)
    requires RunTimeTree(nodes, flash, tree.nodes, typeOf) && |blocks| == g.blocks
    requires forall o :: o in tree.nodes ==>
             tree.nodes[o] < g.blocks && blocks[tree.nodes[o]] == BlocksOf(flash, g.blocks)[tree.nodes[o]]
    ensures nodes.Keys == set o | o in tree.nodes :: ObjKey(typeOf(o), o)
    ensures forall o :: o in tree.nodes ==>
              var node := nodes[ObjKey(typeOf(o), o)];
              node.block == tree.nodes[o] && node.parent == o.0 && node.serial == o.1 &&
              (typeOf(o) == FILE ==> o in files && node.len == |files[o]|) &&
              node.block < |blocks| && Logical(blocks[node.block]) == ContentAt(content, o)
  {
    FilesAreOk(g, typeOf, buf, flash, tree, owner, content, files);
    RunTimeKeys(nodes, flash, tree.nodes, typeOf);
    hide DeviceOk, FileRep, ObjKey, FileBytes, Logical, GetStartOfDataBlock, Stored, RunTimeTree, KeysDistinct;
    forall o | o in tree.nodes
      ensures var node := nodes[ObjKey(typeOf(o), o)];
              node.block == tree.nodes[o] && node.parent == o.0 && node.serial == o.1 &&
              (typeOf(o) == FILE ==> node.len == |files[o]|) &&
              node.block < |blocks| && Logical(blocks[node.block]) == ContentAt(content, o)
    {
      RunTimeNode(nodes, flash, tree.nodes, typeOf, o);
      OnFlashAt(g, typeOf, buf, flash, tree, owner, content, o);
    }
  }

  lemma {:induction false} RunTimeKeys(mounted: map<Key, Node>, flash: Flash, nodes: map<Obj, nat>, typeOf: Obj -> nat)
    requires RunTimeTree(mounted, flash, nodes, typeOf)
    ensures mounted.Keys == set o | o in nodes :: ObjKey(typeOf(o), o)
  {
    hide ObjKey, FileBytes;
  }

  lemma {:induction false} RunTimeNode(mounted: map<Key, Node>, flash: Flash, nodes: map<Obj, nat>, typeOf: Obj -> nat,
                                       o: Obj)
    requires RunTimeTree(mounted, flash, nodes, typeOf) && o in nodes
    ensures ObjKey(typeOf(o), o) in mounted
    ensures var node := mounted[ObjKey(typeOf(o), o)];
            node.block == nodes[o] && node.parent == o.0 && node.serial == o.1 &&
            (typeOf(o) == FILE ==> node.len == FileBytes(flash, nodes, o, SERIALS))
  {
    hide ObjKey, FileBytes;
  }

  lemma {:induction false} OnFlashAt(g: Geo, typeOf: Obj -> nat, buf: BufSt, flash: Flash, tree: TreeSt,
                                     owner: map<nat, Owner>, content: Content, o: Obj)
    requires DeviceOk(g, typeOf, buf, flash, tree, owner, content) && o in tree.nodes
    requires forall i :: 0 <= i < |buf.pool| ==> buf.pool[i].mark != Dirty
    ensures tree.nodes[o] in flash && Logical(flash[tree.nodes[o]]) == ContentAt(content, o)
  {
    AllWrittenOut(g, typeOf, buf, flash, tree, owner, content, o);
    hide CacheOk, Coherent, ContentOk, Logical, ContentAt, BlockOk;
  }
}

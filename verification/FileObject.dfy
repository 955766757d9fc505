/** Reading and writing an open file: over buffers and flash it behaves as a sequence of bytes. */
module FileObjects {
  import opened FlashModel
  import opened LogicalBlock
  import opened DeviceState
  import opened FlushSteps
  import opened BufferSteps
  import opened WriteSteps
  import opened DeviceModel
  import opened FileLayout
  import opened FileSteps

  /** o is the head block of the file or a data block of it. */
  predicate OfFile(file: Obj, o: Obj) {
    o == file || (o.0 == file.1 && o.1 > 0)
  }

  /** Objects that are not of the file are as they were, and so is the first page of the file, with its attributes. */
  ghost predicate OtherObjects(content: Content, content': Content, file: Obj) {
    && (forall o: Obj :: !OfFile(file, o) ==> ContentAt(content', o) == ContentAt(content, o))
    && SameFirstPage(content, content', file)
  }

  predicate SameFirstPage(content: Content, content': Content, o: Obj) {
    ContentAt(content, o) != [] ==>
      ContentAt(content', o) != [] && ContentAt(content', o)[0] == ContentAt(content, o)[0]
  }

  /** A device to its users: what a reader sees, the buffers, and what flash holds. */
  datatype View = View(content: Content, buf: BufSt, flash: Flash, tree: TreeSt)

  ghost function ViewOf(dev: Device): View
    reads dev
  {
    View(dev.content, dev.buf, dev.flash, dev.tree)
  }

  lemma ViewIs(dev: Device)
    ensures ViewOf(dev) == View(dev.content, dev.buf, dev.flash, dev.tree)
  {
  }

  /** All that operations on a file do: other objects keep their pages, and none of them becomes dirty; no object
      leaves the tree, and none has fewer pages on flash. */
  ghost predicate Within(v: View, v': View, file: Obj) {
    && OtherObjects(v.content, v'.content, file) && v.tree.nodes.Keys <= v'.tree.nodes.Keys
    && (forall o :: o in DirtyObjs(v'.buf.pool) ==> o in DirtyObjs(v.buf.pool) || OfFile(file, o))
    && StoredGrows(v.flash, v.tree.nodes, v'.flash, v'.tree.nodes)
  }

  lemma {:induction false} WithinIs(v: View, v': View, file: Obj)
    requires Within(v, v', file)
    ensures OtherObjects(v.content, v'.content, file) && v.tree.nodes.Keys <= v'.tree.nodes.Keys
    ensures StoredGrows(v.flash, v.tree.nodes, v'.flash, v'.tree.nodes)
    ensures forall o :: o in DirtyObjs(v'.buf.pool) ==> o in DirtyObjs(v.buf.pool) || OfFile(file, o)
  {
  }

  lemma {:induction false} WithinSelf(v: View, file: Obj)
    ensures Within(v, v, file)
  {
    hide DirtyObjs, Stored;
  }

  lemma {:induction false} WithinChain(v: View, v': View, v'': View, file: Obj)
    requires Within(v, v', file) && Within(v', v'', file)
    ensures Within(v, v'', file)
  {
    hide DirtyObjs, Stored;
    forall o: Obj ensures |Stored(v.flash, v.tree.nodes, o)| <= |Stored(v''.flash, v''.tree.nodes, o)| {
      assert |Stored(v.flash, v.tree.nodes, o)| <= |Stored(v'.flash, v'.tree.nodes, o)|;
    }
  }

  lemma {:induction false} WithinStep(v: View, v': View, file: Obj, objs: set<Obj>)
    requires Onward(v.buf, v.flash, v.tree, v'.buf, v'.flash, v'.tree, objs) && v.tree.nodes.Keys <= v'.tree.nodes.Keys
    requires OtherObjects(v.content, v'.content, file) || v'.content == v.content
    requires forall o :: o in objs ==> OfFile(file, o)
    ensures Within(v, v', file)
  {
    hide DirtyObjs, StoredGrows;
  }

  // ----- blocks in the order of the file

  /** Flash holds every page a block of the object can have. */
  ghost predicate AllPagesStored(g: Geo, flash: Flash, nodes: map<Obj, nat>, o: Obj) {
    |Stored(flash, nodes, o)| >= g.pages
  }

  /** Behind a block of the file there is another one in the tree only if all its pages are on flash; data block x may
      be an exception for a while. */
  ghost predicate Laid(g: Geo, flash: Flash, nodes: map<Obj, nat>, file: Obj, x: Obj) {
    forall f: nat, k: nat :: f < k && BlockObj(file, k) in nodes && BlockObj(file, k) != x ==>
      AllPagesStored(g, flash, nodes, BlockObj(file, f))
  }

  lemma {:induction false} DataBlockHasBytes(content: Content, g: Geo, file: Obj, bytes: seq<Byte>, fdn: nat)
    requires FileRep(content, g, file, bytes) && fdn > 0 && ContentAt(content, (file.1, fdn)) != []
    ensures GetStartOfDataBlock(g, fdn) < |bytes|
  {
    GeoFacts(g);
    NewBlockPage(g, file, fdn, 0);
    hide HomeObj, HomeId, Ofs, PageNumber, GetStartOfDataBlock;
    assert PageHeld(content, g, file, bytes, PageNumber(g, fdn, 0));
  }

  lemma {:induction false} FullBlock(content: Content, g: Geo, file: Obj, bytes: seq<Byte>, fdn: nat)
    requires FileRep(content, g, file, bytes) && GetStartOfDataBlock(g, fdn + 1) < |bytes|
    ensures |ContentAt(content, BlockObj(file, fdn))| >= g.pages
  {
    var count, first := if fdn == 0 then g.pages - 1 else g.pages, if fdn == 0 then 1 else 0;
    GeoFacts(g);
    HomeOf(g, file, fdn, g.pages - 1);
    PageStart(g, fdn, count - 1);
    BlockIsPages(g, fdn);
    OneLess(count, g.pageSize);
    hide HomeObj, HomeId, Ofs, PageNumber, GetStartOfDataBlock;
    assert PageHeld(content, g, file, bytes, PageNumber(g, fdn, g.pages - 1));
  }

  lemma {:induction false} OneLess(k: nat, n: nat)
    requires k > 0
    ensures (k - 1) * n <= k * n
  {
  }

  /** Once x has entered the tree behind a block without dirty buffers, no exception is left. */
  lemma {:induction false} LaidBehindClean(g: Geo, typeOf: Obj -> nat, buf: BufSt, flash: Flash, tree: TreeSt,
                                           owner: map<nat, Owner>, content: Content, file: Obj, bytes: seq<Byte>,
                                           fdn: nat)
    requires DeviceOk(g, typeOf, buf, flash, tree, owner, content) && FileRep(content, g, file, bytes)
    requires fdn > 0 && GetStartOfDataBlock(g, fdn) < |bytes| && BlockObj(file, fdn - 1) !in DirtyObjs(buf.pool)
    requires InTree(g, tree.nodes, file, |bytes|, (file.1, fdn)) && Laid(g, flash, tree.nodes, file, (file.1, fdn))
    ensures Laid(g, flash, tree.nodes, file, file)
  {
    hide FileRep, DeviceOk, InTree, DirtyObjs, Stored, GetStartOfDataBlock;
    CleanIsStored(g, typeOf, buf, flash, tree, owner, content, BlockObj(file, fdn - 1));
    FullBlock(content, g, file, bytes, fdn - 1);
    if fdn > 1 {
      BlockInTree(g, tree.nodes, file, |bytes|, fdn, fdn - 1);
    }
    forall f: nat, k: nat | f < k && BlockObj(file, k) in tree.nodes && BlockObj(file, k) != file
      ensures AllPagesStored(g, flash, tree.nodes, BlockObj(file, f))
    {
      if BlockObj(file, k) == (file.1, fdn) && f < fdn - 1 {
        assert BlockObj(file, fdn - 1) in tree.nodes && BlockObj(file, fdn - 1) != (file.1, fdn);
      }
    }
  }

  /** A data block before the one with serial fdn is in the tree. */
  lemma {:induction false} BlockInTree(g: Geo, nodes: map<Obj, nat>, file: Obj, size: nat, fdn: nat, k: nat)
    requires 0 < k < fdn && GetStartOfDataBlock(g, fdn) < size && InTree(g, nodes, file, size, (file.1, fdn))
    ensures BlockObj(file, k) in nodes
  {
    GeoFacts(g);
    NewBlockPage(g, file, k, 0);
    MulMono(k - 1, fdn - 1, BlockBytes(g));
    InTreeAt(g, nodes, file, size, (file.1, fdn), PageNumber(g, k, 0));
    hide HomeObj, HomeId, Ofs, PageNumber;
  }

  /** What has entered the tree had bytes of the file already, so it did not come out of turn. */
  lemma {:induction false} StillLaid(g: Geo, typeOf: Obj -> nat, flash: Flash, nodes: map<Obj, nat>, buf': BufSt,
                                     flash': Flash, tree': TreeSt, owner': map<nat, Owner>, content': Content,
                                     file: Obj, bytes': seq<Byte>, x: Obj)
    requires Laid(g, flash, nodes, file, x) && StoredGrows(flash, nodes, flash', tree'.nodes)
    requires DeviceOk(g, typeOf, buf', flash', tree', owner', content') && FileRep(content', g, file, bytes')
    requires InTree(g, nodes, file, |bytes'|, x)
    ensures Laid(g, flash', tree'.nodes, file, x)
  {
    hide FileRep, DeviceOk, InTree, Stored, GetStartOfDataBlock;
    forall f: nat, k: nat | f < k && BlockObj(file, k) in tree'.nodes && BlockObj(file, k) != x
      ensures AllPagesStored(g, flash', tree'.nodes, BlockObj(file, f))
    {
      NodeHasPages(g, typeOf, buf', flash', tree', owner', content', BlockObj(file, k));
      DataBlockHasBytes(content', g, file, bytes', k);
      GeoFacts(g);
      NewBlockPage(g, file, k, 0);
      InTreeAt(g, nodes, file, |bytes'|, x, PageNumber(g, k, 0));
      assert AllPagesStored(g, flash, nodes, BlockObj(file, f));
    }
  }

  /** A file without data blocks. */
  lemma {:induction false} LaidAlone(g: Geo, typeOf: Obj -> nat, buf: BufSt, flash: Flash, tree: TreeSt,
                                     owner: map<nat, Owner>, content: Content, file: Obj)
    requires DeviceOk(g, typeOf, buf, flash, tree, owner, content)
    requires forall n: nat :: n > 0 ==> ContentAt(content, (file.1, n)) == []
    ensures Laid(g, flash, tree.nodes, file, file)
  {
    hide DeviceOk, Stored;
    forall k: nat | k > 0 ensures BlockObj(file, k) !in tree.nodes {
      if BlockObj(file, k) in tree.nodes {
        NodeHasPages(g, typeOf, buf, flash, tree, owner, content, BlockObj(file, k));
      }
    }
  }

  lemma {:induction false} LaidLess(g: Geo, flash: Flash, nodes: map<Obj, nat>, file: Obj, x: Obj)
    requires Laid(g, flash, nodes, file, file) && forall f: nat :: f > 0 ==> file != (file.1, f)
    ensures Laid(g, flash, nodes, file, x)
  {
    hide AllPagesStored;
  }

  /** The file's blocks are in the tree, all of them but perhaps that of object x. */
  ghost predicate InTree(g: Geo, nodes: map<Obj, nat>, file: Obj, size: nat, x: Obj) {
    file in nodes && forall q: nat :: Ofs(g, q) < size ==> HomeObj(g, file, q) in nodes || HomeObj(g, file, q) == x
  }

  ghost predicate Typed(typeOf: Obj -> nat, file: Obj) {
    typeOf(file) == FILE && forall f: nat :: f > 0 ==> typeOf((file.1, f)) == DATA
  }

  lemma {:induction false} TypeOfHome(g: Geo, typeOf: Obj -> nat, file: Obj, q: nat)
    requires Typed(typeOf, file)
    ensures typeOf(HomeObj(g, file, q)) == if HomeObj(g, file, q) == file then FILE else DATA
    ensures HomeObj(g, file, q) == file <==> q < g.pages - 1
  {
    assert typeOf((file.1, (if q < g.pages - 1 then 0 else (q - (g.pages - 1)) / g.pages) + 1)) == DATA;
  }

  lemma {:induction false} HomeIsOwn(g: Geo, content: Content, file: Obj, q: nat, p: LPage)
    requires forall f: nat :: f > 0 ==> file != (file.1, f)
    ensures OtherObjects(content, content[HomeObj(g, file, q) := Put(ContentAt(content, HomeObj(g, file, q)),
                                                                     HomeId(g, q), p)], file)
  {
  }

  /** The page a store starts from is the page of the file. */
  lemma {:induction false} StoreIsPageWrite(content: Content, g: Geo, file: Obj, bytes: seq<Byte>, q: nat, ofs: nat,
                                            d: seq<Byte>)
    requires FileRep(content, g, file, bytes) && Ofs(g, q) + ofs <= |bytes| && |d| > 0 && ofs + |d| <= g.pageSize
    requires |StoreBase(g, content, HomeObj(g, file, q), HomeId(g, q)).data| == g.pageSize
    ensures var content' := Stored1(g, content, HomeObj(g, file, q), HomeId(g, q), ofs, d);
            FileRep(content', g, file, Splice(bytes, Ofs(g, q) + ofs, d)) && OtherObjects(content, content', file)
  {
    hide HomeObj, HomeId, Ofs, Splice, Overwritten, Put, OtherObjects;
    assert PageHeld(content, g, file, bytes, q);
    var content' := Stored1(g, content, HomeObj(g, file, q), HomeId(g, q), ofs, d);
    NextPageIsNew(content, g, file, bytes, q);
    WritePageRep(content, g, file, bytes, q, ofs, d, content');
    HomeIsOwn(g, content, file, q, Overwritten(StoreBase(g, content, HomeObj(g, file, q), HomeId(g, q)), ofs, d));
  }

  lemma {:induction false} HomeIsOfFile(g: Geo, file: Obj, q: nat)
    ensures OfFile(file, HomeObj(g, file, q))
  {
  }

  lemma {:induction false} OnwardGrows(buf: BufSt, flash: Flash, tree: TreeSt, buf': BufSt, flash': Flash,
                                       tree': TreeSt, objs: set<Obj>)
    requires Onward(buf, flash, tree, buf', flash', tree', objs)
    ensures StoredGrows(flash, tree.nodes, flash', tree'.nodes) && DirtyObjs(buf'.pool) <= DirtyObjs(buf.pool) + objs
  {
  }

  lemma {:induction false} StillInTree(g: Geo, nodes: map<Obj, nat>, nodes': map<Obj, nat>, file: Obj, size: nat,
                                       size': nat, q: nat, x: Obj)
    requires InTree(g, nodes, file, size, x) && nodes.Keys <= nodes'.Keys
    requires HomeObj(g, file, q) in nodes || HomeObj(g, file, q) == x
    requires size' <= size || (size' <= Ofs(g, q) + g.pageSize && Ofs(g, q) <= size)
    ensures InTree(g, nodes', file, size', x)
  {
    hide HomeObj, Ofs;
    forall r: nat | Ofs(g, r) < size' ensures HomeObj(g, file, r) in nodes' || HomeObj(g, file, r) == x {
      OfsStep(g, q, r);
      OfsStep(g, r, q);
    }
  }

  lemma {:induction false} InTreeGrows(g: Geo, nodes: map<Obj, nat>, nodes': map<Obj, nat>, file: Obj, size: nat,
                                       x: Obj)
    requires InTree(g, nodes, file, size, x) && nodes.Keys <= nodes'.Keys
    ensures InTree(g, nodes', file, size, x)
  {
  }

  lemma {:induction false} InTreeAt(g: Geo, nodes: map<Obj, nat>, file: Obj, size: nat, x: Obj, q: nat)
    requires InTree(g, nodes, file, size, x)
    ensures file in nodes && (Ofs(g, q) < size ==> HomeObj(g, file, q) in nodes || HomeObj(g, file, q) == x)
  {
  }

  // ----- room for a new block

  lemma {:induction false} RoomForNew(buf: BufSt, tree: TreeSt, w: Wear, max: nat, file: Obj, x: Obj)
    requires Ready(buf, tree, w, max, file) && file in tree.nodes && |tree.erased| >= w.max + 2
    ensures Ready(buf, tree, w, max, x)
  {
  }

  lemma {:induction false} RoomAfterNew(buf: BufSt, tree: TreeSt, w: Wear, max: nat, file: Obj, x: Obj)
    requires Ready(buf, tree, w, max, x) && x in tree.nodes && file in tree.nodes
    ensures Ready(buf, tree, w, max, file)
  {
  }

  lemma {:induction false} ReadyAfterFlush(buf: BufSt, tree: TreeSt, w: Wear, buf': BufSt, tree': TreeSt, w': Wear,
                                           max: nat, x: Obj)
    requires Ready(buf, tree, w, max, x) && Flushed(buf, buf') && RoomFor(buf', tree', w', x)
    ensures Ready(buf', tree', w', max, x)
  {
  }

  /** An object with pages and no dirty buffer has its block. */
  lemma {:induction false} WrittenOutInTree(g: Geometry, typeOf: Obj -> nat, buf: BufSt, flash: Flash, tree: TreeSt,
                                            owner: map<nat, Owner>, content: Content, o: Obj)
    requires DeviceOk(g, typeOf, buf, flash, tree, owner, content) && ContentAt(content, o) != []
    requires forall i :: 0 <= i < |buf.pool| ==> !(buf.pool[i].mark == Dirty && ObjOf(buf.pool[i]) == o)
    ensures o in tree.nodes
  {
    hide StoreOk, CacheOk, Coherent;
    forall id: nat ensures DirtyIdx(buf.pool, o, id) < 0 { }
  }

  class FileObject {
    const dev: Device
    const file: Obj
    // Erased blocks that are kept back from new blocks.
    const reserved: nat
    const append: bool
    const readOnly: bool
    const writeOnly: bool
    var pos: nat
    var len: nat
    ghost var bytes: seq<Byte>

    /** An open file of the given length, positioned at its start. */
    constructor (dev: Device, file: Obj, reserved: nat, append: bool, readOnly: bool, writeOnly: bool, len: nat,
                 ghost bytes: seq<Byte>)
      ensures this.dev == dev && this.file == file && this.reserved == reserved && this.append == append
      ensures this.readOnly == readOnly && this.writeOnly == writeOnly && pos == 0 && this.len == len &&
              this.bytes == bytes
    {
      this.dev, this.file, this.reserved, this.append := dev, file, reserved, append;
      this.readOnly, this.writeOnly, pos, this.len, this.bytes := readOnly, writeOnly, 0, len, bytes;
    }

    /** Buffers and blocks suffice, also for object x, and the pages hold the bytes of the file. */
    ghost predicate Holding(x: Obj)
      reads this, dev
    {
      && dev.Valid() && Ready(dev.buf, dev.tree, Wear(dev.faults, dev.maxFaults), dev.dirtyMax, x)
      && Typed(dev.typeOf, file)
      && FileRep(dev.content, dev.geo, file, bytes) && InTree(dev.geo, dev.tree.nodes, file, |bytes|, x)
      && Laid(dev.geo, dev.flash, dev.tree.nodes, file, x)
    }

    ghost predicate Valid()
      reads this, dev
    {
      Holding(file) && len == |bytes| && reserved >= dev.maxFaults + 2
    }

    lemma HoldingIs(x: Obj)
      ensures Holding(x) <==>
              dev.Valid() && Ready(dev.buf, dev.tree, Wear(dev.faults, dev.maxFaults), dev.dirtyMax, x) &&
              Typed(dev.typeOf, file) &&
              FileRep(dev.content, dev.geo, file, bytes) && InTree(dev.geo, dev.tree.nodes, file, |bytes|, x) &&
              Laid(dev.geo, dev.flash, dev.tree.nodes, file, x)
    {
    }

    lemma ValidIs()
      ensures Valid() <==> Holding(file) && len == |bytes| && reserved >= dev.maxFaults + 2
    {
    }

    /** Write into page q of the file, or append it as the next page. */
    method PutPage(ty: nat, o: Obj, id: nat, isNew: bool, ofs: nat, d: seq<Byte>, ghost q: nat, ghost x: Obj)
      returns (ok: bool)
      requires Holding(x) && o == HomeObj(dev.geo, file, q) && id == HomeId(dev.geo, q)
      requires ty == (if o == file then FILE else DATA) && ((isNew && o == x) || o in dev.tree.nodes)
      requires Ofs(dev.geo, q) + ofs <= |bytes| && |d| > 0 && ofs + |d| <= dev.geo.pageSize
      requires isNew <==> Ofs(dev.geo, q) >= |bytes|
      modifies dev`buf, dev`flash, dev`tree, dev`owner, dev`history, dev`faults, dev`content, this`bytes
      ensures ok && Holding(x) && bytes == Splice(old(bytes), Ofs(dev.geo, q) + ofs, d)
      ensures Within(old(ViewOf(dev)), ViewOf(dev), file)
    {
      hide *;
      HoldingIs(x);
      NextPageIsNew(dev.content, dev.geo, file, bytes, q);
      TypeOfHome(dev.geo, dev.typeOf, file, q);
      ghost var nodes0, flash0, content0, bytes0 := dev.tree.nodes, dev.flash, dev.content, bytes;
      ViewIs(dev);
      ok := dev.StorePage(ty, o, id, isNew, ofs, d, x);
      StoreIsPageWrite(content0, dev.geo, file, bytes, q, ofs, d);
      bytes := Splice(bytes, Ofs(dev.geo, q) + ofs, d);
      ViewIs(dev);
      HomeIsOfFile(dev.geo, file, q);
      WithinStep(old(ViewOf(dev)), ViewOf(dev), file, {o});
      StillInTree(dev.geo, nodes0, nodes0, file, |bytes0|, |bytes|, q, x);
      StillInTree(dev.geo, nodes0, dev.tree.nodes, file, |bytes0|, |bytes|, q, x);
      dev.ValidIs();
      OnwardGrows(old(dev.buf), old(dev.flash), old(dev.tree), dev.buf, dev.flash, dev.tree, {o});
      StillLaid(dev.geo, dev.typeOf, flash0, nodes0, dev.buf, dev.flash, dev.tree, dev.owner, dev.content, file,
                bytes, x);
      HoldingIs(x);
    }

    /** Fill a new data block at the end of the file, page by page, and flush nothing yet. */
    method WriteNewBlock(fdn: nat, d: seq<Byte>) returns (wrote: nat)
      requires Valid() && |dev.tree.erased| >= reserved && fdn > 0 && len == GetStartOfDataBlock(dev.geo, fdn)
      modifies dev`buf, dev`flash, dev`tree, dev`owner, dev`history, dev`faults, dev`content, this`bytes, this`len
      ensures Holding((file.1, fdn)) && len == |bytes| && |old(bytes)| == old(len)
      ensures wrote == (if |d| < BlockBytes(dev.geo) then |d| else BlockBytes(dev.geo))
      ensures bytes == Splice(old(bytes), old(len), d[..wrote])
      ensures Within(old(ViewOf(dev)), ViewOf(dev), file)
    {
      hide *;
      ValidIs();
      ghost var x, bytes0 := (file.1, fdn), bytes;
      var pg, o := dev.geo.pageSize, (file.1, fdn);
      NewBlockStarts(x);
      GeoFacts(dev.geo);
      SpliceNothing(bytes, len);
      WithinSelf(ViewOf(dev), file);
      BlockSize(dev.geo);
      wrote := 0;
      var pageId := 0;
      while pageId < dev.geo.pages
        invariant pageId <= dev.geo.pages && wrote <= |d|
        invariant wrote == (if |d| < pageId * pg then |d| else pageId * pg)
        invariant Holding(x) && len == |bytes| && bytes == Splice(bytes0, |bytes0|, d[..wrote])
        invariant Within(old(ViewOf(dev)), ViewOf(dev), file)
      {
        var size := if |d| - wrote > pg then pg else |d| - wrote;
        if size <= 0 {
          PagesBeyond(|d|, pageId, dev.geo.pages, pg);
          break;
        }
        NewBlockPage(dev.geo, file, fdn, pageId);
        NextPage(|d|, pageId, pg);
        SpliceLen(bytes0, |bytes0|, d[..wrote]);
        DataIsNotFile(x, fdn);
        ghost var q, bytes1, view1 := PageNumber(dev.geo, fdn, pageId), bytes, ViewOf(dev);
        var ok := PutPage(DATA, o, pageId, true, 0, d[wrote..wrote + size], q, x);
        SpliceTwice(bytes0, |bytes0|, d, wrote, wrote + size);
        SpliceLen(bytes1, |bytes1|, d[wrote..wrote + size]);
        WithinChain(old(ViewOf(dev)), view1, ViewOf(dev), file);
        if !ok {
          break;
        }
        HoldingIs(x);
        wrote := wrote + size;
        len := len + size;
        pageId := pageId + 1;
        HoldingIs(x);
      }
    }

    /** Write into the page that holds byte ofs of a block, and move the end of the file if need be. */
    method WriteInPage(fdn: nat, o: Obj, pageId: nat, ofs: nat, d: seq<Byte>) returns (ok: bool)
      requires Valid() && GetStartOfDataBlock(dev.geo, fdn) + ofs <= len && |d| > 0
      requires GetStartOfDataBlock(dev.geo, fdn) + ofs < GetStartOfDataBlock(dev.geo, fdn + 1)
      requires o == (if fdn == 0 then file else (file.1, fdn)) && o in dev.tree.nodes
      requires pageId == PageIndex(dev.geo, ofs) + (if fdn == 0 then 1 else 0)
      requires PageOffset(dev.geo, ofs) + |d| <= dev.geo.pageSize
      modifies dev`buf, dev`flash, dev`tree, dev`owner, dev`history, dev`faults, dev`content, this`bytes, this`len
      ensures ok && Valid() && |old(bytes)| == old(len)
      ensures bytes == Splice(old(bytes), GetStartOfDataBlock(dev.geo, fdn) + ofs, d)
      ensures GetStartOfDataBlock(dev.geo, fdn) + ofs + |d| <= len
      ensures Within(old(ViewOf(dev)), ViewOf(dev), file)
    {
      hide *;
      ValidIs();
      PageOfByte(dev.geo, file, fdn, ofs);
      var start, pageOfs := GetStartOfDataBlock(dev.geo, fdn), PageOffset(dev.geo, ofs);
      ghost var q := PageNumber(dev.geo, fdn, pageId);
      FileBound(len, start + ofs, Ofs(dev.geo, q), dev.geo.pageSize, dev.geo, q);
      if fdn > 0 {
        DataIsNotFile(file, fdn);
      }
      SpliceLen(bytes, start + ofs, d);
      var isNew := PageOffset(dev.geo, len) == 0 && ofs + start == len;
      ok := PutPage(if fdn == 0 then FILE else DATA, o, pageId, isNew, pageOfs, d, q, file);
      HoldingIs(file);
      if start + ofs + |d| > len {
        len := start + ofs + |d|;
      }
      HoldingIs(file);
      ValidIs();
    }

    /** Write into a block of the file from byte blockOfs of the block on, up to the end of the data or the block. */
    method WriteInternalBlock(fdn: nat, d: seq<Byte>, blockOfs: nat) returns (wrote: nat)
      requires Valid() && GetStartOfDataBlock(dev.geo, fdn) + blockOfs <= len
      requires GetStartOfDataBlock(dev.geo, fdn) + blockOfs < GetStartOfDataBlock(dev.geo, fdn + 1)
      requires (if fdn == 0 then file else (file.1, fdn)) in dev.tree.nodes
      modifies dev`buf, dev`flash, dev`tree, dev`owner, dev`history, dev`faults, dev`content, this`bytes, this`len
      ensures Valid() && |old(bytes)| == old(len)
      ensures wrote == Fitting(dev.geo, fdn, blockOfs, |d|) <= |d|
      ensures bytes == Splice(old(bytes), GetStartOfDataBlock(dev.geo, fdn) + blockOfs, d[..wrote])
      ensures Within(old(ViewOf(dev)), ViewOf(dev), file)
    {
      hide *;
      ValidIs();
      GeoFacts(dev.geo);
      ghost var bytes0 := bytes;
      var pg, start := dev.geo.pageSize, GetStartOfDataBlock(dev.geo, fdn);
      var o := if fdn == 0 then file else (file.1, fdn);
      // the last page id of the head block, and of a data block
      var maxPageId := dev.geo.pages - 1;
      SpliceNothing(bytes, start + blockOfs);
      WithinSelf(ViewOf(dev), file);
      wrote := 0;
      var ofs := blockOfs;
      while wrote < |d|
        invariant wrote <= |d| && ofs == blockOfs + wrote
        invariant start + ofs <= GetStartOfDataBlock(dev.geo, fdn + 1)
        invariant Valid() && start + ofs <= len && o in dev.tree.nodes
        invariant |bytes0| == old(len) && bytes == Splice(bytes0, start + blockOfs, d[..wrote])
        invariant Within(old(ViewOf(dev)), ViewOf(dev), file)
        decreases |d| - wrote
      {
        PageOfByte(dev.geo, file, fdn, ofs);
        var pageId := PageIndex(dev.geo, ofs);
        if fdn == 0 {
          pageId := pageId + 1;
        }
        if pageId > maxPageId {
          break;
        }
        var pageOfs := PageOffset(dev.geo, ofs);
        var size := if |d| - wrote + pageOfs > pg then pg - pageOfs else |d| - wrote;
        ViewIs(dev);
        ghost var view1 := ViewOf(dev);
        SpliceTwice(bytes0, start + blockOfs, d, wrote, wrote + size);
        var ok := WriteInPage(fdn, o, pageId, ofs, d[wrote..wrote + size]);
        WithinChain(old(ViewOf(dev)), view1, ViewOf(dev), file);
        ViewIs(dev);
        WithinIs(view1, ViewOf(dev), file);
        if !ok {
          break;
        }
        wrote := wrote + size;
        ofs := ofs + size;
      }
      WroteFitting(dev.geo, fdn, blockOfs, wrote, |d|);
    }

    /** Flush the block before the new one, then the new one, so that it enters the tree. */
    method FlushNewBlock(fdn: nat)
      requires Holding((file.1, fdn)) && len == |bytes| && reserved >= dev.maxFaults + 2 && fdn > 0 &&
               GetStartOfDataBlock(dev.geo, fdn) < len
      modifies dev`buf, dev`flash, dev`tree, dev`owner, dev`history, dev`faults, dev`content
      ensures Valid() && dev.content == old(dev.content) && Within(old(ViewOf(dev)), ViewOf(dev), file)
      ensures BlockObj(file, fdn - 1) !in DirtyObjs(dev.buf.pool) && (file.1, fdn) !in DirtyObjs(dev.buf.pool)
    {
      hide *;
      ghost var x := (file.1, fdn);
      BlockObjIs(file, fdn);
      var cleanedBefore := FlushOf(if fdn > 1 then (file.1, fdn - 1) else file, x);
      ghost var view1 := ViewOf(dev);
      FlushAdded(fdn);
      WithinChain(old(ViewOf(dev)), view1, ViewOf(dev), file);
    }

    /** Flush the new block: the one before it has been. */
    method FlushAdded(fdn: nat)
      requires Holding((file.1, fdn)) && len == |bytes| && reserved >= dev.maxFaults + 2 && fdn > 0 &&
               GetStartOfDataBlock(dev.geo, fdn) < len
      requires BlockObj(file, fdn - 1) !in DirtyObjs(dev.buf.pool)
      modifies dev`buf, dev`flash, dev`tree, dev`owner, dev`history, dev`faults, dev`content
      ensures Valid() && dev.content == old(dev.content) && Within(old(ViewOf(dev)), ViewOf(dev), file)
      ensures BlockObj(file, fdn - 1) !in DirtyObjs(dev.buf.pool) && (file.1, fdn) !in DirtyObjs(dev.buf.pool)
    {
      hide *;
      ghost var x := (file.1, fdn);
      var cleaned := FlushOf((file.1, fdn), x);
      HoldingIs(x);
      InTreeAt(dev.geo, dev.tree.nodes, file, |bytes|, x, 0);
      NewBlockHasPage(dev.content, dev.geo, file, bytes, fdn);
      dev.ValidIs();
      CleanObj(dev.buf.pool, x);
      WrittenOutInTree(dev.geo, dev.typeOf, dev.buf, dev.flash, dev.tree, dev.owner, dev.content, x);
      LaidBehindClean(dev.geo, dev.typeOf, dev.buf, dev.flash, dev.tree, dev.owner, dev.content, file, bytes, fdn);
      RoomAfterNew(dev.buf, dev.tree, Wear(dev.faults, dev.maxFaults), dev.dirtyMax, file, x);
      AllInTree(dev.geo, dev.tree.nodes, file, |bytes|, x);
      HoldingIs(file);
      ValidIs();
    }

    /** Flush the dirty buffers of one block of the file. */
    method FlushOf(o: Obj, ghost x: Obj) returns (ok: bool)
      requires Holding(x)
      modifies dev`buf, dev`flash, dev`tree, dev`owner, dev`history, dev`faults, dev`content
      ensures Holding(x) && ok && dev.content == old(dev.content) && Within(old(ViewOf(dev)), ViewOf(dev), file)
      ensures DirtyObjs(dev.buf.pool) <= DirtyObjs(old(dev.buf).pool) && o !in DirtyObjs(dev.buf.pool)
    {
      hide *;
      HoldingIs(x);
      ViewIs(dev);
      ghost var buf0, flash0, tree0, faults0 := dev.buf, dev.flash, dev.tree, dev.faults;
      ReadyIs(buf0, tree0, Wear(faults0, dev.maxFaults), dev.dirtyMax, x);
      ok := dev.FlushGroup(o);
      ReadyAfterFlush(buf0, tree0, Wear(faults0, dev.maxFaults), dev.buf, dev.tree, Wear(dev.faults, dev.maxFaults),
                      dev.dirtyMax, x);
      InTreeGrows(dev.geo, tree0.nodes, dev.tree.nodes, file, |bytes|, x);
      CleanObj(dev.buf.pool, o);
      ViewIs(dev);
      WithinStep(old(ViewOf(dev)), ViewOf(dev), file, {});
      OnwardGrows(buf0, flash0, tree0, dev.buf, dev.flash, dev.tree, {});
      dev.ValidIs();
      StillLaid(dev.geo, dev.typeOf, flash0, tree0.nodes, dev.buf, dev.flash, dev.tree, dev.owner, dev.content, file,
                bytes, x);
      HoldingIs(x);
    }

    /** Write from byte `at` of the file on, up to the end of its block; 0 if no new block can be had. */
    method WriteBlock(at: nat, d: seq<Byte>) returns (size: nat)
      requires Valid() && at <= len && |d| > 0
      modifies dev`buf, dev`flash, dev`tree, dev`owner, dev`history, dev`faults, dev`content, this`bytes, this`len
      ensures Valid() && |old(bytes)| == old(len) && size <= |d| && at + size <= len
      ensures Within(old(ViewOf(dev)), ViewOf(dev), file)
      ensures bytes == Splice(old(bytes), at, d[..size])
      ensures size == 0 ==> |dev.tree.erased| < reserved && len == at && AtNewBlock(dev.geo, len)
      ensures var fdn := GetFdnByOfs(dev.geo, at);
              at == old(len) && size > 0 && AtNewBlock(dev.geo, at) ==>
                fdn > 0 && BlockObj(file, fdn - 1) !in DirtyObjs(dev.buf.pool) &&
                BlockObj(file, fdn) !in DirtyObjs(dev.buf.pool)
    {
      hide *;
      ValidIs();
      WithinSelf(ViewOf(dev), file);
      SpliceNothing(bytes, at);
      var fdn := GetFdnByOfs(dev.geo, at);
      FdnIsBlockOfByte(dev.geo, at, fdn);
      size := 0;
      if at == len && fdn > 0 && at == GetStartOfDataBlock(dev.geo, fdn) {
        if |dev.tree.erased| < reserved {
          NewBlockNeeded(dev.geo, len);
          return;
        }
        NewBlockWrites(dev.geo, bytes, d);
        size := WriteNewBlock(fdn, d);
        SpliceLen(old(bytes), at, d[..size]);
        ghost var view1 := ViewOf(dev);
        FlushNewBlock(fdn);
        WithinChain(old(ViewOf(dev)), view1, ViewOf(dev), file);
        BlockObjIs(file, fdn);
      } else {
        NewBlockNeeded(dev.geo, at);
        var o := if fdn == 0 then file else (file.1, fdn);
        BlockIsInTree(fdn, at);
        if o !in dev.tree.nodes {
          return;
        }
        FittingFacts(dev.geo, fdn, at, |d|);
        size := WriteInternalBlock(fdn, d, at - GetStartOfDataBlock(dev.geo, fdn));
        SpliceLen(old(bytes), at, d[..size]);
        ValidIs();
      }
    }

    /** Write from the current position on; what remains is what no block could be had for. */
    method DoWriteObject(d: seq<Byte>) returns (remain: nat)
      requires Valid()
      modifies dev`buf, dev`flash, dev`tree, dev`owner, dev`history, dev`faults, dev`content, this`bytes, this`len
      ensures Valid() && |old(bytes)| == old(len) && remain <= |d|
      ensures Within(old(ViewOf(dev)), ViewOf(dev), file)
      ensures if pos > old(len) then remain == |d| && bytes == old(bytes)
              else bytes == Splice(old(bytes), pos, d[..|d| - remain]) && pos + |d| - remain <= len
      ensures pos <= old(len) && remain > 0 ==>
                |dev.tree.erased| < reserved && len == pos + |d| - remain && AtNewBlock(dev.geo, len)
    {
      hide *;
      ValidIs();
      ghost var bytes0, len0 := bytes, len;
      WithinSelf(ViewOf(dev), file);
      if pos <= len {
        SpliceNothing(bytes, pos);
      }
      remain := |d|;
      while remain > 0
        invariant remain <= |d| && Valid() && |bytes0| == len0
        invariant Within(old(ViewOf(dev)), ViewOf(dev), file)
        invariant pos > len0 ==> remain == |d| && len == len0 && bytes == bytes0
        invariant pos <= len0 ==> bytes == Splice(bytes0, pos, d[..|d| - remain]) && pos + |d| - remain <= len
      {
        var writeStart: nat := pos + |d| - remain;
        if writeStart > len {
          break;
        }
        ghost var view1, k := ViewOf(dev), |d| - remain;
        var size := WriteBlock(writeStart, d[|d| - remain..]);
        WithinChain(old(ViewOf(dev)), view1, ViewOf(dev), file);
        assert d[k..][..size] == d[k..k + size];
        SpliceTwice(bytes0, pos, d, k, k + size);
        if size == 0 {
          break;
        }
        remain := remain - size;
      }
    }

    /** Write bytes at the position of the file, or at its end when it is open for appending. A gap between the end of
        the file and the position is filled with zeros. */
    method WriteObject(d: seq<Byte>) returns (wrote: nat)
      requires Valid()
      modifies dev`buf, dev`flash, dev`tree, dev`owner, dev`history, dev`faults, dev`content, this`bytes, this`len,
               this`pos
      ensures wrote <= |d|
      ensures readOnly ==> wrote == 0 && bytes == old(bytes) && pos == old(pos)
      ensures var at := if append then |old(bytes)| else old(pos);
              !readOnly ==>
                if pos < at then wrote == 0 && bytes == Padded(old(bytes), pos)
                else bytes == WrittenAt(old(bytes), at, d[..wrote]) && pos == at + wrote
      ensures var at := if append then |old(bytes)| else old(pos);
              !readOnly && (pos < at || wrote < |d|) ==>
                |dev.tree.erased| < reserved && pos == len && AtNewBlock(dev.geo, len)
      ensures Within(old(ViewOf(dev)), ViewOf(dev), file)
      ensures Valid()
    {
      hide *;
      ValidIs();
      WithinSelf(ViewOf(dev), file);
      if readOnly {
        return 0;
      }
      ghost var bytes0, at := bytes, if append then |bytes| else pos;
      PaddedIs(bytes, at, d);
      HoldingIs(file);
      if append {
        pos := len;
        HoldingIs(file);
        ValidIs();
      } else if pos > len {
        var target := pos;
        pos := len;
        var gap := Zeros(target - len);
        HoldingIs(file);
        ValidIs();
        var remain := DoWriteObject(gap);
        PaddedGap(bytes0, target, |gap| - remain);
        HoldingIs(file);
        ValidIs();
        pos := target - remain;
        HoldingIs(file);
        ValidIs();
        if remain > 0 {
          return 0;
        }
      }
      ghost var view1 := ViewOf(dev);
      var remain := DoWriteObject(d);
      WithinChain(old(ViewOf(dev)), view1, ViewOf(dev), file);
      wrote := |d| - remain;
      PaddedIs(bytes0, at, d[..wrote]);
      HoldingIs(file);
      ValidIs();
      pos := pos + wrote;
      HoldingIs(file);
      ValidIs();
    }

    /** Read from byte `at` of the file on, up to the end of its page. */
    method ReadPage(at: nat, n: nat) returns (ok: bool, piece: seq<Byte>)
      requires Valid() && at < len && n > 0
      modifies dev`buf, dev`flash, dev`tree, dev`owner, dev`history, dev`faults, dev`content
      ensures ok && Valid() && dev.content == old(dev.content) && |bytes| == len &&
              Within(old(ViewOf(dev)), ViewOf(dev), file)
      ensures DirtyObjs(dev.buf.pool) <= DirtyObjs(old(dev.buf).pool)
      ensures 0 < |piece| <= n && at + |piece| <= len && piece == bytes[at..at + |piece|]
    {
      hide *;
      ValidIs();
      HoldingIs(file);
      GeoFacts(dev.geo);
      piece := [];
      ViewIs(dev);
      WithinSelf(ViewOf(dev), file);
      var fdn := GetFdnByOfs(dev.geo, at);
      FdnIsBlockOfByte(dev.geo, at, fdn);
      BlockIsInTree(fdn, at);
      var o := if fdn == 0 then file else (file.1, fdn);
      ok := o in dev.tree.nodes;
      if !ok {
        return;
      }
      var blockOfs := GetStartOfDataBlock(dev.geo, fdn);
      var pageId := PageIndex(dev.geo, at - blockOfs);
      if fdn == 0 {
        pageId := pageId + 1;
      }
      PageOfByte(dev.geo, file, fdn, at - blockOfs);
      ghost var q := PageNumber(dev.geo, fdn, pageId);
      TypeOfHome(dev.geo, dev.typeOf, file, q);
      if fdn > 0 {
        DataIsNotFile(file, fdn);
      }
      var pageOfs := PageOffset(dev.geo, at);
      SameOffset(dev.geo, at, fdn);
      ReadFacts(dev.content, dev.geo, file, bytes, q, pageOfs, n);
      ghost var buf0, flash0, tree0 := dev.buf, dev.flash, dev.tree;
      var dataLen;
      ok, dataLen, piece := dev.LoadPage(if fdn == 0 then FILE else DATA, o, pageId, pageOfs, n, file);
      InTreeGrows(dev.geo, tree0.nodes, dev.tree.nodes, file, |bytes|, file);
      ViewIs(dev);
      WithinStep(old(ViewOf(dev)), ViewOf(dev), file, {});
      OnwardGrows(buf0, flash0, tree0, dev.buf, dev.flash, dev.tree, {});
      dev.ValidIs();
      StillLaid(dev.geo, dev.typeOf, flash0, tree0.nodes, dev.buf, dev.flash, dev.tree, dev.owner, dev.content, file,
                bytes, file);
      HoldingIs(file);
      ValidIs();
    }

    /** Read bytes at the position of the file, as many as there are. */
    method ReadObject(n: nat) returns (data: seq<Byte>)
      requires Valid()
      modifies dev`buf, dev`flash, dev`tree, dev`owner, dev`history, dev`faults, dev`content, this`pos
      ensures Valid() && dev.content == old(dev.content) && pos == old(pos) + |data| &&
              Within(old(ViewOf(dev)), ViewOf(dev), file)
      ensures DirtyObjs(dev.buf.pool) <= DirtyObjs(old(dev.buf).pool)
      ensures data == if writeOnly || old(pos) >= |bytes| then []
                      else if old(pos) + n < |bytes| then bytes[old(pos)..old(pos) + n] else bytes[old(pos)..]
    {
      hide *;
      ValidIs();
      data := [];
      WithinSelf(ViewOf(dev), file);
      if pos > len {
        return;
      }
      if writeOnly {
        return;
      }
      var remain := n;
      while remain > 0
        invariant Valid() && len == |bytes| && dev.content == old(dev.content) && pos == old(pos)
        invariant Within(old(ViewOf(dev)), ViewOf(dev), file)
        invariant DirtyObjs(dev.buf.pool) <= DirtyObjs(old(dev.buf).pool)
        invariant 0 <= remain <= n && |data| == n - remain && pos + |data| <= len && data == bytes[pos..pos + |data|]
      {
        var readStart := pos + n - remain;
        if readStart >= len {
          break;
        }
        ghost var view1 := ViewOf(dev);
        var ok, piece := ReadPage(readStart, remain);
        WithinChain(old(ViewOf(dev)), view1, ViewOf(dev), file);
        if !ok {
          break;
        }
        ValidIs();
        assert bytes[pos..readStart] + bytes[readStart..readStart + |piece|] == bytes[pos..readStart + |piece|];
        data := data + piece;
        remain := remain - |piece|;
      }
      assert pos + |data| == len ==> data == bytes[pos..];
      HoldingIs(file);
      ValidIs();
      pos := pos + |data|;
      HoldingIs(file);
      ValidIs();
    }

    /** A block of the file with bytes before or behind `at` is in the tree. */
    lemma BlockIsInTree(fdn: nat, at: nat)
      requires Valid() && GetStartOfDataBlock(dev.geo, fdn) <= at <= len
      requires fdn == 0 || GetStartOfDataBlock(dev.geo, fdn) < len
      ensures (if fdn == 0 then file else (file.1, fdn)) in dev.tree.nodes
    {
      hide *;
      ValidIs();
      HoldingIs(file);
      InTreeAt(dev.geo, dev.tree.nodes, file, |bytes|, file, 0);
      if fdn > 0 {
        GeoFacts(dev.geo);
        NewBlockPage(dev.geo, file, fdn, 0);
        InTreeAt(dev.geo, dev.tree.nodes, file, |bytes|, file, PageNumber(dev.geo, fdn, 0));
      }
    }

    lemma DataIsNotFile(x: Obj, fdn: nat)
      requires Holding(x) && fdn > 0
      ensures file != (file.1, fdn)
    {
    }

    /** There is room for the new block. */
    lemma NewBlockStarts(x: Obj)
      requires Holding(file) && len == |bytes| && |dev.tree.erased| >= dev.maxFaults + 2
      ensures Holding(x)
    {
      LaidLess(dev.geo, dev.flash, dev.tree.nodes, file, x);
      RoomForNew(dev.buf, dev.tree, Wear(dev.faults, dev.maxFaults), dev.dirtyMax, file, x);
    }
  }

  lemma {:induction false} BlockSize(g: Geo)
    ensures BlockBytes(g) == g.pages * g.pageSize
  {
  }

  lemma {:induction false} PagesBeyond(n: nat, i: nat, pages: nat, pg: nat)
    requires i <= pages && n <= i * pg
    ensures n <= pages * pg
  {
    MulMono(i, pages, pg);
  }

  lemma {:induction false} NextPage(n: nat, i: nat, pg: nat)
    requires i * pg < n
    ensures (i + 1) * pg == i * pg + pg
  {
  }

  lemma {:induction false} SpliceLen(bytes: seq<Byte>, at: nat, d: seq<Byte>)
    requires at <= |bytes|
    ensures |Splice(bytes, at, d)| == if at + |d| > |bytes| then at + |d| else |bytes|
  {
  }

  /** Page i of a data block. */
  lemma {:induction false} NewBlockPage(g: Geo, file: Obj, fdn: nat, i: nat)
    requires fdn > 0 && i < g.pages
    ensures var q := PageNumber(g, fdn, i);
            q >= 0 && HomeId(g, q) == i && HomeObj(g, file, q) == (file.1, fdn) &&
            Ofs(g, q) == GetStartOfDataBlock(g, fdn) + i * g.pageSize
  {
    HomeOf(g, file, fdn, i);
    StartIsPage(g, fdn);
    NotNegative(fdn - 1, g.pages);
    SumOfProducts(g.pages - 1 + (fdn - 1) * g.pages, i, g.pageSize);
  }

  /** Bytes that fit in the block from byte blockOfs on. */
  function Fitting(g: Geo, fdn: nat, blockOfs: nat, n: nat): int {
    var room := GetStartOfDataBlock(g, fdn + 1) - GetStartOfDataBlock(g, fdn) - blockOfs;
    if n < room then n else room
  }

  lemma {:induction false} WroteFitting(g: Geo, fdn: nat, blockOfs: nat, wrote: nat, n: nat)
    requires GetStartOfDataBlock(g, fdn) + blockOfs + wrote <= GetStartOfDataBlock(g, fdn + 1) && wrote <= n
    requires wrote == n || GetStartOfDataBlock(g, fdn) + blockOfs + wrote == GetStartOfDataBlock(g, fdn + 1)
    ensures wrote == Fitting(g, fdn, blockOfs, n)
  {
  }

  /** The page of byte ofs of a block, if the block has such a byte. */
  lemma {:induction false} PageOfByte(g: Geo, file: Obj, fdn: nat, ofs: nat)
    requires GetStartOfDataBlock(g, fdn) + ofs <= GetStartOfDataBlock(g, fdn + 1)
    ensures var id := PageIndex(g, ofs) + (if fdn == 0 then 1 else 0);
            (id <= g.pages - 1 <==> GetStartOfDataBlock(g, fdn) + ofs < GetStartOfDataBlock(g, fdn + 1)) &&
            PageOffset(g, ofs) < g.pageSize &&
            (id <= g.pages - 1 ==>
              var q := PageNumber(g, fdn, id);
              q >= 0 && HomeId(g, q) == id && HomeObj(g, file, q) == (if fdn == 0 then file else (file.1, fdn)) &&
              Ofs(g, q) + PageOffset(g, ofs) == GetStartOfDataBlock(g, fdn) + ofs &&
              Ofs(g, q) + g.pageSize <= GetStartOfDataBlock(g, fdn + 1))
  {
    hide GetStartOfDataBlock, HomeId, HomeObj, Ofs, PageNumber;
    var count, k := if fdn == 0 then g.pages - 1 else g.pages, PageIndex(g, ofs);
    BlockIsPages(g, fdn);
    SplitBound(ofs, g.pageSize, count);
    if k < count {
      HomeOf(g, file, fdn, k + (if fdn == 0 then 1 else 0));
      PageStart(g, fdn, k);
    }
  }

  lemma {:induction false} SplitBound(ofs: nat, n: nat, count: nat)
    requires n > 0 && ofs <= count * n
    ensures ofs / n < count <==> ofs < count * n
    ensures ofs == (ofs / n) * n + ofs % n && ofs % n < n
    ensures ofs / n < count ==> (ofs / n) * n + n <= count * n
  {
    Remainders(ofs, n);
    QuotientBounds(ofs, n);
    if ofs / n < count {
      MulMono(ofs / n + 1, count, n);
    } else {
      MulMono(count, ofs / n, n);
    }
  }

  lemma {:induction false} PageStart(g: Geo, fdn: nat, k: nat)
    requires PageNumber(g, fdn, k + (if fdn == 0 then 1 else 0)) >= 0
    ensures Ofs(g, PageNumber(g, fdn, k + (if fdn == 0 then 1 else 0))) == GetStartOfDataBlock(g, fdn) + k * g.pageSize
  {
    StartIsPage(g, fdn);
    if fdn > 0 {
      NotNegative(fdn - 1, g.pages);
      SumOfProducts(g.pages - 1 + (fdn - 1) * g.pages, k, g.pageSize);
    }
  }

  /** The page of a byte at the end of the file is new when the last page is full. */
  lemma {:induction false} FileBound(len: nat, at: nat, first: nat, pg: nat, g: Geo, q: nat)
    requires first == Ofs(g, q) && pg == g.pageSize && first <= at < first + pg && at <= len
    ensures (PageOffset(g, len) == 0 && at == len) <==> first >= len
  {
    QuotientIs(at, pg, q);
    Remainders(at, pg);
  }

  /** The first page of a new block that has bytes. */
  lemma {:induction false} NewBlockHasPage(content: Content, g: Geo, file: Obj, bytes: seq<Byte>, fdn: nat)
    requires FileRep(content, g, file, bytes) && fdn > 0 && GetStartOfDataBlock(g, fdn) < |bytes|
    ensures ContentAt(content, (file.1, fdn)) != []
  {
    NewBlockPage(g, file, fdn, 0);
    assert PageHeld(content, g, file, bytes, PageNumber(g, fdn, 0));
  }

  lemma {:induction false} AllInTree(g: Geo, nodes: map<Obj, nat>, file: Obj, size: nat, x: Obj)
    requires InTree(g, nodes, file, size, x) && x in nodes
    ensures InTree(g, nodes, file, size, file)
  {
  }

  lemma {:induction false} BlockObjIs(file: Obj, fdn: nat)
    ensures BlockObj(file, fdn) == if fdn == 0 then file else (file.1, fdn)
    ensures fdn > 0 ==> BlockObj(file, fdn - 1) == if fdn > 1 then (file.1, fdn - 1) else file
  {
  }

  /** The next byte of the file would need a new data block. */
  predicate AtNewBlock(g: Geo, len: nat) {
    GetFdnByOfs(g, len) > 0 && GetStartOfDataBlock(g, GetFdnByOfs(g, len)) == len
  }

  lemma {:induction false} NewBlockNeeded(g: Geo, len: nat)
    ensures AtNewBlock(g, len) <==> GetFdnByOfs(g, len) > 0 && GetStartOfDataBlock(g, GetFdnByOfs(g, len)) == len
  {
  }

  lemma {:induction false} NewBlockWrites(g: Geo, bytes: seq<Byte>, d: seq<Byte>)
    requires |d| > 0
    ensures BlockBytes(g) > 0
  {
  }

  lemma {:induction false} FittingFacts(g: Geo, fdn: nat, at: nat, n: nat)
    requires GetStartOfDataBlock(g, fdn) <= at < GetStartOfDataBlock(g, fdn + 1) && n > 0
    ensures 0 < Fitting(g, fdn, at - GetStartOfDataBlock(g, fdn), n) <= n
  {
  }

  function Zeros(n: nat): (z: seq<Byte>)
    ensures |z| == n
  {
    seq(n, _ => 0)
  }

  /** The bytes, followed by zeros up to length n. */
  function Padded(bytes: seq<Byte>, n: nat): (r: seq<Byte>)
    ensures |r| == if n > |bytes| then n else |bytes|
    ensures forall i :: 0 <= i < |r| ==> r[i] == if i < |bytes| then bytes[i] else 0
  {
    if n <= |bytes| then bytes else bytes + Zeros(n - |bytes|)
  }

  /** The bytes after a write at `at`: zeros up to there if need be, then d over what was there. */
  function WrittenAt(bytes: seq<Byte>, at: nat, d: seq<Byte>): seq<Byte> {
    Splice(Padded(bytes, at), at, d)
  }

  lemma {:induction false} PaddedIs(bytes: seq<Byte>, n: nat, d: seq<Byte>)
    ensures n <= |bytes| ==> Padded(bytes, n) == bytes
    ensures n <= |Padded(bytes, n)| && WrittenAt(bytes, n, d) == Splice(Padded(bytes, n), n, d)
  {
  }

  lemma {:induction false} PaddedGap(bytes: seq<Byte>, target: nat, k: nat)
    requires target > |bytes| && k <= target - |bytes|
    ensures Splice(bytes, |bytes|, Zeros(target - |bytes|)[..k]) == Padded(bytes, |bytes| + k)
  {
  }

  /** The offset in the page is the same whether counted from the start of the file or of the block. */
  lemma {:induction false} SameOffset(g: Geo, at: nat, fdn: nat)
    requires fdn == GetFdnByOfs(g, at) && GetStartOfDataBlock(g, fdn) <= at
    ensures PageOffset(g, at) == PageOffset(g, at - GetStartOfDataBlock(g, fdn))
  {
    SplitOffset(g, at);
    hide GetFdnByOfs, GetStartOfDataBlock;
  }

  /** What a read finds on page q of the file. */
  lemma {:induction false} ReadFacts(content: Content, g: Geo, file: Obj, bytes: seq<Byte>, q: nat, ofs: nat, n: nat)
    requires FileRep(content, g, file, bytes) && Ofs(g, q) + ofs < |bytes| && ofs < g.pageSize && n > 0
    ensures HomeId(g, q) < |ContentAt(content, HomeObj(g, file, q))|
    ensures var p, at := ContentAt(content, HomeObj(g, file, q))[HomeId(g, q)], Ofs(g, q) + ofs;
            ofs < p.len <= |p.data| && Ofs(g, q) + p.len <= |bytes| &&
            (n + ofs > p.len ==> p.data[ofs..p.len] == bytes[at..at + (p.len - ofs)]) &&
            (n + ofs <= p.len ==> p.data[ofs..ofs + n] == bytes[at..at + n])
  {
    hide HomeObj, HomeId, Ofs;
    assert PageHeld(content, g, file, bytes, q);
    var p := ContentAt(content, HomeObj(g, file, q))[HomeId(g, q)];
    forall i | 0 <= i < p.len ensures p.data[i] == bytes[Ofs(g, q) + i] {
      assert p.data[..p.len][i] == bytes[Ofs(g, q)..Ofs(g, q) + p.len][i];
    }
  }

  // ----- creating a directory or a file

  /** Create an object: page 0 of its block, with the attributes, is written and flushed at once, so that the object
      enters the tree. */
  method CreateObject(dev: Device, ty: nat, o: Obj, attributes: seq<Byte>, reserved: nat) returns (ok: bool)
    requires dev.Valid() && Calm(dev.buf, dev.tree, Wear(dev.faults, dev.maxFaults), dev.dirtyMax) &&
             ty == dev.typeOf(o)
    requires 0 < |attributes| <= dev.geo.pageSize && reserved >= dev.maxFaults + 2 && ContentAt(dev.content, o) == []
    modifies dev`buf, dev`flash, dev`tree, dev`owner, dev`history, dev`faults, dev`content
    ensures dev.Valid() && Calm(dev.buf, dev.tree, Wear(dev.faults, dev.maxFaults), dev.dirtyMax) &&
            old(dev.tree).nodes.Keys <= dev.tree.nodes.Keys
    ensures ok <==> |old(dev.tree).erased| >= reserved
    ensures ok ==> o in dev.tree.nodes && o !in DirtyObjs(dev.buf.pool)
    ensures Onward(old(dev.buf), old(dev.flash), old(dev.tree), dev.buf, dev.flash, dev.tree, {})
    ensures ok ==> dev.content == old(dev.content)[o := [Overwritten(BlankPage(dev.geo), 0, attributes)]]
    ensures !ok ==> dev.content == old(dev.content)
  {
    hide *;
    ok := |dev.tree.erased| >= reserved;
    if !ok {
      OnwardSame(dev.buf, dev.flash, dev.tree, dev.buf);
      return;
    }
    GeoFacts(dev.geo);
    CalmIsReady(dev.buf, dev.tree, Wear(dev.faults, dev.maxFaults), dev.dirtyMax, o);
    ghost var content0 := dev.content;
    var stored := dev.StorePage(ty, o, 0, true, 0, attributes, o);
    ghost var buf1, flash1, tree1, faults1 := dev.buf, dev.flash, dev.tree, dev.faults;
    FirstPageStored(dev.geo, content0, o, attributes);
    ReadyIs(buf1, tree1, Wear(faults1, dev.maxFaults), dev.dirtyMax, o);
    var flushed := dev.FlushGroup(o);
    ReadyAfterFlush(buf1, tree1, Wear(faults1, dev.maxFaults), dev.buf, dev.tree, Wear(dev.faults, dev.maxFaults),
                    dev.dirtyMax, o);
    CleanObj(dev.buf.pool, o);
    OnwardButClean(old(dev.buf), old(dev.flash), old(dev.tree), buf1, flash1, tree1, dev.buf, dev.flash, dev.tree, o);
    dev.ValidIs();
    OneContent(dev.content, content0, o, [Overwritten(BlankPage(dev.geo), 0, attributes)]);
    WrittenOutInTree(dev.geo, dev.typeOf, dev.buf, dev.flash, dev.tree, dev.owner, dev.content, o);
    ReadyIsCalm(dev.buf, dev.tree, Wear(dev.faults, dev.maxFaults), dev.dirtyMax, o);
  }

  /** An object that was written and then flushed. */
  lemma {:induction false} OnwardButClean(buf: BufSt, flash: Flash, tree: TreeSt, buf': BufSt, flash': Flash,
                                          tree': TreeSt, buf'': BufSt, flash'': Flash, tree'': TreeSt, o: Obj)
    requires Onward(buf, flash, tree, buf', flash', tree', {o}) && o !in DirtyObjs(buf''.pool)
    requires Onward(buf', flash', tree', buf'', flash'', tree'', {})
    ensures Onward(buf, flash, tree, buf'', flash'', tree'', {})
  {
    OnwardMore(buf', flash', tree', buf'', flash'', tree'', {}, {o});
    OnwardComposes(buf, flash, tree, buf', flash', tree', buf'', flash'', tree'', {o});
    hide DirtyObjs, StoredGrows;
  }

  lemma {:induction false} FirstPageStored(g: Geo, content: Content, o: Obj, attributes: seq<Byte>)
    requires ContentAt(content, o) == [] && |attributes| <= g.pageSize
    ensures |StoreBase(g, content, o, 0).data| == g.pageSize == |BlankPage(g).data|
    ensures Stored1(g, content, o, 0, 0, attributes) == content[o := [Overwritten(BlankPage(g), 0, attributes)]]
  {
    hide Overwritten;
    var page := Overwritten(BlankPage(g), 0, attributes);
    assert Put([], 0, page) == [page];
  }

  lemma {:induction false} OneContent(content: Content, content0: Content, o: Obj, pages: seq<LPage>)
    requires content == content0[o := pages]
    ensures ContentAt(content, o) == pages && forall p :: p != o ==> ContentAt(content, p) == ContentAt(content0, p)
  {
  }

  /** Create an empty file. */
  method CreateFile(dev: Device, file: Obj, attributes: seq<Byte>, reserved: nat) returns (ok: bool, f: FileObject?)
    requires dev.Valid() && Calm(dev.buf, dev.tree, Wear(dev.faults, dev.maxFaults), dev.dirtyMax) &&
             Typed(dev.typeOf, file)
    requires 0 < |attributes| <= dev.geo.pageSize && reserved >= dev.maxFaults + 2
    requires ContentAt(dev.content, file) == [] && forall n: nat :: n > 0 ==> ContentAt(dev.content, (file.1, n)) == []
    modifies dev`buf, dev`flash, dev`tree, dev`owner, dev`history, dev`faults, dev`content
    ensures dev.Valid() && Calm(dev.buf, dev.tree, Wear(dev.faults, dev.maxFaults), dev.dirtyMax) &&
            old(dev.tree).nodes.Keys <= dev.tree.nodes.Keys
    ensures Onward(old(dev.buf), old(dev.flash), old(dev.tree), dev.buf, dev.flash, dev.tree, {})
    ensures ok <==> |old(dev.tree).erased| >= reserved
    ensures ok ==> f != null && fresh(f) && f.dev == dev && f.file == file && f.Valid() && f.len == 0 && f.bytes == []
    ensures ok ==> dev.content == old(dev.content)[file := [Overwritten(BlankPage(dev.geo), 0, attributes)]]
    ensures !ok ==> dev.content == old(dev.content)
  {
    hide *;
    f := null;
    ghost var content0 := dev.content;
    TypedFacts(dev.typeOf, file);
    ok := CreateObject(dev, FILE, file, attributes, reserved);
    if ok {
      EmptyFile(dev.geo, dev.typeOf, content0, dev.content, file, Overwritten(BlankPage(dev.geo), 0, attributes));
      NothingInTree(dev.geo, dev.tree.nodes, file);
      dev.ValidIs();
      NoDataPages(content0, dev.content, file, [Overwritten(BlankPage(dev.geo), 0, attributes)], dev.typeOf);
      LaidAlone(dev.geo, dev.typeOf, dev.buf, dev.flash, dev.tree, dev.owner, dev.content, file);
      CalmIsReady(dev.buf, dev.tree, Wear(dev.faults, dev.maxFaults), dev.dirtyMax, file);
      f := new FileObject(dev, file, reserved, false, false, false, 0, []);
      f.HoldingIs(file);
      f.ValidIs();
    }
  }

  lemma {:induction false} NoDataPages(content: Content, content': Content, file: Obj, pages: seq<LPage>,
                                       typeOf: Obj -> nat)
    requires content' == content[file := pages] && Typed(typeOf, file)
    requires forall n: nat :: n > 0 ==> ContentAt(content, (file.1, n)) == []
    ensures forall n: nat :: n > 0 ==> ContentAt(content', (file.1, n)) == []
  {
    forall n: nat | n > 0 ensures ContentAt(content', (file.1, n)) == [] {
      assert typeOf((file.1, n)) == DATA;
    }
  }

  lemma {:induction false} TypedFacts(typeOf: Obj -> nat, file: Obj)
    requires Typed(typeOf, file)
    ensures typeOf(file) == FILE
  {
  }

  lemma {:induction false} NothingInTree(g: Geo, nodes: map<Obj, nat>, file: Obj)
    requires file in nodes
    ensures InTree(g, nodes, file, 0, file)
  {
    hide HomeObj;
  }

  /** With just the page of attributes a file has no bytes. */
  lemma {:induction false} EmptyFile(g: Geo, typeOf: Obj -> nat, content: Content, content': Content, file: Obj,
                                     page: LPage)
    requires Typed(typeOf, file) && content' == content[file := [page]]
    requires forall n: nat :: n > 0 ==> ContentAt(content, (file.1, n)) == []
    ensures FileRep(content', g, file, [])
  {
    forall q: nat ensures PageHeld(content', g, file, [], q) {
      TypeOfHome(g, typeOf, file, q);
    }
    forall n: nat | n > 0 ensures file != (file.1, n) {
      assert typeOf((file.1, n)) == DATA;
    }
  }

  // ----- two files of one device

  /** Neither file is among the data blocks of the other. */
  predicate Apart(file: Obj, other: Obj) {
    file != other && file.1 != other.1 && file.0 != other.1 && other.0 != file.1
  }

  /** What is done to one file leaves the bytes of another. */
  lemma {:induction false} OtherFileKept(content: Content, content': Content, g: Geo, file: Obj, other: Obj,
                                         bytes: seq<Byte>)
    requires FileRep(content, g, other, bytes) && OtherObjects(content, content', file) && Apart(file, other)
    ensures FileRep(content', g, other, bytes)
  {
    hide Ofs, HomeId;
    forall q: nat ensures PageHeld(content', g, other, bytes, q) {
      assert PageHeld(content, g, other, bytes, q);
    }
  }

  /** A second open file of the device stays valid while the first is written or read. */
  twostate lemma OtherFileStaysValid(f: FileObject, other: FileObject)
    requires old(f.Valid() && other.Valid()) && f.Valid() && other.dev == f.dev && Apart(f.file, other.file)
    requires other.len == old(other.len) && other.bytes == old(other.bytes) && f.dev.typeOf == old(f.dev.typeOf)
    requires Within(old(ViewOf(f.dev)), ViewOf(f.dev), f.file)
    ensures other.Valid()
  {
    hide DeviceOk, FileRep, InTree, Laid, OtherObjects, Within, Calm, Ready, Typed, StoredGrows;
    WithinIs(old(ViewOf(f.dev)), ViewOf(f.dev), f.file);
    OtherFileKept(old(f.dev.content), f.dev.content, f.dev.geo, f.file, other.file, other.bytes);
    StillLaid(f.dev.geo, f.dev.typeOf, old(f.dev.flash), old(f.dev.tree).nodes, f.dev.buf, f.dev.flash, f.dev.tree,
              f.dev.owner, f.dev.content, other.file, other.bytes, other.file);
    InTreeGrows(f.dev.geo, old(f.dev.tree).nodes, f.dev.tree.nodes, other.file, |other.bytes|, other.file);
    InTreeAt(f.dev.geo, f.dev.tree.nodes, f.file, |f.bytes|, f.file, 0);
    ReadyIsCalm(f.dev.buf, f.dev.tree, Wear(f.dev.faults, f.dev.maxFaults), f.dev.dirtyMax, f.file);
    CalmIsReady(f.dev.buf, f.dev.tree, Wear(f.dev.faults, f.dev.maxFaults), f.dev.dirtyMax, other.file);
    hide *;
    f.ValidIs();
    other.ValidIs();
    f.HoldingIs(f.file);
    other.HoldingIs(other.file);
  }
}

/** What a user of a volume sees: directories and files with their bytes; and how the pages of a device hold them. */
module VolumeSteps {
  import opened Chains
  import opened FlashModel
  import opened LogicalBlock
  import opened DeviceState
  import opened FlushSteps
  import opened BufferSteps
  import opened WriteSteps
  import opened FileLayout
  import opened FileSteps
  import opened FileObjects
  import opened MountLengths
  import opened CrashSafety
  import opened FileLengths

  // Serials of directories and files: 0 is the root, which has no block.
  const ROOT_DIR_SERIAL: nat := 0
  const MAX_FSN: nat := 0x3FF
  const INVALID_SERIAL: nat := 0xFFFF

  // ----- directories and files, by serial

  /** `info` are the attributes, the name among them. */
  datatype Entry =
    | DirEntry(parent: nat, info: seq<Byte>)
    | FileEntry(parent: nat, info: seq<Byte>, bytes: seq<Byte>)
  type Entries = map<nat, Entry>

  predicate IsDir(spec: Entries, s: nat) {
    s == ROOT_DIR_SERIAL || (s in spec && spec[s].DirEntry?)
  }

  predicate IsFile(spec: Entries, s: nat) {
    s in spec && spec[s].FileEntry?
  }

  ghost predicate EntriesOk(spec: Entries) {
    forall s :: s in spec ==> ROOT_DIR_SERIAL < s < MAX_FSN && IsDir(spec, spec[s].parent)
  }

  function NameOf(spec: Entries, s: nat): Obj
    requires s in spec
  {
    (spec[s].parent, s)
  }

  /** Object o is the head block of a directory or file, or a data block of a file. */
  ghost predicate IsPart(spec: Entries, o: Obj) {
    (o.1 in spec && o == NameOf(spec, o.1)) || (o.1 > 0 && IsFile(spec, o.0))
  }

  // ----- how the device holds them

  /** The page holds the attributes and nothing else. */
  predicate IsInfo(p: LPage, info: seq<Byte>) {
    p.len == |info| <= |p.data| && p.data[..p.len] == info
  }

  /** The first page of an object holds the attributes. */
  predicate HasInfo(pages: seq<LPage>, info: seq<Byte>) {
    pages != [] && IsInfo(pages[0], info)
  }

  lemma {:induction false} NewInfoPage(g: Geo, info: seq<Byte>)
    requires |info| <= g.pageSize
    ensures IsInfo(Overwritten(BlankPage(g), 0, info), info)
  {
  }

  /** The pages of file s hold its bytes, and its blocks are in the tree, in their order. */
  ghost predicate FileHeld(spec: Entries, content: Content, g: Geo, typeOf: Obj -> nat, flash: Flash,
                           nodes: map<Obj, nat>, s: nat)
    requires IsFile(spec, s)
  {
    var o := NameOf(spec, s);
    FileRep(content, g, o, spec[s].bytes) && InTree(g, nodes, o, |spec[s].bytes|, o) &&
    Laid(g, flash, nodes, o, o) && Typed(typeOf, o)
  }

  ghost predicate DirHeld(spec: Entries, typeOf: Obj -> nat, nodes: map<Obj, nat>, s: nat)
    requires s in spec
  {
    NameOf(spec, s) in nodes && typeOf(NameOf(spec, s)) == DIR
  }

  /** Every directory and file has its attributes on its first page, and every file its bytes behind them. */
  ghost predicate Held(spec: Entries, content: Content, g: Geo, typeOf: Obj -> nat, flash: Flash,
                       nodes: map<Obj, nat>) {
    && EntriesOk(spec)
    && (forall s :: IsFile(spec, s) ==> FileHeld(spec, content, g, typeOf, flash, nodes, s))
    && (forall s :: s in spec && spec[s].DirEntry? ==> DirHeld(spec, typeOf, nodes, s))
    && (forall s :: s in spec ==> HasInfo(ContentAt(content, NameOf(spec, s)), spec[s].info))
    && (forall o: Obj :: ContentAt(content, o) != [] ==> IsPart(spec, o))
  }

  lemma {:induction false} NothingHeld(g: Geo, typeOf: Obj -> nat, flash: Flash)
    ensures Held(map[], map[], g, typeOf, flash, map[])
  {
  }

  lemma {:induction false} HeldFile(spec: Entries, content: Content, g: Geo, typeOf: Obj -> nat, flash: Flash,
                                    nodes: map<Obj, nat>, s: nat)
    requires Held(spec, content, g, typeOf, flash, nodes) && IsFile(spec, s)
    ensures s in spec && FileHeld(spec, content, g, typeOf, flash, nodes, s) && EntriesOk(spec)
    ensures var o := NameOf(spec, s);
            FileRep(content, g, o, spec[s].bytes) && InTree(g, nodes, o, |spec[s].bytes|, o) &&
            Laid(g, flash, nodes, o, o) && Typed(typeOf, o) && o in nodes
  {
    hide FileRep, Laid, HasInfo;
  }

  lemma {:induction false} FilesApart(spec: Entries, s: nat, r: nat)
    requires EntriesOk(spec) && IsFile(spec, s) && IsFile(spec, r) && s != r
    ensures Apart(NameOf(spec, s), NameOf(spec, r))
  {
  }

  /** What is done to one file leaves another one held. */
  lemma {:induction false} OtherFileHeld(g: Geo, types: Obj -> nat, v: View, v': View, owner': map<nat, Owner>, o: Obj,
                                         file: Obj, bytes: seq<Byte>)
    requires Within(v, v', o) && Apart(o, file) && DeviceOk(g, types, v'.buf, v'.flash, v'.tree, owner', v'.content)
    requires FileRep(v.content, g, file, bytes) && InTree(g, v.tree.nodes, file, |bytes|, file) &&
             Laid(g, v.flash, v.tree.nodes, file, file)
    ensures FileRep(v'.content, g, file, bytes) && InTree(g, v'.tree.nodes, file, |bytes|, file) &&
            Laid(g, v'.flash, v'.tree.nodes, file, file)
  {
    hide *;
    WithinIs(v, v', o);
    OtherFileKept(v.content, v'.content, g, o, file, bytes);
    InTreeGrows(g, v.tree.nodes, v'.tree.nodes, file, |bytes|, file);
    StillLaid(g, types, v.flash, v.tree.nodes, v'.buf, v'.flash, v'.tree, owner', v'.content, file, bytes, file);
  }

  /** A file has new bytes; nothing else has changed. */
  lemma {:induction false} HeldAfterWrite(spec: Entries, g: Geo, typeOf: Obj -> nat, v: View, v': View,
                                          owner': map<nat, Owner>, s: nat, bytes: seq<Byte>)
    requires Held(spec, v.content, g, typeOf, v.flash, v.tree.nodes) && IsFile(spec, s) &&
             Within(v, v', NameOf(spec, s))
    requires DeviceOk(g, typeOf, v'.buf, v'.flash, v'.tree, owner', v'.content)
    requires var o := NameOf(spec, s);
             FileRep(v'.content, g, o, bytes) && InTree(g, v'.tree.nodes, o, |bytes|, o) &&
             Laid(g, v'.flash, v'.tree.nodes, o, o)
    ensures Held(spec[s := FileEntry(spec[s].parent, spec[s].info, bytes)], v'.content, g, typeOf, v'.flash,
                 v'.tree.nodes)
  {
    hide DeviceOk, FileRep, InTree, Typed, OtherObjects, Within, Laid, HasInfo;
    var spec' := spec[s := FileEntry(spec[s].parent, spec[s].info, bytes)];
    WithinIs(v, v', NameOf(spec, s));
    forall r | IsFile(spec', r) ensures FileHeld(spec', v'.content, g, typeOf, v'.flash, v'.tree.nodes, r) {
      HeldFile(spec, v.content, g, typeOf, v.flash, v.tree.nodes, r);
      if r != s {
        FilesApart(spec, s, r);
        OtherFileHeld(g, typeOf, v, v', owner', NameOf(spec, s), NameOf(spec, r), spec[r].bytes);
      }
    }
    forall r | r in spec' && spec'[r].DirEntry? ensures DirHeld(spec', typeOf, v'.tree.nodes, r) {
      assert DirHeld(spec, typeOf, v.tree.nodes, r);
    }
    InfoAfterWrite(spec, v.content, v'.content, s, bytes);
    forall o: Obj | ContentAt(v'.content, o) != [] ensures IsPart(spec', o) {
      OtherObjectAt(v.content, v'.content, NameOf(spec, s), o);
      if ContentAt(v.content, o) != [] {
        assert IsPart(spec, o);
      }
    }
  }

  /** A write leaves all attributes as they were. */
  lemma {:induction false} InfoAfterWrite(spec: Entries, content: Content, content': Content, s: nat, bytes: seq<Byte>)
    requires EntriesOk(spec) && IsFile(spec, s) && OtherObjects(content, content', NameOf(spec, s))
    requires forall r :: r in spec ==> HasInfo(ContentAt(content, NameOf(spec, r)), spec[r].info)
    ensures var spec' := spec[s := FileEntry(spec[s].parent, spec[s].info, bytes)];
            forall r :: r in spec' ==> HasInfo(ContentAt(content', NameOf(spec', r)), spec'[r].info)
  {
    hide IsInfo, ContentAt;
    var spec' := spec[s := FileEntry(spec[s].parent, spec[s].info, bytes)];
    forall r | r in spec' ensures HasInfo(ContentAt(content', NameOf(spec', r)), spec'[r].info) {
      assert HasInfo(ContentAt(content, NameOf(spec, r)), spec[r].info);
      assert r != s ==> !OfFile(NameOf(spec, s), NameOf(spec, r));
    }
  }

  lemma {:induction false} OtherObjectAt(content: Content, content': Content, file: Obj, o: Obj)
    requires OtherObjects(content, content', file)
    ensures OfFile(file, o) || ContentAt(content', o) == ContentAt(content, o)
  {
  }

  /** More objects in the tree, more pages on flash: a flush. */
  lemma {:induction false} HeldAfterFlush(spec: Entries, g: Geo, typeOf: Obj -> nat, v: View, v': View,
                                          owner': map<nat, Owner>)
    requires Held(spec, v.content, g, typeOf, v.flash, v.tree.nodes) && v'.content == v.content
    requires v.tree.nodes.Keys <= v'.tree.nodes.Keys && StoredGrows(v.flash, v.tree.nodes, v'.flash, v'.tree.nodes)
    requires DeviceOk(g, typeOf, v'.buf, v'.flash, v'.tree, owner', v'.content)
    ensures Held(spec, v'.content, g, typeOf, v'.flash, v'.tree.nodes)
  {
    hide DeviceOk, FileRep, InTree, Typed, Laid, StoredGrows, HasInfo;
    forall r | IsFile(spec, r) ensures FileHeld(spec, v'.content, g, typeOf, v'.flash, v'.tree.nodes, r) {
      HeldFile(spec, v.content, g, typeOf, v.flash, v.tree.nodes, r);
      var o, bytes := NameOf(spec, r), spec[r].bytes;
      InTreeGrows(g, v.tree.nodes, v'.tree.nodes, o, |bytes|, o);
      StillLaid(g, typeOf, v.flash, v.tree.nodes, v'.buf, v'.flash, v'.tree, owner', v'.content, o, bytes, o);
    }
    forall r | r in spec && spec[r].DirEntry? ensures DirHeld(spec, typeOf, v'.tree.nodes, r) {
      assert DirHeld(spec, typeOf, v.tree.nodes, r);
    }
  }

  /** The types of the objects with a new directory or file of serial s. */
  function TypesWith(typeOf: Obj -> nat, o: Obj, isDir: bool): Obj -> nat {
    p => if p == o then (if isDir then DIR else FILE) else if !isDir && p.0 == o.1 && p.1 > 0 then DATA else typeOf(p)
  }

  /** Objects that change their type have no pages. */
  lemma {:induction false} NewSerialIsFree(spec: Entries, content: Content, g: Geo, typeOf: Obj -> nat,
                                           flash: Flash, nodes: map<Obj, nat>, parent: nat, s: nat, isDir: bool)
    requires Held(spec, content, g, typeOf, flash, nodes) && s !in spec && s > ROOT_DIR_SERIAL && IsDir(spec, parent) &&
             parent != s
    ensures ContentAt(content, (parent, s)) == [] && forall n: nat :: n > 0 ==> ContentAt(content, (s, n)) == []
    ensures forall o :: TypesWith(typeOf, (parent, s), isDir)(o) != typeOf(o) ==> ContentAt(content, o) == []
  {
    forall n: nat | n > 0 ensures ContentAt(content, (s, n)) == [] {
      assert !IsPart(spec, (s, n));
    }
    assert !IsPart(spec, (parent, s));
  }

  lemma {:induction false} NewTypes(typeOf: Obj -> nat, o: Obj, isDir: bool)
    requires o.0 != o.1
    ensures TypesWith(typeOf, o, isDir)(o) == (if isDir then DIR else FILE) &&
            (!isDir ==> Typed(TypesWith(typeOf, o, isDir), o))
  {
  }

  /** A new directory or file, with its page of attributes. */
  lemma {:induction false} HeldAfterCreate(spec: Entries, g: Geo, typeOf: Obj -> nat, v: View, v': View,
                                           owner': map<nat, Owner>, parent: nat, s: nat, isDir: bool,
                                           info: seq<Byte>, page: LPage)
    requires Held(spec, v.content, g, typeOf, v.flash, v.tree.nodes) && IsInfo(page, info)
    requires v.tree.nodes.Keys <= v'.tree.nodes.Keys && (parent, s) in v'.tree.nodes
    requires Onward(v.buf, v.flash, v.tree, v'.buf, v'.flash, v'.tree, {})
    requires s !in spec && ROOT_DIR_SERIAL < s < MAX_FSN && IsDir(spec, parent) && parent != s
    requires v'.content == v.content[(parent, s) := [page]]
    requires DeviceOk(g, TypesWith(typeOf, (parent, s), isDir), v'.buf, v'.flash, v'.tree, owner', v'.content)
    ensures Held(spec[s := NewEntry(parent, info, isDir)], v'.content, g, TypesWith(typeOf, (parent, s), isDir),
                 v'.flash, v'.tree.nodes)
  {
    hide DeviceOk, FileRep, InTree, Typed, OtherObjects, Laid, Within, Onward, TypesWith, IsInfo;
    var spec', o, types := spec[s := NewEntry(parent, info, isDir)], (parent, s), TypesWith(typeOf, (parent, s), isDir);
    NewSerialIsFree(spec, v.content, g, typeOf, v.flash, v.tree.nodes, parent, s, isDir);
    NewTypes(typeOf, o, isDir);
    OneNewObject(v.content, o, [page]);
    WithinStep(v, v', o, {});
    forall r | IsFile(spec', r) ensures FileHeld(spec', v'.content, g, types, v'.flash, v'.tree.nodes, r) {
      if r == s {
        EmptyFile(g, types, v.content, v'.content, o, page);
        NothingInTree(g, v'.tree.nodes, o);
        NoDataPages(v.content, v'.content, o, [page], types);
        LaidAlone(g, types, v'.buf, v'.flash, v'.tree, owner', v'.content, o);
      } else {
        HeldFile(spec, v.content, g, typeOf, v.flash, v.tree.nodes, r);
        OtherStaysTyped(spec, typeOf, o, isDir, r);
        OtherFileHeld(g, types, v, v', owner', o, NameOf(spec, r), spec[r].bytes);
      }
    }
    forall r | r in spec' && spec'[r].DirEntry? ensures DirHeld(spec', types, v'.tree.nodes, r) {
      if r != s {
        assert DirHeld(spec, typeOf, v.tree.nodes, r);
        OtherDirTyped(spec, typeOf, o, isDir, r);
      }
    }
    forall r | r in spec' ensures HasInfo(ContentAt(v'.content, NameOf(spec', r)), spec'[r].info) {
      if r != s {
        assert HasInfo(ContentAt(v.content, NameOf(spec, r)), spec[r].info);
      }
    }
    forall p: Obj | ContentAt(v'.content, p) != [] ensures IsPart(spec', p) {
      if p != o {
        assert ContentAt(v.content, p) != [] && IsPart(spec, p);
      }
    }
  }

  function NewEntry(parent: nat, info: seq<Byte>, isDir: bool): Entry {
    if isDir then DirEntry(parent, info) else FileEntry(parent, info, [])
  }

  lemma {:induction false} OneNewObject(content: Content, o: Obj, pages: seq<LPage>)
    requires ContentAt(content, o) == []
    ensures OtherObjects(content, content[o := pages], o)
  {
  }

  lemma {:induction false} OtherDirTyped(spec: Entries, typeOf: Obj -> nat, o: Obj, isDir: bool, r: nat)
    requires EntriesOk(spec) && o.1 !in spec && o.1 > 0 && r in spec
    ensures TypesWith(typeOf, o, isDir)(NameOf(spec, r)) == typeOf(NameOf(spec, r))
  {
  }

  lemma {:induction false} OtherStaysTyped(spec: Entries, typeOf: Obj -> nat, o: Obj, isDir: bool, r: nat)
    requires EntriesOk(spec) && o.1 !in spec && o.1 > 0 && IsDir(spec, o.0) && IsFile(spec, r) &&
             Typed(typeOf, NameOf(spec, r))
    ensures Apart(o, NameOf(spec, r)) && Typed(TypesWith(typeOf, o, isDir), NameOf(spec, r))
  {
  }

  // ----- the serials of data blocks

  /** A sequence of different numbers below n is no longer than n. */
  lemma {:induction false} Pigeonhole(s: seq<nat>, n: nat)
    requires NoDup(s) && forall i :: 0 <= i < |s| ==> s[i] < n
    ensures |s| <= n
    decreases n
  {
    if s != [] && s[0] < n {
      var t := Without(s, n - 1);
      WithoutKeepsNoDup(s, n - 1);
      hide NoDup, Without;
      forall i | 0 <= i < |t| ensures t[i] < n - 1 {
        assert t[i] in t;
        InBelow(s, n, t[i]);
      }
      Pigeonhole(t, n - 1);
    }
  }

  lemma {:induction false} InBelow(s: seq<nat>, n: nat, x: nat)
    requires x in s && forall i :: 0 <= i < |s| ==> s[i] < n
    ensures x < n
  {
  }

  /** The blocks of the head and of data blocks 1 to k of a file. */
  ghost function BlocksUpTo(nodes: map<Obj, nat>, file: Obj, k: nat): seq<nat>
    requires forall f: nat :: f <= k ==> BlockObj(file, f) in nodes
  {
    seq(k + 1, f requires 0 <= f <= k => nodes[BlockObj(file, f)])
  }

  /** Data block k of a file in the tree: there are k more blocks of the file, all different, so k is below the number
      of blocks of the device. */
  lemma {:induction false} SerialBelowBlocks(nodes: map<Obj, nat>, g: Geo, file: Obj, size: nat, k: nat, n: nat)
    requires InTree(g, nodes, file, size, file) && (k == 0 || GetStartOfDataBlock(g, k) < size)
    requires forall f: nat :: f > 0 ==> file != (file.1, f)
    requires forall o :: o in nodes ==> nodes[o] < n
    requires forall o, p :: o in nodes && p in nodes && o != p ==> nodes[o] != nodes[p]
    ensures k < n && BlockObj(file, k) in nodes
  {
    forall f: nat | f <= k ensures BlockObj(file, f) in nodes {
      if f > 0 {
        GeoFacts(g);
        NewBlockPage(g, file, f, 0);
        StartsGrow(g, f, k);
        InTreeAt(g, nodes, file, size, file, PageNumber(g, f, 0));
      }
    }
    var s := BlocksUpTo(nodes, file, k);
    forall i, j | 0 <= i < j < |s| ensures s[i] != s[j] {
      assert BlockObj(file, i) != BlockObj(file, j);
    }
    Pigeonhole(s, n);
  }

  lemma {:induction false} StartsGrow(g: Geo, f: nat, k: nat)
    requires 0 < f <= k
    ensures GetStartOfDataBlock(g, f) <= GetStartOfDataBlock(g, k)
  {
    MulMono(f - 1, k - 1, BlockBytes(g));
  }

  /** Every object in the tree is of the volume and has a serial that fits a tag, and no file outgrows its serials. */
  lemma {:induction false} SerialsFit(spec: Entries, g: Geo, typeOf: Obj -> nat, buf: BufSt, flash: Flash, tree: TreeSt,
                                      owner: map<nat, Owner>, content: Content)
    requires DeviceOk(g, typeOf, buf, flash, tree, owner, content) && Held(spec, content, g, typeOf, flash, tree.nodes)
    requires g.blocks <= SERIALS
    ensures forall o :: o in tree.nodes ==> IsPart(spec, o) && o.1 < SERIALS
    ensures forall s :: IsFile(spec, s) ==> |spec[s].bytes| <= GetStartOfDataBlock(g, SERIALS)
  {
    hide DeviceOk, FileRep, InTree, Typed, GetStartOfDataBlock;
    NodesDiffer(g, typeOf, buf, flash, tree, owner, content);
    forall o | o in tree.nodes ensures IsPart(spec, o) && o.1 < SERIALS {
      NodeHasPages(g, typeOf, buf, flash, tree, owner, content, o);
      assert IsPart(spec, o);
      if !(o.1 in spec && o == NameOf(spec, o.1)) {
        HeldFile(spec, content, g, typeOf, flash, tree.nodes, o.0);
        DataBlockHasBytes(content, g, NameOf(spec, o.0), spec[o.0].bytes, o.1);
        NotOwnData(content, g, NameOf(spec, o.0), spec[o.0].bytes);
        SerialBelowBlocks(tree.nodes, g, NameOf(spec, o.0), |spec[o.0].bytes|, o.1, g.blocks);
      }
    }
    forall s | IsFile(spec, s) ensures |spec[s].bytes| <= GetStartOfDataBlock(g, SERIALS) {
      HeldFile(spec, content, g, typeOf, flash, tree.nodes, s);
      if GetStartOfDataBlock(g, SERIALS) < |spec[s].bytes| {
        NotOwnData(content, g, NameOf(spec, s), spec[s].bytes);
        SerialBelowBlocks(tree.nodes, g, NameOf(spec, s), |spec[s].bytes|, SERIALS, g.blocks);
        assert false;
      }
    }
  }

  lemma {:induction false} NotOwnData(content: Content, g: Geo, file: Obj, bytes: seq<Byte>)
    requires FileRep(content, g, file, bytes)
    ensures forall f: nat :: f > 0 ==> file != (file.1, f)
  {
  }

  lemma {:induction false} NodesDiffer(g: Geo, typeOf: Obj -> nat, buf: BufSt, flash: Flash, tree: TreeSt,
                                       owner: map<nat, Owner>, content: Content)
    requires DeviceOk(g, typeOf, buf, flash, tree, owner, content)
    ensures forall o :: o in tree.nodes ==> tree.nodes[o] < g.blocks
    ensures forall o, p :: o in tree.nodes && p in tree.nodes && o != p ==> tree.nodes[o] != tree.nodes[p]
  {
    hide CacheOk, Coherent, ContentOk, BlockOk, BlockErased;
  }

  /** No byte of a file of the volume has an offset or a block serial beyond 32 or 14 bits. */
  lemma {:induction false} FileOffsetsFit(spec: Entries, g: Geo, typeOf: Obj -> nat, buf: BufSt, flash: Flash,
                                          tree: TreeSt, owner: map<nat, Owner>, content: Content, s: nat, ofs: nat)
    requires DeviceOk(g, typeOf, buf, flash, tree, owner, content) && Held(spec, content, g, typeOf, flash, tree.nodes)
    requires g.blocks <= SERIALS && IsFile(spec, s) && ofs < |spec[s].bytes|
    ensures GetFdnByOfs(g, ofs) <= MAX_FDN && ofs < 0x1_0000_0000
  {
    hide DeviceOk, Held, GetFdnByOfs, GetStartOfDataBlock;
    SerialsFit(spec, g, typeOf, buf, flash, tree, owner, content);
    var fdn := GetFdnByOfs(g, ofs);
    FdnIsBlockOfByte(g, ofs, fdn);
    if fdn > MAX_FDN {
      StartsGrow(g, SERIALS, fdn);
      assert false;
    }
    OffsetsFit(g, ofs);
  }

  // ----- what has been written out

  /** Object o is one that directory or file s consists of. */
  predicate PartOf(spec: Entries, s: nat, o: Obj)
    requires s in spec
  {
    if spec[s].FileEntry? then OfFile(NameOf(spec, s), o) else o == NameOf(spec, s)
  }

  /** Of these directories and files no page is in a dirty buffer. */
  ghost predicate AllSettled(spec: Entries, settled: set<nat>, pool: seq<Buf>) {
    forall s :: s in settled ==> s in spec && forall o :: o in DirtyObjs(pool) ==> !PartOf(spec, s, o)
  }

  /** No buffer has changed but dirty ones of directory or file s. */
  ghost predicate OnlyParts(spec: Entries, pool: seq<Buf>, pool': seq<Buf>, s: nat)
    requires s in spec
  {
    |pool'| == |pool| && forall i :: 0 <= i < |pool| && !PartOf(spec, s, ObjOf(pool[i])) ==> pool'[i] == pool[i]
  }

  lemma {:induction false} PartsOnly(spec: Entries, content: Content, g: Geo, typeOf: Obj -> nat, flash: Flash,
                                     nodes: map<Obj, nat>, pool: seq<Buf>, pool': seq<Buf>, pool'': seq<Buf>, s: nat)
    requires Held(spec, content, g, typeOf, flash, nodes) && s in spec
    requires forall o :: o in DirtyObjs(pool) ==> ContentAt(content, o) != []
    requires if IsFile(spec, s) then OnlyOfParent(pool, pool', s) else pool' == pool
    requires OnlyOfObj(pool', pool'', NameOf(spec, s))
    ensures OnlyParts(spec, pool, pool'', s)
  {
    hide FileHeld, DirHeld, HasInfo;
    assert forall i :: 0 <= i < |pool| && pool[i].mark == Dirty ==>
             ObjOf(pool[i]) in DirtyObjs(pool) && IsPart(spec, ObjOf(pool[i]));
  }

  lemma {:induction false} SettledLess(spec: Entries, settled: set<nat>, pool: seq<Buf>, settled': set<nat>,
                                       pool': seq<Buf>)
    requires AllSettled(spec, settled, pool) && settled' <= settled && DirtyObjs(pool') <= DirtyObjs(pool)
    ensures AllSettled(spec, settled', pool')
  {
    hide DirtyObjs, PartOf;
  }

  lemma {:induction false} SettledMore(spec: Entries, settled: set<nat>, pool: seq<Buf>, s: nat)
    requires AllSettled(spec, settled, pool) && s in spec
    requires NameOf(spec, s) !in DirtyObjs(pool)
    requires IsFile(spec, s) ==> forall o :: o in DirtyObjs(pool) ==> o.0 != s
    ensures AllSettled(spec, settled + {s}, pool)
  {
    hide DirtyObjs;
  }

  lemma {:induction false} EverySettled(spec: Entries, pool: seq<Buf>)
    requires forall i :: 0 <= i < |pool| ==> pool[i].mark != Dirty
    ensures AllSettled(spec, spec.Keys, pool)
  {
  }

  /** A write to file s leaves the others settled. */
  lemma {:induction false} SettledAfterWrite(spec: Entries, settled: set<nat>, v: View, v': View, s: nat,
                                             bytes: seq<Byte>)
    requires EntriesOk(spec) && IsFile(spec, s) && AllSettled(spec, settled, v.buf.pool)
    requires Within(v, v', NameOf(spec, s))
    ensures AllSettled(spec[s := FileEntry(spec[s].parent, spec[s].info, bytes)], settled - {s}, v'.buf.pool)
  {
    hide DirtyObjs, OtherObjects, StoredGrows;
    var spec' := spec[s := FileEntry(spec[s].parent, spec[s].info, bytes)];
    forall r, o | r in settled - {s} && o in DirtyObjs(v'.buf.pool) ensures !PartOf(spec', r, o) {
      assert !(PartOf(spec, r, o) && OfFile(NameOf(spec, s), o));
    }
  }

  /** A new directory or file is settled: its page is flushed at once. */
  lemma {:induction false} SettledAfterCreate(spec: Entries, settled: set<nat>, pool: seq<Buf>, pool': seq<Buf>,
                                              parent: nat, s: nat, isDir: bool, info: seq<Byte>)
    requires AllSettled(spec, settled, pool) && s !in spec && DirtyObjs(pool') <= DirtyObjs(pool)
    requires (parent, s) !in DirtyObjs(pool') && forall o :: o in DirtyObjs(pool') ==> o.0 != s || o.1 == 0
    ensures AllSettled(spec[s := NewEntry(parent, info, isDir)], settled + {s}, pool')
  {
    hide DirtyObjs;
    var spec' := spec[s := NewEntry(parent, info, isDir)];
    forall r, o | r in settled && o in DirtyObjs(pool') ensures r in spec' && !PartOf(spec', r, o) {
      assert r in spec && PartOf(spec', r, o) == PartOf(spec, r, o);
    }
  }

  /** Flash holds what a reader sees of these directories and files. */
  ghost predicate StoredAsSeen(spec: Entries, settled: set<nat>, content: Content, flash: Flash, nodes: map<Obj, nat>) {
    forall s, o: Obj :: s in settled && s in spec && PartOf(spec, s, o) ==>
      Stored(flash, nodes, o) == ContentAt(content, o)
  }

  lemma {:induction false} SettledOnFlash(spec: Entries, settled: set<nat>, g: Geo, typeOf: Obj -> nat, buf: BufSt,
                                          flash: Flash, tree: TreeSt, owner: map<nat, Owner>, content: Content)
    requires DeviceOk(g, typeOf, buf, flash, tree, owner, content) && AllSettled(spec, settled, buf.pool)
    ensures StoredAsSeen(spec, settled, content, flash, tree.nodes)
  {
    hide DeviceOk, DirtyObjs, Stored, PartOf;
    forall s, o: Obj | s in settled && s in spec && PartOf(spec, s, o)
      ensures Stored(flash, tree.nodes, o) == ContentAt(content, o)
    {
      CleanIsStored(g, typeOf, buf, flash, tree, owner, content, o);
    }
  }

  /** Dirty objects have pages. */
  lemma {:induction false} DirtyHavePages(g: Geo, typeOf: Obj -> nat, buf: BufSt, flash: Flash, tree: TreeSt,
                                          owner: map<nat, Owner>, content: Content)
    requires DeviceOk(g, typeOf, buf, flash, tree, owner, content)
    ensures forall o :: o in DirtyObjs(buf.pool) ==> ContentAt(content, o) != []
  {
    hide DeviceOk;
    forall i | 0 <= i < |buf.pool| && buf.pool[i].mark == Dirty ensures ContentAt(content, ObjOf(buf.pool[i])) != [] {
      LiveBufferShows(g, typeOf, content, buf, flash, tree, owner, ObjOf(buf.pool[i]), i);
    }
  }

  // ----- how full a volume is

  /** The objects directories and files consist of, each on a block of its own: heads, and data blocks with bytes. */
  ghost function Parts(spec: Entries, g: Geo): set<Obj> {
    (set s | s in spec :: NameOf(spec, s)) +
    (set s, k: nat | s in spec && 0 < k < g.blocks && HasDataBlock(spec, g, s, k) :: (s, k))
  }

  ghost predicate HasDataBlock(spec: Entries, g: Geo, s: nat, k: nat) {
    IsFile(spec, s) && GetStartOfDataBlock(g, k) < |spec[s].bytes|
  }

  /** The objects in the tree are those parts. */
  lemma {:induction false} PartsAreNodes(spec: Entries, g: Geo, typeOf: Obj -> nat, buf: BufSt, flash: Flash,
                                         tree: TreeSt, owner: map<nat, Owner>, content: Content)
    requires DeviceOk(g, typeOf, buf, flash, tree, owner, content) && Held(spec, content, g, typeOf, flash, tree.nodes)
    ensures tree.nodes.Keys == Parts(spec, g)
  {
    hide DeviceOk, FileRep, InTree, Typed, GetStartOfDataBlock;
    NodesDiffer(g, typeOf, buf, flash, tree, owner, content);
    forall o | o in tree.nodes ensures o in Parts(spec, g) {
      NodeHasPages(g, typeOf, buf, flash, tree, owner, content, o);
      assert IsPart(spec, o);
      if !(o.1 in spec && o == NameOf(spec, o.1)) {
        HeldFile(spec, content, g, typeOf, flash, tree.nodes, o.0);
        DataBlockHasBytes(content, g, NameOf(spec, o.0), spec[o.0].bytes, o.1);
        NotOwnData(content, g, NameOf(spec, o.0), spec[o.0].bytes);
        SerialBelowBlocks(tree.nodes, g, NameOf(spec, o.0), |spec[o.0].bytes|, o.1, g.blocks);
        assert HasDataBlock(spec, g, o.0, o.1);
      }
    }
    forall s | s in spec ensures NameOf(spec, s) in tree.nodes {
      HeadInTree(spec, content, g, typeOf, flash, tree.nodes, s);
    }
    forall s, k: nat | s in spec && 0 < k < g.blocks && HasDataBlock(spec, g, s, k) ensures (s, k) in tree.nodes {
      HeldFile(spec, content, g, typeOf, flash, tree.nodes, s);
      NotOwnData(content, g, NameOf(spec, s), spec[s].bytes);
      SerialBelowBlocks(tree.nodes, g, NameOf(spec, s), |spec[s].bytes|, k, g.blocks);
    }
  }

  ghost function InSeq(s: seq<nat>): set<nat> {
    set x | x in s
  }

  ghost function Image(m: map<Obj, nat>, keys: set<Obj>): set<nat>
    requires keys <= m.Keys
  {
    set o | o in keys :: m[o]
  }

  lemma {:induction false} SetOfSeq(s: seq<nat>)
    requires NoDup(s)
    ensures |InSeq(s)| == |s|
  {
    if s != [] {
      SetOfSeq(s[1..]);
      assert s[0] !in s[1..];
      assert InSeq(s) == InSeq(s[1..]) + {s[0]};
    }
  }

  lemma {:induction false} ImageSize(m: map<Obj, nat>, keys: set<Obj>)
    requires keys <= m.Keys && forall o, p :: o in m && p in m && o != p ==> m[o] != m[p]
    ensures |Image(m, keys)| == |keys|
  {
    if keys != {} {
      var k :| k in keys;
      ImageSize(m, keys - {k});
      assert Image(m, keys) == Image(m, keys - {k}) + {m[k]};
    }
  }

  lemma {:induction false} KeysBelow(keys: set<nat>, n: nat)
    requires forall b: nat :: b in keys <==> b < n
    ensures |keys| == n
  {
    if n > 0 {
      KeysBelow(keys - {n - 1}, n - 1);
    }
  }

  lemma {:induction false} BlocksSplit(flash: Flash, tree: TreeSt, owner: map<nat, Owner>, g: Geo, typeOf: Obj -> nat)
    requires StoreOk(flash, tree, owner, g, typeOf) && NothingTaken(owner)
    ensures NoDup(tree.erased) && NoDup(tree.bad) && forall b: nat :: b in flash.Keys <==> b < g.blocks
    ensures flash.Keys == InSeq(tree.erased) + InSeq(tree.bad) + Image(tree.nodes, tree.nodes.Keys)
    ensures InSeq(tree.erased) !! InSeq(tree.bad) &&
            (InSeq(tree.erased) + InSeq(tree.bad)) !! Image(tree.nodes, tree.nodes.Keys)
  {
    hide BlockOk, BlockErased, NoDup;
    forall b | b in flash.Keys ensures b in InSeq(tree.erased) + InSeq(tree.bad) + Image(tree.nodes, tree.nodes.Keys) {
      assert b in owner;
      assert owner[b].InNode? ==> owner[b].o in tree.nodes.Keys;
    }
    assert forall b :: b in InSeq(tree.erased) ==> b in owner && owner[b] == InErased;
    assert forall b :: b in InSeq(tree.bad) ==> b in owner && owner[b] == InBad;
  }

  /** Every block of the device is an object's, or erased, or bad. */
  lemma {:induction false} BlocksCounted(g: Geo, typeOf: Obj -> nat, buf: BufSt, flash: Flash, tree: TreeSt,
                                         owner: map<nat, Owner>, content: Content)
    requires DeviceOk(g, typeOf, buf, flash, tree, owner, content)
    ensures |tree.erased| + |tree.bad| + |tree.nodes.Keys| == g.blocks
  {
    hide CacheOk, StoreOk, Coherent, ContentOk, NothingTaken, NoDup;
    NodesDiffer(g, typeOf, buf, flash, tree, owner, content);
    BlocksSplit(flash, tree, owner, g, typeOf);
    SetOfSeq(tree.erased);
    SetOfSeq(tree.bad);
    ImageSize(tree.nodes, tree.nodes.Keys);
    KeysBelow(flash.Keys, g.blocks);
  }

  // ----- the tree as a mount needs it

  ghost function BytesOfFiles(spec: Entries): (files: map<Obj, seq<Byte>>)
    requires EntriesOk(spec)
    ensures forall o :: o in files <==> IsFile(spec, o.1) && o == NameOf(spec, o.1)
    ensures forall o :: o in files ==> IsFile(spec, o.1) && files[o] == spec[o.1].bytes
  {
    map s | s in spec && spec[s].FileEntry? :: NameOf(spec, s) := spec[s].bytes
  }

  /** Type of a part of the volume. */
  lemma {:induction false} PartType(spec: Entries, content: Content, g: Geo, typeOf: Obj -> nat, flash: Flash,
                                    nodes: map<Obj, nat>, o: Obj)
    requires Held(spec, content, g, typeOf, flash, nodes) && IsPart(spec, o)
    ensures if o.1 in spec && o == NameOf(spec, o.1) then typeOf(o) == (if spec[o.1].DirEntry? then DIR else FILE)
            else IsFile(spec, o.0) && typeOf(o) == DATA
  {
    hide FileRep, InTree;
    if o.1 in spec && o == NameOf(spec, o.1) {
      if spec[o.1].FileEntry? {
        HeldFile(spec, content, g, typeOf, flash, nodes, o.1);
      } else {
        assert DirHeld(spec, typeOf, nodes, o.1);
      }
    } else {
      HeldFile(spec, content, g, typeOf, flash, nodes, o.0);
    }
  }

  lemma {:induction false} HeadInTree(spec: Entries, content: Content, g: Geo, typeOf: Obj -> nat, flash: Flash,
                                      nodes: map<Obj, nat>, s: nat)
    requires Held(spec, content, g, typeOf, flash, nodes) && s in spec
    ensures NameOf(spec, s) in nodes && typeOf(NameOf(spec, s)) == if spec[s].DirEntry? then DIR else FILE
  {
    hide FileRep;
    if spec[s].FileEntry? {
      HeldFile(spec, content, g, typeOf, flash, nodes, s);
    } else {
      assert DirHeld(spec, typeOf, nodes, s);
    }
  }

  /** The tree tells its objects apart, data blocks have their files, and files are held with their bytes. */
  lemma {:induction false} TreeOfVolume(spec: Entries, g: Geo, typeOf: Obj -> nat, buf: BufSt, flash: Flash,
                                        tree: TreeSt, owner: map<nat, Owner>, content: Content)
    requires DeviceOk(g, typeOf, buf, flash, tree, owner, content) && Held(spec, content, g, typeOf, flash, tree.nodes)
    requires g.blocks <= SERIALS
    ensures KeysDistinct(tree.nodes, typeOf) && forall o :: o in tree.nodes ==> o.1 < SERIALS
    ensures DataHaveFiles(tree.nodes, typeOf) && KindsOk(spec, tree.nodes, typeOf)
    ensures EntriesOk(spec) && FilesHeld(content, tree.nodes, typeOf, g, BytesOfFiles(spec))
  {
    hide DeviceOk, FileHeld, DirHeld, FileRep, InTree, Typed, GetStartOfDataBlock;
    SerialsFit(spec, g, typeOf, buf, flash, tree, owner, content);
    forall o | o in tree.nodes
      ensures if o.1 in spec && o == NameOf(spec, o.1) then typeOf(o) == (if spec[o.1].DirEntry? then DIR else FILE)
              else IsFile(spec, o.0) && typeOf(o) == DATA && o.1 > 0
    {
      PartType(spec, content, g, typeOf, flash, tree.nodes, o);
    }
    forall s | s in spec
      ensures NameOf(spec, s) in tree.nodes && typeOf(NameOf(spec, s)) == (if spec[s].DirEntry? then DIR else FILE)
    {
      HeadInTree(spec, content, g, typeOf, flash, tree.nodes, s);
    }
    hide Held;
    AllHaveFiles(spec, tree.nodes, typeOf);
    FilesOfVolume(spec, content, g, typeOf, flash, tree.nodes);
  }

  /** Objects of a volume by kind. */
  ghost predicate KindsOk(spec: Entries, nodes: map<Obj, nat>, typeOf: Obj -> nat) {
    && (forall o :: o in nodes ==>
          if o.1 in spec && o == NameOf(spec, o.1) then typeOf(o) == (if spec[o.1].DirEntry? then DIR else FILE)
          else IsFile(spec, o.0) && typeOf(o) == DATA && o.1 > 0)
    && (forall s :: s in spec ==>
          NameOf(spec, s) in nodes && typeOf(NameOf(spec, s)) == (if spec[s].DirEntry? then DIR else FILE))
  }

  lemma {:induction false} AllHaveFiles(spec: Entries, nodes: map<Obj, nat>, typeOf: Obj -> nat)
    requires EntriesOk(spec) && KindsOk(spec, nodes, typeOf)
    ensures KeysDistinct(nodes, typeOf) && DataHaveFiles(nodes, typeOf)
  {
    forall p | p in nodes && typeOf(p) == DATA ensures exists o :: FileOf(nodes, typeOf, o, p) {
      assert FileOf(nodes, typeOf, NameOf(spec, p.0), p);
    }
  }

  lemma {:induction false} NoBlockZero(spec: Entries, content: Content, g: Geo, typeOf: Obj -> nat, flash: Flash,
                                       nodes: map<Obj, nat>, s: nat)
    requires Held(spec, content, g, typeOf, flash, nodes) && IsFile(spec, s)
    ensures ContentAt(content, (s, 0)) == []
  {
    hide FileHeld, DirHeld, HasInfo;
    assert !IsPart(spec, (s, 0));
  }

  lemma {:induction false} FilesOfVolume(spec: Entries, content: Content, g: Geo, typeOf: Obj -> nat,
                                         flash: Flash, nodes: map<Obj, nat>)
    requires EntriesOk(spec) && KindsOk(spec, nodes, typeOf) && Held(spec, content, g, typeOf, flash, nodes)
    requires forall s :: IsFile(spec, s) ==> |spec[s].bytes| <= GetStartOfDataBlock(g, SERIALS)
    ensures FilesHeld(content, nodes, typeOf, g, BytesOfFiles(spec))
  {
    hide FileRep, InTree, Typed, Laid, GetStartOfDataBlock, Held, FileHeld, ContentAt;
    var files := BytesOfFiles(spec);
    forall o | o in files ensures FileRep(content, g, o, files[o]) && ContentAt(content, (o.1, 0)) == [] {
      HeldFile(spec, content, g, typeOf, flash, nodes, o.1);
      NoBlockZero(spec, content, g, typeOf, flash, nodes, o.1);
    }
    forall p | p in nodes && typeOf(p) == DATA ensures exists o :: OwnerOf(nodes, typeOf, o, p) {
      assert OwnerOf(nodes, typeOf, NameOf(spec, p.0), p);
    }
  }
}

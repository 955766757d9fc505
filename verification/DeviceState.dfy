/** The state of a mounted device as values: the pool of page buffers with its LRU list and dirty
    groups, the flash, and the tree that says which block holds which object; and the invariants
    that tie them together. */
module DeviceState {
  import opened Chains
  import opened FlashModel
  import opened BlockLog
  import opened LogicalBlock

  /** An object's block is named by the serial of its parent and its own serial. */
  type Obj = (nat, nat)

  /** Pages in a block, data bytes in a page, blocks of the device. */
  datatype Geometry = Geometry(pages: nat, pageSize: nat, blocks: nat)

  /** Page ids have 6 bits and data lengths 12. */
  predicate GeometryOk(g: Geometry) {
    2 <= g.pages <= MAX_PAGE_ID + 1 && 0 < g.pageSize <= MAX_LEN
  }

  type Geo = g: Geometry | GeometryOk(g) witness Geometry(2, 1, 0)

  lemma GeoFacts(g: Geo)
    ensures 2 <= g.pages <= MAX_PAGE_ID + 1 < INVALID_PAGE && 0 < g.pageSize <= MAX_LEN
  {
  }

  // ----- blocks in use

  function MakePage(ty: nat, o: Obj, ts: nat, id: nat, p: LPage): Page {
    Page(Tag(true, true, true, ty, ts, p.len, o.1, o.0, id), true, p.data)
  }

  predicate PageOk(p: Page, g: Geometry, ty: nat, o: Obj, ts: nat) {
    p == MakePage(ty, o, ts, p.tag.pageId, ContentOf(p)) && LPageOk(ContentOf(p), g)
  }

  predicate LPageOk(p: LPage, g: Geometry) {
    0 < p.len <= g.pageSize == |p.data|
  }

  function Used(b: Block): (k: nat)
    ensures k <= |b|
    ensures forall i :: k <= i < |b| ==> !TagIsGood(b[i].tag)
  {
    AfterLastGood(TagsOf(b))
  }

  /** A block of object o: a log of pages of that object with one time stamp, then erased pages. */
  ghost predicate BlockOk(b: Block, g: Geometry, ty: nat, o: Obj) {
    && |b| == g.pages && LogInv(TagsOf(b))
    && 0 < Used(b) && b[0].tag.ts < 3
    && (forall i :: 0 <= i < Used(b) ==> PageOk(b[i], g, ty, o, b[0].tag.ts))
    && (forall i :: Used(b) <= i < |b| ==> b[i] == ErasedPage(g.pageSize))
  }

  ghost predicate BlockErased(b: Block, g: Geometry) {
    |b| == g.pages && forall i :: 0 <= i < |b| ==> b[i] == ErasedPage(g.pageSize)
  }

  lemma {:induction false} UsedIs(b: Block, k: nat)
    requires k <= |b| && (k > 0 ==> TagIsGood(b[k - 1].tag))
    requires forall i :: k <= i < |b| ==> !TagIsGood(b[i].tag)
    ensures Used(b) == k
  {
    AfterLastGoodAt(TagsOf(b), k);
  }

  lemma {:induction false} ErasedMeansNothing(b: Block, g: Geometry)
    requires BlockErased(b, g)
    ensures LogInv(TagsOf(b)) && OneObject(TagsOf(b)) && Logical(b) == []
    ensures b != [] ==> !TagIsDirty(b[0].tag)
  {
    BlankSuffix(TagsOf(b), 0, 0);
  }

  /** Appending a page of the object to a block with free pages. */
  lemma {:induction false} AppendKeepsBlockOk(b: Block, g: Geometry, ty: nat, o: Obj, id: nat, p: LPage)
    requires BlockOk(b, g, ty, o) && Used(b) < |b| && id <= |Logical(b)| && LPageOk(p, g)
    ensures var b' := b[Used(b) := MakePage(ty, o, b[0].tag.ts, id, p)];
            BlockOk(b', g, ty, o) && Used(b') == Used(b) + 1 && b'[0] == b[0] && Logical(b') == Put(Logical(b), id, p)
  {
    var page := MakePage(ty, o, b[0].tag.ts, id, p);
    AppendedPage(b, Used(b), page);
    UsedIs(b[Used(b) := page], Used(b) + 1);
  }

  /** A block written page by page in the order of the ids. */
  function BlockOf(g: Geometry, ty: nat, o: Obj, ts: nat, pages: seq<LPage>): (b: Block)
    ensures |b| == g.pages
    ensures forall j :: 0 <= j < |b| ==>
              b[j] == if j < |pages| then MakePage(ty, o, ts, j, pages[j]) else ErasedPage(g.pageSize)
  {
    seq(g.pages, j requires 0 <= j => if j < |pages| then MakePage(ty, o, ts, j, pages[j]) else ErasedPage(g.pageSize))
  }

  lemma {:induction false} BlockOfIsOk(g: Geometry, ty: nat, o: Obj, ts: nat, pages: seq<LPage>)
    requires 0 < |pages| <= g.pages && ts < 3
    requires forall j :: 0 <= j < |pages| ==> LPageOk(pages[j], g)
    ensures var b := BlockOf(g, ty, o, ts, pages); BlockOk(b, g, ty, o) && Logical(b) == pages && b[0].tag.ts == ts
  {
    var b := BlockOf(g, ty, o, ts, pages);
    PagesInOrder(b, |pages|);
    UsedIs(b, |pages|);
  }

  lemma {:induction false} BlockOfStep(g: Geometry, ty: nat, o: Obj, ts: nat, pages: seq<LPage>, p: LPage)
    requires |pages| < g.pages
    ensures BlockOf(g, ty, o, ts, pages)[|pages| := MakePage(ty, o, ts, |pages|, p)] ==
            BlockOf(g, ty, o, ts, pages + [p])
  {
  }

  // ----- page buffers

  datatype Mark = Empty | Valid | Dirty

  datatype Buf = Buf(ty: nat, parent: nat, serial: nat, pageId: nat, mark: Mark, refCount: nat,
                     dataLen: nat, data: seq<Byte>, truncTail: bool)

  /** A group of dirty buffers of one object; the head of the list was linked last. */
  datatype Group = Group(dirty: seq<nat>, count: nat, lock: nat)

  datatype BufSt = BufSt(pool: seq<Buf>, lru: seq<nat>, groups: seq<Group>)

  function ObjOf(b: Buf): Obj {
    (b.parent, b.serial)
  }

  function PageOf(b: Buf): LPage {
    LPage(b.data, b.dataLen)
  }

  predicate Live(b: Buf) {
    b.mark != Empty
  }

  predicate HasKey(b: Buf, o: Obj, id: nat) {
    Live(b) && ObjOf(b) == o && b.pageId == id
  }

  predicate IsDirtyOf(b: Buf, o: Obj, id: nat) {
    b.mark == Dirty && ObjOf(b) == o && b.pageId == id
  }

  ghost predicate PoolOk(pool: seq<Buf>, g: Geometry, typeOf: Obj -> nat) {
    && (forall i :: 0 <= i < |pool| ==> !pool[i].truncTail)
    && (forall i :: 0 <= i < |pool| ==> |pool[i].data| == g.pageSize && pool[i].dataLen <= g.pageSize)
    && (forall i :: 0 <= i < |pool| && Live(pool[i]) ==>
          pool[i].ty == typeOf(ObjOf(pool[i])) && pool[i].pageId < g.pages)
  }

  ghost predicate DistinctKeys(pool: seq<Buf>) {
    forall i, j :: 0 <= i < j < |pool| && Live(pool[i]) && Live(pool[j]) ==>
      ObjOf(pool[i]) != ObjOf(pool[j]) || pool[i].pageId != pool[j].pageId
  }

  /** The LRU list holds every buffer of the pool once. */
  ghost predicate LruOk(lru: seq<nat>, size: nat) {
    && (forall k :: 0 <= k < |lru| ==> lru[k] < size)
    && (forall i :: 0 <= i < size ==> i in lru)
    && NoDup(lru)
  }

  function Without(s: seq<nat>, x: nat): (t: seq<nat>)
    ensures forall y :: y in t <==> y in s && y != x
    ensures x !in s ==> t == s
    ensures |t| <= |s|
  {
    if s == [] then []
    else if s[0] == x then Without(s[1..], x)
    else [s[0]] + Without(s[1..], x)
  }

  lemma {:induction false} WithoutKeepsNoDup(s: seq<nat>, x: nat)
    requires NoDup(s)
    ensures NoDup(Without(s, x)) && |Without(s, x)| == |s| - (if x in s then 1 else 0)
  {
    if s != [] {
      WithoutKeepsNoDup(s[1..], x);
      assert s[0] !in s[1..];
      assert s[0] !in Without(s[1..], x);
    }
  }

  lemma {:induction false} MoveToHeadKeepsLruOk(lru: seq<nat>, size: nat, i: nat)
    requires LruOk(lru, size) && i < size
    ensures LruOk([i] + Without(lru, i), size)
  {
    WithoutKeepsNoDup(lru, i);
    var t := Without(lru, i);
    forall k | 0 <= k < |t| ensures t[k] in lru && t[k] != i {
      assert t[k] in t;
    }
  }

  /** Each group lists distinct dirty buffers of one object and counts them; no two groups share an
      object; every dirty buffer is listed. */
  ghost predicate GroupOk(buf: BufSt, s: nat)
    requires s < |buf.groups|
  {
    var list := buf.groups[s].dirty;
    && buf.groups[s].count == |list|
    && (forall x :: 0 <= x < |list| ==>
          list[x] < |buf.pool| && buf.pool[list[x]].mark == Dirty)
    && (forall x :: 0 <= x < |list| ==> ObjOf(buf.pool[list[x]]) == ObjOf(buf.pool[list[0]]))
    && NoDup(list)
  }

  ghost predicate GroupsOk(buf: BufSt) {
    && (forall s :: 0 <= s < |buf.groups| ==> GroupOk(buf, s))
    && (forall s, t :: 0 <= s < t < |buf.groups| && buf.groups[s].dirty != [] && buf.groups[t].dirty != [] ==>
          GroupObj(buf, s) != GroupObj(buf, t))
    && (forall i :: 0 <= i < |buf.pool| && buf.pool[i].mark == Dirty ==>
          exists s :: 0 <= s < |buf.groups| && i in buf.groups[s].dirty)
  }

  ghost function GroupObj(buf: BufSt, s: nat): Obj
    requires s < |buf.groups| && GroupOk(buf, s) && buf.groups[s].dirty != []
  {
    ObjOf(buf.pool[buf.groups[s].dirty[0]])
  }

  ghost predicate CacheOk(buf: BufSt, g: Geometry, typeOf: Obj -> nat) {
    PoolOk(buf.pool, g, typeOf) && DistinctKeys(buf.pool) && LruOk(buf.lru, |buf.pool|) && GroupsOk(buf)
  }

  // ----- dirty pages of an object

  function DirtyIdx(pool: seq<Buf>, o: Obj, id: nat): (i: int)
    ensures -1 <= i < |pool|
    ensures i >= 0 ==> IsDirtyOf(pool[i], o, id)
    ensures i < 0 ==> forall j :: 0 <= j < |pool| ==> !IsDirtyOf(pool[j], o, id)
  {
    if pool == [] then -1
    else if IsDirtyOf(pool[|pool| - 1], o, id) then |pool| - 1
    else DirtyIdx(pool[..|pool| - 1], o, id)
  }

  function DPageOf(b: Buf): DPage {
    DPage(PageOf(b), b.truncTail)
  }

  function DirtyMap(pool: seq<Buf>, o: Obj, n: nat): map<nat, DPage> {
    map id: nat | id < n && DirtyIdx(pool, o, id) >= 0 :: DPageOf(pool[DirtyIdx(pool, o, id)])
  }

  lemma {:induction false} DirtyMapAt(pool: seq<Buf>, o: Obj, n: nat, i: nat)
    requires DistinctKeys(pool) && i < |pool| && IsDirtyOf(pool[i], o, pool[i].pageId) && pool[i].pageId < n
    ensures pool[i].pageId in DirtyMap(pool, o, n) && DirtyMap(pool, o, n)[pool[i].pageId] == DPageOf(pool[i])
  {
    assert DirtyIdx(pool, o, pool[i].pageId) == i;
  }

  /** Two pools with the same dirty buffers of an object have the same dirty pages of it. */
  lemma {:induction false} SameDirtyMap(pool: seq<Buf>, pool': seq<Buf>, o: Obj, n: nat)
    requires |pool| == |pool'| && DistinctKeys(pool) && DistinctKeys(pool')
    requires forall i :: 0 <= i < |pool| ==>
             (pool[i].mark == Dirty && ObjOf(pool[i]) == o <==> pool'[i].mark == Dirty && ObjOf(pool'[i]) == o)
    requires forall i :: 0 <= i < |pool| && pool[i].mark == Dirty && ObjOf(pool[i]) == o ==>
               pool[i].pageId == pool'[i].pageId && DPageOf(pool[i]) == DPageOf(pool'[i])
    ensures DirtyMap(pool, o, n) == DirtyMap(pool', o, n)
  {
    forall id: nat | id < n
      ensures DirtyIdx(pool, o, id) == DirtyIdx(pool', o, id)
    {
      var i, j := DirtyIdx(pool, o, id), DirtyIdx(pool', o, id);
      if i >= 0 {
        assert IsDirtyOf(pool'[i], o, id);
      }
      if j >= 0 {
        assert IsDirtyOf(pool[j], o, id);
      }
    }
  }

  // ----- blocks and their owners

  /** The tree: the block of every object, the erased blocks in the order of their use, the bad blocks. */
  datatype TreeSt = TreeSt(nodes: map<Obj, nat>, erased: seq<nat>, bad: seq<nat>)

  type Flash = map<nat, Block>

  function Marked(tree: TreeSt): set<nat> {
    set b | b in tree.bad
  }

  lemma {:induction false} OneMoreMarked(tree: TreeSt, b: nat)
    ensures Marked(tree.(bad := [b] + tree.bad)) == Marked(tree) + {b}
  {
  }

  lemma {:induction false} SameMarked(tree: TreeSt, tree': TreeSt)
    requires tree'.bad == tree.bad
    ensures Marked(tree') == Marked(tree)
  {
  }

  /** What a power cut leaves: the blocks, and which of them are marked bad. */
  datatype Snapshot = Snapshot(flash: Flash, marked: set<nat>)

  /** Where a block is; Taken while an operation holds it in its hands. */
  datatype Owner = InErased | InBad | InNode(o: Obj) | Taken

  ghost predicate ErasedListOk(flash: Flash, tree: TreeSt, owner: map<nat, Owner>, g: Geometry) {
    && NoDup(tree.erased)
    && (forall b :: b in tree.erased ==> b in flash && BlockErased(flash[b], g))
    && (forall b :: b in owner ==> (owner[b] == InErased <==> b in tree.erased))
  }

  ghost predicate BadListOk(flash: Flash, tree: TreeSt, owner: map<nat, Owner>) {
    && NoDup(tree.bad)
    && (forall b :: b in tree.bad ==> b in flash)
    && (forall b :: b in owner ==> (owner[b] == InBad <==> b in tree.bad))
  }

  ghost predicate NodesOk(flash: Flash, tree: TreeSt, owner: map<nat, Owner>, g: Geometry, typeOf: Obj -> nat) {
    && (forall o :: o in tree.nodes ==>
          tree.nodes[o] in flash && tree.nodes[o] in owner && owner[tree.nodes[o]] == InNode(o) &&
          BlockOk(flash[tree.nodes[o]], g, typeOf(o), o))
    && (forall b :: b in owner && owner[b].InNode? ==> owner[b].o in tree.nodes && tree.nodes[owner[b].o] == b)
  }

  /** The blocks of the device are numbered from 0 and have all their pages. */
  ghost predicate BlocksOk(flash: Flash, g: Geometry) {
    && (forall b: nat :: b in flash <==> b < g.blocks)
    && (forall b :: b in flash ==> |flash[b]| == g.pages)
  }

  /** Every block has one owner: an object of the tree, the erased list or the bad list. */
  ghost predicate StoreOk(flash: Flash, tree: TreeSt, owner: map<nat, Owner>, g: Geometry, typeOf: Obj -> nat) {
    && owner.Keys == flash.Keys && BlocksOk(flash, g)
    && ErasedListOk(flash, tree, owner, g) && BadListOk(flash, tree, owner) && NodesOk(flash, tree, owner, g, typeOf)
  }

  /** The pages flash holds for an object. */
  function Stored(flash: Flash, nodes: map<Obj, nat>, o: Obj): seq<LPage> {
    if o in nodes && nodes[o] in flash then Logical(flash[nodes[o]]) else []
  }

  // ----- buffers and flash together

  /** A valid buffer holds what flash holds. */
  ghost predicate Coherent(pool: seq<Buf>, flash: Flash, nodes: map<Obj, nat>) {
    forall i :: 0 <= i < |pool| && pool[i].mark == Valid ==>
      pool[i].pageId < |Stored(flash, nodes, ObjOf(pool[i]))| &&
      Stored(flash, nodes, ObjOf(pool[i]))[pool[i].pageId] == PageOf(pool[i])
  }

  type Content = map<Obj, seq<LPage>>

  function ContentAt(content: Content, o: Obj): seq<LPage> {
    if o in content then content[o] else []
  }

  /** The pages of an object, as a user of the buffers sees them: the dirty ones over those on flash. */
  ghost predicate ContentOk(content: Content, pool: seq<Buf>, flash: Flash, nodes: map<Obj, nat>, g: Geometry) {
    forall o: Obj ::
      Extends(Stored(flash, nodes, o), DirtyMap(pool, o, g.pages), g.pages) &&
      ContentAt(content, o) == Merge(Stored(flash, nodes, o), DirtyMap(pool, o, g.pages), 0, g.pages)
  }
}

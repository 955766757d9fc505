/** A mount after a power cut finds every object; for an object that was being flushed by a merge it finds the old
    pages until the old block is erased, and the new pages from then on. */
module CrashSafety {
  import opened FlashModel
  import opened BlockLog
  import opened LogicalBlock
  import opened DeviceState
  import opened FlushSteps
  import opened CopySteps
  import opened MountModel
  import opened MountSteps
  import opened Mounting

  function ObjKey(ty: nat, o: Obj): Key {
    KeyOf(ty, o.0, o.1)
  }

  // ----- what the scan makes of the blocks a run leaves behind

  lemma {:induction false} CleanTail(b: Block, used: nat, page: nat)
    requires page < |b| && used <= |b|
    requires forall i :: 0 <= i < used ==> b[i].tag.sealed
    requires forall i :: used <= i < |b| ==> !Unclean(b[i])
    ensures !NeedsCleanup(b, page)
  {
    if page > 0 && !b[page].tag.sealed {
      CleanTail(b, used, page - 1);
    }
  }

  /** A block in use is taken for the block of its object. */
  lemma {:induction false} BlockInUse(b: Block, g: Geo, ty: nat, o: Obj, room: bool)
    requires BlockOk(b, g, ty, o)
    ensures |b| == g.pages >= 2 && VerdictOf(b, room) == Claim(ObjKey(ty, o)) && HasHead(b) && b[0].tag.ts < 3
  {
    assert PageOk(b[0], g, ty, o, b[0].tag.ts);
    forall i | 0 <= i < Used(b) ensures b[i].tag.sealed {
      assert PageOk(b[i], g, ty, o, b[0].tag.ts);
    }
    CleanTail(b, Used(b), |b| - 1);
    TopIsBound(TagsOf(b));
    assert TagsOf(b)[0] == b[0].tag;
    IdsAreThoseBelowTop(TagsOf(b), 0);
  }

  lemma {:induction false} BlockNotInUse(b: Block, g: Geo, room: bool)
    requires BlockErased(b, g)
    ensures |b| == g.pages >= 2 && VerdictOf(b, room) == Blank
  {
  }

  /** A copy cut off somewhere is erased, or noted for clean-up, or taken for a block of the object with the new time
      stamp. */
  lemma {:induction false} CutBlockVerdict(b: Block, g: Geo, ty: nat, o: Obj, ts: nat, pages: seq<LPage>, room: bool)
    requires CutBlock(b, g, ty, o, ts, pages)
    ensures |b| == g.pages >= 2 && VerdictOf(b, room) != Impossible
    ensures VerdictOf(b, room).Claim? ==> VerdictOf(b, room).key == ObjKey(ty, o) && b[0].tag.ts == ts
  {
    hide NeedsCleanup;
    var j: nat :| j <= |pages| && CutAt(b, g, ty, o, ts, pages, j);
    if j > 0 {
      assert b[0] == MakePage(ty, o, ts, 0, pages[0]);
    }
  }

  // ----- what a mount finds

  /** The blocks of the device, in the order of the scan. */
  function BlocksOf(flash: Flash, n: nat): (blocks: Blocks)
    requires forall b: nat :: b < n ==> b in flash
    ensures |blocks| == n && forall b :: 0 <= b < n ==> blocks[b] == flash[b]
  {
    seq(n, b requires 0 <= b < n => flash[b])
  }

  /** The tree tells the objects apart. */
  ghost predicate KeysDistinct(nodes: map<Obj, nat>, typeOf: Obj -> nat) {
    && (forall o :: o in nodes ==> typeOf(o) <= DATA)
    && (forall o, p :: o in nodes && p in nodes && ObjKey(typeOf(o), o) == ObjKey(typeOf(p), p) ==> o == p)
  }

  /** Step one of a mount gives every object its block, and nothing else a key. */
  ghost predicate Finds(blocks: Blocks, marked: set<nat>, nodes: map<Obj, nat>, typeOf: Obj -> nat)
    requires Sized(blocks)
  {
    && NonePossible(blocks, marked, |blocks|)
    && (forall o :: o in nodes ==> Winner(blocks, marked, ObjKey(typeOf(o), o), |blocks|) == nodes[o])
    && (forall k :: Winner(blocks, marked, k, |blocks|) >= 0 ==> exists o :: o in nodes && k == ObjKey(typeOf(o), o))
  }

  /** Every block is the block of an object, or claims nothing, or is block x, a newer copy of the block of object o. */
  ghost predicate Expected(blocks: Blocks, marked: set<nat>, b: nat, nodes: map<Obj, nat>, typeOf: Obj -> nat, x: nat,
                           o: Obj)
    requires Sized(blocks) && b < |blocks|
    requires o in nodes ==> nodes[o] < |blocks|
  {
    b in marked ||
    (exists p :: p in nodes && nodes[p] == b &&
       VerdictAt(blocks, marked, b) == Claim(ObjKey(typeOf(p), p)) && HasHead(blocks[b])) ||
    (VerdictAt(blocks, marked, b) != Impossible && !VerdictAt(blocks, marked, b).Claim?) ||
    (b == x && o in nodes && x != nodes[o] && VerdictAt(blocks, marked, b) == Claim(ObjKey(typeOf(o), o)) &&
     IsSrcNewerThanObj(blocks[x][0].tag.ts, blocks[nodes[o]][0].tag.ts) &&
     !IsSrcNewerThanObj(blocks[nodes[o]][0].tag.ts, blocks[x][0].tag.ts))
  }

  lemma {:induction false} FindsExpected(blocks: Blocks, marked: set<nat>, nodes: map<Obj, nat>, typeOf: Obj -> nat,
                                         x: nat, o: Obj)
    requires Sized(blocks) && KeysDistinct(nodes, typeOf)
    requires forall p :: p in nodes ==> nodes[p] < |blocks| && nodes[p] !in marked
    requires forall p, q :: p in nodes && q in nodes && p != q ==> nodes[p] != nodes[q]
    requires forall b :: 0 <= b < |blocks| ==> Expected(blocks, marked, b, nodes, typeOf, x, o)
    requires forall p :: p in nodes ==>
               VerdictAt(blocks, marked, nodes[p]) == Claim(ObjKey(typeOf(p), p)) && HasHead(blocks[nodes[p]])
    ensures Finds(blocks, marked, nodes, typeOf)
  {
    hide VerdictAt, HasHead, IsSrcNewerThanObj, Winner, KeyOf;
    forall b | 0 <= b < |blocks| && b !in marked ensures VerdictAt(blocks, marked, b) != Impossible {
      assert Expected(blocks, marked, b, nodes, typeOf, x, o);
    }
    forall p | p in nodes ensures Winner(blocks, marked, ObjKey(typeOf(p), p), |blocks|) == nodes[p] {
      forall b | 0 <= b < |blocks| && b != nodes[p] && Claims(blocks, marked, b, ObjKey(typeOf(p), p))
        ensures IsSrcNewerThanObj(blocks[b][0].tag.ts, blocks[nodes[p]][0].tag.ts) &&
                !IsSrcNewerThanObj(blocks[nodes[p]][0].tag.ts, blocks[b][0].tag.ts)
      {
        assert Expected(blocks, marked, b, nodes, typeOf, x, o);
      }
      OldestWins(blocks, marked, ObjKey(typeOf(p), p), |blocks|, nodes[p]);
    }
    forall k | Winner(blocks, marked, k, |blocks|) >= 0 ensures exists p :: p in nodes && k == ObjKey(typeOf(p), p) {
      var b := Winner(blocks, marked, k, |blocks|);
      assert Expected(blocks, marked, b, nodes, typeOf, x, o);
    }
  }

  /** A device of n blocks between two operations: each block is an object's, erased or bad. */
  ghost predicate OnFlash(flash: Flash, tree: TreeSt, owner: map<nat, Owner>, g: Geo, typeOf: Obj -> nat, n: nat) {
    && n == g.blocks && StoreOk(flash, tree, owner, g, typeOf) && NothingTaken(owner)
    && KeysDistinct(tree.nodes, typeOf)
  }

  /** What a block of the device is to a mount. */
  lemma {:induction false} DeviceBlock(flash: Flash, tree: TreeSt, owner: map<nat, Owner>, g: Geo, typeOf: Obj -> nat,
                                       n: nat, b: nat)
    requires OnFlash(flash, tree, owner, g, typeOf, n) && b < n
    ensures b in flash && 2 <= |flash[b]| < INVALID_PAGE
    ensures b in Marked(tree) || BlockErased(flash[b], g) ||
            (exists o :: o in tree.nodes && tree.nodes[o] == b && BlockOk(flash[b], g, typeOf(o), o))
  {
    hide BlockOk, BlockErased, KeysDistinct;
    assert b in owner;
    if owner[b].InNode? {
      BlockInUse(flash[b], g, typeOf(owner[b].o), owner[b].o, true);
    } else if owner[b] == InErased {
      BlockNotInUse(flash[b], g, true);
    }
  }

  lemma {:induction false} DeviceNodes(flash: Flash, tree: TreeSt, owner: map<nat, Owner>, g: Geo, typeOf: Obj -> nat,
                                       n: nat)
    requires OnFlash(flash, tree, owner, g, typeOf, n)
    ensures forall o :: o in tree.nodes ==>
              tree.nodes[o] < n && tree.nodes[o] in flash && tree.nodes[o] !in Marked(tree) &&
              BlockOk(flash[tree.nodes[o]], g, typeOf(o), o)
    ensures forall o, p :: o in tree.nodes && p in tree.nodes && o != p ==> tree.nodes[o] != tree.nodes[p]
    ensures forall b :: b in owner && owner[b] == InErased ==> forall o :: o in tree.nodes ==> tree.nodes[o] != b
  {
    hide BlockOk, BlockErased, KeysDistinct;
  }

  lemma {:induction false} OwnExpected(blocks: Blocks, marked: set<nat>, g: Geo, nodes: map<Obj, nat>,
                                       typeOf: Obj -> nat, x: nat, o: Obj, b: nat)
    requires Sized(blocks) && b < |blocks| && (o in nodes ==> nodes[o] < |blocks|)
    requires b in marked || BlockErased(blocks[b], g) ||
             (exists p :: p in nodes && nodes[p] == b && BlockOk(blocks[b], g, typeOf(p), p))
    ensures Expected(blocks, marked, b, nodes, typeOf, x, o)
  {
    hide BlockOk, BlockErased, VerdictOf, HasHead;
    var room := CountCleanups(blocks, marked, b) < MAX_PENDING;
    if BlockErased(blocks[b], g) {
      BlockNotInUse(blocks[b], g, room);
    } else if b !in marked {
      var p :| p in nodes && nodes[p] == b && BlockOk(blocks[b], g, typeOf(p), p);
      BlockInUse(blocks[b], g, typeOf(p), p, room);
    }
  }

  lemma {:induction false} CopyExpected(blocks: Blocks, marked: set<nat>, g: Geo, nodes: map<Obj, nat>,
                                        typeOf: Obj -> nat, x: nat, o: Obj, pages: seq<LPage>)
    requires Sized(blocks) && x < |blocks| && o in nodes && nodes[o] < |blocks| && x != nodes[o]
    requires blocks[nodes[o]][0].tag.ts < 3
    requires CutBlock(blocks[x], g, typeOf(o), o, NextTimeStamp(blocks[nodes[o]][0].tag.ts), pages)
    ensures Expected(blocks, marked, x, nodes, typeOf, x, o)
  {
    hide CutBlock, VerdictOf, HasHead;
    var room := CountCleanups(blocks, marked, x) < MAX_PENDING;
    var ts := NextTimeStamp(blocks[nodes[o]][0].tag.ts);
    CutBlockVerdict(blocks[x], g, typeOf(o), o, ts, pages, room);
    NewerMeansNext(ts, blocks[nodes[o]][0].tag.ts);
  }

  /** A power cut during the copy leaves the device as it was but for the block copied to and the blocks that turned
      bad before it; a mount still finds the old block of the object, and every other block. */
  lemma {:induction false} MidCopyFinds(flash: Flash, tree: TreeSt, owner: map<nat, Owner>, g: Geo, typeOf: Obj -> nat,
                                        n: nat, h: Snapshot, o: Obj, pages: seq<LPage>)
    requires OnFlash(flash, tree, owner, g, typeOf, n) && o in tree.nodes
    requires tree.nodes[o] in flash && |flash[tree.nodes[o]]| > 0
    requires MidCopy(h, flash, Marked(tree), owner, g, typeOf(o), o, NextTimeStamp(flash[tree.nodes[o]][0].tag.ts),
                     pages)
    ensures forall b: nat :: b in h.flash <==> b < n
    ensures Sized(BlocksOf(h.flash, n)) && Finds(BlocksOf(h.flash, n), h.marked, tree.nodes, typeOf)
    ensures forall p :: p in tree.nodes ==>
              tree.nodes[p] in h.flash && tree.nodes[p] in flash && h.flash[tree.nodes[p]] == flash[tree.nodes[p]]
  {
    hide BlockOk, BlockErased, KeysDistinct, StoreOk, CutBlock, Finds, NodesOk, VerdictOf, HasHead, OnFlash, Sized,
      Copying;
    var ts := NextTimeStamp(flash[tree.nodes[o]][0].tag.ts);
    var x: nat, turned :| Copying(h, flash, Marked(tree), owner, g, typeOf(o), o, ts, pages, x, turned);
    CopyingBlocks(flash, tree, owner, g, typeOf, n, h, o, pages, x, turned);
    var blocks := BlocksOf(h.flash, n);
    forall p | p in tree.nodes
      ensures VerdictAt(blocks, h.marked, tree.nodes[p]) == Claim(ObjKey(typeOf(p), p)) &&
              HasHead(blocks[tree.nodes[p]])
    {
      BlockInUse(flash[tree.nodes[p]], g, typeOf(p), p, CountCleanups(blocks, h.marked, tree.nodes[p]) < MAX_PENDING);
    }
    forall b | 0 <= b < n ensures Expected(blocks, h.marked, b, tree.nodes, typeOf, x, o) {
      CopyingBlock(flash, tree, owner, g, typeOf, n, h, o, pages, x, turned, b);
      if b == x && !(b in h.marked || BlockErased(blocks[b], g) ||
                     (exists p :: p in tree.nodes && tree.nodes[p] == b && BlockOk(blocks[b], g, typeOf(p), p))) {
        BlockInUse(flash[tree.nodes[o]], g, typeOf(o), o, true);
        CopyExpected(blocks, h.marked, g, tree.nodes, typeOf, x, o, pages);
      } else {
        OwnExpected(blocks, h.marked, g, tree.nodes, typeOf, x, o, b);
      }
    }
    FindsExpected(blocks, h.marked, tree.nodes, typeOf, x, o);
  }

  /** In the middle of a copy every block has its pages, and the objects have the blocks they had. */
  lemma {:induction false} CopyingBlocks(flash: Flash, tree: TreeSt, owner: map<nat, Owner>, g: Geo, typeOf: Obj -> nat,
                                         n: nat, h: Snapshot, o: Obj, pages: seq<LPage>, x: nat, turned: set<nat>)
    requires OnFlash(flash, tree, owner, g, typeOf, n) && o in tree.nodes
    requires tree.nodes[o] in flash && |flash[tree.nodes[o]]| > 0
    requires Copying(h, flash, Marked(tree), owner, g, typeOf(o), o, NextTimeStamp(flash[tree.nodes[o]][0].tag.ts),
                     pages, x, turned)
    ensures (forall b: nat :: b in h.flash <==> b < n) && Sized(BlocksOf(h.flash, n))
    ensures forall p :: p in tree.nodes ==>
              tree.nodes[p] < n && tree.nodes[p] !in h.marked && tree.nodes[p] in flash && tree.nodes[p] in h.flash &&
              h.flash[tree.nodes[p]] == flash[tree.nodes[p]] && BlockOk(flash[tree.nodes[p]], g, typeOf(p), p)
    ensures forall p, q :: p in tree.nodes && q in tree.nodes && p != q ==> tree.nodes[p] != tree.nodes[q]
    ensures KeysDistinct(tree.nodes, typeOf)
  {
    hide BlockOk, BlockErased, KeysDistinct, StoreOk, CutBlock, NodesOk;
    GeoFacts(g);
    DeviceNodes(flash, tree, owner, g, typeOf, n);
    DeviceOwns(flash, tree, owner, g, typeOf, n);
    forall b | 0 <= b < n ensures 2 <= |h.flash[b]| < INVALID_PAGE {
      DeviceBlock(flash, tree, owner, g, typeOf, n, b);
      if b == x && b !in turned && h.flash[b] != flash[b] {
        CutBlockVerdict(h.flash[b], g, typeOf(o), o, NextTimeStamp(flash[tree.nodes[o]][0].tag.ts), pages, true);
      }
    }
  }

  /** Such a block is marked bad, erased, an object's, or the copy. */
  lemma {:induction false} CopyingBlock(flash: Flash, tree: TreeSt, owner: map<nat, Owner>, g: Geo, typeOf: Obj -> nat,
                                        n: nat, h: Snapshot, o: Obj, pages: seq<LPage>, x: nat, turned: set<nat>,
                                        b: nat)
    requires OnFlash(flash, tree, owner, g, typeOf, n) && o in tree.nodes && b < n
    requires tree.nodes[o] in flash && |flash[tree.nodes[o]]| > 0
    requires Copying(h, flash, Marked(tree), owner, g, typeOf(o), o, NextTimeStamp(flash[tree.nodes[o]][0].tag.ts),
                     pages, x, turned)
    ensures b in h.flash
    ensures b in h.marked || BlockErased(h.flash[b], g) ||
            (exists p :: p in tree.nodes && tree.nodes[p] == b && BlockOk(h.flash[b], g, typeOf(p), p)) ||
            (b == x != tree.nodes[o] &&
             CutBlock(h.flash[b], g, typeOf(o), o, NextTimeStamp(flash[tree.nodes[o]][0].tag.ts), pages))
  {
    hide BlockOk, BlockErased, KeysDistinct, StoreOk, CutBlock, NodesOk;
    DeviceNodes(flash, tree, owner, g, typeOf, n);
    DeviceOwns(flash, tree, owner, g, typeOf, n);
    DeviceBlock(flash, tree, owner, g, typeOf, n, b);
  }

  lemma {:induction false} DeviceOwns(flash: Flash, tree: TreeSt, owner: map<nat, Owner>, g: Geo, typeOf: Obj -> nat,
                                      n: nat)
    requires OnFlash(flash, tree, owner, g, typeOf, n)
    ensures owner.Keys == flash.Keys && forall b: nat :: b in flash <==> b < n
  {
  }

  /** Without a power cut a mount finds the block of every object. */
  lemma {:induction false} MountFinds(flash: Flash, tree: TreeSt, owner: map<nat, Owner>, g: Geo, typeOf: Obj -> nat,
                                      n: nat)
    requires OnFlash(flash, tree, owner, g, typeOf, n)
    ensures Sized(BlocksOf(flash, n)) && Finds(BlocksOf(flash, n), Marked(tree), tree.nodes, typeOf)
  {
    hide BlockOk, BlockErased, KeysDistinct, StoreOk, Finds, NodesOk, VerdictOf, HasHead;
    DeviceNodes(flash, tree, owner, g, typeOf, n);
    DeviceOwns(flash, tree, owner, g, typeOf, n);
    var blocks, marked := BlocksOf(flash, n), Marked(tree);
    var nobody, o: Obj := n, (0, 0);
    forall b | 0 <= b < n ensures 2 <= |blocks[b]| < INVALID_PAGE {
      DeviceBlock(flash, tree, owner, g, typeOf, n, b);
    }
    forall p | p in tree.nodes
      ensures VerdictAt(blocks, marked, tree.nodes[p]) == Claim(ObjKey(typeOf(p), p)) && HasHead(blocks[tree.nodes[p]])
    {
      BlockInUse(flash[tree.nodes[p]], g, typeOf(p), p, CountCleanups(blocks, marked, tree.nodes[p]) < MAX_PENDING);
    }
    forall b | 0 <= b < n ensures Expected(blocks, marked, b, tree.nodes, typeOf, nobody, o) {
      DeviceBlock(flash, tree, owner, g, typeOf, n, b);
      OwnExpected(blocks, marked, g, tree.nodes, typeOf, nobody, o, b);
    }
    FindsExpected(blocks, marked, tree.nodes, typeOf, nobody, o);
  }

  // ----- the flush of an object's block by a merge, cut off anywhere

  /** What a power cut may leave of the recovery of the block of object o: the state after its last step, when it was
      done, or one in the middle of the copy. */
  ghost predicate CutState(h: Snapshot, g: Geo, typeOf: Obj -> nat, o: Obj, buf0: BufSt, flash0: Flash, tree0: TreeSt,
                           owner0: map<nat, Owner>, flash: Flash, tree: TreeSt, done: bool)
    requires o in tree0.nodes && tree0.nodes[o] in flash0 && |flash0[tree0.nodes[o]]| > 0
  {
    (done && h == Snapshot(flash, Marked(tree))) ||
    MidCopy(h, flash0, Marked(tree0), owner0, g, typeOf(o), o, NextTimeStamp(flash0[tree0.nodes[o]][0].tag.ts),
            RecoverPages(g, o, buf0, flash0, tree0))
  }

  /** Every state the device goes through is such a state. */
  lemma {:induction false} HistoryIsCut(g: Geo, typeOf: Obj -> nat, o: Obj, buf0: BufSt, flash0: Flash, tree0: TreeSt,
                                        owner0: map<nat, Owner>, history0: seq<Snapshot>, flash: Flash, tree: TreeSt,
                                        history: seq<Snapshot>, done: bool, i: nat)
    requires RecoverRun(g, typeOf, o, buf0, flash0, tree0, owner0, history0, flash, tree, history, done)
    requires TagIsDirty(flash0[tree0.nodes[o]][0].tag)
    requires |history0| <= i < |history|
    ensures history0 <= history && (done ==> history[|history| - 1] == Snapshot(flash, Marked(tree)))
    ensures CutState(history[i], g, typeOf, o, buf0, flash0, tree0, owner0, flash, tree, done)
  {
    hide Merge, Logical, RecoverPages, MidCopy, OthersKept, Marked;
    if done {
      var before := history[..|history| - 1];
      assert history0 <= before;
      assert i < |before| ==> history[i] == before[i];
    }
  }

  /** Until its last step a mount finds the old pages of the object, and from then on the new ones, whatever the order
      of the blocks and whichever blocks turned bad; and the pages of every other object. */
  lemma {:induction false} OldOrNew(g: Geo, typeOf: Obj -> nat, o: Obj, buf0: BufSt, flash0: Flash, tree0: TreeSt,
                                    owner0: map<nat, Owner>, history0: seq<Snapshot>, flash: Flash, tree: TreeSt,
                                    owner: map<nat, Owner>, history: seq<Snapshot>, done: bool, n: nat, h: Snapshot)
    requires RecoverRun(g, typeOf, o, buf0, flash0, tree0, owner0, history0, flash, tree, history, done)
    requires OnFlash(flash0, tree0, owner0, g, typeOf, n) && OnFlash(flash, tree, owner, g, typeOf, n)
    requires CutState(h, g, typeOf, o, buf0, flash0, tree0, owner0, flash, tree, done)
    ensures forall b: nat :: b in h.flash <==> b < n
    ensures var over := done && h == Snapshot(flash, Marked(tree));
            var nodes := if over then tree.nodes else tree0.nodes;
            Sized(BlocksOf(h.flash, n)) && Finds(BlocksOf(h.flash, n), h.marked, nodes, typeOf) &&
            nodes.Keys == tree0.nodes.Keys && nodes[o] in h.flash &&
            Logical(h.flash[nodes[o]]) ==
            (if over then RecoverPages(g, o, buf0, flash0, tree0) else Logical(flash0[tree0.nodes[o]])) &&
            (forall p :: p in nodes && p != o ==>
              nodes[p] == tree0.nodes[p] && nodes[p] in h.flash && nodes[p] in flash0 &&
              h.flash[nodes[p]] == flash0[nodes[p]])
  {
    hide Finds, StoreOk, KeysDistinct, Logical, BlockOk, NothingTaken, RecoverPages, MidCopy, MidRun, Marked;
    DeviceNodes(flash0, tree0, owner0, g, typeOf, n);
    if done && h == Snapshot(flash, Marked(tree)) {
      MountFinds(flash, tree, owner, g, typeOf, n);
      DeviceOwns(flash, tree, owner, g, typeOf, n);
    } else {
      MidCopyFinds(flash0, tree0, owner0, g, typeOf, n, h, o, RecoverPages(g, o, buf0, flash0, tree0));
    }
  }

  /** The mount up to step two: every object is found at its block, and every other block is put aside. */
  method MountAfterCut(g: Geo, blocks: Blocks, marked: set<nat>, failing: set<nat>, now: nat,
                       ghost nodes: map<Obj, nat>, ghost typeOf: Obj -> nat)
    returns (ok: bool, m: Mount)
    requires Sized(blocks) && Finds(blocks, marked, nodes, typeOf) && KeysDistinct(nodes, typeOf)
    ensures ok && fresh(m) && m.geo == g && m.failing == failing && m.pending == []
    ensures ListsClean(blocks, marked, m.blocks, m.marked, m.tree, m.unchecked, failing, g.pageSize)
    ensures Scanned(blocks, marked, |blocks|, m.blocks, m.marked, m.tree, g.pageSize)
    ensures MountedAt(blocks, m.blocks, m.tree, nodes, typeOf, g.pageSize)
    ensures forall b :: 0 <= b < |blocks| && (forall o :: o in nodes ==> nodes[o] != b) ==> Listed(m.tree, b)
  {
    hide *;
    m := new Mount(g, blocks, marked, failing);
    FindsAll(blocks, marked, nodes, typeOf);
    ok := m.FindTree(now);
    ScannedFinds(blocks, marked, m.blocks, m.marked, m.tree, g.pageSize, nodes, typeOf);
  }

  lemma {:induction false} FindsAll(blocks: Blocks, marked: set<nat>, nodes: map<Obj, nat>, typeOf: Obj -> nat)
    requires Sized(blocks) && Finds(blocks, marked, nodes, typeOf)
    ensures NonePossible(blocks, marked, |blocks|)
  {
  }

  /** The tree has the keys of the objects, each with the object's block as it was found. */
  ghost predicate MountedAt(blocks0: Blocks, blocks: Blocks, tree: Tree, nodes: map<Obj, nat>, typeOf: Obj -> nat,
                            pageSize: nat) {
    && (forall k :: k in tree.nodes ==> exists o :: o in nodes && k == ObjKey(typeOf(o), o))
    && (forall o :: o in nodes ==>
          ObjKey(typeOf(o), o) in tree.nodes && nodes[o] < |blocks0| == |blocks| &&
          blocks[nodes[o]] == blocks0[nodes[o]] &&
          |blocks[nodes[o]]| >= 2 && NodeIs(blocks0[nodes[o]], pageSize, nodes[o], tree.nodes[ObjKey(typeOf(o), o)]))
  }

  /** A block of no known type would win the key of such blocks, if another of them has not. */
  lemma {:induction false} UntypedWins(blocks: Blocks, marked: set<nat>, n: nat, b: nat)
    requires Sized(blocks) && n <= |blocks| && b < n && Claims(blocks, marked, b, NoKey)
    ensures Winner(blocks, marked, NoKey, n) >= 0
  {
    if b < n - 1 {
      UntypedWins(blocks, marked, n - 1, b);
    }
  }

  lemma {:induction false} ScannedFinds(blocks0: Blocks, marked0: set<nat>, blocks: Blocks, marked: set<nat>,
                                        tree: Tree, pageSize: nat, nodes: map<Obj, nat>, typeOf: Obj -> nat)
    requires Sized(blocks0) && Scanned(blocks0, marked0, |blocks0|, blocks, marked, tree, pageSize)
    requires Finds(blocks0, marked0, nodes, typeOf) && KeysDistinct(nodes, typeOf)
    ensures MountedAt(blocks0, blocks, tree, nodes, typeOf, pageSize)
    ensures forall b :: 0 <= b < |blocks0| && (forall o :: o in nodes ==> nodes[o] != b) ==> Listed(tree, b)
  {
    hide NodeIs, Claims, Winner, ListsOk, Listed;
    forall o | o in nodes ensures ObjKey(typeOf(o), o) != NoKey { }
    forall b | 0 <= b < |blocks0| && Claims(blocks0, marked0, b, NoKey) ensures false {
      UntypedWins(blocks0, marked0, |blocks0|, b);
    }
  }

  // ----- the whole mount

  /** Every data block is of a file. */
  ghost predicate DataHaveFiles(nodes: map<Obj, nat>, typeOf: Obj -> nat) {
    forall p :: p in nodes && typeOf(p) == DATA ==> exists o :: FileOf(nodes, typeOf, o, p)
  }

  ghost predicate FileOf(nodes: map<Obj, nat>, typeOf: Obj -> nat, o: Obj, p: Obj) {
    o in nodes && typeOf(o) == FILE && o.1 == p.0
  }

  /** The mounted tree has one node for each object, on its block as it was found, and every other block is listed. */
  ghost predicate Survive(blocks0: Blocks, blocks: Blocks, tree: Tree, nodes: map<Obj, nat>, typeOf: Obj -> nat) {
    && |blocks| == |blocks0|
    && (forall k :: k in tree.nodes <==> exists o :: o in nodes && k == ObjKey(typeOf(o), o))
    && (forall o :: o in nodes ==>
          ObjKey(typeOf(o), o) in tree.nodes && tree.nodes[ObjKey(typeOf(o), o)].block == nodes[o] < |blocks0| &&
          blocks[nodes[o]] == blocks0[nodes[o]])
    && (forall b :: 0 <= b < |blocks0| && (forall o :: o in nodes ==> nodes[o] != b) ==> Listed(tree, b))
  }

  /** Step one gave tree1, step three the tree. */
  ghost predicate MountedBy(blocks0: Blocks, marked0: set<nat>, blocks1: Blocks, marked1: set<nat>, tree1: Tree,
                            blocks: Blocks, tree: Tree, pageSize: nat, bound: nat) {
    && Scanned(blocks0, marked0, |blocks0|, blocks1, marked1, tree1, pageSize)
    && Summing(tree1.nodes, blocks1, tree.nodes, blocks, {}, DataKeys(tree1.nodes), bound)
    && (forall x :: Listed(tree1, x) ==> Listed(tree, x))
  }

  ghost predicate Mounted(blocks0: Blocks, marked0: set<nat>, blocks: Blocks, tree: Tree, pageSize: nat) {
    exists blocks1: Blocks, marked1: set<nat>, tree1: Tree, bound: nat ::
      MountedBy(blocks0, marked0, blocks1, marked1, tree1, blocks, tree, pageSize, bound)
  }

  /** A mount, whatever is on the blocks; erases of failing blocks report them bad. */
  method MountWhole(g: Geo, blocks: Blocks, marked: set<nat>, failing: set<nat>, now: nat) returns (ok: bool, m: Mount)
    requires Sized(blocks)
    ensures fresh(m) && (ok <==> NonePossible(blocks, marked, |blocks|))
    ensures ok ==> BlocksPlaced(blocks, marked, m.blocks, m.marked, m.tree, m.unchecked, failing, g.pageSize)
    ensures ok ==> Mounted(blocks, marked, m.blocks, m.tree, g.pageSize)
  {
    hide *;
    m := new Mount(g, blocks, marked, failing);
    ok := m.FindTree(now);
    if !ok {
      return;
    }
    ghost var blocks1, marked1, tree1 := m.blocks, m.marked, m.tree;
    ScannedDistinct(blocks, marked, blocks1, marked1, tree1, g.pageSize);
    ghost var bound := SerialsBelow(tree1.nodes.Keys);
    ScannedRight(blocks, marked, blocks1, marked1, tree1, m.unchecked, failing, g.pageSize);
    m.StepThree(bound, blocks, marked);
    OrphansFacts(tree1, m.tree);
    PlacedAfterOrphans(blocks, marked, blocks1, marked1, tree1, m.blocks, m.marked, m.tree, m.unchecked, failing,
                       g.pageSize);
    NothingPending(m.tree);
    m.RecoverPending();
    MountedIs(blocks, marked, blocks1, marked1, tree1, m.blocks, m.tree, g.pageSize, bound);
  }

  lemma {:induction false} OrphansFacts(tree0: Tree, tree: Tree)
    requires OrphansListed(tree0, tree)
    ensures forall x :: Listed(tree0, x) ==> Listed(tree, x)
  {
  }

  lemma {:induction false} NothingPending(tree: Tree)
    ensures Unheld(tree, [])
  {
  }

  lemma {:induction false} MountedIs(blocks0: Blocks, marked0: set<nat>, blocks1: Blocks, marked1: set<nat>,
                                     tree1: Tree, blocks: Blocks, tree: Tree, pageSize: nat, bound: nat)
    requires Scanned(blocks0, marked0, |blocks0|, blocks1, marked1, tree1, pageSize)
    requires Summing(tree1.nodes, blocks1, tree.nodes, blocks, {}, DataKeys(tree1.nodes), bound)
    requires forall x :: Listed(tree1, x) ==> Listed(tree, x)
    ensures Mounted(blocks0, marked0, blocks, tree, pageSize)
  {
    hide Scanned, Summing, Listed, DataKeys;
    assert MountedBy(blocks0, marked0, blocks1, marked1, tree1, blocks, tree, pageSize, bound);
  }

  /** No two nodes of step one share a block, and a data node names its file. */
  lemma {:induction false} ScannedDistinct(blocks0: Blocks, marked0: set<nat>, blocks: Blocks, marked: set<nat>,
                                           tree: Tree, pageSize: nat)
    requires Scanned(blocks0, marked0, |blocks0|, blocks, marked, tree, pageSize)
    ensures Sized(blocks) && |blocks| == |blocks0| && NodesDistinct(tree.nodes, |blocks|)
  {
    hide LenIs, Claims, ListsOk, AllPlaced, LostOk;
    forall k, j | k in tree.nodes && j in tree.nodes && tree.nodes[k].block == tree.nodes[j].block ensures k == j {
      OneKey(blocks0, marked0, tree.nodes[k].block, k, j);
    }
    forall k | k in tree.nodes && k.DataKey? ensures tree.nodes[k].parent == k.parent {
      KeyOfClaim(blocks0, marked0, tree.nodes[k].block, k);
    }
  }

  /** A bound of the serials of data blocks. */
  ghost function SerialsBelow(keys: set<Key>): (bound: nat)
    ensures forall k :: k in keys && k.DataKey? ==> k.serial < bound
  {
    if keys == {} then 0
    else
      var k :| k in keys;
      var rest := SerialsBelow(keys - {k});
      if k.DataKey? && rest <= k.serial then k.serial + 1 else rest
  }

  /** Whatever a mount makes of blocks on which step one finds every object, it keeps every object. */
  lemma {:induction false} MountSurvives(blocks0: Blocks, marked0: set<nat>, blocks: Blocks, tree: Tree, pageSize: nat,
                                         nodes: map<Obj, nat>, typeOf: Obj -> nat)
    requires Sized(blocks0) && Mounted(blocks0, marked0, blocks, tree, pageSize)
    requires Finds(blocks0, marked0, nodes, typeOf) && KeysDistinct(nodes, typeOf) && DataHaveFiles(nodes, typeOf)
    ensures Survive(blocks0, blocks, tree, nodes, typeOf)
  {
    hide *;
    var blocks1, marked1, tree1, bound := StepsOf(blocks0, marked0, blocks, tree, pageSize);
    ScannedFinds(blocks0, marked0, blocks1, marked1, tree1, pageSize, nodes, typeOf);
    ScannedDistinct(blocks0, marked0, blocks1, marked1, tree1, pageSize);
    NothingOrphaned(blocks0, blocks1, tree1, blocks, tree, nodes, typeOf, pageSize, bound);
  }

  lemma {:induction false} StepsOf(blocks0: Blocks, marked0: set<nat>, blocks: Blocks, tree: Tree, pageSize: nat)
    returns (blocks1: Blocks, marked1: set<nat>, tree1: Tree, bound: nat)
    requires Mounted(blocks0, marked0, blocks, tree, pageSize)
    ensures Scanned(blocks0, marked0, |blocks0|, blocks1, marked1, tree1, pageSize)
    ensures Summing(tree1.nodes, blocks1, tree.nodes, blocks, {}, DataKeys(tree1.nodes), bound)
    ensures forall x :: Listed(tree1, x) ==> Listed(tree, x)
  {
    hide Scanned, Summing, Listed, DataKeys;
    blocks1, marked1, tree1, bound :|
      MountedBy(blocks0, marked0, blocks1, marked1, tree1, blocks, tree, pageSize, bound);
  }

  lemma {:induction false} KeyOfClaim(blocks: Blocks, marked: set<nat>, b: nat, k: Key)
    requires Sized(blocks) && Claims(blocks, marked, b, k)
    ensures k == TagKey(blocks[b][0].tag)
  {
    hide CountCleanups, NeedsCleanup;
  }

  lemma {:induction false} NothingOrphaned(blocks0: Blocks, blocks1: Blocks, tree1: Tree, blocks: Blocks, tree: Tree,
                                           nodes: map<Obj, nat>, typeOf: Obj -> nat, pageSize: nat, bound: nat)
    requires MountedAt(blocks0, blocks1, tree1, nodes, typeOf, pageSize) && DataHaveFiles(nodes, typeOf) &&
             |blocks1| == |blocks0|
    requires forall b :: 0 <= b < |blocks0| && (forall o :: o in nodes ==> nodes[o] != b) ==> Listed(tree1, b)
    requires Summing(tree1.nodes, blocks1, tree.nodes, blocks, {}, DataKeys(tree1.nodes), bound)
    requires forall x :: Listed(tree1, x) ==> Listed(tree, x)
    ensures Survive(blocks0, blocks, tree, nodes, typeOf)
  {
    hide LenIs, Summing, Listed, DataKeys, DataHaveFiles, ObjKey;
    NodesStayed(blocks0, blocks1, tree1, blocks, tree, nodes, typeOf, pageSize, bound);
  }

  lemma {:induction false} NodesStayed(blocks0: Blocks, blocks1: Blocks, tree1: Tree, blocks: Blocks, tree: Tree,
                                       nodes: map<Obj, nat>, typeOf: Obj -> nat, pageSize: nat, bound: nat)
    requires MountedAt(blocks0, blocks1, tree1, nodes, typeOf, pageSize) && DataHaveFiles(nodes, typeOf) &&
             |blocks1| == |blocks0|
    requires Summing(tree1.nodes, blocks1, tree.nodes, blocks, {}, DataKeys(tree1.nodes), bound)
    ensures |blocks| == |blocks1| && forall k :: k in tree.nodes <==> k in tree1.nodes
    ensures forall k :: k in tree.nodes ==>
              tree.nodes[k].block == tree1.nodes[k].block < |blocks| &&
              blocks[tree.nodes[k].block] == blocks1[tree.nodes[k].block]
  {
    hide NodeIs, SumData, DataKeys, NodesDistinct, Sized;
    forall k | k in tree1.nodes && k.DataKey? ensures FileKey(k.parent) in tree1.nodes {
      FileIsThere(blocks0, blocks1, tree1, nodes, typeOf, pageSize, k);
    }
  }

  lemma {:induction false} FileIsThere(blocks0: Blocks, blocks: Blocks, tree: Tree, nodes: map<Obj, nat>,
                                       typeOf: Obj -> nat, pageSize: nat, k: Key)
    requires MountedAt(blocks0, blocks, tree, nodes, typeOf, pageSize) && DataHaveFiles(nodes, typeOf)
    requires k in tree.nodes && k.DataKey?
    ensures FileKey(k.parent) in tree.nodes
  {
    hide NodeIs;
    var p :| p in nodes && k == ObjKey(typeOf(p), p);
    var o :| FileOf(nodes, typeOf, o, p);
    assert ObjKey(typeOf(o), o) in tree.nodes;
  }
}

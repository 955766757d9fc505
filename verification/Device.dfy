/** A mounted device: page buffers over flash blocks. Reading a page through the buffers yields the last
    bytes written, and a flush moves dirty pages to flash without changing what a reader sees. */
module DeviceModel {
  import opened FlashModel
  import opened BlockLog
  import opened LogicalBlock
  import opened BlockInfoCache
  import opened DeviceState
  import opened CacheSteps
  import opened StoreSteps
  import opened FlushSteps
  import opened CopySteps
  import opened BufferSteps
  import opened WriteSteps

  class Device {
    const geo: Geo
    const dirtyMax: nat
    // Types of the objects; creating an object fixes those of its own name and of its data blocks.
    ghost var typeOf: Obj -> nat
    // How many blocks may turn bad; and how many page writes are still to report a bad block.
    const maxFaults: nat
    var faults: nat

    var buf: BufSt
    var flash: Flash
    var tree: TreeSt
    ghost var owner: map<nat, Owner>
    ghost var content: Content
    // The states the device has gone through, one per page write, block erase or mark of a bad block.
    ghost var history: seq<Snapshot>

    /** The cache is well formed, every block has one owner and none is in the hands of an operation,
        valid buffers agree with flash, and `content` is what a reader sees. */
    ghost predicate Valid()
      reads this
    {
      DeviceOk(geo, typeOf, buf, flash, tree, owner, content)
    }

    /** A device just formatted: all blocks erased, all buffers empty. */
    constructor (geo: Geo, dirtyMax: nat, ghost typeOf: Obj -> nat, maxFaults: nat, bufs: nat, groups: nat)
      ensures Valid() && this.geo == geo && this.dirtyMax == dirtyMax && this.typeOf == typeOf
      ensures this.maxFaults == maxFaults == faults
      ensures content == map[] && buf == NewBufSt(geo, bufs, groups) && tree == TreeSt(map[], UpTo(geo.blocks), [])
    {
      this.geo, this.dirtyMax, this.typeOf, this.maxFaults, faults := geo, dirtyMax, typeOf, maxFaults, maxFaults;
      buf := NewBufSt(geo, bufs, groups);
      flash := NewFlash(geo);
      tree := TreeSt(map[], UpTo(geo.blocks), []);
      owner, content, history := NewOwners(geo.blocks), map[], [];
      new;
      hide *;
      NewDeviceOk(geo, typeOf, bufs, groups);
      ValidIs();
    }

    // ----- flash operations

    /** Program an erased page. When the write reports a bad block, the data of the page is unknown; it may do so as
        long as there are faults to come. */
    method WritePage(b: nat, i: nat, page: Page) returns (bad: bool, ghost wrote: Page)
      requires b in flash && i < |flash[b]| && flash[b][i] == ErasedPage(geo.pageSize)
      modifies this`flash, this`history, this`faults
      ensures flash == old(flash)[b := old(flash)[b][i := wrote]]
      ensures history == old(history) + [Snapshot(flash, Marked(tree))]
      ensures if bad then wrote == page.(data := wrote.data) && |wrote.data| == |page.data| else wrote == page
      ensures OneFault(old(faults), faults, bad)
    {
      bad := *;
      if faults == 0 {
        bad := false;
      }
      if bad {
        faults := faults - 1;
      }
      var stored := page;
      if bad {
        var garbage: seq<Byte> := *;
        if |garbage| == |page.data| {
          stored := page.(data := garbage);
        }
      }
      wrote := stored;
      flash := flash[b := flash[b][i := stored]];
      history := history + [Snapshot(flash, Marked(tree))];
    }

    method EraseBlock(b: nat)
      requires b in flash
      modifies this`flash, this`history
      ensures flash == old(flash)[b := ErasedBlock(geo.pages, geo.pageSize)]
      ensures history == old(history) + [Snapshot(flash, Marked(tree))]
    {
      flash := flash[b := ErasedBlock(geo.pages, geo.pageSize)];
      history := history + [Snapshot(flash, Marked(tree))];
    }

    // ----- the LRU list and the pool

    /** Buffer that holds a page of an object, or -1. */
    method FindBuf(o: Obj, id: nat) returns (i: int)
      requires LruOk(buf.lru, |buf.pool|)
      ensures -1 <= i < |buf.pool|
      ensures i >= 0 ==> HasKey(buf.pool[i], o, id)
      ensures i < 0 ==> forall j :: 0 <= j < |buf.pool| ==> !HasKey(buf.pool[j], o, id)
    {
      for k := 0 to |buf.lru|
        invariant forall x :: 0 <= x < k ==> !HasKey(buf.pool[buf.lru[x]], o, id)
      {
        if HasKey(buf.pool[buf.lru[k]], o, id) {
          return buf.lru[k];
        }
      }
      forall j | 0 <= j < |buf.pool| ensures !HasKey(buf.pool[j], o, id) { assert j in buf.lru; }
      i := -1;
    }

    /** Least recently used buffer that nobody holds and that is not dirty, or -1. */
    method FindFreeBuf() returns (i: int)
      requires LruOk(buf.lru, |buf.pool|)
      ensures -1 <= i < |buf.pool|
      ensures i >= 0 ==> IsFree(buf.pool[i]) && LeastRecent(buf, i)
      ensures i < 0 ==> forall j :: 0 <= j < |buf.pool| ==> !IsFree(buf.pool[j])
    {
      var k := |buf.lru|;
      while k > 0
        invariant 0 <= k <= |buf.lru|
        invariant forall x :: k <= x < |buf.lru| ==> !IsFree(buf.pool[buf.lru[x]])
      {
        k := k - 1;
        if IsFree(buf.pool[buf.lru[k]]) {
          assert LastFree(buf, k);
          return buf.lru[k];
        }
      }
      forall j | 0 <= j < |buf.pool| ensures !IsFree(buf.pool[j]) { assert j in buf.lru; }
      i := -1;
    }

    method MoveToHead(i: nat)
      requires LruOk(buf.lru, |buf.pool|) && i < |buf.pool|
      modifies this`buf
      ensures buf == old(buf).(lru := [i] + Without(old(buf).lru, i)) && LruOk(buf.lru, |buf.pool|)
    {
      MoveToHeadKeepsLruOk(buf.lru, |buf.pool|, i);
      assert i in buf.lru;
      if i != buf.lru[0] {
        buf := buf.(lru := [i] + Without(buf.lru, i));
      } else {
        HeadAgain(buf.lru, i);
      }
    }

    // ----- dirty groups

    /** Group that lists the dirty buffers of an object, or -1. */
    method FindGroupSlot(o: Obj) returns (s: int)
      requires GroupsOk(buf)
      ensures -1 <= s < |buf.groups|
      ensures s >= 0 ==> buf.groups[s].dirty != [] && GroupObj(buf, s) == o
      ensures s < 0 ==> forall t :: 0 <= t < |buf.groups| && buf.groups[t].dirty != [] ==> GroupObj(buf, t) != o
    {
      for k := 0 to |buf.groups|
        invariant forall t :: 0 <= t < k && buf.groups[t].dirty != [] ==> GroupObj(buf, t) != o
      {
        if buf.groups[k].dirty != [] {
          assert GroupOk(buf, k);
          var b := buf.pool[buf.groups[k].dirty[0]];
          if b.parent == o.0 && b.serial == o.1 {
            return k;
          }
        }
      }
      s := -1;
    }

    method FindFreeGroupSlot() returns (s: int)
      ensures -1 <= s < |buf.groups|
      ensures s >= 0 ==> buf.groups[s].dirty == []
      ensures s < 0 ==> forall t :: 0 <= t < |buf.groups| ==> buf.groups[t].dirty != []
    {
      for k := 0 to |buf.groups|
        invariant forall t :: 0 <= t < k ==> buf.groups[t].dirty != []
      {
        if buf.groups[k].dirty == [] {
          return k;
        }
      }
      s := -1;
    }

    /** The unlocked group with the most dirty buffers, or -1. */
    method FindMostDirtyGroup() returns (s: int)
      requires GroupsOk(buf)
      ensures -1 <= s < |buf.groups|
      ensures s >= 0 ==> Flushable(buf.groups[s]) && MostDirty(buf.groups, s)
      ensures s < 0 ==> forall t :: 0 <= t < |buf.groups| ==> !Flushable(buf.groups[t])
    {
      s := -1;
      var maxCount := 0;
      for k := 0 to |buf.groups|
        invariant -1 <= s < k
        invariant s >= 0 ==> Flushable(buf.groups[s]) && maxCount == buf.groups[s].count
        invariant s < 0 ==> maxCount == 0
        invariant forall t :: 0 <= t < k && Flushable(buf.groups[t]) ==> s >= 0 && buf.groups[t].count <= maxCount
        invariant forall t :: 0 <= t < s && Flushable(buf.groups[t]) ==> buf.groups[t].count < maxCount
      {
        assert GroupOk(buf, k);
        if buf.groups[k].dirty != [] && buf.groups[k].lock == 0 {
          if buf.groups[k].count > maxCount {
            maxCount := buf.groups[k].count;
            s := k;
          }
        }
      }
    }

    /** Buffer of the group that holds the page id, or -1. */
    method FindBufInDirtyList(s: nat, id: nat) returns (i: int)
      requires s < |buf.groups| && GroupOk(buf, s)
      ensures -1 <= i < |buf.pool|
      ensures i >= 0 ==> i in buf.groups[s].dirty && buf.pool[i].pageId == id
      ensures i < 0 ==> forall j :: j in buf.groups[s].dirty ==> buf.pool[j].pageId != id
    {
      var list := buf.groups[s].dirty;
      for k := 0 to |list|
        invariant forall x :: 0 <= x < k ==> buf.pool[list[x]].pageId != id
      {
        if buf.pool[list[k]].pageId == id {
          return list[k];
        }
      }
      i := -1;
    }

    /** Buffer of the group with the smallest page id. */
    method FindMinimumPageId(s: nat) returns (i: nat)
      requires s < |buf.groups| && GroupOk(buf, s) && buf.groups[s].dirty != []
      ensures i in buf.groups[s].dirty && i < |buf.pool|
      ensures forall j :: j in buf.groups[s].dirty ==> buf.pool[i].pageId <= buf.pool[j].pageId
    {
      var list := buf.groups[s].dirty;
      i := list[0];
      for k := 1 to |list|
        invariant i in list && i < |buf.pool|
        invariant forall x :: 0 <= x < k ==> buf.pool[i].pageId <= buf.pool[list[x]].pageId
      {
        if buf.pool[list[k]].pageId < buf.pool[i].pageId {
          i := list[k];
        }
      }
    }

    // ----- flush with block recover

    /** The page with this id on the old block: from a cached buffer if there is one, else from flash. */
    method OldPage(o: Obj, ob: nat, bc: BlockInfo, id: nat) returns (found: bool, p: LPage)
      requires LruOk(buf.lru, |buf.pool|)
      requires ob in flash && bc.Valid() && bc.stored == TagsOf(flash[ob]) && LogInv(bc.stored) && OneObject(bc.stored)
      requires forall j :: 0 <= j < |buf.pool| && HasKey(buf.pool[j], o, id) && id < |Logical(flash[ob])| ==>
                 PageOf(buf.pool[j]) == Logical(flash[ob])[id]
      modifies this`buf, bc`spares, bc`expiredCount
      ensures buf == old(buf).(lru := buf.lru) && LruOk(buf.lru, |buf.pool|)
      ensures bc.Valid()
      ensures if found then LruAfter(old(buf), o, id, buf.lru) else buf.lru == old(buf).lru
      ensures found <==> id < |Logical(flash[ob])|
      ensures found ==> p == Logical(flash[ob])[id]
    {
      hide Top, LogInv, OneObject, LruOk, Latest;
      p := LPage([], 0);
      var page := bc.FindLatest(id);
      found := page != INVALID_PAGE;
      if found {
        var c := FindBuf(o, id);
        if c >= 0 {
          MoveToHead(c);
          p := PageOf(buf.pool[c]);
        } else {
          p := ContentOf(flash[ob][page]);
        }
      }
    }

    /** Write the next page of a block that is filled in the order of the page ids. */
    method CopyOne(nb: nat, i: nat, ty: nat, o: Obj, ts: nat, p: LPage,
                   ghost flash0: Flash, ghost history0: seq<Snapshot>, ghost pages: seq<LPage>,
                   ghost written: seq<LPage>)
      returns (bad: bool)
      requires nb in flash0 && |written| == i && written + [p] <= pages && |pages| <= geo.pages
      requires Copied(flash0, flash, nb, geo, ty, o, ts, written)
      requires CopyHistory(history0, history, flash0, Marked(tree), nb, geo, ty, o, ts, pages)
      modifies this`flash, this`history, this`faults
      ensures nb in flash && flash == flash0[nb := flash[nb]] && |flash[nb]| == geo.pages
      ensures CopyHistory(history0, history, flash0, Marked(tree), nb, geo, ty, o, ts, pages)
      ensures !bad ==> Copied(flash0, flash, nb, geo, ty, o, ts, written + [p])
      ensures OneFault(old(faults), faults, bad)
    {
      hide CopyHistory, Marked;
      ghost var flash1, history1 := flash, history;
      ghost var wrote;
      bad, wrote := WritePage(nb, i, MakePage(ty, o, ts, i, p));
      CopyStep(flash0, flash1, history0, history1, Marked(tree), nb, geo, ty, o, ts, pages, written, p, wrote);
    }

    /** What a block-recover flush writes for page id i. */
    method NextPage(s: nat, o: Obj, ob: nat, bc: BlockInfo, i: nat) returns (next: Next)
      requires CacheOk(buf, geo, typeOf) && GroupOf(buf, s, o)
      requires ob in flash && bc.Valid() && bc.stored == TagsOf(flash[ob]) && LogInv(bc.stored) && OneObject(bc.stored)
      requires ValidBuffersAgree(buf.pool, o, Logical(flash[ob])) && i < geo.pages
      modifies this`buf, bc`spares, bc`expiredCount
      ensures buf == old(buf).(lru := buf.lru) && CacheOk(buf, geo, typeOf) && GroupOf(buf, s, o)
      ensures bc.Valid()
      ensures next == NextOf(Logical(flash[ob]), DirtyMap(buf.pool, o, geo.pages), i)
    {
      hide LogInv, OneObject, Logical;
      var x := FindBufInDirtyList(s, i);
      if x >= 0 {
        GroupIsDirtyMap(buf, geo, typeOf, s, x);
        var b := buf.pool[x];
        if b.dataLen == 0 {
          return Stop;
        }
        return if b.truncTail then Last(PageOf(b)) else More(PageOf(b));
      }
      NotInGroupNotDirty(buf, geo, typeOf, s, i);
      NotDirtyAgrees(buf.pool, o, geo.pages, Logical(flash[ob]), i);
      ghost var buf0 := buf;
      var found, p := OldPage(o, ob, bc, i);
      NewLruKeepsCacheOk(buf0, geo, typeOf, buf.lru);
      next := if found then More(p) else Stop;
    }

    /** Write the merge of the old block and the dirty group to a fresh block, page by page. */
    method CopyPages(s: nat, o: Obj, ob: nat, nb: nat, bc: BlockInfo, ts: nat) returns (bad: bool)
      requires CacheOk(buf, geo, typeOf) && GroupOf(buf, s, o)
      requires ob in flash && nb in flash && ob != nb && BlockErased(flash[nb], geo)
      requires bc.Valid() && bc.stored == TagsOf(flash[ob]) && LogInv(bc.stored) && OneObject(bc.stored)
      requires ValidBuffersAgree(buf.pool, o, Logical(flash[ob]))
      modifies this`buf, this`flash, this`history, this`faults, bc`spares, bc`expiredCount
      ensures buf == old(buf).(lru := buf.lru) && CacheOk(buf, geo, typeOf) && GroupOf(buf, s, o) && bc.Valid()
      ensures nb in flash && flash == old(flash)[nb := flash[nb]] && |flash[nb]| == geo.pages
      ensures var pages := Merge(Logical(old(flash)[ob]), DirtyMap(old(buf).pool, o, geo.pages), 0, geo.pages);
              CopyHistory(old(history), history, old(flash), Marked(tree), nb, geo, typeOf(o), o, ts, pages) &&
              (!bad ==> Copied(old(flash), flash, nb, geo, typeOf(o), o, ts, pages))
      ensures OneFault(old(faults), faults, bad)
    {
      hide *;
      WearIs();
      ghost var prior, dirty := Logical(flash[ob]), DirtyMap(buf.pool, o, geo.pages);
      ghost var target := Merge(prior, dirty, 0, geo.pages);
      ghost var flash0, history0 := flash, history;
      ghost var written: seq<LPage> := [];
      var ty := HeadType(s, o);
      CopyStarts(flash, history, Marked(tree), nb, geo, ty, o, ts, target);
      MergeStarts(prior, dirty, geo.pages);
      bad := false;
      var i := 0;
      while i < geo.pages
        invariant |written| == i <= geo.pages && Remaining(prior, dirty, i, geo.pages, target, written)
        invariant buf == old(buf).(lru := buf.lru) && CacheOk(buf, geo, typeOf) && GroupOf(buf, s, o)
        invariant bc.Valid()
        invariant nb in flash && flash == flash0[nb := flash[nb]] && |flash[nb]| == geo.pages
        invariant Copied(flash0, flash, nb, geo, ty, o, ts, written)
        invariant CopyHistory(history0, history, flash0, Marked(tree), nb, geo, ty, o, ts, target)
        invariant faults == old(faults) && !bad
      {
        var next := NextPage(s, o, ob, bc, i);
        MergeStep(prior, dirty, i, geo.pages, target, written);
        if next == Stop {
          return;
        }
        bad := CopyOne(nb, i, ty, o, ts, next.page, flash0, history0, target, written);
        if bad {
          return;
        }
        written := written + [next.page];
        i := i + 1;
        if next.Last? {
          return;
        }
      }
      MergeEnds(prior, dirty, geo.pages, target, written);
    }

    /** Take the first erased block. */
    method GetErasedBlock() returns (ok: bool, b: nat)
      requires StoreOk(flash, tree, owner, geo, typeOf)
      modifies this`tree, this`owner
      ensures StoreOk(flash, tree, owner, geo, typeOf)
      ensures ok <==> old(tree).erased != []
      ensures ok ==> b == old(tree).erased[0] && b in flash && BlockErased(flash[b], geo) && b in old(owner) &&
                     old(owner)[b] == InErased && owner == old(owner)[b := Taken]
      ensures tree == if ok then old(tree).(erased := old(tree).erased[1..]) else old(tree)
      ensures !ok ==> owner == old(owner)
    {
      hide *;
      b := 0;
      ok := tree.erased != [];
      if ok {
        TakeErased(flash, tree, owner, geo, typeOf);
        b := tree.erased[0];
        tree := tree.(erased := tree.erased[1..]);
        owner := owner[b := Taken];
      }
    }

    /** The block in hand has turned bad. */
    method MarkBad(b: nat)
      requires StoreOk(flash, tree, owner, geo, typeOf) && b in owner && owner[b] == Taken
      modifies this`tree, this`owner, this`history
      ensures StoreOk(flash, tree, owner, geo, typeOf)
      ensures owner == old(owner)[b := InBad] && tree == old(tree).(bad := [b] + old(tree).bad)
      ensures history == old(history) + [Snapshot(flash, Marked(tree))] && Marked(tree) == Marked(old(tree)) + {b}
    {
      hide *;
      GiveBad(flash, tree, owner, geo, typeOf, b);
      OneMoreMarked(tree, b);
      tree := tree.(bad := [b] + tree.bad);
      history := history + [Snapshot(flash, Marked(tree))];
      owner := owner[b := InBad];
    }

    /** Write the merge to an erased block; a block that turns bad is put aside and the next one is tried. */
    method WriteMerged(s: nat, o: Obj, ob: nat, bc: BlockInfo) returns (ok: bool, nb: nat)
      requires CacheOk(buf, geo, typeOf) && GroupOf(buf, s, o) && StoreOk(flash, tree, owner, geo, typeOf)
      requires ob in flash && ob in owner && owner[ob] != InErased && |flash[ob]| == geo.pages
      requires bc.Valid() && bc.stored == TagsOf(flash[ob]) && LogInv(bc.stored) && OneObject(bc.stored)
      requires ValidBuffersAgree(buf.pool, o, Logical(flash[ob]))
      modifies this`buf, this`flash, this`tree, this`owner, this`history, this`faults, bc`spares, bc`expiredCount
      ensures CacheOk(buf, geo, typeOf) && GroupOf(buf, s, o) && buf == old(buf).(lru := buf.lru) && bc.Valid()
      ensures StoreOk(flash, tree, owner, geo, typeOf) && tree.nodes == old(tree).nodes
      ensures OnlyErasedUsed(old(owner), owner, old(flash), flash)
      ensures ok ==> nb in flash && nb in old(owner) && old(owner)[nb] == InErased && nb in owner && owner[nb] == Taken
      ensures var pages := Merge(Logical(old(flash)[ob]), DirtyMap(old(buf).pool, o, geo.pages), 0, geo.pages);
              var ts := NextTimeStamp(TimeStampOf(TagsOf(old(flash)[ob])));
              (ok ==> flash[nb] == BlockOf(geo, typeOf(o), o, ts, pages)) &&
              MidRun(old(history), history, old(flash), Marked(old(tree)), old(owner), geo, typeOf(o), o, ts, pages)
      ensures TakenAtMost(old(owner), owner, if ok then {nb} else {})
      ensures !ok ==> tree.erased == []
      ensures WornBy(old(tree), old(faults), tree, faults, if ok then 1 else 0, 0)
    {
      hide *;
      WearIs();
      ghost var owner0, flash0, buf0, history0, marked0 := owner, flash, buf, history, Marked(tree);
      UsedNothing(owner, flash);
      var t := bc.GetBlockTimeStamp();
      ghost var pages := Merge(Logical(flash[ob]), DirtyMap(buf.pool, o, geo.pages), 0, geo.pages);
      ghost var turned: set<nat> := {};
      NoneTurnedBad(flash, marked0, owner, geo, history, typeOf(o), o, NextTimeStamp(t), pages);
      while true
        invariant CacheOk(buf, geo, typeOf) && GroupOf(buf, s, o) && buf == buf0.(lru := buf.lru) && bc.Valid()
        invariant StoreOk(flash, tree, owner, geo, typeOf) && tree.nodes == old(tree).nodes
        invariant OnlyErasedUsed(owner0, owner, flash0, flash) && TakenAtMost(owner0, owner, {})
        invariant TurnedBad(turned, flash0, marked0, owner0, flash, Marked(tree), owner, geo)
        invariant MidRun(history0, history, flash0, marked0, owner0, geo, typeOf(o), o, NextTimeStamp(t), pages)
        invariant WornBy(old(tree), old(faults), tree, faults, 0, 0)
        decreases |tree.erased|
      {
        NotErasedNotUsed(owner0, owner, flash0, flash, ob);
        ghost var owner1, flash1, history1, tree1 := owner, flash, history, tree;
        ok, nb := GetErasedBlock();
        if !ok {
          return;
        }
        SameMarked(tree1, tree);
        ErasedAllAlong(owner0, owner1, flash0, flash1, nb);
        var bad := CopyPages(s, o, ob, nb, bc, NextTimeStamp(t));
        CopyJoins(turned, flash0, marked0, owner0, flash1, Marked(tree1), owner1, geo, history0, history1, history,
                  nb, typeOf(o), o, NextTimeStamp(t), pages);
        RewriteTaken(flash1, tree, owner, geo, typeOf, nb, flash[nb]);
        UsedErased(owner0, owner1, flash0, flash1, nb, Taken, flash[nb]);
        if !bad {
          CopiedBlock(flash1, flash, nb, geo, typeOf(o), o, NextTimeStamp(t), pages);
          return;
        }
        OneMoreBad(turned, flash0, marked0, owner0, flash1, Marked(tree1), owner1, geo, nb, flash, history0, history,
                   typeOf(o), o, NextTimeStamp(t), pages);
        turned := turned + {nb};
        MarkBad(nb);
        assert owner == owner1[nb := InBad];
        UsedErased(owner0, owner1, flash0, flash1, nb, InBad, flash[nb]);
      }
    }

    /** The object's node takes the new block; the old block is erased unless it was never used, and joins the
        erased list, or is put aside if it is bad. */
    method ReplaceBlock(o: Obj, ob: nat, nb: nat, bc: BlockInfo, badOld: bool)
      requires StoreOk(flash, tree, owner, geo, typeOf) && ob in flash && ob in owner && nb in flash && nb in owner
      requires owner[nb] == Taken && nb != ob && BlockOk(flash[nb], geo, typeOf(o), o)
      requires if o in tree.nodes then tree.nodes[o] == ob else owner[ob] == Taken
      requires RecoverSource(flash[ob], geo, typeOf(o), o) && bc.Valid() && bc.stored == TagsOf(flash[ob])
      modifies this`flash, this`tree, this`owner, this`history, bc`spares, bc`expiredCount
      ensures StoreOk(flash, tree, owner, geo, typeOf) && bc.Valid()
      ensures tree.nodes == if o in old(tree).nodes then old(tree).nodes[o := nb] else old(tree).nodes
      ensures owner == old(owner)[nb := if o in old(tree).nodes then InNode(o) else Taken]
                       [ob := if badOld then InBad else InErased]
      ensures ob in flash && flash == old(flash)[ob := flash[ob]]
      ensures tree.erased == if badOld then old(tree).erased else old(tree).erased + [ob]
      ensures tree.bad == if badOld then [ob] + old(tree).bad else old(tree).bad
      ensures badOld || BlockOk(old(flash)[ob], geo, typeOf(o), o) ==>
                history == old(history) + [Snapshot(flash, Marked(tree))]
      ensures !badOld && BlockOk(old(flash)[ob], geo, typeOf(o), o) ==>
                flash[ob] == ErasedBlock(geo.pages, geo.pageSize)
    {
      hide *;
      if o in tree.nodes {
        SwapNode(flash, tree, owner, geo, typeOf, o, nb);
        tree := tree.(nodes := tree.nodes[o := nb]);
        owner := owner[nb := InNode(o)][ob := Taken];
      }
      if badOld {
        MarkBad(ob);
      } else {
        var used := bc.IsBlockUsed();
        RecoverSourceUse(flash[ob], geo, typeOf(o), o);
        if used {
          RewriteTaken(flash, tree, owner, geo, typeOf, ob, ErasedBlock(geo.pages, geo.pageSize));
          EraseBlock(ob);
        }
        ErasedBlockIsErased(geo);
        GiveErased(flash, tree, owner, geo, typeOf, ob);
        SameMarked(tree, tree.(erased := tree.erased + [ob]));
        tree := tree.(erased := tree.erased + [ob]);
        owner := owner[ob := InErased];
      }
    }

    /** The merge of the old block and the dirty group has been written to block nb; the object's node
        points at it, the dirty buffers are valid, and the old block is erased, or put aside if it is bad. */
    method BlockRecover(s: nat, o: Obj, ob: nat, bc: BlockInfo, badOld: bool)
      returns (ok: bool, nb: nat, ghost history1: seq<Snapshot>)
      requires CacheOk(buf, geo, typeOf) && GroupOf(buf, s, o) && StoreOk(flash, tree, owner, geo, typeOf)
      requires ob in flash && ob in owner && RecoverSource(flash[ob], geo, typeOf(o), o)
      requires if o in tree.nodes then tree.nodes[o] == ob else owner[ob] == Taken
      requires bc.Valid() && bc.stored == TagsOf(flash[ob]) && ValidBuffersAgree(buf.pool, o, Logical(flash[ob]))
      requires Extends(Logical(flash[ob]), DirtyMap(buf.pool, o, geo.pages), geo.pages)
      modifies this`buf, this`flash, this`tree, this`owner, this`history, this`faults, bc`spares, bc`expiredCount
      ensures CacheOk(buf, geo, typeOf) && StoreOk(flash, tree, owner, geo, typeOf) && bc.Valid()
      ensures !ok ==> buf == old(buf).(lru := buf.lru) && tree.nodes == old(tree).nodes && tree.erased == [] &&
                      OnlyErasedUsed(old(owner), owner, old(flash), flash) && TakenAtMost(old(owner), owner, {})
      ensures ok ==> AllCleaned(old(buf).pool, buf.pool, o) && s < |old(buf).groups| &&
                     buf.groups == old(buf).groups[s := Group([], 0, old(buf).groups[s].lock)]
      ensures ok ==> nb in flash && BlockOk(flash[nb], geo, typeOf(o), o) && nb != ob && nb in owner &&
                     owner[nb] == (if o in old(tree).nodes then InNode(o) else Taken)
      ensures var pages := Merge(Logical(old(flash)[ob]), DirtyMap(old(buf).pool, o, geo.pages), 0, geo.pages);
              ok ==> Logical(flash[nb]) == pages
      ensures ok ==> tree.nodes == (if o in old(tree).nodes then old(tree).nodes[o := nb] else old(tree).nodes)
      ensures ok ==> OthersKept(old(tree).nodes, old(flash), flash, o)
      ensures ok ==> TakenAtMost(old(owner), owner, if o in old(tree).nodes then {} else {nb}) &&
                     ob in owner && owner[ob] != Taken
      ensures WornBy(old(tree), old(faults), tree, faults, if ok && badOld then 1 else 0, if ok && badOld then 1 else 0)
      ensures MidRun(old(history), history1, old(flash), Marked(old(tree)), old(owner), geo, typeOf(o), o,
                     NextTimeStamp(TimeStampOf(TagsOf(old(flash)[ob]))),
                     Merge(Logical(old(flash)[ob]), DirtyMap(old(buf).pool, o, geo.pages), 0, geo.pages))
      ensures !ok ==> history == history1
      ensures ok && o in old(tree).nodes ==> history == history1 + [Snapshot(flash, Marked(tree))]
      ensures ok && o in old(tree).nodes ==> Moved(geo, o, ob, badOld, flash, tree)
    {
      hide *;
      WearIs();
      GeoFacts(geo);
      RecoverSourceFacts(flash[ob], geo, typeOf(o), o);
      SourceNotErased(flash, tree, owner, geo, typeOf, o, ob);
      ghost var buf0, owner0, flash0, tree0 := buf, owner, flash, tree;
      ghost var nodes0 := tree.nodes;
      ok, nb := WriteMerged(s, o, ob, bc);
      history1 := history;
      if !ok {
        return;
      }
      MergedBlockOk(buf0, geo, typeOf, s, o, flash0[ob], NextTimeStamp(TimeStampOf(TagsOf(flash0[ob]))));
      NotErasedNotUsed(owner0, owner, flash0, flash, ob);
      CleanDirtyBuffers(s, o);
      ghost var owner1, flash1 := owner, flash;
      ReplaceBlock(o, ob, nb, bc, badOld);
      OthersAreKept(flash0, nodes0, owner0, owner1, flash1, flash, geo, typeOf, o, ob);
      TakenAfterRecover(owner0, owner1, owner, nb, ob);
      if o in nodes0 {
        NodeBlockOk(flash0, tree0, owner0, geo, typeOf, o);
        MovedIs(geo, o, ob, badOld, flash, tree);
      }
    }

    // ----- dirty buffers become valid

    /** Take a buffer out of the dirty list of its object; fails for a buffer that is not dirty. */
    method BreakFromDirty(i: nat) returns (ok: bool, ghost s: nat)
      requires GroupsOk(buf) && i < |buf.pool|
      modifies this`buf
      ensures ok <==> old(buf).pool[i].mark == Dirty
      ensures buf.pool == old(buf).pool && buf.lru == old(buf).lru
      ensures ok ==> GroupOf(old(buf), s, ObjOf(old(buf).pool[i])) && old(buf).groups[s].count > 0 &&
                     buf.groups == CleanOne(old(buf), s, i, old(buf).pool[i]).groups
      ensures !ok ==> buf == old(buf)
    {
      s := 0;
      if buf.pool[i].mark != Dirty {
        return false, 0;
      }
      DirtyHasGroup(buf, i);
      var slot := FindGroupSlot(ObjOf(buf.pool[i]));
      s := slot;
      assert GroupOk(buf, slot);
      var group := buf.groups[slot];
      buf := buf.(groups := buf.groups[slot := Group(Without(group.dirty, i), group.count - 1, group.lock)]);
      ok := true;
    }

    /** The page of a dirty buffer is on flash now. */
    method WrittenOut(s: nat, i: nat, clearTail: bool)
      requires CacheOk(buf, geo, typeOf) && i < |buf.pool| && buf.pool[i].mark == Dirty
      requires GroupOf(buf, s, ObjOf(buf.pool[i]))
      modifies this`buf
      ensures CacheOk(buf, geo, typeOf)
      ensures |buf.pool| == |old(buf).pool| && buf.pool == old(buf).pool[i := buf.pool[i]]
      ensures Cleaned(old(buf).pool[i], buf.pool[i]) && buf.lru == [i] + Without(old(buf).lru, i)
      ensures s < |old(buf).groups| && old(buf).groups[s].count > 0
      ensures buf.groups == CleanOne(old(buf), s, i, old(buf).pool[i]).groups
    {
      hide *;
      CacheParts(buf, geo, typeOf);
      ghost var buf0 := buf;
      var ok, t := BreakFromDirty(i);
      OneGroupPerObj(buf0, s, t, ObjOf(buf0.pool[i]));
      var b := AsClean(buf.pool[i], clearTail);
      WrittenOutKeepsCacheOk(buf0, geo, typeOf, s, i, b);
      buf := buf.(pool := buf.pool[i := b]);
      MoveToHead(i);
      NewLruKeepsCacheOk(CleanOne(buf0, s, i, b), geo, typeOf, buf.lru);
    }

    /** Every dirty buffer of the group's object becomes valid. */
    method CleanDirtyBuffers(s: nat, o: Obj)
      requires CacheOk(buf, geo, typeOf) && GroupOf(buf, s, o)
      modifies this`buf
      ensures CacheOk(buf, geo, typeOf) && AllCleaned(old(buf).pool, buf.pool, o)
      ensures s < |old(buf).groups| && buf.groups == old(buf).groups[s := Group([], 0, old(buf).groups[s].lock)]
    {
      hide *;
      ghost var buf0 := buf;
      CleanStarts(buf, geo, typeOf, s, o);
      for id := 0 to geo.pages
        invariant CacheOk(buf, geo, typeOf) && s < |buf.groups| && PartlyCleaned(buf0, buf, s, o, id)
      {
        GroupWellFormed(buf, geo, typeOf, s);
        var x := FindBufInDirtyList(s, id);
        if x >= 0 {
          ghost var before := buf;
          DirtyBufOf(buf0, buf, geo, typeOf, s, o, id, x);
          WrittenOut(s, x, true);
          CleanTakes(buf0, before, buf, geo, typeOf, s, o, id, x);
        } else {
          CleanSkips(buf0, buf, geo, typeOf, s, o, id);
        }
      }
      CleanEnds(buf0, buf, geo, typeOf, s, o);
    }

    // ----- the flush of a dirty group

    lemma ValidIs()
      ensures Valid() <==> DeviceOk(geo, typeOf, buf, flash, tree, owner, content)
    {
    }

    /** Objects without pages get their types. */
    ghost method SetTypes(types: Obj -> nat)
      requires Valid() && forall o :: types(o) != typeOf(o) ==> ContentAt(content, o) == []
      modifies this`typeOf
      ensures Valid() && typeOf == types
    {
      RetypeKeepsOk(geo, typeOf, types, buf, flash, tree, owner, content);
      typeOf := types;
    }

    /** Flush by a merge with the object's block. */
    method FlushByRecover(s: nat, o: Obj, bc: BlockInfo, badOld: bool) returns (ok: bool)
      requires s < |buf.groups| && Valid() && GroupOf(buf, s, o) && o in tree.nodes && tree.nodes[o] in flash
      requires bc.Valid() && bc.stored == TagsOf(flash[tree.nodes[o]])
      modifies this`buf, this`flash, this`tree, this`owner, this`history, this`faults, bc`spares, bc`expiredCount
      ensures Valid() && FlushStep(old(buf), buf, s, o) && bc.Valid()
      ensures Onward(old(buf), old(flash), old(tree), buf, flash, tree, {})
      ensures ok ==> Moved(geo, o, old(tree).nodes[o], badOld, flash, tree)
      ensures tree.nodes.Keys == old(tree).nodes.Keys
      ensures ok ==> s < |buf.groups| && buf.groups[s].dirty == []
      ensures !ok ==> tree.erased == []
      ensures WornBy(old(tree), old(faults), tree, faults, if ok && badOld then 1 else 0, if ok && badOld then 1 else 0)
      ensures RecoverRun(geo, typeOf, o, old(buf), old(flash), old(tree), old(owner), old(history), flash, tree,
                         history, ok)
    {
      hide *;
      WearIs();
      ValidIs();
      ghost var buf0, flash0, tree0, owner0, history0 := buf, flash, tree, owner, history;
      var ob := tree.nodes[o];
      RecoverReady(geo, typeOf, buf, flash, tree, owner, content, o);
      var nb;
      ghost var history1;
      ok, nb, history1 := BlockRecover(s, o, ob, bc, badOld);
      BlockFacts(flash0[ob], geo, typeOf(o), o);
      RecoverRunIs(geo, typeOf, o, buf0, flash0, tree0, owner0, history0, history1, flash, tree, history, ok);
      if ok {
        StoredIs(flash, tree.nodes, o);
        RecoverKeepsOk(geo, typeOf, content, buf0, flash0, tree0, owner0, buf, flash, tree, owner, o);
        WholeFlushStep(buf0, buf, s, o);
      } else {
        FailureKeepsOk(geo, typeOf, content, buf0, flash0, tree0, owner0, buf, flash, tree, owner);
        NoFlushStep(buf0, buf, s, o);
      }
      OnwardFlush(buf0, flash0, tree0, buf, flash, tree, s, o);
      ValidIs();
    }

    /** Flush the first pages of an object to a new block and enter it in the tree. */
    method FlushNewBlock(s: nat, o: Obj) returns (ok: bool)
      requires s < |buf.groups| && Valid() && GroupOf(buf, s, o) && o !in tree.nodes
      modifies this`buf, this`flash, this`tree, this`owner, this`history, this`faults
      ensures Valid() && FlushStep(old(buf), buf, s, o)
      ensures Onward(old(buf), old(flash), old(tree), buf, flash, tree, {}) && faults <= old(faults)
      ensures tree.nodes.Keys == old(tree).nodes.Keys + (if ok then {o} else {})
      ensures ok ==> s < |buf.groups| && buf.groups[s].dirty == []
      ensures !ok ==> |tree.erased| < 2
      ensures WornBy(old(tree), old(faults), tree, faults, if ok then 1 else 0, 0)
    {
      hide *;
      WearIs();
      ValidIs();
      GeoFacts(geo);
      ghost var buf0, flash0, tree0, owner0 := buf, flash, tree, owner;
      RecoverReady(geo, typeOf, buf, flash, tree, owner, content, o);
      NoFlushStep(buf, buf, s, o);
      OnwardSame(buf, flash, tree, buf);
      var ob;
      ok, ob := GetErasedBlock();
      if !ok {
        return;
      }
      ErasedSource(flash[ob], geo, typeOf(o), o);
      NothingAgrees(buf.pool, o, Logical(flash[ob]));
      StoredIs(flash0, tree0.nodes, o);
      var bc := new BlockInfo(TagsOf(flash[ob]));
      bc.InitErased();
      ghost var owner1, flash1 := owner, flash;
      var nb;
      ghost var history1;
      ok, nb, history1 := BlockRecover(s, o, ob, bc, false);
      if ok {
        InsertNode(flash, tree, owner, geo, typeOf, o, nb);
        TakenAfterNewBlock(owner0, owner1, owner, ob, nb, o);
        tree := tree.(nodes := tree.nodes[o := nb]);
        owner := owner[nb := InNode(o)];
        StoredIs(flash, tree.nodes, o);
        RecoverKeepsOk(geo, typeOf, content, buf0, flash0, tree0, owner0, buf, flash, tree, owner, o);
        WholeFlushStep(buf0, buf, s, o);
      } else {
        GiveBackErased(ob, owner1, flash1, owner0, flash0);
        FailureKeepsOk(geo, typeOf, content, buf0, flash0, tree0, owner0, buf, flash, tree, owner);
        NoFlushStep(buf0, buf, s, o);
      }
      OnwardFlush(buf0, flash0, tree0, buf, flash, tree, s, o);
      ValidIs();
    }

    /** Erase the block in hand again and put it back in the erased list. */
    method GiveBackErased(b: nat, ghost owner1: map<nat, Owner>, ghost flash1: Flash,
                          ghost owner0: map<nat, Owner>, ghost flash0: Flash)
      requires StoreOk(flash, tree, owner, geo, typeOf) && b in owner0 && owner0[b] == InErased && b in flash0
      requires owner1 == owner0[b := Taken] && flash1 == flash0
      requires OnlyErasedUsed(owner1, owner, flash1, flash) && TakenAtMost(owner1, owner, {})
      modifies this`flash, this`tree, this`owner, this`history
      ensures StoreOk(flash, tree, owner, geo, typeOf) && tree == old(tree).(erased := old(tree).erased + [b])
      ensures OnlyErasedUsed(owner0, owner, flash0, flash) && TakenAtMost(owner0, owner, {})
    {
      hide *;
      NotErasedNotUsed(owner1, owner, flash1, flash, b);
      GaveBackErased(owner0, owner1, owner, flash0, flash, b, ErasedBlock(geo.pages, geo.pageSize));
      RewriteTaken(flash, tree, owner, geo, typeOf, b, ErasedBlock(geo.pages, geo.pageSize));
      EraseBlock(b);
      ErasedBlockIsErased(geo);
      GiveErased(flash, tree, owner, geo, typeOf, b);
      tree := tree.(erased := tree.erased + [b]);
      owner := owner[b := InErased];
    }

    /** Write the dirty page with the smallest id to the first free page of the object's block. */
    method AppendOne(s: nat, o: Obj, ob: nat, bc: BlockInfo, page: nat) returns (bad: bool)
      requires s < |buf.groups| && o in tree.nodes && tree.nodes[o] == ob && ob in flash && page < |bc.spares|
      requires Valid() && GroupOf(buf, s, o) && bc.Valid() && bc.stored == TagsOf(flash[ob])
      requires page == Used(flash[ob]) < geo.pages && !bc.spares[page].expired
      modifies this`buf, this`flash, this`history, this`faults, bc
      ensures s < |buf.groups| && ob in flash
      ensures Valid() && FlushStep(old(buf), buf, s, o) && bc.Valid() && bc.stored == TagsOf(flash[ob])
      ensures Onward(old(buf), old(flash), tree, buf, flash, tree, {})
      ensures flash == old(flash)[ob := flash[ob]]
      ensures forall b :: Appended(b, old(flash)[ob]) ==> Appended(b, flash[ob])
      ensures bad ==> buf == old(buf)
      ensures !bad ==> Used(flash[ob]) == page + 1 && buf.groups[s].count + 1 == old(buf.groups[s].count) &&
                       (buf.groups[s].dirty != [] ==> GroupOf(buf, s, o))
      ensures OneFault(old(faults), faults, bad)
    {
      hide *;
      WearIs();
      ValidIs();
      GeoFacts(geo);
      RecoverReady(geo, typeOf, buf, flash, tree, owner, content, o);
      GroupFacts(buf, geo, typeOf, s, o);
      ghost var buf0, block0 := buf, flash[ob];
      var i := FindMinimumPageId(s);
      AppendReady(geo, typeOf, content, buf, flash, tree, owner, o, s, i);
      DirtyFacts(buf.pool[i], o);
      BlockFacts(flash[ob], geo, typeOf(o), o);
      var b := buf.pool[i];
      var ts := bc.GetBlockTimeStamp();
      var p := MakePage(b.ty, o, ts, b.pageId, PageOf(b));
      WroteFacts(p, b.ty, o, ts, b.pageId, PageOf(b), p);
      AppendToBlock(flash[ob], geo, typeOf(o), o, b.pageId, PageOf(b), p);
      ghost var wrote;
      bad, wrote := WritePage(ob, page, p);
      WroteFacts(p, b.ty, o, ts, b.pageId, PageOf(b), wrote);
      AppendToBlock(block0, geo, typeOf(o), o, b.pageId, PageOf(b), wrote);
      bc.Program(page, p.tag);
      if bad {
        BadAppendKeepsOk(geo, typeOf, content, buf, old(flash), tree, owner, o, i, LPage(wrote.data, b.dataLen),
                         flash[ob]);
        NoFlushStep(buf0, buf, s, o);
      } else {
        WrittenOut(s, i, false);
        AppendKeepsOk(geo, typeOf, content, buf0, old(flash), tree, owner, o, i, buf, flash[ob]);
        OneWrittenStep(buf0, buf, geo, typeOf, s, o, i);
      }
      OnwardFlush(buf0, old(flash), tree, buf, flash, tree, s, o);
      forall b | Appended(b, block0) ensures Appended(b, flash[ob]) {
        AppendedOne(b, block0, flash[ob], page, wrote);
      }
      ValidIs();
    }

    /** Append the dirty pages, sorted by page id, to the free pages of the object's block. */
    method FlushAppend(s: nat, o: Obj, bc: BlockInfo) returns (ok: bool)
      requires Valid() && GroupOf(buf, s, o) && o in tree.nodes && tree.nodes[o] in flash
      requires bc.Valid() && bc.stored == TagsOf(flash[tree.nodes[o]])
      requires s < |buf.groups| && buf.groups[s].count <= geo.pages - Used(flash[tree.nodes[o]])
      modifies this`buf, this`flash, this`tree, this`owner, this`history, this`faults, bc
      ensures Valid() && FlushStep(old(buf), buf, s, o)
      ensures Onward(old(buf), old(flash), old(tree), buf, flash, tree, {}) && faults <= old(faults)
      ensures tree.nodes.Keys == old(tree).nodes.Keys
      ensures ok ==> s < |buf.groups| && buf.groups[s].dirty == []
      ensures ok ==> FlushedTo(geo, false, old(buf).groups[s].count, o, old(flash), old(tree), old(faults),
                               flash, tree, faults)
      ensures !ok ==> tree.erased == [] && |old(tree).erased| <= old(faults)
      ensures ok ==> WornBy(old(tree), old(faults), tree, faults, 0, 0)
    {
      hide *;
      WearIs();
      GeoFacts(geo);
      ValidIs();
      RecoverReady(geo, typeOf, buf, flash, tree, owner, content, o);
      BlockFacts(flash[tree.nodes[o]], geo, typeOf(o), o);
      ghost var buf0, flash0, ob := buf, flash, tree.nodes[o];
      NoFlushStep(buf, buf, s, o);
      OnwardSame(buf, flash, tree, buf);
      AppendedNothing(flash[ob]);
      var page := 1;
      while page < geo.pages && buf.groups[s].count > 0
        invariant Valid() && FlushStep(buf0, buf, s, o) && tree == old(tree) && tree.nodes[o] in flash
        invariant faults == old(faults) && Onward(buf0, flash0, old(tree), buf, flash, tree, {})
        invariant flash == flash0[ob := flash[ob]] && Appended(flash0[ob], flash[ob])
        invariant s < |buf.groups| && Used(flash[ob]) + buf.groups[s].count == Used(flash0[ob]) + buf0.groups[s].count
        invariant bc.Valid() && bc.stored == TagsOf(flash[tree.nodes[o]])
        invariant s < |buf.groups| && (buf.groups[s].dirty != [] ==> GroupOf(buf, s, o))
        invariant page <= Used(flash[tree.nodes[o]]) <= geo.pages - buf.groups[s].count
      {
        ValidIs();
        RecoverReady(geo, typeOf, buf, flash, tree, owner, content, o);
        CountIsLength(buf, geo, typeOf, s);
        BlockFacts(flash[tree.nodes[o]], geo, typeOf(o), o);
        ghost var buf1, flash1 := buf, flash;
        assert TagIsErased(bc.stored[Used(flash[tree.nodes[o]])]);
        page := bc.FindFirstFreePage(page);
        if page == INVALID_PAGE {
          break;
        }
        var bad := AppendOne(s, o, tree.nodes[o], bc, page);
        FlushStepsCompose(buf0, buf1, buf, s, o);
        OnwardComposes(buf0, flash0, old(tree), buf1, flash1, tree, buf, flash, tree, {});
        if bad {
          ghost var buf2, flash2, tree2 := buf, flash, tree;
          ok := FlushByRecover(s, o, bc, true);
          FlushStepsCompose(buf0, buf2, buf, s, o);
          OnwardComposes(buf0, flash0, old(tree), buf2, flash2, tree2, buf, flash, tree, {});
          if ok {
            FlushedToIs(geo, false, buf0.groups[s].count, o, flash0, old(tree), old(faults), flash, tree, faults);
          }
          return;
        }
        page := page + 1;
      }
      ValidIs();
      RecoverReady(geo, typeOf, buf, flash, tree, owner, content, o);
      CountIsLength(buf, geo, typeOf, s);
      ok := buf.groups[s].dirty == [] && buf.groups[s].count == 0;
      FlushedToIs(geo, false, buf0.groups[s].count, o, flash0, old(tree), old(faults), flash, tree, faults);
    }

    /** Flush a dirty group: to a new block if the object has none, to the free pages of its block if they
        suffice, else by a merge. Success when the group is empty afterwards. */
    method FlushSlot(force: bool, s: nat) returns (ok: bool, ghost o: Obj)
      requires Valid() && s < |buf.groups|
      modifies this`buf, this`flash, this`tree, this`owner, this`history, this`faults
      ensures Valid() && FlushStep(old(buf), buf, s, o)
      ensures Onward(old(buf), old(flash), old(tree), buf, flash, tree, {}) && faults <= old(faults)
      ensures ok ==> s < |buf.groups| && buf.groups[s].dirty == []
      ensures ok && old(buf).groups[s].dirty != [] && o in old(tree).nodes ==>
                FlushedTo(geo, force, old(buf).groups[s].count, o, old(flash), old(tree), old(faults),
                          flash, tree, faults)
      ensures if old(buf).groups[s].dirty != [] then GroupOf(old(buf), s, o)
              else ok && buf == old(buf) && flash == old(flash) && tree == old(tree) && faults == old(faults)
      ensures old(tree).nodes.Keys <= tree.nodes.Keys <= old(tree).nodes.Keys + {o}
      ensures ok && old(buf).groups[s].dirty != [] ==> o in tree.nodes
      ensures |old(tree).erased| >= old(faults) + (if o in old(tree).nodes then 1 else 2) ==> ok
      ensures ok ==>
                |tree.erased| - faults >= |old(tree).erased| - old(faults) - (if o in old(tree).nodes then 0 else 1)
      ensures ok ==> |tree.bad| + faults <= |old(tree).bad| + old(faults)
    {
      hide *;
      WearIs();
      GeoFacts(geo);
      ValidIs();
      RecoverReady(geo, typeOf, buf, flash, tree, owner, content, (0, 0));
      CountIsLength(buf, geo, typeOf, s);
      if buf.groups[s].count == 0 {
        o := (0, 0);
        NoFlushStep(buf, buf, s, o);
        OnwardSame(buf, flash, tree, buf);
        return true, o;
      }
      var head := buf.pool[HeadOf(buf, geo, typeOf, s)];
      var obj := ObjOf(head);
      o := obj;
      if obj !in tree.nodes {
        ok := FlushNewBlock(s, obj);
        return;
      }
      RecoverReady(geo, typeOf, buf, flash, tree, owner, content, o);
      BlockFacts(flash[tree.nodes[o]], geo, typeOf(o), o);
      var bc := new BlockInfo(TagsOf(flash[tree.nodes[obj]]));
      bc.LoadAll();
      var n := bc.GetFreePagesCount();
      ghost var count, flash0, tree0, faults0 := buf.groups[s].count, flash, tree, faults;
      if n >= buf.groups[s].count && !force {
        ok := FlushAppend(s, obj, bc);
      } else {
        ok := FlushByRecover(s, obj, bc, false);
        FlushedToIs(geo, force, count, obj, flash0, tree0, faults0, flash, tree, faults);
      }
    }

    // ----- a block to be replaced

    /** Write the latest page of every id of a block to a fresh one: the tags are copied, the time stamp moved on. */
    method CopyLatest(ghost o: Obj, ob: nat, nb: nat, bc: BlockInfo) returns (bad: bool)
      requires ob in flash && nb in flash && ob != nb && BlockErased(flash[nb], geo) && |flash[ob]| > 0
      requires BlockOk(flash[ob], geo, typeOf(o), o) && bc.Valid() && bc.stored == TagsOf(flash[ob])
      modifies this`flash, this`history, this`faults, bc`spares, bc`expiredCount
      ensures nb in flash && flash == old(flash)[nb := flash[nb]] && |flash[nb]| == geo.pages && bc.Valid()
      ensures !bad ==> Copied(old(flash), flash, nb, geo, typeOf(o), o, NextTimeStamp(old(flash)[ob][0].tag.ts),
                              Merge(Logical(old(flash)[ob]), map[], 0, geo.pages))
      ensures OneFault(old(faults), faults, bad)
    {
      hide *;
      WearIs();
      ghost var prior, ts, ty := Logical(flash[ob]), NextTimeStamp(flash[ob][0].tag.ts), typeOf(o);
      ghost var target := Merge(prior, map[], 0, geo.pages);
      ghost var flash0, history0 := flash, history;
      ghost var written: seq<LPage> := [];
      GeoFacts(geo);
      BlockFacts(flash[ob], geo, ty, o);
      CopyStarts(flash, history, Marked(tree), nb, geo, ty, o, ts, target);
      MergeStarts(prior, map[], geo.pages);
      bad := false;
      var i := 0;
      while i < geo.pages
        invariant |written| == i <= geo.pages && Remaining(prior, map[], i, geo.pages, target, written)
        invariant bc.Valid() && nb in flash && flash == flash0[nb := flash[nb]] && |flash[nb]| == geo.pages
        invariant Copied(flash0, flash, nb, geo, ty, o, ts, written)
        invariant CopyHistory(history0, history, flash0, Marked(tree), nb, geo, ty, o, ts, target)
        invariant faults == old(faults) && !bad
      {
        LatestPage(flash[ob], geo, ty, o, i);
        MergeStep(prior, map[], i, geo.pages, target, written);
        var page := bc.FindLatest(i);
        if page == INVALID_PAGE {
          return;
        }
        var p := flash[ob][page];
        bad := CopyOne(nb, i, p.tag.ty, (p.tag.parent, p.tag.serial), NextTimeStamp(p.tag.ts), ContentOf(p),
                       flash0, history0, target, written);
        if bad {
          return;
        }
        written := written + [ContentOf(p)];
        i := i + 1;
      }
      MergeEnds(prior, map[], geo.pages, target, written);
    }

    /** Replace the block of an object by a copy: a bad block is put aside, one to be refreshed is erased. */
    method ProcessPendingRecover(o: Obj, isBad: bool) returns (ok: bool)
      requires Valid() && o in tree.nodes
      modifies this`flash, this`tree, this`owner, this`history, this`faults
      ensures Valid() && o in tree.nodes && tree.nodes.Keys == old(tree).nodes.Keys
      ensures ok ==> tree.nodes == old(tree).nodes[o := tree.nodes[o]] && tree.nodes[o] != old(tree).nodes[o] &&
                     Stored(flash, tree.nodes, o) == Stored(old(flash), old(tree).nodes, o)
      ensures ok ==> if isBad then old(tree).nodes[o] in tree.bad else old(tree).nodes[o] in tree.erased
      ensures !ok ==> tree.nodes == old(tree).nodes && tree.erased == []
      ensures WornBy(old(tree), old(faults), tree, faults, if ok && isBad then 1 else 0, if ok && isBad then 1 else 0)
    {
      hide *;
      WearIs();
      ValidIs();
      GeoFacts(geo);
      ghost var flash0, tree0, owner0 := flash, tree, owner;
      RecoverReady(geo, typeOf, buf, flash, tree, owner, content, o);
      var ob := tree.nodes[o];
      BlockFacts(flash[ob], geo, typeOf(o), o);
      var bc := new BlockInfo(TagsOf(flash[ob]));
      var nb;
      ok, nb := WriteCopy(o, ob, bc);
      if !ok {
        NoNewLru(buf);
        FailureKeepsOk(geo, typeOf, content, buf, flash0, tree0, owner0, buf, flash, tree, owner);
        ValidIs();
        return;
      }
      CopiedNothingNew(flash0[ob], geo, typeOf(o), o, NextTimeStamp(flash0[ob][0].tag.ts));
      NotErasedNotUsed(owner0, owner, flash0, flash, ob);
      ghost var owner1, flash1 := owner, flash;
      ReplaceBlock(o, ob, nb, bc, isBad);
      OthersAreKept(flash0, tree0.nodes, owner0, owner1, flash1, flash, geo, typeOf, o, ob);
      TakenAfterRecover(owner0, owner1, owner, nb, ob);
      StoredIs(flash, tree.nodes, o);
      StoredIs(flash0, tree0.nodes, o);
      MovedKeepsOk(geo, typeOf, content, buf, flash0, tree0, owner0, flash, tree, owner, o);
      ValidIs();
    }

    /** Copy the block of an object to an erased one; a block that turns bad is put aside and the next one is tried. */
    method WriteCopy(ghost o: Obj, ob: nat, bc: BlockInfo) returns (ok: bool, nb: nat)
      requires StoreOk(flash, tree, owner, geo, typeOf) && ob in flash && |flash[ob]| > 0
      requires ob in owner && owner[ob] == InNode(o) && BlockOk(flash[ob], geo, typeOf(o), o)
      requires bc.Valid() && bc.stored == TagsOf(flash[ob])
      modifies this`flash, this`tree, this`owner, this`history, this`faults, bc`spares, bc`expiredCount
      ensures StoreOk(flash, tree, owner, geo, typeOf) && tree.nodes == old(tree).nodes && bc.Valid()
      ensures OnlyErasedUsed(old(owner), owner, old(flash), flash) &&
              TakenAtMost(old(owner), owner, if ok then {nb} else {})
      ensures ok ==> nb in flash && nb in old(owner) && old(owner)[nb] == InErased && nb in owner && owner[nb] == Taken
      ensures ok ==> flash[nb] == BlockOf(geo, typeOf(o), o, NextTimeStamp(old(flash)[ob][0].tag.ts),
                                          Merge(Logical(old(flash)[ob]), map[], 0, geo.pages))
      ensures !ok ==> tree.erased == []
      ensures WornBy(old(tree), old(faults), tree, faults, if ok then 1 else 0, 0)
    {
      hide *;
      WearIs();
      ghost var owner0, flash0 := owner, flash;
      UsedNothing(owner, flash);
      while true
        invariant bc.Valid() && StoreOk(flash, tree, owner, geo, typeOf) && tree.nodes == old(tree).nodes
        invariant OnlyErasedUsed(owner0, owner, flash0, flash) && TakenAtMost(owner0, owner, {})
        invariant WornBy(old(tree), old(faults), tree, faults, 0, 0)
        decreases |tree.erased|
      {
        NotErasedNotUsed(owner0, owner, flash0, flash, ob);
        ghost var owner1, flash1 := owner, flash;
        ok, nb := GetErasedBlock();
        if !ok {
          return;
        }
        ErasedAllAlong(owner0, owner1, flash0, flash1, nb);
        var bad := CopyLatest(o, ob, nb, bc);
        RewriteTaken(flash1, tree, owner, geo, typeOf, nb, flash[nb]);
        UsedErased(owner0, owner1, flash0, flash1, nb, Taken, flash[nb]);
        if !bad {
          CopiedBlock(flash1, flash, nb, geo, typeOf(o), o, NextTimeStamp(flash0[ob][0].tag.ts),
                      Merge(Logical(flash0[ob]), map[], 0, geo.pages));
          return;
        }
        MarkBad(nb);
        assert owner == owner1[nb := InBad];
        UsedErased(owner0, owner1, flash0, flash1, nb, InBad, flash[nb]);
      }
    }

    // ----- the buffer cache

    /** Flush the group of an object, if it has one. */
    method FlushGroup(o: Obj) returns (ok: bool)
      requires Valid()
      modifies this`buf, this`flash, this`tree, this`owner, this`history, this`faults
      ensures Valid() && Flushed(old(buf), buf) && old(tree).nodes.Keys <= tree.nodes.Keys
      ensures Onward(old(buf), old(flash), old(tree), buf, flash, tree, {})
      ensures ok ==> forall i :: 0 <= i < |buf.pool| ==> !(buf.pool[i].mark == Dirty && ObjOf(buf.pool[i]) == o)
      ensures ok && (exists i ::
                     0 <= i < |old(buf).pool| && old(buf).pool[i].mark == Dirty && ObjOf(old(buf).pool[i]) == o) ==>
                o in tree.nodes
      ensures ok ==> GroupEmptied(old(buf), buf, o)
      ensures OnlyOfObj(old(buf).pool, buf.pool, o) && faults <= old(faults)
      ensures ok ==> GroupFlushedTo(geo, old(buf), o, old(flash), old(tree), old(faults), flash, tree, faults)
      ensures forall x :: RoomFor(old(buf), old(tree), Wear(old(faults), maxFaults), x) ==>
              ok && RoomFor(buf, tree, Wear(faults, maxFaults), x)
    {
      hide *;
      ValidIs();
      OkParts(geo, typeOf, buf, flash, tree, owner, content);
      ghost var buf0, flash0, tree0, faults0 := buf, flash, tree, faults;
      OnlySame(buf.pool);
      var slot := FindGroupSlot(o);
      if slot >= 0 {
        SlotIsGroup(buf, slot, o);
        ghost var o';
        ok, o' := FlushSlot(false, slot);
        OneObjPerGroup(buf0, slot, o, o');
        OnlyFlushedObj(buf0, buf, slot, o);
        ValidIs();
        OkParts(geo, typeOf, buf, flash, tree, owner, content);
        if ok {
          GroupFlushedIs(geo, buf0, slot, o, flash0, tree0, faults0, flash, tree, faults);
          FlushedGroupIsClean(buf0, buf, geo, typeOf, slot, o);
          EmptiedIs(buf0, buf, slot, o);
        }
        FlushStepIsFlushed(buf0, buf, slot, o);
        forall x | RoomFor(buf0, tree0, Wear(faults0, maxFaults), x)
          ensures ok && RoomFor(buf, tree, Wear(faults, maxFaults), x)
        {
          RoomForFlush(buf0, tree0, Wear(faults0, maxFaults), slot, o, x);
          RoomKept(buf0, tree0, Wear(faults0, maxFaults), buf, tree, Wear(faults, maxFaults), slot, o, x);
        }
      } else {
        NoGroupNoDirty(buf, o);
        NoGroupEmptied(buf, o);
        NoGroupFlushed(geo, buf, o, flash, tree, faults, flash, tree, faults);
        NothingFlushed(buf, buf);
        OnwardSame(buf, flash, tree, buf);
        ok := true;
      }
    }

    /** Flush the unlocked group with the most dirty buffers, if there is one. */
    method FlushMostDirtyGroup() returns (ok: bool, ghost s: nat, ghost o: Obj)
      requires Valid()
      modifies this`buf, this`flash, this`tree, this`owner, this`history, this`faults
      ensures Valid() && Flushed(old(buf), buf) && old(tree).nodes.Keys <= tree.nodes.Keys
      ensures Onward(old(buf), old(flash), old(tree), buf, flash, tree, {})
      ensures buf == old(buf) || (GroupOf(old(buf), s, o) && FlushStep(old(buf), buf, s, o) &&
                                  (ok ==> s < |buf.groups| && buf.groups[s].dirty == []))
      ensures (exists t :: 0 <= t < |old(buf).groups| && Flushable(old(buf).groups[t])) ==>
                MostDirty(old(buf).groups, s) && (ok ==> s < |buf.groups| && buf.groups[s].dirty == [])
      ensures ok && buf != old(buf) && o in old(tree).nodes ==>
                s < |old(buf).groups| &&
                FlushedTo(geo, false, old(buf).groups[s].count, o, old(flash), old(tree), old(faults),
                          flash, tree, faults)
      ensures buf == old(buf) && ok ==> forall t :: 0 <= t < |buf.groups| ==> !Flushable(buf.groups[t])
      ensures forall x :: RoomFor(old(buf), old(tree), Wear(old(faults), maxFaults), x) ==>
              ok && RoomFor(buf, tree, Wear(faults, maxFaults), x)
    {
      hide *;
      ValidIs();
      OkParts(geo, typeOf, buf, flash, tree, owner, content);
      ghost var buf0, tree0, faults0 := buf, tree, faults;
      NothingFlushed(buf, buf);
      OnwardSame(buf, flash, tree, buf);
      s, o := 0, (0, 0);
      var slot := FindMostDirtyGroup();
      ok := true;
      if slot >= 0 {
        s := slot;
        FlushableGroup(buf, geo, typeOf, slot);
        ok, o := FlushSlot(false, slot);
        FlushStepIsFlushed(buf0, buf, slot, o);
        forall x | RoomFor(buf0, tree0, Wear(faults0, maxFaults), x)
          ensures ok && RoomFor(buf, tree, Wear(faults, maxFaults), x)
        {
          RoomForFlush(buf0, tree0, Wear(faults0, maxFaults), slot, o, x);
          RoomKept(buf0, tree0, Wear(faults0, maxFaults), buf, tree, Wear(faults, maxFaults), slot, o, x);
        }
      }
    }

    /** A buffer nobody needs, flushing the most dirty group if there is none; -1 if that did not help. */
    method GetFreeBuf() returns (i: int)
      requires Valid()
      modifies this`buf, this`flash, this`tree, this`owner, this`history, this`faults
      ensures Valid() && Flushed(old(buf), buf) && old(tree).nodes.Keys <= tree.nodes.Keys
      ensures Onward(old(buf), old(flash), old(tree), buf, flash, tree, {})
      ensures -1 <= i < |buf.pool| && (i >= 0 ==> LeastRecent(buf, i))
      ensures i >= 0 ==> IsFree(buf.pool[i])
      ensures HasFree(old(buf).pool) ==>
              buf == old(buf) && flash == old(flash) && tree == old(tree) && faults == old(faults)
      ensures i < 0 ==> forall j :: 0 <= j < |buf.pool| ==> !IsFree(buf.pool[j])
      ensures forall x :: RoomFor(old(buf), old(tree), Wear(old(faults), maxFaults), x) ==>
                            RoomFor(buf, tree, Wear(faults, maxFaults), x) && (NoneHeld(old(buf).pool) ==> i >= 0)
    {
      hide *;
      ValidIs();
      OkParts(geo, typeOf, buf, flash, tree, owner, content);
      NothingFlushed(buf, buf);
      OnwardSame(buf, flash, tree, buf);
      HasFreeIs(buf.pool);
      i := FindFreeBuf();
      if i < 0 {
        ghost var buf0, tree0, faults0 := buf, tree, faults;
        var ok;
        ghost var s, o;
        ok, s, o := FlushMostDirtyGroup();
        ValidIs();
        OkParts(geo, typeOf, buf, flash, tree, owner, content);
        i := FindFreeBuf();
        forall x | RoomFor(buf0, tree0, Wear(faults0, maxFaults), x) ensures NoneHeld(buf0.pool) ==> i >= 0 {
          if NoneHeld(buf0.pool) && i < 0 {
            FlushFoundBuffer(buf0, buf, geo, typeOf, s, o, tree0, Wear(faults0, maxFaults), x);
          }
        }
      }
    }

    /** Drop a reference to a buffer. */
    method BufPut(i: nat) returns (ok: bool)
      requires Valid() && i < |buf.pool|
      modifies this`buf
      ensures Valid() && |buf.pool| == |old(buf).pool|
      ensures ok <==> old(buf).pool[i].refCount > 0
      ensures buf == if ok then WithRefs(old(buf), i, old(buf).pool[i].refCount - 1) else old(buf)
      ensures Onward(old(buf), flash, tree, buf, flash, tree, {})
      ensures forall x :: RoomFor(old(buf), tree, Wear(faults, maxFaults), x) ==>
              RoomFor(buf, tree, Wear(faults, maxFaults), x)
    {
      hide *;
      ok := buf.pool[i].refCount > 0;
      OnwardSame(buf, flash, tree, buf);
      WithRefsIs(buf, i, if ok then buf.pool[i].refCount - 1 else 0);
      if ok {
        ValidIs();
        NewRefKeepsOk(geo, typeOf, content, buf, flash, tree, owner, i, buf.pool[i].refCount - 1);
        forall x | RoomFor(buf, tree, Wear(faults, maxFaults), x)
          ensures RoomFor(WithRefs(buf, i, buf.pool[i].refCount - 1), tree, Wear(faults, maxFaults), x)
        {
          WithRefsKeepsRoom(buf, tree, Wear(faults, maxFaults), i, buf.pool[i].refCount - 1, x);
        }
        SameDirtRefs(buf.pool[i], buf.pool[i].refCount - 1);
        OnwardOne(buf, flash, tree, i, buf.pool[i].(refCount := buf.pool[i].refCount - 1),
                  buf.(pool := buf.pool[i := buf.pool[i].(refCount := buf.pool[i].refCount - 1)]));
        buf := buf.(pool := buf.pool[i := buf.pool[i].(refCount := buf.pool[i].refCount - 1)]);
        ValidIs();
      }
    }

    /** A buffer for a page that has none; -1 if no buffer can be had. */
    method BlankBuf(ty: nat, o: Obj, id: nat) returns (i: int)
      requires Valid() && forall j :: 0 <= j < |buf.pool| ==> !HasKey(buf.pool[j], o, id)
      modifies this`buf, this`flash, this`tree, this`owner, this`history, this`faults
      ensures Valid() && old(tree).nodes.Keys <= tree.nodes.Keys && |buf.pool| == |old(buf).pool| &&
              |buf.groups| == |old(buf).groups|
      ensures -1 <= i < |buf.pool|
      ensures Onward(old(buf), old(flash), old(tree), buf, flash, tree, {})
      ensures HasFree(old(buf).pool) ==> flash == old(flash) && tree == old(tree) && faults == old(faults)
      ensures i >= 0 ==> buf.pool[i] == NewBuf(ty, o, id, 1, geo) && buf.lru != [] && buf.lru[0] == i
      ensures forall j :: 0 <= j < |buf.pool| ==> !HasKey(buf.pool[j], o, id)
      ensures NoneHeld(old(buf).pool) ==> if i >= 0 then OnlyHeld(buf.pool, i) else NoneHeld(buf.pool)
      ensures BelowMax(old(buf).groups, dirtyMax) ==> BelowMax(buf.groups, dirtyMax)
      ensures forall x :: RoomFor(old(buf), old(tree), Wear(old(faults), maxFaults), x) ==>
                            RoomFor(buf, tree, Wear(faults, maxFaults), x) && (NoneHeld(old(buf).pool) ==> i >= 0)
    {
      hide *;
      ghost var buf0, flash0, tree0 := buf, flash, tree;
      i := GetFreeBuf();
      FlushedHolds(buf0, buf);
      FlushedKeys(buf0, buf, o, id);
      FlushedBelowMax(buf0, buf, dirtyMax);
      if i >= 0 {
        ghost var buf1 := buf;
        AssignBuf(i, NewBuf(ty, o, id, 1, geo), ty, o, id);
        OnwardComposes(buf0, flash0, tree0, buf1, flash, tree, buf, flash, tree, {});
      }
    }

    /** A buffer for a page that does not exist yet; -1 if no buffer can be had. A page that has a buffer gets that one,
        and if nobody held it, its length is reset at once: unless it was held, buffers and flash then disagree. */
    method BufNew(ty: nat, o: Obj, id: nat) returns (i: int)
      requires Valid()
      modifies this`buf, this`flash, this`tree, this`owner, this`history, this`faults
      ensures |buf.pool| == |old(buf).pool| && |buf.groups| == |old(buf).groups| && -1 <= i < |buf.pool|
      ensures Unbuffered(old(buf).pool, o, id) ==>
                Valid() && Unbuffered(buf.pool, o, id) && old(tree).nodes.Keys <= tree.nodes.Keys &&
                Onward(old(buf), old(flash), old(tree), buf, flash, tree, {}) &&
                (i >= 0 ==> buf.pool[i] == NewBuf(ty, o, id, 1, geo)) &&
                (NoneHeld(old(buf).pool) ==> if i >= 0 then OnlyHeld(buf.pool, i) else NoneHeld(buf.pool)) &&
                (BelowMax(old(buf).groups, dirtyMax) ==> BelowMax(buf.groups, dirtyMax))
      ensures Unbuffered(old(buf).pool, o, id) ==>
                forall x :: RoomFor(old(buf), old(tree), Wear(old(faults), maxFaults), x) ==>
                              RoomFor(buf, tree, Wear(faults, maxFaults), x) && (NoneHeld(old(buf).pool) ==> i >= 0)
      ensures !Unbuffered(old(buf).pool, o, id) ==>
                i >= 0 && HasKey(old(buf).pool[i], o, id) && LruOk(buf.lru, |buf.pool|) &&
                buf == old(buf).(lru := buf.lru, pool := old(buf).pool[i := Reset(old(buf).pool[i])]) &&
                flash == old(flash) && tree == old(tree) && owner == old(owner) && history == old(history)
      ensures !Unbuffered(old(buf).pool, o, id) ==> i >= 0 && (Valid() <==> old(buf).pool[i].refCount > 0)
      ensures i >= 0 ==> buf.lru != [] && buf.lru[0] == i
      ensures HasFree(old(buf).pool) ==> flash == old(flash) && tree == old(tree) && faults == old(faults)
    {
      hide *;
      ValidIs();
      OkParts(geo, typeOf, buf, flash, tree, owner, content);
      UnbufferedIs(buf.pool, o, id);
      i := FindBuf(o, id);
      if i < 0 {
        i := BlankBuf(ty, o, id);
        UnbufferedIs(buf.pool, o, id);
        return;
      }
      ResetKeepsOkIff(geo, typeOf, content, buf, flash, tree, owner, o, i);
      ghost var buf0 := buf;
      var b := buf.pool[i];
      var refs := b.refCount + 1;
      b := b.(refCount := refs, dataLen := if refs > 1 then b.dataLen else 0);
      ResetIs(buf.pool[i], b);
      buf := buf.(pool := buf.pool[i := b]);
      ghost var buf1 := buf;
      MoveToHead(i);
      LruIsNothing(geo, typeOf, content, buf1, flash, tree, owner, buf.lru);
      ValidIs();
    }

    /** Assign a free buffer to a page. */
    method AssignBuf(i: nat, b: Buf, ghost ty: nat, ghost o: Obj, ghost id: nat)
      requires Valid() && i < |buf.pool| && IsFree(buf.pool[i]) && b == NewBuf(ty, o, id, 1, geo)
      requires forall j :: 0 <= j < |buf.pool| ==> !HasKey(buf.pool[j], o, id)
      modifies this`buf
      ensures Valid() && |buf.pool| == |old(buf).pool| && buf.groups == old(buf).groups &&
              buf.pool == old(buf).pool[i := b]
      ensures buf.lru != [] && buf.lru[0] == i
      ensures Onward(old(buf), flash, tree, buf, flash, tree, {})
      ensures forall j :: 0 <= j < |buf.pool| ==> !HasKey(buf.pool[j], o, id)
      ensures NoneHeld(old(buf).pool) ==> OnlyHeld(buf.pool, i)
      ensures forall x :: RoomFor(old(buf), tree, Wear(faults, maxFaults), x) ==>
              RoomFor(buf, tree, Wear(faults, maxFaults), x)
    {
      hide *;
      ValidIs();
      FreeFacts(buf.pool[i]);
      NewBufFits(ty, o, id, 1, geo, typeOf, buf.pool[i]);
      SameDirtKeepsOk(geo, typeOf, content, buf, flash, tree, owner, i, b);
      ghost var buf0 := buf;
      forall x | RoomFor(buf, tree, Wear(faults, maxFaults), x)
        ensures RoomFor(buf.(pool := buf.pool[i := b]), tree, Wear(faults, maxFaults), x)
      {
        SameDirtKeepsRoom(buf, tree, Wear(faults, maxFaults), i, b, x);
      }
      NowHeld(buf.pool, buf.pool[i := b], i);
      DeadHasNoKey(b, o, id);
      buf := buf.(pool := buf.pool[i := b]);
      ValidIs();
      OkParts(geo, typeOf, buf, flash, tree, owner, content);
      MoveToHead(i);
      OnwardOne(buf0, flash, tree, i, b, buf);
      NewLruKeepsOk(geo, typeOf, content, buf0.(pool := buf0.pool[i := b]), flash, tree, owner, buf.lru);
      NewLruKeepsRoom(buf0.(pool := buf0.pool[i := b]), buf, tree, Wear(faults, maxFaults));
      ValidIs();
    }

    /** The buffer of a page of an object in the tree, loaded from flash unless it is in the pool. */
    method BufGetEx(ty: nat, o: Obj, id: nat) returns (i: int)
      requires Valid() && o in tree.nodes && ty == typeOf(o) && id < geo.pages
      modifies this`buf, this`flash, this`tree, this`owner, this`history, this`faults
      ensures Valid() && old(tree).nodes.Keys <= tree.nodes.Keys && |buf.pool| == |old(buf).pool| &&
              |buf.groups| == |old(buf).groups|
      ensures -1 <= i < |buf.pool|
      ensures i >= 0 ==> HasKey(buf.pool[i], o, id) && id < |ContentAt(content, o)| &&
                         PageOf(buf.pool[i]) == ContentAt(content, o)[id]
      ensures i >= 0 ==> if HasKey(old(buf).pool[i], o, id) then
                           buf == WithRefs(old(buf), i, old(buf).pool[i].refCount + 1)
                         else buf.lru != [] && buf.lru[0] == i
      ensures Onward(old(buf), old(flash), old(tree), buf, flash, tree, {})
      ensures HasFree(old(buf).pool) ==> flash == old(flash) && tree == old(tree) && faults == old(faults)
      ensures NoneHeld(old(buf).pool) ==> if i >= 0 then OnlyHeld(buf.pool, i) else NoneHeld(buf.pool)
      ensures BelowMax(old(buf).groups, dirtyMax) ==> BelowMax(buf.groups, dirtyMax)
      ensures forall x :: RoomFor(old(buf), old(tree), Wear(old(faults), maxFaults), x) ==>
                            RoomFor(buf, tree, Wear(faults, maxFaults), x) &&
                            (NoneHeld(old(buf).pool) && id < |ContentAt(content, o)| ==> i >= 0)
    {
      hide *;
      ValidIs();
      OkParts(geo, typeOf, buf, flash, tree, owner, content);
      i := FindBuf(o, id);
      if i >= 0 {
        TakeRef(i, o, id);
        return;
      }
      ghost var buf0, flash0, tree0 := buf, flash, tree;
      i := GetFreeBuf();
      FlushedHolds(buf0, buf);
      FlushedKeys(buf0, buf, o, id);
      FlushedBelowMax(buf0, buf, dirtyMax);
      if i >= 0 {
        ghost var buf1 := buf;
        i := LoadBuf(i, ty, o, id);
        OnwardComposes(buf0, flash0, tree0, buf1, flash, tree, buf, flash, tree, {});
      }
    }

    /** Take a reference to the buffer found for a page. */
    method TakeRef(i: nat, ghost o: Obj, ghost id: nat)
      requires Valid() && i < |buf.pool| && HasKey(buf.pool[i], o, id)
      modifies this`buf
      ensures Valid() && |buf.pool| == |old(buf).pool| && buf.groups == old(buf).groups
      ensures HasKey(buf.pool[i], o, id) && id < |ContentAt(content, o)| &&
              PageOf(buf.pool[i]) == ContentAt(content, o)[id]
      ensures buf == WithRefs(old(buf), i, old(buf).pool[i].refCount + 1)
      ensures Onward(old(buf), flash, tree, buf, flash, tree, {})
      ensures NoneHeld(old(buf).pool) ==> OnlyHeld(buf.pool, i)
      ensures forall x :: RoomFor(old(buf), tree, Wear(faults, maxFaults), x) ==>
              RoomFor(buf, tree, Wear(faults, maxFaults), x)
    {
      hide *;
      ValidIs();
      KeyFacts(buf.pool[i], o, id, buf.pool[i].refCount + 1);
      LiveBufferShows(geo, typeOf, content, buf, flash, tree, owner, o, i);
      NewRefKeepsOk(geo, typeOf, content, buf, flash, tree, owner, i, buf.pool[i].refCount + 1);
      ghost var buf0, buf1 := buf, WithRefs(buf, i, buf.pool[i].refCount + 1);
      WithRefsIs(buf, i, buf.pool[i].refCount + 1);
      forall x | RoomFor(buf0, tree, Wear(faults, maxFaults), x)
        ensures RoomFor(buf1, tree, Wear(faults, maxFaults), x)
      {
        WithRefsKeepsRoom(buf0, tree, Wear(faults, maxFaults), i, buf0.pool[i].refCount + 1, x);
      }
      SameDirtRefs(buf.pool[i], buf.pool[i].refCount + 1);
      buf := buf.(pool := buf.pool[i := buf.pool[i].(refCount := buf.pool[i].refCount + 1)]);
      NowHeld(buf0.pool, buf.pool, i);
      OnwardOne(buf0, flash, tree, i, buf.pool[i], buf);
      ValidIs();
    }

    /** Load a page of an object into a free buffer; -1 if the object has no such page. */
    method LoadBuf(f: nat, ty: nat, o: Obj, id: nat) returns (i: int)
      requires Valid() && o in tree.nodes && ty == typeOf(o) && id < geo.pages && f < |buf.pool| && IsFree(buf.pool[f])
      requires forall j :: 0 <= j < |buf.pool| ==> !HasKey(buf.pool[j], o, id)
      modifies this`buf
      ensures Valid() && |buf.pool| == |old(buf).pool| && buf.groups == old(buf).groups
      ensures i == if id < |ContentAt(content, o)| then f as int else -1
      ensures i >= 0 ==> HasKey(buf.pool[f], o, id) && PageOf(buf.pool[f]) == ContentAt(content, o)[id]
      ensures i < 0 ==> buf == old(buf)
      ensures i >= 0 ==> buf.lru != [] && buf.lru[0] == i
      ensures Onward(old(buf), flash, tree, buf, flash, tree, {})
      ensures i >= 0 && NoneHeld(old(buf).pool) ==> OnlyHeld(buf.pool, f)
      ensures forall x :: RoomFor(old(buf), tree, Wear(faults, maxFaults), x) ==>
              RoomFor(buf, tree, Wear(faults, maxFaults), x)
    {
      hide *;
      GeoFacts(geo);
      ValidIs();
      RecoverReady(geo, typeOf, buf, flash, tree, owner, content, o);
      BlockFacts(flash[tree.nodes[o]], geo, typeOf(o), o);
      NoBufferShowsFlash(geo, typeOf, content, buf, flash, tree, owner, o, id);
      var block := tree.nodes[o];
      var bc := new BlockInfo(TagsOf(flash[block]));
      var page := bc.FindLatest(id);
      OnwardSame(buf, flash, tree, buf);
      if page == INVALID_PAGE {
        return -1;
      }
      i := f;
      LatestIsLogical(flash[block], id);
      StoredPageOk(geo, typeOf, buf, flash, tree, owner, content, o, id);
      FreeFacts(buf.pool[f]);
      var b := LoadedBuf(ty, o, id, 1, ContentOf(flash[block][page]));
      LoadedBufFits(ty, o, id, 1, ContentOf(flash[block][page]), geo, typeOf, buf.pool[f]);
      SameDirtKeepsOk(geo, typeOf, content, buf, flash, tree, owner, f, b);
      ghost var buf0, buf1 := buf, buf.(pool := buf.pool[f := b]);
      forall x | RoomFor(buf0, tree, Wear(faults, maxFaults), x)
        ensures RoomFor(buf1, tree, Wear(faults, maxFaults), x)
      {
        SameDirtKeepsRoom(buf0, tree, Wear(faults, maxFaults), f, b, x);
      }
      NowHeld(buf.pool, buf.pool[f := b], f);
      buf := buf.(pool := buf.pool[f := b]);
      ValidIs();
      OkParts(geo, typeOf, buf, flash, tree, owner, content);
      MoveToHead(f);
      OnwardOne(buf0, flash, tree, f, b, buf);
      NewLruKeepsOk(geo, typeOf, content, buf1, flash, tree, owner, buf.lru);
      NewLruKeepsRoom(buf1, buf, tree, Wear(faults, maxFaults));
      ValidIs();
    }

    /** A dirty group for the buffers of an object: the one it has, or a free one, flushing the most dirty group
        to free one; -1 if that did not help. */
    method TakeGroupSlot(i: nat) returns (s: int)
      requires Valid() && Writable(buf, geo, typeOf, content, i)
      modifies this`buf, this`flash, this`tree, this`owner, this`history, this`faults
      ensures Valid() && Flushed(old(buf), buf) && old(tree).nodes.Keys <= tree.nodes.Keys
      ensures Onward(old(buf), old(flash), old(tree), buf, flash, tree, {})
      ensures Writable(buf, geo, typeOf, content, i) && i < |old(buf).pool| && buf.pool[i] == old(buf).pool[i]
      ensures s >= 0 ==> SlotFor(buf, s, ObjOf(buf.pool[i]))
      ensures HasSlot(old(buf), ObjOf(old(buf).pool[i])) ==>
              s >= 0 && buf == old(buf) && flash == old(flash) && tree == old(tree) && faults == old(faults)
      ensures forall x :: RoomFor(old(buf), old(tree), Wear(old(faults), maxFaults), x) ==>
                            RoomFor(buf, tree, Wear(faults, maxFaults), x) && (|buf.groups| > 0 ==> s >= 0)
    {
      hide *;
      WritableFacts(buf, geo, typeOf, content, i);
      ValidIs();
      OkParts(geo, typeOf, buf, flash, tree, owner, content);
      NothingFlushed(buf, buf);
      OnwardSame(buf, flash, tree, buf);
      ghost var o := ObjOf(buf.pool[i]);
      s := FindGroupSlot(ObjOf(buf.pool[i]));
      if s >= 0 {
        SlotIsGroup(buf, s, o);
        GroupIsSlot(buf, s, o);
        return;
      }
      NoGroupNoDirty(buf, o);
      s := FindFreeGroupSlot();
      if s >= 0 {
        FreeIsSlot(buf, s, o);
        return;
      }
      ghost var buf0, tree0, faults0 := buf, tree, faults;
      NoSlotLeft(buf, o);
      ghost var t, p;
      var ok;
      ok, t, p := FlushMostDirtyGroup();
      FlushedKeepsWritable(buf0, buf, geo, typeOf, content, i);
      if !ok {
        return;
      }
      ValidIs();
      OkParts(geo, typeOf, buf, flash, tree, owner, content);
      s := FindFreeGroupSlot();
      if s >= 0 {
        FreeIsSlot(buf, s, o);
      }
      forall x | RoomFor(buf0, tree0, Wear(faults0, maxFaults), x) && |buf.groups| > 0 ensures s >= 0 {
        if buf == buf0 {
          FlushFreesSlot(buf, tree, Wear(faults, maxFaults), x);
        }
      }
    }

    /** Copy bytes into a buffer, which joins the dirty group unless it is listed there. */
    method FillBuf(i: nat, s: nat, ofs: nat, bytes: seq<Byte>)
      requires Valid() && Writable(buf, geo, typeOf, content, i) && i < |buf.pool| &&
               SlotFor(buf, s, ObjOf(buf.pool[i]))
      requires ofs + |bytes| <= |buf.pool[i].data| == geo.pageSize
      requires ofs + |bytes| > 0 || buf.pool[i].dataLen > 0
      modifies this`buf, this`content
      ensures Valid() && s < |old(buf).groups| && buf == FilledBuf(old(buf), s, i, ofs, bytes)
      ensures content == Wrote(old(content), old(buf).pool[i], ofs, bytes)
      ensures Onward(old(buf), flash, tree, buf, flash, tree, {ObjOf(old(buf).pool[i])})
    {
      hide *;
      ValidIs();
      ghost var buf0 := buf;
      FillKeepsOk(geo, typeOf, content, buf, flash, tree, owner, s, i, ofs, bytes);
      var b := buf.pool[i];
      var len := b.dataLen;
      if ofs + |bytes| > len {
        len := ofs + |bytes|;
      }
      b := b.(mark := Dirty, data := b.data[..ofs] + bytes + b.data[ofs + |bytes|..], dataLen := len);
      SlotInRange(buf, s, ObjOf(buf.pool[i]));
      FilledIs(buf, s, i, ofs, bytes, b);
      FillOnward(buf, flash, tree, s, i, ofs, bytes);
      if i !in buf.groups[s].dirty {
        var g := buf.groups[s];
        buf := buf.(groups := buf.groups[s := Group([i] + g.dirty, g.count + 1, g.lock)]);
      }
      buf := buf.(pool := buf.pool[i := b]);
      content := Wrote(content, buf0.pool[i], ofs, bytes);
      ValidIs();
    }

    /** Write bytes to the page of a buffer; the group is flushed once it has too many dirty buffers. */
    method BufWrite(i: nat, ofs: nat, bytes: seq<Byte>) returns (ok: bool)
      requires Valid() && Writable(buf, geo, typeOf, content, i) && i < |buf.pool|
      requires ofs + |bytes| > 0 || buf.pool[i].dataLen > 0
      modifies this`buf, this`flash, this`tree, this`owner, this`history, this`faults, this`content
      ensures Valid() && SameRefs(old(buf), buf) && |buf.groups| == |old(buf).groups| &&
              old(tree).nodes.Keys <= tree.nodes.Keys
      ensures geo.pageSize == |old(buf).pool[i].data|
      ensures if ofs + |bytes| > geo.pageSize then
                !ok && buf == old(buf) && flash == old(flash) && content == old(content)
              else if ok then content == Wrote(old(content), old(buf).pool[i], ofs, bytes)
              else content == old(content) || content == Wrote(old(content), old(buf).pool[i], ofs, bytes)
      ensures BelowWith(old(buf), i, dirtyMax) && ofs + |bytes| <= geo.pageSize ==>
              ok && flash == old(flash) && tree == old(tree) && faults == old(faults)
      ensures ok && BelowMax(old(buf).groups, dirtyMax) ==> BelowMax(buf.groups, dirtyMax)
      ensures Onward(old(buf), old(flash), old(tree), buf, flash, tree, {ObjOf(old(buf).pool[i])})
      ensures forall x ::
                RoomFor(old(buf), old(tree), Wear(old(faults), maxFaults), x) && |buf.groups| > 0 &&
                ofs + |bytes| <= geo.pageSize &&
                (ObjOf(old(buf).pool[i]) in old(tree).nodes || ObjOf(old(buf).pool[i]) == x) ==>
                  ok && RoomFor(buf, tree, Wear(faults, maxFaults), x)
    {
      hide *;
      WritableFacts(buf, geo, typeOf, content, i);
      ghost var buf0, tree0, faults0, o := buf, tree, faults, ObjOf(buf.pool[i]);
      ghost var flash0 := flash;
      NothingFlushed(buf, buf);
      FlushedRefs(buf, buf);
      OnwardSame(buf, flash, tree, buf);
      OnwardMore(buf, flash, tree, buf, flash, tree, {}, {o});
      if ofs + |bytes| > geo.pageSize {
        return false;
      }
      ValidIs();
      OkParts(geo, typeOf, buf, flash, tree, owner, content);
      if BelowWith(buf, i, dirtyMax) {
        BelowWithSlot(buf, i, dirtyMax);
      }
      var s := TakeGroupSlot(i);
      OnwardMore(buf0, flash0, tree0, buf, flash, tree, {}, {o});
      FlushedRefs(buf0, buf);
      FlushedBelowMax(buf0, buf, dirtyMax);
      WritableFacts(buf, geo, typeOf, content, i);
      if s < 0 {
        return false;
      }
      ghost var buf1, tree1, faults1 := buf, tree, faults;
      FillBuf(i, s, ofs, bytes);
      OnwardComposes(buf0, flash0, tree0, buf1, flash, tree, buf, flash, tree, {o});
      ghost var buf2, flash2, tree2 := buf, flash, tree;
      ValidIs();
      OkParts(geo, typeOf, buf, flash, tree, owner, content);
      SlotInRange(buf1, s, o);
      FilledCount(buf1, s, i, ofs, bytes);
      FillFacts(buf1, geo, typeOf, s, i, ofs, bytes);
      SameRefsCompose(buf0, buf1, buf);
      NothingFlushed(buf, buf);
      ok := true;
      forall x | RoomFor(buf1, tree1, Wear(faults1, maxFaults), x) && (o in tree1.nodes || o == x)
        ensures RoomFor(buf, tree, Wear(faults, maxFaults), x)
      {
        FillKeepsRoom(buf1, tree1, Wear(faults1, maxFaults), s, i, ofs, bytes, x);
      }
      var b := buf.pool[i];
      if buf.groups[s].count >= dirtyMax {
        ok := FlushGroup(ObjOf(b));
        OnwardMore(buf2, flash2, tree2, buf, flash, tree, {}, {o});
        OnwardComposes(buf0, flash0, tree0, buf2, flash2, tree2, buf, flash, tree, {o});
        FlushedRefs(buf2, buf);
        FlushedBelowMax(buf2, buf, dirtyMax);
        SameRefsCompose(buf0, buf2, buf);
        if ok {
          GroupEmptiedAt(buf2, buf, s, o);
        }
      }
      ValidIs();
      OkParts(geo, typeOf, buf, flash, tree, owner, content);
      if ok && BelowMax(buf0.groups, dirtyMax) {
        BelowMaxAfterWrite(buf1, buf2, buf, geo, typeOf, s, o, dirtyMax);
      }
    }

    /** Copy bytes out of a buffer, as many as the page has. */
    method BufRead(i: nat, ofs: nat, len: nat) returns (bytes: seq<Byte>)
      requires Valid() && i < |buf.pool|
      ensures |buf.pool[i].data| == geo.pageSize
      ensures bytes == if ofs >= geo.pageSize then [] else if ofs + len >= geo.pageSize then buf.pool[i].data[ofs..]
                       else buf.pool[i].data[ofs..ofs + len]
    {
      var readSize := if ofs >= geo.pageSize then 0 else if ofs + len >= geo.pageSize then geo.pageSize - ofs else len;
      bytes := if readSize > 0 then buf.pool[i].data[ofs..ofs + readSize] else [];
    }

    /** Write bytes to a page of an object through its buffer: to a new page, or to one the object has. Nothing can
        fail while buffers and blocks suffice. */
    method StorePage(ty: nat, o: Obj, id: nat, isNew: bool, ofs: nat, bytes: seq<Byte>, ghost x: Obj) returns (ok: bool)
      requires Valid() && Ready(buf, tree, Wear(faults, maxFaults), dirtyMax, x) && (o in tree.nodes || o == x)
      requires ty == typeOf(o) && id < geo.pages && |bytes| > 0 && ofs + |bytes| <= geo.pageSize
      requires if isNew then id == |ContentAt(content, o)| else o in tree.nodes && id < |ContentAt(content, o)|
      modifies this`buf, this`flash, this`tree, this`owner, this`history, this`faults, this`content
      ensures ok && Valid() && Ready(buf, tree, Wear(faults, maxFaults), dirtyMax, x) &&
              old(tree).nodes.Keys <= tree.nodes.Keys
      ensures Onward(old(buf), old(flash), old(tree), buf, flash, tree, {o})
      ensures |StoreBase(geo, old(content), o, id).data| == geo.pageSize
      ensures content == Stored1(geo, old(content), o, id, ofs, bytes)
    {
      hide *;
      ReadyIs(buf, tree, Wear(faults, maxFaults), dirtyMax, x);
      ValidIs();
      ghost var buf0, flash0, tree0 := buf, flash, tree;
      var i;
      if isNew {
        NoLiveBeyond(geo, typeOf, content, buf, flash, tree, owner, o, id);
        UnbufferedIs(buf.pool, o, id);
        i := BufNew(ty, o, id);
        UnbufferedIs(buf.pool, o, id);
      } else {
        i := BufGetEx(ty, o, id);
      }
      ok := i >= 0;
      if !ok {
        return;
      }
      ValidIs();
      if isNew {
        NewBufWritable(buf, geo, typeOf, content, i, ty, o, id);
      } else {
        LoadedWritable(geo, typeOf, content, buf, flash, tree, owner, i, o, id);
      }
      WritableFacts(buf, geo, typeOf, content, i);
      WroteIs(geo, content, buf.pool[i], o, id, ofs, bytes);
      ghost var buf1, flash1, tree1 := buf, flash, tree;
      OnwardMore(buf0, flash0, tree0, buf, flash, tree, {}, {o});
      ok := BufWrite(i, ofs, bytes);
      OnwardComposes(buf0, flash0, tree0, buf1, flash1, tree1, buf, flash, tree, {o});
      ghost var buf2 := buf;
      SameRefsHold(buf1, buf);
      PutHeld(buf, i);
      var put := BufPut(i);
      OnwardMore(buf2, flash, tree, buf, flash, tree, {}, {o});
      OnwardComposes(buf0, flash0, tree0, buf2, flash, tree, buf, flash, tree, {o});
      ReadyIs(buf, tree, Wear(faults, maxFaults), dirtyMax, x);
    }

    /** Read a page of an object through its buffer: its length, and the bytes from ofs on, at most len. */
    method LoadPage(ty: nat, o: Obj, id: nat, ofs: nat, len: nat, ghost x: Obj)
      returns (ok: bool, dataLen: nat, bytes: seq<Byte>)
      requires Valid() && Ready(buf, tree, Wear(faults, maxFaults), dirtyMax, x)
      requires o in tree.nodes && ty == typeOf(o) && id < geo.pages && id < |ContentAt(content, o)|
      modifies this`buf, this`flash, this`tree, this`owner, this`history, this`faults
      ensures ok && Valid() && Ready(buf, tree, Wear(faults, maxFaults), dirtyMax, x) &&
              old(tree).nodes.Keys <= tree.nodes.Keys
      ensures Onward(old(buf), old(flash), old(tree), buf, flash, tree, {})
      ensures dataLen == ContentAt(content, o)[id].len <= |ContentAt(content, o)[id].data|
      ensures bytes == if ofs >= dataLen then []
                       else if len + ofs > dataLen then ContentAt(content, o)[id].data[ofs..dataLen]
                       else ContentAt(content, o)[id].data[ofs..ofs + len]
    {
      hide *;
      ReadyIs(buf, tree, Wear(faults, maxFaults), dirtyMax, x);
      bytes, dataLen := [], 0;
      var i := BufGetEx(ty, o, id);
      ok := i >= 0;
      if !ok {
        return;
      }
      ValidIs();
      HeldPage(geo, typeOf, content, buf, flash, tree, owner, i, o, id);
      dataLen := buf.pool[i].dataLen;
      if ofs < dataLen {
        var size := if len + ofs > dataLen then dataLen - ofs else len;
        bytes := BufRead(i, ofs, size);
      }
      PutHeld(buf, i);
      ghost var buf1 := buf;
      var put := BufPut(i);
      OnwardComposes(old(buf), old(flash), old(tree), buf1, flash, tree, buf, flash, tree, {});
      ReadyIs(buf, tree, Wear(faults, maxFaults), dirtyMax, x);
    }

    /** Flush the groups of all objects with a parent: for the serial of a file, those of its data blocks. */
    method FlushGroupMatchParent(parent: nat) returns (ok: bool)
      requires Valid()
      modifies this`buf, this`flash, this`tree, this`owner, this`history, this`faults
      ensures Valid() && Flushed(old(buf), buf) && old(tree).nodes.Keys <= tree.nodes.Keys
      ensures Onward(old(buf), old(flash), old(tree), buf, flash, tree, {}) && faults <= old(faults)
      ensures ok && RestFits(geo, old(buf), old(flash), old(tree), 0) && faults == old(faults) ==> tree == old(tree)
      ensures ok ==> forall i :: 0 <= i < |buf.pool| ==> !(buf.pool[i].mark == Dirty && buf.pool[i].parent == parent)
      ensures OnlyOfParent(old(buf).pool, buf.pool, parent)
      ensures forall x :: RoomFor(old(buf), old(tree), Wear(old(faults), maxFaults), x) ==>
              ok && RoomFor(buf, tree, Wear(faults, maxFaults), x)
    {
      hide *;
      ghost var buf0, flash0, tree0, faults0 := buf, flash, tree, faults;
      NothingFlushed(buf, buf);
      OnlySame(buf.pool);
      OnwardSame(buf, flash, tree, buf);
      StaysPutStart(geo, buf, flash, tree, faults);
      ok := true;
      for t := 0 to |buf.groups|
        invariant Valid() && Flushed(buf0, buf) && tree0.nodes.Keys <= tree.nodes.Keys
        invariant Onward(buf0, flash0, tree0, buf, flash, tree, {})
        invariant |buf.groups| == |buf0.groups| && faults <= faults0
        invariant StaysPut(geo, buf0, flash0, tree0, faults0, buf, flash, tree, faults, t)
        invariant ok && forall u :: 0 <= u < t ==> NotOfParent(buf, u, parent)
        invariant OnlyOfParent(buf0.pool, buf.pool, parent)
        invariant forall x :: RoomFor(buf0, tree0, Wear(faults0, maxFaults), x) ==>
                  RoomFor(buf, tree, Wear(faults, maxFaults), x)
      {
        ghost var buf1, flash1, tree1, faults1, owner1 := buf, flash, tree, faults, owner;
        ValidIs();
        OkParts(geo, typeOf, buf, flash, tree, owner, content);
        CountIsLength(buf, geo, typeOf, t);
        NotOfParentIs(buf, t, parent);
        StaysPutSkip(geo, buf0, flash0, tree0, faults0, buf, flash, tree, faults, t);
        if buf.groups[t].dirty != [] {
          GroupWellFormed(buf, geo, typeOf, t);
          if buf.pool[buf.groups[t].dirty[0]].parent == parent {
            ghost var o;
            var flushed;
            flushed, o := FlushSlot(false, t);
            OnlyOneMore(buf0, buf1, buf, t, o, parent);
            FlushStepIsFlushed(buf1, buf, t, o);
            OnwardComposes(buf0, flash0, tree0, buf1, flash1, tree1, buf, flash, tree, {});
            FlushedBelowMax(buf1, buf, 0);
            FlushedComposes(buf0, buf1, buf);
            forall x | RoomFor(buf1, tree1, Wear(faults1, maxFaults), x)
              ensures flushed && RoomFor(buf, tree, Wear(faults, maxFaults), x)
            {
              RoomForFlush(buf1, tree1, Wear(faults1, maxFaults), t, o, x);
              RoomKept(buf1, tree1, Wear(faults1, maxFaults), buf, tree, Wear(faults, maxFaults), t, o, x);
            }
            if !flushed {
              return false;
            }
            StaysPutStep(geo, typeOf, buf0, flash0, tree0, faults0, buf1, flash1, tree1, owner1, faults1, buf, flash,
                         tree, faults, t, o);
            forall u | 0 <= u < t ensures NotOfParent(buf, u, parent) {
              StillNotOfParent(buf1, buf, t, o, u, parent);
            }
            ValidIs();
            OkParts(geo, typeOf, buf, flash, tree, owner, content);
            NotOfParentIs(buf, t, parent);
          }
        }
      }
      ValidIs();
      StaysPutIs(geo, buf0, flash0, tree0, faults0, buf, flash, tree, faults, |buf.groups|);
      OkParts(geo, typeOf, buf, flash, tree, owner, content);
      NoneOfParent(buf, parent);
    }

    /** Flush every group. */
    method FlushAll() returns (ok: bool)
      requires Valid()
      modifies this`buf, this`flash, this`tree, this`owner, this`history, this`faults
      ensures Valid() && Flushed(old(buf), buf) && old(tree).nodes.Keys <= tree.nodes.Keys
      ensures Onward(old(buf), old(flash), old(tree), buf, flash, tree, {}) && faults <= old(faults)
      ensures ok && RestFits(geo, old(buf), old(flash), old(tree), 0) && faults == old(faults) ==> tree == old(tree)
      ensures ok ==> forall i :: 0 <= i < |buf.pool| ==> buf.pool[i].mark != Dirty
      ensures forall x :: RoomFor(old(buf), old(tree), Wear(old(faults), maxFaults), x) ==>
              ok && RoomFor(buf, tree, Wear(faults, maxFaults), x)
    {
      hide *;
      ghost var buf0, tree0, faults0 := buf, tree, faults;
      ghost var flash0 := flash;
      NothingFlushed(buf, buf);
      OnwardSame(buf, flash, tree, buf);
      StaysPutStart(geo, buf, flash, tree, faults);
      ok := true;
      for t := 0 to |buf.groups|
        invariant Valid() && Flushed(buf0, buf) && tree0.nodes.Keys <= tree.nodes.Keys
        invariant Onward(buf0, flash0, tree0, buf, flash, tree, {})
        invariant |buf.groups| == |buf0.groups| && faults <= faults0
        invariant StaysPut(geo, buf0, flash0, tree0, faults0, buf, flash, tree, faults, t)
        invariant ok && forall u :: 0 <= u < t ==> buf.groups[u].dirty == []
        invariant forall x :: RoomFor(buf0, tree0, Wear(faults0, maxFaults), x) ==>
                  RoomFor(buf, tree, Wear(faults, maxFaults), x)
      {
        ghost var buf1, flash1, tree1, faults1, owner1 := buf, flash, tree, faults, owner;
        ValidIs();
        OkParts(geo, typeOf, buf, flash, tree, owner, content);
        CountIsLength(buf, geo, typeOf, t);
        ghost var o;
        var flushed;
        flushed, o := FlushSlot(false, t);
        FlushStepIsFlushed(buf1, buf, t, o);
        OnwardComposes(buf0, flash0, tree0, buf1, flash1, tree1, buf, flash, tree, {});
        FlushedBelowMax(buf1, buf, 0);
        FlushedComposes(buf0, buf1, buf);
        FlushStepKeepsEmpty(buf1, buf, t, o, t);
        forall x | RoomFor(buf1, tree1, Wear(faults1, maxFaults), x)
          ensures flushed && RoomFor(buf, tree, Wear(faults, maxFaults), x)
        {
          if buf1.groups[t].dirty != [] {
            RoomForFlush(buf1, tree1, Wear(faults1, maxFaults), t, o, x);
            RoomKept(buf1, tree1, Wear(faults1, maxFaults), buf, tree, Wear(faults, maxFaults), t, o, x);
          }
        }
        if !flushed {
          return false;
        }
        if buf1.groups[t].dirty != [] {
          StaysPutStep(geo, typeOf, buf0, flash0, tree0, faults0, buf1, flash1, tree1, owner1, faults1, buf, flash,
                       tree,
                       faults, t, o);
        } else {
          StaysPutSame(geo, buf0, flash0, tree0, faults0, buf1, flash1, tree1, faults1, buf, flash, tree, faults, t);
        }
      }
      ValidIs();
      StaysPutIs(geo, buf0, flash0, tree0, faults0, buf, flash, tree, faults, |buf.groups|);
      OkParts(geo, typeOf, buf, flash, tree, owner, content);
      AllGroupsEmpty(buf);
    }

    /** Type of the object whose pages the group holds. */
    method HeadType(s: nat, o: Obj) returns (ty: nat)
      requires CacheOk(buf, geo, typeOf) && GroupOf(buf, s, o)
      ensures ty == typeOf(o)
    {
      ty := buf.pool[buf.groups[s].dirty[0]].ty;
    }
  }
}

/** The cached tags of one block, loaded from flash on demand, and the lookups over them. */
module BlockInfoCache {
  import opened FlashModel
  import opened BlockLog

  /** A cached tag, usable unless it has expired. */
  datatype Spare = Spare(tag: Tag, expired: bool)

  class BlockInfo {
    // The tags the flash holds for this block; Load reads them from here.
    var stored: seq<Tag>
    var spares: seq<Spare>
    var expiredCount: nat

    ghost predicate Valid()
      reads this
    {
      0 < |stored| < INVALID_PAGE && Agree(spares, stored) && expiredCount == CountExpired(spares)
    }

    /** A cache entry newly assigned to a block: nothing is loaded. */
    constructor (tags: seq<Tag>)
      requires 0 < |tags| < INVALID_PAGE
      ensures Valid() && stored == tags && expiredCount == |tags|
    {
      stored := tags;
      spares := seq(|tags|, _ => Spare(ERASED_TAG, true));
      expiredCount := |tags|;
      new;
      AllExpired(spares);
    }

    /** Load one tag unless it is cached. */
    method Load(page: nat)
      requires Valid() && page < |stored|
      modifies this`expiredCount, this`spares
      ensures Valid() && !spares[page].expired
      ensures Keeps(old(spares), spares)
    {
      if spares[page].expired {
        CountExpiredAfterUpdate(spares, page, Spare(stored[page], false));
        spares := spares[page := Spare(stored[page], false)];
        expiredCount := expiredCount - 1;
      }
    }

    /** Load a tag and read it. */
    method GetTag(page: nat) returns (tag: Tag)
      requires Valid() && page < |stored|
      modifies this`expiredCount, this`spares
      ensures Valid() && tag == stored[page] && Keeps(old(spares), spares)
    {
      Load(page);
      tag := spares[page].tag;
    }

    method LoadAll()
      requires Valid()
      modifies this`expiredCount, this`spares
      ensures Valid() && expiredCount == 0
      ensures forall i :: 0 <= i < |stored| ==> spares[i] == Spare(stored[i], false)
    {
      for i := 0 to |spares|
        invariant Valid() && |spares| == |stored|
        invariant forall j :: 0 <= j < i ==> !spares[j].expired
      {
        Load(i);
      }
      NoneExpired(spares);
    }

    /** Forget one cached tag. */
    method Expire(page: nat)
      requires Valid() && page < |stored|
      modifies this`expiredCount, this`spares
      ensures Valid() && spares == old(spares)[page := old(spares[page]).(expired := true)]
    {
      if !spares[page].expired {
        CountExpiredAfterUpdate(spares, page, spares[page].(expired := true));
        spares := spares[page := spares[page].(expired := true)];
        expiredCount := expiredCount + 1;
      }
    }

    /** Forget all cached tags. */
    method ExpireAll()
      requires Valid()
      modifies this`expiredCount, this`spares
      ensures Valid() && expiredCount == |stored| && forall i :: 0 <= i < |spares| ==> spares[i].expired
    {
      for i := 0 to |spares|
        invariant Valid() && forall j :: 0 <= j < i ==> spares[j].expired
      {
        Expire(i);
      }
      AllExpired(spares);
    }

    /** The block has been erased: whatever was cached is forgotten. */
    method Erased()
      requires Valid()
      modifies this`stored, this`expiredCount, this`spares
      ensures Valid() && |stored| == |old(stored)| && expiredCount == |stored|
      ensures forall i :: 0 <= i < |stored| ==> stored[i] == ERASED_TAG && spares[i].expired
    {
      ExpireAll();
      stored := seq(|stored|, _ => ERASED_TAG);
    }

    /** Prepare the cache for a block known to be erased: no tag needs to be read from flash. */
    method InitErased()
      requires Valid()
      requires forall i :: 0 <= i < |stored| ==> stored[i] == ERASED_TAG
      modifies this`expiredCount, this`spares
      ensures Valid() && expiredCount == 0
      ensures forall i :: 0 <= i < |stored| ==> spares[i] == Spare(ERASED_TAG, false)
    {
      for i := 0 to |spares|
        invariant |spares| == |stored|
        invariant forall j :: 0 <= j < i ==> spares[j] == Spare(ERASED_TAG, false)
      {
        spares := spares[i := Spare(ERASED_TAG, false)];
      }
      expiredCount := 0;
      NoneExpired(spares);
    }

    /** A flush sets the cached tag before it writes the page; here both have happened. */
    method Program(page: nat, tag: Tag)
      requires Valid() && page < |stored| && !spares[page].expired
      modifies this`stored, this`spares
      ensures Valid() && stored == old(stored)[page := tag] && spares == old(spares)[page := Spare(tag, false)]
    {
      CountExpiredAfterUpdate(spares, page, Spare(tag, false));
      spares := spares[page := Spare(tag, false)];
      stored := stored[page := tag];
    }

    // ----- lookups

    /** First page from index `id` on that holds the id. */
    method FindPageWithId(id: nat) returns (page: nat)
      requires Valid()
      modifies this`expiredCount, this`spares
      ensures Valid()
      ensures page != INVALID_PAGE ==>
                id <= page < |stored| && Holds(stored[page], id) &&
                forall j :: id <= j < page ==> !Holds(stored[j], id)
      ensures page == INVALID_PAGE ==> forall j :: id <= j < |stored| ==> !Holds(stored[j], id)
      ensures LogInv(stored) ==> (page == INVALID_PAGE <==> Latest(stored, id) < 0)
    {
      page := id;
      while page < |spares|
        invariant Valid() && id <= page
        invariant forall j :: id <= j < page && j < |stored| ==> !Holds(stored[j], id)
        decreases |spares| - page
      {
        Load(page);
        if TagIsGood(spares[page].tag) && spares[page].tag.pageId == id {
          return;
        }
        page := page + 1;
      }
      if LogInv(stored) {
        LogInvGivesMeaning(stored);
      }
      page := INVALID_PAGE;
    }

    /** The page that supersedes the given one. */
    method FindBestPage(page: nat) returns (best: nat)
      requires Valid() && page < |stored|
      modifies this`expiredCount, this`spares
      ensures Valid()
      ensures Keeps(old(spares), spares)
      ensures best == INVALID_PAGE <==> !TagIsGood(stored[page])
      ensures TagIsGood(stored[page]) ==>
                if FullyLoaded(stored) then best == page else BestOf(stored, page, best)
      ensures TagIsGood(stored[page]) && LogInv(stored) && OneObject(stored) ==>
                best == Latest(stored, stored[page].pageId)
    {
      var lastPage := |spares| - 1;
      Load(page);
      var tagOld := spares[page].tag;
      if !TagIsGood(tagOld) {
        return INVALID_PAGE;
      }
      best := page;
      if page != lastPage {
        Load(lastPage);
        var tag := spares[lastPage].tag;
        if !(TagIsGood(tag) && tag.pageId == lastPage) {
          best := lastPage;
          while best > page
            invariant Valid() && page <= best <= lastPage
            invariant Keeps(old(spares), spares)
            invariant forall j :: best < j < |stored| ==> !SameOwner(stored[j], stored[page])
          {
            Load(best);
            tag := spares[best].tag;
            if TagIsGood(tag) && tag.pageId == tagOld.pageId && tag.parent == tagOld.parent &&
              tag.serial == tagOld.serial {
              break;
            }
            best := best - 1;
          }
        }
      }
      if LogInv(stored) && OneObject(stored) {
        BestIsLatest(stored, page, best);
      }
    }

    /** Both lookups: the last writer of the id. */
    method FindLatest(id: nat) returns (page: nat)
      requires Valid() && LogInv(stored) && OneObject(stored)
      modifies this`expiredCount, this`spares
      ensures Valid()
      ensures if id < Top(stored) then page == Latest(stored, id) >= 0 else page == INVALID_PAGE
    {
      IdsAreThoseBelowTop(stored, id);
      page := FindPageWithId(id);
      if page != INVALID_PAGE {
        page := FindBestPage(page);
      }
    }

    method IsPageErased(page: nat) returns (r: bool)
      requires Valid() && page < |stored|
      modifies this`expiredCount, this`spares
      ensures Valid() && r == TagIsErased(stored[page]) && !spares[page].expired && Keeps(old(spares), spares)
    {
      Load(page);
      r := TagIsErased(spares[page].tag);
    }

    method IsBlockUsed() returns (r: bool)
      requires Valid()
      modifies this`expiredCount, this`spares
      ensures Valid() && r == TagIsDirty(stored[0]) && Keeps(old(spares), spares)
    {
      Load(0);
      r := TagIsDirty(spares[0].tag);
    }

    method GetBlockTimeStamp() returns (ts: nat)
      requires Valid()
      modifies this`expiredCount, this`spares
      ensures Valid() && ts == TimeStampOf(stored) && Keeps(old(spares), spares)
    {
      var used := IsBlockUsed();
      if !used {
        ts := FIRST_TIME_STAMP;
      } else {
        Load(0);
        ts := spares[0].tag.ts;
      }
    }

    method FindFirstFreePage(pageFrom: nat) returns (page: nat)
      requires Valid()
      modifies this`expiredCount, this`spares
      ensures Valid()
      ensures page != INVALID_PAGE ==>
                pageFrom <= page < |stored| == |spares| && TagIsErased(stored[page]) && !spares[page].expired &&
                forall j :: pageFrom <= j < page ==> !TagIsErased(stored[j])
      ensures page == INVALID_PAGE ==> forall j :: pageFrom <= j < |stored| ==> !TagIsErased(stored[j])
    {
      page := pageFrom;
      while page < |spares|
        invariant Valid() && pageFrom <= page
        invariant forall j :: pageFrom <= j < page && j < |stored| ==> !TagIsErased(stored[j])
        decreases |spares| - page
      {
        var erased := IsPageErased(page);
        if erased {
          return;
        }
        page := page + 1;
      }
      page := INVALID_PAGE;
    }

    /** Erased pages behind the last good one, counted from the end of the block. */
    method GetFreePagesCount() returns (count: nat)
      requires Valid()
      modifies this`expiredCount, this`spares
      ensures Valid() && count == CountErased(stored, AfterLastGood(stored))
    {
      count := 0;
      var i: nat := |spares|;
      while i > 0
        invariant Valid() && i <= |stored|
        invariant count == CountErased(stored, i)
        invariant forall j :: i <= j < |stored| ==> !TagIsGood(stored[j])
      {
        var erased := IsPageErased(i - 1);
        if erased {
          count := count + 1;
        } else {
          Load(i - 1);
          if TagIsGood(spares[i - 1].tag) {
            break;
          }
        }
        i := i - 1;
      }
      AfterLastGoodAt(stored, i);
    }

    /** Length of the file data on this block. */
    method GetBlockFileDataLength(pageSize: nat, ty: nat) returns (size: nat)
      requires Valid() && |stored| >= 2
      modifies this`expiredCount, this`spares
      ensures Valid()
      ensures FullyLoaded(stored) && ty == FILE ==>
                size == pageSize * (|stored| - 2) + stored[|stored| - 1].dataLen
      ensures FullyLoaded(stored) && ty == DATA ==>
                size == pageSize * (|stored| - 1) + stored[|stored| - 1].dataLen
      ensures !(FullyLoaded(stored) && (ty == FILE || ty == DATA)) ==> ScanResult(stored, size)
    {
      var lastPage := |spares| - 1;
      Load(lastPage);
      var tag := spares[lastPage].tag;
      if TagIsGood(tag) && tag.pageId == lastPage {
        if ty == FILE {
          return pageSize * (|spares| - 2) + tag.dataLen;
        }
        if ty == DATA {
          return pageSize * (|spares| - 1) + tag.dataLen;
        }
      }
      size := ScanDataLength();
    }

    /** Length of the page that supersedes page i, the next page of the scan. */
    method BestDataLength(i: nat) returns (len: nat)
      requires Valid() && i < |spares| && TagIsGood(stored[i]) && FirstDataId(stored) <= i
      requires forall j :: 0 <= j < |spares| ==> !spares[j].expired
      modifies this`expiredCount, this`spares
      ensures Valid() && Keeps(old(spares), spares)
      ensures forall size: nat :: ScanInv(stored, i, stored[i].pageId, size) ==>
                               ScanInv(stored, i + 1, stored[i].pageId + 1, size + len)
    {
      var page := FindBestPage(i);
      len := spares[page].tag.dataLen;
      forall size: nat | ScanInv(stored, i, stored[i].pageId, size)
        ensures ScanInv(stored, i + 1, stored[i].pageId + 1, size + len)
      {
        ScanCounts(stored, i, stored[i].pageId, size, page);
      }
    }

    /** Not a fully loaded block: read all tags and add up. */
    method ScanDataLength() returns (size: nat)
      requires Valid()
      modifies this`expiredCount, this`spares
      ensures Valid() && ScanResult(stored, size)
    {
      LoadAll();
      size := 0;
      if !TagIsGood(spares[0].tag) {
        return;
      }
      var pageId := if spares[0].tag.ty == FILE then 1 else 0;
      var i := pageId;
      ScanStarts(stored);
      while i < |spares|
        invariant Valid() && FirstDataId(stored) <= i <= |spares|
        invariant forall j :: 0 <= j < |spares| ==> !spares[j].expired
        invariant ScanInv(stored, i, pageId, size)
      {
        if TagIsGood(spares[i].tag) && pageId == spares[i].tag.pageId {
          var len := BestDataLength(i);
          size := size + len;
          pageId := pageId + 1;
        } else {
          ScanSkips(stored, i, pageId, size);
        }
        i := i + 1;
      }
      if LogInv(stored) && OneObject(stored) {
        ScanEnds(stored, pageId, size);
      }
    }
  }

  /** What reading all tags of a block yields: the sum of the lengths of the last writers. */
  ghost predicate ScanResult(tags: seq<Tag>, size: nat)
    requires |tags| > 0
  {
    (!TagIsGood(tags[0]) ==> size == 0) &&
    (TagIsGood(tags[0]) && LogInv(tags) && OneObject(tags) ==> size == SumLens(tags, FirstDataId(tags), Top(tags)))
  }

  // ----- the cache agrees with the flash

  ghost predicate Agree(spares: seq<Spare>, tags: seq<Tag>) {
    |spares| == |tags| && forall i :: 0 <= i < |tags| && !spares[i].expired ==> spares[i].tag == tags[i]
  }

  /** Loading never forgets a tag. */
  ghost predicate Keeps(before: seq<Spare>, after: seq<Spare>) {
    |before| == |after| && forall i :: 0 <= i < |before| && !before[i].expired ==> after[i] == before[i]
  }

  function CountExpired(s: seq<Spare>): (n: nat) {
    if s == [] then 0 else (if s[|s| - 1].expired then 1 else 0) + CountExpired(s[..|s| - 1])
  }

  lemma {:induction false} CountExpiredAfterUpdate(s: seq<Spare>, i: nat, x: Spare)
    requires i < |s|
    ensures CountExpired(s[i := x]) ==
            CountExpired(s) + (if x.expired then 1 else 0) - (if s[i].expired then 1 else 0)
  {
    var t := s[i := x];
    if i == |s| - 1 {
      assert t[..i] == s[..i];
    } else {
      CountExpiredAfterUpdate(s[..|s| - 1], i, x);
      assert t[..|s| - 1] == s[..|s| - 1][i := x];
    }
  }

  lemma {:induction false} AllExpired(s: seq<Spare>)
    requires forall i :: 0 <= i < |s| ==> s[i].expired
    ensures CountExpired(s) == |s|
  {
    if s != [] {
      AllExpired(s[..|s| - 1]);
    }
  }

  lemma {:induction false} NoneExpired(s: seq<Spare>)
    requires forall i :: 0 <= i < |s| ==> !s[i].expired
    ensures CountExpired(s) == 0
  {
    if s != [] {
      NoneExpired(s[..|s| - 1]);
    }
  }
}

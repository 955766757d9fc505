/** A block is an append-only log of (page id, data) pages: its meaning is the last writer of each id.
    This module states the invariant of such a log, the lookups and the length computation as
    functions of the page tags, and why the shortcuts the code takes are right. */
module BlockLog {
  import opened FlashModel

  /** One past the largest page id held by a good page. */
  function Top(tags: seq<Tag>): nat {
    if tags == [] then 0
    else
      var last := tags[|tags| - 1];
      var before := Top(tags[..|tags| - 1]);
      if TagIsGood(last) && last.pageId >= before then last.pageId + 1 else before
  }

  /** Every good page either rewrites an id seen before or introduces the next one. */
  predicate LogInv(tags: seq<Tag>) {
    tags == [] ||
    (LogInv(tags[..|tags| - 1]) &&
     (TagIsGood(tags[|tags| - 1]) ==> tags[|tags| - 1].pageId <= Top(tags[..|tags| - 1])))
  }

  /** Highest page that holds the id, or -1. */
  function Latest(tags: seq<Tag>, id: nat): (k: int)
    ensures -1 <= k < |tags|
    ensures k >= 0 ==> Holds(tags[k], id)
    ensures forall j :: k < j < |tags| ==> !Holds(tags[j], id)
  {
    if tags == [] then -1
    else if Holds(tags[|tags| - 1], id) then |tags| - 1
    else Latest(tags[..|tags| - 1], id)
  }

  predicate Holds(t: Tag, id: nat) {
    TagIsGood(t) && t.pageId == id
  }

  /** All good pages belong to one object. */
  predicate OneObject(tags: seq<Tag>) {
    forall i, j :: 0 <= i < |tags| && 0 <= j < |tags| && TagIsGood(tags[i]) && TagIsGood(tags[j]) ==>
      tags[i].parent == tags[j].parent && tags[i].serial == tags[j].serial
  }

  // ----- what the invariant means, without Top

  ghost predicate IdsPrefixClosed(tags: seq<Tag>) {
    forall i, id :: 0 <= i < |tags| && TagIsGood(tags[i]) && 0 <= id < tags[i].pageId ==> Latest(tags, id) >= 0
  }

  ghost predicate FirstAt(tags: seq<Tag>, i: nat) {
    i < |tags| && TagIsGood(tags[i]) && forall j :: 0 <= j < i ==> !Holds(tags[j], tags[i].pageId)
  }

  ghost predicate FirstOccurrencesIncrease(tags: seq<Tag>) {
    forall i, j :: 0 <= i < j && FirstAt(tags, i) && FirstAt(tags, j) ==> tags[i].pageId < tags[j].pageId
  }

  ghost predicate IndexAtLeastId(tags: seq<Tag>) {
    forall i :: 0 <= i < |tags| && TagIsGood(tags[i]) ==> tags[i].pageId <= i
  }

  lemma {:induction false} TopIsBound(tags: seq<Tag>)
    ensures forall i :: 0 <= i < |tags| && TagIsGood(tags[i]) ==> tags[i].pageId < Top(tags)
    ensures Top(tags) > 0 ==> Latest(tags, Top(tags) - 1) >= 0
  {
    if tags != [] {
      var init := tags[..|tags| - 1];
      TopIsBound(init);
      forall i | 0 <= i < |tags| && TagIsGood(tags[i]) ensures tags[i].pageId < Top(tags) {
        if i < |tags| - 1 {
          assert init[i] == tags[i];
        }
      }
    }
  }

  /** A good page holds an id below Top, and below Top every id is held. */
  lemma {:induction false} IdsAreThoseBelowTop(tags: seq<Tag>, id: nat)
    requires LogInv(tags)
    ensures Latest(tags, id) >= 0 <==> id < Top(tags)
  {
    if tags != [] {
      IdsAreThoseBelowTop(tags[..|tags| - 1], id);
    }
  }

  lemma {:induction false} TopAtMostLength(tags: seq<Tag>)
    requires LogInv(tags)
    ensures Top(tags) <= |tags|
  {
    if tags != [] {
      TopAtMostLength(tags[..|tags| - 1]);
    }
  }

  /** Any prefix of a log is a log. */
  lemma {:induction false} LogInvPrefix(tags: seq<Tag>, n: nat)
    requires LogInv(tags) && n <= |tags|
    ensures LogInv(tags[..n])
    ensures Top(tags[..n]) <= Top(tags)
  {
    if n < |tags| {
      var init := tags[..|tags| - 1];
      LogInvPrefix(init, n);
      assert init[..n] == tags[..n];
    } else {
      assert tags[..n] == tags;
    }
  }

  lemma {:induction false} LogInvAt(tags: seq<Tag>, i: nat)
    requires LogInv(tags) && i < |tags| && TagIsGood(tags[i])
    ensures tags[i].pageId <= Top(tags[..i])
    ensures tags[i].pageId <= i
  {
    LogInvPrefix(tags, i + 1);
    LogInvPrefix(tags, i);
    assert tags[..i + 1][..i] == tags[..i];
    TopAtMostLength(tags[..i]);
  }

  /** The invariant in words: ids are prefix-closed and first occurrences come in increasing order. */
  lemma {:induction false} LogInvMeaning(tags: seq<Tag>)
    ensures LogInv(tags) <==> IdsPrefixClosed(tags) && FirstOccurrencesIncrease(tags)
    ensures LogInv(tags) ==> IndexAtLeastId(tags)
  {
    if LogInv(tags) {
      LogInvGivesMeaning(tags);
    }
    if IdsPrefixClosed(tags) && FirstOccurrencesIncrease(tags) {
      MeaningGivesLogInv(tags, |tags|);
      assert tags[..|tags|] == tags;
    }
  }

  lemma {:induction false} LogInvGivesMeaning(tags: seq<Tag>)
    requires LogInv(tags)
    ensures IdsPrefixClosed(tags) && FirstOccurrencesIncrease(tags) && IndexAtLeastId(tags)
  {
    TopIsBound(tags);
    forall i, id | 0 <= i < |tags| && TagIsGood(tags[i]) && 0 <= id < tags[i].pageId ensures Latest(tags, id) >= 0 {
      IdsAreThoseBelowTop(tags, id);
    }
    forall i | 0 <= i < |tags| && TagIsGood(tags[i]) ensures tags[i].pageId <= i {
      LogInvAt(tags, i);
    }
    forall i, j | 0 <= i < j && FirstAt(tags, i) && FirstAt(tags, j) ensures tags[i].pageId < tags[j].pageId {
      // id of page i is below Top of the pages before j; page j is not among those ids
      LogInvPrefix(tags, j);
      TopIsBound(tags[..j]);
      assert tags[..j][i] == tags[i];
      IdsAreThoseBelowTop(tags[..j], tags[j].pageId);
      assert forall k :: 0 <= k < j ==> tags[..j][k] == tags[k];
    }
  }

  lemma {:induction false} MeaningGivesLogInv(tags: seq<Tag>, n: nat)
    requires IdsPrefixClosed(tags) && FirstOccurrencesIncrease(tags) && n <= |tags|
    ensures LogInv(tags[..n])
  {
    if n > 0 {
      MeaningGivesLogInv(tags, n - 1);
      assert tags[..n][..n - 1] == tags[..n - 1];
      if TagIsGood(tags[n - 1]) {
        NoIdIsSkipped(tags, n - 1);
      }
    }
  }

  /** Were an id skipped at page n, it would come first at a later page, after the larger id. */
  lemma {:induction false} NoIdIsSkipped(tags: seq<Tag>, n: nat)
    requires IdsPrefixClosed(tags) && FirstOccurrencesIncrease(tags) && n < |tags| && TagIsGood(tags[n])
    ensures tags[n].pageId <= Top(tags[..n])
  {
    var m := Top(tags[..n]);
    TopIsBound(tags[..n]);
    assert forall x :: 0 <= x < n ==> tags[..n][x] == tags[x];
    if tags[n].pageId > m {
      assert FirstAt(tags, n);
      var j := FirstWith(tags, m);
      assert false;
    }
  }

  lemma {:induction false} FirstWith(tags: seq<Tag>, id: nat) returns (i: nat)
    requires Latest(tags, id) >= 0
    ensures FirstAt(tags, i) && tags[i].pageId == id
  {
    i := 0;
    while !Holds(tags[i], id)
      invariant i <= Latest(tags, id)
      invariant forall j :: 0 <= j < i ==> !Holds(tags[j], id)
      decreases |tags| - i
    {
      i := i + 1;
    }
  }

  /** Pigeonhole: when the last page of the block holds the last id, page i holds id i everywhere. */
  lemma {:induction false} FullLog(tags: seq<Tag>)
    requires LogInv(tags) && Top(tags) == |tags|
    ensures forall i :: 0 <= i < |tags| ==> Holds(tags[i], i)
  {
    if tags != [] {
      var init := tags[..|tags| - 1];
      TopAtMostLength(init);
      FullLog(init);
      forall i | 0 <= i < |tags| ensures Holds(tags[i], i) {
        if i < |tags| - 1 {
          assert init[i] == tags[i];
        }
      }
    }
  }

  // ----- lookup: the first page with an id, then the best page with the tag of that page

  /** Both lookups together return the last writer, whatever page with that id they start from. */
  ghost predicate BestOf(tags: seq<Tag>, page: nat, best: nat)
    requires page < |tags|
  {
    page <= best < |tags| && SameOwner(tags[best], tags[page]) &&
    forall j :: best < j < |tags| ==> !SameOwner(tags[j], tags[page])
  }

  predicate SameOwner(t: Tag, u: Tag) {
    TagIsGood(t) && t.pageId == u.pageId && t.parent == u.parent && t.serial == u.serial
  }

  predicate FullyLoaded(tags: seq<Tag>) {
    |tags| > 0 && Holds(tags[|tags| - 1], |tags| - 1)
  }

  lemma {:induction false} FullyLoadedMeansOnePagePerId(tags: seq<Tag>)
    requires LogInv(tags) && FullyLoaded(tags)
    ensures Top(tags) == |tags|
    ensures forall i :: 0 <= i < |tags| ==> Latest(tags, i) == i
  {
    TopIsBound(tags);
    TopAtMostLength(tags);
    FullLog(tags);
    forall i | 0 <= i < |tags| ensures Latest(tags, i) == i {
      var k := Latest(tags, i);
      assert Holds(tags[i], i);
      assert Holds(tags[k], k);
    }
  }

  /** The best page is the last writer of the id; in a fully loaded block that is the page itself. */
  lemma {:induction false} BestIsLatest(tags: seq<Tag>, page: nat, best: nat)
    requires LogInv(tags) && OneObject(tags) && page < |tags| && TagIsGood(tags[page])
    requires if FullyLoaded(tags) then best == page else BestOf(tags, page, best)
    ensures best == Latest(tags, tags[page].pageId)
  {
    if FullyLoaded(tags) {
      FullyLoadedMeansOnePagePerId(tags);
      FullLog(tags);
      assert Holds(tags[page], page);
    } else {
      var k := Latest(tags, tags[page].pageId);
      assert Holds(tags[page], tags[page].pageId);
      assert SameOwner(tags[k], tags[page]);
    }
  }

  // ----- length of the file data on a block

  /** Sum of the data lengths of the last writers of ids from..to-1. */
  function SumLens(tags: seq<Tag>, from: nat, to: nat): nat {
    if to <= from then 0
    else SumLens(tags, from, to - 1) + (var k := Latest(tags, to - 1); if k >= 0 then tags[k].dataLen else 0)
  }

  /** With one page per id the sum falls short of full pages by what the pages lack. */
  lemma {:induction false} SumLensMissing(tags: seq<Tag>, from: nat, to: nat, pageSize: nat)
    requires from <= to <= |tags|
    requires forall i :: from <= i < to ==> Latest(tags, i) == i
    ensures SumLens(tags, from, to) == pageSize * (to - from) - Missing(tags, from, to, pageSize)
  {
    if from < to {
      SumLensMissing(tags, from, to - 1, pageSize);
      assert pageSize * (to - from) == pageSize * (to - 1 - from) + pageSize;
      assert Latest(tags, to - 1) == to - 1;
    }
  }

  function Missing(tags: seq<Tag>, from: nat, to: nat, pageSize: nat): int
    requires to <= |tags|
  {
    if to <= from then 0 else Missing(tags, from, to - 1, pageSize) + pageSize - tags[to - 1].dataLen
  }

  lemma {:induction false} NothingMissing(tags: seq<Tag>, from: nat, to: nat, pageSize: nat)
    requires from <= to <= |tags|
    requires forall i :: from <= i < to ==> tags[i].dataLen <= pageSize
    ensures Missing(tags, from, to, pageSize) >= 0
    ensures Missing(tags, from, to, pageSize) == 0 <==> forall i :: from <= i < to ==> tags[i].dataLen == pageSize
  {
    if from < to {
      NothingMissing(tags, from, to - 1, pageSize);
    }
  }

  /** First data page id of a block: page 0 of a file's head block holds the file's attributes. */
  function FirstDataId(tags: seq<Tag>): nat
    requires |tags| > 0
  {
    if tags[0].ty == FILE then 1 else 0
  }

  /** The shortcut length of a fully loaded block is the sum of its latest data lengths exactly when
      every data page but the last is full. */
  lemma {:induction false} FastLengthIsSlowLength(tags: seq<Tag>, pageSize: nat)
    requires |tags| >= 2 && LogInv(tags) && FullyLoaded(tags)
    requires forall i :: 0 <= i < |tags| ==> tags[i].dataLen <= pageSize
    ensures var from := FirstDataId(tags);
            pageSize * (|tags| - 1 - from) + tags[|tags| - 1].dataLen == SumLens(tags, from, Top(tags)) <==>
            forall i :: from <= i < |tags| - 1 ==> tags[i].dataLen == pageSize
  {
    FullyLoadedMeansOnePagePerId(tags);
    SumLensMissing(tags, FirstDataId(tags), |tags| - 1, pageSize);
    NothingMissing(tags, FirstDataId(tags), |tags| - 1, pageSize);
  }

  /** A block whose first page is clean counts as having the first time stamp. */
  function TimeStampOf(tags: seq<Tag>): nat
    requires |tags| > 0
  {
    if TagIsDirty(tags[0]) then tags[0].ts else FIRST_TIME_STAMP
  }

  // ----- free pages

  function CountErased(tags: seq<Tag>, from: nat): (n: nat)
    decreases |tags| - from
  {
    if from >= |tags| then 0
    else (if TagIsErased(tags[from]) then 1 else 0) + CountErased(tags, from + 1)
  }

  /** Page behind the last good page. */
  function AfterLastGood(tags: seq<Tag>): (n: nat)
    ensures n <= |tags|
    ensures n > 0 ==> TagIsGood(tags[n - 1])
    ensures forall i :: n <= i < |tags| ==> !TagIsGood(tags[i])
  {
    if tags == [] then 0
    else if TagIsGood(tags[|tags| - 1]) then |tags|
    else AfterLastGood(tags[..|tags| - 1])
  }

  lemma {:induction false} AfterLastGoodAt(tags: seq<Tag>, n: nat)
    requires n <= |tags|
    requires n > 0 ==> TagIsGood(tags[n - 1])
    requires forall i :: n <= i < |tags| ==> !TagIsGood(tags[i])
    ensures AfterLastGood(tags) == n
  {
  }

  // ----- the scan over all pages that adds up the latest lengths

  ghost predicate ScanInv(tags: seq<Tag>, i: nat, pageId: nat, size: nat)
    requires 0 < |tags| && i <= |tags|
  {
    LogInv(tags) && OneObject(tags) ==>
      pageId == (if Top(tags[..i]) < FirstDataId(tags) then FirstDataId(tags) else Top(tags[..i])) &&
      size == SumLens(tags, FirstDataId(tags), pageId)
  }

  lemma {:induction false} ScanStarts(tags: seq<Tag>)
    requires 0 < |tags| && TagIsGood(tags[0])
    ensures ScanInv(tags, FirstDataId(tags), FirstDataId(tags), 0)
  {
    if LogInv(tags) {
      LogInvAt(tags, 0);
      assert tags[..1][..0] == [];
      assert tags[..0] == [];
    }
  }

  lemma {:induction false} ScanSkips(tags: seq<Tag>, i: nat, pageId: nat, size: nat)
    requires i < |tags| && FirstDataId(tags) <= i && ScanInv(tags, i, pageId, size) && !Holds(tags[i], pageId)
    ensures ScanInv(tags, i + 1, pageId, size)
  {
    if LogInv(tags) && OneObject(tags) {
      assert tags[..i + 1][..i] == tags[..i];
      LogInvPrefix(tags, i + 1);
    }
  }

  lemma {:induction false} ScanCounts(tags: seq<Tag>, i: nat, pageId: nat, size: nat, best: nat)
    requires i < |tags| && FirstDataId(tags) <= i && ScanInv(tags, i, pageId, size) && Holds(tags[i], pageId)
    requires best < |tags| && (LogInv(tags) && OneObject(tags) ==> best == Latest(tags, pageId))
    ensures ScanInv(tags, i + 1, pageId + 1, size + tags[best].dataLen)
  {
    if LogInv(tags) && OneObject(tags) {
      assert tags[..i + 1][..i] == tags[..i];
      LogInvPrefix(tags, i + 1);
    }
  }

  lemma {:induction false} ScanEnds(tags: seq<Tag>, pageId: nat, size: nat)
    requires 0 < |tags| && TagIsGood(tags[0]) && LogInv(tags) && OneObject(tags) && ScanInv(tags, |tags|, pageId, size)
    ensures size == SumLens(tags, FirstDataId(tags), Top(tags))
  {
    assert tags[..|tags|] == tags;
  }

  lemma {:induction false} AllErasedFrom(tags: seq<Tag>, n: nat)
    requires n <= |tags| && forall i :: n <= i < |tags| ==> TagIsErased(tags[i])
    ensures CountErased(tags, n) == |tags| - n
    decreases |tags| - n
  {
    if n < |tags| {
      AllErasedFrom(tags, n + 1);
    }
  }
}

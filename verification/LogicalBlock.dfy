/** What a block means to the layers above: its logical pages, one per page id, each the last written.
    Flushing dirty pages must produce the old logical pages overridden by the dirty ones, whether the
    dirty pages are appended to the block or merged with it into a fresh block. */
module LogicalBlock {
  import opened FlashModel
  import opened BlockLog

  datatype LPage = LPage(data: seq<Byte>, len: nat)

  /** A dirty page; `trunc` marks the last page of a file that is being truncated. */
  datatype DPage = DPage(page: LPage, trunc: bool)

  function ContentOf(p: Page): LPage {
    LPage(p.data, p.tag.dataLen)
  }

  function PageAt(b: Block, id: nat): LPage {
    var k := Latest(TagsOf(b), id);
    if k >= 0 then ContentOf(b[k]) else LPage([], 0)
  }

  function Logical(b: Block): (pages: seq<LPage>)
    ensures |pages| == Top(TagsOf(b))
    ensures forall id :: 0 <= id < |pages| ==> pages[id] == PageAt(b, id)
  {
    seq(Top(TagsOf(b)), id requires 0 <= id => PageAt(b, id))
  }

  lemma {:induction false} LatestIsLogical(b: Block, id: nat)
    requires id < |Logical(b)| && Latest(TagsOf(b), id) >= 0
    ensures Logical(b)[id] == ContentOf(b[Latest(TagsOf(b), id)])
  {
  }

  // ----- the block-recover flush: page by page, dirty page before old page, up to the first id in neither

  /** The pages a merge writes for ids i..n-1. A dirty page of length 0 or marked as the tail of a
      truncated file ends the block. */
  function Merge(prior: seq<LPage>, dirty: map<nat, DPage>, i: nat, n: nat): (pages: seq<LPage>)
    ensures |pages| <= (if i < n then n - i else 0)
    decreases n - i
  {
    if i >= n then []
    else if i in dirty then
      if dirty[i].page.len == 0 then []
      else if dirty[i].trunc then [dirty[i].page]
      else [dirty[i].page] + Merge(prior, dirty, i + 1, n)
    else if i < |prior| then [prior[i]] + Merge(prior, dirty, i + 1, n)
    else []
  }

  /** Every dirty page extends or rewrites what is below it, and none truncates. */
  ghost predicate Extends(prior: seq<LPage>, dirty: map<nat, DPage>, n: nat) {
    |prior| <= n &&
    forall id :: id in dirty ==>
      id < n && dirty[id].page.len > 0 && !dirty[id].trunc && forall j :: |prior| <= j < id ==> j in dirty
  }

  /** Without truncation a merge overrides the old pages by the dirty ones and loses none. */
  lemma {:induction false} MergeOverrides(prior: seq<LPage>, dirty: map<nat, DPage>, i: nat, n: nat, id: nat)
    requires Extends(prior, dirty, n) && i <= id < n
    ensures var pages := Merge(prior, dirty, i, n);
            (id < i + |pages| <==> id in dirty || id < |prior|) &&
            (id < i + |pages| ==> pages[id - i] == if id in dirty then dirty[id].page else prior[id])
    decreases n - i
  {
    if i < id && (i in dirty || i < |prior|) {
      MergeOverrides(prior, dirty, i + 1, n, id);
    }
  }

  /** Without dirty pages a merge copies the block. */
  lemma {:induction false} MergeNothing(prior: seq<LPage>, i: nat, n: nat)
    requires i <= |prior| <= n
    ensures Merge(prior, map[], i, n) == prior[i..]
    decreases n - i
  {
    if i < |prior| {
      MergeNothing(prior, i + 1, n);
    }
  }

  // ----- the append flush: one dirty page at a time, smallest id first

  function Put(pages: seq<LPage>, id: nat, page: LPage): seq<LPage> {
    if id < |pages| then pages[id := page]
    else pages + [page]
  }

  /** Appending the dirty page of smallest id leaves the outcome of the whole flush unchanged. */
  lemma {:induction false} PutThenMerge(prior: seq<LPage>, dirty: map<nat, DPage>, id: nat, n: nat)
    requires Extends(prior, dirty, n) && id in dirty && forall j :: j in dirty ==> id <= j
    ensures id <= |prior| && id < n
    ensures Extends(Put(prior, id, dirty[id].page), dirty - {id}, n)
    ensures Merge(Put(prior, id, dirty[id].page), dirty - {id}, 0, n) == Merge(prior, dirty, 0, n)
  {
    assert |prior| < id ==> |prior| in dirty;
    PutThenMergeFrom(prior, dirty, id, 0, n);
  }

  lemma {:induction false} PutThenMergeFrom(prior: seq<LPage>, dirty: map<nat, DPage>, id: nat, i: nat, n: nat)
    requires Extends(prior, dirty, n) && id in dirty && id <= |prior|
    ensures Merge(Put(prior, id, dirty[id].page), dirty - {id}, i, n) == Merge(prior, dirty, i, n)
    decreases n - i
  {
    if i < n {
      PutThenMergeFrom(prior, dirty, id, i + 1, n);
    }
  }

  /** What flash holds for a dirty page does not matter. */
  lemma {:induction false} DirtyPageHidesStored(prior: seq<LPage>, dirty: map<nat, DPage>, id: nat, page: LPage, i: nat,
                                                n: nat)
    requires Extends(prior, dirty, n) && id in dirty && id <= |prior|
    ensures Extends(Put(prior, id, page), dirty, n)
    ensures Merge(Put(prior, id, page), dirty, i, n) == Merge(prior, dirty, i, n)
    decreases n - i
  {
    if i < n {
      DirtyPageHidesStored(prior, dirty, id, page, i + 1, n);
    }
  }

  // ----- a page written in a buffer

  /** Making a page dirty changes just that page of what a reader sees. */
  lemma {:induction false} DirtyPageShows(prior: seq<LPage>, dirty: map<nat, DPage>, id: nat, page: LPage, n: nat)
    requires Extends(prior, dirty, n) && id < n && id <= |Merge(prior, dirty, 0, n)| && page.len > 0
    ensures Extends(prior, dirty[id := DPage(page, false)], n)
    ensures Merge(prior, dirty[id := DPage(page, false)], 0, n) == Put(Merge(prior, dirty, 0, n), id, page)
  {
    forall j | 0 <= j < id ensures j in dirty || j < |prior| {
      MergeOverrides(prior, dirty, 0, n, j);
    }
    DirtyPageShowsFrom(prior, dirty, id, page, 0, n);
  }

  lemma {:induction false} DirtyPageShowsFrom(prior: seq<LPage>, dirty: map<nat, DPage>, id: nat, page: LPage, i: nat,
                                              n: nat)
    requires Extends(prior, dirty, n) && i <= id < n && id - i <= |Merge(prior, dirty, i, n)| && page.len > 0
    ensures Merge(prior, dirty[id := DPage(page, false)], i, n) == Put(Merge(prior, dirty, i, n), id - i, page)
    decreases n - i
  {
    var rest, rest' := Merge(prior, dirty, i + 1, n), Merge(prior, dirty[id := DPage(page, false)], i + 1, n);
    if i < id {
      DirtyPageShowsFrom(prior, dirty, id, page, i + 1, n);
      PutInTail(if i in dirty then dirty[i].page else prior[i], rest, id - i, page);
    } else {
      DirtyPageAbove(prior, dirty, id, page, i + 1, n);
      assert rest' == rest;
      if i in dirty || i < |prior| {
        PutInFront(if i in dirty then dirty[i].page else prior[i], rest, page);
      } else {
        MergeStops(prior, dirty, i, n);
      }
    }
  }

  lemma {:induction false} PutInTail(x: LPage, rest: seq<LPage>, k: nat, page: LPage)
    requires 0 < k <= |rest| + 1
    ensures Put([x] + rest, k, page) == [x] + Put(rest, k - 1, page)
  {
  }

  lemma {:induction false} PutInFront(x: LPage, rest: seq<LPage>, page: LPage)
    ensures Put([x] + rest, 0, page) == [page] + rest
  {
  }

  lemma {:induction false} MergeStops(prior: seq<LPage>, dirty: map<nat, DPage>, i: nat, n: nat)
    requires Extends(prior, dirty, n) && i !in dirty && |prior| <= i
    ensures Merge(prior, dirty, i + 1, n) == []
  {
  }

  lemma {:induction false} DirtyPageAbove(prior: seq<LPage>, dirty: map<nat, DPage>, id: nat, page: LPage, i: nat,
                                          n: nat)
    requires id < i
    ensures Merge(prior, dirty[id := DPage(page, false)], i, n) == Merge(prior, dirty, i, n)
    decreases n - i
  {
    if i < n {
      DirtyPageAbove(prior, dirty, id, page, i + 1, n);
    }
  }

  // ----- what the flush loops do to the pages of a block

  /** A page behind the log leaves no trace in what the tags mean. */
  lemma {:induction false} BlankSuffix(tags: seq<Tag>, n: nat, id: nat)
    requires n <= |tags| && forall i :: n <= i < |tags| ==> !TagIsGood(tags[i])
    ensures Top(tags) == Top(tags[..n]) && Latest(tags, id) == Latest(tags[..n], id)
    ensures LogInv(tags) <==> LogInv(tags[..n])
    decreases |tags|
  {
    if n == |tags| {
      assert tags[..n] == tags;
    } else {
      var init := tags[..|tags| - 1];
      BlankSuffix(init, n, id);
      assert init[..n] == tags[..n];
    }
  }

  /** Programming the first page behind the log puts its content at its id. */
  lemma {:induction false} AppendedPage(b: Block, k: nat, p: Page)
    requires k < |b| && LogInv(TagsOf(b))
    requires forall i :: k <= i < |b| ==> !TagIsGood(b[i].tag)
    requires TagIsGood(p.tag) && p.tag.pageId <= |Logical(b)|
    ensures LogInv(TagsOf(b[k := p]))
    ensures Logical(b[k := p]) == Put(Logical(b), p.tag.pageId, ContentOf(p))
  {
    var tags, tags' := TagsOf(b), TagsOf(b[k := p]);
    assert tags'[..k + 1][..k] == tags[..k];
    BlankSuffix(tags, k, 0);
    BlankSuffix(tags', k + 1, 0);
    forall id: nat ensures PageAt(b[k := p], id) == if id == p.tag.pageId then ContentOf(p) else PageAt(b, id) {
      AppendedPageAt(b, k, p, id);
    }
  }

  lemma {:induction false} AppendedPageAt(b: Block, k: nat, p: Page, id: nat)
    requires k < |b| && forall i :: k <= i < |b| ==> !TagIsGood(b[i].tag)
    requires TagIsGood(p.tag)
    ensures PageAt(b[k := p], id) == if id == p.tag.pageId then ContentOf(p) else PageAt(b, id)
  {
    var tags, tags' := TagsOf(b), TagsOf(b[k := p]);
    assert tags'[..k + 1][..k] == tags[..k];
    BlankSuffix(tags, k, id);
    BlankSuffix(tags', k + 1, id);
  }

  /** Pages written in the order of their ids from the start of a fresh block. */
  lemma {:induction false} PagesInOrder(b: Block, m: nat)
    requires m <= |b|
    requires forall j :: 0 <= j < m ==> Holds(b[j].tag, j)
    requires forall j :: m <= j < |b| ==> !TagIsGood(b[j].tag)
    ensures LogInv(TagsOf(b)) && |Logical(b)| == m
    ensures forall j :: 0 <= j < m ==> Logical(b)[j] == ContentOf(b[j])
  {
    TagsInOrder(TagsOf(b)[..m], m);
    forall j | 0 <= j < m ensures PageAt(b, j) == ContentOf(b[j]) {
      BlankSuffix(TagsOf(b), m, j);
      var k := Latest(TagsOf(b), j);
      assert Holds(TagsOf(b)[j], j);
      assert Holds(TagsOf(b)[k], j);
    }
    BlankSuffix(TagsOf(b), m, 0);
  }

  lemma {:induction false} TagsInOrder(tags: seq<Tag>, m: nat)
    requires |tags| == m && forall j :: 0 <= j < m ==> Holds(tags[j], j)
    ensures LogInv(tags) && Top(tags) == m
  {
    if m > 0 {
      assert Holds(tags[m - 1], m - 1);
      TagsInOrder(tags[..m - 1], m - 1);
    }
  }
}

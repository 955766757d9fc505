/** What a mount makes of the blocks it finds: each by itself, and two blocks of one object. */
module MountModel {
  import opened FlashModel
  import opened BlockLog

  /** The tree finds directories and files by their serial, data blocks by parent and serial. */
  datatype Key = DirKey(serial: nat) | FileKey(serial: nat) | DataKey(parent: nat, serial: nat) | NoKey

  function KeyOf(ty: nat, parent: nat, serial: nat): Key {
    if ty == DIR then DirKey(serial)
    else if ty == FILE then FileKey(serial)
    else if ty == DATA then DataKey(parent, serial)
    else NoKey
  }

  function TagKey(t: Tag): Key {
    KeyOf(t.ty, t.parent, t.serial)
  }

  // ----- one block

  /** A page whose write was cut off: something of it is there, but it is not sealed. */
  predicate Unclean(p: Page) {
    !p.tag.sealed && (TagIsDirty(p.tag) || p.tag.valid || p.programmed)
  }

  /** The scan from the last page down to page 1 stops at the first page that is not clean. */
  predicate NeedsCleanup(b: Block, page: nat)
    requires page < |b|
  {
    page > 0 && !b[page].tag.sealed && (Unclean(b[page]) || NeedsCleanup(b, page - 1))
  }

  /** Blank: page 0 looks erased. Clean up: an unclean page was found and noted for clean-up.
      Broken: page 0 is not good. Impossible: page 0 is sealed but blank, and the mount fails. */
  datatype Verdict = Blank | CleanUp | Broken | Impossible | Claim(key: Key)

  const MAX_PENDING: nat := 4

  /** `room` says whether the list of blocks noted for clean-up has room for one more. */
  function VerdictOf(b: Block, room: bool): Verdict
    requires |b| > 0
  {
    if TagIsErased(b[0].tag) then Blank
    else if NeedsCleanup(b, |b| - 1) && room then CleanUp
    else if !TagIsDirty(b[0].tag) then Impossible
    else if !TagIsGood(b[0].tag) then Broken
    else Claim(TagKey(b[0].tag))
  }

  /** A block of a directory or file must have a page with id 0. */
  predicate HasHead(b: Block) {
    |b| > 0 && (b[0].tag.ty == DIR || b[0].tag.ty == FILE ==> Latest(TagsOf(b), 0) >= 0)
  }

  // ----- all blocks, in the order of the scan

  type Blocks = seq<Block>

  predicate Sized(blocks: Blocks) {
    forall b :: 0 <= b < |blocks| ==> 2 <= |blocks[b]| < INVALID_PAGE
  }

  function CountCleanups(blocks: Blocks, marked: set<nat>, n: nat): (c: nat)
    requires n <= |blocks| && Sized(blocks)
    ensures c <= MAX_PENDING
  {
    if n == 0 then 0
    else
      var c := CountCleanups(blocks, marked, n - 1);
      if n - 1 !in marked && VerdictOf(blocks[n - 1], c < MAX_PENDING) == CleanUp then c + 1 else c
  }

  function VerdictAt(blocks: Blocks, marked: set<nat>, b: nat): Verdict
    requires b < |blocks| && Sized(blocks)
  {
    VerdictOf(blocks[b], CountCleanups(blocks, marked, b) < MAX_PENDING)
  }

  predicate Claims(blocks: Blocks, marked: set<nat>, b: nat, k: Key)
    requires Sized(blocks)
  {
    b < |blocks| && b !in marked && VerdictAt(blocks, marked, b) == Claim(k)
  }

  /** The block that holds key k once the first n blocks are scanned, or -1. Of two blocks for one key
      the one that is not newer stays. */
  function Winner(blocks: Blocks, marked: set<nat>, k: Key, n: nat): (w: int)
    requires n <= |blocks| && Sized(blocks)
    ensures -1 <= w < n
    ensures w >= 0 ==> Claims(blocks, marked, w, k)
  {
    if n == 0 then -1
    else
      var w := Winner(blocks, marked, k, n - 1);
      if !Claims(blocks, marked, n - 1, k) then w
      else if w >= 0 && IsSrcNewerThanObj(blocks[n - 1][0].tag.ts, blocks[w][0].tag.ts) then w
      else if HasHead(blocks[n - 1]) then n - 1
      else -1
  }

  /** Whatever the order of the scan, a block wins that is older than every other block of its key. */
  lemma {:induction false} OldestWins(blocks: Blocks, marked: set<nat>, k: Key, n: nat, w: nat)
    requires n <= |blocks| && Sized(blocks)
    requires Claims(blocks, marked, w, k) && HasHead(blocks[w])
    requires forall b :: 0 <= b < |blocks| && b != w && Claims(blocks, marked, b, k) ==>
               IsSrcNewerThanObj(blocks[b][0].tag.ts, blocks[w][0].tag.ts) &&
               !IsSrcNewerThanObj(blocks[w][0].tag.ts, blocks[b][0].tag.ts)
    ensures w < n ==> Winner(blocks, marked, k, n) == w
  {
    if n > 0 {
      OldestWins(blocks, marked, k, n - 1, w);
    }
  }

  lemma {:induction false} NobodyWins(blocks: Blocks, marked: set<nat>, k: Key, n: nat)
    requires n <= |blocks| && Sized(blocks)
    requires forall b :: 0 <= b < n ==> !Claims(blocks, marked, b, k)
    ensures Winner(blocks, marked, k, n) == -1
  {
    if n > 0 {
      NobodyWins(blocks, marked, k, n - 1);
    }
  }

  /** When block b is scanned it takes key k from whatever block held it. */
  predicate Displaces(blocks: Blocks, marked: set<nat>, k: Key, b: nat)
    requires Sized(blocks)
  {
    Claims(blocks, marked, b, k) &&
    var w := Winner(blocks, marked, k, b);
    w < 0 || !IsSrcNewerThanObj(blocks[b][0].tag.ts, blocks[w][0].tag.ts)
  }

  /** Block b has a head page, and it was the last to take the key. */
  predicate TookLast(blocks: Blocks, marked: set<nat>, k: Key, n: nat, b: nat)
    requires Sized(blocks) && n <= |blocks|
  {
    b < n && Displaces(blocks, marked, k, b) && HasHead(blocks[b]) &&
    forall c :: b < c < n ==> !Displaces(blocks, marked, k, c)
  }

  /** A key ends with a block exactly if the last block to take it has a head page; that block holds it. */
  lemma {:induction false} HeldIff(blocks: Blocks, marked: set<nat>, k: Key, n: nat)
    requires n <= |blocks| && Sized(blocks)
    ensures Winner(blocks, marked, k, n) >= 0 <==> exists b :: TookLast(blocks, marked, k, n, b)
    ensures forall b: nat :: TookLast(blocks, marked, k, n, b) ==> Winner(blocks, marked, k, n) == b
  {
    hide HasHead, VerdictAt;
    if n > 0 {
      HeldIff(blocks, marked, k, n - 1);
      var w := Winner(blocks, marked, k, n);
      if w >= 0 {
        if w < n - 1 {
          assert Winner(blocks, marked, k, n - 1) == w;
          assert TookLast(blocks, marked, k, n - 1, w);
        }
        assert TookLast(blocks, marked, k, n, w);
      }
      forall b: nat | TookLast(blocks, marked, k, n, b) ensures w == b {
        if b < n - 1 {
          assert TookLast(blocks, marked, k, n - 1, b);
          assert !Displaces(blocks, marked, k, n - 1);
        } else {
          assert Displaces(blocks, marked, k, n - 1);
        }
      }
    }
  }

  /** If every block that claims a key has a head page, the key ends with a block exactly if some block claims it. */
  lemma {:induction false} HeadsHold(blocks: Blocks, marked: set<nat>, k: Key, n: nat)
    requires n <= |blocks| && Sized(blocks)
    requires forall b :: 0 <= b < n && Claims(blocks, marked, b, k) ==> HasHead(blocks[b])
    ensures Winner(blocks, marked, k, n) >= 0 <==> exists b :: 0 <= b < n && Claims(blocks, marked, b, k)
  {
    hide HasHead, VerdictAt;
    if n > 0 {
      HeadsHold(blocks, marked, k, n - 1);
      if Claims(blocks, marked, n - 1, k) {
        assert HasHead(blocks[n - 1]);
      }
    }
  }

  /** Two blocks claim a key: it ends without a block exactly if the later one has no head page and would not be put
      aside as the newer of the two. */
  lemma {:induction false} TwoClaims(blocks: Blocks, marked: set<nat>, k: Key, a: nat, b: nat, n: nat)
    requires a < b < n <= |blocks| && Sized(blocks) && Claims(blocks, marked, a, k) && Claims(blocks, marked, b, k)
    requires forall c :: 0 <= c < n && Claims(blocks, marked, c, k) ==> c == a || c == b
    ensures Winner(blocks, marked, k, n) >= 0 <==>
            HasHead(blocks[b]) || (HasHead(blocks[a]) && IsSrcNewerThanObj(blocks[b][0].tag.ts, blocks[a][0].tag.ts))
  {
    hide HasHead, VerdictAt, IsSrcNewerThanObj;
    NobodyWins(blocks, marked, k, a);
    NoMoreClaims(blocks, marked, k, a + 1, b);
    NoMoreClaims(blocks, marked, k, b + 1, n);
  }

  lemma {:induction false} NoMoreClaims(blocks: Blocks, marked: set<nat>, k: Key, m: nat, n: nat)
    requires m <= n <= |blocks| && Sized(blocks)
    requires forall c :: m <= c < n ==> !Claims(blocks, marked, c, k)
    ensures Winner(blocks, marked, k, n) == Winner(blocks, marked, k, m)
    decreases n - m
  {
    if m < n {
      NoMoreClaims(blocks, marked, k, m, n - 1);
    }
  }

  // Two blocks of file 1 with the same time stamp; the first has page 0, the second has only page 1.
  const FILE_PAGE := Page(Tag(true, true, true, FILE, 0, 1, 1, 0, 0), true, [0])
  const HEADED: Block := [FILE_PAGE, ErasedPage(1)]
  const HEADLESS: Block := [FILE_PAGE.(tag := FILE_PAGE.tag.(pageId := 1)), ErasedPage(1)]
  // A block in use whose type the tree does not know.
  const UNTYPED: Block := [FILE_PAGE.(tag := FILE_PAGE.tag.(ty := 3)), ErasedPage(1)]

  /** Both claim the key, and it ends without a block; scanned the other way round, it ends with the headed one. */
  lemma {:induction false} HeadlessTakesAway()
    ensures Winner([HEADED, HEADLESS], {}, FileKey(1), 1) == 0 && Winner([HEADED, HEADLESS], {}, FileKey(1), 2) == -1
    ensures Winner([HEADLESS, HEADED], {}, FileKey(1), 2) == 1
  {
    ClaimsFile(HEADED, true, 0);
    ClaimsFile(HEADLESS, true, 1);
    assert !NeedsCleanup(HEADED, 1) && !NeedsCleanup(HEADLESS, 1);
    var ab, ba := [HEADED, HEADLESS], [HEADLESS, HEADED];
    NoneToCleanUp(ab, 2);
    NoneToCleanUp(ba, 2);
    assert Claims(ab, {}, 0, FileKey(1)) && Claims(ab, {}, 1, FileKey(1));
    assert Claims(ba, {}, 0, FileKey(1)) && Claims(ba, {}, 1, FileKey(1));
    assert Winner(ab, {}, FileKey(1), 0) == -1 == Winner(ba, {}, FileKey(1), 0);
  }

  lemma {:induction false} ClaimsFile(b: Block, room: bool, id: nat)
    requires b == [FILE_PAGE.(tag := FILE_PAGE.tag.(pageId := id)), ErasedPage(1)]
    ensures |b| == 2 && VerdictOf(b, room) == Claim(FileKey(1)) && (HasHead(b) <==> id == 0) && !NeedsCleanup(b, 1)
  {
    assert b[1] == ErasedPage(1) && !Unclean(b[1]) && !NeedsCleanup(b, 0);
    assert TagIsGood(b[0].tag) && TagIsDirty(b[0].tag) && !TagIsErased(b[0].tag);
    var tags := TagsOf(b);
    assert tags[..1] == [tags[0]] && tags[..1][..0] == [];
    assert Latest(tags, 0) == if id == 0 then 0 else -1;
  }

  lemma {:induction false} NoneToCleanUp(blocks: Blocks, n: nat)
    requires n <= |blocks| && Sized(blocks) && forall b :: 0 <= b < n ==> !NeedsCleanup(blocks[b], |blocks[b]| - 1)
    ensures CountCleanups(blocks, {}, n) == 0
  {
    if n > 0 {
      NoneToCleanUp(blocks, n - 1);
    }
  }

  /** A block of no known type is in use and claims no key of the tree. */
  lemma {:induction false} UntypedClaims()
    ensures Sized([UNTYPED]) && VerdictAt([UNTYPED], {}, 0) == Claim(NoKey)
  {
    assert !NeedsCleanup(UNTYPED, 1);
  }

  // ----- length of a file

  /** A block's node in the tree. */
  datatype Node = Node(block: nat, parent: nat, serial: nat, len: nat)

  /** Sum of the lengths of the data blocks of a file with serials below n, counting only the keys in `among`. */
  function SumData(nodes: map<Key, Node>, among: set<Key>, file: nat, n: nat): nat {
    if n == 0 then 0
    else SumData(nodes, among, file, n - 1) +
         (if DataKey(file, n - 1) in among && DataKey(file, n - 1) in nodes then nodes[DataKey(file, n - 1)].len else 0)
  }

  lemma {:induction false} SumDataAdds(nodes: map<Key, Node>, among: set<Key>, k: Key, file: nat, n: nat)
    requires k.DataKey? && k in nodes && k !in among
    ensures SumData(nodes, among + {k}, file, n) ==
            SumData(nodes, among, file, n) + (if k.parent == file && k.serial < n then nodes[k].len else 0)
  {
    if n > 0 {
      SumDataAdds(nodes, among, k, file, n - 1);
    }
  }

  lemma {:induction false} SumDataSame(nodes: map<Key, Node>, nodes': map<Key, Node>, among: set<Key>, file: nat,
                                       n: nat)
    requires forall k :: k in among ==> (k in nodes <==> k in nodes') && (k in nodes ==> nodes[k].len == nodes'[k].len)
    ensures SumData(nodes, among, file, n) == SumData(nodes', among, file, n)
  {
    if n > 0 {
      SumDataSame(nodes, nodes', among, file, n - 1);
    }
  }

  lemma {:induction false} SumNothing(nodes: map<Key, Node>, file: nat, n: nat)
    ensures SumData(nodes, {}, file, n) == 0
  {
    if n > 0 {
      SumNothing(nodes, file, n - 1);
    }
  }

  // ----- data blocks and their files

  function DataKeys(nodes: map<Key, Node>): (keys: set<Key>)
    ensures forall k :: k in keys <==> k in nodes && k.DataKey?
  {
    set k | k in nodes && k.DataKey?
  }

  /** Each node has a block of its own, and a data node knows its file. */
  ghost predicate NodesDistinct(nodes: map<Key, Node>, n: nat) {
    && (forall k :: k in nodes ==> nodes[k].block < n)
    && (forall k, j :: k in nodes && j in nodes && k != j ==> nodes[k].block != nodes[j].block)
    && (forall k :: k in nodes && k.DataKey? ==> nodes[k].parent == k.parent)
  }

  /** The data nodes in `done` have been added to their files, or removed for want of a file. */
  ghost predicate Summed(nodes0: map<Key, Node>, nodes: map<Key, Node>, done: set<Key>, bound: nat) {
    && (forall k :: k in nodes <==> k in nodes0 && (k in done && k.DataKey? ==> FileKey(k.parent) in nodes0))
    && (forall k :: k in nodes ==>
          nodes[k] == if k.FileKey? then nodes0[k].(len := nodes0[k].len + SumData(nodes0, done, k.serial, bound))
            else nodes0[k])
  }

  lemma {:induction false} SumStarts(nodes: map<Key, Node>, bound: nat)
    ensures Summed(nodes, nodes, {}, bound)
  {
    forall k | k in nodes && k.FileKey? ensures SumData(nodes, {}, k.serial, bound) == 0 {
      SumNothing(nodes, k.serial, bound);
    }
  }

  /** Adding the length of one more data node to its file. */
  lemma {:induction false} SumStep(nodes0: map<Key, Node>, nodes: map<Key, Node>, done: set<Key>, bound: nat, k: Key)
    requires Summed(nodes0, nodes, done, bound) && forall j :: j in done ==> j in nodes0 && j.DataKey?
    requires k in nodes0 && k.DataKey? && k !in done && k.serial < bound
    ensures FileKey(k.parent) in nodes ==>
              k in nodes &&
              var file := nodes[FileKey(k.parent)];
              Summed(nodes0, nodes[FileKey(k.parent) := file.(len := file.len + nodes[k].len)], done + {k}, bound)
    ensures FileKey(k.parent) !in nodes ==> k in nodes && Summed(nodes0, nodes - {k}, done + {k}, bound)
  {
    forall j | j in nodes && j.FileKey?
      ensures SumData(nodes0, done + {k}, j.serial, bound) ==
              SumData(nodes0, done, j.serial, bound) + (if k.parent == j.serial then nodes0[k].len else 0)
    {
      SumDataAdds(nodes0, done, k, j.serial, bound);
    }
  }

  /** Step three so far: `todo` are the data nodes still to be looked at. */
  ghost predicate Summing(nodes0: map<Key, Node>, blocks0: Blocks, nodes: map<Key, Node>, blocks: Blocks,
                          todo: set<Key>, done: set<Key>, bound: nat) {
    && todo !! done && todo + done == DataKeys(nodes0)
    && (forall k :: k in nodes0 && k.DataKey? ==> k.serial < bound)
    && Summed(nodes0, nodes, done, bound)
    && |blocks| == |blocks0| && Sized(blocks) && NodesDistinct(nodes, |blocks|)
    && (forall k :: k in nodes ==> nodes[k].block < |blocks| && blocks[nodes[k].block] == blocks0[nodes[k].block])
  }

  lemma {:induction false} SummingStarts(nodes: map<Key, Node>, blocks: Blocks, bound: nat)
    requires Sized(blocks) && NodesDistinct(nodes, |blocks|)
    requires forall k :: k in nodes && k.DataKey? ==> k.serial < bound
    ensures Summing(nodes, blocks, nodes, blocks, DataKeys(nodes), {}, bound)
  {
    SumStarts(nodes, bound);
  }

  lemma {:induction false} SummingAdds(nodes0: map<Key, Node>, blocks0: Blocks, nodes: map<Key, Node>, blocks: Blocks,
                                       todo: set<Key>, done: set<Key>, bound: nat, k: Key)
    requires Summing(nodes0, blocks0, nodes, blocks, todo, done, bound) && k in todo
    ensures k.DataKey? && k in nodes && nodes[k].parent == k.parent
    ensures nodes[k].block < |blocks| && 2 <= |blocks[nodes[k].block]| < INVALID_PAGE
    ensures FileKey(k.parent) in nodes ==>
              var f := FileKey(k.parent);
              Summing(nodes0, blocks0, nodes[f := nodes[f].(len := nodes[f].len + nodes[k].len)], blocks,
                      todo - {k}, done + {k}, bound)
  {
    hide Summed;
    SumStep(nodes0, nodes, done, bound, k);
  }

  lemma {:induction false} SummingDrops(nodes0: map<Key, Node>, blocks0: Blocks, nodes: map<Key, Node>, blocks: Blocks,
                                        todo: set<Key>, done: set<Key>, bound: nat, k: Key, blocks': Blocks)
    requires Summing(nodes0, blocks0, nodes, blocks, todo, done, bound) && k in todo && k in nodes && k.DataKey?
    requires FileKey(k.parent) !in nodes && |blocks'| == |blocks| && nodes[k].block < |blocks|
    requires blocks' == blocks[nodes[k].block := blocks'[nodes[k].block]]
    requires |blocks'[nodes[k].block]| == |blocks[nodes[k].block]|
    ensures Summing(nodes0, blocks0, nodes - {k}, blocks', todo - {k}, done + {k}, bound)
  {
    hide Summed;
    SumStep(nodes0, nodes, done, bound, k);
  }
}

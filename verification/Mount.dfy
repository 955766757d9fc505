/** Mount: the tree is rebuilt from the page tags of all blocks. */
module MountSteps {
  import opened FlashModel
  import opened BlockLog
  import opened BlockInfoCache
  import opened MountModel

  datatype Tree = Tree(nodes: map<Key, Node>, erased: seq<nat>, bad: seq<nat>)

  /** The length the node of a block gets: none for a directory, else the length of the file data on it. */
  ghost predicate LenIs(b: Block, pageSize: nat, ty: nat, len: nat)
    requires |b| >= 2
  {
    var tags := TagsOf(b);
    if FullyLoaded(tags) && ty == FILE then len == pageSize * (|tags| - 2) + tags[|tags| - 1].dataLen
    else if FullyLoaded(tags) && ty == DATA then len == pageSize * (|tags| - 1) + tags[|tags| - 1].dataLen
    else ty == DIR || ScanResult(tags, len)
  }

  ghost predicate NodeIs(b: Block, pageSize: nat, block: nat, node: Node)
    requires |b| >= 2
  {
    node.block == block && node.parent == b[0].tag.parent && node.serial == b[0].tag.serial &&
    LenIs(b, pageSize, b[0].tag.ty, node.len)
  }

  ghost predicate Listed(tree: Tree, b: nat) {
    b in tree.erased || b in tree.bad
  }

  /** Each listed block is listed once and holds no key. */
  ghost predicate ListsOk(tree: Tree, n: nat) {
    && (forall x :: 0 <= x < |tree.erased| ==> tree.erased[x] < n && tree.erased[x] !in tree.bad)
    && (forall x :: 0 <= x < |tree.bad| ==> tree.bad[x] < n)
    && (forall x, y :: 0 <= x < y < |tree.erased| ==> tree.erased[x] != tree.erased[y])
    && (forall x, y :: 0 <= x < y < |tree.bad| ==> tree.bad[x] != tree.bad[y])
    && (forall k :: k in tree.nodes ==> !Listed(tree, tree.nodes[k].block))
  }

  ghost predicate NodesAre(blocks0: Blocks, marked0: set<nat>, n: nat, blocks: Blocks, tree: Tree, pageSize: nat)
    requires Sized(blocks0) && n <= |blocks0| == |blocks|
  {
    && (forall k :: k in tree.nodes <==> k != NoKey && Winner(blocks0, marked0, k, n) >= 0)
    && (forall k :: k in tree.nodes ==>
          var w := Winner(blocks0, marked0, k, n);
          tree.nodes[k].block == w && blocks[w] == blocks0[w] && NodeIs(blocks0[w], pageSize, w, tree.nodes[k]))
  }

  /** A scanned block is listed, or holds its key, or has no type the tree knows. */
  ghost predicate AllPlaced(blocks0: Blocks, marked0: set<nat>, n: nat, tree: Tree)
    requires Sized(blocks0) && n <= |blocks0|
  {
    forall b :: 0 <= b < n ==>
      Listed(tree, b) || Claims(blocks0, marked0, b, NoKey) ||
      (exists k :: Claims(blocks0, marked0, b, k) && k in tree.nodes && tree.nodes[k].block == b)
  }

  /** A block in use whose type the tree does not know is in no list. */
  ghost predicate LostOk(blocks0: Blocks, marked0: set<nat>, n: nat, tree: Tree)
    requires Sized(blocks0) && n <= |blocks0|
  {
    forall b :: 0 <= b < n && Claims(blocks0, marked0, b, NoKey) ==> !Listed(tree, b)
  }

  /** The first n blocks have been scanned. */
  ghost predicate Scanned(blocks0: Blocks, marked0: set<nat>, n: nat, blocks: Blocks, marked: set<nat>, tree: Tree,
                          pageSize: nat) {
    && n <= |blocks0| == |blocks| && Sized(blocks0) && Sized(blocks)
    && (forall b :: n <= b < |blocks| ==> blocks[b] == blocks0[b] && (b in marked <==> b in marked0))
    && ListsOk(tree, n) && NodesAre(blocks0, marked0, n, blocks, tree, pageSize)
    && AllPlaced(blocks0, marked0, n, tree) && LostOk(blocks0, marked0, n, tree)
  }

  lemma {:induction false} NothingScanned(blocks: Blocks, marked: set<nat>, pageSize: nat)
    requires Sized(blocks)
    ensures Scanned(blocks, marked, 0, blocks, marked, Tree(map[], [], []), pageSize)
  {
  }

  /** Block b has been put on the erased list or on the bad list. */
  ghost predicate PutAside(blocks: Blocks, marked: set<nat>, tree: Tree, blocks': Blocks, marked': set<nat>,
                           tree': Tree, b: nat) {
    && b < |blocks| == |blocks'| && |blocks'[b]| == |blocks[b]| && blocks' == blocks[b := blocks'[b]]
    && ((tree' == tree.(erased := tree.erased + [b]) && marked' == marked) ||
        (tree' == tree.(bad := [b] + tree.bad) && marked' == marked + {b}))
  }

  /** An erase, and the list the block joins: the bad one if the erase has reported a bad block. */
  ghost predicate EraseListed(blocks: Blocks, marked: set<nat>, tree: Tree, blocks': Blocks, marked': set<nat>,
                              tree': Tree, b: nat, failing: set<nat>, pageSize: nat) {
    && b < |blocks| == |blocks'| && |blocks'[b]| == |blocks[b]| && blocks' == blocks[b := blocks'[b]]
    && if b in failing then tree' == tree.(bad := [b] + tree.bad) && marked' == marked + {b}
       else tree' == tree.(erased := tree.erased + [b]) && marked' == marked &&
            blocks'[b] == ErasedBlock(|blocks[b]|, pageSize)
  }

  lemma {:induction false} EraseIsAside(blocks: Blocks, marked: set<nat>, tree: Tree, blocks': Blocks,
                                        marked': set<nat>, tree': Tree, b: nat, failing: set<nat>, pageSize: nat)
    requires EraseListed(blocks, marked, tree, blocks', marked', tree', b, failing, pageSize)
    ensures PutAside(blocks, marked, tree, blocks', marked', tree', b)
  {
  }

  // ----- what is on the lists

  /** A block on the erased list: found with a blank page 0 whose status byte is blank too, and left alone; or erased.
      It is to be checked before its use exactly if page 0 was found blank. */
  ghost predicate Reusable(blocks0: Blocks, blocks: Blocks, b: nat, unchecked: set<nat>, failing: set<nat>,
                           pageSize: nat)
    requires b < |blocks0| == |blocks| && Sized(blocks0)
  {
    (b in unchecked <==> TagIsErased(blocks0[b][0].tag)) &&
    if TagIsErased(blocks0[b][0].tag) && !blocks0[b][0].programmed then blocks[b] == blocks0[b]
    else b !in failing && blocks[b] == ErasedBlock(|blocks0[b]|, pageSize)
  }

  /** What a mount has listed: erased blocks are reusable; bad ones are marked, those marked before left as they were,
      the others found bad by an erase; blocks in no list are as they were. */
  ghost predicate ListsClean(blocks0: Blocks, marked0: set<nat>, blocks: Blocks, marked: set<nat>, tree: Tree,
                             unchecked: set<nat>, failing: set<nat>, pageSize: nat) {
    && Sized(blocks0) && |blocks| == |blocks0|
    && (forall b :: b in tree.erased ==>
          b < |blocks0| && b !in marked && Reusable(blocks0, blocks, b, unchecked, failing, pageSize))
    && (forall b :: b in tree.bad ==> b < |blocks0| && b in marked && (b in marked0 || b in failing))
    && (forall b :: b in marked <==> b in marked0 || b in tree.bad)
    && (forall b :: b in unchecked ==> b in tree.erased)
    && (forall b :: 0 <= b < |blocks0| && (b in marked0 || !Listed(tree, b)) ==> blocks[b] == blocks0[b])
  }

  /** A block that was not marked and not blank. */
  ghost predicate InUse(blocks0: Blocks, marked0: set<nat>, b: nat)
    requires Sized(blocks0)
  {
    b < |blocks0| && b !in marked0 && !TagIsErased(blocks0[b][0].tag)
  }

  lemma {:induction false} NothingListed(blocks: Blocks, marked: set<nat>, failing: set<nat>, pageSize: nat)
    requires Sized(blocks)
    ensures ListsClean(blocks, marked, blocks, marked, Tree(map[], [], []), {}, failing, pageSize)
  {
  }

  /** A block in use is erased and listed. */
  lemma {:induction false} EraseKeepsClean(blocks0: Blocks, marked0: set<nat>, blocks: Blocks, marked: set<nat>,
                                           tree: Tree, unchecked: set<nat>, failing: set<nat>, pageSize: nat, b: nat,
                                           blocks': Blocks, marked': set<nat>, tree': Tree)
    requires ListsClean(blocks0, marked0, blocks, marked, tree, unchecked, failing, pageSize)
    requires InUse(blocks0, marked0, b) && !Listed(tree, b)
    requires EraseListed(blocks, marked, tree, blocks', marked', tree', b, failing, pageSize)
    ensures ListsClean(blocks0, marked0, blocks', marked', tree', unchecked, failing, pageSize)
    ensures forall x :: Listed(tree', x) <==> Listed(tree, x) || x == b
  {
  }

  /** A blank block is listed, erased before if its page 0 was programmed. */
  lemma {:induction false} BlankKeepsClean(blocks0: Blocks, marked0: set<nat>, blocks: Blocks, marked: set<nat>,
                                           tree: Tree, unchecked: set<nat>, failing: set<nat>, pageSize: nat, b: nat,
                                           blocks': Blocks, marked': set<nat>, tree': Tree)
    requires ListsClean(blocks0, marked0, blocks, marked, tree, unchecked, failing, pageSize)
    requires b < |blocks0| && b !in marked0 && TagIsErased(blocks0[b][0].tag) && !Listed(tree, b)
    requires if blocks0[b][0].programmed then
               EraseListed(blocks, marked, tree, blocks', marked', tree', b, failing, pageSize)
             else blocks' == blocks && marked' == marked && tree' == tree.(erased := tree.erased + [b])
    ensures ListsClean(blocks0, marked0, blocks', marked', tree',
                       if b in tree'.erased then unchecked + {b} else unchecked, failing, pageSize)
  {
  }

  /** A block marked bad is listed. */
  lemma {:induction false} MarkedKeepsClean(blocks0: Blocks, marked0: set<nat>, blocks: Blocks, marked: set<nat>,
                                            tree: Tree, unchecked: set<nat>, failing: set<nat>, pageSize: nat, b: nat)
    requires ListsClean(blocks0, marked0, blocks, marked, tree, unchecked, failing, pageSize)
    requires b < |blocks0| && b in marked0 && !Listed(tree, b)
    ensures ListsClean(blocks0, marked0, blocks, marked, tree.(bad := [b] + tree.bad), unchecked, failing, pageSize)
  {
  }

  /** Neither the nodes nor the place where the erased list starts matter. */
  lemma {:induction false} SameListsClean(blocks0: Blocks, marked0: set<nat>, blocks: Blocks, marked: set<nat>,
                                          tree: Tree, unchecked: set<nat>, failing: set<nat>, pageSize: nat,
                                          tree': Tree)
    requires ListsClean(blocks0, marked0, blocks, marked, tree, unchecked, failing, pageSize)
    requires tree'.bad == tree.bad && forall b :: b in tree'.erased <==> b in tree.erased
    ensures ListsClean(blocks0, marked0, blocks, marked, tree', unchecked, failing, pageSize)
  {
  }

  /** A block to be scanned is in no list yet; neither is the block of a node, which is in use. */
  lemma {:induction false} NotYetListed(blocks0: Blocks, marked0: set<nat>, n: nat, blocks: Blocks, marked: set<nat>,
                                        tree: Tree, pageSize: nat)
    requires Scanned(blocks0, marked0, n, blocks, marked, tree, pageSize)
    ensures !Listed(tree, n) && n <= |blocks0|
    ensures forall k :: k in tree.nodes ==>
              !Listed(tree, tree.nodes[k].block) && InUse(blocks0, marked0, tree.nodes[k].block) &&
              tree.nodes[k].block < n
    ensures n < |blocks0| ==> (InUse(blocks0, marked0, n) <==> n !in marked0 && !TagIsErased(blocks0[n][0].tag))
  {
    hide NodeIs, AllPlaced, LostOk, NeedsCleanup, CountCleanups;
  }

  // ----- orphans

  /** Every block is listed once at most, and not if it is a node's; what is listed is clean; a node's block is in
      use. */
  ghost predicate ListsRight(blocks0: Blocks, marked0: set<nat>, blocks: Blocks, marked: set<nat>, tree: Tree,
                             unchecked: set<nat>, failing: set<nat>, pageSize: nat) {
    && ListsOk(tree, |blocks|) && ListsClean(blocks0, marked0, blocks, marked, tree, unchecked, failing, pageSize)
    && (forall k :: k in tree.nodes ==> InUse(blocks0, marked0, tree.nodes[k].block))
    && (forall k, j :: k in tree.nodes && j in tree.nodes && k != j ==> tree.nodes[k].block != tree.nodes[j].block)
  }

  /** A node keeps its block, or is gone and the block is listed; no other block joins the lists, and none leaves. */
  ghost predicate OrphansListed(tree0: Tree, tree: Tree) {
    && (forall k :: k in tree.nodes ==> k in tree0.nodes && tree.nodes[k].block == tree0.nodes[k].block)
    && (forall k :: k in tree0.nodes && k !in tree.nodes ==> Listed(tree, tree0.nodes[k].block))
    && (forall x :: Listed(tree0, x) ==> Listed(tree, x))
    && (forall x :: Listed(tree, x) ==> Listed(tree0, x) || IsOrphan(tree0, tree, x))
  }

  ghost predicate IsOrphan(tree0: Tree, tree: Tree, b: nat) {
    exists k :: k in tree0.nodes && k !in tree.nodes && tree0.nodes[k].block == b
  }

  lemma {:induction false} OrphansStart(tree: Tree)
    ensures OrphansListed(tree, tree)
  {
  }

  lemma {:induction false} OrphanKeepsRight(blocks0: Blocks, marked0: set<nat>, blocks: Blocks, marked: set<nat>,
                                            tree: Tree, unchecked: set<nat>, failing: set<nat>, pageSize: nat, k: Key,
                                            blocks': Blocks, marked': set<nat>, tree': Tree)
    requires ListsRight(blocks0, marked0, blocks, marked, tree, unchecked, failing, pageSize) && k in tree.nodes
    requires EraseListed(blocks, marked, tree.(nodes := tree.nodes - {k}), blocks', marked', tree', tree.nodes[k].block,
                         failing, pageSize)
    ensures ListsRight(blocks0, marked0, blocks', marked', tree', unchecked, failing, pageSize)
  {
    var tree1, b := tree.(nodes := tree.nodes - {k}), tree.nodes[k].block;
    EraseIsAside(blocks, marked, tree1, blocks', marked', tree', b, failing, pageSize);
    PutAsideKeepsLists(blocks, marked, tree1, blocks', marked', tree', b, |blocks|);
    SameListsClean(blocks0, marked0, blocks, marked, tree, unchecked, failing, pageSize, tree1);
    EraseKeepsClean(blocks0, marked0, blocks, marked, tree1, unchecked, failing, pageSize, b, blocks', marked', tree');
    hide ListsClean, ListsOk;
  }

  lemma {:induction false} OrphanIsListed(tree0: Tree, blocks: Blocks, marked: set<nat>, tree: Tree, failing: set<nat>,
                                          pageSize: nat, k: Key, blocks': Blocks, marked': set<nat>, tree': Tree)
    requires OrphansListed(tree0, tree) && k in tree.nodes
    requires EraseListed(blocks, marked, tree.(nodes := tree.nodes - {k}), blocks', marked', tree', tree.nodes[k].block,
                         failing, pageSize)
    ensures OrphansListed(tree0, tree')
  {
    assert tree'.nodes == tree.nodes - {k};
    forall x | Listed(tree', x) ensures Listed(tree0, x) || IsOrphan(tree0, tree', x) {
      if x != tree.nodes[k].block && !Listed(tree0, x) {
        assert Listed(tree, x);
        var j :| j in tree0.nodes && j !in tree.nodes && tree0.nodes[j].block == x;
        assert j !in tree'.nodes;
      }
    }
  }

  lemma {:induction false} LongerKeepsRight(blocks0: Blocks, marked0: set<nat>, blocks: Blocks, marked: set<nat>,
                                            tree: Tree, unchecked: set<nat>, failing: set<nat>, pageSize: nat, k: Key,
                                            node: Node)
    requires ListsRight(blocks0, marked0, blocks, marked, tree, unchecked, failing, pageSize)
    requires k in tree.nodes && node.block == tree.nodes[k].block
    ensures ListsRight(blocks0, marked0, blocks, marked, tree.(nodes := tree.nodes[k := node]), unchecked, failing,
                       pageSize)
  {
    SameListsClean(blocks0, marked0, blocks, marked, tree, unchecked, failing, pageSize,
                   tree.(nodes := tree.nodes[k := node]));
    hide ListsClean;
  }

  lemma {:induction false} LongerKeepsListed(tree0: Tree, tree: Tree, k: Key, node: Node)
    requires OrphansListed(tree0, tree) && k in tree.nodes && node.block == tree.nodes[k].block
    ensures OrphansListed(tree0, tree.(nodes := tree.nodes[k := node]))
  {
    var tree' := tree.(nodes := tree.nodes[k := node]);
    forall x | Listed(tree', x) ensures Listed(tree0, x) || IsOrphan(tree0, tree', x) {
      if !Listed(tree0, x) {
        assert Listed(tree, x);
        var j :| j in tree0.nodes && j !in tree.nodes && tree0.nodes[j].block == x;
        assert j !in tree'.nodes;
      }
    }
  }

  lemma {:induction false} ScannedRight(blocks0: Blocks, marked0: set<nat>, blocks: Blocks, marked: set<nat>,
                                        tree: Tree, unchecked: set<nat>, failing: set<nat>, pageSize: nat)
    requires Scanned(blocks0, marked0, |blocks0|, blocks, marked, tree, pageSize)
    requires ListsClean(blocks0, marked0, blocks, marked, tree, unchecked, failing, pageSize)
    ensures ListsRight(blocks0, marked0, blocks, marked, tree, unchecked, failing, pageSize)
  {
    hide LenIs, Claims, ListsOk, AllPlaced, LostOk, ListsClean, InUse;
    NotYetListed(blocks0, marked0, |blocks0|, blocks, marked, tree, pageSize);
    forall k, j | k in tree.nodes && j in tree.nodes && tree.nodes[k].block == tree.nodes[j].block ensures k == j {
      OneKey(blocks0, marked0, tree.nodes[k].block, k, j);
    }
  }

  /** After a mount each block is in a list, or holds its key, or has no type the tree knows: just one of these. */
  ghost predicate OnePlace(blocks0: Blocks, marked0: set<nat>, tree: Tree)
    requires Sized(blocks0)
  {
    && ListsOk(tree, |blocks0|)
    && AllPlaced(blocks0, marked0, |blocks0|, tree) && LostOk(blocks0, marked0, |blocks0|, tree)
    && (forall k :: k in tree.nodes ==> k != NoKey && Claims(blocks0, marked0, tree.nodes[k].block, k))
  }

  /** What a whole mount makes of the blocks. */
  ghost predicate BlocksPlaced(blocks0: Blocks, marked0: set<nat>, blocks: Blocks, marked: set<nat>, tree: Tree,
                               unchecked: set<nat>, failing: set<nat>, pageSize: nat) {
    && Sized(blocks0) && OnePlace(blocks0, marked0, tree)
    && ListsClean(blocks0, marked0, blocks, marked, tree, unchecked, failing, pageSize)
  }

  lemma {:induction false} PlacedAfterOrphans(blocks0: Blocks, marked0: set<nat>, blocks1: Blocks, marked1: set<nat>,
                                              tree1: Tree, blocks: Blocks, marked: set<nat>, tree: Tree,
                                              unchecked: set<nat>, failing: set<nat>, pageSize: nat)
    requires Scanned(blocks0, marked0, |blocks0|, blocks1, marked1, tree1, pageSize) && OrphansListed(tree1, tree)
    requires ListsRight(blocks0, marked0, blocks, marked, tree, unchecked, failing, pageSize)
    ensures BlocksPlaced(blocks0, marked0, blocks, marked, tree, unchecked, failing, pageSize)
  {
    hide Claims, ListsOk, NodeIs, Listed, InUse, Reusable;
    assert forall k :: k in tree1.nodes ==> k != NoKey && Claims(blocks0, marked0, tree1.nodes[k].block, k);
    forall b | 0 <= b < |blocks0|
      ensures Listed(tree, b) || Claims(blocks0, marked0, b, NoKey) ||
              (exists k :: Claims(blocks0, marked0, b, k) && k in tree.nodes && tree.nodes[k].block == b)
    {
      if !Listed(tree1, b) && !Claims(blocks0, marked0, b, NoKey) {
        var k :| Claims(blocks0, marked0, b, k) && k in tree1.nodes && tree1.nodes[k].block == b;
        assert k in tree.nodes || Listed(tree, b);
      }
    }
    forall b | 0 <= b < |blocks0| && Claims(blocks0, marked0, b, NoKey) ensures !Listed(tree, b) {
      if Listed(tree, b) {
        var k :| k in tree1.nodes && k !in tree.nodes && tree1.nodes[k].block == b;
        OneKey(blocks0, marked0, b, k, NoKey);
      }
    }
  }

  lemma {:induction false} PutAsideKeepsLists(blocks: Blocks, marked: set<nat>, tree: Tree, blocks': Blocks,
                                              marked': set<nat>, tree': Tree, b: nat, n: nat)
    requires PutAside(blocks, marked, tree, blocks', marked', tree', b) && ListsOk(tree, n) && !Listed(tree, b)
    requires forall k :: k in tree.nodes ==> tree.nodes[k].block != b
    ensures ListsOk(tree', if b < n then n else b + 1)
    ensures forall x :: Listed(tree', x) <==> Listed(tree, x) || x == b
  {
  }

  /** The next block changes the holder of its own key only. */
  lemma {:induction false} WinnerStep(blocks0: Blocks, marked0: set<nat>, n: nat, k: Key)
    requires Sized(blocks0) && n < |blocks0|
    ensures Claims(blocks0, marked0, n, k) ==>
              forall j :: j != k ==> Winner(blocks0, marked0, j, n + 1) == Winner(blocks0, marked0, j, n)
    ensures Claims(blocks0, marked0, n, k) ==>
              Winner(blocks0, marked0, k, n + 1) ==
              (var w := Winner(blocks0, marked0, k, n);
               if w >= 0 && IsSrcNewerThanObj(blocks0[n][0].tag.ts, blocks0[w][0].tag.ts) then w
               else if HasHead(blocks0[n]) then n else -1)
    ensures (forall j :: !Claims(blocks0, marked0, n, j)) ==>
              forall j :: Winner(blocks0, marked0, j, n + 1) == Winner(blocks0, marked0, j, n)
  {
  }

  lemma {:induction false} OneKey(blocks: Blocks, marked: set<nat>, b: nat, k: Key, j: Key)
    requires Sized(blocks) && Claims(blocks, marked, b, k) && Claims(blocks, marked, b, j)
    ensures k == j
  {
  }

  /** The same winners, so the same nodes. */
  lemma {:induction false} NodesStay(blocks0: Blocks, marked0: set<nat>, n: nat, blocks: Blocks, blocks': Blocks,
                                     tree: Tree, tree': Tree, pageSize: nat)
    requires Sized(blocks0) && n < |blocks0| == |blocks| == |blocks'| &&
             NodesAre(blocks0, marked0, n, blocks, tree, pageSize)
    requires forall k :: Winner(blocks0, marked0, k, n + 1) == Winner(blocks0, marked0, k, n)
    requires tree'.nodes == tree.nodes && forall b :: 0 <= b < n ==> blocks'[b] == blocks[b]
    ensures NodesAre(blocks0, marked0, n + 1, blocks', tree', pageSize)
  {
    hide Winner, Claims, NodeIs;
  }

  /** Placed blocks stay placed when no list shrinks and each node stays or its block is listed. */
  lemma {:induction false} PlacedStay(blocks0: Blocks, marked0: set<nat>, n: nat, tree: Tree, tree': Tree)
    requires Sized(blocks0) && n < |blocks0| && AllPlaced(blocks0, marked0, n, tree)
    requires forall x :: Listed(tree, x) ==> Listed(tree', x)
    requires forall k :: k in tree.nodes && !Listed(tree', tree.nodes[k].block) ==>
               k in tree'.nodes && tree'.nodes[k] == tree.nodes[k]
    requires Listed(tree', n) || Claims(blocks0, marked0, n, NoKey) ||
             exists k :: Claims(blocks0, marked0, n, k) && k in tree'.nodes && tree'.nodes[k].block == n
    ensures AllPlaced(blocks0, marked0, n + 1, tree')
  {
    hide Claims, Listed;
    forall b | 0 <= b < n && !Listed(tree', b) && !Claims(blocks0, marked0, b, NoKey)
      ensures exists k :: Claims(blocks0, marked0, b, k) && k in tree'.nodes && tree'.nodes[k].block == b
    {
      var k :| Claims(blocks0, marked0, b, k) && k in tree.nodes && tree.nodes[k].block == b;
      assert k in tree'.nodes;
    }
  }

  /** Lost blocks stay lost when no such block joins a list. */
  lemma {:induction false} LostStay(blocks0: Blocks, marked0: set<nat>, n: nat, tree: Tree, tree': Tree)
    requires Sized(blocks0) && n < |blocks0| && LostOk(blocks0, marked0, n, tree) && ListsOk(tree, n)
    requires forall x :: 0 <= x <= n && Listed(tree', x) && Claims(blocks0, marked0, x, NoKey) ==> Listed(tree, x)
    ensures LostOk(blocks0, marked0, n + 1, tree')
  {
    hide Claims;
  }

  lemma {:induction false} NotLost(blocks: Blocks, marked: set<nat>, b: nat, k: Key)
    requires Sized(blocks) && Claims(blocks, marked, b, k) && k != NoKey
    ensures !Claims(blocks, marked, b, NoKey)
  {
  }

  /** The block holds no key: it goes to a list. */
  lemma {:induction false} ScannedAside(blocks0: Blocks, marked0: set<nat>, n: nat, blocks: Blocks, marked: set<nat>,
                                        tree: Tree, pageSize: nat, blocks': Blocks, marked': set<nat>, tree': Tree)
    requires Scanned(blocks0, marked0, n, blocks, marked, tree, pageSize) && n < |blocks0|
    requires PutAside(blocks, marked, tree, blocks', marked', tree', n)
    requires forall k :: Winner(blocks0, marked0, k, n + 1) == Winner(blocks0, marked0, k, n)
    requires !Claims(blocks0, marked0, n, NoKey)
    ensures Scanned(blocks0, marked0, n + 1, blocks', marked', tree', pageSize)
  {
    hide Winner, Claims, NodeIs, AllPlaced, LostOk;
    LostStaysAside(blocks0, marked0, n, blocks, marked, tree, blocks', marked', tree');
    PutAsideKeepsLists(blocks, marked, tree, blocks', marked', tree', n, n);
    NodesStay(blocks0, marked0, n, blocks, blocks', tree, tree', pageSize);
    PlacedStay(blocks0, marked0, n, tree, tree');
  }

  lemma {:induction false} LostStaysAside(blocks0: Blocks, marked0: set<nat>, n: nat, blocks: Blocks, marked: set<nat>,
                                          tree: Tree, blocks': Blocks, marked': set<nat>, tree': Tree)
    requires Sized(blocks0) && n < |blocks0| && LostOk(blocks0, marked0, n, tree) && ListsOk(tree, n)
    requires PutAside(blocks, marked, tree, blocks', marked', tree', n) && !Claims(blocks0, marked0, n, NoKey)
    ensures LostOk(blocks0, marked0, n + 1, tree')
  {
    hide Claims;
    LostStay(blocks0, marked0, n, tree, tree');
  }

  /** A block without a known type is in no list. */
  lemma {:induction false} ScannedLost(blocks0: Blocks, marked0: set<nat>, n: nat, blocks: Blocks, marked: set<nat>,
                                       tree: Tree, pageSize: nat)
    requires Scanned(blocks0, marked0, n, blocks, marked, tree, pageSize) && n < |blocks0| &&
             Claims(blocks0, marked0, n, NoKey)
    ensures Scanned(blocks0, marked0, n + 1, blocks, marked, tree, pageSize)
  {
    hide NodeIs, Winner, Claims, AllPlaced, LostOk;
    WinnerStep(blocks0, marked0, n, NoKey);
    PlacedStay(blocks0, marked0, n, tree, tree);
    LostStay(blocks0, marked0, n, tree, tree);
  }

  lemma {:induction false} NodesGain(blocks0: Blocks, marked0: set<nat>, n: nat, blocks: Blocks, blocks': Blocks,
                                     tree: Tree, tree': Tree, pageSize: nat, k: Key, node: Node, alt: int)
    requires Sized(blocks0) && n < |blocks0| == |blocks| == |blocks'| &&
             NodesAre(blocks0, marked0, n, blocks, tree, pageSize)
    requires Claims(blocks0, marked0, n, k) && k != NoKey && Winner(blocks0, marked0, k, n) == alt
    requires Winner(blocks0, marked0, k, n + 1) == n
    requires node.block == n && NodeIs(blocks0[n], pageSize, n, node) && blocks'[n] == blocks0[n]
    requires tree'.nodes == tree.nodes[k := node] && forall b :: 0 <= b < n && b != alt ==> blocks'[b] == blocks[b]
    ensures NodesAre(blocks0, marked0, n + 1, blocks', tree', pageSize)
  {
    hide Winner, Claims, NodeIs;
    WinnerStep(blocks0, marked0, n, k);
    forall j | j in tree.nodes && j != k ensures Winner(blocks0, marked0, j, n) != alt {
      if Winner(blocks0, marked0, j, n) == alt {
        OneKey(blocks0, marked0, alt, k, j);
        assert false;
      }
    }
  }

  /** The first block of its key. */
  lemma {:induction false} ScannedNew(blocks0: Blocks, marked0: set<nat>, n: nat, blocks: Blocks, marked: set<nat>,
                                      tree: Tree, pageSize: nat, k: Key, node: Node)
    requires Scanned(blocks0, marked0, n, blocks, marked, tree, pageSize) && n < |blocks0|
    requires Claims(blocks0, marked0, n, k) && k !in tree.nodes && k != NoKey && HasHead(blocks0[n])
    requires node.block == n && NodeIs(blocks0[n], pageSize, n, node)
    ensures Scanned(blocks0, marked0, n + 1, blocks, marked, tree.(nodes := tree.nodes[k := node]), pageSize)
  {
    hide NodeIs, Winner, Claims, AllPlaced, LostOk;
    var tree' := tree.(nodes := tree.nodes[k := node]);
    LostStay(blocks0, marked0, n, tree, tree');
    WinnerStep(blocks0, marked0, n, k);
    NodesGain(blocks0, marked0, n, blocks, blocks, tree, tree', pageSize, k, node, Winner(blocks0, marked0, k, n));
    assert k in tree'.nodes && tree'.nodes[k].block == n;
    PlacedStay(blocks0, marked0, n, tree, tree');
  }

  lemma {:induction false} NodesLose(blocks0: Blocks, marked0: set<nat>, n: nat, blocks: Blocks, blocks': Blocks,
                                     tree: Tree, tree': Tree, pageSize: nat, k: Key, alt: int)
    requires Sized(blocks0) && n < |blocks0| == |blocks| == |blocks'| &&
             NodesAre(blocks0, marked0, n, blocks, tree, pageSize)
    requires Claims(blocks0, marked0, n, k) && Winner(blocks0, marked0, k, n) == alt &&
             Winner(blocks0, marked0, k, n + 1) == -1
    requires tree'.nodes == tree.nodes - {k} && forall b :: 0 <= b < n && b != alt ==> blocks'[b] == blocks[b]
    ensures NodesAre(blocks0, marked0, n + 1, blocks', tree', pageSize)
  {
    hide Winner, Claims, NodeIs;
    WinnerStep(blocks0, marked0, n, k);
    forall j | j in tree.nodes && j != k ensures Winner(blocks0, marked0, j, n) != alt {
      if Winner(blocks0, marked0, j, n) == alt {
        OneKey(blocks0, marked0, alt, k, j);
        assert false;
      }
    }
  }

  lemma {:induction false} NodeBelow(blocks0: Blocks, marked0: set<nat>, n: nat, blocks: Blocks, tree: Tree,
                                     pageSize: nat)
    requires Sized(blocks0) && n <= |blocks0| == |blocks| && NodesAre(blocks0, marked0, n, blocks, tree, pageSize)
    ensures forall k :: k in tree.nodes ==> tree.nodes[k].block < n
  {
    hide Winner, Claims, NodeIs;
  }

  lemma {:induction false} NotListedYet(tree: Tree, n: nat)
    requires ListsOk(tree, n)
    ensures forall b :: n <= b ==> !Listed(tree, b)
  {
  }

  lemma {:induction false} ListsGain(tree: Tree, n: nat, k: Key, node: Node)
    requires ListsOk(tree, n) && node.block == n
    ensures ListsOk(tree.(nodes := tree.nodes[k := node]), n + 1)
  {
  }

  /** The older block takes the key; the newer one goes to a list. */
  lemma {:induction false} ScannedOlder(blocks0: Blocks, marked0: set<nat>, n: nat, blocks: Blocks, marked: set<nat>,
                                        tree: Tree, pageSize: nat, k: Key, node: Node, blocks': Blocks,
                                        marked': set<nat>, tree1: Tree)
    requires Scanned(blocks0, marked0, n, blocks, marked, tree, pageSize) && n < |blocks0|
    requires Claims(blocks0, marked0, n, k) && k in tree.nodes && HasHead(blocks0[n]) && tree.nodes[k].block < |blocks0|
    requires !IsSrcNewerThanObj(blocks0[n][0].tag.ts, blocks0[tree.nodes[k].block][0].tag.ts)
    requires PutAside(blocks, marked, tree.(nodes := tree.nodes - {k}), blocks', marked', tree1, tree.nodes[k].block)
    requires node.block == n && NodeIs(blocks0[n], pageSize, n, node)
    ensures Scanned(blocks0, marked0, n + 1, blocks', marked', tree1.(nodes := tree1.nodes[k := node]), pageSize)
  {
    hide NodeIs, Winner, Claims, AllPlaced, LostOk, IsSrcNewerThanObj, HasHead, PutAside, ListsOk;
    var alt := tree.nodes[k].block;
    var tree' := tree1.(nodes := tree1.nodes[k := node]);
    WinnerStep(blocks0, marked0, n, k);
    KeyTakenAway(blocks0, marked0, n, blocks, marked, tree, pageSize, k, blocks', marked', tree1);
    ListsGain(tree1, n, k, node);
    assert tree'.nodes == tree.nodes[k := node];
    NodesGain(blocks0, marked0, n, blocks, blocks', tree, tree', pageSize, k, node, alt);
    assert k in tree'.nodes && tree'.nodes[k].block == n;
    PlacedStay(blocks0, marked0, n, tree, tree');
    HolderNotLost(blocks0, marked0, n, blocks, tree, pageSize, k);
    LostStay(blocks0, marked0, n, tree, tree');
  }

  lemma {:induction false} HolderNotLost(blocks0: Blocks, marked0: set<nat>, n: nat, blocks: Blocks, tree: Tree,
                                         pageSize: nat, k: Key)
    requires Sized(blocks0) && n <= |blocks0| == |blocks| && NodesAre(blocks0, marked0, n, blocks, tree, pageSize) &&
             k in tree.nodes
    ensures !Claims(blocks0, marked0, tree.nodes[k].block, NoKey)
  {
    hide Winner, NodeIs;
    NotLost(blocks0, marked0, tree.nodes[k].block, k);
  }

  /** The block that held the key is put aside. */
  lemma {:induction false} KeyTakenAway(blocks0: Blocks, marked0: set<nat>, n: nat, blocks: Blocks, marked: set<nat>,
                                        tree: Tree, pageSize: nat, k: Key, blocks': Blocks, marked': set<nat>,
                                        tree1: Tree)
    requires Scanned(blocks0, marked0, n, blocks, marked, tree, pageSize) && k in tree.nodes &&
             tree.nodes[k].block < |blocks0|
    requires PutAside(blocks, marked, tree.(nodes := tree.nodes - {k}), blocks', marked', tree1, tree.nodes[k].block)
    ensures var alt := tree.nodes[k].block;
            alt < n && alt == Winner(blocks0, marked0, k, n) && ListsOk(tree1, n) && tree1.nodes == tree.nodes - {k} &&
            (forall x :: Listed(tree1, x) <==> Listed(tree, x) || x == alt) &&
            (forall j :: j in tree.nodes && j != k ==> tree.nodes[j].block != alt) &&
            |blocks'| == |blocks| && Sized(blocks') &&
            (forall b :: 0 <= b < |blocks| && b != alt ==> blocks'[b] == blocks[b]) &&
            (forall b :: b in marked' ==> b in marked || b == alt) && marked <= marked'
  {
    hide NodeIs, Winner, Claims, AllPlaced;
    var alt := tree.nodes[k].block;
    forall j | j in tree.nodes && j != k ensures tree.nodes[j].block != alt {
      if tree.nodes[j].block == alt {
        OneKey(blocks0, marked0, alt, k, j);
        assert false;
      }
    }
    PutAsideKeepsLists(blocks, marked, tree.(nodes := tree.nodes - {k}), blocks', marked', tree1, alt, n);
  }

  /** The older block took the key away, but has no head: both blocks go to a list. */
  lemma {:induction false} ScannedHeadless(blocks0: Blocks, marked0: set<nat>, n: nat, blocks: Blocks, marked: set<nat>,
                                           tree: Tree, pageSize: nat, k: Key, blocks1: Blocks, marked1: set<nat>,
                                           tree1: Tree, blocks': Blocks, marked': set<nat>, tree': Tree)
    requires Scanned(blocks0, marked0, n, blocks, marked, tree, pageSize) && n < |blocks0|
    requires Claims(blocks0, marked0, n, k) && k in tree.nodes && !HasHead(blocks0[n]) &&
             tree.nodes[k].block < |blocks0|
    requires !IsSrcNewerThanObj(blocks0[n][0].tag.ts, blocks0[tree.nodes[k].block][0].tag.ts)
    requires PutAside(blocks, marked, tree.(nodes := tree.nodes - {k}), blocks1, marked1, tree1, tree.nodes[k].block)
    requires PutAside(blocks1, marked1, tree1, blocks', marked', tree', n)
    ensures Scanned(blocks0, marked0, n + 1, blocks', marked', tree', pageSize)
  {
    hide NodeIs, Winner, Claims, AllPlaced, LostOk, IsSrcNewerThanObj, HasHead, ListsOk, NodesAre;
    WinnerStep(blocks0, marked0, n, k);
    HolderNotLost(blocks0, marked0, n, blocks, tree, pageSize, k);
    NoKeyHolds(blocks0, marked0, n, blocks, tree, pageSize);
    NotLost(blocks0, marked0, n, k);
    KeyTakenAway(blocks0, marked0, n, blocks, marked, tree, pageSize, k, blocks1, marked1, tree1);
    NodeBelow(blocks0, marked0, n, blocks, tree, pageSize);
    NotListedYet(tree, n);
    PutAsideKeepsLists(blocks1, marked1, tree1, blocks', marked', tree', n, n);
    NodesLose(blocks0, marked0, n, blocks, blocks', tree, tree', pageSize, k, tree.nodes[k].block);
    PlacedStay(blocks0, marked0, n, tree, tree');
    LostStay(blocks0, marked0, n, tree, tree');
  }

  /** After the scan a block is in no list and holds no key exactly if it is in use and of no type the tree knows. */
  lemma {:induction false} LostBlocks(blocks0: Blocks, marked0: set<nat>, blocks: Blocks, marked: set<nat>, tree: Tree,
                                      pageSize: nat, b: nat)
    requires Scanned(blocks0, marked0, |blocks0|, blocks, marked, tree, pageSize) && b < |blocks0|
    ensures !Listed(tree, b) && (forall k :: k in tree.nodes ==> tree.nodes[k].block != b) <==>
            b !in marked0 && VerdictAt(blocks0, marked0, b) == Claim(NoKey)
  {
    hide VerdictAt, Winner, NodeIs;
    if Claims(blocks0, marked0, b, NoKey) {
      forall k | k in tree.nodes ensures tree.nodes[k].block != b {
        HolderNotLost(blocks0, marked0, |blocks0|, blocks, tree, pageSize, k);
      }
    }
  }

  /** After the scan a key has a block exactly if the last block to take it has a head page. */
  lemma {:induction false} KeyHasBlock(blocks0: Blocks, marked0: set<nat>, blocks: Blocks, marked: set<nat>, tree: Tree,
                                       pageSize: nat, k: Key)
    requires Scanned(blocks0, marked0, |blocks0|, blocks, marked, tree, pageSize) && k != NoKey
    ensures k in tree.nodes <==> exists b :: TookLast(blocks0, marked0, k, |blocks0|, b)
    ensures k in tree.nodes ==> TookLast(blocks0, marked0, k, |blocks0|, tree.nodes[k].block)
  {
    hide Winner, TookLast, NodeIs;
    HeldIff(blocks0, marked0, k, |blocks0|);
  }

  // ----- facts the mount loop needs

  /** The next block is as it was found, and its verdict is what page 0 says. */
  lemma {:induction false} NextBlock(blocks0: Blocks, marked0: set<nat>, n: nat, blocks: Blocks, marked: set<nat>,
                                     tree: Tree, pageSize: nat)
    requires Scanned(blocks0, marked0, n, blocks, marked, tree, pageSize) && n < |blocks|
    ensures |blocks| == |blocks0| && blocks[n] == blocks0[n] && 2 <= |blocks[n]| < INVALID_PAGE && Sized(blocks0) &&
            Sized(blocks)
    ensures TagsOf(blocks[n])[0] == blocks0[n][0].tag && (n in marked <==> n in marked0)
    ensures NoKey !in tree.nodes
  {
    hide NodesAre, AllPlaced, ListsOk;
    assert NoKey !in tree.nodes by { NoKeyHolds(blocks0, marked0, n, blocks, tree, pageSize); }
  }

  lemma {:induction false} NoKeyHolds(blocks0: Blocks, marked0: set<nat>, n: nat, blocks: Blocks, tree: Tree,
                                      pageSize: nat)
    requires Sized(blocks0) && n <= |blocks0| == |blocks| && NodesAre(blocks0, marked0, n, blocks, tree, pageSize)
    ensures NoKey !in tree.nodes
  {
    hide Winner;
  }

  /** What page 0 of a block in use says. */
  lemma {:induction false} VerdictFacts(blocks: Blocks, marked: set<nat>, n: nat)
    requires Sized(blocks) && n < |blocks| && n !in marked
    requires VerdictAt(blocks, marked, n) != Blank && VerdictAt(blocks, marked, n) != CleanUp
    ensures var tag := blocks[n][0].tag;
            (VerdictAt(blocks, marked, n) == Impossible <==> !TagIsDirty(tag)) &&
            (TagIsDirty(tag) && !TagIsGood(tag) ==> forall k :: !Claims(blocks, marked, n, k)) &&
            (TagIsDirty(tag) && TagIsGood(tag) ==> Claims(blocks, marked, n, TagKey(tag)))
  {
    hide CountCleanups;
  }

  lemma {:induction false} NoClaim(blocks: Blocks, marked: set<nat>, n: nat)
    requires Sized(blocks) && n < |blocks|
    requires n in marked || VerdictAt(blocks, marked, n) == Blank || VerdictAt(blocks, marked, n) == CleanUp
    ensures forall k :: !Claims(blocks, marked, n, k)
  {
    hide CountCleanups;
  }

  /** The block that holds the key is as it was found. */
  lemma {:induction false} HolderFacts(blocks0: Blocks, marked0: set<nat>, n: nat, blocks: Blocks, marked: set<nat>,
                                       tree: Tree, pageSize: nat, k: Key)
    requires Scanned(blocks0, marked0, n, blocks, marked, tree, pageSize) && n < |blocks0| && k in tree.nodes
    requires Claims(blocks0, marked0, n, k)
    ensures var alt := tree.nodes[k].block;
            alt < n && blocks[alt] == blocks0[alt] && 2 <= |blocks[alt]| == |blocks0[alt]| < INVALID_PAGE &&
            TagsOf(blocks[alt])[0] == blocks0[alt][0].tag &&
            (IsSrcNewerThanObj(blocks0[n][0].tag.ts, blocks0[alt][0].tag.ts) ==>
              forall j :: Winner(blocks0, marked0, j, n + 1) == Winner(blocks0, marked0, j, n))
  {
    hide NodeIs, Claims, AllPlaced, ListsOk, Winner, IsSrcNewerThanObj;
    WinnerStep(blocks0, marked0, n, k);
  }

  lemma {:induction false} HeadFacts(b: Block, page: nat)
    requires |b| >= 2 && (b[0].tag.ty == DIR || b[0].tag.ty == FILE)
    requires page == INVALID_PAGE ==> forall j :: 0 <= j < |b| ==> !Holds(TagsOf(b)[j], 0)
    requires page != INVALID_PAGE ==> page < |b| && Holds(TagsOf(b)[page], 0)
    ensures page == INVALID_PAGE <==> !HasHead(b)
  {
  }

  lemma {:induction false} DataHasHead(b: Block)
    requires |b| >= 2 && b[0].tag.ty != DIR && b[0].tag.ty != FILE
    ensures HasHead(b)
  {
  }

  lemma {:induction false} HeadlessLoses(blocks0: Blocks, marked0: set<nat>, n: nat, blocks: Blocks, marked: set<nat>,
                                         tree: Tree, pageSize: nat, k: Key)
    requires Scanned(blocks0, marked0, n, blocks, marked, tree, pageSize) && n < |blocks0|
    requires Claims(blocks0, marked0, n, k) && k !in tree.nodes && k != NoKey && !HasHead(blocks0[n])
    ensures forall j :: Winner(blocks0, marked0, j, n + 1) == Winner(blocks0, marked0, j, n)
  {
    hide NodeIs, Claims, AllPlaced, ListsOk, Winner, HasHead;
    WinnerStep(blocks0, marked0, n, k);
  }

  lemma {:induction false} KnownType(t: Tag)
    ensures t.ty == DIR || t.ty == FILE ==> TagKey(t) != NoKey
  {
  }

  /** No block scanned so far makes the mount fail. */
  ghost predicate NonePossible(blocks: Blocks, marked: set<nat>, n: nat)
    requires Sized(blocks)
  {
    forall b :: 0 <= b < n && b < |blocks| && b !in marked ==> VerdictAt(blocks, marked, b) != Impossible
  }

  lemma {:induction false} NoneYet(blocks: Blocks, marked: set<nat>)
    requires Sized(blocks)
    ensures NonePossible(blocks, marked, 0) && CountCleanups(blocks, marked, 0) == 0 && AllBelow([], 0)
    ensures Noted(blocks, marked, [], 0)
  {
  }

  lemma {:induction false} OneMore(blocks: Blocks, marked: set<nat>, n: nat)
    requires Sized(blocks) && n < |blocks| && NonePossible(blocks, marked, n)
    ensures NonePossible(blocks, marked, n + 1) <==> n in marked || VerdictAt(blocks, marked, n) != Impossible
    ensures NonePossible(blocks, marked, |blocks|) ==> NonePossible(blocks, marked, n + 1)
  {
    hide VerdictAt;
  }

  ghost predicate AllBelow(pending: seq<nat>, n: nat) {
    forall x :: 0 <= x < |pending| ==> pending[x] < n
  }

  lemma {:induction false} PendingFacts(pending: seq<nat>, n: nat)
    ensures AllBelow(pending, n) ==> n !in pending && AllBelow(pending, n + 1) && AllBelow(pending + [n], n + 1)
    ensures n in pending + [n]
  {
  }

  /** The blocks noted for clean-up. */
  ghost predicate Noted(blocks: Blocks, marked: set<nat>, pending: seq<nat>, n: nat)
    requires Sized(blocks) && n <= |blocks|
  {
    forall i :: 0 <= i < |pending| ==>
      pending[i] < n && pending[i] !in marked && VerdictAt(blocks, marked, pending[i]) == CleanUp
  }

  lemma {:induction false} NotedStep(blocks: Blocks, marked: set<nat>, pending: seq<nat>, n: nat)
    requires Sized(blocks) && n < |blocks| && Noted(blocks, marked, pending, n)
    ensures var noted := n !in marked && VerdictAt(blocks, marked, n) == CleanUp;
            Noted(blocks, marked, if noted then pending + [n] else pending, n + 1)
  {
    hide VerdictAt;
  }

  /** A block noted for clean-up was erased at once, and holds no key. */
  lemma {:induction false} NotedNotHeld(blocks0: Blocks, marked0: set<nat>, n: nat, blocks: Blocks, marked: set<nat>,
                                        tree: Tree, pageSize: nat, pending: seq<nat>)
    requires Scanned(blocks0, marked0, n, blocks, marked, tree, pageSize) && Noted(blocks0, marked0, pending, n)
    ensures Unheld(tree, pending)
  {
    hide VerdictAt, NodeIs, ListsOk, AllPlaced, LostOk;
  }

  ghost predicate Unheld(tree: Tree, pending: seq<nat>) {
    forall i, k :: 0 <= i < |pending| && k in tree.nodes ==> tree.nodes[k].block != pending[i]
  }

  lemma {:induction false} UnheldRest(tree: Tree, pending: seq<nat>)
    requires Unheld(tree, pending) && pending != []
    ensures Unheld(tree, pending[..|pending| - 1])
    ensures forall k :: k in tree.nodes ==> tree.nodes[k].block != pending[|pending| - 1]
  {
  }

  /** Where the erased list starts does not matter. */
  lemma {:induction false} TurnedScanned(blocks0: Blocks, marked0: set<nat>, n: nat, blocks: Blocks, marked: set<nat>,
                                         tree: Tree, pageSize: nat)
    requires Scanned(blocks0, marked0, n, blocks, marked, tree, pageSize) && tree.erased != []
    ensures Scanned(blocks0, marked0, n, blocks, marked, tree.(erased := tree.erased[1..] + [tree.erased[0]]), pageSize)
  {
    hide Claims, Winner, NodeIs;
    var tree' := tree.(erased := tree.erased[1..] + [tree.erased[0]]);
    assert forall x :: x in tree'.erased <==> x in tree.erased[1..] || x == tree.erased[0];
    assert forall x :: x in tree.erased <==> x in tree.erased[1..] || x == tree.erased[0];
    assert forall x :: Listed(tree', x) <==> Listed(tree, x);
  }

  lemma {:induction false} CleanupStep(blocks: Blocks, marked: set<nat>, n: nat)
    requires Sized(blocks) && n < |blocks|
    ensures var c := CountCleanups(blocks, marked, n);
            CountCleanups(blocks, marked, n + 1) ==
            (if n !in marked && VerdictAt(blocks, marked, n) == CleanUp then c + 1 else c) &&
            (TagIsErased(blocks[n][0].tag) ==> VerdictAt(blocks, marked, n) == Blank) &&
            (!TagIsErased(blocks[n][0].tag) ==>
              VerdictAt(blocks, marked, n) != Blank &&
              (VerdictAt(blocks, marked, n) == CleanUp <==>
               NeedsCleanup(blocks[n], |blocks[n]| - 1) && c < MAX_PENDING))
  {
    hide NeedsCleanup;
  }

  lemma {:induction false} BadAside(blocks: Blocks, marked: set<nat>, tree: Tree, b: nat)
    requires b < |blocks| && b in marked
    ensures PutAside(blocks, marked, tree, blocks, marked, tree.(bad := [b] + tree.bad), b)
  {
    assert marked == marked + {b};
  }

  lemma {:induction false} AsideFacts(blocks: Blocks, marked: set<nat>, tree: Tree, blocks': Blocks, marked': set<nat>,
                                      tree': Tree, b: nat)
    requires PutAside(blocks, marked, tree, blocks', marked', tree', b)
    ensures b < |blocks| == |blocks'| && |blocks'[b]| == |blocks[b]| && blocks' == blocks[b := blocks'[b]] &&
            tree'.nodes == tree.nodes
    ensures forall x :: Listed(tree, x) ==> Listed(tree', x)
  {
  }

  lemma {:induction false} SameLists(tree: Tree, nodes: map<Key, Node>)
    ensures forall x :: Listed(tree.(nodes := nodes), x) <==> Listed(tree, x)
  {
  }

  lemma {:induction false} ErasedAside(blocks: Blocks, marked: set<nat>, tree: Tree, b: nat)
    requires b < |blocks|
    ensures PutAside(blocks, marked, tree, blocks, marked, tree.(erased := tree.erased + [b]), b)
  {
  }

  lemma {:induction false} ScannedSize(blocks0: Blocks, marked0: set<nat>, n: nat, blocks: Blocks, marked: set<nat>,
                                       tree: Tree, pageSize: nat, ok: bool)
    requires ok ==> Scanned(blocks0, marked0, n, blocks, marked, tree, pageSize)
    ensures ok ==> |blocks| == |blocks0|
  {
  }
}

module Mounting {
  import opened FlashModel
  import opened BlockLog
  import opened BlockInfoCache
  import opened DeviceState
  import opened MountModel
  import opened MountSteps

  class Mount {
    const geo: Geo
    // Blocks whose erase reports a bad block.
    const failing: set<nat>
    var blocks: Blocks
    // Blocks marked bad on flash.
    var marked: set<nat>
    var tree: Tree
    // Erased blocks whose pages behind the first are to be checked before use.
    var unchecked: set<nat>
    // Blocks noted for clean-up.
    var pending: seq<nat>
    // The erased list as step one leaves it.
    ghost var listed: seq<nat>

    constructor (geo: Geo, blocks: Blocks, marked: set<nat>, failing: set<nat>)
      requires Sized(blocks)
      ensures this.geo == geo && this.blocks == blocks && this.marked == marked && this.failing == failing
      ensures tree == Tree(map[], [], []) && pending == [] && unchecked == {}
    {
      this.geo := geo;
      this.failing := failing;
      this.blocks := blocks;
      this.marked := marked;
      tree := Tree(map[], [], []);
      unchecked := {};
      pending, listed := [], [];
    }

    /** An erase may report a bad block, whose content is then unknown. */
    method EraseBlock(b: nat) returns (isBad: bool)
      requires b < |blocks| && |blocks[b]| >= 2
      modifies this`blocks
      ensures |blocks| == |old(blocks)| && |blocks[b]| == |old(blocks)[b]| && blocks == old(blocks)[b := blocks[b]]
      ensures isBad == (b in failing) && (!isBad ==> blocks[b] == ErasedBlock(|old(blocks)[b]|, geo.pageSize))
    {
      isBad := b in failing;
      var after := ErasedBlock(|blocks[b]|, geo.pageSize);
      if isBad {
        var garbage: Block := *;
        after := if |garbage| == |blocks[b]| then garbage else after;
      }
      blocks := blocks[b := after];
    }

    method ProcessBad(b: nat)
      modifies this`marked, this`tree
      ensures marked == old(marked) + {b} && tree == old(tree).(bad := [b] + old(tree).bad)
    {
      marked := marked + {b};
      tree := tree.(bad := [b] + tree.bad);
    }

    /** Erase a block and put it on the erased list, or on the bad list if it has turned bad. */
    method EraseAndList(b: nat)
      requires b < |blocks| && |blocks[b]| >= 2
      modifies this`blocks, this`marked, this`tree
      ensures EraseListed(old(blocks), old(marked), old(tree), blocks, marked, tree, b, failing, geo.pageSize)
      ensures PutAside(old(blocks), old(marked), old(tree), blocks, marked, tree, b)
    {
      var isBad := EraseBlock(b);
      if isBad {
        ProcessBad(b);
      } else {
        tree := tree.(erased := tree.erased + [b]);
      }
    }

    /** Look for a page whose write was cut off, from the last page down to page 1, and note the block. */
    method ScanAndFix(b: nat, bc: BlockInfo)
      requires b < |blocks| && bc.Valid() && bc.stored == TagsOf(blocks[b]) && b !in pending && |pending| <= MAX_PENDING
      modifies this`pending, bc`spares, bc`expiredCount
      ensures bc.Valid()
      ensures NeedsCleanup(blocks[b], |blocks[b]| - 1) && |old(pending)| < MAX_PENDING ==> pending == old(pending) + [b]
      ensures !(NeedsCleanup(blocks[b], |blocks[b]| - 1) && |old(pending)| < MAX_PENDING) ==> pending == old(pending)
    {
      var page: nat := |bc.spares| - 1;
      var needCleanup := false;
      while page > 0
        invariant !needCleanup && pending == old(pending)
        invariant bc.Valid() && page < |bc.stored|
        invariant NeedsCleanup(blocks[b], |blocks[b]| - 1) == NeedsCleanup(blocks[b], page)
      {
        var tag := bc.GetTag(page);
        if tag.sealed {
          break;
        }
        if TagIsDirty(tag) || tag.valid {
          needCleanup := true;
          break;
        }
        if blocks[b][page].programmed {
          needCleanup := true;
          break;
        }
        page := page - 1;
      }
      if needCleanup {
        AddPending(b);
      }
    }

    method AddPending(b: nat)
      requires b !in pending
      modifies this`pending
      ensures pending == if |old(pending)| < MAX_PENDING then old(pending) + [b] else old(pending)
    {
      if |pending| < MAX_PENDING {
        pending := pending + [b];
      }
    }

    /** The length of the file data on a block, for the node of the block. */
    method MakeNode(b: nat, bc: BlockInfo) returns (node: Node)
      requires b < |blocks| && |blocks[b]| >= 2 && bc.Valid() && bc.stored == TagsOf(blocks[b])
      modifies bc`spares, bc`expiredCount
      ensures node.block == b && NodeIs(blocks[b], geo.pageSize, b, node)
      ensures blocks[b][0].tag.ty == DIR ==> node.len == 0
    {
      var tag := bc.GetTag(0);
      var len := 0;
      if tag.ty != DIR {
        len := bc.GetBlockFileDataLength(geo.pageSize, tag.ty);
      }
      node := Node(b, tag.parent, tag.serial, len);
    }

    /** Drop the node of a key and erase its block: a block with the older stamp is there. */
    method TakeKey(ghost blocks0: Blocks, ghost marked0: set<nat>, k: Key)
      requires ListsClean(blocks0, marked0, blocks, marked, tree, unchecked, failing, geo.pageSize)
      requires k in tree.nodes && InUse(blocks0, marked0, tree.nodes[k].block) && !Listed(tree, tree.nodes[k].block)
      requires tree.nodes[k].block < |blocks| && |blocks[tree.nodes[k].block]| >= 2
      modifies this`blocks, this`marked, this`tree
      ensures k in old(tree).nodes
      ensures PutAside(old(blocks), old(marked), old(tree).(nodes := old(tree).nodes - {k}), blocks, marked, tree,
                       old(tree).nodes[k].block)
      ensures ListsClean(blocks0, marked0, blocks, marked, tree, unchecked, failing, geo.pageSize)
      ensures forall x :: Listed(tree, x) <==> Listed(old(tree), x) || x == old(tree).nodes[k].block
      ensures |blocks| == |old(blocks)| && tree.nodes == old(tree).nodes - {k}
      ensures forall x :: 0 <= x < |blocks| && x != old(tree).nodes[k].block ==> blocks[x] == old(blocks)[x]
    {
      hide *;
      var alt := tree.nodes[k].block;
      SameLists(tree, tree.nodes - {k});
      tree := tree.(nodes := tree.nodes - {k});
      ghost var tree1 := tree;
      SameListsClean(blocks0, marked0, blocks, marked, old(tree), unchecked, failing, geo.pageSize, tree1);
      EraseAndList(alt);
      EraseKeepsClean(blocks0, marked0, old(blocks), old(marked), tree1, unchecked, failing, geo.pageSize, alt,
                      blocks, marked, tree);
      AsideFacts(old(blocks), old(marked), tree1, blocks, marked, tree, alt);
    }

    /** Page 0 of the block is in use: enter the block in the tree, or erase it. */
    method BuildValidTreeNode(ghost blocks0: Blocks, ghost marked0: set<nat>, b: nat, bc: BlockInfo) returns (ok: bool)
      requires Scanned(blocks0, marked0, b, blocks, marked, tree, geo.pageSize) && b < |blocks| && b !in marked0
      requires bc.Valid() && bc.stored == TagsOf(blocks[b]) && !TagIsErased(bc.stored[0])
      requires VerdictAt(blocks0, marked0, b) != Blank && VerdictAt(blocks0, marked0, b) != CleanUp
      requires ListsClean(blocks0, marked0, blocks, marked, tree, unchecked, failing, geo.pageSize)
      modifies this`blocks, this`marked, this`tree, bc`spares, bc`expiredCount
      ensures ok ==> ListsClean(blocks0, marked0, blocks, marked, tree, unchecked, failing, geo.pageSize)
      ensures ok <==> VerdictAt(blocks0, marked0, b) != Impossible
      ensures ok ==> Scanned(blocks0, marked0, b + 1, blocks, marked, tree, geo.pageSize)
    {
      hide *;
      NextBlock(blocks0, marked0, b, blocks, marked, tree, geo.pageSize);
      NotYetListed(blocks0, marked0, b, blocks, marked, tree, geo.pageSize);
      VerdictFacts(blocks0, marked0, b);
      WinnerStep(blocks0, marked0, b, TagKey(blocks0[b][0].tag));
      KnownType(blocks0[b][0].tag);
      var tag := bc.GetTag(0);
      if !TagIsDirty(tag) {
        return false;
      }
      ok := true;
      if !TagIsGood(tag) {
        EraseAndList(b);
        EraseKeepsClean(blocks0, marked0, old(blocks), old(marked), old(tree), unchecked, failing, geo.pageSize, b,
                        blocks, marked, tree);
        assert !Claims(blocks0, marked0, b, NoKey);
        ScannedAside(blocks0, marked0, b, old(blocks), old(marked), old(tree), geo.pageSize, blocks, marked, tree);
        return;
      }
      var k := TagKey(tag);
      ghost var tree0 := tree;
      var gone := false;
      if k in tree.nodes {
        var alt := tree.nodes[k].block;
        HolderFacts(blocks0, marked0, b, blocks, marked, tree, geo.pageSize, k);
        NotLost(blocks0, marked0, b, k);
        var bcAlt := new BlockInfo(TagsOf(blocks[alt]));
        var tagAlt := bcAlt.GetTag(0);
        if IsSrcNewerThanObj(tag.ts, tagAlt.ts) {
          EraseAndList(b);
          EraseKeepsClean(blocks0, marked0, old(blocks), old(marked), old(tree), unchecked, failing, geo.pageSize, b,
                          blocks, marked, tree);
          ScannedAside(blocks0, marked0, b, old(blocks), old(marked), old(tree), geo.pageSize, blocks, marked, tree);
          return;
        }
        TakeKey(blocks0, marked0, k);
        gone := true;
      }
      if tag.ty == DIR || tag.ty == FILE {
        var page := bc.FindPageWithId(0);
        HeadFacts(blocks0[b], page);
        if page == INVALID_PAGE {
          ghost var blocks1, marked1, tree1 := blocks, marked, tree;
          EraseAndList(b);
          EraseKeepsClean(blocks0, marked0, blocks1, marked1, tree1, unchecked, failing, geo.pageSize, b,
                          blocks, marked, tree);
          if gone {
            ScannedHeadless(blocks0, marked0, b, old(blocks), old(marked), tree0, geo.pageSize, k,
                            blocks1, marked1, tree1, blocks, marked, tree);
          } else {
            HeadlessLoses(blocks0, marked0, b, old(blocks), old(marked), tree0, geo.pageSize, k);
            NotLost(blocks0, marked0, b, k);
            ScannedAside(blocks0, marked0, b, old(blocks), old(marked), tree0, geo.pageSize, blocks, marked, tree);
          }
          return;
        }
      }
      if k == NoKey {
        ScannedLost(blocks0, marked0, b, blocks, marked, tree, geo.pageSize);
        return;
      }
      if tag.ty != DIR && tag.ty != FILE {
        DataHasHead(blocks0[b]);
      }
      var node := MakeNode(b, bc);
      ghost var tree1 := tree;
      SameListsClean(blocks0, marked0, blocks, marked, tree, unchecked, failing, geo.pageSize,
                     tree.(nodes := tree.nodes[k := node]));
      tree := tree.(nodes := tree.nodes[k := node]);
      if gone {
        ScannedOlder(blocks0, marked0, b, old(blocks), old(marked), tree0, geo.pageSize, k, node, blocks, marked,
                     tree1);
      } else {
        ScannedNew(blocks0, marked0, b, blocks, marked, tree1, geo.pageSize, k, node);
      }
    }

    /** Scan all blocks: put aside the bad and the erased ones, erase what an interrupted write left behind,
        enter the others in the tree. */
    method StepOne() returns (ok: bool)
      requires Sized(blocks) && tree == Tree(map[], [], []) && pending == [] && unchecked == {}
      modifies this`blocks, this`marked, this`tree, this`unchecked, this`pending, this`listed
      ensures ok ==> Scanned(old(blocks), old(marked), |old(blocks)|, blocks, marked, tree, geo.pageSize)
      ensures ok ==> ListsClean(old(blocks), old(marked), blocks, marked, tree, unchecked, failing, geo.pageSize)
      ensures ok ==> listed == tree.erased
      ensures ok ==> Noted(old(blocks), old(marked), pending, |old(blocks)|)
      ensures ok <==> NonePossible(old(blocks), old(marked), |old(blocks)|)
    {
      hide *;
      ghost var blocks0, marked0 := blocks, marked;
      NothingScanned(blocks, marked, geo.pageSize);
      NothingListed(blocks, marked, failing, geo.pageSize);
      NoneYet(blocks, marked);
      var b := 0;
      while b < |blocks|
        invariant b <= |blocks| == |blocks0| && Sized(blocks0)
        invariant Scanned(blocks0, marked0, b, blocks, marked, tree, geo.pageSize)
        invariant ListsClean(blocks0, marked0, blocks, marked, tree, unchecked, failing, geo.pageSize)
        invariant NonePossible(blocks0, marked0, b)
        invariant |pending| == CountCleanups(blocks0, marked0, b) && AllBelow(pending, b)
        invariant Noted(blocks0, marked0, pending, b)
      {
        NotedStep(blocks0, marked0, pending, b);
        ok := ScanBlock(blocks0, marked0, b);
        OneMore(blocks0, marked0, b);
        if !ok {
          return;
        }
        b := b + 1;
      }
      listed := tree.erased;
      ok := true;
    }

    /** Scan one block. */
    method ScanBlock(ghost blocks0: Blocks, ghost marked0: set<nat>, b: nat) returns (ok: bool)
      requires b < |blocks| == |blocks0| && Scanned(blocks0, marked0, b, blocks, marked, tree, geo.pageSize) &&
               Sized(blocks0)
      requires |pending| == CountCleanups(blocks0, marked0, b) && AllBelow(pending, b)
      requires ListsClean(blocks0, marked0, blocks, marked, tree, unchecked, failing, geo.pageSize)
      modifies this`blocks, this`marked, this`tree, this`unchecked, this`pending
      ensures ok <==> b in marked0 || VerdictAt(blocks0, marked0, b) != Impossible
      ensures ok ==> Scanned(blocks0, marked0, b + 1, blocks, marked, tree, geo.pageSize) && |blocks| == |blocks0|
      ensures ok ==> ListsClean(blocks0, marked0, blocks, marked, tree, unchecked, failing, geo.pageSize)
      ensures ok ==> |pending| == CountCleanups(blocks0, marked0, b + 1) && AllBelow(pending, b + 1)
      ensures ok ==> pending == if b !in marked0 && VerdictAt(blocks0, marked0, b) == CleanUp then old(pending) + [b]
                                else old(pending)
    {
      hide *;
      NextBlock(blocks0, marked0, b, blocks, marked, tree, geo.pageSize);
      NotYetListed(blocks0, marked0, b, blocks, marked, tree, geo.pageSize);
      CleanupStep(blocks0, marked0, b);
      PendingFacts(pending, b);
      if b in marked {
        MarkedKeepsClean(blocks0, marked0, blocks, marked, tree, unchecked, failing, geo.pageSize, b);
        tree := tree.(bad := [b] + tree.bad);
        BadAside(blocks, marked, old(tree), b);
        NoClaim(blocks0, marked0, b);
        WinnerStep(blocks0, marked0, b, NoKey);
        ScannedAside(blocks0, marked0, b, old(blocks), old(marked), old(tree), geo.pageSize, blocks, marked, tree);
        return true;
      }
      var bc := new BlockInfo(TagsOf(blocks[b]));
      var erased := bc.IsPageErased(0);
      if erased {
        NoClaim(blocks0, marked0, b);
        WinnerStep(blocks0, marked0, b, NoKey);
        if blocks[b][0].programmed {
          EraseAndList(b);
        } else {
          tree := tree.(erased := tree.erased + [b]);
          ErasedAside(blocks, marked, old(tree), b);
        }
        BlankKeepsClean(blocks0, marked0, old(blocks), old(marked), old(tree), unchecked, failing, geo.pageSize, b,
                        blocks, marked, tree);
        if b in tree.erased {
          unchecked := unchecked + {b};
        }
        ScannedAside(blocks0, marked0, b, old(blocks), old(marked), old(tree), geo.pageSize, blocks, marked, tree);
        return true;
      }
      ScanAndFix(b, bc);
      PendingFacts(pending, b);
      if b in pending {
        NoClaim(blocks0, marked0, b);
        WinnerStep(blocks0, marked0, b, NoKey);
        EraseAndList(b);
        EraseKeepsClean(blocks0, marked0, old(blocks), old(marked), old(tree), unchecked, failing, geo.pageSize, b,
                        blocks, marked, tree);
        ScannedAside(blocks0, marked0, b, old(blocks), old(marked), old(tree), geo.pageSize, blocks, marked, tree);
        return true;
      }
      ok := BuildValidTreeNode(blocks0, marked0, b, bc);
      ScannedSize(blocks0, marked0, b + 1, blocks, marked, tree, geo.pageSize, ok);
    }

    /** The node of a block, if it has one. */
    method FindNodeByBlock(b: nat) returns (found: bool, k: Key)
      ensures found ==> k in tree.nodes && tree.nodes[k].block == b
      ensures !found ==> forall j :: j in tree.nodes ==> tree.nodes[j].block != b
    {
      var todo := tree.nodes.Keys;
      while todo != {}
        invariant todo <= tree.nodes.Keys
        invariant forall j :: j in tree.nodes && j !in todo ==> tree.nodes[j].block != b
        decreases |todo|
      {
        k :| k in todo;
        if tree.nodes[k].block == b {
          return true, k;
        }
        todo := todo - {k};
      }
      found, k := false, NoKey;
    }

    /** The pass over the blocks noted for clean-up, last noted first: none of them is in the tree, and so it leaves
        every block alone. */
    method RecoverPending()
      requires Unheld(tree, pending)
      modifies this`pending
      ensures pending == []
    {
      while pending != []
        invariant Unheld(tree, pending)
        decreases |pending|
      {
        UnheldRest(tree, pending);
        var b := pending[|pending| - 1];
        pending := pending[..|pending| - 1];
        var found, k := FindNodeByBlock(b);
        assert !found;
      }
    }

    /** Start the erased list at a place the clock picks, for wear levelling. */
    method StepTwo(now: nat, ghost blocks0: Blocks, ghost marked0: set<nat>)
      requires Scanned(blocks0, marked0, |blocks0|, blocks, marked, tree, geo.pageSize)
      requires ListsClean(blocks0, marked0, blocks, marked, tree, unchecked, failing, geo.pageSize)
      modifies this`tree
      ensures Scanned(blocks0, marked0, |blocks0|, blocks, marked, tree, geo.pageSize)
      ensures ListsClean(blocks0, marked0, blocks, marked, tree, unchecked, failing, geo.pageSize)
      ensures var k := now % (|old(tree).erased| + 1);
              tree == old(tree).(erased := old(tree).erased[k..] + old(tree).erased[..k])
    {
      hide *;
      var end := now % (|tree.erased| + 1);
      var start := 0;
      while start < end
        invariant start <= end <= |old(tree).erased|
        invariant tree == old(tree).(erased := old(tree).erased[start..] + old(tree).erased[..start])
        invariant Scanned(blocks0, marked0, |blocks0|, blocks, marked, tree, geo.pageSize)
        invariant ListsClean(blocks0, marked0, blocks, marked, tree, unchecked, failing, geo.pageSize)
      {
        TurnedScanned(blocks0, marked0, |blocks0|, blocks, marked, tree, geo.pageSize);
        SameListsClean(blocks0, marked0, blocks, marked, tree, unchecked, failing, geo.pageSize,
                       tree.(erased := tree.erased[1..] + [tree.erased[0]]));
        tree := tree.(erased := tree.erased[1..] + [tree.erased[0]]);
        start := start + 1;
      }
    }

    /** All of a mount before the lengths are added up. */
    method FindTree(now: nat) returns (ok: bool)
      requires Sized(blocks) && tree == Tree(map[], [], []) && pending == [] && unchecked == {}
      modifies this`blocks, this`marked, this`tree, this`unchecked, this`pending, this`listed
      ensures ok ==> Scanned(old(blocks), old(marked), |old(blocks)|, blocks, marked, tree, geo.pageSize)
      ensures ok ==> ListsClean(old(blocks), old(marked), blocks, marked, tree, unchecked, failing, geo.pageSize)
      ensures ok ==> pending == []
      ensures ok ==> var k := now % (|listed| + 1); tree.erased == listed[k..] + listed[..k]
      ensures ok <==> NonePossible(old(blocks), old(marked), |old(blocks)|)
    {
      hide *;
      ok := StepOne();
      if ok {
        NotedNotHeld(old(blocks), old(marked), |old(blocks)|, blocks, marked, tree, geo.pageSize, pending);
        RecoverPending();
        StepTwo(now, old(blocks), old(marked));
      }
    }

    /** Add the length of every data block to its file; erase the data blocks that have none. */
    method StepThree(ghost bound: nat, ghost blocks0: Blocks, ghost marked0: set<nat>)
      requires Sized(blocks) && NodesDistinct(tree.nodes, |blocks|)
      requires forall k :: k in tree.nodes && k.DataKey? ==> k.serial < bound
      requires ListsRight(blocks0, marked0, blocks, marked, tree, unchecked, failing, geo.pageSize)
      modifies this`blocks, this`marked, this`tree
      ensures Summing(old(tree).nodes, old(blocks), tree.nodes, blocks, {}, DataKeys(old(tree).nodes), bound)
      ensures ListsRight(blocks0, marked0, blocks, marked, tree, unchecked, failing, geo.pageSize)
      ensures OrphansListed(old(tree), tree)
    {
      hide *;
      OrphansStart(tree);
      ghost var nodes0, before, tree0 := tree.nodes, blocks, tree;
      ghost var done: set<Key> := {};
      var todo := DataKeys(tree.nodes);
      SummingStarts(tree.nodes, blocks, bound);
      while todo != {}
        invariant todo + done == DataKeys(nodes0)
        invariant Summing(nodes0, before, tree.nodes, blocks, todo, done, bound)
        invariant ListsRight(blocks0, marked0, blocks, marked, tree, unchecked, failing, geo.pageSize)
        invariant OrphansListed(tree0, tree)
        decreases |todo|
      {
        var k :| k in todo;
        SummingAdds(nodes0, before, tree.nodes, blocks, todo, done, bound, k);
        ghost var tree1, blocks1, marked1, todo1, done1 := tree, blocks, marked, todo, done;
        todo := todo - {k};
        done := done + {k};
        var work := tree.nodes[k];
        if FileKey(work.parent) !in tree.nodes {
          tree := tree.(nodes := tree.nodes - {k});
          EraseAndList(work.block);
          OrphanKeepsRight(blocks0, marked0, blocks1, marked1, tree1, unchecked, failing, geo.pageSize, k,
                           blocks, marked, tree);
          OrphanIsListed(tree0, blocks1, marked1, tree1, failing, geo.pageSize, k, blocks, marked, tree);
          SummingDrops(nodes0, before, tree1.nodes, blocks1, todo1, done1, bound, k, blocks);
        } else {
          var file := tree.nodes[FileKey(work.parent)];
          LongerKeepsRight(blocks0, marked0, blocks, marked, tree, unchecked, failing, geo.pageSize,
                           FileKey(work.parent), file.(len := file.len + work.len));
          LongerKeepsListed(tree0, tree, FileKey(work.parent), file.(len := file.len + work.len));
          tree := tree.(nodes := tree.nodes[FileKey(work.parent) := file.(len := file.len + work.len)]);
        }
      }
      assert done == DataKeys(nodes0);
    }
  }
}

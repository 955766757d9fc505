/** The list of erased blocks: taking one may find it not erased and erase it, and an erase that finds a bad block
    takes the next one instead. */
module ErasedList {
  import opened Chains

  datatype EraseResult = Erased | BadBlock | IoError

  /** A node of the pool, in a list through `next`. */
  datatype ListNode = ListNode(block: nat, needCheck: bool, next: nat)

  datatype Entry = Entry(block: nat, needCheck: bool)

  // ----- lists of nodes

  ghost predicate Linked(pool: seq<ListNode>, head: nat, chain: seq<nat>) {
    && head == (if |chain| == 0 then EMPTY_NODE else chain[0])
    && (forall i :: 0 <= i < |chain| ==> chain[i] < |pool|)
    && (forall i :: 0 <= i < |chain| ==> pool[chain[i]].next == NextIn(chain, i))
  }

  /** The entries of a list, in order. */
  function EntriesOf(pool: seq<ListNode>, chain: seq<nat>): (e: seq<Entry>)
    requires forall i :: 0 <= i < |chain| ==> chain[i] < |pool|
    ensures |e| == |chain|
    ensures forall i :: 0 <= i < |e| ==> e[i] == Entry(pool[chain[i]].block, pool[chain[i]].needCheck)
  {
    seq(|chain|, i requires 0 <= i < |chain| => Entry(pool[chain[i]].block, pool[chain[i]].needCheck))
  }

  function BlocksOf(e: seq<Entry>): (b: seq<nat>)
    ensures |b| == |e| && forall i :: 0 <= i < |e| ==> b[i] == e[i].block
  {
    seq(|e|, i requires 0 <= i < |e| => e[i].block)
  }

  // ----- what taking an erased block comes to

  /** Whether the entry's block can be used, as it is or once erased. */
  predicate Usable(e: Entry, checkOk: nat -> bool, erase: nat -> EraseResult) {
    !e.needCheck || checkOk(e.block) || erase(e.block) == Erased
  }

  /** Got(k): the block of entry k, the first k turned out bad. None(k): no block, and the first k are gone. */
  datatype Outcome = Got(k: nat) | None(k: nat)

  function Take(e: seq<Entry>, checkOk: nat -> bool, erase: nat -> EraseResult): (r: Outcome)
    ensures r.Got? ==> r.k < |e|
    ensures r.None? ==> r.k <= |e|
  {
    if e == [] then None(0)
    else if Usable(e[0], checkOk, erase) then Got(0)
    else if erase(e[0].block) == IoError then None(1)
    else
      match Take(e[1..], checkOk, erase)
      case Got(k) => Got(k + 1)
      case None(k) => None(k + 1)
  }

  /** The entries left in the list, and the bad blocks after it: those found on the way come first, in their order. */
  function Left(e: seq<Entry>, r: Outcome): seq<Entry>
    requires if r.Got? then r.k < |e| else r.k <= |e|
  {
    if r.Got? then e[r.k + 1..] else e[r.k..]
  }

  function Reported(e: seq<Entry>, r: Outcome, bad: seq<nat>): seq<nat>
    requires r.k <= |e|
  {
    if r.Got? then BlocksOf(e[..r.k]) + bad else bad
  }

  /** The outcome once the first entry was of no use. */
  lemma {:induction false} TakeRest(e: seq<Entry>, bad: seq<nat>, checkOk: nat -> bool, erase: nat -> EraseResult)
    requires e != []
    ensures var r := Take(e, checkOk, erase);
            if Usable(e[0], checkOk, erase) then r == Got(0) && Left(e, r) == e[1..] && Reported(e, r, bad) == bad
            else if erase(e[0].block) == IoError then r == None(1) && Left(e, r) == e[1..] && Reported(e, r, bad) == bad
            else
              var r1 := Take(e[1..], checkOk, erase);
              (r.Got? <==> r1.Got?) && r.k == r1.k + 1 && (r.Got? ==> e[1..][r1.k] == e[r.k]) &&
              Left(e, r) == Left(e[1..], r1) &&
              Reported(e, r, bad) == if r.Got? then [e[0].block] + Reported(e[1..], r1, bad) else bad
  {
    if !Usable(e[0], checkOk, erase) && erase(e[0].block) == BadBlock {
      var r1 := Take(e[1..], checkOk, erase);
      if r1.Got? {
        assert BlocksOf(e[..r1.k + 1]) == [e[0].block] + BlocksOf(e[1..][..r1.k]);
      }
    }
  }

  lemma {:induction false} TakeNothing(e: seq<Entry>, bad: seq<nat>, checkOk: nat -> bool, erase: nat -> EraseResult)
    requires e == []
    ensures Take(e, checkOk, erase) == None(0) && Left(e, None(0)) == e && Reported(e, None(0), bad) == bad
  {
  }

  lemma {:induction false} NoneReported(e: seq<Entry>, k: nat, bad: seq<nat>)
    requires k <= |e|
    ensures Reported(e, None(k), bad) == bad
  {
  }

  lemma {:induction false} UsableIs(e: Entry, checkOk: nat -> bool, erase: nat -> EraseResult)
    ensures Usable(e, checkOk, erase) <==> !e.needCheck || checkOk(e.block) || erase(e.block) == Erased
  {
  }

  /** A block is had exactly when one can be used and no erase before it fails other than by a bad block. */
  lemma {:induction false} TakeMeaning(e: seq<Entry>, checkOk: nat -> bool, erase: nat -> EraseResult)
    ensures Take(e, checkOk, erase).Got? <==>
            exists k :: 0 <= k < |e| && Usable(e[k], checkOk, erase) &&
              forall i :: 0 <= i < k ==> erase(e[i].block) == BadBlock
    ensures var r := Take(e, checkOk, erase);
            forall i :: 0 <= i < r.k && i < |e| && (r.Got? || i < r.k - 1) ==>
              !Usable(e[i], checkOk, erase) && erase(e[i].block) == BadBlock
    ensures Take(e, checkOk, erase).Got? ==> Usable(e[Take(e, checkOk, erase).k], checkOk, erase)
  {
    if e != [] && !Usable(e[0], checkOk, erase) && erase(e[0].block) == BadBlock {
      TakeMeaning(e[1..], checkOk, erase);
      if Take(e[1..], checkOk, erase).Got? {
        var k := Take(e[1..], checkOk, erase).k;
        assert e[1..][k] == e[k + 1];
        forall i | 0 <= i < k + 1 ensures erase(e[i].block) == BadBlock {
          if i > 0 { assert e[1..][i - 1] == e[i]; }
        }
      }
      forall k | 0 <= k < |e| && Usable(e[k], checkOk, erase) &&
      forall i :: 0 <= i < k ==> erase(e[i].block) == BadBlock
        ensures Take(e[1..], checkOk, erase).Got?
      {
        assert e[1..][k - 1] == e[k];
        forall i | 0 <= i < k - 1 ensures erase(e[1..][i].block) == BadBlock {
          assert e[1..][i] == e[i + 1];
        }
      }
      forall i | 1 <= i < |e| ensures e[i] == e[1..][i - 1] { }
    }
  }

  /** When a block is had, the erased and bad blocks before are those after, and it. */
  lemma {:induction false} TakeConserves(e: seq<Entry>, bad: seq<nat>, k: nat)
    requires k < |e|
    ensures multiset(BlocksOf(e)) + multiset(bad) ==
            multiset(BlocksOf(Left(e, Got(k)))) + multiset(Reported(e, Got(k), bad)) + multiset{e[k].block}
  {
    var all := BlocksOf(e);
    assert all == BlocksOf(e[..k]) + [e[k].block] + BlocksOf(e[k + 1..]);
  }

  /** When none is had, the entries tried are in no list any more; nothing is lost only if there was nothing. */
  lemma {:induction false} NoneLosesBlocks(e: seq<Entry>, checkOk: nat -> bool, erase: nat -> EraseResult)
    requires Take(e, checkOk, erase).None?
    ensures var k := Take(e, checkOk, erase).k;
            multiset(BlocksOf(e)) == multiset(BlocksOf(Left(e, None(k)))) + multiset(BlocksOf(e[..k])) &&
            (k == 0 <==> e == []) &&
            (k == |e| || erase(e[k - 1].block) == IoError)
  {
    var k := Take(e, checkOk, erase).k;
    assert BlocksOf(e) == BlocksOf(e[..k]) + BlocksOf(e[k..]);
    TakeMeaning(e, checkOk, erase);
    if e != [] && erase(e[0].block) != IoError {
      NoneLosesBlocks(e[1..], checkOk, erase);
    }
  }

  /** The erased block taken, if any. */
  function Taken(e: seq<Entry>, r: Outcome): multiset<nat>
    requires r.Got? ==> r.k < |e|
  {
    if r.Got? then multiset{e[r.k].block} else multiset{}
  }

  /** Blocks are conserved exactly if the list is empty, or has a block that can be used behind none but bad ones. */
  lemma {:induction false} BlocksKept(e: seq<Entry>, bad: seq<nat>, checkOk: nat -> bool, erase: nat -> EraseResult)
    ensures var r := Take(e, checkOk, erase);
            multiset(BlocksOf(e)) + multiset(bad) ==
            multiset(BlocksOf(Left(e, r))) + multiset(Reported(e, r, bad)) + Taken(e, r) <==>
            e == [] ||
            exists k :: 0 <= k < |e| && Usable(e[k], checkOk, erase) &&
              forall i :: 0 <= i < k ==> erase(e[i].block) == BadBlock
  {
    var r := Take(e, checkOk, erase);
    TakeMeaning(e, checkOk, erase);
    if r.Got? {
      TakeConserves(e, bad, r.k);
    } else {
      NoneLosesBlocks(e, checkOk, erase);
      NoneReported(e, r.k, bad);
      var all, kept, lost := multiset(BlocksOf(e)), multiset(BlocksOf(Left(e, r))), multiset(BlocksOf(e[..r.k]));
      assert |all + multiset(bad)| == |kept + multiset(bad)| + |lost| && |lost| == r.k;
    }
  }

  /** One block on the list, and its erase finds it bad: it ends in no list. */
  lemma {:induction false} OneBlockLost(b: nat)
    ensures var e, r := [Entry(b, true)], Take([Entry(b, true)], _ => false, _ => BadBlock);
            r == None(1) && BlocksOf(e) == [b] && Left(e, r) == [] && Reported(e, r, []) == []
  {
    var e := [Entry(b, true)];
    assert e[1..] == [];
  }

  /** It was not reported bad on the way. */
  lemma {:induction false} TakenNotReported(e: seq<Entry>, k: nat)
    requires k < |e| && NoDup(BlocksOf(e))
    ensures e[k].block !in BlocksOf(e[..k])
  {
    var all := BlocksOf(e);
    assert forall i :: 0 <= i < k ==> BlocksOf(e[..k])[i] == all[i];
  }

  // ----- list operations

  datatype Lists = Lists(pool: seq<ListNode>, erased: nat, erasedTail: nat, erasedCount: nat, bad: nat, badCount: nat)

  ghost predicate StateOk(l: Lists, chain: seq<nat>, badChain: seq<nat>) {
    && |l.pool| < EMPTY_NODE && Linked(l.pool, l.erased, chain) && Linked(l.pool, l.bad, badChain)
    && NoDup(chain + badChain)
    && l.erasedTail == (if chain == [] then EMPTY_NODE else chain[|chain| - 1])
    && l.erasedCount == |chain| && l.badCount == |badChain|
  }

  lemma {:induction false} InRange(l: Lists, chain: seq<nat>, badChain: seq<nat>)
    requires StateOk(l, chain, badChain)
    ensures forall i :: 0 <= i < |chain| ==> chain[i] < |l.pool|
    ensures forall i :: 0 <= i < |badChain| ==> badChain[i] < |l.pool|
    ensures l.erased == EMPTY_NODE <==> chain == []
    ensures chain != [] ==> l.erased == chain[0]
  {
  }

  /** A list is unaffected by changes to nodes outside it. */
  lemma {:induction false} LinkedFrame(pool: seq<ListNode>, pool': seq<ListNode>, head: nat, chain: seq<nat>, node: nat,
                                       n: ListNode)
    requires Linked(pool, head, chain) && node !in chain && node < |pool| && pool' == pool[node := n]
    ensures Linked(pool', head, chain) && EntriesOf(pool', chain) == EntriesOf(pool, chain)
  {
    assert forall i :: 0 <= i < |chain| ==> chain[i] != node;
  }

  lemma {:induction false} LinkedPush(pool: seq<ListNode>, head: nat, chain: seq<nat>, node: nat, needCheck: bool)
    requires Linked(pool, head, chain) && node !in chain && node < |pool| < EMPTY_NODE
    ensures var pool' := pool[node := ListNode(pool[node].block, needCheck, head)];
            Linked(pool', node, [node] + chain) &&
            EntriesOf(pool', [node] + chain) == [Entry(pool[node].block, needCheck)] + EntriesOf(pool, chain)
  {
    var pool' := pool[node := ListNode(pool[node].block, needCheck, head)];
    LinkedFrame(pool, pool', head, chain, node, pool'[node]);
    var longer := [node] + chain;
    forall i | 0 <= i < |longer|
      ensures longer[i] < |pool'| && pool'[longer[i]].next == NextIn(longer, i)
    {
      if i > 0 { assert longer[i] == chain[i - 1]; }
      if i + 1 < |longer| { assert longer[i + 1] == chain[i]; }
    }
  }

  lemma {:induction false} LinkedAppend(pool: seq<ListNode>, head: nat, chain: seq<nat>, node: nat, needCheck: bool)
    requires Linked(pool, head, chain) && node !in chain && node < |pool| < EMPTY_NODE && NoDup(chain)
    ensures chain != [] ==> chain[|chain| - 1] < |pool| && chain[|chain| - 1] != node
    ensures var pool1 := pool[node := ListNode(pool[node].block, needCheck, EMPTY_NODE)];
            var pool' := if chain == [] then pool1
                         else pool1[chain[|chain| - 1] := pool1[chain[|chain| - 1]].(next := node)];
            Linked(pool', if chain == [] then node else head, chain + [node]) &&
            EntriesOf(pool', chain + [node]) == EntriesOf(pool, chain) + [Entry(pool[node].block, needCheck)]
  {
    assert forall i :: 0 <= i < |chain| ==> chain[i] != node;
  }

  lemma {:induction false} LinkedPop(pool: seq<ListNode>, head: nat, chain: seq<nat>)
    requires Linked(pool, head, chain) && chain != []
    ensures Linked(pool, pool[chain[0]].next, chain[1..]) && EntriesOf(pool, chain[1..]) == EntriesOf(pool, chain)[1..]
  {
    assert pool[chain[0]].next == if 1 < |chain| then chain[1] else EMPTY_NODE;
    assert forall i :: 0 <= i < |chain[1..]| ==> chain[1..][i] == chain[i + 1];
  }

  lemma {:induction false} DistinctParts(a: seq<nat>, b: seq<nat>)
    requires NoDup(a + b)
    ensures NoDup(a) && NoDup(b) && forall x :: x in a ==> x !in b
    ensures a != [] ==> a[0] !in a[1..] && NoDup(a[1..] + b) && a[0] !in b
  {
    assert forall i :: 0 <= i < |a| ==> (a + b)[i] == a[i];
    assert forall i :: 0 <= i < |b| ==> (a + b)[|a| + i] == b[i];
    if a != [] {
      assert a[1..] + b == (a + b)[1..];
    }
  }

  lemma {:induction false} DistinctGrows(a: seq<nat>, b: seq<nat>, x: nat)
    requires NoDup(a + b) && x !in a && x !in b
    ensures NoDup((a + [x]) + b) && NoDup(a + ([x] + b))
  {
    assert (a + [x]) + b == a + ([x] + b);
    assert forall i :: 0 <= i < |a| ==> (a + b)[i] == a[i];
    assert forall i :: 0 <= i < |b| ==> (a + b)[|a| + i] == b[i];
    var s := a + ([x] + b);
    forall i, j | 0 <= i < j < |s| ensures s[i] != s[j] {
      if i < |a| && j > |a| {
        assert (a + b)[i] != (a + b)[j - 1];
      } else if i > |a| {
        assert (a + b)[i - 1] != (a + b)[j - 1];
      } else if j < |a| {
        assert (a + b)[i] != (a + b)[j];
      }
    }
  }

  /** State after a node joins the tail of the erased list. */
  function AtTail(l: Lists, node: nat, needCheck: bool): Lists
    requires node < |l.pool| && (l.erasedTail != EMPTY_NODE ==> l.erasedTail < |l.pool|)
  {
    var pool1 := l.pool[node := ListNode(l.pool[node].block, needCheck, EMPTY_NODE)];
    l.(pool := if l.erasedTail != EMPTY_NODE then pool1[l.erasedTail := pool1[l.erasedTail].(next := node)] else pool1,
       erasedTail := node, erased := if l.erased == EMPTY_NODE then node else l.erased,
       erasedCount := l.erasedCount + 1)
  }

  lemma {:induction false} AtTailOk(l: Lists, chain: seq<nat>, badChain: seq<nat>, node: nat, needCheck: bool)
    requires StateOk(l, chain, badChain) && node < |l.pool| && node !in chain && node !in badChain
    ensures l.erasedTail != EMPTY_NODE ==> l.erasedTail < |l.pool|
    ensures var l' := AtTail(l, node, needCheck);
            StateOk(l', chain + [node], badChain) && EntriesOf(l'.pool, badChain) == EntriesOf(l.pool, badChain) &&
            EntriesOf(l'.pool, chain + [node]) == EntriesOf(l.pool, chain) + [Entry(l.pool[node].block, needCheck)]
  {
    InRange(l, chain, badChain);
    DistinctParts(chain, badChain);
    DistinctGrows(chain, badChain, node);
    LinkedAppend(l.pool, l.erased, chain, node, needCheck);
    var pool1 := l.pool[node := ListNode(l.pool[node].block, needCheck, EMPTY_NODE)];
    LinkedFrame(l.pool, pool1, l.bad, badChain, node, pool1[node]);
    if chain != [] {
      var tail := chain[|chain| - 1];
      LinkedFrame(pool1, pool1[tail := pool1[tail].(next := node)], l.bad, badChain, tail, pool1[tail].(next := node));
    }
    hide Linked, NoDup;
  }

  lemma {:induction false} AtBadOk(l: Lists, chain: seq<nat>, badChain: seq<nat>, node: nat)
    requires StateOk(l, chain, badChain) && node < |l.pool| && node !in chain && node !in badChain
    ensures var l' := l.(pool := l.pool[node := l.pool[node].(next := l.bad)], bad := node, badCount := l.badCount + 1);
            StateOk(l', chain, [node] + badChain) && EntriesOf(l'.pool, chain) == EntriesOf(l.pool, chain) &&
            BlocksOf(EntriesOf(l'.pool, [node] + badChain)) ==
              [l.pool[node].block] + BlocksOf(EntriesOf(l.pool, badChain))
  {
    InRange(l, chain, badChain);
    DistinctGrows(chain, badChain, node);
    LinkedPush(l.pool, l.bad, badChain, node, l.pool[node].needCheck);
    LinkedFrame(l.pool, l.pool[node := l.pool[node].(next := l.bad)], l.erased, chain, node,
                l.pool[node].(next := l.bad));
    EntriesStart(l.pool[node := l.pool[node].(next := l.bad)], node, badChain, l.pool, l.pool[node].needCheck);
    hide Linked, NoDup, EntriesOf, BlocksOf;
  }

  lemma {:induction false} EntriesStart(pool': seq<ListNode>, node: nat, chain: seq<nat>, pool: seq<ListNode>,
                                        needCheck: bool)
    requires node < |pool'| && (forall i :: 0 <= i < |chain| ==> chain[i] < |pool'| && chain[i] < |pool|)
    requires EntriesOf(pool', [node] + chain) == [Entry(pool'[node].block, needCheck)] + EntriesOf(pool, chain)
    ensures BlocksOf(EntriesOf(pool', [node] + chain)) == [pool'[node].block] + BlocksOf(EntriesOf(pool, chain))
  {
    hide EntriesOf;
  }

  lemma {:induction false} PopOk(l: Lists, chain: seq<nat>, badChain: seq<nat>)
    requires StateOk(l, chain, badChain) && chain != []
    ensures l.erased == chain[0] < |l.pool|
    ensures var next := l.pool[l.erased].next;
            var l' := l.(erased := next, erasedTail := if next == EMPTY_NODE then EMPTY_NODE else l.erasedTail,
                         erasedCount := l.erasedCount - 1);
            StateOk(l', chain[1..], badChain) && chain[0] !in chain[1..] && chain[0] !in badChain &&
            EntriesOf(l.pool, chain[1..]) == EntriesOf(l.pool, chain)[1..]
  {
    InRange(l, chain, badChain);
    DistinctParts(chain, badChain);
    LinkedPop(l.pool, l.erased, chain);
  }

  /** Nodes outside the lists may change. */
  lemma {:induction false} OutsideOk(l: Lists, chain: seq<nat>, badChain: seq<nat>, node: nat, n: ListNode)
    requires StateOk(l, chain, badChain) && node < |l.pool| && node !in chain && node !in badChain
    ensures var l' := l.(pool := l.pool[node := n]);
            StateOk(l', chain, badChain) && EntriesOf(l'.pool, chain) == EntriesOf(l.pool, chain) &&
            EntriesOf(l'.pool, badChain) == EntriesOf(l.pool, badChain)
  {
    InRange(l, chain, badChain);
    LinkedFrame(l.pool, l.pool[node := n], l.erased, chain, node, n);
    LinkedFrame(l.pool, l.pool[node := n], l.bad, badChain, node, n);
    hide Linked, NoDup;
  }

  // ----- the allocator

  class Allocator {
    var lists: Lists
    ghost var chain: seq<nat>
    ghost var badChain: seq<nat>
    // What the flash answers for a block.
    const checkOk: nat -> bool
    const erase: nat -> EraseResult

    constructor (nodes: nat, checkOk: nat -> bool, erase: nat -> EraseResult)
      requires nodes < EMPTY_NODE
      ensures Valid() && chain == [] && badChain == [] && |lists.pool| == nodes
      ensures this.checkOk == checkOk && this.erase == erase
    {
      lists := Lists(seq(nodes, _ => ListNode(0, false, EMPTY_NODE)), EMPTY_NODE, EMPTY_NODE, 0, EMPTY_NODE, 0);
      chain, badChain := [], [];
      this.checkOk, this.erase := checkOk, erase;
    }

    ghost predicate Valid()
      reads this
    {
      StateOk(lists, chain, badChain)
    }

    /** The erased list, as a user sees it. */
    ghost function Entries(): (e: seq<Entry>)
      requires Valid()
      reads this
      ensures |e| == |chain|
    {
      EntriesOf(lists.pool, chain)
    }

    ghost function BadBlocks(): seq<nat>
      requires Valid()
      reads this
    {
      BlocksOf(EntriesOf(lists.pool, badChain))
    }

    ghost predicate InHand(node: nat)
      reads this
    {
      node < |lists.pool| && node !in chain && node !in badChain
    }

    method InsertToErasedListTail(node: nat, needCheck: bool)
      requires Valid() && InHand(node)
      modifies this
      ensures Valid() && chain == old(chain) + [node] && badChain == old(badChain)
      ensures Entries() == old(Entries()) + [Entry(old(lists.pool[node].block), needCheck)] &&
              BadBlocks() == old(BadBlocks())
    {
      hide StateOk, Linked, NoDup;
      AtTailOk(lists, chain, badChain, node, needCheck);
      lists := AtTail(lists, node, needCheck);
      chain := chain + [node];
    }

    method InsertToBadBlockList(node: nat)
      requires Valid() && InHand(node)
      modifies this
      ensures Valid() && badChain == [node] + old(badChain) && chain == old(chain)
      ensures BadBlocks() == [old(lists.pool[node].block)] + old(BadBlocks()) && Entries() == old(Entries())
      ensures |lists.pool| == |old(lists.pool)| &&
              forall x :: 0 <= x < |lists.pool| && x != node ==> lists.pool[x] == old(lists.pool)[x]
    {
      hide StateOk, Linked, NoDup;
      AtBadOk(lists, chain, badChain, node);
      lists := lists.(pool := lists.pool[node := lists.pool[node].(next := lists.bad)], bad := node,
                      badCount := lists.badCount + 1);
      badChain := [node] + badChain;
    }

    method GetErasedNodeNoCheck() returns (node: nat)
      requires Valid()
      modifies this
      ensures Valid() && badChain == old(badChain) && lists.pool == old(lists.pool) && BadBlocks() == old(BadBlocks())
      ensures if old(chain) == [] then node == EMPTY_NODE && chain == []
              else node == old(chain)[0] && chain == old(chain)[1..] && InHand(node) && node != EMPTY_NODE &&
                   Entries() == old(Entries())[1..] &&
                   old(Entries())[0] == Entry(lists.pool[node].block, lists.pool[node].needCheck)
    {
      InRange(lists, chain, badChain);
      PoolBound(lists, chain, badChain);
      hide StateOk, Linked, NoDup;
      node := EMPTY_NODE;
      if lists.erased != EMPTY_NODE {
        PopOk(lists, chain, badChain);
        node := lists.erased;
        var next := lists.pool[node].next;
        lists := lists.(erased := next, erasedTail := if next == EMPTY_NODE then EMPTY_NODE else lists.erasedTail,
                        erasedCount := lists.erasedCount - 1);
        chain := chain[1..];
      }
    }

    /** Take an erased block: the first in the list that is erased, or can be. */
    method GetErasedNode() returns (node: nat)
      requires Valid()
      modifies this
      ensures Valid()
      ensures var r := Take(old(Entries()), checkOk, erase);
              Entries() == Left(old(Entries()), r) && BadBlocks() == Reported(old(Entries()), r, old(BadBlocks())) &&
              match r
              case Got(k) =>
                InHand(node) && node != EMPTY_NODE && node == old(chain)[0] &&
                lists.pool[node].block == old(Entries())[k].block &&
                lists.pool[node].needCheck ==
                (old(lists.pool)[node].needCheck && checkOk(old(lists.pool)[node].block))
              case None(k) => node == EMPTY_NODE
      ensures |lists.pool| == |old(lists.pool)| && forall x :: x in chain ==> x in old(chain)
      ensures forall x :: 0 <= x < |lists.pool| && old(InHand(x)) ==> InHand(x) && lists.pool[x] == old(lists.pool)[x]
      decreases |chain|, 0
    {
      hide StateOk, Linked, NoDup, Take, Usable, EntriesOf, BlocksOf, NextIn, AtTail, Left, Reported;
      ghost var e, bad := Entries(), BadBlocks();
      node := GetErasedNodeNoCheck();
      if node == EMPTY_NODE {
        TakeNothing(e, bad, checkOk, erase);
      } else {
        TakeRest(e, bad, checkOk, erase);
        UsableIs(e[0], checkOk, erase);
        if lists.pool[node].needCheck {
          var block := lists.pool[node].block;
          if !checkOk(block) {
            var ok := EraseNode(node);
            if !ok {
              return EMPTY_NODE;
            }
            OutsideOk(lists, chain, badChain, node, lists.pool[node].(needCheck := false));
            lists := lists.(pool := lists.pool[node := lists.pool[node].(needCheck := false)]);
          }
        }
      }
    }

    /** Erase the block in hand; if it is bad, swap it with a good one and put it on the bad list. */
    method EraseNode(node: nat) returns (ok: bool)
      requires Valid() && InHand(node)
      modifies this
      ensures Valid() && InHand(node) && !lists.pool[node].needCheck
      ensures var b := old(lists.pool[node].block);
              if erase(b) != BadBlock then
                ok == (erase(b) == Erased) && Entries() == old(Entries()) && BadBlocks() == old(BadBlocks()) &&
                lists.pool[node].block == b
              else
                var r := Take(old(Entries()), checkOk, erase);
                Entries() == Left(old(Entries()), r) &&
                match r
                case Got(k) =>
                  ok && lists.pool[node].block == old(Entries())[k].block &&
                  BadBlocks() == [b] + Reported(old(Entries()), r, old(BadBlocks()))
                case None(k) => !ok && BadBlocks() == old(BadBlocks())
      ensures |lists.pool| == |old(lists.pool)| && forall x :: x in chain ==> x in old(chain)
      ensures forall x :: 0 <= x < |lists.pool| && x != node && old(InHand(x)) ==>
              InHand(x) && lists.pool[x] == old(lists.pool)[x]
      decreases |chain|, 1
    {
      hide StateOk, Linked, NoDup, Take, Usable, EntriesOf, BlocksOf, NextIn, AtTail, Left, Reported;
      ghost var e, bad := Entries(), BadBlocks();
      var block := lists.pool[node].block;
      OutsideOk(lists, chain, badChain, node, lists.pool[node].(needCheck := false));
      lists := lists.(pool := lists.pool[node := lists.pool[node].(needCheck := false)]);
      var ret := erase(block);
      if ret == BadBlock {
        var newNode := GetErasedNode();
        if newNode != EMPTY_NODE {
          var good := lists.pool[newNode].block;
          OutsideOk(lists, chain, badChain, newNode, lists.pool[newNode].(block := block));
          lists := lists.(pool := lists.pool[newNode := lists.pool[newNode].(block := block)]);
          OutsideOk(lists, chain, badChain, node, lists.pool[node].(block := good, needCheck := false));
          lists := lists.(pool := lists.pool[node := lists.pool[node].(block := good, needCheck := false)]);
          InsertToBadBlockList(newNode);
        } else {
          NoneReported(e, Take(e, checkOk, erase).k, bad);
        }
        return newNode != EMPTY_NODE;
      }
      ok := ret == Erased;
    }
  }

  lemma {:induction false} PoolBound(l: Lists, chain: seq<nat>, badChain: seq<nat>)
    requires StateOk(l, chain, badChain)
    ensures |l.pool| < EMPTY_NODE
  {
  }
}

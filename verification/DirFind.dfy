/** Enumerating a directory: a cursor walks the chains of directories, then those of files, and reports the
    children. */
module DirFind {
  import opened Chains
  import opened TreeIndex

  const NONE: nat := EMPTY_NODE

  /** Buckets of directories and files, those of directories first. */
  const SEARCHED: nat := DIR_ENTRIES + FILE_ENTRIES

  // ----- the children, in the order of the search

  function ChildrenFrom(pool: seq<TreeNode>, chain: seq<nat>, i: nat, serial: nat): seq<nat>
    decreases |chain| - i
  {
    if i >= |chain| then []
    else if chain[i] < |pool| && pool[chain[i]].parent == serial then
      [chain[i]] + ChildrenFrom(pool, chain, i + 1, serial)
    else ChildrenFrom(pool, chain, i + 1, serial)
  }

  /** Children from position i of chain b on. */
  function AllFrom(pool: seq<TreeNode>, chains: seq<seq<nat>>, b: nat, i: nat, serial: nat): seq<nat>
    decreases SEARCHED - b
  {
    if b >= SEARCHED || b >= |chains| then []
    else ChildrenFrom(pool, chains[b], i, serial) + AllFrom(pool, chains, b + 1, 0, serial)
  }

  ghost predicate IsChild(pool: seq<TreeNode>, where: Where, x: nat, serial: nat) {
    x in where && where[x] < SEARCHED && x < |pool| && pool[x].parent == serial
  }

  /** By the number of the chain. */
  ghost predicate InOrder(where: Where, s: seq<nat>) {
    forall j, k :: 0 <= j < k < |s| ==> s[j] in where && s[k] in where && where[s[j]] <= where[s[k]]
  }

  lemma {:induction false} ChildrenAre(pool: seq<TreeNode>, chain: seq<nat>, i: nat, serial: nat)
    requires NoDup(chain)
    ensures forall x :: x in ChildrenFrom(pool, chain, i, serial) <==>
                          exists j :: i <= j < |chain| && chain[j] == x && x < |pool| && pool[x].parent == serial
    ensures NoDup(ChildrenFrom(pool, chain, i, serial))
    decreases |chain| - i
  {
    if i < |chain| {
      ChildrenAre(pool, chain, i + 1, serial);
      var rest := ChildrenFrom(pool, chain, i + 1, serial);
      assert chain[i] !in rest;
    }
  }

  /** The search reports exactly the children, directories before files, none twice. */
  lemma {:induction false} AllFromIs(pool: seq<TreeNode>, entry: seq<nat>, chains: seq<seq<nat>>, where: Where, b: nat,
                                     serial: nat)
    requires ChainsOk(pool, entry, chains, where)
    ensures var all := AllFrom(pool, chains, b, 0, serial);
            (forall x :: x in all <==> IsChild(pool, where, x, serial) && where[x] >= b) && NoDup(all) &&
            InOrder(where, all)
    decreases SEARCHED - b
  {
    if b < SEARCHED {
      AllFromIs(pool, entry, chains, where, b + 1, serial);
      ChainFacts(pool, entry, chains, where, b);
      ChildrenAre(pool, chains[b], 0, serial);
      hide ChainsOk, Linked;
      var first, rest := ChildrenFrom(pool, chains[b], 0, serial), AllFrom(pool, chains, b + 1, 0, serial);
      OneChain(pool, chains[b], where, b, serial);
      JoinChains(pool, where, b, serial, first, rest);
    }
  }

  lemma {:induction false} OneChain(pool: seq<TreeNode>, chain: seq<nat>, where: Where, b: nat, serial: nat)
    requires NoDup(chain) && b < SEARCHED && forall x :: x in chain <==> x in where && where[x] == b
    ensures forall x :: x in ChildrenFrom(pool, chain, 0, serial) <==> IsChild(pool, where, x, serial) && where[x] == b
  {
    ChildrenAre(pool, chain, 0, serial);
  }

  lemma {:induction false} JoinChains(pool: seq<TreeNode>, where: Where, b: nat, serial: nat, first: seq<nat>,
                                      rest: seq<nat>)
    requires NoDup(first) && forall x :: x in first <==> IsChild(pool, where, x, serial) && where[x] == b
    requires NoDup(rest) && forall x :: x in rest <==> IsChild(pool, where, x, serial) && where[x] >= b + 1
    requires InOrder(where, rest)
    ensures var all := first + rest;
            (forall x :: x in all <==> IsChild(pool, where, x, serial) && where[x] >= b) && NoDup(all) &&
            InOrder(where, all)
  {
    var all := first + rest;
    forall j, k | 0 <= j < k < |all|
      ensures all[j] != all[k] && all[j] in where && all[k] in where && where[all[j]] <= where[all[k]]
    {
      assert j < |first| ==> all[j] == first[j] && first[j] in first;
      assert k < |first| ==> all[k] == first[k] && first[k] in first;
      assert j >= |first| ==> all[j] == rest[j - |first|] && rest[j - |first|] in rest;
      assert k >= |first| ==> all[k] == rest[k - |first|] && rest[k - |first|] in rest;
    }
  }

  // ----- the cursor

  class FindInfo {
    const index: Index
    const serial: nat
    var step: nat
    var hash: nat
    var work: nat
    var pos: nat
    // Position of the last child reported in its chain.
    ghost var at: nat

    constructor (index: Index, serial: nat)
      ensures this.index == index && this.serial == serial && step == 0 && hash == 0 && work == NONE && pos == 0
    {
      this.index, this.serial := index, serial;
      step, hash, work, pos, at := 0, 0, NONE, 0, 0;
    }

    method Reset()
      modifies this
      ensures step == 0 && hash == 0 && work == NONE && pos == 0
    {
      step, hash, work, pos := 0, 0, NONE, 0;
    }

    /** Chain the cursor is in. */
    ghost function Chain(): nat
      reads this`step, this`hash
    {
      if step == 0 then hash else DIR_ENTRIES + hash
    }

    /** The cursor stands at a child, or has come to the end. */
    ghost predicate Valid()
      reads this, index
    {
      index.Valid() && Chain() < ENTRIES &&
      if step > 1 then step == 2
      else
        hash < (if step == 0 then DIR_ENTRIES else FILE_ENTRIES) &&
        (work != NONE ==> work < |index.pool| && at < |index.chains[Chain()]| && index.chains[Chain()][at] == work)
    }

    /** Children still to be reported. */
    ghost function Rest(): seq<nat>
      requires Valid()
      reads this, index
    {
      if step > 1 then [] else if work == NONE then AllFrom(index.pool, index.chains, 0, 0, serial)
      else AllFrom(index.pool, index.chains, Chain(), at + 1, serial)
    }

    /** First child from position i of a chain on, x being the node there; NONE if there is none. */
    method ScanChain(start: nat, ghost b: nat, ghost i: nat) returns (x: nat, ghost j: nat)
      requires index.Valid() && b < ENTRIES
      requires i <= |index.chains[b]| && start == NextAt(index.chains[b], i)
      ensures b < |index.chains| && i <= j <= |index.chains[b]|
      ensures ChildrenFrom(index.pool, index.chains[b], i, serial) ==
              ChildrenFrom(index.pool, index.chains[b], j, serial)
      ensures if x == NONE then j == |index.chains[b]|
              else j < |index.chains[b]| && x == index.chains[b][j] &&
                   x < |index.pool| && index.pool[x].parent == serial
    {
      x, j := start, i;
      ghost var chain := index.chains[b];
      ChainFacts(index.pool, index.entry, index.chains, index.where, b);
      while x != EMPTY_NODE
        invariant i <= j <= |chain| && x == NextAt(chain, j)
        invariant ChildrenFrom(index.pool, chain, i, serial) == ChildrenFrom(index.pool, chain, j, serial)
        decreases |chain| - j
      {
        assert chain[j] in chain;
        var node := index.pool[x];
        if node.parent == serial {
          return;
        }
        x := node.next;
        j := j + 1;
      }
    }

    /** Length of the table searched in the current step. */
    function Length(): nat
      reads this`step
    {
      if step == 0 then DIR_ENTRIES else FILE_ENTRIES
    }

    /** What a reader of the cursor sees once node x, at position j of the current chain, has been reported. */
    ghost predicate At(x: nat, j: nat)
      reads this, index
    {
      step <= 1 && hash < Length() && work == x && at == j && index.Valid() &&
      x < |index.pool| && x != NONE && Chain() < |index.chains| && j < |index.chains[Chain()]| &&
      index.chains[Chain()][j] == x
    }

    /** Search the rest of the table of this step, from node x at position i of the current chain on. */
    method SearchTable(start: nat, ghost i: nat) returns (found: bool)
      requires index.Valid() && step <= 1 && hash < Length() && Chain() < |index.chains|
      requires i <= |index.chains[Chain()]| && start == NextAt(index.chains[Chain()], i)
      modifies this
      ensures step == old(step) && pos == old(pos) + (if found then 1 else 0)
      ensures if found then At(work, at) else hash == Length() && work == old(work)
      ensures old(AllFrom(index.pool, index.chains, Chain(), i, serial)) ==
              if found then [work] + AllFrom(index.pool, index.chains, Chain(), at + 1, serial)
              else AllFrom(index.pool, index.chains, Chain(), 0, serial)
    {
      hide ChainsOk, IndexOk, AllFrom, At, IsChild;
      ghost var all := AllFrom(index.pool, index.chains, Chain(), i, serial);
      found := SearchChain(start, i);
      if found {
        return;
      }
      hash := hash + 1;
      while hash < Length()
        invariant step == old(step) && pos == old(pos) && work == old(work) && hash <= Length()
        invariant all == AllFrom(index.pool, index.chains, Chain(), 0, serial)
        decreases Length() - hash
      {
        ChainFacts(index.pool, index.entry, index.chains, index.where, Chain());
        found := SearchChain(index.entry[if step == 0 then hash else DIR_ENTRIES + hash], 0);
        if found {
          return;
        }
        hash := hash + 1;
      }
    }

    /** Search the rest of one chain. */
    method SearchChain(start: nat, ghost i: nat) returns (found: bool)
      requires index.Valid() && step <= 1 && hash < Length() && Chain() < |index.chains|
      requires i <= |index.chains[Chain()]| && start == NextAt(index.chains[Chain()], i)
      modifies this`work, this`pos, this`at
      ensures pos == old(pos) + (if found then 1 else 0)
      ensures if found then At(work, at) else work == old(work)
      ensures AllFrom(index.pool, index.chains, Chain(), i, serial) ==
              if found then [work] + AllFrom(index.pool, index.chains, Chain(), at + 1, serial)
              else AllFrom(index.pool, index.chains, Chain() + 1, 0, serial)
    {
      hide ChainsOk, IndexOk, AllFrom, ChildrenFrom;
      var x;
      ghost var j;
      x, j := ScanChain(start, Chain(), i);
      SearchedChain(index.pool, index.chains, Chain(), i, j, serial);
      InPool(index.pool, index.entry, index.chains, index.where);
      found := x != NONE;
      if found {
        work := x;
        pos := pos + 1;
        at := j;
      }
    }

    /** The next child from node x at position i of the current chain on. */
    method DoFindObject(x: nat, ghost i: nat) returns (ok: bool)
      requires index.Valid() && step <= 1 && hash < Length() && Chain() < |index.chains|
      requires i <= |index.chains[Chain()]| && x == NextAt(index.chains[Chain()], i)
      modifies this
      ensures Valid()
      ensures var all := old(AllFrom(index.pool, index.chains, Chain(), i, serial));
              if all == [] then !ok && step == 2 && hash == 0 && pos == old(pos) && work == old(work)
              else ok && step <= 1 && work == all[0] && work != NONE && pos == old(pos) + 1 && Rest() == all[1..]
    {
      hide AllFrom, ChainsOk, IndexOk, ChildrenFrom, IsChild, Linked, NoDup;
      var start := x;
      ghost var from := i;
      if step == 0 {
        ok := SearchTable(start, from);
        if ok {
          return;
        }
        step := step + 1;
        hash := 0;
        ChainFacts(index.pool, index.entry, index.chains, index.where, DIR_ENTRIES);
        start := index.entry[DIR_ENTRIES];
        from := 0;
      }
      ok := SearchTable(start, from);
      if ok {
        return;
      }
      NothingBehind(index.pool, index.chains, serial);
      step := step + 1;
      hash := 0;
    }

    method FindObjectFirst() returns (ok: bool)
      requires index.Valid()
      modifies this
      ensures Valid()
      ensures var all := AllFrom(index.pool, index.chains, 0, 0, serial);
              if all == [] then !ok && step == 2 && pos == 0 && work == NONE
              else ok && step <= 1 && work == all[0] && work != NONE && pos == 1 && Rest() == all[1..]
    {
      Reset();
      ChainFacts(index.pool, index.entry, index.chains, index.where, 0);
      ok := DoFindObject(index.entry[0], 0);
    }

    method FindObjectNext() returns (ok: bool)
      requires Valid() && (work == NONE && step <= 1 ==> pos == 0)
      modifies this
      ensures Valid()
      ensures var all := old(Rest());
              if all == [] then !ok && step == 2 && pos == old(pos) && work == old(work)
              else ok && step <= 1 && work == all[0] && work != NONE && pos == old(pos) + 1 && Rest() == all[1..]
    {
      hide AllFrom;
      if step > 1 {
        return false;
      }
      if work == NONE {
        ok := FindObjectFirst();
        return;
      }
      ChainFacts(index.pool, index.entry, index.chains, index.where, Chain());
      ok := DoFindObject(index.pool[work].next, at + 1);
    }

    /** First, then Next until it fails: every child is reported once. */
    method Enumerate() returns (reported: seq<nat>)
      requires index.Valid()
      modifies this
      ensures Valid() && reported == AllFrom(index.pool, index.chains, 0, 0, serial) && pos == |reported|
    {
      hide AllFrom, Valid, Rest, ChainsOk, IndexOk;
      ghost var all := AllFrom(index.pool, index.chains, 0, 0, serial);
      reported := [];
      var ok := FindObjectFirst();
      if ok {
        reported := [work];
      }
      while ok
        invariant Valid() && pos == |reported|
        invariant if ok then work != NONE && step <= 1 && all == reported + Rest() else all == reported
        decreases |all| - |reported|, ok
      {
        NextOne(all, reported, Rest());
        ok := FindObjectNext();
        if ok {
          reported := reported + [work];
        }
      }
    }

    /** Number of children. */
    method FindObjectCount() returns (count: nat)
      requires index.Valid()
      modifies this
      ensures Valid() && count == |AllFrom(index.pool, index.chains, 0, 0, serial)|
    {
      hide AllFrom;
      var ok := FindObjectFirst();
      while ok
        invariant Valid()
        invariant if ok then work != NONE && step <= 1 &&
                  |AllFrom(index.pool, index.chains, 0, 0, serial)| == pos + |Rest()|
                  else pos == |AllFrom(index.pool, index.chains, 0, 0, serial)|
        decreases |AllFrom(index.pool, index.chains, 0, 0, serial)| - pos, ok
      {
        ok := FindObjectNext();
      }
      count := pos;
    }
  }

  /** Node at position i of a chain, EMPTY_NODE behind its end. */
  function NextAt(chain: seq<nat>, i: nat): nat {
    if i < |chain| then chain[i] else EMPTY_NODE
  }

  lemma {:induction false} SearchedChain(pool: seq<TreeNode>, chains: seq<seq<nat>>, b: nat, i: nat, j: nat,
                                         serial: nat)
    requires b < |chains| && b < SEARCHED && i <= j <= |chains[b]|
    requires ChildrenFrom(pool, chains[b], i, serial) == ChildrenFrom(pool, chains[b], j, serial)
    ensures j == |chains[b]| ==> AllFrom(pool, chains, b, i, serial) == AllFrom(pool, chains, b + 1, 0, serial)
    ensures j < |chains[b]| && chains[b][j] < |pool| && pool[chains[b][j]].parent == serial ==>
              AllFrom(pool, chains, b, i, serial) == [chains[b][j]] + AllFrom(pool, chains, b, j + 1, serial)
  {
  }

  lemma {:induction false} InPool(pool: seq<TreeNode>, entry: seq<nat>, chains: seq<seq<nat>>, where: Where)
    requires ChainsOk(pool, entry, chains, where)
    ensures |pool| < NONE && |chains| == ENTRIES
  {
  }

  lemma {:induction false} NothingBehind(pool: seq<TreeNode>, chains: seq<seq<nat>>, serial: nat)
    ensures AllFrom(pool, chains, SEARCHED, 0, serial) == []
  {
  }

  lemma {:induction false} NextOne(all: seq<nat>, reported: seq<nat>, rest: seq<nat>)
    requires all == reported + rest
    ensures rest != [] ==> all == (reported + [rest[0]]) + rest[1..]
    ensures rest == [] ==> all == reported
  {
  }
}

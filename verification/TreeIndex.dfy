/** The index of the tree: nodes of a pool in chains linked by 16-bit indices, one chain for each hash value. It
    acts as a map from keys to nodes. */
module TreeIndex {
  import opened Chains

  /** Directories, files and data blocks have tables of their own. */
  datatype Kind = Dir | File | Data

  datatype TreeNode = TreeNode(parent: nat, serial: nat, next: nat, prev: nat)

  datatype Key = Key(kind: Kind, parent: nat, serial: nat)

  /** Directories and files are found by their serial alone. */
  function KeyOf(kind: Kind, parent: nat, serial: nat): Key {
    Key(kind, if kind == Data then parent else 0, serial)
  }

  const DIR_ENTRIES: nat := 0x20
  const FILE_ENTRIES: nat := 0x40
  const DATA_ENTRIES: nat := 0x200
  const ENTRIES: nat := DIR_ENTRIES + FILE_ENTRIES + DATA_ENTRIES

  /** The chain of a key; the chains of the three tables lie side by side. */
  function Bucket(k: Key): (b: nat)
    ensures b < ENTRIES
  {
    match k.kind
    case Dir => k.serial % DIR_ENTRIES
    case File => DIR_ENTRIES + k.serial % FILE_ENTRIES
    case Data => DIR_ENTRIES + FILE_ENTRIES + (k.parent + k.serial) % DATA_ENTRIES
  }

  function KindOf(b: nat): Kind {
    if b < DIR_ENTRIES then Dir else if b < DIR_ENTRIES + FILE_ENTRIES then File else Data
  }

  lemma {:induction false} BucketKind(k: Key)
    ensures KindOf(Bucket(k)) == k.kind
  {
  }

  function NodeKey(kind: Kind, n: TreeNode): Key {
    KeyOf(kind, n.parent, n.serial)
  }

  // ----- a chain, linked both ways

  function PrevIn(chain: seq<nat>, i: nat): nat
    requires i < |chain|
  {
    if i > 0 then chain[i - 1] else EMPTY_NODE
  }

  ghost predicate Linked(pool: seq<TreeNode>, head: nat, chain: seq<nat>) {
    && head == (if |chain| == 0 then EMPTY_NODE else chain[0])
    && (forall i :: 0 <= i < |chain| ==> chain[i] < |pool|)
    && (forall i :: 0 <= i < |chain| ==>
        pool[chain[i]].next == NextIn(chain, i) && pool[chain[i]].prev == PrevIn(chain, i))
  }

  /** Nodes of the chain keep their links. */
  ghost predicate SameLinks(pool: seq<TreeNode>, pool': seq<TreeNode>, chain: seq<nat>) {
    |pool'| == |pool| && forall i :: 0 <= i < |chain| && chain[i] < |pool| ==>
      pool'[chain[i]].next == pool[chain[i]].next && pool'[chain[i]].prev == pool[chain[i]].prev
  }

  lemma {:induction false} LinkedFrame(pool: seq<TreeNode>, pool': seq<TreeNode>, head: nat, chain: seq<nat>)
    requires Linked(pool, head, chain) && SameLinks(pool, pool', chain)
    ensures Linked(pool', head, chain)
  {
  }

  /** The pool after node x has been linked before the head of a chain. */
  function Pushed(pool: seq<TreeNode>, head: nat, x: nat): seq<TreeNode>
    requires x < |pool| && (head != EMPTY_NODE ==> head < |pool|)
  {
    var pool1 := pool[x := pool[x].(next := head, prev := EMPTY_NODE)];
    if head != EMPTY_NODE then pool1[head := pool1[head].(prev := x)] else pool1
  }

  lemma {:induction false} PushedNode(pool: seq<TreeNode>, head: nat, x: nat, y: nat)
    requires x < |pool| && (head != EMPTY_NODE ==> head < |pool|) && y < |pool| && head != x
    ensures |Pushed(pool, head, x)| == |pool|
    ensures Pushed(pool, head, x)[y] ==
            if y == x then pool[x].(next := head, prev := EMPTY_NODE)
            else if y == head && head != EMPTY_NODE then pool[head].(prev := x) else pool[y]
  {
  }

  lemma {:induction false} PushedLink(pool: seq<TreeNode>, head: nat, chain: seq<nat>, x: nat, i: nat)
    requires Linked(pool, head, chain) && NoDup(chain) && x !in chain && x < |pool| < EMPTY_NODE && i < |chain| + 1
    requires head != EMPTY_NODE ==> head < |pool|
    ensures var pool', longer := Pushed(pool, head, x), [x] + chain;
            |pool'| == |pool| && longer[i] < |pool| &&
            pool'[longer[i]].next == NextIn(longer, i) && pool'[longer[i]].prev == PrevIn(longer, i)
  {
    var longer := [x] + chain;
    if i == 0 {
      PushedNode(pool, head, x, x);
    } else {
      assert longer[i] == chain[i - 1] && chain[i - 1] != x;
      assert pool[chain[i - 1]].next == NextIn(chain, i - 1) && pool[chain[i - 1]].prev == PrevIn(chain, i - 1);
      PushedNode(pool, head, x, chain[i - 1]);
      assert i > 1 ==> chain[i - 1] != chain[0];
    }
  }

  lemma {:induction false} LinkedPush(pool: seq<TreeNode>, head: nat, chain: seq<nat>, x: nat)
    requires Linked(pool, head, chain) && NoDup(chain) && x !in chain && x < |pool| < EMPTY_NODE
    ensures head != EMPTY_NODE ==> head < |pool|
    ensures Linked(Pushed(pool, head, x), x, [x] + chain) && NoDup([x] + chain)
    ensures |Pushed(pool, head, x)| == |pool|
    ensures forall y :: 0 <= y < |pool| && y != x && y !in chain ==> Pushed(pool, head, x)[y] == pool[y]
    ensures forall y :: 0 <= y < |pool| ==> SameData(Pushed(pool, head, x)[y], pool[y])
  {
    var longer := [x] + chain;
    assert |chain| > 0 ==> chain[0] in chain;
    assert forall i :: 0 <= i < |chain| ==> longer[i + 1] == chain[i] && chain[i] != x;
    forall i | 0 <= i < |longer|
      ensures longer[i] < |pool| && Pushed(pool, head, x)[longer[i]].next == NextIn(longer, i) &&
              Pushed(pool, head, x)[longer[i]].prev == PrevIn(longer, i)
    {
      PushedLink(pool, head, chain, x, i);
    }
    forall y | 0 <= y < |pool|
      ensures SameData(Pushed(pool, head, x)[y], pool[y]) &&
              (y != x && y !in chain ==> Pushed(pool, head, x)[y] == pool[y])
    {
      PushedNode(pool, head, x, y);
    }
    hide Pushed;
  }

  predicate SameData(a: TreeNode, b: TreeNode) {
    a.parent == b.parent && a.serial == b.serial
  }

  /** The pool after node x has been unlinked from its neighbours. */
  function Broken(pool: seq<TreeNode>, x: nat): seq<TreeNode>
    requires x < |pool| && (pool[x].prev != EMPTY_NODE ==> pool[x].prev < |pool|) &&
             (pool[x].next != EMPTY_NODE ==> pool[x].next < |pool|)
  {
    var pool1 := if pool[x].prev != EMPTY_NODE then pool[pool[x].prev := pool[pool[x].prev].(next := pool[x].next)]
      else pool;
    if pool[x].next != EMPTY_NODE then pool1[pool[x].next := pool1[pool[x].next].(prev := pool[x].prev)] else pool1
  }

  function WithoutAt(chain: seq<nat>, i: nat): (r: seq<nat>)
    requires i < |chain|
    ensures |r| == |chain| - 1
    ensures forall j :: 0 <= j < |r| ==> r[j] == if j < i then chain[j] else chain[j + 1]
  {
    chain[..i] + chain[i + 1..]
  }

  lemma {:induction false} BrokenNode(pool: seq<TreeNode>, x: nat, y: nat)
    requires x < |pool| && (pool[x].prev != EMPTY_NODE ==> pool[x].prev < |pool|) &&
             (pool[x].next != EMPTY_NODE ==> pool[x].next < |pool|)
    requires y < |pool| < EMPTY_NODE && pool[x].prev != x && pool[x].next != x &&
             (pool[x].prev == EMPTY_NODE || pool[x].prev != pool[x].next)
    ensures |Broken(pool, x)| == |pool|
    ensures Broken(pool, x)[y] ==
            if y == pool[x].prev then pool[y].(next := pool[x].next)
            else if y == pool[x].next then pool[y].(prev := pool[x].prev) else pool[y]
  {
  }

  /** Neighbours of a node in its chain. */
  lemma {:induction false} Neighbours(pool: seq<TreeNode>, head: nat, chain: seq<nat>, i: nat)
    requires Linked(pool, head, chain) && NoDup(chain) && i < |chain| && |pool| < EMPTY_NODE
    ensures var x := chain[i];
            x < |pool| && pool[x].next == NextIn(chain, i) && pool[x].prev == PrevIn(chain, i) &&
            (pool[x].prev != EMPTY_NODE ==> pool[x].prev < |pool|) &&
            (pool[x].next != EMPTY_NODE ==> pool[x].next < |pool|) &&
            pool[x].prev != x && pool[x].next != x && (pool[x].prev == EMPTY_NODE || pool[x].prev != pool[x].next) &&
            (head == x <==> i == 0)
  {
    assert i > 0 ==> chain[i - 1] < |pool| && chain[0] != chain[i];
    assert i + 1 < |chain| ==> chain[i + 1] < |pool|;
  }

  lemma {:induction false} BrokenLink(pool: seq<TreeNode>, head: nat, chain: seq<nat>, i: nat, j: nat)
    requires Linked(pool, head, chain) && NoDup(chain) && i < |chain| && |pool| < EMPTY_NODE && j < |chain| - 1 &&
             chain[i] < |pool|
    requires pool[chain[i]].prev != EMPTY_NODE ==> pool[chain[i]].prev < |pool|
    requires pool[chain[i]].next != EMPTY_NODE ==> pool[chain[i]].next < |pool|
    ensures var pool', shorter := Broken(pool, chain[i]), WithoutAt(chain, i);
            |pool'| == |pool| && shorter[j] < |pool| &&
            pool'[shorter[j]].next == NextIn(shorter, j) && pool'[shorter[j]].prev == PrevIn(shorter, j)
  {
    Neighbours(pool, head, chain, i);
    var at := if j < i then j else j + 1;
    Neighbours(pool, head, chain, at);
    BrokenNode(pool, chain[i], chain[at]);
    hide Broken, Linked;
    assert i > 0 && at != i - 1 ==> chain[at] != chain[i - 1];
    assert i + 1 < |chain| && at != i + 1 ==> chain[at] != chain[i + 1];
  }

  lemma {:induction false} LinkedBreak(pool: seq<TreeNode>, head: nat, chain: seq<nat>, i: nat)
    requires Linked(pool, head, chain) && NoDup(chain) && i < |chain| && |pool| < EMPTY_NODE
    ensures var x := chain[i];
            x < |pool| && (pool[x].prev != EMPTY_NODE ==> pool[x].prev < |pool|) &&
            (pool[x].next != EMPTY_NODE ==> pool[x].next < |pool|)
    ensures Linked(Broken(pool, chain[i]), if head == chain[i] then pool[chain[i]].next else head, WithoutAt(chain, i))
  {
    hide *;
    var shorter := WithoutAt(chain, i);
    Neighbours(pool, head, chain, i);
    NeighboursIs(chain, i, pool, head);
    forall j | 0 <= j < |shorter|
      ensures shorter[j] < |pool| && |Broken(pool, chain[i])| == |pool| &&
              Broken(pool, chain[i])[shorter[j]].next == NextIn(shorter, j) &&
              Broken(pool, chain[i])[shorter[j]].prev == PrevIn(shorter, j)
    {
      BrokenLink(pool, head, chain, i, j);
    }
    BrokenSize(pool, chain[i]);
    LinkedIs(Broken(pool, chain[i]), if head == chain[i] then pool[chain[i]].next else head, shorter);
  }

  lemma {:induction false} BrokenSize(pool: seq<TreeNode>, x: nat)
    requires x < |pool| && (pool[x].prev != EMPTY_NODE ==> pool[x].prev < |pool|) &&
             (pool[x].next != EMPTY_NODE ==> pool[x].next < |pool|)
    ensures |Broken(pool, x)| == |pool|
  {
  }

  lemma {:induction false} LinkedIs(pool: seq<TreeNode>, head: nat, chain: seq<nat>)
    requires head == (if |chain| == 0 then EMPTY_NODE else chain[0])
    requires forall i :: 0 <= i < |chain| ==> chain[i] < |pool|
    requires forall i :: 0 <= i < |chain| ==>
             pool[chain[i]].next == NextIn(chain, i) && pool[chain[i]].prev == PrevIn(chain, i)
    ensures Linked(pool, head, chain)
  {
  }

  /** The head of a chain once node i is out of it. */
  lemma {:induction false} NeighboursIs(chain: seq<nat>, i: nat, pool: seq<TreeNode>, head: nat)
    requires Linked(pool, head, chain) && i < |chain| && chain[i] < |pool|
    requires pool[chain[i]].next == NextIn(chain, i) && (head == chain[i] <==> i == 0)
    ensures (if head == chain[i] then pool[chain[i]].next else head) ==
            (if |WithoutAt(chain, i)| == 0 then EMPTY_NODE else WithoutAt(chain, i)[0])
  {
  }

  lemma {:induction false} BreakKeeps(pool: seq<TreeNode>, head: nat, chain: seq<nat>, i: nat)
    requires Linked(pool, head, chain) && NoDup(chain) && i < |chain| && |pool| < EMPTY_NODE && chain[i] < |pool|
    requires pool[chain[i]].prev != EMPTY_NODE ==> pool[chain[i]].prev < |pool|
    requires pool[chain[i]].next != EMPTY_NODE ==> pool[chain[i]].next < |pool|
    ensures |Broken(pool, chain[i])| == |pool|
    ensures forall y :: 0 <= y < |pool| && y !in chain ==> Broken(pool, chain[i])[y] == pool[y]
    ensures forall y :: 0 <= y < |pool| ==> SameData(Broken(pool, chain[i])[y], pool[y])
  {
    Neighbours(pool, head, chain, i);
    hide Linked, NoDup;
    forall y | 0 <= y < |pool|
      ensures SameData(Broken(pool, chain[i])[y], pool[y]) && (y !in chain ==> Broken(pool, chain[i])[y] == pool[y])
    {
      BrokenNode(pool, chain[i], y);
      assert i > 0 ==> chain[i - 1] in chain;
      assert i + 1 < |chain| ==> chain[i + 1] in chain;
    }
  }

  // ----- all chains

  type Where = map<nat, nat>

  /** Chain b links the nodes that `where` puts in it. */
  ghost predicate ChainOk(pool: seq<TreeNode>, head: nat, chain: seq<nat>, where: Where, b: nat) {
    Linked(pool, head, chain) && NoDup(chain) && forall x :: x in chain <==> x in where && where[x] == b
  }

  /** The heads and chains of all hash values. */
  ghost predicate ChainsOk(pool: seq<TreeNode>, entry: seq<nat>, chains: seq<seq<nat>>, where: Where) {
    && |entry| == |chains| == ENTRIES && |pool| < EMPTY_NODE
    && (forall b :: 0 <= b < ENTRIES ==> ChainOk(pool, entry[b], chains[b], where, b))
    && (forall x :: x in where ==> x < |pool| && where[x] < ENTRIES)
  }

  /** They hold the keys of `index`, each with its node, in the chain of the key. */
  ghost predicate IndexOk(pool: seq<TreeNode>, where: Where, index: map<Key, nat>) {
    && (forall x :: x in where ==> x < |pool|)
    && (forall k :: k in index ==>
        index[k] in where && where[index[k]] == Bucket(k) && NodeKey(k.kind, pool[index[k]]) == k)
    && (forall x :: x in where ==>
          NodeKey(KindOf(where[x]), pool[x]) in index && index[NodeKey(KindOf(where[x]), pool[x])] == x)
  }

  lemma {:induction false} ChainFacts(pool: seq<TreeNode>, entry: seq<nat>, chains: seq<seq<nat>>, where: Where, b: nat)
    requires ChainsOk(pool, entry, chains, where) && b < ENTRIES
    ensures |entry| == |chains| == ENTRIES && |pool| < EMPTY_NODE && Linked(pool, entry[b], chains[b]) &&
            NoDup(chains[b])
    ensures forall x :: x in chains[b] <==> x in where && where[x] == b
    ensures forall x :: x in where ==> x < |pool|
    ensures entry[b] != EMPTY_NODE ==> entry[b] < |pool|
  {
    assert ChainOk(pool, entry[b], chains[b], where, b);
  }

  /** Outside chain b nothing has changed place. */
  ghost predicate SameElsewhere(where: Where, where': Where, b: nat) {
    && (forall y :: y in where' && where'[y] != b ==> y in where && where[y] == where'[y])
    && (forall y :: y in where && where[y] != b ==> y in where' && where'[y] == where[y])
  }

  lemma {:induction false} ChainKept(pool: seq<TreeNode>, pool': seq<TreeNode>, head: nat, chain: seq<nat>,
                                     where: Where, where': Where, c: nat, b: nat, x: nat)
    requires ChainOk(pool, head, chain, where, c) && c != b && |pool'| == |pool| && (x in where ==> where[x] == b)
    requires forall y :: 0 <= y < |pool| && y != x && !(y in where && where[y] == b) ==> pool'[y] == pool[y]
    requires SameElsewhere(where, where', b)
    ensures ChainOk(pool', head, chain, where', c)
  {
    forall i | 0 <= i < |chain| && chain[i] < |pool| ensures pool'[chain[i]] == pool[chain[i]] {
      assert chain[i] in chain;
    }
    LinkedFrame(pool, pool', head, chain);
    hide Linked, NoDup;
  }

  /** A change within one chain leaves the others. */
  lemma {:induction false} ChainChanged(pool: seq<TreeNode>, entry: seq<nat>, chains: seq<seq<nat>>, where: Where,
                                        pool': seq<TreeNode>, b: nat, head: nat, chain: seq<nat>, where': Where, x: nat)
    requires ChainsOk(pool, entry, chains, where) && b < ENTRIES && |pool'| == |pool| && x < |pool|
    requires ChainOk(pool', head, chain, where', b) && (x in where ==> where[x] == b)
    requires forall y :: 0 <= y < |pool| && y != x && !(y in where && where[y] == b) ==> pool'[y] == pool[y]
    requires forall y :: y in where' ==> y < |pool| && where'[y] < ENTRIES
    requires SameElsewhere(where, where', b)
    ensures ChainsOk(pool', entry[b := head], chains[b := chain], where')
  {
    hide ChainOk;
    var entry', chains' := entry[b := head], chains[b := chain];
    forall c | 0 <= c < ENTRIES ensures ChainOk(pool', entry'[c], chains'[c], where', c) {
      if c != b {
        ChainKept(pool, pool', entry[c], chains[c], where, where', c, b, x);
      }
    }
  }

  lemma {:induction false} IndexGrows(pool: seq<TreeNode>, pool': seq<TreeNode>, where: Where, index: map<Key, nat>,
                                      k: Key, x: nat)
    requires IndexOk(pool, where, index) && |pool'| == |pool| && x < |pool| && x !in where && k !in index
    requires NodeKey(k.kind, pool[x]) == k && forall y :: 0 <= y < |pool| ==> SameData(pool'[y], pool[y])
    ensures IndexOk(pool', where[x := Bucket(k)], index[k := x])
  {
    BucketKind(k);
    hide Bucket, KindOf;
    var index' := index[k := x];
    forall j | j in index' ensures NodeKey(j.kind, pool'[index'[j]]) == j {
      assert SameData(pool'[index'[j]], pool[index'[j]]);
    }
    forall y | y in where ensures NodeKey(KindOf(where[y]), pool'[y]) == NodeKey(KindOf(where[y]), pool[y]) {
      assert SameData(pool'[y], pool[y]);
    }
  }

  lemma {:induction false} IndexShrinks(pool: seq<TreeNode>, pool': seq<TreeNode>, where: Where, index: map<Key, nat>,
                                        k: Key)
    requires IndexOk(pool, where, index) && |pool'| == |pool| && k in index
    requires forall y :: 0 <= y < |pool| ==> SameData(pool'[y], pool[y])
    ensures IndexOk(pool', where - {index[k]}, index - {k})
  {
    BucketKind(k);
    hide Bucket, KindOf;
    forall j | j in index && j != k ensures NodeKey(j.kind, pool'[index[j]]) == j && index[j] != index[k] {
      assert SameData(pool'[index[j]], pool[index[j]]);
      KindsAgree(j, k, where, index);
    }
    forall y | y in where ensures NodeKey(KindOf(where[y]), pool'[y]) == NodeKey(KindOf(where[y]), pool[y]) {
      assert SameData(pool'[y], pool[y]);
    }
  }

  lemma {:induction false} KindsAgree(j: Key, k: Key, where: Where, index: map<Key, nat>)
    requires j in index && k in index && index[j] in where && index[k] in where
    requires where[index[j]] == Bucket(j) && where[index[k]] == Bucket(k)
    ensures index[j] == index[k] ==> j.kind == k.kind
  {
    BucketKind(j);
    BucketKind(k);
  }

  lemma {:induction false} InsertOk(pool: seq<TreeNode>, entry: seq<nat>, chains: seq<seq<nat>>, where: Where,
                                    index: map<Key, nat>, k: Key, x: nat)
    requires ChainsOk(pool, entry, chains, where) && IndexOk(pool, where, index)
    requires x < |pool| && x !in where && NodeKey(k.kind, pool[x]) == k && k !in index
    ensures Bucket(k) < |entry| == |chains| && (entry[Bucket(k)] != EMPTY_NODE ==> entry[Bucket(k)] < |pool|)
    ensures var b := Bucket(k);
            var pool' := Pushed(pool, entry[b], x);
            ChainsOk(pool', entry[b := x], chains[b := [x] + chains[b]], where[x := b]) &&
            IndexOk(pool', where[x := b], index[k := x])
  {
    var b := Bucket(k);
    ChainFacts(pool, entry, chains, where, b);
    hide ChainsOk, Pushed, Linked, NoDup, Bucket, KindOf, IndexOk;
    LinkedPush(pool, entry[b], chains[b], x);
    var pool', chain := Pushed(pool, entry[b], x), [x] + chains[b];
    IndexGrows(pool, pool', where, index, k, x);
    assert ChainOk(pool', x, chain, where[x := b], b);
    WhereBound(pool, entry, chains, where);
    hide ChainOk;
    ChainChanged(pool, entry, chains, where, pool', b, x, chain, where[x := b], x);
  }

  lemma {:induction false} WhereBound(pool: seq<TreeNode>, entry: seq<nat>, chains: seq<seq<nat>>, where: Where)
    requires ChainsOk(pool, entry, chains, where)
    ensures forall x :: x in where ==> x < |pool| && where[x] < ENTRIES
  {
  }

  lemma {:induction false} BreakOk(pool: seq<TreeNode>, entry: seq<nat>, chains: seq<seq<nat>>, where: Where,
                                   index: map<Key, nat>, k: Key, i: nat)
    requires ChainsOk(pool, entry, chains, where) && IndexOk(pool, where, index) && k in index
    requires Bucket(k) < |chains| && i < |chains[Bucket(k)]| && chains[Bucket(k)][i] == index[k]
    ensures var x := index[k];
            Bucket(k) < |entry| && x < |pool| && (pool[x].prev != EMPTY_NODE ==> pool[x].prev < |pool|) &&
            (pool[x].next != EMPTY_NODE ==> pool[x].next < |pool|)
    ensures var b, x := Bucket(k), index[k];
            var pool' := Broken(pool, x);
            ChainsOk(pool', entry[b := if entry[b] == x then pool[x].next else entry[b]],
                     chains[b := WithoutAt(chains[b], i)], where - {x}) &&
            IndexOk(pool', where - {x}, index - {k})
  {
    var b, x := Bucket(k), index[k];
    hide *;
    ChainFacts(pool, entry, chains, where, b);
    LinkedBreak(pool, entry[b], chains[b], i);
    BreakKeeps(pool, entry[b], chains[b], i);
    var pool', chain := Broken(pool, x), WithoutAt(chains[b], i);
    IndexShrinks(pool, pool', where, index, k);
    WithoutFacts(chains[b], i);
    var head := if entry[b] == x then pool[x].next else entry[b];
    WhereBound(pool, entry, chains, where);
    LeavesChain(pool', head, chains[b], chain, where, b, x);
    ChainChanged(pool, entry, chains, where, pool', b, head, chain, where - {x}, x);
  }

  lemma {:induction false} LeavesChain(pool: seq<TreeNode>, head: nat, before: seq<nat>, chain: seq<nat>, where: Where,
                                       b: nat, x: nat)
    requires Linked(pool, head, chain) && NoDup(chain) && x in where && where[x] == b
    requires forall y :: y in before <==> y in where && where[y] == b
    requires forall y :: y in chain <==> y in before && y != x
    ensures ChainOk(pool, head, chain, where - {x}, b) && SameElsewhere(where, where - {x}, b)
  {
    hide Linked, NoDup;
  }

  lemma {:induction false} WithoutFacts(chain: seq<nat>, i: nat)
    requires NoDup(chain) && i < |chain|
    ensures NoDup(WithoutAt(chain, i)) && forall y :: y in WithoutAt(chain, i) <==> y in chain && y != chain[i]
  {
    var shorter := WithoutAt(chain, i);
    forall y | y in chain && y != chain[i] ensures y in shorter {
      var j :| 0 <= j < |chain| && chain[j] == y;
      assert shorter[if j < i then j else j - 1] == y;
    }
  }

  // ----- the tree's index

  class Index {
    var pool: seq<TreeNode>
    var entry: seq<nat>
    ghost var chains: seq<seq<nat>>
    ghost var where: Where
    ghost var index: map<Key, nat>

    ghost predicate Valid()
      reads this
    {
      ChainsOk(pool, entry, chains, where) && IndexOk(pool, where, index)
    }

    constructor (nodes: nat)
      requires nodes < EMPTY_NODE
      ensures Valid() && index == map[] && |pool| == nodes
    {
      pool := seq(nodes, _ => TreeNode(0, 0, EMPTY_NODE, EMPTY_NODE));
      entry := seq(ENTRIES, _ => EMPTY_NODE);
      chains := seq(ENTRIES, _ => []);
      where, index := map[], map[];
    }

    /** Enter a node at the head of the chain of its key. */
    method InsertToEntry(kind: Kind, x: nat)
      requires Valid() && x < |pool| && x !in where && NodeKey(kind, pool[x]) !in index
      modifies this
      ensures |pool| == |old(pool)| && NodeKey(kind, pool[x]) == old(NodeKey(kind, pool[x]))
      ensures Valid() && index == old(index)[NodeKey(kind, pool[x]) := x]
      ensures where.Keys == old(where).Keys + {x}
    {
      ghost var k := NodeKey(kind, pool[x]);
      KeyIsItself(kind, pool[x]);
      InsertOk(pool, entry, chains, where, index, k, x);
      var b := Bucket(NodeKey(kind, pool[x]));
      hide ChainsOk, IndexOk, Bucket, Linked;
      var head := entry[b];
      PushData(pool, head, x);
      chains := chains[b := [x] + chains[b]];
      where, index := where[x := b], index[k := x];
      pool := pool[x := pool[x].(next := head, prev := EMPTY_NODE)];
      if head != EMPTY_NODE {
        pool := pool[head := pool[head].(prev := x)];
      }
      entry := entry[b := x];
    }

    /** Take a node out of its chain. */
    method BreakFromEntry(kind: Kind, x: nat)
      requires Valid() && x < |pool| && NodeKey(kind, pool[x]) in index && index[NodeKey(kind, pool[x])] == x
      modifies this
      ensures Valid() && index == old(index) - {old(NodeKey(kind, pool[x]))} && where == old(where) - {x}
      ensures |pool| == |old(pool)|
    {
      hide *;
      ValidIs();
      ghost var k := NodeKey(kind, pool[x]);
      KeyIsItself(kind, pool[x]);
      var b := Bucket(NodeKey(kind, pool[x]));
      ghost var i := Position(k);
      BreakOk(pool, entry, chains, where, index, k, i);
      var node := pool[x];
      ghost var pool0 := pool;
      if node.prev != EMPTY_NODE {
        pool := pool[node.prev := pool[node.prev].(next := node.next)];
      }
      ghost var pool1 := pool;
      if node.next != EMPTY_NODE {
        pool := pool[node.next := pool[node.next].(prev := node.prev)];
      }
      BrokenIs(pool0, x, pool1, pool);
      assert entry[b := entry[b]] == entry;
      if entry[b] == x {
        entry := entry[b := node.next];
      }
      chains := chains[b := WithoutAt(chains[b], i)];
      where, index := where - {x}, index - {k};
      ValidIs();
    }

    lemma ValidIs()
      ensures Valid() <==> ChainsOk(pool, entry, chains, where) && IndexOk(pool, where, index)
    {
    }

    /** Position of a key's node in its chain. */
    ghost function Position(k: Key): (i: nat)
      requires Valid() && k in index
      reads this
      ensures Bucket(k) < |chains| && i < |chains[Bucket(k)]| && chains[Bucket(k)][i] == index[k]
    {
      ChainFacts(pool, entry, chains, where, Bucket(k));
      var i :| 0 <= i < |chains[Bucket(k)]| && chains[Bucket(k)][i] == index[k];
      i
    }

    /** The node of a key, or EMPTY_NODE. */
    method Find(kind: Kind, parent: nat, serial: nat) returns (x: nat)
      requires Valid()
      ensures var k := KeyOf(kind, parent, serial);
              if k in index then x == index[k] else x == EMPTY_NODE
    {
      ghost var k := KeyOf(kind, parent, serial);
      var b := Bucket(KeyOf(kind, parent, serial));
      ChainFacts(pool, entry, chains, where, b);
      BucketKind(k);
      ghost var chain, i := chains[b], 0;
      x := entry[b];
      while x != EMPTY_NODE
        invariant i <= |chain| && x == (if i < |chain| then chain[i] else EMPTY_NODE)
        invariant forall j :: 0 <= j < i ==> NodeKey(kind, pool[chain[j]]) != k
        decreases |chain| - i
      {
        assert chain[i] in chain;
        if NodeKey(kind, pool[x]) == KeyOf(kind, parent, serial) {
          return;
        }
        x := pool[x].next;
        i := i + 1;
      }
    }

    /** A directory or file gets a new parent: its key, and so its chain, stays. */
    method SetParent(kind: Kind, x: nat, parent: nat)
      requires Valid() && kind != Data && x < |pool| && NodeKey(kind, pool[x]) in index &&
               index[NodeKey(kind, pool[x])] == x
      modifies this`pool
      ensures Valid() && NodeKey(kind, pool[x]) == old(NodeKey(kind, pool[x])) && |pool| == |old(pool)|
      ensures pool == old(pool)[x := old(pool)[x].(parent := parent)]
    {
      NewParentOk(pool, entry, chains, where, index, NodeKey(kind, pool[x]), x, parent);
      pool := pool[x := pool[x].(parent := parent)];
    }
  }

  lemma {:induction false} KeyIsItself(kind: Kind, n: TreeNode)
    ensures NodeKey(NodeKey(kind, n).kind, n) == NodeKey(kind, n)
  {
  }

  lemma {:induction false} PushData(pool: seq<TreeNode>, head: nat, x: nat)
    requires x < |pool| && (head != EMPTY_NODE ==> head < |pool|)
    ensures SameData(Pushed(pool, head, x)[x], pool[x])
  {
  }

  lemma {:induction false} BrokenIs(pool: seq<TreeNode>, x: nat, pool1: seq<TreeNode>, pool2: seq<TreeNode>)
    requires x < |pool| && (pool[x].prev != EMPTY_NODE ==> pool[x].prev < |pool|) &&
             (pool[x].next != EMPTY_NODE ==> pool[x].next < |pool|)
    requires pool1 == if pool[x].prev != EMPTY_NODE then pool[pool[x].prev := pool[pool[x].prev].(next := pool[x].next)]
             else pool
    requires pool2 == if pool[x].next == EMPTY_NODE then pool1
                      else pool1[pool[x].next := pool1[pool[x].next].(prev := pool[x].prev)]
    ensures pool2 == Broken(pool, x) && |pool2| == |pool|
  {
  }

  lemma {:induction false} NewParentOk(pool: seq<TreeNode>, entry: seq<nat>, chains: seq<seq<nat>>, where: Where,
                                       index: map<Key, nat>, k: Key, x: nat, parent: nat)
    requires ChainsOk(pool, entry, chains, where) && IndexOk(pool, where, index)
    requires k.kind != Data && k in index && index[k] == x < |pool|
    ensures var pool' := pool[x := pool[x].(parent := parent)];
            ChainsOk(pool', entry, chains, where) && IndexOk(pool', where, index)
  {
    var pool' := pool[x := pool[x].(parent := parent)];
    forall b | 0 <= b < ENTRIES ensures ChainOk(pool', entry[b], chains[b], where, b) {
      assert ChainOk(pool, entry[b], chains[b], where, b);
      LinkedFrame(pool, pool', entry[b], chains[b]);
    }
    BucketKind(k);
    hide Bucket, KindOf, ChainOk;
    forall j | j in index && index[j] == x ensures j.kind == k.kind {
      KindsAgree(j, k, where, index);
    }
  }
}

/** The steps an operation takes with the blocks of the device, each keeping one owner per block. */
module StoreSteps {
  import opened Chains
  import opened FlashModel
  import opened LogicalBlock
  import opened DeviceState

  /** The block of an object is rewritten. */
  lemma {:induction false} RewriteNode(flash: Flash, tree: TreeSt, owner: map<nat, Owner>, g: Geometry,
                                       typeOf: Obj -> nat, o: Obj, b: Block)
    requires StoreOk(flash, tree, owner, g, typeOf) && o in tree.nodes && BlockOk(b, g, typeOf(o), o)
    ensures StoreOk(flash[tree.nodes[o] := b], tree, owner, g, typeOf)
  {
    hide ErasedListOk, BadListOk, NodesOk, BlockOk;
    RewriteKeepsNodes(flash, tree, owner, g, typeOf, o, b);
    RewriteKeepsLists(flash, tree, owner, g, tree.nodes[o], b);
  }

  lemma {:induction false} RewriteKeepsNodes(flash: Flash, tree: TreeSt, owner: map<nat, Owner>, g: Geometry,
                                             typeOf: Obj -> nat, o: Obj, b: Block)
    requires NodesOk(flash, tree, owner, g, typeOf) && o in tree.nodes && BlockOk(b, g, typeOf(o), o)
    ensures tree.nodes[o] in flash && tree.nodes[o] in owner && owner[tree.nodes[o]] == InNode(o)
    ensures |b| == g.pages && NodesOk(flash[tree.nodes[o] := b], tree, owner, g, typeOf)
  {
    hide BlockOk;
    PagesOf(b, g, typeOf(o), o);
  }

  lemma {:induction false} PagesOf(b: Block, g: Geometry, ty: nat, o: Obj)
    requires BlockOk(b, g, ty, o)
    ensures |b| == g.pages
  {
    hide Used, PageOk;
  }

  lemma {:induction false} RewriteKeepsLists(flash: Flash, tree: TreeSt, owner: map<nat, Owner>, g: Geometry, x: nat,
                                             b: Block)
    requires ErasedListOk(flash, tree, owner, g) && BadListOk(flash, tree, owner)
    requires x in owner && owner[x].InNode?
    ensures ErasedListOk(flash[x := b], tree, owner, g) && BadListOk(flash[x := b], tree, owner)
  {
    hide BlockErased, NoDup;
  }

  /** A block in hand is written or erased. */
  lemma {:induction false} RewriteTaken(flash: Flash, tree: TreeSt, owner: map<nat, Owner>, g: Geometry,
                                        typeOf: Obj -> nat, nb: nat, b: Block)
    requires StoreOk(flash, tree, owner, g, typeOf) && nb in owner && owner[nb] == Taken && |b| == g.pages
    ensures StoreOk(flash[nb := b], tree, owner, g, typeOf)
  {
    hide BlockOk, BlockErased;
  }

  /** The first erased block is taken. */
  lemma {:induction false} TakeErased(flash: Flash, tree: TreeSt, owner: map<nat, Owner>, g: Geometry,
                                      typeOf: Obj -> nat)
    requires StoreOk(flash, tree, owner, g, typeOf) && tree.erased != []
    ensures tree.erased[0] in flash && BlockErased(flash[tree.erased[0]], g)
    ensures tree.erased[0] in owner && owner[tree.erased[0]] == InErased
    ensures StoreOk(flash, tree.(erased := tree.erased[1..]), owner[tree.erased[0] := Taken], g, typeOf)
  {
    hide BlockOk, BlockErased;
    var b := tree.erased[0];
    assert forall x :: x in tree.erased <==> x == b || x in tree.erased[1..];
    assert b !in tree.erased[1..];
  }

  /** An erased block in hand joins the tail of the erased list. */
  lemma {:induction false} GiveErased(flash: Flash, tree: TreeSt, owner: map<nat, Owner>, g: Geometry,
                                      typeOf: Obj -> nat, b: nat)
    requires StoreOk(flash, tree, owner, g, typeOf) && b in owner && owner[b] == Taken && BlockErased(flash[b], g)
    ensures StoreOk(flash, tree.(erased := tree.erased + [b]), owner[b := InErased], g, typeOf)
  {
    hide BlockOk, BlockErased;
  }

  /** A block in hand joins the bad list. */
  lemma {:induction false} GiveBad(flash: Flash, tree: TreeSt, owner: map<nat, Owner>, g: Geometry,
                                   typeOf: Obj -> nat, b: nat)
    requires StoreOk(flash, tree, owner, g, typeOf) && b in owner && owner[b] == Taken
    ensures StoreOk(flash, tree.(bad := [b] + tree.bad), owner[b := InBad], g, typeOf)
  {
    hide BlockOk, BlockErased;
  }

  /** The object's node now points at the block in hand, and its old block is in hand. */
  lemma {:induction false} SwapNode(flash: Flash, tree: TreeSt, owner: map<nat, Owner>, g: Geometry,
                                    typeOf: Obj -> nat, o: Obj, nb: nat)
    requires StoreOk(flash, tree, owner, g, typeOf) && o in tree.nodes
    requires nb in owner && owner[nb] == Taken && BlockOk(flash[nb], g, typeOf(o), o)
    ensures StoreOk(flash, tree.(nodes := tree.nodes[o := nb]), owner[nb := InNode(o)][tree.nodes[o] := Taken], g,
                    typeOf)
  {
    hide BlockOk, BlockErased;
  }

  lemma {:induction false} InsertNode(flash: Flash, tree: TreeSt, owner: map<nat, Owner>, g: Geometry,
                                      typeOf: Obj -> nat, o: Obj, nb: nat)
    requires StoreOk(flash, tree, owner, g, typeOf) && o !in tree.nodes
    requires nb in owner && owner[nb] == Taken && BlockOk(flash[nb], g, typeOf(o), o)
    ensures StoreOk(flash, tree.(nodes := tree.nodes[o := nb]), owner[nb := InNode(o)], g, typeOf)
  {
    hide BlockOk, BlockErased;
  }
}

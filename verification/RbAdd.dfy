/**
 Ordered insertion and lookup: rb_link_node, rb_add, rb_find_add, rb_find, rb_find_first.
 */
module RbAdd {
  import opened RbTree
  import opened RbBalance
  import opened RbInsert

  ghost predicate StrictWeakOrder(less: (RbNode, RbNode) -> bool, nodes: set<RbNode>) {
    && (forall a, b :: a in nodes && b in nodes && less(a, b) ==> !less(b, a))
    && (forall a, b, c :: a in nodes && b in nodes && c in nodes && less(a, b) ==> less(a, c) || less(c, b))
  }

  ghost predicate SortedBy(less: (RbNode, RbNode) -> bool, s: seq<RbNode>) {
    forall i, j :: 0 <= i < j < |s| ==> !less(s[j], s[i])
  }

  /** The sign of the comparison with a fixed key does not grow along the sequence. */
  ghost predicate Directed(cmp: RbNode -> int, s: seq<RbNode>) {
    && (forall i, j :: 0 <= i < j < |s| && cmp(s[i]) <= 0 ==> cmp(s[j]) <= 0)
    && (forall i, j :: 0 <= i < j < |s| && cmp(s[i]) < 0 ==> cmp(s[j]) < 0)
  }

  /** Where the root of a subtree and its children stand in the whole in-order sequence. */
  lemma StepDown(ctx: Ctx, t: Tree, s: seq<RbNode>)
    requires t.Node? && s == Inorder(Plug(ctx, t))
    ensures var k := |Before(ctx)| + |Inorder(t.left)|;
      && k < |s| && s[k] == t.item && |s| == |Before(ctx)| + |Inorder(t)| + |After(ctx)|
      && |Before(In(L, t.item, t.color, t.aug, t.right, ctx))| == |Before(ctx)|
      && |After(In(L, t.item, t.color, t.aug, t.right, ctx))| == |s| - k
      && |Before(In(R, t.item, t.color, t.aug, t.left, ctx))| == k + 1
      && |After(In(R, t.item, t.color, t.aug, t.left, ctx))| == |After(ctx)|
  {
    PlugInorder(ctx, t);
  }

  /** The zipper moved to a child. */
  ghost function Down(ctx: Ctx, t: Tree, s: Side): Ctx
    requires t.Node?
  {
    In(s, t.item, t.color, t.aug, t.Kid(s.Opp()), ctx)
  }

  lemma DownLocated(top: RbNode?, ctx: Ctx, t: Tree, s: Side)
    requires Located(top, null, ctx, t) && t.Node?
    ensures Located(top, null, Down(ctx, t, s), t.Kid(s))
    ensures Plug(Down(ctx, t, s), t.Kid(s)) == Plug(ctx, t)
    ensures t.item.Child(s) == Link(t.Kid(s))
  {
    KidsOf(s, t);
    LocatedStep(top, null, Down(ctx, t, s), t.Kid(s));
  }

  /** rb_link_node: a new red leaf in the empty link described by `ctx`. */
  method LinkNode(root: RbRoot, node: RbNode, parent: RbNode?, side: Side, ghost ctx: Ctx)
    returns (ghost t: Tree)
    requires Located(root.node, null, ctx, Leaf) && node !in CtxNodes(ctx)
    requires parent == HoleOwner(ctx, null) && (ctx.In? ==> side == ctx.side)
    modifies root`node, node, CtxNodes(ctx)
    ensures t == Node(Leaf, node, Red, node.augmented, Leaf) && node.augmented == old(node.augmented)
    ensures Located(root.node, null, ctx, t)
  {
    node.parent, node.color := parent, Red;
    node.left, node.right := null, null;
    if parent == null { root.node := node; }
    else if side == L { parent.left := node; }
    else { parent.right := node; }
    t := Node(Leaf, node, Red, node.augmented, Leaf);
  }

  ghost predicate InsertedAt(s: seq<RbNode>, s0: seq<RbNode>, node: RbNode, k: nat) {
    k <= |s0| && s == s0[..k] + [node] + s0[k..]
  }

  /** Link a new node in an empty link of a valid tree and rebalance. */
  method LinkAndBalance(root: RbRoot, node: RbNode, parent: RbNode?, side: Side, ghost ctx: Ctx)
    requires root.Valid() && Plug(ctx, Leaf) == root.tree && node !in Nodes(root.tree)
    requires Located(root.node, null, ctx, Leaf)
    requires parent == HoleOwner(ctx, null) && (ctx.In? ==> side == ctx.side)
    modifies root, node, Nodes(root.tree)
    ensures root.Valid()
    ensures InsertedAt(Inorder(root.tree), old(Inorder(root.tree)), node, |Before(ctx)|)
    ensures Nodes(root.tree) == old(Nodes(root.tree)) + {node}
    ensures node.augmented == old(node.augmented)
    ensures old(allocated(Nodes(root.tree))) && forall x :: x in old(Nodes(root.tree)) ==> x.augmented == old(x.augmented)
  {
    hide Repr, PathRepr, Inorder, Before, After, Plug, Fields, CtxFields;
    assert allocated(Nodes(root.tree));
    FieldsStored(root.node, null, root.tree);
    PlugNodes(ctx, Leaf);
    ghost var h := UnplugRb(ctx, Leaf);
    ghost var t := LinkNode(root, node, parent, side, ctx);
    PlugNodes(ctx, t);
    LinkedOrder(ctx, node, t.aug);
    LinkedFields(ctx, node, t.aug);
    ghost var t1 := InsertColor(root, node, false, ctx, t, 0);
    root.tree := t1;
    FieldsStored(root.node, null, t1);
  }

  lemma LinkedFields(ctx: Ctx, node: RbNode, aug: int)
    ensures Fields(Plug(ctx, Node(Leaf, node, Red, aug, Leaf))) == Fields(Plug(ctx, Leaf)) + {(node, aug)}
  {
    PlugFields(ctx, Leaf);
    PlugFields(ctx, Node(Leaf, node, Red, aug, Leaf));
  }

  /** A leaf in a hole stands between what precedes and what follows the hole. */
  lemma LinkedOrder(ctx: Ctx, node: RbNode, aug: int)
    ensures InsertedAt(Inorder(Plug(ctx, Node(Leaf, node, Red, aug, Leaf))), Inorder(Plug(ctx, Leaf)), node, |Before(ctx)|)
  {
    PlugInorder(ctx, Leaf);
    PlugInorder(ctx, Node(Leaf, node, Red, aug, Leaf));
  }

  /** A zipper on the tree of `root`; `s` is that tree's in-order sequence. */
  ghost predicate At(root: RbRoot, ctx: Ctx, t: Tree)
    reads root, CtxNodes(ctx), Nodes(t)
  {
    Plug(ctx, t) == root.tree && Located(root.node, null, ctx, t)
  }

  lemma AtTop(root: RbRoot)
    requires root.Valid()
    ensures At(root, Top, root.tree) && Before(Top) == [] && After(Top) == []
  {
    LocatedPlug(root.node, null, Top, root.tree);
  }

  lemma AtLeaf(root: RbRoot, ctx: Ctx)
    requires At(root, ctx, Leaf)
    ensures |Inorder(root.tree)| == |Before(ctx)| + |After(ctx)|
  {
    PlugInorder(ctx, Leaf);
  }

  lemma AtNode(root: RbRoot, ctx: Ctx, t: Tree, side: Side)
    requires At(root, ctx, t) && t.Node?
    ensures At(root, Down(ctx, t, side), t.Kid(side)) && t.item.Child(side) == Link(t.Kid(side))
    ensures var s, k := Inorder(root.tree), |Before(ctx)| + |Inorder(t.left)|;
      && t.item in Nodes(root.tree)
      && k + |After(ctx)| < |s| && s[k] == t.item
      && |Before(Down(ctx, t, side))| == (if side == L then |Before(ctx)| else k + 1)
      && |After(Down(ctx, t, side))| == (if side == L then |s| - k else |After(ctx)|)
  {
    StepDown(ctx, t, Inorder(root.tree));
    DownLocated(root.node, ctx, t, side);
    PlugNodes(ctx, t);
  }

  /** The descent of rb_add: the empty link where the new node belongs. */
  method FindSlot(root: RbRoot, node: RbNode, less: (RbNode, RbNode) -> bool)
    returns (parent: RbNode?, side: Side, ghost ctx: Ctx)
    requires root.Valid() && node !in Nodes(root.tree)
    requires StrictWeakOrder(less, Nodes(root.tree) + {node}) && SortedBy(less, Inorder(root.tree))
    ensures At(root, ctx, Leaf) && parent == HoleOwner(ctx, null) && (ctx.In? ==> side == ctx.side)
    ensures |Before(ctx)| + |After(ctx)| == |Inorder(root.tree)|
    ensures forall i :: 0 <= i < |Before(ctx)| ==> !less(node, Inorder(root.tree)[i])
    ensures forall i :: |Before(ctx)| <= i < |Inorder(root.tree)| ==> less(node, Inorder(root.tree)[i])
  {
    hide Repr, Located, Rb, Inorder, Plug, Before, After, Nodes, CtxNodes;
    ghost var s0 := Inorder(root.tree);
    ghost var t := root.tree;
    ctx, parent, side := Top, null, L;
    var link := root.node;
    InorderNodes(root.tree);
    AtTop(root);
    while link != null
      invariant At(root, ctx, t)
      invariant link == Link(t) && parent == HoleOwner(ctx, null) && (ctx.In? ==> side == ctx.side)
      invariant forall i :: 0 <= i < |Before(ctx)| ==> i < |s0| && !less(node, s0[i])
      invariant forall i :: |s0| - |After(ctx)| <= i < |s0| ==> 0 <= i && less(node, s0[i])
      decreases t
    {
      parent := link;
      side := if less(node, parent) then L else R;
      AtNode(root, ctx, t, side);
      link := parent.Child(side);
      ctx, t := Down(ctx, t, side), t.Kid(side);
    }
    AtLeaf(root, ctx);
  }

  /** rb_add: after all the nodes that are not greater than the new one. */
  method Add(root: RbRoot, node: RbNode, less: (RbNode, RbNode) -> bool) returns (ghost k: nat)
    requires root.Valid() && node !in Nodes(root.tree)
    requires StrictWeakOrder(less, Nodes(root.tree) + {node}) && SortedBy(less, Inorder(root.tree))
    modifies root, node, Nodes(root.tree)
    ensures root.Valid() && SortedBy(less, Inorder(root.tree))
    ensures InsertedAt(Inorder(root.tree), old(Inorder(root.tree)), node, k)
    ensures forall i :: 0 <= i < k ==> !less(node, old(Inorder(root.tree))[i])
    ensures forall i :: k <= i < |old(Inorder(root.tree))| ==> less(node, old(Inorder(root.tree))[i])
    ensures Nodes(root.tree) == old(Nodes(root.tree)) + {node}
    ensures node.augmented == old(node.augmented)
    ensures old(allocated(Nodes(root.tree))) && forall x :: x in old(Nodes(root.tree)) ==> x.augmented == old(x.augmented)
  {
    hide Repr, PathRepr, Rb, Inorder, Nodes;
    InorderNodes(root.tree);
    ghost var s0 := Inorder(root.tree);
    assert allocated(Nodes(root.tree));
    var parent, side, ctx := FindSlot(root, node, less);
    k := |Before(ctx)|;
    LinkAndBalance(root, node, parent, side, ctx);
    SortedInsert(less, Inorder(root.tree), s0, node, k);
  }

  lemma SortedInsert(less: (RbNode, RbNode) -> bool, s: seq<RbNode>, s0: seq<RbNode>, node: RbNode, k: nat)
    requires InsertedAt(s, s0, node, k) && SortedBy(less, s0)
    requires forall i :: 0 <= i < k ==> !less(node, s0[i])
    requires forall i :: k <= i < |s0| ==> !less(s0[i], node)
    ensures SortedBy(less, s)
  {
  }

  /** The descent of rb_find_add: a node comparing equal, or the empty link. */
  method FindSlotOrEqual(root: RbRoot, cmp: RbNode -> int)
    returns (r: RbNode?, parent: RbNode?, side: Side, ghost ctx: Ctx)
    requires root.Valid() && Directed(cmp, Inorder(root.tree))
    ensures r != null ==> r in Nodes(root.tree) && cmp(r) == 0
    ensures r == null ==>
      && At(root, ctx, Leaf) && parent == HoleOwner(ctx, null) && (ctx.In? ==> side == ctx.side)
      && |Before(ctx)| + |After(ctx)| == |Inorder(root.tree)|
      && (forall i :: 0 <= i < |Before(ctx)| ==> cmp(Inorder(root.tree)[i]) > 0)
      && (forall i :: |Before(ctx)| <= i < |Inorder(root.tree)| ==> cmp(Inorder(root.tree)[i]) < 0)
  {
    hide Repr, Located, Rb, Inorder, Plug, Before, After, Nodes, CtxNodes;
    ghost var s0 := Inorder(root.tree);
    ghost var t := root.tree;
    ctx, parent, side, r := Top, null, L, null;
    var link := root.node;
    AtTop(root);
    while link != null
      invariant At(root, ctx, t)
      invariant link == Link(t) && parent == HoleOwner(ctx, null) && (ctx.In? ==> side == ctx.side)
      invariant forall i :: 0 <= i < |Before(ctx)| ==> i < |s0| && cmp(s0[i]) > 0
      invariant forall i :: |s0| - |After(ctx)| <= i < |s0| ==> 0 <= i && cmp(s0[i]) < 0
      decreases t
    {
      parent := link;
      var c := cmp(parent);
      side := if c < 0 then L else R;
      AtNode(root, ctx, t, side);
      if c == 0 { return parent, parent, side, ctx; }
      link := parent.Child(side);
      ctx, t := Down(ctx, t, side), t.Kid(side);
    }
    AtLeaf(root, ctx);
  }

  /** rb_find_add: the node comparing equal, or null after inserting the new one. `cmp` is the
      caller's comparison with the new node as its first argument. */
  method FindAdd(root: RbRoot, node: RbNode, cmp: RbNode -> int) returns (r: RbNode?, ghost k: nat)
    requires root.Valid() && node !in Nodes(root.tree)
    requires Directed(cmp, Inorder(root.tree))
    modifies root, node, Nodes(root.tree)
    ensures root.Valid()
    ensures r != null ==> r in old(Nodes(root.tree)) && cmp(r) == 0 && root.tree == old(root.tree)
    ensures r == null ==> InsertedAt(Inorder(root.tree), old(Inorder(root.tree)), node, k)
    ensures r == null ==> forall i :: 0 <= i < k ==> cmp(old(Inorder(root.tree))[i]) > 0
    ensures r == null ==>
      forall i :: k <= i < |old(Inorder(root.tree))| ==> cmp(old(Inorder(root.tree))[i]) < 0
    ensures node.augmented == old(node.augmented)
    ensures old(allocated(Nodes(root.tree))) && forall x :: x in old(Nodes(root.tree)) ==> x.augmented == old(x.augmented)
  {
    hide Repr, PathRepr, Rb, Inorder, Nodes;
    var parent, side;
    ghost var ctx;
    assert allocated(Nodes(root.tree));
    r, parent, side, ctx := FindSlotOrEqual(root, cmp);
    k := |Before(ctx)|;
    if r == null { LinkAndBalance(root, node, parent, side, ctx); }
  }

  /** rb_find: a node comparing equal to the key, or null exactly when there is none. */
  method Find(root: RbRoot, cmp: RbNode -> int) returns (r: RbNode?)
    requires root.Valid() && Directed(cmp, Inorder(root.tree))
    ensures r != null ==> r in Nodes(root.tree) && cmp(r) == 0
    ensures r == null ==> forall i :: 0 <= i < |Inorder(root.tree)| ==> cmp(Inorder(root.tree)[i]) != 0
  {
    hide Repr, Located, Rb, Inorder, Plug, Before, After, Nodes, CtxNodes;
    ghost var s0 := Inorder(root.tree);
    ghost var ctx, t := Top, root.tree;
    var node := root.node;
    AtTop(root);
    while node != null
      invariant At(root, ctx, t) && node == Link(t)
      invariant forall i :: 0 <= i < |Before(ctx)| ==> i < |s0| && cmp(s0[i]) > 0
      invariant forall i :: |s0| - |After(ctx)| <= i < |s0| ==> 0 <= i && cmp(s0[i]) < 0
      decreases t
    {
      var c := cmp(node);
      ghost var side := if c < 0 then L else R;
      AtNode(root, ctx, t, side);
      if c < 0 { node := node.left; }
      else if c > 0 { node := node.right; }
      else { return node; }
      ctx, t := Down(ctx, t, side), t.Kid(side);
    }
    AtLeaf(root, ctx);
    return null;
  }

  /** rb_find_first: the first, in order, of the nodes comparing equal to the key. */
  method FindFirst(root: RbRoot, cmp: RbNode -> int) returns (r: RbNode?, ghost k: nat)
    requires root.Valid() && Directed(cmp, Inorder(root.tree))
    ensures k <= |Inorder(root.tree)|
    ensures forall i :: 0 <= i < k ==> cmp(Inorder(root.tree)[i]) > 0
    ensures r != null ==> k < |Inorder(root.tree)| && r == Inorder(root.tree)[k] && cmp(r) == 0
    ensures r == null ==> forall i :: k <= i < |Inorder(root.tree)| ==> cmp(Inorder(root.tree)[i]) < 0
  {
    hide Repr, Located, Rb, Inorder, Plug, Before, After, Nodes, CtxNodes;
    ghost var s0 := Inorder(root.tree);
    ghost var ctx, t := Top, root.tree;
    var node := root.node;
    r := null;
    AtTop(root);
    while node != null
      invariant At(root, ctx, t) && node == Link(t) && |After(ctx)| <= |s0|
      invariant forall i :: 0 <= i < |Before(ctx)| ==> i < |s0| && cmp(s0[i]) > 0
      invariant r == null ==> forall i :: |s0| - |After(ctx)| <= i < |s0| ==> cmp(s0[i]) < 0
      invariant r != null ==> |After(ctx)| > 0 && r == s0[|s0| - |After(ctx)|] && cmp(r) == 0
      decreases t
    {
      var c := cmp(node);
      ghost var side := if c <= 0 then L else R;
      AtNode(root, ctx, t, side);
      if c <= 0 {
        if c == 0 { r := node; }
        node := node.left;
      } else {
        node := node.right;
      }
      ctx, t := Down(ctx, t, side), t.Kid(side);
    }
    AtLeaf(root, ctx);
    k := |Before(ctx)|;
  }
}

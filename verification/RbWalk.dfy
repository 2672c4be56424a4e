/**
 Walking a tree: rb_first, rb_last, rb_next, rb_prev, rb_next_match and rb_for_each.
 rb_next and rb_prev are mirror images: `Step` walks towards side `s`.
 */
module RbWalk {
  import opened RbTree
  import opened RbBalance
  import opened RbInsert
  import opened RbAdd

  /** rb_first (towards L) and rb_last (towards R). */
  method Extreme(root: RbRoot, s: Side) returns (r: RbNode?)
    requires root.Valid()
    ensures var q := Inorder(root.tree);
      r == if |q| == 0 then null else if s == L then q[0] else q[|q| - 1]
  {
    hide Repr, Located, Rb, Plug, Before, After, Nodes, CtxNodes;
    AtTop(root);
    ghost var ctx, t := Top, root.tree;
    r := root.node;
    if r == null { return; }
    AtNode(root, ctx, t, s);
    while r.Child(s) != null
      invariant At(root, ctx, t) && t.Node? && r == t.item
      invariant if s == L then |Before(ctx)| == 0 else |After(ctx)| == 0
      invariant r.Child(s) == Link(t.Kid(s))
      decreases t
    {
      AtNode(root, ctx, t, s);
      r := r.Child(s);
      ctx, t := Down(ctx, t, s), t.Kid(s);
      AtNode(root, ctx, t, s);
    }
    AtRoot(root, ctx, t);
  }

  /** Position of the focused node. */
  lemma AtRoot(root: RbRoot, ctx: Ctx, t: Tree)
    requires At(root, ctx, t) && t.Node?
    ensures var s, k := Inorder(root.tree), |Before(ctx)| + |Inorder(t.left)|;
      && |s| == k + 1 + |Inorder(t.right)| + |After(ctx)| && s[k] == t.item
      && t.item.left == Link(t.left) && t.item.right == Link(t.right)
      && t.item.parent == HoleOwner(ctx, null) && t.item !in CtxNodes(ctx)
  {
    StepDown(ctx, t, Inorder(root.tree));
    DownLocated(root.node, ctx, t, L);
    DownLocated(root.node, ctx, t, R);
  }

  /** The zipper moved to the owner of the hole. */
  ghost function Up(ctx: Ctx, t: Tree): Tree
    requires ctx.In?
  {
    Mk(ctx.side, t, ctx.item, ctx.color, ctx.aug, ctx.sib)
  }

  lemma AtUp(root: RbRoot, ctx: Ctx, t: Tree)
    requires At(root, ctx, t) && ctx.In?
    ensures At(root, ctx.up, Up(ctx, t))
    ensures ctx.item.Child(ctx.side) == Link(t) && ctx.item.Child(ctx.side.Opp()) == Link(ctx.sib)
    ensures t.Node? ==> Link(ctx.sib) != t.item
    ensures |Inorder(Up(ctx, t))| == |Inorder(t)| + 1 + |Inorder(ctx.sib)|
    ensures ctx.side == L ==> |Before(ctx.up)| == |Before(ctx)| && |After(ctx)| == 1 + |Inorder(ctx.sib)| + |After(ctx.up)|
    ensures ctx.side == R ==> |After(ctx.up)| == |After(ctx)| && |Before(ctx)| == |Before(ctx.up)| + |Inorder(ctx.sib)| + 1
  {
    LocatedStep(root.node, null, ctx, t);
    LocatedFields(root.node, null, ctx, t);
    MkInorder(ctx.side, t, ctx.item, ctx.color, ctx.aug, ctx.sib);
  }

  /** The node `k` places from the start has exactly one zipper position. */
  lemma Locate(root: RbRoot, node: RbNode, k: nat) returns (ctx: Ctx, t: Tree)
    requires root.Valid() && k < |Inorder(root.tree)| && Inorder(root.tree)[k] == node
    ensures At(root, ctx, t) && t.Node? && t.item == node
    ensures |Before(ctx)| + |Inorder(t.left)| == k
  {
    InorderNodes(root.tree);
    ctx, t := Focus(root.tree, node, Top);
    LocatedPlug(root.node, null, ctx, t);
    AtRoot(root, ctx, t);
    InorderDistinct(root.node, null, root.tree);
  }

  /** RB_EMPTY_NODE compares the whole word: the node is its own parent and red. */
  predicate Cleared(node: RbNode)
    reads node
  {
    node.parent == node && node.color == Red
  }

  /** rb_next (towards R) and rb_prev (towards L) of the `k`-th node; null for a cleared node. */
  method Step(ghost root: RbRoot, node: RbNode, s: Side, ghost k: nat) returns (r: RbNode?)
    requires Cleared(node) ||
      (root.Valid() && k < |Inorder(root.tree)| && Inorder(root.tree)[k] == node)
    ensures Cleared(node) ==> r == null
    ensures !Cleared(node) ==>
      var q, j := Inorder(root.tree), if s == R then k + 1 else k - 1;
      r == if 0 <= j < |q| then q[j] else null
  {
    if Cleared(node) { return null; }
    if node.Child(s) != null {
      r := StepDeep(root, node, s, k);
    } else {
      r := StepClimb(root, node, s, k);
    }
  }

  /** Down to side `s`, then as far as possible the other way. */
  method StepDeep(ghost root: RbRoot, node: RbNode, s: Side, ghost k: nat) returns (r: RbNode?)
    requires root.Valid() && k < |Inorder(root.tree)| && Inorder(root.tree)[k] == node
    requires node.Child(s) != null
    ensures var q, j := Inorder(root.tree), if s == R then k + 1 else k - 1;
      0 <= j < |q| && r == q[j]
  {
    hide Repr, Located, Rb, Plug, Before, After, Nodes, CtxNodes;
    ghost var ctx, t := Locate(root, node, k);
    AtRoot(root, ctx, t);
    AtNode(root, ctx, t, s);
    r := node.Child(s);
    ctx, t := Down(ctx, t, s), t.Kid(s);
    AtNode(root, ctx, t, s.Opp());
    while r.Child(s.Opp()) != null
      invariant At(root, ctx, t) && t.Node? && r == t.item
      invariant if s == R then |Before(ctx)| == k + 1 else |Inorder(root.tree)| - |After(ctx)| == k
      invariant r.Child(s.Opp()) == Link(t.Kid(s.Opp()))
      decreases t
    {
      AtNode(root, ctx, t, s.Opp());
      r := r.Child(s.Opp());
      ctx, t := Down(ctx, t, s.Opp()), t.Kid(s.Opp());
      AtNode(root, ctx, t, s.Opp());
    }
    AtRoot(root, ctx, t);
  }

  /** Up while coming from side `s`. */
  method StepClimb(ghost root: RbRoot, node: RbNode, s: Side, ghost k: nat) returns (r: RbNode?)
    requires root.Valid() && k < |Inorder(root.tree)| && Inorder(root.tree)[k] == node
    requires node.Child(s) == null
    ensures var q, j := Inorder(root.tree), if s == R then k + 1 else k - 1;
      r == if 0 <= j < |q| then q[j] else null
  {
    hide Repr, Located, Rb, Plug, Before, After, Nodes, CtxNodes;
    ghost var ctx, t := Locate(root, node, k);
    AtRoot(root, ctx, t);
    var n := node;
    r := n.parent;
    while r != null && n == r.Child(s)
      invariant At(root, ctx, t) && t.Node? && n == t.item && r == HoleOwner(ctx, null)
      invariant if s == R then |Before(ctx)| + |Inorder(t)| == k + 1 else |Before(ctx)| == k
      decreases ctx
    {
      AtUp(root, ctx, t);
      ctx, t := ctx.up, Up(ctx, t);
      AtRoot(root, ctx, t);
      n := r;
      r := n.parent;
    }
    AtRoot(root, ctx, t);
    if r == null {
      TopSizes(ctx);
    } else {
      AtUp(root, ctx, t);
      AtRoot(root, ctx.up, Up(ctx, t));
    }
  }

  lemma TopSizes(ctx: Ctx)
    requires ctx.Top?
    ensures Before(ctx) == [] && After(ctx) == []
  {
  }

  /** Nodes of a tree are never mistaken for cleared ones. */
  lemma NotCleared(root: RbRoot, k: nat)
    requires root.Valid() && k < |Inorder(root.tree)|
    ensures !Cleared(Inorder(root.tree)[k]) && Inorder(root.tree)[k].parent != Inorder(root.tree)[k]
  {
    var node := Inorder(root.tree)[k];
    var ctx, t := Locate(root, node, k);
    AtRoot(root, ctx, t);
  }

  method First(root: RbRoot) returns (r: RbNode?)
    requires root.Valid()
    ensures r == if |Inorder(root.tree)| == 0 then null else Inorder(root.tree)[0]
  {
    r := Extreme(root, L);
  }

  method Next(ghost root: RbRoot, node: RbNode, ghost k: nat) returns (r: RbNode?)
    requires root.Valid() && k < |Inorder(root.tree)| && Inorder(root.tree)[k] == node
    ensures r == if k + 1 < |Inorder(root.tree)| then Inorder(root.tree)[k + 1] else null
  {
    NotCleared(root, k);
    r := Step(root, node, R, k);
  }

  method Prev(ghost root: RbRoot, node: RbNode, ghost k: nat) returns (r: RbNode?)
    requires root.Valid() && k < |Inorder(root.tree)| && Inorder(root.tree)[k] == node
    ensures r == if k > 0 then Inorder(root.tree)[k - 1] else null
  {
    NotCleared(root, k);
    r := Step(root, node, L, k);
  }

  /** rb_first and then rb_next until null: every node, once, in order. */
  method VisitAll(root: RbRoot) returns (out: seq<RbNode>)
    requires root.Valid()
    ensures out == Inorder(root.tree)
    ensures forall i, j :: 0 <= i < j < |out| ==> out[i] != out[j]
  {
    hide Repr, Rb, Inorder, Nodes;
    ghost var q := Inorder(root.tree);
    InorderDistinct(root.node, null, root.tree);
    assert allocated(Nodes(root.tree));
    var n := First(root);
    out := [];
    while n != null
      invariant root.Valid()
      invariant |out| <= |q| && out == q[..|out|]
      invariant n == if |out| < |q| then q[|out|] else null
      decreases |q| - |out|
    {
      out := out + [n];
      n := Next(root, n, |out| - 1);
    }
  }

  /** What hangs to the left of a node comes before it, what hangs to the right after it. */
  lemma ChildOrder(root: RbRoot, k: nat)
    requires root.Valid() && k < |Inorder(root.tree)|
    ensures var q, n := Inorder(root.tree), Inorder(root.tree)[k];
      (n.left != null ==> n.left in q[..k]) && (n.right != null ==> n.right in q[k + 1..])
  {
    hide Inorder, Plug, Before, After, Nodes, CtxNodes, Repr, Located;
    var q, n := Inorder(root.tree), Inorder(root.tree)[k];
    var ctx, t := Locate(root, n, k);
    AtRoot(root, ctx, t);
    PlugInorder(ctx, t);
    NodeParts(t);
    RootListed(t.left);
    RootListed(t.right);
    AroundItem(Before(ctx), Inorder(t.left), n, Inorder(t.right), After(ctx));
  }

  lemma RootListed(t: Tree)
    ensures t.Node? ==> t.item in Inorder(t)
  {
  }

  lemma AroundItem<T>(a: seq<T>, l: seq<T>, x: T, r: seq<T>, d: seq<T>)
    ensures var q, k := a + (l + [x] + r) + d, |a| + |l|;
      q[..k] == a + l && q[k + 1..] == r + d
  {
  }

  /** rb_next_match */
  method NextMatch(ghost root: RbRoot, node: RbNode, cmp: RbNode -> int, ghost k: nat) returns (r: RbNode?)
    requires root.Valid() && k < |Inorder(root.tree)| && Inorder(root.tree)[k] == node
    ensures var q := Inorder(root.tree);
      r == if k + 1 < |q| && cmp(q[k + 1]) == 0 then q[k + 1] else null
  {
    r := Next(root, node, k);
    if r != null && cmp(r) != 0 { r := null; }
  }

  /** rb_for_each: exactly the nodes comparing equal to the key, in order. */
  method ForEach(root: RbRoot, cmp: RbNode -> int) returns (out: seq<RbNode>, ghost k: nat)
    requires root.Valid() && Directed(cmp, Inorder(root.tree))
    ensures k + |out| <= |Inorder(root.tree)| && out == Inorder(root.tree)[k..k + |out|]
    ensures forall i :: 0 <= i < |Inorder(root.tree)| ==>
      (cmp(Inorder(root.tree)[i]) == 0 <==> k <= i < k + |out|)
  {
    hide Repr, Rb, Inorder, Nodes;
    ghost var q := Inorder(root.tree);
    var n;
    assert allocated(Nodes(root.tree));
    n, k := FindFirst(root, cmp);
    out := [];
    while n != null
      invariant root.Valid()
      invariant k + |out| <= |q| && out == q[k..k + |out|]
      invariant forall i :: k <= i < k + |out| ==> cmp(q[i]) == 0
      invariant n != null ==> k + |out| < |q| && n == q[k + |out|] && cmp(n) == 0
      invariant n == null ==> forall i :: k + |out| <= i < |q| ==> cmp(q[i]) < 0
      decreases |q| - |out|
    {
      ghost var j := k + |out|;
      out := out + [n];
      n := NextMatch(root, n, cmp, j);
    }
  }
}

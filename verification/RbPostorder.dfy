/**
 Children before parents: rb_first_postorder and rb_next_postorder; and rb_replace_node.
 */
module RbPostorder {
  import opened RbTree
  import opened RbBalance
  import opened RbInsert
  import opened RbAdd
  import opened RbWalk

  ghost function Postorder(t: Tree): seq<RbNode> {
    match t
    case Leaf => []
    case Node(l, x, _, _, r) => Postorder(l) + Postorder(r) + [x]
  }

  /** What precedes, respectively follows, the hole in postorder. */
  ghost function PostBefore(ctx: Ctx): seq<RbNode> {
    match ctx
    case Top => []
    case In(s, _, _, _, sib, up) => if s == L then PostBefore(up) else PostBefore(up) + Postorder(sib)
  }

  ghost function PostAfter(ctx: Ctx): seq<RbNode> {
    match ctx
    case Top => []
    case In(s, x, _, _, sib, up) =>
      if s == L then Postorder(sib) + [x] + PostAfter(up) else [x] + PostAfter(up)
  }

  lemma {:induction false} PlugPostorder(ctx: Ctx, t: Tree)
    ensures Postorder(Plug(ctx, t)) == PostBefore(ctx) + Postorder(t) + PostAfter(ctx)
  {
    match ctx
    case Top =>
    case In(s, x, c, a, sib, up) =>
      var t' := Mk(s, t, x, c, a, sib);
      PlugPostorder(up, t');
      HolePostorder(PostBefore(up), Postorder(t), Postorder(sib), x, PostAfter(up));
  }

  lemma HolePostorder<T>(p: seq<T>, t: seq<T>, sib: seq<T>, x: T, q: seq<T>)
    ensures p + (t + sib + [x]) + q == p + t + (sib + [x] + q)
    ensures p + (sib + t + [x]) + q == (p + sib) + t + ([x] + q)
  {
  }

  /** The first node of a subtree in postorder has no children. */
  method LeftDeepest(n: RbNode, ghost p: RbNode?, ghost t: Tree) returns (r: RbNode)
    requires Repr(n, p, t)
    ensures t.Node? && Postorder(t) != [] && r == Postorder(t)[0]
  {
    r := n;
    ghost var u, q := t, p;
    while true
      invariant Repr(r, q, u) && u.Node?
      invariant Postorder(t) != [] && Postorder(u) != [] && Postorder(t)[0] == Postorder(u)[0]
      decreases u
    {
      if r.left != null {
        q, u := r, u.left;
        r := r.left;
      } else if r.right != null {
        q, u := r, u.right;
        r := r.right;
      } else {
        return;
      }
    }
  }

  method FirstPostorder(root: RbRoot) returns (r: RbNode?)
    requires root.Valid()
    ensures r == if |Postorder(root.tree)| == 0 then null else Postorder(root.tree)[0]
  {
    if root.node == null { return null; }
    r := LeftDeepest(root.node, null, root.tree);
  }

  lemma {:induction false} PostorderNodes(t: Tree)
    ensures forall i :: 0 <= i < |Postorder(t)| ==> Postorder(t)[i] in Nodes(t)
    ensures forall x :: x in Nodes(t) ==> x in Postorder(t)
  {
    if t.Node? {
      PostorderNodes(t.left);
      PostorderNodes(t.right);
    }
  }

  lemma {:induction false} PostorderDistinct(n: RbNode?, p: RbNode?, t: Tree)
    requires Repr(n, p, t)
    ensures forall i, j :: 0 <= i < j < |Postorder(t)| ==> Postorder(t)[i] != Postorder(t)[j]
    decreases t
  {
    if t.Node? {
      PostorderDistinct(t.item.left, t.item, t.left);
      PostorderDistinct(t.item.right, t.item, t.right);
      PostorderNodes(t.left);
      PostorderNodes(t.right);
      DistinctJoin(Postorder(t.left), Postorder(t.right), t.item, Nodes(t.left), Nodes(t.right));
    }
  }

  lemma DistinctJoin(l: seq<RbNode>, r: seq<RbNode>, x: RbNode, a: set<RbNode>, b: set<RbNode>)
    requires a !! b && x !in a && x !in b
    requires (forall i :: 0 <= i < |l| ==> l[i] in a) && (forall i :: 0 <= i < |r| ==> r[i] in b)
    requires forall i, j :: 0 <= i < j < |l| ==> l[i] != l[j]
    requires forall i, j :: 0 <= i < j < |r| ==> r[i] != r[j]
    ensures var s := l + r + [x]; forall i, j :: 0 <= i < j < |s| ==> s[i] != s[j]
  {
    var s := l + r + [x];
    forall i, j | 0 <= i < j < |s| ensures s[i] != s[j] {
      assert s[i] == if i < |l| then l[i] else r[i - |l|];
      assert s[j] == if j < |l| then l[j] else if j < |l| + |r| then r[j - |l|] else x;
    }
  }

  /** The node `k` places from the start of the postorder has one zipper position. */
  lemma PostLocate(root: RbRoot, node: RbNode, k: nat) returns (ctx: Ctx, t: Tree)
    requires root.Valid() && k < |Postorder(root.tree)| && Postorder(root.tree)[k] == node
    ensures At(root, ctx, t) && t.Node? && t.item == node
    ensures k + 1 == |PostBefore(ctx)| + |Postorder(t)|
    ensures Postorder(root.tree) == PostBefore(ctx) + Postorder(t) + PostAfter(ctx)
  {
    PostorderNodes(root.tree);
    ctx, t := Focus(root.tree, node, Top);
    LocatedPlug(root.node, null, ctx, t);
    PlugPostorder(ctx, t);
    PostorderDistinct(root.node, null, root.tree);
    var q, j := Postorder(root.tree), |PostBefore(ctx)| + |Postorder(t)| - 1;
    assert q[j] == node;
  }

  /** rb_next_postorder of the `k`-th node. */
  method NextPostorder(ghost root: RbRoot, node: RbNode, ghost k: nat) returns (r: RbNode?)
    requires root.Valid() && k < |Postorder(root.tree)| && Postorder(root.tree)[k] == node
    ensures r == if k + 1 < |Postorder(root.tree)| then Postorder(root.tree)[k + 1] else null
  {
    hide Located, Plug, Nodes, CtxNodes, Rb;
    ghost var ctx, t := PostLocate(root, node, k);
    AtRoot(root, ctx, t);
    var parent := node.parent;
    if parent == null { return null; }
    AtUp(root, ctx, t);
    ghost var q := Postorder(root.tree);
    assert PostAfter(ctx) != [] ==> k + 1 < |q| && q[k + 1] == PostAfter(ctx)[0];
    if node == parent.left && parent.right != null {
      assert Repr(parent.right, parent, ctx.sib) by { LocatedFields(root.node, null, ctx, t); }
      r := LeftDeepest(parent.right, parent, ctx.sib);
    } else {
      r := parent;
    }
  }

  /** rb_first_postorder and then rb_next_postorder until null. */
  method VisitPostorder(root: RbRoot) returns (out: seq<RbNode>)
    requires root.Valid()
    ensures out == Postorder(root.tree)
    ensures forall i, j :: 0 <= i < j < |out| ==> out[i] != out[j]
  {
    hide Repr, Rb, Postorder, Nodes;
    ghost var q := Postorder(root.tree);
    PostorderDistinct(root.node, null, root.tree);
    assert allocated(Nodes(root.tree));
    var n := FirstPostorder(root);
    out := [];
    while n != null
      invariant root.Valid()
      invariant |out| <= |q| && out == q[..|out|]
      invariant n == if |out| < |q| then q[|out|] else null
      decreases |q| - |out|
    {
      out := out + [n];
      n := NextPostorder(root, n, |out| - 1);
    }
  }

  /** In postorder a node comes after everything below it. */
  lemma ChildrenFirst(root: RbRoot, k: nat, s: Side)
    requires root.Valid() && k < |Postorder(root.tree)|
    requires Postorder(root.tree)[k].Child(s) != null
    ensures Postorder(root.tree)[k].Child(s) in Postorder(root.tree)[..k]
  {
    var node := Postorder(root.tree)[k];
    var ctx, t := PostLocate(root, node, k);
    AtNode(root, ctx, t, s);
    PostorderNodes(t.Kid(s));
    var q := Postorder(root.tree);
    assert q[..k] == PostBefore(ctx) + (Postorder(t.left) + Postorder(t.right));
    assert Link(t.Kid(s)) in Nodes(t.Kid(s));
    assert Link(t.Kid(s)) in Postorder(t.Kid(s));
  }

  /** The left child comes before the right one. */
  lemma LeftBeforeRight(root: RbRoot, k: nat) returns (i: nat, j: nat)
    requires root.Valid() && k < |Postorder(root.tree)|
    requires var n := Postorder(root.tree)[k]; n.left != null && n.right != null
    ensures var q := Postorder(root.tree); i < j < k && q[i] == q[k].left && q[j] == q[k].right
  {
    var q, n := Postorder(root.tree), Postorder(root.tree)[k];
    var ctx, t := PostLocate(root, n, k);
    AtNode(root, ctx, t, L);
    AtNode(root, ctx, t, R);
    var a, l, r := PostBefore(ctx), Postorder(t.left), Postorder(t.right);
    i, j := |a| + |l| - 1, |a| + |l| + |r| - 1;
    assert Postorder(t) == l + r + [n] && q == a + Postorder(t) + PostAfter(ctx);
    assert l[|l| - 1] == t.left.item && r[|r| - 1] == t.right.item;
  }

  // ---------------------------------------------------------------- rb_replace_node

  /** The replacement takes the victim's place: links, colour and position. */
  method ReplaceNode(root: RbRoot, victim: RbNode, new_: RbNode, ghost k: nat)
    requires root.Valid() && k < |Inorder(root.tree)| && Inorder(root.tree)[k] == victim
    requires new_ !in Nodes(root.tree)
    modifies root, new_, Nodes(root.tree)
    ensures root.Valid() && Inorder(root.tree) == old(Inorder(root.tree))[k := new_]
    ensures new_.color == old(victim.color) && new_.left == old(victim.left) && new_.right == old(victim.right)
    ensures Nodes(root.tree) == old(Nodes(root.tree)) - {victim} + {new_}
    ensures new_.augmented == old(new_.augmented) && old(allocated(Nodes(root.tree)))
    ensures forall x :: x in old(Nodes(root.tree)) && x != victim ==> x.augmented == old(x.augmented)
  {
    hide Rb, Inorder, Before, After, Repr, PathRepr, Plug, Nodes, CtxNodes, Fields, CtxFields;
    assert allocated(Nodes(root.tree));
    FieldsStored(root.node, null, root.tree);
    ghost var ctx, t := Locate(root, victim, k);
    LocatedParts(root, ctx, t);
    ghost var u := Node(t.left, new_, t.color, new_.augmented, t.right);
    TakeOver(root, victim, new_, ctx, t.left, t.right);
    NowLocated(root.node, ctx, u);
    root.tree := Plug(ctx, u);
    Exchanged(ctx, t, u);
    LocatedPlug(root.node, null, ctx, u);
    ExchangedFields(ctx, t, u);
    FieldsStored(root.node, null, root.tree);
  }

  lemma ExchangedFields(ctx: Ctx, t: Tree, u: Tree)
    requires t.Node? && u.Node? && u == Node(t.left, u.item, t.color, u.aug, t.right)
    ensures Fields(Plug(ctx, u)) <= Fields(Plug(ctx, t)) + {(u.item, u.aug)}
  {
    PlugFields(ctx, t);
    PlugFields(ctx, u);
  }

  /** The writes of rb_replace_node. */
  method TakeOver(root: RbRoot, victim: RbNode, new_: RbNode, ghost ctx: Ctx, ghost l: Tree, ghost r: Tree)
    requires victim != new_ && {victim, new_} !! CtxNodes(ctx) !! Nodes(l) !! Nodes(r)
    requires Repr(victim.left, victim, l) && Repr(victim.right, victim, r)
    requires PathRepr(root.node, null, ctx, victim) && victim.parent == HoleOwner(ctx, null)
    modifies root`node, new_, CtxNodes(ctx), Nodes(l), Nodes(r)
    ensures new_.parent == HoleOwner(ctx, null) && new_.color == victim.color && new_.augmented == old(new_.augmented)
    ensures new_.left == victim.left && new_.right == victim.right
    ensures Repr(new_.left, new_, l) && Repr(new_.right, new_, r) && PathRepr(root.node, null, ctx, new_)
  {
    hide Repr, PathRepr, Nodes, CtxNodes;
    assert allocated(Nodes(l)) && allocated(Nodes(r)) && allocated(CtxNodes(ctx));
    var parent := victim.parent;
    new_.parent, new_.color, new_.left, new_.right := victim.parent, victim.color, victim.left, victim.right;
    SetParent(victim.left, new_, false, Black, l, victim);
    SetParent(victim.right, new_, false, Black, r, victim);
    assert parent != null ==> parent in CtxNodes(ctx) by { OwnerIn(ctx); }
    ChangeChild(victim, new_, parent, root, ctx);
  }

  lemma NowLocated(top: RbNode?, ctx: Ctx, u: Tree)
    requires u.Node? && u.item !in CtxNodes(ctx) && CtxNodes(ctx) !! Nodes(u.left) && CtxNodes(ctx) !! Nodes(u.right)
    requires u.item !in Nodes(u.left) && u.item !in Nodes(u.right) && Nodes(u.left) !! Nodes(u.right)
    requires u.item.parent == HoleOwner(ctx, null) && u.item.color == u.color && u.item.augmented == u.aug
    requires Repr(u.item.left, u.item, u.left) && Repr(u.item.right, u.item, u.right)
    requires PathRepr(top, null, ctx, u.item)
    ensures Located(top, null, ctx, u)
  {
  }

  lemma LocatedParts(root: RbRoot, ctx: Ctx, t: Tree)
    requires At(root, ctx, t) && t.Node?
    ensures var n := t.item;
      && {n} !! CtxNodes(ctx) !! Nodes(t.left) !! Nodes(t.right)
      && Nodes(root.tree) == CtxNodes(ctx) + {n} + Nodes(t.left) + Nodes(t.right)
      && n.color == t.color && n.parent == HoleOwner(ctx, null)
      && Repr(n.left, n, t.left) && Repr(n.right, n, t.right) && PathRepr(root.node, null, ctx, n)
  {
    PlugNodes(ctx, t);
  }

  lemma Exchanged(ctx: Ctx, t: Tree, u: Tree)
    requires IsRedBlack(Plug(ctx, t)) && t.Node? && u.Node?
    requires u == Node(t.left, u.item, t.color, u.aug, t.right)
    ensures IsRedBlack(Plug(ctx, u))
    ensures var k := |Before(ctx)| + |Inorder(t.left)|;
      k < |Inorder(Plug(ctx, t))| && Inorder(Plug(ctx, u)) == Inorder(Plug(ctx, t))[k := u.item]
    ensures Nodes(Plug(ctx, u)) == CtxNodes(ctx) + {u.item} + Nodes(t.left) + Nodes(t.right)
  {
    hide Inorder, Plug, Nodes, CtxNodes, Before, After, IsRedBlack;
    var h := UnplugRb(ctx, t);
    assert Rb(u, h);
    PlugRb(ctx, u, h);
    PlugInorder(ctx, t);
    PlugInorder(ctx, u);
    PlugNodes(ctx, u);
    NodeParts(t);
    NodeParts(u);
    OneExchanged(Before(ctx), Inorder(t.left), t.item, u.item, Inorder(t.right), After(ctx));
  }

  lemma OneExchanged<T>(a: seq<T>, b: seq<T>, x: T, y: T, c: seq<T>, d: seq<T>)
    ensures var k := |a| + |b|; a + (b + [y] + c) + d == (a + (b + [x] + c) + d)[k := y]
  {
  }
}

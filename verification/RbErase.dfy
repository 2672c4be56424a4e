/**
 Erasing a node: __rb_erase_augmented takes it out of the tree, and the colour loop repairs
 what that leaves one black node short.
 */
module RbErase {
  import opened RbTree
  import opened RbBalance
  import opened RbInsert
  import opened RbEraseColor
  import opened RbPropagate
  import opened RbAdd
  import opened RbWalk

  /** `t'` is `t` without its `k`-th node. With the max callbacks its maxima are correct if those of
      `t` were; with the dummy ones every augmented field is as it was. */
  ghost predicate Without(t': Tree, t: Tree, k: nat, augmented: bool) {
    && k < |Inorder(t)|
    && Inorder(t') == Inorder(t)[..k] + Inorder(t)[k + 1..]
    && (augmented && AugOk(t) ==> AugOk(t'))
    && (!augmented ==> Fields(t') <= Fields(t))
  }

  /** The state between the two halves of an erase: `rebalance` is null, or owns an empty link
      that is one black node short. */
  ghost predicate Spliced(root: RbRoot, rebalance: RbNode?, ctx: Ctx, t: Tree)
    reads root, CtxNodes(ctx), Nodes(t)
  {
    && Located(root.node, null, ctx, t)
    && if rebalance == null then IsRedBlack(Plug(ctx, t))
       else t.Leaf? && OneShort(root, ctx, Leaf, 0) && ctx.item == rebalance
  }

  // ---------------------------------------------------------------- at most one child

  /** Case 1: the only child, on side `s` if there is one, takes the node's place and colour. */
  method SpliceOne(root: RbRoot, node: RbNode, child: RbNode?, s: Side, augmented: bool,
                   ghost ctx0: Ctx, ghost sub: Tree, ghost near: Tree)
    returns (rebalance: RbNode?, ghost ctx: Ctx, ghost t: Tree)
    requires Located(root.node, null, ctx0, sub) && IsRedBlack(Plug(ctx0, sub))
    requires sub.Node? && sub.item == node && sub == Mk(s, near, node, sub.color, sub.aug, Leaf)
    requires child == Link(near)
    modifies root`node, CtxNodes(ctx0), Nodes(near)
    ensures Spliced(root, rebalance, ctx, t)
    ensures Without(Plug(ctx, t), Plug(ctx0, sub), |Before(ctx0)| + |Inorder(sub.left)|, augmented)
    ensures CtxNodes(ctx) + Nodes(t) == CtxNodes(ctx0) + Nodes(near)
  {
    hide Repr, PathRepr, Nodes, CtxNodes, Inorder, AugOk, CtxAug, Rb, CtxRb, Before, After;
    assert allocated(CtxNodes(ctx0)) && allocated(Nodes(near));
    MkRepr(s, near, node, sub.color, sub.aug, Leaf, HoleOwner(ctx0, null));
    OwnerIn(ctx0);
    var parent := node.parent;
    var wasBlack := node.color == Black;
    ChangeChild(node, child, parent, root, ctx0);
    SetParent(child, parent, true, node.color, near, node);
    rebalance := if child == null && wasBlack then parent else null;
    t := near.Paint(sub.color);
    PaintNodes(near, sub.color);
    ReprFields(child, parent, t);
    Propagate(augmented, parent, null, root.node, ctx0, child, Aug(near));
    ctx := Refreshed(augmented, ctx0, Aug(near));
    OneShape(s, ctx0, sub, near, augmented);
  }

  lemma OneShape(s: Side, ctx0: Ctx, sub: Tree, near: Tree, augmented: bool)
    requires IsRedBlack(Plug(ctx0, sub))
    requires sub.Node? && sub == Mk(s, near, sub.item, sub.color, sub.aug, Leaf)
    ensures var ctx, t := Refreshed(augmented, ctx0, Aug(near)), near.Paint(sub.color);
      && HoleOwner(ctx, null) == HoleOwner(ctx0, null)
      && (if near.Leaf? && sub.color == Black && ctx0.In? then Rb(t, 0) && CtxRb(ctx, 1, Black)
          else IsRedBlack(Plug(ctx, t)))
      && Without(Plug(ctx, t), Plug(ctx0, sub), |Before(ctx0)| + |Inorder(sub.left)|, augmented)
      && CtxNodes(ctx) + Nodes(t) == CtxNodes(ctx0) + Nodes(near)
      && CtxNodes(ctx) == CtxNodes(ctx0) && ctx.Top? == ctx0.Top?
  {
    hide Without, Rb, CtxRb, Inorder, IsRedBlack, Nodes, CtxNodes, Before, Mk, Plug, Refresh;
    RefreshShape(ctx0, Aug(near));
    PaintNodes(near, sub.color);
    OneRb(s, ctx0, sub, near, augmented);
    OneContents(s, ctx0, sub, near, augmented);
  }

  lemma OneRb(s: Side, ctx0: Ctx, sub: Tree, near: Tree, augmented: bool)
    requires IsRedBlack(Plug(ctx0, sub))
    requires sub.Node? && sub == Mk(s, near, sub.item, sub.color, sub.aug, Leaf)
    ensures var ctx, t := Refreshed(augmented, ctx0, Aug(near)), near.Paint(sub.color);
      if near.Leaf? && sub.color == Black && ctx0.In? then Rb(t, 0) && CtxRb(ctx, 1, Black)
      else IsRedBlack(Plug(ctx, t))
  {
    var m := Aug(near);
    var ctx, t := Refreshed(augmented, ctx0, m), near.Paint(sub.color);
    var h := UnplugRb(ctx0, sub);
    MkRb(s, near, sub.item, sub.color, sub.aug, Leaf, h);
    RefreshRb(ctx0, m, h, sub.color);
    if sub.color == Red {
      assert near.Leaf? && h == 0;
      AcceptsBlack(ctx, 0);
      PlugRb(ctx, t, 0);
    } else {
      assert h == 1 && Rb(near, 0);
      if near.Node? {
        assert Rb(t, 1);
        PlugRb(ctx, t, 1);
      } else if ctx0.Top? {
        PlugRb(ctx, t, 0);
      }
    }
  }

  lemma OneContents(s: Side, ctx0: Ctx, sub: Tree, near: Tree, augmented: bool)
    requires sub.Node? && sub == Mk(s, near, sub.item, sub.color, sub.aug, Leaf)
    ensures var ctx, t := Refreshed(augmented, ctx0, Aug(near)), near.Paint(sub.color);
      Without(Plug(ctx, t), Plug(ctx0, sub), |Before(ctx0)| + |Inorder(sub.left)|, augmented)
  {
    hide AugOk, Before, After, Plug, Refresh, Inorder, Mk, Fields;
    var m := Aug(near);
    var ctx, t := Refreshed(augmented, ctx0, m), near.Paint(sub.color);
    RefreshShape(ctx0, m);
    PlugInorder(ctx0, sub);
    PlugInorder(ctx, t);
    OneInorder(s, sub, near);
    Removed(Before(ctx0), Inorder(sub.left), sub.item, Inorder(sub.right), After(ctx0));
    if augmented && AugOk(Plug(ctx0, sub)) { OneAug(s, ctx0, sub, near); }
    OneFields(s, ctx0, sub, near);
  }

  lemma OneFields(s: Side, ctx0: Ctx, sub: Tree, near: Tree)
    requires sub.Node? && sub == Mk(s, near, sub.item, sub.color, sub.aug, Leaf)
    ensures Fields(Plug(ctx0, near.Paint(sub.color))) <= Fields(Plug(ctx0, sub))
  {
    PlugFields(ctx0, sub);
    PlugFields(ctx0, near.Paint(sub.color));
    MkInorder(s, near, sub.item, sub.color, sub.aug, Leaf);
    PaintNodes(near, sub.color);
  }

  lemma OneInorder(s: Side, sub: Tree, near: Tree)
    requires sub.Node? && sub == Mk(s, near, sub.item, sub.color, sub.aug, Leaf)
    ensures Inorder(sub) == Inorder(sub.left) + [sub.item] + Inorder(sub.right)
    ensures Inorder(near.Paint(sub.color)) == Inorder(sub.left) + Inorder(sub.right)
  {
    assert Inorder(near.Paint(sub.color)) == Inorder(near);
  }

  lemma OneAug(s: Side, ctx0: Ctx, sub: Tree, near: Tree)
    requires sub.Node? && sub == Mk(s, near, sub.item, sub.color, sub.aug, Leaf)
    requires AugOk(Plug(ctx0, sub))
    ensures AugOk(Plug(Refresh(ctx0, Aug(near)), near.Paint(sub.color)))
  {
    PlugAug(ctx0, sub);
    RefreshAug(ctx0, Aug(near));
    PlugAug(Refresh(ctx0, Aug(near)), near.Paint(sub.color));
  }

  lemma Removed<T>(a: seq<T>, b: seq<T>, x: T, c: seq<T>, d: seq<T>)
    ensures var q, k := a + (b + [x] + c) + d, |a| + |b|;
      k < |q| && q[k] == x && q[..k] + q[k + 1..] == a + (b + c) + d
  {
    var q, k := a + (b + [x] + c) + d, |a| + |b|;
    assert q[..k] == a + b;
    assert q[k + 1..] == c + d;
  }

  // ---------------------------------------------------------------- two children

  ghost predicate LeftPath(path: Ctx) {
    path.In? ==> path.side == L && LeftPath(path.up)
  }

  /** The successor: leftmost under the right child. With no left turn its parent is set to
      itself, as in case 2. */
  method FindSuccessor(child: RbNode, ghost node: RbNode, ghost r: Tree)
    returns (successor: RbNode, parent: RbNode, ghost path: Ctx, ghost st: Tree)
    requires Repr(child, node, r)
    ensures Located(child, node, path, st) && Plug(path, st) == r && LeftPath(path)
    ensures st.Node? && st.item == successor && st.left.Leaf?
    ensures parent == HoleOwner(path, successor)
  {
    successor, parent, path, st := child, child, Top, r;
    LocatedPlug(child, node, Top, r);
    hide Repr, PathRepr, Nodes, CtxNodes;
    LeftLocated(child, node, path, st);
    var tmp := child.left;
    while tmp != null
      invariant Located(child, node, path, st) && Plug(path, st) == r && LeftPath(path)
      invariant st.Node? && st.item == successor && tmp == Link(st.left)
      invariant parent == HoleOwner(path, successor)
      decreases st
    {
      LeftLocated(child, node, path, st);
      parent := successor;
      successor := tmp;
      path, st := In(L, st.item, st.color, st.aug, st.right, path), st.left;
      LeftLocated(child, node, path, st);
      tmp := tmp.left;
    }
  }

  lemma LeftLocated(top: RbNode?, tp: RbNode?, ctx: Ctx, t: Tree)
    requires Located(top, tp, ctx, t) && t.Node?
    ensures Located(top, tp, In(L, t.item, t.color, t.aug, t.right, ctx), t.left)
    ensures Plug(In(L, t.item, t.color, t.aug, t.right, ctx), t.left) == Plug(ctx, t)
    ensures t.item.left == Link(t.left)
  {
    LocatedStep(top, tp, In(L, t.item, t.color, t.aug, t.right, ctx), t.left);
  }

  /** Take the successor out of the right subtree, which it will own, and give it the erased
      node's augmented value. Afterwards the path below the successor's right link leads to its
      former right child `child2`, whose own parent link is still to be written. */
  method Detach(node: RbNode, child: RbNode, successor: RbNode, parent: RbNode, child2: RbNode?, augmented: bool,
                ghost r: Tree, ghost path: Ctx, ghost st: Tree)
    returns (ghost path': Ctx)
    requires Repr(child, node, r) && Located(child, node, path, st) && Plug(path, st) == r && LeftPath(path)
    requires st.Node? && st.item == successor && st.left.Leaf? && child2 == successor.right
    requires parent == HoleOwner(path, successor) && node !in Nodes(r)
    modifies Nodes(st), CtxNodes(path)
    ensures path' == Refreshed(augmented, path, Aug(st.right))
    ensures PathRepr(successor.right, successor, path', child2)
    ensures Repr(child2, successor, st.right)
    ensures successor.augmented == if augmented then node.augmented else st.aug
    ensures successor.color == st.color
  {
    var oldAug := node.augmented;
    path' := Refreshed(augmented, path, Aug(st.right));
    PlugNodes(path, st);
    assert allocated(Nodes(st)) && allocated(CtxNodes(path)) && allocated(Nodes(st.right));
    assert Repr(child2, successor, st.right) && successor !in Nodes(st.right) && Nodes(st.right) <= Nodes(st);
    ReprFields(child2, successor, st.right);
    assert st.item.color == st.color && st.item.augmented == st.aug;
    assert Stored(child2) == Aug(st.right);
    if child == successor {
      SamePath(child, node, path, st);
      if augmented { successor.augmented := node.augmented; }
      assert path == Top && path' == Top;
      return;
    }
    if path.Top? { assert false; }
    TopIn(child, node, path, successor);
    assert CtxNodes(path) !! Nodes(st.right) && successor !in CtxNodes(path);
    Rehang(node, child, successor, parent, child2, r, path, st);
    assert Repr(child2, successor, st.right);
    hide Repr, PathRepr, Nodes, CtxNodes;
    if augmented { successor.augmented := node.augmented; }
    Propagate(augmented, parent, successor, child, path, child2, Aug(st.right));
  }

  lemma SamePath(child: RbNode, node: RbNode?, path: Ctx, st: Tree)
    requires Located(child, node, path, st) && st.Node? && st.item == child
    ensures path.Top?
  {
    if path.In? { TopIn(child, node, path, child); }
  }

  lemma TopIn(top: RbNode, tp: RbNode?, path: Ctx, n: RbNode?)
    requires PathRepr(top, tp, path, n) && path.In?
    ensures top in CtxNodes(path)
    decreases path
  {
    if path.up.In? { TopIn(top, tp, path.up, path.item); }
  }

  /** Case 3's three link writes. */
  method Rehang(ghost node: RbNode, child: RbNode, successor: RbNode, parent: RbNode, child2: RbNode?,
                ghost r: Tree, ghost path: Ctx, ghost st: Tree)
    requires Repr(child, node, r) && Located(child, node, path, st) && Plug(path, st) == r && LeftPath(path)
    requires st.Node? && st.item == successor && child2 == successor.right
    requires child != successor && parent == HoleOwner(path, successor)
    modifies child`parent, parent`left, successor`right
    ensures successor.right == child && PathRepr(child, successor, path, child2)
  {
    assert allocated(Nodes(st)) && allocated(CtxNodes(path)) && allocated(Nodes(r));
    if path.Top? { assert false; }
    TopIn(child, node, path, successor);
    ReOwn(child, successor, r, node);
    LocatedPlug(child, successor, path, st);
    SetBottom(parent, child2, child, successor, path, successor);
    successor.right := child;
  }

  method ReOwn(child: RbNode, p: RbNode, ghost r: Tree, ghost q: RbNode?)
    requires Repr(child, q, r)
    modifies child`parent
    ensures Repr(child, p, r)
  {
    child.parent := p;
  }

  method SetBottom(parent: RbNode, child2: RbNode?, ghost top: RbNode, ghost tp: RbNode?, ghost path: Ctx, ghost n: RbNode?)
    requires path.In? && path.side == L && path.item == parent && PathRepr(top, tp, path, n)
    modifies parent`left
    ensures PathRepr(top, tp, path, child2)
  {
    parent.left := child2;
  }

  /** What the two-children case works on once the successor is detached. */
  ghost predicate Detached(root: RbRoot, node: RbNode, successor: RbNode, parent: RbNode, child2: RbNode?,
                           ctx0: Ctx, l: Tree, path: Ctx, rr: Tree)
    reads root, node, successor, CtxNodes(ctx0), Nodes(l), CtxNodes(path), Nodes(rr)
  {
    && node != successor
    && {node, successor} !! CtxNodes(ctx0) !! Nodes(l) !! CtxNodes(path) !! Nodes(rr)
    && PathRepr(root.node, null, ctx0, node) && node.parent == HoleOwner(ctx0, null)
    && Repr(node.left, node, l)
    && PathRepr(successor.right, successor, path, child2) && Repr(child2, successor, rr)
    && parent == HoleOwner(path, successor)
  }

  method TakeLeft(root: RbRoot, node: RbNode, successor: RbNode, ghost ctx0: Ctx, ghost l: Tree)
    requires node != successor && {node, successor} !! CtxNodes(ctx0) !! Nodes(l)
    requires PathRepr(root.node, null, ctx0, node) && node.parent == HoleOwner(ctx0, null)
    requires Repr(node.left, node, l)
    modifies root`node, successor`left, CtxNodes(ctx0), Nodes(l)
    ensures Repr(successor.left, successor, l) && PathRepr(root.node, null, ctx0, successor)
  {
    hide Repr, PathRepr, Nodes, CtxNodes;
    assert allocated(CtxNodes(ctx0)) && allocated(Nodes(l));
    OwnerIn(ctx0);
    var tmp := node.left;
    successor.left := tmp;
    SetParent(tmp, successor, false, Black, l, node);
    ChangeChild(node, successor, node.parent, root, ctx0);
  }

  /** The successor takes over the left subtree, the owner and the colour of the erased node. */
  method AttachLinks(root: RbRoot, node: RbNode, successor: RbNode, parent: RbNode, child2: RbNode?,
                     ghost ctx0: Ctx, ghost l: Tree, ghost path: Ctx, ghost rr: Tree)
    returns (rebalance: RbNode?)
    requires Detached(root, node, successor, parent, child2, ctx0, l, path, rr)
    modifies root`node, successor`left, successor`parent, successor`color, CtxNodes(ctx0), Nodes(l), Nodes(rr)
    ensures rebalance == if child2 == null && old(successor.color) == Black then parent else null
    ensures Nodes(rr.Paint(Black)) == Nodes(rr)
    ensures Located(successor.right, successor, path, rr.Paint(Black))
    ensures PathRepr(root.node, null, In(R, successor, node.color, successor.augmented, l, ctx0), successor.right)
    ensures CtxNodes(In(R, successor, node.color, successor.augmented, l, ctx0)) == {successor} + Nodes(l) + CtxNodes(ctx0)
  {
    hide Repr, PathRepr, Nodes, CtxNodes;
    assert allocated(CtxNodes(ctx0)) && allocated(Nodes(l)) && allocated(CtxNodes(path)) && allocated(Nodes(rr));
    ghost var sr := successor.right;
    TakeLeft(root, node, successor, ctx0, l);
    assert PathRepr(sr, successor, path, child2) && Repr(child2, successor, rr);
    rebalance := if child2 == null && successor.color == Black then parent else null;
    SetParent(child2, parent, true, Black, rr, successor);
    PaintNodes(rr, Black);
    ghost var ln := successor.left;
    assert Repr(ln, successor, l) && PathRepr(root.node, null, ctx0, successor) && PathRepr(sr, successor, path, child2);
    successor.parent, successor.color := node.parent, node.color;
    assert Repr(ln, successor, l) && PathRepr(root.node, null, ctx0, successor);
    assert Repr(child2, parent, rr.Paint(Black)) && PathRepr(sr, successor, path, child2);
    PathUnfold(root.node, null, In(R, successor, node.color, successor.augmented, l, ctx0), successor.right);
  }

  method Attach(root: RbRoot, node: RbNode, successor: RbNode, parent: RbNode, child2: RbNode?, augmented: bool,
                ghost ctx0: Ctx, ghost l: Tree, ghost path: Ctx, ghost rr: Tree)
    returns (rebalance: RbNode?)
    requires Detached(root, node, successor, parent, child2, ctx0, l, path, rr)
    modifies root`node, successor, CtxNodes(ctx0), Nodes(l), Nodes(rr)
    ensures rebalance == if child2 == null && old(successor.color) == Black then parent else null
    ensures var rr' := rr.Paint(Black);
      var f := Refreshed(augmented, In(R, successor, node.color, old(successor.augmented), l, ctx0), Aug(Plug(path, rr')));
      Located(root.node, null, Compose(path, f), rr')
  {
    hide Repr, PathRepr, Nodes, CtxNodes, Plug, LocalMax;
    ghost var rr' := rr.Paint(Black);
    ghost var inner := Plug(path, rr');
    ghost var f0 := In(R, successor, node.color, successor.augmented, l, ctx0);
    assert allocated(Nodes(inner)) && allocated(CtxNodes(path)) && allocated(Nodes(rr));
    rebalance := AttachLinks(root, node, successor, parent, child2, ctx0, l, path, rr);
    LocatedPlug(successor.right, successor, path, rr');
    PlugNodes(path, rr');
    ReprFields(successor.right, successor, inner);
    Propagate(augmented, successor, null, root.node, f0, successor.right, Aug(inner));
    RefreshShape(f0, Aug(inner));
    ComposeLocated(root.node, path, Refreshed(augmented, f0, Aug(inner)), rr');
  }

  lemma ComposeLocated(top: RbNode?, path: Ctx, f: Ctx, t: Tree)
    requires Located(top, null, f, Plug(path, t))
    ensures Located(top, null, Compose(path, f), t)
  {
    LocatedPlug(top, null, f, Plug(path, t));
    PlugCompose(path, f, t);
    LocatedPlug(top, null, Compose(path, f), t);
  }

  /** Cases 2 and 3: the successor replaces the node. */
  method SpliceTwo(root: RbRoot, node: RbNode, augmented: bool, ghost ctx0: Ctx, ghost sub: Tree)
    returns (rebalance: RbNode?, ghost ctx: Ctx, ghost t: Tree)
    requires Located(root.node, null, ctx0, sub) && IsRedBlack(Plug(ctx0, sub))
    requires sub.Node? && sub.item == node && sub.left.Node? && sub.right.Node?
    modifies root`node, CtxNodes(ctx0), Nodes(sub)
    ensures Spliced(root, rebalance, ctx, t)
    ensures Without(Plug(ctx, t), Plug(ctx0, sub), |Before(ctx0)| + |Inorder(sub.left)|, augmented)
    ensures CtxNodes(ctx) + Nodes(t) == CtxNodes(ctx0) + Nodes(sub) - {node}
  {
    hide Repr, PathRepr, Nodes, CtxNodes, Rb, CtxRb, Inorder, AugOk, Plug, Before, TwoCtx;
    SubParts(root.node, ctx0, sub);
    assert allocated(CtxNodes(ctx0)) && allocated(Nodes(sub.left)) && allocated(Nodes(sub.right));
    var child := node.right;
    var successor, parent, path, st := FindSuccessor(child, node, sub.right);
    StParts(child, node, path, st);
    PlugNodes(path, st);
    rebalance := MoveSuccessor(root, node, child, successor, parent, augmented, ctx0, sub, path, st);
    ctx, t := TwoCtx(ctx0, sub, path, st, augmented), st.right.Paint(Black);
    TwoShape(ctx0, sub, path, st, augmented, ctx, t);
  }

  method MoveSuccessor(root: RbRoot, node: RbNode, child: RbNode, successor: RbNode, parent: RbNode, augmented: bool,
                       ghost ctx0: Ctx, ghost sub: Tree, ghost path: Ctx, ghost st: Tree)
    returns (rebalance: RbNode?)
    requires Located(root.node, null, ctx0, sub) && sub.Node? && sub.item == node && child == node.right
    requires Located(child, node, path, st) && Plug(path, st) == sub.right && LeftPath(path)
    requires st.Node? && st.item == successor && st.left.Leaf? && parent == HoleOwner(path, successor)
    modifies root`node, CtxNodes(ctx0), Nodes(sub.left), CtxNodes(path), Nodes(st)
    ensures Located(root.node, null, TwoCtx(ctx0, sub, path, st, augmented), st.right.Paint(Black))
    ensures rebalance == if st.right.Leaf? && st.color == Black then parent else null
  {
    hide Repr, PathRepr, Nodes, CtxNodes, Plug;
    ghost var l, r := sub.left, sub.right;
    SubParts(root.node, ctx0, sub);
    StParts(child, node, path, st);
    PlugNodes(path, st);
    assert allocated(CtxNodes(ctx0)) && allocated(Nodes(l)) && allocated(CtxNodes(path)) && allocated(Nodes(st));
    var child2 := successor.right;
    ghost var path' := Detach(node, child, successor, parent, child2, augmented, r, path, st);
    RefreshShape(path, Aug(st.right));
    assert Repr(node.left, node, l) && PathRepr(root.node, null, ctx0, node);
    assert Detached(root, node, successor, parent, child2, ctx0, l, path', st.right);
    rebalance := Attach(root, node, successor, parent, child2, augmented, ctx0, l, path', st.right);
  }

  lemma SubParts(top: RbNode?, ctx0: Ctx, sub: Tree)
    requires Located(top, null, ctx0, sub) && sub.Node?
    ensures var n := sub.item;
      && {n} !! CtxNodes(ctx0) !! Nodes(sub.left) !! Nodes(sub.right)
      && Nodes(sub) == {n} + Nodes(sub.left) + Nodes(sub.right)
      && n.color == sub.color && n.augmented == sub.aug && n.parent == HoleOwner(ctx0, null)
      && Repr(n.left, n, sub.left) && Repr(n.right, n, sub.right) && PathRepr(top, null, ctx0, n)
  {
  }

  lemma StParts(top: RbNode?, tp: RbNode?, path: Ctx, st: Tree)
    requires Located(top, tp, path, st) && st.Node? && st.left.Leaf?
    ensures st.item !in CtxNodes(path) && st.item !in Nodes(st.right) && CtxNodes(path) !! Nodes(st.right)
    ensures Nodes(st) == {st.item} + Nodes(st.right)
    ensures st.item.right == Link(st.right) && st.item.color == st.color
  {
  }

  // What the two-children case does to the tree.

  ghost function TwoCtx(ctx0: Ctx, sub: Tree, path: Ctx, st: Tree, augmented: bool): Ctx
    requires sub.Node? && st.Node?
  {
    var path' := Refreshed(augmented, path, Aug(st.right));
    var a := if augmented then sub.aug else st.aug;
    Compose(path', Refreshed(augmented, In(R, st.item, sub.color, a, sub.left, ctx0),
                             Aug(Plug(path', st.right.Paint(Black)))))
  }

  lemma {:induction false} TwoShape(ctx0: Ctx, sub: Tree, path: Ctx, st: Tree, augmented: bool, ctx: Ctx, t: Tree)
    requires sub.Node? && st.Node? && st.left.Leaf? && LeftPath(path) && Plug(path, st) == sub.right
    requires IsRedBlack(Plug(ctx0, sub))
    requires ctx == TwoCtx(ctx0, sub, path, st, augmented) && t == st.right.Paint(Black)
    ensures ctx.In? && ctx.item == HoleOwner(path, st.item)
    ensures if st.right.Leaf? && st.color == Black then t == Leaf && Rb(t, 0) && CtxRb(ctx, 1, Black)
            else IsRedBlack(Plug(ctx, t))
    ensures Without(Plug(ctx, t), Plug(ctx0, sub), |Before(ctx0)| + |Inorder(sub.left)|, augmented)
    ensures CtxNodes(ctx) + Nodes(t) == CtxNodes(ctx0) + {st.item} + Nodes(sub.left) + CtxNodes(path) + Nodes(st.right)
  {
    hide Rb, CtxRb, Inorder, AugOk, Plug, Before, After, TwoCtx, Nodes, CtxNodes, IsRedBlack, Refreshed, Fields;
    TwoNodes(ctx0, sub, path, st, augmented);
    LeafNodes();
    PaintNodes(st.right, Black);
    TwoRb(ctx0, sub, path, st, augmented);
    TwoInorder(ctx0, sub, path, st, augmented);
    if augmented && AugOk(Plug(ctx0, sub)) { TwoAug(ctx0, sub, path, st); }
    if !augmented { TwoFields(ctx0, sub, path, st); }
  }

  lemma {:induction false} ComposeFields(path: Ctx, base: Ctx)
    ensures CtxFields(Compose(path, base)) == CtxFields(path) + CtxFields(base)
  {
    if path.In? { ComposeFields(path.up, base); }
  }

  /** With the dummy callbacks the moved successor keeps its field, and so does every other node. */
  lemma TwoFields(ctx0: Ctx, sub: Tree, path: Ctx, st: Tree)
    requires sub.Node? && st.Node? && Plug(path, st) == sub.right
    ensures Fields(Plug(TwoCtx(ctx0, sub, path, st, false), st.right.Paint(Black))) <= Fields(Plug(ctx0, sub))
  {
    hide Plug, Compose;
    var f := In(R, st.item, sub.color, st.aug, sub.left, ctx0);
    PlugFields(ctx0, sub);
    PlugFields(path, st);
    PlugFields(Compose(path, f), st.right.Paint(Black));
    ComposeFields(path, f);
    PaintNodes(st.right, Black);
  }

  lemma TwoNodes(ctx0: Ctx, sub: Tree, path: Ctx, st: Tree, augmented: bool)
    requires sub.Node? && st.Node?
    ensures var ctx := TwoCtx(ctx0, sub, path, st, augmented);
      && ctx.In? && ctx.item == HoleOwner(path, st.item)
      && CtxNodes(ctx) == CtxNodes(ctx0) + {st.item} + Nodes(sub.left) + CtxNodes(path)
  {
    var path' := Refreshed(augmented, path, Aug(st.right));
    var a := if augmented then sub.aug else st.aug;
    var f0 := In(R, st.item, sub.color, a, sub.left, ctx0);
    var m := Aug(Plug(path', st.right.Paint(Black)));
    RefreshShape(path, Aug(st.right));
    RefreshShape(f0, m);
    ComposeNodes(path', Refreshed(augmented, f0, m));
  }

  lemma TwoAug(ctx0: Ctx, sub: Tree, path: Ctx, st: Tree)
    requires sub.Node? && st.Node? && Plug(path, st) == sub.right && AugOk(Plug(ctx0, sub))
    ensures AugOk(Plug(TwoCtx(ctx0, sub, path, st, true), st.right.Paint(Black)))
  {
    var rr' := st.right.Paint(Black);
    var path' := Refresh(path, Aug(st.right));
    var f0 := In(R, st.item, sub.color, sub.aug, sub.left, ctx0);
    PlugAug(ctx0, sub);
    PlugAug(path, st);
    RefreshAug(path, Aug(st.right));
    assert AugOk(rr') == AugOk(st.right) && Aug(rr') == Aug(st.right);
    var inner := Plug(path', rr');
    PlugAug(path', rr');
    RefreshAug(f0, Aug(inner));
    PlugAug(Refresh(f0, Aug(inner)), inner);
    PlugCompose(path', Refresh(f0, Aug(inner)), rr');
  }

  // Colours do not see items or maxima.

  lemma {:induction false} ComposeRb(path: Ctx, b1: Ctx, b2: Ctx, h: nat, c: Color)
    requires b1.In? && b2.In? && b1.color == b2.color && b1.sib == b2.sib
    requires forall h': nat, c' :: CtxRb(b1.up, h', c') == CtxRb(b2.up, h', c')
    ensures CtxRb(Compose(path, b1), h, c) == CtxRb(Compose(path, b2), h, c)
  {
    if path.In? {
      if path.color == Red { ComposeRb(path.up, b1, b2, h, Red); } else { ComposeRb(path.up, b1, b2, h + 1, Black); }
    }
  }

  lemma {:induction false} RefreshComposeRb(path: Ctx, m: MaxOf, b: Ctx, h: nat, c: Color)
    ensures CtxRb(Compose(Refresh(path, m), b), h, c) == CtxRb(Compose(path, b), h, c)
  {
    if path.In? {
      var m' := Max(LocalMax(path.item.value, m, Aug(path.sib)));
      if path.color == Red { RefreshComposeRb(path.up, m', b, h, Red); } else { RefreshComposeRb(path.up, m', b, h + 1, Black); }
    }
  }

  lemma TwoCtxRb(ctx0: Ctx, sub: Tree, path: Ctx, st: Tree, augmented: bool, h: nat, c: Color)
    requires sub.Node? && st.Node?
    ensures CtxRb(TwoCtx(ctx0, sub, path, st, augmented), h, c)
         == CtxRb(Compose(path, In(R, sub.item, sub.color, sub.aug, sub.left, ctx0)), h, c)
  {
    var path' := Refreshed(augmented, path, Aug(st.right));
    var a := if augmented then sub.aug else st.aug;
    var f0 := In(R, st.item, sub.color, a, sub.left, ctx0);
    var m := Aug(Plug(path', st.right.Paint(Black)));
    var f := Refreshed(augmented, f0, m);
    RefreshComposeRb(path, Aug(st.right), f, h, c);
    if augmented {
      forall h': nat, c' ensures CtxRb(f.up, h', c') == CtxRb(ctx0, h', c') {
        RefreshRb(ctx0, Max(LocalMax(st.item.value, m, Aug(sub.left))), h', c');
      }
    }
    ComposeRb(path, f, In(R, sub.item, sub.color, sub.aug, sub.left, ctx0), h, c);
  }

  lemma TwoRb(ctx0: Ctx, sub: Tree, path: Ctx, st: Tree, augmented: bool)
    requires sub.Node? && st.Node? && st.left.Leaf? && Plug(path, st) == sub.right
    requires IsRedBlack(Plug(ctx0, sub))
    ensures var ctx, t := TwoCtx(ctx0, sub, path, st, augmented), st.right.Paint(Black);
      if st.right.Leaf? && st.color == Black then Rb(t, 0) && CtxRb(ctx, 1, Black)
      else IsRedBlack(Plug(ctx, t))
  {
    var ctx, t := TwoCtx(ctx0, sub, path, st, augmented), st.right.Paint(Black);
    var base := In(R, sub.item, sub.color, sub.aug, sub.left, ctx0);
    PlugCompose(path, base, st);
    var h := UnplugRb(Compose(path, base), st);
    TwoCtxRb(ctx0, sub, path, st, augmented, h, st.color);
    if st.color == Red {
      assert h == 0 && st.right.Leaf?;
      AcceptsBlack(ctx, 0);
      PlugRb(ctx, t, 0);
    } else {
      assert h == 1 && Rb(st.right, 0);
      if st.right.Node? {
        assert Rb(t, 1);
        PlugRb(ctx, t, 1);
      }
    }
  }

  lemma {:induction false} ComposeInorder(path: Ctx, base: Ctx)
    ensures Before(Compose(path, base)) == Before(base) + Before(path)
    ensures After(Compose(path, base)) == After(path) + After(base)
  {
    if path.In? {
      ComposeInorder(path.up, base);
      if path.side == L {
        Regroup3([path.item] + Inorder(path.sib), After(path.up), After(base));
      } else {
        Regroup3(Before(base), Before(path.up), Inorder(path.sib) + [path.item]);
        Regroup3(Before(base) + Before(path.up), Inorder(path.sib), [path.item]);
        Regroup3(Before(path.up), Inorder(path.sib), [path.item]);
      }
    }
  }

  lemma Regroup3<T>(a: seq<T>, b: seq<T>, c: seq<T>)
    ensures a + b + c == a + (b + c)
  {
  }

  lemma {:induction false} LeftPathBefore(path: Ctx)
    requires LeftPath(path)
    ensures Before(path) == []
  {
    if path.In? { LeftPathBefore(path.up); }
  }

  lemma TwoInorderAfter(ctx0: Ctx, sub: Tree, path: Ctx, st: Tree, augmented: bool)
    requires sub.Node? && st.Node? && LeftPath(path)
    ensures Inorder(Plug(TwoCtx(ctx0, sub, path, st, augmented), st.right.Paint(Black)))
         == (Before(ctx0) + Inorder(sub.left) + [st.item] + []) + Inorder(st.right) + (After(path) + After(ctx0))
  {
    var path' := Refreshed(augmented, path, Aug(st.right));
    var a := if augmented then sub.aug else st.aug;
    var f0 := In(R, st.item, sub.color, a, sub.left, ctx0);
    var m := Aug(Plug(path', st.right.Paint(Black)));
    var f := Refreshed(augmented, f0, m);
    assert Inorder(st.right.Paint(Black)) == Inorder(st.right);
    assert Before(f0) == Before(ctx0) + Inorder(sub.left) + [st.item] && After(f0) == After(ctx0);
    hide Inorder, Before, After, Plug, Compose, Refresh;
    RefreshShape(path, Aug(st.right));
    RefreshShape(f0, m);
    LeftPathBefore(path);
    ComposeInorder(path', f);
    PlugInorder(Compose(path', f), st.right.Paint(Black));
  }

  lemma TwoInorderBefore(ctx0: Ctx, sub: Tree, path: Ctx, st: Tree)
    requires sub.Node? && st.Node? && st.left.Leaf? && LeftPath(path) && Plug(path, st) == sub.right
    ensures Inorder(sub.right) == [] + ([st.item] + Inorder(st.right)) + After(path)
    ensures Inorder(Plug(ctx0, sub))
         == Before(ctx0) + (Inorder(sub.left) + [sub.item] + Inorder(sub.right)) + After(ctx0)
  {
    hide Inorder, Plug, Before, After, LeftPath;
    NodeParts(st);
    NodeParts(sub);
    LeftPathBefore(path);
    PlugInorder(path, st);
    PlugInorder(ctx0, sub);
  }

  lemma TwoInorder(ctx0: Ctx, sub: Tree, path: Ctx, st: Tree, augmented: bool)
    requires sub.Node? && st.Node? && st.left.Leaf? && LeftPath(path) && Plug(path, st) == sub.right
    ensures var t', t := Plug(TwoCtx(ctx0, sub, path, st, augmented), st.right.Paint(Black)), Plug(ctx0, sub);
      var k := |Before(ctx0)| + |Inorder(sub.left)|;
      k < |Inorder(t)| && Inorder(t') == Inorder(t)[..k] + Inorder(t)[k + 1..]
  {
    hide Inorder, Before, After, Plug, TwoCtx;
    TwoInorderAfter(ctx0, sub, path, st, augmented);
    TwoInorderBefore(ctx0, sub, path, st);
    TwoRemoved(Before(ctx0), Inorder(sub.left), sub.item, st.item, Inorder(st.right), After(path), After(ctx0),
               Inorder(sub.right), Inorder(Plug(ctx0, sub)),
               Inorder(Plug(TwoCtx(ctx0, sub, path, st, augmented), st.right.Paint(Black))));
  }

  lemma TwoRemoved<T>(a: seq<T>, b: seq<T>, n: T, x: T, c: seq<T>, d: seq<T>, e: seq<T>, r: seq<T>,
                      q: seq<T>, q': seq<T>)
    requires r == [] + ([x] + c) + d
    requires q == a + (b + [n] + r) + e && q' == (a + b + [x] + []) + c + (d + e)
    ensures var k := |a| + |b|; k < |q| && q' == q[..k] + q[k + 1..]
  {
    Removed(a, b, n, r, e);
    calc {
      a + (b + r) + e;
      { assert a + (b + r) == a + b + r; }
      a + b + r + e;
      { assert r == [x] + c + d; }
      a + b + ([x] + c + d) + e;
      (a + b + [x] + []) + c + (d + e);
    }
  }

  // ---------------------------------------------------------------- erase

  /** __rb_erase_augmented */
  method Splice(root: RbRoot, node: RbNode, augmented: bool, ghost ctx0: Ctx, ghost sub: Tree)
    returns (rebalance: RbNode?, ghost ctx: Ctx, ghost t: Tree)
    requires Located(root.node, null, ctx0, sub) && IsRedBlack(Plug(ctx0, sub))
    requires sub.Node? && sub.item == node
    modifies root`node, CtxNodes(ctx0), Nodes(sub)
    ensures Spliced(root, rebalance, ctx, t)
    ensures Without(Plug(ctx, t), Plug(ctx0, sub), |Before(ctx0)| + |Inorder(sub.left)|, augmented)
    ensures CtxNodes(ctx) + Nodes(t) == CtxNodes(ctx0) + Nodes(sub) - {node}
  {
    hide Repr, PathRepr, Nodes, CtxNodes, Rb, CtxRb, Inorder, AugOk, Plug, Before;
    SubParts(root.node, ctx0, sub);
    LeafNodes();
    var child, tmp := node.right, node.left;
    if tmp == null {
      KidsOf(R, sub);
      rebalance, ctx, t := SpliceOne(root, node, child, R, augmented, ctx0, sub, sub.right);
    } else if child == null {
      KidsOf(L, sub);
      rebalance, ctx, t := SpliceOne(root, node, tmp, L, augmented, ctx0, sub, sub.left);
    } else {
      rebalance, ctx, t := SpliceTwo(root, node, augmented, ctx0, sub);
    }
  }

  lemma LeafNodes()
    ensures Nodes(Leaf) == {}
  {
  }

  /** rb_erase (dummy callbacks) and rb_erase_augmented (max callbacks): the tree is valid and
      holds exactly the other nodes, in the same order. */
  method Erase(root: RbRoot, node: RbNode, augmented: bool, ghost k: nat)
    requires root.Valid() && k < |Inorder(root.tree)| && Inorder(root.tree)[k] == node
    modifies root, Nodes(root.tree)
    ensures root.Valid() && Without(root.tree, old(root.tree), k, augmented)
    ensures Nodes(root.tree) == old(Nodes(root.tree)) - {node}
    ensures old(allocated(Nodes(root.tree)))
    ensures !augmented ==> forall x :: x in old(Nodes(root.tree)) && x != node ==> x.augmented == old(x.augmented)
  {
    hide Repr, PathRepr, Nodes, CtxNodes, Rb, CtxRb, Inorder, AugOk, Plug, Before, Fields;
    assert allocated(Nodes(root.tree));
    FieldsStored(root.node, null, root.tree);
    ghost var ctx0, sub := Locate(root, node, k);
    PlugNodes(ctx0, sub);
    SubParts(root.node, ctx0, sub);
    var rebalance, ctx, t := Splice(root, node, augmented, ctx0, sub);
    PlugNodes(ctx, t);
    LeafNodes();
    if rebalance != null {
      ghost var t1 := EraseColor(root, rebalance, augmented, ctx);
      root.tree := t1;
    } else {
      LocatedPlug(root.node, null, ctx, t);
      root.tree := Plug(ctx, t);
    }
    FieldsStored(root.node, null, root.tree);
  }
}

/**
 The augmentation callbacks, and the rotation step that the insert and erase code share. The
 mirrored branches of the C code are one body in which `s` is the side tested by the branch.
 */
module RbBalance {
  import opened RbTree

  /** An rb_root. `tree` is the tree its link reaches. */
  class RbRoot {
    var node: RbNode?
    ghost var tree: Tree

    ghost predicate Valid()
      reads this, Nodes(tree)
    {
      Repr(node, null, tree) && IsRedBlack(tree)
    }

    constructor ()
      ensures Valid() && tree == Leaf
    {
      node, tree := null, Leaf;
      new;
      assert Rb(Leaf, 0);
    }
  }

  // ---------------------------------------------------------------- augmentation callbacks

  ghost function Stored(n: RbNode?): MaxOf
    reads n
  {
    if n == null then Nothing else Max(n.augmented)
  }

  /** compute_max: true when `exit` is asked for and the stored value was already right. */
  method ComputeMax(n: RbNode, exit: bool) returns (stop: bool)
    modifies n`augmented
    ensures n.left != n && n.right != n
       ==> n.augmented == old(LocalMax(n.value, Stored(n.left), Stored(n.right)))
    ensures stop ==> n.augmented == old(n.augmented)
    ensures stop <==> exit && n.augmented == old(n.augmented)
  {
    var max := n.value;
    if n.left != null {
      if n.left.augmented > max { max := n.left.augmented; }
    }
    if n.right != null {
      if n.right.augmented > max { max := n.right.augmented; }
    }
    if exit && n.augmented == max { return true; }
    n.augmented := max;
    return false;
  }

  /** The rotate callback: `augmented` tells the max callbacks from the dummy ones. */
  method AugmentRotate(augmented: bool, old_: RbNode, new_: RbNode, ghost s: Side)
    requires old_ != new_ && old_.left != old_ && old_.right != old_
    modifies old_`augmented, new_`augmented
    ensures !augmented ==> new_.augmented == old(new_.augmented) && old_.augmented == old(old_.augmented)
    ensures augmented ==> new_.augmented == old(old_.augmented)
    ensures augmented && old_.left != new_ && old_.right != new_ ==>
      old_.augmented == old(LocalMax(old_.value, Stored(old_.Child(s)), Stored(old_.Child(s.Opp()))))
  {
    if augmented {
      new_.augmented := old_.augmented;
      var _ := ComputeMax(old_, false);
    }
  }

  // ---------------------------------------------------------------- relinking

  /** __rb_change_child: the link that led to `old_` now leads to `new_`. */
  method ChangeChild(old_: RbNode, new_: RbNode?, parent: RbNode?, root: RbRoot, ghost ctx: Ctx)
    requires parent == HoleOwner(ctx, null)
    requires PathRepr(root.node, null, ctx, old_) && old_ !in CtxNodes(ctx)
    modifies root`node, if parent == null then {} else {parent}
    ensures PathRepr(root.node, null, ctx, new_)
    ensures parent != null ==>
      && root.node == old(root.node)
      && parent.parent == old(parent.parent) && parent.color == old(parent.color)
      && parent.augmented == old(parent.augmented)
  {
    if parent != null {
      ghost var x := ctx.item;
      if parent.left == old_ { parent.left := new_; } else { parent.right := new_; }
    } else {
      root.node := new_;
    }
  }

  /** Give the subtree at `n` another owner, and a colour if asked. */
  method SetParent(n: RbNode?, p: RbNode?, paint: bool, c: Color, ghost t: Tree, ghost q: RbNode?)
    requires Repr(n, q, t)
    modifies if n == null then {} else {n}
    ensures Repr(n, p, if paint then t.Paint(c) else t)
  {
    if n != null {
      n.parent := p;
      if paint { n.color := c; }
    }
  }

  /** The two nodes, three subtrees and the context a rotation at `old_` involves. Neither the
      link between the two nodes nor the colour, owner and augmented value of `new_` matter. */
  ghost predicate Pieces(root: RbRoot, old_: RbNode, new_: RbNode, s: Side,
                         ctx: Ctx, a: Tree, b: Tree, c: Tree)
    reads root, old_, new_, CtxNodes(ctx), Nodes(a), Nodes(b), Nodes(c)
  {
    && old_ != new_
    && {old_, new_} !! CtxNodes(ctx) !! Nodes(a) !! Nodes(b) !! Nodes(c)
    && PathRepr(root.node, null, ctx, old_) && old_.parent == HoleOwner(ctx, null)
    && Repr(new_.Child(s), new_, a)
    && Repr(new_.Child(s.Opp()), new_, b)
    && Repr(old_.Child(s.Opp()), old_, c)
  }

  ghost function RotatedAug(augmented: bool, x: RbNode, kept: int, b: Tree, c: Tree): int {
    if augmented then LocalMax(x.value, Aug(b), Aug(c)) else kept
  }

  /** __rb_rotate_set_parents */
  method RotateSetParents(old_: RbNode, new_: RbNode, root: RbRoot, color: Color, ghost ctx: Ctx)
    requires PathRepr(root.node, null, ctx, old_) && old_.parent == HoleOwner(ctx, null)
    requires old_ != new_ && {old_, new_} !! CtxNodes(ctx)
    modifies root`node, old_`parent, old_`color, new_`parent, new_`color, CtxNodes(ctx)
    ensures PathRepr(root.node, null, ctx, new_)
    ensures new_.parent == HoleOwner(ctx, null) && new_.color == old(old_.color)
    ensures old_.parent == new_ && old_.color == color
  {
    var parent := old_.parent;
    new_.parent, new_.color := old_.parent, old_.color;
    old_.parent, old_.color := new_, color;
    ChangeChild(old_, new_, parent, root, ctx);
  }

  /** `new_` hands its inner subtree `b` to `old_` and takes `old_` below it. */
  method TakeInner(old_: RbNode, new_: RbNode, s: Side, paint: bool, ghost b: Tree)
    requires Repr(new_.Child(s.Opp()), new_, b) && old_ != new_ && {old_, new_} !! Nodes(b)
    modifies old_`left, old_`right, new_`left, new_`right, Nodes(b)
    ensures var b' := if paint then b.Paint(Black) else b;
      Repr(old_.Child(s), old_, b') && Nodes(b') == Nodes(b) && Aug(b') == Aug(b)
    ensures old_.Child(s.Opp()) == old(old_.Child(s.Opp()))
    ensures new_.Child(s) == old(new_.Child(s)) && new_.Child(s.Opp()) == old_
  {
    assert allocated(Nodes(b));
    var tmp := new_.Child(s.Opp());
    old_.SetChild(s, tmp);
    new_.SetChild(s.Opp(), old_);
    SetParent(tmp, old_, paint, Black, b, new_);
  }

  /** The link and colour writes of a rotation at `old_`. */
  method RotateLinks(root: RbRoot, old_: RbNode, new_: RbNode, s: Side, paint: bool, color: Color,
                     ghost ctx: Ctx, ghost a: Tree, ghost b: Tree, ghost c: Tree)
    requires Pieces(root, old_, new_, s, ctx, a, b, c)
    modifies root`node, CtxNodes(ctx), Nodes(b)
    modifies old_`left, old_`right, old_`parent, old_`color, new_`left, new_`right, new_`parent, new_`color
    ensures var b' := if paint then b.Paint(Black) else b;
      && Nodes(b') == Nodes(b) && Aug(b') == Aug(b)
      && Repr(old_.Child(s), old_, b')
    ensures Repr(old_.Child(s.Opp()), old_, c)
    ensures old_.parent == new_ && old_.color == color
    ensures Repr(new_.Child(s), new_, a) && new_.Child(s.Opp()) == old_
    ensures new_.parent == HoleOwner(ctx, null) && new_.color == old(old_.color)
    ensures PathRepr(root.node, null, ctx, new_)
  {
    hide Repr, PathRepr, Nodes, CtxNodes, Mk;
    assert allocated(CtxNodes(ctx)) && allocated(Nodes(a)) && allocated(Nodes(b)) && allocated(Nodes(c));
    TakeInner(old_, new_, s, paint, b);
    RotateSetParents(old_, new_, root, color, ctx);
  }

  /** Rotate at `old_`: `new_`, its child on side `s`, takes its place, colour and augmented
      value; `old_` goes below with colour `color` and takes over the inner subtree `b`. */
  method RotateUp(root: RbRoot, old_: RbNode, new_: RbNode, s: Side, paint: bool, color: Color,
                  augmented: bool, ghost ctx: Ctx, ghost a: Tree, ghost b: Tree, ghost c: Tree)
    returns (ghost t: Tree)
    requires Pieces(root, old_, new_, s, ctx, a, b, c)
    modifies root`node, {old_, new_}, CtxNodes(ctx), Nodes(b)
    ensures Located(root.node, null, ctx, t)
    ensures var b' := if paint then b.Paint(Black) else b;
      t == Mk(s, a, new_, old(old_.color), if augmented then old(old_.augmented) else old(new_.augmented),
              Mk(s, b', old_, color, RotatedAug(augmented, old_, old(old_.augmented), b, c), c))
  {
    hide Repr, PathRepr, Nodes, CtxNodes, Mk, LocalMax;
    RotateNodes(root, old_, new_, s, paint, color, augmented, ctx, a, b, c);
    t := RotatedLocated(root.node, s, ctx, a, if paint then b.Paint(Black) else b, c, old_, new_);
  }

  /** A rotation's writes, the augmented fields included. */
  method RotateNodes(root: RbRoot, old_: RbNode, new_: RbNode, s: Side, paint: bool, color: Color,
                     augmented: bool, ghost ctx: Ctx, ghost a: Tree, ghost b: Tree, ghost c: Tree)
    requires Pieces(root, old_, new_, s, ctx, a, b, c)
    modifies root`node, {old_, new_}, CtxNodes(ctx), Nodes(b)
    ensures Repr(old_.Child(s), old_, if paint then b.Paint(Black) else b) && Repr(old_.Child(s.Opp()), old_, c)
    ensures Nodes(if paint then b.Paint(Black) else b) == Nodes(b)
    ensures old_.parent == new_ && old_.color == color
    ensures old_.augmented == RotatedAug(augmented, old_, old(old_.augmented), b, c)
    ensures Repr(new_.Child(s), new_, a) && new_.Child(s.Opp()) == old_
    ensures new_.parent == HoleOwner(ctx, null) && new_.color == old(old_.color)
    ensures new_.augmented == if augmented then old(old_.augmented) else old(new_.augmented)
    ensures PathRepr(root.node, null, ctx, new_)
  {
    hide Repr, PathRepr, Nodes, CtxNodes, LocalMax;
    assert allocated(CtxNodes(ctx)) && allocated(Nodes(a)) && allocated(Nodes(b)) && allocated(Nodes(c));
    RotateLinks(root, old_, new_, s, paint, color, ctx, a, b, c);
    ReprFields(old_.Child(s.Opp()), old_, c);
    ReprFields(old_.Child(s), old_, if paint then b.Paint(Black) else b);
    AugmentRotate(augmented, old_, new_, s);
  }

  /** Rotated nodes and subtrees in place make the rotated tree. */
  lemma RotatedLocated(top: RbNode?, s: Side, ctx: Ctx, a: Tree, b: Tree, c: Tree, old_: RbNode, new_: RbNode)
    returns (t: Tree)
    requires old_ != new_ && {old_, new_} !! CtxNodes(ctx) !! Nodes(a) !! Nodes(b) !! Nodes(c)
    requires Repr(old_.Child(s), old_, b) && Repr(old_.Child(s.Opp()), old_, c) && old_.parent == new_
    requires Repr(new_.Child(s), new_, a) && new_.Child(s.Opp()) == old_
    requires new_.parent == HoleOwner(ctx, null) && PathRepr(top, null, ctx, new_)
    ensures Located(top, null, ctx, t)
    ensures t == Mk(s, a, new_, new_.color, new_.augmented, Mk(s, b, old_, old_.color, old_.augmented, c))
  {
    hide Repr, PathRepr, Nodes, CtxNodes, Mk;
    MkRepr(s, b, old_, old_.color, old_.augmented, c, new_);
    var low := Mk(s, b, old_, old_.color, old_.augmented, c);
    MkRepr(s, a, new_, new_.color, new_.augmented, low, HoleOwner(ctx, null));
    t := Mk(s, a, new_, new_.color, new_.augmented, low);
  }

  lemma MkOpp(s: Side, near: Tree, x: RbNode, c: Color, a: int, far: Tree)
    ensures Mk(s.Opp(), far, x, c, a, near) == Mk(s, near, x, c, a, far)
  {
  }

  lemma MkRb(s: Side, near: Tree, x: RbNode, c: Color, a: int, far: Tree, h: nat)
    ensures Rb(Mk(s, near, x, c, a, far), h) <==>
      if c == Red then IsBlack(near) && IsBlack(far) && Rb(near, h) && Rb(far, h)
      else h > 0 && Rb(near, h - 1) && Rb(far, h - 1)
  {
  }

  lemma MkInorder(s: Side, near: Tree, x: RbNode, c: Color, a: int, far: Tree)
    ensures Inorder(Mk(s, near, x, c, a, far))
         == if s == L then Inorder(near) + [x] + Inorder(far) else Inorder(far) + [x] + Inorder(near)
    ensures Nodes(Mk(s, near, x, c, a, far)) == {x} + Nodes(near) + Nodes(far)
    ensures Fields(Mk(s, near, x, c, a, far)) == {(x, a)} + Fields(near) + Fields(far)
  {
  }

  lemma Assoc<T>(a: seq<T>, x: T, b: seq<T>, y: T, c: seq<T>)
    ensures a + [x] + b + [y] + c == a + [x] + (b + [y] + c)
  {
  }

  lemma RotateInorder(s: Side, a: Tree, x: RbNode, b: Tree, y: RbNode, c: Tree,
                      cx: Color, ax: int, cy: Color, ay: int, cx': Color, ax': int, cy': Color, ay': int)
    ensures Inorder(Mk(s, Mk(s, a, x, cx, ax, b), y, cy, ay, c))
         == Inorder(Mk(s, a, x, cx', ax', Mk(s, b, y, cy', ay', c)))
    ensures Nodes(Mk(s, Mk(s, a, x, cx, ax, b), y, cy, ay, c))
         == Nodes(Mk(s, a, x, cx', ax', Mk(s, b, y, cy', ay', c)))
    ensures ax' == ax && ay' == ay ==>
      Fields(Mk(s, Mk(s, a, x, cx, ax, b), y, cy, ay, c)) == Fields(Mk(s, a, x, cx', ax', Mk(s, b, y, cy', ay', c)))
  {
    hide Inorder, Nodes, Fields;
    MkInorder(s, a, x, cx, ax, b);
    MkInorder(s, Mk(s, a, x, cx, ax, b), y, cy, ay, c);
    MkInorder(s, b, y, cy', ay', c);
    MkInorder(s, a, x, cx', ax', Mk(s, b, y, cy', ay', c));
    Assoc(Inorder(a), x, Inorder(b), y, Inorder(c));
    Assoc(Inorder(c), y, Inorder(b), x, Inorder(a));
  }

  /** The rotate callback's two assignments re-establish the maxima. */
  lemma RotateAug(s: Side, a: Tree, x: RbNode, b: Tree, y: RbNode, c: Tree,
                  cx: Color, ax: int, cy: Color, ay: int, cx': Color, cy': Color)
    requires AugOk(Mk(s, Mk(s, a, x, cx, ax, b), y, cy, ay, c))
    ensures AugOk(Mk(s, a, x, cx', ay, Mk(s, b, y, cy', LocalMax(y.value, Aug(b), Aug(c)), c)))
  {
  }
}

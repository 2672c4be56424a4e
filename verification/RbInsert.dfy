/**
 Insertion: linking a new red node at the bottom, and the recolouring loop that climbs from it.
 */
module RbInsert {
  import opened RbTree
  import opened RbBalance

  /** `t` holds the nodes of `t0` in the same order. With the max callbacks its maxima are correct if
      those of `t0` were; with the dummy ones every augmented field is as it was. */
  ghost predicate SameContents(t: Tree, t0: Tree, augmented: bool) {
    && Inorder(t) == Inorder(t0)
    && Nodes(t) == Nodes(t0)
    && (augmented && AugOk(t0) ==> AugOk(t))
    && (!augmented ==> Fields(t) == Fields(t0))
  }

  method Paint(n: RbNode, c: Color, ghost p: RbNode?, ghost t: Tree)
    requires Repr(n, p, t)
    modifies n`color
    ensures Repr(n, p, t.Paint(c))
  {
    n.color := c;
  }

  /** Case 1, red uncle: the grandparent turns red and becomes the node to look at. */
  method InsertFlip(root: RbRoot, node: RbNode, parent: RbNode, gparent: RbNode, uncle: RbNode,
                    s: Side, ghost s1: Side, ghost ctx: Ctx, ghost t: Tree, ghost h: nat)
    returns (ghost t': Tree)
    requires ctx.In? && ctx.up.In? && t.Node?
    requires ctx.side == s1 && ctx.item == parent && ctx.color == Red
    requires ctx.up.side == s && ctx.up.item == gparent && ctx.up.sib.Node? && ctx.up.sib.item == uncle
    requires ctx.up.sib.color == Red
    requires Located(root.node, null, ctx, t) && Rb(t, h) && CtxRb(ctx, h, Black)
    modifies parent`color, gparent`color, uncle`color
    ensures Located(root.node, null, ctx.up.up, t')
    ensures t'.Node? && t'.item == gparent && t'.color == Red
    ensures Rb(t', h + 1) && CtxRb(ctx.up.up, h + 1, Black)
    ensures SameContents(Plug(ctx.up.up, t'), Plug(ctx, t), true) && SameContents(Plug(ctx.up.up, t'), Plug(ctx, t), false)
  {
    ghost var p0 := Mk(s1, t, parent, Red, ctx.aug, ctx.sib);
    ghost var g0 := Mk(s, p0, gparent, ctx.up.color, ctx.up.aug, ctx.up.sib);
    LocatedStep(root.node, null, ctx, t);
    LocatedStep(root.node, null, ctx.up, p0);
    t' := InsertFlipLinks(root, parent, gparent, uncle, s, ctx.up.up, p0, g0);
    FlipShape(s, s1, ctx, t, h);
  }

  lemma FlipShape(s: Side, s1: Side, ctx: Ctx, t: Tree, h: nat)
    requires ctx.In? && ctx.up.In? && t.Node?
    requires ctx.side == s1 && ctx.color == Red
    requires ctx.up.side == s && ctx.up.sib.Node? && ctx.up.sib.color == Red
    requires Rb(t, h) && CtxRb(ctx, h, Black)
    ensures var p0 := Mk(s1, t, ctx.item, Red, ctx.aug, ctx.sib);
      var g0 := Mk(s, p0, ctx.up.item, ctx.up.color, ctx.up.aug, ctx.up.sib);
      var g1 := Mk(s, p0.Paint(Black), ctx.up.item, Red, ctx.up.aug, ctx.up.sib.Paint(Black));
      && Rb(g1, h + 1) && CtxRb(ctx.up.up, h + 1, Black)
      && SameContents(Plug(ctx.up.up, g1), Plug(ctx, t), true) && SameContents(Plug(ctx.up.up, g1), Plug(ctx, t), false)
  {
    var p0 := Mk(s1, t, ctx.item, Red, ctx.aug, ctx.sib);
    var g0 := Mk(s, p0, ctx.up.item, ctx.up.color, ctx.up.aug, ctx.up.sib);
    var g1 := Mk(s, p0.Paint(Black), ctx.up.item, Red, ctx.up.aug, ctx.up.sib.Paint(Black));
    assert Plug(ctx, t) == Plug(ctx.up.up, g0);
    assert AugOk(p0.Paint(Black)) == AugOk(p0) && AugOk(ctx.up.sib.Paint(Black)) == AugOk(ctx.up.sib);
    PaintNodes(p0, Black);
    PaintNodes(ctx.up.sib, Black);
    MkInorder(s, p0, ctx.up.item, ctx.up.color, ctx.up.aug, ctx.up.sib);
    MkInorder(s, p0.Paint(Black), ctx.up.item, Red, ctx.up.aug, ctx.up.sib.Paint(Black));
    Replaced(ctx.up.up, g0, g1, true);
    Replaced(ctx.up.up, g0, g1, false);
  }

  method InsertFlipLinks(root: RbRoot, parent: RbNode, gparent: RbNode, uncle: RbNode, s: Side,
                         ghost up: Ctx, ghost p0: Tree, ghost g0: Tree)
    returns (ghost g1: Tree)
    requires p0.Node? && p0.item == parent && g0.Node?
    requires g0 == Mk(s, p0, gparent, g0.color, g0.aug, g0.Kid(s.Opp()))
    requires g0.Kid(s.Opp()).Node? && g0.Kid(s.Opp()).item == uncle
    requires Located(root.node, null, up, g0)
    modifies parent`color, gparent`color, uncle`color
    ensures g1 == Mk(s, p0.Paint(Black), gparent, Red, g0.aug, g0.Kid(s.Opp()).Paint(Black))
    ensures Located(root.node, null, up, g1)
  {
    hide Repr, PathRepr, Nodes, CtxNodes;
    ghost var u0 := g0.Kid(s.Opp());
    ghost var q := HoleOwner(up, null);
    assert allocated(CtxNodes(up)) && allocated(Nodes(g0)) && allocated(Nodes(p0)) && allocated(Nodes(u0));
    MkRepr(s, p0, gparent, g0.color, g0.aug, u0, q);
    Paint(uncle, Black, gparent, u0);
    Paint(parent, Black, gparent, p0);
    gparent.color := Red;
    PaintNodes(p0, Black);
    PaintNodes(u0, Black);
    MkRepr(s, p0.Paint(Black), gparent, Red, g0.aug, u0.Paint(Black), q);
    g1 := Mk(s, p0.Paint(Black), gparent, Red, g0.aug, u0.Paint(Black));
  }

  lemma PaintNodes(t: Tree, c: Color)
    ensures Nodes(t.Paint(c)) == Nodes(t) && Fields(t.Paint(c)) == Fields(t)
    ensures Aug(t.Paint(c)) == Aug(t)
    ensures t.Node? && t.color == c ==> t.Paint(c) == t
  {
  }

  /** Case 2: rotate at the parent, so that the node ends on the outer side. The link from the
      grandparent is left stale, as the following rotation overwrites it. */
  method RotateLower(parent: RbNode, node: RbNode, s: Side, augmented: bool,
                     ghost outer: Tree, ghost near: Tree)
    returns (ghost low: Tree)
    requires parent != node
    requires {parent, node} !! Nodes(outer) !! Nodes(near)
    requires Repr(parent.Child(s), parent, outer) && Repr(node.Child(s), node, near)
    modifies node`left, node`right, node`augmented, parent, Nodes(near)
    ensures low == Mk(s, outer, parent, Red,
                      RotatedAug(augmented, parent, old(parent.augmented), near, outer), near.Paint(Black))
    ensures Repr(node.Child(s), node, low) && node.Child(s) == parent
    ensures node.Child(s.Opp()) == old(node.Child(s.Opp()))
    ensures node.augmented == old(if augmented then parent.augmented else node.augmented)
  {
    hide Repr, PathRepr, Nodes, Mk;
    assert allocated(Nodes(outer)) && allocated(Nodes(near));
    assert s.Opp().Opp() == s;
    TakeInner(parent, node, s.Opp(), true, near);
    ghost var on := parent.Child(s);
    parent.parent := node;
    parent.color := Red;
    PaintNodes(near, Black);
    assert Repr(on, parent, outer) && Repr(parent.Child(s.Opp()), parent, near.Paint(Black));
    ReprFields(on, parent, outer);
    ReprFields(parent.Child(s.Opp()), parent, near.Paint(Black));
    AugmentRotate(augmented, parent, node, s.Opp());
    MkRepr(s, outer, parent, Red, parent.augmented, near.Paint(Black), node);
    low := Mk(s, outer, parent, Red, parent.augmented, near.Paint(Black));
  }

  /** A red node under a red parent, whose uncle is black. */
  ghost predicate RedUnderRed(root: RbRoot, s: Side, ctx: Ctx, t: Tree, h: nat)
    reads root, CtxNodes(ctx), Nodes(t)
  {
    && ctx.In? && ctx.up.In? && t.Node? && t.color == Red
    && ctx.color == Red && ctx.up.side == s && IsBlack(ctx.up.sib)
    && Located(root.node, null, ctx, t) && Rb(t, h) && CtxRb(ctx, h, Black)
  }

  /** Case 3: rotate at the grandparent. */
  method InsertOuter(root: RbRoot, parent: RbNode, gparent: RbNode, s: Side, augmented: bool,
                     ghost ctx: Ctx, ghost t: Tree, ghost h: nat)
    returns (ghost t': Tree)
    requires RedUnderRed(root, s, ctx, t, h)
    requires ctx.side == s && ctx.item == parent && ctx.up.item == gparent
    modifies root`node, CtxNodes(ctx), Nodes(t)
    ensures Repr(root.node, null, t') && IsRedBlack(t')
    ensures SameContents(t', Plug(ctx, t), augmented)
  {
    hide Repr, PathRepr, Rb;
    ghost var up, b, c := ctx.up.up, ctx.sib, ctx.up.sib;
    LocatedFields(root.node, null, ctx, t);
    LocatedStep(root.node, null, ctx, t);
    LocatedFields(root.node, null, ctx.up, Mk(s, t, parent, Red, ctx.aug, b));
    assert Pieces(root, gparent, parent, s, up, t, b, c);
    ghost var t1 := RotateUp(root, gparent, parent, s, true, Red, augmented, up, t, b, c);
    LocatedPlug(root.node, null, up, t1);
    t' := Plug(up, t1);
    OuterShape(s, ctx, t, h, augmented);
  }

  /** What a located frame says of the node that owns the hole. */
  lemma LocatedFields(top: RbNode?, tp: RbNode?, ctx: Ctx, t: Tree)
    requires Located(top, tp, ctx, t) && ctx.In?
    ensures var In(s, x, c, a, sib, up) := ctx;
      && x.Child(s) == Link(t) && x.color == c && x.augmented == a && x.parent == HoleOwner(up, tp)
      && Repr(x.Child(s), x, t) && Repr(x.Child(s.Opp()), x, sib)
      && PathRepr(top, tp, up, x)
      && {x} !! Nodes(t) !! Nodes(sib) !! CtxNodes(up)
  {
  }

  lemma OuterShape(s: Side, ctx: Ctx, t: Tree, h: nat, augmented: bool)
    requires ctx.In? && ctx.up.In? && ctx.color == Red && ctx.side == s && ctx.up.side == s
    requires Rb(t, h) && CtxRb(ctx, h, Black) && IsBlack(ctx.up.sib)
    ensures ctx.up.color == Black
    ensures var b, c, up := ctx.sib, ctx.up.sib, ctx.up.up;
      var x, y := ctx.item, ctx.up.item;
      var t1 := Mk(s, t, x, Black, if augmented then ctx.up.aug else ctx.aug,
                   Mk(s, b.Paint(Black), y, Red, RotatedAug(augmented, y, ctx.up.aug, b, c), c));
      IsRedBlack(Plug(up, t1)) && SameContents(Plug(up, t1), Plug(ctx, t), augmented)
  {
    var b, c, up := ctx.sib, ctx.up.sib, ctx.up.up;
    var x, y := ctx.item, ctx.up.item;
    var ax, ay := ctx.aug, ctx.up.aug;
    var ax', ay' := if augmented then ay else ax, RotatedAug(augmented, y, ay, b, c);
    var t0 := Mk(s, Mk(s, t, x, Red, ax, b), y, Black, ay, c);
    var low := Mk(s, b, y, Red, ay', c);
    var t1 := Mk(s, t, x, Black, ax', low);
    assert b.Paint(Black) == b;
    MkRb(s, b, y, Red, ay', c, h);
    MkRb(s, t, x, Black, ax', low, h + 1);
    PlugRb(up, t1, h + 1);
    RotateInorder(s, t, x, b, y, c, Red, ax, Black, ay, Black, ax', Red, ay');
    Replaced(up, t0, t1, augmented) by {
      if augmented && AugOk(t0) { RotateAug(s, t, x, b, y, c, Red, ax, Black, ay, Black, Red); }
    }
  }

  lemma Replaced(ctx: Ctx, t0: Tree, t1: Tree, augmented: bool)
    requires Inorder(t0) == Inorder(t1) && Nodes(t0) == Nodes(t1)
    requires augmented && AugOk(t0) ==> AugOk(t1) && Aug(t1) == Aug(t0)
    requires !augmented ==> Fields(t1) == Fields(t0)
    ensures SameContents(Plug(ctx, t1), Plug(ctx, t0), augmented)
  {
    PlugInorder(ctx, t0);
    PlugInorder(ctx, t1);
    PlugNodes(ctx, t0);
    PlugNodes(ctx, t1);
    PlugAug(ctx, t0);
    PlugAug(ctx, t1);
    PlugFields(ctx, t0);
    PlugFields(ctx, t1);
  }

  /** Cases 2 and 3: rotate at the parent, then at the grandparent. */
  method InsertInner(root: RbRoot, node: RbNode, parent: RbNode, gparent: RbNode, s: Side, augmented: bool,
                     ghost ctx: Ctx, ghost t: Tree, ghost h: nat)
    returns (ghost t': Tree)
    requires RedUnderRed(root, s, ctx, t, h)
    requires ctx.side == s.Opp() && t.item == node && ctx.item == parent && ctx.up.item == gparent
    modifies root`node, CtxNodes(ctx), Nodes(t)
    ensures Repr(root.node, null, t') && IsRedBlack(t')
    ensures SameContents(t', Plug(ctx, t), augmented)
  {
    hide Repr, PathRepr, Rb, Mk, CtxRb, Nodes, CtxNodes;
    ghost var up, outer, near, far, c := ctx.up.up, ctx.sib, t.Kid(s), t.Kid(s.Opp()), ctx.up.sib;
    assert allocated(Nodes(near)) && allocated(Nodes(far)) && allocated(Nodes(outer))
        && allocated(Nodes(c)) && allocated(CtxNodes(up));
    InnerFacts(root.node, s, ctx, t);
    ghost var low := RotateLower(parent, node, s, augmented, outer, near);
    PaintNodes(near, Black);
    MkRepr(s, outer, parent, Red, low.aug, near.Paint(Black), node);
    assert Repr(gparent.Child(s.Opp()), gparent, c);
    assert PathRepr(root.node, null, up, gparent);
    assert Repr(node.Child(s.Opp()), node, far);
    assert Nodes(low) == {parent} + Nodes(outer) + Nodes(near);
    assert {gparent, node} !! CtxNodes(up) !! Nodes(low) !! Nodes(far) !! Nodes(c);
    assert Pieces(root, gparent, node, s, up, low, far, c);
    ghost var t1 := RotateUp(root, gparent, node, s, true, Red, augmented, up, low, far, c);
    LocatedPlug(root.node, null, up, t1);
    t' := Plug(up, t1);
    InnerShape(s, ctx, t, h, augmented);
  }

  /** The pieces around an inner grandchild. */
  lemma InnerFacts(top: RbNode?, s: Side, ctx: Ctx, t: Tree)
    requires Located(top, null, ctx, t) && t.Node? && ctx.In? && ctx.up.In?
    requires ctx.side == s.Opp() && ctx.up.side == s
    ensures var n, x, y, up := t.item, ctx.item, ctx.up.item, ctx.up.up;
      && n != x && n != y && x != y
      && {n, x, y} !! CtxNodes(up) !! Nodes(t.Kid(s)) !! Nodes(t.Kid(s.Opp())) !! Nodes(ctx.sib) !! Nodes(ctx.up.sib)
      && {n} + Nodes(t.Kid(s)) + Nodes(t.Kid(s.Opp())) <= Nodes(t)
      && {x, y} + Nodes(ctx.sib) + Nodes(ctx.up.sib) + CtxNodes(up) <= CtxNodes(ctx)
      && n.augmented == t.aug && Repr(n.Child(s), n, t.Kid(s)) && Repr(n.Child(s.Opp()), n, t.Kid(s.Opp()))
      && x.augmented == ctx.aug && Repr(x.Child(s), x, ctx.sib)
      && y.augmented == ctx.up.aug && y.color == ctx.up.color && Repr(y.Child(s.Opp()), y, ctx.up.sib)
      && y.parent == HoleOwner(up, null) && PathRepr(top, null, up, y)
  {
    assert s.Opp().Opp() == s;
    var p0 := Mk(s.Opp(), t, ctx.item, ctx.color, ctx.aug, ctx.sib);
    LocatedFields(top, null, ctx, t);
    LocatedStep(top, null, ctx, t);
    LocatedFields(top, null, ctx.up, p0);
    MkInorder(s.Opp(), t, ctx.item, ctx.color, ctx.aug, ctx.sib);
    KidsOf(s, t);
    MkRepr(s, t.Kid(s), t.item, t.color, t.aug, t.Kid(s.Opp()), ctx.item);
  }

  lemma KidsOf(s: Side, t: Tree)
    requires t.Node?
    ensures t == Mk(s, t.Kid(s), t.item, t.color, t.aug, t.Kid(s.Opp()))
  {
  }

  lemma InnerShape(s: Side, ctx: Ctx, t: Tree, h: nat, augmented: bool)
    requires ctx.In? && ctx.up.In? && ctx.color == Red && ctx.side == s.Opp() && ctx.up.side == s
    requires t.Node? && t.color == Red && Rb(t, h) && CtxRb(ctx, h, Black) && IsBlack(ctx.up.sib)
    ensures ctx.up.color == Black
    ensures var outer, near, far, c, up := ctx.sib, t.Kid(s), t.Kid(s.Opp()), ctx.up.sib, ctx.up.up;
      var n, x, y := t.item, ctx.item, ctx.up.item;
      var low := Mk(s, outer, x, Red, RotatedAug(augmented, x, ctx.aug, near, outer), near.Paint(Black));
      var an := if augmented then ctx.aug else t.aug;
      var t1 := Mk(s, low, n, Black, if augmented then ctx.up.aug else an,
                   Mk(s, far.Paint(Black), y, Red, RotatedAug(augmented, y, ctx.up.aug, far, c), c));
      IsRedBlack(Plug(up, t1)) && SameContents(Plug(up, t1), Plug(ctx, t), augmented)
  {
    var outer, near, far, c, up := ctx.sib, t.Kid(s), t.Kid(s.Opp()), ctx.up.sib, ctx.up.up;
    var n, x, y := t.item, ctx.item, ctx.up.item;
    var ax, ay := RotatedAug(augmented, x, ctx.aug, near, outer), RotatedAug(augmented, y, ctx.up.aug, far, c);
    var an := if augmented then ctx.aug else t.aug;
    var an' := if augmented then ctx.up.aug else an;
    KidsOf(s, t);
    assert near.Paint(Black) == near && far.Paint(Black) == far;
    // after the lower rotation
    var low := Mk(s, outer, x, Red, ax, near);
    var mid := Mk(s, low, n, Red, an, far);
    var p0 := Mk(s.Opp(), t, x, Red, ctx.aug, outer);
    MkOpp(s, outer, x, Red, ctx.aug, t);
    MkOpp(s, low, n, Red, an, far);
    MkOpp(s, outer, x, Red, ax, near);
    MkOpp(s, near, n, Red, t.aug, far);
    RotateInorder(s.Opp(), far, n, near, x, outer, Red, t.aug, Red, ctx.aug, Red, an, Red, ax);
    var g0 := Mk(s, p0, y, Black, ctx.up.aug, c);
    var g1 := Mk(s, mid, y, Black, ctx.up.aug, c);
    // after the upper one
    var t1 := Mk(s, low, n, Black, an', Mk(s, far, y, Red, ay, c));
    RotateInorder(s, low, n, far, y, c, Red, an, Black, ctx.up.aug, Black, an', Red, ay);
    MkInorder(s, p0, y, Black, ctx.up.aug, c);
    MkInorder(s, mid, y, Black, ctx.up.aug, c);
    assert Plug(ctx, t) == Plug(up, g0);
    Replaced(up, g0, t1, augmented) by {
      if augmented && AugOk(g0) {
        RotateAug(s.Opp(), far, n, near, x, outer, Red, t.aug, Red, ctx.aug, Red, Red);
        assert AugOk(g1);
        RotateAug(s, low, n, far, y, c, Red, an, Black, ctx.up.aug, Black, Red);
      }
    }
    InnerRb(s, low, n, an', far, y, ay, c, outer, x, ax, near, h);
    PlugRb(up, t1, h + 1);
  }

  lemma InnerRb(s: Side, low: Tree, n: RbNode, an: int, far: Tree, y: RbNode, ay: int, c: Tree,
                outer: Tree, x: RbNode, ax: int, near: Tree, h: nat)
    requires low == Mk(s, outer, x, Red, ax, near)
    requires Rb(outer, h) && Rb(near, h) && Rb(far, h) && Rb(c, h)
    requires IsBlack(outer) && IsBlack(near) && IsBlack(far) && IsBlack(c)
    ensures Rb(Mk(s, low, n, Black, an, Mk(s, far, y, Red, ay, c)), h + 1)
  {
    MkRb(s, outer, x, Red, ax, near, h);
    MkRb(s, far, y, Red, ay, c, h);
    MkRb(s, low, n, Black, an, Mk(s, far, y, Red, ay, c), h + 1);
  }

  /** __rb_insert: from a red node that may sit under a red parent, climb and repair. */
  method InsertColor(root: RbRoot, node0: RbNode, augmented: bool, ghost ctx0: Ctx, ghost t0: Tree, ghost h0: nat)
    returns (ghost t': Tree)
    requires t0.Node? && t0.item == node0 && t0.color == Red
    requires Rb(t0, h0) && CtxRb(ctx0, h0, Black)
    requires Located(root.node, null, ctx0, t0)
    modifies root`node, CtxNodes(ctx0), Nodes(t0)
    ensures Repr(root.node, null, t') && IsRedBlack(t')
    ensures SameContents(t', Plug(ctx0, t0), augmented)
  {
    hide Repr, PathRepr, Nodes, CtxNodes, Inorder, AugOk, Fields;
    ReprFields(node0, HoleOwner(ctx0, null), t0);
    var node, parent := node0, node0.parent;
    ghost var ctx, t, h := ctx0, t0, h0;
    PlugNodes(ctx0, t0);
    while true
      invariant t.Node? && t.item == node && t.color == Red
      invariant Rb(t, h) && CtxRb(ctx, h, Black)
      invariant Located(root.node, null, ctx, t) && parent == HoleOwner(ctx, null)
      invariant SameContents(Plug(ctx, t), Plug(ctx0, t0), augmented)
      invariant CtxNodes(ctx) + Nodes(t) == CtxNodes(ctx0) + Nodes(t0)
      decreases ctx
    {
      if parent == null {
        RootBlack(root, node, t, h);
        t' := t.Paint(Black);
        return;
      }
      FrameFacts(root.node, ctx, t);
      if parent.color == Black {
        LocatedPlug(root.node, null, ctx, t);
        PlugRb(ctx, t, h);
        t' := Plug(ctx, t);
        return;
      }
      var gparent := parent.parent;
      FrameFacts(root.node, ctx.up, Mk(ctx.side, t, ctx.item, ctx.color, ctx.aug, ctx.sib)) by {
        LocatedStep(root.node, null, ctx, t);
      }
      var s := if parent != gparent.right then L else R;
      var tmp := gparent.Child(s.Opp());
      if tmp != null && tmp.color == Red {
        ghost var t1 := InsertFlip(root, node, parent, gparent, tmp, s, ctx.side, ctx, t, h);
        ctx, t, h := ctx.up.up, t1, h + 1;
        PlugNodes(ctx, t);
        node := gparent;
        parent := node.parent;
        continue;
      }
      if node == parent.Child(s.Opp()) {
        t' := InsertInner(root, node, parent, gparent, s, augmented, ctx, t, h);
      } else {
        t' := InsertOuter(root, parent, gparent, s, augmented, ctx, t, h);
      }
      return;
    }
  }

  method RootBlack(root: RbRoot, node: RbNode, ghost t: Tree, ghost h: nat)
    requires t.Node? && t.item == node && t.color == Red && Rb(t, h) && Located(root.node, null, Top, t)
    modifies node
    ensures Repr(root.node, null, t.Paint(Black)) && IsRedBlack(t.Paint(Black))
    ensures SameContents(t.Paint(Black), t, true) && SameContents(t.Paint(Black), t, false)
  {
    node.parent := null;
    node.color := Black;
    assert Rb(t.Paint(Black), h + 1);
  }

  /** What the loop reads off the frame that owns the hole. */
  lemma FrameFacts(top: RbNode?, ctx: Ctx, t: Tree)
    requires Located(top, null, ctx, t) && ctx.In? && t.Node?
    ensures var In(s, x, c, a, sib, up) := ctx;
      && x.color == c && x.parent == HoleOwner(up, null) && x.Child(s) == t.item
      && x.Child(s.Opp()) == Link(sib) && Link(sib) != t.item
      && (sib.Node? ==> sib.item.color == sib.color && sib.item != x && sib.item in Nodes(sib))
      && t.item.parent == x && t.item != x && t.item in Nodes(t) && x in CtxNodes(ctx)
      && CtxNodes(ctx) == {x} + Nodes(sib) + CtxNodes(up)
  {
    LocatedFields(top, null, ctx, t);
    ReprFields(ctx.item.Child(ctx.side.Opp()), ctx.item, ctx.sib);
  }
}

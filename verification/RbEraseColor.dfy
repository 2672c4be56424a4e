/**
 ____rb_erase_color: the loop that repairs a tree in which every path through one link is one
 black node short.
 */
module RbEraseColor {
  import opened RbTree
  import opened RbBalance
  import opened RbInsert

  /** The subtree `t` is black and one black node short of what its context needs. */
  ghost predicate OneShort(root: RbRoot, ctx: Ctx, t: Tree, h: nat)
    reads root, CtxNodes(ctx), Nodes(t)
  {
    && ctx.In? && Located(root.node, null, ctx, t)
    && Rb(t, h) && IsBlack(t) && CtxRb(ctx, h + 1, Black)
  }

  /** The tree in memory is red-black and holds what the interrupted one held. */
  ghost predicate Repaired(root: RbRoot, t': Tree, ctx: Ctx, t: Tree, augmented: bool)
    reads root, Nodes(t')
  {
    && Repr(root.node, null, t') && IsRedBlack(t')
    && SameContents(t', Plug(ctx, t), augmented)
  }

  /** The parts around the sibling `y` (tree `sib`) of a hole on side `s` of `x`. */
  lemma SiblingFacts(top: RbNode?, s: Side, ctx: Ctx, t: Tree)
    requires Located(top, null, ctx, t) && ctx.In? && ctx.side == s && ctx.sib.Node?
    ensures var x, y, up := ctx.item, ctx.sib.item, ctx.up;
      var far, near := ctx.sib.Kid(s.Opp()), ctx.sib.Kid(s);
      && x != y
      && {x, y} !! CtxNodes(up) !! Nodes(t) !! Nodes(far) !! Nodes(near)
      && CtxNodes(ctx) == {x, y} + CtxNodes(up) + Nodes(far) + Nodes(near)
      && x.color == ctx.color && x.augmented == ctx.aug && x.parent == HoleOwner(up, null)
      && x.Child(s) == Link(t) && x.Child(s.Opp()) == y && Link(t) != y
      && y.color == ctx.sib.color && y.augmented == ctx.sib.aug && y.parent == x
      && Repr(x.Child(s), x, t) && PathRepr(top, null, up, x)
      && Repr(y.Child(s), y, near) && Repr(y.Child(s.Opp()), y, far)
  {
    LocatedFields(top, null, ctx, t);
    var sib := ctx.sib;
    KidsOf(s, sib);
    MkRepr(s, sib.Kid(s), sib.item, sib.color, sib.aug, sib.Kid(s.Opp()), ctx.item);
  }

  // ---------------------------------------------------------------- case 1: red sibling

  method RedSibling(root: RbRoot, parent: RbNode, sibling: RbNode, s: Side, augmented: bool,
                    ghost ctx: Ctx, ghost t: Tree, ghost h: nat)
    returns (ghost ctx': Ctx)
    requires OneShort(root, ctx, t, h) && ctx.side == s && ctx.item == parent
    requires ctx.sib.Node? && ctx.sib.item == sibling && ctx.sib.color == Red
    modifies root`node, CtxNodes(ctx)
    ensures OneShort(root, ctx', t, h) && ctx'.side == s && ctx'.item == parent && ctx'.color == Red
    ensures ctx'.sib == ctx.sib.Kid(s) && ctx'.sib.Node? && ctx'.sib.color == Black
    ensures CtxNodes(ctx') == CtxNodes(ctx)
    ensures SameContents(Plug(ctx', t), Plug(ctx, t), augmented)
  {
    hide Repr, PathRepr, Nodes, CtxNodes, Rb, CtxRb;
    ghost var up, far, near := ctx.up, ctx.sib.Kid(s.Opp()), ctx.sib.Kid(s);
    SiblingFacts(root.node, s, ctx, t);
    assert s.Opp().Opp() == s;
    assert Pieces(root, parent, sibling, s.Opp(), up, far, near, t);
    ghost var t1 := RotateUp(root, parent, sibling, s.Opp(), true, Red, augmented, up, far, near, t);
    ctx' := RedSiblingShape(s, ctx, t, h, augmented);
    LocatedStep(root.node, null, ctx', t);
    LocatedStep(root.node, null, ctx'.up, Mk(s, t, parent, Red, ctx'.aug, near));
  }

  lemma RedSiblingShape(s: Side, ctx: Ctx, t: Tree, h: nat, augmented: bool) returns (ctx': Ctx)
    requires ctx.In? && ctx.side == s && ctx.sib.Node? && ctx.sib.color == Red
    requires Rb(t, h) && IsBlack(t) && CtxRb(ctx, h + 1, Black)
    ensures ctx.color == Black
    ensures var x, y, near, far := ctx.item, ctx.sib.item, ctx.sib.Kid(s), ctx.sib.Kid(s.Opp());
      var ay, ax := if augmented then ctx.aug else ctx.sib.aug, RotatedAug(augmented, x, ctx.aug, near, t);
      && ctx' == In(s, x, Red, ax, near, In(s, y, Black, ay, far, ctx.up))
      && Mk(s.Opp(), far, y, Black, ay, Mk(s.Opp(), near.Paint(Black), x, Red, ax, t))
         == Mk(s, Mk(s, t, x, Red, ax, near), y, Black, ay, far)
      && near.Node? && near.color == Black
      && CtxRb(ctx', h + 1, Black)
    ensures SameContents(Plug(ctx', t), Plug(ctx, t), augmented)
    ensures CtxNodes(ctx') == CtxNodes(ctx)
  {
    var x, y, near, far := ctx.item, ctx.sib.item, ctx.sib.Kid(s), ctx.sib.Kid(s.Opp());
    var ay, ax := if augmented then ctx.aug else ctx.sib.aug, RotatedAug(augmented, x, ctx.aug, near, t);
    var s' := s.Opp();
    ctx' := In(s, x, Red, ax, near, In(s, y, Black, ay, far, ctx.up));
    KidsOf(s', ctx.sib);
    MkRb(s', far, y, Red, ctx.sib.aug, near, h + 1);
    assert near.Node? && near.Paint(Black) == near;
    assert CtxRb(ctx.up, h + 2, Black);
    assert CtxRb(ctx'.up, h + 1, Red);
    MkInorder(s', far, y, Red, ctx.sib.aug, near);
    MkOpp(s', near, x, Red, ax, t);
    MkOpp(s', far, y, Black, ay, Mk(s', near, x, Red, ax, t));
    MkOpp(s', ctx.sib, x, Black, ctx.aug, t);
    var g0 := Mk(s', Mk(s', far, y, Red, ctx.sib.aug, near), x, Black, ctx.aug, t);
    var g1 := Mk(s', far, y, Black, ay, Mk(s', near, x, Red, ax, t));
    RotateInorder(s', far, y, near, x, t, Red, ctx.sib.aug, Black, ctx.aug, Black, ay, Red, ax);
    assert Plug(ctx, t) == Plug(ctx.up, g0) && Plug(ctx', t) == Plug(ctx.up, g1);
    Replaced(ctx.up, g0, g1, augmented) by {
      if augmented && AugOk(g0) {
        RotateAug(s', far, y, near, x, t, Red, ctx.sib.aug, Black, ctx.aug, Black, Red);
      }
    }
  }

  // ---------------------------------------------------------------- case 2: black nephews

  lemma AcceptsBlack(ctx: Ctx, h: nat)
    requires CtxRb(ctx, h, Red)
    ensures CtxRb(ctx, h, Black)
  {
  }

  ghost function Flipped(s: Side, ctx: Ctx, t: Tree, c: Color): Tree
    requires ctx.In?
  {
    Mk(s, t, ctx.item, c, ctx.aug, ctx.sib.Paint(Red))
  }

  lemma FlippedShape(s: Side, ctx: Ctx, t: Tree, h: nat)
    requires ctx.In? && ctx.side == s && ctx.sib.Node? && ctx.sib.color == Black
    requires IsBlack(ctx.sib.left) && IsBlack(ctx.sib.right)
    requires Rb(t, h) && IsBlack(t) && CtxRb(ctx, h + 1, Black)
    ensures var t' := Flipped(s, ctx, t, Black);
      && Rb(t', h + 1) && SameContents(Plug(ctx.up, t'), Plug(ctx, t), true) && SameContents(Plug(ctx.up, t'), Plug(ctx, t), false)
      && CtxRb(ctx.up, if ctx.color == Red then h + 1 else h + 2, Black)
      && CtxNodes(ctx.up) + Nodes(t') == CtxNodes(ctx) + Nodes(t)
  {
    var t' := Flipped(s, ctx, t, Black);
    var g0 := Mk(s, t, ctx.item, ctx.color, ctx.aug, ctx.sib);
    MkInorder(s, t, ctx.item, ctx.color, ctx.aug, ctx.sib);
    MkInorder(s, t, ctx.item, Black, ctx.aug, ctx.sib.Paint(Red));
    MkRb(s, t, ctx.item, Black, ctx.aug, ctx.sib.Paint(Red), h + 1);
    if ctx.color == Red { AcceptsBlack(ctx.up, h + 1); }
    assert AugOk(ctx.sib.Paint(Red)) == AugOk(ctx.sib);
    PaintNodes(ctx.sib, Red);
    Replaced(ctx.up, g0, t', true);
    Replaced(ctx.up, g0, t', false);
  }

  /** The sibling turns red. */
  method FlipSibling(root: RbRoot, parent: RbNode, sibling: RbNode, s: Side, ghost ctx: Ctx, ghost t: Tree)
    requires Located(root.node, null, ctx, t) && ctx.In? && ctx.side == s && ctx.item == parent
    requires ctx.sib.Node? && ctx.sib.item == sibling
    modifies parent`color, sibling`color
    ensures Located(root.node, null, ctx.up, Flipped(s, ctx, t, Black))
  {
    hide Repr, PathRepr, Nodes, CtxNodes;
    ghost var sib, up := ctx.sib, ctx.up;
    assert allocated(Nodes(t)) && allocated(Nodes(sib)) && allocated(CtxNodes(up));
    LocatedFields(root.node, null, ctx, t);
    assert SiblingIn: sibling in Nodes(sib);
    ghost var tn := parent.Child(s);
    Paint(sibling, Red, parent, sib);
    if parent.color == Red { parent.color := Black; }
    PaintNodes(sib, Red);
    MkRepr(s, t, parent, Black, ctx.aug, sib.Paint(Red), HoleOwner(up, null));
  }

  // ---------------------------------------------------------------- case 4: red outer nephew

  ghost function Lifted(s: Side, ctx: Ctx, y: RbNode, ay: int, far: Tree, mid: Tree, t: Tree, augmented: bool): Tree
    requires ctx.In?
  {
    Mk(s.Opp(), far.Paint(Black), y, ctx.color, if augmented then ctx.aug else ay,
       Mk(s.Opp(), mid, ctx.item, Black, RotatedAug(augmented, ctx.item, ctx.aug, mid, t), t))
  }

  lemma LiftedShape(s: Side, ctx: Ctx, y: RbNode, ay: int, far: Tree, mid: Tree, t: Tree, h: nat, augmented: bool)
    requires ctx.In? && ctx.side == s && ctx.sib.Node? && ctx.sib == Mk(s.Opp(), far, y, ctx.sib.color, ay, mid)
    requires far.Node? && Rb(far.Paint(Black), h + 1) && Rb(mid, h)
    requires Rb(t, h) && IsBlack(t)
    requires if ctx.color == Red then CtxRb(ctx.up, h + 1, Red) else CtxRb(ctx.up, h + 2, Black)
    ensures var t' := Plug(ctx.up, Lifted(s, ctx, y, ay, far, mid, t, augmented));
      IsRedBlack(t') && SameContents(t', Plug(ctx, t), augmented)
  {
    var s', x := s.Opp(), ctx.item;
    var ay', ax' := if augmented then ctx.aug else ay, RotatedAug(augmented, x, ctx.aug, mid, t);
    var g1 := Lifted(s, ctx, y, ay, far, mid, t, augmented);
    var low := Mk(s', mid, x, Black, ax', t);
    MkRb(s', mid, x, Black, ax', t, h + 1);
    var h' := if ctx.color == Red then h + 1 else h + 2;
    MkRb(s', far.Paint(Black), y, ctx.color, ay', low, h');
    PlugRb(ctx.up, g1, h');
    var g0 := Mk(s', ctx.sib, x, ctx.color, ctx.aug, t);
    MkOpp(s', ctx.sib, x, ctx.color, ctx.aug, t);
    assert Plug(ctx, t) == Plug(ctx.up, g0);
    var g2 := Mk(s', far, y, ctx.color, ay', low);
    RotateInorder(s', far, y, mid, x, t, ctx.sib.color, ay, ctx.color, ctx.aug, ctx.color, ay', Black, ax');
    MkInorder(s', far, y, ctx.color, ay', low);
    MkInorder(s', far.Paint(Black), y, ctx.color, ay', low);
    assert AugOk(far.Paint(Black)) == AugOk(far);
    PaintNodes(far, Black);
    Replaced(ctx.up, g0, g1, augmented) by {
      if augmented && AugOk(g0) {
        RotateAug(s', far, y, mid, x, t, ctx.sib.color, ay, ctx.color, ctx.aug, ctx.color, Black);
      }
    }
  }

  method LiftSibling(root: RbRoot, parent: RbNode, sibling: RbNode, outer: RbNode, s: Side, augmented: bool,
                     ghost ctx: Ctx, ghost t: Tree, ghost h: nat)
    returns (ghost t': Tree)
    requires OneShort(root, ctx, t, h) && ctx.side == s && ctx.item == parent
    requires ctx.sib.Node? && ctx.sib.item == sibling && ctx.sib.color == Black
    requires ctx.sib.Kid(s.Opp()).Node? && ctx.sib.Kid(s.Opp()).item == outer && ctx.sib.Kid(s.Opp()).color == Red
    modifies root`node, CtxNodes(ctx)
    ensures Repaired(root, t', ctx, t, augmented)
  {
    hide Repr, PathRepr, Nodes, CtxNodes, Rb, CtxRb;
    ghost var up, far, mid, y := ctx.up, ctx.sib.Kid(s.Opp()), ctx.sib.Kid(s), sibling;
    assert allocated(CtxNodes(up)) && allocated(Nodes(far)) && allocated(Nodes(mid)) && allocated(Nodes(t));
    SiblingFacts(root.node, s, ctx, t);
    assert s.Opp().Opp() == s;
    SetParent(outer, sibling, true, Black, far, sibling);
    PaintNodes(far, Black);
    assert Pieces(root, parent, sibling, s.Opp(), up, far.Paint(Black), mid, t);
    ghost var t1 := RotateUp(root, parent, sibling, s.Opp(), false, Black, augmented, up, far.Paint(Black), mid, t);
    LocatedPlug(root.node, null, up, t1);
    t' := Plug(up, t1);
    KidsOf(s.Opp(), ctx.sib);
    LiftPre(s, ctx, h);
    LiftedShape(s, ctx, sibling, ctx.sib.aug, far, mid, t, h, augmented);
  }

  lemma LiftPre(s: Side, ctx: Ctx, h: nat)
    requires ctx.In? && ctx.sib.Node? && ctx.sib.color == Black && CtxRb(ctx, h + 1, Black)
    requires ctx.sib.Kid(s.Opp()).Node? && ctx.sib.Kid(s.Opp()).color == Red
    ensures Rb(ctx.sib.Kid(s.Opp()).Paint(Black), h + 1) && Rb(ctx.sib.Kid(s), h)
    ensures if ctx.color == Red then CtxRb(ctx.up, h + 1, Red) else CtxRb(ctx.up, h + 2, Black)
  {
    var far := ctx.sib.Kid(s.Opp());
    assert Rb(far, h);
    assert Rb(far.left, h) && Rb(far.right, h);
  }

  // ---------------------------------------------------------------- case 3: red inner nephew

  /** Rotate at the sibling. As in the source, the sibling's own parent link and the inner
      nephew's are left for case 4 to write. */
  method RotateSibling(parent: RbNode, sibling: RbNode, inner: RbNode, s: Side, augmented: bool,
                       ghost far: Tree, ghost a: Tree, ghost b: Tree)
    requires parent != sibling && sibling != inner && parent != inner
    requires {parent, sibling, inner} !! Nodes(far) !! Nodes(a) !! Nodes(b)
    requires Repr(sibling.Child(s.Opp()), sibling, far)
    requires Repr(inner.Child(s.Opp()), inner, a) && Repr(inner.Child(s), inner, b)
    modifies parent`left, parent`right, Nodes(a)
    modifies sibling`left, sibling`right, sibling`augmented, inner`left, inner`right, inner`augmented
    ensures parent.Child(s) == old(parent.Child(s))
    ensures Repr(sibling.Child(s.Opp()), sibling, far) && Repr(sibling.Child(s), sibling, a.Paint(Black))
    ensures inner.Child(s.Opp()) == sibling && Repr(inner.Child(s), inner, b)
    ensures sibling.augmented == RotatedAug(augmented, sibling, old(sibling.augmented), a, far)
    ensures inner.augmented == if augmented then old(sibling.augmented) else old(inner.augmented)
  {
    hide Repr, Nodes;
    assert allocated(Nodes(far)) && allocated(Nodes(a)) && allocated(Nodes(b));
    TakeInner(sibling, inner, s, true, a);
    parent.SetChild(s.Opp(), inner);
    PaintNodes(a, Black);
    assert s.Opp().Opp() == s;
    ghost var fn, an, bn := sibling.Child(s.Opp()), sibling.Child(s), inner.Child(s);
    assert Repr(fn, sibling, far) && Repr(an, sibling, a.Paint(Black)) && Repr(bn, inner, b);
    ReprFields(fn, sibling, far);
    ReprFields(an, sibling, a.Paint(Black));
    AugmentRotate(augmented, sibling, inner, s);
  }

  /** The parts around a red inner nephew. */
  lemma InnerNephewFacts(top: RbNode?, s: Side, ctx: Ctx, t: Tree)
    requires Located(top, null, ctx, t) && ctx.In? && ctx.side == s && ctx.sib.Node? && ctx.sib.Kid(s).Node?
    ensures var x, y, z, up := ctx.item, ctx.sib.item, ctx.sib.Kid(s).item, ctx.up;
      var far, a, b := ctx.sib.Kid(s.Opp()), ctx.sib.Kid(s).Kid(s.Opp()), ctx.sib.Kid(s).Kid(s);
      && x != y && y != z && x != z
      && {x, y, z} !! CtxNodes(up) !! Nodes(t) !! Nodes(far) !! Nodes(a) !! Nodes(b)
      && CtxNodes(ctx) == {x, y, z} + CtxNodes(up) + Nodes(far) + Nodes(a) + Nodes(b)
      && x.color == ctx.color && x.augmented == ctx.aug && x.parent == HoleOwner(up, null)
      && y.augmented == ctx.sib.aug && z.augmented == ctx.sib.Kid(s).aug
      && Repr(x.Child(s), x, t) && PathRepr(top, null, up, x)
      && Repr(y.Child(s.Opp()), y, far)
      && Repr(z.Child(s.Opp()), z, a) && Repr(z.Child(s), z, b)
  {
    hide PathRepr, Repr;
    SiblingFacts(top, s, ctx, t);
    var near := ctx.sib.Kid(s);
    KidsOf(s, near);
    MkRepr(s, near.Kid(s), near.item, near.color, near.aug, near.Kid(s.Opp()), ctx.sib.item);
  }

  /** Case 3, and the write case 4 makes to its outer nephew, here the rotated sibling. */
  method PrepareInner(root: RbRoot, parent: RbNode, sibling: RbNode, inner: RbNode, s: Side, augmented: bool,
                      ghost ctx: Ctx, ghost t: Tree)
    returns (ghost outer: Tree)
    requires Located(root.node, null, ctx, t) && ctx.In? && ctx.side == s && ctx.item == parent
    requires ctx.sib.Node? && ctx.sib.item == sibling && ctx.sib.Kid(s).Node? && ctx.sib.Kid(s).item == inner
    modifies CtxNodes(ctx)
    ensures var far, near := ctx.sib.Kid(s.Opp()), ctx.sib.Kid(s);
      var a, b := near.Kid(s.Opp()), near.Kid(s);
      && outer == Mk(s.Opp(), far, sibling, Black, RotatedAug(augmented, sibling, ctx.sib.aug, a, far), a.Paint(Black))
      && Pieces(root, parent, inner, s.Opp(), ctx.up, outer, b, t)
      && parent.color == ctx.color && parent.augmented == ctx.aug
      && inner.augmented == (if augmented then ctx.sib.aug else near.aug)
      && Nodes(b) + CtxNodes(ctx.up) + {parent, inner} <= CtxNodes(ctx)
  {
    hide Repr, PathRepr, Nodes, CtxNodes;
    ghost var up, far, near := ctx.up, ctx.sib.Kid(s.Opp()), ctx.sib.Kid(s);
    ghost var a, b := near.Kid(s.Opp()), near.Kid(s);
    assert allocated(CtxNodes(up)) && allocated(Nodes(b)) && allocated(Nodes(t));
    InnerNephewFacts(root.node, s, ctx, t);
    outer := HangSibling(parent, sibling, inner, s, augmented, far, a, b);
  }

  /** The sibling, rotated below the inner nephew, as its subtree. */
  method HangSibling(parent: RbNode, sibling: RbNode, inner: RbNode, s: Side, augmented: bool,
                     ghost far: Tree, ghost a: Tree, ghost b: Tree)
    returns (ghost outer: Tree)
    requires parent != sibling && sibling != inner && parent != inner
    requires {parent, sibling, inner} !! Nodes(far) !! Nodes(a) !! Nodes(b)
    requires Repr(sibling.Child(s.Opp()), sibling, far)
    requires Repr(inner.Child(s.Opp()), inner, a) && Repr(inner.Child(s), inner, b)
    modifies parent`left, parent`right, Nodes(a), sibling
    modifies inner`left, inner`right, inner`augmented
    ensures parent.Child(s) == old(parent.Child(s))
    ensures outer == Mk(s.Opp(), far, sibling, Black, RotatedAug(augmented, sibling, old(sibling.augmented), a, far), a.Paint(Black))
    ensures Repr(inner.Child(s.Opp()), inner, outer) && Repr(inner.Child(s), inner, b)
    ensures Nodes(outer) == {sibling} + Nodes(far) + Nodes(a)
    ensures inner.augmented == if augmented then old(sibling.augmented) else old(inner.augmented)
  {
    hide Repr, Nodes;
    assert allocated(Nodes(far)) && allocated(Nodes(a)) && allocated(Nodes(b));
    RotateSibling(parent, sibling, inner, s, augmented, far, a, b);
    PaintNodes(a, Black);
    sibling.parent := inner;
    sibling.color := Black;
    assert s.Opp().Opp() == s;
    outer := Mk(s.Opp(), far, sibling, Black, sibling.augmented, a.Paint(Black));
    MkRepr(s.Opp(), far, sibling, Black, sibling.augmented, a.Paint(Black), inner);
  }

  /** Cases 3 and 4. */
  method LiftInner(root: RbRoot, parent: RbNode, sibling: RbNode, inner: RbNode, s: Side, augmented: bool,
                   ghost ctx: Ctx, ghost t: Tree, ghost h: nat)
    returns (ghost t': Tree)
    requires OneShort(root, ctx, t, h) && ctx.side == s && ctx.item == parent
    requires ctx.sib.Node? && ctx.sib.item == sibling && ctx.sib.color == Black
    requires IsBlack(ctx.sib.Kid(s.Opp()))
    requires ctx.sib.Kid(s).Node? && ctx.sib.Kid(s).item == inner && ctx.sib.Kid(s).color == Red
    modifies root`node, CtxNodes(ctx)
    ensures Repaired(root, t', ctx, t, augmented)
  {
    hide Repr, PathRepr, Nodes, CtxNodes, Rb, CtxRb, Pieces;
    ghost var outer := PrepareInner(root, parent, sibling, inner, s, augmented, ctx, t);
    ghost var t1 := RotateUp(root, parent, inner, s.Opp(), false, Black, augmented, ctx.up,
                             outer, ctx.sib.Kid(s).Kid(s), t);
    LocatedPlug(root.node, null, ctx.up, t1);
    t' := Plug(ctx.up, t1);
    InnerLiftShape(s, ctx, t, h, augmented);
  }

  lemma InnerLiftShape(s: Side, ctx: Ctx, t: Tree, h: nat, augmented: bool)
    requires ctx.In? && ctx.side == s && Rb(t, h) && IsBlack(t) && CtxRb(ctx, h + 1, Black)
    requires ctx.sib.Node? && ctx.sib.color == Black
    requires IsBlack(ctx.sib.Kid(s.Opp()))
    requires ctx.sib.Kid(s).Node? && ctx.sib.Kid(s).color == Red
    ensures var far, near, y := ctx.sib.Kid(s.Opp()), ctx.sib.Kid(s), ctx.sib.item;
      var a, b, z := near.Kid(s.Opp()), near.Kid(s), near.item;
      var outer := Mk(s.Opp(), far, y, Black, RotatedAug(augmented, y, ctx.sib.aug, a, far), a.Paint(Black));
      var az := if augmented then ctx.sib.aug else near.aug;
      var t' := Plug(ctx.up, Lifted(s, ctx, z, az, outer, b, t, augmented));
      outer.Paint(Black) == outer && IsRedBlack(t') && SameContents(t', Plug(ctx, t), augmented)
  {
    var far, near, y := ctx.sib.Kid(s.Opp()), ctx.sib.Kid(s), ctx.sib.item;
    var a, b, z, s' := near.Kid(s.Opp()), near.Kid(s), near.item, s.Opp();
    var ay := RotatedAug(augmented, y, ctx.sib.aug, a, far);
    var az := if augmented then ctx.sib.aug else near.aug;
    KidsOf(s, near);
    KidsOf(s, ctx.sib);
    MkRb(s, near, y, Black, ctx.sib.aug, far, h + 1);
    MkRb(s, b, z, Red, near.aug, a, h);
    assert a.Paint(Black) == a;
    var outer := Mk(s', far, y, Black, ay, a);
    MkRb(s', far, y, Black, ay, a, h + 1);
    var sib1 := Mk(s', outer, z, Red, az, b);
    var ctx1 := ctx.(sib := sib1);
    LiftedShape(s, ctx1, z, az, outer, b, t, h, augmented);
    // the intermediate tree holds the same
    MkOpp(s, a, y, Black, ay, far);
    MkOpp(s, b, z, Red, az, outer);
    RotateInorder(s, b, z, a, y, far, Red, near.aug, Black, ctx.sib.aug, Red, az, Black, ay);
    var g0, g1 := Mk(s, t, ctx.item, ctx.color, ctx.aug, ctx.sib), Mk(s, t, ctx.item, ctx.color, ctx.aug, sib1);
    MkInorder(s, t, ctx.item, ctx.color, ctx.aug, ctx.sib);
    MkInorder(s, t, ctx.item, ctx.color, ctx.aug, sib1);
    Replaced(ctx.up, g0, g1, augmented) by {
      if augmented && AugOk(g0) {
        RotateAug(s, b, z, a, y, far, Red, near.aug, Black, ctx.sib.aug, Red, Black);
      }
    }
  }

  // ---------------------------------------------------------------- the loop

  /** What an iteration reads around the hole. */
  lemma HoleFacts(root: RbRoot, ctx: Ctx, t: Tree, h: nat)
    requires OneShort(root, ctx, t, h)
    ensures ctx.sib.Node?
    ensures var x, y, s := ctx.item, ctx.sib.item, ctx.side;
      && x in CtxNodes(ctx) && y in CtxNodes(ctx)
      && x.color == ctx.color && x.parent == HoleOwner(ctx.up, null)
      && x.Child(s) == Link(t) && x.Child(s.Opp()) == y && Link(t) != y
      && y.color == ctx.sib.color
      && y.Child(s) == Link(ctx.sib.Kid(s)) && y.Child(s.Opp()) == Link(ctx.sib.Kid(s.Opp()))
      && (ctx.sib.Kid(s).Node? ==> ctx.sib.Kid(s).item.color == ctx.sib.Kid(s).color)
      && (ctx.sib.Kid(s.Opp()).Node? ==> ctx.sib.Kid(s.Opp()).item.color == ctx.sib.Kid(s.Opp()).color)
  {
    assert Rb(ctx.sib, h + 1);
    SiblingFacts(root.node, ctx.side, ctx, t);
    var y, s := ctx.sib.item, ctx.side;
    ReprFields(y.Child(s), y, ctx.sib.Kid(s));
    ReprFields(y.Child(s.Opp()), y, ctx.sib.Kid(s.Opp()));
  }

  lemma SameTrans(t2: Tree, t1: Tree, t0: Tree, augmented: bool)
    requires SameContents(t2, t1, augmented) && SameContents(t1, t0, augmented)
    ensures SameContents(t2, t0, augmented)
  {
  }

  /** Cases 2 to 4: the sibling is black. Only case 2 under a black parent that is not the root
      goes on, one level up; it never does when case 1 came first, as that leaves a red parent. */
  method BlackSibling(root: RbRoot, parent: RbNode, sibling: RbNode, s: Side, augmented: bool,
                      ghost c: Ctx, ghost t: Tree, ghost h: nat)
    returns (done: bool, ghost t1: Tree)
    requires OneShort(root, c, t, h) && c.side == s && c.item == parent
    requires c.sib.Node? && c.sib.item == sibling && c.sib.color == Black
    modifies root`node, CtxNodes(c)
    ensures done ==> Repaired(root, t1, c, t, augmented)
    ensures !done ==>
      && c.color == Black && c.up.In?
      && t1.Node? && t1.item == parent && parent.parent == c.up.item
      && OneShort(root, c.up, t1, h + 1)
      && SameContents(Plug(c.up, t1), Plug(c, t), augmented)
      && CtxNodes(c.up) + Nodes(t1) == CtxNodes(c) + Nodes(t)
  {
    hide Repr, PathRepr, Nodes, CtxNodes, Rb, CtxRb, Located, Plug, Inorder, AugOk, Fields;
    HoleFacts(root, c, t, h);
    var tmp1 := sibling.Child(s.Opp());
    if tmp1 == null || tmp1.color == Black {
      var tmp2 := sibling.Child(s);
      if tmp2 == null || tmp2.color == Black {
        var wasRed := parent.color == Red;
        FlippedShape(s, c, t, h);
        FlipSibling(root, parent, sibling, s, c, t);
        t1 := Flipped(s, c, t, Black);
        OwnerOf(root.node, c.up, t1);
        done := wasRed || parent.parent == null;
        if done {
          if c.up.Top? { TopAccepts(h + 1); }
          PlugRb(c.up, t1, h + 1);
          LocatedPlug(root.node, null, c.up, t1);
          t1 := Plug(c.up, t1);
        }
        return;
      }
      t1 := LiftInner(root, parent, sibling, tmp2, s, augmented, c, t, h);
    } else {
      t1 := LiftSibling(root, parent, sibling, tmp1, s, augmented, c, t, h);
    }
    done := true;
  }

  method EraseColor(root: RbRoot, parent0: RbNode, augmented: bool, ghost ctx0: Ctx)
    returns (ghost t': Tree)
    requires OneShort(root, ctx0, Leaf, 0) && ctx0.item == parent0
    modifies root`node, CtxNodes(ctx0)
    ensures Repaired(root, t', ctx0, Leaf, augmented)
  {
    hide Repr, PathRepr, Nodes, CtxNodes, Rb, CtxRb, Located, Plug, SameContents;
    SameStart(ctx0, augmented);
    var node: RbNode?, parent := null, parent0;
    ghost var ctx, t, h := ctx0, Leaf, 0;
    ghost var t0 := Plug(ctx0, Leaf);
    while true
      invariant OneShort(root, ctx, t, h) && parent == ctx.item && node == Link(t)
      invariant SameContents(Plug(ctx, t), t0, augmented)
      invariant CtxNodes(ctx) + Nodes(t) == CtxNodes(ctx0)
      decreases ctx
    {
      ghost var c := ctx;
      HoleFacts(root, c, t, h);
      var s := if node != parent.right then L else R;
      var sibling := parent.Child(s.Opp());
      if sibling.color == Red {
        var tmp := sibling.Child(s);
        c := RedSibling(root, parent, sibling, s, augmented, ctx, t, h);
        SameTrans(Plug(c, t), Plug(ctx, t), t0, augmented);
        sibling := tmp;
      }
      var done, t1 := BlackSibling(root, parent, sibling, s, augmented, c, t, h);
      if done {
        SameTrans(t1, Plug(c, t), t0, augmented);
        t' := t1;
        return;
      }
      SameTrans(Plug(c.up, t1), Plug(c, t), t0, augmented);
      node := parent;
      parent := node.parent;
      ctx, t, h := c.up, t1, h + 1;
    }
  }

  lemma OwnerOf(top: RbNode?, ctx: Ctx, t: Tree)
    requires Located(top, null, ctx, t) && t.Node?
    ensures t.item.parent == HoleOwner(ctx, null)
  {
  }

  lemma SameStart(ctx: Ctx, augmented: bool)
    ensures Nodes(Leaf) == {} && SameContents(Plug(ctx, Leaf), Plug(ctx, Leaf), augmented)
  {
  }

  lemma TopAccepts(h: nat)
    ensures CtxRb(Top, h, Black)
  {
  }
}

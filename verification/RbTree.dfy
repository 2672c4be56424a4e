/**
 The intrusive red-black tree: nodes, the tree of nodes a root reaches, and the zipper
 (subtree + context) in which the climbing loops of the rebalancing code are described.
 */
module RbTree {

  datatype Color = Red | Black

  datatype Side = L | R {
    function Opp(): Side { if L? then R else L }
  }

  /** An rb_node. The packed parent/colour word is the two fields `parent` and `color`.
      `value` is what the per-node scalar of the max-augmentation returns for the entry
      that embeds this node, and `augmented` is that entry's augmented field. */
  class RbNode {
    const value: int
    var parent: RbNode?
    var color: Color
    var left: RbNode?
    var right: RbNode?
    var augmented: int

    constructor (value: int)
      ensures this.value == value && parent == this && color == Red && left == null && right == null
    {
      this.value := value;
      parent, color, left, right, augmented := this, Red, null, null, value;
    }

    function Child(s: Side): RbNode?
      reads this
    {
      if s == L then left else right
    }

    method SetChild(s: Side, c: RbNode?)
      modifies this`left, this`right
      ensures Child(s) == c && Child(s.Opp()) == old(Child(s.Opp()))
    {
      if s == L { left := c; } else { right := c; }
    }
  }

  /** The tree of nodes below a link, with the colour and the augmented field of each. */
  datatype Tree =
    | Leaf
    | Node(left: Tree, item: RbNode, color: Color, aug: int, right: Tree)
  {
    ghost function Kid(s: Side): Tree
      requires Node?
    {
      if s == L then left else right
    }

    ghost function Paint(c: Color): Tree {
      if Leaf? then Leaf else Node(left, item, c, aug, right)
    }
  }

  /** Node with its children named by side: `near` hangs on side `s`. */
  ghost function Mk(s: Side, near: Tree, x: RbNode, c: Color, a: int, far: Tree): (t: Tree)
    ensures t.Node? && t.item == x && t.color == c && t.aug == a
    ensures t.Kid(s) == near && t.Kid(s.Opp()) == far
  {
    if s == L then Node(near, x, c, a, far) else Node(far, x, c, a, near)
  }

  /** A tree with a hole: the frames from the hole up to the top link. */
  datatype Ctx =
    | Top
    | In(side: Side, item: RbNode, color: Color, aug: int, sib: Tree, up: Ctx)

  ghost function Plug(ctx: Ctx, t: Tree): Tree {
    match ctx
    case Top => t
    case In(s, x, c, a, sib, up) => Plug(up, Mk(s, t, x, c, a, sib))
  }

  /** `path` hung inside the hole of `base`. */
  ghost function Compose(path: Ctx, base: Ctx): Ctx {
    match path
    case Top => base
    case In(s, x, c, a, sib, up) => In(s, x, c, a, sib, Compose(up, base))
  }

  ghost function Nodes(t: Tree): set<RbNode> {
    match t
    case Leaf => {}
    case Node(l, x, _, _, r) => Nodes(l) + {x} + Nodes(r)
  }

  ghost function CtxNodes(ctx: Ctx): set<RbNode> {
    match ctx
    case Top => {}
    case In(_, x, _, _, sib, up) => {x} + Nodes(sib) + CtxNodes(up)
  }

  ghost function Inorder(t: Tree): seq<RbNode> {
    match t
    case Leaf => []
    case Node(l, x, _, _, r) => Inorder(l) + [x] + Inorder(r)
  }

  /** What precedes, respectively follows, the hole in the in-order sequence. */
  ghost function Before(ctx: Ctx): seq<RbNode> {
    match ctx
    case Top => []
    case In(s, x, _, _, sib, up) =>
      if s == L then Before(up) else Before(up) + Inorder(sib) + [x]
  }

  ghost function After(ctx: Ctx): seq<RbNode> {
    match ctx
    case Top => []
    case In(s, x, _, _, sib, up) =>
      if s == L then [x] + Inorder(sib) + After(up) else After(up)
  }

  // ---------------------------------------------------------------- red-black shape

  ghost predicate IsBlack(t: Tree) { t.Node? ==> t.color == Black }

  /** No red node has a red child, and every path down to a leaf has `h` black nodes. */
  ghost predicate Rb(t: Tree, h: nat) {
    match t
    case Leaf => h == 0
    case Node(l, _, c, _, r) =>
      if c == Red then IsBlack(l) && IsBlack(r) && Rb(l, h) && Rb(r, h)
      else h > 0 && Rb(l, h - 1) && Rb(r, h - 1)
  }

  /** The context accepts a subtree of black height `h` whose root has colour `c`. */
  ghost predicate CtxRb(ctx: Ctx, h: nat, c: Color) {
    match ctx
    case Top => c == Black
    case In(_, _, pc, _, sib, up) =>
      && Rb(sib, h)
      && if pc == Red then c == Black && IsBlack(sib) && CtxRb(up, h, Red)
         else CtxRb(up, h + 1, Black)
  }

  ghost predicate IsRedBlack(t: Tree) {
    IsBlack(t) && exists h: nat :: Rb(t, h)
  }

  /** No red node has a red child. */
  ghost predicate NoRedPair(t: Tree) {
    t.Node? ==> NoRedPair(t.left) && NoRedPair(t.right) && (t.color == Red ==> IsBlack(t.left) && IsBlack(t.right))
  }

  /** How many black nodes the paths from the root down to the leaves have. */
  ghost function BlackCounts(t: Tree): set<nat> {
    if t.Leaf? then {0}
    else if t.color == Red then BlackCounts(t.left) + BlackCounts(t.right)
    else set c | c in BlackCounts(t.left) + BlackCounts(t.right) :: c + 1
  }

  lemma {:induction false} CountsExist(t: Tree)
    ensures exists c :: c in BlackCounts(t)
  {
    if t.Node? {
      CountsExist(t.left);
      var c :| c in BlackCounts(t.left);
      assert c in BlackCounts(t) || c + 1 in BlackCounts(t);
    } else {
      assert 0 in BlackCounts(t);
    }
  }

  /** The two rules of a red-black tree, apart from its black root. */
  lemma {:induction false} RbMeaning(t: Tree, h: nat)
    ensures Rb(t, h) <==> NoRedPair(t) && BlackCounts(t) == {h}
  {
    if t.Node? {
      var l, r := BlackCounts(t.left), BlackCounts(t.right);
      CountsExist(t.left);
      CountsExist(t.right);
      if t.color == Red {
        RbMeaning(t.left, h);
        RbMeaning(t.right, h);
        assert l + r == {h} <==> l == {h} && r == {h} by { OneElement(l, r, h); }
      } else {
        var s := set c | c in l + r :: c + 1;
        if h > 0 {
          RbMeaning(t.left, h - 1);
          RbMeaning(t.right, h - 1);
          OneElement(l, r, h - 1);
          if l + r == {h - 1} { assert s == {h}; }
          if s == {h} {
            forall c | c in l + r ensures c == h - 1 { assert c + 1 in s; }
            assert l + r == {h - 1};
          }
        } else {
          var c :| c in l;
          assert c + 1 in s;
        }
      }
    }
  }

  lemma OneElement(l: set<nat>, r: set<nat>, h: nat)
    requires (exists c :: c in l) && (exists c :: c in r)
    ensures l + r == {h} <==> l == {h} && r == {h}
  {
    if l + r == {h} {
      forall c | c in l ensures c == h { assert c in l + r; }
      forall c | c in r ensures c == h { assert c in l + r; }
    }
  }

  // ---------------------------------------------------------------- max-augmentation

  datatype MaxOf = Nothing | Max(m: int)

  ghost function Aug(t: Tree): MaxOf {
    if t.Leaf? then Nothing else Max(t.aug)
  }

  ghost function Join(v: int, m: MaxOf): int {
    if m.Max? && m.m > v then m.m else v
  }

  /** What the compute_max callback obtains from a node's own value and its children. */
  ghost function LocalMax(v: int, l: MaxOf, r: MaxOf): int {
    Join(Join(v, l), r)
  }

  /** Every augmented field agrees with its children's. */
  ghost predicate AugOk(t: Tree) {
    match t
    case Leaf => true
    case Node(l, x, _, a, r) => AugOk(l) && AugOk(r) && a == LocalMax(x.value, Aug(l), Aug(r))
  }

  ghost predicate CtxAug(ctx: Ctx, m: MaxOf) {
    match ctx
    case Top => true
    case In(_, x, _, a, sib, up) =>
      AugOk(sib) && a == LocalMax(x.value, m, Aug(sib)) && CtxAug(up, Max(a))
  }

  /** The nodes of a tree with their augmented fields. */
  ghost function Fields(t: Tree): set<(RbNode, int)> {
    match t
    case Leaf => {}
    case Node(l, x, _, a, r) => Fields(l) + {(x, a)} + Fields(r)
  }

  ghost function CtxFields(ctx: Ctx): set<(RbNode, int)> {
    match ctx
    case Top => {}
    case In(_, x, _, a, sib, up) => {(x, a)} + Fields(sib) + CtxFields(up)
  }

  // ---------------------------------------------------------------- laws of the zipper

  lemma {:induction false} PlugFields(ctx: Ctx, t: Tree)
    ensures Fields(Plug(ctx, t)) == CtxFields(ctx) + Fields(t)
  {
    if ctx.In? { PlugFields(ctx.up, Mk(ctx.side, t, ctx.item, ctx.color, ctx.aug, ctx.sib)); }
  }

  lemma {:induction false} PlugCompose(path: Ctx, base: Ctx, t: Tree)
    ensures Plug(Compose(path, base), t) == Plug(base, Plug(path, t))
  {
    match path
    case Top =>
    case In(s, x, c, a, sib, up) => PlugCompose(up, base, Mk(s, t, x, c, a, sib));
  }

  lemma {:induction false} PlugNodes(ctx: Ctx, t: Tree)
    ensures Nodes(Plug(ctx, t)) == CtxNodes(ctx) + Nodes(t)
  {
    match ctx
    case Top =>
    case In(s, x, c, a, sib, up) => PlugNodes(up, Mk(s, t, x, c, a, sib));
  }

  lemma HoleInorder<T>(a: seq<T>, b: seq<T>, x: T, c: seq<T>, d: seq<T>)
    ensures a + (b + [x] + c) + d == a + b + ([x] + c + d)
    ensures a + (b + [x] + c) + d == (a + b + [x]) + c + d
  {
  }

  lemma {:induction false} PlugInorder(ctx: Ctx, t: Tree)
    ensures Inorder(Plug(ctx, t)) == Before(ctx) + Inorder(t) + After(ctx)
  {
    match ctx
    case Top =>
    case In(s, x, c, a, sib, up) =>
      PlugInorder(up, Mk(s, t, x, c, a, sib));
      HoleInorder(Before(up), Inorder(t), x, Inorder(sib), After(up));
      HoleInorder(Before(up), Inorder(sib), x, Inorder(t), After(up));
  }

  lemma {:induction false} PlugRb(ctx: Ctx, t: Tree, h: nat)
    requires Rb(t, h) && CtxRb(ctx, h, if IsBlack(t) then Black else Red)
    ensures IsRedBlack(Plug(ctx, t))
  {
    match ctx
    case Top =>
    case In(s, x, c, a, sib, up) =>
      PlugRb(up, Mk(s, t, x, c, a, sib), if c == Black then h + 1 else h);
  }

  /** Conversely a red-black tree splits into a subtree and a context that accepts it. */
  lemma {:induction false} UnplugRb(ctx: Ctx, t: Tree) returns (h: nat)
    requires IsRedBlack(Plug(ctx, t))
    ensures Rb(t, h) && CtxRb(ctx, h, if IsBlack(t) then Black else Red)
  {
    match ctx
    case Top => h :| Rb(t, h);
    case In(s, x, c, a, sib, up) =>
      h := UnplugRb(up, Mk(s, t, x, c, a, sib));
      h := if c == Black then h - 1 else h;
  }

  lemma {:induction false} PlugAug(ctx: Ctx, t: Tree)
    ensures AugOk(Plug(ctx, t)) <==> AugOk(t) && CtxAug(ctx, Aug(t))
  {
    match ctx
    case Top =>
    case In(s, x, c, a, sib, up) => PlugAug(up, Mk(s, t, x, c, a, sib));
  }

  /** The largest value in a non-empty subtree. */
  ghost function MaxValue(t: Tree): int
    requires t.Node?
  {
    LocalMax(t.item.value,
             if t.left.Leaf? then Nothing else Max(MaxValue(t.left)),
             if t.right.Leaf? then Nothing else Max(MaxValue(t.right)))
  }

  lemma {:induction false} MaxValueIsMax(t: Tree)
    requires t.Node?
    ensures forall x :: x in Nodes(t) ==> x.value <= MaxValue(t)
    ensures exists x :: x in Nodes(t) && x.value == MaxValue(t)
  {
    if t.left.Node? { MaxValueIsMax(t.left); }
    if t.right.Node? { MaxValueIsMax(t.right); }
    assert t.item in Nodes(t);
  }

  /** Local agreement everywhere makes every augmented field its subtree's maximum. */
  lemma {:induction false} AugIsMax(t: Tree)
    requires AugOk(t) && t.Node?
    ensures t.aug == MaxValue(t)
    ensures forall x :: x in Nodes(t) ==> x.value <= t.aug
    ensures exists x :: x in Nodes(t) && x.value == t.aug
  {
    if t.left.Node? { AugIsMax(t.left); }
    if t.right.Node? { AugIsMax(t.right); }
    MaxValueIsMax(t);
  }

  // ---------------------------------------------------------------- trees in memory

  ghost function Link(t: Tree): RbNode? {
    if t.Leaf? then null else t.item
  }

  /** The link `n`, whose owner is `p`, leads to exactly the tree `t`. */
  ghost predicate Repr(n: RbNode?, p: RbNode?, t: Tree)
    reads Nodes(t)
    ensures Repr(n, p, t) ==> n == Link(t) && (n != null ==> n in Nodes(t))
    decreases t
  {
    match t
    case Leaf => n == null
    case Node(l, x, c, a, r) =>
      && n == x && x.parent == p && x.color == c && x.augmented == a
      && x !in Nodes(l) && x !in Nodes(r) && Nodes(l) !! Nodes(r)
      && Repr(x.left, x, l) && Repr(x.right, x, r)
  }

  /** The node that owns the hole; `tp` owns the top link. */
  ghost function HoleOwner(ctx: Ctx, tp: RbNode?): RbNode? {
    if ctx.Top? then tp else ctx.item
  }

  /** From the top link `top`, owned by `tp`, the frames of `ctx` lead to the link `n`. */
  ghost predicate PathRepr(top: RbNode?, tp: RbNode?, ctx: Ctx, n: RbNode?)
    reads CtxNodes(ctx)
    decreases ctx
  {
    match ctx
    case Top => top == n
    case In(s, x, c, a, sib, up) =>
      && x.Child(s) == n && x.color == c && x.augmented == a && x.parent == HoleOwner(up, tp)
      && x !in Nodes(sib) && x !in CtxNodes(up) && Nodes(sib) !! CtxNodes(up)
      && Repr(x.Child(s.Opp()), x, sib)
      && PathRepr(top, tp, up, x)
  }

  lemma OwnerIn(ctx: Ctx)
    ensures ctx.In? ==> ctx.item in CtxNodes(ctx)
  {
  }

  /** Context and subtree are in memory below the top link, sharing no node. */
  ghost predicate Located(top: RbNode?, tp: RbNode?, ctx: Ctx, t: Tree)
    reads CtxNodes(ctx), Nodes(t)
  {
    && CtxNodes(ctx) !! Nodes(t)
    && PathRepr(top, tp, ctx, Link(t))
    && Repr(Link(t), HoleOwner(ctx, tp), t)
  }

  /** The fields recorded in a tree are those in memory. */
  lemma {:induction false} FieldsStored(n: RbNode?, p: RbNode?, t: Tree)
    requires Repr(n, p, t)
    ensures forall x :: x in Nodes(t) ==> (x, x.augmented) in Fields(t)
    ensures forall x, a :: (x, a) in Fields(t) ==> x.augmented == a
    decreases t
  {
    if t.Node? {
      FieldsStored(t.item.left, t.item, t.left);
      FieldsStored(t.item.right, t.item, t.right);
    }
  }

  lemma ReprFields(n: RbNode?, p: RbNode?, t: Tree)
    requires Repr(n, p, t)
    ensures n != null ==> n.parent == p && n.color == t.color && n.augmented == t.aug
  {
  }

  lemma MkRepr(s: Side, near: Tree, x: RbNode, c: Color, a: int, far: Tree, p: RbNode?)
    ensures Nodes(Mk(s, near, x, c, a, far)) == {x} + Nodes(near) + Nodes(far)
    ensures Repr(x, p, Mk(s, near, x, c, a, far)) <==>
      && x.parent == p && x.color == c && x.augmented == a
      && x !in Nodes(near) && x !in Nodes(far) && Nodes(near) !! Nodes(far)
      && Repr(x.Child(s), x, near) && Repr(x.Child(s.Opp()), x, far)
  {
    if s == L {
      assert Mk(s, near, x, c, a, far) == Node(near, x, c, a, far);
    } else {
      assert Mk(s, near, x, c, a, far) == Node(far, x, c, a, near);
    }
  }

  lemma LocatedStep(top: RbNode?, tp: RbNode?, ctx: Ctx, t: Tree)
    requires ctx.In?
    ensures Located(top, tp, ctx, t)
       <==> Located(top, tp, ctx.up, Mk(ctx.side, t, ctx.item, ctx.color, ctx.aug, ctx.sib))
  {
    MkRepr(ctx.side, t, ctx.item, ctx.color, ctx.aug, ctx.sib, HoleOwner(ctx.up, tp));
  }

  /** Splitting a tree at a hole and plugging it again do not change what memory holds. */
  lemma {:induction false} LocatedPlug(top: RbNode?, tp: RbNode?, ctx: Ctx, t: Tree)
    ensures Located(top, tp, ctx, t) <==> Repr(top, tp, Plug(ctx, t))
  {
    match ctx
    case Top =>
    case In(s, x, c, a, sib, up) =>
      var t' := Mk(s, t, x, c, a, sib);
      LocatedPlug(top, tp, up, t');
      assert Nodes(t') == {x} + Nodes(sib) + Nodes(t);
      LocatedStep(top, tp, ctx, t);
  }

  /** The zipper focused on a given node of the tree. */
  lemma {:induction false} Focus(t: Tree, n: RbNode, up: Ctx) returns (ctx: Ctx, sub: Tree)
    requires n in Nodes(t)
    ensures sub.Node? && sub.item == n && Plug(ctx, sub) == Plug(up, t)
  {
    if t.item == n {
      ctx, sub := up, t;
    } else if n in Nodes(t.left) {
      ctx, sub := Focus(t.left, n, In(L, t.item, t.color, t.aug, t.right, up));
    } else {
      ctx, sub := Focus(t.right, n, In(R, t.item, t.color, t.aug, t.left, up));
    }
  }

  lemma {:induction false} InorderNodes(t: Tree)
    ensures forall i :: 0 <= i < |Inorder(t)| ==> Inorder(t)[i] in Nodes(t)
    ensures forall x :: x in Nodes(t) ==> x in Inorder(t)
  {
    if t.Node? {
      InorderNodes(t.left);
      InorderNodes(t.right);
    }
  }

  lemma {:induction false} NodeParts(t: Tree)
    requires t.Node?
    ensures Inorder(t) == Inorder(t.left) + [t.item] + Inorder(t.right)
    ensures t.left.Leaf? ==> Inorder(t) == [t.item] + Inorder(t.right)
    ensures Nodes(t) == {t.item} + Nodes(t.left) + Nodes(t.right)
  {
  }

  /** A tree in memory visits no node twice. */
  lemma {:induction false} InorderDistinct(n: RbNode?, p: RbNode?, t: Tree)
    requires Repr(n, p, t)
    ensures forall i, j :: 0 <= i < j < |Inorder(t)| ==> Inorder(t)[i] != Inorder(t)[j]
    decreases t
  {
    if t.Node? {
      InorderDistinct(t.item.left, t.item, t.left);
      InorderDistinct(t.item.right, t.item, t.right);
      InorderNodes(t.left);
      InorderNodes(t.right);
      var l, r, s := Inorder(t.left), Inorder(t.right), Inorder(t);
      forall i, j | 0 <= i < j < |s| ensures s[i] != s[j] {
        assert s[i] == if i < |l| then l[i] else if i == |l| then t.item else r[i - |l| - 1];
        assert s[j] == if j < |l| then l[j] else if j == |l| then t.item else r[j - |l| - 1];
        assert i < |l| ==> s[i] in Nodes(t.left);
        assert j > |l| ==> s[j] in Nodes(t.right);
      }
    }
  }
}

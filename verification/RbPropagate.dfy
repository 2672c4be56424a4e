/**
 The propagate callback: recompute maxima on the way up, stopping as soon as one is unchanged.
 */
module RbPropagate {
  import opened RbTree
  import opened RbBalance

  /** What propagate leaves of a context whose hole holds maximum `m`. */
  ghost function Refresh(ctx: Ctx, m: MaxOf): Ctx {
    match ctx
    case Top => Top
    case In(s, x, c, a, sib, up) =>
      var a' := LocalMax(x.value, m, Aug(sib));
      if a' == a then ctx else In(s, x, c, a', sib, Refresh(up, Max(a')))
  }

  ghost function Refreshed(augmented: bool, ctx: Ctx, m: MaxOf): Ctx {
    if augmented then Refresh(ctx, m) else ctx
  }

  /** Right everywhere but perhaps at the owner of the hole. */
  ghost predicate AboveOk(ctx: Ctx) {
    ctx.In? ==> AugOk(ctx.sib) && CtxAug(ctx.up, Max(ctx.aug))
  }

  /** Despite the early exit, all maxima are right afterwards. */
  lemma {:induction false} RefreshAug(ctx: Ctx, m: MaxOf)
    requires AboveOk(ctx)
    ensures CtxAug(Refresh(ctx, m), m)
  {
    if ctx.In? {
      RefreshAug(ctx.up, Max(LocalMax(ctx.item.value, m, Aug(ctx.sib))));
    }
  }

  /** Nothing else changes. */
  lemma {:induction false} RefreshShape(ctx: Ctx, m: MaxOf)
    ensures CtxNodes(Refresh(ctx, m)) == CtxNodes(ctx)
    ensures Before(Refresh(ctx, m)) == Before(ctx) && After(Refresh(ctx, m)) == After(ctx)
    ensures HoleOwner(Refresh(ctx, m), null) == HoleOwner(ctx, null)
    ensures Refresh(ctx, m).Top? == ctx.Top?
  {
    if ctx.In? {
      RefreshShape(ctx.up, Max(LocalMax(ctx.item.value, m, Aug(ctx.sib))));
    }
  }

  lemma {:induction false} RefreshRb(ctx: Ctx, m: MaxOf, h: nat, c: Color)
    ensures CtxRb(Refresh(ctx, m), h, c) == CtxRb(ctx, h, c)
  {
    if ctx.In? {
      var m' := Max(LocalMax(ctx.item.value, m, Aug(ctx.sib)));
      if ctx.color == Red { RefreshRb(ctx.up, m', h, Red); } else { RefreshRb(ctx.up, m', h + 1, Black); }
    }
  }

  lemma {:induction false} ComposeAssoc(low: Ctx, f: Ctx, up: Ctx)
    ensures Compose(Compose(low, f), up) == Compose(low, Compose(f, up))
  {
    if low.In? { ComposeAssoc(low.up, f, up); }
  }

  lemma {:induction false} ComposeNodes(low: Ctx, ctx: Ctx)
    ensures CtxNodes(Compose(low, ctx)) == CtxNodes(low) + CtxNodes(ctx)
  {
    if low.In? { ComposeNodes(low.up, ctx); }
  }

  /** A composed path in memory is its two halves, meeting in the link `mid`. */
  lemma {:induction false} PathCompose(top: RbNode?, tp: RbNode?, low: Ctx, ctx: Ctx, mid: RbNode?, n: RbNode?)
    requires PathRepr(top, tp, ctx, mid) && PathRepr(mid, HoleOwner(ctx, tp), low, n)
    requires CtxNodes(low) !! CtxNodes(ctx)
    ensures PathRepr(top, tp, Compose(low, ctx), n)
    decreases low
  {
    if low.In? {
      PathCompose(top, tp, low.up, ctx, mid, low.item);
      ComposeNodes(low.up, ctx);
    }
  }

  /** A link, its owner and the owner's frames below and above. */
  ghost predicate Halves(top: RbNode?, stop: RbNode?, low: Ctx, ctx: Ctx, mid: RbNode?, n: RbNode?)
    reads CtxNodes(low), CtxNodes(ctx)
  {
    && PathRepr(top, stop, ctx, mid) && PathRepr(mid, HoleOwner(ctx, stop), low, n)
    && CtxNodes(low) !! CtxNodes(ctx)
  }

  /** Recompute one maximum. */
  method RefreshOne(rb: RbNode, ghost top: RbNode?, ghost stop: RbNode?, ghost low: Ctx, ghost ctx: Ctx,
                    ghost mid: RbNode?, ghost n: RbNode?)
    returns (same: bool)
    requires ctx.In? && rb == ctx.item && Halves(top, stop, low, ctx, mid, n)
    requires mid == null || mid !in CtxNodes(ctx)
    modifies rb`augmented
    ensures rb.augmented == LocalMax(rb.value, old(Stored(mid)), Aug(ctx.sib))
    ensures same <==> rb.augmented == ctx.aug
    ensures Halves(top, stop, Compose(low, In(ctx.side, rb, ctx.color, rb.augmented, ctx.sib, Top)), ctx.up, rb, n)
    ensures same ==> Halves(top, stop, low, ctx, mid, n)
    ensures rb.parent == HoleOwner(ctx.up, stop)
    ensures rb !in CtxNodes(ctx.up)
    ensures CtxNodes(Compose(low, In(ctx.side, rb, ctx.color, rb.augmented, ctx.sib, Top))) + CtxNodes(ctx.up)
         == CtxNodes(low) + CtxNodes(ctx)
  {
    hide Repr, PathRepr, CtxNodes, Nodes, LocalMax;
    ghost var up, s := ctx.up, ctx.side;
    PathUnfold(top, stop, ctx, mid);
    ReprFields(rb.Child(s.Opp()), rb, ctx.sib);
    assert allocated(CtxNodes(low)) && allocated(CtxNodes(up)) && allocated(Nodes(ctx.sib));
    ghost var m := Stored(mid);
    same := ComputeMax(rb, true);
    MaxSides(rb.value, m, Aug(ctx.sib));
    ghost var f := In(s, rb, ctx.color, rb.augmented, ctx.sib, Top);
    PathUnfold(top, stop, ctx, mid);
    PathUnfold(rb, HoleOwner(up, stop), f, mid);
    TopPath(rb, HoleOwner(up, stop));
    PathCompose(rb, HoleOwner(up, stop), low, f, mid, n);
    ComposeNodes(low, f);
  }

  lemma MaxSides(v: int, l: MaxOf, r: MaxOf)
    ensures LocalMax(v, l, r) == LocalMax(v, r, l)
  {
  }

  lemma TopPath(n: RbNode?, p: RbNode?)
    ensures PathRepr(n, p, Top, n) && CtxNodes(Top) == {}
  {
  }

  lemma PathUnfold(top: RbNode?, tp: RbNode?, ctx: Ctx, n: RbNode?)
    requires ctx.In?
    ensures var In(s, x, c, a, sib, up) := ctx;
      && CtxNodes(ctx) == {x} + Nodes(sib) + CtxNodes(up)
      && (PathRepr(top, tp, ctx, n) <==>
          && x.Child(s) == n && x.color == c && x.augmented == a && x.parent == HoleOwner(up, tp)
          && x !in Nodes(sib) && x !in CtxNodes(up) && Nodes(sib) !! CtxNodes(up)
          && Repr(x.Child(s.Opp()), x, sib)
          && PathRepr(top, tp, up, x))
  {
  }

  /** From `rb0`, the owner of the hole, up to `stop`. `n` is the link in the hole. */
  method Propagate(augmented: bool, rb0: RbNode?, stop: RbNode?, ghost top: RbNode?, ghost ctx0: Ctx,
                   ghost n: RbNode?, ghost m0: MaxOf)
    requires PathRepr(top, stop, ctx0, n) && rb0 == HoleOwner(ctx0, stop)
    requires stop == null || stop !in CtxNodes(ctx0)
    requires n == null || n !in CtxNodes(ctx0)
    requires Stored(n) == m0
    modifies CtxNodes(ctx0)`augmented
    ensures PathRepr(top, stop, Refreshed(augmented, ctx0, m0), n)
  {
    if !augmented { return; }
    var rb := rb0;
    ghost var low, ctx, mid, m := Top, ctx0, n, m0;
    assert Halves(top, stop, low, ctx, mid, n);
    assert ctx.In? ==> rb in CtxNodes(ctx);
    hide Repr, PathRepr, CtxNodes, Nodes, LocalMax;
    while rb != stop
      invariant rb == HoleOwner(ctx, stop) && Halves(top, stop, low, ctx, mid, n)
      invariant CtxNodes(low) + CtxNodes(ctx) == CtxNodes(ctx0)
      invariant mid == null || mid !in CtxNodes(ctx)
      invariant m == Stored(mid)
      invariant Compose(low, Refresh(ctx, m)) == Refresh(ctx0, m0)
      decreases ctx
    {
      OwnerIn(ctx);
      var same := RefreshOne(rb, top, stop, low, ctx, mid, n);
      if same { break; }
      ghost var f := In(ctx.side, rb, ctx.color, rb.augmented, ctx.sib, Top);
      m := Max(rb.augmented);
      ComposeAssoc(low, f, Refresh(ctx.up, m));
      low, ctx, mid := Compose(low, f), ctx.up, rb;
      rb := rb.parent;
    }
    OwnerIn(ctx);
    PathCompose(top, stop, low, ctx, mid, n);
  }
}

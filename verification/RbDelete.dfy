/** The rebalancing loop of rb_delete. */
module RbDelete {
  import opened RbTree
  import opened RbInsert

  /** The hole of p lacks one black node: t would do if every way down it had one more. A red root
      of t may have red children, because it is about to turn black. */
  ghost predicate Short(p: Path, t: Tree)
  {
    Colored(Painted(t, Black)) && PathColored(p, BH(t) + 1)
  }

  /** The hole next door: the sibling's place, with t as the sibling. */
  ghost function Across(p: Path, t: Tree): Path
    requires p.Step?
  {
    Step(p.up, p.n, p.color, p.item, !p.d, t)
  }

  ghost function Above(p: Path, t: Tree): Tree
    requires p.Step?
  {
    Mk(p.n, p.color, p.item, p.d, t, p.sib)
  }

  lemma {:induction false} ZipAcross(h: Node, p: Path, t: Tree)
    requires p.Step?
    ensures Zip(h, p, t) <==> Zip(h, Across(p, t), p.sib)
    ensures Zip(h, p, t) <==> Zip(h, p.up, Above(p, t))
    ensures PathNodes(p) + Nodes(t) == PathNodes(Across(p, t)) + Nodes(p.sib) == PathNodes(p.up) + Nodes(Above(p, t))
    ensures Flat(p, t) == Flat(p.up, Above(p, t))
  {
    ZipUp(h, p, t);
    ZipUp(h, Across(p, t), p.sib);
    FlatUp(p, t);
  }

  // ---------- Red sibling ----------

  ghost function RedSiblingPath(p: Path): Path
    requires p.Step? && p.sib.T?
  {
    var w := p.sib;
    Step(Step(p.up, w.n, Black, w.item, p.d, Kid(w, !p.d)), p.n, Red, p.item, p.d, Kid(w, p.d))
  }

  lemma RedSiblingColors(p: Path, t: Tree)
    requires p.Step? && Short(p, t) && IsRed(p.sib)
    ensures Short(RedSiblingPath(p), t) && !IsRed(RedSiblingPath(p).sib) && p.sib.T?
  {
    assert Colored(p.sib);
  }

  lemma {:induction false} RedSiblingLaw(h: Node, p: Path, t: Tree)
    requires p.Step? && p.sib.T?
    ensures var p' := RedSiblingPath(p);
      Flat(p', t) == Flat(p, t) && PathNodes(p') + Nodes(t) == PathNodes(p) + Nodes(t)
  {
    var p', w := RedSiblingPath(p), p.sib;
    var s := Mk(p.n, Red, p.item, p.d, t, Painted(w, Black));
    PaintedKeeps(w, Black);
    RotatedKeeps(s, !p.d);
    assert Rotated(s, !p.d) == Above(p'.up, Above(p', t));
    ZipAcross(h, p, t);
    ZipAcross(h, p', t);
    ZipAcross(h, p'.up, Above(p', t));
  }

  /** Lines 324-331: w->rb_color = BLACK, the parent turns red and w is rotated above it. */
  method RotateRedSibling(a: Node, e: bool, n: Node, w: Node, d: bool, ghost h: Node, ghost p: Path, ghost t: Tree)
    requires p.Step? && p.sib.T? && Zip(h, p, t) && n == p.n && w == p.sib.n && d == p.d
    requires Slot(a, e, h, p.up)
    modifies a, n, w
    ensures Zip(h, RedSiblingPath(p), t)
  {
    ghost var w' := Painted(p.sib, Black);
    ghost var p1 := Step(p.up, p.n, p.color, p.item, p.d, w');
    ghost var s := Mk(p.n, Red, p.item, p.d, t, w');
    ghost var p' := RedSiblingPath(p);
    ZipAcross(h, p, t);
    Paint(w, Black, h, Across(p, t), p.sib);
    ZipAcross(h, p1, t);
    Paint(n, Red, h, p.up, Above(p1, t));
    Rotate(a, e, n, w, !d, h, p.up, s);
    ZipUp(h, p', t);
    ZipUp(h, p'.up, Above(p', t));
  }

  // ---------- Black sibling with two black children ----------

  lemma BlackNephewsLaw(p: Path, t: Tree)
    requires p.Step? && Short(p, t) && !IsRed(t) && p.sib.T? && !IsRed(p.sib)
    requires !IsRed(p.sib.left) && !IsRed(p.sib.right)
    ensures Short(p.up, Mk(p.n, p.color, p.item, p.d, t, Painted(p.sib, Red)))
    ensures Flat(p.up, Mk(p.n, p.color, p.item, p.d, t, Painted(p.sib, Red))) == Flat(p, t)
  {
    FlatUp(p, t);
    PaintedKeeps(p.sib, Red);
    assert Colored(p.sib);
    assert Colored(Painted(p.sib, Red));
  }

  /** Line 345: w->rb_color = RED. */
  method RecolorSibling(w: Node, ghost h: Node, ghost p: Path, ghost t: Tree)
    requires p.Step? && p.sib.T? && Zip(h, p, t) && w == p.sib.n
    modifies w
    ensures Zip(h, p.up, Mk(p.n, p.color, p.item, p.d, t, Painted(p.sib, Red)))
    ensures PathNodes(p.up) + Nodes(Mk(p.n, p.color, p.item, p.d, t, Painted(p.sib, Red))) == PathNodes(p) + Nodes(t)
  {
    ghost var p1 := Step(p.up, p.n, p.color, p.item, p.d, Painted(p.sib, Red));
    PaintedKeeps(p.sib, Red);
    ZipAcross(h, p, t);
    Paint(w, Red, h, Across(p, t), p.sib);
    ZipAcross(h, p1, t);
  }

  // ---------- Black sibling, only its near child red: a rotation makes the far child red ----------

  ghost function NearPath(p: Path): Path
    requires p.Step? && p.sib.T? && Kid(p.sib, p.d).T?
  {
    var w, y := p.sib, Kid(p.sib, p.d);
    Step(p.up, p.n, p.color, p.item, p.d,
         Mk(y.n, Black, y.item, p.d, Kid(y, p.d), Mk(w.n, Red, w.item, p.d, Kid(y, !p.d), Kid(w, !p.d))))
  }

  lemma {:induction false} NearLaw(h: Node, p: Path, t: Tree)
    requires p.Step? && Short(p, t) && p.sib.T? && !IsRed(p.sib) && IsRed(Kid(p.sib, p.d)) && !IsRed(Kid(p.sib, !p.d))
    ensures var p' := NearPath(p); Short(p', t) && !IsRed(p'.sib) && IsRed(Kid(p'.sib, !p.d))
    ensures var p' := NearPath(p); Flat(p', t) == Flat(p, t) && PathNodes(p') + Nodes(t) == PathNodes(p) + Nodes(t)
  {
    var p', w, y := NearPath(p), p.sib, Kid(p.sib, p.d);
    var s := Mk(w.n, Red, w.item, p.d, Painted(y, Black), Kid(w, !p.d));
    PaintedKeeps(y, Black);
    RotatedKeeps(s, p.d);
    assert Rotated(s, p.d) == p'.sib;
    assert InOrder(s) == InOrder(w) && Nodes(s) == Nodes(w);
    NearColors(w, y, p'.sib, p.d);
  }

  lemma {:induction false} NearColors(w: Tree, y: Tree, w': Tree, d: bool)
    requires w.T? && Colored(w) && !IsRed(w) && y == Kid(w, d) && IsRed(y) && !IsRed(Kid(w, !d))
    requires w' == Mk(y.n, Black, y.item, d, Kid(y, d), Mk(w.n, Red, w.item, d, Kid(y, !d), Kid(w, !d)))
    ensures Colored(w') && BH(w') == BH(w) && !IsRed(w') && IsRed(Kid(w', !d))
  {
    assert Colored(y) && Colored(Kid(w, !d));
    var z := Mk(w.n, Red, w.item, d, Kid(y, !d), Kid(w, !d));
    assert Colored(z) && BH(z) == BH(Kid(w, !d));
  }

  /** Lines 351-356. */
  method RotateNear(n: Node, w: Node, y: Node, d: bool, ghost h: Node, ghost p: Path, ghost t: Tree)
    requires p.Step? && d == p.d && p.sib.T? && Kid(p.sib, d).T? && Zip(h, p, t)
    requires n == p.n && w == p.sib.n && y == Kid(p.sib, d).n
    modifies n, w, y
    ensures Zip(h, NearPath(p), t)
  {
    ghost var c := Across(p, t);
    ghost var wt, yt := p.sib, Kid(p.sib, d);
    ghost var q := Step(c, wt.n, wt.color, wt.item, d, Kid(wt, !d));
    ZipAcross(h, p, t);
    ZipUp(h, q, yt);
    Paint(y, Black, h, q, yt);
    ZipUp(h, q, Painted(yt, Black));
    Paint(w, Red, h, c, Mk(wt.n, wt.color, wt.item, d, Painted(yt, Black), Kid(wt, !d)));
    Rotate(n, !d, w, y, d, h, c, Mk(wt.n, Red, wt.item, d, Painted(yt, Black), Kid(wt, !d)));
    ZipAcross(h, NearPath(p), t);
  }

  // ---------- Black sibling with a red far child: the last rotation ----------

  ghost function FarResult(p: Path, t: Tree): Tree
    requires p.Step? && p.sib.T?
  {
    var w := p.sib;
    Mk(w.n, p.color, w.item, !p.d, Painted(Kid(w, !p.d), Black), Mk(p.n, Black, p.item, !p.d, Kid(w, p.d), t))
  }

  lemma FarLaw(h: Node, p: Path, t: Tree)
    requires p.Step? && Short(p, t) && !IsRed(t) && p.sib.T? && !IsRed(p.sib) && IsRed(Kid(p.sib, !p.d))
    ensures RedBlack(p.up, FarResult(p, t)) && Flat(p.up, FarResult(p, t)) == Flat(p, t)
    ensures PathNodes(p.up) + Nodes(FarResult(p, t)) == PathNodes(p) + Nodes(t)
  {
    var w, f := p.sib, Kid(p.sib, !p.d);
    var w' := Mk(w.n, p.color, w.item, !p.d, Painted(f, Black), Kid(w, p.d));
    var s := Mk(p.n, Black, p.item, p.d, t, w');
    FlatUp(p, t);
    ZipAcross(h, p, t);
    PaintedKeeps(f, Black);
    assert InOrder(w') == InOrder(w) && Nodes(w') == Nodes(w);
    RotatedKeeps(s, !p.d);
    assert Rotated(s, !p.d) == FarResult(p, t);
    assert Colored(w);
    assert Colored(f);
    assert Colored(Mk(p.n, Black, p.item, !p.d, Kid(w, p.d), t));
  }

  /** Lines 359-365. */
  method RotateFar(a: Node, e: bool, n: Node, w: Node, f: Node, d: bool, ghost h: Node, ghost p: Path, ghost t: Tree)
    requires p.Step? && d == p.d && p.sib.T? && Kid(p.sib, !d).T? && Zip(h, p, t)
    requires n == p.n && w == p.sib.n && f == Kid(p.sib, !d).n
    requires Slot(a, e, h, p.up)
    modifies a, n, w, f
    ensures Zip(h, p.up, FarResult(p, t))
  {
    ghost var wt, ft := p.sib, Kid(p.sib, !d);
    ghost var w1 := Painted(wt, p.color);
    ghost var w2 := Mk(wt.n, p.color, wt.item, !d, Painted(ft, Black), Kid(wt, d));
    ghost var p1 := Step(p.up, p.n, p.color, p.item, p.d, w1);
    ghost var p2 := Step(p.up, p.n, Black, p.item, p.d, w1);
    ghost var q := Step(Across(p2, t), wt.n, p.color, wt.item, !d, Kid(wt, d));
    ghost var p3 := Step(p.up, p.n, Black, p.item, p.d, w2);
    ZipAcross(h, p, t);
    assert n.color == p.color;
    Paint(w, n.color, h, Across(p, t), wt);
    ZipAcross(h, p1, t);
    Paint(n, Black, h, p.up, Above(p1, t));
    ZipAcross(h, p2, t);
    ZipUp(h, q, ft);
    Paint(f, Black, h, q, ft);
    ZipUp(h, q, Painted(ft, Black));
    ZipAcross(h, p3, t);
    Rotate(a, e, n, w, !d, h, p.up, Above(p3, t));
  }

  // ---------- The loop ----------

  /** What the colour tests on a node and on its two links see. */
  lemma {:induction false} KidColors(t: Tree)
    requires Matches(t) && t.T?
    ensures t.n.color == t.color
    ensures forall d: bool :: t.n.Link(d) == Ref(Kid(t, d))
    ensures forall d: bool :: t.n.Link(d) != null ==> t.n.Link(d).color == Kid(t, d).color
  {
    assert Matches(t.left) && Matches(t.right);
  }

  /** Lines 348-366: some child of the black sibling w is red. */
  method FixRedNephew(a: Node, e: bool, n: Node, w0: Node, d: bool, ghost h: Node, ghost p: Path, ghost t: Tree)
    returns (ghost t': Tree)
    requires p.Step? && Short(p, t) && !IsRed(t) && p.sib.T? && !IsRed(p.sib) && Zip(h, p, t)
    requires IsRed(p.sib.left) || IsRed(p.sib.right)
    requires n == p.n && w0 == p.sib.n && d == p.d
    requires Slot(a, e, h, p.up)
    modifies {h} + PathNodes(p) + Nodes(t)
    ensures Zip(h, p.up, t') && Flat(p.up, t') == Flat(p, t) && PathNodes(p.up) + Nodes(t') == PathNodes(p) + Nodes(t)
    ensures RedBlack(p.up, t')
  {
    var w := w0;
    ghost var q := p;
    KidColors(p.sib);
    if w.Link(!d) == null || w.Link(!d).color == Black {
      var y := w.Link(d);
      NearLaw(h, p, t);
      RotateNear(n, w, y, d, h, p, t);
      w, q := y, NearPath(p);
      KidColors(q.sib);
    }
    t' := FarResult(q, t);
    FarLaw(h, q, t);
    RotateFar(a, e, n, w, w.Link(!d), d, h, q, t);
  }

  /** Lines 341-367 with a black sibling w: either recolours and leaves the shortage one level up,
      or rotates and is done. */
  method FixBlackSibling(a: Node, e: bool, n: Node, w: Node, d: bool, ghost h: Node, ghost p: Path, ghost t: Tree)
    returns (stop: bool, ghost t': Tree)
    requires p.Step? && Short(p, t) && !IsRed(t) && p.sib.T? && !IsRed(p.sib) && Zip(h, p, t)
    requires n == p.n && w == p.sib.n && d == p.d
    requires Slot(a, e, h, p.up)
    modifies {h} + PathNodes(p) + Nodes(t)
    ensures Zip(h, p.up, t') && Flat(p.up, t') == Flat(p, t) && PathNodes(p.up) + Nodes(t') == PathNodes(p) + Nodes(t)
    ensures if stop then RedBlack(p.up, t') else Short(p.up, t') && t'.T? && t'.color == p.color
  {
    KidColors(p.sib);
    if (w.Link(false) == null || w.Link(false).color == Black)
       && (w.Link(true) == null || w.Link(true).color == Black) {
      stop, t' := false, Mk(p.n, p.color, p.item, p.d, t, Painted(p.sib, Red));
      BlackNephewsLaw(p, t);
      RecolorSibling(w, h, p, t);
    } else {
      stop := true;
      t' := FixRedNephew(a, e, n, w, d, h, p, t);
    }
  }

  lemma {:induction false} StackFrame(pa: seq<Node>, da: seq<bool>, pa': seq<Node>, da': seq<bool>, k: nat, h: Node,
                                      p: Path)
    requires OnStack(pa, da, k, h, p) && k <= |pa'| && k <= |da'| && pa[..k] == pa'[..k] && da[..k] == da'[..k]
    ensures OnStack(pa', da', k, h, p)
  {
    assert pa[k - 1] == pa[..k][k - 1] == pa'[k - 1] && da[k - 1] == da[..k][k - 1] == da'[k - 1];
    if p.Step? {
      assert pa[..k - 1] == pa[..k][..k - 1] == pa'[..k - 1];
      assert da[..k - 1] == da[..k][..k - 1] == da'[..k - 1];
      StackFrame(pa, da, pa', da', k - 1, h, p.up);
    }
  }

  /** The stack after the red-sibling case: w takes the place of n, and n is pushed above it. */
  lemma StackRedSibling(pa: seq<Node>, da: seq<bool>, k: nat, h: Node, p: Path)
    requires OnStack(pa, da, k, h, p) && k < |pa| && k < |da| && p.Step? && p.sib.T?
    ensures OnStack(pa[k := p.n][k - 1 := p.sib.n], da[k := p.d], k + 1, h, RedSiblingPath(p))
  {
    StackFrame(pa, da, pa[k := p.n][k - 1 := p.sib.n], da[k := p.d], k - 1, h, p.up);
  }

  /** Lines 324-339: the sibling w is red. */
  method FixRedSibling(h: Node, pa0: seq<Node>, da0: seq<bool>, k: nat, w: Node, ghost p: Path, ghost t: Tree)
    returns (pa: seq<Node>, da: seq<bool>, w': Node, ghost p': Path)
    requires OnStack(pa0, da0, k, h, p) && k < |pa0| && k < |da0| && Zip(h, p, t)
    requires p.Step? && Short(p, t) && IsRed(p.sib) && w == p.sib.n
    modifies {h} + PathNodes(p) + Nodes(t)
    ensures |pa| == |pa0| && |da| == |da0| && OnStack(pa, da, k + 1, h, p') && Zip(h, p', t)
    ensures p'.Step? && p'.n == p.n && p'.d == p.d && p'.color == Red && p'.sib.T? && p'.sib.n == w'
    ensures Short(p', t) && !IsRed(p'.sib) && Depth(p') == Depth(p) + 1
    ensures Flat(p', t) == Flat(p, t) && PathNodes(p') + Nodes(t) == PathNodes(p) + Nodes(t)
  {
    p' := RedSiblingPath(p);
    RedSiblingColors(p, t);
    RedSiblingLaw(h, p, t);
    StackHeight(pa0, da0, k, h, p);
    StackRedSibling(pa0, da0, k, h, p);
    var n, d := pa0[k - 1], da0[k - 1];
    RotateRedSibling(pa0[k - 2], da0[k - 2], n, w, d, h, p, t);
    pa, da := pa0[k := n], da0[k := d];
    pa := pa[k - 1 := w];
    w' := n.Link(!d);
  }

  /** Lines 320-419: one round at a parent n of the short subtree. */
  method FixDeleteStep(h: Node, pa0: seq<Node>, da0: seq<bool>, k0: nat, ghost p0: Path, ghost t0: Tree)
    returns (pa: seq<Node>, da: seq<bool>, k: nat, stop: bool, ghost p: Path, ghost t: Tree)
    requires OnStack(pa0, da0, k0, h, p0) && k0 < |pa0| && k0 < |da0| && Zip(h, p0, t0)
    requires p0.Step? && Short(p0, t0) && !IsRed(t0)
    modifies {h} + PathNodes(p0) + Nodes(t0)
    ensures |pa| == |pa0| && |da| == |da0| && k <= k0
    ensures OnStack(pa, da, k, h, p) && Zip(h, p, t)
    ensures if stop then RedBlack(p, t) else Short(p, t) && (k < k0 || IsRed(t))
    ensures Flat(p, t) == Flat(p0, t0) && PathNodes(p) + Nodes(t) == PathNodes(p0) + Nodes(t0)
  {
    var n, d := pa0[k0 - 1], da0[k0 - 1];
    var w := n.Link(!d);
    assert w == p0.sib.n && w.color == p0.sib.color;
    StackHeight(pa0, da0, k0, h, p0);
    if w.color == Red {
      pa, da, w, p := FixRedSibling(h, pa0, da0, k0, w, p0, t0);
      k := k0;
      stop, t := FixBlackSibling(pa[k - 1], da[k - 1], n, w, d, h, p, t0);
      p := p.up;
    } else {
      pa, da, k, p := pa0, da0, k0 - 1, p0.up;
      stop, t := FixBlackSibling(pa[k - 1], da[k - 1], n, w, d, h, p0, t0);
    }
  }

  /** Lines 307-422: a black node has been taken out above t. */
  method FixDelete(h: Node, pa0: seq<Node>, da0: seq<bool>, k0: nat, ghost p0: Path, ghost t0: Tree)
    returns (ghost r: Tree)
    requires OnStack(pa0, da0, k0, h, p0) && k0 < |pa0| && k0 < |da0| && Zip(h, p0, t0) && Short(p0, t0)
    modifies {h} + PathNodes(p0) + Nodes(t0)
    ensures Zip(h, Top, r) && RedBlack(Top, r) && InOrder(r) == Flat(p0, t0)
    ensures Nodes(r) == PathNodes(p0) + Nodes(t0)
  {
    var pa, da, k: nat, stop := pa0, da0, k0, false;
    ghost var p, t := p0, t0;
    while !stop
      invariant |pa| == |pa0| && |da| == |da0| && k <= k0
      invariant OnStack(pa, da, k, h, p) && Zip(h, p, t)
      invariant if stop then RedBlack(p, t) else Short(p, t)
      invariant Flat(p, t) == Flat(p0, t0) && PathNodes(p) + Nodes(t) == PathNodes(p0) + Nodes(t0)
      decreases !stop, !IsRed(t), k
    {
      StackHeight(pa, da, k, h, p);
      var x := pa[k - 1].Link(da[k - 1]);
      assert x == Ref(t) && (x != null ==> x.color == t.color);
      if x != null && x.color == Red {
        PaintedKeeps(t, Black);
        Paint(x, Black, h, p, t);
        t, stop := Painted(t, Black), true;
      } else if k < 2 {
        stop := true;
      } else {
        pa, da, k, stop, p, t := FixDeleteStep(h, pa, da, k, p, t);
      }
    }
    ZipPlug(h, p, t);
    FlatPlug(p, t);
    RedBlackPlug(p, t);
    r := Plug(p, t);
  }
}

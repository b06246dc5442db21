/** The rebalancing loop of rb_probe. */
module RbInsert {
  import opened RbTree

  /** The stack entries pa[..k], da[..k] hold the path p: the header, then p's nodes from the root down. */
  ghost predicate OnStack(pa: seq<Node>, da: seq<bool>, k: nat, h: Node, p: Path)
  {
    && 0 < k <= |pa| && k <= |da|
    && if p.Top? then k == 1 && pa[0] == h && !da[0]
       else pa[k - 1] == p.n && da[k - 1] == p.d && OnStack(pa, da, k - 1, h, p.up)
  }

  lemma StackHeight(pa: seq<Node>, da: seq<bool>, k: nat, h: Node, p: Path)
    requires OnStack(pa, da, k, h, p)
    ensures k == Depth(p) + 1
    ensures k >= 3 ==> p.Step? && p.up.Step? && OnStack(pa, da, k - 2, h, p.up.up)
  {
    if p.Step? { StackHeight(pa, da, k - 1, h, p.up); }
  }

  /** t is coloured, its root is red, and only the edge above it may join two red nodes. */
  ghost predicate RedEdge(p: Path, t: Tree)
  {
    IsRed(t) && Colored(t) && PathColored(p, BH(t))
  }

  // ---------- Red uncle ----------

  ghost function UncleResult(p: Path, t: Tree): Tree
    requires p.Step? && p.up.Step?
  {
    Mk(p.up.n, Red, p.up.item, p.up.d, Mk(p.n, Black, p.item, p.d, t, p.sib), Painted(p.up.sib, Black))
  }

  lemma {:induction false} UncleLaw(p: Path, t: Tree)
    requires RedEdge(p, t) && p.Step? && p.color == Red && p.up.Step? && IsRed(p.up.sib)
    ensures RedEdge(p.up.up, UncleResult(p, t)) && Flat(p.up.up, UncleResult(p, t)) == Flat(p, t)
    ensures PathNodes(p.up.up) + Nodes(UncleResult(p, t)) == PathNodes(p) + Nodes(t)
  {
    var qt, qt' := Mk(p.n, Red, p.item, p.d, t, p.sib), Mk(p.n, Black, p.item, p.d, t, p.sib);
    FlatUp(p, t);
    FlatUp(p.up, qt);
    PaintedKeeps(qt, Black);
    PaintedKeeps(p.up.sib, Black);
    assert PathColored(p.up, BH(t));
    assert Colored(qt') && BH(qt') == BH(t) + 1;
  }

  /** Red uncle: the parent and the uncle turn black, the grandparent red. */
  method RecolorUncle(g: Node, q: Node, u: Node, ghost h: Node, ghost p: Path, ghost t: Tree)
    requires p.Step? && p.up.Step? && p.up.sib.T? && Zip(h, p, t)
    requires g == p.up.n && q == p.n && u == p.up.sib.n
    modifies g, q, u
    ensures Zip(h, p.up.up, UncleResult(p, t))
  {
    ghost var f := p.up;
    ghost var qt' := Mk(p.n, Black, p.item, p.d, t, p.sib);
    ZipUp(h, p, t);
    Paint(q, Black, h, f, Mk(p.n, p.color, p.item, p.d, t, p.sib));
    ZipUp(h, f, qt');
    ghost var f' := Step(f.up, g, f.color, f.item, !f.d, qt');
    ZipUp(h, f', f.sib);
    Paint(u, Black, h, f', f.sib);
    ZipUp(h, f', Painted(f.sib, Black));
    Paint(g, Red, h, f.up, Mk(g, f.color, f.item, f.d, qt', Painted(f.sib, Black)));
  }

  // ---------- Black uncle ----------

  /** The two or three nodes at the bottom of the path, as one tree below p.up.up. */
  ghost function Bottom(p: Path, t: Tree): Tree
    requires p.Step? && p.up.Step?
  {
    Mk(p.up.n, p.up.color, p.up.item, p.up.d, Mk(p.n, p.color, p.item, p.d, t, p.sib), p.up.sib)
  }

  lemma {:induction false} BottomZip(h: Node, p: Path, t: Tree)
    requires p.Step? && p.up.Step?
    ensures Zip(h, p, t) <==> Zip(h, p.up.up, Bottom(p, t))
    ensures PathNodes(p) + Nodes(t) == PathNodes(p.up.up) + Nodes(Bottom(p, t))
    ensures Flat(p, t) == Flat(p.up.up, Bottom(p, t))
  {
    ZipUp(h, p, t);
    ZipUp(h, p.up, Mk(p.n, p.color, p.item, p.d, t, p.sib));
    FlatUp(p, t);
    FlatUp(p.up, Mk(p.n, p.color, p.item, p.d, t, p.sib));
  }

  ghost function OuterResult(p: Path, t: Tree): Tree
    requires p.Step? && p.up.Step?
  {
    Mk(p.n, Black, p.item, p.up.d, t, Mk(p.up.n, Red, p.up.item, p.up.d, p.sib, p.up.sib))
  }

  lemma OuterLaw(p: Path, t: Tree)
    requires RedEdge(p, t) && p.Step? && p.color == Red && p.up.Step? && !IsRed(p.up.sib) && p.d == p.up.d
    ensures RedBlack(p.up.up, OuterResult(p, t)) && InOrder(OuterResult(p, t)) == InOrder(Bottom(p, t))
    ensures Nodes(OuterResult(p, t)) == Nodes(Bottom(p, t))
  {
    var m := Mk(p.up.n, Red, p.up.item, p.up.d, p.sib, p.up.sib);
    var b := Bottom(p, t);
    var b' := Mk(p.up.n, Red, p.up.item, p.up.d, Mk(p.n, Black, p.item, p.d, t, p.sib), p.up.sib);
    assert OuterResult(p, t) == Rotated(b', p.d);
    RotatedKeeps(b', p.d);
    PaintedKeeps(Mk(p.n, p.color, p.item, p.d, t, p.sib), Black);
    assert PathColored(p.up, BH(t));
    assert Colored(m);
  }

  /** Black uncle, outer grandchild: one rotation at the grandparent. */
  method RotateOuter(a: Node, e: bool, g: Node, q: Node, d: bool, ghost h: Node, ghost p: Path, ghost t: Tree)
    requires p.Step? && p.up.Step? && d == p.d == p.up.d && Zip(h, p, t)
    requires g == p.up.n && q == p.n
    requires Slot(a, e, h, p.up.up)
    modifies a, g, q
    ensures Zip(h, p.up.up, OuterResult(p, t))
  {
    ghost var f := p.up;
    ghost var qt, qt' := Mk(q, p.color, p.item, p.d, t, p.sib), Mk(q, Black, p.item, p.d, t, p.sib);
    BottomZip(h, p, t);
    Paint(g, Red, h, f.up, Bottom(p, t));
    ghost var f' := Step(f.up, g, Red, f.item, f.d, f.sib);
    ZipUp(h, f', qt);
    Paint(q, Black, h, f', qt);
    ZipUp(h, f', qt');
    Rotate(a, e, g, q, d, h, f.up, Mk(g, Red, f.item, f.d, qt', f.sib));
  }

  // ---------- Black uncle, inner grandchild: a rotation at the parent makes it the outer case ----------

  ghost function InnerPath(p: Path, t: Tree): Path
    requires p.Step? && t.T?
  {
    Step(p.up, t.n, t.color, t.item, !p.d, Kid(t, p.d))
  }

  ghost function InnerTree(p: Path, t: Tree): Tree
    requires p.Step? && t.T?
  {
    Mk(p.n, p.color, p.item, p.d, Kid(t, !p.d), p.sib)
  }

  lemma {:induction false} InnerLaw(h: Node, p: Path, t: Tree)
    requires RedEdge(p, t) && p.Step? && p.color == Red
    ensures RedEdge(InnerPath(p, t), InnerTree(p, t)) && Flat(InnerPath(p, t), InnerTree(p, t)) == Flat(p, t)
    ensures PathNodes(InnerPath(p, t)) + Nodes(InnerTree(p, t)) == PathNodes(p) + Nodes(t)
  {
    var qt := Mk(p.n, Red, p.item, p.d, t, p.sib);
    var p1, t1 := InnerPath(p, t), InnerTree(p, t);
    FlatUp(p, t);
    FlatUp(p1, t1);
    RotatedKeeps(qt, p.d);
    assert Rotated(qt, p.d) == Mk(p1.n, p1.color, p1.item, p1.d, t1, p1.sib);
    ZipUp(h, p, t);
    ZipUp(h, p1, t1);
  }

  method RotateInner(g: Node, f: bool, q: Node, y: Node, ghost h: Node, ghost p: Path, ghost t: Tree)
    requires p.Step? && p.up.Step? && p.d == !f && p.up.d == f && t.T? && Zip(h, p, t)
    requires g == p.up.n && q == p.n && y == t.n
    modifies g, q, y
    ensures Zip(h, InnerPath(p, t), InnerTree(p, t))
  {
    ghost var qt := Mk(p.n, p.color, p.item, p.d, t, p.sib);
    ZipUp(h, p, t);
    Rotate(g, f, q, y, !f, h, p.up, qt);
    ZipUp(h, InnerPath(p, t), InnerTree(p, t));
  }

  // ---------- The loop ----------

  /** One iteration of the loop at lines 124-194; both of the source's mirror-image branches, told
      apart by d = da[k - 2]. a/e, g/d and q/f are the stack entries k - 3, k - 2 and k - 1. */
  method FixInsertStep(h: Node, a: Node, e: bool, g: Node, d: bool, q: Node, f: bool, ghost p: Path, ghost t: Tree)
    returns (stop: bool, ghost t': Tree)
    requires Zip(h, p, t) && RedEdge(p, t) && p.Step? && p.color == Red && p.up.Step?
    requires q == p.n && f == p.d && g == p.up.n && d == p.up.d
    requires Slot(a, e, h, p.up.up)
    modifies {h} + PathNodes(p) + Nodes(t)
    ensures if stop then RedBlack(p.up.up, t') else RedEdge(p.up.up, t')
    ensures Zip(h, p.up.up, t') && t'.T? && Flat(p.up.up, t') == Flat(p, t)
    ensures PathNodes(p.up.up) + Nodes(t') == PathNodes(p) + Nodes(t)
  {
    assert PathMatches(h, p.up, p.n);
    var y := g.Link(!d);
    assert y == Ref(p.up.sib) && (y != null ==> y.color == p.up.sib.color);
    if y != null && y.color == Red {
      stop, t' := false, UncleResult(p, t);
      UncleLaw(p, t);
      RecolorUncle(g, q, y, h, p, t);
    } else {
      stop := true;
      if f == d {
        t' := OuterResult(p, t);
        OuterLaw(p, t);
        BottomZip(h, p, t);
        RotateOuter(a, e, g, q, d, h, p, t);
      } else {
        y := q.Link(!d);
        ghost var p1, t1 := InnerPath(p, t), InnerTree(p, t);
        InnerLaw(h, p, t);
        RotateInner(g, d, q, y, h, p, t);
        t' := OuterResult(p1, t1);
        OuterLaw(p1, t1);
        BottomZip(h, p1, t1);
        RotateOuter(a, e, g, y, d, h, p1, t1);
      }
    }
  }

  lemma {:induction false} RootLaw(p: Path, t: Tree)
    requires RedBlack(p, t) || (RedEdge(p, t) && (p.Step? ==> p.color == Black))
    ensures RedBlack(Top, Painted(Plug(p, t), Black))
  {
    if p.Step? || RedBlack(p, t) {
      RedBlackPlug(p, t);
      assert Painted(Plug(p, t), Black) == Plug(p, t);
    }
  }

  /** Line 195: the root turns black. */
  method BlackenRoot(h: Node, ghost p: Path, ghost t: Tree) returns (ghost r: Tree)
    requires Zip(h, p, t) && t.T?
    requires RedBlack(p, t) || (RedEdge(p, t) && (p.Step? ==> p.color == Black))
    modifies PathNodes(p) + Nodes(t)
    ensures Zip(h, Top, r) && RedBlack(Top, r) && InOrder(r) == Flat(p, t) && Nodes(r) == PathNodes(p) + Nodes(t)
  {
    RootLaw(p, t);
    ZipPlug(h, p, t);
    FlatPlug(p, t);
    r := Plug(p, t);
    assert t.n in Nodes(r);
    PaintedKeeps(r, Black);
    Paint(h.link0, Black, h, Top, r);
    r := Painted(r, Black);
  }

  /** Lines 124-195: given the path on the stack and the new red node below it, restores the red-black
      laws without changing the in-order sequence of nodes. */
  method FixInsert(h: Node, pa: seq<Node>, da: seq<bool>, k0: nat, ghost p0: Path, ghost t0: Tree)
    returns (ghost r: Tree)
    requires OnStack(pa, da, k0, h, p0) && Zip(h, p0, t0) && RedEdge(p0, t0)
    modifies {h} + PathNodes(p0) + Nodes(t0)
    ensures Zip(h, Top, r) && RedBlack(Top, r) && InOrder(r) == Flat(p0, t0)
    ensures Nodes(r) == PathNodes(p0) + Nodes(t0)
  {
    var k, stop := k0, false;
    ghost var p, t := p0, t0;
    while !stop && k >= 3 && pa[k - 1].color == Red
      invariant 0 < k <= k0
      invariant Zip(h, p, t) && t.T?
      invariant OnStack(pa, da, k, h, p)
      invariant if stop then RedBlack(p, t) else RedEdge(p, t)
      invariant Flat(p, t) == Flat(p0, t0) && PathNodes(p) + Nodes(t) == PathNodes(p0) + Nodes(t0)
    {
      StackHeight(pa, da, k, h, p);
      ghost var up := p.up.up;
      stop, t := FixInsertStep(h, pa[k - 3], da[k - 3], pa[k - 2], da[k - 2], pa[k - 1], da[k - 1], p, t);
      p, k := up, k - 2;
    }
    StackHeight(pa, da, k, h, p);
    r := BlackenRoot(h, p, t);
  }
}

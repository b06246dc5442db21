/** Taking a node out of the tree before rebalancing: the three relinking cases of rb_delete. */
module RbSplice {
  import opened RbTree
  import opened RbInsert
  import opened RbDelete
  import opened RbOrder

  /** What the loop at line 307 is entered with, when a node of colour c has been taken out above t. */
  ghost predicate TakenOut(p: Path, t: Tree, c: Color)
  {
    if c == Red then RedBlack(p, t) else Short(p, t)
  }

  /** pa[k-1]->rb_link[da[k-1]] = v, where v is the only child of the node z that fills the hole. */
  method Bypass(a: Node, e: bool, v: Node?, ghost h: Node, ghost p: Path, ghost z: Tree, ghost t: Tree)
    requires Slot(a, e, h, p) && Zip(h, p, z) && z.T? && v == Ref(t)
    requires (t == z.left && z.right.Leaf?) || (t == z.right && z.left.Leaf?)
    modifies a
    ensures Zip(h, p, t) && z.n !in PathNodes(p) + Nodes(t) && z.n != h
    ensures PathNodes(p) + Nodes(t) == (PathNodes(p) + Nodes(z)) - {z.n}
    ensures z.n != a && unchanged(z.n)
  {
    if e { a.link1 := v; } else { a.link0 := v; }
  }

  lemma BypassColors(p: Path, z: Tree, t: Tree)
    requires RedBlack(p, z) && z.T?
    requires (t == z.left && z.right.Leaf?) || (t == z.right && z.left.Leaf?)
    ensures TakenOut(p, t, z.color)
  {
    assert Colored(t);
  }

  // ---------- The successor s takes the place of z ----------

  ghost function Renamed(t: Tree, s: Node, x: Item): Tree
    requires t.T?
  {
    T(s, t.color, x, t.left, t.right)
  }

  /** s takes over the links and the colour of z, and z the colour that s had. */
  method Inherit(z: Node, s: Node, ghost t: Tree)
    requires Matches(t) && Distinct(t) && t.T? && t.n == z && s !in Nodes(t)
    modifies z, s
    ensures Matches(Renamed(t, s, s.data)) && s.data == old(s.data) && z.color == old(s.color) && z.data == old(z.data)
  {
    s.link0 := z.link0;
    s.link1 := z.link1;
    s.color, z.color := z.color, s.color;
  }

  /** s inherits from z and fills the hole of p in its stead. */
  method TakePlace(a: Node, e: bool, z: Node, s: Node, ghost h: Node, ghost p: Path, ghost t: Tree)
    requires Slot(a, e, h, p) && Zip(h, p, t) && t.T? && t.n == z
    requires s !in PathNodes(p) + Nodes(t) && s != h
    modifies a, z, s
    ensures Zip(h, p, Renamed(t, s, s.data)) && s.data == old(s.data)
    ensures z.color == old(s.color) && z !in PathNodes(p) + Nodes(Renamed(t, s, s.data)) && z != h
    ensures z.data == old(z.data)
  {
    assert allocated(PathNodes(p)) && allocated(Nodes(Renamed(t, s, s.data)));
    Inherit(z, s, t);
    assert PathMatches(h, p, z);
    Relink(a, e, s, h, p, z);
  }

  // ---------- The way from z down to its successor ----------

  /** The path q continued above by p. */
  ghost function Graft(q: Path, p: Path): Path
  {
    if q.Top? then p else Step(Graft(q.up, p), q.n, q.color, q.item, q.d, q.sib)
  }

  lemma {:induction false} GraftZip(h: Node, q: Path, p: Path, t: Tree)
    ensures Zip(h, Graft(q, p), t) <==> Zip(h, p, Plug(q, t))
    ensures PathNodes(Graft(q, p)) + Nodes(t) == PathNodes(p) + Nodes(Plug(q, t))
    ensures Flat(Graft(q, p), t) == Flat(p, Plug(q, t))
    ensures RedBlack(Graft(q, p), t) <==> RedBlack(p, Plug(q, t))
    decreases q
  {
    if q.Step? {
      var m := Mk(q.n, q.color, q.item, q.d, t, q.sib);
      ZipUp(h, Graft(q, p), t);
      FlatUp(Graft(q, p), t);
      RedBlackUp(Graft(q, p), t);
      GraftZip(h, q.up, p, m);
    }
  }

  /** Colour laws do not see which node and item a frame holds. */
  lemma {:induction false} GraftColors(q: Path, p: Path, n: Node, x: Item, b: nat)
    requires p.Step?
    ensures var p' := Step(p.up, n, p.color, x, p.d, p.sib);
            && (PathColored(Graft(q, p), b) <==> PathColored(Graft(q, p'), b))
            && (NeedsBlack(Graft(q, p)) <==> NeedsBlack(Graft(q, p')))
    decreases q
  {
    if q.Step? { GraftColors(q.up, p, n, x, b + if q.color == Black then 1 else 0); }
  }

  lemma {:induction false} GraftStack(pa: seq<Node>, da: seq<bool>, k: nat, h: Node, q: Path, p: Path, s: Node, x: Item)
    requires p.Step? && OnStack(pa, da, k, h, Graft(q, p)) && Depth(p) < |pa|
    ensures OnStack(pa[Depth(p) := s], da, k, h, Graft(q, Step(p.up, s, p.color, x, p.d, p.sib)))
    ensures k == Depth(q) + Depth(p) + 1
    decreases q
  {
    if q.Step? {
      GraftStack(pa, da, k - 1, h, q.up, p, s, x);
    } else {
      StackHeight(pa, da, k, h, p);
      StackFrame(pa, da, pa[Depth(p) := s], da, k - 1, h, p.up);
    }
  }

  lemma StackPush(pa: seq<Node>, da: seq<bool>, k: nat, h: Node, p: Path, n: Node, d: bool)
    requires OnStack(pa, da, k, h, p) && k < |pa| && k < |da|
    ensures forall c, x, sib :: OnStack(pa[k := n], da[k := d], k + 1, h, Step(p, n, c, x, d, sib))
  {
    StackFrame(pa, da, pa[k := n], da[k := d], k, h, p);
  }

  /** Lines 280-291: pushes the way down to the node s that follows z. Entry j, which the source
      leaves open until s is known, holds z meanwhile. */
  method FindSuccessor(pa0: seq<Node>, da0: seq<bool>, j: nat, z: Node, ghost h: Node, ghost p: Path, ghost t: Tree)
    returns (pa: seq<Node>, da: seq<bool>, k: nat, r: Node, s: Node, ghost q: Path, ghost st: Tree)
    requires OnStack(pa0, da0, j, h, p) && Matches(t) && t.T? && t.n == z && t.right.T? && t.right.left.T?
    requires j + Height(t) <= |pa0| == |da0|
    ensures |pa| == |pa0| && |da| == |da0| && k < |pa|
    ensures OnStack(pa, da, k, h, Graft(q, Down(p, t, true)))
    ensures q.Step? && !q.d && q.n == r && Before(q) == []
    ensures st.T? && st.n == s && st.left.Leaf? && Plug(q, st) == t.right
  {
    ghost var pz := Down(p, t, true);
    StackPush(pa0, da0, j, h, p, z, true);
    pa, da, k := pa0[j := z], da0[j := true], j + 1;
    r := z.link1;
    q := Top;
    ghost var rt := t.right;
    while true
      invariant |pa| == |pa0| && |da| == |da0| && k + Height(rt) <= |pa0|
      invariant OnStack(pa, da, k, h, Graft(q, pz)) && Before(q) == []
      invariant rt.T? && r == rt.n && rt.left.T? && Matches(rt) && Plug(q, rt) == t.right
      decreases rt
    {
      StackPush(pa, da, k, h, Graft(q, pz), r, false);
      pa, da, k := pa[k := r], da[k := false], k + 1;
      s := r.link0;
      q, st := Down(q, rt, false), rt.left;
      if s.link0 == null { break; }
      r, rt := s, rt.left;
    }
  }

  /** The entries left when the node at the root of t is taken out. */
  ghost function FlatWithout(p: Path, t: Tree): seq<Entry>
    requires t.T?
  {
    Before(p) + InOrder(t.left) + InOrder(t.right) + After(p)
  }

  /** r, the right child of z, takes over the left subtree and the colour of z. */
  method InheritLeft(z: Node, r: Node, ghost t: Tree)
    requires Matches(t) && Distinct(t) && t.T? && t.n == z && t.right.T? && t.right.n == r && t.right.left.Leaf?
    modifies z, r
    ensures Matches(T(r, t.color, t.right.item, t.left, t.right.right))
    ensures z.color == t.right.color && z.data == old(z.data)
  {
    assert Matches(t.right) && Distinct(t.right);
    r.link0 := z.link0;
    r.color, z.color := z.color, r.color;
  }

  /** Lines 267-276: the right child of z has no left child and moves up. */
  method SpliceNear(a: Node, e: bool, z: Node, r: Node, ghost h: Node, ghost p: Path, ghost t: Tree)
    requires Slot(a, e, h, p) && Zip(h, p, t) && t.T? && t.n == z && t.right.T? && t.right.n == r && t.right.left.Leaf?
    modifies a, z, r
    ensures Zip(h, Step(p, r, t.color, t.right.item, true, t.left), t.right.right)
    ensures z.color == t.right.color && z.data == old(z.data)
  {
    ghost var t' := T(r, t.color, t.right.item, t.left, t.right.right);
    assert Distinct(t.right);
    assert allocated(PathNodes(p)) && allocated(Nodes(t'));
    InheritLeft(z, r, t);
    assert PathMatches(h, p, z);
    Relink(a, e, r, h, p, z);
    assert Zip(h, p, t');
    ZipUp(h, Step(p, r, t.color, t.right.item, true, t.left), t.right.right);
  }

  lemma Reassociate(b: seq<Entry>, l: seq<Entry>, e: seq<Entry>, r: seq<Entry>, a: seq<Entry>)
    ensures b + (l + e + r) + a == b + l + (e + r) + a
  {
  }

  lemma SpliceNearLaw(h: Node, p: Path, t: Tree)
    requires t.T? && t.right.T? && t.right.left.Leaf? && RedBlack(p, t)
    ensures var p', t' := Step(p, t.right.n, t.color, t.right.item, true, t.left), t.right.right;
      TakenOut(p', t', t.right.color) && Flat(p', t') == FlatWithout(p, t)
  {
    var r := t.right;
    DownKeeps(h, p, t, true);
    BypassColors(Down(p, t, true), r, r.right);
    FlatUp(Step(p, r.n, t.color, r.item, true, t.left), r.right);
    assert InOrder(r) == [Entry(r.n, r.item)] + InOrder(r.right);
    Reassociate(Before(p), InOrder(t.left), [Entry(r.n, r.item)], InOrder(r.right), After(p));
  }

  lemma {:induction false} SpliceFarFlat(h: Node, p: Path, t: Tree, q: Path, st: Tree)
    requires t.T? && st.T? && st.left.Leaf? && Plug(q, st) == t.right && Before(q) == []
    ensures Flat(Graft(q, Step(p, st.n, t.color, st.item, true, t.left)), st.right) == FlatWithout(p, t)
  {
    var ps, rt, e := Step(p, st.n, t.color, st.item, true, t.left), Plug(q, st.right), [Entry(st.n, st.item)];
    GraftZip(h, q, ps, st.right);
    FlatUp(ps, rt);
    FlatPlug(q, st);
    FlatPlug(q, st.right);
    assert InOrder(st) == e + InOrder(st.right);
    assert InOrder(t.right) == e + InOrder(rt);
    Reassociate(Before(p), InOrder(t.left), e, InOrder(rt), After(p));
  }

  lemma {:induction false} SpliceFarColors(h: Node, p: Path, t: Tree, q: Path, st: Tree)
    requires t.T? && RedBlack(p, t) && st.T? && st.left.Leaf? && Plug(q, st) == t.right
    ensures TakenOut(Graft(q, Step(p, st.n, t.color, st.item, true, t.left)), st.right, st.color)
  {
    var pz := Down(p, t, true);
    DownKeeps(h, p, t, true);
    GraftZip(h, q, pz, st);
    BypassColors(Graft(q, pz), st, st.right);
    GraftColors(q, pz, st.n, st.item, BH(st.right));
    GraftColors(q, pz, st.n, st.item, BH(st.right) + 1);
  }

  /** Lines 293-303: s leaves its place below r and takes that of z. The writes to different nodes and
      fields are independent; those that detach s come first here. */
  method SpliceFar(a: Node, e: bool, z: Node, r: Node, s: Node, ghost h: Node, ghost p: Path, ghost t: Tree,
                   ghost q: Path, ghost st: Tree)
    requires Slot(a, e, h, p) && Zip(h, p, t) && t.T? && t.n == z
    requires q.Step? && !q.d && q.n == r && st.T? && st.n == s && st.left.Leaf? && Plug(q, st) == t.right
    modifies a, z, r, s
    ensures Zip(h, Graft(q, Step(p, s, t.color, st.item, true, t.left)), st.right)
    ensures z.color == st.color && z.data == old(z.data)
  {
    ghost var pz, ps := Down(p, t, true), Step(p, s, t.color, st.item, true, t.left);
    ghost var rt := Plug(q, st.right);
    DownKeeps(h, p, t, true);
    GraftZip(h, q, pz, st);
    Bypass(r, false, s.link1, h, Graft(q, pz), st, st.right);
    GraftZip(h, q, pz, st.right);
    ZipUp(h, pz, rt);
    TakePlace(a, e, z, s, h, p, T(z, t.color, t.item, t.left, rt));
    ZipUp(h, ps, rt);
    GraftZip(h, q, ps, st.right);
  }

  /** Lines 260-305: takes z out of the tree; z->rb_color tells afterwards which colour got lost. */
  method Splice(h: Node, pa0: seq<Node>, da0: seq<bool>, k0: nat, z: Node, ghost p: Path, ghost t: Tree)
    returns (pa: seq<Node>, da: seq<bool>, k: nat, ghost p': Path, ghost t': Tree)
    requires OnStack(pa0, da0, k0, h, p) && Zip(h, p, t) && RedBlack(p, t) && t.T? && t.n == z
    requires k0 + Height(t) <= |pa0| == |da0|
    modifies {h} + PathNodes(p) + Nodes(t)
    ensures |pa| == |pa0| && |da| == |da0| && k < |pa| && OnStack(pa, da, k, h, p')
    ensures Zip(h, p', t') && TakenOut(p', t', z.color) && Flat(p', t') == FlatWithout(p, t)
    ensures PathNodes(p') + Nodes(t') <= PathNodes(p) + Nodes(t) && z.data == old(z.data)
  {
    assert Matches(t.right);
    if z.link1 == null {
      pa, da, k, p', t' := SpliceAlone(h, pa0, da0, k0, z, p, t);
    } else if z.link1.link0 == null {
      pa, da, k, p', t' := SpliceRight(h, pa0, da0, k0, z, p, t);
    } else {
      pa, da, k, p', t' := SpliceSuccessor(h, pa0, da0, k0, z, p, t);
    }
  }

  /** Line 261: the node has no right child. */
  method SpliceAlone(h: Node, pa0: seq<Node>, da0: seq<bool>, k0: nat, z: Node, ghost p: Path, ghost t: Tree)
    returns (pa: seq<Node>, da: seq<bool>, k: nat, ghost p': Path, ghost t': Tree)
    requires OnStack(pa0, da0, k0, h, p) && Zip(h, p, t) && RedBlack(p, t) && t.T? && t.n == z
    requires k0 + Height(t) <= |pa0| == |da0|
    requires z.link1 == null
    modifies {h} + PathNodes(p) + Nodes(t)
    ensures |pa| == |pa0| && |da| == |da0| && k < |pa| && OnStack(pa, da, k, h, p')
    ensures Zip(h, p', t') && TakenOut(p', t', z.color) && Flat(p', t') == FlatWithout(p, t)
    ensures PathNodes(p') + Nodes(t') <= PathNodes(p) + Nodes(t) && z.data == old(z.data)
  {
    pa, da, k := pa0, da0, k0;
    StackHeight(pa, da, k, h, p);
    assert Matches(t.right);
    p', t' := p, t.left;
    BypassColors(p, t, t');
    assert FlatWithout(p, t) == Flat(p, t.left);
    Bypass(pa[k - 1], da[k - 1], z.link0, h, p, t, t');
  }

  /** Lines 267-276: its right child has no left child. */
  method SpliceRight(h: Node, pa0: seq<Node>, da0: seq<bool>, k0: nat, z: Node, ghost p: Path, ghost t: Tree)
    returns (pa: seq<Node>, da: seq<bool>, k: nat, ghost p': Path, ghost t': Tree)
    requires OnStack(pa0, da0, k0, h, p) && Zip(h, p, t) && RedBlack(p, t) && t.T? && t.n == z
    requires k0 + Height(t) <= |pa0| == |da0|
    requires z.link1 != null && z.link1.link0 == null
    modifies {h} + PathNodes(p) + Nodes(t)
    ensures |pa| == |pa0| && |da| == |da0| && k < |pa| && OnStack(pa, da, k, h, p')
    ensures Zip(h, p', t') && TakenOut(p', t', z.color) && Flat(p', t') == FlatWithout(p, t)
    ensures PathNodes(p') + Nodes(t') <= PathNodes(p) + Nodes(t) && z.data == old(z.data)
  {
    StackHeight(pa0, da0, k0, h, p);
    assert Matches(t.right);
    var r := z.link1;
    p', t' := Step(p, r, t.color, t.right.item, true, t.left), t.right.right;
    SpliceNearLaw(h, p, t);
    StackPush(pa0, da0, k0, h, p, r, true);
    SpliceNear(pa0[k0 - 1], da0[k0 - 1], z, r, h, p, t);
    pa, da, k := pa0[k0 := r], da0[k0 := true], k0 + 1;
  }

  /** Lines 278-304: the successor of z is further down on the left. */
  method SpliceSuccessor(h: Node, pa0: seq<Node>, da0: seq<bool>, k0: nat, z: Node, ghost p: Path, ghost t: Tree)
    returns (pa: seq<Node>, da: seq<bool>, k: nat, ghost p': Path, ghost t': Tree)
    requires OnStack(pa0, da0, k0, h, p) && Zip(h, p, t) && RedBlack(p, t) && t.T? && t.n == z
    requires t.right.T? && t.right.left.T? && k0 + Height(t) <= |pa0| == |da0|
    modifies {h} + PathNodes(p) + Nodes(t)
    ensures |pa| == |pa0| && |da| == |da0| && k < |pa| && OnStack(pa, da, k, h, p')
    ensures Zip(h, p', t') && TakenOut(p', t', z.color) && Flat(p', t') == FlatWithout(p, t)
    ensures PathNodes(p') + Nodes(t') <= PathNodes(p) + Nodes(t) && z.data == old(z.data)
  {
    StackHeight(pa0, da0, k0, h, p);
    var r, s;
    ghost var q, st;
    assert allocated(PathNodes(p)) && allocated(Nodes(t));
    pa, da, k, r, s, q, st := FindSuccessor(pa0, da0, k0, z, h, p, t);
    SpliceFarColors(h, p, t, q, st);
    SpliceFarFlat(h, p, t, q, st);
    GraftStack(pa, da, k, h, q, Down(p, t, true), s, st.item);
    p', t' := Graft(q, Step(p, s, t.color, st.item, true, t.left)), st.right;
    pa := pa[k0 := s];
    SpliceFarNodes(h, p, t, q, st);
    SpliceFar(pa0[k0 - 1], da0[k0 - 1], z, r, s, h, p, t, q, st);
  }

  lemma {:induction false} SpliceFarNodes(h: Node, p: Path, t: Tree, q: Path, st: Tree)
    requires t.T? && q.Step? && st.T? && Plug(q, st) == t.right
    ensures var p', t' := Graft(q, Step(p, st.n, t.color, st.item, true, t.left)), st.right;
      PathNodes(p') + Nodes(t') <= PathNodes(p) + Nodes(t)
    ensures {q.n, st.n, t.n} <= PathNodes(p) + Nodes(t)
  {
    var ps := Step(p, st.n, t.color, st.item, true, t.left);
    GraftZip(h, q, ps, st.right);
    ZipPlug(h, q, st);
    ZipPlug(h, q, st.right);
    assert st.n in Nodes(st);
  }

  /** Lines 307-422: rebalances if the colour that got lost is black. */
  method FixAfterSplice(h: Node, pa: seq<Node>, da: seq<bool>, k: nat, lost: Color, ghost p: Path, ghost t: Tree)
    returns (ghost r: Tree)
    requires OnStack(pa, da, k, h, p) && k < |pa| && k < |da| && Zip(h, p, t) && TakenOut(p, t, lost)
    modifies {h} + PathNodes(p) + Nodes(t)
    ensures Zip(h, Top, r) && RedBlack(Top, r) && InOrder(r) == Flat(p, t)
    ensures Nodes(r) == PathNodes(p) + Nodes(t)
  {
    if lost == Black {
      r := FixDelete(h, pa, da, k, p, t);
    } else {
      r := Plug(p, t);
      RedBlackPlug(p, t);
      ZipPlug(h, p, t);
      FlatPlug(p, t);
    }
  }
}

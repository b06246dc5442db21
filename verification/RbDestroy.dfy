/** rb_destroy: frees every node without a stack, by rotating left children up as it goes. */
module RbDestroy {
  import opened RbTree

  /** The nodes that hold the entries. */
  ghost function Refs(es: seq<Entry>): seq<Node>
  {
    if es == [] then [] else Refs(es[..|es| - 1]) + [es[|es| - 1].n]
  }

  /** The items that the destroy callback gets to see: the non-null ones. */
  ghost function NonNullItems(es: seq<Entry>): seq<Item>
  {
    if es == [] then []
    else NonNullItems(es[..|es| - 1]) + if es[|es| - 1].item.handle != 0 then [es[|es| - 1].item] else []
  }

  lemma {:induction false} InOrderNodes(t: Tree)
    ensures forall i :: 0 <= i < |InOrder(t)| ==> InOrder(t)[i].n in Nodes(t)
    ensures forall n :: n in Nodes(t) ==> exists i :: 0 <= i < |InOrder(t)| && InOrder(t)[i].n == n
  {
    if t.T? {
      InOrderNodes(t.left);
      InOrderNodes(t.right);
      var l, r := InOrder(t.left), InOrder(t.right);
      forall n | n in Nodes(t) ensures exists i :: 0 <= i < |InOrder(t)| && InOrder(t)[i].n == n
      {
        if n == t.n {
          assert InOrder(t)[|l|].n == n;
        } else if n in Nodes(t.left) {
          var i :| 0 <= i < |l| && l[i].n == n;
          assert InOrder(t)[i].n == n;
        } else {
          var i :| 0 <= i < |r| && r[i].n == n;
          assert InOrder(t)[|l| + 1 + i].n == n;
        }
      }
    }
  }

  /** No node is freed twice. */
  lemma {:induction false} FreedOnce(t: Tree)
    requires Distinct(t)
    ensures forall i, j :: 0 <= i < j < |InOrder(t)| ==> InOrder(t)[i].n != InOrder(t)[j].n
  {
    if t.T? {
      FreedOnce(t.left);
      FreedOnce(t.right);
      InOrderNodes(t.left);
      InOrderNodes(t.right);
    }
  }

  lemma {:induction false} RefsAt(es: seq<Entry>)
    ensures |Refs(es)| == |es| && forall i :: 0 <= i < |es| ==> Refs(es)[i] == es[i].n
  {
    if es != [] { RefsAt(es[..|es| - 1]); }
  }

  lemma {:induction false} Snoc(es: seq<Entry>, e: Entry)
    ensures Refs(es + [e]) == Refs(es) + [e.n]
    ensures NonNullItems(es + [e]) == NonNullItems(es) + if e.item.handle != 0 then [e.item] else []
  {
    assert (es + [e])[..|es|] == es;
  }

  lemma {:induction false} LeftmostFirst(done: seq<Entry>, t: Tree)
    requires t.T? && t.left.Leaf?
    ensures done + InOrder(t) == (done + [Entry(t.n, t.item)]) + InOrder(t.right)
    ensures |InOrder(t.right)| < |InOrder(t)|
  {
    assert InOrder(t) == [Entry(t.n, t.item)] + InOrder(t.right);
  }

  /** Entries handed out and entries still in the tree have different nodes. */
  lemma {:induction false} Apart(t0: Tree, done: seq<Entry>, t: Tree)
    requires Distinct(t0) && InOrder(t0) == done + InOrder(t)
    ensures forall n :: n in Refs(done) ==> n !in Nodes(t)
  {
    FreedOnce(t0);
    InOrderNodes(t);
    RefsAt(done);
    forall i, n | 0 <= i < |done| && n in Nodes(t) ensures done[i].n != n
    {
      var j :| 0 <= j < |InOrder(t)| && InOrder(t)[j].n == n;
      assert InOrder(t0)[|done| + j] == InOrder(t)[j] && InOrder(t0)[i] == done[i];
    }
  }

  /** The in-order nodes are all nodes, each once. */
  lemma {:induction false} EachFreedOnce(t: Tree)
    requires Distinct(t)
    ensures forall n :: n in Nodes(t) <==> n in Refs(InOrder(t))
    ensures forall i, j :: 0 <= i < j < |Refs(InOrder(t))| ==> Refs(InOrder(t))[i] != Refs(InOrder(t))[j]
  {
    var es, rs := InOrder(t), Refs(InOrder(t));
    FreedOnce(t);
    InOrderNodes(t);
    RefsAt(es);
    forall n | n in Nodes(t) ensures n in rs
    {
      var i :| 0 <= i < |es| && es[i].n == n;
      assert rs[i] == n;
    }
  }

  /** freed lists the nodes in the order in which they are given back, destroyed the items passed to
      the callback. A freed node is not touched again. */
  method Destroy(h: Node, ghost t0: Tree) returns (destroyed: seq<Item>, freed: seq<Node>)
    requires Zip(h, Top, t0)
    modifies Nodes(t0)
    ensures freed == Refs(InOrder(t0)) && destroyed == NonNullItems(InOrder(t0))
    ensures forall n :: n in Nodes(t0) <==> n in freed
    ensures forall i, j :: 0 <= i < j < |freed| ==> freed[i] != freed[j]
  {
    destroyed, freed := [], [];
    ghost var t, done := t0, [];
    var p := h.link0;
    while p != null
      invariant Matches(t) && Distinct(t) && p == Ref(t) && Nodes(t) <= Nodes(t0)
      invariant InOrder(t0) == done + InOrder(t)
      invariant freed == Refs(done) && destroyed == NonNullItems(done)
      decreases |InOrder(t)|, if t.T? then |InOrder(t.left)| else 0
    {
      Apart(t0, done, t);
      var q;
      assert p !in freed && (p.link0 != null ==> p.link0 !in freed);
      if p.link0 == null {
        q := p.link1;
        LeftmostFirst(done, t);
        Snoc(done, Entry(t.n, t.item));
        if p.data.handle != 0 { destroyed := destroyed + [p.data]; }
        freed := freed + [p];
        done, t := done + [Entry(t.n, t.item)], t.right;
      } else {
        q := p.link0;
        RotatedKeeps(t, false);
        RotatedDistinct(t, false);
        Swing(p, q, false, t);
        t := Rotated(t, false);
      }
      p := q;
    }
    assert done + InOrder(t) == done;
    EachFreedOnce(t0);
  }
}

/** rb_copy: an iterative copy of the tree, with a stack that is pushed on left moves only. */
module RbCopy {
  import opened RbTree
  import opened RbOrder
  import opened RbTable

  /** d has the shape and colours of s, fresh nodes aside, and its items are those of s after f. */
  ghost predicate CopyOf(s: Tree, d: Tree, f: Item -> Item)
  {
    && s.T? == d.T?
    && (s.T? ==> s.color == d.color && d.item == f(s.item) && CopyOf(s.left, d.left, f) && CopyOf(s.right, d.right, f))
  }

  /** The half-built copy above the node `hole`: below a right move the frame is complete, below a
      left move only the link is set. */
  ghost predicate Built(h: Node, q: Path, hole: Node?)
    reads {h} + PathNodes(q)
  {
    if q.Top? then h.link0 == hole
    else if q.d then
      && q.n.color == q.color && q.n.data == q.item && q.n.link0 == Ref(q.sib) && q.n.link1 == hole
      && Matches(q.sib) && Built(h, q.up, q.n)
    else q.n.link0 == hole && q.sib.Leaf? && Built(h, q.up, q.n)
  }

  /** Source path p and copy path q run in parallel; what lies left of them is copied. */
  ghost predicate Parallel(p: Path, q: Path, f: Item -> Item)
  {
    && p.Top? == q.Top?
    && (p.Step? ==> p.d == q.d && Parallel(p.up, q.up, f))
    && (p.Step? && p.d ==> q.color == p.color && q.item == f(p.item) && CopyOf(p.sib, q.sib, f))
  }

  /** Node y of the copy hangs below q, with the finished copy l of a left subtree; nothing is shared. */
  ghost predicate Hangs(h: Node, q: Path, y: Node, l: Tree)
    reads {h} + PathNodes(q) + Nodes(l)
  {
    && h !in PathNodes(q) && h != y && h !in Nodes(l)
    && y !in PathNodes(q) && y !in Nodes(l) && PathNodes(q) !! Nodes(l)
    && PathDistinct(q) && Distinct(l) && Matches(l) && Built(h, q, y)
  }

  /** The stack: a pair for the headers, then one for each left move. */
  ghost function Pairs(h: Node, h': Node, p: Path, q: Path): seq<Node>
    requires p.Top? == q.Top?
    decreases p
  {
    if p.Top? then [h, h']
    else if p.up.Top? != q.up.Top? then []
    else if p.d then Pairs(h, h', p.up, q.up)
    else Pairs(h, h', p.up, q.up) + [p.n, q.n]
  }

  lemma {:induction false} PairsLength(h: Node, h': Node, p: Path, q: Path)
    requires p.Top? == q.Top?
    ensures |Pairs(h, h', p, q)| <= 2 * (Depth(p) + 1)
    decreases p
  {
    if p.Step? && p.up.Top? == q.up.Top? { PairsLength(h, h', p.up, q.up); }
  }

  /** Every left move adds a pair. */
  lemma {:induction false} PairsStep(h: Node, h': Node, p: Path, q: Path)
    requires (exists f :: Parallel(p, q, f)) && (p.Step? ==> !p.d)
    ensures |Pairs(h, h', p, q)| > 2 <==> p.Step?
  {
    if p.Step? { PairsTwo(h, h', p.up, q.up); }
  }

  lemma {:induction false} PairsTwo(h: Node, h': Node, p: Path, q: Path)
    requires exists f :: Parallel(p, q, f)
    ensures |Pairs(h, h', p, q)| >= 2
    decreases p
  {
    if p.Step? { PairsTwo(h, h', p.up, q.up); }
  }

  /** Lines 793-795: a new node as the left child of y. */
  method GrowLeft(h: Node, y: Node, ghost q: Path) returns (z: Node, ghost q': Path)
    requires Hangs(h, q, y, Leaf)
    modifies y
    ensures q' == Step(q, y, Red, Item(0, 0), false, Leaf) && Hangs(h, q', z, Leaf) && fresh(z)
  {
    assert allocated(PathNodes(q));
    z := new Node(Item(0, 0));
    y.link0 := z;
    q' := Step(q, y, Red, Item(0, 0), false, Leaf);
  }

  /** Lines 833-835: a new node as the right child of y. */
  method GrowRight(h: Node, y: Node, ghost q: Path, ghost l: Tree) returns (z: Node, ghost q': Path)
    requires Hangs(h, q, y, l) && y.link0 == Ref(l)
    modifies y
    ensures q' == Step(q, y, y.color, y.data, true, l) && Hangs(h, q', z, Leaf) && fresh(z)
    ensures y.color == old(y.color) && y.data == old(y.data)
  {
    assert allocated(PathNodes(q)) && allocated(Nodes(l));
    z := new Node(Item(0, 0));
    y.link1 := z;
    q' := Step(q, y, y.color, y.data, true, l);
  }

  /** x, the root of t, is to be copied to y, which has no children yet; the stack holds the pairs above. */
  ghost predicate OnSpine(h: Node, h': Node, f: Item -> Item, x: Node, y: Node, stack: seq<Node>, p: Path, q: Path,
                          t: Tree, pool: set<Node>)
    reads {h'} + pool + Nodes(t) + PathNodes(q) + {y}
  {
    && t.T? && x == t.n && Matches(t) && Parallel(p, q, f) && stack == Pairs(h, h', p, q)
    && Hangs(h', q, y, Leaf) && Depth(p) + Height(t) < RB_MAX_HEIGHT
    && PathNodes(q) + {y} <= pool && pool !! Nodes(t)
  }

  /** Lines 789-810: one step down to the left. */
  method DownLeft(h: Node, h': Node, x0: Node, y0: Node, stack0: seq<Node>, f: Item -> Item,
                  ghost p0: Path, ghost q0: Path, ghost t0: Tree, ghost pool: set<Node>)
    returns (x: Node, y: Node, stack: seq<Node>, ghost p: Path, ghost q: Path, ghost t: Tree, ghost more: set<Node>)
    requires OnSpine(h, h', f, x0, y0, stack0, p0, q0, t0, pool) && x0.link0 != null
    modifies y0
    ensures OnSpine(h, h', f, x, y, stack, p, q, t, pool + more) && fresh(more)
    ensures t == t0.left && Plug(p, t) == Plug(p0, t0) && Before(p) == Before(p0)
  {
    assert allocated(Nodes(t0));
    PairsLength(h, h', p0, q0);
    assert |stack0| < 2 * (RB_MAX_HEIGHT + 1);
    var z;
    z, q := GrowLeft(h', y0, q0);
    stack := stack0 + [x0, y0];
    x, y := x0.link0, z;
    p, t, more := Down(p0, t0, false), t0.left, {z};
  }

  /** Lines 789-813: down the left spine of t, copying links only. pool holds the nodes of the copy. */
  method LeftSpine(h: Node, h': Node, x0: Node, y0: Node, stack0: seq<Node>, f: Item -> Item,
                   ghost p0: Path, ghost q0: Path, ghost t0: Tree, ghost pool0: set<Node>)
    returns (x: Node, y: Node, stack: seq<Node>, ghost p: Path, ghost q: Path, ghost t: Tree, ghost pool: set<Node>)
    requires t0.T? && x0 == t0.n && Matches(t0) && Parallel(p0, q0, f) && stack0 == Pairs(h, h', p0, q0)
    requires Hangs(h', q0, y0, Leaf) && PathNodes(q0) + {y0} <= pool0 && pool0 !! Nodes(t0)
    requires Depth(p0) + Height(t0) < RB_MAX_HEIGHT
    modifies pool0
    ensures t.T? && x == t.n && t.left.Leaf? && Plug(p, t) == Plug(p0, t0) && Before(p) == Before(p0)
    ensures Parallel(p, q, f) && stack == Pairs(h, h', p, q)
    ensures Hangs(h', q, y, Leaf) && y.link0 == null
    ensures fresh(pool - pool0) && PathNodes(q) + {y} <= pool
  {
    x, y, stack, p, q, t, pool := x0, y0, stack0, p0, q0, t0, pool0;
    assert allocated(Nodes(t0));
    while x.link0 != null
      invariant OnSpine(h, h', f, x, y, stack, p, q, t, pool) && Plug(p, t) == Plug(p0, t0) && Before(p) == Before(p0)
      invariant Nodes(t) <= Nodes(t0) && fresh(pool - pool0) && pool !! Nodes(t0)
      decreases t
    {
      ghost var more;
      x, y, stack, p, q, t, more := DownLeft(h, h', x, y, stack, f, p, q, t, pool);
      pool := pool + more;
    }
    y.link0 := null;
  }

  /** The finished copy d of a subtree fills the hole of q. */
  ghost predicate Filled(h: Node, q: Path, d: Tree)
    reads {h} + PathNodes(q) + Nodes(d)
  {
    && h !in PathNodes(q) && h !in Nodes(d) && PathNodes(q) !! Nodes(d)
    && PathDistinct(q) && d.T? && Distinct(d) && Matches(d) && Built(h, q, d.n)
  }

  /** Popping the stack skips the right moves: all their frames are complete. */
  lemma {:induction false} Pop(h: Node, h': Node, f: Item -> Item, p: Path, q: Path, t: Tree, d: Tree)
    returns (p': Path, q': Path, t': Tree, d': Tree)
    requires Parallel(p, q, f) && CopyOf(t, d, f) && Filled(h', q, d)
    ensures Parallel(p', q', f) && CopyOf(t', d', f) && Filled(h', q', d')
    ensures p'.Top? || !p'.d
    ensures Pairs(h, h', p', q') == Pairs(h, h', p, q) && Plug(p', t') == Plug(p, t)
    ensures |Before(p')| + |InOrder(t')| == |Before(p)| + |InOrder(t)|
    ensures PathNodes(q') + Nodes(d') <= PathNodes(q) + Nodes(d)
    decreases p
  {
    if p.Step? && p.d {
      var t1 := Mk(p.n, p.color, p.item, true, t, p.sib);
      var d1 := Mk(q.n, q.color, q.item, true, d, q.sib);
      assert Matches(d1) && Distinct(d1);
      p', q', t', d' := Pop(h, h', f, p.up, q.up, t1, d1);
    } else {
      p', q', t', d' := p, q, t, d;
    }
  }

  /** Lines 817-829: y receives the colour and the copied item of x. */
  method FillIn(h: Node, x: Node, y: Node, f: Item -> Item, ghost q: Path, ghost l: Tree)
    requires Hangs(h, q, y, l) && y.link0 == Ref(l) && x != y
    modifies y
    ensures Hangs(h, q, y, l) && y.link0 == Ref(l) && y.color == x.color && y.data == f(x.data)
  {
    y.color := x.color;
    y.data := f(x.data);
  }

  /** Line 847: y has no right child and is finished. */
  method Close(h: Node, y: Node, ghost q: Path, ghost l: Tree)
    requires Hangs(h, q, y, l) && y.link0 == Ref(l)
    modifies y
    ensures Filled(h, q, T(y, y.color, y.data, l, Leaf)) && y.color == old(y.color) && y.data == old(y.data)
  {
    y.link1 := null;
  }

  /** The loop of rb_copy between the first and the last push: x is copied down to its left subtree,
      whose copy is l. */
  ghost predicate Midway(h: Node, h': Node, f: Item -> Item, src: Tree, x: Node, y: Node, stack: seq<Node>,
                         p: Path, q: Path, t: Tree, l: Tree, pool: set<Node>)
    reads {h'} + PathNodes(q) + Nodes(l) + {y}
  {
    && t.T? && x == t.n && Plug(p, t) == src && Parallel(p, q, f) && CopyOf(t.left, l, f)
    && stack == Pairs(h, h', p, q)
    && Hangs(h', q, y, l) && y.link0 == Ref(l)
    && PathNodes(q) + Nodes(l) + {y} <= pool && pool !! Nodes(src)
  }

  /** Lines 831-844 and the left spine that follows: on to the right child of x. */
  method GoRight(h: Node, h': Node, f: Item -> Item, x0: Node, y0: Node, stack0: seq<Node>, ghost src: Tree,
                 ghost p0: Path, ghost q0: Path, ghost t0: Tree, ghost l0: Tree, ghost pool0: set<Node>)
    returns (x: Node, y: Node, stack: seq<Node>, ghost p: Path, ghost q: Path, ghost t: Tree, ghost pool: set<Node>)
    requires Midway(h, h', f, src, x0, y0, stack0, p0, q0, t0, l0, pool0)
    requires y0.color == t0.color && y0.data == f(t0.item)
    requires t0.right.T? && Matches(t0) && Nodes(t0) <= Nodes(src) && Depth(p0) + Height(t0) < RB_MAX_HEIGHT
    modifies pool0
    ensures fresh(pool - pool0) && Midway(h, h', f, src, x, y, stack, p, q, t, Leaf, pool)
    ensures |Before(p)| + |InOrder(t.left)| == |Before(p0)| + |InOrder(t0.left)| + 1
  {
    assert allocated(Nodes(t0)) && allocated(Nodes(src));
    ghost var q1;
    var z;
    z, q1 := GrowRight(h', y0, q0, l0);
    x, y, stack, p, q, t, pool :=
      LeftSpine(h, h', x0.link1, z, stack0, f, Down(p0, t0, true), q1, t0.right, pool0 + {z});
  }

  /** Lines 846-853: x has no right child; back to the last left move. */
  method GoUp(h: Node, h': Node, f: Item -> Item, y0: Node, stack0: seq<Node>, ghost src: Tree,
              ghost p0: Path, ghost q0: Path, ghost t0: Tree, ghost l0: Tree, ghost pool: set<Node>)
    returns (done: bool, x: Node, y: Node, stack: seq<Node>, ghost p: Path, ghost q: Path, ghost t: Tree, ghost l: Tree)
    requires t0.T? && Midway(h, h', f, src, t0.n, y0, stack0, p0, q0, t0, l0, pool)
    requires y0.color == t0.color && y0.data == f(t0.item) && t0.right.Leaf?
    modifies y0
    ensures done ==> Filled(h', Top, l) && CopyOf(src, l, f) && Nodes(l) <= pool
    ensures !done ==> Midway(h, h', f, src, x, y, stack, p, q, t, l, pool)
    ensures !done ==> |Before(p)| + |InOrder(t.left)| == |Before(p0)| + |InOrder(t0.left)| + 1
  {
    Close(h', y0, q0, l0);
    ghost var d := T(y0, y0.color, y0.data, l0, Leaf);
    assert CopyOf(t0, d, f);
    assert |InOrder(t0)| == |InOrder(t0.left)| + 1;
    p, q, t, l := Pop(h, h', f, p0, q0, t0, d);
    x, y, stack := h, h', stack0;
    PairsStep(h, h', p, q);
    if |stack| <= 2 {
      done := true;
    } else {
      done := false;
      LeftFrame(h, h', f, p, q, t, l);
      y, x := stack[|stack| - 1], stack[|stack| - 2];
      stack := stack[..|stack| - 2];
      t := Mk(p.n, p.color, p.item, false, t, p.sib);
      p, q := p.up, q.up;
    }
  }

  /** The frame of a left move, popped after the left subtree is finished. */
  lemma {:induction false} LeftFrame(h: Node, h': Node, f: Item -> Item, p: Path, q: Path, t: Tree, d: Tree)
    requires Parallel(p, q, f) && p.Step? && !p.d && Filled(h', q, d)
    ensures Parallel(p.up, q.up, f) && Hangs(h', q.up, q.n, d) && q.n.link0 == d.n
    ensures Pairs(h, h', p, q) == Pairs(h, h', p.up, q.up) + [p.n, q.n]
    ensures var s := Pairs(h, h', p, q);
      s[|s| - 2] == p.n && s[|s| - 1] == q.n && s[..|s| - 2] == Pairs(h, h', p.up, q.up)
    ensures PathNodes(q.up) + {q.n} <= PathNodes(q)
  {
  }

  /** Lines 817-829 in the loop. */
  method Receive(h: Node, h': Node, f: Item -> Item, x: Node, y: Node, stack: seq<Node>, ghost src: Tree,
                 ghost p: Path, ghost q: Path, ghost t: Tree, ghost l: Tree, ghost pool: set<Node>)
    requires Zip(h, Top, src) && Height(src) < RB_MAX_HEIGHT && h !in pool
    requires Midway(h, h', f, src, x, y, stack, p, q, t, l, pool)
    modifies y
    ensures Midway(h, h', f, src, x, y, stack, p, q, t, l, pool)
    ensures y.color == t.color && y.data == f(t.item)
    ensures Matches(t) && Nodes(t) <= Nodes(src) && Depth(p) + Height(t) < RB_MAX_HEIGHT
  {
    ZipPlug(h, p, t);
    DepthHeight(p, t);
    assert allocated(Nodes(t));
    FillIn(h', x, y, f, q, l);
  }

  /** One round of the inner loop, lines 817-853, with the left spine of a right child thrown in. */
  method CopyNode(h: Node, h': Node, f: Item -> Item, x0: Node, y0: Node, stack0: seq<Node>, ghost src: Tree,
                  ghost p0: Path, ghost q0: Path, ghost t0: Tree, ghost l0: Tree, ghost pool0: set<Node>)
    returns (done: bool, x: Node, y: Node, stack: seq<Node>,
             ghost p: Path, ghost q: Path, ghost t: Tree, ghost l: Tree, ghost pool: set<Node>)
    requires Zip(h, Top, src) && Height(src) < RB_MAX_HEIGHT && h !in pool0
    requires Midway(h, h', f, src, x0, y0, stack0, p0, q0, t0, l0, pool0)
    modifies pool0
    ensures fresh(pool - pool0)
    ensures done ==> Filled(h', Top, l) && CopyOf(src, l, f) && Nodes(l) <= pool
    ensures !done ==> Midway(h, h', f, src, x, y, stack, p, q, t, l, pool)
    ensures !done ==> |Before(p)| + |InOrder(t.left)| == |Before(p0)| + |InOrder(t0.left)| + 1
  {
    Receive(h, h', f, x0, y0, stack0, src, p0, q0, t0, l0, pool0);
    if x0.link1 != null {
      done, l := false, Leaf;
      x, y, stack, p, q, t, pool := GoRight(h, h', f, x0, y0, stack0, src, p0, q0, t0, l0, pool0);
    } else {
      pool := pool0;
      done, x, y, stack, p, q, t, l := GoUp(h, h', f, y0, stack0, src, p0, q0, t0, l0, pool0);
    }
  }

  /** The rest of the loops, lines 815-854, once the first left spine is copied. */
  method CopyRest(h: Node, h': Node, f: Item -> Item, x0: Node, y0: Node, stack0: seq<Node>, ghost src: Tree,
                  ghost p0: Path, ghost q0: Path, ghost t0: Tree, ghost pool0: set<Node>)
    returns (ghost d: Tree)
    requires Zip(h, Top, src) && Height(src) < RB_MAX_HEIGHT && h !in pool0
    requires Midway(h, h', f, src, x0, y0, stack0, p0, q0, t0, Leaf, pool0)
    modifies pool0
    ensures Filled(h', Top, d) && CopyOf(src, d, f) && fresh(Nodes(d) - pool0) && Zip(h, Top, src)
  {
    assert allocated(Nodes(src));
    var x, y, stack := x0, y0, stack0;
    ghost var p, q, t, pool := p0, q0, t0, pool0;
    d := Leaf;
    var done := false;
    while !done
      invariant fresh(pool - pool0) && h !in pool && Zip(h, Top, src)
      invariant !done ==> Midway(h, h', f, src, x, y, stack, p, q, t, d, pool)
      invariant done ==> Filled(h', Top, d) && CopyOf(src, d, f) && Nodes(d) <= pool
      decreases !done, |InOrder(src)| - (if done then 0 else |Before(p)| + |InOrder(t.left)|)
    {
      FlatPlug(p, t);
      assert allocated(Nodes(src));
      done, x, y, stack, p, q, t, d, pool := CopyNode(h, h', f, x, y, stack, src, p, q, t, d, pool);
    }
  }

  /** Lines 783-813, the first time round: the left spine below the pseudo-root. */
  method FirstSpine(h: Node, h': Node, f: Item -> Item, ghost src: Tree)
    returns (x: Node, y: Node, stack: seq<Node>, ghost p: Path, ghost q: Path, ghost t: Tree, ghost pool: set<Node>)
    requires Zip(h, Top, src) && src.T? && Height(src) < RB_MAX_HEIGHT && h' !in Nodes(src) && h' != h
    modifies h'
    ensures Midway(h, h', f, src, x, y, stack, p, q, t, Leaf, pool) && fresh(pool)
    ensures Zip(h, Top, src)
  {
    assert allocated(Nodes(src));
    var z := new Node(Item(0, 0));
    h'.link0 := z;
    x, y, stack, p, q, t, pool := LeftSpine(h, h', h.link0, z, [h, h'], f, Top, Top, src, {z});
  }

  /** Lines 783-856. */
  method CopyTree(h: Node, h': Node, f: Item -> Item, ghost src: Tree) returns (ghost d: Tree)
    requires Zip(h, Top, src) && src.T? && Height(src) < RB_MAX_HEIGHT && h' !in Nodes(src) && h' != h
    modifies h'
    ensures Filled(h', Top, d) && CopyOf(src, d, f) && fresh(Nodes(d)) && Zip(h, Top, src)
  {
    assert allocated(Nodes(src));
    var x, y, stack, p, q, t, pool := FirstSpine(h, h', f, src);
    label Spine:
    d := CopyRest(h, h', f, x, y, stack, src, p, q, t, pool);
    forall n | n in Nodes(d) ensures fresh(n)
    {
      if n !in pool {
        assert n in Nodes(d) - pool;
        assert fresh@Spine(n);
      }
    }
  }

  // ---------- What the copy inherits ----------

  lemma {:induction false} CopyColored(s: Tree, d: Tree, f: Item -> Item)
    requires CopyOf(s, d, f)
    ensures BH(d) == BH(s) && (Colored(s) <==> Colored(d))
  {
    if s.T? {
      CopyColored(s.left, d.left, f);
      CopyColored(s.right, d.right, f);
    }
  }

  lemma {:induction false} CopyItems(s: Tree, d: Tree, f: Item -> Item)
    requires CopyOf(s, d, f)
    ensures |InOrder(d)| == |InOrder(s)|
    ensures forall i :: 0 <= i < |InOrder(s)| ==> InOrder(d)[i].item == f(InOrder(s)[i].item)
  {
    if s.T? {
      CopyItems(s.left, d.left, f);
      CopyItems(s.right, d.right, f);
    }
  }

  /** The mapped items are in order and non-null. */
  ghost predicate KeepsOrder(es: seq<Entry>, f: Item -> Item)
  {
    && (forall i, j :: 0 <= i < j < |es| ==> f(es[i].item).key < f(es[j].item).key)
    && (forall i :: 0 <= i < |es| ==> f(es[i].item).handle != 0)
  }

  /** rb_copy, when memory lasts and the copy callback f succeeds. */
  method CopyTable(org: Table, f: Item -> Item) returns (new_: Table)
    requires org.Valid() && org.count <= MAX_ITEMS && KeepsOrder(org.Entries(), f)
    ensures new_.Valid() && fresh(new_) && fresh(new_.header) && fresh(Nodes(new_.tree))
    ensures CopyOf(org.tree, new_.tree, f) && new_.count == org.count && new_.generation == 0
  {
    assert allocated(Nodes(org.tree));
    new_ := new Table();
    if org.count == 0 {
      return;
    }
    StackFits(org.tree);
    ghost var d := CopyTree(org.header, new_.header, f, org.tree);
    CopyColored(org.tree, d, f);
    CopyItems(org.tree, d, f);
    new_.count := org.count;
    new_.Retell(d);
  }
}

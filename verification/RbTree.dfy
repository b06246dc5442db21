/** Red-black trees as values: the shape that a linked tree of nodes has in memory, the path
    (zipper) that an ancestor stack denotes, and the order, colour and black-height laws of both. */
module RbTree {
  import opened Seqs

  datatype Color = Black | Red

  /** A data pointer together with the rank its referent has under the table's comparison function;
      `handle` 0 is the null pointer. */
  datatype Item = Item(key: int, handle: int)

  class Node {
    var link0: Node?
    var link1: Node?
    var data: Item
    var color: Color

    constructor (item: Item)
      ensures link0 == null && link1 == null && data == item && color == Red
    {
      link0, link1, data, color := null, null, item, Red;
    }

    /** rb_link[d], with direction 0 as false and direction 1 as true. */
    function Link(d: bool): Node?
      reads this
    {
      if d then link1 else link0
    }
  }

  // ---------- Shapes ----------

  datatype Tree = Leaf | T(n: Node, color: Color, item: Item, left: Tree, right: Tree)

  /** The tree with root n whose child in direction d is a and whose other child is b. */
  ghost function Mk(n: Node, c: Color, x: Item, d: bool, a: Tree, b: Tree): Tree
  {
    if d then T(n, c, x, b, a) else T(n, c, x, a, b)
  }

  ghost function Kid(t: Tree, d: bool): Tree
    requires t.T?
  {
    if d then t.right else t.left
  }

  ghost function Ref(t: Tree): Node?
  {
    if t.Leaf? then null else t.n
  }

  ghost predicate IsRed(t: Tree) { t.T? && t.color == Red }

  ghost function Nodes(t: Tree): set<Node>
  {
    if t.Leaf? then {} else {t.n} + Nodes(t.left) + Nodes(t.right)
  }

  /** No node occurs twice. */
  ghost predicate Distinct(t: Tree)
  {
    t.T? ==>
      && t.n !in Nodes(t.left) && t.n !in Nodes(t.right) && Nodes(t.left) !! Nodes(t.right)
      && Distinct(t.left) && Distinct(t.right)
  }

  /** The fields of every node in memory are the ones the shape shows. */
  ghost predicate Matches(t: Tree)
    reads Nodes(t)
  {
    t.T? ==>
      && t.n.color == t.color && t.n.data == t.item
      && t.n.link0 == Ref(t.left) && t.n.link1 == Ref(t.right)
      && Matches(t.left) && Matches(t.right)
  }

  datatype Entry = Entry(n: Node, item: Item)

  ghost function InOrder(t: Tree): seq<Entry>
  {
    if t.Leaf? then [] else InOrder(t.left) + [Entry(t.n, t.item)] + InOrder(t.right)
  }

  // ---------- Paths: an ancestor stack read from the bottom up ----------

  /** Top stands for the table's root slot. Step(up, n, c, x, d, sib): the hole is the child d of n,
      whose other child is sib, and n itself fills the hole of up. */
  datatype Path = Top | Step(up: Path, n: Node, color: Color, item: Item, d: bool, sib: Tree)

  ghost function Plug(p: Path, t: Tree): Tree
  {
    if p.Top? then t else Plug(p.up, Mk(p.n, p.color, p.item, p.d, t, p.sib))
  }

  ghost function Depth(p: Path): nat
  {
    if p.Top? then 0 else Depth(p.up) + 1
  }

  ghost function PathNodes(p: Path): set<Node>
  {
    if p.Top? then {} else {p.n} + Nodes(p.sib) + PathNodes(p.up)
  }

  ghost predicate PathDistinct(p: Path)
  {
    p.Step? ==>
      && p.n !in Nodes(p.sib) && p.n !in PathNodes(p.up) && Nodes(p.sib) !! PathNodes(p.up)
      && Distinct(p.sib) && PathDistinct(p.up)
  }

  /** Memory agrees with the path when `hole` fills its hole; h is the header holding the root slot. */
  ghost predicate PathMatches(h: Node, p: Path, hole: Node?)
    reads {h} + PathNodes(p)
  {
    if p.Top? then h.link0 == hole
    else
      && p.n.color == p.color && p.n.data == p.item
      && p.n.Link(p.d) == hole && p.n.Link(!p.d) == Ref(p.sib)
      && Matches(p.sib) && PathMatches(h, p.up, p.n)
  }

  /** a->rb_link[e] is the hole of p. */
  ghost predicate Slot(a: Node, e: bool, h: Node, p: Path)
  {
    if p.Top? then a == h && !e else a == p.n && e == p.d
  }

  /** Memory below header h is the tree Plug(p, t), without sharing. */
  ghost predicate Zip(h: Node, p: Path, t: Tree)
    reads {h} + PathNodes(p) + Nodes(t)
  {
    && h !in PathNodes(p) && h !in Nodes(t) && PathNodes(p) !! Nodes(t)
    && PathDistinct(p) && Distinct(t)
    && Matches(t) && PathMatches(h, p, Ref(t))
  }

  lemma {:induction false} ZipUp(h: Node, p: Path, t: Tree)
    requires p.Step?
    ensures Zip(h, p, t) <==> Zip(h, p.up, Mk(p.n, p.color, p.item, p.d, t, p.sib))
    ensures PathNodes(p) + Nodes(t) == PathNodes(p.up) + Nodes(Mk(p.n, p.color, p.item, p.d, t, p.sib))
  {
  }

  lemma {:induction false} ZipPlug(h: Node, p: Path, t: Tree)
    ensures Zip(h, p, t) <==> Zip(h, Top, Plug(p, t))
    ensures PathNodes(p) + Nodes(t) == Nodes(Plug(p, t))
    decreases p
  {
    if p.Step? {
      ZipUp(h, p, t);
      ZipPlug(h, p.up, Mk(p.n, p.color, p.item, p.d, t, p.sib));
    }
  }

  // ---------- In-order contents around a hole ----------

  ghost function Before(p: Path): seq<Entry>
  {
    if p.Top? then []
    else if p.d then Before(p.up) + InOrder(p.sib) + [Entry(p.n, p.item)]
    else Before(p.up)
  }

  ghost function After(p: Path): seq<Entry>
  {
    if p.Top? then []
    else if p.d then After(p.up)
    else [Entry(p.n, p.item)] + InOrder(p.sib) + After(p.up)
  }

  ghost function Flat(p: Path, t: Tree): seq<Entry>
  {
    Before(p) + InOrder(t) + After(p)
  }

  lemma FlatUp(p: Path, t: Tree)
    requires p.Step?
    ensures Flat(p, t) == Flat(p.up, Mk(p.n, p.color, p.item, p.d, t, p.sib))
  {
    var e := [Entry(p.n, p.item)];
    if p.d {
      assert Before(p) + InOrder(t) + After(p) == Before(p.up) + (InOrder(p.sib) + e + InOrder(t)) + After(p.up);
    } else {
      assert Before(p) + InOrder(t) + After(p) == Before(p.up) + (InOrder(t) + e + InOrder(p.sib)) + After(p.up);
    }
  }

  lemma {:induction false} FlatPlug(p: Path, t: Tree)
    ensures InOrder(Plug(p, t)) == Flat(p, t)
    decreases p
  {
    if p.Step? {
      FlatUp(p, t);
      FlatPlug(p.up, Mk(p.n, p.color, p.item, p.d, t, p.sib));
    } else {
      assert Flat(p, t) == InOrder(t);
    }
  }

  // ---------- Colour and balance ----------

  /** Number of black nodes on the leftmost way down; on every way down when Colored(t). */
  ghost function BH(t: Tree): nat
  {
    if t.Leaf? then 0 else BH(t.left) + if t.color == Black then 1 else 0
  }

  /** No red node has a red child and all ways down have the same number of black nodes. */
  ghost predicate Colored(t: Tree)
  {
    t.T? ==>
      && Colored(t.left) && Colored(t.right) && BH(t.left) == BH(t.right)
      && (t.color == Red ==> !IsRed(t.left) && !IsRed(t.right))
  }

  /** Whatever fills the hole of p has to have a black root. */
  ghost predicate NeedsBlack(p: Path) { p.Top? || p.color == Red }

  /** p completes every black-rooted coloured tree of black height b to a red-black tree. */
  ghost predicate PathColored(p: Path, b: nat)
  {
    p.Step? ==>
      && Colored(p.sib) && BH(p.sib) == b
      && (p.color == Red ==> !IsRed(p.sib) && !NeedsBlack(p.up))
      && PathColored(p.up, b + if p.color == Black then 1 else 0)
  }

  ghost predicate RedBlack(p: Path, t: Tree)
  {
    Colored(t) && PathColored(p, BH(t)) && (NeedsBlack(p) ==> !IsRed(t))
  }

  lemma RedBlackUp(p: Path, t: Tree)
    requires p.Step?
    ensures RedBlack(p, t) <==> RedBlack(p.up, Mk(p.n, p.color, p.item, p.d, t, p.sib))
  {
  }

  lemma {:induction false} RedBlackPlug(p: Path, t: Tree)
    ensures RedBlack(p, t) <==> RedBlack(Top, Plug(p, t))
    decreases p
  {
    if p.Step? {
      RedBlackUp(p, t);
      RedBlackPlug(p.up, Mk(p.n, p.color, p.item, p.d, t, p.sib));
    }
  }

  // ---------- The two edits that rebalancing is made of ----------

  ghost function Painted(t: Tree, c: Color): Tree
  {
    if t.Leaf? then t else T(t.n, c, t.item, t.left, t.right)
  }

  /** The child in direction d moves up to the root and takes the root as its other child. */
  ghost function Rotated(t: Tree, d: bool): Tree
    requires t.T? && Kid(t, d).T?
  {
    var l := Kid(t, d);
    Mk(l.n, l.color, l.item, d, Kid(l, d), Mk(t.n, t.color, t.item, d, Kid(l, !d), Kid(t, !d)))
  }

  lemma {:induction false} PaintedKeeps(t: Tree, c: Color)
    ensures InOrder(Painted(t, c)) == InOrder(t) && Nodes(Painted(t, c)) == Nodes(t)
  {
  }

  lemma {:induction false} RotatedKeeps(t: Tree, d: bool)
    requires t.T? && Kid(t, d).T?
    ensures InOrder(Rotated(t, d)) == InOrder(t) && Nodes(Rotated(t, d)) == Nodes(t)
  {
    var l := Kid(t, d);
    var m := Mk(t.n, t.color, t.item, d, Kid(l, !d), Kid(t, !d));
    var a, b, c := InOrder(Kid(l, d)), InOrder(Kid(l, !d)), InOrder(Kid(t, !d));
    var x, y := [Entry(l.n, l.item)], [Entry(t.n, t.item)];
    if d {
      Regroup(c + y, b + x, a);
      Regroup(c + y, b, x);
      assert InOrder(l) == (b + x) + a && InOrder(m) == (c + y) + b;
      assert InOrder(t) == (c + y) + ((b + x) + a) && InOrder(Rotated(t, d)) == (((c + y) + b) + x) + a;
    } else {
      Regroup(a + x, b + y, c);
      Regroup(a + x, b, y);
      assert InOrder(l) == (a + x) + b && InOrder(m) == (b + y) + c;
      assert InOrder(t) == (((a + x) + b) + y) + c && InOrder(Rotated(t, d)) == (a + x) + ((b + y) + c);
    }
  }

  /** n->rb_color = c */
  method Paint(n: Node, c: Color, ghost h: Node, ghost p: Path, ghost t: Tree)
    requires Zip(h, p, t) && t.T? && t.n == n
    modifies n
    ensures Zip(h, p, Painted(t, c))
  {
    n.color := c;
  }

  lemma {:induction false} RotatedDistinct(t: Tree, d: bool)
    requires t.T? && Kid(t, d).T? && Distinct(t)
    ensures Distinct(Rotated(t, d))
  {
    var l := Kid(t, d);
    assert Distinct(l);
    assert Distinct(Mk(t.n, t.color, t.item, d, Kid(l, !d), Kid(t, !d)));
  }

  /** top->rb_link[d] = low->rb_link[!d]; low->rb_link[!d] = top */
  method Swing(top: Node, low: Node, d: bool, ghost t: Tree)
    requires Distinct(t) && Matches(t) && t.T? && t.n == top && Kid(t, d).T? && Kid(t, d).n == low
    modifies top, low
    ensures Matches(Rotated(t, d))
  {
    ghost var l := Kid(t, d);
    assert Matches(l) && Distinct(l);
    if d { top.link1 := low.link0; low.link0 := top; } else { top.link0 := low.link1; low.link1 := top; }
    assert Matches(Mk(top, t.color, t.item, d, Kid(l, !d), Kid(t, !d)));
  }

  /** a->rb_link[e] = v, where a and e are the top of the stack that holds p. */
  method Relink(a: Node, e: bool, v: Node?, ghost h: Node, ghost p: Path, ghost hole: Node?)
    requires PathMatches(h, p, hole) && PathDistinct(p) && h !in PathNodes(p)
    requires Slot(a, e, h, p)
    modifies a
    ensures PathMatches(h, p, v)
  {
    if e { a.link1 := v; } else { a.link0 := v; }
  }

  /** A rotation as rb.c writes it: the two links below, then the slot above. */
  method Rotate(a: Node, e: bool, top: Node, low: Node, d: bool, ghost h: Node, ghost p: Path, ghost t: Tree)
    requires Zip(h, p, t) && t.T? && t.n == top && Kid(t, d).T? && Kid(t, d).n == low
    requires Slot(a, e, h, p)
    modifies a, top, low
    ensures Zip(h, p, Rotated(t, d))
  {
    RotatedKeeps(t, d);
    RotatedDistinct(t, d);
    assert allocated(PathNodes(p)) && allocated(Nodes(Rotated(t, d)));
    Swing(top, low, d, t);
    assert PathMatches(h, p, top);
    Relink(a, e, low, h, p, top);
  }
}

/** Search order along a path, and the height bound that keeps the fixed-size stacks large enough. */
module RbOrder {
  import opened RbTree

  ghost predicate Sorted(es: seq<Entry>)
  {
    forall i, j :: 0 <= i < j < |es| ==> es[i].item.key < es[j].item.key
  }

  ghost predicate AllBelow(es: seq<Entry>, key: int)
  {
    forall i :: 0 <= i < |es| ==> es[i].item.key < key
  }

  ghost predicate AllAbove(es: seq<Entry>, key: int)
  {
    forall i :: 0 <= i < |es| ==> es[i].item.key > key
  }

  ghost predicate HasKey(es: seq<Entry>, key: int)
  {
    exists i :: 0 <= i < |es| && es[i].item.key == key
  }

  /** Everything outside the hole of p is on the right side of key. */
  ghost predicate Around(p: Path, key: int)
  {
    AllBelow(Before(p), key) && AllAbove(After(p), key)
  }

  /** The path one step further down. */
  ghost function Down(p: Path, t: Tree, d: bool): Path
    requires t.T?
  {
    Step(p, t.n, t.color, t.item, d, Kid(t, !d))
  }

  lemma {:induction false} DownZip(h: Node, p: Path, t: Tree, d: bool)
    requires t.T?
    ensures Zip(h, p, t) <==> Zip(h, Down(p, t, d), Kid(t, d))
    ensures Plug(p, t) == Plug(Down(p, t, d), Kid(t, d))
  {
    ZipUp(h, Down(p, t, d), Kid(t, d));
  }

  lemma {:induction false} DownKeeps(h: Node, p: Path, t: Tree, d: bool)
    requires t.T?
    ensures Zip(h, p, t) <==> Zip(h, Down(p, t, d), Kid(t, d))
    ensures RedBlack(p, t) <==> RedBlack(Down(p, t, d), Kid(t, d))
    ensures Flat(p, t) == Flat(Down(p, t, d), Kid(t, d))
    ensures Plug(p, t) == Plug(Down(p, t, d), Kid(t, d))
    ensures PathNodes(p) + Nodes(t) == PathNodes(Down(p, t, d)) + Nodes(Kid(t, d))
  {
    ZipUp(h, Down(p, t, d), Kid(t, d));
    RedBlackUp(Down(p, t, d), Kid(t, d));
    FlatUp(Down(p, t, d), Kid(t, d));
  }

  /** Comparing with the root of the remaining subtree tells which child to continue in. */
  lemma DownAround(p: Path, t: Tree, key: int)
    requires t.T? && Sorted(Flat(p, t)) && Around(p, key)
    ensures key < t.item.key ==> Around(Down(p, t, false), key)
    ensures key > t.item.key ==> Around(Down(p, t, true), key)
  {
    var b, l, e, r, a := Before(p), InOrder(t.left), Entry(t.n, t.item), InOrder(t.right), After(p);
    var f := Flat(p, t);
    assert f == b + (l + [e] + r) + a;
    var m := |b| + |l|;
    assert f[m] == e;
    if key < t.item.key {
      forall i | 0 <= i < |r| ensures r[i].item.key > key { assert f[m + 1 + i] == r[i]; }
    } else if key > t.item.key {
      forall i | 0 <= i < |l| ensures l[i].item.key < key { assert f[|b| + i] == l[i]; }
    }
  }

  lemma SortedJoin(b: seq<Entry>, e: Entry, a: seq<Entry>)
    requires Sorted(b + a) && AllBelow(b, e.item.key) && AllAbove(a, e.item.key)
    ensures Sorted(b + [e] + a)
  {
    var f, g := b + a, b + [e] + a;
    forall i, j | 0 <= i < j < |g| ensures g[i].item.key < g[j].item.key {
      if i != |b| && j != |b| {
        assert g[i] == f[if i < |b| then i else i - 1] && g[j] == f[if j < |b| then j else j - 1];
      }
    }
  }

  /** At an empty hole the key is nowhere, and an entry with it fits exactly there. */
  lemma {:induction false} HoleFits(p: Path, e: Entry)
    requires Sorted(Flat(p, Leaf)) && Around(p, e.item.key)
    ensures Flat(p, Leaf) == Before(p) + After(p) && !HasKey(Flat(p, Leaf), e.item.key)
    ensures Sorted(Before(p) + [e] + After(p))
  {
    assert Before(p) + [] + After(p) == Before(p) + After(p);
    SortedJoin(Before(p), e, After(p));
  }

  // ---------- Ancestors ----------

  /** The nodes above n, root first. */
  ghost function Ancestors(t: Tree, n: Node): seq<Node?>
  {
    if t.Leaf? || t.n == n then []
    else [t.n] + Ancestors(if n in Nodes(t.left) then t.left else t.right, n)
  }

  ghost function PathSeq(p: Path): seq<Node?>
  {
    if p.Top? then [] else PathSeq(p.up) + [p.n]
  }

  lemma {:induction false} AncestorsOfHole(h: Node, p: Path, t: Tree, n: Node)
    requires Zip(h, p, t) && n in Nodes(t)
    ensures Ancestors(Plug(p, t), n) == PathSeq(p) + Ancestors(t, n)
    decreases p
  {
    if p.Step? {
      ZipUp(h, p, t);
      AncestorsOfHole(h, p.up, Mk(p.n, p.color, p.item, p.d, t, p.sib), n);
    }
  }

  lemma {:induction false} Locate(h: Node, p: Path, t: Tree, n: Node) returns (p': Path, t': Tree)
    requires Zip(h, p, t) && n in Nodes(t)
    ensures Zip(h, p', t') && Plug(p', t') == Plug(p, t) && t'.T? && t'.n == n
    ensures PathSeq(p') == PathSeq(p) + Ancestors(t, n)
    decreases t
  {
    p', t' := p, t;
    if t.n != n {
      var d := n !in Nodes(t.left);
      DownZip(h, p, t, d);
      p', t' := Locate(h, Down(p, t, d), Kid(t, d), n);
    }
  }

  /** The two trees differ in their items only. */
  ghost predicate SameLinks(s: Tree, t: Tree)
  {
    && s.T? == t.T?
    && (s.T? ==> s.n == t.n && s.color == t.color && SameLinks(s.left, t.left) && SameLinks(s.right, t.right))
  }

  lemma {:induction false} SameAncestors(s: Tree, t: Tree, n: Node)
    requires SameLinks(s, t)
    ensures Nodes(s) == Nodes(t) && Ancestors(s, n) == Ancestors(t, n)
  {
    if s.T? {
      SameAncestors(s.left, t.left, n);
      SameAncestors(s.right, t.right, n);
    }
  }

  // ---------- Height ----------

  ghost function Height(t: Tree): nat
  {
    if t.Leaf? then 0
    else 1 + if Height(t.left) >= Height(t.right) then Height(t.left) else Height(t.right)
  }

  ghost function Pow2(n: nat): (r: nat)
    ensures r >= 1
  {
    if n == 0 then 1 else 2 * Pow2(n - 1)
  }

  lemma {:induction false} Pow2Add(a: nat, b: nat)
    ensures Pow2(a + b) == Pow2(a) * Pow2(b)
  {
    if a > 0 {
      Pow2Add(a - 1, b);
      assert Pow2(a) * Pow2(b) == 2 * (Pow2(a - 1) * Pow2(b));
    }
  }

  lemma {:induction false} Pow2Mono(a: nat, b: nat)
    requires a <= b
    ensures Pow2(a) <= Pow2(b)
  {
    if a < b { Pow2Mono(a, b - 1); }
  }

  lemma {:induction false} BlackHeightBounds(t: Tree)
    requires Colored(t)
    ensures Height(t) <= 2 * BH(t) + (if IsRed(t) then 1 else 0)
    ensures Pow2(BH(t)) <= |InOrder(t)| + 1
  {
    if t.T? {
      BlackHeightBounds(t.left);
      BlackHeightBounds(t.right);
      Pow2Mono(BH(t.left), BH(t.left) + 1);
    }
  }

  lemma SquareMono(a: nat, b: nat)
    requires a <= b
    ensures a * a <= b * b
  {
    assert a * a <= a * b <= b * b;
  }

  /** A red-black tree of n items is at most 2*log2(n + 1) high. */
  lemma {:induction false} HeightBound(t: Tree)
    requires RedBlack(Top, t)
    ensures Pow2(Height(t)) <= (|InOrder(t)| + 1) * (|InOrder(t)| + 1)
  {
    BlackHeightBounds(t);
    Pow2Mono(Height(t), BH(t) + BH(t));
    Pow2Add(BH(t), BH(t));
    SquareMono(Pow2(BH(t)), |InOrder(t)| + 1);
  }

  lemma Pow2At48()
    ensures Pow2(48) == 0x1_0000_0000_0000
  {
    assert Pow2(3) == 8;
    Pow2Add(3, 3);
    Pow2Add(6, 6);
    Pow2Add(12, 12);
    Pow2Add(24, 24);
  }

  const RB_MAX_HEIGHT: nat := 48
  const MAX_ITEMS: nat := 0xFF_FFFE

  /** Below 2^24 - 1 items every way down has fewer than RB_MAX_HEIGHT nodes. */
  lemma {:induction false} StackFits(t: Tree)
    requires RedBlack(Top, t) && |InOrder(t)| <= MAX_ITEMS
    ensures Height(t) < RB_MAX_HEIGHT
  {
    HeightBound(t);
    SquareMono(|InOrder(t)| + 1, 0xFF_FFFF);
    Pow2At48();
    if Height(t) >= 48 { Pow2Mono(48, Height(t)); }
  }

  lemma {:induction false} DepthHeight(p: Path, t: Tree)
    ensures Depth(p) + Height(t) <= Height(Plug(p, t))
    decreases p
  {
    if p.Step? { DepthHeight(p.up, Mk(p.n, p.color, p.item, p.d, t, p.sib)); }
  }
}

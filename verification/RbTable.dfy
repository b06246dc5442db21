/** struct rb_table and its operations: find, probe, insert, replace and delete. */
module RbTable {
  import opened Options
  import opened RbTree
  import opened RbInsert
  import opened RbDelete
  import opened RbSplice
  import opened RbOrder

  /** One more than the largest unsigned long. */
  const ULONG_RANGE: nat := 0x1_0000_0000_0000_0000

  ghost predicate NonNull(es: seq<Entry>)
  {
    forall i :: 0 <= i < |es| ==> es[i].item.handle != 0
  }

  /** new is old with e inserted at some position. */
  ghost predicate Inserted(old_: seq<Entry>, e: Entry, new_: seq<Entry>)
  {
    exists i :: 0 <= i <= |old_| && new_ == old_[..i] + [e] + old_[i..]
  }

  /** new is old with the entry at position i taken out. */
  ghost function RemovedAt(es: seq<Entry>, i: nat): seq<Entry>
    requires i < |es|
  {
    es[..i] + es[i + 1..]
  }

  // ---------- Small facts that connect the shape with memory ----------

  /** Hangs the fresh node n into the empty hole of p. */
  method Attach(a: Node, e: bool, n: Node, ghost h: Node, ghost p: Path)
    requires Slot(a, e, h, p) && Zip(h, p, Leaf)
    requires n !in PathNodes(p) && n != h && n.link0 == null && n.link1 == null
    modifies a
    ensures Zip(h, p, T(n, n.color, n.data, Leaf, Leaf)) && n.color == old(n.color) && n.data == old(n.data)
  {
    if e { a.link1 := n; } else { a.link0 := n; }
  }

  /** n->rb_data = x */
  method Overwrite(n: Node, x: Item, ghost h: Node, ghost p: Path, ghost t: Tree)
    requires Zip(h, p, t) && t.T? && t.n == n
    modifies n
    ensures Zip(h, p, T(t.n, t.color, x, t.left, t.right)) && n.data == x
  {
    n.data := x;
  }

  lemma {:induction false} SamePlug(p: Path, s: Tree, t: Tree)
    requires SameLinks(s, t)
    ensures SameLinks(Plug(p, s), Plug(p, t))
    decreases p
  {
    if p.Step? {
      SameItself(p.sib);
      SamePlug(p.up, Mk(p.n, p.color, p.item, p.d, s, p.sib), Mk(p.n, p.color, p.item, p.d, t, p.sib));
    }
  }

  lemma {:induction false} SameItself(t: Tree)
    ensures SameLinks(t, t)
  {
    if t.T? {
      SameItself(t.left);
      SameItself(t.right);
    }
  }

  lemma OverwriteLaw(p: Path, t: Tree, x: Item) returns (i: nat)
    requires t.T?
    ensures var r := Plug(p, T(t.n, t.color, x, t.left, t.right));
      && SameLinks(Plug(p, t), r) && (RedBlack(Top, Plug(p, t)) ==> RedBlack(Top, r))
      && i < |InOrder(Plug(p, t))| && InOrder(Plug(p, t))[i] == Entry(t.n, t.item)
      && InOrder(r) == InOrder(Plug(p, t))[i := Entry(t.n, x)]
  {
    var t' := T(t.n, t.color, x, t.left, t.right);
    i := |Before(p)| + |InOrder(t.left)|;
    FlatPlug(p, t);
    FlatPlug(p, t');
    FlatHere(p, t);
    FlatOverwritten(p, t, x);
    RedBlackPlug(p, t);
    RedBlackPlug(p, t');
    SameItself(t.left);
    SameItself(t.right);
    SamePlug(p, t, t');
  }

  lemma {:induction false} FlatOverwritten(p: Path, t: Tree, x: Item)
    requires t.T?
    ensures var i := |Before(p)| + |InOrder(t.left)|;
      i < |Flat(p, t)| && Flat(p, T(t.n, t.color, x, t.left, t.right)) == Flat(p, t)[i := Entry(t.n, x)]
  {
    FlatHere(p, t);
  }

  lemma {:induction false} EntriesMatch(t: Tree)
    requires Matches(t)
    ensures forall i :: 0 <= i < |InOrder(t)| ==>
      InOrder(t)[i].n in Nodes(t) && InOrder(t)[i].n.data == InOrder(t)[i].item
    ensures forall n :: n in Nodes(t) ==> Entry(n, n.data) in InOrder(t)
  {
    if t.T? {
      EntriesMatch(t.left);
      EntriesMatch(t.right);
      var l, r, e := InOrder(t.left), InOrder(t.right), Entry(t.n, t.item);
      assert InOrder(t) == l + [e] + r;
      assert e in InOrder(t);
    }
  }

  lemma SortedRemoved(es: seq<Entry>, i: nat)
    requires i < |es| && Sorted(es)
    ensures Sorted(RemovedAt(es, i)) && !HasKey(RemovedAt(es, i), es[i].item.key)
    ensures NonNull(es) ==> NonNull(RemovedAt(es, i))
  {
    var r := RemovedAt(es, i);
    assert forall j :: 0 <= j < |r| ==> r[j] == es[if j < i then j else j + 1];
  }

  lemma {:induction false} FlatHere(p: Path, t: Tree)
    requires t.T?
    ensures |Before(p)| + |InOrder(t.left)| < |Flat(p, t)|
    ensures Flat(p, t)[|Before(p)| + |InOrder(t.left)|] == Entry(t.n, t.item)
  {
  }

  lemma RemovedMiddle(b: seq<Entry>, l: seq<Entry>, e: Entry, r: seq<Entry>, a: seq<Entry>)
    ensures var f := b + (l + [e] + r) + a;
      |b| + |l| < |f| && RemovedAt(f, |b| + |l|) == b + l + r + a
  {
    var f, i := b + (l + [e] + r) + a, |b| + |l|;
    assert f == (b + l) + [e] + (r + a);
    assert f[..i] == b + l;
    assert f[i + 1..] == r + a;
  }

  lemma {:induction false} FlatRemoved(p: Path, t: Tree)
    requires t.T?
    ensures |Before(p)| + |InOrder(t.left)| < |Flat(p, t)|
    ensures RemovedAt(Flat(p, t), |Before(p)| + |InOrder(t.left)|) == FlatWithout(p, t)
  {
    RemovedMiddle(Before(p), InOrder(t.left), Entry(t.n, t.item), InOrder(t.right), After(p));
  }

  /** What is left of a table's entries without the one at the root of t. */
  lemma TakeOut(es: seq<Entry>, p: Path, t: Tree) returns (i: nat, rest: seq<Entry>)
    requires t.T? && Flat(p, t) == es && Sorted(es) && NonNull(es)
    ensures i < |es| && es[i] == Entry(t.n, t.item) && rest == RemovedAt(es, i) == FlatWithout(p, t)
    ensures Sorted(rest) && NonNull(rest) && |es| == |rest| + 1
  {
    i := |Before(p)| + |InOrder(t.left)|;
    rest := RemovedAt(es, i);
    FlatHere(p, t);
    FlatRemoved(p, t);
    SortedRemoved(es, i);
  }

  lemma NextGeneration(c: nat)
    ensures (c % ULONG_RANGE + 1) % ULONG_RANGE == (c + 1) % ULONG_RANGE
  {
  }

  lemma NonNullJoin(b: seq<Entry>, e: Entry, a: seq<Entry>)
    requires NonNull(b + a) && e.item.handle != 0
    ensures NonNull(b + [e] + a)
  {
    var f, g := b + a, b + [e] + a;
    assert forall i :: 0 <= i < |g| && i != |b| ==> g[i] == f[if i < |b| then i else i - 1];
  }

  // ---------- The table as a finite map from keys to items ----------

  ghost predicate Agrees(es: seq<Entry>, m: map<int, Item>)
  {
    && (forall k :: k in m <==> HasKey(es, k))
    && (forall i :: 0 <= i < |es| ==> es[i].item.key in m && m[es[i].item.key] == es[i].item)
  }

  /** es' holds the entries of es and e, in whatever order. */
  lemma KeysInserted(es: seq<Entry>, e: Entry, es': seq<Entry>)
    requires Inserted(es, e, es')
    ensures forall k :: HasKey(es', k) <==> k == e.item.key || HasKey(es, k)
    ensures forall j :: 0 <= j < |es'| ==> es'[j] == e || es'[j] in es
    ensures |es'| == |es| + 1 && forall x :: x in es ==> x in es'
  {
    var i :| 0 <= i <= |es| && es' == es[..i] + [e] + es[i..];
    assert es'[i] == e;
    forall j | 0 <= j < |es'| ensures es'[j] == e || es'[j] in es
    {
      if j != i { assert es'[j] == es[if j < i then j else j - 1]; }
    }
    forall j | 0 <= j < |es| ensures es[j] in es' && HasKey(es', es[j].item.key)
    {
      assert es'[if j < i then j else j + 1] == es[j];
    }
  }

  lemma AgreesInserted(es: seq<Entry>, e: Entry, es': seq<Entry>, m: map<int, Item>)
    requires Agrees(es, m) && Inserted(es, e, es') && !HasKey(es, e.item.key)
    ensures Agrees(es', m[e.item.key := e.item])
  {
    KeysInserted(es, e, es');
  }

  lemma AgreesRemoved(es: seq<Entry>, i: nat, m: map<int, Item>)
    requires Agrees(es, m) && i < |es| && Sorted(es)
    ensures Agrees(RemovedAt(es, i), m - {es[i].item.key})
  {
    var r := RemovedAt(es, i);
    forall j | 0 <= j < |r| ensures r[j].item.key != es[i].item.key && r[j] in es
    {
      assert r[j] == es[if j < i then j else j + 1];
    }
    forall j | 0 <= j < |es| && j != i ensures HasKey(r, es[j].item.key)
    {
      assert es[j] == r[if j < i then j else j - 1];
    }
  }

  lemma RemovedStays(es: seq<Entry>, i: nat)
    requires i < |es| && Sorted(es)
    ensures forall e :: e in es && e.item.key != es[i].item.key ==> e in RemovedAt(es, i)
  {
    var r := RemovedAt(es, i);
    forall j | 0 <= j < |es| && j != i ensures es[j] in r
    {
      assert r[if j < i then j else j - 1] == es[j];
    }
  }

  lemma AgreesReplaced(es: seq<Entry>, i: nat, e: Entry, m: map<int, Item>)
    requires Agrees(es, m) && i < |es| && Sorted(es) && e.item.key == es[i].item.key
    ensures Agrees(es[i := e], m[e.item.key := e.item])
  {
    var r := es[i := e];
    assert forall j :: 0 <= j < |es| ==> r[j].item.key == es[j].item.key;
  }

  lemma SortedReplaced(es: seq<Entry>, i: nat, e: Entry)
    requires i < |es| && Sorted(es) && e.item.key == es[i].item.key
    ensures Sorted(es[i := e])
  {
    assert forall j :: 0 <= j < |es| ==> es[i := e][j].item.key == es[j].item.key;
  }

  class Table {
    const header: Node
    var count: nat
    var generation: nat
    ghost var tree: Tree
    ghost var changes: nat

    ghost function Entries(): seq<Entry>
      reads this
    {
      InOrder(tree)
    }

    ghost predicate Valid()
      reads this, {header} + Nodes(tree)
    {
      && Zip(header, Top, tree)
      && RedBlack(Top, tree)
      && Sorted(InOrder(tree)) && NonNull(InOrder(tree))
      && count == |InOrder(tree)|
      && generation == changes % ULONG_RANGE
    }

    constructor ()
      ensures Valid() && fresh(header) && Entries() == [] && changes == 0
    {
      header := new Node(Item(0, 0));
      count, generation, tree, changes := 0, 0, Leaf, 0;
    }

    method Find(item: Item) returns (r: Option<Item>)
      requires Valid() && item.handle != 0
      ensures r.Some? <==> HasKey(Entries(), item.key)
      ensures r.Some? ==> r.value.key == item.key && exists i :: 0 <= i < |Entries()| && Entries()[i].item == r.value
    {
      ghost var p, t := Top, tree;
      var x := header.link0;
      assert Flat(Top, tree) == InOrder(tree);
      while x != null
        invariant x == Ref(t) && Zip(header, p, t)
        invariant Flat(p, t) == InOrder(tree) && Around(p, item.key)
        decreases t
      {
        DownAround(p, t, item.key);
        DownKeeps(header, p, t, false);
        DownKeeps(header, p, t, true);
        if item.key < x.data.key {
          x, p, t := x.link0, Down(p, t, false), t.left;
        } else if item.key > x.data.key {
          x, p, t := x.link1, Down(p, t, true), t.right;
        } else {
          FlatHere(p, t);
          return Some(x.data);
        }
      }
      HoleFits(p, Entry(header, item));
      return None;
    }

    /** A descent has come to the subtree t, with the way to it on the stack. */
    ghost predicate OnWay(pa: seq<Node>, da: seq<bool>, k: nat, p: Path, t: Tree)
      reads this, {header} + PathNodes(p) + Nodes(t)
    {
      && |pa| == |da| == RB_MAX_HEIGHT && OnStack(pa, da, k, header, p) && k + Height(t) <= RB_MAX_HEIGHT
      && Zip(header, p, t) && RedBlack(p, t) && Flat(p, t) == InOrder(tree) && PathNodes(p) + Nodes(t) == Nodes(tree)
    }

    lemma WayDown(pa: seq<Node>, da: seq<bool>, k: nat, p: Path, t: Tree, d: bool)
      requires OnWay(pa, da, k, p, t) && t.T?
      ensures OnWay(pa[k := t.n], da[k := d], k + 1, Down(p, t, d), Kid(t, d)) && t.n.Link(d) == Ref(Kid(t, d))
    {
      DownKeeps(header, p, t, d);
      StackPush(pa, da, k, header, p, t.n, d);
    }

    /** The descent of rb_probe (lines 100-111) and rb_delete (lines 244-257): the ancestors of the
        node that matches item, or of the empty place where it belongs, are on the stack. */
    method Descend(item: Item) returns (pa: seq<Node>, da: seq<bool>, k: nat, x: Node?, ghost p: Path, ghost t: Tree)
      requires Valid() && count <= MAX_ITEMS
      ensures |pa| == |da| == RB_MAX_HEIGHT && OnStack(pa, da, k, header, p) && k + Height(t) <= RB_MAX_HEIGHT
      ensures Zip(header, p, t) && RedBlack(p, t) && Flat(p, t) == InOrder(tree) && Around(p, item.key)
      ensures Valid() && PathNodes(p) + Nodes(t) == Nodes(tree)
      ensures x == Ref(t) && (x != null ==> x.data.key == item.key)
    {
      pa, da, k := seq(RB_MAX_HEIGHT, _ => header), seq(RB_MAX_HEIGHT, _ => false), 1;
      p, t := Top, tree;
      x := header.link0;
      assert Flat(Top, tree) == InOrder(tree);
      StackFits(tree);
      assert allocated(Nodes(tree));
      while x != null && item.key != x.data.key
        invariant OnWay(pa, da, k, p, t) && Around(p, item.key) && x == Ref(t)
        decreases t
      {
        var d := item.key > x.data.key;
        DownAround(p, t, item.key);
        WayDown(pa, da, k, p, t, d);
        pa, da, k := pa[k := x], da[k := d], k + 1;
        p, t := Down(p, t, d), Kid(t, d);
        x := x.Link(d);
      }
    }

    /** Lines 121-122 and 425-426: the item count and the generation number after a change. */
    method Commit(n: nat, ghost r: Tree)
      requires Zip(header, Top, r) && RedBlack(Top, r) && Sorted(InOrder(r)) && NonNull(InOrder(r))
      requires n == |InOrder(r)| && generation == changes % ULONG_RANGE
      modifies this
      ensures Valid() && tree == r && changes == old(changes) + 1
    {
      NextGeneration(changes);
      count, generation, changes, tree := n, (generation + 1) % ULONG_RANGE, changes + 1, r;
    }

    /** Lines 113-195: hangs a new node below the stack and rebalances. */
    method AddNode(item: Item, pa: seq<Node>, da: seq<bool>, k: nat, ghost p: Path) returns (n: Node)
      requires Valid() && item.handle != 0
      requires OnStack(pa, da, k, header, p) && Zip(header, p, Leaf) && RedBlack(p, Leaf)
      requires Flat(p, Leaf) == InOrder(tree) && Around(p, item.key) && PathNodes(p) == Nodes(tree)
      modifies this, {header} + Nodes(tree)
      ensures Valid() && fresh(n) && Nodes(tree) == old(Nodes(tree)) + {n}
      ensures Entries() == Before(p) + [Entry(n, item)] + After(p) && changes == old(changes) + 1
    {
      assert allocated(PathNodes(p));
      HoleFits(p, Entry(header, item));
      n := new Node(item);
      ghost var e := Entry(n, item);
      ghost var t1 := T(n, Red, item, Leaf, Leaf);
      assert InOrder(t1) == [e];
      HoleFits(p, e);
      NonNullJoin(Before(p), e, After(p));
      Attach(pa[k - 1], da[k - 1], n, header, p);
      ghost var r := FixInsert(header, pa, da, k, p, t1);
      Commit(count + 1, r);
    }

    /** rb_probe; `memory` says whether the allocator can deliver. The returned slot is the node that
        holds the matching item, or null when there was no memory for a new one. */
    method Probe(item: Item, memory: bool) returns (slot: Node?)
      requires Valid() && count <= MAX_ITEMS && item.handle != 0
      modifies this, {header} + Nodes(tree)
      ensures Valid()
      ensures HasKey(old(Entries()), item.key) ==>
        slot in Nodes(tree) && slot.data.key == item.key && tree == old(tree) && changes == old(changes)
      ensures !HasKey(old(Entries()), item.key) && !memory ==>
        slot == null && tree == old(tree) && changes == old(changes)
      ensures !HasKey(old(Entries()), item.key) && memory ==>
        && slot != null && fresh(slot) && Nodes(tree) == old(Nodes(tree)) + {slot}
        && Inserted(old(Entries()), Entry(slot, item), Entries()) && changes == old(changes) + 1
    {
      var pa, da, k, x, p, t := Descend(item);
      if x != null {
        FlatHere(p, t);
        return x;
      }
      HoleFits(p, Entry(header, item));
      if !memory {
        return null;
      }
      slot := AddNode(item, pa, da, k, p);
      ghost var es, i := old(Entries()), |Before(p)|;
      assert es[..i] == Before(p) && es[i..] == After(p);
    }

    /** rb_delete. */
    method Delete(item: Item) returns (r: Option<Item>)
      requires Valid() && count <= MAX_ITEMS && item.handle != 0
      modifies this, {header} + Nodes(tree)
      ensures Valid() && Nodes(tree) <= old(Nodes(tree))
      ensures !HasKey(old(Entries()), item.key) ==> r == None && tree == old(tree) && changes == old(changes)
      ensures HasKey(old(Entries()), item.key) ==>
        && r.Some? && r.value.key == item.key && changes == old(changes) + 1
        && (exists i :: 0 <= i < |old(Entries())| && old(Entries())[i].item == r.value
                        && Entries() == RemovedAt(old(Entries()), i))
    {
      var pa, da, k, x, p, t := Descend(item);
      if x == null {
        HoleFits(p, Entry(header, item));
        return None;
      }
      r := Some(x.data);
      ghost var i, es := TakeOut(Entries(), p, t);
      RemoveNode(x, pa, da, k, p, t, es);
    }

    /** Lines 307-426. */
    method FinishDelete(pa: seq<Node>, da: seq<bool>, k: nat, lost: Color, ghost p: Path, ghost t: Tree,
                        ghost es: seq<Entry>)
      requires OnStack(pa, da, k, header, p) && k < |pa| && k < |da| && Zip(header, p, t) && TakenOut(p, t, lost)
      requires es == Flat(p, t) && Sorted(es) && NonNull(es) && count == |es| + 1 && generation == changes % ULONG_RANGE
      modifies this, {header} + PathNodes(p) + Nodes(t)
      ensures Valid() && Entries() == es && Nodes(tree) == PathNodes(p) + Nodes(t) && changes == old(changes) + 1
    {
      ghost var r := FixAfterSplice(header, pa, da, k, lost, p, t);
      assert InOrder(r) == es;
      Commit(count - 1, r);
    }

    /** Lines 260-426. */
    method RemoveNode(z: Node, pa0: seq<Node>, da0: seq<bool>, k0: nat, ghost p: Path, ghost t: Tree,
                      ghost es: seq<Entry>)
      requires OnStack(pa0, da0, k0, header, p) && k0 + Height(t) <= |pa0| == |da0|
      requires Zip(header, p, t) && RedBlack(p, t) && t.T? && t.n == z
      requires es == FlatWithout(p, t) && Sorted(es) && NonNull(es)
      requires count == |es| + 1 && generation == changes % ULONG_RANGE
      modifies this, {header} + PathNodes(p) + Nodes(t)
      ensures Valid() && Nodes(tree) <= PathNodes(p) + Nodes(t) && changes == old(changes) + 1
      ensures Entries() == es
    {
      var pa, da, k, p', t' := Splice(header, pa0, da0, k0, z, p, t);
      FinishDelete(pa, da, k, z.color, p', t', es);
    }

    /** *slot = x, for a slot of this table. */
    method SetData(slot: Node, x: Item)
      requires Valid() && slot in Nodes(tree) && x.handle != 0
      requires forall i :: 0 <= i < |Entries()| && Entries()[i].n == slot ==> Sorted(Entries()[i := Entry(slot, x)])
      modifies this, slot
      ensures Valid() && SameLinks(old(tree), tree) && changes == old(changes)
      ensures exists i :: 0 <= i < |old(Entries())| && old(Entries())[i] == Entry(slot, old(slot.data))
                          && Entries() == old(Entries())[i := Entry(slot, x)]
    {
      ghost var p, t := Locate(header, Top, tree, slot);
      ghost var r := Plug(p, T(t.n, t.color, x, t.left, t.right));
      ghost var i := OverwriteLaw(p, t, x);
      ghost var es := Entries();
      assert es[i] == Entry(slot, slot.data) && InOrder(r) == es[i := Entry(slot, x)];
      assert Sorted(InOrder(r)) && NonNull(InOrder(r)) && |InOrder(r)| == count;
      Overwrite(slot, x, header, p, t);
      ZipPlug(header, p, T(t.n, t.color, x, t.left, t.right));
      Retell(r);
    }

    /** Nothing changes but the ghost view of the tree. */
    ghost method Retell(r: Tree)
      requires Zip(header, Top, r) && RedBlack(Top, r) && Sorted(InOrder(r)) && NonNull(InOrder(r))
      requires count == |InOrder(r)| && generation == changes % ULONG_RANGE
      modifies this`tree
      ensures Valid() && tree == r
    {
      tree := r;
    }

    /** rb_insert: reports the duplicate, unless it is the very same pointer. */
    method Insert(item: Item, memory: bool) returns (r: Option<Item>)
      requires Valid() && count <= MAX_ITEMS && item.handle != 0
      modifies this, {header} + Nodes(tree)
      ensures Valid()
      ensures HasKey(old(Entries()), item.key) || !memory ==> tree == old(tree) && changes == old(changes)
      ensures HasKey(old(Entries()), item.key) ==>
        exists i :: 0 <= i < |Entries()| && Entries()[i].item.key == item.key
                    && r == if Entries()[i].item == item then None else Some(Entries()[i].item)
      ensures !HasKey(old(Entries()), item.key) ==> r == None
      ensures !HasKey(old(Entries()), item.key) && memory ==>
        && changes == old(changes) + 1 && fresh(Nodes(tree) - old(Nodes(tree)))
        && (exists n :: Inserted(old(Entries()), Entry(n, item), Entries()))
    {
      var p := Probe(item, memory);
      SlotHolds(p, item);
      r := if p == null || p.data == item then None else Some(p.data);
    }

    /** What a slot delivered by Probe holds. */
    twostate lemma SlotHolds(new p: Node?, item: Item)
      requires Valid()
      ensures p in Nodes(tree) ==> exists i :: 0 <= i < |Entries()| && Entries()[i] == Entry(p, p.data)
      ensures p != null && Inserted(old(Entries()), Entry(p, item), Entries()) ==> p.data == item
    {
      EntriesMatch(tree);
      if p in Nodes(tree) { assert Entry(p, p.data) in Entries(); }
      if p != null && Inserted(old(Entries()), Entry(p, item), Entries()) {
        var es, es' := old(Entries()), Entries();
        var i :| 0 <= i <= |es| && es' == es[..i] + [Entry(p, item)] + es[i..];
        assert es'[i] == Entry(p, item);
      }
    }

    /** rb_replace: puts item in the place of its duplicate, which it returns. */
    method Replace(item: Item, memory: bool) returns (r: Option<Item>)
      requires Valid() && count <= MAX_ITEMS && item.handle != 0
      modifies this, {header} + Nodes(tree)
      ensures Valid()
      ensures HasKey(old(Entries()), item.key) ==> SameLinks(old(tree), tree) && changes == old(changes)
      ensures HasKey(old(Entries()), item.key) ==>
        exists i :: 0 <= i < |old(Entries())| && old(Entries())[i].item.key == item.key
                    && Entries() == old(Entries())[i := Entry(old(Entries())[i].n, item)]
                    && r == if old(Entries())[i].item == item then None else Some(old(Entries())[i].item)
      ensures !HasKey(old(Entries()), item.key) ==> r == None
      ensures !HasKey(old(Entries()), item.key) && !memory ==> tree == old(tree) && changes == old(changes)
      ensures !HasKey(old(Entries()), item.key) && memory ==>
        && changes == old(changes) + 1 && fresh(Nodes(tree) - old(Nodes(tree)))
        && (exists n :: Inserted(old(Entries()), Entry(n, item), Entries()))
    {
      ghost var es := Entries();
      var p := Probe(item, memory);
      SlotHolds(p, item);
      if p == null || p.data == item {
        r := None;
        SameItself(tree);
      } else {
        r := Some(p.data);
        EntriesMatch(tree);
        forall i | 0 <= i < |Entries()| && Entries()[i].n == p ensures Sorted(Entries()[i := Entry(p, item)])
        {
          SortedReplaced(Entries(), i, Entry(p, item));
        }
        SetData(p, item);
      }
    }
  }
}

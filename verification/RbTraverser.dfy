/** struct rb_traverser: in-order walks that survive changes to the table. */
module RbTraverser {
  import opened Options
  import opened RbTree
  import opened RbOrder
  import opened RbTable

  /** The first `height` entries of a traverser's stack are the ancestors on the path p, root first. */
  ghost predicate OnTrav(stack: seq<Node?>, height: nat, p: Path)
  {
    && height <= |stack|
    && if p.Top? then height == 0
       else height > 0 && stack[height - 1] == p.n && OnTrav(stack, height - 1, p.up)
  }

  lemma {:induction false} TravFrame(stack: seq<Node?>, stack': seq<Node?>, height: nat, p: Path)
    requires OnTrav(stack, height, p) && height <= |stack'| && stack[..height] == stack'[..height]
    ensures OnTrav(stack', height, p)
  {
    if p.Step? {
      assert stack[height - 1] == stack[..height][height - 1] == stack'[height - 1];
      assert stack[..height - 1] == stack[..height][..height - 1] == stack'[..height - 1];
      TravFrame(stack, stack', height - 1, p.up);
    }
  }

  lemma TravPush(stack: seq<Node?>, height: nat, p: Path, t: Tree, d: bool)
    requires OnTrav(stack, height, p) && height < |stack| && t.T?
    ensures OnTrav(stack[height := t.n], height + 1, Down(p, t, d))
  {
    TravFrame(stack, stack[height := t.n], height, p);
  }

  /** The path and subtree at which node n sits below (p, t). */
  ghost predicate At(table: Table, p: Path, t: Tree)
    reads table, {table.header} + PathNodes(p) + Nodes(t)
  {
    Plug(p, t) == table.tree && Zip(table.header, p, t)
  }

  /** In which child of t a node of t lies is what its key tells. */
  lemma SideOf(p: Path, t: Tree, n: Node)
    requires t.T? && Matches(t) && Sorted(Flat(p, t)) && n in Nodes(t) && n != t.n
    ensures n in Nodes(Kid(t, n.data.key > t.item.key))
  {
    var l, r, e := InOrder(t.left), InOrder(t.right), Entry(t.n, t.item);
    var f, m := Flat(p, t), |Before(p)| + |InOrder(t.left)|;
    EntriesMatch(t.left);
    EntriesMatch(t.right);
    FlatHere(p, t);
    if n in Nodes(t.left) {
      var i :| 0 <= i < |l| && l[i] == Entry(n, n.data);
      assert f[|Before(p)| + i] == l[i];
    } else {
      var i :| 0 <= i < |r| && r[i] == Entry(n, n.data);
      assert f[m + 1 + i] == r[i];
    }
  }

  /** A descent has come to the subtree t, with its ancestors on the stack. */
  ghost predicate OnWay(table: Table, stack: seq<Node?>, height: nat, p: Path, t: Tree)
    reads table, {table.header} + PathNodes(p) + Nodes(t)
  {
    && |stack| == RB_MAX_HEIGHT && OnTrav(stack, height, p) && height + Height(t) < RB_MAX_HEIGHT
    && At(table, p, t) && Flat(p, t) == InOrder(table.tree)
  }

  lemma WayDown(table: Table, stack: seq<Node?>, height: nat, p: Path, t: Tree, d: bool)
    requires OnWay(table, stack, height, p, t) && t.T?
    ensures OnWay(table, stack[height := t.n], height + 1, Down(p, t, d), Kid(t, d))
    ensures t.n.Link(d) == Ref(Kid(t, d))
  {
    DownKeeps(table.header, p, t, d);
    TravPush(stack, height, p, t, d);
  }

  lemma WayStart(table: Table, stack: seq<Node?>)
    requires table.Valid() && table.count <= MAX_ITEMS && |stack| == RB_MAX_HEIGHT
    ensures OnWay(table, stack, 0, Top, table.tree) && table.header.link0 == Ref(table.tree)
  {
    StackFits(table.tree);
    assert Flat(Top, table.tree) == InOrder(table.tree);
  }

  /** trav_refresh: the descent from the root to a node of the tree. */
  method Refresh(table: Table, node: Node, stack0: seq<Node?>)
    returns (stack: seq<Node?>, height: nat, ghost p: Path, ghost t: Tree)
    requires table.Valid() && table.count <= MAX_ITEMS && node in Nodes(table.tree) && |stack0| == RB_MAX_HEIGHT
    ensures |stack| == RB_MAX_HEIGHT && OnTrav(stack, height, p) && height + Height(t) < RB_MAX_HEIGHT
    ensures table.Valid() && At(table, p, t) && t.T? && t.n == node
    ensures Flat(p, t) == InOrder(table.tree)
  {
    assert allocated(Nodes(table.tree));
    stack, height := stack0, 0;
    p, t := Top, table.tree;
    WayStart(table, stack);
    var i := table.header.link0;
    while i != node
      invariant OnWay(table, stack, height, p, t) && node in Nodes(t) && i == Ref(t)
      decreases t
    {
      var d := node.data.key > i.data.key;
      SideOf(p, t, node);
      WayDown(table, stack, height, p, t, d);
      stack, height := stack[height := i], height + 1;
      i, p, t := i.Link(d), Down(p, t, d), Kid(t, d);
    }
  }

  /** The descent of rb_t_find. */
  method Search(table: Table, item: Item, stack0: seq<Node?>)
    returns (x: Node?, stack: seq<Node?>, height: nat, ghost p: Path, ghost t: Tree)
    requires table.Valid() && table.count <= MAX_ITEMS && |stack0| == RB_MAX_HEIGHT
    ensures |stack| == RB_MAX_HEIGHT && OnTrav(stack, height, p)
    ensures At(table, p, t) && Flat(p, t) == InOrder(table.tree) && Around(p, item.key)
    ensures x == Ref(t) && (x != null ==> x.data.key == item.key)
  {
    assert allocated(Nodes(table.tree));
    stack, height := stack0, 0;
    p, t := Top, table.tree;
    WayStart(table, stack);
    x := table.header.link0;
    while x != null && item.key != x.data.key
      invariant OnWay(table, stack, height, p, t) && Around(p, item.key) && x == Ref(t)
      decreases t
    {
      var d := item.key > x.data.key;
      DownAround(p, t, item.key);
      WayDown(table, stack, height, p, t, d);
      stack, height := stack[height := x], height + 1;
      x, p, t := x.Link(d), Down(p, t, d), Kid(t, d);
    }
  }

  /** The loops of rb_t_first and rb_t_last, and of rb_t_next and rb_t_prev below a child: as far
      as possible in direction d, starting at the root x of a non-empty subtree. */
  method Outermost(table: Table, x0: Node, d: bool, stack0: seq<Node?>, height0: nat, ghost p0: Path, ghost t0: Tree)
    returns (x: Node, stack: seq<Node?>, height: nat, ghost p: Path, ghost t: Tree)
    requires At(table, p0, t0) && t0.T? && t0.n == x0
    requires |stack0| == RB_MAX_HEIGHT && OnTrav(stack0, height0, p0) && height0 + Height(t0) < RB_MAX_HEIGHT
    ensures |stack| == RB_MAX_HEIGHT && OnTrav(stack, height, p) && height + Height(t) < RB_MAX_HEIGHT
    ensures At(table, p, t) && t.T? && t.n == x && Kid(t, d).Leaf?
    ensures if d then After(p) == After(p0) else Before(p) == Before(p0)
  {
    assert allocated(PathNodes(p0)) && allocated(Nodes(t0));
    x, stack, height, p, t := x0, stack0, height0, p0, t0;
    while x.Link(d) != null
      invariant |stack| == RB_MAX_HEIGHT && OnTrav(stack, height, p) && height + Height(t) < RB_MAX_HEIGHT
      invariant At(table, p, t) && t.T? && t.n == x
      invariant if d then After(p) == After(p0) else Before(p) == Before(p0)
      decreases t
    {
      DownZip(table.header, p, t, d);
      TravPush(stack, height, p, t, d);
      stack, height := stack[height := x], height + 1;
      x, p, t := x.Link(d), Down(p, t, d), Kid(t, d);
    }
  }

  /** How many entries come before the hole of p, counting t itself when going in direction 1. */
  ghost function Passed(p: Path, t: Tree, d: bool): nat
  {
    |Before(p)| + if d then |InOrder(t)| else 0
  }

  /** Position of the root of t among the entries of the whole tree. */
  ghost function Position(p: Path, t: Tree): nat
    requires t.T?
  {
    |Before(p)| + |InOrder(t.left)|
  }

  /** The do-while loops of rb_t_next (d = 1) and rb_t_prev (d = 0): up, until a node is reached from
      its other side. */
  method Climb(table: Table, x0: Node, d: bool, stack: seq<Node?>, height0: nat, ghost p0: Path, ghost t0: Tree)
    returns (x: Node?, height: nat, ghost p: Path, ghost t: Tree)
    requires At(table, p0, t0) && t0.T? && t0.n == x0 && OnTrav(stack, height0, p0)
    ensures At(table, p, t) && t.T? && OnTrav(stack, height, p)
    ensures x == null ==> height == 0 && p == Top && Passed(p, t, d) == Passed(p0, t0, d)
    ensures x != null ==> t.n == x && Passed(p0, t0, d) == Position(p, t) + if d then 0 else 1
  {
    assert allocated(PathNodes(p0)) && allocated(Nodes(t0));
    x, height, p, t := x0, height0, p0, t0;
    while true
      invariant At(table, p, t) && t.T? && t.n == x && OnTrav(stack, height, p)
      invariant Passed(p, t, d) == Passed(p0, t0, d)
      decreases p
    {
      if height == 0 {
        return null, 0, p, t;
      }
      var y := x;
      height := height - 1;
      x := stack[height];
      ghost var t' := Mk(p.n, p.color, p.item, p.d, t, p.sib);
      ZipUp(table.header, p, t);
      assert y == x.Link(p.d) && (p.d != d ==> y != x.Link(d));
      p, t := p.up, t';
      if y != x.Link(d) {
        break;
      }
    }
  }

  // ---------- Positions ----------

  /** The item at position j, or none outside the table. */
  ghost predicate AtIndex(es: seq<Entry>, j: int, n: Node?, r: Option<Item>)
  {
    if 0 <= j < |es| then n == es[j].n && r == Some(es[j].item) else n == null && r == None
  }

  /** One step from the current node; the null node stands before the first and after the last entry. */
  ghost predicate Moved(es: seq<Entry>, from: Node?, d: bool, to: Node?, r: Option<Item>)
  {
    && (from == null ==> AtIndex(es, if d then 0 else |es| - 1, to, r))
    && (forall i :: 0 <= i < |es| && es[i].n == from ==> AtIndex(es, if d then i + 1 else i - 1, to, r))
  }

  lemma {:induction false} TravDepth(stack: seq<Node?>, height: nat, p: Path)
    requires OnTrav(stack, height, p)
    ensures height == Depth(p)
  {
    if p.Step? { TravDepth(stack, height - 1, p.up); }
  }

  /** A node occurs at one position only. */
  lemma OnePosition(table: Table, p: Path, t: Tree, i: nat)
    requires table.Valid() && At(table, p, t) && t.T?
    ensures Position(p, t) < |table.Entries()| && table.Entries()[Position(p, t)] == Entry(t.n, t.item)
    ensures i < |table.Entries()| && table.Entries()[i].n == t.n ==> i == Position(p, t)
  {
    FlatPlug(p, t);
    FlatHere(p, t);
    EntriesMatch(table.tree);
  }

  /** The position of the outermost node in direction d of a subtree. */
  lemma {:induction false} OutermostPosition(p: Path, t: Tree, d: bool)
    requires t.T? && Kid(t, d).Leaf?
    ensures Position(p, t) == if d then |Flat(p, t)| - |After(p)| - 1 else |Before(p)|
  {
    assert InOrder(Kid(t, d)) == [];
  }

  lemma {:induction false} TravSeq(stack: seq<Node?>, height: nat, p: Path)
    requires height <= |stack|
    ensures OnTrav(stack, height, p) <==> stack[..height] == PathSeq(p)
  {
    if p.Step? && height > 0 {
      TravSeq(stack, height - 1, p.up);
      assert stack[..height] == stack[..height - 1] + [stack[height - 1]];
    }
  }

  /** The generation test finds out exactly whether the table has changed since, as long as fewer
      than 2^64 changes have happened. */
  lemma GenerationTells(changes: int, stamp: int)
    requires stamp <= changes
    ensures stamp % ULONG_RANGE == changes % ULONG_RANGE <==> (changes - stamp) % ULONG_RANGE == 0
    ensures changes - stamp < ULONG_RANGE ==> (stamp % ULONG_RANGE == changes % ULONG_RANGE <==> stamp == changes)
  {
  }

  lemma PassedPosition(p: Path, t: Tree, d: bool)
    requires t.T? && Kid(t, d).Leaf?
    ensures Passed(p, t, d) == Position(p, t) + if d then 1 else 0
  {
    assert InOrder(Kid(t, d)) == [];
  }

  lemma DownPosition(p: Path, t: Tree, d: bool)
    requires t.T?
    ensures d ==> |Before(Down(p, t, d))| == Position(p, t) + 1
    ensures !d ==> |Flat(p, t)| - |After(Down(p, t, d))| == Position(p, t)
  {
  }

  /** (p', t') is where rb_t_next or rb_t_prev arrives from (p, t); y is null at the end of the table. */
  ghost predicate IsStep(table: Table, p: Path, t: Tree, d: bool, y: Node?, p': Path, t': Tree)
    requires t.T?
    reads table, {table.header} + PathNodes(p') + Nodes(t')
  {
    var i := Position(p, t);
    if y == null then i == if d then |table.Entries()| - 1 else 0
    else At(table, p', t') && t'.T? && t'.n == y && Position(p', t') == if d then i + 1 else i - 1
  }

  /** The node before or after x. */
  method Neighbour(table: Table, x: Node, d: bool, st0: seq<Node?>, hh0: nat, ghost p: Path, ghost t: Tree)
    returns (y: Node?, st: seq<Node?>, hh: nat, ghost p': Path, ghost t': Tree)
    requires At(table, p, t) && t.T? && t.n == x && RedBlack(Top, table.tree) && |InOrder(table.tree)| <= MAX_ITEMS
    requires |st0| == RB_MAX_HEIGHT && OnTrav(st0, hh0, p)
    ensures IsStep(table, p, t, d, y, p', t')
    ensures y != null ==> |st| == RB_MAX_HEIGHT && OnTrav(st, hh, p')
  {
    TravDepth(st0, hh0, p);
    DepthHeight(p, t);
    StackFits(table.tree);
    if x.Link(d) != null {
      DownZip(table.header, p, t, d);
      DownPosition(p, t, d);
      TravPush(st0, hh0, p, t, d);
      y, st, hh, p', t' := Outermost(table, x.Link(d), !d, st0[hh0 := x], hh0 + 1, Down(p, t, d), Kid(t, d));
      OutermostPosition(p', t', !d);
      FlatPlug(p, t);
      FlatPlug(p', t');
    } else {
      st := st0;
      PassedPosition(p, t, d);
      FlatPlug(p, t);
      y, hh, p', t' := Climb(table, x, d, st0, hh0, p, t);
    }
  }

  lemma StepIsMove(table: Table, p: Path, t: Tree, d: bool, y: Node?, p': Path, t': Tree)
    requires table.Valid() && At(table, p, t) && t.T? && IsStep(table, p, t, d, y, p', t')
    ensures Moved(table.Entries(), t.n, d, y, if y == null then None else Some(y.data))
  {
    var es, r := table.Entries(), if y == null then None else Some(y.data);
    if y != null { OnePosition(table, p', t', 0); }
    forall i | 0 <= i < |es| && es[i].n == t.n
      ensures AtIndex(es, if d then i + 1 else i - 1, y, r)
    {
      OnePosition(table, p, t, i);
    }
  }

  lemma PreviousGeneration(c: nat)
    ensures (c % ULONG_RANGE - 1) % ULONG_RANGE == (c - 1) % ULONG_RANGE
  {
  }

  class Traverser {
    var table: Table
    var node: Node?
    var stack: seq<Node?>
    var height: nat
    var generation: nat
    ghost var stamp: int

    /** The stack array and how much of it is in use. */
    ghost predicate Storage()
      reads this
    {
      |stack| == RB_MAX_HEIGHT && height <= RB_MAX_HEIGHT
    }

    /** The stack holds exactly the ancestors of the current node. */
    ghost predicate Exact()
      reads this, table
    {
      node != null ==> height <= |stack| && stack[..height] == Ancestors(table.tree, node)
    }

    /** What every traverser operation, and every change of the table that leaves the current item in
        it, maintains. */
    ghost predicate Valid()
      reads this, table, {table.header} + Nodes(table.tree)
    {
      && table.Valid()
      && Storage()
      && (node != null ==> node in Nodes(table.tree))
      && stamp <= table.changes && generation == stamp % ULONG_RANGE
      && (stamp == table.changes ==> Exact())
    }

    /** The generation test tells whether the table has changed since: not after a number of changes that is
        a multiple of 2^64. */
    ghost predicate Recent()
      reads this, table
    {
      (table.changes - stamp) % ULONG_RANGE == 0 ==> stamp == table.changes
    }

    /** rb_t_init. */
    constructor (t: Table)
      requires t.Valid()
      ensures Valid() && table == t && node == null && stamp == t.changes
    {
      table, node, height, generation := t, null, 0, t.generation;
      stack := seq(RB_MAX_HEIGHT, _ => null);
      stamp := t.changes;
    }

    /** Points the traverser at the root of sub'. */
    method Select(x: Node, stack': seq<Node?>, height': nat, ghost p: Path, ghost t: Tree)
      requires table.Valid() && At(table, p, t) && t.T? && t.n == x
      requires |stack'| == RB_MAX_HEIGHT && OnTrav(stack', height', p)
      modifies this
      ensures Valid() && table == old(table) && node == x && stamp == table.changes
    {
      ZipPlug(table.header, p, t);
      AncestorsOfHole(table.header, p, t, x);
      TravSeq(stack', height', p);
      node, stack, height, generation, stamp := x, stack', height', table.generation, table.changes;
    }

    /** Points the traverser at nothing. */
    method SelectNull()
      requires table.Valid() && Storage()
      modifies this
      ensures Valid() && table == old(table) && node == null && stamp == table.changes
    {
      node, height, generation, stamp := null, 0, table.generation, table.changes;
    }

    /** rb_t_first (d = 0) and rb_t_last (d = 1) on the traverser's own table. */
    method Edge(d: bool) returns (r: Option<Item>)
      requires table.Valid() && Storage() && table.count <= MAX_ITEMS
      modifies this
      ensures Valid() && table == old(table) && stamp == table.changes
      ensures AtIndex(table.Entries(), if d then |table.Entries()| - 1 else 0, node, r)
    {
      assert allocated(Nodes(table.tree));
      var x := table.header.link0;
      if x == null {
        SelectNull();
        return None;
      }
      StackFits(table.tree);
      var y, st, hh, p, t := Outermost(table, x, d, stack, 0, Top, table.tree);
      OnePosition(table, p, t, 0);
      FlatPlug(p, t);
      OutermostPosition(p, t, d);
      ghost var es := table.Entries();
      assert Position(p, t) == if d then |es| - 1 else 0;
      r := Some(y.data);
      assert AtIndex(es, Position(p, t), y, r);
      Select(y, st, hh, p, t);
    }

    /** rb_t_next (d = 1) and rb_t_prev (d = 0). */
    method Move(d: bool) returns (r: Option<Item>)
      requires Valid() && Recent() && table.count <= MAX_ITEMS
      modifies this
      ensures Valid() && table == old(table) && stamp == table.changes
      ensures Moved(table.Entries(), old(node), d, node, r)
    {
      if node == null {
        r := Edge(!d);
        return;
      }
      assert allocated(Nodes(table.tree));
      var st, hh := stack, height;
      ghost var p, t;
      GenerationTells(table.changes, stamp);
      if generation != table.generation {
        st, hh, p, t := Refresh(table, node, stack);
      } else {
        p, t := Locate(table.header, Top, table.tree, node);
        TravSeq(st, hh, p);
      }
      r := Advance(d, st, hh, p, t);
    }

    /** Lines 631-663 and 684-716, with the stack in order. */
    method Advance(d: bool, st0: seq<Node?>, hh0: nat, ghost p: Path, ghost t: Tree) returns (r: Option<Item>)
      requires table.Valid() && At(table, p, t) && t.T? && node == t.n && table.count <= MAX_ITEMS
      requires Storage() && |st0| == RB_MAX_HEIGHT && OnTrav(st0, hh0, p)
      modifies this
      ensures Valid() && table == old(table) && stamp == table.changes
      ensures Moved(table.Entries(), old(node), d, node, r)
    {
      assert allocated(Nodes(table.tree)) && allocated(PathNodes(p)) && allocated(Nodes(t));
      var y, st, hh, p', t' := Neighbour(table, node, d, st0, hh0, p, t);
      StepIsMove(table, p, t, d, y, p', t');
      if y == null {
        SelectNull();
        r := None;
      } else {
        r := Some(y.data);
        Select(y, st, hh, p', t');
      }
    }

    /** rb_t_next. */
    method Next() returns (r: Option<Item>)
      requires Valid() && Recent() && table.count <= MAX_ITEMS
      modifies this
      ensures Valid() && table == old(table) && stamp == table.changes
      ensures Moved(table.Entries(), old(node), true, node, r)
    {
      r := Move(true);
    }

    /** rb_t_prev. */
    method Prev() returns (r: Option<Item>)
      requires Valid() && Recent() && table.count <= MAX_ITEMS
      modifies this
      ensures Valid() && table == old(table) && stamp == table.changes
      ensures Moved(table.Entries(), old(node), false, node, r)
    {
      r := Move(false);
    }

    /** rb_t_first. */
    method First(t: Table) returns (r: Option<Item>)
      requires t.Valid() && Storage() && t.count <= MAX_ITEMS
      modifies this
      ensures Valid() && table == t && stamp == t.changes && AtIndex(t.Entries(), 0, node, r)
    {
      table := t;
      r := Edge(false);
    }

    /** rb_t_last. */
    method Last(t: Table) returns (r: Option<Item>)
      requires t.Valid() && Storage() && t.count <= MAX_ITEMS
      modifies this
      ensures Valid() && table == t && stamp == t.changes && AtIndex(t.Entries(), |t.Entries()| - 1, node, r)
    {
      table := t;
      r := Edge(true);
    }

    /** rb_t_find. */
    method Find(t: Table, item: Item) returns (r: Option<Item>)
      requires t.Valid() && Storage() && t.count <= MAX_ITEMS && item.handle != 0
      modifies this
      ensures Valid() && table == t && stamp == t.changes
      ensures !HasKey(t.Entries(), item.key) ==> node == null && r == None
      ensures HasKey(t.Entries(), item.key) ==>
        exists i :: 0 <= i < |t.Entries()| && t.Entries()[i].item.key == item.key && AtIndex(t.Entries(), i, node, r)
    {
      assert allocated(Nodes(t.tree));
      var x, st, hh, p, s := Search(t, item, stack);
      table := t;
      if x == null {
        HoleFits(p, Entry(t.header, item));
        SelectNull();
        r := None;
      } else {
        OnePosition(t, p, s, 0);
        r := Some(x.data);
        ghost var es := t.Entries();
        assert AtIndex(es, Position(p, s), x, r) && es[Position(p, s)].item.key == item.key;
        Select(x, st, hh, p, s);
      }
    }

    /** Points the traverser at a node without its ancestors: the generation before the present one makes
        the next move refresh the stack. */
    method SelectStale(p: Node)
      requires table.Valid() && Storage() && p in Nodes(table.tree)
      modifies this
      ensures Valid() && table == old(table) && node == p && stamp == table.changes - 1
    {
      PreviousGeneration(table.changes);
      node, generation, stamp := p, (table.generation - 1) % ULONG_RANGE, table.changes - 1;
    }

    /** rb_t_insert. */
    method Insert(t: Table, item: Item, memory: bool) returns (r: Option<Item>)
      requires t.Valid() && Storage() && t.count <= MAX_ITEMS && item.handle != 0
      modifies this, t, {t.header} + Nodes(t.tree)
      ensures Valid() && table == t && t.changes - 1 <= stamp
      ensures HasKey(old(t.Entries()), item.key) || !memory ==> t.tree == old(t.tree) && t.changes == old(t.changes)
      ensures t.changes <= old(t.changes) + 1 && fresh(Nodes(t.tree) - old(Nodes(t.tree)))
      ensures HasKey(old(t.Entries()), item.key) ==> node != null && node.data.key == item.key && r == Some(node.data)
      ensures !HasKey(old(t.Entries()), item.key) && memory ==>
        && node != null && r == Some(item) && Inserted(old(t.Entries()), Entry(node, item), t.Entries())
        && t.changes == old(t.changes) + 1
      ensures !HasKey(old(t.Entries()), item.key) && !memory ==> node == null && r == None
    {
      var p := t.Probe(item, memory);
      t.SlotHolds(p, item);
      table := t;
      if p != null {
        SelectStale(p);
        r := Some(p.data);
      } else {
        SelectNull();
        r := None;
      }
    }

    /** rb_t_copy: the stack is copied only when it is worth copying. */
    method Copy(src: Traverser) returns (r: Option<Item>)
      requires src.Valid() && Storage()
      modifies this
      ensures Valid() && table == old(src.table) && node == old(src.node) && stamp == old(src.stamp)
      ensures r == if node == null then None else Some(node.data)
    {
      if this != src {
        table, node, generation, stamp := src.table, src.node, src.generation, src.stamp;
        if generation == table.generation {
          height := src.height;
          stack := src.stack[..height] + stack[height..];
        }
      }
      r := if node != null then Some(node.data) else None;
    }

    /** rb_t_cur. */
    method Current() returns (r: Option<Item>)
      requires Valid()
      ensures r.Some? <==> node != null
      ensures r.Some? ==> exists i :: 0 <= i < |table.Entries()| && table.Entries()[i] == Entry(node, r.value)
    {
      EntriesMatch(table.tree);
      if node != null { assert Entry(node, node.data) in table.Entries(); }
      r := if node != null then Some(node.data) else None;
    }

    /** rb_t_replace. */
    method ReplaceCurrent(new_: Item) returns (r: Item)
      requires Valid() && node != null && new_.handle != 0
      requires forall i :: 0 <= i < |table.Entries()| && table.Entries()[i].n == node ==>
                           Sorted(table.Entries()[i := Entry(node, new_)])
      modifies table, node
      ensures Valid() && table == old(table) && node == old(node) && stamp == old(stamp)
      ensures SameLinks(old(table.tree), table.tree) && table.changes == old(table.changes)
      ensures exists i :: 0 <= i < |old(table.Entries())| && old(table.Entries())[i] == Entry(node, r)
                          && table.Entries() == old(table.Entries())[i := Entry(node, new_)]
    {
      r := node.data;
      ghost var t := table.tree;
      table.SetData(node, new_);
      SameAncestors(t, table.tree, node);
    }
  }
}

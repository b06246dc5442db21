/** What each operation on a table does to the finite map that the table stands for. */
module RbOps {
  import opened Options
  import opened RbTree
  import opened RbOrder
  import opened RbTable
  import opened RbCursors

  /** Node n holds an item with that key. */
  ghost predicate Holds(es: seq<Entry>, n: Node, key: int)
  {
    exists i :: 0 <= i < |es| && es[i].n == n && es[i].item.key == key
  }

  /** Every item but one with the key `but` keeps its node. */
  ghost predicate Survive(es: seq<Entry>, es': seq<Entry>, but: Option<int>)
  {
    forall i :: 0 <= i < |es| && but != Some(es[i].item.key) ==> Holds(es', es[i].n, es[i].item.key)
  }

  lemma InsertedSurvive(es: seq<Entry>, e: Entry, es': seq<Entry>)
    requires Inserted(es, e, es')
    ensures Survive(es, es', None) && |es'| == |es| + 1
  {
    KeysInserted(es, e, es');
    forall i | 0 <= i < |es| ensures Holds(es', es[i].n, es[i].item.key)
    {
      assert es[i] in es';
    }
  }

  lemma RemovedSurvive(es: seq<Entry>, i: nat)
    requires i < |es| && Sorted(es)
    ensures Survive(es, RemovedAt(es, i), Some(es[i].item.key)) && |RemovedAt(es, i)| + 1 == |es|
  {
    RemovedStays(es, i);
    forall j | 0 <= j < |es| && es[j].item.key != es[i].item.key
      ensures Holds(RemovedAt(es, i), es[j].n, es[j].item.key)
    {
      assert es[j] in RemovedAt(es, i);
    }
  }

  lemma ReplacedSurvive(es: seq<Entry>, i: nat, x: Item)
    requires i < |es| && x.key == es[i].item.key
    ensures Survive(es, es[i := Entry(es[i].n, x)], None)
  {
    var r := es[i := Entry(es[i].n, x)];
    forall j | 0 <= j < |es| ensures Holds(r, es[j].n, es[j].item.key)
    {
      assert r[j].n == es[j].n && r[j].item.key == es[j].item.key;
    }
  }

  /** What an operation promises: the table does what the map does, and all items but a deleted one
      stay in their nodes. */
  ghost predicate Done(es: seq<Entry>, t: Tree, c: nat, m: map<int, Item>, op: Op, r: Option<Item>,
                       es': seq<Entry>, t': Tree, c': nat)
  {
    && (Agrees(es, m) ==> Agrees(es', Apply(m, op)) && r == Returned(m, op))
    && Survive(es, es', if op.DeleteOp? then Some(op.item.key) else None)
    && |es'| <= |es| + 1 && c <= c' <= c + 1 && (c == c' ==> SameLinks(t, t'))
  }

  method RunInsert(table: Table, x: Item, memory: bool, ghost m: map<int, Item>) returns (r: Option<Item>)
    requires table.Valid() && table.count <= MAX_ITEMS && x.handle != 0
    modifies table, {table.header} + Nodes(table.tree)
    ensures table.Valid() && fresh(Nodes(table.tree) - old(Nodes(table.tree)))
    ensures Done(old(table.Entries()), old(table.tree), old(table.changes), m, InsertOp(x, memory), r,
                 table.Entries(), table.tree, table.changes)
  {
    ghost var es := table.Entries();
    SameItself(table.tree);
    r := table.Insert(x, memory);
    if !HasKey(es, x.key) && memory {
      ghost var n :| Inserted(es, Entry(n, x), table.Entries());
      InsertedSurvive(es, Entry(n, x), table.Entries());
      if Agrees(es, m) { AgreesInserted(es, Entry(n, x), table.Entries(), m); }
    }
  }

  method RunReplace(table: Table, x: Item, memory: bool, ghost m: map<int, Item>) returns (r: Option<Item>)
    requires table.Valid() && table.count <= MAX_ITEMS && x.handle != 0
    modifies table, {table.header} + Nodes(table.tree)
    ensures table.Valid() && fresh(Nodes(table.tree) - old(Nodes(table.tree)))
    ensures Done(old(table.Entries()), old(table.tree), old(table.changes), m, ReplaceOp(x, memory), r,
                 table.Entries(), table.tree, table.changes)
  {
    ghost var es, t, c := table.Entries(), table.tree, table.changes;
    SameItself(table.tree);
    r := table.Replace(x, memory);
    if HasKey(es, x.key) {
      ghost var i :| 0 <= i < |es| && es[i].item.key == x.key && table.Entries() == es[i := Entry(es[i].n, x)]
        && r == if es[i].item == x then None else Some(es[i].item);
      SameAncestors(t, table.tree, table.header);
      ReplacedDone(es, t, c, m, x, memory, r, table.tree, i);
    } else if memory {
      ghost var n :| Inserted(es, Entry(n, x), table.Entries());
      AddedDone(es, t, c, m, ReplaceOp(x, memory), table.Entries(), table.tree, n);
    }
  }

  /** The item of entry i was exchanged. */
  lemma {:induction false} ReplacedDone(es: seq<Entry>, t: Tree, c: nat, m: map<int, Item>, x: Item, memory: bool,
                                        r: Option<Item>, t': Tree, i: nat)
    requires i < |es| && Sorted(es) && es[i].item.key == x.key && SameLinks(t, t')
    requires r == if es[i].item == x then None else Some(es[i].item)
    ensures Done(es, t, c, m, ReplaceOp(x, memory), r, es[i := Entry(es[i].n, x)], t', c)
  {
    ReplacedSurvive(es, i, x);
    if Agrees(es, m) { AgreesReplaced(es, i, Entry(es[i].n, x), m); }
  }

  /** A new item was added. */
  lemma AddedDone(es: seq<Entry>, t: Tree, c: nat, m: map<int, Item>, op: Op, es': seq<Entry>, t': Tree, n: Node)
    requires !op.DeleteOp? && op.memory && !HasKey(es, op.item.key) && Inserted(es, Entry(n, op.item), es')
    ensures Done(es, t, c, m, op, None, es', t', c + 1)
  {
    InsertedSurvive(es, Entry(n, op.item), es');
    if Agrees(es, m) { AgreesInserted(es, Entry(n, op.item), es', m); }
  }

  method RunDelete(table: Table, x: Item, ghost m: map<int, Item>) returns (r: Option<Item>)
    requires table.Valid() && table.count <= MAX_ITEMS && x.handle != 0
    modifies table, {table.header} + Nodes(table.tree)
    ensures table.Valid() && fresh(Nodes(table.tree) - old(Nodes(table.tree)))
    ensures Done(old(table.Entries()), old(table.tree), old(table.changes), m, DeleteOp(x), r,
                 table.Entries(), table.tree, table.changes)
  {
    ghost var es := table.Entries();
    SameItself(table.tree);
    r := table.Delete(x);
    if r.Some? {
      ghost var i :| 0 <= i < |es| && es[i].item == r.value && table.Entries() == RemovedAt(es, i);
      RemovedSurvive(es, i);
      if Agrees(es, m) { AgreesRemoved(es, i, m); }
    } else if Agrees(es, m) {
      assert m - {x.key} == m;
    }
  }

  /** One operation. */
  method RunOp(table: Table, op: Op, ghost m: map<int, Item>) returns (r: Option<Item>)
    requires table.Valid() && table.count <= MAX_ITEMS && op.item.handle != 0
    modifies table, {table.header} + Nodes(table.tree)
    ensures table.Valid() && fresh(Nodes(table.tree) - old(Nodes(table.tree)))
    ensures Done(old(table.Entries()), old(table.tree), old(table.changes), m, op, r,
                 table.Entries(), table.tree, table.changes)
  {
    match op
    case InsertOp(x, memory) => r := RunInsert(table, x, memory, m);
    case ReplaceOp(x, memory) => r := RunReplace(table, x, memory, m);
    case DeleteOp(x) => r := RunDelete(table, x, m);
  }
}

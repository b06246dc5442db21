/** Whole runs: any sequence of table operations, with any number of traversers alive across them. */
module RbRuns {
  import opened Options
  import opened RbTree
  import opened RbOrder
  import opened RbTable
  import opened RbTraverser
  import opened RbCursors
  import opened RbOps

  // ---------- A traverser against its cursor ----------

  /** The traverser is fit for a table with these entries, this tree and this number of changes, and stands
      at the place. */
  ghost predicate Stands(trav: Traverser, es: seq<Entry>, t: Tree, c: nat, place: Option<int>)
    reads trav
  {
    && trav.Storage() && trav.stamp <= c && trav.generation == trav.stamp % ULONG_RANGE
    && (trav.node == null <==> place.None?)
    && (trav.node != null ==>
          && Holds(es, trav.node, place.value)
          && (trav.stamp == c ==>
                trav.height <= |trav.stack| && trav.stack[..trav.height] == Ancestors(t, trav.node)))
  }

  /** A lost traverser still has its storage, and nothing more. */
  ghost predicate Follows(trav: Traverser, es: seq<Entry>, t: Tree, c: nat, cur: Cursor)
    reads trav
  {
    if cur.Lost? then trav.Storage() else Stands(trav, es, t, c, cur.place)
  }

  lemma StandsValid(table: Table, trav: Traverser, place: Option<int>)
    requires table.Valid() && trav.table == table
    requires Stands(trav, table.Entries(), table.tree, table.changes, place)
    ensures trav.Valid()
    ensures place.Some? ==> trav.node != null && trav.node.data.key == place.value
  {
    EntriesMatch(table.tree);
  }

  /** A change of the table keeps a traverser fit, if the current item stays. */
  lemma {:induction false} StandsKept(trav: Traverser, es: seq<Entry>, t: Tree, c: nat, es': seq<Entry>, t': Tree,
                                      c': nat, but: Option<int>, place: Option<int>)
    requires Stands(trav, es, t, c, place) && Survive(es, es', but) && (place.None? || but != place)
    requires c <= c' && (c == c' ==> SameLinks(t, t'))
    ensures Stands(trav, es', t', c', place)
  {
    if trav.node != null {
      var i :| 0 <= i < |es| && es[i].n == trav.node && es[i].item.key == place.value;
      assert Holds(es', trav.node, place.value);
      if c == c' { SameAncestors(t, t', trav.node); }
    }
  }

  /** All traversers but number `skip` follow their cursors, which are lost where the item was deleted. */
  lemma {:induction false} AllKept(ts: seq<Traverser>, skip: int, es: seq<Entry>, t: Tree, c: nat, es': seq<Entry>,
                                   t': Tree, c': nat, but: Option<int>, curs: seq<Cursor>)
    requires |ts| == |curs| && forall k :: 0 <= k < |ts| && k != skip ==> Follows(ts[k], es, t, c, curs[k])
    requires Survive(es, es', but) && c <= c' && (c == c' ==> SameLinks(t, t'))
    ensures forall k :: 0 <= k < |ts| && k != skip ==> Follows(ts[k], es', t', c', Struck(curs[k], but))
  {
    forall k | 0 <= k < |ts| && k != skip ensures Follows(ts[k], es', t', c', Struck(curs[k], but))
    {
      if Struck(curs[k], but).At? {
        StandsKept(ts[k], es, t, c, es', t', c', but, curs[k].place);
      }
    }
  }

  lemma {:induction false} StandsRenamed(trav: Traverser, es: seq<Entry>, t: Tree, c: nat, t': Tree, i: nat, x: Item,
                                         cur: Cursor)
    requires Follows(trav, es, t, c, cur) && i < |es| && Sorted(es) && SameLinks(t, t')
    ensures Follows(trav, es[i := Entry(es[i].n, x)], t', c, Renamed(cur, es[i].item.key, x.key))
  {
    var r := es[i := Entry(es[i].n, x)];
    if cur.At? && trav.node != null {
      var j :| 0 <= j < |es| && es[j].n == trav.node && es[j].item.key == cur.place.value;
      assert r[j].n == trav.node;
      SameAncestors(t, t', trav.node);
    }
  }

  /** The same when the item of entry i is exchanged. */
  lemma {:induction false} AllFollowRenamed(ts: seq<Traverser>, es: seq<Entry>, t: Tree, c: nat, t': Tree, i: nat,
                                            x: Item, curs: seq<Cursor>)
    requires |ts| == |curs| && forall k :: 0 <= k < |ts| ==> Follows(ts[k], es, t, c, curs[k])
    requires i < |es| && Sorted(es) && SameLinks(t, t')
    ensures forall k :: 0 <= k < |ts| ==>
      Follows(ts[k], es[i := Entry(es[i].n, x)], t', c, Renamed(curs[k], es[i].item.key, x.key))
  {
    forall k | 0 <= k < |ts|
      ensures Follows(ts[k], es[i := Entry(es[i].n, x)], t', c, Renamed(curs[k], es[i].item.key, x.key))
    {
      StandsRenamed(ts[k], es, t, c, t', i, x, curs[k]);
    }
  }

  /** The table and the traversers are in the abstract state s. */
  ghost predicate Linked(table: Table, ts: seq<Traverser>, s: State)
    reads ts, table, {table.header} + Nodes(table.tree)
  {
    && table.Valid() && Agrees(table.Entries(), s.m) && |ts| == |s.curs|
    && (forall i, j :: 0 <= i < j < |ts| ==> ts[i] != ts[j])
    && (forall i :: 0 <= i < |ts| ==>
          ts[i].table == table && Follows(ts[i], table.Entries(), table.tree, table.changes, s.curs[i]))
  }

  /** The table has had at most n changes since any traverser looked at it. */
  ghost predicate Behind(table: Table, ts: seq<Traverser>, n: nat)
    reads table, ts
  {
    forall i :: 0 <= i < |ts| ==> table.changes - ts[i].stamp <= n
  }

  lemma BehindIsRecent(table: Table, ts: seq<Traverser>, n: nat, i: nat)
    requires Behind(table, ts, n) && n < ULONG_RANGE && i < |ts| && ts[i].table == table
    requires ts[i].stamp <= table.changes
    ensures ts[i].Recent()
  {
    GenerationTells(table.changes, ts[i].stamp);
  }

  // ---------- Changes ----------

  /** Which traversers are lost when the item with the key is deleted. */
  method Strike(table: Table, ts: seq<Traverser>, lost: seq<bool>, key: int, ghost s: State) returns (r: seq<bool>)
    requires Linked(table, ts, s) && lost == Flags(s.curs)
    ensures r == Flags(AllStruck(s.curs, Some(key)))
  {
    assert allocated(Nodes(table.tree));
    r := [];
    for k := 0 to |ts|
      invariant |r| == k && forall i :: 0 <= i < k ==> r[i] == Struck(s.curs[i], Some(key)).Lost?
    {
      if lost[k] {
        r := r + [true];
      } else {
        StandsValid(table, ts[k], s.curs[k].place);
        r := r + [ts[k].node != null && ts[k].node.data.key == key];
      }
    }
  }

  /** A change of the table leaves all traversers fit whose items stay. */
  method ChangeStep(table: Table, ts: seq<Traverser>, op: Op, ghost s: State) returns (r: Option<Item>, ghost s': State)
    requires Linked(table, ts, s) && table.count <= MAX_ITEMS && op.item.handle != 0
    modifies table, {table.header} + Nodes(table.tree)
    ensures Linked(table, ts, s') && StepOk(s, Change(op), r, s')
    ensures fresh(Nodes(table.tree) - old(Nodes(table.tree)))
    ensures table.changes <= old(table.changes) + 1
  {
    ghost var es, t, c := table.Entries(), table.tree, table.changes;
    ghost var but := if op.DeleteOp? then Some(op.item.key) else None;
    r := RunOp(table, op, s.m);
    s' := State(Apply(s.m, op), AllStruck(s.curs, but));
    AllKept(ts, -1, es, t, c, table.Entries(), table.tree, table.changes, but, s.curs);
  }

  /** The change, and the record of lost traversers. */
  method DoOp(table: Table, ts: seq<Traverser>, lost: seq<bool>, op: Op, ghost s: State)
    returns (r: Option<Item>, lost': seq<bool>, ghost s': State)
    requires Linked(table, ts, s) && lost == Flags(s.curs) && table.count <= MAX_ITEMS && op.item.handle != 0
    modifies table, {table.header} + Nodes(table.tree)
    ensures Linked(table, ts, s') && StepOk(s, Change(op), r, s') && lost' == Flags(s'.curs)
    ensures fresh(Nodes(table.tree) - old(Nodes(table.tree))) && table.changes <= old(table.changes) + 1
  {
    ghost var ns := Nodes(table.tree);
    assert allocated(ns);
    lost' := lost;
    if op.DeleteOp? {
      lost' := Strike(table, ts, lost, op.item.key, s);
    }
    label Noted:
    r, s' := ChangeStep(table, ts, op, s);
    assert AllStruck(s.curs, None) == s.curs;
    forall x | x in Nodes(table.tree) ensures x in ns || fresh(x)
    {
      if x !in ns {
        assert x in Nodes(table.tree) - ns;
        assert fresh@Noted(x);
      }
    }
  }

  // ---------- Moves ----------

  /** Where the cursor goes from its entry: the index next to it, or the first index of the row. */
  ghost predicate NextIndex(es: seq<Entry>, cur: Option<int>, d: bool, j: int)
  {
    if cur.None? then j == (if d then 0 else |es| - 1)
    else 0 <= (if d then j - 1 else j + 1) < |es| && es[if d then j - 1 else j + 1].item.key == cur.value
  }

  /** One index further in the sequence is the nearest key in the map. */
  lemma NextIsNearest(es: seq<Entry>, m: map<int, Item>, cur: Option<int>, d: bool, j: int)
    requires Sorted(es) && Agrees(es, m) && NextIndex(es, cur, d, j)
    ensures Nearest(m, cur, d, if 0 <= j < |es| then Some(es[j].item.key) else None)
  {
    forall x | x in m && Beyond(cur, d, x)
      ensures 0 <= j < |es| && if d then es[j].item.key <= x else x <= es[j].item.key
    {
      assert HasKey(es, x);
      var i :| 0 <= i < |es| && es[i].item.key == x;
      assert if d then j <= i else i <= j;
    }
  }

  lemma MovedNearest(es: seq<Entry>, m: map<int, Item>, from: Node?, cur: Option<int>, d: bool, to: Node?,
                     r: Option<Item>)
    returns (cur': Option<int>)
    requires Sorted(es) && Agrees(es, m) && Moved(es, from, d, to, r)
    requires (from == null <==> cur.None?) && (from != null ==> Holds(es, from, cur.value))
    ensures Nearest(m, cur, d, cur') && r == Under(m, cur')
    ensures (to == null <==> cur'.None?) && (to != null ==> Holds(es, to, cur'.value))
  {
    var j: int;
    if from == null {
      j := if d then 0 else |es| - 1;
    } else {
      var i :| 0 <= i < |es| && es[i].n == from && es[i].item.key == cur.value;
      j := if d then i + 1 else i - 1;
    }
    assert AtIndex(es, j, to, r);
    NextIsNearest(es, m, cur, d, j);
    cur' := if 0 <= j < |es| then Some(es[j].item.key) else None;
  }

  /** First, if d, or Last. */
  method EdgeStep(table: Table, ts: seq<Traverser>, i: nat, d: bool, ghost s: State)
    returns (r: Option<Item>, ghost s': State)
    requires Linked(table, ts, s) && i < |ts| && table.count <= MAX_ITEMS
    modifies ts[i]
    ensures Linked(table, ts, s') && ts[i].stamp == table.changes && Goes(s, i, None, d, r, s')
  {
    assert ts[i].Storage();
    if d { r := ts[i].First(table); } else { r := ts[i].Last(table); }
    ghost var to := MovedNearest(table.Entries(), s.m, null, None, d, ts[i].node, r);
    s' := s.(curs := s.curs[i := At(to)]);
  }

  /** Next, if d, or Prev. */
  method MoveStep(table: Table, ts: seq<Traverser>, i: nat, d: bool, ghost s: State)
    returns (r: Option<Item>, ghost s': State)
    requires Linked(table, ts, s) && i < |ts| && s.curs[i].At? && ts[i].Recent() && table.count <= MAX_ITEMS
    modifies ts[i]
    ensures Linked(table, ts, s') && ts[i].stamp == table.changes && Goes(s, i, s.curs[i].place, d, r, s')
  {
    ghost var from := ts[i].node;
    StandsValid(table, ts[i], s.curs[i].place);
    if d { r := ts[i].Next(); } else { r := ts[i].Prev(); }
    ghost var to := MovedNearest(table.Entries(), s.m, from, s.curs[i].place, d, ts[i].node, r);
    s' := s.(curs := s.curs[i := At(to)]);
  }

  method LookupStep(table: Table, x: Item, ghost m: map<int, Item>) returns (r: Option<Item>)
    requires table.Valid() && x.handle != 0 && Agrees(table.Entries(), m)
    ensures r == Get(m, x.key)
  {
    r := table.Find(x);
  }

  method TravFindStep(table: Table, ts: seq<Traverser>, i: nat, x: Item, ghost s: State) returns (r: Option<Item>)
    requires Linked(table, ts, s) && i < |ts| && table.count <= MAX_ITEMS && x.handle != 0
    modifies ts[i]
    ensures Linked(table, ts, s.(curs := s.curs[i := On(s.m, x.key)])) && ts[i].stamp == table.changes
    ensures r == Get(s.m, x.key)
  {
    assert ts[i].Storage();
    r := ts[i].Find(table, x);
  }

  /** The item of a node is the item of its key in the map. */
  lemma NodeItem(table: Table, m: map<int, Item>, n: Node, key: int)
    requires table.Valid() && Agrees(table.Entries(), m) && Holds(table.Entries(), n, key)
    ensures Get(m, key) == Some(n.data)
  {
    EntriesMatch(table.tree);
  }

  method CopyStep(table: Table, ts: seq<Traverser>, i: nat, j: nat, ghost s: State) returns (r: Option<Item>)
    requires Linked(table, ts, s) && i < |ts| && j < |ts| && s.curs[j].At?
    modifies ts[i]
    ensures Linked(table, ts, s.(curs := s.curs[i := s.curs[j]])) && r == Under(s.m, s.curs[j].place)
    ensures ts[i].stamp == old(ts[j].stamp)
  {
    assert allocated(Nodes(table.tree)) && ts[i].Storage();
    StandsValid(table, ts[j], s.curs[j].place);
    r := ts[i].Copy(ts[j]);
    if ts[i].node != null { NodeItem(table, s.m, ts[i].node, s.curs[j].place.value); }
  }

  method CurrentStep(table: Table, ts: seq<Traverser>, i: nat, ghost s: State) returns (r: Option<Item>)
    requires Linked(table, ts, s) && i < |ts| && s.curs[i].At?
    ensures r == Under(s.m, s.curs[i].place)
  {
    assert allocated(Nodes(table.tree));
    StandsValid(table, ts[i], s.curs[i].place);
    r := ts[i].Current();
    EntriesMatch(table.tree);
    if r.Some? { NodeItem(table, s.m, ts[i].node, s.curs[i].place.value); }
  }

  // ---------- Changes through a traverser ----------

  /** What rb_t_insert returns and selects, seen from the map. */
  lemma TravInsertLaw(es: seq<Entry>, es': seq<Entry>, m: map<int, Item>, x: Item, memory: bool, n: Node?,
                      r: Option<Item>)
    requires Agrees(es, m)
    requires HasKey(es, x.key) || !memory ==> es' == es
    requires HasKey(es, x.key) ==> n != null && r.Some? && r.value.key == x.key && Entry(n, r.value) in es'
    requires !HasKey(es, x.key) && memory ==> n != null && r == Some(x) && Inserted(es, Entry(n, x), es')
    requires !HasKey(es, x.key) && !memory ==> n == null && r == None
    ensures var m' := Apply(m, InsertOp(x, memory));
      && Agrees(es', m') && r == Get(m', x.key) && (n == null <==> x.key !in m')
      && (n != null ==> Holds(es', n, x.key)) && |es'| <= |es| + 1
    ensures Survive(es, es', None)
  {
    if HasKey(es, x.key) {
      var i :| 0 <= i < |es'| && es'[i] == Entry(n, r.value);
    } else if memory {
      AgreesInserted(es, Entry(n, x), es', m);
      InsertedSurvive(es, Entry(n, x), es');
      var i :| 0 <= i <= |es| && es' == es[..i] + [Entry(n, x)] + es[i..];
      assert es'[i] == Entry(n, x);
    }
  }

  /** rb_t_insert, seen from the map. */
  method InsertItem(table: Table, trav: Traverser, x: Item, memory: bool, ghost m: map<int, Item>)
    returns (r: Option<Item>)
    requires table.Valid() && trav.Storage() && Agrees(table.Entries(), m)
    requires table.count <= MAX_ITEMS && x.handle != 0
    modifies trav, table, {table.header} + Nodes(table.tree)
    ensures table.Valid() && trav.table == table
    ensures var m' := Apply(m, InsertOp(x, memory));
      && Agrees(table.Entries(), m') && r == Get(m', x.key)
      && Stands(trav, table.Entries(), table.tree, table.changes, On(m', x.key).place)
    ensures Survive(old(table.Entries()), table.Entries(), None) && fresh(Nodes(table.tree) - old(Nodes(table.tree)))
    ensures old(table.changes) <= table.changes <= old(table.changes) + 1 && table.changes - 1 <= trav.stamp
    ensures table.changes == old(table.changes) ==> SameLinks(old(table.tree), table.tree)
  {
    ghost var es := table.Entries();
    SameItself(table.tree);
    r := trav.Insert(table, x, memory);
    EntriesMatch(table.tree);
    TravInsertLaw(es, table.Entries(), m, x, memory, trav.node, r);
  }

  method TravInsertStep(table: Table, ts: seq<Traverser>, i: nat, x: Item, memory: bool, ghost s: State)
    returns (r: Option<Item>)
    requires Linked(table, ts, s) && i < |ts| && table.count <= MAX_ITEMS && x.handle != 0
    modifies ts[i], table, {table.header} + Nodes(table.tree)
    ensures var m := Apply(s.m, InsertOp(x, memory));
      Linked(table, ts, State(m, s.curs[i := On(m, x.key)])) && r == Get(m, x.key)
    ensures table.changes - 1 <= ts[i].stamp && fresh(Nodes(table.tree) - old(Nodes(table.tree)))
    ensures table.changes <= old(table.changes) + 1
  {
    ghost var es, t, c := table.Entries(), table.tree, table.changes;
    assert ts[i].Storage();
    r := InsertItem(table, ts[i], x, memory, s.m);
    AllKept(ts, i, es, t, c, table.Entries(), table.tree, table.changes, None, s.curs);
  }

  /** A key between the neighbours of a key has the same place among the others. */
  lemma FitsBetween(m: map<int, Item>, a: int, b: int, down: Option<int>, up: Option<int>)
    requires Nearest(m, Some(a), false, down) && Nearest(m, Some(a), true, up)
    ensures Fits(m, a, b) <==> (down.None? || down.value < b) && (up.None? || b < up.value)
  {
    if (down.None? || down.value < b) && (up.None? || b < up.value) {
      forall k | k in m && k != a ensures k != b && (k < a <==> k < b)
      {
        assert Beyond(Some(a), k > a, k);
      }
    }
  }

  /** The item next to the current one, by way of a copy of the traverser. */
  method Beside(table: Table, trav: Traverser, d: bool, ghost m: map<int, Item>, ghost key: int)
    returns (r: Option<Item>, ghost to: Option<int>)
    requires table.Valid() && trav.table == table && Agrees(table.Entries(), m) && table.count <= MAX_ITEMS
    requires Stands(trav, table.Entries(), table.tree, table.changes, Some(key)) && trav.Recent()
    ensures Nearest(m, Some(key), d, to) && r == Under(m, to)
  {
    assert allocated(Nodes(table.tree));
    StandsValid(table, trav, Some(key));
    var copy := new Traverser(table);
    r := copy.Copy(trav);
    if d { r := copy.Next(); } else { r := copy.Prev(); }
    to := MovedNearest(table.Entries(), m, trav.node, Some(key), d, copy.node, r);
  }

  /** Whether the current item of a traverser may be replaced by x, which its neighbours tell. */
  method MayReplace(table: Table, trav: Traverser, x: Item, ghost m: map<int, Item>, ghost key: int)
    returns (b: bool)
    requires table.Valid() && trav.table == table && Agrees(table.Entries(), m) && table.count <= MAX_ITEMS
    requires Stands(trav, table.Entries(), table.tree, table.changes, Some(key)) && trav.Recent()
    ensures b <==> Fits(m, key, x.key)
  {
    assert allocated(Nodes(table.tree));
    var p, down := Beside(table, trav, false, m, key);
    var q, up := Beside(table, trav, true, m, key);
    FitsBetween(m, key, x.key, down, up);
    UnderKey(table.Entries(), m, down);
    UnderKey(table.Entries(), m, up);
    b := (p.None? || p.value.key < x.key) && (q.None? || x.key < q.value.key);
  }

  lemma UnderKey(es: seq<Entry>, m: map<int, Item>, place: Option<int>)
    requires Agrees(es, m) && (place.Some? ==> place.value in m)
    ensures place.Some? ==> Under(m, place).Some? && Under(m, place).value.key == place.value
  {
    if place.Some? {
      assert HasKey(es, place.value);
    }
  }

  /** Entry i of a sorted row may take an item that fits. */
  lemma SortedWith(es: seq<Entry>, m: map<int, Item>, i: nat, e: Entry)
    requires i < |es| && Sorted(es) && Agrees(es, m) && Fits(m, es[i].item.key, e.item.key)
    ensures Sorted(es[i := e])
  {
    forall j | 0 <= j < |es| && j != i
      ensures es[j].item.key != e.item.key && (es[j].item.key < e.item.key <==> j < i)
    {
      assert es[j].item.key in m && es[j].item.key != es[i].item.key;
    }
  }

  lemma AgreesWith(es: seq<Entry>, m: map<int, Item>, i: nat, e: Entry)
    requires i < |es| && Sorted(es) && Agrees(es, m) && Sorted(es[i := e])
    ensures Agrees(es[i := e], (m - {es[i].item.key})[e.item.key := e.item])
  {
    var r, m' := es[i := e], (m - {es[i].item.key})[e.item.key := e.item];
    forall k ensures k in m' <==> HasKey(r, k)
    {
      if k in m' && k != e.item.key {
        assert HasKey(es, k);
        var j :| 0 <= j < |es| && es[j].item.key == k;
        assert r[j].item.key == k;
      }
      if HasKey(r, k) && k != e.item.key {
        var j :| 0 <= j < |r| && r[j].item.key == k;
        assert es[j].item.key == k && HasKey(es, k);
      }
      if k == e.item.key {
        assert r[i].item.key == k;
      }
    }
    forall j | 0 <= j < |r| ensures r[j].item.key in m' && m'[r[j].item.key] == r[j].item
    {
      assert HasKey(r, r[j].item.key);
      if j != i { assert es[j].item.key != es[i].item.key && r[j].item.key != r[i].item.key; }
    }
  }

  /** rb_t_replace by an item that fits in the place of the current one. */
  method ReplaceItem(table: Table, trav: Traverser, x: Item, ghost m: map<int, Item>, ghost key: int)
    returns (r: Item, ghost i: nat)
    requires table.Valid() && trav.table == table && Agrees(table.Entries(), m) && x.handle != 0
    requires Stands(trav, table.Entries(), table.tree, table.changes, Some(key)) && Fits(m, key, x.key)
    modifies table, Nodes(table.tree)
    ensures table.Valid() && Agrees(table.Entries(), (m - {key})[x.key := x]) && Get(m, key) == Some(r)
    ensures SameLinks(old(table.tree), table.tree) && table.changes == old(table.changes)
    ensures var es := old(table.Entries());
      i < |es| && es[i].item.key == key && table.Entries() == es[i := Entry(es[i].n, x)]
  {
    ghost var es, n := table.Entries(), trav.node;
    StandsValid(table, trav, Some(key));
    EntriesMatch(table.tree);
    forall k | 0 <= k < |es| && es[k].n == n ensures Sorted(es[k := Entry(n, x)])
    {
      SortedWith(es, m, k, Entry(n, x));
    }
    r := trav.ReplaceCurrent(x);
    i :| 0 <= i < |es| && es[i] == Entry(n, r) && table.Entries() == es[i := Entry(n, x)];
    AgreesWith(es, m, i, Entry(n, x));
  }

  method ReplaceStep(table: Table, ts: seq<Traverser>, i: nat, x: Item, ghost s: State, ghost key: int)
    returns (r: Option<Item>, ghost s': State)
    requires Linked(table, ts, s) && i < |ts| && s.curs[i] == At(Some(key)) && x.handle != 0 && Fits(s.m, key, x.key)
    modifies table, Nodes(table.tree)
    ensures s' == State((s.m - {key})[x.key := x], AllRenamed(s.curs, key, x.key))
    ensures Linked(table, ts, s') && r == Get(s.m, key)
    ensures Nodes(table.tree) == old(Nodes(table.tree)) && table.changes == old(table.changes)
  {
    ghost var es, t := table.Entries(), table.tree;
    var was, j := ReplaceItem(table, ts[i], x, s.m, key);
    r := Some(was);
    s' := State((s.m - {key})[x.key := x], AllRenamed(s.curs, key, x.key));
    SameAncestors(t, table.tree, table.header);
    AllFollowRenamed(ts, es, t, table.changes, table.tree, j, x, s.curs);
  }

  // ---------- Any step ----------

  /** The steps that move one traverser and leave the table alone. */
  predicate Moving(step: Step)
  {
    step.First? || step.Last? || step.Next? || step.Prev? || step.TravFind? || step.Copy?
  }

  lemma FlagSet(curs: seq<Cursor>, i: nat, place: Option<int>)
    requires i < |curs|
    ensures Flags(curs[i := At(place)]) == Flags(curs)[i := false]
  {
  }

  /** First, Last, Next and Prev. */
  method DoGo(table: Table, ts: seq<Traverser>, step: Step, ghost s: State, ghost n: nat)
    returns (r: Option<Item>, ghost s': State)
    requires step.First? || step.Last? || step.Next? || step.Prev?
    requires Linked(table, ts, s) && table.count <= MAX_ITEMS && ProperStep(step, |ts|)
    requires Usable(Flags(s.curs), step) && Behind(table, ts, n) && n < ULONG_RANGE - 1
    modifies ts[step.i]
    ensures Linked(table, ts, s') && StepOk(s, step, r, s') && ts[step.i].stamp == table.changes
    ensures Flags(s'.curs) == Flags(s.curs)[step.i := false]
  {
    var d := step.First? || step.Next?;
    if step.First? || step.Last? {
      r, s' := EdgeStep(table, ts, step.i, d, s);
    } else {
      BehindIsRecent(table, ts, n, step.i);
      r, s' := MoveStep(table, ts, step.i, d, s);
    }
    FlagSet(s.curs, step.i, s'.curs[step.i].place);
  }

  method DoMove(table: Table, ts: seq<Traverser>, step: Step, ghost s: State, ghost n: nat)
    returns (r: Option<Item>, ghost s': State)
    requires Moving(step) && Linked(table, ts, s) && table.count <= MAX_ITEMS && ProperStep(step, |ts|)
    requires Usable(Flags(s.curs), step) && Behind(table, ts, n) && n < ULONG_RANGE - 1
    modifies ts[step.i]
    ensures Linked(table, ts, s') && StepOk(s, step, r, s') && Behind(table, ts, n)
    ensures Flags(s'.curs) == Flags(s.curs)[step.i := false]
  {
    var i := step.i;
    if step.TravFind? {
      r := TravFindStep(table, ts, i, step.item, s);
      s' := s.(curs := s.curs[i := On(s.m, step.item.key)]);
    } else if step.Copy? {
      r := CopyStep(table, ts, i, step.j, s);
      s' := s.(curs := s.curs[i := s.curs[step.j]]);
    } else {
      r, s' := DoGo(table, ts, step, s, n);
    }
  }

  /** The steps that only look. */
  predicate Looking(step: Step)
  {
    step.Lookup? || step.Current?
  }

  method DoLook(table: Table, ts: seq<Traverser>, step: Step, ghost s: State) returns (r: Option<Item>)
    requires Looking(step) && Linked(table, ts, s) && ProperStep(step, |ts|) && Usable(Flags(s.curs), step)
    ensures StepOk(s, step, r, s)
  {
    match step {
      case Lookup(x) => r := LookupStep(table, x, s.m);
      case Current(i) => r := CurrentStep(table, ts, i, s);
    }
  }

  /** rb_t_replace, unless there is no current item or the order forbids it. */
  method DoReplace(table: Table, ts: seq<Traverser>, i: nat, x: Item, ghost s: State, ghost n: nat)
    returns (r: Option<Item>, ghost s': State)
    requires Linked(table, ts, s) && table.count <= MAX_ITEMS && i < |ts| && x.handle != 0 && s.curs[i].At?
    requires Behind(table, ts, n) && n < ULONG_RANGE - 1
    modifies table, Nodes(table.tree)
    ensures Linked(table, ts, s') && StepOk(s, ReplaceCurrent(i, x), r, s') && Flags(s'.curs) == Flags(s.curs)
    ensures Nodes(table.tree) == old(Nodes(table.tree)) && table.changes == old(table.changes)
  {
    assert allocated(Nodes(table.tree));
    StandsValid(table, ts[i], s.curs[i].place);
    BehindIsRecent(table, ts, n, i);
    r, s' := None, s;
    if ts[i].node != null {
      ghost var key := s.curs[i].place.value;
      var b := MayReplace(table, ts[i], x, s.m, key);
      if b {
        r, s' := ReplaceStep(table, ts, i, x, s, key);
      }
    }
  }

  /** The steps that may change the table. */
  method DoChange(table: Table, ts: seq<Traverser>, lost: seq<bool>, step: Step, ghost s: State, ghost n: nat)
    returns (r: Option<Item>, lost': seq<bool>, ghost s': State)
    requires !Moving(step) && !Looking(step) && Linked(table, ts, s) && lost == Flags(s.curs)
    requires table.count <= MAX_ITEMS && ProperStep(step, |ts|) && Usable(lost, step)
    requires Behind(table, ts, n) && n < ULONG_RANGE - 1
    modifies ts, table, {table.header} + Nodes(table.tree)
    ensures Linked(table, ts, s') && StepOk(s, step, r, s') && lost' == Flags(s'.curs) && Behind(table, ts, n + 1)
    ensures fresh(Nodes(table.tree) - old(Nodes(table.tree)))
  {
    ghost var ns := Nodes(table.tree);
    assert allocated(ns);
    lost' := lost;
    match step {
      case Change(op) =>
        r, lost', s' := DoOp(table, ts, lost, op, s);
        assert fresh(Nodes(table.tree) - ns);
      case TravInsert(i, x, memory) =>
        r := TravInsertStep(table, ts, i, x, memory, s);
        ghost var m := Apply(s.m, InsertOp(x, memory));
        s' := State(m, s.curs[i := On(m, x.key)]);
        lost' := lost[i := false];
        assert fresh(Nodes(table.tree) - ns);
      case ReplaceCurrent(i, x) =>
        r, s' := DoReplace(table, ts, i, x, s, n);
        assert Nodes(table.tree) - ns == {};
    }
  }

  /** Any one step of a program that uses a table and traversers. */
  method DoStep(table: Table, ts: seq<Traverser>, lost: seq<bool>, step: Step, ghost s: State, ghost n: nat)
    returns (r: Option<Item>, lost': seq<bool>, ghost s': State)
    requires Linked(table, ts, s) && lost == Flags(s.curs) && table.count <= MAX_ITEMS && ProperStep(step, |ts|)
    requires Behind(table, ts, n) && n < ULONG_RANGE - 1
    modifies ts, table, {table.header} + Nodes(table.tree)
    ensures Linked(table, ts, s') && StepOk(s, step, r, s') && lost' == Flags(s'.curs) && Behind(table, ts, n + 1)
    ensures fresh(Nodes(table.tree) - old(Nodes(table.tree)))
  {
    ghost var ns := Nodes(table.tree);
    assert allocated(ns);
    r, lost', s' := None, lost, s;
    if !Usable(lost, step) {
      assert Nodes(table.tree) - ns == {};
    } else if Moving(step) {
      r, s' := DoMove(table, ts, step, s, n);
      lost' := lost[step.i := false];
      assert Nodes(table.tree) - ns == {};
    } else if Looking(step) {
      r := DoLook(table, ts, step, s);
      assert Nodes(table.tree) - ns == {};
    } else {
      r, lost', s' := DoChange(table, ts, lost, step, s, n);
      assert fresh(Nodes(table.tree) - ns);
    }
  }

  // ---------- Runs ----------

  ghost function KeySet(es: seq<Entry>): set<int>
  {
    if es == [] then {} else KeySet(es[..|es| - 1]) + {es[|es| - 1].item.key}
  }

  lemma {:induction false} KeySetSize(es: seq<Entry>)
    requires Sorted(es)
    ensures |KeySet(es)| == |es| && forall k :: k in KeySet(es) <==> HasKey(es, k)
  {
    if es != [] {
      var n := |es| - 1;
      KeySetSize(es[..n]);
      assert forall i :: 0 <= i < n ==> es[..n][i] == es[i];
      forall k ensures k in KeySet(es) <==> HasKey(es, k)
      {
        if HasKey(es, k) {
          var i :| 0 <= i < |es| && es[i].item.key == k;
          if i < n { assert es[..n][i].item.key == k; }
        }
      }
    }
  }

  /** The table counts the items of the map. */
  lemma SizesAgree(es: seq<Entry>, m: map<int, Item>)
    requires Sorted(es) && Agrees(es, m)
    ensures |m| == |es|
  {
    KeySetSize(es);
    forall k ensures k in m.Keys <==> k in KeySet(es)
    {
      assert k in m <==> HasKey(es, k);
    }
    assert m.Keys == KeySet(es);
  }

  /** n traversers on a table, all at the null item. */
  method NewTraversers(table: Table, n: nat) returns (ts: seq<Traverser>)
    requires table.Valid() && Agrees(table.Entries(), map[])
    ensures |ts| == n && fresh(ts) && Linked(table, ts, Start(n)) && Behind(table, ts, 0)
  {
    assert allocated(Nodes(table.tree));
    ts := [];
    for k := 0 to n
      invariant |ts| == k && fresh(ts) && Linked(table, ts, Start(k)) && Behind(table, ts, 0)
    {
      var trav := new Traverser(table);
      ts := ts + [trav];
    }
  }

  /** Every run, from an empty table and n traversers at the null item on, delivers what the abstract machine
      delivers, as long as there are no more items than the stacks can take and fewer than 2^64 steps. */
  method RunSteps(steps: seq<Step>, n: nat) returns (outs: seq<Option<Item>>, ghost hist: seq<State>)
    requires |steps| < ULONG_RANGE - 1 && forall i :: 0 <= i < |steps| ==> ProperStep(steps[i], n)
    ensures Ran(steps, n, outs, hist)
    ensures |outs| < |steps| ==> |hist[|outs|].m| > MAX_ITEMS
  {
    var table := new Table();
    var ts := NewTraversers(table, n);
    var lost := seq(n, _ => false);
    outs := [];
    hist := [Start(n)];
    var k := 0;
    while k < |steps| && table.count <= MAX_ITEMS
      invariant fresh(table) && fresh(ts) && fresh(table.header) && fresh(Nodes(table.tree))
      invariant 0 <= k <= |steps| && |outs| == k && Ran(steps, n, outs, hist)
      invariant Linked(table, ts, hist[k]) && lost == Flags(hist[k].curs) && Behind(table, ts, k)
    {
      ghost var ns := Nodes(table.tree);
      label Before:
      var r, lost', s' := DoStep(table, ts, lost, steps[k], hist[k], k);
      forall x | x in Nodes(table.tree) ensures fresh(x)
      {
        if x in ns {
          assert fresh(x);
        } else {
          assert x in Nodes(table.tree) - ns;
          assert fresh@Before(x);
          assert fresh(x);
        }
      }
      RanNext(steps, n, outs, hist, r, s');
      outs, hist, lost, k := outs + [r], hist + [s'], lost', k + 1;
    }
    SizesAgree(table.Entries(), hist[k].m);
  }
}

/** The abstract machine for programs that use a table and traversers: a finite map with cursors. */
module RbCursors {
  import opened Options
  import opened RbTree

  // ---------- The map ----------

  datatype Op =
    | InsertOp(item: Item, memory: bool)
    | ReplaceOp(item: Item, memory: bool)
    | DeleteOp(item: Item)

  ghost function Apply(m: map<int, Item>, op: Op): map<int, Item>
  {
    match op
    case InsertOp(x, memory) => if x.key in m || !memory then m else m[x.key := x]
    case ReplaceOp(x, memory) => if x.key in m || memory then m[x.key := x] else m
    case DeleteOp(x) => m - {x.key}
  }

  /** What rb_insert, rb_replace and rb_delete return. */
  ghost function Returned(m: map<int, Item>, op: Op): Option<Item>
  {
    if op.item.key !in m || (!op.DeleteOp? && m[op.item.key] == op.item) then None else Some(m[op.item.key])
  }

  ghost function Get(m: map<int, Item>, key: int): Option<Item>
  {
    if key in m then Some(m[key]) else None
  }

  // ---------- Steps ----------

  /** i and j are the numbers of traversers. */
  datatype Step =
    | Change(op: Op)
    | Lookup(item: Item)
    | First(i: nat)
    | Last(i: nat)
    | Next(i: nat)
    | Prev(i: nat)
    | TravFind(i: nat, item: Item)
    | TravInsert(i: nat, item: Item, memory: bool)
    | Copy(i: nat, j: nat)
    | Current(i: nat)
    | ReplaceCurrent(i: nat, item: Item)

  /** Items are not null, and there are n traversers. */
  predicate ProperStep(step: Step, n: nat)
  {
    match step
    case Change(op) => op.item.handle != 0
    case Lookup(x) => x.handle != 0
    case TravFind(i, x) => i < n && x.handle != 0
    case TravInsert(i, x, _) => i < n && x.handle != 0
    case Copy(i, j) => i < n && j < n
    case ReplaceCurrent(i, x) => i < n && x.handle != 0
    case _ => step.i < n
  }

  /** Where a traverser stands: at the item with a key, at the null item, or at an item that was deleted. */
  datatype Cursor = At(place: Option<int>) | Lost

  datatype State = State(m: map<int, Item>, curs: seq<Cursor>)

  function Flags(curs: seq<Cursor>): (r: seq<bool>)
    ensures |r| == |curs|
  {
    seq(|curs|, i requires 0 <= i < |curs| => curs[i].Lost?)
  }

  /** A traverser whose item was deleted may only be set anew. */
  predicate Usable(lost: seq<bool>, step: Step)
    requires ProperStep(step, |lost|)
  {
    match step
    case Next(i) => !lost[i]
    case Prev(i) => !lost[i]
    case Current(i) => !lost[i]
    case ReplaceCurrent(i, _) => !lost[i]
    case Copy(i, j) => !lost[j]
    case _ => true
  }

  /** The item under a cursor. */
  ghost function Under(m: map<int, Item>, place: Option<int>): Option<Item>
  {
    if place.None? then None else Get(m, place.value)
  }

  /** The cursor on a key, which is at the null item when no item has the key. */
  ghost function On(m: map<int, Item>, key: int): Cursor
  {
    At(if key in m then Some(key) else None)
  }

  /** x is further than the place in direction d. */
  ghost predicate Beyond(place: Option<int>, d: bool, x: int)
  {
    place.None? || (if d then x > place.value else x < place.value)
  }

  /** to is the nearest key beyond the place, or None if there is none. */
  ghost predicate Nearest(m: map<int, Item>, place: Option<int>, d: bool, to: Option<int>)
  {
    if to.None? then forall x :: x in m ==> !Beyond(place, d, x)
    else
      && to.value in m && Beyond(place, d, to.value)
      && (forall x :: x in m && Beyond(place, d, x) ==> if d then to.value <= x else x <= to.value)
  }

  /** Cursor i goes to the nearest key beyond `from`; nothing else changes. */
  ghost predicate Goes(s: State, i: nat, from: Option<int>, d: bool, out: Option<Item>, s': State)
    requires i < |s.curs|
  {
    && |s'.curs| == |s.curs| && s' == s.(curs := s.curs[i := s'.curs[i]]) && s'.curs[i].At?
    && Nearest(s.m, from, d, s'.curs[i].place) && out == Under(s.m, s'.curs[i].place)
  }

  /** A cursor after the item with the key, if any, has been deleted. */
  function Struck(cur: Cursor, key: Option<int>): Cursor
  {
    if key.Some? && cur == At(key) then Lost else cur
  }

  function AllStruck(curs: seq<Cursor>, key: Option<int>): (r: seq<Cursor>)
    ensures |r| == |curs|
  {
    seq(|curs|, i requires 0 <= i < |curs| => Struck(curs[i], key))
  }

  /** A cursor after the item with key a has been exchanged for one with key b. */
  function Renamed(cur: Cursor, a: int, b: int): Cursor
  {
    if cur == At(Some(a)) then At(Some(b)) else cur
  }

  function AllRenamed(curs: seq<Cursor>, a: int, b: int): (r: seq<Cursor>)
    ensures |r| == |curs|
  {
    seq(|curs|, i requires 0 <= i < |curs| => Renamed(curs[i], a, b))
  }

  /** Key b has the same place among the other keys as key a. */
  ghost predicate Fits(m: map<int, Item>, a: int, b: int)
  {
    forall k :: k in m && k != a ==> k != b && (k < a <==> k < b)
  }

  /** One step of the abstract machine. Three things are not performed: the use of a traverser whose item was
      deleted, which is undefined; a replacement at the null item, which is an assertion; and a replacement
      that would break the order, which is forbidden. */
  ghost predicate StepOk(s: State, step: Step, out: Option<Item>, s': State)
    requires ProperStep(step, |s.curs|)
  {
    if !Usable(Flags(s.curs), step) then out == None && s' == s
    else
      match step
      case Change(op) =>
        && out == Returned(s.m, op)
        && s' == State(Apply(s.m, op), AllStruck(s.curs, if op.DeleteOp? then Some(op.item.key) else None))
      case Lookup(x) => out == Get(s.m, x.key) && s' == s
      case First(i) => Goes(s, i, None, true, out, s')
      case Last(i) => Goes(s, i, None, false, out, s')
      case Next(i) => Goes(s, i, s.curs[i].place, true, out, s')
      case Prev(i) => Goes(s, i, s.curs[i].place, false, out, s')
      case TravFind(i, x) => out == Get(s.m, x.key) && s' == s.(curs := s.curs[i := On(s.m, x.key)])
      case TravInsert(i, x, memory) =>
        var m := Apply(s.m, InsertOp(x, memory));
        out == Get(m, x.key) && s' == State(m, s.curs[i := On(m, x.key)])
      case Copy(i, j) => out == Under(s.m, s.curs[j].place) && s' == s.(curs := s.curs[i := s.curs[j]])
      case Current(i) => out == Under(s.m, s.curs[i].place) && s' == s
      case ReplaceCurrent(i, x) =>
        var place := s.curs[i].place;
        if place.Some? && Fits(s.m, place.value, x.key) then
          && out == Get(s.m, place.value)
          && s' == State((s.m - {place.value})[x.key := x], AllRenamed(s.curs, place.value, x.key))
        else out == None && s' == s
  }

  lemma StepDeterministic(s: State, step: Step, o1: Option<Item>, s1: State, o2: Option<Item>, s2: State)
    requires ProperStep(step, |s.curs|) && StepOk(s, step, o1, s1) && StepOk(s, step, o2, s2)
    ensures o1 == o2 && s1 == s2
  {
  }

  // ---------- Runs ----------

  /** The empty map, and n cursors on the null item. */
  ghost function Start(n: nat): State
  {
    State(map[], seq(n, _ => At(None)))
  }

  /** The abstract machine goes through hist and delivers outs for the first steps. */
  ghost predicate Ran(steps: seq<Step>, n: nat, outs: seq<Option<Item>>, hist: seq<State>)
  {
    && |outs| <= |steps| && |hist| == |outs| + 1 && hist[0] == Start(n)
    && (forall i :: 0 <= i < |steps| ==> ProperStep(steps[i], n))
    && (forall i :: 0 <= i <= |outs| ==> |hist[i].curs| == n)
    && (forall i :: 0 <= i < |outs| ==> StepOk(hist[i], steps[i], outs[i], hist[i + 1]))
  }

  lemma RanNext(steps: seq<Step>, n: nat, outs: seq<Option<Item>>, hist: seq<State>, r: Option<Item>, s': State)
    requires Ran(steps, n, outs, hist) && |outs| < |steps| && |s'.curs| == n
    requires StepOk(hist[|outs|], steps[|outs|], r, s')
    ensures Ran(steps, n, outs + [r], hist + [s'])
  {
  }

  /** The same steps give the same answers. */
  lemma {:induction false} RanDeterministic(steps: seq<Step>, n: nat, o1: seq<Option<Item>>, h1: seq<State>,
                                            o2: seq<Option<Item>>, h2: seq<State>, k: nat)
    requires Ran(steps, n, o1, h1) && Ran(steps, n, o2, h2) && k <= |o1| && k <= |o2|
    ensures o1[..k] == o2[..k] && h1[..k + 1] == h2[..k + 1]
    decreases k
  {
    if k > 0 {
      RanDeterministic(steps, n, o1, h1, o2, h2, k - 1);
      assert h1[k - 1] == h1[..k][k - 1] == h2[..k][k - 1] == h2[k - 1];
      StepDeterministic(h1[k - 1], steps[k - 1], o1[k - 1], h1[k], o2[k - 1], h2[k]);
      assert o1[..k] == o1[..k - 1] + [o1[k - 1]] && o2[..k] == o2[..k - 1] + [o2[k - 1]];
      assert h1[..k + 1] == h1[..k] + [h1[k]] && h2[..k + 1] == h2[..k] + [h2[k]];
    }
  }
}

/** How the argp tree becomes the row of groups: calc_sizes, convert_options and the inputs that parser_init
    hands down. */
module ArgpConvert {
  import opened Options
  import opened ArgpTypes

  // ---------- The tree ----------

  predicate NeedsGroup(a: Argp)
  {
    a.options.Some? || a.hasParser
  }

  /** Where an argp stands in the tree: the child numbers on the way to it, and the argp above it. */
  datatype Place = Place(path: seq<nat>, argp: Argp, above: Option<Argp>)

  /** All argps of a tree in pre-order. */
  function Places(a: Argp, path: seq<nat>, above: Option<Argp>): seq<Place>
    decreases a, |a.children| + 1
  {
    [Place(path, a, above)] + PlacesBelow(a, path, 0)
  }

  /** Those below child number i and the children after it. */
  function PlacesBelow(a: Argp, path: seq<nat>, i: nat): seq<Place>
    requires i <= |a.children|
    decreases a, |a.children| - i
  {
    if i == |a.children| then []
    else Places(a.children[i], path + [i], Some(a)) + PlacesBelow(a, path, i + 1)
  }

  /** The places that get a group. */
  function Grouped(ps: seq<Place>): seq<Place>
  {
    if ps == [] then []
    else (if NeedsGroup(ps[0].argp) then [ps[0]] else []) + Grouped(ps[1..])
  }

  /** struct group, as convert_options fills it: the parent's index, and where its child_inputs begin. */
  datatype Group = Group(argp: Argp, parent: Option<nat>, parentIndex: nat, inputs: nat)

  // ---------- calc_sizes ----------

  function NumGroups(a: Argp): nat
    decreases a, |a.children| + 1
  {
    (if NeedsGroup(a) then 1 else 0) + NumGroupsBelow(a, 0)
  }

  function NumGroupsBelow(a: Argp, i: nat): nat
    requires i <= |a.children|
    decreases a, |a.children| - i
  {
    if i == |a.children| then 0 else NumGroups(a.children[i]) + NumGroupsBelow(a, i + 1)
  }

  function NumInputs(a: Argp, i: nat): nat
    requires i <= |a.children|
    decreases a, |a.children| - i
  {
    if i == |a.children| then 0 else NumInputs(a.children[i], 0) + 1 + NumInputs(a, i + 1)
  }

  /** struct parser_sizes. */
  class Sizes {
    var numGroups: nat
    var numChildInputs: nat

    constructor ()
      ensures numGroups == 0 && numChildInputs == 0
    {
      numGroups, numChildInputs := 0, 0;
    }

    /** calc_sizes. */
    method Calc(a: Argp)
      modifies this
      ensures numGroups == old(numGroups) + NumGroups(a)
      ensures numChildInputs == old(numChildInputs) + NumInputs(a, 0)
      decreases a
    {
      if NeedsGroup(a) { numGroups := numGroups + 1; }
      for i := 0 to |a.children|
        invariant numGroups + NumGroupsBelow(a, i) == old(numGroups) + NumGroups(a)
        invariant numChildInputs + NumInputs(a, i) == old(numChildInputs) + NumInputs(a, 0)
      {
        Calc(a.children[i]);
        numChildInputs := numChildInputs + 1;
      }
    }
  }

  // ---------- convert_options ----------

  /** The groups of a tree whose first group has index g and whose child inputs begin at inputs. */
  function Convert(a: Argp, parent: Option<nat>, index: nat, g: nat, inputs: nat): (seq<Group>, nat)
    decreases a, |a.children| + 1
  {
    if NeedsGroup(a) then
      var r := ConvertBelow(a, Some(g), 0, g + 1, inputs + |a.children|);
      ([Group(a, parent, index, inputs)] + r.0, r.1)
    else ConvertBelow(a, None, 0, g, inputs)
  }

  function ConvertBelow(a: Argp, parent: Option<nat>, i: nat, g: nat, inputs: nat): (seq<Group>, nat)
    requires i <= |a.children|
    decreases a, |a.children| - i
  {
    if i == |a.children| then ([], inputs)
    else
      var r := Convert(a.children[i], parent, i, g, inputs);
      var r' := ConvertBelow(a, parent, i + 1, g + |r.0|, r.1);
      (r.0 + r'.0, r'.1)
  }

  /** The row is exactly as long as calc_sizes says, and no more child inputs are handed out than it says. */
  lemma {:induction false} SizesSuffice(a: Argp, parent: Option<nat>, index: nat, g: nat, inputs: nat)
    ensures var r := Convert(a, parent, index, g, inputs);
      |r.0| == NumGroups(a) && inputs <= r.1 <= inputs + NumInputs(a, 0)
    decreases a, |a.children| + 1
  {
    if NeedsGroup(a) {
      SizesBelow(a, Some(g), 0, g + 1, inputs + |a.children|);
    } else {
      SizesBelow(a, None, 0, g, inputs);
    }
  }

  /** The inputs still to be counted by calc_sizes include one per remaining child. */
  lemma {:induction false} SizesBelow(a: Argp, parent: Option<nat>, i: nat, g: nat, inputs: nat)
    requires i <= |a.children|
    ensures var r := ConvertBelow(a, parent, i, g, inputs);
      |r.0| == NumGroupsBelow(a, i) && inputs <= r.1 <= inputs + NumInputs(a, i) - (|a.children| - i)
    decreases a, |a.children| - i
  {
    if i < |a.children| {
      SizesSuffice(a.children[i], parent, i, g, inputs);
      var r := Convert(a.children[i], parent, i, g, inputs);
      SizesBelow(a, parent, i + 1, g + |r.0|, r.1);
    }
  }

  /** struct parser_convert_state with the tables it fills. */
  class Converter {
    const groups: array<Group>
    var childInputsEnd: nat

    constructor (size: nat)
      ensures groups.Length == size && childInputsEnd == 0 && fresh(groups)
    {
      groups := new Group[size](_ => Group(Argp(None, false, None, []), None, 0, 0));
      childInputsEnd := 0;
    }

    /** convert_options: fills the row from index group on and returns the next free index. */
    method ConvertOptions(a: Argp, parent: Option<nat>, index: nat, group: nat) returns (next: nat)
      requires group + NumGroups(a) <= groups.Length
      modifies this, groups
      ensures var r := Convert(a, parent, index, group, old(childInputsEnd));
        next == group + |r.0| <= groups.Length && childInputsEnd == r.1 && groups[..next] == old(groups[..group]) + r.0
      decreases a, 1
    {
      if NeedsGroup(a) {
        ghost var before := groups[..group];
        groups[group] := Group(a, parent, index, childInputsEnd);
        childInputsEnd := childInputsEnd + |a.children|;
        assert groups[..group + 1] == before + [groups[group]];
        next := ConvertChildren(a, Some(group), group + 1);
      } else {
        next := ConvertChildren(a, None, group);
      }
    }

    method ConvertChildren(a: Argp, parent: Option<nat>, group: nat) returns (next: nat)
      requires group + NumGroupsBelow(a, 0) <= groups.Length
      modifies this, groups
      ensures var r := ConvertBelow(a, parent, 0, group, old(childInputsEnd));
        next == group + |r.0| <= groups.Length && childInputsEnd == r.1 && groups[..next] == old(groups[..group]) + r.0
      decreases a, 0
    {
      next := group;
      ghost var base, done: seq<Group> := groups[..group], [];
      ghost var goal := ConvertBelow(a, parent, 0, group, childInputsEnd);
      assert done + goal.0 == goal.0;
      for i := 0 to |a.children|
        invariant next == group + |done| <= groups.Length && groups[..next] == base + done
        invariant next + NumGroupsBelow(a, i) <= groups.Length
        invariant Rest(a, parent, i, next, childInputsEnd, done, goal)
      {
        RestStep(a, parent, i, next, childInputsEnd, done, goal);
        done := done + Convert(a.children[i], parent, i, next, childInputsEnd).0;
        SizesSuffice(a.children[i], parent, i, next, childInputsEnd);
        next := ConvertOptions(a.children[i], parent, i, next);
      }
    }
  }

  /** After done, what the children from i on give completes goal. */
  ghost predicate Rest(a: Argp, parent: Option<nat>, i: nat, g: nat, inputs: nat, done: seq<Group>,
                       goal: (seq<Group>, nat))
    requires i <= |a.children|
  {
    done + ConvertBelow(a, parent, i, g, inputs).0 == goal.0 && ConvertBelow(a, parent, i, g, inputs).1 == goal.1
  }

  lemma {:induction false} RestStep(a: Argp, parent: Option<nat>, i: nat, g: nat, inputs: nat, done: seq<Group>,
                                    goal: (seq<Group>, nat))
    requires i < |a.children| && Rest(a, parent, i, g, inputs, done, goal)
    ensures var r := Convert(a.children[i], parent, i, g, inputs);
      Rest(a, parent, i + 1, g + |r.0|, r.1, done + r.0, goal)
  {
    var r := Convert(a.children[i], parent, i, g, inputs);
    var r' := ConvertBelow(a, parent, i + 1, g + |r.0|, r.1);
    assert done + (r.0 + r'.0) == (done + r.0) + r'.0;
  }

  // ---------- Pre-order, parents and slots ----------

  lemma {:induction false} GroupedConcat(p: seq<Place>, q: seq<Place>)
    ensures Grouped(p + q) == Grouped(p) + Grouped(q)
  {
    if p == [] {
      assert p + q == q;
    } else {
      assert (p + q)[1..] == p[1..] + q;
      GroupedConcat(p[1..], q);
    }
  }

  /** Group k of a row that begins at index g is that of place k, whose parent group, if the argp above it
      has a group, stands earlier in the row; otherwise there is no parent. */
  predicate Hung(gs: seq<Group>, ps: seq<Place>, g: nat, k: nat)
    requires |gs| == |ps| && k < |gs|
  {
    && ps[k].above.Some? && |ps[k].path| > 0
    && gs[k].parentIndex == ps[k].path[|ps[k].path| - 1]
    && gs[k].parent.Some? == NeedsGroup(ps[k].above.value)
    && (gs[k].parent.Some? ==>
          && g <= gs[k].parent.value < g + k
          && ps[gs[k].parent.value - g].path == ps[k].path[..|ps[k].path| - 1]
          && ps[gs[k].parent.value - g].argp == ps[k].above.value)
  }

  /** The row of a tree at path: its own group has the given parent and index, the others hang below it. */
  predicate FitsTree(gs: seq<Group>, ps: seq<Place>, g: nat, path: seq<nat>, above: Option<Argp>, parent: Option<nat>,
                     index: nat)
  {
    |gs| == |ps| && forall k :: 0 <= k < |gs| ==> TreeAt(gs, ps, g, path, above, parent, index, k)
  }

  predicate TreeAt(gs: seq<Group>, ps: seq<Place>, g: nat, path: seq<nat>, above: Option<Argp>, parent: Option<nat>,
                   index: nat, k: nat)
    requires |gs| == |ps| && k < |gs|
  {
    && gs[k].argp == ps[k].argp && NeedsGroup(ps[k].argp) && path <= ps[k].path
    && (if ps[k].path == path then ps[k].above == above && gs[k].parent == parent && gs[k].parentIndex == index
        else Hung(gs, ps, g, k))
  }

  /** The row of the children of a from number i on. */
  predicate FitsBelow(gs: seq<Group>, ps: seq<Place>, g: nat, path: seq<nat>, a: Argp, parent: Option<nat>, i: nat)
  {
    |gs| == |ps| && forall k :: 0 <= k < |gs| ==> BelowAt(gs, ps, g, path, a, parent, i, k)
  }

  predicate BelowAt(gs: seq<Group>, ps: seq<Place>, g: nat, path: seq<nat>, a: Argp, parent: Option<nat>, i: nat,
                    k: nat)
    requires |gs| == |ps| && k < |gs|
  {
    && gs[k].argp == ps[k].argp && NeedsGroup(ps[k].argp) && path < ps[k].path && ps[k].path[|path|] >= i
    && (if |ps[k].path| == |path| + 1
        then ps[k].above == Some(a) && gs[k].parent == parent && gs[k].parentIndex == ps[k].path[|path|]
        else Hung(gs, ps, g, k))
  }

  lemma HungShift(gs: seq<Group>, ps: seq<Place>, g: nat, gs0: seq<Group>, ps0: seq<Place>, gs1: seq<Group>,
                  ps1: seq<Place>, k: nat)
    requires |gs| == |ps| && |gs0| == |ps0| && |gs1| == |ps1| && k < |gs|
    requires Hung(gs, ps, g + |gs0|, k)
    ensures Hung(gs0 + gs + gs1, ps0 + ps + ps1, g, |gs0| + k)
  {
  }

  lemma {:induction false} TreeFits(a: Argp, path: seq<nat>, above: Option<Argp>, parent: Option<nat>, index: nat,
                                    g: nat, inputs: nat)
    ensures FitsTree(Convert(a, parent, index, g, inputs).0, Grouped(Places(a, path, above)),
                     g, path, above, parent, index)
    decreases a, |a.children| + 1
  {
    var below := Grouped(PlacesBelow(a, path, 0));
    assert Places(a, path, above)[1..] == PlacesBelow(a, path, 0);
    if NeedsGroup(a) {
      BelowFits(a, path, Some(g), 0, g + 1, inputs + |a.children|);
      var gs := ConvertBelow(a, Some(g), 0, g + 1, inputs + |a.children|).0;
      RootFits(gs, below, g, path, a, above, parent, index, inputs);
    } else {
      assert [] + below == below;
      BelowFits(a, path, None, 0, g, inputs);
      BareFits(ConvertBelow(a, None, 0, g, inputs).0, below, g, path, a, above, parent, index);
    }
  }

  lemma BareFits(gs: seq<Group>, ps: seq<Place>, g: nat, path: seq<nat>, a: Argp, above: Option<Argp>,
                 parent: Option<nat>, index: nat)
    requires !NeedsGroup(a) && FitsBelow(gs, ps, g, path, a, None, 0)
    ensures FitsTree(gs, ps, g, path, above, parent, index)
  {
    forall k | 0 <= k < |gs|
      ensures TreeAt(gs, ps, g, path, above, parent, index, k)
    {
      assert BelowAt(gs, ps, g, path, a, None, 0, k);
    }
  }

  lemma RootFits(gs: seq<Group>, ps: seq<Place>, g: nat, path: seq<nat>, a: Argp, above: Option<Argp>,
                 parent: Option<nat>, index: nat, inputs: nat)
    requires NeedsGroup(a) && FitsBelow(gs, ps, g + 1, path, a, Some(g), 0)
    ensures FitsTree([Group(a, parent, index, inputs)] + gs, [Place(path, a, above)] + ps,
                     g, path, above, parent, index)
  {
    forall k | 0 < k < |gs| + 1
      ensures TreeAt([Group(a, parent, index, inputs)] + gs, [Place(path, a, above)] + ps,
                     g, path, above, parent, index, k)
    {
      RootAt(gs, ps, g, path, a, above, parent, index, inputs, k - 1);
    }
  }

  lemma RootAt(gs: seq<Group>, ps: seq<Place>, g: nat, path: seq<nat>, a: Argp, above: Option<Argp>,
               parent: Option<nat>, index: nat, inputs: nat, k: nat)
    requires NeedsGroup(a) && |gs| == |ps| && k < |gs| && BelowAt(gs, ps, g + 1, path, a, Some(g), 0, k)
    ensures TreeAt([Group(a, parent, index, inputs)] + gs, [Place(path, a, above)] + ps,
                   g, path, above, parent, index, k + 1)
  {
    var gs0, ps0 := [Group(a, parent, index, inputs)], [Place(path, a, above)];
    if |ps[k].path| == |path| + 1 {
      assert ps[k].path[..|path|] == path;
    } else {
      assert gs0 + gs + [] == gs0 + gs && ps0 + ps + [] == ps0 + ps;
      HungShift(gs, ps, g, gs0, ps0, [], [], k);
    }
  }

  lemma {:induction false} BelowFits(a: Argp, path: seq<nat>, parent: Option<nat>, i: nat, g: nat, inputs: nat)
    requires i <= |a.children| && parent.Some? == NeedsGroup(a)
    ensures FitsBelow(ConvertBelow(a, parent, i, g, inputs).0, Grouped(PlacesBelow(a, path, i)), g, path, a, parent, i)
    decreases a, |a.children| - i
  {
    if i < |a.children| {
      var child := a.children[i];
      var r := Convert(child, parent, i, g, inputs);
      TreeFits(child, path + [i], Some(a), parent, i, g, inputs);
      BelowFits(a, path, parent, i + 1, g + |r.0|, r.1);
      GroupedConcat(Places(child, path + [i], Some(a)), PlacesBelow(a, path, i + 1));
      JoinFits(r.0, Grouped(Places(child, path + [i], Some(a))), ConvertBelow(a, parent, i + 1, g + |r.0|, r.1).0,
               Grouped(PlacesBelow(a, path, i + 1)), g, path, a, parent, i);
    }
  }

  lemma JoinFits(gs: seq<Group>, ps: seq<Place>, gs': seq<Group>, ps': seq<Place>, g: nat, path: seq<nat>, a: Argp,
                 parent: Option<nat>, i: nat)
    requires FitsTree(gs, ps, g, path + [i], Some(a), parent, i)
    requires FitsBelow(gs', ps', g + |gs|, path, a, parent, i + 1)
    ensures FitsBelow(gs + gs', ps + ps', g, path, a, parent, i)
  {
    forall k | 0 <= k < |gs + gs'|
      ensures BelowAt(gs + gs', ps + ps', g, path, a, parent, i, k)
    {
      if k < |gs| {
        JoinLow(gs, ps, gs', ps', g, path, a, parent, i, k);
      } else {
        JoinHigh(gs, ps, gs', ps', g, path, a, parent, i, k - |gs|);
      }
    }
  }

  lemma JoinLow(gs: seq<Group>, ps: seq<Place>, gs': seq<Group>, ps': seq<Place>, g: nat, path: seq<nat>, a: Argp,
                parent: Option<nat>, i: nat, k: nat)
    requires FitsTree(gs, ps, g, path + [i], Some(a), parent, i) && |gs'| == |ps'| && k < |gs|
    ensures BelowAt(gs + gs', ps + ps', g, path, a, parent, i, k)
  {
    assert TreeAt(gs, ps, g, path + [i], Some(a), parent, i, k);
    assert path + [i] <= ps[k].path && (path + [i])[|path|] == i;
    if ps[k].path != path + [i] {
      HungShift(gs, ps, g, [], [], gs', ps', k);
      assert [] + gs + gs' == gs + gs' && [] + ps + ps' == ps + ps';
    }
  }

  lemma JoinHigh(gs: seq<Group>, ps: seq<Place>, gs': seq<Group>, ps': seq<Place>, g: nat, path: seq<nat>, a: Argp,
                 parent: Option<nat>, i: nat, k: nat)
    requires |gs| == |ps| && FitsBelow(gs', ps', g + |gs|, path, a, parent, i + 1) && k < |gs'|
    ensures BelowAt(gs + gs', ps + ps', g, path, a, parent, i, |gs| + k)
  {
    assert BelowAt(gs', ps', g + |gs|, path, a, parent, i + 1, k);
    if |ps'[k].path| != |path| + 1 {
      HungShift(gs', ps', g, gs, ps, [], [], k);
      assert gs + gs' + [] == gs + gs' && ps + ps' + [] == ps + ps';
    }
  }

  // ---------- Every place once, every slice its own ----------

  predicate Distinct(ps: seq<Place>)
  {
    forall j, k :: 0 <= j < k < |ps| ==> ps[j].path != ps[k].path
  }

  lemma {:induction false} PlacesDistinct(a: Argp, path: seq<nat>, above: Option<Argp>)
    ensures Distinct(Places(a, path, above))
    ensures forall k :: 0 <= k < |Places(a, path, above)| ==> path <= Places(a, path, above)[k].path
    decreases a, |a.children| + 1
  {
    BelowDistinct(a, path, 0);
  }

  lemma {:induction false} BelowDistinct(a: Argp, path: seq<nat>, i: nat)
    requires i <= |a.children|
    ensures var ps := PlacesBelow(a, path, i);
      Distinct(ps) && forall k :: 0 <= k < |ps| ==> path < ps[k].path && ps[k].path[|path|] >= i
    decreases a, |a.children| - i
  {
    if i < |a.children| {
      PlacesDistinct(a.children[i], path + [i], Some(a));
      BelowDistinct(a, path, i + 1);
      var ps := Places(a.children[i], path + [i], Some(a));
      forall k | 0 <= k < |ps| ensures path < ps[k].path && ps[k].path[|path|] == i {
        assert path + [i] <= ps[k].path && (path + [i])[|path|] == i;
      }
    }
  }

  lemma {:induction false} GroupedDistinct(ps: seq<Place>)
    requires Distinct(ps)
    ensures Distinct(Grouped(ps)) && forall k :: 0 <= k < |Grouped(ps)| ==> Grouped(ps)[k] in ps
  {
    if ps != [] {
      GroupedDistinct(ps[1..]);
    }
  }

  /** The slices of child inputs follow one another between lo and hi. */
  predicate Consecutive(gs: seq<Group>, lo: nat, hi: nat)
  {
    && (forall k :: 0 <= k < |gs| ==> lo <= gs[k].inputs && gs[k].inputs + |gs[k].argp.children| <= hi)
    && (forall j, k :: 0 <= j < k < |gs| ==> gs[j].inputs + |gs[j].argp.children| <= gs[k].inputs)
  }

  lemma {:induction false} SlicesConsecutive(a: Argp, parent: Option<nat>, index: nat, g: nat, inputs: nat)
    ensures var r := Convert(a, parent, index, g, inputs); inputs <= r.1 && Consecutive(r.0, inputs, r.1)
    decreases a, |a.children| + 1
  {
    if NeedsGroup(a) {
      BelowConsecutive(a, Some(g), 0, g + 1, inputs + |a.children|);
    } else {
      BelowConsecutive(a, None, 0, g, inputs);
    }
  }

  lemma {:induction false} BelowConsecutive(a: Argp, parent: Option<nat>, i: nat, g: nat, inputs: nat)
    requires i <= |a.children|
    ensures var r := ConvertBelow(a, parent, i, g, inputs); inputs <= r.1 && Consecutive(r.0, inputs, r.1)
    decreases a, |a.children| - i
  {
    if i < |a.children| {
      SlicesConsecutive(a.children[i], parent, i, g, inputs);
      var r := Convert(a.children[i], parent, i, g, inputs);
      BelowConsecutive(a, parent, i + 1, g + |r.0|, r.1);
    }
  }

  // ---------- The whole tree ----------

  /** Where group k reads its input, if it has a parent group. */
  function Slot(gs: seq<Group>, k: nat): nat
    requires k < |gs| && gs[k].parent.Some? && gs[k].parent.value < |gs|
  {
    gs[gs[k].parent.value].inputs + gs[k].parentIndex
  }

  /** A child number on a path of the tree is a child of the argp above. */
  lemma {:induction false} PathBounds(a: Argp, path: seq<nat>, above: Option<Argp>)
    ensures forall k :: 0 < k < |Places(a, path, above)| ==> BelowSome(Places(a, path, above)[k])
    decreases a, |a.children| + 1
  {
    BelowBounds(a, path, 0);
  }

  predicate BelowSome(p: Place)
  {
    && p.above.Some? && |p.path| > 0
    && p.path[|p.path| - 1] < |p.above.value.children|
    && p.above.value.children[p.path[|p.path| - 1]] == p.argp
  }

  lemma {:induction false} BelowBounds(a: Argp, path: seq<nat>, i: nat)
    requires i <= |a.children|
    ensures forall k :: 0 <= k < |PlacesBelow(a, path, i)| ==> BelowSome(PlacesBelow(a, path, i)[k])
    decreases a, |a.children| - i
  {
    if i < |a.children| {
      PathBounds(a.children[i], path + [i], Some(a));
      BelowBounds(a, path, i + 1);
    }
  }

  /** What convert_options leaves behind for a whole tree. */
  ghost predicate Converted(a: Argp, gs: seq<Group>)
  {
    var ps := Grouped(Places(a, [], None));
    && |gs| == |ps| == NumGroups(a)
    && (forall k :: 0 <= k < |gs| ==> PlacedAt(gs, ps, k))
    && Consecutive(gs, 0, NumInputs(a, 0))
  }

  /** The root has no parent; every other group is child number parentIndex of the argp above it, and its
      parent is that argp's group, which comes earlier, if there is one. */
  predicate PlacedAt(gs: seq<Group>, ps: seq<Place>, k: nat)
    requires |gs| == |ps| && k < |gs|
  {
    && gs[k].argp == ps[k].argp
    && (if ps[k].path == [] then gs[k].parent.None? else Hung(gs, ps, 0, k) && BelowSome(ps[k]))
  }

  lemma {:induction false} ConvertTree(a: Argp)
    ensures Converted(a, Convert(a, None, 0, 0, 0).0)
  {
    var gs, all := Convert(a, None, 0, 0, 0).0, Places(a, [], None);
    var ps := Grouped(all);
    TreeFits(a, [], None, None, 0, 0, 0);
    SizesSuffice(a, None, 0, 0, 0);
    SlicesConsecutive(a, None, 0, 0, 0);
    PathBounds(a, [], None);
    PlacesDistinct(a, [], None);
    GroupedDistinct(all);
    forall k | 0 <= k < |gs| ensures PlacedAt(gs, ps, k) {
      assert TreeAt(gs, ps, 0, [], None, None, 0, k);
      var j :| 0 <= j < |all| && all[j] == ps[k];
    }
  }

  /** Every group with a parent reads a slot of its parent's slice, and no other group reads it. */
  lemma {:induction false} OwnSlots(a: Argp, gs: seq<Group>, k: nat)
    requires Converted(a, gs) && k < |gs| && gs[k].parent.Some?
    ensures gs[k].parent.value < k && gs[k].parentIndex < |gs[gs[k].parent.value].argp.children|
    ensures gs[gs[k].parent.value].argp.children[gs[k].parentIndex] == gs[k].argp
    ensures Slot(gs, k) < NumInputs(a, 0)
  {
    var ps := Grouped(Places(a, [], None));
    assert PlacedAt(gs, ps, k) && PlacedAt(gs, ps, gs[k].parent.value);
  }

  lemma SlotsApart(a: Argp, gs: seq<Group>, j: nat, k: nat)
    requires Converted(a, gs) && j < k < |gs| && gs[j].parent.Some? && gs[k].parent.Some?
    ensures gs[j].parent.value < |gs| && gs[k].parent.value < |gs| && Slot(gs, j) != Slot(gs, k)
  {
    OwnSlots(a, gs, j);
    OwnSlots(a, gs, k);
    var ps := Grouped(Places(a, [], None));
    assert PlacedAt(gs, ps, j) && PlacedAt(gs, ps, k);
    PlacesDistinct(a, [], None);
    GroupedDistinct(Places(a, [], None));
    if gs[j].parent == gs[k].parent && gs[j].parentIndex == gs[k].parentIndex {
      SamePath(ps[j].path, ps[k].path);
      assert false;
    }
  }

  lemma SamePath(p: seq<nat>, q: seq<nat>)
    requires |p| > 0 && |q| > 0 && p[..|p| - 1] == q[..|q| - 1] && p[|p| - 1] == q[|q| - 1]
    ensures p == q
  {
    assert p == p[..|p| - 1] + [p[|p| - 1]] && q == q[..|q| - 1] + [q[|q| - 1]];
  }

  /** parser_convert: the tables as parser_init allocates them hold the whole tree, exactly filled. */
  method ConvertAll(a: Argp) returns (gs: seq<Group>, inputs: nat)
    ensures gs == Convert(a, None, 0, 0, 0).0 && Converted(a, gs) && inputs == NumInputs(a, 0)
  {
    var sizes := new Sizes();
    sizes.Calc(a);
    var cvt := new Converter(sizes.numGroups);
    SizesSuffice(a, None, 0, 0, 0);
    var egroup := cvt.ConvertOptions(a, None, 0, 0);
    gs, inputs := cvt.groups[..], sizes.numChildInputs;
    ConvertTree(a);
  }

  // ---------- The inputs handed down by parser_init ----------

  /** The slice of group k in the pool of child inputs. */
  function Slice(gs: seq<Group>, pool: seq<int>, k: nat): seq<int>
    requires k < |gs| && gs[k].inputs + |gs[k].argp.children| <= |pool|
  {
    pool[gs[k].inputs..gs[k].inputs + |gs[k].argp.children|]
  }

  /** What group k's turn leaves in its slice, which was all 0 (the null pointer): its parser may write
      there; without a parser the first child gets the group's own input. */
  function Handed(a: Argp, k: nat, input: int, hand: (nat, int) -> seq<int>): seq<int>
  {
    if a.hasParser then (if |hand(k, input)| == |a.children| then hand(k, input) else seq(|a.children|, _ => 0))
    else if a.children == [] then []
    else [input] + seq(|a.children| - 1, _ => 0)
  }

  /** The input group k gets from the pool: its parent's slot, or what the caller of argp_parse supplied. */
  function InputOf(gs: seq<Group>, pool: seq<int>, k: nat, input: int): int
    requires k < |gs| && (gs[k].parent.Some? ==> gs[k].parent.value < |gs| && Slot(gs, k) < |pool|)
  {
    if gs[k].parent.Some? then pool[Slot(gs, k)] else if k == 0 then input else 0
  }

  /** Group j has had its turn: it has the input its parent left for it, and its slice is as it left it. */
  ghost predicate Served(gs: seq<Group>, pool: seq<int>, inputs: seq<int>, j: nat, input: int,
                         hand: (nat, int) -> seq<int>)
    requires j < |gs| && j < |inputs|
  {
    && (gs[j].parent.Some? ==> gs[j].parent.value < j && Slot(gs, j) < |pool|)
    && gs[j].inputs + |gs[j].argp.children| <= |pool|
    && inputs[j] == InputOf(gs, pool, j, input)
    && Slice(gs, pool, j) == Handed(gs[j].argp, j, inputs[j], hand)
  }

  /** Group j has not had its turn: its slice is as parser_init's memset left it. */
  predicate Blank(gs: seq<Group>, pool: seq<int>, j: nat)
    requires j < |gs|
  {
    gs[j].inputs + |gs[j].argp.children| <= |pool| && Slice(gs, pool, j) == seq(|gs[j].argp.children|, _ => 0)
  }

  function Written(pool: seq<int>, at: nat, vals: seq<int>): seq<int>
    requires at + |vals| <= |pool|
  {
    pool[..at] + vals + pool[at + |vals|..]
  }

  lemma {:induction false} ServedStays(a: Argp, gs: seq<Group>, pool: seq<int>, inputs: seq<int>, j: nat, k: nat,
                                       v: int, input: int, hand: (nat, int) -> seq<int>, vals: seq<int>)
    requires Converted(a, gs) && j < k < |gs| && |inputs| == k && |pool| == NumInputs(a, 0)
    requires Served(gs, pool, inputs, j, input, hand) && |vals| == |gs[k].argp.children|
    ensures gs[k].inputs + |vals| <= |pool|
    ensures Served(gs, Written(pool, gs[k].inputs, vals), inputs + [v], j, input, hand)
  {
    if gs[j].parent.Some? { OwnSlots(a, gs, j); }
    var pool' := Written(pool, gs[k].inputs, vals);
    assert pool'[..gs[k].inputs] == pool[..gs[k].inputs];
    assert Slice(gs, pool', j) == Slice(gs, pool, j);
  }

  lemma {:induction false} ServedNow(a: Argp, gs: seq<Group>, pool: seq<int>, inputs: seq<int>, k: nat, input: int,
                                     hand: (nat, int) -> seq<int>, vals: seq<int>)
    requires Converted(a, gs) && k < |gs| && |inputs| == k + 1 && |pool| == NumInputs(a, 0)
    requires gs[k].parent.Some? ==> gs[k].parent.value < |gs| && Slot(gs, k) < |pool|
    requires inputs[k] == InputOf(gs, pool, k, input) && vals == Handed(gs[k].argp, k, inputs[k], hand)
    ensures gs[k].inputs + |vals| <= |pool|
    ensures Served(gs, Written(pool, gs[k].inputs, vals), inputs, k, input, hand)
  {
    if gs[k].parent.Some? { OwnSlots(a, gs, k); }
  }

  lemma {:induction false} BlankStays(a: Argp, gs: seq<Group>, pool: seq<int>, j: nat, k: nat, vals: seq<int>)
    requires Converted(a, gs) && k < j < |gs| && |pool| == NumInputs(a, 0)
    requires Blank(gs, pool, j) && |vals| == |gs[k].argp.children|
    ensures gs[k].inputs + |vals| <= |pool| && Blank(gs, Written(pool, gs[k].inputs, vals), j)
  {
    var pool' := Written(pool, gs[k].inputs, vals);
    assert pool'[gs[k].inputs + |vals|..] == pool[gs[k].inputs + |vals|..];
    assert Slice(gs, pool', j) == Slice(gs, pool, j);
  }

  method Fill(pool: array<int>, at: nat, vals: seq<int>)
    requires at + |vals| <= pool.Length
    modifies pool
    ensures pool[..] == Written(old(pool[..]), at, vals)
  {
    for i := 0 to |vals|
      invariant forall p :: 0 <= p < pool.Length && !(at <= p < at + i) ==> pool[p] == old(pool[p])
      invariant forall p :: 0 <= p < i ==> pool[at + p] == vals[p]
    {
      pool[at + i] := vals[i];
    }
    assert forall p :: at <= p < at + |vals| ==> pool[p] == pool[at + (p - at)];
  }

  /** The turn of group k with its input. */
  method Turn(gs: seq<Group>, pool: array<int>, k: nat, mine: int, hand: (nat, int) -> seq<int>)
    requires k < |gs| && Blank(gs, pool[..], k)
    modifies pool
    ensures pool[..] == Written(old(pool[..]), gs[k].inputs, Handed(gs[k].argp, k, mine, hand))
  {
    var a, at := gs[k].argp, gs[k].inputs;
    assert old(pool[..]) == Written(old(pool[..]), at, seq(|a.children|, _ => 0));
    if a.hasParser {
      if |hand(k, mine)| == |a.children| { Fill(pool, at, hand(k, mine)); }
    } else if a.children != [] {
      pool[at] := mine;
      FirstSlot(old(pool[..]), pool[..], at, mine, |a.children|);
    }
  }

  lemma FirstSlot(pool: seq<int>, pool': seq<int>, at: nat, v: int, n: nat)
    requires 0 < n && at + n <= |pool| && pool[at..at + n] == seq(n, _ => 0) && pool' == pool[at := v]
    ensures pool' == Written(pool, at, [v] + seq(n - 1, _ => 0))
  {
    forall p | at <= p < at + n ensures pool[p] == 0 {
      assert pool[at..at + n][p - at] == 0;
    }
  }

  /** The loop of parser_init over the groups before an error stops it: when group k has its turn, its
      input is what its parent has left in the slot that is k's own. */
  method HandDown(a: Argp, gs: seq<Group>, pool: array<int>, input: int, hand: (nat, int) -> seq<int>, reached: nat)
    returns (inputs: seq<int>)
    requires Converted(a, gs) && reached <= |gs| && pool.Length == NumInputs(a, 0)
    requires forall i :: 0 <= i < pool.Length ==> pool[i] == 0
    modifies pool
    ensures |inputs| == reached
    ensures forall j :: 0 <= j < reached ==> Served(gs, pool[..], inputs, j, input, hand)
    ensures forall j :: reached <= j < |gs| ==> Blank(gs, pool[..], j)
  {
    inputs := [];
    for k := 0 to reached
      invariant |inputs| == k
      invariant forall j :: 0 <= j < k ==> Served(gs, pool[..], inputs, j, input, hand)
      invariant forall j :: k <= j < |gs| ==> Blank(gs, pool[..], j)
    {
      if gs[k].parent.Some? { OwnSlots(a, gs, k); }
      var mine :=
        if gs[k].parent.Some? then pool[gs[gs[k].parent.value].inputs + gs[k].parentIndex]
        else if k == 0 then input
        else 0;
      ghost var before, vals := pool[..], Handed(gs[k].argp, k, mine, hand);
      forall j | 0 <= j < k ensures Served(gs, Written(before, gs[k].inputs, vals), inputs + [mine], j, input, hand) {
        ServedStays(a, gs, before, inputs, j, k, mine, input, hand, vals);
      }
      forall j | k < j < |gs| ensures Blank(gs, Written(before, gs[k].inputs, vals), j) {
        BlankStays(a, gs, before, j, k, vals);
      }
      ServedNow(a, gs, before, inputs + [mine], k, input, hand, vals);
      Turn(gs, pool, k, mine, hand);
      inputs := inputs + [mine];
    }
  }

  /** Whose input is whose: the root has the caller's. A child of a group with a parser has what that parser put
      into the child's slot. A group without a parser passes its own input to its first child, and nothing to
      the others. */
  lemma {:induction false} InputMeaning(a: Argp, gs: seq<Group>, pool: seq<int>, inputs: seq<int>, input: int,
                                        hand: (nat, int) -> seq<int>, k: nat)
    requires Converted(a, gs) && |pool| == NumInputs(a, 0) && k < |inputs| <= |gs|
    requires forall j :: 0 <= j < |inputs| ==> Served(gs, pool, inputs, j, input, hand)
    ensures gs[k].parent.None? ==> inputs[k] == if k == 0 then input else 0
    ensures gs[k].parent.Some? ==>
      var j, i := gs[k].parent.value, gs[k].parentIndex;
      && j < k && i < |gs[j].argp.children|
      && (gs[j].argp.hasParser && |hand(j, inputs[j])| == |gs[j].argp.children| ==> inputs[k] == hand(j, inputs[j])[i])
      && (!gs[j].argp.hasParser ==> inputs[k] == if i == 0 then inputs[j] else 0)
  {
    assert Served(gs, pool, inputs, k, input, hand);
    if gs[k].parent.Some? {
      OwnSlots(a, gs, k);
      var j, i := gs[k].parent.value, gs[k].parentIndex;
      assert Served(gs, pool, inputs, j, input, hand);
      assert Slice(gs, pool, j)[i] == pool[Slot(gs, k)];
    }
  }
}

/** The help messages and the parser look short options up in different ways; when do they agree? */
module ArgpHelpLookup {
  import opened Options
  import opened ArgpTypes
  import opened ArgpHol
  import opened ArgpLookup
  import Convert = ArgpConvert
  import Machine = ArgpMachine

  // ---------- The parser's groups hold the same row of options ----------

  /** The groups that the parser works with, from those that convert_options makes. */
  function ParserGroups(gs: seq<Convert.Group>): seq<Machine.Group>
  {
    seq(|gs|, k requires 0 <= k < |gs| => Machine.Group(Own(gs[k].argp), gs[k].argp.hasParser))
  }

  function OptsOf(row: seq<(nat, Opt)>): seq<Opt>
  {
    seq(|row|, k requires 0 <= k < |row| => row[k].1)
  }

  function PlacesOpts(ps: seq<Convert.Place>): seq<Opt>
  {
    if ps == [] then [] else Own(ps[0].argp) + PlacesOpts(ps[1..])
  }

  lemma {:induction false} PlacesOptsConcat(p: seq<Convert.Place>, q: seq<Convert.Place>)
    ensures PlacesOpts(p + q) == PlacesOpts(p) + PlacesOpts(q)
  {
    if p == [] {
      assert p + q == q;
    } else {
      assert (p + q)[1..] == p[1..] + q;
      PlacesOptsConcat(p[1..], q);
    }
  }

  lemma {:induction false} PlacesInOrder(a: Argp, path: seq<nat>, above: Option<Argp>)
    ensures PlacesOpts(Convert.Places(a, path, above)) == AllOpts(a)
    decreases a, |a.children| + 1
  {
    BelowInOrder(a, path, 0);
    assert Convert.Places(a, path, above)[1..] == Convert.PlacesBelow(a, path, 0);
  }

  lemma {:induction false} BelowInOrder(a: Argp, path: seq<nat>, i: nat)
    requires i <= |a.children|
    ensures PlacesOpts(Convert.PlacesBelow(a, path, i)) == OptsBelow(a, i)
    decreases a, |a.children| - i
  {
    if i < |a.children| {
      PlacesInOrder(a.children[i], path + [i], Some(a));
      BelowInOrder(a, path, i + 1);
      PlacesOptsConcat(Convert.Places(a.children[i], path + [i], Some(a)), Convert.PlacesBelow(a, path, i + 1));
    }
  }

  /** An argp without a group has no options to lose. */
  lemma {:induction false} GroupedKeepsOpts(ps: seq<Convert.Place>)
    ensures PlacesOpts(Convert.Grouped(ps)) == PlacesOpts(ps)
  {
    if ps != [] {
      GroupedKeepsOpts(ps[1..]);
      if Convert.NeedsGroup(ps[0].argp) {
        PlacesOptsConcat([ps[0]], Convert.Grouped(ps[1..]));
        assert [ps[0]][1..] == [];
      } else {
        assert Own(ps[0].argp) == [] && [] + PlacesOpts(ps[1..]) == PlacesOpts(ps[1..]);
        assert [] + Convert.Grouped(ps[1..]) == Convert.Grouped(ps[1..]);
      }
    }
  }

  /** The rest of group g's options, then those of the groups after it. */
  lemma {:induction false} RowWithin(groups: seq<Machine.Group>, g: nat, i: nat)
    requires g < |groups| && i <= |groups[g].opts|
    ensures OptsOf(Row(groups, g, i)) == groups[g].opts[i..] + OptsOf(Row(groups, g + 1, 0))
    decreases |groups[g].opts| - i
  {
    var opts := groups[g].opts;
    if i == |opts| {
      assert opts[i..] == [] && [] + OptsOf(Row(groups, g + 1, 0)) == OptsOf(Row(groups, g + 1, 0));
    } else {
      RowWithin(groups, g, i + 1);
      OptsOfCons(g, opts[i], Row(groups, g, i + 1));
      assert opts[i..] == [opts[i]] + opts[i + 1..];
    }
  }

  lemma OptsOfCons(g: nat, o: Opt, row: seq<(nat, Opt)>)
    ensures OptsOf([(g, o)] + row) == [o] + OptsOf(row)
  {
  }

  lemma {:induction false} RowFrom(gs: seq<Convert.Group>, ps: seq<Convert.Place>, g: nat)
    requires |gs| == |ps| && (forall k :: 0 <= k < |gs| ==> gs[k].argp == ps[k].argp) && g <= |gs|
    ensures OptsOf(Row(ParserGroups(gs), g, 0)) == PlacesOpts(ps[g..])
    decreases |gs| - g
  {
    if g < |gs| {
      RowWithin(ParserGroups(gs), g, 0);
      RowFrom(gs, ps, g + 1);
      assert ps[g..][0] == ps[g] && ps[g..][1..] == ps[g + 1..];
    }
  }

  /** The parser searches the same options in the same order as the help list holds them. */
  lemma {:induction false} SameRow(a: Argp, gs: seq<Convert.Group>)
    requires Convert.Converted(a, gs)
    ensures OptsOf(Row(ParserGroups(gs), 0, 0)) == AllOpts(a)
  {
    var ps := Convert.Grouped(Convert.Places(a, [], None));
    forall k | 0 <= k < |gs| ensures gs[k].argp == ps[k].argp {
      assert Convert.PlacedAt(gs, ps, k);
    }
    RowFrom(gs, ps, 0);
    assert ps[0..] == ps;
    GroupedKeepsOpts(Convert.Places(a, [], None));
    PlacesInOrder(a, [], None);
  }

  // ---------- The two lookups ----------

  /** The index of the first option with the key, which is what the parser finds. */
  function KeyAt(row: seq<Opt>, key: int): (r: Option<nat>)
    ensures r.Some? ==> r.value < |row| && row[r.value].key == key && forall q :: 0 <= q < r.value ==> row[q].key != key
    ensures r.None? ==> forall q :: 0 <= q < |row| ==> row[q].key != key
  {
    if row == [] then None
    else if row[0].key == key then Some(0)
    else
      var r := KeyAt(row[1..], key);
      assert forall q :: 1 <= q < |row| ==> row[q] == row[1..][q - 1];
      if r.None? then None else Some(r.value + 1)
  }

  lemma {:induction false} FirstKeyAt(row: seq<(nat, Opt)>, key: int)
    ensures FirstWithKey(row, key) ==
      if KeyAt(OptsOf(row), key).Some? then Some(row[KeyAt(OptsOf(row), key).value]) else None
  {
    if row != [] {
      FirstKeyAt(row[1..], key);
      assert OptsOf(row)[1..] == OptsOf(row[1..]);
    }
  }

  /** find_short_option returns the option at KeyAt, with its group. */
  lemma {:induction false} ParserFinds(a: Argp, gs: seq<Convert.Group>, key: int)
    requires Convert.Converted(a, gs)
    ensures var k := KeyAt(AllOpts(a), key); var row := Row(ParserGroups(gs), 0, 0);
      && |row| == |AllOpts(a)|
      && Machine.FindShort(ParserGroups(gs), key, 0, 0) == (if k.Some? then Some(row[k.value]) else None)
      && (k.Some? ==> row[k.value].1 == AllOpts(a)[k.value])
  {
    FindShortFirst(ParserGroups(gs), key, 0, 0);
    FirstKeyAt(Row(ParserGroups(gs), 0, 0), key);
    SameRow(a, gs);
  }

  /** For a printable letter, help and parser mean the same option, or both none, if and only if the first
      option with that key is not a documentation entry. */
  lemma {:induction false} LookupsAgree(row: seq<Opt>, ch: char)
    requires 0x20 <= ch as int < 0x7F
    ensures ShownAt(row, ch) == KeyAt(row, ch as int)
      <==> !(KeyAt(row, ch as int).Some? && row[KeyAt(row, ch as int).value].doc)
  {
  }

  /** So find_short_option returns the very option that the help list shows for the letter, if and only if
      the first option of the tree with that key is not a documentation entry. */
  lemma {:induction false} HelpAgreesWithParser(a: Argp, gs: seq<Convert.Group>, ch: char)
    requires Convert.Converted(a, gs) && 0x20 <= ch as int < 0x7F
    ensures var shown, row := ShownAt(AllOpts(a), ch), Row(ParserGroups(gs), 0, 0);
      && |row| == |AllOpts(a)|
      && (Machine.FindShort(ParserGroups(gs), ch as int, 0, 0) == (if shown.Some? then Some(row[shown.value]) else None)
          <==> !(KeyAt(AllOpts(a), ch as int).Some? && AllOpts(a)[KeyAt(AllOpts(a), ch as int).value].doc))
  {
    ParserFinds(a, gs, ch as int);
    SameRow(a, gs);
    LookupsAgree(AllOpts(a), ch);
    var row := Row(ParserGroups(gs), 0, 0);
    assert forall k :: 0 <= k < |row| ==> row[k].1 == OptsOf(row)[k];
  }

  /** Sorted in any order, the help list of the tree shows for a printable letter the one option that
      find_short_option returns, or none where that finds none, if and only if the first option of the tree
      with that key is not a documentation entry. */
  lemma {:induction false} AnyOrderAgrees(a: Argp, gs: seq<Convert.Group>, entries: seq<Entry>, letters: string,
                                          es: seq<Entry>, ch: char)
    requires Convert.Converted(a, gs) && Describes(entries, letters, AllOpts(a))
    requires multiset(es) == multiset(entries) && 0x20 <= ch as int < 0x7F
    ensures var found := Machine.FindShort(ParserGroups(gs), ch as int, 0, 0);
      WithLetter(Shown(es, letters), ch) == (if found.Some? then [found.value.1] else [])
      <==> !(KeyAt(AllOpts(a), ch as int).Some? && AllOpts(a)[KeyAt(AllOpts(a), ch as int).value].doc)
  {
    ShownInAnyOrder(entries, letters, AllOpts(a), es, ch);
    ParserFinds(a, gs, ch as int);
    LookupsAgree(AllOpts(a), ch);
  }

  function DocEntry(): Opt
  {
    Opt(None, 'a' as int, false, false, false, true)
  }

  function RealOption(): Opt
  {
    Opt(None, 'a' as int, false, false, false, false)
  }

  /** A documentation entry for 'a' in front of a real option: the parser finds the entry, help shows the
      option. */
  lemma {:induction false} LookupsDiffer(a: Argp, gs: seq<Convert.Group>, entries: seq<Entry>)
    requires a == Argp(Some([DocEntry(), RealOption()]), true, None, []) && gs == Convert.Convert(a, None, 0, 0, 0).0
    requires entries == [Entry([DocEntry()], 0), Entry([RealOption()], 0)]
    ensures Machine.FindShort(ParserGroups(gs), 'a' as int, 0, 0) == Some((0, DocEntry()))
    ensures Describes(entries, "a", AllOpts(a)) && Shown(entries, "a") == [RealOption()]
  {
    Convert.ConvertTree(a);
    SameRow(a, gs);
    ParserFinds(a, gs, 'a' as int);
    DescribesSnoc([], [], [DocEntry()]);
    DescribesSnoc([Entry([DocEntry()], 0)], [DocEntry()], [RealOption()]);
    assert AllOpts(a) == [DocEntry()] + [RealOption()];
    assert Taken([DocEntry()], "a", 0) == [false] && Taken([RealOption()], "a", 0) == [true];
    ShownCons(entries, "a", 0);
    ShownCons(entries, "a", 1);
  }
}

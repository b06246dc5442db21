/** The list of options that the help messages work from (struct hol in argp-help.c), and how it agrees with
    the parser's own lookup of short options. */
module ArgpHol {
  import opened Options
  import opened ArgpTypes
  import opened Seqs

  // ---------- Letters ----------

  /** __option_is_short: not documentation only, and a printable key. */
  predicate IsShort(o: Opt)
  {
    !o.doc && 0x20 <= o.key < 0x7F
  }

  function Letter(o: Opt): char
    requires IsShort(o)
  {
    o.key as char
  }

  /** The short options of a row, each letter once, in the order of first use. */
  function Letters(row: seq<Opt>): string
  {
    if row == [] then ""
    else
      var o, ls := row[|row| - 1], Letters(row[..|row| - 1]);
      if IsShort(o) && Letter(o) !in ls then ls + [Letter(o)] else ls
  }

  /** Option k of the row is the first one with its letter. */
  predicate First(row: seq<Opt>, k: nat)
    requires k < |row|
  {
    IsShort(row[k]) && forall q :: 0 <= q < k && IsShort(row[q]) ==> row[q].key != row[k].key
  }

  lemma {:induction false} LettersAre(row: seq<Opt>, ch: char)
    ensures ch in Letters(row) <==> exists q :: 0 <= q < |row| && IsShort(row[q]) && Letter(row[q]) == ch
  {
    if row != [] {
      var n := |row| - 1;
      LettersAre(row[..n], ch);
      assert forall q :: 0 <= q < n ==> row[..n][q] == row[q];
      if exists q :: 0 <= q < |row| && IsShort(row[q]) && Letter(row[q]) == ch {
        var q :| 0 <= q < |row| && IsShort(row[q]) && Letter(row[q]) == ch;
        if q < n { assert IsShort(row[..n][q]); }
      }
    }
  }

  predicate NoRepeats(s: string)
  {
    forall i, j :: 0 <= i < j < |s| ==> s[i] != s[j]
  }

  lemma {:induction false} LettersOnce(row: seq<Opt>)
    ensures NoRepeats(Letters(row))
  {
    if row != [] { LettersOnce(row[..|row| - 1]); }
  }

  lemma {:induction false} LettersPrefix(row: seq<Opt>, k: nat)
    requires k <= |row|
    ensures Letters(row[..k]) <= Letters(row)
    decreases |row|
  {
    if k == |row| {
      assert row[..k] == row;
    } else {
      LettersPrefix(row[..|row| - 1], k);
      assert row[..|row| - 1][..k] == row[..k];
    }
  }

  /** One more option of the row: a letter is added just for first uses. */
  lemma LettersNext(row: seq<Opt>, k: nat)
    requires k < |row|
    ensures Letters(row[..k + 1]) == Letters(row[..k]) + if First(row, k) then [Letter(row[k])] else []
    ensures IsShort(row[k]) ==> (First(row, k) <==> Letter(row[k]) !in Letters(row[..k]))
  {
    assert row[..k + 1][..k] == row[..k];
    if IsShort(row[k]) {
      LettersAre(row[..k], Letter(row[k]));
      if !First(row, k) {
        var q :| 0 <= q < k && IsShort(row[q]) && row[q].key == row[k].key;
        assert row[..k][q] == row[q];
      }
    }
  }

  // ---------- Entries ----------

  /** struct hol_entry: an option with its aliases, and where its letters begin in short_options. */
  datatype Entry = Entry(opts: seq<Opt>, so: nat)

  /** The options of all entries in one row. */
  function Flat(entries: seq<Entry>): seq<Opt>
  {
    if entries == [] then [] else Flat(entries[..|entries| - 1]) + entries[|entries| - 1].opts
  }

  /** Which options of an entry hol_entry_short_iterate takes: those whose key stands at the next place of
      the letters. Behind the last letter stands the terminating zero, which no key equals. */
  function Taken(opts: seq<Opt>, letters: string, so: nat): (r: seq<bool>)
    ensures |r| == |opts|
  {
    if opts == [] then []
    else
      var hit := IsShort(opts[0]) && so < |letters| && letters[so] as int == opts[0].key;
      [hit] + Taken(opts[1..], letters, if hit then so + 1 else so)
  }

  /** Entry e describes the options of the row from p on. */
  predicate Covers(row: seq<Opt>, p: nat, e: Entry)
  {
    p + |e.opts| <= |row| && row[p..p + |e.opts|] == e.opts && e.so == |Letters(row[..p])|
  }

  /** At its place, a letter is found just for a first use. */
  lemma {:induction false} HitIsFirst(row: seq<Opt>, p: nat)
    requires p < |row|
    ensures var letters, so := Letters(row), |Letters(row[..p])|;
      (IsShort(row[p]) && so < |letters| && letters[so] as int == row[p].key) == First(row, p)
  {
    var letters, so := Letters(row), |Letters(row[..p])|;
    LettersPrefix(row, p);
    LettersPrefix(row, p + 1);
    LettersNext(row, p);
    LettersOnce(row);
    if IsShort(row[p]) && !First(row, p) && so < |letters| {
      var j :| 0 <= j < |Letters(row[..p])| && Letters(row[..p])[j] == Letter(row[p]);
      assert letters[j] == Letter(row[p]) && letters[so] != letters[j];
    }
  }

  /** Walking an entry finds exactly the first uses among its options, shadowed ones left out. */
  lemma {:induction false} WalkFindsFirst(row: seq<Opt>, p: nat, e: Entry, i: nat)
    requires Covers(row, p, e) && i < |e.opts|
    ensures Taken(e.opts, Letters(row), e.so)[i] == First(row, p + i)
    decreases |e.opts|
  {
    HitIsFirst(row, p);
    assert e.opts[0] == row[p];
    if i > 0 {
      LettersNext(row, p);
      assert e.opts[1..] == row[p + 1..p + |e.opts|];
      WalkFindsFirst(row, p + 1, Entry(e.opts[1..], |Letters(row[..p + 1])|), i - 1);
    }
  }

  // ---------- Lists of entries ----------

  /** The entries describe the row in order, and letters are its letters. */
  ghost predicate Describes(entries: seq<Entry>, letters: string, row: seq<Opt>)
  {
    Flat(entries) == row && letters == Letters(row) && Pointed(entries)
  }

  /** No entry is empty, and each points at the letters that come after those of the entries before it. */
  ghost predicate Pointed(entries: seq<Entry>)
  {
    entries != [] ==>
      var n := |entries| - 1;
      Pointed(entries[..n]) && entries[n].opts != [] && entries[n].so == |Letters(Flat(entries[..n]))|
  }

  /** find_char. */
  method FindChar(ch: char, s: string) returns (r: bool)
    ensures r == (ch in s)
  {
    for i := 0 to |s|
      invariant ch !in s[..i]
    {
      if s[i] == ch { return true; }
    }
    return false;
  }

  lemma {:induction false} FlatSnoc(entries: seq<Entry>, e: Entry)
    ensures Flat(entries + [e]) == Flat(entries) + e.opts
  {
    assert (entries + [e])[..|entries|] == entries;
  }

  lemma {:induction false} FlatPrefix(entries: seq<Entry>, j: nat)
    requires j < |entries|
    ensures var q, n := Flat(entries[..j]), |Flat(entries[..j])| + |entries[j].opts|;
      && n <= |Flat(entries)| && q == Flat(entries)[..|q|]
      && Flat(entries[..j + 1]) == q + entries[j].opts == Flat(entries)[..n]
    decreases |entries|
  {
    var m := |entries| - 1;
    FlatSnoc(entries[..j], entries[j]);
    assert entries[..j + 1] == entries[..j] + [entries[j]];
    if j < m {
      FlatPrefix(entries[..m], j);
      assert entries[..m][..j] == entries[..j] && entries[..m][..j + 1] == entries[..j + 1];
    } else {
      assert entries[..j + 1] == entries;
    }
  }

  lemma {:induction false} PointedAt(entries: seq<Entry>, j: nat)
    requires Pointed(entries) && j < |entries|
    ensures entries[j].opts != [] && entries[j].so == |Letters(Flat(entries[..j]))|
    decreases |entries|
  {
    var n := |entries| - 1;
    if j < n {
      PointedAt(entries[..n], j);
      assert entries[..n][..j] == entries[..j];
    }
  }

  /** Every entry covers its part of the row. */
  lemma {:induction false} EntryCovers(entries: seq<Entry>, letters: string, row: seq<Opt>, j: nat)
    requires Describes(entries, letters, row) && j < |entries|
    ensures entries[j].opts != [] && Covers(row, |Flat(entries[..j])|, entries[j])
  {
    PointedAt(entries, j);
    FlatPrefix(entries, j);
    SliceIs(row, Flat(entries[..j]), entries[j].opts);
  }

  lemma SliceIs(row: seq<Opt>, q: seq<Opt>, opts: seq<Opt>)
    requires |q| + |opts| <= |row| && q + opts == row[..|q| + |opts|]
    ensures row[..|q|] == q && row[|q|..|q| + |opts|] == opts
  {
    assert (q + opts)[..|q|] == q && (q + opts)[|q|..] == opts;
  }

  /** One more entry. */
  lemma {:induction false} DescribesSnoc(entries: seq<Entry>, row: seq<Opt>, opts: seq<Opt>)
    requires opts != [] && Describes(entries, Letters(row), row)
    ensures Describes(entries + [Entry(opts, |Letters(row)|)], Letters(row + opts), row + opts)
  {
    var e := Entry(opts, |Letters(row)|);
    FlatSnoc(entries, e);
    assert (entries + [e])[..|entries|] == entries;
  }

  lemma {:induction false} DescribesMore(entries: seq<Entry>, row: seq<Opt>, i: nat, j: nat)
    requires i < j <= |row| && Describes(entries, Letters(row[..i]), row[..i])
    ensures Describes(entries + [Entry(row[i..j], |Letters(row[..i])|)], Letters(row[..j]), row[..j])
  {
    DescribesSnoc(entries, row[..i], row[i..j]);
    assert row[..i] + row[i..j] == row[..j];
  }

  // ---------- Options and their aliases ----------

  /** An option that is no alias, with the aliases after it. */
  predicate Headed(opts: seq<Opt>)
  {
    opts != [] && !opts[0].alias && forall i :: 0 < i < |opts| ==> opts[i].alias
  }

  /** Every entry is one option with its aliases. */
  predicate Whole(entries: seq<Entry>)
  {
    forall j :: 0 <= j < |entries| ==> Headed(entries[j].opts)
  }

  /** num_entries, as the first loop of make_hol counts it: the options that are no alias. */
  function Heads(row: seq<Opt>): nat
  {
    if row == [] then 0 else Heads(row[..|row| - 1]) + if row[|row| - 1].alias then 0 else 1
  }

  lemma {:induction false} HeadsAppended(row: seq<Opt>, opts: seq<Opt>)
    requires Headed(opts)
    ensures Heads(row + opts) == Heads(row) + 1
    decreases |opts|
  {
    var n := |opts| - 1;
    assert (row + opts)[..|row + opts| - 1] == row + opts[..n];
    if n == 0 {
      assert row + opts[..n] == row;
    } else {
      HeadsAppended(row, opts[..n]);
    }
  }

  /** So make_hol makes exactly the entries it has counted. */
  lemma {:induction false} EntriesCounted(entries: seq<Entry>)
    requires Whole(entries)
    ensures |entries| == Heads(Flat(entries))
  {
    if entries != [] {
      var n := |entries| - 1;
      EntriesCounted(entries[..n]);
      HeadsAppended(Flat(entries[..n]), entries[n].opts);
    }
  }

  lemma LastHead(x: seq<Opt>, p: seq<Opt>)
    requires Headed(p)
    ensures !(x + p)[|x|].alias && forall i :: |x| < i < |x + p| ==> (x + p)[i].alias
  {
  }

  lemma SameEnd(x: seq<Opt>, p: seq<Opt>, y: seq<Opt>, q: seq<Opt>)
    requires x + p == y + q && Headed(p) && Headed(q)
    ensures x == y && p == q
  {
    var row := x + p;
    LastHead(x, p);
    LastHead(y, q);
    assert row[..|x|] == x && row[|x|..] == p && row[..|y|] == y && row[|y|..] == q;
  }

  predicate SameOpts(x: seq<Entry>, y: seq<Entry>)
  {
    |x| == |y| && forall j :: 0 <= j < |x| ==> x[j].opts == y[j].opts
  }

  lemma SameOptsSnoc(x: seq<Entry>, y: seq<Entry>, n: nat)
    requires |x| == |y| == n + 1 && SameOpts(x[..n], y[..n]) && x[n].opts == y[n].opts
    ensures SameOpts(x, y)
  {
    forall j | 0 <= j < n ensures x[j].opts == y[j].opts {
      assert x[..n][j] == x[j] && y[..n][j] == y[j];
    }
  }

  lemma {:induction false} FlatLast(x: seq<Entry>, n: nat)
    requires |x| == n + 1
    ensures Flat(x) == Flat(x[..n]) + x[n].opts
  {
  }

  /** There is only one way to put the options of a row into such entries. */
  lemma {:induction false} OneGrouping(x: seq<Entry>, y: seq<Entry>)
    requires Whole(x) && Whole(y) && Flat(x) == Flat(y)
    ensures SameOpts(x, y)
  {
    EntriesCounted(x);
    EntriesCounted(y);
    if x != [] {
      var n := |x| - 1;
      FlatLast(x, n);
      FlatLast(y, n);
      SameEnd(Flat(x[..n]), x[n].opts, Flat(y[..n]), y[n].opts);
      OneGrouping(x[..n], y[..n]);
      SameOptsSnoc(x, y, n);
    }
  }

  // ---------- Two rows ----------

  /** In the second of two rows, a first use of its own is one of both unless the first row has the letter. */
  lemma {:induction false} FirstOfBoth(r1: seq<Opt>, r2: seq<Opt>, q: nat)
    requires q < |r2|
    ensures First(r1 + r2, |r1| + q) <==> First(r2, q) && Letter(r2[q]) !in Letters(r1)
  {
    var row := r1 + r2;
    if IsShort(r2[q]) {
      LettersAre(r1, Letter(r2[q]));
      assert forall i :: 0 <= i < |r1| ==> row[i] == r1[i];
      assert forall i :: 0 <= i < |r2| ==> row[|r1| + i] == r2[i];
      if First(row, |r1| + q) {
        forall i | 0 <= i < q && IsShort(r2[i]) ensures r2[i].key != r2[q].key { assert IsShort(row[|r1| + i]); }
      } else {
        var i :| 0 <= i < |r1| + q && IsShort(row[i]) && row[i].key == row[|r1| + q].key;
        if i >= |r1| { assert IsShort(r2[i - |r1|]); }
      }
    }
  }

  /** The letters of both rows, as far as option q of the second, and how many of those are its own. */
  ghost predicate Merged(r1: seq<Opt>, r2: seq<Opt>, q: nat, letters: string, moreSo: nat)
  {
    q <= |r2| && letters == Letters(r1 + r2[..q]) && moreSo == |Letters(r2[..q])|
  }

  /** Entry j stands in the row of all entries behind those before it. */
  lemma {:induction false} EntryStands(entries: seq<Entry>, row: seq<Opt>, j: nat, p: nat)
    requires Flat(entries) == row && j < |entries| && p == |Flat(entries[..j])|
    ensures var opts := entries[j].opts;
      p + |opts| <= |row| && row[p..p + |opts|] == opts && |Flat(entries[..j + 1])| == p + |opts|
  {
    FlatPrefix(entries, j);
    SliceIs(row, Flat(entries[..j]), entries[j].opts);
  }

  /** One more option of the second row adds its letter if it is the first there and the first row has it not. */
  lemma {:induction false} BothNext(r1: seq<Opt>, r2: seq<Opt>, q: nat)
    requires q < |r2|
    ensures Letters(r1 + r2[..q + 1]) ==
      Letters(r1 + r2[..q]) + if First(r2, q) && Letter(r2[q]) !in Letters(r1) then [Letter(r2[q])] else []
  {
    FirstOfBoth(r1, r2, q);
    LettersNext(r1 + r2, |r1| + q);
    assert (r1 + r2)[..|r1| + q] == r1 + r2[..q] && (r1 + r2)[..|r1| + q + 1] == r1 + r2[..q + 1];
  }

  /** What the test on the next letter of the second row has to do with it. */
  lemma {:induction false} MergedNext(r1: seq<Opt>, r2: seq<Opt>, q: nat, letters: string, moreSo: nat, theirs: string)
    requires q < |r2| && theirs == Letters(r2) && Merged(r1, r2, q, letters, moreSo)
    ensures if IsShort(r2[q]) && moreSo < |theirs| && theirs[moreSo] as int == r2[q].key
            then Merged(r1, r2, q + 1, if theirs[moreSo] in Letters(r1) then letters else letters + [theirs[moreSo]],
                        moreSo + 1)
            else Merged(r1, r2, q + 1, letters, moreSo)
  {
    HitIsFirst(r2, q);
    LettersNext(r2, q);
    BothNext(r1, r2, q);
  }

  lemma {:induction false} WholeSnoc(entries: seq<Entry>, r1: seq<Opt>, r2: seq<Opt>, p: nat, opts: seq<Opt>)
    requires Headed(opts) && p + |opts| <= |r2| && r2[p..p + |opts|] == opts
    requires Describes(entries, Letters(r1 + r2[..p]), r1 + r2[..p]) && Whole(entries)
    ensures var es, row := entries + [Entry(opts, |Letters(r1 + r2[..p])|)], r1 + r2[..p + |opts|];
      Describes(es, Letters(row), row) && Whole(es)
  {
    DescribesSnoc(entries, r1 + r2[..p], opts);
    assert (r1 + r2[..p]) + opts == r1 + r2[..p + |opts|];
  }

  // ---------- make_hol ----------

  /** struct hol, without the clusters. */
  class Hol {
    var entries: seq<Entry>
    var letters: string

    /** The list describes the row, one entry for each option with its aliases. */
    ghost predicate Holds(row: seq<Opt>)
      reads this
    {
      Describes(entries, letters, row) && Whole(entries)
    }

    /** make_hol: the source asserts that the first option is not an alias. */
    constructor (opts: seq<Opt>)
      requires opts != [] ==> !opts[0].alias
      ensures Holds(opts) && |entries| == Heads(opts)
    {
      entries, letters := [], "";
      new;
      var o := 0;
      while o < |opts|
        invariant 0 <= o <= |opts| && Describes(entries, letters, opts[..o])
        invariant Whole(entries) && (o < |opts| ==> !opts[o].alias)
      {
        o := AddEntry(opts, o);
      }
      assert opts[..o] == opts;
      EntriesCounted(entries);
    }

    /** One entry: the option at start, which is no alias, and the aliases after it. */
    method AddEntry(opts: seq<Opt>, start: nat) returns (o: nat)
      requires start < |opts| && !opts[start].alias && Describes(entries, letters, opts[..start])
      modifies this
      ensures start < o <= |opts| && Describes(entries, letters, opts[..o])
      ensures Headed(opts[start..o]) && (o < |opts| ==> !opts[o].alias)
      ensures entries == old(entries) + [Entry(opts[start..o], old(|letters|))]
    {
      var so := |letters|;
      o := PassAliases(opts, start);
      DescribesMore(entries, opts, start, o);
      entries := entries + [Entry(opts[start..o], so)];
    }

    /** Records the letters of the option and of its aliases. */
    method PassAliases(opts: seq<Opt>, start: nat) returns (o: nat)
      requires start < |opts| && !opts[start].alias && letters == Letters(opts[..start])
      modifies this
      ensures start < o <= |opts| && letters == Letters(opts[..o]) && entries == old(entries)
      ensures Headed(opts[start..o]) && (o < |opts| ==> !opts[o].alias)
    {
      Note(opts, start);
      o := start + 1;
      while o < |opts| && opts[o].alias
        invariant start < o <= |opts| && letters == Letters(opts[..o]) && entries == old(entries)
        invariant forall i :: start < i < o ==> opts[i].alias
      {
        Note(opts, o);
        o := o + 1;
      }
    }

    /** Records the letter of option k, if it has one that is not recorded yet. */
    method Note(opts: seq<Opt>, k: nat)
      requires k < |opts| && letters == Letters(opts[..k])
      modifies this
      ensures letters == Letters(opts[..k + 1]) && entries == old(entries)
    {
      LettersNext(opts, k);
      if IsShort(opts[k]) {
        var used := FindChar(Letter(opts[k]), letters);
        if !used { letters := letters + [Letter(opts[k])]; }
      }
    }

    /** One option of more's entries: option q of row r2, this hol holding the row r1. more's next letter,
        if it is the option's, moves over unless it is shadowed. */
    method Merge(ghost r1: seq<Opt>, ghost r2: seq<Opt>, ghost q: nat, opt: Opt, own: string, theirs: string,
                 moreSo: nat)
      returns (moreSo': nat)
      requires q < |r2| && opt == r2[q] && own == Letters(r1) && theirs == Letters(r2)
      requires Merged(r1, r2, q, letters, moreSo)
      modifies this
      ensures Merged(r1, r2, q + 1, letters, moreSo') && entries == old(entries)
    {
      MergedNext(r1, r2, q, letters, moreSo, theirs);
      moreSo' := moreSo;
      if IsShort(opt) && moreSo < |theirs| && theirs[moreSo] as int == opt.key {
        var shadowed := FindChar(theirs[moreSo], own);
        if !shadowed { letters := letters + [theirs[moreSo]]; }
        moreSo' := moreSo + 1;
      }
    }

    /** All options of one of more's entries, from number p of row r2 on. */
    method MergeEntry(ghost r1: seq<Opt>, ghost r2: seq<Opt>, ghost p: nat, opts: seq<Opt>, own: string,
                      theirs: string, moreSo: nat)
      returns (moreSo': nat)
      requires p + |opts| <= |r2| && r2[p..p + |opts|] == opts && own == Letters(r1) && theirs == Letters(r2)
      requires Merged(r1, r2, p, letters, moreSo)
      modifies this
      ensures Merged(r1, r2, p + |opts|, letters, moreSo') && entries == old(entries)
    {
      moreSo' := moreSo;
      for i := 0 to |opts|
        invariant Merged(r1, r2, p + i, letters, moreSo') && entries == old(entries)
      {
        assert r2[p + i] == opts[i];
        moreSo' := Merge(r1, r2, p + i, opts[i], own, theirs, moreSo');
      }
    }

    /** The list holds r1 and the options of r2 before p, which have moreSo letters of their own. */
    ghost predicate Joined(r1: seq<Opt>, r2: seq<Opt>, p: nat, moreSo: nat)
      reads this
    {
      p <= |r2| && Holds(r1 + r2[..p]) && moreSo == |Letters(r2[..p])|
    }

    /** One of more's entries, which begins at p of more's row r2. */
    method AppendEntry(ghost r1: seq<Opt>, ghost r2: seq<Opt>, ghost p: nat, opts: seq<Opt>, own: string,
                       theirs: string, moreSo: nat)
      returns (moreSo': nat)
      requires Headed(opts) && p + |opts| <= |r2| && r2[p..p + |opts|] == opts
      requires own == Letters(r1) && theirs == Letters(r2)
      requires Joined(r1, r2, p, moreSo)
      modifies this
      ensures Joined(r1, r2, p + |opts|, moreSo')
    {
      var so := |letters|;
      WholeSnoc(entries, r1, r2, p, opts);
      moreSo' := MergeEntry(r1, r2, p, opts, own, theirs, moreSo);
      entries := entries + [Entry(opts, so)];
    }

    /** The loop over more's entries, whose row is r2. */
    method AppendAll(ghost r1: seq<Opt>, ghost r2: seq<Opt>, more: seq<Entry>, theirs: string)
      requires Holds(r1) && Flat(more) == r2 && Whole(more) && theirs == Letters(r2)
      modifies this
      ensures Holds(r1 + r2)
    {
      ghost var p := 0;
      var own, moreSo := letters, 0;
      assert r1 + r2[..0] == r1;
      for j := 0 to |more|
        invariant p == |Flat(more[..j])| && Joined(r1, r2, p, moreSo)
      {
        EntryStands(more, r2, j, p);
        moreSo := AppendEntry(r1, r2, p, more[j].opts, own, theirs, moreSo);
        p := p + |more[j].opts|;
      }
      assert more[..|more|] == more && r2[..p] == r2;
    }

    /** hol_append. */
    method Append(more: Hol)
      requires more != this && Holds(Flat(entries)) && more.Holds(Flat(more.entries))
      modifies this
      ensures Holds(old(Flat(entries)) + Flat(more.entries))
    {
      ghost var r1 := Flat(entries);
      if |more.entries| == 0 {
        assert r1 + [] == r1;
      } else if |entries| == 0 {
        entries, letters := more.entries, more.letters;
        assert [] + Flat(entries) == Flat(entries);
      } else {
        AppendAll(r1, Flat(more.entries), more.entries, more.letters);
      }
    }
  }

  // ---------- argp_hol ----------

  function Own(a: Argp): seq<Opt>
  {
    if a.options.Some? then a.options.value else []
  }

  /** The options of a tree of argps in pre-order. */
  function AllOpts(a: Argp): seq<Opt>
    decreases a, |a.children| + 1
  {
    Own(a) + OptsBelow(a, 0)
  }

  function OptsBelow(a: Argp, i: nat): seq<Opt>
    requires i <= |a.children|
    decreases a, |a.children| - i
  {
    if i == |a.children| then [] else AllOpts(a.children[i]) + OptsBelow(a, i + 1)
  }

  /** No argp of the tree starts with an alias, as make_hol asserts. */
  predicate NoLeadingAlias(a: Argp)
    decreases a
  {
    (Own(a) != [] ==> !Own(a)[0].alias) && forall i :: 0 <= i < |a.children| ==> NoLeadingAlias(a.children[i])
  }

  /** The rows of the children before i are in the row, which the others complete. */
  ghost predicate Gathered(a: Argp, row: seq<Opt>, i: nat)
    requires i <= |a.children|
  {
    row + OptsBelow(a, i) == AllOpts(a)
  }

  lemma {:induction false} GatheredNext(a: Argp, row: seq<Opt>, i: nat)
    requires i < |a.children| && Gathered(a, row, i)
    ensures Gathered(a, row + AllOpts(a.children[i]), i + 1)
  {
    Regroup(row, AllOpts(a.children[i]), OptsBelow(a, i + 1));
  }

  lemma {:induction false} GatheredEnd(a: Argp, row: seq<Opt>)
    requires Gathered(a, row, |a.children|)
    ensures row == AllOpts(a)
  {
    assert row + [] == row;
  }

  /** One child: its list goes behind the list so far. */
  method AddChild(h: Hol, child: Argp, ghost row: seq<Opt>)
    requires h.Holds(row) && NoLeadingAlias(child)
    modifies h
    ensures h.Holds(row + AllOpts(child))
    decreases child, 1
  {
    var more := Collect(child);
    h.Append(more);
  }

  /** argp_hol: the merged list describes the options of the whole tree in pre-order. */
  method Collect(a: Argp) returns (h: Hol)
    requires NoLeadingAlias(a)
    ensures fresh(h) && h.Holds(AllOpts(a)) && |h.entries| == Heads(AllOpts(a))
    decreases a, 0
  {
    h := new Hol(Own(a));
    ghost var row := Own(a);
    for i := 0 to |a.children|
      invariant fresh(h) && h.Holds(row) && Gathered(a, row, i)
    {
      AddChild(h, a.children[i], row);
      GatheredNext(a, row, i);
      row := row + AllOpts(a.children[i]);
    }
    GatheredEnd(a, row);
    EntriesCounted(h.entries);
  }

  // ---------- What the help messages show ----------

  /** The index in the row of the option that is shown for a letter. */
  function ShownAt(row: seq<Opt>, ch: char): (r: Option<nat>)
    ensures r.Some? ==> r.value < |row| && IsShort(row[r.value]) && Letter(row[r.value]) == ch
    ensures r.None? ==> forall q :: 0 <= q < |row| && IsShort(row[q]) ==> Letter(row[q]) != ch
    ensures r.Some? ==> First(row, r.value)
  {
    if row == [] then None
    else
      var n := |row| - 1;
      var r := ShownAt(row[..n], ch);
      assert forall q :: 0 <= q < n ==> row[..n][q] == row[q];
      if r.Some? then r else if IsShort(row[n]) && Letter(row[n]) == ch then Some(n) else None
  }

  /** Walking entry e, the test of hol_entry_short_iterate holds of its option i for the letter ch. */
  predicate Shows(e: Entry, letters: string, i: nat, ch: char)
    requires i < |e.opts|
  {
    Taken(e.opts, letters, e.so)[i] && e.opts[i].key == ch as int
  }

  lemma {:induction false} ShownHere(row: seq<Opt>, p: nat, e: Entry, i: nat, ch: char)
    requires Covers(row, p, e) && i < |e.opts|
    ensures Shows(e, Letters(row), i, ch) <==> ShownAt(row, ch) == Some(p + i)
  {
    WalkFindsFirst(row, p, e, i);
    assert e.opts[i] == row[p + i];
  }

  /** Walking entry e, which begins at p of the row, finds the letter just where the row shows it. */
  ghost predicate ShowsAsRow(e: Entry, letters: string, row: seq<Opt>, p: nat, ch: char)
  {
    forall i :: 0 <= i < |e.opts| ==> (Shows(e, letters, i, ch) <==> ShownAt(row, ch) == Some(p + i))
  }

  lemma {:induction false} CoveredShows(row: seq<Opt>, p: nat, e: Entry, letters: string, ch: char)
    requires Covers(row, p, e) && letters == Letters(row)
    ensures ShowsAsRow(e, letters, row, p, ch)
  {
    forall i | 0 <= i < |e.opts| ensures Shows(e, letters, i, ch) <==> ShownAt(row, ch) == Some(p + i) {
      ShownHere(row, p, e, i, ch);
    }
  }

  lemma {:induction false} EntryShows(entries: seq<Entry>, letters: string, row: seq<Opt>, j: nat, ch: char)
    requires Describes(entries, letters, row) && j < |entries|
    ensures ShowsAsRow(entries[j], letters, row, |Flat(entries[..j])|, ch)
  {
    EntryCovers(entries, letters, row, j);
    CoveredShows(row, |Flat(entries[..j])|, entries[j], letters, ch);
  }

  /** No letter is listed twice; a letter is listed just if some option has it; and walking the entries
      finds it on one option of the row: the first that has it. */
  lemma {:induction false} LetterShownOnce(entries: seq<Entry>, letters: string, row: seq<Opt>, ch: char)
    requires Describes(entries, letters, row)
    ensures NoRepeats(letters) && (ch in letters <==> ShownAt(row, ch).Some?)
    ensures forall j :: 0 <= j < |entries| ==> ShowsAsRow(entries[j], letters, row, |Flat(entries[..j])|, ch)
  {
    LettersOnce(row);
    LettersAre(row, ch);
    forall j | 0 <= j < |entries| ensures ShowsAsRow(entries[j], letters, row, |Flat(entries[..j])|, ch) {
      EntryShows(entries, letters, row, j, ch);
    }
  }

  /** The options that a walk over the entries shows. */
  function Shown(entries: seq<Entry>, letters: string): seq<Opt>
  {
    if entries == [] then []
    else Picked(entries[0].opts, Taken(entries[0].opts, letters, entries[0].so)) + Shown(entries[1..], letters)
  }

  function Picked(opts: seq<Opt>, marks: seq<bool>): seq<Opt>
    requires |marks| == |opts|
  {
    if opts == [] then [] else (if marks[0] then [opts[0]] else []) + Picked(opts[1..], marks[1..])
  }

  lemma {:induction false} ShownConcat(x: seq<Entry>, y: seq<Entry>, letters: string)
    ensures Shown(x + y, letters) == Shown(x, letters) + Shown(y, letters)
  {
    if x == [] {
      assert x + y == y;
    } else {
      assert (x + y)[1..] == x[1..] + y;
      ShownConcat(x[1..], y, letters);
    }
  }

  lemma RestIsSame(e: Entry, t: seq<Entry>, x: seq<Entry>, y: seq<Entry>)
    requires multiset([e] + t) == multiset(x + [e] + y)
    ensures multiset(t) == multiset(x + y)
  {
    assert multiset([e] + t) == multiset{e} + multiset(t);
    assert multiset(x + [e] + y) == multiset(x) + multiset{e} + multiset(y);
    assert multiset(t) == multiset([e] + t) - multiset{e};
    assert multiset(x + y) == multiset(x + [e] + y) - multiset{e};
  }

  lemma {:induction false} ShownAround(e: Entry, x: seq<Entry>, y: seq<Entry>, letters: string)
    ensures multiset(Shown(x + [e] + y, letters)) == multiset(Shown([e], letters)) + multiset(Shown(x + y, letters))
  {
    ShownConcat(x, y, letters);
    ShownConcat(x + [e], y, letters);
    ShownConcat(x, [e], letters);
  }

  /** Sorting the entries, in whatever order, changes nothing about what is shown. */
  lemma {:induction false} OrderDoesNotMatter(es: seq<Entry>, es': seq<Entry>, letters: string)
    requires multiset(es) == multiset(es')
    ensures multiset(Shown(es, letters)) == multiset(Shown(es', letters))
    decreases |es|
  {
    if es == [] {
      assert |multiset(es')| == 0;
    } else {
      var e, t := es[0], es[1..];
      assert es == [e] + t && e in multiset(es');
      var i :| 0 <= i < |es'| && es'[i] == e;
      var x, y := es'[..i], es'[i + 1..];
      assert es' == x + [e] + y;
      RestIsSame(e, t, x, y);
      OrderDoesNotMatter(t, x + y, letters);
      ShownAround(e, x, y, letters);
      ShownConcat([e], t, letters);
    }
  }

  // ---------- The options shown for one letter ----------

  /** The options of a list with the key of the letter. */
  function WithLetter(opts: seq<Opt>, ch: char): seq<Opt>
  {
    if opts == [] then []
    else (if opts[0].key == ch as int then [opts[0]] else []) + WithLetter(opts[1..], ch)
  }

  lemma {:induction false} WithLetterConcat(x: seq<Opt>, y: seq<Opt>, ch: char)
    ensures WithLetter(x + y, ch) == WithLetter(x, ch) + WithLetter(y, ch)
  {
    if x == [] {
      assert x + y == y;
    } else {
      assert (x + y)[1..] == x[1..] + y;
      WithLetterConcat(x[1..], y, ch);
      Regroup(if x[0].key == ch as int then [x[0]] else [], WithLetter(x[1..], ch), WithLetter(y, ch));
    }
  }

  lemma {:induction false} WithLetterCount(opts: seq<Opt>, ch: char, o: Opt)
    ensures multiset(WithLetter(opts, ch))[o] == if o.key == ch as int then multiset(opts)[o] else 0
  {
    if opts != [] {
      assert opts == [opts[0]] + opts[1..];
      WithLetterCount(opts[1..], ch, o);
    }
  }

  lemma {:induction false} LettersCounted(x: seq<Opt>, y: seq<Opt>, ch: char)
    requires multiset(x) == multiset(y)
    ensures multiset(WithLetter(x, ch)) == multiset(WithLetter(y, ch))
  {
    forall o ensures multiset(WithLetter(x, ch))[o] == multiset(WithLetter(y, ch))[o]
    {
      WithLetterCount(x, ch, o);
      WithLetterCount(y, ch, o);
    }
  }

  lemma SameOne(u: seq<Opt>, v: seq<Opt>)
    requires multiset(u) == multiset(v) && |u| <= 1
    ensures u == v
  {
    assert |u| == |multiset(u)| == |multiset(v)| == |v|;
    if |u| == 1 {
      assert u[0] in multiset(v);
    }
  }

  /** Of the picked options, the one at index k has the letter. */
  lemma {:induction false} PickedLetter(opts: seq<Opt>, marks: seq<bool>, ch: char, k: int)
    requires |marks| == |opts|
    requires forall i :: 0 <= i < |opts| ==> (marks[i] && opts[i].key == ch as int <==> i == k)
    ensures WithLetter(Picked(opts, marks), ch) == if 0 <= k < |opts| then [opts[k]] else []
  {
    if opts != [] {
      PickedLetter(opts[1..], marks[1..], ch, k - 1);
      WithLetterConcat(if marks[0] then [opts[0]] else [], Picked(opts[1..], marks[1..]), ch);
    }
  }

  /** The same for options that stand in a row from p on, the option with the letter being at. */
  lemma {:induction false} PickedInRow(row: seq<Opt>, p: nat, opts: seq<Opt>, marks: seq<bool>, ch: char,
                                       at: Option<nat>)
    requires |marks| == |opts| && p + |opts| <= |row| && row[p..p + |opts|] == opts && (at.Some? ==> at.value < |row|)
    requires forall i :: 0 <= i < |opts| ==> (marks[i] && opts[i].key == ch as int <==> at == Some(p + i))
    ensures WithLetter(Picked(opts, marks), ch) ==
      if at.Some? && p <= at.value < p + |opts| then [row[at.value]] else []
  {
    var k := if at.Some? then at.value - p else -1;
    PickedLetter(opts, marks, ch, k);
    if 0 <= k < |opts| { assert opts[k] == row[at.value]; }
  }

  /** Walking an entry shows the letter's option if the entry has it. */
  lemma {:induction false} EntryShown(row: seq<Opt>, p: nat, e: Entry, ch: char)
    requires Covers(row, p, e)
    ensures var at := ShownAt(row, ch);
      WithLetter(Picked(e.opts, Taken(e.opts, Letters(row), e.so)), ch) ==
        if at.Some? && p <= at.value < p + |e.opts| then [row[at.value]] else []
  {
    var marks := Taken(e.opts, Letters(row), e.so);
    forall i | 0 <= i < |e.opts|
      ensures marks[i] && e.opts[i].key == ch as int <==> ShownAt(row, ch) == Some(p + i)
    {
      ShownHere(row, p, e, i, ch);
    }
    PickedInRow(row, p, e.opts, marks, ch, ShownAt(row, ch));
  }

  /** The walk from entry j on shows the letter's option if that comes as late. */
  ghost predicate ShowsFrom(entries: seq<Entry>, letters: string, row: seq<Opt>, ch: char, j: nat, at: Option<nat>)
    requires j <= |entries| && (at.Some? ==> at.value < |row|)
  {
    WithLetter(Shown(entries[j..], letters), ch) ==
      if at.Some? && |Flat(entries[..j])| <= at.value then [row[at.value]] else []
  }

  lemma {:induction false} ShownFrom(entries: seq<Entry>, letters: string, row: seq<Opt>, ch: char, j: nat)
    requires Describes(entries, letters, row) && j <= |entries|
    ensures ShowsFrom(entries, letters, row, ch, j, ShownAt(row, ch))
    decreases |entries| - j
  {
    if j == |entries| {
      ShownEnd(entries, letters, row, ch, ShownAt(row, ch));
    } else {
      ShownFrom(entries, letters, row, ch, j + 1);
      ShownNext(entries, letters, row, ch, j, ShownAt(row, ch));
    }
  }

  lemma {:induction false} ShownEnd(entries: seq<Entry>, letters: string, row: seq<Opt>, ch: char, at: Option<nat>)
    requires Flat(entries) == row && (at.Some? ==> at.value < |row|)
    ensures ShowsFrom(entries, letters, row, ch, |entries|, at)
  {
    assert entries[|entries|..] == [] && entries[..|entries|] == entries;
  }

  lemma {:induction false} ShownNext(entries: seq<Entry>, letters: string, row: seq<Opt>, ch: char, j: nat,
                                     at: Option<nat>)
    requires Describes(entries, letters, row) && j < |entries| && at == ShownAt(row, ch)
    requires ShowsFrom(entries, letters, row, ch, j + 1, at)
    ensures ShowsFrom(entries, letters, row, ch, j, at)
  {
    var e, p := entries[j], |Flat(entries[..j])|;
    var x, y := Picked(e.opts, Taken(e.opts, letters, e.so)), Shown(entries[j + 1..], letters);
    EntryCovers(entries, letters, row, j);
    EntryShown(row, p, e, ch);
    FlatPrefix(entries, j);
    assert |Flat(entries[..j + 1])| == p + |e.opts|;
    ShownCons(entries, letters, j);
    WithLetterConcat(x, y, ch);
  }

  lemma {:induction false} ShownCons(entries: seq<Entry>, letters: string, j: nat)
    requires j < |entries|
    ensures var e := entries[j];
      Shown(entries[j..], letters) == Picked(e.opts, Taken(e.opts, letters, e.so)) + Shown(entries[j + 1..], letters)
  {
    assert entries[j..][1..] == entries[j + 1..];
  }

  /** In whatever order the entries are sorted, the walk shows one option for a letter, the first short
      option that has it, or none if there is none. */
  lemma {:induction false} ShownInAnyOrder(entries: seq<Entry>, letters: string, row: seq<Opt>, es: seq<Entry>,
                                           ch: char)
    requires Describes(entries, letters, row) && multiset(es) == multiset(entries)
    ensures var at := ShownAt(row, ch);
      WithLetter(Shown(es, letters), ch) == if at.Some? then [row[at.value]] else []
  {
    ShownFrom(entries, letters, row, ch, 0);
    assert entries[0..] == entries;
    OrderDoesNotMatter(entries, es, letters);
    LettersCounted(Shown(entries, letters), Shown(es, letters), ch);
    SameOne(WithLetter(Shown(entries, letters), ch), WithLetter(Shown(es, letters), ch));
  }
}

/** The usage patterns that _help prints: every choice of one line of args_doc for each argp of the tree. */
module ArgpPatterns {
  import opened Options
  import opened ArgpTypes
  import opened Odometer
  import opened Seqs
  import opened ArgpUsage

  // ---------- Documentation strings as lines ----------

  function Join(ls: seq<string>): string
  {
    if ls == [] then "" else if |ls| == 1 then ls[0] else ls[0] + ("\n" + Join(ls[1..]))
  }

  /** ls are the lines of doc, which newlines separate. */
  predicate IsLines(doc: string, ls: seq<string>)
  {
    ls != [] && doc == Join(ls) && forall k :: 0 <= k < |ls| ==> '\n' !in ls[k]
  }

  lemma {:induction false} FirstLine(doc: string, ls: seq<string>)
    requires IsLines(doc, ls)
    ensures doc[..NewlineAt(doc)] == ls[0] && (NewlineAt(doc) < |doc| <==> |ls| > 1)
    ensures |ls| > 1 ==> IsLines(doc[NewlineAt(doc) + 1..], ls[1..])
  {
    var n := |ls[0]|;
    if |ls| > 1 {
      assert doc[n] == '\n' && doc[n + 1..] == Join(ls[1..]);
    }
    assert doc[..n] == ls[0];
    assert forall k :: 0 <= k < n ==> doc[k] == ls[0][k];
    assert NewlineAt(doc) == n;
  }

  /** The lines of a string are determined: there is one more than newlines, and Line finds each of them. */
  lemma {:induction false} LinesAre(doc: string, ls: seq<string>, k: nat)
    requires IsLines(doc, ls) && k < |ls|
    ensures Breaks(doc) == |ls| - 1 && Line(doc, k) == ls[k]
  {
    FirstLine(doc, ls);
    if |ls| > 1 {
      BreaksAfter(doc);
      LinesAre(doc[NewlineAt(doc) + 1..], ls[1..], if k > 0 then k - 1 else 0);
    }
  }

  lemma {:induction false} LinesUnique(doc: string, x: seq<string>, y: seq<string>)
    requires IsLines(doc, x) && IsLines(doc, y)
    ensures x == y
  {
    LinesAre(doc, x, 0);
    LinesAre(doc, y, 0);
    forall k | 0 <= k < |x| ensures x[k] == y[k] {
      LinesAre(doc, x, k);
      LinesAre(doc, y, k);
    }
  }

  lemma {:induction false} SplitLines(doc: string) returns (ls: seq<string>)
    ensures IsLines(doc, ls)
    decreases |doc|
  {
    var n := NewlineAt(doc);
    if n == |doc| {
      ls := [doc];
    } else {
      var rest := SplitLines(doc[n + 1..]);
      ls := [doc[..n]] + rest;
      assert ls[1..] == rest && doc == doc[..n] + ("\n" + doc[n + 1..]);
    }
  }

  /** lines[i] are the lines of docs[i]. */
  predicate AreLines(docs: seq<string>, lines: seq<seq<string>>)
  {
    |lines| == |docs| && forall i :: 0 <= i < |docs| ==> IsLines(docs[i], lines[i])
  }

  lemma {:induction false} SplitAll(docs: seq<string>) returns (lines: seq<seq<string>>)
    ensures AreLines(docs, lines)
  {
    lines := [];
    if docs != [] {
      var ls := SplitLines(docs[0]);
      var rest := SplitAll(docs[1..]);
      lines := [ls] + rest;
      forall i | 0 <= i < |docs| ensures IsLines(docs[i], lines[i]) {
        if i > 0 { assert docs[1..][i - 1] == docs[i] && lines[i] == rest[i - 1]; }
      }
    }
  }

  // ---------- The documentation strings of a tree ----------

  function OwnDoc(a: Argp): seq<string>
  {
    if a.argsDoc.Some? then [a.argsDoc.value] else []
  }

  /** Every args_doc of the tree, in pre-order. */
  function Docs(a: Argp): seq<string>
    decreases a, |a.children| + 1
  {
    OwnDoc(a) + DocsBelow(a, 0)
  }

  function DocsBelow(a: Argp, i: nat): seq<string>
    requires i <= |a.children|
    decreases a, |a.children| - i
  {
    if i == |a.children| then [] else Docs(a.children[i]) + DocsBelow(a, i + 1)
  }

  /** How many level bytes a string takes: one if it has several lines. */
  function Bytes(doc: string): nat
  {
    if Breaks(doc) > 0 then 1 else 0
  }

  function Multi(docs: seq<string>): nat
  {
    if docs == [] then 0 else Multi(docs[..|docs| - 1]) + Bytes(docs[|docs| - 1])
  }

  lemma {:induction false} MultiSnoc(docs: seq<string>, doc: string)
    ensures Multi(docs + [doc]) == Multi(docs) + Bytes(doc)
  {
    assert (docs + [doc])[..|docs|] == docs;
  }

  lemma {:induction false} MultiConcat(x: seq<string>, y: seq<string>)
    ensures Multi(x + y) == Multi(x) + Multi(y)
  {
    if y == [] {
      assert x + y == x;
    } else {
      var z, doc := y[..|y| - 1], y[|y| - 1];
      MultiConcat(x, z);
      MultiSnoc(x + z, doc);
      assert x + y == (x + z) + [doc];
    }
  }

  lemma {:induction false} MultiUpTo(docs: seq<string>, i: nat)
    requires i < |docs|
    ensures Multi(docs[..i + 1]) == Multi(docs[..i]) + Bytes(docs[i])
  {
    MultiSnoc(docs[..i], docs[i]);
    assert docs[..i] + [docs[i]] == docs[..i + 1];
  }

  /** The level bytes before string i come before those of later strings. */
  lemma {:induction false} MultiPrefix(docs: seq<string>, i: nat, j: nat)
    requires i < j <= |docs|
    ensures Multi(docs[..i]) + Bytes(docs[i]) <= Multi(docs[..j])
    decreases j
  {
    MultiUpTo(docs, j - 1);
    if i < j - 1 { MultiPrefix(docs, i, j - 1); }
  }

  lemma {:induction false} OwnByte(docs: seq<string>, i: nat)
    requires i < |docs|
    ensures Multi(docs[..i]) + Bytes(docs[i]) <= Multi(docs)
  {
    MultiPrefix(docs, i, |docs|);
    assert docs[..|docs|] == docs;
  }

  /** The line that string i is at: the one its level byte stands for if it has several lines, else line 0. */
  function LineNumber(docs: seq<string>, lv: seq<int>, i: nat): nat
    requires |lv| == Multi(docs) && i < |docs|
  {
    OwnByte(docs, i);
    if Bytes(docs[i]) > 0 then Row(lv[Multi(docs[..i])]) else 0
  }

  function Spread(docs: seq<string>, lv: seq<int>): (ds: seq<nat>)
    requires |lv| == Multi(docs)
  {
    seq(|docs|, i requires 0 <= i < |docs| => LineNumber(docs, lv, i))
  }

  lemma {:induction false} NumberLeft(x: seq<string>, y: seq<string>, lv: seq<int>, i: nat)
    requires |lv| == Multi(x + y) == Multi(x) + Multi(y) && i < |x|
    ensures LineNumber(x + y, lv, i) == LineNumber(x, lv[..Multi(x)], i)
  {
    assert (x + y)[..i] == x[..i] && (x + y)[i] == x[i];
    OwnByte(x, i);
  }

  lemma {:induction false} NumberRight(x: seq<string>, y: seq<string>, lv: seq<int>, i: nat)
    requires |lv| == Multi(x + y) == Multi(x) + Multi(y) && i < |y|
    ensures LineNumber(x + y, lv, |x| + i) == LineNumber(y, lv[Multi(x)..], i)
  {
    assert (x + y)[..|x| + i] == x + y[..i] && (x + y)[|x| + i] == y[i];
    MultiConcat(x, y[..i]);
    OwnByte(y, i);
  }

  lemma {:induction false} SpreadConcat(x: seq<string>, y: seq<string>, lv: seq<int>)
    requires |lv| == Multi(x) + Multi(y)
    ensures Multi(x + y) == |lv| && Spread(x + y, lv) == Spread(x, lv[..Multi(x)]) + Spread(y, lv[Multi(x)..])
  {
    MultiConcat(x, y);
    var r := Spread(x, lv[..Multi(x)]) + Spread(y, lv[Multi(x)..]);
    forall i | 0 <= i < |x| + |y| ensures Spread(x + y, lv)[i] == r[i] {
      if i < |x| { NumberLeft(x, y, lv, i); } else { NumberRight(x, y, lv, i - |x|); }
    }
  }

  // ---------- Patterns as choices ----------

  /** Every string is at one of its lines. */
  predicate Fits(docs: seq<string>, ds: seq<nat>)
  {
    |ds| == |docs| && forall i :: 0 <= i < |docs| ==> ds[i] <= Breaks(docs[i])
  }

  function LinesAt(docs: seq<string>, ds: seq<nat>): seq<string>
    requires Fits(docs, ds)
  {
    seq(|docs|, i requires 0 <= i < |docs| => Line(docs[i], ds[i]))
  }

  lemma LinesAtConcat(x: seq<string>, y: seq<string>, ds: seq<nat>, es: seq<nat>)
    requires Fits(x, ds) && Fits(y, es)
    ensures Fits(x + y, ds + es) && LinesAt(x + y, ds + es) == LinesAt(x, ds) + LinesAt(y, es)
  {
  }

  /** What argp_args_usage prints at the level bytes lv. */
  ghost predicate Prints(docs: seq<string>, lv: seq<int>, printed: seq<string>)
  {
    |lv| == Multi(docs) && Fits(docs, Spread(docs, lv)) && printed == LinesAt(docs, Spread(docs, lv))
  }

  lemma {:induction false} PrintsConcat(x: seq<string>, y: seq<string>, lv: seq<int>, p: seq<string>, q: seq<string>)
    requires Multi(x) <= |lv| && Prints(x, lv[..Multi(x)], p) && Prints(y, lv[Multi(x)..], q)
    ensures Prints(x + y, lv, p + q)
  {
    SpreadConcat(x, y, lv);
    LinesAtConcat(x, y, Spread(x, lv[..Multi(x)]), Spread(y, lv[Multi(x)..]));
  }

  lemma {:induction false} OwnPrints(a: Argp, lv: seq<int>)
    requires Multiple(a) ==> |lv| > 0 && Row(lv[0]) <= Breaks(a.argsDoc.value)
    ensures var n := if Multiple(a) then 1 else 0; Multi(OwnDoc(a)) == n && Prints(OwnDoc(a), lv[..n], OwnLine(a, lv))
  {
    var n := if Multiple(a) then 1 else 0;
    if a.argsDoc.Some? {
      var ds := Spread(OwnDoc(a), lv[..n]);
      assert OwnDoc(a)[1..] == [];
      assert LinesAt(OwnDoc(a), ds) == OwnLine(a, lv);
    }
  }

  /** A pattern is one line of every args_doc of the tree, in pre-order. */
  lemma {:induction false} PatternPrints(a: Argp, lv: seq<int>)
    requires |lv| == Levels(a) && InLines(a, lv)
    ensures Prints(Docs(a), lv, Pattern(a, lv))
    decreases a, |a.children| + 1
  {
    OwnPrints(a, lv);
    var n := if Multiple(a) then 1 else 0;
    assert lv[0..] == lv;
    BelowPrints(a, 0, lv[n..]);
    PrintsConcat(OwnDoc(a), DocsBelow(a, 0), lv, OwnLine(a, lv), PatternBelow(a, 0, lv[n..]));
  }

  lemma {:induction false} BelowPrints(a: Argp, i: nat, lv: seq<int>)
    requires i <= |a.children| && |lv| == LevelsBelow(a, i) && InLinesBelow(a, i, lv)
    ensures Prints(DocsBelow(a, i), lv, PatternBelow(a, i, lv))
    decreases a, |a.children| - i
  {
    if i < |a.children| {
      var n := Levels(a.children[i]);
      PatternPrints(a.children[i], lv[..n]);
      BelowPrints(a, i + 1, lv[n..]);
      PrintsConcat(Docs(a.children[i]), DocsBelow(a, i + 1), lv, Pattern(a.children[i], lv[..n]),
                   PatternBelow(a, i + 1, lv[n..]));
    }
  }

  // ---------- Level bytes and choices ----------

  predicate NonNegative(lv: seq<int>)
  {
    forall k :: 0 <= k < |lv| ==> lv[k] >= 0
  }

  /** Every level byte counts lines of its own string. */
  predicate InDocs(docs: seq<string>, lv: seq<int>)
    requires |lv| == Multi(docs)
  {
    NonNegative(lv) && Fits(docs, Spread(docs, lv))
  }

  lemma FitsConcat(x: seq<string>, y: seq<string>, ds: seq<nat>, es: seq<nat>)
    requires |ds| == |x| && |es| == |y|
    ensures Fits(x + y, ds + es) <==> Fits(x, ds) && Fits(y, es)
  {
    if Fits(x + y, ds + es) {
      forall i | 0 <= i < |x| ensures ds[i] <= Breaks(x[i]) { assert (x + y)[i] == x[i] && (ds + es)[i] == ds[i]; }
      forall i | 0 <= i < |y| ensures es[i] <= Breaks(y[i]) {
        assert (x + y)[|x| + i] == y[i] && (ds + es)[|x| + i] == es[i];
      }
    }
  }

  lemma NonNegativeParts(lv: seq<int>, n: nat)
    requires n <= |lv|
    ensures NonNegative(lv) <==> NonNegative(lv[..n]) && NonNegative(lv[n..])
  {
    if NonNegative(lv[..n]) && NonNegative(lv[n..]) {
      forall k | 0 <= k < |lv| ensures lv[k] >= 0 { assert k >= n ==> lv[n..][k - n] == lv[k]; }
    }
  }

  lemma {:induction false} InDocsConcat(x: seq<string>, y: seq<string>, lv: seq<int>)
    requires |lv| == Multi(x) + Multi(y)
    ensures Multi(x + y) == |lv| && (InDocs(x + y, lv) <==> InDocs(x, lv[..Multi(x)]) && InDocs(y, lv[Multi(x)..]))
  {
    var n := Multi(x);
    SpreadConcat(x, y, lv);
    FitsConcat(x, y, Spread(x, lv[..n]), Spread(y, lv[n..]));
    NonNegativeParts(lv, n);
  }

  lemma RangeConcat(x: seq<int>, p: seq<nat>, y: seq<int>, q: seq<nat>)
    requires |x| == |p| && |y| == |q|
    ensures InRange(x + y, p + q) <==> InRange(x, p) && InRange(y, q)
  {
    if InRange(x + y, p + q) {
      forall k | 0 <= k < |x| ensures 0 <= x[k] < p[k] { assert (x + y)[k] == x[k] && (p + q)[k] == p[k]; }
      forall k | 0 <= k < |y| ensures 0 <= y[k] < q[k] {
        assert (x + y)[|x| + k] == y[k] && (p + q)[|x| + k] == q[k];
      }
    }
  }

  lemma {:induction false} LevelsAreBytes(a: Argp)
    ensures Multi(Docs(a)) == Levels(a) && Multi(OwnDoc(a)) == if Multiple(a) then 1 else 0
    decreases a, |a.children| + 1
  {
    BelowAreBytes(a, 0);
    MultiConcat(OwnDoc(a), DocsBelow(a, 0));
    if a.argsDoc.Some? { assert OwnDoc(a)[1..] == []; }
  }

  lemma {:induction false} BelowAreBytes(a: Argp, i: nat)
    requires i <= |a.children|
    ensures Multi(DocsBelow(a, i)) == LevelsBelow(a, i)
    decreases a, |a.children| - i
  {
    if i < |a.children| {
      LevelsAreBytes(a.children[i]);
      BelowAreBytes(a, i + 1);
      MultiConcat(Docs(a.children[i]), DocsBelow(a, i + 1));
    }
  }

  lemma {:induction false} OneSpread(doc: string, d: int)
    requires Breaks(doc) > 0
    ensures Multi([doc]) == 1 && Spread([doc], [d]) == [Row(d)]
  {
    assert [doc][1..] == [] && [d][1..] == [];
  }

  lemma {:induction false} OwnRange(a: Argp, lv: seq<int>)
    requires Multiple(a) && |lv| > 0
    ensures Multi(OwnDoc(a)) == 1
    ensures InRange([lv[0]], [Breaks(a.argsDoc.value) + 1]) <==> InDocs(OwnDoc(a), lv[..1])
  {
    OneSpread(a.argsDoc.value, lv[0]);
    assert lv[..1] == [lv[0]];
    if InRange([lv[0]], [Breaks(a.argsDoc.value) + 1]) {
      assert 0 <= [lv[0]][0] < [Breaks(a.argsDoc.value) + 1][0];
    }
    if InDocs(OwnDoc(a), [lv[0]]) { assert [lv[0]][0] >= 0 && [Row(lv[0])][0] <= Breaks(OwnDoc(a)[0]); }
  }

  lemma {:induction false} OwnSingle(a: Argp)
    requires !Multiple(a)
    ensures Multi(OwnDoc(a)) == 0 && InDocs(OwnDoc(a), [])
  {
    if a.argsDoc.Some? {
      assert OwnDoc(a)[1..] == [];
      assert Spread(OwnDoc(a), []) == [0];
    }
  }

  lemma {:induction false} RangeMultiple(a: Argp, lv: seq<int>, below: seq<string>, ds: seq<int>, rs: seq<nat>)
    requires Multiple(a) && |lv| > 0 && Multi(below) == |lv| - 1 && |ds| == |rs|
    requires InRange(ds, rs) <==> InDocs(below, lv[1..])
    ensures Multi(OwnDoc(a) + below) == |lv|
    ensures InRange(ds + [lv[0]], rs + [Breaks(a.argsDoc.value) + 1]) <==> InDocs(OwnDoc(a) + below, lv)
  {
    OwnRange(a, lv);
    InDocsConcat(OwnDoc(a), below, lv);
    RangeConcat(ds, rs, [lv[0]], [Breaks(a.argsDoc.value) + 1]);
  }

  lemma {:induction false} RangeSingle(a: Argp, lv: seq<int>, below: seq<string>, ds: seq<int>, rs: seq<nat>)
    requires !Multiple(a) && Multi(below) == |lv| && |ds| == |rs|
    requires InRange(ds, rs) <==> InDocs(below, lv)
    ensures Multi(OwnDoc(a) + below) == |lv| && (InRange(ds, rs) <==> InDocs(OwnDoc(a) + below, lv))
  {
    OwnSingle(a);
    InDocsConcat(OwnDoc(a), below, lv);
    assert lv[..0] == [] && lv[0..] == lv;
  }

  lemma {:induction false} RangeIsDocs(a: Argp, lv: seq<int>)
    requires |lv| == Levels(a)
    ensures Multi(Docs(a)) == |lv| && (InRange(Digits(a, lv), Radices(a)) <==> InDocs(Docs(a), lv))
    decreases a, |a.children| + 1
  {
    if Multiple(a) {
      BelowRange(a, 0, lv[1..]);
      RangeMultiple(a, lv, DocsBelow(a, 0), DigitsBelow(a, 0, lv[1..]), RadicesBelow(a, 0));
    } else {
      BelowRange(a, 0, lv);
      RangeSingle(a, lv, DocsBelow(a, 0), DigitsBelow(a, 0, lv), RadicesBelow(a, 0));
      assert RadicesBelow(a, 0) + [] == RadicesBelow(a, 0);
    }
  }

  lemma {:induction false} BelowRange(a: Argp, i: nat, lv: seq<int>)
    requires i <= |a.children| && |lv| == LevelsBelow(a, i)
    ensures Multi(DocsBelow(a, i)) == |lv|
    ensures InRange(DigitsBelow(a, i, lv), RadicesBelow(a, i)) <==> InDocs(DocsBelow(a, i), lv)
    decreases a, |a.children| - i
  {
    BelowAreBytes(a, i);
    if i < |a.children| {
      var n := Levels(a.children[i]);
      RangeIsDocs(a.children[i], lv[..n]);
      BelowRange(a, i + 1, lv[n..]);
      InDocsConcat(Docs(a.children[i]), DocsBelow(a, i + 1), lv);
      RangeConcat(Digits(a.children[i], lv[..n]), Radices(a.children[i]),
                  DigitsBelow(a, i + 1, lv[n..]), RadicesBelow(a, i + 1));
    }
  }

  /** The string whose level byte is number k. */
  function Owner(docs: seq<string>, k: nat): (i: nat)
    requires k < Multi(docs)
    ensures i < |docs| && Bytes(docs[i]) > 0 && Multi(docs[..i]) == k
  {
    var n := |docs| - 1;
    if k == Multi(docs[..n]) then n
    else
      var i := Owner(docs[..n], k);
      assert docs[..n][..i] == docs[..i];
      i
  }

  lemma {:induction false} OneOwner(docs: seq<string>, i: nat, j: nat)
    requires i < |docs| && j < |docs| && Bytes(docs[i]) > 0 && Bytes(docs[j]) > 0
    requires Multi(docs[..i]) == Multi(docs[..j])
    ensures i == j
  {
    if i < j { MultiPrefix(docs, i, j); }
    if j < i { MultiPrefix(docs, j, i); }
  }

  /** The level bytes of a choice. */
  function Bunch(docs: seq<string>, ds: seq<nat>): (lv: seq<int>)
    requires |ds| == |docs|
  {
    seq(Multi(docs), k requires 0 <= k < Multi(docs) => ds[Owner(docs, k)])
  }

  lemma {:induction false} SpreadBunch(docs: seq<string>, ds: seq<nat>)
    requires Fits(docs, ds)
    ensures NonNegative(Bunch(docs, ds)) && Spread(docs, Bunch(docs, ds)) == ds
  {
    var lv := Bunch(docs, ds);
    forall i | 0 <= i < |docs| ensures LineNumber(docs, lv, i) == ds[i] {
      OwnByte(docs, i);
      assert ds[i] <= Breaks(docs[i]);
      if Bytes(docs[i]) > 0 { OneOwner(docs, i, Owner(docs, Multi(docs[..i]))); }
    }
  }

  /** A choice has only one row of level bytes. */
  lemma {:induction false} SpreadDetermines(docs: seq<string>, lv: seq<int>, lv': seq<int>)
    requires |lv| == |lv'| == Multi(docs) && NonNegative(lv) && NonNegative(lv')
    requires Spread(docs, lv) == Spread(docs, lv')
    ensures lv == lv'
  {
    forall k | 0 <= k < |lv| ensures lv[k] == lv'[k] {
      var i := Owner(docs, k);
      assert Spread(docs, lv)[i] == Row(lv[k]) && Spread(docs, lv')[i] == Row(lv'[k]);
    }
  }

  // ---------- All choices ----------

  /** ds names one line of each string. */
  predicate Choice(lines: seq<seq<string>>, ds: seq<nat>)
  {
    |ds| == |lines| && forall i :: 0 <= i < |lines| ==> ds[i] < |lines[i]|
  }

  function Picked(lines: seq<seq<string>>, ds: seq<nat>): seq<string>
    requires Choice(lines, ds)
  {
    seq(|lines|, i requires 0 <= i < |lines| => lines[i][ds[i]])
  }

  /** Every choice there is, each once. */
  ghost predicate AllChoices(lines: seq<seq<string>>, choices: seq<seq<nat>>)
  {
    && (forall k :: 0 <= k < |choices| ==> Choice(lines, choices[k]))
    && (forall j, k :: 0 <= j < k < |choices| ==> choices[j] != choices[k])
    && (forall ds :: Choice(lines, ds) ==> ds in choices)
  }

  lemma {:induction false} ChoiceFits(docs: seq<string>, lines: seq<seq<string>>, ds: seq<nat>)
    requires AreLines(docs, lines)
    ensures Choice(lines, ds) <==> Fits(docs, ds)
  {
    forall i | 0 <= i < |docs| ensures |lines[i]| == Breaks(docs[i]) + 1 { LinesAre(docs[i], lines[i], 0); }
  }

  lemma {:induction false} PickedAt(docs: seq<string>, lines: seq<seq<string>>, ds: seq<nat>)
    requires AreLines(docs, lines) && Fits(docs, ds)
    ensures Choice(lines, ds) && LinesAt(docs, ds) == Picked(lines, ds)
  {
    ChoiceFits(docs, lines, ds);
    forall i | 0 <= i < |docs| ensures Line(docs[i], ds[i]) == lines[i][ds[i]] {
      LinesAre(docs[i], lines[i], ds[i]);
    }
  }

  /** No string has more than 128 lines. */
  predicate Short(docs: seq<string>)
  {
    forall i :: 0 <= i < |docs| ==> Breaks(docs[i]) < 128
  }

  lemma NarrowConcat(p: seq<nat>, q: seq<nat>)
    ensures Narrow(p + q) <==> Narrow(p) && Narrow(q)
  {
    if Narrow(p + q) {
      forall k | 0 <= k < |p| ensures p[k] <= 128 { assert (p + q)[k] == p[k]; }
      forall k | 0 <= k < |q| ensures q[k] <= 128 { assert (p + q)[|p| + k] == q[k]; }
    }
  }

  lemma ShortConcat(x: seq<string>, y: seq<string>)
    ensures Short(x + y) <==> Short(x) && Short(y)
  {
    if Short(x + y) {
      forall k | 0 <= k < |x| ensures Breaks(x[k]) < 128 { assert (x + y)[k] == x[k]; }
      forall k | 0 <= k < |y| ensures Breaks(y[k]) < 128 { assert (x + y)[|x| + k] == y[k]; }
    }
  }

  /** The levels fit into signed bytes exactly if no args_doc of the tree has more than 128 lines. */
  lemma {:induction false} NarrowIsShort(a: Argp)
    ensures Narrow(Radices(a)) <==> Short(Docs(a))
    decreases a, |a.children| + 1
  {
    NarrowBelow(a, 0);
    ShortConcat(OwnDoc(a), DocsBelow(a, 0));
    var own := if Multiple(a) then [Breaks(a.argsDoc.value) + 1] else [];
    NarrowConcat(RadicesBelow(a, 0), own);
    if Multiple(a) { assert OwnDoc(a)[0] == a.argsDoc.value && (Narrow(own) ==> own[0] <= 128); }
  }

  lemma {:induction false} NarrowBelow(a: Argp, i: nat)
    requires i <= |a.children|
    ensures Narrow(RadicesBelow(a, i)) <==> Short(DocsBelow(a, i))
    decreases a, |a.children| - i
  {
    if i < |a.children| {
      NarrowIsShort(a.children[i]);
      NarrowBelow(a, i + 1);
      ShortConcat(Docs(a.children[i]), DocsBelow(a, i + 1));
      NarrowConcat(Radices(a.children[i]), RadicesBelow(a, i + 1));
    }
  }

  // ---------- The loop of _help ----------

  /** lv is combination number k: its lines, read in the order of advancing, are the digits of k. */
  ghost predicate Visit(a: Argp, lv: seq<int>, k: nat)
  {
    |lv| == Levels(a) && InRange(Digits(a, lv), Radices(a)) && Value(Digits(a, lv), Radices(a)) == k
  }

  lemma {:induction false} RadicesPositive(a: Argp)
    ensures forall k :: 0 <= k < Levels(a) ==> Radices(a)[k] > 0
    decreases a, |a.children| + 1
  {
    PositiveBelow(a, 0);
  }

  lemma {:induction false} PositiveBelow(a: Argp, i: nat)
    requires i <= |a.children|
    ensures forall k :: 0 <= k < LevelsBelow(a, i) ==> RadicesBelow(a, i)[k] > 0
    decreases a, |a.children| - i
  {
    if i < |a.children| {
      RadicesPositive(a.children[i]);
      PositiveBelow(a, i + 1);
    }
  }

  lemma {:induction false} FirstVisit(a: Argp)
    ensures Visit(a, Zeros(Levels(a)), 0)
  {
    RadicesPositive(a);
    ZerosAreZeros(a);
    ZerosValue(Radices(a));
  }

  /** One round: on to the next combination, or back to all zeros after the last. */
  lemma {:induction false} NextVisit(a: Argp, lv: seq<int>, k: nat)
    requires Visit(a, lv, k) && Narrow(Radices(a))
    ensures InLines(a, lv)
    ensures var r := Advance(a, lv, true);
      if r.1 then k + 1 == Product(Radices(a)) && r.0 == Zeros(Levels(a))
      else k + 1 < Product(Radices(a)) && Visit(a, r.0, k + 1)
  {
    var ds, rs := Digits(a, lv), Radices(a);
    BytesInLines(a, lv);
    AdvanceIsInc(a, lv, true);
    IncCounts(ds, rs);
    ValueBound(ds, rs);
    if Advance(a, lv, true).1 {
      ZerosAreZeros(a);
      DigitsDetermine(a, Advance(a, lv, true).0, Zeros(Levels(a)));
    } else {
      ValueBound(Inc(ds, rs, true).0, rs);
    }
  }

  /** Each combination of level bytes has a round of its own. */
  lemma {:induction false} EachCombinationOnce(a: Argp, visited: seq<seq<int>>, lv: seq<int>)
    requires |visited| == Product(Radices(a)) && forall k :: 0 <= k < |visited| ==> Visit(a, visited[k], k)
    requires |lv| == Levels(a) && InRange(Digits(a, lv), Radices(a))
    ensures var k := Value(Digits(a, lv), Radices(a));
      k < |visited| && visited[k] == lv && forall j :: 0 <= j < |visited| && visited[j] == lv ==> j == k
  {
    var k := Value(Digits(a, lv), Radices(a));
    ValueBound(Digits(a, lv), Radices(a));
    assert Visit(a, visited[k], k);
    ValueDetermines(Digits(a, visited[k]), Digits(a, lv), Radices(a));
    DigitsDetermine(a, visited[k], lv);
    forall j | 0 <= j < |visited| && visited[j] == lv ensures j == k {
      assert Visit(a, visited[j], j);
    }
  }

  /** Round k, at the level bytes lv, prints the choice ds of the lines. */
  ghost predicate Round(a: Argp, lines: seq<seq<string>>, lv: seq<int>, k: nat, ds: seq<nat>, printed: seq<string>)
  {
    && Visit(a, lv, k) && |lv| == Multi(Docs(a)) && ds == Spread(Docs(a), lv)
    && Choice(lines, ds) && printed == Picked(lines, ds)
  }

  lemma {:induction false} RoundPrints(a: Argp, lines: seq<seq<string>>, lv: seq<int>, k: nat)
    requires AreLines(Docs(a), lines) && Visit(a, lv, k) && InLines(a, lv)
    ensures |lv| == Multi(Docs(a)) && Round(a, lines, lv, k, Spread(Docs(a), lv), Pattern(a, lv))
  {
    PatternPrints(a, lv);
    PickedAt(Docs(a), lines, Spread(Docs(a), lv));
  }

  lemma {:induction false} ChoiceVisited(a: Argp, lines: seq<seq<string>>, visited: seq<seq<int>>, ds: seq<nat>)
    returns (k: nat)
    requires AreLines(Docs(a), lines) && Choice(lines, ds)
    requires |visited| == Product(Radices(a)) && forall k :: 0 <= k < |visited| ==> Visit(a, visited[k], k)
    ensures k < |visited| && |visited[k]| == Multi(Docs(a)) && Spread(Docs(a), visited[k]) == ds
  {
    ChoiceFits(Docs(a), lines, ds);
    SpreadBunch(Docs(a), ds);
    LevelsAreBytes(a);
    var lv := Bunch(Docs(a), ds);
    RangeIsDocs(a, lv);
    EachCombinationOnce(a, visited, lv);
    k := Value(Digits(a, lv), Radices(a));
  }

  lemma {:induction false} ChoicesApart(a: Argp, lv: seq<int>, lv': seq<int>, j: nat, k: nat)
    requires Visit(a, lv, j) && Visit(a, lv', k) && j != k
    ensures |lv| == |lv'| == Multi(Docs(a)) && Spread(Docs(a), lv) != Spread(Docs(a), lv')
  {
    RangeIsDocs(a, lv);
    RangeIsDocs(a, lv');
    if Spread(Docs(a), lv) == Spread(Docs(a), lv') { SpreadDetermines(Docs(a), lv, lv'); }
  }

  ghost predicate Rounds(a: Argp, lines: seq<seq<string>>, visited: seq<seq<int>>, choices: seq<seq<nat>>,
                         patterns: seq<seq<string>>)
  {
    && |visited| == |choices| == |patterns|
    && forall k :: 0 <= k < |visited| ==> Round(a, lines, visited[k], k, choices[k], patterns[k])
  }

  lemma RoundsNext(a: Argp, lines: seq<seq<string>>, visited: seq<seq<int>>, choices: seq<seq<nat>>,
                   patterns: seq<seq<string>>, lv: seq<int>, ds: seq<nat>, printed: seq<string>)
    requires Rounds(a, lines, visited, choices, patterns) && Round(a, lines, lv, |visited|, ds, printed)
    ensures Rounds(a, lines, visited + [lv], choices + [ds], patterns + [printed])
  {
  }

  /** The rounds go through all choices. */
  lemma {:induction false} RoundsAreChoices(a: Argp, lines: seq<seq<string>>, visited: seq<seq<int>>,
                                            choices: seq<seq<nat>>, patterns: seq<seq<string>>)
    requires AreLines(Docs(a), lines) && Rounds(a, lines, visited, choices, patterns)
    requires |visited| == Product(Radices(a))
    ensures AllChoices(lines, choices)
    ensures forall k :: 0 <= k < |patterns| ==> patterns[k] == Picked(lines, choices[k])
  {
    forall k | 0 <= k < |visited| ensures Visit(a, visited[k], k) && Choice(lines, choices[k]) {
      assert Round(a, lines, visited[k], k, choices[k], patterns[k]);
    }
    forall j, k | 0 <= j < k < |choices| ensures choices[j] != choices[k] {
      assert Round(a, lines, visited[j], j, choices[j], patterns[j]);
      ChoicesApart(a, visited[j], visited[k], j, k);
    }
    forall ds | Choice(lines, ds) ensures ds in choices {
      var k := ChoiceVisited(a, lines, visited, ds);
      assert Round(a, lines, visited[k], k, choices[k], patterns[k]);
    }
  }

  lemma PatchedWhole(s: seq<int>, vals: seq<int>)
    requires |vals| == |s|
    ensures Patched(s, 0, vals) == vals
  {
  }

  /** argp_args_usage for the whole tree, with all the level bytes. */
  method WholeUsage(a: Argp, levels: array<int>, ghost lv: seq<int>) returns (printed: seq<string>, more: bool)
    requires levels.Length == |lv| == Levels(a) && levels[..] == lv && InLines(a, lv)
    modifies levels
    ensures printed == Pattern(a, lv) && more == !Advance(a, lv, true).1 && levels[..] == Advance(a, lv, true).0
  {
    assert levels[0..|lv|] == lv;
    PatchedWhole(lv, Advance(a, lv, true).0);
    var next;
    next, more, printed := ArgsUsage(a, levels, 0, true, lv);
  }

  /** One round of the loop. */
  method NextPattern(a: Argp, levels: array<int>, ghost lines: seq<seq<string>>, ghost k: nat)
    returns (printed: seq<string>, more: bool, ghost lv: seq<int>)
    requires levels.Length == Levels(a) && Visit(a, levels[..], k) && Narrow(Radices(a)) && AreLines(Docs(a), lines)
    modifies levels
    ensures |lv| == Multi(Docs(a)) && Round(a, lines, lv, k, Spread(Docs(a), lv), printed)
    ensures if more then k + 1 < Product(Radices(a)) && Visit(a, levels[..], k + 1)
            else k + 1 == Product(Radices(a)) && levels[..] == Zeros(Levels(a))
  {
    lv := levels[..];
    NextVisit(a, lv, k);
    RoundPrints(a, lines, lv, k);
    printed, more := WholeUsage(a, levels, lv);
  }

  /** The do-while loop of _help. Where no args_doc of the tree has more than 128 lines, it prints every choice
      of one line of each args_doc in pre-order, each once, and leaves all level bytes zero. */
  method Usage(a: Argp)
    returns (patterns: seq<seq<string>>, final: seq<int>, ghost lines: seq<seq<string>>,
             ghost choices: seq<seq<nat>>, ghost visited: seq<seq<int>>)
    requires Short(Docs(a))
    ensures AreLines(Docs(a), lines) && AllChoices(lines, choices)
    ensures |patterns| == |choices| && forall k :: 0 <= k < |patterns| ==> patterns[k] == Picked(lines, choices[k])
    ensures |patterns| == Product(Radices(a)) && Rounds(a, lines, visited, choices, patterns)
    ensures final == Zeros(Levels(a))
  {
    NarrowIsShort(a);
    lines := SplitAll(Docs(a));
    var levels := new int[Levels(a)](_ => 0);
    assert levels[..] == Zeros(Levels(a));
    FirstVisit(a);
    ValueBound(Digits(a, levels[..]), Radices(a));
    patterns, choices, visited := [], [], [];
    var more := true;
    while more
      invariant levels.Length == Levels(a) && Rounds(a, lines, visited, choices, patterns)
      invariant if more then Visit(a, levels[..], |visited|) && |visited| < Product(Radices(a))
                else |visited| == Product(Radices(a)) && levels[..] == Zeros(Levels(a))
      decreases Product(Radices(a)) - |visited|, more
    {
      var printed;
      ghost var lv;
      printed, more, lv := NextPattern(a, levels, lines, |visited|);
      ghost var ds := Spread(Docs(a), lv);
      RoundsNext(a, lines, visited, choices, patterns, lv, ds, printed);
      patterns, choices, visited := patterns + [printed], choices + [ds], visited + [lv];
    }
    RoundsAreChoices(a, lines, visited, choices, patterns);
    final := levels[..];
  }

  // ---------- The order of the rounds ----------

  lemma {:induction false} OwnDigit(a: Argp, lv: seq<int>, k: nat)
    requires Visit(a, lv, k) && Multiple(a)
    ensures var n := Product(RadicesBelow(a, 0)); lv[0] >= 0 && n * lv[0] <= k < n * lv[0] + n
  {
    var x, p, r := DigitsBelow(a, 0, lv[1..]), RadicesBelow(a, 0), Breaks(a.argsDoc.value) + 1;
    RangeConcat(x, p, [lv[0]], [r]);
    ValueConcat(x, p, [lv[0]], [r]);
    ValueBound(x, p);
    OneValue(lv[0], r);
  }

  /** The argp's own line moves on only after all combinations below it have been printed. */
  lemma {:induction false} OwnLineSlowest(a: Argp, lines: seq<seq<string>>, lv: seq<int>, k: nat, ds: seq<nat>,
                                          printed: seq<string>)
    requires Round(a, lines, lv, k, ds, printed) && Multiple(a)
    ensures var n := Product(RadicesBelow(a, 0)); |ds| > 0 && n * ds[0] <= k < n * ds[0] + n
  {
    OwnDigit(a, lv, k);
    assert Docs(a)[0] == a.argsDoc.value && Docs(a)[..0] == [];
    assert ds[0] == LineNumber(Docs(a), lv, 0) == lv[0];
  }

  lemma {:induction false} OneValue(d: int, r: nat)
    requires InRange([d], [r])
    ensures 0 <= d < r && Value([d], [r]) == d
  {
    assert 0 <= [d][0] < [r][0] && [d][1..] == [] && [r][1..] == [];
    assert Value([], []) == 0;
  }

  /** Of two children the earlier one moves faster: the number of a round below counts the rounds of child i,
      and the children after it in units of those. */
  lemma {:induction false} EarlierChildFaster(a: Argp, i: nat, lv: seq<int>)
    requires i < |a.children| && |lv| == LevelsBelow(a, i) && InRange(DigitsBelow(a, i, lv), RadicesBelow(a, i))
    ensures var n := Levels(a.children[i]);
      && InRange(Digits(a.children[i], lv[..n]), Radices(a.children[i]))
      && InRange(DigitsBelow(a, i + 1, lv[n..]), RadicesBelow(a, i + 1))
      && Value(DigitsBelow(a, i, lv), RadicesBelow(a, i)) ==
         Value(Digits(a.children[i], lv[..n]), Radices(a.children[i]))
         + Product(Radices(a.children[i])) * Value(DigitsBelow(a, i + 1, lv[n..]), RadicesBelow(a, i + 1))
  {
    var n, child := Levels(a.children[i]), a.children[i];
    RangeConcat(Digits(child, lv[..n]), Radices(child), DigitsBelow(a, i + 1, lv[n..]), RadicesBelow(a, i + 1));
    ValueConcat(Digits(child, lv[..n]), Radices(child), DigitsBelow(a, i + 1, lv[n..]), RadicesBelow(a, i + 1));
  }

  // ---------- When the loop ends ----------

  /** The level bytes after n rounds. */
  function After(a: Argp, n: nat): (lv: seq<int>)
    ensures |lv| == Levels(a)
  {
    if n == 0 then Zeros(Levels(a)) else Advance(a, After(a, n - 1), true).0
  }

  /** Round n, counted from 0, is the last one. */
  predicate EndsAt(a: Argp, n: nat)
  {
    Advance(a, After(a, n), true).1
  }

  lemma {:induction false} AfterCounts(a: Argp, n: nat)
    requires Narrow(Radices(a)) && n < Product(Radices(a))
    ensures Visit(a, After(a, n), n)
  {
    if n == 0 {
      FirstVisit(a);
    } else {
      AfterCounts(a, n - 1);
      NextVisit(a, After(a, n - 1), n - 1);
    }
  }

  lemma {:induction false} AfterStaysInBytes(a: Argp, n: nat)
    ensures InBytes(Digits(a, After(a, n)), Radices(a))
  {
    if n == 0 {
      RadicesPositive(a);
      ZerosAreZeros(a);
    } else {
      AfterStaysInBytes(a, n - 1);
      AdvanceIsInc(a, After(a, n - 1), true);
      IncKeepsBytes(Digits(a, After(a, n - 1)), Radices(a), true);
    }
  }

  /** The loop ends if and only if no args_doc of the tree has more than 128 lines: beyond that a level,
      being a signed byte, never reaches its last line. */
  lemma {:induction false} UsageEnds(a: Argp)
    ensures (exists n :: EndsAt(a, n)) <==> Short(Docs(a))
  {
    NarrowIsShort(a);
    if Narrow(Radices(a)) {
      FirstVisit(a);
      ValueBound(Digits(a, Zeros(Levels(a))), Radices(a));
      var n := Product(Radices(a)) - 1;
      AfterCounts(a, n);
      NextVisit(a, After(a, n), n);
      assert EndsAt(a, n);
    } else {
      forall n ensures !EndsAt(a, n) {
        AfterStaysInBytes(a, n);
        AdvanceIsInc(a, After(a, n), true);
        WideNeverCarries(Digits(a, After(a, n)), Radices(a), true);
      }
    }
  }

  lemma {:induction false} NewlinesOnly(n: nat)
    ensures Breaks(seq(n, _ => '\n')) == n
  {
    if n > 0 {
      assert seq(n, _ => '\n')[1..] == seq(n - 1, _ => '\n');
      NewlinesOnly(n - 1);
    }
  }

  /** An args_doc of 129 empty lines: the loop goes on for ever. */
  lemma TooManyLines()
    ensures var a := Argp(None, false, Some(seq(128, _ => '\n')), []); !exists n :: EndsAt(a, n)
  {
    var a := Argp(None, false, Some(seq(128, _ => '\n')), []);
    NewlinesOnly(128);
    assert Docs(a)[0] == a.argsDoc.value;
    UsageEnds(a);
  }
}

/** The usage patterns of argp-help.c: one line of args_doc for every argp of the tree, in every combination. */
module ArgpUsage {
  import opened Options
  import opened ArgpTypes
  import opened Odometer
  import opened Seqs

  // ---------- Lines of a documentation string ----------

  function Breaks(doc: string): nat
  {
    if doc == "" then 0 else (if doc[0] == '\n' then 1 else 0) + Breaks(doc[1..])
  }

  /** __strchrnul (s, '\n'): the position of the first newline, or of the end. */
  function NewlineAt(s: string): (n: nat)
    ensures n <= |s| && (n < |s| ==> s[n] == '\n') && forall k :: 0 <= k < n ==> s[k] != '\n'
    ensures n < |s| <==> Breaks(s) > 0
  {
    if s == "" || s[0] == '\n' then 0 else 1 + NewlineAt(s[1..])
  }

  /** The string from its line k on. */
  function FromLine(s: string, k: nat): (r: string)
    requires k <= Breaks(s)
    ensures Breaks(r) == Breaks(s) - k
    decreases k
  {
    if k == 0 then s else BreaksAfter(s); FromLine(s[NewlineAt(s) + 1..], k - 1)
  }

  lemma {:induction false} BreaksAfter(s: string)
    requires Breaks(s) > 0
    ensures NewlineAt(s) < |s| && Breaks(s[NewlineAt(s) + 1..]) == Breaks(s) - 1
  {
    if s[0] != '\n' {
      BreaksAfter(s[1..]);
      assert s[1..][NewlineAt(s[1..]) + 1..] == s[NewlineAt(s) + 1..];
    }
  }

  function Line(s: string, k: nat): string
    requires k <= Breaks(s)
  {
    var rest := FromLine(s, k); rest[..NewlineAt(rest)]
  }

  // ---------- Levels of a tree ----------

  /** The argp has several alternative args strings, so that it takes a level byte. */
  predicate Multiple(a: Argp)
  {
    a.argsDoc.Some? && Breaks(a.argsDoc.value) > 0
  }

  /** argp_args_levels. */
  function Levels(a: Argp): nat
    decreases a, |a.children| + 1
  {
    (if Multiple(a) then 1 else 0) + LevelsBelow(a, 0)
  }

  function LevelsBelow(a: Argp, i: nat): nat
    requires i <= |a.children|
    decreases a, |a.children| - i
  {
    if i == |a.children| then 0 else Levels(a.children[i]) + LevelsBelow(a, i + 1)
  }

  /** How many lines each level has, in the order in which the levels advance: children first, in order,
      then the argp itself. */
  function Radices(a: Argp): (r: seq<nat>)
    ensures |r| == Levels(a)
    decreases a, |a.children| + 1
  {
    RadicesBelow(a, 0) + if Multiple(a) then [Breaks(a.argsDoc.value) + 1] else []
  }

  function RadicesBelow(a: Argp, i: nat): (r: seq<nat>)
    requires i <= |a.children|
    ensures |r| == LevelsBelow(a, i)
    decreases a, |a.children| - i
  {
    if i == |a.children| then [] else Radices(a.children[i]) + RadicesBelow(a, i + 1)
  }

  /** Level bytes, which lie in pre-order, rearranged in that order. */
  function Digits(a: Argp, lv: seq<int>): (r: seq<int>)
    requires |lv| == Levels(a)
    ensures |r| == Levels(a)
    decreases a, |a.children| + 1
  {
    if Multiple(a) then DigitsBelow(a, 0, lv[1..]) + [lv[0]] else DigitsBelow(a, 0, lv)
  }

  function DigitsBelow(a: Argp, i: nat, lv: seq<int>): (r: seq<int>)
    requires i <= |a.children| && |lv| == LevelsBelow(a, i)
    ensures |r| == LevelsBelow(a, i)
    decreases a, |a.children| - i
  {
    if i == |a.children| then []
    else
      var n := Levels(a.children[i]);
      Digits(a.children[i], lv[..n]) + DigitsBelow(a, i + 1, lv[n..])
  }

  // ---------- argp_args_usage ----------

  /** The level bytes after a call, and whether the advance is still to be done by the caller. */
  function Advance(a: Argp, lv: seq<int>, advance: bool): (r: (seq<int>, bool))
    requires |lv| == Levels(a)
    ensures |r.0| == |lv|
    decreases a, |a.children| + 1
  {
    if Multiple(a) then
      var below := AdvanceBelow(a, 0, lv[1..], advance);
      var own := if below.1 then DigitUp(lv[0], Breaks(a.argsDoc.value) + 1) else (lv[0], false);
      ([own.0] + below.0, own.1)
    else AdvanceBelow(a, 0, lv, advance)
  }

  function AdvanceBelow(a: Argp, i: nat, lv: seq<int>, advance: bool): (r: (seq<int>, bool))
    requires i <= |a.children| && |lv| == LevelsBelow(a, i)
    ensures |r.0| == |lv|
    decreases a, |a.children| - i
  {
    if i == |a.children| then ([], advance)
    else
      var n := Levels(a.children[i]);
      var x := Advance(a.children[i], lv[..n], advance);
      var y := AdvanceBelow(a, i + 1, lv[n..], x.1);
      (x.0 + y.0, y.1)
  }

  /** The recursive walk is one step of the odometer. */
  lemma {:induction false} AdvanceIsInc(a: Argp, lv: seq<int>, advance: bool)
    requires |lv| == Levels(a)
    ensures var r := Advance(a, lv, advance); (Digits(a, r.0), r.1) == Inc(Digits(a, lv), Radices(a), advance)
    decreases a, |a.children| + 1
  {
    if Multiple(a) {
      BelowIsInc(a, 0, lv[1..], advance);
      var below := AdvanceBelow(a, 0, lv[1..], advance);
      IncConcat(DigitsBelow(a, 0, lv[1..]), RadicesBelow(a, 0), [lv[0]], [Breaks(a.argsDoc.value) + 1], advance);
      OneDigit(lv[0], Breaks(a.argsDoc.value) + 1, below.1);
      assert Advance(a, lv, advance).0[1..] == below.0;
    } else {
      BelowIsInc(a, 0, lv, advance);
      assert RadicesBelow(a, 0) + [] == RadicesBelow(a, 0);
    }
  }

  lemma {:induction false} OneDigit(d: int, r: nat, carry: bool)
    ensures var u := if carry then DigitUp(d, r) else (d, false); Inc([d], [r], carry) == ([u.0], u.1)
  {
    var u := if carry then DigitUp(d, r) else (d, false);
    assert [d][1..] == [] && [r][1..] == [] && [u.0] + [] == [u.0];
    assert Inc([], [], u.1) == ([], u.1);
  }

  lemma {:induction false} BelowIsInc(a: Argp, i: nat, lv: seq<int>, advance: bool)
    requires i <= |a.children| && |lv| == LevelsBelow(a, i)
    ensures var r := AdvanceBelow(a, i, lv, advance);
      (DigitsBelow(a, i, r.0), r.1) == Inc(DigitsBelow(a, i, lv), RadicesBelow(a, i), advance)
    decreases a, |a.children| - i
  {
    if i < |a.children| {
      var n := Levels(a.children[i]);
      AdvanceIsInc(a.children[i], lv[..n], advance);
      var x := Advance(a.children[i], lv[..n], advance);
      BelowIsInc(a, i + 1, lv[n..], x.1);
      IncConcat(Digits(a.children[i], lv[..n]), Radices(a.children[i]),
                DigitsBelow(a, i + 1, lv[n..]), RadicesBelow(a, i + 1), advance);
      var y := AdvanceBelow(a, i + 1, lv[n..], x.1);
      assert (x.0 + y.0)[..n] == x.0 && (x.0 + y.0)[n..] == y.0;
    }
  }

  /** Rearranging loses nothing. */
  lemma {:induction false} DigitsDetermine(a: Argp, lv: seq<int>, lv': seq<int>)
    requires |lv| == Levels(a) == |lv'| && Digits(a, lv) == Digits(a, lv')
    ensures lv == lv'
    decreases a, |a.children| + 1
  {
    if Multiple(a) {
      var x, y := DigitsBelow(a, 0, lv[1..]), DigitsBelow(a, 0, lv'[1..]);
      assert x == (x + [lv[0]])[..|x|] && y == (y + [lv'[0]])[..|y|];
      assert (x + [lv[0]])[|x|] == lv[0] && (y + [lv'[0]])[|y|] == lv'[0];
      BelowDetermine(a, 0, lv[1..], lv'[1..]);
      assert lv == [lv[0]] + lv[1..] && lv' == [lv'[0]] + lv'[1..];
    } else {
      BelowDetermine(a, 0, lv, lv');
    }
  }

  lemma {:induction false} BelowDetermine(a: Argp, i: nat, lv: seq<int>, lv': seq<int>)
    requires i <= |a.children| && |lv| == LevelsBelow(a, i) == |lv'| && DigitsBelow(a, i, lv) == DigitsBelow(a, i, lv')
    ensures lv == lv'
    decreases a, |a.children| - i
  {
    if i < |a.children| {
      var n := Levels(a.children[i]);
      var x, y := Digits(a.children[i], lv[..n]), Digits(a.children[i], lv'[..n]);
      var u, v := DigitsBelow(a, i + 1, lv[n..]), DigitsBelow(a, i + 1, lv'[n..]);
      assert x == (x + u)[..n] && y == (y + v)[..n] && u == (x + u)[n..] && v == (y + v)[n..];
      DigitsDetermine(a.children[i], lv[..n], lv'[..n]);
      BelowDetermine(a, i + 1, lv[n..], lv'[n..]);
      assert lv == lv[..n] + lv[n..] && lv' == lv'[..n] + lv'[n..];
    }
  }

  lemma {:induction false} ZerosAreZeros(a: Argp)
    ensures Digits(a, Zeros(Levels(a))) == Zeros(Levels(a))
    decreases a, |a.children| + 1
  {
    ZerosBelow(a, 0);
    assert Multiple(a) ==> Zeros(Levels(a))[1..] == Zeros(LevelsBelow(a, 0));
  }

  lemma {:induction false} ZerosBelow(a: Argp, i: nat)
    requires i <= |a.children|
    ensures DigitsBelow(a, i, Zeros(LevelsBelow(a, i))) == Zeros(LevelsBelow(a, i))
    decreases a, |a.children| - i
  {
    if i < |a.children| {
      var n := Levels(a.children[i]);
      ZerosAreZeros(a.children[i]);
      ZerosBelow(a, i + 1);
      assert Zeros(LevelsBelow(a, i))[..n] == Zeros(n) && Zeros(LevelsBelow(a, i))[n..] == Zeros(LevelsBelow(a, i + 1));
    }
  }

  // ---------- Patterns ----------

  /** Every level byte stands for a line that there is. */
  predicate InLines(a: Argp, lv: seq<int>)
    requires |lv| == Levels(a)
    decreases a, |a.children| + 1
  {
    if Multiple(a) then Row(lv[0]) <= Breaks(a.argsDoc.value) && InLinesBelow(a, 0, lv[1..]) else InLinesBelow(a, 0, lv)
  }

  predicate InLinesBelow(a: Argp, i: nat, lv: seq<int>)
    requires i <= |a.children| && |lv| == LevelsBelow(a, i)
    decreases a, |a.children| - i
  {
    i < |a.children| ==>
      var n := Levels(a.children[i]); InLines(a.children[i], lv[..n]) && InLinesBelow(a, i + 1, lv[n..])
  }

  lemma {:induction false} BytesInLines(a: Argp, lv: seq<int>)
    requires |lv| == Levels(a) && InBytes(Digits(a, lv), Radices(a))
    ensures InLines(a, lv)
    decreases a, |a.children| + 1
  {
    if Multiple(a) {
      var ds, rs := DigitsBelow(a, 0, lv[1..]), RadicesBelow(a, 0);
      var r := Breaks(a.argsDoc.value) + 1;
      assert (ds + [lv[0]])[|ds|] == lv[0] && (rs + [r])[|rs|] == r;
      BytesSplit(ds, rs, [lv[0]], [r]);
      BytesBelow(a, 0, lv[1..]);
    } else {
      assert RadicesBelow(a, 0) + [] == RadicesBelow(a, 0);
      BytesBelow(a, 0, lv);
    }
  }

  lemma BytesSplit(x: seq<int>, p: seq<nat>, y: seq<int>, q: seq<nat>)
    requires |x| == |p| && |y| == |q| && InBytes(x + y, p + q)
    ensures InBytes(x, p) && InBytes(y, q)
  {
    forall k | 0 <= k < |x| ensures -128 <= x[k] <= 127 && Row(x[k]) < p[k] {
      assert (x + y)[k] == x[k] && (p + q)[k] == p[k];
    }
    forall k | 0 <= k < |y| ensures -128 <= y[k] <= 127 && Row(y[k]) < q[k] {
      assert (x + y)[|x| + k] == y[k] && (p + q)[|x| + k] == q[k];
    }
  }

  lemma {:induction false} BytesBelow(a: Argp, i: nat, lv: seq<int>)
    requires i <= |a.children| && |lv| == LevelsBelow(a, i) && InBytes(DigitsBelow(a, i, lv), RadicesBelow(a, i))
    ensures InLinesBelow(a, i, lv)
    decreases a, |a.children| - i
  {
    if i < |a.children| {
      var n := Levels(a.children[i]);
      BytesSplit(Digits(a.children[i], lv[..n]), Radices(a.children[i]),
                 DigitsBelow(a, i + 1, lv[n..]), RadicesBelow(a, i + 1));
      BytesInLines(a.children[i], lv[..n]);
      BytesBelow(a, i + 1, lv[n..]);
    }
  }

  /** What one call prints: the chosen line of every argp that has an args_doc, in pre-order. */
  function Pattern(a: Argp, lv: seq<int>): seq<string>
    requires |lv| == Levels(a) && InLines(a, lv)
    decreases a, |a.children| + 1
  {
    OwnLine(a, lv) + PatternBelow(a, 0, if Multiple(a) then lv[1..] else lv)
  }

  function OwnLine(a: Argp, lv: seq<int>): seq<string>
    requires Multiple(a) ==> |lv| > 0 && Row(lv[0]) <= Breaks(a.argsDoc.value)
  {
    if a.argsDoc.None? then [] else [Line(a.argsDoc.value, if Multiple(a) then Row(lv[0]) else 0)]
  }

  function PatternBelow(a: Argp, i: nat, lv: seq<int>): seq<string>
    requires i <= |a.children| && |lv| == LevelsBelow(a, i) && InLinesBelow(a, i, lv)
    decreases a, |a.children| - i
  {
    if i == |a.children| then []
    else var n := Levels(a.children[i]); Pattern(a.children[i], lv[..n]) + PatternBelow(a, i + 1, lv[n..])
  }

  // ---------- The level bytes in place ----------

  function Patched(s: seq<int>, at: nat, vals: seq<int>): (r: seq<int>)
    requires at + |vals| <= |s|
    ensures |r| == |s|
  {
    s[..at] + vals + s[at + |vals|..]
  }

  lemma PatchedTwice(s: seq<int>, at: nat, x: seq<int>, y: seq<int>)
    requires at + |x| + |y| <= |s|
    ensures Patched(Patched(s, at, x), at + |x|, y) == Patched(s, at, x + y)
    ensures Patched(s, at, x)[at + |x|..] == s[at + |x|..]
  {
  }

  lemma PatchedFront(s: seq<int>, at: nat, d: int, y: seq<int>)
    requires at + 1 + |y| <= |s|
    ensures Patched(s, at + 1, y)[at := d] == Patched(s, at, [d] + y)
  {
  }

  /** Goes to the chosen line and finds its end: where the line begins, and the rest of the text after it. */
  method Choose(doc: string, level: int) returns (line: string, more: bool)
    requires Row(level) <= Breaks(doc)
    ensures line == Line(doc, Row(level)) && more == (Row(level) < Breaks(doc))
  {
    var cp := doc;
    var i := 0;
    while i < level
      invariant 0 <= i <= Row(level) && Breaks(cp) == Breaks(doc) - i
      invariant FromLine(cp, Row(level) - i) == FromLine(doc, Row(level))
    {
      BreaksAfter(cp);
      cp := cp[NewlineAt(cp) + 1..];
      i := i + 1;
    }
    line, more := cp[..NewlineAt(cp)], NewlineAt(cp) < |cp|;
  }

  /** argp_args_usage: prints one pattern and advances the level bytes lv, which begin at position at. */
  method ArgsUsage(a: Argp, levels: array<int>, at: nat, advance: bool, ghost lv: seq<int>)
    returns (next: nat, more: bool, printed: seq<string>)
    requires |lv| == Levels(a) && at + |lv| <= levels.Length && levels[at..at + |lv|] == lv && InLines(a, lv)
    modifies levels
    ensures next == at + |lv| && printed == Pattern(a, lv) && more == !Advance(a, lv, advance).1
    ensures levels[..] == Patched(old(levels[..]), at, Advance(a, lv, advance).0)
    decreases a, 3
  {
    if a.argsDoc.None? {
      next, more, printed := ChildrenUsage(a, levels, at, advance, lv);
      assert [] + printed == printed;
    } else if NewlineAt(a.argsDoc.value) == |a.argsDoc.value| {
      next, more, printed := ChildrenUsage(a, levels, at, advance, lv);
      printed := [a.argsDoc.value] + printed;
      assert a.argsDoc.value[..NewlineAt(a.argsDoc.value)] == a.argsDoc.value;
    } else {
      next, more, printed := MultipleUsage(a, levels, at, advance, lv);
    }
  }

  /** The case of an args_doc with several lines. */
  method MultipleUsage(a: Argp, levels: array<int>, at: nat, advance: bool, ghost lv: seq<int>)
    returns (next: nat, more: bool, printed: seq<string>)
    requires |lv| == Levels(a) && at + |lv| <= levels.Length
    requires levels[at..at + |lv|] == lv && InLines(a, lv) && Multiple(a)
    modifies levels
    ensures next == at + |lv| && printed == Pattern(a, lv) && more == !Advance(a, lv, advance).1
    ensures levels[..] == Patched(old(levels[..]), at, Advance(a, lv, advance).0)
    decreases a, 2
  {
    ghost var s := levels[..];
    assert levels[at + 1..at + |lv|] == lv[1..] && levels[at] == lv[0];
    var level := levels[at];
    var line, moreLines := Choose(a.argsDoc.value, level);
    next, more, printed := ChildrenUsage(a, levels, at + 1, advance, lv[1..]);
    printed := [line] + printed;
    ghost var below := AdvanceBelow(a, 0, lv[1..], advance);
    more := Step(levels, at, level, moreLines, !more, s, below.0);
  }

  /** The end of argp_args_usage: the argp's own level advances if it is told to, with the bytes below in y
      already done. */
  method Step(levels: array<int>, at: nat, level: int, moreLines: bool, advance: bool, ghost s: seq<int>,
              ghost y: seq<int>)
    returns (more: bool)
    requires at + 1 + |y| <= |s| && levels[..] == Patched(s, at + 1, y) && s[at] == level
    modifies levels
    ensures var d :=
        if !advance then level
        else if moreLines then (if level == 127 then -128 else level + 1)
        else if level > 0 then 0
        else level;
      levels[..] == Patched(s, at, [d] + y)
    ensures more == (!advance || moreLines)
  {
    ghost var t := levels[..];
    more := !advance || moreLines;
    if advance && moreLines {
      levels[at] := if level == 127 then -128 else level + 1;
      PatchedFront(s, at, levels[at], y);
    } else if advance && level > 0 {
      levels[at] := 0;
      PatchedFront(s, at, 0, y);
    } else {
      PatchedFront(s, at, level, y);
      assert t[at := level] == t;
    }
  }

  /** The loop over the children. */
  method ChildrenUsage(a: Argp, levels: array<int>, at: nat, advance: bool, ghost lv: seq<int>)
    returns (next: nat, more: bool, printed: seq<string>)
    requires |lv| == LevelsBelow(a, 0) && at + |lv| <= levels.Length
    requires levels[at..at + |lv|] == lv && InLinesBelow(a, 0, lv)
    modifies levels
    ensures next == at + |lv| && printed == PatternBelow(a, 0, lv) && more == !AdvanceBelow(a, 0, lv, advance).1
    ensures levels[..] == Patched(old(levels[..]), at, AdvanceBelow(a, 0, lv, advance).0)
    decreases a, 1
  {
    ghost var s, done: seq<int> := levels[..], [];
    UsageStart(a, lv, advance);
    assert Patched(s, at, []) == s && s[at..at + |lv|] == lv;
    next, more, printed := at, !advance, [];
    for i := 0 to |a.children|
      invariant next == at + |done| <= at + |lv| && levels[..] == Patched(s, at, done)
      invariant UsageRest(a, i, lv, advance, done, !more, printed)
    {
      next, more, printed, done := ChildUsage(a, i, levels, next, more, printed, s, at, lv, advance, done);
    }
    UsageEnd(a, lv, advance, done, !more, printed);
  }

  lemma SliceOf(s: seq<int>, at: nat, done: seq<int>, lv: seq<int>, n: nat)
    requires at + |lv| <= |s| && s[at..at + |lv|] == lv && |done| + n <= |lv|
    ensures Patched(s, at, done)[at + |done|..at + |done| + n] == lv[|done|..|done| + n]
  {
    var p, i := Patched(s, at, done), at + |done|;
    assert p[i..] == s[i..];
    assert p[i..i + n] == p[i..][..n] && s[i..i + n] == s[i..][..n];
    SubSlice(s, at, at + |lv|, |done|, |done| + n);
  }

  /** One child. */
  method ChildUsage(a: Argp, i: nat, levels: array<int>, next: nat, more: bool, printed: seq<string>,
                    ghost s: seq<int>, ghost at: nat, ghost lv: seq<int>, ghost advance: bool, ghost done: seq<int>)
    returns (next': nat, more': bool, printed': seq<string>, ghost done': seq<int>)
    requires i < |a.children| && |lv| == LevelsBelow(a, 0) && InLinesBelow(a, 0, lv)
    requires at + |lv| <= |s| && s[at..at + |lv|] == lv
    requires next == at + |done| <= at + |lv| && levels[..] == Patched(s, at, done)
    requires UsageRest(a, i, lv, advance, done, !more, printed)
    modifies levels
    ensures next' == at + |done'| <= at + |lv| && levels[..] == Patched(s, at, done')
    ensures UsageRest(a, i + 1, lv, advance, done', !more', printed')
    decreases a, 0
  {
    ghost var child := a.children[i];
    UsageStep(a, i, lv, advance, done, !more, printed);
    ghost var mine := lv[|done|..|done| + Levels(child)];
    ghost var x := Advance(child, mine, !more);
    PatchedTwice(s, at, done, x.0);
    SliceOf(s, at, done, lv, |mine|);
    var text: seq<string>;
    next', more', text := ArgsUsage(a.children[i], levels, next, !more, mine);
    assert text == Pattern(child, mine) && more' == !x.1;
    printed', done' := printed + text, done + x.0;
  }

  /** Children before i have been handled: they have made done out of their part of lv, and what the rest
      will do completes the whole. */
  ghost predicate UsageRest(a: Argp, i: nat, lv: seq<int>, advance: bool, done: seq<int>, now: bool,
                            printed: seq<string>)
    requires i <= |a.children| && |lv| == LevelsBelow(a, 0) && InLinesBelow(a, 0, lv)
  {
    && |done| + LevelsBelow(a, i) == |lv| && InLinesBelow(a, i, lv[|done|..])
    && var r, goal := AdvanceBelow(a, i, lv[|done|..], now), AdvanceBelow(a, 0, lv, advance);
    && done + r.0 == goal.0 && r.1 == goal.1
    && printed + PatternBelow(a, i, lv[|done|..]) == PatternBelow(a, 0, lv)
  }

  lemma {:induction false} UsageStart(a: Argp, lv: seq<int>, advance: bool)
    requires |lv| == LevelsBelow(a, 0) && InLinesBelow(a, 0, lv)
    ensures UsageRest(a, 0, lv, advance, [], advance, [])
  {
    assert lv[0..] == lv;
  }

  lemma {:induction false} UsageStep(a: Argp, i: nat, lv: seq<int>, advance: bool, done: seq<int>, now: bool,
                                     printed: seq<string>)
    requires i < |a.children| && |lv| == LevelsBelow(a, 0) && InLinesBelow(a, 0, lv)
    requires UsageRest(a, i, lv, advance, done, now, printed)
    ensures var n := Levels(a.children[i]); |done| + n <= |lv| && var mine := lv[|done|..|done| + n];
      && InLines(a.children[i], mine)
      && var x := Advance(a.children[i], mine, now);
      UsageRest(a, i + 1, lv, advance, done + x.0, x.1, printed + Pattern(a.children[i], mine))
  {
    var n, rest := Levels(a.children[i]), lv[|done|..];
    var x := Advance(a.children[i], rest[..n], now);
    assert rest[..n] == lv[|done|..|done| + n] && rest[n..] == lv[|done + x.0|..];
    var y := AdvanceBelow(a, i + 1, rest[n..], x.1);
    assert done + (x.0 + y.0) == (done + x.0) + y.0;
    var p, q := Pattern(a.children[i], rest[..n]), PatternBelow(a, i + 1, rest[n..]);
    assert printed + (p + q) == (printed + p) + q;
  }

  lemma {:induction false} UsageEnd(a: Argp, lv: seq<int>, advance: bool, done: seq<int>, now: bool,
                                    printed: seq<string>)
    requires |lv| == LevelsBelow(a, 0) && InLinesBelow(a, 0, lv)
    requires UsageRest(a, |a.children|, lv, advance, done, now, printed)
    ensures AdvanceBelow(a, 0, lv, advance) == (done, now) && printed == PatternBelow(a, 0, lv) && |done| == |lv|
  {
    assert done + [] == done && printed + [] == printed;
  }
}

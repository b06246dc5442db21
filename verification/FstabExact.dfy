/** Exactly which entries of the mount table survive being written and read, and when the numbers of a line are
    those of the line before it. */
module FstabExact {
  import opened Options
  import opened FstabNames
  import opened FstabTable

  // ---------- Fields are never read as empty ----------

  /** Some character of s is not a blank. */
  predicate Inked(s: string)
  {
    exists k :: 0 <= k < |s| && s[k] !in " \t"
  }

  lemma {:induction false} SkipToInk(s: string)
    requires Inked(s)
    ensures SkipBlanks(s) != "" && SkipBlanks(s)[0] !in " \t"
  {
    if s[0] in " \t" {
      var k :| 0 <= k < |s| && s[k] !in " \t";
      assert s[1..][k - 1] !in " \t";
      SkipToInk(s[1..]);
    }
  }

  /** Where text is left, a field is never read as empty. */
  lemma {:induction false} FieldNotEmpty(l: string)
    requires Inked(l)
    ensures TakeField(Some(SkipBlanks(l))).0 != "" && LastField(Some(SkipBlanks(l))).0 != ""
  {
    SkipToInk(l);
    assert Until(SkipBlanks(l), " \t") > 0;
  }

  /** A field and whatever follows it. */
  lemma {:induction false} FieldThen(name: string, l: string)
    ensures TakeField(Some(Encode(name) + " " + l)) == (name, Some(SkipBlanks(l)))
  {
    EncodedName(name);
    TokenEnds(Encode(name), l);
    NameRoundTrip(name);
  }

  lemma InkedEnd(t: string, n: int)
    ensures Inked(t + Printed(n))
  {
    assert (t + Printed(n))[|t|] == Printed(n)[0];
  }

  lemma InkedAfter(t: string, s: string)
    requires Inked(s)
    ensures Inked(t + s)
  {
    var k :| 0 <= k < |s| && s[k] !in " \t";
    assert (t + s)[|t| + k] !in " \t";
  }

  /** What follows the fields of a line is not blank. */
  lemma InkedRests(e: Mnt)
    ensures Inked(FromOpts(e)) && Inked(FromType(e)) && Inked(FromDir(e)) && Inked(LineOf(e))
  {
    InkedEnd(Printed(e.freq) + " ", e.passno);
    InkedAfter(Encode(e.opts) + " ", Numbers(e));
    InkedAfter(Encode(e.fstype) + " ", FromOpts(e));
    InkedAfter(Encode(e.dir) + " ", FromType(e));
    InkedAfter(Encode(e.fsname) + " ", FromDir(e));
  }

  lemma ParseLineFields(line: string, previous: Mnt, f1: (string, Option<string>), f2: (string, Option<string>),
                        f3: (string, Option<string>))
    requires f1 == TakeField(Some(line)) && f2 == TakeField(f1.1) && f3 == TakeField(f2.1)
    ensures ParseLine(line, previous).fsname == f1.0 && ParseLine(line, previous).dir == f2.0
    ensures ParseLine(line, previous).fstype == f3.0 && ParseLine(line, previous).opts == LastField(f3.1).0
  {
  }

  /** So the reader never returns an empty field for such a line: an empty one is taken by its successor. */
  lemma NoFieldEmpty(e: Mnt, previous: Mnt)
    ensures var x := ParseLine(SkipBlanks(LineOf(e)), previous);
      && x.fsname != "" && (e.fsname != "" ==> x.dir != "") && (e.fsname != "" && e.dir != "" ==> x.fstype != "")
      && (e.fsname != "" && e.dir != "" && e.fstype != "" ==> x.opts != "")
  {
    InkedRests(e);
    FieldNotEmpty(LineOf(e));
    var f1 := TakeField(Some(SkipBlanks(LineOf(e))));
    var f2 := TakeField(f1.1);
    ParseLineFields(SkipBlanks(LineOf(e)), previous, f1, f2, TakeField(f2.1));
    if e.fsname != "" {
      TokenHead(e.fsname, FromDir(e));
      FieldThen(e.fsname, FromDir(e));
      FieldNotEmpty(FromDir(e));
      if e.dir != "" {
        TokenHead(e.dir, FromType(e));
        FieldThen(e.dir, FromType(e));
        FieldNotEmpty(FromType(e));
        if e.fstype != "" {
          TokenHead(e.fstype, FromOpts(e));
          FieldThen(e.fstype, FromOpts(e));
          FieldNotEmpty(FromOpts(e));
        }
      }
    }
  }

  // ---------- Newlines ----------

  /** The text behind the last newline. */
  function LastLine(t: string): string
    decreases |t|
  {
    var n := Until(t, "\n"); if n < |t| then LastLine(t[n + 1..]) else t
  }

  lemma {:induction false} UntilIs(s: string, cs: string, n: nat)
    requires n <= |s| && (n < |s| ==> s[n] in cs) && forall k :: 0 <= k < n ==> s[k] !in cs
    ensures Until(s, cs) == n
  {
  }

  lemma {:induction false} UntilFirst(a: string, b: string)
    requires Until(a, "\n") < |a|
    ensures Until(a + b, "\n") == Until(a, "\n")
  {
    var n := Until(a, "\n");
    assert forall k :: 0 <= k <= n ==> (a + b)[k] == a[k];
    UntilIs(a + b, "\n", n);
  }

  lemma {:induction false} UntilSecond(a: string, b: string)
    requires Until(a, "\n") == |a|
    ensures Until(a + b, "\n") == |a| + Until(b, "\n")
  {
    var m := Until(b, "\n");
    assert forall k :: 0 <= k < |a| + m ==> (a + b)[k] == if k < |a| then a[k] else b[k - |a|];
    UntilIs(a + b, "\n", |a| + m);
  }

  lemma {:induction false} HasNewline(s: string)
    ensures '\n' in s <==> Until(s, "\n") < |s|
  {
  }

  lemma {:induction false} LineBehind(s: string, n: nat, t: string)
    requires Until(s, "\n") == n < |s| && s[n + 1..] == t
    ensures LastLine(s) == LastLine(t)
  {
  }

  lemma {:induction false} OnlyLine(s: string)
    requires Until(s, "\n") == |s|
    ensures LastLine(s) == s
  {
  }

  lemma {:induction false} LastLineSecond(a: string, b: string)
    requires Until(a, "\n") == |a|
    ensures LastLine(a + b) == if Until(b, "\n") < |b| then LastLine(b) else a + b
  {
    var m := Until(b, "\n");
    UntilSecond(a, b);
    if m < |b| {
      DropPast(a, b, m + 1);
      LineBehind(a + b, |a| + m, b[m + 1..]);
      LineBehind(b, m, b[m + 1..]);
    } else {
      OnlyLine(a + b);
    }
  }

  lemma {:induction false} LastLineJoin(a: string, b: string)
    ensures LastLine(a + b) == if Until(b, "\n") < |b| then LastLine(b) else LastLine(a) + b
    decreases |a|
  {
    var n := Until(a, "\n");
    if n < |a| {
      UntilFirst(a, b);
      DropInto(a, b, n + 1);
      LastLineJoin(a[n + 1..], b);
    } else {
      LastLineSecond(a, b);
    }
  }

  lemma DropInto(a: string, b: string, n: nat)
    requires n <= |a|
    ensures (a + b)[n..] == a[n..] + b
  {
  }

  lemma DropPast(a: string, b: string, n: nat)
    requires n <= |b|
    ensures (a + b)[|a| + n..] == b[n..]
  {
  }

  /** A newline stands in such a string only together with something that would have been encoded. */
  predicate Quiet(s: string)
  {
    '\n' in s ==> NeedsCode(s)
  }

  /** All blank-separated tokens of the text decode to such strings. */
  predicate QuietText(l: string)
    decreases |l|
  {
    if l == "" then true
    else if l[0] in " \t" then QuietText(l[1..])
    else var n := Until(l, " \t"); Quiet(Decode(l[..n])) && (n < |l| ==> QuietText(l[n + 1..]))
  }

  lemma {:induction false} QuietSkip(l: string)
    requires QuietText(l)
    ensures QuietText(SkipBlanks(l))
    decreases |l|
  {
    if l != "" && l[0] in " \t" { QuietSkip(l[1..]); }
  }

  lemma {:induction false} QuietToken(l: string)
    requires QuietText(l)
    ensures Quiet(Decode(Separate(l).0)) && (Separate(l).1.Some? ==> QuietText(Separate(l).1.value))
  {
    if l != "" && l[0] in " \t" { assert Until(l, " \t") == 0 && l[..0] == ""; }
  }

  lemma QuietField(rest: Option<string>)
    requires rest.Some? ==> QuietText(rest.value)
    ensures var f := TakeField(rest); Quiet(f.0) && (f.1.Some? ==> QuietText(f.1.value))
    ensures Quiet(LastField(rest).0)
  {
    if rest.Some? {
      QuietToken(rest.value);
      if Separate(rest.value).1.Some? { QuietSkip(Separate(rest.value).1.value); }
    }
  }

  /** So the fields read from it are such strings. */
  lemma {:induction false} QuietLine(l: string, previous: Mnt)
    requires QuietText(l)
    ensures var x := ParseLine(l, previous); Quiet(x.fsname) && Quiet(x.dir) && Quiet(x.fstype) && Quiet(x.opts)
  {
    var f1 := TakeField(Some(l));
    var f2 := TakeField(f1.1);
    var f3 := TakeField(f2.1);
    ParseLineFields(l, previous, f1, f2, f3);
    QuietField(Some(l));
    QuietField(f1.1);
    QuietField(f2.1);
    QuietField(f3.1);
  }

  lemma {:induction false} QuietJoin(t: string, l: string)
    requires ' ' !in t && '\t' !in t && Quiet(Decode(t)) && QuietText(l)
    ensures QuietText(t + " " + l)
  {
    var s := t + " " + l;
    assert forall k :: 0 <= k < |t| ==> s[k] == t[k];
    assert s[|t|] == ' ' && s[|t| + 1..] == l;
    if t != "" {
      assert t[0] in t;
      assert Until(s, " \t") == |t| && s[..|t|] == t;
    }
  }

  /** The part of a name's code behind the last newline it keeps. */
  lemma QuietName(name: string)
    ensures var t := LastLine(Encode(name)); ' ' !in t && '\t' !in t && '\n' !in t && Quiet(Decode(t))
  {
    EncodedName(name);
    LastLineIn(Encode(name));
    if '\n' in Encode(name) {
      DecodePlain(LastLine(Encode(name)));
    } else {
      NameRoundTrip(name);
      HasNewline(Encode(name));
    }
  }

  lemma {:induction false} LastLineIn(t: string)
    ensures '\n' !in LastLine(t) && forall c :: c in LastLine(t) ==> c in t
    decreases |t|
  {
    var n := Until(t, "\n");
    if n < |t| { LastLineIn(t[n + 1..]); }
  }

  /** A field in front of the rest of a line. */
  lemma {:induction false} QuietBefore(name: string, l: string)
    requires QuietText(LastLine(l))
    ensures QuietText(LastLine(Encode(name) + " " + l))
  {
    LastLineJoin(Encode(name) + " ", l);
    if Until(l, "\n") == |l| {
      LastLineJoin(Encode(name), " ");
      UntilIs(" ", "\n", 1);
      QuietName(name);
      QuietJoin(LastLine(Encode(name)), l);
    }
  }

  lemma QuietNumber(n: int)
    ensures Quiet(Decode(Printed(n))) && ' ' !in Printed(n) && '\t' !in Printed(n) && '\n' !in Printed(n)
  {
    DecodePlain(Printed(n));
  }

  lemma QuietNumbers(e: Mnt)
    ensures QuietText(LastLine(Numbers(e)))
  {
    QuietNumber(e.freq);
    QuietNumber(e.passno);
    var p := Printed(e.passno);
    assert Until(p, " \t") == |p| && p[..|p|] == p && QuietText(p);
    QuietJoin(Printed(e.freq), p);
    HasNewline(Numbers(e));
  }

  lemma LastLineQuiet(e: Mnt)
    ensures QuietText(LastLine(LineOf(e)))
  {
    QuietNumbers(e);
    QuietBefore(e.opts, Numbers(e));
    QuietBefore(e.fstype, FromOpts(e));
    QuietBefore(e.dir, FromType(e));
    QuietBefore(e.fsname, FromDir(e));
  }

  /** A field with a newline that is kept is not among those that the last part of its broken line gives. */
  lemma BrokenLineQuiet(e: Mnt)
    ensures QuietText(SkipBlanks(LastLine(LineOf(e))))
  {
    LastLineQuiet(e);
    QuietSkip(LastLine(LineOf(e)));
  }

  // ---------- What is read from a written line ----------

  /** A line at the front of a stream is skipped or parsed. */
  lemma {:induction false} LineRead(line: string, rest: string, previous: Mnt)
    requires '\n' !in line && |line| < BUFSIZE
    ensures var h := SkipBlanks(line);
      GetEntry(line + "\n" + rest, previous) ==
        if h == "" || h[0] == '#' then GetEntry(rest, previous) else Some((ParseLine(h, previous), rest))
  {
    FirstLine(line, rest);
  }

  /** If a text, a newline and the rest are in a stream and an entry is read that leaves just the rest, then it
      is read from the last line of the text. */
  lemma {:induction false} ReadFromLastLine(t: string, rest: string, previous: Mnt, x: Mnt)
    requires |t| < BUFSIZE && GetEntry(t + "\n" + rest, previous) == Some((x, rest))
    ensures var h := SkipBlanks(LastLine(t)); h != "" && h[0] != '#' && x == ParseLine(h, previous)
    decreases |t|
  {
    var n := Until(t, "\n");
    if n < |t| {
      FirstLineOff(t, n, rest);
      LineRead(t[..n], t[n + 1..] + "\n" + rest, previous);
      ReadFromLastLine(t[n + 1..], rest, previous, x);
    } else {
      LineRead(t, rest, previous);
      NotFromRest(rest, previous, x);
    }
  }

  lemma FirstLineOff(t: string, n: nat, rest: string)
    requires n < |t| && t[n] == '\n'
    ensures t + "\n" + rest == t[..n] + "\n" + (t[n + 1..] + "\n" + rest)
  {
    assert t == t[..n] + "\n" + t[n + 1..];
  }

  /** Reading an entry from the rest leaves less than the rest. */
  lemma {:induction false} NotFromRest(rest: string, previous: Mnt, x: Mnt)
    ensures GetEntry(rest, previous) != Some((x, rest))
  {
    if GetEntry(rest, previous).Some? { GetShorter(rest, previous); }
  }

  lemma InJoin(c: char, a: string, b: string)
    requires c != ' '
    ensures c in a + " " + b <==> c in a || c in b
  {
  }

  lemma NewlineInLine(e: Mnt)
    ensures '\n' in LineOf(e) <==> !Quiet(e.fsname) || !Quiet(e.dir) || !Quiet(e.fstype) || !Quiet(e.opts)
  {
    InJoin('\n', Encode(e.fsname), FromDir(e));
    InJoin('\n', Encode(e.dir), FromType(e));
    InJoin('\n', Encode(e.fstype), FromOpts(e));
    InJoin('\n', Encode(e.opts), Numbers(e));
    InJoin('\n', Printed(e.freq), Printed(e.passno));
    NewlineKept(e.fsname);
    NewlineKept(e.dir);
    NewlineKept(e.fstype);
    NewlineKept(e.opts);
  }

  lemma NewlineKept(name: string)
    ensures '\n' in Encode(name) <==> !Quiet(name)
  {
    EncodedName(name);
  }

  /** Any entry whose line fits is read back, as the next one and with nothing else read, if and only if no field
      is empty, no field keeps a newline, and the first does not start with '#'. */
  lemma {:induction false} ShortLineExact(e: Mnt, rest: string, previous: Mnt)
    requires |LineOf(e)| < BUFSIZE
    ensures GetEntry(LineOf(e) + "\n" + rest, previous) == Some((e, rest)) <==> GoodFields(e) && e.fsname[0] != '#'
  {
    if GoodFields(e) && e.fsname[0] != '#' {
      EntryRoundTrip(e, rest, previous);
    } else if GetEntry(LineOf(e) + "\n" + rest, previous) == Some((e, rest)) {
      ReadFromLastLine(LineOf(e), rest, previous, e);
      BrokenLineQuiet(e);
      QuietLine(SkipBlanks(LastLine(LineOf(e))), previous);
      NewlineInLine(e);
      HasNewline(LineOf(e));
      NoFieldEmpty(e, previous);
      TokenHead(e.fsname, FromDir(e));
      assert false;
    }
  }

  /** The volume file name "a<newline>b" does not come back. */
  lemma {:induction false} NewlineNameBreaks(rest: string, previous: Mnt)
    ensures var e := Mnt("a\nb", "d", "t", "o", 0, 0);
      |LineOf(e)| < BUFSIZE && GetEntry(LineOf(e) + "\n" + rest, previous) != Some((e, rest))
  {
    var e := Mnt("a\nb", "d", "t", "o", 0, 0);
    assert '\n' in e.fsname && !NeedsCode(e.fsname);
    EncodedName(e.fsname);
    EncodedName(e.dir);
    EncodedName(e.fstype);
    EncodedName(e.opts);
    assert |Printed(0)| == 1;
    ShortLineExact(e, rest, previous);
  }

  /** An entry whose first field starts with '#' is skipped as a comment. */
  lemma {:induction false} CommentLost(e: Mnt, rest: string, previous: Mnt)
    requires GoodFields(e) && e.fsname[0] == '#' && |LineOf(e)| < BUFSIZE
    ensures GetEntry(LineOf(e) + "\n" + rest, previous) == GetEntry(rest, previous)
  {
    NoNewline(e);
    TokenHead(e.fsname, FromDir(e));
    LineRead(LineOf(e), rest, previous);
  }

  // ---------- Missing numbers ----------

  /** The text behind the next token and the blank that ends it, if there is one. */
  function Behind(rest: Option<string>): Option<string>
  {
    if rest.None? then None else Separate(SkipBlanks(rest.value)).1
  }

  /** The text behind the fourth field of a line and the blank that ends it. */
  function BehindFields(line: string): Option<string>
  {
    Behind(Behind(Behind(Separate(line).1)))
  }

  predicate AllSpace(t: string)
  {
    forall k :: 0 <= k < |t| ==> IsSpace(t[k])
  }

  lemma {:induction false} SkipSpaceAll(t: string)
    ensures SkipSpace(t) == "" <==> AllSpace(t)
  {
    if t != "" {
      SkipSpaceAll(t[1..]);
      assert t == [t[0]] + t[1..];
    }
  }

  /** The fourth field is ended by a blank, and nothing but white space follows it. */
  predicate NumbersMissing(line: string)
  {
    BehindFields(line).Some? && AllSpace(BehindFields(line).value)
  }

  lemma NumbersOf(line: string, previous: Mnt)
    ensures var rest := BehindFields(line); var x := ParseLine(line, previous);
      (x.freq, x.passno) ==
        if rest.None? then (0, 0)
        else match ScanNumbers(rest.value)
          case AtEnd => (previous.freq, previous.passno)
          case Zero => (0, 0)
          case One(f) => (f, 0)
          case Two(f, p) => (f, p)
  {
  }

  /** The numbers of the entry read before a line stay if and only if the line's own are missing in this way; in
      all other cases what is read does not depend on that entry. */
  lemma StaleNumbers(line: string)
    ensures NumbersMissing(line) ==>
      forall p: Mnt :: ParseLine(line, p).freq == p.freq && ParseLine(line, p).passno == p.passno
    ensures (forall p: Mnt, p': Mnt :: ParseLine(line, p) == ParseLine(line, p')) <==> !NumbersMissing(line)
  {
    var rest := BehindFields(line);
    if rest.Some? { SkipSpaceAll(rest.value); }
    forall p: Mnt
      ensures NumbersMissing(line) ==> ParseLine(line, p).freq == p.freq && ParseLine(line, p).passno == p.passno
    {
      NumbersOf(line, p);
    }
    if NumbersMissing(line) {
      var p, p' := Mnt("", "", "", "", 0, 0), Mnt("", "", "", "", 1, 0);
      assert ParseLine(line, p).freq == 0 && ParseLine(line, p').freq == 1;
    }
  }

  /** A field of one character. */
  lemma {:induction false} ShortField(c: char, t: string)
    requires c !in " \t\\"
    ensures Separate([c] + " " + t) == ([c], Some(t)) && Decode([c]) == [c]
    ensures SkipBlanks([c] + " " + t) == [c] + " " + t
  {
    TokenEnds([c], t);
    DecodePlain([c]);
  }

  /** Four such fields, and a blank behind them. */
  lemma FourFields(a: char, b: char, c: char, d: char, previous: Mnt, l: string)
    requires a !in " \t\\" && b !in " \t\\" && c !in " \t\\" && d !in " \t\\"
    requires l == [a] + " " + ([b] + " " + ([c] + " " + ([d] + " " + "")))
    ensures NumbersMissing(l)
    ensures ParseLine(l, previous) == Mnt([a], [b], [c], [d], previous.freq, previous.passno)
  {
    ShortField(d, "");
    ShortField(c, [d] + " " + "");
    ShortField(b, [c] + " " + ([d] + " " + ""));
    ShortField(a, [b] + " " + ([c] + " " + ([d] + " " + "")));
    assert SkipSpace("") == "";
  }

  /** A line without numbers that ends in a blank: it takes those of the entry read before it. */
  lemma StaleLine(previous: Mnt)
    ensures NumbersMissing("a b c d ")
    ensures ParseLine("a b c d ", previous) == Mnt("a", "b", "c", "d", previous.freq, previous.passno)
  {
    FourFields('a', 'b', 'c', 'd', previous, "a b c d ");
  }
}

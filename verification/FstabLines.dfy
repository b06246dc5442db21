/** What getent makes of a line that somebody else has written: fields between blanks of any kind and number, and
    numbers as scanf reads them. */
module FstabLines {
  import opened Options
  import opened Seqs
  import opened FstabNames
  import opened FstabTable
  import opened FstabExact
  import opened FstabCut

  // ---------- Fields ----------

  /** A field as it stands in a line. */
  predicate Token(t: string)
  {
    t != "" && ' ' !in t && '\t' !in t && '\n' !in t
  }

  /** What separates two fields. */
  predicate Gap(b: string)
  {
    b != "" && AllBlank(b)
  }

  predicate Solid(s: string)
  {
    s == "" || (s[0] != ' ' && s[0] != '\t')
  }

  lemma {:induction false} GapSkipped(b: string, s: string)
    requires AllBlank(b) && Solid(s)
    ensures SkipBlanks(b + s) == s
  {
    if b == "" {
      assert b + s == s;
    } else {
      GapSkipped(b[1..], s);
      assert (b + s)[0] == b[0] && (b + s)[1..] == b[1..] + s;
    }
  }

  /** A token is cut off before the first character of a blank text behind it. */
  lemma TokenCut(t: string, u: string)
    requires ' ' !in t && '\t' !in t && u != "" && u[0] in " \t"
    ensures Separate(t + u) == (t, Some(u[1..]))
  {
    var s := t + u;
    assert s[|t|] == u[0] && forall k :: 0 <= k < |t| ==> s[k] == t[k];
    assert Until(s, " \t") == |t|;
    assert s[..|t|] == t && s[|t| + 1..] == u[1..];
  }

  lemma TokenAlone(t: string)
    requires ' ' !in t && '\t' !in t
    ensures Separate(t) == (t, None)
  {
    assert Until(t, " \t") == |t| && t[..|t|] == t;
  }

  lemma {:induction false} FieldMeaning(t: string, b: string, s: string)
    requires Token(t) && Gap(b) && Solid(s)
    ensures TakeField(Some(t + (b + s))) == (Decode(t), Some(s))
  {
    assert (b + s)[0] == b[0] && (b + s)[1..] == b[1..] + s;
    TokenCut(t, b + s);
    GapSkipped(b[1..], s);
  }

  /** What follows the fourth field: nothing, or a blank and the text that is scanned for numbers. */
  function Rest(tail: string): Scan
  {
    if tail == "" then Zero else ScanNumbers(tail[1..])
  }

  lemma {:induction false} LastMeaning(t: string, tail: string)
    requires Token(t) && (tail == "" || !Solid(tail))
    ensures LastField(Some(t + tail)) == (Decode(t), Rest(tail))
  {
    if tail == "" {
      assert t + tail == t;
      TokenAlone(t);
    } else {
      TokenCut(t, tail);
    }
  }

  lemma SolidStart(t: string, u: string)
    requires Token(t)
    ensures Solid(t + u) && t + u != "" && (t + u)[0] == t[0]
  {
    assert (t + u)[0] == t[0] && t[0] in t;
  }

  /** A line of four fields, from each of them on. */
  function From3(t3: string, b3: string, t4: string, tail: string): string
  {
    t3 + (b3 + (t4 + tail))
  }

  function From1(t1: string, b1: string, t2: string, b2: string, r: string): string
  {
    t1 + (b1 + (t2 + (b2 + r)))
  }

  lemma {:induction false} FieldsMeaning(t1: string, b1: string, t2: string, b2: string, t3: string, b3: string,
                                         t4: string, tail: string, previous: Mnt)
    requires Token(t1) && Token(t2) && Token(t3) && Token(t4) && Gap(b1) && Gap(b2) && Gap(b3)
    requires tail == "" || !Solid(tail)
    ensures ParseLine(From1(t1, b1, t2, b2, From3(t3, b3, t4, tail)), previous) ==
      Filled(Decode(t1), Decode(t2), Decode(t3), Decode(t4), Rest(tail), previous)
  {
    var r := From3(t3, b3, t4, tail);
    SolidStart(t2, b2 + r);
    SolidStart(t3, b3 + (t4 + tail));
    SolidStart(t4, tail);
    FieldMeaning(t1, b1, t2 + (b2 + r));
    FieldMeaning(t2, b2, r);
    FieldMeaning(t3, b3, t4 + tail);
    LastMeaning(t4, tail);
  }

  /** Any line of four fields, with blanks around them as one likes, is read field by field. */
  lemma {:induction false} EntryMeaning(lead: string, t1: string, b1: string, t2: string, b2: string, t3: string,
                                        b3: string, t4: string, tail: string, rest: string, previous: Mnt)
    requires Token(t1) && Token(t2) && Token(t3) && Token(t4) && Gap(b1) && Gap(b2) && Gap(b3) && AllBlank(lead)
    requires (tail == "" || !Solid(tail)) && '\n' !in tail && t1[0] != '#'
    requires |lead + From1(t1, b1, t2, b2, From3(t3, b3, t4, tail))| < BUFSIZE
    ensures GetEntry((lead + From1(t1, b1, t2, b2, From3(t3, b3, t4, tail))) + "\n" + rest, previous) ==
      Some((Filled(Decode(t1), Decode(t2), Decode(t3), Decode(t4), Rest(tail), previous), rest))
  {
    var line := From1(t1, b1, t2, b2, From3(t3, b3, t4, tail));
    SolidStart(t1, b1 + (t2 + (b2 + From3(t3, b3, t4, tail))));
    GapSkipped(lead, line);
    LineRead(lead + line, rest, previous);
    FieldsMeaning(t1, b1, t2, b2, t3, b3, t4, tail, previous);
  }

  /** Blank lines and comments are passed over. */
  lemma {:induction false} SkippedLine(lead: string, text: string, rest: string, previous: Mnt)
    requires AllBlank(lead) && (text == "" || text[0] == '#') && '\n' !in text && |lead + text| < BUFSIZE
    ensures GetEntry((lead + text) + "\n" + rest, previous) == GetEntry(rest, previous)
  {
    GapSkipped(lead, text);
    LineRead(lead + text, rest, previous);
  }

  // ---------- Numbers ----------

  function Pow10(n: nat): nat
  {
    if n == 0 then 1 else 10 * Pow10(n - 1)
  }

  predicate Digits(ds: string)
  {
    forall k :: 0 <= k < |ds| ==> IsDigit(ds[k])
  }

  /** The value of a row of digits, each counted by its place. */
  function Worth(ds: string): nat
    requires Digits(ds)
  {
    if ds == "" then 0 else (ds[0] as int - '0' as int) * Pow10(|ds| - 1) + Worth(ds[1..])
  }

  lemma Shift(acc: nat, d: nat, p: nat, w: nat)
    ensures (10 * acc + d) * p + w == acc * (10 * p) + (d * p + w)
  {
  }

  lemma {:induction false} DigitsMeaning(ds: string, t: string, acc: nat)
    requires Digits(ds)
    ensures ReadDigits(ds + t, acc) == ReadDigits(t, acc * Pow10(|ds|) + Worth(ds))
  {
    if ds == "" {
      assert ds + t == t;
    } else {
      var d: nat := ds[0] as int - '0' as int;
      assert (ds + t)[0] == ds[0] && (ds + t)[1..] == ds[1..] + t;
      DigitsMeaning(ds[1..], t, 10 * acc + d);
      Shift(acc, d, Pow10(|ds| - 1), Worth(ds[1..]));
    }
  }

  /** The digits printed for a number are worth the number. */
  lemma {:induction false} DecimalMeaning(n: nat)
    ensures Worth(Decimal(n)) == n
  {
    ReadDecimal(n, "");
    DigitsMeaning(Decimal(n), "", 0);
  }

  predicate Sign(s: string)
  {
    s == "" || s == "-" || s == "+"
  }

  function Signed(sign: string, ds: string): int
    requires Digits(ds)
  {
    var n: int := Worth(ds);
    if sign == "-" then -n else n
  }

  /** The text begins with a number. */
  predicate Numeric(s: string)
  {
    s != "" && (IsDigit(s[0]) || ((s[0] == '-' || s[0] == '+') && |s| > 1 && IsDigit(s[1])))
  }

  lemma NoNumber(s: string)
    ensures ReadInt(s).Some? <==> Numeric(s)
  {
  }

  lemma {:induction false} IntMeaning(sign: string, ds: string, t: string)
    requires Sign(sign) && Digits(ds) && ds != "" && (t == "" || !IsDigit(t[0]))
    ensures ReadInt(sign + (ds + t)) == Some((Signed(sign, ds), t))
  {
    var s := sign + (ds + t);
    DigitsMeaning(ds, t, 0);
    assert (ds + t)[0] == ds[0];
    if sign == "" { assert s == ds + t; } else { assert s[0] == sign[0] && s[1..] == ds + t; }
  }

  lemma {:induction false} SpaceSkipped(w: string, s: string)
    requires AllSpace(w) && (s == "" || !IsSpace(s[0]))
    ensures SkipSpace(w + s) == s
  {
    if w == "" {
      assert w + s == s;
    } else {
      SpaceSkipped(w[1..], s);
      assert (w + s)[0] == w[0] && (w + s)[1..] == w[1..] + s;
    }
  }

  lemma NumberHead(sign: string, ds: string, t: string)
    requires Sign(sign) && Digits(ds) && ds != ""
    ensures var s := sign + (ds + t); s != "" && !IsSpace(s[0]) && (IsDigit(s[0]) <==> sign == "")
  {
    var s := sign + (ds + t);
    assert (ds + t)[0] == ds[0];
    if sign == "" { assert s == ds + t; } else { assert s[0] == sign[0]; }
  }

  lemma {:induction false} FirstNumber(w: string, sign: string, ds: string, u: string)
    requires AllSpace(w) && Sign(sign) && Digits(ds) && ds != "" && (u == "" || !IsDigit(u[0]))
    ensures ScanNumbers(w + (sign + (ds + u))) ==
      var p := ReadInt(SkipSpace(u)); if p.None? then One(Signed(sign, ds)) else Two(Signed(sign, ds), p.value.0)
  {
    NumberHead(sign, ds, u);
    SpaceSkipped(w, sign + (ds + u));
    IntMeaning(sign, ds, u);
  }

  /** White space v and then z, which does not go on with a digit where a number could. */
  predicate Parted(v: string, z: string)
  {
    AllSpace(v) && (z == "" || !IsSpace(z[0])) && (v == "" ==> z == "" || !IsDigit(z[0]))
  }

  /** Two numbers, one, or none: whatever stands between and behind them. */
  lemma {:induction false} TwoMeaning(w: string, sx: string, dx: string, v: string, sy: string, dy: string, z: string)
    requires AllSpace(w) && Sign(sx) && Sign(sy) && Digits(dx) && Digits(dy) && dx != "" && dy != ""
    requires AllSpace(v) && (v == "" ==> sy != "") && (z == "" || !IsDigit(z[0]))
    ensures ScanNumbers(w + (sx + (dx + (v + (sy + (dy + z)))))) == Two(Signed(sx, dx), Signed(sy, dy))
  {
    var y := sy + (dy + z);
    NumberHead(sy, dy, z);
    assert (v + y)[0] == if v == "" then y[0] else v[0];
    FirstNumber(w, sx, dx, v + y);
    SpaceSkipped(v, y);
    IntMeaning(sy, dy, z);
  }

  lemma {:induction false} OneMeaning(w: string, sx: string, dx: string, v: string, z: string)
    requires AllSpace(w) && Sign(sx) && Digits(dx) && dx != "" && Parted(v, z) && !Numeric(z)
    ensures ScanNumbers(w + (sx + (dx + (v + z)))) == One(Signed(sx, dx))
  {
    if v + z != "" { assert (v + z)[0] == if v == "" then z[0] else v[0]; }
    FirstNumber(w, sx, dx, v + z);
    SpaceSkipped(v, z);
    NoNumber(z);
  }

  lemma {:induction false} NoneMeaning(w: string, z: string)
    requires AllSpace(w) && (z == "" || !IsSpace(z[0])) && !Numeric(z)
    ensures ScanNumbers(w + z) == if z == "" then AtEnd else Zero
  {
    SpaceSkipped(w, z);
    NoNumber(z);
  }
}

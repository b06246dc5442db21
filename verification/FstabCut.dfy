/** Lines that do not fit the buffer: which entries survive being cut, and with that exactly which entries of any
    length are read back. */
module FstabCut {
  import opened Options
  import opened Seqs
  import opened FstabNames
  import opened FstabTable
  import opened FstabExact

  // ---------- Names that are cut ----------

  predicate EndsInBackslash(name: string)
  {
    name != "" && name[|name| - 1] == '\\'
  }

  /** Less than a whole code is read as it stands. */
  lemma DecodePart(c: char, n: nat)
    requires 1 <= n < |EncodeChar(c)|
    ensures Decode(EncodeChar(c)[..n])[..1] == "\\" && (c == '\\' ==> Decode(EncodeChar(c)[..n]) == "\\")
  {
    var p := EncodeChar(c)[..n];
    assert p[0] == '\\' && |p| < 4 && (|p| > 1 ==> p[1] == '0');
    assert DecodeChar(p) == ('\\', 1);
    assert c == '\\' ==> p[1..] == "";
  }

  /** The cut is in the code of the first character. */
  lemma {:induction false} CutInCode(s: string, n: nat)
    requires s != "" && n < |EncodeChar(s[0])|
    ensures n <= |EncodeAll(s)|
    ensures Decode(EncodeAll(s)[..n]) == s <==> n == |EncodeAll(s)| - 1 && EndsInBackslash(s)
  {
    var code := EncodeChar(s[0]);
    assert EncodeAll(s)[..n] == code[..n];
    if n > 0 { DecodePart(s[0], n); }
    if |s| == 1 {
      assert s == [s[0]] && EncodeAll(s[1..]) == "";
    } else {
      EncodeAllClean(s[1..]);
    }
  }

  /** The code of the first character is whole. */
  lemma {:induction false} CodeLeft(s: string, n: nat)
    requires s != "" && |EncodeChar(s[0])| <= n <= |EncodeAll(s)|
    ensures var k := |EncodeChar(s[0])|;
      n - k <= |EncodeAll(s[1..])| && Decode(EncodeAll(s)[..n]) == [s[0]] + Decode(EncodeAll(s[1..])[..n - k])
  {
    var code, rest := EncodeChar(s[0]), EncodeAll(s[1..]);
    var k := |code|;
    assert EncodeAll(s)[..n] == code + rest[..n - k];
    DecodeOne(s[0], rest[..n - k]);
    assert (code + rest[..n - k])[k..] == rest[..n - k];
  }

  /** The step of the induction below: a is the length of the code of s, b that of all but its first character. */
  lemma OneCodeMore(s: string, x: string, y: string, n: nat, k: nat, a: nat, b: nat)
    requires s != "" && x == [s[0]] + y && a == k + b && k <= n <= a && (|s| == 1 ==> b == 0)
    requires y == s[1..] <==> n - k == b || (n - k == b - 1 && EndsInBackslash(s[1..]))
    ensures x == s <==> n == a || (n == a - 1 && EndsInBackslash(s))
  {
    ConsEquals(s[0], y, s);
  }

  /** The code of a name, cut to n characters, stands for the name if and only if it is whole, or just the second
      of two backslashes at its end is missing. */
  lemma {:induction false} DecodeAllCut(s: string, n: nat)
    requires n <= |EncodeAll(s)|
    ensures Decode(EncodeAll(s)[..n]) == s <==>
      n == |EncodeAll(s)| || (n == |EncodeAll(s)| - 1 && EndsInBackslash(s))
    decreases |s|
  {
    if s != "" {
      var k := |EncodeChar(s[0])|;
      if n < k {
        CutInCode(s, n);
      } else {
        CodeLeft(s, n);
        DecodeAllCut(s[1..], n - k);
        var x, y := Decode(EncodeAll(s)[..n]), Decode(EncodeAll(s[1..])[..n - k]);
        assert |s| == 1 ==> EncodeAll(s[1..]) == "";
        OneCodeMore(s, x, y, n, k, |EncodeAll(s)|, |EncodeAll(s[1..])|);
      }
    }
  }

  lemma DecodeCut(name: string, n: nat)
    requires n <= |Encode(name)|
    ensures Decode(Encode(name)[..n]) == name <==>
      n == |Encode(name)| || (n == |Encode(name)| - 1 && EndsInBackslash(name))
  {
    if NeedsCode(name) {
      DecodeAllCut(name, n);
    } else {
      assert '\\' !in name[..n];
      DecodePlain(name[..n]);
    }
  }

  // ---------- Numbers that are cut ----------

  lemma {:induction false} DecimalBits(n: nat)
    ensures n >= 10 ==> Decimal(n) == Decimal(n / 10) + [Digit(n % 10)]
  {
  }

  /** Fewer digits make a smaller number. */
  lemma {:induction false} DecimalCut(n: nat, k: nat, t: string)
    requires 0 < k < |Decimal(n)| && (t != "" ==> !IsDigit(t[0]))
    ensures ReadDigits(Decimal(n)[..k] + t, 0).0 < n && ReadDigits(Decimal(n)[..k] + t, 0).1 == t
    decreases n
  {
    var d := Decimal(n / 10);
    assert Decimal(n) == d + [Digit(n % 10)];
    if k == |d| {
      assert Decimal(n)[..k] == d;
      ReadDecimal(n / 10, t);
    } else {
      assert Decimal(n)[..k] == d[..k];
      DecimalCut(n / 10, k, t);
    }
  }

  /** A number that is cut is not read as itself. */
  lemma PrintedCut(n: int, k: nat, t: string)
    requires 0 < k < |Printed(n)| && (t != "" ==> !IsDigit(t[0]))
    ensures var r := ReadInt(Printed(n)[..k] + t); (r.None? && n < 0) || (r.Some? && r.value.0 != n)
  {
    var s := Printed(n)[..k] + t;
    if n < 0 {
      var d := Decimal(-n);
      assert s[0] == '-' && s[1..] == d[..k - 1] + t;
      if k > 1 {
        DecimalCut(-n, k - 1, t);
        assert s[1..][0] == d[0];
      } else {
        assert s[1..] == t;
      }
    } else {
      DecimalCut(n, k, t);
      assert s[0] == Decimal(n)[0];
    }
  }

  /** The numbers that sscanf leaves behind are f and p. */
  predicate Leaves(scan: Scan, f: int, p: int, previous: Mnt)
  {
    match scan
    case AtEnd => previous.freq == f && previous.passno == p
    case Zero => f == 0 && p == 0
    case One(v) => v == f && p == 0
    case Two(v, w) => v == f && w == p
  }

  function TwoNumbers(f: int, p: int): string
  {
    Printed(f) + " " + Printed(p)
  }

  lemma {:induction false} NoSpaceAhead(s: string)
    requires s != "" && !IsSpace(s[0])
    ensures SkipSpace(s) == s
  {
  }

  /** Only the first number is left, whole and perhaps with the blank behind it. */
  lemma OneLeft(f: int, t: string)
    requires t == "" || t == " "
    ensures ScanNumbers(Printed(f) + t) == One(f)
  {
    var s := Printed(f) + t;
    assert s[0] == Printed(f)[0];
    NoSpaceAhead(s);
    ReadPrinted(f, t);
    assert " "[1..] == "";
  }

  /** The first number is cut. */
  lemma FirstCut(f: int, p: int, k: nat, previous: Mnt)
    requires 0 < k < |Printed(f)|
    ensures !Leaves(ScanNumbers(Printed(f)[..k]), f, p, previous)
  {
    var s := Printed(f)[..k];
    assert s + "" == s && s[0] == Printed(f)[0];
    NoSpaceAhead(s);
    PrintedCut(f, k, "");
  }

  /** The second number is cut. */
  lemma SecondCut(f: int, p: int, k: nat, previous: Mnt)
    requires 0 < k < |Printed(p)|
    ensures !Leaves(ScanNumbers(Printed(f) + " " + Printed(p)[..k]), f, p, previous)
  {
    var q := Printed(p)[..k];
    var s, t := Printed(f) + " " + q, " " + q;
    assert s == Printed(f) + t && s[0] == Printed(f)[0] && t[1..] == q;
    NoSpaceAhead(s);
    ReadPrinted(f, t);
    assert q[0] == Printed(p)[0];
    NoSpaceAhead(q);
    assert SkipSpace(t) == q && q + "" == q;
    PrintedCut(p, k, "");
  }

  /** How much of the two numbers must be left: nothing, if they are those of the entry read before; or the first
      one, if the second is 0. */
  predicate NumbersSurvive(f: int, p: int, previous: Mnt, kept: int)
  {
    if kept == 0 then previous.freq == f && previous.passno == p else p == 0 && kept >= |Printed(f)|
  }

  lemma NumbersCut(f: int, p: int, previous: Mnt, kept: nat)
    requires kept < |TwoNumbers(f, p)|
    ensures Leaves(ScanNumbers(TwoNumbers(f, p)[..kept]), f, p, previous) <==> NumbersSurvive(f, p, previous, kept)
  {
    var s, n := TwoNumbers(f, p)[..kept], |Printed(f)|;
    if kept == 0 {
      assert s == "" && SkipSpace(s) == "";
    } else if kept < n {
      assert s == Printed(f)[..kept];
      FirstCut(f, p, kept, previous);
    } else if kept <= n + 1 {
      assert s == Printed(f) + " "[..kept - n];
      OneLeft(f, " "[..kept - n]);
    } else {
      assert s == Printed(f) + " " + Printed(p)[..kept - n - 1];
      SecondCut(f, p, kept - n - 1, previous);
      assert p != 0;
    }
  }

  // ---------- Lines as lists of fields ----------

  /** The line from the fields fs on. */
  function Tail(fs: seq<string>, f: int, p: int): string
  {
    if fs == [] then TwoNumbers(f, p) else Encode(fs[0]) + " " + Tail(fs[1..], f, p)
  }

  function FieldsOf(e: Mnt): seq<string>
  {
    [e.fsname, e.dir, e.fstype, e.opts]
  }

  lemma LineIsTail(e: Mnt)
    ensures Tail(FieldsOf(e), e.freq, e.passno) == LineOf(e)
  {
    var fs := FieldsOf(e);
    assert fs[1..] == [e.dir, e.fstype, e.opts] && fs[1..][1..] == [e.fstype, e.opts];
    assert fs[1..][1..][1..] == [e.opts] && [e.opts][1..] == [];
    assert Tail([e.opts], e.freq, e.passno) == FromOpts(e);
    assert Tail([e.fstype, e.opts], e.freq, e.passno) == FromType(e);
    assert Tail([e.dir, e.fstype, e.opts], e.freq, e.passno) == FromDir(e);
  }

  /** The next n fields, the last of which is followed by the numbers. */
  function ReadFields(rest: Option<string>, n: nat): (r: (seq<string>, Scan))
    requires n > 0
    ensures |r.0| == n
    decreases n
  {
    if n == 1 then ([LastField(rest).0], LastField(rest).1)
    else
      var f := TakeField(rest);
      var r := ReadFields(f.1, n - 1);
      ([f.0] + r.0, r.1)
  }

  /** The first field and the others. */
  lemma {:induction false} SplitFields(rest: Option<string>, fs: seq<string>)
    requires |fs| > 1
    ensures var g, r := TakeField(rest), ReadFields(rest, |fs|); var r' := ReadFields(g.1, |fs| - 1);
      r.1 == r'.1 && (r.0 == fs <==> g.0 == fs[0] && r'.0 == fs[1..])
  {
    var g := TakeField(rest);
    ConsEquals(g.0, ReadFields(g.1, |fs| - 1).0, fs);
  }

  lemma ParseIsRead(line: string, previous: Mnt, e: Mnt)
    ensures var r := ReadFields(Some(line), 4);
      ParseLine(line, previous) == e <==> r.0 == FieldsOf(e) && Leaves(r.1, e.freq, e.passno, previous)
  {
    var fs := FieldsOf(e);
    var f1 := TakeField(Some(line));
    var f2 := TakeField(f1.1);
    assert fs[1..] == [e.dir, e.fstype, e.opts] && fs[1..][1..] == [e.fstype, e.opts];
    assert fs[1..][1..][1..] == [e.opts];
    SplitFields(Some(line), fs);
    SplitFields(f1.1, fs[1..]);
    SplitFields(f2.1, fs[1..][1..]);
    ParseLineFields(line, previous, f1, f2, TakeField(f2.1));
  }

  predicate AllEmpty(fs: seq<string>)
  {
    forall k :: 0 <= k < |fs| ==> fs[k] == ""
  }

  /** Where there is no text left, all fields are empty and the numbers 0. */
  lemma {:induction false} ReadNothing(rest: Option<string>, n: nat)
    requires n > 0 && (rest.None? || rest.value == "")
    ensures var r := ReadFields(rest, n); AllEmpty(r.0) && r.1 == Zero
    decreases n
  {
    assert rest.Some? ==> Separate("") == ("", None);
    if n > 1 { ReadNothing(TakeField(rest).1, n - 1); }
  }

  lemma SameEmpty(a: seq<string>, b: seq<string>)
    requires AllEmpty(a) && |a| == |b|
    ensures a == b <==> AllEmpty(b)
  {
  }

  // ---------- Lines that are cut ----------

  /** The line from the fields fs on, of which the first is not empty, keeps `kept` characters. If the cut is in
      the first field or right behind it, or only blanks are left behind it, the other fields must be empty and
      the numbers 0; in the field itself, only the second backslash of its end may be lost. */
  predicate Survives(fs: seq<string>, f: int, p: int, previous: Mnt, kept: int)
    requires fs != []
    decreases |fs|
  {
    var n := |Encode(fs[0])|;
    if kept <= n then
      AllEmpty(fs[1..]) && f == 0 && p == 0 && (kept == n || (kept == n - 1 && EndsInBackslash(fs[0])))
    else if |fs| == 1 then NumbersSurvive(f, p, previous, kept - n - 1)
    else if fs[1] == "" then AllEmpty(fs[1..]) && f == 0 && p == 0 && kept - n - 1 <= |fs[1..]|
    else Survives(fs[1..], f, p, previous, kept - n - 1)
  }

  /** What the reader makes of the text is what was written. */
  ghost predicate Returns(rest: Option<string>, fs: seq<string>, f: int, p: int, previous: Mnt)
    requires fs != []
  {
    var r := ReadFields(rest, |fs|); r.0 == fs && Leaves(r.1, f, p, previous)
  }

  lemma NoBlanks(t: string)
    requires ' ' !in t && '\t' !in t
    ensures Separate(t) == (t, None)
  {
    assert Until(t, " \t") == |t| && t[..|t|] == t;
  }

  /** A field that is cut, and its reading. */
  lemma {:induction false} FieldCut(x: string, kept: nat, t: string)
    requires kept <= |Encode(x)| && t == Encode(x)[..kept]
    ensures TakeField(Some(t)) == (Decode(t), None) && LastField(Some(t)) == (Decode(t), Zero)
    ensures Decode(t) == x <==> kept == |Encode(x)| || (kept == |Encode(x)| - 1 && EndsInBackslash(x))
  {
    EncodedName(x);
    NoBlanks(t);
    DecodeCut(x, kept);
  }

  /** The cut is in the first field or right behind it. */
  lemma {:induction false} CutInField(fs: seq<string>, f: int, p: int, previous: Mnt, kept: nat)
    requires fs != [] && kept <= |Encode(fs[0])|
    ensures Returns(Some(Encode(fs[0])[..kept]), fs, f, p, previous) <==> Survives(fs, f, p, previous, kept)
  {
    var t := Encode(fs[0])[..kept];
    FieldCut(fs[0], kept, t);
    if |fs| > 1 {
      NothingBehind(t, fs, Decode(t));
    } else {
      ConsEquals(Decode(t), [], fs);
    }
  }

  lemma {:induction false} NothingBehind(t: string, fs: seq<string>, x: string)
    requires |fs| > 1 && TakeField(Some(t)) == (x, None)
    ensures var r := ReadFields(Some(t), |fs|); r.1 == Zero && (r.0 == fs <==> x == fs[0] && AllEmpty(fs[1..]))
  {
    ReadNothing(None, |fs| - 1);
    SameEmpty(ReadFields(None, |fs| - 1).0, fs[1..]);
    SplitFields(Some(t), fs);
  }

  predicate AllBlank(t: string)
  {
    forall k :: 0 <= k < |t| ==> t[k] in " \t"
  }

  lemma {:induction false} SkipBlanksAll(t: string)
    ensures SkipBlanks(t) == "" <==> AllBlank(t)
  {
    if t != "" {
      SkipBlanksAll(t[1..]);
      assert t == [t[0]] + t[1..];
    }
  }

  /** Empty fields are written as blanks. */
  lemma {:induction false} EmptyTail(fs: seq<string>, f: int, p: int)
    requires AllEmpty(fs)
    ensures |Tail(fs, f, p)| > |fs| && Tail(fs, f, p)[|fs|] !in " \t"
    ensures forall k :: 0 <= k < |fs| ==> Tail(fs, f, p)[k] == ' '
  {
    var t := Tail(fs, f, p);
    if fs != [] {
      var u := Tail(fs[1..], f, p);
      EmptyTail(fs[1..], f, p);
      assert t == " " + u;
      assert t[|fs|] == u[|fs| - 1];
      forall k | 0 <= k < |fs| ensures t[k] == ' '
      {
        if k > 0 { assert t[k] == u[k - 1]; }
      }
    } else {
      assert t[0] == Printed(f)[0];
    }
  }

  lemma {:induction false} BlankPrefix(fs: seq<string>, f: int, p: int, kept: nat)
    requires AllEmpty(fs) && kept <= |Tail(fs, f, p)|
    ensures AllBlank(Tail(fs, f, p)[..kept]) <==> kept <= |fs|
  {
    EmptyTail(fs, f, p);
    var u := Tail(fs, f, p)[..kept];
    assert forall k :: 0 <= k < kept ==> u[k] == Tail(fs, f, p)[k];
    if kept > |fs| { assert u[|fs|] !in " \t"; }
  }

  /** An empty field is read as empty just if there is nothing but blanks. */
  lemma {:induction false} CutInBlanks(fs: seq<string>, f: int, p: int, previous: Mnt, kept: nat)
    requires fs != [] && fs[0] == "" && kept <= |Tail(fs, f, p)|
    ensures Returns(Some(SkipBlanks(Tail(fs, f, p)[..kept])), fs, f, p, previous) <==>
      AllEmpty(fs) && f == 0 && p == 0 && kept <= |fs|
  {
    var u := Tail(fs, f, p)[..kept];
    SkipBlanksAll(u);
    if AllEmpty(fs) { BlankPrefix(fs, f, p, kept); }
    if AllBlank(u) {
      ReadNothing(Some(SkipBlanks(u)), |fs|);
      SameEmpty(ReadFields(Some(SkipBlanks(u)), |fs|).0, fs);
    } else {
      assert Inked(u);
      FieldNotEmpty(u);
      if |fs| > 1 { SplitFields(Some(SkipBlanks(u)), fs); }
    }
  }

  lemma {:induction false} TailCut(fs: seq<string>, f: int, p: int, kept: nat)
    requires fs != [] && |Encode(fs[0])| < kept <= |Tail(fs, f, p)|
    ensures var n := |Encode(fs[0])|;
      && kept - n - 1 <= |Tail(fs[1..], f, p)|
      && Tail(fs, f, p)[..kept] == Encode(fs[0]) + " " + Tail(fs[1..], f, p)[..kept - n - 1]
  {
  }

  lemma {:induction false} NoBlankAhead(fs: seq<string>, f: int, p: int, kept: nat)
    requires fs != [] && fs[0] != "" && kept <= |Tail(fs, f, p)|
    ensures SkipBlanks(Tail(fs, f, p)[..kept]) == Tail(fs, f, p)[..kept]
  {
    TokenHead(fs[0], Tail(fs[1..], f, p));
    if kept > 0 { assert Tail(fs, f, p)[..kept][0] == Tail(fs, f, p)[0]; }
  }

  /** The first field is whole; u is what is left behind it. */
  lemma {:induction false} FieldLeft(fs: seq<string>, f: int, p: int, kept: nat, u: string)
    requires fs != [] && |Encode(fs[0])| < kept <= |Tail(fs, f, p)|
    requires kept - |Encode(fs[0])| - 1 <= |Tail(fs[1..], f, p)|
    requires u == Tail(fs[1..], f, p)[..kept - |Encode(fs[0])| - 1]
    ensures Separate(Tail(fs, f, p)[..kept]) == (Encode(fs[0]), Some(u)) && Decode(Encode(fs[0])) == fs[0]
  {
    TailCut(fs, f, p, kept);
    EncodedName(fs[0]);
    TokenEnds(Encode(fs[0]), u);
    NameRoundTrip(fs[0]);
  }

  lemma {:induction false} OneFieldLeft(t: string, x: string, u: string, f: int, p: int, previous: Mnt)
    requires Separate(t) == (Encode(x), Some(u)) && Decode(Encode(x)) == x
    ensures Returns(Some(t), [x], f, p, previous) <==> Leaves(ScanNumbers(u), f, p, previous)
  {
  }

  lemma {:induction false} MoreFieldsLeft(t: string, u: string, fs: seq<string>, f: int, p: int, previous: Mnt)
    requires |fs| > 1 && Separate(t) == (Encode(fs[0]), Some(u)) && Decode(Encode(fs[0])) == fs[0]
    ensures Returns(Some(t), fs, f, p, previous) <==> Returns(Some(SkipBlanks(u)), fs[1..], f, p, previous)
  {
    SplitFields(Some(t), fs);
  }

  /** The cut is behind the only field. */
  lemma {:induction false} CutInNumbers(fs: seq<string>, f: int, p: int, previous: Mnt, kept: nat, n: nat)
    requires |fs| == 1 && n == |Encode(fs[0])| < kept < |Tail(fs, f, p)|
    ensures Returns(Some(Tail(fs, f, p)[..kept]), fs, f, p, previous) <==> Survives(fs, f, p, previous, kept)
  {
    TailCut(fs, f, p, kept);
    assert fs == [fs[0]] && fs[1..] == [];
    var u := Tail([], f, p)[..kept - n - 1];
    FieldLeft(fs, f, p, kept, u);
    OneFieldLeft(Tail(fs, f, p)[..kept], fs[0], u, f, p, previous);
    NumbersCut(f, p, previous, kept - n - 1);
  }

  /** The cut is behind a field that is not the last. */
  lemma {:induction false} CutBehind(fs: seq<string>, f: int, p: int, previous: Mnt, kept: nat, n: nat)
    requires |fs| > 1 && n == |Encode(fs[0])| < kept < |Tail(fs, f, p)|
    ensures kept - n - 1 < |Tail(fs[1..], f, p)|
    ensures Returns(Some(Tail(fs, f, p)[..kept]), fs, f, p, previous) <==>
      Returns(Some(SkipBlanks(Tail(fs[1..], f, p)[..kept - n - 1])), fs[1..], f, p, previous)
  {
    TailCut(fs, f, p, kept);
    var u := Tail(fs[1..], f, p)[..kept - n - 1];
    FieldLeft(fs, f, p, kept, u);
    MoreFieldsLeft(Tail(fs, f, p)[..kept], u, fs, f, p, previous);
  }

  lemma {:induction false} CutBehindEmpty(fs: seq<string>, f: int, p: int, previous: Mnt, kept: nat, n: nat)
    requires |fs| > 1 && n == |Encode(fs[0])| < kept < |Tail(fs, f, p)| && fs[1] == ""
    ensures Returns(Some(Tail(fs, f, p)[..kept]), fs, f, p, previous) <==> Survives(fs, f, p, previous, kept)
  {
    CutBehind(fs, f, p, previous, kept, n);
    CutInBlanks(fs[1..], f, p, previous, kept - n - 1);
  }

  lemma {:induction false} CutBehindFull(fs: seq<string>, f: int, p: int, previous: Mnt, kept: nat, n: nat)
    requires |fs| > 1 && n == |Encode(fs[0])| < kept < |Tail(fs, f, p)| && fs[1] != ""
    ensures kept - n - 1 < |Tail(fs[1..], f, p)|
    ensures Returns(Some(Tail(fs, f, p)[..kept]), fs, f, p, previous) <==>
      Returns(Some(Tail(fs[1..], f, p)[..kept - n - 1]), fs[1..], f, p, previous)
  {
    CutBehind(fs, f, p, previous, kept, n);
    NoBlankAhead(fs[1..], f, p, kept - n - 1);
  }

  lemma {:induction false} SurvivesBehind(fs: seq<string>, f: int, p: int, previous: Mnt, kept: nat, n: nat)
    requires |fs| > 1 && n == |Encode(fs[0])| < kept && fs[1] != ""
    ensures Survives(fs, f, p, previous, kept) <==> Survives(fs[1..], f, p, previous, kept - n - 1)
  {
  }

  lemma {:induction false} CutRead(fs: seq<string>, f: int, p: int, previous: Mnt, kept: nat)
    requires fs != [] && fs[0] != "" && kept < |Tail(fs, f, p)|
    ensures Returns(Some(Tail(fs, f, p)[..kept]), fs, f, p, previous) <==> Survives(fs, f, p, previous, kept)
    decreases |fs|
  {
    var n := |Encode(fs[0])|;
    if kept <= n {
      FieldAhead(fs, f, p, kept);
      CutInField(fs, f, p, previous, kept);
    } else if |fs| == 1 {
      CutInNumbers(fs, f, p, previous, kept, n);
    } else if fs[1] == "" {
      CutBehindEmpty(fs, f, p, previous, kept, n);
    } else {
      CutBehindFull(fs, f, p, previous, kept, n);
      SurvivesBehind(fs, f, p, previous, kept, n);
      CutRead(fs[1..], f, p, previous, kept - n - 1);
    }
  }

  lemma {:induction false} FieldAhead(fs: seq<string>, f: int, p: int, kept: nat)
    requires fs != [] && kept <= |Encode(fs[0])|
    ensures kept <= |Tail(fs, f, p)| && Tail(fs, f, p)[..kept] == Encode(fs[0])[..kept]
  {
  }

  // ---------- Streams ----------

  /** What of a line gets into the buffer. */
  function Cut(line: string): string
  {
    if |line| < BUFSIZE then line else line[..BUFSIZE - 1]
  }

  /** A line of any length at the front of a stream is skipped or parsed. */
  lemma {:induction false} AnyLineRead(line: string, rest: string, previous: Mnt)
    requires '\n' !in line
    ensures var h := SkipBlanks(Cut(line));
      GetEntry(line + "\n" + rest, previous) ==
        if h == "" || h[0] == '#' then GetEntry(rest, previous) else Some((ParseLine(h, previous), rest))
  {
    var s := line + "\n" + rest;
    assert s[|line|] == '\n' && forall k :: 0 <= k < |line| ==> s[k] == line[k];
    UntilIs(s, "\n", |line|);
    assert s[|line| + 1..] == rest;
    assert s[..if |line| < BUFSIZE then |line| else BUFSIZE - 1] == Cut(line);
  }

  lemma {:induction false} AnyFromLastLine(t: string, rest: string, previous: Mnt, x: Mnt)
    requires GetEntry(t + "\n" + rest, previous) == Some((x, rest))
    ensures var h := SkipBlanks(Cut(LastLine(t))); h != "" && h[0] != '#' && x == ParseLine(h, previous)
    decreases |t|
  {
    var n := Until(t, "\n");
    if n < |t| {
      FirstLineOff(t, n, rest);
      AnyLineRead(t[..n], t[n + 1..] + "\n" + rest, previous);
      LongerLeft(t[n + 1..] + "\n" + rest, rest, previous, t[..n], x);
      AnyFromLastLine(t[n + 1..], rest, previous, x);
    } else {
      AnyLineRead(t, rest, previous);
      NotFromRest(rest, previous, x);
    }
  }

  /** An entry that leaves less than the next line leaves is not read from the first. */
  lemma {:induction false} LongerLeft(more: string, rest: string, previous: Mnt, line: string, x: Mnt)
    requires |more| > |rest| && '\n' !in line && GetEntry(line + "\n" + more, previous) == Some((x, rest))
    ensures GetEntry(more, previous) == Some((x, rest))
  {
    AnyLineRead(line, more, previous);
  }

  // ---------- Broken lines ----------

  /** Every token but the last, which may be cut, decodes to a name without a kept newline. */
  predicate Tame(l: string)
    decreases |l|
  {
    if l == "" then true
    else if l[0] in " \t" then Tame(l[1..])
    else var n := Until(l, " \t"); n < |l| ==> Quiet(Decode(l[..n])) && Tame(l[n + 1..])
  }

  lemma CutBetween(l: string, n: nat, k: nat)
    requires n < k <= |l|
    ensures l[..k][..n] == l[..n] && l[..k][n + 1..] == l[n + 1..][..k - n - 1]
  {
  }

  lemma {:induction false} TamePrefix(l: string, k: nat)
    requires QuietText(l) && k <= |l|
    ensures Tame(l[..k])
    decreases |l|
  {
    var m := l[..k];
    if k > 0 {
      assert m[0] == l[0];
      if l[0] in " \t" {
        TamePrefix(l[1..], k - 1);
        assert m[1..] == l[1..][..k - 1];
      } else {
        var n := Until(l, " \t");
        if n < k {
          UntilIs(m, " \t", n);
          TamePrefix(l[n + 1..], k - n - 1);
          CutBetween(l, n, k);
        } else {
          UntilIs(m, " \t", k);
        }
      }
    }
  }

  lemma {:induction false} TameSkip(l: string)
    requires Tame(l)
    ensures Tame(SkipBlanks(l))
    decreases |l|
  {
    if l != "" && l[0] in " \t" { TameSkip(l[1..]); }
  }

  lemma TameField(rest: Option<string>)
    requires rest.Some? ==> Tame(rest.value)
    ensures var f := TakeField(rest); f.1.Some? ==> Quiet(f.0) && Tame(f.1.value)
  {
    if rest.Some? {
      var l := rest.value;
      var r := Separate(l);
      if r.1.Some? {
        if l[0] in " \t" {
          UntilIs(l, " \t", 0);
          assert l[..0] == "" && l[0 + 1..] == l[1..];
        }
        TameSkip(r.1.value);
      }
    }
  }

  /** So a field with a kept newline can only be the last that is read. */
  lemma {:induction false} TameLine(l: string, previous: Mnt)
    requires Tame(l)
    ensures var x := ParseLine(l, previous);
      && (!Quiet(x.fsname) ==> x.dir == "" && x.fstype == "" && x.opts == "")
      && (!Quiet(x.dir) ==> x.fstype == "" && x.opts == "")
      && (!Quiet(x.fstype) ==> x.opts == "")
  {
    var f1 := TakeField(Some(l));
    var f2 := TakeField(f1.1);
    ParseLineFields(l, previous, f1, f2, TakeField(f2.1));
    TameField(Some(l));
    TameField(f1.1);
    TameField(f2.1);
  }

  predicate Clean(l: string)
  {
    '\\' !in l && '\n' !in l
  }

  lemma {:induction false} CleanSkip(l: string)
    requires Clean(l)
    ensures Clean(SkipBlanks(l))
    decreases |l|
  {
    if l != "" && l[0] in " \t" { CleanSkip(l[1..]); }
  }

  lemma CleanField(rest: Option<string>)
    requires rest.Some? ==> Clean(rest.value)
    ensures var f := TakeField(rest); '\n' !in f.0 && (f.1.Some? ==> Clean(f.1.value))
    ensures '\n' !in LastField(rest).0
  {
    if rest.Some? {
      var r := Separate(rest.value);
      DecodePlain(r.0);
      if r.1.Some? { CleanSkip(r.1.value); }
    }
  }

  /** No newline comes out of a text without backslashes. */
  lemma CleanLine(l: string, previous: Mnt)
    requires Clean(l)
    ensures var x := ParseLine(l, previous);
      '\n' !in x.fsname && '\n' !in x.dir && '\n' !in x.fstype && '\n' !in x.opts
  {
    var f1 := TakeField(Some(l));
    var f2 := TakeField(f1.1);
    var f3 := TakeField(f2.1);
    ParseLineFields(l, previous, f1, f2, f3);
    CleanField(Some(l));
    CleanField(f1.1);
    CleanField(f2.1);
    CleanField(f3.1);
  }

  /** A field that keeps a newline, in front of empty fields and the numbers. */
  lemma {:induction false} LoudBeforeClean(name: string, l: string)
    requires !Quiet(name) && Clean(l)
    ensures '\n' in Encode(name) + " " + l && Clean(LastLine(Encode(name) + " " + l))
  {
    var s := Encode(name) + " " + l;
    NewlineKept(name);
    InJoin('\n', Encode(name), l);
    InJoin('\\', Encode(name), l);
    LastLineIn(s);
  }

  /** Further fields in front of a text with a newline do not matter. */
  lemma {:induction false} LastLineAfter(name: string, l: string)
    requires '\n' in l
    ensures '\n' in Encode(name) + " " + l && LastLine(Encode(name) + " " + l) == LastLine(l)
  {
    HasNewline(l);
    LastLineJoin(Encode(name) + " ", l);
    InJoin('\n', Encode(name), l);
  }

  lemma CleanNumbers(e: Mnt)
    ensures Clean(Numbers(e))
  {
    QuietNumber(e.freq);
    QuietNumber(e.passno);
    InJoin('\\', Printed(e.freq), Printed(e.passno));
    InJoin('\n', Printed(e.freq), Printed(e.passno));
  }

  lemma EmptyInFront(l: string)
    requires Clean(l)
    ensures Clean(Encode("") + " " + l)
  {
    InJoin('\\', Encode(""), l);
    InJoin('\n', Encode(""), l);
  }

  /** If all fields behind the last one with a kept newline are empty, the last part of the broken line holds no
      backslash. */
  lemma LastPartClean(e: Mnt)
    requires !Quiet(e.fsname) ==> e.dir == "" && e.fstype == "" && e.opts == ""
    requires !Quiet(e.dir) ==> e.fstype == "" && e.opts == ""
    requires !Quiet(e.fstype) ==> e.opts == ""
    requires !Quiet(e.fsname) || !Quiet(e.dir) || !Quiet(e.fstype) || !Quiet(e.opts)
    ensures Clean(LastLine(LineOf(e)))
  {
    CleanNumbers(e);
    if !Quiet(e.opts) {
      LoudBeforeClean(e.opts, Numbers(e));
      LastLineAfter(e.fstype, FromOpts(e));
      LastLineAfter(e.dir, FromType(e));
      LastLineAfter(e.fsname, FromDir(e));
    } else if !Quiet(e.fstype) {
      EmptyInFront(Numbers(e));
      LoudBeforeClean(e.fstype, FromOpts(e));
      LastLineAfter(e.dir, FromType(e));
      LastLineAfter(e.fsname, FromDir(e));
    } else if !Quiet(e.dir) {
      EmptyInFront(Numbers(e));
      EmptyInFront(FromOpts(e));
      LoudBeforeClean(e.dir, FromType(e));
      LastLineAfter(e.fsname, FromDir(e));
    } else {
      EmptyInFront(Numbers(e));
      EmptyInFront(FromOpts(e));
      EmptyInFront(FromType(e));
      LoudBeforeClean(e.fsname, FromDir(e));
    }
  }

  lemma {:induction false} CutTame(l: string)
    requires QuietText(l)
    ensures Tame(SkipBlanks(Cut(l)))
  {
    TamePrefix(l, |Cut(l)|);
    assert l[..|Cut(l)|] == Cut(l);
    TameSkip(Cut(l));
  }

  lemma CutClean(l: string)
    requires Clean(l)
    ensures Clean(SkipBlanks(Cut(l)))
  {
    assert Clean(Cut(l));
    CleanSkip(Cut(l));
  }

  /** An entry with a newline that is kept does not come back, however long its line. */
  lemma {:induction false} BrokenLost(e: Mnt, rest: string, previous: Mnt)
    requires '\n' in LineOf(e)
    ensures GetEntry(LineOf(e) + "\n" + rest, previous) != Some((e, rest))
  {
    if GetEntry(LineOf(e) + "\n" + rest, previous) == Some((e, rest)) {
      var l := LastLine(LineOf(e));
      var h := SkipBlanks(Cut(l));
      AnyFromLastLine(LineOf(e), rest, previous, e);
      LastLineQuiet(e);
      CutTame(l);
      TameLine(h, previous);
      NewlineInLine(e);
      LastPartClean(e);
      CutClean(l);
      CleanLine(h, previous);
      assert false;
    }
  }

  // ---------- Every entry ----------

  /** Any entry is read back, as the next one and with nothing else read, if and only if no field keeps a newline,
      the first is not empty and does not start with '#', and no other is empty either if the line fits the
      buffer, or what is cut off is not missed if it does not. */
  lemma {:induction false} EntryRoundTripExact(e: Mnt, rest: string, previous: Mnt)
    ensures GetEntry(LineOf(e) + "\n" + rest, previous) == Some((e, rest)) <==>
      && Quiet(e.fsname) && Quiet(e.dir) && Quiet(e.fstype) && Quiet(e.opts)
      && e.fsname != "" && e.fsname[0] != '#'
      && if |LineOf(e)| < BUFSIZE then e.dir != "" && e.fstype != "" && e.opts != ""
         else Survives(FieldsOf(e), e.freq, e.passno, previous, BUFSIZE - 1)
  {
    NewlineInLine(e);
    if '\n' in LineOf(e) {
      BrokenLost(e, rest, previous);
    } else if |LineOf(e)| < BUFSIZE {
      ShortLineExact(e, rest, previous);
    } else if e.fsname == "" {
      NamelessLost(e, rest, previous);
    } else {
      LongLineExact(e, rest, previous);
    }
  }

  lemma {:induction false} NamelessLost(e: Mnt, rest: string, previous: Mnt)
    requires '\n' !in LineOf(e) && e.fsname == ""
    ensures GetEntry(LineOf(e) + "\n" + rest, previous) != Some((e, rest))
  {
    var l := Cut(LineOf(e));
    var h := SkipBlanks(l);
    AnyLineRead(LineOf(e), rest, previous);
    NotFromRest(rest, previous, e);
    SkipBlanksAll(l);
    if h != "" {
      assert Inked(l);
      FieldNotEmpty(l);
      var f1 := TakeField(Some(h));
      ParseLineFields(h, previous, f1, TakeField(f1.1), TakeField(TakeField(f1.1).1));
    }
  }

  lemma {:induction false} LongLineExact(e: Mnt, rest: string, previous: Mnt)
    requires '\n' !in LineOf(e) && |LineOf(e)| >= BUFSIZE && e.fsname != ""
    ensures GetEntry(LineOf(e) + "\n" + rest, previous) == Some((e, rest)) <==>
      e.fsname[0] != '#' && Survives(FieldsOf(e), e.freq, e.passno, previous, BUFSIZE - 1)
  {
    var kept, fs := BUFSIZE - 1, FieldsOf(e);
    var l := LineOf(e)[..kept];
    AnyLineRead(LineOf(e), rest, previous);
    NotFromRest(rest, previous, e);
    LineIsTail(e);
    NoBlankAhead(fs, e.freq, e.passno, kept);
    CutRead(fs, e.freq, e.passno, previous, kept);
    ParseIsRead(l, previous, e);
    TokenHead(e.fsname, FromDir(e));
    assert l[0] == LineOf(e)[0];
  }

  /** So a line with one character too many comes back if and only if that character is the 0 of the last
      number. */
  lemma {:induction false} OneTooLong(e: Mnt, rest: string, previous: Mnt)
    requires GoodFields(e) && e.fsname[0] != '#' && |LineOf(e)| == BUFSIZE
    ensures GetEntry(LineOf(e) + "\n" + rest, previous) == Some((e, rest)) <==> e.passno == 0
  {
    NoNewline(e);
    LongLineExact(e, rest, previous);
    AllButTheLast(e, previous, BUFSIZE - 1);
  }

  lemma {:induction false} AllButTheLast(e: Mnt, previous: Mnt, kept: nat)
    requires GoodFields(e) && kept == |LineOf(e)| - 1
    ensures Survives(FieldsOf(e), e.freq, e.passno, previous, kept) <==> e.passno == 0
  {
    LineIsTail(e);
    AllButOne(FieldsOf(e), e.freq, e.passno, previous);
  }

  /** Of a line without empty fields, all but the last character is left. */
  lemma {:induction false} AllButOne(fs: seq<string>, f: int, p: int, previous: Mnt)
    requires fs != [] && "" !in fs
    ensures Survives(fs, f, p, previous, |Tail(fs, f, p)| - 1) <==> p == 0
    decreases |fs|
  {
    var n, k := |Encode(fs[0])|, |Tail(fs[1..], f, p)|;
    assert |Tail(fs, f, p)| == n + 1 + k;
    if |fs| == 1 {
      assert fs[1..] == [];
      assert k == |Printed(f)| + 1 + |Printed(p)|;
    } else {
      assert fs[1] in fs && "" !in fs[1..];
      LongEnough(fs[1..], f, p);
      AllButOne(fs[1..], f, p, previous);
    }
  }

  lemma {:induction false} LongEnough(fs: seq<string>, f: int, p: int)
    ensures |Tail(fs, f, p)| >= 3
  {
    if fs != [] { LongEnough(fs[1..], f, p); }
  }
}

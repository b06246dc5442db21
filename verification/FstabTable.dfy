/** The mount table of booster_fstab.c: entries written by addent are read back by getent. */
module FstabTable {
  import opened Options
  import opened FstabNames

  /** struct glusterfs_mntent. */
  datatype Mnt = Mnt(fsname: string, dir: string, fstype: string, opts: string, freq: int, passno: int)

  // ---------- Numbers ----------

  function Digit(d: nat): (c: char)
    requires d < 10
    ensures IsDigit(c) && c as int - '0' as int == d
  {
    (d + '0' as int) as char
  }

  predicate IsDigit(c: char)
  {
    '0' <= c <= '9'
  }

  function Decimal(n: nat): (s: string)
    ensures |s| > 0 && forall k :: 0 <= k < |s| ==> IsDigit(s[k])
  {
    if n < 10 then [Digit(n)] else Decimal(n / 10) + [Digit(n % 10)]
  }

  /** printf's %d. */
  function Printed(n: int): (s: string)
    ensures |s| > 0 && (IsDigit(s[0]) || s[0] == '-')
    ensures forall k :: 0 <= k < |s| ==> IsDigit(s[k]) || s[k] == '-'
  {
    if n < 0 then ['-'] + Decimal(-n) else Decimal(n)
  }

  /** The value of a run of digits after acc, and the text behind it. */
  function ReadDigits(s: string, acc: nat): (nat, string)
  {
    if s != "" && IsDigit(s[0]) then ReadDigits(s[1..], 10 * acc + (s[0] as int - '0' as int)) else (acc, s)
  }

  predicate IsSpace(c: char)
  {
    c == ' ' || 9 <= c as int <= 13
  }

  function SkipSpace(s: string): string
  {
    if s != "" && IsSpace(s[0]) then SkipSpace(s[1..]) else s
  }

  /** One %d of scanf at s, which does not start with white space: the number and the text behind it. */
  function ReadInt(s: string): Option<(int, string)>
  {
    if s == "" then None
    else
      var signed := s[0] == '-' || s[0] == '+';
      var t := if signed then s[1..] else s;
      if t == "" || !IsDigit(t[0]) then None
      else
        var r := ReadDigits(t, 0);
        var value: int := r.0;
        Some((if s[0] == '-' then -value else value, r.1))
  }

  /** sscanf (s, " %d %d ", ...): end of input, or the numbers it has read. */
  datatype Scan = AtEnd | Zero | One(freq: int) | Two(freq: int, passno: int)

  function ScanNumbers(s: string): Scan
  {
    var t := SkipSpace(s);
    if t == "" then AtEnd
    else
      var f := ReadInt(t);
      if f.None? then Zero
      else
        var p := ReadInt(SkipSpace(f.value.1));
        if p.None? then One(f.value.0) else Two(f.value.0, p.value.0)
  }

  lemma {:induction false} ReadDecimal(n: nat, t: string)
    ensures ReadDigits(Decimal(n) + t, 0) == ReadDigits(t, n)
  {
    if n < 10 {
      assert ([Digit(n)] + t)[1..] == t;
    } else {
      ReadDecimal(n / 10, [Digit(n % 10)] + t);
      assert Decimal(n) + t == Decimal(n / 10) + ([Digit(n % 10)] + t);
      assert ([Digit(n % 10)] + t)[1..] == t;
    }
  }

  lemma ReadPrinted(n: int, t: string)
    requires t != "" ==> !IsDigit(t[0])
    ensures ReadInt(Printed(n) + t) == Some((n, t))
  {
    var s, d := Printed(n) + t, Decimal(if n < 0 then -n else n);
    assert (d + t)[0] == d[0] && IsDigit((d + t)[0]);
    assert ReadDigits(t, if n < 0 then -n else n) == (if n < 0 then -n else n, t);
    ReadDecimal(if n < 0 then -n else n, t);
    if n < 0 {
      assert s[0] == '-' && s[1..] == d + t;
    } else {
      assert s == d + t;
    }
  }

  /** The two numbers at the end of a line are read back. */
  lemma NumbersRoundTrip(f: int, p: int)
    ensures ScanNumbers(Printed(f) + " " + Printed(p)) == Two(f, p)
  {
    var s := Printed(f) + " " + Printed(p);
    assert s == Printed(f) + (" " + Printed(p));
    ReadPrinted(f, " " + Printed(p));
    assert s[0] == Printed(f)[0] && SkipSpace(s) == s;
    assert (" " + Printed(p))[1..] == Printed(p) && SkipSpace(Printed(p)) == Printed(p);
    ReadPrinted(p, "");
    assert Printed(p) + "" == Printed(p);
  }

  // ---------- Lines ----------

  const BUFSIZE: nat := 1024

  /** The position of the first character of s that is in cs, or its length. */
  function Until(s: string, cs: string): (n: nat)
    ensures n <= |s| && (n < |s| ==> s[n] in cs) && forall k :: 0 <= k < n ==> s[k] !in cs
  {
    if s == "" || s[0] in cs then 0 else 1 + Until(s[1..], cs)
  }

  /** strspn (s, " \t"). */
  function SkipBlanks(s: string): string
  {
    if s != "" && s[0] in " \t" then SkipBlanks(s[1..]) else s
  }

  /** strsep (&s, " \t"): the token, and the rest unless the token reaches the end. */
  function Separate(s: string): (string, Option<string>)
  {
    var n := Until(s, " \t");
    (s[..n], if n < |s| then Some(s[n + 1..]) else None)
  }

  /** A field: nothing is left to take it from, or it is cut off and decoded; then blanks are skipped. */
  function TakeField(rest: Option<string>): (string, Option<string>)
  {
    if rest.None? then ("", None)
    else
      var r := Separate(rest.value);
      (Decode(r.0), if r.1.Some? then Some(SkipBlanks(r.1.value)) else None)
  }

  /** The options, with which the text is cut off too, and the numbers behind them. */
  function LastField(rest: Option<string>): (string, Scan)
  {
    if rest.None? then ("", Zero)
    else
      var r := Separate(rest.value);
      (Decode(r.0), if r.1.None? then Zero else ScanNumbers(r.1.value))
  }

  /** The entry with what sscanf has read. At the end of input it reads nothing, and the numbers of the
      previous entry stay. */
  function Filled(fsname: string, dir: string, fstype: string, opts: string, nums: Scan, previous: Mnt): Mnt
  {
    match nums
    case AtEnd => Mnt(fsname, dir, fstype, opts, previous.freq, previous.passno)
    case Zero => Mnt(fsname, dir, fstype, opts, 0, 0)
    case One(f) => Mnt(fsname, dir, fstype, opts, f, 0)
    case Two(f, p) => Mnt(fsname, dir, fstype, opts, f, p)
  }

  /** The entry of a line that is not empty and not a comment. */
  function ParseLine(line: string, previous: Mnt): Mnt
  {
    var f1 := TakeField(Some(line));
    var f2 := TakeField(f1.1);
    var f3 := TakeField(f2.1);
    var f4 := LastField(f3.1);
    Filled(f1.0, f2.0, f3.0, f4.0, f4.1, previous)
  }

  /** The next line of a stream as getent sees it, cut to the size of its buffer, and what comes after it. */
  function NextLine(stream: string): (r: (string, string))
    requires stream != ""
    ensures |r.1| < |stream|
  {
    var n := Until(stream, "\n");
    (stream[..if n < BUFSIZE then n else BUFSIZE - 1], if n < |stream| then stream[n + 1..] else "")
  }

  /** __glusterfs_fstab_getent. */
  function GetEntry(stream: string, previous: Mnt): Option<(Mnt, string)>
    decreases |stream|
  {
    if stream == "" then None
    else
      var (line, rest) := NextLine(stream);
      var head := SkipBlanks(line);
      if head == "" || head[0] == '#' then GetEntry(rest, previous) else Some((ParseLine(head, previous), rest))
  }

  /** All entries of a stream, as booster_configure reads them. */
  function GetAll(stream: string, previous: Mnt): seq<Mnt>
    decreases |stream|
  {
    var r := GetEntry(stream, previous);
    if r.None? then [] else GetShorter(stream, previous); [r.value.0] + GetAll(r.value.1, r.value.0)
  }

  lemma {:induction false} GetShorter(stream: string, previous: Mnt)
    requires GetEntry(stream, previous).Some?
    ensures |GetEntry(stream, previous).value.1| < |stream|
    decreases |stream|
  {
    var (line, rest) := NextLine(stream);
    var head := SkipBlanks(line);
    if head == "" || head[0] == '#' { GetShorter(rest, previous); }
  }

  // ---------- glusterfs_fstab_addent ----------

  /** The line that addent writes for an entry, without its newline, from each of its fields on. */
  function LineOf(e: Mnt): string
  {
    Encode(e.fsname) + " " + FromDir(e)
  }

  function FromDir(e: Mnt): string
  {
    Encode(e.dir) + " " + FromType(e)
  }

  function FromType(e: Mnt): string
  {
    Encode(e.fstype) + " " + FromOpts(e)
  }

  function FromOpts(e: Mnt): string
  {
    Encode(e.opts) + " " + Numbers(e)
  }

  function Numbers(e: Mnt): string
  {
    Printed(e.freq) + " " + Printed(e.passno)
  }

  function WriteAll(es: seq<Mnt>): string
  {
    if es == [] then "" else LineOf(es[0]) + "\n" + WriteAll(es[1..])
  }

  predicate GoodField(s: string)
  {
    s != "" && !('\n' in s && !NeedsCode(s))
  }

  predicate GoodFields(e: Mnt)
  {
    GoodField(e.fsname) && GoodField(e.dir) && GoodField(e.fstype) && GoodField(e.opts)
  }

  /** The entry survives: no field is empty or keeps a newline, the line does not look like a comment, and
      it fits the buffer. */
  predicate Good(e: Mnt)
  {
    GoodFields(e) && e.fsname[0] != '#' && |LineOf(e)| < BUFSIZE
  }

  /** A token that is cut off at the blank behind it. */
  lemma TokenEnds(t: string, rest: string)
    requires ' ' !in t && '\t' !in t
    ensures Separate(t + " " + rest) == (t, Some(rest))
  {
    var s := t + " " + rest;
    assert s[|t|] == ' ' && forall k :: 0 <= k < |t| ==> s[k] == t[k];
    assert Until(s, " \t") == |t|;
    assert s[..|t|] == t && s[|t| + 1..] == rest;
  }

  /** A field that is followed by another token comes back decoded. */
  lemma FieldBack(name: string, rest: string)
    requires rest != "" && rest[0] !in " \t"
    ensures TakeField(Some(Encode(name) + " " + rest)) == (name, Some(rest))
  {
    EncodedName(name);
    TokenEnds(Encode(name), rest);
    NameRoundTrip(name);
  }

  lemma TokenHead(name: string, rest: string)
    requires name != ""
    ensures var s := Encode(name) + " " + rest; s != "" && s[0] !in " \t" && (s[0] == '#' <==> name[0] == '#')
  {
    EncodedName(name);
    EncodedHead(name);
    assert (Encode(name) + " " + rest)[0] == Encode(name)[0];
  }

  lemma LineBack(e: Mnt, previous: Mnt)
    requires GoodFields(e)
    ensures ParseLine(LineOf(e), previous) == e
    ensures LineOf(e) != "" && LineOf(e)[0] !in " \t" && (LineOf(e)[0] == '#' <==> e.fsname[0] == '#')
  {
    TokenHead(e.opts, Numbers(e));
    TokenHead(e.fstype, FromOpts(e));
    TokenHead(e.dir, FromType(e));
    TokenHead(e.fsname, FromDir(e));
    FieldBack(e.fsname, FromDir(e));
    FieldBack(e.dir, FromType(e));
    FieldBack(e.fstype, FromOpts(e));
    EncodedName(e.opts);
    TokenEnds(Encode(e.opts), Numbers(e));
    NameRoundTrip(e.opts);
    NumbersRoundTrip(e.freq, e.passno);
  }

  lemma NoNewline(e: Mnt)
    requires GoodFields(e)
    ensures '\n' !in LineOf(e)
  {
    EncodedName(e.fsname);
    EncodedName(e.dir);
    EncodedName(e.fstype);
    EncodedName(e.opts);
    assert '\n' !in Printed(e.freq) && '\n' !in Printed(e.passno);
  }

  lemma FirstLine(line: string, rest: string)
    requires '\n' !in line && |line| < BUFSIZE
    ensures NextLine(line + "\n" + rest) == (line, rest)
  {
    var s := line + "\n" + rest;
    assert s[|line|] == '\n' && forall k :: 0 <= k < |line| ==> s[k] == line[k];
    assert Until(s, "\n") == |line|;
    assert s[..|line|] == line && s[|line| + 1..] == rest;
  }

  /** An entry written at the front of a stream is the next one read, whatever was read before it. */
  lemma {:induction false} EntryRoundTrip(e: Mnt, rest: string, previous: Mnt)
    requires Good(e)
    ensures GetEntry(LineOf(e) + "\n" + rest, previous) == Some((e, rest))
  {
    NoNewline(e);
    FirstLine(LineOf(e), rest);
    LineBack(e, previous);
    assert SkipBlanks(LineOf(e)) == LineOf(e);
  }

  lemma {:induction false} GetAllStep(stream: string, e: Mnt, rest: string, previous: Mnt)
    requires GetEntry(stream, previous) == Some((e, rest))
    ensures GetAll(stream, previous) == [e] + GetAll(rest, e)
  {
  }

  /** Any list of such entries is read back in order. */
  lemma {:induction false} TableRoundTrip(es: seq<Mnt>, previous: Mnt)
    requires forall k :: 0 <= k < |es| ==> Good(es[k])
    ensures GetAll(WriteAll(es), previous) == es
  {
    if es != [] {
      EntryRoundTrip(es[0], WriteAll(es[1..]), previous);
      GetAllStep(WriteAll(es), es[0], WriteAll(es[1..]), previous);
      TableRoundTrip(es[1..], es[0]);
      assert es == [es[0]] + es[1..];
    }
  }
}

/** The reading and writing of the mount table as booster_fstab.c does it: a file position, one line buffer that
    is cut up and decoded in place. */
module FstabReader {
  import opened Options
  import opened FstabNames
  import opened FstabTable

  /** A string in memory: from at to its terminating zero at end. */
  ghost predicate Text(buf: array<char>, at: nat, end: nat)
    reads buf
  {
    at <= end < buf.Length && buf[end] == NUL && NUL !in buf[at..end]
  }

  /** strspn (s, " \t") added to s. */
  method PassBlanks(buf: array<char>, at: nat, end: nat) returns (i: nat)
    requires Text(buf, at, end)
    ensures at <= i <= end && buf[i..end] == SkipBlanks(buf[at..end]) && Text(buf, i, end)
  {
    i := at;
    while buf[i] == ' ' || buf[i] == '\t'
      invariant at <= i <= end && SkipBlanks(buf[i..end]) == SkipBlanks(buf[at..end])
      decreases end - i
    {
      assert buf[i..end][0] == buf[i] && buf[i..end][1..] == buf[i + 1..end];
      i := i + 1;
    }
    assert i < end ==> buf[i..end][0] == buf[i];
    assert forall k :: i <= k < end ==> buf[k] in buf[at..end];
  }

  /** The position of the first blank, or of the end. */
  method FindBlank(buf: array<char>, at: nat, end: nat) returns (i: nat)
    requires Text(buf, at, end)
    ensures at <= i <= end && i == at + Until(buf[at..end], " \t")
  {
    i := at;
    while i < end && buf[i] != ' ' && buf[i] != '\t'
      invariant at <= i <= end && forall k :: at <= k < i ==> buf[k] !in " \t"
    {
      i := i + 1;
    }
    assert forall k :: at <= k < end ==> buf[k] == buf[at..end][k - at];
    assert i < end ==> buf[at..end][i - at] in " \t";
  }

  /** strsep, then decode_name: the length of the decoded token at at, and where the rest begins. */
  method CutToken(buf: array<char>, at: nat, end: nat) returns (len: nat, rest: Option<nat>)
    requires Text(buf, at, end)
    modifies buf
    ensures var r := Separate(old(buf[at..end]));
      && len == |Decode(r.0)| && at + len <= end && buf[at..at + len] == Decode(r.0)
      && (rest.Some? <==> r.1.Some?)
      && (rest.Some? ==>
            at + len < rest.value <= end && Text(buf, rest.value, end) && buf[rest.value..end] == r.1.value)
    ensures forall k :: 0 <= k < at ==> buf[k] == old(buf[k])
  {
    ghost var s := buf[at..end];
    var i := FindBlank(buf, at, end);
    assert buf[at..i] == s[..i - at] && NUL !in s[..i - at];
    rest := None;
    if i < end {
      assert buf[i + 1..end] == s[i + 1 - at..] && NUL !in s[i + 1 - at..];
      rest := Some(i + 1);
      buf[i] := NUL;
    }
    assert buf[at..i] == s[..i - at];
    len := DecodeInPlace(buf, at, i);
    assert rest.Some? ==> buf[i + 1..end] == s[i + 1 - at..];
  }

  /** The rest of the line from head on, if any. */
  ghost function Left(buf: array<char>, head: Option<nat>, end: nat): Option<string>
    requires head.Some? ==> Text(buf, head.value, end)
    reads buf
  {
    if head.None? then None else Some(buf[head.value..end])
  }

  /** Nothing before head has changed. */
  ghost predicate SameBefore(b: seq<char>, b': seq<char>, head: Option<nat>)
  {
    |b'| == |b| && forall k :: 0 <= k < |b| && (head.None? || k < head.value) ==> b'[k] == b[k]
  }

  lemma Kept(b: seq<char>, b': seq<char>, head: Option<nat>, p: nat, len: nat)
    requires SameBefore(b, b', head) && p + len <= |b| && (head.Some? ==> p + len <= head.value)
    ensures b'[p..p + len] == b[p..p + len]
  {
  }

  /** One of the first three fields: where it stands, and where the text behind it begins. */
  method CutField(buf: array<char>, head: Option<nat>, end: nat) returns (at: nat, len: nat, next: Option<nat>)
    requires end < buf.Length && (head.Some? ==> Text(buf, head.value, end))
    modifies buf
    ensures at + len <= end
    ensures next.Some? ==>
      head.Some? && head.value < next.value && at + len < next.value && Text(buf, next.value, end)
    ensures buf[at..at + len] == TakeField(old(Left(buf, head, end))).0
    ensures Left(buf, next, end) == TakeField(old(Left(buf, head, end))).1
    ensures SameBefore(old(buf[..]), buf[..], head)
  {
    if head.None? { return 0, 0, None; }
    at := head.value;
    len, next := CutToken(buf, at, end);
    if next.Some? {
      var i := PassBlanks(buf, next.value, end);
      next := Some(i);
    }
  }

  /** The options and the numbers. */
  method CutLast(buf: array<char>, head: Option<nat>, end: nat) returns (at: nat, len: nat, nums: Scan)
    requires end < buf.Length && (head.Some? ==> Text(buf, head.value, end))
    modifies buf
    ensures at + len <= end
    ensures var f := LastField(old(Left(buf, head, end))); buf[at..at + len] == f.0 && nums == f.1
    ensures SameBefore(old(buf[..]), buf[..], head)
  {
    at, len, nums := 0, 0, Zero;
    if head.Some? {
      at := head.value;
      var rest;
      len, rest := CutToken(buf, at, end);
      if rest.Some? { nums := ScanNumbers(buf[rest.value..end]); }
    }
  }

  /** Lines 165-188 of getent: the fields of the line from at to end, each cut off and decoded where it
      stands, so that all four are still there when the last has been read. */
  method ParseInPlace(buf: array<char>, at: nat, end: nat, previous: Mnt) returns (e: Mnt)
    requires Text(buf, at, end)
    modifies buf
    ensures e == ParseLine(old(buf[at..end]), previous)
  {
    var p1, l1, h1 := CutField(buf, Some(at), end);
    ghost var b1 := buf[..];
    var p2, l2, h2 := CutField(buf, h1, end);
    ghost var b2 := buf[..];
    Kept(b1, b2, h1, p1, l1);
    var p3, l3, h3 := CutField(buf, h2, end);
    ghost var b3 := buf[..];
    Kept(b2, b3, h2, p1, l1);
    Kept(b2, b3, h2, p2, l2);
    var p4, l4, nums := CutLast(buf, h3, end);
    Kept(b3, buf[..], h3, p1, l1);
    Kept(b3, buf[..], h3, p2, l2);
    Kept(b3, buf[..], h3, p3, l3);
    e := Filled(buf[p1..p1 + l1], buf[p2..p2 + l2], buf[p3..p3 + l3], buf[p4..p4 + l4], nums, previous);
  }

  // ---------- The open table ----------

  /** How many characters fgets takes from s into a buffer of n: up to a newline, the newline included. */
  function Taken(s: string, n: nat): (k: nat)
    requires n > 1
    ensures k <= |s| && k < n && (s != "" ==> k > 0)
  {
    var i := Until(s, "\n");
    if i + 1 < n && i < |s| then i + 1 else if i < n then i else n - 1
  }

  /** glusterfs_fstab_t: the text of the file before and after its position, the line buffer, and the entry
      last read. */
  class Fstab {
    var before: string
    var rest: string
    const buf: array<char>
    var ent: Mnt

    ghost predicate Valid()
      reads this
    {
      NUL !in before && NUL !in rest && buf.Length == BUFSIZE
    }

    constructor (content: string)
      requires NUL !in content
      ensures Valid() && fresh(buf) && before == "" && rest == content
    {
      before, rest := "", content;
      buf := new char[BUFSIZE];
      ent := Mnt("", "", "", "", 0, 0);
    }

    /** The position moves over n characters. */
    method Forward(n: nat)
      requires Valid() && n <= |rest|
      modifies this
      ensures Valid() && rest == old(rest[n..]) && before == old(before + rest[..n]) && ent == old(ent)
    {
      before, rest := before + rest[..n], rest[n..];
    }

    /** fgets (buffer, BUFSIZE, stream) at a position before the end. */
    method Gets() returns (n: nat)
      requires Valid() && rest != ""
      modifies this, buf
      ensures Valid() && ent == old(ent) && before + rest == old(before + rest)
      ensures n == Taken(old(rest), BUFSIZE) && rest == old(rest[n..]) && buf[..n] == old(rest[..n]) && buf[n] == NUL
    {
      n := 0;
      ghost var s, s0 := rest, before;
      while n < BUFSIZE - 1 && n < |rest| && (n == 0 || rest[n - 1] != '\n')
        invariant 0 <= n <= BUFSIZE - 1 && n <= |s|
        invariant rest == s && before == s0 && ent == old(ent)
        invariant buf[..n] == s[..n] && forall k :: 0 <= k < n - 1 ==> s[k] != '\n'
      {
        buf[n] := rest[n];
        n := n + 1;
      }
      TakenIs(s, n);
      buf[n] := NUL;
      Forward(n);
      assert s0 + s[..n] + s[n..] == s0 + s;
    }

    /** The rest of a line that is too long for the buffer, read in pieces and forgotten. */
    method DropLine()
      requires Valid()
      modifies this
      ensures Valid() && ent == old(ent) && before + rest == old(before + rest) && rest == AfterLine(old(rest))
    {
      ghost var s, s0, goal := rest, before, AfterLine(rest);
      var found := false;
      while rest != "" && !found
        invariant Valid() && ent == old(ent) && before + rest == s0 + s
        invariant goal == if found then rest else AfterLine(rest)
        decreases |rest|, !found
      {
        var n := Taken(rest, 1024);
        DropPiece(rest, n);
        found := rest[n - 1] == '\n';
        Whole(before, rest, n);
        Forward(n);
      }
    }

    /** Reads a line into the buffer, without its newline; n is its length. */
    method ReadLine() returns (n: nat)
      requires Valid() && rest != ""
      modifies this, buf
      ensures Valid() && ent == old(ent) && before + rest == old(before + rest)
      ensures n < BUFSIZE && buf[n] == NUL && NUL !in buf[..n]
      ensures buf[..n] == NextLine(old(rest)).0 && rest == NextLine(old(rest)).1
    {
      ghost var s := rest;
      n := Gets();
      NextLineRead(s, n);
      assert NUL !in s[..n] && s[n - 1] == buf[..n][n - 1];
      if buf[n - 1] == '\n' {
        n := n - 1;
        buf[n] := NUL;
        assert buf[..n] == s[..n];
      } else {
        DropLine();
      }
    }

    /** __glusterfs_fstab_getent. */
    method Get() returns (found: bool)
      requires Valid()
      modifies this, buf
      ensures Valid() && before + rest == old(before + rest)
      ensures var r := GetEntry(old(rest), old(ent));
        found == r.Some? && (found ==> ent == r.value.0 && rest == r.value.1)
      ensures !found ==> rest == "" && ent == old(ent)
    {
      ghost var goal := GetEntry(rest, ent);
      while rest != ""
        invariant Valid() && ent == old(ent) && before + rest == old(before + rest) && GetEntry(rest, ent) == goal
        decreases |rest|
      {
        GetEntryStep(rest, ent);
        var n := ReadLine();
        assert buf[0..n] == buf[..n];
        var head := PassBlanks(buf, 0, n);
        if buf[head] != NUL && buf[head] != '#' {
          assert buf[head..n] != "" && buf[head..n][0] == buf[head];
          var e := ParseInPlace(buf, head, n, ent);
          ent := e;
          return true;
        }
        assert head < n ==> buf[head..n][0] == buf[head];
      }
      return false;
    }

    /** glusterfs_fstab_addent: the entry goes to the end of the file. */
    method Add(e: Mnt)
      requires Valid() && NUL !in e.fsname && NUL !in e.dir && NUL !in e.fstype && NUL !in e.opts
      modifies this
      ensures Valid() && before == old(before + rest) + LineOf(e) + "\n" && rest == "" && ent == old(ent)
    {
      before, rest := before + rest, "";
      var fsname := EncodeName(e.fsname);
      var dir := EncodeName(e.dir);
      var fstype := EncodeName(e.fstype);
      var opts := EncodeName(e.opts);
      LineNoNul(e);
      var numbers := Printed(e.freq) + " " + Printed(e.passno);
      before := before + (fsname + " " + (dir + " " + (fstype + " " + (opts + " " + numbers)))) + "\n";
    }
  }

  /** One line of the stream is skipped or parsed. */
  lemma {:induction false} GetEntryStep(stream: string, previous: Mnt)
    requires stream != ""
    ensures var r := NextLine(stream); var head := SkipBlanks(r.0);
      GetEntry(stream, previous) ==
        if head == "" || head[0] == '#' then GetEntry(r.1, previous) else Some((ParseLine(head, previous), r.1))
  {
  }

  lemma LineNoNul(e: Mnt)
    requires NUL !in e.fsname && NUL !in e.dir && NUL !in e.fstype && NUL !in e.opts
    ensures NUL !in LineOf(e)
  {
    EncodeNoNul(e.fsname);
    EncodeNoNul(e.dir);
    EncodeNoNul(e.fstype);
    EncodeNoNul(e.opts);
  }

  lemma Whole(a: string, s: string, n: nat)
    requires n <= |s|
    ensures a + s[..n] + s[n..] == a + s
  {
  }

  /** What follows the first line of s. */
  function AfterLine(s: string): string
  {
    var i := Until(s, "\n"); if i < |s| then s[i + 1..] else ""
  }

  lemma DropPiece(s: string, n: nat)
    requires s != "" && n == Taken(s, 1024)
    ensures if s[n - 1] == '\n' then s[n..] == AfterLine(s) else AfterLine(s[n..]) == AfterLine(s)
  {
    var i := Until(s, "\n");
    if s[n - 1] != '\n' {
      assert forall k :: 0 <= k < |s| - n ==> s[n..][k] == s[n + k];
      assert Until(s[n..], "\n") == i - n;
    }
  }

  lemma NextLineRead(s: string, n: nat)
    requires s != "" && n == Taken(s, BUFSIZE)
    ensures n > 0 && NextLine(s).1 == AfterLine(s)
    ensures
      if s[n - 1] == '\n' then NextLine(s) == (s[..n - 1], s[n..])
      else NextLine(s).0 == s[..n] && AfterLine(s[n..]) == AfterLine(s)
  {
    DropPiece(s, n);
  }

  lemma TakenIs(s: string, n: nat)
    requires n <= |s| && 0 < n < BUFSIZE && forall k :: 0 <= k < n - 1 ==> s[k] != '\n'
    requires n == BUFSIZE - 1 || n == |s| || s[n - 1] == '\n'
    ensures n == Taken(s, BUFSIZE)
  {
  }
}

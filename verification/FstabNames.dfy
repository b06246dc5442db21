/** How booster's mount table writes names: encode_name and decode_name in booster_fstab.c. */
module FstabNames {
  import opened Seqs

  const NUL := '\0'

  // ---------- The code of a name ----------

  function EncodeChar(c: char): (r: string)
    ensures 1 <= |r| <= 4 && forall k :: 0 <= k < |r| ==> r[k] != ' ' && r[k] != '\t' && r[k] != '\n'
  {
    if c == ' ' then "\\040" else if c == '\t' then "\\011" else if c == '\n' then "\\012"
    else if c == '\\' then "\\\\" else [c]
  }

  function EncodeAll(s: string): string
  {
    if s == "" then "" else EncodeChar(s[0]) + EncodeAll(s[1..])
  }

  /** encode_name leaves a name alone unless it has a space, a tab or a backslash. */
  predicate NeedsCode(s: string)
  {
    ' ' in s || '\t' in s || '\\' in s
  }

  function Encode(s: string): string
  {
    if NeedsCode(s) then EncodeAll(s) else s
  }

  /** What decode_name makes of the text at its read pointer: one character, and how many it stands for. */
  function DecodeChar(s: string): (r: (char, nat))
    requires s != ""
    ensures 1 <= r.1 <= |s|
  {
    if "\\040" <= s then (' ', 4)
    else if "\\011" <= s then ('\t', 4)
    else if "\\012" <= s then ('\n', 4)
    else if "\\\\" <= s then ('\\', 2)
    else if "\\134" <= s then ('\\', 4)
    else (s[0], 1)
  }

  function Decode(s: string): (r: string)
    ensures |r| <= |s|
    decreases |s|
  {
    if s == "" then "" else [DecodeChar(s).0] + Decode(s[DecodeChar(s).1..])
  }

  // ---------- Round trip ----------

  lemma DecodeOne(c: char, t: string)
    ensures DecodeChar(EncodeChar(c) + t) == (c, |EncodeChar(c)|)
  {
    var s := EncodeChar(c) + t;
    assert s[0] == EncodeChar(c)[0];
    if c == ' ' || c == '\t' || c == '\n' {
      assert s[1] == EncodeChar(c)[1] && s[2] == EncodeChar(c)[2] && s[3] == EncodeChar(c)[3];
    } else if c == '\\' {
      assert s[1] == '\\';
    }
  }

  lemma {:induction false} DecodeEncodeAll(s: string)
    ensures Decode(EncodeAll(s)) == s
  {
    if s != "" {
      DecodeOne(s[0], EncodeAll(s[1..]));
      DecodeEncodeAll(s[1..]);
      assert (EncodeChar(s[0]) + EncodeAll(s[1..]))[|EncodeChar(s[0])|..] == EncodeAll(s[1..]);
      assert s == [s[0]] + s[1..];
    }
  }

  lemma NotInTail(c: char, s: string)
    requires c !in s && s != ""
    ensures c !in s[1..]
  {
  }

  lemma {:induction false} DecodePlain(s: string)
    requires '\\' !in s
    ensures Decode(s) == s
  {
    if s != "" {
      assert DecodeChar(s) == (s[0], 1) by { assert s[0] in s; }
      NotInTail('\\', s);
      DecodePlain(s[1..]);
      assert s == [s[0]] + s[1..];
    }
  }

  /** decode_name undoes encode_name, for every string. */
  lemma NameRoundTrip(s: string)
    ensures Decode(Encode(s)) == s
  {
    if NeedsCode(s) { DecodeEncodeAll(s); } else { DecodePlain(s); }
  }

  lemma {:induction false} EncodeAllClean(s: string)
    ensures |s| <= |EncodeAll(s)| <= 4 * |s|
    ensures ' ' !in EncodeAll(s) && '\t' !in EncodeAll(s) && '\n' !in EncodeAll(s)
  {
    if s != "" { EncodeAllClean(s[1..]); }
  }

  /** Encoded names hold no blank, are at most four times as long, and are empty just for the empty name.
      A newline stays in the encoded name, which breaks the line, if and only if the name has a newline but
      nothing that makes encode_name encode it. */
  lemma EncodedName(s: string)
    ensures |s| <= |Encode(s)| <= 4 * |s|
    ensures ' ' !in Encode(s) && '\t' !in Encode(s)
    ensures '\n' in Encode(s) <==> '\n' in s && !NeedsCode(s)
  {
    EncodeAllClean(s);
  }

  /** Encoding never hides a comment sign. */
  lemma EncodedHead(s: string)
    requires s != ""
    ensures Encode(s)[0] == '#' <==> s[0] == '#'
  {
  }

  lemma {:induction false} EncodeNoNul(s: string)
    requires NUL !in s
    ensures NUL !in Encode(s)
  {
    if NeedsCode(s) { AllNoNul(s); }
  }

  lemma {:induction false} AllNoNul(s: string)
    requires NUL !in s
    ensures NUL !in EncodeAll(s)
  {
    if s != "" {
      assert s[0] in s && NUL !in s[1..];
      AllNoNul(s[1..]);
    }
  }

  // ---------- What the codes mean ----------

  lemma {:induction false} DecodePlainStart(c: char, t: string)
    requires c != '\\'
    ensures Decode([c] + t) == [c] + Decode(t)
  {
    var s := [c] + t;
    assert s[0] == c && s[1..] == t;
  }

  lemma {:induction false} DecodeAfter(a: string, t: string)
    requires '\\' !in a
    ensures Decode(a + t) == a + Decode(t)
  {
    if a == "" {
      assert a + t == t;
    } else {
      assert a[0] in a;
      NotInTail('\\', a);
      DecodeAfter(a[1..], t);
      DecodePlainStart(a[0], a[1..] + t);
      Split(a, t);
      Split(a, Decode(t));
    }
  }

  lemma Split(a: string, t: string)
    requires a != ""
    ensures a + t == [a[0]] + (a[1..] + t)
  {
    assert a == [a[0]] + a[1..];
  }

  /** The text begins with a code of n characters that stands for c. */
  lemma {:induction false} DecodeStart(code: string, c: char, b: string)
    requires code != "" && DecodeChar(code + b) == (c, |code|)
    ensures Decode(code + b) == [c] + Decode(b)
  {
    assert (code + b)[|code|..] == b;
  }

  /** No code begins with the backslash before t. */
  predicate NoCode(t: string)
  {
    !("\\" <= t) && !("040" <= t) && !("011" <= t) && !("012" <= t) && !("134" <= t)
  }

  lemma BackslashAlone(t: string)
    requires NoCode(t)
    ensures DecodeChar("\\" + t) == ('\\', 1)
  {
    var s := "\\" + t;
    if |s| > 1 {
      assert s[1] == t[0];
      if |s| > 3 { assert s[2] == t[1] && s[3] == t[2]; }
    }
  }

  lemma Begins(code: string, b: string)
    requires |code| == 4
    ensures var s := code + b;
      |s| >= 4 && s[0] == code[0] && s[1] == code[1] && s[2] == code[2] && s[3] == code[3] && code <= s
  {
  }

  lemma CodeChars(b: string)
    ensures DecodeChar("\\040" + b) == (' ', 4) && DecodeChar("\\011" + b) == ('\t', 4)
    ensures DecodeChar("\\012" + b) == ('\n', 4) && DecodeChar("\\134" + b) == ('\\', 4)
    ensures DecodeChar("\\\\" + b) == ('\\', 2)
  {
    Begins("\\040", b);
    Begins("\\011", b);
    Begins("\\012", b);
    Begins("\\134", b);
    assert ("\\\\" + b)[1] == '\\' && "\\\\" <= "\\\\" + b;
  }

  /** decode_name, told from the text: up to the first backslash nothing changes; from there on the five codes
      stand for a character each, and a backslash that begins no code stands for itself. */
  lemma {:induction false} DecodeMeaning(a: string, b: string)
    requires '\\' !in a
    ensures Decode(a) == a
    ensures Decode(a + ("\\040" + b)) == a + (" " + Decode(b))
    ensures Decode(a + ("\\011" + b)) == a + ("\t" + Decode(b))
    ensures Decode(a + ("\\012" + b)) == a + ("\n" + Decode(b))
    ensures Decode(a + ("\\\\" + b)) == a + ("\\" + Decode(b))
    ensures Decode(a + ("\\134" + b)) == a + ("\\" + Decode(b))
    ensures NoCode(b) ==> Decode(a + ("\\" + b)) == a + ("\\" + Decode(b))
  {
    DecodePlain(a);
    CodeChars(b);
    CodeAfter(a, "\\040", ' ', b);
    CodeAfter(a, "\\011", '\t', b);
    CodeAfter(a, "\\012", '\n', b);
    CodeAfter(a, "\\\\", '\\', b);
    CodeAfter(a, "\\134", '\\', b);
    if NoCode(b) {
      BackslashAlone(b);
      CodeAfter(a, "\\", '\\', b);
    }
  }

  lemma {:induction false} CodeAfter(a: string, code: string, c: char, b: string)
    requires '\\' !in a && code != "" && DecodeChar(code + b) == (c, |code|)
    ensures Decode(a + (code + b)) == a + ([c] + Decode(b))
  {
    DecodeAfter(a, code + b);
    DecodeStart(code, c, b);
  }

  /** A character that stays as it is when a name is encoded. */
  predicate Plain(c: char)
  {
    c != ' ' && c != '\t' && c != '\n' && c != '\\'
  }

  lemma {:induction false} EncodeStart(c: char, b: string)
    ensures EncodeAll([c] + b) == EncodeChar(c) + EncodeAll(b)
  {
    assert ([c] + b)[1..] == b;
  }

  lemma {:induction false} EncodeAfter(a: string, t: string)
    requires forall k :: 0 <= k < |a| ==> Plain(a[k])
    ensures EncodeAll(a + t) == a + EncodeAll(t)
  {
    if a == "" {
      assert a + t == t;
    } else {
      assert Plain(a[0]);
      EncodeAfter(a[1..], t);
      EncodeStart(a[0], a[1..] + t);
      Split(a, t);
      Split(a, EncodeAll(t));
    }
  }

  lemma {:induction false} CharAfter(a: string, c: char, b: string)
    requires forall k :: 0 <= k < |a| ==> Plain(a[k])
    ensures EncodeAll(a + ([c] + b)) == a + (EncodeChar(c) + EncodeAll(b))
  {
    EncodeAfter(a, [c] + b);
    EncodeStart(c, b);
  }

  lemma {:induction false} EncodeAllPlain(a: string)
    requires forall k :: 0 <= k < |a| ==> Plain(a[k])
    ensures EncodeAll(a) == a
  {
    EncodeAfter(a, "");
    assert a + "" == a;
  }

  lemma {:induction false} CodeIsLonger(s: string, k: nat)
    requires k < |s| && !Plain(s[k])
    ensures |EncodeAll(s)| > |s|
  {
    EncodeAllClean(s[1..]);
    if k > 0 { CodeIsLonger(s[1..], k - 1); }
  }

  /** A name is left as it is exactly if it has no space, no tab and no backslash. */
  lemma {:induction false} LeftAlone(s: string)
    ensures Encode(s) == s <==> ' ' !in s && '\t' !in s && '\\' !in s
    ensures Encode(s) == s || Encode(s) == EncodeAll(s)
  {
    if NeedsCode(s) {
      var k :| 0 <= k < |s| && (s[k] == ' ' || s[k] == '\t' || s[k] == '\\');
      CodeIsLonger(s, k);
    }
  }

  /** encode_name where it does not leave a name as it is: each of four characters becomes its code, and
      everything else stays. */
  lemma {:induction false} EncodeMeaning(a: string, b: string)
    requires forall k :: 0 <= k < |a| ==> Plain(a[k])
    ensures EncodeAll(a) == a
    ensures EncodeAll(a + (" " + b)) == a + ("\\040" + EncodeAll(b))
    ensures EncodeAll(a + ("\t" + b)) == a + ("\\011" + EncodeAll(b))
    ensures EncodeAll(a + ("\n" + b)) == a + ("\\012" + EncodeAll(b))
    ensures EncodeAll(a + ("\\" + b)) == a + ("\\\\" + EncodeAll(b))
  {
    EncodeAllPlain(a);
    CharAfter(a, ' ', b);
    CharAfter(a, '\t', b);
    CharAfter(a, '\n', b);
    CharAfter(a, '\\', b);
  }

  // ---------- In memory ----------

  /** The tests of decode_name at its read pointer, which stop before they pass the terminating zero. */
  method ReadChar(buf: array<char>, rp: nat, end: nat) returns (c: char, n: nat)
    requires rp < end < buf.Length && buf[end] == NUL && NUL !in buf[rp..end]
    ensures (c, n) == DecodeChar(buf[rp..end])
  {
    ghost var s := buf[rp..end];
    assert forall k :: rp <= k < end ==> buf[k] == s[k - rp];
    if buf[rp] == '\\' && buf[rp + 1] == '0' && buf[rp + 2] == '4' && buf[rp + 3] == '0' {
      return ' ', 4;
    } else if buf[rp] == '\\' && buf[rp + 1] == '0' && buf[rp + 2] == '1' && buf[rp + 3] == '1' {
      return '\t', 4;
    } else if buf[rp] == '\\' && buf[rp + 1] == '0' && buf[rp + 2] == '1' && buf[rp + 3] == '2' {
      return '\n', 4;
    } else if buf[rp] == '\\' && buf[rp + 1] == '\\' {
      return '\\', 2;
    } else if buf[rp] == '\\' && buf[rp + 1] == '1' && buf[rp + 2] == '3' && buf[rp + 3] == '4' {
      return '\\', 4;
    } else {
      return buf[rp], 1;
    }
  }

  /** decode_name has written done, between at and wp, and rest is still to be read; outside nothing has changed. */
  ghost predicate Decoding(b: seq<char>, b0: seq<char>, at: nat, end: nat, wp: nat, rp: nat, done: string,
                           rest: string)
  {
    && at <= wp <= rp <= end < |b| == |b0| && b[end] == NUL && NUL !in rest
    && b[at..wp] == done && b[rp..end] == rest && done + Decode(rest) == Decode(b0[at..end])
    && forall k :: 0 <= k < at || end <= k < |b| ==> b[k] == b0[k]
  }

  lemma {:induction false} DecodeNext(s: string, done: string, rest: string)
    requires rest != "" && done + Decode(rest) == Decode(s)
    ensures var (c, n) := DecodeChar(rest); (done + [c]) + Decode(rest[n..]) == Decode(s)
  {
    var (c, n) := DecodeChar(rest);
    Regroup(done, [c], Decode(rest[n..]));
  }

  /** One round of decode_name. */
  method DecodeStep(buf: array<char>, at: nat, end: nat, wp: nat, rp: nat, ghost b0: seq<char>, ghost done: string,
                    ghost rest: string)
    returns (rp': nat, ghost done': string, ghost rest': string)
    requires Decoding(buf[..], b0, at, end, wp, rp, done, rest) && rp < end
    modifies buf
    ensures rp < rp' && Decoding(buf[..], b0, at, end, wp + 1, rp', done', rest')
  {
    DecodeNext(b0[at..end], done, rest);
    var c, n := ReadChar(buf, rp, end);
    rp' := rp + n;
    done', rest' := done + [c], rest[n..];
    assert buf[rp'..end] == rest';
    buf[wp] := c;
  }

  lemma NulAtEnd(b: seq<char>, rp: nat, end: nat, rest: string)
    requires rp <= end < |b| && b[rp..end] == rest && NUL !in rest && b[rp] == NUL
    ensures rp == end && rest == ""
  {
  }

  lemma {:induction false} DecodedAll(s: string, done: string)
    requires done + Decode("") == Decode(s)
    ensures done == Decode(s)
  {
  }

  /** decode_name on the string between at and its terminating zero at end. The write pointer never passes
      the read pointer, so nothing is overwritten before it is read. */
  method DecodeInPlace(buf: array<char>, at: nat, end: nat) returns (len: nat)
    requires at <= end < buf.Length && buf[end] == NUL && NUL !in buf[at..end]
    modifies buf
    ensures len == |Decode(old(buf[at..end]))| && at + len <= end
    ensures buf[at..at + len] == Decode(old(buf[at..end])) && buf[at + len] == NUL
    ensures forall k :: 0 <= k < at || end <= k < buf.Length ==> buf[k] == old(buf[k])
  {
    ghost var b0 := buf[..];
    ghost var done, rest := "", buf[at..end];
    assert b0[at..end] == rest && done + Decode(rest) == Decode(rest);
    var rp, wp := at, at;
    while buf[rp] != NUL
      invariant Decoding(buf[..], b0, at, end, wp, rp, done, rest)
      decreases end - rp
    {
      rp, done, rest := DecodeStep(buf, at, end, wp, rp, b0, done, rest);
      wp := wp + 1;
    }
    NulAtEnd(buf[..], rp, end, rest);
    DecodedAll(b0[at..end], done);
    buf[wp] := NUL;
    len := wp - at;
  }

  /** The characters of a code, written one after the other. */
  method Put(buf: array<char>, wp: nat, code: string)
    requires wp + |code| <= buf.Length
    modifies buf
    ensures buf[..wp + |code|] == old(buf[..wp]) + code
  {
    var i := 0;
    while i < |code|
      invariant 0 <= i <= |code| && buf[..wp] == old(buf[..wp]) && buf[wp..wp + i] == code[..i]
    {
      buf[wp + i] := code[i];
      i := i + 1;
    }
    Written(buf[..], wp, i, old(buf[..wp]), code);
  }

  lemma EncodeAllFrom(name: string, rp: nat)
    requires rp < |name|
    ensures EncodeAll(name[rp..]) == EncodeChar(name[rp]) + EncodeAll(name[rp + 1..])
  {
    assert name[rp..][0] == name[rp] && name[rp..][1..] == name[rp + 1..];
  }

  /** encode_name's second loop, into a buffer of its own; the first loop has found that it is needed. */
  method EncodeInto(name: string) returns (buf: array<char>, len: nat)
    requires NUL !in name
    ensures fresh(buf) && buf.Length == 4 * |name| + 1
    ensures len == |EncodeAll(name)| < buf.Length && buf[..len] == EncodeAll(name) && buf[len] == NUL
  {
    buf := new char[4 * |name| + 1];
    var rp, wp := 0, 0;
    ghost var done := "";
    assert name[0..] == name;
    while rp < |name|
      invariant 0 <= rp <= |name| && 0 <= wp <= 4 * rp && buf[..wp] == done
      invariant Coded(name, rp, done)
    {
      CodedNext(name, rp, done);
      var code := EncodeChar(name[rp]);
      Put(buf, wp, code);
      wp, rp, done := wp + |code|, rp + 1, done + code;
    }
    assert done + "" == done;
    buf[wp] := NUL;
    len := wp;
  }

  /** done is the code of the first rp characters. */
  ghost predicate Coded(name: string, rp: nat, done: string)
    requires rp <= |name|
  {
    done + EncodeAll(name[rp..]) == EncodeAll(name)
  }

  lemma CodedNext(name: string, rp: nat, done: string)
    requires rp < |name| && Coded(name, rp, done)
    ensures Coded(name, rp + 1, done + EncodeChar(name[rp]))
  {
    EncodeAllFrom(name, rp);
    Regroup(done, EncodeChar(name[rp]), EncodeAll(name[rp + 1..]));
  }

  lemma Written(b: seq<char>, wp: nat, n: nat, done: string, code: string)
    requires wp + n <= |b| && b[..wp] == done && b[wp..wp + n] == code
    ensures b[..wp + n] == done + code
  {
  }

  /** encode_name. */
  method EncodeName(name: string) returns (r: string)
    requires NUL !in name
    ensures r == Encode(name)
  {
    var rp := 0;
    while rp < |name| && name[rp] != ' ' && name[rp] != '\t' && name[rp] != '\\'
      invariant 0 <= rp <= |name| && !NeedsCode(name[..rp])
    {
      rp := rp + 1;
    }
    if rp < |name| {
      assert name[rp] in name;
      var buf, len := EncodeInto(name);
      r := buf[..len];
    } else {
      assert name[..rp] == name;
      r := name;
    }
  }
}

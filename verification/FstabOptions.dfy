/** Options of a mount entry: glusterfs_fstab_hasoption and get_option_value in booster_fstab.c. */
module FstabOptions {
  import opened Options

  // ---------- What a list of options holds ----------

  /** Position p begins an element of the comma-separated list. */
  predicate Begins(s: string, p: nat)
  {
    p <= |s| && (p == 0 || s[p - 1] == ',')
  }

  /** The end of the element that contains position p: the next comma, or the end of the list. */
  function ElementEnd(s: string, p: nat): (e: nat)
    requires p <= |s|
    ensures p <= e <= |s| && (e < |s| ==> s[e] == ',') && forall k :: p <= k < e ==> s[k] != ','
    decreases |s| - p
  {
    if p == |s| || s[p] == ',' then p else ElementEnd(s, p + 1)
  }

  /** The element that begins at p is the option, alone or with a value. */
  predicate IsOption(s: string, p: nat, opt: string)
    requires p <= |s|
  {
    var element := s[p..ElementEnd(s, p)];
    element == opt || opt + "=" <= element
  }

  /** opt stands at position p. */
  predicate Occurs(s: string, p: nat, opt: string)
  {
    p + |opt| <= |s| && s[p..p + |opt|] == opt
  }

  /** The test of hasoption on the character behind an occurrence. */
  predicate Closed(s: string, q: nat)
    requires q <= |s|
  {
    q == |s| || s[q] == '=' || s[q] == ','
  }

  lemma NameThenEquals(element: string, opt: string)
    ensures opt + "=" <= element <==> |opt| < |element| && element[..|opt|] == opt && element[|opt|] == '='
  {
    if |opt| < |element| && element[..|opt|] == opt && element[|opt|] == '=' {
      assert element[..|opt| + 1] == opt + "=";
    }
    if opt + "=" <= element {
      assert element[..|opt| + 1][..|opt|] == (opt + "=")[..|opt|] == opt;
      assert element[|opt|] == (opt + "=")[|opt|];
    }
  }

  /** An occurrence at the start of an element, closed, is the option as an element; and the other way
      round, for an option without commas. */
  lemma OptionOccurs(s: string, p: nat, opt: string)
    requires p <= |s| && ',' !in opt
    ensures IsOption(s, p, opt) <==> Occurs(s, p, opt) && Closed(s, p + |opt|)
  {
    var e, q := ElementEnd(s, p), p + |opt|;
    var element := s[p..e];
    if Occurs(s, p, opt) {
      assert forall k :: p <= k < q ==> s[k] == opt[k - p];
      if Closed(s, q) {
        if q == |s| || s[q] == ',' {
          assert e == q;
        } else {
          assert e > q && element[|opt|] == s[q] && element[..|opt|] == s[p..q];
          NameThenEquals(element, opt);
        }
      }
    }
    if IsOption(s, p, opt) {
      if element == opt {
        assert q == e;
      } else {
        NameThenEquals(element, opt);
        assert q < e && s[q] == element[|opt|] && s[p..q] == element[..|opt|];
      }
    }
  }

  // ---------- glusterfs_fstab_hasoption ----------

  /** strstr from a position on. */
  method FindString(s: string, from: nat, opt: string) returns (p: Option<nat>)
    requires from <= |s|
    ensures p.Some? ==>
      from <= p.value && Occurs(s, p.value, opt) && forall q :: from <= q < p.value ==> !Occurs(s, q, opt)
    ensures p.None? ==> forall q :: from <= q <= |s| ==> !Occurs(s, q, opt)
  {
    var i := from;
    while i + |opt| <= |s|
      invariant from <= i && forall q :: from <= q < i ==> !Occurs(s, q, opt)
    {
      if s[i..i + |opt|] == opt { return Some(i); }
      i := i + 1;
    }
    return None;
  }

  /** strchr (s + p, ','). */
  method FindComma(s: string, p: nat) returns (e: nat)
    requires p <= |s|
    ensures e == ElementEnd(s, p)
  {
    e := p;
    while e < |s| && s[e] != ','
      invariant p <= e <= |s| && ElementEnd(s, e) == ElementEnd(s, p)
    {
      e := e + 1;
    }
  }

  /** The option stands at p: at the start of an element, and closed behind. */
  predicate StandsAt(s: string, p: nat, opt: string)
  {
    Begins(s, p) && Occurs(s, p, opt) && Closed(s, p + |opt|)
  }

  /** It stands nowhere before position n. */
  predicate NoneBefore(s: string, n: nat, opt: string)
  {
    forall q :: 0 <= q < n ==> !StandsAt(s, q, opt)
  }

  /** The first occurrence from rest on does not stand, and the next comma is at e. */
  lemma NoneUpTo(s: string, rest: nat, at: nat, e: nat, opt: string)
    requires rest <= at <= e <= |s| && NoneBefore(s, rest, opt) && !StandsAt(s, at, opt)
    requires forall q :: rest <= q < at ==> !Occurs(s, q, opt)
    requires forall q :: at <= q < e ==> s[q] != ','
    ensures NoneBefore(s, e + 1, opt)
  {
    forall q | 0 <= q < e + 1 ensures !StandsAt(s, q, opt)
    {
      if q > at { assert s[q - 1] != ','; }
    }
  }

  /** hasoption finds the first place where the option stands, whatever its name. */
  method HasOption(s: string, opt: string) returns (r: Option<nat>)
    ensures r.Some? ==> StandsAt(s, r.value, opt) && NoneBefore(s, r.value, opt)
    ensures r.None? ==> NoneBefore(s, |s| + 1, opt)
  {
    var rest := 0;
    var p := FindString(s, rest, opt);
    while p.Some?
      invariant rest <= |s| && Begins(s, rest) && NoneBefore(s, rest, opt)
      invariant p.Some? ==>
        rest <= p.value && Occurs(s, p.value, opt) && forall q :: rest <= q < p.value ==> !Occurs(s, q, opt)
      invariant p.None? ==> forall q :: rest <= q <= |s| ==> !Occurs(s, q, opt)
      decreases |s| - rest, p.Some?
    {
      var at := p.value;
      if (at == rest || s[at - 1] == ',') && Closed(s, at + |opt|) { return Some(at); }
      var e := FindComma(s, at);
      NoneUpTo(s, rest, at, e, opt);
      if e == |s| { return None; }
      rest := e + 1;
      p := FindString(s, rest, opt);
    }
    return None;
  }

  /** For a name without a comma these places are the elements that are the option, alone or with a value. */
  lemma StandsIsElement(s: string, p: nat, opt: string)
    requires p <= |s| && ',' !in opt
    ensures StandsAt(s, p, opt) <==> Begins(s, p) && IsOption(s, p, opt)
  {
    OptionOccurs(s, p, opt);
  }

  // ---------- get_option_value ----------

  /** The position of the first '=' of a string that has one. */
  function EqualsAt(t: string): (n: nat)
    requires '=' in t
    ensures n < |t| && t[n] == '=' && '=' !in t[..n]
  {
    if t[0] == '=' then 0 else 1 + EqualsAt(t[1..])
  }

  lemma {:induction false} EqualsAtIs(t: string, n: nat)
    requires n < |t| && t[n] == '=' && '=' !in t[..n]
    ensures '=' in t && EqualsAt(t) == n
  {
  }

  lemma {:induction false} EqualsAtFirst(a: string, b: string)
    requires '=' in a
    ensures '=' in a + b && EqualsAt(a + b) == EqualsAt(a)
  {
    var n := EqualsAt(a);
    assert (a + b)[..n] == a[..n] && (a + b)[n] == a[n];
    EqualsAtIs(a + b, n);
  }

  /** The text between the first '=' from p on and the next comma behind it. */
  function ValueFrom(s: string, p: nat): Option<string>
    requires p <= |s|
  {
    if '=' !in s[p..] then None
    else var q := p + EqualsAt(s[p..]); Some(s[q + 1..ElementEnd(s, q + 1)])
  }

  /** get_option_value. */
  method OptionValue(s: string, p: nat) returns (r: Option<string>)
    requires p <= |s|
    ensures r == ValueFrom(s, p)
  {
    var i := p;
    while i < |s| && s[i] != '='
      invariant p <= i <= |s| && '=' !in s[p..][..i - p]
    {
      assert s[p..][..i + 1 - p] == s[p..][..i - p] + [s[i]];
      i := i + 1;
    }
    if i == |s| {
      assert s[p..][..i - p] == s[p..];
      return None;
    }
    EqualsAtIs(s[p..], i - p);
    var e := FindComma(s, i + 1);
    return Some(s[i + 1..e]);
  }

  /** What the option says that stands at p: the value behind the '=' that closes it, or that it has none. */
  function OwnValue(s: string, p: nat, opt: string): Option<string>
    requires StandsAt(s, p, opt)
  {
    var q := p + |opt|;
    if q < |s| && s[q] == '=' then Some(s[q + 1..ElementEnd(s, q + 1)]) else None
  }

  lemma StandsInFront(s: string, p: nat, opt: string)
    requires StandsAt(s, p, opt)
    ensures s[p..] == opt + s[p + |opt|..]
  {
  }

  /** For a name without '=', get_option_value returns the option's own value if and only if it has one or no '='
      follows it in the whole list. */
  lemma OwnValueReturned(s: string, p: nat, opt: string)
    requires StandsAt(s, p, opt) && '=' !in opt
    ensures ValueFrom(s, p) == OwnValue(s, p, opt) <==> OwnValue(s, p, opt).Some? || '=' !in s[p..]
  {
    StandsInFront(s, p, opt);
    if OwnValue(s, p, opt).Some? {
      assert s[p..][|opt|] == '=' && s[p..][..|opt|] == opt;
      EqualsAtIs(s[p..], |opt|);
    }
  }

  /** For a name with '=', the value begins inside the name. */
  lemma {:induction false} NameCutOff(s: string, p: nat, opt: string)
    requires StandsAt(s, p, opt) && '=' in opt
    ensures var q := p + EqualsAt(opt); ValueFrom(s, p) == Some(s[q + 1..ElementEnd(s, q + 1)])
  {
    StandsInFront(s, p, opt);
    EqualsAtFirst(opt, s[p + |opt|..]);
  }

  /** hasoption, then get_option_value. */
  method ValueOfOption(s: string, opt: string) returns (found: Option<nat>, r: Option<string>)
    ensures found.Some? ==> StandsAt(s, found.value, opt) && NoneBefore(s, found.value, opt)
    ensures found.None? ==> NoneBefore(s, |s| + 1, opt) && r.None?
    ensures found.Some? ==> r == ValueFrom(s, found.value)
    ensures found.Some? && '=' !in opt ==>
      (r == OwnValue(s, found.value, opt) <==> OwnValue(s, found.value, opt).Some? || '=' !in s[found.value..])
  {
    found := HasOption(s, opt);
    r := None;
    if found.Some? {
      r := OptionValue(s, found.value);
      if '=' !in opt { OwnValueReturned(s, found.value, opt); }
    }
  }

  lemma {:induction false} EndIs(s: string, p: nat, e: nat)
    requires p <= e <= |s| && (e < |s| ==> s[e] == ',') && forall k :: p <= k < e ==> s[k] != ','
    ensures ElementEnd(s, p) == e
  {
  }

  /** In "logfile,level=X" the option logfile has no value but gets that of level. */
  lemma ForeignValue(s: string, p: nat, opt: string)
    requires s == "logfile,level=X" && p == 0 && opt == "logfile"
    ensures StandsAt(s, p, opt) && OwnValue(s, p, opt) == None && ValueFrom(s, p) == Some("X")
  {
    assert s[p..7] == opt && s[p..] == s;
    EqualsAtIs(s, 13);
    EndIs(s, 14, 15);
    assert s[14..15] == "X";
  }
}

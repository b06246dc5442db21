/** What the option lookups find, and what the caller's arg_ebadkey says about a failed parse. */
module ArgpLookup {
  import opened Options
  import opened ArgpTypes
  import opened ArgpMachine
  import opened ArgpSafety
  import opened Seqs

  // ---------- Names and abbreviations ----------

  /** The part of a long option word before its '='. */
  function NamePart(arg: string): string
  {
    if arg == [] || arg[0] == '=' then [] else [arg[0]] + NamePart(arg[1..])
  }

  lemma {:induction false} NamePartFrom(arg: string, i: nat)
    requires i <= |arg| && forall k :: 0 <= k < i ==> arg[k] != '='
    ensures NamePart(arg) == arg[..i] + NamePart(arg[i..])
  {
    if i == 0 {
      assert arg[0..] == arg;
    } else {
      NamePartFrom(arg[1..], i - 1);
      assert arg[1..][i - 1..] == arg[i..];
      assert arg[..i] == [arg[0]] + arg[1..][..i - 1];
    }
  }

  lemma {:induction false} MatchFrom(arg: string, name: string, i: nat)
    requires i <= |arg| && i <= |name| && arg[..i] == name[..i] && forall k :: 0 <= k < i ==> arg[k] != '='
    ensures MatchOption(arg, name, i).Exact? <==> NamePart(arg) == name
    ensures MatchOption(arg, name, i).Partial? <==> NamePart(arg) < name
    decreases |arg| - i
  {
    NamePartFrom(arg, i);
    if i == |arg| || arg[i] == '=' {
      assert NamePart(arg) == name[..i];
    } else {
      assert arg[i..][0] == arg[i];
      assert NamePart(arg)[i] == arg[i];
      if i < |name| && arg[i] == name[i] {
        assert arg[..i + 1] == arg[..i] + [arg[i]] && name[..i + 1] == name[..i] + [name[i]];
        MatchFrom(arg, name, i + 1);
      }
    }
  }

  /** match_option says "exact" for the name itself and "partial" for its proper prefixes. */
  lemma {:induction false} MatchMeaning(arg: string, name: string)
    ensures MatchOption(arg, name, 0).Exact? <==> NamePart(arg) == name
    ensures MatchOption(arg, name, 0).Partial? <==> NamePart(arg) < name
  {
    MatchFrom(arg, name, 0);
  }

  /** The value is what follows the name part and its '='. */
  lemma {:induction false} ValueMeaning(arg: string)
    ensures ValueOf(arg).None? ==> arg == NamePart(arg) && '=' !in arg
    ensures ValueOf(arg).Some? ==> arg == NamePart(arg) + ['='] + ValueOf(arg).value
  {
    if arg != [] {
      assert arg == [arg[0]] + arg[1..];
      if arg[0] != '=' {
        ValueMeaning(arg[1..]);
        if ValueOf(arg).Some? {
          Regroup([arg[0]], NamePart(arg[1..]) + ['='], ValueOf(arg).value);
          Regroup([arg[0]], NamePart(arg[1..]), ['=']);
        }
      }
    }
  }

  // ---------- The options of all groups in one row ----------

  /** All options from option i of group g on, in the order in which the lookups visit them. */
  function Row(groups: seq<Group>, g: nat, i: nat): seq<(nat, Opt)>
    decreases |groups| - g, if g < |groups| then |groups[g].opts| - i else 0
  {
    if g >= |groups| then []
    else if i >= |groups[g].opts| then Row(groups, g + 1, 0)
    else [(g, groups[g].opts[i])] + Row(groups, g, i + 1)
  }

  /** The first of a row with the key. */
  function FirstWithKey(row: seq<(nat, Opt)>, key: int): Option<(nat, Opt)>
  {
    if row == [] then None else if row[0].1.key == key then Some(row[0]) else FirstWithKey(row[1..], key)
  }

  lemma {:induction false} FindShortFirst(groups: seq<Group>, key: int, g: nat, i: nat)
    ensures FindShort(groups, key, g, i) == FirstWithKey(Row(groups, g, i), key)
    decreases |groups| - g, if g < |groups| then |groups[g].opts| - i else 0
  {
    if g < |groups| {
      if i >= |groups[g].opts| {
        FindShortFirst(groups, key, g + 1, 0);
      } else if groups[g].opts[i].key != key {
        FindShortFirst(groups, key, g, i + 1);
      }
    }
  }

  /** The options of a row whose name is the given one, or for which it is a proper abbreviation. */
  function Named(row: seq<(nat, Opt)>, name: string): seq<(nat, Opt)>
  {
    if row == [] then []
    else (if row[0].1.name == Some(name) then [row[0]] else []) + Named(row[1..], name)
  }

  function Abbreviated(row: seq<(nat, Opt)>, name: string): seq<(nat, Opt)>
  {
    if row == [] then []
    else (if row[0].1.name.Some? && name < row[0].1.name.value then [row[0]] else []) + Abbreviated(row[1..], name)
  }

  /** Which option a long option word stands for, given the abbreviations seen before this row. */
  function Chosen(row: seq<(nat, Opt)>, name: string, partial: nat, found: Option<(nat, Opt)>): Option<(nat, Opt)>
  {
    var exact, abbr := Named(row, name), Abbreviated(row, name);
    if exact != [] then Some(exact[0])
    else if partial + |abbr| != 1 then None
    else if abbr != [] then Some(abbr[0])
    else found
  }

  /** One option more in front of the row. */
  lemma ChosenCons(x: (nat, Opt), row: seq<(nat, Opt)>, name: string, partial: nat, found: Option<(nat, Opt)>)
    ensures Chosen([x] + row, name, partial, found) ==
      if x.1.name == Some(name) then Some(x)
      else if x.1.name.Some? && name < x.1.name.value then Chosen(row, name, partial + 1, Some(x))
      else Chosen(row, name, partial, found)
  {
    assert ([x] + row)[1..] == row;
  }

  lemma {:induction false} FindLongFrom(groups: seq<Group>, arg: string, g: nat, i: nat, partial: nat,
                                        found: Option<(nat, Opt)>)
    requires found.Some? ==> found.value.0 < |groups| && found.value.1 in groups[found.value.0].opts
    ensures FindLong(groups, arg, g, i, partial, found) == Chosen(Row(groups, g, i), NamePart(arg), partial, found)
    decreases |groups| - g, if g < |groups| then |groups[g].opts| - i else 0
  {
    if g < |groups| {
      if i >= |groups[g].opts| {
        FindLongFrom(groups, arg, g + 1, 0, partial, found);
      } else {
        var o := groups[g].opts[i];
        ChosenCons((g, o), Row(groups, g, i + 1), NamePart(arg), partial, found);
        if o.name.None? {
          FindLongFrom(groups, arg, g, i + 1, partial, found);
        } else {
          MatchMeaning(arg, o.name.value);
          match MatchOption(arg, o.name.value, 0)
          case No => FindLongFrom(groups, arg, g, i + 1, partial, found);
          case Partial => FindLongFrom(groups, arg, g, i + 1, partial + 1, Some((g, o)));
          case Exact =>
        }
      }
    }
  }

  /** A long option word stands for the first option of that name; failing that, for the only option it
      abbreviates; and for none if there are several of those. */
  lemma {:induction false} FindLongMeaning(groups: seq<Group>, arg: string)
    ensures var exact, abbr := Named(Row(groups, 0, 0), NamePart(arg)), Abbreviated(Row(groups, 0, 0), NamePart(arg));
      FindLong(groups, arg, 0, 0, 0, None) ==
        if exact != [] then Some(exact[0]) else if |abbr| == 1 then Some(abbr[0]) else None
  {
    FindLongFrom(groups, arg, 0, 0, 0, None);
  }

  // ---------- Kinds of words ----------

  /** What a word is, told from the word: "-" and words that do not begin with a dash are arguments, "--"
      ends the options, two dashes and one dash introduce options. With ARGP_LONG_ONLY one dash introduces
      a long option, unless a single letter follows that is a short option. */
  lemma ClassifyMeaning(c: Config, w: string, o: string)
    ensures Classify(c, w) == ArgToken <==> w == "-" || !("-" <= w)
    ensures Classify(c, w) == QuoteToken <==> w == "--"
    ensures Classify(c, w) == LongToken(o) <==> w == "--" + o && o != ""
    ensures Classify(c, w) == LongOnlyToken(o) <==>
      w == "-" + o && o != "" && o[0] != '-' && c.longOnly && !(|o| == 1 && o[0] in c.shortOpts)
    ensures Classify(c, w) == ShortToken(o) <==>
      w == "-" + o && o != "" && o[0] != '-' && (c.longOnly ==> |o| == 1 && o[0] in c.shortOpts)
  {
    if "-" <= w {
      assert w == "-" + w[1..];
      if |w| > 1 && w[1] == '-' { assert w == "--" + w[2..]; }
    }
    assert ("-" + o)[1..] == o && ("--" + o)[2..] == o;
  }

  lemma SwapEnd(a: seq<string>, f: nat, l: nat, n: nat)
    requires f <= l < n <= |a|
    ensures var b := a[..f] + a[l..n] + a[f..l] + a[n..]; |b| == |a| && b[f + (n - l) - 1] == a[n - 1]
  {
    assert a[l..n][n - l - 1] == a[n - 1];
  }

  lemma QuotePlace(s: PState)
    requires 0 <= s.first <= s.last <= s.next < |s.argv|
    ensures var t := ParseQuote(s);
      t.argsOnly && t.next == t.quoted && 0 < t.quoted <= |t.argv| && t.argv[t.quoted - 1] == s.argv[s.next]
  {
    SwapEnd(s.argv, s.first, s.last, s.next + 1);
  }

  /** The word "--": from the word after it on all are arguments, and state.quoted is where that is. */
  lemma QuoteMark(c: Config, s: PState)
    requires Inv(c, s) && s.nextchar.None? && s.next < |s.argv| && s.argv[s.next] == "--"
    requires !s.argsOnly || s.next < s.quoted
    ensures var (t, e) := ParseNext(c, s);
      e.Ok? && t.argsOnly && t.next == t.quoted && 0 < t.quoted <= |t.argv| && t.argv[t.quoted - 1] == "--"
  {
    ClassifyMeaning(c, "--", "");
    QuotePlace(Clamp(s));
  }

  // ---------- arg_ebadkey ----------

  /** The step is about an argument, or about the end of the words, rather than about an option. */
  predicate ArgumentStep(c: Config, s0: PState)
    requires Inv(c, s0)
  {
    var s := Clamp(s0);
    s.nextchar.None? && (s.argsOnly || s.next >= |s.argv| || Classify(c, s.argv[s.next]).ArgToken?)
  }

  /** A short option is known and has its argument, so that its parser is called. */
  predicate ShortCall(c: Config, s: PState)
    requires Inv(c, s)
  {
    && s.nextchar.Some?
    && var found := FindShort(c.groups, s.nextchar.value[0] as int, 0, 0);
    && found.Some?
    && !(found.value.1.hasArg && !found.value.1.argOptional && |s.nextchar.value| == 1 && s.next == |s.argv|)
  }

  /** When a step ends in ARGP_ERR_UNKNOWN, arg_ebadkey tells arguments from options, except that a short
      option's parser leaves it as an earlier step set it. */
  lemma BadArgMeaning(c: Config, s: PState)
    requires Inv(c, s) && ParseNext(c, s).1 == BadKey
    ensures ParseNext(c, s).0.badArg == ArgumentStep(c, s) <==> !(ShortCall(c, s) && s.badArg)
  {
    var t := Clamp(s);
    if t.nextchar.None? && t.next < |t.argv| {
      if t.argsOnly || Classify(c, t.argv[t.next]).ArgToken? {
        OfferKeeps(c, t.(badArg := true), t.argv[t.next], 0);
      }
    }
  }

  /** Which words are looked at as arguments whatever they are: those from the quoted place on, once options are
      over. A parser that moves state.next back before that place makes them options again. */
  lemma LookedAtAgain(c: Config, s: PState)
    requires Inv(c, s) && s.nextchar.None? && s.next < |s.argv|
    ensures ArgumentStep(c, s) <==>
      (s.argsOnly && s.next >= s.quoted) || s.argv[s.next] == "-" || !("-" <= s.argv[s.next])
  {
    ClassifyMeaning(c, s.argv[s.next], "");
  }
}

/** The option parser of argp-parse.c as it runs: struct parser with its fields, argv changed in place. */
module ArgpParser {
  import opened Options
  import opened ArgpTypes
  import opened ArgpMachine
  import opened ArgpSafety
  import opened ArgpLifecycle

  // ---------- exchange on the argument vector ----------

  /** a with the blocks of length len at i and at j exchanged. */
  function Swapped(a: seq<string>, i: nat, j: nat, len: nat): (r: seq<string>)
    requires i + len <= j && j + len <= |a|
    ensures |r| == |a|
  {
    a[..i] + a[j..j + len] + a[i + len..j] + a[i..i + len] + a[j + len..]
  }

  lemma SwappedByIndex(a: seq<string>, r: seq<string>, i: nat, j: nat, len: nat)
    requires i + len <= j && j + len <= |a| == |r|
    requires forall p :: 0 <= p < |a| && !(i <= p < i + len) && !(j <= p < j + len) ==> r[p] == a[p]
    requires forall p :: i <= p < i + len ==> r[p] == a[p + (j - i)]
    requires forall p :: j <= p < j + len ==> r[p] == a[p - (j - i)]
    ensures r == Swapped(a, i, j, len)
  {
  }

  /** The inner loops of exchange. */
  method SwapBlocks(argv: array<string>, i: nat, j: nat, len: nat)
    requires i + len <= j && j + len <= argv.Length
    modifies argv
    ensures argv[..] == Swapped(old(argv[..]), i, j, len)
  {
    for k := 0 to len
      invariant forall p :: 0 <= p < argv.Length && !(i <= p < i + k) && !(j <= p < j + k) ==> argv[p] == old(argv[p])
      invariant forall p :: i <= p < i + k ==> argv[p] == old(argv[p + (j - i)])
      invariant forall p :: j <= p < j + k ==> argv[p] == old(argv[p - (j - i)])
    {
      argv[i + k], argv[j + k] := argv[j + k], argv[i + k];
    }
    SwappedByIndex(old(argv[..]), argv[..], i, j, len);
  }

  /** s with its segments [b, m) and [m, t) exchanged. */
  function Rotated(s: seq<string>, b: nat, m: nat, t: nat): (r: seq<string>)
    requires b <= m <= t <= |s|
    ensures |r| == |s|
  {
    s[..b] + s[m..t] + s[b..m] + s[t..]
  }

  /** The shorter segment is the lower one: it goes to the far end of the upper one. */
  lemma RotateHigh(s: seq<string>, s': seq<string>, b: nat, m: nat, t: nat)
    requires b <= m <= t <= |s| && m - b < t - m && s' == Swapped(s, b, t - (m - b), m - b)
    ensures Rotated(s', b, m, t - (m - b)) == Rotated(s, b, m, t)
  {
    var len := m - b;
    assert s'[b..m] == s[t - len..t];
    assert s'[m..t - len] == s[m..t - len];
    assert s[m..t] == s[m..t - len] + s[t - len..t];
    assert s'[t - len..] == s[b..m] + s[t..];
    assert s'[..b] == s[..b];
  }

  /** The shorter segment is the upper one: it goes to the near end of the lower one. */
  lemma RotateLow(s: seq<string>, s': seq<string>, b: nat, m: nat, t: nat)
    requires b <= m <= t <= |s| && t - m <= m - b && s' == Swapped(s, b, m, t - m)
    ensures Rotated(s', b + (t - m), m, t) == Rotated(s, b, m, t)
  {
    var len := t - m;
    assert s'[..b + len] == s[..b] + s[m..t];
    assert s'[m..t] + s'[b + len..m] == s[b..m];
    assert s'[t..] == s[t..];
  }

  method SwapHigh(argv: array<string>, b: nat, m: nat, t: nat)
    requires b < m < t <= argv.Length && m - b < t - m
    modifies argv
    ensures Rotated(argv[..], b, m, t - (m - b)) == old(Rotated(argv[..], b, m, t))
  {
    ghost var s := argv[..];
    SwapBlocks(argv, b, t - (m - b), m - b);
    RotateHigh(s, argv[..], b, m, t);
  }

  method SwapLow(argv: array<string>, b: nat, m: nat, t: nat)
    requires b < m < t <= argv.Length && t - m <= m - b
    modifies argv
    ensures Rotated(argv[..], b + (t - m), m, t) == old(Rotated(argv[..], b, m, t))
  {
    ghost var s := argv[..];
    SwapBlocks(argv, b, m, t - m);
    RotateLow(s, argv[..], b, m, t);
  }

  /** One round of exchange. */
  method ExchangeRound(argv: array<string>, b: nat, m: nat, t: nat) returns (bottom: nat, top: nat)
    requires b < m < t <= argv.Length
    modifies argv
    ensures b <= bottom <= m <= top <= t && top - bottom < t - b
    ensures Rotated(argv[..], bottom, m, top) == old(Rotated(argv[..], b, m, t))
  {
    if t - m > m - b {
      SwapHigh(argv, b, m, t);
      return b, t - (m - b);
    } else {
      SwapLow(argv, b, m, t);
      return b + (t - m), t;
    }
  }

  /** exchange, up to its last two assignments: in place and without any spare room. */
  method ExchangeSegments(argv: array<string>, first: nat, last: nat, next: nat)
    requires first <= last <= next <= argv.Length
    modifies argv
    ensures argv[..] == Rotated(old(argv[..]), first, last, next)
  {
    var bottom, middle, top := first, last, next;
    ghost var goal := Rotated(argv[..], first, last, next);
    while top > middle && middle > bottom
      invariant 0 <= bottom <= middle <= top <= argv.Length
      invariant Rotated(argv[..], bottom, middle, top) == goal
      decreases top - bottom
    {
      bottom, top := ExchangeRound(argv, bottom, middle, top);
    }
    NothingLeft(argv[..], bottom, middle, top);
  }

  lemma NothingLeft(s: seq<string>, b: nat, m: nat, t: nat)
    requires b <= m <= t <= |s| && (b == m || m == t)
    ensures Rotated(s, b, m, t) == s
  {
  }

  // ---------- Looking options up ----------

  /** find_short_option. */
  method FindShortOption(groups: seq<Group>, key: int) returns (r: Option<(nat, Opt)>)
    ensures r == FindShort(groups, key, 0, 0)
  {
    for g := 0 to |groups|
      invariant FindShort(groups, key, g, 0) == FindShort(groups, key, 0, 0)
    {
      var opts := groups[g].opts;
      for i := 0 to |opts|
        invariant FindShort(groups, key, g, i) == FindShort(groups, key, 0, 0)
      {
        if opts[i].key == key { return Some((g, opts[i])); }
      }
    }
    return None;
  }

  /** match_option. */
  method CompareName(arg: string, name: string) returns (r: Match)
    ensures r == MatchOption(arg, name, 0)
  {
    var i := 0;
    while i < |arg| && arg[i] != '='
      invariant i <= |arg| && i <= |name|
      invariant MatchOption(arg, name, i) == MatchOption(arg, name, 0)
    {
      if i == |name| || arg[i] != name[i] { return No; }
      i := i + 1;
    }
    return if i < |name| then Partial else Exact;
  }

  /** find_long_option. */
  method FindLongOption(groups: seq<Group>, arg: string) returns (r: Option<(nat, Opt)>)
    ensures r == FindLong(groups, arg, 0, 0, 0, None)
  {
    var partial, found: Option<(nat, Opt)> := 0, None;
    for g := 0 to |groups|
      invariant 0 <= partial
      invariant found.Some? ==> found.value.0 < |groups| && found.value.1 in groups[found.value.0].opts
      invariant FindLong(groups, arg, g, 0, partial, found) == FindLong(groups, arg, 0, 0, 0, None)
    {
      var opts := groups[g].opts;
      for i := 0 to |opts|
        invariant 0 <= partial
        invariant found.Some? ==> found.value.0 < |groups| && found.value.1 in groups[found.value.0].opts
        invariant FindLong(groups, arg, g, i, partial, found) == FindLong(groups, arg, 0, 0, 0, None)
      {
        if opts[i].name.None? { continue; }
        var m := CompareName(arg, opts[i].name.value);
        match m
        case No =>
        case Partial => partial, found := partial + 1, Some((g, opts[i]));
        case Exact => return Some((g, opts[i]));
      }
    }
    return if partial == 1 then found else None;
  }

  /** strchr(s, '=') + 1. */
  method AfterEquals(s: string) returns (r: Option<string>)
    ensures r == ValueOf(s)
  {
    var i := 0;
    while i < |s|
      invariant i <= |s| && ValueOf(s[i..]) == ValueOf(s)
    {
      if s[i] == '=' { return Some(s[i + 1..]); }
      i := i + 1;
    }
    return None;
  }

  // ---------- struct parser ----------

  /** n more rounds lead from s to the goal. */
  ghost predicate OnCourse(c: Config, s: PState, n: nat, goal: (PState, Err))
  {
    Inv(c, s) && Bounded(c, |s.argv|) && RunN(c, s, n) == goal
  }

  lemma NoRound(c: Config, s: PState, goal: (PState, Err))
    requires OnCourse(c, s, 0, goal)
    ensures goal == (s, Ok)
  {
  }

  /** A parse that gets past parser_init reaches parser_finalize. */
  lemma {:induction false} ReachesEnd(c: Config, argv: seq<string>, parseArgv0: bool)
    requires Bounded(c, |argv|) && Forward(c) && Init(c, argv, parseArgv0).1.Ok?
    ensures var s := Init(c, argv, parseArgv0).0;
      Onward(c, s) && |s.argv| == |argv| && |Run(c, s).0.processed| == |c.groups| && !Run(c, s).1.Ok?
  {
    InitInv(c, argv, parseArgv0);
    var s := Init(c, argv, parseArgv0).0;
    var n := RunEnds(c, s);
    RunExtends(c, s, n);
  }

  /** What argp_parse comes to. */
  ghost function Outcome(c: Config, argv: seq<string>, parseArgv0: bool, endIndex: bool): (PState, Err)
    requires Bounded(c, |argv|) && Forward(c)
  {
    var r := Init(c, argv, parseArgv0);
    if !r.1.Ok? then r
    else
      ReachesEnd(c, argv, parseArgv0);
      Finalize(c, Run(c, r.0).0, Run(c, r.0).1, endIndex)
  }

  class Parser {
    const c: Config
    const argv: array<string>
    var next: int
    var quoted: int
    var argsOnly: bool
    var first: int
    var last: int
    var nextchar: Option<string>
    var processed: seq<int>
    var badArg: bool
    var trace: seq<Call>

    /** The fields as one value. */
    ghost function State(): PState
      reads this, argv
    {
      PState(argv[..], next, quoted, argsOnly, first, last, nextchar, processed, badArg, trace)
    }

    /** group_parse: the callback may rewrite argv in place. */
    method CallGroup(g: nat, key: Key, arg: Option<string>) returns (e: Err)
      requires g < |c.groups|
      modifies this, argv
      ensures var r := GroupParse(c, old(State()), g, key, arg); State() == r.0 && e == r.1
    {
      if !c.groups[g].hasParser { return BadKey; }
      trace := trace + [Call(g, key, arg, next)];
      var r := c.oracle(trace);
      if r.next.Some? { next := r.next.value; }
      if r.argv.Some? && |r.argv.value| == argv.Length {
        forall i | 0 <= i < argv.Length { argv[i] := r.argv.value[i]; }
        assert argv[..] == r.argv.value;
      }
      return r.err;
    }

    /** exchange. */
    method ExchangeSkipped()
      requires 0 <= first <= last <= next <= argv.Length
      modifies this, argv
      ensures State() == Exchange(old(State()))
    {
      ExchangeSegments(argv, first, last, next);
      first := first + (next - last);
      last := next;
    }

    /** One round of the loop of parser_parse_arg. */
    method Offer(val: string, g: nat) returns (e: Err, key: Key)
      requires g < |c.groups|
      modifies this, argv
      ensures var r := OfferGroup(c, old(State()), val, g); State() == r.0 && e == r.1 && key == r.2
    {
      next := next + 1;
      key := ArgKey;
      e := CallGroup(g, key, Some(val));
      if e == BadKey {
        next := next - 1;
        key := ArgsKey;
        e := CallGroup(g, key, None);
      }
    }

    method OfferAll(val: string) returns (e: Err, g: nat, key: Key)
      modifies this, argv
      ensures var r := OfferArg(c, old(State()), val, 0); State() == r.0 && e == r.1 && g == r.2 && key == r.3
    {
      e, g, key := BadKey, 0, ArgsKey;
      while g < |c.groups|
        invariant g <= |c.groups| && e == BadKey && key == ArgsKey
        invariant OfferArg(c, State(), val, g) == OfferArg(c, old(State()), val, 0)
      {
        e, key := Offer(val, g);
        if e != BadKey { return; }
        g := g + 1;
      }
    }

    /** parser_parse_arg. */
    method ParseArgument(val: string) returns (e: Err)
      requires |processed| == |c.groups|
      modifies this, argv
      ensures var r := ParseArg(c, old(State()), val); State() == r.0 && e == r.1
    {
      var index, g, key := next, 0, ArgsKey;
      e, g, key := OfferAll(val);
      if e.Ok? {
        if key == ArgsKey { next := argv.Length; }
        if next > index {
          processed := processed[g := processed[g] + (next - index)];
        } else {
          argsOnly := false;
        }
      }
    }

    /** Lines 938-950 of parser_parse_next. */
    method ClampSkipped()
      modifies this
      ensures State() == Clamp(old(State()))
    {
      if quoted != 0 && next < quoted { quoted, argsOnly := 0, false; }
      if last > next { last := next; }
      if first > next { first := next; }
    }

    /** Lines 952-1012: one letter of a cluster. */
    method ShortOption() returns (e: Err)
      requires nextchar.Some? && |nextchar.value| > 0 && 0 <= next <= argv.Length && !argsOnly
      modifies this, argv
      ensures var r := ParseShort(c, old(State())); State() == r.0 && e == r.1
    {
      assert !argsOnly;
      var letter := nextchar.value[0];
      nextchar := Some(nextchar.value[1..]);
      var found := FindShortOption(c.groups, letter as int);
      if found.None? {
        badArg := false;
        return BadKey;
      }
      var (g, o) := found.value;
      if nextchar.value == "" { nextchar := None; }
      var value: Option<string> := None;
      if o.hasArg {
        value := nextchar;
        nextchar := None;
        if value.None? && !o.argOptional {
          if next == argv.Length {
            badArg := false;
            return BadKey;
          }
          value := Some(argv[next]);
          next := next + 1;
        }
      }
      e := CallGroup(g, OptKey(o.key), value);
    }

    /** Lines 1115-1189: a long option. */
    method LongOption(optstart: string) returns (e: Err)
      requires 0 <= next < argv.Length
      modifies this, argv
      ensures var r := ParseLong(c, old(State()), optstart); State() == r.0 && e == r.1
    {
      next := next + 1;
      badArg := false;
      var found := FindLongOption(c.groups, optstart);
      if found.None? { return BadKey; }
      var (g, o) := found.value;
      var value := AfterEquals(optstart);
      if value.Some? && !o.hasArg { return BadKey; }
      if o.hasArg && value.None? && !o.argOptional {
        if next == argv.Length { return BadKey; }
        value := Some(argv[next]);
        next := next + 1;
      }
      e := CallGroup(g, OptKey(o.key), value);
    }

    /** Lines 1058-1089: a word that is not an option. */
    method PlainWord() returns (e: Err)
      requires 0 <= first <= last <= next < argv.Length && |processed| == |c.groups|
      modifies this, argv
      ensures var r := ParsePlain(c, old(State())); State() == r.0 && e == r.1
    {
      match c.ordering
      case Permute =>
        if first == last {
          first, last := next, next;
        } else if last != next {
          ExchangeSkipped();
        }
        assert last == next;
        next := next + 1;
        last := next;
        return Ok;
      case RequireOrder =>
        argsOnly := true;
        return Ok;
      case ReturnInOrder =>
        badArg := true;
        e := ParseArgument(argv[next]);
    }

    /** Lines 1091-1113: the word "--". */
    method QuoteWord()
      requires 0 <= first <= last <= next < argv.Length
      modifies this, argv
      ensures State() == ParseQuote(old(State()))
    {
      next := next + 1;
      assert last != next;
      ghost var s := State();
      if first != last {
        ExchangeSkipped();
        ghost var x := Exchange(s);
        quoted, next := first, first;
        first, last := 0, 0;
        assert State() == x.(quoted := x.first, next := x.first, first := 0, last := 0);
      } else {
        quoted := next;
        assert State() == s.(quoted := s.next);
      }
      argsOnly := true;
    }

    /** Lines 1027-1047: all words have been looked at. */
    method EndOfWords() returns (e: Err)
      requires first != last ==> 0 <= first <= last <= next <= argv.Length
      modifies this, argv
      ensures var r := ParseEnd(old(State())); State() == r.0 && e == r.1
    {
      badArg := true;
      if first == last { return BadKey; }
      ExchangeSkipped();
      next := first;
      first, last := 0, 0;
      argsOnly := true;
      return Ok;
    }

    /** The part of parser_parse_next after the clamping. */
    method Advance() returns (e: Err)
      requires Inv(c, State()) && Clamp(State()) == State()
      modifies this, argv
      ensures var r := ParseNext(c, old(State())); State() == r.0 && e == r.1
    {
      if nextchar.Some? {
        e := ShortOption();
      } else if argsOnly {
        badArg := true;
        if next >= argv.Length { return BadKey; }
        e := ParseArgument(argv[next]);
      } else if next >= argv.Length {
        e := EndOfWords();
      } else {
        match Classify(c, argv[next])
        case ArgToken => e := PlainWord();
        case QuoteToken => QuoteWord(); e := Ok;
        case LongToken(o) => e := LongOption(o);
        case LongOnlyToken(o) => e := LongOption(o);
        case ShortToken(o) =>
          next := next + 1;
          nextchar := Some(o);
          e := Ok;
      }
    }

    /** parser_parse_next. */
    method NextWord() returns (e: Err)
      requires Inv(c, State())
      modifies this, argv
      ensures var r := ParseNext(c, old(State())); State() == r.0 && e == r.1
    {
      ClampSkipped();
      e := Advance();
    }

    method Round(ghost n: nat, ghost goal: (PState, Err)) returns (e: Err)
      requires OnCourse(c, State(), n, goal) && n > 0
      modifies this, argv
      ensures e.Ok? ==> OnCourse(c, State(), n - 1, goal)
      ensures !e.Ok? ==> (State(), e) == goal
      ensures e.Ok? && !goal.1.Ok? ==> n > 1
    {
      OneRound(c, State(), n);
      e := NextWord();
    }

    /** At most n rounds of the main loop of argp_parse, whatever the callbacks do. */
    method Rounds(n: nat, ghost goal: (PState, Err)) returns (e: Err)
      requires OnCourse(c, State(), n, goal)
      modifies this, argv
      ensures (State(), e) == goal
    {
      if n == 0 {
        NoRound(c, State(), goal);
        e := Ok;
      } else {
        e := Round(n, goal);
        if e.Ok? {
          e := Rounds(n - 1, goal);
        }
      }
    }

    /** The main loop of argp_parse, for a parse that ends: n is any number of rounds after which it has. */
    method MainLoop(ghost n: nat) returns (e: Err)
      requires Inv(c, State()) && Bounded(c, argv.Length) && !RunN(c, State(), n).1.Ok?
      modifies this, argv
      ensures (State(), e) == old(RunN(c, State(), n))
    {
      e := Ok;
      ghost var k, goal := n, RunN(c, State(), n);
      while e.Ok?
        invariant e.Ok? ==> 0 < k && OnCourse(c, State(), k, goal)
        invariant !e.Ok? ==> (State(), e) == goal
        decreases e.Ok?, k
      {
        e := Round(k, goal);
        k := k - 1;
      }
    }

    /** The loops of parser_init and parser_finalize that go up and stop at an error. */
    method Upwards(key: Key, idle: bool) returns (e: Err)
      requires |processed| == |c.groups|
      modifies this, argv
      ensures var r := UpWhile(c, old(State()), key, idle, 0, Ok); State() == r.0 && e == r.1
    {
      e := Ok;
      var g := 0;
      while g < |c.groups| && Mild(e)
        invariant g <= |c.groups| && |processed| == |c.groups|
        invariant UpWhile(c, State(), key, idle, g, e) == UpWhile(c, old(State()), key, idle, 0, Ok)
      {
        if !idle || processed[g] == 0 {
          e := CallGroup(g, key, None);
        }
        g := g + 1;
      }
    }

    /** The loops of parser_finalize that go down and stop at an error. */
    method Downwards(key: Key, start: Err) returns (e: Err)
      modifies this, argv
      ensures var r := DownWhile(c, old(State()), key, |c.groups|, start); State() == r.0 && e == r.1
    {
      e := start;
      var g := |c.groups|;
      while g > 0 && Mild(e)
        invariant 0 <= g <= |c.groups|
        invariant DownWhile(c, State(), key, g, e) == DownWhile(c, old(State()), key, |c.groups|, start)
      {
        g := g - 1;
        e := CallGroup(g, key, None);
      }
    }

    /** The loop for ARGP_KEY_ERROR. */
    method TellAll(key: Key)
      modifies this, argv
      ensures State() == UpAll(c, old(State()), key, 0)
    {
      for g := 0 to |c.groups|
        invariant UpAll(c, State(), key, g) == UpAll(c, old(State()), key, 0)
      {
        var e := CallGroup(g, key, None);
      }
    }

    /** The loop for ARGP_KEY_FINI. */
    method TellAllDown(key: Key)
      modifies this, argv
      ensures State() == DownAll(c, old(State()), key, |c.groups|)
    {
      for g := |c.groups| downto 0
        invariant DownAll(c, State(), key, g) == DownAll(c, old(State()), key, |c.groups|)
      {
        var e := CallGroup(g, key, None);
      }
    }

    /** Lines 665-706 of parser_finalize. */
    method SettleError(err: Err, endIndex: bool) returns (e: Err)
      requires |processed| == |c.groups|
      modifies this, argv
      ensures var r := Settle(c, old(State()), err, endIndex); State() == r.0 && e == r.1
    {
      e := if err == BadKey && badArg then Ok else err;
      if !e.Ok? { return; }
      if next == argv.Length {
        e := Upwards(NoArgsKey, true);
        e := Downwards(EndKey, e);
        e := Forgive(e);
      } else if !endIndex {
        e := BadKey;
      }
    }

    /** parser_finalize. */
    method Finish(err: Err, endIndex: bool) returns (e: Err)
      requires |processed| == |c.groups|
      modifies this, argv
      ensures var r := Finalize(c, old(State()), err, endIndex); State() == r.0 && e == r.1
    {
      e := SettleError(err, endIndex);
      if !e.Ok? {
        TellAll(ErrorKey);
      } else {
        e := Downwards(SuccessKey, Ok);
        e := Forgive(e);
      }
      TellAllDown(FiniKey);
      if e == BadKey { e := Other(EINVAL); }
    }

    /** The fields as parser_init sets them, before the first callback. */
    constructor (c: Config, argv: array<string>)
      ensures this.c == c && this.argv == argv
      ensures State() == PState(argv[..], 0, 0, false, 0, 0, None, seq(|c.groups|, _ => 0), false, [])
    {
      this.c, this.argv := c, argv;
      next, quoted, argsOnly, first, last, nextchar := 0, 0, false, 0, 0, None;
      processed, badArg, trace := seq(|c.groups|, _ => 0), false, [];
    }

    /** The rest of parser_init. */
    method Start(parseArgv0: bool) returns (e: Err)
      requires State() == PState(argv[..], 0, 0, false, 0, 0, None, seq(|c.groups|, _ => 0), false, [])
      modifies this, argv
      ensures var r := Init(c, old(argv[..]), parseArgv0); State() == r.0 && e == r.1
    {
      e := Upwards(InitKey, false);
      if !Forgive(e).Ok? { return; }
      if argv.Length > 0 && !parseArgv0 { next := 1; }
      e := Ok;
    }
  }

  /** argp_parse, for a parse that ends: its main loop after at most n rounds. */
  method Parse(c: Config, argv: array<string>, parseArgv0: bool, endIndex: bool, ghost n: nat)
    returns (p: Parser, e: Err)
    requires Bounded(c, argv.Length)
    requires Init(c, argv[..], parseArgv0).1.Ok? ==> !MainLoop(c, argv[..], parseArgv0, n).1.Ok?
    modifies argv
    ensures fresh(p) && p.argv == argv
    ensures var r := Init(c, old(argv[..]), parseArgv0);
      (p.State(), e) == if r.1.Ok? then WholeParse(c, old(argv[..]), parseArgv0, n, endIndex) else r
  {
    ghost var words := argv[..];
    p := new Parser(c, argv);
    e := p.Start(parseArgv0);
    if !e.Ok? { return; }
    InitInv(c, words, parseArgv0);
    RunExtends(c, Init(c, words, parseArgv0).0, n);
    e := p.MainLoop(n);
    e := p.Finish(e, endIndex);
  }

  /** Callbacks that never move state.next back are such a case. */
  lemma OutcomeIsWhole(c: Config, argv: seq<string>, parseArgv0: bool, endIndex: bool) returns (n: nat)
    requires Bounded(c, |argv|) && Forward(c)
    ensures var r := Init(c, argv, parseArgv0);
      r.1.Ok? ==>
        && !MainLoop(c, argv, parseArgv0, n).1.Ok?
        && WholeParse(c, argv, parseArgv0, n, endIndex) == Outcome(c, argv, parseArgv0, endIndex)
  {
    n := 0;
    if Init(c, argv, parseArgv0).1.Ok? {
      ReachesEnd(c, argv, parseArgv0);
      n := RunEnds(c, Init(c, argv, parseArgv0).0);
    }
  }
}

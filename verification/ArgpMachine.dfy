/** The option parser of argp-parse.c as a state machine over its own fields. */
module ArgpMachine {
  import opened Options
  import opened ArgpTypes

  /** struct group: its options and whether it has a parser function. */
  datatype Group = Group(opts: seq<Opt>, hasParser: bool)

  datatype Ordering = RequireOrder | Permute | ReturnInOrder

  /** What stays fixed during a parse. The callbacks answer as a function of the calls made so far. */
  datatype Config = Config(groups: seq<Group>, ordering: Ordering, longOnly: bool, shortOpts: string,
                           oracle: seq<Call> -> Reply)

  /** struct parser. nextchar is the rest of a short-option cluster, None for the null pointer;
      processed are the args_processed counters; badArg is the caller's arg_ebadkey. */
  datatype PState = PState(argv: seq<string>, next: int, quoted: int, argsOnly: bool, first: int, last: int,
                           nextchar: Option<string>, processed: seq<int>, badArg: bool, trace: seq<Call>)

  // ---------- Callbacks ----------

  /** group_parse. */
  function GroupParse(c: Config, s: PState, g: nat, key: Key, arg: Option<string>): (PState, Err)
    requires g < |c.groups|
  {
    if !c.groups[g].hasParser then (s, BadKey)
    else
      var trace := s.trace + [Call(g, key, arg, s.next)];
      var r := c.oracle(trace);
      (s.(trace := trace,
          next := if r.next.Some? then r.next.value else s.next,
          argv := if r.argv.Some? && |r.argv.value| == |s.argv| then r.argv.value else s.argv),
       r.err)
  }

  // ---------- Option lookup ----------

  /** find_short_option, from group g, option i on. */
  function FindShort(groups: seq<Group>, key: int, g: nat, i: nat): (r: Option<(nat, Opt)>)
    ensures r.Some? ==> r.value.0 < |groups| && r.value.1 in groups[r.value.0].opts && r.value.1.key == key
    decreases |groups| - g, if g < |groups| then |groups[g].opts| - i else 0
  {
    if g >= |groups| then None
    else if i >= |groups[g].opts| then FindShort(groups, key, g + 1, 0)
    else if groups[g].opts[i].key == key then Some((g, groups[g].opts[i]))
    else FindShort(groups, key, g, i + 1)
  }

  datatype Match = Exact | Partial | No

  /** match_option, from position i on: arg is terminated by its end or by '='. */
  function MatchOption(arg: string, name: string, i: nat): Match
    requires i <= |arg| && i <= |name|
    decreases |arg| - i
  {
    if i == |arg| || arg[i] == '=' then (if i < |name| then Partial else Exact)
    else if i < |name| && arg[i] == name[i] then MatchOption(arg, name, i + 1)
    else No
  }

  /** find_long_option, from group g, option i on, with the partial matches counted so far. */
  function FindLong(groups: seq<Group>, arg: string, g: nat, i: nat, partial: nat, found: Option<(nat, Opt)>)
    : (r: Option<(nat, Opt)>)
    requires found.Some? ==> found.value.0 < |groups| && found.value.1 in groups[found.value.0].opts
    ensures r.Some? ==> r.value.0 < |groups| && r.value.1 in groups[r.value.0].opts
    decreases |groups| - g, if g < |groups| then |groups[g].opts| - i else 0
  {
    if g >= |groups| then (if partial == 1 then found else None)
    else if i >= |groups[g].opts| then FindLong(groups, arg, g + 1, 0, partial, found)
    else
      var o := groups[g].opts[i];
      if o.name.None? then FindLong(groups, arg, g, i + 1, partial, found)
      else match MatchOption(arg, o.name.value, 0)
        case No => FindLong(groups, arg, g, i + 1, partial, found)
        case Partial => FindLong(groups, arg, g, i + 1, partial + 1, Some((g, o)))
        case Exact => Some((g, o))
  }

  // ---------- Words ----------

  datatype Token = ArgToken | QuoteToken | LongToken(opt: string) | LongOnlyToken(opt: string) | ShortToken(opt: string)

  /** classify_arg. */
  function Classify(c: Config, arg: string): Token
  {
    if |arg| == 0 || arg[0] != '-' || |arg| == 1 then ArgToken
    else if arg[1] == '-' then (if |arg| == 2 then QuoteToken else LongToken(arg[2..]))
    else if c.longOnly && (|arg| > 2 || arg[1] !in c.shortOpts) then LongOnlyToken(arg[1..])
    else ShortToken(arg[1..])
  }

  /** strchr(s, '=') + 1 */
  function ValueOf(s: string): Option<string>
  {
    if s == [] then None else if s[0] == '=' then Some(s[1..]) else ValueOf(s[1..])
  }

  // ---------- The argument vector ----------

  /** exchange: [first, last) and [last, next) change places. */
  function Exchange(s: PState): PState
    requires 0 <= s.first <= s.last <= s.next <= |s.argv|
  {
    s.(argv := s.argv[..s.first] + s.argv[s.last..s.next] + s.argv[s.first..s.last] + s.argv[s.next..],
       first := s.first + (s.next - s.last),
       last := s.next)
  }

  // ---------- parser_parse_arg ----------

  /** One round of the loop: group g is offered the argument, then the rest of the vector. */
  function OfferGroup(c: Config, s: PState, val: string, g: nat): (PState, Err, Key)
    requires g < |c.groups|
  {
    var (s1, e1) := GroupParse(c, s.(next := s.next + 1), g, ArgKey, Some(val));
    if e1 != BadKey then (s1, e1, ArgKey)
    else
      var (s2, e2) := GroupParse(c, s1.(next := s1.next - 1), g, ArgsKey, None);
      (s2, e2, ArgsKey)
  }

  /** The loop over the groups, from group g on, as long as every one answers BadKey. The result holds
      the group that accepted and the key it did so with. */
  function OfferArg(c: Config, s: PState, val: string, g: nat): (r: (PState, Err, nat, Key))
    requires g <= |c.groups|
    ensures r.1 != BadKey ==> g <= r.2 < |c.groups| && c.groups[r.2].hasParser
    ensures r.0.processed == s.processed && |r.0.argv| == |s.argv|
    decreases |c.groups| - g
  {
    if g == |c.groups| then (s, BadKey, g, ArgsKey)
    else
      var (s1, e, key) := OfferGroup(c, s, val, g);
      if e != BadKey then (s1, e, g, key) else OfferArg(c, s1, val, g + 1)
  }

  function ParseArg(c: Config, s: PState, val: string): (PState, Err)
    requires |s.processed| == |c.groups|
  {
    var (s1, e, g, key) := OfferArg(c, s, val, 0);
    if !e.Ok? then (s1, e)
    else
      var s2 := if key == ArgsKey then s1.(next := |s.argv|) else s1;
      if s2.next > s.next then (s2.(processed := s2.processed[g := s2.processed[g] + (s2.next - s.next)]), e)
      else (s2.(argsOnly := false), e)
  }

  // ---------- parser_parse_next ----------

  /** Lines 938-950: what a moved state.next undoes. */
  function Clamp(s: PState): PState
  {
    var s := if s.quoted != 0 && s.next < s.quoted then s.(quoted := 0, argsOnly := false) else s;
    s.(last := if s.last > s.next then s.next else s.last,
       first := if s.first > s.next then s.next else s.first)
  }

  /** Lines 952-1012: one letter of a cluster. */
  function ParseShort(c: Config, s: PState): (PState, Err)
    requires s.nextchar.Some? && |s.nextchar.value| > 0 && 0 <= s.next <= |s.argv|
  {
    var rest := s.nextchar.value[1..];
    var found := FindShort(c.groups, s.nextchar.value[0] as int, 0, 0);
    if found.None? then (s.(nextchar := Some(rest), badArg := false), BadKey)
    else
      var (g, o) := found.value;
      var s1 := s.(nextchar := if rest == "" || o.hasArg then None else Some(rest));
      if !o.hasArg then GroupParse(c, s1, g, OptKey(o.key), None)
      else if rest != "" then GroupParse(c, s1, g, OptKey(o.key), Some(rest))
      else if o.argOptional then GroupParse(c, s1, g, OptKey(o.key), None)
      else if s1.next == |s1.argv| then (s1.(badArg := false), BadKey)
      else GroupParse(c, s1.(next := s1.next + 1), g, OptKey(o.key), Some(s1.argv[s1.next]))
  }

  /** Lines 1115-1189: a long option. */
  function ParseLong(c: Config, s0: PState, optstart: string): (PState, Err)
    requires 0 <= s0.next < |s0.argv|
  {
    var s := s0.(next := s0.next + 1, badArg := false);
    var found := FindLong(c.groups, optstart, 0, 0, 0, None);
    if found.None? then (s, BadKey)
    else
      var (g, o) := found.value;
      var value := ValueOf(optstart);
      if value.Some? && !o.hasArg then (s, BadKey)
      else if o.hasArg && value.None? && !o.argOptional then
        if s.next == |s.argv| then (s, BadKey)
        else GroupParse(c, s.(next := s.next + 1), g, OptKey(o.key), Some(s.argv[s.next]))
      else GroupParse(c, s, g, OptKey(o.key), value)
  }

  /** Lines 1058-1089: a word that is not an option. */
  function ParsePlain(c: Config, s: PState): (PState, Err)
    requires 0 <= s.first <= s.last <= s.next < |s.argv| && |s.processed| == |c.groups|
  {
    match c.ordering
    case Permute =>
      var s1 := if s.first == s.last then s.(first := s.next, last := s.next)
                else if s.last != s.next then Exchange(s)
                else s;
      (s1.(next := s.next + 1, last := s.next + 1), Ok)
    case RequireOrder => (s.(argsOnly := true), Ok)
    case ReturnInOrder => ParseArg(c, s.(badArg := true), s.argv[s.next])
  }

  /** Lines 1091-1113: the word "--". */
  function ParseQuote(s0: PState): PState
    requires 0 <= s0.first <= s0.last <= s0.next < |s0.argv|
  {
    var s := s0.(next := s0.next + 1);
    var s1 := if s.first != s.last
              then var x := Exchange(s); x.(quoted := x.first, next := x.first, first := 0, last := 0)
              else s.(quoted := s.next);
    s1.(argsOnly := true)
  }

  /** Lines 1027-1047: all words have been looked at. */
  function ParseEnd(s: PState): (PState, Err)
    requires s.first != s.last ==> 0 <= s.first <= s.last <= s.next <= |s.argv|
  {
    if s.first != s.last then
      var x := Exchange(s);
      (x.(next := x.first, first := 0, last := 0, argsOnly := true, badArg := true), Ok)
    else (s.(badArg := true), BadKey)
  }

  /** What holds whenever parser_parse_next is called. state.next may be one beyond the end, but then
      there is nothing left that would be read. */
  predicate Inv(c: Config, s: PState)
  {
    && |s.processed| == |c.groups|
    && 0 <= s.first <= s.last <= |s.argv| && 0 <= s.next <= |s.argv| + 1 && 0 <= s.quoted
    && (s.nextchar.Some? ==> !s.argsOnly && |s.nextchar.value| > 0)
    && (s.argsOnly || !c.ordering.Permute? ==> s.first == s.last)
    && (s.next > |s.argv| ==> s.first == s.last && s.nextchar.None?)
  }

  /** parser_parse_next. */
  function ParseNext(c: Config, s0: PState): (PState, Err)
    requires Inv(c, s0)
  {
    var s := Clamp(s0);
    if s.nextchar.Some? then ParseShort(c, s)
    else if s.argsOnly then
      if s.next >= |s.argv| then (s.(badArg := true), BadKey)
      else ParseArg(c, s.(badArg := true), s.argv[s.next])
    else if s.next >= |s.argv| then ParseEnd(s)
    else
      match Classify(c, s.argv[s.next])
      case ArgToken => ParsePlain(c, s)
      case QuoteToken => (ParseQuote(s), Ok)
      case LongToken(o) => ParseLong(c, s, o)
      case LongOnlyToken(o) => ParseLong(c, s, o)
      case ShortToken(o) => (s.(next := s.next + 1, nextchar := Some(o)), Ok)
  }

  // ---------- parser_init and parser_finalize ----------

  /** Whether a loop over the groups goes on after err. */
  predicate Mild(err: Err) { err.Ok? || err == BadKey }

  /** The loops of parser_init (INIT) and of parser_finalize (NO_ARGS, for idle groups only), from group
      g on: upwards, until a callback fails for good. */
  function UpWhile(c: Config, s: PState, key: Key, idle: bool, g: nat, err: Err): (PState, Err)
    requires g <= |c.groups| && |s.processed| == |c.groups|
    decreases |c.groups| - g
  {
    if g == |c.groups| || !Mild(err) then (s, err)
    else if idle && s.processed[g] != 0 then UpWhile(c, s, key, idle, g + 1, err)
    else var (s1, e1) := GroupParse(c, s, g, key, None); UpWhile(c, s1, key, idle, g + 1, e1)
  }

  /** The loops for END and SUCCESS: downwards from group g - 1, until a callback fails for good. */
  function DownWhile(c: Config, s: PState, key: Key, g: nat, err: Err): (PState, Err)
    requires g <= |c.groups|
    decreases g
  {
    if g == 0 || !Mild(err) then (s, err)
    else var (s1, e1) := GroupParse(c, s, g - 1, key, None); DownWhile(c, s1, key, g - 1, e1)
  }

  /** The loop for ERROR: all groups upwards, whatever they answer. */
  function UpAll(c: Config, s: PState, key: Key, g: nat): PState
    requires g <= |c.groups|
    decreases |c.groups| - g
  {
    if g == |c.groups| then s else UpAll(c, GroupParse(c, s, g, key, None).0, key, g + 1)
  }

  /** The loop for FINI: all groups downwards. */
  function DownAll(c: Config, s: PState, key: Key, g: nat): PState
    requires g <= |c.groups|
    decreases g
  {
    if g == 0 then s else DownAll(c, GroupParse(c, s, g - 1, key, None).0, key, g - 1)
  }

  /** ARGP_ERR_UNKNOWN does not count as a failure of the special keys. */
  function Forgive(err: Err): Err
  {
    if err == BadKey then Ok else err
  }

  /** The part of parser_init that calls the parsers for the first time and sets state.next. */
  function Init(c: Config, argv: seq<string>, parseArgv0: bool): (PState, Err)
  {
    var s := PState(argv, 0, 0, false, 0, 0, None, seq(|c.groups|, _ => 0), false, []);
    var (s1, e) := UpWhile(c, s, InitKey, false, 0, Ok);
    if !Forgive(e).Ok? then (s1, e)
    else (if |argv| > 0 && !parseArgv0 then s1.(next := 1) else s1, Ok)
  }

  /** Lines 665-706: which error, if any, the parse ends with. endIndex says whether the caller takes
      unparsed arguments back. */
  function Settle(c: Config, s: PState, err0: Err, endIndex: bool): (PState, Err)
    requires |s.processed| == |c.groups|
  {
    var err := if err0 == BadKey && s.badArg then Ok else err0;
    if !err.Ok? then (s, err)
    else if s.next == |s.argv| then
      var (s1, e1) := UpWhile(c, s, NoArgsKey, true, 0, Ok);
      var (s2, e2) := DownWhile(c, s1, EndKey, |c.groups|, e1);
      (s2, Forgive(e2))
    else if endIndex then (s, Ok)
    else (s, BadKey)
  }

  const EINVAL := 22

  /** parser_finalize. */
  function Finalize(c: Config, s: PState, err0: Err, endIndex: bool): (PState, Err)
    requires |s.processed| == |c.groups|
  {
    var (s1, e1) := Settle(c, s, err0, endIndex);
    var (s2, e2) := if !e1.Ok? then (UpAll(c, s1, ErrorKey, 0), e1)
                    else var (t, e) := DownWhile(c, s1, SuccessKey, |c.groups|, Ok); (t, Forgive(e));
    var s3 := DownAll(c, s2, FiniKey, |c.groups|);
    (s3, if e2 == BadKey then Other(EINVAL) else e2)
  }
}

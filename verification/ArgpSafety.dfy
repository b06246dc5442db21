/** Safety of the option parser for arbitrary callbacks, and its termination for callbacks that do
    not move state.next back. */
module ArgpSafety {
  import opened Options
  import opened ArgpTypes
  import opened ArgpMachine

  /** Callbacks put state.next anywhere in [0, argc], or leave it. */
  ghost predicate Bounded(c: Config, argc: nat)
  {
    forall tr: seq<Call>, call: Call :: c.oracle(tr + [call]).next.Some? ==>
      0 <= c.oracle(tr + [call]).next.value <= argc
  }

  /** A callback that does not take what it is offered leaves state.next alone. */
  ghost predicate PoliteRejects(c: Config)
  {
    forall tr: seq<Call>, call: Call :: c.oracle(tr + [call]).err == BadKey ==> c.oracle(tr + [call]).next.None?
  }

  /** The fields that callbacks cannot reach. */
  predicate SameRest(s: PState, s': PState)
  {
    && s'.quoted == s.quoted && s'.argsOnly == s.argsOnly && s'.first == s.first && s'.last == s.last
    && s'.nextchar == s.nextchar && s'.processed == s.processed && s'.badArg == s.badArg && |s'.argv| == |s.argv|
  }

  lemma {:induction false} OfferKeeps(c: Config, s: PState, val: string, g: nat)
    requires g <= |c.groups|
    ensures SameRest(s, OfferArg(c, s, val, g).0)
    decreases |c.groups| - g
  {
    if g < |c.groups| {
      var (s1, e, key) := OfferGroup(c, s, val, g);
      if e == BadKey { OfferKeeps(c, s1, val, g + 1); }
    }
  }

  lemma {:induction false} OfferRange(c: Config, s: PState, val: string, g: nat)
    requires g <= |c.groups| && Bounded(c, |s.argv|) && -1 <= s.next <= |s.argv|
    ensures var (s', e, g', key) := OfferArg(c, s, val, g);
      && -1 <= s'.next <= |s.argv| + 1
      && (e.Ok? && key != ArgsKey ==> 0 <= s'.next)
    decreases |c.groups| - g
  {
    if g < |c.groups| {
      var (s1, e, key) := OfferGroup(c, s, val, g);
      if e == BadKey { OfferRange(c, s1, val, g + 1); }
    }
  }

  lemma {:induction false} OfferPolite(c: Config, s: PState, val: string, g: nat)
    requires g <= |c.groups| && Bounded(c, |s.argv|) && PoliteRejects(c) && 0 <= s.next < |s.argv|
    ensures var (s', e, g', key) := OfferArg(c, s, val, g);
      s'.next <= |s.argv| && (e == BadKey ==> s'.next == s.next)
    decreases |c.groups| - g
  {
    if g < |c.groups| {
      var (s1, e, key) := OfferGroup(c, s, val, g);
      if e == BadKey { OfferPolite(c, s1, val, g + 1); }
    }
  }

  /** A step's result: the invariant again, and state.next within the vector if the callbacks are polite. */
  ghost predicate Safe(c: Config, s: PState, r: (PState, Err))
  {
    && |r.0.argv| == |s.argv|
    && (r.1.Ok? ==> Inv(c, r.0))
    && (r.1.Ok? && PoliteRejects(c) && s.next <= |s.argv| ==> r.0.next <= |s.argv|)
  }

  lemma ArgSafe(c: Config, s: PState, val: string)
    requires Inv(c, s) && Bounded(c, |s.argv|) && s.next < |s.argv| && s.nextchar.None? && s.first == s.last
    ensures Safe(c, s, ParseArg(c, s, val))
  {
    OfferKeeps(c, s, val, 0);
    OfferRange(c, s, val, 0);
    if PoliteRejects(c) { OfferPolite(c, s, val, 0); }
  }

  lemma CallSafe(c: Config, s: PState, g: nat, key: Key, arg: Option<string>)
    requires g < |c.groups| && Inv(c, s) && s.next <= |s.argv| && Bounded(c, |s.argv|)
    ensures Safe(c, s, GroupParse(c, s, g, key, arg))
  {
  }

  /** After the clamping at the start of every step the two segments are where they should be. */
  lemma Clamped(c: Config, s: PState)
    requires Inv(c, s)
    ensures var s' := Clamp(s); Inv(c, s') && 0 <= s'.first <= s'.last <= s'.next && s'.last <= |s'.argv|
  {
  }

  lemma ShortSafe(c: Config, s: PState)
    requires Inv(c, s) && s.nextchar.Some? && Bounded(c, |s.argv|)
    ensures Safe(c, s, ParseShort(c, s))
  {
    var found := FindShort(c.groups, s.nextchar.value[0] as int, 0, 0);
    if found.Some? {
      var (g, o) := found.value;
      var rest := s.nextchar.value[1..];
      var s1 := s.(nextchar := if rest == "" || o.hasArg then None else Some(rest));
      CallSafe(c, s1, g, OptKey(o.key), None);
      CallSafe(c, s1, g, OptKey(o.key), Some(rest));
      if s.next < |s.argv| {
        CallSafe(c, s1.(next := s1.next + 1), g, OptKey(o.key), Some(s1.argv[s1.next]));
      }
    }
  }

  lemma LongSafe(c: Config, s: PState, optstart: string)
    requires Inv(c, s) && s.next < |s.argv| && s.nextchar.None? && Bounded(c, |s.argv|)
    ensures Safe(c, s, ParseLong(c, s, optstart))
  {
    var s1 := s.(next := s.next + 1, badArg := false);
    var found := FindLong(c.groups, optstart, 0, 0, 0, None);
    if found.Some? {
      var (g, o) := found.value;
      CallSafe(c, s1, g, OptKey(o.key), ValueOf(optstart));
      if s1.next < |s1.argv| {
        CallSafe(c, s1.(next := s1.next + 1), g, OptKey(o.key), Some(s1.argv[s1.next]));
      }
    }
  }

  lemma WordSafe(c: Config, s: PState)
    requires Inv(c, s) && s.last <= s.next < |s.argv| && s.nextchar.None? && !s.argsOnly && Bounded(c, |s.argv|)
    ensures Safe(c, s, ParsePlain(c, s)) && Safe(c, s, (ParseQuote(s), Ok))
  {
    if c.ordering.ReturnInOrder? { ArgSafe(c, s.(badArg := true), s.argv[s.next]); }
  }

  /** One step keeps the invariant, whatever the callbacks do with state.next and argv; every access
      to argv on the way is within bounds. */
  lemma StepSafe(c: Config, s: PState)
    requires Inv(c, s) && Bounded(c, |s.argv|)
    ensures Safe(c, s, ParseNext(c, s))
  {
    Clamped(c, s);
    var s1 := Clamp(s);
    if s1.nextchar.Some? {
      ShortSafe(c, s1);
    } else if s1.next < |s1.argv| {
      if s1.argsOnly {
        ArgSafe(c, s1.(badArg := true), s1.argv[s1.next]);
      } else {
        WordSafe(c, s1);
        match Classify(c, s1.argv[s1.next])
        case LongToken(o) => LongSafe(c, s1, o);
        case LongOnlyToken(o) => LongSafe(c, s1, o);
        case _ =>
      }
    }
  }

  // ---------- Runs of any length ----------

  /** The main loop of argp_parse, cut off after n rounds. */
  ghost function RunN(c: Config, s: PState, n: nat): (PState, Err)
    requires Inv(c, s) && Bounded(c, |s.argv|)
    decreases n
  {
    StepSafe(c, s);
    var (s', e) := ParseNext(c, s);
    if n == 0 then (s, Ok) else if !e.Ok? then (s', e) else RunN(c, s', n - 1)
  }

  lemma {:induction false} OneRound(c: Config, s: PState, n: nat)
    requires Inv(c, s) && Bounded(c, |s.argv|) && n > 0
    ensures var (s', e) := ParseNext(c, s);
      if e.Ok? then Inv(c, s') && |s'.argv| == |s.argv| && RunN(c, s, n) == RunN(c, s', n - 1)
      else RunN(c, s, n) == (s', e)
  {
    StepSafe(c, s);
  }

  /** In every reachable state, after the clamping, 0 <= first <= last <= next; state.next exceeds argc
      only if some callback rejected an argument and moved state.next all the same. */
  lemma {:induction false} RunSafe(c: Config, s: PState, n: nat)
    requires Inv(c, s) && Bounded(c, |s.argv|)
    ensures var (s', e) := RunN(c, s, n);
      && |s'.argv| == |s.argv|
      && (e.Ok? ==> Inv(c, s') && 0 <= Clamp(s').first <= Clamp(s').last <= Clamp(s').next <= |s.argv| + 1)
      && (e.Ok? && PoliteRejects(c) && s.next <= |s.argv| ==> Clamp(s').next <= |s.argv|)
    decreases n
  {
    StepSafe(c, s);
    if n == 0 {
      Clamped(c, s);
    } else if ParseNext(c, s).1.Ok? {
      RunSafe(c, ParseNext(c, s).0, n - 1);
    }
  }

  /** What the callback of call number i of tr has answered. */
  function ReplyAt(c: Config, tr: seq<Call>, i: nat): Reply
    requires i < |tr|
  {
    c.oracle(tr[..i + 1])
  }

  /** A parser, offered all the rest, answers ARGP_ERR_UNKNOWN and moves state.next to argc all the same. */
  predicate Jump(c: Config, tr: seq<Call>, i: nat, argc: nat)
    requires i < |tr|
  {
    tr[i].key == ArgsKey && ReplyAt(c, tr, i).err == BadKey && ReplyAt(c, tr, i).next == Some(argc)
  }

  /** From call number n on there is such a call, and no reply since has moved state.next. */
  predicate Jumped(c: Config, tr: seq<Call>, n: nat, argc: nat)
  {
    exists i :: n <= i < |tr| && Jump(c, tr, i, argc) && Still(c, tr, i + 1)
  }

  predicate Still(c: Config, tr: seq<Call>, n: nat)
  {
    forall j :: n <= j < |tr| ==> ReplyAt(c, tr, j).next.None?
  }

  lemma ReplyAtSnoc(c: Config, tr: seq<Call>, call: Call)
    ensures ReplyAt(c, tr + [call], |tr|) == c.oracle(tr + [call])
    ensures forall i :: 0 <= i < |tr| ==> ReplyAt(c, tr + [call], i) == ReplyAt(c, tr, i)
  {
    var tr' := tr + [call];
    assert tr'[..|tr| + 1] == tr';
    forall i | 0 <= i < |tr| ensures ReplyAt(c, tr', i) == ReplyAt(c, tr, i) {
      assert tr'[..i + 1] == tr[..i + 1];
    }
  }

  lemma JumpedSnoc(c: Config, tr: seq<Call>, call: Call, n: nat, argc: nat)
    requires n <= |tr|
    ensures var r := c.oracle(tr + [call]);
      Jumped(c, tr + [call], n, argc) <==>
        (call.key == ArgsKey && r.err == BadKey && r.next == Some(argc)) || (r.next.None? && Jumped(c, tr, n, argc))
  {
    var tr' := tr + [call];
    ReplyAtSnoc(c, tr, call);
    if Jumped(c, tr', n, argc) {
      var i :| n <= i < |tr'| && Jump(c, tr', i, argc) && Still(c, tr', i + 1);
      if i < |tr| {
        assert ReplyAt(c, tr', |tr|).next.None?;
        assert Jump(c, tr, i, argc) && Still(c, tr, i + 1);
      }
    }
    if c.oracle(tr').next.None? && Jumped(c, tr, n, argc) {
      var i :| n <= i < |tr| && Jump(c, tr, i, argc) && Still(c, tr, i + 1);
      assert Jump(c, tr', i, argc) && Still(c, tr', i + 1);
    }
    if Jump(c, tr', |tr|, argc) { assert Still(c, tr', |tr| + 1); }
  }

  /** While an argument is being offered, state.next is at argc just if there was a jump. */
  predicate Marked(c: Config, s: PState, n: nat)
  {
    n <= |s.trace| && s.next <= |s.argv| && (s.next == |s.argv| <==> Jumped(c, s.trace, n, |s.argv|))
  }

  lemma RejectedOffer(c: Config, s: PState, val: string, g: nat, n: nat)
    requires g < |c.groups| && Bounded(c, |s.argv|) && Marked(c, s, n) && OfferGroup(c, s, val, g).1 == BadKey
    ensures Marked(c, OfferGroup(c, s, val, g).0, n)
  {
    if c.groups[g].hasParser {
      var r := GroupParse(c, s.(next := s.next + 1), g, ArgKey, Some(val));
      var s1 := r.0;
      JumpedSnoc(c, s.trace, Call(g, ArgKey, Some(val), s.next + 1), n, |s.argv|);
      JumpedSnoc(c, s1.trace, Call(g, ArgsKey, None, s1.next - 1), n, |s.argv|);
    }
  }

  lemma AcceptedOffer(c: Config, s: PState, val: string, g: nat, n: nat)
    requires g < |c.groups| && Bounded(c, |s.argv|) && Marked(c, s, n) && OfferGroup(c, s, val, g).1.Ok?
    ensures var r := OfferGroup(c, s, val, g);
      |r.0.trace| > 0 && r.0.trace[|r.0.trace| - 1].key == r.2
      && (r.0.next > |s.argv| <==> r.2 == ArgKey && Jumped(c, r.0.trace, n, |s.argv|))
  {
    JumpedSnoc(c, s.trace, Call(g, ArgKey, Some(val), s.next + 1), n, |s.argv|);
  }

  lemma {:induction false} OvershootFrom(c: Config, s: PState, val: string, g: nat, n: nat)
    requires g <= |c.groups| && Bounded(c, |s.argv|) && Marked(c, s, n) && OfferArg(c, s, val, g).1.Ok?
    ensures var r := OfferArg(c, s, val, g);
      |r.0.trace| > 0 && r.0.trace[|r.0.trace| - 1].key == r.3
      && (r.0.next > |s.argv| <==> r.3 == ArgKey && Jumped(c, r.0.trace, n, |s.argv|))
    decreases |c.groups| - g
  {
    var r := OfferGroup(c, s, val, g);
    if r.1 == BadKey {
      RejectedOffer(c, s, val, g, n);
      OvershootFrom(c, r.0, val, g + 1, n);
    } else {
      AcceptedOffer(c, s, val, g, n);
    }
  }

  lemma {:induction false} ArgOutcome(c: Config, s: PState, val: string)
    requires |s.processed| == |c.groups|
    ensures var r, r' := OfferArg(c, s, val, 0), ParseArg(c, s, val);
      && r'.1 == r.1
      && (r.1.Ok? ==> r'.0.trace == r.0.trace && r'.0.next == if r.3 == ArgsKey then |s.argv| else r.0.next)
  {
  }

  /** An argument is accepted with state.next beyond argc if and only if it is accepted as an argument of its own
      after some parser, offered all the rest, has answered ARGP_ERR_UNKNOWN but moved state.next to argc, and no
      reply since has moved it. */
  lemma Overshoot(c: Config, s: PState, val: string)
    requires Bounded(c, |s.argv|) && 0 <= s.next < |s.argv| && |s.processed| == |c.groups|
    ensures var (s', e) := ParseArg(c, s, val);
      e.Ok? ==> |s'.trace| > 0 && (s'.next > |s.argv| <==>
        s'.trace[|s'.trace| - 1].key == ArgKey && Jumped(c, s'.trace, |s.trace|, |s.argv|))
  {
    assert !Jumped(c, s.trace, |s.trace|, |s.argv|);
    ArgOutcome(c, s, val);
    if OfferArg(c, s, val, 0).1.Ok? { OvershootFrom(c, s, val, 0, |s.trace|); }
  }

  /** Two parsers: the first rejects the only argument and moves state.next to the end, the second
      accepts it and leaves state.next alone. */
  function ImpoliteOracle(tr: seq<Call>): Reply
  {
    if |tr| == 0 then Reply(Ok, None, None)
    else
      var call := tr[|tr| - 1];
      if call.group != 0 then Reply(Ok, None, None)
      else if call.key == ArgsKey then Reply(BadKey, Some(1), None)
      else Reply(BadKey, None, None)
  }

  function ImpoliteConfig(): Config
  {
    Config([Group([], true), Group([], true)], ReturnInOrder, false, "", ImpoliteOracle)
  }

  /** Where a parse of the one word "x" starts. */
  function ImpoliteStart(): PState
  {
    PState(["x"], 0, 0, false, 0, 0, None, [0, 0], false, [Call(0, InitKey, None, 0), Call(1, InitKey, None, 0)])
  }

  lemma ImpoliteInit()
    ensures Init(ImpoliteConfig(), ["x"], true) == (ImpoliteStart(), Ok)
  {
    var c, i0, i1 := ImpoliteConfig(), Call(0, InitKey, None, 0), Call(1, InitKey, None, 0);
    var s := PState(["x"], 0, 0, false, 0, 0, None, [0, 0], false, []);
    assert seq(|c.groups|, _ => 0) == [0, 0] && s.trace + [i0] == [i0] && [i0] + [i1] == [i0, i1];
    var s1 := s.(trace := [i0]);
    assert GroupParse(c, s, 0, InitKey, None) == (s1, BadKey);
    assert GroupParse(c, s1, 1, InitKey, None) == (ImpoliteStart(), Ok);
    assert UpWhile(c, s1, InitKey, false, 1, BadKey) == UpWhile(c, ImpoliteStart(), InitKey, false, 2, Ok);
    assert UpWhile(c, s, InitKey, false, 0, Ok) == UpWhile(c, s1, InitKey, false, 1, BadKey);
  }

  lemma ImpoliteOffer()
    ensures var r := OfferArg(ImpoliteConfig(), ImpoliteStart().(badArg := true), "x", 0);
      r.1 == Ok && r.0.next == 2 && r.2 == 1 && r.3 == ArgKey
  {
    var c, s := ImpoliteConfig(), ImpoliteStart().(badArg := true);
    var (s1, e1) := GroupParse(c, s.(next := 1), 0, ArgKey, Some("x"));
    var (s2, e2) := GroupParse(c, s1.(next := 0), 0, ArgsKey, None);
    assert e1 == BadKey && e2 == BadKey && s2.next == 1;
    var (s3, e3) := GroupParse(c, s2.(next := 2), 1, ArgKey, Some("x"));
    assert e3 == Ok && s3.next == 2;
    assert OfferArg(c, s2, "x", 1) == (s3, Ok, 1, ArgKey);
  }

  /** A parse whose first step leaves state.next at argc + 1. */
  lemma NextCanExceedArgc()
    ensures var (s, e) := Init(ImpoliteConfig(), ["x"], true);
      && e.Ok? && Inv(ImpoliteConfig(), s) && Bounded(ImpoliteConfig(), 1)
      && ParseNext(ImpoliteConfig(), s).1 == Ok && ParseNext(ImpoliteConfig(), s).0.next == 2
  {
    ImpoliteInit();
    ImpoliteOffer();
    assert Clamp(ImpoliteStart()) == ImpoliteStart();
  }

  // ---------- Termination ----------

  /** No callback moves state.next back. */
  ghost predicate Forward(c: Config)
  {
    forall tr: seq<Call>, call: Call ::
      c.oracle(tr + [call]).next.Some? ==> c.oracle(tr + [call]).next.value >= call.next
  }

  /** Nothing has been moved back so far. */
  predicate Onward(c: Config, s: PState)
  {
    Inv(c, s) && s.last <= s.next && s.quoted <= s.next && (s.quoted != 0 ==> s.argsOnly)
  }

  function ClusterLeft(s: PState): nat
  {
    if s.nextchar.None? then 0 else |s.nextchar.value|
  }

  /** Options still possible, then words left, then letters left in the cluster. */
  ghost predicate Shrinks(s: PState, s': PState)
  {
    || (!s.argsOnly && s'.argsOnly)
    || (s.argsOnly == s'.argsOnly && s'.next > s.next)
    || (s.argsOnly == s'.argsOnly && s'.next == s.next && ClusterLeft(s') < ClusterLeft(s))
  }

  lemma CallForward(c: Config, s: PState, g: nat, key: Key, arg: Option<string>)
    requires g < |c.groups| && Forward(c)
    ensures GroupParse(c, s, g, key, arg).0.next >= s.next
  {
    assert (s.trace + [Call(g, key, arg, s.next)])[|s.trace|].next == s.next;
  }

  lemma ForwardGroup(c: Config, s: PState, val: string, g: nat)
    requires g < |c.groups| && Forward(c)
    ensures var r := OfferGroup(c, s, val, g); r.0.next >= s.next && (r.2 == ArgKey ==> r.0.next > s.next)
  {
    CallForward(c, s.(next := s.next + 1), g, ArgKey, Some(val));
    var s1 := GroupParse(c, s.(next := s.next + 1), g, ArgKey, Some(val)).0;
    CallForward(c, s1.(next := s1.next - 1), g, ArgsKey, None);
  }

  lemma {:induction false} OfferForward(c: Config, s: PState, val: string, g: nat, at: int)
    requires g <= |c.groups| && Forward(c) && s.next >= at
    ensures var r := OfferArg(c, s, val, g);
      r.0.next >= at && (r.1.Ok? && r.3 != ArgsKey ==> r.0.next > at)
    decreases |c.groups| - g
  {
    if g < |c.groups| {
      ForwardGroup(c, s, val, g);
      var (s1, e, key) := OfferGroup(c, s, val, g);
      if e == BadKey { OfferForward(c, s1, val, g + 1, at); }
    }
  }

  lemma ArgShrinks(c: Config, s: PState, val: string)
    requires Onward(c, s) && Bounded(c, |s.argv|) && Forward(c)
    requires s.next < |s.argv| && s.nextchar.None? && s.first == s.last
    ensures var (s', e) := ParseArg(c, s, val); e.Ok? ==> Onward(c, s') && Shrinks(s, s')
  {
    OfferForward(c, s, val, 0, s.next);
    OfferKeeps(c, s, val, 0);
    ArgSafe(c, s, val);
  }

  lemma ShortShrinks(c: Config, s: PState)
    requires Onward(c, s) && Bounded(c, |s.argv|) && Forward(c) && s.nextchar.Some?
    ensures var (s', e) := ParseShort(c, s); e.Ok? ==> Onward(c, s') && Shrinks(s, s')
  {
    ShortSafe(c, s);
  }

  lemma LongShrinks(c: Config, s: PState, o: string)
    requires Onward(c, s) && Bounded(c, |s.argv|) && Forward(c) && s.nextchar.None? && s.next < |s.argv|
    ensures var (s', e) := ParseLong(c, s, o); e.Ok? ==> Onward(c, s') && Shrinks(s, s')
  {
    LongSafe(c, s, o);
  }

  /** Every round that goes on makes progress, although state.next itself goes back after an exchange. */
  lemma StepShrinks(c: Config, s: PState)
    requires Onward(c, s) && Bounded(c, |s.argv|) && Forward(c)
    ensures var (s', e) := ParseNext(c, s); e.Ok? ==> Onward(c, s') && Shrinks(s, s')
  {
    StepSafe(c, s);
    assert Clamp(s) == s;
    if s.nextchar.Some? {
      ShortShrinks(c, s);
    } else if s.next < |s.argv| {
      if s.argsOnly {
        ArgShrinks(c, s.(badArg := true), s.argv[s.next]);
      } else {
        match Classify(c, s.argv[s.next])
        case ArgToken => if c.ordering.ReturnInOrder? { ArgShrinks(c, s.(badArg := true), s.argv[s.next]); }
        case LongToken(o) => LongShrinks(c, s, o);
        case LongOnlyToken(o) => LongShrinks(c, s, o);
        case _ =>
      }
    }
  }

  /** The main loop of argp_parse, run to its end. */
  ghost function Run(c: Config, s: PState): (PState, Err)
    requires Onward(c, s) && Bounded(c, |s.argv|) && Forward(c)
    decreases !s.argsOnly, |s.argv| + 1 - s.next, ClusterLeft(s)
  {
    StepShrinks(c, s);
    StepSafe(c, s);
    var (s', e) := ParseNext(c, s);
    if e.Ok? then Run(c, s') else (s', e)
  }

  /** The loop ends: some number of rounds reaches the result of the full run. */
  lemma {:induction false} RunEnds(c: Config, s: PState) returns (n: nat)
    requires Onward(c, s) && Bounded(c, |s.argv|) && Forward(c)
    ensures RunN(c, s, n) == Run(c, s) && !Run(c, s).1.Ok?
    decreases !s.argsOnly, |s.argv| + 1 - s.next, ClusterLeft(s)
  {
    StepShrinks(c, s);
    StepSafe(c, s);
    n := 1;
    if ParseNext(c, s).1.Ok? {
      n := RunEnds(c, ParseNext(c, s).0);
      n := n + 1;
    }
  }
}

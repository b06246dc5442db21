/** The life cycle of the callbacks: which keys each parser sees, and in which order. */
module ArgpLifecycle {
  import opened Options
  import opened ArgpTypes
  import opened ArgpMachine
  import opened ArgpSafety
  import opened Seqs

  /** Calls with one key, to groups with a parser, upwards or downwards through the groups in [lo, hi). */
  predicate Burst(c: Config, x: seq<Call>, key: Key, up: bool, lo: int, hi: int)
  {
    && (forall i :: 0 <= i < |x| ==> x[i].key == key && lo <= x[i].group < hi)
    && (forall i :: 0 <= i < |x| ==> x[i].group < |c.groups| && c.groups[x[i].group].hasParser)
    && (forall i, j :: 0 <= i < j < |x| ==> if up then x[i].group < x[j].group else x[i].group > x[j].group)
  }

  /** Every group of [lo, hi) with a parser is called. */
  predicate Complete(c: Config, x: seq<Call>, lo: nat, hi: nat)
  {
    forall g :: lo <= g < hi <= |c.groups| && c.groups[g].hasParser ==> Called(x, g)
  }

  predicate Called(x: seq<Call>, g: nat)
  {
    exists i :: 0 <= i < |x| && x[i].group == g
  }

  /** Calls made while parsing: only options and arguments. */
  predicate Body(c: Config, x: seq<Call>)
  {
    forall i :: 0 <= i < |x| ==>
      && (x[i].key.OptKey? || x[i].key == ArgKey || x[i].key == ArgsKey)
      && x[i].group < |c.groups| && c.groups[x[i].group].hasParser
  }

  /** The calls added between two states. */
  ghost predicate Adds(s: PState, x: seq<Call>, s': PState)
  {
    s'.trace == s.trace + x && s'.processed == s.processed
  }

  // ---------- The loops over the groups ----------

  /** What one call adds to the trace. */
  function CallSeq(c: Config, s: PState, g: nat, key: Key): seq<Call>
    requires g < |c.groups|
  {
    if c.groups[g].hasParser then [Call(g, key, None, s.next)] else []
  }

  /** A call to group g before the calls y to the groups on one side of it. */
  lemma BurstCons(c: Config, s: PState, g: nat, key: Key, y: seq<Call>, up: bool, lo: int, hi: int)
    requires lo <= g < hi <= |c.groups|
    requires Burst(c, y, key, up, if up then g + 1 else lo, if up then hi else g)
    ensures Burst(c, CallSeq(c, s, g, key) + y, key, up, lo, hi)
    ensures c.groups[g].hasParser ==> Called(CallSeq(c, s, g, key) + y, g)
    ensures forall h :: Called(y, h) ==> Called(CallSeq(c, s, g, key) + y, h)
  {
    var z := CallSeq(c, s, g, key);
    if c.groups[g].hasParser { assert (z + y)[0].group == g; }
    forall h | Called(y, h) ensures Called(z + y, h)
    {
      var i :| 0 <= i < |y| && y[i].group == h;
      assert (z + y)[|z| + i].group == h;
    }
  }

  /** Of the groups from g on, those with a parser are called whose counter is zero. */
  predicate IdleOnes(c: Config, processed: seq<int>, x: seq<Call>, g: nat)
    requires |processed| == |c.groups|
  {
    forall h :: g <= h < |c.groups| && c.groups[h].hasParser ==> (Called(x, h) <==> processed[h] == 0)
  }

  lemma IdleCons(c: Config, s: PState, g: nat, key: Key, y: seq<Call>)
    requires g < |c.groups| == |s.processed| && s.processed[g] == 0 && IdleOnes(c, s.processed, y, g + 1)
    ensures IdleOnes(c, s.processed, CallSeq(c, s, g, key) + y, g)
  {
    var z := CallSeq(c, s, g, key);
    forall h | g < h < |c.groups| ensures Called(z + y, h) <==> Called(y, h) {
      if Called(y, h) {
        var i :| 0 <= i < |y| && y[i].group == h;
        assert (z + y)[|z| + i].group == h;
      }
      if Called(z + y, h) {
        var i :| 0 <= i < |z + y| && (z + y)[i].group == h;
        assert y[i - |z|].group == h;
      }
    }
    if c.groups[g].hasParser { assert (z + y)[0].group == g; }
  }

  lemma AddsCons(c: Config, s: PState, g: nat, key: Key, y: seq<Call>, s': PState)
    requires g < |c.groups| && Adds(GroupParse(c, s, g, key, None).0, y, s')
    ensures Adds(s, CallSeq(c, s, g, key) + y, s')
  {
    Regroup(s.trace, CallSeq(c, s, g, key), y);
    assert c.groups[g].hasParser || s.trace + [] == s.trace;
  }

  lemma {:induction false} UpWhileBurst(c: Config, s: PState, key: Key, idle: bool, g: nat, err: Err)
    returns (x: seq<Call>)
    requires g <= |c.groups| && |s.processed| == |c.groups|
    ensures Adds(s, x, UpWhile(c, s, key, idle, g, err).0) && Burst(c, x, key, true, g, |c.groups|)
    ensures Mild(UpWhile(c, s, key, idle, g, err).1) ==>
      if idle then IdleOnes(c, s.processed, x, g) else Complete(c, x, g, |c.groups|)
    decreases |c.groups| - g
  {
    if g == |c.groups| || !Mild(err) {
      x := [];
      assert s.trace + [] == s.trace;
    } else if idle && s.processed[g] != 0 {
      x := UpWhileBurst(c, s, key, idle, g + 1, err);
    } else {
      var (s1, e1) := GroupParse(c, s, g, key, None);
      var y := UpWhileBurst(c, s1, key, idle, g + 1, e1);
      x := CallSeq(c, s, g, key) + y;
      AddsCons(c, s, g, key, y, UpWhile(c, s1, key, idle, g + 1, e1).0);
      BurstCons(c, s, g, key, y, true, g, |c.groups|);
      if idle && IdleOnes(c, s.processed, y, g + 1) { IdleCons(c, s, g, key, y); }
    }
  }

  lemma {:induction false} DownStep(c: Config, s: PState, key: Key, g: nat, err: Err, r: (PState, Err))
    requires 0 < g <= |c.groups| && Mild(err) && r == GroupParse(c, s, g - 1, key, None)
    ensures DownWhile(c, s, key, g, err) == DownWhile(c, r.0, key, g - 1, r.1)
  {
  }

  lemma {:induction false} DownWhileBurst(c: Config, s: PState, key: Key, g: nat, err: Err) returns (x: seq<Call>)
    requires g <= |c.groups|
    ensures Adds(s, x, DownWhile(c, s, key, g, err).0) && Burst(c, x, key, false, 0, g)
    ensures Mild(DownWhile(c, s, key, g, err).1) ==> Complete(c, x, 0, g)
    ensures !Mild(err) ==> x == []
    decreases g
  {
    if g == 0 || !Mild(err) {
      x := [];
      assert s.trace + [] == s.trace;
    } else {
      var r := GroupParse(c, s, g - 1, key, None);
      DownStep(c, s, key, g, err, r);
      var y := DownWhileBurst(c, r.0, key, g - 1, r.1);
      x := CallSeq(c, s, g - 1, key) + y;
      AddsCons(c, s, g - 1, key, y, DownWhile(c, s, key, g, err).0);
      BurstCons(c, s, g - 1, key, y, false, 0, g);
    }
  }

  lemma {:induction false} UpAllBurst(c: Config, s: PState, key: Key, g: nat) returns (x: seq<Call>)
    requires g <= |c.groups|
    ensures Adds(s, x, UpAll(c, s, key, g)) && Burst(c, x, key, true, g, |c.groups|) && Complete(c, x, g, |c.groups|)
    decreases |c.groups| - g
  {
    if g == |c.groups| {
      x := [];
      assert s.trace + [] == s.trace;
    } else {
      var s1 := GroupParse(c, s, g, key, None).0;
      var y := UpAllBurst(c, s1, key, g + 1);
      x := CallSeq(c, s, g, key) + y;
      AddsCons(c, s, g, key, y, UpAll(c, s1, key, g + 1));
      BurstCons(c, s, g, key, y, true, g, |c.groups|);
    }
  }

  lemma {:induction false} DownAllBurst(c: Config, s: PState, key: Key, g: nat) returns (x: seq<Call>)
    requires g <= |c.groups|
    ensures Adds(s, x, DownAll(c, s, key, g)) && Burst(c, x, key, false, 0, g) && Complete(c, x, 0, g)
    decreases g
  {
    if g == 0 {
      x := [];
      assert s.trace + [] == s.trace;
    } else {
      var s1 := GroupParse(c, s, g - 1, key, None).0;
      var y := DownAllBurst(c, s1, key, g - 1);
      x := CallSeq(c, s, g - 1, key) + y;
      AddsCons(c, s, g - 1, key, y, DownAll(c, s1, key, g - 1));
      BurstCons(c, s, g - 1, key, y, false, 0, g);
    }
  }

  // ---------- Failures ----------

  /** No reply to the calls lo to hi of the trace is a failure for good. */
  predicate Gentle(c: Config, tr: seq<Call>, lo: nat, hi: nat)
    requires hi <= |tr|
  {
    forall i :: lo <= i < hi ==> Mild(ReplyAt(c, tr, i).err)
  }

  lemma ReplyLonger(c: Config, tr: seq<Call>, tr': seq<Call>, i: nat)
    requires tr <= tr' && i < |tr|
    ensures ReplyAt(c, tr', i) == ReplyAt(c, tr, i)
  {
    assert tr'[..i + 1] == tr[..i + 1];
  }

  lemma GentleLonger(c: Config, tr: seq<Call>, tr': seq<Call>, lo: nat, hi: nat)
    requires tr <= tr' && hi <= |tr|
    ensures Gentle(c, tr', lo, hi) <==> Gentle(c, tr, lo, hi)
  {
    forall i | lo <= i < hi ensures ReplyAt(c, tr', i) == ReplyAt(c, tr, i) { ReplyLonger(c, tr, tr', i); }
  }

  /** One call, and then the rest of a loop that stops at the first failure. */
  lemma GentleStep(c: Config, s: PState, g: nat, key: Key, r: (PState, Err))
    requires g < |c.groups|
    requires var t := GroupParse(c, s, g, key, None);
      && t.0.trace <= r.0.trace
      && if Mild(t.1) then Mild(r.1) <==> Gentle(c, r.0.trace, |t.0.trace|, |r.0.trace|) else r == t
    ensures s.trace <= r.0.trace && (Mild(r.1) <==> Gentle(c, r.0.trace, |s.trace|, |r.0.trace|))
  {
    var t := GroupParse(c, s, g, key, None);
    if c.groups[g].hasParser {
      var n := |s.trace|;
      ReplyAtSnoc(c, s.trace, Call(g, key, None, s.next));
      ReplyLonger(c, t.0.trace, r.0.trace, n);
      assert Gentle(c, r.0.trace, n, |r.0.trace|) ==> Gentle(c, r.0.trace, n + 1, |r.0.trace|);
    }
  }

  lemma {:induction false} UpStep(c: Config, s: PState, key: Key, idle: bool, g: nat, err: Err, r: (PState, Err))
    requires g < |c.groups| == |s.processed| && Mild(err) && !(idle && s.processed[g] != 0)
    requires r == GroupParse(c, s, g, key, None)
    ensures |r.0.processed| == |c.groups| && UpWhile(c, s, key, idle, g, err) == UpWhile(c, r.0, key, idle, g + 1, r.1)
    ensures !Mild(r.1) ==> UpWhile(c, s, key, idle, g, err) == r
  {
  }

  lemma {:induction false} UpWhileGentle(c: Config, s: PState, key: Key, idle: bool, g: nat, err: Err)
    requires g <= |c.groups| && |s.processed| == |c.groups| && Mild(err)
    ensures var r := UpWhile(c, s, key, idle, g, err);
      s.trace <= r.0.trace && (Mild(r.1) <==> Gentle(c, r.0.trace, |s.trace|, |r.0.trace|))
    decreases |c.groups| - g
  {
    if g < |c.groups| {
      if idle && s.processed[g] != 0 {
        UpWhileGentle(c, s, key, idle, g + 1, err);
      } else {
        var t := GroupParse(c, s, g, key, None);
        UpStep(c, s, key, idle, g, err, t);
        if Mild(t.1) { UpWhileGentle(c, t.0, key, idle, g + 1, t.1); }
        GentleStep(c, s, g, key, UpWhile(c, t.0, key, idle, g + 1, t.1));
      }
    }
  }

  lemma {:induction false} DownWhileGentle(c: Config, s: PState, key: Key, g: nat, err: Err)
    requires g <= |c.groups| && Mild(err)
    ensures var r := DownWhile(c, s, key, g, err);
      s.trace <= r.0.trace && (Mild(r.1) <==> Gentle(c, r.0.trace, |s.trace|, |r.0.trace|))
    decreases g
  {
    if g > 0 {
      var t := GroupParse(c, s, g - 1, key, None);
      DownStep(c, s, key, g, err, t);
      if Mild(t.1) { DownWhileGentle(c, t.0, key, g - 1, t.1); }
      GentleStep(c, s, g - 1, key, DownWhile(c, s, key, g, err));
    }
  }

  // ---------- The calls made while parsing ----------

  ghost predicate Extends(c: Config, tr: seq<Call>, tr': seq<Call>)
  {
    |tr| <= |tr'| && tr'[..|tr|] == tr && Body(c, tr'[|tr|..])
  }

  lemma ExtendsTrans(c: Config, t1: seq<Call>, t2: seq<Call>, t3: seq<Call>)
    requires Extends(c, t1, t2) && Extends(c, t2, t3)
    ensures Extends(c, t1, t3)
  {
    var x, y := t2[|t1|..], t3[|t2|..];
    assert t3 == t2 + y == t1 + (x + y);
    assert t3[|t1|..] == x + y;
  }

  lemma CallExtends(c: Config, s: PState, g: nat, key: Key, arg: Option<string>)
    requires g < |c.groups| && (key.OptKey? || key == ArgKey || key == ArgsKey)
    ensures Extends(c, s.trace, GroupParse(c, s, g, key, arg).0.trace)
  {
  }

  lemma {:induction false} OfferExtends(c: Config, s: PState, val: string, g: nat)
    requires g <= |c.groups|
    ensures Extends(c, s.trace, OfferArg(c, s, val, g).0.trace)
    decreases |c.groups| - g
  {
    if g < |c.groups| {
      OfferGroupExtends(c, s, val, g);
      var (s1, e, key) := OfferGroup(c, s, val, g);
      if e == BadKey {
        OfferExtends(c, s1, val, g + 1);
        ExtendsTrans(c, s.trace, s1.trace, OfferArg(c, s1, val, g + 1).0.trace);
      }
    }
  }

  lemma OfferGroupExtends(c: Config, s: PState, val: string, g: nat)
    requires g < |c.groups|
    ensures Extends(c, s.trace, OfferGroup(c, s, val, g).0.trace)
  {
    var s0 := s.(next := s.next + 1);
    var (s1, e1) := GroupParse(c, s0, g, ArgKey, Some(val));
    CallExtends(c, s0, g, ArgKey, Some(val));
    if e1 == BadKey {
      var s1' := s1.(next := s1.next - 1);
      CallExtends(c, s1', g, ArgsKey, None);
      ExtendsTrans(c, s.trace, s1.trace, GroupParse(c, s1', g, ArgsKey, None).0.trace);
    }
  }

  lemma ShortExtends(c: Config, s: PState)
    requires Inv(c, s) && s.nextchar.Some?
    ensures Extends(c, s.trace, ParseShort(c, s).0.trace)
  {
    var found := FindShort(c.groups, s.nextchar.value[0] as int, 0, 0);
    if found.Some? {
      var (g, o) := found.value;
      var rest := s.nextchar.value[1..];
      var s1 := s.(nextchar := if rest == "" || o.hasArg then None else Some(rest));
      CallExtends(c, s1, g, OptKey(o.key), None);
      CallExtends(c, s1, g, OptKey(o.key), Some(rest));
      if s.next < |s.argv| { CallExtends(c, s1.(next := s1.next + 1), g, OptKey(o.key), Some(s1.argv[s1.next])); }
    }
  }

  lemma LongExtends(c: Config, s: PState, optstart: string)
    requires 0 <= s.next < |s.argv|
    ensures Extends(c, s.trace, ParseLong(c, s, optstart).0.trace)
  {
    var s1 := s.(next := s.next + 1, badArg := false);
    var found := FindLong(c.groups, optstart, 0, 0, 0, None);
    if found.Some? {
      var (g, o) := found.value;
      CallExtends(c, s1, g, OptKey(o.key), ValueOf(optstart));
      if s1.next < |s1.argv| { CallExtends(c, s1.(next := s1.next + 1), g, OptKey(o.key), Some(s1.argv[s1.next])); }
    }
  }

  lemma ArgExtends(c: Config, s: PState, val: string)
    requires |s.processed| == |c.groups|
    ensures Extends(c, s.trace, ParseArg(c, s, val).0.trace) && |ParseArg(c, s, val).0.processed| == |c.groups|
  {
    OfferExtends(c, s, val, 0);
  }

  lemma PlainExtends(c: Config, s: PState)
    requires 0 <= s.first <= s.last <= s.next < |s.argv| && |s.processed| == |c.groups|
    ensures Extends(c, s.trace, ParsePlain(c, s).0.trace) && |ParsePlain(c, s).0.processed| == |c.groups|
  {
    if c.ordering.ReturnInOrder? { ArgExtends(c, s.(badArg := true), s.argv[s.next]); }
  }

  lemma StepExtends(c: Config, s: PState)
    requires Inv(c, s)
    ensures Extends(c, s.trace, ParseNext(c, s).0.trace) && |ParseNext(c, s).0.processed| == |c.groups|
  {
    var s1 := Clamp(s);
    Clamped(c, s);
    if s1.nextchar.Some? {
      ShortExtends(c, s1);
    } else if s1.next < |s1.argv| {
      if s1.argsOnly {
        ArgExtends(c, s1.(badArg := true), s1.argv[s1.next]);
      } else {
        match Classify(c, s1.argv[s1.next])
        case ArgToken => PlainExtends(c, s1);
        case LongToken(o) => LongExtends(c, s1, o);
        case LongOnlyToken(o) => LongExtends(c, s1, o);
        case _ =>
      }
    }
  }

  lemma {:induction false} RunExtends(c: Config, s: PState, n: nat)
    requires Inv(c, s) && Bounded(c, |s.argv|)
    ensures Extends(c, s.trace, RunN(c, s, n).0.trace) && |RunN(c, s, n).0.processed| == |c.groups|
    decreases n
  {
    StepSafe(c, s);
    StepExtends(c, s);
    var (s', e) := ParseNext(c, s);
    if n > 0 && e.Ok? {
      RunExtends(c, s', n - 1);
      ExtendsTrans(c, s.trace, s'.trace, RunN(c, s', n - 1).0.trace);
    }
  }

  // ---------- A whole parse ----------

  lemma CallKeeps(c: Config, s: PState, g: nat, key: Key)
    requires g < |c.groups| && Bounded(c, |s.argv|) && 0 <= s.next <= |s.argv|
    ensures var s' := GroupParse(c, s, g, key, None).0; SameRest(s, s') && 0 <= s'.next <= |s'.argv|
  {
  }

  lemma {:induction false} UpWhileKeeps(c: Config, s: PState, key: Key, idle: bool, g: nat, err: Err)
    requires g <= |c.groups| && |s.processed| == |c.groups| && Bounded(c, |s.argv|) && 0 <= s.next <= |s.argv|
    ensures var s' := UpWhile(c, s, key, idle, g, err).0; SameRest(s, s') && 0 <= s'.next <= |s.argv|
    decreases |c.groups| - g
  {
    if g < |c.groups| && Mild(err) {
      if idle && s.processed[g] != 0 {
        UpWhileKeeps(c, s, key, idle, g + 1, err);
      } else {
        var r := GroupParse(c, s, g, key, None);
        CallKeeps(c, s, g, key);
        UpWhileKeeps(c, r.0, key, idle, g + 1, r.1);
      }
    }
  }

  /** A parse that gets past parser_init starts in a state that satisfies the invariant. */
  lemma InitInv(c: Config, argv: seq<string>, parseArgv0: bool)
    requires Bounded(c, |argv|)
    ensures var (s, e) := Init(c, argv, parseArgv0);
      e.Ok? ==>
        && Inv(c, s) && |s.argv| == |argv| && s.next <= |argv| && s.nextchar.None?
        && s.quoted == 0 && !s.badArg && s.first == s.last == 0
  {
    var s := PState(argv, 0, 0, false, 0, 0, None, seq(|c.groups|, _ => 0), false, []);
    UpWhileKeeps(c, s, InitKey, false, 0, Ok);
  }

  /** The calls of one parse, phase by phase. */
  datatype Phases = Phases(init: seq<Call>, body: seq<Call>, noArgs: seq<Call>, end: seq<Call>, verdict: seq<Call>,
                           fini: seq<Call>)
  {
    function All(): seq<Call> { init + body + noArgs + end + verdict + fini }
  }

  /** INIT goes to every parser in pre-order; then only options and arguments; then NO_ARGS upwards, END
      downwards, either SUCCESS downwards or ERROR to every parser, and FINI to every parser downwards. */
  ghost predicate InOrder(c: Config, p: Phases)
  {
    var n := |c.groups|;
    && Burst(c, p.init, InitKey, true, 0, n) && Complete(c, p.init, 0, n)
    && Body(c, p.body)
    && Burst(c, p.noArgs, NoArgsKey, true, 0, n)
    && Burst(c, p.end, EndKey, false, 0, n)
    && (|| Burst(c, p.verdict, SuccessKey, false, 0, n)
        || (Burst(c, p.verdict, ErrorKey, true, 0, n) && Complete(c, p.verdict, 0, n)))
    && Burst(c, p.fini, FiniKey, false, 0, n) && Complete(c, p.fini, 0, n)
  }

  /** The main loop has left nothing to report, and no word. */
  predicate UsedUp(s: PState, err: Err)
  {
    (err.Ok? || (err == BadKey && s.badArg)) && s.next == |s.argv|
  }

  /** No round ended in error and every word was used, or the caller takes the unused ones back. */
  predicate Settled(s: PState, err: Err, endIndex: bool)
  {
    (err.Ok? || (err == BadKey && s.badArg)) && (s.next == |s.argv| || endIndex)
  }

  /** Whom parser_finalize tells what, from the state s at the end of the main loop on. NO_ARGS and END are for
      parses that have used up all words. Up to the first failure for good NO_ARGS goes to the parsers that are
      idle, then END to all. SUCCESS goes to all, again up to a failure, unless there is an error to report: one
      of the main loop, one of these, or words left that the caller does not take back. */
  ghost predicate Told(c: Config, s: PState, err: Err, endIndex: bool, na: seq<Call>, end: seq<Call>,
                       verdict: seq<Call>)
    requires |s.processed| == |c.groups|
  {
    var n, t0 := |c.groups|, s.trace;
    var t1 := t0 + na;
    var t2 := t1 + end;
    var t3 := t2 + verdict;
    && (!UsedUp(s, err) ==> na == [] && end == [])
    && (UsedUp(s, err) && Gentle(c, t1, |t0|, |t1|) ==> IdleOnes(c, s.processed, na, 0))
    && (UsedUp(s, err) && Gentle(c, t2, |t0|, |t2|) ==> Complete(c, end, 0, n))
    && (!Gentle(c, t1, |t0|, |t1|) ==> end == [])
    && if Settled(s, err, endIndex) && Gentle(c, t2, |t0|, |t2|)
       then Burst(c, verdict, SuccessKey, false, 0, n) && (Gentle(c, t3, |t2|, |t3|) ==> Complete(c, verdict, 0, n))
       else Burst(c, verdict, ErrorKey, true, 0, n) && Complete(c, verdict, 0, n)
  }

  lemma GentleBoth(c: Config, t0: seq<Call>, t1: seq<Call>, t2: seq<Call>)
    requires t0 <= t1 <= t2
    ensures Gentle(c, t2, |t0|, |t2|) <==> Gentle(c, t1, |t0|, |t1|) && Gentle(c, t2, |t1|, |t2|)
  {
    GentleLonger(c, t1, t2, |t0|, |t1|);
  }

  lemma SettleCalls(c: Config, s: PState, err: Err, endIndex: bool) returns (na: seq<Call>, end: seq<Call>)
    requires |s.processed| == |c.groups|
    ensures Adds(s, na + end, Settle(c, s, err, endIndex).0)
    ensures Burst(c, na, NoArgsKey, true, 0, |c.groups|) && Burst(c, end, EndKey, false, 0, |c.groups|)
    ensures var t1, t2 := s.trace + na, s.trace + na + end;
      && (!UsedUp(s, err) ==> na == [] && end == [])
      && (UsedUp(s, err) && Gentle(c, t1, |s.trace|, |t1|) ==> IdleOnes(c, s.processed, na, 0))
      && (UsedUp(s, err) && Gentle(c, t2, |s.trace|, |t2|) ==> Complete(c, end, 0, |c.groups|))
      && (!Gentle(c, t1, |s.trace|, |t1|) ==> end == [])
      && (Settle(c, s, err, endIndex).1.Ok? <==> Settled(s, err, endIndex) && Gentle(c, t2, |s.trace|, |t2|))
  {
    na, end := [], [];
    assert s.trace + ([] + []) == s.trace;
    if UsedUp(s, err) {
      var r := UpWhile(c, s, NoArgsKey, true, 0, Ok);
      na := UpWhileBurst(c, s, NoArgsKey, true, 0, Ok);
      UpWhileGentle(c, s, NoArgsKey, true, 0, Ok);
      end := DownWhileBurst(c, r.0, EndKey, |c.groups|, r.1);
      if Mild(r.1) { DownWhileGentle(c, r.0, EndKey, |c.groups|, r.1); }
      var t2 := s.trace + na + end;
      GentleBoth(c, s.trace, s.trace + na, t2);
      assert s.trace + (na + end) == t2;
    }
  }

  lemma FinalCalls(c: Config, s: PState, err: Err, endIndex: bool)
    returns (na: seq<Call>, end: seq<Call>, verdict: seq<Call>, fini: seq<Call>)
    requires |s.processed| == |c.groups|
    ensures Finalize(c, s, err, endIndex).0.trace == s.trace + na + end + verdict + fini
    ensures Burst(c, na, NoArgsKey, true, 0, |c.groups|) && Burst(c, end, EndKey, false, 0, |c.groups|)
    ensures Told(c, s, err, endIndex, na, end, verdict)
    ensures Burst(c, fini, FiniKey, false, 0, |c.groups|) && Complete(c, fini, 0, |c.groups|)
  {
    var n := |c.groups|;
    na, end := SettleCalls(c, s, err, endIndex);
    var (s1, e1) := Settle(c, s, err, endIndex);
    assert s.trace + (na + end) == s.trace + na + end;
    var s2;
    if e1.Ok? {
      verdict := DownWhileBurst(c, s1, SuccessKey, n, Ok);
      DownWhileGentle(c, s1, SuccessKey, n, Ok);
      s2 := DownWhile(c, s1, SuccessKey, n, Ok).0;
    } else {
      verdict := UpAllBurst(c, s1, ErrorKey, 0);
      s2 := UpAll(c, s1, ErrorKey, 0);
    }
    fini := DownAllBurst(c, s2, FiniKey, n);
  }

  /** parser_init and up to n rounds of the main loop. */
  ghost function MainLoop(c: Config, argv: seq<string>, parseArgv0: bool, n: nat): (r: (PState, Err))
    requires Bounded(c, |argv|) && Init(c, argv, parseArgv0).1.Ok?
    ensures |r.0.processed| == |c.groups|
  {
    InitInv(c, argv, parseArgv0);
    RunExtends(c, Init(c, argv, parseArgv0).0, n);
    RunN(c, Init(c, argv, parseArgv0).0, n)
  }

  /** argp_parse, for a main loop that ends within n rounds. */
  ghost function WholeParse(c: Config, argv: seq<string>, parseArgv0: bool, n: nat, endIndex: bool): (PState, Err)
    requires Bounded(c, |argv|) && Init(c, argv, parseArgv0).1.Ok?
  {
    var (s, e) := MainLoop(c, argv, parseArgv0, n);
    Finalize(c, s, e, endIndex)
  }

  lemma InitCalls(c: Config, argv: seq<string>, parseArgv0: bool) returns (init: seq<Call>)
    requires Init(c, argv, parseArgv0).1.Ok?
    ensures Init(c, argv, parseArgv0).0.trace == init
    ensures Burst(c, init, InitKey, true, 0, |c.groups|) && Complete(c, init, 0, |c.groups|)
  {
    var s := PState(argv, 0, 0, false, 0, 0, None, seq(|c.groups|, _ => 0), false, []);
    init := UpWhileBurst(c, s, InitKey, false, 0, Ok);
    assert Init(c, argv, parseArgv0).0.trace == init;
  }

  lemma BodyCalls(c: Config, argv: seq<string>, parseArgv0: bool, n: nat, init: seq<Call>) returns (body: seq<Call>)
    requires Bounded(c, |argv|) && Init(c, argv, parseArgv0).1.Ok? && Init(c, argv, parseArgv0).0.trace == init
    ensures MainLoop(c, argv, parseArgv0, n).0.trace == init + body && Body(c, body)
  {
    InitInv(c, argv, parseArgv0);
    RunExtends(c, Init(c, argv, parseArgv0).0, n);
    body := MainLoop(c, argv, parseArgv0, n).0.trace[|init|..];
  }

  /** Every parse that gets past parser_init and whose main loop ends goes through the phases in order. */
  lemma LifeCycle(c: Config, argv: seq<string>, parseArgv0: bool, n: nat, endIndex: bool) returns (p: Phases)
    requires Bounded(c, |argv|) && Init(c, argv, parseArgv0).1.Ok? && !MainLoop(c, argv, parseArgv0, n).1.Ok?
    ensures WholeParse(c, argv, parseArgv0, n, endIndex).0.trace == p.All() && InOrder(c, p)
    ensures var (s, e) := MainLoop(c, argv, parseArgv0, n);
      && Init(c, argv, parseArgv0).0.trace == p.init && s.trace == p.init + p.body
      && Told(c, s, e, endIndex, p.noArgs, p.end, p.verdict)
  {
    var init := InitCalls(c, argv, parseArgv0);
    var body := BodyCalls(c, argv, parseArgv0, n, init);
    var r := MainLoop(c, argv, parseArgv0, n);
    var na, end, verdict, fini := FinalCalls(c, r.0, r.1, endIndex);
    p := Phases(init, body, na, end, verdict, fini);
  }

  // ---------- What one parser sees ----------

  /** The states of the automaton for INIT (opt|ARG|ARGS)* NO_ARGS? END? (SUCCESS|ERROR)? FINI. */
  datatype Stage = Start | Parsing | Idle | Ended | Judged | Finished | Wrong

  function Advance(st: Stage, key: Key): Stage
  {
    match key
    case InitKey => if st == Start then Parsing else Wrong
    case OptKey(_) => if st == Parsing then Parsing else Wrong
    case ArgKey => if st == Parsing then Parsing else Wrong
    case ArgsKey => if st == Parsing then Parsing else Wrong
    case NoArgsKey => if st == Parsing then Idle else Wrong
    case EndKey => if st == Parsing || st == Idle then Ended else Wrong
    case SuccessKey => if st == Parsing || st == Idle || st == Ended then Judged else Wrong
    case ErrorKey => if st == Parsing || st == Idle || st == Ended then Judged else Wrong
    case FiniKey => if st == Parsing || st == Idle || st == Ended || st == Judged then Finished else Wrong
  }

  /** The stage of parser g after the calls tr, coming from st. */
  function StageOf(tr: seq<Call>, g: nat, st: Stage): Stage
  {
    if tr == [] then st
    else
      var st' := StageOf(tr[..|tr| - 1], g, st);
      if tr[|tr| - 1].group == g then Advance(st', tr[|tr| - 1].key) else st'
  }

  lemma {:induction false} StageConcat(x: seq<Call>, y: seq<Call>, g: nat, st: Stage)
    ensures StageOf(x + y, g, st) == StageOf(y, g, StageOf(x, g, st))
    decreases |y|
  {
    if y == [] {
      assert x + y == x;
    } else {
      assert (x + y)[..|x + y| - 1] == x + y[..|y| - 1];
      StageConcat(x, y[..|y| - 1], g, st);
    }
  }

  lemma {:induction false} BurstStage(c: Config, x: seq<Call>, key: Key, up: bool, lo: int, hi: int, g: nat, st: Stage)
    requires Burst(c, x, key, up, lo, hi)
    ensures StageOf(x, g, st) == if Called(x, g) then Advance(st, key) else st
    decreases |x|
  {
    if x != [] {
      var y := x[..|x| - 1];
      BurstStage(c, y, key, up, lo, hi, g, st);
      if x[|x| - 1].group == g {
        assert !Called(y, g);
      } else {
        forall i | 0 <= i < |x| && x[i].group == g ensures Called(y, g) { assert y[i].group == g; }
      }
    }
  }

  lemma {:induction false} BodyStage(c: Config, x: seq<Call>, g: nat)
    requires Body(c, x)
    ensures StageOf(x, g, Parsing) == Parsing
    decreases |x|
  {
    if x != [] { BodyStage(c, x[..|x| - 1], g); }
  }

  lemma {:induction false} StageChain(p: Phases, g: nat)
    ensures StageOf(p.All(), g, Start) ==
      StageOf(p.fini, g, StageOf(p.verdict, g, StageOf(p.end, g, StageOf(p.noArgs, g,
        StageOf(p.body, g, StageOf(p.init, g, Start))))))
  {
    StageConcat(p.init, p.body, g, Start);
    StageConcat(p.init + p.body, p.noArgs, g, Start);
    StageConcat(p.init + p.body + p.noArgs, p.end, g, Start);
    StageConcat(p.init + p.body + p.noArgs + p.end, p.verdict, g, Start);
    StageConcat(p.init + p.body + p.noArgs + p.end + p.verdict, p.fini, g, Start);
  }

  /** The stages that a phase with at most one call per parser can lead to. */
  lemma PhaseStage(c: Config, x: seq<Call>, key: Key, up: bool, g: nat, st: Stage) returns (st': Stage)
    requires Burst(c, x, key, up, 0, |c.groups|)
    ensures st' == StageOf(x, g, st) && (st' == st || st' == Advance(st, key))
    ensures Called(x, g) ==> st' == Advance(st, key)
  {
    BurstStage(c, x, key, up, 0, |c.groups|, g, st);
    st' := StageOf(x, g, st);
  }

  lemma VerdictStage(c: Config, p: Phases, g: nat, st: Stage) returns (st': Stage)
    requires InOrder(c, p) && st in {Parsing, Idle, Ended}
    ensures st' == StageOf(p.verdict, g, st) && st' in {Parsing, Idle, Ended, Judged}
  {
    if Burst(c, p.verdict, SuccessKey, false, 0, |c.groups|) {
      st' := PhaseStage(c, p.verdict, SuccessKey, false, g, st);
    } else {
      st' := PhaseStage(c, p.verdict, ErrorKey, true, g, st);
    }
  }

  lemma MiddleStages(c: Config, p: Phases, g: nat) returns (st: Stage)
    requires InOrder(c, p)
    ensures st == StageOf(p.verdict, g, StageOf(p.end, g, StageOf(p.noArgs, g, Parsing)))
    ensures st in {Parsing, Idle, Ended, Judged}
  {
    st := PhaseStage(c, p.noArgs, NoArgsKey, true, g, Parsing);
    st := PhaseStage(c, p.end, EndKey, false, g, st);
    st := VerdictStage(c, p, g, st);
  }

  lemma {:induction false} InitStage(c: Config, p: Phases, g: nat)
    requires InOrder(c, p) && g < |c.groups| && c.groups[g].hasParser
    ensures StageOf(p.init, g, Start) == Parsing
  {
    assert Called(p.init, g);
    var _ := PhaseStage(c, p.init, InitKey, true, g, Start);
  }

  lemma {:induction false} FiniStage(c: Config, p: Phases, g: nat, st: Stage)
    requires InOrder(c, p) && g < |c.groups| && c.groups[g].hasParser && st in {Parsing, Idle, Ended, Judged}
    ensures StageOf(p.fini, g, st) == Finished
  {
    assert Called(p.fini, g);
    var _ := PhaseStage(c, p.fini, FiniKey, false, g, st);
  }

  /** Each parser is called with a sequence of keys in INIT (opt|ARG|ARGS)* NO_ARGS? END? (SUCCESS|ERROR)? FINI. */
  lemma {:induction false} KeysOfOneParser(c: Config, p: Phases, g: nat)
    requires InOrder(c, p) && g < |c.groups| && c.groups[g].hasParser
    ensures StageOf(p.All(), g, Start) == Finished
  {
    StageChain(p, g);
    InitStage(c, p, g);
    BodyStage(c, p.body, g);
    var st := MiddleStages(c, p, g);
    FiniStage(c, p, g, st);
  }

  predicate Free(x: seq<Call>, key: Key)
  {
    forall i :: 0 <= i < |x| ==> x[i].key != key
  }

  /** All calls with that key are in x. */
  lemma OnlyIn(c: Config, a: seq<Call>, x: seq<Call>, b: seq<Call>, key: Key, up: bool, i: nat, j: nat)
    requires Free(a, key) && Free(b, key) && Burst(c, x, key, up, 0, |c.groups|)
    requires i < j < |a + x + b| && (a + x + b)[i].key == key == (a + x + b)[j].key
    ensures if up then (a + x + b)[i].group < (a + x + b)[j].group else (a + x + b)[i].group > (a + x + b)[j].group
  {
    var f := a + x + b;
    assert |a| <= i < j < |a| + |x| && f[i] == x[i - |a|] && f[j] == x[j - |a|];
  }

  /** Over the whole parse, INIT goes through the parsers in pre-order and END, SUCCESS and FINI in the
      reverse order; SUCCESS and ERROR do not both occur. */
  lemma OrderOfKeys(c: Config, p: Phases, i: nat, j: nat)
    requires InOrder(c, p) && i < j < |p.All()|
    ensures p.All()[i].key == p.All()[j].key == InitKey ==> p.All()[i].group < p.All()[j].group
    ensures p.All()[i].key == p.All()[j].key && p.All()[i].key in {EndKey, SuccessKey, FiniKey} ==>
              p.All()[i].group > p.All()[j].group
    ensures {p.All()[i].key, p.All()[j].key} != {SuccessKey, ErrorKey}
  {
    var k := p.All()[i].key;
    if k == p.All()[j].key {
      if k == InitKey { OrderOfInit(c, p, i, j); }
      if k == EndKey { OrderOfEnd(c, p, i, j); }
      if k == SuccessKey { OrderOfSuccess(c, p, i, j); }
      if k == FiniKey { OrderOfFini(c, p, i, j); }
    }
    OneVerdict(c, p);
  }

  lemma OneVerdict(c: Config, p: Phases)
    requires InOrder(c, p)
    ensures Free(p.All(), SuccessKey) || Free(p.All(), ErrorKey)
  {
  }

  lemma OrderOfInit(c: Config, p: Phases, i: nat, j: nat)
    requires InOrder(c, p) && i < j < |p.All()| && p.All()[i].key == p.All()[j].key == InitKey
    ensures p.All()[i].group < p.All()[j].group
  {
    AfterInit(c, p, i);
    AfterInit(c, p, j);
  }

  lemma AfterInit(c: Config, p: Phases, k: nat)
    requires InOrder(c, p) && k < |p.All()|
    ensures k < |p.init| ==> p.All()[k] == p.init[k]
    ensures k >= |p.init| ==> p.All()[k].key != InitKey
  {
  }

  lemma OrderOfEnd(c: Config, p: Phases, i: nat, j: nat)
    requires InOrder(c, p) && i < j < |p.All()| && p.All()[i].key == p.All()[j].key == EndKey
    ensures p.All()[i].group > p.All()[j].group
  {
    var a, b := p.init + p.body + p.noArgs, p.verdict + p.fini;
    assert p.All() == a + p.end + b;
    OnlyIn(c, a, p.end, b, EndKey, false, i, j);
  }

  lemma OrderOfSuccess(c: Config, p: Phases, i: nat, j: nat)
    requires InOrder(c, p) && i < j < |p.All()| && p.All()[i].key == p.All()[j].key == SuccessKey
    ensures p.All()[i].group > p.All()[j].group
  {
    var a := p.init + p.body + p.noArgs + p.end;
    if Burst(c, p.verdict, SuccessKey, false, 0, |c.groups|) {
      OnlyIn(c, a, p.verdict, p.fini, SuccessKey, false, i, j);
    } else {
      assert false;
    }
  }

  lemma OrderOfFini(c: Config, p: Phases, i: nat, j: nat)
    requires InOrder(c, p) && i < j < |p.All()| && p.All()[i].key == p.All()[j].key == FiniKey
    ensures p.All()[i].group > p.All()[j].group
  {
    var a := p.init + p.body + p.noArgs + p.end + p.verdict;
    assert p.All() == a + p.fini + [];
    OnlyIn(c, a, p.fini, [], FiniKey, false, i, j);
  }

  /** ERROR is not the last call: FINI still goes to every parser. */
  lemma FiniAfterError(c: Config, p: Phases, i: nat, g: nat) returns (j: nat)
    requires InOrder(c, p) && i < |p.All()| && p.All()[i].key == ErrorKey && g < |c.groups| && c.groups[g].hasParser
    ensures i < j < |p.All()| && p.All()[j].key == FiniKey && p.All()[j].group == g
  {
    var a := p.init + p.body + p.noArgs + p.end + p.verdict;
    assert p.All() == a + p.fini;
    assert Called(p.fini, g);
    var k :| 0 <= k < |p.fini| && p.fini[k].group == g;
    j := |a| + k;
    assert p.All()[j] == p.fini[k];
  }
}

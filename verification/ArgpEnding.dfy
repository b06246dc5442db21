/** Which parsers hear at the end of a parse that they got no argument: those that took no word. */
module ArgpEnding {
  import opened Options
  import opened ArgpTypes
  import opened ArgpMachine
  import opened ArgpSafety
  import opened ArgpLifecycle

  // ---------- One round ----------

  /** The last call of a trace offers an argument to group g. */
  predicate LastOffer(tr: seq<Call>, g: nat)
  {
    tr != [] && var call := tr[|tr| - 1]; call.group == g && (call.key == ArgKey || call.key == ArgsKey)
  }

  /** In this round group g takes words: the last call offers it an argument, the round goes on, and state.next
      has moved. */
  ghost predicate Takes(c: Config, s: PState, g: nat)
    requires Inv(c, s)
  {
    var (t, e) := ParseNext(c, s);
    e.Ok? && |t.trace| > |s.trace| && LastOffer(t.trace, g) && t.next > s.next
  }

  /** Group g gets credit for the words by which state.next has moved from at, and nobody else. */
  predicate Credited(s: PState, s': PState, at: int, g: nat)
  {
    && |s'.processed| == |s.processed|
    && forall h :: 0 <= h < |s.processed| ==>
      s'.processed[h] == s.processed[h] + if h == g && s'.next > at then s'.next - at else 0
  }

  lemma {:induction false} OfferLast(c: Config, s: PState, val: string, g: nat)
    requires g <= |c.groups|
    ensures var r := OfferArg(c, s, val, g);
      && s.trace <= r.0.trace
      && (r.1 != BadKey ==> |r.0.trace| > |s.trace| && LastOffer(r.0.trace, r.2))
    decreases |c.groups| - g
  {
    if g < |c.groups| {
      var (s1, e, key) := OfferGroup(c, s, val, g);
      if e == BadKey { OfferLast(c, s1, val, g + 1); }
    }
  }

  lemma ArgCredits(c: Config, s: PState, val: string)
    requires |s.processed| == |c.groups|
    ensures var (t, e) := ParseArg(c, s, val);
      if e.Ok? then
        && |t.trace| > |s.trace| && t.trace[|t.trace| - 1].group < |c.groups|
        && LastOffer(t.trace, t.trace[|t.trace| - 1].group)
        && Credited(s, t, s.next, t.trace[|t.trace| - 1].group)
      else t.processed == s.processed
  {
    OfferLast(c, s, val, 0);
  }

  /** No argument has been offered. */
  predicate Quiet(s: PState, t: PState)
  {
    && t.processed == s.processed && s.trace <= t.trace
    && (t.trace == s.trace || (|t.trace| == |s.trace| + 1 && t.trace[|s.trace|].key.OptKey?))
  }

  lemma ShortQuiet(c: Config, s: PState)
    requires s.nextchar.Some? && |s.nextchar.value| > 0 && 0 <= s.next <= |s.argv|
    ensures Quiet(s, ParseShort(c, s).0)
  {
  }

  lemma LongQuiet(c: Config, s: PState, o: string)
    requires 0 <= s.next < |s.argv|
    ensures Quiet(s, ParseLong(c, s, o).0)
  {
  }

  /** The round offers an argument to the groups. */
  predicate Offers(c: Config, s: PState)
    requires Inv(c, s)
  {
    var x := Clamp(s);
    && x.nextchar.None? && x.next < |x.argv|
    && (x.argsOnly || (Classify(c, x.argv[x.next]).ArgToken? && c.ordering.ReturnInOrder?))
  }

  lemma PlainQuiet(c: Config, s: PState)
    requires 0 <= s.first <= s.last <= s.next < |s.argv| && |s.processed| == |c.groups| && !c.ordering.ReturnInOrder?
    ensures Quiet(s, ParsePlain(c, s).0)
  {
  }

  lemma QuoteQuiet(s: PState)
    requires 0 <= s.first <= s.last <= s.next < |s.argv|
    ensures Quiet(s, ParseQuote(s))
  {
  }

  lemma WordQuiet(c: Config, s: PState)
    requires Inv(c, s) && Clamp(s).nextchar.None? && Clamp(s).next < |s.argv| && !Offers(c, s)
    ensures Quiet(s, ParseNext(c, s).0)
  {
    var x := Clamp(s);
    var w := Classify(c, x.argv[x.next]);
    if w.ArgToken? {
      PlainQuiet(c, x);
    } else if w.QuoteToken? {
      QuoteQuiet(x);
    } else if w.LongToken? || w.LongOnlyToken? {
      LongQuiet(c, x, w.opt);
    }
  }

  lemma OtherQuiet(c: Config, s: PState)
    requires Inv(c, s) && !Offers(c, s)
    ensures Quiet(s, ParseNext(c, s).0)
  {
    var x := Clamp(s);
    if x.nextchar.Some? {
      ShortQuiet(c, x);
    } else if x.next < |x.argv| {
      WordQuiet(c, s);
    }
  }

  lemma OfferRound(c: Config, s: PState)
    requires Inv(c, s) && Offers(c, s)
    ensures var x := Clamp(s).(badArg := true);
      x.next == s.next && x.trace == s.trace && x.processed == s.processed
      && ParseNext(c, s) == ParseArg(c, x, x.argv[x.next])
  {
  }

  /** A round adds to the counter of the group that takes words, as many as it takes, and changes no other. */
  lemma RoundCredits(c: Config, s: PState, g: nat)
    requires Inv(c, s) && g < |c.groups|
    ensures var t := ParseNext(c, s).0;
      && |t.processed| == |c.groups|
      && t.processed[g] == s.processed[g] + if Takes(c, s, g) then t.next - s.next else 0
  {
    if Offers(c, s) {
      OfferRound(c, s);
      var x := Clamp(s).(badArg := true);
      ArgCredits(c, x, x.argv[x.next]);
    } else {
      OtherQuiet(c, s);
    }
  }

  /** An argument that is accepted leaves options over only if words were taken for it. */
  lemma TakenBack(c: Config, s: PState)
    requires Inv(c, s) && Offers(c, s) && ParseNext(c, s).1.Ok?
    ensures ParseNext(c, s).0.argsOnly <==> s.argsOnly && s.next >= s.quoted && ParseNext(c, s).0.next > s.next
  {
    OfferRound(c, s);
    var x := Clamp(s).(badArg := true);
    OfferKeeps(c, x, x.argv[x.next], 0);
  }

  // ---------- Many rounds ----------

  ghost predicate TakesAt(c: Config, s: PState, k: nat, g: nat)
    requires Inv(c, s) && Bounded(c, |s.argv|)
  {
    var (r, e) := RunN(c, s, k); e.Ok? && Inv(c, r) && Takes(c, r, g)
  }

  /** Group g takes words in one of the first n rounds. */
  ghost predicate Took(c: Config, s: PState, n: nat, g: nat)
    requires Inv(c, s) && Bounded(c, |s.argv|)
  {
    exists k :: 0 <= k < n && TakesAt(c, s, k, g)
  }

  lemma {:induction false} TakesLater(c: Config, s: PState, k: nat, g: nat)
    requires Inv(c, s) && Bounded(c, |s.argv|)
    ensures TakesAt(c, s, 0, g) <==> Takes(c, s, g)
    ensures ParseNext(c, s).1.Ok? ==> var s' := ParseNext(c, s).0;
      Inv(c, s') && |s'.argv| == |s.argv| && (TakesAt(c, s, k + 1, g) <==> TakesAt(c, s', k, g))
    ensures !ParseNext(c, s).1.Ok? ==> !TakesAt(c, s, k + 1, g)
  {
    OneRound(c, s, k + 1);
  }

  lemma {:induction false} TookFirst(c: Config, s: PState, n: nat, g: nat)
    requires Inv(c, s) && Bounded(c, |s.argv|) && n > 0
    ensures ParseNext(c, s).1.Ok? ==> var s' := ParseNext(c, s).0;
      Inv(c, s') && |s'.argv| == |s.argv| && (Took(c, s, n, g) <==> Takes(c, s, g) || Took(c, s', n - 1, g))
    ensures !ParseNext(c, s).1.Ok? ==> !Took(c, s, n, g)
  {
    TakesLater(c, s, 0, g);
    forall k | 0 < k < n ensures
      if ParseNext(c, s).1.Ok? then TakesAt(c, s, k, g) <==> TakesAt(c, ParseNext(c, s).0, k - 1, g)
      else !TakesAt(c, s, k, g)
    {
      TakesLater(c, s, k - 1, g);
    }
    if ParseNext(c, s).1.Ok? && Took(c, ParseNext(c, s).0, n - 1, g) {
      var k :| 0 <= k < n - 1 && TakesAt(c, ParseNext(c, s).0, k, g);
      assert TakesAt(c, s, k + 1, g);
    }
  }

  /** The counters never go down, and they are zero for just those that have taken no word. */
  lemma {:induction false} CounterHistory(c: Config, s: PState, n: nat, g: nat)
    requires Inv(c, s) && Bounded(c, |s.argv|) && g < |c.groups|
    ensures var t := RunN(c, s, n).0;
      && |t.processed| == |c.groups| && t.processed[g] >= s.processed[g]
      && (t.processed[g] == s.processed[g] <==> !Took(c, s, n, g))
    decreases n
  {
    if n > 0 {
      OneRound(c, s, n);
      RoundCredits(c, s, g);
      TookFirst(c, s, n, g);
      if ParseNext(c, s).1.Ok? { CounterHistory(c, ParseNext(c, s).0, n - 1, g); }
    }
  }

  // ---------- In the trace ----------

  /** Among the calls lo to hi there is one that offers an argument to group g, and g accepts. */
  ghost predicate Accepts(c: Config, tr: seq<Call>, lo: nat, hi: nat, g: nat)
    requires hi <= |tr|
  {
    exists i :: lo <= i < hi && AcceptsAt(c, tr, i, g)
  }

  predicate AcceptsAt(c: Config, tr: seq<Call>, i: nat, g: nat)
    requires i < |tr|
  {
    tr[i].group == g && (tr[i].key == ArgKey || tr[i].key == ArgsKey) && ReplyAt(c, tr, i).err.Ok?
  }

  lemma AcceptsLonger(c: Config, tr: seq<Call>, tr': seq<Call>, lo: nat, hi: nat, g: nat)
    requires tr <= tr' && hi <= |tr|
    ensures Accepts(c, tr', lo, hi, g) <==> Accepts(c, tr, lo, hi, g)
  {
    forall i | lo <= i < hi ensures AcceptsAt(c, tr', i, g) <==> AcceptsAt(c, tr, i, g) { ReplyLonger(c, tr, tr', i); }
  }

  /** An offer is accepted by its last call, if at all. */
  ghost predicate LastAccepts(c: Config, tr: seq<Call>, lo: nat, ok: bool)
  {
    forall i :: lo <= i < |tr| ==> (ReplyAt(c, tr, i).err.Ok? <==> ok && i == |tr| - 1)
  }

  lemma OneReply(c: Config, s: PState, g: nat, key: Key, arg: Option<string>, tr: seq<Call>)
    requires g < |c.groups| && c.groups[g].hasParser && GroupParse(c, s, g, key, arg).0.trace <= tr
    ensures |s.trace| < |tr| && ReplyAt(c, tr, |s.trace|).err == GroupParse(c, s, g, key, arg).1
  {
    ReplyAtSnoc(c, s.trace, Call(g, key, arg, s.next));
    ReplyLonger(c, GroupParse(c, s, g, key, arg).0.trace, tr, |s.trace|);
  }

  lemma GroupReplies(c: Config, s: PState, val: string, g: nat, tr: seq<Call>)
    requires g < |c.groups| && OfferGroup(c, s, val, g).0.trace <= tr
    ensures s.trace <= tr
    ensures var (t, e, key) := OfferGroup(c, s, val, g);
      forall i :: |s.trace| <= i < |t.trace| ==> ReplyAt(c, tr, i).err == if i == |t.trace| - 1 then e else BadKey
  {
    if c.groups[g].hasParser {
      var t := s.(next := s.next + 1);
      var (s1, e1) := GroupParse(c, t, g, ArgKey, Some(val));
      OneReply(c, t, g, ArgKey, Some(val), tr);
      if e1 == BadKey { OneReply(c, s1.(next := s1.next - 1), g, ArgsKey, None, tr); }
    }
  }

  lemma {:induction false} OfferReplies(c: Config, s: PState, val: string, g: nat)
    requires g <= |c.groups|
    ensures var r := OfferArg(c, s, val, g); s.trace <= r.0.trace && LastAccepts(c, r.0.trace, |s.trace|, r.1.Ok?)
    decreases |c.groups| - g
  {
    if g < |c.groups| {
      var (s1, e, key) := OfferGroup(c, s, val, g);
      if e == BadKey {
        OfferReplies(c, s1, val, g + 1);
        OfferLast(c, s1, val, g + 1);
      }
      GroupReplies(c, s, val, g, OfferArg(c, s, val, g).0.trace);
    }
  }

  lemma AcceptedLast(c: Config, tr: seq<Call>, lo: nat, ok: bool, g: nat)
    requires LastAccepts(c, tr, lo, ok) && (ok ==> lo < |tr|)
    ensures Accepts(c, tr, lo, |tr|, g) <==> ok && LastOffer(tr, g)
  {
    if ok && LastOffer(tr, g) { assert AcceptsAt(c, tr, |tr| - 1, g); }
  }

  lemma ArgAccepts(c: Config, s: PState, val: string, g: nat)
    requires |s.processed| == |c.groups| && Forward(c) && s.next < |s.argv|
    ensures var (t, e) := ParseArg(c, s, val);
      && s.trace <= t.trace && (e.Ok? ==> |t.trace| > |s.trace| && t.next > s.next)
      && (Accepts(c, t.trace, |s.trace|, |t.trace|, g) <==> e.Ok? && LastOffer(t.trace, g))
  {
    OfferReplies(c, s, val, 0);
    OfferLast(c, s, val, 0);
    OfferForward(c, s, val, 0, s.next);
    var (t, e) := ParseArg(c, s, val);
    AcceptedLast(c, t.trace, |s.trace|, e.Ok?, g);
  }

  lemma QuietAccepts(c: Config, s: PState, t: PState, g: nat)
    requires Quiet(s, t)
    ensures !Accepts(c, t.trace, |s.trace|, |t.trace|, g) && !(|t.trace| > |s.trace| && LastOffer(t.trace, g))
  {
  }

  /** For callbacks that never move state.next back, to take words is to accept an offer. */
  lemma RoundAccepts(c: Config, s: PState, g: nat)
    requires Inv(c, s) && Forward(c)
    ensures var t := ParseNext(c, s).0;
      s.trace <= t.trace && (Accepts(c, t.trace, |s.trace|, |t.trace|, g) <==> Takes(c, s, g))
  {
    if Offers(c, s) {
      OfferRound(c, s);
      var x := Clamp(s).(badArg := true);
      ArgAccepts(c, x, x.argv[x.next], g);
    } else {
      OtherQuiet(c, s);
      QuietAccepts(c, s, ParseNext(c, s).0, g);
    }
  }

  lemma {:induction false} TookIsAccepted(c: Config, s: PState, n: nat, g: nat)
    requires Inv(c, s) && Bounded(c, |s.argv|) && Forward(c)
    ensures var tr := RunN(c, s, n).0.trace;
      s.trace <= tr && (Accepts(c, tr, |s.trace|, |tr|, g) <==> Took(c, s, n, g))
    decreases n
  {
    if n > 0 {
      OneRound(c, s, n);
      RoundAccepts(c, s, g);
      TookFirst(c, s, n, g);
      var t := ParseNext(c, s).0.trace;
      if ParseNext(c, s).1.Ok? {
        TookIsAccepted(c, ParseNext(c, s).0, n - 1, g);
        AcceptsEither(c, s.trace, t, RunN(c, s, n).0.trace, g);
      }
    }
  }

  lemma AcceptsEither(c: Config, t0: seq<Call>, t1: seq<Call>, t2: seq<Call>, g: nat)
    requires t0 <= t1 <= t2
    ensures Accepts(c, t2, |t0|, |t2|, g) <==> Accepts(c, t1, |t0|, |t1|, g) || Accepts(c, t2, |t1|, |t2|, g)
  {
    AcceptsLonger(c, t1, t2, |t0|, |t1|, g);
    if Accepts(c, t2, |t0|, |t2|, g) {
      var i :| |t0| <= i < |t2| && AcceptsAt(c, t2, i, g);
      assert i < |t1| ==> Accepts(c, t2, |t0|, |t1|, g);
    }
  }

  // ---------- Whole parses ----------

  lemma StartZero(c: Config, argv: seq<string>, parseArgv0: bool)
    requires Bounded(c, |argv|) && Init(c, argv, parseArgv0).1.Ok?
    ensures var s := Init(c, argv, parseArgv0).0;
      Inv(c, s) && |s.argv| == |argv| && forall g :: 0 <= g < |c.groups| ==> s.processed[g] == 0
  {
    InitInv(c, argv, parseArgv0);
    var s := PState(argv, 0, 0, false, 0, 0, None, seq(|c.groups|, _ => 0), false, []);
    var x := UpWhileBurst(c, s, InitKey, false, 0, Ok);
  }

  /** Group g takes words in the first n rounds of a parse. */
  ghost predicate TookWord(c: Config, argv: seq<string>, parseArgv0: bool, n: nat, g: nat)
    requires Bounded(c, |argv|) && Init(c, argv, parseArgv0).1.Ok?
  {
    StartZero(c, argv, parseArgv0);
    Took(c, Init(c, argv, parseArgv0).0, n, g)
  }

  lemma {:induction false} CounterMeaning(c: Config, argv: seq<string>, parseArgv0: bool, n: nat, g: nat)
    requires Bounded(c, |argv|) && Init(c, argv, parseArgv0).1.Ok? && g < |c.groups|
    ensures var t := MainLoop(c, argv, parseArgv0, n).0;
      && (t.processed[g] == 0 <==> !TookWord(c, argv, parseArgv0, n, g))
      && (Forward(c) ==>
        (TookWord(c, argv, parseArgv0, n, g) <==>
         Accepts(c, t.trace, |Init(c, argv, parseArgv0).0.trace|, |t.trace|, g)))
  {
    StartZero(c, argv, parseArgv0);
    CounterHistory(c, Init(c, argv, parseArgv0).0, n, g);
    if Forward(c) { TookIsAccepted(c, Init(c, argv, parseArgv0).0, n, g); }
  }

  lemma Prefixes(p: Phases)
    ensures p.init + p.body <= p.init + p.body + p.noArgs <= p.All()
  {
  }

  /** NO_ARGS, where no reply to it is a failure, goes to exactly those parsers that have taken no word. For
      callbacks that never move state.next back these are the ones that have accepted no argument. */
  lemma {:induction false} NoArgsTold(c: Config, argv: seq<string>, parseArgv0: bool, n: nat, endIndex: bool, g: nat)
    returns (p: Phases)
    requires Bounded(c, |argv|) && Init(c, argv, parseArgv0).1.Ok? && !MainLoop(c, argv, parseArgv0, n).1.Ok?
    requires g < |c.groups| && c.groups[g].hasParser
    requires UsedUp(MainLoop(c, argv, parseArgv0, n).0, MainLoop(c, argv, parseArgv0, n).1)
    ensures WholeParse(c, argv, parseArgv0, n, endIndex).0.trace == p.All() && InOrder(c, p)
    ensures var tr, lo, hi := p.All(), |p.init|, |p.init + p.body|;
      Gentle(c, tr, hi, hi + |p.noArgs|) ==>
        && (Called(p.noArgs, g) <==> !TookWord(c, argv, parseArgv0, n, g))
        && (Forward(c) ==> (Called(p.noArgs, g) <==> !Accepts(c, tr, lo, hi, g)))
  {
    p := LifeCycle(c, argv, parseArgv0, n, endIndex);
    CounterMeaning(c, argv, parseArgv0, n, g);
    var t := MainLoop(c, argv, parseArgv0, n).0.trace;
    Prefixes(p);
    GentleLonger(c, t + p.noArgs, p.All(), |t|, |t + p.noArgs|);
    AcceptsLonger(c, t, p.All(), |p.init|, |t|, g);
  }
}

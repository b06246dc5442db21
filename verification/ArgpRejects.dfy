/** Which command lines argp_parse rejects, and what it returns. */
module ArgpRejects {
  import opened Options
  import opened ArgpTypes
  import opened ArgpMachine
  import opened ArgpSafety
  import opened ArgpLifecycle
  import opened ArgpOrder
  import opened ArgpParser
  import opened ArgpWhole

  // ---------- What is returned ----------

  /** The calls from n on are for one of the keys and none of them has failed for good, except that with an error
      e the last one has failed with it. */
  predicate Answered(c: Config, tr: seq<Call>, n: nat, keys: set<Key>, e: Err)
  {
    && n <= |tr|
    && (forall i :: n <= i < |tr| ==> tr[i].key in keys && (Mild(ReplyAt(c, tr, i).err) || (i == |tr| - 1 && e.Other?)))
    && (e.Other? ==> n < |tr| && ReplyAt(c, tr, |tr| - 1).err == e)
  }

  lemma AnsweredSnoc(c: Config, tr: seq<Call>, n: nat, keys: set<Key>, call: Call)
    requires Answered(c, tr, n, keys, Ok) && call.key in keys
    ensures Answered(c, tr + [call], n, keys, c.oracle(tr + [call]).err)
  {
    ReplyAtSnoc(c, tr, call);
  }

  lemma {:induction false} UpAnswered(c: Config, s: PState, key: Key, idle: bool, g: nat, err: Err, n: nat,
                                      keys: set<Key>)
    requires g <= |c.groups| && |s.processed| == |c.groups| && key in keys && Answered(c, s.trace, n, keys, err)
    ensures var r := UpWhile(c, s, key, idle, g, err); Answered(c, r.0.trace, n, keys, r.1)
    decreases |c.groups| - g
  {
    if g < |c.groups| && Mild(err) {
      if idle && s.processed[g] != 0 {
        UpAnswered(c, s, key, idle, g + 1, err, n, keys);
      } else {
        var r := GroupParse(c, s, g, key, None);
        AnsweredSnoc(c, s.trace, n, keys, Call(g, key, None, s.next));
        UpAnswered(c, r.0, key, idle, g + 1, r.1, n, keys);
      }
    }
  }

  lemma {:induction false} DownAnswered(c: Config, s: PState, key: Key, g: nat, err: Err, n: nat, keys: set<Key>)
    requires g <= |c.groups| && key in keys && Answered(c, s.trace, n, keys, err)
    ensures var r := DownWhile(c, s, key, g, err); Answered(c, r.0.trace, n, keys, r.1)
    decreases g
  {
    if g > 0 && Mild(err) {
      var r := GroupParse(c, s, g - 1, key, None);
      AnsweredSnoc(c, s.trace, n, keys, Call(g - 1, key, None, s.next));
      DownAnswered(c, r.0, key, g - 1, r.1, n, keys);
    }
  }

  const LAST_KEYS: set<Key> := {NoArgsKey, EndKey, SuccessKey}

  /** The calls with which parser_finalize settles a parse that has gone well so far: NO_ARGS and END unless
      words are left, and SUCCESS unless one of these has failed. */
  function LastCalls(c: Config, s: PState, err: Err, endIndex: bool): (PState, Err)
    requires |s.processed| == |c.groups|
  {
    var r := Settle(c, s, err, endIndex);
    if r.1.Ok? then DownWhile(c, r.0, SuccessKey, |c.groups|, Ok) else r
  }

  lemma SettleAnswered(c: Config, s: PState, err: Err, endIndex: bool)
    requires |s.processed| == |c.groups| && Settled(s, err, endIndex)
    ensures var r := LastCalls(c, s, err, endIndex); Answered(c, r.0.trace, |s.trace|, LAST_KEYS, r.1)
  {
    var n := |s.trace|;
    if s.next == |s.argv| {
      UpAnswered(c, s, NoArgsKey, true, 0, Ok, n, LAST_KEYS);
      var r := UpWhile(c, s, NoArgsKey, true, 0, Ok);
      DownAnswered(c, r.0, EndKey, |c.groups|, r.1, n, LAST_KEYS);
    }
    var r := Settle(c, s, err, endIndex);
    if r.1.Ok? { DownAnswered(c, r.0, SuccessKey, |c.groups|, Ok, n, LAST_KEYS); }
  }

  /** The return value. An error of a parser that ended the main loop is passed on; an unknown option, and words
      that nobody takes, give EINVAL. Otherwise the parsers are called for the last time, with NO_ARGS, END and
      SUCCESS, up to the first that fails for good: its error is returned, and 0 if there is none. Answers of
      ARGP_ERR_UNKNOWN to these keys count for nothing. */
  lemma ReturnValue(c: Config, s: PState, err: Err, endIndex: bool)
    requires |s.processed| == |c.groups|
    ensures err.Other? ==> Finalize(c, s, err, endIndex).1 == err
    ensures !err.Other? && !Settled(s, err, endIndex) ==> Finalize(c, s, err, endIndex).1 == Other(EINVAL)
    ensures Settled(s, err, endIndex) ==>
      var tr := LastCalls(c, s, err, endIndex).0.trace; var e := Finalize(c, s, err, endIndex).1;
      Answered(c, tr, |s.trace|, LAST_KEYS, e) && e != BadKey && tr <= Finalize(c, s, err, endIndex).0.trace
  {
    if Settled(s, err, endIndex) {
      SettleAnswered(c, s, err, endIndex);
      LastCallsKept(c, s, err, endIndex);
    }
  }

  /** The calls for ERROR and FINI come after these. */
  lemma LastCallsKept(c: Config, s: PState, err: Err, endIndex: bool)
    requires |s.processed| == |c.groups|
    ensures LastCalls(c, s, err, endIndex).0.trace <= Finalize(c, s, err, endIndex).0.trace
  {
    var r := Settle(c, s, err, endIndex);
    if r.1.Ok? {
      var x := DownAllBurst(c, DownWhile(c, r.0, SuccessKey, |c.groups|, Ok).0, FiniKey, |c.groups|);
    } else {
      var x := UpAllBurst(c, r.0, ErrorKey, 0);
      var y := DownAllBurst(c, UpAll(c, r.0, ErrorKey, 0), FiniKey, |c.groups|);
    }
  }

  // ---------- Options that are unknown or used wrongly ----------

  /** The run stops at s with an error that is about an option. */
  ghost predicate Fails(c: Config, s: PState)
    requires Onward(c, s) && Bounded(c, |s.argv|) && Forward(c)
  {
    Run(c, s).1 == BadKey && !Run(c, s).0.badArg && |Run(c, s).0.processed| == |c.groups|
  }

  lemma StopHere(c: Config, s: PState)
    requires Onward(c, s) && Bounded(c, |s.argv|) && Forward(c)
    requires ParseNext(c, s).1 == BadKey && !ParseNext(c, s).0.badArg && ParseNext(c, s).0.processed == s.processed
    ensures Fails(c, s)
  {
    RunStop(c, s, ParseNext(c, s).0, BadKey);
  }

  /** A letter that is unknown, has no parser, or lacks its argument. */
  lemma {:induction false} LetterFails(c: Config, s: PState, cluster: string, w: seq<string>)
    requires Cooperative(c) && s.nextchar == Some(cluster) && cluster != ""
    requires 0 <= s.next <= |s.argv| && s.argv[s.next..] == w && !s.badArg
    requires ScanCluster(c, cluster, w).None?
    requires var found := FindShort(c.groups, cluster[0] as int, 0, 0);
      found.None? || found.value.1.hasArg || !c.groups[found.value.0].hasParser
    ensures ParseShort(c, s).1 == BadKey && !ParseShort(c, s).0.badArg && ParseShort(c, s).0.processed == s.processed
  {
    assert w == [] <==> s.next == |s.argv|;
  }

  lemma {:induction false} ClusterFails(c: Config, s: PState, cluster: string, w: seq<string>)
    requires Cooperative(c) && Onward(c, s) && Bounded(c, |s.argv|) && Forward(c)
    requires s.nextchar == Some(cluster) && s.argv[s.next..] == w
    requires ScanCluster(c, cluster, w).None? && s.quoted == 0 && !s.badArg
    ensures Fails(c, s)
    decreases |cluster|
  {
    assert Clamp(s) == s;
    var found := FindShort(c.groups, cluster[0] as int, 0, 0);
    if found.None? || found.value.1.hasArg || !c.groups[found.value.0].hasParser {
      LetterFails(c, s, cluster, w);
      StopHere(c, s);
    } else {
      var t := LetterPassed(c, s, cluster, w);
      ClusterFails(c, t, cluster[1..], w);
    }
  }

  /** A letter without an argument, in front of letters that fail. */
  lemma LetterPassed(c: Config, s: PState, cluster: string, w: seq<string>) returns (t: PState)
    requires Cooperative(c) && Onward(c, s) && Bounded(c, |s.argv|) && Forward(c)
    requires s.nextchar == Some(cluster) && cluster != "" && s.argv[s.next..] == w
    requires ScanCluster(c, cluster, w).None? && s.quoted == 0 && !s.badArg
    requires var found := FindShort(c.groups, cluster[0] as int, 0, 0);
      found.Some? && !found.value.1.hasArg && c.groups[found.value.0].hasParser
    ensures Onward(c, t) && |t.argv| == |s.argv| && Run(c, s) == Run(c, t)
    ensures t.nextchar == Some(cluster[1..]) && t.argv[t.next..] == w
    ensures ScanCluster(c, cluster[1..], w).None? && t.quoted == 0 && !t.badArg
  {
    var (g, o) := FindShort(c.groups, cluster[0] as int, 0, 0).value;
    assert cluster[1..] != "";
    var s1 := s.(nextchar := Some(cluster[1..]));
    CallAgreed(c, s1, g, OptKey(o.key), None);
    t := ParseShort(c, s).0;
    RunLetter(c, s, t);
  }

  /** A long option that is unknown or ambiguous, has no parser, lacks its argument or must not have one. */
  lemma LongFails(c: Config, s: PState, pre: seq<string>, o1: seq<string>, n: seq<string>, o2: seq<string>,
                  ws: seq<string>, o: string)
    requires Cooperative(c) && Laid(c, s, pre, o1, n, o2, ws) && ws != []
    requires 0 <= s.next < |s.argv| && ScanLong(c, o, ws[1..]).None?
    ensures ParseLong(c, s, o).1 == BadKey && !ParseLong(c, s, o).0.badArg
    ensures ParseLong(c, s, o).0.processed == s.processed
  {
  }

  // ---------- Whole runs ----------

  lemma {:induction false} FailFrom(c: Config, s: PState, pre: seq<string>, o1: seq<string>, n: seq<string>,
                                    o2: seq<string>, ws: seq<string>)
    requires Cooperative(c) && c.ordering == Permute && Onward(c, s) && Bounded(c, |s.argv|) && Forward(c)
    requires Laid(c, s, pre, o1, n, o2, ws) && s.nextchar.None? && !s.badArg && ScanWords(c, ws).None?
    ensures Fails(c, s)
    decreases |ws|
  {
    match Classify(c, ws[0])
    case ArgToken =>
      var s' := StepPlain(c, s, pre, o1, n, o2, ws);
      RunStep(c, s, s');
      FailFrom(c, s', pre, o1 + o2, n + [ws[0]], [], ws[1..]);
    case LongToken(o) => FailLong(c, s, pre, o1, n, o2, ws);
    case LongOnlyToken(o) => FailLong(c, s, pre, o1, n, o2, ws);
    case ShortToken(o) => FailShort(c, s, pre, o1, n, o2, ws);
  }

  lemma {:induction false} FailLong(c: Config, s: PState, pre: seq<string>, o1: seq<string>, n: seq<string>,
                                    o2: seq<string>, ws: seq<string>)
    requires Cooperative(c) && c.ordering == Permute && Onward(c, s) && Bounded(c, |s.argv|) && Forward(c)
    requires Laid(c, s, pre, o1, n, o2, ws) && s.nextchar.None? && !s.badArg && ws != []
    requires Classify(c, ws[0]).LongToken? || Classify(c, ws[0]).LongOnlyToken?
    requires ScanAfter(c, ws, OneEvent(ScanLong(c, Classify(c, ws[0]).opt, ws[1..]))).None?
    ensures Fails(c, s)
    decreases |ws|, 0
  {
    var r := ScanLong(c, Classify(c, ws[0]).opt, ws[1..]);
    if r.None? {
      FailHere(c, s, pre, o1, n, o2, ws);
    } else {
      RestFails(c, ws, [r.value.0], r.value.1);
      var s' := RunLong(c, s, pre, o1, n, o2, ws, r.value.0, r.value.1);
      FailFrom(c, s', pre, o1, n, o2 + ws[..1 + r.value.1], ws[1 + r.value.1..]);
    }
  }

  /** The option word is all right, so the fault is in the words after it. */
  lemma {:induction false} RestFails(c: Config, ws: seq<string>, es: seq<Event>, k: nat)
    requires k < |ws| && ScanAfter(c, ws, Some((es, k))).None?
    ensures ScanWords(c, ws[1 + k..]).None?
  {
  }

  lemma FailHere(c: Config, s: PState, pre: seq<string>, o1: seq<string>, n: seq<string>, o2: seq<string>,
                 ws: seq<string>)
    requires Cooperative(c) && Onward(c, s) && Bounded(c, |s.argv|) && Forward(c)
    requires Laid(c, s, pre, o1, n, o2, ws) && s.nextchar.None? && ws != []
    requires Classify(c, ws[0]).LongToken? || Classify(c, ws[0]).LongOnlyToken?
    requires ScanLong(c, Classify(c, ws[0]).opt, ws[1..]).None?
    ensures Fails(c, s)
  {
    LaidWord(c, s, pre, o1, n, o2, ws);
    AtWord(c, s, ws[0]);
    LongFails(c, s, pre, o1, n, o2, ws, Classify(c, ws[0]).opt);
    StopHere(c, s);
  }

  lemma {:induction false} FailShort(c: Config, s: PState, pre: seq<string>, o1: seq<string>, n: seq<string>,
                                     o2: seq<string>, ws: seq<string>)
    requires Cooperative(c) && c.ordering == Permute && Onward(c, s) && Bounded(c, |s.argv|) && Forward(c)
    requires Laid(c, s, pre, o1, n, o2, ws) && s.nextchar.None?
    requires !s.badArg && ws != [] && Classify(c, ws[0]).ShortToken?
    requires ScanAfter(c, ws, ScanCluster(c, Classify(c, ws[0]).opt, ws[1..])).None?
    ensures Fails(c, s)
    decreases |ws|, 0
  {
    var r := ScanCluster(c, Classify(c, ws[0]).opt, ws[1..]);
    if r.None? {
      var t := StartCluster(c, s, pre, o1, n, o2, ws);
      ClusterFails(c, t, Classify(c, ws[0]).opt, ws[1..]);
    } else {
      RestFails(c, ws, r.value.0, r.value.1);
      var s' := RunShort(c, s, pre, o1, n, o2, ws, r.value.0, r.value.1);
      FailFrom(c, s', pre, o1, n, o2 + ws[..1 + r.value.1], ws[1 + r.value.1..]);
    }
  }

  lemma {:induction false} RunFails(c: Config, argv: seq<string>, parseArgv0: bool, k: nat)
    requires Cooperative(c) && c.ordering == Permute && Bounded(c, |argv|) && Forward(c)
    requires k == Skipped(argv, parseArgv0) && ScanWords(c, argv[k..]).None?
    ensures var r := Init(c, argv, parseArgv0);
      r.1.Ok? && Onward(c, r.0) && |r.0.argv| == |argv| && Fails(c, r.0)
  {
    StartAgreed(c, argv, parseArgv0);
    ReachesEnd(c, argv, parseArgv0);
    var s := Init(c, argv, parseArgv0).0;
    assert argv[..k] + [] + [] + [] + argv[k..] == argv[..k] + argv[k..];
    FailFrom(c, s, argv[..k], [], [], [], argv[k..]);
  }

  /** In the permuting mode and with callbacks that work together, argp_parse returns 0 for exactly the
      well-formed command lines whose words are all taken, or taken back by the caller, and EINVAL for all
      others. */
  lemma {:induction false} AcceptsExactly(c: Config, argv: seq<string>, parseArgv0: bool, endIndex: bool)
    requires Cooperative(c) && c.ordering == Permute
    ensures Bounded(c, |argv|) && Forward(c)
    ensures var q := ScanWords(c, argv[Skipped(argv, parseArgv0)..]);
      Outcome(c, argv, parseArgv0, endIndex).1 ==
        if q.Some? && (endIndex || WordsTaken(c, argv, parseArgv0, q.value).1 == |Words(q.value)|) then Ok
        else Other(EINVAL)
  {
    CooperativeIsForward(c, |argv|);
    var k := Skipped(argv, parseArgv0);
    if ScanWords(c, argv[k..]).Some? {
      PermutingParse(c, argv, parseArgv0, endIndex, ScanWords(c, argv[k..]).value);
    } else {
      RunFails(c, argv, parseArgv0, k);
      ReturnValue(c, Run(c, Init(c, argv, parseArgv0).0).0, BadKey, endIndex);
    }
  }

  // ---------- What the parsers are told ----------

  /** After a wrong option every parser is called with ERROR, and with FINI after that. */
  lemma FinalizeTells(c: Config, s: PState, endIndex: bool, g: nat) returns (i: nat, j: nat)
    requires |s.processed| == |c.groups| && !s.badArg && g < |c.groups| && c.groups[g].hasParser
    ensures var tr := Finalize(c, s, BadKey, endIndex).0.trace;
      i < j < |tr| && tr[i].key == ErrorKey && tr[i].group == g && tr[j].key == FiniKey && tr[j].group == g
  {
    var x := UpAllBurst(c, s, ErrorKey, 0);
    var y := DownAllBurst(c, UpAll(c, s, ErrorKey, 0), FiniKey, |c.groups|);
    var tr := Finalize(c, s, BadKey, endIndex).0.trace;
    assert tr == s.trace + x + y && Called(x, g) && Called(y, g);
    var a :| 0 <= a < |x| && x[a].group == g;
    var b :| 0 <= b < |y| && y[b].group == g;
    i, j := |s.trace| + a, |s.trace| + |x| + b;
    assert tr[i] == x[a] && tr[j] == y[b];
  }

  lemma WrongOptionTold(c: Config, argv: seq<string>, parseArgv0: bool, endIndex: bool, g: nat)
    returns (i: nat, j: nat)
    requires Cooperative(c) && c.ordering == Permute && g < |c.groups| && c.groups[g].hasParser
    requires ScanWords(c, argv[Skipped(argv, parseArgv0)..]).None?
    ensures Bounded(c, |argv|) && Forward(c)
    ensures var tr := Outcome(c, argv, parseArgv0, endIndex).0.trace;
      i < j < |tr| && tr[i].key == ErrorKey && tr[i].group == g && tr[j].key == FiniKey && tr[j].group == g
  {
    CooperativeIsForward(c, |argv|);
    RunFails(c, argv, parseArgv0, Skipped(argv, parseArgv0));
    i, j := FinalizeTells(c, Run(c, Init(c, argv, parseArgv0).0).0, endIndex, g);
  }

  /** An option "-z" that nobody knows, with the usual callbacks. */
  lemma UnknownOptionTold(c: Config) returns (i: nat, j: nat)
    requires c == Config([Group([], true)], Permute, false, "", UsualOracle)
    ensures Bounded(c, 1) && Forward(c)
    ensures var (s, e) := Outcome(c, ["-z"], true, false);
      e == Other(EINVAL) && i < j < |s.trace| && s.trace[i].key == ErrorKey && s.trace[j].key == FiniKey
  {
    UsualParsersCooperate(c, [], 0, Scan([], [], [], [], []));
    var argv := ["-z"];
    assert argv[Skipped(argv, true)..] == argv;
    UnknownOption(c, argv);
    AcceptsExactly(c, argv, true, false);
    i, j := WrongOptionTold(c, argv, true, false, 0);
  }

  lemma {:induction false} UnknownOption(c: Config, ws: seq<string>)
    requires c.groups == [Group([], true)] && !c.longOnly && ws == ["-z"]
    ensures ScanWords(c, ws).None?
  {
    assert "-z"[1..] == "z" && Classify(c, ws[0]) == ShortToken("z");
    assert FindShort(c.groups, 'z' as int, 0, 0).None?;
    assert ws[1..] == [] && ScanCluster(c, "z", []).None?;
  }
}

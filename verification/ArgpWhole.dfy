/** What argp_parse as a whole promises for callbacks that never move state.next back. */
module ArgpWhole {
  import opened Options
  import opened ArgpTypes
  import opened ArgpMachine
  import opened ArgpSafety
  import opened ArgpLifecycle
  import opened ArgpOrder
  import opened ArgpParser

  /** Such a parse always ends, and its calls go through the phases in order. */
  lemma OutcomeInOrder(c: Config, argv: seq<string>, parseArgv0: bool, endIndex: bool) returns (p: Phases)
    requires Bounded(c, |argv|) && Forward(c) && Init(c, argv, parseArgv0).1.Ok?
    ensures Outcome(c, argv, parseArgv0, endIndex).0.trace == p.All() && InOrder(c, p)
  {
    ReachesEnd(c, argv, parseArgv0);
    var n := RunEnds(c, Init(c, argv, parseArgv0).0);
    p := LifeCycle(c, argv, parseArgv0, n, endIndex);
  }

  // ---------- Callbacks that work together ----------

  /** The two states agree on the argument vector and on the parser's own fields. */
  ghost predicate Untouched(s: PState, s': PState)
  {
    s' == s.(trace := s'.trace)
  }

  lemma {:induction false} UpAgreed(c: Config, s: PState, key: Key, idle: bool, g: nat, err: Err)
    requires Cooperative(c) && g <= |c.groups| && |s.processed| == |c.groups| && Mild(err)
    ensures var r := UpWhile(c, s, key, idle, g, err); Untouched(s, r.0) && Mild(r.1)
    decreases |c.groups| - g
  {
    if g < |c.groups| {
      if idle && s.processed[g] != 0 {
        UpAgreed(c, s, key, idle, g + 1, err);
      } else {
        var r := GroupParse(c, s, g, key, None);
        UpAgreed(c, r.0, key, idle, g + 1, r.1);
      }
    }
  }

  lemma {:induction false} DownAgreed(c: Config, s: PState, key: Key, g: nat, err: Err)
    requires Cooperative(c) && g <= |c.groups| && Mild(err)
    ensures var r := DownWhile(c, s, key, g, err); Untouched(s, r.0) && Mild(r.1)
    decreases g
  {
    if g > 0 {
      var r := GroupParse(c, s, g - 1, key, None);
      DownAgreed(c, r.0, key, g - 1, r.1);
    }
  }

  lemma {:induction false} UpAllAgreed(c: Config, s: PState, key: Key, g: nat)
    requires Cooperative(c) && g <= |c.groups|
    ensures Untouched(s, UpAll(c, s, key, g))
    decreases |c.groups| - g
  {
    if g < |c.groups| {
      UpAllAgreed(c, GroupParse(c, s, g, key, None).0, key, g + 1);
    }
  }

  lemma {:induction false} DownAllAgreed(c: Config, s: PState, key: Key, g: nat)
    requires Cooperative(c) && g <= |c.groups|
    ensures Untouched(s, DownAll(c, s, key, g))
    decreases g
  {
    if g > 0 {
      DownAllAgreed(c, GroupParse(c, s, g - 1, key, None).0, key, g - 1);
    }
  }

  /** How many words parser_init skips. */
  function Skipped(argv: seq<string>, parseArgv0: bool): (k: nat)
    ensures k <= |argv|
  {
    if |argv| > 0 && !parseArgv0 then 1 else 0
  }

  lemma StartAgreed(c: Config, argv: seq<string>, parseArgv0: bool)
    requires Cooperative(c)
    ensures var r := Init(c, argv, parseArgv0); var k := Skipped(argv, parseArgv0);
      r.1.Ok? && AtStart(c, r.0, argv[..k], argv[k..]) && !r.0.badArg
  {
    var s := PState(argv, 0, 0, false, 0, 0, None, seq(|c.groups|, _ => 0), false, []);
    UpAgreed(c, s, InitKey, false, 0, Ok);
    var k := Skipped(argv, parseArgv0);
    assert argv == argv[..k] + argv[k..];
  }

  /** A parse that has come to the end of what is taken, and not to a wrong option, succeeds just if that is
      everything, or if the caller takes the rest back. */
  lemma FinishAgreed(c: Config, s: PState, endIndex: bool)
    requires Cooperative(c) && |s.processed| == |c.groups|
    ensures var r := Finalize(c, s, BadKey, endIndex);
      && r.1 == (if s.badArg && (s.next == |s.argv| || endIndex) then Ok else Other(EINVAL))
      && r.0.argv == s.argv && r.0.next == s.next
  {
    if s.badArg && s.next == |s.argv| {
      UpAgreed(c, s, NoArgsKey, true, 0, Ok);
      var r1 := UpWhile(c, s, NoArgsKey, true, 0, Ok);
      DownAgreed(c, r1.0, EndKey, |c.groups|, r1.1);
    }
    var (s1, e1) := Settle(c, s, BadKey, endIndex);
    if e1.Ok? {
      DownAgreed(c, s1, SuccessKey, |c.groups|, Ok);
      DownAllAgreed(c, DownWhile(c, s1, SuccessKey, |c.groups|, Ok).0, FiniKey, |c.groups|);
    } else {
      UpAllAgreed(c, s1, ErrorKey, 0);
      DownAllAgreed(c, UpAll(c, s1, ErrorKey, 0), FiniKey, |c.groups|);
    }
  }

  /** What becomes of the words of a well-formed command line: the calls up to the end of the main loop, and how
      many of the words that are not options find a taker. */
  function WordsTaken(c: Config, argv: seq<string>, parseArgv0: bool, q: Scan): (seq<Call>, nat)
  {
    Taken(c, Init(c, argv, parseArgv0).0.trace, |argv|, q)
  }

  lemma {:induction false} RunPermuted(c: Config, argv: seq<string>, parseArgv0: bool, k: nat, q: Scan)
    requires Cooperative(c) && c.ordering == Permute && Bounded(c, |argv|) && Forward(c)
    requires k == Skipped(argv, parseArgv0) && ScanWords(c, argv[k..]) == Some(q)
    ensures Init(c, argv, parseArgv0).1.Ok?
    ensures var s := Init(c, argv, parseArgv0).0; Onward(c, s) && |s.argv| == |argv|
    ensures var r := Run(c, Init(c, argv, parseArgv0).0); var taken := WordsTaken(c, argv, parseArgv0, q);
      && r.1 == BadKey && r.0.badArg && r.0.argv == argv[..k] + Arranged(q) && |r.0.argv| == |argv|
      && r.0.next == |argv| - |Words(q)| + taken.1 && r.0.trace == taken.0 && |r.0.processed| == |c.groups|
  {
    StartAgreed(c, argv, parseArgv0);
    ReachesEnd(c, argv, parseArgv0);
    PermuteOrder(c, Init(c, argv, parseArgv0).0, argv[..k], argv[k..], q);
  }

  /** argp_parse on a well-formed command line, in the permuting mode and with callbacks that work together:
      argv ends up sorted, that is the program name, the option words, "--", the plain words and the words after
      "--", each kind in its original order; state.next stands behind the last word taken; and 0 is returned if
      all words are taken or the caller takes them back, EINVAL otherwise. */
  lemma {:induction false} PermutingParse(c: Config, argv: seq<string>, parseArgv0: bool, endIndex: bool, q: Scan)
    requires Cooperative(c) && c.ordering == Permute
    requires ScanWords(c, argv[Skipped(argv, parseArgv0)..]) == Some(q)
    ensures Bounded(c, |argv|) && Forward(c)
    ensures var (s, e) := Outcome(c, argv, parseArgv0, endIndex); var taken := WordsTaken(c, argv, parseArgv0, q).1;
      && s.argv == argv[..Skipped(argv, parseArgv0)] + Arranged(q) && multiset(s.argv) == multiset(argv)
      && s.next == |argv| - |Words(q)| + taken
      && e == if taken == |Words(q)| || endIndex then Ok else Other(EINVAL)
  {
    CooperativeIsForward(c, |argv|);
    var k := Skipped(argv, parseArgv0);
    RunPermuted(c, argv, parseArgv0, k, q);
    FinishAgreed(c, Run(c, Init(c, argv, parseArgv0).0).0, endIndex);
    SamePlaces(c, argv, k, q);
  }

  lemma {:induction false} SamePlaces(c: Config, argv: seq<string>, k: nat, q: Scan)
    requires k <= |argv| && ScanWords(c, argv[k..]) == Some(q)
    ensures multiset(argv[..k] + Arranged(q)) == multiset(argv)
  {
    ScanConserves(c, argv[k..]);
    assert argv == argv[..k] + argv[k..];
  }

  /** INIT calls are not about options or arguments. */
  lemma {:induction false} NothingHeard(c: Config, tr: seq<Call>)
    requires forall i :: 0 <= i < |tr| ==> tr[i].key == InitKey
    ensures Heard(c, tr) == []
    decreases |tr|
  {
    if tr != [] { NothingHeard(c, tr[..|tr| - 1]); }
  }

  /** The parsers accept the options of the command line in order, then its other words in order, as far as they
      are taken, each by one of them; and nothing else. */
  lemma PermutingHeard(c: Config, argv: seq<string>, parseArgv0: bool, q: Scan) returns (gs: seq<nat>)
    requires Cooperative(c) && c.ordering == Permute
    requires ScanWords(c, argv[Skipped(argv, parseArgv0)..]) == Some(q)
    ensures Bounded(c, |argv|) && Forward(c) && Onward(c, Init(c, argv, parseArgv0).0)
    ensures |Init(c, argv, parseArgv0).0.argv| == |argv|
    ensures var s := Run(c, Init(c, argv, parseArgv0).0).0; var taken := WordsTaken(c, argv, parseArgv0, q).1;
      |gs| == taken && Heard(c, s.trace) == OptViews(q.events) + ArgViews(gs, Words(q)[..taken])
  {
    CooperativeIsForward(c, |argv|);
    RunPermuted(c, argv, parseArgv0, Skipped(argv, parseArgv0), q);
    var s := PState(argv, 0, 0, false, 0, 0, None, seq(|c.groups|, _ => 0), false, []);
    var init := UpWhileBurst(c, s, InitKey, false, 0, Ok);
    assert s.trace + init == init;
    NothingHeard(c, init);
    gs := PermuteHeard(c, init, |argv|, q);
    assert [] + OptViews(q.events) == OptViews(q.events);
  }

  // ---------- The parser that argp adds ----------

  /** A user's parser in group 0 that takes every argument, and behind it parsers that answer as
      argp_default_parser does: they know their options and nothing else. */
  function UsualOracle(tr: seq<Call>): Reply
  {
    if |tr| == 0 then Reply(Ok, None, None)
    else
      var call := tr[|tr| - 1];
      Reply(if call.key.OptKey? || (call.group == 0 && call.key != ArgsKey) then Ok else BadKey, None, None)
  }

  lemma {:induction false} UsualTakesAll(c: Config, tr: seq<Call>, ws: seq<string>, at: int)
    requires c.oracle == UsualOracle && |c.groups| > 0 && c.groups[0].hasParser
    ensures OfferedAll(c, tr, ws, at).1 == |ws|
    decreases |ws|
  {
    if ws != [] { UsualTakesAll(c, Offered(c, tr, ws[0], at, 0).0, ws[1..], at + 1); }
  }

  /** Such callbacks work together, and all words are taken. */
  lemma UsualParsersCooperate(c: Config, tr: seq<Call>, argc: int, q: Scan)
    requires c.oracle == UsualOracle && |c.groups| > 0 && c.groups[0].hasParser
    ensures Cooperative(c) && Taken(c, tr, argc, q).1 == |Words(q)|
  {
    UsualTakesAll(c, tr + Calls(argc, q.events), Words(q), argc - |Words(q)|);
  }

  // ---------- A rejected option that is not reported ----------

  /** A parser that takes every argument and answers ARGP_ERR_UNKNOWN to its option -a. */
  function Rejecting(tr: seq<Call>): Reply
  {
    Reply(if |tr| > 0 && tr[|tr| - 1].key == OptKey('a' as int) then BadKey else Ok, None, None)
  }

  function RejectingConfig(): Config
  {
    Config([Group([Opt(None, 'a' as int, false, false, false, false)], true)], ReturnInOrder, false, "", Rejecting)
  }

  lemma RejectingIsForward()
    ensures Bounded(RejectingConfig(), 2) && Forward(RejectingConfig())
  {
  }

  /** The states of a parse of "x -a": at the start, after the argument, inside the cluster "a", after it. */
  function Start(): PState
  {
    PState(["x", "-a"], 0, 0, false, 0, 0, None, [0], false, [Call(0, InitKey, None, 0)])
  }

  function AfterWord(): PState
  {
    Start().(next := 1, processed := [1], badArg := true, trace := Start().trace + [Call(0, ArgKey, Some("x"), 1)])
  }

  function InCluster(): PState
  {
    AfterWord().(next := 2, nextchar := Some("a"))
  }

  function AfterLetter(): PState
  {
    InCluster().(nextchar := None, trace := InCluster().trace + [Call(0, OptKey('a' as int), None, 2)])
  }

  lemma StaleInit()
    ensures Init(RejectingConfig(), ["x", "-a"], true) == (Start(), Ok)
  {
    var c := RejectingConfig();
    var s := PState(["x", "-a"], 0, 0, false, 0, 0, None, [0], false, []);
    assert seq(|c.groups|, _ => 0) == [0] && s.trace + [Call(0, InitKey, None, 0)] == Start().trace;
    assert GroupParse(c, s, 0, InitKey, None) == (Start(), Ok);
    assert UpWhile(c, s, InitKey, false, 0, Ok) == UpWhile(c, Start(), InitKey, false, 1, Ok);
  }

  lemma StaleArg()
    ensures Inv(RejectingConfig(), Start()) && ParseNext(RejectingConfig(), Start()) == (AfterWord(), Ok)
  {
    var c := RejectingConfig();
    var s := Start().(badArg := true);
    assert Clamp(Start()) == Start();
    assert OfferGroup(c, s, "x", 0) == (AfterWord().(processed := [0]), Ok, ArgKey);
    assert OfferArg(c, s, "x", 0) == (AfterWord().(processed := [0]), Ok, 0, ArgKey);
    assert [0][0 := 0 + (1 - 0)] == [1];
  }

  lemma StaleWord()
    ensures Inv(RejectingConfig(), AfterWord()) && ParseNext(RejectingConfig(), AfterWord()) == (InCluster(), Ok)
  {
    assert Clamp(AfterWord()) == AfterWord();
    assert "-a"[1..] == "a";
  }

  lemma StaleLetter()
    ensures Inv(RejectingConfig(), InCluster()) && ParseNext(RejectingConfig(), InCluster()) == (AfterLetter(), BadKey)
  {
    assert Clamp(InCluster()) == InCluster();
    assert "a"[1..] == "";
    assert FindShort(RejectingConfig().groups, 'a' as int, 0, 0) == Some((0, RejectingConfig().groups[0].opts[0]));
  }

  lemma StaleEnd()
    ensures Finalize(RejectingConfig(), AfterLetter(), BadKey, false).1 == Ok
  {
    var c := RejectingConfig();
    var s := AfterLetter();
    assert UpWhile(c, s, NoArgsKey, true, 0, Ok) == UpWhile(c, s, NoArgsKey, true, 1, Ok);
    OneGroupDown(s, EndKey);
    OneGroupDown(DownWhile(c, s, EndKey, 1, Ok).0, SuccessKey);
  }

  lemma {:induction false} OneGroupDown(s: PState, key: Key)
    requires key != OptKey('a' as int)
    ensures DownWhile(RejectingConfig(), s, key, 1, Ok).1 == Ok
  {
    var c := RejectingConfig();
    var r := GroupParse(c, s, 0, key, None);
    assert DownWhile(c, s, key, 1, Ok) == DownWhile(c, r.0, key, 0, r.1);
  }

  /** argp_parse returns 0 for "x -a" although the parser has rejected -a: the flag that the argument x
      has set still stands when the short option fails. */
  lemma RejectedOptionUnreported()
    ensures Bounded(RejectingConfig(), 2) && Forward(RejectingConfig())
    ensures Outcome(RejectingConfig(), ["x", "-a"], true, false).1 == Ok
  {
    var c := RejectingConfig();
    RejectingIsForward();
    StaleInit();
    StaleArg();
    StaleWord();
    StaleLetter();
    RunStep(c, Start(), AfterWord());
    RunStep(c, AfterWord(), InCluster());
    RunStop(c, InCluster(), AfterLetter(), BadKey);
    StaleEnd();
  }
}

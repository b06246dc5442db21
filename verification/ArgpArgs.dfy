/** What becomes of state.next when a parser takes all the rest with ARGP_KEY_ARGS. */
module ArgpArgs {
  import opened Options
  import opened ArgpTypes
  import opened ArgpMachine
  import opened ArgpSafety
  import opened ArgpLifecycle
  import opened ArgpOrder
  import opened ArgpParser

  /** Where argp.h promises state.next to be after the last call of tr, an accepted ARGS: where the parser has put
      it, or at argc if it has left it untouched. */
  function Promised(c: Config, tr: seq<Call>, argc: int): int
  {
    if c.oracle(tr).next.Some? then c.oracle(tr).next.value else argc
  }

  /** Whatever the parser does, state.next is argc after an accepted ARGS; so the promise is kept if and only if
      the parser leaves state.next alone or moves it to argc itself. */
  lemma {:induction false} ArgsTakesAll(c: Config, s: PState, val: string)
    requires |s.processed| == |c.groups|
    ensures var r := OfferArg(c, s, val, 0);
      r.1.Ok? && r.3 == ArgsKey ==>
        && ParseArg(c, s, val).0.next == |s.argv|
        && (ParseArg(c, s, val).0.next == Promised(c, r.0.trace, |s.argv|) <==>
              c.oracle(r.0.trace).next in {None, Some(|s.argv|)})
  {
  }

  // ---------- A parser that takes one word only ----------

  /** Answers ARGS by taking one word: state.next moves on by one. Arguments one at a time are refused. */
  function OneWordOracle(tr: seq<Call>): Reply
  {
    if |tr| == 0 then Reply(Ok, None, None)
    else
      var call := tr[|tr| - 1];
      if call.key == ArgKey then Reply(BadKey, None, None)
      else if call.key == ArgsKey && 0 <= call.next < 2 then Reply(Ok, Some(call.next + 1), None)
      else Reply(Ok, None, None)
  }

  function OneWordConfig(): Config
  {
    Config([Group([], true)], RequireOrder, false, "", OneWordOracle)
  }

  /** The states of a parse of "x y": at the start, behind the implicit quote, after the offer of "x". */
  function Start(): PState
  {
    PState(["x", "y"], 0, 0, false, 0, 0, None, [0], false, [Call(0, InitKey, None, 0)])
  }

  function Quoted(): PState
  {
    Start().(argsOnly := true)
  }

  function AfterOffer(): PState
  {
    Quoted().(next := 2, processed := [2], badArg := true,
              trace := Start().trace + [Call(0, ArgKey, Some("x"), 1)] + [Call(0, ArgsKey, None, 0)])
  }

  lemma OneWordInit()
    ensures Init(OneWordConfig(), ["x", "y"], true) == (Start(), Ok)
  {
    var c := OneWordConfig();
    var s := PState(["x", "y"], 0, 0, false, 0, 0, None, [0], false, []);
    assert seq(|c.groups|, _ => 0) == [0] && s.trace + [Call(0, InitKey, None, 0)] == Start().trace;
    assert GroupParse(c, s, 0, InitKey, None) == (Start(), Ok);
    assert UpWhile(c, s, InitKey, false, 0, Ok) == UpWhile(c, Start(), InitKey, false, 1, Ok);
  }

  lemma OneWordOffer()
    ensures Inv(OneWordConfig(), Quoted()) && ParseNext(OneWordConfig(), Quoted()) == (AfterOffer(), Ok)
  {
    var c, s := OneWordConfig(), Quoted().(badArg := true);
    assert Clamp(Quoted()) == Quoted();
    var s1 := s.(next := 1, trace := s.trace + [Call(0, ArgKey, Some("x"), 1)]);
    assert GroupParse(c, s.(next := 1), 0, ArgKey, Some("x")) == (s1, BadKey);
    var s2 := s.(next := 1, trace := s1.trace + [Call(0, ArgsKey, None, 0)]);
    assert GroupParse(c, s1.(next := 0), 0, ArgsKey, None) == (s2, Ok);
    assert OfferArg(c, s, "x", 0) == (s2, Ok, 0, ArgsKey);
    assert [0][0 := 0 + (2 - 0)] == [2];
  }

  lemma OneWordSteps()
    ensures Bounded(OneWordConfig(), 2) && Forward(OneWordConfig()) && Onward(OneWordConfig(), Start())
    ensures Run(OneWordConfig(), Start()) == (AfterOffer(), BadKey)
  {
    var c := OneWordConfig();
    assert Clamp(Start()) == Start() && ParseNext(c, Start()) == (Quoted(), Ok);
    OneWordOffer();
    assert Clamp(AfterOffer()) == AfterOffer();
    RunStep(c, Start(), Quoted());
    RunStep(c, Quoted(), AfterOffer());
    RunStop(c, AfterOffer(), AfterOffer(), BadKey);
  }

  lemma OneWordEnd()
    ensures Finalize(OneWordConfig(), AfterOffer(), BadKey, false).1 == Ok
  {
    var c, s := OneWordConfig(), AfterOffer();
    assert UpWhile(c, s, NoArgsKey, true, 0, Ok) == UpWhile(c, s, NoArgsKey, true, 1, Ok);
    OneDown(s, EndKey);
    OneDown(DownWhile(c, s, EndKey, 1, Ok).0, SuccessKey);
  }

  lemma {:induction false} OneDown(s: PState, key: Key)
    requires key == EndKey || key == SuccessKey
    ensures DownWhile(OneWordConfig(), s, key, 1, Ok).1 == Ok
  {
    var c := OneWordConfig();
    var r := GroupParse(c, s, 0, key, None);
    assert DownWhile(c, s, key, 1, Ok) == DownWhile(c, r.0, key, 0, r.1);
  }

  /** argp_parse returns 0 for "x y" although the parser has taken "x" only: it has put state.next at 1, but the
      parse ends with state.next at 2, and no parser has been asked about "y". */
  lemma SecondWordLost()
    ensures Bounded(OneWordConfig(), 2) && Forward(OneWordConfig())
    ensures Outcome(OneWordConfig(), ["x", "y"], true, false).1 == Ok
    ensures Init(OneWordConfig(), ["x", "y"], true) == (Start(), Ok) && Onward(OneWordConfig(), Start())
    ensures var s := Run(OneWordConfig(), Start()).0;
      && s.next == 2 && Promised(OneWordConfig(), s.trace, 2) == 1
      && forall i :: 0 <= i < |s.trace| ==> s.trace[i].arg != Some("y")
  {
    OneWordInit();
    OneWordSteps();
    OneWordEnd();
    OneWordCalls();
  }

  lemma OneWordCalls()
    ensures Promised(OneWordConfig(), AfterOffer().trace, 2) == 1
    ensures forall i :: 0 <= i < |AfterOffer().trace| ==> AfterOffer().trace[i].arg != Some("y")
  {
  }
}

/** arg_ebadkey, the flag that tells errors about arguments from errors about options, over whole parses. */
module ArgpFlag {
  import opened Options
  import opened ArgpTypes
  import opened ArgpMachine
  import opened ArgpSafety
  import opened ArgpLifecycle
  import opened ArgpLookup
  import opened ArgpRejects

  // ---------- One round ----------

  /** The round sets the flag: it is about an argument, or about the end of the words. */
  predicate SetsFlag(c: Config, s0: PState)
    requires Inv(c, s0)
  {
    var s := Clamp(s0);
    && s.nextchar.None?
    && (s.argsOnly || s.next >= |s.argv| || (Classify(c, s.argv[s.next]).ArgToken? && c.ordering.ReturnInOrder?))
  }

  /** The round clears the flag: it is about a long option. */
  predicate ClearsFlag(c: Config, s0: PState)
    requires Inv(c, s0)
  {
    var s := Clamp(s0);
    && s.nextchar.None? && !s.argsOnly && s.next < |s.argv|
    && (Classify(c, s.argv[s.next]).LongToken? || Classify(c, s.argv[s.next]).LongOnlyToken?)
  }

  lemma FlagShort(c: Config, s: PState)
    requires Inv(c, s) && s.nextchar.Some? && s.next <= |s.argv|
    ensures ParseShort(c, s).0.badArg == (ShortCall(c, s) && s.badArg)
    ensures !ShortCall(c, s) ==> ParseShort(c, s).1 == BadKey
  {
  }

  lemma FlagArg(c: Config, s: PState, val: string)
    requires |s.processed| == |c.groups|
    ensures ParseArg(c, s, val).0.badArg == s.badArg
  {
    OfferKeeps(c, s, val, 0);
  }

  /** A short option clears the flag just if its parser is not called, which ends the parse. */
  lemma FlagStep(c: Config, s: PState)
    requires Inv(c, s)
    ensures ParseNext(c, s).0.badArg ==
      if SetsFlag(c, s) then true
      else if ClearsFlag(c, s) || (s.nextchar.Some? && !ShortCall(c, s)) then false
      else s.badArg
    ensures s.nextchar.Some? && !ShortCall(c, s) ==> ParseNext(c, s).1 == BadKey
  {
    var t := Clamp(s);
    if t.nextchar.Some? {
      FlagShort(c, t);
    } else if t.next < |t.argv| {
      FlagArg(c, t.(badArg := true), t.argv[t.next]);
    }
  }

  // ---------- Many rounds ----------

  lemma {:induction false} RunSnoc(c: Config, s: PState, n: nat)
    requires Inv(c, s) && Bounded(c, |s.argv|) && RunN(c, s, n).1.Ok?
    ensures Inv(c, RunN(c, s, n).0) && |RunN(c, s, n).0.argv| == |s.argv|
    ensures RunN(c, s, n + 1) == ParseNext(c, RunN(c, s, n).0)
    decreases n
  {
    StepSafe(c, s);
    if n > 0 {
      RunSnoc(c, ParseNext(c, s).0, n - 1);
    }
  }

  lemma {:induction false} RunPrefix(c: Config, s: PState, n: nat)
    requires Inv(c, s) && Bounded(c, |s.argv|) && RunN(c, s, n + 1).1.Ok?
    ensures RunN(c, s, n).1.Ok?
    decreases n
  {
    StepSafe(c, s);
    if n > 0 {
      RunPrefix(c, ParseNext(c, s).0, n - 1);
    }
  }

  ghost predicate SetAt(c: Config, s: PState, k: nat)
    requires Inv(c, s) && Bounded(c, |s.argv|)
  {
    var r := RunN(c, s, k).0; Inv(c, r) && SetsFlag(c, r)
  }

  ghost predicate ClearedAt(c: Config, s: PState, k: nat)
    requires Inv(c, s) && Bounded(c, |s.argv|)
  {
    var r := RunN(c, s, k).0; Inv(c, r) && ClearsFlag(c, r)
  }

  /** Among the first n rounds there is one about an argument and none about a long option behind it. */
  ghost predicate FlagStands(c: Config, s: PState, n: nat)
    requires Inv(c, s) && Bounded(c, |s.argv|)
  {
    exists k :: 0 <= k < n && SetAt(c, s, k) && forall j :: k < j < n ==> !ClearedAt(c, s, j)
  }

  lemma FlagStandsNext(c: Config, s: PState, n: nat)
    requires Inv(c, s) && Bounded(c, |s.argv|)
    ensures FlagStands(c, s, n + 1) <==> SetAt(c, s, n) || (FlagStands(c, s, n) && !ClearedAt(c, s, n))
  {
    if !SetAt(c, s, n) && FlagStands(c, s, n) && !ClearedAt(c, s, n) {
      var k :| 0 <= k < n && SetAt(c, s, k) && forall j :: k < j < n ==> !ClearedAt(c, s, j);
      assert forall j :: k < j < n + 1 ==> !ClearedAt(c, s, j);
    }
  }

  lemma {:induction false} FlagHistory(c: Config, s: PState, n: nat)
    requires Inv(c, s) && Bounded(c, |s.argv|) && !s.badArg && RunN(c, s, n).1.Ok?
    ensures RunN(c, s, n).0.badArg <==> FlagStands(c, s, n)
    decreases n
  {
    if n > 0 {
      RunPrefix(c, s, n - 1);
      FlagHistory(c, s, n - 1);
      RunSnoc(c, s, n - 1);
      FlagStep(c, RunN(c, s, n - 1).0);
      FlagStandsNext(c, s, n - 1);
    }
  }

  // ---------- Whole parses ----------

  /** No callback fails for good when it is told that the parse is over. */
  ghost predicate GentleEnd(c: Config)
  {
    forall tr: seq<Call>, call: Call :: call.key in LAST_KEYS ==> Mild(c.oracle(tr + [call]).err)
  }

  lemma GentleAnswer(c: Config, tr: seq<Call>, n: nat, e: Err)
    requires GentleEnd(c) && Answered(c, tr, n, LAST_KEYS, e) && e != BadKey
    ensures e.Ok?
  {
    if e.Other? {
      var i := |tr| - 1;
      assert tr[..i + 1] == tr[..i] + [tr[i]];
      assert Mild(c.oracle(tr[..i] + [tr[i]]).err);
    }
  }

  lemma SettledOrNot(c: Config, t: PState, endIndex: bool)
    requires |t.processed| == |c.groups|
    ensures var e := Finalize(c, t, BadKey, endIndex).1; var silent := t.badArg && (t.next == |t.argv| || endIndex);
      && (!silent ==> e == Other(EINVAL))
      && (silent ==> Answered(c, LastCalls(c, t, BadKey, endIndex).0.trace, |t.trace|, LAST_KEYS, e) && e != BadKey)
      && (GentleEnd(c) ==> (e.Ok? <==> silent))
  {
    ReturnValue(c, t, BadKey, endIndex);
    if GentleEnd(c) && Settled(t, BadKey, endIndex) {
      GentleAnswer(c, LastCalls(c, t, BadKey, endIndex).0.trace, |t.trace|, Finalize(c, t, BadKey, endIndex).1);
    }
  }

  /** The parser rejects a short option in round n. It goes unreported, and the parse is settled as if nothing
      had happened, if and only if an argument was dealt with before it and no long option since, and all words
      are used up or the caller takes the rest back. */
  lemma RejectedShort(c: Config, argv: seq<string>, parseArgv0: bool, n: nat, endIndex: bool, s: PState)
    requires Bounded(c, |argv|) && Init(c, argv, parseArgv0).1.Ok? && MainLoop(c, argv, parseArgv0, n) == (s, Ok)
    requires Inv(c, s) && ShortCall(c, s) && ParseNext(c, s).1 == BadKey
    ensures var s0 := Init(c, argv, parseArgv0).0; Inv(c, s0) && |s0.argv| == |argv|
    ensures MainLoop(c, argv, parseArgv0, n + 1) == ParseNext(c, s)
    ensures var t, e := ParseNext(c, s).0, WholeParse(c, argv, parseArgv0, n + 1, endIndex).1;
      var silent := FlagStands(c, Init(c, argv, parseArgv0).0, n) && (t.next == |argv| || endIndex);
      && |t.processed| == |c.groups|
      && (!silent ==> e == Other(EINVAL))
      && (silent ==> Answered(c, LastCalls(c, t, BadKey, endIndex).0.trace, |t.trace|, LAST_KEYS, e) && e != BadKey)
      && (GentleEnd(c) ==> (e.Ok? <==> silent))
  {
    InitInv(c, argv, parseArgv0);
    var s0 := Init(c, argv, parseArgv0).0;
    RunSnoc(c, s0, n);
    FlagHistory(c, s0, n);
    FlagStep(c, s);
    assert MainLoop(c, argv, parseArgv0, n + 1) == ParseNext(c, s);
    SettledOrNot(c, ParseNext(c, s).0, endIndex);
  }
}

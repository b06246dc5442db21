/** Parses that leave argv as it is: with ARGP_IN_ORDER, or with POSIXLY_CORRECT set, options and arguments are
    handled in the order of the words. */
module ArgpInTurn {
  import opened Options
  import opened ArgpTypes
  import opened ArgpMachine
  import opened ArgpSafety
  import opened ArgpOrder
  import opened ArgpParser
  import opened ArgpWhole
  import opened Seqs

  // ---------- What a reader of the words would say ----------

  /** Unknown stands for options that are unknown or ambiguous, lack an argument or have one too many; Orphan for
      options of a group without a parser. */
  datatype Fault = Sound | Unknown | Orphan

  /** The options of one word that are handed to parsers, how many of the words after it are used up, and why
      it stops there. */
  datatype Reading = Reading(events: seq<Event>, used: nat, fault: Fault)

  function ReadOption(c: Config, g: nat, o: Opt, value: Option<string>, used: nat, w: seq<string>): Reading
    requires g < |c.groups| && used <= |w|
  {
    if c.groups[g].hasParser then Reading([Event(g, o.key, value, |w| - used)], used, Sound)
    else Reading([], used, Orphan)
  }

  function ReadCluster(c: Config, cluster: string, w: seq<string>): (r: Reading)
    ensures r.used <= |w|
  {
    if cluster == "" then Reading([], 0, Sound)
    else
      var found := FindShort(c.groups, cluster[0] as int, 0, 0);
      if found.None? then Reading([], 0, Unknown)
      else
        var (g, o) := found.value;
        if o.hasArg then
          if |cluster| > 1 then ReadOption(c, g, o, Some(cluster[1..]), 0, w)
          else if o.argOptional then ReadOption(c, g, o, None, 0, w)
          else if w == [] then Reading([], 0, Unknown)
          else ReadOption(c, g, o, Some(w[0]), 1, w)
        else if !c.groups[g].hasParser then Reading([], 0, Orphan)
        else var r := ReadCluster(c, cluster[1..], w); r.(events := [Event(g, o.key, None, |w|)] + r.events)
  }

  function ReadLong(c: Config, optstart: string, w: seq<string>): (r: Reading)
    ensures r.used <= |w|
  {
    var found := FindLong(c.groups, optstart, 0, 0, 0, None);
    if found.None? then Reading([], 0, Unknown)
    else
      var (g, o) := found.value;
      var value := ValueOf(optstart);
      if value.Some? && !o.hasArg then Reading([], 0, Unknown)
      else if o.hasArg && value.None? && !o.argOptional then
        if w == [] then Reading([], 0, Unknown) else ReadOption(c, g, o, Some(w[0]), 1, w)
      else ReadOption(c, g, o, value, 0, w)
  }

  /** How the main loop ends: all calls, and where it leaves state.next and arg_ebadkey. */
  datatype End = End(trace: seq<Call>, next: int, badArg: bool)

  /** Only arguments: the words ws, which begin at position at. */
  function AllOffered(c: Config, tr: seq<Call>, ws: seq<string>, at: int): End
  {
    var r := OfferedAll(c, tr, ws, at); End(r.0, at + r.1, true)
  }

  /** The rest ws of a vector of argc words, one word after the other; flag is arg_ebadkey before it. */
  function Walk(c: Config, tr: seq<Call>, argc: int, ws: seq<string>, flag: bool): End
    decreases |ws|, 1
  {
    var at := argc - |ws|;
    if ws == [] then End(tr, at, true)
    else
      match Classify(c, ws[0])
      case ArgToken =>
        if c.ordering.RequireOrder? then AllOffered(c, tr, ws, at)
        else
          var r := Offered(c, tr, ws[0], at, 0);
          if r.1.None? then End(r.0, at, true) else Walk(c, r.0, argc, ws[1..], true)
      case QuoteToken => AllOffered(c, tr, ws[1..], at + 1)
      case LongToken(o) => WalkOn(c, tr, argc, ws, ReadLong(c, o, ws[1..]), false)
      case LongOnlyToken(o) => WalkOn(c, tr, argc, ws, ReadLong(c, o, ws[1..]), false)
      case ShortToken(o) => WalkOn(c, tr, argc, ws, ReadCluster(c, o, ws[1..]), flag)
  }

  /** An option word that reads as r. */
  function WalkOn(c: Config, tr: seq<Call>, argc: int, ws: seq<string>, r: Reading, flag: bool): End
    requires r.used < |ws|
    decreases |ws|, 0
  {
    var tr' := tr + Calls(argc, r.events);
    if r.fault.Sound? then Walk(c, tr', argc, ws[1 + r.used..], flag)
    else End(tr', argc - |ws| + 1 + r.used, r.fault.Orphan? && flag)
  }

  lemma {:induction false} ClusterReads(c: Config, cluster: string, w: seq<string>)
    ensures var r := ReadCluster(c, cluster, w);
      ScanCluster(c, cluster, w) == if r.fault.Sound? then Some((r.events, r.used)) else None
  {
    if cluster != "" {
      ClusterReads(c, cluster[1..], w);
    }
  }

  lemma LongReads(c: Config, o: string, w: seq<string>)
    ensures var r := ReadLong(c, o, w);
      if r.fault.Sound? then |r.events| == 1 && ScanLong(c, o, w) == Some((r.events[0], r.used))
      else r.events == [] && ScanLong(c, o, w) == None
  {
  }

  // ---------- The state machine does the same ----------

  ghost predicate Ends(c: Config, s: PState, argv: seq<string>, e: End)
    requires Onward(c, s) && Bounded(c, |s.argv|) && Forward(c)
  {
    var (s', err) := Run(c, s);
    && err == BadKey && s'.argv == argv && |s'.processed| == |c.groups|
    && s'.trace == e.trace && s'.next == e.next && s'.badArg == e.badArg
  }

  lemma EndsHere(c: Config, s: PState, s': PState, e: End)
    requires Onward(c, s) && Bounded(c, |s.argv|) && Forward(c) && ParseNext(c, s) == (s', BadKey)
    requires s'.argv == s.argv && |s'.processed| == |c.groups|
    requires s'.trace == e.trace && s'.next == e.next && s'.badArg == e.badArg
    ensures Ends(c, s, s.argv, e)
  {
    RunStop(c, s, s', BadKey);
  }

  /** The words done so far are pre + o; the others are ws. */
  ghost predicate InTurn(c: Config, s: PState, pre: seq<string>, o: seq<string>, ws: seq<string>)
  {
    && Cooperative(c) && !c.ordering.Permute? && Onward(c, s) && Bounded(c, |s.argv|) && Forward(c)
    && Laid(c, s, pre, [], [], o, ws) && s.nextchar.None?
  }

  lemma WordsAre(c: Config, s: PState, pre: seq<string>, o: seq<string>, ws: seq<string>)
    requires InTurn(c, s, pre, o, ws)
    ensures s.argv == (pre + o) + ws && s.next == |pre + o| == |s.argv| - |ws|
  {
    assert pre + [] + [] + o == pre + o;
  }

  lemma ArgsFollow(c: Config, s: PState, pre: seq<string>, ws: seq<string>, e: End)
    requires Cooperative(c) && ArgsLeft(c, s, pre, ws) && Onward(c, s) && Bounded(c, |s.argv|) && Forward(c)
    requires e == AllOffered(c, s.trace, ws, |pre|)
    ensures Ends(c, s, s.argv, e)
  {
    RunArgs(c, s, pre, ws);
  }

  lemma AtEnd(c: Config, s: PState, pre: seq<string>, o: seq<string>)
    requires InTurn(c, s, pre, o, [])
    ensures Ends(c, s, s.argv, End(s.trace, |s.argv|, true))
  {
    WordsAre(c, s, pre, o, []);
    assert Clamp(s) == s;
    EndsHere(c, s, s.(badArg := true), End(s.trace, |s.argv|, true));
  }

  /** The first plain word ends the options. */
  lemma AtFirstPlain(c: Config, s: PState, pre: seq<string>, o: seq<string>, ws: seq<string>, e: End)
    requires InTurn(c, s, pre, o, ws) && ws != [] && Classify(c, ws[0]).ArgToken? && c.ordering.RequireOrder?
    requires e == AllOffered(c, s.trace, ws, s.next)
    ensures Ends(c, s, s.argv, e)
  {
    WordsAre(c, s, pre, o, ws);
    LaidWord(c, s, pre, [], [], o, ws);
    AtWord(c, s, ws[0]);
    var s' := s.(argsOnly := true);
    RunStep(c, s, s');
    ArgsFollow(c, s', pre + o, ws, e);
  }

  lemma AtQuote(c: Config, s: PState, pre: seq<string>, o: seq<string>, ws: seq<string>, e: End)
    requires InTurn(c, s, pre, o, ws) && ws != [] && Classify(c, ws[0]).QuoteToken?
    requires e == AllOffered(c, s.trace, ws[1..], s.next + 1)
    ensures Ends(c, s, s.argv, e)
  {
    WordsAre(c, s, pre, o, ws);
    var s' := StepQuote(c, s, pre, [], [], o, ws);
    RunStep(c, s, s');
    assert [] + o == o && [] + ws[1..] == ws[1..];
    ShiftWord(pre + o, ws);
    ArgsFollow(c, s', pre + o + [ws[0]], ws[1..], e);
  }

  lemma SameWords(pre: seq<string>, o: seq<string>, ws: seq<string>, k: nat)
    requires k <= |ws|
    ensures pre + [] + [] + (o + ws[..k]) + ws[k..] == pre + [] + [] + o + ws
  {
    assert ws == ws[..k] + ws[k..];
  }

  lemma {:induction false} PlainOffered(c: Config, s: PState, pre: seq<string>, o: seq<string>, ws: seq<string>)
    requires InTurn(c, s, pre, o, ws) && ws != [] && Classify(c, ws[0]).ArgToken? && c.ordering.ReturnInOrder?
    ensures var r := Offered(c, s.trace, ws[0], s.next, 0); var s' := ParseNext(c, s).0;
      if r.1.Some? then
        && ParseNext(c, s).1.Ok? && |s'.processed| == |c.groups|
        && s' == s.(badArg := true, next := s.next + 1, trace := r.0, processed := s'.processed)
      else ParseNext(c, s) == (s.(badArg := true, trace := r.0), BadKey)
  {
    LaidWord(c, s, pre, [], [], o, ws);
    AtWord(c, s, ws[0]);
    OfferIs(c, s.(badArg := true), ws[0], 0);
  }

  lemma LaidNext(c: Config, s: PState, s': PState, pre: seq<string>, o: seq<string>, ws: seq<string>)
    requires Laid(c, s, pre, [], [], o, ws) && ws != [] && |s'.processed| == |c.groups|
    requires s' == s.(badArg := s'.badArg, next := s.next + 1, trace := s'.trace, processed := s'.processed)
    ensures Laid(c, s', pre, [], [], o + [ws[0]], ws[1..])
  {
    SameWords(pre, o, ws, 1);
    assert ws[..1] == [ws[0]];
  }

  /** A plain word between options: who takes it, if anybody. */
  lemma AtPlain(c: Config, s: PState, pre: seq<string>, o: seq<string>, ws: seq<string>) returns (s': PState)
    requires InTurn(c, s, pre, o, ws) && ws != [] && Classify(c, ws[0]).ArgToken? && c.ordering.ReturnInOrder?
    ensures var r := Offered(c, s.trace, ws[0], s.next, 0);
      if r.1.Some? then
        && InTurn(c, s', pre, o + [ws[0]], ws[1..]) && Run(c, s) == Run(c, s')
        && s'.argv == s.argv && s'.trace == r.0 && s'.badArg
      else Ends(c, s, s.argv, End(r.0, s.next, true))
  {
    PlainOffered(c, s, pre, o, ws);
    s' := ParseNext(c, s).0;
    var r := Offered(c, s.trace, ws[0], s.next, 0);
    if r.1.Some? {
      RunStep(c, s, s');
      LaidNext(c, s, s', pre, o, ws);
    } else {
      EndsHere(c, s, s', End(r.0, s.next, true));
    }
  }

  /** A long option that is not sound. */
  lemma LongStops(c: Config, s: PState, pre: seq<string>, o: seq<string>, ws: seq<string>, r: Reading)
    requires InTurn(c, s, pre, o, ws) && ws != []
    requires Classify(c, ws[0]).LongToken? || Classify(c, ws[0]).LongOnlyToken?
    requires r == ReadLong(c, Classify(c, ws[0]).opt, ws[1..]) && !r.fault.Sound?
    ensures Ends(c, s, s.argv, End(s.trace, s.next + 1 + r.used, false))
  {
    WordsAre(c, s, pre, o, ws);
    LaidWord(c, s, pre, [], [], o, ws);
    AtWord(c, s, ws[0]);
    EndsHere(c, s, ParseNext(c, s).0, End(s.trace, s.next + 1 + r.used, false));
  }

  /** The letter at which a cluster stops. */
  lemma {:induction false} LetterStops(c: Config, s: PState, cluster: string, w: seq<string>)
    requires s.nextchar == Some(cluster) && cluster != "" && 0 <= s.next <= |s.argv| && s.argv[s.next..] == w
    requires var r := ReadCluster(c, cluster, w); !r.fault.Sound? && r.events == []
    requires var found := FindShort(c.groups, cluster[0] as int, 0, 0);
      found.None? || found.value.1.hasArg || !c.groups[found.value.0].hasParser
    ensures var r := ReadCluster(c, cluster, w); var (s', e) := ParseShort(c, s);
      && e == BadKey && s'.argv == s.argv && s'.processed == s.processed && s'.trace == s.trace
      && s'.next == s.next + r.used && s'.badArg == (r.fault.Orphan? && s.badArg)
  {
    assert w == [] <==> s.next == |s.argv|;
  }

  /** A letter without an argument, in front of letters at which the cluster stops. */
  lemma LetterGoesOn(c: Config, s: PState, cluster: string, w: seq<string>) returns (t: PState)
    requires Cooperative(c) && Onward(c, s) && Bounded(c, |s.argv|) && Forward(c)
    requires s.nextchar == Some(cluster) && cluster != "" && s.quoted == 0
    requires !ReadCluster(c, cluster, w).fault.Sound?
    requires var found := FindShort(c.groups, cluster[0] as int, 0, 0);
      found.Some? && !found.value.1.hasArg && c.groups[found.value.0].hasParser
    ensures Onward(c, t) && Run(c, s) == Run(c, t)
    ensures t == s.(nextchar := Some(cluster[1..]), trace := t.trace) && cluster[1..] != ""
    ensures var (g, o) := FindShort(c.groups, cluster[0] as int, 0, 0).value;
      t.trace == s.trace + [Call(g, OptKey(o.key), None, s.next)]
  {
    var (g, o) := FindShort(c.groups, cluster[0] as int, 0, 0).value;
    assert cluster[1..] != "";
    CallAgreed(c, s.(nextchar := Some(cluster[1..])), g, OptKey(o.key), None);
    t := ParseShort(c, s).0;
    RunLetter(c, s, t);
  }

  lemma {:induction false} ReadLetter(c: Config, cluster: string, w: seq<string>)
    requires cluster != ""
    requires var found := FindShort(c.groups, cluster[0] as int, 0, 0);
      found.Some? && !found.value.1.hasArg && c.groups[found.value.0].hasParser
    ensures var r, r' := ReadCluster(c, cluster, w), ReadCluster(c, cluster[1..], w);
      var (g, o) := FindShort(c.groups, cluster[0] as int, 0, 0).value;
      && r.used == r'.used && r.fault == r'.fault
      && r.events != [] && r.events[0] == Event(g, o.key, None, |w|) && r.events[1..] == r'.events
  {
  }

  /** Where a cluster that reads as r ends. */
  function ClusterEnd(s: PState, r: Reading): End
  {
    End(s.trace + Calls(|s.argv|, r.events), s.next + r.used, r.fault.Orphan? && s.badArg)
  }

  lemma {:induction false} ClusterStopsHere(c: Config, s: PState, cluster: string, w: seq<string>, r: Reading)
    requires Onward(c, s) && Bounded(c, |s.argv|) && Forward(c)
    requires s.nextchar == Some(cluster) && s.argv[s.next..] == w && s.quoted == 0
    requires r == ReadCluster(c, cluster, w) && !r.fault.Sound?
    requires var found := FindShort(c.groups, cluster[0] as int, 0, 0);
      found.None? || found.value.1.hasArg || !c.groups[found.value.0].hasParser
    ensures Ends(c, s, s.argv, ClusterEnd(s, r))
  {
    assert Clamp(s) == s && r.events == [] && s.trace + Calls(|s.argv|, []) == s.trace;
    LetterStops(c, s, cluster, w);
    EndsHere(c, s, ParseShort(c, s).0, End(s.trace, s.next + r.used, r.fault.Orphan? && s.badArg));
  }

  /** A letter that goes on, and what is left to show. */
  lemma {:induction false} ClusterGoesOn(c: Config, s: PState, cluster: string, w: seq<string>, r: Reading)
    returns (t: PState, r': Reading)
    requires Cooperative(c) && Onward(c, s) && Bounded(c, |s.argv|) && Forward(c)
    requires s.nextchar == Some(cluster) && s.argv[s.next..] == w && s.quoted == 0
    requires r == ReadCluster(c, cluster, w) && !r.fault.Sound?
    requires var found := FindShort(c.groups, cluster[0] as int, 0, 0);
      found.Some? && !found.value.1.hasArg && c.groups[found.value.0].hasParser
    ensures Onward(c, t) && Run(c, s) == Run(c, t) && t == s.(nextchar := Some(cluster[1..]), trace := t.trace)
    ensures r' == ReadCluster(c, cluster[1..], w) && !r'.fault.Sound? && cluster[1..] != ""
    ensures ClusterEnd(t, r') == ClusterEnd(s, r)
  {
    t := LetterGoesOn(c, s, cluster, w);
    r' := ReadCluster(c, cluster[1..], w);
    ReadLetter(c, cluster, w);
    EndKept(s, t, r, r');
  }

  lemma {:induction false} EndKept(s: PState, t: PState, r: Reading, r': Reading)
    requires t == s.(nextchar := t.nextchar, trace := t.trace) && r.used == r'.used && r.fault == r'.fault
    requires r.events != [] && r.events[1..] == r'.events && r.events[0].left == |s.argv| - s.next
    requires t.trace == s.trace + [Call(r.events[0].group, OptKey(r.events[0].key), r.events[0].value, s.next)]
    ensures ClusterEnd(t, r') == ClusterEnd(s, r)
  {
    CallsCons(s.trace, |s.argv|, r.events);
  }

  lemma {:induction false} ClusterStops(c: Config, s: PState, cluster: string, w: seq<string>, r: Reading)
    requires Cooperative(c) && Onward(c, s) && Bounded(c, |s.argv|) && Forward(c)
    requires s.nextchar == Some(cluster) && s.argv[s.next..] == w && s.quoted == 0
    requires r == ReadCluster(c, cluster, w) && !r.fault.Sound?
    ensures Ends(c, s, s.argv, ClusterEnd(s, r))
    decreases |cluster|
  {
    var found := FindShort(c.groups, cluster[0] as int, 0, 0);
    if found.None? || found.value.1.hasArg || !c.groups[found.value.0].hasParser {
      ClusterStopsHere(c, s, cluster, w, r);
    } else {
      var t, r' := ClusterGoesOn(c, s, cluster, w, r);
      ClusterStops(c, t, cluster[1..], w, r');
      EndsLikewise(c, s, t, ClusterEnd(s, r));
    }
  }

  ghost predicate Passed(c: Config, s: PState, s': PState, pre: seq<string>, o: seq<string>, ws: seq<string>,
                         r: Reading)
  {
    && Onward(c, s) && Bounded(c, |s.argv|) && Forward(c) && r.used < |ws|
    && InTurn(c, s', pre, o + ws[..1 + r.used], ws[1 + r.used..]) && s'.argv == s.argv
    && Run(c, s) == Run(c, s') && s'.trace == s.trace + Calls(|s.argv|, r.events)
  }

  lemma LongPasses(c: Config, s: PState, pre: seq<string>, o: seq<string>, ws: seq<string>, r: Reading)
    returns (s': PState)
    requires InTurn(c, s, pre, o, ws) && ws != []
    requires Classify(c, ws[0]).LongToken? || Classify(c, ws[0]).LongOnlyToken?
    requires r == ReadLong(c, Classify(c, ws[0]).opt, ws[1..]) && r.fault.Sound?
    ensures Passed(c, s, s', pre, o, ws, r) && !s'.badArg
  {
    LongReads(c, Classify(c, ws[0]).opt, ws[1..]);
    s' := RunLong(c, s, pre, [], [], o, ws, r.events[0], r.used);
    assert [r.events[0]] == r.events;
    SameWords(pre, o, ws, 1 + r.used);
  }

  lemma ShortPasses(c: Config, s: PState, pre: seq<string>, o: seq<string>, ws: seq<string>, r: Reading)
    returns (s': PState)
    requires InTurn(c, s, pre, o, ws) && ws != [] && Classify(c, ws[0]).ShortToken?
    requires r == ReadCluster(c, Classify(c, ws[0]).opt, ws[1..]) && r.fault.Sound?
    ensures Passed(c, s, s', pre, o, ws, r) && s'.badArg == s.badArg
  {
    ClusterReads(c, Classify(c, ws[0]).opt, ws[1..]);
    s' := RunShort(c, s, pre, [], [], o, ws, r.events, r.used);
    SameWords(pre, o, ws, 1 + r.used);
  }

  lemma {:induction false} ShortStops(c: Config, s: PState, pre: seq<string>, o: seq<string>, ws: seq<string>,
                                      r: Reading)
    requires InTurn(c, s, pre, o, ws) && ws != [] && Classify(c, ws[0]).ShortToken?
    requires r == ReadCluster(c, Classify(c, ws[0]).opt, ws[1..]) && !r.fault.Sound?
    ensures Ends(c, s, s.argv, End(s.trace + Calls(|s.argv|, r.events), s.next + 1 + r.used,
                                   r.fault.Orphan? && s.badArg))
  {
    var t := StartCluster(c, s, pre, [], [], o, ws);
    ClusterStops(c, t, Classify(c, ws[0]).opt, ws[1..], r);
  }

  /** An option word, sound or not. */
  lemma AtLong(c: Config, s: PState, pre: seq<string>, o: seq<string>, ws: seq<string>, r: Reading)
    returns (s': PState)
    requires InTurn(c, s, pre, o, ws) && ws != []
    requires Classify(c, ws[0]).LongToken? || Classify(c, ws[0]).LongOnlyToken?
    requires r == ReadLong(c, Classify(c, ws[0]).opt, ws[1..])
    ensures r.fault.Sound? ==> Passed(c, s, s', pre, o, ws, r) && !s'.badArg
    ensures !r.fault.Sound? ==>
      Ends(c, s, s.argv, End(s.trace + Calls(|s.argv|, r.events), s.next + 1 + r.used, false))
  {
    if r.fault.Sound? {
      s' := LongPasses(c, s, pre, o, ws, r);
    } else {
      s' := s;
      LongReads(c, Classify(c, ws[0]).opt, ws[1..]);
      assert s.trace + Calls(|s.argv|, []) == s.trace;
      LongStops(c, s, pre, o, ws, r);
    }
  }

  lemma AtShort(c: Config, s: PState, pre: seq<string>, o: seq<string>, ws: seq<string>, r: Reading)
    returns (s': PState)
    requires InTurn(c, s, pre, o, ws) && ws != [] && Classify(c, ws[0]).ShortToken?
    requires r == ReadCluster(c, Classify(c, ws[0]).opt, ws[1..])
    ensures r.fault.Sound? ==> Passed(c, s, s', pre, o, ws, r) && s'.badArg == s.badArg
    ensures !r.fault.Sound? ==>
      Ends(c, s, s.argv, End(s.trace + Calls(|s.argv|, r.events), s.next + 1 + r.used, r.fault.Orphan? && s.badArg))
  {
    if r.fault.Sound? {
      s' := ShortPasses(c, s, pre, o, ws, r);
    } else {
      s' := s;
      ShortStops(c, s, pre, o, ws, r);
    }
  }

  /** From any point between two words, the rest of the parse goes through the words in their order. */
  lemma {:induction false} InTurnFrom(c: Config, s: PState, pre: seq<string>, o: seq<string>, ws: seq<string>)
    requires InTurn(c, s, pre, o, ws)
    ensures Ends(c, s, s.argv, Walk(c, s.trace, |s.argv|, ws, s.badArg))
    decreases |ws|, 1
  {
    WordsAre(c, s, pre, o, ws);
    if ws == [] {
      AtEnd(c, s, pre, o);
    } else {
      match Classify(c, ws[0])
      case ArgToken =>
        if c.ordering.RequireOrder? {
          AtFirstPlain(c, s, pre, o, ws, AllOffered(c, s.trace, ws, s.next));
        } else {
          InTurnPlain(c, s, pre, o, ws);
        }
      case QuoteToken => AtQuote(c, s, pre, o, ws, AllOffered(c, s.trace, ws[1..], s.next + 1));
      case ShortToken(x) => InTurnShort(c, s, pre, o, ws);
      case LongToken(x) => InTurnLong(c, s, pre, o, ws);
      case LongOnlyToken(x) => InTurnLong(c, s, pre, o, ws);
    }
  }

  lemma {:induction false} InTurnPlain(c: Config, s: PState, pre: seq<string>, o: seq<string>, ws: seq<string>)
    requires InTurn(c, s, pre, o, ws) && ws != [] && Classify(c, ws[0]).ArgToken? && c.ordering.ReturnInOrder?
    ensures var r := Offered(c, s.trace, ws[0], s.next, 0);
      Ends(c, s, s.argv, if r.1.None? then End(r.0, s.next, true) else Walk(c, r.0, |s.argv|, ws[1..], true))
    decreases |ws|, 0
  {
    var s' := AtPlain(c, s, pre, o, ws);
    if Offered(c, s.trace, ws[0], s.next, 0).1.Some? {
      InTurnFrom(c, s', pre, o + [ws[0]], ws[1..]);
    }
  }

  lemma {:induction false} InTurnShort(c: Config, s: PState, pre: seq<string>, o: seq<string>, ws: seq<string>)
    requires InTurn(c, s, pre, o, ws) && ws != [] && Classify(c, ws[0]).ShortToken?
    ensures var r := ReadCluster(c, Classify(c, ws[0]).opt, ws[1..]);
      Ends(c, s, s.argv, WalkOn(c, s.trace, |s.argv|, ws, r, s.badArg))
    decreases |ws|, 0, 1
  {
    var r := ReadCluster(c, Classify(c, ws[0]).opt, ws[1..]);
    var s' := AtShort(c, s, pre, o, ws, r);
    InTurnOn(c, s, s', pre, o, ws, r, s.badArg);
  }

  lemma {:induction false} InTurnLong(c: Config, s: PState, pre: seq<string>, o: seq<string>, ws: seq<string>)
    requires InTurn(c, s, pre, o, ws) && ws != []
    requires Classify(c, ws[0]).LongToken? || Classify(c, ws[0]).LongOnlyToken?
    ensures var r := ReadLong(c, Classify(c, ws[0]).opt, ws[1..]);
      Ends(c, s, s.argv, WalkOn(c, s.trace, |s.argv|, ws, r, false))
    decreases |ws|, 0, 1
  {
    var r := ReadLong(c, Classify(c, ws[0]).opt, ws[1..]);
    var s' := AtLong(c, s, pre, o, ws, r);
    InTurnOn(c, s, s', pre, o, ws, r, false);
  }

  lemma {:induction false} InTurnOn(c: Config, s: PState, s': PState, pre: seq<string>, o: seq<string>,
                                    ws: seq<string>, r: Reading, flag: bool)
    requires InTurn(c, s, pre, o, ws) && r.used < |ws|
    requires r.fault.Sound? ==> Passed(c, s, s', pre, o, ws, r) && s'.badArg == flag
    requires !r.fault.Sound? ==> Ends(c, s, s.argv, End(s.trace + Calls(|s.argv|, r.events), s.next + 1 + r.used,
                                                         r.fault.Orphan? && flag))
    ensures Ends(c, s, s.argv, WalkOn(c, s.trace, |s.argv|, ws, r, flag))
    decreases |ws|, 0, 0
  {
    WordsAre(c, s, pre, o, ws);
    if r.fault.Sound? {
      InTurnFrom(c, s', pre, o + ws[..1 + r.used], ws[1 + r.used..]);
      EndsLikewise(c, s, s', Walk(c, s'.trace, |s'.argv|, ws[1 + r.used..], flag));
    }
  }

  lemma {:induction false} EndsLikewise(c: Config, s: PState, s': PState, e: End)
    requires Onward(c, s) && Onward(c, s') && Bounded(c, |s.argv|) && Forward(c)
    requires s'.argv == s.argv && Run(c, s) == Run(c, s') && Ends(c, s', s'.argv, e)
    ensures Ends(c, s, s.argv, e)
  {
  }

  // ---------- Whole parses ----------

  /** What argp_parse does with the words, from parser_init on. */
  function WholeWalk(c: Config, argv: seq<string>, parseArgv0: bool): End
  {
    Walk(c, Init(c, argv, parseArgv0).0.trace, |argv|, argv[Skipped(argv, parseArgv0)..], false)
  }

  lemma RunInTurn(c: Config, argv: seq<string>, parseArgv0: bool, k: nat)
    requires Cooperative(c) && !c.ordering.Permute? && Bounded(c, |argv|) && Forward(c)
    requires k == Skipped(argv, parseArgv0)
    ensures var r := Init(c, argv, parseArgv0);
      r.1.Ok? && Onward(c, r.0) && |r.0.argv| == |argv| && Ends(c, r.0, argv, WholeWalk(c, argv, parseArgv0))
  {
    StartAgreed(c, argv, parseArgv0);
    ReachesEnd(c, argv, parseArgv0);
    var s := Init(c, argv, parseArgv0).0;
    assert argv == argv[..k] + argv[k..] && argv[..k] + [] + [] + [] + argv[k..] == argv[..k] + argv[k..];
    InTurnFrom(c, s, argv[..k], [], argv[k..]);
  }

  /** With callbacks that work together, argp_parse leaves argv as it is when it does not permute; its calls
      follow the order of the words; and it returns 0 if and only if arg_ebadkey stands at the end and every word
      is used, or the caller takes the rest back; EINVAL otherwise. */
  lemma {:induction false} InTurnParse(c: Config, argv: seq<string>, parseArgv0: bool, endIndex: bool)
    requires Cooperative(c) && !c.ordering.Permute?
    ensures Bounded(c, |argv|) && Forward(c)
    ensures Onward(c, Init(c, argv, parseArgv0).0) && |Init(c, argv, parseArgv0).0.argv| == |argv|
    ensures Run(c, Init(c, argv, parseArgv0).0).0.trace == WholeWalk(c, argv, parseArgv0).trace
    ensures var (s, e) := Outcome(c, argv, parseArgv0, endIndex); var w := WholeWalk(c, argv, parseArgv0);
      && s.argv == argv && s.next == w.next
      && e == if w.badArg && (w.next == |argv| || endIndex) then Ok else Other(EINVAL)
  {
    CooperativeIsForward(c, |argv|);
    RunInTurn(c, argv, parseArgv0, Skipped(argv, parseArgv0));
    FinishAgreed(c, Run(c, Init(c, argv, parseArgv0).0).0, endIndex);
  }
}

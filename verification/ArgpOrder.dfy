/** Permuting parses: where every word ends up and in which order the callbacks see options and arguments. */
module ArgpOrder {
  import opened Options
  import opened ArgpTypes
  import opened ArgpMachine
  import opened ArgpSafety
  import opened Seqs

  // ---------- What a reader of the words would say ----------

  /** An option with its value, as handed to a parser when left words are still to be looked at. */
  datatype Event = Event(group: nat, key: int, value: Option<string>, left: nat)

  /** The words of a command line sorted into option words with their consumed arguments, plain words
      before any "--", the "--" itself, and the words after it. */
  datatype Scan = Scan(opts: seq<string>, events: seq<Event>, plain: seq<string>, quote: seq<string>, rest: seq<string>)

  /** The letters of a cluster, and how many of the following words they consume. */
  function ScanCluster(c: Config, cluster: string, ws: seq<string>): (r: Option<(seq<Event>, nat)>)
    ensures r.Some? ==> r.value.1 <= 1 && r.value.1 <= |ws|
  {
    if cluster == "" then Some(([], 0))
    else
      var found := FindShort(c.groups, cluster[0] as int, 0, 0);
      if found.None? || !c.groups[found.value.0].hasParser then None
      else
        var (g, o) := found.value;
        if !o.hasArg then
          var r := ScanCluster(c, cluster[1..], ws);
          if r.None? then None else Some(([Event(g, o.key, None, |ws|)] + r.value.0, r.value.1))
        else if |cluster| > 1 then Some(([Event(g, o.key, Some(cluster[1..]), |ws|)], 0))
        else if o.argOptional then Some(([Event(g, o.key, None, |ws|)], 0))
        else if ws == [] then None
        else Some(([Event(g, o.key, Some(ws[0]), |ws| - 1)], 1))
  }

  /** A long option, and how many of the following words it consumes. */
  function ScanLong(c: Config, optstart: string, ws: seq<string>): (r: Option<(Event, nat)>)
    ensures r.Some? ==> r.value.1 <= 1 && r.value.1 <= |ws|
  {
    var found := FindLong(c.groups, optstart, 0, 0, 0, None);
    if found.None? || !c.groups[found.value.0].hasParser then None
    else
      var (g, o) := found.value;
      var value := ValueOf(optstart);
      if value.Some? && !o.hasArg then None
      else if o.hasArg && value.None? && !o.argOptional then
        if ws == [] then None else Some((Event(g, o.key, Some(ws[0]), |ws| - 1), 1))
      else Some((Event(g, o.key, value, |ws|), 0))
  }

  /** None if some option is unknown, lacks its argument, or has one it does not take. */
  function ScanWords(c: Config, ws: seq<string>): Option<Scan>
    decreases |ws|
  {
    if ws == [] then Some(Scan([], [], [], [], []))
    else
      match Classify(c, ws[0])
      case ArgToken =>
        var r := ScanWords(c, ws[1..]);
        if r.None? then None else Some(r.value.(plain := [ws[0]] + r.value.plain))
      case QuoteToken => Some(Scan([], [], [], [ws[0]], ws[1..]))
      case LongToken(o) => ScanAfter(c, ws, OneEvent(ScanLong(c, o, ws[1..])))
      case LongOnlyToken(o) => ScanAfter(c, ws, OneEvent(ScanLong(c, o, ws[1..])))
      case ShortToken(o) => ScanAfter(c, ws, ScanCluster(c, o, ws[1..]))
  }

  function OneEvent(r: Option<(Event, nat)>): Option<(seq<Event>, nat)>
  {
    if r.None? then None else Some(([r.value.0], r.value.1))
  }

  /** An option word that consumes e.1 more words. */
  function ScanAfter(c: Config, ws: seq<string>, e: Option<(seq<Event>, nat)>): Option<Scan>
    requires ws != [] && (e.Some? ==> e.value.1 < |ws|)
    decreases |ws|, 0
  {
    if e.None? then None
    else
      var k := 1 + e.value.1;
      var r := ScanWords(c, ws[k..]);
      if r.None? then None
      else Some(r.value.(opts := ws[..k] + r.value.opts, events := e.value.0 + r.value.events))
  }

  lemma MultisetMiddle(a: seq<string>, b: seq<string>, x: string, d: seq<string>, e: seq<string>)
    ensures multiset(a + b + ([x] + d) + e) == multiset([x] + (a + b + d + e))
  {
    assert a + b + ([x] + d) + e == (a + b) + [x] + (d + e);
    assert a + b + d + e == (a + b) + (d + e);
    assert [x] + ((a + b) + (d + e)) == [x] + (a + b) + (d + e);
  }

  /** The words of a scan in the order in which they end up. */
  function Arranged(r: Scan): seq<string>
  {
    r.opts + r.quote + r.plain + r.rest
  }

  /** No word is lost or invented. */
  lemma {:induction false} ScanConserves(c: Config, ws: seq<string>)
    requires ScanWords(c, ws).Some?
    ensures multiset(Arranged(ScanWords(c, ws).value)) == multiset(ws)
    decreases |ws|
  {
    if ws != [] {
      match Classify(c, ws[0])
      case ArgToken =>
        ScanConserves(c, ws[1..]);
        ConservesPlain(ws, ScanWords(c, ws[1..]).value);
      case QuoteToken => ConservesQuote(ws);
      case LongToken(o) => ConservesAfter(c, ws, OneEvent(ScanLong(c, o, ws[1..])));
      case LongOnlyToken(o) => ConservesAfter(c, ws, OneEvent(ScanLong(c, o, ws[1..])));
      case ShortToken(o) => ConservesAfter(c, ws, ScanCluster(c, o, ws[1..]));
    }
  }

  lemma ConservesQuote(ws: seq<string>)
    requires ws != []
    ensures Arranged(Scan([], [], [], [ws[0]], ws[1..])) == ws
  {
  }

  lemma ConservesPlain(ws: seq<string>, q: Scan)
    requires ws != [] && multiset(Arranged(q)) == multiset(ws[1..])
    ensures multiset(Arranged(q.(plain := [ws[0]] + q.plain))) == multiset(ws)
  {
    assert ws == [ws[0]] + ws[1..];
    MultisetMiddle(q.opts, q.quote, ws[0], q.plain, q.rest);
  }

  lemma {:induction false} ConservesAfter(c: Config, ws: seq<string>, e: Option<(seq<Event>, nat)>)
    requires ws != [] && (e.Some? ==> e.value.1 < |ws|) && ScanAfter(c, ws, e).Some?
    ensures multiset(Arranged(ScanAfter(c, ws, e).value)) == multiset(ws)
    decreases |ws|, 0
  {
    var k := 1 + e.value.1;
    ScanConserves(c, ws[k..]);
    var q, r := ScanWords(c, ws[k..]).value, ScanAfter(c, ws, e).value;
    assert ws == ws[..k] + ws[k..];
    Regroup5(ws[..k], q.opts, q.quote, q.plain, q.rest);
    assert Arranged(r) == ws[..k] + Arranged(q);
  }

  // ---------- What the callbacks are asked ----------

  /** The callbacks work together: none moves state.next or rewrites argv; an option is accepted by the parser
      it belongs to; an argument is accepted or left to others, one at a time; and the special keys are handled
      or not understood. */
  ghost predicate Cooperative(c: Config)
  {
    forall tr: seq<Call>, call: Call :: Helpful(call.key, c.oracle(tr + [call]))
  }

  predicate Helpful(key: Key, r: Reply)
  {
    && r.next.None? && r.argv.None? && Mild(r.err)
    && (key.OptKey? ==> r.err.Ok?) && (key.ArgsKey? ==> r.err == BadKey)
  }

  /** The calls for the options of a scan of argc words in all. */
  function Calls(argc: int, es: seq<Event>): seq<Call>
  {
    if es == [] then []
    else [Call(es[0].group, OptKey(es[0].key), es[0].value, argc - es[0].left)] + Calls(argc, es[1..])
  }

  /** The calls that follow tr when the word val at position at is offered to the groups from g on, until one
      takes it; and which one does. */
  function Offered(c: Config, tr: seq<Call>, val: string, at: int, g: nat): (r: (seq<Call>, Option<nat>))
    ensures r.1.Some? ==> g <= r.1.value < |c.groups|
    decreases |c.groups| - g
  {
    if g >= |c.groups| then (tr, None)
    else if !c.groups[g].hasParser then Offered(c, tr, val, at, g + 1)
    else
      var asked := tr + [Call(g, ArgKey, Some(val), at + 1)];
      if c.oracle(asked).err.Ok? then (asked, Some(g))
      else Offered(c, asked + [Call(g, ArgsKey, None, at)], val, at, g + 1)
  }

  /** The same for the words ws, which begin at position at, one after the other until one is taken by nobody:
      all calls, and how many words are taken. */
  function OfferedAll(c: Config, tr: seq<Call>, ws: seq<string>, at: int): (r: (seq<Call>, nat))
    ensures r.1 <= |ws|
    decreases |ws|
  {
    if ws == [] then (tr, 0)
    else
      var r := Offered(c, tr, ws[0], at, 0);
      if r.1.None? then (r.0, 0)
      else var t := OfferedAll(c, r.0, ws[1..], at + 1); (t.0, 1 + t.1)
  }

  // ---------- What the callbacks hear ----------

  /** An option or argument as its parser sees it, state.next aside. */
  datatype View = View(group: nat, key: Key, arg: Option<string>)

  /** The options and arguments that have been accepted in the course of tr. */
  ghost function Heard(c: Config, tr: seq<Call>): seq<View>
    decreases |tr|
  {
    if tr == [] then []
    else
      var call := tr[|tr| - 1];
      Heard(c, tr[..|tr| - 1]) + if (call.key.OptKey? || call.key.ArgKey?) && c.oracle(tr).err.Ok?
                                 then [View(call.group, call.key, call.arg)] else []
  }

  function OptViews(es: seq<Event>): seq<View>
  {
    if es == [] then [] else [View(es[0].group, OptKey(es[0].key), es[0].value)] + OptViews(es[1..])
  }

  /** Word number k goes to group gs[k]. */
  function ArgViews(gs: seq<nat>, ws: seq<string>): seq<View>
    requires |gs| == |ws|
  {
    if ws == [] then [] else [View(gs[0], ArgKey, Some(ws[0]))] + ArgViews(gs[1..], ws[1..])
  }

  lemma {:induction false} HeardSnoc(c: Config, tr: seq<Call>, call: Call)
    ensures Heard(c, tr + [call]) == Heard(c, tr) +
      if (call.key.OptKey? || call.key.ArgKey?) && c.oracle(tr + [call]).err.Ok?
      then [View(call.group, call.key, call.arg)] else []
  {
    assert (tr + [call])[..|tr|] == tr;
  }

  /** Every option of a scan is heard, in order. */
  lemma {:induction false} CallsHeard(c: Config, tr: seq<Call>, argc: int, es: seq<Event>)
    requires Cooperative(c)
    ensures Heard(c, tr + Calls(argc, es)) == Heard(c, tr) + OptViews(es)
    decreases |es|
  {
    if es == [] {
      assert tr + [] == tr && Heard(c, tr) + [] == Heard(c, tr);
    } else {
      var call := Call(es[0].group, OptKey(es[0].key), es[0].value, argc - es[0].left);
      HeardSnoc(c, tr, call);
      CallsHeard(c, tr + [call], argc, es[1..]);
      Regroup(tr, [call], Calls(argc, es[1..]));
      Regroup(Heard(c, tr), [View(es[0].group, OptKey(es[0].key), es[0].value)], OptViews(es[1..]));
    }
  }

  /** Of an offer, only the call that takes the word is heard. */
  lemma {:induction false} OfferHeard(c: Config, tr: seq<Call>, val: string, at: int, g: nat)
    requires Cooperative(c)
    ensures var r := Offered(c, tr, val, at, g);
      Heard(c, r.0) == Heard(c, tr) + if r.1.Some? then [View(r.1.value, ArgKey, Some(val))] else []
    decreases |c.groups| - g
  {
    if g < |c.groups| {
      if !c.groups[g].hasParser {
        OfferHeard(c, tr, val, at, g + 1);
      } else {
        var call := Call(g, ArgKey, Some(val), at + 1);
        HeardSnoc(c, tr, call);
        if !c.oracle(tr + [call]).err.Ok? {
          HeardSnoc(c, tr + [call], Call(g, ArgsKey, None, at));
          OfferHeard(c, tr + [call] + [Call(g, ArgsKey, None, at)], val, at, g + 1);
        }
      }
    }
  }

  /** The accepted ARG calls are the words in order, up to the first that nobody takes. */
  lemma {:induction false} OffersHeard(c: Config, tr: seq<Call>, ws: seq<string>, at: int) returns (gs: seq<nat>)
    requires Cooperative(c)
    ensures var r := OfferedAll(c, tr, ws, at);
      |gs| == r.1 && Heard(c, r.0) == Heard(c, tr) + ArgViews(gs, ws[..r.1])
    decreases |ws|
  {
    gs := [];
    if ws != [] {
      var r := Offered(c, tr, ws[0], at, 0);
      OfferHeard(c, tr, ws[0], at, 0);
      if r.1.Some? {
        var t := OffersHeard(c, r.0, ws[1..], at + 1);
        gs := [r.1.value] + t;
        ArgViewsCons(Heard(c, tr), gs, ws[..1 + |t|]);
        assert ws[1..][..|t|] == ws[..1 + |t|][1..] && gs[1..] == t;
      }
    }
  }

  lemma {:induction false} ArgViewsCons(v: seq<View>, gs: seq<nat>, ws: seq<string>)
    requires |gs| == |ws| && ws != []
    ensures (v + [View(gs[0], ArgKey, Some(ws[0]))]) + ArgViews(gs[1..], ws[1..]) == v + ArgViews(gs, ws)
  {
  }

  // ---------- What the parser does ----------

  lemma CooperativeIsForward(c: Config, argc: nat)
    requires Cooperative(c)
    ensures Bounded(c, argc) && Forward(c)
  {
  }

  lemma CallAgreed(c: Config, s: PState, g: nat, key: Key, arg: Option<string>)
    requires Cooperative(c) && g < |c.groups| && c.groups[g].hasParser && key.OptKey?
    ensures GroupParse(c, s, g, key, arg) == (s.(trace := s.trace + [Call(g, key, arg, s.next)]), Ok)
  {
  }

  lemma GroupOffer(c: Config, s: PState, val: string, g: nat)
    requires Cooperative(c) && g < |c.groups|
    ensures var asked := s.trace + [Call(g, ArgKey, Some(val), s.next + 1)];
      OfferGroup(c, s, val, g) ==
        if !c.groups[g].hasParser then (s, BadKey, ArgsKey)
        else if c.oracle(asked).err.Ok? then (s.(next := s.next + 1, trace := asked), Ok, ArgKey)
        else (s.(trace := asked + [Call(g, ArgsKey, None, s.next)]), BadKey, ArgsKey)
  {
  }

  lemma {:induction false} OfferIs(c: Config, s: PState, val: string, g: nat)
    requires Cooperative(c) && g <= |c.groups|
    ensures var r := Offered(c, s.trace, val, s.next, g);
      OfferArg(c, s, val, g) ==
        if r.1.Some? then (s.(next := s.next + 1, trace := r.0), Ok, r.1.value, ArgKey)
        else (s.(trace := r.0), BadKey, |c.groups|, ArgsKey)
    decreases |c.groups| - g
  {
    if g < |c.groups| {
      GroupOffer(c, s, val, g);
      var r := OfferGroup(c, s, val, g);
      if r.1 == BadKey {
        OfferIs(c, r.0, val, g + 1);
      }
    }
  }

  // ---------- Arguments only ----------

  /** Only arguments are left: the words ws, after pre. */
  ghost predicate ArgsLeft(c: Config, s: PState, pre: seq<string>, ws: seq<string>)
  {
    && s.argv == pre + ws && s.next == |pre| && s.argsOnly && s.nextchar.None?
    && 0 <= s.first == s.last <= s.next && 0 <= s.quoted <= s.next && |s.processed| == |c.groups|
  }

  ghost predicate Finished(c: Config, s: PState, argv: seq<string>, next: int, trace: seq<Call>)
  {
    s.argv == argv && s.next == next && s.badArg && s.trace == trace && |s.processed| == |c.groups|
  }

  lemma {:induction false} RunStep(c: Config, s: PState, s': PState)
    requires Onward(c, s) && Bounded(c, |s.argv|) && Forward(c) && ParseNext(c, s) == (s', Ok)
    ensures Onward(c, s') && |s'.argv| == |s.argv| && Run(c, s) == Run(c, s')
  {
    StepShrinks(c, s);
    StepSafe(c, s);
  }

  lemma {:induction false} RunStop(c: Config, s: PState, s': PState, e: Err)
    requires Onward(c, s) && Bounded(c, |s.argv|) && Forward(c) && ParseNext(c, s) == (s', e) && !e.Ok?
    ensures Run(c, s) == (s', e)
  {
  }

  lemma StepArg(c: Config, s: PState, pre: seq<string>, ws: seq<string>) returns (s': PState)
    requires Cooperative(c) && ArgsLeft(c, s, pre, ws) && Onward(c, s) && ws != []
    ensures var r := Offered(c, s.trace, ws[0], s.next, 0);
      if r.1.Some? then ParseNext(c, s) == (s', Ok) && ArgsLeft(c, s', pre + [ws[0]], ws[1..]) && s'.trace == r.0
      else ParseNext(c, s) == (s', BadKey) && Finished(c, s', pre + ws, |pre|, r.0)
  {
    assert Clamp(s) == s;
    OfferIs(c, s.(badArg := true), ws[0], 0);
    assert s.argv[s.next] == ws[0];
    s' := ParseNext(c, s).0;
    ShiftWord(pre, ws);
  }

  lemma ShiftWord(pre: seq<string>, ws: seq<string>)
    requires ws != []
    ensures (pre + [ws[0]]) + ws[1..] == pre + ws
  {
  }

  lemma {:induction false} NoArgLeft(c: Config, s: PState, pre: seq<string>)
    requires ArgsLeft(c, s, pre, []) && Onward(c, s) && Bounded(c, |s.argv|) && Forward(c)
    ensures Run(c, s).1 == BadKey && Finished(c, Run(c, s).0, pre + [], |pre|, s.trace)
  {
    assert Clamp(s) == s;
    RunStop(c, s, s.(badArg := true), BadKey);
  }

  lemma RunArg(c: Config, s: PState, pre: seq<string>, ws: seq<string>) returns (s': PState)
    requires Cooperative(c) && ArgsLeft(c, s, pre, ws) && ws != []
    requires Onward(c, s) && Bounded(c, |s.argv|) && Forward(c)
    ensures var r := Offered(c, s.trace, ws[0], s.next, 0);
      if r.1.Some? then
        && Onward(c, s') && |s'.argv| == |s.argv| && Run(c, s) == Run(c, s')
        && ArgsLeft(c, s', pre + [ws[0]], ws[1..]) && s'.trace == r.0
      else Run(c, s) == (s', BadKey) && Finished(c, s', pre + ws, |pre|, r.0)
  {
    s' := StepArg(c, s, pre, ws);
    if Offered(c, s.trace, ws[0], s.next, 0).1.Some? {
      RunStep(c, s, s');
    } else {
      RunStop(c, s, s', BadKey);
    }
  }

  lemma {:induction false} OfferedFirst(c: Config, tr: seq<Call>, ws: seq<string>, at: int)
    requires ws != []
    ensures var r := Offered(c, tr, ws[0], at, 0);
      OfferedAll(c, tr, ws, at) ==
        if r.1.None? then (r.0, 0)
        else (OfferedAll(c, r.0, ws[1..], at + 1).0, 1 + OfferedAll(c, r.0, ws[1..], at + 1).1)
  {
  }

  /** The rest of the parse offers the words ws, which follow pre, up to the first that nobody takes. */
  ghost predicate ArgsRun(c: Config, s: PState, pre: seq<string>, ws: seq<string>)
    requires Onward(c, s) && Bounded(c, |s.argv|) && Forward(c)
  {
    var r := OfferedAll(c, s.trace, ws, |pre|);
    Run(c, s).1 == BadKey && Finished(c, Run(c, s).0, pre + ws, |pre| + r.1, r.0)
  }

  /** The first word is taken. */
  lemma {:induction false} ArgsRunOn(c: Config, s: PState, s': PState, pre: seq<string>, ws: seq<string>)
    requires Onward(c, s) && Onward(c, s') && Bounded(c, |s.argv|) && Bounded(c, |s'.argv|) && Forward(c) && ws != []
    requires Run(c, s) == Run(c, s') && ArgsRun(c, s', pre + [ws[0]], ws[1..])
    requires var r := Offered(c, s.trace, ws[0], |pre|, 0); r.1.Some? && s'.trace == r.0
    ensures ArgsRun(c, s, pre, ws)
  {
    OfferedFirst(c, s.trace, ws, |pre|);
    ShiftWord(pre, ws);
    assert |pre + [ws[0]]| == |pre| + 1;
  }

  lemma {:induction false} RunArgs(c: Config, s: PState, pre: seq<string>, ws: seq<string>)
    requires Cooperative(c) && ArgsLeft(c, s, pre, ws)
    requires Onward(c, s) && Bounded(c, |s.argv|) && Forward(c)
    ensures ArgsRun(c, s, pre, ws)
    decreases |ws|
  {
    if ws == [] {
      NoArgLeft(c, s, pre);
    } else {
      var s' := RunArg(c, s, pre, ws);
      if Offered(c, s.trace, ws[0], s.next, 0).1.Some? {
        RunArgs(c, s', pre + [ws[0]], ws[1..]);
        ArgsRunOn(c, s, s', pre, ws);
      } else {
        OfferedFirst(c, s.trace, ws, |pre|);
      }
    }
  }

  // ---------- Options first ----------

  /** Options are still looked for: o1 and o2 are the option words so far, n the plain words between
      them, ws the words not yet looked at. */
  ghost predicate Laid(c: Config, s: PState, pre: seq<string>, o1: seq<string>, n: seq<string>, o2: seq<string>,
                       ws: seq<string>)
  {
    && s.argv == pre + o1 + n + o2 + ws && s.next == |pre| + |o1| + |n| + |o2|
    && (if n == [] then 0 <= s.first == s.last <= s.next else s.first == |pre| + |o1| && s.last == s.first + |n|)
    && !s.argsOnly && s.quoted == 0 && |s.processed| == |c.groups|
  }

  lemma Slices(a: seq<string>, b: seq<string>, n: seq<string>, o: seq<string>, w: seq<string>)
    ensures var x := a + b + n + o + w; var i, j, k := |a| + |b|, |a| + |b| + |n|, |a| + |b| + |n| + |o|;
      x[..i] == a + b && x[i..j] == n && x[j..k] == o && x[k..] == w
  {
  }

  /** Exchanging the plain words with the options after them. */
  lemma ExchangeLaid(s: PState, a: seq<string>, b: seq<string>, n: seq<string>, o: seq<string>, w: seq<string>)
    requires s.argv == a + b + n + o + w
    requires s.first == |a| + |b| && s.last == s.first + |n| && s.next == s.last + |o|
    ensures Exchange(s) == s.(argv := a + (b + o) + n + w, first := s.first + |o|, last := s.next)
  {
    Slices(a, b, n, o, w);
    var x, i, j, k := s.argv, s.first, s.last, s.next;
    assert x[..i] == a + b && x[i..j] == n && x[j..k] == o && x[k..] == w;
    Together(a, b, o, n, w);
  }

  lemma Together(a: seq<string>, b: seq<string>, o: seq<string>, n: seq<string>, w: seq<string>)
    ensures a + b + o + n + w == a + (b + o) + n + w
  {
  }

  lemma NoPlain(a: seq<string>, b: seq<string>, o: seq<string>, w: seq<string>, x: string)
    ensures a + b + [] + o + ([x] + w) == a + (b + o) + [x] + [] + w
  {
  }

  lemma WithPlain(a: seq<string>, b: seq<string>, n: seq<string>, o: seq<string>, w: seq<string>, x: string)
    ensures a + (b + o) + n + ([x] + w) == a + (b + o) + (n + [x]) + [] + w
  {
  }

  /** What parser_parse_next does when it looks at the word w. */
  lemma AtWord(c: Config, s: PState, w: string)
    requires Inv(c, s) && s.last <= s.next < |s.argv| && s.quoted == 0
    requires s.nextchar.None? && !s.argsOnly && s.argv[s.next] == w
    ensures Classify(c, w).ArgToken? ==> ParseNext(c, s) == ParsePlain(c, s)
    ensures Classify(c, w).QuoteToken? ==> ParseNext(c, s) == (ParseQuote(s), Ok)
    ensures Classify(c, w).LongToken? || Classify(c, w).LongOnlyToken? ==>
      ParseNext(c, s) == ParseLong(c, s, Classify(c, w).opt)
    ensures Classify(c, w).ShortToken? ==>
      ParseNext(c, s) == (s.(next := s.next + 1, nextchar := Some(Classify(c, w).opt)), Ok)
  {
    assert Clamp(s) == s;
  }

  lemma LaidWord(c: Config, s: PState, pre: seq<string>, o1: seq<string>, n: seq<string>, o2: seq<string>,
                 ws: seq<string>)
    requires Laid(c, s, pre, o1, n, o2, ws) && ws != []
    ensures s.last <= s.next < |s.argv| && s.argv[s.next] == ws[0] && ws == [ws[0]] + ws[1..]
  {
    Slices(pre, o1, n, o2, ws);
    assert s.argv[s.next] == s.argv[s.next..][0];
  }

  /** A plain word joins the skipped ones, which move up behind all options so far. */
  lemma PlainMoves(c: Config, s: PState, pre: seq<string>, o1: seq<string>, n: seq<string>, o2: seq<string>, x: string,
                   ws: seq<string>)
    requires Laid(c, s, pre, o1, n, o2, [x] + ws) && s.last <= s.next < |s.argv| && c.ordering == Permute
    ensures ParsePlain(c, s).1.Ok? && Laid(c, ParsePlain(c, s).0, pre, o1 + o2, n + [x], [], ws)
    ensures ParsePlain(c, s).0.nextchar == s.nextchar
    ensures ParsePlain(c, s).0.trace == s.trace && ParsePlain(c, s).0.badArg == s.badArg
  {
    if n == [] {
      NoPlain(pre, o1, o2, ws, x);
      assert [] + [x] == [x];
    } else {
      ExchangeLaid(s, pre, o1, n, o2, [x] + ws);
      WithPlain(pre, o1, n, o2, ws, x);
      if o2 == [] { assert o1 + o2 == o1 && pre + o1 + n + [] + ([x] + ws) == pre + o1 + n + ([x] + ws); }
    }
  }

  lemma StepPlain(c: Config, s: PState, pre: seq<string>, o1: seq<string>, n: seq<string>, o2: seq<string>,
                  ws: seq<string>)
    returns (s': PState)
    requires Inv(c, s) && Laid(c, s, pre, o1, n, o2, ws) && s.nextchar.None? && c.ordering == Permute
    requires ws != [] && Classify(c, ws[0]).ArgToken?
    ensures ParseNext(c, s) == (s', Ok) && Laid(c, s', pre, o1 + o2, n + [ws[0]], [], ws[1..])
    ensures s'.nextchar.None? && s'.trace == s.trace && s'.badArg == s.badArg
  {
    LaidWord(c, s, pre, o1, n, o2, ws);
    AtWord(c, s, ws[0]);
    PlainMoves(c, s, pre, o1, n, o2, ws[0], ws[1..]);
    s' := ParsePlain(c, s).0;
  }

  /** "--": the options and the "--" come first, then the skipped words, then everything after it. */
  lemma QuoteMoves(c: Config, s: PState, pre: seq<string>, o1: seq<string>, n: seq<string>, o2: seq<string>, x: string,
                   ws: seq<string>)
    requires Laid(c, s, pre, o1, n, o2, [x] + ws) && s.last <= s.next < |s.argv| && s.nextchar.None?
    ensures ArgsLeft(c, ParseQuote(s), pre + (o1 + o2) + [x], n + ws) && ParseQuote(s).trace == s.trace
  {
    if n == [] {
      QuoteAlone(pre, o1, o2, x, ws);
    } else {
      var s1 := s.(next := s.next + 1);
      QuoteBehind(pre, o1, n, o2, x, ws);
      ExchangeLaid(s1, pre, o1, n, o2 + [x], ws);
    }
  }

  lemma QuoteAlone(a: seq<string>, b: seq<string>, o: seq<string>, x: string, w: seq<string>)
    ensures a + b + [] + o + ([x] + w) == a + (b + o) + [x] + ([] + w)
  {
  }

  lemma QuoteBehind(a: seq<string>, b: seq<string>, n: seq<string>, o: seq<string>, x: string, w: seq<string>)
    ensures a + b + n + o + ([x] + w) == a + b + n + (o + [x]) + w
    ensures a + (b + (o + [x])) + n + w == a + (b + o) + [x] + (n + w)
  {
  }

  lemma StepQuote(c: Config, s: PState, pre: seq<string>, o1: seq<string>, n: seq<string>, o2: seq<string>,
                  ws: seq<string>)
    returns (s': PState)
    requires Inv(c, s) && Laid(c, s, pre, o1, n, o2, ws) && s.nextchar.None?
    requires ws != [] && Classify(c, ws[0]).QuoteToken?
    ensures ParseNext(c, s) == (s', Ok)
    ensures ArgsLeft(c, s', pre + (o1 + o2) + [ws[0]], n + ws[1..]) && s'.trace == s.trace
  {
    LaidWord(c, s, pre, o1, n, o2, ws);
    AtWord(c, s, ws[0]);
    QuoteMoves(c, s, pre, o1, n, o2, ws[0], ws[1..]);
    s' := ParseQuote(s);
  }

  /** The end of the vector with words skipped: they move to the end and are parsed now. */
  lemma StepEnd(c: Config, s: PState, pre: seq<string>, o1: seq<string>, n: seq<string>, o2: seq<string>)
    returns (s': PState)
    requires Inv(c, s) && Laid(c, s, pre, o1, n, o2, []) && s.nextchar.None? && n != []
    ensures ParseNext(c, s) == (s', Ok) && ArgsLeft(c, s', pre + (o1 + o2), n) && s'.trace == s.trace
  {
    assert Clamp(s) == s;
    ExchangeLaid(s, pre, o1, n, o2, []);
    assert pre + (o1 + o2) + n + [] == pre + (o1 + o2) + n;
    s' := ParseEnd(s).0;
  }

  lemma StepStop(c: Config, s: PState, pre: seq<string>, o1: seq<string>, o2: seq<string>)
    requires Inv(c, s) && Laid(c, s, pre, o1, [], o2, []) && s.nextchar.None?
    ensures ParseNext(c, s) == (s.(badArg := true), BadKey)
    ensures s.argv == pre + (o1 + o2) && s.next == |s.argv|
  {
    assert Clamp(s) == s;
    assert pre + o1 + [] + o2 + [] == pre + (o1 + o2);
  }

  /** s' is k words further than s and at the start of a word; only calls have been made. */
  ghost predicate Past(s: PState, s': PState, k: nat)
  {
    && s'.argv == s.argv && s'.next == s.next + k && s'.first == s.first && s'.last == s.last && s'.nextchar.None?
    && s'.argsOnly == s.argsOnly && s'.quoted == s.quoted && s'.processed == s.processed
  }

  /** k more words become option words. */
  lemma LaidOption(c: Config, s: PState, s': PState, pre: seq<string>, o1: seq<string>, n: seq<string>, o2: seq<string>,
                   ws: seq<string>, k: nat)
    requires Laid(c, s, pre, o1, n, o2, ws) && k <= |ws| && Past(s, s', k)
    ensures Laid(c, s', pre, o1, n, o2 + ws[..k], ws[k..])
  {
    assert ws == ws[..k] + ws[k..];
    assert pre + o1 + n + o2 + (ws[..k] + ws[k..]) == pre + o1 + n + (o2 + ws[..k]) + ws[k..];
  }

  lemma StepLong(c: Config, s: PState, pre: seq<string>, o1: seq<string>, n: seq<string>, o2: seq<string>,
                 ws: seq<string>, e: Event, k: nat)
    returns (s': PState)
    requires Cooperative(c) && Inv(c, s) && Laid(c, s, pre, o1, n, o2, ws) && s.nextchar.None? && ws != []
    requires Classify(c, ws[0]).LongToken? || Classify(c, ws[0]).LongOnlyToken?
    requires ScanLong(c, Classify(c, ws[0]).opt, ws[1..]) == Some((e, k))
    ensures k < |ws| && ParseNext(c, s) == (s', Ok) && Laid(c, s', pre, o1, n, o2 + ws[..1 + k], ws[1 + k..])
    ensures s'.nextchar.None? && !s'.badArg && s'.trace == s.trace + Calls(|s.argv|, [e])
  {
    LaidWord(c, s, pre, o1, n, o2, ws);
    AtWord(c, s, ws[0]);
    var o := Classify(c, ws[0]).opt;
    LongTaken(c, s, pre, o1, n, o2, ws, o, e, k);
    s' := ParseLong(c, s, o).0;
    LaidOption(c, s, s', pre, o1, n, o2, ws, 1 + k);
    CallsOne(|s.argv|, [e]);
  }

  lemma LongTaken(c: Config, s: PState, pre: seq<string>, o1: seq<string>, n: seq<string>, o2: seq<string>,
                  ws: seq<string>, o: string, e: Event, k: nat)
    requires Cooperative(c) && Laid(c, s, pre, o1, n, o2, ws) && ws != [] && 0 <= s.next < |s.argv|
    requires ScanLong(c, o, ws[1..]) == Some((e, k))
    ensures e.left == |s.argv| - (s.next + 1 + k)
    ensures var call := Call(e.group, OptKey(e.key), e.value, s.next + 1 + k);
      ParseLong(c, s, o) == (s.(next := s.next + 1 + k, badArg := false, trace := s.trace + [call]), Ok)
  {
    var (g, opt) := FindLong(c.groups, o, 0, 0, 0, None).value;
    var s1 := s.(next := s.next + 1, badArg := false);
    CallAgreed(c, s1, g, OptKey(opt.key), ValueOf(o));
    if |ws| > 1 {
      LaidTail(c, s, pre, o1, n, o2, ws, 1);
      CallAgreed(c, s1.(next := s1.next + 1), g, OptKey(opt.key), Some(s1.argv[s1.next]));
    }
  }

  lemma LaidTail(c: Config, s: PState, pre: seq<string>, o1: seq<string>, n: seq<string>, o2: seq<string>,
                 ws: seq<string>, k: nat)
    requires Laid(c, s, pre, o1, n, o2, ws) && k < |ws|
    ensures s.next + k < |s.argv| && s.argv[s.next + k] == ws[k]
  {
    Slices(pre, o1, n, o2, ws);
    assert s.argv[s.next + k] == s.argv[s.next..][k];
  }

  lemma {:induction false} CallsOne(argc: int, es: seq<Event>)
    requires |es| == 1
    ensures Calls(argc, es) == [Call(es[0].group, OptKey(es[0].key), es[0].value, argc - es[0].left)]
  {
    assert es[1..] == [];
  }

  lemma {:induction false} CallsCons(tr: seq<Call>, argc: int, es: seq<Event>)
    requires es != []
    ensures (tr + [Call(es[0].group, OptKey(es[0].key), es[0].value, argc - es[0].left)]) + Calls(argc, es[1..])
            == tr + Calls(argc, es)
  {
  }

  lemma {:induction false} CallsConcat(argc: int, a: seq<Event>, b: seq<Event>)
    ensures Calls(argc, a + b) == Calls(argc, a) + Calls(argc, b)
  {
    if a == [] {
      assert a + b == b;
    } else {
      assert (a + b)[1..] == a[1..] + b;
      CallsConcat(argc, a[1..], b);
    }
  }

  // ---------- Clusters of short options ----------

  /** The one letter of a cluster that is looked at next, and what it leaves. */
  lemma {:induction false} StepLetter(c: Config, s: PState, cluster: string, w: seq<string>)
    requires Cooperative(c) && s.nextchar == Some(cluster) && cluster != ""
    requires 0 <= s.next <= |s.argv| && s.argv[s.next..] == w && ScanCluster(c, cluster, w).Some?
    ensures var r := ScanCluster(c, cluster, w).value; var o := FindShort(c.groups, cluster[0] as int, 0, 0).value.1;
      if o.hasArg then
        && |r.0| == 1 && r.0[0].left == |s.argv| - (s.next + r.1)
        && ParseShort(c, s) == (s.(nextchar := None, next := s.next + r.1,
             trace := s.trace + [Call(r.0[0].group, OptKey(r.0[0].key), r.0[0].value, s.next + r.1)]), Ok)
      else
        && ScanCluster(c, cluster[1..], w).Some? && ScanCluster(c, cluster[1..], w).value.1 == r.1
        && |r.0| > 0 && r.0[1..] == ScanCluster(c, cluster[1..], w).value.0 && r.0[0].left == |s.argv| - s.next
        && ParseShort(c, s) == (s.(nextchar := if |cluster| == 1 then None else Some(cluster[1..]),
             trace := s.trace + [Call(r.0[0].group, OptKey(r.0[0].key), r.0[0].value, s.next)]), Ok)
  {
    var (g, o) := FindShort(c.groups, cluster[0] as int, 0, 0).value;
    var s1 := s.(nextchar := if |cluster| == 1 || o.hasArg then None else Some(cluster[1..]));
    CallAgreed(c, s1, g, OptKey(o.key), if o.hasArg && |cluster| > 1 then Some(cluster[1..]) else None);
    if w != [] {
      assert s.argv[s.next] == w[0];
      CallAgreed(c, s1.(next := s1.next + 1), g, OptKey(o.key), Some(w[0]));
    }
  }

  lemma {:induction false} RunLetter(c: Config, s: PState, t: PState)
    requires Onward(c, s) && Bounded(c, |s.argv|) && Forward(c) && s.nextchar.Some? && s.quoted == 0
    requires ParseShort(c, s) == (t, Ok) && |t.argv| == |s.argv|
    ensures Onward(c, t) && Run(c, s) == Run(c, t)
  {
    assert Clamp(s) == s;
    RunStep(c, s, t);
  }

  /** The last letter of a cluster, or one whose option takes the rest of it as its argument. */
  lemma LastLetter(c: Config, s: PState, cluster: string, w: seq<string>) returns (s': PState)
    requires Cooperative(c) && Onward(c, s) && Bounded(c, |s.argv|) && Forward(c)
    requires s.nextchar == Some(cluster) && s.argv[s.next..] == w && ScanCluster(c, cluster, w).Some? && s.quoted == 0
    requires FindShort(c.groups, cluster[0] as int, 0, 0).value.1.hasArg || |cluster| == 1
    ensures Onward(c, s') && Run(c, s) == Run(c, s') && s'.badArg == s.badArg
    ensures var r := ScanCluster(c, cluster, w).value;
      Past(s, s', r.1) && s'.trace == s.trace + Calls(|s.argv|, r.0)
  {
    StepLetter(c, s, cluster, w);
    s' := ParseShort(c, s).0;
    RunLetter(c, s, s');
    CallsOne(|s.argv|, ScanCluster(c, cluster, w).value.0);
  }

  /** Any other letter. */
  lemma NextLetter(c: Config, s: PState, cluster: string, w: seq<string>) returns (t: PState)
    requires Cooperative(c) && Onward(c, s) && Bounded(c, |s.argv|) && Forward(c)
    requires s.nextchar == Some(cluster) && s.argv[s.next..] == w && ScanCluster(c, cluster, w).Some? && s.quoted == 0
    requires !FindShort(c.groups, cluster[0] as int, 0, 0).value.1.hasArg && |cluster| > 1
    ensures Onward(c, t) && Run(c, s) == Run(c, t) && t == s.(nextchar := Some(cluster[1..]), trace := t.trace)
    ensures ScanCluster(c, cluster[1..], w).Some?
    ensures var r, r' := ScanCluster(c, cluster, w).value, ScanCluster(c, cluster[1..], w).value;
      r'.1 == r.1 && t.trace + Calls(|s.argv|, r'.0) == s.trace + Calls(|s.argv|, r.0)
  {
    StepLetter(c, s, cluster, w);
    t := ParseShort(c, s).0;
    RunLetter(c, s, t);
    CallsCons(s.trace, |s.argv|, ScanCluster(c, cluster, w).value.0);
  }

  /** From a state inside a cluster to the next word. */
  lemma {:induction false} RunCluster(c: Config, s: PState, cluster: string, w: seq<string>) returns (s': PState)
    requires Cooperative(c) && Onward(c, s) && Bounded(c, |s.argv|) && Forward(c)
    requires s.nextchar == Some(cluster) && s.argv[s.next..] == w && ScanCluster(c, cluster, w).Some? && s.quoted == 0
    ensures Onward(c, s') && Run(c, s) == Run(c, s') && s'.badArg == s.badArg
    ensures var r := ScanCluster(c, cluster, w).value;
      Past(s, s', r.1) && s'.trace == s.trace + Calls(|s.argv|, r.0)
    decreases |cluster|
  {
    if FindShort(c.groups, cluster[0] as int, 0, 0).value.1.hasArg || |cluster| == 1 {
      s' := LastLetter(c, s, cluster, w);
    } else {
      var t := NextLetter(c, s, cluster, w);
      s' := RunCluster(c, t, cluster[1..], w);
    }
  }

  lemma StartCluster(c: Config, s: PState, pre: seq<string>, o1: seq<string>, n: seq<string>, o2: seq<string>,
                     ws: seq<string>)
    returns (t: PState)
    requires Onward(c, s) && Bounded(c, |s.argv|) && Forward(c)
    requires Laid(c, s, pre, o1, n, o2, ws) && s.nextchar.None? && ws != [] && Classify(c, ws[0]).ShortToken?
    ensures t == s.(next := s.next + 1, nextchar := Some(Classify(c, ws[0]).opt))
    ensures Onward(c, t) && Run(c, s) == Run(c, t) && t.argv[t.next..] == ws[1..]
  {
    LaidWord(c, s, pre, o1, n, o2, ws);
    AtWord(c, s, ws[0]);
    t := s.(next := s.next + 1, nextchar := Some(Classify(c, ws[0]).opt));
    RunStep(c, s, t);
    LaidRest(c, s, pre, o1, n, o2, ws);
  }

  lemma LaidRest(c: Config, s: PState, pre: seq<string>, o1: seq<string>, n: seq<string>, o2: seq<string>,
                 ws: seq<string>)
    requires Laid(c, s, pre, o1, n, o2, ws) && ws != []
    ensures s.next + 1 <= |s.argv| && s.argv[s.next + 1..] == ws[1..]
  {
    Slices(pre, o1, n, o2, ws);
    assert s.argv[s.next + 1..] == s.argv[s.next..][1..];
  }

  lemma PastWord(s: PState, o: string, s': PState, k: nat)
    requires Past(s.(next := s.next + 1, nextchar := Some(o)), s', k)
    ensures Past(s, s', 1 + k)
  {
  }

  /** A word that starts a cluster: all its letters, up to the next word. */
  lemma RunShort(c: Config, s: PState, pre: seq<string>, o1: seq<string>, n: seq<string>, o2: seq<string>,
                 ws: seq<string>, es: seq<Event>, k: nat)
    returns (s': PState)
    requires Cooperative(c) && Onward(c, s) && Bounded(c, |s.argv|) && Forward(c)
    requires Laid(c, s, pre, o1, n, o2, ws) && s.nextchar.None? && ws != [] && Classify(c, ws[0]).ShortToken?
    requires ScanCluster(c, Classify(c, ws[0]).opt, ws[1..]) == Some((es, k))
    ensures k < |ws| && Laid(c, s', pre, o1, n, o2 + ws[..1 + k], ws[1 + k..])
    ensures s'.trace == s.trace + Calls(|s.argv|, es) && s'.badArg == s.badArg && s'.nextchar.None?
    ensures Onward(c, s') && |s'.argv| == |s.argv| && Run(c, s) == Run(c, s')
  {
    var t := StartCluster(c, s, pre, o1, n, o2, ws);
    s' := RunCluster(c, t, Classify(c, ws[0]).opt, ws[1..]);
    PastWord(s, Classify(c, ws[0]).opt, s', k);
    LaidOption(c, s, s', pre, o1, n, o2, ws, 1 + k);
  }

  lemma RunLong(c: Config, s: PState, pre: seq<string>, o1: seq<string>, n: seq<string>, o2: seq<string>,
                ws: seq<string>, e: Event, k: nat)
    returns (s': PState)
    requires Cooperative(c) && Onward(c, s) && Bounded(c, |s.argv|) && Forward(c)
    requires Laid(c, s, pre, o1, n, o2, ws) && s.nextchar.None? && ws != []
    requires Classify(c, ws[0]).LongToken? || Classify(c, ws[0]).LongOnlyToken?
    requires ScanLong(c, Classify(c, ws[0]).opt, ws[1..]) == Some((e, k))
    ensures k < |ws| && Laid(c, s', pre, o1, n, o2 + ws[..1 + k], ws[1 + k..])
    ensures s'.trace == s.trace + Calls(|s.argv|, [e]) && !s'.badArg && s'.nextchar.None?
    ensures Onward(c, s') && |s'.argv| == |s.argv| && Run(c, s) == Run(c, s')
  {
    s' := StepLong(c, s, pre, o1, n, o2, ws, e, k);
    RunStep(c, s, s');
  }

  // ---------- Whole runs ----------

  /** What a parse ends with that goes on after the options o, the skipped plain words n and the calls tr with
      words scanned as q: the vector holds options, "--", plain words, words after "--"; the options have been
      handed to their parsers; then the words have been offered, up to the first that nobody takes. */
  ghost predicate Sorted(c: Config, s: PState, argc: nat, pre: seq<string>, o: seq<string>, n: seq<string>,
                         tr: seq<Call>, q: Scan)
  {
    var argv := pre + (o + q.opts) + q.quote + (n + q.plain) + q.rest;
    var words := n + q.plain + q.rest;
    var r := OfferedAll(c, tr + Calls(argc, q.events), words, argc - |words|);
    |argv| == argc && Finished(c, s, argv, argc - |words| + r.1, r.0)
  }

  lemma SortedPlain(c: Config, s: PState, argc: nat, pre: seq<string>, o: seq<string>, n: seq<string>, tr: seq<Call>,
                    x: string, q: Scan)
    requires Sorted(c, s, argc, pre, o, n + [x], tr, q)
    ensures Sorted(c, s, argc, pre, o, n, tr, q.(plain := [x] + q.plain))
  {
    Regroup(n, [x], q.plain);
  }

  lemma {:induction false} SortedOption(c: Config, s: PState, argc: nat, pre: seq<string>, o1: seq<string>,
                                        o2: seq<string>, n: seq<string>, tr: seq<Call>, w: seq<string>, es: seq<Event>,
                                        q: Scan)
    requires Sorted(c, s, argc, pre, o1 + (o2 + w), n, tr + Calls(argc, es), q)
    ensures Sorted(c, s, argc, pre, o1 + o2, n, tr, q.(opts := w + q.opts, events := es + q.events))
  {
    Regroup(o1, o2, w);
    Regroup(o1 + o2, w, q.opts);
    CallsConcat(argc, es, q.events);
    Regroup(tr, Calls(argc, es), Calls(argc, q.events));
  }

  lemma {:induction false} SortedQuote(c: Config, s: PState, pre: seq<string>, o: seq<string>, n: seq<string>,
                                       tr: seq<Call>, x: string, rest: seq<string>)
    requires var words := n + rest; var at := |pre + o + [x]|; var r := OfferedAll(c, tr, words, at);
      Finished(c, s, pre + o + [x] + words, at + r.1, r.0)
    ensures Sorted(c, s, |s.argv|, pre, o, n, tr, Scan([], [], [], [x], rest))
  {
    assert o + [] == o && n + [] == n && tr + [] == tr;
    assert pre + o + [x] + (n + rest) == pre + o + [x] + n + rest;
  }

  lemma {:induction false} SortedEnd(c: Config, s: PState, pre: seq<string>, o: seq<string>, n: seq<string>,
                                     tr: seq<Call>)
    requires var r := OfferedAll(c, tr, n, |pre + o|); Finished(c, s, pre + o + n, |pre + o| + r.1, r.0)
    ensures Sorted(c, s, |s.argv|, pre, o, n, tr, Scan([], [], [], [], []))
  {
    assert o + [] == o && n + [] == n && tr + [] == tr && n + [] + [] == n;
    assert pre + o + [] + n + [] == pre + o + n;
  }

  /** A parse that goes on from any point between two words. */
  lemma {:induction false} PermuteFrom(c: Config, s: PState, pre: seq<string>, o1: seq<string>, n: seq<string>,
                                       o2: seq<string>, ws: seq<string>, q: Scan)
    requires Cooperative(c) && c.ordering == Permute && Onward(c, s) && Bounded(c, |s.argv|) && Forward(c)
    requires Laid(c, s, pre, o1, n, o2, ws) && s.nextchar.None? && ScanWords(c, ws) == Some(q)
    ensures Run(c, s).1 == BadKey && Sorted(c, Run(c, s).0, |s.argv|, pre, o1 + o2, n, s.trace, q)
    decreases |ws|
  {
    if ws == [] {
      PermuteEnd(c, s, pre, o1, n, o2);
    } else {
      match Classify(c, ws[0])
      case ArgToken => PermutePlain(c, s, pre, o1, n, o2, ws, ScanWords(c, ws[1..]).value);
      case QuoteToken => PermuteQuote(c, s, pre, o1, n, o2, ws);
      case LongToken(o) => PermuteLong(c, s, pre, o1, n, o2, ws, q);
      case LongOnlyToken(o) => PermuteLong(c, s, pre, o1, n, o2, ws, q);
      case ShortToken(o) => PermuteShort(c, s, pre, o1, n, o2, ws, q);
    }
  }

  lemma {:induction false} PermuteEnd(c: Config, s: PState, pre: seq<string>, o1: seq<string>, n: seq<string>,
                                      o2: seq<string>)
    requires Cooperative(c) && Onward(c, s) && Bounded(c, |s.argv|) && Forward(c)
    requires Laid(c, s, pre, o1, n, o2, []) && s.nextchar.None?
    ensures Run(c, s).1 == BadKey
    ensures Sorted(c, Run(c, s).0, |s.argv|, pre, o1 + o2, n, s.trace, Scan([], [], [], [], []))
  {
    if n == [] {
      StepStop(c, s, pre, o1, o2);
      RunStop(c, s, s.(badArg := true), BadKey);
      assert pre + (o1 + o2) + [] == pre + (o1 + o2);
    } else {
      var s' := StepEnd(c, s, pre, o1, n, o2);
      RunStep(c, s, s');
      RunArgs(c, s', pre + (o1 + o2), n);
    }
    SortedEnd(c, Run(c, s).0, pre, o1 + o2, n, s.trace);
  }

  lemma {:induction false} PermuteQuote(c: Config, s: PState, pre: seq<string>, o1: seq<string>, n: seq<string>,
                                        o2: seq<string>, ws: seq<string>)
    requires Cooperative(c) && Onward(c, s) && Bounded(c, |s.argv|) && Forward(c)
    requires Laid(c, s, pre, o1, n, o2, ws) && s.nextchar.None? && ws != [] && Classify(c, ws[0]).QuoteToken?
    ensures Run(c, s).1 == BadKey
    ensures Sorted(c, Run(c, s).0, |s.argv|, pre, o1 + o2, n, s.trace, Scan([], [], [], [ws[0]], ws[1..]))
  {
    var s' := StepQuote(c, s, pre, o1, n, o2, ws);
    RunStep(c, s, s');
    RunArgs(c, s', pre + (o1 + o2) + [ws[0]], n + ws[1..]);
    SortedQuote(c, Run(c, s).0, pre, o1 + o2, n, s.trace, ws[0], ws[1..]);
  }

  lemma {:induction false} PermutePlain(c: Config, s: PState, pre: seq<string>, o1: seq<string>, n: seq<string>,
                                        o2: seq<string>, ws: seq<string>, q: Scan)
    requires Cooperative(c) && c.ordering == Permute && Onward(c, s) && Bounded(c, |s.argv|) && Forward(c)
    requires Laid(c, s, pre, o1, n, o2, ws) && s.nextchar.None? && ws != [] && Classify(c, ws[0]).ArgToken?
    requires ScanWords(c, ws[1..]) == Some(q)
    ensures Run(c, s).1 == BadKey
    ensures Sorted(c, Run(c, s).0, |s.argv|, pre, o1 + o2, n, s.trace, q.(plain := [ws[0]] + q.plain))
    decreases |ws|, 0
  {
    var s' := StepPlain(c, s, pre, o1, n, o2, ws);
    RunStep(c, s, s');
    PermuteFrom(c, s', pre, o1 + o2, n + [ws[0]], [], ws[1..], q);
    assert o1 + o2 + [] == o1 + o2;
    SortedPlain(c, Run(c, s).0, |s.argv|, pre, o1 + o2, n, s.trace, ws[0], q);
  }

  lemma {:induction false} PermuteLong(c: Config, s: PState, pre: seq<string>, o1: seq<string>, n: seq<string>,
                                       o2: seq<string>, ws: seq<string>, q: Scan)
    requires Cooperative(c) && c.ordering == Permute && Onward(c, s) && Bounded(c, |s.argv|) && Forward(c)
    requires Laid(c, s, pre, o1, n, o2, ws) && s.nextchar.None? && ws != []
    requires Classify(c, ws[0]).LongToken? || Classify(c, ws[0]).LongOnlyToken?
    requires ScanAfter(c, ws, OneEvent(ScanLong(c, Classify(c, ws[0]).opt, ws[1..]))) == Some(q)
    ensures Run(c, s).1 == BadKey && Sorted(c, Run(c, s).0, |s.argv|, pre, o1 + o2, n, s.trace, q)
    decreases |ws|, 1
  {
    var (e, k) := ScanLong(c, Classify(c, ws[0]).opt, ws[1..]).value;
    var s' := RunLong(c, s, pre, o1, n, o2, ws, e, k);
    var q' := ScanAfterParts(c, ws, [e], k, q);
    PermuteOption(c, s, s', pre, o1, n, o2, ws, [e], k, q', q);
  }

  lemma {:induction false} PermuteShort(c: Config, s: PState, pre: seq<string>, o1: seq<string>, n: seq<string>,
                                        o2: seq<string>, ws: seq<string>, q: Scan)
    requires Cooperative(c) && c.ordering == Permute && Onward(c, s) && Bounded(c, |s.argv|) && Forward(c)
    requires Laid(c, s, pre, o1, n, o2, ws) && s.nextchar.None? && ws != [] && Classify(c, ws[0]).ShortToken?
    requires ScanAfter(c, ws, ScanCluster(c, Classify(c, ws[0]).opt, ws[1..])) == Some(q)
    ensures Run(c, s).1 == BadKey && Sorted(c, Run(c, s).0, |s.argv|, pre, o1 + o2, n, s.trace, q)
    decreases |ws|, 1
  {
    var (es, k) := ScanCluster(c, Classify(c, ws[0]).opt, ws[1..]).value;
    var s' := RunShort(c, s, pre, o1, n, o2, ws, es, k);
    var q' := ScanAfterParts(c, ws, es, k, q);
    PermuteOption(c, s, s', pre, o1, n, o2, ws, es, k, q', q);
  }

  lemma ScanAfterParts(c: Config, ws: seq<string>, es: seq<Event>, k: nat, q: Scan) returns (q': Scan)
    requires k < |ws| && ScanAfter(c, ws, Some((es, k))) == Some(q)
    ensures ScanWords(c, ws[1 + k..]) == Some(q')
    ensures q == q'.(opts := ws[..1 + k] + q'.opts, events := es + q'.events)
  {
    q' := ScanWords(c, ws[1 + k..]).value;
  }

  /** An option word has been handled with the k words after it. */
  lemma {:induction false} PermuteOption(c: Config, s: PState, s': PState, pre: seq<string>, o1: seq<string>,
                                         n: seq<string>, o2: seq<string>, ws: seq<string>, es: seq<Event>, k: nat,
                                         q': Scan, q: Scan)
    requires Cooperative(c) && c.ordering == Permute && Onward(c, s) && Bounded(c, |s.argv|) && Forward(c)
    requires Onward(c, s') && |s'.argv| == |s.argv| && Run(c, s) == Run(c, s') && s'.nextchar.None?
    requires k < |ws| && Laid(c, s', pre, o1, n, o2 + ws[..1 + k], ws[1 + k..])
    requires s'.trace == s.trace + Calls(|s.argv|, es) && ScanWords(c, ws[1 + k..]) == Some(q')
    requires q == q'.(opts := ws[..1 + k] + q'.opts, events := es + q'.events)
    ensures Run(c, s).1 == BadKey && Sorted(c, Run(c, s).0, |s.argv|, pre, o1 + o2, n, s.trace, q)
    decreases |ws|, 0
  {
    PermuteFrom(c, s', pre, o1, n, o2 + ws[..1 + k], ws[1 + k..], q');
    SortedOption(c, Run(c, s).0, |s.argv|, pre, o1, o2, n, s.trace, ws[..1 + k], es, q');
  }

  /** Where a parse starts: pre is what parser_init skips, the program name. */
  ghost predicate AtStart(c: Config, s: PState, pre: seq<string>, ws: seq<string>)
  {
    && s.argv == pre + ws && s.next == |pre| && s.first == 0 && s.last == 0 && s.quoted == 0
    && !s.argsOnly && s.nextchar.None? && |s.processed| == |c.groups|
  }

  /** The words of a scan that are not options, and how many of them find a taker after the calls tr. */
  function Words(q: Scan): seq<string>
  {
    q.plain + q.rest
  }

  function Taken(c: Config, tr: seq<Call>, argc: int, q: Scan): (seq<Call>, nat)
  {
    OfferedAll(c, tr + Calls(argc, q.events), Words(q), argc - |Words(q)|)
  }

  lemma SortedAll(c: Config, s: PState, argc: nat, pre: seq<string>, tr: seq<Call>, q: Scan)
    requires Sorted(c, s, argc, pre, [], [], tr, q)
    ensures argc == |s.argv| && s.argv == pre + Arranged(q) && |s.processed| == |c.groups| && s.badArg
    ensures s.next == argc - |Words(q)| + Taken(c, tr, argc, q).1 && s.trace == Taken(c, tr, argc, q).0
  {
    assert [] + q.opts == q.opts && [] + q.plain == q.plain;
    Regroup5(pre, q.opts, q.quote, q.plain, q.rest);
  }

  /** A permuting parse with callbacks that work together ends with the vector permuted: the option words come
      first, then "--", then the plain words, then the words after "--", each kind in its original order. All
      options have been handed to their parsers in order; then the other words have been offered in order, up to
      the first that nobody takes, where state.next stands. */
  lemma {:induction false} PermuteOrder(c: Config, s: PState, pre: seq<string>, ws: seq<string>, q: Scan)
    requires Cooperative(c) && c.ordering == Permute && AtStart(c, s, pre, ws) && ScanWords(c, ws) == Some(q)
    ensures Bounded(c, |s.argv|) && Forward(c) && Onward(c, s)
    ensures var (s', e) := Run(c, s);
      && e == BadKey && s'.badArg && s'.argv == pre + Arranged(q) && multiset(s'.argv) == multiset(s.argv)
      && s'.trace == Taken(c, s.trace, |s.argv|, q).0 && |s'.argv| == |s.argv| && |s'.processed| == |c.groups|
      && s'.next == |s.argv| - |Words(q)| + Taken(c, s.trace, |s.argv|, q).1
  {
    CooperativeIsForward(c, |s.argv|);
    assert pre + [] + [] + [] + ws == pre + ws;
    PermuteFrom(c, s, pre, [], [], [], ws, q);
    SortedAll(c, Run(c, s).0, |s.argv|, pre, s.trace, q);
    ScanConserves(c, ws);
  }

  /** So the parsers accept the options in order, then the words in order, each by one of them. */
  lemma PermuteHeard(c: Config, tr: seq<Call>, argc: int, q: Scan) returns (gs: seq<nat>)
    requires Cooperative(c)
    ensures var r := Taken(c, tr, argc, q);
      |gs| == r.1 && Heard(c, r.0) == Heard(c, tr) + OptViews(q.events) + ArgViews(gs, Words(q)[..r.1])
  {
    CallsHeard(c, tr, argc, q.events);
    gs := OffersHeard(c, tr + Calls(argc, q.events), Words(q), argc - |Words(q)|);
  }
}

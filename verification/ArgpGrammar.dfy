/** What single words say, told from their letters, and to whom they are offered: clusters of short options, long
    options and arguments. */
module ArgpGrammar {
  import opened Options
  import opened ArgpTypes
  import opened ArgpMachine
  import opened ArgpLookup
  import opened ArgpOrder

  /** The option o of group g, with a parser, is used without an argument. */
  predicate Bare(c: Config, found: Option<(nat, Opt)>, ws: seq<string>, e: Event)
  {
    && found.Some? && found.value.0 < |c.groups| && c.groups[found.value.0].hasParser
    && e == Event(found.value.0, found.value.1.key, None, |ws|)
  }

  /** The option takes the next word as its argument. */
  predicate WithNext(c: Config, found: Option<(nat, Opt)>, ws: seq<string>, e: Event)
  {
    && found.Some? && found.value.0 < |c.groups| && c.groups[found.value.0].hasParser && ws != []
    && e == Event(found.value.0, found.value.1.key, Some(ws[0]), |ws| - 1)
  }

  /** The option has the text v, which is in the same word, as its argument. */
  predicate WithText(c: Config, found: Option<(nat, Opt)>, v: string, ws: seq<string>, e: Event)
  {
    && found.Some? && found.value.0 < |c.groups| && c.groups[found.value.0].hasParser
    && e == Event(found.value.0, found.value.1.key, Some(v), |ws|)
  }

  function Known(c: Config, ch: char): Option<(nat, Opt)>
  {
    FindShort(c.groups, ch as int, 0, 0)
  }

  // ---------- Clusters ----------

  /** The first n letters are options that take no argument. */
  predicate Flags(c: Config, letters: string, n: nat, ws: seq<string>, es: seq<Event>)
  {
    && n <= |letters| && n <= |es|
    && forall i :: 0 <= i < n ==> Bare(c, Known(c, letters[i]), ws, es[i]) && !Known(c, letters[i]).value.1.hasArg
  }

  /** Letter n takes an argument: the rest of the word, if there is one; else the next word, unless the argument
      is optional. */
  predicate LastOne(c: Config, letters: string, n: nat, ws: seq<string>, e: Event, k: nat)
    requires n < |letters|
  {
    var found, v := Known(c, letters[n]), letters[n + 1..];
    && found.Some? && found.value.1.hasArg
    && if v != "" then WithText(c, found, v, ws, e) && k == 0
       else if found.value.1.argOptional then Bare(c, found, ws, e) && k == 0
       else WithNext(c, found, ws, e) && k == 1
  }

  /** A cluster is a number of letters that take no argument, and perhaps one more that does. */
  ghost predicate ClusterSays(c: Config, letters: string, ws: seq<string>, es: seq<Event>, k: nat)
  {
    exists n: nat :: SplitAt(c, letters, n, ws, es, k)
  }

  predicate SplitAt(c: Config, letters: string, n: nat, ws: seq<string>, es: seq<Event>, k: nat)
  {
    && Flags(c, letters, n, ws, es)
    && if |es| == n then n == |letters| && k == 0
       else |es| == n + 1 && n < |letters| && LastOne(c, letters, n, ws, es[n], k)
  }

  lemma {:induction false} SplitLater(c: Config, letters: string, n: nat, ws: seq<string>, es: seq<Event>, k: nat)
    requires letters != "" && es != [] && Bare(c, Known(c, letters[0]), ws, es[0])
    requires !Known(c, letters[0]).value.1.hasArg
    ensures SplitAt(c, letters, n + 1, ws, es, k) <==> SplitAt(c, letters[1..], n, ws, es[1..], k)
  {
    if n < |letters[1..]| { assert letters[n + 1] == letters[1..][n] && letters[n + 2..] == letters[1..][n + 1..]; }
    if SplitAt(c, letters, n + 1, ws, es, k) {
      forall i | 0 <= i < n ensures
        Bare(c, Known(c, letters[1..][i]), ws, es[1..][i]) && !Known(c, letters[1..][i]).value.1.hasArg
      {
        assert letters[1..][i] == letters[i + 1] && es[1..][i] == es[i + 1];
      }
    }
    if SplitAt(c, letters[1..], n, ws, es[1..], k) {
      forall i | 0 <= i < n + 1 ensures
        Bare(c, Known(c, letters[i]), ws, es[i]) && !Known(c, letters[i]).value.1.hasArg
      {
        if i > 0 { assert letters[1..][i - 1] == letters[i] && es[1..][i - 1] == es[i]; }
      }
    }
  }

  predicate Flag(c: Config, ch: char)
  {
    var found := Known(c, ch); found.Some? && c.groups[found.value.0].hasParser && !found.value.1.hasArg
  }

  lemma {:induction false} FlagFirst(c: Config, letters: string, ws: seq<string>, es: seq<Event>, k: nat)
    requires letters != "" && Flag(c, letters[0])
    ensures ClusterSays(c, letters, ws, es, k) <==>
      es != [] && Bare(c, Known(c, letters[0]), ws, es[0]) && ClusterSays(c, letters[1..], ws, es[1..], k)
  {
    if ClusterSays(c, letters, ws, es, k) {
      var n: nat :| SplitAt(c, letters, n, ws, es, k);
      SplitLater(c, letters, n - 1, ws, es, k);
      assert SplitAt(c, letters[1..], n - 1, ws, es[1..], k);
    }
    if es != [] && Bare(c, Known(c, letters[0]), ws, es[0]) && ClusterSays(c, letters[1..], ws, es[1..], k) {
      var n: nat :| SplitAt(c, letters[1..], n, ws, es[1..], k);
      SplitLater(c, letters, n, ws, es, k);
      assert SplitAt(c, letters, n + 1, ws, es, k);
    }
  }

  lemma {:induction false} FlagScanned(c: Config, letters: string, ws: seq<string>, es: seq<Event>, k: nat)
    requires letters != "" && Flag(c, letters[0])
    ensures ScanCluster(c, letters, ws) == Some((es, k)) <==>
      es != [] && Bare(c, Known(c, letters[0]), ws, es[0]) && ScanCluster(c, letters[1..], ws) == Some((es[1..], k))
  {
    if es != [] { assert es == [es[0]] + es[1..]; }
    var r := ScanCluster(c, letters[1..], ws);
    if r.Some? { assert ScanCluster(c, letters, ws).value.0[1..] == r.value.0; }
  }

  lemma {:induction false} OtherFirst(c: Config, letters: string, ws: seq<string>, es: seq<Event>, k: nat)
    requires letters != "" && !Flag(c, letters[0])
    ensures ClusterSays(c, letters, ws, es, k) <==> |es| == 1 && LastOne(c, letters, 0, ws, es[0], k)
  {
    if |es| == 1 && LastOne(c, letters, 0, ws, es[0], k) { assert SplitAt(c, letters, 0, ws, es, k); }
  }

  /** Reading a cluster letter by letter comes to this, and fails exactly if it is no such cluster. */
  lemma {:induction false} ClusterMeaning(c: Config, letters: string, ws: seq<string>, es: seq<Event>, k: nat)
    ensures ScanCluster(c, letters, ws) == Some((es, k)) <==> ClusterSays(c, letters, ws, es, k)
    decreases |letters|
  {
    if letters == "" {
      assert es == [] && k == 0 ==> SplitAt(c, letters, 0, ws, es, k);
    } else if Flag(c, letters[0]) {
      FlagFirst(c, letters, ws, es, k);
      FlagScanned(c, letters, ws, es, k);
      if es != [] { ClusterMeaning(c, letters[1..], ws, es[1..], k); }
    } else {
      OtherFirst(c, letters, ws, es, k);
      LastScanned(c, letters, ws, es, k);
    }
  }

  lemma {:induction false} LastScanned(c: Config, letters: string, ws: seq<string>, es: seq<Event>, k: nat)
    requires letters != "" && !Flag(c, letters[0])
    ensures ScanCluster(c, letters, ws) == Some((es, k)) <==> |es| == 1 && LastOne(c, letters, 0, ws, es[0], k)
  {
    if |es| == 1 { assert es == [es[0]]; }
  }

  // ---------- Long options ----------

  /** "name=v" gives the option named its argument v; "name" alone gives it none, or the next word if there must
      be one. name may be an abbreviation. */
  ghost predicate LongSays(c: Config, o: string, ws: seq<string>, e: Event, k: nat)
  {
    var found := FindLong(c.groups, o, 0, 0, 0, None);
    && found.Some?
    && if '=' in o then
         found.value.1.hasArg && k == 0 &&
         exists name, v :: o == name + ("=" + v) && '=' !in name && WithText(c, found, v, ws, e)
       else if found.value.1.hasArg && !found.value.1.argOptional then WithNext(c, found, ws, e) && k == 1
       else Bare(c, found, ws, e) && k == 0
  }

  lemma SameSplit(x: string, v: string, y: string, w: string)
    requires x + ("=" + v) == y + ("=" + w) && '=' !in x && '=' !in y
    ensures v == w
  {
    var s := x + ("=" + v);
    assert s[|x|] == '=' && s[|y|] == '=';
    assert forall i :: 0 <= i < |x| ==> s[i] == x[i];
    assert forall i :: 0 <= i < |y| ==> s[i] == y[i];
    assert |x| == |y|;
    assert s[|x| + 1..] == v && s[|y| + 1..] == w;
  }

  lemma {:induction false} NamePartPlain(o: string)
    ensures '=' !in NamePart(o)
  {
    if o != [] && o[0] != '=' { NamePartPlain(o[1..]); }
  }

  lemma {:induction false} LongMeaning(c: Config, o: string, ws: seq<string>, e: Event, k: nat)
    ensures ScanLong(c, o, ws) == Some((e, k)) <==> LongSays(c, o, ws, e, k)
  {
    ValueMeaning(o);
    NamePartPlain(o);
    if '=' in o {
      var name, v := NamePart(o), ValueOf(o).value;
      assert o == name + ("=" + v);
      forall x, w | o == x + ("=" + w) && '=' !in x ensures w == v { SameSplit(name, v, x, w); }
    }
  }

  // ---------- Offers ----------

  /** The groups with a parser, from g on. */
  function Parsers(c: Config, g: nat): seq<nat>
    decreases |c.groups| - g
  {
    if g >= |c.groups| then []
    else if c.groups[g].hasParser then [g] + Parsers(c, g + 1)
    else Parsers(c, g + 1)
  }

  lemma {:induction false} ParsersAre(c: Config, g: nat)
    ensures var ps := Parsers(c, g);
      && (forall h :: h in ps <==> g <= h < |c.groups| && c.groups[h].hasParser)
      && forall i, j :: 0 <= i < j < |ps| ==> ps[i] < ps[j]
    decreases |c.groups| - g
  {
    if g < |c.groups| {
      ParsersAre(c, g + 1);
      var qs := Parsers(c, g + 1);
      assert forall j :: 0 <= j < |qs| ==> qs[j] in qs;
    }
  }

  /** The calls to parsers that all refuse a word, which stands at position at. */
  function Refusals(ps: seq<nat>, val: string, at: int): seq<Call>
  {
    if ps == [] then []
    else [Call(ps[0], ArgKey, Some(val), at + 1), Call(ps[0], ArgsKey, None, at)] + Refusals(ps[1..], val, at)
  }

  /** The trace when parser number i is offered the word, all before it having refused. */
  function Asking(tr: seq<Call>, ps: seq<nat>, val: string, at: int, i: nat): seq<Call>
    requires i < |ps|
  {
    tr + Refusals(ps[..i], val, at) + [Call(ps[i], ArgKey, Some(val), at + 1)]
  }

  lemma {:induction false} RefusalsCons(tr: seq<Call>, g: nat, qs: seq<nat>, val: string, at: int)
    ensures var tr' := tr + [Call(g, ArgKey, Some(val), at + 1)] + [Call(g, ArgsKey, None, at)];
      tr + Refusals([g] + qs, val, at) == tr' + Refusals(qs, val, at)
  {
    assert ([g] + qs)[1..] == qs;
  }

  lemma {:induction false} AskingLater(tr: seq<Call>, g: nat, qs: seq<nat>, val: string, at: int, i: nat)
    requires i < |qs|
    ensures var tr' := tr + [Call(g, ArgKey, Some(val), at + 1)] + [Call(g, ArgsKey, None, at)];
      Asking(tr, [g] + qs, val, at, i + 1) == Asking(tr', qs, val, at, i)
  {
    assert ([g] + qs)[..i + 1] == [g] + qs[..i];
    RefusalsCons(tr, g, qs[..i], val, at);
  }

  /** The parsers before number m refuse the word and m takes it; or nobody does. r is the trace then, and the
      taker. */
  ghost predicate TakenBy(c: Config, tr: seq<Call>, ps: seq<nat>, val: string, at: int, m: nat,
                          r: (seq<Call>, Option<nat>))
  {
    && m <= |ps| && (forall i :: 0 <= i < m ==> !c.oracle(Asking(tr, ps, val, at, i)).err.Ok?)
    && if m == |ps| then r == (tr + Refusals(ps, val, at), None)
       else c.oracle(Asking(tr, ps, val, at, m)).err.Ok? && r == (Asking(tr, ps, val, at, m), Some(ps[m]))
  }

  lemma AskingFirst(tr: seq<Call>, g: nat, qs: seq<nat>, val: string, at: int)
    ensures Asking(tr, [g] + qs, val, at, 0) == tr + [Call(g, ArgKey, Some(val), at + 1)]
  {
    assert ([g] + qs)[..0] == [] && tr + [] == tr;
  }

  lemma {:induction false} TakenLater(c: Config, tr: seq<Call>, g: nat, qs: seq<nat>, val: string, at: int, m: nat,
                                      r: (seq<Call>, Option<nat>))
    requires !c.oracle(tr + [Call(g, ArgKey, Some(val), at + 1)]).err.Ok?
    requires TakenBy(c, tr + [Call(g, ArgKey, Some(val), at + 1)] + [Call(g, ArgsKey, None, at)], qs, val, at, m, r)
    ensures TakenBy(c, tr, [g] + qs, val, at, m + 1, r)
  {
    var ps := [g] + qs;
    AskingFirst(tr, g, qs, val, at);
    forall i | 0 <= i < m + 1 ensures !c.oracle(Asking(tr, ps, val, at, i)).err.Ok? {
      if i > 0 { AskingLater(tr, g, qs, val, at, i - 1); }
    }
    if m == |qs| { RefusalsCons(tr, g, qs, val, at); } else { AskingLater(tr, g, qs, val, at, m); }
  }

  lemma {:induction false} TakenNow(c: Config, tr: seq<Call>, g: nat, qs: seq<nat>, val: string, at: int)
    requires c.oracle(tr + [Call(g, ArgKey, Some(val), at + 1)]).err.Ok?
    ensures TakenBy(c, tr, [g] + qs, val, at, 0, (tr + [Call(g, ArgKey, Some(val), at + 1)], Some(g)))
  {
    AskingFirst(tr, g, qs, val, at);
  }

  lemma {:induction false} TakenByNobody(c: Config, tr: seq<Call>, val: string, at: int)
    ensures TakenBy(c, tr, [], val, at, 0, (tr, None))
  {
    assert tr + [] == tr;
  }

  /** A word is offered to the parsers in turn, each first the word and then all the rest, up to the first that
      takes it; if nobody does, to all of them. */
  lemma {:induction false} OfferMeaning(c: Config, tr: seq<Call>, val: string, at: int, g: nat) returns (m: nat)
    ensures TakenBy(c, tr, Parsers(c, g), val, at, m, Offered(c, tr, val, at, g))
    decreases |c.groups| - g
  {
    if g >= |c.groups| {
      m := 0;
      TakenByNobody(c, tr, val, at);
    } else if !c.groups[g].hasParser {
      m := OfferMeaning(c, tr, val, at, g + 1);
    } else {
      var asked := tr + [Call(g, ArgKey, Some(val), at + 1)];
      if c.oracle(asked).err.Ok? {
        m := 0;
        TakenNow(c, tr, g, Parsers(c, g + 1), val, at);
      } else {
        var tr' := asked + [Call(g, ArgsKey, None, at)];
        var n := OfferMeaning(c, tr', val, at, g + 1);
        TakenLater(c, tr, g, Parsers(c, g + 1), val, at, n, Offered(c, tr', val, at, g + 1));
        m := n + 1;
      }
    }
  }
}

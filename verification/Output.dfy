/** The printed trace, after src/main.rs:82-116. A row is a list of tokens; the
    text of addresses and of round-trip times is not modelled. */
module Output {
  import opened Prelude
  import opened IcmpErrors
  import opened Net
  import opened Trace
  import opened StopRule
  import opened History
  import opened Rendering
  import Runs

  datatype Token = Source(source: Option<IpAddr>) | Rtt(rtt: nat, annotation: Option<string>) | Star

  datatype Row = Row(ttl: u8, tokens: seq<Token>)

  // ----- one row ----------------------------------------------------------

  function Annotation(kind: ReplyKind): Option<string> {
    if kind.Undelivered? then Some(Render(kind.reason)) else None
  }

  /** The tokens of a hop, given the source printed last, if any. */
  function Tokens(hop: seq<Probe>, last: Option<Option<IpAddr>>): seq<Token>
    decreases |hop|
  {
    if hop == [] then []
    else if hop[0].result.None? then [Star] + Tokens(hop[1..], last)
    else
      var result := hop[0].result.value;
      (if last == Some(result.source) then [] else [Source(result.source)])
      + [Rtt(result.rtt, Annotation(result.kind))]
      + Tokens(hop[1..], Some(result.source))
  }

  /** What one probe adds to its row. */
  function CellTokens(probe: Probe, last: Option<Option<IpAddr>>): seq<Token> {
    if probe.result.None? then [Star]
    else
      var result := probe.result.value;
      (if last == Some(result.source) then [] else [Source(result.source)]) + [Rtt(result.rtt, Annotation(result.kind))]
  }

  /** The source shown last once the probe is printed. */
  function LastAfter(probe: Probe, last: Option<Option<IpAddr>>): Option<Option<IpAddr>> {
    if probe.result.None? then last else Some(probe.result.value.source)
  }

  lemma TokensStep(hop: seq<Probe>, i: nat, last: Option<Option<IpAddr>>)
    requires i < |hop|
    ensures Tokens(hop[i..], last) == CellTokens(hop[i], last) + Tokens(hop[i + 1..], LastAfter(hop[i], last))
  {
    assert hop[i..][1..] == hop[i + 1..];
  }

  lemma TokensDone(hop: seq<Probe>, last: Option<Option<IpAddr>>)
    ensures Tokens(hop[|hop|..], last) == []
    ensures hop[0..] == hop
  {
  }

  lemma Regroup<T>(a: seq<T>, b: seq<T>, c: seq<T>)
    ensures a + (b + c) == (a + b) + c
  {
  }

  /** Prints one probe, given the source printed last. */
  method PrintProbe(probe: Probe, last: Option<Option<IpAddr>>)
    returns (tokens: seq<Token>, last': Option<Option<IpAddr>>)
    ensures tokens == CellTokens(probe, last) && last' == LastAfter(probe, last)
  {
    tokens, last' := [], last;
    if probe.result.Some? {
      var result := probe.result.value;
      if last != Some(result.source) {
        tokens := tokens + [Source(result.source)];
        last' := Some(result.source);
      }
      tokens := tokens + [Rtt(result.rtt, Annotation(result.kind))];
    } else {
      tokens := tokens + [Star];
    }
  }

  /** The loop that remembers the last source. */
  method PrintHopProbes(hop: seq<Probe>) returns (tokens: seq<Token>)
    ensures tokens == Tokens(hop, None)
  {
    ghost var row := Tokens(hop, None);
    TokensDone(hop, None);
    hide Tokens;
    hide CellTokens;
    hide LastAfter;
    tokens := [];
    var lastSource: Option<Option<IpAddr>> := None;
    for i := 0 to |hop|
      invariant row == tokens + Tokens(hop[i..], lastSource)
    {
      TokensStep(hop, i, lastSource);
      var cell, last' := PrintProbe(hop[i], lastSource);
      Regroup(tokens, cell, Tokens(hop[i + 1..], last'));
      tokens, lastSource := tokens + cell, last';
    }
    TokensDone(hop, lastSource);
  }

  /** What a reader of a row learns about one probe. */
  datatype Shown = Shown(source: Option<IpAddr>, rtt: nat, reason: Option<Unreachable>)

  function Visible(probe: Probe): Option<Shown> {
    if probe.result.None? then None
    else
      var result := probe.result.value;
      Some(Shown(result.source, result.rtt, if result.kind.Undelivered? then Some(result.kind.reason) else None))
  }

  /** Reading a row back: an answer without a source of its own has the last one shown. */
  function ReadTokens(tokens: seq<Token>, last: Option<IpAddr>): seq<Option<Shown>>
    decreases |tokens|
  {
    if tokens == [] then []
    else match tokens[0]
      case Star => [None] + ReadTokens(tokens[1..], last)
      case Source(source) => ReadTokens(tokens[1..], source)
      case Rtt(rtt, annotation) =>
        [Some(Shown(last, rtt, if annotation.None? then None else ParseReason(annotation.value)))]
        + ReadTokens(tokens[1..], last)
  }

  predicate ReasonsProducible(hop: seq<Probe>) {
    forall p <- hop :: p.result.Some? && p.result.value.kind.Undelivered? ==> Producible(p.result.value.kind.reason)
  }

  /** What a whole hop has to show. */
  function Shows(hop: seq<Probe>): (shows: seq<Option<Shown>>)
    ensures |shows| == |hop|
    ensures forall i :: 0 <= i < |hop| ==> shows[i] == Visible(hop[i])
  {
    if hop == [] then [] else [Visible(hop[0])] + Shows(hop[1..])
  }

  lemma ReadAnswer(result: ProbeResult, rest: seq<Token>, last: Option<IpAddr>)
    requires result.kind.Undelivered? ==> Producible(result.kind.reason)
    requires last == result.source
    ensures ReadTokens([Rtt(result.rtt, Annotation(result.kind))] + rest, last)
            == [Some(Shown(result.source, result.rtt,
                           if result.kind.Undelivered? then Some(result.kind.reason) else None))]
               + ReadTokens(rest, last)
  {
    var tokens := [Rtt(result.rtt, Annotation(result.kind))] + rest;
    assert tokens[1..] == rest;
    if result.kind.Undelivered? {
      RenderInverse(result.kind.reason);
    }
    hide Render;
    hide ParseReason;
  }

  lemma ReadSource(source: Option<IpAddr>, rest: seq<Token>, last: Option<IpAddr>)
    ensures ReadTokens([Source(source)] + rest, last) == ReadTokens(rest, source)
  {
    assert ([Source(source)] + rest)[1..] == rest;
  }

  lemma ReadStar(rest: seq<Token>, last: Option<IpAddr>)
    ensures ReadTokens([Star] + rest, last) == [None] + ReadTokens(rest, last)
  {
    assert ([Star] + rest)[1..] == rest;
  }

  /** A row loses no source, round-trip time or reason, however long it is. */
  lemma {:induction false} RowReadsBack(hop: seq<Probe>, last: Option<Option<IpAddr>>, shown: Option<IpAddr>)
    requires ReasonsProducible(hop)
    requires last.Some? ==> shown == last.value
    ensures ReadTokens(Tokens(hop, last), shown) == Shows(hop)
    decreases |hop|
  {
    hide ReadTokens;
    hide Producible;
    if hop != [] {
      var rest := hop[1..];
      if hop[0].result.None? {
        RowReadsBack(rest, last, shown);
        ReadStar(Tokens(rest, last), shown);
      } else {
        var result := hop[0].result.value;
        assert hop[0] in hop;
        RowReadsBack(rest, Some(result.source), result.source);
        var tail := [Rtt(result.rtt, Annotation(result.kind))] + Tokens(rest, Some(result.source));
        ReadAnswer(result, Tokens(rest, Some(result.source)), result.source);
        if last == Some(result.source) {
          assert Tokens(hop, last) == tail;
        } else {
          assert Tokens(hop, last) == [Source(result.source)] + tail;
          ReadSource(result.source, tail, shown);
        }
      }
    } else {
      assert Tokens(hop, last) == [];
      ReadNothing(shown);
    }
  }

  lemma ReadNothing(last: Option<IpAddr>)
    ensures ReadTokens([], last) == []
  {
  }

  /** Every source shown is news, and is shown for an answer that follows it. */
  predicate ShowsOnlyNews(tokens: seq<Token>, last: Option<Option<IpAddr>>)
    decreases |tokens|
  {
    if tokens == [] then true
    else match tokens[0]
      case Source(source) =>
        last != Some(source) && |tokens| > 1 && tokens[1].Rtt? && ShowsOnlyNews(tokens[1..], Some(source))
      case _ => ShowsOnlyNews(tokens[1..], last)
  }

  lemma NewsSteps(token: Token, rest: seq<Token>, last: Option<Option<IpAddr>>)
    ensures !token.Source? ==> ShowsOnlyNews([token] + rest, last) == ShowsOnlyNews(rest, last)
    ensures token.Source? && last != Some(token.source) && rest != [] && rest[0].Rtt? ==>
              ShowsOnlyNews([token] + rest, last) == ShowsOnlyNews(rest, Some(token.source))
  {
    assert ([token] + rest)[1..] == rest;
  }

  lemma CellShowsOnlyNews(probe: Probe, rest: seq<Token>, last: Option<Option<IpAddr>>)
    requires ShowsOnlyNews(rest, LastAfter(probe, last))
    ensures ShowsOnlyNews(CellTokens(probe, last) + rest, last)
  {
    hide ShowsOnlyNews;
    if probe.result.None? {
      NewsSteps(Star, rest, last);
    } else {
      var result := probe.result.value;
      var answer := Rtt(result.rtt, Annotation(result.kind));
      NewsSteps(answer, rest, Some(result.source));
      if last == Some(result.source) {
        assert CellTokens(probe, last) == [answer];
      } else {
        NewsSteps(Source(result.source), [answer] + rest, last);
        assert CellTokens(probe, last) + rest == [Source(result.source)] + ([answer] + rest);
      }
    }
  }

  /** A row repeats no source that the previous answer already showed. */
  lemma {:induction false} RowShowsOnlyNews(hop: seq<Probe>, last: Option<Option<IpAddr>>)
    ensures ShowsOnlyNews(Tokens(hop, last), last)
    decreases |hop|
  {
    if hop != [] {
      RowShowsOnlyNews(hop[1..], LastAfter(hop[0], last));
      CellShowsOnlyNews(hop[0], Tokens(hop[1..], LastAfter(hop[0], last)), last);
      TokensStep(hop, 0, last);
      TokensDone(hop, last);
      hide Tokens;
      hide CellTokens;
    }
  }

  // ----- all rows ---------------------------------------------------------

  /** The hops that are printed: up to the first one the target answered. */
  function Printed(hops: seq<seq<Probe>>): seq<seq<Probe>> {
    if hops == [] then []
    else if Reached(hops[0]) then [hops[0]]
    else [hops[0]] + Printed(hops[1..])
  }

  predicate NonEmpty(hops: seq<seq<Probe>>) {
    forall i :: 0 <= i < |hops| ==> |hops[i]| > 0
  }

  lemma {:induction false} HopsNonEmpty(probes: seq<Probe>)
    ensures NonEmpty(Hops(probes))
  {
    if probes != [] {
      HopsNonEmpty(probes[RunLength(probes)..]);
    }
  }

  function RowOf(hop: seq<Probe>): Row
    requires |hop| > 0
  {
    Row(hop[0].ttl, Tokens(hop, None))
  }

  /** `rows` shows `hops`, one row each. */
  ghost predicate ShowsHops(rows: seq<Row>, hops: seq<seq<Probe>>) {
    && NonEmpty(hops)
    && |rows| == |hops|
    && forall i :: 0 <= i < |hops| ==> rows[i] == RowOf(hops[i])
  }

  /** The printout stops at the first hop the target answered, or at the end. */
  lemma {:induction false} PrintedStops(hops: seq<seq<Probe>>, n: nat)
    requires n <= |hops| && forall k :: 0 <= k < n ==> !Reached(hops[k])
    requires n < |hops| ==> Reached(hops[n])
    ensures Printed(hops) == if n < |hops| then hops[..n + 1] else hops
  {
    if n > 0 {
      PrintedStops(hops[1..], n - 1);
    }
  }

  /** The loop over hops, which breaks after the first one the target answered. */
  method PrintResults(probes: seq<Probe>) returns (rows: seq<Row>)
    ensures ShowsHops(rows, Printed(Hops(probes)))
  {
    HopsNonEmpty(probes);
    var hops := Hops(probes);
    rows := [];
    hide Tokens;
    hide Hops;
    hide Printed;
    hide Reached;
    hide Answered;
    for i := 0 to |hops|
      invariant |rows| == i
      invariant forall k :: 0 <= k < i ==> rows[k] == RowOf(hops[k])
      invariant forall k :: 0 <= k < i ==> !Reached(hops[k])
    {
      var tokens := PrintHopProbes(hops[i]);
      rows := rows + [Row(hops[i][0].ttl, tokens)];
      if Reached(hops[i]) {
        PrintedStops(hops, i);
        return;
      }
    }
    PrintedStops(hops, |hops|);
  }

  /** The printed hops are a prefix, none but the last was answered by the
      target, and they stop short of the end only at one that was. */
  lemma {:induction false} PrintedPrefix(hops: seq<seq<Probe>>)
    ensures Printed(hops) <= hops
    ensures forall i :: 0 <= i < |Printed(hops)| - 1 ==> !Reached(Printed(hops)[i])
    ensures hops != [] ==> Printed(hops) != []
    ensures Printed(hops) != hops ==> Reached(Printed(hops)[|Printed(hops)| - 1])
  {
    if hops != [] && !Reached(hops[0]) {
      PrintedPrefix(hops[1..]);
    }
  }

  /** A printout that ends at the target with every row answered. */
  predicate EndsAtTarget(printed: seq<seq<Probe>>) {
    printed != [] && Reached(printed[|printed| - 1]) && forall hop <- printed :: Answered(hop)
  }

  lemma {:induction false} StopRulesAgree(hops: seq<seq<Probe>>)
    ensures Reached(Flatten(TakeAnswered(hops))) <==> EndsAtTarget(Printed(hops))
  {
    if hops != [] && Answered(hops[0]) {
      ReachedAppend(hops[0], Flatten(TakeAnswered(hops[1..])));
      assert TakeAnswered(hops) == [hops[0]] + TakeAnswered(hops[1..]);
      assert TakeAnswered(hops)[1..] == TakeAnswered(hops[1..]);
      StopRulesAgree(hops[1..]);
      if !Reached(hops[0]) {
        var rest := Printed(hops[1..]);
        assert Printed(hops) == [hops[0]] + rest;
        assert forall hop :: hop in Printed(hops) <==> hop == hops[0] || hop in rest;
        if rest != [] {
          assert Printed(hops)[|Printed(hops)| - 1] == rest[|rest| - 1];
        }
      }
    } else if hops != [] {
      assert Printed(hops)[0] == hops[0];
      assert hops[0] in Printed(hops);
    }
  }

  /** The loop of the trace and the loop of the printer agree on every table: the
      trace may stop exactly when its printout ends at the target with every row
      answered. */
  lemma TraceAndPrinterAgree(probes: seq<Probe>)
    ensures ReachedInOrder(probes) <==> EndsAtTarget(Printed(Hops(probes)))
  {
    StopRulesAgree(Hops(probes));
  }

  /** What a run prints. If it returned for another reason than the timeout, the
      rows are a non-empty prefix of the hops, from the first hop on without a
      gap, all answered, ending at the first the target answered. If the timeout
      ended it with every send complete, that is never so. */
  lemma PrintoutOfRun(cfg: Config, s: System)
    requires Reachable(cfg, s) && s.phase.Returned?
    ensures var printed := Printed(Hops(s.program.probes));
            && printed <= Hops(s.program.probes)
            && (forall h :: 0 <= h < |printed| ==> |printed[h]| > 0 && printed[h][0].ttl == cfg.firstHop + h)
            && (forall h :: 0 <= h < |printed| - 1 ==> !Reached(printed[h]))
            && (!s.phase.timedOut ==> EndsAtTarget(printed))
            && (s.phase.timedOut && s.program.sending == map[] ==> !EndsAtTarget(printed))
  {
    ReachableFollows(cfg, s);
    var probes := s.program.probes;
    TraceAndPrinterAgree(probes);
    PrintedPrefix(Hops(probes));
    HopsNonEmpty(probes);
    var printed: seq<seq<Probe>> := Printed(Hops(probes));
    forall h | 0 <= h < |printed| ensures |printed[h]| > 0 && printed[h][0].ttl == cfg.firstHop + h {
      assert printed[h] == Hops(probes)[h];
      if cfg.count == 0 {
        EmptyTable(probes, cfg.firstHop, cfg.lastHop);
        assert false;
      } else {
        ChunksAreHops(probes, cfg.firstHop, cfg.lastHop, cfg.count);
        assert Hops(probes)[h][0].ttl == cfg.firstHop + h;
      }
    }
  }

  /** Every reason in a reachable table can be read back from its row. */
  lemma RunReasonsAreProducible(cfg: Config, s: System)
    requires Reachable(cfg, s)
    ensures ReasonsProducible(s.program.probes)
  {
    forall p <- s.program.probes
      ensures p.result.Some? && p.result.value.kind.Undelivered? ==> Producible(p.result.value.kind.reason)
    {
      var i :| 0 <= i < |s.program.probes| && s.program.probes[i] == p;
      if p.result.Some? {
        KindIsClassified(cfg, s, i);
      }
    }
  }

  lemma KindIsClassified(cfg: Config, s: System, i: nat)
    requires Reachable(cfg, s) && i < |s.program.probes| && s.program.probes[i].result.Some?
    ensures var kind := s.program.probes[i].result.value.kind; kind.Undelivered? ==> Producible(kind.reason)
  {
    Runs.OutcomeOf(cfg, s);
    Runs.AnsweredMeansSentFirst(cfg, s, i);
    var k :| CountsFirst(cfg.queues, s.history, k, i);
    var c := s.history[k].cqe;
    var queue := cfg.queues[c.tag.slot];
    assert ProbeFollows(cfg.queues, s.history, s.program.probes[i], i);
    var reply := ReplyIn(queue, c.message.value).value;
    assert s.program.probes[i].result.value.kind == queue.replies.Classify(reply);
    if queue.replies.Classify(reply).Undelivered? {
      ClassifiedReasonsAreProducible(queue.replies, reply);
    }
  }

  /** Every printed cell of a run is about the probe of its own index: position `k`
      of row `h` reads back to what the table has at `h * count + k`. */
  lemma RunRowsReadBack(cfg: Config, s: System, rows: seq<Row>, h: nat, shown: Option<IpAddr>)
    requires Reachable(cfg, s) && ShowsHops(rows, Printed(Hops(s.program.probes))) && h < |rows|
    ensures cfg.count > 0 && h * cfg.count + cfg.count <= |s.program.probes|
    ensures rows[h].ttl == cfg.firstHop + h
    ensures var cells := ReadTokens(rows[h].tokens, shown);
            && |cells| == cfg.count
            && forall k :: 0 <= k < cfg.count ==> cells[k] == Visible(s.program.probes[h * cfg.count + k])
  {
    ReachableFollows(cfg, s);
    PrintedIsHop(s.program.probes, h);
    RowsNeedCount(cfg, s.program.probes);
    HopCells(cfg, s, h, shown);
  }

  lemma PrintedIsHop(probes: seq<Probe>, h: nat)
    requires h < |Printed(Hops(probes))|
    ensures h < |Hops(probes)| && Printed(Hops(probes))[h] == Hops(probes)[h]
  {
    PrintedPrefix(Hops(probes));
  }

  lemma HopCells(cfg: Config, s: System, h: nat, shown: Option<IpAddr>)
    requires Reachable(cfg, s) && cfg.count > 0 && h < |Hops(s.program.probes)|
    requires IsTable(s.program.probes, cfg.firstHop, cfg.lastHop, cfg.count)
    ensures var hop := Hops(s.program.probes)[h];
            && IsBlock(hop, s.program.probes, h * cfg.count, cfg.count)
            && hop[0].ttl == cfg.firstHop + h
            && ReadTokens(Tokens(hop, None), shown) == Shows(hop)
  {
    ChunksAreHops(s.program.probes, cfg.firstHop, cfg.lastHop, cfg.count);
    RunReasonsAreProducible(cfg, s);
    RowReadsBack(Hops(s.program.probes)[h], None, shown);
    hide Hops;
    hide Tokens;
    hide ReadTokens;
  }

  lemma RowsNeedCount(cfg: Config, probes: seq<Probe>)
    requires IsTable(probes, cfg.firstHop, cfg.lastHop, cfg.count) && Hops(probes) != []
    ensures cfg.count > 0
  {
    if cfg.count == 0 {
      EmptyTable(probes, cfg.firstHop, cfg.lastHop);
    }
  }
}

/** What holds over whole runs of the trace. */
module Runs {
  import opened Prelude
  import opened Methods
  import opened Ring
  import opened Trace
  import opened StopRule
  import opened History
  import C = Conservation

  /** In every reachable state the table is laid out hop by hop and each probe is
      exactly what the history of handled completions makes of it. */
  lemma TableRefinesHistory(cfg: Config, s: System, i: nat)
    requires Reachable(cfg, s) && i < cfg.ProbeCount()
    ensures |s.program.probes| == cfg.ProbeCount() && cfg.count > 0
    ensures s.program.probes[i].ttl == cfg.firstHop + i / cfg.count
    ensures ProbeFollows(cfg.queues, s.history, s.program.probes[i], i)
  {
    C.ReachableInv(cfg, s);
    ReachableFollows(cfg, s);
    TableTtl(s.program.probes, cfg.firstHop, cfg.lastHop, cfg.count, i);
  }

  /** A probe was answered only if it was sent, and answers that came too early,
      twice, or for a probe whose send failed left no trace. */
  lemma AnsweredMeansSentFirst(cfg: Config, s: System, i: nat)
    requires Reachable(cfg, s) && i < cfg.ProbeCount() && |s.program.probes| == cfg.ProbeCount()
    ensures s.program.probes[i].result.Some? <==> exists k :: CountsFirst(cfg.queues, s.history, k, i)
    ensures s.program.probes[i].result.Some? ==> SentBefore(s.history, |s.history|, i)
    ensures forall k, k' ::
              CountsFirst(cfg.queues, s.history, k, i) && CountsFirst(cfg.queues, s.history, k', i) ==> k == k'
  {
    TableRefinesHistory(cfg, s, i);
    if s.program.probes[i].result.Some? {
      var k :| Counts(cfg.queues, s.history, k, i);
      var f := FirstExists(cfg.queues, s.history, k, i);
    }
  }

  /** The round-trip time is the time from the send's completion to the reply's
      handling: added to the one it gives the other, and it is zero if the clock
      ran backwards in between. */
  lemma RttSpansTheWait(cfg: Config, s: System, i: nat, k: nat) returns (j: nat)
    requires Reachable(cfg, s) && i < cfg.ProbeCount() == |s.program.probes|
    requires CountsFirst(cfg.queues, s.history, k, i)
    ensures j < k < |s.history| && Sends(s.history[j], i) && s.program.probes[i].result.Some?
    ensures var sent, handled, rtt := s.history[j].now, s.history[k].now, s.program.probes[i].result.value.rtt;
            if sent <= handled then sent + rtt == handled else rtt == 0
  {
    TableRefinesHistory(cfg, s, i);
    hide Reachable;
    hide AnswerIn;
    j :| 0 <= j < k && Sends(s.history[j], i);
  }

  /** The slab and the handled sends partition the probes: a slot is outstanding
      exactly until its own completion is handled, and holds the probe of its index. */
  lemma SlabBijection(cfg: Config, s: System)
    requires Reachable(cfg, s)
    ensures forall k <- s.program.sending :: s.program.sending[k] == k
    ensures forall k :: k in s.program.sending <==> 0 <= k < cfg.ProbeCount() && Unhandled(s.history, k)
    ensures |s.program.sending| + WritesHandled(s.history) == cfg.ProbeCount()
    ensures s.phase == Returned(false) ==> s.program.sending == map[]
  {
    C.ReachableInv(cfg, s);
    ReachableFollows(cfg, s);
  }

  /** A run goes on exactly as long as sends are outstanding or the target has
      not been found; it returns for a reason other than the timeout exactly when
      neither is the case, and the timeout only ever ends an unfinished trace. */
  lemma StopsExactlyWhenFound(cfg: Config, s: System)
    requires Reachable(cfg, s)
    ensures var found := s.program.sending == map[] && TargetFound(s.program.probes, cfg.firstHop, cfg.lastHop);
            && (s.Running() ==> !found)
            && (s.phase == Returned(false) ==> found)
            && (s.phase == Returned(true) ==> !found)
  {
    ReachableFollows(cfg, s);
    StopMeansTargetFound(s.program.probes, cfg.firstHop, cfg.lastHop, cfg.count);
  }

  lemma ReachedBy(cfg: Config, actions: seq<Action>, s: System)
    requires cfg.Valid() && Exec(cfg, Start(cfg), actions) == Some(s)
    ensures Reachable(cfg, s)
  {
  }

  /** What a finished run says about its table, and when a run can fail on a re-arm. */
  lemma OutcomeOf(cfg: Config, s: System)
    requires Reachable(cfg, s)
    ensures s.phase != Crashed
    ensures |s.program.probes| == cfg.ProbeCount() && TableFollows(cfg.queues, s.history, s.program.probes)
    ensures s.phase == Returned(false) ==>
              s.program.sending == map[] && TargetFound(s.program.probes, cfg.firstHop, cfg.lastHop)
    ensures s.phase == Failed(true) ==> cfg.capacity < cfg.RingSize() + |cfg.queues|
  {
    C.ReachableInv(cfg, s);
    ReachableFollows(cfg, s);
    StopsExactlyWhenFound(cfg, s);
    C.ReArmNeverRejectedIff(cfg);
  }

  // ----- monotonicity -----------------------------------------------------

  /** `q` is a later state of `p`: results are write-once, TTLs never change and
      sends are only ever taken out of the slab. */
  ghost predicate Later(p: Program, q: Program) {
    && |p.probes| == |q.probes|
    && (forall i :: 0 <= i < |p.probes| ==>
          && q.probes[i].ttl == p.probes[i].ttl
          && (p.probes[i].result.Some? ==> q.probes[i].result == p.probes[i].result))
    && q.sending.Keys <= p.sending.Keys
  }

  lemma NextIsLater(queues: seq<ReplyQueue>, p: Program, c: Cqe, now: Instant)
    requires SlabIdentity(p) && !Next(queues, p, c, now).0.Panicked?
    ensures Later(p, Next(queues, p, c, now).1) && SlabIdentity(Next(queues, p, c, now).1)
  {
    C.NextRequests(queues, p, c, now);
    var q := Next(queues, p, c, now).1;
    forall i | 0 <= i < |p.probes|
      ensures q.probes[i].ttl == p.probes[i].ttl
      ensures p.probes[i].result.Some? ==> q.probes[i].result == p.probes[i].result
    {
      NextUpdates(queues, p, c, now, i);
      hide Next;
    }
    hide Next;
  }

  /** Along any stretch of any run. */
  lemma {:induction false} RunsOnlyGrow(cfg: Config, s: System, actions: seq<Action>)
    requires C.Inv(cfg, s) && Exec(cfg, s, actions).Some?
    ensures Later(s.program, Exec(cfg, s, actions).value.program)
    decreases |actions|
  {
    if actions != [] {
      var t := Apply(cfg, s, actions[0]);
      C.InvStep(cfg, s, actions[0]);
      if actions[0].Handle? {
        NextIsLater(cfg.queues, s.program, s.posted[0], actions[0].now);
      }
      RunsOnlyGrow(cfg, t, actions[1..]);
      hide Next;
    }
  }

  /** A complete trace stays complete whatever completion follows. */
  lemma CompleteIsStable(queues: seq<ReplyQueue>, p: Program, c: Cqe, now: Instant,
                         firstHop: nat, lastHop: nat, count: nat)
    requires SlabIdentity(p) && IsTable(p.probes, firstHop, lastHop, count)
    requires p.Complete() && !Next(queues, p, c, now).0.Panicked?
    ensures Next(queues, p, c, now).1.Complete()
  {
    var q := Next(queues, p, c, now).1;
    NextIsLater(queues, p, c, now);
    UpdatesGrow(queues, p, c, now);
    StopIsMonotone(p.probes, q.probes, firstHop, lastHop, count);
    assert q.sending.Keys == {};
    hide Next;
  }

  /** The program after handling a batch to its end, verdicts ignored. */
  function HandleAll(queues: seq<ReplyQueue>, p: Program, batch: seq<Event>): Program
    decreases |batch|
  {
    if batch == [] then p else HandleAll(queues, Next(queues, p, batch[0].cqe, batch[0].now).1, batch[1..])
  }

  predicate NonePanics(queues: seq<ReplyQueue>, p: Program, batch: seq<Event>)
    decreases |batch|
  {
    batch == []
    || (var (verdict, q) := Next(queues, p, batch[0].cqe, batch[0].now);
        !verdict.Panicked? && NonePanics(queues, q, batch[1..]))
  }

  /** Stopping in the middle of a batch gives the verdict its end would give. */
  lemma {:induction false} StoppingEarlyIsSafe(queues: seq<ReplyQueue>, p: Program, batch: seq<Event>,
                                               firstHop: nat, lastHop: nat, count: nat)
    requires SlabIdentity(p) && IsTable(p.probes, firstHop, lastHop, count)
    requires p.Complete() && NonePanics(queues, p, batch)
    ensures HandleAll(queues, p, batch).Complete()
    decreases |batch|
  {
    if batch != [] {
      var c, now := batch[0].cqe, batch[0].now;
      CompleteIsStable(queues, p, c, now, firstHop, lastHop, count);
      NextIsLater(queues, p, c, now);
      UpdatesGrow(queues, p, c, now);
      GrowsKeepsTable(p.probes, Next(queues, p, c, now).1.probes, firstHop, lastHop, count);
      StoppingEarlyIsSafe(queues, Next(queues, p, c, now).1, batch[1..], firstHop, lastHop, count);
      hide Next;
    }
  }

  /** Without a send completion in it, a batch of well-tagged completions cannot panic. */
  lemma {:induction false} NoWritesNoPanics(cfg: Config, p: Program, batch: seq<Event>)
    requires forall e <- batch :: !e.cqe.tag.kind.Write? && C.WellTagged(cfg, e.cqe)
    ensures NonePanics(cfg.queues, p, batch)
    decreases |batch|
  {
    if batch != [] {
      assert batch[0] in batch;
      C.NextRequests(cfg.queues, p, batch[0].cqe, batch[0].now);
      NoWritesNoPanics(cfg, Next(cfg.queues, p, batch[0].cqe, batch[0].now).1, batch[1..]);
    }
  }

  /** A completion waiting to be handled finishes a request that is live. */
  lemma {:induction false} WaitingIsLive(posted: seq<Cqe>, k: nat)
    requires k < |posted| && !posted[k].more
    ensures C.Finals(posted, posted[k].tag) > 0
  {
    if k > 0 {
      WaitingIsLive(posted[1..], k - 1);
    }
  }

  /** Completions as they would have been handled, had the run gone on. */
  ghost predicate WouldHandle(batch: seq<Event>, posted: seq<Cqe>) {
    |batch| <= |posted| && forall k :: 0 <= k < |batch| ==> batch[k].cqe == posted[k]
  }

  /** A run that returned without the timeout has no send left anywhere. */
  lemma ReturnedHasNoWrites(cfg: Config, s: System, u: UserData)
    requires Reachable(cfg, s) && s.phase == Returned(false) && u.kind.Write?
    ensures C.Live(s, u) == 0
  {
    C.RequestsConserved(cfg, s);
    C.LiveRequestsCount(s, u);
    ReachableFollows(cfg, s);
    assert s.program.sending == map[] by { hide TableFollows; hide SlabFollows; hide IsTable; }
    hide C.Live;
    hide C.LiveRequests;
  }

  lemma WaitingReadsOrTimeout(cfg: Config, s: System, k: nat)
    requires Reachable(cfg, s) && s.phase == Returned(false) && k < |s.posted|
    ensures C.WellTagged(cfg, s.posted[k]) && !s.posted[k].tag.kind.Write?
  {
    C.ReachableInv(cfg, s);
    assert C.WellTagged(cfg, s.posted[k]);
    if s.posted[k].tag.kind.Write? {
      WaitingIsLive(s.posted, k);
      ReturnedHasNoWrites(cfg, s, s.posted[k].tag);
      assert false;
    }
    hide C.Inv;
    hide Reachable;
  }

  /** A run that returned in the middle of a batch, however much of the batch is
      left and whenever it would have been handled: nothing in it panics, and the
      trace would be just as complete after it. */
  lemma ReturningMidBatchIsSafe(cfg: Config, s: System, batch: seq<Event>)
    requires Reachable(cfg, s) && s.phase == Returned(false) && WouldHandle(batch, s.posted)
    ensures NonePanics(cfg.queues, s.program, batch)
    ensures HandleAll(cfg.queues, s.program, batch).Complete()
  {
    C.ReachableInv(cfg, s);
    ReachableFollows(cfg, s);
    forall e <- batch ensures !e.cqe.tag.kind.Write? && C.WellTagged(cfg, e.cqe) {
      var k :| 0 <= k < |batch| && batch[k] == e;
      WaitingReadsOrTimeout(cfg, s, k);
    }
    NoWritesNoPanics(cfg, s.program, batch);
    StoppingEarlyIsSafe(cfg.queues, s.program, batch, cfg.firstHop, cfg.lastHop, cfg.count);
  }

  // ----- commutation ------------------------------------------------------

  /** The probe a completion is about, if any. */
  function Concerns(queues: seq<ReplyQueue>, c: Cqe): Option<int> {
    if c.tag.kind.Write? then Some(c.tag.slot)
    else if Delivered(queues, c).Some? then Some(Delivered(queues, c).value.probe)
    else None
  }

  predicate Unrelated(queues: seq<ReplyQueue>, a: Cqe, b: Cqe) {
    Concerns(queues, a).None? || Concerns(queues, b).None? || Concerns(queues, a) != Concerns(queues, b)
  }

  /** Equal but for clock readings. */
  predicate SameProbe(p: Probe, q: Probe) {
    && p.ttl == q.ttl
    && p.sentAt.Some? == q.sentAt.Some?
    && p.result.Some? == q.result.Some?
    && (p.result.Some? ==> p.result.value.source == q.result.value.source && p.result.value.kind == q.result.value.kind)
  }

  ghost predicate SameTable(p: seq<Probe>, q: seq<Probe>) {
    |p| == |q| && forall i :: 0 <= i < |p| ==> SameProbe(p[i], q[i])
  }

  /** On one probe, two completions that are not both about it commute. */
  lemma UpdatesCommute(queues: seq<ReplyQueue>, probe: Probe, a: Cqe, b: Cqe, t1: Instant, t2: Instant, i: int)
    requires Unrelated(queues, a, b)
    ensures SameProbe(Update(queues, Update(queues, probe, Event(a, t1), i), Event(b, t2), i),
                      Update(queues, Update(queues, probe, Event(b, t1), i), Event(a, t2), i))
  {
    hide AnswerIn;
  }

  lemma SameTableSameStop(p: Program, q: Program, firstHop: nat, lastHop: nat, count: nat)
    requires SameTable(p.probes, q.probes) && IsTable(p.probes, firstHop, lastHop, count)
    requires p.sending == q.sending && p.Complete()
    ensures q.Complete()
  {
    StopIsMonotone(p.probes, q.probes, firstHop, lastHop, count);
  }

  /** The two orders of handling leave the same sends outstanding and queue the
      same requests, and neither order fails if one does not. */
  lemma RequestsCommute(queues: seq<ReplyQueue>, p: Program, a: Cqe, b: Cqe, t1: Instant, t2: Instant)
    requires SlabIdentity(p) && Unrelated(queues, a, b)
    requires Next(queues, p, a, t1).0.Continue? && Next(queues, Next(queues, p, a, t1).1, b, t2).0.Continue?
    ensures var p2, q1 := Next(queues, Next(queues, p, a, t1).1, b, t2).1, Next(queues, p, b, t1);
            var q2 := Next(queues, q1.1, a, t2);
            && !q1.0.Panicked? && !q1.0.Rejected? && q1.0 != Finished(true)
            && !q2.0.Panicked? && !q2.0.Rejected? && q2.0 != Finished(true)
            && q2.1.sending == p2.sending
            && q2.1.sq.pending == p2.sq.pending && q2.1.sq.lag == p2.sq.lag
            && multiset(q2.1.sq.unpublished) == multiset(p2.sq.unpublished)
  {
    var p1 := Next(queues, p, a, t1).1;
    var q1 := Next(queues, p, b, t1).1;
    C.NextRequests(queues, p, a, t1);
    C.NextRequests(queues, p1, b, t2);
    C.NextRequests(queues, p, b, t1);
    C.NextRequests(queues, q1, a, t2);
    hide Next;
    hide Delivered;
  }

  lemma TablesCommute(queues: seq<ReplyQueue>, p: Program, a: Cqe, b: Cqe, t1: Instant, t2: Instant)
    requires SlabIdentity(p) && Unrelated(queues, a, b)
    requires Next(queues, p, a, t1).0.Continue? && Next(queues, Next(queues, p, a, t1).1, b, t2).0.Continue?
    requires !Next(queues, p, b, t1).0.Panicked? && !Next(queues, Next(queues, p, b, t1).1, a, t2).0.Panicked?
    ensures SameTable(Next(queues, Next(queues, p, a, t1).1, b, t2).1.probes,
                      Next(queues, Next(queues, p, b, t1).1, a, t2).1.probes)
  {
    var p1, q1 := Next(queues, p, a, t1).1, Next(queues, p, b, t1).1;
    var p2, q2 := Next(queues, p1, b, t2).1, Next(queues, q1, a, t2).1;
    C.NextRequests(queues, p, a, t1);
    C.NextRequests(queues, p1, b, t2);
    C.NextRequests(queues, p, b, t1);
    C.NextRequests(queues, q1, a, t2);
    NextIsLater(queues, p, a, t1);
    NextIsLater(queues, p, b, t1);
    hide Next;
    forall i | 0 <= i < |p.probes| ensures SameProbe(p2.probes[i], q2.probes[i]) {
      NextUpdates(queues, p, a, t1, i);
      NextUpdates(queues, p1, b, t2, i);
      NextUpdates(queues, p, b, t1, i);
      NextUpdates(queues, q1, a, t2, i);
      UpdatesCommute(queues, p.probes[i], a, b, t1, t2, i);
      hide Update;
    }
  }

  /** Swapping two adjacent completions about different probes, when neither ends
      the run, gives the same table but for clock readings, the same outstanding
      sends and the same live requests, and still does not end the run. */
  lemma CompletionsCommute(queues: seq<ReplyQueue>, p: Program, a: Cqe, b: Cqe, t1: Instant, t2: Instant,
                           firstHop: nat, lastHop: nat, count: nat)
    requires SlabIdentity(p) && IsTable(p.probes, firstHop, lastHop, count) && Unrelated(queues, a, b)
    requires Next(queues, p, a, t1).0.Continue? && Next(queues, Next(queues, p, a, t1).1, b, t2).0.Continue?
    ensures var p2, q1 := Next(queues, Next(queues, p, a, t1).1, b, t2).1, Next(queues, p, b, t1);
            var q2 := Next(queues, q1.1, a, t2);
            && q1.0.Continue? && q2.0.Continue?
            && SameTable(p2.probes, q2.1.probes)
            && q2.1.sending == p2.sending
            && q2.1.sq.pending == p2.sq.pending && q2.1.sq.lag == p2.sq.lag
            && multiset(q2.1.sq.unpublished) == multiset(p2.sq.unpublished)
  {
    var p1, q1 := Next(queues, p, a, t1).1, Next(queues, p, b, t1).1;
    var p2, q2 := Next(queues, p1, b, t2).1, Next(queues, q1, a, t2).1;
    RequestsCommute(queues, p, a, b, t1, t2);
    TablesCommute(queues, p, a, b, t1, t2);
    VerdictStops(queues, p1, b, t2);
    VerdictStops(queues, p, b, t1);
    VerdictStops(queues, q1, a, t2);
    NextIsLater(queues, p, b, t1);
    UpdatesGrow(queues, p, b, t1);
    GrowsKeepsTable(p.probes, q1.probes, firstHop, lastHop, count);
    UpdatesGrow(queues, q1, a, t2);
    GrowsKeepsTable(q1.probes, q2.probes, firstHop, lastHop, count);
    if q1.Complete() {
      CompleteIsStable(queues, q1, a, t2, firstHop, lastHop, count);
    }
    if q2.Complete() {
      SameTableSameStop(q2, p2, firstHop, lastHop, count);
    }
    hide Next;
  }
}

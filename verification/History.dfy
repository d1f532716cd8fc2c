/** The probe table against the history of completions: what a run has recorded
    is a function of what it handled, described without the machine. */
module History {
  import opened Prelude
  import opened Methods
  import opened Trace
  import opened StopRule
  import C = Conservation

  // ----- what the history says --------------------------------------------

  /** The completion of probe `i`'s send, successful. */
  predicate Sends(e: Event, i: int) {
    e.cqe.tag.kind.Write? && e.cqe.tag.slot == i && e.cqe.result >= 0
  }

  /** The answer a successful read delivers, if its reply is accepted and identified. */
  function Delivered(queues: seq<ReplyQueue>, c: Cqe): Option<Answer> {
    if c.tag.kind.Read? && c.result >= 0 && c.tag.slot < |queues| && c.message.Some?
    then AnswerIn(queues[c.tag.slot], c.message.value)
    else None
  }

  predicate Answers(queues: seq<ReplyQueue>, e: Event, i: int) {
    Delivered(queues, e.cqe).Some? && Delivered(queues, e.cqe).value.probe == i
  }

  predicate SentBefore(h: seq<Event>, k: nat, i: int) {
    exists j :: 0 <= j < k && j < |h| && Sends(h[j], i)
  }

  /** Event `k` is an answer to probe `i` that arrived after its send completed. */
  predicate Counts(queues: seq<ReplyQueue>, h: seq<Event>, k: int, i: int) {
    0 <= k < |h| && Answers(queues, h[k], i) && SentBefore(h, k, i)
  }

  predicate CountsFirst(queues: seq<ReplyQueue>, h: seq<Event>, k: int, i: int) {
    Counts(queues, h, k, i) && forall k' :: 0 <= k' < k ==> !Counts(queues, h, k', i)
  }

  /** The result an answer turns into, for a probe sent at `sentAt`. */
  function ResultOf(queues: seq<ReplyQueue>, e: Event, sentAt: Instant): ProbeResult
    requires Delivered(queues, e.cqe).Some?
  {
    var answer := Delivered(queues, e.cqe).value;
    ProbeResult(answer.source, Elapsed(sentAt, e.now), answer.kind)
  }

  /** Probe `i` is what the history makes of it: sent exactly when its send
      completed successfully, and answered by exactly the first answer after that. */
  ghost predicate ProbeFollows(queues: seq<ReplyQueue>, h: seq<Event>, probe: Probe, i: int) {
    && (probe.sentAt.None? <==> !SentBefore(h, |h|, i))
    && (forall j :: 0 <= j < |h| && Sends(h[j], i) ==> probe.sentAt == Some(h[j].now))
    && (probe.result.None? <==> forall k :: !Counts(queues, h, k, i))
    && (forall k :: CountsFirst(queues, h, k, i) ==>
                      probe.sentAt.Some? && probe.result == Some(ResultOf(queues, h[k], probe.sentAt.value)))
  }

  ghost predicate TableFollows(queues: seq<ReplyQueue>, h: seq<Event>, probes: seq<Probe>) {
    forall i :: 0 <= i < |probes| ==> ProbeFollows(queues, h, probes[i], i)
  }

  // ----- one completion, one probe ----------------------------------------

  /** What a completion does to probe `i`. */
  function Update(queues: seq<ReplyQueue>, probe: Probe, e: Event, i: int): Probe {
    if Sends(e, i) then probe.(sentAt := Some(e.now))
    else if Answers(queues, e, i) && probe.result.None? && probe.sentAt.Some?
    then probe.(result := Some(ResultOf(queues, e, probe.sentAt.value)))
    else probe
  }

  /** The slab maps every slot to the probe of the same index. */
  ghost predicate SlabIdentity(p: Program) {
    forall k <- p.sending :: k < |p.probes| && p.sending[k] == k
  }

  /** Each probe is updated on its own. */
  lemma NextUpdates(queues: seq<ReplyQueue>, p: Program, c: Cqe, now: Instant, i: nat)
    requires SlabIdentity(p) && i < |p.probes| && !Next(queues, p, c, now).0.Panicked?
    ensures |Next(queues, p, c, now).1.probes| == |p.probes|
    ensures Next(queues, p, c, now).1.probes[i] == Update(queues, p.probes[i], Event(c, now), i)
  {
    hide AnswerIn;
  }

  // ----- one more event ---------------------------------------------------

  lemma SentBeforeGrows(h: seq<Event>, e: Event, k: nat, i: int)
    requires k <= |h|
    ensures SentBefore(h + [e], k, i) == SentBefore(h, k, i)
    ensures SentBefore(h + [e], |h| + 1, i) == (SentBefore(h, |h|, i) || Sends(e, i))
  {
    if SentBefore(h, k, i) {
      var j :| 0 <= j < k && j < |h| && Sends(h[j], i);
      assert Sends((h + [e])[j], i);
    }
    if SentBefore(h, |h|, i) {
      var j :| 0 <= j < |h| && Sends(h[j], i);
      assert Sends((h + [e])[j], i);
    }
    if Sends(e, i) {
      assert Sends((h + [e])[|h|], i);
    }
  }

  lemma CountsGrows(queues: seq<ReplyQueue>, h: seq<Event>, e: Event, k: int, i: int)
    ensures Counts(queues, h + [e], k, i)
            == (Counts(queues, h, k, i) || (k == |h| && Answers(queues, e, i) && SentBefore(h, |h|, i)))
  {
    if 0 <= k <= |h| {
      SentBeforeGrows(h, e, k, i);
    }
  }

  /** An answer that counts has a first one that does. */
  lemma {:induction false} FirstExists(queues: seq<ReplyQueue>, h: seq<Event>, k: int, i: int) returns (f: int)
    requires Counts(queues, h, k, i)
    ensures f <= k && CountsFirst(queues, h, f, i)
    decreases k
  {
    if k' :| 0 <= k' < k && Counts(queues, h, k', i) {
      f := FirstExists(queues, h, k', i);
    } else {
      f := k;
    }
  }

  /** The first answer stays first, and a new one is first only if there was none. */
  lemma CountsFirstGrows(queues: seq<ReplyQueue>, h: seq<Event>, e: Event, k: int, i: int)
    ensures CountsFirst(queues, h + [e], k, i)
            <==> || CountsFirst(queues, h, k, i)
                 || (&& k == |h| && Answers(queues, e, i) && SentBefore(h, |h|, i)
                     && forall k' :: !Counts(queues, h, k', i))
  {
    forall k' ensures Counts(queues, h + [e], k', i)
            == (Counts(queues, h, k', i) || (k' == |h| && Answers(queues, e, i) && SentBefore(h, |h|, i)))
    {
      CountsGrows(queues, h, e, k', i);
    }
  }

  /** A probe that follows the history still does after its update. The send of
      a probe completes once, so no earlier one is on record. */
  lemma UpdateFollows(queues: seq<ReplyQueue>, h: seq<Event>, probe: Probe, e: Event, i: int)
    requires ProbeFollows(queues, h, probe, i)
    requires Sends(e, i) ==> !SentBefore(h, |h|, i)
    ensures ProbeFollows(queues, h + [e], Update(queues, probe, e, i), i)
  {
    var h', updated := h + [e], Update(queues, probe, e, i);
    SentBeforeGrows(h, e, |h|, i);
    forall k ensures Counts(queues, h', k, i)
                     == (Counts(queues, h, k, i) || (k == |h| && Answers(queues, e, i) && SentBefore(h, |h|, i)))
                     && (Counts(queues, h, k, i) ==> SentBefore(h, |h|, i))
    {
      CountsGrows(queues, h, e, k, i);
    }
    forall j | 0 <= j < |h'| && Sends(h'[j], i) ensures updated.sentAt == Some(h'[j].now) {
      if j < |h| {
        assert Sends(h[j], i);
      }
    }
    forall k | CountsFirst(queues, h', k, i)
      ensures updated.sentAt.Some? && updated.result == Some(ResultOf(queues, h'[k], updated.sentAt.value))
    {
      CountsFirstGrows(queues, h, e, k, i);
    }
    if Answers(queues, e, i) && SentBefore(h, |h|, i) {
      assert Counts(queues, h', |h|, i);
    }
  }

  // ----- along a run ------------------------------------------------------

  predicate HandledWrite(e: Event, slot: int) {
    e.cqe.tag.kind.Write? && e.cqe.tag.slot == slot
  }

  /** No completion of slot `k`'s send was handled yet. */
  predicate Unhandled(h: seq<Event>, k: int) {
    forall j :: 0 <= j < |h| ==> !HandledWrite(h[j], k)
  }

  lemma UnhandledGrows(h: seq<Event>, e: Event, k: int)
    ensures Unhandled(h + [e], k) == (Unhandled(h, k) && !HandledWrite(e, k))
  {
    if Unhandled(h + [e], k) {
      forall j | 0 <= j < |h| ensures !HandledWrite(h[j], k) {
        assert (h + [e])[j] == h[j];
      }
      assert (h + [e])[|h|] == e;
    }
  }

  /** How many send completions were handled. */
  function WritesHandled(h: seq<Event>): nat {
    if h == [] then 0
    else WritesHandled(h[..|h| - 1]) + if h[|h| - 1].cqe.tag.kind.Write? then 1 else 0
  }

  /** The slab against the history: a slot is outstanding until its completion is handled. */
  ghost predicate SlabFollows(cfg: Config, s: System) {
    && (forall k :: k in s.program.sending
          <==> 0 <= k < cfg.ProbeCount() && Unhandled(s.history, k))
    && |s.program.sending| + WritesHandled(s.history) == cfg.ProbeCount()
  }

  /** Whether the run goes on is decided by the table and the slab alone. */
  predicate StopsOnTime(s: System) {
    && (s.Running() ==> !s.program.Complete())
    && (s.phase == Returned(false) ==> s.program.Complete())
    && (s.phase == Returned(true) ==> !s.program.Complete())
  }

  ghost predicate Follows(cfg: Config, s: System) {
    && TableFollows(cfg.queues, s.history, s.program.probes)
    && SlabFollows(cfg, s)
    && StopsOnTime(s)
    && IsTable(s.program.probes, cfg.firstHop, cfg.lastHop, cfg.count)
  }

  lemma FollowsStart(cfg: Config)
    requires cfg.Valid()
    ensures Follows(cfg, Start(cfg))
  {
    C.SendingIdentity(cfg.ProbeCount());
    C.SetupIncomplete(cfg);
    SetupIsTable(cfg.firstHop, cfg.lastHop, cfg.count);
    FreshTable(cfg.firstHop, cfg.lastHop, cfg.count);
  }

  lemma {:induction false} FreshTable(firstHop: nat, lastHop: u8, count: u16)
    ensures forall p <- Table(firstHop, lastHop, count) :: p.sentAt.None? && p.result.None?
    decreases lastHop + 1 - firstHop
  {
    if firstHop <= lastHop {
      FreshTable(firstHop + 1, lastHop, count);
    }
  }

  /** Updates change neither TTLs nor results already there. */
  lemma UpdatesGrow(queues: seq<ReplyQueue>, p: Program, c: Cqe, now: Instant)
    requires SlabIdentity(p) && !Next(queues, p, c, now).0.Panicked?
    ensures Grows(p.probes, Next(queues, p, c, now).1.probes)
  {
    var q := Next(queues, p, c, now).1;
    C.NextRequests(queues, p, c, now);
    forall i | 0 <= i < |p.probes|
      ensures q.probes[i].ttl == p.probes[i].ttl
      ensures p.probes[i].result.Some? ==> q.probes[i].result == p.probes[i].result
    {
      NextUpdates(queues, p, c, now, i);
      hide Next;
    }
  }

  lemma TableFollowsHandle(cfg: Config, s: System, now: Instant)
    requires C.Inv(cfg, s) && Follows(cfg, s) && Enabled(s, Handle(now))
    ensures var t := Apply(cfg, s, Handle(now));
            TableFollows(cfg.queues, t.history, t.program.probes)
  {
    var c, t := s.posted[0], Apply(cfg, s, Handle(now));
    C.InvHandle(cfg, s, now);
    C.NextRequests(cfg.queues, s.program, c, now);
    forall i | 0 <= i < |t.program.probes|
      ensures ProbeFollows(cfg.queues, t.history, t.program.probes[i], i)
    {
      NextUpdates(cfg.queues, s.program, c, now, i);
      SendsOnce(cfg, s, Event(c, now), i);
      UpdateFollows(cfg.queues, s.history, s.program.probes[i], Event(c, now), i);
    }
  }

  /** A send that completes now has not completed before. */
  lemma SendsOnce(cfg: Config, s: System, e: Event, i: int)
    requires C.Inv(cfg, s) && SlabFollows(cfg, s) && s.Running() && s.posted != [] && e.cqe == s.posted[0]
    ensures e.cqe.tag.kind.Write? ==> e.cqe.tag.slot in s.program.sending
    ensures Sends(e, i) ==> !SentBefore(s.history, |s.history|, i)
  {
    assert C.WellTagged(cfg, s.posted[0]);
    if e.cqe.tag.kind.Write? {
      C.HeadIsLive(cfg, s);
    }
    if Sends(e, i) {
      forall j | 0 <= j < |s.history| ensures !Sends(s.history[j], i) {
        assert Unhandled(s.history, i);
      }
    }
  }

  lemma SlabFollowsHandle(cfg: Config, s: System, now: Instant)
    requires C.Inv(cfg, s) && SlabFollows(cfg, s) && Enabled(s, Handle(now))
    requires Apply(cfg, s, Handle(now)).phase != Crashed
    ensures SlabFollows(cfg, Apply(cfg, s, Handle(now)))
  {
    var e, t := Event(s.posted[0], now), Apply(cfg, s, Handle(now));
    C.NextRequests(cfg.queues, s.program, e.cqe, now);
    SendsOnce(cfg, s, e, 0);
    SlabShrinks(s.program.sending, s.history, e, cfg.ProbeCount());
    hide Next;
  }

  /** The slab keeps pace with one more event. */
  lemma SlabShrinks(sending: map<nat, ProbeId>, h: seq<Event>, e: Event, n: nat)
    requires forall k :: k in sending <==> 0 <= k < n && Unhandled(h, k)
    requires e.cqe.tag.kind.Write? ==> e.cqe.tag.slot in sending
    ensures var left := if e.cqe.tag.kind.Write? then sending - {e.cqe.tag.slot} else sending;
            && (forall k :: k in left <==> 0 <= k < n && Unhandled(h + [e], k))
            && |left| + WritesHandled(h + [e]) == |sending| + WritesHandled(h)
  {
    forall k ensures Unhandled(h + [e], k) == (Unhandled(h, k) && !HandledWrite(e, k)) {
      UnhandledGrows(h, e, k);
    }
    assert (h + [e])[..|h|] == h;
    if e.cqe.tag.kind.Write? {
      var left := sending - {e.cqe.tag.slot};
      assert sending == left[e.cqe.tag.slot := sending[e.cqe.tag.slot]];
      assert |sending| == |left| + 1;
    }
  }

  lemma TableKeptByHandle(cfg: Config, s: System, now: Instant)
    requires C.Inv(cfg, s) && Follows(cfg, s) && Enabled(s, Handle(now))
    ensures IsTable(Apply(cfg, s, Handle(now)).program.probes, cfg.firstHop, cfg.lastHop, cfg.count)
  {
    C.InvHandle(cfg, s, now);
    UpdatesGrow(cfg.queues, s.program, s.posted[0], now);
    hide Next;
    hide TableFollows;
    hide SlabFollows;
    GrowsKeepsTable(s.program.probes, Apply(cfg, s, Handle(now)).program.probes, cfg.firstHop, cfg.lastHop, cfg.count);
  }

  lemma StopsOnTimeAfterHandle(cfg: Config, s: System, now: Instant)
    requires StopsOnTime(s) && Enabled(s, Handle(now))
    ensures StopsOnTime(Apply(cfg, s, Handle(now)))
  {
    VerdictStops(cfg.queues, s.program, s.posted[0], now);
    hide Next;
    hide ReachedInOrder;
  }

  lemma FollowsHandle(cfg: Config, s: System, now: Instant)
    requires C.Inv(cfg, s) && Follows(cfg, s) && Enabled(s, Handle(now))
    ensures Follows(cfg, Apply(cfg, s, Handle(now)))
  {
    C.InvHandle(cfg, s, now);
    TableFollowsHandle(cfg, s, now);
    SlabFollowsHandle(cfg, s, now);
    TableKeptByHandle(cfg, s, now);
    StopsOnTimeAfterHandle(cfg, s, now);
    hide Next;
    hide TableFollows;
    hide SlabFollows;
    hide StopsOnTime;
    hide IsTable;
  }

  /** The verdict of a turn tells whether the program is complete after it. */
  lemma VerdictStops(queues: seq<ReplyQueue>, p: Program, c: Cqe, now: Instant)
    ensures var (verdict, q) := Next(queues, p, c, now);
            && (verdict.Continue? ==> !q.Complete())
            && (verdict == Finished(false) ==> q.Complete())
            && (verdict.Finished? ==> verdict.timedOut == c.tag.kind.Timeout?)
            && (verdict == Finished(true) ==> q == p)
  {
    hide ReachedInOrder;
    hide Record;
    hide AnswerIn;
  }

  lemma FollowsStep(cfg: Config, s: System, a: Action)
    requires C.Inv(cfg, s) && Follows(cfg, s) && Enabled(s, a)
    ensures Follows(cfg, Apply(cfg, s, a))
  {
    if a.Handle? {
      FollowsHandle(cfg, s, a.now);
    } else {
      hide TableFollows;
      hide ReachedInOrder;
      hide IsTable;
    }
  }

  lemma {:induction false} FollowsExec(cfg: Config, s: System, actions: seq<Action>)
    requires C.Inv(cfg, s) && Follows(cfg, s) && Exec(cfg, s, actions).Some?
    ensures Follows(cfg, Exec(cfg, s, actions).value)
    decreases |actions|
  {
    if actions != [] {
      C.InvStep(cfg, s, actions[0]);
      FollowsStep(cfg, s, actions[0]);
      FollowsExec(cfg, Apply(cfg, s, actions[0]), actions[1..]);
    }
  }

  lemma ReachableFollows(cfg: Config, s: System)
    requires Reachable(cfg, s)
    ensures Follows(cfg, s)
  {
    C.InvStart(cfg);
    FollowsStart(cfg);
    var actions :| Exec(cfg, Start(cfg), actions) == Some(s);
    FollowsExec(cfg, Start(cfg), actions);
  }
}

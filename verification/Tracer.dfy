/** The trace as the program runs it: an object whose methods update the table,
    the slab and the queue in place, after src/trace.rs:167-475. */
module Tracing {
  import opened Prelude
  import opened Net
  import opened Methods
  import opened Ring
  import opened Trace
  import opened StopRule
  import opened History
  import opened Scripts
  import C = Conservation
  import Runs

  /** How a run ends. */
  datatype Outcome = StillRunning | Done(probes: seq<Probe>, timedOut: bool) | Error(rejected: bool)

  class Tracer {
    const cfg: Config
    var probes: seq<Probe>
    var sending: map<nat, ProbeId>
    var sq: SubmissionQueue

    // The kernel's side, which the program only touches through the queues.
    var kernel: multiset<UserData>
    var posted: seq<Cqe>
    var visible: nat

    var phase: Phase
    ghost var history: seq<Event>
    ghost var actions: seq<Action>

    function Own(): Program
      reads this
    {
      Program(probes, sending, sq)
    }

    ghost function View(): System
      reads this
    {
      System(phase, Own(), kernel, posted, visible, history)
    }

    /** The object is where its actions lead from a completed setup. */
    ghost predicate Valid()
      reads this
    {
      cfg.Valid() && Exec(cfg, Start(cfg), actions) == Some(View())
    }

    /** The table is laid out and nothing is queued, sent or handled. */
    ghost predicate Untouched()
      reads this
    {
      && probes == Table(cfg.firstHop, cfg.lastHop, cfg.count) && sending == map[]
      && sq == SubmissionQueue(cfg.capacity, 0, [], [])
      && kernel == multiset{} && posted == [] && visible == 0
      && phase == Submitting && history == [] && actions == []
    }

    constructor (cfg: Config)
      ensures this.cfg == cfg && Untouched()
    {
      this.cfg := cfg;
      probes := Table(cfg.firstHop, cfg.lastHop, cfg.count);
      sending := map[];
      sq := SubmissionQueue(cfg.capacity, 0, [], []);
      kernel, posted, visible := multiset{}, [], 0;
      phase, history, actions := Submitting, [], [];
    }

    /** Pushes an entry, or reports a full queue. */
    method Push(u: UserData) returns (ok: bool)
      modifies `sq
      ensures ok <==> old(sq).Occupied() < old(sq).capacity
      ensures sq == if ok then old(sq).(unpublished := old(sq).unpublished + [u]) else old(sq)
    {
      var pushed := sq.Push(u);
      ok := pushed.Some?;
      if ok {
        sq := pushed.value;
      }
    }

    /** Puts a probe into the slab's next vacant slot and queues its send; takes
        it out again if the queue is full. */
    method ScheduleWrite(id: ProbeId) returns (ok: bool)
      requires |sending| !in sending && |sending| < 0x1_0000
      modifies `sending, `sq
      ensures ok <==> old(sq).Occupied() < old(sq).capacity
      ensures ok ==> sending == old(sending)[|old(sending)| := id]
                     && sq == old(sq).(unpublished := old(sq).unpublished + [UserData(|old(sending)|, Write)])
      ensures !ok ==> sending == old(sending) && sq == old(sq)
    {
      var slot := |sending|;
      sending := sending[slot := id];
      ok := Push(UserData(slot, Write));
      if !ok {
        sending := sending - {slot};
      }
    }

    /** Queues one read per reader. */
    method ScheduleReads() returns (ok: bool)
      requires |cfg.queues| <= 0x1_0000 && sq == SubmissionQueue(cfg.capacity, 0, [], [])
      modifies `sq
      ensures ok <==> |cfg.queues| <= cfg.capacity
      ensures ok ==> sq == SubmissionQueue(cfg.capacity, 0, [], ReadEntries(|cfg.queues|))
    {
      ok := true;
      for slot := 0 to |cfg.queues|
        invariant ok && slot <= cfg.capacity
        invariant sq == SubmissionQueue(cfg.capacity, 0, [], ReadEntries(slot))
      {
        ok := Push(UserData(slot, Read));
        if !ok {
          return;
        }
      }
    }

    /** Queues one send per probe, in the order of the table. */
    method ScheduleWrites() returns (ok: bool)
      requires |probes| < 0x1_0000 && sending == map[]
      requires sq.Occupied() <= sq.capacity
      modifies `sending, `sq
      ensures ok <==> old(sq).Occupied() + |probes| <= old(sq).capacity
      ensures ok ==> sending == Sending(|probes|)
      ensures ok ==> sq == old(sq).(unpublished := old(sq).unpublished + WriteEntries(|probes|))
    {
      ok := true;
      for index := 0 to |probes|
        invariant ok && sending == Sending(index)
        invariant old(sq).Occupied() + index <= old(sq).capacity
        invariant sq == old(sq).(unpublished := old(sq).unpublished + WriteEntries(index))
      {
        C.SendingIdentity(index);
        ok := ScheduleWrite(index);
        if !ok {
          return;
        }
      }
    }

    lemma StartIsValid()
      requires cfg.Valid() && View() == Start(cfg) && actions == []
      ensures Valid()
    {
    }

    /** Twice `n` on u16, wrapping. */
    static function Doubled(n: u16): (d: u16)
      ensures n < 0x8000 ==> d == 2 * n
      ensures n >= 0x8000 ==> d == 2 * n - 0x1_0000 < n
    {
      2 * n % 0x1_0000
    }

    /** Everything before the loop: the readers, the sends and the timeout are
        queued in that order. It succeeds exactly when the probe count fits its
        16-bit conversion and the ring holds every entry. `buffers` is how many
        reply buffers it asks for: the doubling is on u16 and, in a build without
        overflow checks, wraps from 32768 probes on. */
    method Setup() returns (ok: bool, buffers: u16)
      requires Untouched()
      requires |cfg.queues| <= 0x1_0000
      modifies `sending, `sq
      ensures ok <==> cfg.Valid()
      ensures ok ==> Valid() && View() == Start(cfg)
      ensures ok && |probes| < 0x8000 ==> buffers == 2 * |probes|
      ensures ok && |probes| >= 0x8000 ==> buffers == 2 * |probes| - 0x1_0000 < |probes|
    {
      C.TableLength(cfg.firstHop, cfg.lastHop, cfg.count);
      assert |probes| == cfg.ProbeCount();
      hide Config.ProbeCount;
      hide Exec;
      hide Table;
      hide Sending;
      hide ReadEntries;
      hide WriteEntries;
      ok, buffers := |probes| < 0x1_0000, 0;
      if ok {
        buffers := Doubled(|probes|);
        ok := ScheduleReads();
      }
      if ok {
        ok := ScheduleWrites();
      }
      if ok {
        ok := Push(TIMEOUT_ENTRY);
      }
      if ok {
        PublishSetup();
      }
    }

    /** The first `sq.sync`. */
    method PublishSetup()
      requires cfg.Valid() && probes == Table(cfg.firstHop, cfg.lastHop, cfg.count)
      requires sending == Sending(cfg.ProbeCount()) && sq == SubmissionQueue(cfg.capacity, 0, [], SetupEntries(cfg))
      requires kernel == multiset{} && posted == [] && visible == 0
      requires phase == Submitting && history == [] && actions == []
      modifies `sq
      ensures Valid() && View() == Start(cfg)
    {
      hide Exec;
      hide SetupEntries;
      sq := sq.Sync();
      assert sq.pending == SetupEntries(cfg);
      StartIsValid();
    }

    /** Records the answer a message holds, if it is a first one for a sent probe. */
    method HandleRead(queue: ReplyQueue, message: Message, now: Instant)
      modifies `probes
      ensures probes == Record(old(probes), AnswerIn(queue, message), now)
    {
      var source, destination, error := None, None, None;
      if queue.errQueue {
        if message.truncated {
          return;
        }
        var extended := WalkControl(message.control);
        if extended.None? {
          return;
        }
        source := ParseSockaddr(extended.value.sourceBytes);
        destination := ParseSockaddr(message.name);
        error := Some(extended.value.error);
      } else {
        source := ParseSockaddr(message.name);
      }
      var reply := Reply(source, destination, message.payload, error);
      assert ReplyIn(queue, message) == Some(reply);
      var id := queue.replies.Identify(reply);
      if id.None? || id.value >= |probes| {
        return;
      }
      var probe := probes[id.value];
      if probe.result.Some? || probe.sentAt.None? {
        return;
      }
      var from := if reply.source.None? then None else Some(reply.source.value.Ip());
      var rtt := Elapsed(probe.sentAt.value, now);
      probe := probe.(result := Some(ProbeResult(from, rtt, queue.replies.Classify(reply))));
      probes := probes[id.value := probe];
    }

    /** Handles one completion. */
    method Step(c: Cqe, now: Instant) returns (verdict: Verdict)
      modifies `probes, `sending, `sq
      ensures (verdict, Own()) == Next(cfg.queues, old(Own()), c, now)
    {
      match c.tag.kind {
        case Timeout =>
        case Write =>
          if c.tag.slot !in sending {
            return Panicked;
          }
          var id := sending[c.tag.slot];
          if c.result >= 0 && id >= |probes| {
            return Panicked;
          }
          sending := sending - {c.tag.slot};
          if c.result >= 0 {
            probes := probes[id := probes[id].(sentAt := Some(now))];
          }
        case Read =>
          if c.tag.slot >= |cfg.queues| || (c.result >= 0 && (c.result == 0 || c.message.None?)) {
            return Panicked;
          }
          if c.result >= 0 {
            HandleRead(cfg.queues[c.tag.slot], c.message.value, now);
          }
          if !c.more {
            var pushed := Push(c.tag);
            if !pushed {
              return Rejected;
            }
          }
      }

      if sending == map[] && ReachedInOrder(probes) && !c.tag.kind.Timeout? {
        verdict := Finished(false);
      } else if c.tag.kind.Timeout? {
        verdict := Finished(true);
      } else {
        verdict := Continue;
      }
    }

    /** An action the kernel or the program took is added to the record. */
    lemma Recorded(before: System, a: Action)
      requires cfg.Valid() && |actions| > 0 && a == actions[|actions| - 1]
      requires Exec(cfg, Start(cfg), actions[..|actions| - 1]) == Some(before)
      requires Enabled(before, a) && View() == Apply(cfg, before, a)
      ensures Valid()
    {
      C.ExecAppend(cfg, Start(cfg), actions[..|actions| - 1], a);
      assert actions == actions[..|actions| - 1] + [a];
    }

    /** `submit_and_wait`: the kernel takes some of the published entries. */
    method Submit(outcome: SubmitOutcome, wanted: nat)
      requires Valid() && phase.Submitting?
      modifies this
      ensures Valid() && phase == (if outcome.Fatal? then Failed(false) else Waiting) && history == old(history)
      ensures View() == Apply(cfg, old(View()), Trace.Submit(outcome, Min(wanted, |old(sq).pending|)))
    {
      ghost var before := View();
      var consumed := if wanted <= |sq.pending| then wanted else |sq.pending|;
      kernel := kernel + multiset(sq.pending[..consumed]);
      sq := sq.Consume(consumed);
      phase := if outcome.Fatal? then Failed(false) else Waiting;
      actions := actions + [Trace.Submit(outcome, consumed)];
      assert actions[..|actions| - 1] == old(actions);
      Recorded(before, Trace.Submit(outcome, consumed));
    }

    /** The kernel posts what it may of what it would, at any time in the loop. */
    method Post(posts: seq<Cqe>)
      requires Valid() && phase in {Submitting, Waiting, Draining}
      modifies this
      ensures Valid() && View() == PostAll(cfg, old(View()), posts)
    {
      for i := 0 to |posts|
        invariant Valid() && phase == old(phase)
        invariant PostAll(cfg, View(), posts[i..]) == PostAll(cfg, old(View()), posts)
      {
        PostOne(posts[i]);
        assert posts[i..][1..] == posts[i + 1..];
      }
    }

    method PostOne(c: Cqe)
      requires Valid() && phase in {Submitting, Waiting, Draining}
      modifies this
      ensures Valid() && phase == old(phase)
      ensures View() == if Enabled(old(View()), Trace.Post(c)) then Apply(cfg, old(View()), Trace.Post(c))
                        else old(View())
    {
      if Postable(kernel, c) {
        ghost var before := View();
        posted := posted + [c];
        if !c.more {
          kernel := kernel - multiset{c.tag};
        }
        actions := actions + [Trace.Post(c)];
        assert actions[..|actions| - 1] == old(actions);
        Recorded(before, Trace.Post(c));
      }
    }

    /** `cq.sync`: the batch is what was posted by now. */
    method TakeBatch()
      requires Valid() && phase.Waiting?
      modifies this
      ensures Valid() && phase.Draining? && history == old(history)
      ensures View() == Apply(cfg, old(View()), SyncCompletions)
    {
      ghost var before := View();
      visible := |posted|;
      phase := Draining;
      actions := actions + [SyncCompletions];
      assert actions[..|actions| - 1] == old(actions);
      Recorded(before, SyncCompletions);
    }

    /** Takes the next visible completion and handles it. */
    method HandleHead(now: Instant)
      requires Valid() && phase.Draining? && visible > 0
      modifies this
      ensures Valid() && visible < old(visible)
      ensures Enabled(old(View()), Handle(now)) && View() == Apply(cfg, old(View()), Handle(now))
      ensures phase in {Draining, Returned(false), Returned(true), Failed(true)}
    {
      hide Next;
      ghost var before := View();
      C.ReachableInv(cfg, before);
      var c := posted[0];
      posted, visible := posted[1..], visible - 1;
      var verdict := Step(c, now);
      phase := PhaseAfter(verdict);
      history := history + [Event(c, now)];
      actions := actions + [Handle(now)];
      assert actions[..|actions| - 1] == old(actions);
      Recorded(before, Handle(now));
      Runs.ReachedBy(cfg, actions, View());
      C.NeverCrashes(cfg, View());
    }

    /** The loop over one batch, while the kernel goes on posting. */
    method Drain(clock: nat -> Instant, late: seq<seq<Cqe>>, ticks: nat) returns (ticks': nat)
      requires Valid() && phase.Draining? && ticks == |history|
      modifies this
      ensures Valid() && phase in {Draining, Returned(false), Returned(true), Failed(true)}
      ensures phase.Draining? ==> visible == 0
      ensures View() == HandleBatch(cfg, old(View()), clock, late) && ticks' == |history|
    {
      ticks' := ticks;
      var ahead := late;
      while phase.Draining? && visible > 0
        invariant Valid() && phase in {Draining, Returned(false), Returned(true), Failed(true)}
        invariant HandleBatch(cfg, View(), clock, ahead) == HandleBatch(cfg, old(View()), clock, late)
        invariant ticks' == |history|
        decreases visible
      {
        ghost var before := View();
        VisibleIsPosted();
        assert Enabled(before, Handle(clock(ticks')));
        hide Apply;
        Post(Head(ahead));
        HandleHead(clock(ticks'));
        ahead := Tail(ahead);
        ticks' := ticks' + 1;
      }
    }

    lemma VisibleIsPosted()
      requires Valid()
      ensures visible <= |posted|
    {
      Runs.ReachedBy(cfg, actions, View());
      C.ReachableInv(cfg, View());
    }

    /** `sq.sync`: the queue is published and the kernel's progress noticed. */
    method PublishQueue()
      requires Valid() && phase.Draining? && visible == 0
      modifies this
      ensures Valid() && phase.Submitting? && history == old(history)
      ensures View() == Apply(cfg, old(View()), SyncSubmissions)
    {
      ghost var before := View();
      sq := sq.Sync();
      phase := Submitting;
      actions := actions + [SyncSubmissions];
      assert actions[..|actions| - 1] == old(actions);
      Recorded(before, SyncSubmissions);
    }

    /** The rest of a turn once the submit returned. */
    method RunBatch(round: Round, clock: nat -> Instant, ticks: nat) returns (ticks': nat)
      requires Valid() && phase.Waiting? && ticks == |history|
      modifies this
      ensures Valid() && phase in {Submitting, Returned(false), Returned(true), Failed(true)}
      ensures View() == PlayBatch(cfg, old(View()), round.posts, clock, round.late) && ticks' == |history|
    {
      hide Exec;
      hide Next;
      hide HandleBatch;
      hide PostAll;
      Post(round.posts);
      TakeBatch();
      ticks' := Drain(clock, round.late, ticks);
      if phase.Draining? {
        PublishQueue();
      }
    }

    /** One turn of the outer loop. */
    method RunRound(round: Round, clock: nat -> Instant, ticks: nat) returns (ticks': nat)
      requires Valid() && phase.Submitting? && ticks == |history|
      modifies this
      ensures Valid() && phase in {Submitting, Returned(false), Returned(true), Failed(true), Failed(false)}
      ensures View() == PlayRound(cfg, old(View()), round, clock) && ticks' == |history|
    {
      hide Exec;
      hide PlayBatch;
      hide PostAll;
      ticks' := ticks;
      Post(round.early);
      Submit(round.outcome, round.consumed);
      if phase.Waiting? {
        ticks' := RunBatch(round, clock, ticks);
      }
    }

    /** The loop of `run`, for as many rounds as the script lasts. Its final state
        is the one the script leads to. Whatever the kernel tries, the run never
        leaves the tables' bounds; a table it returns is what the history of
        handled completions makes of each probe, and it is returned without the
        timeout only once the target was found with no send outstanding. */
    method Run(script: seq<Round>, clock: nat -> Instant) returns (r: Outcome)
      requires Valid() && phase.Submitting? && history == []
      modifies this
      ensures Valid() && View() == Play(cfg, old(View()), script, clock)
      ensures r == match phase
                   case Returned(timedOut) => Done(probes, timedOut)
                   case Failed(rejected) => Error(rejected)
                   case _ => StillRunning
      ensures phase != Crashed
      ensures r.Done? ==> |r.probes| == cfg.ProbeCount() && TableFollows(cfg.queues, history, r.probes)
      ensures r.Done? && !r.timedOut ==> sending == map[] && TargetFound(r.probes, cfg.firstHop, cfg.lastHop)
      ensures TimeoutExpires(cfg, script) ==> !r.StillRunning?
      ensures r.Error? && r.rejected ==> cfg.capacity < cfg.RingSize() + |cfg.queues|
    {
      ghost var before := View();
      Runs.ReachedBy(cfg, actions, before);
      var ticks := 0;
      var i := 0;
      while i < |script| && phase.Submitting?
        invariant i <= |script| && Valid() && ticks == |history|
        invariant Play(cfg, View(), script[i..], clock) == Play(cfg, old(View()), script, clock)
      {
        hide PlayRound;
        ticks := RunRound(script[i], clock, ticks);
        assert script[i..][1..] == script[i + 1..];
        i := i + 1;
      }
      if !phase.Submitting? {
        PlayEnds(cfg, View(), script[i..], clock);
      }
      if TimeoutExpires(cfg, script) {
        TimeoutEndsRun(cfg, before, script, clock);
      }
      Runs.ReachedBy(cfg, actions, View());
      Runs.OutcomeOf(cfg, View());
      r := match phase
        case Returned(timedOut) => Done(probes, timedOut)
        case Failed(rejected) => Error(rejected)
        case _ => StillRunning;
    }
  }
}

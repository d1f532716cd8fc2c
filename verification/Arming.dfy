/** Readers come first: the order of the setup, as far as a run can show it. */
module Arming {
  import opened Prelude
  import opened Ring
  import opened Trace
  import C = Conservation

  /** A read on this slot ended and was handled. */
  predicate EndedBefore(h: seq<Event>, u: UserData) {
    exists k :: 0 <= k < |h| && h[k].cqe.tag == u && !h[k].cqe.more
  }

  /** What is queued is the rest of the setup behind its first `taken` entries,
      then reads whose predecessor ended. */
  ghost predicate QueuedFrom(cfg: Config, s: System, taken: nat, again: seq<UserData>)
    requires cfg.Valid()
  {
    && taken <= cfg.RingSize()
    && s.program.sq.pending == SetupEntries(cfg)[taken..] + again
    && forall u <- again + s.program.sq.unpublished :: u.kind.Read? && EndedBefore(s.history, u)
  }

  ghost predicate InOrder(cfg: Config, s: System) {
    cfg.Valid() && exists taken: nat, again :: QueuedFrom(cfg, s, taken, again)
  }

  lemma SubmitKeepsOrder(cfg: Config, s: System, outcome: SubmitOutcome, consumed: nat)
    requires InOrder(cfg, s) && Enabled(s, Submit(outcome, consumed))
    ensures InOrder(cfg, Apply(cfg, s, Submit(outcome, consumed)))
  {
    var t := Apply(cfg, s, Submit(outcome, consumed));
    var taken: nat, again :| QueuedFrom(cfg, s, taken, again);
    var left := |SetupEntries(cfg)| - taken;
    if consumed <= left {
      assert t.program.sq.pending == SetupEntries(cfg)[taken + consumed..] + again;
      assert QueuedFrom(cfg, t, taken + consumed, again);
    } else {
      var rest := again[consumed - left..];
      assert t.program.sq.pending == SetupEntries(cfg)[|SetupEntries(cfg)|..] + rest;
      assert forall u <- rest + t.program.sq.unpublished :: u in again + s.program.sq.unpublished;
      assert QueuedFrom(cfg, t, |SetupEntries(cfg)|, rest);
    }
  }

  lemma EndedGrows(h: seq<Event>, e: Event, u: UserData)
    requires EndedBefore(h, u) || (e.cqe.tag == u && !e.cqe.more)
    ensures EndedBefore(h + [e], u)
  {
    if EndedBefore(h, u) {
      var k :| 0 <= k < |h| && h[k].cqe.tag == u && !h[k].cqe.more;
      assert (h + [e])[k] == h[k];
    } else {
      assert (h + [e])[|h|] == e;
    }
  }

  lemma HandleKeepsOrder(cfg: Config, s: System, now: Instant)
    requires InOrder(cfg, s) && Enabled(s, Handle(now))
    ensures InOrder(cfg, Apply(cfg, s, Handle(now)))
  {
    var t, e := Apply(cfg, s, Handle(now)), Event(s.posted[0], now);
    var taken: nat, again :| QueuedFrom(cfg, s, taken, again);
    C.NextRequests(cfg.queues, s.program, s.posted[0], now);
    NextKeepsPending(cfg, s.program, s.posted[0], now);
    assert t.history == s.history + [e];
    hide Next;
    hide Apply;
    hide SetupEntries;
    forall u <- again + t.program.sq.unpublished ensures u.kind.Read? && EndedBefore(t.history, u) {
      if u in again + s.program.sq.unpublished {
        EndedGrows(s.history, e, u);
      } else {
        EndedGrows(s.history, e, u);
      }
    }
    assert QueuedFrom(cfg, t, taken, again);
  }

  lemma NextKeepsPending(cfg: Config, p: Program, c: Cqe, now: Instant)
    ensures var q := Next(cfg.queues, p, c, now).1;
            q.sq == p.sq || (c.tag.kind.Read? && !c.more && q.sq == p.sq.(unpublished := p.sq.unpublished + [c.tag]))
  {
    hide Record;
    hide AnswerIn;
  }

  lemma SyncKeepsOrder(cfg: Config, s: System)
    requires InOrder(cfg, s) && Enabled(s, SyncSubmissions)
    ensures InOrder(cfg, Apply(cfg, s, SyncSubmissions))
  {
    var t := Apply(cfg, s, SyncSubmissions);
    var taken: nat, again :| QueuedFrom(cfg, s, taken, again);
    var again' := again + s.program.sq.unpublished;
    assert t.program.sq.pending == SetupEntries(cfg)[taken..] + again';
    assert again' + [] == again';
    assert QueuedFrom(cfg, t, taken, again');
  }

  lemma StepKeepsOrder(cfg: Config, s: System, a: Action)
    requires InOrder(cfg, s) && Enabled(s, a)
    ensures InOrder(cfg, Apply(cfg, s, a))
  {
    match a
    case Submit(outcome, consumed) => SubmitKeepsOrder(cfg, s, outcome, consumed);
    case Handle(now) => HandleKeepsOrder(cfg, s, now);
    case SyncSubmissions => SyncKeepsOrder(cfg, s);
    case _ =>
      var taken: nat, again :| QueuedFrom(cfg, s, taken, again);
      assert QueuedFrom(cfg, Apply(cfg, s, a), taken, again);
  }

  lemma {:induction false} RunKeepsOrder(cfg: Config, s: System, actions: seq<Action>)
    requires InOrder(cfg, s) && Exec(cfg, s, actions).Some?
    ensures InOrder(cfg, Exec(cfg, s, actions).value)
    decreases |actions|
  {
    if actions != [] {
      StepKeepsOrder(cfg, s, actions[0]);
      hide Apply;
      hide InOrder;
      RunKeepsOrder(cfg, Apply(cfg, s, actions[0]), actions[1..]);
    }
  }

  /** No reply can come too early: once any probe or the timeout was handed to the
      kernel, every reader was too, and a read waits in the queue again only
      because its predecessor ended. */
  lemma ReadersAreArmedFirst(cfg: Config, s: System, sent: UserData, slot: u16)
    requires Reachable(cfg, s) && sent in SetupEntries(cfg) && !sent.kind.Read?
    requires sent !in s.program.sq.pending
    requires UserData(slot, Read) in s.program.sq.pending + s.program.sq.unpublished
    ensures EndedBefore(s.history, UserData(slot, Read))
  {
    var actions :| Exec(cfg, Start(cfg), actions) == Some(s);
    assert QueuedFrom(cfg, Start(cfg), 0, []) by {
      assert SetupEntries(cfg)[0..] + [] == SetupEntries(cfg);
    }
    RunKeepsOrder(cfg, Start(cfg), actions);
    var taken: nat, again :| QueuedFrom(cfg, s, taken, again);
    SetupReadsFirst(cfg, taken, sent, UserData(slot, Read));
  }

  /** A setup entry that sends is preceded by every read of the setup. */
  lemma SetupReadsFirst(cfg: Config, taken: nat, sent: UserData, read: UserData)
    requires cfg.Valid() && taken <= cfg.RingSize()
    requires sent in SetupEntries(cfg) && !sent.kind.Read? && sent !in SetupEntries(cfg)[taken..] && read.kind.Read?
    ensures read !in SetupEntries(cfg)[taken..]
  {
    var readers, writers := ReadEntries(|cfg.queues|), WriteEntries(cfg.ProbeCount());
    C.ReadEntriesCount(|cfg.queues|, sent);
    C.WriteEntriesCount(cfg.ProbeCount(), read);
    assert SetupEntries(cfg) == readers + (writers + [TIMEOUT_ENTRY]);
    assert sent !in readers by {
      assert multiset(readers)[sent] == 0;
    }
    assert read !in writers by {
      assert multiset(writers)[read] == 0;
    }
    hide SetupEntries;
    hide ReadEntries;
    hide WriteEntries;
    FirstPartFirst(readers, writers + [TIMEOUT_ENTRY], taken, sent, read);
  }

  /** Once something of the second part was taken, nothing of the first is left. */
  lemma FirstPartFirst<T>(first: seq<T>, second: seq<T>, taken: nat, x: T, y: T)
    requires taken <= |first + second|
    requires x in first + second && x !in first && y !in second && x !in (first + second)[taken..]
    ensures y !in (first + second)[taken..]
  {
    var all := first + second;
    var k :| 0 <= k < |all| && all[k] == x;
    assert forall i :: taken <= i < |all| ==> all[i] in all[taken..];
    assert k >= |first|;
    assert all[taken..] == second[taken - |first|..];
  }
}

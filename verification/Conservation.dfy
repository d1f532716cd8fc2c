/** Who owns which request: every run keeps exactly one live request per owner,
    never indexes out of range, and fits its re-arms into the queue exactly when
    the ring has room for them. */
module Conservation {
  import opened Prelude
  import opened Methods
  import opened Ring
  import opened Trace

  /** How many completions in `cqes` finish the request `u`. */
  function Finals(cqes: seq<Cqe>, u: UserData): nat {
    if cqes == [] then 0
    else (if !cqes[0].more && cqes[0].tag == u then 1 else 0) + Finals(cqes[1..], u)
  }

  /** How often `u` is live: pushed, published, in the kernel, or finished and not yet handled. */
  function Live(s: System, u: UserData): nat {
    multiset(s.program.sq.unpublished)[u] + multiset(s.program.sq.pending)[u] + s.kernel[u] + Finals(s.posted, u)
  }

  /** Each reader, each outstanding send and the unhandled timeout own one request. */
  predicate Owned(cfg: Config, s: System, u: UserData) {
    match u.kind
    case Read => u.slot < |cfg.queues|
    case Write => u.slot in s.program.sending
    case Timeout => u.slot == 0 && s.phase != Returned(true)
  }

  ghost predicate Conserved(cfg: Config, s: System) {
    forall u :: Live(s, u) == if Owned(cfg, s, u) then 1 else 0
  }

  predicate WellTagged(cfg: Config, c: Cqe) {
    && (c.more ==> c.tag.kind.Read?)
    && (c.tag.kind.Read? ==> c.tag.slot < |cfg.queues| && (c.result >= 0 ==> c.result > 0 && c.message.Some?))
  }

  ghost predicate Inv(cfg: Config, s: System) {
    && cfg.Valid()
    && |s.program.probes| == cfg.ProbeCount()
    && (forall k <- s.program.sending :: k < cfg.ProbeCount() && s.program.sending[k] == k)
    && s.program.sq.capacity == cfg.capacity
    && (forall u <- s.program.sq.unpublished :: u.kind.Read?)
    && s.program.sq.lag + |s.program.sq.pending| <= cfg.RingSize()
    && s.visible <= |s.posted|
    && (forall c <- s.posted :: WellTagged(cfg, c))
    && s.phase != Crashed
    && (s.phase != Failed(true) ==> Conserved(cfg, s))
  }

  // ----- counting ---------------------------------------------------------

  lemma {:induction false} FinalsAppend(cqes: seq<Cqe>, c: Cqe, u: UserData)
    ensures Finals(cqes + [c], u) == Finals(cqes, u) + (if !c.more && c.tag == u then 1 else 0)
  {
    if cqes == [] {
      assert (cqes + [c])[1..] == [];
    } else {
      assert (cqes + [c])[1..] == cqes[1..] + [c];
      FinalsAppend(cqes[1..], c, u);
    }
  }

  /** The finished requests as a multiset. */
  function FinalTags(cqes: seq<Cqe>): multiset<UserData> {
    if cqes == [] then multiset{}
    else (if cqes[0].more then multiset{} else multiset{cqes[0].tag}) + FinalTags(cqes[1..])
  }

  lemma {:induction false} FinalTagsCount(cqes: seq<Cqe>, u: UserData)
    ensures FinalTags(cqes)[u] == Finals(cqes, u)
  {
    if cqes != [] {
      FinalTagsCount(cqes[1..], u);
    }
  }

  /** All live requests. */
  function LiveRequests(s: System): multiset<UserData> {
    multiset(s.program.sq.unpublished) + multiset(s.program.sq.pending) + s.kernel + FinalTags(s.posted)
  }

  lemma LiveRequestsCount(s: System, u: UserData)
    ensures LiveRequests(s)[u] == Live(s, u)
  {
    FinalTagsCount(s.posted, u);
  }

  lemma SubsetSize<T>(a: multiset<T>, b: multiset<T>)
    requires a <= b
    ensures |a| <= |b|
  {
    assert b == a + (b - a);
  }

  lemma {:induction false} ReadEntriesCount(n: nat, u: UserData)
    requires n <= 0x1_0000
    ensures multiset(ReadEntries(n))[u] == if u.kind.Read? && u.slot < n then 1 else 0
  {
    if n > 0 {
      ReadEntriesCount(n - 1, u);
    }
  }

  lemma {:induction false} WriteEntriesCount(n: nat, u: UserData)
    requires n <= 0x1_0000
    ensures multiset(WriteEntries(n))[u] == if u.kind.Write? && u.slot < n then 1 else 0
  {
    if n > 0 {
      WriteEntriesCount(n - 1, u);
    }
  }

  lemma SetupEntriesCount(cfg: Config, u: UserData)
    requires cfg.Valid()
    ensures multiset(SetupEntries(cfg))[u]
            == match u.kind
               case Read => if u.slot < |cfg.queues| then 1 else 0
               case Write => if u.slot < cfg.ProbeCount() then 1 else 0
               case Timeout => if u.slot == 0 then 1 else 0
  {
    ReadEntriesCount(|cfg.queues|, u);
    WriteEntriesCount(cfg.ProbeCount(), u);
  }

  /** The live requests never outnumber the entries the ring was sized for. */
  lemma LiveFits(cfg: Config, s: System)
    requires cfg.Valid() && Conserved(cfg, s)
    requires forall k <- s.program.sending :: k < cfg.ProbeCount()
    ensures |LiveRequests(s)| <= cfg.RingSize()
  {
    var live, room := LiveRequests(s), multiset(SetupEntries(cfg));
    forall u ensures live[u] <= room[u] {
      LiveRequestsCount(s, u);
      SetupEntriesCount(cfg, u);
      assert Live(s, u) == if Owned(cfg, s, u) then 1 else 0;
    }
    SubsetSize(live, room);
  }

  lemma {:induction false} SendingIdentity(n: nat)
    requires n <= 0x1_0000
    ensures forall k :: k in Sending(n) <==> 0 <= k < n
    ensures forall k <- Sending(n) :: Sending(n)[k] == k
    ensures |Sending(n)| == n
  {
    if n > 0 {
      SendingIdentity(n - 1);
    }
  }

  // ----- every action keeps the invariant ---------------------------------

  lemma StartConserved(cfg: Config)
    requires cfg.Valid()
    ensures Conserved(cfg, Start(cfg))
  {
    hide SetupEntries;
    hide Table;
    SendingIdentity(cfg.ProbeCount());
    forall u ensures Live(Start(cfg), u) == if Owned(cfg, Start(cfg), u) then 1 else 0 {
      SetupEntriesCount(cfg, u);
    }
  }

  lemma InvStart(cfg: Config)
    requires cfg.Valid()
    ensures Inv(cfg, Start(cfg))
  {
    hide Conserved;
    hide Live;
    TableLength(cfg.firstHop, cfg.lastHop, cfg.count);
    SendingIdentity(cfg.ProbeCount());
    StartConserved(cfg);
  }

  lemma {:induction false} TableLength(firstHop: nat, lastHop: u8, count: u16)
    ensures |Table(firstHop, lastHop, count)| == (if firstHop <= lastHop then lastHop - firstHop + 1 else 0) * count
    decreases lastHop + 1 - firstHop
  {
    if firstHop <= lastHop {
      TableLength(firstHop + 1, lastHop, count);
    }
  }

  /** Conservation only depends on the counts and the owners. */
  lemma ConservedTransfers(cfg: Config, s: System, t: System)
    requires Conserved(cfg, s)
    requires forall u :: Live(t, u) == Live(s, u) && Owned(cfg, t, u) == Owned(cfg, s, u)
    ensures Conserved(cfg, t)
  {
    forall u ensures Live(t, u) == if Owned(cfg, t, u) then 1 else 0 {
      assert Live(s, u) == if Owned(cfg, s, u) then 1 else 0;
    }
  }

  lemma SubmitKeepsLive(cfg: Config, s: System, a: Action, u: UserData)
    requires a.Submit? && Enabled(s, a)
    ensures Live(Apply(cfg, s, a), u) == Live(s, u)
  {
    var pending := s.program.sq.pending;
    assert pending == pending[..a.consumed] + pending[a.consumed..];
  }

  lemma InvSubmit(cfg: Config, s: System, a: Action)
    requires Inv(cfg, s) && a.Submit? && Enabled(s, a)
    ensures Inv(cfg, Apply(cfg, s, a))
  {
    var t := Apply(cfg, s, a);
    forall u ensures Live(t, u) == Live(s, u) && Owned(cfg, t, u) == Owned(cfg, s, u) {
      SubmitKeepsLive(cfg, s, a, u);
    }
    ConservedTransfers(cfg, s, t);
    hide Conserved;
  }

  lemma PostKeepsLive(cfg: Config, s: System, c: Cqe, u: UserData)
    requires Enabled(s, Post(c))
    ensures Live(Apply(cfg, s, Post(c)), u) == Live(s, u)
  {
    FinalsAppend(s.posted, c, u);
  }

  /** A request the kernel owns has an owner in the program. */
  lemma KernelIsOwned(cfg: Config, s: System, u: UserData)
    requires Conserved(cfg, s) && u in s.kernel
    ensures Owned(cfg, s, u)
  {
    assert Live(s, u) > 0;
  }

  lemma InvPost(cfg: Config, s: System, c: Cqe)
    requires Inv(cfg, s) && Enabled(s, Post(c))
    ensures Inv(cfg, Apply(cfg, s, Post(c)))
  {
    var t := Apply(cfg, s, Post(c));
    forall u ensures Live(t, u) == Live(s, u) && Owned(cfg, t, u) == Owned(cfg, s, u) {
      PostKeepsLive(cfg, s, c, u);
    }
    ConservedTransfers(cfg, s, t);
    KernelIsOwned(cfg, s, c.tag);
    hide Conserved;
  }

  lemma InvSyncCompletions(cfg: Config, s: System)
    requires Inv(cfg, s) && Enabled(s, SyncCompletions)
    ensures Inv(cfg, Apply(cfg, s, SyncCompletions))
  {
    var t := Apply(cfg, s, SyncCompletions);
    assert forall u :: Live(t, u) == Live(s, u) && Owned(cfg, t, u) == Owned(cfg, s, u);
    ConservedTransfers(cfg, s, t);
    hide Conserved;
  }

  lemma InvSyncSubmissions(cfg: Config, s: System)
    requires Inv(cfg, s) && Enabled(s, SyncSubmissions)
    ensures Inv(cfg, Apply(cfg, s, SyncSubmissions))
  {
    var t := Apply(cfg, s, SyncSubmissions);
    assert forall u :: Live(t, u) == Live(s, u) && Owned(cfg, t, u) == Owned(cfg, s, u);
    ConservedTransfers(cfg, s, t);
    LiveFits(cfg, t);
    SubsetSize(multiset(t.program.sq.pending), LiveRequests(t));
    hide Conserved;
  }

  /** A finished request that is about to be handled still counts as live. */
  lemma HeadIsLive(cfg: Config, s: System)
    requires Conserved(cfg, s) && s.posted != [] && !s.posted[0].more
    ensures Owned(cfg, s, s.posted[0].tag)
  {
    assert Live(s, s.posted[0].tag) > 0;
  }

  /** What one turn does to the requests: a final read is queued again unless
      the queue rejects it, a write leaves the slab, and nothing else moves. */
  lemma NextRequests(queues: seq<ReplyQueue>, p: Program, c: Cqe, now: Instant)
    ensures var (verdict, q) := Next(queues, p, c, now);
            && |q.probes| == |p.probes|
            && (verdict.Panicked? <==>
                  match c.tag.kind
                  case Write => c.tag.slot !in p.sending || (c.result >= 0 && p.sending[c.tag.slot] >= |p.probes|)
                  case Read => c.tag.slot >= |queues| || (c.result >= 0 && (c.result == 0 || c.message.None?))
                  case Timeout => false)
            && (!verdict.Panicked? && c.tag.kind.Write? ==> q.sending == p.sending - {c.tag.slot})
            && (!c.tag.kind.Write? ==> q.sending == p.sending)
            && (!verdict.Panicked? ==>
                  (verdict.Rejected? <==> c.tag.kind.Read? && !c.more && p.sq.Occupied() >= p.sq.capacity))
            && (!verdict.Panicked? && !verdict.Rejected? ==>
                  q.sq == if c.tag.kind.Read? && !c.more then p.sq.(unpublished := p.sq.unpublished + [c.tag])
                          else p.sq)
            && (verdict.Rejected? ==> q.sq == p.sq)
            && (verdict == Finished(true) <==> c.tag.kind.Timeout?)
  {
    hide Record;
    hide AnswerIn;
  }

  lemma LiveAfterHandle(cfg: Config, s: System, now: Instant, u: UserData)
    requires Enabled(s, Handle(now)) && (s.posted[0].more ==> s.posted[0].tag.kind.Read?)
    requires var t := Apply(cfg, s, Handle(now)); t.phase != Failed(true) && t.phase != Crashed
    ensures Live(Apply(cfg, s, Handle(now)), u)
            == Live(s, u) - if !s.posted[0].tag.kind.Read? && s.posted[0].tag == u then 1 else 0
  {
    NextRequests(cfg.queues, s.program, s.posted[0], now);
    hide Next;
    var sq, sq' := s.program.sq, Apply(cfg, s, Handle(now)).program.sq;
    var again := s.posted[0].tag.kind.Read? && !s.posted[0].more;
    assert sq' == if again then sq.(unpublished := sq.unpublished + [s.posted[0].tag]) else sq;
    assert multiset(sq'.unpublished)[u]
           == multiset(sq.unpublished)[u] + if again && s.posted[0].tag == u then 1 else 0;
  }

  /** Handling a completion takes away exactly the owner of a finished write or timeout. */
  lemma OwnedAfterHandle(cfg: Config, s: System, now: Instant, u: UserData)
    requires Enabled(s, Handle(now)) && Apply(cfg, s, Handle(now)).phase != Crashed
    requires s.posted[0].more ==> s.posted[0].tag.kind.Read?
    requires s.posted[0].tag.kind.Timeout? ==> s.posted[0].tag.slot == 0
    ensures Owned(cfg, Apply(cfg, s, Handle(now)), u)
            <==> Owned(cfg, s, u) && (s.posted[0].tag.kind.Read? || u != s.posted[0].tag)
  {
    NextRequests(cfg.queues, s.program, s.posted[0], now);
    hide Next;
  }

  lemma ConservedAfterHandle(cfg: Config, s: System, now: Instant)
    requires Inv(cfg, s) && Enabled(s, Handle(now)) && WellTagged(cfg, s.posted[0])
    requires var t := Apply(cfg, s, Handle(now)); t.phase != Failed(true) && t.phase != Crashed
    ensures Conserved(cfg, Apply(cfg, s, Handle(now)))
  {
    var t := Apply(cfg, s, Handle(now));
    if !s.posted[0].more {
      HeadIsLive(cfg, s);
    }
    forall u ensures Live(t, u) == if Owned(cfg, t, u) then 1 else 0 {
      LiveAfterHandle(cfg, s, now, u);
      OwnedAfterHandle(cfg, s, now, u);
      assert Live(s, u) == if Owned(cfg, s, u) then 1 else 0;
      hide *;
    }
  }

  lemma InvHandle(cfg: Config, s: System, now: Instant)
    requires Inv(cfg, s) && Enabled(s, Handle(now))
    ensures Inv(cfg, Apply(cfg, s, Handle(now)))
  {
    var c, t := s.posted[0], Apply(cfg, s, Handle(now));
    NextRequests(cfg.queues, s.program, c, now);
    if !c.more {
      HeadIsLive(cfg, s);
    }
    assert c in s.posted && WellTagged(cfg, c);
    hide Next;
    hide Live;
    assert t.phase != Crashed;
    if t.phase != Failed(true) {
      ConservedAfterHandle(cfg, s, now);
    }
    hide Conserved;
  }

  lemma InvStep(cfg: Config, s: System, a: Action)
    requires Inv(cfg, s) && Enabled(s, a)
    ensures Inv(cfg, Apply(cfg, s, a))
  {
    match a
    case Submit(_, _) => InvSubmit(cfg, s, a);
    case Post(c) => InvPost(cfg, s, c);
    case SyncCompletions => InvSyncCompletions(cfg, s);
    case Handle(now) => InvHandle(cfg, s, now);
    case SyncSubmissions => InvSyncSubmissions(cfg, s);
  }

  lemma {:induction false} InvExec(cfg: Config, s: System, actions: seq<Action>)
    requires Inv(cfg, s) && Exec(cfg, s, actions).Some?
    ensures Inv(cfg, Exec(cfg, s, actions).value)
    decreases |actions|
  {
    if actions != [] {
      InvStep(cfg, s, actions[0]);
      InvExec(cfg, Apply(cfg, s, actions[0]), actions[1..]);
    }
  }

  lemma ReachableInv(cfg: Config, s: System)
    requires Reachable(cfg, s)
    ensures Inv(cfg, s)
  {
    InvStart(cfg);
    var actions :| Exec(cfg, Start(cfg), actions) == Some(s);
    InvExec(cfg, Start(cfg), actions);
  }

  // ----- what holds in every reachable state ------------------------------

  /** The write tags of a set of slots. */
  lemma {:induction false} WriteTags(slots: set<nat>) returns (tags: multiset<UserData>)
    requires forall k <- slots :: k < 0x1_0000
    ensures |tags| == |slots|
    ensures forall u :: tags[u] == if u.kind.Write? && u.slot in slots then 1 else 0
  {
    if slots == {} {
      tags := multiset{};
    } else {
      var k :| k in slots;
      var rest := WriteTags(slots - {k});
      tags := rest + multiset{UserData(k, Write)};
    }
  }

  /** Request conservation: each owner has exactly one live request, nothing else
      is live, and so the unconsumed submissions always fit the ring. The one
      exception is a run that has already failed on a rejected re-arm. */
  lemma RequestsConserved(cfg: Config, s: System)
    requires Reachable(cfg, s) && s.phase != Failed(true)
    ensures forall u :: LiveRequests(s)[u] == if Owned(cfg, s, u) then 1 else 0
    ensures |LiveRequests(s)| == |cfg.queues| + |s.program.sending| + (if s.phase == Returned(true) then 0 else 1)
    ensures |s.program.sq.pending| + |s.program.sq.unpublished| <= |LiveRequests(s)| <= cfg.RingSize()
  {
    ReachableInv(cfg, s);
    LiveFits(cfg, s);
    var live := LiveRequests(s);
    forall u ensures live[u] == if Owned(cfg, s, u) then 1 else 0 {
      LiveRequestsCount(s, u);
      assert Live(s, u) == if Owned(cfg, s, u) then 1 else 0;
    }
    var writeTags := WriteTags(s.program.sending.Keys);
    var timeout := if s.phase == Returned(true) then multiset{} else multiset{TIMEOUT_ENTRY};
    var readTags := multiset(ReadEntries(|cfg.queues|));
    AllAccounted(cfg, s, live, readTags, writeTags, timeout);
    SubsetSize(multiset(s.program.sq.unpublished) + multiset(s.program.sq.pending), live);
  }

  lemma AllAccounted(cfg: Config, s: System, live: multiset<UserData>, readTags: multiset<UserData>,
                     writeTags: multiset<UserData>, timeout: multiset<UserData>)
    requires |cfg.queues| <= 0x1_0000 && readTags == multiset(ReadEntries(|cfg.queues|))
    requires forall u :: live[u] == if Owned(cfg, s, u) then 1 else 0
    requires forall u :: writeTags[u] == if u.kind.Write? && u.slot in s.program.sending.Keys then 1 else 0
    requires timeout == if s.phase == Returned(true) then multiset{} else multiset{TIMEOUT_ENTRY}
    ensures live == readTags + writeTags + timeout
  {
    forall u ensures live[u] == (readTags + writeTags + timeout)[u] {
      ReadEntriesCount(|cfg.queues|, u);
    }
  }

  /** No reachable state has indexed the slab, the table or the readers out of
      range, or found a successful read without a message. */
  lemma NeverCrashes(cfg: Config, s: System)
    requires Reachable(cfg, s)
    ensures s.phase != Crashed
  {
    ReachableInv(cfg, s);
  }

  // ----- when a re-arm fits -----------------------------------------------

  /** With room for every reader's re-arm beside the first batch, none is rejected. */
  lemma ReArmFits(cfg: Config, s: System, now: Instant)
    requires Inv(cfg, s) && Enabled(s, Handle(now))
    requires cfg.RingSize() + |cfg.queues| <= cfg.capacity
    ensures Apply(cfg, s, Handle(now)).phase != Failed(true)
  {
    var c, unpublished := s.posted[0], s.program.sq.unpublished;
    NextRequests(cfg.queues, s.program, c, now);
    if c.tag.kind.Read? && !c.more {
      var queued, readers := multiset(unpublished) + multiset{c.tag}, multiset(ReadEntries(|cfg.queues|));
      forall u ensures queued[u] <= readers[u] {
        ReadEntriesCount(|cfg.queues|, u);
        assert Live(s, u) == if Owned(cfg, s, u) then 1 else 0;
        if queued[u] > 0 && u != c.tag {
          assert u in unpublished;
        }
      }
      SubsetSize(queued, readers);
    }
    hide Next;
  }

  lemma {:induction false} ExecNeverRejects(cfg: Config, s: System, actions: seq<Action>)
    requires Inv(cfg, s) && s.phase != Failed(true) && Exec(cfg, s, actions).Some?
    requires cfg.RingSize() + |cfg.queues| <= cfg.capacity
    ensures Exec(cfg, s, actions).value.phase != Failed(true)
    decreases |actions|
  {
    if actions != [] {
      InvStep(cfg, s, actions[0]);
      if actions[0].Handle? {
        ReArmFits(cfg, s, actions[0].now);
      }
      ExecNeverRejects(cfg, Apply(cfg, s, actions[0]), actions[1..]);
    }
  }

  lemma {:induction false} ExecAppend(cfg: Config, s: System, actions: seq<Action>, a: Action)
    requires Exec(cfg, s, actions).Some? && Enabled(Exec(cfg, s, actions).value, a)
    ensures Exec(cfg, s, actions + [a]) == Some(Apply(cfg, Exec(cfg, s, actions).value, a))
    decreases |actions|
  {
    if actions == [] {
      assert ([] + [a])[1..] == [];
    } else {
      assert (actions + [a])[1..] == actions[1..] + [a];
      ExecAppend(cfg, Apply(cfg, s, actions[0]), actions[1..], a);
    }
  }

  lemma ReachableStep(cfg: Config, s: System, a: Action)
    requires Reachable(cfg, s) && Enabled(s, a)
    ensures Reachable(cfg, Apply(cfg, s, a))
  {
    var actions :| Exec(cfg, Start(cfg), actions) == Some(s);
    ExecAppend(cfg, Start(cfg), actions, a);
  }

  lemma ReachableStart(cfg: Config)
    requires cfg.Valid()
    ensures Reachable(cfg, Start(cfg))
  {
    assert Exec(cfg, Start(cfg), []) == Some(Start(cfg));
  }

  /** A final, failed completion of each of the first `n` readers. */
  function FailedReads(n: nat): (cqes: seq<Cqe>)
    requires n <= 0x1_0000
    ensures |cqes| == n
    ensures forall i :: 0 <= i < n ==> cqes[i] == Cqe(UserData(i, Read), -1, false, None)
  {
    if n == 0 then [] else FailedReads(n - 1) + [Cqe(UserData(n - 1, Read), -1, false, None)]
  }

  /** Before any completion there is nothing to stop for. */
  lemma SetupIncomplete(cfg: Config)
    requires cfg.Valid()
    ensures !Setup(cfg).Complete()
  {
    SendingIdentity(cfg.ProbeCount());
    TableLength(cfg.firstHop, cfg.lastHop, cfg.count);
    if cfg.ProbeCount() > 0 {
      assert 0 in Sending(cfg.ProbeCount());
    }
  }

  lemma {:induction false} FailedReadsFinals(n: nat, u: UserData)
    requires n <= 0x1_0000
    ensures Finals(FailedReads(n), u) == if u.kind.Read? && u.slot < n then 1 else 0
  {
    if n > 0 {
      FailedReadsFinals(n - 1, u);
      FinalsAppend(FailedReads(n - 1), Cqe(UserData(n - 1, Read), -1, false, None), u);
    }
  }

  /** The first batch, all consumed by the kernel, with `n` readers already failed. */
  lemma {:induction false} FirstBatchFails(cfg: Config, n: nat) returns (s: System)
    requires cfg.Valid() && n <= |cfg.queues|
    ensures Reachable(cfg, s) && s.phase == Waiting && s.visible == 0 && s.posted == FailedReads(n)
    ensures s.program == Setup(cfg).(sq := SubmissionQueue(cfg.capacity, cfg.RingSize(), [], []))
  {
    if n == 0 {
      ReachableStart(cfg);
      var a := Submit(Accepted, cfg.RingSize());
      s := Apply(cfg, Start(cfg), a);
      ReachableStep(cfg, Start(cfg), a);
    } else {
      var before := FirstBatchFails(cfg, n - 1);
      var c := Cqe(UserData(n - 1, Read), -1, false, None);
      ReachableInv(cfg, before);
      assert Live(before, c.tag) == 1;
      FailedReadsFinals(n - 1, c.tag);
      s := Apply(cfg, before, Post(c));
      ReachableStep(cfg, before, Post(c));
    }
  }

  /** As many of those failures handled as the stale view has room for. */
  lemma {:induction false} ReArmsPileUp(cfg: Config, n: nat) returns (s: System)
    requires cfg.Valid() && n <= |cfg.queues| && cfg.RingSize() + n <= cfg.capacity
    ensures Reachable(cfg, s) && s.phase == Draining && s.posted == FailedReads(|cfg.queues|)[n..]
    ensures s.visible == |cfg.queues| - n
    ensures s.program == Setup(cfg).(sq := SubmissionQueue(cfg.capacity, cfg.RingSize(), [], ReadEntries(n)))
  {
    if n == 0 {
      var before := FirstBatchFails(cfg, |cfg.queues|);
      s := Apply(cfg, before, SyncCompletions);
      ReachableStep(cfg, before, SyncCompletions);
    } else {
      var before := ReArmsPileUp(cfg, n - 1);
      SetupIncomplete(cfg);
      s := Apply(cfg, before, Handle(0));
      ReachableStep(cfg, before, Handle(0));
    }
  }

  /** The re-arm push is never rejected, in any run, exactly when the queue can
      hold the first batch and one more entry per reader: until the program
      looks again, entries the kernel has consumed still count as occupied. */
  lemma ReArmNeverRejectedIff(cfg: Config)
    requires cfg.Valid()
    ensures (forall s :: Reachable(cfg, s) ==> s.phase != Failed(true))
            <==> cfg.RingSize() + |cfg.queues| <= cfg.capacity
  {
    if cfg.RingSize() + |cfg.queues| <= cfg.capacity {
      forall s | Reachable(cfg, s) ensures s.phase != Failed(true) {
        var actions :| Exec(cfg, Start(cfg), actions) == Some(s);
        InvStart(cfg);
        ExecNeverRejects(cfg, Start(cfg), actions);
      }
    } else {
      var s := ReArmsPileUp(cfg, cfg.capacity - cfg.RingSize());
      ReachableStep(cfg, s, Handle(0));
      assert Apply(cfg, s, Handle(0)).phase == Failed(true);
    }
  }
}

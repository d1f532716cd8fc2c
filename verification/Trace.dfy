/** The trace as a machine over completions, after src/trace.rs. The program's
    part is `Next`; the kernel's part is `Apply`, one action at a time. */
module Trace {
  import opened Prelude
  import opened IcmpErrors
  import opened Net
  import opened Methods
  import opened Ring

  /** A clock reading, opaque but for the elapsed time between two of them. */
  type Instant = int

  function Elapsed(since: Instant, now: Instant): (d: nat) {
    if since <= now then now - since else 0
  }

  datatype ProbeResult = ProbeResult(source: Option<IpAddr>, rtt: nat, kind: ReplyKind)

  datatype Probe = Probe(ttl: u8, sentAt: Option<Instant>, result: Option<ProbeResult>)

  /** One multishot read's result, split as the kernel lays it out. */
  datatype Message = Message(truncated: bool, name: bytes, control: slice, payload: bytes)

  /** A completion: its tag, result, MORE flag and, for a read that filled a
      buffer, the message in that buffer. */
  datatype Cqe = Cqe(tag: UserData, result: int, more: bool, message: Option<Message>)

  // ----- reading ----------------------------------------------------------

  /** The reply a message amounts to, unless it is to be dropped. */
  function ReplyIn(queue: ReplyQueue, message: Message): Option<Reply> {
    if !queue.errQueue then
      Some(Reply(ParseSockaddr(message.name), None, message.payload, None))
    else if message.truncated then None
    else
      var extended := ParseIpRecverr(message.control);
      if extended.None? then None
      else Some(Reply(ParseSockaddr(extended.value.sourceBytes), ParseSockaddr(message.name),
                      message.payload, Some(extended.value.error)))
  }

  /** What an accepted reply says: which probe it answers, who sent it, what it means. */
  datatype Answer = Answer(probe: ProbeId, source: Option<IpAddr>, kind: ReplyKind)

  function AnswerIn(queue: ReplyQueue, message: Message): Option<Answer> {
    var reply := ReplyIn(queue, message);
    if reply.None? then None
    else
      var id := queue.replies.Identify(reply.value);
      if id.None? then None
      else Some(Answer(id.value,
                       if reply.value.source.None? then None else Some(reply.value.source.value.Ip()),
                       queue.replies.Classify(reply.value)))
  }

  /** The table after a reply: only the answered probe changes, and only if it
      was sent and has no result yet. */
  function Record(probes: seq<Probe>, answer: Option<Answer>, now: Instant): (r: seq<Probe>)
    ensures |r| == |probes|
  {
    if answer.None? || answer.value.probe >= |probes| then probes
    else
      var probe := probes[answer.value.probe];
      if probe.result.Some? || probe.sentAt.None? then probes
      else probes[answer.value.probe := probe.(result :=
                    Some(ProbeResult(answer.value.source, Elapsed(probe.sentAt.value, now), answer.value.kind)))]
  }

  // ----- the stop condition -----------------------------------------------

  /** The length of the first run of equal TTLs. */
  function RunLength(probes: seq<Probe>): (n: nat)
    requires probes != []
    ensures 1 <= n <= |probes|
  {
    if |probes| == 1 || probes[0].ttl != probes[1].ttl then 1 else 1 + RunLength(probes[1..])
  }

  /** `chunk_by` on equal TTLs. */
  function Hops(probes: seq<Probe>): seq<seq<Probe>> {
    if probes == [] then []
    else
      var n := RunLength(probes);
      [probes[..n]] + Hops(probes[n..])
  }

  predicate Answered(hop: seq<Probe>) {
    exists p <- hop :: p.result.Some?
  }

  predicate Reached(hop: seq<Probe>) {
    exists p <- hop :: p.result.Some? && p.result.value.kind.TerminatesTrace()
  }

  function TakeAnswered(hops: seq<seq<Probe>>): seq<seq<Probe>> {
    if hops == [] || !Answered(hops[0]) then [] else [hops[0]] + TakeAnswered(hops[1..])
  }

  function Flatten(hops: seq<seq<Probe>>): seq<Probe> {
    if hops == [] then [] else hops[0] + Flatten(hops[1..])
  }

  /** chunk_by, take_while, flatten, filter_map, any. */
  predicate ReachedInOrder(probes: seq<Probe>) {
    Reached(Flatten(TakeAnswered(Hops(probes))))
  }

  // ----- the program ------------------------------------------------------

  datatype Program = Program(probes: seq<Probe>, sending: map<nat, ProbeId>, sq: SubmissionQueue)
  {
    /** Nothing is left to send and the target answered behind answered hops. */
    predicate Complete() {
      sending == map[] && ReachedInOrder(probes)
    }
  }

  /** How handling one completion ends. `Rejected` is the error return of a
      re-arm that found the queue full, `Panicked` any out-of-range access. */
  datatype Verdict = Continue | Finished(timedOut: bool) | Rejected | Panicked

  /** One turn of the loop over completions. */
  function Next(queues: seq<ReplyQueue>, p: Program, c: Cqe, now: Instant): (Verdict, Program) {
    match c.tag.kind
    case Timeout => (Finished(true), p)
    case Write =>
      if c.tag.slot !in p.sending then (Panicked, p)
      else
        var id := p.sending[c.tag.slot];
        if c.result >= 0 && id >= |p.probes| then (Panicked, p)
        else
          var q := p.(
            sending := p.sending - {c.tag.slot},
            probes := if c.result >= 0 then p.probes[id := p.probes[id].(sentAt := Some(now))] else p.probes);
          (if q.Complete() then Finished(false) else Continue, q)
    case Read =>
      if c.tag.slot >= |queues| then (Panicked, p)
      else if c.result >= 0 && (c.result == 0 || c.message.None?) then (Panicked, p)
      else
        var q := if c.result < 0 then p
                 else p.(probes := Record(p.probes, AnswerIn(queues[c.tag.slot], c.message.value), now));
        if c.more then (if q.Complete() then Finished(false) else Continue, q)
        else
          var sq := q.sq.Push(c.tag);
          if sq.None? then (Rejected, q)
          else (if q.Complete() then Finished(false) else Continue, q.(sq := sq.value))
  }

  // ----- setup ------------------------------------------------------------

  datatype Config = Config(queues: seq<ReplyQueue>, firstHop: u8, lastHop: u8, count: u16, capacity: nat)
  {
    function HopCount(): nat {
      if firstHop <= lastHop then lastHop - firstHop + 1 else 0
    }

    function ProbeCount(): nat {
      HopCount() * count
    }

    /** One send per probe, one read per reader, and the timeout. */
    function RingSize(): nat {
      |queues| + ProbeCount() + 1
    }

    /** What the checked conversions and the ring's own sizing leave possible. */
    predicate Valid() {
      ProbeCount() < 0x1_0000 && |queues| <= 0x1_0000 && RingSize() <= capacity
    }
  }

  /** `count` probes for each TTL of the range, in order. */
  function Table(firstHop: nat, lastHop: u8, count: u16): (probes: seq<Probe>)
    decreases lastHop + 1 - firstHop
  {
    if firstHop > lastHop then []
    else seq(count, _ => Probe(firstHop, None, None)) + Table(firstHop + 1, lastHop, count)
  }

  function ReadEntries(n: nat): (entries: seq<UserData>)
    requires n <= 0x1_0000
    ensures |entries| == n
  {
    if n == 0 then [] else ReadEntries(n - 1) + [UserData(n - 1, Read)]
  }

  function WriteEntries(n: nat): (entries: seq<UserData>)
    requires n <= 0x1_0000
    ensures |entries| == n
  {
    if n == 0 then [] else WriteEntries(n - 1) + [UserData(n - 1, Write)]
  }

  const TIMEOUT_ENTRY: UserData := UserData(0, Timeout)

  function SetupEntries(cfg: Config): (entries: seq<UserData>)
    requires cfg.Valid()
    ensures |entries| == cfg.RingSize()
  {
    ReadEntries(|cfg.queues|) + WriteEntries(cfg.ProbeCount()) + [TIMEOUT_ENTRY]
  }

  /** The slab after the setup: every probe under the slot of its own index. */
  function Sending(n: nat): map<nat, ProbeId>
    requires n <= 0x1_0000
  {
    if n == 0 then map[] else Sending(n - 1)[n - 1 := n - 1]
  }

  /** The program when it first submits. */
  function Setup(cfg: Config): Program
    requires cfg.Valid()
  {
    Program(Table(cfg.firstHop, cfg.lastHop, cfg.count), Sending(cfg.ProbeCount()),
            SubmissionQueue(cfg.capacity, 0, SetupEntries(cfg), []))
  }

  // ----- the program and the kernel together ------------------------------

  datatype Phase =
    | Submitting
    | Waiting
    | Draining
    | Returned(timedOut: bool)
    | Failed(rejected: bool)
    | Crashed

  /** A completion as it was handled. */
  datatype Event = Event(cqe: Cqe, now: Instant)

  /** `kernel` is what the kernel owns, `posted` the completions not yet handled,
      of which the program sees the first `visible`; `history` is all it handled. */
  datatype System = System(
    phase: Phase,
    program: Program,
    kernel: multiset<UserData>,
    posted: seq<Cqe>,
    visible: nat,
    history: seq<Event>)
  {
    predicate Running() {
      phase.Submitting? || phase.Waiting? || phase.Draining?
    }
  }

  datatype SubmitOutcome = Accepted | Busy | Fatal

  /** One step of the whole. Submitting hands over any number of entries,
      whether it succeeds or fails with EBUSY; completions may be posted at any
      moment; the rest is the program's own loop. */
  datatype Action =
    | Submit(outcome: SubmitOutcome, consumed: nat)
    | Post(cqe: Cqe)
    | SyncCompletions
    | Handle(now: Instant)
    | SyncSubmissions

  /** What the kernel may complete: a request it owns, finally unless it is a
      read, and with a non-empty message if the read succeeded. */
  predicate Postable(kernel: multiset<UserData>, c: Cqe) {
    && c.tag in kernel
    && (c.more ==> c.tag.kind.Read?)
    && (c.tag.kind.Read? && c.result >= 0 ==> c.result > 0 && c.message.Some?)
  }

  predicate Enabled(s: System, a: Action) {
    match a
    case Submit(_, consumed) => s.phase.Submitting? && consumed <= |s.program.sq.pending|
    case Post(c) => s.Running() && Postable(s.kernel, c)
    case SyncCompletions => s.phase.Waiting?
    case Handle(_) => s.phase.Draining? && s.visible > 0 && s.posted != []
    case SyncSubmissions => s.phase.Draining? && s.visible == 0
  }

  function PhaseAfter(v: Verdict): Phase {
    match v
    case Continue => Draining
    case Finished(timedOut) => Returned(timedOut)
    case Rejected => Failed(true)
    case Panicked => Crashed
  }

  function Apply(cfg: Config, s: System, a: Action): System
    requires Enabled(s, a)
  {
    match a
    case Submit(outcome, consumed) =>
      s.(phase := if outcome.Fatal? then Failed(false) else Waiting,
         program := s.program.(sq := s.program.sq.Consume(consumed)),
         kernel := s.kernel + multiset(s.program.sq.pending[..consumed]))
    case Post(c) =>
      s.(posted := s.posted + [c], kernel := if c.more then s.kernel else s.kernel - multiset{c.tag})
    case SyncCompletions => s.(phase := Draining, visible := |s.posted|)
    case Handle(now) =>
      var (verdict, program) := Next(cfg.queues, s.program, s.posted[0], now);
      s.(phase := PhaseAfter(verdict), program := program, posted := s.posted[1..], visible := s.visible - 1,
         history := s.history + [Event(s.posted[0], now)])
    case SyncSubmissions => s.(phase := Submitting, program := s.program.(sq := s.program.sq.Sync()))
  }

  function Start(cfg: Config): System
    requires cfg.Valid()
  {
    System(Submitting, Setup(cfg), multiset{}, [], 0, [])
  }

  /** Where a sequence of actions leads, if each is enabled in turn. */
  function Exec(cfg: Config, s: System, actions: seq<Action>): Option<System>
    decreases |actions|
  {
    if actions == [] then Some(s)
    else if !Enabled(s, actions[0]) then None
    else Exec(cfg, Apply(cfg, s, actions[0]), actions[1..])
  }

  ghost predicate Reachable(cfg: Config, s: System) {
    cfg.Valid() && exists actions :: Exec(cfg, Start(cfg), actions) == Some(s)
  }
}

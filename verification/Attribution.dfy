/** Whole-run attribution: if what is taken for a reply was caused by a probe of
    the run, results belong to the probes that caused them. */
module Attribution {
  import opened Prelude
  import opened IcmpErrors
  import opened Net
  import opened Methods
  import opened Trace
  import opened StopRule
  import opened History
  import C = Conservation
  import Runs

  // ----- what the network does to a probe ---------------------------------

  /** `name` holds an address with the host and port of `a`. */
  ghost predicate NamesPeer(name: bytes, a: SockAddr) {
    exists b :: HoldsSockaddr(name, b) && b.Ip() == a.Ip() && b.port == a.port
  }

  ghost predicate FromTarget(name: bytes, target: IpAddr) {
    exists a :: HoldsSockaddr(name, a) && a.Ip() == target
  }

  /** The message is a reply to probe `j`: on the error queue a quotation of at
      least its first eight bytes, or for UDP its destination; on the receive
      queue the target's echo of it, a datagram from where it was sent, or a
      segment that answers it. */
  ghost predicate CausedBy(m: Method, errQueue: bool, message: Message, j: ProbeId) {
    match m
    case Icmp(target, payloadLen) =>
      if errQueue then
        exists wire :: OnWire(IcmpPacket(target, payloadLen, j), wire) && wire[..8] <= message.payload
      else exists wire, checksum :: Echoes(m, j, wire, checksum, message.payload)
    case Udp(_, _) => NamesPeer(message.name, SentTo(m, j))
    case Tcp(target, sourcePort) =>
      if errQueue then
        exists checksum, options ::
          |options| == TCP_SYN_OPTIONS_LEN && TcpPacket(sourcePort, j, checksum, options)[..8] <= message.payload
      else
        && FromTarget(message.name, target)
        && exists source, timestamp, segment :: Acknowledging(m, j, source, timestamp, segment, message.payload)
  }

  /** `payload` starts as the target's echo of probe `j` does. */
  ghost predicate Echoes(m: Method, j: ProbeId, wire: bytes, checksum: u16, payload: bytes)
    requires m.Icmp?
  {
    && OnWire(IcmpPacket(m.target, m.payloadLen, j), wire)
    && Echo(m.target, wire, checksum).Some?
    && Echo(m.target, wire, checksum).value[..8] <= payload
  }

  /** `payload` is what a raw socket reads of a segment that answers probe `j`. */
  ghost predicate Acknowledging(m: Method, j: ProbeId, source: IpAddr, timestamp: u32, segment: bytes, payload: bytes)
    requires m.Tcp?
  {
    && source.IpV4? == m.target.IpV4?
    && AnswersSyn(Syn(source, m.sourcePort, m.target, j, timestamp), segment)
    && HoldsSegment(m.target, payload, segment)
  }

  /** No probe is without effect: the target echoes every echo request, whatever
      the kernel filled in, and what it sends back is a reply to that probe. */
  lemma TargetEchoesProbe(m: Method, j: ProbeId, wire: bytes, checksum: u16, message: Message)
    requires m.Icmp? && OnWire(IcmpPacket(m.target, m.payloadLen, j), wire)
    ensures Echo(m.target, wire, checksum).Some?
    ensures message.payload == Echo(m.target, wire, checksum).value ==> CausedBy(m, false, message, j)
  {
    EchoNamesProbe(m.target, m.payloadLen, j, wire, checksum);
    hide Echo;
    hide OnWire;
    if message.payload == Echo(m.target, wire, checksum).value {
      assert Echoes(m, j, wire, checksum, message.payload);
    }
  }

  /** Likewise the target accepts every SYN, and any segment that answers it is a
      reply to that probe. */
  lemma TargetAcceptsProbe(m: Method, j: ProbeId, source: IpAddr, timestamp: u32, segment: bytes, message: Message)
    requires m.Tcp? && source.IpV4? == m.target.IpV4?
    ensures AcceptsSyn(source, m.target, Syn(source, m.sourcePort, m.target, j, timestamp))
    ensures && AnswersSyn(Syn(source, m.sourcePort, m.target, j, timestamp), segment)
            && HoldsSegment(m.target, message.payload, segment) && FromTarget(message.name, m.target)
            ==> CausedBy(m, false, message, j)
  {
    SynIsAnswered(source, m.sourcePort, m.target, j, timestamp);
    hide FromTarget;
    hide Syn;
    hide AcceptsSyn;
    hide AnswersSyn;
    hide HoldsSegment;
    hide CausedBy;
    hide Acknowledged;
    if AnswersSyn(Syn(source, m.sourcePort, m.target, j, timestamp), segment)
       && HoldsSegment(m.target, message.payload, segment) && FromTarget(message.name, m.target) {
      AcknowledgingIsCause(m, j, source, timestamp, segment, message);
    }
  }

  lemma AcknowledgingIsCause(
    m: Method, j: ProbeId, source: IpAddr, timestamp: u32, segment: bytes, message: Message)
    requires m.Tcp? && Acknowledging(m, j, source, timestamp, segment, message.payload)
    requires FromTarget(message.name, m.target)
    ensures CausedBy(m, false, message, j)
  {
    hide Acknowledging;
    hide FromTarget;
  }

  // ----- the identity each method recovers --------------------------------

  lemma IcmpIdentity(m: Method, errQueue: bool, message: Message, j: ProbeId)
    requires m.Icmp? && CausedBy(m, errQueue, message, j)
    ensures Sequence(message.payload) == Some(j)
  {
    IcmpPacketSequence(m.target, m.payloadLen, j);
    var packet := IcmpPacket(m.target, m.payloadLen, j);
    if errQueue {
      var wire :| OnWire(packet, wire) && wire[..8] <= message.payload;
      assert message.payload[..8] == wire[..8];
      assert message.payload[6..8] == message.payload[..8][6..8] == wire[6..8] == packet[6..8];
    } else {
      var wire, checksum :| Echoes(m, j, wire, checksum, message.payload);
      EchoNamesProbe(m.target, m.payloadLen, j, wire, checksum);
      var echo := Echo(m.target, wire, checksum).value;
      SequenceExact(echo, j);
      assert message.payload[6..8] == message.payload[..8][6..8] == echo[..8][6..8] == echo[6..8];
    }
    SequenceExact(message.payload, j);
  }

  lemma UdpIdentity(m: Method, errQueue: bool, message: Message, j: ProbeId)
    requires m.Udp? && CausedBy(m, errQueue, message, j)
    ensures ParseSockaddr(message.name).Some?
    ensures ParseSockaddr(message.name).value.Ip() == m.target
    ensures ParseSockaddr(message.name).value.port == UdpPort(j)
  {
    var to := SentTo(m, j);
    var a :| HoldsSockaddr(message.name, a) && a.Ip() == to.Ip() && a.port == to.port;
    SockaddrParsesExactlyItsLayout(message.name, a);
  }

  lemma TcpIdentity(m: Method, errQueue: bool, message: Message, j: ProbeId)
    requires m.Tcp? && CausedBy(m, errQueue, message, j)
    ensures errQueue ==> QuotedSequence(m.sourcePort, message.payload) == Some(j)
    ensures !errQueue ==> Acknowledged(m.target, m.sourcePort, message.payload) == Some(j)
    ensures !errQueue ==> ParseSockaddr(message.name).Some? && ParseSockaddr(message.name).value.Ip() == m.target
  {
    if errQueue {
      var checksum, options :|
        |options| == TCP_SYN_OPTIONS_LEN && TcpPacket(m.sourcePort, j, checksum, options)[..8] <= message.payload;
      TcpPacketHead(m.sourcePort, j, checksum, options, message.payload);
    } else {
      var source, timestamp, segment :| Acknowledging(m, j, source, timestamp, segment, message.payload);
      SynIsAnswered(source, m.sourcePort, m.target, j, timestamp);
      var a :| HoldsSockaddr(message.name, a) && a.Ip() == m.target;
      SockaddrParsesExactlyItsLayout(message.name, a);
    }
  }

  /** The probes a method can tell apart in what comes back. */
  predicate Identifiable(m: Method, j: ProbeId) {
    m.Udp? ==> j <= LAST_UDP_ID
  }

  /** A reply caused by probe `j` is taken for `j` if it is taken for any probe,
      and every reply the queue accepts is, for each identifiable probe. */
  lemma ReplyNamesItsCause(m: Method, queue: ReplyQueue, message: Message, j: ProbeId)
    requires queue in Open(m) && CausedBy(m, queue.errQueue, message, j) && j < 0xffff
    ensures AnswerIn(queue, message).Some? ==> AnswerIn(queue, message).value.probe == j
    ensures ReplyIn(queue, message).Some? && Identifiable(m, j) ==> AnswerIn(queue, message).Some?
  {
    hide CausedBy;
    hide ParseIpRecverr;
    hide ParseSockaddr;
    hide Sequence;
    hide QuotedSequence;
    hide Acknowledged;
    match m
    case Icmp(_, _) => IcmpIdentity(m, queue.errQueue, message, j);
    case Udp(_, _) =>
      UdpIdentity(m, queue.errQueue, message, j);
      UdpPortCodec(j);
    case Tcp(_, _) => TcpIdentity(m, queue.errQueue, message, j);
  }

  // ----- exactly which messages are answers -------------------------------

  /** The address in `bytes` is `source`, or there is none and `source` is absent. */
  ghost predicate HoldsSource(bs: bytes, source: Option<IpAddr>) {
    if source.Some? then FromTarget(bs, source.value) else forall a :: !HoldsSockaddr(bs, a)
  }

  /** `data` is the kernel's report of an ICMP error of this kind by this host. */
  ghost predicate IsReport(data: bytes, source: Option<IpAddr>, kind: ReplyKind) {
    exists errno, error, pad, info, from ::
      data == ExtendedErrFields(errno, error, pad, info) + from && HoldsSource(from, source) && kind == error.Kind()
  }

  /** The control data arrived whole and its first RECVERR message is such a report. */
  ghost predicate Reports(message: Message, source: Option<IpAddr>, kind: ReplyKind) {
    && !message.truncated
    && exists skipped, report :: FirstRecverr(message.control, skipped, report) && IsReport(report.data, source, kind)
  }

  /** The message quotes probe `j`, or for UDP names where it was sent by its port. */
  ghost predicate Quotes(m: Method, message: Message, j: ProbeId) {
    match m
    case Icmp(_, _) => |message.payload| >= 8 && message.payload[6..8] == BigEndian(j, 2)
    case Udp(_, _) => exists a :: HoldsSockaddr(message.name, a) && a.port == 33434 + j
    case Tcp(_, sourcePort) =>
      && |message.payload| >= 8
      && message.payload[..2] == BigEndian(sourcePort, 2) && message.payload[4..8] == BigEndian(j, 4)
  }

  /** The message is a direct answer to probe `j`. */
  ghost predicate AnswersDirectly(m: Method, message: Message, j: ProbeId) {
    match m
    case Icmp(_, _) => |message.payload| >= 8 && message.payload[6..8] == BigEndian(j, 2)
    case Udp(target, _) => exists a :: HoldsSockaddr(message.name, a) && a.Ip() == target && a.port == 33434 + j
    case Tcp(target, sourcePort) =>
      FromTarget(message.name, target) && Acknowledges(target, sourcePort, message.payload, j + 1)
  }

  lemma SourceExact(bs: bytes, source: Option<IpAddr>)
    ensures HoldsSource(bs, source)
            <==> source == if ParseSockaddr(bs).None? then None else Some(ParseSockaddr(bs).value.Ip())
  {
    forall a ensures HoldsSockaddr(bs, a) <==> ParseSockaddr(bs) == Some(a) {
      SockaddrParsesExactlyItsLayout(bs, a);
    }
    hide HoldsSockaddr;
    hide ParseSockaddr;
  }

  lemma QuotesExact(m: Method, message: Message, reply: Reply, j: ProbeId)
    requires reply.quoted == message.payload && reply.destination == ParseSockaddr(message.name)
    ensures Quotes(m, message, j) <==> ErrorReplies(m).Identify(reply) == Some(j)
  {
    match m
    case Icmp(_, _) => SequenceExact(message.payload, j);
    case Udp(_, _) =>
      forall a ensures HoldsSockaddr(message.name, a) <==> ParseSockaddr(message.name) == Some(a) {
        SockaddrParsesExactlyItsLayout(message.name, a);
      }
      hide HoldsSockaddr;
      hide ParseSockaddr;
    case Tcp(_, sourcePort) => QuotedSequenceExact(sourcePort, message.payload, j);
  }

  lemma DirectExact(m: Method, message: Message, reply: Reply, j: ProbeId)
    requires reply.quoted == message.payload && reply.source == ParseSockaddr(message.name)
    ensures AnswersDirectly(m, message, j) <==> Open(m)[0].replies.Identify(reply) == Some(j)
  {
    forall a ensures HoldsSockaddr(message.name, a) <==> ParseSockaddr(message.name) == Some(a) {
      SockaddrParsesExactlyItsLayout(message.name, a);
    }
    hide HoldsSockaddr;
    hide ParseSockaddr;
    hide Acknowledges;
    hide Acknowledged;
    match m
    case Icmp(_, _) => SequenceExact(message.payload, j);
    case Udp(_, _) =>
    case Tcp(target, sourcePort) => AcknowledgedExact(target, sourcePort, message.payload, j);
  }

  lemma ReportExact(data: bytes, source: Option<IpAddr>, kind: ReplyKind)
    ensures IsReport(data, source, kind)
            <==> && ReadExtendedError(data).Some?
                 && kind == ReadExtendedError(data).value.error.Kind()
                 && HoldsSource(ReadExtendedError(data).value.sourceBytes, source)
  {
    hide HoldsSource;
    hide ExtendedErrFields;
    if IsReport(data, source, kind) {
      var errno, error, pad, info, from :|
        data == ExtendedErrFields(errno, error, pad, info) + from && HoldsSource(from, source) && kind == error.Kind();
      ReadExtendedErrorExact(data, ExtendedError(error, from));
    }
    if ReadExtendedError(data).Some? {
      ReadExtendedErrorExact(data, ReadExtendedError(data).value);
    }
    hide ReadExtendedError;
  }

  lemma ReportsExact(message: Message, source: Option<IpAddr>, kind: ReplyKind)
    ensures Reports(message, source, kind)
            <==> && !message.truncated
                 && ParseIpRecverr(message.control).Some?
                 && kind == ParseIpRecverr(message.control).value.error.Kind()
                 && HoldsSource(ParseIpRecverr(message.control).value.sourceBytes, source)
  {
    hide ParseIpRecverr;
    hide ReadExtendedError;
    hide IsReport;
    hide HoldsSource;
    if Reports(message, source, kind) {
      var skipped, report :| FirstRecverr(message.control, skipped, report) && IsReport(report.data, source, kind);
      WalkReadsFirstRecverr(message.control, skipped, report);
      ReportExact(report.data, source, kind);
    }
    if ParseIpRecverr(message.control).Some? {
      var skipped, report := WalkSuccessHasLayout(message.control);
      ReportExact(report.data, source, kind);
    }
  }

  /** On the error queue a message is an answer if and only if its control data is
      whole, its first RECVERR message reports an ICMP error of that kind by that
      host, and it quotes that probe. Local errors, reports too short, truncated
      control data and messages with no report at all are never answers. */
  lemma ErrorAnswerExact(m: Method, message: Message, a: Answer)
    ensures AnswerIn(Open(m)[1], message) == Some(a)
            <==> Reports(message, a.source, a.kind) && Quotes(m, message, a.probe)
  {
    ReportsExact(message, a.source, a.kind);
    if ReplyIn(Open(m)[1], message).Some? {
      SourceExact(ParseIpRecverr(message.control).value.sourceBytes, a.source);
      QuotesExact(m, message, ReplyIn(Open(m)[1], message).value, a.probe);
    }
    hide ParseIpRecverr;
    hide ParseSockaddr;
    hide HoldsSource;
    hide Reports;
    hide Quotes;
    hide Sequence;
    hide QuotedSequence;
  }

  /** On the receive queue a message is an answer if and only if it answers that
      probe directly, and it then means the target; the sender is whoever the
      kernel names. */
  lemma DirectAnswerExact(m: Method, message: Message, a: Answer)
    ensures AnswerIn(Open(m)[0], message) == Some(a)
            <==> HoldsSource(message.name, a.source) && a.kind == Destination && AnswersDirectly(m, message, a.probe)
  {
    SourceExact(message.name, a.source);
    DirectExact(m, message, ReplyIn(Open(m)[0], message).value, a.probe);
    hide ParseSockaddr;
    hide HoldsSource;
    hide AnswersDirectly;
    hide Sequence;
    hide Acknowledged;
  }

  /** From bytes to answer on the error queue: a message whose control data holds,
      behind any skipped messages, the RECVERR report of `error` by `offender`, and
      that was caused by an identifiable probe, is recorded as that probe's, with
      the offender as its source and the meaning of the error as its kind. */
  lemma ErrorReportIsAnswer(
    m: Method, message: Message, j: ProbeId, skipped: seq<Cmsg>, report: Cmsg,
    errno: u32, error: IcmpError, pad: u8, info: u32, source: bytes, offender: SockAddr)
    requires CausedBy(m, true, message, j) && j < 0xffff && Identifiable(m, j) && !message.truncated
    requires FirstRecverr(message.control, skipped, report)
    requires report.data == ExtendedErrFields(errno, error, pad, info) + source && HoldsSockaddr(source, offender)
    ensures AnswerIn(Open(m)[1], message) == Some(Answer(j, Some(offender.Ip()), error.Kind()))
  {
    RecverrRoundTrip(message.control, skipped, report, errno, error, pad, info, source, offender);
    ReplyNamesItsCause(m, Open(m)[1], message, j);
    hide ParseIpRecverr;
    hide ParseSockaddr;
    hide CausedBy;
  }

  /** From bytes to answer on the receive queue: whoever the kernel names as the
      sender is the source, and any identified reply counts as the target's. */
  lemma DirectReplyIsAnswer(m: Method, message: Message, j: ProbeId, sender: SockAddr)
    requires CausedBy(m, false, message, j) && j < 0xffff && Identifiable(m, j)
    requires HoldsSockaddr(message.name, sender)
    ensures AnswerIn(Open(m)[0], message) == Some(Answer(j, Some(sender.Ip()), Destination))
  {
    SockaddrParsesExactlyItsLayout(message.name, sender);
    ReplyNamesItsCause(m, Open(m)[0], message, j);
    hide ParseSockaddr;
    hide CausedBy;
  }

  // ----- over a whole run -------------------------------------------------

  /** The successful reads among the handled completions. */
  predicate SuccessfulRead(queues: seq<ReplyQueue>, c: Cqe) {
    c.tag.kind.Read? && c.result >= 0 && c.tag.slot < |queues| && c.message.Some?
  }

  ghost predicate ReadCausedBy(m: Method, c: Cqe, j: ProbeId)
    requires SuccessfulRead(Open(m), c)
  {
    CausedBy(m, Open(m)[c.tag.slot].errQueue, c.message.value, j)
  }

  /** A read that the control walk and `identify` take for one of the `n` probes. */
  predicate Taken(queues: seq<ReplyQueue>, c: Cqe, n: nat) {
    Delivered(queues, c).Some? && Delivered(queues, c).value.probe < n
  }

  /** Whatever was taken for a reply to one of the `n` probes was caused by one of
      them. Nothing is asked of reads the filters reject: segments of other
      connections, local errors, quotations of other traces. */
  ghost predicate TakenAreCaused(m: Method, h: seq<Event>, n: nat) {
    forall k :: 0 <= k < |h| && Taken(Open(m), h[k].cqe, n) ==>
                  exists j: ProbeId :: j < n && ReadCausedBy(m, h[k].cqe, j)
  }

  /** In any run that takes for replies only what its probes caused, a result at
      index `i` was set by a reply to probe `i` and to no other, and belongs to
      the hop `i / count` after the first. It needs no bound on the number of
      probes beyond the one the run checks itself. */
  lemma ResultsBelongToTheirProbes(cfg: Config, m: Method, s: System, i: nat)
    requires Reachable(cfg, s) && cfg.queues == Open(m) && TakenAreCaused(m, s.history, cfg.ProbeCount())
    requires i < cfg.ProbeCount() == |s.program.probes| && s.program.probes[i].result.Some?
    ensures cfg.count > 0 && s.program.probes[i].ttl == cfg.firstHop + i / cfg.count
    ensures exists k :: && CountsFirst(cfg.queues, s.history, k, i)
                        && SuccessfulRead(Open(m), s.history[k].cqe)
                        && ReadCausedBy(m, s.history[k].cqe, i)
                        && forall j: ProbeId :: j < cfg.ProbeCount() && ReadCausedBy(m, s.history[k].cqe, j) ==> j == i
  {
    Runs.TableRefinesHistory(cfg, s, i);
    Runs.AnsweredMeansSentFirst(cfg, s, i);
    hide Reachable;
    hide ReplyIn;
    hide ProbeFollows;
    var k :| CountsFirst(cfg.queues, s.history, k, i);
    AnswerHasOneCause(m, s.history[k].cqe, cfg.ProbeCount(), i);
    hide AnswerIn;
    hide ReadCausedBy;
  }

  /** A read taken for one of the `n` probes has that probe as its only cause. */
  lemma AnswerHasOneCause(m: Method, c: Cqe, n: nat, i: nat)
    requires i < n < 0x1_0000 && Taken(Open(m), c, n) && Delivered(Open(m), c).value.probe == i
    requires exists j: ProbeId :: j < n && ReadCausedBy(m, c, j)
    ensures ReadCausedBy(m, c, i)
    ensures forall j: ProbeId :: j < n && ReadCausedBy(m, c, j) ==> j == i
  {
    hide AnswerIn;
    hide CausedBy;
    var queue := Open(m)[c.tag.slot];
    forall j: ProbeId | j < n && ReadCausedBy(m, c, j) ensures j == i {
      ReplyNamesItsCause(m, queue, c.message.value, j);
    }
  }

  /** Conversely no reply is lost: once a reply to an identifiable probe was
      accepted after its send completed, the probe has a result. */
  lemma RepliesAreRecorded(cfg: Config, m: Method, s: System, k: nat, j: ProbeId)
    requires Reachable(cfg, s) && cfg.queues == Open(m)
    requires j < cfg.ProbeCount() == |s.program.probes| && Identifiable(m, j)
    requires k < |s.history| && SuccessfulRead(Open(m), s.history[k].cqe)
    requires ReadCausedBy(m, s.history[k].cqe, j)
    requires ReplyIn(Open(m)[s.history[k].cqe.tag.slot], s.history[k].cqe.message.value).Some?
    requires SentBefore(s.history, k, j)
    ensures s.program.probes[j].result.Some?
  {
    Runs.TableRefinesHistory(cfg, s, j);
    var c := s.history[k].cqe;
    ReplyNamesItsCause(m, Open(m)[c.tag.slot], c.message.value, j);
    assert Counts(cfg.queues, s.history, k, j);
  }

  /** What the table shows for a probe is what the reply that came first said:
      in particular the offender and the meaning of an error report. */
  lemma ResultShowsFirstReply(cfg: Config, s: System, k: nat, i: nat, answer: Answer)
    requires Reachable(cfg, s) && i < cfg.ProbeCount() == |s.program.probes|
    requires CountsFirst(cfg.queues, s.history, k, i)
    requires Delivered(cfg.queues, s.history[k].cqe) == Some(answer)
    ensures s.program.probes[i].result.Some?
    ensures s.program.probes[i].result.value.source == answer.source
    ensures s.program.probes[i].result.value.kind == answer.kind
  {
    Runs.TableRefinesHistory(cfg, s, i);
  }

  /** Nothing enters the table but what a message says: every result of every run
      is the source and kind of an ICMP error that a whole report announced and
      whose quotation names the probe, or the target's direct answer to it. */
  lemma ResultsAreReported(cfg: Config, m: Method, s: System, i: nat)
    requires Reachable(cfg, s) && cfg.queues == Open(m)
    requires i < cfg.ProbeCount() == |s.program.probes| && s.program.probes[i].result.Some?
    ensures exists k :: CountsFirst(cfg.queues, s.history, k, i)
    ensures forall k :: CountsFirst(cfg.queues, s.history, k, i) ==>
                && SuccessfulRead(Open(m), s.history[k].cqe)
                && TableShows(m, s.history[k].cqe, s.program.probes[i].result.value, i)
  {
    Runs.TableRefinesHistory(cfg, s, i);
    Runs.AnsweredMeansSentFirst(cfg, s, i);
    forall k | CountsFirst(cfg.queues, s.history, k, i)
      ensures SuccessfulRead(Open(m), s.history[k].cqe)
      ensures TableShows(m, s.history[k].cqe, s.program.probes[i].result.value, i)
    {
      var c := s.history[k].cqe;
      var answer := Delivered(cfg.queues, c).value;
      if c.tag.slot == 0 {
        DirectAnswerExact(m, c.message.value, answer);
      } else {
        ErrorAnswerExact(m, c.message.value, answer);
      }
      hide Reachable;
      hide AnswerIn;
      hide AnswersDirectly;
      hide Reports;
      hide Quotes;
      hide HoldsSource;
    }
  }

  /** The result is what the completed read says about probe `i`. */
  ghost predicate TableShows(m: Method, c: Cqe, result: ProbeResult, i: nat)
    requires SuccessfulRead(Open(m), c)
  {
    var message := c.message.value;
    if c.tag.slot == 0 then
      && HoldsSource(message.name, result.source) && result.kind == Destination
      && i < 0x1_0000 && AnswersDirectly(m, message, i)
    else Reports(message, result.source, result.kind) && i < 0x1_0000 && Quotes(m, message, i)
  }

  lemma UdpAnswersInRange(m: Method, queue: ReplyQueue, message: Message)
    requires m.Udp? && queue in Open(m) && AnswerIn(queue, message).Some?
    ensures AnswerIn(queue, message).value.probe <= LAST_UDP_ID
  {
  }

  /** The bound is exact: a UDP probe past the last identifiable one is never answered. */
  lemma UdpBeyondRangeStaysSilent(cfg: Config, m: Method, s: System, i: nat)
    requires Reachable(cfg, s) && m.Udp? && cfg.queues == Open(m)
    requires LAST_UDP_ID < i < cfg.ProbeCount() == |s.program.probes|
    ensures s.program.probes[i].result.None?
  {
    Runs.TableRefinesHistory(cfg, s, i);
    hide AnswerIn;
    forall k ensures !Counts(cfg.queues, s.history, k, i) {
      if Counts(cfg.queues, s.history, k, i) {
        var c := s.history[k].cqe;
        UdpAnswersInRange(m, cfg.queues[c.tag.slot], c.message.value);
      }
    }
  }

  /** What the command line admits: hops from 1, at least two of them, and up to
      nine probes each. */
  predicate FromCommandLine(cfg: Config) {
    1 <= cfg.firstHop < cfg.lastHop && 1 <= cfg.count < 10
  }

  /** Within those ranges ids and slots fit sixteen bits, so does twice the probe
      count, and every probe of every method is identifiable. */
  lemma CommandLineFits(cfg: Config, m: Method, i: nat)
    requires FromCommandLine(cfg) && i < cfg.ProbeCount()
    ensures 2 <= cfg.ProbeCount() <= 2295 && 2 * cfg.ProbeCount() < 0x1_0000
    ensures Identifiable(m, i)
    ensures |cfg.queues| == 2 ==> cfg.RingSize() <= 2298 && (cfg.RingSize() <= cfg.capacity ==> cfg.Valid())
  {
    var hops, count := cfg.HopCount(), cfg.count;
    MulMonotone(hops, 255, count);
    MulMonotone(count, 9, 255);
    MulMonotone(1, count, hops);
  }

  /** A shortage the command line can ask for: 28 hops with one probe each and two
      readers make a ring of 31 entries, and 32 is the next power of two. */
  lemma CommandLineCanFallShort(m: Method) returns (cfg: Config, s: System)
    ensures cfg == Config(Open(m), 1, 28, 1, 32) && cfg.Valid() && FromCommandLine(cfg)
    ensures cfg.RingSize() == 31
    ensures Reachable(cfg, s) && s.phase == Failed(true)
  {
    cfg := Config(Open(m), 1, 28, 1, 32);
    C.ReArmNeverRejectedIff(cfg);
    s :| Reachable(cfg, s) && s.phase == Failed(true);
  }
}

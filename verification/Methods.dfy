/** The three probing methods: how each encodes a probe's identity on the wire
    and recovers it from what comes back, after src/method/. */
module Methods {
  import opened Prelude
  import opened IcmpErrors
  import opened Net
  import opened Checksum

  type ProbeId = u16

  /** A response read from one of the queues. */
  datatype Reply = Reply(
    source: Option<SockAddr>,
    destination: Option<SockAddr>,
    quoted: bytes,
    error: Option<IcmpError>)

  datatype Method =
    | Icmp(target: IpAddr, payloadLen: nat)
    | Udp(target: IpAddr, payloadLen: nat)
    | Tcp(target: IpAddr, sourcePort: u16)

  /** What interprets the replies of one queue. */
  datatype Replies =
    | EchoReplies
    | UdpReplies(target: IpAddr)
    | TcpReplies(target: IpAddr, sourcePort: u16)
    | ErrorReplies(sender: Method)
  {
    function Identify(reply: Reply): Option<ProbeId> {
      match this
      case EchoReplies => Sequence(reply.quoted)
      case UdpReplies(target) =>
        if reply.source.None? || reply.source.value.Ip() != target then None
        else FromPort(reply.source.value.port)
      case TcpReplies(target, sourcePort) =>
        if reply.source.None? || reply.source.value.Ip() != target then None
        else Acknowledged(target, sourcePort, reply.quoted)
      case ErrorReplies(Icmp(_, _)) => Sequence(reply.quoted)
      case ErrorReplies(Udp(_, _)) =>
        if reply.destination.None? then None else FromPort(reply.destination.value.port)
      case ErrorReplies(Tcp(_, sourcePort)) => QuotedSequence(sourcePort, reply.quoted)
    }

    function Classify(reply: Reply): ReplyKind {
      match this
      case ErrorReplies(_) =>
        if reply.error.None? then Undelivered(Marker("!?")) else reply.error.value.Kind()
      case _ => Destination
    }
  }

  datatype ReplyQueue = ReplyQueue(errQueue: bool, replies: Replies)

  /** The queues a method opens: the receive queue, then the error queue. */
  function Open(m: Method): seq<ReplyQueue> {
    [ReplyQueue(false, match m
                       case Icmp(_, _) => EchoReplies
                       case Udp(target, _) => UdpReplies(target)
                       case Tcp(target, port) => TcpReplies(target, port)),
     ReplyQueue(true, ErrorReplies(m))]
  }

  const MIN_IPV4_HEADER_LEN: nat := 20
  const ECHO_HEADER_LEN: nat := 8
  const TCP_MIN_HEADER_LEN: nat := 20
  const TCP_SYN_OPTIONS_LEN: nat := 20
  const DEST_PORT: u16 := 80
  const START_PORT: u16 := 33434

  function MaxReplyLen(m: Method): nat {
    match m
    case Icmp(_, payloadLen) => ECHO_HEADER_LEN + payloadLen
    case Udp(_, payloadLen) => payloadLen
    case Tcp(target, _) => (if target.IpV4? then MIN_IPV4_HEADER_LEN else 0) + TCP_MIN_HEADER_LEN
  }

  // ----- ICMP -------------------------------------------------------------

  function EchoRequest(target: IpAddr): u8 {
    if target.IpV4? then 8 else 128
  }

  function Zeros(n: nat): (bs: bytes)
    ensures |bs| == n
  {
    seq(n, _ => 0)
  }

  /** An echo request whose checksum and identifier the kernel has yet to fill. */
  function IcmpPacket(target: IpAddr, payloadLen: nat, id: ProbeId): (bs: bytes)
    ensures |bs| == ECHO_HEADER_LEN + payloadLen
  {
    [EchoRequest(target)] + Zeros(5) + BigEndian(id, 2) + Zeros(payloadLen)
  }

  /** Fills the packet in place. */
  method IcmpProbe(target: IpAddr, payloadLen: nat, id: ProbeId) returns (packet: array<u8>)
    ensures fresh(packet)
    ensures packet[..] == IcmpPacket(target, payloadLen, id)
  {
    packet := new u8[ECHO_HEADER_LEN + payloadLen](_ => 0);
    packet[0] := EchoRequest(target);
    var sequence := BigEndian(id, 2);
    packet[6], packet[7] := sequence[0], sequence[1];
  }

  /** The sequence number, at the same offset in an echo reply as in a quotation. */
  function Sequence(quoted: bytes): Option<ProbeId> {
    if |quoted| < 8 then None else Some(BigEndian16(quoted[6..8]))
  }

  lemma SequenceExact(quoted: bytes, id: ProbeId)
    ensures Sequence(quoted) == Some(id) <==> |quoted| >= 8 && quoted[6..8] == BigEndian(id, 2)
  {
    Pow256Values();
    if |quoted| >= 8 {
      NetworkField(quoted[6..8], id);
    }
  }

  /** A host's echo service (RFC 792 and section 4 of RFC 4443): it answers what its
      family calls an echo request, with identifier, sequence number and data
      copied; the checksum is its own. Anything else gets no echo. */
  function Echo(target: IpAddr, request: bytes, checksum: u16): Option<bytes> {
    if |request| < 8 || request[1] != 0 || request[0] != (if target.IpV4? then 8 else 128) then None
    else Some([if target.IpV4? then 0 else 129, 0] + BigEndian(checksum, 2) + request[4..])
  }

  /** An echo request as it leaves the host: the kernel has filled the checksum
      and the identifier, bytes 2 to 5. */
  ghost predicate OnWire(packet: bytes, wire: bytes) {
    |wire| == |packet| && forall i :: 0 <= i < |packet| && !(2 <= i < 6) ==> wire[i] == packet[i]
  }

  /** The target echoes every probe, whatever the kernel filled in, and its echo
      names the probe, fits the buffer and carries the payload back. */
  lemma EchoNamesProbe(target: IpAddr, payloadLen: nat, id: ProbeId, wire: bytes, checksum: u16)
    requires OnWire(IcmpPacket(target, payloadLen, id), wire)
    ensures Echo(target, wire, checksum).Some?
    ensures var echo := Echo(target, wire, checksum).value;
            && Sequence(echo) == Some(id)
            && |echo| == MaxReplyLen(Icmp(target, payloadLen)) && echo[8..] == Zeros(payloadLen)
  {
    var packet := IcmpPacket(target, payloadLen, id);
    assert wire[0] == packet[0] && wire[1] == packet[1] == 0;
    var echo := Echo(target, wire, checksum).value;
    IcmpPacketSequence(target, payloadLen, id);
    assert echo[6..8] == wire[6..8] == packet[6..8];
    SequenceExact(echo, id);
    assert echo[8..] == wire[8..] == packet[8..] == Zeros(payloadLen);
  }

  lemma IcmpPacketSequence(target: IpAddr, payloadLen: nat, id: ProbeId)
    ensures IcmpPacket(target, payloadLen, id)[6..8] == BigEndian(id, 2)
  {
  }

  // ----- UDP --------------------------------------------------------------

  /** `overflowing_add`, with the wrapped range shifted past port 0. */
  function UdpPort(id: ProbeId): (port: u16) {
    var port := START_PORT + id;
    if port < 0x1_0000 then port else port - 0x1_0000 + 1
  }

  /** `checked_sub(START_PORT)`. */
  function FromPort(port: u16): Option<ProbeId> {
    if port < START_PORT then None else Some(port - START_PORT)
  }

  /** The payload of a UDP probe; its identity is in the port it is sent to. */
  function UdpPacket(payloadLen: nat): bytes {
    Zeros(payloadLen)
  }

  /** Where the probe for `id` is sent, with flow label and scope left at zero. */
  function SentTo(m: Method, id: ProbeId): SockAddr {
    var port := match m
      case Icmp(_, _) => 0
      case Udp(_, _) => UdpPort(id)
      case Tcp(_, _) => DEST_PORT;
    match m.target
    case IpV4(octets) => SockV4(octets, port)
    case IpV6(groups) => SockV6(groups, port, 0, 0)
  }

  const LAST_UDP_ID: ProbeId := 32101

  /** The port codec on every id: exact up to 32101, refused on the wrapped
      range, and one collision at the very last id. */
  lemma UdpPortCodec(id: ProbeId)
    ensures FromPort(UdpPort(id)) == Some(id) <==> id <= LAST_UDP_ID
    ensures LAST_UDP_ID < id < 0xffff ==> UdpPort(id) == id - LAST_UDP_ID && FromPort(UdpPort(id)) == None
    ensures UdpPort(0xffff) == UdpPort(0) && FromPort(UdpPort(0xffff)) == Some(0)
    ensures 1 <= UdpPort(id)
  {
  }

  /** Two ids share a port only when they are 0 and 65535. */
  lemma UdpPortInjective(a: ProbeId, b: ProbeId)
    requires UdpPort(a) == UdpPort(b)
    ensures a == b || {a, b} == {0, 0xffff}
  {
  }

  /** The receive-queue and error-queue readers agree on every address of the target. */
  lemma UdpReadersAgree(m: Method, address: SockAddr, received: Reply, errored: Reply)
    requires m.Udp? && address.Ip() == m.target
    requires received.source == Some(address) && errored.destination == Some(address)
    ensures UdpReplies(m.target).Identify(received) == ErrorReplies(m).Identify(errored)
  {
  }

  // ----- TCP --------------------------------------------------------------

  /** A SYN carrying `id` as its sequence number. */
  function TcpPacket(sourcePort: u16, id: ProbeId, checksum: u16, options: bytes): (bs: bytes)
    requires |options| == TCP_SYN_OPTIONS_LEN
    ensures |bs| == TCP_MIN_HEADER_LEN + TCP_SYN_OPTIONS_LEN
  {
    BigEndian(sourcePort, 2) + BigEndian(DEST_PORT, 2) + BigEndian(id, 4) + Zeros(4)
    + [0xa0, 0x02] + Zeros(2) + BigEndian(checksum, 2) + Zeros(2) + options
  }

  /** Writes `field` into `packet` at `offset`, as a packet setter does. */
  method SetField(packet: array<u8>, offset: nat, field: bytes)
    requires offset + |field| <= packet.Length
    modifies packet
    ensures packet[..] == Overwrite(old(packet[..]), offset, field)
  {
    for k := 0 to |field|
      invariant forall i :: 0 <= i < packet.Length ==>
                  packet[i] == if offset <= i < offset + k then field[i - offset] else old(packet[i])
    {
      packet[offset + k] := field[k];
    }
  }

  function Overwrite(packet: bytes, offset: nat, field: bytes): (r: bytes)
    requires offset + |field| <= |packet|
    ensures |r| == |packet|
  {
    packet[..offset] + field + packet[offset + |field|..]
  }

  /** The setters, in the order the packet is filled, build the packet. */
  lemma TcpFieldsCompose(port: bytes, dest: bytes, sequence: bytes, options: bytes)
    requires |port| == |dest| == 2 && |sequence| == 4 && |options| == 20
    ensures Overwrite(Overwrite(Overwrite(Overwrite(Overwrite(Overwrite(
              Zeros(40), 0, port), 2, dest), 4, sequence), 13, [0x02]), 12, [0xa0]), 20, options)
            == port + dest + sequence + Zeros(4) + [0xa0, 0x02] + Zeros(2) + Zeros(2) + Zeros(2) + options
  {
    var p1 := Overwrite(Zeros(40), 0, port);
    assert p1 == port + Zeros(38);
    var p2 := Overwrite(p1, 2, dest);
    assert p2 == port + dest + Zeros(36);
    var p3 := Overwrite(p2, 4, sequence);
    assert p3 == port + dest + sequence + Zeros(32);
    var p5 := Overwrite(Overwrite(p3, 13, [0x02]), 12, [0xa0]);
    assert p5 == port + dest + sequence + Zeros(4) + [0xa0, 0x02] + Zeros(26);
    var p6 := Overwrite(p5, 20, options);
    assert p6 == port + dest + sequence + Zeros(4) + [0xa0, 0x02] + Zeros(6) + options;
  }

  /** The options of a SYN: segment size, selective acknowledgement, timestamps
      and window scale, with the codes of their RFCs (9293, 2018 and 7323). */
  function SynOptions(target: IpAddr, timestamp: u32): (bs: bytes)
    ensures |bs| == TCP_SYN_OPTIONS_LEN
  {
    var mss := if target.IpV4? then 1460 else 1440;
    [2, 4] + BigEndian(mss, 2)
    + ([4, 2] + ([8, 10] + BigEndian(timestamp, 4) + BigEndian(0, 4) + ([1] + [3, 3, 7])))
  }

  datatype TcpOption =
    | Mss(size: u16)
    | SackPermitted
    | Timestamps(ours: u32, theirs: u32)
    | Nop
    | WindowScale(shift: u8)

  /** A receiver's reading of the option list: a kind, and for all but padding a
      length that counts both (section 3.1 of RFC 9293, RFC 2018 and RFC 7323). */
  function ReadOptions(bs: bytes): Option<seq<TcpOption>> {
    if bs == [] then Some([])
    else if bs[0] == 1 then Behind(Nop, ReadOptions(bs[1..]))
    else if |bs| < 2 || bs[1] < 2 || |bs| < bs[1] then None
    else
      var rest := ReadOptions(bs[bs[1]..]);
      if bs[..2] == [2, 4] then Behind(Mss(BigEndian16(bs[2..4])), rest)
      else if bs[..2] == [3, 3] then Behind(WindowScale(bs[2]), rest)
      else if bs[..2] == [4, 2] then Behind(SackPermitted, rest)
      else if bs[..2] == [8, 10] then Behind(Timestamps(BigEndian32(bs[2..6]), BigEndian32(bs[6..10])), rest)
      else None
  }

  function Behind(first: TcpOption, rest: Option<seq<TcpOption>>): Option<seq<TcpOption>> {
    if rest.None? then None else Some([first] + rest.value)
  }

  lemma ReadMss(size: u16, rest: bytes)
    ensures ReadOptions([2, 4] + BigEndian(size, 2) + rest) == Behind(Mss(size), ReadOptions(rest))
  {
    Pow256Values();
    BigEndianDecodes(size, 2);
    var bs := [2, 4] + BigEndian(size, 2) + rest;
    assert bs[..2] == [2, 4] && bs[2..4] == BigEndian(size, 2) && bs[4..] == rest;
    hide BigEndian;
    hide FromBigEndian;
  }

  lemma ReadTimestamps(ours: u32, theirs: u32, rest: bytes)
    ensures ReadOptions([8, 10] + BigEndian(ours, 4) + BigEndian(theirs, 4) + rest)
            == Behind(Timestamps(ours, theirs), ReadOptions(rest))
  {
    Pow256Values();
    BigEndianDecodes(ours, 4);
    BigEndianDecodes(theirs, 4);
    hide BigEndian;
    hide FromBigEndian;
    var bs := [8, 10] + BigEndian(ours, 4) + BigEndian(theirs, 4) + rest;
    assert bs[..2] == [8, 10] && bs[2..6] == BigEndian(ours, 4) && bs[6..10] == BigEndian(theirs, 4);
    assert bs[10..] == rest;
  }

  lemma ReadSackPermitted(rest: bytes)
    ensures ReadOptions([4, 2] + rest) == Behind(SackPermitted, ReadOptions(rest))
  {
    var bs := [4, 2] + rest;
    assert bs[..2] == [4, 2] && bs[2..] == rest;
  }

  lemma ReadNop(rest: bytes)
    ensures ReadOptions([1] + rest) == Behind(Nop, ReadOptions(rest))
  {
    assert ([1] + rest)[1..] == rest;
  }

  lemma ReadWindowScale(shift: u8)
    ensures ReadOptions([3, 3, shift]) == Some([WindowScale(shift)])
  {
    var bs: bytes := [3, 3, shift];
    assert bs[..2] == [3, 3] && bs[bs[1]..] == [];
    assert [WindowScale(shift)] + [] == [WindowScale(shift)];
  }

  /** A receiver reads the options of a Linux SYN: the segment size that with both
      headers fills an Ethernet frame of 1500 bytes, the sender's clock, and a
      window scale of seven. */
  lemma SynOptionsRead(target: IpAddr, timestamp: u32)
    ensures var headers := (if target.IpV4? then 20 else 40) + 20;
            ReadOptions(SynOptions(target, timestamp))
            == Some([Mss(1500 - headers), SackPermitted, Timestamps(timestamp, 0), Nop, WindowScale(7)])
  {
    hide BigEndian;
    hide ReadOptions;
    var mss: u16 := if target.IpV4? then 1460 else 1440;
    var scale: bytes := [3, 3, 7];
    var clock := [8, 10] + BigEndian(timestamp, 4) + BigEndian(0, 4) + ([1] + scale);
    ReadMss(mss, [4, 2] + clock);
    ReadSackPermitted(clock);
    ReadTimestamps(timestamp, 0, [1] + scale);
    ReadNop(scale);
    ReadWindowScale(7);
    assert [Nop] + [WindowScale(7)] == [Nop, WindowScale(7)];
    assert [Timestamps(timestamp, 0)] + [Nop, WindowScale(7)] == [Timestamps(timestamp, 0), Nop, WindowScale(7)];
    assert [SackPermitted] + [Timestamps(timestamp, 0), Nop, WindowScale(7)]
           == [SackPermitted, Timestamps(timestamp, 0), Nop, WindowScale(7)];
    assert [Mss(mss)] + [SackPermitted, Timestamps(timestamp, 0), Nop, WindowScale(7)]
           == [Mss(mss), SackPermitted, Timestamps(timestamp, 0), Nop, WindowScale(7)];
  }

  /** The packet that is sent: its checksum is that of the same packet with the field zero. */
  function Syn(source: IpAddr, sourcePort: u16, target: IpAddr, id: ProbeId, timestamp: u32): bytes {
    var options := SynOptions(target, timestamp);
    TcpPacket(sourcePort, id, TcpChecksum(source, target, TcpPacket(sourcePort, id, 0, options)), options)
  }

  /** The receiver of a probe finds its checksum right. */
  lemma SynVerifies(source: IpAddr, sourcePort: u16, target: IpAddr, id: ProbeId, timestamp: u32)
    requires source.IpV4? == target.IpV4?
    ensures Verifies(source, target, Syn(source, sourcePort, target, id, timestamp))
  {
    var options := SynOptions(target, timestamp);
    var before := BigEndian(sourcePort, 2) + BigEndian(DEST_PORT, 2) + BigEndian(id, 4) + Zeros(4)
      + [0xa0, 0x02] + Zeros(2);
    var after := Zeros(2) + options;
    hide SynOptions;
    hide Verifies;
    hide TcpChecksum;
    forall checksum: u16 ensures TcpPacket(sourcePort, id, checksum, options)
                                 == before + BigEndian(checksum, 2) + after {
    }
    ChecksumVerifies(source, target, before, after);
  }

  /** Filling in the checksum last leaves the other fields alone. */
  lemma TcpChecksumCompose(sourcePort: u16, id: ProbeId, checksum: u16, options: bytes)
    requires |options| == TCP_SYN_OPTIONS_LEN
    ensures Overwrite(TcpPacket(sourcePort, id, 0, options), 16, BigEndian(checksum, 2))
            == TcpPacket(sourcePort, id, checksum, options)
  {
  }

  /** Sets every field but the checksum. */
  method FillSyn(packet: array<u8>, sourcePort: u16, id: ProbeId, options: bytes)
    requires packet[..] == Zeros(40) && |options| == TCP_SYN_OPTIONS_LEN
    modifies packet
    ensures packet[..] == TcpPacket(sourcePort, id, 0, options)
  {
    assert BigEndian(0, 2) == Zeros(2);
    hide BigEndian;
    hide Overwrite;
    ghost var zeros := packet[..];
    assert packet.Length == |zeros| == 40;
    SetField(packet, 0, BigEndian(sourcePort, 2));
    SetField(packet, 2, BigEndian(DEST_PORT, 2));
    SetField(packet, 4, BigEndian(id, 4));
    SetField(packet, 13, [0x02]);
    SetField(packet, 12, [0xa0]);
    SetField(packet, 20, options);
    TcpFieldsCompose(BigEndian(sourcePort, 2), BigEndian(DEST_PORT, 2), BigEndian(id, 4), options);
  }

  /** Fills the packet in place; the checksum is computed over what is there by
      then and filled in last. */
  method TcpProbe(source: IpAddr, sourcePort: u16, target: IpAddr, id: ProbeId, timestamp: u32)
      returns (packet: array<u8>)
    requires source.IpV4? == target.IpV4?
    ensures fresh(packet)
    ensures packet[..] == Syn(source, sourcePort, target, id, timestamp)
    ensures Verifies(source, target, packet[..])
  {
    var options := SynOptions(target, timestamp);
    packet := new u8[TCP_MIN_HEADER_LEN + TCP_SYN_OPTIONS_LEN](_ => 0);
    assert packet[..] == Zeros(40);
    FillSyn(packet, sourcePort, id, options);
    var checksum := TcpChecksum(source, target, packet[..]);
    SetField(packet, 16, BigEndian(checksum, 2));
    TcpChecksumCompose(sourcePort, id, checksum, options);
    SynVerifies(source, sourcePort, target, id, timestamp);
  }

  /** The error-queue reader, which has only the first eight bytes to go on. */
  function QuotedSequence(sourcePort: u16, quoted: bytes): Option<ProbeId> {
    if |quoted| < 2 || BigEndian16(quoted[..2]) != sourcePort || |quoted| < 8 then None
    else
      var sequence := BigEndian32(quoted[4..8]);
      if sequence < 0x1_0000 then Some(sequence) else None
  }

  /** The payload of an IPv4 packet, options skipped and trailing bytes cut. */
  function Ipv4Payload(packet: bytes): bytes
    requires |packet| >= MIN_IPV4_HEADER_LEN
  {
    var headerLen := Ipv4HeaderLen(packet);
    var start := if headerLen < MIN_IPV4_HEADER_LEN then MIN_IPV4_HEADER_LEN else headerLen;
    var totalLen := BigEndian16(packet[2..4]);
    var len := if headerLen <= totalLen then totalLen - headerLen else 0;
    if |packet| <= start then []
    else packet[start..if start + len < |packet| then start + len else |packet|]
  }

  function Ipv4HeaderLen(packet: bytes): (len: nat)
    requires |packet| >= MIN_IPV4_HEADER_LEN
  {
    4 * (packet[0] % 16)
  }

  /** The TCP segment in what a raw socket reads: IPv4 keeps its header, IPv6 does not. */
  function Segment(target: IpAddr, quoted: bytes): Option<bytes> {
    if target.IpV6? then Some(quoted)
    else if |quoted| < MIN_IPV4_HEADER_LEN then None
    else Some(Ipv4Payload(quoted))
  }

  /** The receive-queue reader. */
  function Acknowledged(target: IpAddr, sourcePort: u16, quoted: bytes): Option<ProbeId> {
    var segment := Segment(target, quoted);
    if segment.None? || |segment.value| < TCP_MIN_HEADER_LEN then None
    else
      var tcp := segment.value;
      if BigEndian16(tcp[..2]) != DEST_PORT || BigEndian16(tcp[2..4]) != sourcePort then None
      else
        var acknowledgement := BigEndian32(tcp[8..12]);
        if 1 <= acknowledgement <= 0x1_0000 then Some(acknowledgement - 1) else None
  }

  /** An IPv4 header that claims `ihl` words of itself and `total` bytes in all. */
  ghost predicate IsIpv4Header(header: bytes, ihl: nat, total: u16) {
    && |header| == (if ihl < 5 then 20 else 4 * ihl)
    && header[0] % 16 == ihl
    && header[2..4] == BigEndian(total, 2)
  }

  /** What a raw socket reads holds `tcp`: bare for IPv6; for IPv4 behind a header,
      either all of what the header counts or cut short at the end. */
  ghost predicate HoldsSegment(target: IpAddr, read: bytes, tcp: bytes) {
    if target.IpV6? then read == tcp
    else exists ihl: nat, total: u16, header, trailing ::
        && IsIpv4Header(header, ihl, total)
        && read == header + tcp + trailing
        && (4 * ihl + |tcp| == total || (4 * ihl + |tcp| < total && trailing == []))
  }

  /** A segment is found exactly when the bytes hold it. */
  lemma SegmentExact(target: IpAddr, read: bytes, tcp: bytes)
    requires tcp != []
    ensures Segment(target, read) == Some(tcp) <==> HoldsSegment(target, read, tcp)
  {
    if target.IpV4? {
      if Segment(target, read) == Some(tcp) {
        SegmentIsHeld(target, read, tcp);
      }
      forall ihl: nat, total: u16, header, trailing |
        && IsIpv4Header(header, ihl, total)
        && read == header + tcp + trailing
        && (4 * ihl + |tcp| == total || (4 * ihl + |tcp| < total && trailing == []))
        ensures Segment(target, read) == Some(tcp)
      {
        HeldIsSegment(target, ihl, total, header, tcp, trailing);
      }
    }
  }

  lemma SegmentIsHeld(target: IpAddr, read: bytes, tcp: bytes)
    requires target.IpV4? && tcp != [] && Segment(target, read) == Some(tcp)
    ensures HoldsSegment(target, read, tcp)
  {
    Pow256Values();
    hide BigEndian;
    hide FromBigEndian;
    var ihl, total: u16 := read[0] % 16, BigEndian16(read[2..4]);
    var start := if ihl < 5 then 20 else 4 * ihl;
    var header, trailing := read[..start], read[start + |tcp|..];
    NetworkField(read[2..4], total);
    assert header[2..4] == read[2..4];
    assert read == header + tcp + trailing;
    assert IsIpv4Header(header, ihl, total);
  }

  /** The round trip: any segment behind any IPv4 header, with or without options
      and with anything after it, is found. */
  lemma HeldIsSegment(target: IpAddr, ihl: nat, total: u16, header: bytes, tcp: bytes, trailing: bytes)
    requires target.IpV4? && IsIpv4Header(header, ihl, total)
    requires 4 * ihl + |tcp| == total || (4 * ihl + |tcp| < total && trailing == [])
    ensures Segment(target, header + tcp + trailing) == Some(tcp)
  {
    Pow256Values();
    var read := header + tcp + trailing;
    assert read[2..4] == header[2..4];
    NetworkField(read[2..4], total);
    assert read[|header|..|header| + |tcp|] == tcp;
  }

  /** `read` holds a whole TCP header from port 80 to ours that acknowledges `acknowledgement`. */
  ghost predicate Acknowledges(target: IpAddr, sourcePort: u16, read: bytes, acknowledgement: u32) {
    exists tcp ::
      && HoldsSegment(target, read, tcp)
      && |tcp| >= TCP_MIN_HEADER_LEN
      && tcp[..2] == [0, 80] && tcp[2..4] == BigEndian(sourcePort, 2) && tcp[8..12] == BigEndian(acknowledgement, 4)
  }

  /** The fields the reader looks at have these values exactly when they hold these bytes. */
  lemma AcknowledgingFields(sourcePort: u16, tcp: bytes, id: ProbeId)
    requires |tcp| >= TCP_MIN_HEADER_LEN
    ensures tcp[..2] == [0, 80] <==> BigEndian16(tcp[..2]) == DEST_PORT
    ensures tcp[2..4] == BigEndian(sourcePort, 2) <==> BigEndian16(tcp[2..4]) == sourcePort
    ensures tcp[8..12] == BigEndian(id + 1, 4) <==> BigEndian32(tcp[8..12]) == id + 1
  {
    Pow256Values();
    assert BigEndian(DEST_PORT, 2) == [0, 80];
    hide BigEndian;
    hide FromBigEndian;
    NetworkField(tcp[..2], DEST_PORT);
    NetworkField(tcp[2..4], sourcePort);
    NetworkField(tcp[8..12], id + 1);
  }

  /** A segment is taken for a reply to `id` exactly when it acknowledges `id + 1`;
      hence no acknowledgement outside 1 to 65536 is accepted. */
  lemma AcknowledgedExact(target: IpAddr, sourcePort: u16, read: bytes, id: ProbeId)
    ensures Acknowledged(target, sourcePort, read) == Some(id)
            <==> Acknowledges(target, sourcePort, read, id + 1)
  {
    hide HoldsSegment;
    hide Segment;
    hide BigEndian16;
    hide BigEndian32;
    hide BigEndian;
    if Acknowledged(target, sourcePort, read) == Some(id) {
      var tcp := Segment(target, read).value;
      SegmentExact(target, read, tcp);
      AcknowledgingFields(sourcePort, tcp, id);
    }
    if Acknowledges(target, sourcePort, read, id + 1) {
      var tcp :| && HoldsSegment(target, read, tcp) && |tcp| >= TCP_MIN_HEADER_LEN && tcp[..2] == [0, 80]
                 && tcp[2..4] == BigEndian(sourcePort, 2) && tcp[8..12] == BigEndian(id + 1, 4);
      SegmentExact(target, read, tcp);
      AcknowledgingFields(sourcePort, tcp, id);
    }
  }

  /** What a listening host takes for a SYN: a whole header, that flag alone, a
      readable option list and a right checksum. */
  ghost predicate AcceptsSyn(source: IpAddr, target: IpAddr, packet: bytes) {
    && |packet| >= 20 && packet[12] == 16 * (|packet| / 4) && packet[13] == 2
    && ReadOptions(packet[20..]).Some?
    && Verifies(source, target, packet)
  }

  /** A segment sent in answer to `packet`: the ports swapped, and its sequence
      number acknowledged (section 3.10.7 of RFC 9293). */
  ghost predicate AnswersSyn(packet: bytes, segment: bytes) {
    && |packet| >= 20 && |segment| >= 20
    && segment[..2] == packet[2..4] && segment[2..4] == packet[..2]
    && segment[8..12] == BigEndian((BigEndian32(packet[4..8]) + 1) % 0x1_0000_0000, 4)
  }

  lemma TcpPacketFields(sourcePort: u16, id: ProbeId, checksum: u16, options: bytes)
    requires |options| == TCP_SYN_OPTIONS_LEN
    ensures var packet := TcpPacket(sourcePort, id, checksum, options);
            && |packet| == 40 && packet[..2] == BigEndian(sourcePort, 2) && packet[2..4] == [0, 80]
            && packet[4..8] == BigEndian(id, 4) && packet[8..12] == Zeros(4) && packet[12] == 160 && packet[13] == 2
            && packet[14..16] == packet[18..20] == Zeros(2) && packet[20..] == options
  {
    assert BigEndian(DEST_PORT, 2) == [0, 80];
    hide BigEndian;
  }

  lemma AnswerAcknowledges(syn: bytes, id: ProbeId, segment: bytes)
    requires |syn| == 40 && syn[4..8] == BigEndian(id, 4) && AnswersSyn(syn, segment)
    ensures segment[8..12] == BigEndian(id + 1, 4)
  {
    hide BigEndian;
    hide FromBigEndian;
    Pow256Values();
    NetworkField(syn[4..8], id);
  }

  lemma AnswerIsIdentified(syn: bytes, sourcePort: u16, target: IpAddr, id: ProbeId, segment: bytes, read: bytes)
    requires |syn| == 40 && syn[..2] == BigEndian(sourcePort, 2) && syn[2..4] == [0, 80]
    requires syn[4..8] == BigEndian(id, 4)
    requires AnswersSyn(syn, segment) && HoldsSegment(target, read, segment)
    ensures Acknowledged(target, sourcePort, read) == Some(id)
  {
    hide BigEndian;
    hide BigEndian32;
    hide HoldsSegment;
    hide Acknowledged;
    AnswerAcknowledges(syn, id, segment);
    assert Acknowledges(target, sourcePort, read, id + 1);
    AcknowledgedExact(target, sourcePort, read, id);
  }

  /** No acknowledgement, no window and no urgent data. */
  ghost predicate IsBare(packet: bytes) {
    |packet| >= 20 && packet[8..12] == Zeros(4) && packet[14..16] == packet[18..20] == Zeros(2)
  }

  /** Every probe is a SYN with nothing else set that the target accepts, and
      whatever segment answers it, SYN or RST, in an IPv4 packet with any options
      or bare, is identified as the answer to this probe. */
  lemma SynIsAnswered(source: IpAddr, sourcePort: u16, target: IpAddr, id: ProbeId, timestamp: u32)
    requires source.IpV4? == target.IpV4?
    ensures AcceptsSyn(source, target, Syn(source, sourcePort, target, id, timestamp))
    ensures IsBare(Syn(source, sourcePort, target, id, timestamp))
    ensures forall segment, read ::
              AnswersSyn(Syn(source, sourcePort, target, id, timestamp), segment) && HoldsSegment(target, read, segment)
              ==> Acknowledged(target, sourcePort, read) == Some(id)
  {
    var syn, options := Syn(source, sourcePort, target, id, timestamp), SynOptions(target, timestamp);
    SynVerifies(source, sourcePort, target, id, timestamp);
    TcpPacketFields(sourcePort, id, TcpChecksum(source, target, TcpPacket(sourcePort, id, 0, options)), options);
    SynOptionsRead(target, timestamp);
    hide TcpPacket;
    hide Verifies;
    hide SynOptions;
    hide ReadOptions;
    hide HoldsSegment;
    hide Acknowledged;
    hide AnswersSyn;
    hide BigEndian;
    forall segment, read | AnswersSyn(syn, segment) && HoldsSegment(target, read, segment)
      ensures Acknowledged(target, sourcePort, read) == Some(id)
    {
      AnswerIsIdentified(syn, sourcePort, target, id, segment, read);
    }
  }

  /** A quotation names `id` exactly when it holds our port and that sequence number. */
  lemma QuotedSequenceExact(sourcePort: u16, quoted: bytes, id: ProbeId)
    ensures QuotedSequence(sourcePort, quoted) == Some(id)
            <==> |quoted| >= 8 && quoted[..2] == BigEndian(sourcePort, 2) && quoted[4..8] == BigEndian(id, 4)
  {
    Pow256Values();
    if |quoted| >= 8 {
      NetworkField(quoted[..2], sourcePort);
      NetworkField(quoted[4..8], id);
    }
  }

  /** Both directions of a TCP exchange name the same probe: any quotation of its
      first eight bytes and any segment that answers it. */
  lemma TcpTwoWayIdentity(
    target: IpAddr, sourcePort: u16, id: ProbeId, checksum: u16, options: bytes,
    quoted: bytes, segment: bytes, received: bytes)
    requires |options| == TCP_SYN_OPTIONS_LEN
    requires TcpPacket(sourcePort, id, checksum, options)[..8] <= quoted
    requires AnswersSyn(TcpPacket(sourcePort, id, checksum, options), segment)
    requires HoldsSegment(target, received, segment)
    ensures QuotedSequence(sourcePort, quoted) == Acknowledged(target, sourcePort, received) == Some(id)
  {
    TcpPacketHead(sourcePort, id, checksum, options, quoted);
    TcpPacketFields(sourcePort, id, checksum, options);
    AnswerIsIdentified(TcpPacket(sourcePort, id, checksum, options), sourcePort, target, id, segment, received);
  }

  lemma TcpPacketHead(sourcePort: u16, id: ProbeId, checksum: u16, options: bytes, quoted: bytes)
    requires |options| == TCP_SYN_OPTIONS_LEN
    requires TcpPacket(sourcePort, id, checksum, options)[..8] <= quoted
    ensures QuotedSequence(sourcePort, quoted) == Some(id)
  {
    var head := TcpPacket(sourcePort, id, checksum, options)[..8];
    assert head[..2] == BigEndian(sourcePort, 2) && head[4..8] == BigEndian(id, 4);
    assert quoted[..8] == head;
    assert quoted[..2] == quoted[..8][..2] && quoted[4..8] == quoted[..8][4..8];
    QuotedSequenceExact(sourcePort, quoted, id);
  }

  // ----- buffer sizes -----------------------------------------------------

  /** Whether cutting what a raw socket read to `room` bytes still leaves a
      whole TCP header behind the IP header. */
  predicate HeaderSurvives(target: IpAddr, quoted: bytes, room: nat) {
    || target.IpV6?
    || |quoted| < MIN_IPV4_HEADER_LEN
    || Ipv4HeaderLen(quoted) + TCP_MIN_HEADER_LEN <= room
  }

  /** Cutting keeps the header fields and takes a prefix of the segment. */
  lemma CutSegment(target: IpAddr, quoted: bytes, room: nat)
    requires MaxReplyLen(Tcp(target, 0)) <= room <= |quoted|
    ensures Segment(target, quoted[..room]).Some? && Segment(target, quoted).Some?
    ensures Segment(target, quoted[..room]).value <= Segment(target, quoted).value
    ensures |Segment(target, quoted).value| >= TCP_MIN_HEADER_LEN ==>
              (HeaderSurvives(target, quoted, room) <==> |Segment(target, quoted[..room]).value| >= TCP_MIN_HEADER_LEN)
  {
    if target.IpV4? {
      assert quoted[..room][2..4] == quoted[2..4];
      var headerLen, totalLen := Ipv4HeaderLen(quoted), BigEndian16(quoted[2..4]);
      var start := if headerLen < MIN_IPV4_HEADER_LEN then MIN_IPV4_HEADER_LEN else headerLen;
      if start < room {
        CutSlice(quoted, room, start, start + if headerLen <= totalLen then totalLen - headerLen else 0);
      }
      hide BigEndian16;
    }
  }

  lemma CutSlice(whole: bytes, room: nat, start: nat, end: nat)
    requires start <= room <= |whole| && start <= end
    ensures whole[..room][start..if end < room then end else room]
            <= whole[start..if end < |whole| then end else |whole|]
  {
    var a, b := if end < room then end else room, if end < |whole| then end else |whole|;
    var cut, long := whole[..room][start..a], whole[start..b];
    assert |cut| <= |long|;
    forall k | 0 <= k < |cut| ensures cut[k] == long[k] {
      assert cut[k] == whole[start + k] == long[k];
    }
  }

  lemma PrefixFields(cut: bytes, whole: bytes)
    requires 20 <= |cut| && cut <= whole
    ensures cut[..2] == whole[..2] && cut[2..4] == whole[2..4] && cut[8..12] == whole[8..12]
  {
    assert whole[..|cut|] == cut;
    assert whole[..|cut|][..2] == whole[..2] && whole[..|cut|][2..4] == whole[2..4];
    assert whole[..|cut|][8..12] == whole[8..12];
  }

  /** Cutting what a raw socket reads to `room` bytes keeps the identity of a
      reply that had one exactly when the IP header leaves room for the TCP
      header, and never invents an identity. */
  lemma CutKeepsTcpIdentity(target: IpAddr, sourcePort: u16, quoted: bytes, room: nat)
    requires MaxReplyLen(Tcp(target, sourcePort)) <= room <= |quoted|
    ensures var whole := Acknowledged(target, sourcePort, quoted);
            var cut := Acknowledged(target, sourcePort, quoted[..room]);
            && (whole.Some? ==> (cut == whole <==> HeaderSurvives(target, quoted, room)))
            && (cut.Some? ==> cut == whole)
  {
    CutSegment(target, quoted, room);
    var whole, cut := Segment(target, quoted).value, Segment(target, quoted[..room]).value;
    if |cut| >= TCP_MIN_HEADER_LEN {
      PrefixFields(cut, whole);
    }
  }

  /** Every other reader is indifferent to cutting at the reserved length or later. */
  lemma CutKeepsIdentity(m: Method, queue: ReplyQueue, reply: Reply, room: nat)
    requires queue in Open(m) && MaxReplyLen(m) <= room <= |reply.quoted|
    requires m.Tcp? ==> queue.errQueue
    ensures queue.replies.Identify(reply.(quoted := reply.quoted[..room])) == queue.replies.Identify(reply)
  {
    var q, cut := reply.quoted, reply.quoted[..room];
    if m.Icmp? {
      assert cut[6..8] == q[6..8];
    } else if m.Tcp? {
      assert cut[..2] == q[..2] && cut[4..8] == q[4..8];
    }
  }

  /** The four words of `io_recvmsg_out`, and the space for the sender's name. */
  const RECVMSG_OUT_LEN: nat := 16
  const NAME_LEN: nat := SOCKADDR_IN6_LEN

  /** What each buffer holds besides the longest reply, whichever queue fills it. */
  const RECVMSG_OVERHEAD: nat := RECVMSG_OUT_LEN + NAME_LEN + RECVERR_CONTROL_LEN

  function BufferLen(m: Method): nat {
    RECVMSG_OVERHEAD + MaxReplyLen(m)
  }

  /** The control space a queue's read template asks for. */
  function ControlLen(queue: ReplyQueue): nat {
    if queue.errQueue then RECVERR_CONTROL_LEN else 0
  }

  /** The room a multishot read leaves for the payload: the buffer less the
      header and the name and control space of its template. */
  function Room(m: Method, queue: ReplyQueue): nat {
    BufferLen(m) - RECVMSG_OUT_LEN - NAME_LEN - ControlLen(queue)
  }

  /** A buffer holds the header of the read, the name of any sender, the control
      space of its queue and the reserved length; which is the whole echo of an
      ICMP probe, a datagram as long as a UDP probe, and for TCP a segment without
      options behind an IPv4 header without options. */
  lemma BufferHoldsReply(m: Method, queue: ReplyQueue, sender: SockAddr)
    requires queue in Open(m)
    ensures 16 + SockaddrLen(sender) + ControlLen(queue) + MaxReplyLen(m) <= BufferLen(m)
    ensures m.Icmp? ==> forall id :: |IcmpPacket(m.target, m.payloadLen, id)| == MaxReplyLen(m)
    ensures m.Udp? ==> |UdpPacket(m.payloadLen)| == MaxReplyLen(m)
    ensures m.Tcp? ==> forall header, tcp, total: u16 | |tcp| == 20 && IsIpv4Header(header, 5, total) ::
                |if m.target.IpV4? then header + tcp else tcp| == MaxReplyLen(m)
  {
  }

  /** On the receive queue the unused control space makes room for the longest IP header. */
  lemma RoomForOptions(m: Method, queue: ReplyQueue, quoted: bytes)
    requires m.Tcp? && queue in Open(m) && !queue.errQueue
    ensures Room(m, queue) == MaxReplyLen(m) + 64
    ensures HeaderSurvives(m.target, quoted, Room(m, queue))
  {
  }

  /** The buffers are large enough: for every method and each of its queues,
      what is cut off a reply of any length never changes which probe it names. */
  lemma BufferKeepsIdentity(m: Method, queue: ReplyQueue, reply: Reply)
    requires queue in Open(m) && Room(m, queue) <= |reply.quoted|
    ensures queue.replies.Identify(reply.(quoted := reply.quoted[..Room(m, queue)])) == queue.replies.Identify(reply)
  {
    if m.Tcp? && !queue.errQueue {
      RoomForOptions(m, queue, reply.quoted);
      CutKeepsTcpIdentity(m.target, m.sourcePort, reply.quoted, Room(m, queue));
    } else {
      CutKeepsIdentity(m, queue, reply, Room(m, queue));
    }
  }
}

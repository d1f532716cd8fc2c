/** Classification of ICMP errors, after src/icmp.rs. */
module IcmpErrors {
  import opened Prelude

  /** Why a probe could not be delivered. */
  datatype Unreachable =
    | Marker(text: string)
    | Code(code: u8)
    | Other(icmpType: u8, code: u8)
    | TooBig(mtu: u32)

  /** What a reply means for the trace. */
  datatype ReplyKind = Hop | Destination | Undelivered(reason: Unreachable)
  {
    predicate TerminatesTrace() {
      Destination?
    }
  }

  const V4_DEST_UNREACH: u8 := 3
  const V4_TIME_EXCEEDED: u8 := 11
  const V6_DEST_UNREACH: u8 := 1
  const V6_PACKET_TOO_BIG: u8 := 2
  const V6_TIME_EXCEEDED: u8 := 3

  /** An ICMP error reported through the socket error queue. */
  datatype IcmpError =
    | V4(icmpType: u8, code: u8, info: u32)
    | V6(icmpType: u8, code: u8, info: u32)
  {
    function Kind(): ReplyKind {
      match this
      case V4(t, c, info) =>
        if t == V4_TIME_EXCEEDED && c == 0 then Hop
        else if t == V4_DEST_UNREACH && c == 3 then Destination
        else if t == V4_DEST_UNREACH then
          Undelivered(
            if c in {0, 6, 8, 11} then Marker("!N")
            else if c in {1, 7, 12} then Marker("!H")
            else if c in {9, 10, 13} then Marker("!X")
            else if c == 2 then Marker("!P")
            else if c == 4 then TooBig(info)
            else if c == 5 then Marker("!S")
            else if c == 14 then Marker("!V")
            else if c == 15 then Marker("!C")
            else Code(c))
        else Undelivered(Other(t, c))
      case V6(t, c, info) =>
        if t == V6_TIME_EXCEEDED && c == 0 then Hop
        else if t == V6_DEST_UNREACH && c == 4 then Destination
        else if t == V6_DEST_UNREACH then
          Undelivered(
            if c == 0 then Marker("!N")
            else if c == 1 then Marker("!X")
            else if c in {2, 3} then Marker("!H")
            else Code(c))
        else if t == V6_PACKET_TOO_BIG then Undelivered(TooBig(info))
        else Undelivered(Other(t, c))
    }
  }

  // ----- what the codes stand for -----------------------------------------

  /** The failures with a name: RFC 792, section 3.2.2.1 of RFC 1122 and section
      5.2.7.1 of RFC 1812 for IPv4, RFC 4443 for IPv6. */
  datatype Failure =
    | TtlExceeded
    | NetUnreachable | HostUnreachable | ProtocolUnreachable | PortUnreachable
    | FragmentationNeeded | SourceRouteFailed | NetUnknown | HostUnknown | SourceIsolated
    | NetProhibited | HostProhibited | NetTos | HostTos
    | CommunicationProhibited | PrecedenceViolation | PrecedenceCutoff
    | HopLimitExceeded
    | NoRoute | Prohibited6 | BeyondScope | AddressUnreachable | PortUnreachable6
    | PacketTooBig(ignored: u8)
  {
    /** How it goes over the wire. */
    function Encode(info: u32): IcmpError {
      match this
      case TtlExceeded => V4(11, 0, info)
      case NetUnreachable => V4(3, 0, info)
      case HostUnreachable => V4(3, 1, info)
      case ProtocolUnreachable => V4(3, 2, info)
      case PortUnreachable => V4(3, 3, info)
      case FragmentationNeeded => V4(3, 4, info)
      case SourceRouteFailed => V4(3, 5, info)
      case NetUnknown => V4(3, 6, info)
      case HostUnknown => V4(3, 7, info)
      case SourceIsolated => V4(3, 8, info)
      case NetProhibited => V4(3, 9, info)
      case HostProhibited => V4(3, 10, info)
      case NetTos => V4(3, 11, info)
      case HostTos => V4(3, 12, info)
      case CommunicationProhibited => V4(3, 13, info)
      case PrecedenceViolation => V4(3, 14, info)
      case PrecedenceCutoff => V4(3, 15, info)
      case HopLimitExceeded => V6(3, 0, info)
      case NoRoute => V6(1, 0, info)
      case Prohibited6 => V6(1, 1, info)
      case BeyondScope => V6(1, 2, info)
      case AddressUnreachable => V6(1, 3, info)
      case PortUnreachable6 => V6(1, 4, info)
      case PacketTooBig(ignored) => V6(2, ignored, info)
    }

    /** What it tells a trace: a router on the way, the target itself, or why
        the probe got no further, in traceroute's markers. */
    function Meaning(info: u32): ReplyKind {
      match this
      case TtlExceeded | HopLimitExceeded => Hop
      case PortUnreachable | PortUnreachable6 => Destination
      case FragmentationNeeded | PacketTooBig(_) => Undelivered(TooBig(info))
      case NetUnreachable | NetUnknown | SourceIsolated | NetTos | NoRoute => Undelivered(Marker("!N"))
      case HostUnreachable | HostUnknown | HostTos | BeyondScope | AddressUnreachable => Undelivered(Marker("!H"))
      case NetProhibited | HostProhibited | CommunicationProhibited | Prohibited6 => Undelivered(Marker("!X"))
      case ProtocolUnreachable => Undelivered(Marker("!P"))
      case SourceRouteFailed => Undelivered(Marker("!S"))
      case PrecedenceViolation => Undelivered(Marker("!V"))
      case PrecedenceCutoff => Undelivered(Marker("!C"))
    }
  }

  const V4_CODES: seq<Failure> :=
    [NetUnreachable, HostUnreachable, ProtocolUnreachable, PortUnreachable, FragmentationNeeded, SourceRouteFailed,
     NetUnknown, HostUnknown, SourceIsolated, NetProhibited, HostProhibited, NetTos, HostTos,
     CommunicationProhibited, PrecedenceViolation, PrecedenceCutoff]

  const V6_CODES: seq<Failure> := [NoRoute, Prohibited6, BeyondScope, AddressUnreachable, PortUnreachable6]

  /** The named failure an error stands for, if any. */
  ghost function Named(e: IcmpError): (f: Option<Failure>)
    ensures f.Some? ==> f.value.Encode(e.info) == e
    ensures f.None? ==> forall g: Failure :: g.Encode(e.info) != e
  {
    if e.V4? && e.icmpType == 11 && e.code == 0 then Some(TtlExceeded)
    else if e.V4? && e.icmpType == 3 && e.code < 16 then Some(V4_CODES[e.code])
    else if e.V6? && e.icmpType == 3 && e.code == 0 then Some(HopLimitExceeded)
    else if e.V6? && e.icmpType == 1 && e.code < 5 then Some(V6_CODES[e.code])
    else if e.V6? && e.icmpType == 2 then Some(PacketTooBig(e.code))
    else None
  }

  /** An error is classified by what it stands for: every named failure by its
      meaning, whatever its further information; an unnamed code of Destination
      Unreachable keeps its code, and anything else its type and code. */
  lemma KindExact(e: IcmpError)
    ensures forall f: Failure :: f.Encode(e.info) == e ==> e.Kind() == f.Meaning(e.info)
    ensures (forall f: Failure :: f.Encode(e.info) != e) ==>
              e.Kind() == Undelivered(if e.icmpType == (if e.V4? then 3 else 1) then Code(e.code)
                                      else Other(e.icmpType, e.code))
  {
    if Named(e).Some? {
      assert Named(e).value.Encode(e.info) == e;
    }
  }

  /** Only routers mean a hop and only the target means the end of the trace. */
  lemma HopAndDestinationExact(e: IcmpError)
    ensures e.Kind() == Hop <==> e in {TtlExceeded.Encode(e.info), HopLimitExceeded.Encode(e.info)}
    ensures e.Kind() == Destination <==> e in {PortUnreachable.Encode(e.info), PortUnreachable6.Encode(e.info)}
  {
  }
}

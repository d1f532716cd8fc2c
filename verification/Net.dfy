/** Control messages and socket addresses as raw bytes, after src/net.rs.
    The layout is Linux LP64 in little-endian byte order; cmsg spacing follows
    sections 5.2 and 5.3 of RFC 3542. */
module Net {
  import opened Prelude
  import opened IcmpErrors

  // ----- alignment --------------------------------------------------------

  /** The bitwise AND of the low `width` bits of two words. */
  function BitAnd(a: nat, b: nat, width: nat): (r: nat) {
    if width == 0 then 0
    else (if a % 2 == 1 && b % 2 == 1 then 1 else 0) + 2 * BitAnd(a / 2, b / 2, width - 1)
  }

  function Pow2(n: nat): (p: nat)
    ensures p > 0
  {
    if n == 0 then 1 else 2 * Pow2(n - 1)
  }

  const USIZE_BITS: nat := 64
  const ALIGN: nat := 8

  /** The bitwise complement of a `usize`. */
  function Complement(a: nat): (r: nat)
    requires a < Pow2(USIZE_BITS)
  {
    Pow2(USIZE_BITS) - 1 - a
  }

  /** `(length + align - 1) & !(align - 1)`. */
  function CmsgAlign(length: nat): (r: nat) {
    Pow2Values();
    BitAnd(length + ALIGN - 1, Complement(ALIGN - 1), USIZE_BITS)
  }

  lemma Pow2Values()
    ensures Pow2(61) == 0x2000_0000_0000_0000
    ensures Pow2(64) == 0x1_0000_0000_0000_0000
  {
    assert Pow2(8) == 0x100;
    assert Pow2(13) == 0x2000;
    Pow2Sum(8, 8);
    Pow2Sum(16, 16);
    Pow2Sum(32, 16);
    Pow2Sum(48, 13);
  }

  lemma {:induction false} Pow2Sum(a: nat, b: nat)
    ensures Pow2(a + b) == Pow2(a) * Pow2(b)
  {
    if b > 0 {
      Pow2Sum(a, b - 1);
      assert Pow2(a + b) == 2 * Pow2(a + b - 1);
    }
  }

  lemma {:induction false} BitAndOnes(a: nat, width: nat)
    requires a < Pow2(width)
    ensures BitAnd(a, Pow2(width) - 1, width) == a
  {
    if width > 0 {
      BitAndOnes(a / 2, width - 1);
      assert (Pow2(width) - 1) / 2 == Pow2(width - 1) - 1;
    }
  }

  lemma BitAndShift(a: nat, b: nat, width: nat)
    ensures BitAnd(a, 2 * b, width + 1) == 2 * BitAnd(a / 2, b, width)
  {
  }

  /** `CMSG_ALIGN` as section 5.2 of RFC 3542 means it: the least multiple of
      eight that is no smaller. */
  function AlignUp(length: nat): (r: nat)
    ensures r % 8 == 0 && length <= r < length + 8
  {
    (length + 7) / 8 * 8
  }

  /** Clearing the low three bits, at any width. */
  lemma BitAndClearsLow(a: nat, width: nat)
    requires a / 8 < Pow2(width)
    ensures BitAnd(a, 8 * (Pow2(width) - 1), width + 3) == a / 8 * 8
  {
    hide BitAnd;
    var ones := Pow2(width) - 1;
    BitAndShift(a, 4 * ones, width + 2);
    BitAndShift(a / 2, 2 * ones, width + 1);
    BitAndShift(a / 2 / 2, ones, width);
    BitAndOnes(a / 2 / 2 / 2, width);
  }

  /** The bit trick rounds up, for every length whose sum with seven is still a `usize`. */
  lemma CmsgAlignRoundsUp(length: nat)
    requires length + 7 < 0x1_0000_0000_0000_0000
    ensures CmsgAlign(length) == AlignUp(length)
  {
    Pow2Values();
    hide BitAnd;
    BitAndClearsLow(length + 7, 61);
    assert Complement(7) == 8 * (Pow2(61) - 1);
  }

  // ----- socket addresses -------------------------------------------------

  type octets4 = s: bytes | |s| == 4 witness [0, 0, 0, 0]
  type octets16 = s: bytes | |s| == 16
    witness [0, 0, 0, 0, 0, 0, 0, 0, 0, 0, 0, 0, 0, 0, 0, 0]

  datatype IpAddr = IpV4(octets: octets4) | IpV6(groups: octets16)

  datatype SockAddr =
    | SockV4(address: octets4, port: u16)
    | SockV6(address6: octets16, port: u16, flowInfo: u32, scopeId: u32)
  {
    function Ip(): IpAddr {
      match this
      case SockV4(address, _) => IpV4(address)
      case SockV6(address, _, _, _) => IpV6(address)
    }
  }

  const AF_INET: u16 := 2
  const AF_INET6: u16 := 10
  const SOCKADDR_IN_LEN: nat := 16
  const SOCKADDR_IN6_LEN: nat := 28

  /** Reads a `sockaddr_in` or `sockaddr_in6` if `bs` starts with one. */
  function ParseSockaddr(bs: bytes): Option<SockAddr> {
    if |bs| < 2 then None
    else
      var family := Native16(bs[..2]);
      if family == AF_INET then
        if |bs| < SOCKADDR_IN_LEN then None
        else Some(SockV4(bs[4..8], BigEndian16(bs[2..4])))
      else if family == AF_INET6 then
        if |bs| < SOCKADDR_IN6_LEN then None
        else Some(SockV6(bs[8..24], BigEndian16(bs[2..4]), Native32(bs[4..8]), Native32(bs[24..28])))
      else None
  }

  /** The fields of a socket address as the kernel lays them out; the eight
      bytes of `sin_zero` that end a `sockaddr_in` are not included. */
  function SockaddrFields(a: SockAddr): (bs: bytes) {
    match a
    case SockV4(address, port) =>
      [2, 0] + BigEndian(port, 2) + address
    case SockV6(address, port, flowInfo, scopeId) =>
      [10, 0] + BigEndian(port, 2) + LittleEndian(flowInfo, 4) + address
      + LittleEndian(scopeId, 4)
  }

  function SockaddrLen(a: SockAddr): nat {
    if a.SockV4? then SOCKADDR_IN_LEN else SOCKADDR_IN6_LEN
  }

  /** `bs` starts with the kernel's layout of `a`. */
  ghost predicate HoldsSockaddr(bs: bytes, a: SockAddr) {
    |bs| >= SockaddrLen(a) && SockaddrFields(a) <= bs
  }

  lemma Sockaddr4Fields(bs: bytes, address: octets4, port: u16)
    requires |bs| >= 8
    ensures SockaddrFields(SockV4(address, port)) <= bs
            <==> Native16(bs[..2]) == AF_INET && BigEndian16(bs[2..4]) == port && bs[4..8] == address
  {
    Pow256Values();
    NativeField(bs[..2], AF_INET);
    NetworkField(bs[2..4], port);
    var family, p := LittleEndian(AF_INET, 2), BigEndian(port, 2);
    assert family + p + address == family + (p + address);
    PrefixSplit(family, p + address, bs);
    PrefixSplit(p, address, bs[2..]);
    assert bs[2..][..2] == bs[2..4] && bs[2..][2..][..4] == bs[4..8];
  }

  /** A concatenation of fields is a prefix exactly when each field is in its place. */
  lemma FiveFields(bs: bytes, a: bytes, b: bytes, c: bytes, d: bytes, e: bytes)
    requires |bs| >= 28 && |a| == 2 && |b| == 2 && |c| == 4 && |d| == 16 && |e| == 4
    ensures a + b + c + d + e <= bs
            <==> bs[..2] == a && bs[2..4] == b && bs[4..8] == c && bs[8..24] == d && bs[24..28] == e
  {
    PrefixSplit(a + b + c + d, e, bs);
    PrefixSplit(a + b + c, d, bs);
    PrefixSplit(a + b, c, bs);
    PrefixSplit(a, b, bs);
    assert bs[2..][..2] == bs[2..4] && bs[4..][..4] == bs[4..8];
    assert bs[8..][..16] == bs[8..24] && bs[24..][..4] == bs[24..28];
  }

  lemma Sockaddr6Fields(bs: bytes, a: SockAddr)
    requires |bs| >= 28 && a.SockV6?
    ensures SockaddrFields(a) <= bs
            <==> && Native16(bs[..2]) == AF_INET6 && BigEndian16(bs[2..4]) == a.port
                 && Native32(bs[4..8]) == a.flowInfo && bs[8..24] == a.address6
                 && Native32(bs[24..28]) == a.scopeId
  {
    Pow256Values();
    hide FromBigEndian;
    hide FromLittleEndian;
    FiveFields(bs, LittleEndian(AF_INET6, 2), BigEndian(a.port, 2), LittleEndian(a.flowInfo, 4), a.address6,
               LittleEndian(a.scopeId, 4));
    NativeField(bs[..2], AF_INET6);
    NetworkField(bs[2..4], a.port);
    NativeField(bs[4..8], a.flowInfo);
    NativeField(bs[24..28], a.scopeId);
  }

  /** Parsing yields an address exactly when the bytes hold its layout, whatever
      follows it and whatever `sin_zero` contains. */
  lemma SockaddrParsesExactlyItsLayout(bs: bytes, a: SockAddr)
    ensures ParseSockaddr(bs) == Some(a) <==> HoldsSockaddr(bs, a)
  {
    if |bs| >= 16 && a.SockV4? {
      Sockaddr4Fields(bs, a.address, a.port);
    } else if |bs| >= 28 && a.SockV6? {
      Sockaddr6Fields(bs, a);
    }
  }

  // ----- control messages -------------------------------------------------

  const CMSGHDR_LEN: nat := 16
  const EXTENDED_ERR_LEN: nat := 16
  const IPPROTO_IP: u32 := 0
  const IP_RECVERR: u32 := 11
  const IPPROTO_IPV6: u32 := 41
  const IPV6_RECVERR: u32 := 25
  const ORIGIN_ICMP: u8 := 2
  const ORIGIN_ICMP6: u8 := 3

  /** Where a cmsg's data begins. */
  const CMSG_HEADER_LEN: nat := AlignUp(CMSGHDR_LEN)

  /** `CMSG_SPACE` of an extended error followed by the widest address. */
  const RECVERR_CONTROL_LEN: nat := CMSG_HEADER_LEN + AlignUp(EXTENDED_ERR_LEN + SOCKADDR_IN6_LEN)

  /** A slice spans at most `isize::MAX` bytes. */
  type slice = s: bytes | |s| < 0x8000_0000_0000_0000 witness []

  /** The parts of a `sock_extended_err` the trace uses. */
  datatype ExtendedError = ExtendedError(error: IcmpError, sourceBytes: bytes)

  datatype CmsgHeader = CmsgHeader(len: u64, level: u32, ctype: u32)
  {
    predicate IsRecverr() {
      || (level == IPPROTO_IP && ctype == IP_RECVERR)
      || (level == IPPROTO_IPV6 && ctype == IPV6_RECVERR)
    }
  }

  function ReadHeader(bs: bytes): CmsgHeader
    requires |bs| >= CMSGHDR_LEN
  {
    CmsgHeader(Native64(bs[..8]), Native32(bs[8..12]), Native32(bs[12..16]))
  }

  /** What the walk makes of the data of a RECVERR message. */
  function ReadExtendedError(data: bytes): Option<ExtendedError> {
    if |data| < EXTENDED_ERR_LEN then None
    else if data[4] == ORIGIN_ICMP then
      Some(ExtendedError(V4(data[5], data[6], Native32(data[8..12])), data[16..]))
    else if data[4] == ORIGIN_ICMP6 then
      Some(ExtendedError(V6(data[5], data[6], Native32(data[8..12])), data[16..]))
    else None
  }

  /** Everything from `offset` on, which is nothing once `offset` has run past the end. */
  function From(bs: bytes, offset: nat): bytes {
    if offset <= |bs| then bs[offset..] else []
  }

  /** The walk as a recursion on the bytes still ahead of it. */
  function ParseIpRecverr(control: slice): Option<ExtendedError>
    decreases |control|
  {
    if |control| < CMSGHDR_LEN then None
    else
      var header := ReadHeader(control);
      if header.len < CMSGHDR_LEN || header.len > |control| then None
      else if header.IsRecverr() then ReadExtendedError(control[16..header.len])
      else ParseIpRecverr(From(control, AlignUp(header.len)))
  }

  newtype usize = x: int | 0 <= x < 0x1_0000_0000_0000_0000

  /** One turn of the walk, in terms of offsets into the whole of `control`. */
  lemma WalkStep(control: slice, offset: nat, header: CmsgHeader)
    requires offset + 16 <= |control|
    requires header == ReadHeader(control[offset..offset + 16])
    ensures var ahead := ParseIpRecverr(From(control, offset));
            if header.len < 16 || offset + header.len > |control| then ahead == None
            else if header.IsRecverr() then ahead == ReadExtendedError(control[offset + 16..offset + header.len])
            else ahead == ParseIpRecverr(From(control, offset + AlignUp(header.len)))
  {
    var here, ahead := control[offset..offset + 16], control[offset..];
    assert here == ahead[..16];
    assert here[..8] == ahead[..8] && here[8..12] == ahead[8..12] && here[12..16] == ahead[12..16];
    if 16 <= header.len && offset + header.len <= |control| {
      assert ahead[16..header.len] == control[offset + 16..offset + header.len];
      assert From(ahead, AlignUp(header.len)) == From(control, offset + AlignUp(header.len));
    }
  }

  /** `cmsg_align` on a length that lies inside a slice. */
  method AlignLength(length: usize) returns (r: usize)
    requires length < 0x8000_0000_0000_0000
    ensures r as int == AlignUp(length as int)
  {
    CmsgAlignRoundsUp(length as int);
    r := CmsgAlign(length as int) as usize;
  }

  /** Reads the `cmsghdr` at `offset`, which decides the walk's next turn. */
  method ReadHeaderAt(control: slice, offset: usize) returns (header: CmsgHeader)
    requires offset as int + CMSGHDR_LEN <= |control|
    ensures var ahead := ParseIpRecverr(From(control, offset as int));
            var end := offset as int + header.len;
            if header.len < CMSGHDR_LEN || end > |control| then ahead == None
            else if header.IsRecverr() then ahead == ReadExtendedError(control[offset as int + CMSG_HEADER_LEN..end])
            else ahead == ParseIpRecverr(From(control, offset as int + AlignUp(header.len)))
  {
    header := ReadHeader(control[offset..offset + CMSGHDR_LEN as usize]);
    WalkStep(control, offset as int, header);
  }

  /** `checked_add`: the sum, or nothing if it is not a `usize`. */
  function CheckedAdd(a: usize, b: usize): (r: Option<usize>)
    ensures r == if a as int + b as int < 0x1_0000_0000_0000_0000 then Some(a + b) else None
  {
    if b <= 0xffff_ffff_ffff_ffff - a then Some(a + b) else None
  }

  /** The body of the loop: stop with an answer, or move past one message. All
      arithmetic is on `usize`, so verification shows that no sum overflows, and
      slicing shows that no read leaves `control`. */
  method TakeTurn(control: slice, offset: usize) returns (r: Option<Option<ExtendedError>>, next: usize)
    requires offset as int + CMSGHDR_LEN <= |control|
    ensures r.Some? ==> r.value == ParseIpRecverr(From(control, offset as int))
    ensures r.None? ==> ParseIpRecverr(From(control, next as int)) == ParseIpRecverr(From(control, offset as int))
    ensures r.None? ==> offset as int + CMSG_HEADER_LEN <= next as int <= |control| + 7
  {
    hide ParseIpRecverr;
    next := offset;
    var header := ReadHeaderAt(control, offset);
    var end := CheckedAdd(offset, header.len as usize);
    if end.None? || header.len < CMSG_HEADER_LEN || end.value > |control| as usize {
      return Some(None), next;
    }
    if header.IsRecverr() {
      var data := offset + CMSG_HEADER_LEN as usize;
      var errorEnd := data + EXTENDED_ERR_LEN as usize;
      if errorEnd > end.value {
        return Some(None), next;
      }
      return Some(ReadExtendedError(control[data..end.value])), next;
    }
    var step := AlignLength(header.len as usize);
    next := offset + step;
    r := None;
  }

  /** The loop over `offset`, its guard on `usize` as well. */
  method WalkControl(control: slice) returns (r: Option<ExtendedError>)
    ensures r == ParseIpRecverr(control)
  {
    ghost var answer := ParseIpRecverr(control);
    var len := |control| as usize;
    var offset: usize := 0;
    while offset + CMSGHDR_LEN as usize <= len
      invariant offset <= len + 7
      invariant answer == ParseIpRecverr(From(control, offset as int))
      decreases len + 7 - offset
    {
      var turn, next := TakeTurn(control, offset);
      if turn.Some? {
        return turn.value;
      }
      offset := next;
    }
    return None;
  }

  // ----- the layout the walk inverts --------------------------------------

  /** A control message with the padding that aligns its successor. */
  datatype Cmsg = Cmsg(level: u32, ctype: u32, data: bytes, padding: bytes)
  {
    function Len(): nat {
      CMSGHDR_LEN + |data|
    }

    /** `IP_RECVERR` of level `IPPROTO_IP` or `IPV6_RECVERR` of level
        `IPPROTO_IPV6`, by their numbers in the kernel's headers. */
    ghost predicate IsRecverr() {
      (level, ctype) in {(0, 11), (41, 25)}
    }

    /** `CMSG_LEN` bytes: the header and the data. */
    function Encoded(): (bs: bytes)
      ensures |bs| == Len()
    {
      LittleEndian(Len(), 8) + LittleEndian(level, 4) + LittleEndian(ctype, 4) + data
    }

    /** A message the walk steps over: not RECVERR, and padded to `CMSG_SPACE`. */
    ghost predicate Skipped() {
      && Len() < 0x8000_0000_0000_0000
      && !IsRecverr()
      && |padding| == AlignUp(Len()) - Len()
    }
  }

  /** Messages one after another, each followed by its padding. */
  ghost function Layout(messages: seq<Cmsg>): (bs: bytes)
    requires forall m <- messages :: m.Skipped()
  {
    if messages == [] then []
    else messages[0].Encoded() + messages[0].padding + Layout(messages[1..])
  }

  /** `control` is `skipped`, then the RECVERR message `m`, then anything at all. */
  ghost predicate FirstRecverr(control: bytes, skipped: seq<Cmsg>, m: Cmsg) {
    && (forall s <- skipped :: s.Skipped())
    && m.IsRecverr()
    && m.Len() < 0x8000_0000_0000_0000
    && Layout(skipped) + m.Encoded() <= control
  }

  lemma HeaderDecodes(m: Cmsg, bs: bytes)
    requires m.Len() < 0x8000_0000_0000_0000
    requires m.Encoded() <= bs
    ensures ReadHeader(bs) == CmsgHeader(m.Len(), m.level, m.ctype)
    ensures bs[16..m.Len()] == m.data
  {
    Pow256Values();
    var e := m.Encoded();
    assert bs[..8] == e[..8] == LittleEndian(m.Len(), 8);
    assert bs[8..12] == e[8..12] == LittleEndian(m.level, 4);
    assert bs[12..16] == e[12..16] == LittleEndian(m.ctype, 4);
    assert bs[16..m.Len()] == e[16..m.Len()];
    assert e == (LittleEndian(m.Len(), 8) + LittleEndian(m.level, 4) + LittleEndian(m.ctype, 4)) + m.data;
    assert e[16..] == m.data;
    LittleEndianDecodes(m.Len(), 8);
    LittleEndianDecodes(m.level, 4);
    LittleEndianDecodes(m.ctype, 4);
  }

  /** Bytes whose header claims a length they have hold that message. */
  lemma HeaderEncodes(bs: slice) returns (m: Cmsg)
    requires |bs| >= 16 && 16 <= ReadHeader(bs).len <= |bs|
    ensures m.Len() == ReadHeader(bs).len && m.Encoded() <= bs
    ensures m.level == ReadHeader(bs).level && m.ctype == ReadHeader(bs).ctype
    ensures AlignUp(m.Len()) <= |bs| ==> m.padding == bs[m.Len()..AlignUp(m.Len())]
    ensures m.data == bs[16..m.Len()]
  {
    var h := ReadHeader(bs);
    m := Cmsg(h.level, h.ctype, bs[16..h.len], if AlignUp(h.len) <= |bs| then bs[h.len..AlignUp(h.len)] else []);
    LittleEndianEncodes(bs[..8]);
    LittleEndianEncodes(bs[8..12]);
    LittleEndianEncodes(bs[12..16]);
    assert bs[..h.len] == bs[..8] + bs[8..12] + bs[12..16] + bs[16..h.len];
    assert m.Encoded() == bs[..h.len];
  }

  /** The walk on bytes that start with `m`. */
  lemma WalkMeets(control: slice, m: Cmsg)
    requires m.Len() < 0x8000_0000_0000_0000 && m.Encoded() <= control
    ensures ParseIpRecverr(control)
            == if m.IsRecverr() then ReadExtendedError(m.data) else ParseIpRecverr(From(control, AlignUp(m.Len())))
  {
    HeaderDecodes(m, control);
  }

  lemma LayoutSplit(s: Cmsg, rest: seq<Cmsg>, m: Cmsg)
    requires s.Skipped() && forall r <- rest :: r.Skipped()
    ensures Layout([s] + rest) + m.Encoded() == (s.Encoded() + s.padding) + (Layout(rest) + m.Encoded())
  {
    assert ([s] + rest)[1..] == rest;
  }

  /** Parsing inverts the layout: every message before the first RECVERR is
      stepped over, that message alone is read, and nothing after it matters. */
  lemma {:induction false} WalkReadsFirstRecverr(control: slice, skipped: seq<Cmsg>, m: Cmsg)
    requires FirstRecverr(control, skipped, m)
    ensures ParseIpRecverr(control) == ReadExtendedError(m.data)
    decreases |skipped|
  {
    hide ParseIpRecverr;
    hide ReadExtendedError;
    if skipped == [] {
      assert Layout(skipped) + m.Encoded() == m.Encoded();
      WalkMeets(control, m);
    } else {
      var s, rest := skipped[0], skipped[1..];
      assert skipped == [s] + rest;
      LayoutSplit(s, rest, m);
      PrefixSplit(s.Encoded() + s.padding, Layout(rest) + m.Encoded(), control);
      PrefixSplit(s.Encoded(), s.padding, control);
      assert s.Encoded() <= control by {
        assert s.Encoded() + s.padding <= control;
      }
      WalkMeets(control, s);
      WalkReadsFirstRecverr(From(control, AlignUp(s.Len())), rest, m);
    }
  }

  lemma SuccessHasHeader(control: slice)
    requires ParseIpRecverr(control).Some?
    ensures |control| >= CMSGHDR_LEN && CMSGHDR_LEN <= ReadHeader(control).len <= |control|
  {
  }

  lemma LoneRecverr(control: slice, m: Cmsg)
    requires m.IsRecverr() && m.Encoded() <= control
    ensures FirstRecverr(control, [], m)
  {
    assert Layout([]) + m.Encoded() == m.Encoded();
  }

  /** A skipped message in front of a layout makes a longer layout. */
  lemma LayoutGrows(control: bytes, s: Cmsg, rest: seq<Cmsg>, m: Cmsg)
    requires s.Skipped() && AlignUp(s.Len()) <= |control|
    requires s.Encoded() + s.padding == control[..AlignUp(s.Len())]
    requires FirstRecverr(control[AlignUp(s.Len())..], rest, m)
    ensures FirstRecverr(control, [s] + rest, m)
  {
    LayoutSplit(s, rest, m);
    PrefixSplit(s.Encoded() + s.padding, Layout(rest) + m.Encoded(), control);
  }

  /** Bytes whose first message is whole and not RECVERR start with a skipped message. */
  lemma SkippedHead(control: slice, s: Cmsg)
    requires s.Encoded() <= control && !s.IsRecverr()
    requires AlignUp(s.Len()) <= |control| && s.padding == control[s.Len()..AlignUp(s.Len())]
    ensures s.Skipped() && s.Encoded() + s.padding == control[..AlignUp(s.Len())]
  {
  }

  /** Conversely a success always comes from such a layout. */
  lemma {:induction false} WalkSuccessHasLayout(control: slice) returns (skipped: seq<Cmsg>, m: Cmsg)
    requires ParseIpRecverr(control).Some?
    ensures FirstRecverr(control, skipped, m)
    ensures ReadExtendedError(m.data) == ParseIpRecverr(control)
    decreases |control|
  {
    SuccessHasHeader(control);
    hide ParseIpRecverr;
    hide ReadExtendedError;
    hide ReadHeader;
    hide Layout;
    var s := HeaderEncodes(control);
    WalkMeets(control, s);
    if s.IsRecverr() {
      skipped, m := [], s;
      LoneRecverr(control, m);
    } else {
      var next := From(control, AlignUp(s.Len()));
      SuccessHasHeader(next);
      var rest;
      rest, m := WalkSuccessHasLayout(next);
      skipped := [s] + rest;
      SkippedHead(control, s);
      LayoutGrows(control, s, rest, m);
    }
  }

  /** The walk's answer, exactly: `e` is returned if and only if it is what the
      first RECVERR message of some aligned layout holds. */
  lemma WalkInvertsLayout(control: slice, e: ExtendedError)
    ensures ParseIpRecverr(control) == Some(e)
            <==> exists skipped, m :: FirstRecverr(control, skipped, m) && ReadExtendedError(m.data) == Some(e)
  {
    if ParseIpRecverr(control) == Some(e) {
      var skipped, m := WalkSuccessHasLayout(control);
    }
    forall skipped, m | FirstRecverr(control, skipped, m) && ReadExtendedError(m.data) == Some(e)
      ensures ParseIpRecverr(control) == Some(e)
    {
      WalkReadsFirstRecverr(control, skipped, m);
    }
  }

  /** A success depends on no byte after the end of the message it read: `end` is
      where the first RECVERR message of some layout ends, and any bytes that
      agree up to there have the same answer. */
  lemma WalkIgnoresTrailingBytes(control: slice) returns (skipped: seq<Cmsg>, m: Cmsg, end: nat)
    requires ParseIpRecverr(control).Some?
    ensures FirstRecverr(control, skipped, m) && end == |Layout(skipped) + m.Encoded()| <= |control|
    ensures forall other: slice :: control[..end] <= other ==> ParseIpRecverr(other) == ParseIpRecverr(control)
  {
    skipped, m := WalkSuccessHasLayout(control);
    end := |Layout(skipped) + m.Encoded()|;
    forall other: slice | control[..end] <= other
      ensures ParseIpRecverr(other) == ParseIpRecverr(control)
    {
      WalkReadsFirstRecverr(other, skipped, m);
    }
  }

  // ----- the error a router or the target caused --------------------------

  /** `sock_extended_err` with the given ICMP error: the fifth byte is the origin,
      2 for ICMP and 3 for ICMPv6. */
  function ExtendedErrFields(errno: u32, error: IcmpError, pad: u8, info: u32): (bs: bytes)
    ensures |bs| == EXTENDED_ERR_LEN
  {
    LittleEndian(errno, 4)
    + [if error.V4? then 2 else 3, error.icmpType, error.code, pad]
    + LittleEndian(error.info, 4) + LittleEndian(info, 4)
  }

  lemma ExtendedErrDecodes(errno: u32, error: IcmpError, pad: u8, info: u32, source: bytes)
    ensures ReadExtendedError(ExtendedErrFields(errno, error, pad, info) + source) == Some(ExtendedError(error, source))
  {
    Pow256Values();
    var data := ExtendedErrFields(errno, error, pad, info) + source;
    assert data[8..12] == LittleEndian(error.info, 4);
    LittleEndianDecodes(error.info, 4);
    assert data[16..] == source;
  }

  /** The data of a RECVERR message is read as `e` exactly when it is the kernel's
      report of that ICMP error followed by those bytes; data that is too short
      or of any other origin, such as a local error, is no report. */
  lemma ReadExtendedErrorExact(data: bytes, e: ExtendedError)
    ensures ReadExtendedError(data) == Some(e)
            <==> exists errno, pad, info :: data == ExtendedErrFields(errno, e.error, pad, info) + e.sourceBytes
  {
    Pow256Values();
    if ReadExtendedError(data) == Some(e) {
      var errno, info := Native32(data[..4]), Native32(data[12..16]);
      ExtendedErrEncodes(data, errno, e.error, info);
      assert data == data[..16] + data[16..];
      assert data == ExtendedErrFields(errno, e.error, data[7], info) + e.sourceBytes;
    }
    forall errno, pad, info | data == ExtendedErrFields(errno, e.error, pad, info) + e.sourceBytes
      ensures ReadExtendedError(data) == Some(e)
    {
      ExtendedErrDecodes(errno, e.error, pad, info, e.sourceBytes);
    }
  }

  lemma ExtendedErrEncodes(data: bytes, errno: u32, error: IcmpError, info: u32)
    requires |data| >= 16 && errno == Native32(data[..4]) && info == Native32(data[12..16])
    requires data[4] == (if error.V4? then 2 else 3) && error.icmpType == data[5] && error.code == data[6]
    requires error.info == Native32(data[8..12])
    ensures data[..16] == ExtendedErrFields(errno, error, data[7], info)
  {
    LittleEndianEncodes(data[..4]);
    LittleEndianEncodes(data[8..12]);
    LittleEndianEncodes(data[12..16]);
    assert data[..16] == data[..4] + [data[4], data[5], data[6], data[7]] + data[8..12] + data[12..16];
  }

  /** The round trip from error and offender to what the trace sees, behind any
      skipped messages and before any trailing bytes. */
  lemma RecverrRoundTrip(
    control: slice, skipped: seq<Cmsg>, m: Cmsg,
    errno: u32, error: IcmpError, pad: u8, info: u32, source: bytes, offender: SockAddr)
    requires FirstRecverr(control, skipped, m)
    requires m.data == ExtendedErrFields(errno, error, pad, info) + source
    requires HoldsSockaddr(source, offender)
    ensures ParseIpRecverr(control) == Some(ExtendedError(error, source))
    ensures ParseSockaddr(ParseIpRecverr(control).value.sourceBytes) == Some(offender)
  {
    WalkReadsFirstRecverr(control, skipped, m);
    ExtendedErrDecodes(errno, error, pad, info, source);
    SockaddrParsesExactlyItsLayout(source, offender);
  }

  /** The reserved control space holds one padded RECVERR message with either
      address family, and with the wider one there is no byte to spare. */
  lemma RecverrFitsControl(m: Cmsg, a: SockAddr)
    requires |m.data| == EXTENDED_ERR_LEN + SockaddrLen(a)
    ensures AlignUp(m.Len()) <= RECVERR_CONTROL_LEN
    ensures AlignUp(m.Len()) == RECVERR_CONTROL_LEN <==> a.SockV6?
  {
  }
}

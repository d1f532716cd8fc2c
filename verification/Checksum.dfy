/** The Internet checksum (RFC 1071) over a TCP segment and its pseudo-header
    (section 3.1 of RFC 9293, section 8.1 of RFC 8200). */
module Checksum {
  import opened Prelude
  import opened Net

  const TCP_PROTOCOL: nat := 6

  /** The sum of the 16-bit words in network order; an odd last byte is padded with zero. */
  function WordSum(bs: bytes): nat {
    if bs == [] then 0
    else if |bs| == 1 then 256 * bs[0]
    else 256 * bs[0] + bs[1] + WordSum(bs[2..])
  }

  /** End-around carry until the sum fits one word. */
  function Fold(sum: nat): (word: u16)
    ensures word % 0xffff == sum % 0xffff
    ensures word == 0 <==> sum == 0
  {
    if sum < 0x1_0000 then sum
    else
      assert sum == 0xffff * (sum / 0x1_0000) + (sum / 0x1_0000 + sum % 0x1_0000);
      Fold(sum / 0x1_0000 + sum % 0x1_0000)
  }

  function AddressBytes(ip: IpAddr): bytes {
    match ip
    case IpV4(octets) => octets
    case IpV6(groups) => groups
  }

  /** What the pseudo-header adds: both addresses, the protocol and the length. */
  function PseudoSum(source: IpAddr, target: IpAddr, length: nat): (sum: nat)
    ensures sum > 0
  {
    WordSum(AddressBytes(source)) + WordSum(AddressBytes(target)) + TCP_PROTOCOL + length
  }

  /** The checksum of a segment whose checksum field is still zero. */
  function TcpChecksum(source: IpAddr, target: IpAddr, segment: bytes): u16 {
    0xffff - Fold(WordSum(segment) + PseudoSum(source, target, |segment|))
  }

  /** The pseudo-header byte by byte, for the family of the target. */
  function PseudoHeader(source: IpAddr, target: IpAddr, length: nat): bytes {
    if target.IpV4? then AddressBytes(source) + AddressBytes(target) + [0, 6] + BigEndian(length, 2)
    else AddressBytes(source) + AddressBytes(target) + BigEndian(length, 4) + [0, 0, 0, 6]
  }

  /** The receiver's test: all words of pseudo-header and segment, the checksum
      included, add up to ones. */
  predicate Verifies(source: IpAddr, target: IpAddr, segment: bytes) {
    Fold(WordSum(PseudoHeader(source, target, |segment|) + segment)) == 0xffff
  }

  lemma {:induction false} WordSumAppend(a: bytes, b: bytes)
    requires |a| % 2 == 0
    ensures WordSum(a + b) == WordSum(a) + WordSum(b)
  {
    if a == [] {
      assert a + b == b;
    } else {
      WordSumAppend(a[2..], b);
      assert (a + b)[2..] == a[2..] + b;
    }
  }

  lemma WordSumOfField(value: u16)
    ensures WordSum(BigEndian(value, 2)) == value
  {
    assert BigEndian(value, 2) == [value / 256, value % 256];
  }

  lemma WordSumOfFour(a: u8, b: u8, c: u8, d: u8)
    ensures WordSum([a, b, c, d]) == 256 * a + b + 256 * c + d
  {
    WordSumAppend([a, b], [c, d]);
    assert [a, b] + [c, d] == [a, b, c, d];
  }

  lemma LengthBytes(length: u16)
    ensures BigEndian(length, 4) == [0, 0, length / 256, length % 256]
  {
    assert length / 256 / 256 == 0;
    assert BigEndian(0, 2) == [0, 0];
    assert BigEndian(length / 256, 3) == [0, 0, length / 256];
  }

  /** The sender's running sum is the word sum of the receiver's bytes. */
  lemma PseudoHeaderSum(source: IpAddr, target: IpAddr, length: nat)
    requires length < 0x1_0000 && source.IpV4? == target.IpV4?
    ensures WordSum(PseudoHeader(source, target, length)) == PseudoSum(source, target, length)
    ensures |PseudoHeader(source, target, length)| % 2 == 0
  {
    var a, b := AddressBytes(source), AddressBytes(target);
    if target.IpV4? {
      assert BigEndian(length, 2) == [length / 256, length % 256];
      WordSumOfFour(0, 6, length / 256, length % 256);
      assert PseudoHeader(source, target, length) == (a + b) + [0, 6, length / 256, length % 256];
    } else {
      LengthBytes(length);
      WordSumOfFour(0, 0, length / 256, length % 256);
      WordSumOfFour(0, 0, 0, 6);
      WordSumAppend([0, 0, length / 256, length % 256], [0, 0, 0, 6]);
      assert PseudoHeader(source, target, length) == (a + b) + ([0, 0, length / 256, length % 256] + [0, 0, 0, 6]);
    }
    hide WordSum;
    WordSumAppend(a, b);
    if target.IpV4? {
      WordSumAppend(a + b, [0, 6, length / 256, length % 256]);
    } else {
      WordSumAppend(a + b, [0, 0, length / 256, length % 256] + [0, 0, 0, 6]);
    }
  }

  /** Filling in a field of zeros at an even offset adds exactly its value. */
  lemma WordSumFilled(before: bytes, value: u16, after: bytes)
    requires |before| % 2 == 0
    ensures WordSum(before + BigEndian(value, 2) + after) == WordSum(before + BigEndian(0, 2) + after) + value
  {
    WordSumAppend(before + BigEndian(value, 2), after);
    WordSumAppend(before + BigEndian(0, 2), after);
    WordSumAppend(before, BigEndian(value, 2));
    WordSumAppend(before, BigEndian(0, 2));
    WordSumOfField(value);
    WordSumOfField(0);
    hide WordSum;
  }

  /** Any segment an IP packet can carry passes the receiver's test once its zeroed
      checksum field is filled in, wherever at an even offset the field is. */
  lemma ChecksumVerifies(source: IpAddr, target: IpAddr, before: bytes, after: bytes)
    requires |before| % 2 == 0 && |before| + 2 + |after| < 0x1_0000 && source.IpV4? == target.IpV4?
    ensures var checksum := TcpChecksum(source, target, before + BigEndian(0, 2) + after);
            Verifies(source, target, before + BigEndian(checksum, 2) + after)
  {
    hide Fold;
    hide WordSum;
    hide PseudoSum;
    hide PseudoHeader;
    var zeroed := before + BigEndian(0, 2) + after;
    var checksum := TcpChecksum(source, target, zeroed);
    var filled := before + BigEndian(checksum, 2) + after;
    WordSumFilled(before, checksum, after);
    PseudoHeaderSum(source, target, |filled|);
    WordSumAppend(PseudoHeader(source, target, |filled|), filled);
    ComplementFolds(WordSum(zeroed) + PseudoSum(source, target, |zeroed|));
  }

  lemma ComplementFolds(sum: nat)
    requires sum > 0
    ensures Fold(sum + (0xffff - Fold(sum))) == 0xffff
  {
    hide Fold;
    var word := Fold(sum);
    Multiple(sum, word);
    assert Fold(sum + (0xffff - word)) % 0xffff == 0;
  }

  lemma Multiple(sum: nat, word: u16)
    requires word % 0xffff == sum % 0xffff
    ensures (sum + (0xffff - word)) % 0xffff == 0
  {
    assert sum + (0xffff - word) == 0xffff * (sum / 0xffff - word / 0xffff + 1);
  }
}

/** Shared vocabulary: optional values, fixed-width integers as subset types and byte-order codecs. */
module Prelude {

  datatype Option<+T> = None | Some(value: T)

  type u8 = x: int | 0 <= x < 0x100
  type u16 = x: int | 0 <= x < 0x1_0000
  type u32 = x: int | 0 <= x < 0x1_0000_0000
  type u64 = x: int | 0 <= x < 0x1_0000_0000_0000_0000

  type bytes = seq<u8>

  function Pow256(width: nat): (p: nat)
    ensures p > 0
  {
    if width == 0 then 1 else 256 * Pow256(width - 1)
  }

  function LittleEndian(value: nat, width: nat): (bs: bytes)
    ensures |bs| == width
  {
    if width == 0 then [] else [value % 256] + LittleEndian(value / 256, width - 1)
  }

  function FromLittleEndian(bs: bytes): (value: nat)
    ensures value < Pow256(|bs|)
  {
    if bs == [] then 0 else bs[0] + 256 * FromLittleEndian(bs[1..])
  }

  function BigEndian(value: nat, width: nat): (bs: bytes)
    ensures |bs| == width
  {
    if width == 0 then [] else BigEndian(value / 256, width - 1) + [value % 256]
  }

  function FromBigEndian(bs: bytes): (value: nat)
    ensures value < Pow256(|bs|)
  {
    if bs == [] then 0 else FromBigEndian(bs[..|bs| - 1]) * 256 + bs[|bs| - 1]
  }

  lemma {:induction false} LittleEndianDecodes(value: nat, width: nat)
    requires value < Pow256(width)
    ensures FromLittleEndian(LittleEndian(value, width)) == value
  {
    if width > 0 {
      LittleEndianDecodes(value / 256, width - 1);
      assert LittleEndian(value, width)[1..] == LittleEndian(value / 256, width - 1);
    }
  }

  lemma {:induction false} LittleEndianEncodes(bs: bytes)
    ensures LittleEndian(FromLittleEndian(bs), |bs|) == bs
  {
    if bs != [] {
      LittleEndianEncodes(bs[1..]);
      assert FromLittleEndian(bs) / 256 == FromLittleEndian(bs[1..]);
    }
  }

  lemma {:induction false} BigEndianDecodes(value: nat, width: nat)
    requires value < Pow256(width)
    ensures FromBigEndian(BigEndian(value, width)) == value
  {
    if width > 0 {
      BigEndianDecodes(value / 256, width - 1);
      assert BigEndian(value, width)[..width - 1] == BigEndian(value / 256, width - 1);
    }
  }

  lemma {:induction false} BigEndianEncodes(bs: bytes)
    ensures BigEndian(FromBigEndian(bs), |bs|) == bs
  {
    if bs != [] {
      BigEndianEncodes(bs[..|bs| - 1]);
      assert FromBigEndian(bs) / 256 == FromBigEndian(bs[..|bs| - 1]);
    }
  }

  /** The widths in use. */
  lemma Pow256Values()
    ensures Pow256(2) == 0x1_0000
    ensures Pow256(4) == 0x1_0000_0000
    ensures Pow256(8) == 0x1_0000_0000_0000_0000
  {
    assert Pow256(2) == 0x1_0000;
    assert Pow256(4) == 0x1_0000_0000;
    assert Pow256(6) == 0x1_0000_0000_0000;
  }

  /** A `u16` read in big-endian order. */
  function BigEndian16(bs: bytes): (value: u16)
    requires |bs| == 2
  {
    Pow256Values();
    FromBigEndian(bs)
  }

  function BigEndian32(bs: bytes): (value: u32)
    requires |bs| == 4
  {
    Pow256Values();
    FromBigEndian(bs)
  }

  function Native16(bs: bytes): (value: u16)
    requires |bs| == 2
  {
    Pow256Values();
    FromLittleEndian(bs)
  }

  function Native32(bs: bytes): (value: u32)
    requires |bs| == 4
  {
    Pow256Values();
    FromLittleEndian(bs)
  }

  function Native64(bs: bytes): (value: u64)
    requires |bs| == 8
  {
    Pow256Values();
    FromLittleEndian(bs)
  }

  /** Reading a field gives `value` exactly when its bytes are the encoding of `value`. */
  lemma NativeField(bs: bytes, value: nat)
    requires value < Pow256(|bs|)
    ensures LittleEndian(value, |bs|) == bs <==> FromLittleEndian(bs) == value
  {
    LittleEndianDecodes(value, |bs|);
    LittleEndianEncodes(bs);
  }

  lemma NetworkField(bs: bytes, value: nat)
    requires value < Pow256(|bs|)
    ensures BigEndian(value, |bs|) == bs <==> FromBigEndian(bs) == value
  {
    BigEndianDecodes(value, |bs|);
    BigEndianEncodes(bs);
  }

  /** A concatenation is a prefix exactly when each part sits where it should. */
  lemma PrefixSplit<T>(a: seq<T>, b: seq<T>, s: seq<T>)
    requires |a| <= |s|
    ensures a + b <= s <==> s[..|a|] == a && b <= s[|a|..]
  {
    if a + b <= s {
      assert s[..|a|] == (a + b)[..|a|];
      assert s[|a|..][..|b|] == (a + b)[|a|..];
    }
    if s[..|a|] == a && b <= s[|a|..] {
      assert s == s[..|a|] + s[|a|..];
    }
  }
}

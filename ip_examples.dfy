/**
 * The scenarios of ip_test.go and the range edges checked at ip.go:49 and
 * ip.go:64, with the addresses written out as the bytes `net.ParseIP`
 * produces (an IPv4 address parses to its 16-byte IPv4-mapped form).
 */
module IPExamples {
  import opened BigEndian
  import opened IP

  const Word := 0x1_0000_0000

  /** The value of a 16-byte address given as four 4-byte words, most significant first. */
  lemma WordsValue(a: seq<Byte>, b: seq<Byte>, c: seq<Byte>, d: seq<Byte>)
    requires |a| == |b| == |c| == |d| == 4
    ensures Decode(a + b + c + d)
         == Decode(a) * 0x1_0000_0000_0000_0000_0000_0000 + Decode(b) * 0x1_0000_0000_0000_0000
            + Decode(c) * Word + Decode(d)
  {
    assert Pow256(4) == Word;
    DecodeAppend(a, b);
    DecodeAppend(a + b, c);
    DecodeAppend(a + b + c, d);
  }

  /** The value of four bytes. */
  lemma QuadValue(a: Byte, b: Byte, c: Byte, d: Byte)
    ensures Decode([a, b, c, d]) == ((a * 0x100 + b) * 0x100 + c) * 0x100 + d
  {
    assert [a][..0] == [];
    assert Decode([a]) == a;
    assert [a, b][..1] == [a];
    assert Decode([a, b]) == a * 0x100 + b;
    assert [a, b, c][..2] == [a, b];
    assert Decode([a, b, c]) == (a * 0x100 + b) * 0x100 + c;
    assert [a, b, c, d][..3] == [a, b, c];
  }

  /** 256^16 = 2^128. */
  lemma Pow256Of16()
    ensures Pow256(IPv6Len) == 0x1_0000_0000_0000_0000_0000_0000_0000_0000
  {
    assert Pow256(4) == Word;
    assert Pow256(8) == 0x100 * 0x100 * 0x100 * 0x100 * Pow256(4);
    assert Pow256(12) == 0x100 * 0x100 * 0x100 * 0x100 * Pow256(8);
    assert Pow256(16) == 0x100 * 0x100 * 0x100 * 0x100 * Pow256(12);
  }

  /** The IPv4-mapped form of a.b.c.d. */
  function Mapped(a: Byte, b: Byte, c: Byte, d: Byte): (ip: seq<Byte>)
    ensures |ip| == IPv6Len && IPVersion(ip) == 4
    ensures To4(ip) == Some([a, b, c, d])
  {
    assert (V4InV6Prefix + [a, b, c, d])[..12] == V4InV6Prefix;
    V4InV6Prefix + [a, b, c, d]
  }

  const LinkLocalBeef: seq<Byte> := [0xfe, 0x80, 0, 0, 0, 0, 0, 0, 0, 0, 0, 0, 0xde, 0xad, 0xbe, 0xef]
  const LinkLocalBf03: seq<Byte> := [0xfe, 0x80, 0, 0, 0, 0, 0, 0, 0, 0, 0, 0, 0xde, 0xad, 0xbf, 0x03]

  lemma LinkLocalValues()
    ensures Decode(LinkLocalBeef) == 0xfe80_0000_0000_0000_0000_0000_dead_beef
    ensures Decode(LinkLocalBf03) == 0xfe80_0000_0000_0000_0000_0000_dead_bf03
    ensures IPVersion(LinkLocalBeef) == 6 && IPVersion(LinkLocalBf03) == 6
  {
    BeefValue();
    Bf03Value();
    assert LinkLocalBeef[..12][0] != V4InV6Prefix[0];
    assert LinkLocalBf03[..12][0] != V4InV6Prefix[0];
  }

  lemma BeefValue()
    ensures Decode(LinkLocalBeef) == 0xfe80_0000_0000_0000_0000_0000_dead_beef
  {
    var high: seq<Byte>, zero: seq<Byte>, low: seq<Byte> := [0xfe, 0x80, 0, 0], [0, 0, 0, 0], [0xde, 0xad, 0xbe, 0xef];
    QuadValue(0xfe, 0x80, 0, 0);
    QuadValue(0, 0, 0, 0);
    QuadValue(0xde, 0xad, 0xbe, 0xef);
    assert LinkLocalBeef == high + zero + zero + low;
    WordsValue(high, zero, zero, low);
  }

  lemma Bf03Value()
    ensures Decode(LinkLocalBf03) == 0xfe80_0000_0000_0000_0000_0000_dead_bf03
  {
    var high: seq<Byte>, zero: seq<Byte>, low: seq<Byte> := [0xfe, 0x80, 0, 0], [0, 0, 0, 0], [0xde, 0xad, 0xbf, 0x03];
    QuadValue(0xfe, 0x80, 0, 0);
    QuadValue(0, 0, 0, 0);
    QuadValue(0xde, 0xad, 0xbf, 0x03);
    assert LinkLocalBf03 == high + zero + zero + low;
    WordsValue(high, zero, zero, low);
  }

  /** 192.168.1.1 is an IPv4 address (TestVersion). */
  lemma VersionExample()
    ensures IPVersion(Mapped(192, 168, 1, 1)) == 4
    ensures IPVersion([192, 168, 1, 1]) == 4
  {
  }

  /** A 16-byte IPv4 address is the mapped form of the four bytes with its value. */
  lemma MappedByValue(ip: seq<Byte>, a: Byte, b: Byte, c: Byte, d: Byte)
    requires |ip| == IPv6Len && IPVersion(ip) == 4 && IPv4Value(ip) == Decode([a, b, c, d])
    ensures ip == Mapped(a, b, c, d)
  {
    DecodeInjective(To4(ip).value, [a, b, c, d]);
  }

  /** 192.168.1.1 + 20 = 192.168.1.21 (TestIPv4Add). */
  lemma IPv4AddExample()
    ensures IPAdd(Mapped(192, 168, 1, 1), 20) == Ok(Mapped(192, 168, 1, 21))
  {
    QuadValue(192, 168, 1, 1);
    QuadValue(192, 168, 1, 21);
    MappedByValue(IPAdd(Mapped(192, 168, 1, 1), 20).value, 192, 168, 1, 21);
  }

  /** 192.168.1.21 - 20 = 192.168.1.1 (TestIPv4Sub). */
  lemma IPv4SubExample()
    ensures IPSub(Mapped(192, 168, 1, 21), 20) == Ok(Mapped(192, 168, 1, 1))
  {
    QuadValue(192, 168, 1, 21);
    QuadValue(192, 168, 1, 1);
    MappedByValue(IPSub(Mapped(192, 168, 1, 21), 20).value, 192, 168, 1, 1);
  }

  /** fe80::dead:beef + 20 = fe80::dead:bf03 (TestIPv6Add). */
  lemma IPv6AddExample()
    ensures IPAdd(LinkLocalBeef, 20) == Ok(LinkLocalBf03)
  {
    LinkLocalValues();
    DecodeInjective(IPAdd(LinkLocalBeef, 20).value, LinkLocalBf03);
  }

  /** fe80::dead:bf03 - 20 = fe80::dead:beef (TestIPv6Sub). */
  lemma IPv6SubExample()
    ensures IPSub(LinkLocalBf03, 20) == Ok(LinkLocalBeef)
  {
    LinkLocalValues();
    DecodeInjective(IPSub(LinkLocalBf03, 20).value, LinkLocalBeef);
  }

  /** 192.168.1.1 sorts before 192.168.1.20, and each equals itself (TestIPv4Cmp). */
  lemma IPv4CmpExample()
    ensures IPCmp(Mapped(192, 168, 1, 1), Mapped(192, 168, 1, 20)) == Ok(-1)
    ensures IPCmp(Mapped(192, 168, 1, 20), Mapped(192, 168, 1, 1)) == Ok(1)
    ensures IPCmp(Mapped(192, 168, 1, 1), Mapped(192, 168, 1, 1)) == Ok(0)
  {
    QuadValue(192, 168, 1, 1);
    QuadValue(192, 168, 1, 20);
    DecodeAppend(V4InV6Prefix, [192, 168, 1, 1]);
    DecodeAppend(V4InV6Prefix, [192, 168, 1, 20]);
  }

  /** fe80::dead:beef sorts before fe80::dead:bf03 (TestIPv6Cmp). */
  lemma IPv6CmpExample()
    ensures IPCmp(LinkLocalBeef, LinkLocalBf03) == Ok(-1)
    ensures IPCmp(LinkLocalBf03, LinkLocalBeef) == Ok(1)
    ensures IPCmp(LinkLocalBeef, LinkLocalBeef) == Ok(0)
  {
    LinkLocalValues();
  }

  /** An IPv6 and an IPv4 address do not compare (TestIPCmpDiffVersion). */
  lemma CmpDiffVersionExample()
    ensures IPCmp(LinkLocalBeef, Mapped(192, 168, 1, 20)) == Err(0, VersionMismatch(6, 4))
  {
  }

  /** 255.255.255.255 + 1 and 0.0.0.0 - 1 leave the IPv4 range. */
  lemma IPv4BoundaryExamples()
    ensures IPAdd(Mapped(255, 255, 255, 255), 1) == Err([], OutsideIPv4Boundary)
    ensures IPAdd(Mapped(0, 0, 0, 0), -1) == Err([], OutsideIPv4Boundary)
  {
    QuadValue(255, 255, 255, 255);
    QuadValue(0, 0, 0, 0);
  }

  /** ffff:...:ffff + 1 leaves the IPv6 range; the address comes back beside the error. */
  lemma IPv6TopBoundaryExample()
    ensures IPAdd(seq(16, _ => 0xff), 1) == Err(seq(16, _ => 0xff), OutsideIPv6Boundary)
  {
    var top: seq<Byte> := seq(16, _ => 0xff);
    var ones: seq<Byte> := [0xff, 0xff, 0xff, 0xff];
    QuadValue(0xff, 0xff, 0xff, 0xff);
    assert top == ones + ones + ones + ones;
    WordsValue(ones, ones, ones, ones);
    Pow256Of16();
    assert top[..12][0] != V4InV6Prefix[0];
  }

  /** :: - 1 leaves the IPv6 range; the address comes back beside the error. */
  lemma IPv6BottomBoundaryExample()
    ensures IPAdd(Zeros(16), -1) == Err(Zeros(16), OutsideIPv6Boundary)
  {
    ZerosDecodeToZero(16);
    assert Zeros(16)[..12][10] != V4InV6Prefix[10];
  }

  /**
   * An offset of 2^63 - 1 on 0.0.0.1 wraps the int64 sum to -2^63; the
   * range check rejects it, as it rejects the true sum.
   */
  lemma Int64WrapExample()
    ensures Wrap64(1 + MaxInt64) == MinInt64
    ensures IPAdd(Mapped(0, 0, 0, 1), MaxInt64) == Err([], OutsideIPv4Boundary)
  {
  }

  /** The nil branch of doIPv4Move fires only on an address with no IPv4 form. */
  lemma NotIPv4Example()
    ensures DoIPv4Move(LinkLocalBeef, 1) == Err([], NotIPv4)
  {
  }

  /** ::fffe:ffff:ffff, the IPv6 address just below the IPv4-mapped block. */
  const BelowMapped: seq<Byte> := [0, 0, 0, 0, 0, 0, 0, 0, 0, 0, 0xff, 0xfe, 0xff, 0xff, 0xff, 0xff]

  lemma BelowMappedValue()
    ensures Decode(BelowMapped) == MappedLow - 1
  {
    var zero: seq<Byte>, fffe: seq<Byte>, ones: seq<Byte> := [0, 0, 0, 0], [0, 0, 0xff, 0xfe], [0xff, 0xff, 0xff, 0xff];
    QuadValue(0, 0, 0, 0);
    QuadValue(0, 0, 0xff, 0xfe);
    QuadValue(0xff, 0xff, 0xff, 0xff);
    assert BelowMapped == zero + zero + fffe + ones;
    WordsValue(zero, zero, fffe, ones);
  }

  lemma IPv4ZeroValue()
    ensures Decode(IPv4Zero) == MappedLow
  {
    var zero: seq<Byte>, ffff: seq<Byte> := [0, 0, 0, 0], [0, 0, 0xff, 0xff];
    QuadValue(0, 0, 0, 0);
    QuadValue(0, 0, 0xff, 0xff);
    assert IPv4Zero == zero + zero + ffff + zero;
    WordsValue(zero, zero, ffff, zero);
  }

  /**
   * Adding 1 to ::fffe:ffff:ffff gives ::ffff:0.0.0.0, an IPv4 address;
   * subtracting 1 from that then takes the IPv4 path and fails, so
   * subtraction does not undo this addition.
   */
  lemma AddCrossesIntoIPv4()
    ensures IPVersion(BelowMapped) == 6
    ensures IPAdd(BelowMapped, 1) == Ok(IPv4Zero)
    ensures IPVersion(IPv4Zero) == 4
    ensures IPSub(IPAdd(BelowMapped, 1).value, 1) == Err([], OutsideIPv4Boundary)
  {
    AddOneBelowMapped();
    assert IPv4Zero == Mapped(0, 0, 0, 0);
    QuadValue(0, 0, 0, 0);
  }

  lemma AddOneBelowMapped()
    ensures IPVersion(BelowMapped) == 6
    ensures IPAdd(BelowMapped, 1) == Ok(IPv4Zero)
  {
    assert BelowMapped[..12][11] != V4InV6Prefix[11];
    BelowMappedValue();
    IPv4ZeroValue();
    DecodeInjective(IPAdd(BelowMapped, 1).value, IPv4Zero);
  }
}

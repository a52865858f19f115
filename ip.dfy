/**
 * Arithmetic and ordering on IP addresses held as raw byte strings, as Go's
 * `net.IP` holds them: 4 bytes for an IPv4 address, or 16 bytes for an IPv6
 * address or an IPv4 address in IPv4-mapped form (section 2.5.5.2 of
 * RFC 4291: ten zero bytes, two 0xff bytes, then the four IPv4 bytes).
 *
 * Offsets are unbounded integers, as Go's `*big.Int`. Errors are tags, not
 * message text.
 */
module IP {
  import opened BigEndian

  const IPv4Len := 4
  const IPv6Len := 16
  const MaxUint32 := 0xFFFF_FFFF
  const MinInt64 := -0x8000_0000_0000_0000
  const MaxInt64 := 0x7FFF_FFFF_FFFF_FFFF

  /** Go's `int64`. */
  type Int64 = x: int | -0x8000_0000_0000_0000 <= x <= 0x7FFF_FFFF_FFFF_FFFF

  /** The twelve bytes in front of an IPv4 address in its IPv4-mapped IPv6 form. */
  const V4InV6Prefix: seq<Byte> := [0, 0, 0, 0, 0, 0, 0, 0, 0, 0, 0xff, 0xff]

  /** Go's `net.IPv4zero`: 0.0.0.0 in its 16-byte form. */
  const IPv4Zero: seq<Byte> := V4InV6Prefix + [0, 0, 0, 0]

  /** The lengths `net.IP` gives meaning to. */
  predicate ValidLength(ip: seq<Byte>) {
    |ip| == IPv4Len || |ip| == IPv6Len
  }

  /** The errors of ip.go, one tag per `fmt.Errorf` site. */
  datatype IPError =
    | VersionMismatch(one: int, another: int)  // IPCmp: the two versions differ
    | OffsetOutsideIPv4Boundary                // IPAdd: IPv4 offset does not fit in int64
    | OutsideIPv6Boundary                      // doIPv6Move: sum out of [0, 2^128)
    | NotIPv4                                  // doIPv4Move: address has no IPv4 form
    | OutsideIPv4Boundary                      // doIPv4Move: sum out of [0, 2^32)

  /**
   * Go's `(value, error)` pair. A value comes back beside an error too:
   * the untouched address, a zero, or an empty byte string for Go's nil.
   */
  datatype Result<T> = Ok(value: T) | Err(value: T, error: IPError)

  /** A value that may be absent; `To4` uses it for a byte string or Go's nil slice. */
  datatype Option<T> = None | Some(value: T)

  /** `big.Int.IsInt64`. */
  predicate IsInt64(n: int) {
    MinInt64 <= n <= MaxInt64
  }

  predicate IsZeros(s: seq<Byte>) {
    forall i :: 0 <= i < |s| ==> s[i] == 0
  }

  /** The test `net.IP.To4` makes on 16 bytes is a comparison with the IPv4-mapped prefix. */
  lemma MappedPrefixTest(ip: seq<Byte>)
    requires |ip| == IPv6Len
    ensures ip[..12] == V4InV6Prefix <==> IsZeros(ip[..10]) && ip[10] == 0xff && ip[11] == 0xff
  {
    assert forall i :: 0 <= i < 10 ==> ip[..10][i] == ip[..12][i] == ip[i];
    assert ip[..12] == V4InV6Prefix <==> forall i :: 0 <= i < 12 ==> ip[..12][i] == V4InV6Prefix[i];
  }

  /** `net.IP.To4`: the four IPv4 bytes of a 4-byte or IPv4-mapped address, else nil. */
  function To4(ip: seq<Byte>): (r: Option<seq<Byte>>)
    ensures r.Some? <==> |ip| == IPv4Len || (|ip| == IPv6Len && ip[..12] == V4InV6Prefix)
    ensures r.Some? ==> |r.value| == IPv4Len
    ensures r.Some? && |ip| == IPv4Len ==> r.value == ip
    ensures r.Some? && |ip| == IPv6Len ==> ip == V4InV6Prefix + r.value
  {
    if |ip| == IPv4Len then Some(ip)
    else if |ip| == IPv6Len && IsZeros(ip[..10]) && ip[10] == 0xff && ip[11] == 0xff then
      MappedPrefixTest(ip);
      assert ip == ip[..12] + ip[12..16];
      Some(ip[12..16])
    else
      if |ip| == IPv6Len then MappedPrefixTest(ip); None else None
  }

  /** `net.IP.To16`: a 4-byte address is widened to its IPv4-mapped form. */
  function To16(ip: seq<Byte>): (r: seq<Byte>)
    requires ValidLength(ip)
    ensures |r| == IPv6Len
    ensures |ip| == IPv6Len ==> r == ip
    ensures To4(ip).Some? ==> r == V4InV6Prefix + To4(ip).value
  {
    if |ip| == IPv4Len then V4InV6Prefix + ip else ip
  }

  /**
   * `IPVersion`: 4 for an address with an IPv4 form (4 bytes, or 16 bytes
   * with the IPv4-mapped prefix), 6 for any other.
   */
  function IPVersion(ip: seq<Byte>): (v: int)
    ensures v == 4 || v == 6
    ensures v == 4 <==> |ip| == IPv4Len || (|ip| == IPv6Len && ip[..12] == V4InV6Prefix)
  {
    if To4(ip).Some? then 4 else 6
  }

  /** `binary.BigEndian.Uint32(ip.To4())`: the numeric value of an IPv4 address. */
  function IPv4Value(ip: seq<Byte>): (v: nat)
    requires IPVersion(ip) == 4
    ensures v <= MaxUint32
  {
    Decode(To4(ip).value)
  }

  /**
   * `IPCmp`: an error (with 0) when the versions differ; otherwise the
   * lexicographic comparison of the 16-byte forms, which is the order of
   * their numeric values.
   */
  function IPCmp(one: seq<Byte>, another: seq<Byte>): (r: Result<int>)
    requires ValidLength(one) && ValidLength(another)
    ensures r.Err? <==> IPVersion(one) != IPVersion(another)
    ensures r.Err? ==> r.value == 0 && r.error == VersionMismatch(IPVersion(one), IPVersion(another))
    ensures r.Ok? ==> r.value == Sign(Decode(To16(one)) as int - Decode(To16(another)))
  {
    var v1, v2 := IPVersion(one), IPVersion(another);
    if v1 != v2 then
      Err(0, VersionMismatch(v1, v2))
    else
      CompareIsNumeric(To16(one), To16(another));
      Ok(Compare(To16(one), To16(another)))
  }

  /** Two's-complement wrap-around of Go's int64 arithmetic. */
  function Wrap64(x: int): (w: Int64)
    ensures IsInt64(x) ==> w == x
    ensures (x - w) % 0x1_0000_0000_0000_0000 == 0
  {
    (x - MinInt64) % 0x1_0000_0000_0000_0000 + MinInt64
  }

  /**
   * The int64 sum of a uint32 and an int64 can wrap, but only to a negative
   * value, so the range check on the wrapped sum accepts exactly what the
   * range check on the true sum accepts.
   */
  lemma Int64SumCheck(value: nat, num: Int64)
    requires value <= MaxUint32
    ensures 0 <= Wrap64(value + num) <= MaxUint32 <==> 0 <= value + num <= MaxUint32
  {
  }

  /** `binary.BigEndian.PutUint32(buf[off:off+4], x)`, as a new byte string. */
  function PutUint32(buf: seq<Byte>, off: nat, x: nat): (r: seq<Byte>)
    requires off + IPv4Len <= |buf| && x <= MaxUint32
    ensures |r| == |buf|
    ensures r[..off] == buf[..off] && r[off + IPv4Len..] == buf[off + IPv4Len..]
    ensures Decode(r[off..off + IPv4Len]) == x
  {
    assert Pow256(IPv4Len) == MaxUint32 + 1;
    var r := buf[..off] + Encode(x, IPv4Len) + buf[off + IPv4Len..];
    assert r[off..off + IPv4Len] == Encode(x, IPv4Len);
    r
  }

  /**
   * `doIPv4Move`: moves an IPv4 address by an int64 offset. The sum must lie
   * in [0, 2^32 - 1]; the result is the 16-byte IPv4-mapped form.
   */
  function DoIPv4Move(ip: seq<Byte>, num: Int64): (r: Result<seq<Byte>>)
    ensures To4(ip).None? ==> r == Err([], NotIPv4)
    ensures To4(ip).Some? ==> (r.Ok? <==> 0 <= Decode(To4(ip).value) + num <= MaxUint32)
    ensures To4(ip).Some? && r.Err? ==> r == Err([], OutsideIPv4Boundary)
    ensures To4(ip).Some? && r.Ok? ==>
      |r.value| == IPv6Len && r.value[..12] == V4InV6Prefix &&
      Decode(r.value[12..]) == Decode(To4(ip).value) + num
  {
    match To4(ip)
    case None => Err([], NotIPv4)
    case Some(v4) =>
      var value := Decode(v4);
      var value64 := Wrap64(value + num);
      Int64SumCheck(value, num);
      if 0 <= value64 <= MaxUint32 then
        var result := PutUint32(IPv4Zero, 12, value64 % 0x1_0000_0000);
        assert result[12..] == result[12..16];
        Ok(result)
      else
        Err([], OutsideIPv4Boundary)
  }

  /**
   * `doIPv6Move`: reads the bytes as an unsigned big-endian number, adds the
   * offset, and requires the sum to lie in [0, 2^128); the result is the sum
   * in 16 bytes. On failure the address comes back unchanged beside the error.
   */
  function DoIPv6Move(ip: seq<Byte>, num: int): (r: Result<seq<Byte>>)
    ensures r.Ok? <==> 0 <= Decode(ip) + num < Pow256(IPv6Len)
    ensures r.Ok? ==> |r.value| == IPv6Len && Decode(r.value) == Decode(ip) + num
    ensures r.Err? ==> r == Err(ip, OutsideIPv6Boundary)
  {
    var result := Decode(ip) + num;
    var byteResult := MinimalBytes(if result < 0 then -result else result);
    MinimalBytesFits(if result < 0 then -result else result, IPv6Len);
    if result < 0 || |byteResult| > IPv6Len then
      Err(ip, OutsideIPv6Boundary)
    else
      LeadingZeros(IPv6Len - |byteResult|, byteResult);
      Ok(Zeros(IPv6Len - |byteResult|) + byteResult)
  }

  /**
   * `IPAdd`: moves an address by a signed offset. An IPv4 address moves
   * within [0, 2^32 - 1] and comes back in 16-byte IPv4-mapped form (an
   * offset outside int64 is refused up front); any other address moves
   * within [0, 2^128). In both cases the 16-byte result is the 16-byte form
   * of the input plus the offset.
   */
  function IPAdd(ip: seq<Byte>, num: int): (r: Result<seq<Byte>>)
    requires ValidLength(ip)
    ensures IPVersion(ip) == 4 && !IsInt64(num) ==> r == Err(ip, OffsetOutsideIPv4Boundary)
    ensures IPVersion(ip) == 4 ==> (r.Ok? <==> 0 <= IPv4Value(ip) + num <= MaxUint32)
    ensures IPVersion(ip) == 4 && IsInt64(num) && r.Err? ==> r == Err([], OutsideIPv4Boundary)
    ensures IPVersion(ip) == 4 && r.Ok? ==>
      IPVersion(r.value) == 4 && IPv4Value(r.value) == IPv4Value(ip) + num
    ensures IPVersion(ip) == 6 ==> (r.Ok? <==> 0 <= Decode(ip) + num < Pow256(IPv6Len))
    ensures IPVersion(ip) == 6 && r.Err? ==> r == Err(ip, OutsideIPv6Boundary)
    ensures r.Ok? ==> |r.value| == IPv6Len && Decode(r.value) == Decode(To16(ip)) + num
    ensures r.Err? ==> r.error != NotIPv4
  {
    if To4(ip).Some? then
      if IsInt64(num) then
        var r := DoIPv4Move(ip, num);
        if r.Ok? then
          assert r.value == V4InV6Prefix + r.value[12..];
          DecodeAppend(V4InV6Prefix, r.value[12..]);
          DecodeAppend(V4InV6Prefix, To4(ip).value);
          r
        else
          r
      else
        Err(ip, OffsetOutsideIPv4Boundary)
    else
      DoIPv6Move(ip, num)
  }

  /** `IPSub`: `IPAdd` with the offset negated. */
  function IPSub(ip: seq<Byte>, num: int): (r: Result<seq<Byte>>)
    requires ValidLength(ip)
    ensures IPVersion(ip) == 4 ==> (r.Ok? <==> 0 <= IPv4Value(ip) - num <= MaxUint32)
    ensures IPVersion(ip) == 6 ==> (r.Ok? <==> 0 <= Decode(ip) - num < Pow256(IPv6Len))
    ensures r.Ok? ==> |r.value| == IPv6Len && Decode(r.value) == Decode(To16(ip)) - num
    ensures IPVersion(ip) == 4 && r.Err? ==>
      r == if IsInt64(-num) then Err([], OutsideIPv4Boundary) else Err(ip, OffsetOutsideIPv4Boundary)
    ensures IPVersion(ip) == 6 && r.Err? ==> r == Err(ip, OutsideIPv6Boundary)
  {
    IPAdd(ip, -num)
  }

  /** Widening to 16 bytes keeps the version. */
  lemma To16KeepsVersion(ip: seq<Byte>)
    requires ValidLength(ip)
    ensures IPVersion(To16(ip)) == IPVersion(ip)
  {
  }

  /** An address compares equal to itself. */
  lemma IPCmpReflexive(a: seq<Byte>)
    requires ValidLength(a)
    ensures IPCmp(a, a) == Ok(0)
  {
  }

  /** Swapping the operands negates the result, and an error stays an error. */
  lemma IPCmpAntisymmetric(a: seq<Byte>, b: seq<Byte>)
    requires ValidLength(a) && ValidLength(b)
    ensures IPCmp(b, a).Err? == IPCmp(a, b).Err?
    ensures IPCmp(b, a).value == -IPCmp(a, b).value
  {
  }

  /** "Sorts before" is transitive. */
  lemma IPCmpTransitive(a: seq<Byte>, b: seq<Byte>, c: seq<Byte>)
    requires ValidLength(a) && ValidLength(b) && ValidLength(c)
    requires IPCmp(a, b) == Ok(-1) && IPCmp(b, c) == Ok(-1)
    ensures IPCmp(a, c) == Ok(-1)
  {
  }

  /** Two addresses compare equal exactly when their 16-byte forms are the same bytes. */
  lemma IPCmpEqual(a: seq<Byte>, b: seq<Byte>)
    requires ValidLength(a) && ValidLength(b)
    ensures IPCmp(a, b) == Ok(0) <==> To16(a) == To16(b)
  {
  }

  /** The prefix read as a number is 0xffff. */
  lemma PrefixValue()
    ensures Decode(V4InV6Prefix) == 0xFFFF
  {
    assert V4InV6Prefix == Zeros(10) + [0xff, 0xff];
    LeadingZeros(10, [0xff, 0xff]);
    assert [0xff, 0xff][..1] == [0xff];
  }

  /** The value of ::ffff:0.0.0.0, the lowest IPv4-mapped address. */
  const MappedLow := 0xFFFF_0000_0000

  /**
   * A 16-byte address is an IPv4 one exactly when its value lies in the
   * IPv4-mapped block ::ffff:0.0.0.0 to ::ffff:255.255.255.255.
   */
  lemma MappedBlock(s: seq<Byte>)
    requires |s| == IPv6Len
    ensures IPVersion(s) == 4 <==> MappedLow <= Decode(s) <= MappedLow + MaxUint32
  {
    var head, tail := s[..12], s[12..];
    assert s == head + tail;
    DecodeAppend(head, tail);
    DecodeInjective(head, V4InV6Prefix);
    PrefixValue();
    assert Pow256(4) == MaxUint32 + 1;
    WithinBlock(Decode(head), Decode(tail), 0xFFFF, MaxUint32 + 1);
  }

  /** With 0 <= low < w, high * w + low lies in block c of width w exactly when high == c. */
  lemma WithinBlock(high: nat, low: nat, c: nat, w: nat)
    requires low < w
    ensures c * w <= high * w + low < c * w + w <==> high == c
  {
    if high < c {
      var d: nat := c - high - 1;
      assert c * w == high * w + w + d * w;
    } else if high > c {
      var d: nat := high - c - 1;
      assert high * w == c * w + w + d * w;
    }
  }

  /**
   * Moving an IPv6 address yields an IPv4 one exactly when the sum lands in
   * the IPv4-mapped block; a move of an IPv4 address always stays IPv4.
   */
  lemma AddResultVersion(ip: seq<Byte>, num: int)
    requires ValidLength(ip) && IPAdd(ip, num).Ok?
    ensures IPVersion(ip) == 4 ==> IPVersion(IPAdd(ip, num).value) == 4
    ensures IPVersion(ip) == 6 ==>
      (IPVersion(IPAdd(ip, num).value) == 4 <==> MappedLow <= Decode(ip) + num <= MappedLow + MaxUint32)
  {
    MappedBlock(IPAdd(ip, num).value);
  }

  /**
   * Subtracting an offset undoes adding it, giving back the 16-byte form of
   * the address, as long as the add did not move the address across the
   * edge of the IPv4-mapped block (which an IPv4 address never does).
   */
  lemma SubUndoesAdd(ip: seq<Byte>, num: int)
    requires ValidLength(ip) && IPAdd(ip, num).Ok?
    requires IPVersion(IPAdd(ip, num).value) == IPVersion(ip)
    ensures IPSub(IPAdd(ip, num).value, num) == Ok(To16(ip))
  {
    var moved := IPAdd(ip, num).value;
    var back := IPSub(moved, num);
    DecodeInjective(back.value, To16(ip));
  }

  /**
   * Conversely, when the add moved the address across the edge of the
   * IPv4-mapped block, subtracting the offset fails: the moved address takes
   * the IPv4 path, and the original lies outside the block.
   */
  lemma AddChangingVersionIsNotUndone(ip: seq<Byte>, num: int)
    requires ValidLength(ip) && IPAdd(ip, num).Ok?
    requires IPVersion(IPAdd(ip, num).value) != IPVersion(ip)
    ensures IPVersion(ip) == 6 && IPVersion(IPAdd(ip, num).value) == 4
    ensures IPSub(IPAdd(ip, num).value, num).Err?
  {
    var moved := IPAdd(ip, num).value;
    AddResultVersion(ip, num);
    MappedBlock(ip);
    assert moved == V4InV6Prefix + To4(moved).value;
    DecodeAppend(V4InV6Prefix, To4(moved).value);
    PrefixValue();
    assert Pow256(4) == MaxUint32 + 1;
  }
}

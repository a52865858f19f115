/**
 * Unsigned big-endian byte strings and their numeric values.
 *
 * These are the library pieces the address arithmetic leans on:
 * `big.Int.SetBytes` and `binary.BigEndian.Uint32` (Decode),
 * `binary.BigEndian.PutUint32` (Encode at width 4), `big.Int.Bytes`
 * (MinimalBytes) and `bytes.Compare` (Compare).
 */
module BigEndian {

  /** An octet, as Go's `byte`. */
  type Byte = b: int | 0 <= b < 0x100

  /** 256^n: one more than the largest value n bytes can hold. */
  function Pow256(n: nat): (p: nat)
    ensures p >= 1
  {
    if n == 0 then 1 else 0x100 * Pow256(n - 1)
  }

  /** -1, 0 or 1 according to the sign of x. */
  function Sign(x: int): (s: int)
    ensures s == -1 <==> x < 0
    ensures s == 0 <==> x == 0
    ensures s == 1 <==> x > 0
  {
    if x < 0 then -1 else if x > 0 then 1 else 0
  }

  /** `n` zero bytes. */
  function Zeros(n: nat): (z: seq<Byte>)
    ensures |z| == n
    ensures forall i :: 0 <= i < n ==> z[i] == 0
  {
    seq(n, _ => 0)
  }

  /** The unsigned number whose big-endian (most significant byte first) digits are `s`. */
  function Decode(s: seq<Byte>): (v: nat)
    ensures v < Pow256(|s|)
  {
    if s == [] then 0 else 0x100 * Decode(s[..|s| - 1]) + s[|s| - 1]
  }

  /** The big-endian representation of `v` in exactly `width` bytes, left-padded with zeros. */
  function Encode(v: nat, width: nat): (s: seq<Byte>)
    requires v < Pow256(width)
    ensures |s| == width
    ensures Decode(s) == v
  {
    if width == 0 then [] else
      var init := Encode(v / 0x100, width - 1);
      assert (init + [v % 0x100])[..width - 1] == init;
      init + [v % 0x100]
  }

  /** Decoding a byte string and re-encoding it at its own width gives it back. */
  lemma {:induction false} EncodeDecode(s: seq<Byte>)
    ensures Encode(Decode(s), |s|) == s
  {
    if s != [] {
      var n, init, last := |s|, s[..|s| - 1], s[|s| - 1];
      var v := Decode(s);
      assert v == 0x100 * Decode(init) + last;
      assert v / 0x100 == Decode(init) && v % 0x100 == last;
      EncodeDecode(init);
      assert Encode(v, n) == Encode(Decode(init), n - 1) + [last];
      assert s == init + [last];
    }
  }

  /** Two byte strings of one length with the same value are the same string. */
  lemma DecodeInjective(a: seq<Byte>, b: seq<Byte>)
    requires |a| == |b|
    ensures Decode(a) == Decode(b) <==> a == b
  {
  }

  /** Appending `b` shifts the value of `a` left by |b| bytes. */
  lemma {:induction false} DecodeAppend(a: seq<Byte>, b: seq<Byte>)
    ensures Decode(a + b) == Decode(a) * Pow256(|b|) + Decode(b)
  {
    if b == [] {
      assert a + b == a;
    } else {
      var n := |b|;
      var init := b[..n - 1];
      assert (a + b)[..|a + b| - 1] == a + init;
      DecodeAppend(a, init);
      ShiftByte(Decode(a), Pow256(n - 1), Decode(init), b[n - 1]);
    }
  }

  lemma ShiftByte(d: int, p: int, rest: int, last: int)
    ensures 0x100 * (d * p + rest) + last == d * (0x100 * p) + (0x100 * rest + last)
  {
  }

  /** Leading zero bytes do not change the value. */
  lemma LeadingZeros(n: nat, s: seq<Byte>)
    ensures Decode(Zeros(n) + s) == Decode(s)
  {
    DecodeAppend(Zeros(n), s);
    ZerosDecodeToZero(n);
  }

  lemma {:induction false} ZerosDecodeToZero(n: nat)
    ensures Decode(Zeros(n)) == 0
  {
    if n > 0 {
      assert Zeros(n)[..n - 1] == Zeros(n - 1);
      ZerosDecodeToZero(n - 1);
    }
  }

  /**
   * The shortest big-endian representation of `x`, as `big.Int.Bytes`
   * returns it: no leading zero byte, and empty for zero.
   */
  function MinimalBytes(x: nat): (s: seq<Byte>)
    ensures Decode(s) == x
    ensures s == [] <==> x == 0
    ensures s != [] ==> s[0] != 0
  {
    if x == 0 then [] else
      var init := MinimalBytes(x / 0x100);
      assert (init + [x % 0x100])[..|init|] == init;
      init + [x % 0x100]
  }

  /** The minimal representation fits in `w` bytes exactly when the value is below 256^w. */
  lemma {:induction false} MinimalBytesFits(x: nat, w: nat)
    ensures |MinimalBytes(x)| <= w <==> x < Pow256(w)
  {
    if x != 0 && w != 0 {
      MinimalBytesFits(x / 0x100, w - 1);
    }
  }

  /** Left-padding the minimal representation to `w` bytes gives the width-`w` encoding. */
  lemma PaddedMinimalBytes(x: nat, w: nat)
    requires x < Pow256(w)
    ensures |MinimalBytes(x)| <= w
    ensures Zeros(w - |MinimalBytes(x)|) + MinimalBytes(x) == Encode(x, w)
  {
    MinimalBytesFits(x, w);
    var m := MinimalBytes(x);
    LeadingZeros(w - |m|, m);
    DecodeInjective(Zeros(w - |m|) + m, Encode(x, w));
  }

  /**
   * Lexicographic comparison of two byte strings, as Go's `bytes.Compare`:
   * -1 when `a` sorts first, 0 when they are equal, 1 otherwise; a proper
   * prefix sorts first.
   */
  function Compare(a: seq<Byte>, b: seq<Byte>): (c: int)
    ensures -1 <= c <= 1
    ensures c == 0 <==> a == b
  {
    if a == [] then (if b == [] then 0 else -1)
    else if b == [] then 1
    else if a[0] < b[0] then -1
    else if a[0] > b[0] then 1
    else
      var c := Compare(a[1..], b[1..]);
      assert a == [a[0]] + a[1..] && b == [b[0]] + b[1..];
      c
  }

  /** Swapping the operands negates the comparison. */
  lemma {:induction false} CompareAntisymmetric(a: seq<Byte>, b: seq<Byte>)
    ensures Compare(b, a) == -Compare(a, b)
  {
    if a != [] && b != [] && a[0] == b[0] {
      CompareAntisymmetric(a[1..], b[1..]);
    }
  }

  /** "Sorts before" is transitive. */
  lemma {:induction false} CompareTransitive(a: seq<Byte>, b: seq<Byte>, c: seq<Byte>)
    requires Compare(a, b) == -1 && Compare(b, c) == -1
    ensures Compare(a, c) == -1
  {
    if a != [] && a[0] == b[0] && b[0] == c[0] {
      CompareTransitive(a[1..], b[1..], c[1..]);
    }
  }

  /** On strings of one length, the comparison is decided by the prefix unless it ties, then by the last byte. */
  lemma {:induction false} CompareByLast(a: seq<Byte>, b: seq<Byte>)
    requires |a| == |b| > 0
    ensures var n := |a|;
      Compare(a, b) ==
        if Compare(a[..n - 1], b[..n - 1]) != 0 then Compare(a[..n - 1], b[..n - 1])
        else Sign(a[n - 1] as int - b[n - 1])
  {
    var n := |a|;
    if n > 1 && a[0] == b[0] {
      CompareByLast(a[1..], b[1..]);
      assert a[1..][..n - 2] == a[..n - 1][1..];
      assert b[1..][..n - 2] == b[..n - 1][1..];
    }
  }

  /**
   * On strings of one length the lexicographic order is the numeric order
   * of their big-endian values.
   */
  lemma {:induction false} CompareIsNumeric(a: seq<Byte>, b: seq<Byte>)
    requires |a| == |b|
    ensures Compare(a, b) == Sign(Decode(a) as int - Decode(b))
  {
    if a != [] {
      var n := |a|;
      CompareByLast(a, b);
      CompareIsNumeric(a[..n - 1], b[..n - 1]);
    }
  }
}

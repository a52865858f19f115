# gonet IP arithmetic in Dafny

A model of `ip.go` of the Go package `gonet`. The package does integer
arithmetic and ordering on IP addresses held as Go `net.IP` byte slices.

- **`IPVersion`** calls an address IPv4 when it has an IPv4 form. That means 4 bytes, or 16 bytes in the
  IPv4-mapped form of section 2.5.5.2 of RFC 4291 (ten zero bytes, then `0xff 0xff`). Every other
  address is IPv6.
- **`IPCmp`** refuses two addresses of different versions. Otherwise it compares their 16-byte forms
  lexicographically (`bytes.Compare`).
- **`IPAdd`** moves an address by an arbitrary-precision signed offset. An IPv4 address must get an
  offset that fits in int64. It is moved in int64 arithmetic and must stay within `[0, 2^32 - 1]`. The
  result comes back in 16-byte IPv4-mapped form. Any other address is read as a 128-bit big-endian
  number and must stay within `[0, 2^128)`. The result comes back as 16 zero-padded bytes.
- **`IPSub`** is `IPAdd` with the offset negated.

Files:

- `big_endian.dfy` (module `BigEndian`) holds bytes as integers below 256 and their big-endian values.
  `Decode` stands for `big.Int.SetBytes` and `binary.BigEndian.Uint32`. `Encode` stands for the
  fixed-width writes. `MinimalBytes` stands for `big.Int.Bytes`. `Compare` stands for `bytes.Compare`.
  The module proves the round trips, injectivity, and that lexicographic order equals numeric order on
  strings of one length.
- `ip.dfy` (module `IP`) holds the functions of `ip.go` and the properties proved about them.
- `ip_examples.dfy` (module `IPExamples`) restates the scenarios of `ip_test.go` and the boundary cases
  as lemmas over byte literals. `net.ParseIP` turns an IPv4 address into its 16-byte IPv4-mapped form,
  so the examples write it that way.

Go returns a pair `(value, error)`. The model returns `Result<T> = Ok(value) | Err(value, error)`, so
the value returned beside an error is kept. That value is the untouched address, a zero, or `[]` for
Go's nil. Each `fmt.Errorf` site is one `IPError` tag. `net.IP.To4` is modelled as `IP.To4`, returning
`Option` (nil is `None`), and `net.IP.To16` as `IP.To16`. int64 wrap-around is written out in
`IP.Wrap64`.

The add/sub test pairs of `ip_test.go` (lines 16-54) move an address forward and back again, so
one would expect `Sub(Add(a, n), n) = a` whenever the add succeeds. The code gives that only in part:

- A successful move always returns a 16-byte address. A 4-byte IPv4 input therefore comes back in its
  16-byte form. `IP.SubUndoesAdd` gives back `To16(a)`.
- An IPv6 move can land in the IPv4-mapped block `::ffff:0.0.0.0` to `::ffff:255.255.255.255`. The
  result then counts as IPv4, and the subtraction takes the IPv4 path. Example: `::fffe:ffff:ffff` + 1
  = `::ffff:0.0.0.0`, and subtracting 1 from that fails with the IPv4 range error
  (`IPExamples.AddCrossesIntoIPv4`). `IP.AddResultVersion` says exactly when the version changes.
  `IP.SubUndoesAdd` covers the adds that keep the version, and `IP.AddChangingVersionIsNotUndone`
  proves that every add that changes it cannot be undone. An IPv4 move always keeps it.

A successful IPv4 move also writes into `net.IPv4zero`, a buffer shared by the whole program, so the
results of IPv4 moves are shared mutable state (see Left out).

## Model

| member | source | states |
|---|---|---|
| BigEndian.Decode | ip.go:46 | the big-endian value of n bytes is below 256^n |
| BigEndian.Encode | ip.go:66 | the width-w encoding has w bytes and decodes back to the value |
| BigEndian.EncodeDecode | ip.go:62 | re-encoding a decoded string at its own width gives it back |
| BigEndian.DecodeInjective | ip.go:27 | two strings of one length have the same value exactly when they are equal |
| BigEndian.DecodeAppend | ip.go:65-66 | the value of a + b is value(a) * 256^|b| + value(b), e.g. the mapped prefix followed by the IPv4 bytes |
| BigEndian.LeadingZeros | ip.go:52-53 | leading zero bytes do not change the value |
| BigEndian.MinimalBytes | ip.go:48 | `big.Int.Bytes`: decodes to x, is empty exactly for zero, and has no leading zero byte |
| BigEndian.MinimalBytesFits | ip.go:49 | the minimal bytes of x fit in w bytes exactly when x < 256^w |
| BigEndian.PaddedMinimalBytes | ip.go:52-53 | left-padding the minimal bytes with zeros to w bytes gives the width-w encoding |
| BigEndian.Compare | ip.go:27 | `bytes.Compare` returns -1, 0 or 1, and 0 exactly when the strings are equal |
| BigEndian.CompareAntisymmetric | ip.go:27 | swapping the operands negates the comparison |
| BigEndian.CompareTransitive | ip.go:27 | a before b and b before c imply a before c |
| BigEndian.CompareIsNumeric | ip.go:27 | on strings of one length, lexicographic order is the order of the big-endian values |
| IP.To4 | ip.go:14 | there is an IPv4 form exactly for 4 bytes or the 16-byte mapped form, and it is the last four bytes |
| IP.MappedPrefixTest | ip.go:14 | the byte test `To4` makes on 16 bytes (ten zeros, then 0xff 0xff) is equality with the IPv4-mapped prefix |
| IP.To16 | ip.go:27 | the 16-byte form is the address itself, or the mapped prefix followed by the IPv4 bytes |
| IP.IPVersion | ip.go:13-18 | 4 exactly for 4 bytes or 16 bytes starting with the IPv4-mapped prefix, else 6 |
| IP.IPv4Value | ip.go:62 | the uint32 value of the IPv4 bytes is at most 2^32 - 1 |
| IP.IPCmp | ip.go:20-28 | errors (with 0) exactly when the versions differ; otherwise the sign of the difference of the 16-byte values |
| IP.Wrap64 | ip.go:63 | the int64 result is congruent to the sum modulo 2^64 and equals it when it fits |
| IP.Int64SumCheck | ip.go:62-64 | the range check on the wrapped int64 sum accepts exactly the offsets the unbounded check accepts |
| IP.PutUint32 | ip.go:65-66 | only bytes off..off+3 change, and they hold x big-endian |
| IP.DoIPv4Move | ip.go:57-70 | nil error when there is no IPv4 form; otherwise succeeds exactly when 0 <= v + n <= 2^32 - 1, with the mapped prefix and v + n in the last four bytes |
| IP.DoIPv6Move | ip.go:45-55 | succeeds exactly when 0 <= V + n < 2^128, with 16 bytes of value V + n; otherwise returns the address beside the error |
| IP.IPAdd | ip.go:30-38 | the success condition and error of each path; a successful result is 16 bytes whose value is the 16-byte input's value plus n; an IPv4 result stays IPv4; the nil branch never fires |
| IP.IPSub | ip.go:40-43 | succeeds exactly when the address minus n is in range, and the result's value is the 16-byte input's value minus n; on failure, IPAdd's error tag for offset -n and the value returned beside it |
| IP.To16KeepsVersion | ip.go:27 | widening to 16 bytes keeps the version |
| IP.IPCmpReflexive | ip.go:27 | an address compares equal to itself |
| IP.IPCmpAntisymmetric | ip.go:20-27 | swapping the operands keeps an error an error and negates the result |
| IP.IPCmpTransitive | ip.go:27 | less-than is transitive |
| IP.IPCmpEqual | ip.go:27 | two addresses compare equal exactly when their 16-byte forms are identical |
| IP.PrefixValue | ip.go:14 | the IPv4-mapped prefix has value 0xffff |
| IP.MappedBlock | ip.go:13-18 | a 16-byte address is IPv4 exactly when its value lies in ::ffff:0.0.0.0 to ::ffff:255.255.255.255 |
| IP.AddResultVersion | ip.go:30-38 | an IPv4 move stays IPv4; an IPv6 move yields IPv4 exactly when the sum lands in the mapped block |
| IP.SubUndoesAdd | ip.go:40-43 | subtracting n after a successful version-keeping add of n gives back the 16-byte form of the address |
| IP.AddChangingVersionIsNotUndone | ip.go:30-43 | an add that changes the version moves an IPv6 address into the mapped block, and subtracting n from the result then fails |
| IPExamples.VersionExample | ip_test.go:9-14 | 192.168.1.1 is version 4, in 16-byte and in 4-byte form |
| IPExamples.IPv4AddExample | ip_test.go:16-24 | 192.168.1.1 + 20 = 192.168.1.21 |
| IPExamples.IPv6AddExample | ip_test.go:26-34 | fe80::dead:beef + 20 = fe80::dead:bf03 |
| IPExamples.IPv4SubExample | ip_test.go:36-44 | 192.168.1.21 - 20 = 192.168.1.1 |
| IPExamples.IPv6SubExample | ip_test.go:46-54 | fe80::dead:bf03 - 20 = fe80::dead:beef |
| IPExamples.IPv4CmpExample | ip_test.go:56-77 | 192.168.1.1 is before 192.168.1.20, after in reverse, and equal to itself |
| IPExamples.IPv6CmpExample | ip_test.go:79-100 | fe80::dead:beef is before fe80::dead:bf03, after in reverse, and equal to itself |
| IPExamples.CmpDiffVersionExample | ip_test.go:102-108 | comparing fe80::dead:beef with 192.168.1.20 is a version-mismatch error |
| IPExamples.IPv4BoundaryExamples | ip.go:64-69 | 255.255.255.255 + 1 and 0.0.0.0 - 1 fail with the IPv4 range error and nil |
| IPExamples.IPv6TopBoundaryExample | ip.go:49-50 | ffff:...:ffff + 1 fails with the IPv6 range error and returns the address |
| IPExamples.IPv6BottomBoundaryExample | ip.go:49-50 | :: - 1 fails with the IPv6 range error and returns the address |
| IPExamples.Int64WrapExample | ip.go:63-64 | 1 + (2^63 - 1) wraps to -2^63 in int64, and the move is refused |
| IPExamples.NotIPv4Example | ip.go:58-61 | doIPv4Move on an address with no IPv4 form returns nil and the not-IPv4 error |
| IPExamples.AddCrossesIntoIPv4 | ip.go:30-43 | ::fffe:ffff:ffff + 1 = ::ffff:0.0.0.0, which is IPv4, and subtracting 1 from it fails |

## Left out

- Text conversion (`net.ParseIP`, `net.IP.String`) is not modelled. Addresses are byte sequences, and the test scenarios are written as byte literals.
- `fmt.Errorf` message text is not modelled. Each error is a tag. `VersionMismatch` carries the two versions but not the printable addresses.
- IP.DoIPv4Move: returns a fresh sequence. In Go, `result := net.IPv4zero` followed by `PutUint32(result[12:16], …)` writes into the package-wide `net.IPv4zero` buffer. Every successful IPv4 result therefore aliases that one buffer. A later call overwrites earlier results and `net.IPv4zero` itself, and concurrent calls race. This shared mutable state is not reproduced.
- IP.IPCmp, IP.IPAdd, IP.IPSub: require 4 or 16 bytes. For other lengths `To4` and `To16` return nil, and `IPAdd` would read whatever bytes it is given. `IP.IPVersion` and `IP.To4` accept any length.
- `math/big`, `encoding/binary` and `net` are not modelled as libraries. Their role is played by unbounded `int` and by `BigEndian.Decode`, `BigEndian.Encode` and `BigEndian.MinimalBytes`, with `IP.IsInt64` for `big.Int.IsInt64` (ip.go:32) and the constant `IP.IPv4Zero` for `net.IPv4zero` (ip.go:65).
- Go's distinction between a nil slice and an empty slice is not kept: nil is `[]`.

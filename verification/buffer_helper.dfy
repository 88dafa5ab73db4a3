/** Fixed-width integers, variable-length integers and length-prefixed byte
    strings: the primitives every codec of the store is written in.

    The byte layout chosen here (little-endian fixed widths, 7-bit groups
    with a continuation bit for varints) is one concrete layout; the rest of
    the model relies only on the prefix round trip proved below
    (`read(write(x) + rest) == Some((x, rest))`) and on reads failing on a
    buffer that is too short. */
module BufferHelper {

  datatype Option<+T> = None | Some(value: T)

  type byte = x: int | 0 <= x < 256
  type Blob = seq<byte>

  const UINT32_LIMIT: nat := 0x1_0000_0000
  const UINT64_LIMIT: nat := 0x1_0000_0000_0000_0000
  const INT64_HALF: nat := 0x8000_0000_0000_0000

  type uint32 = x: int | 0 <= x < 0x1_0000_0000
  type uint64 = x: int | 0 <= x < 0x1_0000_0000_0000_0000
  type int64 = x: int | -0x8000_0000_0000_0000 <= x < 0x8000_0000_0000_0000

  /** True when `p` is a prefix of `s`. */
  predicate IsPrefix(p: Blob, s: Blob) {
    |p| <= |s| && s[..|p|] == p
  }

  /** Three-way comparison of two byte strings, as Slice::compare makes it:
      the first differing byte decides (unsigned), otherwise the shorter one
      is less. Slice::compare returns a memcmp-style value of any magnitude,
      which ardb_compare_keys passes on as it is; callers use only its sign,
      so the model returns -1, 0 or 1. */
  function CompareBytes(a: Blob, b: Blob): (r: int)
    ensures -1 <= r <= 1
    ensures r == 0 <==> a == b
  {
    if a == [] && b == [] then 0
    else if a == [] then -1
    else if b == [] then 1
    else if a[0] < b[0] then -1
    else if a[0] > b[0] then 1
    else
      assert a == [a[0]] + a[1..] && b == [b[0]] + b[1..];
      CompareBytes(a[1..], b[1..])
  }

  lemma {:induction false} CompareBytesAntisymmetric(a: Blob, b: Blob)
    ensures CompareBytes(a, b) == -CompareBytes(b, a)
  {
    if a != [] && b != [] && a[0] == b[0] {
      CompareBytesAntisymmetric(a[1..], b[1..]);
    }
  }

  lemma {:induction false} CompareBytesTransitive(a: Blob, b: Blob, c: Blob)
    ensures CompareBytes(a, b) <= 0 && CompareBytes(b, c) <= 0 ==> CompareBytes(a, c) <= 0
    ensures CompareBytes(a, b) < 0 && CompareBytes(b, c) <= 0 ==> CompareBytes(a, c) < 0
    ensures CompareBytes(a, b) <= 0 && CompareBytes(b, c) < 0 ==> CompareBytes(a, c) < 0
  {
    if a != [] && b != [] && c != [] && a[0] == b[0] == c[0] {
      CompareBytesTransitive(a[1..], b[1..], c[1..]);
    }
  }

  /** A string sorts no later than every string it is a prefix of. */
  lemma {:induction false} PrefixSortsFirst(p: Blob, s: Blob)
    requires IsPrefix(p, s)
    ensures CompareBytes(p, s) <= 0
  {
    if p != [] {
      assert s[..|p|][0] == s[0];
      assert s[1..][..|p| - 1] == s[..|p|][1..];
      PrefixSortsFirst(p[1..], s[1..]);
    }
  }

  // ---------------------------------------------------------------------
  // Fixed-width unsigned integers, little-endian.

  function Pow256(n: nat): (r: nat)
    ensures r > 0
  {
    if n == 0 then 1 else 256 * Pow256(n - 1)
  }

  /** The number a little-endian byte string stands for. */
  function FixedValue(s: Blob): (v: nat)
    ensures v < Pow256(|s|)
  {
    if s == [] then 0 else s[0] + 256 * FixedValue(s[1..])
  }

  function WriteFixed(x: nat, n: nat): (r: Blob)
    requires x < Pow256(n)
    ensures |r| == n
  {
    if n == 0 then [] else [x % 256] + WriteFixed(x / 256, n - 1)
  }

  lemma {:induction false} FixedValueOfWriteFixed(x: nat, n: nat)
    requires x < Pow256(n)
    ensures FixedValue(WriteFixed(x, n)) == x
  {
    if n > 0 {
      var w := WriteFixed(x, n);
      assert w[1..] == WriteFixed(x / 256, n - 1);
      FixedValueOfWriteFixed(x / 256, n - 1);
    }
  }

  /** Reads an `n`-byte little-endian number; fails when fewer than `n` bytes remain. */
  function ReadFixed(s: Blob, n: nat): (r: Option<(nat, Blob)>)
    ensures r.None? <==> |s| < n
    ensures r.Some? ==> r.value.0 < Pow256(n) && r.value.1 == s[n..]
  {
    if |s| < n then None else Some((FixedValue(s[..n]), s[n..]))
  }

  lemma ReadFixedRoundTrip(x: nat, n: nat, rest: Blob)
    requires x < Pow256(n)
    ensures ReadFixed(WriteFixed(x, n) + rest, n) == Some((x, rest))
  {
    var w := WriteFixed(x, n);
    assert (w + rest)[..n] == w;
    assert (w + rest)[n..] == rest;
    FixedValueOfWriteFixed(x, n);
  }

  function WriteFixUInt8(x: byte): (r: Blob)
    ensures r == [x]
  {
    [x]
  }

  function ReadFixUInt8(s: Blob): (r: Option<(byte, Blob)>)
    ensures r.None? <==> s == []
    ensures r.Some? ==> r.value == (s[0], s[1..])
  {
    if s == [] then None else Some((s[0], s[1..]))
  }

  function WriteFixUInt32(x: uint32): (r: Blob)
    ensures |r| == 4
  {
    assert Pow256(4) == UINT32_LIMIT;
    WriteFixed(x, 4)
  }

  function ReadFixUInt32(s: Blob): (r: Option<(uint32, Blob)>)
    ensures r.None? <==> |s| < 4
    ensures r.Some? ==> r.value.1 == s[4..]
  {
    assert Pow256(4) == UINT32_LIMIT;
    match ReadFixed(s, 4)
    case None => None
    case Some((v, rest)) => Some((v, rest))
  }

  lemma ReadFixUInt32RoundTrip(x: uint32, rest: Blob)
    ensures ReadFixUInt32(WriteFixUInt32(x) + rest) == Some((x, rest))
  {
    assert Pow256(4) == UINT32_LIMIT;
    ReadFixedRoundTrip(x, 4, rest);
  }

  /** A double travels as its 64-bit IEEE-754 pattern, in eight bytes. */
  function WriteFixDouble(bits: uint64): (r: Blob)
    ensures |r| == 8
  {
    assert Pow256(8) == UINT64_LIMIT;
    WriteFixed(bits, 8)
  }

  function ReadFixDouble(s: Blob): (r: Option<(uint64, Blob)>)
    ensures r.None? <==> |s| < 8
    ensures r.Some? ==> r.value.1 == s[8..]
  {
    assert Pow256(8) == UINT64_LIMIT;
    match ReadFixed(s, 8)
    case None => None
    case Some((v, rest)) => Some((v, rest))
  }

  lemma ReadFixDoubleRoundTrip(bits: uint64, rest: Blob)
    ensures ReadFixDouble(WriteFixDouble(bits) + rest) == Some((bits, rest))
  {
    assert Pow256(8) == UINT64_LIMIT;
    ReadFixedRoundTrip(bits, 8, rest);
  }

  // ---------------------------------------------------------------------
  // Variable-length unsigned integers: seven bits per byte, low group
  // first, the high bit set on every byte but the last.

  function WriteVarUInt(x: nat): (r: Blob)
    ensures 1 <= |r|
  {
    if x < 128 then [x] else [x % 128 + 128] + WriteVarUInt(x / 128)
  }

  /** Reads one varint of any size; fails when the buffer ends before a
      byte without the continuation bit. */
  function ReadVarUInt(s: Blob): (r: Option<(nat, Blob)>)
    ensures r.Some? ==> |r.value.1| < |s| && r.value.1 == s[|s| - |r.value.1|..]
  {
    if s == [] then None
    else if s[0] < 128 then Some((s[0], s[1..]))
    else
      match ReadVarUInt(s[1..])
      case None => None
      case Some((v, rest)) => Some((s[0] - 128 + 128 * v, rest))
  }

  lemma {:induction false} ReadVarUIntRoundTrip(x: nat, rest: Blob)
    ensures ReadVarUInt(WriteVarUInt(x) + rest) == Some((x, rest))
  {
    var s := WriteVarUInt(x) + rest;
    if x >= 128 {
      assert s[1..] == WriteVarUInt(x / 128) + rest;
      ReadVarUIntRoundTrip(x / 128, rest);
    } else {
      assert s[1..] == rest;
    }
  }

  /** A varint cut short anywhere cannot be read. */
  lemma {:induction false} ReadVarUIntTruncated(x: nat, n: nat)
    requires n < |WriteVarUInt(x)|
    ensures ReadVarUInt(WriteVarUInt(x)[..n]) == None
  {
    var w := WriteVarUInt(x);
    if n > 0 {
      assert x >= 128;
      assert w[..n][1..] == WriteVarUInt(x / 128)[..n - 1];
      ReadVarUIntTruncated(x / 128, n - 1);
    }
  }

  function WriteVarUInt64(x: uint64): (r: Blob)
    ensures 1 <= |r|
  {
    WriteVarUInt(x)
  }

  function ReadVarUInt64(s: Blob): (r: Option<(uint64, Blob)>)
    ensures r.Some? ==> |r.value.1| < |s| && r.value.1 == s[|s| - |r.value.1|..]
  {
    match ReadVarUInt(s)
    case None => None
    case Some((v, rest)) => if v < UINT64_LIMIT then Some((v, rest)) else None
  }

  lemma ReadVarUInt64RoundTrip(x: uint64, rest: Blob)
    ensures ReadVarUInt64(WriteVarUInt64(x) + rest) == Some((x, rest))
  {
    ReadVarUIntRoundTrip(x, rest);
  }

  lemma ReadVarUInt64Truncated(x: uint64, n: nat)
    requires n < |WriteVarUInt64(x)|
    ensures ReadVarUInt64(WriteVarUInt64(x)[..n]) == None
  {
    ReadVarUIntTruncated(x, n);
  }

  /** Signed 64-bit varint: the two's-complement pattern written as an unsigned varint. */
  function WriteVarInt64(i: int64): (r: Blob)
    ensures 1 <= |r|
  {
    WriteVarUInt(if i < 0 then i + UINT64_LIMIT else i)
  }

  function ReadVarInt64(s: Blob): (r: Option<(int64, Blob)>)
    ensures r.Some? ==> |r.value.1| < |s| && r.value.1 == s[|s| - |r.value.1|..]
  {
    match ReadVarUInt64(s)
    case None => None
    case Some((u, rest)) => Some((if u < INT64_HALF then u else u - UINT64_LIMIT, rest))
  }

  lemma ReadVarInt64RoundTrip(i: int64, rest: Blob)
    ensures ReadVarInt64(WriteVarInt64(i) + rest) == Some((i, rest))
  {
    ReadVarUIntRoundTrip(if i < 0 then i + UINT64_LIMIT else i, rest);
  }

  lemma ReadVarInt64Truncated(i: int64, n: nat)
    requires n < |WriteVarInt64(i)|
    ensures ReadVarInt64(WriteVarInt64(i)[..n]) == None
  {
    ReadVarUIntTruncated(if i < 0 then i + UINT64_LIMIT else i, n);
  }

  // ---------------------------------------------------------------------
  // Length-prefixed byte strings.

  function WriteVarSlice(b: Blob): (r: Blob)
    ensures |r| > |b|
  {
    WriteVarUInt(|b|) + b
  }

  /** Reads a length, then that many bytes; fails when the length cannot be
      read or fewer bytes than it announces remain. */
  function ReadVarSlice(s: Blob): (r: Option<(Blob, Blob)>)
    ensures r.Some? ==> |r.value.1| < |s| && r.value.1 == s[|s| - |r.value.1|..]
  {
    match ReadVarUInt(s)
    case None => None
    case Some((len, rest)) =>
      if len <= |rest| then Some((rest[..len], rest[len..])) else None
  }

  lemma ReadVarSliceRoundTrip(b: Blob, rest: Blob)
    ensures ReadVarSlice(WriteVarSlice(b) + rest) == Some((b, rest))
  {
    assert WriteVarSlice(b) + rest == WriteVarUInt(|b|) + (b + rest);
    ReadVarUIntRoundTrip(|b|, b + rest);
    assert (b + rest)[..|b|] == b;
    assert (b + rest)[|b|..] == rest;
  }

  lemma ReadVarSliceTruncated(b: Blob, n: nat)
    requires n < |WriteVarSlice(b)|
    ensures ReadVarSlice(WriteVarSlice(b)[..n]) == None
  {
    var w := WriteVarUInt(|b|);
    if n < |w| {
      assert WriteVarSlice(b)[..n] == w[..n];
      ReadVarUIntTruncated(|b|, n);
    } else {
      assert WriteVarSlice(b)[..n] == w + b[..n - |w|];
      ReadVarUIntRoundTrip(|b|, b[..n - |w|]);
    }
  }

  /** Cutting `a + b` inside `b` keeps all of `a`. */
  lemma TakeOfAppend(a: Blob, b: Blob, n: nat)
    requires |a| <= n <= |a| + |b|
    ensures (a + b)[..n] == a + b[..n - |a|]
  {
  }

  lemma AppendAssociates(a: Blob, b: Blob, c: Blob)
    ensures (a + b) + c == a + (b + c)
  {
  }

  /** The byte written first is read back first, and the rest follows it. */
  lemma SplitFirst(x: byte, q: Blob)
    ensures ([x] + q)[0] == x && ([x] + q)[1..] == q
  {
  }

  lemma TakeInFirst(a: Blob, b: Blob, n: nat)
    requires n <= |a|
    ensures (a + b)[..n] == a[..n]
  {
  }
}

/** The tagged scalar stored in keys and values (ValueData's persisted
    content): its one-byte tag, its binary form, its numeric reading and its
    three-way comparison. */
module Values {
  import opened BufferHelper
  import opened Numbers

  /** Tag numbers of the four ValueData kinds. The enumeration is declared in
      data_format.hpp, which is not part of this model, so these numbers are
      an assumption. The codec proofs depend only on the four being distinct;
      the order across kinds in CompareValues (Empty < Bytes < Integer <
      Double) follows from the numbers chosen here. */
  const EMPTY_VALUE: byte := 0
  const BYTES_VALUE: byte := 1
  const INTEGER_VALUE: byte := 2
  const DOUBLE_VALUE: byte := 3

  /** Exactly one kind is active; a double is kept as its 64-bit pattern. */
  datatype Value =
    | Empty
    | Integer(i: int64)
    | Double(bits: uint64)
    | Bytes(data: Blob)

  function Tag(v: Value): (t: byte)
    ensures t in {EMPTY_VALUE, BYTES_VALUE, INTEGER_VALUE, DOUBLE_VALUE}
  {
    match v
    case Empty => EMPTY_VALUE
    case Integer(_) => INTEGER_VALUE
    case Double(_) => DOUBLE_VALUE
    case Bytes(_) => BYTES_VALUE
  }

  /** ValueData::Encode: the tag byte, then the payload of the active kind. */
  function EncodeValue(v: Value): (r: Blob)
    ensures |r| >= 1 && r[0] == Tag(v)
  {
    match v
    case Empty => WriteFixUInt8(EMPTY_VALUE)
    case Integer(i) => WriteFixUInt8(INTEGER_VALUE) + WriteVarInt64(i)
    case Double(d) => WriteFixUInt8(DOUBLE_VALUE) + WriteFixDouble(d)
    case Bytes(b) => WriteFixUInt8(BYTES_VALUE) + WriteVarSlice(b)
  }

  /** ValueData::Decode: reads the tag, then the payload it announces; an
      unknown tag or a payload cut short is a failure. The rest of the
      buffer is returned for the next read. */
  function DecodeValue(s: Blob): (r: Option<(Value, Blob)>)
    ensures r.Some? ==> s != [] && Tag(r.value.0) == s[0]
  {
    match ReadFixUInt8(s)
    case None => None
    case Some((t, rest)) =>
      if t == DOUBLE_VALUE then
        match ReadFixDouble(rest)
        case None => None
        case Some((d, rest')) => Some((Double(d), rest'))
      else if t == INTEGER_VALUE then
        match ReadVarInt64(rest)
        case None => None
        case Some((i, rest')) => Some((Integer(i), rest'))
      else if t == BYTES_VALUE then
        match ReadVarSlice(rest)
        case None => None
        case Some((b, rest')) => Some((Bytes(b), rest'))
      else if t == EMPTY_VALUE then Some((Empty, rest))
      else None
  }

  /** Decoding what Encode wrote gives back the value and leaves whatever
      followed it untouched. */
  lemma DecodeEncodeValue(v: Value, rest: Blob)
    ensures DecodeValue(EncodeValue(v) + rest) == Some((v, rest))
  {
    var s := EncodeValue(v) + rest;
    assert ReadFixUInt8(s) == Some((Tag(v), s[1..]));
    match v
    case Empty =>
      assert s[1..] == rest;
    case Integer(i) =>
      DecodeEncodeInteger(i, rest);
    case Double(d) =>
      DecodeEncodeDouble(d, rest);
    case Bytes(b) =>
      DecodeEncodeBytes(b, rest);
  }

  lemma DecodeEncodeInteger(i: int64, rest: Blob)
    ensures DecodeValue(EncodeValue(Integer(i)) + rest) == Some((Integer(i), rest))
  {
    AppendAssociates([INTEGER_VALUE], WriteVarInt64(i), rest);
    SplitFirst(INTEGER_VALUE, WriteVarInt64(i) + rest);
    ReadVarInt64RoundTrip(i, rest);
  }

  lemma DecodeEncodeDouble(d: uint64, rest: Blob)
    ensures DecodeValue(EncodeValue(Double(d)) + rest) == Some((Double(d), rest))
  {
    AppendAssociates([DOUBLE_VALUE], WriteFixDouble(d), rest);
    SplitFirst(DOUBLE_VALUE, WriteFixDouble(d) + rest);
    ReadFixDoubleRoundTrip(d, rest);
  }

  lemma DecodeEncodeBytes(b: Blob, rest: Blob)
    ensures DecodeValue(EncodeValue(Bytes(b)) + rest) == Some((Bytes(b), rest))
  {
    AppendAssociates([BYTES_VALUE], WriteVarSlice(b), rest);
    SplitFirst(BYTES_VALUE, WriteVarSlice(b) + rest);
    ReadVarSliceRoundTrip(b, rest);
  }

  /** A tag byte outside the four kinds never decodes, whatever follows it. */
  lemma DecodeUnknownTag(s: Blob)
    requires |s| >= 1 && s[0] !in {EMPTY_VALUE, BYTES_VALUE, INTEGER_VALUE, DOUBLE_VALUE}
    ensures DecodeValue(s) == None
  {
  }

  /** Every proper prefix of an encoded value fails to decode. */
  lemma DecodeValueTruncated(v: Value, n: nat)
    requires n < |EncodeValue(v)|
    ensures DecodeValue(EncodeValue(v)[..n]) == None
  {
    if n > 0 {
      match v
      case Empty =>
      case Integer(i) =>
        var p := WriteVarInt64(i);
        TakeOfAppend([INTEGER_VALUE], p, n);
        SplitFirst(INTEGER_VALUE, p[..n - 1]);
        ReadVarInt64Truncated(i, n - 1);
      case Double(d) =>
        var p := WriteFixDouble(d);
        TakeOfAppend([DOUBLE_VALUE], p, n);
        SplitFirst(DOUBLE_VALUE, p[..n - 1]);
      case Bytes(b) =>
        var p := WriteVarSlice(b);
        TakeOfAppend([BYTES_VALUE], p, n);
        SplitFirst(BYTES_VALUE, p[..n - 1]);
        ReadVarSliceTruncated(b, n - 1);
    }
  }

  /** NumberValue: what a value contributes to a numeric comparison. An
      integer goes through the int64-to-double conversion; a value with no
      number reads as not-a-number. */
  function NumberValue(v: Value): (n: Num)
    ensures v.Integer? && -(Pow2(53) as int) <= v.i <= Pow2(53) ==> n == Finite(v.i as real)
    ensures (v.Empty? || v.Bytes?) ==> n.NaN?
  {
    match v
    case Integer(i) =>
      if -(Pow2(53) as int) <= i <= Pow2(53) then RoundToDoubleExact(i); IntegerNum(i)
      else IntegerNum(i)
    case Double(d) => DoubleValue(d)
    case _ => NaN
  }

  /** ValueData::Compare: different kinds are ordered by tag number;
      integers numerically, doubles by value, byte strings as memcmp does. */
  function CompareValues(a: Value, b: Value): (r: int)
    ensures -1 <= r <= 1
    ensures Tag(a) != Tag(b) ==> r == CompareNumber(Tag(a), Tag(b))
    ensures a.Integer? && b.Integer? ==> r == CompareNumber(a.i, b.i)
    ensures a.Bytes? && b.Bytes? ==> r == CompareBytes(a.data, b.data)
  {
    if Tag(a) != Tag(b) then CompareNumber(Tag(a), Tag(b))
    else
      match a
      case Empty => 0
      case Integer(i) => CompareNumber(i, b.i)
      case Double(d) => CompareNum(DoubleValue(d), DoubleValue(b.bits))
      case Bytes(x) => CompareBytes(x, b.data)
  }

  /** A value whose comparison with others is a genuine order: not a double
      whose pattern is not-a-number. */
  predicate Comparable(v: Value) {
    v.Double? ==> !DoubleValue(v.bits).NaN?
  }

  lemma CompareValuesAntisymmetric(a: Value, b: Value)
    ensures CompareValues(a, b) == -CompareValues(b, a)
  {
    if Tag(a) == Tag(b) {
      match a
      case Empty =>
      case Integer(_) =>
      case Double(d) => CompareNumAntisymmetric(DoubleValue(d), DoubleValue(b.bits));
      case Bytes(x) => CompareBytesAntisymmetric(x, b.data);
    }
  }

  lemma CompareValuesTransitive(a: Value, b: Value, c: Value)
    requires Comparable(a) && Comparable(b) && Comparable(c)
    ensures CompareValues(a, b) <= 0 && CompareValues(b, c) <= 0 ==> CompareValues(a, c) <= 0
    ensures CompareValues(a, b) < 0 && CompareValues(b, c) <= 0 ==> CompareValues(a, c) < 0
    ensures CompareValues(a, b) <= 0 && CompareValues(b, c) < 0 ==> CompareValues(a, c) < 0
  {
    if Tag(a) == Tag(b) == Tag(c) {
      match a
      case Empty =>
      case Integer(_) =>
      case Double(d) => CompareNumTransitive(DoubleValue(d), DoubleValue(b.bits), DoubleValue(c.bits));
      case Bytes(x) => CompareBytesTransitive(x, b.data, c.data);
    }
  }

  /** Equal under Compare means identical, except for doubles, which compare
      by value (so +0 and -0 compare equal). */
  lemma CompareValuesZero(a: Value, b: Value)
    requires !a.Double? || !b.Double?
    ensures CompareValues(a, b) == 0 <==> a == b
  {
  }
}

/** Composite keys: a 4-byte header packing the database id and the key
    type, the length-prefixed primary key, then the fields of the element
    the key names (a hash field, a list position, a set member, a sorted-set
    score and member, a bit index, an expiry time). */
module Keys {
  import opened BufferHelper
  import opened Values

  /** KeyType tags. The enumeration is declared in data_format.hpp, which is
      not part of this model, so this numbering is an assumption. The codec
      proofs depend only on distinctness; the order of keys of different
      types follows from the numbers chosen here. */
  const KEY_META: byte := 0
  const STRING_META: byte := 1
  const HASH_META: byte := 2
  const HASH_FIELD: byte := 3
  const LIST_META: byte := 4
  const LIST_ELEMENT: byte := 5
  const SET_META: byte := 6
  const SET_ELEMENT: byte := 7
  const ZSET_META: byte := 8
  const ZSET_ELEMENT: byte := 9
  const ZSET_ELEMENT_NODE: byte := 10
  const BITSET_META: byte := 11
  const BITSET_ELEMENT: byte := 12
  const KEY_EXPIRATION_ELEMENT: byte := 13
  const SCRIPT: byte := 14

  /** The database id keeps 24 bits: the header shifts it left by 8 in 32 bits. */
  const DB_LIMIT: nat := 0x100_0000

  /** Types whose keys carry fields after the primary key. */
  predicate HasTrailingFields(t: byte) {
    t in {HASH_FIELD, LIST_ELEMENT, SET_ELEMENT, ZSET_ELEMENT, ZSET_ELEMENT_NODE, BITSET_ELEMENT, KEY_EXPIRATION_ELEMENT}
  }

  /** The part of a key after the primary key, one variant per key class. */
  datatype KeyFields =
    | HashField(field: Value)
    | ListElement(score: Value)
    | SetElement(value: Value)
    | ZSetElement(score: Value, value: Value)
    | ZSetElementNode(value: Value)
    | BitSetElement(index: uint64)
    | ExpirationElement(expireat: uint64)
    | NoFields(keyType: byte)

  datatype KeyObject = KeyObject(db: uint32, key: Blob, fields: KeyFields)

  function KeyTypeOf(k: KeyObject): (t: byte)
    ensures k.fields.NoFields? ==> t == k.fields.keyType
    ensures !k.fields.NoFields? ==> HasTrailingFields(t)
  {
    match k.fields
    case HashField(_) => HASH_FIELD
    case ListElement(_) => LIST_ELEMENT
    case SetElement(_) => SET_ELEMENT
    case ZSetElement(_, _) => ZSET_ELEMENT
    case ZSetElementNode(_) => ZSET_ELEMENT_NODE
    case BitSetElement(_) => BITSET_ELEMENT
    case ExpirationElement(_) => KEY_EXPIRATION_ELEMENT
    case NoFields(t) => t
  }

  /** A key the codec can carry: its id fits the header, and a key without
      fields does not claim a type that has them. */
  predicate WellFormed(k: KeyObject) {
    k.db < DB_LIMIT && (k.fields.NoFields? ==> !HasTrailingFields(k.fields.keyType))
  }

  /** The header word `(uint32)(db << 8) + type`. */
  function Header(db: uint32, t: byte): (h: uint32)
    ensures h / 256 == db % DB_LIMIT && h % 256 == t
  {
    (db % DB_LIMIT) * 256 + t
  }

  /** The header is the 32-bit left shift of the id plus the type. */
  lemma HeaderIsShiftedId(db: uint32, t: byte)
    ensures Header(db, t) == (db * 256) % UINT32_LIMIT + t
  {
    var q := db / DB_LIMIT;
    assert db == q * DB_LIMIT + db % DB_LIMIT;
    assert db * 256 == q * UINT32_LIMIT + (db % DB_LIMIT) * 256;
  }

  function EncodeFields(f: KeyFields): Blob {
    match f
    case HashField(field) => EncodeValue(field)
    case ListElement(score) => EncodeValue(score)
    case SetElement(value) => EncodeValue(value)
    case ZSetElement(score, value) => EncodeValue(score) + EncodeValue(value)
    case ZSetElementNode(value) => EncodeValue(value)
    case BitSetElement(index) => WriteVarUInt64(index)
    case ExpirationElement(expireat) => WriteVarUInt64(expireat)
    case NoFields(_) => []
  }

  /** encode_key: header, length-prefixed primary key, the type's fields. */
  function EncodeKey(k: KeyObject): (r: Blob)
    ensures |r| >= 4
  {
    WriteFixUInt32(Header(k.db, KeyTypeOf(k))) + WriteVarSlice(k.key) + EncodeFields(k.fields)
  }

  /** peek_dbkey_header: the id and type of a key, from its first four bytes only. */
  function PeekHeader(s: Blob): (r: Option<(uint32, byte)>)
    ensures r.None? <==> |s| < 4
    ensures r.Some? ==> r.value.0 < DB_LIMIT
  {
    match ReadFixUInt32(s)
    case None => None
    case Some((header, _)) => Some((header / 256, header % 256))
  }

  /** Reads the fields a key of type `t` carries. */
  function DecodeFields(t: byte, s: Blob): (r: Option<KeyFields>)
    ensures r.Some? ==> r.value.NoFields? == !HasTrailingFields(t)
    ensures r.Some? ==> KeyTypeOf(KeyObject(0, [], r.value)) == t
  {
    if HasTrailingFields(t) then DecodeTrailingFields(t, s) else Some(NoFields(t))
  }

  /** The fields of a type that has them: one value, a score and a member,
      or one varint. */
  function DecodeTrailingFields(t: byte, s: Blob): (r: Option<KeyFields>)
    requires HasTrailingFields(t)
    ensures r.Some? ==> match r.value
      case HashField(_) => t == HASH_FIELD
      case ListElement(_) => t == LIST_ELEMENT
      case SetElement(_) => t == SET_ELEMENT
      case ZSetElement(_, _) => t == ZSET_ELEMENT
      case ZSetElementNode(_) => t == ZSET_ELEMENT_NODE
      case BitSetElement(_) => t == BITSET_ELEMENT
      case ExpirationElement(_) => t == KEY_EXPIRATION_ELEMENT
      case NoFields(_) => false
  {
    if t == HASH_FIELD then
      match DecodeValue(s)
      case None => None
      case Some((v, _)) => Some(HashField(v))
    else if t == LIST_ELEMENT then
      match DecodeValue(s)
      case None => None
      case Some((v, _)) => Some(ListElement(v))
    else if t == SET_ELEMENT then
      match DecodeValue(s)
      case None => None
      case Some((v, _)) => Some(SetElement(v))
    else if t == ZSET_ELEMENT then
      match DecodeValue(s)
      case None => None
      case Some((score, rest)) =>
        match DecodeValue(rest)
        case None => None
        case Some((v, _)) => Some(ZSetElement(score, v))
    else if t == ZSET_ELEMENT_NODE then
      match DecodeValue(s)
      case None => None
      case Some((v, _)) => Some(ZSetElementNode(v))
    else if t == BITSET_ELEMENT then
      match ReadVarUInt64(s)
      case None => None
      case Some((index, _)) => Some(BitSetElement(index))
    else
      match ReadVarUInt64(s)
      case None => None
      case Some((ts, _)) => Some(ExpirationElement(ts))
  }

  /** Two keys name the same logical key: same type, database and primary key. */
  predicate SameLogicalKey(k: KeyObject, e: KeyObject) {
    KeyTypeOf(k) == KeyTypeOf(e) && k.db == e.db && k.key == e.key
  }

  /** decode_key: reads the header, checks type and id against `expected`,
      reads the primary key and checks it too, then reads the type's fields.
      Any read that comes up short, and any mismatch, gives None. */
  function DecodeKey(s: Blob, expected: Option<KeyObject>): (r: Option<KeyObject>)
    ensures r.Some? ==> WellFormed(r.value)
    ensures r.Some? && expected.Some? ==> SameLogicalKey(r.value, expected.value)
  {
    match ReadFixUInt32(s)
    case None => None
    case Some((header, afterHeader)) =>
      var t: byte := header % 256;
      var db: uint32 := header / 256;
      if expected.Some? && (t != KeyTypeOf(expected.value) || db != expected.value.db) then None
      else
        match ReadVarSlice(afterHeader)
        case None => None
        case Some((key, afterKey)) =>
          if expected.Some? && key != expected.value.key then None
          else
            match DecodeFields(t, afterKey)
            case None => None
            case Some(fields) => Some(KeyObject(db, key, fields))
  }

  // ---------------------------------------------------------------------
  // Properties of the key codec.

  lemma ReadEncodedHeader(k: KeyObject, rest: Blob)
    ensures ReadFixUInt32(EncodeKey(k) + rest)
         == Some((Header(k.db, KeyTypeOf(k)), WriteVarSlice(k.key) + EncodeFields(k.fields) + rest))
  {
    var hv := Header(k.db, KeyTypeOf(k));
    ReadHeaderOfParts(hv, WriteVarSlice(k.key), EncodeFields(k.fields), rest);
  }

  lemma ReadHeaderOfParts(hv: uint32, p: Blob, f: Blob, rest: Blob)
    ensures ReadFixUInt32(WriteFixUInt32(hv) + p + f + rest) == Some((hv, p + f + rest))
  {
    assert WriteFixUInt32(hv) + p + f + rest == WriteFixUInt32(hv) + (p + f + rest);
    ReadFixUInt32RoundTrip(hv, p + f + rest);
  }

  lemma ReadEncodedPrimaryKey(k: KeyObject, rest: Blob)
    ensures ReadVarSlice(WriteVarSlice(k.key) + EncodeFields(k.fields) + rest)
         == Some((k.key, EncodeFields(k.fields) + rest))
  {
    assert WriteVarSlice(k.key) + EncodeFields(k.fields) + rest
        == WriteVarSlice(k.key) + (EncodeFields(k.fields) + rest);
    ReadVarSliceRoundTrip(k.key, EncodeFields(k.fields) + rest);
  }

  /** The header read back gives the id and type that were encoded. */
  lemma PeekEncodedKey(k: KeyObject, rest: Blob)
    requires WellFormed(k)
    ensures PeekHeader(EncodeKey(k) + rest) == Some((k.db, KeyTypeOf(k)))
  {
    ReadEncodedHeader(k, rest);
  }

  /** An id of 2^24 or more loses its top bits in the header. */
  lemma HeaderKeepsLowIdBits(k: KeyObject)
    ensures PeekHeader(EncodeKey(k)) == Some((k.db % DB_LIMIT, KeyTypeOf(k)))
  {
    ReadEncodedHeader(k, []);
    assert EncodeKey(k) + [] == EncodeKey(k);
  }

  lemma DecodeEncodeFields(f: KeyFields, t: byte, rest: Blob)
    requires f.NoFields? ==> f.keyType == t && !HasTrailingFields(t)
    requires !f.NoFields? ==> t == KeyTypeOf(KeyObject(0, [], f))
    ensures DecodeFields(t, EncodeFields(f) + rest) == Some(f)
  {
    match f
    case HashField(v) => DecodeEncodeValueField(f, t, v, rest);
    case ListElement(v) => DecodeEncodeValueField(f, t, v, rest);
    case SetElement(v) => DecodeEncodeValueField(f, t, v, rest);
    case ZSetElement(score, v) => DecodeEncodeScoredField(f, t, rest);
    case ZSetElementNode(v) => DecodeEncodeValueField(f, t, v, rest);
    case BitSetElement(index) => DecodeEncodeNumberField(f, t, index, rest);
    case ExpirationElement(ts) => DecodeEncodeNumberField(f, t, ts, rest);
    case NoFields(_) =>
  }

  /** The fields that are one encoded value. */
  lemma DecodeEncodeValueField(f: KeyFields, t: byte, v: Value, rest: Blob)
    requires f == HashField(v) || f == ListElement(v) || f == SetElement(v) || f == ZSetElementNode(v)
    requires t == KeyTypeOf(KeyObject(0, [], f))
    ensures DecodeFields(t, EncodeFields(f) + rest) == Some(f)
  {
    assert EncodeFields(f) == EncodeValue(v);
    DecodeEncodeValue(v, rest);
    ValueFieldOfParts(f, t, v, EncodeValue(v) + rest, rest);
  }

  lemma ValueFieldOfParts(f: KeyFields, t: byte, v: Value, s: Blob, rest: Blob)
    requires f == HashField(v) || f == ListElement(v) || f == SetElement(v) || f == ZSetElementNode(v)
    requires t == KeyTypeOf(KeyObject(0, [], f))
    requires DecodeValue(s) == Some((v, rest))
    ensures DecodeFields(t, s) == Some(f)
  {
    assert HasTrailingFields(t);
  }

  /** A sorted-set element: the score, then the member. */
  lemma DecodeEncodeScoredField(f: KeyFields, t: byte, rest: Blob)
    requires f.ZSetElement? && t == ZSET_ELEMENT
    ensures DecodeFields(t, EncodeFields(f) + rest) == Some(f)
  {
    var es, ev := EncodeValue(f.score), EncodeValue(f.value);
    assert EncodeFields(f) == es + ev;
    AppendAssociates(es, ev, rest);
    DecodeEncodeValue(f.score, ev + rest);
    DecodeEncodeValue(f.value, rest);
    DecodeScoredFields(t, es + (ev + rest), f.score, f.value, ev + rest, rest);
  }

  lemma DecodeScoredFields(t: byte, s: Blob, score: Value, v: Value, w: Blob, rest: Blob)
    requires t == ZSET_ELEMENT
    requires DecodeValue(s) == Some((score, w)) && DecodeValue(w) == Some((v, rest))
    ensures DecodeFields(t, s) == Some(ZSetElement(score, v))
  {
  }

  /** The fields that are one varint: a bit index or an expiry time. */
  lemma DecodeEncodeNumberField(f: KeyFields, t: byte, x: uint64, rest: Blob)
    requires f == BitSetElement(x) || f == ExpirationElement(x)
    requires t == KeyTypeOf(KeyObject(0, [], f))
    ensures DecodeFields(t, EncodeFields(f) + rest) == Some(f)
  {
    assert EncodeFields(f) == WriteVarUInt64(x);
    ReadVarUInt64RoundTrip(x, rest);
    NumberFieldOfParts(f, t, x, WriteVarUInt64(x) + rest, rest);
  }

  lemma NumberFieldOfParts(f: KeyFields, t: byte, x: uint64, s: Blob, rest: Blob)
    requires f == BitSetElement(x) || f == ExpirationElement(x)
    requires t == KeyTypeOf(KeyObject(0, [], f))
    requires ReadVarUInt64(s) == Some((x, rest))
    ensures DecodeFields(t, s) == Some(f)
  {
    assert HasTrailingFields(t);
    if f.BitSetElement? {
      assert t == BITSET_ELEMENT;
    } else {
      assert t == KEY_EXPIRATION_ELEMENT;
    }
  }

  /** Decoding what encode_key wrote gives back the same key, whatever follows it. */
  lemma DecodeEncodeKey(k: KeyObject, rest: Blob)
    requires WellFormed(k)
    ensures DecodeKey(EncodeKey(k) + rest, None) == Some(k)
  {
    DecodeEncodeKeyExpected(k, k, rest);
    var none: Option<KeyObject> := None;
    assert DecodeKey(EncodeKey(k) + rest, none) == DecodeKey(EncodeKey(k) + rest, Some(k));
  }

  /** With an expected key, decoding succeeds exactly when the encoded key
      names the same logical key, and then yields the encoded key. */
  lemma DecodeEncodeKeyExpected(k: KeyObject, e: KeyObject, rest: Blob)
    requires WellFormed(k)
    ensures DecodeKey(EncodeKey(k) + rest, Some(e)) == if SameLogicalKey(k, e) then Some(k) else None
  {
    var t := KeyTypeOf(k);
    var h := Header(k.db, t);
    ReadEncodedHeader(k, rest);
    assert h % 256 == t && h / 256 == k.db;
    ReadEncodedPrimaryKey(k, rest);
    DecodeEncodeFields(k.fields, t, rest);
  }

  lemma DecodeFieldsTruncated(f: KeyFields, n: nat)
    requires n < |EncodeFields(f)|
    ensures DecodeFields(KeyTypeOf(KeyObject(0, [], f)), EncodeFields(f)[..n]) == None
  {
    var t := KeyTypeOf(KeyObject(0, [], f));
    match f
    case HashField(v) => CutInValue(t, v, n);
    case ListElement(v) => CutInValue(t, v, n);
    case SetElement(v) => CutInValue(t, v, n);
    case ZSetElement(score, v) =>
      var es, ev := EncodeValue(score), EncodeValue(v);
      assert EncodeFields(f) == es + ev;
      if n < |es| {
        TakeInFirst(es, ev, n);
        CutInValue(t, score, n);
      } else {
        CutInMember(t, score, v, n);
      }
    case ZSetElementNode(v) => CutInValue(t, v, n);
    case BitSetElement(index) => CutInNumber(t, index, n);
    case ExpirationElement(ts) => CutInNumber(t, ts, n);
  }

  /** Fields that start with a value do not decode when that value is cut short. */
  lemma CutInValue(t: byte, v: Value, n: nat)
    requires t in {HASH_FIELD, LIST_ELEMENT, SET_ELEMENT, ZSET_ELEMENT, ZSET_ELEMENT_NODE}
    requires n < |EncodeValue(v)|
    ensures DecodeFields(t, EncodeValue(v)[..n]) == None
  {
    DecodeValueTruncated(v, n);
    UnreadableValue(t, EncodeValue(v)[..n]);
  }

  lemma UnreadableValue(t: byte, s: Blob)
    requires t in {HASH_FIELD, LIST_ELEMENT, SET_ELEMENT, ZSET_ELEMENT, ZSET_ELEMENT_NODE}
    requires DecodeValue(s).None?
    ensures DecodeFields(t, s) == None
  {
  }

  /** A sorted-set element cut inside its member does not decode. */
  lemma CutInMember(t: byte, score: Value, v: Value, n: nat)
    requires t == ZSET_ELEMENT
    requires |EncodeValue(score)| <= n < |EncodeValue(score)| + |EncodeValue(v)|
    ensures DecodeFields(t, (EncodeValue(score) + EncodeValue(v))[..n]) == None
  {
    var es, ev := EncodeValue(score), EncodeValue(v);
    var m := n - |es|;
    TakeOfAppend(es, ev, n);
    DecodeEncodeValue(score, ev[..m]);
    DecodeValueTruncated(v, m);
    UnreadableMember(t, es + ev[..m], score, ev[..m]);
  }

  lemma UnreadableMember(t: byte, s: Blob, score: Value, w: Blob)
    requires t == ZSET_ELEMENT && DecodeValue(s) == Some((score, w)) && DecodeValue(w).None?
    ensures DecodeFields(t, s) == None
  {
  }

  /** Fields that are one varint do not decode when it is cut short. */
  lemma CutInNumber(t: byte, x: uint64, n: nat)
    requires t == BITSET_ELEMENT || t == KEY_EXPIRATION_ELEMENT
    requires n < |WriteVarUInt64(x)|
    ensures DecodeFields(t, WriteVarUInt64(x)[..n]) == None
  {
    ReadVarUInt64Truncated(x, n);
    UnreadableNumber(t, WriteVarUInt64(x)[..n]);
  }

  lemma UnreadableNumber(t: byte, s: Blob)
    requires t == BITSET_ELEMENT || t == KEY_EXPIRATION_ELEMENT
    requires ReadVarUInt64(s).None?
    ensures DecodeFields(t, s) == None
  {
  }

  /** A key cut short anywhere (in the header, the primary key or the
      fields) does not decode: no partial key is ever produced. */
  lemma DecodeKeyTruncated(k: KeyObject, n: nat, expected: Option<KeyObject>)
    requires WellFormed(k) && n < |EncodeKey(k)|
    ensures DecodeKey(EncodeKey(k)[..n], expected) == None
  {
    var p := WriteVarSlice(k.key);
    if n < 4 {
    } else if n < 4 + |p| {
      CutInPrimaryKey(k, n, expected);
    } else {
      CutInFields(k, n, expected);
    }
  }

  lemma CutInPrimaryKey(k: KeyObject, n: nat, expected: Option<KeyObject>)
    requires 4 <= n < 4 + |WriteVarSlice(k.key)|
    ensures DecodeKey(EncodeKey(k)[..n], expected) == None
  {
    var h := WriteFixUInt32(Header(k.db, KeyTypeOf(k)));
    var p := WriteVarSlice(k.key);
    var f := EncodeFields(k.fields);
    AppendAssociates(h, p, f);
    TakeOfAppend(h, p + f, n);
    TakeInFirst(p, f, n - 4);
    ReadVarSliceTruncated(k.key, n - 4);
    UnreadablePrimaryKey(Header(k.db, KeyTypeOf(k)), p[..n - 4], expected);
  }

  /** A header followed by bytes that do not hold a primary key does not decode. */
  lemma UnreadablePrimaryKey(hv: uint32, q: Blob, expected: Option<KeyObject>)
    requires ReadVarSlice(q).None?
    ensures DecodeKey(WriteFixUInt32(hv) + q, expected) == None
  {
    ReadFixUInt32RoundTrip(hv, q);
  }

  lemma CutInFields(k: KeyObject, n: nat, expected: Option<KeyObject>)
    requires WellFormed(k)
    requires 4 + |WriteVarSlice(k.key)| <= n < |EncodeKey(k)|
    ensures DecodeKey(EncodeKey(k)[..n], expected) == None
  {
    var hv := Header(k.db, KeyTypeOf(k));
    var h := WriteFixUInt32(hv);
    var p := WriteVarSlice(k.key);
    var f := EncodeFields(k.fields);
    var m := n - 4 - |p|;
    TakeOfAppend(h + p, f, n);
    AppendAssociates(h, p, f[..m]);
    DecodeFieldsTruncated(k.fields, m);
    assert KeyTypeOf(KeyObject(0, [], k.fields)) == hv % 256;
    UnreadableFields(hv, k.key, f[..m], expected);
  }

  /** A header and a primary key followed by bytes that do not hold the
      type's fields do not decode. */
  lemma UnreadableFields(hv: uint32, key: Blob, q: Blob, expected: Option<KeyObject>)
    requires DecodeFields(hv % 256, q).None?
    ensures DecodeKey(WriteFixUInt32(hv) + (WriteVarSlice(key) + q), expected) == None
  {
    ReadFixUInt32RoundTrip(hv, WriteVarSlice(key) + q);
    ReadVarSliceRoundTrip(key, q);
  }
}

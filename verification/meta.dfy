/** Meta records: the value stored under a key's KEY_META entry. A common
    header (format version, the type of the data the key holds, its expiry
    time) is followed by a body whose layout belongs to the type. The body
    codecs (StringMetaValue::Encode and its siblings) are not part of this
    model: they enter as parameters, and the round trip below holds for
    any body codec that round-trips itself. */
module Meta {
  import opened BufferHelper
  import opened Values
  import opened Keys

  datatype MetaHeader = MetaHeader(version: byte, mtype: byte, expireat: uint64)

  /** The body of a meta record. A set's body carries the flags and bounds
      encode_meta inspects; every other body is carried whole. */
  datatype MetaBody =
    | HeaderOnly
    | TypedBody(fields: Blob)
    | SetBody(ziped: bool, dirty: bool, min: Value, max: Value, fields: Blob)

  datatype MetaValue = MetaValue(header: MetaHeader, body: MetaBody)

  /** The types encode_meta and decode_meta know a body for. */
  predicate HasMetaBody(t: byte) {
    t in {STRING_META, BITSET_META, HASH_META, LIST_META, ZSET_META, SET_META}
  }

  /** The record's dynamic type agrees with its header: a set meta has a
      set body, another known type a body of its own, an unknown type none. */
  predicate Consistent(m: MetaValue) {
    if m.header.mtype == SET_META then m.body.SetBody?
    else if HasMetaBody(m.header.mtype) then m.body.TypedBody?
    else m.body.HeaderOnly?
  }

  function EncodeMetaHeader(h: MetaHeader): (r: Blob)
    ensures |r| >= 3 && r[0] == h.version && r[1] == h.mtype
  {
    WriteFixUInt8(h.version) + WriteFixUInt8(h.mtype) + WriteVarUInt64(h.expireat)
  }

  /** The set-meta rule: a compressed or dirty set does not keep its bounds. */
  function ClearSetBounds(b: MetaBody): MetaBody {
    if b.SetBody? && (b.ziped || b.dirty) then b.(min := Empty, max := Empty) else b
  }

  /** encode_meta: writes the header, then the body of a known type; for a
      set it first clears the bounds when the set is compressed or dirty,
      and the record it leaves behind is returned beside the bytes. */
  function EncodeMeta(m: MetaValue, encodeBody: MetaBody -> Blob): (r: (Blob, MetaValue))
    requires Consistent(m)
    ensures r.1.header == m.header && Consistent(r.1)
    ensures r.1.body.SetBody? && (r.1.body.ziped || r.1.body.dirty) ==> r.1.body.min == Empty && r.1.body.max == Empty
    ensures m.body.SetBody? ==> r.1.body.SetBody? && r.1.body.ziped == m.body.ziped && r.1.body.dirty == m.body.dirty
                                && r.1.body.fields == m.body.fields
    ensures m.body.SetBody? && !m.body.ziped && !m.body.dirty ==> r.1 == m
    ensures !m.body.SetBody? ==> r.1 == m
    ensures HasMetaBody(m.header.mtype) ==> r.0 == EncodeMetaHeader(m.header) + encodeBody(r.1.body)
    ensures !HasMetaBody(m.header.mtype) ==> r.0 == EncodeMetaHeader(m.header)
  {
    var body := ClearSetBounds(m.body);
    var head := EncodeMetaHeader(m.header);
    if HasMetaBody(m.header.mtype) then (head + encodeBody(body), MetaValue(m.header, body))
    else (head, m)
  }

  function DecodeMetaHeader(s: Blob): (r: Option<(MetaHeader, Blob)>)
    ensures |s| < 3 ==> r.None?
  {
    match ReadFixUInt8(s)
    case None => None
    case Some((version, s1)) =>
      match ReadFixUInt8(s1)
      case None => None
      case Some((t, s2)) =>
        match ReadVarUInt64(s2)
        case None => None
        case Some((expireat, s3)) => Some((MetaHeader(version, t, expireat), s3))
  }

  /** decode_meta: reads the header (a short read is a failure); with
      `onlyHead` stops there; otherwise reads the body of a known type, and
      fails on an unknown type or a body that does not decode. */
  function DecodeMeta(s: Blob, onlyHead: bool, decodeBody: (byte, Blob) -> Option<MetaBody>): (r: Option<MetaValue>)
    ensures DecodeMetaHeader(s).None? ==> r.None?
    ensures r.Some? ==> r.value.header == DecodeMetaHeader(s).value.0
    ensures r.Some? && onlyHead ==> r.value.body.HeaderOnly?
    ensures r.Some? && !onlyHead ==> HasMetaBody(r.value.header.mtype)
    ensures DecodeMetaHeader(s).Some? && onlyHead ==> r.Some?
  {
    match DecodeMetaHeader(s)
    case None => None
    case Some((header, rest)) =>
      if onlyHead then Some(MetaValue(header, HeaderOnly))
      else if HasMetaBody(header.mtype) then
        match decodeBody(header.mtype, rest)
        case None => None
        case Some(body) => Some(MetaValue(header, body))
      else None
  }

  lemma DecodeEncodeMetaHeader(h: MetaHeader, rest: Blob)
    ensures DecodeMetaHeader(EncodeMetaHeader(h) + rest) == Some((h, rest))
  {
    var s := EncodeMetaHeader(h) + rest;
    assert s[1..] == WriteFixUInt8(h.mtype) + (WriteVarUInt64(h.expireat) + rest);
    assert s[1..][1..] == WriteVarUInt64(h.expireat) + rest;
    ReadVarUInt64RoundTrip(h.expireat, rest);
  }

  /** Every record starts with its header: reading only the header back
      gives it, whatever the body codec and the type. */
  lemma DecodeEncodedMetaHead(m: MetaValue, encodeBody: MetaBody -> Blob,
                              decodeBody: (byte, Blob) -> Option<MetaBody>, rest: Blob)
    requires Consistent(m)
    ensures DecodeMeta(EncodeMeta(m, encodeBody).0 + rest, true, decodeBody) == Some(MetaValue(m.header, HeaderOnly))
  {
    var e := EncodeMeta(m, encodeBody);
    if HasMetaBody(m.header.mtype) {
      assert e.0 + rest == EncodeMetaHeader(m.header) + (encodeBody(e.1.body) + rest);
      DecodeEncodeMetaHeader(m.header, encodeBody(e.1.body) + rest);
    } else {
      DecodeEncodeMetaHeader(m.header, rest);
    }
  }

  /** A record of a known type decodes to the record encode_meta left
      behind (bounds of a compressed or dirty set cleared), provided the
      body codec round-trips that body. */
  lemma DecodeEncodeMeta(m: MetaValue, encodeBody: MetaBody -> Blob,
                         decodeBody: (byte, Blob) -> Option<MetaBody>, rest: Blob)
    requires Consistent(m) && HasMetaBody(m.header.mtype)
    requires decodeBody(m.header.mtype, encodeBody(ClearSetBounds(m.body)) + rest) == Some(ClearSetBounds(m.body))
    ensures DecodeMeta(EncodeMeta(m, encodeBody).0 + rest, false, decodeBody) == Some(EncodeMeta(m, encodeBody).1)
  {
    var body := ClearSetBounds(m.body);
    assert EncodeMeta(m, encodeBody).0 + rest == EncodeMetaHeader(m.header) + (encodeBody(body) + rest);
    DecodeEncodeMetaHeader(m.header, encodeBody(body) + rest);
  }

  /** A record of a type with no known body is written header-only and
      does not decode as a full record. */
  lemma UnknownMetaTypeFails(m: MetaValue, encodeBody: MetaBody -> Blob,
                             decodeBody: (byte, Blob) -> Option<MetaBody>, rest: Blob)
    requires Consistent(m) && !HasMetaBody(m.header.mtype)
    ensures EncodeMeta(m, encodeBody).0 == EncodeMetaHeader(m.header)
    ensures DecodeMeta(EncodeMeta(m, encodeBody).0 + rest, false, decodeBody) == None
  {
    DecodeEncodeMetaHeader(m.header, rest);
  }

  /** A body that does not decode fails the whole record: no record with a
      header but no body is produced. */
  lemma MetaBodyFailureFails(h: MetaHeader, body: Blob, decodeBody: (byte, Blob) -> Option<MetaBody>)
    requires decodeBody(h.mtype, body).None?
    ensures DecodeMeta(EncodeMetaHeader(h) + body, false, decodeBody) == None
  {
    DecodeEncodeMetaHeader(h, body);
  }

  /** A header cut short does not decode. */
  lemma MetaHeaderTruncated(h: MetaHeader, n: nat, onlyHead: bool, decodeBody: (byte, Blob) -> Option<MetaBody>)
    requires n < |EncodeMetaHeader(h)|
    ensures DecodeMeta(EncodeMetaHeader(h)[..n], onlyHead, decodeBody) == None
  {
    var s := EncodeMetaHeader(h)[..n];
    if n >= 2 {
      assert s[1..][1..] == WriteVarUInt64(h.expireat)[..n - 2];
      ReadVarUInt64Truncated(h.expireat, n - 2);
    }
  }
}

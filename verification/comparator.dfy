/** ardb_compare_keys: the order the storage engine keeps encoded keys in.
    It reads both keys step by step and returns at the first part that
    differs: database id, type, primary key, then a rule of the key's type
    for the fields that follow. A part that cannot be read on one side
    sorts that side first. */
module Comparator {
  import opened BufferHelper
  import opened Numbers
  import opened Values
  import opened Keys

  /** Compares two decoded values, or orders a failed read first. */
  function CompareDecodedValues(da: Option<(Value, Blob)>, db: Option<(Value, Blob)>): (r: int)
    ensures -1 <= r <= 1
  {
    if da.None? || db.None? then CompareExist(da.Some?, db.Some?)
    else CompareValues(da.value.0, db.value.0)
  }

  /** Compares the numeric readings of two decoded values (a list position
      or a sorted-set score), or orders a failed read first. */
  function CompareDecodedNumbers(da: Option<(Value, Blob)>, db: Option<(Value, Blob)>): (r: int)
    ensures -1 <= r <= 1
  {
    if da.None? || db.None? then CompareExist(da.Some?, db.Some?)
    else CompareNum(NumberValue(da.value.0), NumberValue(db.value.0))
  }

  function CompareDecodedUInt64(da: Option<(uint64, Blob)>, db: Option<(uint64, Blob)>): (r: int)
    ensures -1 <= r <= 1
  {
    if da.None? || db.None? then CompareExist(da.Some?, db.Some?)
    else CompareNumber(da.value.0, db.value.0)
  }

  /** The sorted-set element rule: scores numerically, members only on a tie. */
  function CompareScoreThenMember(a: Blob, b: Blob): (r: int)
    ensures -1 <= r <= 1
  {
    var sa := DecodeValue(a);
    var sb := DecodeValue(b);
    var byScore := CompareDecodedNumbers(sa, sb);
    if byScore != 0 || sa.None? || sb.None? then byScore
    else CompareDecodedValues(DecodeValue(sa.value.1), DecodeValue(sb.value.1))
  }

  /** The expiration entry rule: expiry times first, the primary keys only on a tie. */
  function CompareExpiryThenKey(akey: Blob, bkey: Blob, a: Blob, b: Blob): (r: int)
    ensures -1 <= r <= 1
  {
    var ea := ReadVarUInt64(a);
    var eb := ReadVarUInt64(b);
    var byExpiry := CompareDecodedUInt64(ea, eb);
    if byExpiry != 0 || ea.None? || eb.None? then byExpiry
    else CompareBytes(akey, bkey)
  }

  /** The type-specific rule, applied to what follows the primary keys. */
  function CompareTrailing(t: byte, akey: Blob, bkey: Blob, a: Blob, b: Blob): (r: int)
    ensures -1 <= r <= 1
  {
    if t == HASH_FIELD || t == SET_ELEMENT || t == ZSET_ELEMENT_NODE then
      CompareDecodedValues(DecodeValue(a), DecodeValue(b))
    else if t == LIST_ELEMENT then
      CompareDecodedNumbers(DecodeValue(a), DecodeValue(b))
    else if t == ZSET_ELEMENT then
      CompareScoreThenMember(a, b)
    else if t == KEY_EXPIRATION_ELEMENT then
      CompareExpiryThenKey(akey, bkey, a, b)
    else if t == BITSET_ELEMENT then
      CompareDecodedUInt64(ReadVarUInt64(a), ReadVarUInt64(b))
    else 0
  }

  /** ardb_compare_keys on two encoded keys. */
  function CompareKeys(a: Blob, b: Blob): (r: int)
    ensures -1 <= r <= 1
    ensures |a| < 4 || |b| < 4 ==> r == CompareExist(|a| >= 4, |b| >= 4)
  {
    var ha := ReadFixUInt32(a);
    var hb := ReadFixUInt32(b);
    if ha.None? || hb.None? then CompareExist(ha.Some?, hb.Some?)
    else CompareAfterHeaders(ha.value.0, hb.value.0, ha.value.1, hb.value.1)
  }

  /** Once both headers are read: database ids, then types, then the
      primary keys read from what follows. */
  function CompareAfterHeaders(aheader: uint32, bheader: uint32, a1: Blob, b1: Blob): (r: int)
    ensures -1 <= r <= 1
  {
    if aheader / 256 != bheader / 256 then CompareNumber(aheader / 256, bheader / 256)
    else if aheader % 256 != bheader % 256 then CompareNumber(aheader % 256, bheader % 256)
    else
      var ka := ReadVarSlice(a1);
      var kb := ReadVarSlice(b1);
      if ka.None? || kb.None? then CompareExist(ka.Some?, kb.Some?)
      else CompareAfterPrimaryKeys(aheader % 256, ka.value.0, kb.value.0, ka.value.1, kb.value.1)
  }

  /** Once both primary keys are read: the keys themselves (skipped for
      expiration entries), then the type's rule on what follows. */
  function CompareAfterPrimaryKeys(t: byte, akey: Blob, bkey: Blob, a2: Blob, b2: Blob): (r: int)
    ensures -1 <= r <= 1
  {
    var byKey := if t != KEY_EXPIRATION_ELEMENT then CompareBytes(akey, bkey) else 0;
    if byKey != 0 then byKey
    else CompareTrailing(t, akey, bkey, a2, b2)
  }

  // ---------------------------------------------------------------------
  // The same order stated on decoded keys.

  /** The type-specific rule on the fields of two keys of the same type. */
  function CompareFields(akey: Blob, bkey: Blob, f: KeyFields, g: KeyFields): (r: int)
    ensures -1 <= r <= 1
  {
    match (f, g)
    case (HashField(v), HashField(w)) => CompareValues(v, w)
    case (ListElement(s), ListElement(u)) => CompareNum(NumberValue(s), NumberValue(u))
    case (SetElement(v), SetElement(w)) => CompareValues(v, w)
    case (ZSetElement(s, v), ZSetElement(u, w)) =>
      var byScore := CompareNum(NumberValue(s), NumberValue(u));
      if byScore != 0 then byScore else CompareValues(v, w)
    case (ZSetElementNode(v), ZSetElementNode(w)) => CompareValues(v, w)
    case (BitSetElement(i), BitSetElement(j)) => CompareNumber(i, j)
    case (ExpirationElement(e), ExpirationElement(d)) =>
      if e != d then CompareNumber(e, d) else CompareBytes(akey, bkey)
    case _ => 0
  }

  /** The key order on decoded keys: database id, then type,
      then primary key (except for expiration entries, which order by
      expiry time first and by key only on a tie), then the type's fields. */
  function SemanticCompare(x: KeyObject, y: KeyObject): (r: int)
    ensures -1 <= r <= 1
  {
    if x.db != y.db then CompareNumber(x.db, y.db)
    else if KeyTypeOf(x) != KeyTypeOf(y) then CompareNumber(KeyTypeOf(x), KeyTypeOf(y))
    else if KeyTypeOf(x) != KEY_EXPIRATION_ELEMENT && x.key != y.key then CompareBytes(x.key, y.key)
    else CompareFields(x.key, y.key, x.fields, y.fields)
  }

  lemma CompareEncodedFields(x: KeyObject, y: KeyObject, ra: Blob, rb: Blob)
    requires WellFormed(x) && WellFormed(y) && KeyTypeOf(x) == KeyTypeOf(y)
    ensures CompareTrailing(KeyTypeOf(x), x.key, y.key, EncodeFields(x.fields) + ra, EncodeFields(y.fields) + rb)
         == CompareFields(x.key, y.key, x.fields, y.fields)
  {
    var f, g := x.fields, y.fields;
    match f
    case HashField(v) => CompareEncodedValues(HASH_FIELD, x.key, y.key, f, g, v, g.field, ra, rb);
    case ListElement(s) => CompareEncodedPositions(x.key, y.key, s, g.score, ra, rb);
    case SetElement(v) => CompareEncodedValues(SET_ELEMENT, x.key, y.key, f, g, v, g.value, ra, rb);
    case ZSetElement(s, v) => CompareEncodedScored(x.key, y.key, s, v, g.score, g.value, ra, rb);
    case ZSetElementNode(v) => CompareEncodedValues(ZSET_ELEMENT_NODE, x.key, y.key, f, g, v, g.value, ra, rb);
    case BitSetElement(i) => CompareEncodedVarints(BITSET_ELEMENT, x.key, y.key, f, g, i, g.index, ra, rb);
    case ExpirationElement(e) => CompareEncodedVarints(KEY_EXPIRATION_ELEMENT, x.key, y.key, f, g, e, g.expireat, ra, rb);
    case NoFields(_) =>
  }

  /** Hash fields, set members and sorted-set nodes: one value each. */
  lemma CompareEncodedValues(t: byte, ka: Blob, kb: Blob, f: KeyFields, g: KeyFields, v: Value, w: Value, ra: Blob, rb: Blob)
    requires || (t == HASH_FIELD && f == HashField(v) && g == HashField(w))
             || (t == SET_ELEMENT && f == SetElement(v) && g == SetElement(w))
             || (t == ZSET_ELEMENT_NODE && f == ZSetElementNode(v) && g == ZSetElementNode(w))
    ensures CompareTrailing(t, ka, kb, EncodeFields(f) + ra, EncodeFields(g) + rb) == CompareFields(ka, kb, f, g)
  {
    assert EncodeFields(f) == EncodeValue(v) && EncodeFields(g) == EncodeValue(w);
    DecodeEncodeValue(v, ra);
    DecodeEncodeValue(w, rb);
    ValuesOfParts(t, ka, kb, v, w, EncodeValue(v) + ra, EncodeValue(w) + rb, ra, rb);
  }

  lemma ValuesOfParts(t: byte, ka: Blob, kb: Blob, v: Value, w: Value, a: Blob, b: Blob, ra: Blob, rb: Blob)
    requires t == HASH_FIELD || t == SET_ELEMENT || t == ZSET_ELEMENT_NODE
    requires DecodeValue(a) == Some((v, ra)) && DecodeValue(b) == Some((w, rb))
    ensures CompareTrailing(t, ka, kb, a, b) == CompareValues(v, w)
  {
  }

  /** List elements: one position each, compared as numbers. */
  lemma CompareEncodedPositions(ka: Blob, kb: Blob, s: Value, u: Value, ra: Blob, rb: Blob)
    ensures CompareTrailing(LIST_ELEMENT, ka, kb, EncodeFields(ListElement(s)) + ra, EncodeFields(ListElement(u)) + rb)
         == CompareFields(ka, kb, ListElement(s), ListElement(u))
  {
    DecodeEncodeValue(s, ra);
    DecodeEncodeValue(u, rb);
    PositionsOfParts(ka, kb, s, u, EncodeValue(s) + ra, EncodeValue(u) + rb, ra, rb);
  }

  lemma PositionsOfParts(ka: Blob, kb: Blob, s: Value, u: Value, a: Blob, b: Blob, ra: Blob, rb: Blob)
    requires DecodeValue(a) == Some((s, ra)) && DecodeValue(b) == Some((u, rb))
    ensures CompareTrailing(LIST_ELEMENT, ka, kb, a, b) == CompareNum(NumberValue(s), NumberValue(u))
  {
  }

  /** Bit-set elements and expiration entries: one varint each. */
  lemma CompareEncodedVarints(t: byte, ka: Blob, kb: Blob, f: KeyFields, g: KeyFields, i: uint64, j: uint64, ra: Blob, rb: Blob)
    requires || (t == BITSET_ELEMENT && f == BitSetElement(i) && g == BitSetElement(j))
             || (t == KEY_EXPIRATION_ELEMENT && f == ExpirationElement(i) && g == ExpirationElement(j))
    ensures CompareTrailing(t, ka, kb, EncodeFields(f) + ra, EncodeFields(g) + rb) == CompareFields(ka, kb, f, g)
  {
    assert EncodeFields(f) == WriteVarUInt64(i) && EncodeFields(g) == WriteVarUInt64(j);
    ReadVarUInt64RoundTrip(i, ra);
    ReadVarUInt64RoundTrip(j, rb);
    VarintsOfParts(t, ka, kb, f, g, i, j, WriteVarUInt64(i) + ra, WriteVarUInt64(j) + rb, ra, rb);
  }

  lemma VarintsOfParts(t: byte, ka: Blob, kb: Blob, f: KeyFields, g: KeyFields, i: uint64, j: uint64,
                       a: Blob, b: Blob, ra: Blob, rb: Blob)
    requires || (t == BITSET_ELEMENT && f == BitSetElement(i) && g == BitSetElement(j))
             || (t == KEY_EXPIRATION_ELEMENT && f == ExpirationElement(i) && g == ExpirationElement(j))
    requires ReadVarUInt64(a) == Some((i, ra)) && ReadVarUInt64(b) == Some((j, rb))
    ensures CompareTrailing(t, ka, kb, a, b) == CompareFields(ka, kb, f, g)
  {
  }

  lemma CompareEncodedScored(ka: Blob, kb: Blob, s: Value, v: Value, u: Value, w: Value, ra: Blob, rb: Blob)
    ensures CompareTrailing(ZSET_ELEMENT, ka, kb, EncodeFields(ZSetElement(s, v)) + ra, EncodeFields(ZSetElement(u, w)) + rb)
         == CompareFields(ka, kb, ZSetElement(s, v), ZSetElement(u, w))
  {
    var ta, tb := EncodeValue(v) + ra, EncodeValue(w) + rb;
    assert EncodeFields(ZSetElement(s, v)) == EncodeValue(s) + EncodeValue(v);
    assert EncodeFields(ZSetElement(u, w)) == EncodeValue(u) + EncodeValue(w);
    AppendAssociates(EncodeValue(s), EncodeValue(v), ra);
    AppendAssociates(EncodeValue(u), EncodeValue(w), rb);
    DecodeEncodeValue(s, ta);
    DecodeEncodeValue(u, tb);
    DecodeEncodeValue(v, ra);
    DecodeEncodeValue(w, rb);
    ScoreThenMemberOfParts(ka, kb, s, v, u, w, EncodeValue(s) + ta, EncodeValue(u) + tb, ta, tb, ra, rb);
  }

  /** The sorted-set rule on two buffers that each hold a score and a member. */
  lemma ScoreThenMemberOfParts(ka: Blob, kb: Blob, s: Value, v: Value, u: Value, w: Value,
                               a: Blob, b: Blob, ta: Blob, tb: Blob, ra: Blob, rb: Blob)
    requires DecodeValue(a) == Some((s, ta)) && DecodeValue(b) == Some((u, tb))
    requires DecodeValue(ta) == Some((v, ra)) && DecodeValue(tb) == Some((w, rb))
    ensures CompareTrailing(ZSET_ELEMENT, ka, kb, a, b)
         == var byScore := CompareNum(NumberValue(s), NumberValue(u));
            if byScore != 0 then byScore else CompareValues(v, w)
  {
    assert CompareTrailing(ZSET_ELEMENT, ka, kb, a, b) == CompareScoreThenMember(a, b);
    ScoreThenMemberRule(s, v, u, w, a, b, ta, tb, ra, rb);
  }

  lemma ScoreThenMemberRule(s: Value, v: Value, u: Value, w: Value,
                            a: Blob, b: Blob, ta: Blob, tb: Blob, ra: Blob, rb: Blob)
    requires DecodeValue(a) == Some((s, ta)) && DecodeValue(b) == Some((u, tb))
    requires DecodeValue(ta) == Some((v, ra)) && DecodeValue(tb) == Some((w, rb))
    ensures CompareScoreThenMember(a, b)
         == var byScore := CompareNum(NumberValue(s), NumberValue(u));
            if byScore != 0 then byScore else CompareValues(v, w)
  {
    assert CompareDecodedNumbers(DecodeValue(a), DecodeValue(b)) == CompareNum(NumberValue(s), NumberValue(u));
  }

  /** Comparing two encoded keys (whatever bytes follow them) gives the
      order SemanticCompare describes on the keys themselves. */
  lemma CompareEncodedKeys(x: KeyObject, y: KeyObject, ra: Blob, rb: Blob)
    requires WellFormed(x) && WellFormed(y)
    ensures CompareKeys(EncodeKey(x) + ra, EncodeKey(y) + rb) == SemanticCompare(x, y)
  {
    ReadEncodedHeader(x, ra);
    ReadEncodedHeader(y, rb);
    CompareEncodedAfterHeaders(x, y, ra, rb);
  }

  lemma CompareEncodedAfterHeaders(x: KeyObject, y: KeyObject, ra: Blob, rb: Blob)
    requires WellFormed(x) && WellFormed(y)
    ensures CompareAfterHeaders(Header(x.db, KeyTypeOf(x)), Header(y.db, KeyTypeOf(y)),
                                WriteVarSlice(x.key) + EncodeFields(x.fields) + ra,
                                WriteVarSlice(y.key) + EncodeFields(y.fields) + rb)
         == SemanticCompare(x, y)
  {
    var hx := Header(x.db, KeyTypeOf(x));
    var hy := Header(y.db, KeyTypeOf(y));
    assert hx / 256 == x.db && hx % 256 == KeyTypeOf(x);
    assert hy / 256 == y.db && hy % 256 == KeyTypeOf(y);
    if x.db == y.db && KeyTypeOf(x) == KeyTypeOf(y) {
      ReadEncodedPrimaryKey(x, ra);
      ReadEncodedPrimaryKey(y, rb);
      CompareEncodedFields(x, y, ra, rb);
    }
  }

  /** The ordering rules, read off the encoded form: the first differing
      part among id, type and primary key decides; a sorted-set element
      consults its member only on a score tie; an expiration entry consults
      the key only on an expiry tie; hash fields, set members and
      sorted-set nodes use the value comparison. */
  lemma CompareKeysRules(x: KeyObject, y: KeyObject, ra: Blob, rb: Blob)
    requires WellFormed(x) && WellFormed(y)
    ensures var r := CompareKeys(EncodeKey(x) + ra, EncodeKey(y) + rb);
      && (x.db != y.db ==> r == CompareNumber(x.db, y.db))
      && (x.db == y.db && KeyTypeOf(x) != KeyTypeOf(y) ==> r == CompareNumber(KeyTypeOf(x), KeyTypeOf(y)))
      && (x.db == y.db && KeyTypeOf(x) == KeyTypeOf(y) != KEY_EXPIRATION_ELEMENT && x.key != y.key ==>
            r == CompareBytes(x.key, y.key))
      && (x.db == y.db && x.key == y.key && x.fields.ZSetElement? && y.fields.ZSetElement? ==>
            var byScore := CompareNum(NumberValue(x.fields.score), NumberValue(y.fields.score));
            r == if byScore != 0 then byScore else CompareValues(x.fields.value, y.fields.value))
      && (x.db == y.db && x.fields.ExpirationElement? && y.fields.ExpirationElement? ==>
            r == if x.fields.expireat != y.fields.expireat then CompareNumber(x.fields.expireat, y.fields.expireat)
                 else CompareBytes(x.key, y.key))
      && (x.db == y.db && x.key == y.key && x.fields.HashField? && y.fields.HashField? ==>
            r == CompareValues(x.fields.field, y.fields.field))
      && (x.db == y.db && x.key == y.key && x.fields.SetElement? && y.fields.SetElement? ==>
            r == CompareValues(x.fields.value, y.fields.value))
      && (x.db == y.db && x.key == y.key && x.fields.ZSetElementNode? && y.fields.ZSetElementNode? ==>
            r == CompareValues(x.fields.value, y.fields.value))
  {
    CompareEncodedKeys(x, y, ra, rb);
  }

  /** List positions that are integers of magnitude at most 2^53 are
      ordered numerically. */
  lemma ListElementsByPosition(x: KeyObject, y: KeyObject, ra: Blob, rb: Blob)
    requires WellFormed(x) && WellFormed(y) && x.db == y.db && x.key == y.key
    requires x.fields.ListElement? && y.fields.ListElement?
    requires x.fields.score.Integer? && -(Pow2(53) as int) <= x.fields.score.i <= Pow2(53)
    requires y.fields.score.Integer? && -(Pow2(53) as int) <= y.fields.score.i <= Pow2(53)
    ensures CompareKeys(EncodeKey(x) + ra, EncodeKey(y) + rb) == CompareNumber(x.fields.score.i, y.fields.score.i)
  {
    CompareEncodedKeys(x, y, ra, rb);
    ListPositionsCompare(x.key, y.key, x.fields.score, y.fields.score);
  }

  lemma ListPositionsCompare(ka: Blob, kb: Blob, s: Value, u: Value)
    requires s.Integer? && -(Pow2(53) as int) <= s.i <= Pow2(53)
    requires u.Integer? && -(Pow2(53) as int) <= u.i <= Pow2(53)
    ensures CompareFields(ka, kb, ListElement(s), ListElement(u)) == CompareNumber(s.i, u.i)
  {
    assert NumberValue(s) == Finite(s.i as real);
    assert NumberValue(u) == Finite(u.i as real);
  }

  // ---------------------------------------------------------------------
  // Order properties.

  lemma CompareFieldsAntisymmetric(ka: Blob, kb: Blob, f: KeyFields, g: KeyFields)
    ensures CompareFields(ka, kb, f, g) == -CompareFields(kb, ka, g, f)
  {
    match (f, g)
    case (HashField(v), HashField(w)) => CompareValuesAntisymmetric(v, w);
    case (ListElement(s), ListElement(u)) => CompareNumAntisymmetric(NumberValue(s), NumberValue(u));
    case (SetElement(v), SetElement(w)) => CompareValuesAntisymmetric(v, w);
    case (ZSetElement(s, v), ZSetElement(u, w)) =>
      CompareNumAntisymmetric(NumberValue(s), NumberValue(u));
      CompareValuesAntisymmetric(v, w);
    case (ZSetElementNode(v), ZSetElementNode(w)) => CompareValuesAntisymmetric(v, w);
    case (BitSetElement(i), BitSetElement(j)) =>
    case (ExpirationElement(e), ExpirationElement(d)) => CompareBytesAntisymmetric(ka, kb);
    case _ =>
  }

  /** Swapping the keys flips the sign of the order. */
  lemma SemanticCompareAntisymmetric(x: KeyObject, y: KeyObject)
    ensures SemanticCompare(x, y) == -SemanticCompare(y, x)
  {
    CompareBytesAntisymmetric(x.key, y.key);
    CompareFieldsAntisymmetric(x.key, y.key, x.fields, y.fields);
  }

  /** A key whose fields take part in a genuine order: its scores have a
      numeric reading that is not not-a-number, and its values are
      comparable. */
  predicate Orderable(k: KeyObject) {
    match k.fields
    case HashField(v) => Comparable(v)
    case ListElement(s) => !NumberValue(s).NaN?
    case SetElement(v) => Comparable(v)
    case ZSetElement(s, v) => !NumberValue(s).NaN? && Comparable(v)
    case ZSetElementNode(v) => Comparable(v)
    case _ => true
  }

  lemma CompareFieldsTransitive(x: KeyObject, y: KeyObject, z: KeyObject)
    requires Orderable(x) && Orderable(y) && Orderable(z)
    requires KeyTypeOf(x) == KeyTypeOf(y) == KeyTypeOf(z)
    requires WellFormed(x) && WellFormed(y) && WellFormed(z)
    ensures var ab, bc, ac := CompareFields(x.key, y.key, x.fields, y.fields),
                              CompareFields(y.key, z.key, y.fields, z.fields),
                              CompareFields(x.key, z.key, x.fields, z.fields);
      && (ab <= 0 && bc <= 0 ==> ac <= 0)
      && (ab < 0 && bc <= 0 ==> ac < 0)
      && (ab <= 0 && bc < 0 ==> ac < 0)
  {
    match x.fields
    case HashField(v) => CompareValuesTransitive(v, y.fields.field, z.fields.field);
    case ListElement(s) =>
      CompareNumTransitive(NumberValue(s), NumberValue(y.fields.score), NumberValue(z.fields.score));
    case SetElement(v) => CompareValuesTransitive(v, y.fields.value, z.fields.value);
    case ZSetElement(s, v) =>
      var s1, s2 := NumberValue(y.fields.score), NumberValue(z.fields.score);
      CompareNumTransitive(NumberValue(s), s1, s2);
      CompareNumAntisymmetric(NumberValue(s), s1);
      CompareNumAntisymmetric(s1, s2);
      CompareNumTransitive(s1, NumberValue(s), s2);
      CompareNumTransitive(NumberValue(s), s2, s1);
      CompareValuesTransitive(v, y.fields.value, z.fields.value);
    case ZSetElementNode(v) => CompareValuesTransitive(v, y.fields.value, z.fields.value);
    case BitSetElement(_) =>
    case ExpirationElement(_) => CompareBytesTransitive(x.key, y.key, z.key);
    case NoFields(_) =>
  }

  /** The key order is transitive on well-formed keys whose scores and
      values are orderable: together with antisymmetry, a total preorder. */
  lemma SemanticCompareTransitive(x: KeyObject, y: KeyObject, z: KeyObject)
    requires WellFormed(x) && WellFormed(y) && WellFormed(z)
    requires Orderable(x) && Orderable(y) && Orderable(z)
    ensures SemanticCompare(x, y) <= 0 && SemanticCompare(y, z) <= 0 ==> SemanticCompare(x, z) <= 0
    ensures SemanticCompare(x, y) < 0 && SemanticCompare(y, z) <= 0 ==> SemanticCompare(x, z) < 0
    ensures SemanticCompare(x, y) <= 0 && SemanticCompare(y, z) < 0 ==> SemanticCompare(x, z) < 0
  {
    if x.db == y.db == z.db && KeyTypeOf(x) == KeyTypeOf(y) == KeyTypeOf(z) {
      CompareBytesTransitive(x.key, y.key, z.key);
      if KeyTypeOf(x) == KEY_EXPIRATION_ELEMENT || (x.key == y.key && y.key == z.key) {
        CompareFieldsTransitive(x, y, z);
      }
    }
  }

  /** A key the order tells apart from every other: its scores are
      integers that convert to doubles exactly, and its values are not
      doubles (distinct double patterns may compare equal). */
  predicate Distinguishable(k: KeyObject) {
    match k.fields
    case HashField(v) => !v.Double?
    case ListElement(s) => s.Integer? && -(Pow2(53) as int) <= s.i <= Pow2(53)
    case SetElement(v) => !v.Double?
    case ZSetElement(s, v) => s.Integer? && -(Pow2(53) as int) <= s.i <= Pow2(53) && !v.Double?
    case ZSetElementNode(v) => !v.Double?
    case _ => true
  }

  /** On distinguishable keys the order is strict: two keys compare equal
      exactly when they are the same key. */
  lemma SemanticCompareZero(x: KeyObject, y: KeyObject)
    requires WellFormed(x) && WellFormed(y)
    requires Distinguishable(x) && Distinguishable(y)
    ensures SemanticCompare(x, y) == 0 <==> x == y
  {
    if x.db == y.db && KeyTypeOf(x) == KeyTypeOf(y) {
      if KeyTypeOf(x) == KEY_EXPIRATION_ELEMENT || x.key == y.key {
        CompareFieldsZero(x, y);
      }
    }
  }

  lemma CompareFieldsZero(x: KeyObject, y: KeyObject)
    requires WellFormed(x) && WellFormed(y)
    requires Distinguishable(x) && Distinguishable(y)
    requires x.db == y.db && KeyTypeOf(x) == KeyTypeOf(y)
    requires KeyTypeOf(x) != KEY_EXPIRATION_ELEMENT ==> x.key == y.key
    ensures CompareFields(x.key, y.key, x.fields, y.fields) == 0 <==> x == y
  {
    match x.fields
    case HashField(v) => CompareValuesZero(v, y.fields.field);
    case ListElement(s) => ScoresZero(x.key, y.key, s, y.fields.score);
    case SetElement(v) => CompareValuesZero(v, y.fields.value);
    case ZSetElement(s, v) => ScoredMembersZero(x.key, y.key, s, v, y.fields.score, y.fields.value);
    case ZSetElementNode(v) => CompareValuesZero(v, y.fields.value);
    case BitSetElement(_) =>
    case ExpirationElement(_) =>
    case NoFields(_) =>
  }

  lemma ScoresZero(ka: Blob, kb: Blob, s: Value, u: Value)
    requires s.Integer? && -(Pow2(53) as int) <= s.i <= Pow2(53)
    requires u.Integer? && -(Pow2(53) as int) <= u.i <= Pow2(53)
    ensures CompareFields(ka, kb, ListElement(s), ListElement(u)) == 0 <==> s == u
  {
    ListPositionsCompare(ka, kb, s, u);
  }

  lemma ScoredMembersZero(ka: Blob, kb: Blob, s: Value, v: Value, u: Value, w: Value)
    requires s.Integer? && -(Pow2(53) as int) <= s.i <= Pow2(53) && !v.Double?
    requires u.Integer? && -(Pow2(53) as int) <= u.i <= Pow2(53) && !w.Double?
    ensures CompareFields(ka, kb, ZSetElement(s, v), ZSetElement(u, w)) == 0 <==> s == u && v == w
  {
    assert NumberValue(s) == Finite(s.i as real);
    assert NumberValue(u) == Finite(u.i as real);
    CompareValuesZero(v, w);
  }

  lemma CompareDecodedValuesAntisymmetric(da: Option<(Value, Blob)>, db: Option<(Value, Blob)>)
    ensures CompareDecodedValues(da, db) == -CompareDecodedValues(db, da)
  {
    if da.Some? && db.Some? {
      CompareValuesAntisymmetric(da.value.0, db.value.0);
    }
  }

  lemma CompareDecodedNumbersAntisymmetric(da: Option<(Value, Blob)>, db: Option<(Value, Blob)>)
    ensures CompareDecodedNumbers(da, db) == -CompareDecodedNumbers(db, da)
  {
    if da.Some? && db.Some? {
      CompareNumAntisymmetric(NumberValue(da.value.0), NumberValue(db.value.0));
    }
  }

  lemma CompareScoreThenMemberAntisymmetric(a: Blob, b: Blob)
    ensures CompareScoreThenMember(a, b) == -CompareScoreThenMember(b, a)
  {
    var sa, sb := DecodeValue(a), DecodeValue(b);
    CompareDecodedNumbersAntisymmetric(sa, sb);
    if sa.Some? && sb.Some? {
      CompareDecodedValuesAntisymmetric(DecodeValue(sa.value.1), DecodeValue(sb.value.1));
    }
  }

  lemma CompareTrailingAntisymmetric(t: byte, ka: Blob, kb: Blob, a: Blob, b: Blob)
    ensures CompareTrailing(t, ka, kb, a, b) == -CompareTrailing(t, kb, ka, b, a)
  {
    if t == HASH_FIELD || t == SET_ELEMENT || t == ZSET_ELEMENT_NODE {
      CompareDecodedValuesAntisymmetric(DecodeValue(a), DecodeValue(b));
    } else if t == LIST_ELEMENT {
      CompareDecodedNumbersAntisymmetric(DecodeValue(a), DecodeValue(b));
    } else if t == ZSET_ELEMENT {
      CompareScoreThenMemberAntisymmetric(a, b);
    } else if t == KEY_EXPIRATION_ELEMENT {
      CompareBytesAntisymmetric(ka, kb);
    }
  }

  /** For any two byte strings, well-formed keys or not, swapping them flips
      the sign of the comparator's answer. */
  lemma CompareKeysAntisymmetric(a: Blob, b: Blob)
    ensures CompareKeys(a, b) == -CompareKeys(b, a)
  {
    var ha, hb := ReadFixUInt32(a), ReadFixUInt32(b);
    if ha.Some? && hb.Some? {
      CompareAfterHeadersAntisymmetric(ha.value.0, hb.value.0, ha.value.1, hb.value.1);
    }
  }

  lemma CompareAfterHeadersAntisymmetric(aheader: uint32, bheader: uint32, a1: Blob, b1: Blob)
    ensures CompareAfterHeaders(aheader, bheader, a1, b1) == -CompareAfterHeaders(bheader, aheader, b1, a1)
  {
    var ka, kb := ReadVarSlice(a1), ReadVarSlice(b1);
    if aheader / 256 == bheader / 256 && aheader % 256 == bheader % 256 && ka.Some? && kb.Some? {
      CompareAfterPrimaryKeysAntisymmetric(aheader % 256, ka.value.0, kb.value.0, ka.value.1, kb.value.1);
    }
  }

  lemma CompareAfterPrimaryKeysAntisymmetric(t: byte, akey: Blob, bkey: Blob, a2: Blob, b2: Blob)
    ensures CompareAfterPrimaryKeys(t, akey, bkey, a2, b2) == -CompareAfterPrimaryKeys(t, bkey, akey, b2, a2)
  {
    CompareBytesAntisymmetric(akey, bkey);
    CompareTrailingAntisymmetric(t, akey, bkey, a2, b2);
  }
}

# ardb data format and engine context, in Dafny

This project models the storage format of ardb, a Redis-protocol server that
keeps its data in an ordered key/value engine (RocksDB). It also proves
properties of that model. The model covers these parts:

- **ValueData** (`values.dfy`, `value_data.dfy`). This is the tagged scalar
  (Empty, Integer, Double or Bytes) that appears inside keys and values.
  - The codec and the comparison are pure functions over a `Value` datatype.
  - The mutators `Clear`, `Incrby`, `SetValue` and `ToNumber` are methods of
    a `ValueData` class whose fields mirror the C++ object.
- **The key codec** (`keys.dfy`). `encode_key`, `decode_key` (with and
  without an expected key) and `peek_dbkey_header`.
  - The header word is `(db << 8) + type`, taken modulo 2^32.
  - Next comes the length-prefixed primary key.
  - Last come the trailing fields of each key type.
- **The key order** (`comparator.dfy`). This is `ardb_compare_keys`, the
  comparator handed to the engine, written as a function over two byte
  strings.
  - `SemanticCompare` states the same order over decoded keys.
  - `CompareEncodedKeys` proves the two agree on encoded keys, whatever
    bytes follow them.
  - On top of that the model proves the ordering rules, antisymmetry on
    arbitrary byte strings, and transitivity and strictness on the keys
    where they hold.
- **Numbers** (`numbers.dfy`). These are the sign contracts of the
  COMPARE_NUMBER, COMPARE_EXIST and RETURN_NONEQ_RESULT macros.
  - It includes the numeric meaning of a double's bit pattern.
  - It includes the round-half-to-even conversion of an int64 to a double
    that `ValueData::NumberValue` performs.
- **Meta records** (`meta.dfy`). `encode_meta` and `decode_meta`: a common
  header, a body chosen by type, and the rule that a compressed or dirty
  set drops its bounds.
- **next_key** (`next_key.dfy`). The prefix-scan upper bound, as a method
  with the source's backward loop, proved against a function.
- **Argument parsers** (`parsers.dfy`). `LexRange::Parse` with
  `verify_lexrange_para`, and `ZSetQueryOptions::Parse`. Each is a class
  whose `Parse` method sets fields as it goes, proved against a function.
- **RocksDBEngine::ContextHolder and RocksDBConfig** (`rocksdb_engine.dfy`).
  - The per-context reference count and batch bookkeeping, as a class.
  - The configuration defaults.

The BufferHelper primitives (`buffer_helper.dfy`) are not part of the
source files. The model fixes this layout for them:
- little-endian fixed-width integers;
- LEB128 varints, with the signed variant mapped through two's complement;
- slices written as a varint length followed by the bytes.

Every proof above relies only on three properties of these primitives:
- reading what was written gives it back and leaves what followed;
- a read of a buffer cut short fails;
- a fixed-width read takes exactly its width from the front (an 8-bit read
  takes byte 0) and succeeds whenever that many bytes remain.

Several things the code relies on are not in the two files, so the model
takes them as follows:
- The tag numbers of ValueData and of KeyType come from `data_format.hpp`,
  which is not part of this model, so the numbers used here are an
  assumption. The codec proofs rely only on their being distinct. The order
  across kinds does depend on them: `CompareValues` orders Empty < Bytes <
  Integer < Double, and keys of different types order by these KeyType
  numbers.
- The COMPARE_NUMBER, COMPARE_EXIST and RETURN_NONEQ_RESULT macros are
  defined in a header that is not part of this model. Beyond their sign
  contract, the model reads them in two ways:
  - a COMPARE_NUMBER with a not-a-number on either side gives 0;
  - a COMPARE_EXIST with both parts missing gives 0.
- Parsing text as an integer or a double, the 32-bit integer parser of
  ZSetQueryOptions, floating-point addition and the meta body codecs enter
  as function parameters.
- Whether `char` is signed is a parameter of `next_key`.

In two places LexRange::Parse treats "+" and "-" asymmetrically, and the
model follows the code:
- A "+" given as the minimum leaves an empty minimum with its inclusive
  flag unchanged.
- A "-" given as the maximum leaves an empty maximum with its inclusive
  flag unchanged.

The code also assigns both bounds before its final order check. A parse
that fails that check therefore still changes the range.

## Model

| member | source | states |
|---|---|---|
| Values.EncodeValue | src/data_format.cpp:110-136 | the encoding starts with the tag byte of the active kind |
| Values.DecodeValue | src/data_format.cpp:137-179 | a successful decode consumed a first byte equal to the decoded value's tag |
| Values.DecodeEncodeValue | src/data_format.cpp:110-179 | decoding what Encode wrote gives back the same kind and payload for all four kinds and returns the following bytes untouched |
| Values.DecodeUnknownTag | src/data_format.cpp:173-178 | a tag byte outside the four kinds never decodes, whatever follows it |
| Values.DecodeValueTruncated | src/data_format.cpp:137-179 | every proper prefix of an encoded value fails to decode |
| Values.NumberValue | src/data_format.cpp:267-284 | an integer of magnitude at most 2^53 reads as itself; Empty and Bytes read as not-a-number |
| Values.CompareValues | src/data_format.cpp:360-389 | different kinds order by tag number, integers numerically, byte strings lexicographically |
| Values.CompareValuesAntisymmetric | src/data_format.cpp:360-389 | swapping the operands flips the sign |
| Values.CompareValuesTransitive | src/data_format.cpp:360-389 | the comparison is transitive on values that are not NaN doubles, for both `<=` and `<` |
| Values.CompareValuesZero | src/data_format.cpp:360-389 | unless both are doubles, two values compare equal exactly when they are the same value |
| Numbers.CompareNumber | src/data_format.cpp:440-445 | the sign contract of RETURN_NONEQ_RESULT and COMPARE_NUMBER: 0, negative or positive exactly when equal, below or above |
| Numbers.CompareExist | src/data_format.cpp:437-439 | with a part missing, the result is negative exactly when only the first is missing, and 0 when both are (the model's reading of the macro) |
| Numbers.CompareNum | src/data_format.cpp:476 | COMPARE_NUMBER on doubles: ordered by value; a comparison with not-a-number gives 0 (the model's reading of the macro) |
| Numbers.CompareNumAntisymmetric | src/data_format.cpp:476 | swapping two doubles flips the sign of COMPARE_NUMBER |
| Numbers.CompareNumTransitive | src/data_format.cpp:476 | COMPARE_NUMBER is transitive on doubles that are not NaN |
| Numbers.CompareIntegerNums | src/data_format.cpp:476 | integer scores of magnitude at most 2^53 compare as the integers do after conversion |
| Numbers.RoundToDoubleExact | src/data_format.cpp:271-273 | every integer of magnitude at most 2^53 converts to a double exactly |
| Numbers.RoundToDoubleCollision | src/data_format.cpp:271-273 | 2^53 + 1 converts to the same double as 2^53 |
| Keys.Header | src/data_format.cpp:543 | the header holds the id modulo 2^24 above the low byte, and the type in the low byte |
| Keys.HeaderIsShiftedId | src/data_format.cpp:543 | the header equals `(db * 256) mod 2^32 + type` |
| Keys.EncodeKey | src/data_format.cpp:541-602 | an encoded key is at least four bytes long |
| Keys.PeekHeader | src/data_format.cpp:604-615 | fails exactly on fewer than four bytes; the id it returns fits in 24 bits |
| Keys.PeekEncodedKey | src/data_format.cpp:604-615 | peeking at an encoded well-formed key gives its id and type |
| Keys.HeaderKeepsLowIdBits | src/data_format.cpp:543 | an id of 2^24 or more comes back from the header as its low 24 bits |
| Keys.DecodeFields | src/data_format.cpp:646-727 | decoded fields carry the type they were read for; types without fields give no fields |
| Keys.DecodeTrailingFields | src/data_format.cpp:648-716 | each type yields its own kind of fields |
| Keys.DecodeKey | src/data_format.cpp:617-728 | a decoded key is well formed and, with an expected key, names the same logical key |
| Keys.DecodeEncodeFields | src/data_format.cpp:546-716 | the trailing fields of every key type decode back to themselves |
| Keys.DecodeEncodeKey | src/data_format.cpp:541-728 | decoding what encode_key wrote gives back the same id, type, primary key and fields, whatever follows |
| Keys.DecodeEncodeKeyExpected | src/data_format.cpp:627-645 | with an expected key, decoding succeeds exactly when type, id and primary key agree, and then gives the encoded key |
| Keys.DecodeFieldsTruncated | src/data_format.cpp:646-716 | every proper prefix of encoded fields fails to decode |
| Keys.DecodeKeyTruncated | src/data_format.cpp:617-728 | a key cut short anywhere decodes to nothing, never to a partial key |
| Keys.CutInPrimaryKey | src/data_format.cpp:634-638 | a key cut inside its primary key does not decode |
| Keys.UnreadablePrimaryKey | src/data_format.cpp:634-638 | a header followed by bytes that hold no primary key does not decode |
| Keys.CutInFields | src/data_format.cpp:646-716 | a key cut inside its fields does not decode |
| Keys.UnreadableFields | src/data_format.cpp:646-716 | a header and key followed by unreadable fields do not decode |
| Keys.CutInValue | src/data_format.cpp:648-697 | fields that start with a value fail when that value is cut short |
| Keys.UnreadableValue | src/data_format.cpp:648-697 | fields that start with a value fail when no value can be read |
| Keys.CutInMember | src/data_format.cpp:679-687 | a sorted-set element cut inside its member does not decode |
| Keys.UnreadableMember | src/data_format.cpp:682-685 | a readable score followed by an unreadable member fails |
| Keys.CutInNumber | src/data_format.cpp:699-715 | a bit index or expiry time cut short fails |
| Keys.UnreadableNumber | src/data_format.cpp:699-715 | an unreadable bit index or expiry time fails |
| Comparator.CompareKeys | src/data_format.cpp:432-539 | a key shorter than its header sorts by presence alone |
| Comparator.CompareEncodedKeys | src/data_format.cpp:432-539 | on encoded well-formed keys the comparator computes the key order SemanticCompare describes, whatever bytes follow the keys |
| Comparator.CompareKeysRules | src/data_format.cpp:432-539 | the first differing part among id, type and primary key decides; sorted-set elements consult the member only on a score tie; expiration entries consult the key only on an expiry tie; hash fields, set members and sorted-set nodes use the value comparison |
| Comparator.ListElementsByPosition | src/data_format.cpp:470-477 | list elements with integer positions of magnitude at most 2^53 order by position |
| Comparator.CompareEncodedFields | src/data_format.cpp:459-531 | the type rule on encoded fields equals the rule on the decoded fields |
| Comparator.CompareEncodedScored | src/data_format.cpp:489-504 | the sorted-set rule on an encoded score and member equals the rule on the decoded pair |
| Comparator.ScoreThenMemberRule | src/data_format.cpp:489-504 | scores decide unless they tie; only then do the members decide |
| Comparator.CompareKeysAntisymmetric | src/data_format.cpp:432-539 | for any two byte strings, swapping them flips the sign of the result |
| Comparator.SemanticCompareAntisymmetric | src/data_format.cpp:432-539 | swapping two keys flips the sign of the key order |
| Comparator.SemanticCompareTransitive | src/data_format.cpp:432-539 | the key order is transitive on well-formed keys whose scores and values are orderable |
| Comparator.SemanticCompareZero | src/data_format.cpp:432-539 | on keys with exact integer scores and no double values, two keys compare equal exactly when they are the same key |
| Comparator.CompareFieldsTransitive | src/data_format.cpp:459-531 | the type rules are transitive on orderable fields |
| Comparator.CompareTrailingAntisymmetric | src/data_format.cpp:459-531 | the type rules flip sign when both sides are swapped |
| Meta.EncodeMeta | src/data_format.cpp:730-784 | the record starts with its header; a known type appends its body; a compressed or dirty set loses its bounds and keeps everything else; other records are unchanged |
| Meta.DecodeMeta | src/data_format.cpp:786-888 | a header that does not read fails; a success carries the header read; `only_head` gives a header-only record; a full record has a known type |
| Meta.DecodeEncodeMetaHeader | src/data_format.cpp:732-734 | the header (version, type, varint expiry) reads back as written |
| Meta.DecodeEncodedMetaHead | src/data_format.cpp:786-801 | reading only the header of any encoded record gives its header |
| Meta.DecodeEncodeMeta | src/data_format.cpp:730-888 | a record of a known type decodes to the record encode_meta left behind, given a body codec that round-trips |
| Meta.UnknownMetaTypeFails | src/data_format.cpp:877-880 | a record of an unknown type is written header-only and does not decode in full |
| Meta.MetaBodyFailureFails | src/data_format.cpp:808-875 | a body that does not decode fails the whole record |
| Meta.MetaHeaderTruncated | src/data_format.cpp:791-807 | a header cut short does not decode |
| KeyRange.NextKey | src/data_format.cpp:946-958 | the backward loop computes NextKeyOf |
| KeyRange.NextKeyShape | src/data_format.cpp:946-958 | with a qualifying byte, the result has the key's length and differs only at the last qualifying position, incremented; with none, it is the key followed by one NUL byte |
| KeyRange.NextKeyAboveUnsigned | src/data_format.cpp:946-958 | with an unsigned `char` the bound lies strictly above the key |
| KeyRange.NextKeyRangeTooWide | src/data_format.cpp:951-953 | a key outside the prefix lies inside [key, next_key(key)) |
| KeyRange.NextKeyRangeTooNarrowUnsigned | src/data_format.cpp:957 | with an unsigned `char`, a key inside the prefix lies above the bound |
| KeyRange.NextKeyRangeEmptySigned | src/data_format.cpp:953 | with a signed `char`, 0xFF wraps and the bound falls below the key |
| KeyRange.PrefixSuccessor | src/data_format.cpp:946-958 | the corrected bound is never longer than the key |
| KeyRange.PrefixRange | src/data_format.cpp:946-958 | a string starts with the key exactly when it lies in [key, PrefixSuccessor(key)) |
| Parsers.VerifyLexRangeParaShape | src/data_format.cpp:1261-1277 | a bound is never empty; a one-byte bound is accepted exactly when it is "-", "+", "(" or "["; a longer one exactly when it starts with "(" or "[" |
| Parsers.ParseLexRange | src/data_format.cpp:1279-1325 | malformed bounds fail and change nothing; "-", "+", "[" and "(" set the bounds and flags as the code does; success exactly when the maximum is empty or the minimum does not exceed it |
| Parsers.LexRange.Parse | src/data_format.cpp:1279-1325 | the method's result and new state are ParseLexRange of the old state |
| Parsers.LexRangeRoundTrip | src/data_format.cpp:1261-1325 | bounds written as "[a" or "(b" parse back to the texts and flags they came from |
| Parsers.ParseQueryOptions | src/data_format.cpp:1232-1259 | flags once set stay set; no arguments left is success; an unknown argument fails; LIMIT without two more arguments fails; LIMIT whose offset does not parse as a 32-bit integer fails with the options unchanged; LIMIT whose offset parses but whose count does not fails with the offset stored |
| Parsers.ZSetQueryOptions.Parse | src/data_format.cpp:1232-1259 | the loop's result and new state are ParseQueryOptions of the old state |
| Parsers.LimitFromClause | src/data_format.cpp:1240-1251 | a limit set by a successful parse is made of the two integers following some LIMIT argument |
| Parsers.ParseRenderedOptions | src/data_format.cpp:1232-1259 | the arguments that ask for a set of options parse back to exactly those options |
| Parsers.KeywordsMatch | src/data_format.cpp:1236-1240 | each keyword matches itself and not the other |
| ValueDataObject.NumberFromText | src/data_format.cpp:306-318 | a number is produced exactly when a parser accepts the text; the integer parser takes precedence |
| ValueDataObject.CoerceRules | src/data_format.cpp:321-358 | without conversion, bytes equal to the input; with it, empty input is Empty, text not starting with a sign or digit stays bytes, and integer text becomes that integer |
| ValueDataObject.CoerceFaithful | src/data_format.cpp:321-358 | whatever SetValue stores is the input, Empty for empty input, or a number a parser read from the input |
| ValueDataObject.ValueData.Clear | src/data_format.cpp:391-397 | the value becomes Empty and every payload field is reset |
| ValueDataObject.ValueData.Incrby | src/data_format.cpp:202-220 | Bytes returns -1 and changes nothing; Empty or Integer becomes Integer of the integer field plus the delta, wrapped to 64 bits, and returns 0 (the wrap is the model's choice); Double adds in floating point |
| ValueDataObject.ValueData.SetValue | src/data_format.cpp:321-358 | the stored value is Coerce of the input; the fields the result does not use keep their contents |
| ValueDataObject.ValueData.ToNumber | src/data_format.cpp:296-319 | Empty returns -1 and numbers return 0, both unchanged; bytes holding a number become it (returns 1, bytes cleared); other bytes return -1 unchanged |
| RocksDBEngine.ContextHolder.constructor | src/engine/rocksdb_engine.hpp:159-162 | empty batch, ref 0, count 0, no snapshot, snapshot_ref 0 |
| RocksDBEngine.ContextHolder.ReleaseRef | src/engine/rocksdb_engine.hpp:139-143 | ref becomes ReleasedRef of the old ref; nothing else changes |
| RocksDBEngine.ContextHolder.AddRef | src/engine/rocksdb_engine.hpp:144-147 | ref becomes AddedRef of the old ref; nothing else changes |
| RocksDBEngine.ContextHolder.EmptyRef | src/engine/rocksdb_engine.hpp:148-151 | true exactly when ref is 0 |
| RocksDBEngine.ContextHolder.Clear | src/engine/rocksdb_engine.hpp:152-156 | the batch is emptied and count is 0; ref, snapshot and snapshot_ref keep their values |
| RocksDBEngine.ReleasedRef | src/engine/rocksdb_engine.hpp:139-143 | never underflows: at 0 it stays 0, otherwise it decreases by exactly 1 |
| RocksDBEngine.AddedRef | src/engine/rocksdb_engine.hpp:144-147 | one more, wrapping to 0 at the top of the 32-bit range |
| RocksDBEngine.ReleaseUndoesAdd | src/engine/rocksdb_engine.hpp:139-147 | AddRef then ReleaseRef restores the count, unless it wrapped |
| RocksDBEngine.AddRefWraps | src/engine/rocksdb_engine.hpp:144-147 | at 2^32 - 1 the count wraps to 0 and the release after it does not restore it |
| RocksDBEngine.BalancedRefs | src/engine/rocksdb_engine.hpp:139-147 | n additions then n releases return to the start when nothing wraps |
| RocksDBEngine.ReleaseRefsFloor | src/engine/rocksdb_engine.hpp:139-143 | more releases than references leave the count at 0 |
| RocksDBEngine.DefaultRocksDBConfig | src/engine/rocksdb_engine.hpp:118-123 | 10240 open files, 10 bloom bits, a commit every 1024 writes, snappy compression, and every size 0 |

## Left out

- Floating-point arithmetic and formatting are out: `IncrbyFloat`, `operator+=`, `operator/=`, and the rendering in `ToString`/`AsString`. A Double payload is an opaque 64-bit pattern. Its numeric reading follows IEEE-754 and is used only for comparisons.
- ValueDataObject.ValueData.Incrby: on a Double, the floating-point sum is the `addDouble` parameter, so nothing is stated about the resulting number. On Empty or Integer, `integer_value += value` can overflow, which C++ leaves undefined for a signed integer; the two's-complement wrap to 64 bits is the model's choice.
- ValueDataObject.ValueData.constructor: the ValueData constructor is declared in data_format.hpp, which is not part of this model; its initial state (Empty, every field zero) is assumed.
- Numbers.CompareNum: a comparison with not-a-number giving 0 is the model's reading of COMPARE_NUMBER, whose definition is not in the two files. Another definition, such as `a == b ? 0 : (a > b ? 1 : -1)`, gives -1 in both directions.
- Numbers.CompareExist: 0 when both parts are missing is the model's reading of COMPARE_EXIST, whose definition is not in the two files.
- Numbers.CompareNumAntisymmetric: holds for not-a-number only under the reading of COMPARE_NUMBER above.
- Values.CompareValuesAntisymmetric: holds for two not-a-number doubles only under the reading of COMPARE_NUMBER above.
- Comparator.CompareTrailingAntisymmetric: holds for positions or scores without a number (Empty, Bytes or a not-a-number double), and for fields neither side can read, only under the readings of COMPARE_NUMBER and COMPARE_EXIST above.
- Comparator.CompareKeysAntisymmetric: holds for arbitrary byte strings only under the readings of COMPARE_NUMBER and COMPARE_EXIST above; with other definitions it can fail where both keys miss a part or a number is not-a-number.
- Comparator.SemanticCompareAntisymmetric: holds for list elements and sorted-set scores without a number only under the reading of COMPARE_NUMBER above.
- Parsing text as a number is left out. `raw_toint64`, `raw_todouble` and `string_toint32` are parameters. A parser that fails is assumed to leave its output untouched. Because of the short-circuit `||` at src/data_format.cpp:1246, a LIMIT clause whose offset parses but whose count does not still stores the offset. A clause whose offset does not parse leaves both fields as they were.
- raw_toint64 and raw_todouble are assumed to leave their output untouched when they fail, so a failed ToNumber changes nothing.
- The geo and area option parsers are left out. They parse doubles and call coordinate checks defined elsewhere.
- `decode_value_obj`, the `GET_KEY_TYPE` macro and `ValueData::ToBytes` are left out. They depend on value-object classes and iterators defined elsewhere, and `ToBytes` always returns -1.
- The meta body codecs (`StringMetaValue::Encode` and its siblings) are defined elsewhere and enter as parameters. `DecodeEncodeMeta` assumes only that the body codec round-trips.
- decode_meta frees a body that failed to decode with `DELETE`. The model assumes that macro also nulls the pointer, so the record is reported as a failure.
- Values.CompareValues: models the comparison of two values that hold their bytes the same way. ValueData::Compare reads the owned string unless both sides are empty (src/data_format.cpp:382-386), so an owned value against a borrowed one with the same bytes does not compare equal there; the key comparator compares only borrowed values, and that mix is not modelled.
- Values.DecodeValue: the `to_slice` choice between a borrowed slice and an owned copy is not modelled, because both hold the same bytes. Nor are the fields a failed Decode has already overwritten in the object.
- The C++ objects are heap-allocated and logged to; decode results here are `Option` values and there is no logging.
- The RocksDB wrapper is not modelled: `Put`/`Del` on a ContextHolder, batch commit and discard, the engine, its iterators and its factory. These are calls into the storage library, or their bodies are not in the two files. The batch is modelled only as the sequence that `Clear` empties.
- The comparator's `FindShortestSeparator` and `FindShortSuccessor` hooks and its name are left out. They are allowed to do nothing.
- The snapshot is an opaque handle (`Option<nat>`, None for null), and thread-local storage of the holders is out.
- The BufferHelper layout is a modelling choice, because its bodies are not in the two files.
- Comparator.SemanticCompareTransitive and Comparator.SemanticCompareZero: transitivity needs scores and values that are not NaN, and strictness needs exact integer scores and no double values. Distinct double patterns such as +0 and -0 compare equal.

## Findings

| source | as written | input that shows it | evidently intended | confidence | as-written member | corrected member |
|---|---|---|---|---|---|---|
| src/data_format.cpp:946-958 | next_key increments the last byte below 0x7F, or appends a NUL when there is none. The half-open range [key, next_key(key)) then does not hold exactly the keys that start with `key`. | key "a" 0x7F: the key "b" lies in the range but does not start with it. Key 0x80 with unsigned `char`: 0x80 0x01 starts with it but lies above the bound. Key 0xFF with signed `char`: the bound is 0x00, below the key. | the bound of a prefix scan: drop trailing 0xFF bytes and increment the last remaining byte, with no bound when none remains | not executed | KeyRange.NextKeyRangeTooWide | KeyRange.PrefixSuccessor |

/** ValueData as the object the command layer holds and mutates in place:
    a type tag and one field per kind. Only the field the tag selects is
    meaningful, but the others keep whatever they last held, and Incrby
    reads the integer field of an Empty value, so the model keeps them all.

    Parsing text as a number (raw_toint64, raw_todouble) and floating-point
    addition are defined outside this file; they enter as function
    parameters and nothing is assumed about them. */
module ValueDataObject {
  import opened BufferHelper
  import opened Values

  /** Two's-complement wrap-around of an integer into int64. */
  function Wrap64(x: int): (r: int64)
    ensures -(INT64_HALF as int) <= x < INT64_HALF ==> r == x
    ensures (r - x) % UINT64_LIMIT == 0
  {
    var m := x % UINT64_LIMIT;
    if m < INT64_HALF then m else m - UINT64_LIMIT
  }

  /** True for the bytes '+', '-' and '0'..'9': the characters a number may start with. */
  predicate StartsNumber(c: byte) {
    c == 43 || c == 45 || (48 <= c <= 57)
  }

  /** Reading text as a number: an integer when the integer parser accepts
      it, otherwise a double when the double parser does. */
  function NumberFromText(s: Blob, toInt64: Blob -> Option<int64>, toDouble: Blob -> Option<uint64>): (r: Option<Value>)
    ensures r.Some? ==> r.value.Integer? || r.value.Double?
    ensures r.Some? && r.value.Integer? ==> toInt64(s) == Some(r.value.i)
    ensures r.Some? && r.value.Double? ==> toInt64(s).None? && toDouble(s) == Some(r.value.bits)
    ensures r.None? <==> toInt64(s).None? && toDouble(s).None?
  {
    match toInt64(s)
    case Some(i) => Some(Integer(i))
    case None =>
      match toDouble(s)
      case Some(d) => Some(Double(d))
      case None => None
  }

  /** The value SetValue leaves behind for input `s`. */
  function Coerce(s: Blob, autoConvert: bool, toInt64: Blob -> Option<int64>, toDouble: Blob -> Option<uint64>): (r: Value)
  {
    if !autoConvert then Bytes(s)
    else if s == [] then Empty
    else if !StartsNumber(s[0]) then Bytes(s)
    else
      match NumberFromText(s, toInt64, toDouble)
      case Some(n) => n
      case None => Bytes(s)
  }

  /** The coercion rules: without conversion the input is kept as bytes;
      with it, empty input is Empty, input not starting like a number stays
      bytes, and a number is produced only from text the parsers accept. */
  lemma CoerceRules(s: Blob, autoConvert: bool, toInt64: Blob -> Option<int64>, toDouble: Blob -> Option<uint64>)
    ensures !autoConvert ==> Coerce(s, autoConvert, toInt64, toDouble) == Bytes(s)
    ensures autoConvert && s == [] ==> Coerce(s, autoConvert, toInt64, toDouble) == Empty
    ensures autoConvert && s != [] && !StartsNumber(s[0]) ==> Coerce(s, autoConvert, toInt64, toDouble) == Bytes(s)
    ensures autoConvert && s != [] && StartsNumber(s[0]) && toInt64(s).Some? ==>
              Coerce(s, autoConvert, toInt64, toDouble) == Integer(toInt64(s).value)
  {
  }

  /** Whatever SetValue produces is a faithful reading of its input: the
      input itself, Empty for empty input, or a number a parser read from
      input that starts like a number. */
  lemma CoerceFaithful(s: Blob, autoConvert: bool, toInt64: Blob -> Option<int64>, toDouble: Blob -> Option<uint64>)
    ensures var r := Coerce(s, autoConvert, toInt64, toDouble);
      || r == Bytes(s)
      || (r == Empty && autoConvert && s == [])
      || (r.Integer? && autoConvert && s != [] && StartsNumber(s[0]) && toInt64(s) == Some(r.i))
      || (r.Double? && autoConvert && s != [] && StartsNumber(s[0]) && toDouble(s) == Some(r.bits))
  {
  }

  class ValueData {
    var vtype: byte
    var integerValue: int64
    var doubleValue: uint64
    var bytesValue: Blob

    ghost predicate Valid()
      reads this
    {
      vtype in {EMPTY_VALUE, BYTES_VALUE, INTEGER_VALUE, DOUBLE_VALUE}
    }

    /** The kind and payload the tag selects: what Encode writes. */
    function View(): (v: Value)
      reads this
      requires Valid()
      ensures Tag(v) == vtype
    {
      if vtype == INTEGER_VALUE then Integer(integerValue)
      else if vtype == DOUBLE_VALUE then Double(doubleValue)
      else if vtype == BYTES_VALUE then Bytes(bytesValue)
      else Empty
    }

    /** A fresh value: Empty with every field zero (the constructor lives in
        data_format.hpp, which is not part of this model). */
    constructor ()
      ensures Valid() && View() == Empty
      ensures integerValue == 0 && doubleValue == 0 && bytesValue == []
    {
      vtype := EMPTY_VALUE;
      integerValue := 0;
      doubleValue := 0;
      bytesValue := [];
    }

    /** Back to Empty, every payload field reset. */
    method Clear()
      modifies this
      ensures Valid() && View() == Empty
      ensures integerValue == 0 && doubleValue == 0 && bytesValue == []
    {
      integerValue := 0;
      doubleValue := 0;
      bytesValue := [];
      vtype := EMPTY_VALUE;
    }

    /** Adds `delta`. Bytes refuse (-1, nothing changes); Empty and Integer
        become Integer holding the integer field plus `delta` (wrapping at
        64 bits); a double adds `delta` in floating point. */
    method Incrby(delta: int64, addDouble: (uint64, int64) -> uint64) returns (ret: int)
      requires Valid()
      modifies this
      ensures Valid()
      ensures ret == (if old(vtype) == BYTES_VALUE then -1 else 0)
      ensures old(vtype) == BYTES_VALUE ==> View() == old(View()) && unchanged(this)
      ensures old(vtype) == EMPTY_VALUE || old(vtype) == INTEGER_VALUE ==>
                View() == Integer(Wrap64(old(integerValue) + delta))
      ensures old(vtype) == DOUBLE_VALUE ==> View() == Double(addDouble(old(doubleValue), delta))
      ensures old(vtype) != DOUBLE_VALUE ==> doubleValue == old(doubleValue)
      ensures old(vtype) == DOUBLE_VALUE ==> integerValue == old(integerValue)
      ensures bytesValue == old(bytesValue)
    {
      if vtype == BYTES_VALUE {
        return -1;
      }
      if vtype == EMPTY_VALUE || vtype == INTEGER_VALUE {
        vtype := INTEGER_VALUE;
        integerValue := Wrap64(integerValue + delta);
        return 0;
      }
      doubleValue := addDouble(doubleValue, delta);
      return 0;
    }

    /** Stores `s`, converting it to a number when asked to and when it
        reads as one. Fields the outcome does not use keep their contents. */
    method SetValue(s: Blob, autoConvert: bool, toInt64: Blob -> Option<int64>, toDouble: Blob -> Option<uint64>)
      modifies this
      ensures Valid()
      ensures View() == Coerce(s, autoConvert, toInt64, toDouble)
      ensures vtype != BYTES_VALUE ==> bytesValue == old(bytesValue)
      ensures vtype != INTEGER_VALUE ==> integerValue == old(integerValue)
      ensures vtype != DOUBLE_VALUE ==> doubleValue == old(doubleValue)
    {
      if !autoConvert {
        vtype := BYTES_VALUE;
        bytesValue := s;
      } else {
        if s == [] {
          vtype := EMPTY_VALUE;
          return;
        }
        var first := s[0];
        if first != 43 && first != 45 && (first < 48 || first > 57) {
          vtype := BYTES_VALUE;
          bytesValue := s;
        } else {
          var asInt := toInt64(s);
          if asInt.Some? {
            integerValue := asInt.value;
            vtype := INTEGER_VALUE;
          } else {
            var asDouble := toDouble(s);
            if asDouble.Some? {
              doubleValue := asDouble.value;
              vtype := DOUBLE_VALUE;
            } else {
              vtype := BYTES_VALUE;
              bytesValue := s;
            }
          }
        }
      }
    }

    /** Converts Bytes holding a number into that number (1), clearing the
        bytes; a value already numeric is left as is (0); Empty, and bytes
        that do not parse, are a failure (-1) and are left as they are. */
    method ToNumber(toInt64: Blob -> Option<int64>, toDouble: Blob -> Option<uint64>) returns (ret: int)
      requires Valid()
      modifies this
      ensures Valid()
      ensures old(vtype) == EMPTY_VALUE ==> ret == -1 && unchanged(this)
      ensures old(vtype) == INTEGER_VALUE || old(vtype) == DOUBLE_VALUE ==> ret == 0 && unchanged(this)
      ensures old(vtype) == BYTES_VALUE ==>
                match NumberFromText(old(bytesValue), toInt64, toDouble)
                case Some(n) => ret == 1 && View() == n && bytesValue == []
                case None => ret == -1 && unchanged(this)
      ensures ret == 1 && View().Integer? ==> doubleValue == old(doubleValue)
      ensures ret == 1 && View().Double? ==> integerValue == old(integerValue)
    {
      if vtype == EMPTY_VALUE {
        return -1;
      }
      if vtype != BYTES_VALUE {
        return 0;
      }
      var asInt := toInt64(bytesValue);
      if asInt.Some? {
        integerValue := asInt.value;
        bytesValue := [];
        vtype := INTEGER_VALUE;
        return 1;
      }
      var asDouble := toDouble(bytesValue);
      if asDouble.Some? {
        doubleValue := asDouble.value;
        bytesValue := [];
        vtype := DOUBLE_VALUE;
        return 1;
      }
      return -1;
    }
  }
}

/** next_key: the exclusive upper bound used for a scan over all keys that
    start with a given byte string. It copies the key, walks it from the
    last byte backwards, increments the first byte whose `char` value is
    below 0x7F and stops; when no byte qualifies it appends a NUL byte.

    Whether `char` is signed is up to the platform, and it decides which
    bytes qualify: with a signed `char` every byte from 0x80 up reads as
    negative and qualifies (0xFF then wraps to 0x00); with an unsigned one
    only bytes below 0x7F do. Both readings are modelled, selected by
    `signedChar`. */
module KeyRange {
  import opened BufferHelper

  /** The value a byte has as a `char`. */
  function CharValue(b: byte, signedChar: bool): (c: int)
    ensures -128 <= c < 256
    ensures !signedChar || b < 128 ==> c == b
  {
    if signedChar && b >= 128 then b - 256 else b
  }

  /** The byte test of the backward walk: `char` value below 0x7F. */
  predicate Bumpable(b: byte, signedChar: bool) {
    CharValue(b, signedChar) < 0x7F
  }

  /** The byte a qualifying `char` holds after `+ 1`. */
  function Bump(b: byte, signedChar: bool): (r: byte)
    requires Bumpable(b, signedChar)
    ensures r == (b + 1) % 256
  {
    (CharValue(b, signedChar) + 1) % 256
  }

  /** The position of the last qualifying byte, if any. */
  function LastBumpable(key: Blob, signedChar: bool): (r: Option<nat>)
    ensures r.Some? ==> r.value < |key| && Bumpable(key[r.value], signedChar)
    ensures r.Some? ==> forall k :: r.value < k < |key| ==> !Bumpable(key[k], signedChar)
    ensures r.None? ==> forall k :: 0 <= k < |key| ==> !Bumpable(key[k], signedChar)
    decreases |key|
  {
    if key == [] then None
    else if Bumpable(key[|key| - 1], signedChar) then Some(|key| - 1)
    else
      var r := LastBumpable(key[..|key| - 1], signedChar);
      assert forall k :: 0 <= k < |key| - 1 ==> key[..|key| - 1][k] == key[k];
      r
  }

  /** What next_key produces for `key`. */
  function NextKeyOf(key: Blob, signedChar: bool): Blob {
    match LastBumpable(key, signedChar)
    case None => key + [0]
    case Some(j) => key[j := Bump(key[j], signedChar)]
  }

  /** next_key as the source writes it: a copy, a backward walk, an
      in-place increment or an appended NUL. */
  method NextKey(key: Blob, signedChar: bool) returns (next: Blob)
    ensures next == NextKeyOf(key, signedChar)
  {
    next := key;
    var i := |next|;
    while i > 0
      invariant 0 <= i <= |key| && next == key
      invariant forall k :: i <= k < |key| ==> !Bumpable(key[k], signedChar)
    {
      var c := CharValue(next[i - 1], signedChar);
      if c < 0x7F {
        next := next[i - 1 := (c + 1) % 256];
        return;
      }
      i := i - 1;
    }
    next := next + [0];
  }

  /** The shape of the bound: when some byte qualifies, the key with only
      its last qualifying byte incremented; otherwise the key followed by
      one NUL byte. */
  lemma NextKeyShape(key: Blob, signedChar: bool)
    ensures (exists j :: 0 <= j < |key| && Bumpable(key[j], signedChar)) ==>
      var next := NextKeyOf(key, signedChar);
      && |next| == |key|
      && exists j :: 0 <= j < |key| && Bumpable(key[j], signedChar)
           && (forall k :: j < k < |key| ==> !Bumpable(key[k], signedChar))
           && next[j] == (key[j] as int + 1) % 256
           && (forall k :: 0 <= k < |key| && k != j ==> next[k] == key[k])
    ensures (forall j :: 0 <= j < |key| ==> !Bumpable(key[j], signedChar)) ==>
      NextKeyOf(key, signedChar) == key + [0]
  {
    match LastBumpable(key, signedChar)
    case None =>
    case Some(j) =>
      var next := NextKeyOf(key, signedChar);
      assert next[j] == (key[j] as int + 1) % 256;
      assert forall k :: 0 <= k < |key| && k != j ==> next[k] == key[k];
  }

  /** With an unsigned `char` the bound is strictly above the key. */
  lemma NextKeyAboveUnsigned(key: Blob)
    ensures CompareBytes(key, NextKeyOf(key, false)) < 0
  {
    var next := NextKeyOf(key, false);
    match LastBumpable(key, false)
    case None =>
      assert IsPrefix(key, next);
      PrefixSortsFirst(key, next);
    case Some(j) =>
      assert key[..j] == next[..j];
      FirstDifferenceDecides(key, next, j);
  }

  /** Two strings that agree before position `j` and differ upward at `j`
      are ordered by that byte. */
  lemma {:induction false} FirstDifferenceDecides(a: Blob, b: Blob, j: nat)
    requires j < |a| && j < |b| && a[..j] == b[..j] && a[j] < b[j]
    ensures CompareBytes(a, b) < 0
  {
    if j > 0 {
      assert a[0] == a[..j][0] && b[0] == b[..j][0];
      assert a[1..][..j - 1] == a[..j][1..] && b[1..][..j - 1] == b[..j][1..];
      FirstDifferenceDecides(a[1..], b[1..], j - 1);
    }
  }

  // ---------------------------------------------------------------------
  // The half-open range [key, next_key(key)) is meant to hold exactly the
  // keys that start with `key`. It does not.

  /** A qualifying byte before a 0x7F byte is incremented, so the range
      reaches past the keys that start with `key`: with k = "a" 0x7F, the
      key "b" lies in the range but does not start with k. Either reading
      of `char`. */
  lemma NextKeyRangeTooWide(signedChar: bool)
    ensures var k, s := [0x61, 0x7F], [0x62];
      && !IsPrefix(k, s)
      && CompareBytes(k, s) < 0 && CompareBytes(s, NextKeyOf(k, signedChar)) < 0
  {
    var k: Blob := [0x61, 0x7F];
    assert LastBumpable(k[..1], signedChar) == Some(0);
    assert NextKeyOf(k, signedChar) == [0x62, 0x7F];
  }

  /** With an unsigned `char`, a key of bytes at or above 0x7F gets a NUL
      appended, which leaves out longer keys with the same start: for
      k = 0x80, the key 0x80 0x01 starts with k but lies above the bound. */
  lemma NextKeyRangeTooNarrowUnsigned()
    ensures var k, s := [0x80], [0x80, 0x01];
      && IsPrefix(k, s)
      && CompareBytes(s, NextKeyOf(k, false)) > 0
  {
    var k: Blob := [0x80];
    assert LastBumpable(k[..0], false) == None;
    assert NextKeyOf(k, false) == [0x80, 0x00];
  }

  /** With a signed `char`, 0xFF wraps to 0x00, so the bound falls below
      the key and the range is empty, not even holding the key itself. */
  lemma NextKeyRangeEmptySigned()
    ensures var k := [0xFF];
      && NextKeyOf(k, true) == [0x00]
      && CompareBytes(NextKeyOf(k, true), k) < 0
  {
  }

  // ---------------------------------------------------------------------
  // The bound the range needs: drop trailing 0xFF bytes and increment the
  // last remaining byte. A key of only 0xFF bytes (or the empty key) has
  // no such bound, and the scan then runs to the end.

  function PrefixSuccessor(key: Blob): (r: Option<Blob>)
    ensures r.Some? ==> |r.value| <= |key|
  {
    if key == [] then None
    else
      match PrefixSuccessor(key[1..])
      case Some(t) => Some([key[0]] + t)
      case None => if key[0] == 255 then None else Some([key[0] + 1])
  }

  /** A string starts with `key` exactly when it lies in the half-open
      range from `key` to its successor (to the end when it has none). */
  lemma {:induction false} PrefixRange(key: Blob, s: Blob)
    ensures IsPrefix(key, s) <==>
      CompareBytes(key, s) <= 0 && (PrefixSuccessor(key).None? || CompareBytes(s, PrefixSuccessor(key).value) < 0)
  {
    if key != [] && s != [] {
      var c, d := key[0], s[0];
      var succ := PrefixSuccessor(key);
      assert IsPrefix(key, s) <==> c == d && IsPrefix(key[1..], s[1..]) by {
        if |key| <= |s| {
          assert s[..|key|] == [d] + s[1..][..|key| - 1];
          assert key == [c] + key[1..];
        }
      }
      if d == c {
        PrefixRange(key[1..], s[1..]);
        match PrefixSuccessor(key[1..])
        case Some(t) =>
          assert ([c] + t)[1..] == t;
        case None =>
      } else if d > c && succ.Some? {
        match PrefixSuccessor(key[1..])
        case Some(t) =>
        case None =>
          assert succ.value == [c + 1];
          CompareBytesAntisymmetric(succ.value, s);
      }
    }
  }
}

/** The argument parsers of the sorted-set commands: LexRange::Parse, which
    reads the two bounds of a lexicographic range, and
    ZSetQueryOptions::Parse, which reads the WITHSCORES and LIMIT options
    that follow a range. Both set fields of their object as they go and
    report success as a boolean. Arguments are byte strings. */
module Parsers {
  import opened BufferHelper

  type int32 = x: int | -0x8000_0000 <= x < 0x8000_0000

  const OPEN_PAREN: byte := 40     // '('
  const OPEN_BRACKET: byte := 91   // '['
  const PLUS: byte := 43           // '+'
  const MINUS: byte := 45          // '-'

  // ---------------------------------------------------------------------
  // LexRange

  /** verify_lexrange_para: a bound is "-", "+", or starts with '(' or '['. */
  predicate VerifyLexRangePara(s: Blob) {
    s == [MINUS] || s == [PLUS] || (s != [] && (s[0] == OPEN_PAREN || s[0] == OPEN_BRACKET))
  }

  /** The bounds verify_lexrange_para accepts: never the empty string; a
      single byte only when it is one of the two infinite markers or a
      bare bracket; anything longer exactly when it opens with a bracket. */
  lemma VerifyLexRangeParaShape(s: Blob)
    ensures VerifyLexRangePara(s) ==> s != []
    ensures |s| == 1 ==> (VerifyLexRangePara(s) <==> s[0] in {MINUS, PLUS, OPEN_PAREN, OPEN_BRACKET})
    ensures |s| >= 2 ==> (VerifyLexRangePara(s) <==> s[0] == OPEN_PAREN || s[0] == OPEN_BRACKET)
  {
    if |s| >= 2 {
      assert s != [MINUS] && s != [PLUS];
    }
  }

  datatype LexBounds = LexBounds(min: Blob, max: Blob, includeMin: bool, includeMax: bool)

  /** The inclusive flag one bound leaves: '(' clears it, '[' sets it, the
      infinite marker of its own side sets it, anything else keeps it. */
  function BoundInclusive(str: Blob, infinite: Blob, prev: bool): bool
    requires str != []
  {
    if str == infinite then true
    else if str[0] == OPEN_PAREN then false
    else if str[0] == OPEN_BRACKET then true
    else prev
  }

  /** The text one bound leaves: empty for the infinite marker of its own
      side, otherwise everything after the first byte. */
  function BoundText(str: Blob, infinite: Blob): Blob
    requires str != []
  {
    if str == infinite then [] else str[1..]
  }

  /** What LexRange::Parse does to a range holding `prev`: whether it
      succeeds, and the bounds it leaves (set even when the final order
      check fails). */
  function ParseLexRange(minstr: Blob, maxstr: Blob, prev: LexBounds): (r: (bool, LexBounds))
    ensures !VerifyLexRangePara(minstr) || !VerifyLexRangePara(maxstr) ==> r == (false, prev)
    ensures VerifyLexRangePara(minstr) && VerifyLexRangePara(maxstr) ==>
      && (minstr == [MINUS] ==> r.1.min == [] && r.1.includeMin)
      && (maxstr == [PLUS] ==> r.1.max == [] && r.1.includeMax)
      && (minstr[0] == OPEN_BRACKET ==> r.1.min == minstr[1..] && r.1.includeMin)
      && (minstr[0] == OPEN_PAREN ==> r.1.min == minstr[1..] && !r.1.includeMin)
      && (maxstr[0] == OPEN_BRACKET ==> r.1.max == maxstr[1..] && r.1.includeMax)
      && (maxstr[0] == OPEN_PAREN ==> r.1.max == maxstr[1..] && !r.1.includeMax)
      && (minstr == [PLUS] ==> r.1.min == [] && r.1.includeMin == prev.includeMin)
      && (maxstr == [MINUS] ==> r.1.max == [] && r.1.includeMax == prev.includeMax)
      && (r.0 <==> r.1.max == [] || CompareBytes(r.1.min, r.1.max) <= 0)
  {
    if !VerifyLexRangePara(minstr) || !VerifyLexRangePara(maxstr) then (false, prev)
    else
      var b := LexBounds(BoundText(minstr, [MINUS]), BoundText(maxstr, [PLUS]),
                         BoundInclusive(minstr, [MINUS], prev.includeMin),
                         BoundInclusive(maxstr, [PLUS], prev.includeMax));
      (!(CompareBytes(b.min, b.max) > 0 && b.max != []), b)
  }

  class LexRange {
    var min: Blob
    var max: Blob
    var includeMin: bool
    var includeMax: bool

    function View(): LexBounds
      reads this
    {
      LexBounds(min, max, includeMin, includeMax)
    }

    /** LexRange::Parse: checks both bounds, sets the inclusive flags from
        their first bytes, sets the bound texts, then refuses a range whose
        minimum lies above a non-empty maximum. */
    method Parse(minstr: Blob, maxstr: Blob) returns (ok: bool)
      modifies this
      ensures (ok, View()) == ParseLexRange(minstr, maxstr, old(View()))
    {
      if !VerifyLexRangePara(minstr) || !VerifyLexRangePara(maxstr) {
        return false;
      }
      if minstr[0] == OPEN_PAREN {
        includeMin := false;
      }
      if minstr[0] == OPEN_BRACKET {
        includeMin := true;
      }
      if maxstr[0] == OPEN_PAREN {
        includeMax := false;
      }
      if maxstr[0] == OPEN_BRACKET {
        includeMax := true;
      }
      if minstr == [MINUS] {
        min := [];
        includeMin := true;
      } else {
        min := minstr[1..];
      }
      if maxstr == [PLUS] {
        max := [];
        includeMax := true;
      } else {
        max := maxstr[1..];
      }
      if CompareBytes(min, max) > 0 && max != [] {
        return false;
      }
      return true;
    }
  }

  /** Bounds given as "[a" and "(b" parse back to the texts and flags they
      were written from, and parsing succeeds exactly when a <= b or b is
      empty. */
  lemma LexRangeRoundTrip(b: LexBounds, prev: LexBounds)
    ensures var minstr := [if b.includeMin then OPEN_BRACKET else OPEN_PAREN] + b.min;
            var maxstr := [if b.includeMax then OPEN_BRACKET else OPEN_PAREN] + b.max;
            var r := ParseLexRange(minstr, maxstr, prev);
      && r.1 == b
      && (r.0 <==> b.max == [] || CompareBytes(b.min, b.max) <= 0)
  {
    var minstr := [if b.includeMin then OPEN_BRACKET else OPEN_PAREN] + b.min;
    var maxstr := [if b.includeMax then OPEN_BRACKET else OPEN_PAREN] + b.max;
    assert minstr[1..] == b.min && maxstr[1..] == b.max;
  }

  // ---------------------------------------------------------------------
  // ZSetQueryOptions

  const WITHSCORES: Blob := [119, 105, 116, 104, 115, 99, 111, 114, 101, 115]  // "withscores"
  const LIMIT: Blob := [108, 105, 109, 105, 116]                                // "limit"

  /** The text a C string sees: everything before the first NUL byte. */
  function CString(s: Blob): (r: Blob)
    ensures |r| <= |s| && 0 !in r
    ensures 0 !in s ==> r == s
  {
    if s == [] || s[0] == 0 then [] else [s[0]] + CString(s[1..])
  }

  function LowerAscii(b: byte): byte {
    if 65 <= b <= 90 then b + 32 else b
  }

  /** strcasecmp(token, keyword) == 0 for a lower-case keyword. */
  predicate MatchesKeyword(token: Blob, keyword: Blob) {
    var c := CString(token);
    |c| == |keyword| && forall k :: 0 <= k < |c| ==> LowerAscii(c[k]) == keyword[k]
  }

  datatype QueryOptions = QueryOptions(withscores: bool, withlimit: bool, limitOffset: int32, limitCount: int32)

  /** What ZSetQueryOptions::Parse does from argument `i` on: WITHSCORES
      sets its flag; LIMIT needs two more arguments that parse as 32-bit
      integers, stores them and sets its flag; anything else is a failure.
      The options already set stay set when a later argument fails. */
  function ParseQueryOptions(cmd: seq<Blob>, i: nat, opts: QueryOptions, toInt32: Blob -> Option<int32>): (r: (bool, QueryOptions))
    ensures opts.withscores ==> r.1.withscores
    ensures opts.withlimit ==> r.1.withlimit
    ensures i >= |cmd| ==> r == (true, opts)
    ensures i < |cmd| && !MatchesKeyword(cmd[i], WITHSCORES) && !MatchesKeyword(cmd[i], LIMIT) ==> r == (false, opts)
    ensures i < |cmd| && MatchesKeyword(cmd[i], LIMIT) && i + 2 >= |cmd| ==> r == (false, opts)
    ensures (i < |cmd| && !MatchesKeyword(cmd[i], WITHSCORES) && MatchesKeyword(cmd[i], LIMIT) && i + 2 < |cmd|
             && toInt32(cmd[i + 1]).None?) ==> r == (false, opts)
    ensures (i < |cmd| && !MatchesKeyword(cmd[i], WITHSCORES) && MatchesKeyword(cmd[i], LIMIT) && i + 2 < |cmd|
             && toInt32(cmd[i + 1]).Some? && toInt32(cmd[i + 2]).None?)
            ==> r == (false, opts.(limitOffset := toInt32(cmd[i + 1]).value))
    decreases |cmd| - i
  {
    if i >= |cmd| then (true, opts)
    else if MatchesKeyword(cmd[i], WITHSCORES) then
      ParseQueryOptions(cmd, i + 1, opts.(withscores := true), toInt32)
    else if MatchesKeyword(cmd[i], LIMIT) then
      if i + 2 >= |cmd| then (false, opts)
      else
        match toInt32(cmd[i + 1])
        case None => (false, opts)
        case Some(offset) =>
          match toInt32(cmd[i + 2])
          case None => (false, opts.(limitOffset := offset))
          case Some(count) =>
            ParseQueryOptions(cmd, i + 3, opts.(limitOffset := offset, limitCount := count, withlimit := true), toInt32)
    else (false, opts)
  }

  /** Limit settings come from a LIMIT clause: when a successful parse
      leaves a limit that was not there before, the offset and count it
      holds are the integers that follow some LIMIT argument. */
  lemma {:induction false} LimitFromClause(cmd: seq<Blob>, i: nat, opts: QueryOptions, toInt32: Blob -> Option<int32>)
    ensures var r := ParseQueryOptions(cmd, i, opts, toInt32);
      r.0 && r.1.withlimit && (!opts.withlimit || r.1.limitOffset != opts.limitOffset || r.1.limitCount != opts.limitCount) ==>
        exists k :: i <= k && k + 2 < |cmd| && MatchesKeyword(cmd[k], LIMIT)
          && toInt32(cmd[k + 1]) == Some(r.1.limitOffset) && toInt32(cmd[k + 2]) == Some(r.1.limitCount)
    decreases |cmd| - i
  {
    if i < |cmd| {
      if MatchesKeyword(cmd[i], WITHSCORES) {
        LimitFromClause(cmd, i + 1, opts.(withscores := true), toInt32);
      } else if MatchesKeyword(cmd[i], LIMIT) && i + 2 < |cmd|
             && toInt32(cmd[i + 1]).Some? && toInt32(cmd[i + 2]).Some? {
        var next := opts.(limitOffset := toInt32(cmd[i + 1]).value, limitCount := toInt32(cmd[i + 2]).value, withlimit := true);
        LimitFromClause(cmd, i + 3, next, toInt32);
      }
    }
  }

  class ZSetQueryOptions {
    var withscores: bool
    var withlimit: bool
    var limitOffset: int32
    var limitCount: int32

    function View(): QueryOptions
      reads this
    {
      QueryOptions(withscores, withlimit, limitOffset, limitCount)
    }

    /** ZSetQueryOptions::Parse: walks the arguments from `idx`, setting
        fields as options are recognised. */
    method Parse(cmd: seq<Blob>, idx: nat, toInt32: Blob -> Option<int32>) returns (ok: bool)
      modifies this
      ensures (ok, View()) == ParseQueryOptions(cmd, idx, old(View()), toInt32)
    {
      var i := idx;
      while i < |cmd|
        invariant ParseQueryOptions(cmd, i, View(), toInt32) == ParseQueryOptions(cmd, idx, old(View()), toInt32)
        decreases |cmd| - i
      {
        if MatchesKeyword(cmd[i], WITHSCORES) {
          withscores := true;
        } else if MatchesKeyword(cmd[i], LIMIT) {
          if i + 2 >= |cmd| {
            return false;
          }
          var offset := toInt32(cmd[i + 1]);
          if offset.None? {
            return false;
          }
          limitOffset := offset.value;
          var count := toInt32(cmd[i + 2]);
          if count.None? {
            return false;
          }
          limitCount := count.value;
          withlimit := true;
          i := i + 2;
        } else {
          return false;
        }
        i := i + 1;
      }
      return true;
    }
  }

  /** The arguments that ask for a given set of options: WITHSCORES when
      scores are wanted, then LIMIT with the offset and count written out
      by `intText`. */
  function RenderQueryOptions(o: QueryOptions, intText: int32 -> Blob): seq<Blob> {
    (if o.withscores then [WITHSCORES] else [])
      + (if o.withlimit then [LIMIT, intText(o.limitOffset), intText(o.limitCount)] else [])
  }

  /** A keyword of lower-case letters matches itself. */
  lemma LowerCaseKeywordMatches(keyword: Blob)
    requires forall k :: 0 <= k < |keyword| ==> 97 <= keyword[k] <= 122
    ensures MatchesKeyword(keyword, keyword) && |CString(keyword)| == |keyword|
  {
    assert 0 !in keyword;
    assert CString(keyword) == keyword;
  }

  lemma WithscoresKeyword(w: Blob)
    requires w == WITHSCORES
    ensures MatchesKeyword(w, w) && |CString(w)| == 10
  {
    forall k | 0 <= k < |w|
      ensures 97 <= w[k] <= 122
    {
      if k < 5 {
        assert w[..5] == [119, 105, 116, 104, 115] && w[k] == w[..5][k];
      } else {
        assert w[5..] == [99, 111, 114, 101, 115] && w[k] == w[5..][k - 5];
      }
    }
    LowerCaseKeywordMatches(w);
  }

  lemma LimitKeyword(l: Blob)
    requires l == LIMIT
    ensures MatchesKeyword(l, l) && |CString(l)| == 5
  {
    forall k | 0 <= k < |l|
      ensures 97 <= l[k] <= 122
    {
      if k < 3 {
        assert l[..3] == [108, 105, 109] && l[k] == l[..3][k];
      } else {
        assert l[3..] == [105, 116] && l[k] == l[3..][k - 3];
      }
    }
    LowerCaseKeywordMatches(l);
  }

  lemma KeywordsMatch(w: Blob, l: Blob)
    requires w == WITHSCORES && l == LIMIT
    ensures MatchesKeyword(w, w) && !MatchesKeyword(w, l)
    ensures MatchesKeyword(l, l) && !MatchesKeyword(l, w)
  {
    WithscoresKeyword(w);
    LimitKeyword(l);
  }

  /** A LIMIT clause ending the arguments sets both limit fields and the flag. */
  lemma ParseFinalLimit(cmd: seq<Blob>, i: nat, opts: QueryOptions, toInt32: Blob -> Option<int32>, offset: int32, count: int32)
    requires i + 3 == |cmd| && MatchesKeyword(cmd[i], LIMIT) && !MatchesKeyword(cmd[i], WITHSCORES)
    requires toInt32(cmd[i + 1]) == Some(offset) && toInt32(cmd[i + 2]) == Some(count)
    ensures ParseQueryOptions(cmd, i, opts, toInt32) == (true, opts.(limitOffset := offset, limitCount := count, withlimit := true))
  {
  }

  /** Parsing the arguments rendered from a set of options gives those
      options back, when the integer parser reads back what `intText`
      wrote. */
  lemma ParseRenderedOptions(o: QueryOptions, start: QueryOptions, toInt32: Blob -> Option<int32>, intText: int32 -> Blob)
    requires !start.withscores && !start.withlimit
    requires o.withlimit ==> toInt32(intText(o.limitOffset)) == Some(o.limitOffset) && toInt32(intText(o.limitCount)) == Some(o.limitCount)
    requires !o.withlimit ==> o.limitOffset == start.limitOffset && o.limitCount == start.limitCount
    ensures ParseQueryOptions(RenderQueryOptions(o, intText), 0, start, toInt32) == (true, o)
  {
    KeywordsMatch(WITHSCORES, LIMIT);
    var cmd := RenderQueryOptions(o, intText);
    if o.withscores {
      var s1 := start.(withscores := true);
      assert cmd[0] == WITHSCORES;
      assert ParseQueryOptions(cmd, 0, start, toInt32) == ParseQueryOptions(cmd, 1, s1, toInt32);
      if o.withlimit {
        assert cmd[1] == LIMIT && cmd[2] == intText(o.limitOffset) && cmd[3] == intText(o.limitCount);
        ParseFinalLimit(cmd, 1, s1, toInt32, o.limitOffset, o.limitCount);
      }
    } else if o.withlimit {
      assert cmd[0] == LIMIT && cmd[1] == intText(o.limitOffset) && cmd[2] == intText(o.limitCount);
      ParseFinalLimit(cmd, 0, start, toInt32, o.limitOffset, o.limitCount);
    }
  }
}

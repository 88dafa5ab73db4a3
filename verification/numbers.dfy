/** The numeric comparisons the codec and the comparator rely on: the sign
    contract of the three-way comparison macros, the numeric meaning of a
    double's 64-bit pattern, and the rounding a 64-bit integer undergoes
    when it is converted to a double. */
module Numbers {
  import opened BufferHelper

  /** Three-way comparison with the sign contract of COMPARE_NUMBER and
      RETURN_NONEQ_RESULT: 1 when a > b, -1 when a < b, 0 otherwise. */
  function CompareNumber(a: int, b: int): (r: int)
    ensures r == 0 <==> a == b
    ensures r < 0 <==> a < b
    ensures r > 0 <==> a > b
    ensures -1 <= r <= 1
  {
    if a > b then 1 else if a < b then -1 else 0
  }

  /** Presence comparison of COMPARE_EXIST, consulted only when at least one
      side is missing: a missing part sorts first. The macro is defined in a
      header that is not part of this model; the result 0 when both parts
      are missing is this model's reading of it. */
  function CompareExist(foundA: bool, foundB: bool): (r: int)
    requires !foundA || !foundB
    ensures r == 0 <==> !foundA && !foundB
    ensures r < 0 <==> !foundA && foundB
  {
    if !foundA && foundB then -1 else if foundA && !foundB then 1 else 0
  }

  /** A double read as a number: not-a-number, an infinity, or a finite real. */
  datatype Num = NaN | NegInf | PosInf | Finite(r: real)

  function Pow2(k: nat): (r: nat)
    ensures r > 0
  {
    if k == 0 then 1 else 2 * Pow2(k - 1)
  }

  /** The IEEE-754 binary64 value a 64-bit pattern stands for. */
  function DoubleValue(bits: uint64): Num {
    var negative := bits >= INT64_HALF;
    var exponent := (bits / Pow2(52)) % 2048;
    var fraction := bits % Pow2(52);
    if exponent == 2047 then
      (if fraction != 0 then NaN else if negative then NegInf else PosInf)
    else
      var mantissa := if exponent == 0 then fraction else Pow2(52) + fraction;
      var shift := if exponent == 0 then 1 else exponent;
      var magnitude :=
        if shift >= 1075 then (mantissa * Pow2(shift - 1075)) as real
        else (mantissa as real) / (Pow2(1075 - shift) as real);
      Finite(if negative then -magnitude else magnitude)
  }

  /** Number of binary digits of `n` (0 for 0). */
  function BitLength(n: nat): nat {
    if n == 0 then 0 else 1 + BitLength(n / 2)
  }

  lemma {:induction false} BitLengthBetween(n: nat, j: nat)
    requires Pow2(j) <= n < Pow2(j + 1)
    ensures BitLength(n) == j + 1
  {
    if j > 0 {
      BitLengthBetween(n / 2, j - 1);
    }
  }

  lemma {:induction false} BitLengthBelow(n: nat, j: nat)
    requires n < Pow2(j)
    ensures BitLength(n) <= j
  {
    if n > 0 {
      BitLengthBelow(n / 2, j - 1);
    }
  }

  /** The integer value of the double nearest to `i` (round half to even),
      which is what converting an int64 to a double yields: a significand
      of 53 bits, so integers beyond 2^53 in magnitude may move. */
  function RoundToDouble(i: int): int {
    if i < 0 then -(RoundMagnitude(-i) as int) else RoundMagnitude(i)
  }

  function RoundMagnitude(m: nat): nat {
    if BitLength(m) <= 53 then m else RoundAt(m, BitLength(m) - 53)
  }

  /** `m` rounded to a multiple of 2^k, half to even. */
  function RoundAt(m: nat, k: nat): nat
    requires k > 0
  {
    var unit := Pow2(k);
    var q := m / unit;
    var rem := m % unit;
    var half := Pow2(k - 1);
    var up := rem > half || (rem == half && q % 2 == 1);
    (if up then q + 1 else q) * unit
  }

  /** Every integer of magnitude at most 2^53 converts to a double exactly. */
  lemma RoundToDoubleExact(i: int)
    requires -(Pow2(53) as int) <= i <= Pow2(53)
    ensures RoundToDouble(i) == i
  {
    var m := if i < 0 then -i else i;
    RoundMagnitudeExact(m, 52);
  }

  lemma RoundMagnitudeExact(m: nat, j: nat)
    requires j == 52 && m <= Pow2(j + 1)
    ensures RoundMagnitude(m) == m
  {
    if m < Pow2(j + 1) {
      BitLengthBelow(m, j + 1);
    } else {
      PowerBitLength(m, j + 1);
      PowerRoundsToItself(m, j);
    }
  }

  /** 2^k has k + 1 bits. */
  lemma PowerBitLength(m: nat, k: nat)
    requires m == Pow2(k)
    ensures BitLength(m) == k + 1
  {
    Pow2Doubles(k);
    BitLengthBetween(m, k);
  }

  /** 2^(j+1) for j >= 1 is a multiple of 4, so rounding away its lowest
      bit leaves it as it is: 2^53 is representable although it has 54 bits. */
  lemma PowerRoundsToItself(m: nat, j: nat)
    requires j >= 1 && m == Pow2(j + 1)
    ensures RoundAt(m, 1) == m
  {
    Pow2Doubles(j);
    Pow2Doubles(j - 1);
    RoundAtEven(m, Pow2(j));
  }

  lemma Pow2Doubles(k: nat)
    ensures Pow2(k + 1) == 2 * Pow2(k)
  {
  }

  lemma RoundAtEven(m: nat, h: nat)
    requires m == 2 * h && h % 2 == 0
    ensures RoundAt(m, 1) == m
  {
    assert Pow2(1) == 2 && Pow2(0) == 1;
    assert m / 2 == h && m % 2 == 0;
  }

  lemma RoundAtHalfEven(m: nat, h: nat)
    requires m == 2 * h + 1 && h % 2 == 0
    ensures RoundAt(m, 1) == 2 * h
  {
    assert Pow2(1) == 2 && Pow2(0) == 1;
    assert m / 2 == h && m % 2 == 1;
  }

  /** 2^53 + 1 has no double of its own: it rounds to 2^53. */
  lemma RoundToDoubleCollision(p: nat, j: nat)
    requires j == 52 && p == Pow2(j + 1)
    ensures RoundToDouble(p + 1) == RoundToDouble(p) == p
  {
    RoundMagnitudeExact(p, j);
    RoundPastSignificand(j);
  }

  lemma RoundPastSignificand(j: nat)
    requires j == 52
    ensures RoundMagnitude(Pow2(j + 1) + 1) == Pow2(j + 1)
  {
    var m := Pow2(j + 1) + 1;
    OneAbovePowerOfTwo(j + 1);
    assert BitLength(m) - 53 == 1;
    RoundOneAbovePowerOfTwo(j);
  }

  lemma OneAbovePowerOfTwo(k: nat)
    requires k >= 1
    ensures BitLength(Pow2(k) + 1) == k + 1
  {
    assert Pow2(k + 1) == 2 * Pow2(k);
    BitLengthBetween(Pow2(k) + 1, k);
  }

  lemma RoundOneAbovePowerOfTwo(j: nat)
    requires j >= 1
    ensures RoundAt(Pow2(j + 1) + 1, 1) == Pow2(j + 1)
  {
    assert Pow2(j + 1) == 2 * Pow2(j);
    assert Pow2(j) == 2 * Pow2(j - 1);
    RoundAtHalfEven(Pow2(j + 1) + 1, Pow2(j));
  }

  /** What a numeric ValueData contributes to a numeric comparison. */
  function IntegerNum(i: int64): Num {
    Finite(RoundToDouble(i) as real)
  }

  /** COMPARE_NUMBER on two doubles: ordered by value. The macro is defined
      in a header that is not part of this model; that a comparison with a
      not-a-number yields 0 (neither `<` nor `>` holds) is this model's
      reading of it. */
  function CompareNum(a: Num, b: Num): (r: int)
    ensures -1 <= r <= 1
    ensures (a.NaN? || b.NaN?) ==> r == 0
  {
    if a.NaN? || b.NaN? then 0
    else if NumRank(a) != NumRank(b) then (if NumRank(a) < NumRank(b) then -1 else 1)
    else if a.Finite? then (if a.r < b.r then -1 else if a.r > b.r then 1 else 0)
    else 0
  }

  function NumRank(a: Num): int {
    match a
    case NegInf => 0
    case Finite(_) => 1
    case PosInf => 2
    case NaN => 3
  }

  lemma CompareNumAntisymmetric(a: Num, b: Num)
    ensures CompareNum(a, b) == -CompareNum(b, a)
  {
  }

  /** Comparison of numbers is a total preorder once not-a-number is excluded. */
  lemma CompareNumTransitive(a: Num, b: Num, c: Num)
    requires !a.NaN? && !b.NaN? && !c.NaN?
    ensures CompareNum(a, b) <= 0 && CompareNum(b, c) <= 0 ==> CompareNum(a, c) <= 0
    ensures CompareNum(a, b) < 0 && CompareNum(b, c) <= 0 ==> CompareNum(a, c) < 0
    ensures CompareNum(a, b) <= 0 && CompareNum(b, c) < 0 ==> CompareNum(a, c) < 0
  {
  }

  /** Integers of magnitude at most 2^53 compare numerically after conversion. */
  lemma CompareIntegerNums(i: int64, j: int64)
    requires -(Pow2(53) as int) <= i <= Pow2(53) && -(Pow2(53) as int) <= j <= Pow2(53)
    ensures CompareNum(IntegerNum(i), IntegerNum(j)) == CompareNumber(i, j)
  {
    RoundToDoubleExact(i);
    RoundToDoubleExact(j);
  }
}

/** Exact integers through `bigint` columns: what a driver delivers, what the
    entity holds, and the binary64 rounding in between. */
module Bigints {
  import opened Metadata

  /** 2^53, and the largest integer every smaller one of which a number holds
      exactly. */
  const TWO53: int := 9007199254740992
  const MAX_SAFE: int := TWO53 - 1

  /** 2^52, the smallest significand of a rounded integer. */
  const TWO52: int := 4503599627370496

  function Pow2(e: nat): (p: nat)
    ensures p > 0
  {
    if e == 0 then 1 else 2 * Pow2(e - 1)
  }

  // ------------------------------------------------------- rounding (4.3.1)

  /** The exponent of the unit a magnitude is rounded to: its leading 53 bits
      are kept. */
  function Exponent(m: nat): nat {
    if m < TWO53 then 0 else 1 + Exponent(m / 2)
  }

  /** The nearest binary64 integer, ties to even (IEEE 754-2019 section 4.3.1). */
  function RoundMagnitude(m: nat): nat {
    var q := Pow2(Exponent(m));
    var f, r := m / q, m % q;
    if 2 * r < q || (2 * r == q && f % 2 == 0) then f * q else (f + 1) * q
  }

  /** Whether a magnitude is a significand of at most 53 bits times a power of
      two. */
  ghost predicate Representable(m: nat) {
    exists f: nat, e: nat {:trigger IsScaled(m, f, e)} :: IsScaled(m, f, e)
  }

  predicate IsScaled(m: nat, f: nat, e: nat) {
    f < TWO53 && m == f * Pow2(e)
  }

  lemma {:induction false} ExponentBounds(m: nat)
    ensures m < TWO53 * Pow2(Exponent(m))
    ensures m >= TWO53 ==> m >= TWO52 * Pow2(Exponent(m)) && Exponent(m) >= 1
  {
    if m >= TWO53 {
      ExponentBounds(m / 2);
      var p := Pow2(Exponent(m / 2));
      assert Pow2(Exponent(m)) == 2 * p;
      if m / 2 < TWO53 { assert p == 1; }
    }
  }

  /** Small integers are not rounded at all ... */
  lemma SmallIsExact(m: nat)
    requires m < TWO53
    ensures RoundMagnitude(m) == m
  {
    assert Pow2(0) == 1;
  }

  /** ... and large ones are never rounded into the safe range. */
  lemma LargeStaysLarge(m: nat)
    requires m >= TWO53
    ensures RoundMagnitude(m) >= TWO53
  {
    ExponentBounds(m);
    var q := Pow2(Exponent(m));
    Quotient(m, q, TWO52);
    var f := m / q;
    assert q >= 2 by { assert q == 2 * Pow2(Exponent(m) - 1); }
    ScaleUp(TWO52, f, q);
    ScaleUp(TWO52, f + 1, q);
  }

  lemma Quotient(m: nat, q: nat, lower: nat)
    requires q > 0 && m >= lower * q
    ensures m / q >= lower && m == (m / q) * q + m % q
  {
    ScaleUp(m / q + 1, lower, q);
    assert (m / q + 1) * q == (m / q) * q + q;
  }

  lemma ScaleUp(a: nat, b: nat, q: nat)
    ensures a <= b ==> a * q <= b * q
    ensures a < b && q > 0 ==> a * q < b * q
  {
    if a <= b {
      var d: nat := b - a;
      assert (a + d) * q == a * q + d * q;
      Scaled(d, q);
    }
  }

  lemma {:induction false} Scaled(d: nat, q: nat)
    ensures d * q >= 0 && (d > 0 ==> d * q >= q)
  {
    if d > 0 {
      Scaled(d - 1, q);
      assert d * q == (d - 1) * q + q;
    }
  }

  // ------------------------------------------------------------ the nearest

  lemma {:induction false} Pow2Order(a: nat, b: nat)
    requires a < b
    ensures 2 * Pow2(a) <= Pow2(b)
  {
    if b > a + 1 { Pow2Order(a, b - 1); }
  }

  lemma {:induction false} Pow2Divides(a: nat, b: nat) returns (k: nat)
    requires a <= b
    ensures Pow2(b) == k * Pow2(a) && k > 0
  {
    if a == b {
      k := 1;
    } else {
      var j := Pow2Divides(a, b - 1);
      k := 2 * j;
      assert 2 * (j * Pow2(a)) == (2 * j) * Pow2(a);
    }
  }

  /** A binary64 integer between the ends of a binade is on its grid, and one
      outside is beyond an end. */
  lemma OnGrid(x: nat, f: nat, e: nat, d: nat) returns (k: nat)
    requires IsScaled(x, f, e)
    ensures x <= TWO52 * Pow2(d) || x == k * Pow2(d)
  {
    k := 0;
    if e >= d {
      var j := Pow2Divides(d, e);
      k := f * j;
      assert f * (j * Pow2(d)) == (f * j) * Pow2(d);
    } else {
      Pow2Order(e, d);
      ScaleUp(f, TWO53, Pow2(e));
      assert TWO53 * Pow2(e) == TWO52 * (2 * Pow2(e));
      ScaleUp2(TWO52, 2 * Pow2(e), Pow2(d));
    }
  }

  lemma ScaleUp2(a: nat, p: nat, q: nat)
    requires p <= q
    ensures a * p <= a * q
  {}

  function Distance(a: nat, b: nat): nat {
    if a < b then b - a else a - b
  }

  /** On the grid of `q`, rounding is at least as near as any other multiple. */
  lemma NearestOnGrid(m: nat, q: nat, k: nat)
    requires q > 0
    ensures var f, r := m / q, m % q;
            Distance(if 2 * r < q || (2 * r == q && f % 2 == 0) then f * q else (f + 1) * q, m) <= Distance(k * q, m)
  {
    var f, r := m / q, m % q;
    assert m == f * q + r;
    assert (f + 1) * q == f * q + q;
    ScaleUp(k, f, q);
    ScaleUp(f + 1, k, q);
  }

  /** No binary64 integer is nearer to `m` than what it is rounded to. */
  lemma RoundIsNearest(m: nat, x: nat)
    requires Representable(x)
    ensures Distance(RoundMagnitude(m), m) <= Distance(x, m)
  {
    if m < TWO53 {
      SmallIsExact(m);
    } else {
      var f: nat, e: nat :| IsScaled(x, f, e);
      var d := Exponent(m);
      ExponentBounds(m);
      var k := OnGrid(x, f, e, d);
      if x == k * Pow2(d) {
        NearestOnGrid(m, Pow2(d), k);
      } else {
        NearestOnGrid(m, Pow2(d), TWO52);
      }
    }
  }

  /** And a rounded integer is itself a binary64 integer. */
  lemma RoundIsRepresentable(m: nat)
    ensures Representable(RoundMagnitude(m))
  {
    var e := Exponent(m);
    var q := Pow2(e);
    var f := m / q;
    ExponentBounds(m);
    Quotient(m, q, 0);
    if f >= TWO53 { ScaleUp(TWO53, f, q); }
    if RoundMagnitude(m) == f * q {
      assert IsScaled(RoundMagnitude(m), f, e);
    } else if f + 1 < TWO53 {
      assert IsScaled(RoundMagnitude(m), f + 1, e);
    } else {
      assert TWO53 * q == TWO52 * (2 * q) && Pow2(e + 1) == 2 * q;
      assert IsScaled(RoundMagnitude(m), TWO52, e + 1);
    }
  }

  // ----------------------------------------------------------------- numbers

  /** A JavaScript number; the two zeros are one value. */
  datatype Number = Finite(value: real) | Infinite(negative: bool) | NotANumber

  /** The largest exponent of a binary64 integer with a 53-bit significand. */
  const MAX_EXPONENT: nat := 971

  /** `Number(n)` of an exact integer; one that rounds to 2^1024 or more
      overflows. */
  function ToNumber(n: int): Number {
    var m := RoundMagnitude(if n < 0 then -n else n);
    if Exponent(m) > MAX_EXPONENT then Infinite(n < 0)
    else Finite((if n < 0 then -(m as int) else m as int) as real)
  }

  /** A conversion gives the nearest binary64 integer, or overflows with the sign
      of `n` when that is 2^1024 or more. */
  lemma ConversionIs(n: int)
    ensures var m := RoundMagnitude(if n < 0 then -n else n);
            if m >= TWO53 * Pow2(971) then ToNumber(n) == Infinite(n < 0)
            else ToNumber(n).Finite? && ToNumber(n).value == (if n < 0 then -(m as int) else m as int) as real
  {
    OverflowsFrom(RoundMagnitude(if n < 0 then -n else n));
  }

  lemma OverflowsFrom(m: nat)
    ensures Exponent(m) > MAX_EXPONENT <==> m >= TWO53 * Pow2(971)
  {
    var e, limit := Exponent(m), Pow2(971);
    ExponentBounds(m);
    if e > 971 {
      Pow2Order(971, e);
      ScaleUp2(TWO52, 2 * limit, Pow2(e));
    } else if e < 971 {
      Pow2Order(e, 971);
      ScaleUp2(TWO53, Pow2(e), limit);
    }
  }

  predicate IsInteger(x: Number) {
    x.Finite? && x.value == x.value.Floor as real
  }

  predicate IsSafeInteger(x: Number) {
    IsInteger(x) && -MAX_SAFE <= x.value.Floor <= MAX_SAFE
  }

  predicate Safe(n: int) {
    -MAX_SAFE <= n <= MAX_SAFE
  }

  /** The safety test after rounding decides the same as one before. */
  lemma RoundingKeepsSafety(n: int)
    ensures IsSafeInteger(ToNumber(n)) <==> Safe(n)
    ensures Safe(n) ==> ToNumber(n) == Finite(n as real)
  {
    var m: nat := if n < 0 then -n else n;
    if m < TWO53 { SmallIsExact(m); } else { LargeStaysLarge(m); }
  }

  // ------------------------------------------------------------------ digits

  predicate IsDigit(c: char) {
    '0' <= c <= '9'
  }

  predicate AllDigits(s: string) {
    forall i :: 0 <= i < |s| ==> IsDigit(s[i])
  }

  /** `^-?\d+$` */
  predicate IsIntegerText(s: string) {
    if s != "" && s[0] == '-' then |s| > 1 && AllDigits(s[1..]) else s != "" && AllDigits(s)
  }

  function ParseDigits(s: string): nat
    requires AllDigits(s)
  {
    if s == "" then 0 else 10 * ParseDigits(s[..|s| - 1]) + (s[|s| - 1] as int - '0' as int)
  }

  function Parse(s: string): int
    requires IsIntegerText(s)
  {
    if s[0] == '-' then 0 - ParseDigits(s[1..]) as int else ParseDigits(s) as int
  }

  function PrintDigits(n: nat): string {
    (if n < 10 then "" else PrintDigits(n / 10)) + [('0' as int + n % 10) as char]
  }

  function Print(n: int): string {
    if n < 0 then "-" + PrintDigits(-n) else PrintDigits(n)
  }

  lemma AppendDigit(front: string, d: nat)
    requires AllDigits(front) && d < 10
    ensures var s := front + [('0' as int + d) as char]; AllDigits(s) && ParseDigits(s) == 10 * ParseDigits(front) + d
  {
    var s := front + [('0' as int + d) as char];
    assert s[..|s| - 1] == front;
  }

  lemma {:induction false} PrintedDigitsParse(n: nat)
    ensures PrintDigits(n) != "" && AllDigits(PrintDigits(n)) && ParseDigits(PrintDigits(n)) == n
  {
    if n < 10 {
      AppendDigit("", n);
    } else {
      PrintedDigitsParse(n / 10);
      AppendDigit(PrintDigits(n / 10), n % 10);
    }
  }

  lemma PrintedParses(n: int)
    ensures IsIntegerText(Print(n)) && Parse(Print(n)) == n
  {
    PrintedDigitsParse(if n < 0 then -n else n);
    if n < 0 { assert Print(n)[1..] == PrintDigits(-n); }
  }

  // ----------------------------------------------------------- column values

  /** What a driver delivers for a column, or an entity property holds. */
  datatype Column = Null | Num(x: Number) | Big(n: int) | Text(s: string) | Other(repr: string)

  datatype Mode = AsNumber | AsString | AsBigint

  datatype Outcome = Value(value: Column) | PrecisionLoss

  /** The integer a driver value stands for, if it stands for one. */
  function IntegerOf(v: Column): Option<int> {
    match v
    case Num(x) => if IsInteger(x) then Some(x.value.Floor) else None
    case Big(n) => Some(n)
    case Text(s) => if IsIntegerText(s) then Some(Parse(s)) else None
    case _ => None
  }

  /** `show` is the text of a number the model has no digits for: one that is
      not a safe integer. */
  function Normalize(v: Column, mode: Mode, show: Number -> string): Outcome {
    match mode
    case AsNumber =>
      (match v
       case Num(x) => if IsInteger(x) && !IsSafeInteger(x) then PrecisionLoss else Value(v)
       case Big(n) => if n > MAX_SAFE || n < -MAX_SAFE then PrecisionLoss else Value(Num(ToNumber(n)))
       case Text(s) =>
         if !IsIntegerText(s) then Value(v)
         else
           var x := ToNumber(Parse(s));
           if !IsSafeInteger(x) then PrecisionLoss else Value(Num(x))
       case _ => Value(v))
    case AsString =>
      (match v
       case Big(n) => Value(Text(Print(n)))
       case Num(x) =>
         if !IsInteger(x) then Value(v) else Value(Text(if IsSafeInteger(x) then Print(x.value.Floor) else show(x)))
       case _ => Value(v))
    case AsBigint =>
      (match v
       case Num(x) => if IsInteger(x) then Value(Big(x.value.Floor)) else Value(v)
       case Text(s) => if IsIntegerText(s) then Value(Big(Parse(s))) else Value(v)
       case _ => Value(v))
  }

  predicate IsUnsafeInteger(v: Column) {
    match v
    case Num(x) => IsInteger(x) && !IsSafeInteger(x)
    case Big(n) => n > MAX_SAFE || n < -MAX_SAFE
    case Text(s) => IsIntegerText(s) && !IsSafeInteger(ToNumber(Parse(s)))
    case _ => false
  }

  /** `coerce` is `Number(value)` of what is neither a number nor an integer. */
  function AggregateToNumber(v: Column, show: Number -> string, coerce: Column -> Number): Outcome {
    match v
    case Num(x) => Value(v)
    case Big(n) => Normalize(v, AsNumber, show)
    case Text(s) => if IsIntegerText(s) then Normalize(v, AsNumber, show) else Value(Num(coerce(v)))
    case _ => Value(Num(coerce(v)))
  }

  /** Number mode never rounds: an integer comes back exactly or is refused, and
      it is refused exactly when it is outside the safe range, though a text is
      only tested once it was rounded. Everything else passes through. */
  lemma NumberModeIsExact(v: Column, show: Number -> string)
    ensures Normalize(v, AsNumber, show)
            == if IntegerOf(v).None? then Value(v)
               else if Safe(IntegerOf(v).value) then Value(Num(Finite(IntegerOf(v).value as real)))
               else PrecisionLoss
  {
    match v
    case Big(n) => RoundingKeepsSafety(n);
    case Text(s) => if IsIntegerText(s) { RoundingKeepsSafety(Parse(s)); }
    case _ =>
  }

  lemma UnsafeIsRefused(v: Column, show: Number -> string)
    ensures IsUnsafeInteger(v) <==> Normalize(v, AsNumber, show).PrecisionLoss?
  {
    NumberModeIsExact(v, show);
    if v.Text? && IsIntegerText(v.s) { RoundingKeepsSafety(Parse(v.s)); }
  }

  /** The text of an unsafe number is its integer's: not so for `1e+21`, nor for
      one printed with fewer digits than it has. */
  predicate PrintsExactly(x: Number, show: Number -> string)
    requires IsInteger(x)
  {
    IsIntegerText(show(x)) && Parse(show(x)) == x.value.Floor
  }

  /** Reading through string mode and then bigint mode gives what bigint mode
      gives, if and only if the value is not a number outside the safe range or
      that number prints as its integer. */
  lemma BigintInvertsStringIff(v: Column, show: Number -> string)
    ensures Normalize(v, AsString, show).Value?
    ensures Normalize(Normalize(v, AsString, show).value, AsBigint, show) == Normalize(v, AsBigint, show)
            <==> (v.Num? && IsInteger(v.x) && !IsSafeInteger(v.x) ==> PrintsExactly(v.x, show))
  {
    match v
    case Big(n) => PrintedComesBack(n, show);
    case Num(x) => if IsInteger(x) { ShownComesBack(x, show); }
    case _ =>
  }

  lemma PrintedComesBack(n: int, show: Number -> string)
    ensures Normalize(Text(Print(n)), AsBigint, show) == Value(Big(n))
  {
    PrintedParses(n);
  }

  lemma ShownComesBack(x: Number, show: Number -> string)
    requires IsInteger(x)
    ensures Normalize(Num(x), AsString, show) == Value(Text(if IsSafeInteger(x) then Print(x.value.Floor) else show(x)))
    ensures Normalize(Normalize(Num(x), AsString, show).value, AsBigint, show) == Value(Big(x.value.Floor))
            <==> IsSafeInteger(x) || PrintsExactly(x, show)
  {
    if IsSafeInteger(x) { PrintedComesBack(x.value.Floor, show); }
  }

  /** 10^21 is printed with an exponent, and stays a text. */
  lemma LargeNumberStaysText(show: Number -> string)
    requires show(Finite(1000000000000000000000.0)) == "1e+21"
    ensures var v := Num(Finite(1000000000000000000000.0));
            && Normalize(v, AsBigint, show) == Value(Big(1000000000000000000000))
            && Normalize(v, AsString, show) == Value(Text("1e+21"))
            && Normalize(Text("1e+21"), AsBigint, show) == Value(Text("1e+21"))
  {
    assert "1e+21"[1] == 'e';
  }

  /** An aggregate refuses exactly the lossless integers it would have to round,
      returns a number as it is, and coerces what is no integer. */
  lemma AggregateIsExact(v: Column, show: Number -> string, coerce: Column -> Number)
    ensures AggregateToNumber(v, show, coerce).PrecisionLoss? <==> !v.Num? && IsUnsafeInteger(v)
    ensures !v.Num? && IntegerOf(v).Some? && Safe(IntegerOf(v).value) ==>
              AggregateToNumber(v, show, coerce) == Value(Num(Finite(IntegerOf(v).value as real)))
    ensures v.Num? ==> AggregateToNumber(v, show, coerce) == Value(v)
    ensures !v.Num? && IntegerOf(v).None? ==> AggregateToNumber(v, show, coerce) == Value(Num(coerce(v)))
  {
    NumberModeIsExact(v, show);
    UnsafeIsRefused(v, show);
  }
}

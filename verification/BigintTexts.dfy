/** The texts integers are read from and written as, digit by digit. */
module BigintTexts {
  import opened Metadata
  import opened Bigints

  function Pow10(e: nat): (p: nat)
    ensures p > 0
  {
    if e == 0 then 1 else 10 * Pow10(e - 1)
  }

  /** The text `s` of digits has the value `m`: each digit stands for its place. */
  ghost predicate Places(s: string, m: nat) {
    && m < Pow10(|s|)
    && forall i :: 0 <= i < |s| ==> '0' <= s[i] <= '9' && m / Pow10(|s| - 1 - i) % 10 == s[i] as int - '0' as int
  }

  lemma DropDigit(m: nat, e: nat)
    ensures m / Pow10(e + 1) == m / 10 / Pow10(e)
  {
    var p, a := Pow10(e), m / 10;
    Nested(m, p, a / p, a % p);
  }

  lemma Nested(m: nat, p: nat, b: nat, r: nat)
    requires p > 0 && m / 10 == b * p + r && r < p
    ensures m / (10 * p) == b
  {
    var c := b * p;
    assert b * (10 * p) == 10 * c;
    QuotientIs(m, 10 * p, b, 10 * r + m % 10);
  }

  lemma QuotientIs(m: nat, q: nat, b: nat, rest: nat)
    requires q > 0 && m == b * q + rest && rest < q
    ensures m / q == b
  {
    assert m == (m / q) * q + m % q;
    assert (b + 1) * q == b * q + q && (m / q + 1) * q == (m / q) * q + q;
    ScaleUp(b + 1, m / q, q);
    ScaleUp(m / q + 1, b, q);
  }

  lemma PlacesAppend(front: string, m: nat, c: char)
    requires Places(front, m) && '0' <= c <= '9'
    ensures Places(front + [c], 10 * m + (c as int - '0' as int))
  {
    var s, n := front + [c], 10 * m + (c as int - '0' as int);
    assert n / 10 == m;
    forall i | 0 <= i < |s|
      ensures '0' <= s[i] <= '9' && n / Pow10(|s| - 1 - i) % 10 == s[i] as int - '0' as int
    {
      if i < |front| {
        DropDigit(n, |front| - 1 - i);
      } else {
        assert Pow10(0) == 1;
      }
    }
  }

  lemma {:induction false} DigitsHavePlaces(s: string)
    requires AllDigits(s)
    ensures Places(s, ParseDigits(s))
  {
    if s != "" {
      var front := s[..|s| - 1];
      DigitsHavePlaces(front);
      PlacesAppend(front, ParseDigits(front), s[|s| - 1]);
      assert s == front + [s[|s| - 1]];
    }
  }

  lemma {:induction false} NoLeadingZero(n: nat)
    ensures |PrintDigits(n)| > 0 && (n > 0 ==> PrintDigits(n)[0] != '0') && (n == 0 ==> |PrintDigits(n)| == 1)
  {
    if n >= 10 { NoLeadingZero(n / 10); }
  }

  /** The text of an integer in decimal: a minus if it is negative, then its digits
      without a leading zero. */
  ghost predicate Decimal(s: string, n: int) {
    var digits := if n < 0 && s != "" then s[1..] else s;
    && s != "" && (n < 0 ==> s[0] == '-') && digits != ""
    && Places(digits, if n < 0 then -n else n)
    && (n != 0 ==> digits[0] != '0') && (n == 0 ==> |digits| == 1)
  }

  /** An integer is printed in decimal. */
  lemma PrintsDecimal(n: int)
    ensures Decimal(Print(n), n)
  {
    var m: nat := if n < 0 then -n else n;
    PrintedDigitsParse(m);
    DigitsHavePlaces(PrintDigits(m));
    NoLeadingZero(m);
    if n < 0 { assert Print(n)[1..] == PrintDigits(m); }
  }

  /** `s` is these digits, at least one, after at most one minus. */
  ghost predicate Spells(s: string, digits: string) {
    digits != "" && (s == digits || s == "-" + digits) && forall c :: c in digits ==> '0' <= c <= '9'
  }

  /** `s` spells `n`, leading zeros or not. */
  ghost predicate Reads(s: string, n: int) {
    s != "" && if s[0] == '-' then n <= 0 && Places(s[1..], -n) else n >= 0 && Places(s, n)
  }

  /** Which texts are integers, and which. */
  lemma IntegerTextIs(s: string)
    ensures IsIntegerText(s) <==> exists digits :: Spells(s, digits)
    ensures IsIntegerText(s) ==> Reads(s, Parse(s))
  {
    if IsIntegerText(s) {
      var digits := if s[0] == '-' then s[1..] else s;
      assert forall c :: c in digits ==> IsDigit(c);
      assert Spells(s, digits);
      DigitsHavePlaces(digits);
    }
    forall digits | Spells(s, digits) ensures IsIntegerText(s) {
      assert forall i :: 0 <= i < |digits| ==> digits[i] in digits;
      if s != digits { assert s[1..] == digits; } else { assert s[0] in digits; }
    }
  }

  /** String mode turns a big integer or a safe number into its decimal text, an
      unsafe one into what the number prints as, and leaves the rest. */
  lemma StringModeIsText(v: Column, show: Number -> string)
    ensures var r := Normalize(v, AsString, show);
            match v
            case Big(n) => r.Value? && r.value.Text? && Decimal(r.value.s, n)
            case Num(x) =>
              if x.Finite? && x.value == x.value.Floor as real then
                && r.Value? && r.value.Text?
                && (if -9007199254740991 <= x.value.Floor <= 9007199254740991 then Decimal(r.value.s, x.value.Floor)
                    else r.value.s == show(x))
              else r == Value(v)
            case _ => r == Value(v)
  {
    match v
    case Big(n) => PrintsDecimal(n);
    case Num(x) => if IsInteger(x) { PrintsDecimal(x.value.Floor); }
    case _ =>
  }

  /** Bigint mode turns an integer, however delivered, into itself, and leaves the
      rest. */
  lemma BigintModeIsInteger(v: Column, show: Number -> string)
    ensures Normalize(v, AsBigint, show) == if IntegerOf(v).None? then Value(v) else Value(Big(IntegerOf(v).value))
    ensures match v
            case Num(x) => IntegerOf(v) == if x.Finite? && x.value == x.value.Floor as real then Some(x.value.Floor) else None
            case Text(s) => (IntegerOf(v).Some? <==> exists digits :: Spells(s, digits))
                            && (IntegerOf(v).Some? ==> Reads(s, IntegerOf(v).value))
            case Big(n) => IntegerOf(v) == Some(n)
            case _ => IntegerOf(v) == None
  {
    if v.Text? { IntegerTextIs(v.s); }
  }
}

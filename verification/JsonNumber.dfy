/** JSON numbers: the grammar of RFC 8259 section 6, and which of them read as a finite double. */
module JsonNumber {
  import opened Wrappers
  import opened JsonLexer

  predicate IsDigit(c: char) {
    '0' <= c <= '9'
  }

  predicate IsDigits(s: string) {
    s != "" && forall k | 0 <= k < |s| :: IsDigit(s[k])
  }

  datatype Exponent = Exponent(mark: char, sign: string, digits: string) {
    predicate Valid() {
      (mark == 'e' || mark == 'E') && (sign == "" || sign == "+" || sign == "-") && IsDigits(digits)
    }

    function Spell(): string {
      [mark] + sign + digits
    }
  }

  /** number = [ minus ] int [ frac ] [ exp ] */
  datatype Number = Number(minus: bool, whole: string, frac: Option<string>, exp: Option<Exponent>) {
    predicate Valid() {
      && ValidWhole(whole)
      && (frac.Some? ==> IsDigits(frac.value))
      && (exp.Some? ==> exp.value.Valid())
    }

    function Spell(): string {
      SpellMinus(minus) + (whole + (SpellFrac(frac) + SpellExp(exp)))
    }
  }

  function SpellMinus(minus: bool): string {
    if minus then "-" else ""
  }

  function SpellFrac(frac: Option<string>): string {
    if frac.Some? then "." + frac.value else ""
  }

  function SpellExp(exp: Option<Exponent>): string {
    if exp.Some? then exp.value.Spell() else ""
  }

  /** RFC 8259 section 6: `s` is a number token. */
  ghost predicate IsJsonNumber(s: string) {
    exists n: Number :: n.Valid() && n.Spell() == s
  }

  // ---- the reader's scan ------------------------------------------------------------------------

  function DigitsLength(s: string): (n: nat)
    ensures n <= |s|
    ensures forall k | 0 <= k < n :: IsDigit(s[k])
    ensures n < |s| ==> !IsDigit(s[n])
  {
    if s == "" || !IsDigit(s[0]) then 0 else 1 + DigitsLength(s[1..])
  }

  function ReadExp(s: string): (e: Option<Option<Exponent>>)
    ensures e.Some? && e.value.Some? ==> e.value.value.Valid()
    ensures e.Some? ==> SpellExp(e.value) == s
  {
    if s == "" then Some(None)
    else if s[0] == 'e' || s[0] == 'E' then
      var sign := if |s| > 1 && (s[1] == '+' || s[1] == '-') then s[1..2] else "";
      var digits := s[1 + |sign|..];
      if IsDigits(digits) then Some(Some(Exponent(s[0], sign, digits))) else None
    else None
  }

  predicate ValidWhole(whole: string) {
    IsDigits(whole) && (whole[0] == '0' ==> |whole| == 1)
  }

  /** The integer part and what follows it. */
  function ReadWhole(s: string): (r: Option<(string, string)>)
    ensures r.Some? ==> ValidWhole(r.value.0) && r.value.0 + r.value.1 == s
  {
    var n := DigitsLength(s);
    if ValidWhole(s[..n]) then Some((s[..n], s[n..])) else None
  }

  /** The fraction, if there is one, and what follows it. */
  function ReadFrac(s: string): (r: Option<(Option<string>, string)>)
    ensures r.Some? ==> (r.value.0.Some? ==> IsDigits(r.value.0.value)) && SpellFrac(r.value.0) + r.value.1 == s
  {
    if s == "" || s[0] != '.' then Some((None, s))
    else
      var n := DigitsLength(s[1..]);
      if n == 0 then None else Some((Some(s[1..][..n]), s[1..][n..]))
  }

  function ReadNumber(s: string): (n: Option<Number>)
    ensures n.Some? ==> n.value.Valid() && n.value.Spell() == s
  {
    var minus := s != "" && s[0] == '-';
    match ReadWhole(s[|SpellMinus(minus)|..])
    case None => None
    case Some((whole, rest)) =>
      match ReadFrac(rest)
      case None => None
      case Some((frac, last)) =>
        match ReadExp(last)
        case None => None
        case Some(exp) => Some(Number(minus, whole, frac, exp))
  }

  lemma {:induction false} DigitsLengthIs(d: string, rest: string)
    requires forall k | 0 <= k < |d| :: IsDigit(d[k])
    requires rest == "" || !IsDigit(rest[0])
    ensures DigitsLength(d + rest) == |d|
  {
    var s := d + rest;
    assert forall k | 0 <= k < |d| :: s[k] == d[k] && IsDigit(s[k]);
    assert rest != "" ==> s[|d|] == rest[0];
  }

  lemma {:induction false} ReadExpOfSpell(e: Option<Exponent>)
    requires e.Some? ==> e.value.Valid()
    ensures ReadExp(SpellExp(e)) == Some(e)
  {
    if e.Some? {
      var s := SpellExp(e);
      var x := e.value;
      assert s[1 + |x.sign|..] == x.digits;
      assert s[1..][..|x.sign|] == x.sign;
      if x.sign == "" { assert s[1] == x.digits[0]; } else { assert s[1..2] == x.sign; }
    }
  }

  lemma {:induction false} ReadWholeOfSpell(whole: string, rest: string)
    requires ValidWhole(whole) && (rest == "" || !IsDigit(rest[0]))
    ensures ReadWhole(whole + rest) == Some((whole, rest))
  {
    DigitsLengthIs(whole, rest);
    assert (whole + rest)[..|whole|] == whole && (whole + rest)[|whole|..] == rest;
  }

  lemma {:induction false} ReadFracOfSpell(frac: Option<string>, rest: string)
    requires frac.Some? ==> IsDigits(frac.value)
    requires rest == "" || (!IsDigit(rest[0]) && rest[0] != '.')
    ensures ReadFrac(SpellFrac(frac) + rest) == Some((frac, rest))
  {
    var s := SpellFrac(frac) + rest;
    if frac.Some? {
      hide DigitsLength, IsDigits;
      DigitsLengthIs(frac.value, rest);
      assert s[1..] == frac.value + rest;
      assert s[1..][..|frac.value|] == frac.value && s[1..][|frac.value|..] == rest;
    } else {
      assert s == rest;
    }
  }

  lemma {:induction false} ReadTailOfSpell(frac: Option<string>, exp: Option<Exponent>)
    requires frac.Some? ==> IsDigits(frac.value)
    requires exp.Some? ==> exp.value.Valid()
    ensures var tail := SpellFrac(frac) + SpellExp(exp);
            && (tail == "" || !IsDigit(tail[0]))
            && ReadFrac(tail) == Some((frac, SpellExp(exp)))
            && ReadExp(SpellExp(exp)) == Some(exp)
  {
    var last := SpellExp(exp);
    assert last == "" || last[0] == 'e' || last[0] == 'E';
    ReadFracOfSpell(frac, last);
    ReadExpOfSpell(exp);
  }

  lemma {:induction false} ReadNumberOfSpell(n: Number)
    requires n.Valid()
    ensures ReadNumber(n.Spell()) == Some(n)
  {
    var tail := SpellFrac(n.frac) + SpellExp(n.exp);
    ReadTailOfSpell(n.frac, n.exp);
    ReadWholeOfSpell(n.whole, tail);
    var s := n.Spell();
    assert s[0] == if n.minus then '-' else n.whole[0];
    assert s[|SpellMinus(n.minus)|..] == n.whole + tail;
  }

  /** The scan accepts exactly the numbers of the grammar. */
  lemma {:induction false} ReadNumberIsTheGrammar(s: string, n: Number)
    ensures ReadNumber(s) == Some(n) <==> n.Valid() && n.Spell() == s
  {
    if n.Valid() && n.Spell() == s {
      ReadNumberOfSpell(n);
    }
  }

  // ---- get_double() -----------------------------------------------------------------------------

  function DigitValue(c: char): nat
    requires IsDigit(c)
  {
    c as int - '0' as int
  }

  function DigitsValue(s: string): nat
    requires forall k | 0 <= k < |s| :: IsDigit(s[k])
  {
    if s == "" then 0 else 10 * DigitsValue(s[..|s| - 1]) + DigitValue(s[|s| - 1])
  }

  function Power(base: nat, n: nat): nat {
    if n == 0 then 1 else base * Power(base, n - 1)
  }

  function FracDigits(n: Number): (s: string)
    requires n.Valid()
    ensures forall k | 0 <= k < |s| :: IsDigit(s[k])
  {
    if n.frac.Some? then n.frac.value else ""
  }

  /** |n| is Mantissa(n) * 10^Scale(n). */
  function Mantissa(n: Number): nat
    requires n.Valid()
  {
    DigitsValue(n.whole + FracDigits(n))
  }

  function Scale(n: Number): int
    requires n.Valid()
  {
    var e := if n.exp.None? then 0 else DigitsValue(n.exp.value.digits);
    (if n.exp.Some? && n.exp.value.sign == "-" then -e else e) - |FracDigits(n)|
  }

  /** A binary floating-point format: values below 2^maxExponent, `precision` significant bits. */
  datatype FloatFormat = FloatFormat(maxExponent: nat, precision: nat)

  const BINARY64 := FloatFormat(1024, 53)

  /** |n| < 2^1024 - 2^970: it rounds to a finite IEEE 754 double, ties going to even. */
  predicate InDoubleRange(n: Number)
    requires n.Valid()
  {
    var bound := Power(2, BINARY64.maxExponent) - Power(2, BINARY64.maxExponent - BINARY64.precision - 1);
    if Scale(n) >= 0 then Mantissa(n) * Power(10, Scale(n)) < bound
    else Mantissa(n) < bound * Power(10, -Scale(n))
  }

  /** get_double() succeeds. */
  predicate ReadsAsDouble(s: string) {
    ReadNumber(s).Some? && InDoubleRange(ReadNumber(s).value)
  }

  lemma {:induction false} PowerMonotone(b: nat, c: nat, n: nat)
    requires 0 < b <= c
    ensures 0 < Power(b, n) <= Power(c, n)
    decreases n
  {
    if n > 0 {
      PowerMonotone(b, c, n - 1);
      MulMonotone(b, c, Power(b, n - 1), Power(c, n - 1));
    }
  }

  lemma {:induction false} MulMonotone(a: nat, b: nat, x: nat, y: nat)
    requires 0 < a <= b && 0 < x <= y
    ensures 0 < a * x <= b * y
  {
    assert a * x <= b * x && b * x <= b * y;
  }

  lemma {:induction false} PowerMul(b: nat, k: nat, n: nat)
    ensures Power(Power(b, k), n) == Power(b, k * n)
    decreases n
  {
    if n > 0 {
      PowerMul(b, k, n - 1);
      PowerAdd(b, k, k * (n - 1));
      assert k + k * (n - 1) == k * n;
    }
  }

  lemma {:induction false} PowerAdd(b: nat, m: nat, n: nat)
    ensures Power(b, m) * Power(b, n) == Power(b, m + n)
    decreases m
  {
    if m > 0 {
      PowerAdd(b, m - 1, n);
      var x, y := Power(b, m - 1), Power(b, n);
      assert b * x * y == b * (x * y);
    }
  }

  lemma {:induction false} PowerPositive(b: nat, n: nat)
    requires 0 < b
    ensures 1 <= Power(b, n)
  {
    PowerMonotone(1, b, n);
    PowerOne(n);
  }

  lemma {:induction false} TenBeatsTwo(k: nat, m: nat)
    requires 3 * k >= m
    ensures Power(10, k) >= Power(2, m)
  {
    PowerMonotone(8, 10, k);
    assert Power(2, 3) == 8;
    PowerMul(2, 3, k);
    PowerAdd(2, m, 3 * k - m);
    PowerPositive(2, m);
    PowerPositive(2, 3 * k - m);
    MulMonotone(1, Power(2, 3 * k - m), Power(2, m), Power(2, m));
  }

  /** A nonzero number is refused from a scale of 342 on, as 1e400 is. */
  lemma {:induction false} HugeScaleIsRefused(n: Number)
    requires n.Valid() && Mantissa(n) > 0 && Scale(n) >= 342
    ensures !ReadsAsDouble(n.Spell())
  {
    ReadNumberIsTheGrammar(n.Spell(), n);
    var k: nat := Scale(n);
    TenBeatsTwo(k, BINARY64.maxExponent);
    PowerPositive(2, BINARY64.maxExponent - BINARY64.precision - 1);
    PowerPositive(2, BINARY64.maxExponent);
    MulMonotone(1, Mantissa(n), Power(10, k), Power(10, k));
  }

  lemma {:induction false} PowerOne(n: nat)
    ensures Power(1, n) == 1
    decreases n
  {
    if n > 0 { PowerOne(n - 1); }
  }

  /** A number token is a run, so the lexer cuts it off whole. */
  lemma {:induction false} JsonNumberIsRun(n: Number)
    requires n.Valid()
    ensures IsRun(n.Spell())
    ensures n.Spell()[0] == '-' || IsDigit(n.Spell()[0])
  {
    var s := n.Spell();
    var chars := n.whole + FracDigits(n);
    assert s[0] == if n.minus then '-' else n.whole[0];
    ExpIsRun(n.exp);
    assert forall k | 0 <= k < |SpellFrac(n.frac)| :: IsRunChar(SpellFrac(n.frac)[k]);
  }

  lemma {:induction false} ExpIsRun(e: Option<Exponent>)
    requires e.Some? ==> e.value.Valid()
    ensures forall k | 0 <= k < |SpellExp(e)| :: IsRunChar(SpellExp(e)[k])
  {
  }
}

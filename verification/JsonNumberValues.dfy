/**
 Which number tokens read, said of the tokens themselves: by their positional value as a real, and by
 what moving the point or writing out the zeros makes of them.
 */
module JsonNumberValues {
  import opened Wrappers
  import opened JsonNumber
  import opened JsonTimestamp

  // ---- the value of a token -------------------------------------------------------------------

  /** 10 to the power of `e`, negative powers included. */
  function Pow10(e: int): real
    decreases if e < 0 then -e else e
  {
    if e == 0 then 1.0 else if e > 0 then 10.0 * Pow10(e - 1) else Pow10(e + 1) / 10.0
  }

  /** What the digits before a point say: each ten times the one after it. */
  function WholeValue(s: string): real
    requires forall k | 0 <= k < |s| :: IsDigit(s[k])
  {
    if s == "" then 0.0 else 10.0 * WholeValue(s[..|s| - 1]) + DigitValue(s[|s| - 1]) as real
  }

  /** What the digits after a point say: each a tenth of the one before it. */
  function FracValue(s: string): real
    requires forall k | 0 <= k < |s| :: IsDigit(s[k])
  {
    if s == "" then 0.0 else (DigitValue(s[0]) as real + FracValue(s[1..])) / 10.0
  }

  /** What the digits of an exponent say, with their sign. */
  function ExpValue(exp: Option<Exponent>): int
    requires exp.Some? ==> exp.value.Valid()
  {
    match exp
    case None => 0
    case Some(e) =>
      var value: int := DigitsValue(e.digits);
      if e.sign == "-" then -value else value
  }

  /** The absolute value of a number, as RFC 8259 section 6 means it. */
  function Magnitude(n: Number): real
    requires n.Valid()
  {
    (WholeValue(n.whole) + FracValue(FracDigits(n))) * Pow10(ExpValue(n.exp))
  }

  /** 2^1024 - 2^970: halfway between the largest finite double and the next power of two. */
  function Bound(): nat
    ensures Bound() == Power(2, 1024) - Power(2, 970)
  {
    PowerAdd(2, 54, 970);
    PowerPositive(2, 970);
    PowerPositive(2, 54);
    MulMonotone(1, Power(2, 54), Power(2, 970), Power(2, 970));
    Power(2, 1024) - Power(2, 970)
  }

  lemma {:induction false} WholeIsDigits(s: string)
    requires forall k | 0 <= k < |s| :: IsDigit(s[k])
    ensures WholeValue(s) == DigitsValue(s) as real
    decreases |s|
  {
    if s != "" { WholeIsDigits(s[..|s| - 1]); }
  }

  lemma {:induction false} Pow10Next(e: int)
    ensures Pow10(e + 1) == 10.0 * Pow10(e)
  {
  }

  lemma {:induction false} Pow10Add(a: int, n: nat)
    ensures Pow10(a + n) == Pow10(a) * Power(10, n) as real
    decreases n
  {
    if n > 0 {
      Pow10Add(a, n - 1);
      Pow10Next(a + n - 1);
      hide Pow10;
      var p := Power(10, n - 1);
      assert Power(10, n) as real == 10.0 * p as real;
      RealAssociates(Pow10(a), p as real);
    }
  }

  lemma {:induction false} RealAssociates(x: real, y: real)
    ensures 10.0 * (x * y) == x * (10.0 * y)
  {
  }

  lemma {:induction false} Pow10Positive(e: int)
    ensures Pow10(e) > 0.0
    decreases if e < 0 then -e else e
  {
    if e > 0 { Pow10Positive(e - 1); } else if e < 0 { Pow10Positive(e + 1); }
  }

  lemma {:induction false} WholeStep(w: string, c: char)
    requires IsDigit(c) && forall k | 0 <= k < |w| :: IsDigit(w[k])
    ensures WholeValue(w + [c]) == 10.0 * WholeValue(w) + DigitValue(c) as real
  {
    assert (w + [c])[..|w|] == w;
  }

  lemma {:induction false} FracStep(f: string)
    requires f != "" && forall k | 0 <= k < |f| :: IsDigit(f[k])
    ensures FracValue(f) == (DigitValue(f[0]) as real + FracValue(f[1..])) / 10.0
    ensures FracValue("") == 0.0
  {
  }

  lemma {:induction false} PowerAsReal(n: nat)
    ensures Power(10, n + 1) as real == 10.0 * Power(10, n) as real && Power(10, 0) == 1
  {
  }

  /** Digits after a point, read on as digits before it, count once more for every place. */
  lemma {:induction false} JoinDigits(w: string, f: string)
    requires forall k | 0 <= k < |w| :: IsDigit(w[k])
    requires forall k | 0 <= k < |f| :: IsDigit(f[k])
    ensures DigitsValue(w + f) as real == (WholeValue(w) + FracValue(f)) * Power(10, |f|) as real
    decreases |f|
  {
    hide WholeValue, FracValue, DigitsValue, Power;
    if f == "" {
      assert w + f == w;
      WholeIsDigits(w);
      NoFraction();
    } else {
      var v := w + [f[0]];
      assert w + f == v + f[1..];
      JoinDigits(v, f[1..]);
      WholeStep(w, f[0]);
      FracStep(f);
      PowerAsReal(|f| - 1);
      ShiftPoint(WholeValue(w), DigitValue(f[0]) as real, FracValue(f[1..]), Power(10, |f| - 1) as real);
    }
  }

  lemma {:induction false} NoFraction()
    ensures FracValue("") == 0.0 && Power(10, 0) == 1
  {
  }

  lemma {:induction false} ShiftPoint(w: real, d: real, rest: real, p: real)
    ensures (10.0 * w + d + rest) * p == (w + (d + rest) / 10.0) * (10.0 * p)
  {
    var x := w + (d + rest) / 10.0;
    assert x * 10.0 == 10.0 * w + d + rest;
    Regroup(x, p);
  }

  lemma {:induction false} Regroup(x: real, p: real)
    ensures x * (10.0 * p) == (x * 10.0) * p
  {
  }

  /** A token reads exactly when the number it says is below 2^1024 - 2^970 in absolute value. */
  lemma {:induction false} ReadsByValue(n: Number)
    requires n.Valid()
    ensures ReadsAsDouble(n.Spell()) <==> Magnitude(n) < Bound() as real
  {
    ReadNumberIsTheGrammar(n.Spell(), n);
    hide Magnitude, Mantissa, Scale, Pow10, ReadNumber, InDoubleRange, Bound;
    MagnitudeIs(n);
    InRangeByValue(n);
  }

  lemma {:induction false} MagnitudeIs(n: Number)
    requires n.Valid()
    ensures Magnitude(n) == Mantissa(n) as real * Pow10(Scale(n))
  {
    hide WholeValue, FracValue, DigitsValue, Pow10, Power;
    var f := FracDigits(n);
    ScaleIs(n);
    JoinDigits(n.whole, f);
    Pow10Add(Scale(n), |f|);
    ScaleOut(WholeValue(n.whole) + FracValue(f), Power(10, |f|) as real, Pow10(Scale(n)), Mantissa(n));
  }

  lemma {:induction false} ScaleIs(n: Number)
    requires n.Valid()
    ensures Scale(n) == ExpValue(n.exp) - |FracDigits(n)|
  {
    hide DigitsValue;
  }

  lemma {:induction false} ScaleOut(value: real, places: real, scale: real, mantissa: nat)
    requires mantissa as real == value * places
    ensures value * (scale * places) == mantissa as real * scale
  {
    assert value * (scale * places) == (value * places) * scale;
  }

  lemma {:induction false} InRangeByValue(n: Number)
    requires n.Valid()
    ensures InDoubleRange(n) <==> Mantissa(n) as real * Pow10(Scale(n)) < Bound() as real
  {
    hide Mantissa, Scale, Power, Pow10;
    Pow10Zero();
    if Scale(n) >= 0 {
      Pow10Add(0, Scale(n));
      Products(Mantissa(n), Power(10, Scale(n)));
    } else {
      Pow10Add(Scale(n), -Scale(n));
      PowerPositive(10, -Scale(n));
      Quotients(Mantissa(n), Bound(), Pow10(Scale(n)), Power(10, -Scale(n)));
    }
  }

  lemma {:induction false} Pow10Zero()
    ensures Pow10(0) == 1.0
  {
  }

  lemma {:induction false} Products(m: nat, p: nat)
    ensures (m * p) as real == m as real * p as real
  {
  }

  /** With x = 1 / p: m < b * p exactly when m * x < b. */
  lemma {:induction false} Quotients(m: nat, b: nat, x: real, p: nat)
    requires x * p as real == 1.0 && p > 0
    ensures m < b * p <==> m as real * x < b as real
  {
    Products(b, p);
    Undo(m as real, x, p as real);
    Cancel(m as real * x, b as real, p as real);
    AsReals(m, b * p);
  }

  lemma {:induction false} AsReals(m: int, n: int)
    ensures m < n <==> m as real < n as real
  {
  }

  lemma {:induction false} Undo(m: real, x: real, p: real)
    requires x * p == 1.0
    ensures m * x * p == m
  {
    assert m * x * p == m * (x * p);
  }

  lemma {:induction false} Cancel(a: real, b: real, p: real)
    requires p > 0.0
    ensures a * p < b * p <==> a < b
  {
  }

  // ---- zeros and points -------------------------------------------------------------------------

  /** A token without point and exponent reads exactly when its value is below the bound. */
  lemma {:induction false} PlainInteger(d: string)
    requires ValidWhole(d)
    ensures ReadsAsDouble(d) <==> DigitsValue(d) < Power(2, 1024) - Power(2, 970)
  {
    hide DigitsValue, ReadNumber;
    var n := Number(false, d, None, None);
    assert n.Spell() == d;
    ReadNumberIsTheGrammar(d, n);
    assert d + "" == d && Mantissa(n) == DigitsValue(d) && Scale(n) == 0;
    hide Mantissa;
    assert Power(10, 0) == 1;
  }

  lemma {:induction false} ZerosMultiply(d: string, k: nat)
    requires forall j | 0 <= j < |d| :: IsDigit(d[j])
    ensures DigitsValue(d + Zeros(k)) == DigitsValue(d) * Power(10, k)
    decreases k
  {
    if k == 0 {
      assert d + Zeros(0) == d;
    } else {
      ZerosMultiply(d, k - 1);
      var s := d + Zeros(k);
      assert s[..|s| - 1] == d + Zeros(k - 1) && s[|s| - 1] == '0';
      hide Power, DigitsValue;
      PowerStep(DigitsValue(d), k);
    }
  }

  lemma {:induction false} PowerStep(v: nat, k: nat)
    requires k > 0
    ensures 10 * (v * Power(10, k - 1)) == v * Power(10, k)
  {
  }

  lemma {:induction false} ExponentToken(d: string, sign: string, k: nat) returns (n: Number)
    requires ValidWhole(d) && (sign == "" || sign == "-")
    ensures n.Valid() && n.Spell() == d + "e" + sign + Decimal(k)
    ensures FracDigits(n) == "" && Mantissa(n) == DigitsValue(d)
    ensures Scale(n) == if sign == "-" then 0 - k else k
  {
    DecimalSays(k);
    hide DigitsValue, Decimal;
    n := Number(false, d, None, Some(Exponent('e', sign, Decimal(k))));
    assert d + "" == d;
    assert n.Spell() == d + "e" + sign + Decimal(k);
  }

  lemma {:induction false} DecimalSays(k: nat)
    ensures IsDigits(Decimal(k)) && DigitsValue(Decimal(k)) == k
  {
    hide Decimal, DigitsValue, Power;
    TenPowers(k);
    DecimalValue(k, k + 1);
  }

  lemma {:induction false} TenPowers(k: nat)
    ensures k < Power(10, k + 1)
    decreases k
  {
    if k > 0 { TenPowers(k - 1); }
  }

  /** An exponent writes zeros: `d` e `k` reads exactly when `d` with `k` zeros after it reads. */
  lemma {:induction false} ExponentIsZeros(d: string, k: nat)
    requires ValidWhole(d) && d != "0"
    ensures ReadsAsDouble(d + "e" + Decimal(k)) <==> ReadsAsDouble(d + Zeros(k))
  {
    hide DigitsValue, ReadNumber, Power, Decimal;
    var n := ExponentToken(d, "", k);
    assert d + "e" + "" == d + "e";
    ReadNumberIsTheGrammar(n.Spell(), n);
    ZerosMultiply(d, k);
    assert ValidWhole(d + Zeros(k));
    PlainInteger(d + Zeros(k));
    hide Mantissa, Scale;
  }

  /** A negative exponent moves the point: `d` e -`k` reads exactly when `d` with its point moved `k`
      places left reads. */
  lemma {:induction false} ExponentMovesPoint(d: string, k: nat)
    requires ValidWhole(d) && d != "0" && k > 0
    ensures ReadsAsDouble(d + "e-" + Decimal(k)) <==> ReadsAsDouble(PointMoved(d, k))
  {
    hide DigitsValue, ReadNumber, Power, Decimal, PointMoved, Mantissa, Scale, Bound;
    var n := ExponentToken(d, "-", k);
    assert d + "e" + "-" == d + "e-";
    ReadNumberIsTheGrammar(n.Spell(), n);
    var m := MovedToken(d, k);
    ReadNumberIsTheGrammar(m.Spell(), m);
  }

  lemma {:induction false} MovedToken(d: string, k: nat) returns (m: Number)
    requires ValidWhole(d) && d != "0" && k > 0
    ensures m.Valid() && m.Spell() == PointMoved(d, k) && Mantissa(m) == DigitsValue(d) && Scale(m) == 0 - k
  {
    hide DigitsValue, Zeros;
    if k < |d| {
      m := Number(false, d[..|d| - k], Some(d[|d| - k..]), None);
      assert d[..|d| - k] + d[|d| - k..] == d;
    } else {
      m := Number(false, "0", Some(Zeros(k - |d|) + d), None);
      LeadingZeros(k - |d|, d);
    }
    assert m.Spell() == PointMoved(d, k);
  }

  /** `d` with its point moved `k` places left. */
  function PointMoved(d: string, k: nat): string {
    if k < |d| then d[..|d| - k] + "." + d[|d| - k..] else "0." + Zeros(k - |d|) + d
  }

  lemma {:induction false} LeadingZeros(k: nat, d: string)
    requires forall j | 0 <= j < |d| :: IsDigit(d[j])
    ensures DigitsValue("0" + (Zeros(k) + d)) == DigitsValue(d)
  {
    assert "0" + (Zeros(k) + d) == Zeros(k + 1) + d;
    hide DigitsValue, Zeros;
    ZerosValue(k + 1, d);
  }

  /** A nonzero integer with an exponent of 342 or more is refused, 1e400 among them; and every integer
      with an exponent that takes it below one is read, 1e-400 among them. */
  lemma {:induction false} HugeIsRefusedTinyIsRead(d: string, k: nat)
    requires ValidWhole(d) && d != "0"
    ensures k >= 342 ==> !ReadsAsDouble(d + "e" + Decimal(k))
    ensures k >= |d| ==> ReadsAsDouble(d + "e-" + Decimal(k))
  {
    hide DigitsValue, ReadNumber, Power, Decimal, ReadsAsDouble;
    NonzeroDigits(d);
    var n := ExponentToken(d, "", k);
    assert d + "e" + "" == d + "e";
    if k >= 342 { HugeScaleIsRefused(n); }
    var m := ExponentToken(d, "-", k);
    assert d + "e" + "-" == d + "e-";
    if k >= |d| { SmallIsRead(m, d, k); }
  }

  lemma {:induction false} NonzeroDigits(d: string)
    requires ValidWhole(d) && d != "0"
    ensures 0 < DigitsValue(d)
  {
    LeadingDigit(d);
  }

  lemma {:induction false} LeadingDigit(d: string)
    requires IsDigits(d) && d[0] != '0'
    ensures 0 < DigitsValue(d)
    decreases |d|
  {
    if |d| > 1 { LeadingDigit(d[..|d| - 1]); }
  }

  lemma {:induction false} DigitsBound(d: string)
    requires forall j | 0 <= j < |d| :: IsDigit(d[j])
    ensures DigitsValue(d) < Power(10, |d|)
    decreases |d|
  {
    if d != "" { DigitsBound(d[..|d| - 1]); }
  }

  lemma {:induction false} SmallIsRead(n: Number, d: string, k: nat)
    requires n.Valid() && ValidWhole(d) && Mantissa(n) == DigitsValue(d) && Scale(n) == 0 - k && k >= |d|
    ensures ReadsAsDouble(n.Spell())
  {
    hide DigitsValue, Power, Mantissa, Scale, ReadNumber, Bound, InDoubleRange;
    ReadNumberIsTheGrammar(n.Spell(), n);
    DigitsBound(d);
    BelowBound(DigitsValue(d), |d|, k);
    RangeBelow(n, k);
  }

  lemma {:induction false} RangeBelow(n: Number, k: nat)
    requires n.Valid() && Scale(n) == 0 - k && Mantissa(n) < Bound() * Power(10, k)
    ensures InDoubleRange(n)
  {
    hide Power, Mantissa, Scale;
    if k == 0 { PowerAsReal(0); }
  }

  lemma {:induction false} BelowBound(v: nat, m: nat, k: nat)
    requires v < Power(10, m) && m <= k
    ensures v < Bound() * Power(10, k)
  {
    hide Power, Bound;
    PowerAdd(10, m, k - m);
    PowerPositive(10, k - m);
    PowerPositive(10, m);
    MulMonotone(1, Power(10, k - m), Power(10, m), Power(10, m));
    BoundPositive();
    PowerPositive(10, k);
    MulMonotone(1, Bound(), Power(10, k), Power(10, k));
  }

  lemma {:induction false} BoundPositive()
    ensures Bound() >= 1
  {
    PowerAdd(2, 1, 970);
    PowerAdd(2, 53, 971);
    hide Bound;
    assert Power(2, 1) == 2;
    hide Power;
    PowerPositive(2, 970);
    PowerPositive(2, 53);
    MulMonotone(1, Power(2, 53), Power(2, 971), Power(2, 971));
  }
}

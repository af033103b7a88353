/**
 Number tokens read one character at a time: the diagram of RFC 8259 section 6 as an automaton, which
 accepts exactly the numbers of the grammar.
 */
module JsonNumberTokens {
  import opened Wrappers
  import opened JsonNumber

  datatype State = Start | Minus | Zero | Whole | Point | Frac | Mark | Sign | Exp | Bad

  predicate OneToNine(c: char) {
    c == '1' || c == '2' || c == '3' || c == '4' || c == '5' || c == '6' || c == '7' || c == '8' || c == '9'
  }

  predicate ZeroToNine(c: char) {
    c == '0' || OneToNine(c)
  }

  function Step(q: State, c: char): State {
    match q
    case Start => if c == '-' then Minus else if c == '0' then Zero else if OneToNine(c) then Whole else Bad
    case Minus => if c == '0' then Zero else if OneToNine(c) then Whole else Bad
    case Zero => if c == '.' then Point else if c == 'e' || c == 'E' then Mark else Bad
    case Whole =>
      if ZeroToNine(c) then Whole else if c == '.' then Point else if c == 'e' || c == 'E' then Mark else Bad
    case Point => if ZeroToNine(c) then Frac else Bad
    case Frac => if ZeroToNine(c) then Frac else if c == 'e' || c == 'E' then Mark else Bad
    case Mark => if c == '+' || c == '-' then Sign else if ZeroToNine(c) then Exp else Bad
    case Sign => if ZeroToNine(c) then Exp else Bad
    case Exp => if ZeroToNine(c) then Exp else Bad
    case Bad => Bad
  }

  function Run(q: State, s: string): State
    decreases |s|
  {
    if s == "" then q else Run(Step(q, s[0]), s[1..])
  }

  predicate Accepts(q: State, s: string) {
    Run(q, s) in {Zero, Whole, Frac, Exp}
  }

  // ---- numbers are accepted -----------------------------------------------------------------

  lemma {:induction false} RunConcat(q: State, a: string, b: string)
    ensures Run(q, a + b) == Run(Run(q, a), b)
    decreases |a|
  {
    hide Step;
    if a == "" {
      assert a + b == b;
    } else {
      assert (a + b)[1..] == a[1..] + b;
      RunConcat(Step(q, a[0]), a[1..], b);
    }
  }

  lemma {:induction false} RunOne(q: State, c: char)
    ensures Run(q, [c]) == Step(q, c)
  {
  }

  lemma {:induction false} RunDigits(q: State, d: string)
    requires q in {Whole, Frac, Exp} && forall k | 0 <= k < |d| :: IsDigit(d[k])
    ensures Run(q, d) == q
    decreases |d|
  {
    if d != "" {
      assert IsDigit(d[0]);
      RunDigits(q, d[1..]);
    }
  }

  lemma {:induction false} RunSomeDigits(q: State, d: string)
    requires q in {Point, Mark, Sign} && IsDigits(d)
    ensures Run(q, d) == if q == Point then Frac else Exp
  {
    assert IsDigit(d[0]);
    RunDigits(if q == Point then Frac else Exp, d[1..]);
  }

  lemma {:induction false} RunWhole(q: State, whole: string)
    requires q in {Start, Minus} && ValidWhole(whole)
    ensures Run(q, whole) in {Zero, Whole}
  {
    assert IsDigit(whole[0]);
    if whole[0] != '0' { RunDigits(Whole, whole[1..]); }
  }

  lemma {:induction false} RunExp(q: State, exp: Option<Exponent>)
    requires q in {Zero, Whole, Frac} && (exp.Some? ==> exp.value.Valid())
    ensures Accepts(q, SpellExp(exp))
  {
    if exp.Some? {
      var x := exp.value;
      assert x.Spell() == [x.mark] + (x.sign + x.digits);
      RunConcat(q, [x.mark], x.sign + x.digits);
      RunOne(q, x.mark);
      RunConcat(Mark, x.sign, x.digits);
      RunSomeDigits(Mark, x.digits);
      RunSomeDigits(Sign, x.digits);
    }
  }

  lemma {:induction false} RunTail(q: State, frac: Option<string>, exp: Option<Exponent>)
    requires q in {Zero, Whole} && (frac.Some? ==> IsDigits(frac.value)) && (exp.Some? ==> exp.value.Valid())
    ensures Accepts(q, SpellFrac(frac) + SpellExp(exp))
  {
    RunConcat(q, SpellFrac(frac), SpellExp(exp));
    if frac.Some? {
      RunConcat(q, ".", frac.value);
      RunOne(q, '.');
      RunSomeDigits(Point, frac.value);
    }
    RunExp(Run(q, SpellFrac(frac)), exp);
  }

  lemma {:induction false} NumberIsAccepted(n: Number)
    requires n.Valid()
    ensures Accepts(Start, n.Spell())
  {
    hide ValidWhole, IsDigits, Step;
    var tail := SpellFrac(n.frac) + SpellExp(n.exp);
    var q := if n.minus then Minus else Start;
    MinusSign();
    RunConcat(Start, SpellMinus(n.minus), n.whole + tail);
    RunWhole(q, n.whole);
    RunConcat(q, n.whole, tail);
    RunTail(Run(q, n.whole), n.frac, n.exp);
  }

  lemma {:induction false} MinusSign()
    ensures Run(Start, "-") == Minus && Run(Start, "") == Start
  {
  }

  // ---- and nothing else is ------------------------------------------------------------------

  lemma {:induction false} BadStays(s: string)
    ensures !Accepts(Bad, s)
    decreases |s|
  {
    if s != "" { BadStays(s[1..]); }
  }

  lemma {:induction false} AcceptedExp(s: string)
    requires Accepts(Exp, s)
    ensures forall k | 0 <= k < |s| :: IsDigit(s[k])
    decreases |s|
  {
    if s != "" {
      BadStays(s[1..]);
      AcceptedExp(s[1..]);
    }
  }

  lemma {:induction false} AcceptedSign(s: string)
    requires Accepts(Sign, s)
    ensures IsDigits(s)
  {
    BadStays(s[1..]);
    AcceptedExp(s[1..]);
  }

  /** After a mark: a sign or none, and digits. */
  lemma {:induction false} AcceptedMark(s: string, mark: char) returns (e: Exponent)
    requires Accepts(Mark, s) && (mark == 'e' || mark == 'E')
    ensures e.Valid() && e.Spell() == [mark] + s
  {
    BadStays(s[1..]);
    if s[0] == '+' || s[0] == '-' {
      AcceptedSign(s[1..]);
      e := Exponent(mark, s[..1], s[1..]);
    } else {
      AcceptedExp(s[1..]);
      e := Exponent(mark, "", s);
    }
  }

  /** After digits of a fraction: more of them, and perhaps an exponent. */
  lemma {:induction false} AcceptedFrac(s: string) returns (d: string, exp: Option<Exponent>)
    requires Accepts(Frac, s)
    ensures (forall k | 0 <= k < |d| :: IsDigit(d[k])) && (exp.Some? ==> exp.value.Valid()) && s == d + SpellExp(exp)
    decreases |s|
  {
    if s == "" {
      d, exp := "", None;
    } else {
      BadStays(s[1..]);
      if ZeroToNine(s[0]) {
        d, exp := AcceptedFrac(s[1..]);
        d := [s[0]] + d;
      } else {
        var e := AcceptedMark(s[1..], s[0]);
        d, exp := "", Some(e);
      }
    }
  }

  /** After a point or a mark that follows the integer part. */
  lemma {:induction false} AcceptedZero(s: string) returns (frac: Option<string>, exp: Option<Exponent>)
    requires Accepts(Zero, s)
    ensures frac.Some? ==> IsDigits(frac.value)
    ensures exp.Some? ==> exp.value.Valid()
    ensures s == SpellFrac(frac) + SpellExp(exp)
  {
    if s == "" {
      frac, exp := None, None;
    } else {
      BadStays(s[1..]);
      if s[0] == '.' {
        var d, e := AcceptedPoint(s[1..]);
        frac, exp := Some(d), e;
      } else {
        var e := AcceptedMark(s[1..], s[0]);
        frac, exp := None, Some(e);
      }
    }
  }

  lemma {:induction false} AcceptedPoint(s: string) returns (d: string, exp: Option<Exponent>)
    requires Accepts(Point, s)
    ensures IsDigits(d) && (exp.Some? ==> exp.value.Valid()) && s == d + SpellExp(exp)
  {
    BadStays(s[1..]);
    var more;
    more, exp := AcceptedFrac(s[1..]);
    hide IsDigits, Run;
    MoreDigits(s[0], more);
    d := [s[0]] + more;
    assert s == [s[0]] + s[1..];
  }

  lemma {:induction false} AcceptedWhole(s: string)
    returns (d: string, frac: Option<string>, exp: Option<Exponent>)
    requires Accepts(Whole, s)
    ensures forall k | 0 <= k < |d| :: IsDigit(d[k])
    ensures frac.Some? ==> IsDigits(frac.value)
    ensures exp.Some? ==> exp.value.Valid()
    ensures s == d + (SpellFrac(frac) + SpellExp(exp))
    decreases |s|
  {
    if s != "" && ZeroToNine(s[0]) {
      d, frac, exp := AcceptedWhole(s[1..]);
      d := [s[0]] + d;
    } else {
      assert Accepts(Zero, s);
      frac, exp := AcceptedZero(s);
      d := "";
    }
  }

  lemma {:induction false} MoreDigits(c: char, d: string)
    requires IsDigit(c) && forall k | 0 <= k < |d| :: IsDigit(d[k])
    ensures IsDigits([c] + d) && (c != '0' || d == "" ==> ValidWhole([c] + d))
  {
  }

  lemma {:induction false} AcceptedMinus(s: string, minus: bool) returns (n: Number)
    requires Accepts(Minus, s)
    ensures n.Valid() && n.minus == minus && n.Spell() == SpellMinus(minus) + s
  {
    hide IsDigits, ValidWhole, Run;
    NotEmpty(Minus, s);
    RunFirst(Minus, s);
    BadStays(s[1..]);
    if s[0] == '0' {
      var frac, exp := AcceptedZero(s[1..]);
      MoreDigits('0', "");
      assert ['0'] + "" == "0";
      n := Number(minus, "0", frac, exp);
    } else {
      var d, frac, exp := AcceptedWhole(s[1..]);
      MoreDigits(s[0], d);
      n := Number(minus, [s[0]] + d, frac, exp);
      assert [s[0]] + d + (SpellFrac(frac) + SpellExp(exp)) == [s[0]] + s[1..];
    }
    assert s == [s[0]] + s[1..];
  }

  lemma {:induction false} NotEmpty(q: State, s: string)
    requires q in {Start, Minus, Point, Mark, Sign} && Accepts(q, s)
    ensures s != ""
  {
    assert Run(q, "") == q;
  }

  lemma {:induction false} RunFirst(q: State, s: string)
    requires s != ""
    ensures Run(q, s) == Run(Step(q, s[0]), s[1..])
  {
  }

  /** The automaton accepts a token exactly when the grammar derives it, and so does the scan of the reader. */
  lemma {:induction false} AcceptsExactlyNumbers(s: string)
    ensures Accepts(Start, s) <==> IsJsonNumber(s)
    ensures Accepts(Start, s) <==> ReadNumber(s).Some?
  {
    if Accepts(Start, s) {
      var n := AcceptedStart(s);
      ReadNumberIsTheGrammar(s, n);
    }
    if IsJsonNumber(s) {
      var n: Number :| n.Valid() && n.Spell() == s;
      NumberIsAccepted(n);
    }
    if ReadNumber(s).Some? {
      ReadNumberIsTheGrammar(s, ReadNumber(s).value);
      NumberIsAccepted(ReadNumber(s).value);
    }
  }

  lemma {:induction false} AcceptedStart(s: string) returns (n: Number)
    requires Accepts(Start, s)
    ensures n.Valid() && n.Spell() == s
  {
    if s[0] == '-' {
      n := AcceptedMinus(s[1..], true);
    } else {
      assert Accepts(Minus, s);
      n := AcceptedMinus(s, false);
      assert SpellMinus(false) + s == s;
    }
  }
}

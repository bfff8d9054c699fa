/** What the text of a JSON number means: its whole part, fraction and exponent, read off the decimal notation. */
module JsonNumberMeaning {
  import opened Bytes
  import opened DecimalDigits
  import opened JsonTree
  import opened JsonNumber
  import opened JsonGrammar
  import opened JsonRoundTrip

  datatype Fraction = NoFraction | Fraction(digits: seq<byte>)

  datatype Scale = NoScale | Scale(mark: byte, sign: seq<byte>, digits: seq<byte>)

  /** A number in decimal notation. */
  datatype Numeral = Numeral(minus: bool, whole: seq<byte>, fraction: Fraction, scale: Scale)

  function FractionDigits(x: Fraction): seq<byte> {
    if x.Fraction? then x.digits else []
  }

  /** The whole part or the fraction may lack digits, but not both. */
  predicate Proper(n: Numeral) {
    && AllDigits(n.whole)
    && (n.fraction.Fraction? ==> AllDigits(n.fraction.digits))
    && n.whole + FractionDigits(n.fraction) != []
    && (n.scale.Scale? ==>
          && n.scale.mark in [101, 69] && n.scale.sign in [[], [43], [45]]
          && AllDigits(n.scale.digits) && n.scale.digits != [])
  }

  function MinusText(n: Numeral): seq<byte> {
    if n.minus then [45] else []
  }

  function FractionText(x: Fraction): seq<byte> {
    match x
    case NoFraction => []
    case Fraction(digits) => [46] + digits
  }

  function ScaleText(x: Scale): seq<byte> {
    match x
    case NoScale => []
    case Scale(mark, sign, digits) => [mark] + sign + digits
  }

  function Text(n: Numeral): seq<byte> {
    MinusText(n) + n.whole + FractionText(n.fraction) + ScaleText(n.scale)
  }

  /** Ten to the power `e`. */
  function TenTo(e: int): real {
    if e >= 0 then Power(e) as real else 1.0 / Power(-e) as real
  }

  function FractionValue(x: Fraction): real
    requires x.Fraction? ==> AllDigits(x.digits)
  {
    match x
    case NoFraction => 0.0
    case Fraction(digits) => DigitsValue(digits) as real / Power(|digits|) as real
  }

  function ScaleValue(x: Scale): int
    requires x.Scale? ==> AllDigits(x.digits)
  {
    match x
    case NoScale => 0
    case Scale(_, sign, digits) => if sign == [45] then -(DigitsValue(digits) as int) else DigitsValue(digits)
  }

  function Meaning(n: Numeral): real
    requires Proper(n)
  {
    var size := (DigitsValue(n.whole) as real + FractionValue(n.fraction)) * TenTo(ScaleValue(n.scale));
    if n.minus then -size else size
  }

  // ---- powers of ten ----

  lemma Pow10Next(k: int)
    ensures Pow10(k + 1) == 10.0 * Pow10(k)
  {
  }

  lemma {:induction false} Pow10Is(e: int)
    ensures Pow10(e) == TenTo(e)
    decreases if e < 0 then -e else e
  {
    if e > 0 {
      Pow10Is(e - 1);
    } else if e < 0 {
      Pow10Is(e + 1);
      assert Power(-e) == 10 * Power(-e - 1);
      Tenth(Power(-e - 1));
    }
  }

  lemma Tenth(p: nat)
    requires p > 0
    ensures 1.0 / (10 * p) as real == (1.0 / p as real) / 10.0
  {
  }

  lemma {:induction false} Pow10Shift(e: int, f: nat)
    ensures Pow10(e) == Power(f) as real * Pow10(e - f)
  {
    if f > 0 {
      Pow10Shift(e, f - 1);
      Pow10Next(e - f);
      assert Power(f) == 10 * Power(f - 1);
      Regroup(Power(f - 1) as real, Pow10(e - f));
    }
  }

  lemma Regroup(p: real, x: real)
    ensures p * (10.0 * x) == (10.0 * p) * x
  {
  }

  // ---- digits ----

  lemma {:induction false} DigitsJoin(a: seq<byte>, b: seq<byte>)
    requires AllDigits(a) && AllDigits(b)
    ensures AllDigits(a + b)
    ensures DigitsValue(a + b) == DigitsValue(a) * Power(|b|) + DigitsValue(b)
    decreases |b|
  {
    if b == [] {
      assert a + b == a;
    } else {
      var n := |b| - 1;
      DigitsJoin(a, b[..n]);
      assert (a + b)[..|a + b| - 1] == a + b[..n];
      assert (a + b)[|a + b| - 1] == b[n];
      Distribute(DigitsValue(a), Power(n), DigitsValue(b[..n]));
    }
  }

  lemma Distribute(a: nat, p: nat, b: nat)
    ensures 10 * (a * p + b) == a * (10 * p) + 10 * b
  {
  }

  /** A whole run of digits. */
  lemma RunHere(t: seq<byte>, i: nat, d: seq<byte>)
    requires At(t, i, d) && AllDigits(d) && (i + |d| == |t| || !IsDigit(t[i + |d|]))
    ensures DigitRun(t, i) == |d| && t[i..i + |d|] == d
  {
    if i + |d| == |t| {
      AtAll(t, i, d);
      DigitRunAll(t, i);
    } else {
      DigitRunAt(t, i, d);
    }
  }

  // ---- the parts of the text ----

  lemma ScaleStarts(x: Scale)
    ensures x.Scale? ==> |ScaleText(x)| > 0 && ScaleText(x)[0] == x.mark
  {
  }

  lemma FractionStarts(x: Fraction)
    ensures x.Fraction? ==> |FractionText(x)| > 0 && FractionText(x)[0] == POINT
  {
  }

  /** Where the parts stand. */
  lemma PartsStand(n: Numeral)
    ensures
      var t := Text(n);
      var i := |MinusText(n)|;
      var p := i + |n.whole|;
      var m := p + |FractionText(n.fraction)|;
      && At(t, 0, MinusText(n)) && At(t, i, n.whole) && At(t, p, FractionText(n.fraction))
      && At(t, m, ScaleText(n.scale)) && m + |ScaleText(n.scale)| == |t|
  {
    hide At, ScaleText, FractionText, MinusText;
    var t := Text(n);
    AtSelf(t);
    AtConcat(t, 0, MinusText(n) + n.whole + FractionText(n.fraction), ScaleText(n.scale));
    AtConcat(t, 0, MinusText(n) + n.whole, FractionText(n.fraction));
    AtConcat(t, 0, MinusText(n), n.whole);
  }

  /** The byte behind the whole part, and the one behind the fraction, is no digit. */
  lemma Parts(n: Numeral)
    requires Proper(n)
    ensures
      var t := Text(n);
      var i := |MinusText(n)|;
      var p := i + |n.whole|;
      var m := p + |FractionText(n.fraction)|;
      && At(t, i, n.whole) && i == SignLength(t, 0) && (i == 1 <==> |t| > 0 && t[0] == MINUS)
      && t != [] && (i == 1 || n.whole != [] ==> t[0] == MINUS || IsDigit(t[0]))
      && (p < |t| ==> !IsDigit(t[p])) && (p < |t| && t[p] == POINT <==> n.fraction.Fraction?)
      && (n.fraction.Fraction? ==> At(t, p + 1, n.fraction.digits))
      && (m < |t| ==> !IsDigit(t[m])) && At(t, m, ScaleText(n.scale)) && m + |ScaleText(n.scale)| == |t|
  {
    hide At, ScaleText, FractionText, Text;
    var t := Text(n);
    var i := |MinusText(n)|;
    var p := i + |n.whole|;
    var m := p + |FractionText(n.fraction)|;
    PartsStand(n);
    ScaleStarts(n.scale);
    FractionStarts(n.fraction);
    FractionSplits(n.fraction);
    NoScaleText();
    NoFractionText();
    if n.scale.Scale? {
      AtIndex(t, m, ScaleText(n.scale), 0);
    }
    if n.fraction.Fraction? {
      AtIndex(t, p, FractionText(n.fraction), 0);
      AtConcat(t, p, [46], n.fraction.digits);
    }
    if n.minus {
      AtIndex(t, 0, [45], 0);
    } else if n.whole != [] {
      AtIndex(t, 0, n.whole, 0);
    }
  }

  lemma NoScaleText()
    ensures ScaleText(NoScale) == []
  {
  }

  lemma NoFractionText()
    ensures FractionText(NoFraction) == []
  {
  }

  lemma FractionSplits(x: Fraction)
    ensures x.Fraction? ==> FractionText(x) == [46] + x.digits
  {
  }

  lemma AtSelf(t: seq<byte>)
    ensures At(t, 0, t)
  {
    assert t[0..|t|] == t;
  }

  lemma ExponentIs(t: seq<byte>, m: nat, n: nat)
    requires m < |t| && IsExponentMark(t[m]) && n > 0
    requires m + 1 + SignLength(t, m + 1) <= |t| && DigitRun(t, m + 1 + SignLength(t, m + 1)) == n
    ensures
      var s := m + 1 + SignLength(t, m + 1);
      Exponent(t, m) == (s + n - m, Signed(t, m + 1, DigitsValue(t[s..s + n])))
  {
    hide DigitRun, DigitsValue, SignLength, Signed;
  }

  lemma NoExponent(t: seq<byte>)
    ensures Exponent(t, |t|) == (0, 0)
  {
  }

  lemma ScaleRead(t: seq<byte>, m: nat, x: Scale)
    requires x.Scale? ==> x.mark in [101, 69] && x.sign in [[], [43], [45]] && AllDigits(x.digits) && x.digits != []
    requires At(t, m, ScaleText(x)) && m + |ScaleText(x)| == |t|
    ensures Exponent(t, m) == (|ScaleText(x)|, ScaleValue(x))
  {
    hide At, DigitRun, DigitsValue, Exponent;
    match x
    case NoScale => NoExponent(t);
    case Scale(mark, sign, digits) => ExponentRead(t, m, mark, sign, digits);
  }

  lemma ExponentRead(t: seq<byte>, m: nat, mark: byte, sign: seq<byte>, digits: seq<byte>)
    requires (mark == 101 || mark == 69) && AllDigits(digits) && digits != []
    requires sign == [] || sign == [43] || sign == [45]
    requires At(t, m, [mark] + sign + digits) && m + 1 + |sign| + |digits| == |t|
    ensures Exponent(t, m) ==
            (1 + |sign| + |digits|, if sign == [45] then -(DigitsValue(digits) as int) else DigitsValue(digits))
  {
    hide At, DigitRun, DigitsValue, Exponent;
    var s := m + 1 + |sign|;
    AtConcat(t, m, [mark] + sign, digits);
    AtConcat(t, m, [mark], sign);
    AtIndex(t, m, [mark], 0);
    AtIndex(t, s, digits, 0);
    if sign != [] {
      AtIndex(t, m + 1, sign, 0);
    }
    RunHere(t, s, digits);
    ExponentIs(t, m, |digits|);
  }

  // ---- the value ----

  lemma ValueIs(n: Numeral)
    requires Proper(n)
    ensures AllDigits(n.whole + FractionDigits(n.fraction))
    ensures
      var all := DigitsValue(n.whole + FractionDigits(n.fraction));
      var size := all as real * Pow10(ScaleValue(n.scale) - |FractionDigits(n.fraction)|);
      Meaning(n) == if n.minus then -size else size
  {
    hide DigitsValue, Pow10, TenTo, Power;
    var d := FractionDigits(n.fraction);
    var e := ScaleValue(n.scale);
    DigitsJoin(n.whole, d);
    Pow10Shift(e, |d|);
    Pow10Is(e);
    assert FractionValue(n.fraction) == DigitsValue(d) as real / Power(|d|) as real by { NoDigits(); }
    Cancels(DigitsValue(n.whole), Power(|d|), DigitsValue(d), Pow10(e - |d|));
  }

  lemma NoDigits()
    ensures DigitsValue([]) == 0
  {
  }

  lemma Cancels(w: nat, p: nat, f: nat, x: real)
    requires p > 0
    ensures (w as real + f as real / p as real) * (p as real * x) == (w * p + f) as real * x
  {
    var y := f as real / p as real;
    assert y * p as real == f as real;
    assert (w as real + y) * p as real == (w * p + f) as real;
  }

  /** strtod takes the whole of a numeral and gives what it means. */
  lemma StrtodMeaning(n: Numeral)
    requires Proper(n)
    ensures Strtod(Text(n)).0 == |Text(n)| && Strtod(Text(n)).1 == Meaning(n)
  {
    hide At, DigitRun, DigitsValue, Text, Meaning, Exponent, ScaleText, FractionText, Pow10, ScaleValue, Strtod;
    var t := Text(n);
    var i := |MinusText(n)|;
    var p := i + |n.whole|;
    Parts(n);
    RunHere(t, i, n.whole);
    FractionSplits(n.fraction);
    NoFractionText();
    if n.fraction.Fraction? {
      RunHere(t, p + 1, n.fraction.digits);
    }
    ScaleRead(t, p + |FractionText(n.fraction)|, n.scale);
    ValueIs(n);
    var d := FractionDigits(n.fraction);
    StrtodOfParts(t, i, n.whole, d, p + |FractionText(n.fraction)|);
    NegativeProduct(DigitsValue(n.whole + d), Pow10(ScaleValue(n.scale) - |d|));
  }

  /** strtod with its parts given: sign, digits before and after the point, and the place of the exponent. */
  lemma StrtodOfParts(t: seq<byte>, i: nat, whole: seq<byte>, d: seq<byte>, m: nat)
    requires i == SignLength(t, 0) && whole + d != [] && DigitRun(t, i) == |whole| && At(t, i, whole)
    requires AllDigits(whole + d)
    requires
      var p := i + |whole|;
      if p < |t| && t[p] == POINT
      then DigitRun(t, p + 1) == |d| && At(t, p + 1, d) && m == p + 1 + |d|
      else d == [] && m == p
    ensures m <= |t|
    ensures
      var e := Exponent(t, m);
      Strtod(t).0 == m + e.0 && Strtod(t).1 == Signed(t, 0, DigitsValue(whole + d)) as real * Pow10(e.1 - |d|)
  {
    hide DigitRun, DigitsValue, Exponent, Pow10, SignLength, Signed;
    var p := i + |whole|;
    var f := if p < |t| && t[p] == POINT then DigitRun(t, p + 1) else 0;
    assert f == FractionRun(t, p) == |d|;
    assert Mantissa(t, i, p, f) == whole + d;
  }

  lemma NegativeProduct(k: nat, x: real)
    ensures (-(k as int)) as real * x == -(k as real * x)
  {
  }

  lemma TextCollects(n: Numeral)
    requires Proper(n)
    ensures |Text(n)| > 0 && (n.minus || n.whole != [] ==> Text(n)[0] == MINUS || IsDigit(Text(n)[0]))
    ensures AllNumberChars(Text(n))
  {
    hide Text, Proper, IsNumberChar;
    Parts(n);
    PartsCollect(n);
    NumberCharsJoin(MinusText(n), n.whole);
    NumberCharsJoin(MinusText(n) + n.whole, FractionText(n.fraction));
    NumberCharsJoin(MinusText(n) + n.whole + FractionText(n.fraction), ScaleText(n.scale));
    assert Text(n) == MinusText(n) + n.whole + FractionText(n.fraction) + ScaleText(n.scale) by { TextSplits(n); }
  }

  lemma TextSplits(n: Numeral)
    ensures Text(n) == MinusText(n) + n.whole + FractionText(n.fraction) + ScaleText(n.scale)
  {
  }

  predicate AllNumberChars(s: seq<byte>) {
    forall k :: 0 <= k < |s| ==> IsNumberChar(s[k])
  }

  lemma NumberCharsJoin(a: seq<byte>, b: seq<byte>)
    requires AllNumberChars(a) && AllNumberChars(b)
    ensures AllNumberChars(a + b)
  {
  }

  lemma PartsCollect(n: Numeral)
    requires Proper(n)
    ensures AllNumberChars(MinusText(n)) && AllNumberChars(n.whole)
    ensures AllNumberChars(FractionText(n.fraction)) && AllNumberChars(ScaleText(n.scale))
  {
  }

  /** A number that stands before a byte that cannot continue it is read whole and gives what its notation means,
      up to the 63 characters that are collected. */
  lemma NumberMeaning(c: seq<byte>, off: nat, depth: nat, n: Numeral)
    requires NulEnded(c) && Proper(n) && (n.minus || n.whole != []) && |Text(n)| <= 63 && At(c, off, Text(n))
    requires off + |Text(n)| < |c| && !IsNumberChar(c[off + |Text(n)|])
    ensures ParseValue(c, off, depth) == Done(Number(Meaning(n)), off + |Text(n)|)
  {
    hide At, Text, Meaning, Strtod, Collect, ParseValue, Proper;
    var t := Text(n);
    TextCollects(n);
    AtIndex(c, off, t, 0);
    CollectsText(c, off, 0, t);
    StrtodMeaning(n);
    Dispatch(c, off, depth);
  }

  // ---- the other way: what strtod takes is a numeral ----

  function FractionAt(t: seq<byte>, p: nat): Fraction
    requires p <= |t|
  {
    if p < |t| && t[p] == POINT then Fraction(t[p + 1..p + 1 + DigitRun(t, p + 1)]) else NoFraction
  }

  function ScaleAt(t: seq<byte>, m: nat): Scale
    requires m <= |t|
  {
    if Exponent(t, m).0 == 0 then NoScale
    else
      var s := m + 1 + SignLength(t, m + 1);
      Scale(t[m], t[m + 1..s], t[s..s + DigitRun(t, s)])
  }

  lemma PointFound(t: seq<byte>, p: nat, f: nat)
    requires p < |t| && t[p] == POINT && DigitRun(t, p + 1) == f
    ensures At(t, p, [46] + t[p + 1..p + 1 + f]) && At(t, p + 1, t[p + 1..p + 1 + f]) && AllDigits(t[p + 1..p + 1 + f])
  {
    hide At, DigitRun;
    AtHere(t, p, p + 1);
    AtHere(t, p + 1, p + 1 + f);
    var point: seq<byte> := [46];
    assert t[p..p + 1] == point;
    AtConcat(t, p, point, t[p + 1..p + 1 + f]);
  }

  lemma FractionFound(t: seq<byte>, p: nat)
    requires p <= |t|
    ensures
      var x := FractionAt(t, p);
      && (x.Fraction? ==> AllDigits(x.digits)) && At(t, p, FractionText(x))
      && |FractionDigits(x)| == FractionRun(t, p)
      && if p < |t| && t[p] == POINT
         then DigitRun(t, p + 1) == |FractionDigits(x)| && At(t, p + 1, FractionDigits(x))
              && |FractionText(x)| == 1 + |FractionDigits(x)|
         else FractionDigits(x) == [] && FractionText(x) == []
  {
    hide At, DigitRun;
    if p < |t| && t[p] == POINT {
      PointFound(t, p, DigitRun(t, p + 1));
    } else {
      AtHere(t, p, p);
    }
  }

  lemma ScaleFound(t: seq<byte>, m: nat)
    requires m <= |t|
    ensures
      var x := ScaleAt(t, m);
      && (x.Scale? ==> x.mark in [101, 69] && x.sign in [[], [43], [45]] && AllDigits(x.digits) && x.digits != [])
      && At(t, m, ScaleText(x)) && Exponent(t, m) == (|ScaleText(x)|, ScaleValue(x))
  {
    hide DigitsValue, At, DigitRun;
    if Exponent(t, m).0 > 0 {
      var s := m + 1 + SignLength(t, m + 1);
      var n := DigitRun(t, s);
      AtHere(t, m, m + 1);
      AtHere(t, m + 1, s);
      AtHere(t, s, s + n);
      AtConcat(t, m, [t[m]], t[m + 1..s]);
      AtConcat(t, m, [t[m]] + t[m + 1..s], t[s..s + n]);
      assert t[m..m + 1] == [t[m]];
      if s == m + 2 {
        assert t[m + 1..s] == [t[m + 1]];
      }
    } else {
      AtHere(t, m, m);
    }
  }

  /** The numeral at the start of a text. */
  function NumeralAt(t: seq<byte>): Numeral {
    var i := SignLength(t, 0);
    var p := i + DigitRun(t, i);
    var x := FractionAt(t, p);
    FractionFound(t, p);
    AtLength(t, p, FractionText(x));
    Numeral(i == 1, t[i..p], x, ScaleAt(t, p + |FractionText(x)|))
  }

  lemma NumeralText(t: seq<byte>)
    requires Strtod(t).0 > 0 && t[0] != PLUS
    ensures
      var n := NumeralAt(t);
      Proper(n) && At(t, 0, Text(n)) && (n.minus || n.whole != [] <==> t[0] == MINUS || IsDigit(t[0]))
  {
    hide At, ScaleText, FractionText, Exponent, Pow10, ScaleAt, FractionAt, DigitsValue, FractionDigits, DigitRun, Mantissa;
    var n := NumeralAt(t);
    var i := SignLength(t, 0);
    var p := i + DigitRun(t, i);
    var m := p + |FractionText(n.fraction)|;
    FractionFound(t, p);
    AtLength(t, p, FractionText(n.fraction));
    ScaleFound(t, m);
    AtHere(t, 0, i);
    AtHere(t, i, p);
    assert MinusText(n) == t[0..i];
    assert |n.whole + FractionDigits(n.fraction)| == DigitRun(t, i) + FractionRun(t, p) > 0;
    AtConcat(t, 0, MinusText(n), n.whole);
    AtConcat(t, 0, MinusText(n) + n.whole, FractionText(n.fraction));
    AtConcat(t, 0, MinusText(n) + n.whole + FractionText(n.fraction), ScaleText(n.scale));
  }

  lemma NumeralValue(t: seq<byte>)
    requires Strtod(t).0 > 0 && t[0] != PLUS
    ensures
      var n := NumeralAt(t);
      Proper(n) && |Text(n)| == Strtod(t).0 && Meaning(n) == Strtod(t).1
  {
    hide At, ScaleText, FractionText, Exponent, Pow10, Meaning, ScaleAt, FractionAt, DigitsValue, FractionDigits, DigitRun,
      Strtod, Proper, ScaleValue;
    NumeralText(t);
    var n := NumeralAt(t);
    var i := SignLength(t, 0);
    var p := i + DigitRun(t, i);
    var m := p + |FractionText(n.fraction)|;
    var d := FractionDigits(n.fraction);
    FractionFound(t, p);
    AtLength(t, p, FractionText(n.fraction));
    ScaleFound(t, m);
    AtHere(t, i, p);
    NotBothEmpty(n);
    StrtodOfParts(t, i, n.whole, d, m);
    ValueIs(n);
    NegativeProduct(DigitsValue(n.whole + d), Pow10(ScaleValue(n.scale) - |d|));
  }

  lemma NotBothEmpty(n: Numeral)
    requires Proper(n)
    ensures n.whole + FractionDigits(n.fraction) != [] && AllDigits(n.whole + FractionDigits(n.fraction))
  {
  }

  /** Whatever strtod converts of a text without a leading plus is a numeral and means what it gives. */
  lemma StrtodTakesNumeral(t: seq<byte>) returns (n: Numeral)
    requires Strtod(t).0 > 0 && t[0] != PLUS
    ensures Proper(n) && At(t, 0, Text(n)) && |Text(n)| == Strtod(t).0 && Meaning(n) == Strtod(t).1
    ensures n.minus || n.whole != [] <==> t[0] == MINUS || IsDigit(t[0])
  {
    hide At, Text, Meaning, Proper, NumeralAt, Strtod;
    n := NumeralAt(t);
    NumeralText(t);
    NumeralValue(t);
  }

  lemma AtLength(t: seq<byte>, p: nat, s: seq<byte>)
    requires At(t, p, s)
    ensures p + |s| <= |t|
  {
  }

  lemma AtHere(t: seq<byte>, p: nat, q: nat)
    requires p <= q <= |t|
    ensures At(t, p, t[p..q])
  {
  }
}

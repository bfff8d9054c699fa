/** Numbers: the characters parse_number collects, strtod on them, and plain decimal text. */
module JsonNumber {
  import opened Bytes
  import opened DecimalDigits

  // sizeof(number_c_string) - 1 and sizeof(number_buffer) - 1
  const COLLECT_LIMIT: nat := 63
  const PRINT_LIMIT: nat := 25

  const PLUS: byte := 43
  const MINUS: byte := 45
  const POINT: byte := 46

  predicate IsExponentMark(b: byte) {
    b == 101 || b == 69
  }

  predicate IsNumberChar(b: byte) {
    IsDigit(b) || b == PLUS || b == MINUS || IsExponentMark(b) || b == POINT
  }

  /** The characters that the collecting loop copies, `i` of them so far. */
  function Collect(c: seq<byte>, off: nat, i: nat): (t: seq<byte>)
    requires off <= |c|
    ensures |t| <= |c| - off
    ensures i <= COLLECT_LIMIT ==> i + |t| <= COLLECT_LIMIT
    ensures forall k :: 0 <= k < |t| ==> t[k] == c[off + k] && IsNumberChar(t[k])
    decreases |c| - off
  {
    if i < COLLECT_LIMIT && off < |c| && IsNumberChar(c[off])
    then [c[off]] + Collect(c, off + 1, i + 1)
    else []
  }

  function Pow10(e: int): real
    decreases if e < 0 then -e else e
  {
    if e == 0 then 1.0 else if e > 0 then 10.0 * Pow10(e - 1) else Pow10(e + 1) / 10.0
  }

  function SignLength(t: seq<byte>, i: nat): (n: nat)
    requires i <= |t|
    ensures i + n <= |t|
  {
    if i < |t| && (t[i] == PLUS || t[i] == MINUS) then 1 else 0
  }

  function Signed(t: seq<byte>, i: nat, n: nat): int
    requires i <= |t|
  {
    if i < |t| && t[i] == MINUS then -(n as int) else n
  }

  /** The exponent part at `m`: its length, 0 when there is none, and its value. */
  function Exponent(t: seq<byte>, m: nat): (r: (nat, int))
    requires m <= |t|
    ensures m + r.0 <= |t|
  {
    if m < |t| && IsExponentMark(t[m]) then
      var s := m + 1 + SignLength(t, m + 1);
      var n := DigitRun(t, s);
      if n == 0 then (0, 0) else (s + n - m, Signed(t, m + 1, DigitsValue(t[s..s + n])))
    else (0, 0)
  }

  /** How many digits follow the point at `p`. */
  function FractionRun(t: seq<byte>, p: nat): (f: nat)
    requires p <= |t|
    ensures p + f <= |t| && (f > 0 ==> p + 1 + f <= |t| && t[p] == POINT)
    ensures forall k :: p < k <= p + f ==> IsDigit(t[k])
  {
    if p < |t| && t[p] == POINT then DigitRun(t, p + 1) else 0
  }

  /** The digits from `i` to the point at `p` and the `f` digits behind it. */
  function Mantissa(t: seq<byte>, i: nat, p: nat, f: nat): (d: seq<byte>)
    requires i <= p <= |t| && (f > 0 ==> p + 1 + f <= |t|)
    requires forall k :: i <= k < p ==> IsDigit(t[k])
    requires forall k :: p < k <= p + f ==> IsDigit(t[k])
    ensures AllDigits(d)
  {
    if f == 0 then t[i..p] else t[i..p] + t[p + 1..p + 1 + f]
  }

  /** strtod on collected text: the length converted, 0 for none, and the exact value. */
  function Strtod(t: seq<byte>): (r: (nat, real))
    ensures r.0 <= |t|
  {
    var i := SignLength(t, 0);
    var n := DigitRun(t, i);
    var p := i + n;
    var f := FractionRun(t, p);
    if n + f == 0 then (0, 0.0)
    else
      var m := if p < |t| && t[p] == POINT then p + 1 + f else p;
      var e := Exponent(t, m);
      (m + e.0, Signed(t, 0, DigitsValue(Mantissa(t, i, p, f))) as real * Pow10(e.1 - f))
  }

  // ---- plain decimal text ----

  function Decimal(n: int): (t: seq<byte>) {
    if n < 0 then [MINUS] + Digits(-n) else Digits(n)
  }

  /** What the printer needs of a number's text for the parser to read the number back. */
  ghost predicate ReadsBack(t: seq<byte>, r: real) {
    && 0 < |t| <= PRINT_LIMIT
    && (t[0] == MINUS || IsDigit(t[0]))
    && (forall k :: 0 <= k < |t| ==> IsNumberChar(t[k]))
    && Strtod(t) == (|t|, r)
  }

  lemma {:induction false} DigitsLength(n: nat, k: nat, bound: nat)
    requires k > 0 && n < bound && bound == Power(k)
    ensures |Digits(n)| <= k
  {
    if n >= 10 {
      assert Power(1) == 10;
      assert n / 10 < Power(k - 1);
      DigitsLength(n / 10, k - 1, Power(k - 1));
    }
  }

  function Power(k: nat): (p: nat)
    ensures p > 0
  {
    if k == 0 then 1 else 10 * Power(k - 1)
  }

  /** Integers below 10^15 in magnitude, printed as plain decimals, read back exactly. */
  lemma DecimalReadsBack(n: int)
    requires -1_000_000_000_000_000 < n < 1_000_000_000_000_000
    ensures ReadsBack(Decimal(n), n as real)
  {
    var t := Decimal(n);
    var m := if n < 0 then -n else n;
    assert Power(15) == 1_000_000_000_000_000 by {
      assert Power(5) == 100_000;
      assert Power(10) == 10_000_000_000;
    }
    DigitsLength(m, 15, Power(15));
    var i := SignLength(t, 0);
    assert t[i..] == Digits(m);
    DigitRunAll(t, i);
    DigitsValueOfDigits(m);
    assert t[i..|t|] == t[i..];
    assert Exponent(t, |t|) == (0, 0);
    assert Pow10(0) == 1.0;
  }
}

/** Unsigned decimal numbers in text. */
module DecimalDigits {
  import opened Bytes

  predicate IsDigit(b: byte) {
    48 <= b <= 57
  }

  predicate AllDigits(t: seq<byte>) {
    forall k :: 0 <= k < |t| ==> IsDigit(t[k])
  }

  function DigitRun(t: seq<byte>, i: nat): (n: nat)
    requires i <= |t|
    ensures i + n <= |t|
    ensures forall k :: i <= k < i + n ==> IsDigit(t[k])
    ensures i + n < |t| ==> !IsDigit(t[i + n])
    decreases |t| - i
  {
    if i < |t| && IsDigit(t[i]) then 1 + DigitRun(t, i + 1) else 0
  }

  function DigitValue(b: byte): nat
    requires IsDigit(b)
  {
    b as int - 48
  }

  function DigitsValue(t: seq<byte>): nat
    requires forall k :: 0 <= k < |t| ==> IsDigit(t[k])
  {
    if t == [] then 0 else 10 * DigitsValue(t[..|t| - 1]) + DigitValue(t[|t| - 1])
  }

  function Digits(n: nat): (t: seq<byte>)
    ensures |t| > 0 && forall k :: 0 <= k < |t| ==> IsDigit(t[k])
  {
    if n < 10 then [48 + n] else Digits(n / 10) + [48 + n % 10]
  }

  lemma {:induction false} DigitsValueOfDigits(n: nat)
    ensures DigitsValue(Digits(n)) == n
  {
    if n < 10 {
      assert Digits(n)[..0] == [];
    } else {
      DigitsValueOfDigits(n / 10);
      var t := Digits(n);
      assert t[..|t| - 1] == Digits(n / 10);
    }
  }

  lemma DigitRunAll(t: seq<byte>, i: nat)
    requires i <= |t| && forall k :: i <= k < |t| ==> IsDigit(t[k])
    ensures DigitRun(t, i) == |t| - i
  {
  }

  /** A run of digits in a longer text. */
  lemma {:induction false} DigitRunAt(c: seq<byte>, off: nat, t: seq<byte>)
    requires AllDigits(t) && At(c, off, t) && off + |t| < |c| && !IsDigit(c[off + |t|])
    ensures DigitRun(c, off) == |t|
    decreases |t|
  {
    if t != [] {
      assert t == [t[0]] + t[1..];
      AtConcat(c, off, [t[0]], t[1..]);
      AtIndex(c, off, t, 0);
      DigitRunAt(c, off + 1, t[1..]);
    }
  }
}

/** The bytes of a text that stand outside its string literals. */
module JsonOutside {
  import opened Bytes

  /** Behind the quote that closes the literal whose inside is at `i`; the end of the text when none does. */
  function AfterLiteral(t: seq<byte>, i: nat): (r: nat)
    requires i <= |t|
    ensures i <= r <= |t|
    decreases |t| - i
  {
    if i == |t| then i
    else if t[i] == QUOTE then i + 1
    else if t[i] == BACKSLASH && i + 1 < |t| then AfterLiteral(t, i + 2)
    else AfterLiteral(t, i + 1)
  }

  /** Every byte outside literals, from `i` on, is acceptable. */
  predicate Outside(t: seq<byte>, i: nat, ok: byte -> bool)
    requires i <= |t|
    decreases |t| - i
  {
    i == |t|
    || if t[i] == QUOTE then Outside(t, AfterLiteral(t, i + 1), ok) else ok(t[i]) && Outside(t, i + 1, ok)
  }

  /** Characters and escapes, up to the one quote that closes them. */
  predicate ClosesOnce(t: seq<byte>) {
    |t| > 0
    && if t[0] == QUOTE then |t| == 1
       else if t[0] == BACKSLASH then |t| > 1 && ClosesOnce(t[2..])
       else ClosesOnce(t[1..])
  }

  lemma {:induction false} AfterLiteralIs(m: seq<byte>, i: nat, t: seq<byte>)
    requires ClosesOnce(t) && At(m, i, t)
    ensures AfterLiteral(m, i) == i + |t|
    decreases |t|
  {
    hide At;
    AtIndex(m, i, t, 0);
    if t[0] == QUOTE {
    } else if t[0] == BACKSLASH {
      AtIndex(m, i, t, 1);
      assert t == [t[0], t[1]] + t[2..];
      AtConcat(m, i, [t[0], t[1]], t[2..]);
      AfterLiteralIs(m, i + 2, t[2..]);
    } else {
      assert t == [t[0]] + t[1..];
      AtConcat(m, i, [t[0]], t[1..]);
      AfterLiteralIs(m, i + 1, t[1..]);
    }
  }

  /** A whole literal is passed over. */
  lemma OutsideLiteral(m: seq<byte>, i: nat, t: seq<byte>, ok: byte -> bool)
    requires t != [] && t[0] == QUOTE && ClosesOnce(t[1..]) && At(m, i, t)
    ensures i + |t| <= |m|
    ensures Outside(m, i, ok) <==> Outside(m, i + |t|, ok)
  {
    AtIndex(m, i, t, 0);
    assert t == [QUOTE] + t[1..];
    AtConcat(m, i, [QUOTE], t[1..]);
    AfterLiteralIs(m, i + 1, t[1..]);
  }
}

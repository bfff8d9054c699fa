/** Which string literals are accepted: those that are made of well-formed units, and no others. */
module JsonLiteralExact {
  import opened Bytes
  import opened JsonString
  import opened JsonGrammar
  import opened JsonLiteral
  import opened JsonLiteralPlace

  /** The inside of a literal in which the bytes that belong to `\u` escapes, as far as there are any, are digits. What
      other bytes do there is the subject of Hex4Means. */
  predicate Strict(t: seq<byte>) {
    t == []
    || if t[0] != BACKSLASH then t[0] != QUOTE && t[0] != NUL && Strict(t[1..])
       else |t| > 1 && (t[1] == LOWER_U ==> forall k :: 2 <= k < 6 && k < |t| ==> t[k] in HEX) && Strict(t[2..])
  }

  lemma StrictPlain(c: seq<byte>, p: nat, end: nat)
    requires p < end <= |c| && Strict(c[p..end]) && c[p] != BACKSLASH
    ensures c[p] != QUOTE && c[p] != NUL && Strict(c[p + 1..end])
  {
    assert c[p..end][1..] == c[p + 1..end];
  }

  lemma StrictEscape(c: seq<byte>, p: nat, end: nat)
    requires p < end <= |c| && Strict(c[p..end]) && c[p] == BACKSLASH
    ensures p + 1 < end && Strict(c[p + 2..end])
    ensures c[p + 1] == LOWER_U ==> forall k :: p + 2 <= k < p + 6 && k < end ==> c[k] in HEX
  {
    var t := c[p..end];
    assert t[2..] == c[p + 2..end];
    assert forall k :: p <= k < end ==> c[k] == t[k - p];
  }

  lemma StrictHex(c: seq<byte>, p: nat, end: nat)
    requires p + 6 <= end <= |c| && Strict(c[p..end]) && c[p] == BACKSLASH && c[p + 1] == LOWER_U
    ensures FourHex(c[p + 2..p + 6]) && Strict(c[p + 6..end])
  {
    hide Strict;
    StrictEscape(c, p, end);
    StrictPlain(c, p + 2, end);
    StrictPlain(c, p + 3, end);
    StrictPlain(c, p + 4, end);
    StrictPlain(c, p + 5, end);
  }

  lemma {:induction false} StrictScan(c: seq<byte>, p: nat, end: nat)
    requires p <= end < |c| && Strict(c[p..end]) && c[end] == QUOTE
    ensures Scan(c, p) == Some(end)
    decreases end - p
  {
    hide Strict;
    if p < end {
      if c[p] == BACKSLASH {
        StrictEscape(c, p, end);
        StrictScan(c, p + 2, end);
      } else {
        StrictPlain(c, p, end);
        StrictScan(c, p + 1, end);
      }
    }
  }

  /** An escape of hexadecimal digits that one round takes is a well-formed unit. */
  lemma HexUnit(c: seq<byte>, p: nat, end: nat) returns (u: Unit)
    requires p < end < |c| && Strict(c[p..end]) && c[p] == BACKSLASH && c[p + 1] == LOWER_U && Round(c, p, end).0 > 0
    ensures WellFormed(u) && Spell(u) == c[p..p + Round(c, p, end).0]
    ensures p + Round(c, p, end).0 <= end && Strict(c[p + Round(c, p, end).0..end])
  {
    hide Strict, FourHex, HexNumber, Hex4;
    StrictHex(c, p, end);
    Hex4Means(c, p + 2);
    if Round(c, p, end).0 == 6 {
      u := Bmp(c[p + 2..p + 6]);
      assert c[p..p + 6] == [BACKSLASH, LOWER_U] + c[p + 2..p + 6];
    } else {
      StrictHex(c, p + 6, end);
      Hex4Means(c, p + 8);
      u := Pair(c[p + 2..p + 6], c[p + 8..p + 12]);
      assert c[p..p + 12] == [BACKSLASH, LOWER_U] + c[p + 2..p + 6] + [BACKSLASH, LOWER_U] + c[p + 8..p + 12];
    }
  }

  /** What one round takes is a well-formed unit. */
  lemma UnitFound(c: seq<byte>, p: nat, end: nat) returns (u: Unit)
    requires p < end < |c| && Strict(c[p..end]) && Round(c, p, end).0 > 0
    ensures WellFormed(u) && Spell(u) == c[p..p + Round(c, p, end).0]
    ensures p + Round(c, p, end).0 <= end && Strict(c[p + Round(c, p, end).0..end])
  {
    hide Strict, Utf16Escape;
    if c[p] != BACKSLASH {
      StrictPlain(c, p, end);
      u := Plain(c[p]);
    } else {
      StrictEscape(c, p, end);
      if c[p + 1] == LOWER_U {
        u := HexUnit(c, p, end);
      } else {
        ShortMeans(c[p + 1]);
        u := Short(c[p + 1]);
        assert c[p..p + 2] == [BACKSLASH, c[p + 1]];
      }
    }
  }

  lemma {:induction false} UnitsFound(c: seq<byte>, p: nat, end: nat) returns (units: seq<Unit>)
    requires p <= end < |c| && Strict(c[p..end]) && Unescape(c, p, end).ok
    ensures AllWellFormed(units) && SpellAll(units) == c[p..end]
    decreases end - p
  {
    hide Strict, Round, WellFormed, Spell;
    units := [];
    if p < end {
      var u := UnitFound(c, p, end);
      var next := p + Round(c, p, end).0;
      var rest := UnitsFound(c, next, end);
      units := [u] + rest;
      assert units[1..] == rest;
      assert c[p..end] == c[p..next] + c[next..end];
    }
  }

  /** The literals that are accepted: with digits where `\u` escapes need them, a literal is accepted exactly when its
      inside is a sequence of well-formed units, and its value is what they denote, up to a NUL they may spell. */
  lemma LiteralsExactly(inner: seq<byte>)
    requires Strict(inner)
    ensures IsLiteral([QUOTE] + inner + [QUOTE]) <==> exists units :: AllWellFormed(units) && SpellAll(units) == inner
    ensures forall units :: AllWellFormed(units) && SpellAll(units) == inner ==>
              IsLiteral([QUOTE] + inner + [QUOTE]) && LiteralValue([QUOTE] + inner + [QUOTE]) == CStr(DenoteAll(units))
  {
    hide Strict, AllWellFormed, DenoteAll, CStr, Scan, Unescape, At, SpellAll;
    var t := [QUOTE] + inner + [QUOTE];
    var c := t + [NUL];
    PlacedFirst(t);
    assert At(c, 0, t) by { StandsFirst(t); }
    var end := 1 + |inner|;
    assert c[1..end] == inner;
    StrictScan(c, 1, end);
    if IsLiteral(t) {
      var units := UnitsFound(c, 1, end);
      assert SpellAll(units) == inner;
    }
    forall units | AllWellFormed(units) && SpellAll(units) == inner
      ensures IsLiteral(t) && LiteralValue(t) == CStr(DenoteAll(units))
    {
      LiteralMeaning(c, 0, 0, units);
    }
  }

  lemma StandsFirst(t: seq<byte>)
    ensures At(t + [NUL], 0, t)
  {
    assert (t + [NUL])[..|t|] == t;
  }
}

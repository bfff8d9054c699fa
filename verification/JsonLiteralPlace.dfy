/** A string literal is read the same wherever it stands. */
module JsonLiteralPlace {
  import opened Bytes
  import opened JsonString
  import opened JsonGrammar

  /** Quotes included, `t` is accepted by parse_string to its end; its meaning is the subject of JsonLiteral. */
  predicate IsLiteral(t: seq<byte>) {
    ParseString(t + [NUL], 0, 0).Done? && ParseString(t + [NUL], 0, 0).next == |t|
  }

  function LiteralValue(t: seq<byte>): seq<byte>
    requires IsLiteral(t)
  {
    ParseString(t + [NUL], 0, 0).value
  }

  /** The bytes of `t` stand in `c` at `off`. */
  predicate Placed(c: seq<byte>, off: nat, t: seq<byte>) {
    off + |t| <= |c| && forall k :: 0 <= k < |t| ==> c[off + k] == t[k]
  }

  lemma {:induction false} ScanMoves(c: seq<byte>, off: nat, t: seq<byte>, i: nat, e: nat)
    requires Placed(c, off, t) && i <= |t| && e < |t|
    ensures Scan(c, off + i) == Some(off + e) <==> Scan(t, i) == Some(e)
    decreases |t| - i
  {
    if i < |t| && t[i] != QUOTE {
      if t[i] != BACKSLASH {
        ScanMoves(c, off, t, i + 1, e);
      } else if i + 2 <= |t| {
        ScanMoves(c, off, t, i + 2, e);
      }
    }
  }

  lemma Hex4Moves(c: seq<byte>, off: nat, t: seq<byte>, p: nat)
    requires Placed(c, off, t) && p + 4 <= |t|
    ensures Hex4(c, off + p) == Hex4(t, p)
  {
    hide IsHex, HexValue;
    assert c[off + p] == t[p] && c[off + (p + 1)] == t[p + 1] && c[off + (p + 2)] == t[p + 2] && c[off + (p + 3)] == t[p + 3];
  }

  lemma RoundMoves(c: seq<byte>, off: nat, t: seq<byte>, p: nat, e: nat)
    requires Placed(c, off, t) && p < e < |t|
    ensures Round(c, off + p, off + e) == Round(t, p, e)
  {
    hide Hex4, Utf8, ShortEscape, PairCode;
    assert c[off + p] == t[p] && c[off + (p + 1)] == t[p + 1];
    if p + 6 <= e {
      Hex4Moves(c, off, t, p + 2);
    }
    if p + 12 <= e {
      Hex4Moves(c, off, t, p + 8);
      assert c[off + (p + 6)] == t[p + 6] && c[off + (p + 7)] == t[p + 7];
    }
  }

  lemma {:induction false} UnescapeMoves(c: seq<byte>, off: nat, t: seq<byte>, p: nat, e: nat)
    requires Placed(c, off, t) && p <= e + 1 && e < |t|
    ensures Unescape(c, off + p, off + e).ok == Unescape(t, p, e).ok
    ensures Unescape(c, off + p, off + e).out == Unescape(t, p, e).out
    decreases e + 1 - p
  {
    hide Round, Placed;
    if p < e {
      RoundMoves(c, off, t, p, e);
      var used := Round(t, p, e).0;
      if used > 0 {
        UnescapeMoves(c, off, t, p + used, e);
      }
    }
  }

  lemma StringMoves(c: seq<byte>, off: nat, depth: nat, t: seq<byte>, s: seq<byte>)
    requires NulEnded(c) && Placed(c, off, t) && |t| > 0 && off < |c|
    ensures ParseString(c, off, depth) == Done(s, off + |t|) <==>
              |t| > 1 && t[0] == QUOTE && Scan(t, 1) == Some(|t| - 1)
              && Unescape(t, 1, |t| - 1).ok && CStr(Unescape(t, 1, |t| - 1).out) == s
  {
    hide Scan, Unescape, CStr;
    assert c[off + 0] == t[0];
    if |t| > 1 {
      ScanMoves(c, off, t, 1, |t| - 1);
      UnescapeMoves(c, off, t, 1, |t| - 1);
    }
  }

  lemma PlacedFirst(t: seq<byte>)
    ensures Placed(t + [NUL], 0, t) && NulEnded(t + [NUL])
  {
  }

  /** parse_string takes `t` at any place exactly when `t` is a literal, and gives its value. */
  lemma LiteralAnywhere(c: seq<byte>, off: nat, depth: nat, t: seq<byte>)
    requires NulEnded(c) && At(c, off, t) && |t| > 0
    ensures off < |c|
    ensures ParseString(c, off, depth).Done? && ParseString(c, off, depth).next == off + |t| <==> IsLiteral(t)
    ensures IsLiteral(t) ==> ParseString(c, off, depth) == Done(LiteralValue(t), off + |t|)
  {
    hide ParseString, Scan, Unescape, CStr, At;
    AtAll(c, off, t);
    assert Placed(c, off, t) by {
      forall k | 0 <= k < |t| ensures c[off + k] == t[k] { AtIndex(c, off, t, k); }
    }
    PlacedFirst(t);
    if ParseString(c, off, depth).Done? {
      StringMoves(c, off, depth, t, ParseString(c, off, depth).value);
      StringMoves(t + [NUL], 0, 0, t, ParseString(c, off, depth).value);
    }
    if ParseString(t + [NUL], 0, 0).Done? {
      StringMoves(c, off, depth, t, ParseString(t + [NUL], 0, 0).value);
      StringMoves(t + [NUL], 0, 0, t, ParseString(t + [NUL], 0, 0).value);
    }
  }
}

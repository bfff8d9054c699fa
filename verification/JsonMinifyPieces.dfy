/** What minifying removes, told apart from how it is done: a text is a sequence of pieces, of which the blanks and the
    comments go and the string literals and all other bytes stay. */
module JsonMinifyPieces {
  import opened Bytes
  import opened JsonGrammar
  import opened JsonMinify
  import opened JsonOutside

  datatype Piece =
    | Blank(b: byte)
    | LineComment(text: seq<byte>)
    | BlockComment(text: seq<byte>)
    | Literal(text: seq<byte>)
    | Other(b: byte)

  predicate FourBlanks(b: byte) {
    b == 32 || b == 9 || b == 13 || b == 10
  }

  function TextOf(p: Piece): seq<byte> {
    match p
    case Blank(b) => [b]
    case Other(b) => [b]
    case LineComment(t) => t
    case BlockComment(t) => t
    case Literal(t) => t
  }

  function KeptOf(p: Piece): seq<byte> {
    if p.Literal? || p.Other? then TextOf(p) else []
  }

  function Text(ps: seq<Piece>): seq<byte> {
    if ps == [] then [] else TextOf(ps[0]) + Text(ps[1..])
  }

  function Kept(ps: seq<Piece>): seq<byte> {
    if ps == [] then [] else KeptOf(ps[0]) + Kept(ps[1..])
  }

  /** The first byte of what follows, the terminator when nothing does. */
  function NextByte(t: seq<byte>): byte {
    if t == [] then NUL else t[0]
  }

  /** A piece and the byte behind it: a line comment runs up to the first line feed, not with it; a block comment runs
      through the first end mark behind its slash; a slash alone opens no comment. */
  predicate Good(p: Piece, next: byte) {
    match p
    case Blank(b) => FourBlanks(b)
    case LineComment(t) =>
      |t| >= 2 && t[0] == t[1] == SLASH && LF !in t && (next == LF || next == NUL)
    case BlockComment(t) =>
      && |t| >= 3 && t[0] == SLASH && t[1] == STAR && t[|t| - 2] == STAR && t[|t| - 1] == SLASH
      && forall k :: 1 <= k < |t| - 2 ==> !(t[k] == STAR && t[k + 1] == SLASH)
    case Literal(t) => |t| > 0 && t[0] == QUOTE && ClosesOnce(t[1..])
    case Other(b) =>
      !FourBlanks(b) && b != QUOTE && (b == SLASH ==> next != SLASH && next != STAR)
  }

  predicate AllGood(ps: seq<Piece>) {
    ps == [] || (Good(ps[0], NextByte(Text(ps[1..]))) && AllGood(ps[1..]))
  }

  // ---- where comments end ----

  lemma {:induction false} LineEndIs(c: seq<byte>, i: nat, n: nat)
    requires NulEnded(c) && i + n < |c| && (c[i + n] == LF || c[i + n] == NUL)
    requires forall k :: i <= k < i + n ==> c[k] != LF && c[k] != NUL
    ensures LineEnd(c, i) == i + n
    decreases n
  {
    if n > 0 {
      LineEndIs(c, i + 1, n - 1);
    }
  }

  lemma {:induction false} BlockEndIs(c: seq<byte>, i: nat, n: nat)
    requires NulEnded(c) && i + n + 2 < |c| && c[i + n] == STAR && c[i + n + 1] == SLASH
    requires forall k :: i <= k < i + n ==> c[k] != NUL && !(c[k] == STAR && c[k + 1] == SLASH)
    ensures BlockEnd(c, i) == i + n + 2 && BlockClosed(c, i)
    decreases n
  {
    if n > 0 {
      BlockEndIs(c, i + 1, n - 1);
    }
  }

  // ---- a text made of pieces ----

  /** The rest of the text, up to its terminator. */
  predicate Ends(c: seq<byte>, i: nat, t: seq<byte>) {
    Terminated(c) && At(c, i, t) && i + |t| + 1 == |c|
  }

  lemma EndsByte(c: seq<byte>, i: nat, t: seq<byte>)
    requires Ends(c, i, t)
    ensures NulEnded(c) && i < |c| && c[i] == if t == [] then NUL else t[0]
    ensures t != [] ==> c[i] != NUL && i + 1 < |c| && Ends(c, i + 1, t[1..])
  {
    if t != [] {
      AtIndex(c, i, t, 0);
      assert t == [t[0]] + t[1..];
      AtConcat(c, i, [t[0]], t[1..]);
    }
  }

  lemma EndsSplit(c: seq<byte>, i: nat, a: seq<byte>, b: seq<byte>)
    requires Ends(c, i, a + b)
    ensures NulEnded(c) && At(c, i, a) && NUL !in a && i + |a| < |c| && Ends(c, i + |a|, b)
    ensures forall k :: i <= k < i + |a| ==> k < |c| && c[k] == a[k - i] && c[k] != NUL
  {
    AtConcat(c, i, a, b);
    AtAll(c, i, a);
    forall k | 0 <= k < |a|
      ensures a[k] != NUL
    {
      assert c[i + k] != NUL;
    }
  }

  lemma StringByte(c: seq<byte>, i: nat)
    requires NulEnded(c) && i + 1 < |c| && c[i] != NUL && c[i] != QUOTE && c[i] != BACKSLASH
    ensures MinString(c, i) == [c[i]] + MinString(c, i + 1)
    ensures ClosedString(c, i) == ClosedString(c, i + 1)
  {
  }

  lemma StringEscape(c: seq<byte>, i: nat)
    requires NulEnded(c) && i + 2 < |c| && c[i] == BACKSLASH && c[i + 1] != NUL
    ensures MinString(c, i) == [c[i], c[i + 1]] + MinString(c, i + 2)
    ensures ClosedString(c, i) == ClosedString(c, i + 2)
  {
  }

  lemma StringQuote(c: seq<byte>, i: nat)
    requires NulEnded(c) && i + 1 < |c| && c[i] == QUOTE
    ensures MinString(c, i) == [QUOTE] + Min(c, i + 1)
    ensures ClosedString(c, i) == Closed(c, i + 1)
  {
  }

  /** Inside a literal, up to the quote that closes it. */
  lemma {:induction false} LiteralMin(c: seq<byte>, i: nat, t: seq<byte>)
    requires NulEnded(c) && ClosesOnce(t) && At(c, i, t) && i + |t| < |c| && NUL !in t
    ensures MinString(c, i) == t + Min(c, i + |t|)
    ensures ClosedString(c, i) <==> Closed(c, i + |t|)
    decreases |t|
  {
    hide Min, Closed, MinString, ClosedString, At, NulEnded;
    AtIndex(c, i, t, 0);
    if t[0] == QUOTE {
      StringQuote(c, i);
      assert t == [QUOTE];
    } else if t[0] == BACKSLASH {
      AtIndex(c, i, t, 1);
      assert t == [t[0], t[1]] + t[2..];
      AtConcat(c, i, [t[0], t[1]], t[2..]);
      LiteralMin(c, i + 2, t[2..]);
      StringEscape(c, i);
    } else {
      assert t == [t[0]] + t[1..];
      AtConcat(c, i, [t[0]], t[1..]);
      LiteralMin(c, i + 1, t[1..]);
      StringByte(c, i);
    }
  }

  /** A step outside literals: what is skipped and what is kept. */
  lemma BlankByte(c: seq<byte>, i: nat)
    requires NulEnded(c) && i + 1 < |c| && FourBlanks(c[i])
    ensures Min(c, i) == Min(c, i + 1) && Closed(c, i) == Closed(c, i + 1)
  {
  }

  lemma OtherByte(c: seq<byte>, i: nat)
    requires NulEnded(c) && i + 1 < |c| && c[i] != NUL && !FourBlanks(c[i]) && c[i] != QUOTE
    requires c[i] == SLASH ==> c[i + 1] != SLASH && c[i + 1] != STAR
    ensures Min(c, i) == [c[i]] + Min(c, i + 1) && Closed(c, i) == Closed(c, i + 1)
  {
  }

  lemma LineStep(c: seq<byte>, i: nat)
    requires NulEnded(c) && i + 1 < |c| && c[i] == c[i + 1] == SLASH
    ensures Min(c, i) == Min(c, LineEnd(c, i)) && Closed(c, i) == Closed(c, LineEnd(c, i))
  {
  }

  lemma BlockStep(c: seq<byte>, i: nat)
    requires NulEnded(c) && i + 1 < |c| && c[i] == SLASH && c[i + 1] == STAR
    ensures Min(c, i) == Min(c, BlockEnd(c, i))
    ensures Closed(c, i) == (BlockClosed(c, i) && Closed(c, BlockEnd(c, i)))
  {
  }

  lemma QuoteStep(c: seq<byte>, i: nat)
    requires NulEnded(c) && i + 1 < |c| && c[i] == QUOTE
    ensures Min(c, i) == [QUOTE] + MinString(c, i + 1) && Closed(c, i) == ClosedString(c, i + 1)
  {
  }

  lemma WholeLiteral(c: seq<byte>, i: nat, t: seq<byte>)
    requires NulEnded(c) && t != [] && t[0] == QUOTE && ClosesOnce(t[1..])
    requires At(c, i, t) && i + |t| < |c| && NUL !in t
    ensures Min(c, i) == t + Min(c, i + |t|)
    ensures Closed(c, i) <==> Closed(c, i + |t|)
  {
    hide Min, Closed, MinString, ClosedString, ClosesOnce, NulEnded, At;
    AtIndex(c, i, t, 0);
    assert t == [QUOTE] + t[1..];
    AtConcat(c, i, [QUOTE], t[1..]);
    QuoteStep(c, i);
    LiteralMin(c, i + 1, t[1..]);
  }

  lemma PieceMin(c: seq<byte>, i: nat, p: Piece, rest: seq<byte>)
    requires Good(p, NextByte(rest)) && Ends(c, i, TextOf(p) + rest)
    ensures NulEnded(c) && i + |TextOf(p)| < |c| && Ends(c, i + |TextOf(p)|, rest)
    ensures Min(c, i) == KeptOf(p) + Min(c, i + |TextOf(p)|)
    ensures Closed(c, i) <==> Closed(c, i + |TextOf(p)|)
  {
    hide Min, Closed, MinString, ClosedString, LineEnd, BlockEnd, BlockClosed, Ends, NulEnded, ClosesOnce, At;
    var t := TextOf(p);
    EndsSplit(c, i, t, rest);
    EndsByte(c, i + |t|, rest);
    match p {
      case Blank(b) =>
        BlankByte(c, i);
      case LineComment(_) =>
        LineStep(c, i);
        assert forall k :: i <= k < i + |t| ==> c[k] == t[k - i] && t[k - i] in t;
        LineEndIs(c, i, |t|);
      case BlockComment(_) =>
        BlockStep(c, i);
        BlockEndIs(c, i, |t| - 2);
      case Literal(_) =>
        WholeLiteral(c, i, t);
      case Other(b) =>
        OtherByte(c, i);
    }
  }

  lemma {:induction false} PiecesMin(c: seq<byte>, i: nat, ps: seq<Piece>)
    requires AllGood(ps) && Ends(c, i, Text(ps))
    ensures NulEnded(c) && i < |c| && Min(c, i) == Kept(ps) + [NUL] && Closed(c, i)
    decreases |ps|
  {
    hide Good, Ends, Min, Closed, TextOf, KeptOf;
    EndsByte(c, i, Text(ps));
    if ps == [] {
      NothingLeft(c, i);
    } else {
      PieceMin(c, i, ps[0], Text(ps[1..]));
      PiecesMin(c, i + |TextOf(ps[0])|, ps[1..]);
      assert Kept(ps) + [NUL] == KeptOf(ps[0]) + (Kept(ps[1..]) + [NUL]);
    }
  }

  lemma NothingLeft(c: seq<byte>, i: nat)
    requires NulEnded(c) && i < |c| && c[i] == NUL
    ensures Min(c, i) == [NUL] && Closed(c, i)
  {
  }

  /** However a text is made of pieces, its minified form is the pieces that stay: exactly the blanks and the comments
      are gone. */
  lemma MinifyRemovesExactly(ps: seq<Piece>)
    requires AllGood(ps) && Terminated(Text(ps) + [NUL])
    ensures Closed(Text(ps) + [NUL], 0)
    ensures Min(Text(ps) + [NUL], 0) == Kept(ps) + [NUL]
  {
    var c := Text(ps) + [NUL];
    assert c[..|Text(ps)|] == Text(ps);
    PiecesMin(c, 0, ps);
  }

  // ---- the pieces of a text ----

  lemma {:induction false} LineEndGives(c: seq<byte>, i: nat)
    requires NulEnded(c) && i < |c|
    ensures c[LineEnd(c, i)] == LF || c[LineEnd(c, i)] == NUL
    ensures forall k :: i <= k < LineEnd(c, i) ==> c[k] != LF && c[k] != NUL
    decreases |c| - i
  {
    if c[i] != NUL && c[i] != LF {
      LineEndGives(c, i + 1);
    }
  }

  lemma {:induction false} BlockEndGives(c: seq<byte>, i: nat)
    requires NulEnded(c) && i < |c| && BlockClosed(c, i)
    ensures i + 2 <= BlockEnd(c, i) && c[BlockEnd(c, i) - 2] == STAR && c[BlockEnd(c, i) - 1] == SLASH
    ensures forall k :: i <= k < BlockEnd(c, i) - 2 ==> !(c[k] == STAR && c[k + 1] == SLASH)
    decreases |c| - i
  {
    if !(c[i] == STAR && c[i + 1] == SLASH) {
      BlockEndGives(c, i + 1);
    }
  }

  lemma {:induction false} StringCloses(c: seq<byte>, i: nat) returns (e: nat)
    requires NulEnded(c) && i < |c| && ClosedString(c, i)
    ensures i < e < |c| && ClosesOnce(c[i..e]) && Closed(c, e)
    decreases |c| - i
  {
    hide Closed;
    if c[i] == QUOTE {
      e := i + 1;
      assert c[i..e] == [QUOTE];
    } else if c[i] == BACKSLASH {
      e := StringCloses(c, i + 2);
      assert c[i..e][2..] == c[i + 2..e];
    } else {
      e := StringCloses(c, i + 1);
      assert c[i..e][1..] == c[i + 1..e];
    }
  }

  lemma EndsJoin(c: seq<byte>, i: nat, e: nat, rest: seq<byte>)
    requires i <= e < |c| && Ends(c, e, rest)
    ensures Ends(c, i, c[i..e] + rest)
  {
    AtConcat(c, i, c[i..e], rest);
  }

  /** The first piece of a closed text. */
  lemma FirstPiece(c: seq<byte>, i: nat) returns (e: nat, p: Piece)
    requires Terminated(c) && i < |c| && Closed(c, i) && c[i] != NUL
    ensures i < e < |c| && TextOf(p) == c[i..e] && Good(p, c[e]) && Closed(c, e)
  {
    hide ClosedString, ClosesOnce, LineEnd, BlockEnd, BlockClosed;
    if FourBlanks(c[i]) {
      e, p := i + 1, Blank(c[i]);
    } else if c[i] == SLASH && c[i + 1] == SLASH {
      LineEndGives(c, i);
      LongEnough(c, i);
      e := LineEnd(c, i);
      p := LineComment(c[i..e]);
    } else if c[i] == SLASH && c[i + 1] == STAR {
      BlockEndGives(c, i);
      e := BlockEnd(c, i);
      p := BlockComment(c[i..e]);
    } else if c[i] == QUOTE {
      e := StringCloses(c, i + 1);
      p := Literal(c[i..e]);
      assert c[i..e][1..] == c[i + 1..e];
    } else {
      e, p := i + 1, Other(c[i]);
    }
  }

  lemma LongEnough(c: seq<byte>, i: nat)
    requires NulEnded(c) && i + 1 < |c| && c[i] == c[i + 1] == SLASH
    ensures LineEnd(c, i) >= i + 2
  {
  }

  lemma {:induction false} PiecesFrom(c: seq<byte>, i: nat) returns (ps: seq<Piece>)
    requires Terminated(c) && i < |c| && Closed(c, i)
    ensures AllGood(ps) && Ends(c, i, Text(ps))
    decreases |c| - i
  {
    hide Closed, Good;
    if c[i] == NUL {
      ps := [];
    } else {
      var e, p := FirstPiece(c, i);
      ps := PiecesFrom(c, e);
      EndsByte(c, e, Text(ps));
      EndsJoin(c, i, e, Text(ps));
      assert ([p] + ps)[1..] == ps;
      ps := [p] + ps;
    }
  }

  /** The closed texts are exactly those that are made of pieces. */
  lemma ClosedIffPieces(c: seq<byte>)
    requires Terminated(c)
    ensures Closed(c, 0) <==> exists ps :: AllGood(ps) && c == Text(ps) + [NUL]
  {
    if Closed(c, 0) {
      var ps := PiecesFrom(c, 0);
      assert c == c[0..|Text(ps)|] + [NUL];
    }
    forall ps | AllGood(ps) && c == Text(ps) + [NUL]
      ensures Closed(c, 0)
    {
      MinifyRemovesExactly(ps);
    }
  }

  // ---- what stays ----

  predicate NotBlank(b: byte) {
    !FourBlanks(b)
  }

  lemma {:induction false} KeptOutside(m: seq<byte>, j: nat, ps: seq<Piece>)
    requires AllGood(ps) && At(m, j, Kept(ps)) && j + |Kept(ps)| == |m|
    ensures Outside(m, j, NotBlank)
    decreases |ps|
  {
    hide At, ClosesOnce;
    if ps != [] {
      var t := KeptOf(ps[0]);
      AtConcat(m, j, t, Kept(ps[1..]));
      KeptOutside(m, j + |t|, ps[1..]);
      if ps[0].Literal? {
        OutsideLiteral(m, j, t, NotBlank);
      } else if ps[0].Other? {
        AtIndex(m, j, t, 0);
      }
    }
  }

  /** The minified text has none of the four blanks outside its string literals. */
  lemma NoBlankStays(c: seq<byte>)
    requires Terminated(c) && Closed(c, 0)
    ensures var m := Min(c, 0); m[|m| - 1] == NUL && Outside(m[..|m| - 1], 0, NotBlank)
  {
    hide Closed, Min;
    ClosedIffPieces(c);
    var ps :| AllGood(ps) && c == Text(ps) + [NUL];
    MinifyRemovesExactly(ps);
    var m := Min(c, 0);
    assert m[..|m| - 1] == Kept(ps);
    assert Kept(ps)[..|Kept(ps)|] == Kept(ps);
    KeptOutside(m[..|m| - 1], 0, ps);
  }
}

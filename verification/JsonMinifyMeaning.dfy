/** What minifying keeps: the tree of a text that the parser accepts in full; and when doing it again changes nothing. */
module JsonMinifyMeaning {
  import opened Bytes
  import opened DecimalDigits
  import opened JsonTree
  import opened JsonNumber
  import opened JsonString
  import opened JsonGrammar
  import opened JsonMinify

  /** From `j` on, `m` is the minified form of `c` from `i` on. */
  ghost predicate Rest(m: seq<byte>, j: nat, c: seq<byte>, i: nat) {
    NulEnded(c) && i < |c| && j <= |m| && m[j..] == Min(c, i)
  }

  /** Outside literals there is no slash, and every literal is closed. */
  predicate Clean(c: seq<byte>, i: nat)
    requires NulEnded(c) && i < |c|
    decreases |c| - i
  {
    if c[i] == NUL then true
    else if c[i] == SLASH then false
    else if c[i] == QUOTE then CleanString(c, i + 1)
    else Clean(c, i + 1)
  }

  predicate CleanString(c: seq<byte>, i: nat)
    requires NulEnded(c) && i < |c|
    decreases |c| - i
  {
    if c[i] == NUL then false
    else if c[i] == QUOTE then Clean(c, i + 1)
    else if c[i] == BACKSLASH then c[i + 1] != NUL && CleanString(c, i + 2)
    else CleanString(c, i + 1)
  }

  // ---- minifying again ----

  /** The next byte that minifying keeps, behind white space and comments. */
  function NextKept(c: seq<byte>, i: nat): byte
    requires NulEnded(c) && i < |c|
    decreases |c| - i
  {
    if c[i] == NUL then NUL
    else if IsBlank(c[i]) then NextKept(c, i + 1)
    else if c[i] == SLASH && c[i + 1] == SLASH then NextKept(c, LineEnd(c, i))
    else if c[i] == SLASH && c[i + 1] == STAR then NextKept(c, BlockEnd(c, i))
    else c[i]
  }

  /** Outside literals and comments, no lone slash has a slash or a star as its next kept byte. */
  predicate NoJoin(c: seq<byte>, i: nat)
    requires NulEnded(c) && i < |c|
    decreases |c| - i
  {
    if c[i] == NUL then true
    else if IsBlank(c[i]) then NoJoin(c, i + 1)
    else if c[i] == SLASH && c[i + 1] == SLASH then NoJoin(c, LineEnd(c, i))
    else if c[i] == SLASH && c[i + 1] == STAR then NoJoin(c, BlockEnd(c, i))
    else if c[i] == QUOTE then NoJoinString(c, i + 1)
    else (c[i] == SLASH ==> NextKept(c, i + 1) != SLASH && NextKept(c, i + 1) != STAR) && NoJoin(c, i + 1)
  }

  predicate NoJoinString(c: seq<byte>, i: nat)
    requires NulEnded(c) && i < |c|
    decreases |c| - i
  {
    if c[i] == NUL then true
    else if c[i] == QUOTE then NoJoin(c, i + 1)
    else if c[i] == BACKSLASH && c[i + 1] != NUL then NoJoinString(c, i + 2)
    else NoJoinString(c, i + 1)
  }

  lemma {:induction false} FirstKept(c: seq<byte>, i: nat)
    requires NulEnded(c) && i < |c|
    ensures Min(c, i)[0] == NextKept(c, i)
    decreases |c| - i
  {
    if c[i] == NUL {
    } else if IsBlank(c[i]) {
      FirstKept(c, i + 1);
    } else if c[i] == SLASH && c[i + 1] == SLASH {
      FirstKept(c, LineEnd(c, i));
    } else if c[i] == SLASH && c[i + 1] == STAR {
      FirstKept(c, BlockEnd(c, i));
    }
  }

  /** The rest of a minified text is left alone, or shrinks. */
  ghost predicate Twice(m: seq<byte>, j: nat, again: seq<byte>, same: bool)
    requires j <= |m|
  {
    if same then again == m[j..] else |again| < |m| - j
  }

  lemma {:induction false} MinifiedAgain(m: seq<byte>, j: nat, c: seq<byte>, i: nat)
    requires Rest(m, j, c, i)
    ensures j < |m| && NulEnded(m) && Twice(m, j, Min(m, j), NoJoin(c, i))
    decreases |c| - i
  {
    hide MinString, NoJoinString, BlockEnd, LineEnd;
    MinEnds(c, i);
    assert m[|m| - 1] == m[j..][|m| - 1 - j];
    assert m[j] == m[j..][0];
    assert m[j..] == [m[j]] + m[j + 1..];
    if c[i] == NUL {
    } else if IsBlank(c[i]) {
      MinifiedAgain(m, j, c, i + 1);
    } else if c[i] == SLASH && c[i + 1] == SLASH {
      MinifiedAgain(m, j, c, LineEnd(c, i));
    } else if c[i] == SLASH && c[i + 1] == STAR {
      MinifiedAgain(m, j, c, BlockEnd(c, i));
    } else {
      assert m[j + 1..] == m[j..][1..];
      if c[i] == QUOTE {
        StringMinifiedAgain(m, j + 1, c, i + 1);
      } else {
        FirstKept(c, i + 1);
        assert m[j + 1] == m[j + 1..][0];
        MinifiedAgain(m, j + 1, c, i + 1);
      }
    }
  }

  lemma {:induction false} StringMinifiedAgain(m: seq<byte>, j: nat, c: seq<byte>, i: nat)
    requires NulEnded(c) && i < |c| && j < |m| && NulEnded(m) && m[j..] == MinString(c, i)
    ensures Twice(m, j, MinString(m, j), NoJoinString(c, i))
    decreases |c| - i
  {
    hide Min, NoJoin;
    assert m[j] == m[j..][0] == c[i];
    assert m[j..] == [m[j]] + m[j + 1..];
    assert m[j + 1..] == m[j..][1..];
    if c[i] == NUL {
    } else if c[i] == QUOTE {
      MinifiedAgain(m, j + 1, c, i + 1);
    } else if c[i] == BACKSLASH && c[i + 1] != NUL {
      assert m[j + 1] == m[j..][1] == c[i + 1];
      assert m[j + 2..] == m[j..][2..];
      assert m[j..] == [m[j], m[j + 1]] + m[j + 2..];
      StringMinifiedAgain(m, j + 2, c, i + 2);
    } else {
      assert c[i] == BACKSLASH ==> m[j + 1] == m[j..][1] == NUL;
      StringMinifiedAgain(m, j + 1, c, i + 1);
    }
  }

  /** Minifying again changes nothing exactly when the first time brought no lone slash and a slash or star together. */
  lemma MinifyingTwice(c: seq<byte>)
    requires NulEnded(c)
    ensures NulEnded(Min(c, 0))
    ensures Min(Min(c, 0), 0) == Min(c, 0) <==> NoJoin(c, 0)
  {
    hide Min, NoJoin;
    var m := Min(c, 0);
    assert m[0..] == m;
    MinifiedAgain(m, 0, c, 0);
  }

  // ---- bytes, white space ----

  lemma {:induction false} MinEnds(c: seq<byte>, i: nat)
    requires NulEnded(c) && i < |c|
    ensures NulEnded(Min(c, i))
    decreases |c| - i
  {
    if c[i] == NUL {
    } else if IsBlank(c[i]) {
      MinEnds(c, i + 1);
    } else if c[i] == SLASH && c[i + 1] == SLASH {
      MinEnds(c, LineEnd(c, i));
    } else if c[i] == SLASH && c[i + 1] == STAR {
      MinEnds(c, BlockEnd(c, i));
    } else if c[i] == QUOTE {
      MinStringEnds(c, i + 1);
    } else {
      MinEnds(c, i + 1);
    }
  }

  lemma {:induction false} MinStringEnds(c: seq<byte>, i: nat)
    requires NulEnded(c) && i < |c|
    ensures NulEnded(MinString(c, i))
    decreases |c| - i
  {
    hide Min;
    if c[i] == NUL {
    } else if c[i] == QUOTE {
      MinEnds(c, i + 1);
    } else if c[i] == BACKSLASH && c[i + 1] != NUL {
      MinStringEnds(c, i + 2);
    } else {
      MinStringEnds(c, i + 1);
    }
  }

  lemma RestEnds(m: seq<byte>, j: nat, c: seq<byte>, i: nat)
    requires Rest(m, j, c, i)
    ensures j < |m| && NulEnded(m)
    ensures c[i] == NUL ==> m[j] == NUL && j == |m| - 1
    ensures c[i] == QUOTE || IsPlain(c[i]) ==> m[j] == c[i]
  {
    MinEnds(c, i);
    assert m[|m| - 1] == m[j..][|m| - 1 - j];
    assert m[j] == m[j..][0];
  }

  lemma PlainByte(m: seq<byte>, j: nat, c: seq<byte>, i: nat)
    requires Rest(m, j, c, i) && IsPlain(c[i])
    ensures j < |m| && m[j] == c[i] && Rest(m, j + 1, c, i + 1)
    ensures Clean(c, i) == Clean(c, i + 1)
  {
    RestEnds(m, j, c, i);
    assert m[j + 1..] == m[j..][1..];
  }

  lemma {:induction false} PlainRun(m: seq<byte>, j: nat, c: seq<byte>, i: nat, n: nat)
    requires Rest(m, j, c, i) && i + n < |c| && forall k :: i <= k < i + n ==> IsPlain(c[k])
    ensures Rest(m, j + n, c, i + n) && m[j..j + n] == c[i..i + n]
    ensures Clean(c, i) == Clean(c, i + n)
    decreases n
  {
    if n > 0 {
      PlainByte(m, j, c, i);
      PlainRun(m, j + 1, c, i + 1, n - 1);
      assert m[j..j + n] == [m[j]] + m[j + 1..j + n];
      assert c[i..i + n] == [c[i]] + c[i + 1..i + n];
    }
  }

  /** White space before anything but a comment: both cursors land on the same byte. */
  lemma {:induction false} SkipRest(m: seq<byte>, j: nat, c: seq<byte>, i: nat)
    requires Terminated(c) && Rest(m, j, c, i) && c[Skip(c, i)] != SLASH
    ensures j < |m| && Rest(m, Skip(m, j), c, Skip(c, i)) && m[Skip(m, j)] == c[Skip(c, i)]
    ensures Clean(c, i) == Clean(c, Skip(c, i))
    decreases |c| - i
  {
    RestEnds(m, j, c, i);
    if c[i] > SPACE || c[i] == NUL {
    } else if IsBlank(c[i]) {
      SkipRest(m, j, c, i + 1);
    } else {
      PlainByte(m, j, c, i);
      RestEnds(m, j + 1, c, i + 1);
      SkipRest(m, j + 1, c, i + 1);
    }
  }

  // ---- string literals ----

  /** `m` from `j` on holds the bytes of `c` from `i` to `last`. */
  ghost predicate Same(m: seq<byte>, j: nat, c: seq<byte>, i: nat, last: nat) {
    && i <= last < |c| && j + (last - i) < |m|
    && forall k :: i <= k <= last ==> m[j + (k - i)] == c[k]
  }

  lemma SameTail(m: seq<byte>, j: nat, c: seq<byte>, i: nat, last: nat, n: nat)
    requires Same(m, j, c, i, last) && i + n <= last
    ensures m[j] == c[i] && Same(m, j + n, c, i + n, last)
  {
    forall k | i + n <= k <= last
      ensures m[j + n + (k - (i + n))] == c[k]
    {
      assert m[j + (k - i)] == c[k];
    }
  }

  lemma {:induction false} StringRest(m: seq<byte>, j: nat, c: seq<byte>, i: nat)
    requires Terminated(c) && i < |c| && j <= |m| && m[j..] == MinString(c, i) && Scan(c, i).Some?
    ensures
      var end := Scan(c, i).value;
      Same(m, j, c, i, end) && Rest(m, j + (end - i) + 1, c, end + 1)
    decreases |c| - i
  {
    hide Min, Clean;
    assert m[j] == m[j..][0] == c[i];
    if c[i] == QUOTE {
      assert m[j + 1..] == m[j..][1..];
    } else if c[i] == BACKSLASH {
      assert m[j + 1] == m[j..][1] == c[i + 1];
      assert m[j + 2..] == m[j..][2..];
      StringRest(m, j + 2, c, i + 2);
    } else {
      assert m[j + 1..] == m[j..][1..];
      StringRest(m, j + 1, c, i + 1);
    }
  }

  lemma {:induction false} CleanLiteral(c: seq<byte>, i: nat)
    requires Terminated(c) && i < |c| && Scan(c, i).Some?
    ensures CleanString(c, i) == Clean(c, Scan(c, i).value + 1)
    decreases |c| - i
  {
    hide Clean;
    if c[i] == BACKSLASH {
      CleanLiteral(c, i + 2);
    } else if c[i] != QUOTE {
      CleanLiteral(c, i + 1);
    }
  }

  lemma {:induction false} ScanSame(m: seq<byte>, j: nat, c: seq<byte>, i: nat)
    requires i <= |c| && Scan(c, i).Some? && Same(m, j, c, i, Scan(c, i).value)
    ensures Scan(m, j) == Some(j + (Scan(c, i).value - i))
    decreases |c| - i
  {
    var end := Scan(c, i).value;
    SameTail(m, j, c, i, end, 0);
    if c[i] == QUOTE {
    } else if c[i] == BACKSLASH {
      SameTail(m, j, c, i, end, 2);
      ScanSame(m, j + 2, c, i + 2);
    } else {
      SameTail(m, j, c, i, end, 1);
      ScanSame(m, j + 1, c, i + 1);
    }
  }

  /** A round reads only bytes of the literal, so it does the same at the other place. */
  lemma RoundSame(m: seq<byte>, last: nat, c: seq<byte>, p: nat, end: nat)
    requires p < end < |c| && end - p <= last && Same(m, last - (end - p), c, p, end)
    ensures Round(m, last - (end - p), last) == Round(c, p, end)
  {
    var q := last - (end - p);
    assert m[q] == c[p] && m[q + 1] == c[p + 1];
    if end - p >= 6 {
      assert m[q + 2] == c[p + 2] && m[q + 3] == c[p + 3] && m[q + 4] == c[p + 4] && m[q + 5] == c[p + 5];
      assert m[q + 6] == c[p + 6];
      if end - p >= 12 {
        assert m[q + 7] == c[p + 7] && m[q + 8] == c[p + 8] && m[q + 9] == c[p + 9];
        assert m[q + 10] == c[p + 10] && m[q + 11] == c[p + 11];
      }
    }
  }

  lemma {:induction false} UnescapeSame(m: seq<byte>, last: nat, c: seq<byte>, p: nat, end: nat)
    requires p <= end < |c| && end - p <= last && Same(m, last - (end - p), c, p, end)
    ensures
      var a, b := Unescape(m, last - (end - p), last), Unescape(c, p, end);
      a.ok == b.ok && a.out == b.out
    decreases end - p
  {
    hide Round;
    if p < end {
      RoundSame(m, last, c, p, end);
      var (used, _) := Round(c, p, end);
      if used > 0 && p + used <= end {
        SameTail(m, last - (end - p), c, p, end, used);
        UnescapeSame(m, last, c, p + used, end);
      }
    }
  }

  lemma LiteralSame(m: seq<byte>, j: nat, c: seq<byte>, i: nat, depth: nat)
    requires NulEnded(m) && j + 1 < |m| && m[j] == QUOTE
    requires NulEnded(c) && i + 1 < |c| && c[i] == QUOTE && Scan(c, i + 1).Some?
    requires Same(m, j + 1, c, i + 1, Scan(c, i + 1).value)
    ensures
      match ParseString(c, i, depth)
      case Fail(_, _) => true
      case Done(s, next) => ParseString(m, j, depth) == Done(s, j + (next - i))
  {
    hide Unescape, Scan, CStr;
    var end := Scan(c, i + 1).value;
    ScanSame(m, j + 1, c, i + 1);
    UnescapeSame(m, j + 1 + (end - (i + 1)), c, i + 1, end);
  }

  lemma StringMinified(m: seq<byte>, j: nat, c: seq<byte>, i: nat, depth: nat)
    requires Terminated(c) && Rest(m, j, c, i) && ParseString(c, i, depth).Done?
    ensures j < |m| && NulEnded(m)
    ensures
      var r, r' := ParseString(c, i, depth), ParseString(m, j, depth);
      r'.Done? && r'.value == r.value && Rest(m, r'.next, c, r.next) && Clean(c, i) == Clean(c, r.next)
  {
    hide Scan, Clean, CleanString, Min, MinString, ParseString, Same;
    LiteralStart(c, i, depth);
    RestEnds(m, j, c, i);
    QuoteRest(m, j, c, i);
    StringRest(m, j + 1, c, i + 1);
    CleanLiteral(c, i + 1);
    LiteralSame(m, j, c, i, depth);
  }

  lemma QuoteRest(m: seq<byte>, j: nat, c: seq<byte>, i: nat)
    requires Terminated(c) && Rest(m, j, c, i) && c[i] == QUOTE
    ensures j + 1 < |m| && m[j + 1..] == MinString(c, i + 1) && Clean(c, i) == CleanString(c, i + 1)
  {
    hide MinString, CleanString;
    assert m[j + 1..] == m[j..][1..];
  }

  lemma LiteralStart(c: seq<byte>, i: nat, depth: nat)
    requires NulEnded(c) && i < |c| && ParseString(c, i, depth).Done?
    ensures c[i] == QUOTE && i + 1 < |c| && Scan(c, i + 1).Some?
    ensures ParseString(c, i, depth).next == Scan(c, i + 1).value + 1
  {
    hide Unescape, Scan, CStr;
  }

  // ---- numbers ----

  /** What comes after a value in an accepted text. */
  predicate Follows(c: seq<byte>, n: nat) {
    n < |c| && (c[Skip(c, n)] == COMMA || c[Skip(c, n)] == RBRACKET || c[Skip(c, n)] == RBRACE || c[Skip(c, n)] == NUL)
  }

  lemma {:induction false} CollectLimit(c: seq<byte>, off: nat, i: nat)
    requires off <= |c| && i <= COLLECT_LIMIT
    ensures
      var t := Collect(c, off, i);
      i + |t| == COLLECT_LIMIT || off + |t| == |c| || !IsNumberChar(c[off + |t|])
    decreases |c| - off
  {
    if i < COLLECT_LIMIT && off < |c| && IsNumberChar(c[off]) {
      CollectLimit(c, off + 1, i + 1);
    }
  }

  lemma {:induction false} CollectSame(m: seq<byte>, j: nat, t: seq<byte>, i: nat)
    requires j + |t| < |m| && m[j..j + |t|] == t && i + |t| <= COLLECT_LIMIT
    requires forall k :: 0 <= k < |t| ==> IsNumberChar(t[k])
    requires !IsNumberChar(m[j + |t|])
    ensures Collect(m, j, i) == t
    decreases |t|
  {
    if t != [] {
      assert m[j] == m[j..j + |t|][0] == t[0];
      assert m[j + 1..j + |t|] == m[j..j + |t|][1..];
      CollectSame(m, j + 1, t[1..], i + 1);
    }
  }

  lemma NumberMinified(m: seq<byte>, j: nat, c: seq<byte>, i: nat, depth: nat)
    requires Terminated(c) && Rest(m, j, c, i)
    requires ParseNumber(c, i, depth).Done? && Follows(c, ParseNumber(c, i, depth).next)
    ensures j < |m| && NulEnded(m)
    ensures
      var r, r' := ParseNumber(c, i, depth), ParseNumber(m, j, depth);
      r'.Done? && r'.value == r.value && Rest(m, r'.next, c, r.next) && Clean(c, i) == Clean(c, r.next)
  {
    hide Strtod, Collect, Min, Clean, Skip;
    var t := Collect(c, i, 0);
    var n := i + |t|;
    CollectLimit(c, i, 0);
    CollectedInFull(c, i, depth);
    PlainRun(m, j, c, i, |t|);
    RestEnds(m, j, c, i);
    assert c[Skip(c, n)] != SLASH && !IsNumberChar(c[Skip(c, n)]);
    SkipRest(m, j + |t|, c, n);
    CollectSame(m, j, t, 0);
  }

  /** Only a number that uses up what was collected is followed by what may follow a value. */
  lemma CollectedInFull(c: seq<byte>, i: nat, depth: nat)
    requires Terminated(c) && i < |c|
    requires ParseNumber(c, i, depth).Done? && Follows(c, ParseNumber(c, i, depth).next)
    ensures
      var t := Collect(c, i, 0);
      && ParseNumber(c, i, depth).next == i + |t| < |c| && !IsNumberChar(c[i + |t|])
      && c[i..i + |t|] == t && forall k :: i <= k < i + |t| ==> IsPlain(c[k])
  {
    hide Strtod, Collect;
    var t := Collect(c, i, 0);
    var n := ParseNumber(c, i, depth).next;
    CollectLimit(c, i, 0);
    forall k | i <= k < i + |t|
      ensures IsPlain(c[k]) && IsNumberChar(c[k])
    {
      assert c[k] == t[k - i];
    }
    FollowsNoNumber(c, n);
  }

  lemma FollowsNoNumber(c: seq<byte>, n: nat)
    requires Follows(c, n)
    ensures !IsNumberChar(c[n])
  {
  }

  // ---- values ----

  lemma WordMinified(m: seq<byte>, j: nat, c: seq<byte>, i: nat, word: seq<byte>)
    requires NulEnded(c) && Rest(m, j, c, i) && At(c, i, word)
    requires forall k :: 0 <= k < |word| ==> IsPlain(word[k])
    ensures i + |word| < |c| && At(m, j, word) && Rest(m, j + |word|, c, i + |word|)
    ensures Clean(c, i) == Clean(c, i + |word|)
  {
    hide At, Min, Clean;
    AtAll(c, i, word);
    PlainRun(m, j, c, i, |word|);
    AtMeans(m, j, word);
    AtMeans(c, i, word);
  }

  lemma AtMeans(c: seq<byte>, off: nat, t: seq<byte>)
    ensures At(c, off, t) <==> off + |t| <= |c| && c[off..off + |t|] == t
  {
  }

  /** The value `r` parsed at `i` of `c` is parsed at `j` of `m`, and both cursors stay in step. */
  ghost predicate InStep<T(!new)>(r: Outcome<T>, r': Outcome<T>, m: seq<byte>, c: seq<byte>, i: nat)
    requires NulEnded(c) && i < |c|
  {
    r.Done? && r'.Done? && r'.value == r.value && Rest(m, r'.next, c, r.next) && Clean(c, i) == Clean(c, r.next)
  }

  lemma {:induction false} ValueMinified(m: seq<byte>, j: nat, c: seq<byte>, i: nat, depth: nat)
    requires Terminated(c) && Rest(m, j, c, i)
    requires ParseValue(c, i, depth).Done? && Follows(c, ParseValue(c, i, depth).next)
    ensures j < |m| && NulEnded(m)
    ensures InStep(ParseValue(c, i, depth), ParseValue(m, j, depth), m, c, i)
    decreases |c| - i, 2
  {
    hide Min, Clean, At, ParseString, ParseNumber, ParseArray, ParseObject, Skip;
    RestEnds(m, j, c, i);
    Dispatch(c, i, depth);
    Dispatch(m, j, depth);
    if At(c, i, NULL_TEXT) {
      WordMinified(m, j, c, i, NULL_TEXT);
    } else if At(c, i, FALSE_TEXT) {
      WordMinified(m, j, c, i, FALSE_TEXT);
    } else if At(c, i, TRUE_TEXT) {
      WordMinified(m, j, c, i, TRUE_TEXT);
    } else if c[i] == QUOTE {
      StringMinified(m, j, c, i, depth);
    } else if c[i] == MINUS || IsDigit(c[i]) {
      NumberMinified(m, j, c, i, depth);
    } else if c[i] == LBRACKET {
      ArrayMinified(m, j, c, i, depth);
    } else {
      ObjectMinified(m, j, c, i, depth);
    }
  }

  lemma {:induction false} ArrayMinified(m: seq<byte>, j: nat, c: seq<byte>, i: nat, depth: nat)
    requires Terminated(c) && Rest(m, j, c, i) && c[i] == LBRACKET && ParseArray(c, i, depth).Done?
    ensures j < |m| && NulEnded(m) && m[j] == LBRACKET
    ensures InStep(ParseArray(c, i, depth), ParseArray(m, j, depth), m, c, i)
    decreases |c| - i, 1
  {
    hide Min, Clean, Items, Skip;
    assert depth < NESTING_LIMIT;
    hide ParseArray;
    RestEnds(m, j, c, i);
    ArrayStep(c, i, depth);
    ArrayStep(m, j, depth);
    PlainByte(m, j, c, i);
    var o := Skip(c, i + 1);
    if c[o] != RBRACKET {
      ItemsStart(c, o, depth + 1);
    }
    SkipRest(m, j + 1, c, i + 1);
    if c[o] == RBRACKET {
      PlainByte(m, Skip(m, j + 1), c, o);
    } else {
      ItemsMinified(m, Skip(m, j + 1), c, o, depth + 1);
    }
  }

  lemma ItemsStart(c: seq<byte>, o: nat, depth: nat)
    requires NulEnded(c) && o < |c| && Items(c, o, depth).Done?
    ensures c[Skip(c, o)] != SLASH && ParseValue(c, Skip(c, o), depth).Done?
    ensures o == Skip(c, o) ==> c[o] != SLASH
  {
    hide ParseString, ParseNumber, ParseArray, ParseObject;
    WordStarts(c, Skip(c, o));
  }

  lemma {:induction false} ItemsMinified(m: seq<byte>, j: nat, c: seq<byte>, i: nat, depth: nat)
    requires Terminated(c) && Rest(m, j, c, i) && Items(c, i, depth).Done?
    ensures j < |m| && NulEnded(m)
    ensures InStep(Items(c, i, depth), Items(m, j, depth), m, c, i)
    decreases |c| - i, 3
  {
    hide Min, Clean, ParseValue, Items, Skip;
    RestEnds(m, j, c, i);
    ItemsStart(c, i, depth);
    SkipRest(m, j, c, i);
    ItemsUnfold(c, i, depth, []);
    ItemsUnfold(m, j, depth, []);
    PrependNothing(Items(c, i, depth));
    PrependNothing(Items(m, j, depth));
    var n := ParseValue(c, Skip(c, i), depth).next;
    var t := Skip(c, n);
    ValueMinified(m, Skip(m, j), c, Skip(c, i), depth);
    var n' := ParseValue(m, Skip(m, j), depth).next;
    SkipRest(m, n', c, n);
    PlainByte(m, Skip(m, n'), c, t);
    if c[t] == COMMA {
      ItemsMinified(m, Skip(m, n') + 1, c, t + 1, depth);
    }
  }

  lemma {:induction false} ObjectMinified(m: seq<byte>, j: nat, c: seq<byte>, i: nat, depth: nat)
    requires Terminated(c) && Rest(m, j, c, i) && c[i] == LBRACE && ParseObject(c, i, depth).Done?
    ensures j < |m| && NulEnded(m) && m[j] == LBRACE
    ensures InStep(ParseObject(c, i, depth), ParseObject(m, j, depth), m, c, i)
    decreases |c| - i, 1
  {
    hide Min, Clean, Members, Skip;
    assert depth < NESTING_LIMIT;
    hide ParseObject;
    RestEnds(m, j, c, i);
    ObjectStep(c, i, depth);
    ObjectStep(m, j, depth);
    PlainByte(m, j, c, i);
    var o := Skip(c, i + 1);
    if c[o] != RBRACE {
      MembersStart(c, o, depth + 1);
    }
    SkipRest(m, j + 1, c, i + 1);
    if c[o] == RBRACE {
      PlainByte(m, Skip(m, j + 1), c, o);
    } else {
      MembersMinified(m, Skip(m, j + 1), c, o, depth + 1);
    }
  }

  lemma MembersStart(c: seq<byte>, o: nat, depth: nat)
    requires NulEnded(c) && o < |c| && Members(c, o, depth).Done?
    ensures ParseMember(c, o, depth).Done? && c[Skip(c, o)] == QUOTE
    ensures o == Skip(c, o) ==> c[o] == QUOTE
  {
    hide ParseValue;
  }

  lemma {:induction false} MemberMinified(m: seq<byte>, j: nat, c: seq<byte>, i: nat, depth: nat)
    requires Terminated(c) && Rest(m, j, c, i)
    requires ParseMember(c, i, depth).Done? && Follows(c, ParseMember(c, i, depth).next)
    requires c[Skip(c, i)] == QUOTE
    ensures j < |m| && NulEnded(m)
    ensures InStep(ParseMember(c, i, depth), ParseMember(m, j, depth), m, c, i)
    decreases |c| - i, 3
  {
    hide Min, Clean, Rest, Follows, ParseValue, ParseString, ParseMember, Skip;
    RestEnds(m, j, c, i);
    MemberUnfold(c, i, depth);
    MemberUnfold(m, j, depth);
    SkipRest(m, j, c, i);
    StringMinified(m, Skip(m, j), c, Skip(c, i), depth);
    var n, n' := ParseString(c, Skip(c, i), depth).next, ParseString(m, Skip(m, j), depth).next;
    SkipRest(m, n', c, n);
    var t, t' := Skip(c, n), Skip(m, n');
    PlainByte(m, t', c, t);
    ValueStart(c, Skip(c, t + 1), depth);
    SkipRest(m, t' + 1, c, t + 1);
    ValueMinified(m, Skip(m, t' + 1), c, Skip(c, t + 1), depth);
  }

  lemma ValueStart(c: seq<byte>, o: nat, depth: nat)
    requires NulEnded(c) && o < |c| && ParseValue(c, o, depth).Done?
    ensures c[o] != SLASH && c[o] != BOM[0] && c[o] > SPACE
  {
    hide ParseString, ParseNumber, ParseArray, ParseObject;
    WordStarts(c, o);
  }

  lemma {:induction false} MembersMinified(m: seq<byte>, j: nat, c: seq<byte>, i: nat, depth: nat)
    requires Terminated(c) && Rest(m, j, c, i) && Members(c, i, depth).Done?
    ensures j < |m| && NulEnded(m)
    ensures InStep(Members(c, i, depth), Members(m, j, depth), m, c, i)
    decreases |c| - i, 4
  {
    hide Min, Clean, ParseMember, Members, Skip;
    RestEnds(m, j, c, i);
    MembersStart(c, i, depth);
    MembersUnfold(c, i, depth, []);
    MembersUnfold(m, j, depth, []);
    PrependNothing(Members(c, i, depth));
    PrependNothing(Members(m, j, depth));
    var n := ParseMember(c, i, depth).next;
    var t := Skip(c, n);
    MemberMinified(m, j, c, i, depth);
    var n' := ParseMember(m, j, depth).next;
    SkipRest(m, n', c, n);
    PlainByte(m, Skip(m, n'), c, t);
    if c[t] == COMMA {
      MembersMinified(m, Skip(m, n') + 1, c, t + 1, depth);
    }
  }

  // ---- whole texts ----

  lemma {:induction false} CleanClosed(c: seq<byte>, i: nat)
    requires NulEnded(c) && i < |c| && Clean(c, i)
    ensures Closed(c, i) && NoJoin(c, i)
    decreases |c| - i
  {
    if c[i] == NUL {
    } else if c[i] == QUOTE {
      CleanStringClosed(c, i + 1);
    } else {
      CleanClosed(c, i + 1);
    }
  }

  lemma {:induction false} CleanStringClosed(c: seq<byte>, i: nat)
    requires NulEnded(c) && i < |c| && CleanString(c, i)
    ensures ClosedString(c, i) && NoJoinString(c, i)
    decreases |c| - i
  {
    if c[i] == QUOTE {
      CleanClosed(c, i + 1);
    } else if c[i] == BACKSLASH {
      CleanStringClosed(c, i + 2);
    } else {
      CleanStringClosed(c, i + 1);
    }
  }

  /** The byte order mark is skipped before and after minifying, or neither time. */
  lemma BomMinified(c: seq<byte>)
    requires Terminated(c) && ParseText(c, true).Done?
    ensures
      var m := Min(c, 0);
      Rest(m, SkipBom(m), c, SkipBom(c)) && Clean(c, 0) == Clean(c, SkipBom(c))
  {
    hide Min, Clean, ParseValue, At, Skip;
    var m := Min(c, 0);
    assert m[0..] == m;
    var o := SkipBom(c);
    var s := Skip(c, o);
    ValueStart(c, s, 0);
    if o == 3 {
      WordMinified(m, 0, c, 0, BOM);
      SkipRest(m, 3, c, 3);
      RestEnds(m, 3, c, 3);
      assert m[Skip(m, 3)] != NUL;
    } else {
      SkipRest(m, 0, c, 0);
      if At(m, 0, BOM) {
        AtIndex(m, 0, BOM, 0);
        BomVisible(m);
      }
    }
  }

  lemma BomVisible(m: seq<byte>)
    requires |m| > 0 && m[0] == BOM[0]
    ensures Skip(m, 0) == 0
  {
  }

  /**
   * Every text the parser accepts in full can be minified in place, parses to the same tree
   * afterwards, again with nothing behind it, and is left alone by a second minifying.
   */
  lemma MinifyKeepsMeaning(c: seq<byte>)
    requires Terminated(c) && ParseText(c, true).Done?
    ensures Closed(c, 0)
    ensures
      var m := Min(c, 0);
      NulEnded(m) && ParseText(m, true) == Done(ParseText(c, true).value, |m| - 1) && Min(m, 0) == m
  {
    hide Min, Clean, ParseValue, Skip, SkipBom;
    var m := Min(c, 0);
    assert m[0..] == m;
    RestEnds(m, 0, c, 0);
    BomMinified(c);
    var o, o' := SkipBom(c), SkipBom(m);
    ValueStart(c, Skip(c, o), 0);
    SkipRest(m, o', c, o);
    ValueMinified(m, Skip(m, o'), c, Skip(c, o), 0);
    var n, n' := ParseValue(c, Skip(c, o), 0).next, ParseValue(m, Skip(m, o'), 0).next;
    SkipRest(m, n', c, n);
    RestEnds(m, Skip(m, n'), c, Skip(c, n));
    assert Clean(c, Skip(c, n)) by { CleanEnd(c, Skip(c, n)); }
    CleanClosed(c, 0);
    MinifyingTwice(c);
  }

  lemma CleanEnd(c: seq<byte>, i: nat)
    requires NulEnded(c) && i < |c| && c[i] == NUL
    ensures Clean(c, i)
  {
  }

  /** Not for every text: two slashes that a blank keeps apart become a comment. */
  lemma SecondMinifyingCanChange()
    ensures Min([SLASH, SPACE, SLASH, NUL], 0) == [SLASH, SLASH, NUL]
    ensures Min([SLASH, SLASH, NUL], 0) == [NUL]
  {
    var c := [SLASH, SPACE, SLASH, NUL];
    assert Min(c, 3) == [NUL];
    assert Min(c, 2) == [SLASH] + Min(c, 3);
    var m := [SLASH, SLASH, NUL];
    assert LineEnd(m, 2) == 2;
    assert LineEnd(m, 1) == 2;
  }
}

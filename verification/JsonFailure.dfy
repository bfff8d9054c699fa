/** Where the cursor of a failed parse can stand. */
module JsonFailure {
  import opened Bytes
  import opened JsonTree
  import opened JsonNumber
  import opened JsonString
  import opened JsonGrammar

  /** A failed string leaves the cursor past the text exactly when it was looked for at the terminator. */
  lemma StringFailsPastEnd(c: seq<byte>, off: nat, depth: nat)
    requires NulEnded(c) && off < |c|
    ensures ParseString(c, off, depth).Fail? && ParseString(c, off, depth).at == |c| <==> off + 1 == |c|
  {
    hide Round, Unescape, Scan;
  }

  /** What comes before the position calls for a member's name in an object. */
  predicate Opener(c: seq<byte>, n: nat)
    requires n <= |c|
  {
    n > 0 && (c[n - 1] == LBRACE || c[n - 1] == COMMA)
  }

  /** Only white space stands between an opening brace or a comma and the position. */
  predicate OpensName(c: seq<byte>, s: nat) {
    s < |c| && exists n :: 0 <= n <= s && Opener(c, n) && forall k :: n <= k < s ==> c[k] <= SPACE
  }

  /** The last significant byte before the terminator is an opening brace or a comma. */
  predicate EndsOpen(c: seq<byte>) {
    |c| > 0 && OpensName(c, |c| - 1)
  }

  lemma OpensAfter(c: seq<byte>, n: nat, s: nat)
    requires n <= s < |c| && Opener(c, n) && forall k :: n <= k < s ==> c[k] <= SPACE
    ensures OpensName(c, s)
  {
  }

  lemma OpensFurther(c: seq<byte>, s: nat)
    requires s < |c| && OpensName(c, s)
    ensures OpensName(c, Skip(c, s))
  {
    var n :| 0 <= n <= s && Opener(c, n) && forall k :: n <= k < s ==> c[k] <= SPACE;
    OpensAfter(c, n, Skip(c, s));
  }

  // ---- a name due at the terminator ----

  /** The value that starts here is an array or object, within the nesting limit, in which the text ends where a
      member's name is due. */
  predicate ValueDue(c: seq<byte>, off: nat, depth: nat)
    requires NulEnded(c) && off < |c|
    decreases |c| - off, 2
  {
    depth < NESTING_LIMIT
    && if c[off] == LBRACKET then
         c[Skip(c, off + 1)] != RBRACKET && ItemsDue(c, Skip(c, off + 1), depth + 1)
       else if c[off] == LBRACE then
         c[Skip(c, off + 1)] != RBRACE && MembersDue(c, Skip(c, off + 1), depth + 1)
       else false
  }

  /** After elements that are complete, the next one ends so. */
  predicate ItemsDue(c: seq<byte>, off: nat, depth: nat)
    requires NulEnded(c) && off < |c|
    decreases |c| - off, 3
  {
    match ParseValue(c, Skip(c, off), depth)
    case Fail(_, _) => ValueDue(c, Skip(c, off), depth)
    case Done(_, next) => c[Skip(c, next)] == COMMA && ItemsDue(c, Skip(c, next) + 1, depth)
  }

  /** The terminator stands where the name is due, or the member's value ends so. */
  predicate MemberDue(c: seq<byte>, off: nat, depth: nat)
    requires NulEnded(c) && off < |c|
    decreases |c| - off, 3
  {
    match ParseString(c, Skip(c, off), depth)
    case Fail(_, _) => Skip(c, off) + 1 == |c|
    case Done(_, next) => c[Skip(c, next)] == COLON && ValueDue(c, Skip(c, Skip(c, next) + 1), depth)
  }

  /** After members that are complete, the next one ends so. */
  predicate MembersDue(c: seq<byte>, off: nat, depth: nat)
    requires NulEnded(c) && off < |c|
    decreases |c| - off, 4
  {
    match ParseMember(c, off, depth)
    case Fail(_, _) => MemberDue(c, off, depth)
    case Done(_, next) => c[Skip(c, next)] == COMMA && MembersDue(c, Skip(c, next) + 1, depth)
  }

  /** Inside open brackets the text ends where the name of a member is due. */
  predicate NameDue(c: seq<byte>)
    requires NulEnded(c)
  {
    ValueDue(c, Skip(c, SkipBom(c)), 0)
  }

  predicate PastEnd<T>(r: Outcome<T>, c: seq<byte>) {
    r.Fail? && r.at == |c|
  }

  lemma {:induction false} ValueFails(c: seq<byte>, off: nat, depth: nat)
    requires NulEnded(c) && off < |c|
    ensures PastEnd(ParseValue(c, off, depth), c) <==> ValueDue(c, off, depth)
    ensures ValueDue(c, off, depth) ==> EndsOpen(c)
    decreases |c| - off, 2
  {
    hide At, Items, Members, ItemsDue, MembersDue, Skip, ParseString, ParseNumber, OpensName;
    WordStarts(c, off);
    StringFailsPastEnd(c, off, depth);
    NumberFailsInside(c, off, depth);
    var r := ParseValue(c, off, depth);
    if c[off] == LBRACKET {
      assert r == ParseArray(c, off, depth);
      ItemsFail(c, Skip(c, off + 1), depth + 1);
    } else if c[off] == LBRACE {
      assert r == ParseObject(c, off, depth);
      OpensAfter(c, off + 1, Skip(c, off + 1));
      MembersFail(c, Skip(c, off + 1), depth + 1);
    }
  }

  lemma NumberFailsInside(c: seq<byte>, off: nat, depth: nat)
    requires NulEnded(c) && off < |c|
    ensures ParseNumber(c, off, depth).Fail? ==> ParseNumber(c, off, depth).at == off
  {
  }

  lemma {:induction false} ItemsFail(c: seq<byte>, off: nat, depth: nat)
    requires NulEnded(c) && off < |c|
    ensures PastEnd(Items(c, off, depth), c) <==> ItemsDue(c, off, depth)
    ensures ItemsDue(c, off, depth) ==> EndsOpen(c)
    decreases |c| - off, 3
  {
    hide ParseValue, ValueDue, Skip, EndsOpen;
    ValueFails(c, Skip(c, off), depth);
    var v := ParseValue(c, Skip(c, off), depth);
    if v.Done? && c[Skip(c, v.next)] == COMMA {
      ItemsFail(c, Skip(c, v.next) + 1, depth);
    }
  }

  lemma {:induction false} MemberFails(c: seq<byte>, off: nat, depth: nat)
    requires NulEnded(c) && off < |c| && OpensName(c, off)
    ensures PastEnd(ParseMember(c, off, depth), c) <==> MemberDue(c, off, depth)
    ensures MemberDue(c, off, depth) ==> EndsOpen(c)
    decreases |c| - off, 3
  {
    hide ParseValue, ValueDue, ParseString, Skip, OpensName;
    OpensFurther(c, off);
    StringFailsPastEnd(c, Skip(c, off), depth);
    var key := ParseString(c, Skip(c, off), depth);
    if key.Done? && c[Skip(c, key.next)] == COLON {
      ValueFails(c, Skip(c, Skip(c, key.next) + 1), depth);
    }
  }

  lemma {:induction false} MembersFail(c: seq<byte>, off: nat, depth: nat)
    requires NulEnded(c) && off < |c| && OpensName(c, off)
    ensures PastEnd(Members(c, off, depth), c) <==> MembersDue(c, off, depth)
    ensures MembersDue(c, off, depth) ==> EndsOpen(c)
    decreases |c| - off, 4
  {
    hide ParseMember, MemberDue, Skip, EndsOpen, OpensName;
    MemberFails(c, off, depth);
    var m := ParseMember(c, off, depth);
    if m.Done? && c[Skip(c, m.next)] == COMMA {
      var n := Skip(c, m.next) + 1;
      OpensAfter(c, n, n);
      MembersFail(c, n, depth);
    }
  }

  /** The cursor of a parse ends past the text exactly when, inside open brackets within the nesting limit, the text
      ends where the name of a member is due. */
  lemma PastEndIffNameDue(c: seq<byte>, requireEnd: bool)
    requires NulEnded(c)
    ensures ParseText(c, requireEnd).Fail? && ParseText(c, requireEnd).at == |c| <==> NameDue(c)
    ensures NameDue(c) ==> EndsOpen(c)
  {
    hide ParseValue, ValueDue, Skip, EndsOpen;
    ValueFails(c, Skip(c, SkipBom(c)), 0);
  }

  /** The cursor stays below the end whenever the last significant byte is neither an opening brace nor a comma. */
  lemma OffsetStaysInside(c: seq<byte>, requireEnd: bool)
    requires NulEnded(c) && !EndsOpen(c)
    ensures var r := ParseText(c, requireEnd); if r.Done? then r.next < |c| else r.at < |c|
  {
    hide ParseText, NameDue, EndsOpen;
    PastEndIffNameDue(c, requireEnd);
  }

  /** In an object the member's name is looked for at the terminator: the text of one opening brace. */
  lemma OpenBraceFailsPastEnd()
    ensures EndsOpen([LBRACE, NUL]) && ParseText([LBRACE, NUL], true) == Fail(2, 1)
  {
    var c := [LBRACE, NUL];
    OpensAfter(c, 1, 1);
    assert Skip(c, 0) == 0 && Skip(c, 1) == 1;
    assert !At(c, 0, NULL_TEXT) && !At(c, 0, FALSE_TEXT) && !At(c, 0, TRUE_TEXT);
    assert ParseString(c, 1, 1) == Fail(2, 1);
    assert ParseMember(c, 1, 1) == Fail(2, 1);
    assert Members(c, 1, 1) == Fail(2, 1);
    assert ParseObject(c, 0, 0) == Fail(2, 1);
    assert ParseValue(c, 0, 0) == Fail(2, 1);
  }
}

/**
 * The language that the parser accepts, written down apart from it: syntax trees with the white space they were written
 * with, their text and the value they stand for.
 */
module JsonSyntax {
  import opened Bytes
  import opened DecimalDigits
  import opened JsonTree
  import opened JsonNumber
  import N = JsonNumberMeaning
  import opened JsonGrammar
  import opened JsonRoundTrip
  import opened JsonLiteralPlace
  import opened JsonEnding

  datatype Syntax =
    | NullWord
    | FalseWord
    | TrueWord
    | Numeric(numeral: N.Numeral)
    | Quote(literal: seq<byte>)
    | List(open: seq<byte>, elements: seq<Element>)
    | Record(open: seq<byte>, entries: seq<Entry>)

  datatype Element = Element(before: seq<byte>, value: Syntax, after: seq<byte>)

  datatype Entry = Entry(before: seq<byte>, name: seq<byte>, gap: seq<byte>, element: Element)

  // ---- text ----

  function Text(s: Syntax): seq<byte>
    decreases s, 1
  {
    match s
    case NullWord => [110, 117, 108, 108]
    case FalseWord => [102, 97, 108, 115, 101]
    case TrueWord => [116, 114, 117, 101]
    case Numeric(n) => N.Text(n)
    case Quote(t) => t
    case List(open, es) => [91] + open + ElementsText(es) + [93]
    case Record(open, es) => [123] + open + EntriesText(es) + [125]
  }

  function ElementText(e: Element): seq<byte>
    decreases e, 2
  {
    e.before + Text(e.value) + e.after
  }

  function ElementsText(es: seq<Element>): seq<byte>
    decreases es, 0
  {
    if es == [] then []
    else ElementText(es[0]) + (if |es| > 1 then [44] else []) + ElementsText(es[1..])
  }

  function EntryText(e: Entry): seq<byte>
    decreases e, 3
  {
    e.before + e.name + e.gap + [58] + ElementText(e.element)
  }

  function EntriesText(es: seq<Entry>): seq<byte>
    decreases es, 0
  {
    if es == [] then []
    else EntryText(es[0]) + (if |es| > 1 then [44] else []) + EntriesText(es[1..])
  }

  // ---- what is well formed ----

  /** White space is any run of bytes up to 32. */
  predicate Blank(s: seq<byte>) {
    forall k :: 0 <= k < |s| ==> s[k] <= 32
  }

  /** A number of at most 63 characters that starts with a minus or a digit. */
  predicate ProperNumeral(n: N.Numeral) {
    N.Proper(n) && (n.minus || n.whole != []) && |N.Text(n)| <= 63
  }

  predicate Proper(s: Syntax)
    decreases s, 1
  {
    match s
    case Numeric(n) => ProperNumeral(n)
    case Quote(t) => IsLiteral(t)
    case List(open, es) => Blank(open) && ProperElements(es)
    case Record(open, es) => Blank(open) && ProperEntries(es)
    case _ => true
  }

  predicate ProperElement(e: Element)
    decreases e, 2
  {
    Blank(e.before) && Proper(e.value) && Blank(e.after)
  }

  predicate ProperElements(es: seq<Element>)
    decreases es, 0
  {
    es == [] || (ProperElement(es[0]) && ProperElements(es[1..]))
  }

  predicate ProperEntry(e: Entry)
    decreases e, 3
  {
    Blank(e.before) && IsLiteral(e.name) && Blank(e.gap) && ProperElement(e.element)
  }

  predicate ProperEntries(es: seq<Entry>)
    decreases es, 0
  {
    es == [] || (ProperEntry(es[0]) && ProperEntries(es[1..]))
  }

  // ---- the value ----

  function Value(s: Syntax): Json
    requires Proper(s)
    decreases s, 1
  {
    match s
    case NullWord => Null
    case FalseWord => False
    case TrueWord => True
    case Numeric(n) => Number(N.Meaning(n))
    case Quote(t) => String(LiteralValue(t))
    case List(_, es) => Array(Values(es))
    case Record(_, es) => Object(MembersOf(es))
  }

  function ElementValue(e: Element): Json
    requires ProperElement(e)
    decreases e, 2
  {
    Value(e.value)
  }

  function Values(es: seq<Element>): seq<Json>
    requires ProperElements(es)
    decreases es, 0
  {
    if es == [] then [] else [ElementValue(es[0])] + Values(es[1..])
  }

  function MemberOf(e: Entry): Member
    requires ProperEntry(e)
    decreases e, 3
  {
    Member(LiteralValue(e.name), ElementValue(e.element))
  }

  function MembersOf(es: seq<Entry>): seq<Member>
    requires ProperEntries(es)
    decreases es, 0
  {
    if es == [] then [] else [MemberOf(es[0])] + MembersOf(es[1..])
  }

  // ---- everything well formed is parsed ----

  lemma BlankSkip(c: seq<byte>, i: nat, b: seq<byte>)
    requires At(c, i, b) && Blank(b) && i + |b| < |c|
    ensures Skip(c, i) == Skip(c, i + |b|)
  {
    AtAll(c, i, b);
    SkipFurther(c, i, i + |b|);
  }

  lemma LiteralStarts(t: seq<byte>)
    requires IsLiteral(t)
    ensures |t| > 0 && t[0] == QUOTE
  {
    PlacedFirst(t);
    if |t| > 0 {
      LiteralAnywhere(t + [NUL], 0, 0, t) by { assert At(t + [NUL], 0, t) by { AtPrefix(t, [NUL]); } }
      assert (t + [NUL])[0] == t[0];
    }
  }

  /** No value starts with white space or a closing bracket. */
  lemma SyntaxStarts(s: Syntax)
    requires Proper(s)
    ensures var t := Text(s); |t| > 0 && t[0] > SPACE && t[0] != RBRACKET && t[0] != RBRACE && t[0] < 128
  {
    hide IsLiteral, N.Text, N.Proper;
    match s
    case Numeric(n) => N.TextCollects(n);
    case Quote(t) => LiteralStarts(t);
    case _ =>
  }

  lemma WordRead(c: seq<byte>, off: nat, depth: nat, s: Syntax)
    requires NulEnded(c) && (s.NullWord? || s.FalseWord? || s.TrueWord?) && At(c, off, Text(s)) && off < |c|
    ensures ParseValue(c, off, depth) == Done(Value(s), off + |Text(s)|)
  {
    hide At, ParseValue;
    Dispatch(c, off, depth);
    match s
    case NullWord => assert At(c, off, NULL_TEXT);
    case FalseWord => assert At(c, off, FALSE_TEXT);
    case TrueWord => assert At(c, off, TRUE_TEXT);
  }

  lemma {:induction false} SyntaxRead(c: seq<byte>, off: nat, depth: nat, s: Syntax)
    requires NulEnded(c) && Proper(s) && depth + Nesting(Value(s)) <= NESTING_LIMIT && At(c, off, Text(s))
    requires off + |Text(s)| < |c| && (s.Numeric? ==> !IsNumberChar(c[off + |Text(s)|]))
    ensures ParseValue(c, off, depth) == Done(Value(s), off + |Text(s)|)
    decreases s, 1
  {
    hide At, ParseValue, ParseString, ParseArray, ParseObject, ElementsText, EntriesText, ProperElements, ProperEntries,
      IsLiteral, N.Text, N.Meaning, N.Proper, IsNumberChar;
    match s
    case NullWord => WordRead(c, off, depth, s);
    case FalseWord => WordRead(c, off, depth, s);
    case TrueWord => WordRead(c, off, depth, s);
    case Numeric(n) =>
      N.NumberMeaning(c, off, depth, n);
    case Quote(t) =>
      LiteralStarts(t);
      AtIndex(c, off, t, 0);
      LiteralAnywhere(c, off, depth, t);
      Dispatch(c, off, depth);
    case List(open, es) =>
      ListRead(c, off, depth, open, es);
      Dispatch(c, off, depth);
    case Record(open, es) =>
      RecordRead(c, off, depth, open, es);
      Dispatch(c, off, depth);
  }

  lemma {:induction false} ListRead(c: seq<byte>, off: nat, depth: nat, open: seq<byte>, es: seq<Element>)
    requires NulEnded(c) && Blank(open) && ProperElements(es)
    requires depth + 1 + NestingOfItems(Values(es)) <= NESTING_LIMIT
    requires At(c, off, [91] + open + ElementsText(es) + [93])
    ensures off < |c| && c[off] == LBRACKET
    ensures ParseArray(c, off, depth) == Done(Array(Values(es)), off + |open| + |ElementsText(es)| + 2)
    decreases es, 2
  {
    hide At, ParseArray, Items, Skip, ElementsText, ProperElements, Values, NestingOfItems, Blank;
    var t := ElementsText(es);
    AtConcat(c, off, [91] + open + t, [93]);
    AtConcat(c, off, [91] + open, t);
    AtConcat(c, off, [91], open);
    AtIndex(c, off, [91], 0);
    var i := off + 1 + |open|;
    AtIndex(c, i + |t|, [93], 0);
    BlankSkip(c, off + 1, open);
    ArrayStep(c, off, depth);
    if es == [] {
      NoElements();
      SkipTo(c, i, i);
    } else {
      SkipStays(c, off + 1);
      ElementsRead(c, Skip(c, off + 1), i, depth + 1, es);
    }
  }

  lemma NoElements()
    ensures ElementsText([]) == [] && Values([]) == [] && EntriesText([]) == [] && MembersOf([]) == []
  {
  }

  lemma SkipStays(c: seq<byte>, i: nat)
    requires i < |c|
    ensures Skip(c, Skip(c, i)) == Skip(c, i)
  {
  }

  /** One element: its value is found and the skip behind it reaches what follows. */
  lemma ElementRead(c: seq<byte>, s: nat, off: nat, depth: nat, e: Element)
    requires NulEnded(c) && ProperElement(e) && depth + Nesting(ElementValue(e)) <= NESTING_LIMIT
    requires At(c, off, ElementText(e)) && off + |ElementText(e)| < |c|
    requires c[off + |ElementText(e)|] > SPACE && !IsNumberChar(c[off + |ElementText(e)|])
    requires s < |c| && off < |c| && Skip(c, s) == Skip(c, off)
    ensures c[Skip(c, s)] != RBRACKET && c[Skip(c, s)] != RBRACE
    ensures
      var r := ParseValue(c, Skip(c, s), depth);
      r.Done? && r.value == ElementValue(e) && Skip(c, r.next) == off + |ElementText(e)|
    decreases e, 2
  {
    hide At, ParseValue, Skip, Text, Value, Nesting, IsNumberChar, Proper;
    var t := Text(e.value);
    SyntaxStarts(e.value);
    AtConcat(c, off, e.before + t, e.after);
    AtConcat(c, off, e.before, t);
    var v := off + |e.before|;
    var n := v + |t|;
    AtIndex(c, v, t, 0);
    BlankSkip(c, off, e.before);
    SkipTo(c, v, v);
    BlankSkip(c, n, e.after);
    SkipTo(c, n + |e.after|, n + |e.after|);
    BlankNoNumber(c, n, e.after);
    SyntaxRead(c, v, depth, e.value);
  }

  /** A blank, or what follows no blank, cannot continue a number. */
  lemma BlankNoNumber(c: seq<byte>, n: nat, b: seq<byte>)
    requires At(c, n, b) && Blank(b) && n + |b| < |c| && !IsNumberChar(c[n + |b|])
    ensures !IsNumberChar(c[n])
  {
    if b != [] {
      AtIndex(c, n, b, 0);
    }
  }

  lemma FirstElement(es: seq<Element>)
    requires es != [] && ProperElements(es)
    ensures ProperElement(es[0]) && ProperElements(es[1..])
    ensures Values(es) == [ElementValue(es[0])] + Values(es[1..])
    ensures ElementsText(es) == ElementText(es[0]) + (if |es| > 1 then [44] else []) + ElementsText(es[1..])
    ensures |es| == 1 ==> ElementsText(es[1..]) == [] && Values(es[1..]) == []
    ensures Nesting(ElementValue(es[0])) <= NestingOfItems(Values(es))
    ensures NestingOfItems(Values(es[1..])) <= NestingOfItems(Values(es))
  {
    hide ElementText, ElementValue, ProperElement, Nesting;
    assert Values(es)[1..] == Values(es[1..]);
    if |es| == 1 {
      assert es[1..] == [];
    }
  }

  lemma NoNumberChars()
    ensures !IsNumberChar(COMMA) && !IsNumberChar(RBRACKET) && !IsNumberChar(RBRACE)
  {
  }

  lemma ItemsMore(c: seq<byte>, s: nat, depth: nat)
    requires NulEnded(c) && s < |c|
    ensures
      var v := ParseValue(c, Skip(c, s), depth);
      v.Done? ==>
        var n := Skip(c, v.next);
        && (c[n] == RBRACKET ==> Items(c, s, depth) == Done([v.value], n + 1))
        && (c[n] == COMMA ==>
              var rest := Items(c, n + 1, depth);
              if rest.Done? then Items(c, s, depth) == Done([v.value] + rest.value, rest.next)
              else Items(c, s, depth).Fail?)
        && (c[n] != COMMA && c[n] != RBRACKET ==> Items(c, s, depth).Fail?)
    ensures ParseValue(c, Skip(c, s), depth).Fail? ==> Items(c, s, depth).Fail?
  {
    hide ParseValue, Skip;
  }

  lemma {:induction false} ElementsRead(c: seq<byte>, s: nat, off: nat, depth: nat, es: seq<Element>)
    requires NulEnded(c) && es != [] && ProperElements(es)
    requires depth + NestingOfItems(Values(es)) <= NESTING_LIMIT
    requires At(c, off, ElementsText(es)) && off + |ElementsText(es)| < |c| && c[off + |ElementsText(es)|] == RBRACKET
    requires s < |c| && off < |c| && Skip(c, s) == Skip(c, off)
    ensures c[Skip(c, s)] != RBRACKET
    ensures Items(c, s, depth) == Done(Values(es), off + |ElementsText(es)| + 1)
    decreases es, 0
  {
    hide At, ParseValue, Items, Skip, ElementText, ElementsText, ElementValue, Values, ProperElement, ProperElements,
      Nesting, NestingOfItems, IsNumberChar;
    FirstElement(es);
    NoNumberChars();
    var t := ElementText(es[0]);
    var comma: seq<byte> := if |es| > 1 then [44] else [];
    var rest := ElementsText(es[1..]);
    AtConcat(c, off, t + comma, rest);
    AtConcat(c, off, t, comma);
    var e := off + |t|;
    if |es| > 1 {
      AtIndex(c, e, comma, 0);
      ElementRead(c, s, off, depth, es[0]);
      ElementsRead(c, e + 1, e + 1, depth, es[1..]);
    } else {
      ElementRead(c, s, off, depth, es[0]);
      assert Values(es) == [ElementValue(es[0])];
    }
    ItemsMore(c, s, depth);
  }

  lemma {:induction false} RecordRead(c: seq<byte>, off: nat, depth: nat, open: seq<byte>, es: seq<Entry>)
    requires NulEnded(c) && Blank(open) && ProperEntries(es)
    requires depth + 1 + NestingOfMembers(MembersOf(es)) <= NESTING_LIMIT
    requires At(c, off, [123] + open + EntriesText(es) + [125])
    ensures off < |c| && c[off] == LBRACE
    ensures ParseObject(c, off, depth) == Done(Object(MembersOf(es)), off + |open| + |EntriesText(es)| + 2)
    decreases es, 2
  {
    hide At, ParseObject, Members, Skip, EntriesText, ProperEntries, MembersOf, NestingOfMembers, Blank;
    var t := EntriesText(es);
    AtConcat(c, off, [123] + open + t, [125]);
    AtConcat(c, off, [123] + open, t);
    AtConcat(c, off, [123], open);
    AtIndex(c, off, [123], 0);
    var i := off + 1 + |open|;
    AtIndex(c, i + |t|, [125], 0);
    BlankSkip(c, off + 1, open);
    ObjectStep(c, off, depth);
    if es == [] {
      NoElements();
      SkipTo(c, i, i);
    } else {
      SkipStays(c, off + 1);
      EntriesRead(c, Skip(c, off + 1), i, depth + 1, es);
    }
  }

  /** Where the pieces of a member's text stand. */
  lemma EntryLayout(c: seq<byte>, off: nat, e: Entry)
    requires IsLiteral(e.name) && At(c, off, EntryText(e))
    ensures
      var v := off + |e.before|;
      var n := v + |e.name|;
      var colon := n + |e.gap|;
      && At(c, off, e.before) && At(c, v, e.name) && v < |c| && c[v] == QUOTE && |e.name| > 0
      && At(c, n, e.gap) && colon < |c| && c[colon] == COLON
      && At(c, colon + 1, ElementText(e.element)) && colon + 1 + |ElementText(e.element)| == off + |EntryText(e)|
  {
    hide At, ElementText, IsLiteral;
    LiteralStarts(e.name);
    AtConcat(c, off, e.before + e.name + e.gap + [58], ElementText(e.element));
    AtConcat(c, off, e.before + e.name + e.gap, [58]);
    AtConcat(c, off, e.before + e.name, e.gap);
    AtConcat(c, off, e.before, e.name);
    AtIndex(c, off + |e.before|, e.name, 0);
    AtIndex(c, off + |e.before| + |e.name| + |e.gap|, [58], 0);
  }

  /** One member: its name, the colon and its value are found and the skip behind it reaches what follows. */
  lemma EntryRead(c: seq<byte>, s: nat, off: nat, depth: nat, e: Entry)
    requires NulEnded(c) && ProperEntry(e) && depth + Nesting(MemberOf(e).value) <= NESTING_LIMIT
    requires At(c, off, EntryText(e)) && off + |EntryText(e)| < |c|
    requires c[off + |EntryText(e)|] > SPACE && !IsNumberChar(c[off + |EntryText(e)|])
    requires s < |c| && off < |c| && Skip(c, s) == Skip(c, off)
    ensures c[Skip(c, s)] == QUOTE
    ensures
      var r := ParseMember(c, s, depth);
      r.Done? && r.value == MemberOf(e) && Skip(c, r.next) == off + |EntryText(e)|
    decreases e, 3
  {
    hide At, ParseValue, ParseString, ParseMember, Skip, ElementText, EntryText, ElementValue, ProperElement, Nesting,
      IsNumberChar, IsLiteral, LiteralValue, Blank;
    EntryLayout(c, off, e);
    var v := off + |e.before|;
    var colon := v + |e.name| + |e.gap|;
    BlankSkip(c, off, e.before);
    SkipTo(c, v, v);
    LiteralAnywhere(c, v, depth, e.name);
    BlankSkip(c, v + |e.name|, e.gap);
    SkipTo(c, colon, colon);
    MemberUnfold(c, s, depth);
    ElementRead(c, colon + 1, colon + 1, depth, e.element);
  }

  lemma FirstEntry(es: seq<Entry>)
    requires es != [] && ProperEntries(es)
    ensures ProperEntry(es[0]) && ProperEntries(es[1..])
    ensures MembersOf(es) == [MemberOf(es[0])] + MembersOf(es[1..])
    ensures EntriesText(es) == EntryText(es[0]) + (if |es| > 1 then [44] else []) + EntriesText(es[1..])
    ensures |es| == 1 ==> EntriesText(es[1..]) == [] && MembersOf(es[1..]) == []
    ensures Nesting(MemberOf(es[0]).value) <= NestingOfMembers(MembersOf(es))
    ensures NestingOfMembers(MembersOf(es[1..])) <= NestingOfMembers(MembersOf(es))
  {
    hide EntryText, MemberOf, ProperEntry, Nesting;
    assert MembersOf(es)[1..] == MembersOf(es[1..]);
    if |es| == 1 {
      assert es[1..] == [];
    }
  }

  lemma MembersMoreOrLast(c: seq<byte>, s: nat, depth: nat)
    requires NulEnded(c) && s < |c|
    ensures
      var v := ParseMember(c, s, depth);
      v.Done? ==>
        var n := Skip(c, v.next);
        && (c[n] == RBRACE ==> Members(c, s, depth) == Done([v.value], n + 1))
        && (c[n] == COMMA ==>
              var rest := Members(c, n + 1, depth);
              if rest.Done? then Members(c, s, depth) == Done([v.value] + rest.value, rest.next)
              else Members(c, s, depth).Fail?)
        && (c[n] != COMMA && c[n] != RBRACE ==> Members(c, s, depth).Fail?)
    ensures ParseMember(c, s, depth).Fail? ==> Members(c, s, depth).Fail?
  {
    hide ParseMember, Skip;
  }

  lemma {:induction false} EntriesRead(c: seq<byte>, s: nat, off: nat, depth: nat, es: seq<Entry>)
    requires NulEnded(c) && es != [] && ProperEntries(es)
    requires depth + NestingOfMembers(MembersOf(es)) <= NESTING_LIMIT
    requires At(c, off, EntriesText(es)) && off + |EntriesText(es)| < |c| && c[off + |EntriesText(es)|] == RBRACE
    requires s < |c| && off < |c| && Skip(c, s) == Skip(c, off)
    ensures c[Skip(c, s)] == QUOTE
    ensures Members(c, s, depth) == Done(MembersOf(es), off + |EntriesText(es)| + 1)
    decreases es, 0
  {
    hide At, ParseMember, Members, Skip, EntryText, EntriesText, MemberOf, MembersOf, ProperEntry, ProperEntries,
      Nesting, NestingOfMembers, IsNumberChar;
    FirstEntry(es);
    NoNumberChars();
    var t := EntryText(es[0]);
    var comma: seq<byte> := if |es| > 1 then [44] else [];
    var rest := EntriesText(es[1..]);
    AtConcat(c, off, t + comma, rest);
    AtConcat(c, off, t, comma);
    var e := off + |t|;
    if |es| > 1 {
      AtIndex(c, e, comma, 0);
      EntryRead(c, s, off, depth, es[0]);
      EntriesRead(c, e + 1, e + 1, depth, es[1..]);
    } else {
      EntryRead(c, s, off, depth, es[0]);
      assert MembersOf(es) == [MemberOf(es[0])];
    }
    MembersMoreOrLast(c, s, depth);
  }

  // ---- and nothing else is ----

  lemma AtHere(c: seq<byte>, i: nat, j: nat)
    requires i <= j <= |c|
    ensures At(c, i, c[i..j])
  {
  }

  lemma SkippedBlank(c: seq<byte>, i: nat)
    requires i < |c|
    ensures Blank(c[i..Skip(c, i)])
  {
  }

  /** A number that is accepted is written as a numeral. */
  lemma NumeralFound(c: seq<byte>, off: nat, depth: nat) returns (n: N.Numeral)
    requires NulEnded(c) && off < |c| && (c[off] == MINUS || IsDigit(c[off])) && ParseNumber(c, off, depth).Done?
    ensures ProperNumeral(n) && At(c, off, N.Text(n))
    ensures ParseNumber(c, off, depth) == Done(Number(N.Meaning(n)), off + |N.Text(n)|)
  {
    hide Strtod, N.Text, N.Meaning, N.Proper, At;
    var t := Collect(c, off, 0);
    n := N.StrtodTakesNumeral(t);
    CollectedAt(c, off, t, N.Text(n));
  }

  lemma CollectedAt(c: seq<byte>, off: nat, t: seq<byte>, s: seq<byte>)
    requires off + |t| <= |c| && (forall k :: 0 <= k < |t| ==> t[k] == c[off + k]) && At(t, 0, s)
    ensures At(c, off, s)
  {
    assert c[off..off + |s|] == t[0..|s|];
  }

  lemma LiteralFound(c: seq<byte>, off: nat, depth: nat) returns (t: seq<byte>)
    requires NulEnded(c) && off < |c| && ParseString(c, off, depth).Done?
    ensures IsLiteral(t) && At(c, off, t)
    ensures ParseString(c, off, depth) == Done(LiteralValue(t), off + |t|)
  {
    hide ParseString, At, IsLiteral, LiteralValue;
    var next := ParseString(c, off, depth).next;
    t := c[off..next];
    AtHere(c, off, next);
    LiteralAnywhere(c, off, depth, t);
  }

  /** A value is accepted only where its syntax stands. */
  lemma {:induction false} SyntaxFound(c: seq<byte>, off: nat, depth: nat) returns (s: Syntax)
    requires NulEnded(c) && off < |c| && ParseValue(c, off, depth).Done?
    ensures Proper(s) && At(c, off, Text(s)) && ParseValue(c, off, depth) == Done(Value(s), off + |Text(s)|)
    decreases |c| - off, 2
  {
    hide At, ParseString, ParseNumber, ParseArray, ParseObject, IsLiteral, LiteralValue, N.Text, N.Meaning, N.Proper,
      ElementsText, EntriesText, ProperElements, ProperEntries;
    WordStarts(c, off);
    if At(c, off, NULL_TEXT) {
      s := NullWord;
    } else if At(c, off, FALSE_TEXT) {
      s := FalseWord;
    } else if At(c, off, TRUE_TEXT) {
      s := TrueWord;
    } else if c[off] == QUOTE {
      var t := LiteralFound(c, off, depth);
      s := Quote(t);
    } else if c[off] == MINUS || IsDigit(c[off]) {
      var n := NumeralFound(c, off, depth);
      s := Numeric(n);
    } else if c[off] == LBRACKET {
      var open, es := ListFound(c, off, depth);
      s := List(open, es);
    } else {
      var open, es := RecordFound(c, off, depth);
      s := Record(open, es);
    }
  }

  lemma {:induction false} ListFound(c: seq<byte>, off: nat, depth: nat)
    returns (open: seq<byte>, es: seq<Element>)
    requires NulEnded(c) && off < |c| && c[off] == LBRACKET && ParseArray(c, off, depth).Done?
    ensures Blank(open) && ProperElements(es) && At(c, off, [91] + open + ElementsText(es) + [93])
    ensures ParseArray(c, off, depth) == Done(Array(Values(es)), off + |open| + |ElementsText(es)| + 2)
    decreases |c| - off, 1
  {
    hide At, Items, Skip, ElementsText, ProperElements, Values, Blank;
    var o := Skip(c, off + 1);
    open, es := c[off + 1..o], [];
    SkippedBlank(c, off + 1);
    AtHere(c, off + 1, o);
    if c[o] == RBRACKET {
      NoElements();
      NoneProper();
    } else {
      es := ElementsFound(c, o, depth + 1);
    }
    ByteAt(c, off, 91);
    ByteAt(c, o + |ElementsText(es)|, 93);
    AtConcat(c, off, [91], open);
    assert ElementsText(es) == [] ==> [91] + open + ElementsText(es) == [91] + open;
    if ElementsText(es) != [] {
      AtConcat(c, off, [91] + open, ElementsText(es));
    }
    AtConcat(c, off, [91] + open + ElementsText(es), [93]);
  }

  lemma NoneProper()
    ensures ProperElements([]) && ProperEntries([])
  {
  }

  lemma ByteAt(c: seq<byte>, i: nat, b: byte)
    requires i < |c| && c[i] == b
    ensures At(c, i, [b])
  {
  }

  /** The text of one element put together. */
  lemma ElementFound(c: seq<byte>, s: nat, v: nat, n: nat, last: nat, e: Element)
    requires s <= v <= n <= last <= |c| && e.before == c[s..v] && e.after == c[n..last]
    requires At(c, v, Text(e.value)) && n == v + |Text(e.value)|
    ensures At(c, s, ElementText(e)) && s + |ElementText(e)| == last
  {
    hide At, Text;
    AtHere(c, s, v);
    AtHere(c, n, last);
    AtConcat(c, s, e.before, Text(e.value));
    AtConcat(c, s, e.before + Text(e.value), e.after);
  }

  lemma PutElementFirst(c: seq<byte>, s: nat, e: Element, rest: seq<Element>)
    requires ProperElement(e) && ProperElements(rest) && At(c, s, ElementText(e))
    requires
      var n := s + |ElementText(e)|;
      rest != [] ==> n < |c| && c[n] == COMMA && At(c, n + 1, ElementsText(rest))
    ensures
      var es := [e] + rest;
      && ProperElements(es) && Values(es) == [ElementValue(e)] + Values(rest) && At(c, s, ElementsText(es))
      && (rest == [] ==> Values(es) == [ElementValue(e)])
      && |ElementsText(es)| == |ElementText(e)| + if rest == [] then 0 else 1 + |ElementsText(rest)|
  {
    hide At, ElementText, ElementValue, ProperElement;
    var es := [e] + rest;
    assert es[1..] == rest;
    var n := s + |ElementText(e)|;
    if rest == [] {
      assert ElementsText(es) == ElementText(e);
    } else {
      ByteAt(c, n, 44);
      AtConcat(c, s, ElementText(e), [44]);
      AtConcat(c, s, ElementText(e) + [44], ElementsText(rest));
    }
  }

  lemma {:induction false} ElementsFound(c: seq<byte>, s: nat, depth: nat) returns (es: seq<Element>)
    requires NulEnded(c) && s < |c| && Items(c, s, depth).Done?
    ensures ProperElements(es) && At(c, s, ElementsText(es))
    ensures s + |ElementsText(es)| < |c| && c[s + |ElementsText(es)|] == RBRACKET
    ensures Items(c, s, depth) == Done(Values(es), s + |ElementsText(es)| + 1)
    decreases |c| - s, 3
  {
    hide At, Items, ParseValue, Skip, Text, Value, Proper, ElementText, ElementsText, ProperElements, Values, Blank;
    ItemsMore(c, s, depth);
    var v := Skip(c, s);
    var next := ParseValue(c, v, depth).next;
    var n := Skip(c, next);
    var value := SyntaxFound(c, v, depth);
    var e := Element(c[s..v], value, c[next..n]);
    SkippedBlank(c, s);
    SkippedBlank(c, next);
    ElementFound(c, s, v, next, n, e);
    var rest: seq<Element> := [];
    if c[n] == COMMA {
      rest := ElementsFound(c, n + 1, depth);
      ItemsNonempty(c, n + 1, depth, rest);
    } else {
      NoElements();
      NoneProper();
    }
    PutElementFirst(c, s, e, rest);
    es := [e] + rest;
  }

  lemma ItemsNonempty(c: seq<byte>, s: nat, depth: nat, es: seq<Element>)
    requires NulEnded(c) && s < |c| && ProperElements(es) && Items(c, s, depth).Done? && Items(c, s, depth).value == Values(es)
    ensures es != []
  {
    NoElements();
  }

  lemma {:induction false} RecordFound(c: seq<byte>, off: nat, depth: nat)
    returns (open: seq<byte>, es: seq<Entry>)
    requires NulEnded(c) && off < |c| && c[off] == LBRACE && ParseObject(c, off, depth).Done?
    ensures Blank(open) && ProperEntries(es) && At(c, off, [123] + open + EntriesText(es) + [125])
    ensures ParseObject(c, off, depth) == Done(Object(MembersOf(es)), off + |open| + |EntriesText(es)| + 2)
    decreases |c| - off, 1
  {
    hide At, Members, Skip, EntriesText, ProperEntries, MembersOf, Blank;
    var o := Skip(c, off + 1);
    open, es := c[off + 1..o], [];
    SkippedBlank(c, off + 1);
    AtHere(c, off + 1, o);
    if c[o] == RBRACE {
      NoElements();
      NoneProper();
    } else {
      es := EntriesFound(c, o, depth + 1);
    }
    ByteAt(c, off, 123);
    ByteAt(c, o + |EntriesText(es)|, 125);
    AtConcat(c, off, [123], open);
    assert EntriesText(es) == [] ==> [123] + open + EntriesText(es) == [123] + open;
    if EntriesText(es) != [] {
      AtConcat(c, off, [123] + open, EntriesText(es));
    }
    AtConcat(c, off, [123] + open + EntriesText(es), [125]);
  }

  /** The text of one member put together. */
  lemma EntryFound(c: seq<byte>, s: nat, v: nat, n: nat, colon: nat, e: Entry)
    requires s <= v <= n <= colon < |c| && e.before == c[s..v] && e.gap == c[n..colon] && c[colon] == COLON
    requires At(c, v, e.name) && n == v + |e.name| && At(c, colon + 1, ElementText(e.element))
    ensures At(c, s, EntryText(e)) && |EntryText(e)| == colon + 1 - s + |ElementText(e.element)|
  {
    hide At, ElementText;
    AtHere(c, s, v);
    AtHere(c, n, colon);
    ByteAt(c, colon, 58);
    AtConcat(c, s, e.before, e.name);
    AtConcat(c, s, e.before + e.name, e.gap);
    AtConcat(c, s, e.before + e.name + e.gap, [58]);
    AtConcat(c, s, e.before + e.name + e.gap + [58], ElementText(e.element));
  }

  lemma {:induction false} MemberFound(c: seq<byte>, s: nat, depth: nat) returns (e: Entry)
    requires NulEnded(c) && s < |c| && ParseMember(c, s, depth).Done?
    ensures ProperEntry(e) && At(c, s, EntryText(e))
    ensures ParseMember(c, s, depth).value == MemberOf(e)
    ensures Skip(c, ParseMember(c, s, depth).next) == s + |EntryText(e)|
    decreases |c| - s, 3
  {
    hide At, ParseMember, ParseString, ParseValue, Skip, Text, Value, Proper, ElementText, EntryText, Blank, IsLiteral,
      LiteralValue;
    MemberUnfold(c, s, depth);
    var v := Skip(c, s);
    var n := ParseString(c, v, depth).next;
    var colon := Skip(c, n);
    var w := Skip(c, colon + 1);
    var next := ParseValue(c, w, depth).next;
    var last := Skip(c, next);
    var name := LiteralFound(c, v, depth);
    var value := SyntaxFound(c, w, depth);
    SkippedBlank(c, s);
    SkippedBlank(c, n);
    SkippedBlank(c, colon + 1);
    SkippedBlank(c, next);
    var element := Element(c[colon + 1..w], value, c[next..last]);
    ElementFound(c, colon + 1, w, next, last, element);
    e := Entry(c[s..v], name, c[n..colon], element);
    EntryFound(c, s, v, n, colon, e);
  }

  lemma PutEntryFirst(c: seq<byte>, s: nat, e: Entry, rest: seq<Entry>)
    requires ProperEntry(e) && ProperEntries(rest) && At(c, s, EntryText(e))
    requires
      var n := s + |EntryText(e)|;
      rest != [] ==> n < |c| && c[n] == COMMA && At(c, n + 1, EntriesText(rest))
    ensures
      var es := [e] + rest;
      && ProperEntries(es) && MembersOf(es) == [MemberOf(e)] + MembersOf(rest) && At(c, s, EntriesText(es))
      && (rest == [] ==> MembersOf(es) == [MemberOf(e)])
      && |EntriesText(es)| == |EntryText(e)| + if rest == [] then 0 else 1 + |EntriesText(rest)|
  {
    hide At, EntryText, MemberOf, ProperEntry;
    var es := [e] + rest;
    assert es[1..] == rest;
    var n := s + |EntryText(e)|;
    if rest == [] {
      assert EntriesText(es) == EntryText(e);
    } else {
      ByteAt(c, n, 44);
      AtConcat(c, s, EntryText(e), [44]);
      AtConcat(c, s, EntryText(e) + [44], EntriesText(rest));
    }
  }

  lemma {:induction false} EntriesFound(c: seq<byte>, s: nat, depth: nat) returns (es: seq<Entry>)
    requires NulEnded(c) && s < |c| && Members(c, s, depth).Done?
    ensures ProperEntries(es) && At(c, s, EntriesText(es))
    ensures s + |EntriesText(es)| < |c| && c[s + |EntriesText(es)|] == RBRACE
    ensures Members(c, s, depth) == Done(MembersOf(es), s + |EntriesText(es)| + 1)
    decreases |c| - s, 4
  {
    hide At, Members, ParseMember, Skip, EntryText, EntriesText, ProperEntry, ProperEntries, MemberOf, MembersOf;
    MembersMoreOrLast(c, s, depth);
    var n := Skip(c, ParseMember(c, s, depth).next);
    var e := MemberFound(c, s, depth);
    var rest: seq<Entry> := [];
    if c[n] == COMMA {
      rest := EntriesFound(c, n + 1, depth);
      MembersNonempty(c, n + 1, depth, rest);
    } else {
      NoElements();
      NoneProper();
    }
    PutEntryFirst(c, s, e, rest);
    es := [e] + rest;
  }

  lemma MembersNonempty(c: seq<byte>, s: nat, depth: nat, es: seq<Entry>)
    requires NulEnded(c) && s < |c| && ProperEntries(es) && Members(c, s, depth).Done?
    requires Members(c, s, depth).value == MembersOf(es)
    ensures es != []
  {
    NoElements();
  }

  // ---- whole texts ----

  /** A text: perhaps a byte order mark, white space, a value and white space. */
  datatype Document = Document(mark: bool, before: seq<byte>, value: Syntax, after: seq<byte>)

  function DocumentText(d: Document): seq<byte> {
    (if d.mark then [0xEF, 0xBB, 0xBF] else []) + d.before + Text(d.value) + d.after
  }

  predicate ProperDocument(d: Document) {
    Blank(d.before) && Proper(d.value) && Blank(d.after) && Nesting(Value(d.value)) <= NESTING_LIMIT
  }

  lemma DocumentRead(c: seq<byte>, d: Document)
    requires Terminated(c) && ProperDocument(d) && c == DocumentText(d) + [NUL]
    ensures ParseText(c, true) == Done(Value(d.value), |c| - 1)
  {
    hide At, Text, ParseValue, Skip, Proper, Value, Nesting, Blank, IsNumberChar;
    var mark: seq<byte> := if d.mark then [0xEF, 0xBB, 0xBF] else [];
    var t := Text(d.value);
    AtPrefix(mark + d.before + t + d.after, [NUL]);
    AtConcat(c, 0, mark + d.before + t, d.after);
    AtConcat(c, 0, mark + d.before, t);
    AtConcat(c, 0, mark, d.before);
    var o := |mark| + |d.before|;
    var e := o + |t|;
    SyntaxStarts(d.value);
    AtIndex(c, o, t, 0);
    BlankSkip(c, |mark|, d.before);
    SkipTo(c, o, o);
    MarkSkipped(c, d.mark, o);
    BlankNoNumber(c, e, d.after) by { NulNoNumber(); }
    SyntaxRead(c, o, 0, d.value);
    BlankToEnd(c, e, d.after);
    EndRequirement(c);
  }

  lemma NulNoNumber()
    ensures !IsNumberChar(NUL)
  {
  }

  lemma BlankToEnd(c: seq<byte>, e: nat, b: seq<byte>)
    requires NulEnded(c) && At(c, e, b) && Blank(b) && e + |b| + 1 == |c|
    ensures BlankFrom(c, e)
  {
    AtAll(c, e, b);
  }

  /** The mark is skipped where there is one, and nothing else is taken for it. */
  lemma MarkSkipped(c: seq<byte>, mark: bool, o: nat)
    requires |c| > o + 1 && (if mark then At(c, 0, [0xEF, 0xBB, 0xBF]) && o >= 3 else Skip(c, 0) == o && c[o] < 128)
    ensures SkipBom(c) == if mark then 3 else 0
  {
    if At(c, 0, BOM) {
      AtIndex(c, 0, BOM, 0);
    }
  }

  lemma DocumentFound(c: seq<byte>) returns (d: Document)
    requires Terminated(c) && ParseText(c, true).Done?
    ensures ProperDocument(d) && c == DocumentText(d) + [NUL]
    ensures ParseText(c, true) == Done(Value(d.value), |c| - 1)
  {
    hide At, Text, ParseValue, Skip, Proper, Value, Nesting, Blank;
    var b := SkipBom(c);
    var o := Skip(c, b);
    var value := SyntaxFound(c, o, 0);
    var e := o + |Text(value)|;
    d := Document(b == 3, c[b..o], value, c[e..|c| - 1]);
    AcceptedNesting(c, o, 0);
    EndRequirement(c);
    SkippedBlank(c, b);
    BlankBefore(c, e);
    AtHere(c, b, o);
    AtHere(c, e, |c| - 1);
    var mark: seq<byte> := if d.mark then [0xEF, 0xBB, 0xBF] else [];
    assert At(c, 0, mark) by {
      if !d.mark {
        AtHere(c, 0, 0);
      }
    }
    AtConcat(c, 0, mark, d.before);
    AtConcat(c, 0, mark + d.before, Text(value));
    AtConcat(c, 0, mark + d.before + Text(value), d.after);
    AllOf(c, DocumentText(d));
  }

  lemma BlankBefore(c: seq<byte>, e: nat)
    requires e < |c| && BlankFrom(c, e)
    ensures Blank(c[e..|c| - 1])
  {
  }

  lemma AllOf(c: seq<byte>, t: seq<byte>)
    requires NulEnded(c) && At(c, 0, t) && |t| + 1 == |c|
    ensures c == t + [NUL]
  {
  }

  /** The language of the parser. A text that must end behind its value is accepted, with a given value, exactly when it
      is written as a document within the nesting limit that stands for this value. */
  lemma AcceptedExactly(c: seq<byte>, j: Json)
    requires Terminated(c)
    ensures ParseText(c, true).Done? && ParseText(c, true).value == j <==>
              exists d :: ProperDocument(d) && c == DocumentText(d) + [NUL] && Value(d.value) == j
  {
    hide ParseText, DocumentText, Value, Proper, Blank, Nesting;
    if ParseText(c, true).Done? {
      var d := DocumentFound(c);
      assert Value(d.value) == ParseText(c, true).value;
    }
    forall d | ProperDocument(d) && c == DocumentText(d) + [NUL]
      ensures ParseText(c, true) == Done(Value(d.value), |c| - 1)
    {
      DocumentRead(c, d);
    }
  }
}

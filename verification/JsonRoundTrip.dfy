/** Printed text, formatted or not, parses back to the tree it was printed from. */
module JsonRoundTrip {
  import opened Bytes
  import opened JsonTree
  import opened JsonNumber
  import opened JsonString
  import opened JsonGrammar
  import opened JsonRender

  // ---- white space ----

  lemma {:induction false} SkipTo(c: seq<byte>, i: nat, j: nat)
    requires i <= j < |c| && c[j] > SPACE
    requires forall k :: i <= k < j ==> c[k] <= SPACE
    ensures Skip(c, i) == j
    decreases j - i
  {
    if i < j {
      SkipTo(c, i + 1, j);
    }
  }

  /** Skipping from inside the white space lands on the same byte. */
  lemma {:induction false} SkipFurther(c: seq<byte>, i: nat, j: nat)
    requires i <= j < |c|
    requires forall k :: i <= k < j ==> c[k] <= SPACE
    ensures Skip(c, i) == Skip(c, j)
    decreases j - i
  {
    if i < j {
      SkipFurther(c, i + 1, j);
    }
  }

  // ---- strings ----

  lemma EscapedRound(c: seq<byte>, p: nat, end: nat, b: byte)
    requires At(c, p, Escaped(b)) && p + |Escaped(b)| <= end < |c| && b != NUL
    ensures Round(c, p, end) == (|Escaped(b)|, [b])
  {
    var t := Escaped(b);
    AtIndex(c, p, t, 0);
    if |t| > 1 {
      AtIndex(c, p, t, 1);
    }
    if |t| == 6 {
      AtIndex(c, p, t, 2);
      AtIndex(c, p, t, 3);
      AtIndex(c, p, t, 4);
      AtIndex(c, p, t, 5);
      assert Hex4(c, p + 2) == b;
    }
  }

  lemma EscapedScan(c: seq<byte>, p: nat, b: byte)
    requires At(c, p, Escaped(b)) && p + |Escaped(b)| < |c| && b != NUL
    ensures Scan(c, p) == Scan(c, p + |Escaped(b)|)
  {
    var t := Escaped(b);
    AtIndex(c, p, t, 0);
    if |t| == 6 {
      AtIndex(c, p, t, 2);
      AtIndex(c, p, t, 3);
      AtIndex(c, p, t, 4);
      AtIndex(c, p, t, 5);
      assert Scan(c, p + 2) == Scan(c, p + 3) == Scan(c, p + 4) == Scan(c, p + 5) == Scan(c, p + 6);
    }
  }

  lemma {:induction false} EscapedAllReadsBack(c: seq<byte>, p: nat, s: seq<byte>)
    requires NUL !in s && At(c, p, EscapedAll(s))
    requires p + |EscapedAll(s)| < |c| && c[p + |EscapedAll(s)|] == QUOTE
    ensures
      var end := p + |EscapedAll(s)|;
      Scan(c, p) == Some(end) && Unescape(c, p, end) == Unescaped(true, s, end)
    decreases |s|
  {
    hide Round, Escaped, At;
    if s != [] {
      var t := Escaped(s[0]);
      AtConcat(c, p, t, EscapedAll(s[1..]));
      EscapedRound(c, p, p + |EscapedAll(s)|, s[0]);
      EscapedScan(c, p, s[0]);
      EscapedAllReadsBack(c, p + |t|, s[1..]);
      assert s == [s[0]] + s[1..];
    }
  }

  lemma StringReadsBack(c: seq<byte>, off: nat, depth: nat, s: seq<byte>)
    requires NulEnded(c) && NUL !in s && At(c, off, Quoted(s))
    ensures off + |Quoted(s)| < |c|
    ensures ParseString(c, off, depth) == Done(s, off + |Quoted(s)|)
  {
    hide At, Scan, Unescape, EscapedAll, CStr;
    AtConcat(c, off, [QUOTE] + EscapedAll(s), [QUOTE]);
    AtConcat(c, off, [QUOTE], EscapedAll(s));
    AtIndex(c, off, [QUOTE], 0);
    AtIndex(c, off + 1 + |EscapedAll(s)|, [QUOTE], 0);
    EscapedAllReadsBack(c, off + 1, s);
    CStrOfNulFree(s, []);
    assert s + [] == s;
  }

  // ---- numbers ----

  lemma {:induction false} CollectsText(c: seq<byte>, off: nat, i: nat, t: seq<byte>)
    requires At(c, off, t) && i + |t| <= COLLECT_LIMIT
    requires forall k :: 0 <= k < |t| ==> IsNumberChar(t[k])
    requires off + |t| < |c| && !IsNumberChar(c[off + |t|])
    ensures Collect(c, off, i) == t
    decreases |t|
  {
    if t != [] {
      assert t == [t[0]] + t[1..];
      AtConcat(c, off, [t[0]], t[1..]);
      AtIndex(c, off, t, 0);
      CollectsText(c, off + 1, i + 1, t[1..]);
    }
  }

  // ---- trees ----

  /** The trees whose text can be read back: no raw items, numbers whose text reads back. */
  ghost predicate Readable(j: Json, num: NumberText)
    decreases j, 1
  {
    match j
    case Number(value) => ReadsBack(num(value), value)
    case String(s) => NUL !in s
    case Raw(_) => false
    case Array(items) => ReadableItems(items, num)
    case Object(members) => ReadableMembers(members, num)
    case _ => true
  }

  ghost predicate ReadableItems(items: seq<Json>, num: NumberText)
    decreases items, 0
  {
    items == [] || (Readable(items[0], num) && ReadableItems(items[1..], num))
  }

  ghost predicate ReadableMembers(members: seq<Member>, num: NumberText)
    decreases members, 0
  {
    members == [] ||
    (NUL !in members[0].key && Readable(members[0].value, num) && ReadableMembers(members[1..], num))
  }

  /** A text starts with the first byte of a value. */
  predicate StartsValue(t: seq<byte>) {
    |t| > 0 && SPACE < t[0] < 128 && t[0] != RBRACKET && t[0] != RBRACE
  }

  lemma RenderStarts(j: Json, fmt: bool, d: nat, num: NumberText)
    requires Readable(j, num)
    ensures StartsValue(Render(j, fmt, d, num))
  {
  }

  /** A value's text parses to the value; behind a number stands a byte that cannot continue it. */
  lemma {:induction false} ValueReadsBack(
    c: seq<byte>, off: nat, depth: nat, j: Json, fmt: bool, d: nat, num: NumberText)
    requires NulEnded(c) && Readable(j, num) && depth + Nesting(j) <= NESTING_LIMIT
    requires At(c, off, Render(j, fmt, d, num))
    requires off + |Render(j, fmt, d, num)| < |c|
    requires j.Number? ==> !IsNumberChar(c[off + |Render(j, fmt, d, num)|])
    ensures off < |c| && ParseValue(c, off, depth) == Done(j, off + |Render(j, fmt, d, num)|)
    decreases j, 1
  {
    hide At, ParseValue, ParseArray, ParseObject, ParseString, Quoted, RenderItems, RenderMembers,
      Strtod, Collect, ReadableItems, ReadableMembers;
    var t := Render(j, fmt, d, num);
    RenderStarts(j, fmt, d, num);
    AtIndex(c, off, t, 0);
    Dispatch(c, off, depth);
    match j {
      case Null =>
      case False =>
      case True =>
      case Number(value) =>
        CollectsText(c, off, 0, t);
      case String(s) =>
        StringReadsBack(c, off, depth, s);
      case Array(items) =>
        ArrayReadsBack(c, off, depth, items, fmt, d, num);
      case Object(members) =>
        ObjectReadsBack(c, off, depth, members, fmt, d, num);
    }
  }

  lemma {:induction false} ArrayReadsBack(
    c: seq<byte>, off: nat, depth: nat, items: seq<Json>, fmt: bool, d: nat, num: NumberText)
    requires NulEnded(c) && ReadableItems(items, num) && depth + 1 + NestingOfItems(items) <= NESTING_LIMIT
    requires At(c, off, Render(Array(items), fmt, d, num))
    ensures off < |c| && c[off] == LBRACKET
    ensures ParseArray(c, off, depth) == Done(Array(items), off + |Render(Array(items), fmt, d, num)|)
    decreases items, 2
  {
    hide At, ParseValue, ParseArray, ParseObject, Items, Skip, Readable;
    var inner := RenderItems(items, fmt, d + 1, num);
    AtConcat(c, off, [LBRACKET] + inner, [RBRACKET]);
    AtConcat(c, off, [LBRACKET], inner);
    AtIndex(c, off, [LBRACKET], 0);
    ArrayStep(c, off, depth);
    var e := off + 1 + |inner|;
    AtIndex(c, e, [RBRACKET], 0);
    if items == [] {
      SkipTo(c, off + 1, off + 1);
    } else {
      RenderStarts(items[0], fmt, d + 1, num);
      AtIndex(c, off + 1, inner, 0);
      SkipTo(c, off + 1, off + 1);
      ItemsReadBack(c, off + 1, off + 1, depth + 1, items, fmt, d + 1, num);
    }
  }

  /** Where the pieces of the elements' text stand. */
  lemma ItemsLayout(c: seq<byte>, off: nat, items: seq<Json>, fmt: bool, d: nat, num: NumberText)
    requires items != [] && ReadableItems(items, num) && At(c, off, RenderItems(items, fmt, d, num))
    ensures At(c, off, Render(items[0], fmt, d, num))
    ensures StartsValue(Render(items[0], fmt, d, num))
    ensures
      var e := off + |Render(items[0], fmt, d, num)|;
      if |items| == 1 then e == off + |RenderItems(items, fmt, d, num)|
      else
        var f := if fmt then e + 2 else e + 1;
        e < |c| && c[e] == COMMA && f < |c| && c[f] > SPACE && (f == e + 2 ==> c[e + 1] == SPACE)
        && At(c, f, RenderItems(items[1..], fmt, d, num))
        && f + |RenderItems(items[1..], fmt, d, num)| == off + |RenderItems(items, fmt, d, num)|
  {
    hide At, Render, Readable;
    var v := Render(items[0], fmt, d, num);
    var sep := Opt(|items| > 1, ItemSeparator(fmt));
    var rest := RenderItems(items[1..], fmt, d, num);
    AtConcat(c, off, v + sep, rest);
    AtConcat(c, off, v, sep);
    RenderStarts(items[0], fmt, d, num);
    var e := off + |v|;
    if |items| > 1 {
      AtIndex(c, e, sep, 0);
      AtIndex(c, e, sep, |sep| - 1);
      RenderStarts(items[1], fmt, d, num);
      AtIndex(c, e + |sep|, rest, 0);
    } else {
      assert items[1..] == [];
    }
  }

  lemma {:induction false} ItemsReadBack(
    c: seq<byte>, s: nat, off: nat, depth: nat, items: seq<Json>, fmt: bool, d: nat, num: NumberText)
    requires NulEnded(c) && items != [] && ReadableItems(items, num)
    requires depth + NestingOfItems(items) <= NESTING_LIMIT
    requires At(c, off, RenderItems(items, fmt, d, num))
    requires off + |RenderItems(items, fmt, d, num)| < |c|
    requires c[off + |RenderItems(items, fmt, d, num)|] == RBRACKET
    requires s < |c| && off < |c| && Skip(c, s) == off
    ensures Items(c, s, depth) == Done(items, off + |RenderItems(items, fmt, d, num)| + 1)
    decreases items, 0
  {
    hide At, ParseValue, Items, Render, RenderItems, Readable, Nesting, Skip;
    ItemsUnfold(c, s, depth, []);
    PrependNothing(Items(c, s, depth));
    ItemsLayout(c, off, items, fmt, d, num);
    ValueReadsBack(c, off, depth, items[0], fmt, d, num);
    var e := off + |Render(items[0], fmt, d, num)|;
    SkipTo(c, e, e);
    assert [] + [items[0]] == [items[0]];
    if |items| > 1 {
      var f := if fmt then e + 2 else e + 1;
      SkipTo(c, e + 1, f);
      ItemsReadBack(c, e + 1, f, depth, items[1..], fmt, d, num);
      assert items == [items[0]] + items[1..];
    } else {
      assert items == [items[0]];
    }
  }

  lemma RenderNoMembers(fmt: bool, d: nat, num: NumberText)
    ensures RenderMembers([], fmt, d, num) == []
  {
  }

  lemma TabsAt(c: seq<byte>, off: nat, fmt: bool, n: nat)
    requires At(c, off, Opt(fmt, Tabs(n)))
    ensures forall k :: off <= k < off + |Opt(fmt, Tabs(n))| ==> k < |c| && c[k] == TAB
  {
    AtAll(c, off, Opt(fmt, Tabs(n)));
  }

  /** Where the pieces of an object's text stand. */
  lemma ObjectLayout(c: seq<byte>, off: nat, members: seq<Member>, fmt: bool, d: nat, num: NumberText)
    requires At(c, off, Render(Object(members), fmt, d, num))
    ensures
      var i := off + 1 + |Opt(fmt, [LF])|;
      var e := i + |RenderMembers(members, fmt, d + 1, num)|;
      var close := off + |Render(Object(members), fmt, d, num)| - 1;
      && off < |c| && c[off] == LBRACE
      && (forall k :: off < k < i ==> k < |c| && c[k] == LF)
      && At(c, i, RenderMembers(members, fmt, d + 1, num))
      && e <= close < |c| && c[close] == RBRACE
      && (forall k :: e <= k < close ==> c[k] == TAB)
      && (members == [] ==> e == i)
  {
    hide At, MemberHead, Tabs, RenderMembers;
    assert members == [] ==> RenderMembers(members, fmt, d + 1, num) == [] by { RenderNoMembers(fmt, d + 1, num); }
    var open := [LBRACE] + Opt(fmt, [LF]);
    var inner := RenderMembers(members, fmt, d + 1, num);
    var tail := Opt(fmt, Tabs(d));
    AtConcat(c, off, open + inner + tail, [RBRACE]);
    AtConcat(c, off, open + inner, tail);
    AtConcat(c, off, open, inner);
    AtIndex(c, off, open, 0);
    AtIndex(c, off, open, |open| - 1);
    TabsAt(c, off + |open| + |inner|, fmt, d);
    AtIndex(c, off + |open| + |inner| + |tail|, [RBRACE], 0);
  }

  lemma {:induction false} ObjectReadsBack(
    c: seq<byte>, off: nat, depth: nat, members: seq<Member>, fmt: bool, d: nat, num: NumberText)
    requires NulEnded(c) && ReadableMembers(members, num)
    requires depth + 1 + NestingOfMembers(members) <= NESTING_LIMIT
    requires At(c, off, Render(Object(members), fmt, d, num))
    ensures off < |c| && c[off] == LBRACE
    ensures ParseObject(c, off, depth) == Done(Object(members), off + |Render(Object(members), fmt, d, num)|)
    decreases members, 2
  {
    hide At, ParseValue, ParseArray, ParseObject, Members, RenderMembers, ReadableMembers, NestingOfMembers,
      Skip, Render;
    ObjectLayout(c, off, members, fmt, d, num);
    ObjectStep(c, off, depth);
    var i := off + 1 + |Opt(fmt, [LF])|;
    var e := i + |RenderMembers(members, fmt, d + 1, num)|;
    var close := off + |Render(Object(members), fmt, d, num)| - 1;
    SkipTo(c, e, close);
    SkipFurther(c, off + 1, i);
    if members != [] {
      SkipFurther(c, Skip(c, off + 1), Skip(c, i));
      MembersReadBack(c, Skip(c, off + 1), i, depth + 1, members, fmt, d + 1, num, close);
    }
  }

  /** Where the pieces of a member's text stand: name, colon, value. */
  lemma MemberLayout(c: seq<byte>, off: nat, m: Member, fmt: bool, d: nat, num: NumberText)
    requires Readable(m.value, num)
    requires At(c, off, MemberHead(m.key, fmt, d) + Render(m.value, fmt, d, num))
    ensures
      var q := off + |Opt(fmt, Tabs(d))|;
      var colon := q + |Quoted(m.key)|;
      var w := colon + 1 + |Opt(fmt, [TAB])|;
      && (forall k :: off <= k < q ==> k < |c| && c[k] == TAB)
      && At(c, q, Quoted(m.key)) && q < |c| && c[q] == QUOTE
      && colon < |c| && c[colon] == COLON
      && (forall k :: colon < k < w ==> k < |c| && c[k] == TAB)
      && w < |c| && c[w] > SPACE && At(c, w, Render(m.value, fmt, d, num))
      && w + |Render(m.value, fmt, d, num)| == off + |MemberHead(m.key, fmt, d) + Render(m.value, fmt, d, num)|
  {
    hide At, Quoted, Render, Readable, Tabs;
    var tabs := Opt(fmt, Tabs(d));
    var gap := Opt(fmt, [TAB]);
    var v := Render(m.value, fmt, d, num);
    AtConcat(c, off, tabs + Quoted(m.key) + [COLON] + gap, v);
    AtConcat(c, off, tabs + Quoted(m.key) + [COLON], gap);
    AtConcat(c, off, tabs + Quoted(m.key), [COLON]);
    AtConcat(c, off, tabs, Quoted(m.key));
    TabsAt(c, off, fmt, d);
    var q := off + |tabs|;
    AtIndex(c, q, Quoted(m.key), 0);
    var colon := q + |Quoted(m.key)|;
    AtIndex(c, colon, [COLON], 0);
    if fmt {
      AtIndex(c, colon + 1, gap, 0);
    }
    RenderStarts(m.value, fmt, d, num);
    AtIndex(c, colon + 1 + |gap|, v, 0);
  }

  lemma MemberReadsBack(
    c: seq<byte>, s: nat, off: nat, depth: nat, m: Member, fmt: bool, d: nat, num: NumberText)
    requires NulEnded(c) && NUL !in m.key && Readable(m.value, num)
    requires depth + Nesting(m.value) <= NESTING_LIMIT
    requires At(c, off, MemberHead(m.key, fmt, d) + Render(m.value, fmt, d, num))
    requires
      var e := off + |MemberHead(m.key, fmt, d) + Render(m.value, fmt, d, num)|;
      e < |c| && !IsNumberChar(c[e])
    requires s < |c| && off < |c| && Skip(c, s) == Skip(c, off)
    ensures c[Skip(c, off)] == QUOTE
    ensures ParseMember(c, s, depth)
         == Done(m, off + |MemberHead(m.key, fmt, d) + Render(m.value, fmt, d, num)|)
    decreases m.value, 2
  {
    hide At, ParseValue, ParseString, ParseMember, MemberHead, Quoted, Render, Readable, Nesting, Skip, Tabs, Opt,
      IsNumberChar;
    MemberUnfold(c, s, depth);
    MemberLayout(c, off, m, fmt, d, num);
    var q := off + |Opt(fmt, Tabs(d))|;
    var colon := q + |Quoted(m.key)|;
    var w := colon + 1 + |Opt(fmt, [TAB])|;
    SkipTo(c, off, q);
    StringReadsBack(c, q, depth, m.key);
    SkipTo(c, colon, colon);
    SkipTo(c, colon + 1, w);
    ValueReadsBack(c, w, depth, m.value, fmt, d, num);
  }

  lemma FirstMember(members: seq<Member>, fmt: bool, d: nat, num: NumberText)
    requires members != []
    ensures
      var m := members[0];
      var head := MemberHead(m.key, fmt, d) + Render(m.value, fmt, d, num);
      RenderMembers(members, fmt, d, num)
      == head + MemberTail(|members| > 1, fmt) + RenderMembers(members[1..], fmt, d, num)
    ensures |members| == 1 ==> RenderMembers(members[1..], fmt, d, num) == []
    ensures |members| > 1 ==> RenderMembers(members[1..], fmt, d, num) != []
  {
    hide MemberHead, MemberTail, Render;
    if |members| == 1 {
      assert members[1..] == [];
    }
  }

  lemma TailShape(more: bool, fmt: bool)
    ensures
      var tail := MemberTail(more, fmt);
      && (more ==> tail != [] && tail[0] == COMMA)
      && (forall k :: (if more then 1 else 0) <= k < |tail| ==> tail[k] == LF)
  {
  }

  /** Where the pieces of the members' text stand. */
  lemma MembersLayout(c: seq<byte>, off: nat, members: seq<Member>, fmt: bool, d: nat, num: NumberText)
    requires members != [] && At(c, off, RenderMembers(members, fmt, d, num))
    ensures
      var m := members[0];
      var head := MemberHead(m.key, fmt, d) + Render(m.value, fmt, d, num);
      var e := off + |head|;
      var f := e + |MemberTail(|members| > 1, fmt)|;
      && At(c, off, head)
      && (forall k :: e < k < f ==> k < |c| && c[k] == LF)
      && (|members| == 1 && e < f ==> e < |c| && c[e] == LF)
      && (if |members| == 1 then f == off + |RenderMembers(members, fmt, d, num)|
          else e < f && e < |c| && c[e] == COMMA && At(c, f, RenderMembers(members[1..], fmt, d, num))
               && f < off + |RenderMembers(members, fmt, d, num)|
               && f + |RenderMembers(members[1..], fmt, d, num)| == off + |RenderMembers(members, fmt, d, num)|)
  {
    hide At, MemberHead, MemberTail, Render, RenderMembers;
    var m := members[0];
    var head := MemberHead(m.key, fmt, d) + Render(m.value, fmt, d, num);
    var tail := MemberTail(|members| > 1, fmt);
    var rest := RenderMembers(members[1..], fmt, d, num);
    FirstMember(members, fmt, d, num);
    TailShape(|members| > 1, fmt);
    AtConcat(c, off, head + tail, rest);
    AtConcat(c, off, head, tail);
    AtAll(c, off + |head|, tail);
  }

  /** One member more, or the last one, put in front of what the loop reads after it. */
  lemma MembersMore(c: seq<byte>, s: nat, depth: nat, m: Member, e: nat, rest: seq<Member>, last: nat)
    requires NulEnded(c) && s < |c| && e < |c| && ParseMember(c, s, depth) == Done(m, e)
    requires c[Skip(c, e)] == COMMA && Skip(c, e) + 1 < |c| && Members(c, Skip(c, e) + 1, depth) == Done(rest, last)
    ensures Members(c, s, depth) == Done([m] + rest, last)
  {
    hide ParseMember, Members, Skip;
    MembersUnfold(c, s, depth, []);
    PrependNothing(Members(c, s, depth));
    assert [] + [m] == [m];
  }

  lemma MembersLast(c: seq<byte>, s: nat, depth: nat, m: Member, e: nat)
    requires NulEnded(c) && s < |c| && e < |c| && ParseMember(c, s, depth) == Done(m, e) && c[Skip(c, e)] == RBRACE
    ensures Members(c, s, depth) == Done([m], Skip(c, e) + 1)
  {
    hide ParseMember, Members, Skip;
    MembersUnfold(c, s, depth, []);
    PrependNothing(Members(c, s, depth));
    assert [] + [m] == [m];
  }

  lemma MembersParts(members: seq<Member>, num: NumberText)
    requires members != [] && ReadableMembers(members, num)
    ensures NUL !in members[0].key && Readable(members[0].value, num)
    ensures |members| > 1 ==> ReadableMembers(members[1..], num)
    ensures Nesting(members[0].value) <= NestingOfMembers(members)
    ensures NestingOfMembers(members[1..]) <= NestingOfMembers(members)
  {
  }

  lemma NotNumberChars()
    ensures !IsNumberChar(COMMA) && !IsNumberChar(LF)
  {
  }

  lemma {:induction false} MembersReadBack(
    c: seq<byte>, s: nat, off: nat, depth: nat, members: seq<Member>, fmt: bool, d: nat, num: NumberText,
    close: nat)
    requires NulEnded(c) && members != [] && ReadableMembers(members, num)
    requires depth + NestingOfMembers(members) <= NESTING_LIMIT
    requires At(c, off, RenderMembers(members, fmt, d, num))
    requires
      var e := off + |RenderMembers(members, fmt, d, num)|;
      e < |c| && Skip(c, e) == close && c[close] == RBRACE && !IsNumberChar(c[e])
    requires s < |c| && off < |c| && Skip(c, s) == Skip(c, off)
    ensures c[Skip(c, s)] == QUOTE
    ensures Members(c, s, depth) == Done(members, close + 1)
    decreases members, 0
  {
    hide At, ParseValue, ParseMember, Members, MemberHead, MemberTail, Render, RenderMembers, Readable, Nesting,
      ReadableMembers, NestingOfMembers, Skip, IsNumberChar, Opt, NulEnded;
    MembersParts(members, num);
    MembersLayout(c, off, members, fmt, d, num);
    var m := members[0];
    var e := off + |MemberHead(m.key, fmt, d) + Render(m.value, fmt, d, num)|;
    var f := e + |MemberTail(|members| > 1, fmt)|;
    assert !IsNumberChar(COMMA) && !IsNumberChar(LF) by { NotNumberChars(); }
    MemberReadsBack(c, s, off, depth, m, fmt, d, num);
    if |members| > 1 {
      SkipTo(c, e, e);
      SkipFurther(c, e + 1, f);
      MembersReadBack(c, e + 1, f, depth, members[1..], fmt, d, num, close);
      MembersMore(c, s, depth, m, e, members[1..], close + 1);
      assert members == [m] + members[1..];
    } else {
      SkipFurther(c, e, f);
      MembersLast(c, s, depth, m, e);
      assert members == [m];
    }
  }

  /**
   * Parsing the printed text, formatted or not, and requiring that nothing follows it, gives
   * the tree back, for every tree within the nesting limit whose numbers read back.
   */
  lemma PrintedTextReadsBack(j: Json, fmt: bool, num: NumberText)
    requires Readable(j, num) && Nesting(j) <= NESTING_LIMIT
    ensures
      var t := Render(j, fmt, 0, num);
      ParseText(t + [NUL], true) == Done(j, |t|)
  {
    hide Render, Readable, ParseValue, ParseText, Nesting, Skip, At;
    var t := Render(j, fmt, 0, num);
    var c := t + [NUL];
    RenderStarts(j, fmt, 0, num);
    assert c[0] == t[0];
    assert At(c, 0, t) by { AtPrefix(t, [NUL]); }
    assert !At(c, 0, BOM) by { NoBom(c); }
    SkipTo(c, 0, 0);
    ValueReadsBack(c, 0, 0, j, fmt, 0, num);
    WholeText(c, j, |t|);
  }

  lemma AtPrefix(t: seq<byte>, rest: seq<byte>)
    ensures At(t + rest, 0, t)
  {
    assert (t + rest)[..|t|] == t;
  }

  lemma NoBom(c: seq<byte>)
    requires c != [] && c[0] < 128
    ensures !At(c, 0, BOM)
  {
    if At(c, 0, BOM) {
      AtIndex(c, 0, BOM, 0);
    }
  }

  /** A text that is one value and its terminator. */
  lemma WholeText(c: seq<byte>, j: Json, end: nat)
    requires NulEnded(c) && end + 1 == |c| && !At(c, 0, BOM) && Skip(c, 0) == 0
    requires ParseValue(c, 0, 0) == Done(j, end)
    ensures ParseText(c, true) == Done(j, end)
  {
    hide ParseValue, Skip, At;
  }

  // ---- trees of integers ----

  /** Numbers print as `%1.15g` prints integers below 10^15 in magnitude. */
  ghost predicate PrintsIntegers(num: NumberText) {
    forall n: int :: -1_000_000_000_000_000 < n < 1_000_000_000_000_000 ==> num(n as real) == Decimal(n)
  }

  ghost predicate IntegerTree(j: Json)
    decreases j, 1
  {
    match j
    case Number(value) => IsSmallInteger(value)
    case String(s) => NUL !in s
    case Raw(_) => false
    case Array(items) => IntegerTrees(items)
    case Object(members) => IntegerMembers(members)
    case _ => true
  }

  ghost predicate IsSmallInteger(r: real) {
    r == r.Floor as real && -1_000_000_000_000_000 < r.Floor < 1_000_000_000_000_000
  }

  ghost predicate IntegerTrees(items: seq<Json>)
    decreases items, 0
  {
    items == [] || (IntegerTree(items[0]) && IntegerTrees(items[1..]))
  }

  ghost predicate IntegerMembers(members: seq<Member>)
    decreases members, 0
  {
    members == [] ||
    (NUL !in members[0].key && IntegerTree(members[0].value) && IntegerMembers(members[1..]))
  }

  lemma {:induction false} IntegerTreeReadable(j: Json, num: NumberText)
    requires IntegerTree(j) && PrintsIntegers(num)
    ensures Readable(j, num)
    decreases j, 1
  {
    match j
    case Number(value) => DecimalReadsBack(value.Floor);
    case Array(items) => IntegerTreesReadable(items, num);
    case Object(members) => IntegerMembersReadable(members, num);
    case _ =>
  }

  lemma {:induction false} IntegerTreesReadable(items: seq<Json>, num: NumberText)
    requires IntegerTrees(items) && PrintsIntegers(num)
    ensures ReadableItems(items, num)
    decreases items, 0
  {
    if items != [] {
      IntegerTreeReadable(items[0], num);
      IntegerTreesReadable(items[1..], num);
    }
  }

  lemma {:induction false} IntegerMembersReadable(members: seq<Member>, num: NumberText)
    requires IntegerMembers(members) && PrintsIntegers(num)
    ensures ReadableMembers(members, num)
    decreases members, 0
  {
    if members != [] {
      IntegerTreeReadable(members[0].value, num);
      IntegerMembersReadable(members[1..], num);
    }
  }

  /** The round trip for trees of null, booleans, integers, strings, arrays and objects. */
  lemma IntegerTreeRoundTrip(j: Json, fmt: bool, num: NumberText)
    requires IntegerTree(j) && PrintsIntegers(num) && Nesting(j) <= NESTING_LIMIT
    ensures
      var t := Render(j, fmt, 0, num);
      ParseText(t + [NUL], true) == Done(j, |t|)
  {
    IntegerTreeReadable(j, num);
    PrintedTextReadsBack(j, fmt, num);
  }

  // ---- trees that come from the parser ----

  /** Every number of the tree has a text that reads back. */
  ghost predicate NumbersReadBack(j: Json, num: NumberText)
    decreases j, 1
  {
    match j
    case Number(value) => ReadsBack(num(value), value)
    case Array(items) => ItemsNumbers(items, num)
    case Object(members) => MembersNumbers(members, num)
    case _ => true
  }

  ghost predicate ItemsNumbers(items: seq<Json>, num: NumberText)
    decreases items, 0
  {
    items == [] || (NumbersReadBack(items[0], num) && ItemsNumbers(items[1..], num))
  }

  ghost predicate MembersNumbers(members: seq<Member>, num: NumberText)
    decreases members, 0
  {
    members == [] || (NumbersReadBack(members[0].value, num) && MembersNumbers(members[1..], num))
  }

  lemma {:induction false} AcceptedReadable(c: seq<byte>, off: nat, depth: nat, num: NumberText)
    requires NulEnded(c) && off < |c| && ParseValue(c, off, depth).Done?
    requires NumbersReadBack(ParseValue(c, off, depth).value, num)
    ensures Readable(ParseValue(c, off, depth).value, num)
    decreases |c| - off, 2
  {
    hide ParseNumber, Items, Members, At, Scan, Unescape, Strtod;
    var r := ParseValue(c, off, depth);
    if r.value.Array? && r.value.items != [] {
      assert r == ParseArray(c, off, depth);
      AcceptedItemsReadable(c, Skip(c, off + 1), depth + 1, num);
    } else if r.value.Object? && r.value.members != [] {
      assert r == ParseObject(c, off, depth);
      AcceptedMembersReadable(c, Skip(c, off + 1), depth + 1, num);
    }
  }

  lemma {:induction false} AcceptedItemsReadable(c: seq<byte>, off: nat, depth: nat, num: NumberText)
    requires NulEnded(c) && off < |c| && Items(c, off, depth).Done?
    requires ItemsNumbers(Items(c, off, depth).value, num)
    ensures ReadableItems(Items(c, off, depth).value, num)
    decreases |c| - off, 3
  {
    hide ParseValue, Skip, Readable, NumbersReadBack;
    var v := ParseValue(c, Skip(c, off), depth);
    var items := Items(c, off, depth).value;
    if c[Skip(c, v.next)] == COMMA {
      assert items[1..] == Items(c, Skip(c, v.next) + 1, depth).value;
      AcceptedItemsReadable(c, Skip(c, v.next) + 1, depth, num);
    } else {
      assert items[1..] == [];
    }
    AcceptedReadable(c, Skip(c, off), depth, num);
  }

  lemma {:induction false} AcceptedMemberReadable(c: seq<byte>, off: nat, depth: nat, num: NumberText)
    requires NulEnded(c) && off < |c| && ParseMember(c, off, depth).Done?
    requires NumbersReadBack(ParseMember(c, off, depth).value.value, num)
    ensures
      var m := ParseMember(c, off, depth).value;
      NUL !in m.key && Readable(m.value, num)
    decreases |c| - off, 3
  {
    hide ParseValue, Skip, Readable, NumbersReadBack, Scan, Unescape;
    var key := ParseString(c, Skip(c, off), depth);
    AcceptedReadable(c, Skip(c, Skip(c, key.next) + 1), depth, num);
  }

  lemma {:induction false} AcceptedMembersReadable(c: seq<byte>, off: nat, depth: nat, num: NumberText)
    requires NulEnded(c) && off < |c| && Members(c, off, depth).Done?
    requires MembersNumbers(Members(c, off, depth).value, num)
    ensures ReadableMembers(Members(c, off, depth).value, num)
    decreases |c| - off, 4
  {
    hide ParseMember, Skip, Readable, NumbersReadBack;
    var m := ParseMember(c, off, depth);
    var members := Members(c, off, depth).value;
    if c[Skip(c, m.next)] == COMMA {
      assert members[1..] == Members(c, Skip(c, m.next) + 1, depth).value;
      AcceptedMembersReadable(c, Skip(c, m.next) + 1, depth, num);
    } else {
      assert members[1..] == [];
    }
    AcceptedMemberReadable(c, off, depth, num);
  }

  /** Whatever text is accepted, printing its tree and parsing that gives the tree again. */
  lemma AcceptedTextReprints(c: seq<byte>, requireEnd: bool, fmt: bool, num: NumberText)
    requires NulEnded(c) && ParseText(c, requireEnd).Done?
    requires NumbersReadBack(ParseText(c, requireEnd).value, num)
    ensures
      var j := ParseText(c, requireEnd).value;
      var t := Render(j, fmt, 0, num);
      ParseText(t + [NUL], true) == Done(j, |t|)
  {
    hide ParseValue, Render;
    AcceptedReadable(c, Skip(c, SkipBom(c)), 0, num);
    AcceptedNesting(c, Skip(c, SkipBom(c)), 0);
    PrintedTextReadsBack(ParseText(c, requireEnd).value, fmt, num);
  }
}

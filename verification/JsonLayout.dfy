/** How printed text is laid out, read off the text alone: the unformatted text has nothing between its tokens, the
    formatted one is the unformatted one indented, and minifying takes the one back to the other. */
module JsonLayout {
  import opened Bytes
  import opened JsonTree
  import opened JsonNumber
  import opened JsonGrammar
  import opened JsonLiteral
  import opened JsonString
  import opened JsonRender
  import opened JsonRoundTrip
  import opened JsonMinify
  import opened JsonMinifyPieces
  import opened JsonOutside

  predicate Visible(b: byte) {
    b > 32
  }

  /** That many tabs. */
  function Margin(n: nat): (t: seq<byte>)
    ensures |t| == n && forall k :: 0 <= k < n ==> t[k] == 9
  {
    seq(n, _ => 9)
  }

  function Pop(open: seq<bool>): (r: seq<bool>)
    ensures |open| > 0 ==> |r| == |open| - 1
  {
    if open == [] then [] else open[..|open| - 1]
  }

  /** The text from `i` on, laid out. `open` tells of each bracket that is open whether it is a brace. A member stands
      on its own line, behind a tab for each open bracket, and so does a closing brace; a name's colon is followed by a
      tab, a comma between elements by a space. Literals stay as they are. */
  function Indent(t: seq<byte>, i: nat, open: seq<bool>): seq<byte>
    requires i <= |t|
    decreases |t| - i
  {
    if i == |t| then []
    else if t[i] == QUOTE then t[i..AfterLiteral(t, i + 1)] + Indent(t, AfterLiteral(t, i + 1), open)
    else if t[i] == LBRACE && i + 1 < |t| && t[i + 1] == RBRACE then
      [LBRACE, LF] + Margin(|open|) + [RBRACE] + Indent(t, i + 2, open)
    else if t[i] == LBRACE then [LBRACE, LF] + Margin(|open| + 1) + Indent(t, i + 1, open + [true])
    else if t[i] == RBRACE then [LF] + Margin(|Pop(open)|) + [RBRACE] + Indent(t, i + 1, Pop(open))
    else if t[i] == LBRACKET then [LBRACKET] + Indent(t, i + 1, open + [false])
    else if t[i] == RBRACKET then [RBRACKET] + Indent(t, i + 1, Pop(open))
    else if t[i] == COMMA && open != [] && open[|open| - 1] then
      [COMMA, LF] + Margin(|open|) + Indent(t, i + 1, open)
    else if t[i] == COMMA then [COMMA, SPACE] + Indent(t, i + 1, open)
    else if t[i] == COLON then [COLON, TAB] + Indent(t, i + 1, open)
    else [t[i]] + Indent(t, i + 1, open)
  }

  // ---- literals and words ----

  lemma {:induction false} EscapedCloses(s: seq<byte>)
    requires NUL !in s
    ensures ClosesOnce(EscapedAll(s) + [QUOTE])
  {
    if s == [] {
      assert EscapedAll(s) + [QUOTE] == [QUOTE];
    } else {
      EscapedCloses(s[1..]);
      var rest := EscapedAll(s[1..]) + [QUOTE];
      assert EscapedAll(s) + [QUOTE] == Escaped(s[0]) + rest;
      OneEscapedCloses(s[0], rest);
    }
  }

  /** What stands for a byte inside a literal: the byte itself, unless it is a control character, a quote or a backslash;
      then its letter if it has one, else its two lower-case hexadecimal digits. A slash is not escaped. */
  lemma EscapedIs(b: byte)
    ensures var e := Escaped(b);
      if b >= 32 && b != QUOTE && b != BACKSLASH then e == [b]
      else if b in {8, 9, 10, 12, 13, 34, 92} then
        |e| == 2 && e[0] == BACKSLASH && e[1] in SHORT && SHORT[e[1]] == b
      else
        e == [BACKSLASH, 'u' as int, '0' as int, '0' as int, LOWER_DIGITS[b / 16] as int, LOWER_DIGITS[b % 16] as int]
  {
  }

  lemma OneEscapedCloses(b: byte, rest: seq<byte>)
    requires b != NUL && ClosesOnce(rest)
    ensures ClosesOnce(Escaped(b) + rest)
  {
    hide ClosesOnce, Escaped;
    var e := Escaped(b);
    EscapedIs(b);
    if |e| == 1 {
      ClosesPast(e[0], rest);
    } else if |e| == 2 {
      ClosesPastEscape(e[1], rest);
      assert e == [BACKSLASH, e[1]];
    } else {
      DigitIsPlain(b / 16);
      DigitIsPlain(b % 16);
      SixClose(e, rest);
    }
  }

  lemma DigitIsPlain(v: nat)
    requires v < 16
    ensures LOWER_DIGITS[v] as int != QUOTE && LOWER_DIGITS[v] as int != BACKSLASH
  {
  }

  lemma SixClose(e: seq<byte>, rest: seq<byte>)
    requires |e| == 6 && e[0] == BACKSLASH && ClosesOnce(rest)
    requires forall k :: 2 <= k < 6 ==> e[k] != QUOTE && e[k] != BACKSLASH
    ensures ClosesOnce(e + rest)
  {
    hide ClosesOnce;
    ClosesPast(e[5], rest);
    ClosesPast(e[4], [e[5]] + rest);
    ClosesPast(e[3], [e[4]] + ([e[5]] + rest));
    ClosesPast(e[2], [e[3]] + ([e[4]] + ([e[5]] + rest)));
    var four := [e[2]] + ([e[3]] + ([e[4]] + ([e[5]] + rest)));
    ClosesPastEscape(e[1], four);
    assert e + rest == [BACKSLASH, e[1]] + four;
  }

  lemma ClosesPast(b: byte, rest: seq<byte>)
    requires b != QUOTE && b != BACKSLASH && ClosesOnce(rest)
    ensures ClosesOnce([b] + rest)
  {
    assert ([b] + rest)[1..] == rest;
  }

  lemma ClosesPastEscape(b: byte, rest: seq<byte>)
    requires ClosesOnce(rest)
    ensures ClosesOnce([BACKSLASH, b] + rest)
  {
    assert ([BACKSLASH, b] + rest)[2..] == rest;
  }

  /** The quoted text of a string is one literal. */
  lemma QuotedIsLiteral(s: seq<byte>)
    requires NUL !in s
    ensures var t := Quoted(s); t[0] == QUOTE && ClosesOnce(t[1..]) && NUL !in t
  {
    EscapedCloses(s);
    assert Quoted(s)[1..] == EscapedAll(s) + [QUOTE];
  }

  /** Bytes that no layout touches. */
  predicate IsWord(t: seq<byte>) {
    forall k :: 0 <= k < |t| ==>
      t[k] > 32 && t[k] != QUOTE && t[k] != SLASH && t[k] != COMMA && t[k] != COLON
      && t[k] != LBRACE && t[k] != RBRACE && t[k] != LBRACKET && t[k] != RBRACKET
  }

  lemma {:induction false} WordMin(c: seq<byte>, i: nat, t: seq<byte>)
    requires NulEnded(c) && IsWord(t) && At(c, i, t) && i + |t| < |c|
    ensures Min(c, i) == t + Min(c, i + |t|)
    decreases |t|
  {
    hide At;
    if t != [] {
      AtIndex(c, i, t, 0);
      assert t == [t[0]] + t[1..];
      AtConcat(c, i, [t[0]], t[1..]);
      WordMin(c, i + 1, t[1..]);
    }
  }

  lemma WordByte(c: seq<byte>, i: nat, open: seq<bool>)
    requires i < |c| && IsWord([c[i]])
    ensures Indent(c, i, open) == [c[i]] + Indent(c, i + 1, open)
    ensures Outside(c, i + 1, Visible) ==> Outside(c, i, Visible)
  {
    assert [c[i]][0] == c[i];
  }

  lemma {:induction false} WordIndents(c: seq<byte>, i: nat, t: seq<byte>, open: seq<bool>)
    requires IsWord(t) && At(c, i, t)
    ensures i + |t| <= |c|
    ensures Indent(c, i, open) == t + Indent(c, i + |t|, open)
    ensures Outside(c, i + |t|, Visible) ==> Outside(c, i, Visible)
    decreases |t|
  {
    hide At, Indent, Outside;
    if t == [] {
      AtNothing(c, i);
    } else {
      AtIndex(c, i, t, 0);
      assert t == [t[0]] + t[1..];
      AtConcat(c, i, [t[0]], t[1..]);
      WordByte(c, i, open);
      WordIndents(c, i + 1, t[1..], open);
    }
  }

  lemma AtNothing(c: seq<byte>, i: nat)
    requires At(c, i, [])
    ensures i <= |c|
  {
  }

  lemma QuotedMin(c: seq<byte>, i: nat, s: seq<byte>)
    requires NulEnded(c) && NUL !in s && At(c, i, Quoted(s)) && i + |Quoted(s)| < |c|
    ensures Min(c, i) == Quoted(s) + Min(c, i + |Quoted(s)|)
  {
    hide At, Quoted, ClosesOnce, Min;
    QuotedIsLiteral(s);
    WholeLiteral(c, i, Quoted(s));
  }

  lemma QuotedIndents(c: seq<byte>, i: nat, s: seq<byte>, open: seq<bool>)
    requires NUL !in s && At(c, i, Quoted(s))
    ensures i + |Quoted(s)| <= |c|
    ensures Indent(c, i, open) == Quoted(s) + Indent(c, i + |Quoted(s)|, open)
    ensures Outside(c, i + |Quoted(s)|, Visible) ==> Outside(c, i, Visible)
  {
    hide At, Quoted, ClosesOnce, Indent, Outside;
    var t := Quoted(s);
    QuotedIsLiteral(s);
    AtIndex(c, i, t, 0);
    OutsideLiteral(c, i, t, Visible);
    assert t == [QUOTE] + t[1..];
    AtConcat(c, i, [QUOTE], t[1..]);
    AfterLiteralIs(c, i + 1, t[1..]);
    AtSame(c, i, t);
    LiteralIndents(c, i, open);
  }

  lemma LiteralIndents(c: seq<byte>, i: nat, open: seq<bool>)
    requires i < |c| && c[i] == QUOTE
    ensures Indent(c, i, open) == c[i..AfterLiteral(c, i + 1)] + Indent(c, AfterLiteral(c, i + 1), open)
  {
  }

  lemma AtSame(c: seq<byte>, i: nat, t: seq<byte>)
    requires At(c, i, t)
    ensures i + |t| <= |c| && c[i..i + |t|] == t
  {
  }

  /** The text of a leaf that is not a string. */
  lemma LeafIsWord(j: Json, fmt: bool, d: nat, num: NumberText)
    requires Readable(j, num) && !j.String? && !j.Array? && !j.Object?
    ensures IsWord(Render(j, fmt, d, num))
  {
    hide RenderItems, RenderMembers, ReadableItems, ReadableMembers, Quoted, Strtod;
  }

  // ---- minifying gives the unformatted text ----

  lemma {:induction false} BlanksMin(c: seq<byte>, i: nat, j: nat)
    requires NulEnded(c) && i <= j < |c| && forall k :: i <= k < j ==> FourBlanks(c[k])
    ensures Min(c, i) == Min(c, j)
    decreases j - i
  {
    if i < j {
      BlanksMin(c, i + 1, j);
    }
  }

  lemma ByteMin(c: seq<byte>, i: nat)
    requires NulEnded(c) && i + 1 < |c| && IsPlain(c[i])
    ensures Min(c, i) == [c[i]] + Min(c, i + 1)
  {
  }

  lemma {:induction false} ValueMin(c: seq<byte>, off: nat, j: Json, fmt: bool, d: nat, num: NumberText)
    requires NulEnded(c) && Readable(j, num) && At(c, off, Render(j, fmt, d, num))
    requires off + |Render(j, fmt, d, num)| < |c|
    ensures Min(c, off) == Render(j, false, d, num) + Min(c, off + |Render(j, fmt, d, num)|)
    decreases j, 1
  {
    hide At, Min, RenderItems, RenderMembers, Readable, IsWord, Quoted;
    var t := Render(j, fmt, d, num);
    match j {
      case String(s) =>
        ReadableString(s, num);
        QuotedMin(c, off, s);
      case Array(items) =>
        ArrayMin(c, off, items, fmt, d, num);
      case Object(members) =>
        ObjectMin(c, off, members, fmt, d, num);
      case _ =>
        LeafIsWord(j, fmt, d, num);
        WordMin(c, off, t);
    }
  }

  lemma ReadableString(s: seq<byte>, num: NumberText)
    requires Readable(String(s), num)
    ensures NUL !in s
  {
  }

  lemma ReadableArray(items: seq<Json>, num: NumberText)
    requires Readable(Array(items), num)
    ensures ReadableItems(items, num)
  {
  }

  lemma ReadableObject(members: seq<Member>, num: NumberText)
    requires Readable(Object(members), num)
    ensures ReadableMembers(members, num)
  {
  }

  lemma {:induction false} ArrayMin(c: seq<byte>, off: nat, items: seq<Json>, fmt: bool, d: nat, num: NumberText)
    requires NulEnded(c) && Readable(Array(items), num) && At(c, off, Render(Array(items), fmt, d, num))
    requires off + |Render(Array(items), fmt, d, num)| < |c|
    ensures Min(c, off)
         == Render(Array(items), false, d, num) + Min(c, off + |Render(Array(items), fmt, d, num)|)
    decreases items, 2
  {
    hide At, Min, RenderItems, Readable;
    ReadableArray(items, num);
    var inner := RenderItems(items, fmt, d + 1, num);
    AtConcat(c, off, [LBRACKET] + inner, [RBRACKET]);
    AtConcat(c, off, [LBRACKET], inner);
    AtIndex(c, off, [LBRACKET], 0);
    var e := off + 1 + |inner|;
    AtIndex(c, e, [RBRACKET], 0);
    ByteMin(c, off);
    ByteMin(c, e);
    ItemsMin(c, off + 1, items, fmt, d + 1, num);
  }

  lemma {:induction false} ItemsMin(c: seq<byte>, off: nat, items: seq<Json>, fmt: bool, d: nat, num: NumberText)
    requires NulEnded(c) && ReadableItems(items, num) && At(c, off, RenderItems(items, fmt, d, num))
    requires off + |RenderItems(items, fmt, d, num)| < |c|
    ensures Min(c, off) == RenderItems(items, false, d, num) + Min(c, off + |RenderItems(items, fmt, d, num)|)
    decreases items, 0
  {
    hide At, Min, Render, RenderItems, Readable;
    if items == [] {
      NoItems(fmt, d, num);
      NoItems(false, d, num);
    } else {
      ItemsLayout(c, off, items, fmt, d, num);
      FirstItem(items, num);
      ValueMin(c, off, items[0], fmt, d, num);
      var e := off + |Render(items[0], fmt, d, num)|;
      ItemsSplit(items, d, num);
      if |items| > 1 {
        var f := if fmt then e + 2 else e + 1;
        ByteMin(c, e);
        BlanksMin(c, e + 1, f);
        ItemsMin(c, f, items[1..], fmt, d, num);
      }
    }
  }

  lemma NoItems(fmt: bool, d: nat, num: NumberText)
    ensures RenderItems([], fmt, d, num) == []
  {
  }

  lemma FirstItem(items: seq<Json>, num: NumberText)
    requires items != [] && ReadableItems(items, num)
    ensures Readable(items[0], num) && ReadableItems(items[1..], num)
  {
  }

  /** The unformatted elements: a value, a comma when there are more, and the rest. */
  lemma ItemsSplit(items: seq<Json>, d: nat, num: NumberText)
    requires items != []
    ensures RenderItems(items, false, d, num)
         == Render(items[0], false, d, num)
            + (if |items| > 1 then [COMMA] + RenderItems(items[1..], false, d, num) else [])
  {
    hide Render;
    if |items| == 1 {
      assert items[1..] == [];
    } else {
      assert ItemSeparator(false) == [COMMA];
    }
  }

  lemma FlatObject(members: seq<Member>, d: nat, num: NumberText)
    ensures Render(Object(members), false, d, num) == [LBRACE] + RenderMembers(members, false, d + 1, num) + [RBRACE]
  {
    hide RenderMembers;
    var inner := RenderMembers(members, false, d + 1, num);
    assert [LBRACE] + Opt(false, [LF]) + inner + Opt(false, Tabs(d)) == [LBRACE] + inner;
  }

  /** The unformatted members: a name, a colon, a value, a comma when there are more, and the rest. */
  lemma MembersSplit(members: seq<Member>, d: nat, num: NumberText)
    requires members != []
    ensures RenderMembers(members, false, d, num)
         == Quoted(members[0].key) + [COLON] + Render(members[0].value, false, d, num)
            + (if |members| > 1 then [COMMA] + RenderMembers(members[1..], false, d, num) else [])
  {
    hide Render, Quoted;
    var m := members[0];
    assert MemberHead(m.key, false, d) == Quoted(m.key) + [COLON];
    if |members| == 1 {
      assert members[1..] == [];
      assert MemberTail(false, false) == [];
    } else {
      assert MemberTail(true, false) == [COMMA];
    }
  }

  lemma {:induction false} ObjectMin(
    c: seq<byte>, off: nat, members: seq<Member>, fmt: bool, d: nat, num: NumberText)
    requires NulEnded(c) && Readable(Object(members), num) && At(c, off, Render(Object(members), fmt, d, num))
    requires off + |Render(Object(members), fmt, d, num)| < |c|
    ensures Min(c, off)
         == Render(Object(members), false, d, num) + Min(c, off + |Render(Object(members), fmt, d, num)|)
    decreases members, 2
  {
    hide At, Min, RenderMembers, Render, Readable, Tabs;
    ReadableObject(members, num);
    ObjectLayout(c, off, members, fmt, d, num);
    FlatObject(members, d, num);
    var i := off + 1 + |Opt(fmt, [LF])|;
    var e := i + |RenderMembers(members, fmt, d + 1, num)|;
    var close := off + |Render(Object(members), fmt, d, num)| - 1;
    ByteMin(c, off);
    BlanksMin(c, off + 1, i);
    MembersMin(c, i, members, fmt, d + 1, num);
    BlanksMin(c, e, close);
    ByteMin(c, close);
    Regroup([LBRACE], RenderMembers(members, false, d + 1, num), [RBRACE], Min(c, close + 1));
    assert [LBRACE] + (RenderMembers(members, false, d + 1, num) + [RBRACE]) == Render(Object(members), false, d, num);
  }

  lemma Regroup(a: seq<byte>, b: seq<byte>, c: seq<byte>, d: seq<byte>)
    ensures a + (b + (c + d)) == (a + (b + c)) + d
  {
  }

  lemma {:induction false} MembersMin(
    c: seq<byte>, off: nat, members: seq<Member>, fmt: bool, d: nat, num: NumberText)
    requires NulEnded(c) && ReadableMembers(members, num) && At(c, off, RenderMembers(members, fmt, d, num))
    requires off + |RenderMembers(members, fmt, d, num)| < |c|
    ensures Min(c, off)
         == RenderMembers(members, false, d, num) + Min(c, off + |RenderMembers(members, fmt, d, num)|)
    decreases members, 0
  {
    hide At, Min, Render, RenderMembers, MemberHead, MemberTail, Readable, ReadableMembers, Quoted;
    if members == [] {
      RenderNoMembers(fmt, d, num);
      RenderNoMembers(false, d, num);
    } else {
      MembersParts(members, num);
      MembersLayout(c, off, members, fmt, d, num);
      var m := members[0];
      var head := MemberHead(m.key, fmt, d) + Render(m.value, fmt, d, num);
      var e := off + |head|;
      var f := e + |MemberTail(|members| > 1, fmt)|;
      MemberMin(c, off, m, fmt, d, num);
      MembersSplit(members, d, num);
      var first := Quoted(m.key) + [COLON] + Render(m.value, false, d, num);
      if |members| > 1 {
        ByteMin(c, e);
        BlanksMin(c, e + 1, f);
        MembersMin(c, f, members[1..], fmt, d, num);
        Regroup(first, [COMMA], RenderMembers(members[1..], false, d, num),
          Min(c, off + |RenderMembers(members, fmt, d, num)|));
      } else {
        BlanksMin(c, e, f);
      }
    }
  }

  lemma {:induction false} MemberMin(c: seq<byte>, off: nat, m: Member, fmt: bool, d: nat, num: NumberText)
    requires NulEnded(c) && NUL !in m.key && Readable(m.value, num)
    requires At(c, off, MemberHead(m.key, fmt, d) + Render(m.value, fmt, d, num))
    requires off + |MemberHead(m.key, fmt, d) + Render(m.value, fmt, d, num)| < |c|
    ensures Min(c, off) == Quoted(m.key) + [COLON] + Render(m.value, false, d, num)
                           + Min(c, off + |MemberHead(m.key, fmt, d) + Render(m.value, fmt, d, num)|)
    decreases m.value, 2
  {
    hide At, Min, Render, MemberHead, Readable, Quoted, Opt, Tabs;
    MemberLayout(c, off, m, fmt, d, num);
    var q := off + |Opt(fmt, Tabs(d))|;
    var colon := q + |Quoted(m.key)|;
    var w := colon + 1 + |Opt(fmt, [TAB])|;
    BlanksMin(c, off, q);
    QuotedMin(c, q, m.key);
    ByteMin(c, colon);
    BlanksMin(c, colon + 1, w);
    ValueMin(c, w, m.value, fmt, d, num);
  }

  /** Minifying the text of a readable tree, formatted or not, gives exactly its unformatted text. */
  lemma MinifiedIsUnformatted(j: Json, fmt: bool, num: NumberText)
    requires Readable(j, num)
    ensures Min(Render(j, fmt, 0, num) + [NUL], 0) == Render(j, false, 0, num) + [NUL]
  {
    hide Render, Readable, Min;
    var t := Render(j, fmt, 0, num);
    var c := t + [NUL];
    AtPrefix(t, [NUL]);
    ValueMin(c, 0, j, fmt, 0, num);
    NothingLeft(c, |t|);
  }

  // ---- the formatted text is the unformatted text indented ----

  /** One structural byte, what it becomes, and the brackets open behind it. */
  lemma OpensBrace(c: seq<byte>, i: nat, open: seq<bool>)
    requires i + 1 < |c| && c[i] == LBRACE && c[i + 1] != RBRACE
    ensures Indent(c, i, open) == [LBRACE, LF] + Margin(|open| + 1) + Indent(c, i + 1, open + [true])
  {
  }

  lemma EmptyBraces(c: seq<byte>, i: nat, open: seq<bool>)
    requires i + 1 < |c| && c[i] == LBRACE && c[i + 1] == RBRACE
    ensures Indent(c, i, open) == [LBRACE, LF] + Margin(|open|) + [RBRACE] + Indent(c, i + 2, open)
  {
  }

  lemma ClosesBrace(c: seq<byte>, i: nat, open: seq<bool>)
    requires i < |c| && c[i] == RBRACE
    ensures Indent(c, i, open + [true]) == [LF] + Margin(|open|) + [RBRACE] + Indent(c, i + 1, open)
  {
    hide Margin, AfterLiteral, Pop;
    PopLast(open, true);
  }

  lemma PopLast(open: seq<bool>, brace: bool)
    ensures Pop(open + [brace]) == open
  {
  }

  lemma Brackets(c: seq<byte>, i: nat, open: seq<bool>)
    requires i < |c|
    ensures c[i] == LBRACKET ==> Indent(c, i, open) == [LBRACKET] + Indent(c, i + 1, open + [false])
    ensures c[i] == RBRACKET ==> Indent(c, i, open + [false]) == [RBRACKET] + Indent(c, i + 1, open)
  {
    hide Margin, AfterLiteral, Pop;
    PopLast(open, false);
  }

  lemma Separators(c: seq<byte>, i: nat, open: seq<bool>)
    requires i < |c|
    ensures c[i] == COMMA ==> Indent(c, i, open + [false]) == [COMMA, SPACE] + Indent(c, i + 1, open + [false])
    ensures c[i] == COMMA ==>
      Indent(c, i, open + [true]) == [COMMA, LF] + Margin(|open| + 1) + Indent(c, i + 1, open + [true])
    ensures c[i] == COLON ==> Indent(c, i, open) == [COLON, TAB] + Indent(c, i + 1, open)
  {
    hide Margin, AfterLiteral, Pop;
  }

  lemma VisibleByte(c: seq<byte>, i: nat)
    requires i < |c| && c[i] > 32 && c[i] != QUOTE && Outside(c, i + 1, Visible)
    ensures Outside(c, i, Visible)
  {
  }

  lemma {:induction false} ValueIndents(c: seq<byte>, off: nat, j: Json, open: seq<bool>, num: NumberText)
    requires Readable(j, num) && At(c, off, Render(j, false, |open|, num))
    ensures off + |Render(j, false, |open|, num)| <= |c|
    ensures Indent(c, off, open)
         == Render(j, true, |open|, num) + Indent(c, off + |Render(j, false, |open|, num)|, open)
    ensures Outside(c, off + |Render(j, false, |open|, num)|, Visible) ==> Outside(c, off, Visible)
    decreases j, 1
  {
    hide At, Indent, Outside, RenderItems, RenderMembers, Readable, IsWord, Quoted;
    var d := |open|;
    var t := Render(j, false, d, num);
    match j {
      case String(s) =>
        ReadableString(s, num);
        QuotedIndents(c, off, s, open);
      case Array(items) =>
        ArrayIndents(c, off, items, open, num);
      case Object(members) =>
        ObjectIndents(c, off, members, open, num);
      case _ =>
        LeafIsWord(j, false, d, num);
        WordIndents(c, off, t, open);
    }
  }

  lemma {:induction false} ArrayIndents(c: seq<byte>, off: nat, items: seq<Json>, open: seq<bool>, num: NumberText)
    requires Readable(Array(items), num) && At(c, off, Render(Array(items), false, |open|, num))
    ensures off + |Render(Array(items), false, |open|, num)| <= |c|
    ensures Indent(c, off, open) == Render(Array(items), true, |open|, num)
                                    + Indent(c, off + |Render(Array(items), false, |open|, num)|, open)
    ensures Outside(c, off + |Render(Array(items), false, |open|, num)|, Visible) ==> Outside(c, off, Visible)
    decreases items, 2
  {
    hide At, Indent, Outside, RenderItems, Readable;
    ReadableArray(items, num);
    var d := |open|;
    var inner := RenderItems(items, false, d + 1, num);
    AtConcat(c, off, [LBRACKET] + inner, [RBRACKET]);
    AtConcat(c, off, [LBRACKET], inner);
    AtIndex(c, off, [LBRACKET], 0);
    var e := off + 1 + |inner|;
    AtIndex(c, e, [RBRACKET], 0);
    Brackets(c, off, open);
    Brackets(c, e, open);
    ItemsIndent(c, off + 1, items, open + [false], num);
    if Outside(c, e + 1, Visible) {
      VisibleByte(c, e);
      VisibleByte(c, off);
    }
  }

  lemma {:induction false} ItemsIndent(c: seq<byte>, off: nat, items: seq<Json>, open: seq<bool>, num: NumberText)
    requires ReadableItems(items, num) && At(c, off, RenderItems(items, false, |open|, num))
    requires open != [] && !open[|open| - 1]
    ensures off + |RenderItems(items, false, |open|, num)| <= |c|
    ensures Indent(c, off, open) == RenderItems(items, true, |open|, num)
                                    + Indent(c, off + |RenderItems(items, false, |open|, num)|, open)
    ensures Outside(c, off + |RenderItems(items, false, |open|, num)|, Visible) ==> Outside(c, off, Visible)
    decreases items, 0
  {
    hide At, Indent, Outside, Render, RenderItems, Readable;
    var d := |open|;
    if items == [] {
      NoItems(true, d, num);
      NoItems(false, d, num);
      AtNothing(c, off);
    } else {
      ItemsLayout(c, off, items, false, d, num);
      FirstItem(items, num);
      ValueIndents(c, off, items[0], open, num);
      var e := off + |Render(items[0], false, d, num)|;
      SpacedItems(items, d, num);
      if |items| > 1 {
        assert open == open[..d - 1] + [false];
        Separators(c, e, open[..d - 1]);
        ItemsIndent(c, e + 1, items[1..], open, num);
        if Outside(c, off + |RenderItems(items, false, d, num)|, Visible) {
          VisibleByte(c, e);
        }
      }
    }
  }

  /** The formatted elements: a value, a comma and a space when there are more, and the rest. */
  lemma SpacedItems(items: seq<Json>, d: nat, num: NumberText)
    requires items != []
    ensures RenderItems(items, true, d, num)
         == Render(items[0], true, d, num)
            + (if |items| > 1 then [COMMA, SPACE] + RenderItems(items[1..], true, d, num) else [])
  {
    hide Render;
    if |items| == 1 {
      assert items[1..] == [];
    } else {
      assert ItemSeparator(true) == [COMMA, SPACE];
    }
  }

  lemma LaidObject(members: seq<Member>, d: nat, num: NumberText)
    ensures Render(Object(members), true, d, num)
         == [LBRACE, LF] + RenderMembers(members, true, d + 1, num) + Margin(d) + [RBRACE]
  {
    hide RenderMembers, Tabs, Margin;
    assert Tabs(d) == Margin(d);
    assert [LBRACE] + Opt(true, [LF]) == [LBRACE, LF];
  }

  /** The formatted members: each on its line. */
  lemma LaidMembers(members: seq<Member>, d: nat, num: NumberText)
    requires members != []
    ensures RenderMembers(members, true, d, num)
         == Margin(d) + Quoted(members[0].key) + [COLON, TAB] + Render(members[0].value, true, d, num)
            + (if |members| > 1 then [COMMA, LF] + RenderMembers(members[1..], true, d, num) else [LF])
  {
    hide Render, Quoted, Tabs, Margin;
    var m := members[0];
    assert Tabs(d) == Margin(d);
    assert MemberHead(m.key, true, d) == Margin(d) + Quoted(m.key) + [COLON, TAB];
    if |members| == 1 {
      assert members[1..] == [];
      assert MemberTail(false, true) == [LF];
    } else {
      assert MemberTail(true, true) == [COMMA, LF];
    }
  }

  lemma {:induction false} ObjectIndents(
    c: seq<byte>, off: nat, members: seq<Member>, open: seq<bool>, num: NumberText)
    requires Readable(Object(members), num) && At(c, off, Render(Object(members), false, |open|, num))
    ensures off + |Render(Object(members), false, |open|, num)| <= |c|
    ensures Indent(c, off, open) == Render(Object(members), true, |open|, num)
                                    + Indent(c, off + |Render(Object(members), false, |open|, num)|, open)
    ensures Outside(c, off + |Render(Object(members), false, |open|, num)|, Visible) ==> Outside(c, off, Visible)
    decreases members, 2
  {
    hide At, Indent, Outside, RenderMembers, Render, Readable, Margin, Quoted;
    ReadableObject(members, num);
    var d := |open|;
    var inner := RenderMembers(members, false, d + 1, num);
    FlatObject(members, d, num);
    LaidObject(members, d, num);
    AtConcat(c, off, [LBRACE] + inner, [RBRACE]);
    AtConcat(c, off, [LBRACE], inner);
    AtIndex(c, off, [LBRACE], 0);
    var close := off + 1 + |inner|;
    AtIndex(c, close, [RBRACE], 0);
    if members == [] {
      RenderNoMembers(false, d + 1, num);
      RenderNoMembers(true, d + 1, num);
      EmptyBraces(c, off, open);
      assert [LBRACE, LF] + [] + Margin(d) == [LBRACE, LF] + Margin(d);
    } else {
      MembersStart(members, d + 1, num);
      AtIndex(c, off + 1, inner, 0);
      OpensBrace(c, off, open);
      MembersIndent(c, off + 1, members, open, num);
      JoinObject(Margin(d + 1), Indent(c, off + 1, open + [true]), RenderMembers(members, true, d + 1, num), Margin(d),
        Indent(c, close + 1, open));
    }
    if Outside(c, close + 1, Visible) {
      VisibleByte(c, close);
      VisibleByte(c, off);
    }
  }

  lemma JoinObject(tabs: seq<byte>, tail: seq<byte>, inner: seq<byte>, outer: seq<byte>, after: seq<byte>)
    requires tabs + tail == inner + (outer + [RBRACE] + after)
    ensures [LBRACE, LF] + tabs + tail == [LBRACE, LF] + inner + outer + [RBRACE] + after
  {
    assert [LBRACE, LF] + tabs + tail == [LBRACE, LF] + (tabs + tail);
  }

  lemma MembersStart(members: seq<Member>, d: nat, num: NumberText)
    requires members != []
    ensures var t := RenderMembers(members, false, d, num); t != [] && t[0] == QUOTE
  {
    hide Render, Quoted;
    MembersSplit(members, d, num);
  }

  /** The members and the brace that closes them; the tabs of the first line stand before. */
  lemma {:induction false} MembersIndent(
    c: seq<byte>, off: nat, members: seq<Member>, open: seq<bool>, num: NumberText)
    requires members != [] && ReadableMembers(members, num)
    requires At(c, off, RenderMembers(members, false, |open| + 1, num))
    requires off + |RenderMembers(members, false, |open| + 1, num)| < |c|
    requires c[off + |RenderMembers(members, false, |open| + 1, num)|] == RBRACE
    ensures var close := off + |RenderMembers(members, false, |open| + 1, num)|;
      && Margin(|open| + 1) + Indent(c, off, open + [true])
         == RenderMembers(members, true, |open| + 1, num) + (Margin(|open|) + [RBRACE] + Indent(c, close + 1, open))
      && (Outside(c, close, Visible) ==> Outside(c, off, Visible))
    decreases members, 0
  {
    hide At, Indent, Outside, Render, RenderMembers, Readable, ReadableMembers, Quoted, Margin;
    var d := |open| + 1;
    var m := members[0];
    MembersParts(members, num);
    MembersSplit(members, d, num);
    LaidMembers(members, d, num);
    var name, value := Quoted(m.key), Render(m.value, false, d, num);
    var rest := if |members| > 1 then [COMMA] + RenderMembers(members[1..], false, d, num) else [];
    AtConcat(c, off, name + [COLON] + value, rest);
    AtConcat(c, off, name + [COLON], value);
    AtConcat(c, off, name, [COLON]);
    var colon := off + |name|;
    AtIndex(c, colon, [COLON], 0);
    var e := colon + 1 + |value|;
    QuotedIndents(c, off, m.key, open + [true]);
    Separators(c, colon, open + [true]);
    ValueIndents(c, colon + 1, m.value, open + [true], num);
    var close := off + |RenderMembers(members, false, d, num)|;
    var after := Margin(|open|) + [RBRACE] + Indent(c, close + 1, open);
    var laid := Render(m.value, true, d, num);
    if |members| > 1 {
      AtConcat(c, e, [COMMA], RenderMembers(members[1..], false, d, num));
      AtIndex(c, e, [COMMA], 0);
      Separators(c, e, open);
      MembersIndent(c, e + 1, members[1..], open, num);
      JoinLines(Margin(d), name, laid, RenderMembers(members[1..], true, d, num), after,
        Margin(d) + Indent(c, e + 1, open + [true]), Indent(c, e, open + [true]));
    } else {
      ClosesBrace(c, e, open);
      LastLine(Margin(d), name, laid, after, Indent(c, e, open + [true]));
    }
    if Outside(c, close, Visible) {
      if |members| > 1 {
        VisibleByte(c, e);
      }
      VisibleByte(c, colon);
    }
  }

  lemma JoinLines(tabs: seq<byte>, name: seq<byte>, laid: seq<byte>, rest: seq<byte>, after: seq<byte>,
      next: seq<byte>, tail: seq<byte>)
    requires next == rest + after && tail == [COMMA, LF] + next
    ensures tabs + (name + ([COLON, TAB] + (laid + tail)))
         == (tabs + name + [COLON, TAB] + laid + ([COMMA, LF] + rest)) + after
  {
  }

  lemma LastLine(tabs: seq<byte>, name: seq<byte>, laid: seq<byte>, after: seq<byte>, tail: seq<byte>)
    requires tail == [LF] + after
    ensures tabs + (name + ([COLON, TAB] + (laid + tail))) == (tabs + name + [COLON, TAB] + laid + [LF]) + after
  {
  }

  /** The unformatted text of a readable tree has no byte up to 32 outside its string literals. */
  lemma UnformattedIsDense(j: Json, num: NumberText)
    requires Readable(j, num)
    ensures Outside(Render(j, false, 0, num), 0, Visible)
  {
    hide Render, Readable, Indent;
    var t := Render(j, false, 0, num);
    assert t[..|t|] == t;
    ValueIndents(t, 0, j, [], num);
  }

  /** The formatted text of a readable tree is its unformatted text laid out line by line. */
  lemma FormattedIsIndented(j: Json, num: NumberText)
    requires Readable(j, num)
    ensures Render(j, true, 0, num) == Indent(Render(j, false, 0, num), 0, [])
  {
    hide Render, Readable;
    var t := Render(j, false, 0, num);
    assert t[..|t|] == t;
    ValueIndents(t, 0, j, [], num);
    assert Render(j, true, 0, num) + [] == Render(j, true, 0, num);
  }
}

/** The print buffer of cJSON.c, growing or fixed, and the print routines, proved against JsonRender. */
module JsonPrinter {
  import opened Bytes
  import opened JsonTree
  import opened JsonNumber
  import opened JsonGrammar
  import opened JsonRender

  const INT_MAX: nat := 0x7FFF_FFFF
  const DEFAULT_BUFFER_SIZE: nat := 256

  /** What stands before `n` is the same in both storages. */
  lemma AtKept(a: seq<byte>, b: seq<byte>, n: nat, off: nat, t: seq<byte>)
    requires n <= |a| && n <= |b| && a[..n] == b[..n] && off + |t| <= n && At(a, off, t)
    ensures At(b, off, t)
  {
    assert a[..n][off..off + |t|] == a[off..off + |t|];
    assert b[..n][off..off + |t|] == b[off..off + |t|];
  }

  lemma AtNext(b: seq<byte>, a: seq<byte>, at: nat, t: seq<byte>)
    requires at + |t| <= |a| && b == a[..at] + t + a[at + |t|..]
    ensures At(b, at, t)
  {
    assert b[at..at + |t|] == t;
  }

  class PrintBuffer {
    var buffer: array<byte>
    var length: nat
    var offset: nat
    var depth: nat
    const noalloc: bool
    const format: bool
    const num: NumberText

    // The end of the space that the last successful Ensure granted.
    ghost var granted: nat

    constructor (buffer: array<byte>, length: nat, noalloc: bool, format: bool, num: NumberText)
      requires length <= buffer.Length && length <= INT_MAX
      ensures this.buffer == buffer && this.length == length && offset == 0 && depth == 0
      ensures this.noalloc == noalloc && this.format == format && this.num == num
      ensures Valid()
    {
      this.buffer, this.length, offset, depth := buffer, length, 0, 0;
      this.noalloc, this.format, this.num := noalloc, format, num;
      granted := 0;
    }

    ghost predicate Valid()
      reads this
    {
      && length <= buffer.Length && length <= INT_MAX && granted <= length
      && (offset < length || (offset == 0 && length == 0))
    }

    /** The most bytes this buffer can come to hold. */
    ghost function Limit(): nat
      reads this
    {
      if noalloc then length else INT_MAX
    }

    ghost function Text(): seq<byte>
      reads this, buffer
    {
      buffer[..]
    }

    /** What every routine keeps, entered with the cursor at `from`. */
    twostate predicate Kept(from: nat)
      reads this, buffer
    {
      && Valid() && from <= buffer.Length && from <= old(buffer).Length
      && buffer[..from] == old(buffer[..from])
      && (noalloc ==> buffer == old(buffer) && length == old(length)
                      && buffer[length..] == old(buffer[length..]))
      && (buffer == old(buffer) || fresh(buffer))
    }

    /** ensure: room for `needed` bytes and one more at the cursor. */
    method Ensure(needed: nat) returns (ok: bool)
      requires Valid()
      modifies this`buffer, this`length, this`granted
      ensures Valid() && offset == old(offset) && depth == old(depth)
      ensures ok <==> offset + needed + 1 <= Limit()
      ensures ok ==> granted == offset + needed + 1 && offset < length
      ensures buffer == old(buffer) || fresh(buffer)
      ensures noalloc ==> buffer == old(buffer) && length == old(length)
      ensures offset <= old(buffer.Length) ==>
                offset <= buffer.Length && buffer[..offset] == old(buffer[..offset])
    {
      if length > 0 && offset >= length {
        return false;
      }
      if needed > INT_MAX {
        return false;
      }
      var wanted := needed + offset + 1;
      if wanted <= length {
        granted := wanted;
        return true;
      }
      if noalloc {
        return false;
      }
      var newsize;
      if wanted > INT_MAX / 2 {
        if wanted > INT_MAX {
          return false;
        }
        newsize := INT_MAX;
      } else {
        newsize := wanted * 2;
      }
      var newbuffer := new byte[newsize];
      forall i | 0 <= i < buffer.Length && i < newsize {
        newbuffer[i] := buffer[i];
      }
      length := newsize;
      buffer := newbuffer;
      granted := wanted;
      ok := true;
    }

    /** Stores `t` at `at`, inside the space granted. */
    method Write(at: nat, t: seq<byte>)
      requires Valid() && at + |t| <= granted
      modifies buffer
      ensures Text() == old(Text())[..at] + t + old(Text())[at + |t|..]
      ensures Kept(at)
    {
      var i := 0;
      while i < |t|
        invariant 0 <= i <= |t|
        invariant Text() == old(Text())[..at] + t[..i] + old(Text())[at + i..]
      {
        buffer[at + i] := t[i];
        i := i + 1;
      }
    }

    /** update_offset: the cursor moves to the terminator of the text at the cursor. */
    method UpdateOffset(ghost end: nat)
      requires Valid() && offset <= end < length && buffer[end] == NUL
      requires forall i :: offset <= i < end ==> buffer[i] != NUL
      modifies this`offset
      ensures offset == end
    {
      while buffer[offset] != NUL
        invariant offset <= end
        decreases end - offset
      {
        offset := offset + 1;
      }
    }

    /** The outcome of printing the text `t` at `from`: it fails only for want of space. */
    twostate predicate Printed(ok: bool, t: seq<byte>, from: nat)
      reads this, buffer
    {
      && Kept(from)
      && (ok <==> from + |t| + 2 <= Limit())
      && (ok ==> depth == old(depth) && from <= offset <= from + |t| < length
                 && At(Text(), from, t + [NUL]))
    }

    /** Stores `t` behind `done`, which stands at `from` and ends at `at`. */
    method Extend(ghost from: nat, ghost done: seq<byte>, at: nat, t: seq<byte>)
      requires Valid() && at + |t| <= granted
      requires from + |done| == at && At(Text(), from, done)
      modifies buffer
      ensures Kept(from) && At(Text(), from, done + t)
    {
      hide At;
      Write(at, t);
      AtNext(Text(), old(Text()), at, t);
      AtKept(old(Text()), Text(), at, from, done);
      AtConcat(Text(), from, done, t);
    }

    /** The cursor moves over the text `t` just printed at `from`. */
    method Advance(ghost from: nat, ghost t: seq<byte>)
      requires Valid() && from <= offset <= from + |t| < length
      requires NUL !in t && At(Text(), from, t + [NUL])
      modifies this`offset
      ensures offset == from + |t| && At(Text(), from, t) && Valid()
    {
      AtConcat(Text(), from, t, [NUL]);
      AtIndex(Text(), from + |t|, [NUL], 0);
      AtAll(Text(), from, t);
      UpdateOffset(from + |t|);
    }

    /** A text known beforehand: the words, raw items, the digits of a number. */
    method PrintText(t: seq<byte>) returns (ok: bool)
      requires Valid()
      modifies this`buffer, this`length, this`granted, buffer
      ensures Printed(ok, t, old(offset)) && offset == old(offset) && depth == old(depth)
    {
      ok := Ensure(|t| + 1);
      if ok {
        Extend(offset, [], offset, t + [NUL]);
        assert [] + (t + [NUL]) == t + [NUL];
      }
    }

    method PrintNumber(value: real) returns (ok: bool)
      requires Valid() && |num(value)| <= PRINT_LIMIT
      modifies this`buffer, this`length, this`granted, this`offset, buffer
      ensures Printed(ok, num(value), old(offset)) && depth == old(depth)
    {
      var numberText := num(value);
      if |numberText| > PRINT_LIMIT {
        return false;
      }
      ok := PrintText(numberText);
      if ok {
        offset := offset + |numberText|;
      }
    }

    /** The first loop of print_string_ptr: the characters that escaping adds. */
    method CountEscapes(s: seq<byte>) returns (extra: nat)
      requires NUL !in s
      ensures |EscapedAll(s)| == |s| + extra
    {
      extra := 0;
      var i := 0;
      EscapedAllConcat(s[..0], s);
      assert s[..0] + s == s;
      while i < |s|
        invariant 0 <= i <= |s|
        invariant |EscapedAll(s[..i])| == i + extra
      {
        match s[i] {
          case 34 | 92 | 8 | 12 | 10 | 13 | 9 => extra := extra + 1;
          case _ => if s[i] < 32 { extra := extra + 5; }
        }
        EscapedAllNext(s, i);
        i := i + 1;
      }
      assert s[..|s|] == s;
    }

    /** The second loop of print_string_ptr, in the space granted for the literal. */
    method WriteEscaped(s: seq<byte>) returns (at: nat)
      requires Valid() && offset < length && granted == offset + |Quoted(s)| + 2
      requires At(Text(), offset, [QUOTE])
      modifies buffer
      ensures Kept(offset) && at == offset + 1 + |EscapedAll(s)|
      ensures At(Text(), offset, [QUOTE] + EscapedAll(s))
    {
      hide Escaped, EscapedAll, At;
      EscapedAllOfNothing();
      assert s[..0] == [] && [QUOTE] + [] == [QUOTE];
      at := offset + 1;
      var i := 0;
      while i < |s|
        invariant 0 <= i <= |s|
        invariant Kept(offset)
        invariant at == offset + 1 + |EscapedAll(s[..i])|
        invariant At(Text(), offset, [QUOTE] + EscapedAll(s[..i]))
      {
        EscapedAllNext(s, i);
        EscapedAllSplit(s, i + 1);
        Extend(offset, [QUOTE] + EscapedAll(s[..i]), at, Escaped(s[i]));
        assert ([QUOTE] + EscapedAll(s[..i])) + Escaped(s[i]) == [QUOTE] + EscapedAll(s[..i + 1]);
        at := at + |Escaped(s[i])|;
        i := i + 1;
      }
      assert s[..|s|] == s;
    }

    method PrintStringPtr(s: seq<byte>) returns (ok: bool)
      requires Valid() && NUL !in s
      modifies this`buffer, this`length, this`granted, buffer
      ensures Printed(ok, Quoted(s), old(offset)) && offset == old(offset) && depth == old(depth)
    {
      hide EscapedAll, At;
      var extra := CountEscapes(s);
      var outputLength := |s| + extra;
      ok := Ensure(outputLength + 3);
      if !ok {
        return;
      }
      ghost var from := offset;
      AtNothing(Text(), from);
      if extra == 0 {
        NothingEscaped(s);
        Extend(from, [], offset, [QUOTE] + s + [QUOTE] + [NUL]);
        assert [] + ([QUOTE] + s + [QUOTE] + [NUL]) == Quoted(s) + [NUL];
        return;
      }
      Extend(from, [], offset, [QUOTE]);
      assert [] + [QUOTE] == [QUOTE];
      var at := WriteEscaped(s);
      Extend(from, [QUOTE] + EscapedAll(s), at, [QUOTE, NUL]);
      assert ([QUOTE] + EscapedAll(s)) + [QUOTE, NUL] == Quoted(s) + [NUL];
    }

    /**
     * Reserves `needed` bytes, stores `t` behind `done` (with a terminator when `nul`) and moves
     * the cursor past `t`: brackets, separators, indentation.
     */
    method Put(ghost from: nat, ghost done: seq<byte>, needed: nat, t: seq<byte>, nul: bool) returns (ok: bool)
      requires Valid() && offset == from + |done| && (offset == 0 || offset < length)
      requires |t| + (if nul then 1 else 0) <= needed + 1 && |t| <= needed
      requires At(Text(), from, done)
      modifies this`buffer, this`length, this`granted, this`offset, buffer
      ensures Kept(from) && depth == old(depth)
      ensures ok <==> old(offset) + needed + 1 <= Limit()
      ensures ok ==> offset == from + |done + t| < length && At(Text(), from, done + t)
    {
      hide At;
      ok := Ensure(needed);
      if ok {
        AtKept(old(Text()), Text(), offset, from, done);
        if nul {
          Extend(from, done, offset, t + [NUL]);
          assert done + (t + [NUL]) == (done + t) + [NUL];
          AtConcat(Text(), from, done + t, [NUL]);
        } else {
          Extend(from, done, offset, t);
        }
        offset := offset + |t|;
      }
    }

    /** print_value behind `done`, and then update_offset. */
    method PrintBehind(ghost from: nat, ghost done: seq<byte>, j: Json) returns (ok: bool)
      requires Valid() && Printable(j, num) && offset == from + |done| && offset < length
      requires At(Text(), from, done)
      modifies this, buffer
      ensures
        var t := Render(j, format, old(depth), num);
        && Kept(from)
        && (ok <==> old(offset) + |t| + 2 <= Limit())
        && (ok ==> depth == old(depth) && offset == from + |done + t| < length && At(Text(), from, done + t))
      decreases j, 3
    {
      hide At, Render, Printable;
      ghost var t := Render(j, format, depth, num);
      ghost var start := offset;
      ok := PrintValue(j);
      if ok {
        PrintableText(j, format, old(depth), num);
        Advance(start, t);
        AtKept(old(Text()), Text(), start, from, done);
        AtConcat(Text(), from, done, t);
      }
    }

    method PrintValue(j: Json) returns (ok: bool)
      requires Valid() && Printable(j, num)
      modifies this, buffer
      ensures Printed(ok, Render(j, format, old(depth), num), old(offset))
      decreases j, 2
    {
      hide At, Quoted, RenderItems, RenderMembers, PrintableItems, PrintableMembers;
      match j {
        case Null => ok := PrintText(NULL_TEXT);
        case False => ok := PrintText(FALSE_TEXT);
        case True => ok := PrintText(TRUE_TEXT);
        case Number(value) => ok := PrintNumber(value);
        case Raw(raw) => ok := PrintText(raw);
        case String(s) => ok := PrintStringPtr(s);
        case Array(items) => ok := PrintArray(items);
        case Object(members) => ok := PrintObject(members);
      }
    }

    method PrintArray(items: seq<Json>) returns (ok: bool)
      requires Valid() && PrintableItems(items, num)
      modifies this, buffer
      ensures Printed(ok, Render(Array(items), format, old(depth), num), old(offset))
      decreases items, 1
    {
      hide At, Printable, PrintableItems, RenderItems;
      ghost var from := offset;
      ghost var t := RenderItems(items, format, depth + 1, num);
      AtNothing(Text(), from);
      ok := Put(from, [], 1, [LBRACKET], false);
      if !ok {
        return;
      }
      assert [] + [LBRACKET] == [LBRACKET];
      depth := depth + 1;
      ok := PrintItems(from, [LBRACKET], items);
      if !ok {
        return;
      }
      ok := Close(from, [LBRACKET] + t, 2, [RBRACKET]);
      if ok {
        depth := depth - 1;
      }
    }

    /** The loop of print_array. */
    method PrintItems(ghost from: nat, ghost done: seq<byte>, items: seq<Json>) returns (ok: bool)
      requires Valid() && PrintableItems(items, num) && offset == from + |done| && offset < length
      requires At(Text(), from, done)
      modifies this, buffer
      ensures
        var t := RenderItems(items, format, old(depth), num);
        && Kept(from)
        && (ok ==> depth == old(depth) && offset == from + |done + t| < length && At(Text(), from, done + t))
        && (!ok ==> from + |done + t| + 2 > Limit())
      decreases items, 0
    {
      hide At, Render, Printable, RenderItems, ItemSeparator;
      ghost var whole := done + RenderItems(items, format, depth, num);
      ghost var printed := done;
      var i := 0;
      assert items[0..] == items;
      while i < |items|
        invariant 0 <= i <= |items| && PrintableItems(items[i..], num)
        invariant Kept(from) && depth == old(depth)
        invariant offset == from + |printed| < length && At(Text(), from, printed)
        invariant whole == printed + RenderItems(items[i..], format, depth, num)
      {
        ItemsNext(items, i, format, depth, num);
        ghost var t := Render(items[i], format, depth, num) + Opt(i + 1 < |items|, ItemSeparator(format));
        ghost var rest := RenderItems(items[i + 1..], format, depth, num);
        assert whole == (printed + t) + rest;
        ok := PrintItem(from, printed, items[i], i + 1 < |items|);
        if !ok {
          return;
        }
        printed := printed + t;
        i := i + 1;
      }
      RenderNoItems(items[i..], format, depth, num);
      assert printed + [] == printed;
      ok := true;
    }

    /** The body of the loop of print_array: an element and the separator when more follow. */
    method PrintItem(ghost from: nat, ghost done: seq<byte>, j: Json, more: bool) returns (ok: bool)
      requires Valid() && Printable(j, num) && offset == from + |done| && offset < length
      requires At(Text(), from, done)
      modifies this, buffer
      ensures
        var t := Render(j, format, old(depth), num) + Opt(more, ItemSeparator(format));
        && Kept(from)
        && (ok <==> from + |done + t| + 2 <= Limit())
        && (ok ==> depth == old(depth) && offset == from + |done + t| < length && At(Text(), from, done + t))
      decreases j, 4
    {
      hide At, Render, Printable;
      ghost var v := Render(j, format, depth, num);
      ok := PrintBehind(from, done, j);
      if ok && more {
        var sep := ItemSeparator(format);
        ok := Put(from, done + v, |sep| + 1, sep, true);
        assert (done + v) + sep == done + (v + sep);
      } else {
        assert done + (v + []) == done + v;
      }
    }

    /** The closing bracket, with what goes before it: stored, but the cursor stays. */
    method Close(ghost from: nat, ghost done: seq<byte>, needed: nat, t: seq<byte>) returns (ok: bool)
      requires Valid() && offset == from + |done| && offset < length
      requires |t| + 1 == needed && At(Text(), from, done)
      modifies this`buffer, this`length, this`granted, buffer
      ensures Kept(from) && offset == old(offset) && depth == old(depth)
      ensures ok <==> from + |done + t| + 2 <= Limit()
      ensures ok ==> from + |done + t| < length && At(Text(), from, done + t + [NUL])
    {
      hide At;
      ok := Ensure(needed);
      if ok {
        AtKept(old(Text()), Text(), offset, from, done);
        Extend(from, done, offset, t + [NUL]);
        assert done + (t + [NUL]) == done + t + [NUL];
      }
    }

    method PrintObject(members: seq<Member>) returns (ok: bool)
      requires Valid() && PrintableMembers(members, num)
      modifies this, buffer
      ensures Printed(ok, Render(Object(members), format, old(depth), num), old(offset))
      decreases members, 1
    {
      hide At, Printable, PrintableMembers, RenderMembers, Tabs;
      ghost var from := offset;
      ghost var t := RenderMembers(members, format, depth + 1, num);
      ghost var tail := Opt(format, Tabs(depth)) + [RBRACE];
      var open := [LBRACE] + Opt(format, [LF]);
      RenderObject(members, format, depth, num);
      AtNothing(Text(), from);
      ok := Put(from, [], |open| + 1, open, false);
      if !ok {
        return;
      }
      assert [] + open == open;
      depth := depth + 1;
      ok := PrintMembers(from, open, members);
      if !ok {
        return;
      }
      var closing := Opt(format, Tabs(depth - 1)) + [RBRACE];
      ok := Close(from, open + t, if format then depth + 1 else 2, closing);
      if ok {
        depth := depth - 1;
      }
    }

    /** The loop of print_object. */
    method PrintMembers(ghost from: nat, ghost done: seq<byte>, members: seq<Member>) returns (ok: bool)
      requires Valid() && PrintableMembers(members, num) && offset == from + |done| && offset < length
      requires At(Text(), from, done)
      modifies this, buffer
      ensures
        var t := RenderMembers(members, format, old(depth), num);
        && Kept(from)
        && (ok ==> depth == old(depth) && offset == from + |done + t| < length && At(Text(), from, done + t))
        && (!ok ==> from + |done + t| + 2 > Limit())
      decreases members, 0
    {
      hide At, Render, Printable, RenderMembers, MemberHead, MemberTail;
      ghost var whole := done + RenderMembers(members, format, depth, num);
      ghost var printed := done;
      var i := 0;
      assert members[0..] == members;
      while i < |members|
        invariant 0 <= i <= |members| && PrintableMembers(members[i..], num)
        invariant Kept(from) && depth == old(depth)
        invariant offset == from + |printed| < length && At(Text(), from, printed)
        invariant whole == printed + RenderMembers(members[i..], format, depth, num)
      {
        MembersNext(members, i, format, depth, num);
        ghost var t := MemberHead(members[i].key, format, depth) + Render(members[i].value, format, depth, num)
                       + MemberTail(i + 1 < |members|, format);
        ghost var rest := RenderMembers(members[i + 1..], format, depth, num);
        assert whole == (printed + t) + rest;
        ok := PrintMember(from, printed, members[i], i + 1 < |members|);
        if !ok {
          return;
        }
        printed := printed + t;
        i := i + 1;
      }
      RenderNoMembers(members[i..], format, depth, num);
      assert printed + [] == printed;
      ok := true;
    }

    /** The body of the loop of print_object: name, value, and the comma when more follow. */
    method PrintMember(ghost from: nat, ghost done: seq<byte>, m: Member, more: bool) returns (ok: bool)
      requires Valid() && NUL !in m.key && Printable(m.value, num)
      requires offset == from + |done| && offset < length && At(Text(), from, done)
      modifies this, buffer
      ensures
        var t := MemberHead(m.key, format, old(depth)) + Render(m.value, format, old(depth), num)
                 + MemberTail(more, format);
        && Kept(from)
        && (ok <==> from + |done + t| + 2 <= Limit())
        && (ok ==> depth == old(depth) && offset == from + |done + t| < length && At(Text(), from, done + t))
      decreases m.value, 4
    {
      hide At, Render, Printable, MemberHead;
      ghost var head := MemberHead(m.key, format, depth);
      ghost var v := Render(m.value, format, depth, num);
      ok := PrintHead(from, done, m.key);
      if !ok {
        return;
      }
      ok := PrintBehind(from, done + head, m.value);
      if !ok {
        return;
      }
      var tail := MemberTail(more, format);
      ok := Put(from, done + head + v, |tail| + 1, tail, true);
      assert done + head + v + tail == done + (head + v + tail);
    }

    /** Indentation, the name of a member, the colon: each reserved apart. */
    method PrintHead(ghost from: nat, ghost done: seq<byte>, key: seq<byte>) returns (ok: bool)
      requires Valid() && NUL !in key && offset == from + |done| && offset < length
      requires At(Text(), from, done)
      modifies this`buffer, this`length, this`granted, this`offset, buffer
      ensures
        var t := MemberHead(key, format, depth);
        && Kept(from) && depth == old(depth)
        && (ok ==> offset == from + |done + t| < length && At(Text(), from, done + t))
        && (!ok ==> from + |done + t| + 2 > Limit())
    {
      hide At, Quoted, Tabs;
      ghost var tabs := Opt(format, Tabs(depth));
      if format {
        ok := Put(from, done, depth, Tabs(depth), false);
        if !ok {
          return;
        }
      } else {
        assert done + [] == done;
      }
      ok := PrintKey(from, done + tabs, key);
      if !ok {
        return;
      }
      var colon := [COLON] + Opt(format, [TAB]);
      ok := Put(from, done + tabs + Quoted(key), |colon|, colon, false);
      assert done + tabs + Quoted(key) + colon == done + MemberHead(key, format, depth);
    }

    /** print_string_ptr on a name, and then update_offset. */
    method PrintKey(ghost from: nat, ghost done: seq<byte>, key: seq<byte>) returns (ok: bool)
      requires Valid() && NUL !in key && offset == from + |done| && offset < length
      requires At(Text(), from, done)
      modifies this`buffer, this`length, this`granted, this`offset, buffer
      ensures
        var t := done + Quoted(key);
        && Kept(from) && depth == old(depth)
        && (ok <==> from + |t| + 2 <= Limit())
        && (ok ==> offset == from + |t| < length && At(Text(), from, t))
    {
      hide At, Quoted;
      ghost var start := offset;
      ok := PrintStringPtr(key);
      if ok {
        Advance(start, Quoted(key));
        AtKept(old(Text()), Text(), start, from, done);
        AtConcat(Text(), from, done, Quoted(key));
      }
    }
  }

  lemma RenderNoItems(items: seq<Json>, fmt: bool, d: nat, num: NumberText)
    requires items == []
    ensures RenderItems(items, fmt, d, num) == []
  {
  }

  lemma ItemsNext(items: seq<Json>, i: nat, fmt: bool, d: nat, num: NumberText)
    requires i < |items| && PrintableItems(items[i..], num)
    ensures Printable(items[i], num) && PrintableItems(items[i + 1..], num)
    ensures RenderItems(items[i..], fmt, d, num) ==
            Render(items[i], fmt, d, num) + Opt(i + 1 < |items|, ItemSeparator(fmt))
            + RenderItems(items[i + 1..], fmt, d, num)
  {
    assert items[i..][1..] == items[i + 1..];
  }

  lemma RenderObject(members: seq<Member>, fmt: bool, d: nat, num: NumberText)
    ensures Render(Object(members), fmt, d, num) ==
            ([LBRACE] + Opt(fmt, [LF])) + RenderMembers(members, fmt, d + 1, num)
            + (Opt(fmt, Tabs(d)) + [RBRACE])
  {
  }

  lemma RenderNoMembers(members: seq<Member>, fmt: bool, d: nat, num: NumberText)
    requires members == []
    ensures RenderMembers(members, fmt, d, num) == []
  {
  }

  lemma MembersNext(members: seq<Member>, i: nat, fmt: bool, d: nat, num: NumberText)
    requires i < |members| && PrintableMembers(members[i..], num)
    ensures NUL !in members[i].key
    ensures Printable(members[i].value, num) && PrintableMembers(members[i + 1..], num)
    ensures RenderMembers(members[i..], fmt, d, num) ==
            MemberHead(members[i].key, fmt, d) + Render(members[i].value, fmt, d, num)
            + MemberTail(i + 1 < |members|, fmt) + RenderMembers(members[i + 1..], fmt, d, num)
  {
    hide MemberHead;
    assert members[i..][1..] == members[i + 1..];
  }

  /** The text of a printable tree is a C string. */
  lemma {:induction false} PrintableText(j: Json, fmt: bool, d: nat, num: NumberText)
    requires Printable(j, num)
    ensures NUL !in Render(j, fmt, d, num)
    decreases j, 1
  {
    match j
    case Array(items) => PrintableItemsText(items, fmt, d + 1, num);
    case Object(members) => PrintableMembersText(members, fmt, d + 1, num);
    case _ =>
  }

  lemma {:induction false} PrintableItemsText(items: seq<Json>, fmt: bool, d: nat, num: NumberText)
    requires PrintableItems(items, num)
    ensures NUL !in RenderItems(items, fmt, d, num)
    decreases items, 0
  {
    if items != [] {
      PrintableText(items[0], fmt, d, num);
      PrintableItemsText(items[1..], fmt, d, num);
    }
  }

  lemma {:induction false} PrintableMembersText(members: seq<Member>, fmt: bool, d: nat, num: NumberText)
    requires PrintableMembers(members, num)
    ensures NUL !in RenderMembers(members, fmt, d, num)
    decreases members, 0
  {
    if members != [] {
      PrintableText(members[0].value, fmt, d, num);
      PrintableMembersText(members[1..], fmt, d, num);
    }
  }

  lemma AtNothing(c: seq<byte>, off: nat)
    requires off <= |c|
    ensures At(c, off, [])
  {
  }

  lemma EscapedAllOfNothing()
    ensures EscapedAll([]) == []
  {
  }

  lemma EscapedAllSplit(s: seq<byte>, i: nat)
    requires i <= |s|
    ensures EscapedAll(s) == EscapedAll(s[..i]) + EscapedAll(s[i..])
  {
    hide EscapedAll;
    assert s[..i] + s[i..] == s;
    EscapedAllConcat(s[..i], s[i..]);
  }

  lemma {:induction false} EscapedAllConcat(s: seq<byte>, t: seq<byte>)
    ensures EscapedAll(s + t) == EscapedAll(s) + EscapedAll(t)
  {
    if s == [] {
      assert s + t == t;
    } else {
      assert (s + t)[1..] == s[1..] + t;
      EscapedAllConcat(s[1..], t);
    }
  }

  lemma EscapedAllNext(s: seq<byte>, i: nat)
    requires i < |s|
    ensures EscapedAll(s[..i + 1]) == EscapedAll(s[..i]) + Escaped(s[i])
  {
    assert s[..i + 1] == s[..i] + [s[i]];
    EscapedAllConcat(s[..i], [s[i]]);
    assert [s[i]][1..] == [];
    assert EscapedAll([s[i]]) == Escaped(s[i]) + [];
  }

  lemma {:induction false} NothingEscaped(s: seq<byte>)
    requires |EscapedAll(s)| == |s| && NUL !in s
    ensures EscapedAll(s) == s
  {
    if s != [] {
      EscapedGrows(s[1..]);
      NothingEscaped(s[1..]);
    }
  }

  lemma {:induction false} EscapedGrows(s: seq<byte>)
    ensures |EscapedAll(s)| >= |s|
  {
    if s != [] {
      EscapedGrows(s[1..]);
    }
  }

  // ---- drivers ----

  /** The printed text in a buffer of its own, by reallocation or by copy. */
  method CopyOut(buffer: array<byte>, offset: nat, length: nat, canReallocate: bool) returns (printed: array<byte>)
    requires offset < length <= buffer.Length && buffer[offset] == NUL
    ensures fresh(printed) && printed[..] == buffer[..offset + 1]
  {
    printed := new byte[offset + 1];
    var copied := if canReallocate || offset + 1 < length then offset + 1 else length;
    forall i | 0 <= i < copied {
      printed[i] := buffer[i];
    }
    if !canReallocate {
      printed[offset] := NUL;
    }
  }

  /** cJSON_Print and cJSON_PrintUnformatted; `canReallocate` tells which way the copy is made. */
  method Print(j: Json, format: bool, num: NumberText, canReallocate: bool)
    returns (ok: bool, printed: array<byte>)
    requires Printable(j, num)
    ensures ok <==> |Render(j, format, 0, num)| + 2 <= INT_MAX
    ensures ok ==> printed[..] == Render(j, format, 0, num) + [NUL]
  {
    hide Render;
    ghost var t := Render(j, format, 0, num);
    var buffer := new byte[DEFAULT_BUFFER_SIZE];
    var p := new PrintBuffer(buffer, DEFAULT_BUFFER_SIZE, false, format, num);
    ok := p.PrintValue(j);
    if !ok {
      printed := p.buffer;
      return;
    }
    PrintableText(j, format, 0, num);
    p.Advance(0, t);
    AtConcat(p.Text(), 0, t, [NUL]);
    printed := CopyOut(p.buffer, p.offset, p.length, canReallocate);
    assert printed[..] == p.Text()[..|t| + 1];
  }

  /** cJSON_PrintBuffered. */
  method PrintBuffered(j: Json, prebuffer: int, format: bool, num: NumberText)
    returns (ok: bool, printed: array<byte>)
    requires Printable(j, num) && prebuffer <= INT_MAX
    ensures ok <==> prebuffer >= 0 && |Render(j, format, 0, num)| + 2 <= INT_MAX
    ensures ok ==> At(printed[..], 0, Render(j, format, 0, num) + [NUL])
  {
    hide Render;
    if prebuffer < 0 {
      printed := new byte[0];
      return false, printed;
    }
    var buffer := new byte[prebuffer];
    var p := new PrintBuffer(buffer, prebuffer, false, format, num);
    ok := p.PrintValue(j);
    printed := p.buffer;
  }

  /** cJSON_PrintPreallocated: it succeeds exactly when two bytes more than the text are given. */
  method PrintPreallocated(j: Json, buf: array<byte>, len: int, format: bool, num: NumberText) returns (ok: bool)
    requires Printable(j, num) && len <= buf.Length && len <= INT_MAX
    modifies buf
    ensures ok <==> len >= |Render(j, format, 0, num)| + 2
    ensures ok ==> At(buf[..], 0, Render(j, format, 0, num) + [NUL])
    ensures len >= 0 ==> buf[len..] == old(buf[len..])
    ensures len < 0 ==> buf[..] == old(buf[..])
  {
    hide Render;
    if len < 0 {
      return false;
    }
    var p := new PrintBuffer(buf, len, true, format, num);
    ok := p.PrintValue(j);
  }
}

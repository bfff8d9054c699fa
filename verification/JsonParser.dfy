/** The parse buffer of cJSON.c and the routines that move its cursor, proved against JsonGrammar. */
module JsonParser {
  import opened Bytes
  import opened DecimalDigits
  import opened JsonTree
  import opened JsonNumber
  import opened JsonString
  import opened JsonGrammar

  class ParseBuffer {
    const content: seq<byte>
    var offset: nat
    var depth: nat

    constructor (content: seq<byte>)
      ensures this.content == content && offset == 0 && depth == 0
    {
      this.content := content;
      offset, depth := 0, 0;
    }

    /** The cursor is where the outcome `r` leaves it, for a routine entered at depth `before`. */
    ghost predicate LeftAt<T>(r: Outcome<T>, before: nat)
      reads this
    {
      match r
      case Fail(at, d) => offset == at && depth == d
      case Done(_, next) => offset == next && depth == before
    }

    method SkipWhitespace()
      requires offset < |content|
      modifies this`offset
      ensures offset == Skip(content, old(offset))
    {
      while offset < |content| && content[offset] <= SPACE
        invariant old(offset) <= offset <= |content|
        invariant forall i :: old(offset) <= i < offset ==> content[i] <= SPACE
        invariant offset < |content| ==> Skip(content, old(offset)) == Skip(content, offset)
        invariant offset == |content| ==> Skip(content, old(offset)) == |content| - 1
      {
        offset := offset + 1;
      }
      if offset == |content| {
        offset := offset - 1;
      }
    }

    method SkipUtf8Bom()
      requires offset == 0 < |content|
      modifies this`offset
      ensures offset == SkipBom(content)
    {
      if offset + 4 < |content| && At(content, offset, BOM) {
        offset := offset + 3;
      }
    }

    /** The loop of parse_number that copies number characters into its 64 byte buffer. */
    method CollectNumber() returns (t: seq<byte>)
      requires offset < |content|
      ensures t == Collect(content, offset, 0)
    {
      t := [];
      var i := 0;
      while i < COLLECT_LIMIT && offset + i < |content| && IsNumberChar(content[offset + i])
        invariant 0 <= i <= COLLECT_LIMIT && offset + i <= |content|
        invariant Collect(content, offset, 0) == t + Collect(content, offset + i, i)
      {
        assert t + Collect(content, offset + i, i)
            == (t + [content[offset + i]]) + Collect(content, offset + i + 1, i + 1);
        t := t + [content[offset + i]];
        i := i + 1;
      }
    }

    method ParseNumberItem() returns (ok: bool, item: Json)
      requires NulEnded(content) && offset < |content|
      modifies this`offset
      ensures
        var r := ParseNumber(content, old(offset), depth);
        LeftAt(r, depth) && ok == r.Done? && (ok ==> item == r.value)
    {
      item := Null;
      var t := CollectNumber();
      var (used, value) := Strtod(t);
      if used == 0 {
        return false, item;
      }
      item := Number(value);
      offset := offset + used;
      ok := true;
    }

    /** parse_hex4 on the four bytes at `p`. */
    method ParseHex4(p: nat) returns (h: nat)
      requires p + 4 <= |content|
      ensures h == Hex4(content, p)
    {
      h := 0;
      var i := 0;
      while i < 4
        invariant i <= 4
        invariant forall k :: p <= k < p + i ==> IsHex(content[k])
        invariant i == 1 ==> h == 16 * HexValue(content[p])
        invariant i == 2 ==> h == 256 * HexValue(content[p]) + 16 * HexValue(content[p + 1])
        invariant i == 3 ==> h == 4096 * HexValue(content[p]) + 256 * HexValue(content[p + 1])
                                  + 16 * HexValue(content[p + 2])
        invariant i == 4 ==> h == Hex4(content, p)
        invariant i == 0 ==> h == 0
      {
        if !IsHex(content[p + i]) {
          return 0;
        }
        h := h + HexValue(content[p + i]);
        if i < 3 {
          h := 16 * h;
        }
        i := i + 1;
      }
    }

    /** The UTF-8 bytes of `code`, stored from the last to the first. */
    method EncodeUtf8(code: nat, output: array<byte>, to: nat) returns (written: nat)
      requires code <= 0x10FFFF && to + Utf8Length(code) <= output.Length
      modifies output
      ensures written == Utf8Length(code)
      ensures output[..to] == old(output[..to]) && output[to..to + written] == Utf8(code)
    {
      written := Utf8Length(code);
      var position := written - 1;
      var left := code;
      while position > 0
        invariant 0 <= position < written
        invariant left == if position == written - 1 then code
                          else if position == written - 2 then code / 64
                          else if position == written - 3 then code / 64 / 64
                          else code / 64 / 64 / 64
        invariant output[..to] == old(output[..to])
        invariant forall k :: position < k < written ==> output[to + k] == Utf8(code)[k]
      {
        output[to + position] := 0x80 + left % 64;
        left := left / 64;
        position := position - 1;
      }
      var mark := if written == 1 then 0 else if written == 2 then 0xC0 else if written == 3 then 0xE0 else 0xF0;
      output[to] := mark + left;
      assert forall k :: 0 <= k < written ==> output[to + k] == Utf8(code)[k];
    }

    /** utf16_literal_to_utf8 on the escape at `p`; `used` is 0 when it is rejected. */
    method Utf16LiteralToUtf8(p: nat, end: nat, output: array<byte>, to: nat)
      returns (used: nat, written: nat)
      requires p <= end <= |content|
      requires Utf16Escape(content, p, end).0 > 0 ==>
                 to + Utf8Length(Utf16Escape(content, p, end).1) <= output.Length
      modifies output
      ensures used == Utf16Escape(content, p, end).0
      ensures used == 0 ==> written == 0 && output[..] == old(output[..])
      ensures used > 0 ==>
                var t := Utf8(Utf16Escape(content, p, end).1);
                written == |t| && to + written <= output.Length
                && output[..to] == old(output[..to]) && output[to..to + written] == t
    {
      used, written := 0, 0;
      if end - p < 6 {
        return;
      }
      var first := ParseHex4(p + 2);
      if IsLowSurrogate(first) {
        return;
      }
      var code := first;
      if IsHighSurrogate(first) {
        if end - (p + 6) < 6 || content[p + 6] != BACKSLASH || content[p + 7] != LOWER_U {
          return;
        }
        var second := ParseHex4(p + 8);
        if !IsLowSurrogate(second) {
          return;
        }
        code := PairCode(first, second);
        used := 12;
      } else {
        used := 6;
      }
      written := EncodeUtf8(code, output, to);
    }

    /** The first pass of parse_string: the closing quote and the bytes to leave out of the size. */
    method FindStringEnd() returns (found: bool, end: nat, skipped: nat)
      requires offset < |content|
      ensures
        var r := Scan(content, offset + 1);
        found == r.Some? && (found ==> end == r.value && skipped == Skipped(content, offset + 1))
    {
      end, skipped := offset + 1, 0;
      while end < |content| && content[end] != QUOTE
        invariant offset < end <= |content|
        invariant Scan(content, offset + 1) == Scan(content, end)
        invariant Scan(content, end).Some? ==>
                    Skipped(content, offset + 1) == skipped + Skipped(content, end)
        decreases |content| - end
      {
        if content[end] == BACKSLASH {
          if end + 1 >= |content| {
            return false, end, skipped;
          }
          skipped := skipped + 1;
          end := end + 1;
        }
        end := end + 1;
      }
      found := end < |content|;
    }

    /** One round of the second pass; `used` is 0 when the escape at `p` is rejected. */
    method UnescapeRound(p: nat, end: nat, output: array<byte>, to: nat)
      returns (used: nat, written: nat)
      requires p < end < |content|
      requires to + |Round(content, p, end).1| <= output.Length
      modifies output
      ensures
        var (n, out) := Round(content, p, end);
        used == n && output[..to] == old(output[..to])
        && (n > 0 ==> written == |out| && output[to..to + written] == out)
    {
      if content[p] != BACKSLASH {
        output[to] := content[p];
        used, written := 1, 1;
      } else if content[p + 1] == LOWER_U {
        used, written := Utf16LiteralToUtf8(p, end, output, to);
      } else {
        var short := ShortEscape(content[p + 1]);
        if short.None? {
          return 0, 0;
        }
        output[to] := short.value;
        used, written := 2, 1;
      }
    }

    /** The second pass of parse_string, over an output that has room for what it will write. */
    method UnescapeInto(end: nat, output: array<byte>) returns (ok: bool, length: nat, at: nat)
      requires offset < end < |content|
      requires |Unescape(content, offset + 1, end).out| < output.Length
      modifies output
      ensures length < output.Length
      ensures Unescape(content, offset + 1, end) == Unescaped(ok, output[..length], at)
    {
      hide Round;
      ghost var whole := Unescape(content, offset + 1, end);
      at, length := offset + 1, 0;
      assert whole == After(output[..length], whole);
      while at < end
        invariant offset < at <= end + 1
        invariant 0 <= length <= |whole.out|
        invariant whole == After(output[..length], Unescape(content, at, end))
        decreases end + 1 - at
      {
        ghost var before := output[..length];
        UnescapeUnfold(content, at, end, before);
        var used, written := UnescapeRound(at, end, output, length);
        if used == 0 {
          return false, length, at;
        }
        assert output[..length + written] == before + Round(content, at, end).1;
        at := at + used;
        length := length + written;
      }
      ok := true;
    }

    /** parse_string: every store of the second pass is inside what the first pass allocated. */
    method ParseStringText() returns (ok: bool, text: seq<byte>)
      requires NulEnded(content) && offset < |content|
      modifies this`offset
      ensures
        var r := ParseString(content, old(offset), depth);
        LeftAt(r, depth) && ok == r.Done? && (ok ==> text == r.value)
    {
      hide Scan, Skipped, Unescape, CStr;
      text := [];
      if content[offset] != QUOTE {
        offset := offset + 1;
        return false, text;
      }
      var found, end, skipped := FindStringEnd();
      if !found {
        offset := offset + 1;
        return false, text;
      }
      OutputFitsAllocation(content, offset);
      var output := new byte[end - offset - skipped + 1];
      var unescaped, length, at := UnescapeInto(end, output);
      if !unescaped {
        offset := at;
        return false, text;
      }
      output[length] := NUL;
      assert output[..] == output[..length] + ([NUL] + output[length + 1..]);
      CStrIgnoresTail(output[..length], [NUL] + output[length + 1..]);
      text := CStr(output[..]);
      offset := end + 1;
      ok := true;
    }

    method ParseAny() returns (ok: bool, item: Json)
      requires NulEnded(content) && offset < |content|
      modifies this
      ensures
        var r := ParseValue(content, old(offset), old(depth));
        LeftAt(r, old(depth)) && ok == r.Done? && (ok ==> item == r.value)
      decreases |content| - offset, 2
    {
      ok, item := true, Null;
      if At(content, offset, NULL_TEXT) {
        offset := offset + 4;
      } else if At(content, offset, FALSE_TEXT) {
        item := False;
        offset := offset + 5;
      } else if At(content, offset, TRUE_TEXT) {
        item := True;
        offset := offset + 4;
      } else if content[offset] == QUOTE {
        var text;
        ok, text := ParseStringText();
        item := String(text);
      } else if content[offset] == MINUS || IsDigit(content[offset]) {
        ok, item := ParseNumberItem();
      } else if content[offset] == LBRACKET {
        ok, item := ParseArrayItem();
      } else if content[offset] == LBRACE {
        ok, item := ParseObjectItem();
      } else {
        ok := false;
      }
    }

    method ParseArrayItem() returns (ok: bool, item: Json)
      requires NulEnded(content) && offset < |content| && content[offset] == LBRACKET
      modifies this
      ensures
        var r := ParseArray(content, old(offset), old(depth));
        LeftAt(r, old(depth)) && ok == r.Done? && (ok ==> item == r.value)
      decreases |content| - offset, 1
    {
      hide ParseValue, Items, Skip;
      ok, item := false, Null;
      if depth >= NESTING_LIMIT {
        return;
      }
      ArrayStep(content, offset, depth);
      depth := depth + 1;
      offset := offset + 1;
      SkipWhitespace();
      var items := [];
      if content[offset] != RBRACKET {
        offset := offset - 1;
        ok, items := ParseItemsLoop();
        if !ok {
          return;
        }
      }
      depth := depth - 1;
      item := Array(items);
      offset := offset + 1;
      ok := true;
    }

    /** The do loop of parse_array: the cursor is on the byte before the first value. */
    method ParseItemsLoop() returns (ok: bool, items: seq<Json>)
      requires NulEnded(content) && offset + 1 < |content|
      modifies this
      ensures
        match Items(content, old(offset) + 1, old(depth))
        case Fail(at, d) => !ok && offset == at && depth == d
        case Done(value, next) => ok && items == value && offset + 1 == next && depth == old(depth)
      decreases |content| - offset, 0
    {
      hide ParseValue, Items, Skip, Prepend;
      items := [];
      ghost var whole := Items(content, offset + 1, depth);
      PrependNothing(whole);
      var more := true;
      while more
        invariant depth == old(depth) && old(offset) <= offset < |content|
        invariant more ==> offset + 1 < |content| &&
                           whole == Prepend(items, Items(content, offset + 1, depth))
        invariant !more ==> content[offset] != COMMA &&
                            whole == if content[offset] == RBRACKET then Done(items, offset + 1)
                                     else Fail(offset, depth)
        decreases |content| - offset, more
      {
        ItemsUnfold(content, offset + 1, depth, items);
        offset := offset + 1;
        var parsed, value := ParseElement();
        if !parsed {
          return false, items;
        }
        SkipWhitespace();
        items := items + [value];
        more := content[offset] == COMMA;
      }
      ok := content[offset] == RBRACKET;
    }

    method ParseObjectItem() returns (ok: bool, item: Json)
      requires NulEnded(content) && offset < |content| && content[offset] == LBRACE
      modifies this
      ensures
        var r := ParseObject(content, old(offset), old(depth));
        LeftAt(r, old(depth)) && ok == r.Done? && (ok ==> item == r.value)
      decreases |content| - offset, 1
    {
      hide ParseValue, Members, Skip;
      ok, item := false, Null;
      if depth >= NESTING_LIMIT {
        return;
      }
      ObjectStep(content, offset, depth);
      depth := depth + 1;
      offset := offset + 1;
      SkipWhitespace();
      var members := [];
      if content[offset] != RBRACE {
        offset := offset - 1;
        ok, members := ParseMembersLoop();
        if !ok {
          return;
        }
      }
      depth := depth - 1;
      item := Object(members);
      offset := offset + 1;
      ok := true;
    }

    /** The do loop of parse_object: the cursor is on the byte before the first member. */
    method ParseMembersLoop() returns (ok: bool, members: seq<Member>)
      requires NulEnded(content) && offset + 1 < |content|
      modifies this
      ensures
        match Members(content, old(offset) + 1, old(depth))
        case Fail(at, d) => !ok && offset == at && depth == d
        case Done(value, next) => ok && members == value && offset + 1 == next && depth == old(depth)
      decreases |content| - offset, 0
    {
      hide ParseMember, Members, Skip, Prepend;
      members := [];
      ghost var whole := Members(content, offset + 1, depth);
      PrependNothing(whole);
      var more := true;
      while more
        invariant depth == old(depth) && old(offset) <= offset < |content|
        invariant more ==> offset + 1 < |content| &&
                           whole == Prepend(members, Members(content, offset + 1, depth))
        invariant !more ==> content[offset] != COMMA &&
                            whole == if content[offset] == RBRACE then Done(members, offset + 1)
                                     else Fail(offset, depth)
        decreases |content| - offset, more
      {
        MembersUnfold(content, offset + 1, depth, members);
        offset := offset + 1;
        var parsed, member := ParseMemberItem();
        if !parsed {
          return false, members;
        }
        SkipWhitespace();
        members := members + [member];
        more := content[offset] == COMMA;
      }
      ok := content[offset] == RBRACE;
    }

    /** The body of the loop of parse_array: a value after white space. */
    method ParseElement() returns (ok: bool, item: Json)
      requires NulEnded(content) && offset < |content|
      modifies this
      ensures
        var r := ParseValue(content, Skip(content, old(offset)), old(depth));
        LeftAt(r, old(depth)) && ok == r.Done? && (ok ==> item == r.value)
      decreases |content| - offset, 3
    {
      SkipWhitespace();
      ok, item := ParseAny();
    }

    /** The body of the loop of parse_object: a name, a colon, a value. */
    method ParseMemberItem() returns (ok: bool, member: Member)
      requires NulEnded(content) && offset < |content|
      modifies this
      ensures
        var r := ParseMember(content, old(offset), old(depth));
        LeftAt(r, old(depth)) && ok == r.Done? && (ok ==> member == r.value)
      decreases |content| - offset, 3
    {
      hide ParseValue, ParseString, ParseMember, Skip;
      MemberUnfold(content, offset, depth);
      member := Member([], Null);
      SkipWhitespace();
      var named, key := ParseStringText();
      if !named {
        return false, member;
      }
      SkipWhitespace();
      if content[offset] != COLON {
        return false, member;
      }
      offset := offset + 1;
      SkipWhitespace();
      var parsed, value := ParseAny();
      if !parsed {
        return false, member;
      }
      return true, Member(key, value);
    }
  }

  /** Where a failed parse is reported: the offset it stopped at, or the last byte. */
  function ErrorPosition(c: seq<byte>, r: Outcome<Json>): (p: nat)
    requires r.Fail? && |c| > 0
    ensures p < |c| && p <= r.at && (p == r.at || p == |c| - 1)
  {
    if r.at < |c| then r.at else |c| - 1
  }

  /** cJSON_ParseWithOpts on the stored string `c`; `end` is what it hands back in return_parse_end. */
  method ParseWithOpts(c: seq<byte>, requireEnd: bool) returns (ok: bool, item: Json, end: nat)
    requires Terminated(c)
    ensures
      var r := ParseText(c, requireEnd);
      ok == r.Done? && (ok ==> item == r.value && end == r.next) && (!ok ==> end == ErrorPosition(c, r))
  {
    var buffer := new ParseBuffer(c);
    buffer.SkipUtf8Bom();
    buffer.SkipWhitespace();
    ok, item := buffer.ParseAny();
    if ok && requireEnd {
      buffer.SkipWhitespace();
      ok := c[buffer.offset] == NUL;
    }
    if ok {
      end := buffer.offset;
    } else {
      end := if buffer.offset < |c| then buffer.offset else |c| - 1;
    }
  }
}

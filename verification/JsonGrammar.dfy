/**
 * The parser as a function of the text and the cursor (offset, depth): what each parse
 * routine accepts, the value it builds and where it leaves the cursor.
 */
module JsonGrammar {
  import opened Bytes
  import opened DecimalDigits
  import opened JsonTree
  import opened JsonNumber
  import opened JsonString

  const NULL_TEXT: seq<byte> := [110, 117, 108, 108]
  const FALSE_TEXT: seq<byte> := [102, 97, 108, 115, 101]
  const TRUE_TEXT: seq<byte> := [116, 114, 117, 101]
  const BOM: seq<byte> := [0xEF, 0xBB, 0xBF]

  /** A failed parse leaves the cursor where it stopped; a successful one restores the depth. */
  datatype Outcome<+T> = Fail(at: nat, depth: nat) | Done(value: T, next: nat)

  predicate NulEnded(c: seq<byte>) {
    |c| > 0 && c[|c| - 1] == NUL
  }

  /** Bytes up to 32 are skipped, the terminator too, but then the cursor steps back onto it. */
  function Skip(c: seq<byte>, off: nat): (r: nat)
    requires off < |c|
    ensures off <= r < |c|
    ensures c[r] > SPACE || r == |c| - 1
    ensures forall i :: off <= i < r ==> c[i] <= SPACE
    decreases |c| - off
  {
    if c[off] > SPACE || off + 1 == |c| then off else Skip(c, off + 1)
  }

  function ParseNumber(c: seq<byte>, off: nat, depth: nat): (r: Outcome<Json>)
    requires NulEnded(c) && off < |c|
    ensures r.Done? ==> off < r.next < |c| && r.value.Number?
    ensures r.Fail? ==> r.at <= |c|
  {
    var t := Collect(c, off, 0);
    var (n, value) := Strtod(t);
    if n == 0 then Fail(off, depth)
    else
      assert IsNumberChar(t[n - 1]);
      Done(Number(value), off + n)
  }

  function ParseString(c: seq<byte>, off: nat, depth: nat): (r: Outcome<seq<byte>>)
    requires NulEnded(c) && off < |c|
    ensures r.Done? ==> off < r.next < |c|
    ensures r.Fail? ==> r.at <= |c|
  {
    if c[off] != QUOTE then Fail(off + 1, depth)
    else
      match Scan(c, off + 1)
      case None => Fail(off + 1, depth)
      case Some(end) =>
        var u := Unescape(c, off + 1, end);
        if u.ok then Done(CStr(u.out), end + 1) else Fail(u.at, depth)
  }

  function ParseValue(c: seq<byte>, off: nat, depth: nat): (r: Outcome<Json>)
    requires NulEnded(c) && off < |c|
    ensures r.Done? ==> off < r.next < |c|
    ensures r.Fail? ==> r.at <= |c|
    decreases |c| - off, 2
  {
    if At(c, off, NULL_TEXT) then assert c[off..off + 4][3] == c[off + 3]; Done(Null, off + 4)
    else if At(c, off, FALSE_TEXT) then assert c[off..off + 5][4] == c[off + 4]; Done(False, off + 5)
    else if At(c, off, TRUE_TEXT) then assert c[off..off + 4][3] == c[off + 3]; Done(True, off + 4)
    else if c[off] == QUOTE then
      match ParseString(c, off, depth)
      case Fail(at, d) => Fail(at, d)
      case Done(s, next) => Done(String(s), next)
    else if c[off] == MINUS || IsDigit(c[off]) then ParseNumber(c, off, depth)
    else if c[off] == LBRACKET then ParseArray(c, off, depth)
    else if c[off] == LBRACE then ParseObject(c, off, depth)
    else Fail(off, depth)
  }

  function ParseArray(c: seq<byte>, off: nat, depth: nat): (r: Outcome<Json>)
    requires NulEnded(c) && off < |c| && c[off] == LBRACKET
    ensures r.Done? ==> off < r.next < |c| && r.value.Array?
    ensures r.Fail? ==> r.at <= |c|
    decreases |c| - off, 1
  {
    if depth >= NESTING_LIMIT then Fail(off, depth)
    else
      var o := Skip(c, off + 1);
      if c[o] == RBRACKET then Done(Array([]), o + 1)
      else
        match Items(c, o, depth + 1)
        case Fail(at, d) => Fail(at, d)
        case Done(items, next) => Done(Array(items), next)
  }

  /** The outcome `r` with the values `done` put in front. */
  function Prepend<T>(done: seq<T>, r: Outcome<seq<T>>): Outcome<seq<T>> {
    match r
    case Fail(at, d) => Fail(at, d)
    case Done(rest, next) => Done(done + rest, next)
  }

  /** The elements from `off` on, with the bracket that closes them. */
  function Items(c: seq<byte>, off: nat, depth: nat): (r: Outcome<seq<Json>>)
    requires NulEnded(c) && off < |c|
    ensures r.Done? ==> off < r.next < |c| && r.value != []
    ensures r.Fail? ==> r.at <= |c|
    decreases |c| - off, 3
  {
    match ParseValue(c, Skip(c, off), depth)
    case Fail(at, d) => Fail(at, d)
    case Done(item, next) =>
      var n := Skip(c, next);
      if c[n] == COMMA then Prepend([item], Items(c, n + 1, depth))
      else if c[n] == RBRACKET then Done([item], n + 1)
      else Fail(n, depth)
  }

  function ParseObject(c: seq<byte>, off: nat, depth: nat): (r: Outcome<Json>)
    requires NulEnded(c) && off < |c| && c[off] == LBRACE
    ensures r.Done? ==> off < r.next < |c| && r.value.Object?
    ensures r.Fail? ==> r.at <= |c|
    decreases |c| - off, 1
  {
    if depth >= NESTING_LIMIT then Fail(off, depth)
    else
      var o := Skip(c, off + 1);
      if c[o] == RBRACE then Done(Object([]), o + 1)
      else
        match Members(c, o, depth + 1)
        case Fail(at, d) => Fail(at, d)
        case Done(members, next) => Done(Object(members), next)
  }

  /** One member: its name, a colon and its value. */
  function ParseMember(c: seq<byte>, off: nat, depth: nat): (r: Outcome<Member>)
    requires NulEnded(c) && off < |c|
    ensures r.Done? ==> off < r.next < |c|
    ensures r.Fail? ==> r.at <= |c|
    decreases |c| - off, 3
  {
    match ParseString(c, Skip(c, off), depth)
    case Fail(at, d) => Fail(at, d)
    case Done(key, next) =>
      var n := Skip(c, next);
      if c[n] != COLON then Fail(n, depth)
      else
        match ParseValue(c, Skip(c, n + 1), depth)
        case Fail(at, d) => Fail(at, d)
        case Done(value, last) => Done(Member(key, value), last)
  }

  function Members(c: seq<byte>, off: nat, depth: nat): (r: Outcome<seq<Member>>)
    requires NulEnded(c) && off < |c|
    ensures r.Done? ==> off < r.next < |c| && r.value != []
    ensures r.Fail? ==> r.at <= |c|
    decreases |c| - off, 4
  {
    match ParseMember(c, off, depth)
    case Fail(at, d) => Fail(at, d)
    case Done(member, next) =>
      var n := Skip(c, next);
      if c[n] == COMMA then Prepend([member], Members(c, n + 1, depth))
      else if c[n] == RBRACE then Done([member], n + 1)
      else Fail(n, depth)
  }

  /** A byte order mark is skipped at the start of a text of at least four bytes. */
  function SkipBom(c: seq<byte>): (r: nat)
    requires |c| > 0
    ensures r < |c|
  {
    if 4 < |c| && At(c, 0, BOM) then 3 else 0
  }

  /** The whole text: cJSON_ParseWithOpts on the stored string `c`. */
  function ParseText(c: seq<byte>, requireEnd: bool): (r: Outcome<Json>)
    requires NulEnded(c)
    ensures r.Done? ==> r.next < |c|
    ensures r.Fail? ==> r.at <= |c|
  {
    match ParseValue(c, Skip(c, SkipBom(c)), 0)
    case Fail(at, d) => Fail(at, d)
    case Done(item, next) =>
      if !requireEnd then Done(item, next)
      else
        var n := Skip(c, next);
        if c[n] == NUL then Done(item, n) else Fail(n, 0)
  }

  // ---- one step of each routine ----

  lemma WordStarts(c: seq<byte>, off: nat)
    requires NulEnded(c) && off < |c|
    ensures At(c, off, NULL_TEXT) ==> c[off] == 110
    ensures At(c, off, FALSE_TEXT) ==> c[off] == 102
    ensures At(c, off, TRUE_TEXT) ==> c[off] == 116
  {
    if At(c, off, NULL_TEXT) { AtIndex(c, off, NULL_TEXT, 0); }
    if At(c, off, FALSE_TEXT) { AtIndex(c, off, FALSE_TEXT, 0); }
    if At(c, off, TRUE_TEXT) { AtIndex(c, off, TRUE_TEXT, 0); }
  }

  /** The first byte of a value decides which routine parses it. */
  lemma Dispatch(c: seq<byte>, off: nat, depth: nat)
    requires NulEnded(c) && off < |c|
    ensures At(c, off, NULL_TEXT) ==> ParseValue(c, off, depth) == Done(Null, off + 4)
    ensures At(c, off, FALSE_TEXT) ==> ParseValue(c, off, depth) == Done(False, off + 5)
    ensures At(c, off, TRUE_TEXT) ==> ParseValue(c, off, depth) == Done(True, off + 4)
    ensures c[off] == QUOTE ==>
              ParseValue(c, off, depth) == match ParseString(c, off, depth)
                                           case Fail(at, d) => Fail(at, d)
                                           case Done(s, next) => Done(String(s), next)
    ensures c[off] == MINUS || IsDigit(c[off]) ==> ParseValue(c, off, depth) == ParseNumber(c, off, depth)
    ensures c[off] == LBRACKET ==> ParseValue(c, off, depth) == ParseArray(c, off, depth)
    ensures c[off] == LBRACE ==> ParseValue(c, off, depth) == ParseObject(c, off, depth)
  {
    hide ParseNumber, ParseString, ParseArray, ParseObject, At;
    WordStarts(c, off);
  }

  lemma ArrayStep(c: seq<byte>, off: nat, depth: nat)
    requires NulEnded(c) && off < |c| && c[off] == LBRACKET && depth < NESTING_LIMIT
    ensures
      var o := Skip(c, off + 1);
      ParseArray(c, off, depth) ==
        if c[o] == RBRACKET then Done(Array([]), o + 1)
        else match Items(c, o, depth + 1)
             case Fail(at, d) => Fail(at, d)
             case Done(items, next) => Done(Array(items), next)
  {
    hide Items;
  }

  lemma ObjectStep(c: seq<byte>, off: nat, depth: nat)
    requires NulEnded(c) && off < |c| && c[off] == LBRACE && depth < NESTING_LIMIT
    ensures
      var o := Skip(c, off + 1);
      ParseObject(c, off, depth) ==
        if c[o] == RBRACE then Done(Object([]), o + 1)
        else match Members(c, o, depth + 1)
             case Fail(at, d) => Fail(at, d)
             case Done(members, next) => Done(Object(members), next)
  {
    hide Members;
  }

  lemma PrependNothing<T>(r: Outcome<seq<T>>)
    ensures Prepend([], r) == r
  {
    if r.Done? {
      assert [] + r.value == r.value;
    }
  }

  lemma PrependOne<T>(done: seq<T>, x: T, r: Outcome<seq<T>>)
    ensures Prepend(done, Prepend([x], r)) == Prepend(done + [x], r)
  {
    if r.Done? {
      assert done + ([x] + r.value) == (done + [x]) + r.value;
    }
  }

  /** One round of the loop over elements, and over members, after the values `done`. */
  lemma ItemsUnfold(c: seq<byte>, off: nat, depth: nat, done: seq<Json>)
    requires NulEnded(c) && off < |c|
    ensures
      Prepend(done, Items(c, off, depth)) ==
      match ParseValue(c, Skip(c, off), depth)
      case Fail(at, d) => Fail(at, d)
      case Done(item, next) =>
        var n := Skip(c, next);
        if c[n] == COMMA then Prepend(done + [item], Items(c, n + 1, depth))
        else if c[n] == RBRACKET then Done(done + [item], n + 1)
        else Fail(n, depth)
  {
    hide ParseValue, Skip;
    var v := ParseValue(c, Skip(c, off), depth);
    if v.Done? && c[Skip(c, v.next)] == COMMA {
      PrependOne(done, v.value, Items(c, Skip(c, v.next) + 1, depth));
    }
  }

  lemma MembersUnfold(c: seq<byte>, off: nat, depth: nat, done: seq<Member>)
    requires NulEnded(c) && off < |c|
    ensures
      Prepend(done, Members(c, off, depth)) ==
      match ParseMember(c, off, depth)
      case Fail(at, d) => Fail(at, d)
      case Done(member, next) =>
        var n := Skip(c, next);
        if c[n] == COMMA then Prepend(done + [member], Members(c, n + 1, depth))
        else if c[n] == RBRACE then Done(done + [member], n + 1)
        else Fail(n, depth)
  {
    hide ParseMember, Skip;
    var m := ParseMember(c, off, depth);
    if m.Done? && c[Skip(c, m.next)] == COMMA {
      PrependOne(done, m.value, Members(c, Skip(c, m.next) + 1, depth));
    }
  }

  lemma MemberUnfold(c: seq<byte>, off: nat, depth: nat)
    requires NulEnded(c) && off < |c|
    ensures
      ParseMember(c, off, depth) ==
      match ParseString(c, Skip(c, off), depth)
      case Fail(at, d) => Fail(at, d)
      case Done(key, next) =>
        var n := Skip(c, next);
        if c[n] != COLON then Fail(n, depth)
        else
          match ParseValue(c, Skip(c, n + 1), depth)
          case Fail(at, d) => Fail(at, d)
          case Done(value, last) => Done(Member(key, value), last)
  {
    hide ParseValue, ParseString, Skip;
  }

  // ---- bounds on what is accepted ----

  /** An accepted value nests no deeper than the limit, counted from the depth it starts at. */
  lemma {:induction false} AcceptedNesting(c: seq<byte>, off: nat, depth: nat)
    requires NulEnded(c) && off < |c| && depth <= NESTING_LIMIT
    ensures
      var r := ParseValue(c, off, depth);
      r.Done? ==> depth + Nesting(r.value) <= NESTING_LIMIT
    decreases |c| - off, 2
  {
    hide ParseString, ParseNumber, Items, Members, At;
    var r := ParseValue(c, off, depth);
    if r.Done? && r.value.Array? && r.value.items != [] {
      assert r == ParseArray(c, off, depth);
      AcceptedNestingOfItems(c, Skip(c, off + 1), depth + 1);
    } else if r.Done? && r.value.Object? && r.value.members != [] {
      assert r == ParseObject(c, off, depth);
      AcceptedNestingOfMembers(c, Skip(c, off + 1), depth + 1);
    }
  }

  lemma {:induction false} AcceptedNestingOfItems(c: seq<byte>, off: nat, depth: nat)
    requires NulEnded(c) && off < |c| && depth <= NESTING_LIMIT
    ensures
      var r := Items(c, off, depth);
      r.Done? ==> depth + NestingOfItems(r.value) <= NESTING_LIMIT
    decreases |c| - off, 3
  {
    hide ParseValue, Skip;
    var v := ParseValue(c, Skip(c, off), depth);
    AcceptedNesting(c, Skip(c, off), depth);
    if v.Done? && c[Skip(c, v.next)] == COMMA {
      AcceptedNestingOfItems(c, Skip(c, v.next) + 1, depth);
      var rest := Items(c, Skip(c, v.next) + 1, depth);
      if rest.Done? {
        assert ([v.value] + rest.value)[1..] == rest.value;
      }
    }
  }

  lemma {:induction false} AcceptedNestingOfMember(c: seq<byte>, off: nat, depth: nat)
    requires NulEnded(c) && off < |c| && depth <= NESTING_LIMIT
    ensures
      var r := ParseMember(c, off, depth);
      r.Done? ==> depth + Nesting(r.value.value) <= NESTING_LIMIT
    decreases |c| - off, 3
  {
    hide ParseValue, ParseString, Skip;
    var key := ParseString(c, Skip(c, off), depth);
    if key.Done? && c[Skip(c, key.next)] == COLON {
      AcceptedNesting(c, Skip(c, Skip(c, key.next) + 1), depth);
    }
  }

  lemma {:induction false} AcceptedNestingOfMembers(c: seq<byte>, off: nat, depth: nat)
    requires NulEnded(c) && off < |c| && depth <= NESTING_LIMIT
    ensures
      var r := Members(c, off, depth);
      r.Done? ==> depth + NestingOfMembers(r.value) <= NESTING_LIMIT
    decreases |c| - off, 4
  {
    hide ParseValue, ParseMember, Skip;
    var m := ParseMember(c, off, depth);
    AcceptedNestingOfMember(c, off, depth);
    if m.Done? && c[Skip(c, m.next)] == COMMA {
      AcceptedNestingOfMembers(c, Skip(c, m.next) + 1, depth);
      var rest := Members(c, Skip(c, m.next) + 1, depth);
      if rest.Done? {
        assert ([m.value] + rest.value)[1..] == rest.value;
      }
    }
  }
}

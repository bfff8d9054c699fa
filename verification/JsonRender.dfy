/** The text of a tree: what every printer is meant to produce. */
module JsonRender {
  import opened Bytes
  import opened JsonTree
  import opened JsonNumber
  import opened JsonString
  import opened JsonGrammar

  /** The text sprintf gives for a number. */
  type NumberText = real -> seq<byte>

  function HexDigit(n: nat): byte
    requires n < 16
  {
    if n < 10 then 48 + n else 87 + n
  }

  /** The characters that stand for the byte `b` inside a literal. */
  function Escaped(b: byte): (t: seq<byte>)
    ensures |t| > 0
    ensures b != NUL ==> NUL !in t
  {
    match b
    case 8 => [BACKSLASH, 98]
    case 9 => [BACKSLASH, 116]
    case 10 => [BACKSLASH, 110]
    case 12 => [BACKSLASH, 102]
    case 13 => [BACKSLASH, 114]
    case 34 => [BACKSLASH, QUOTE]
    case 92 => [BACKSLASH, BACKSLASH]
    case _ => if b < 32 then [BACKSLASH, LOWER_U, 48, 48, HexDigit(b / 16), HexDigit(b % 16)] else [b]
  }

  function EscapedAll(s: seq<byte>): (t: seq<byte>)
    ensures NUL !in s ==> NUL !in t
  {
    if s == [] then [] else Escaped(s[0]) + EscapedAll(s[1..])
  }

  function Quoted(s: seq<byte>): (t: seq<byte>)
    ensures |t| >= 2 && t[0] == QUOTE
    ensures NUL !in s ==> NUL !in t
  {
    [QUOTE] + EscapedAll(s) + [QUOTE]
  }

  function Tabs(n: nat): (t: seq<byte>)
    ensures |t| == n && forall k :: 0 <= k < n ==> t[k] == TAB
  {
    seq(n, _ => TAB)
  }

  function Opt(b: bool, t: seq<byte>): seq<byte> {
    if b then t else []
  }

  function Render(j: Json, fmt: bool, depth: nat, num: NumberText): (t: seq<byte>)
    decreases j, 1
  {
    match j
    case Null => NULL_TEXT
    case False => FALSE_TEXT
    case True => TRUE_TEXT
    case Number(value) => num(value)
    case String(s) => Quoted(s)
    case Raw(raw) => raw
    case Array(items) => [LBRACKET] + RenderItems(items, fmt, depth + 1, num) + [RBRACKET]
    case Object(members) =>
      [LBRACE] + Opt(fmt, [LF]) + RenderMembers(members, fmt, depth + 1, num)
      + Opt(fmt, Tabs(depth)) + [RBRACE]
  }

  function ItemSeparator(fmt: bool): (t: seq<byte>) {
    [COMMA] + Opt(fmt, [SPACE])
  }

  function RenderItems(items: seq<Json>, fmt: bool, depth: nat, num: NumberText): (t: seq<byte>)
    decreases items, 0
  {
    if items == [] then []
    else
      Render(items[0], fmt, depth, num) + Opt(|items| > 1, ItemSeparator(fmt))
      + RenderItems(items[1..], fmt, depth, num)
  }

  /** What precedes the value of a member: indentation, its name and a colon. */
  function MemberHead(key: seq<byte>, fmt: bool, depth: nat): (t: seq<byte>)
    ensures |t| > 0
  {
    Opt(fmt, Tabs(depth)) + Quoted(key) + [COLON] + Opt(fmt, [TAB])
  }

  function MemberTail(more: bool, fmt: bool): (t: seq<byte>) {
    Opt(more, [COMMA]) + Opt(fmt, [LF])
  }

  function RenderMembers(members: seq<Member>, fmt: bool, depth: nat, num: NumberText): (t: seq<byte>)
    decreases members, 0
  {
    if members == [] then []
    else
      MemberHead(members[0].key, fmt, depth) + Render(members[0].value, fmt, depth, num)
      + MemberTail(|members| > 1, fmt) + RenderMembers(members[1..], fmt, depth, num)
  }

  /** Every string is free of NUL, so that the text is a C string, and numbers have a text. */
  ghost predicate Printable(j: Json, num: NumberText)
    decreases j, 1
  {
    match j
    case Number(value) => |num(value)| <= PRINT_LIMIT && NUL !in num(value)
    case String(s) => NUL !in s
    case Raw(raw) => NUL !in raw
    case Array(items) => PrintableItems(items, num)
    case Object(members) => PrintableMembers(members, num)
    case _ => true
  }

  ghost predicate PrintableItems(items: seq<Json>, num: NumberText)
    decreases items, 0
  {
    items == [] || (Printable(items[0], num) && PrintableItems(items[1..], num))
  }

  ghost predicate PrintableMembers(members: seq<Member>, num: NumberText)
    decreases members, 0
  {
    members == [] ||
    (NUL !in members[0].key && Printable(members[0].value, num) && PrintableMembers(members[1..], num))
  }
}

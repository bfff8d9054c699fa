/**
 * What string literals mean, told apart from how they are parsed: a literal is a sequence of
 * units (section 7 of RFC 8259), and each unit denotes bytes (section 3 of RFC 3629 for code
 * points, section 2.2 of RFC 2781 for surrogate pairs).
 */
module JsonLiteral {
  import opened Bytes
  import opened JsonString
  import opened JsonGrammar

  datatype Unit =
    | Plain(b: byte)
    | Short(letter: byte)
    | Bmp(hex: seq<byte>)
    | Pair(high: seq<byte>, low: seq<byte>)

  const UPPER_DIGITS: string := "0123456789ABCDEF"
  const LOWER_DIGITS: string := "0123456789abcdef"

  /** The hexadecimal digits and their values. */
  const HEX: map<byte, nat> := map[
    48 := 0, 49 := 1, 50 := 2, 51 := 3, 52 := 4, 53 := 5, 54 := 6, 55 := 7, 56 := 8, 57 := 9,
    65 := 10, 66 := 11, 67 := 12, 68 := 13, 69 := 14, 70 := 15,
    97 := 10, 98 := 11, 99 := 12, 100 := 13, 101 := 14, 102 := 15]

  /** The letters of the two-character escapes and the bytes they stand for. */
  const SHORT: map<byte, byte> := map[
    QUOTE := QUOTE, BACKSLASH := BACKSLASH, SLASH := SLASH,
    'b' as int := 8, 'f' as int := 12, 'n' as int := 10, 'r' as int := 13, 't' as int := 9]

  predicate FourHex(h: seq<byte>) {
    |h| == 4 && forall k :: 0 <= k < 4 ==> h[k] in HEX
  }

  function HexNumber(h: seq<byte>): (n: nat)
    requires forall k :: 0 <= k < |h| ==> h[k] in HEX
  {
    if h == [] then 0 else 16 * HexNumber(h[..|h| - 1]) + HEX[h[|h| - 1]]
  }

  predicate WellFormed(u: Unit) {
    match u
    case Plain(b) => b != QUOTE && b != BACKSLASH && b != NUL
    case Short(letter) => letter in SHORT
    case Bmp(h) => FourHex(h) && !(0xD800 <= HexNumber(h) <= 0xDFFF)
    case Pair(hi, lo) =>
      FourHex(hi) && FourHex(lo) && 0xD800 <= HexNumber(hi) <= 0xDBFF && 0xDC00 <= HexNumber(lo) <= 0xDFFF
  }

  function Spell(u: Unit): (t: seq<byte>)
    ensures |t| > 0
  {
    match u
    case Plain(b) => [b]
    case Short(letter) => [BACKSLASH, letter]
    case Bmp(h) => [BACKSLASH, LOWER_U] + h
    case Pair(hi, lo) => [BACKSLASH, LOWER_U] + hi + [BACKSLASH, LOWER_U] + lo
  }

  /** The code point of a surrogate pair. */
  function Denoted(hi: nat, lo: nat): nat
    requires 0xD800 <= hi <= 0xDBFF && 0xDC00 <= lo <= 0xDFFF
  {
    (hi - 0xD800) * 0x400 + (lo - 0xDC00) + 0x10000
  }

  function Denote(u: Unit): seq<byte>
    requires WellFormed(u)
  {
    match u
    case Plain(b) => [b]
    case Short(letter) => [SHORT[letter]]
    case Bmp(h) => FourHexBound(h); Utf8(HexNumber(h))
    case Pair(hi, lo) => Utf8(Denoted(HexNumber(hi), HexNumber(lo)))
  }

  function SpellAll(units: seq<Unit>): seq<byte> {
    if units == [] then [] else Spell(units[0]) + SpellAll(units[1..])
  }

  predicate AllWellFormed(units: seq<Unit>) {
    forall k :: 0 <= k < |units| ==> WellFormed(units[k])
  }

  function DenoteAll(units: seq<Unit>): seq<byte>
    requires AllWellFormed(units)
  {
    if units == [] then [] else Denote(units[0]) + DenoteAll(units[1..])
  }

  // ---- UTF-8 ----

  predicate Continues(b: byte) {
    0x80 <= b < 0xC0
  }

  /** The code point and length of the sequence at the start of `t`, in its shortest form. */
  function Utf8Decode(t: seq<byte>): Option<(nat, nat)> {
    if |t| >= 1 && t[0] < 0x80 then Some((t[0] as nat, 1))
    else if |t| >= 2 && 0xC2 <= t[0] < 0xE0 && Continues(t[1]) then
      Some((64 * (t[0] as nat - 0xC0) + (t[1] as nat - 0x80), 2))
    else if |t| >= 3 && 0xE0 <= t[0] < 0xF0 && Continues(t[1]) && Continues(t[2]) then
      var cp := 4096 * (t[0] as nat - 0xE0) + 64 * (t[1] as nat - 0x80) + (t[2] as nat - 0x80);
      if cp < 0x800 || 0xD800 <= cp <= 0xDFFF then None else Some((cp, 3))
    else if |t| >= 4 && 0xF0 <= t[0] < 0xF5 && Continues(t[1]) && Continues(t[2]) && Continues(t[3]) then
      var cp := 262144 * (t[0] as nat - 0xF0) + 4096 * (t[1] as nat - 0x80)
                + 64 * (t[2] as nat - 0x80) + (t[3] as nat - 0x80);
      if cp < 0x10000 || cp > 0x10FFFF then None else Some((cp, 4))
    else None
  }

  /** What is written for a code point is its UTF-8 sequence. */
  lemma Utf8DecodesBack(cp: nat, rest: seq<byte>)
    requires cp <= 0x10FFFF && !(0xD800 <= cp <= 0xDFFF)
    ensures Utf8Decode(Utf8(cp) + rest) == Some((cp, |Utf8(cp)|))
  {
    var u := Utf8(cp);
    var t := u + rest;
    assert t[0] == u[0];
    if cp < 0x80 {
    } else if cp < 0x800 {
      assert t[1] == u[1];
    } else if cp < 0x10000 {
      assert t[1] == u[1] && t[2] == u[2];
      SixBits(cp, cp / 64);
    } else {
      assert t[1] == u[1] && t[2] == u[2] && t[3] == u[3];
      SixBits(cp, cp / 64);
      SixBits(cp / 64, cp / 4096);
    }
  }

  lemma SixBits(cp: nat, upper: nat)
    requires upper == cp / 64
    ensures upper / 64 == cp / 4096 && upper / 4096 == cp / 262144
    ensures cp == 64 * upper + cp % 64 && upper == 64 * (upper / 64) + upper % 64
  {
  }

  // ---- digits and letters ----

  lemma HexDigitMeans(b: byte)
    ensures IsHex(b) <==> b in HEX
    ensures b in HEX ==> HexValue(b) == HEX[b]
  {
  }

  /** The digit characters in order, of either case, have the values 0 to 15; nothing else is a digit. */
  lemma HexDigits(v: nat, b: byte)
    requires v < 16
    ensures IsHex(UPPER_DIGITS[v] as int) && HexValue(UPPER_DIGITS[v] as int) == v
    ensures IsHex(LOWER_DIGITS[v] as int) && HexValue(LOWER_DIGITS[v] as int) == v
    ensures IsHex(b) ==> b == UPPER_DIGITS[HexValue(b)] as int || b == LOWER_DIGITS[HexValue(b)] as int
  {
  }

  lemma ShortMeans(letter: byte)
    ensures ShortEscape(letter) == if letter in SHORT then Some(SHORT[letter]) else None
  {
  }

  // ---- units against rounds ----

  lemma FourHexBound(h: seq<byte>)
    requires FourHex(h)
    ensures HexNumber(h) == 4096 * HEX[h[0]] + 256 * HEX[h[1]] + 16 * HEX[h[2]] + HEX[h[3]]
    ensures HexNumber(h) < 0x10000
  {
    HexDigitMeans(h[0]);
    HexDigitMeans(h[1]);
    HexDigitMeans(h[2]);
    HexDigitMeans(h[3]);
    var h3, h2, h1 := h[..3], h[..2], h[..1];
    assert h3[..2] == h2 && h2[..1] == h1 && h1[..0] == [];
    assert HexNumber(h1) == HEX[h[0]];
    assert HexNumber(h2) == 16 * HexNumber(h1) + HEX[h[1]];
    assert HexNumber(h3) == 16 * HexNumber(h2) + HEX[h[2]];
    assert HexNumber(h) == 16 * HexNumber(h3) + HEX[h[3]];
  }

  lemma Hex4Reads(c: seq<byte>, p: nat, h: seq<byte>)
    requires FourHex(h) && At(c, p, h)
    ensures p + 4 <= |c| && Hex4(c, p) == HexNumber(h)
    ensures forall k :: p <= k < p + 4 ==> IsHex(c[k])
  {
    AtAll(c, p, h);
    FourHexBound(h);
    forall k | p <= k < p + 4
      ensures IsHex(c[k]) && HexValue(c[k]) == HEX[h[k - p]]
    {
      HexDigitMeans(h[k - p]);
    }
  }

  /** Four bytes read as the number their digits spell, and as 0 when one of them is no digit. */
  lemma Hex4Means(c: seq<byte>, p: nat)
    requires p + 4 <= |c|
    ensures Hex4(c, p) == if FourHex(c[p..p + 4]) then HexNumber(c[p..p + 4]) else 0
  {
    hide HexValue, HexNumber;
    var h := c[p..p + 4];
    HexDigitMeans(h[0]);
    HexDigitMeans(h[1]);
    HexDigitMeans(h[2]);
    HexDigitMeans(h[3]);
    if FourHex(h) {
      FourHexBound(h);
    }
  }

  lemma ScanPastHex(c: seq<byte>, p: nat)
    requires p + 4 < |c| && forall k :: p <= k < p + 4 ==> IsHex(c[k])
    ensures Scan(c, p) == Scan(c, p + 4)
  {
    assert Scan(c, p) == Scan(c, p + 1) == Scan(c, p + 2) == Scan(c, p + 3);
  }

  lemma EscapeHead(c: seq<byte>, p: nat, h: seq<byte>)
    requires FourHex(h) && At(c, p, [BACKSLASH, LOWER_U] + h)
    ensures p + 6 <= |c| && c[p] == BACKSLASH && c[p + 1] == LOWER_U && Hex4(c, p + 2) == HexNumber(h)
    ensures p + 6 < |c| ==> Scan(c, p) == Scan(c, p + 6)
  {
    AtConcat(c, p, [BACKSLASH, LOWER_U], h);
    AtAll(c, p, [BACKSLASH, LOWER_U]);
    Hex4Reads(c, p + 2, h);
    if p + 6 < |c| {
      ScanPastHex(c, p + 2);
    }
  }

  /** One well-formed unit: the scan passes over it and one round denotes it. */
  lemma UnitScan(c: seq<byte>, p: nat, u: Unit)
    requires WellFormed(u) && At(c, p, Spell(u)) && p + |Spell(u)| < |c|
    ensures Scan(c, p) == Scan(c, p + |Spell(u)|)
  {
    hide At, Hex4, HexNumber, FourHex;
    match u {
      case Plain(b) =>
        AtIndex(c, p, Spell(u), 0);
      case Short(letter) =>
        AtIndex(c, p, Spell(u), 0);
        AtIndex(c, p, Spell(u), 1);
      case Bmp(h) =>
        EscapeHead(c, p, h);
        FourHexLength(h);
      case Pair(hi, lo) =>
        PairHead(c, p, hi, lo);
        FourHexLength(hi);
        FourHexLength(lo);
    }
  }

  lemma PairHead(c: seq<byte>, p: nat, hi: seq<byte>, lo: seq<byte>)
    requires FourHex(hi) && FourHex(lo) && At(c, p, Spell(Pair(hi, lo)))
    ensures p + 12 <= |c| && c[p] == c[p + 6] == BACKSLASH && c[p + 1] == c[p + 7] == LOWER_U
    ensures Hex4(c, p + 2) == HexNumber(hi) && Hex4(c, p + 8) == HexNumber(lo)
    ensures p + 12 < |c| ==> Scan(c, p) == Scan(c, p + 12)
  {
    hide At, Hex4, HexNumber, Scan;
    var first, second := [BACKSLASH, LOWER_U] + hi, [BACKSLASH, LOWER_U] + lo;
    assert Spell(Pair(hi, lo)) == first + second;
    AtConcat(c, p, first, second);
    EscapeHead(c, p, hi);
    EscapeHead(c, p + 6, lo);
  }

  lemma UnitRound(c: seq<byte>, p: nat, u: Unit, end: nat)
    requires WellFormed(u) && At(c, p, Spell(u)) && p + |Spell(u)| <= end < |c|
    ensures Round(c, p, end) == (|Spell(u)|, Denote(u))
  {
    hide At, Hex4, HexNumber, Utf8, Scan, FourHex;
    match u {
      case Plain(b) =>
        AtIndex(c, p, Spell(u), 0);
      case Short(letter) =>
        AtIndex(c, p, Spell(u), 0);
        AtIndex(c, p, Spell(u), 1);
        ShortMeans(letter);
        assert LOWER_U !in SHORT;
      case Bmp(h) =>
        EscapeHead(c, p, h);
        FourHexLength(h);
      case Pair(hi, lo) =>
        PairHead(c, p, hi, lo);
        FourHexLength(hi);
        FourHexLength(lo);
    }
  }

  lemma FourHexLength(h: seq<byte>)
    requires FourHex(h)
    ensures |h| == 4
  {
  }

  lemma {:induction false} UnitsScan(c: seq<byte>, p: nat, units: seq<Unit>)
    requires AllWellFormed(units) && At(c, p, SpellAll(units)) && p + |SpellAll(units)| < |c|
    ensures Scan(c, p) == Scan(c, p + |SpellAll(units)|)
    decreases |units|
  {
    hide At, Scan, Spell, WellFormed;
    if units != [] {
      AtConcat(c, p, Spell(units[0]), SpellAll(units[1..]));
      UnitScan(c, p, units[0]);
      UnitsScan(c, p + |Spell(units[0])|, units[1..]);
    }
  }

  /** A run of well-formed units is unescaped to what it denotes. */
  lemma {:induction false} UnitsUnescape(c: seq<byte>, p: nat, units: seq<Unit>, end: nat)
    requires AllWellFormed(units) && At(c, p, SpellAll(units)) && p + |SpellAll(units)| <= end < |c|
    ensures Unescape(c, p, end) == After(DenoteAll(units), Unescape(c, p + |SpellAll(units)|, end))
    decreases |units|
  {
    hide At, Round, Spell, WellFormed, Denote;
    var last := p + |SpellAll(units)|;
    if units == [] {
      assert [] + Unescape(c, p, end).out == Unescape(c, p, end).out;
    } else {
      var n := p + |Spell(units[0])|;
      AtConcat(c, p, Spell(units[0]), SpellAll(units[1..]));
      UnitRound(c, p, units[0], end);
      UnitsUnescape(c, n, units[1..], end);
      var d, ds, tail := Denote(units[0]), DenoteAll(units[1..]), Unescape(c, last, end).out;
      assert d + (ds + tail) == (d + ds) + tail;
    }
  }

  /** A well-formed literal parses to the string it denotes (up to a NUL it may spell). */
  lemma LiteralMeaning(c: seq<byte>, off: nat, depth: nat, units: seq<Unit>)
    requires NulEnded(c) && AllWellFormed(units) && At(c, off, [QUOTE] + SpellAll(units) + [QUOTE])
    ensures off < |c|
    ensures ParseString(c, off, depth) == Done(CStr(DenoteAll(units)), off + |SpellAll(units)| + 2)
  {
    hide At, Round, SpellAll, WellFormed, DenoteAll, CStr;
    var t := SpellAll(units);
    AtConcat(c, off, [QUOTE] + t, [QUOTE]);
    AtConcat(c, off, [QUOTE], t);
    AtIndex(c, off, [QUOTE], 0);
    var end := off + 1 + |t|;
    AtIndex(c, end, [QUOTE], 0);
    UnitsScan(c, off + 1, units);
    UnitsUnescape(c, off + 1, units, end);
    assert DenoteAll(units) + [] == DenoteAll(units);
  }

  /** The escape of a low surrogate stands at `p`. */
  predicate LowSurrogateAt(c: seq<byte>, p: nat) {
    && p + 6 <= |c| && c[p] == BACKSLASH && c[p + 1] == LOWER_U
    && FourHex(c[p + 2..p + 6]) && 0xDC00 <= HexNumber(c[p + 2..p + 6]) <= 0xDFFF
  }

  /** After well-formed units, an escape that is an unpaired surrogate makes the literal fail. */
  lemma LoneSurrogateRejected(c: seq<byte>, off: nat, depth: nat, units: seq<Unit>, h: seq<byte>)
    requires NulEnded(c) && AllWellFormed(units) && FourHex(h) && 0xD800 <= HexNumber(h) <= 0xDFFF
    requires At(c, off, [QUOTE] + SpellAll(units) + ([BACKSLASH, LOWER_U] + h))
    requires HexNumber(h) < 0xDC00 ==> !LowSurrogateAt(c, off + 1 + |SpellAll(units)| + 6)
    ensures off < |c| && ParseString(c, off, depth).Fail?
  {
    hide At, Round, SpellAll, WellFormed, DenoteAll, CStr, FourHex, HexNumber, Hex4, LowSurrogateAt;
    var t := SpellAll(units);
    AtConcat(c, off, [QUOTE] + t, [BACKSLASH, LOWER_U] + h);
    AtConcat(c, off, [QUOTE], t);
    AtIndex(c, off, [QUOTE], 0);
    var p := off + 1 + |t|;
    EscapeHead(c, p, h);
    UnitsScan(c, off + 1, units);
    var end := Scan(c, off + 1);
    if end.Some? {
      UnitsUnescape(c, off + 1, units, end.value);
      LoneSurrogateRound(c, p, end.value);
    }
  }

  lemma LoneSurrogateRound(c: seq<byte>, p: nat, end: nat)
    requires p + 6 <= |c| && p < end < |c| && c[p] == BACKSLASH && c[p + 1] == LOWER_U
    requires 0xD800 <= Hex4(c, p + 2) <= 0xDFFF
    requires Hex4(c, p + 2) < 0xDC00 ==> !LowSurrogateAt(c, p + 6)
    ensures Round(c, p, end).0 == 0
  {
    hide Hex4, HexNumber, FourHex;
    if p + 12 <= end {
      Hex4Means(c, p + 8);
    }
  }

  /** After well-formed units, an escape of any other letter makes the literal fail. */
  lemma UnknownEscapeRejected(c: seq<byte>, off: nat, depth: nat, units: seq<Unit>, letter: byte)
    requires NulEnded(c) && AllWellFormed(units) && letter !in SHORT && letter != LOWER_U
    requires At(c, off, [QUOTE] + SpellAll(units) + [BACKSLASH, letter])
    ensures off < |c| && ParseString(c, off, depth).Fail?
  {
    hide At, Round, SpellAll, WellFormed, DenoteAll, CStr, Scan;
    var t := SpellAll(units);
    AtConcat(c, off, [QUOTE] + t, [BACKSLASH, letter]);
    AtConcat(c, off, [QUOTE], t);
    AtIndex(c, off, [QUOTE], 0);
    var p := off + 1 + |t|;
    AtAll(c, p, [BACKSLASH, letter]);
    UnitsScan(c, off + 1, units);
    var end := Scan(c, off + 1);
    if end.Some? {
      ScanFrom(c, p);
      UnitsUnescape(c, off + 1, units, end.value);
      UnknownEscapeRound(c, p, end.value);
    }
  }

  lemma ScanFrom(c: seq<byte>, p: nat)
    requires p < |c| && c[p] == BACKSLASH
    ensures Scan(c, p).Some? ==> p < Scan(c, p).value < |c|
  {
  }

  lemma UnknownEscapeRound(c: seq<byte>, p: nat, end: nat)
    requires p < end < |c| && p + 1 < |c| && c[p] == BACKSLASH && c[p + 1] !in SHORT && c[p + 1] != LOWER_U
    ensures Round(c, p, end).0 == 0
  {
    ShortMeans(c[p + 1]);
  }
}

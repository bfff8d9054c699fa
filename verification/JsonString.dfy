/** String literals: the scan that sizes the output, and the unescaping pass that fills it. */
module JsonString {
  import opened Bytes

  const LOWER_U: byte := 117

  datatype Option<+T> = None | Some(value: T)

  // ---- first pass ----

  /** Where the literal whose characters start at `i` ends: the offset of its closing quote. */
  function Scan(c: seq<byte>, i: nat): (r: Option<nat>)
    requires i <= |c|
    ensures r.Some? ==> i <= r.value < |c| && c[r.value] == QUOTE
    decreases |c| - i
  {
    if i == |c| then None
    else if c[i] == QUOTE then Some(i)
    else if c[i] != BACKSLASH then Scan(c, i + 1)
    else if i + 1 >= |c| then None
    else Scan(c, i + 2)
  }

  /** The bytes the scan skips: one for each escape it meets from `i` to the end of the literal. */
  function Skipped(c: seq<byte>, i: nat): (n: nat)
    requires i <= |c| && Scan(c, i).Some?
    ensures i + n <= Scan(c, i).value
    decreases |c| - i
  {
    if c[i] == QUOTE then 0
    else if c[i] != BACKSLASH then Skipped(c, i + 1)
    else 1 + Skipped(c, i + 2)
  }

  /** The bytes allocated for the literal that opens at `off`, terminator included. */
  function Allocation(c: seq<byte>, off: nat): (n: nat)
    requires off < |c| && Scan(c, off + 1).Some?
  {
    Scan(c, off + 1).value - off - Skipped(c, off + 1) + 1
  }

  // ---- UTF-16 escapes ----

  predicate IsHex(b: byte) {
    48 <= b <= 57 || 65 <= b <= 70 || 97 <= b <= 102
  }

  function HexValue(b: byte): (v: nat)
    requires IsHex(b)
    ensures v < 16
  {
    if b <= 57 then b as int - 48 else if b <= 70 then b as int - 55 else b as int - 87
  }

  /** Four hexadecimal digits; any other byte among them makes the number 0. */
  function Hex4(c: seq<byte>, p: nat): (h: nat)
    requires p + 4 <= |c|
    ensures h < 0x10000
  {
    if IsHex(c[p]) && IsHex(c[p + 1]) && IsHex(c[p + 2]) && IsHex(c[p + 3])
    then 4096 * HexValue(c[p]) + 256 * HexValue(c[p + 1]) + 16 * HexValue(c[p + 2]) + HexValue(c[p + 3])
    else 0
  }

  predicate IsHighSurrogate(u: nat) {
    0xD800 <= u <= 0xDBFF
  }

  predicate IsLowSurrogate(u: nat) {
    0xDC00 <= u <= 0xDFFF
  }

  function PairCode(hi: nat, lo: nat): (cp: nat)
    ensures 0x10000 <= cp <= 0x10FFFF
  {
    0x10000 + 1024 * (hi % 1024) + lo % 1024
  }

  function Utf8Length(cp: nat): nat {
    if cp < 0x80 then 1 else if cp < 0x800 then 2 else if cp < 0x10000 then 3 else 4
  }

  /** The bytes written for a code point. */
  function Utf8(cp: nat): (t: seq<byte>)
    requires cp <= 0x10FFFF
    ensures |t| == Utf8Length(cp)
  {
    if cp < 0x80 then [cp]
    else if cp < 0x800 then [0xC0 + cp / 64, 0x80 + cp % 64]
    else if cp < 0x10000 then [0xE0 + cp / 4096, 0x80 + cp / 64 % 64, 0x80 + cp % 64]
    else [0xF0 + cp / 262144, 0x80 + cp / 4096 % 64, 0x80 + cp / 64 % 64, 0x80 + cp % 64]
  }

  /** What the escape at `p` consumes, 0 when it is rejected, and the code point it denotes. */
  function Utf16Escape(c: seq<byte>, p: nat, end: nat): (r: (nat, nat))
    requires p <= end <= |c|
    ensures r.0 == 0 || r.0 == 6 || (r.0 == 12 && r.1 >= 0x10000)
    ensures p + r.0 <= end
    ensures r.0 == 6 ==> r.1 < 0x10000
    ensures r.1 <= 0x10FFFF
  {
    if end - p < 6 then (0, 0)
    else
      var first := Hex4(c, p + 2);
      if IsLowSurrogate(first) then (0, 0)
      else if !IsHighSurrogate(first) then (6, first)
      else if end - (p + 6) < 6 || c[p + 6] != BACKSLASH || c[p + 7] != LOWER_U then (0, 0)
      else
        var second := Hex4(c, p + 8);
        if IsLowSurrogate(second) then (12, PairCode(first, second)) else (0, 0)
  }

  // ---- second pass ----

  /** The byte an escape of one letter stands for. */
  function ShortEscape(letter: byte): (r: Option<byte>)
  {
    match letter
    case 98 => Some(8)
    case 102 => Some(12)
    case 110 => Some(LF)
    case 114 => Some(CR)
    case 116 => Some(TAB)
    case 34 => Some(QUOTE)
    case 92 => Some(BACKSLASH)
    case 47 => Some(SLASH)
    case _ => None
  }

  /** The bytes written, whether the literal was accepted, and the input position reached. */
  datatype Unescaped = Unescaped(ok: bool, out: seq<byte>, at: nat)

  /** One round of the loop at `p`: the input it consumes, 0 on rejection, and what it writes. */
  function Round(c: seq<byte>, p: nat, end: nat): (r: (nat, seq<byte>))
    requires p < end < |c|
    ensures r.0 == 0 ==> r.1 == []
    ensures p + r.0 <= end + 1
  {
    if c[p] != BACKSLASH then (1, [c[p]])
    else if c[p + 1] == LOWER_U then
      var u := Utf16Escape(c, p, end);
      if u.0 == 0 then (0, []) else (u.0, Utf8(u.1))
    else
      match ShortEscape(c[p + 1])
      case Some(b) => (2, [b])
      case None => (0, [])
  }

  function Unescape(c: seq<byte>, p: nat, end: nat): (r: Unescaped)
    requires p <= end + 1 && end < |c|
    ensures r.at <= end + 1
    ensures !r.ok ==> r.at < end
    decreases end + 1 - p
  {
    if p >= end then Unescaped(true, [], p)
    else
      var (used, out) := Round(c, p, end);
      if used == 0 then Unescaped(false, [], p)
      else
        var rest := Unescape(c, p + used, end);
        rest.(out := out + rest.out)
  }

  /** The outcome `u` after the bytes `done`, already written. */
  function After(done: seq<byte>, u: Unescaped): Unescaped {
    u.(out := done + u.out)
  }

  lemma UnescapeUnfold(c: seq<byte>, p: nat, end: nat, done: seq<byte>)
    requires p < end < |c|
    ensures
      var (used, out) := Round(c, p, end);
      After(done, Unescape(c, p, end)) ==
        if used == 0 then Unescaped(false, done, p) else After(done + out, Unescape(c, p + used, end))
  {
    var (used, out) := Round(c, p, end);
    if used > 0 {
      assert done + (out + Unescape(c, p + used, end).out) == (done + out) + Unescape(c, p + used, end).out;
    }
  }

  // ---- the size bound ----

  /**
   * The passes need not agree on where escapes start. While the second stands at `p`, the
   * first has a round that starts at `q`, which is `p` or the byte after it.
   */
  ghost predicate Aligned(c: seq<byte>, p: nat, q: nat, end: nat) {
    end < |c| && p <= q <= p + 1 && q <= end && Scan(c, q) == Some(end)
  }

  /** The first position at or after `p` where a round of the scan from `q` starts. */
  ghost function NextRound(c: seq<byte>, q: nat, p: nat): (r: nat)
    requires q <= |c| && Scan(c, q).Some? && p <= Scan(c, q).value
    ensures p <= r && (q <= p ==> r <= p + 1)
    ensures r <= Scan(c, q).value && Scan(c, r) == Scan(c, q)
    ensures q <= p ==> 2 * (Skipped(c, q) - Skipped(c, r)) <= p - q + 1
    decreases |c| - q
  {
    if q >= p then q
    else if c[q] == BACKSLASH then NextRound(c, q + 2, p)
    else NextRound(c, q + 1, p)
  }

  /** One round of the second pass writes no more than it consumes, less the escapes passed over. */
  lemma RoundFits(c: seq<byte>, p: nat, q: nat, end: nat) returns (q': nat)
    requires Aligned(c, p, q, end) && p < end
    ensures
      var (used, out) := Round(c, p, end);
      used > 0 && p + used <= end ==>
        Aligned(c, p + used, q', end) && |out| + Skipped(c, q) - Skipped(c, q') <= used
    ensures
      var (used, out) := Round(c, p, end);
      p + used == end + 1 ==> |out| == 1 && Skipped(c, q) == 0 && q == end == p + 1
  {
    var (used, out) := Round(c, p, end);
    q' := q;
    if used > 0 && p + used <= end {
      q' := if p + used <= q then q else NextRound(c, q, p + used);
    }
  }

  lemma {:induction false} UnescapeFits(c: seq<byte>, p: nat, q: nat, end: nat)
    requires Aligned(c, p, q, end)
    ensures |Unescape(c, p, end).out| + Skipped(c, q) <= end - p
    decreases end - p
  {
    if p < end {
      var q' := RoundFits(c, p, q, end);
      var (used, out) := Round(c, p, end);
      if used > 0 && p + used <= end {
        UnescapeFits(c, p + used, q', end);
      }
    }
  }

  /** Whatever the input, the second pass and its terminator stay inside the allocation. */
  lemma OutputFitsAllocation(c: seq<byte>, off: nat)
    requires off < |c| && Scan(c, off + 1).Some?
    ensures |Unescape(c, off + 1, Scan(c, off + 1).value).out| + 1 < Allocation(c, off)
  {
    UnescapeFits(c, off + 1, off + 1, Scan(c, off + 1).value);
  }
}

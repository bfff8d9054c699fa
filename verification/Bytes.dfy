/** Bytes, C strings and the positional view of a text shared by the other modules. */
module Bytes {

  type byte = b: int | 0 <= b < 256

  const NUL: byte := 0
  const TAB: byte := 9
  const LF: byte := 10
  const CR: byte := 13
  const SPACE: byte := 32
  const QUOTE: byte := 34
  const COMMA: byte := 44
  const SLASH: byte := 47
  const COLON: byte := 58
  const LBRACKET: byte := 91
  const BACKSLASH: byte := 92
  const RBRACKET: byte := 93
  const LBRACE: byte := 123
  const RBRACE: byte := 125

  /** The text `t` stands in `c` at offset `off`. */
  predicate At(c: seq<byte>, off: nat, t: seq<byte>) {
    off + |t| <= |c| && c[off..off + |t|] == t
  }

  lemma AtConcat(c: seq<byte>, off: nat, a: seq<byte>, b: seq<byte>)
    ensures At(c, off, a + b) <==> At(c, off, a) && At(c, off + |a|, b)
  {
    if off + |a| + |b| <= |c| {
      var s := c[off..off + |a| + |b|];
      assert s[..|a|] == c[off..off + |a|];
      assert s[|a|..] == c[off + |a|..off + |a| + |b|];
      assert (a + b)[..|a|] == a && (a + b)[|a|..] == b;
      if At(c, off, a) && At(c, off + |a|, b) {
        assert s == s[..|a|] + s[|a|..];
      }
    }
  }

  /** One byte of a text that stands at `off`. */
  lemma AtIndex(c: seq<byte>, off: nat, t: seq<byte>, k: nat)
    requires At(c, off, t) && k < |t|
    ensures off + k < |c| && c[off + k] == t[k]
  {
    assert c[off..off + |t|][k] == c[off + k];
  }

  lemma AtAll(c: seq<byte>, off: nat, t: seq<byte>)
    requires At(c, off, t)
    ensures off + |t| <= |c|
    ensures forall k :: off <= k < off + |t| ==> c[k] == t[k - off]
  {
    forall k | off <= k < off + |t|
      ensures c[k] == t[k - off]
    {
      AtIndex(c, off, t, k - off);
    }
  }

  /** A C string inside its storage: the bytes before the first NUL. */
  function CStr(s: seq<byte>): (r: seq<byte>)
    ensures NUL !in r
    ensures r <= s
  {
    if s == [] || s[0] == NUL then [] else [s[0]] + CStr(s[1..])
  }

  lemma {:induction false} CStrOfNulFree(s: seq<byte>, rest: seq<byte>)
    requires NUL !in s
    requires rest == [] || rest[0] == NUL
    ensures CStr(s + rest) == s
  {
    if s == [] {
      assert s + rest == rest;
    } else {
      assert (s + rest)[1..] == s[1..] + rest;
      CStrOfNulFree(s[1..], rest);
    }
  }

  lemma {:induction false} CStrIgnoresTail(s: seq<byte>, rest: seq<byte>)
    requires rest != [] && rest[0] == NUL
    ensures CStr(s + rest) == CStr(s)
  {
    if s == [] {
      assert s + rest == rest;
    } else {
      assert (s + rest)[1..] == s[1..] + rest;
      CStrIgnoresTail(s[1..], rest);
    }
  }

  /** The storage of a C string: its last byte, and only that one, is NUL. */
  predicate Terminated(c: seq<byte>) {
    && |c| > 0
    && c[|c| - 1] == NUL
    && forall i :: 0 <= i < |c| - 1 ==> c[i] != NUL
  }
}

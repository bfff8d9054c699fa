/** cJSON_Minify: white space and comments are dropped, in place. */
module JsonMinify {
  import opened Bytes
  import opened JsonGrammar

  const STAR: byte := 42

  predicate IsBlank(b: byte) {
    b == SPACE || b == TAB || b == CR || b == LF
  }

  /** Bytes that are copied one by one outside string literals. */
  predicate IsPlain(b: byte) {
    b != NUL && !IsBlank(b) && b != SLASH && b != QUOTE
  }

  /** The end of a line comment: its line feed or the terminator. */
  function LineEnd(c: seq<byte>, i: nat): (r: nat)
    requires NulEnded(c) && i < |c|
    ensures i <= r < |c|
    ensures c[i] != NUL && c[i] != LF ==> i < r
    decreases |c| - i
  {
    if c[i] == NUL || c[i] == LF then i else LineEnd(c, i + 1)
  }

  /** The byte after a block comment; the terminator when it is never closed. */
  function BlockEnd(c: seq<byte>, i: nat): (r: nat)
    requires NulEnded(c) && i < |c|
    ensures i <= r < |c|
    ensures c[i] != NUL ==> i < r
    decreases |c| - i
  {
    if c[i] == NUL then i
    else if c[i] == STAR && c[i + 1] == SLASH then i + 2
    else BlockEnd(c, i + 1)
  }

  /** The minified form of the text from `i` on, with its terminator. */
  function Min(c: seq<byte>, i: nat): (t: seq<byte>)
    requires NulEnded(c) && i < |c|
    ensures |t| > 0 && |t| <= |c| - i
    decreases |c| - i
  {
    if c[i] == NUL then [NUL]
    else if IsBlank(c[i]) then Min(c, i + 1)
    else if c[i] == SLASH && c[i + 1] == SLASH then Min(c, LineEnd(c, i))
    else if c[i] == SLASH && c[i + 1] == STAR then Min(c, BlockEnd(c, i))
    else if c[i] == QUOTE then [QUOTE] + MinString(c, i + 1)
    else [c[i]] + Min(c, i + 1)
  }

  /** The same inside a string literal, which is copied up to its closing quote. */
  function MinString(c: seq<byte>, i: nat): (t: seq<byte>)
    requires NulEnded(c) && i < |c|
    ensures |t| > 0 && |t| <= |c| - i
    decreases |c| - i
  {
    if c[i] == NUL then [NUL]
    else if c[i] == QUOTE then [QUOTE] + Min(c, i + 1)
    else if c[i] == BACKSLASH && c[i + 1] != NUL then [BACKSLASH, c[i + 1]] + MinString(c, i + 2)
    else [c[i]] + MinString(c, i + 1)
  }

  /** Every literal and block comment is closed: the reader never moves past the terminator. */
  predicate Closed(c: seq<byte>, i: nat)
    requires NulEnded(c) && i < |c|
    decreases |c| - i
  {
    if c[i] == NUL then true
    else if c[i] == SLASH && c[i + 1] == SLASH then Closed(c, LineEnd(c, i))
    else if c[i] == SLASH && c[i + 1] == STAR then BlockClosed(c, i) && Closed(c, BlockEnd(c, i))
    else if c[i] == QUOTE then ClosedString(c, i + 1)
    else Closed(c, i + 1)
  }

  predicate BlockClosed(c: seq<byte>, i: nat)
    requires NulEnded(c) && i < |c|
    decreases |c| - i
  {
    c[i] != NUL && ((c[i] == STAR && c[i + 1] == SLASH) || BlockClosed(c, i + 1))
  }

  predicate ClosedString(c: seq<byte>, i: nat)
    requires NulEnded(c) && i < |c|
    decreases |c| - i
  {
    if c[i] == NUL then false
    else if c[i] == QUOTE then Closed(c, i + 1)
    else if c[i] == BACKSLASH then c[i + 1] != NUL && ClosedString(c, i + 2)
    else ClosedString(c, i + 1)
  }

  /** The loop that skips a line comment. */
  method SkipLine(a: array<byte>, start: nat, ghost c: seq<byte>) returns (json: nat)
    requires NulEnded(c) && |c| == a.Length && start < |c|
    requires forall k :: start <= k < |c| ==> a[k] == c[k]
    ensures json == LineEnd(c, start)
  {
    json := start;
    while a[json] != NUL && a[json] != LF
      invariant start <= json < |c|
      invariant LineEnd(c, start) == LineEnd(c, json)
      decreases |c| - json
    {
      json := json + 1;
    }
  }

  /** The loop that skips a block comment, and the two bytes that end it. */
  method SkipBlock(a: array<byte>, start: nat, ghost c: seq<byte>) returns (json: nat)
    requires NulEnded(c) && |c| == a.Length && start < |c|
    requires forall k :: start <= k < |c| ==> a[k] == c[k]
    requires BlockClosed(c, start)
    ensures json == BlockEnd(c, start)
  {
    json := start;
    while a[json] != NUL && !(a[json] == STAR && a[json + 1] == SLASH)
      invariant start <= json < |c|
      invariant BlockEnd(c, start) == BlockEnd(c, json) && BlockClosed(c, json)
      decreases |c| - json
    {
      json := json + 1;
    }
    json := json + 2;
  }

  /** The state of the copy: `into` never passes `json`, and what is not yet written is as it was. */
  ghost predicate Copied(now: seq<byte>, c: seq<byte>, into: nat, json: nat, rest: seq<byte>)
    requires NulEnded(c)
  {
    && |now| == |c| && into <= json < |c|
    && now[into..] == c[into..]
    && Min(c, 0) == now[..into] + rest
  }

  /** What is still to be read is as it was. */
  lemma Unread(now: seq<byte>, c: seq<byte>, into: nat, json: nat, rest: seq<byte>)
    requires NulEnded(c) && Copied(now, c, into, json, rest)
    ensures |now| == |c| && into <= json < |c|
    ensures forall k :: json <= k < |c| ==> now[k] == c[k]
  {
    forall k | json <= k < |c|
      ensures now[k] == c[k]
    {
      assert now[into..][k - into] == c[into..][k - into];
    }
  }

  /** One byte copied from the reader to the writer. */
  lemma CopyStep(before: seq<byte>, now: seq<byte>, c: seq<byte>, into: nat, json: nat, rest: seq<byte>)
    requires NulEnded(c) && json + 1 < |c| && Copied(before, c, into, json, [c[json]] + rest)
    requires now == before[into := before[json]]
    ensures Copied(now, c, into + 1, json + 1, rest)
    ensures forall k :: json + 1 <= k < |c| ==> now[k] == c[k]
  {
    Unread(before, c, into, json, [c[json]] + rest);
    assert before[..into] + ([c[json]] + rest) == now[..into + 1] + rest;
    assert now[into + 1..] == before[into..][1..] == c[into..][1..] == c[into + 1..];
    Unread(now, c, into + 1, json + 1, rest);
  }

  method CopyByte(a: array<byte>, into: nat, json: nat, ghost c: seq<byte>, ghost rest: seq<byte>)
    requires NulEnded(c) && a.Length == |c| && json + 1 < |c| && Copied(a[..], c, into, json, [c[json]] + rest)
    modifies a
    ensures Copied(a[..], c, into + 1, json + 1, rest)
    ensures forall k :: json + 1 <= k < |c| ==> a[..][k] == c[k]
  {
    ghost var before := a[..];
    a[into] := a[json];
    CopyStep(before, a[..], c, into, json, rest);
  }

  /** A string literal is copied with its quotes, escapes as pairs. */
  method CopyString(a: array<byte>, start: nat, from: nat, ghost c: seq<byte>) returns (into: nat, json: nat)
    requires NulEnded(c) && a.Length == |c| && start < |c|
    requires Copied(a[..], c, from, start, MinString(c, start)) && ClosedString(c, start)
    modifies a
    ensures start < json < |c| && Copied(a[..], c, into, json, Min(c, json)) && Closed(c, json)
  {
    hide Copied, Min;
    Unread(a[..], c, from, start, MinString(c, start));
    into, json := from, start;
    while a[json] != NUL && a[json] != QUOTE
      invariant start <= json < |c| && into <= json
      invariant forall k :: json <= k < |c| ==> a[..][k] == c[k]
      invariant Copied(a[..], c, into, json, MinString(c, json)) && ClosedString(c, json)
      decreases |c| - json
    {
      if a[json] == BACKSLASH {
        assert MinString(c, json) == [c[json]] + ([c[json + 1]] + MinString(c, json + 2));
        CopyByte(a, into, json, c, [c[json + 1]] + MinString(c, json + 2));
        into, json := into + 1, json + 1;
      }
      CopyByte(a, into, json, c, MinString(c, json + 1));
      into, json := into + 1, json + 1;
    }
    CopyByte(a, into, json, c, Min(c, json + 1));
    into, json := into + 1, json + 1;
  }

  /**
   * cJSON_Minify: the array comes to hold the minified text and its terminator at its start.
   * The writer stays at or behind the reader, and what follows the text is left as it was.
   */
  method Minify(a: array<byte>)
    requires Terminated(a[..]) && Closed(a[..], 0)
    modifies a
    ensures a[..] == Min(old(a[..]), 0) + old(a[..])[|Min(old(a[..]), 0)|..]
  {
    hide Copied;
    ghost var c := a[..];
    var into, json := 0, 0;
    StartCopy(c);
    while a[json] != NUL
      invariant 0 <= into <= json < |c|
      invariant forall k :: json <= k < |c| ==> a[..][k] == c[k]
      invariant Copied(a[..], c, into, json, Min(c, json)) && Closed(c, json)
      decreases |c| - json
    {
      if IsBlank(a[json]) {
        ReadOn(a[..], c, into, json, json + 1, Min(c, json));
        json := json + 1;
      } else if a[json] == SLASH && a[json + 1] == SLASH {
        var next := SkipLine(a, json, c);
        ReadOn(a[..], c, into, json, next, Min(c, json));
        json := next;
      } else if a[json] == SLASH && a[json + 1] == STAR {
        var next := SkipBlock(a, json, c);
        ReadOn(a[..], c, into, json, next, Min(c, json));
        json := next;
      } else if a[json] == QUOTE {
        CopyByte(a, into, json, c, MinString(c, json + 1));
        into, json := CopyString(a, json + 1, into + 1, c);
        Unread(a[..], c, into, json, Min(c, json));
      } else {
        CopyByte(a, into, json, c, Min(c, json + 1));
        into, json := into + 1, json + 1;
      }
    }
    ghost var before := a[..];
    a[into] := NUL;
    EndCopy(before, a[..], c, into, json);
  }

  lemma StartCopy(c: seq<byte>)
    requires NulEnded(c)
    ensures Copied(c, c, 0, 0, Min(c, 0))
  {
    assert c[..0] + Min(c, 0) == Min(c, 0);
  }

  lemma ReadOn(now: seq<byte>, c: seq<byte>, into: nat, json: nat, next: nat, rest: seq<byte>)
    requires NulEnded(c) && Copied(now, c, into, json, rest) && json <= next < |c|
    ensures Copied(now, c, into, next, rest)
  {
  }

  lemma EndCopy(before: seq<byte>, now: seq<byte>, c: seq<byte>, into: nat, json: nat)
    requires NulEnded(c) && Copied(before, c, into, json, [NUL]) && now == before[into := NUL]
    ensures now == Min(c, 0) + c[|Min(c, 0)|..]
  {
    assert now[into + 1..] == before[into..][1..] == c[into..][1..] == c[into + 1..];
    assert now == now[..into] + [now[into]] + now[into + 1..];
  }
}

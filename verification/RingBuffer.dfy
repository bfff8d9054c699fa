/** The ring buffer of link_ring_buffer.c as a bounded FIFO of bytes. */
module RingBuffer {
  import opened Bytes

  function Min(a: int, b: int): (r: int)
    ensures r <= a && r <= b && (r == a || r == b)
  {
    if a < b then a else b
  }

  /** An offset taken modulo the length of the ring; it wraps at most once. */
  function Wrap(x: int, n: int): (r: int)
    requires 0 <= x < 2 * n
    ensures r == if x < n then x else x - n
  {
    x % n
  }

  lemma TwoPieces(was: seq<byte>, src: seq<byte>, i: int, k: int, n: int)
    requires 0 <= i <= k <= n <= |src|
    ensures (was + src[i..k]) + src[k..n] == was + src[i..n]
  {
    assert src[i..k] + src[k..n] == src[i..n];
  }

  lemma TwoTaken(was: seq<byte>, dst: seq<byte>, k: int, n: int)
    requires 0 <= k <= n <= |was| && n <= |dst|
    ensures
      var once := dst[..0] + was[..k] + dst[k..];
      once[..k] + was[k..][..n - k] + once[n..] == was[..n] + dst[n..]
    ensures was[k..][n - k..] == was[n..]
    ensures dst[..0] + was[..n] + dst[n..] == was[..n] + dst[n..]
  {
    assert was[..k] + was[k..][..n - k] == was[..n];
  }

  class Ring {
    var buf: array<byte>
    var buflen: int
    var datalen: int
    var dataoff: int

    /** ring_buffer_init. */
    constructor (buf: array<byte>, buflen: int, offset: int, datalen: int)
      ensures this.buf == buf && this.buflen == buflen && this.dataoff == offset && this.datalen == datalen
    {
      this.buf, this.buflen, this.dataoff, this.datalen := buf, buflen, offset, datalen;
    }

    predicate Valid()
      reads this
    {
      buflen <= buf.Length && 0 <= dataoff < buflen && 0 <= datalen <= buflen
    }

    /** Where the `i`-th stored byte lies. */
    function Place(i: int): int
      reads this
    {
      if dataoff + i < buflen then dataoff + i else dataoff + i - buflen
    }

    /** The bytes stored, oldest first; the second half of them has wrapped around. */
    ghost function Contents(): (s: seq<byte>)
      requires Valid()
      reads this, buf
      ensures |s| == datalen
      ensures forall i :: 0 <= i < datalen ==> s[i] == buf[Place(i)]
    {
      if dataoff + datalen <= buflen then buf[dataoff..dataoff + datalen]
      else buf[dataoff..buflen] + buf[..dataoff + datalen - buflen]
    }

    /** memcpy into the ring's storage. */
    method CopyIn(at: int, src: array<byte>, from: int, n: int)
      requires 0 <= n && 0 <= at && at + n <= buf.Length && 0 <= from && from + n <= src.Length && src != buf
      modifies buf
      ensures forall k :: 0 <= k < buf.Length ==>
                buf[k] == if at <= k < at + n then src[from + (k - at)] else old(buf[k])
    {
      var i := 0;
      while i < n
        invariant 0 <= i <= n
        invariant forall k :: 0 <= k < buf.Length ==>
                    buf[k] == if at <= k < at + i then src[from + (k - at)] else old(buf[k])
      {
        buf[at + i] := src[from + i];
        i := i + 1;
      }
    }

    /** memcpy out of the ring's storage. */
    method CopyOut(at: int, dst: array<byte>, to: int, n: int)
      requires 0 <= n && 0 <= at && at + n <= buf.Length && 0 <= to && to + n <= dst.Length && dst != buf
      modifies dst
      ensures dst[..] == old(dst[..])[..to] + buf[at..at + n] + old(dst[..])[to + n..]
    {
      var i := 0;
      while i < n
        invariant 0 <= i <= n
        invariant dst[..] == old(dst[..])[..to] + buf[at..at + i] + old(dst[..])[to + i..]
      {
        dst[to + i] := buf[at + i];
        i := i + 1;
      }
    }

    /** One memcpy behind the stored bytes, which does not wrap, and the new count. */
    method Append(offset: int, src: array<byte>, from: int, n: int)
      requires Valid() && src != buf && 0 <= from && from + n <= src.Length
      requires 0 <= n <= buflen - datalen && offset + n <= buflen
      requires n > 0 ==> offset == Place(datalen)
      requires 0 <= offset
      modifies this`datalen, buf
      ensures Valid() && datalen == old(datalen) + n
      ensures Contents() == old(Contents()) + src[from..from + n]
    {
      hide Contents;
      ghost var was := Contents();
      CopyIn(offset, src, from, n);
      datalen := datalen + n;
      forall i | 0 <= i < datalen
        ensures buf[Place(i)] == (was + src[from..from + n])[i]
      {
      }
    }

    /** ring_buffer_write: appends as many of the `len` bytes at `src + start` as fit, and says how many. */
    method Write(src: array?<byte>, start: nat, len: int) returns (ret: int)
      requires Valid() && (src != null ==> src != buf && start + len <= src.Length)
      modifies this`datalen, buf
      ensures Valid()
      ensures src == null || len == 0 ==> ret == -1
      ensures src != null && len > 0 ==> ret == Min(len, buflen - old(datalen))
      ensures src != null && len < 0 ==> ret <= 0
      ensures Contents() == old(Contents()) + (if ret > 0 then src[start..start + ret] else [])
    {
      hide Wrap, Contents;
      if src == null || len == 0 {
        return -1;
      }
      if datalen == buflen || buflen <= 0 {
        return 0;
      }
      ret := Min(len, buflen - datalen);
      ghost var was := Contents();
      var left := ret;
      var from := start;
      if dataoff + datalen > buflen {
        var offset := Wrap(dataoff + datalen, buflen);
        var n := left;
        if n > 0 {
          Append(offset, src, start, n);
          left := left - n;
        }
      } else if dataoff + datalen + left > buflen {
        var offset := dataoff + datalen;
        var n := buflen - offset;
        Append(offset, src, start, n);
        from := from + n;
        left := left - n;
      }
      if left > 0 {
        var offset := Wrap(dataoff + datalen, buflen);
        Append(offset, src, from, left);
      }
      if ret > 0 {
        TwoPieces(was, src[..], start, from, start + ret);
      }
    }

    /** One memcpy of the oldest bytes, which do not wrap, and the new offset and count. */
    method Take(dst: array<byte>, to: int, n: int)
      requires Valid() && dst != buf && 0 <= to && to + n <= dst.Length
      requires 0 <= n <= datalen && dataoff + n <= buflen
      modifies this`datalen, this`dataoff, dst
      ensures Valid() && datalen == old(datalen) - n
      ensures dataoff == if old(dataoff) + n < buflen then old(dataoff) + n else old(dataoff) + n - buflen
      ensures Contents() == old(Contents())[n..]
      ensures dst[..] == old(dst[..])[..to] + old(Contents())[..n] + old(dst[..])[to + n..]
    {
      hide Contents;
      ghost var was := Contents();
      assert buf[dataoff..dataoff + n] == was[..n];
      CopyOut(dataoff, dst, to, n);
      dataoff := Wrap(dataoff + n, buflen);
      datalen := datalen - n;
      forall i | 0 <= i < datalen
        ensures buf[Place(i)] == was[i + n]
      {
      }
      assert Contents() == was[n..];
    }

    /** ring_buffer_read: removes as many of the oldest bytes as there are, up to `len`, into `dst`. */
    method Read(dst: array?<byte>, len: int) returns (ret: int)
      requires Valid() && (dst != null ==> dst != buf && Min(len, datalen) <= dst.Length)
      modifies this`datalen, this`dataoff, dst
      ensures Valid()
      ensures dst == null || len == 0 ==> ret == -1
      ensures dst != null && len > 0 ==> ret == Min(len, old(datalen))
      ensures dst != null && len < 0 ==> ret <= 0
      ensures dst != null && ret > 0 ==> dst[..] == old(Contents())[..ret] + old(dst[ret..])
      ensures dst != null && ret <= 0 ==> dst[..] == old(dst[..])
      ensures Contents() == if ret > 0 then old(Contents())[ret..] else old(Contents())
    {
      hide Wrap, Contents;
      if dst == null || len == 0 {
        return -1;
      }
      if datalen == 0 || buflen <= 0 {
        return 0;
      }
      ret := Min(len, datalen);
      ghost var was, before := Contents(), dst[..];
      var left := ret;
      var to := 0;
      if dataoff >= buflen - left {
        var n := buflen - dataoff;
        if n > 0 {
          Take(dst, 0, n);
          left := left - n;
          to := to + n;
        }
      }
      if left > 0 {
        Take(dst, to, left);
      }
      if ret > 0 {
        TwoTaken(was, before, to, ret);
      }
    }
  }

  // ---- runs ----

  /** A call of ring_buffer_write with these bytes, or of ring_buffer_read with this length. */
  datatype Call = Put(data: seq<byte>) | Get(count: nat)

  /** What the call adds to a queue of capacity `cap` that holds `s`. */
  function Added(s: seq<byte>, cap: nat, call: Call): (r: seq<byte>)
    requires |s| <= cap
  {
    match call
    case Put(data) => data[..Min(|data|, cap - |s|)]
    case Get(_) => []
  }

  /** What it removes, in order. */
  function Removed(s: seq<byte>, call: Call): (r: seq<byte>)
    ensures r <= s
  {
    match call
    case Put(_) => []
    case Get(n) => s[..Min(n, |s|)]
  }

  function After(s: seq<byte>, cap: nat, call: Call): (r: seq<byte>)
    requires |s| <= cap
    ensures |r| <= cap
  {
    s[|Removed(s, call)|..] + Added(s, cap, call)
  }

  function AfterAll(s: seq<byte>, cap: nat, calls: seq<Call>): (r: seq<byte>)
    requires |s| <= cap
    ensures |r| <= cap
    decreases |calls|
  {
    if calls == [] then s else AfterAll(After(s, cap, calls[0]), cap, calls[1..])
  }

  function AllAdded(s: seq<byte>, cap: nat, calls: seq<Call>): (r: seq<byte>)
    requires |s| <= cap
    decreases |calls|
  {
    if calls == [] then [] else Added(s, cap, calls[0]) + AllAdded(After(s, cap, calls[0]), cap, calls[1..])
  }

  function AllRemoved(s: seq<byte>, cap: nat, calls: seq<Call>): (r: seq<byte>)
    requires |s| <= cap
    decreases |calls|
  {
    if calls == [] then [] else Removed(s, calls[0]) + AllRemoved(After(s, cap, calls[0]), cap, calls[1..])
  }

  /** Over any run nothing is lost, repeated or reordered: what came out, then what is left, is what went in. */
  lemma {:induction false} FirstInFirstOut(s: seq<byte>, cap: nat, calls: seq<Call>)
    requires |s| <= cap
    ensures AllRemoved(s, cap, calls) + AfterAll(s, cap, calls) == s + AllAdded(s, cap, calls)
    decreases |calls|
  {
    hide Added, Removed, After;
    if calls == [] {
      assert [] + s == s + [];
    } else {
      var now := After(s, cap, calls[0]);
      FirstInFirstOut(now, cap, calls[1..]);
      OneCall(s, cap, calls[0]);
      Regroup(s, now, Removed(s, calls[0]), Added(s, cap, calls[0]), AllRemoved(now, cap, calls[1..]),
              AllAdded(now, cap, calls[1..]), AfterAll(now, cap, calls[1..]));
    }
  }

  lemma OneCall(s: seq<byte>, cap: nat, call: Call)
    requires |s| <= cap
    ensures Removed(s, call) + After(s, cap, call) == s + Added(s, cap, call)
  {
    var r, a := Removed(s, call), Added(s, cap, call);
    assert r + (s[|r|..] + a) == s + a;
  }

  lemma Regroup(s: seq<byte>, now: seq<byte>, r: seq<byte>, a: seq<byte>, removed: seq<byte>, added: seq<byte>,
                last: seq<byte>)
    requires r + now == s + a && removed + last == now + added
    ensures (r + removed) + last == s + (a + added)
  {
    assert (r + removed) + last == r + (removed + last);
    assert r + (now + added) == (r + now) + added;
    assert (s + a) + added == s + (a + added);
  }

  /** A run of calls on a ring does what it does on the queue. */
  method Run(ring: Ring, calls: seq<Call>) returns (out: seq<byte>)
    requires ring.Valid()
    modifies ring, ring.buf
    ensures ring.Valid() && ring.buf == old(ring.buf) && ring.buflen == old(ring.buflen)
    ensures out == AllRemoved(old(ring.Contents()), ring.buflen, calls)
    ensures ring.Contents() == AfterAll(old(ring.Contents()), ring.buflen, calls)
    ensures out + ring.Contents() == old(ring.Contents()) + AllAdded(old(ring.Contents()), ring.buflen, calls)
  {
    hide Ring.Contents, Added, Removed, After;
    ghost var start := ring.Contents();
    out := [];
    var i := 0;
    assert calls[0..] == calls;
    while i < |calls|
      invariant 0 <= i <= |calls|
      invariant ring.Valid() && ring.buf == old(ring.buf) && ring.buflen == old(ring.buflen)
      invariant AllRemoved(start, ring.buflen, calls) == out + AllRemoved(ring.Contents(), ring.buflen, calls[i..])
      invariant AfterAll(start, ring.buflen, calls) == AfterAll(ring.Contents(), ring.buflen, calls[i..])
    {
      assert calls[i..][1..] == calls[i + 1..];
      var removed := Perform(ring, calls[i]);
      assert out + (removed + AllRemoved(ring.Contents(), ring.buflen, calls[i + 1..]))
          == (out + removed) + AllRemoved(ring.Contents(), ring.buflen, calls[i + 1..]);
      out := out + removed;
      i := i + 1;
    }
    FirstInFirstOut(start, ring.buflen, calls);
  }

  method Perform(ring: Ring, call: Call) returns (out: seq<byte>)
    requires ring.Valid()
    modifies ring, ring.buf
    ensures ring.Valid() && ring.buf == old(ring.buf) && ring.buflen == old(ring.buflen)
    ensures out == Removed(old(ring.Contents()), call)
    ensures ring.Contents() == After(old(ring.Contents()), ring.buflen, call)
  {
    hide Ring.Contents;
    ghost var s := ring.Contents();
    out := [];
    match call {
      case Put(data) =>
        var src := new byte[|data|](i requires 0 <= i < |data| => data[i]);
        assert src[..] == data;
        var n := ring.Write(src, 0, |data|);
        assert s[0..] == s && s + [] == s;
        assert n > 0 ==> src[0..n] == data[..n];
      case Get(count) =>
        var dst := new byte[ring.datalen];
        var n := ring.Read(dst, count);
        if n > 0 {
          out := dst[..n];
          assert dst[..n] == s[..n];
        }
        assert s[|Removed(s, call)|..] + [] == s[|Removed(s, call)|..];
    }
  }
}

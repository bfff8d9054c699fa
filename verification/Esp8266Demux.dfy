/**
 * The receive path of the ESP8266 driver: a message of `+IPD` frames is taken apart and each
 * payload goes to the ring of its socket; datagrams are stored with their length in front.
 */
module Esp8266Demux {
  import opened Bytes
  import opened DecimalDigits
  import opened JsonString
  import opened RingBuffer

  const SOCKETS: nat := 5
  const CACHE: nat := 1024
  const FRAME_INDEX: seq<byte> := [13, 10, 43, 73, 80, 68]

  datatype Kind = Closed | Stream | Datagram

  // ---- the parser of one frame ----

  /** strstr for a comma: its first place at or after `p`, before the terminator. */
  function FindComma(mem: seq<byte>, p: nat): (r: Option<nat>)
    requires p <= |mem|
    ensures r.Some? ==> p <= r.value < |mem| && mem[r.value] == COMMA
    decreases |mem| - p
  {
    if p == |mem| || mem[p] == NUL then None
    else if mem[p] == COMMA then Some(p)
    else FindComma(mem, p + 1)
  }

  /** The value of a run of digits accumulated in an unsigned short. */
  function U16Value(t: seq<byte>): (n: nat)
    requires AllDigits(t)
    ensures n < 0x10000
  {
    if t == [] then 0 else (10 * U16Value(t[..|t| - 1]) + DigitValue(t[|t| - 1])) % 0x10000
  }

  /** The two bytes of an unsigned short as they lie in memory. */
  function U16Bytes(n: nat): (t: seq<byte>)
    requires n < 0x10000
    ensures |t| == 2
  {
    [n % 256, n / 256]
  }

  /** What a parsed frame says: its socket, the length and the place of its payload. */
  datatype Header = Dropped | Header(fd: nat, len: nat, at: nat)

  function ParseHeader(mem: seq<byte>, p: nat, left: nat): (h: Header)
    requires p + left <= |mem|
    ensures h.Header? ==> p + 2 < h.at && h.fd < SOCKETS && h.len < 0x10000
  {
    if left < |FRAME_INDEX| then Dropped
    else
      match FindComma(mem, p)
      case None => Dropped
      case Some(c) =>
        var n := DigitRun(mem, c + 1);
        var fd := DigitsValue(mem[c + 1..c + 1 + n]);
        if fd >= SOCKETS then Dropped
        else
          match FindComma(mem, c + 1 + n)
          case None => Dropped
          case Some(d) =>
            var m := DigitRun(mem, d + 1);
            Header(fd, U16Value(mem[d + 1..d + 1 + m]), d + 1 + m + 1)
  }

  // ---- what a message does to the queues of the sockets ----

  /** What the two writes of a datagram, or the one of a stream, add to a queue. */
  function Store(q: seq<byte>, kind: Kind, payload: seq<byte>): (r: seq<byte>)
    requires |q| <= CACHE && |payload| < 0x10000
    ensures |r| <= CACHE
  {
    match kind
    case Closed => q
    case Stream => q + Added(q, CACHE, Put(payload))
    case Datagram =>
      var r := q + Added(q, CACHE, Put(U16Bytes(|payload|)));
      r + Added(r, CACHE, Put(payload))
  }

  predicate Queues(kinds: seq<Kind>, queues: seq<seq<byte>>) {
    |kinds| == |queues| == SOCKETS && forall i :: 0 <= i < SOCKETS ==> |queues[i]| <= CACHE
  }

  /** A frame is delivered when its socket is open and has room for the payload; else the rest is dropped. */
  predicate Deliverable(kinds: seq<Kind>, queues: seq<seq<byte>>, h: Header)
    requires Queues(kinds, queues)
  {
    h.Header? && h.fd < SOCKETS && kinds[h.fd] != Closed && h.len <= CACHE - |queues[h.fd]|
  }

  datatype Dealt = Dealt(next: nat, queues: seq<seq<byte>>)

  /** Esp8266MsgDealSingle. A payload that is said to reach past the memory is not covered. */
  function DealSingle(kinds: seq<Kind>, queues: seq<seq<byte>>, mem: seq<byte>, p: nat, left: nat): (r: Dealt)
    requires Queues(kinds, queues) && p + left <= |mem|
    ensures Queues(kinds, r.queues)
    ensures left > 0 ==> p < r.next
  {
    var h := ParseHeader(mem, p, left);
    if !Deliverable(kinds, queues, h) || h.at + h.len > |mem| then Dealt(p + left, queues)
    else
      var payload := mem[h.at..h.at + h.len];
      Dealt(h.at + h.len, queues[h.fd := Store(queues[h.fd], kinds[h.fd], payload)])
  }

  /** The loop of Esp8266MsgDeal over the message that ends at `end`. */
  function Deal(kinds: seq<Kind>, queues: seq<seq<byte>>, mem: seq<byte>, p: nat, end: nat): (r: seq<seq<byte>>)
    requires Queues(kinds, queues) && end <= |mem|
    ensures Queues(kinds, r)
    decreases end - p
  {
    if p >= end then queues
    else
      var d := DealSingle(kinds, queues, mem, p, end - p);
      if d.next + |FRAME_INDEX| > end || !At(mem, d.next, FRAME_INDEX) then d.queues
      else Deal(kinds, d.queues, mem, d.next, end)
  }

  /** Every payload that the loop delivers ends inside the message, as the module announces it. */
  predicate Bounded(kinds: seq<Kind>, queues: seq<seq<byte>>, mem: seq<byte>, p: nat, end: nat)
    requires Queues(kinds, queues) && end <= |mem|
    decreases end - p
  {
    p >= end ||
    (var h := ParseHeader(mem, p, end - p);
     (Deliverable(kinds, queues, h) ==> h.at + h.len <= end) &&
     var d := DealSingle(kinds, queues, mem, p, end - p);
     (d.next + |FRAME_INDEX| > end || !At(mem, d.next, FRAME_INDEX)
      || Bounded(kinds, d.queues, mem, d.next, end)))
  }

  // ---- batches of well-formed frames ----

  datatype Frame = Frame(fdText: seq<byte>, lenText: seq<byte>, payload: seq<byte>)

  predicate WellFormed(f: Frame, kinds: seq<Kind>)
    requires |kinds| == SOCKETS
  {
    && AllDigits(f.fdText) && DigitsValue(f.fdText) < SOCKETS && kinds[DigitsValue(f.fdText)] != Closed
    && AllDigits(f.lenText) && DigitsValue(f.lenText) == |f.payload| <= CACHE
  }

  predicate AllWellFormed(frames: seq<Frame>, kinds: seq<Kind>)
    requires |kinds| == SOCKETS
  {
    forall k :: 0 <= k < |frames| ==> WellFormed(frames[k], kinds)
  }

  predicate AllNumbered(frames: seq<Frame>) {
    forall k :: 0 <= k < |frames| ==> AllDigits(frames[k].fdText)
  }

  function Socket(f: Frame): nat
    requires AllDigits(f.fdText)
  {
    DigitsValue(f.fdText)
  }

  function FrameText(f: Frame): (t: seq<byte>) {
    FRAME_INDEX + [COMMA] + f.fdText + [COMMA] + f.lenText + [COLON] + f.payload
  }

  function BatchText(frames: seq<Frame>): (t: seq<byte>) {
    if frames == [] then [] else FrameText(frames[0]) + BatchText(frames[1..])
  }

  /** What a payload adds to the byte sequence of its socket, given room. */
  function Load(kind: Kind, payload: seq<byte>): seq<byte>
    requires |payload| < 0x10000
  {
    if kind == Datagram then U16Bytes(|payload|) + payload else payload
  }

  /** What a batch adds to the byte sequence of socket `s`. */
  function Share(kinds: seq<Kind>, s: nat, frames: seq<Frame>): seq<byte>
    requires |kinds| == SOCKETS && s < SOCKETS && AllWellFormed(frames, kinds)
    decreases |frames|
  {
    if frames == [] then []
    else (if Socket(frames[0]) == s then Load(kinds[s], frames[0].payload) else []) + Share(kinds, s, frames[1..])
  }

  /** The accumulated length is the number modulo 2^16. */
  lemma {:induction false} U16IsModulo(t: seq<byte>)
    requires AllDigits(t)
    ensures U16Value(t) == DigitsValue(t) % 65536
  {
    if t != [] {
      U16IsModulo(t[..|t| - 1]);
      ModuloDigit(DigitsValue(t[..|t| - 1]), DigitValue(t[|t| - 1]));
    }
  }

  lemma ModuloDigit(n: nat, d: nat)
    ensures (10 * (n % 65536) + d) % 65536 == (10 * n + d) % 65536
  {
    var q, r := n / 65536, n % 65536;
    assert 10 * n + d == 10 * r + d + 65536 * (10 * q);
    DropMultiple(10 * r + d, 10 * q);
  }

  lemma {:induction false} DropMultiple(x: nat, k: nat)
    ensures (x + 65536 * k) % 65536 == x % 65536
  {
    if k > 0 {
      DropMultiple(x, k - 1);
    }
  }

  lemma {:induction false} CommaAt(mem: seq<byte>, p: nat, t: seq<byte>)
    requires At(mem, p, t + [COMMA]) && forall k :: 0 <= k < |t| ==> t[k] != NUL && t[k] != COMMA
    ensures FindComma(mem, p) == Some(p + |t|)
    decreases |t|
  {
    AtConcat(mem, p, t, [COMMA]);
    AtIndex(mem, p + |t|, [COMMA], 0);
    if t != [] {
      AtIndex(mem, p, t, 0);
      assert t == [t[0]] + t[1..] && t + [COMMA] == [t[0]] + (t[1..] + [COMMA]);
      AtConcat(mem, p, [t[0]], t[1..] + [COMMA]);
      CommaAt(mem, p + 1, t[1..]);
    }
  }

  /** Where the pieces of a frame stand. */
  lemma FrameLayout(mem: seq<byte>, p: nat, f: Frame)
    requires At(mem, p, FrameText(f))
    ensures
      var c := p + |FRAME_INDEX|;
      var d := c + 1 + |f.fdText|;
      var e := d + 1 + |f.lenText|;
      && At(mem, p, FRAME_INDEX) && At(mem, p, FRAME_INDEX + [COMMA])
      && At(mem, c + 1, f.fdText) && d < |mem| && mem[d] == COMMA
      && At(mem, d + 1, f.lenText) && e < |mem| && mem[e] == COLON
      && At(mem, e + 1, f.payload) && e + 1 + |f.payload| == p + |FrameText(f)|
  {
    hide At;
    var c := p + |FRAME_INDEX|;
    var d := c + 1 + |f.fdText|;
    var e := d + 1 + |f.lenText|;
    AtConcat(mem, p, FRAME_INDEX + [COMMA] + f.fdText + [COMMA] + f.lenText + [COLON], f.payload);
    AtConcat(mem, p, FRAME_INDEX + [COMMA] + f.fdText + [COMMA] + f.lenText, [COLON]);
    AtConcat(mem, p, FRAME_INDEX + [COMMA] + f.fdText + [COMMA], f.lenText);
    AtConcat(mem, p, FRAME_INDEX + [COMMA] + f.fdText, [COMMA]);
    AtConcat(mem, p, FRAME_INDEX + [COMMA], f.fdText);
    AtConcat(mem, p, FRAME_INDEX, [COMMA]);
    AtIndex(mem, d, [COMMA], 0);
    AtIndex(mem, e, [COLON], 0);
  }

  /** The two numbers of a frame's text, whatever they are; the payload has the announced length modulo 2^16. */
  predicate Announced(f: Frame) {
    AllDigits(f.fdText) && AllDigits(f.lenText) && |f.payload| == DigitsValue(f.lenText) % 65536
  }

  lemma WellFormedAnnounced(f: Frame, kinds: seq<Kind>)
    requires |kinds| == SOCKETS && WellFormed(f, kinds)
    ensures Announced(f) && Socket(f) < SOCKETS
  {
  }

  lemma HeaderOfFrame(mem: seq<byte>, p: nat, left: nat, f: Frame)
    requires Announced(f) && At(mem, p, FrameText(f))
    requires |FrameText(f)| <= left && p + left <= |mem|
    ensures
      ParseHeader(mem, p, left) == if Socket(f) >= SOCKETS then Dropped
                                   else Header(Socket(f), |f.payload|, p + |FrameText(f)| - |f.payload|)
  {
    hide At, FrameText, FindComma, DigitRun, DigitsValue, U16Value;
    FrameLayout(mem, p, f);
    var c := p + |FRAME_INDEX|;
    CommaAt(mem, p, FRAME_INDEX);
    var d := c + 1 + |f.fdText|;
    DigitRunAt(mem, c + 1, f.fdText);
    AtSlice(mem, c + 1, f.fdText);
    CommaHere(mem, d);
    DigitRunAt(mem, d + 1, f.lenText);
    AtSlice(mem, d + 1, f.lenText);
    U16IsModulo(f.lenText);
  }

  lemma AtSlice(mem: seq<byte>, p: nat, t: seq<byte>)
    requires At(mem, p, t)
    ensures p + |t| <= |mem| && mem[p..p + |t|] == t
  {
  }

  lemma CommaHere(mem: seq<byte>, d: nat)
    requires d < |mem| && mem[d] == COMMA
    ensures FindComma(mem, d) == Some(d)
  {
  }

  /** With room, everything is stored. */
  lemma StoresAll(q: seq<byte>, kind: Kind, payload: seq<byte>)
    requires kind != Closed && |payload| < 0x10000 && |q| + |Load(kind, payload)| <= CACHE
    ensures Store(q, kind, payload) == q + Load(kind, payload)
  {
    if kind == Datagram {
      var t := U16Bytes(|payload|);
      assert t[..2] == t && payload[..|payload|] == payload;
      assert (q + t) + payload == q + (t + payload);
    } else {
      assert payload[..|payload|] == payload;
    }
  }

  /**
   * A back-to-back batch of well-formed frames for open sockets with room extends the byte
   * sequence of every socket by exactly its payloads, in order.
   */
  lemma {:induction false} BatchDelivered(
    kinds: seq<Kind>, queues: seq<seq<byte>>, mem: seq<byte>, p: nat, frames: seq<Frame>)
    requires Queues(kinds, queues) && AllWellFormed(frames, kinds)
    requires At(mem, p, BatchText(frames))
    requires forall s :: 0 <= s < SOCKETS ==> |queues[s]| + |Share(kinds, s, frames)| <= CACHE
    ensures
      var end := p + |BatchText(frames)|;
      Bounded(kinds, queues, mem, p, end)
      && forall s :: 0 <= s < SOCKETS ==>
           Deal(kinds, queues, mem, p, end)[s] == queues[s] + Share(kinds, s, frames)
    decreases |frames|
  {
    hide At, ParseHeader, DealSingle, FrameText, DigitsValue, WellFormed, Load, Share, BatchText;
    var end := p + |BatchText(frames)|;
    if frames == [] {
      NothingShared(kinds);
    } else {
      var f := frames[0];
      BatchSplit(mem, p, frames);
      assert WellFormed(f, kinds);
      SocketOf(f, kinds);
      ShareFirst(kinds, queues, frames);
      FrameDealt(kinds, queues, mem, p, end, f);
      var d := DealSingle(kinds, queues, mem, p, end - p);
      BatchDelivered(kinds, d.queues, mem, d.next, frames[1..]);
    }
  }

  lemma NothingShared(kinds: seq<Kind>)
    requires |kinds| == SOCKETS
    ensures BatchText([]) == [] && forall s :: 0 <= s < SOCKETS ==> Share(kinds, s, []) == []
  {
  }

  lemma SocketOf(f: Frame, kinds: seq<Kind>)
    requires |kinds| == SOCKETS && WellFormed(f, kinds)
    ensures AllDigits(f.fdText) && Socket(f) < SOCKETS && kinds[Socket(f)] != Closed && |f.payload| <= CACHE
  {
  }

  lemma FrameNotEmpty(mem: seq<byte>, p: nat, f: Frame)
    requires At(mem, p, FrameText(f))
    ensures |FrameText(f)| > |FRAME_INDEX| && p + |FrameText(f)| <= |mem|
  {
  }

  /** The text of a batch: its first frame, and where the next one starts. */
  lemma BatchSplit(mem: seq<byte>, p: nat, frames: seq<Frame>)
    requires frames != [] && At(mem, p, BatchText(frames))
    ensures At(mem, p, FrameText(frames[0]))
    ensures
      var next := p + |FrameText(frames[0])|;
      && p < next && At(mem, next, BatchText(frames[1..]))
      && next + |BatchText(frames[1..])| == p + |BatchText(frames)| <= |mem|
      && (frames[1..] != [] ==> At(mem, next, FRAME_INDEX) && next + |FRAME_INDEX| <= p + |BatchText(frames)|)
      && (frames[1..] == [] ==> next == p + |BatchText(frames)|)
  {
    hide At, FrameText;
    AtConcat(mem, p, FrameText(frames[0]), BatchText(frames[1..]));
    FrameNotEmpty(mem, p, frames[0]);
    AtSlice(mem, p, BatchText(frames));
    if frames[1..] != [] {
      var next := p + |FrameText(frames[0])|;
      var later := BatchText(frames[1..][1..]);
      assert BatchText(frames[1..]) == FrameText(frames[1]) + later;
      AtConcat(mem, next, FrameText(frames[1]), later);
      FrameLayout(mem, next, frames[1]);
      FrameNotEmpty(mem, next, frames[1]);
    } else {
      assert BatchText(frames[1..]) == [];
    }
  }

  /** The first frame's part of every socket's share. */
  lemma ShareFirst(kinds: seq<Kind>, queues: seq<seq<byte>>, frames: seq<Frame>)
    requires Queues(kinds, queues) && frames != [] && AllWellFormed(frames, kinds)
    ensures AllDigits(frames[0].fdText) && Socket(frames[0]) < SOCKETS && |frames[0].payload| < 0x10000
    ensures
      var s0 := Socket(frames[0]);
      var later := queues[s0 := queues[s0] + Load(kinds[s0], frames[0].payload)];
      && |Load(kinds[s0], frames[0].payload)| <= |Share(kinds, s0, frames)|
      && forall s :: 0 <= s < SOCKETS ==>
           later[s] + Share(kinds, s, frames[1..]) == queues[s] + Share(kinds, s, frames)
  {
    hide Load, DigitsValue;
    assert WellFormed(frames[0], kinds);
  }

  /** One well-formed frame with room: what it says and what it does. */
  lemma FrameDealt(kinds: seq<Kind>, queues: seq<seq<byte>>, mem: seq<byte>, p: nat, end: nat, f: Frame)
    requires Queues(kinds, queues) && WellFormed(f, kinds)
    requires At(mem, p, FrameText(f)) && p + |FrameText(f)| <= end <= |mem|
    requires |queues[Socket(f)]| + |Load(kinds[Socket(f)], f.payload)| <= CACHE
    ensures ParseHeader(mem, p, end - p) == Header(Socket(f), |f.payload|, p + |FrameText(f)| - |f.payload|)
    ensures DealSingle(kinds, queues, mem, p, end - p) ==
            Dealt(p + |FrameText(f)|, queues[Socket(f) := queues[Socket(f)] + Load(kinds[Socket(f)], f.payload)])
  {
    hide At, ParseHeader, Store, FrameText, DigitsValue;
    WellFormedAnnounced(f, kinds);
    HeaderOfFrame(mem, p, end - p, f);
    PayloadAt(mem, p, f);
    StoresAll(queues[Socket(f)], kinds[Socket(f)], f.payload);
  }

  lemma PayloadAt(mem: seq<byte>, p: nat, f: Frame)
    requires At(mem, p, FrameText(f))
    ensures |f.payload| < |FrameText(f)| && p + |FrameText(f)| <= |mem|
    ensures mem[p + |FrameText(f)| - |f.payload|..p + |FrameText(f)|] == f.payload
  {
    FrameLayout(mem, p, f);
  }

  // ---- one frame, whether it fits or not ----

  /** A queue after a frame for its socket with room for the payload: on a datagram socket the two bytes of the length,
      low byte first, and the payload are cut where the 1024 bytes of the ring end. */
  function QueueAfter(kind: Kind, q: seq<byte>, payload: seq<byte>): seq<byte>
    requires |payload| < 65536
  {
    if kind != Datagram then q + payload
    else
      var all := q + [|payload| % 256, |payload| / 256] + payload;
      if |all| <= 1024 then all else all[..1024]
  }

  lemma StoresUpToRoom(q: seq<byte>, kind: Kind, payload: seq<byte>)
    requires kind != Closed && |q| <= CACHE && |payload| <= 1024 - |q|
    ensures Store(q, kind, payload) == QueueAfter(kind, q, payload)
  {
    if kind == Datagram {
      var t: seq<byte> := [|payload| % 256, |payload| / 256];
      var n := Min(2, CACHE - |q|);
      var r := q + t[..n];
      var m := Min(|payload|, CACHE - |r|);
      assert U16Bytes(|payload|) == t;
      assert Store(q, kind, payload) == r + payload[..m];
      if n < 2 {
        assert m == 0;
      }
      assert r + payload[..m] == (q + t + payload)[..|q| + n + m];
      assert (q + t + payload)[..|q + t + payload|] == q + t + payload;
    } else {
      assert payload[..|payload|] == payload;
    }
  }

  /** What one frame of a message does, whatever it announces. It is delivered exactly when its number is that of an
      open socket whose ring has room for the payload, and then only that socket's queue changes; otherwise nothing
      changes and the rest of the message is dropped. */
  lemma FrameDealtExactly(kinds: seq<Kind>, queues: seq<seq<byte>>, mem: seq<byte>, p: nat, end: nat, f: Frame)
    requires Queues(kinds, queues) && Announced(f)
    requires At(mem, p, FrameText(f)) && p + |FrameText(f)| <= end <= |mem|
    ensures
      var s := Socket(f);
      DealSingle(kinds, queues, mem, p, end - p) ==
        if s < 5 && kinds[s] != Closed && |queues[s]| + |f.payload| <= 1024
        then Dealt(p + |FrameText(f)|, queues[s := QueueAfter(kinds[s], queues[s], f.payload)])
        else Dealt(end, queues)
  {
    hide At, ParseHeader, Store, QueueAfter, FrameText, DigitsValue;
    HeaderOfFrame(mem, p, end - p, f);
    PayloadAt(mem, p, f);
    var s := Socket(f);
    if s < 5 && kinds[s] != Closed && |queues[s]| + |f.payload| <= 1024 {
      StoresUpToRoom(queues[s], kinds[s], f.payload);
    }
  }

  // ---- receiving datagrams ----

  predicate AllShort(datagrams: seq<seq<byte>>) {
    forall k :: 0 <= k < |datagrams| ==> |datagrams[k]| < 0x10000
  }

  /** The datagrams of a queue, each behind its length. */
  function Packed(datagrams: seq<seq<byte>>): seq<byte>
    requires AllShort(datagrams)
  {
    if datagrams == [] then [] else U16Bytes(|datagrams[0]|) + datagrams[0] + Packed(datagrams[1..])
  }

  /** The length read from the front of a queue into a variable that was 0. */
  function U16At(q: seq<byte>): nat {
    (if |q| > 0 then q[0] as nat else 0) + 256 * (if |q| > 1 then q[1] as nat else 0)
  }

  /** The two reads of one receive on a datagram socket: the bytes handed out and what stays. */
  function TakeDatagram(q: seq<byte>): (r: (seq<byte>, seq<byte>))
  {
    var n := Min(2, |q|);
    var rest := q[n..];
    var m := Min(U16At(q), |rest|);
    (rest[..m], rest[m..])
  }

  lemma U16Back(n: nat, rest: seq<byte>)
    requires n < 0x10000
    ensures U16At(U16Bytes(n) + rest) == n && (U16Bytes(n) + rest)[2..] == rest
  {
  }

  lemma PackedFirst(datagrams: seq<seq<byte>>)
    requires datagrams != [] && AllShort(datagrams)
    ensures Packed(datagrams) == U16Bytes(|datagrams[0]|) + (datagrams[0] + Packed(datagrams[1..]))
  {
    assert Packed(datagrams) == U16Bytes(|datagrams[0]|) + datagrams[0] + Packed(datagrams[1..]);
  }

  /** Successive receives hand the datagrams out whole and in order. */
  lemma DatagramTaken(datagrams: seq<seq<byte>>)
    requires datagrams != [] && AllShort(datagrams)
    ensures TakeDatagram(Packed(datagrams)) == (datagrams[0], Packed(datagrams[1..]))
  {
    hide Packed, U16Bytes, U16At;
    var d, rest := datagrams[0], Packed(datagrams[1..]);
    PackedFirst(datagrams);
    U16Back(|d|, d + rest);
    assert (d + rest)[..|d|] == d && (d + rest)[|d|..] == rest;
  }

  /** On a datagram socket a batch leaves its payloads packed behind what was there. */
  lemma {:induction false} ShareIsPacked(kinds: seq<Kind>, s: nat, frames: seq<Frame>) returns (ds: seq<seq<byte>>)
    requires |kinds| == SOCKETS && s < SOCKETS && kinds[s] == Datagram
    requires AllWellFormed(frames, kinds)
    ensures AllShort(ds)
    ensures Share(kinds, s, frames) == Packed(ds)
    ensures ds == Payloads(s, frames)
    decreases |frames|
  {
    ds := [];
    if frames != [] {
      ds := ShareIsPacked(kinds, s, frames[1..]);
      if Socket(frames[0]) == s {
        ds := [frames[0].payload] + ds;
        assert ds[1..] == Payloads(s, frames[1..]);
      } else {
        assert [] + Packed(ds) == Packed(ds);
      }
    }
  }

  /** The payloads of the frames for socket `s`. */
  function Payloads(s: nat, frames: seq<Frame>): seq<seq<byte>>
    requires AllNumbered(frames)
    decreases |frames|
  {
    if frames == [] then []
    else (if Socket(frames[0]) == s then [frames[0].payload] else []) + Payloads(s, frames[1..])
  }

  /** What one receive puts into the caller's buffer when it is asked for `len` bytes. */
  function Handed(kind: Kind, q: seq<byte>, len: nat): seq<byte>
  {
    if q == [] || len == 0 || kind == Closed then [] else if kind == Datagram then TakeDatagram(q).0 else q[..Min(len, |q|)]
  }

  /** A stream socket never hands out more than it was asked for. A datagram socket does not look at the length it was
      asked for: it stays within it exactly when the datagram at the front does. */
  lemma HandedWithinLength(datagrams: seq<seq<byte>>, q: seq<byte>, len: nat)
    requires AllShort(datagrams) && datagrams != []
    ensures |Handed(Stream, q, len)| <= len
    ensures len > 0 ==> (|Handed(Datagram, Packed(datagrams), len)| <= len <==> |datagrams[0]| <= len)
  {
    hide TakeDatagram, Packed, U16Bytes;
    DatagramTaken(datagrams);
    PackedFirst(datagrams);
  }

  /** What `n` receives in turn hand out. */
  function TakeMany(q: seq<byte>, n: nat): seq<seq<byte>> {
    if n == 0 then [] else [TakeDatagram(q).0] + TakeMany(TakeDatagram(q).1, n - 1)
  }

  lemma {:induction false} AllTaken(datagrams: seq<seq<byte>>)
    requires AllShort(datagrams)
    ensures TakeMany(Packed(datagrams), |datagrams|) == datagrams
    decreases |datagrams|
  {
    hide TakeDatagram, Packed;
    if datagrams != [] {
      DatagramTaken(datagrams);
      AllTaken(datagrams[1..]);
    }
  }

  lemma {:induction false} PackedConcat(a: seq<seq<byte>>, b: seq<seq<byte>>)
    requires AllShort(a) && AllShort(b)
    ensures AllShort(a + b) && Packed(a) + Packed(b) == Packed(a + b)
    decreases |a|
  {
    hide U16Bytes;
    if a == [] {
      assert a + b == b;
    } else {
      PackedConcat(a[1..], b);
      assert (a + b)[1..] == a[1..] + b;
      assert Packed(a) + Packed(b) == U16Bytes(|a[0]|) + a[0] + (Packed(a[1..]) + Packed(b));
    }
  }

  /** A datagram socket with room: after a batch, successive receives hand out what was there before and then the
      payloads of the batch, each whole and in order. */
  lemma DatagramsHandedOut(
    kinds: seq<Kind>, queues: seq<seq<byte>>, mem: seq<byte>, p: nat, frames: seq<Frame>, s: nat,
    before: seq<seq<byte>>)
    requires Queues(kinds, queues) && AllWellFormed(frames, kinds) && At(mem, p, BatchText(frames))
    requires forall i :: 0 <= i < SOCKETS ==> |queues[i]| + |Share(kinds, i, frames)| <= CACHE
    requires s < SOCKETS && kinds[s] == Datagram && AllShort(before) && queues[s] == Packed(before)
    ensures
      var end := p + |BatchText(frames)|;
      var all := before + Payloads(s, frames);
      Bounded(kinds, queues, mem, p, end)
      && TakeMany(Deal(kinds, queues, mem, p, end)[s], |all|) == all
  {
    hide Deal, Bounded, Share, Packed, Payloads, TakeMany, BatchText, At;
    BatchDelivered(kinds, queues, mem, p, frames);
    var ds := ShareIsPacked(kinds, s, frames);
    PackedConcat(before, ds);
    AllTaken(before + ds);
  }

  // ---- the driver ----

  /** ring_buffer_write on one ring. */
  method WriteTo(ring: Ring, src: array<byte>, start: nat, len: nat)
    requires ring.Valid() && ring.buflen == CACHE && ring.buf != src && start + len <= src.Length
    modifies ring`datalen, ring.buf
    ensures ring.Valid()
    ensures |old(ring.Contents())| <= CACHE
    ensures ring.Contents() == old(ring.Contents()) + Added(old(ring.Contents()), CACHE, Put(src[start..start + len]))
  {
    hide Ring.Contents;
    ghost var q, data := ring.Contents(), src[start..start + len];
    var n := ring.Write(src, start, len);
    assert n > 0 ==> src[start..start + n] == data[..n];
    assert q + [] == q;
  }

  /** The control block: the kind of each socket slot and the ring its bytes go to. */
  class Driver {
    const rings: seq<Ring>
    var kinds: seq<Kind>

    function Slot(fd: nat): Ring
      requires fd < |rings|
    {
      rings[fd]
    }

    ghost predicate Valid()
      reads this, rings, set r | r in rings :: r.buf
      ensures Valid() ==> |rings| == |kinds| == SOCKETS
    {
      && |rings| == |kinds| == SOCKETS
      && (forall i :: 0 <= i < SOCKETS ==> rings[i].Valid() && rings[i].buflen == CACHE)
      && (forall i, k :: 0 <= i < k < SOCKETS ==> rings[i] != rings[k] && rings[i].buf != rings[k].buf)
    }

    ghost function Contents(): (q: seq<seq<byte>>)
      requires Valid()
      reads this, rings, set r | r in rings :: r.buf
      ensures Queues(kinds, q)
      ensures forall i :: 0 <= i < SOCKETS ==> q[i] == rings[i].Contents()
    {
      [rings[0].Contents(), rings[1].Contents(), rings[2].Contents(), rings[3].Contents(), rings[4].Contents()]
    }

    /** The memory of a message is none of the rings' storage. */
    ghost predicate Apart(msg: array<byte>)
      reads rings
    {
      forall i :: 0 <= i < |rings| ==> rings[i].buf != msg
    }

    constructor (rings: seq<Ring>)
      requires |rings| == SOCKETS
      requires forall i :: 0 <= i < SOCKETS ==> rings[i].Valid() && rings[i].buflen == CACHE
      requires forall i, k :: 0 <= i < k < SOCKETS ==> rings[i] != rings[k] && rings[i].buf != rings[k].buf
      ensures Valid() && this.rings == rings && kinds == [Closed, Closed, Closed, Closed, Closed]
    {
      this.rings := rings;
      kinds := [Closed, Closed, Closed, Closed, Closed];
    }

    method FindCommaFrom(msg: array<byte>, p: nat) returns (r: Option<nat>)
      requires p <= msg.Length
      ensures r == FindComma(msg[..], p)
    {
      var i := p;
      while i < msg.Length && msg[i] != NUL && msg[i] != COMMA
        invariant p <= i <= msg.Length
        invariant FindComma(msg[..], p) == FindComma(msg[..], i)
      {
        i := i + 1;
      }
      r := if i < msg.Length && msg[i] == COMMA then Some(i) else None;
    }

    /** The two loops over digits: an int for the socket, an unsigned short for the length. */
    method ReadDigits(msg: array<byte>, p: nat) returns (end: nat, number: nat, short: nat)
      requires p <= msg.Length
      ensures end == p + DigitRun(msg[..], p)
      ensures number == DigitsValue(msg[p..end]) && short == U16Value(msg[p..end])
    {
      end, number, short := p, 0, 0;
      while end < msg.Length && IsDigit(msg[end])
        invariant p <= end <= msg.Length
        invariant forall k :: p <= k < end ==> IsDigit(msg[k])
        invariant DigitRun(msg[..], p) == end - p + DigitRun(msg[..], end)
        invariant number == DigitsValue(msg[p..end]) && short == U16Value(msg[p..end])
      {
        assert msg[p..end + 1][..end - p] == msg[p..end];
        number := 10 * number + DigitValue(msg[end]);
        short := (10 * short + DigitValue(msg[end])) % 0x10000;
        end := end + 1;
      }
    }

    /** The part of Esp8266MsgDealSingle that reads the header. */
    method ReadHeader(msg: array<byte>, p: nat, left: nat) returns (h: Header)
      requires p + left <= msg.Length
      ensures h == ParseHeader(msg[..], p, left)
    {
      hide FindComma, DigitRun, DigitsValue, U16Value;
      if left < |FRAME_INDEX| {
        return Dropped;
      }
      var comma := FindCommaFrom(msg, p);
      if comma.None? {
        return Dropped;
      }
      var c := comma.value;
      var e, fd, _ := ReadDigits(msg, c + 1);
      if fd >= SOCKETS {
        return Dropped;
      }
      comma := FindCommaFrom(msg, e);
      if comma.None? {
        return Dropped;
      }
      var d := comma.value;
      var f, _, len := ReadDigits(msg, d + 1);
      h := Header(fd, len, f + 1);
    }

    /** ring_buffer_write on the ring of one socket; the other rings are left alone. */
    method Push(fd: nat, src: array<byte>, start: nat, len: nat)
      requires Valid() && fd < SOCKETS && Apart(src) && start + len <= src.Length
      modifies Slot(fd)`datalen, Slot(fd).buf
      ensures Valid() && Apart(src)
      ensures Contents() ==
              old(Contents())[fd := old(Contents())[fd] + Added(old(Contents())[fd], CACHE, Put(src[start..start + len]))]
    {
      hide Ring.Contents, Ring.Valid, Added;
      ghost var q := Contents();
      WriteTo(Slot(fd), src, start, len);
      assert forall i :: 0 <= i < SOCKETS && i != fd ==> rings[i].Contents() == q[i];
    }

    method PushLength(fd: nat, len: nat, ghost msg: array<byte>)
      requires Valid() && fd < SOCKETS && len < 0x10000 && Apart(msg)
      modifies Slot(fd)`datalen, Slot(fd).buf
      ensures Valid() && Apart(msg)
      ensures Contents() ==
              old(Contents())[fd := old(Contents())[fd] + Added(old(Contents())[fd], CACHE, Put(U16Bytes(len)))]
    {
      hide Valid, Contents, Ring.Contents, Added;
      var size := new byte[2];
      size[0], size[1] := len % 256, len / 256;
      assert size[0..0 + 2] == U16Bytes(len);
      Push(fd, size, 0, 2);
    }

    /** The writes that store a payload: on a datagram socket its length goes first. */
    method StorePayload(fd: nat, msg: array<byte>, at: nat, len: nat)
      requires Valid() && fd < SOCKETS && kinds[fd] != Closed && Apart(msg) && at + len <= msg.Length && len < 0x10000
      modifies Slot(fd)`datalen, Slot(fd).buf
      ensures Valid() && Apart(msg)
      ensures Contents() == old(Contents())[fd := Store(old(Contents())[fd], kinds[fd], msg[at..at + len])]
    {
      hide Valid, Contents, Ring.Contents, Added;
      if kinds[fd] == Datagram {
        PushLength(fd, len, msg);
      }
      Push(fd, msg, at, len);
    }

    /** Esp8266MsgDealSingle: one frame of the message, and where the next may start. */
    method MsgDealSingle(msg: array<byte>, p: nat, left: nat) returns (next: nat)
      requires Valid() && Apart(msg) && p + left <= msg.Length
      requires
        var h := ParseHeader(msg[..], p, left);
        Deliverable(kinds, Contents(), h) ==> h.at + h.len <= msg.Length
      modifies rings, set r | r in rings :: r.buf
      ensures Valid() && Apart(msg) && (forall i :: 0 <= i < SOCKETS ==> rings[i].buf == old(rings[i].buf))
      ensures DealSingle(kinds, old(Contents()), msg[..], p, left) == Dealt(next, Contents())
    {
      hide Valid, Contents, ParseHeader, Ring.Contents, Store;
      next := p + left;
      var h := ReadHeader(msg, p, left);
      if h.Dropped? || kinds[h.fd] == Closed {
        return;
      }
      if h.len > CACHE - rings[h.fd].datalen {
        return;
      }
      assert msg[h.at..h.at + h.len] == msg[..][h.at..h.at + h.len];
      StorePayload(h.fd, msg, h.at, h.len);
      next := h.at + h.len;
    }

    /** The loop of Esp8266MsgDeal, over a message of `len` bytes. */
    method MsgDeal(msg: array<byte>, len: nat)
      requires Valid() && Apart(msg) && len <= msg.Length && Bounded(kinds, Contents(), msg[..], 0, len)
      modifies rings, set r | r in rings :: r.buf
      ensures Valid()
      ensures Contents() == Deal(kinds, old(Contents()), msg[..], 0, len)
    {
      hide Valid, Contents, DealSingle, ParseHeader, Ring.Contents;
      var next, left := 0, len;
      var more := true;
      ghost var start, mem := Contents(), msg[..];
      while next < len && more
        invariant Valid() && Apart(msg) && msg[..] == mem
        invariant forall i :: 0 <= i < SOCKETS ==> rings[i].buf == old(rings[i].buf)
        invariant more && next < len ==> left == len - next && Bounded(kinds, Contents(), mem, next, len)
                                         && Deal(kinds, start, mem, 0, len) == Deal(kinds, Contents(), mem, next, len)
        invariant !more || next >= len ==> Deal(kinds, start, mem, 0, len) == Contents()
        decreases more, len - next
      {
        next := MsgDealSingle(msg, next, left);
        if next + |FRAME_INDEX| > len || !At(msg[..], next, FRAME_INDEX) {
          more := false;
        } else {
          left := len - next;
        }
      }
    }

    /** ring_buffer_read on the ring of one socket; the other rings are left alone. */
    method Pull(fd: nat, dst: array<byte>, len: nat) returns (ret: int)
      requires Valid() && fd < SOCKETS && Apart(dst) && Min(len, |Contents()[fd]|) <= dst.Length
      modifies Slot(fd)`datalen, Slot(fd)`dataoff, dst
      ensures Valid() && Apart(dst)
      ensures
        var q := old(Contents())[fd];
        var n := Min(len, |q|);
        && ret == (if len == 0 then -1 else n)
        && Contents() == old(Contents())[fd := q[n..]]
        && dst[..] == q[..n] + old(dst[..])[n..]
    {
      hide Ring.Contents;
      ghost var q := Contents();
      ret := rings[fd].Read(dst, len);
      assert q[fd][0..] == q[fd];
      assert forall i :: 0 <= i < SOCKETS && i != fd ==> rings[i].Contents() == q[i];
    }

    /** The stored length of the datagram at the front, read into a variable that was 0. */
    method PullLength(fd: nat, ghost dst: array<byte>) returns (framelen: nat)
      requires Valid() && fd < SOCKETS && Apart(dst)
      modifies Slot(fd)`datalen, Slot(fd)`dataoff
      ensures Valid() && Apart(dst)
      ensures
        var q := old(Contents())[fd];
        framelen == U16At(q) && Contents() == old(Contents())[fd := q[Min(2, |q|)..]]
    {
      hide Valid, Contents, Ring.Contents;
      ghost var q := Contents()[fd];
      var size := new byte[2](_ => 0);
      var _ := Pull(fd, size, 2);
      framelen := size[0] as nat + 256 * size[1] as nat;
      assert size[..][0] == size[0] && size[..][1] == size[1];
    }

    /**
     * One round of Esp8266Recv: on a datagram socket the stored length and then that many bytes, whatever `len` is,
     * on a stream socket what fits.
     */
    method Receive(fd: nat, dst: array<byte>, len: nat) returns (ret: int)
      requires Valid() && Apart(dst)
      requires fd < SOCKETS ==> |Handed(kinds[fd], Contents()[fd], len)| <= dst.Length
      modifies rings`datalen, rings`dataoff, dst
      ensures Valid()
      ensures fd >= SOCKETS || kinds[fd] == Closed || len == 0 || old(Contents())[fd] == [] ==>
                ret == -1 && Contents() == old(Contents()) && dst[..] == old(dst[..])
      ensures fd < SOCKETS && kinds[fd] == Datagram && len > 0 && old(Contents())[fd] != [] ==>
                var (d, rest) := TakeDatagram(old(Contents())[fd]);
                Contents() == old(Contents())[fd := rest] && (d != [] ==> ret == |d| && dst[..] == d + old(dst[..])[ret..])
      ensures fd < SOCKETS && kinds[fd] == Stream && len > 0 && old(Contents())[fd] != [] ==>
                ret == Min(len, |old(Contents())[fd]|) && dst[..] == old(Contents())[fd][..ret] + old(dst[..])[ret..]
                && Contents() == old(Contents())[fd := old(Contents())[fd][ret..]]
    {
      hide Valid, Contents, Ring.Contents;
      ret := -1;
      if fd >= SOCKETS || kinds[fd] == Closed || len == 0 {
        return;
      }
      if rings[fd].datalen > 0 {
        if kinds[fd] == Datagram {
          var framelen := PullLength(fd, dst);
          ret := Pull(fd, dst, framelen);
        } else {
          ret := Pull(fd, dst, len);
        }
      }
    }
  }
}

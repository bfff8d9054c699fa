/** Whole streams of frames: what send_one_frame puts on the line and where receive_one_byte keeps it. */
module UsipFraming {
  import opened Bytes
  import opened UsipFrame
  import opened UsipReceiver

  predicate Sendable(body: seq<byte>) {
    1 <= |body| <= FRM_DATA_MAX_LEN
  }

  predicate AllSendable(bodies: seq<seq<byte>>) {
    forall b :: b in bodies ==> Sendable(b)
  }

  /** The frames one after another. */
  function Line(bodies: seq<seq<byte>>): seq<byte> {
    if bodies == [] then [] else Wire(bodies[0]) + Line(bodies[1..])
  }

  /** Where a frame that opens at write index `w` is kept. */
  function Start(w: nat): (p: nat)
    requires w < RCV_BUFF
    ensures p + FRM_DATA_MAX_LEN <= RCV_BUFF
  {
    if RCV_BUFF - w < FRM_DATA_MAX_LEN then 0 else w
  }

  function Put(buf: seq<byte>, p: nat, t: seq<byte>): (r: seq<byte>)
    requires p + |t| <= |buf|
    ensures |r| == |buf| && At(r, p, t)
    ensures forall a :: 0 <= a < |buf| && !(p <= a < p + |t|) ==> r[a] == buf[a]
  {
    buf[..p] + t + buf[p + |t|..]
  }

  /** One frame kept: its bytes contiguous at its slot, the receiver between frames again. */
  function Received(rx: Rx, body: seq<byte>): (r: Rx)
    requires Idle(rx) && Sendable(body)
    ensures Idle(r) && r.slot == (rx.slot + 1) % SKB_NUM
  {
    var p := Start(rx.writeIndex);
    rx.(buf := Put(rx.buf, p, body), writeIndex := (p + |body|) % RCV_BUFF,
        slots := rx.slots[rx.slot := Slot(p, |body|)], slot := (rx.slot + 1) % SKB_NUM, signal := true)
  }

  function AllReceived(rx: Rx, bodies: seq<seq<byte>>): (r: Rx)
    requires Idle(rx) && AllSendable(bodies)
    ensures Idle(r)
    decreases |bodies|
  {
    if bodies == [] then rx else AllReceived(Received(rx, bodies[0]), bodies[1..])
  }

  // ---- inside a frame ----

  /** The receiver with the first `k` bytes of a frame taken. */
  function Taken(rx: Rx, body: seq<byte>, k: nat): (r: Rx)
    requires Idle(rx) && Sendable(body) && k <= |body|
    ensures Valid(r)
  {
    var p := Start(rx.writeIndex);
    rx.(inFrame := true, buf := Put(rx.buf, p, body[..k]), writeIndex := (p + k) % RCV_BUFF, frameLen := k,
        slots := rx.slots[rx.slot := rx.slots[rx.slot].(pos := p)])
  }

  lemma Opens(rx: Rx, body: seq<byte>)
    requires Idle(rx) && Sendable(body)
    ensures Step(rx, END) == Taken(rx, body, 0)
  {
    assert Put(rx.buf, Start(rx.writeIndex), body[..0]) == rx.buf;
  }

  lemma PutNext(buf: seq<byte>, p: nat, t: seq<byte>, k: nat)
    requires p + |t| <= |buf| && k < |t|
    ensures Put(buf, p, t[..k])[p + k := t[k]] == Put(buf, p, t[..k + 1])
  {
    assert t[..k + 1] == t[..k] + [t[k]];
  }

  lemma TakesPlain(rx: Rx, body: seq<byte>, k: nat)
    requires Idle(rx) && Sendable(body) && k < |body| && body[k] != END && body[k] != ESC
    ensures Step(Taken(rx, body, k), body[k]) == Taken(rx, body, k + 1)
  {
    hide Put, Start;
    var p := Start(rx.writeIndex);
    PutNext(rx.buf, p, body, k);
    assert p + k < RCV_BUFF && (p + k) % RCV_BUFF == p + k;
    assert Wrapped(rx.(writeIndex := p + k + 1)).writeIndex == (p + k + 1) % RCV_BUFF;
  }

  lemma TakesEscaped(rx: Rx, body: seq<byte>, k: nat, code: byte)
    requires Idle(rx) && Sendable(body) && k < |body|
    requires (body[k] == END && code == ESC_END) || (body[k] == ESC && code == ESC_ESC)
    ensures Step(Taken(rx, body, k), ESC) == Taken(rx, body, k).(isEsc := true)
    ensures Step(Taken(rx, body, k).(isEsc := true), code) == Taken(rx, body, k + 1)
  {
    hide Put, Start;
    var p := Start(rx.writeIndex);
    PutNext(rx.buf, p, body, k);
    assert p + k < RCV_BUFF && (p + k) % RCV_BUFF == p + k;
    assert Wrapped(rx.(writeIndex := p + k + 1)).writeIndex == (p + k + 1) % RCV_BUFF;
  }

  lemma Takes(rx: Rx, body: seq<byte>, k: nat)
    requires Idle(rx) && Sendable(body) && k < |body|
    ensures Run(Taken(rx, body, k), Stuff(body[k])) == Taken(rx, body, k + 1)
  {
    hide Step, Taken;
    var t := Stuff(body[k]);
    if |t| == 1 {
      TakesPlain(rx, body, k);
      RunOne(Taken(rx, body, k), t[0]);
    } else {
      TakesEscaped(rx, body, k, t[1]);
      RunOne(Taken(rx, body, k), t[0]);
      RunOne(Taken(rx, body, k).(isEsc := true), t[1]);
      assert t == [t[0]] + [t[1]];
      RunConcat(Taken(rx, body, k), [t[0]], [t[1]]);
    }
  }

  lemma RunOne(rx: Rx, b: byte)
    requires Valid(rx)
    ensures Run(rx, [b]) == Step(rx, b)
  {
    hide Step;
    assert [b][1..] == [];
  }

  lemma {:induction false} TakesUpTo(rx: Rx, body: seq<byte>, k: nat)
    requires Idle(rx) && Sendable(body) && k <= |body|
    ensures Run(rx, [END] + StuffAll(body[..k])) == Taken(rx, body, k)
    decreases k
  {
    hide Step, Taken, Stuff;
    if k == 0 {
      assert body[..0] == [] && [END] + StuffAll([]) == [END];
      RunOne(rx, END);
      Opens(rx, body);
    } else {
      TakesUpTo(rx, body, k - 1);
      StuffNext(body, k - 1);
      assert [END] + StuffAll(body[..k]) == [END] + StuffAll(body[..k - 1]) + Stuff(body[k - 1]);
      RunConcat(rx, [END] + StuffAll(body[..k - 1]), Stuff(body[k - 1]));
      Takes(rx, body, k - 1);
    }
  }

  lemma Closes(rx: Rx, body: seq<byte>)
    requires Idle(rx) && Sendable(body)
    ensures Step(Taken(rx, body, |body|), END) == Received(rx, body)
  {
    hide Put;
    assert body[..|body|] == body;
  }

  /** A frame sent from between frames is kept whole, and the receiver is between frames again. */
  lemma FrameReceived(rx: Rx, body: seq<byte>)
    requires Idle(rx) && Sendable(body)
    ensures Run(rx, Wire(body)) == Received(rx, body)
  {
    hide Step, Taken, Received;
    TakesUpTo(rx, body, |body|);
    assert body[..|body|] == body;
    RunConcat(rx, [END] + StuffAll(body), [END]);
    RunOne(Taken(rx, body, |body|), END);
    Closes(rx, body);
  }

  lemma {:induction false} StreamReceived(rx: Rx, bodies: seq<seq<byte>>)
    requires Idle(rx) && AllSendable(bodies)
    ensures Run(rx, Line(bodies)) == AllReceived(rx, bodies)
    decreases |bodies|
  {
    hide Step, Received, Wire;
    if bodies != [] {
      FrameReceived(rx, bodies[0]);
      RunConcat(rx, Wire(bodies[0]), Line(bodies[1..]));
      StreamReceived(Received(rx, bodies[0]), bodies[1..]);
    }
  }

  // ---- part of a frame ----

  /** A part of the stuffed bytes ends between two bytes, or inside an escape. */
  lemma {:induction false} StuffPrefix(s: seq<byte>, n: nat) returns (k: nat, inEscape: bool)
    requires n <= |StuffAll(s)|
    ensures k <= |s| && (inEscape ==> k < |s| && (s[k] == END || s[k] == ESC))
    ensures StuffAll(s)[..n] == StuffAll(s[..k]) + (if inEscape then [ESC] else [])
    decreases |s|
  {
    if n == 0 {
      assert s[..0] == [];
      return 0, false;
    }
    var t := Stuff(s[0]);
    if n < |t| {
      assert s[..0] == [] && StuffAll(s)[..n] == [ESC];
      return 0, true;
    }
    k, inEscape := StuffPrefix(s[1..], n - |t|);
    k := k + 1;
    assert s[..k][1..] == s[1..][..k - 1];
    assert StuffAll(s)[..n] == t + StuffAll(s[1..])[..n - |t|];
  }

  /** What part of a frame may have changed: the new frame's own space and slot. */
  predicate OnlyOwnSpace(rx: Rx, body: seq<byte>, r: Rx)
    requires Idle(rx) && Sendable(body)
  {
    var p := Start(rx.writeIndex);
    && Valid(r)
    && (forall a :: 0 <= a < RCV_BUFF && !(p <= a < p + |body|) ==> r.buf[a] == rx.buf[a])
    && (forall s :: 0 <= s < SKB_NUM && s != rx.slot ==> r.slots[s] == rx.slots[s])
  }

  lemma TakenOnlyOwnSpace(rx: Rx, body: seq<byte>, k: nat)
    requires Idle(rx) && Sendable(body) && k <= |body|
    ensures OnlyOwnSpace(rx, body, Taken(rx, body, k))
    ensures OnlyOwnSpace(rx, body, Taken(rx, body, k).(isEsc := true))
  {
    hide Put;
  }

  lemma ReceivedOnlyOwnSpace(rx: Rx, body: seq<byte>)
    requires Idle(rx) && Sendable(body)
    ensures OnlyOwnSpace(rx, body, rx) && OnlyOwnSpace(rx, body, Received(rx, body))
  {
    hide Put;
  }

  lemma PartOnlyOwnSpace(rx: Rx, body: seq<byte>, n: nat)
    requires Idle(rx) && Sendable(body) && n <= |Wire(body)|
    ensures OnlyOwnSpace(rx, body, Run(rx, Wire(body)[..n]))
  {
    hide Step, Taken, Received, OnlyOwnSpace, Stuff;
    var w := Wire(body);
    ReceivedOnlyOwnSpace(rx, body);
    if n == 0 {
      assert w[..0] == [];
    } else if n == |w| {
      assert w[..n] == w;
      FrameReceived(rx, body);
    } else {
      var k, inEscape := StuffPrefix(body, n - 1);
      var part := [END] + StuffAll(body[..k]);
      assert w[..n] == [END] + StuffAll(body)[..n - 1];
      TakesUpTo(rx, body, k);
      TakenOnlyOwnSpace(rx, body, k);
      if inEscape {
        assert w[..n] == part + [ESC];
        RunConcat(rx, part, [ESC]);
        RunOne(Taken(rx, body, k), ESC);
        TakesEscaped(rx, body, k, if body[k] == END then ESC_END else ESC_ESC);
      } else {
        assert w[..n] == part;
      }
    }
  }

  // ---- how long a frame stays intact ----

  /** Slot `i` still describes `body`, and its bytes are in the buffer. */
  predicate Intact(rx: Rx, i: nat, body: seq<byte>) {
    i < |rx.slots| && rx.slots[i].len == |body| && At(rx.buf, rx.slots[i].pos, body)
  }

  /** An intact frame that is the j-th most recent: the write index is at most j frames past it, or has
      wrapped and not caught up. */
  predicate Kept(rx: Rx, i: nat, body: seq<byte>, j: nat) {
    && Idle(rx) && Sendable(body) && i < SKB_NUM && 1 <= j < SKB_NUM && (i + j) % SKB_NUM == rx.slot
    && Intact(rx, i, body) && rx.slots[i].pos + FRM_DATA_MAX_LEN <= RCV_BUFF
    && var p := rx.slots[i].pos;
       || p + |body| <= rx.writeIndex <= p + FRM_DATA_MAX_LEN * j
       || rx.writeIndex + RCV_BUFF <= p + FRM_DATA_MAX_LEN * j + (FRM_DATA_MAX_LEN - 1)
  }

  /** The space of the next frame does not meet a kept one. */
  lemma KeptApart(rx: Rx, i: nat, body: seq<byte>, j: nat, next: seq<byte>)
    requires Kept(rx, i, body, j) && j <= 14 && Sendable(next)
    ensures i != rx.slot
    ensures Start(rx.writeIndex) + |next| <= rx.slots[i].pos
         || rx.slots[i].pos + |body| <= Start(rx.writeIndex)
  {
  }

  lemma KeptInPart(rx: Rx, i: nat, body: seq<byte>, j: nat, next: seq<byte>, r: Rx)
    requires Kept(rx, i, body, j) && j <= 14 && Sendable(next) && OnlyOwnSpace(rx, next, r)
    ensures Intact(r, i, body) && r.slots[i] == rx.slots[i]
  {
    KeptApart(rx, i, body, j, next);
    var p := rx.slots[i].pos;
    AtAll(rx.buf, p, body);
    assert r.buf[p..p + |body|] == body;
  }

  lemma KeptOn(rx: Rx, i: nat, body: seq<byte>, j: nat, next: seq<byte>)
    requires Kept(rx, i, body, j) && j <= 14 && Sendable(next)
    ensures Kept(Received(rx, next), i, body, j + 1)
  {
    hide Put, At;
    ReceivedOnlyOwnSpace(rx, next);
    KeptInPart(rx, i, body, j, next, Received(rx, next));
    KeptApart(rx, i, body, j, next);
  }

  lemma KeptFirst(rx: Rx, body: seq<byte>)
    requires Idle(rx) && Sendable(body)
    ensures Kept(Received(rx, body), rx.slot, body, 1)
  {
    hide Put, At;
  }

  lemma {:induction false} KeptThrough(rx: Rx, i: nat, body: seq<byte>, j: nat, later: seq<seq<byte>>)
    requires Kept(rx, i, body, j) && j + |later| <= 15 && AllSendable(later)
    ensures Kept(AllReceived(rx, later), i, body, j + |later|)
    decreases |later|
  {
    hide Intact, Received;
    if later != [] {
      KeptOn(rx, i, body, j, later[0]);
      KeptThrough(Received(rx, later[0]), i, body, j + 1, later[1..]);
    }
  }

  lemma {:induction false} ReceivedSplit(rx: Rx, bodies: seq<seq<byte>>, i: nat)
    requires Idle(rx) && AllSendable(bodies) && i <= |bodies|
    ensures AllSendable(bodies[..i]) && AllSendable(bodies[i..])
    ensures AllReceived(rx, bodies) == AllReceived(AllReceived(rx, bodies[..i]), bodies[i..])
    ensures AllReceived(rx, bodies[..i]).slot == (rx.slot + i) % SKB_NUM
    decreases i
  {
    hide Received, Sendable;
    if i == 0 {
      assert bodies[..0] == [] && bodies[0..] == bodies;
    } else {
      assert (rx.slot + 1) % SKB_NUM == Received(rx, bodies[0]).slot;
      ReceivedSplit(Received(rx, bodies[0]), bodies[1..], i - 1);
      assert bodies[..i][1..] == bodies[1..][..i - 1] && bodies[i..] == bodies[1..][i - 1..];
    }
  }

  /** After any stream, each of its last fourteen frames is kept. */
  lemma RecentKept(rx: Rx, bodies: seq<seq<byte>>, i: nat)
    requires Idle(rx) && AllSendable(bodies)
    requires i < |bodies| <= i + 14
    ensures Kept(AllReceived(rx, bodies), (rx.slot + i) % SKB_NUM, bodies[i], |bodies| - i)
  {
    hide Kept, Received;
    ReceivedSplit(rx, bodies, i);
    var before := AllReceived(rx, bodies[..i]);
    KeptFirst(before, bodies[i]);
    assert bodies[i..][1..] == bodies[i + 1..];
    KeptThrough(Received(before, bodies[i]), before.slot, bodies[i], 1, bodies[i + 1..]);
  }

  /** Any stream of frames with bodies of 1 to 126 bytes, and then any part of one more: the fourteen
      frames completed last stand in the buffer, each contiguous at its own slot, and a complete stream
      leaves the receiver between frames. */
  lemma RecentFramesIntact(rx: Rx, bodies: seq<seq<byte>>, next: seq<byte>, n: nat)
    requires Idle(rx) && AllSendable(bodies) && Sendable(next) && n <= |Wire(next)|
    ensures Idle(Run(rx, Line(bodies)))
    ensures Run(rx, Line(bodies)).slot == (rx.slot + |bodies|) % SKB_NUM
    ensures forall i :: 0 <= i < |bodies| <= i + 14 ==>
      Intact(Run(rx, Line(bodies) + Wire(next)[..n]), (rx.slot + i) % SKB_NUM, bodies[i])
  {
    hide Kept, Received, Step, Wire, Intact, OnlyOwnSpace;
    var r := AllReceived(rx, bodies);
    StreamReceived(rx, bodies);
    ReceivedSplit(rx, bodies, |bodies|);
    assert bodies[..|bodies|] == bodies;
    RunConcat(rx, Line(bodies), Wire(next)[..n]);
    PartOnlyOwnSpace(r, next, n);
    forall i | 0 <= i < |bodies| <= i + 14
      ensures Intact(Run(rx, Line(bodies) + Wire(next)[..n]), (rx.slot + i) % SKB_NUM, bodies[i])
    {
      RecentKept(rx, bodies, i);
      KeptInPart(r, (rx.slot + i) % SKB_NUM, bodies[i], |bodies| - i, next, Run(r, Wire(next)[..n]));
    }
  }

  // ---- fourteen is the most ----

  /** From write index 1797, a frame of full length and up to fifteen more: the first stands at the end of the
      buffer, the others from its beginning. */
  lemma {:induction false} FullFrames(rx: Rx, bodies: seq<seq<byte>>)
    requires Idle(rx) && AllSendable(bodies) && 1 <= |bodies| <= 15
    requires rx.writeIndex == 1797 && forall i :: 0 <= i < |bodies| ==> |bodies[i]| == FRM_DATA_MAX_LEN
    ensures AllReceived(rx, bodies).writeIndex == if |bodies| == 1 then 1923 else FRM_DATA_MAX_LEN * (|bodies| - 1)
    decreases |bodies|
  {
    hide Put;
    var n := |bodies| - 1;
    ReceivedSplit(rx, bodies, n);
    assert AllReceived(AllReceived(rx, bodies[..n]), bodies[n..]) == Received(AllReceived(rx, bodies[..n]), bodies[n]) by {
      assert bodies[n..] == [bodies[n]];
      assert bodies[n..][1..] == [];
    }
    if n == 0 {
      assert bodies[..0] == [];
    } else {
      FullFrames(rx, bodies[..n]);
    }
  }

  /** The fifteenth most recent frame can be overwritten while the next one arrives. */
  lemma FifteenthCanBeLost(rx: Rx, bodies: seq<seq<byte>>, next: seq<byte>)
    requires Idle(rx) && rx.writeIndex == 1797
    requires |bodies| == 15 && |next| == FRM_DATA_MAX_LEN
    requires forall i :: 0 <= i < 15 ==> |bodies[i]| == FRM_DATA_MAX_LEN
    requires bodies[0][0] != next[33]
    ensures Intact(Run(rx, Wire(bodies[0])), rx.slot, bodies[0])
    ensures !Intact(Run(rx, Line(bodies) + Wire(next)), rx.slot, bodies[0])
  {
    hide Wire, Step;
    var r := AllReceived(rx, bodies);
    FullFrames(rx, bodies);
    StreamReceived(rx, bodies);
    RunConcat(rx, Line(bodies), Wire(next));
    FrameReceived(r, next);
    FrameReceived(rx, bodies[0]);
    KeptFirst(rx, bodies[0]);
    KeptThrough(Received(rx, bodies[0]), rx.slot, bodies[0], 1, bodies[1..]);
    var last := Received(r, next);
    AtIndex(last.buf, 1764, next, 33);
    SlotStays(Received(rx, bodies[0]), rx.slot, bodies[0], 1, bodies[1..]);
    assert last.slots[rx.slot] == Slot(1797, 126);
    assert last.buf[1797] == next[33];
    if At(last.buf, 1797, bodies[0]) {
      AtIndex(last.buf, 1797, bodies[0], 0);
    }
  }

  lemma {:induction false} SlotStays(rx: Rx, i: nat, body: seq<byte>, j: nat, later: seq<seq<byte>>)
    requires Kept(rx, i, body, j) && j + |later| <= 15 && AllSendable(later)
    ensures AllReceived(rx, later).slots[i] == rx.slots[i]
    decreases |later|
  {
    if later != [] {
      KeptOn(rx, i, body, j, later[0]);
      SlotStays(Received(rx, later[0]), i, body, j + 1, later[1..]);
    }
  }
}

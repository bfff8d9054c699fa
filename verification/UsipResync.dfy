/** What the byte handler does with bytes that make no frame, and why it finds the next frame after them. */
module UsipResync {
  import opened Bytes
  import opened UsipFrame
  import opened UsipReceiver
  import opened UsipFraming

  /** No frame mark stands inside a stuffed frame: the marks on the line are its two ends. */
  lemma {:induction false} MarkOnlyAtEnds(s: seq<byte>)
    ensures 0xC0 !in StuffAll(s)
    decreases |s|
  {
    if s != [] {
      MarkOnlyAtEnds(s[1..]);
    }
  }

  /** Bytes between frames change nothing. */
  lemma {:induction false} BetweenFramesIgnored(rx: Rx, noise: seq<byte>)
    requires Idle(rx) && 0xC0 !in noise
    ensures Run(rx, noise) == rx
    decreases |noise|
  {
    if noise != [] {
      BetweenFramesIgnored(rx, noise[1..]);
    }
  }

  /** What is kept of a frame that came to nothing: no slot is used, nobody is woken, and no other slot changes. */
  predicate CameToNothing(rx: Rx, r: Rx) {
    && Idle(rx) && Idle(r) && r.slot == rx.slot && r.signal == rx.signal
    && forall s :: 0 <= s < SKB_NUM && s != rx.slot ==> r.slots[s] == rx.slots[s]
  }

  /** Two marks in a row open a frame and forget it. */
  lemma EmptyFrameForgotten(rx: Rx)
    requires Idle(rx)
    ensures CameToNothing(rx, Run(rx, [0xC0, 0xC0]))
    ensures Run(rx, [0xC0, 0xC0]).buf == rx.buf && Run(rx, [0xC0, 0xC0]).writeIndex == Start(rx.writeIndex)
  {
    var open := Step(rx, END);
    assert [END, END] == [END] + [END];
    RunConcat(rx, [END], [END]);
    RunOne(rx, END);
    RunOne(open, END);
  }

  /** The receiver inside a frame, an escape just taken. */
  lemma EscapeTaken(rx: Rx, body: seq<byte>, k: nat)
    requires Idle(rx) && Sendable(body) && k <= |body|
    ensures Step(Taken(rx, body, k), ESC) == Taken(rx, body, k).(isEsc := true)
  {
    hide Put, Start;
  }

  lemma DropsAfterEscape(rx: Rx, body: seq<byte>, k: nat, b: byte)
    requires Idle(rx) && Sendable(body) && k <= |body| && b != 0xDC && b != 0xDD
    ensures
      var r := Step(Taken(rx, body, k).(isEsc := true), b);
      var dropped := DropBadEscape(Taken(rx, body, k).(isEsc := true), b);
      && CameToNothing(rx, dropped) && dropped.slots[rx.slot].len == 0
      && r == if b == 0xC0 then OpenFrame(dropped) else dropped
  {
    hide Put, Start;
  }

  /** An escape followed by neither of its two codes drops the frame, wherever in the frame it comes: no slot is used and
      nobody is woken; a mark in that place already opens the next frame. */
  lemma BadEscapeDrops(rx: Rx, body: seq<byte>, k: nat, b: byte) returns (dropped: Rx)
    requires Idle(rx) && Sendable(body) && k <= |body| && b != 0xDC && b != 0xDD
    ensures CameToNothing(rx, dropped) && dropped.slots[rx.slot].len == 0
    ensures Run(rx, [0xC0] + StuffAll(body[..k]) + [0xDB, b]) == if b == 0xC0 then Step(dropped, 0xC0) else dropped
  {
    hide Step, Taken, StuffAll, OpenFrame, DropBadEscape;
    var part := [END] + StuffAll(body[..k]);
    TakesUpTo(rx, body, k);
    RunConcat(rx, part, [ESC, b]);
    assert [ESC, b] == [ESC] + [b];
    RunConcat(Taken(rx, body, k), [ESC], [b]);
    RunOne(Taken(rx, body, k), ESC);
    EscapeTaken(rx, body, k);
    var inEscape := Taken(rx, body, k).(isEsc := true);
    RunOne(inEscape, b);
    DropsAfterEscape(rx, body, k, b);
    dropped := DropBadEscape(inEscape, b);
    assert b == 0xC0 ==> Step(dropped, 0xC0) == OpenFrame(dropped) by { OpensIdle(dropped); }
  }

  lemma OpensIdle(rx: Rx)
    requires Idle(rx)
    ensures Step(rx, 0xC0) == OpenFrame(rx)
  {
  }

  /** After a frame that was dropped for its escape and any bytes that are not marks, the next frame is received whole. */
  lemma NextFrameFound(rx: Rx, body: seq<byte>, k: nat, b: byte, noise: seq<byte>, next: seq<byte>)
    returns (dropped: Rx)
    requires Idle(rx) && Sendable(body) && k <= |body| && b != 0xDC && b != 0xDD && b != 0xC0
    requires 0xC0 !in noise && Sendable(next)
    ensures CameToNothing(rx, dropped)
    ensures Run(rx, [0xC0] + StuffAll(body[..k]) + [0xDB, b] + noise + Wire(next)) == Received(dropped, next)
  {
    hide Run, StuffAll, Wire, Received;
    dropped := BadEscapeDrops(rx, body, k, b);
    var bad := [0xC0] + StuffAll(body[..k]) + [0xDB, b];
    RunConcat(rx, bad + noise, Wire(next));
    RunConcat(rx, bad, noise);
    BetweenFramesIgnored(dropped, noise);
    FrameReceived(dropped, next);
  }
}

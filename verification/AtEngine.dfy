/** The command engine of at.c: the command block, and any number of callers beside the receiver task. */
module AtEngine {
  import opened Bytes

  const RECVMAXLEN: nat := 2048

  // ---- matching a frame ----

  /** strstr finds the index in the text. */
  ghost predicate Occurs(text: seq<byte>, index: seq<byte>) {
    exists k: nat :: At(text, k, index)
  }

  /** A frame that is the response to a command with the index. */
  ghost predicate Answers(frame: seq<byte>, index: seq<byte>) {
    Occurs(CStr(frame), CStr(index))
  }

  function CopyLen(len: nat, room: nat): (n: nat)
    ensures n <= len && n <= room && (n == len || n == room)
  {
    if len > room then room else len
  }

  /** The response buffer after the frame was copied over its beginning. */
  function Filled(buf: seq<byte>, frame: seq<byte>): (r: seq<byte>)
    ensures |r| == |buf|
    ensures r[..CopyLen(|frame|, |buf|)] == frame[..CopyLen(|frame|, |buf|)]
    ensures forall k :: CopyLen(|frame|, |buf|) <= k < |buf| ==> r[k] == buf[k]
  {
    var n := CopyLen(|frame|, |buf|);
    frame[..n] + buf[n..]
  }

  /** The response buffer a caller may give, and what the engine reports for a frame. */
  datatype Buffer = NoBuffer | Buffer(bytes: seq<byte>)

  function Reported(buf: Buffer, frame: seq<byte>): (n: nat) {
    match buf
    case NoBuffer => |frame|
    case Buffer(bytes) => CopyLen(|frame|, |bytes|)
  }

  function Stored(buf: Buffer, frame: seq<byte>): (r: Buffer)
    ensures r.Buffer? == buf.Buffer? && (r.Buffer? ==> |r.bytes| == |buf.bytes|)
  {
    match buf
    case NoBuffer => NoBuffer
    case Buffer(bytes) => Buffer(Filled(bytes, frame))
  }

  /** The buffer begins with what was reported of the frame. */
  predicate Shows(buf: Buffer, frame: seq<byte>) {
    buf.Buffer? ==>
      CopyLen(|frame|, |buf.bytes|) <= |buf.bytes| && buf.bytes[..CopyLen(|frame|, |buf.bytes|)] == frame[..CopyLen(|frame|, |buf.bytes|)]
  }

  // ---- callers and the receiver task ----

  /** Where a call of at_command stands: before it has `cmdsync`; with it; installed in the block; its command sent;
      past its pend on `respsync`; its result decided; cleared from the block; returned. */
  datatype Phase =
    | Entering
    | Pended
    | Installed
    | Waiting
    | Answered
    | Clearing(ret: int)
    | Posting(ret: int)
    | Returned(ret: int)

  /** A call; `since`, `read` and `until` are how many frames had been matched when it was installed, when it read the
      length, and when it was cleared. */
  datatype Call = Call(index: seq<byte>, buf: Buffer, since: nat, read: nat, until: nat, phase: Phase)

  datatype Match = Match(call: nat, frame: seq<byte>)

  datatype Option<T> = None | Some(value: T)

  /** The control block: the installed call, the length it holds, the two binary semaphores; the frame the receiver
      task has read; every call so far; and the history of matches. */
  datatype State = State(
    installed: Option<nat>, respDataLen: nat, cmdSync: bool, respSync: bool,
    frame: Option<seq<byte>>, calls: seq<Call>, log: seq<Match>)

  datatype Move =
    | Enter(index: seq<byte>, buf: Buffer)
    | TakeCmdSync(k: nat)
    | GiveUp(k: nat)
    | Install(k: nat)
    | Send(k: nat, ok: bool)
    | TakeRespSync(k: nat)
    | TimeOut(k: nat)
    | ReadLen(k: nat)
    | Clear(k: nat)
    | PostCmdSync(k: nat)
    | Receive(data: seq<byte>)
    | TakenOutOfBand
    | MatchFrame

  predicate In(s: State, k: nat, phase: Phase) {
    k < |s.calls| && s.calls[k].phase == phase
  }

  predicate Enabled(s: State, m: Move) {
    match m
    case Enter(_, _) => true
    case TakeCmdSync(k) => In(s, k, Entering) && s.cmdSync
    case GiveUp(k) => In(s, k, Entering)
    case Install(k) => In(s, k, Pended)
    case Send(k, _) => In(s, k, Installed)
    case TakeRespSync(k) => In(s, k, Waiting) && s.respSync
    case TimeOut(k) => In(s, k, Waiting)
    case ReadLen(k) => In(s, k, Answered)
    case Clear(k) => k < |s.calls| && s.calls[k].phase.Clearing?
    case PostCmdSync(k) => k < |s.calls| && s.calls[k].phase.Posting?
    case Receive(data) => s.frame.None? && 0 < |data| < RECVMAXLEN
    case TakenOutOfBand => s.frame.Some?
    case MatchFrame => s.frame.Some? && (s.installed.Some? ==> s.installed.value < |s.calls|)
  }

  function To(s: State, k: nat, phase: Phase): State
    requires k < |s.calls|
  {
    s.(calls := s.calls[k := s.calls[k].(phase := phase)])
  }

  /** __cmd_match. */
  ghost function Matched(s: State): State
    requires Enabled(s, MatchFrame)
  {
    var t := s.(frame := None);
    if s.installed.None? || !Answers(s.frame.value, s.calls[s.installed.value].index) then t
    else
      var k, frame := s.installed.value, s.frame.value;
      var c := s.calls[k];
      t.(calls := s.calls[k := c.(buf := Stored(c.buf, frame))], respDataLen := Reported(c.buf, frame),
         respSync := true, log := s.log + [Match(k, frame)])
  }

  ghost function Apply(s: State, m: Move): State
    requires Enabled(s, m)
  {
    match m
    case Enter(index, buf) => s.(calls := s.calls + [Call(index, buf, 0, 0, 0, Entering)])
    case TakeCmdSync(k) => To(s, k, Pended).(cmdSync := false)
    case GiveUp(k) => To(s, k, Returned(-1))
    case Install(k) =>
      s.(calls := s.calls[k := s.calls[k].(phase := Installed, since := |s.log|)], installed := Some(k), respSync := false)
    case Send(k, ok) => To(s, k, if ok then Waiting else Clearing(-1))
    case TakeRespSync(k) => To(s, k, Answered).(respSync := false)
    case TimeOut(k) => To(s, k, Clearing(-1))
    case ReadLen(k) =>
      s.(calls := s.calls[k := s.calls[k].(phase := Clearing(s.respDataLen), read := |s.log|)])
    case Clear(k) =>
      s.(calls := s.calls[k := s.calls[k].(phase := Posting(s.calls[k].phase.ret), until := |s.log|)],
         installed := None, respDataLen := 0)
    case PostCmdSync(k) => To(s, k, Returned(s.calls[k].phase.ret)).(cmdSync := true)
    case Receive(data) => s.(frame := Some(data))
    case TakenOutOfBand => s.(frame := None)
    case MatchFrame => Matched(s)
  }

  predicate Initial(s: State) {
    s.installed.None? && s.respDataLen == 0 && s.cmdSync && !s.respSync && s.frame.None? && s.calls == [] && s.log == []
  }

  // ---- what every interleaving keeps ----

  predicate InBlock(c: Call) {
    c.phase.Installed? || c.phase.Waiting? || c.phase.Answered? || c.phase.Clearing?
  }

  predicate Holding(c: Call) {
    InBlock(c) || c.phase.Pended? || c.phase.Posting?
  }

  /** The matches of a call, so far or in all. */
  function End(s: State, k: nat): nat
    requires k < |s.calls|
  {
    if InBlock(s.calls[k]) then |s.log| else s.calls[k].until
  }

  /** The matches between two counts are the call's own, and its buffer shows the last of them. */
  ghost predicate Owns(s: State, k: nat, end: nat)
    requires k < |s.calls|
  {
    var c := s.calls[k];
    && c.since <= end <= |s.log|
    && (forall j :: c.since <= j < end ==> s.log[j].call == k && Answers(s.log[j].frame, c.index))
    && (c.since < end ==> Shows(c.buf, s.log[end - 1].frame))
  }

  /** The last of the frames from `lo` on that was long enough to be copied over position `p`, else the one at `lo`. */
  function LastReach(log: seq<Match>, room: nat, lo: nat, hi: nat, p: nat): (r: nat)
    requires lo < hi <= |log|
    ensures lo <= r < hi
    decreases hi
  {
    if hi == lo + 1 || p < CopyLen(|log[hi - 1].frame|, room) then hi - 1 else LastReach(log, room, lo, hi - 1, p)
  }

  /** Where the frame at `lo` was copied, the buffer holds each byte of the last frame that reached it. */
  predicate Layered(buf: Buffer, log: seq<Match>, lo: nat, hi: nat)
    requires lo < hi <= |log|
  {
    buf.Buffer? ==>
      forall p :: 0 <= p < CopyLen(|log[lo].frame|, |buf.bytes|) ==>
        var r := LastReach(log, |buf.bytes|, lo, hi, p);
        p < |log[r].frame| && buf.bytes[p] == log[r].frame[p]
  }

  /** The result is what the engine reported of the frame matched last when the length was read, and the buffer is that
      frame under the ones matched since. */
  predicate Earned(s: State, k: nat, end: nat, ret: int)
    requires k < |s.calls| && end <= |s.log|
  {
    var c := s.calls[k];
    c.since < c.read <= end && ret == Reported(c.buf, s.log[c.read - 1].frame) && Layered(c.buf, s.log, c.read - 1, end)
  }

  ghost predicate GoodCall(s: State, k: nat)
    requires k < |s.calls|
  {
    var c := s.calls[k];
    && (if c.phase.Entering? || c.phase.Pended? then c.since == c.until == 0 else Owns(s, k, End(s, k)))
    && (InBlock(c) ==> s.installed == Some(k))
    && (InBlock(c) && c.since < |s.log| ==> s.respDataLen == Reported(c.buf, s.log[|s.log| - 1].frame))
    && ((c.phase.Installed? || c.phase.Waiting?) && s.respSync ==> c.since < |s.log|)
    && (c.phase.Answered? ==> c.since < |s.log|)
    && ((c.phase.Clearing? || c.phase.Posting? || c.phase.Returned?) && c.phase.ret >= 0 ==>
          Earned(s, k, End(s, k), c.phase.ret))
  }

  ghost predicate Inv(s: State) {
    && (s.installed.Some? ==> s.installed.value < |s.calls| && InBlock(s.calls[s.installed.value]))
    && (forall k :: 0 <= k < |s.calls| ==> GoodCall(s, k))
    && (forall k :: 0 <= k < |s.calls| && Holding(s.calls[k]) ==> !s.cmdSync)
    && (forall k, l :: 0 <= k < l < |s.calls| ==> !(Holding(s.calls[k]) && Holding(s.calls[l])))
  }

  lemma {:induction false} LastReachPrefix(log: seq<Match>, more: seq<Match>, room: nat, lo: nat, hi: nat, p: nat)
    requires log <= more && lo < hi <= |log|
    ensures LastReach(more, room, lo, hi, p) == LastReach(log, room, lo, hi, p)
    decreases hi
  {
    if hi != lo + 1 && p >= CopyLen(|log[hi - 1].frame|, room) {
      LastReachPrefix(log, more, room, lo, hi - 1, p);
    }
  }

  lemma LayeredPrefix(buf: Buffer, log: seq<Match>, more: seq<Match>, lo: nat, hi: nat)
    requires log <= more && lo < hi <= |log| && Layered(buf, log, lo, hi)
    ensures Layered(buf, more, lo, hi)
  {
    hide LastReach, CopyLen;
    if buf.Buffer? {
      forall p | 0 <= p < CopyLen(|more[lo].frame|, |buf.bytes|)
        ensures var r := LastReach(more, |buf.bytes|, lo, hi, p); p < |more[r].frame| && buf.bytes[p] == more[r].frame[p]
      {
        LastReachPrefix(log, more, |buf.bytes|, lo, hi, p);
      }
    }
  }

  lemma LayeredFirst(buf: Buffer, log: seq<Match>, lo: nat)
    requires lo < |log| && Shows(buf, log[lo].frame)
    ensures Layered(buf, log, lo, lo + 1)
  {
    if buf.Buffer? {
      var n := CopyLen(|log[lo].frame|, |buf.bytes|);
      forall p | 0 <= p < n
        ensures buf.bytes[p] == log[lo].frame[p]
      {
        assert buf.bytes[..n][p] == log[lo].frame[..n][p];
      }
    }
  }

  lemma LayeredMore(buf: Buffer, log: seq<Match>, lo: nat, m: Match)
    requires lo < |log| && Layered(buf, log, lo, |log|)
    ensures Layered(Stored(buf, m.frame), log + [m], lo, |log| + 1)
  {
    if buf.Buffer? {
      var more := log + [m];
      var room := |buf.bytes|;
      forall p | 0 <= p < CopyLen(|log[lo].frame|, room)
        ensures var r := LastReach(more, room, lo, |more|, p);
          p < |more[r].frame| && Filled(buf.bytes, m.frame)[p] == more[r].frame[p]
      {
        if p >= CopyLen(|m.frame|, room) {
          LastReachPrefix(log, more, room, lo, |log|, p);
        }
      }
    }
  }

  /** A call that is not in the block keeps what is known of it while others move. */
  lemma OtherCallKept(s: State, t: State, k: nat)
    requires k < |s.calls| && GoodCall(s, k) && !InBlock(s.calls[k])
    requires k < |t.calls| && t.calls[k] == s.calls[k] && s.log <= t.log
    ensures GoodCall(t, k)
  {
    hide Answers, Reported, Shows, Layered;
    var c := s.calls[k];
    if (c.phase.Posting? || c.phase.Returned?) && c.phase.ret >= 0 {
      LayeredPrefix(c.buf, s.log, t.log, c.read - 1, c.until);
    }
  }

  /** A move of one call: the others are as before. */
  lemma OneCallMoves(s: State, t: State, k: nat)
    requires Inv(s) && k < |s.calls| && |t.calls| == |s.calls|
    requires forall l :: 0 <= l < |s.calls| && l != k ==> t.calls[l] == s.calls[l]
    requires s.log <= t.log
    requires forall l :: 0 <= l < |s.calls| && l != k ==> !InBlock(s.calls[l])
    requires GoodCall(t, k)
    requires Holding(t.calls[k]) ==> !t.cmdSync && forall l :: 0 <= l < |s.calls| && l != k ==> !Holding(s.calls[l])
    requires t.cmdSync ==> forall l :: 0 <= l < |s.calls| && l != k ==> !Holding(s.calls[l])
    requires t.installed.Some? ==> t.installed.value < |t.calls| && InBlock(t.calls[t.installed.value])
    ensures Inv(t)
  {
    hide GoodCall;
    forall l | 0 <= l < |t.calls|
      ensures GoodCall(t, l)
    {
      if l != k {
        OtherCallKept(s, t, l);
      }
    }
  }

  /** Only the call that holds `cmdSync` can be in the block. */
  lemma OthersOut(s: State, k: nat)
    requires Inv(s) && k < |s.calls| && (Holding(s.calls[k]) || s.cmdSync)
    ensures forall l :: 0 <= l < |s.calls| && l != k ==> !Holding(s.calls[l]) && !InBlock(s.calls[l])
    ensures s.installed.Some? && Holding(s.calls[k]) ==> s.installed.value == k
    ensures s.installed.Some? ==> !s.cmdSync
  {
    hide GoodCall;
  }

  lemma CallStepKeepsInv(s: State, m: Move)
    requires Inv(s) && Enabled(s, m)
    requires m.TakeCmdSync? || m.Install? || m.Send? || m.TakeRespSync? || m.TimeOut? || m.ReadLen? || m.Clear? || m.PostCmdSync?
    ensures Inv(Apply(s, m))
  {
    hide Answers, Reported, Shows, Layered;
    var k := m.k;
    var t := Apply(s, m);
    OthersOut(s, k);
    assert GoodCall(s, k);
    if m.ReadLen? {
      LayeredFirst(s.calls[k].buf, s.log, |s.log| - 1);
    }
    assert GoodCall(t, k);
    OneCallMoves(s, t, k);
  }

  lemma StoredShows(buf: Buffer, frame: seq<byte>)
    ensures Shows(Stored(buf, frame), frame)
    ensures forall f :: Reported(Stored(buf, frame), f) == Reported(buf, f)
  {
  }

  lemma MatchKeepsInv(s: State)
    requires Inv(s) && Enabled(s, MatchFrame)
    ensures Inv(Apply(s, MatchFrame))
  {
    hide Answers, Reported, Shows, Stored, Layered;
    var t := Apply(s, MatchFrame);
    if t.log == s.log {
      SameBlockKeepsInv(s, t);
    } else {
      var k, frame := s.installed.value, s.frame.value;
      var c := s.calls[k];
      OthersOut(s, k);
      assert GoodCall(s, k);
      StoredShows(c.buf, frame);
      if c.phase.Clearing? && c.phase.ret >= 0 {
        LayeredMore(c.buf, s.log, c.read - 1, Match(k, frame));
      }
      assert GoodCall(t, k);
      OneCallMoves(s, t, k);
    }
  }

  /** A step that leaves the block, the calls there were and the history alone. */
  lemma SameBlockKeepsInv(s: State, t: State)
    requires Inv(s) && t.log == s.log && t.installed == s.installed && t.cmdSync == s.cmdSync
    requires t.respDataLen == s.respDataLen && t.respSync == s.respSync
    requires s.calls <= t.calls
    requires forall k :: |s.calls| <= k < |t.calls| ==> t.calls[k].phase.Entering? && t.calls[k].since == t.calls[k].until == 0
    ensures Inv(t)
  {
    hide Answers, Reported, Shows, Layered;
    forall k | 0 <= k < |t.calls|
      ensures GoodCall(t, k)
    {
      if k < |s.calls| {
        assert GoodCall(s, k) && t.calls[k] == s.calls[k];
      }
    }
  }

  lemma GiveUpKeepsInv(s: State, k: nat)
    requires Inv(s) && Enabled(s, GiveUp(k))
    ensures Inv(Apply(s, GiveUp(k)))
  {
    hide Answers, Reported, Shows, Layered;
    var t := Apply(s, GiveUp(k));
    forall l | 0 <= l < |t.calls|
      ensures GoodCall(t, l)
    {
      assert GoodCall(s, l);
      assert l != k ==> t.calls[l] == s.calls[l];
    }
  }

  lemma StepKeepsInv(s: State, m: Move)
    requires Inv(s) && Enabled(s, m)
    ensures Inv(Apply(s, m))
  {
    hide Inv;
    match m
    case Enter(_, _) => SameBlockKeepsInv(s, Apply(s, m));
    case Receive(_) => SameBlockKeepsInv(s, Apply(s, m));
    case TakenOutOfBand => SameBlockKeepsInv(s, Apply(s, m));
    case GiveUp(k) => GiveUpKeepsInv(s, k);
    case MatchFrame => MatchKeepsInv(s);
    case _ => CallStepKeepsInv(s, m);
  }

  // ---- whole runs ----

  ghost predicate Reaches(s: State, moves: seq<Move>, t: State)
    decreases |moves|
  {
    if moves == [] then s == t
    else Enabled(s, moves[0]) && Reaches(Apply(s, moves[0]), moves[1..], t)
  }

  lemma {:induction false} RunKeepsInv(s: State, moves: seq<Move>, t: State)
    requires Inv(s) && Reaches(s, moves, t)
    ensures Inv(t)
    decreases |moves|
  {
    hide Inv, Enabled, Apply;
    if moves != [] {
      StepKeepsInv(s, moves[0]);
      RunKeepsInv(Apply(s, moves[0]), moves[1..], t);
    }
  }

  /** In every run of any number of callers beside the receiver task: at most one call is in the block, and while one
      is, no other has `cmdsync`. */
  lemma OneCommandInstalled(s: State, moves: seq<Move>, t: State, k: nat, l: nat)
    requires Initial(s) && Reaches(s, moves, t)
    requires k < |t.calls| && l < |t.calls| && InBlock(t.calls[k]) && k != l
    ensures t.installed == Some(k) && !t.cmdSync && !Holding(t.calls[l])
  {
    hide Reaches;
    assert Inv(s);
    RunKeepsInv(s, moves, t);
    assert GoodCall(t, k) && GoodCall(t, l);
  }

  /** Every non-negative result is the length the engine reported of a frame that contained this call's index and was
      matched between its installation and its removal from the block, whatever was matched for earlier calls: of the
      frame matched last when the length was read. The frames matched in between were all this call's, and its buffer
      begins with the last of them. So the lengths of result and buffer agree exactly when those of the two frames do. */
  lemma ResultsAreOwn(s: State, moves: seq<Move>, t: State, k: nat)
    requires Initial(s) && Reaches(s, moves, t) && k < |t.calls|
    requires t.calls[k].phase.Returned? && t.calls[k].phase.ret >= 0
    ensures var c := t.calls[k];
      && c.since < c.read <= c.until <= |t.log|
      && c.phase.ret == Reported(c.buf, t.log[c.read - 1].frame)
      && (forall j :: c.since <= j < c.until ==> t.log[j].call == k && Answers(t.log[j].frame, c.index))
      && Shows(c.buf, t.log[c.until - 1].frame)
      && (c.phase.ret == Reported(c.buf, t.log[c.until - 1].frame) <==>
            Reported(c.buf, t.log[c.read - 1].frame) == Reported(c.buf, t.log[c.until - 1].frame))
  {
    hide Reaches, Answers, Reported, Shows, Layered;
    assert Inv(s);
    RunKeepsInv(s, moves, t);
    assert GoodCall(t, k);
  }

  /** The buffer tells of the frame that the result reports exactly when every byte reported is repeated by the last
      answer that came after the length was read and was long enough to reach it. */
  lemma ResultAgreesIff(s: State, moves: seq<Move>, t: State, k: nat)
    requires Initial(s) && Reaches(s, moves, t) && k < |t.calls|
    requires t.calls[k].phase.Returned? && t.calls[k].phase.ret >= 0 && t.calls[k].buf.Buffer?
    ensures var c := t.calls[k];
      && c.since < c.read <= c.until <= |t.log|
      && c.phase.ret <= |c.buf.bytes| && c.phase.ret <= |t.log[c.read - 1].frame|
      && var frame := t.log[c.read - 1].frame;
         (c.buf.bytes[..c.phase.ret] == frame[..c.phase.ret] <==>
            forall p :: 0 <= p < c.phase.ret ==>
              var late := t.log[LastReach(t.log, |c.buf.bytes|, c.read - 1, c.until, p)].frame;
              p < |late| && late[p] == frame[p])
  {
    hide Reaches, Answers, Shows, LastReach;
    assert Inv(s);
    RunKeepsInv(s, moves, t);
    assert GoodCall(t, k);
    var c := t.calls[k];
    SamePrefix(c.buf.bytes, t.log[c.read - 1].frame, c.phase.ret);
  }

  lemma SamePrefix(a: seq<byte>, b: seq<byte>, n: nat)
    requires n <= |a| && n <= |b|
    ensures a[..n] == b[..n] <==> forall p :: 0 <= p < n ==> a[p] == b[p]
  {
    if a[..n] == b[..n] {
      forall p | 0 <= p < n
        ensures a[p] == b[p]
      {
        assert a[..n][p] == b[..n][p];
      }
    }
  }

  /** When no frame is matched between the read and the clear, however many before, the buffer begins with the frame
      that the result reports. */
  lemma NoLateAnswerAgrees(s: State, moves: seq<Move>, t: State, k: nat)
    requires Initial(s) && Reaches(s, moves, t) && k < |t.calls|
    requires t.calls[k].phase.Returned? && t.calls[k].phase.ret >= 0 && t.calls[k].until == t.calls[k].read
    ensures t.calls[k].since < t.calls[k].read <= |t.log|
    ensures var c := t.calls[k];
      var frame := t.log[c.read - 1].frame;
      && c.phase.ret == Reported(c.buf, frame)
      && (c.buf.Buffer? ==> c.phase.ret <= |c.buf.bytes| && c.phase.ret <= |frame|
                            && c.buf.bytes[..c.phase.ret] == frame[..c.phase.ret])
  {
    hide Reaches, Answers;
    ResultsAreOwn(s, moves, t, k);
  }

  /** A call that is not in the block any more, or not yet, is left alone by every other thread. */
  lemma OthersLeaveAlone(s: State, m: Move, k: nat)
    requires Inv(s) && Enabled(s, m) && k < |s.calls| && s.calls[k].phase.Returned?
    ensures k < |Apply(s, m).calls| && Apply(s, m).calls[k] == s.calls[k]
  {
    hide GoodCall;
  }

  /** A finished call is never touched again: its response buffer keeps what it had when the call returned. */
  lemma {:induction false} FinishedStays(s: State, moves: seq<Move>, t: State, k: nat)
    requires Inv(s) && Reaches(s, moves, t) && k < |s.calls| && s.calls[k].phase.Returned?
    ensures k < |t.calls| && t.calls[k] == s.calls[k]
    decreases |moves|
  {
    hide Inv, Enabled, Apply;
    if moves != [] {
      OthersLeaveAlone(s, moves[0], k);
      StepKeepsInv(s, moves[0]);
      FinishedStays(Apply(s, moves[0]), moves[1..], t, k);
    }
  }

  lemma FinishedBufferKept(first: State, before: seq<Move>, s: State, after: seq<Move>, t: State, k: nat)
    requires Initial(first) && Reaches(first, before, s) && Reaches(s, after, t)
    requires k < |s.calls| && s.calls[k].phase.Returned?
    ensures k < |t.calls| && t.calls[k] == s.calls[k]
  {
    hide Reaches;
    assert Inv(first);
    RunKeepsInv(first, before, s);
    FinishedStays(s, after, t, k);
  }

  /** The command semaphore is with a call or free. */
  ghost predicate Kept(s: State) {
    s.cmdSync || exists k :: 0 <= k < |s.calls| && Holding(s.calls[k])
  }

  lemma StepKeepsSemaphore(s: State, m: Move)
    requires Inv(s) && Kept(s) && Enabled(s, m)
    ensures Kept(Apply(s, m))
  {
    hide GoodCall, Answers, Reported, Stored;
    var t := Apply(s, m);
    if !t.cmdSync {
      if m.TakeCmdSync? {
        assert Holding(t.calls[m.k]);
      } else {
        var k :| 0 <= k < |s.calls| && Holding(s.calls[k]);
        assert k < |t.calls| && Holding(t.calls[k]);
      }
    }
  }

  lemma {:induction false} RunKeepsSemaphore(s: State, moves: seq<Move>, t: State)
    requires Inv(s) && Kept(s) && Reaches(s, moves, t)
    ensures Kept(t)
    decreases |moves|
  {
    hide Inv, Kept, Enabled, Apply;
    if moves != [] {
      StepKeepsInv(s, moves[0]);
      StepKeepsSemaphore(s, moves[0]);
      RunKeepsSemaphore(Apply(s, moves[0]), moves[1..], t);
    }
  }

  /** In every run the command semaphore is free exactly when no call holds it: it is never lost, whatever calls fail,
      time out or give up, and never posted twice. */
  lemma SemaphoreNeverLost(s: State, moves: seq<Move>, t: State)
    requires Initial(s) && Reaches(s, moves, t)
    ensures t.cmdSync <==> forall k :: 0 <= k < |t.calls| ==> !Holding(t.calls[k])
  {
    hide Reaches, GoodCall;
    RunKeepsInv(s, moves, t);
    RunKeepsSemaphore(s, moves, t);
  }

  // ---- a second answer before the call is cleared ----

  lemma {:induction false} ReachesMore(s: State, moves: seq<Move>, t: State, m: Move)
    requires Reaches(s, moves, t) && Enabled(t, m)
    ensures Reaches(s, moves + [m], Apply(t, m))
    decreases |moves|
  {
    hide Enabled, Apply;
    if moves == [] {
      assert [m][1..] == [];
      assert Reaches(Apply(t, m), [], Apply(t, m));
    } else {
      ReachesMore(Apply(s, moves[0]), moves[1..], t, m);
      assert (moves + [m])[1..] == moves[1..] + [m];
    }
  }

  function Fresh(): State {
    State(None, 0, true, false, None, [], [])
  }

  /** The state of the one call between two frames. */
  function Alone(c: Call, len: nat, respSync: bool, log: seq<Match>): State {
    State(Some(0), len, false, respSync, None, [c], log)
  }

  lemma FirstCallWaits(index: seq<byte>, buf: Buffer) returns (moves: seq<Move>)
    ensures Reaches(Fresh(), moves, Alone(Call(index, buf, 0, 0, 0, Waiting), 0, false, []))
  {
    var s := Fresh();
    var a := Apply(s, Enter(index, buf));
    ReachesMore(s, [], s, Enter(index, buf));
    var b := Apply(a, TakeCmdSync(0));
    ReachesMore(s, [Enter(index, buf)], a, TakeCmdSync(0));
    var c := Apply(b, Install(0));
    ReachesMore(s, [Enter(index, buf)] + [TakeCmdSync(0)], b, Install(0));
    var d := Apply(c, Send(0, true));
    moves := [Enter(index, buf)] + [TakeCmdSync(0)] + [Install(0)] + [Send(0, true)];
    ReachesMore(s, [Enter(index, buf)] + [TakeCmdSync(0)] + [Install(0)], c, Send(0, true));
    assert [] + [Enter(index, buf)] == [Enter(index, buf)];
    assert d.calls == [Call(index, buf, 0, 0, 0, Waiting)];
  }

  lemma FrameComes(s: State, moves: seq<Move>, c: Call, len: nat, respSync: bool, log: seq<Match>, frame: seq<byte>)
    returns (more: seq<Move>)
    requires Reaches(s, moves, Alone(c, len, respSync, log))
    requires 0 < |frame| < RECVMAXLEN && Answers(frame, c.index)
    ensures Reaches(s, more, Alone(c.(buf := Stored(c.buf, frame)), Reported(c.buf, frame), true, log + [Match(0, frame)]))
  {
    hide Reaches, Answers, Stored, Reported;
    var a := Alone(c, len, respSync, log);
    ReachesMore(s, moves, a, Receive(frame));
    var b := Apply(a, Receive(frame));
    ReachesMore(s, moves + [Receive(frame)], b, MatchFrame);
    more := moves + [Receive(frame)] + [MatchFrame];
    assert Apply(b, MatchFrame).calls == [c.(buf := Stored(c.buf, frame))];
  }

  /** A second answer that comes after the length was read and before the call is cleared changes the buffer under
      the result: there is a run in which the call returns the length of the first and finds the second copied over it. */
  lemma SecondAnswerOverwrites(index: seq<byte>, buf: Buffer, first: seq<byte>, second: seq<byte>)
    returns (moves: seq<Move>, t: State)
    requires 0 < |first| < RECVMAXLEN && Answers(first, index) && 0 < |second| < RECVMAXLEN && Answers(second, index)
    ensures Initial(Fresh()) && Reaches(Fresh(), moves, t) && |t.calls| == 1
    ensures t.calls[0].phase == Returned(Reported(buf, first))
    ensures t.calls[0].buf == Stored(Stored(buf, first), second)
  {
    hide Reaches, Answers, Stored, Reported;
    moves := FirstCallWaits(index, buf);
    var c := Call(index, buf, 0, 0, 0, Waiting);
    moves := FrameComes(Fresh(), moves, c, 0, false, [], first);
    c := c.(buf := Stored(buf, first));
    var n := Reported(buf, first);
    var log := [] + [Match(0, first)];
    t := Alone(c, n, true, log);
    ReachesMore(Fresh(), moves, t, TakeRespSync(0));
    moves, t := moves + [TakeRespSync(0)], Apply(t, TakeRespSync(0));
    ReachesMore(Fresh(), moves, t, ReadLen(0));
    moves, t := moves + [ReadLen(0)], Apply(t, ReadLen(0));
    c := c.(phase := Clearing(n), read := 1);
    assert t.calls == [c];
    moves := FrameComes(Fresh(), moves, c, n, false, log, second);
    c := c.(buf := Stored(c.buf, second));
    t := Alone(c, Reported(Stored(buf, first), second), true, log + [Match(0, second)]);
    ReachesMore(Fresh(), moves, t, Clear(0));
    moves, t := moves + [Clear(0)], Apply(t, Clear(0));
    ReachesMore(Fresh(), moves, t, PostCmdSync(0));
    moves, t := moves + [PostCmdSync(0)], Apply(t, PostCmdSync(0));
  }

  // ---- the block in memory ----

  method StrStr(text: seq<byte>, index: seq<byte>) returns (found: bool)
    ensures found <==> Occurs(text, index)
  {
    var k := 0;
    while k + |index| <= |text|
      invariant k <= |text| + 1
      invariant forall j: nat :: j < k ==> !At(text, j, index)
    {
      if text[k..k + |index|] == index {
        assert At(text, k, index);
        return true;
      }
      k := k + 1;
    }
    return false;
  }

  /** at_cmd_item; a null index is `None`. */
  class CommandBlock {
    var index: Option<seq<byte>>
    var respBuf: array?<byte>
    var respDataLen: nat
    var respSync: bool
    var cmdSync: bool

    ghost function Given(): Buffer
      reads this, respBuf
    {
      if respBuf == null then NoBuffer else Buffer(respBuf[..])
    }

    constructor ()
      ensures index.None? && respBuf == null && respDataLen == 0 && !respSync && cmdSync
    {
      index, respBuf, respDataLen, respSync, cmdSync := None, null, 0, false, true;
    }

    /** The critical section of __cmd_create, `cmdsync` taken. */
    method Create(index: seq<byte>, respBuf: array?<byte>)
      modifies this`index, this`respBuf, this`respSync
      ensures this.index == Some(index) && this.respBuf == respBuf && !respSync
    {
      this.index := Some(index);
      this.respBuf := respBuf;
      respSync := false;
    }

    /** __cmd_clear; it posts `cmdsync` last. */
    method Clear()
      modifies this`index, this`respBuf, this`respDataLen, this`cmdSync
      ensures index.None? && respBuf == null && respDataLen == 0 && cmdSync
    {
      index := None;
      respBuf := null;
      respDataLen := 0;
      cmdSync := true;
    }

    /** __cmd_match. */
    method MatchData(data: seq<byte>) returns (ok: bool)
      modifies this`respDataLen, this`respSync, respBuf
      ensures ok <==> index.Some? && Answers(data, index.value)
      ensures ok ==> respSync && Given() == Stored(old(Given()), data) && respDataLen == Reported(old(Given()), data)
      ensures !ok ==> respSync == old(respSync) && Given() == old(Given()) && respDataLen == old(respDataLen)
    {
      hide Answers;
      if index.None? {
        return false;
      }
      ok := StrStr(CStr(data), CStr(index.value));
      assert ok <==> Answers(data, index.value) by { AnswersMeans(data, index.value); }
      if !ok {
        return;
      }
      if respBuf != null {
        var n := if |data| > respBuf.Length then respBuf.Length else |data|;
        CopyIn(respBuf, data, n);
        respDataLen := n;
      } else {
        respDataLen := |data|;
      }
      respSync := true;
    }
  }

  lemma AnswersMeans(frame: seq<byte>, index: seq<byte>)
    ensures Answers(frame, index) <==> Occurs(CStr(frame), CStr(index))
  {
  }

  method CopyIn(buf: array<byte>, data: seq<byte>, n: nat)
    requires n == CopyLen(|data|, buf.Length)
    modifies buf
    ensures buf[..] == Filled(old(buf[..]), data)
  {
    var i := 0;
    while i < n
      invariant 0 <= i <= n
      invariant forall k :: 0 <= k < i ==> buf[k] == data[k]
      invariant forall k :: i <= k < buf.Length ==> buf[k] == old(buf[k])
    {
      buf[i] := data[i];
      i := i + 1;
    }
    assert buf[..n] == data[..n] && buf[n..] == old(buf[n..]);
    assert buf[..] == buf[..n] + buf[n..];
  }
}

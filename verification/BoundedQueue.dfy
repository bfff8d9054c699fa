/** queue.c: the circular buffer, and any number of producers and consumers around it. */
module BoundedQueue {

  /** The fields of queue_t the raw operations work on; messages are non-null pointers, shown as numbers. */
  datatype Raw = Raw(buf: seq<int>, curRead: nat, curWrite: nat, num: nat)

  predicate Valid(q: Raw) {
    && q.num <= |q.buf|
    && (|q.buf| > 0 ==> q.curRead < |q.buf| && q.curWrite == Place(q.curRead + q.num, |q.buf|))
  }

  /** The place of an index that has run past the end at most once. */
  function Place(i: nat, len: nat): (r: nat)
    ensures i < 2 * len ==> r < len
  {
    if i < len then i else i - len
  }

  /** The index arithmetic of the source. */
  lemma ModIsPlace(i: nat, len: nat)
    requires i < 2 * len
    ensures i % len == Place(i, len)
  {
    var q := i / len;
    assert i == q * len + i % len;
    assert q >= 2 ==> q * len >= 2 * len by { Multiples(q, 2, len); }
    assert 0 >= q + 1 ==> 0 * len >= (q + 1) * len by { Multiples(0, q + 1, len); }
  }

  lemma Multiples(a: int, b: int, len: nat)
    ensures a >= b ==> a * len >= b * len
  {
    assert (a - b) * len == a * len - b * len;
  }

  /** The messages, oldest first. */
  function Contents(q: Raw): (s: seq<int>)
    requires Valid(q)
    ensures |s| == q.num
  {
    seq(q.num, i requires 0 <= i < q.num => q.buf[Place(q.curRead + i, |q.buf|)])
  }

  /** raw_queue_pushdata. */
  function RawPush(q: Raw, data: int): (r: (Raw, bool))
    requires Valid(q)
  {
    if q.num < |q.buf|
    then (q.(buf := q.buf[q.curWrite := data], curWrite := (q.curWrite + 1) % |q.buf|, num := q.num + 1), true)
    else (q, false)
  }

  /** raw_queue_pop. */
  function RawPop(q: Raw): (r: (Raw, bool, int))
    requires Valid(q)
  {
    if q.num > 0
    then (q.(curRead := (q.curRead + 1) % |q.buf|, num := q.num - 1), true, q.buf[q.curRead])
    else (q, false, 0)
  }

  /** A push appends when there is room and does nothing when there is not. */
  lemma PushAppends(q: Raw, data: int)
    requires Valid(q)
    ensures var (r, ok) := RawPush(q, data);
      && Valid(r) && |r.buf| == |q.buf| && (ok <==> |Contents(q)| < |q.buf|)
      && Contents(r) == if ok then Contents(q) + [data] else Contents(q)
  {
    if q.num < |q.buf| {
      ModIsPlace(q.curWrite + 1, |q.buf|);
      var r := RawPush(q, data).0;
      assert Valid(r);
      assert Contents(r)[q.num] == data;
      forall i | 0 <= i < q.num
        ensures Contents(r)[i] == Contents(q)[i]
      {
        assert Place(q.curRead + i, |q.buf|) != q.curWrite;
      }
      assert Contents(r)[..q.num] == Contents(q);
      assert Contents(r) == Contents(r)[..q.num] + [Contents(r)[q.num]];
    }
  }

  /** A pop takes the oldest message when there is one. */
  lemma PopTakes(q: Raw)
    requires Valid(q)
    ensures var (r, ok, data) := RawPop(q);
      && Valid(r) && |r.buf| == |q.buf| && (ok <==> Contents(q) != [])
      && Contents(q) == if ok then [data] + Contents(r) else Contents(r)
  {
    if q.num > 0 {
      ModIsPlace(q.curRead + 1, |q.buf|);
      var r := RawPop(q).0;
      assert Valid(r);
      forall i | 0 <= i < r.num
        ensures Contents(r)[i] == Contents(q)[i + 1]
      {
        assert Place(r.curRead + i, |q.buf|) == Place(q.curRead + (i + 1), |q.buf|);
      }
      assert Contents(r) == Contents(q)[1..];
      assert Contents(q)[0] == q.buf[Place(q.curRead + 0, |q.buf|)];
    }
  }

  /** The routines on the buffer in memory. */
  class Queue {
    const msgBuf: array<int>
    var curRead: nat
    var curWrite: nat
    var msgNum: nat

    ghost function State(): Raw
      reads this, msgBuf
    {
      Raw(msgBuf[..], curRead, curWrite, msgNum)
    }

    constructor (len: nat)
      ensures Valid(State()) && Contents(State()) == [] && msgBuf.Length == len && fresh(msgBuf)
    {
      msgBuf := new int[len](_ => 0);
      curRead, curWrite, msgNum := 0, 0, 0;
    }

    /** raw_queue_pushdata. */
    method PushData(data: int) returns (ok: bool)
      requires Valid(State())
      modifies this, msgBuf
      ensures (State(), ok) == RawPush(old(State()), data)
    {
      if msgNum < msgBuf.Length {
        msgBuf[curWrite] := data;
        curWrite := (curWrite + 1) % msgBuf.Length;
        msgNum := msgNum + 1;
        return true;
      }
      return false;
    }

    /** raw_queue_pop. */
    method Pop() returns (ok: bool, data: int)
      requires Valid(State())
      modifies this
      ensures (State(), ok, data) == RawPop(old(State()))
    {
      if msgNum > 0 {
        data := msgBuf[curRead];
        curRead := (curRead + 1) % msgBuf.Length;
        msgNum := msgNum - 1;
        return true, data;
      }
      return false, 0;
    }
  }

  // ---- producers and consumers ----

  /** Where a thread stands in queue_push or queue_pop: past its pend, holding the lock before and after the raw
      operation, and past the unlock with the post still to come. */
  datatype Thread =
    | Idle
    | PushPended(data: int)
    | PushLocked(data: int)
    | PushDone(data: int, ok: bool)
    | PushUnlocked(data: int, ok: bool)
    | PopPended
    | PopLocked
    | PopDone(data: int, ok: bool)
    | PopUnlocked(data: int, ok: bool)

  /** `pushed` and `popped` are the messages that went in and came out, in order. */
  datatype State = State(
    queue: Raw, syncRead: nat, syncWrite: nat, locked: bool, threads: seq<Thread>,
    pushed: seq<int>, popped: seq<int>)

  datatype Move =
    | PendWrite(i: nat, data: int)
    | PendRead(i: nat)
    | Lock(i: nat)
    | Work(i: nat)
    | Unlock(i: nat)
    | Finish(i: nat)

  predicate Enabled(s: State, m: Move) {
    && m.i < |s.threads|
    && var t := s.threads[m.i];
    match m
    case PendWrite(_, data) => t.Idle? && data != 0 && s.syncWrite > 0
    case PendRead(_) => t.Idle? && s.syncRead > 0
    case Lock(_) => (t.PushPended? || t.PopPended?) && !s.locked
    case Work(_) => (t.PushLocked? || t.PopLocked?) && Valid(s.queue)
    case Unlock(_) => t.PushDone? || t.PopDone?
    case Finish(_) => t.PushUnlocked? || t.PopUnlocked?
  }

  function Become(s: State, i: nat, t: Thread): State
    requires i < |s.threads|
  {
    s.(threads := s.threads[i := t])
  }

  function Apply(s: State, m: Move): State
    requires Enabled(s, m)
  {
    var t := s.threads[m.i];
    match m
    case PendWrite(i, data) => Become(s, i, PushPended(data)).(syncWrite := s.syncWrite - 1)
    case PendRead(i) => Become(s, i, PopPended).(syncRead := s.syncRead - 1)
    case Lock(i) => Become(s, i, if t.PushPended? then PushLocked(t.data) else PopLocked).(locked := true)
    case Work(i) =>
      if t.PushLocked? then
        var (queue, ok) := RawPush(s.queue, t.data);
        Become(s, i, PushDone(t.data, ok)).(queue := queue, pushed := if ok then s.pushed + [t.data] else s.pushed)
      else
        var (queue, ok, data) := RawPop(s.queue);
        Become(s, i, PopDone(data, ok)).(queue := queue, popped := if ok then s.popped + [data] else s.popped)
    case Unlock(i) =>
      Become(s, i, if t.PushDone? then PushUnlocked(t.data, t.ok) else PopUnlocked(t.data, t.ok)).(locked := false)
    case Finish(i) =>
      if !t.ok then Become(s, i, Idle)
      else if t.PushUnlocked? then Become(s, i, Idle).(syncRead := s.syncRead + 1)
      else Become(s, i, Idle).(syncWrite := s.syncWrite + 1)
  }

  predicate Initial(s: State) {
    && Valid(s.queue) && s.queue.num == 0 && s.syncRead == 0 && s.syncWrite == |s.queue.buf| && !s.locked
    && s.pushed == [] && s.popped == []
    && forall i :: 0 <= i < |s.threads| ==> s.threads[i].Idle?
  }

  // ---- counting threads ----

  /** A producer past its pend that has not pushed yet. */
  function PushInFlight(t: Thread): nat { if t.PushPended? || t.PushLocked? then 1 else 0 }

  /** A producer that has pushed and not posted yet. */
  function PushUnposted(t: Thread): nat { if (t.PushDone? || t.PushUnlocked?) && t.ok then 1 else 0 }

  function PopInFlight(t: Thread): nat { if t.PopPended? || t.PopLocked? then 1 else 0 }

  function PopUnposted(t: Thread): nat { if (t.PopDone? || t.PopUnlocked?) && t.ok then 1 else 0 }

  function Holding(t: Thread): nat { if t.PushLocked? || t.PopLocked? || t.PushDone? || t.PopDone? then 1 else 0 }

  /** A thread whose raw operation failed. */
  function Failed(t: Thread): nat {
    if (t.PushDone? || t.PushUnlocked? || t.PopDone? || t.PopUnlocked?) && !t.ok then 1 else 0
  }

  function Count(threads: seq<Thread>, f: Thread -> nat): nat {
    if threads == [] then 0 else f(threads[0]) + Count(threads[1..], f)
  }

  lemma {:induction false} CountUpdate(threads: seq<Thread>, f: Thread -> nat, i: nat, t: Thread)
    requires i < |threads|
    ensures Count(threads[i := t], f) == Count(threads, f) - f(threads[i]) + f(t)
    ensures Count(threads, f) >= f(threads[i])
  {
    if i == 0 {
      assert threads[0 := t][1..] == threads[1..];
    } else {
      CountUpdate(threads[1..], f, i - 1, t);
      assert threads[i := t][1..] == threads[1..][i - 1 := t];
    }
  }

  lemma {:induction false} CountIdle(threads: seq<Thread>, f: Thread -> nat)
    requires f(Idle) == 0 && forall i :: 0 <= i < |threads| ==> threads[i].Idle?
    ensures Count(threads, f) == 0
  {
    if threads != [] {
      CountIdle(threads[1..], f);
    }
  }

  /** The two semaphores account for every message and every free place. */
  predicate Inv(s: State) {
    && Valid(s.queue)
    && s.syncRead + Count(s.threads, PopInFlight) + Count(s.threads, PushUnposted) == s.queue.num
    && s.syncWrite + Count(s.threads, PushInFlight) + Count(s.threads, PopUnposted) == |s.queue.buf| - s.queue.num
    && Count(s.threads, Holding) == (if s.locked then 1 else 0)
    && Count(s.threads, Failed) == 0
    && s.popped + Contents(s.queue) == s.pushed
  }

  lemma InitialInv(s: State)
    requires Initial(s)
    ensures Inv(s)
  {
    CountIdle(s.threads, PopInFlight);
    CountIdle(s.threads, PushUnposted);
    CountIdle(s.threads, PushInFlight);
    CountIdle(s.threads, PopUnposted);
    CountIdle(s.threads, Holding);
    CountIdle(s.threads, Failed);
  }

  lemma BecomeCounts(threads: seq<Thread>, i: nat, t: Thread)
    requires i < |threads|
    ensures var r := threads[i := t];
      && Count(r, PopInFlight) == Count(threads, PopInFlight) - PopInFlight(threads[i]) + PopInFlight(t)
      && Count(r, PushUnposted) == Count(threads, PushUnposted) - PushUnposted(threads[i]) + PushUnposted(t)
      && Count(r, PushInFlight) == Count(threads, PushInFlight) - PushInFlight(threads[i]) + PushInFlight(t)
      && Count(r, PopUnposted) == Count(threads, PopUnposted) - PopUnposted(threads[i]) + PopUnposted(t)
      && Count(r, Holding) == Count(threads, Holding) - Holding(threads[i]) + Holding(t)
      && Count(r, Failed) == Count(threads, Failed) - Failed(threads[i]) + Failed(t)
    ensures Count(threads, PopInFlight) >= PopInFlight(threads[i])
    ensures Count(threads, PushInFlight) >= PushInFlight(threads[i])
    ensures Count(threads, PushUnposted) >= PushUnposted(threads[i])
    ensures Count(threads, PopUnposted) >= PopUnposted(threads[i])
    ensures Count(threads, Holding) >= Holding(threads[i])
    ensures Count(threads, Failed) >= Failed(threads[i])
  {
    CountUpdate(threads, PopInFlight, i, t);
    CountUpdate(threads, PushUnposted, i, t);
    CountUpdate(threads, PushInFlight, i, t);
    CountUpdate(threads, PopUnposted, i, t);
    CountUpdate(threads, Holding, i, t);
    CountUpdate(threads, Failed, i, t);
  }

  lemma StepKeepsInv(s: State, m: Move)
    requires Inv(s) && Enabled(s, m)
    ensures Inv(Apply(s, m))
  {
    hide Count, Valid, Contents, RawPush, RawPop;
    var t := s.threads[m.i];
    var r := Apply(s, m);
    BecomeCounts(s.threads, m.i, r.threads[m.i]);
    assert r.threads == s.threads[m.i := r.threads[m.i]];
    if m.Work? {
      PushAppends(s.queue, if t.PushLocked? then t.data else 0);
      PopTakes(s.queue);
    }
  }

  predicate Reaches(s: State, moves: seq<Move>, t: State)
    decreases |moves|
  {
    if moves == [] then s == t
    else Enabled(s, moves[0]) && Reaches(Apply(s, moves[0]), moves[1..], t)
  }

  lemma {:induction false} RunKeepsInv(s: State, moves: seq<Move>, t: State)
    requires Inv(s) && Reaches(s, moves, t)
    ensures Inv(t)
    decreases |moves|
  {
    hide Inv, Enabled, Apply;
    if moves != [] {
      StepKeepsInv(s, moves[0]);
      RunKeepsInv(Apply(s, moves[0]), moves[1..], t);
    }
  }

  /** In every run of any number of producers and consumers: the semaphores account for every message and every free
      place and stay within the capacity, at most one thread holds the lock, no raw operation fails after its pend
      succeeded, and what was popped is what was pushed first, the rest standing in the queue. */
  lemma QueueRuns(s: State, moves: seq<Move>, t: State)
    requires Initial(s) && Reaches(s, moves, t)
    ensures Valid(t.queue)
    ensures t.syncRead + Count(t.threads, PopInFlight) + Count(t.threads, PushUnposted) == t.queue.num
    ensures t.syncWrite + Count(t.threads, PushInFlight) + Count(t.threads, PopUnposted) == |t.queue.buf| - t.queue.num
    ensures Count(t.threads, Holding) <= 1 && Count(t.threads, Failed) == 0
    ensures t.popped <= t.pushed && t.pushed == t.popped + Contents(t.queue)
  {
    hide Reaches, Count, Contents;
    InitialInv(s);
    RunKeepsInv(s, moves, t);
  }

  /** The thread that is about to work finds room, or a message. */
  lemma WorkSucceeds(s: State, moves: seq<Move>, t: State, i: nat)
    requires Initial(s) && Reaches(s, moves, t) && i < |t.threads|
    ensures Valid(t.queue)
    ensures t.threads[i].PushLocked? ==> RawPush(t.queue, t.threads[i].data).1
    ensures t.threads[i].PopLocked? ==> RawPop(t.queue).1
    ensures t.threads[i].PushUnlocked? ==> t.syncRead < |t.queue.buf|
    ensures t.threads[i].PopUnlocked? ==> t.syncWrite < |t.queue.buf|
  {
    hide Reaches, Count, Contents;
    QueueRuns(s, moves, t);
    BecomeCounts(t.threads, i, Idle);
  }
}

/** The daemon of stimer.c and its clients as interleaved steps: no change of the list is slept through. */
module SoftTimerWakeup {
  import opened SoftTimer

  /** Where __timer_entry stands. `sampled` is the time it read before it computed `wait`; `since` is when it began
      to pend. */
  datatype Daemon =
    | Asleep(sampled: int, since: int, wait: nat)
    | Woken
    | Scanned
    | Timed(cur: int)
    | Computed(sampled: int, wait: nat)

  /** Where a client stands: before its call, with the time read for a new timer, or between its edit of the list
      and its post. */
  datatype Client =
    | Idle
    | Creating(cycle: nat, once: bool, start: bool, due: int)
    | Edited

  datatype State = State(lst: seq<Item>, sem: bool, now: int, daemon: Daemon, clients: seq<Client>)

  datatype Move =
    | Tick(time: int)
    | ReadClock(i: nat, cycle: nat, once: bool, start: bool)
    | AddNew(i: nat, id: nat)
    | DeleteOne(i: nat, id: nat)
    | StopOne(i: nat, id: nat)
    | StartOne(i: nat, id: nat)
    | RecycleOne(i: nat, id: nat, cycle: nat)
    | Post(i: nat)
    | TakeSemaphore
    | TimeOut
    | ScanAll
    | Sample
    | ComputeWait
    | Pend

  /** The last time the model's clock can show: deadlines stay below the largest one. */
  const CLOCK_END: int := DEAD_MAX - 2 * WAIT_MAX

  predicate IdleClient(s: State, i: nat) {
    i < |s.clients| && s.clients[i].Idle?
  }

  predicate GoodCycle(cycle: nat, once: bool) {
    cycle <= WAIT_MAX && (!once ==> cycle >= 1)
  }

  /** The wait is computed soon enough: every cycle plus the daemon's delay is below the largest wait. */
  predicate Prompt(s: State, cur: int) {
    forall x :: x in s.lst ==> x.cycle + (s.now - cur) < WAIT_MAX
  }

  predicate Enabled(s: State, m: Move) {
    match m
    case Tick(time) => s.now <= time < CLOCK_END
    case ReadClock(i, cycle, once, _) => IdleClient(s, i) && GoodCycle(cycle, once)
    case AddNew(i, id) => i < |s.clients| && s.clients[i].Creating? && !InList(s.lst, id)
    case DeleteOne(i, id) => IdleClient(s, i) && InList(s.lst, id)
    case StopOne(i, id) => IdleClient(s, i) && InList(s.lst, id)
    case StartOne(i, id) => IdleClient(s, i) && InList(s.lst, id)
    case RecycleOne(i, id, cycle) => IdleClient(s, i) && InList(s.lst, id) && GoodCycle(cycle, Find(s.lst, id).once)
    case Post(i) => i < |s.clients| && s.clients[i].Edited?
    case TakeSemaphore => s.daemon.Asleep? && s.sem
    case TimeOut => s.daemon.Asleep? && s.daemon.wait != WAIT_MAX && s.daemon.since + s.daemon.wait <= s.now
    case ScanAll => s.daemon.Woken? && Scannable(s.lst, s.now)
    case Sample => s.daemon.Scanned?
    case ComputeWait => s.daemon.Timed? && Prompt(s, s.daemon.cur)
    case Pend => s.daemon.Computed?
  }

  /** The list has a new value; the client has yet to post. */
  function Edit(s: State, i: nat, lst: seq<Item>): State
    requires i < |s.clients|
  {
    s.(lst := lst, clients := s.clients[i := Edited])
  }

  function Apply(s: State, m: Move): State
    requires Enabled(s, m)
  {
    match m
    case Tick(time) => s.(now := time)
    case ReadClock(i, cycle, once, start) =>
      s.(clients := s.clients[i := Creating(cycle, once, start, s.now + cycle)])
    case AddNew(i, id) =>
      var c := s.clients[i];
      Edit(s, i, Create(s.lst, id, c.cycle, c.once, c.start, c.due))
    case DeleteOne(i, id) => Edit(s, i, Remove(s.lst, id))
    case StopOne(i, id) => Edit(s, i, Stop(s.lst, id))
    case StartOne(i, id) => Edit(s, i, Start(s.lst, id, s.now))
    case RecycleOne(i, id, cycle) => Edit(s, i, Recycle(s.lst, id, cycle, s.now))
    case Post(i) => s.(sem := true, clients := s.clients[i := Idle])
    case TakeSemaphore => s.(sem := false, daemon := Woken)
    case TimeOut => s.(daemon := Woken)
    case ScanAll => s.(lst := Scan(s.lst, s.now).0, daemon := Scanned)
    case Sample => s.(daemon := Timed(s.now))
    case ComputeWait => s.(daemon := Computed(s.daemon.cur, NextWait(s.lst, s.daemon.cur)))
    case Pend => s.(daemon := Asleep(s.daemon.sampled, s.now, s.daemon.wait))
  }

  predicate Initial(s: State) {
    && s.lst == [] && !s.sem && 0 <= s.now < CLOCK_END && s.daemon == Asleep(s.now, s.now, WAIT_MAX)
    && forall i :: 0 <= i < |s.clients| ==> s.clients[i].Idle?
  }

  // ---- what a sleep covers ----

  /** The sleep ends by itself no later than the first deadline, or at once if that had passed. */
  predicate Covered(lst: seq<Item>, sampled: int, wait: nat) {
    || lst == []
    || lst[0].dead == DEAD_MAX
    || (wait != WAIT_MAX && sampled + wait <= if lst[0].dead > sampled then lst[0].dead else sampled)
  }

  /** The computed wait covers the list unless the time left is 2^32 - 1 modulo 2^32, which reads as for ever. It ends
      no earlier than needed: at the first deadline when that is less than 2^32 - 1 ahead, and never when no timer is
      armed. */
  lemma WaitCovers(lst: seq<Item>, cur: int)
    ensures Covered(lst, cur, NextWait(lst, cur)) <==>
            lst == [] || lst[0].dead == DEAD_MAX || lst[0].dead <= cur
            || (lst[0].dead - cur) % 0x1_0000_0000 != WAIT_MAX
    ensures lst == [] || lst[0].dead == DEAD_MAX ==> NextWait(lst, cur) == 0xFFFF_FFFF
    ensures lst != [] && cur < lst[0].dead < cur + 0xFFFF_FFFF && lst[0].dead != DEAD_MAX ==>
              cur + NextWait(lst, cur) == lst[0].dead
    ensures lst != [] && lst[0].dead <= cur && lst[0].dead != DEAD_MAX ==> NextWait(lst, cur) == 0
  {
  }

  predicate SomeEdited(s: State) {
    exists i :: 0 <= i < |s.clients| && s.clients[i].Edited?
  }

  /** A wake-up is on its way, or none is needed. */
  predicate NotLost(s: State, sampled: int, wait: nat) {
    s.sem || SomeEdited(s) || Covered(s.lst, sampled, wait)
  }

  predicate GoodItem(x: Item, now: int) {
    GoodCycle(x.cycle, x.once) && (x.start ==> x.dead <= now + x.cycle)
  }

  predicate GoodClient(c: Client, now: int) {
    c.Creating? ==> GoodCycle(c.cycle, c.once) && c.due <= now + c.cycle
  }

  predicate GoodDaemon(s: State) {
    match s.daemon
    case Asleep(sampled, since, wait) => sampled <= since <= s.now && NotLost(s, sampled, wait)
    case Computed(sampled, wait) => sampled <= s.now && NotLost(s, sampled, wait)
    case Timed(cur) => cur <= s.now
    case _ => true
  }

  predicate Inv(s: State) {
    && WellKept(s.lst) && s.now < CLOCK_END
    && (forall x :: x in s.lst ==> GoodItem(x, s.now))
    && (forall i :: 0 <= i < |s.clients| ==> GoodClient(s.clients[i], s.now))
    && GoodDaemon(s)
  }

  lemma EditKeepsInv(s: State, i: nat, lst: seq<Item>)
    requires Inv(s) && i < |s.clients| && WellKept(lst) && forall x :: x in lst ==> GoodItem(x, s.now)
    ensures Inv(Edit(s, i, lst))
  {
    hide WellKept;
    assert Edit(s, i, lst).clients[i].Edited?;
  }

  lemma ScanKeepsInv(s: State)
    requires Inv(s) && Enabled(s, ScanAll)
    ensures Inv(Apply(s, ScanAll))
  {
    hide WellKept, Scannable, Scan;
    ScanFires(s.lst, s.now);
    var r := Scan(s.lst, s.now).0;
    forall y | y in r
      ensures GoodItem(y, s.now)
    {
      ScanOrigin(s.lst, s.now, y);
    }
  }

  lemma ComputeKeepsInv(s: State)
    requires Inv(s) && Enabled(s, ComputeWait)
    ensures Inv(Apply(s, ComputeWait))
  {
    WaitCovers(s.lst, s.daemon.cur);
    if s.lst != [] && s.lst[0].dead != DEAD_MAX {
      assert s.lst[0] in s.lst;
      assert Marked(s.lst[0]);
      assert s.lst[0].dead - s.daemon.cur < WAIT_MAX;
    }
  }

  lemma ClientEditKeepsInv(s: State, m: Move)
    requires Inv(s) && Enabled(s, m)
    requires m.AddNew? || m.DeleteOne? || m.StopOne? || m.StartOne? || m.RecycleOne?
    ensures Inv(Apply(s, m))
  {
    hide WellKept, Insert, Remove, Find, GoodDaemon;
    match m
    case AddNew(i, id) =>
      var c := s.clients[i];
      assert GoodClient(c, s.now);
      CreateKeeps(s.lst, id, c.cycle, c.once, c.start, c.due);
      EditKeepsInv(s, i, Create(s.lst, id, c.cycle, c.once, c.start, c.due));
    case DeleteOne(i, id) =>
      RemoveKeeps(s.lst, id);
      EditKeepsInv(s, i, Remove(s.lst, id));
    case StopOne(i, id) =>
      StopKeeps(s.lst, id);
      EditKeepsInv(s, i, Stop(s.lst, id));
    case StartOne(i, id) =>
      assert GoodItem(Find(s.lst, id), s.now);
      StartKeeps(s.lst, id, s.now);
      EditKeepsInv(s, i, Start(s.lst, id, s.now));
    case RecycleOne(i, id, cycle) =>
      assert GoodItem(Find(s.lst, id), s.now);
      RecycleKeeps(s.lst, id, cycle, s.now);
      EditKeepsInv(s, i, Recycle(s.lst, id, cycle, s.now));
  }

  lemma OtherKeepsInv(s: State, m: Move)
    requires Inv(s) && Enabled(s, m)
    requires m.Tick? || m.ReadClock? || m.Post? || m.TakeSemaphore? || m.TimeOut? || m.Sample? || m.Pend?
    ensures Inv(Apply(s, m))
  {
    hide WellKept, Covered;
    var t := Apply(s, m);
    if m.ReadClock? && SomeEdited(s) {
      var k :| 0 <= k < |s.clients| && s.clients[k].Edited?;
      assert t.clients[k].Edited?;
    }
    if m.Tick? && SomeEdited(s) {
      var k :| 0 <= k < |s.clients| && s.clients[k].Edited?;
      assert t.clients[k].Edited?;
    }
  }

  lemma StepKeepsInv(s: State, m: Move)
    requires Inv(s) && Enabled(s, m)
    ensures Inv(Apply(s, m))
  {
    hide Inv, Enabled, Apply;
    match m
    case ScanAll => ScanKeepsInv(s);
    case ComputeWait => ComputeKeepsInv(s);
    case AddNew(_, _) => ClientEditKeepsInv(s, m);
    case DeleteOne(_, _) => ClientEditKeepsInv(s, m);
    case StopOne(_, _) => ClientEditKeepsInv(s, m);
    case StartOne(_, _) => ClientEditKeepsInv(s, m);
    case RecycleOne(_, _, _) => ClientEditKeepsInv(s, m);
    case _ => OtherKeepsInv(s, m);
  }

  /** A daemon that has woken can always scan. */
  lemma ScanNeverStuck(s: State)
    requires Inv(s) && s.daemon.Woken?
    ensures Enabled(s, ScanAll)
  {
    forall x | x in s.lst
      ensures x.cycle <= WAIT_MAX && (!x.once ==> x.cycle >= 1)
    {
      assert GoodItem(x, s.now);
    }
  }

  // ---- whole runs ----

  /** A run of any interleaving: each state follows from the one before by an enabled move. */
  predicate Reaches(s: State, moves: seq<Move>, t: State)
    decreases |moves|
  {
    if moves == [] then s == t
    else Enabled(s, moves[0]) && Reaches(Apply(s, moves[0]), moves[1..], t)
  }

  lemma {:induction false} RunKeepsInv(s: State, moves: seq<Move>, t: State)
    requires Inv(s) && Reaches(s, moves, t)
    ensures Inv(t)
    decreases |moves|
  {
    hide Inv, Enabled, Apply;
    if moves != [] {
      StepKeepsInv(s, moves[0]);
      RunKeepsInv(Apply(s, moves[0]), moves[1..], t);
    }
  }

  /** No lost wake-up. In every run, whenever the daemon sleeps: the semaphore is set, or a client is between its
      edit and its post, or the first timer is not armed, or the sleep ends by itself no later than the first
      deadline. Throughout, the list is sorted and a start flag is set exactly when its deadline is a real one. */
  lemma NoLostWakeup(s: State, moves: seq<Move>, t: State)
    requires Initial(s) && Reaches(s, moves, t)
    ensures WellKept(t.lst)
    ensures t.daemon.Asleep? ==>
      || t.sem
      || SomeEdited(t)
      || t.lst == [] || t.lst[0].dead == DEAD_MAX
      || (t.daemon.wait != WAIT_MAX
          && t.daemon.sampled + t.daemon.wait <= if t.lst[0].dead > t.daemon.sampled then t.lst[0].dead else t.daemon.sampled)
  {
    hide WellKept, Enabled, Apply;
    NothingKept();
    assert Inv(s);
    RunKeepsInv(s, moves, t);
  }

  lemma NothingKept()
    ensures WellKept([])
  {
  }

  /** Once the clients have posted, a sleeping daemon can wake as soon as the first deadline has passed by the time
      it took from reading the clock to pending. */
  lemma WakesInTime(s: State, moves: seq<Move>, t: State)
    requires Initial(s) && Reaches(s, moves, t)
    requires t.daemon.Asleep? && !SomeEdited(t) && t.lst != [] && t.lst[0].start
    requires t.now >= t.lst[0].dead + (t.daemon.since - t.daemon.sampled)
    ensures Enabled(t, TakeSemaphore) || Enabled(t, TimeOut)
  {
    hide WellKept, Enabled, Apply, Reaches;
    NothingKept();
    assert Inv(s);
    RunKeepsInv(s, moves, t);
    NoLostWakeup(s, moves, t);
    assert t.lst[0] in t.lst && Marked(t.lst[0]);
    WakesNow(t);
  }

  lemma WakesNow(t: State)
    requires t.daemon.Asleep?
    ensures Enabled(t, TakeSemaphore) <==> t.sem
    ensures Enabled(t, TimeOut) <==> t.daemon.wait != WAIT_MAX && t.daemon.since + t.daemon.wait <= t.now
  {
  }
}

/** The deadline-sorted list of stimer.c: adding, removing, scanning, and the operations of its clients. */
module SoftTimer {
  const DEAD_MAX: int := 0x7fff_ffff_ffff_ffff
  const WAIT_MAX: nat := 0xFFFF_FFFF

  /** What stimer_item_t holds; `id` stands for the handle. */
  datatype Item = Item(id: nat, cycle: nat, once: bool, start: bool, dead: int)

  predicate Sorted(s: seq<Item>) {
    forall i, j :: 0 <= i < j < |s| ==> s[i].dead <= s[j].dead
  }

  predicate Distinct(s: seq<Item>) {
    forall i, j :: 0 <= i < j < |s| ==> s[i].id != s[j].id
  }

  /** The start flag is set exactly when the deadline is a real one. */
  predicate Marked(x: Item) {
    x.dead <= DEAD_MAX && (x.start <==> x.dead != DEAD_MAX)
  }

  predicate WellKept(s: seq<Item>) {
    Sorted(s) && Distinct(s) && forall x :: x in s ==> Marked(x)
  }

  // ---- list operations ----

  /** timer_add: before the first item whose deadline is not earlier. */
  function Insert(s: seq<Item>, x: Item): (r: seq<Item>)
    ensures |r| == |s| + 1
  {
    if s == [] || s[0].dead >= x.dead then [x] + s else [s[0]] + Insert(s[1..], x)
  }

  /** timer_remove. */
  function Remove(s: seq<Item>, id: nat): (r: seq<Item>) {
    if s == [] then [] else if s[0].id == id then s[1..] else [s[0]] + Remove(s[1..], id)
  }

  predicate InList(s: seq<Item>, id: nat) {
    exists x :: x in s && x.id == id
  }

  function Find(s: seq<Item>, id: nat): (x: Item)
    requires InList(s, id)
    ensures x in s && x.id == id
  {
    if s[0].id == id then s[0] else Find(s[1..], id)
  }

  lemma {:induction false} InsertHas(s: seq<Item>, x: Item, y: Item)
    ensures y in Insert(s, x) <==> y in s || y == x
  {
    if s != [] && s[0].dead < x.dead {
      InsertHas(s[1..], x, y);
      assert s == [s[0]] + s[1..];
    }
  }

  lemma {:induction false} InsertSorted(s: seq<Item>, x: Item)
    requires Sorted(s)
    ensures Sorted(Insert(s, x))
  {
    if s != [] && s[0].dead < x.dead {
      var t := Insert(s[1..], x);
      InsertSorted(s[1..], x);
      forall j | 0 <= j < |t|
        ensures s[0].dead <= t[j].dead
      {
        InsertHas(s[1..], x, t[j]);
      }
      ConsSorted(s[0], t);
    }
  }

  lemma ConsSorted(x: Item, t: seq<Item>)
    requires Sorted(t) && forall j :: 0 <= j < |t| ==> x.dead <= t[j].dead
    ensures Sorted([x] + t)
  {
  }

  lemma ConsDistinct(x: Item, t: seq<Item>)
    requires Distinct(t) && forall j :: 0 <= j < |t| ==> x.id != t[j].id
    ensures Distinct([x] + t)
  {
  }

  lemma {:induction false} InsertDistinct(s: seq<Item>, x: Item)
    requires Distinct(s) && forall y :: y in s ==> y.id != x.id
    ensures Distinct(Insert(s, x))
  {
    hide Distinct;
    if s == [] || s[0].dead >= x.dead {
      ConsDistinct(x, s);
    } else {
      var t := Insert(s[1..], x);
      DistinctTail(s);
      InsertDistinct(s[1..], x);
      forall j | 0 <= j < |t|
        ensures s[0].id != t[j].id
      {
        InsertHas(s[1..], x, t[j]);
      }
      ConsDistinct(s[0], t);
    }
  }

  lemma DistinctTail(s: seq<Item>)
    requires Distinct(s) && s != []
    ensures Distinct(s[1..]) && forall y :: y in s[1..] ==> y.id != s[0].id
  {
  }

  lemma {:induction false} RemoveHas(s: seq<Item>, id: nat, y: Item)
    requires Distinct(s)
    ensures y in Remove(s, id) <==> y in s && y.id != id
  {
    hide Distinct;
    if s != [] {
      assert s == [s[0]] + s[1..];
      DistinctTail(s);
      if s[0].id != id {
        RemoveHas(s[1..], id, y);
      }
    }
  }

  lemma {:induction false} RemoveSorted(s: seq<Item>, id: nat)
    requires Sorted(s) && Distinct(s)
    ensures Sorted(Remove(s, id)) && Distinct(Remove(s, id))
  {
    if s != [] && s[0].id != id {
      var t := Remove(s[1..], id);
      RemoveSorted(s[1..], id);
      forall j | 0 <= j < |t|
        ensures s[0].dead <= t[j].dead && s[0].id != t[j].id
      {
        RemoveHas(s[1..], id, t[j]);
      }
      ConsSorted(s[0], t);
      ConsDistinct(s[0], t);
    }
  }

  lemma RemoveKeeps(s: seq<Item>, id: nat)
    requires WellKept(s)
    ensures WellKept(Remove(s, id))
    ensures forall x :: x in Remove(s, id) <==> x in s && x.id != id
  {
    hide Sorted, Distinct;
    RemoveSorted(s, id);
    forall x
      ensures x in Remove(s, id) <==> x in s && x.id != id
    {
      RemoveHas(s, id, x);
    }
  }

  // ---- the operations of the clients ----

  /** stimer_create; `due` is the time it read plus the cycle. */
  function Create(s: seq<Item>, id: nat, cycle: nat, once: bool, start: bool, due: int): (r: seq<Item>) {
    Insert(s, Item(id, cycle, once, start, if start then due else DEAD_MAX))
  }

  function Stop(s: seq<Item>, id: nat): (r: seq<Item>)
    requires InList(s, id)
  {
    Insert(Remove(s, id), Find(s, id).(start := false, dead := DEAD_MAX))
  }

  function Start(s: seq<Item>, id: nat, now: int): (r: seq<Item>)
    requires InList(s, id)
  {
    var x := Find(s, id);
    Insert(Remove(s, id), x.(start := true, dead := x.cycle + now))
  }

  function Recycle(s: seq<Item>, id: nat, cycle: nat, now: int): (r: seq<Item>)
    requires InList(s, id)
  {
    var x := Find(s, id);
    Insert(Remove(s, id), x.(cycle := cycle, dead := if x.start then cycle + now else x.dead))
  }

  lemma InsertKeeps(s: seq<Item>, x: Item)
    requires WellKept(s) && Marked(x) && forall y :: y in s ==> y.id != x.id
    ensures WellKept(Insert(s, x))
    ensures forall y :: y in Insert(s, x) <==> y in s || y == x
  {
    hide Sorted, Distinct;
    InsertSorted(s, x);
    InsertDistinct(s, x);
    forall y
      ensures y in Insert(s, x) <==> y in s || y == x
    {
      InsertHas(s, x, y);
    }
  }

  /** A client's operation keeps the list sorted, the handles distinct and every start flag equivalent to a real
      deadline, and touches no timer but its own. */
  lemma CreateKeeps(s: seq<Item>, id: nat, cycle: nat, once: bool, start: bool, due: int)
    requires WellKept(s) && due < DEAD_MAX && forall y :: y in s ==> y.id != id
    ensures var r := Create(s, id, cycle, once, start, due);
      && WellKept(r)
      && forall y :: y in r <==> y in s || y == Item(id, cycle, once, start, if start then due else DEAD_MAX)
  {
    InsertKeeps(s, Item(id, cycle, once, start, if start then due else DEAD_MAX));
  }

  lemma StopKeeps(s: seq<Item>, id: nat)
    requires WellKept(s) && InList(s, id)
    ensures var r := Stop(s, id);
      && WellKept(r)
      && forall y :: y in r <==> (y in s && y.id != id) || y == Find(s, id).(start := false, dead := DEAD_MAX)
  {
    RemoveKeeps(s, id);
    InsertKeeps(Remove(s, id), Find(s, id).(start := false, dead := DEAD_MAX));
  }

  lemma StartKeeps(s: seq<Item>, id: nat, now: int)
    requires WellKept(s) && InList(s, id)
    requires Find(s, id).cycle + now < DEAD_MAX
    ensures var r := Start(s, id, now);
      && WellKept(r)
      && forall y :: y in r <==> (y in s && y.id != id)
                                 || y == Find(s, id).(start := true, dead := Find(s, id).cycle + now)
  {
    RemoveKeeps(s, id);
    InsertKeeps(Remove(s, id), Find(s, id).(start := true, dead := Find(s, id).cycle + now));
  }

  lemma RecycleKeeps(s: seq<Item>, id: nat, cycle: nat, now: int)
    requires WellKept(s) && InList(s, id) && cycle + now < DEAD_MAX
    ensures var r := Recycle(s, id, cycle, now);
      var x := Find(s, id);
      && WellKept(r)
      && forall y :: y in r <==> (y in s && y.id != id)
                                 || y == x.(cycle := cycle, dead := if x.start then cycle + now else x.dead)
  {
    RemoveKeeps(s, id);
    var x := Find(s, id);
    InsertKeeps(Remove(s, id), x.(cycle := cycle, dead := if x.start then cycle + now else x.dead));
  }

  // ---- the scan ----

  /** A timer that has fired: stopped if it fires once, else due a cycle from now. */
  function Fired(x: Item, now: int): (y: Item)
    ensures y.id == x.id && y.once == x.once && y.cycle == x.cycle
  {
    if x.once then x.(start := false, dead := DEAD_MAX) else x.(dead := now + x.cycle)
  }

  /** The timers due, as the list orders them. */
  function DueIds(s: seq<Item>, now: int): (ids: seq<nat>)
    ensures |ids| <= |s|
  {
    if s == [] || s[0].dead > now then [] else [s[0].id] + DueIds(s[1..], now)
  }

  /** The periodic timers that can fire have a cycle, and the clock is far from its end. */
  predicate Scannable(s: seq<Item>, now: int) {
    && now + WAIT_MAX < DEAD_MAX
    && forall x :: x in s ==> x.cycle <= WAIT_MAX && (!x.once ==> x.cycle >= 1)
  }

  lemma {:induction false} InsertLater(s: seq<Item>, x: Item, now: int)
    requires x.dead > now
    ensures DueIds(Insert(s, x), now) == DueIds(s, now)
  {
    if s != [] && s[0].dead < x.dead {
      InsertLater(s[1..], x, now);
      assert Insert(s, x)[1..] == Insert(s[1..], x);
    }
  }

  lemma FirstFires(s: seq<Item>, now: int)
    requires Scannable(s, now) && s != [] && s[0].dead <= now
    ensures Fired(s[0], now).dead > now
    ensures DueIds(s, now) == [s[0].id] + DueIds(Insert(s[1..], Fired(s[0], now)), now)
    ensures Scannable(Insert(s[1..], Fired(s[0], now)), now)
  {
    hide Insert, DueIds;
    assert s[0] in s;
    var x := Fired(s[0], now);
    InsertLater(s[1..], x, now);
    DueFirst(s, now);
    forall y | y in Insert(s[1..], x)
      ensures y.cycle <= WAIT_MAX && (!y.once ==> y.cycle >= 1)
    {
      InsertHas(s[1..], x, y);
    }
  }

  lemma DueFirst(s: seq<Item>, now: int)
    requires s != [] && s[0].dead <= now
    ensures DueIds(s, now) == [s[0].id] + DueIds(s[1..], now)
  {
  }

  /** timer_scan with the clock at `now`: the list and the timers fired, in order. */
  function Scan(s: seq<Item>, now: int): (r: (seq<Item>, seq<nat>))
    requires Scannable(s, now)
    decreases |DueIds(s, now)|
  {
    if s == [] then ([], [])
    else if s[0].dead <= now then
      FirstFires(s, now);
      var rest := Scan(Insert(s[1..], Fired(s[0], now)), now);
      (rest.0, [s[0].id] + rest.1)
    else (Insert(s[1..], s[0]), [])
  }

  /** What the scan makes of a timer. */
  function Scanned(x: Item, now: int): Item {
    if x.dead <= now then Fired(x, now) else x
  }

  lemma FrontAgain(s: seq<Item>)
    requires Sorted(s) && s != []
    ensures Insert(s[1..], s[0]) == s
  {
  }

  lemma FirstFiresKept(s: seq<Item>, now: int)
    requires WellKept(s) && Scannable(s, now) && s != [] && s[0].dead <= now
    ensures WellKept(Insert(s[1..], Fired(s[0], now)))
    ensures forall y :: y in Insert(s[1..], Fired(s[0], now)) <==> y in s[1..] || y == Fired(s[0], now)
  {
    var x := Fired(s[0], now);
    assert s[0] in s && Marked(s[0]);
    forall y | y in s[1..]
      ensures y in s && y.id != x.id
    {
      var i :| 0 <= i < |s[1..]| && s[1..][i] == y;
      assert s[i + 1] == y;
    }
    InsertKeeps(s[1..], x);
  }

  lemma {:induction false} ScanRounds(s: seq<Item>, now: int)
    requires WellKept(s) && Scannable(s, now)
    ensures var (r, fired) := Scan(s, now);
      && fired == DueIds(s, now)
      && |r| == |s| && WellKept(r) && Scannable(r, now)
      && (forall y :: y in r ==> y.dead > now)
      && (forall x :: x in s ==> Scanned(x, now) in r)
    decreases |DueIds(s, now)|
  {
    if s == [] {
    } else if s[0].dead <= now {
      FirstFires(s, now);
      FirstFiresKept(s, now);
      var t := Insert(s[1..], Fired(s[0], now));
      ScanRounds(t, now);
      forall x | x in s
        ensures Scanned(x, now) in Scan(s, now).0
      {
        if x == s[0] {
          assert Fired(x, now) in t;
        } else {
          var i :| 0 <= i < |s| && s[i] == x;
          assert s[1..][i - 1] == x && x in t;
        }
      }
    } else {
      FrontAgain(s);
    }
  }

  /** Everything in the scanned list is what the scan made of a timer of the list. */
  lemma {:induction false} ScanOrigin(s: seq<Item>, now: int, y: Item)
    requires WellKept(s) && Scannable(s, now) && y in Scan(s, now).0
    ensures exists x :: x in s && y == Scanned(x, now)
    decreases |DueIds(s, now)|
  {
    hide Insert, DueIds, Scannable;
    if s == [] {
    } else if s[0].dead <= now {
      FirstFires(s, now);
      FirstFiresKept(s, now);
      ScanOrigin(Insert(s[1..], Fired(s[0], now)), now, y);
      var x :| x in Insert(s[1..], Fired(s[0], now)) && y == Scanned(x, now);
      if x == Fired(s[0], now) {
        assert y == Scanned(s[0], now);
      } else {
        assert x in s;
      }
    } else {
      FrontAgain(s);
      assert y == Scanned(y, now) by {
        var i :| 0 <= i < |s| && s[i] == y;
        assert s[0].dead <= s[i].dead;
      }
    }
  }

  /** The scan fires each due timer exactly once and no other, in the order of their deadlines. It leaves the same
      timers, sorted, all due after now: one that fires once is stopped and unarmed, a periodic one is started and due
      a cycle from now, and one that was not due is as it was. */
  lemma ScanFires(s: seq<Item>, now: int)
    requires WellKept(s) && Scannable(s, now)
    ensures var (r, fired) := Scan(s, now);
      && fired == DueIds(s, now)
      && |r| == |s| && WellKept(r) && Scannable(r, now)
      && (forall y :: y in r ==> y.dead > now && InList(s, y.id))
      && (forall x :: x in s && x.dead > now ==> x in r)
      && (forall x :: x in s && x.dead <= now && x.once ==> Item(x.id, x.cycle, true, false, DEAD_MAX) in r)
      && (forall x :: x in s && x.dead <= now && !x.once ==> Item(x.id, x.cycle, false, true, now + x.cycle) in r)
  {
    hide Scan, DueIds, Sorted, Distinct;
    ScanRounds(s, now);
    var r := Scan(s, now).0;
    forall y | y in r
      ensures InList(s, y.id)
    {
      ScanOrigin(s, now, y);
    }
    forall x | x in s
      ensures x.dead > now ==> x in r
      ensures x.dead <= now && x.once ==> Item(x.id, x.cycle, true, false, DEAD_MAX) in r
      ensures x.dead <= now && !x.once ==> Item(x.id, x.cycle, false, true, now + x.cycle) in r
    {
      assert Scanned(x, now) in r && Marked(x);
    }
  }

  /** In a sorted list the timers due are exactly those at its front. */
  lemma {:induction false} DueAreFirst(s: seq<Item>, now: int, i: nat)
    requires Sorted(s) && i < |s|
    ensures s[i].dead <= now <==> i < |DueIds(s, now)|
    ensures s[i].dead <= now ==> DueIds(s, now)[i] == s[i].id
  {
    if i > 0 && s[0].dead <= now {
      DueAreFirst(s[1..], now, i - 1);
    }
  }

  // ---- runs of scans and client operations ----

  datatype Act =
    | ScanAt(now: int)
    | DoCreate(id: nat, cycle: nat, once: bool, start: bool, due: int)
    | DoDelete(id: nat)
    | DoStop(id: nat)
    | DoStart(id: nat, now: int)
    | DoRecycle(id: nat, cycle: nat, now: int)

  predicate Allowed(s: seq<Item>, a: Act) {
    match a
    case ScanAt(now) => Scannable(s, now)
    case DoCreate(id, _, _, _, due) => !InList(s, id) && due < DEAD_MAX
    case DoDelete(id) => InList(s, id)
    case DoStop(id) => InList(s, id)
    case DoStart(id, now) => InList(s, id) && Find(s, id).cycle + now < DEAD_MAX
    case DoRecycle(id, cycle, now) => InList(s, id) && cycle + now < DEAD_MAX
  }

  /** The list after it, and the timers fired. */
  function Do(s: seq<Item>, a: Act): (seq<Item>, seq<nat>)
    requires Allowed(s, a)
  {
    match a
    case ScanAt(now) => Scan(s, now)
    case DoCreate(id, cycle, once, start, due) => (Create(s, id, cycle, once, start, due), [])
    case DoDelete(id) => (Remove(s, id), [])
    case DoStop(id) => (Stop(s, id), [])
    case DoStart(id, now) => (Start(s, id, now), [])
    case DoRecycle(id, cycle, now) => (Recycle(s, id, cycle, now), [])
  }

  predicate AllAllowed(s: seq<Item>, acts: seq<Act>)
    decreases |acts|
  {
    acts == [] || (Allowed(s, acts[0]) && AllAllowed(Do(s, acts[0]).0, acts[1..]))
  }

  function AllFired(s: seq<Item>, acts: seq<Act>): seq<nat>
    requires AllAllowed(s, acts)
    decreases |acts|
  {
    if acts == [] then [] else Do(s, acts[0]).1 + AllFired(Do(s, acts[0]).0, acts[1..])
  }

  /** The timer is started by the act. */
  predicate Starts(a: Act, id: nat) {
    (a.DoStart? || a.DoCreate?) && a.id == id
  }

  predicate Armed(s: seq<Item>, id: nat) {
    exists x :: x in s && x.id == id && x.start
  }

  /** Every timer with the handle fires once. */
  predicate OneShot(s: seq<Item>, id: nat) {
    forall x :: x in s && x.id == id ==> x.once
  }

  lemma {:induction false} DueOnce(s: seq<Item>, now: int, id: nat)
    requires WellKept(s)
    ensures multiset(DueIds(s, now))[id] <= 1
    ensures id in DueIds(s, now) <==> exists x :: x in s && x.id == id && x.dead <= now
  {
    hide Distinct, Sorted;
    if s != [] {
      assert s == [s[0]] + s[1..];
      DistinctTail(s);
      assert Sorted(s[1..]) && forall x :: x in s ==> s[0].dead <= x.dead by { SortedTail(s); }
      DueOnce(s[1..], now, id);
      if s[0].dead <= now {
        assert DueIds(s, now) == [s[0].id] + DueIds(s[1..], now);
      }
    }
  }

  lemma SortedTail(s: seq<Item>)
    requires Sorted(s) && s != []
    ensures Sorted(s[1..]) && forall x :: x in s ==> s[0].dead <= x.dead
  {
  }

  lemma ScanOneShot(s: seq<Item>, now: int, id: nat)
    requires WellKept(s) && Scannable(s, now) && OneShot(s, id)
    ensures var (r, fired) := Scan(s, now);
      && OneShot(r, id) && (Armed(r, id) ==> Armed(s, id))
      && multiset(fired)[id] <= 1 && (multiset(fired)[id] == 1 ==> Armed(s, id) && !Armed(r, id))
  {
    hide Scan, DueIds, Sorted, Distinct, Scannable;
    ScanRounds(s, now);
    DueOnce(s, now, id);
    var (r, fired) := Scan(s, now);
    forall y | y in r && y.id == id
      ensures y.once && (y.start ==> Armed(s, id) && id !in fired)
    {
      ScanOrigin(s, now, y);
      var x :| x in s && y == Scanned(x, now);
      assert Marked(x);
      if id in fired {
        var z :| z in s && z.id == id && z.dead <= now;
        SameId(s, x, z);
      }
    }
    if id in fired {
      var x :| x in s && x.id == id && x.dead <= now;
      assert Marked(x);
    }
  }

  lemma SameId(s: seq<Item>, x: Item, y: Item)
    requires Distinct(s) && x in s && y in s && x.id == y.id
    ensures x == y
  {
  }

  lemma DoOneShot(s: seq<Item>, a: Act, id: nat)
    requires WellKept(s) && Allowed(s, a) && OneShot(s, id) && !Starts(a, id)
    ensures var (r, fired) := Do(s, a);
      && WellKept(r) && OneShot(r, id) && (Armed(r, id) ==> Armed(s, id))
      && multiset(fired)[id] <= 1 && (multiset(fired)[id] == 1 ==> Armed(s, id) && !Armed(r, id))
  {
    hide WellKept, Scan, Insert, Remove, Find, Scannable;
    match a
    case ScanAt(now) =>
      ScanRounds(s, now);
      ScanOneShot(s, now, id);
    case DoCreate(other, cycle, once, start, due) => CreateKeeps(s, other, cycle, once, start, due);
    case DoDelete(other) => RemoveKeeps(s, other);
    case DoStop(other) => StopKeeps(s, other);
    case DoStart(other, now) => StartKeeps(s, other, now);
    case DoRecycle(other, cycle, now) => RecycleKeeps(s, other, cycle, now);
  }

  /** Over any run of scans and client operations, a timer that fires once and that nobody starts again fires at most
      once, and not at all if it was not armed. */
  lemma {:induction false} OneShotFiresOnce(s: seq<Item>, acts: seq<Act>, id: nat)
    requires WellKept(s) && AllAllowed(s, acts) && OneShot(s, id)
    requires forall a :: a in acts ==> !Starts(a, id)
    ensures multiset(AllFired(s, acts))[id] <= if Armed(s, id) then 1 else 0
    decreases |acts|
  {
    hide WellKept, Allowed, Do, OneShot, Armed, Starts;
    if acts != [] {
      assert acts[0] in acts;
      DoOneShot(s, acts[0], id);
      OneShotFiresOnce(Do(s, acts[0]).0, acts[1..], id);
    }
  }

  /** The daemon's sleep, a 32-bit number of milliseconds; the largest one means for ever. */
  function NextWait(s: seq<Item>, now: int): (wait: nat)
    ensures wait <= WAIT_MAX
  {
    if s == [] || s[0].dead == DEAD_MAX then WAIT_MAX
    else if s[0].dead > now then (s[0].dead - now) % 0x1_0000_0000
    else 0
  }

  // ---- the list in memory ----

  class Timer {
    const id: nat
    var cycle: nat
    var once: bool
    var start: bool
    var dead: int
    var nxt: Timer?

    constructor (id: nat, cycle: nat, once: bool, start: bool, dead: int)
      ensures AsItem() == Item(id, cycle, once, start, dead) && nxt == null
    {
      this.id, this.cycle, this.once, this.start, this.dead := id, cycle, once, start, dead;
      nxt := null;
    }

    ghost function AsItem(): Item
      reads this
    {
      Item(id, cycle, once, start, dead)
    }

    /** What timer_scan does to a timer whose handler it called. */
    method Rearm(now: int)
      modifies this`start, this`dead
      ensures AsItem() == Fired(old(AsItem()), now)
    {
      if once {
        start := false;
        dead := DEAD_MAX;
      } else {
        dead := now + cycle;
      }
    }
  }

  lemma {:induction false} InsertAt(s: seq<Item>, x: Item, k: nat)
    requires k <= |s| && (forall i :: 0 <= i < k ==> s[i].dead < x.dead)
    requires k < |s| ==> s[k].dead >= x.dead
    ensures Insert(s, x) == s[..k] + [x] + s[k..]
    decreases k
  {
    if k > 0 {
      InsertAt(s[1..], x, k - 1);
      assert s[..k] == [s[0]] + s[1..][..k - 1];
    }
  }

  lemma {:induction false} RemoveAt(s: seq<Item>, k: nat)
    requires k < |s| && Distinct(s)
    ensures Remove(s, s[k].id) == s[..k] + s[k + 1..]
    decreases k
  {
    hide Distinct;
    if k > 0 {
      DistinctTail(s);
      assert s[1..][k - 1] == s[k];
      RemoveAt(s[1..], k - 1);
      assert s[..k] == [s[0]] + s[1..][..k - 1];
      assert s[k + 1..] == s[1..][k..];
    }
  }

  /** The timer at position `i` of a list, null outside it. */
  ghost function Nth(nodes: seq<Timer>, i: int): Timer? {
    if 0 <= i < |nodes| then nodes[i] else null
  }

  ghost predicate Apart(nodes: seq<Timer>) {
    forall i, j :: 0 <= i < j < |nodes| ==> nodes[i] != nodes[j] && nodes[i].id != nodes[j].id
  }

  /** The timers linked from `first` on are `nodes`, in that order. */
  ghost predicate Chain(first: Timer?, nodes: seq<Timer>)
    reads nodes
  {
    && Apart(nodes)
    && first == Nth(nodes, 0)
    && forall i {:trigger nodes[i].nxt} :: 0 <= i < |nodes| ==> nodes[i].nxt == Nth(nodes, i + 1)
  }

  lemma Links(first: Timer?, nodes: seq<Timer>, k: nat)
    requires Chain(first, nodes) && k < |nodes|
    ensures nodes[k].nxt == Nth(nodes, k + 1) && first == Nth(nodes, 0)
  {
  }

  ghost function Items(nodes: seq<Timer>): (s: seq<Item>)
    reads nodes
    ensures |s| == |nodes|
  {
    seq(|nodes|, i requires 0 <= i < |nodes| reads nodes => nodes[i].AsItem())
  }

  /** What the timers hold decides the items, however the timers are linked. */
  lemma SameItems(s: seq<Item>, nodes: seq<Timer>)
    requires |s| == |nodes| && forall i :: 0 <= i < |s| ==> s[i] == nodes[i].AsItem()
    ensures Items(nodes) == s
  {
  }

  lemma ItemAt(nodes: seq<Timer>, i: nat)
    requires i < |nodes|
    ensures Items(nodes)[i] == nodes[i].AsItem()
  {
  }

  lemma FindTimer(first: Timer?, nodes: seq<Timer>, timer: Timer)
    requires Chain(first, nodes) && timer in nodes
    ensures InList(Items(nodes), timer.id) && Find(Items(nodes), timer.id) == timer.AsItem()
  {
    hide Find;
    var i: nat :| i < |nodes| && nodes[i] == timer;
    ItemAt(nodes, i);
    assert Items(nodes)[i] in Items(nodes);
    var x := Find(Items(nodes), timer.id);
    var j: nat :| j < |nodes| && Items(nodes)[j] == x;
    ItemAt(nodes, j);
  }

  lemma ItemsDistinct(nodes: seq<Timer>)
    requires Apart(nodes)
    ensures Distinct(Items(nodes))
  {
  }

  lemma InsertedApart(nodes: seq<Timer>, k: nat, timer: Timer)
    requires Apart(nodes) && k <= |nodes| && timer !in nodes && forall n :: n in nodes ==> n.id != timer.id
    ensures Apart(nodes[..k] + [timer] + nodes[k..])
  {
  }

  lemma RemovedApart(nodes: seq<Timer>, k: nat)
    requires Apart(nodes) && k < |nodes|
    ensures Apart(nodes[..k] + nodes[k + 1..]) && nodes[k] !in nodes[..k] + nodes[k + 1..]
  {
  }

  /** The timer after which one with the deadline is put, none for the front of the list. */
  method FindPlace(lst: Timer?, dead: int, ghost nodes: seq<Timer>) returns (tmp: Timer?, ghost k: nat)
    requires Chain(lst, nodes)
    ensures k <= |nodes| && tmp == Nth(nodes, k - 1)
    ensures forall i {:trigger nodes[i].dead} :: 0 <= i < k ==> nodes[i].dead < dead
    ensures k < |nodes| ==> nodes[k].dead >= dead
  {
    hide Chain;
    assert lst == Nth(nodes, 0) by { First(lst, nodes); }
    tmp, k := lst, 1;
    if tmp == null || tmp.dead >= dead {
      return null, 0;
    }
    Links(lst, nodes, 0);
    while tmp.nxt != null && tmp.nxt.dead < dead
      invariant 1 <= k <= |nodes| && tmp == nodes[k - 1] && tmp.nxt == Nth(nodes, k)
      invariant forall i {:trigger nodes[i].dead} :: 0 <= i < k ==> nodes[i].dead < dead
      decreases |nodes| - k
    {
      Links(lst, nodes, k);
      tmp := tmp.nxt;
      k := k + 1;
    }
  }

  lemma First(first: Timer?, nodes: seq<Timer>)
    requires Chain(first, nodes)
    ensures first == Nth(nodes, 0)
  {
  }

  method LinkAfter(lst: Timer?, tmp: Timer?, timer: Timer, ghost nodes: seq<Timer>, ghost k: nat) returns (lst': Timer?)
    requires Chain(lst, nodes) && timer !in nodes && timer.nxt == null && forall n :: n in nodes ==> n.id != timer.id
    requires k <= |nodes| && tmp == Nth(nodes, k - 1)
    modifies timer`nxt, nodes`nxt
    ensures Chain(lst', nodes[..k] + [timer] + nodes[k..])
  {
    lst' := lst;
    if tmp == null {
      if lst != null {
        timer.nxt := lst;
      }
      lst' := timer;
    } else {
      Links(lst, nodes, k - 1);
      timer.nxt := tmp.nxt;
      tmp.nxt := timer;
    }
    InsertedApart(nodes, k, timer);
  }

  method FindBefore(lst: Timer?, item: Timer, ghost nodes: seq<Timer>, ghost at: nat) returns (tmp: Timer?)
    requires Chain(lst, nodes) && 0 < at < |nodes| && nodes[at] == item
    ensures tmp == nodes[at - 1]
  {
    hide Chain;
    First(lst, nodes);
    OnlyAt(lst, nodes, at);
    tmp := lst;
    ghost var k := 0;
    Links(lst, nodes, 0);
    while tmp.nxt != item
      invariant k < at && tmp == nodes[k] && tmp.nxt == Nth(nodes, k + 1)
      decreases at - k
    {
      Links(lst, nodes, k + 1);
      tmp := tmp.nxt;
      k := k + 1;
    }
  }

  lemma OnlyAt(first: Timer?, nodes: seq<Timer>, at: nat)
    requires Chain(first, nodes) && at < |nodes|
    ensures Apart(nodes) && forall i :: 0 <= i < |nodes| && i != at ==> nodes[i] != nodes[at]
  {
  }

  method UnlinkAt(lst: Timer?, item: Timer, ghost nodes: seq<Timer>, ghost at: nat) returns (lst': Timer?)
    requires Chain(lst, nodes) && at < |nodes| && nodes[at] == item
    modifies nodes`nxt
    ensures Chain(lst', nodes[..at] + nodes[at + 1..]) && item.nxt == null
  {
    RemovedApart(nodes, at);
    Links(lst, nodes, at);
    lst' := lst;
    if item == lst {
      lst' := item.nxt;
    } else {
      var tmp := FindBefore(lst, item, nodes, at);
      tmp.nxt := item.nxt;
    }
    item.nxt := null;
  }

  lemma PlaceInItems(nodes: seq<Timer>, timer: Timer, k: nat)
    requires k <= |nodes| && forall i {:trigger nodes[i].dead} :: 0 <= i < k ==> nodes[i].dead < timer.dead
    requires k < |nodes| ==> nodes[k].dead >= timer.dead
    ensures var s := Items(nodes); Insert(s, timer.AsItem()) == s[..k] + [timer.AsItem()] + s[k..]
  {
    hide Insert;
    InsertAt(Items(nodes), timer.AsItem(), k);
  }

  lemma ItemsInserted(nodes: seq<Timer>, k: nat, timer: Timer)
    requires k <= |nodes|
    ensures var r := nodes[..k] + [timer] + nodes[k..];
      && Items(r) == Items(nodes)[..k] + [timer.AsItem()] + Items(nodes)[k..]
      && forall n :: n in r <==> n in nodes || n == timer
  {
    assert nodes == nodes[..k] + nodes[k..];
  }

  lemma ItemsRemoved(nodes: seq<Timer>, k: nat)
    requires k < |nodes|
    ensures Items(nodes[..k] + nodes[k + 1..]) == Items(nodes)[..k] + Items(nodes)[k + 1..]
  {
  }

  lemma MembersRemoved(nodes: seq<Timer>, k: nat)
    requires k < |nodes| && Apart(nodes)
    ensures var r := nodes[..k] + nodes[k + 1..];
      forall n :: n in r <==> n in nodes && n != nodes[k]
    ensures forall n :: n in nodes && n != nodes[k] ==> n.id != nodes[k].id
  {
    assert nodes == nodes[..k] + [nodes[k]] + nodes[k + 1..];
    RemovedApart(nodes, k);
  }

  method TakeFirst(lst: Timer, ghost nodes: seq<Timer>) returns (item: Timer, lst': Timer?)
    requires Chain(lst, nodes)
    modifies nodes`nxt
    ensures |nodes| > 0 && item == nodes[0] && item.nxt == null && Chain(lst', nodes[1..])
    ensures old(Items(nodes)) == [item.AsItem()] + Items(nodes[1..])
  {
    Links(lst, nodes, 0);
    ItemAt(nodes, 0);
    item := lst;
    lst' := item.nxt;
    item.nxt := null;
  }

  method Splice(lst: Timer?, tmp: Timer?, timer: Timer, ghost nodes: seq<Timer>, ghost k: nat) returns (lst': Timer?)
    requires Chain(lst, nodes) && timer !in nodes && timer.nxt == null && forall n :: n in nodes ==> n.id != timer.id
    requires k <= |nodes| && tmp == Nth(nodes, k - 1)
    modifies timer`nxt, nodes`nxt
    ensures Chain(lst', nodes[..k] + [timer] + nodes[k..])
    ensures Items(nodes[..k] + [timer] + nodes[k..]) == old(Items(nodes)[..k] + [timer.AsItem()] + Items(nodes)[k..])
    ensures forall n :: n in nodes[..k] + [timer] + nodes[k..] <==> n in nodes || n == timer
  {
    hide Chain;
    ghost var s := Items(nodes);
    lst' := LinkAfter(lst, tmp, timer, nodes, k);
    SameItems(s, nodes);
    ItemsInserted(nodes, k, timer);
  }

  /** s_stimer_cb; `semp` is its binary semaphore, `nodes` the timers of the list and `fired` the handlers called. */
  class Scheduler {
    var lst: Timer?
    var semp: bool
    var fired: seq<nat>
    ghost var nodes: seq<Timer>

    ghost predicate Linked()
      reads this, nodes
    {
      Chain(lst, nodes)
    }

    ghost function View(): (s: seq<Item>)
      reads this, nodes
    {
      Items(nodes)
    }

    ghost function Owned(): set<Timer>
      reads this
    {
      set n | n in nodes
    }

    ghost predicate Fresh(timer: Timer)
      reads this, timer
    {
      timer !in nodes && timer.nxt == null && forall n :: n in nodes ==> n.id != timer.id
    }

    constructor ()
      ensures Linked() && View() == [] && fired == [] && !semp
    {
      lst, semp, fired, nodes := null, false, [], [];
    }

    /** timer_add. */
    method Add(timer: Timer)
      requires Linked() && Fresh(timer)
      modifies this`lst, this`nodes, timer`nxt, Owned()`nxt
      ensures Linked() && View() == Insert(old(View()), timer.AsItem())
      ensures Owned() == old(Owned()) + {timer}
    {
      hide Chain, Insert, Items;
      var tmp, k := FindPlace(lst, timer.dead, nodes);
      PlaceInItems(nodes, timer, k);
      lst := Splice(lst, tmp, timer, nodes, k);
      nodes := nodes[..k] + [timer] + nodes[k..];
    }

    /** timer_remove. */
    method Unlink(item: Timer)
      requires Linked() && item in nodes
      modifies this`lst, this`nodes, Owned()`nxt
      ensures Linked() && View() == Remove(old(View()), item.id)
      ensures Fresh(item)
      ensures Owned() == old(Owned()) - {item}
    {
      hide Insert, Remove, Chain, Apart;
      ghost var was, s := nodes, View();
      ghost var at: nat :| at < |nodes| && nodes[at] == item;
      assert Apart(nodes) by { OnlyAt(lst, nodes, at); }
      ItemsDistinct(nodes);
      ItemAt(nodes, at);
      RemoveAt(s, at);
      lst := UnlinkAt(lst, item, nodes, at);
      SameItems(s, was);
      ItemsRemoved(was, at);
      MembersRemoved(was, at);
      nodes := nodes[..at] + nodes[at + 1..];
    }

    /** The first timer, taken off the list. */
    method Pop() returns (item: Timer)
      requires Linked() && lst != null
      modifies this`lst, this`nodes, Owned()`nxt
      ensures Linked() && old(View()) == [item.AsItem()] + View()
      ensures Fresh(item) && item in old(Owned())
      ensures Owned() == old(Owned()) - {item}
    {
      hide Insert, Remove, Chain, Apart, Items;
      First(lst, nodes);
      OnlyAt(lst, nodes, 0);
      MembersRemoved(nodes, 0);
      assert nodes[..0] + nodes[1..] == nodes[1..];
      item, lst := TakeFirst(lst, nodes);
      nodes := nodes[1..];
    }

    /** One round of timer_scan: the first timer fires and goes back into the list, or goes back as it is. */
    method ScanFirst(now: int) returns (more: bool)
      requires Linked() && Scannable(View(), now) && lst != null
      modifies this`lst, this`nodes, this`fired, Owned()
      ensures Linked() && Owned() == old(Owned())
      ensures var s := old(View());
        && s != [] && (more <==> s[0].dead <= now)
        && View() == Insert(s[1..], if more then Fired(s[0], now) else s[0])
        && fired == old(fired) + (if more then [s[0].id] else [])
    {
      hide Chain, Insert, Scannable, Items;
      ghost var s := View();
      var item := Pop();
      assert s[1..] == View() && s[0] == item.AsItem();
      more := item.dead <= now;
      if more {
        fired := fired + [item.id];
        item.Rearm(now);
      }
      Add(item);
    }

    /** timer_scan, the clock at `now` while it runs; a handler call is its entry in `fired`. */
    method ScanList(now: int)
      requires Linked() && Scannable(View(), now)
      modifies this`lst, this`nodes, this`fired, Owned()
      ensures Linked() && Owned() == old(Owned())
      ensures View() == Scan(old(View()), now).0 && fired == old(fired) + Scan(old(View()), now).1
    {
      hide Chain, Insert, DueIds, Scannable, Items;
      ghost var s := View();
      while lst != null
        invariant Linked() && Scannable(View(), now)
        invariant Owned() == old(Owned())
        invariant Scan(View(), now).0 == Scan(s, now).0
        invariant fired + Scan(View(), now).1 == old(fired) + Scan(s, now).1
        decreases |DueIds(View(), now)|
      {
        ghost var v := View();
        var more := ScanFirst(now);
        if !more {
          return;
        }
        FirstFires(v, now);
      }
      First(lst, nodes);
    }

    // ---- the operations of the clients ----

    /** stimer_create; `due` is the time it read before it took the lock, plus the cycle. */
    method NewTimer(id: nat, cycle: nat, once: bool, start: bool, due: int) returns (timer: Timer)
      requires Linked() && forall n :: n in nodes ==> n.id != id
      modifies this`lst, this`nodes, this`semp, Owned()`nxt
      ensures Linked() && semp && fresh(timer) && timer in nodes
      ensures View() == Create(old(View()), id, cycle, once, start, due)
    {
      hide Chain, Insert;
      timer := new Timer(id, cycle, once, start, if start then due else DEAD_MAX);
      ghost var s := View();
      assert s == old(View());
      Add(timer);
      semp := true;
    }

    /** stimer_delete. */
    method Delete(timer: Timer)
      requires Linked() && timer in nodes
      modifies this`lst, this`nodes, this`semp, Owned()`nxt
      ensures Linked() && semp && timer !in nodes && View() == Remove(old(View()), timer.id)
    {
      Unlink(timer);
      semp := true;
    }

    /** stimer_ioctl with en_stimer_opt_stop. */
    method StopTimer(timer: Timer)
      requires Linked() && timer in nodes
      modifies this`lst, this`nodes, this`semp, Owned()
      ensures Linked() && semp && Owned() == old(Owned())
      ensures InList(old(View()), timer.id) && View() == Stop(old(View()), timer.id)
    {
      hide Chain, Insert, Remove, Items, Find;
      FindTimer(lst, nodes, timer);
      Unlink(timer);
      timer.start := false;
      timer.dead := DEAD_MAX;
      Add(timer);
      semp := true;
    }

    /** stimer_ioctl with en_stimer_opt_start. */
    method StartTimer(timer: Timer, now: int)
      requires Linked() && timer in nodes
      modifies this`lst, this`nodes, this`semp, Owned()
      ensures Linked() && semp && Owned() == old(Owned())
      ensures InList(old(View()), timer.id) && View() == Start(old(View()), timer.id, now)
    {
      hide Chain, Insert, Remove, Items, Find;
      FindTimer(lst, nodes, timer);
      Unlink(timer);
      timer.start := true;
      timer.dead := timer.cycle + now;
      Add(timer);
      semp := true;
    }

    /** stimer_ioctl with en_stimer_opt_recycle. */
    method RecycleTimer(timer: Timer, cycle: nat, now: int)
      requires Linked() && timer in nodes
      modifies this`lst, this`nodes, this`semp, Owned()
      ensures Linked() && semp && Owned() == old(Owned())
      ensures InList(old(View()), timer.id) && View() == Recycle(old(View()), timer.id, cycle, now)
    {
      hide Chain, Insert, Remove, Items, Find;
      FindTimer(lst, nodes, timer);
      Unlink(timer);
      timer.cycle := cycle;
      if timer.start {
        timer.dead := cycle + now;
      }
      Add(timer);
      semp := true;
    }

    /** The wait __timer_entry computes from the time it read. */
    method WaitTime(now: int) returns (wait: nat)
      requires Linked()
      ensures wait == NextWait(View(), now)
    {
      if lst == null || lst.dead == DEAD_MAX {
        return WAIT_MAX;
      }
      wait := if lst.dead > now then (lst.dead - now) % 0x1_0000_0000 else 0;
      if wait > WAIT_MAX - 1 {
        wait := WAIT_MAX;
      }
    }
  }
}

/** The cooperative scheduler of scheduler/scheduler.c: a table of sixteen
  * task slots, sleep timers, a priority pass and a round-robin cursor.
  *
  * A callback is a function pointer in the source; here `fn` is its address
  * (0 is NULL).  Time is a real number of seconds. */
module Scheduling {
  const SLOTS: nat := 16
  const LOW: int := 0
  const NORMAL: int := 1
  const CRITICAL: int := 3

  datatype State = Empty | Ready | Sleeping | Suspended

  datatype Task = Task(fn: nat, arg: int, state: State, prio: int, left: real,
                       runs: nat, spent: real, name: string)

  /** The three globals of the scheduler. */
  datatype Table = Table(tasks: seq<Task>, count: int, next: nat)

  /** What a callback may do to the scheduler while slot `k` runs. */
  type Effect = (nat, Table) -> Table

  predicate Shape(t: Table) { |t.tasks| == SLOTS && t.next < SLOTS }

  /** The callback leaves the scheduler alone. */
  ghost predicate Quiet(f: Effect) { forall k: nat, t: Table :: f(k, t) == t }

  ghost predicate Keeps(f: Effect) { forall k: nat, t: Table :: Shape(t) ==> Shape(f(k, t)) }

  function Used(ts: seq<Task>): (n: nat)
    ensures n <= |ts|
  {
    if ts == [] then 0 else Used(ts[..|ts| - 1]) + (if ts[|ts| - 1].state.Empty? then 0 else 1)
  }

  lemma {:induction false} UsedUpdate(ts: seq<Task>, k: nat, t: Task)
    requires k < |ts|
    ensures Used(ts[k := t]) == Used(ts) + (if t.state.Empty? then 0 else 1) - (if ts[k].state.Empty? then 0 else 1)
  {
    var u, n := ts[k := t], |ts| - 1;
    if k == n {
      assert u[..n] == ts[..n];
    } else {
      UsedUpdate(ts[..n], k, t);
      assert u[..n] == ts[..n][k := t];
    }
  }

  lemma {:induction false} UsedSame(a: seq<Task>, b: seq<Task>)
    requires |a| == |b| && forall i :: 0 <= i < |a| ==> a[i].state.Empty? == b[i].state.Empty?
    ensures Used(a) == Used(b)
  {
    if a != [] { UsedSame(a[..|a| - 1], b[..|b| - 1]); }
  }

  lemma {:induction false} UsedFull(ts: seq<Task>)
    ensures Used(ts) == |ts| <==> forall i :: 0 <= i < |ts| ==> !ts[i].state.Empty?
    ensures Used(ts) == 0 <==> forall i :: 0 <= i < |ts| ==> ts[i].state.Empty?
  {
    if ts != [] {
      UsedFull(ts[..|ts| - 1]);
      var n := |ts| - 1;
      assert forall i :: 0 <= i < n ==> ts[..n][i] == ts[i];
      assert ts[n] == ts[|ts| - 1];
    }
  }

  predicate TaskOk(t: Task) {
    (t.state.Empty? <==> t.fn == 0) && (t.state.Sleeping? ==> t.left > 0.0)
  }

  predicate Same(t: Task, fn: nat, arg: int) { !t.state.Empty? && t.fn == fn && t.arg == arg }

  /** The invariant: the count is exact, a slot is empty exactly when it has no
    * callback, a sleeper has time left, and no callback is registered twice
    * with the same argument. */
  predicate Sound(t: Table) {
    && Shape(t)
    && t.count == Used(t.tasks)
    && (forall i :: 0 <= i < SLOTS ==> TaskOk(t.tasks[i]))
    && (forall i, j :: 0 <= i < SLOTS && 0 <= j < SLOTS && i != j && !t.tasks[i].state.Empty?
          ==> !Same(t.tasks[j], t.tasks[i].fn, t.tasks[i].arg))
  }

  // ---- timers ----

  function TickTask(t: Task, dt: real): Task {
    if !t.state.Sleeping? then t
    else if t.left - dt <= 0.0 then t.(left := 0.0, state := Ready)
    else t.(left := t.left - dt)
  }

  function Ticked(ts: seq<Task>, dt: real): (r: seq<Task>) {
    seq(|ts|, i requires 0 <= i < |ts| => TickTask(ts[i], dt))
  }

  // ---- order of a priority pass ----

  predicate Runnable(t: Task) { t.state.Ready? && t.fn != 0 }

  /** How many slots past the cursor slot `k` is, going round. */
  function Distance(next: nat, k: nat): (d: nat)
    ensures d < SLOTS
  {
    (k - next) % SLOTS
  }

  lemma DistanceAt(next: nat, i: nat)
    requires next < SLOTS && i < SLOTS
    ensures (next + i) % SLOTS < SLOTS && Distance(next, (next + i) % SLOTS) == i
  {
    if next + i >= SLOTS { assert (next + i) % SLOTS == next + i - SLOTS; }
  }

  lemma DistanceInjective(next: nat, a: nat, b: nat)
    requires next < SLOTS && a < SLOTS && b < SLOTS && Distance(next, a) == Distance(next, b)
    ensures a == b
  {
    assert Distance(next, a) == if a >= next then a - next else a - next + SLOTS;
    assert Distance(next, b) == if b >= next then b - next else b - next + SLOTS;
  }

  predicate Before(ts: seq<Task>, next: nat, a: nat, b: nat)
    requires a < |ts| && b < |ts|
  {
    ts[a].prio > ts[b].prio || (ts[a].prio == ts[b].prio && Distance(next, a) < Distance(next, b))
  }

  predicate Slots(ts: seq<Task>, ran: seq<nat>) { forall i :: 0 <= i < |ran| ==> ran[i] < |ts| }

  predicate Sorted(ts: seq<Task>, next: nat, ran: seq<nat>)
    requires Slots(ts, ran)
  {
    forall i, j :: 0 <= i < j < |ran| ==> Before(ts, next, ran[i], ran[j])
  }

  /** A task is served by a pass when it is runnable and its priority is one
    * of the four bands. */
  predicate Served(t: Task) { Runnable(t) && LOW <= t.prio <= CRITICAL }

  /** `ran` runs exactly the served slots, most urgent first and, within one
    * priority, in the order of their distance from the cursor. */
  predicate Pass(ts: seq<Task>, next: nat, ran: seq<nat>) {
    && Slots(ts, ran)
    && Sorted(ts, next, ran)
    && (forall k: nat :: k < |ts| ==> (k in ran <==> Served(ts[k])))
  }

  /** A priority pass has one possible order. */
  lemma {:induction false} OrderUnique(ts: seq<Task>, next: nat, a: seq<nat>, b: seq<nat>)
    requires Slots(ts, a) && Slots(ts, b) && Sorted(ts, next, a) && Sorted(ts, next, b)
    requires forall k: nat :: k in a <==> k in b
    ensures a == b
  {
    assert b != [] ==> b[0] in a;
    assert a != [] ==> a[0] in b;
    if a != [] {
      var i :| 0 <= i < |b| && b[i] == a[0];
      var j :| 0 <= j < |a| && a[j] == b[0];
      assert a[0] == b[0];
      forall k: nat ensures k in a[1..] <==> k in b[1..] {
        if k in a[1..] { TailMember(ts, next, a, b, k); }
        if k in b[1..] { TailMember(ts, next, b, a, k); }
      }
      OrderUnique(ts, next, a[1..], b[1..]);
    }
  }

  lemma TailMember(ts: seq<Task>, next: nat, a: seq<nat>, b: seq<nat>, k: nat)
    requires a != [] && b != [] && a[0] == b[0] && Slots(ts, a) && Sorted(ts, next, a)
    requires k in a[1..] && k in b
    ensures k in b[1..]
  {
    var i :| 0 <= i < |a| - 1 && a[1..][i] == k;
    assert Before(ts, next, a[0], a[i + 1]);
    var j :| 0 <= j < |b| && b[j] == k;
    assert j > 0;
    assert b[1..][j - 1] == k;
  }

  /** The slots of `ran` have each run once more, for `dt` seconds. */
  function Credit(t: Task, dt: real): Task { t.(runs := t.runs + 1, spent := t.spent + dt) }

  function Credited(ts: seq<Task>, ran: seq<nat>, dt: real): (r: seq<Task>) {
    seq(|ts|, i requires 0 <= i < |ts| => if i in ran then Credit(ts[i], dt) else ts[i])
  }

  /** What a pass at priority `p` has served once it has looked at the first
    * `i` slots from the cursor. */
  predicate Reached(ts: seq<Task>, next: nat, p: int, i: nat, k: nat)
    requires k < |ts|
  {
    Runnable(ts[k]) && ts[k].prio <= CRITICAL
    && (ts[k].prio > p || (ts[k].prio == p && Distance(next, k) < i))
  }

  predicate Partial(ts: seq<Task>, next: nat, p: int, i: nat, ran: seq<nat>) {
    && Slots(ts, ran)
    && Sorted(ts, next, ran)
    && (forall k: nat :: k < |ts| ==> (k in ran <==> Reached(ts, next, p, i, k)))
  }

  lemma PartialStep(ts: seq<Task>, next: nat, p: int, i: nat, ran: seq<nat>, k: nat)
    requires |ts| == SLOTS && next < SLOTS && i < SLOTS && p <= CRITICAL
    requires Partial(ts, next, p, i, ran)
    requires k == (next + i) % SLOTS
    ensures ts[k].prio == p ==> k !in ran
    ensures Partial(ts, next, p, i + 1, if Runnable(ts[k]) && ts[k].prio == p then ran + [k] else ran)
  {
    DistanceAt(next, i);
    forall j: nat | j < SLOTS && Distance(next, j) == i ensures j == k { DistanceInjective(next, j, k); }
    var more := if Runnable(ts[k]) && ts[k].prio == p then ran + [k] else ran;
    forall x, y | 0 <= x < y < |more| ensures Before(ts, next, more[x], more[y]) {
      if y == |ran| { assert more[x] in ran; }
    }
    forall j: nat | j < SLOTS ensures j in more <==> Reached(ts, next, p, i + 1, j) {
      if j == k && Reached(ts, next, p, i + 1, j) { assert ts[k].prio == p ==> more[|ran|] == k; }
    }
  }

  lemma PartialBand(ts: seq<Task>, next: nat, p: int, ran: seq<nat>)
    requires Partial(ts, next, p, SLOTS, ran)
    ensures Partial(ts, next, p - 1, 0, ran)
  {
  }

  lemma PartialStart(ts: seq<Task>, next: nat, dt: real)
    ensures Partial(ts, next, CRITICAL, 0, []) && ts == Credited(ts, [], dt)
  {
  }

  lemma PartialDone(ts: seq<Task>, next: nat, ran: seq<nat>)
    requires Partial(ts, next, LOW - 1, 0, ran)
    ensures Pass(ts, next, ran)
  {
  }

  lemma CreditedStep(ts: seq<Task>, ran: seq<nat>, dt: real, k: nat)
    requires k < |ts|
    ensures |Credited(ts, ran, dt)| == |ts|
    ensures Runnable(Credited(ts, ran, dt)[k]) == Runnable(ts[k]) && Credited(ts, ran, dt)[k].prio == ts[k].prio
    ensures k !in ran ==> Credited(ts, ran + [k], dt) == Credited(ts, ran, dt)[k := Credit(Credited(ts, ran, dt)[k], dt)]
  {
  }

  /** Exactly the tasks that ran have one more run and `dt` more seconds. */
  lemma CreditedCounts(was: seq<Task>, ts: seq<Task>, ran: seq<nat>, dt: real, now: seq<Task>)
    requires ts == Ticked(was, dt) && now == Credited(ts, ran, dt)
    ensures |now| == |was|
    ensures forall k | 0 <= k < |was| ::
              && now[k].runs == was[k].runs + (if k in ran then 1 else 0)
              && now[k].spent == was[k].spent + if k in ran then dt else 0.0
  {
  }

  // ---- the round-robin pick ----

  datatype Pick = None | Slot(k: nat)

  /** The wanted slot nearest the cursor; none exactly when there is none. */
  predicate Wanted(t: Task, state: State) { t.state == state && (state.Empty? || t.fn != 0) }

  predicate Nearest(ts: seq<Task>, next: nat, state: State, p: Pick) {
    match p
    case None => forall k :: 0 <= k < |ts| ==> !Wanted(ts[k], state)
    case Slot(k) => k < |ts| && Wanted(ts[k], state)
                    && forall j: nat :: j < |ts| && Wanted(ts[j], state) ==> Distance(next, k) <= Distance(next, j)
  }

  function Ran(p: Pick): seq<nat> { if p.None? then [] else [p.k] }

  function After(next: nat, p: Pick): nat { if p.None? then next else (p.k + 1) % SLOTS }

  class Scheduler {
    const tasks: array<Task>
    var count: int
    var next: nat

    function View(): (t: Table)
      reads this, tasks
    {
      Table(tasks[..], count, next)
    }

    constructor ()
      ensures fresh(tasks) && tasks.Length == SLOTS
      ensures Sound(View()) && count == 0 && next == 0
      ensures forall i :: 0 <= i < SLOTS ==> tasks[i].state.Empty?
    {
      tasks := new Task[SLOTS](_ => Task(0, 0, Empty, NORMAL, 0.0, 0, 0.0, ""));
      count, next := 0, 0;
      new;
      UsedFull(tasks[..]);
    }

    /** Registers a callback: an existing registration is found again, else
      * the free slot nearest the cursor is taken; -1 only for NULL or a full
      * table. */
    method AddTask(fn: nat, arg: int) returns (id: int)
      requires Sound(View())
      modifies this, tasks
      ensures Sound(View())
      ensures -1 <= id < SLOTS
      ensures id == -1 <==> fn == 0 || (old(count) == SLOTS && forall i :: 0 <= i < SLOTS ==> !Same(old(tasks[i]), fn, arg))
      ensures id >= 0 ==> Same(tasks[id], fn, arg)
      ensures (id == -1 || Same(old(tasks[..])[id], fn, arg)) ==> View() == old(View())
      ensures id >= 0 && !Same(old(tasks[..])[id], fn, arg) ==>
        && old(tasks[..])[id].state.Empty?
        && Runnable(tasks[id]) && tasks[id].prio == NORMAL && tasks[id].runs == 0 && tasks[id].spent == 0.0
        && tasks[id].left == 0.0 && tasks[id].name == "unnamed"
        && tasks[..] == old(tasks[..])[id := tasks[id]]
        && count == old(count) + 1 && next == (id + 1) % SLOTS
        && forall j: nat :: j < SLOTS && old(tasks[..])[j].state.Empty? ==> Distance(old(next), id) <= Distance(old(next), j)
    {
      if fn == 0 { return -1; }
      var i := 0;
      while i < SLOTS
        invariant 0 <= i <= SLOTS
        invariant forall j :: 0 <= j < i ==> !Same(tasks[j], fn, arg)
      {
        if !tasks[i].state.Empty? && tasks[i].fn == fn && tasks[i].arg == arg { return i; }
        i := i + 1;
      }
      UsedFull(tasks[..]);
      var free := FindSlot(Empty);
      if free.None? { return -1; }
      id := free.k;
      ghost var was := tasks[..];
      var t := Task(fn, arg, Ready, NORMAL, 0.0, 0, 0.0, "unnamed");
      tasks[id] := t;
      count := count + 1;
      next := (id + 1) % SLOTS;
      assert tasks[..] == was[id := t];
      UsedUpdate(was, id, t);
    }

    /** The slot in state `state` nearest the cursor (with a callback, when the
      * state is not Empty). */
    method FindSlot(state: State) returns (p: Pick)
      requires Shape(View())
      ensures Nearest(tasks[..], next, state, p)
    {
      var i := 0;
      while i < SLOTS
        invariant 0 <= i <= SLOTS
        invariant forall j: nat :: j < SLOTS && Distance(next, j) < i ==> !Wanted(tasks[j], state)
      {
        var k := (next + i) % SLOTS;
        DistanceAt(next, i);
        if tasks[k].state == state && (state.Empty? || tasks[k].fn != 0) {
          return Slot(k);
        }
        forall j: nat | j < SLOTS && Distance(next, j) < i + 1 ensures !Wanted(tasks[j], state) {
          if Distance(next, j) == i { DistanceInjective(next, j, k); }
        }
        i := i + 1;
      }
      forall j: nat | j < SLOTS ensures !Wanted(tasks[j], state) { assert Distance(next, j) < SLOTS; }
      return None;
    }

    method RemoveTask(id: int)
      requires Sound(View())
      modifies this, tasks
      ensures Sound(View()) && next == old(next)
      ensures if 0 <= id < SLOTS && !old(tasks[..])[id].state.Empty?
              then tasks[id].state.Empty? && tasks[..] == old(tasks[..])[id := tasks[id]] && count == old(count) - 1
                   && tasks[id].runs == old(tasks[..])[id].runs && tasks[id].spent == old(tasks[..])[id].spent
                   && tasks[id].fn == 0 && tasks[id].arg == 0 && tasks[id].prio == NORMAL && tasks[id].left == 0.0 && tasks[id].name == ""
              else View() == old(View())
    {
      if !(0 <= id < SLOTS) { return; }
      if tasks[id].state.Empty? { return; }
      ghost var was := tasks[..];
      var t := tasks[id].(fn := 0, arg := 0, state := Empty, prio := NORMAL, left := 0.0, name := "");
      UsedUpdate(was, id, t);
      UsedFull(was);
      tasks[id] := t;
      assert tasks[..] == was[id := t];
      if count > 0 { count := count - 1; }
    }

    /** Unregisters every task of one callback, whatever its argument. */
    method RemoveByFn(fn: nat)
      requires Sound(View())
      modifies this, tasks
      ensures Sound(View()) && next == old(next)
      ensures forall i :: 0 <= i < SLOTS ==>
        if fn != 0 && old(tasks[..])[i].fn == fn then tasks[i].state.Empty? else tasks[i] == old(tasks[..])[i]
    {
      if fn == 0 { return; }
      ghost var was := tasks[..];
      var i := 0;
      while i < SLOTS
        invariant 0 <= i <= SLOTS && Sound(View()) && next == old(next)
        invariant forall j :: i <= j < SLOTS ==> tasks[j] == was[j]
        invariant forall j :: 0 <= j < i ==> if was[j].fn == fn then tasks[j].state.Empty? else tasks[j] == was[j]
      {
        if !tasks[i].state.Empty? && tasks[i].fn == fn {
          ghost var mid := tasks[..];
          RemoveTask(i);
          assert tasks[..] == mid[i := tasks[i]];
          assert forall j :: 0 <= j < SLOTS && j != i ==> tasks[..][j] == mid[j];
        }
        i := i + 1;
      }
    }

    /** Puts `t` in slot `id`; it is empty exactly when the old task was. */
    method Put(id: nat, t: Task)
      requires Sound(View()) && id < SLOTS
      requires TaskOk(t) && t.state.Empty? == tasks[id].state.Empty? && t.fn == tasks[id].fn && t.arg == tasks[id].arg
      modifies tasks
      ensures Sound(View()) && tasks[..] == old(tasks[..])[id := t]
    {
      ghost var was := tasks[..];
      UsedUpdate(was, id, t);
      tasks[id] := t;
      assert tasks[..] == was[id := t];
    }

    method SetPriority(id: int, prio: int)
      requires Sound(View())
      modifies tasks
      ensures Sound(View())
      ensures tasks[..] == if 0 <= id < SLOTS && !old(tasks[..])[id].state.Empty?
                           then old(tasks[..])[id := old(tasks[..])[id].(prio := prio)] else old(tasks[..])
    {
      if !(0 <= id < SLOTS) { return; }
      if tasks[id].state.Empty? { return; }
      Put(id, tasks[id].(prio := prio));
    }

    method Suspend(id: int)
      requires Sound(View())
      modifies tasks
      ensures Sound(View())
      ensures tasks[..] == if 0 <= id < SLOTS && old(tasks[..])[id].state.Ready?
                           then old(tasks[..])[id := old(tasks[..])[id].(state := Suspended)] else old(tasks[..])
    {
      if !(0 <= id < SLOTS) { return; }
      if tasks[id].state.Ready? { Put(id, tasks[id].(state := Suspended)); }
    }

    method Resume(id: int)
      requires Sound(View())
      modifies tasks
      ensures Sound(View())
      ensures tasks[..] == if 0 <= id < SLOTS && (old(tasks[..])[id].state.Suspended? || old(tasks[..])[id].state.Sleeping?)
                           then old(tasks[..])[id := old(tasks[..])[id].(left := 0.0, state := Ready)] else old(tasks[..])
    {
      if !(0 <= id < SLOTS) { return; }
      if tasks[id].state.Suspended? || tasks[id].state.Sleeping? {
        Put(id, tasks[id].(left := 0.0, state := Ready));
      }
    }

    method Sleep(id: int, seconds: real)
      requires Sound(View())
      modifies tasks
      ensures Sound(View())
      ensures tasks[..] == if 0 <= id < SLOTS && !old(tasks[..])[id].state.Empty? && seconds > 0.0
                           then old(tasks[..])[id := old(tasks[..])[id].(left := seconds, state := Sleeping)] else old(tasks[..])
    {
      if !(0 <= id < SLOTS) { return; }
      if tasks[id].state.Empty? { return; }
      if seconds <= 0.0 { return; }
      Put(id, tasks[id].(left := seconds, state := Sleeping));
    }

    method TickSleepTimers(dt: real)
      requires Shape(View())
      modifies tasks
      ensures tasks[..] == Ticked(old(tasks[..]), dt)
    {
      ghost var was := tasks[..];
      var i := 0;
      while i < SLOTS
        invariant 0 <= i <= SLOTS
        invariant forall j :: 0 <= j < i ==> tasks[j] == TickTask(was[j], dt)
        invariant forall j :: i <= j < SLOTS ==> tasks[j] == was[j]
      {
        if tasks[i].state.Sleeping? {
          tasks[i] := tasks[i].(left := tasks[i].left - dt);
          if tasks[i].left <= 0.0 {
            tasks[i] := tasks[i].(left := 0.0, state := Ready);
          }
        }
        i := i + 1;
      }
    }

    /** The slots of one priority, from the cursor on. */
    method RunBand(prio: int, dt: real, ghost ts: seq<Task>, before: seq<nat>) returns (ran: seq<nat>)
      requires Shape(View()) && |ts| == SLOTS && prio <= CRITICAL
      requires Partial(ts, next, prio, 0, before) && tasks[..] == Credited(ts, before, dt)
      modifies tasks
      ensures Partial(ts, next, prio - 1, 0, ran) && tasks[..] == Credited(ts, ran, dt)
    {
      hide Partial, Credited;
      ran := before;
      var i := 0;
      while i < SLOTS
        invariant 0 <= i <= SLOTS
        invariant Partial(ts, next, prio, i, ran)
        invariant tasks[..] == Credited(ts, ran, dt)
      {
        var k := (next + i) % SLOTS;
        PartialStep(ts, next, prio, i, ran, k);
        CreditedStep(ts, ran, dt, k);
        if Runnable(tasks[k]) && tasks[k].prio == prio {
          tasks[k] := Credit(tasks[k], dt);
          ran := ran + [k];
        }
        i := i + 1;
      }
      PartialBand(ts, next, prio, ran);
    }

    /** Ticks the timers, then runs every served task once; the callbacks leave
      * the scheduler alone. `ran` lists the slots in the order they ran. */
    method RunAll(dt: real) returns (ran: seq<nat>)
      requires Shape(View())
      modifies this`next, tasks
      ensures Step(old(View()), All(dt), ran, View())
      ensures old(Sound(View())) ==> Sound(View())
      ensures forall k | 0 <= k < tasks.Length ::
                && tasks[k].runs == old(tasks[..])[k].runs + (if k in ran then 1 else 0)
                && tasks[k].spent == old(tasks[..])[k].spent + if k in ran then dt else 0.0
    {
      hide Partial, Sound, Credited;
      ghost var was := View();
      TickSleepTimers(dt);
      ghost var ts := tasks[..];
      ran := [];
      PartialStart(ts, next, dt);
      var prio := CRITICAL;
      while prio >= LOW
        invariant LOW - 1 <= prio <= CRITICAL && next == old(next)
        invariant Partial(ts, next, prio, 0, ran)
        invariant tasks[..] == Credited(ts, ran, dt)
      {
        ran := RunBand(prio, dt, ts, ran);
        prio := prio - 1;
      }
      PartialDone(ts, next, ran);
      CreditedCounts(was.tasks, ts, ran, dt, tasks[..]);
      next := (next + 1) % SLOTS;
      if Sound(was) { SoundAfter(was, ts, dt, ran, View()); }
    }

    /** Ticks the timers and runs the runnable slot nearest the cursor, whose
      * callback may change the scheduler through `effect`; the cursor ends
      * past the slot that ran whatever the callback did to it. */
    method RunOnce(dt: real, effect: Effect) returns (p: Pick)
      requires Shape(View()) && Keeps(effect)
      modifies this, tasks
      ensures Nearest(Ticked(old(tasks[..]), dt), old(next), Ready, p)
      ensures next == After(old(next), p)
      ensures p.None? ==> tasks[..] == Ticked(old(tasks[..]), dt) && count == old(count)
      ensures p.Slot? ==>
        var t := effect(p.k, Table(Ticked(old(tasks[..]), dt), old(count), old(next)));
        && Shape(t) && count == t.count && tasks[..] == t.tasks[p.k := Credit(t.tasks[p.k], dt)]
        && tasks[p.k].runs == t.tasks[p.k].runs + 1 && tasks[p.k].spent == t.tasks[p.k].spent + dt
      ensures Quiet(effect) ==> Step(old(View()), Once(dt), Ran(p), View())
    {
      hide Nearest, Step;
      TickSleepTimers(dt);
      p := FindSlot(Ready);
      NearestSlot(tasks[..], next, p);
      if p.Slot? {
        var t := effect(p.k, View());
        assert Shape(t);
        Replace(t);
        tasks[p.k] := Credit(tasks[p.k], dt);
        next := (p.k + 1) % SLOTS;
      }
      if Quiet(effect) { OnceStep(old(View()), dt, p, View()); }
    }

    method Replace(t: Table)
      requires Shape(View()) && Shape(t)
      modifies this, tasks
      ensures View() == t
    {
      var i := 0;
      while i < SLOTS
        invariant 0 <= i <= SLOTS
        invariant forall j :: 0 <= j < i ==> tasks[j] == t.tasks[j]
      {
        tasks[i] := t.tasks[i];
        i := i + 1;
      }
      count, next := t.count, t.next;
    }
  }

  lemma NearestSlot(ts: seq<Task>, next: nat, p: Pick)
    requires Nearest(ts, next, Ready, p)
    ensures p.Slot? ==> p.k < |ts|
  {
  }

  lemma OnceStep(s: Table, dt: real, p: Pick, t: Table)
    requires Shape(s) && Nearest(Ticked(s.tasks, dt), s.next, Ready, p) && t.count == s.count && t.next == After(s.next, p)
    requires var ts := Ticked(s.tasks, dt); t.tasks == if p.None? then ts else ts[p.k := Credit(ts[p.k], dt)]
    ensures Step(s, Once(dt), Ran(p), t)
  {
    assert t.tasks == Credited(Ticked(s.tasks, dt), Ran(p), dt);
  }

  lemma SoundAfter(was: Table, ts: seq<Task>, dt: real, ran: seq<nat>, now: Table)
    requires Sound(was) && ts == Ticked(was.tasks, dt) && Shape(now)
    requires now.tasks == Credited(ts, ran, dt) && now.count == was.count
    ensures Sound(now)
  {
    forall i | 0 <= i < SLOTS ensures TaskOk(now.tasks[i]) && now.tasks[i].state.Empty? == was.tasks[i].state.Empty?
      && now.tasks[i].fn == was.tasks[i].fn && now.tasks[i].arg == was.tasks[i].arg {
      assert TaskOk(was.tasks[i]);
    }
    UsedSame(now.tasks, was.tasks);
    forall i, j | 0 <= i < SLOTS && 0 <= j < SLOTS && i != j && !now.tasks[i].state.Empty?
      ensures !Same(now.tasks[j], now.tasks[i].fn, now.tasks[i].arg) {
      assert !Same(was.tasks[j], was.tasks[i].fn, was.tasks[i].arg);
    }
  }

  // ---- runs ----

  /** One call of a pass (`All`) or of a single step (`Once`), `dt` seconds
    * after the previous one; callbacks leave the scheduler alone. */
  datatype Call = All(dt: real) | Once(dt: real)

  ghost predicate Step(s: Table, c: Call, ran: seq<nat>, t: Table) {
    && Shape(s)
    && t.count == s.count
    && t.tasks == Credited(Ticked(s.tasks, c.dt), ran, c.dt)
    && match c
       case All(dt) => Pass(Ticked(s.tasks, dt), s.next, ran) && t.next == (s.next + 1) % SLOTS
       case Once(dt) => exists p: Pick :: Nearest(Ticked(s.tasks, dt), s.next, Ready, p)
                                          && ran == Ran(p) && t.next == After(s.next, p)
  }

  ghost predicate IsRun(states: seq<Table>, calls: seq<Call>, rans: seq<seq<nat>>) {
    && |states| == |calls| + 1 && |rans| == |calls|
    && forall i :: 0 <= i < |calls| ==> Step(states[i], calls[i], rans[i], states[i + 1])
  }

  function Elapsed(calls: seq<Call>): real {
    if calls == [] then 0.0 else Elapsed(calls[..|calls| - 1]) + calls[|calls| - 1].dt
  }

  /** Call `m` is the first at which `s` seconds have gone by. */
  predicate FirstReaches(calls: seq<Call>, s: real, m: nat) {
    && 0 < m <= |calls|
    && Elapsed(calls[..m]) >= s
    && forall j :: 0 <= j < m ==> Elapsed(calls[..j]) < s
  }

  lemma StepSleeper(s: Table, c: Call, ran: seq<nat>, t: Table, k: nat)
    requires Step(s, c, ran, t) && k < SLOTS
    requires s.tasks[k].state.Sleeping? && s.tasks[k].left - c.dt > 0.0
    ensures k !in ran && Shape(t) && t.tasks[k] == s.tasks[k].(left := s.tasks[k].left - c.dt)
  {
    var ts := Ticked(s.tasks, c.dt);
    assert ts[k] == TickTask(s.tasks[k], c.dt);
    assert !Runnable(ts[k]);
  }

  lemma StepWakes(s: Table, c: Call, ran: seq<nat>, t: Table, k: nat)
    requires Step(s, c, ran, t) && k < SLOTS
    requires s.tasks[k].state.Sleeping? && s.tasks[k].fn != 0 && s.tasks[k].left - c.dt <= 0.0
    ensures Shape(t) && Runnable(t.tasks[k]) && t.tasks[k].left == 0.0
    ensures c.All? && LOW <= s.tasks[k].prio <= CRITICAL ==> k in ran
  {
    var ts := Ticked(s.tasks, c.dt);
    assert ts[k] == TickTask(s.tasks[k], c.dt);
    assert t.tasks[k] == if k in ran then Credit(ts[k], c.dt) else ts[k];
    if c.Once? {
      var p: Pick :| Nearest(ts, s.next, Ready, p) && ran == Ran(p) && t.next == After(s.next, p);
    }
  }

  lemma {:induction false} StillAsleep(states: seq<Table>, calls: seq<Call>, rans: seq<seq<nat>>, k: nat, m: nat, j: nat)
    requires IsRun(states, calls, rans) && k < SLOTS && Shape(states[0])
    requires states[0].tasks[k].state.Sleeping?
    requires FirstReaches(calls, states[0].tasks[k].left, m) && j < m
    ensures Shape(states[j])
    ensures states[j].tasks[k] == states[0].tasks[k].(left := states[0].tasks[k].left - Elapsed(calls[..j]))
    ensures forall i :: 0 <= i < j ==> k !in rans[i]
  {
    if j > 0 {
      StillAsleep(states, calls, rans, k, m, j - 1);
      assert calls[..j][..j - 1] == calls[..j - 1];
      assert Step(states[j - 1], calls[j - 1], rans[j - 1], states[j]);
      StepSleeper(states[j - 1], calls[j - 1], rans[j - 1], states[j], k);
    }
  }

  lemma ElapsedStep(calls: seq<Call>, m: nat)
    requires 0 < m <= |calls|
    ensures Elapsed(calls[..m]) == Elapsed(calls[..m - 1]) + calls[m - 1].dt
  {
    assert calls[..m][..m - 1] == calls[..m - 1];
  }

  /** A task asleep for `s` seconds does not run before the call at which `s`
    * seconds have gone by, is awake from that call on, and runs in it when
    * the call is a pass. */
  lemma SleepsExactly(states: seq<Table>, calls: seq<Call>, rans: seq<seq<nat>>, k: nat, m: nat)
    requires IsRun(states, calls, rans) && k < SLOTS && Shape(states[0])
    requires states[0].tasks[k].state.Sleeping? && states[0].tasks[k].fn != 0
    requires FirstReaches(calls, states[0].tasks[k].left, m)
    ensures forall i :: 0 <= i < m - 1 ==> k !in rans[i]
    ensures Shape(states[m]) && Runnable(states[m].tasks[k]) && states[m].tasks[k].left == 0.0
    ensures calls[m - 1].All? && LOW <= states[0].tasks[k].prio <= CRITICAL ==> k in rans[m - 1]
  {
    hide Step, Elapsed, Shape, Runnable;
    StillAsleep(states, calls, rans, k, m, m - 1);
    assert Step(states[m - 1], calls[m - 1], rans[m - 1], states[m]);
    ElapsedStep(calls, m);
    hide IsRun, FirstReaches;
    StepWakes(states[m - 1], calls[m - 1], rans[m - 1], states[m], k);
  }

  // ---- fairness of the single step ----

  /** Where a registration in slot `id` leaves the cursor. */
  function Registered(id: nat): nat { (id + 1) % SLOTS }

  function MovedBy(cursor: nat, ids: seq<nat>): nat {
    if ids == [] then cursor else Registered(ids[|ids| - 1])
  }

  /** A registration in slot `id` does not carry the cursor away from `k`: the
    * slot lies before `k` as seen from the cursor, or just behind the cursor. */
  predicate Harmless(cursor: nat, id: nat, k: nat) {
    Distance(cursor, id) < Distance(cursor, k) || Distance(cursor, id) == SLOTS - 1
  }

  predicate AllHarmless(cursor: nat, ids: seq<nat>, k: nat) {
    forall i :: 0 <= i < |ids| ==> ids[i] < SLOTS && Harmless(MovedBy(cursor, ids[..i]), ids[i], k)
  }

  lemma DistanceIs(next: nat, k: nat)
    requires next < SLOTS && k < SLOTS
    ensures Distance(next, k) == if k >= next then k - next else k - next + SLOTS
  {
  }

  /** A registration keeps a slot as near to the cursor as it was if and only if
    * it is harmless to it. */
  lemma HarmlessExact(cursor: nat, id: nat, k: nat)
    requires cursor < SLOTS && id < SLOTS && k < SLOTS
    ensures Distance(Registered(id), k) <= Distance(cursor, k) <==> Harmless(cursor, id, k)
  {
    assert Registered(id) == if id == SLOTS - 1 then 0 else id + 1;
    DistanceIs(cursor, id);
    DistanceIs(cursor, k);
    DistanceIs(Registered(id), k);
  }

  lemma {:induction false} HarmlessRegistrations(cursor: nat, ids: seq<nat>, k: nat)
    requires cursor < SLOTS && k < SLOTS && AllHarmless(cursor, ids, k)
    ensures MovedBy(cursor, ids) < SLOTS && Distance(MovedBy(cursor, ids), k) <= Distance(cursor, k)
  {
    if ids != [] {
      var n := |ids| - 1;
      assert forall i :: 0 <= i < n ==> ids[..n][..i] == ids[..i];
      HarmlessRegistrations(cursor, ids[..n], k);
      HarmlessExact(MovedBy(cursor, ids[..n]), ids[n], k);
    }
  }

  /** The tables a sequence of single steps finds after its timer ticks, the
    * cursors it starts from, the slots it picks and the slots registered after
    * each step; what the callbacks and other code do to the tables in between
    * is arbitrary. */
  predicate RoundRobin(tables: seq<seq<Task>>, cursors: seq<nat>, picks: seq<Pick>, regs: seq<seq<nat>>) {
    && |picks| == |regs| == |tables| && |cursors| == |tables| + 1 && cursors[0] < SLOTS
    && forall i :: 0 <= i < |tables| ==>
         && |tables[i]| == SLOTS && Nearest(tables[i], cursors[i], Ready, picks[i])
         && cursors[i + 1] == MovedBy(After(cursors[i], picks[i]), regs[i])
  }

  lemma PickNearer(ts: seq<Task>, next: nat, p: Pick, k: nat)
    requires |ts| == SLOTS && next < SLOTS && k < SLOTS && Nearest(ts, next, Ready, p) && Runnable(ts[k])
    requires p != Slot(k)
    ensures After(next, p) < SLOTS && Distance(After(next, p), k) < Distance(next, k)
  {
    assert Wanted(ts[k], Ready);
    match p {
      case None => assert false;
      case Slot(j) =>
        DistanceIs(next, j);
        DistanceIs(next, k);
        var q := After(next, p);
        assert q == if j == SLOTS - 1 then 0 else j + 1;
        DistanceIs(q, k);
    }
  }

  /** A slot that stays runnable is run after at most as many other runs as
    * its distance from the cursor, if every registration is harmless to it. */
  lemma {:induction false} RunsInTurn(tables: seq<seq<Task>>, cursors: seq<nat>, picks: seq<Pick>, regs: seq<seq<nat>>, k: nat)
    requires RoundRobin(tables, cursors, picks, regs) && k < SLOTS
    requires |tables| > Distance(cursors[0], k)
    requires forall i :: 0 <= i < |tables| ==> Runnable(tables[i][k]) && AllHarmless(After(cursors[i], picks[i]), regs[i], k)
    ensures exists i :: 0 <= i <= Distance(cursors[0], k) && picks[i] == Slot(k)
  {
    hide AllHarmless;
    if picks[0] != Slot(k) {
      PickNearer(tables[0], cursors[0], picks[0], k);
      HarmlessRegistrations(After(cursors[0], picks[0]), regs[0], k);
      assert RoundRobin(tables[1..], cursors[1..], picks[1..], regs[1..]);
      RunsInTurn(tables[1..], cursors[1..], picks[1..], regs[1..], k);
      var i :| 0 <= i <= Distance(cursors[1], k) && picks[1..][i] == Slot(k);
      assert picks[i + 1] == Slot(k);
    } else {
      assert picks[0] == Slot(k);
    }
  }

  /** Any slot that stays runnable for SLOTS single steps is run by one of them,
    * if no registration in between is harmful to it. */
  lemma NoStarvation(tables: seq<seq<Task>>, cursors: seq<nat>, picks: seq<Pick>, regs: seq<seq<nat>>, k: nat)
    requires RoundRobin(tables, cursors, picks, regs) && k < SLOTS && |tables| == SLOTS
    requires forall i :: 0 <= i < |tables| ==> Runnable(tables[i][k]) && AllHarmless(After(cursors[i], picks[i]), regs[i], k)
    ensures exists i :: 0 <= i < SLOTS && picks[i] == Slot(k)
  {
    hide AllHarmless;
    RunsInTurn(tables, cursors, picks, regs, k);
    var i :| 0 <= i <= Distance(cursors[0], k) && picks[i] == Slot(k);
  }

  // ---- harmful registrations ----

  /** Slots 0 and 2 can run, slot 1 is the only free one, and the callback to be
    * registered is not. */
  predicate Lopsided(t: Table, fn: nat, arg: int) {
    && Shape(t) && Runnable(t.tasks[0]) && Runnable(t.tasks[2])
    && (forall i :: 0 <= i < SLOTS ==> (t.tasks[i].state.Empty? <==> i == 1))
    && (forall i :: 0 <= i < SLOTS ==> !Same(t.tasks[i], fn, arg))
  }

  /** From slot 2 on, the nearest runnable slot is slot 2. */
  lemma PicksTwo(ts: seq<Task>, p: Pick)
    requires |ts| == SLOTS && Runnable(ts[2]) && Nearest(ts, 2, Ready, p)
    ensures p == Slot(2)
  {
    assert Wanted(ts[2], Ready);
    DistanceIs(2, 2);
    DistanceInjective(2, p.k, 2);
  }

  lemma TickKeeps(ts: seq<Task>, dt: real, i: nat)
    requires i < |ts|
    ensures |Ticked(ts, dt)| == |ts| && Ticked(ts, dt)[i] == TickTask(ts[i], dt)
    ensures Runnable(ts[i]) ==> Ticked(ts, dt)[i] == ts[i]
    ensures Ticked(ts, dt)[i].state.Empty? == ts[i].state.Empty? && Ticked(ts, dt)[i].fn == ts[i].fn && Ticked(ts, dt)[i].arg == ts[i].arg
  {
  }

  lemma StepSound(s: Table, dt: real, ran: seq<nat>, t: Table)
    requires Sound(s) && Step(s, Once(dt), ran, t) && t.next < SLOTS
    ensures Sound(t)
  {
    SoundAfter(s, Ticked(s.tasks, dt), dt, ran, t);
  }

  /** The table through a round: with the new task in slot 1, after slot 2 has
    * run, and with slot 1 empty again. */
  lemma RoundTable(was: Table, mid: Table, dt: real, after: Table, now: Table, fn: nat, arg: int)
    requires Lopsided(was, fn, arg) && |mid.tasks| == SLOTS && mid.tasks == was.tasks[1 := mid.tasks[1]]
    requires var ts := Ticked(mid.tasks, dt); after.tasks == ts[2 := Credit(ts[2], dt)]
    requires Shape(now) && now.tasks == after.tasks[1 := now.tasks[1]] && now.tasks[1].state.Empty?
    ensures Lopsided(now, fn, arg) && now.tasks[0].runs == was.tasks[0].runs
  {
    hide Ticked, TickTask;
    forall i: nat | i < SLOTS
      ensures now.tasks[i].state.Empty? <==> i == 1
      ensures !Same(now.tasks[i], fn, arg)
    {
      TickKeeps(mid.tasks, dt, i);
      assert !Same(was.tasks[i], fn, arg);
    }
    TickKeeps(mid.tasks, dt, 0);
    TickKeeps(mid.tasks, dt, 2);
  }

  /** One round: register, step, unregister. */
  method Round(s: Scheduler, fn: nat, arg: int, dt: real) returns (p: Pick)
    requires Sound(s.View()) && Lopsided(s.View(), fn, arg) && fn != 0
    modifies s, s.tasks
    ensures Sound(s.View()) && Lopsided(s.View(), fn, arg) && p == Slot(2)
    ensures s.tasks[0].runs == old(s.tasks[0].runs)
  {
    hide Sound, Nearest, Step, Ticked;
    ghost var was := s.View();
    EmptyNotFull(was, 1);
    var id := s.AddTask(fn, arg);
    assert id == 1;
    ghost var mid := s.View();
    TickKeeps(mid.tasks, dt, 2);
    SoundShape(mid);
    p := s.RunOnce(dt, (k, t) => t);
    PicksTwo(Ticked(mid.tasks, dt), p);
    StepSound(mid, dt, Ran(p), s.View());
    ghost var after := s.View();
    s.RemoveTask(1);
    SoundShape(s.View());
    RoundTable(was, mid, dt, after, s.View(), fn, arg);
  }

  lemma SoundShape(t: Table)
    requires Sound(t)
    ensures Shape(t)
  {
  }

  /** For every number of rounds: slot 0 stays runnable and is never picked, and
    * its run count never moves. */
  method Starve(s: Scheduler, fn: nat, arg: int, dts: seq<real>) returns (picks: seq<Pick>)
    requires Sound(s.View()) && Lopsided(s.View(), fn, arg) && fn != 0
    modifies s, s.tasks
    ensures Sound(s.View()) && Lopsided(s.View(), fn, arg)
    ensures |picks| == |dts| && Slot(0) !in picks && s.tasks[0].runs == old(s.tasks[0].runs)
  {
    hide Sound, Lopsided;
    picks := [];
    LopsidedShape(s.View(), fn, arg);
    for i := 0 to |dts|
      invariant Sound(s.View()) && Lopsided(s.View(), fn, arg) && s.tasks.Length == SLOTS
      invariant |picks| == i && Slot(0) !in picks && s.tasks[0].runs == old(s.tasks[0].runs)
    {
      var p := Round(s, fn, arg, dts[i]);
      picks := picks + [p];
      LopsidedShape(s.View(), fn, arg);
    }
  }

  lemma LopsidedShape(t: Table, fn: nat, arg: int)
    requires Lopsided(t, fn, arg)
    ensures |t.tasks| == SLOTS && Runnable(t.tasks[0])
  {
  }

  /** Such a run from the very start: sixteen registrations, one removal, and
    * then as many rounds as wanted; slot 0 is ready all along and never runs. */
  method StarveFromInit(dts: seq<real>) returns (s: Scheduler, picks: seq<Pick>)
    ensures |picks| == |dts| && Slot(0) !in picks && s.tasks.Length == SLOTS && Runnable(s.tasks[0]) && s.tasks[0].runs == 0
  {
    s := new Scheduler();
    var i := 0;
    while i < SLOTS
      invariant 0 <= i <= SLOTS && s.tasks.Length == SLOTS && fresh(s) && fresh(s.tasks) && Sound(s.View()) && s.next == i % SLOTS
      invariant forall j :: 0 <= j < i ==> Runnable(s.tasks[j]) && s.tasks[j].fn == j + 1 && s.tasks[j].runs == 0
      invariant forall j :: i <= j < SLOTS ==> s.tasks[j].state.Empty?
    {
      i := FillSlot(s, i);
    }
    ghost var full := s.tasks[..];
    s.RemoveTask(1);
    assert s.tasks[..] == full[1 := s.tasks[1]];
    assert forall j :: 0 <= j < SLOTS && j != 1 ==> s.tasks[..][j] == full[j];
    picks := Starve(s, 17, 0, dts);
    LopsidedShape(s.View(), 17, 0);
  }

  method FillSlot(s: Scheduler, i: nat) returns (n: nat)
    requires i < SLOTS && s.tasks.Length == SLOTS && Sound(s.View()) && s.next == i
    requires forall j :: 0 <= j < i ==> Runnable(s.tasks[j]) && s.tasks[j].fn == j + 1 && s.tasks[j].runs == 0
    requires forall j :: i <= j < SLOTS ==> s.tasks[j].state.Empty?
    modifies s, s.tasks
    ensures n == i + 1 && Sound(s.View()) && s.next == n % SLOTS
    ensures forall j :: 0 <= j < n ==> Runnable(s.tasks[j]) && s.tasks[j].fn == j + 1 && s.tasks[j].runs == 0
    ensures forall j :: n <= j < SLOTS ==> s.tasks[j].state.Empty?
  {
    hide Sound;
    ghost var was := s.tasks[..];
    EmptyNotFull(s.View(), i);
    DistanceIs(i, i);
    var id := s.AddTask(i + 1, 0);
    if id >= 0 { DistanceIs(i, id); }
    assert id == i;
    assert forall j :: 0 <= j < SLOTS && j != i ==> s.tasks[..][j] == was[j];
    n := i + 1;
  }

  lemma EmptyNotFull(t: Table, i: nat)
    requires Sound(t) && i < SLOTS && t.tasks[i].state.Empty?
    ensures t.count != SLOTS
  {
    UsedFull(t.tasks);
  }
}

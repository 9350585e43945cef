/** Task table, per-CPU runnable masks and the thread objects behind the tasks.
    Each method is one critical section under the scheduler lock. */
module Scheduler {
  import opened Common
  import opened Runqueue
  import opened Threads

  const MAX_TASKS: nat := SLOTS
  const MAX_CPUS: nat := 64

  datatype TaskState = Unused | Runnable | Running | Dead | Blocked

  datatype Task = Task(id: nat, state: TaskState, tid: nat, pid: nat, apOk: bool, affinity: set<nat>,
                       high: bool, waitOn: Option<nat>, runCpu: Option<nat>, migrations: nat)

  type Tasks = ts: seq<Task> | |ts| == MAX_TASKS witness seq(MAX_TASKS, _ => Blank())

  predicate IsCpu(c: nat) {
    c < MAX_CPUS
  }

  function AllCpus(): set<nat> {
    set c: nat | c < MAX_CPUS && IsCpu(c)
  }

  function Blank(): Task {
    Task(0, Unused, 0, 0, false, AllCpus(), false, None, None, 0)
  }

  function Fresh(id: nat, tid: nat, pid: nat): Task {
    Blank().(id := id, state := Runnable, tid := tid, pid := pid)
  }

  /** CPU `c` may run slot `i`: the boot processor takes anything its affinity
      allows, the others only kernel threads marked for them, never slot 0. */
  predicate Eligible(t: Task, i: nat, bsp: int, c: nat) {
    c in t.affinity && (c == bsp || (i != 0 && t.pid == 0 && t.apOk))
  }

  predicate Wanted(ts: Tasks, bsp: int, c: nat, i: nat)
    requires i < MAX_TASKS
  {
    ts[i].state.Runnable? && Eligible(ts[i], i, bsp, c)
  }

  /** The mask CPU `c` should have. */
  ghost function WantedOn(ts: Tasks, bsp: int, c: nat): (w: set<nat>)
    ensures Slotted(w)
  {
    set i: nat | i < MAX_TASKS && Wanted(ts, bsp, c, i)
  }

  ghost function HighOf(ts: Tasks): set<nat> {
    set i: nat | i < MAX_TASKS && ts[i].high
  }

  lemma WantedUpdate(ts: Tasks, bsp: int, c: nat, i: nat, t: Task)
    requires i < MAX_TASKS
    ensures WantedOn(ts[i := t], bsp, c)
         == WantedOn(ts, bsp, c) - {i} + if t.state.Runnable? && Eligible(t, i, bsp, c) then {i} else {}
  {
    var us: Tasks := ts[i := t];
    forall j: nat | j < MAX_TASKS && j != i ensures Wanted(us, bsp, c, j) == Wanted(ts, bsp, c, j) {
    }
  }

  /** Where the id is found; -1 when no task has it. */
  ghost predicate Found(ts: Tasks, id: nat, slot: int) {
    if slot == -1 then forall i :: 1 <= i < MAX_TASKS ==> ts[i].id != id || ts[i].state.Unused?
    else 1 <= slot < MAX_TASKS && ts[slot].id == id && !ts[slot].state.Unused?
  }

  predicate Live(s: TaskState) {
    s.Runnable? || s.Running? || s.Blocked?
  }

  /** Live tasks and live threads match one to one. */
  ghost predicate Bound(ts: Tasks, view: View) {
    && (forall i :: 0 <= i < MAX_TASKS ==> (Live(ts[i].state) <==> ts[i].tid != 0))
    && (forall i :: 0 <= i < MAX_TASKS && ts[i].tid != 0 ==>
          ts[i].tid in view && view[ts[i].tid].owner == ts[i].pid)
    && (forall i, j :: 0 <= i < j < MAX_TASKS && ts[i].tid != 0 ==> ts[i].tid != ts[j].tid)
    && (forall t :: t in view ==> exists i :: 0 <= i < MAX_TASKS && ts[i].tid == t)
  }

  lemma BoundKept(ts: Tasks, view: View, i: nat, t: Task)
    requires Bound(ts, view) && i < MAX_TASKS
    requires t.tid == ts[i].tid && t.pid == ts[i].pid && Live(t.state) == Live(ts[i].state)
    ensures Bound(ts[i := t], view)
  {
    var us: Tasks := ts[i := t];
    forall u | u in view ensures exists j :: 0 <= j < MAX_TASKS && us[j].tid == u {
      var j :| 0 <= j < MAX_TASKS && ts[j].tid == u;
      assert us[j].tid == u;
    }
  }

  lemma BoundFreed(ts: Tasks, view: View, i: nat, t: Task)
    requires Bound(ts, view) && i < MAX_TASKS && t.tid == 0 && !Live(t.state)
    ensures Bound(ts[i := t], view - {ts[i].tid})
  {
    var us: Tasks := ts[i := t];
    forall u | u in view - {ts[i].tid} ensures exists j :: 0 <= j < MAX_TASKS && us[j].tid == u {
      var j :| 0 <= j < MAX_TASKS && ts[j].tid == u;
      assert us[j].tid == u;
    }
  }

  lemma BoundNew(ts: Tasks, view: View, i: nat, t: Task)
    requires Bound(ts, view) && i < MAX_TASKS && !Live(ts[i].state)
    requires Live(t.state) && t.tid != 0 && t.tid !in view && 0 !in view
    ensures Bound(ts[i := t], view[t.tid := Thread(t.tid, t.pid, Active)])
  {
    var us: Tasks := ts[i := t];
    assert us[i].tid == t.tid;
    forall u | u in view ensures exists j :: 0 <= j < MAX_TASKS && us[j].tid == u {
      var j :| 0 <= j < MAX_TASKS && ts[j].tid == u;
      assert us[j].tid == u;
    }
  }

  lemma BoundDetached(ts: Tasks, view: View, pid: nat)
    requires Bound(ts, view)
    ensures Bound(ts, DetachedOf(view, pid))
  {
  }

  /** So the thread table, twice the size of the task table, cannot fill up. */
  lemma ThreadsFit(ts: Tasks, view: View)
    requires Bound(ts, view)
    ensures |view| <= MAX_TASKS
  {
    var tids := TidsBelow(ts, MAX_TASKS);
    assert view.Keys <= tids;
    SubsetSize(view.Keys, tids);
  }

  lemma {:induction false} TidsBelow(ts: Tasks, n: nat) returns (tids: set<nat>)
    requires n <= MAX_TASKS
    ensures |tids| <= n && forall i :: 0 <= i < n ==> ts[i].tid in tids
    decreases n
  {
    if n == 0 {
      tids := {};
    } else {
      tids := TidsBelow(ts, n - 1);
      tids := tids + {ts[n - 1].tid};
    }
  }

  lemma {:induction false} SlottedSize(pool: set<nat>, n: nat)
    requires forall i :: i in pool ==> i < n
    ensures |pool| <= n
  {
    if n > 0 {
      SlottedSize(pool - {n - 1}, n - 1);
      if n - 1 in pool {
        assert |pool| == |pool - {n - 1}| + 1;
      } else {
        assert pool - {n - 1} == pool;
      }
    }
  }

  ghost function Woken(ts: Tasks, wakes: Task -> bool): Tasks {
    seq(MAX_TASKS, i requires 0 <= i < MAX_TASKS =>
      if ts[i].state.Blocked? && wakes(ts[i]) then ts[i].(state := Runnable) else ts[i])
  }

  ghost predicate WokenBelow(was: Tasks, wakes: Task -> bool, n: nat, now: Tasks) {
    forall j :: 0 <= j < MAX_TASKS ==> now[j] == if j < n then Woken(was, wakes)[j] else was[j]
  }

  ghost function Requeued(ts: Tasks, old_: nat): Tasks
    requires old_ < MAX_TASKS
  {
    if ts[old_].state.Running? then ts[old_ := ts[old_].(state := Runnable)] else ts
  }

  function Claimed(t: Task, me: nat): Task {
    t.(state := Running, runCpu := Some(me),
       migrations := if t.runCpu.Some? && t.runCpu.value != me then t.migrations + 1 else t.migrations)
  }

  /** What a yield of processor `me` does to tasks and current slots, `q` being its
      cursor and streak. */
  ghost predicate Dispatched(ts: Tasks, current: seq<nat>, bsp: int, me: nat, q: Queue,
                             ts': Tasks, current': seq<nat>, q': Queue)
    requires me < |current| && current[me] < MAX_TASKS
  {
    var queued := Requeued(ts, current[me]);
    var mask := WantedOn(queued, bsp, me);
    if mask == {} then ts' == ts && current' == current && q' == q
    else
      && |current'| == |current| && current' == current[me := current'[me]] && current'[me] < MAX_TASKS
      && Picks(mask, HighOf(queued), q, current'[me], q')
      && ts' == if current'[me] == current[me] then ts
                else queued[current'[me] := Claimed(queued[current'[me]], me)]
  }

  /** What one round of the idle loop of processor `me` does. */
  ghost predicate IdleRound(ts: Tasks, current: seq<nat>, bsp: int, me: nat, q: Queue,
                            ts': Tasks, current': seq<nat>, q': Queue)
    requires me < |current| && current[me] < MAX_TASKS
  {
    var mask := WantedOn(ts, bsp, me);
    if mask == {} then ts' == ts && current' == current && q' == q
    else
      exists pick: nat :: pick < MAX_TASKS
        && Picks(mask, HighOf(ts), q, pick, q')
        && (if pick == current[me] then ts' == ts && current' == current
            else current' == current[me := pick] && ts' == ts[pick := Claimed(ts[pick], me)])
  }

  lemma SwitchesTo(ts: Tasks, current: seq<nat>, bsp: int, me: nat, q: Queue, next: nat, q': Queue)
    requires me < |current| && current[me] < MAX_TASKS && next < MAX_TASKS && next != current[me]
    requires Picks(WantedOn(Requeued(ts, current[me]), bsp, me), HighOf(Requeued(ts, current[me])), q, next, q')
    ensures (
      var queued := Requeued(ts, current[me]);
      Dispatched(ts, current, bsp, me, q, queued[next := Claimed(queued[next], me)], current[me := next], q')
    )
  {
  }

  lemma Stays(ts: Tasks, current: seq<nat>, bsp: int, me: nat, q: Queue, q': Queue)
    requires me < |current| && current[me] < MAX_TASKS
    requires
      var mask := WantedOn(Requeued(ts, current[me]), bsp, me);
      if mask == {} then q' == q else Picks(mask, HighOf(Requeued(ts, current[me])), q, current[me], q')
    ensures Dispatched(ts, current, bsp, me, q, ts, current, q')
  {
  }

  class Scheduler {
    var tasks: Tasks
    var current: seq<nat>
    var nextId: nat
    const bsp: int
    const rqs: seq<RunQueue>
    const threads: ThreadTable

    ghost predicate Shaped()
      reads this, rqs
    {
      && |rqs| == MAX_CPUS && |current| == MAX_CPUS
      && (forall c :: 0 <= c < MAX_CPUS ==> current[c] < MAX_TASKS)
      && (forall c, d :: 0 <= c < d < MAX_CPUS ==> rqs[c] != rqs[d])
      && (forall c :: 0 <= c < MAX_CPUS ==> rqs[c].Valid())
    }

    /** The masks are exactly the runnable, eligible slots. */
    ghost predicate Synced()
      requires Shaped()
      reads this, rqs
    {
      forall c :: 0 <= c < MAX_CPUS ==> rqs[c].mask == WantedOn(tasks, bsp, c)
    }

    ghost predicate Valid()
      reads this, rqs, threads
    {
      Shaped() && Synced() && threads.Valid() && Bound(tasks, threads.view)
    }

    constructor (bsp: int)
      ensures Valid() && fresh(threads) && (forall c :: 0 <= c < MAX_CPUS ==> fresh(rqs[c]))
      ensures tasks[0].state.Running? && !tasks[0].high && (forall i: nat :: 1 <= i < MAX_TASKS ==> tasks[i] == Blank())
      ensures this.bsp == bsp && nextId == 1 && current == seq(MAX_CPUS, _ => 0)
    {
      this.bsp := bsp;
      var queues: seq<RunQueue> := [];
      while |queues| < MAX_CPUS
        invariant |queues| <= MAX_CPUS
        invariant forall c :: 0 <= c < |queues| ==> fresh(queues[c]) && queues[c].mask == {}
        invariant forall c, d :: 0 <= c < d < |queues| ==> queues[c] != queues[d]
      {
        var q := new RunQueue();
        queues := queues + [q];
      }
      var table := new ThreadTable();
      var code, tid := table.Alloc(0, true);
      assert code == 0;
      var ts: Tasks := seq(MAX_TASKS, _ => Blank());
      ts := ts[0 := Blank().(state := Running, tid := tid)];
      rqs, threads, tasks, nextId := queues, table, ts, 1;
      current := seq(MAX_CPUS, _ => 0);
      new;
      assert ts[0].tid == tid;
      forall c | 0 <= c < MAX_CPUS ensures rqs[c].mask == WantedOn(tasks, bsp, c) {
        assert WantedOn(tasks, bsp, c) == {};
      }
    }

    // --------------------------------------------------------- mask cache

    method AddEligible(i: nat)
      requires Shaped() && i < MAX_TASKS
      modifies rqs`mask
      ensures Shaped()
      ensures forall c :: 0 <= c < MAX_CPUS ==>
                rqs[c].mask == old(rqs[c].mask) + if Eligible(tasks[i], i, bsp, c) then {i} else {}
    {
      var c := 0;
      while c < MAX_CPUS
        invariant 0 <= c <= MAX_CPUS && Shaped()
        invariant forall d :: c <= d < MAX_CPUS ==> rqs[d].mask == old(rqs[d].mask)
        invariant forall d :: 0 <= d < c ==>
                    rqs[d].mask == old(rqs[d].mask) + if Eligible(tasks[i], i, bsp, d) then {i} else {}
      {
        if Eligible(tasks[i], i, bsp, c) {
          rqs[c].Add(i);
        }
        c := c + 1;
      }
    }

    method RemoveAll(i: nat)
      requires Shaped()
      modifies rqs`mask
      ensures Shaped()
      ensures forall c :: 0 <= c < MAX_CPUS ==> rqs[c].mask == old(rqs[c].mask) - {i}
    {
      var c := 0;
      while c < MAX_CPUS
        invariant 0 <= c <= MAX_CPUS && Shaped()
        invariant forall d :: c <= d < MAX_CPUS ==> rqs[d].mask == old(rqs[d].mask)
        invariant forall d :: 0 <= d < c ==> rqs[d].mask == old(rqs[d].mask) - {i}
      {
        rqs[c].Remove(i);
        c := c + 1;
      }
    }

    /** Masks that were right up to slot `i` are right again. */
    method Resync(i: nat, ghost was: Tasks)
      requires Shaped() && i < MAX_TASKS && tasks == was[i := tasks[i]]
      requires forall c :: 0 <= c < MAX_CPUS ==> rqs[c].mask - {i} == WantedOn(was, bsp, c) - {i}
      modifies rqs`mask
      ensures Shaped() && Synced()
    {
      RemoveAll(i);
      if tasks[i].state.Runnable? {
        AddEligible(i);
      }
      forall c | 0 <= c < MAX_CPUS ensures rqs[c].mask == WantedOn(tasks, bsp, c) {
        WantedUpdate(was, bsp, c, i, tasks[i]);
      }
    }

    /** The check made before every pick. */
    method Verify() returns (ok: bool)
      requires Shaped()
      ensures ok <==> Synced()
    {
      ok := true;
      var c := 0;
      while c < MAX_CPUS
        invariant 0 <= c <= MAX_CPUS && ok
        invariant forall d :: 0 <= d < c ==> rqs[d].mask == WantedOn(tasks, bsp, d)
      {
        var i := 0;
        while i < MAX_TASKS
          invariant 0 <= i <= MAX_TASKS && ok
          invariant forall j: nat :: j < i ==> (j in rqs[c].mask <==> j in WantedOn(tasks, bsp, c))
        {
          var want := Wanted(tasks, bsp, c, i);
          if (i in rqs[c].mask) != want {
            assert i in WantedOn(tasks, bsp, c) <==> want;
            return false;
          }
          i := i + 1;
        }
        assert rqs[c].mask == WantedOn(tasks, bsp, c);
        c := c + 1;
      }
    }

    // ------------------------------------------------------------ picking

    method HighMask() returns (high: set<nat>)
      ensures high == HighOf(tasks)
    {
      high := {};
      var i: nat := 0;
      while i < MAX_TASKS
        invariant i <= MAX_TASKS
        invariant forall j: nat :: j in high <==> j < i && tasks[j].high
      {
        if tasks[i].high {
          high := high + {i};
        }
        i := i + 1;
      }
    }

    /** Pick from `q` until a slot wanted on `me` turns up, dropping stale bits. */
    method PickWanted(q: RunQueue, me: nat, high: set<nat>) returns (pick: int)
      requires q.Valid()
      modifies q
      ensures q.Valid() && q.mask <= old(q.mask)
      ensures forall i: nat :: i in old(q.mask) && i !in q.mask ==> i < MAX_TASKS && !Wanted(tasks, bsp, me, i)
      ensures pick < 0 ==> q.mask == {}
      ensures pick >= 0 ==> pick in old(q.mask) && pick < MAX_TASKS && Wanted(tasks, bsp, me, pick)
      ensures old(q.mask) == {} ==> q.cursor == old(q.cursor) && q.streak == old(q.streak)
      ensures old(q.mask) != {} && (forall i :: i in old(q.mask) ==> i < MAX_TASKS && Wanted(tasks, bsp, me, i)) ==>
                pick >= 0 && q.mask == old(q.mask)
                && Picks(q.mask, high, Queue(old(q.cursor), old(q.streak)), pick, Queue(q.cursor, q.streak))
    {
      SlottedSize(q.mask, MAX_TASKS);
      var n := 0;
      while n < MAX_TASKS
        invariant n <= MAX_TASKS && q.Valid() && q.mask <= old(q.mask) && |q.mask| + n <= MAX_TASKS
        invariant forall i: nat :: i in old(q.mask) && i !in q.mask ==> i < MAX_TASKS && !Wanted(tasks, bsp, me, i)
        invariant n == 0 ==> q.mask == old(q.mask) && q.cursor == old(q.cursor) && q.streak == old(q.streak)
        invariant n > 0 ==> q.mask != old(q.mask)
      {
        pick := q.Pick(high);
        if pick < 0 {
          return;
        }
        if Wanted(tasks, bsp, me, pick) {
          return;
        }
        q.Remove(pick);
        n := n + 1;
      }
      pick := -1;
    }

    /** The pick of CPU `me`; `fallback` when there is nothing to run. The last
        part says that with correct masks no bit is ever healed and nothing is
        ever stolen. */
    method PickFor(me: nat, fallback: nat) returns (next: nat, stolen: bool)
      requires Shaped() && me < MAX_CPUS && fallback < MAX_TASKS
      modifies rqs[me]
      ensures Shaped() && next < MAX_TASKS
      ensures next == fallback || Wanted(tasks, bsp, me, next)
      ensures next == fallback && !Wanted(tasks, bsp, me, next) ==>
                forall i: nat :: i in old(rqs[me].mask) ==> !Wanted(tasks, bsp, me, i)
      ensures old(Synced()) ==>
                Synced() && !stolen
                && (rqs[me].mask == {} ==>
                      next == fallback && rqs[me].cursor == old(rqs[me].cursor) && rqs[me].streak == old(rqs[me].streak))
                && (rqs[me].mask != {} ==>
                      Picks(rqs[me].mask, HighOf(tasks), Queue(old(rqs[me].cursor), old(rqs[me].streak)),
                            next, Queue(rqs[me].cursor, rqs[me].streak)))
    {
      ghost var synced := Synced();
      var high := HighMask();
      var pick := PickWanted(rqs[me], me, high);
      if pick >= 0 {
        return pick, false;
      }
      if me != bsp && 0 <= bsp < MAX_CPUS {
        var tmp := new RunQueue();
        tmp.mask, tmp.cursor, tmp.streak := rqs[bsp].mask, rqs[me].cursor, rqs[me].streak;
        pick := PickWanted(tmp, me, high);
        if pick >= 0 {
          rqs[me].cursor, rqs[me].streak := tmp.cursor, tmp.streak;
          return pick, true;
        }
      }
      return fallback, false;
    }

    // ------------------------------------------------------- state changes

    /** Slot `i` becomes runnable: its bit joins every eligible mask. */
    method MakeRunnable(i: nat)
      requires Valid() && i < MAX_TASKS && (tasks[i].state.Running? || tasks[i].state.Blocked?)
      modifies this`tasks, rqs`mask
      ensures Valid() && tasks == old(tasks)[i := old(tasks)[i].(state := Runnable)]
    {
      BoundKept(tasks, threads.view, i, tasks[i].(state := Runnable));
      Place(i, tasks[i].(state := Runnable));
    }

    /** Slot `i` stops being runnable: its bit leaves every mask. */
    method MakeUnrunnable(i: nat, t: Task)
      requires Valid() && i < MAX_TASKS && (t.state.Running? || t.state.Blocked?) && Live(tasks[i].state)
      requires t.tid == tasks[i].tid && t.pid == tasks[i].pid
      modifies this`tasks, rqs`mask
      ensures Valid() && tasks == old(tasks)[i := t]
    {
      BoundKept(tasks, threads.view, i, t);
      tasks := tasks[i := t];
      RemoveAll(i);
      forall c | 0 <= c < MAX_CPUS ensures rqs[c].mask == WantedOn(tasks, bsp, c) {
        WantedUpdate(old(tasks), bsp, c, i, t);
      }
    }

    method FindTask(id: nat) returns (slot: int)
      ensures Found(tasks, id, slot)
    {
      var i := 1;
      while i < MAX_TASKS
        invariant 1 <= i <= MAX_TASKS
        invariant forall j :: 1 <= j < i ==> tasks[j].id != id || tasks[j].state.Unused?
      {
        if tasks[i].id == id && !tasks[i].state.Unused? {
          return i;
        }
        i := i + 1;
      }
      slot := -1;
    }

    /** Let the other processors run a kernel thread. */
    method AllowAp(id: nat) returns (ok: bool, slot: int)
      requires Valid()
      modifies this`tasks, rqs`mask
      ensures Valid() && Found(old(tasks), id, slot)
      ensures ok <==> id != 0 && slot >= 1 && old(tasks)[slot].pid == 0
      ensures tasks == if ok then old(tasks)[slot := old(tasks)[slot].(apOk := true)] else old(tasks)
    {
      slot := FindTask(id);
      if id == 0 {
        return false, slot;
      }
      if slot < 0 || tasks[slot].pid != 0 {
        return false, slot;
      }
      ghost var was := tasks;
      BoundKept(tasks, threads.view, slot, tasks[slot].(apOk := true));
      tasks := tasks[slot := tasks[slot].(apOk := true)];
      Resync(slot, was);
      ok := true;
    }

    /** Restrict a task to a set of processors. A set on which the base rule
        would never let it run is refused. */
    method SetAffinity(id: nat, cpus: set<nat>) returns (ok: bool, slot: int)
      requires Valid() && cpus <= AllCpus()
      modifies this`tasks, rqs`mask
      ensures Valid() && Found(old(tasks), id, slot)
      ensures ok <==> id != 0 && 0 <= bsp < MAX_CPUS && slot >= 1
                      && exists c :: c in cpus && Eligible(old(tasks)[slot].(affinity := cpus), slot, bsp, c)
      ensures tasks == if ok then old(tasks)[slot := old(tasks)[slot].(affinity := cpus)] else old(tasks)
    {
      slot := FindTask(id);
      if id == 0 || cpus == {} || !(0 <= bsp < MAX_CPUS) || slot < 0 {
        return false, slot;
      }
      if !(bsp in cpus || (tasks[slot].pid == 0 && tasks[slot].apOk)) {
        return false, slot;
      }
      assert exists c :: c in cpus && Eligible(tasks[slot].(affinity := cpus), slot, bsp, c) by {
        if bsp in cpus {
          assert Eligible(tasks[slot].(affinity := cpus), slot, bsp, bsp);
        } else {
          var c :| c in cpus;
          assert Eligible(tasks[slot].(affinity := cpus), slot, bsp, c);
        }
      }
      ghost var was := tasks;
      BoundKept(tasks, threads.view, slot, tasks[slot].(affinity := cpus));
      tasks := tasks[slot := tasks[slot].(affinity := cpus)];
      Resync(slot, was);
      ok := true;
    }

    /** Priority moves no mask bit. */
    method SetPriority(id: nat, high: bool) returns (ok: bool, slot: int)
      requires Valid()
      modifies this`tasks
      ensures Valid() && Found(old(tasks), id, slot)
      ensures ok <==> id != 0 && slot >= 1 && (high ==> old(tasks)[slot].pid == 0)
      ensures tasks == if ok then old(tasks)[slot := old(tasks)[slot].(high := high)] else old(tasks)
    {
      slot := FindTask(id);
      if id == 0 || slot < 0 || (high && tasks[slot].pid != 0) {
        return false, slot;
      }
      BoundKept(tasks, threads.view, slot, tasks[slot].(high := high));
      ghost var was := tasks;
      tasks := tasks[slot := tasks[slot].(high := high)];
      forall c | 0 <= c < MAX_CPUS ensures rqs[c].mask == WantedOn(tasks, bsp, c) {
        WantedUpdate(was, bsp, c, slot, tasks[slot]);
      }
      ok := true;
    }

    /** A new task in a free slot, with a thread of its own. The thread table has
        room for every task, so only a dead owner makes the second step fail. */
    method Create(pid: nat, ownerLive: bool) returns (code: int, slot: nat)
      requires Valid() && (pid == 0 ==> ownerLive)
      modifies this`tasks, this`nextId, rqs`mask, threads
      ensures Valid() && slot < MAX_TASKS
      ensures code == -1 <==> forall i :: 1 <= i < MAX_TASKS ==> Live(old(tasks)[i].state)
      ensures code == -4 ==> !ownerLive
      ensures code == 0 || code == -1 || code == -4
      ensures code == -1 ==> tasks == old(tasks)
      ensures code != -1 ==> slot >= 1 && !Live(old(tasks)[slot].state) && tasks == old(tasks)[slot := tasks[slot]]
      ensures code == -4 ==> tasks[slot].state.Unused?
      ensures code != 0 ==> threads.view == old(threads.view)
      ensures code == 0 ==> (
        var tid := old(threads.nextTid);
        && ownerLive && tasks[slot] == Fresh(old(nextId), tid, pid)
        && threads.view == old(threads.view)[tid := Thread(tid, pid, Active)]
      )
    {
      slot := FreeSlot();
      if slot == 0 {
        return -1, 0;
      }
      var t := Fresh(nextId, 0, pid);
      nextId := nextId + 1;
      code := Bind(slot, t, ownerLive);
    }

    method FreeSlot() returns (slot: nat)
      ensures slot < MAX_TASKS
      ensures slot == 0 ==> forall i :: 1 <= i < MAX_TASKS ==> Live(tasks[i].state)
      ensures slot != 0 ==> !Live(tasks[slot].state)
    {
      slot := 1;
      while slot < MAX_TASKS
        invariant 1 <= slot <= MAX_TASKS
        invariant forall j :: 1 <= j < slot ==> Live(tasks[j].state)
      {
        if !Live(tasks[slot].state) {
          return;
        }
        slot := slot + 1;
      }
      slot := 0;
    }

    /** Give the new task a thread and make it runnable; without a thread the
        slot is handed back. */
    method Bind(slot: nat, t: Task, ownerLive: bool) returns (code: int)
      requires Valid() && 1 <= slot < MAX_TASKS && !Live(tasks[slot].state) && t.state.Runnable? && t.tid == 0
      modifies this`tasks, rqs`mask, threads
      ensures Valid() && code == if ownerLive then 0 else -4
      ensures code == -4 ==> tasks == old(tasks)[slot := t.(state := Unused)] && threads.view == old(threads.view)
      ensures code == 0 ==> (
        var tid := old(threads.nextTid);
        && tasks == old(tasks)[slot := t.(tid := tid)]
        && threads.view == old(threads.view)[tid := Thread(tid, t.pid, Active)]
      )
    {
      ghost var view := threads.view;
      var tid := TakeThread(t.pid, ownerLive);
      if tid == 0 {
        assert Bound(tasks[slot := t.(state := Unused)], view) by {
          BoundFreed(tasks, view, slot, t.(state := Unused));
          assert view - {0} == view;
        }
        Place(slot, t.(state := Unused));
        code := -4;
      } else {
        BoundNew(tasks, view, slot, t.(tid := tid));
        Place(slot, t.(tid := tid));
        code := 0;
      }
    }

    /** A thread for a new task of a live owner: there is always one free. */
    method TakeThread(pid: nat, ownerLive: bool) returns (tid: nat)
      requires Valid()
      modifies threads
      ensures Shaped() && Synced() && threads.Valid()
      ensures 0 !in old(threads.view) && old(threads.nextTid) !in old(threads.view)
      ensures tid == if ownerLive then old(threads.nextTid) else 0
      ensures ownerLive ==> tid != 0
      ensures threads.view == if ownerLive then old(threads.view)[tid := Thread(tid, pid, Active)] else old(threads.view)
    {
      ThreadsFit(tasks, threads.view);
      var rc, id := threads.Alloc(pid, ownerLive);
      tid := if rc == 0 then id else 0;
    }

    /** Fill a slot that holds no mask bits. */
    method Place(slot: nat, t: Task)
      requires Shaped() && Synced() && slot < MAX_TASKS && !tasks[slot].state.Runnable?
      modifies this`tasks, rqs`mask
      ensures Shaped() && Synced() && tasks == old(tasks)[slot := t]
    {
      tasks := tasks[slot := t];
      if t.state.Runnable? {
        AddEligible(slot);
      }
      forall c | 0 <= c < MAX_CPUS ensures rqs[c].mask == WantedOn(tasks, bsp, c) {
        WantedUpdate(old(tasks), bsp, c, slot, t);
      }
    }

    /** Death of a task: its thread is freed once and its bit leaves every mask. */
    method MarkDead(i: nat)
      requires Valid() && i < MAX_TASKS
      modifies this`tasks, rqs`mask, threads
      ensures Valid()
      ensures tasks == old(tasks)[i := old(tasks)[i].(state := Dead, waitOn := None, tid := 0)]
      ensures threads.view == old(threads.view) - {old(tasks)[i].tid}
      ensures threads.nextTid == old(threads.nextTid)
    {
      ghost var was := tasks;
      var t := tasks[i].(state := Dead, waitOn := None, tid := 0);
      BoundFreed(tasks, threads.view, i, t);
      var tid := tasks[i].tid;
      tasks := tasks[i := t];
      if tid != 0 {
        threads.Release(tid);
      } else {
        assert threads.view - {0} == threads.view;
      }
      RemoveAll(i);
      forall c | 0 <= c < MAX_CPUS ensures rqs[c].mask == WantedOn(tasks, bsp, c) {
        WantedUpdate(was, bsp, c, i, t);
      }
    }

    method BlockCurrent(me: nat)
      requires Valid() && me < MAX_CPUS
      modifies this`tasks, rqs`mask
      ensures Valid()
      ensures (
        var i, t := current[me], old(tasks)[current[me]];
        tasks == if t.state.Running? || t.state.Runnable? then old(tasks)[i := t.(state := Blocked)] else old(tasks)
      )
    {
      var i := current[me];
      if tasks[i].state.Running? || tasks[i].state.Runnable? {
        MakeUnrunnable(i, tasks[i].(state := Blocked));
      } else {
        RemoveAll(i);
      }
    }

    /** Remember the queue a task is about to wait on; at most one at a time. */
    method WaitPrepare(me: nat, queue: nat, granted: bool) returns (ok: bool)
      requires Valid() && me < MAX_CPUS
      modifies this`tasks
      ensures Valid()
      ensures ok <==> granted && old(tasks)[current[me]].waitOn.None?
      ensures tasks == if ok then old(tasks)[current[me] := old(tasks)[current[me]].(waitOn := Some(queue))] else old(tasks)
    {
      var i := current[me];
      if tasks[i].waitOn.Some? || !granted {
        return false;
      }
      ghost var was := tasks;
      BoundKept(tasks, threads.view, i, tasks[i].(waitOn := Some(queue)));
      tasks := tasks[i := tasks[i].(waitOn := Some(queue))];
      forall c | 0 <= c < MAX_CPUS ensures rqs[c].mask == WantedOn(tasks, bsp, c) {
        WantedUpdate(was, bsp, c, i, tasks[i]);
      }
      ok := true;
    }

    /** Give up waiting: a blocked task becomes runnable again. */
    method WaitAbort(me: nat)
      requires Valid() && me < MAX_CPUS
      modifies this`tasks, rqs`mask
      ensures Valid()
      ensures (
        var i, t := current[me], old(tasks)[current[me]].(waitOn := None);
        tasks == old(tasks)[i := if t.state.Blocked? then t.(state := Runnable) else t]
      )
    {
      var i := current[me];
      ghost var was := tasks;
      BoundKept(tasks, threads.view, i, tasks[i].(waitOn := None));
      tasks := tasks[i := tasks[i].(waitOn := None)];
      forall c | 0 <= c < MAX_CPUS ensures rqs[c].mask == WantedOn(tasks, bsp, c) {
        WantedUpdate(was, bsp, c, i, tasks[i]);
      }
      if tasks[i].state.Blocked? {
        MakeRunnable(i);
      }
    }

    /** Wake every blocked task that `wakes` names: those waiting on one queue,
        or those of one process. */
    method Wake(wakes: Task -> bool)
      requires Valid()
      modifies this`tasks, rqs`mask
      ensures Valid() && tasks == Woken(old(tasks), wakes)
    {
      ghost var was := tasks;
      var i := 0;
      while i < MAX_TASKS
        invariant 0 <= i <= MAX_TASKS && Valid()
        invariant WokenBelow(was, wakes, i, tasks)
      {
        WakeOne(i, wakes, was);
        i := i + 1;
      }
      assert tasks == Woken(was, wakes);
    }

    method WakeOne(i: nat, wakes: Task -> bool, ghost was: Tasks)
      requires Valid() && i < MAX_TASKS && WokenBelow(was, wakes, i, tasks)
      modifies this`tasks, rqs`mask
      ensures Valid() && WokenBelow(was, wakes, i + 1, tasks)
    {
      if tasks[i].state.Blocked? && wakes(tasks[i]) {
        MakeRunnable(i);
      }
    }

    method DetachPid(pid: nat)
      requires Valid()
      modifies threads`threads, threads`view
      ensures Valid() && threads.view == DetachedOf(old(threads.view), pid)
    {
      BoundDetached(tasks, threads.view, pid);
      threads.DetachPid(pid);
    }

    // ---------------------------------------------------------- dispatching

    /** Claim slot `next` for this processor. */
    method Claim(me: nat, next: nat)
      requires Valid() && me < MAX_CPUS && next < MAX_TASKS && tasks[next].state.Runnable?
      modifies this`tasks, this`current, rqs`mask
      ensures Valid() && current == old(current)[me := next]
      ensures tasks == old(tasks)[next := Claimed(old(tasks)[next], me)]
    {
      current := current[me := next];
      MakeUnrunnable(next, Claimed(tasks[next], me));
    }

    /** A yield. The running task rejoins the masks first, the masks are checked,
        and the processor takes the runqueue's pick. It keeps its task only when
        nothing wanted is there or the pick is that task. */
    method Yield(me: nat)
      requires Valid() && me < MAX_CPUS
      modifies this`tasks, this`current, rqs
      ensures Valid()
      ensures Dispatched(old(tasks), old(current), bsp, me, Queue(old(rqs[me].cursor), old(rqs[me].streak)),
                         tasks, current, Queue(rqs[me].cursor, rqs[me].streak))
    {
      ghost var ts, cs, q := tasks, current, Queue(rqs[me].cursor, rqs[me].streak);
      var was := current[me];
      var flipped := Requeue(was);
      var ok := Verify();
      assert ok;
      var next, stolen := PickFor(me, was);
      if next != was {
        SwitchesTo(ts, cs, bsp, me, q, next, Queue(rqs[me].cursor, rqs[me].streak));
        Claim(me, next);
      } else {
        Stays(ts, cs, bsp, me, q, Queue(rqs[me].cursor, rqs[me].streak));
        if flipped {
          MakeUnrunnable(was, tasks[was].(state := Running));
        }
      }
    }

    method Requeue(was: nat) returns (flipped: bool)
      requires Valid() && was < MAX_TASKS
      modifies this`tasks, rqs`mask
      ensures Valid() && tasks == Requeued(old(tasks), was)
      ensures flipped <==> old(tasks)[was].state.Running?
      ensures flipped ==> tasks[was := tasks[was].(state := Running)] == old(tasks)
    {
      flipped := tasks[was].state.Running?;
      if flipped {
        MakeRunnable(was);
      }
    }

    /** One round of another processor's idle loop: it claims the pick unless
        that is the slot it ran last. */
    method ApIdle(me: nat) returns (parked: bool)
      requires Valid() && me < MAX_CPUS
      modifies this`tasks, this`current, rqs
      ensures Valid()
      ensures IdleRound(old(tasks), old(current), bsp, me, Queue(old(rqs[me].cursor), old(rqs[me].streak)),
                        tasks, current, Queue(rqs[me].cursor, rqs[me].streak))
      ensures parked <==> tasks == old(tasks)
    {
      var was := current[me];
      var ok := Verify();
      assert ok;
      var next, stolen := PickFor(me, was);
      if next == was || !tasks[next].state.Runnable? {
        return true;
      }
      Claim(me, next);
      parked := false;
    }
  }

  // ------------------------------------------------------ rounds without work

  /** Rounds of the idle loop of processor `me` that claim nothing, one after the
      other; `qs` are its cursor and streak before, between and after them. */
  ghost predicate Parked(ts: Tasks, current: seq<nat>, bsp: int, me: nat, qs: seq<Queue>)
    requires me < |current| && current[me] < MAX_TASKS
  {
    |qs| > 0 && forall i | 0 <= i < |qs| - 1 :: IdleRound(ts, current, bsp, me, qs[i], ts, current, qs[i + 1])
  }

  /** A claim shows: the claimed task is runnable before and running after. */
  lemma ParkedPick(ts: Tasks, current: seq<nat>, bsp: int, me: nat, q: Queue, q': Queue)
    requires me < |current| && current[me] < MAX_TASKS && WantedOn(ts, bsp, me) != {}
    requires IdleRound(ts, current, bsp, me, q, ts, current, q')
    ensures Picks(WantedOn(ts, bsp, me), HighOf(ts), q, current[me], q')
  {
    var pick: nat :| pick < MAX_TASKS && Picks(WantedOn(ts, bsp, me), HighOf(ts), q, pick, q')
      && (pick == current[me] || current == current[me := pick]);
    SlotNow(current, me, pick);
  }

  lemma SlotNow(current: seq<nat>, me: nat, pick: nat)
    requires me < |current|
    ensures current[me := pick][me] == pick
  {
  }

  /** Picking the slot just behind the cursor takes a pool of that slot alone. */
  lemma SameAgain(mask: set<nat>, high: set<nat>, q: Queue, old_: nat, q': Queue)
    requires Picks(mask, high, q, old_, q') && mask - {old_} != {}
    ensures q'.cursor == Advanced(old_) && q'.streak <= HIPRI_CAP
    ensures q.cursor == Advanced(old_) ==> q.streak < HIPRI_CAP && q'.streak == q.streak + 1
  {
    if q.cursor == Advanced(old_) {
      var pool := Pool(mask, high, q.streak);
      forall j | j in pool ensures j == old_ {
        assert Dist(Advanced(old_), old_) <= Dist(Advanced(old_), j);
      }
    }
  }

  lemma {:induction false} StreakGrows(ts: Tasks, current: seq<nat>, bsp: int, me: nat, qs: seq<Queue>, i: nat)
    requires me < |current| && current[me] < MAX_TASKS && WantedOn(ts, bsp, me) - {current[me]} != {}
    requires Parked(ts, current, bsp, me, qs) && 1 <= i < |qs|
    ensures qs[i].cursor == Advanced(current[me]) && i - 1 <= qs[i].streak <= HIPRI_CAP
  {
    assert IdleRound(ts, current, bsp, me, qs[i - 1], ts, current, qs[i - 1 + 1]);
    ParkedPick(ts, current, bsp, me, qs[i - 1], qs[i]);
    SameAgain(WantedOn(ts, bsp, me), HighOf(ts), qs[i - 1], current[me], qs[i]);
    if i > 1 {
      StreakGrows(ts, current, bsp, me, qs, i - 1);
    }
  }

  /** With another wanted task, at most five rounds in a row claim nothing. */
  lemma ParkedAtMost(ts: Tasks, current: seq<nat>, bsp: int, me: nat, qs: seq<Queue>)
    requires me < |current| && current[me] < MAX_TASKS && WantedOn(ts, bsp, me) - {current[me]} != {}
    requires Parked(ts, current, bsp, me, qs)
    ensures |qs| <= 6
  {
    if |qs| > 1 {
      StreakGrows(ts, current, bsp, me, qs, |qs| - 1);
    }
  }

  lemma IdleOnce(ts: Tasks, current: seq<nat>, bsp: int, me: nat, q: Queue) returns (q': Queue)
    requires me < |current| && current[me] < MAX_TASKS && WantedOn(ts, bsp, me) <= {current[me]}
    ensures IdleRound(ts, current, bsp, me, q, ts, current, q')
  {
    var mask, old_ := WantedOn(ts, bsp, me), current[me];
    q' := q;
    if mask != {} {
      assert mask == {old_} && old_ in Pool(mask, HighOf(ts), q.streak);
      q' := Queue(Advanced(old_), NewStreak(mask, HighOf(ts), q.streak));
      assert Picks(mask, HighOf(ts), q, old_, q');
    }
  }

  lemma {:induction false} ParkedForever(ts: Tasks, current: seq<nat>, bsp: int, me: nat, q: Queue, n: nat) returns (qs: seq<Queue>)
    requires me < |current| && current[me] < MAX_TASKS && WantedOn(ts, bsp, me) <= {current[me]}
    ensures Parked(ts, current, bsp, me, qs) && |qs| == n + 1
  {
    if n == 0 {
      return [q];
    }
    var before := ParkedForever(ts, current, bsp, me, q, n - 1);
    var next := IdleOnce(ts, current, bsp, me, before[n - 1]);
    qs := before + [next];
  }

  /** EXACT CONDITION. With an unchanging task table, a processor's idle loop claims
      a task within six rounds exactly when some task other than the one it ran last
      is runnable and eligible there. */
  lemma IdleClaimsExactlyWhen(ts: Tasks, current: seq<nat>, bsp: int, me: nat)
    requires me < |current| && current[me] < MAX_TASKS
    ensures (forall qs | Parked(ts, current, bsp, me, qs) :: |qs| <= 6) <==> WantedOn(ts, bsp, me) - {current[me]} != {}
  {
    if WantedOn(ts, bsp, me) - {current[me]} != {} {
      forall qs | Parked(ts, current, bsp, me, qs) ensures |qs| <= 6 {
        ParkedAtMost(ts, current, bsp, me, qs);
      }
    } else {
      var qs := ParkedForever(ts, current, bsp, me, Queue(0, 0), 6);
    }
  }

  // ------------------------------------------------------ a task left behind

  /** Runnable task `i` is pinned to processor `me`, which ran it last and has
      nothing else to run. */
  ghost predicate LeftBehind(ts: Tasks, current: seq<nat>, bsp: int, me: nat, i: nat) {
    && me < |current| && i < MAX_TASKS && current[me] == i
    && ts[i].state.Runnable? && ts[i].affinity == {me} && Eligible(ts[i], i, bsp, me)
    && (forall j: nat :: j < MAX_TASKS && j != i ==> !Eligible(ts[j], j, bsp, me))
  }

  lemma OnlyWantedHere(ts: Tasks, current: seq<nat>, bsp: int, me: nat, i: nat, c: nat)
    requires LeftBehind(ts, current, bsp, me, i)
    ensures i in WantedOn(ts, bsp, c) <==> c == me
    ensures WantedOn(ts, bsp, me) == {i}
  {
  }

  /** Such a task never runs again: no yield and no idle round of any processor
      claims it. */
  lemma LeftBehindStays(ts: Tasks, current: seq<nat>, bsp: int, me: nat, i: nat,
                        c: nat, q: Queue, ts': Tasks, current': seq<nat>, q': Queue)
    requires LeftBehind(ts, current, bsp, me, i) && c < |current| && current[c] < MAX_TASKS
    requires Dispatched(ts, current, bsp, c, q, ts', current', q') || IdleRound(ts, current, bsp, c, q, ts', current', q')
    ensures LeftBehind(ts', current', bsp, me, i)
    ensures c == me ==> ts' == ts && current' == current
  {
    OnlyWantedHere(ts, current, bsp, me, i, c);
    var queued := Requeued(ts, current[c]);
    assert LeftBehind(queued, current, bsp, me, i);
    OnlyWantedHere(queued, current, bsp, me, i, c);
  }

  /** Task `i` is pinned to processor 1 and nobody else may run there. */
  ghost predicate PinnedAlone(ts: Tasks, i: nat) {
    && 1 <= i < MAX_TASKS && ts[i].affinity == {1} && ts[i].pid == 0 && ts[i].apOk && ts[i].waitOn.None?
    && (forall j: nat :: j < MAX_TASKS && j != i ==> !Eligible(ts[j], j, 0, 1))
  }

  lemma PinnedIsWanted(ts: Tasks, i: nat)
    requires PinnedAlone(ts, i) && ts[i].state.Runnable?
    ensures WantedOn(ts, 0, 1) == {i}
  {
    assert Wanted(ts, 0, 1, i);
  }

  method CreateFirst(s: Scheduler) returns (slot: nat, id: nat)
    requires s.Valid() && s.bsp == 0 && s.nextId > 0
    requires forall i: nat :: 1 <= i < MAX_TASKS ==> s.tasks[i] == Blank()
    modifies s, s.rqs, s.threads
    ensures s.Valid() && s.current == old(s.current) && 1 <= slot < MAX_TASKS && id > 0
    ensures exists tid :: s.tasks[slot] == Fresh(id, tid, 0)
    ensures forall i: nat :: 1 <= i < MAX_TASKS && i != slot ==> s.tasks[i] == Blank()
  {
    id := s.nextId;
    var code;
    assert !Live(s.tasks[1].state);
    code, slot := s.Create(0, true);
  }

  method PinThread(s: Scheduler) returns (slot: nat)
    requires s.Valid() && s.bsp == 0 && s.nextId > 0
    requires forall i: nat :: 1 <= i < MAX_TASKS ==> s.tasks[i] == Blank()
    modifies s, s.rqs, s.threads
    ensures s.Valid() && PinnedAlone(s.tasks, slot) && s.tasks[slot].state.Runnable?
    ensures s.current == old(s.current)
  {
    var id;
    slot, id := CreateFirst(s);
    var ok, at := s.AllowAp(id);
    assert at == slot && ok;
    ok, at := s.SetAffinity(id, {1});
    assert at == slot;
    assert Eligible(s.tasks[slot].(affinity := {1}), slot, 0, 1);
  }

  method RunThread(s: Scheduler, slot: nat)
    requires s.Valid() && s.bsp == 0 && PinnedAlone(s.tasks, slot) && s.tasks[slot].state.Runnable?
    requires s.current[1] != slot
    modifies s, s.rqs
    ensures s.Valid() && PinnedAlone(s.tasks, slot) && s.tasks[slot].state.Running? && s.current[1] == slot
  {
    PinnedIsWanted(s.tasks, slot);
    var parked := s.ApIdle(1);
  }

  method Sleep(s: Scheduler, slot: nat)
    requires s.Valid() && s.bsp == 0 && PinnedAlone(s.tasks, slot) && s.tasks[slot].state.Running? && s.current[1] == slot
    modifies s, s.rqs
    ensures s.Valid() && s.tasks[slot].state.Blocked? && s.tasks[slot].waitOn == Some(7) && s.current == old(s.current)
    ensures PinnedAlone(s.tasks[slot := s.tasks[slot].(waitOn := None)], slot)
  {
    ghost var ts := s.tasks;
    var ok := s.WaitPrepare(1, 7, true);
    s.BlockCurrent(1);
    StillAlone(ts, slot, Blocked, Some(7));
  }

  /** Sleeping does not change who may run where. */
  lemma StillAlone(ts: Tasks, i: nat, state: TaskState, waitOn: Option<nat>)
    requires PinnedAlone(ts, i)
    ensures (var us := ts[i := ts[i].(waitOn := waitOn)]; var vs := us[i := us[i].(state := state)];
             PinnedAlone(vs[i := vs[i].(waitOn := None)], i))
  {
  }

  method WakeUp(s: Scheduler, slot: nat)
    requires s.Valid() && s.bsp == 0 && slot < MAX_TASKS && s.tasks[slot].state.Blocked? && s.tasks[slot].waitOn == Some(7)
    requires PinnedAlone(s.tasks[slot := s.tasks[slot].(waitOn := None)], slot) && s.current[1] == slot
    modifies s, s.rqs
    ensures s.Valid() && LeftBehind(s.tasks, s.current, 0, 1, slot)
  {
    ghost var ts := s.tasks;
    s.Wake((t: Task) => t.waitOn == Some(7));
    forall j: nat | j < MAX_TASKS && j != slot ensures !Eligible(s.tasks[j], j, 0, 1) {
      assert !Eligible(ts[slot := ts[slot].(waitOn := None)][j], j, 0, 1);
      assert s.tasks[j] == ts[j] || s.tasks[j] == ts[j].(state := Runnable);
    }
  }

  /** The state is reached: a kernel thread is allowed on processor 1, pinned to
      it, runs there, blocks and is woken. */
  method PinnedThreadIsLeftBehind() returns (s: Scheduler, slot: nat)
    ensures s.Valid() && LeftBehind(s.tasks, s.current, 0, 1, slot)
  {
    s := new Scheduler(0);
    slot := PinThread(s);
    RunThread(s, slot);
    Sleep(s, slot);
    WakeUp(s, slot);
  }
}

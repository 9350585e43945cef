/** What the scheduler does to tasks and masks, read off the task fields: where a
    task may wait, and who runs next. */
module Dispatching {
  import opened Common
  import opened Runqueue
  import opened Threads
  import opened Scheduler

  /** Slot `i` holds a bit in exactly the masks of the processors in `cpus`. */
  ghost predicate WaitsOn(s: Scheduler, i: nat, cpus: set<nat>)
    requires s.Valid()
    reads s, s.rqs, s.threads
  {
    forall c: nat | c < 64 :: i in s.rqs[c].mask <==> c in cpus
  }

  /** A new task waits on the boot processor and nowhere else, whoever owns it. */
  method CreateThenWaits(s: Scheduler, pid: nat, ownerLive: bool) returns (code: int, slot: nat)
    requires s.Valid() && 0 <= s.bsp < 64 && (pid == 0 ==> ownerLive)
    modifies s, s.rqs, s.threads
    ensures s.Valid() && slot < 32
    ensures code == 0 ==> WaitsOn(s, slot, {s.bsp}) && s.tasks[slot].pid == pid && s.tasks[slot].state == Runnable
                          && !s.tasks[slot].high && !s.tasks[slot].apOk && forall c: nat | c < 64 :: c in s.tasks[slot].affinity
    ensures code == 0 ==> forall c: nat, i: nat | c < 64 && i != slot :: i in s.rqs[c].mask <==> i in old(s.rqs[c].mask)
    ensures (exists i :: 1 <= i < 32 && old(s.tasks[i].state) == Unused) && ownerLive ==> code == 0
  {
    ghost var was := s.tasks;
    code, slot := s.Create(pid, ownerLive);
    if code == 0 {
      forall c: nat, i: nat | c < 64 && i != slot ensures i in s.rqs[c].mask <==> i in old(s.rqs[c].mask) {
        WantedUpdate(was, s.bsp, c, slot, s.tasks[slot]);
      }
      assert forall c: nat | c < 64 :: IsCpu(c);
    }
  }

  /** A kernel thread let loose waits on every processor of its affinity. */
  method AllowThenWaits(s: Scheduler, id: nat) returns (ok: bool, slot: int)
    requires s.Valid()
    modifies s, s.rqs
    ensures s.Valid() && Found(old(s.tasks), id, slot)
    ensures ok <==> id != 0 && slot >= 1 && old(s.tasks)[slot].pid == 0
    ensures ok ==> WaitsOn(s, slot, if old(s.tasks)[slot].state == Runnable then old(s.tasks)[slot].affinity else {})
  {
    ok, slot := s.AllowAp(id);
  }

  /** An affinity is refused exactly when it is empty or leaves out the boot processor
      for a task nobody else may run; otherwise the task waits there, as far as the
      other processors may run it. */
  method PinThenWaits(s: Scheduler, id: nat, cpus: set<nat>) returns (ok: bool, slot: int)
    requires s.Valid() && 0 <= s.bsp < 64 && forall c | c in cpus :: c < 64
    modifies s, s.rqs
    ensures s.Valid() && Found(old(s.tasks), id, slot)
    ensures ok <==> id != 0 && slot >= 1 && cpus != {}
                    && (s.bsp in cpus || (old(s.tasks)[slot].pid == 0 && old(s.tasks)[slot].apOk))
    ensures ok && old(s.tasks)[slot].state == Runnable ==>
              WaitsOn(s, slot, if old(s.tasks)[slot].pid == 0 && old(s.tasks)[slot].apOk then cpus else {s.bsp})
  {
    assert cpus <= AllCpus() by {
      assert forall c | c in cpus :: IsCpu(c);
    }
    ok, slot := s.SetAffinity(id, cpus);
    assert forall c: nat | c in cpus && slot >= 1 && old(s.tasks)[slot].pid == 0 && old(s.tasks)[slot].apOk ::
        Eligible(old(s.tasks)[slot].(affinity := cpus), slot, s.bsp, c);
    assert slot >= 1 && s.bsp in cpus ==> Eligible(old(s.tasks)[slot].(affinity := cpus), slot, s.bsp, s.bsp);
  }

  /** The task of slot `i` may run on processor `c`. */
  ghost predicate Suits(t: Task, i: nat, bsp: int, c: nat) {
    c in t.affinity && (c != bsp ==> i >= 1 && t.pid == 0 && t.apOk)
  }

  /** The task of slot `i`, running or waiting, may go on on processor `c`. */
  ghost predicate GoesOn(t: Task, i: nat, bsp: int, c: nat) {
    (t.state == Running || t.state == Runnable) && Suits(t, i, bsp, c)
  }

  /** Some other slot than `was` waits and suits the processor. */
  ghost predicate OtherWaits(ts: Tasks, bsp: int, me: nat, was: nat) {
    exists i: nat :: i < 32 && i != was && ts[i].state == Runnable && Suits(ts[i], i, bsp, me)
  }

  /** Processor `me` took slot `next`, which was waiting and suits it, and nothing else
      changed but the slot it ran before, `was`, which `left` describes now. */
  ghost predicate Took(ts: Tasks, bsp: int, me: nat, was: nat, next: nat, left: Task, ts': Tasks)
    requires was < 32 && next < 32
  {
    && ts[next].state == Runnable && Suits(ts[next], next, bsp, me)
    && ts'[next].state == Running && ts'[next].runCpu == Some(me) && ts'[next].pid == ts[next].pid
    && ts'[next].id == ts[next].id && ts'[next].tid == ts[next].tid
    && ts'[was] == left
    && forall i | 0 <= i < 32 && i != was && i != next :: ts'[i] == ts[i]
  }

  lemma DispatchShows(ts: Tasks, current: seq<nat>, bsp: int, me: nat, q: Queue, ts': Tasks, current': seq<nat>, q': Queue)
    requires me < |current| && current[me] < 32 && Dispatched(ts, current, bsp, me, q, ts', current', q')
    ensures |current'| == |current| && current' == current[me := current'[me]] && current'[me] < 32
    ensures var was, next := current[me], current'[me];
            && (next == was ==> ts' == ts)
            && (next != was ==>
                  Took(ts, bsp, me, was, next, if ts[was].state == Running then ts[was].(state := Runnable) else ts[was], ts'))
            && (OtherWaits(ts, bsp, me, was) && !GoesOn(ts[was], was, bsp, me) ==> next != was)
  {
    var was := current[me];
    var queued := Requeued(ts, was);
    if OtherWaits(ts, bsp, me, was) {
      var i: nat :| i < 32 && i != was && ts[i].state == Runnable && Suits(ts[i], i, bsp, me);
      assert Wanted(queued, bsp, me, i) && i in WantedOn(queued, bsp, me);
    }
  }

  /** A yield that switches takes a task that was waiting and suits the processor, and
      leaves the one it ran waiting; it never stays with a task that cannot go on while
      another one could. */
  method YieldThenRuns(s: Scheduler, me: nat) returns (was: nat, next: nat)
    requires s.Valid() && me < 64
    modifies s, s.rqs
    ensures s.Valid() && was == old(s.current)[me] && was < 32 && next < 32 && s.current == old(s.current)[me := next]
    ensures next == was ==> s.tasks == old(s.tasks)
    ensures next != was ==>
              Took(old(s.tasks), s.bsp, me, was, next,
                   if old(s.tasks)[was].state == Running then old(s.tasks)[was].(state := Runnable) else old(s.tasks)[was], s.tasks)
    ensures OtherWaits(old(s.tasks), s.bsp, me, was) && !GoesOn(old(s.tasks)[was], was, s.bsp, me) ==> next != was
  {
    ghost var ts, current, q := s.tasks, s.current, Queue(s.rqs[me].cursor, s.rqs[me].streak);
    was := s.current[me];
    s.Yield(me);
    next := s.current[me];
    DispatchShows(ts, current, s.bsp, me, q, s.tasks, s.current, Queue(s.rqs[me].cursor, s.rqs[me].streak));
  }

  lemma IdleShows(ts: Tasks, current: seq<nat>, bsp: int, me: nat, q: Queue, ts': Tasks, current': seq<nat>, q': Queue)
    requires me < |current| && current[me] < 32 && IdleRound(ts, current, bsp, me, q, ts', current', q')
    ensures |current'| == |current| && current' == current[me := current'[me]] && current'[me] < 32
    ensures var was, next := current[me], current'[me];
            && (next == was ==> ts' == ts)
            && (next != was ==> Took(ts, bsp, me, was, next, ts[was], ts'))
            && (OtherWaits(ts, bsp, me, was) && ts[was].state != Runnable ==> next != was)
  {
    var was := current[me];
    if WantedOn(ts, bsp, me) != {} {
      var pick: nat :| pick < 32 && Picks(WantedOn(ts, bsp, me), HighOf(ts), q, pick, q')
        && (if pick == current[me] then ts' == ts && current' == current
            else current' == current[me := pick] && ts' == ts[pick := Claimed(ts[pick], me)]);
    }
    if OtherWaits(ts, bsp, me, was) {
      var i: nat :| i < 32 && i != was && ts[i].state == Runnable && Suits(ts[i], i, bsp, me);
      assert Wanted(ts, bsp, me, i) && i in WantedOn(ts, bsp, me);
    }
  }

  /** The same for a round of the idle loop. */
  method IdleThenRuns(s: Scheduler, me: nat) returns (was: nat, next: nat)
    requires s.Valid() && me < 64
    modifies s, s.rqs
    ensures s.Valid() && was == old(s.current)[me] && was < 32 && next < 32 && s.current == old(s.current)[me := next]
    ensures next == was ==> s.tasks == old(s.tasks)
    ensures next != was ==> Took(old(s.tasks), s.bsp, me, was, next, old(s.tasks)[was], s.tasks)
    ensures OtherWaits(old(s.tasks), s.bsp, me, was) && old(s.tasks)[was].state != Runnable ==> next != was
  {
    ghost var ts, current, q := s.tasks, s.current, Queue(s.rqs[me].cursor, s.rqs[me].streak);
    was := s.current[me];
    var parked := s.ApIdle(me);
    next := s.current[me];
    IdleShows(ts, current, s.bsp, me, q, s.tasks, s.current, Queue(s.rqs[me].cursor, s.rqs[me].streak));
  }

  // -------------------------------------------------------------- migrations

  /** How often two neighbours in the list of processors a task ran on differ. */
  function Moves(cpus: seq<nat>): nat {
    if |cpus| < 2 then 0
    else Moves(cpus[..|cpus| - 1]) + if cpus[|cpus| - 1] != cpus[|cpus| - 2] then 1 else 0
  }

  /** A task after it was claimed by each of these processors in turn. */
  function ClaimedBy(t: Task, cpus: seq<nat>): Task {
    if cpus == [] then t else Claimed(ClaimedBy(t, cpus[..|cpus| - 1]), cpus[|cpus| - 1])
  }

  /** The migration counter of a task counts the changes of processor in its life. */
  lemma {:induction false} MigrationsCounted(id: nat, tid: nat, pid: nat, cpus: seq<nat>)
    ensures var t := ClaimedBy(Fresh(id, tid, pid), cpus);
            t.migrations == Moves(cpus) && t.runCpu == if cpus == [] then None else Some(cpus[|cpus| - 1])
  {
    if cpus != [] {
      MigrationsCounted(id, tid, pid, cpus[..|cpus| - 1]);
    }
  }

  /** One more yield of the boot processor while slot `i` waits: it is taken, or the
      cursor comes closer to it. */
  lemma DispatchCloser(ts: Tasks, current: seq<nat>, boot: nat, q: Queue, ts': Tasks, current': seq<nat>, q': Queue, i: nat)
    requires boot < |current| && current[boot] < 32 && i < 32 && i != current[boot]
    requires ts[i].state == Runnable && boot in ts[i].affinity
    requires ts[i].high || forall j | 0 <= j < 32 :: !ts[j].high
    requires Dispatched(ts, current, boot, boot, q, ts', current', q')
    ensures |current'| == |current| && forall j | 0 <= j < 32 :: ts'[j].high == ts[j].high
    ensures current'[boot] == i ==> ts'[i] == Claimed(ts[i], boot)
    ensures current'[boot] != i ==> ts'[i] == ts[i] && Dist(Folded(q'.cursor), i) < Dist(Folded(q.cursor), i)
  {
    var queued := Requeued(ts, current[boot]);
    var mask, high := WantedOn(queued, boot, boot), HighOf(queued);
    assert Wanted(queued, boot, boot, i) && i in mask;
    assert forall j | 0 <= j < 32 :: queued[j].high == ts[j].high;
    assert i in high || mask * high == {};
    if current'[boot] != i {
      PickComesCloser(Turn(mask, high, current'[boot]), q, q', i);
    }
  }

  method YieldCloser(s: Scheduler, boot: nat, i: nat)
    requires s.Valid() && s.bsp == boot < 64 && i < 32 && i != s.current[boot]
    requires s.tasks[i].state == Runnable && boot in s.tasks[i].affinity
    requires s.tasks[i].high || forall j | 0 <= j < 32 :: !s.tasks[j].high
    modifies s, s.rqs
    ensures s.Valid()
    ensures forall j | 0 <= j < 32 :: s.tasks[j].high == old(s.tasks)[j].high
    ensures s.current[boot] == i ==> s.tasks[i] == Claimed(old(s.tasks)[i], boot)
    ensures s.current[boot] != i ==>
              && s.tasks[i] == old(s.tasks)[i]
              && Dist(Folded(s.rqs[boot].cursor), i) < Dist(Folded(old(s.rqs[boot].cursor)), i)
  {
    ghost var ts, current, q := s.tasks, s.current, Queue(s.rqs[boot].cursor, s.rqs[boot].streak);
    s.Yield(boot);
    DispatchCloser(ts, current, boot, q, s.tasks, s.current, Queue(s.rqs[boot].cursor, s.rqs[boot].streak), i);
  }

  /** NO STARVATION ON THE BOOT PROCESSOR. A waiting task whose affinity includes it runs
      after at most 32 yields, whoever owns it, if it is high or nobody is. */
  method YieldUntilRuns(s: Scheduler, boot: nat, i: nat) returns (n: nat)
    requires s.Valid() && s.bsp == boot < 64 && i < 32 && i != s.current[boot]
    requires s.tasks[i].state == Runnable && boot in s.tasks[i].affinity
    requires s.tasks[i].high || forall j | 0 <= j < 32 :: !s.tasks[j].high
    modifies s, s.rqs
    ensures s.Valid() && 1 <= n <= 32
    ensures s.current[boot] == i && s.tasks[i].state == Running && s.tasks[i].pid == old(s.tasks)[i].pid
  {
    n := 0;
    while true
      invariant s.Valid() && i != s.current[boot] && s.tasks[i] == old(s.tasks)[i]
      invariant s.tasks[i].high || forall j | 0 <= j < 32 :: !s.tasks[j].high
      invariant n + Dist(Folded(s.rqs[boot].cursor), i) < 32
      decreases Dist(Folded(s.rqs[boot].cursor), i)
    {
      YieldCloser(s, boot, i);
      n := n + 1;
      if s.current[boot] == i {
        return;
      }
    }
  }

  /** The first user process, from an empty scheduler: created, and running. */
  method FirstProcess(pid: nat) returns (s: Scheduler, slot: nat)
    requires pid != 0
    ensures s.Valid() && slot < 32 && s.current[0] == slot && s.tasks[slot].pid == pid && s.tasks[slot].state == Running
  {
    s := new Scheduler(0);
    var code;
    assert s.tasks[1].state == Unused;
    code, slot := s.Create(pid, true);
    assert code == 0 && IsCpu(0);
    var n := YieldUntilRuns(s, 0, slot);
  }
}

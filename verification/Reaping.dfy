/** Process exit, thread allocation and wait as they interleave. The process
    guard and the scheduler lock are separate: exit marks a process a zombie under
    the guard alone and detaches its threads under both, while thread allocation
    reads the process state under the scheduler lock alone. */
module Reaping {
  import opened Threads

  datatype Process = Process(zombie: bool, parent: nat)

  /** Who holds the process guard, and how far it has come. */
  datatype Guard =
    | Released
    | Exiting(pid: nat, detached: bool)
    | Reaped(pid: nat)

  /** A thread allocation that has read its owner's state and not yet inserted. */
  datatype Allocation = Idle | Checked(pid: nat, live: bool)

  /** A task blocked in wait for one child, or for any. */
  datatype Wait = Wait(parent: nat, anyChild: bool, wanted: nat)

  datatype State = State(procs: map<nat, Process>, view: View, nextTid: nat,
                         guard: Guard, alloc: Allocation, blocked: map<nat, Wait>)

  ghost predicate Init(s: State) {
    s.procs == map[] && s.view == map[] && s.nextTid == 1
    && s.guard == Released && s.alloc == Idle && s.blocked == map[]
  }

  predicate Matches(w: Wait, pid: nat, p: Process) {
    p.parent == w.parent && (w.anyChild || pid == w.wanted)
  }

  datatype Step =
    | Create(pid: nat, parent: nat)
    | ExitMark(pid: nat)
    | ExitDetach
    | ExitWake
    | AllocCheck(pid: nat)
    | AllocInsert(room: bool)
    | ThreadEnd(tid: nat)
    | WaitGate(wait: Wait, pid: nat)
    | WaitReap
    | WaitBlock(task: nat, wait: Wait)
    | Wake(task: nat)

  ghost predicate Next(s: State, step: Step, s': State) {
    match step
    // a pid is given out when no process has it
    case Create(pid, parent) =>
      && s.guard == Released && pid != 0 && pid !in s.procs
      && s' == s.(procs := s.procs[pid := Process(false, parent)])
    case ExitMark(pid) =>
      && s.guard == Released && pid != 0 && pid in s.procs && !s.procs[pid].zombie
      && s' == s.(procs := s.procs[pid := s.procs[pid].(zombie := true)], guard := Exiting(pid, false))
    case ExitDetach =>
      && s.guard.Exiting? && !s.guard.detached && s.alloc == Idle
      && s' == s.(view := DetachedOf(s.view, s.guard.pid), guard := s.guard.(detached := true))
    // wakes every blocked task of the parent and drops the guard
    case ExitWake =>
      && s.guard.Exiting? && s.guard.detached && s.alloc == Idle && s.guard.pid in s.procs
      && s' == s.(blocked := map k | k in s.blocked && s.blocked[k].parent != s.procs[s.guard.pid].parent :: s.blocked[k],
                  guard := Released)
    case AllocCheck(pid) =>
      && s.alloc == Idle
      && s' == s.(alloc := Checked(pid, pid == 0 || (pid in s.procs && !s.procs[pid].zombie)))
    case AllocInsert(room) =>
      && s.alloc.Checked?
      && s' == if s.alloc.live && room
               then s.(view := s.view[s.nextTid := Thread(s.nextTid, s.alloc.pid, Active)],
                       nextTid := s.nextTid + 1, alloc := Idle)
               else s.(alloc := Idle)
    case ThreadEnd(tid) =>
      s.alloc == Idle && s' == s.(view := s.view - {tid})
    // a zombie child was found; the guard is kept only if no thread of it is active
    case WaitGate(w, pid) =>
      && s.guard == Released && s.alloc == Idle && pid in s.procs && s.procs[pid].zombie && Matches(w, pid, s.procs[pid])
      && s' == if ActiveOf(s.view, pid) == {} then s.(guard := Reaped(pid)) else s
    case WaitReap =>
      && s.guard.Reaped?
      && s' == s.(procs := s.procs - {s.guard.pid}, guard := Released)
    case WaitBlock(task, w) =>
      && s.guard == Released && s.alloc == Idle
      && (forall pid :: pid in s.procs && Matches(w, pid, s.procs[pid]) ==> !s.procs[pid].zombie)
      && s' == s.(blocked := s.blocked[task := w])
    case Wake(task) =>
      s.alloc == Idle && s' == s.(blocked := s.blocked - {task})
  }

  /** The process is gone for threads: not in the table, or a zombie whose exit
      has detached them. */
  ghost predicate Departed(s: State, pid: nat) {
    pid != 0 && (pid in s.procs ==> s.procs[pid].zombie && s.guard != Exiting(pid, false))
  }

  /** No thread can name a departed process: none is active and no allocation for
      it is past its check. */
  ghost predicate NoneLeft(s: State) {
    forall pid :: Departed(s, pid) ==> ActiveOf(s.view, pid) == {} && s.alloc != Checked(pid, true)
  }

  /** No lost wakeup: a task blocked in wait has a matching zombie child only
      while that child's exit still holds the guard. */
  ghost predicate NoneForgotten(s: State) {
    forall k, pid :: k in s.blocked && pid in s.procs && s.procs[pid].zombie && Matches(s.blocked[k], pid, s.procs[pid]) ==>
      s.guard.Exiting? && s.guard.pid == pid
  }

  ghost predicate Invariant(s: State) {
    && NoneLeft(s) && NoneForgotten(s) && 0 !in s.procs
    && (s.guard.Exiting? || s.guard.Reaped? ==>
          s.guard.pid != 0 && s.guard.pid in s.procs && s.procs[s.guard.pid].zombie)
    && (forall t :: t in s.view ==> t < s.nextTid && s.view[t].tid == t)
  }

  lemma InitHolds(s: State)
    requires Init(s)
    ensures Invariant(s)
  {
  }

  lemma DepartedBefore(s: State, step: Step, s': State, pid: nat)
    requires Invariant(s) && Next(s, step, s') && Departed(s', pid)
    ensures Departed(s, pid) || (step.ExitDetach? && s.guard == Exiting(pid, false))
  {
  }

  lemma ActiveKept(s: State, step: Step, s': State, pid: nat)
    requires Invariant(s) && Next(s, step, s') && Departed(s', pid)
    ensures ActiveOf(s'.view, pid) == {} && s'.alloc != Checked(pid, true)
  {
    DepartedBefore(s, step, s', pid);
    if Departed(s, pid) {
      assert ActiveOf(s.view, pid) == {};
      forall t | t in s'.view ensures !(s'.view[t].state.Active? && s'.view[t].owner == pid) {
        if t in s.view {
          assert t !in ActiveOf(s.view, pid);
        }
      }
    }
  }

  lemma StepKeepsNoneForgotten(s: State, step: Step, s': State)
    requires Invariant(s) && Next(s, step, s')
    ensures NoneForgotten(s')
  {
    forall k, pid | k in s'.blocked && pid in s'.procs && s'.procs[pid].zombie
                    && Matches(s'.blocked[k], pid, s'.procs[pid])
      ensures s'.guard.Exiting? && s'.guard.pid == pid
    {
      if k in s.blocked && s.blocked[k] == s'.blocked[k] && pid in s.procs && s.procs[pid] == s'.procs[pid] {
        assert s.guard.Exiting? && s.guard.pid == pid;
      }
    }
  }

  lemma StepHolds(s: State, step: Step, s': State)
    requires Invariant(s) && Next(s, step, s')
    ensures Invariant(s')
  {
    StepKeepsNoneForgotten(s, step, s');
    forall pid | Departed(s', pid) ensures ActiveOf(s'.view, pid) == {} && s'.alloc != Checked(pid, true) {
      ActiveKept(s, step, s', pid);
    }
  }

  // ---------------------------------------------------------- whole runs

  ghost predicate Run(states: seq<State>, steps: seq<Step>) {
    && |states| == |steps| + 1 && Init(states[0])
    && forall i :: 0 <= i < |steps| ==> Next(states[i], steps[i], states[i + 1])
  }

  lemma {:induction false} RunHolds(states: seq<State>, steps: seq<Step>, i: nat)
    requires Run(states, steps) && i < |states|
    ensures Invariant(states[i])
  {
    if i == 0 {
      InitHolds(states[0]);
    } else {
      RunHolds(states, steps, i - 1);
      StepHolds(states[i - 1], steps[i - 1], states[i]);
    }
  }

  lemma {:induction false} StaysDeparted(states: seq<State>, steps: seq<Step>, pid: nat, i: nat, j: nat)
    requires Run(states, steps) && i <= j < |states| && Departed(states[i], pid)
    requires forall k :: i <= k < j ==> !(steps[k].Create? && steps[k].pid == pid)
    ensures Departed(states[j], pid)
    decreases j
  {
    if i < j {
      StaysDeparted(states, steps, pid, i, j - 1);
      RunHolds(states, steps, j - 1);
      assert Next(states[j - 1], steps[j - 1], states[j]);
    }
  }

  /** Once a process has detached its threads, no active thread names it until
      its pid is given out again, whatever allocations race with the exit. */
  lemma NoThreadAfterExit(states: seq<State>, steps: seq<Step>, pid: nat, i: nat, j: nat)
    requires Run(states, steps) && i < j < |states|
    requires steps[i].ExitDetach? && states[i].guard == Exiting(pid, false)
    requires forall k :: i < k < j ==> !(steps[k].Create? && steps[k].pid == pid)
    ensures ActiveOf(states[j].view, pid) == {}
  {
    RunHolds(states, steps, i);
    assert Next(states[i], steps[i], states[i + 1]);
    assert Departed(states[i + 1], pid);
    StaysDeparted(states, steps, pid, i + 1, j);
    RunHolds(states, steps, j);
  }

  /** An address space is destroyed only with no active thread left, and the
      check that guards it never sends the parent back. */
  lemma ReapIsClean(states: seq<State>, steps: seq<Step>, i: nat)
    requires Run(states, steps) && i < |steps|
    ensures steps[i].WaitReap? ==> states[i].guard.Reaped? && ActiveOf(states[i].view, states[i].guard.pid) == {}
    ensures steps[i].WaitGate? ==> states[i + 1].guard == Reaped(steps[i].pid)
  {
    RunHolds(states, steps, i);
    assert Next(states[i], steps[i], states[i + 1]);
    if steps[i].WaitReap? {
      assert Departed(states[i], states[i].guard.pid);
    }
    if steps[i].WaitGate? {
      assert Departed(states[i], steps[i].pid);
    }
  }

  /** Step `i` of a run gives out thread id `tid`. */
  ghost predicate GivesOut(states: seq<State>, steps: seq<Step>, i: nat, tid: nat) {
    i < |steps| && |states| == |steps| + 1 && tid !in states[i].view && tid in states[i + 1].view
  }

  lemma GivesOutNext(states: seq<State>, steps: seq<Step>, i: nat, tid: nat)
    requires Run(states, steps) && GivesOut(states, steps, i, tid)
    ensures tid == states[i].nextTid && states[i + 1].nextTid == tid + 1
  {
    assert Next(states[i], steps[i], states[i + 1]);
  }

  /** A thread id given out once is never given out again. */
  lemma TidsNeverReused(states: seq<State>, steps: seq<Step>, i: nat, j: nat, tid: nat)
    requires Run(states, steps) && i < j && GivesOut(states, steps, i, tid)
    ensures !GivesOut(states, steps, j, tid)
  {
    GivesOutNext(states, steps, i, tid);
    if GivesOut(states, steps, j, tid) {
      TidsGrow(states, steps, i + 1, j);
      GivesOutNext(states, steps, j, tid);
    }
  }

  lemma {:induction false} TidsGrow(states: seq<State>, steps: seq<Step>, i: nat, j: nat)
    requires Run(states, steps) && i <= j < |states|
    ensures states[i].nextTid <= states[j].nextTid
    decreases j
  {
    if i < j {
      TidsGrow(states, steps, i, j - 1);
      assert Next(states[j - 1], steps[j - 1], states[j]);
    }
  }

  /** In every reachable state outside the process guard, no parent is blocked in
      wait while a child it waits for is a zombie. */
  lemma NoParentForgotten(states: seq<State>, steps: seq<Step>, i: nat, k: nat, pid: nat)
    requires Run(states, steps) && i < |states| && states[i].guard == Released
    requires k in states[i].blocked && pid in states[i].procs
    requires Matches(states[i].blocked[k], pid, states[i].procs[pid])
    ensures !states[i].procs[pid].zombie
  {
    RunHolds(states, steps, i);
  }

  // ------------------------------------------------------------------ progress

  /** Nobody holds the guard and no allocation is under way. */
  ghost predicate Quiet(s: State) {
    s.guard == Released && s.alloc == Idle
  }

  /** A live process can exit: three steps later it is a zombie, none of its threads is
      active, the others are as they were, and nobody of its parent's tasks is blocked in
      wait any more. */
  lemma ExitCompletes(s: State, pid: nat) returns (a: State, b: State, c: State)
    requires Invariant(s) && Quiet(s) && pid in s.procs && !s.procs[pid].zombie
    ensures Next(s, ExitMark(pid), a) && Next(a, ExitDetach, b) && Next(b, ExitWake, c) && Quiet(c)
    ensures c.procs == s.procs[pid := Process(true, s.procs[pid].parent)]
    ensures ActiveOf(c.view, pid) == {} && c.view.Keys == s.view.Keys
    ensures forall t | t in s.view && s.view[t].owner != pid :: c.view[t] == s.view[t]
    ensures forall k | k in c.blocked :: k in s.blocked && c.blocked[k] == s.blocked[k]
    ensures forall k | k in s.blocked :: k in c.blocked <==> s.blocked[k].parent != s.procs[pid].parent
  {
    a := s.(procs := s.procs[pid := s.procs[pid].(zombie := true)], guard := Exiting(pid, false));
    b := a.(view := DetachedOf(a.view, pid), guard := Exiting(pid, true));
    c := b.(blocked := map k | k in b.blocked && b.blocked[k].parent != b.procs[pid].parent :: b.blocked[k], guard := Released);
    StepHolds(s, ExitMark(pid), a);
    StepHolds(a, ExitDetach, b);
    StepHolds(b, ExitWake, c);
    assert Departed(c, pid);
  }

  /** A zombie child can be reaped by whoever waits for it, and then its pid is free. */
  lemma ReapCompletes(s: State, w: Wait, pid: nat) returns (a: State, b: State)
    requires Invariant(s) && Quiet(s) && pid in s.procs && s.procs[pid].zombie
    requires s.procs[pid].parent == w.parent && (w.anyChild || pid == w.wanted)
    ensures Next(s, WaitGate(w, pid), a) && Next(a, WaitReap, b) && Quiet(b)
    ensures b.procs == s.procs - {pid} && b.view == s.view && b.blocked == s.blocked
  {
    assert Departed(s, pid);
    a := s.(guard := Reaped(pid));
    b := a.(procs := a.procs - {pid}, guard := Released);
  }

  /** A thread for a live process, or for the kernel, in two steps, whatever exits are
      under way; a zombie gets none. */
  lemma AllocCompletes(s: State, pid: nat) returns (a: State, b: State)
    requires Invariant(s) && s.alloc == Idle
    ensures Next(s, AllocCheck(pid), a) && Next(a, AllocInsert(true), b) && b.alloc == Idle
    ensures pid == 0 || (pid in s.procs && !s.procs[pid].zombie) ==>
              b.view == s.view[s.nextTid := Thread(s.nextTid, pid, Active)] && b.nextTid == s.nextTid + 1
    ensures pid != 0 && (pid in s.procs ==> s.procs[pid].zombie) ==> b.view == s.view && b.nextTid == s.nextTid
  {
    var live := pid == 0 || (pid in s.procs && !s.procs[pid].zombie);
    a := s.(alloc := Checked(pid, live));
    b := if live then a.(view := a.view[a.nextTid := Thread(a.nextTid, pid, Active)], nextTid := a.nextTid + 1, alloc := Idle)
         else a.(alloc := Idle);
  }

  /** A task goes to sleep exactly when no child it waits for is a zombie. */
  lemma BlocksExactlyWhen(s: State, task: nat, w: Wait)
    requires Quiet(s)
    ensures (exists t :: Next(s, WaitBlock(task, w), t)) <==>
            !exists pid :: pid in s.procs && s.procs[pid].zombie && s.procs[pid].parent == w.parent && (w.anyChild || pid == w.wanted)
  {
    var t := s.(blocked := s.blocked[task := w]);
    if forall pid :: pid in s.procs && Matches(w, pid, s.procs[pid]) ==> !s.procs[pid].zombie {
      assert Next(s, WaitBlock(task, w), t);
    }
  }
}

/** The table of thread objects, one per live task slot. */
module Threads {

  const THREAD_MAX: nat := 64

  datatype ThreadState = Free | Active | Detached

  datatype Thread = Thread(tid: nat, owner: nat, state: ThreadState)

  /** What the table means: the live threads by their id. */
  type View = map<nat, Thread>

  ghost predicate IsView(threads: seq<Thread>, view: View) {
    && (forall i :: 0 <= i < |threads| && !threads[i].state.Free? ==>
          threads[i].tid in view && view[threads[i].tid] == threads[i])
    && (forall t :: t in view ==> exists i :: 0 <= i < |threads| && !threads[i].state.Free? && threads[i].tid == t)
  }

  ghost function DetachedOf(view: View, pid: nat): View {
    map t | t in view ::
      if view[t].owner == pid && view[t].state.Active? then view[t].(state := Detached) else view[t]
  }

  ghost function ActiveOf(view: View, pid: nat): set<nat> {
    set t | t in view && view[t].state.Active? && view[t].owner == pid
  }

  class ThreadTable {
    var threads: seq<Thread>
    var nextTid: nat
    ghost var view: View

    ghost predicate Valid()
      reads this
    {
      && |threads| == THREAD_MAX
      && (forall i, j :: 0 <= i < j < THREAD_MAX && !threads[i].state.Free? && !threads[j].state.Free? ==>
            threads[i].tid != threads[j].tid)
      && IsView(threads, view)
      && (forall t :: t in view ==> 0 < t < nextTid)
      && nextTid > 0
    }

    constructor ()
      ensures Valid() && view == map[] && nextTid == 1
    {
      threads := seq(THREAD_MAX, _ => Thread(0, 0, Free));
      nextTid := 1;
      view := map[];
    }

    /** Ids are handed out in ascending order and never again. The table is full
        only with 64 live threads. */
    method Alloc(owner: nat, ownerLive: bool) returns (code: int, tid: nat)
      requires Valid()
      modifies this
      ensures Valid()
      ensures code == 0 || code == -1 || code == -2
      ensures code == -1 <==> !ownerLive
      ensures code == -2 ==> |view| == THREAD_MAX
      ensures code != 0 ==> view == old(view) && nextTid == old(nextTid)
      ensures code == 0 ==> tid == old(nextTid) && nextTid == tid + 1 && tid !in old(view)
                            && view == old(view)[tid := Thread(tid, owner, Active)]
    {
      tid := 0;
      if !ownerLive {
        return -1, 0;
      }
      var i := 0;
      while i < THREAD_MAX
        invariant i <= THREAD_MAX
        invariant forall k :: 0 <= k < i ==> !threads[k].state.Free?
        invariant Valid() && view == old(view) && nextTid == old(nextTid) && threads == old(threads)
      {
        if threads[i].state.Free? {
          tid := nextTid;
          nextTid := nextTid + 1;
          ghost var was := threads;
          threads := threads[i := Thread(tid, owner, Active)];
          view := view[tid := Thread(tid, owner, Active)];
          forall t | t in view ensures exists k :: 0 <= k < |threads| && !threads[k].state.Free? && threads[k].tid == t {
            if t == tid {
              assert threads[i].tid == t;
            } else {
              var k :| 0 <= k < |was| && !was[k].state.Free? && was[k].tid == t;
              assert threads[k].tid == t;
            }
          }
          return 0, tid;
        }
        i := i + 1;
      }
      FullSize(threads, view);
      code := -2;
    }

    method Release(tid: nat)
      requires Valid()
      modifies this
      ensures Valid() && view == old(view) - {tid} && nextTid == old(nextTid)
    {
      if tid == 0 {
        return;
      }
      var i := 0;
      while i < THREAD_MAX
        invariant i <= THREAD_MAX
        invariant forall k :: 0 <= k < i ==> threads[k].state.Free? || threads[k].tid != tid
        invariant Valid() && view == old(view) && nextTid == old(nextTid) && threads == old(threads)
      {
        if !threads[i].state.Free? && threads[i].tid == tid {
          ghost var was := threads;
          threads := threads[i := Thread(0, 0, Free)];
          view := view - {tid};
          forall t | t in view ensures exists k :: 0 <= k < |threads| && !threads[k].state.Free? && threads[k].tid == t {
            var k :| 0 <= k < |was| && !was[k].state.Free? && was[k].tid == t;
            assert threads[k].tid == t;
          }
          return;
        }
        i := i + 1;
      }
      assert tid !in view;
    }

    /** Every active thread of the process is detached, nothing else changes. */
    method DetachPid(pid: nat)
      requires Valid()
      modifies this`threads, this`view
      ensures Valid() && view == DetachedOf(old(view), pid)
    {
      ghost var was := threads;
      var i := 0;
      while i < THREAD_MAX
        invariant i <= THREAD_MAX && |threads| == |was|
        invariant view == old(view)
        invariant forall k :: 0 <= k < THREAD_MAX ==>
                    threads[k] == if k < i && was[k].state.Active? && was[k].owner == pid
                                  then was[k].(state := Detached) else was[k]
      {
        if threads[i].state.Active? && threads[i].owner == pid {
          threads := threads[i := threads[i].(state := Detached)];
        }
        i := i + 1;
      }
      view := DetachedOf(view, pid);
      forall t | t in view ensures exists k :: 0 <= k < |threads| && !threads[k].state.Free? && threads[k].tid == t {
        var k :| 0 <= k < |was| && !was[k].state.Free? && was[k].tid == t;
        assert threads[k].tid == t;
      }
    }

    /** The number of active threads of the process. */
    method Count(pid: nat) returns (n: nat)
      requires Valid()
      ensures n == |ActiveOf(view, pid)|
    {
      n := 0;
      ghost var seen: set<nat> := {};
      var i := 0;
      while i < THREAD_MAX
        invariant i <= THREAD_MAX && n == |seen|
        invariant forall t :: t in seen <==>
                    exists k :: 0 <= k < i && threads[k].state.Active? && threads[k].owner == pid && threads[k].tid == t
      {
        if threads[i].state.Active? && threads[i].owner == pid {
          n := n + 1;
          seen := seen + {threads[i].tid};
        }
        i := i + 1;
      }
      assert seen == ActiveOf(view, pid);
    }
  }

  lemma {:induction false} FullPrefix(threads: seq<Thread>, n: nat) returns (tids: set<nat>)
    requires n <= |threads|
    requires forall i :: 0 <= i < n ==> !threads[i].state.Free?
    requires forall i, j :: 0 <= i < j < |threads| && !threads[i].state.Free? && !threads[j].state.Free? ==>
               threads[i].tid != threads[j].tid
    ensures |tids| == n && forall t :: t in tids <==> exists i :: 0 <= i < n && threads[i].tid == t
    decreases n
  {
    if n == 0 {
      tids := {};
    } else {
      var rest := FullPrefix(threads, n - 1);
      tids := rest + {threads[n - 1].tid};
      forall t ensures t in tids <==> exists i :: 0 <= i < n && threads[i].tid == t {
        if t == threads[n - 1].tid {
          assert threads[n - 1].tid == t;
        }
      }
    }
  }

  /** No free slot means a live thread per slot. */
  lemma FullSize(threads: seq<Thread>, view: View)
    requires |threads| == THREAD_MAX && IsView(threads, view)
    requires forall i :: 0 <= i < THREAD_MAX ==> !threads[i].state.Free?
    requires forall i, j :: 0 <= i < j < |threads| && !threads[i].state.Free? && !threads[j].state.Free? ==>
               threads[i].tid != threads[j].tid
    ensures |view| == THREAD_MAX
  {
    var tids := FullPrefix(threads, THREAD_MAX);
    forall t ensures t in tids <==> t in view.Keys {
      if t in tids {
        var i :| 0 <= i < THREAD_MAX && threads[i].tid == t;
      }
    }
    assert tids == view.Keys;
  }
}

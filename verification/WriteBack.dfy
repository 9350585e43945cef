/** Write-back of cached sectors while other processors hit the same entries. The
    cache lock is dropped during the device write, so the entry may be read or
    overwritten between the start and the end of its write-back. */
module WriteBack {
  import opened Bytes
  import opened BlockCache

  /** A write-back under way for a slot: what was copied, and whether the device
      has it. */
  datatype Flight = Flight(evict: bool, data: bytes, age: nat, landed: bool)

  /** `seen` is what callers have last written or would read. */
  datatype State = State(slots: seq<Slot>, store: map<Key, bytes>, clock: nat, flights: map<nat, Flight>,
                         seen: map<Key, bytes>)

  datatype Step =
    | Begin(i: nat, evict: bool)
    | Land(i: nat)
    | Damage(i: nat, data: bytes)
    | FinishOk(i: nat)
    | FinishFail(i: nat)
    | DropClean(i: nat)
    | HitRead(i: nat)
    | HitWrite(i: nat, data: bytes)
    | Fill(i: nat, key: Key, data: bytes)

  function Finished(s: Slot, f: Flight, ok: bool): Slot {
    if f.evict then
      if s.age != f.age then (if ok then s.(writeback := false) else s)
      else if ok then Emptied(s) else s.(writeback := false)
    else s.(writeback := false, dirty := s.dirty && !(ok && s.age == f.age))
  }

  ghost predicate Next(s: State, step: Step, s': State) {
    && step.i < |s.slots|
    && var i, slot := step.i, s.slots[step.i];
       match step
       case Begin(_, evict) =>
         && slot.valid && slot.dirty && !slot.writeback && (evict ==> IsVictim(s.slots, i))
         && s' == s.(slots := s.slots[i := slot.(writeback := true)],
                     flights := s.flights[i := Flight(evict, slot.data, slot.age, false)])
       case Land(_) =>
         && i in s.flights && !s.flights[i].landed && slot.key in s.store
         && s' == s.(store := s.store[slot.key := s.flights[i].data],
                     flights := s.flights[i := s.flights[i].(landed := true)])
       // a failed write may leave anything in the sector
       case Damage(_, data) =>
         && i in s.flights && !s.flights[i].landed && slot.key in s.store
         && s' == s.(store := s.store[slot.key := data])
       case FinishOk(_) =>
         && i in s.flights && s.flights[i].landed
         && s' == s.(slots := s.slots[i := Finished(slot, s.flights[i], true)], flights := s.flights - {i})
       case FinishFail(_) =>
         && i in s.flights && !s.flights[i].landed
         && s' == s.(slots := s.slots[i := Finished(slot, s.flights[i], false)], flights := s.flights - {i})
       case DropClean(_) =>
         && slot.valid && !slot.dirty && IsVictim(s.slots, i)
         && s' == s.(slots := s.slots[i := Emptied(slot)])
       case HitRead(_) =>
         && slot.valid
         && s' == s.(slots := s.slots[i := slot.(age := s.clock + 1)], clock := s.clock + 1)
       case HitWrite(_, data) =>
         && slot.valid
         && s' == s.(slots := s.slots[i := slot.(data := data, dirty := true, age := s.clock + 1)],
                     clock := s.clock + 1, seen := s.seen[slot.key := data])
       // a write of a sector that is not cached, with no other such write between
       // its lookup and its fill
       case Fill(_, key, data) =>
         && !slot.valid && IsVictim(s.slots, i) && key in s.store && !Cached(s.slots, key)
         && s' == Filling(s, i, key, data)
  }

  function Filling(s: State, i: nat, key: Key, data: bytes): State
    requires i < |s.slots|
  {
    s.(slots := s.slots[i := Slot(key, true, true, false, data, s.clock + 1)], clock := s.clock + 1, seen := s.seen[key := data])
  }

  ghost predicate SlotHolds(s: State, i: nat)
    requires i < |s.slots|
  {
    var slot := s.slots[i];
    && SlotOk(slot, s.seen, s.store, s.clock)
    && (i in s.flights ==>
          var f := s.flights[i];
          && slot.valid && slot.dirty && slot.writeback && f.age <= slot.age
          && (f.age == slot.age ==> f.data == slot.data)
          && (f.landed ==> slot.key in s.store && s.store[slot.key] == f.data))
  }

  /** Callers see the cached data where there is an entry, the device elsewhere;
      clean entries agree with the device. */
  ghost predicate Invariant(s: State) {
    && Distinct(s.slots)
    && (forall i: nat :: i < |s.slots| ==> SlotHolds(s, i))
    && (forall i :: i in s.flights ==> i < |s.slots|)
    && (forall k :: k in s.store && !Cached(s.slots, k) ==> k in s.seen && s.seen[k] == s.store[k])
    && (forall k :: k in s.seen ==> k in s.store || Cached(s.slots, k))
  }

  // -------------------------------------------------------- one step

  lemma SlotsKept(s: State, step: Step, s': State, j: nat)
    requires Invariant(s) && Next(s, step, s') && j < |s'.slots|
    ensures SlotHolds(s', j)
  {
    if step.Fill? {
      FillKept(s, step.i, step.key, step.data, j);
    } else {
      assert SlotHolds(s, j) && SlotHolds(s, step.i);
      if j != step.i && s.slots[j].valid && s.slots[step.i].valid {
        assert s.slots[j].key != s.slots[step.i].key;
      }
    }
  }

  lemma FillKept(s: State, i: nat, key: Key, data: bytes, j: nat)
    requires Invariant(s) && i < |s.slots| && !s.slots[i].valid && !Cached(s.slots, key) && j < |s.slots|
    ensures SlotHolds(Filling(s, i, key, data), j)
  {
    assert SlotHolds(s, j) && SlotHolds(s, i);
    assert s.slots[j].valid ==> s.slots[j].key != key;
  }

  /** A fill keeps sectors in one entry each exactly when the sector had none: two
      writes of one sector that both looked before either filled leave two entries. */
  lemma FillDistinctExactlyWhen(s: State, i: nat, key: Key, data: bytes)
    requires Distinct(s.slots) && i < |s.slots| && !s.slots[i].valid
    ensures Distinct(Filling(s, i, key, data).slots) <==> !Cached(s.slots, key)
  {
    var slots' := Filling(s, i, key, data).slots;
    if j :| 0 <= j < |s.slots| && s.slots[j].valid && s.slots[j].key == key {
      assert slots'[j].valid && slots'[j].key == slots'[i].key && j != i;
    }
  }

  lemma CachedKept(s: State, step: Step, s': State, k: Key)
    requires Invariant(s) && Next(s, step, s')
    ensures Cached(s'.slots, k) ==> Cached(s.slots, k) || (step.Fill? && step.key == k)
    ensures step.Fill? ==> Cached(s'.slots, step.key)
    ensures Cached(s.slots, k) && !Cached(s'.slots, k) ==>
              s.slots[step.i].valid && s.slots[step.i].key == k && !s'.slots[step.i].valid
  {
    var i := step.i;
    if step.Fill? {
      assert s'.slots[i].valid && s'.slots[i].key == step.key;
    }
    if Cached(s'.slots, k) {
      var j :| 0 <= j < |s'.slots| && s'.slots[j].valid && s'.slots[j].key == k;
      assert (s.slots[j].valid && s.slots[j].key == k) || (step.Fill? && step.key == k);
    }
    if Cached(s.slots, k) {
      var j :| 0 <= j < |s.slots| && s.slots[j].valid && s.slots[j].key == k;
      if j != i || s'.slots[i].valid {
        assert s'.slots[j].valid && s'.slots[j].key == k;
      }
    }
  }

  lemma UncachedKept(s: State, step: Step, s': State, k: Key)
    requires Invariant(s) && Next(s, step, s') && k in s'.store && !Cached(s'.slots, k)
    ensures k in s'.seen && s'.seen[k] == s'.store[k]
  {
    CachedKept(s, step, s', k);
    var i := step.i;
    assert SlotHolds(s, i);
    if s.slots[i].valid && s.slots[i].key == k {
      assert Cached(s.slots, k);
    }
  }

  lemma StepHolds(s: State, step: Step, s': State)
    requires Invariant(s) && Next(s, step, s')
    ensures Invariant(s')
  {
    forall j: nat | j < |s'.slots| ensures SlotHolds(s', j) {
      SlotsKept(s, step, s', j);
    }
    if step.Fill? {
      FillDistinctExactlyWhen(s, step.i, step.key, step.data);
    }
    forall k | k in s'.store && !Cached(s'.slots, k) ensures k in s'.seen && s'.seen[k] == s'.store[k] {
      UncachedKept(s, step, s', k);
    }
    forall k | k in s'.seen ensures k in s'.store || Cached(s'.slots, k) {
      CachedKept(s, step, s', k);
      assert SlotHolds(s, step.i);
      if s.slots[step.i].valid && s.slots[step.i].key == k {
        assert Cached(s.slots, k);
      }
    }
  }

  // -------------------------------------------------------- whole runs

  ghost predicate Run(states: seq<State>, steps: seq<Step>) {
    && |states| == |steps| + 1 && Invariant(states[0])
    && forall n :: 0 <= n < |steps| ==> Stepped(states, steps, n)
  }

  ghost predicate Stepped(states: seq<State>, steps: seq<Step>, n: nat) {
    n < |steps| && n + 1 < |states| && Next(states[n], steps[n], states[n + 1])
  }

  lemma {:induction false} RunHolds(states: seq<State>, steps: seq<Step>, n: nat)
    requires Run(states, steps) && n < |states|
    ensures Invariant(states[n])
  {
    if n > 0 {
      RunHolds(states, steps, n - 1);
      assert Stepped(states, steps, n - 1);
      StepHolds(states[n - 1], steps[n - 1], states[n]);
    }
  }

  /** Only writes change what callers see; no write-back, eviction or failed
      device request does. */
  lemma OnlyWritesAreSeen(states: seq<State>, steps: seq<Step>, n: nat, k: Key)
    requires Run(states, steps) && n < |steps|
    ensures Invariant(states[n + 1]) && steps[n].i < |states[n].slots|
    ensures !(steps[n].HitWrite? && states[n].slots[steps[n].i].key == k) && !(steps[n].Fill? && steps[n].key == k) ==>
              (k in states[n].seen <==> k in states[n + 1].seen)
              && (k in states[n].seen ==> states[n + 1].seen[k] == states[n].seen[k])
  {
    RunHolds(states, steps, n + 1);
    assert Stepped(states, steps, n);
  }

  /** The write-back that began in step `a` is under way through step `b`. */
  ghost predicate UnderWay(states: seq<State>, steps: seq<Step>, i: nat, a: nat, b: nat)
    requires |states| == |steps| + 1
  {
    && a < b < |steps| && steps[a].Begin? && steps[a].i == i
    && forall n :: a < n < b ==> !((steps[n].FinishOk? || steps[n].FinishFail?) && steps[n].i == i)
  }

  /** A step during a write-back: the copy keeps its age, the entry only grows
      younger, and a write makes it younger than the copy. */
  lemma DuringFlight(s: State, step: Step, s': State, i: nat)
    requires Invariant(s) && Next(s, step, s') && i in s.flights
    requires !((step.FinishOk? || step.FinishFail?) && step.i == i)
    ensures i < |s.slots| == |s'.slots| && i in s'.flights && s'.flights[i].age == s.flights[i].age
    ensures s'.slots[i].age >= s.slots[i].age
    ensures step.HitWrite? && step.i == i ==> s'.slots[i].age > s.flights[i].age
  {
    assert SlotHolds(s, i);
  }

  lemma {:induction false} FlightLasts(states: seq<State>, steps: seq<Step>, i: nat, a: nat, b: nat, n: nat)
    requires Run(states, steps) && UnderWay(states, steps, i, a, b) && a < n <= b
    ensures i in states[n].flights
  {
    assert Stepped(states, steps, n - 1);
    if n - 1 > a {
      FlightLasts(states, steps, i, a, b, n - 1);
      RunHolds(states, steps, n - 1);
      DuringFlight(states[n - 1], steps[n - 1], states[n], i);
    }
  }

  /** Overwritten at `w`, while under way: from then on the entry is younger than
      the copy. */
  lemma {:induction false} Younger(states: seq<State>, steps: seq<Step>, i: nat, a: nat, b: nat, w: nat, n: nat)
    requires Run(states, steps) && UnderWay(states, steps, i, a, b) && a < w < n <= b
    requires steps[w].HitWrite? && steps[w].i == i
    ensures i < |states[n].slots| && i in states[n].flights && states[n].slots[i].age > states[n].flights[i].age
    decreases n
  {
    RunHolds(states, steps, n - 1);
    FlightLasts(states, steps, i, a, b, n - 1);
    assert Stepped(states, steps, n - 1);
    DuringFlight(states[n - 1], steps[n - 1], states[n], i);
    if n - 1 > w {
      Younger(states, steps, i, a, b, w, n - 1);
    }
  }

  /** An entry overwritten while its write-back was under way is never marked
      clean or discarded when that write-back ends. */
  lemma OverwrittenSurvives(states: seq<State>, steps: seq<Step>, i: nat, a: nat, b: nat, w: nat)
    requires Run(states, steps) && UnderWay(states, steps, i, a, b) && a < w < b
    requires steps[w].HitWrite? && steps[w].i == i && (steps[b].FinishOk? || steps[b].FinishFail?) && steps[b].i == i
    ensures i < |states[b].slots| == |states[b + 1].slots|
    ensures states[b + 1].slots[i].valid && states[b + 1].slots[i].dirty
    ensures states[b + 1].slots[i].data == states[b].slots[i].data
  {
    Younger(states, steps, i, a, b, w, b);
    RunHolds(states, steps, b);
    assert SlotHolds(states[b], i);
    assert Stepped(states, steps, b);
  }

  /** Nobody reads or writes the entry while its write-back is under way. */
  ghost predicate Untouched(steps: seq<Step>, i: nat, a: nat, b: nat) {
    forall n | a < n < b < |steps| :: !((steps[n].HitRead? || steps[n].HitWrite?) && steps[n].i == i)
  }

  lemma FlightQuiet(s: State, step: Step, s': State, i: nat)
    requires Invariant(s) && Next(s, step, s') && i in s.flights
    requires !((step.FinishOk? || step.FinishFail?) && step.i == i) && !((step.HitRead? || step.HitWrite?) && step.i == i)
    ensures i < |s.slots| == |s'.slots| && s'.slots[i] == s.slots[i] && i in s'.flights
    ensures s'.flights[i].age == s.flights[i].age && s'.flights[i].evict == s.flights[i].evict
  {
    assert SlotHolds(s, i);
  }

  lemma {:induction false} SameAge(states: seq<State>, steps: seq<Step>, i: nat, a: nat, b: nat, n: nat)
    requires Run(states, steps) && UnderWay(states, steps, i, a, b) && Untouched(steps, i, a, b) && a < n <= b
    ensures i < |states[a].slots| == |states[n].slots| && i in states[n].flights
    ensures states[n].flights[i].age == states[n].slots[i].age && states[n].flights[i].evict == steps[a].evict
    ensures states[n].slots[i] == states[a].slots[i].(writeback := true)
    decreases n
  {
    assert Stepped(states, steps, n - 1);
    if n - 1 > a {
      SameAge(states, steps, i, a, b, n - 1);
      RunHolds(states, steps, n - 1);
      FlightQuiet(states[n - 1], steps[n - 1], states[n], i);
    }
  }

  /** An entry nobody used while it was written back is on the device when that ends
      well: then it is clean, or gone if it was to be evicted. */
  lemma UntouchedIsWritten(states: seq<State>, steps: seq<Step>, i: nat, a: nat, b: nat)
    requires Run(states, steps) && UnderWay(states, steps, i, a, b) && Untouched(steps, i, a, b)
    requires steps[b].FinishOk? && steps[b].i == i
    ensures i < |states[a].slots| == |states[b + 1].slots|
    ensures var was, now := states[a].slots[i], states[b + 1].slots[i];
            && was.key in states[b + 1].store && states[b + 1].store[was.key] == was.data
            && now.valid == !steps[a].evict && (now.valid ==> now == was.(dirty := false))
  {
    SameAge(states, steps, i, a, b, b);
    RunHolds(states, steps, b);
    assert SlotHolds(states[b], i);
    assert Stepped(states, steps, a);
    assert Stepped(states, steps, b);
  }

  /** Every dirty entry not being written back can be written back. */
  lemma WriteBackPossible(s: State, i: nat) returns (a: State, b: State, c: State)
    requires Invariant(s) && i < |s.slots| && s.slots[i].valid && s.slots[i].dirty && !s.slots[i].writeback
    requires s.slots[i].key in s.store
    ensures Next(s, Begin(i, false), a) && Next(a, Land(i), b) && Next(b, FinishOk(i), c)
    ensures c.slots == s.slots[i := s.slots[i].(dirty := false)] && c.store == s.store[s.slots[i].key := s.slots[i].data]
    ensures c.flights == s.flights - {i} && c.seen == s.seen
  {
    var slot := s.slots[i];
    assert SlotHolds(s, i);
    a := s.(slots := s.slots[i := slot.(writeback := true)], flights := s.flights[i := Flight(false, slot.data, slot.age, false)]);
    b := a.(store := a.store[slot.key := slot.data], flights := a.flights[i := a.flights[i].(landed := true)]);
    c := b.(slots := b.slots[i := Finished(b.slots[i], b.flights[i], true)], flights := b.flights - {i});
    assert c.flights == s.flights - {i};
  }

  // ------------------------------------------------- flags that stay behind

  /** Marked as being written back with no write-back under way. */
  ghost predicate Stuck(s: State, i: nat) {
    i < |s.slots| && s.slots[i].valid && s.slots[i].dirty && s.slots[i].writeback && i !in s.flights
  }

  /** The end of a write-back leaves the flag behind exactly when an eviction
      failed and the entry was used meanwhile. */
  lemma StuckExactlyWhen(s: State, step: Step, s': State)
    requires Invariant(s) && Next(s, step, s') && (step.FinishOk? || step.FinishFail?)
    ensures step.i in s.flights
    ensures Stuck(s', step.i) <==>
            step.FinishFail? && s.flights[step.i].evict && s.slots[step.i].age != s.flights[step.i].age
  {
    assert SlotHolds(s, step.i);
  }

  /** Such an entry is never written back again. */
  lemma {:induction false} StuckForever(states: seq<State>, steps: seq<Step>, i: nat, a: nat, n: nat)
    requires Run(states, steps) && a <= n < |states| && Stuck(states[a], i)
    ensures Stuck(states[n], i)
    decreases n
  {
    if a < n {
      StuckForever(states, steps, i, a, n - 1);
      assert Stepped(states, steps, n - 1);
    }
  }

  /** What ends the flush loop: nothing left that it would write. */
  ghost predicate NothingToFlush(s: State, device: nat) {
    forall i :: 0 <= i < |s.slots| ==> !(DirtyFor(s.slots[i], device) && !s.slots[i].writeback)
  }

  ghost predicate OnDevice(s: State, device: nat) {
    forall k :: k in s.seen && k.device == device ==> k in s.store && s.store[k] == s.seen[k]
  }

  /** EXACT CONDITION. When the flush loop finds nothing more to write, the device has
      everything exactly when every dirty entry of it that is flagged as being written
      back has its data there already. */
  lemma FlushedExactlyWhen(s: State, device: nat)
    requires Invariant(s) && NothingToFlush(s, device)
    ensures OnDevice(s, device) <==>
            forall i: nat :: i < |s.slots| && DirtyFor(s.slots[i], device) && s.slots[i].writeback ==> Landed(s, i)
  {
    forall i: nat | i < |s.slots| && DirtyFor(s.slots[i], device) ensures s.slots[i].key in s.seen && s.seen[s.slots[i].key] == s.slots[i].data {
      assert SlotHolds(s, i);
    }
    if forall i: nat :: i < |s.slots| && DirtyFor(s.slots[i], device) && s.slots[i].writeback ==> Landed(s, i) {
      forall k | k in s.seen && k.device == device ensures k in s.store && s.store[k] == s.seen[k] {
        if Cached(s.slots, k) {
          var i :| 0 <= i < |s.slots| && s.slots[i].valid && s.slots[i].key == k;
          assert SlotHolds(s, i);
        }
      }
    }
  }

  /** The device holds the entry's data. */
  ghost predicate Landed(s: State, i: nat)
    requires i < |s.slots|
  {
    s.slots[i].key in s.store && s.store[s.slots[i].key] == s.slots[i].data
  }

  // ---------------------------------------------- a flush that misses a write

  /** Sector 0 of device 0, and sectors 1 to 63 of device 1. */
  function Nth(j: nat): Key {
    Key(if j == 0 then 0 else 1, j)
  }

  function NthSlot(n: nat, j: nat): Slot {
    if j < n then Slot(Nth(j), true, true, false, [1], j + 1) else Slot(Key(0, 0), false, false, false, [], 0)
  }

  /** A cache after writes to the first `n` of these sectors, which all held zeros. */
  ghost function Written(n: nat): State
    requires n <= ENTRIES
  {
    State(seq(ENTRIES, j requires 0 <= j < ENTRIES => NthSlot(n, j)),
          map k: Key | k in Sectors() :: [0],
          n, map[],
          map k: Key | k in Sectors() :: if k.sector < n then [1] else [0])
  }

  ghost function Sectors(): set<Key> {
    set j: nat | j < ENTRIES :: Nth(j)
  }

  lemma EmptyCache()
    ensures Invariant(Written(0))
  {
    var s := Written(0);
    assert s.seen == s.store;
  }

  lemma WriteNext(n: nat)
    requires n < ENTRIES
    ensures Next(Written(n), Fill(n, Nth(n), [1]), Written(n + 1))
  {
    var s, t := Written(n), Filling(Written(n), n, Nth(n), [1]);
    assert Nth(n) in Sectors();
    assert t.slots == Written(n + 1).slots;
    forall k | k in t.seen ensures t.seen[k] == Written(n + 1).seen[k] {
    }
    assert t.seen == Written(n + 1).seen;
  }

  /** Slot 0 of a full cache with its write-back flag and age. */
  ghost function Full(flag: bool, age: nat, clock: nat, flights: map<nat, Flight>): State {
    var s := Written(ENTRIES);
    s.(slots := s.slots[0 := s.slots[0].(writeback := flag, age := age)], clock := clock, flights := flights)
  }

  lemma FailedEviction()
    ensures Next(Written(ENTRIES), Begin(0, true), Full(true, 1, ENTRIES, map[0 := Flight(true, [1], 1, false)]))
    ensures Next(Full(true, 1, ENTRIES, map[0 := Flight(true, [1], 1, false)]), HitRead(0),
                 Full(true, ENTRIES + 1, ENTRIES + 1, map[0 := Flight(true, [1], 1, false)]))
    ensures Next(Full(true, ENTRIES + 1, ENTRIES + 1, map[0 := Flight(true, [1], 1, false)]), FinishFail(0),
                 Full(true, ENTRIES + 1, ENTRIES + 1, map[]))
  {
    assert map[0 := Flight(true, [1], 1, false)] - {0} == map[];
  }

  lemma MissedByFlush(s: State)
    requires s == Full(true, ENTRIES + 1, ENTRIES + 1, map[])
    ensures NothingToFlush(s, 0) && Stuck(s, 0) && !OnDevice(s, 0)
  {
    assert Nth(0) in Sectors();
    assert Nth(0) in s.seen && s.store[Nth(0)] != s.seen[Nth(0)];
  }

  /** Starting from an empty cache: 64 writes fill it, the eviction of the oldest entry
      fails while somebody reads that entry, and a flush of its device then reports
      success although the device never got the data. */
  lemma FlushMissesStuck() returns (states: seq<State>, steps: seq<Step>)
    ensures Run(states, steps) && states[0] == Written(0)
    ensures (var last := states[|steps|]; NothingToFlush(last, 0) && Stuck(last, 0) && !OnDevice(last, 0))
  {
    var flight := map[0 := Flight(true, [1], 1, false)];
    var a, b, c := Full(true, 1, ENTRIES, flight), Full(true, ENTRIES + 1, ENTRIES + 1, flight), Full(true, ENTRIES + 1, ENTRIES + 1, map[]);
    var fills, filled := seq(ENTRIES, n requires 0 <= n < ENTRIES => Fill(n, Nth(n), [1])), seq(ENTRIES + 1, n requires 0 <= n <= ENTRIES => Written(n));
    EmptyCache();
    FailedEviction();
    MissedByFlush(c);
    states, steps := filled + [a, b, c], fills + [Begin(0, true), HitRead(0), FinishFail(0)];
    forall n | 0 <= n < |steps| ensures Stepped(states, steps, n) {
      if n < ENTRIES {
        WriteNext(n);
      }
    }
  }
}

/** The write-back sector cache, one call at a time: it behaves like the plain
    store of sectors behind it. */
module BlockCache {
  import opened Bytes

  const ENTRIES: nat := 64

  /** A sector of a device. */
  datatype Key = Key(device: nat, sector: nat)

  datatype Slot = Slot(key: Key, valid: bool, dirty: bool, writeback: bool, data: bytes, age: nat)

  function Emptied(s: Slot): Slot {
    Slot(Key(0, 0), false, false, false, s.data, 0)
  }

  ghost predicate Distinct(slots: seq<Slot>) {
    forall i, j :: 0 <= i < j < |slots| && slots[i].valid && slots[j].valid ==> slots[i].key != slots[j].key
  }

  ghost predicate Cached(slots: seq<Slot>, k: Key) {
    exists i :: 0 <= i < |slots| && slots[i].valid && slots[i].key == k
  }

  /** What one valid slot must satisfy: it shows the contents, and a clean one
      agrees with the device. */
  ghost predicate SlotOk(s: Slot, contents: map<Key, bytes>, store: map<Key, bytes>, clock: nat) {
    s.valid ==>
      && s.key in contents && contents[s.key] == s.data && s.age <= clock
      && (!s.dirty ==> s.key in store && store[s.key] == s.data)
  }

  ghost predicate Refines(slots: seq<Slot>, contents: map<Key, bytes>, store: map<Key, bytes>, clock: nat) {
    && Distinct(slots)
    && (forall i :: 0 <= i < |slots| ==> SlotOk(slots[i], contents, store, clock) && !slots[i].writeback)
    && (forall k :: k in store && !Cached(slots, k) ==> k in contents && contents[k] == store[k])
    && (forall k :: k in contents ==> k in store || Cached(slots, k))
  }

  /** The slot to reuse: a free one if there is any, else the one not used for
      the longest time. */
  ghost predicate IsVictim(slots: seq<Slot>, v: nat) {
    && v < |slots| && !slots[v].writeback
    && (slots[v].valid ==>
          forall i :: 0 <= i < |slots| && !slots[i].writeback ==> slots[i].valid && slots[v].age <= slots[i].age)
  }

  /** The sector is cached, and used later than every other one. */
  ghost predicate Newest(slots: seq<Slot>, k: Key, clock: nat) {
    exists i: nat :: i < |slots| && NewestAt(slots, i, k, clock)
  }

  ghost predicate NewestAt(slots: seq<Slot>, i: nat, k: Key, clock: nat)
    requires i < |slots|
  {
    && slots[i].valid && slots[i].key == k && slots[i].age == clock
    && forall j | 0 <= j < |slots| && j != i && slots[j].valid :: slots[j].age < clock
  }

  /** A slot set to an age nobody has yet. */
  lemma NewestSet(slots: seq<Slot>, i: nat, s: Slot, contents: map<Key, bytes>, store: map<Key, bytes>, clock: nat)
    requires i < |slots| && Refines(slots, contents, store, clock) && s.valid && s.age == clock + 1
    ensures Newest(slots[i := s], s.key, clock + 1)
  {
    var slots' := slots[i := s];
    forall j | 0 <= j < |slots'| && j != i && slots'[j].valid ensures slots'[j].age < clock + 1 {
      assert SlotOk(slots[j], contents, store, clock);
    }
    assert NewestAt(slots', i, s.key, clock + 1);
  }

  // ------------------------------------------------- changes to one slot

  lemma CachedElsewhere(slots: seq<Slot>, i: nat, s: Slot, k: Key)
    requires i < |slots| && (slots[i].valid ==> slots[i].key != k) && (s.valid ==> s.key != k)
    ensures Cached(slots[i := s], k) <==> Cached(slots, k)
  {
    var slots' := slots[i := s];
    if Cached(slots, k) {
      var j :| 0 <= j < |slots| && slots[j].valid && slots[j].key == k;
      assert slots'[j].valid && slots'[j].key == k;
    }
    if Cached(slots', k) {
      var j :| 0 <= j < |slots'| && slots'[j].valid && slots'[j].key == k;
      assert slots[j].valid && slots[j].key == k;
    }
  }

  /** Dropping a clean entry. */
  lemma DropClean(slots: seq<Slot>, i: nat, contents: map<Key, bytes>, store: map<Key, bytes>, clock: nat)
    requires i < |slots| && Refines(slots, contents, store, clock) && !(slots[i].valid && slots[i].dirty)
    ensures Refines(slots[i := Emptied(slots[i])], contents, store, clock)
  {
    var slots' := slots[i := Emptied(slots[i])];
    forall k | k in store && !Cached(slots', k) ensures k in contents && contents[k] == store[k] {
      if slots[i].valid && slots[i].key == k {
        assert SlotOk(slots[i], contents, store, clock);
      } else {
        CachedElsewhere(slots, i, slots'[i], k);
      }
    }
    forall k | k in contents ensures k in store || Cached(slots', k) {
      if slots[i].valid && slots[i].key == k {
        assert SlotOk(slots[i], contents, store, clock);
      } else {
        CachedElsewhere(slots, i, slots'[i], k);
      }
    }
  }

  /** A sector of the device that is cached dirty may change freely. */
  lemma DeviceMayChange(slots: seq<Slot>, i: nat, contents: map<Key, bytes>, store: map<Key, bytes>, d: bytes, clock: nat)
    requires i < |slots| && Refines(slots, contents, store, clock) && slots[i].valid && slots[i].dirty
    requires slots[i].key in store
    ensures Refines(slots, contents, store[slots[i].key := d], clock)
  {
    var k, store' := slots[i].key, store[slots[i].key := d];
    assert Cached(slots, k);
    forall j | 0 <= j < |slots| ensures SlotOk(slots[j], contents, store', clock) {
      assert SlotOk(slots[j], contents, store, clock);
      if slots[j].valid && j != i {
        assert slots[j].key != k;
      }
    }
  }

  /** Once its data is on the device an entry may be marked clean. */
  lemma MarkClean(slots: seq<Slot>, i: nat, contents: map<Key, bytes>, store: map<Key, bytes>, clock: nat)
    requires i < |slots| && Refines(slots, contents, store, clock) && slots[i].valid
    requires slots[i].key in store && store[slots[i].key] == slots[i].data
    ensures Refines(slots[i := slots[i].(dirty := false)], contents, store, clock)
  {
    var slots' := slots[i := slots[i].(dirty := false)];
    forall k ensures Cached(slots', k) <==> Cached(slots, k) {
      if slots[i].key == k {
        assert slots'[i].valid && slots'[i].key == k;
        assert slots[i].valid && slots[i].key == k;
      } else {
        CachedElsewhere(slots, i, slots'[i], k);
      }
    }
  }

  /** A use of an entry: a new age, and new data for a write. */
  lemma Touch(slots: seq<Slot>, i: nat, contents: map<Key, bytes>, store: map<Key, bytes>, clock: nat, s: Slot)
    requires i < |slots| && Refines(slots, contents, store, clock) && slots[i].valid
    requires s.valid && s.key == slots[i].key && !s.writeback && s.age == clock + 1
    requires s.dirty || (!slots[i].dirty && s.data == slots[i].data)
    ensures Refines(slots[i := s], contents[s.key := s.data], store, clock + 1)
  {
    var slots' := slots[i := s];
    forall k ensures Cached(slots', k) <==> Cached(slots, k) {
      if s.key == k {
        assert slots'[i].valid && slots'[i].key == k;
        assert slots[i].valid && slots[i].key == k;
      } else {
        CachedElsewhere(slots, i, s, k);
      }
    }
    forall j | 0 <= j < |slots| ensures SlotOk(slots'[j], contents[s.key := s.data], store, clock + 1) {
      assert SlotOk(slots[j], contents, store, clock);
      if j != i && slots[j].valid {
        assert slots[j].key != s.key;
      }
    }
  }

  /** A free slot takes a sector that was not cached. */
  lemma Fill(slots: seq<Slot>, i: nat, contents: map<Key, bytes>, store: map<Key, bytes>, clock: nat, s: Slot)
    requires i < |slots| && Refines(slots, contents, store, clock) && !slots[i].valid
    requires s.valid && !Cached(slots, s.key) && !s.writeback && s.age == clock + 1
    requires s.dirty || (s.key in store && store[s.key] == s.data)
    ensures Refines(slots[i := s], contents[s.key := s.data], store, clock + 1)
  {
    var slots' := slots[i := s];
    assert slots'[i].valid && slots'[i].key == s.key;
    forall k | k != s.key ensures Cached(slots', k) <==> Cached(slots, k) {
      CachedElsewhere(slots, i, s, k);
    }
    forall j | 0 <= j < |slots| ensures SlotOk(slots'[j], contents[s.key := s.data], store, clock + 1) {
      assert SlotOk(slots[j], contents, store, clock);
      if j != i && slots[j].valid {
        assert slots[j].key != s.key;
      }
    }
  }

  class Cache {
    var slots: seq<Slot>
    var clock: nat
    var store: map<Key, bytes>
    /** The sectors as callers see them. */
    ghost var contents: map<Key, bytes>
    /** Device requests that have failed. */
    ghost var faults: nat

    ghost predicate Valid()
      reads this
    {
      |slots| == ENTRIES && Refines(slots, contents, store, clock)
    }

    constructor (store: map<Key, bytes>)
      ensures Valid() && contents == store
    {
      slots := seq(ENTRIES, _ => Slot(Key(0, 0), false, false, false, [], 0));
      clock := 0;
      this.store := store;
      contents := store;
      faults := 0;
    }

    /** A device write: it may fail, and then the sector is whatever it is. */
    method Submit(k: Key, data: bytes) returns (ok: bool)
      modifies this`store, this`faults
      ensures faults == if ok then old(faults) else old(faults) + 1
      ensures ok ==> k in old(store) && store == old(store)[k := data]
      ensures !ok ==> store == old(store) || (k in old(store) && k in store && store == old(store)[k := store[k]])
    {
      if k !in store {
        faults := faults + 1;
        return false;
      }
      ok := *;
      if ok {
        store := store[k := data];
      } else {
        faults := faults + 1;
        var d: bytes := *;
        store := store[k := d];
      }
    }

    method Find(k: Key) returns (i: int)
      requires |slots| == ENTRIES
      ensures -1 <= i < ENTRIES
      ensures i == -1 <==> !Cached(slots, k)
      ensures i >= 0 ==> slots[i].valid && slots[i].key == k
    {
      i := 0;
      while i < ENTRIES
        invariant 0 <= i <= ENTRIES
        invariant forall j :: 0 <= j < i ==> !(slots[j].valid && slots[j].key == k)
      {
        if slots[i].valid && slots[i].key == k {
          return;
        }
        i := i + 1;
      }
      i := -1;
    }

    method Victim() returns (v: int)
      requires |slots| == ENTRIES
      ensures v == -1 || (v >= 0 && IsVictim(slots, v))
      ensures v == -1 <==> forall i :: 0 <= i < ENTRIES ==> slots[i].writeback
    {
      v := -1;
      var i := 0;
      while i < ENTRIES
        invariant 0 <= i <= ENTRIES && -1 <= v < i
        invariant v == -1 <==> forall j :: 0 <= j < i ==> slots[j].writeback
        invariant v >= 0 ==> !slots[v].writeback && slots[v].valid
        invariant v >= 0 ==> forall j :: 0 <= j < i && !slots[j].writeback ==> slots[j].valid && slots[v].age <= slots[j].age
      {
        if !slots[i].writeback {
          if !slots[i].valid {
            return i;
          }
          if v == -1 || slots[i].age < slots[v].age {
            v := i;
          }
        }
        i := i + 1;
      }
    }

    /** Write a dirty victim back. The device may lose the write; the entry stays
        as it was then. */
    method WriteBack(v: nat) returns (ok: bool)
      requires Valid() && v < ENTRIES && slots[v].valid && slots[v].dirty
      modifies this`slots, this`store, this`faults
      ensures Valid() && slots == old(slots) && faults == if ok then old(faults) else old(faults) + 1
      ensures ok ==> slots[v].key in store && store[slots[v].key] == slots[v].data
    {
      var key, age, data := slots[v].key, slots[v].age, slots[v].data;
      slots := slots[v := slots[v].(writeback := true)];
      ghost var before := store;
      ok := Submit(key, data);
      var x := Find(key);
      assert x == v by {
        assert Cached(slots, key) by {
          assert slots[v].valid && slots[v].key == key;
        }
        assert old(slots)[x].valid && old(slots)[x].key == key;
      }
      if slots[x].age == age {
        slots := slots[x := slots[x].(writeback := false)];
      }
      assert slots == old(slots);
      if store != before {
        DeviceMayChange(slots, v, contents, before, store[key], clock);
      }
    }

    /** Free one slot. Only the victim goes, and only when its data is safe. */
    method EvictOne() returns (ok: bool, j: nat)
      requires Valid()
      modifies this`slots, this`store, this`faults
      ensures Valid() && j < ENTRIES
      ensures ok ==> !slots[j].valid && IsVictim(old(slots), j) && slots == old(slots)[j := Emptied(old(slots)[j])]
      ensures !ok ==> slots == old(slots) && faults > old(faults)
      ensures faults >= old(faults)
    {
      assert !slots[0].writeback;
      var v := Victim();
      if slots[v].valid && slots[v].dirty {
        ok := WriteBack(v);
        if !ok {
          return false, v;
        }
        MarkClean(slots, v, contents, store, clock);
        DropClean(slots[v := slots[v].(dirty := false)], v, contents, store, clock);
        assert slots[v := slots[v].(dirty := false)][v := Emptied(slots[v])] == slots[v := Emptied(slots[v])];
      } else {
        DropClean(slots, v, contents, store, clock);
      }
      slots := slots[v := Emptied(slots[v])];
      return true, v;
    }

    /** Up to three attempts to free a slot. */
    method MakeRoom(ghost k: Key) returns (ok: bool, j: nat)
      requires Valid() && !Cached(slots, k)
      modifies this`slots, this`store, this`faults
      ensures Valid() && j < ENTRIES && !Cached(slots, k) && faults >= old(faults)
      ensures ok ==> !slots[j].valid
      ensures !ok ==> faults > old(faults)
    {
      var n := 0;
      ok, j := false, 0;
      while n < 3 && !ok
        invariant Valid() && !Cached(slots, k) && j < ENTRIES && (ok ==> !slots[j].valid)
        invariant faults >= old(faults) && (n > 0 && !ok ==> faults > old(faults))
      {
        ghost var was := slots;
        ok, j := EvictOne();
        if ok {
          NotCachedAfter(was, j, k);
        }
        n := n + 1;
      }
    }

    method Hit(i: nat)
      requires Valid() && i < ENTRIES && slots[i].valid
      modifies this`slots, this`clock
      ensures Valid() && slots == old(slots)[i := old(slots)[i].(age := clock)] && Newest(slots, slots[i].key, clock)
    {
      NewestSet(slots, i, slots[i].(age := clock + 1), contents, store, clock);
      Touch(slots, i, contents, store, clock, slots[i].(age := clock + 1));
      assert contents[slots[i].key := slots[i].data] == contents;
      clock := clock + 1;
      slots := slots[i := slots[i].(age := clock)];
    }

    /** Bring in a sector from the device. */
    method Load(k: Key, j: nat) returns (code: int, data: bytes)
      requires Valid() && j < ENTRIES && !slots[j].valid && !Cached(slots, k)
      modifies this`slots, this`clock, this`faults
      ensures Valid()
      ensures code == 0 ==> k in contents && data == contents[k] && Newest(slots, k, clock)
      ensures faults == if code == 0 then old(faults) else old(faults) + 1
    {
      var fails: bool := *;
      if fails || k !in store {
        faults := faults + 1;
        return -1, [];
      }
      data := store[k];
      var s := Slot(k, true, false, false, data, clock + 1);
      Fill(slots, j, contents, store, clock, s);
      NewestSet(slots, j, s, contents, store, clock);
      assert contents[k := data] == contents;
      clock := clock + 1;
      slots := slots[j := s];
      code := 0;
    }

    method Read(k: Key) returns (code: int, data: bytes)
      requires Valid()
      modifies this`slots, this`store, this`clock, this`faults
      ensures Valid()
      ensures code == 0 ==> k in contents && data == contents[k] && Newest(slots, k, clock)
      ensures code != 0 ==> faults > old(faults)
    {
      var i := Find(k);
      if i >= 0 {
        Hit(i);
        return 0, slots[i].data;
      }
      var ok, j := MakeRoom(k);
      if !ok {
        return -1, [];
      }
      code, data := Load(k, j);
    }

    method Write(k: Key, data: bytes) returns (code: int)
      requires Valid()
      modifies this
      ensures Valid()
      ensures contents == if code == 0 then old(contents)[k := data] else old(contents)
      ensures code == 0 ==> Newest(slots, k, clock)
      ensures code != 0 ==> faults > old(faults)
    {
      var i := Find(k);
      if i >= 0 {
        Overwrite(i, data);
        return 0;
      }
      var ok, j := MakeRoom(k);
      if !ok {
        return -1;
      }
      Enter(j, k, data);
      code := 0;
    }

    method Overwrite(i: nat, data: bytes)
      requires Valid() && i < ENTRIES && slots[i].valid
      modifies this`slots, this`clock, this`contents
      ensures Valid() && contents == old(contents)[old(slots)[i].key := data] && Newest(slots, old(slots)[i].key, clock)
    {
      var s := slots[i].(data := data, dirty := true, age := clock + 1);
      Touch(slots, i, contents, store, clock, s);
      NewestSet(slots, i, s, contents, store, clock);
      slots, clock, contents := slots[i := s], clock + 1, contents[s.key := data];
    }

    method Enter(j: nat, k: Key, data: bytes)
      requires Valid() && j < ENTRIES && !slots[j].valid && !Cached(slots, k)
      modifies this`slots, this`clock, this`contents
      ensures Valid() && contents == old(contents)[k := data] && Newest(slots, k, clock)
    {
      var s := Slot(k, true, true, false, data, clock + 1);
      Fill(slots, j, contents, store, clock, s);
      NewestSet(slots, j, s, contents, store, clock);
      slots, clock, contents := slots[j := s], clock + 1, contents[k := data];
    }

    /** The first dirty entry of a device. */
    method FindDirty(device: nat) returns (i: int)
      requires |slots| == ENTRIES
      ensures -1 <= i < ENTRIES
      ensures i >= 0 ==> DirtyFor(slots[i], device) && !slots[i].writeback
      ensures i == -1 ==> forall j :: 0 <= j < ENTRIES ==> !(DirtyFor(slots[j], device) && !slots[j].writeback)
    {
      i := 0;
      while i < ENTRIES
        invariant 0 <= i <= ENTRIES
        invariant forall j :: 0 <= j < i ==> !(DirtyFor(slots[j], device) && !slots[j].writeback)
      {
        if slots[i].valid && slots[i].key.device == device && slots[i].dirty && !slots[i].writeback {
          return;
        }
        i := i + 1;
      }
      i := -1;
    }

    /** A successful flush leaves every sector of the device as callers see it. */
    method Flush(device: nat) returns (code: int)
      requires Valid()
      modifies this`slots, this`store, this`faults
      ensures Valid()
      ensures code != 0 ==> faults > old(faults)
      ensures code == 0 ==> forall k :: k in contents && k.device == device ==> k in store && store[k] == contents[k]
    {
      while true
        invariant Valid() && faults >= old(faults)
        decreases DirtyCount(slots, device)
      {
        var i := FindDirty(device);
        if i == -1 {
          break;
        }
        var ok := WriteBack(i);
        if !ok {
          return -1;
        }
        MarkClean(slots, i, contents, store, clock);
        OneCleaner(slots, i, device);
        slots := slots[i := slots[i].(dirty := false)];
      }
      forall k | k in contents && k.device == device ensures k in store && store[k] == contents[k] {
        if Cached(slots, k) {
          var i :| 0 <= i < |slots| && slots[i].valid && slots[i].key == k;
          assert SlotOk(slots[i], contents, store, clock);
        }
      }
      var failed: bool := *;
      if failed {
        faults := faults + 1;
      }
      code := if failed then -1 else 0;
    }
  }

  predicate DirtyFor(s: Slot, device: nat) {
    s.valid && s.key.device == device && s.dirty
  }

  ghost function DirtyCount(slots: seq<Slot>, device: nat): nat {
    if slots == [] then 0 else (if DirtyFor(slots[0], device) then 1 else 0) + DirtyCount(slots[1..], device)
  }

  lemma {:induction false} OneCleaner(slots: seq<Slot>, i: nat, device: nat)
    requires i < |slots| && DirtyFor(slots[i], device)
    ensures DirtyCount(slots[i := slots[i].(dirty := false)], device) < DirtyCount(slots, device)
  {
    var slots' := slots[i := slots[i].(dirty := false)];
    if i == 0 {
      assert slots'[1..] == slots[1..];
    } else {
      OneCleaner(slots[1..], i - 1, device);
      assert slots'[1..] == slots[1..][i - 1 := slots[1..][i - 1].(dirty := false)];
    }
  }

  lemma NotCachedAfter(slots: seq<Slot>, j: nat, k: Key)
    requires j < |slots| && !Cached(slots, k)
    ensures !Cached(slots[j := Emptied(slots[j])], k)
  {
  }

  /** The entry used last is not the one to go. */
  lemma NewestStays(slots: seq<Slot>, k: Key, clock: nat, v: nat)
    requires |slots| == ENTRIES && Newest(slots, k, clock) && IsVictim(slots, v) && forall i | 0 <= i < ENTRIES :: !slots[i].writeback
    ensures Cached(slots[v := Emptied(slots[v])], k)
  {
    var i: nat :| i < |slots| && NewestAt(slots, i, k, clock);
    var other := if i == 0 then 1 else 0;
    assert !slots[other].writeback && (slots[other].valid ==> slots[other].age < clock);
    assert v != i;
    assert slots[v := Emptied(slots[v])][i].valid;
  }

  /** A sector just read outlives the next eviction: reading it again finds it in the
      cache, and the value is the one read before. */
  method ReadThenEvict(c: Cache, k: Key) returns (code: int, data: bytes, freed: bool)
    requires c.Valid()
    modifies c
    ensures c.Valid()
    ensures code == 0 ==> Cached(c.slots, k) && k in c.contents && data == c.contents[k]
    ensures code == 0 && freed ==> exists j: nat :: j < ENTRIES && !c.slots[j].valid
  {
    freed := false;
    code, data := c.Read(k);
    if code == 0 {
      ghost var was, clock := c.slots, c.clock;
      var j;
      freed, j := c.EvictOne();
      if freed {
        NewestStays(was, k, clock, j);
      } else {
        assert Newest(c.slots, k, clock);
      }
    }
  }
}

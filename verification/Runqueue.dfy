/** The per-CPU runqueue: a set of runnable slots, one round-robin cursor and a
    streak counter that limits consecutive high-priority picks. */
module Runqueue {
  import opened Common

  const SLOTS: nat := 32
  const HIPRI_CAP: nat := 4

  ghost predicate Slotted(pool: set<nat>) {
    forall i :: i in pool ==> i < SLOTS
  }

  /** How many slots the scan passes before it reaches `i`. */
  function Dist(start: nat, i: nat): (d: nat)
    requires start < SLOTS && i < SLOTS
    ensures d < SLOTS && (start + d) % SLOTS == i
  {
    if start <= i then i - start else i + SLOTS - start
  }

  /** The slot after `i`, going round. */
  function Advanced(i: nat): nat
  {
    if i + 1 == SLOTS then 0 else i + 1
  }

  /** Cursor values outside the table fold back into it. */
  function Folded(cursor: nat): (c: nat)
    ensures c < SLOTS
  {
    if cursor < SLOTS then cursor else cursor % SLOTS
  }

  /** `i` is the first slot of `pool` at or after `start`, going round once. */
  ghost predicate IsNext(pool: set<nat>, start: nat, i: nat)
    requires Slotted(pool) && start < SLOTS
  {
    i in pool && forall j :: j in pool ==> Dist(start, i) <= Dist(start, j)
  }

  /** The pool a pick scans: the high slots while the streak allows it, the
      whole mask otherwise. */
  ghost function Pool(mask: set<nat>, high: set<nat>, streak: nat): set<nat> {
    if mask * high != {} && streak < HIPRI_CAP then mask * high else mask
  }

  ghost function NewStreak(mask: set<nat>, high: set<nat>, streak: nat): nat {
    if mask * high != {} && streak < HIPRI_CAP then streak + 1 else 0
  }

  class RunQueue {
    var mask: set<nat>
    var cursor: nat
    var streak: nat

    ghost predicate Valid()
      reads this
    {
      Slotted(mask)
    }

    constructor ()
      ensures Valid() && mask == {} && cursor == 0 && streak == 0
    {
      mask, cursor, streak := {}, 0, 0;
    }

    method Add(i: nat)
      requires Valid()
      modifies this`mask
      ensures Valid() && mask == if i < SLOTS then old(mask) + {i} else old(mask)
    {
      if i < SLOTS {
        mask := mask + {i};
      }
    }

    method Remove(i: nat)
      requires Valid()
      modifies this`mask
      ensures Valid() && mask == old(mask) - {i}
    {
      if i < SLOTS {
        mask := mask - {i};
      }
    }

    method Scan(pool: set<nat>, start: nat) returns (pick: int)
      requires Slotted(pool) && start < SLOTS
      modifies this`cursor
      ensures pool == {} ==> pick == -1 && cursor == old(cursor)
      ensures pool != {} ==> pick >= 0 && IsNext(pool, start, pick) && cursor == Advanced(pick)
    {
      var n := 0;
      while n < SLOTS
        invariant n <= SLOTS && cursor == old(cursor)
        invariant forall j :: j in pool ==> n <= Dist(start, j)
      {
        var i := (start + n) % SLOTS;
        if i in pool {
          cursor := (i + 1) % SLOTS;
          return i;
        }
        n := n + 1;
      }
      assert forall j :: j in pool ==> SLOTS <= Dist(start, j);
      assert pool == {};
      pick := -1;
    }

    method Pick(high: set<nat>) returns (pick: int)
      requires Valid()
      modifies this`cursor, this`streak
      ensures mask == {} ==> pick == -1 && cursor == old(cursor) && streak == old(streak)
      ensures mask != {} ==>
                pick >= 0 && IsNext(Pool(mask, high, old(streak)), Folded(old(cursor)), pick)
                && cursor == Advanced(pick) && streak == NewStreak(mask, high, old(streak))
    {
      if mask == {} {
        return -1;
      }
      var start := cursor % SLOTS;
      var pool := mask * high;
      if pool != {} && streak < HIPRI_CAP {
        pick := Scan(pool, start);
        if pick >= 0 {
          streak := streak + 1;
          return;
        }
      }
      pick := Scan(mask, start);
      streak := 0;
    }
  }

  // ---------------------------------------------------------------- runs

  /** What a pick depends on besides the caller's masks. */
  datatype Queue = Queue(cursor: nat, streak: nat)

  /** One pick as a relation: what `RunQueue.Pick` promises for a mask that is
      not empty. */
  ghost predicate Picks(mask: set<nat>, high: set<nat>, q: Queue, pick: nat, q': Queue)
  {
    && Slotted(mask)
    && IsNext(Pool(mask, high, q.streak), Folded(q.cursor), pick)
    && q' == Queue(Advanced(pick), NewStreak(mask, high, q.streak))
  }

  /** A run of picks, with the masks free to change between picks. */
  datatype Turn = Turn(mask: set<nat>, high: set<nat>, pick: nat)

  ghost predicate Run(q: Queue, turns: seq<Turn>, q': Queue)
    decreases |turns|
  {
    if turns == [] then q' == q
    else
      exists m: Queue ::
        Picks(turns[0].mask, turns[0].high, q, turns[0].pick, m) && Run(m, turns[1..], q')
  }

  /** Slot `i` is in the pool of every pick, whatever the streak is: it is
      runnable throughout, and either itself high or nobody is. */
  ghost predicate AlwaysInPool(turns: seq<Turn>, i: nat) {
    forall t :: 0 <= t < |turns| ==>
      i in turns[t].mask && (i in turns[t].high || turns[t].mask * turns[t].high == {})
  }

  lemma PickComesCloser(turn: Turn, q: Queue, q': Queue, i: nat)
    requires Picks(turn.mask, turn.high, q, turn.pick, q') && i < SLOTS && turn.pick != i
    requires i in turn.mask && (i in turn.high || turn.mask * turn.high == {})
    ensures Dist(Folded(q'.cursor), i) < Dist(Folded(q.cursor), i)
  {
    var c := Folded(q.cursor);
    assert i in Pool(turn.mask, turn.high, q.streak);
    assert Dist(c, turn.pick) <= Dist(c, i);
  }

  /** Within 32 picks every slot that stays in the pool is picked, for any
      changes to the other bits. */
  lemma {:induction false} StayingSlotPicked(q: Queue, turns: seq<Turn>, q': Queue, i: nat)
    requires Run(q, turns, q') && AlwaysInPool(turns, i) && i < SLOTS
    requires |turns| > Dist(Folded(q.cursor), i)
    ensures exists t :: 0 <= t <= Dist(Folded(q.cursor), i) && turns[t].pick == i
    decreases |turns|
  {
    var first := turns[0];
    var m: Queue :| Picks(first.mask, first.high, q, first.pick, m) && Run(m, turns[1..], q');
    if first.pick != i {
      PickComesCloser(first, q, m, i);
      assert AlwaysInPool(turns[1..], i);
      StayingSlotPicked(m, turns[1..], q', i);
      var t :| 0 <= t <= Dist(Folded(m.cursor), i) && turns[1..][t].pick == i;
      assert turns[t + 1].pick == i;
    }
  }

  /** No more than four high picks in a row: the streak never passes the cap. */
  lemma {:induction false} StreakCapped(q: Queue, turns: seq<Turn>, q': Queue)
    requires Run(q, turns, q') && q.streak <= HIPRI_CAP
    ensures q'.streak <= HIPRI_CAP
    decreases |turns|
  {
    if turns != [] {
      var m: Queue :| Picks(turns[0].mask, turns[0].high, q, turns[0].pick, m) && Run(m, turns[1..], q');
      StreakCapped(m, turns[1..], q');
    }
  }

  // ---------------------------------------------- normal slots under priorities
  // Mask and priorities fixed: `high` is the non-empty set of high slots in the
  // mask. While only high slots are picked the cursor walks round `high`, and
  // every fifth pick looks at the whole mask.

  ghost predicate Mixed(mask: set<nat>, high: set<nat>) {
    Slotted(mask) && high <= mask && high != {}
  }

  lemma NextExists(pool: set<nat>, start: nat)
    requires Slotted(pool) && start < SLOTS && pool != {}
    ensures exists i :: IsNext(pool, start, i)
    decreases |pool|
  {
    var x :| x in pool;
    var rest := pool - {x};
    if rest == {} {
      assert pool == {x};
      assert IsNext(pool, start, x);
    } else {
      NextExists(rest, start);
      var y :| IsNext(rest, start, y);
      var best := if Dist(start, x) <= Dist(start, y) then x else y;
      forall j | j in pool ensures Dist(start, best) <= Dist(start, j) {
        assert j == x || j in rest;
      }
      assert IsNext(pool, start, best);
    }
  }

  ghost function Next(pool: set<nat>, start: nat): (i: nat)
    requires Slotted(pool) && start < SLOTS && pool != {}
    ensures IsNext(pool, start, i)
  {
    NextExists(pool, start);
    var i :| IsNext(pool, start, i);
    i
  }

  lemma NextUnique(pool: set<nat>, start: nat, i: nat)
    requires Slotted(pool) && start < SLOTS && IsNext(pool, start, i)
    ensures i == Next(pool, start)
  {
    var n := Next(pool, start);
    assert Dist(start, i) == Dist(start, n);
  }

  ghost function PickOf(mask: set<nat>, high: set<nat>, q: Queue): (i: nat)
    requires Mixed(mask, high)
    ensures i in mask
  {
    Next(if q.streak < HIPRI_CAP then high else mask, Folded(q.cursor))
  }

  ghost function Stepped(mask: set<nat>, high: set<nat>, q: Queue): Queue
    requires Mixed(mask, high)
  {
    Queue(Advanced(PickOf(mask, high, q)), if q.streak < HIPRI_CAP then q.streak + 1 else 0)
  }

  ghost function Iterated(step: Queue -> Queue, q: Queue, n: nat): Queue {
    if n == 0 then q else step(Iterated(step, q, n - 1))
  }

  lemma {:induction false} IteratedShift(step: Queue -> Queue, q: Queue, n: nat)
    ensures Iterated(step, q, n + 1) == Iterated(step, step(q), n)
  {
    if n > 0 {
      IteratedShift(step, q, n - 1);
    } else {
      assert Iterated(step, q, 0) == q;
    }
  }

  ghost function Step(mask: set<nat>, high: set<nat>): Queue -> Queue
    requires Mixed(mask, high)
  {
    q => Stepped(mask, high, q)
  }

  /** The queue after `n` picks. */
  ghost function After(mask: set<nat>, high: set<nat>, q: Queue, n: nat): Queue
    requires Mixed(mask, high)
  {
    Iterated(Step(mask, high), q, n)
  }

  /** The functional form is the pick relation. */
  lemma SteppedIsPick(mask: set<nat>, high: set<nat>, q: Queue, pick: nat, q': Queue)
    requires Mixed(mask, high)
    ensures Picks(mask, high, q, pick, q') <==> pick == PickOf(mask, high, q) && q' == Stepped(mask, high, q)
  {
    assert mask * high == high;
    if Picks(mask, high, q, pick, q') {
      NextUnique(Pool(mask, high, q.streak), Folded(q.cursor), pick);
    }
  }

  /** None of the first `n` picks is a normal slot. */
  ghost predicate OnlyHigh(mask: set<nat>, high: set<nat>, q: Queue, n: nat)
    requires Mixed(mask, high)
  {
    forall t: nat :: t < n ==> PickOf(mask, high, After(mask, high, q, t)) in high
  }

  /** How many high slots lie below `c`. */
  ghost function Rank(high: set<nat>, c: nat): nat {
    |set h | h in high && h < c|
  }

  /** Which high slot, in ascending order, comes next at or after `c`. */
  ghost function Place(high: set<nat>, c: nat): nat {
    if Rank(high, c) == |high| then 0 else Rank(high, c)
  }

  lemma SubsetSize(a: set<nat>, b: set<nat>)
    requires a <= b
    ensures |a| <= |b| && (a != b ==> |a| < |b|)
  {
    assert b == a + (b - a);
    assert |b| == |a| + |b - a|;
  }

  lemma RankMonotone(high: set<nat>, a: nat, b: nat)
    requires a <= b
    ensures Rank(high, a) <= Rank(high, b) <= |high|
  {
    SubsetSize((set h | h in high && h < a), (set h | h in high && h < b));
    SubsetSize((set h | h in high && h < b), high);
  }

  lemma RankGrows(high: set<nat>, a: nat, h: nat, b: nat)
    requires a <= h < b && h in high
    ensures Rank(high, a) < Rank(high, b)
  {
    var below, above := (set x | x in high && x < a), (set x | x in high && x < b);
    assert h in above && h !in below;
    SubsetSize(below, above);
  }

  lemma RankOfNext(high: set<nat>, h: nat)
    requires h in high
    ensures Rank(high, h + 1) == Rank(high, h) + 1 <= |high|
  {
    RankMonotone(high, h + 1, h + 1);
    assert (set x | x in high && x < h + 1) == (set x | x in high && x < h) + {h};
  }

  lemma RankEnds(high: set<nat>)
    requires Slotted(high)
    ensures Rank(high, 0) == 0 && Rank(high, SLOTS) == |high|
  {
    assert (set x | x in high && x < 0) == {};
    assert (set x | x in high && x < SLOTS) == high;
  }

  /** Nothing high lies between the cursor and `p`, so both have the same place
      in the rotation of the high slots. */
  lemma SamePlace(high: set<nat>, c: nat, p: nat)
    requires Slotted(high) && high != {} && c < SLOTS && p < SLOTS
    requires forall j :: j in high ==> Dist(c, p) <= Dist(c, j)
    ensures Place(high, p) == Place(high, c)
  {
    if c <= p {
      assert (set h | h in high && h < c) == (set h | h in high && h < p);
    } else {
      assert (set h | h in high && h < c) == high;
      assert (set h | h in high && h < p) == {};
    }
  }

  /** A high pick moves the cursor one place round. */
  lemma HighPickTurns(high: set<nat>, c: nat, h: nat)
    requires Slotted(high) && c < SLOTS && h in high
    requires forall j :: j in high ==> Dist(c, h) <= Dist(c, j)
    ensures Place(high, Advanced(h)) == if Place(high, c) + 1 == |high| then 0 else Place(high, c) + 1
  {
    SamePlace(high, c, h);
    RankOfNext(high, h);
    RankEnds(high);
  }

  /** The cursor stands just past a high slot. */
  ghost predicate PastHigh(high: set<nat>, c: nat) {
    exists h :: h in high && Advanced(h) == c
  }

  /** Two slots of the same place with a high slot `p` between the cursor and the
      other one: the cursor did not stand just past a high slot. */
  lemma GapHoldsNoHigh(high: set<nat>, h: nat, p: nat, m: nat)
    requires Slotted(high) && h in high && p in high && m < SLOTS && m !in high
    requires Dist(Advanced(h), p) <= Dist(Advanced(h), m)
    ensures Place(high, m) != Place(high, p)
  {
    RankOfNext(high, p);
    RankMonotone(high, m, SLOTS);
    RankEnds(high);
    if m < p {
      RankGrows(high, m, h, p);
    } else {
      RankGrows(high, p, p, m);
      if h < p {
        RankGrows(high, 0, h, p);
      } else if h > m {
        RankGrows(high, m, h, SLOTS);
      }
    }
  }

  /** A pass over the whole mask leaves the high slots exactly when a normal
      slot sits in the gap where the cursor stands. */
  lemma FullPassPicksNormal(mask: set<nat>, high: set<nat>, c: nat)
    requires Mixed(mask, high) && c < SLOTS && PastHigh(high, c)
    ensures Next(mask, c) !in high <==>
            exists m :: m in mask && m !in high && Place(high, m) == Place(high, c)
  {
    var p := Next(mask, c);
    SamePlace(high, c, p);
    if p in high {
      var h :| h in high && Advanced(h) == c;
      forall m | m in mask && m !in high ensures Place(high, m) != Place(high, c) {
        GapHoldsNoHigh(high, h, p, m);
      }
    }
  }

  // ------------------------------------------------------ places modulo |high|

  ghost function Times(w: int, k: int): int {
    w * k
  }

  ghost predicate Congruent(a: int, b: int, k: int) {
    exists w :: a == b + Times(w, k)
  }

  lemma CongruentBy(a: int, b: int, k: int, w: int)
    requires a == b + w * k
    ensures Congruent(a, b, k)
  {
    assert a == b + Times(w, k);
  }

  lemma CongruentChain(a: int, b: int, c: int, k: int)
    requires Congruent(a, b, k) && Congruent(c, b, k)
    ensures Congruent(a, c, k)
  {
    var v :| a == b + Times(v, k);
    var w :| c == b + Times(w, k);
    CongruentBy(a, c, k, v - w);
  }

  lemma CongruentSum(a: int, b: int, d: int, k: int)
    requires Congruent(a, b, k)
    ensures Congruent(a + d, b + d, k) && Congruent(b, a, k)
  {
    var w :| a == b + Times(w, k);
    assert a + d == b + d + Times(w, k);
    CongruentBy(b, a, k, -w);
  }

  /** Places are residues. */
  lemma CongruentPlaces(a: nat, b: nat, k: nat)
    requires a < k && b < k && Congruent(a, b, k)
    ensures a == b
  {
    var w :| a == b + Times(w, k);
    TimesSign(w, k);
  }

  lemma TimesSign(w: int, k: nat)
    ensures w >= 1 ==> Times(w, k) >= k
    ensures w <= -1 ==> Times(w, k) + k <= 0
    ensures w == 0 ==> Times(w, k) == 0
  {
    assert w >= 1 ==> w * k >= 1 * k;
    assert w <= -1 ==> w * k <= (-1) * k;
  }

  lemma Residue(e: int, k: nat) returns (j: nat, w: int)
    requires k > 0
    ensures j < k && e == j + w * k
  {
    j, w := e % k, e / k;
  }

  /** Multiples of five reach every residue that the common divisor of five and
      `k` allows. */
  lemma FivesReach(d: int, k: nat) returns (j: nat)
    requires k > 0 && (k % 5 != 0 || d % 5 == 0)
    ensures j < k && Congruent(5 * j, d, k)
  {
    if k % 5 == 0 {
      var w;
      j, w := Residue(d / 5, k);
      assert 5 * j == d + (-5 * w) * k;
      CongruentBy(5 * j, d, k, -5 * w);
    } else {
      var a := k / 5;
      if k % 5 == 1 {
        j := InverseReach(d, k, 4, 4 * a + 1);
      } else if k % 5 == 2 {
        j := InverseReach(d, k, 2, 2 * a + 1);
      } else if k % 5 == 3 {
        j := InverseReach(d, k, 3, 3 * a + 2);
      } else {
        j := InverseReach(d, k, 1, a + 1);
      }
    }
  }

  lemma InverseReach(d: int, k: nat, q: nat, x: nat) returns (j: nat)
    requires k > 0 && 5 * x == 1 + q * k
    ensures j < k && Congruent(5 * j, d, k)
  {
    var w;
    j, w := Residue(d * x, k);
    calc {
      5 * j;
      5 * (d * x) - 5 * (w * k);
      d * (5 * x) - 5 * (w * k);
      d * (1 + q * k) - 5 * (w * k);
      d + d * (q * k) - 5 * (w * k);
      d + (d * q) * k - (5 * w) * k;
      d + (d * q - 5 * w) * k;
    }
    CongruentBy(5 * j, d, k, d * q - 5 * w);
  }

  lemma CongruentByFive(a: int, b: int, k: nat)
    requires k % 5 == 0 && Congruent(a, b, k)
    ensures (a - b) % 5 == 0
  {
    var w :| a == b + Times(w, k);
    assert w * k == (w * (k / 5)) * 5 by {
      assert k == (k / 5) * 5;
    }
  }

  // --------------------------------------------------------- the walk of `high`

  lemma PlaceBound(high: set<nat>, c: nat)
    requires high != {}
    ensures Place(high, c) < |high|
  {
    RankMonotone(high, c, c);
  }

  /** The streak counter runs through 0 to 4 while only high slots are picked. */
  ghost function StreakAt(q: Queue, n: nat): nat {
    (q.streak + n) % 5
  }

  lemma StreakStep(q: Queue, n: nat)
    ensures StreakAt(q, n + 1) == if StreakAt(q, n) < HIPRI_CAP then StreakAt(q, n) + 1 else 0
  {
  }

  /** While only high slots are picked, time alone fixes cursor place and streak. */
  ghost predicate WalkedTo(high: set<nat>, q: Queue, n: nat, a: Queue) {
    && a.cursor < SLOTS && PastHigh(high, a.cursor)
    && Congruent(Place(high, a.cursor), Place(high, q.cursor) + n, |high|)
    && a.streak == StreakAt(q, n)
  }

  ghost predicate Settled(high: set<nat>, q: Queue) {
    q.cursor < SLOTS && q.streak <= HIPRI_CAP && PastHigh(high, q.cursor)
  }

  lemma WalkStep(mask: set<nat>, high: set<nat>, q: Queue, n: nat, p: Queue)
    requires Mixed(mask, high) && WalkedTo(high, q, n, p)
    requires PickOf(mask, high, p) in high
    ensures WalkedTo(high, q, n + 1, Stepped(mask, high, p))
  {
    var h, k := PickOf(mask, high, p), |high|;
    StreakStep(q, n);
    HighPickTurns(high, p.cursor, h);
    CongruentSum(Place(high, p.cursor), Place(high, q.cursor) + n, 1, k);
    if Place(high, p.cursor) + 1 == k {
      CongruentBy(0, k, k, -1);
      CongruentSum(k, Place(high, q.cursor) + (n + 1), 0, k);
      CongruentChain(0, k, Place(high, q.cursor) + (n + 1), k);
    }
  }

  lemma {:induction false} WalkOfHigh(mask: set<nat>, high: set<nat>, q: Queue, n: nat)
    requires Mixed(mask, high) && Settled(high, q) && OnlyHigh(mask, high, q, n)
    ensures WalkedTo(high, q, n, After(mask, high, q, n))
  {
    if n == 0 {
      CongruentBy(Place(high, q.cursor), Place(high, q.cursor), |high|, 0);
    } else {
      WalkOfHigh(mask, high, q, n - 1);
      var p := After(mask, high, q, n - 1);
      assert PickOf(mask, high, p) in high;
      WalkStep(mask, high, q, n - 1, p);
    }
  }

  /** Pick `n` is a full pass with normal slot `m` in the gap it starts from. */
  ghost predicate MeetsAt(high: set<nat>, q: Queue, m: nat, n: nat) {
    StreakAt(q, n) == 4 && Congruent(Place(high, m), Place(high, q.cursor) + n, |high|)
  }

  lemma SamePlaceIsMet(high: set<nat>, q: Queue, n: nat, a: Queue, m: nat)
    requires high != {} && WalkedTo(high, q, n, a)
    ensures a.streak == 4 && Place(high, m) == Place(high, a.cursor) <==> MeetsAt(high, q, m, n)
  {
    if Congruent(Place(high, m), Place(high, q.cursor) + n, |high|) {
      CongruentChain(Place(high, m), Place(high, q.cursor) + n, Place(high, a.cursor), |high|);
      PlaceBound(high, m);
      PlaceBound(high, a.cursor);
      CongruentPlaces(Place(high, m), Place(high, a.cursor), |high|);
    }
  }

  /** A pick of the walk leaves the high slots exactly when it is a full pass and
      a normal slot sits in the gap reached at that time. */
  lemma LeavesHigh(mask: set<nat>, high: set<nat>, q: Queue, n: nat, a: Queue)
    requires Mixed(mask, high) && WalkedTo(high, q, n, a)
    ensures PickOf(mask, high, a) !in high <==>
            exists m :: m in mask && m !in high && MeetsAt(high, q, m, n)
  {
    FullPassPicksNormal(mask, high, a.cursor);
    forall m: nat ensures a.streak == 4 && Place(high, m) == Place(high, a.cursor) <==> MeetsAt(high, q, m, n) {
      SamePlaceIsMet(high, q, n, a, m);
    }
  }

  /** Some full pass of the walk from `q` meets normal slot `m`. With the number
      of high slots not a multiple of five this holds for every slot. */
  ghost predicate Meets(high: set<nat>, q: Queue, m: nat) {
    |high| % 5 != 0 || (Place(high, m) - Place(high, q.cursor) - (4 - q.streak)) % 5 == 0
  }

  lemma MeetingTime(high: set<nat>, q: Queue, m: nat) returns (n: nat)
    requires high != {} && q.streak <= 4 && Meets(high, q, m)
    ensures n < 5 * |high| && MeetsAt(high, q, m, n)
  {
    var k, base := |high|, Place(high, q.cursor) + (4 - q.streak);
    var j := FivesReach(Place(high, m) - base, k);
    n := (4 - q.streak) + 5 * j;
    CongruentSum(5 * j, Place(high, m) - base, base, k);
  }

  /** Conversely a full pass can only meet slots the predicate names. */
  lemma MeetingIsForetold(high: set<nat>, q: Queue, m: nat, n: nat)
    requires q.streak <= 4 && MeetsAt(high, q, m, n)
    ensures Meets(high, q, m)
  {
    var a, b := Place(high, m), Place(high, q.cursor);
    if |high| % 5 == 0 {
      CongruentByFive(a, b + n, |high|);
      assert (n - (4 - q.streak)) % 5 == 0;
    }
  }

  /** From a cursor just past a high slot, a normal slot is picked within
      5 * |high| picks exactly when some full pass meets one; and if none does,
      none is ever picked. */
  lemma NormalPickedExactlyWhen(mask: set<nat>, high: set<nat>, q: Queue, n: nat)
    requires Mixed(mask, high) && Settled(high, q)
    ensures (exists m :: m in mask && m !in high && Meets(high, q, m)) ==>
              !OnlyHigh(mask, high, q, 5 * |high|)
    ensures !(exists m :: m in mask && m !in high && Meets(high, q, m)) ==>
              OnlyHigh(mask, high, q, n)
  {
    if m :| m in mask && m !in high && Meets(high, q, m) {
      var t := MeetingTime(high, q, m);
      if OnlyHigh(mask, high, q, t) {
        WalkOfHigh(mask, high, q, t);
        LeavesHigh(mask, high, q, t, After(mask, high, q, t));
      }
    } else {
      NeverMet(mask, high, q, n);
    }
  }

  lemma NotMetNow(mask: set<nat>, high: set<nat>, q: Queue, n: nat, a: Queue)
    requires Mixed(mask, high) && q.streak <= HIPRI_CAP && WalkedTo(high, q, n, a)
    requires forall m :: m in mask && m !in high ==> !Meets(high, q, m)
    ensures PickOf(mask, high, a) in high
  {
    LeavesHigh(mask, high, q, n, a);
    forall m | m in mask && m !in high ensures !MeetsAt(high, q, m, n) {
      if MeetsAt(high, q, m, n) {
        MeetingIsForetold(high, q, m, n);
      }
    }
  }

  lemma NextNotMet(mask: set<nat>, high: set<nat>, q: Queue, n: nat)
    requires Mixed(mask, high) && Settled(high, q) && OnlyHigh(mask, high, q, n)
    requires forall m :: m in mask && m !in high ==> !Meets(high, q, m)
    ensures PickOf(mask, high, After(mask, high, q, n)) in high
  {
    WalkOfHigh(mask, high, q, n);
    NotMetNow(mask, high, q, n, After(mask, high, q, n));
  }

  lemma {:induction false} NeverMet(mask: set<nat>, high: set<nat>, q: Queue, n: nat)
    requires Mixed(mask, high) && Settled(high, q)
    requires forall m :: m in mask && m !in high ==> !Meets(high, q, m)
    ensures OnlyHigh(mask, high, q, n)
  {
    if n > 0 {
      NeverMet(mask, high, q, n - 1);
      NextNotMet(mask, high, q, n - 1);
    }
  }

  lemma OnlyHighShift(mask: set<nat>, high: set<nat>, q: Queue, n: nat)
    requires Mixed(mask, high)
    ensures OnlyHigh(mask, high, q, n + 1) <==>
            PickOf(mask, high, q) in high && OnlyHigh(mask, high, Stepped(mask, high, q), n)
  {
    assert After(mask, high, q, 0) == q;
    forall t: nat ensures After(mask, high, q, t + 1) == After(mask, high, Stepped(mask, high, q), t) {
      IteratedShift(Step(mask, high), q, t);
    }
    if OnlyHigh(mask, high, q, n + 1) {
      forall t: nat | t < n ensures PickOf(mask, high, After(mask, high, Stepped(mask, high, q), t)) in high {
        assert PickOf(mask, high, After(mask, high, q, t + 1)) in high;
      }
    }
    if PickOf(mask, high, q) in high && OnlyHigh(mask, high, Stepped(mask, high, q), n) {
      forall t: nat | t < n + 1 ensures PickOf(mask, high, After(mask, high, q, t)) in high {
        if t > 0 {
          assert After(mask, high, q, (t - 1) + 1) == After(mask, high, Stepped(mask, high, q), t - 1);
        }
      }
    }
  }

  lemma OnlyHighShorter(mask: set<nat>, high: set<nat>, q: Queue, n: nat, m: nat)
    requires Mixed(mask, high) && n <= m && OnlyHigh(mask, high, q, m)
    ensures OnlyHigh(mask, high, q, n)
  {
  }

  /** Normal work gets the processor: the first pick takes a normal slot, or a
      full pass after it meets one. */
  ghost predicate Served(mask: set<nat>, high: set<nat>, q: Queue)
    requires Mixed(mask, high)
  {
    || PickOf(mask, high, q) !in high
    || exists m :: m in mask && m !in high && Meets(high, Stepped(mask, high, q), m)
  }

  /** From any queue state: a normal slot is picked within 5 * (|high| + 1) picks
      if it is ever picked at all, and `Served` decides which. */
  lemma NormalServedExactlyWhen(mask: set<nat>, high: set<nat>, q: Queue, n: nat)
    requires Mixed(mask, high) && q.streak <= HIPRI_CAP
    ensures Served(mask, high, q) ==> !OnlyHigh(mask, high, q, 5 * (|high| + 1))
    ensures !Served(mask, high, q) ==> OnlyHigh(mask, high, q, n)
  {
    var a := Stepped(mask, high, q);
    OnlyHighShift(mask, high, q, 5 * |high| + 4);
    OnlyHighShift(mask, high, q, n);
    if PickOf(mask, high, q) in high {
      assert Settled(high, a);
      NormalPickedExactlyWhen(mask, high, a, n);
      if OnlyHigh(mask, high, a, 5 * |high| + 4) {
        OnlyHighShorter(mask, high, a, 5 * |high|, 5 * |high| + 4);
      }
      if OnlyHigh(mask, high, q, n + 1) {
        OnlyHighShorter(mask, high, q, n, n + 1);
      }
    }
  }

  /** With a number of high slots that is not a multiple of five, normal work is
      never shut out. */
  lemma NormalServed(mask: set<nat>, high: set<nat>, q: Queue)
    requires Mixed(mask, high) && mask != high && |high| % 5 != 0 && q.streak <= HIPRI_CAP
    ensures !OnlyHigh(mask, high, q, 5 * (|high| + 1))
  {
    NormalServedExactlyWhen(mask, high, q, 0);
    var m :| m in mask && m !in high;
    assert Meets(high, Stepped(mask, high, q), m);
  }

  /** Five high slots below one normal slot, on a fresh queue: the normal slot is
      never picked, although the cap is there to prevent that. */
  lemma NormalStarved(n: nat)
    ensures OnlyHigh({0, 1, 2, 3, 4, 5}, {0, 1, 2, 3, 4}, Queue(0, 0), n)
  {
    var mask: set<nat>, high: set<nat>, q := {0, 1, 2, 3, 4, 5}, {0, 1, 2, 3, 4}, Queue(0, 0);
    assert IsNext(high, 0, 0);
    NextUnique(high, 0, 0);
    var a := Stepped(mask, high, q);
    assert a == Queue(1, 1);
    assert (set h | h in high && h < 1) == {0};
    assert (set h | h in high && h < 5) == high;
    assert |high| == 5;
    assert Rank(high, 1) == 1 && Rank(high, 5) == 5;
    NormalServedExactlyWhen(mask, high, q, n);
    forall m | m in mask && m !in high ensures !Meets(high, a, m) {
      assert m == 5;
    }
  }
}

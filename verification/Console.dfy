/** The terminal's input ring and its blocking readers. A depositor changes the
    ring under the input lock and wakes readers after releasing it; a reader
    checks and blocks under the lock. */
module Console {
  import opened Bytes

  const INPUT: nat := 4096
  const LINE_MAX: nat := 256
  const NEWLINE: byte := 10
  const RETURN: byte := 13

  // ---------------------------------------------------------------- the ring

  ghost function Lines(b: bytes): nat {
    if b == [] then 0 else (if b[0] == NEWLINE then 1 else 0) + Lines(b[1..])
  }

  lemma {:induction false} LinesAppend(a: bytes, b: bytes)
    ensures Lines(a + b) == Lines(a) + Lines(b)
  {
    if a == [] {
      assert a + b == b;
    } else {
      LinesAppend(a[1..], b);
      assert (a + b)[1..] == a[1..] + b;
    }
  }

  lemma {:induction false} NoLines(b: bytes)
    requires NEWLINE !in b
    ensures Lines(b) == 0
  {
    if b != [] {
      NoLines(b[1..]);
    }
  }

  predicate LineEnd(ch: byte) {
    ch == NEWLINE || ch == RETURN
  }

  /** Ctrl-C, Ctrl-Z and Ctrl-\. */
  predicate Control(ch: byte) {
    ch == 0x03 || ch == 0x1a || ch == 0x1c
  }

  /** No line end in it. */
  ghost predicate Plain(b: bytes) {
    forall k | 0 <= k < |b| :: !LineEnd(b[k])
  }

  /** The input side of a terminal. `ready` counts complete lines in canonical mode,
      `edit` is the line being typed, and `lineChars` its length as kept beside it. */
  datatype Tty = Tty(canonical: bool, isig: bool, ring: bytes, head: nat, tail: nat, count: nat,
                     ready: nat, edit: bytes, lineChars: nat) {
    ghost predicate Shaped() {
      && |ring| == INPUT && head < INPUT && tail < INPUT && count <= INPUT
      && |edit| < LINE_MAX && Plain(edit) && (canonical ==> lineChars < LINE_MAX)
    }

    /** The next byte goes behind the last one. */
    ghost predicate Intact() {
      tail == (head + count) % INPUT
    }

    /** What readers will find. */
    ghost function Queue(): (q: bytes)
      requires |ring| == INPUT
      ensures |q| == count
    {
      seq(count, i requires 0 <= i < count => ring[(head + i) % INPUT])
    }

    /** The counter is the number of queued lines. */
    ghost predicate Ok() {
      Shaped() && Intact() && (canonical ==> ready == Lines(Queue()) && RETURN !in Queue())
    }

    /** A read of at least one byte would succeed. */
    predicate Readable() {
      count > 0 && (canonical ==> ready > 0)
    }
  }

  function Fresh(canonical: bool, isig: bool): Tty {
    Tty(canonical, isig, Zeros(INPUT), 0, 0, 0, 0, [], 0)
  }

  function Put(t: Tty, ch: byte): Tty
    requires t.tail < |t.ring| == INPUT
  {
    t.(ring := t.ring[t.tail := ch], tail := (t.tail + 1) % INPUT, count := t.count + 1)
  }

  ghost function PutAll(t: Tty, b: bytes): Tty
    requires t.tail < |t.ring| == INPUT
    decreases |b|
  {
    if b == [] then t else PutAll(Put(t, b[0]), b[1..])
  }

  function DropOne(t: Tty): Tty {
    t.(tail := (t.tail + INPUT - 1) % INPUT, count := if t.count > 0 then t.count - 1 else 0)
  }

  /** `n` bytes taken off the end of the ring. */
  ghost function Dropped(t: Tty, n: nat): (u: Tty)
    ensures u == t.(tail := u.tail, count := u.count)
    decreases n
  {
    if n == 0 then t else Dropped(DropOne(t), n - 1)
  }

  lemma PutQueue(t: Tty, ch: byte)
    requires t.Shaped() && t.Intact() && t.count < INPUT
    ensures Put(t, ch).Shaped() && Put(t, ch).Intact() && Put(t, ch).Queue() == t.Queue() + [ch]
  {
  }

  lemma {:induction false} PutAllQueue(t: Tty, b: bytes)
    requires t.Shaped() && t.count + |b| <= INPUT
    ensures PutAll(t, b).Shaped()
    ensures PutAll(t, b) == t.(ring := PutAll(t, b).ring, tail := PutAll(t, b).tail, count := t.count + |b|)
    ensures t.Intact() ==> PutAll(t, b).Intact() && PutAll(t, b).Queue() == t.Queue() + b
    decreases |b|
  {
    if b != [] {
      PutAllQueue(Put(t, b[0]), b[1..]);
      if t.Intact() {
        PutQueue(t, b[0]);
        assert t.Queue() + [b[0]] + b[1..] == t.Queue() + b;
      }
    }
  }

  lemma {:induction false} DroppedTail(t: Tty, n: nat)
    requires t.Shaped() && n < LINE_MAX
    ensures Dropped(t, n).Shaped() && Dropped(t, n).tail == (t.tail + INPUT - n) % INPUT
    ensures Dropped(t, n).count == if n <= t.count then t.count - n else 0
    decreases n
  {
    if n > 0 {
      DroppedTail(DropOne(t), n - 1);
    }
  }

  // ------------------------------------------------------------------ typing

  /** What editing may make of the line and of the length kept beside it: recalling an
      earlier line changes only the line. */
  ghost predicate GoodEdit(t: Tty, edited: bytes, chars: nat) {
    |edited| < LINE_MAX && Plain(edited) && (chars == |edited| || chars == t.lineChars)
  }

  /** A control byte: takes as many bytes off the ring as the line being typed has. */
  ghost function Interrupted(t: Tty): Tty {
    Dropped(t, t.lineChars).(lineChars := 0)
  }

  /** A line end hands the edited line over, if there is room. */
  ghost function Entered(t: Tty): Tty
    requires t.tail < |t.ring| == INPUT
  {
    if t.count + |t.edit| + 1 > INPUT then t
    else PutAll(t, t.edit + [NEWLINE]).(ready := t.ready + 1, edit := [], lineChars := 0)
  }

  /** A byte of a terminal without line editing. */
  ghost function Raw(t: Tty, ch: byte): Tty
    requires t.tail < |t.ring| == INPUT
  {
    if t.count == INPUT then t
    else Put(t, ch).(lineChars := if 0x80 <= ch <= 0x83 then t.lineChars else if LineEnd(ch) then 0 else t.lineChars + 1)
  }

  /** Typing a byte. Bytes of a canonical terminal other than control bytes and line
      ends only change the line, to `edited` with the length kept as `chars`. */
  ghost function Typed(t: Tty, ch: byte, edited: bytes, chars: nat): Tty
    requires t.Shaped() && GoodEdit(t, edited, chars)
  {
    if !t.canonical then Raw(t, ch)
    else if t.isig && Control(ch) then Interrupted(t)
    else if LineEnd(ch) then Entered(t)
    else t.(edit := edited, lineChars := chars)
  }

  lemma TypedShaped(t: Tty, ch: byte, edited: bytes, chars: nat)
    requires t.Shaped() && GoodEdit(t, edited, chars)
    ensures Typed(t, ch, edited, chars).Shaped()
  {
    if t.canonical {
      DroppedTail(t, t.lineChars);
      if t.count + |t.edit| + 1 <= INPUT {
        PutAllQueue(t, t.edit + [NEWLINE]);
      }
    }
  }

  lemma EnteredOk(t: Tty)
    requires t.Ok() && t.canonical && t.count + |t.edit| + 1 <= INPUT
    ensures Entered(t).Ok()
  {
    var line := t.edit + [NEWLINE];
    PutAllQueue(t, line);
    LinesAppend(t.Queue(), line);
    LinesAppend(t.edit, [NEWLINE]);
    NoLines(t.edit);
    assert Lines([NEWLINE]) == 1 + Lines([]);
  }

  /** A byte that is no interrupt of a line being typed keeps the counter right. */
  lemma TypedOk(t: Tty, ch: byte, edited: bytes, chars: nat)
    requires t.Ok() && GoodEdit(t, edited, chars) && !(Interrupts(t, ch) && t.lineChars > 0)
    ensures Typed(t, ch, edited, chars).Ok()
  {
    TypedShaped(t, ch, edited, chars);
    if t.canonical && LineEnd(ch) && t.count + |t.edit| + 1 <= INPUT {
      EnteredOk(t);
    } else if !t.canonical && t.count < INPUT {
      PutQueue(t, ch);
    }
  }

  /** The byte is taken for a signal. */
  predicate Interrupts(t: Tty, ch: byte) {
    t.canonical && t.isig && Control(ch)
  }

  /** An interrupt is meant to discard the unfinished line and to keep the complete
      ones queued. But the unfinished line is not in the ring: what goes is the end of
      the complete lines, and with fewer bytes than that queued the ring's end moves in
      front of its start. EXACT CONDITION: the queue stays as it is exactly when no
      line is being typed. */
  lemma InterruptKeepsExactlyWhen(t: Tty)
    requires t.Shaped() && t.Intact() && t.canonical
    ensures Interrupted(t).Intact() && Interrupted(t).Queue() == t.Queue() <==> t.lineChars == 0
    ensures t.lineChars <= t.count ==> Interrupted(t).Intact() && Interrupted(t).Queue() == t.Queue()[..t.count - t.lineChars]
    ensures t.lineChars > t.count ==> !Interrupted(t).Intact()
  {
    var u := Interrupted(t);
    DroppedTail(t, t.lineChars);
    BackFrom(t.head, t.count, t.lineChars);
    if t.lineChars <= t.count {
      assert u.Queue() == t.Queue()[..t.count - t.lineChars];
    }
  }

  lemma BackFrom(h: nat, c: nat, n: nat)
    requires h < INPUT && c <= INPUT && n < LINE_MAX
    ensures n <= c ==> ((h + c) % INPUT + INPUT - n) % INPUT == (h + (c - n)) % INPUT
    ensures n > c ==> ((h + c) % INPUT + INPUT - n) % INPUT != h
  {
    var x := (h + c) % INPUT;
    assert x == h + c || x == h + c - INPUT || x == h + c - 2 * INPUT;
  }

  // ----------------------------------------------------------------- reading

  function Shown(ch: byte): byte {
    if ch == RETURN then NEWLINE else ch
  }

  /** How many bytes a read of up to `n` takes: in canonical mode no further than
      the first line end. */
  ghost predicate Takes(t: Tty, n: nat, k: nat)
    requires |t.ring| == INPUT
  {
    && k <= n && k <= t.count
    && (forall j | 0 <= j < k - 1 :: !(t.canonical && Shown(t.Queue()[j]) == NEWLINE))
    && (k == n || k == t.count || (k > 0 && t.canonical && Shown(t.Queue()[k - 1]) == NEWLINE))
  }

  ghost function After(t: Tty, k: nat): Tty
    requires |t.ring| == INPUT && k <= t.count && (t.canonical ==> t.ready > 0)
  {
    if t.canonical && k > 0 && Shown(t.Queue()[k - 1]) == NEWLINE then Popped(t, k).(ready := t.ready - 1) else Popped(t, k)
  }

  /** The ring without its first `k` bytes. */
  function Popped(t: Tty, k: nat): Tty
    requires k <= t.count
  {
    t.(head := (t.head + k) % INPUT, count := t.count - k)
  }

  lemma WrapNext(h: nat, k: nat)
    ensures ((h + k) % INPUT + 1) % INPUT == (h + k + 1) % INPUT
  {
  }

  lemma WrapSum(h: nat, k: nat, i: nat)
    requires h < INPUT && k <= INPUT && i <= INPUT
    ensures ((h + k) % INPUT + i) % INPUT == (h + k + i) % INPUT
  {
  }

  lemma PoppedQueue(t: Tty, k: nat)
    requires t.Shaped() && k <= t.count
    ensures Popped(t, k).Queue() == t.Queue()[k..] && (t.Intact() ==> Popped(t, k).Intact())
  {
    var u := Popped(t, k);
    WrapSum(t.head, k, t.count - k);
    forall i | 0 <= i < u.count ensures u.Queue()[i] == t.Queue()[k..][i] {
      WrapSum(t.head, k, i);
    }
  }

  lemma SameRing(t: Tty, ready: nat)
    requires |t.ring| == INPUT
    ensures t.(ready := ready).Queue() == t.Queue()
  {
  }

  lemma AfterQueue(t: Tty, k: nat)
    requires t.Shaped() && k <= t.count && (t.canonical ==> t.ready > 0)
    ensures After(t, k).Shaped() && After(t, k).Queue() == t.Queue()[k..] && (t.Intact() ==> After(t, k).Intact())
  {
    PoppedQueue(t, k);
    SameRing(Popped(t, k), After(t, k).ready);
  }

  /** Lines before and after the first `k` bytes, of which only the last may end one. */
  lemma LinesTaken(q: bytes, k: nat)
    requires 0 < k <= |q| && NEWLINE !in q[..k - 1]
    ensures Lines(q) == (if q[k - 1] == NEWLINE then 1 else 0) + Lines(q[k..])
  {
    var last, before := q[k - 1], q[..k - 1];
    assert q == before + [last] + q[k..];
    LinesAppend(before + [last], q[k..]);
    LinesAppend(before, [last]);
    NoLines(before);
    assert Lines([last]) == (if last == NEWLINE then 1 else 0) + Lines([]);
  }

  lemma AfterOk(t: Tty, n: nat, k: nat)
    requires t.Shaped() && Takes(t, n, k) && t.Readable()
    ensures After(t, k).Shaped() && (t.Ok() ==> After(t, k).Ok())
  {
    AfterQueue(t, k);
    var q := t.Queue();
    if t.Ok() && t.canonical && k > 0 {
      assert NEWLINE !in q[..k - 1];
      LinesTaken(q, k);
    }
  }

  /** `data` are the first bytes of the queue as shown, without a line end before the
      last one, which `ended` tells. */
  ghost predicate ReadSoFar(canonical: bool, queue: bytes, data: bytes, ended: bool) {
    && |data| <= |queue|
    && (forall j | 0 <= j < |data| :: data[j] == Shown(queue[j]))
    && (forall j | 0 <= j < |data| - 1 :: !(canonical && Shown(queue[j]) == NEWLINE))
    && (ended <==> data != [] && canonical && Shown(queue[|data| - 1]) == NEWLINE)
  }

  class Terminal {
    const canonical: bool
    const isig: bool
    const ring: array<byte>
    var head: nat
    var tail: nat
    var count: nat
    var ready: nat
    var edit: bytes
    var lineChars: nat

    ghost function View(): Tty
      reads this, ring
    {
      Tty(canonical, isig, ring[..], head, tail, count, ready, edit, lineChars)
    }

    constructor (canonical: bool, isig: bool)
      ensures View() == Fresh(canonical, isig) && fresh(ring)
    {
      this.canonical, this.isig := canonical, isig;
      ring := new byte[INPUT](_ => 0);
      head, tail, count, ready, edit, lineChars := 0, 0, 0, 0, [], 0;
    }

    method Store(ch: byte)
      requires View().Shaped() && count < INPUT
      modifies this`tail, this`count, ring
      ensures View() == Put(old(View()), ch) && View().Shaped()
    {
      ring[tail] := ch;
      tail := (tail + 1) % INPUT;
      count := count + 1;
    }

    /** The edited line and a line end. */
    method HandOver()
      requires View().Shaped() && count + |edit| + 1 <= INPUT
      modifies this`tail, this`count, ring
      ensures View() == PutAll(old(View()), edit + [NEWLINE]) && View().Shaped()
    {
      ghost var all := edit + [NEWLINE];
      ghost var goal := PutAll(View(), all);
      for i := 0 to |edit|
        invariant View().Shaped() && count + |edit| + 1 - i <= INPUT && edit == old(edit)
        invariant PutAll(View(), all[i..]) == goal
      {
        assert all[i..][1..] == all[i + 1..] && all[i..][0] == edit[i];
        Store(edit[i]);
      }
      assert all[|edit|..] == [NEWLINE] && [NEWLINE][1..] == [];
      assert PutAll(View(), [NEWLINE]) == PutAll(Put(View(), NEWLINE), []);
      Store(NEWLINE);
    }

    /** A control byte. */
    method Discard()
      requires View().Shaped()
      modifies this`tail, this`count, this`lineChars
      ensures View() == Interrupted(old(View()))
    {
      ghost var goal := Dropped(View(), lineChars);
      while lineChars > 0
        invariant View().Shaped() && Dropped(View(), lineChars).(lineChars := 0) == goal.(lineChars := 0)
        decreases lineChars
      {
        Retreat();
        DroppedRelabelled(View(), lineChars - 1, lineChars - 1);
        lineChars := lineChars - 1;
      }
    }

    method Retreat()
      requires View().Shaped()
      modifies this`tail, this`count
      ensures View() == DropOne(old(View())) && View().Shaped()
    {
      tail := (tail + INPUT - 1) % INPUT;
      if count > 0 {
        count := count - 1;
      }
    }

    /** The next byte of the ring, the `i`-th since it was `was`. */
    method Fetch(ghost was: Tty, ghost i: nat) returns (ch: byte)
      requires was.Shaped() && i < was.count && View() == Popped(was, i)
      modifies this`head, this`count
      ensures View() == Popped(was, i + 1) && ch == was.Queue()[i]
    {
      ch := ring[head];
      WrapNext(was.head, i);
      head := (head + 1) % INPUT;
      count := count - 1;
    }

    /** A typed byte; -2 if there is no room for it. */
    method Input(ch: byte, edited: bytes, chars: nat) returns (code: int)
      requires View().Shaped() && GoodEdit(View(), edited, chars)
      modifies this, ring
      ensures View() == Typed(old(View()), ch, edited, chars) && View().Shaped()
      ensures code == 0 || (code == -2 && View() == old(View()))
    {
      TypedShaped(View(), ch, edited, chars);
      code := 0;
      if canonical && isig && Control(ch) {
        Discard();
      } else if canonical && LineEnd(ch) {
        if count + |edit| + 1 > INPUT {
          return -2;
        }
        HandOver();
        ready, edit, lineChars := ready + 1, [], 0;
      } else if canonical {
        edit, lineChars := edited, chars;
      } else {
        if count == INPUT {
          return -2;
        }
        Store(ch);
        if !(0x80 <= ch <= 0x83) {
          lineChars := if LineEnd(ch) then 0 else lineChars + 1;
        }
      }
    }

    /** Take bytes up to a line end. A readable terminal yields something. */
    method Read(n: nat) returns (code: int, data: bytes)
      requires View().Shaped()
      modifies this`head, this`count, this`ready
      ensures View().Shaped()
      ensures code == 0 <==> n > 0 && old(View()).Readable()
      ensures code != 0 ==> code == -3 && View() == old(View()) && data == []
      ensures code == 0 ==>
                |data| > 0 && Takes(old(View()), n, |data|) && View() == After(old(View()), |data|)
                && forall j | 0 <= j < |data| :: data[j] == Shown(old(View()).Queue()[j])
    {
      data := [];
      ghost var was := View();
      if canonical && ready == 0 {
        return -3, [];
      }
      var ended := false;
      while |data| < n && count > 0 && !ended
        invariant |data| <= n && |data| <= was.count && ready == was.ready
        invariant View() == Popped(was, |data|)
        invariant ReadSoFar(was.canonical, was.Queue(), data, ended)
      {
        var ch := Fetch(was, |data|);
        data := data + [Shown(ch)];
        ended := canonical && Shown(ch) == NEWLINE;
      }
      if ended {
        ready := ready - 1;
      }
      code := if data != [] then 0 else -3;
    }
  }

  lemma {:induction false} DroppedRelabelled(t: Tty, n: nat, chars: nat)
    ensures Dropped(t.(lineChars := chars), n) == Dropped(t, n).(lineChars := chars)
    decreases n
  {
    if n > 0 {
      DroppedRelabelled(DropOne(t), n - 1, chars);
    }
  }

  // ------------------------------------------------------------ the protocol

  /** The input lock, while a reader that found nothing to read still holds it. */
  datatype Lock = Free | Held(reader: nat)

  /** `wakes` counts the depositors between their deposit and their wake. */
  datatype State = State(term: Tty, lock: Lock, blocked: set<nat>, wakes: nat)

  datatype Step =
    | Deposit(ch: byte, edited: bytes, chars: nat)
    | WakeAll
    | Check(reader: nat)
    | Block
    | Take(n: nat, k: nat)
    | GiveUp(reader: nat)

  ghost predicate Next(s: State, step: Step, s': State)
    requires s.term.Shaped()
  {
    match step
    case Deposit(ch, edited, chars) =>
      && s.lock.Free? && GoodEdit(s.term, edited, chars)
      && s' == s.(term := Typed(s.term, ch, edited, chars), wakes := s.wakes + 1)
    // without the input lock, so also between a reader's check and its block
    case WakeAll =>
      s.wakes > 0 && s' == s.(blocked := {}, wakes := s.wakes - 1)
    case Check(reader) =>
      s.lock.Free? && !s.term.Readable() && s' == s.(lock := Held(reader))
    case Block =>
      s.lock.Held? && s' == s.(lock := Free, blocked := s.blocked + {s.lock.reader})
    // a read by somebody who finds data
    case Take(n, k) =>
      && s.lock.Free? && n > 0 && s.term.Readable() && Takes(s.term, n, k)
      && s' == s.(term := After(s.term, k))
    case GiveUp(reader) =>
      s' == s.(blocked := s.blocked - {reader})
  }

  ghost predicate Invariant(s: State) {
    && s.term.Shaped()
    && (s.lock.Held? ==> !s.term.Readable())
    && (s.blocked != {} && s.term.Readable() ==> s.wakes > 0)
  }

  lemma StepHolds(s: State, step: Step, s': State)
    requires Invariant(s) && Next(s, step, s')
    ensures Invariant(s')
  {
    match step
    case Deposit(ch, edited, chars) => TypedShaped(s.term, ch, edited, chars);
    case Take(n, k) => AfterOk(s.term, n, k);
    case _ =>
  }

  /** A run from an empty terminal. */
  ghost predicate Run(states: seq<State>, steps: seq<Step>) {
    && |states| == |steps| + 1
    && (exists canonical: bool, isig: bool :: states[0] == State(Fresh(canonical, isig), Free, {}, 0))
    && forall i | 0 <= i < |steps| :: states[i].term.Shaped() && Next(states[i], steps[i], states[i + 1])
  }

  /** No lost wakeup: in every reachable state, while a reader is blocked although
      its read would succeed, some depositor has still to wake it. */
  lemma {:induction false} NoLostWakeup(states: seq<State>, steps: seq<Step>, i: nat)
    requires Run(states, steps) && i < |states|
    ensures Invariant(states[i])
    ensures states[i].blocked != {} && states[i].term.Readable() ==> states[i].wakes > 0
  {
    if i > 0 {
      NoLostWakeup(states, steps, i - 1);
      StepHolds(states[i - 1], steps[i - 1], states[i]);
    }
  }

  /** A readable terminal has something for a read of any length. */
  lemma TakePossible(t: Tty, n: nat) returns (k: nat)
    requires t.Shaped() && t.Readable() && n > 0
    ensures k > 0 && Takes(t, n, k)
  {
    var q := t.Queue();
    k := 1;
    while k < n && k < t.count && !(t.canonical && Shown(q[k - 1]) == NEWLINE)
      invariant 1 <= k <= n && k <= t.count
      invariant forall j | 0 <= j < k - 1 :: !(t.canonical && Shown(q[j]) == NEWLINE)
    {
      k := k + 1;
    }
  }

  /** In every reachable state a blocked reader whose read would succeed is two steps
      away from its data: the wake that is due, and the read. */
  lemma BlockedReaderServed(states: seq<State>, steps: seq<Step>, i: nat, n: nat) returns (k: nat, a: State, b: State)
    requires Run(states, steps) && i < |states| && states[i].blocked != {} && states[i].term.Readable() && n > 0
    ensures states[i].term.Shaped() && Next(states[i], WakeAll, a) && a.blocked == {}
    ensures a.term.Shaped() && Next(a, Take(n, k), b) && k > 0
  {
    NoLostWakeup(states, steps, i);
    var s := states[i];
    a := s.(blocked := {}, wakes := s.wakes - 1);
    k := TakePossible(s.term, n);
    b := a.(term := After(a.term, k));
  }

  /** The step interrupts while a line is being typed. */
  ghost predicate CutsLine(s: State, step: Step) {
    step.Deposit? && Interrupts(s.term, step.ch) && s.term.lineChars > 0
  }

  /** As long as no line being typed is interrupted, the ring is intact and the counter
      is the number of complete lines queued. */
  lemma {:induction false} LinesCounted(states: seq<State>, steps: seq<Step>, i: nat)
    requires Run(states, steps) && i < |states| && forall k | 0 <= k < i :: !CutsLine(states[k], steps[k])
    ensures states[i].term.Ok()
  {
    if i == 0 {
      NoLines(states[0].term.Queue());
    } else {
      LinesCounted(states, steps, i - 1);
      var s, step, s' := states[i - 1], steps[i - 1], states[i];
      assert Next(s, step, s');
      match step
      case Deposit(ch, edited, chars) =>
        assert !CutsLine(s, step);
        TypedOk(s.term, ch, edited, chars);
      case Take(n, k) => AfterOk(s.term, n, k);
      case _ =>
    }
  }

  /** One complete line queued and one character of the next typed: Ctrl-C takes the
      line end of the complete line. Its reader gets the line without it, and the
      counter says for good that there is a line. */
  lemma LineEndLost() returns (t: Tty, u: Tty)
    ensures t.Ok() && t.canonical && t.Queue() == [97, NEWLINE] && t.ready == 1 && t.lineChars == 1
    ensures u == Interrupted(t) && u.Queue() == [97] && Takes(u, 100, 1)
    ensures u.Readable() && After(u, 1).count == 0 && After(u, 1).ready == 1
  {
    var s := Fresh(true, true).(edit := [97], lineChars := 1);
    NoLines(s.Queue());
    EnteredOk(s);
    PutAllQueue(s, s.edit + [NEWLINE]);
    assert s.Queue() == [];
    t := Entered(s).(edit := [98], lineChars := 1);
    assert t.Queue() == Entered(s).Queue() == [] + ([97] + [NEWLINE]);
    InterruptKeepsExactlyWhen(t);
    u := Interrupted(t);
    DroppedTail(t, 1);
    assert u.Queue() == t.Queue()[..1];
  }

  // ------------------------------------------------------- nothing lost, in order

  /** What typing `ch` passes on to the readers: without line editing the byte itself,
      else the whole line at its end, as long as there is room. */
  function PassedOn(t: Tty, ch: byte): bytes {
    if !t.canonical then (if t.count < 4096 then [ch] else [])
    else if (ch == 10 || ch == 13) && t.count + |t.edit| < 4096 then t.edit + [10]
    else []
  }

  /** The bytes as a reader gets them. */
  ghost function ShownAll(b: bytes): (r: bytes)
    ensures |r| == |b|
  {
    seq(|b|, i requires 0 <= i < |b| => if b[i] == 13 then 10 else b[i])
  }

  /** The queue behind a typed byte, and the line. */
  lemma TypedQueue(t: Tty, ch: byte, edited: bytes, chars: nat)
    requires t.Shaped() && t.Intact() && GoodEdit(t, edited, chars) && !(Interrupts(t, ch) && t.lineChars > 0)
    ensures var u := Typed(t, ch, edited, chars);
            && u.Shaped() && u.Intact() && u.Queue() == t.Queue() + PassedOn(t, ch)
            && (t.canonical && PassedOn(t, ch) != [] ==> u.edit == [])
            && (t.canonical && PassedOn(t, ch) == [] && !LineEnd(ch) && !Interrupts(t, ch) ==> u.edit == edited)
  {
    TypedShaped(t, ch, edited, chars);
    if !t.canonical {
      if t.count < INPUT {
        PutQueue(t, ch);
      }
    } else if LineEnd(ch) && !Interrupts(t, ch) && t.count + |t.edit| + 1 <= INPUT {
      PutAllQueue(t, t.edit + [NEWLINE]);
    }
  }

  function StepGives(s: State, step: Step): bytes {
    if step.Deposit? then PassedOn(s.term, step.ch) else []
  }

  ghost function StepGets(s: State, step: Step): bytes
    requires s.term.Shaped() && (step.Take? ==> step.k <= s.term.count)
  {
    if step.Take? then ShownAll(s.term.Queue()[..step.k]) else []
  }

  /** All that was passed on in the first `i` steps of a run. */
  ghost function Given(states: seq<State>, steps: seq<Step>, i: nat): bytes
    requires i <= |steps| < |states|
  {
    if i == 0 then [] else Given(states, steps, i - 1) + StepGives(states[i - 1], steps[i - 1])
  }

  /** All that readers got in the first `i` steps. */
  ghost function Got(states: seq<State>, steps: seq<Step>, i: nat): bytes
    requires Run(states, steps) && i <= |steps|
  {
    if i == 0 then []
    else
      assert Next(states[i - 1], steps[i - 1], states[i - 1 + 1]);
      Got(states, steps, i - 1) + StepGets(states[i - 1], steps[i - 1])
  }

  lemma ShownJoin(a: bytes, b: bytes)
    ensures ShownAll(a + b) == ShownAll(a) + ShownAll(b)
  {
  }

  /** One step of a run: what is queued and what readers get come to what was queued
      before and what was passed on. */
  lemma StepConserves(s: State, step: Step, s': State)
    requires s.term.Shaped() && s.term.Intact() && Next(s, step, s') && !CutsLine(s, step)
    ensures s'.term.Shaped() && s'.term.Intact()
    ensures StepGets(s, step) + ShownAll(s'.term.Queue()) == ShownAll(s.term.Queue()) + ShownAll(StepGives(s, step))
  {
    var q := s.term.Queue();
    match step
    case Deposit(ch, edited, chars) =>
      TypedQueue(s.term, ch, edited, chars);
      ShownJoin(q, PassedOn(s.term, ch));
    case Take(n, k) =>
      AfterQueue(s.term, k);
      assert q == q[..k] + s'.term.Queue();
      ShownJoin(q[..k], s'.term.Queue());
    case _ =>
      assert s'.term.Queue() == q;
  }

  lemma Chained(got: bytes, queue: bytes, given: bytes, gets: bytes, queue': bytes, gives: bytes)
    requires got + queue == given && gets + queue' == queue + gives
    ensures (got + gets) + queue' == given + gives
  {
    assert (got + gets) + queue' == got + (gets + queue') == (got + queue) + gives;
  }

  /** CONSERVATION. In every run without an interrupted line, what readers got and what
      is still queued is exactly what was passed on, in order. */
  lemma {:induction false} InputConserved(states: seq<State>, steps: seq<Step>, i: nat)
    requires Run(states, steps) && i <= |steps| && forall k | 0 <= k < i :: !CutsLine(states[k], steps[k])
    ensures states[i].term.Shaped() && states[i].term.Intact()
    ensures Got(states, steps, i) + ShownAll(states[i].term.Queue()) == ShownAll(Given(states, steps, i))
  {
    if i > 0 {
      InputConserved(states, steps, i - 1);
      var s, step, s' := states[i - 1], steps[i - 1], states[i - 1 + 1];
      assert Next(s, step, s') && !CutsLine(s, step);
      StepConserves(s, step, s');
      ShownJoin(Given(states, steps, i - 1), StepGives(s, step));
      Chained(Got(states, steps, i - 1), ShownAll(s.term.Queue()), ShownAll(Given(states, steps, i - 1)),
              StepGets(s, step), ShownAll(s'.term.Queue()), ShownAll(StepGives(s, step)));
    }
  }
}

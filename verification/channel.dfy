/** Channels: a growing ring of values under a lock, with one condition for readers to wait on and one
    for writers, used by any number of threads. */
module Channels {
  import opened Wrappers

  const INITIAL_SIZE: nat := 16

  // ---------- the ring ----------

  datatype Ring<V> = Ring(items: seq<V>, start: nat, count: nat)

  /** The place of the i-th item from start in a ring of the given size */
  function Slot(start: nat, i: nat, size: nat): (k: nat)
    requires start < size && i <= size
    ensures k < size && k == if start + i < size then start + i else start + i - size
  {
    Around(start + i, size);
    (start + i) % size
  }

  lemma Around(x: nat, n: nat)
    requires x < 2 * n
    ensures x % n == if x < n then x else x - n
  {
    if x >= n {
      assert x == n + (x - n);
    }
  }

  ghost predicate InRange<V>(r: Ring<V>)
  {
    r.start < |r.items| && r.count <= |r.items|
  }

  /** The unread values, oldest first */
  ghost function View<V>(r: Ring<V>): (q: seq<V>)
    requires InRange(r)
    ensures |q| == r.count
    ensures forall i :: 0 <= i < r.count ==> q[i] == r.items[Slot(r.start, i, |r.items|)]
  {
    seq(r.count, i requires 0 <= i < r.count => r.items[Slot(r.start, i, |r.items|)])
  }

  /** _channel_reserve_unlocked: a larger buffer, with the part up to the end of the old one first and
      the part that had wrapped around after it */
  function Reserved<V>(r: Ring<V>, size: nat, blank: V): Ring<V>
    requires r.start < |r.items| && r.count <= |r.items|
  {
    if |r.items| >= size then r else
    var straight := if |r.items| - r.start > r.count then r.count else |r.items| - r.start;
    var rotated := r.count - straight;
    Ring(r.items[r.start..r.start + straight] + r.items[..rotated] + seq(size - r.count, i => blank), 0, r.count)
  }

  lemma ReservedKeeps<V>(r: Ring<V>, size: nat, blank: V)
    requires InRange(r)
    ensures InRange(Reserved(r, size, blank)) && |Reserved(r, size, blank).items| >= size
    ensures |Reserved(r, size, blank).items| >= |r.items|
    ensures View(Reserved(r, size, blank)) == View(r)
  {
    var big := Reserved(r, size, blank);
    if |r.items| < size {
      forall i | 0 <= i < r.count
        ensures big.items[Slot(0, i, |big.items|)] == r.items[Slot(r.start, i, |r.items|)]
      {
      }
    }
  }

  lemma ReservedUnchanged<V>(r: Ring<V>, size: nat, blank: V)
    requires InRange(r)
    ensures |r.items| >= size ==> Reserved(r, size, blank) == r
  {
  }

  /** The two pieces and the blanks behind them make up the larger buffer. */
  lemma Copied<V>(r: Ring<V>, bigger: seq<V>, size: nat, blank: V)
    requires InRange(r) && |r.items| < size == |bigger|
    requires var straight := if |r.items| - r.start > r.count then r.count else |r.items| - r.start;
      && (forall k :: 0 <= k < straight ==> bigger[k] == r.items[r.start + k])
      && (forall k :: 0 <= k < r.count - straight ==> bigger[straight + k] == r.items[k])
      && (forall k :: r.count <= k < size ==> bigger[k] == blank)
    ensures Ring(bigger, 0, r.count) == Reserved(r, size, blank)
  {
    var big := Reserved(r, size, blank).items;
    var straight := if |r.items| - r.start > r.count then r.count else |r.items| - r.start;
    forall k | 0 <= k < size
      ensures bigger[k] == big[k]
    {
      if straight <= k < r.count {
        assert bigger[straight + (k - straight)] == r.items[k - straight];
      }
    }
  }

  /** Dropping the oldest value: start moves on, and only then the count goes down. */
  lemma Dropped<V>(r: Ring<V>)
    requires InRange(r) && r.count > 0
    ensures var next := Ring(r.items, Slot(r.start, 1, |r.items|), r.count - 1);
      InRange(next) && View(r) == [r.items[r.start]] + View(next)
  {
    var next := Ring(r.items, Slot(r.start, 1, |r.items|), r.count - 1);
    forall i | 0 <= i < next.count
      ensures View(next)[i] == View(r)[i + 1]
    {
      assert Slot(next.start, i, |r.items|) == Slot(r.start, i + 1, |r.items|);
    }
    assert Slot(r.start, 0, |r.items|) == r.start;
  }

  /** Storing behind the newest value touches no unread one. */
  lemma Stored<V>(r: Ring<V>, v: V)
    requires InRange(r) && r.count < |r.items|
    ensures var to := Slot(r.start, r.count, |r.items|); var next := r.(items := r.items[to := v]);
      && InRange(next) && View(next) == View(r) && next.items[to] == v
  {
    var to := Slot(r.start, r.count, |r.items|);
    forall i | 0 <= i < r.count
      ensures Slot(r.start, i, |r.items|) != to
    {
    }
  }

  lemma Counted<V>(r: Ring<V>)
    requires InRange(r) && r.count < |r.items|
    ensures View(r.(count := r.count + 1)) == View(r) + [r.items[Slot(r.start, r.count, |r.items|)]]
  {
  }

  /** The channel's own fields, and what is done to them inside the lock */
  class Channel<V> {
    var items: array<V>
    var start: nat
    var count: nat

    ghost function AsRing(): Ring<V>
      reads this, items
    {
      Ring(items[..], start, count)
    }

    ghost predicate Valid()
      reads this, items
    {
      InRange(AsRing())
    }

    /** _channel_init */
    constructor (blank: V)
      ensures Valid() && fresh(items) && items.Length == INITIAL_SIZE && View(AsRing()) == []
      ensures start == 0 && count == 0
    {
      items := new V[INITIAL_SIZE](_ => blank);
      start, count := 0, 0;
    }

    /** The end of channel_read and of channel_tryread: the oldest value, once there is one */
    method Take() returns (v: V)
      requires Valid() && count > 0
      modifies this`start, this`count
      ensures Valid() && View(old(AsRing())) == [v] + View(AsRing())
    {
      Dropped(AsRing());
      v := items[start];
      start := Slot(start, 1, items.Length);
      count := count - 1;
    }

    /** The end of channel_write, once there is room */
    method Put(v: V)
      requires Valid() && count < items.Length
      modifies this`count, items
      ensures Valid() && View(AsRing()) == View(old(AsRing())) + [v]
    {
      ghost var before := AsRing();
      Stored(before, v);
      var index := Slot(start, count, items.Length);
      items[index] := v;
      Counted(AsRing());
      count := count + 1;
    }

    /** _channel_reserve_unlocked: copies the unread values in two pieces. */
    method Reserve(size: nat, blank: V)
      requires Valid()
      modifies this`items, this`start
      ensures Valid() && AsRing() == Reserved(old(AsRing()), size, blank) && View(AsRing()) == View(old(AsRing()))
      ensures items.Length >= size && (items == old(items) || fresh(items))
    {
      hide View, Reserved;
      ghost var before := AsRing();
      ReservedKeeps(before, size, blank);
      ReservedUnchanged(before, size, blank);
      if items.Length >= size {
        return;
      }
      var bigger := new V[size](_ => blank);
      var straight := if items.Length - start > count then count else items.Length - start;
      var rotated := count - straight;
      forall k | 0 <= k < straight {
        bigger[k] := items[start + k];
      }
      forall k | 0 <= k < rotated {
        bigger[straight + k] := items[k];
      }
      Copied(before, bigger[..], size, blank);
      items, start := bigger, 0;
    }
  }

  // ---------- threads ----------

  /** Where a thread is. Between the names that end in Lock or Wake and those that end in Signal it
      holds the lock, except while it waits. */
  datatype Pc<V> =
    | Idle
    | ReadLock | ReadCheck | ReadWait | ReadWake
    | ReadShift(v: V) | ReadDrop(v: V) | ReadUnlock(v: V) | ReadSignal(v: V)
    | TryLock | TryCheck | TryShift(v: V) | TryDrop(v: V)
    | TryUnlock(answer: Option<V>)
    | WriteLock(v: V) | WriteCheck(v: V) | WriteWait(v: V) | WriteWake(v: V, late: bool) | WriteGrow(v: V)
    | WriteStore(v: V) | WriteCount(v: V) | WriteUnlock | WriteSignal

  predicate Critical<V>(pc: Pc<V>)
  {
    match pc
    case ReadCheck => true case ReadShift(_) => true case ReadDrop(_) => true case ReadUnlock(_) => true
    case TryCheck => true case TryShift(_) => true case TryDrop(_) => true case TryUnlock(_) => true
    case WriteCheck(_) => true case WriteGrow(_) => true case WriteStore(_) => true case WriteCount(_) => true
    case WriteUnlock => true
    case _ => false
  }

  datatype Entry<V> = Entry(thread: nat, v: V)

  /** What threads have called and been told: the values that calls of channel_write have been given, those
      that have been stored and fetched, and what each finished call of channel_read or channel_tryread has
      returned, with the thread it was */
  datatype Log<V> = Log(asked: seq<Entry<V>>, stored: seq<Entry<V>>, fetched: seq<Entry<V>>,
                        answered: seq<Entry<Option<V>>>)

  /** The channel, the holder of its lock, the threads, the values written and read so far in the order in
      which the count went up and down for them, and the log */
  datatype State<V> = State(ring: Ring<V>, holder: Option<nat>, pcs: seq<Pc<V>>, written: seq<V>, taken: seq<V>,
                            log: Log<V>)

  /** What the scheduler decides: that an idle thread calls something, that a thread goes on, that a
      waiting one wakes up for no reason or because its time is up, and whom a signal wakes. */
  datatype Event<V> = StartRead | StartTry | StartWrite(v: V) | Go | Wake | TimeOut | Notify(w: nat)

  function At<V>(s: State<V>, t: nat, pc: Pc<V>): State<V>
    requires t < |s.pcs|
  {
    s.(pcs := s.pcs[t := pc])
  }

  function Locked<V>(s: State<V>, t: nat, pc: Pc<V>): State<V>
    requires t < |s.pcs|
  {
    if s.holder == None then At(s, t, pc).(holder := Some(t)) else s
  }

  function Unlocked<V>(s: State<V>, t: nat, pc: Pc<V>): State<V>
    requires t < |s.pcs|
  {
    At(s, t, pc).(holder := None)
  }

  /** A call returns. */
  function Answered<V>(s: State<V>, t: nat, answer: Option<V>): State<V>
  {
    s.(log := s.log.(answered := s.log.answered + [Entry(t, answer)]))
  }

  function Fetched<V>(s: State<V>, t: nat, v: V): State<V>
  {
    s.(log := s.log.(fetched := s.log.fetched + [Entry(t, v)]))
  }

  /** One step of thread t, none if the event does not concern it. Inside the lock every access to the
      ring is a step of its own. */
  function Step<V>(s: State<V>, t: nat, e: Event<V>, blank: V): State<V>
    requires t < |s.pcs| && InRange(s.ring)
  {
    var r, pc := s.ring, s.pcs[t];
    match e
    case StartRead => if pc.Idle? then At(s, t, ReadLock) else s
    case StartTry => if pc.Idle? then At(s, t, TryLock) else s
    case StartWrite(v) =>
      if pc.Idle? then At(s, t, WriteLock(v)).(log := s.log.(asked := s.log.asked + [Entry(t, v)])) else s
    case Wake =>
      if pc.ReadWait? then At(s, t, ReadWake) else if pc.WriteWait? then At(s, t, WriteWake(pc.v, false)) else s
    case TimeOut => if pc.WriteWait? then At(s, t, WriteWake(pc.v, true)) else s
    case Notify(w) =>
      if pc.ReadSignal? then
        var done := Answered(At(s, t, Idle), t, Some(pc.v));
        if w < |s.pcs| && done.pcs[w].WriteWait? then At(done, w, WriteWake(done.pcs[w].v, false))
        else if exists x :: 0 <= x < |s.pcs| && s.pcs[x].WriteWait? then s else done
      else if pc.WriteSignal? then
        var done := At(s, t, Idle);
        if w < |s.pcs| && done.pcs[w].ReadWait? then At(done, w, ReadWake)
        else if exists x :: 0 <= x < |s.pcs| && s.pcs[x].ReadWait? then s else done
      else s
    case Go => Onward(s, t, blank)
  }

  function Onward<V>(s: State<V>, t: nat, blank: V): State<V>
    requires t < |s.pcs| && InRange(s.ring)
  {
    var r, n := s.ring, |s.ring.items|;
    match s.pcs[t]
    case ReadLock => Locked(s, t, ReadCheck)
    case ReadWake => Locked(s, t, ReadCheck)
    case ReadCheck => if r.count == 0 then Unlocked(s, t, ReadWait) else At(s, t, ReadShift(r.items[r.start]))
    case ReadShift(v) => At(s, t, ReadDrop(v)).(ring := r.(start := Slot(r.start, 1, n)))
    case ReadDrop(v) => if r.count == 0 then s else
      Fetched(At(s, t, ReadUnlock(v)).(ring := r.(count := r.count - 1), taken := s.taken + [v]), t, v)
    case ReadUnlock(v) => Unlocked(s, t, ReadSignal(v))
    case TryLock => Locked(s, t, TryCheck)
    case TryCheck => if r.count > 0 then At(s, t, TryShift(r.items[r.start])) else At(s, t, TryUnlock(None))
    case TryShift(v) => At(s, t, TryDrop(v)).(ring := r.(start := Slot(r.start, 1, n)))
    case TryDrop(v) => if r.count == 0 then s else
      Fetched(At(s, t, TryUnlock(Some(v))).(ring := r.(count := r.count - 1), taken := s.taken + [v]), t, v)
    case TryUnlock(answer) => Answered(Unlocked(s, t, Idle), t, answer)
    case _ => OnwardWriting(s, t, blank)
  }

  function OnwardWriting<V>(s: State<V>, t: nat, blank: V): State<V>
    requires t < |s.pcs| && InRange(s.ring)
  {
    var r, n := s.ring, |s.ring.items|;
    match s.pcs[t]
    case WriteLock(v) => Locked(s, t, WriteCheck(v))
    case WriteWake(v, late) => Locked(s, t, if late then WriteGrow(v) else WriteCheck(v))
    case WriteCheck(v) => if r.count >= n then Unlocked(s, t, WriteWait(v)) else At(s, t, WriteStore(v))
    case WriteGrow(v) => At(s, t, WriteCheck(v)).(ring := Reserved(r, 2 * n, blank))
    case WriteStore(v) => At(s, t, WriteCount(v)).(ring := r.(items := r.items[Slot(r.start, r.count, n) := v]))
    case WriteCount(v) => if r.count == n then s else
      At(s, t, WriteUnlock).(ring := r.(count := r.count + 1), written := s.written + [v])
        .(log := s.log.(stored := s.log.stored + [Entry(t, v)]))
    case WriteUnlock => Unlocked(s, t, WriteSignal)
    case _ => s
  }

  // ---------- the invariant ----------

  /** What the thread that holds the lock knows, and what the ring holds meanwhile: between the two
      halves of a read the oldest value is already behind start but not yet counted out. */
  ghost predicate Consistent<V>(r: Ring<V>, pc: Pc<V>, queue: seq<V>)
  {
    && InRange(r)
    && match pc
       case ReadShift(v) => r.count > 0 && v == r.items[r.start] && queue == View(r)
       case TryShift(v) => r.count > 0 && v == r.items[r.start] && queue == View(r)
       case ReadDrop(v) => r.count > 0 && queue == [v] + View(r.(count := r.count - 1))
       case TryDrop(v) => r.count > 0 && queue == [v] + View(r.(count := r.count - 1))
       case WriteStore(v) => r.count < |r.items| && queue == View(r)
       case WriteCount(v) => r.count < |r.items| && queue == View(r) && r.items[Slot(r.start, r.count, |r.items|)] == v
       case TryUnlock(answer) => queue == View(r) && (answer == None ==> r.count == 0)
       case _ => queue == View(r)
  }

  ghost predicate Exclusive<V>(s: State<V>)
  {
    && (forall t: nat :: t < |s.pcs| ==> (Critical(s.pcs[t]) <==> s.holder == Some(t)))
    && (s.holder.Some? ==> s.holder.value < |s.pcs|)
  }

  /** Everything written is everything read followed by what the ring holds. */
  ghost predicate Inv<V>(s: State<V>)
  {
    && Exclusive(s) && |s.taken| <= |s.written| && s.taken == s.written[..|s.taken|]
    && Consistent(s.ring, if s.holder.Some? then s.pcs[s.holder.value] else Idle, s.written[|s.taken|..])
  }

  // ---------- every step keeps it ----------

  /** A step of a thread outside the lock, to another place outside it */
  lemma Aside<V>(s: State<V>, t: nat, pc: Pc<V>)
    requires Inv(s) && t < |s.pcs| && !Critical(s.pcs[t]) && !Critical(pc)
    ensures Inv(At(s, t, pc))
  {
  }

  /** Taking the lock */
  lemma Locking<V>(s: State<V>, t: nat, pc: Pc<V>)
    requires Inv(s) && t < |s.pcs| && !Critical(s.pcs[t]) && Critical(pc)
    requires pc.ReadCheck? || pc.TryCheck? || pc.WriteCheck? || pc.WriteGrow?
    ensures Inv(Locked(s, t, pc))
  {
  }

  /** A step of the thread that holds the lock, to another place inside it */
  lemma Within<V>(s: State<V>, t: nat, pc: Pc<V>, ring: Ring<V>, written: seq<V>, taken: seq<V>)
    requires Inv(s) && t < |s.pcs| && s.holder == Some(t) && Critical(pc)
    requires |taken| <= |written| && taken == written[..|taken|] && Consistent(ring, pc, written[|taken|..])
    ensures Inv(State(ring, s.holder, s.pcs[t := pc], written, taken, s.log))
  {
  }

  /** The log is kept for its own sake. */
  lemma Logged<V>(s: State<V>, log: Log<V>)
    requires Inv(s)
    ensures Inv(s.(log := log))
  {
  }

  /** Giving up the lock */
  lemma Unlocking<V>(s: State<V>, t: nat, pc: Pc<V>)
    requires Inv(s) && t < |s.pcs| && s.holder == Some(t) && !Critical(pc)
    requires Consistent(s.ring, Idle, s.written[|s.taken|..])
    ensures Inv(Unlocked(s, t, pc))
  {
  }

  /** The second half of a read: the oldest value is counted out. */
  lemma CountedOut<V>(s: State<V>, t: nat, v: V, pc: Pc<V>)
    requires Inv(s) && t < |s.pcs| && s.holder == Some(t) && (s.pcs[t] == ReadDrop(v) || s.pcs[t] == TryDrop(v))
    requires pc == ReadUnlock(v) || pc == TryUnlock(Some(v))
    ensures s.ring.count > 0
    ensures Inv(At(s, t, pc).(ring := s.ring.(count := s.ring.count - 1), taken := s.taken + [v]))
  {
    var taken, queue, next := s.taken + [v], s.written[|s.taken|..], s.ring.(count := s.ring.count - 1);
    assert queue == [v] + View(next);
    assert s.written[|s.taken|] == queue[0] == v;
    assert taken == s.written[..|taken|];
    assert s.written[|taken|..] == queue[1..] == View(next);
    Within(s, t, pc, next, s.written, taken);
  }

  lemma CountedIn<V>(s: State<V>, t: nat, v: V)
    requires Inv(s) && t < |s.pcs| && s.holder == Some(t) && s.pcs[t] == WriteCount(v)
    ensures s.ring.count < |s.ring.items|
    ensures Inv(At(s, t, WriteUnlock).(ring := s.ring.(count := s.ring.count + 1), written := s.written + [v]))
  {
    var written, next := s.written + [v], s.ring.(count := s.ring.count + 1);
    Counted(s.ring);
    assert written[|s.taken|..] == s.written[|s.taken|..] + [v];
    assert written[..|s.taken|] == s.written[..|s.taken|];
    Within(s, t, WriteUnlock, next, written, s.taken);
  }

  /** What a thread inside the lock may rely on */
  lemma Holding<V>(s: State<V>, t: nat)
    requires Inv(s) && t < |s.pcs| && Critical(s.pcs[t])
    ensures s.holder == Some(t) && Consistent(s.ring, s.pcs[t], s.written[|s.taken|..])
    ensures |s.taken| <= |s.written| && s.taken == s.written[..|s.taken|]
  {
  }

  lemma OnwardKeeps<V>(s: State<V>, t: nat, blank: V)
    requires Inv(s) && t < |s.pcs|
    ensures Inv(Onward(s, t, blank))
  {
    hide Inv, Exclusive, View, Reserved, OnwardWriting;
    if Critical(s.pcs[t]) {
      Holding(s, t);
    }
    var r, n := s.ring, |s.ring.items|;
    match s.pcs[t]
    case ReadLock => Locking(s, t, ReadCheck);
    case ReadWake => Locking(s, t, ReadCheck);
    case TryLock => Locking(s, t, TryCheck);
    case ReadCheck =>
      if r.count == 0 {
        Unlocking(s, t, ReadWait);
      } else {
        Within(s, t, ReadShift(r.items[r.start]), r, s.written, s.taken);
      }
    case ReadShift(v) =>
      Dropped(r);
      Within(s, t, ReadDrop(v), r.(start := Slot(r.start, 1, n)), s.written, s.taken);
    case ReadDrop(v) =>
      var pc := ReadUnlock(v);
      CountedOut(s, t, v, pc);
      Logged(At(s, t, pc).(ring := r.(count := r.count - 1), taken := s.taken + [v]), Onward(s, t, blank).log);
    case ReadUnlock(v) => Unlocking(s, t, ReadSignal(v));
    case TryCheck =>
      Within(s, t, if r.count > 0 then TryShift(r.items[r.start]) else TryUnlock(None), r, s.written, s.taken);
    case TryShift(v) =>
      Dropped(r);
      Within(s, t, TryDrop(v), r.(start := Slot(r.start, 1, n)), s.written, s.taken);
    case TryDrop(v) =>
      var pc := TryUnlock(Some(v));
      CountedOut(s, t, v, pc);
      Logged(At(s, t, pc).(ring := r.(count := r.count - 1), taken := s.taken + [v]), Onward(s, t, blank).log);
    case TryUnlock(answer) =>
      Unlocking(s, t, Idle);
      Logged(Unlocked(s, t, Idle), Onward(s, t, blank).log);
    case _ => OnwardWritingKeeps(s, t, blank);
  }

  lemma OnwardWritingKeeps<V>(s: State<V>, t: nat, blank: V)
    requires Inv(s) && t < |s.pcs|
    ensures Inv(OnwardWriting(s, t, blank))
  {
    hide Inv, Exclusive, View, Reserved;
    if Critical(s.pcs[t]) {
      Holding(s, t);
    }
    var r, n := s.ring, |s.ring.items|;
    match s.pcs[t]
    case WriteLock(v) => Locking(s, t, WriteCheck(v));
    case WriteWake(v, late) => Locking(s, t, if late then WriteGrow(v) else WriteCheck(v));
    case WriteCheck(v) =>
      if r.count >= n {
        Unlocking(s, t, WriteWait(v));
      } else {
        Within(s, t, WriteStore(v), r, s.written, s.taken);
      }
    case WriteGrow(v) =>
      ReservedKeeps(r, 2 * n, blank);
      Within(s, t, WriteCheck(v), Reserved(r, 2 * n, blank), s.written, s.taken);
    case WriteStore(v) =>
      Stored(r, v);
      Within(s, t, WriteCount(v), r.(items := r.items[Slot(r.start, r.count, n) := v]), s.written, s.taken);
    case WriteCount(v) =>
      CountedIn(s, t, v);
      Logged(At(s, t, WriteUnlock).(ring := r.(count := r.count + 1), written := s.written + [v]),
             OnwardWriting(s, t, blank).log);
    case WriteUnlock => Unlocking(s, t, WriteSignal);
    case _ =>
  }

  lemma StepKeeps<V>(s: State<V>, t: nat, e: Event<V>, blank: V)
    requires Inv(s) && t < |s.pcs|
    ensures Inv(Step(s, t, e, blank))
  {
    hide Inv, Onward;
    var pc := s.pcs[t];
    match e
    case Go => OnwardKeeps(s, t, blank);
    case StartRead => if pc.Idle? { Aside(s, t, ReadLock); }
    case StartTry => if pc.Idle? { Aside(s, t, TryLock); }
    case StartWrite(v) =>
      if pc.Idle? {
        Aside(s, t, WriteLock(v));
        Logged(At(s, t, WriteLock(v)), s.log.(asked := s.log.asked + [Entry(t, v)]));
      }
    case Wake =>
      if pc.ReadWait? {
        Aside(s, t, ReadWake);
      } else if pc.WriteWait? {
        Aside(s, t, WriteWake(pc.v, false));
      }
    case TimeOut => if pc.WriteWait? { Aside(s, t, WriteWake(pc.v, true)); }
    case Notify(w) =>
      if pc.ReadSignal? || pc.WriteSignal? {
        Aside(s, t, Idle);
        var done := At(s, t, Idle);
        if pc.ReadSignal? {
          done := Answered(done, t, Some(pc.v));
          Logged(At(s, t, Idle), done.log);
        }
        if w < |s.pcs| && done.pcs[w].WriteWait? {
          Aside(done, w, WriteWake(done.pcs[w].v, false));
        } else if w < |s.pcs| && done.pcs[w].ReadWait? {
          Aside(done, w, ReadWake);
        }
      }
  }

  // ---------- runs ----------

  datatype Turn<V> = Turn(thread: nat, event: Event<V>)

  /** A fresh channel and some idle threads */
  function Start<V>(threads: nat, blank: V): (s: State<V>)
    ensures s.ring.start == 0 && s.ring.count == 0 && |s.ring.items| == 16 && s.holder == None && |s.pcs| == threads
    ensures forall t :: 0 <= t < threads ==> s.pcs[t] == Idle
  {
    State(Ring(seq(INITIAL_SIZE, i => blank), 0, 0), None, seq(threads, i => Idle), [], [], Log([], [], [], []))
  }

  ghost predicate Reaches<V>(s: State<V>, turns: seq<Turn<V>>, blank: V, end: State<V>)
    decreases |turns|
  {
    if turns == [] then end == s
    else
      && turns[0].thread < |s.pcs| && InRange(s.ring)
      && Reaches(Step(s, turns[0].thread, turns[0].event, blank), turns[1..], blank, end)
  }

  lemma {:induction false} RunKeeps<V>(s: State<V>, turns: seq<Turn<V>>, blank: V, end: State<V>)
    requires Inv(s) && Reaches(s, turns, blank, end)
    ensures Inv(end)
    decreases |turns|
  {
    if turns != [] {
      StepKeeps(s, turns[0].thread, turns[0].event, blank);
      RunKeeps(Step(s, turns[0].thread, turns[0].event, blank), turns[1..], blank, end);
    }
  }

  /** First in, first out under every interleaving of any number of threads: whatever the scheduler does
      and whenever waits time out, the values read are the first of those written, in the same order,
      and whenever the lock is free the ring holds just the rest. */
  lemma FirstInFirstOut<V>(threads: nat, blank: V, turns: seq<Turn<V>>, end: State<V>)
    requires Reaches(Start(threads, blank), turns, blank, end)
    ensures InRange(end.ring) && end.taken <= end.written
    ensures end.holder == None ==> end.written == end.taken + View(end.ring)
    ensures forall t, u :: 0 <= t < u < |end.pcs| ==> !(Critical(end.pcs[t]) && Critical(end.pcs[u]))
  {
    var s := Start(threads, blank);
    assert Consistent(s.ring, Idle, s.written[|s.taken|..]);
    RunKeeps(s, turns, blank, end);
    forall t, u | 0 <= t < u < |end.pcs|
      ensures !(Critical(end.pcs[t]) && Critical(end.pcs[u]))
    {
      assert Critical(end.pcs[t]) <==> end.holder == Some(t);
    }
  }

  // ---------- what calls are given and return ----------

  /** The entries of one thread, in order */
  function By<T>(entries: seq<Entry<T>>, t: nat): seq<T>
  {
    if entries == [] then []
    else
      var n := |entries| - 1;
      By(entries[..n], t) + if entries[n].thread == t then [entries[n].v] else []
  }

  /** The values among answers */
  function Given<V>(answers: seq<Option<V>>): seq<V>
  {
    if answers == [] then []
    else
      var n := |answers| - 1;
      Given(answers[..n]) + if answers[n].Some? then [answers[n].value] else []
  }

  function Values<V>(entries: seq<Entry<V>>): (vs: seq<V>)
    ensures |vs| == |entries| && forall i :: 0 <= i < |vs| ==> vs[i] == entries[i].v
  {
    seq(|entries|, i requires 0 <= i < |entries| => entries[i].v)
  }

  /** The value that a call of channel_write has yet to store */
  function Holds<V>(pc: Pc<V>): seq<V>
  {
    match pc
    case WriteLock(v) => [v] case WriteCheck(v) => [v] case WriteWait(v) => [v] case WriteWake(v, _) => [v]
    case WriteGrow(v) => [v] case WriteStore(v) => [v] case WriteCount(v) => [v]
    case _ => []
  }

  /** The value that a call has fetched and has yet to return */
  function Owes<V>(pc: Pc<V>): seq<V>
  {
    match pc
    case ReadUnlock(v) => [v] case ReadSignal(v) => [v]
    case TryUnlock(answer) => if answer.Some? then [answer.value] else []
    case _ => []
  }

  /** A thread has stored just what its calls were given, in their order, and has been told just what it has
      fetched, but for what its present call is about. */
  ghost predicate HonestTo<V>(log: Log<V>, t: nat, pc: Pc<V>)
  {
    && By(log.asked, t) == By(log.stored, t) + Holds(pc)
    && By(log.fetched, t) == Given(By(log.answered, t)) + Owes(pc)
  }

  /** The log tells who has written and taken the values, and every thread gets its own. */
  ghost predicate Honest<V>(s: State<V>)
  {
    && Values(s.log.stored) == s.written && Values(s.log.fetched) == s.taken
    && forall t :: 0 <= t < |s.pcs| ==> HonestTo(s.log, t, s.pcs[t])
  }

  lemma ByMore<T>(entries: seq<Entry<T>>, e: Entry<T>, t: nat)
    ensures By(entries + [e], t) == By(entries, t) + if e.thread == t then [e.v] else []
  {
    assert (entries + [e])[..|entries|] == entries;
  }

  lemma GivenMore<V>(answers: seq<Option<V>>, answer: Option<V>)
    ensures Given(answers + [answer]) == Given(answers) + if answer.Some? then [answer.value] else []
  {
    assert (answers + [answer])[..|answers|] == answers;
  }

  /** A thread moves on without a change of what it holds or owes. */
  lemma HonestAside<V>(s: State<V>, t: nat, next: State<V>)
    requires Honest(s) && t < |s.pcs| && |next.pcs| == |s.pcs| && next.pcs == s.pcs[t := next.pcs[t]]
    requires next.log == s.log && next.written == s.written && next.taken == s.taken
    requires Holds(next.pcs[t]) == Holds(s.pcs[t]) && Owes(next.pcs[t]) == Owes(s.pcs[t])
    ensures Honest(next)
  {
  }

  /** A thread's own entries have grown by one, those of the others have not. */
  ghost predicate Grown<T>(was: seq<Entry<T>>, now: seq<Entry<T>>, t: nat, more: seq<T>)
  {
    now == was + (if more == [] then [] else [Entry(t, more[0])]) && |more| <= 1
  }

  lemma ByGrown<T>(was: seq<Entry<T>>, now: seq<Entry<T>>, t: nat, more: seq<T>)
    requires Grown(was, now, t, more)
    ensures |more| <= 1
    ensures By(now, t) == By(was, t) + more && forall u: nat :: u != t ==> By(now, u) == By(was, u)
  {
    if more == [] {
      assert now == was;
    } else {
      assert more == [more[0]];
      forall u: nat
        ensures By(now, u) == By(was, u) + if u == t then [more[0]] else []
      {
        ByMore(was, Entry(t, more[0]), u);
      }
    }
  }

  /** A thread moves on and makes entries of its own, of what it held or owes. */
  lemma HonestOn<V>(s: State<V>, t: nat, next: State<V>, asked: seq<V>, stored: seq<V>, fetched: seq<V>,
                    answered: seq<Option<V>>)
    requires Honest(s) && t < |s.pcs| && |next.pcs| == |s.pcs| && next.pcs == s.pcs[t := next.pcs[t]]
    requires Grown(s.log.asked, next.log.asked, t, asked) && Grown(s.log.stored, next.log.stored, t, stored)
    requires Grown(s.log.fetched, next.log.fetched, t, fetched) && Grown(s.log.answered, next.log.answered, t, answered)
    requires next.written == s.written + stored && next.taken == s.taken + fetched
    requires Holds(s.pcs[t]) + asked == stored + Holds(next.pcs[t])
    requires Owes(s.pcs[t]) + fetched == Given(answered) + Owes(next.pcs[t])
    ensures Honest(next)
  {
    hide By, Grown, Holds, Owes;
    ByGrown(s.log.asked, next.log.asked, t, asked);
    ByGrown(s.log.stored, next.log.stored, t, stored);
    ByGrown(s.log.fetched, next.log.fetched, t, fetched);
    ByGrown(s.log.answered, next.log.answered, t, answered);
    ValuesGrown(s.log.stored, next.log.stored, t, stored);
    ValuesGrown(s.log.fetched, next.log.fetched, t, fetched);
    assert HonestTo(s.log, t, s.pcs[t]);
    calc {
      By(next.log.asked, t);
      By(s.log.stored, t) + (Holds(s.pcs[t]) + asked);
      By(next.log.stored, t) + Holds(next.pcs[t]);
    }
    GivenJoined(By(s.log.answered, t), answered);
    calc {
      By(next.log.fetched, t);
      Given(By(s.log.answered, t)) + (Owes(s.pcs[t]) + fetched);
      Given(By(next.log.answered, t)) + Owes(next.pcs[t]);
    }
    forall u | 0 <= u < |s.pcs|
      ensures HonestTo(next.log, u, next.pcs[u])
    {
      assert HonestTo(s.log, u, s.pcs[u]);
    }
  }

  lemma GivenJoined<V>(answers: seq<Option<V>>, more: seq<Option<V>>)
    requires |more| <= 1
    ensures Given(answers + more) == Given(answers) + Given(more)
  {
    if more != [] {
      assert more == [] + [more[0]];
      GivenMore([], more[0]);
      GivenMore(answers, more[0]);
    } else {
      assert answers + more == answers;
    }
  }

  lemma ValuesGrown<V>(was: seq<Entry<V>>, now: seq<Entry<V>>, t: nat, more: seq<V>)
    requires Grown(was, now, t, more)
    ensures Values(now) == Values(was) + more
  {
  }

  lemma HonestOnward<V>(s: State<V>, t: nat, blank: V)
    requires Honest(s) && t < |s.pcs| && InRange(s.ring)
    ensures Honest(Onward(s, t, blank))
  {
    hide Honest, OnwardWriting;
    var next := Onward(s, t, blank);
    match s.pcs[t]
    case ReadDrop(v) => if s.ring.count > 0 { HonestOn(s, t, next, [], [], [v], []); }
    case TryDrop(v) => if s.ring.count > 0 { HonestOn(s, t, next, [], [], [v], []); }
    case TryUnlock(answer) =>
      assert Given([answer]) == if answer.Some? then [answer.value] else [];
      HonestOn(s, t, next, [], [], [], [answer]);
    case ReadLock => HonestAside(s, t, next);
    case ReadWake => HonestAside(s, t, next);
    case ReadCheck => HonestAside(s, t, next);
    case ReadShift(_) => HonestAside(s, t, next);
    case ReadUnlock(_) => HonestAside(s, t, next);
    case TryLock => HonestAside(s, t, next);
    case TryCheck => HonestAside(s, t, next);
    case TryShift(_) => HonestAside(s, t, next);
    case _ => HonestWriting(s, t, blank);
  }

  lemma HonestWriting<V>(s: State<V>, t: nat, blank: V)
    requires Honest(s) && t < |s.pcs| && InRange(s.ring)
    ensures Honest(OnwardWriting(s, t, blank))
  {
    hide Honest, Reserved;
    var next := OnwardWriting(s, t, blank);
    if s.pcs[t].WriteCount? && s.ring.count != |s.ring.items| {
      HonestOn(s, t, next, [], [s.pcs[t].v], [], []);
    } else {
      HonestAside(s, t, next);
    }
  }

  lemma HonestStep<V>(s: State<V>, t: nat, e: Event<V>, blank: V)
    requires Honest(s) && t < |s.pcs| && InRange(s.ring)
    ensures Honest(Step(s, t, e, blank))
  {
    hide Honest, Onward;
    var next, pc := Step(s, t, e, blank), s.pcs[t];
    match e
    case Go => HonestOnward(s, t, blank);
    case StartWrite(v) => if pc.Idle? { HonestOn(s, t, next, [v], [], [], []); }
    case Notify(w) => HonestSignal(s, t, w, blank);
    case _ => HonestAside(s, t, next);
  }

  lemma HonestSignal<V>(s: State<V>, t: nat, w: nat, blank: V)
    requires Honest(s) && t < |s.pcs| && InRange(s.ring)
    ensures Honest(Step(s, t, Notify(w), blank))
  {
    hide Honest, Onward;
    var pc, done := s.pcs[t], At(s, t, Idle);
    if pc.ReadSignal? {
      done := Answered(done, t, Some(pc.v));
      assert Given([Some(pc.v)]) == [pc.v];
      HonestOn(s, t, done, [], [], [], [Some(pc.v)]);
      if w < |s.pcs| && done.pcs[w].WriteWait? {
        HonestAside(done, w, At(done, w, WriteWake(done.pcs[w].v, false)));
      }
    } else if pc.WriteSignal? {
      HonestAside(s, t, done);
      if w < |s.pcs| && done.pcs[w].ReadWait? {
        HonestAside(done, w, At(done, w, ReadWake));
      }
    }
  }

  lemma {:induction false} RunHonest<V>(s: State<V>, turns: seq<Turn<V>>, blank: V, end: State<V>)
    requires Honest(s) && Reaches(s, turns, blank, end)
    ensures Honest(end)
    decreases |turns|
  {
    hide Honest, Step;
    if turns != [] {
      HonestStep(s, turns[0].thread, turns[0].event, blank);
      RunHonest(Step(s, turns[0].thread, turns[0].event, blank), turns[1..], blank, end);
    }
  }

  /** Calls do what they say: the values that a thread's calls of channel_write have been given are, in their
      order, those it has stored, and the values that its calls of channel_read and channel_tryread have returned
      are those it has fetched; only a call that has not returned may be one value behind. The values stored
      by all threads, and those fetched, are the values written and taken. */
  lemma CallsAreHonest<V>(threads: nat, blank: V, turns: seq<Turn<V>>, end: State<V>, t: nat)
    requires Reaches(Start(threads, blank), turns, blank, end) && t < |end.pcs|
    ensures Values(end.log.stored) == end.written && Values(end.log.fetched) == end.taken
    ensures By(end.log.asked, t) == By(end.log.stored, t) + Holds(end.pcs[t])
    ensures By(end.log.fetched, t) == Given(By(end.log.answered, t)) + Owes(end.pcs[t])
    ensures end.pcs[t].Idle? ==>
      By(end.log.asked, t) == By(end.log.stored, t) && By(end.log.fetched, t) == Given(By(end.log.answered, t))
  {
    RunHonest(Start(threads, blank), turns, blank, end);
    assert HonestTo(end.log, t, end.pcs[t]);
  }

  /** A try-read that comes back without a value has found none: everything written is taken. */
  lemma NoneMeansEmpty<V>(threads: nat, blank: V, turns: seq<Turn<V>>, end: State<V>, t: nat)
    requires Reaches(Start(threads, blank), turns, blank, end) && t < |end.pcs| && end.pcs[t] == TryUnlock(None)
    ensures end.ring.count == 0 && end.written == end.taken
  {
    var s := Start(threads, blank);
    assert Consistent(s.ring, Idle, s.written[|s.taken|..]);
    RunKeeps(s, turns, blank, end);
    Holding(end, t);
  }

  /** Calls that can be made: an idle thread that starts a call of channel_write is given the value to write, and
      no other step is such a call. */
  lemma OnlyCallsAsk<V>(s: State<V>, t: nat, e: Event<V>, blank: V)
    requires t < |s.pcs| && InRange(s.ring)
    ensures Step(s, t, e, blank).log.asked
         == s.log.asked + if s.pcs[t].Idle? && e.StartWrite? then [Entry(t, e.v)] else []
  {
    hide Reserved;
  }

  /** A call has returned when its thread is idle again, and only calls that read return an answer. */
  lemma OnlyReadsAnswer<V>(s: State<V>, t: nat, e: Event<V>, blank: V)
    requires t < |s.pcs| && InRange(s.ring)
    ensures var next, pc := Step(s, t, e, blank), s.pcs[t];
      if next.pcs[t].Idle? && !pc.Idle? && (pc.ReadSignal? || pc.TryUnlock?)
      then |next.log.answered| == |s.log.answered| + 1 && next.log.answered[|s.log.answered|].thread == t
      else next.log.answered == s.log.answered
  {
    hide Reserved;
  }

  /** The slot that is written next holds no unread value. */
  ghost predicate Spares<V>(r: Ring<V>)
    requires InRange(r)
  {
    forall i :: 0 <= i < r.count ==> Slot(r.start, i, |r.items|) != Slot(r.start, r.count, |r.items|)
  }

  /** No thread ever reads from an empty ring, nor stores over an unread value. */
  lemma NeverEmptyNorOverwritten<V>(threads: nat, blank: V, turns: seq<Turn<V>>, end: State<V>, t: nat)
    requires Reaches(Start(threads, blank), turns, blank, end) && t < |end.pcs|
    ensures end.pcs[t].ReadShift? || end.pcs[t].TryShift? ==>
      |end.taken| < |end.written| && end.pcs[t].v == end.written[|end.taken|]
    ensures end.pcs[t].WriteStore? ==> InRange(end.ring) && end.ring.count < |end.ring.items| && Spares(end.ring)
  {
    var s := Start(threads, blank);
    assert Consistent(s.ring, Idle, s.written[|s.taken|..]);
    RunKeeps(s, turns, blank, end);
    if end.pcs[t].ReadShift? || end.pcs[t].TryShift? {
      assert end.written[|end.taken|..][0] == View(end.ring)[0];
      assert Slot(end.ring.start, 0, |end.ring.items|) == end.ring.start;
    }
  }

  // ---------- wake-ups ----------

  /** How many of the first n threads are somewhere */
  function Tally<V>(pcs: seq<Pc<V>>, place: Pc<V> -> bool, n: nat): nat
    requires n <= |pcs|
  {
    if n == 0 then 0 else Tally(pcs, place, n - 1) + if place(pcs[n - 1]) then 1 else 0
  }

  lemma {:induction false} TallyChanged<V>(pcs: seq<Pc<V>>, place: Pc<V> -> bool, t: nat, pc: Pc<V>, n: nat)
    requires n <= |pcs| && t < |pcs|
    ensures Tally(pcs[t := pc], place, n)
         == Tally(pcs, place, n) + if t >= n || place(pc) == place(pcs[t]) then 0 else if place(pc) then 1 else -1
  {
    if n > 0 {
      TallyChanged(pcs, place, t, pc, n - 1);
    }
  }

  lemma {:induction false} TallyNone<V>(pcs: seq<Pc<V>>, place: Pc<V> -> bool, n: nat)
    requires n <= |pcs| && forall t :: 0 <= t < n ==> !place(pcs[t])
    ensures Tally(pcs, place, n) == 0
  {
    if n > 0 {
      TallyNone(pcs, place, n - 1);
    }
  }

  /** A thread that will look at the ring as a reader, or wake a reader that will */
  predicate Flying<V>(pc: Pc<V>)
  {
    match pc
    case ReadLock => true case ReadWake => true case ReadCheck => true
    case ReadShift(_) => true case ReadDrop(_) => true
    case WriteUnlock => true case WriteSignal => true
    case _ => false
  }

  ghost predicate Waiting<V>(pcs: seq<Pc<V>>)
  {
    exists t :: 0 <= t < |pcs| && pcs[t].ReadWait?
  }

  /** While a reader waits there are at least as many wake-ups and readers under way as values. */
  ghost predicate Awake<V>(s: State<V>)
  {
    Waiting(s.pcs) ==> s.ring.count <= Tally(s.pcs, Flying, |s.pcs|)
  }

  /** A step that does not send a reader to sleep and changes the count by no more than it changes what
      is under way */
  lemma StaysAwake<V>(s: State<V>, t: nat, pc: Pc<V>, count: nat)
    requires Awake(s) && t < |s.pcs| && (pc.ReadWait? ==> s.pcs[t].ReadWait? || count == 0)
    requires count == 0 || count <= s.ring.count + (if Flying(pc) then 1 else 0) - if Flying(s.pcs[t]) then 1 else 0
    ensures Waiting(s.pcs[t := pc]) ==> count <= Tally(s.pcs[t := pc], Flying, |s.pcs|)
  {
    TallyChanged(s.pcs, Flying, t, pc, |s.pcs|);
    if Waiting(s.pcs[t := pc]) && !pc.ReadWait? {
      var u :| 0 <= u < |s.pcs| && s.pcs[t := pc][u].ReadWait?;
      assert s.pcs[u].ReadWait?;
    }
  }

  lemma OnwardAwake<V>(s: State<V>, t: nat, blank: V)
    requires Inv(s) && Awake(s) && t < |s.pcs|
    ensures Awake(Onward(s, t, blank))
  {
    var next := Onward(s, t, blank);
    OnwardStep(s, t, blank);
    StaysAwake(s, t, next.pcs[t], next.ring.count);
  }

  /** What a step may do to the count and to what is under way */
  ghost predicate Balanced<V>(s: State<V>, t: nat, next: State<V>)
    requires t < |s.pcs|
  {
    && |next.pcs| == |s.pcs| && next.pcs == s.pcs[t := next.pcs[t]]
    && (next.pcs[t].ReadWait? ==> s.pcs[t].ReadWait? || next.ring.count == 0)
    && (next.ring.count == 0
        || next.ring.count <= s.ring.count + (if Flying(next.pcs[t]) then 1 else 0) - if Flying(s.pcs[t]) then 1 else 0)
  }

  lemma OnwardStep<V>(s: State<V>, t: nat, blank: V)
    requires t < |s.pcs| && InRange(s.ring)
    ensures Balanced(s, t, Onward(s, t, blank))
  {
    hide OnwardWriting, Reserved;
    OnwardWritingStep(s, t, blank);
  }

  lemma OnwardWritingStep<V>(s: State<V>, t: nat, blank: V)
    requires t < |s.pcs| && InRange(s.ring)
    ensures Balanced(s, t, OnwardWriting(s, t, blank))
  {
  }

  lemma StepAwake<V>(s: State<V>, t: nat, e: Event<V>, blank: V)
    requires Inv(s) && Awake(s) && t < |s.pcs|
    ensures Awake(Step(s, t, e, blank))
  {
    hide Inv, Onward;
    var pc, count := s.pcs[t], s.ring.count;
    match e
    case Go => OnwardAwake(s, t, blank);
    case StartRead => StaysAwake(s, t, ReadLock, count);
    case StartTry => if pc.Idle? { StaysAwake(s, t, TryLock, count); }
    case StartWrite(v) => if pc.Idle? { StaysAwake(s, t, WriteLock(v), count); }
    case Wake =>
      if pc.ReadWait? {
        StaysAwake(s, t, ReadWake, count);
      } else if pc.WriteWait? {
        StaysAwake(s, t, WriteWake(pc.v, false), count);
      }
    case TimeOut => if pc.WriteWait? { StaysAwake(s, t, WriteWake(pc.v, true), count); }
    case Notify(w) => NotifyAwake(s, t, w, blank);
  }

  /** A signal to the readers is under way until it has woken one, if any waits. */
  lemma NotifyAwake<V>(s: State<V>, t: nat, w: nat, blank: V)
    requires Inv(s) && Awake(s) && t < |s.pcs|
    ensures Awake(Step(s, t, Notify(w), blank))
  {
    hide Inv, Onward;
    var done, n := s.pcs[t := Idle], |s.pcs|;
    if s.pcs[t].ReadSignal? {
      StaysAwake(s, t, Idle, s.ring.count);
      if w < n && done[w].WriteWait? {
        StaysAwake(At(s, t, Idle), w, WriteWake(done[w].v, false), s.ring.count);
      }
    } else if s.pcs[t].WriteSignal? {
      TallyChanged(s.pcs, Flying, t, Idle, n);
      if w < n && done[w].ReadWait? {
        assert s.pcs[w].ReadWait?;
        TallyChanged(done, Flying, w, ReadWake, n);
      } else if Waiting(done) {
        var x :| 0 <= x < n && done[x].ReadWait?;
        assert s.pcs[x].ReadWait?;
      }
    }
  }

  lemma {:induction false} RunAwake<V>(s: State<V>, turns: seq<Turn<V>>, blank: V, end: State<V>)
    requires Inv(s) && Awake(s) && Reaches(s, turns, blank, end)
    ensures Inv(end) && Awake(end)
    decreases |turns|
  {
    hide Inv, Awake;
    if turns != [] {
      var next := Step(s, turns[0].thread, turns[0].event, blank);
      StepKeeps(s, turns[0].thread, turns[0].event, blank);
      StepAwake(s, turns[0].thread, turns[0].event, blank);
      RunAwake(next, turns[1..], blank, end);
    }
  }

  /** No reader sleeps through a write: once no other reader and no signal to the readers is under way,
      a reader that waits, waits beside an empty ring. */
  lemma NoReaderOversleeps<V>(threads: nat, blank: V, turns: seq<Turn<V>>, end: State<V>, t: nat)
    requires Reaches(Start(threads, blank), turns, blank, end)
    requires t < |end.pcs| && end.pcs[t].ReadWait? && forall u :: 0 <= u < |end.pcs| ==> !Flying(end.pcs[u])
    ensures end.ring.count == 0
  {
    var s := Start(threads, blank);
    assert Consistent(s.ring, Idle, s.written[|s.taken|..]);
    RunAwake(s, turns, blank, end);
    TallyNone(end.pcs, Flying, |end.pcs|);
  }

  // ---------- when writers sleep on ----------

  /** A thread that will look for room as a writer, or wake a writer that will */
  predicate Seeking<V>(pc: Pc<V>)
  {
    match pc
    case WriteLock(_) => true case WriteWake(_, _) => true case WriteCheck(_) => true case WriteGrow(_) => true
    case WriteStore(_) => true case WriteCount(_) => true
    case ReadUnlock(_) => true case ReadSignal(_) => true
    case _ => false
  }

  ghost predicate WriterWaits<V>(pcs: seq<Pc<V>>)
  {
    exists t :: 0 <= t < |pcs| && pcs[t].WriteWait?
  }

  /** While a writer waits there are at least as many wake-ups and writers under way as free slots. */
  ghost predicate Roomy<V>(s: State<V>)
  {
    WriterWaits(s.pcs) ==> |s.ring.items| <= s.ring.count + Tally(s.pcs, Seeking, |s.pcs|)
  }

  /** The two steps that make room without a signal to the writers, taken while a writer waits: a
      try-read counts its value out, or a writer whose time is up grows the ring. */
  ghost predicate Unannounced<V>(s: State<V>, t: nat, e: Event<V>)
    requires t < |s.pcs|
  {
    e.Go? && (s.pcs[t].TryDrop? || s.pcs[t].WriteGrow?) && WriterWaits(s.pcs)
  }

  /** What any other step may do to the free slots and to what is under way */
  ghost predicate RoomBalanced<V>(s: State<V>, t: nat, next: State<V>)
    requires t < |s.pcs|
  {
    && |next.pcs| == |s.pcs| && next.pcs == s.pcs[t := next.pcs[t]]
    && if next.pcs[t].WriteWait? then next.ring.count >= |next.ring.items| else
       |next.ring.items| - next.ring.count - (if Seeking(next.pcs[t]) then 1 else 0)
         <= |s.ring.items| - s.ring.count - if Seeking(s.pcs[t]) then 1 else 0
  }

  lemma OnwardRoom<V>(s: State<V>, t: nat, blank: V)
    requires t < |s.pcs| && InRange(s.ring) && !s.pcs[t].TryDrop? && !s.pcs[t].WriteGrow? && !s.pcs[t].WriteWait?
    ensures RoomBalanced(s, t, Onward(s, t, blank))
  {
    hide OnwardWriting, Reserved;
    OnwardWritingRoom(s, t, blank);
  }

  lemma OnwardWritingRoom<V>(s: State<V>, t: nat, blank: V)
    requires t < |s.pcs| && InRange(s.ring) && !s.pcs[t].WriteGrow? && !s.pcs[t].WriteWait?
    ensures RoomBalanced(s, t, OnwardWriting(s, t, blank))
  {
  }

  /** A balanced step leaves enough under way. */
  lemma StaysRoomy<V>(s: State<V>, t: nat, next: State<V>)
    requires Roomy(s) && t < |s.pcs| && RoomBalanced(s, t, next)
    ensures Roomy(next)
  {
    TallyChanged(s.pcs, Seeking, t, next.pcs[t], |s.pcs|);
    if WriterWaits(next.pcs) && !next.pcs[t].WriteWait? {
      var u :| 0 <= u < |s.pcs| && next.pcs[u].WriteWait?;
      assert s.pcs[u].WriteWait?;
    }
  }

  /** Where no writer waited, none does after a step that sends none to sleep. */
  lemma NoneSentToSleep<V>(s: State<V>, t: nat, pc: Pc<V>)
    requires !WriterWaits(s.pcs) && t < |s.pcs| && !pc.WriteWait?
    ensures !WriterWaits(s.pcs[t := pc])
  {
    var now := s.pcs[t := pc];
    assert forall u :: 0 <= u < |now| && now[u].WriteWait? ==> s.pcs[u].WriteWait?;
  }

  lemma OnwardRoomy<V>(s: State<V>, t: nat, blank: V)
    requires InRange(s.ring) && Roomy(s) && t < |s.pcs| && !Unannounced(s, t, Go)
    ensures Roomy(Onward(s, t, blank))
  {
    hide Roomy, WriterWaits, RoomBalanced;
    var pc := s.pcs[t];
    if pc.WriteWait? {
    } else if pc.TryDrop? || pc.WriteGrow? {
      NoneSentToSleep(s, t, if pc.TryDrop? then TryUnlock(Some(pc.v)) else WriteCheck(pc.v));
      NobodyToWake(Onward(s, t, blank), s);
    } else {
      OnwardRoom(s, t, blank);
      StaysRoomy(s, t, Onward(s, t, blank));
    }
  }

  lemma NobodyToWake<V>(next: State<V>, s: State<V>)
    requires !WriterWaits(next.pcs) || (next == s && Roomy(s))
    ensures Roomy(next)
  {
  }

  lemma StepRoomy<V>(s: State<V>, t: nat, e: Event<V>, blank: V)
    requires InRange(s.ring) && Roomy(s) && t < |s.pcs| && !Unannounced(s, t, e)
    ensures Roomy(Step(s, t, e, blank))
  {
    hide Roomy, WriterWaits, Onward, InRange;
    var next := Step(s, t, e, blank);
    if e.Go? {
      OnwardRoomy(s, t, blank);
    } else if e.Notify? {
      NotifyRoomy(s, t, e.w, blank);
    } else if next != s {
      StaysRoomy(s, t, next);
    }
  }

  /** A signal to the writers is under way until it has woken one, if any waits. */
  lemma NotifyRoomy<V>(s: State<V>, t: nat, w: nat, blank: V)
    requires InRange(s.ring) && Roomy(s) && t < |s.pcs|
    ensures Roomy(Step(s, t, Notify(w), blank))
  {
    hide Onward;
    var done, n := At(s, t, Idle), |s.pcs|;
    if s.pcs[t].WriteSignal? {
      StaysRoomy(s, t, done);
      if w < n && done.pcs[w].ReadWait? {
        StaysRoomy(done, w, At(done, w, ReadWake));
      }
    } else if s.pcs[t].ReadSignal? {
      TallyChanged(s.pcs, Seeking, t, Idle, n);
      if w < n && done.pcs[w].WriteWait? {
        assert s.pcs[w].WriteWait?;
        TallyChanged(done.pcs, Seeking, w, WriteWake(done.pcs[w].v, false), n);
      } else if WriterWaits(done.pcs) {
        var x :| 0 <= x < n && done.pcs[x].WriteWait?;
        assert s.pcs[x].WriteWait?;
      }
    }
  }

  /** A run in which no step makes room unannounced */
  ghost predicate Announced<V>(s: State<V>, turns: seq<Turn<V>>, blank: V)
    decreases |turns|
  {
    turns != [] && turns[0].thread < |s.pcs| && InRange(s.ring) ==>
      && !Unannounced(s, turns[0].thread, turns[0].event)
      && Announced(Step(s, turns[0].thread, turns[0].event, blank), turns[1..], blank)
  }

  lemma {:induction false} RunRoomy<V>(s: State<V>, turns: seq<Turn<V>>, blank: V, end: State<V>)
    requires Roomy(s) && Reaches(s, turns, blank, end) && Announced(s, turns, blank)
    ensures Roomy(end)
    decreases |turns|
  {
    hide Roomy, Unannounced, Step;
    if turns != [] {
      StepRoomy(s, turns[0].thread, turns[0].event, blank);
      RunRoomy(Step(s, turns[0].thread, turns[0].event, blank), turns[1..], blank, end);
    }
  }

  /** A writer waits beside a free slot, with no other writer and no signal to the writers under way:
      only its time running out, or a wake-up for no reason, can get it going. */
  ghost predicate Oversleeps<V>(s: State<V>)
  {
    && WriterWaits(s.pcs) && s.ring.count < |s.ring.items|
    && forall u :: 0 <= u < |s.pcs| ==> !Seeking(s.pcs[u])
  }

  /** No writer sleeps through room that was made with a signal, whatever else happens. */
  lemma NoWriterOversleeps<V>(threads: nat, blank: V, turns: seq<Turn<V>>, end: State<V>)
    requires Reaches(Start(threads, blank), turns, blank, end) && Announced(Start(threads, blank), turns, blank)
    ensures !Oversleeps(end)
  {
    RunRoomy(Start(threads, blank), turns, blank, end);
    if forall u :: 0 <= u < |end.pcs| ==> !Seeking(end.pcs[u]) {
      TallyNone(end.pcs, Seeking, |end.pcs|);
    }
  }

  // ---------- runs that leave a writer asleep ----------

  /** The run calls channel_tryread, or lets a writer's time run out, only if it may. */
  ghost predicate Uses<V>(turns: seq<Turn<V>>, tries: bool, timeouts: bool)
  {
    forall i :: 0 <= i < |turns| ==> (turns[i].event.StartTry? ==> tries) && (turns[i].event.TimeOut? ==> timeouts)
  }

  lemma {:induction false} Joined<V>(s: State<V>, first: seq<Turn<V>>, mid: State<V>, second: seq<Turn<V>>, blank: V,
                                     end: State<V>)
    requires Reaches(s, first, blank, mid) && Reaches(mid, second, blank, end)
    ensures Reaches(s, first + second, blank, end)
    decreases |first|
  {
    if first == [] {
      assert first + second == second;
    } else {
      assert (first + second)[1..] == first[1..] + second;
      Joined(Step(s, first[0].thread, first[0].event, blank), first[1..], mid, second, blank, end);
    }
  }

  /** One more turn behind a run */
  lemma Extended<V>(s: State<V>, turns: seq<Turn<V>>, mid: State<V>, t: nat, e: Event<V>, blank: V)
    returns (more: seq<Turn<V>>, end: State<V>)
    requires Reaches(s, turns, blank, mid) && t < |mid.pcs| && InRange(mid.ring)
    ensures end == Step(mid, t, e, blank) && more == turns + [Turn(t, e)] && Reaches(s, more, blank, end)
  {
    end, more := Step(mid, t, e, blank), turns + [Turn(t, e)];
    var last := [Turn(t, e)];
    assert last[1..] == [] && Reaches(end, [], blank, end);
    Joined(s, turns, mid, last, blank, end);
  }

  /** Thread t has gone from where it was in s to another place, and has changed nothing but the ring and
      what is written and taken. */
  ghost predicate Moved<V>(s: State<V>, t: nat, now: State<V>, pc: Pc<V>, held: bool)
    requires t < |s.pcs|
  {
    now.pcs == s.pcs[t := pc] && now.holder == if held then Some(t) else None
  }

  /** The log after thread t has fetched v and returned it */
  ghost predicate Returned<V>(s: State<V>, t: nat, v: V, end: State<V>)
  {
    && end.log.asked == s.log.asked && end.log.stored == s.log.stored
    && end.log.fetched == s.log.fetched + [Entry(t, v)] && end.log.answered == s.log.answered + [Entry(t, Some(v))]
  }

  /** A call of channel_read that finds a value, that nobody interrupts and that no writer waits for */
  lemma ReadTakes<V>(s: State<V>, t: nat, blank: V) returns (turns: seq<Turn<V>>, end: State<V>)
    requires InRange(s.ring) && s.holder == None && t < |s.pcs| && s.pcs[t].Idle? && s.ring.count > 0
    requires !WriterWaits(s.pcs)
    ensures Reaches(s, turns, blank, end) && Uses(turns, false, false) && Moved(s, t, end, Idle, false)
    ensures InRange(end.ring) && View(s.ring) == [s.ring.items[s.ring.start]] + View(end.ring)
    ensures end.written == s.written && end.taken == s.taken + [s.ring.items[s.ring.start]]
    ensures Returned(s, t, s.ring.items[s.ring.start], end)
  {
    assert Reaches(s, [], blank, s);
    hide Reaches, OnwardWriting, View;
    Dropped(s.ring);
    var v := s.ring.items[s.ring.start];
    turns, end := Extended(s, [], s, t, StartRead, blank);
    turns, end := Extended(s, turns, end, t, Go, blank);
    assert Moved(s, t, end, ReadCheck, true);
    turns, end := Extended(s, turns, end, t, Go, blank);
    assert Moved(s, t, end, ReadShift(v), true);
    turns, end := FinishRead(s, turns, end, t, v, blank);
  }

  /** The rest of channel_read, from where it has found a value; no writer waits for its signal. */
  lemma FinishRead<V>(s: State<V>, before: seq<Turn<V>>, mid: State<V>, t: nat, v: V, blank: V)
    returns (turns: seq<Turn<V>>, end: State<V>)
    requires InRange(mid.ring) && mid.ring.count > 0 && t < |s.pcs| && !WriterWaits(s.pcs)
    requires Reaches(s, before, blank, mid) && Moved(s, t, mid, ReadShift(v), true)
    ensures Reaches(s, turns, blank, end) && Moved(s, t, end, Idle, false)
    ensures end.ring == Ring(mid.ring.items, Slot(mid.ring.start, 1, |mid.ring.items|), mid.ring.count - 1)
    ensures end.written == mid.written && end.taken == mid.taken + [v] && Returned(mid, t, v, end)
    ensures forall tries, timeouts :: Uses(before, tries, timeouts) ==> Uses(turns, tries, timeouts)
  {
    hide Reaches, OnwardWriting;
    turns, end := Extended(s, before, mid, t, Go, blank);
    assert Moved(s, t, end, ReadDrop(v), true);
    turns, end := Extended(s, turns, end, t, Go, blank);
    assert Moved(s, t, end, ReadUnlock(v), true);
    turns, end := Extended(s, turns, end, t, Go, blank);
    assert Moved(s, t, end, ReadSignal(v), false);
    assert forall x :: 0 <= x < |s.pcs| && x != t ==> end.pcs[x] == s.pcs[x];
    turns, end := Extended(s, turns, end, t, Notify(t), blank);
    assert end.pcs == s.pcs[t := Idle];
  }

  /** A call of channel_read that finds none waits, and gives up the lock; one of channel_tryread comes back
      without a value. */
  lemma NothingToRead<V>(s: State<V>, t: nat, try: bool, blank: V) returns (turns: seq<Turn<V>>, end: State<V>)
    requires InRange(s.ring) && s.holder == None && t < |s.pcs| && s.pcs[t].Idle? && s.ring.count == 0
    ensures Reaches(s, turns, blank, end) && Moved(s, t, end, if try then Idle else ReadWait, false)
    ensures end.ring == s.ring && end.written == s.written && end.taken == s.taken
    ensures end.log == if try then s.log.(answered := s.log.answered + [Entry(t, None)]) else s.log
  {
    assert Reaches(s, [], blank, s);
    hide Reaches, OnwardWriting;
    turns, end := Extended(s, [], s, t, if try then StartTry else StartRead, blank);
    turns, end := Extended(s, turns, end, t, Go, blank);
    assert Moved(s, t, end, if try then TryCheck else ReadCheck, true);
    turns, end := Extended(s, turns, end, t, Go, blank);
    if try {
      assert Moved(s, t, end, TryUnlock(None), true);
      turns, end := Extended(s, turns, end, t, Go, blank);
    }
  }

  /** A call of channel_tryread that nobody interrupts */
  lemma TryTakes<V>(s: State<V>, t: nat, blank: V) returns (turns: seq<Turn<V>>, end: State<V>)
    requires InRange(s.ring) && s.holder == None && t < |s.pcs| && s.pcs[t].Idle? && s.ring.count > 0
    ensures Reaches(s, turns, blank, end) && Uses(turns, true, false) && Moved(s, t, end, Idle, false)
    ensures end.ring == Ring(s.ring.items, Slot(s.ring.start, 1, |s.ring.items|), s.ring.count - 1)
    ensures end.written == s.written && end.taken == s.taken + [s.ring.items[s.ring.start]]
    ensures Returned(s, t, s.ring.items[s.ring.start], end)
  {
    assert Reaches(s, [], blank, s);
    hide Reaches, OnwardWriting;
    var v := s.ring.items[s.ring.start];
    turns, end := Extended(s, [], s, t, StartTry, blank);
    turns, end := Extended(s, turns, end, t, Go, blank);
    assert Moved(s, t, end, TryCheck, true);
    turns, end := Extended(s, turns, end, t, Go, blank);
    assert Moved(s, t, end, TryShift(v), true);
    turns, end := FinishTry(s, turns, end, t, v, blank);
  }

  /** The rest of channel_tryread, from where it has found a value */
  lemma FinishTry<V>(s: State<V>, before: seq<Turn<V>>, mid: State<V>, t: nat, v: V, blank: V)
    returns (turns: seq<Turn<V>>, end: State<V>)
    requires InRange(mid.ring) && mid.ring.count > 0 && t < |s.pcs|
    requires Reaches(s, before, blank, mid) && Moved(s, t, mid, TryShift(v), true)
    ensures Reaches(s, turns, blank, end) && Moved(s, t, end, Idle, false)
    ensures end.ring == Ring(mid.ring.items, Slot(mid.ring.start, 1, |mid.ring.items|), mid.ring.count - 1)
    ensures end.written == mid.written && end.taken == mid.taken + [v] && Returned(mid, t, v, end)
    ensures forall tries, timeouts :: Uses(before, tries, timeouts) ==> Uses(turns, tries, timeouts)
  {
    hide Reaches, OnwardWriting;
    turns, end := Extended(s, before, mid, t, Go, blank);
    assert Moved(s, t, end, TryDrop(v), true);
    turns, end := Extended(s, turns, end, t, Go, blank);
    assert Moved(s, t, end, TryUnlock(Some(v)), true);
    turns, end := Extended(s, turns, end, t, Go, blank);
  }

  /** A call of channel_write that finds room and that nobody interrupts */
  lemma WriteFits<V>(s: State<V>, t: nat, v: V, blank: V) returns (turns: seq<Turn<V>>, end: State<V>)
    requires InRange(s.ring) && s.holder == None && t < |s.pcs| && s.pcs[t].Idle? && s.ring.count < |s.ring.items|
    requires !Waiting(s.pcs)
    ensures Reaches(s, turns, blank, end) && Uses(turns, false, false) && Moved(s, t, end, Idle, false)
    ensures InRange(end.ring) && |end.ring.items| == |s.ring.items| && end.ring.count == s.ring.count + 1
    ensures View(end.ring) == View(s.ring) + [v] && end.written == s.written + [v] && end.taken == s.taken
    ensures end.log == s.log.(asked := s.log.asked + [Entry(t, v)], stored := s.log.stored + [Entry(t, v)])
  {
    assert Reaches(s, [], blank, s);
    hide Reaches;
    turns, end := Extended(s, [], s, t, StartWrite(v), blank);
    turns, end := Extended(s, turns, end, t, Go, blank);
    assert Moved(s, t, end, WriteCheck(v), true);
    turns, end := Extended(s, turns, end, t, Go, blank);
    assert Moved(s, t, end, WriteStore(v), true);
    turns, end := FinishWrite(s, turns, end, t, v, blank);
  }

  /** The rest of channel_write, from where it has found room; no reader waits for its signal. */
  lemma FinishWrite<V>(s: State<V>, before: seq<Turn<V>>, mid: State<V>, t: nat, v: V, blank: V)
    returns (turns: seq<Turn<V>>, end: State<V>)
    requires InRange(mid.ring) && t < |s.pcs| && mid.ring.count < |mid.ring.items| && !Waiting(s.pcs)
    requires Reaches(s, before, blank, mid) && Moved(s, t, mid, WriteStore(v), true)
    ensures Reaches(s, turns, blank, end) && Moved(s, t, end, Idle, false)
    ensures InRange(end.ring) && |end.ring.items| == |mid.ring.items| && end.ring.count == mid.ring.count + 1
    ensures View(end.ring) == View(mid.ring) + [v] && end.written == mid.written + [v] && end.taken == mid.taken
    ensures end.log == mid.log.(stored := mid.log.stored + [Entry(t, v)])
    ensures forall tries, timeouts :: Uses(before, tries, timeouts) ==> Uses(turns, tries, timeouts)
  {
    hide Reaches, View;
    Stored(mid.ring, v);
    turns, end := Extended(s, before, mid, t, Go, blank);
    Counted(end.ring);
    assert Moved(s, t, end, WriteCount(v), true);
    turns, end := Extended(s, turns, end, t, Go, blank);
    assert Moved(s, t, end, WriteUnlock, true);
    turns, end := Extended(s, turns, end, t, Go, blank);
    assert Moved(s, t, end, WriteSignal, false);
    assert forall x :: 0 <= x < |s.pcs| && x != t ==> end.pcs[x] == s.pcs[x];
    turns, end := Extended(s, turns, end, t, Notify(t), blank);
    assert end.pcs == s.pcs[t := Idle];
  }

  /** A call of channel_write that finds the ring full */
  lemma WriteWaits<V>(s: State<V>, t: nat, v: V, blank: V) returns (turns: seq<Turn<V>>, end: State<V>)
    requires InRange(s.ring) && s.holder == None && t < |s.pcs| && s.pcs[t].Idle? && s.ring.count == |s.ring.items|
    ensures Reaches(s, turns, blank, end) && Uses(turns, false, false) && Moved(s, t, end, WriteWait(v), false)
    ensures end.ring == s.ring && end.written == s.written && end.taken == s.taken
    ensures end.log == s.log.(asked := s.log.asked + [Entry(t, v)])
  {
    assert Reaches(s, [], blank, s);
    hide Reaches;
    turns, end := Extended(s, [], s, t, StartWrite(v), blank);
    turns, end := Extended(s, turns, end, t, Go, blank);
    assert Moved(s, t, end, WriteCheck(v), true);
    turns, end := Extended(s, turns, end, t, Go, blank);
  }

  /** The end of a call of channel_write whose time is up while the ring is still full, when no reader
      waits: the ring grows to twice its size. */
  lemma WriteGrows<V>(s: State<V>, t: nat, blank: V) returns (turns: seq<Turn<V>>, end: State<V>)
    requires InRange(s.ring) && s.holder == None && t < |s.pcs| && s.pcs[t].WriteWait? && s.ring.count == |s.ring.items|
    requires !Waiting(s.pcs)
    ensures Reaches(s, turns, blank, end) && Uses(turns, false, true) && Moved(s, t, end, Idle, false)
    ensures |end.ring.items| == 2 * |s.ring.items| && end.ring.count == s.ring.count + 1
    ensures InRange(end.ring) && View(end.ring) == View(s.ring) + [s.pcs[t].v]
    ensures end.written == s.written + [s.pcs[t].v] && end.taken == s.taken
    ensures end.log == s.log.(stored := s.log.stored + [Entry(t, s.pcs[t].v)])
  {
    assert Reaches(s, [], blank, s);
    hide Reaches, Reserved;
    var v, n := s.pcs[t].v, |s.ring.items|;
    ReservedKeeps(s.ring, 2 * n, blank);
    ReservedSize(s.ring, 2 * n, blank);
    turns, end := Extended(s, [], s, t, TimeOut, blank);
    turns, end := Extended(s, turns, end, t, Go, blank);
    assert Moved(s, t, end, WriteGrow(v), true);
    turns, end := Extended(s, turns, end, t, Go, blank);
    assert Moved(s, t, end, WriteCheck(v), true);
    turns, end := Extended(s, turns, end, t, Go, blank);
    assert Moved(s, t, end, WriteStore(v), true);
    turns, end := FinishWrite(s, turns, end, t, v, blank);
  }

  lemma ReservedSize<V>(r: Ring<V>, size: nat, blank: V)
    requires InRange(r) && |r.items| < size
    ensures |Reserved(r, size, blank).items| == size && Reserved(r, size, blank).count == r.count
  {
  }

  /** channel_tryread takes a value from a full ring without telling anyone: a writer that waits goes on
      waiting, beside a free slot and with nothing under way to wake it but its time running out. */
  lemma TryReadWakesNoWriter<V>(s: State<V>, t: nat, blank: V) returns (turns: seq<Turn<V>>, end: State<V>)
    requires InRange(s.ring) && s.holder == None && t < |s.pcs| && s.pcs[t].Idle? && s.ring.count > 0
    requires WriterWaits(s.pcs) && forall u :: 0 <= u < |s.pcs| ==> !Seeking(s.pcs[u])
    ensures Reaches(s, turns, blank, end) && Uses(turns, true, false) && end.holder == None && end.pcs == s.pcs
    ensures Oversleeps(end) && end.taken == s.taken + [s.ring.items[s.ring.start]]
  {
    hide Reaches, Uses;
    turns, end := TryTakes(s, t, blank);
    assert end.pcs == s.pcs;
  }

  /** A writer whose time is up makes room for itself and for others, but tells only readers: another
      writer that waits goes on waiting, beside all the new slots but one. */
  lemma GrowthWakesNoWriter<V>(s: State<V>, t: nat, w: nat, blank: V) returns (turns: seq<Turn<V>>, end: State<V>)
    requires InRange(s.ring) && s.holder == None && s.ring.count == |s.ring.items| && !Waiting(s.pcs)
    requires t < |s.pcs| && s.pcs[t].WriteWait? && w < |s.pcs| && s.pcs[w].WriteWait? && t != w
    requires forall u :: 0 <= u < |s.pcs| ==> !Seeking(s.pcs[u])
    ensures Reaches(s, turns, blank, end) && Uses(turns, false, true) && end.holder == None
    ensures end.pcs == s.pcs[t := Idle]
    ensures |end.ring.items| - end.ring.count == |s.ring.items| - 1
    ensures Oversleeps(end) <==> |s.ring.items| > 1
  {
    hide Reaches, Uses;
    turns, end := WriteGrows(s, t, blank);
    assert end.pcs[w].WriteWait?;
  }

  /** A run that leaves so many values in a new channel and its threads idle */
  lemma {:induction false} Filled<V>(threads: nat, count: nat, blank: V) returns (turns: seq<Turn<V>>, end: State<V>)
    requires threads > 0 && count <= INITIAL_SIZE
    ensures Reaches(Start(threads, blank), turns, blank, end) && Uses(turns, false, false)
    ensures end.holder == None && end.pcs == Start(threads, blank).pcs
    ensures InRange(end.ring) && |end.ring.items| == INITIAL_SIZE && end.ring.count == count
  {
    var start := Start(threads, blank);
    assert Reaches(start, [], blank, start);
    hide Reaches;
    turns, end := [], start;
    if count > 0 {
      turns, end := Filled(threads, count - 1, blank);
      var more, next := WriteFits(end, 0, blank, blank);
      Joined(start, turns, end, more, blank, next);
      turns, end := turns + more, next;
      assert end.pcs == start.pcs;
    }
  }

  /** A full channel with writers waiting in the last `writers` of its threads, the others idle */
  lemma {:induction false} Crowded<V>(threads: nat, writers: nat, blank: V) returns (turns: seq<Turn<V>>, end: State<V>)
    requires 0 < threads && writers <= threads
    ensures Reaches(Start(threads, blank), turns, blank, end) && Uses(turns, false, false) && end.holder == None
    ensures end.pcs == seq(threads, i => if i < threads - writers then Idle else WriteWait(blank))
    ensures InRange(end.ring) && end.ring.count == |end.ring.items| == INITIAL_SIZE
  {
    hide Reaches, Uses;
    if writers == 0 {
      turns, end := Filled(threads, INITIAL_SIZE, blank);
    } else {
      turns, end := Crowded(threads, writers - 1, blank);
      var more, next := WriteWaits(end, threads - writers, blank, blank);
      Joined(Start(threads, blank), turns, end, more, blank, next);
      JoinedUses(turns, more, false, false);
      turns, end := turns + more, next;
    }
  }

  lemma JoinedUses<V>(first: seq<Turn<V>>, second: seq<Turn<V>>, tries: bool, timeouts: bool)
    requires Uses(first, tries, timeouts) && Uses(second, tries, timeouts)
    ensures Uses(first + second, tries, timeouts)
  {
  }

  /** Without try-reads and without time running out no thread ever gets to make room unannounced. */
  ghost predicate Signals<V>(pc: Pc<V>)
  {
    !pc.TryLock? && !pc.TryCheck? && !pc.TryShift? && !pc.TryDrop? && !pc.TryUnlock? && !pc.WriteGrow?
    && (pc.WriteWake? ==> !pc.late)
  }

  lemma OnwardSignals<V>(s: State<V>, t: nat, blank: V)
    requires t < |s.pcs| && InRange(s.ring) && Signals(s.pcs[t])
    ensures var next := Onward(s, t, blank); next.pcs == s.pcs[t := next.pcs[t]] && Signals(next.pcs[t])
  {
    hide OnwardWriting, Reserved;
    OnwardWritingSignals(s, t, blank);
  }

  lemma OnwardWritingSignals<V>(s: State<V>, t: nat, blank: V)
    requires t < |s.pcs| && InRange(s.ring) && Signals(s.pcs[t])
    ensures var next := OnwardWriting(s, t, blank); next.pcs == s.pcs[t := next.pcs[t]] && Signals(next.pcs[t])
  {
    hide Reserved;
  }

  ghost predicate AllSignal<V>(pcs: seq<Pc<V>>)
  {
    forall t :: 0 <= t < |pcs| ==> Signals(pcs[t])
  }

  lemma StepSignals<V>(s: State<V>, t: nat, e: Event<V>, blank: V)
    requires t < |s.pcs| && InRange(s.ring) && AllSignal(s.pcs) && !e.StartTry? && !e.TimeOut?
    ensures AllSignal(Step(s, t, e, blank).pcs) && !Unannounced(s, t, e)
  {
    hide Onward;
    assert Signals(s.pcs[t]);
    if e.Go? {
      OnwardSignals(s, t, blank);
    }
  }

  lemma {:induction false} SignalsOnly<V>(s: State<V>, turns: seq<Turn<V>>, blank: V, end: State<V>)
    requires Reaches(s, turns, blank, end) && Uses(turns, false, false) && AllSignal(s.pcs)
    ensures Announced(s, turns, blank)
    decreases |turns|
  {
    hide Step, AllSignal, Unannounced;
    if turns != [] {
      var next := Step(s, turns[0].thread, turns[0].event, blank);
      StepSignals(s, turns[0].thread, turns[0].event, blank);
      assert forall i :: 0 <= i < |turns| - 1 ==> turns[1..][i] == turns[i + 1];
      SignalsOnly(next, turns[1..], blank, end);
    }
  }

  /** Writers can be left asleep beside free slots exactly where threads call channel_tryread or writers'
      time can run out: each of the two is enough, and without both no run from a new channel does it. */
  lemma WritersOversleepExactly<V>(tries: bool, timeouts: bool, blank: V)
    ensures tries || timeouts <==>
            exists threads, turns, end ::
              Reaches(Start(threads, blank), turns, blank, end) && Uses(turns, tries, timeouts) && Oversleeps(end)
  {
    if tries || timeouts {
      var turns, s := Crowded(3, 2, blank);
      var more, end;
      assert s.pcs == [Idle, WriteWait(blank), WriteWait(blank)];
      assert s.pcs[1].WriteWait?;
      if tries {
        more, end := TryReadWakesNoWriter(s, 0, blank);
      } else {
        more, end := GrowthWakesNoWriter(s, 1, 2, blank);
      }
      Joined(Start(3, blank), turns, s, more, blank, end);
      JoinedUses(turns, more, tries, timeouts);
    } else {
      forall threads, turns, end | Reaches(Start(threads, blank), turns, blank, end) && Uses(turns, false, false)
        ensures !Oversleeps(end)
      {
        assert AllSignal(Start(threads, blank).pcs);
        SignalsOnly(Start(threads, blank), turns, blank, end);
        NoWriterOversleeps(threads, blank, turns, end);
      }
    }
  }
}

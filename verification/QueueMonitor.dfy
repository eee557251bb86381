/** The bounded queue (`rena/external/queue/queue.c`) as a machine over the single
statements of any number of threads. */
module QueueMonitor {
  import opened Rings
  import opened Wrappers

  type Pointer = nat  // the address of a queued item; 0 is C's NULL

  /** Where a thread stands. Waiting threads do not hold the mutex; after `Locked` each
  name says which statement was executed last. */
  datatype Pc =
    | Idle
    | EnqWaiting(v: Pointer) | EnqLocked(v: Pointer) | EnqStored(v: Pointer) | EnqSized | EnqIn | EnqWrapped
    | DeqWaiting | DeqLocked | DeqRead(v: Pointer) | DeqSized(v: Pointer) | DeqOut(v: Pointer) | DeqWrapped(v: Pointer)
  {
    predicate Holds() {
      !Idle? && !EnqWaiting? && !DeqWaiting?
    }
  }

  /** The queue's fields; `enqueued` and `dequeued` are all the values stored and read so far. */
  datatype Queue = Queue(buffer: seq<Pointer>, size: int, in_: int, out: int,
                         enqueued: seq<Pointer>, dequeued: seq<Pointer>)

  /** The queue, its mutex's owner, and the threads. */
  datatype State = State(q: Queue, owner: Option<nat>, pcs: seq<Pc>)

  /** Thread `t` starts an operation, gets the mutex, tests the loop's condition, goes on
  by one statement, or lets the mutex go. */
  ghost predicate Step(s: State, s': State, t: nat) {
    t < |s.pcs| &&
    var q := s.q;
    match s.pcs[t]
    case Idle =>
      || (exists v: Pointer :: s' == At(s, t, EnqWaiting(v), q))
      || s' == At(s, t, DeqWaiting, q)
    case EnqWaiting(v) => s.owner.None? && s' == At(s, t, EnqLocked(v), q).(owner := Some(t))
    case DeqWaiting => s.owner.None? && s' == At(s, t, DeqLocked, q).(owner := Some(t))
    case EnqLocked(v) =>
      if q.size == |q.buffer| then s' == At(s, t, EnqWaiting(v), q).(owner := None)
      else
        && 0 <= q.in_ < |q.buffer|
        && s' == At(s, t, EnqStored(v), q.(buffer := q.buffer[q.in_ := v], enqueued := q.enqueued + [v]))
    case EnqStored(_) => s' == At(s, t, EnqSized, q.(size := q.size + 1))
    case EnqSized => s' == At(s, t, EnqIn, q.(in_ := q.in_ + 1))
    case EnqIn => 0 < |q.buffer| && s' == At(s, t, EnqWrapped, q.(in_ := q.in_ % |q.buffer|))
    case EnqWrapped => s' == At(s, t, Idle, q).(owner := None)
    case DeqLocked =>
      if q.size == 0 then s' == At(s, t, DeqWaiting, q).(owner := None)
      else
        && 0 <= q.out < |q.buffer|
        && s' == At(s, t, DeqRead(q.buffer[q.out]), q.(dequeued := q.dequeued + [q.buffer[q.out]]))
    case DeqRead(v) => s' == At(s, t, DeqSized(v), q.(size := q.size - 1))
    case DeqSized(v) => s' == At(s, t, DeqOut(v), q.(out := q.out + 1))
    case DeqOut(v) => 0 < |q.buffer| && s' == At(s, t, DeqWrapped(v), q.(out := q.out % |q.buffer|))
    case DeqWrapped(_) => s' == At(s, t, Idle, q).(owner := None)
  }

  function At(s: State, t: nat, pc: Pc, q: Queue): State
    requires t < |s.pcs|
  {
    s.(pcs := s.pcs[t := pc], q := q)
  }

  ghost predicate Init(s: State) {
    && 0 < |s.q.buffer| && s.q.size == s.q.in_ == s.q.out == 0 && s.owner.None?
    && (forall t :: 0 <= t < |s.pcs| ==> s.pcs[t] == Idle)
    && s.q.enqueued == s.q.dequeued == []
  }

  /** Only the owner is between locking and unlocking. */
  ghost predicate MutexInv(s: State) {
    && (s.owner.Some? ==> s.owner.value < |s.pcs|)
    && (forall t :: 0 <= t < |s.pcs| ==> (s.pcs[t].Holds() <==> s.owner == Some(t)))
  }

  /** The ring holds what has been enqueued and not dequeued, `n` values from `out` on. */
  ghost predicate Ring(q: Queue, out: int, n: int) {
    && 0 <= out < |q.buffer| && 0 <= n <= |q.buffer|
    && q.enqueued == q.dequeued + Items(q.buffer, out, n)
  }

  ghost predicate Settled(q: Queue) {
    && Ring(q, q.out, q.size) && q.in_ == Slot(q.out, q.size, |q.buffer|)
  }

  /** `v` is stored behind the ring and not counted yet. */
  ghost predicate Stored(q: Queue, v: Pointer) {
    && 0 <= q.out < |q.buffer| && 0 <= q.size < |q.buffer|
    && q.in_ == Slot(q.out, q.size, |q.buffer|) && q.buffer[q.in_] == v
    && q.enqueued == q.dequeued + Items(q.buffer, q.out, q.size) + [v]
  }

  ghost predicate Counted(q: Queue, in_: int) {
    && Ring(q, q.out, q.size) && 0 < q.size && in_ == Slot(q.out, q.size - 1, |q.buffer|)
  }

  /** `v`, the oldest of the `n` values, has been read. */
  ghost predicate Taken(q: Queue, v: Pointer, out: int, n: int) {
    && Last(q, v)
    && 0 <= out < |q.buffer| && 0 < n <= |q.buffer| && q.in_ == Slot(out, n, |q.buffer|)
    && q.enqueued == q.dequeued + Items(q.buffer, out, n)[1..]
  }

  ghost predicate Last(q: Queue, v: Pointer) {
    q.dequeued != [] && v == q.dequeued[|q.dequeued| - 1]
  }

  /** The queue as a thread inside has left it after its last statement. */
  ghost predicate QueueInv(q: Queue, pc: Pc) {
    match pc
    case EnqStored(v) => Stored(q, v)
    case EnqSized => Counted(q, q.in_)
    case EnqIn => Counted(q, q.in_ - 1)
    case DeqRead(v) => Taken(q, v, q.out, q.size)
    case DeqSized(v) => Taken(q, v, q.out, q.size + 1)
    case DeqOut(v) => Taken(q, v, q.out - 1, q.size + 1)
    case DeqWrapped(v) => Settled(q) && Last(q, v)
    case _ => Settled(q)
  }

  ghost predicate Inv(s: State) {
    && 0 < |s.q.buffer| && MutexInv(s)
    && QueueInv(s.q, if s.owner.Some? then s.pcs[s.owner.value] else Idle)
  }

  lemma InitInv(s: State)
    requires Init(s)
    ensures Inv(s)
  {
  }

  lemma StepKeepsMutex(s: State, s': State, t: nat)
    requires MutexInv(s) && Step(s, s', t)
    ensures MutexInv(s')
  {
    hide Items, Slot;
  }

  lemma StoreKeeps(q: Queue, v: Pointer)
    requires Settled(q) && q.size != |q.buffer|
    ensures Stored(q.(buffer := q.buffer[q.in_ := v], enqueued := q.enqueued + [v]), v)
  {
    var buffer := q.buffer[q.in_ := v];
    assert Items(buffer, q.out, q.size) == Items(q.buffer, q.out, q.size);
  }

  lemma CountKeeps(q: Queue, v: Pointer)
    requires Stored(q, v)
    ensures Counted(q.(size := q.size + 1), q.in_)
  {
    assert q.buffer == q.buffer[q.in_ := v];
    Push(q.buffer, q.out, q.size, v);
  }

  lemma WrapInKeeps(q: Queue)
    requires Counted(q, q.in_ - 1)
    ensures Settled(q.(in_ := q.in_ % |q.buffer|))
  {
    Next(q.out, q.size - 1, |q.buffer|);
  }

  lemma ReadKeeps(q: Queue)
    requires Settled(q) && q.size != 0
    ensures Taken(q.(dequeued := q.dequeued + [q.buffer[q.out]]), q.buffer[q.out], q.out, q.size)
  {
    var items := Items(q.buffer, q.out, q.size);
    assert items == [q.buffer[q.out]] + items[1..];
  }

  /** Neither what is counted nor what is taken depends on the field the next statement changes. */
  lemma BumpKeeps(q: Queue, v: Pointer)
    ensures Counted(q, q.in_) ==> Counted(q.(in_ := q.in_ + 1), q.in_)
    ensures Taken(q, v, q.out, q.size) ==> Taken(q.(size := q.size - 1), v, q.out, q.size)
    ensures Taken(q, v, q.out, q.size + 1) ==> Taken(q.(out := q.out + 1), v, q.out, q.size + 1)
  {
  }

  lemma WrapOutKeeps(q: Queue, v: Pointer)
    requires Taken(q, v, q.out - 1, q.size + 1)
    ensures var q' := q.(out := q.out % |q.buffer|); Settled(q') && Last(q', v)
  {
    Drop(q.buffer, q.out - 1, q.size + 1, 1);
    SlotIsMod(q.out - 1, 1, |q.buffer|);
  }

  lemma InsideKeeps(s: State, s': State, t: nat)
    requires Step(s, s', t) && s.owner == Some(t) && s.pcs[t].Holds() && QueueInv(s.q, s.pcs[t])
    ensures 0 < |s.q.buffer| ==> 0 < |s'.q.buffer|
    ensures || (s'.owner == None && QueueInv(s'.q, Idle))
            || (s'.owner == Some(t) && t < |s'.pcs| && QueueInv(s'.q, s'.pcs[t]))
  {
    hide Settled, Stored, Taken, Counted, Last, Slot, Items;
    match s.pcs[t]
    case EnqLocked(v) =>
      if s'.owner.Some? {
        StoreKeeps(s.q, v);
      }
    case EnqStored(v) => CountKeeps(s.q, v);
    case EnqSized => BumpKeeps(s.q, 0);
    case EnqIn => WrapInKeeps(s.q);
    case DeqLocked =>
      if s'.owner.Some? {
        ReadKeeps(s.q);
      }
    case DeqRead(v) => BumpKeeps(s.q, v);
    case DeqSized(v) => BumpKeeps(s.q, v);
    case DeqOut(v) => WrapOutKeeps(s.q, v);
    case _ =>
  }

  lemma StepInRange(s: State, s': State, t: nat)
    requires Step(s, s', t)
    ensures t < |s.pcs| == |s'.pcs|
  {
  }

  lemma OutsideKeeps(s: State, s': State, t: nat)
    requires Step(s, s', t) && !s.pcs[t].Holds()
    ensures s'.q == s.q && |s'.pcs| == |s.pcs|
    ensures forall u :: 0 <= u < |s.pcs| && u != t ==> s'.pcs[u] == s.pcs[u]
    ensures || s'.owner == s.owner
            || (s.owner == None && s'.owner == Some(t) && (s'.pcs[t].EnqLocked? || s'.pcs[t].DeqLocked?))
  {
  }

  /** Every statement of every thread keeps the invariant. */
  lemma StepKeepsInv(s: State, s': State, t: nat)
    requires Inv(s) && Step(s, s', t)
    ensures Inv(s')
  {
    hide Settled, Stored, Taken, Counted, Last, Slot, Items, Step;
    StepKeepsMutex(s, s', t);
    StepInRange(s, s', t);
    if s.pcs[t].Holds() {
      InsideKeeps(s, s', t);
    } else {
      OutsideKeeps(s, s', t);
    }
  }

  ghost predicate Run(ss: seq<State>, ts: seq<nat>) {
    && |ss| == |ts| + 1 && Init(ss[0])
    && (forall i :: 0 <= i < |ts| ==> Step(ss[i], ss[i + 1], ts[i]))
  }

  lemma {:induction false} RunKeepsInv(ss: seq<State>, ts: seq<nat>)
    requires Run(ss, ts)
    ensures Inv(ss[|ts|])
  {
    if ts == [] {
      InitInv(ss[0]);
    } else {
      var n := |ts| - 1;
      RunKeepsInv(ss[..n + 1], ts[..n]);
      StepKeepsInv(ss[n], ss[n + 1], ts[n]);
    }
  }

  /** First in, first out, after any interleaving of any threads' statements: what has been
  dequeued is the oldest part of what has been enqueued, the rest is in the ring whenever
  nobody is inside, the two indices agree, the size stays within the capacity, at most one
  thread is inside, and no access to the buffer is out of range. */
  lemma RunIsFifo(ss: seq<State>, ts: seq<nat>)
    requires Run(ss, ts)
    ensures var s, q := ss[|ts|], ss[|ts|].q;
      && q.dequeued <= q.enqueued
      && 0 <= q.size <= |q.buffer|
      && (s.owner.None? ==> && 0 <= q.out < |q.buffer| && q.in_ == (q.out + q.size) % |q.buffer|
                            && q.enqueued == q.dequeued + Items(q.buffer, q.out, q.size))
      && (forall t, u :: 0 <= t < u < |s.pcs| ==> !(s.pcs[t].Holds() && s.pcs[u].Holds()))
      && (forall t :: 0 <= t < |s.pcs| && s.pcs[t].EnqLocked? && q.size != |q.buffer| ==> 0 <= q.in_ < |q.buffer|)
      && (forall t :: 0 <= t < |s.pcs| && s.pcs[t].DeqLocked? && q.size != 0 ==> 0 <= q.out < |q.buffer|)
      && (forall t :: 0 <= t < |s.pcs| && s.pcs[t].DeqWrapped? ==> Last(q, s.pcs[t].v))
  {
    RunKeepsInv(ss, ts);
    var s, q := ss[|ts|], ss[|ts|].q;
    if s.owner.None? {
      SlotIsMod(q.out, q.size, |q.buffer|);
    }
  }

  // ----- what a thread can do on its own

  /** Thread `t` takes `n` steps and no other takes any. */
  ghost predicate Alone(s: State, s': State, t: nat, n: nat)
    decreases n
  {
    if n == 0 then s' == s else exists u :: Step(s, u, t) && Alone(u, s', t, n - 1)
  }

  lemma AloneNow(s: State, t: nat)
    ensures Alone(s, s, t, 0)
  {
  }

  lemma AloneStep(s: State, u: State, s': State, t: nat, n: nat)
    requires Step(s, u, t) && Alone(u, s', t, n)
    ensures Alone(s, s', t, n + 1)
  {
  }

  /** A thread that wants to put `v` in, and is let run while nobody is inside and there is
  room, puts it in. */
  lemma EnqueueGoesThrough(s: State, t: nat, v: Pointer)
    requires Inv(s) && s.owner.None? && t < |s.pcs| && s.pcs[t] == EnqWaiting(v) && s.q.size < |s.q.buffer|
    ensures (exists s' ::
      && Alone(s, s', t, 6) && |s'.pcs| == |s.pcs| && s'.pcs[t] == Idle && s'.owner.None?
      && s'.q.enqueued == s.q.enqueued + [v] && s'.q.dequeued == s.q.dequeued && s'.q.size == s.q.size + 1)
  {
    hide Alone, Items, Inv;
    InsideRange(s);
    var q := s.q;
    var q1 := q.(buffer := q.buffer[q.in_ := v], enqueued := q.enqueued + [v]);
    var q2 := q1.(size := q.size + 1);
    var q3 := q2.(in_ := q.in_ + 1);
    var q4 := q3.(in_ := q3.in_ % |q.buffer|);
    var end := At(s, t, Idle, q4);
    AloneNow(end, t);
    AloneStep(At(s, t, EnqWrapped, q4).(owner := Some(t)), end, end, t, 0);
    AloneStep(At(s, t, EnqIn, q3).(owner := Some(t)), At(s, t, EnqWrapped, q4).(owner := Some(t)), end, t, 1);
    AloneStep(At(s, t, EnqSized, q2).(owner := Some(t)), At(s, t, EnqIn, q3).(owner := Some(t)), end, t, 2);
    AloneStep(At(s, t, EnqStored(v), q1).(owner := Some(t)), At(s, t, EnqSized, q2).(owner := Some(t)), end, t, 3);
    AloneStep(At(s, t, EnqLocked(v), q).(owner := Some(t)), At(s, t, EnqStored(v), q1).(owner := Some(t)), end, t, 4);
    AloneStep(s, At(s, t, EnqLocked(v), q).(owner := Some(t)), end, t, 5);
  }

  lemma InsideRange(s: State)
    requires Inv(s) && s.owner.None?
    ensures 0 < |s.q.buffer| && 0 <= s.q.in_ < |s.q.buffer| && 0 <= s.q.out < |s.q.buffer|
    ensures 0 <= s.q.size && |s.q.enqueued| == |s.q.dequeued| + s.q.size
    ensures 0 < s.q.size ==> s.q.buffer[s.q.out] == s.q.enqueued[|s.q.dequeued|]
  {
    if 0 < s.q.size {
      assert Items(s.q.buffer, s.q.out, s.q.size)[0] == s.q.buffer[s.q.out];
    }
  }

  /** A thread that wants a value, and is let run while nobody is inside and there is one, gets
  the oldest. */
  lemma DequeueGoesThrough(s: State, t: nat)
    requires Inv(s) && s.owner.None? && t < |s.pcs| && s.pcs[t] == DeqWaiting && 0 < s.q.size
    ensures |s.q.dequeued| < |s.q.enqueued|
    ensures var v := s.q.enqueued[|s.q.dequeued|];
      (exists s' ::
        && Alone(s, s', t, 5) && |s'.pcs| == |s.pcs| && s'.pcs[t] == DeqWrapped(v)
        && s'.q.enqueued == s.q.enqueued && s'.q.dequeued == s.q.dequeued + [v] && s'.q.size == s.q.size - 1)
  {
    hide Alone, Items, Inv;
    InsideRange(s);
    var q, v := s.q, s.q.buffer[s.q.out];
    var q1 := q.(dequeued := q.dequeued + [v]);
    var q2 := q1.(size := q.size - 1);
    var q3 := q2.(out := q.out + 1);
    var q4 := q3.(out := q3.out % |q.buffer|);
    var end := At(s, t, DeqWrapped(v), q4).(owner := Some(t));
    AloneNow(end, t);
    AloneStep(At(s, t, DeqOut(v), q3).(owner := Some(t)), end, end, t, 0);
    AloneStep(At(s, t, DeqSized(v), q2).(owner := Some(t)), At(s, t, DeqOut(v), q3).(owner := Some(t)), end, t, 1);
    AloneStep(At(s, t, DeqRead(v), q1).(owner := Some(t)), At(s, t, DeqSized(v), q2).(owner := Some(t)), end, t, 2);
    AloneStep(At(s, t, DeqLocked, q).(owner := Some(t)), At(s, t, DeqRead(v), q1).(owner := Some(t)), end, t, 3);
    AloneStep(s, At(s, t, DeqLocked, q).(owner := Some(t)), end, t, 4);
  }

  /** A full queue lets nobody put in, an empty one has nothing to give: the thread waits again,
  and nothing has changed. */
  lemma NoRoomMeansWaiting(s: State, t: nat)
    requires t < |s.pcs| && s.owner.None?
    ensures s.pcs[t].EnqWaiting? && s.q.size == |s.q.buffer| ==> Alone(s, s, t, 2)
    ensures s.pcs[t] == DeqWaiting && s.q.size == 0 ==> Alone(s, s, t, 2)
  {
    hide Alone;
    assert s.pcs[t := s.pcs[t]] == s.pcs;
    AloneNow(s, t);
    if s.pcs[t].EnqWaiting? && s.q.size == |s.q.buffer| {
      var inside := At(s, t, EnqLocked(s.pcs[t].v), s.q).(owner := Some(t));
      assert inside.pcs[t := s.pcs[t]] == s.pcs;
      AloneStep(inside, s, s, t, 0);
      AloneStep(s, inside, s, t, 1);
    }
    if s.pcs[t] == DeqWaiting && s.q.size == 0 {
      var inside := At(s, t, DeqLocked, s.q).(owner := Some(t));
      assert inside.pcs[t := s.pcs[t]] == s.pcs;
      AloneStep(inside, s, s, t, 0);
      AloneStep(s, inside, s, t, 1);
    }
  }
}

/** The ring-buffer queue: a bounded double-ended queue in L slots, one of them always free,
    and what its lock-protected steps guarantee when they interleave. */
module Queue {
  import opened Bytes

  /** increase and decrease, for a queue of `length` slots */
  function Increase(i: nat, length: nat): (r: nat)
    requires i < length
    ensures r < length
  {
    if i == length - 1 then 0 else i + 1
  }

  function Decrease(i: nat, length: nat): (r: nat)
    requires i < length
    ensures r < length
  {
    if i == 0 then length - 1 else i - 1
  }

  /** The slots from `front` up to `pointer`, around the end. */
  function Window<T>(slots: seq<T>, front: nat, pointer: nat): (w: seq<T>)
    requires front < |slots| && pointer < |slots|
    ensures |w| < |slots|
  {
    if front <= pointer then slots[front..pointer] else slots[front..] + slots[..pointer]
  }

  predicate Full(length: nat, front: nat, pointer: nat)
    requires pointer < length
  {
    front == Increase(pointer, length)
  }

  lemma FullMeans<T>(slots: seq<T>, front: nat, pointer: nat)
    requires front < |slots| && pointer < |slots|
    ensures Full(|slots|, front, pointer) <==> |Window(slots, front, pointer)| == |slots| - 1
    ensures front == pointer <==> Window(slots, front, pointer) == []
  {
  }

  lemma WindowPush<T>(slots: seq<T>, front: nat, pointer: nat, x: T)
    requires front < |slots| && pointer < |slots| && !Full(|slots|, front, pointer)
    ensures Window(slots[pointer := x], front, Increase(pointer, |slots|)) == Window(slots, front, pointer) + [x]
  {
  }

  lemma WindowPushFront<T>(slots: seq<T>, front: nat, pointer: nat, x: T)
    requires front < |slots| && pointer < |slots| && !Full(|slots|, front, pointer)
    ensures Window(slots[Decrease(front, |slots|) := x], Decrease(front, |slots|), pointer)
         == [x] + Window(slots, front, pointer)
  {
    if front == 0 {
      PushFrontAround(slots, pointer, x);
    } else if front <= pointer {
      PushFrontStraight(slots, front, pointer, x);
    } else {
      PushFrontBent(slots, front, pointer, x);
    }
  }

  lemma PushFrontAround<T>(slots: seq<T>, pointer: nat, x: T)
    requires pointer < |slots| - 1
    ensures Window(slots[|slots| - 1 := x], |slots| - 1, pointer) == [x] + Window(slots, 0, pointer)
  {
    SliceUpdate(slots, |slots| - 1, x, |slots|, pointer);
  }

  lemma PushFrontStraight<T>(slots: seq<T>, front: nat, pointer: nat, x: T)
    requires 0 < front <= pointer < |slots|
    ensures Window(slots[front - 1 := x], front - 1, pointer) == [x] + Window(slots, front, pointer)
  {
    SliceUpdate(slots, front - 1, x, pointer, 0);
  }

  lemma PushFrontBent<T>(slots: seq<T>, front: nat, pointer: nat, x: T)
    requires pointer < front - 1 < front < |slots|
    ensures Window(slots[front - 1 := x], front - 1, pointer) == [x] + Window(slots, front, pointer)
  {
    hide Window;
    var s := slots[front - 1 := x];
    WindowBent(s, front - 1, pointer);
    WindowBent(slots, front, pointer);
    TailUpdate(slots, front - 1, x);
    SliceUpdate(slots, front - 1, x, |slots|, pointer);
    Regroup([x], slots[front..], slots[..pointer]);
  }

  lemma WindowBent<T>(slots: seq<T>, front: nat, pointer: nat)
    requires pointer < front < |slots|
    ensures Window(slots, front, pointer) == slots[front..] + slots[..pointer]
  {
  }

  lemma TailUpdate<T>(s: seq<T>, f: nat, x: T)
    requires f < |s|
    ensures s[f := x][f..] == [x] + s[f + 1..]
  {
  }

  lemma SliceUpdate<T>(s: seq<T>, f: nat, x: T, k: nat, j: nat)
    requires j <= f < k <= |s|
    ensures s[f := x][f..k] == [x] + s[f + 1..k] && s[f := x][..j] == s[..j]
  {
  }

  lemma WindowPop<T>(slots: seq<T>, front: nat, pointer: nat)
    requires front < |slots| && pointer < |slots| && front != pointer
    ensures Window(slots, front, pointer) == [slots[front]] + Window(slots, Increase(front, |slots|), pointer)
  {
    if front < pointer {
      assert slots[front..pointer] == [slots[front]] + slots[front + 1..pointer];
    } else {
      HeadOf(slots, front);
      if front == |slots| - 1 {
        assert slots[front + 1..] == [] && slots[0..pointer] == slots[..pointer];
      } else {
        Regroup([slots[front]], slots[front + 1..], slots[..pointer]);
      }
    }
  }

  lemma HeadOf<T>(s: seq<T>, i: nat)
    requires i < |s|
    ensures s[i..] == [s[i]] + s[i + 1..]
  {
  }

  // ----- one caller at a time ---------------------------------------------------------------

  class GrandmaQueue<T> {
    const queue: array<T>
    var front: nat
    var pointer: nat

    constructor (length: nat, blank: T)
      requires length >= 1
      ensures Valid() && fresh(queue) && queue.Length == length && Contents() == []
    {
      queue := new T[length](_ => blank);
      front, pointer := 0, 0;
    }

    ghost predicate Valid()
      reads this
    {
      front < queue.Length && pointer < queue.Length
    }

    ghost function Contents(): (c: seq<T>)
      requires Valid()
      reads this, queue
    {
      Window(queue[..], front, pointer)
    }

    method IsEmpty() returns (r: bool)
      requires Valid()
      ensures r == (Contents() == [])
    {
      FullMeans(queue[..], front, pointer);
      r := front == pointer;
    }

    method IsFull() returns (r: bool)
      requires Valid()
      ensures r == (|Contents()| == queue.Length - 1)
    {
      FullMeans(queue[..], front, pointer);
      r := front == Increase(pointer, queue.Length);
    }

    /** PushMessage: it panics on a full queue. */
    method PushMessage(x: T) returns (ok: bool)
      requires Valid()
      modifies this, queue
      ensures Valid() && ok == (|old(Contents())| < queue.Length - 1)
      ensures Contents() == old(Contents()) + (if ok then [x] else [])
    {
      var full := IsFull();
      if full {
        return false;
      }
      WindowPush(queue[..], front, pointer, x);
      ghost var slots := queue[..];
      queue[pointer] := x;
      assert queue[..] == slots[pointer := x];
      pointer := Increase(pointer, queue.Length);
      ok := true;
    }

    method PushFront(x: T) returns (ok: bool)
      requires Valid()
      modifies this, queue
      ensures Valid() && ok == (|old(Contents())| < queue.Length - 1)
      ensures Contents() == (if ok then [x] else []) + old(Contents())
    {
      var full := IsFull();
      if full {
        return false;
      }
      WindowPushFront(queue[..], front, pointer, x);
      ghost var slots := queue[..];
      front := Decrease(front, queue.Length);
      queue[front] := x;
      assert queue[..] == slots[front := x];
      ok := true;
    }

    /** PopMessage, once its wait for a message is over */
    method PopMessage() returns (x: T)
      requires Valid() && Contents() != []
      modifies this
      ensures Valid() && x == old(Contents())[0] && Contents() == old(Contents())[1..]
    {
      WindowPop(queue[..], front, pointer);
      x := queue[front];
      front := Increase(front, queue.Length);
    }
  }

  // ----- many callers: the lock-protected steps ------------------------------------------------

  /** A pusher that has passed IsFull and not yet stored: PushMessage, or PushFront. */
  datatype Pusher<T> = Pusher(msg: T, front: bool)

  /** At most one popper holds the queue lock. */
  datatype Popper<T> = NoPop | Locked | NotEmpty | Holds(msg: T)

  /** `passed` are the pushers between their two steps, however many; `popped` is what was
      delivered, and `line` is every message stored, in the order in which it is due. */
  datatype Shared<T> = Shared(slots: seq<T>, front: nat, pointer: nat, passed: seq<Pusher<T>>, popper: Popper<T>,
                              line: seq<T>, popped: seq<T>)
  {
    predicate InRange() { front < |slots| && pointer < |slots| }

    predicate IsFull()
      requires InRange()
    {
      Full(|slots|, front, pointer)
    }

    function Content(): (w: seq<T>)
      requires InRange()
    {
      Window(slots, front, pointer)
    }
  }

  datatype Step<T> =
    | CheckRoom(msg: T, front: bool)   // PushMessage or PushFront: IsFull
    | Store(i: nat)                    // the critical section of the i-th pusher that passed
    | TakeLock                         // PopMessage: queueLock.L
    | WaitForMore                      // PopMessage: Wait gives the lock back
    | SeeMessage                       // PopMessage: IsEmpty is false
    | ReadSlot                         // PopMessage: the first critical section
    | Advance                          // PopMessage: the second one, and Unlock

  /** The step can be taken. */
  predicate Enabled<T>(s: Shared<T>, a: Step<T>)
    requires s.InRange()
  {
    match a
    case CheckRoom(_, _) => !s.IsFull()
    case Store(i) => i < |s.passed|
    case TakeLock => s.popper.NoPop?
    case WaitForMore => s.popper.Locked? && s.front == s.pointer
    case SeeMessage => s.popper.Locked? && s.front != s.pointer
    case ReadSlot => s.popper.NotEmpty?
    case Advance => s.popper.Holds?
  }

  function Stored<T>(s: Shared<T>, x: T): (r: Shared<T>)
    requires s.InRange()
  {
    s.(slots := s.slots[s.pointer := x], pointer := Increase(s.pointer, |s.slots|), line := s.line + [x])
  }

  function StoredInFront<T>(s: Shared<T>, x: T): (r: Shared<T>)
    requires s.InRange()
  {
    var f, n := Decrease(s.front, |s.slots|), Min(|s.popped|, |s.line|);
    s.(slots := s.slots[f := x], front := f, line := s.line[..n] + [x] + s.line[n..])
  }

  function Take<T>(s: Shared<T>, a: Step<T>): (r: Shared<T>)
    requires s.InRange() && Enabled(s, a)
    ensures r.InRange() && |r.slots| == |s.slots|
  {
    match a
    case CheckRoom(msg, front) => s.(passed := s.passed + [Pusher(msg, front)])
    case Store(i) =>
      var p := s.passed[i];
      (if p.front then StoredInFront(s, p.msg) else Stored(s, p.msg)).(passed := s.passed[..i] + s.passed[i + 1..])
    case TakeLock => s.(popper := Locked)
    case WaitForMore => s.(popper := NoPop)
    case SeeMessage => s.(popper := NotEmpty)
    case ReadSlot => s.(popper := Holds(s.slots[s.front]))
    case Advance => s.(front := Increase(s.front, |s.slots|), popper := NoPop, popped := s.popped + [s.popper.msg])
  }

  /** What ought to hold throughout: everything stored was delivered, in the order due, or is
      still queued, and a popper has the message it is about to remove. */
  ghost predicate Sound<T>(s: Shared<T>) {
    && s.InRange()
    && s.line == s.popped + s.Content()
    && (s.popper.NotEmpty? || s.popper.Holds? ==> s.front != s.pointer)
    && (s.popper.Holds? ==> s.popper.msg == s.slots[s.front])
  }

  /** A store at a moment when the ring is not full, and not in front of a different message
      that a popper has read and not yet removed. */
  predicate Good<T(==)>(s: Shared<T>, a: Step<T>)
    requires s.InRange() && Enabled(s, a)
  {
    a.Store? ==>
      && !s.IsFull()
      && (s.passed[a.i].front && s.popper.Holds? ==> s.popper.msg == s.passed[a.i].msg)
  }

  lemma StoreSound<T>(s: Shared<T>, x: T)
    requires Sound(s)
    ensures Sound(Stored(s, x)) <==> !s.IsFull()
  {
    FullMeans(s.slots, s.front, s.pointer);
    if !s.IsFull() {
      WindowPush(s.slots, s.front, s.pointer, x);
      Regroup(s.popped, s.Content(), [x]);
    } else {
      assert |Stored(s, x).line| == |s.popped| + |s.Content()| + 1;
    }
  }

  lemma FrontStoreSound<T>(s: Shared<T>, x: T)
    requires Sound(s)
    ensures Sound(StoredInFront(s, x)) <==> !s.IsFull() && (s.popper.Holds? ==> s.popper.msg == x)
  {
    FullMeans(s.slots, s.front, s.pointer);
    var n := |s.popped|;
    assert s.line[..n] == s.popped && s.line[n..] == s.Content();
    if !s.IsFull() {
      WindowPushFront(s.slots, s.front, s.pointer, x);
      Regroup(s.popped, [x], s.Content());
    } else {
      assert |StoredInFront(s, x).line| == n + 1 + |s.Content()|;
    }
  }

  /** Every step but a store keeps the queue sound, and a store does if and only if it is good. */
  lemma StepSound<T>(s: Shared<T>, a: Step<T>)
    requires Sound(s) && Enabled(s, a)
    ensures Sound(Take(s, a)) <==> Good(s, a)
  {
    if a.Store? {
      var p := s.passed[a.i];
      if p.front { FrontStoreSound(s, p.msg); } else { StoreSound(s, p.msg); }
    } else if a.Advance? {
      WindowPop(s.slots, s.front, s.pointer);
      Regroup(s.popped, [s.slots[s.front]], Window(s.slots, Increase(s.front, |s.slots|), s.pointer));
    }
  }

  // ----- runs -------------------------------------------------------------------------------------

  ghost predicate Runs<T>(s: Shared<T>, steps: seq<Step<T>>)
    decreases |steps|
  {
    s.InRange() && (steps == [] || (Enabled(s, steps[0]) && Runs(Take(s, steps[0]), steps[1..])))
  }

  ghost function After<T>(s: Shared<T>, steps: seq<Step<T>>): (r: Shared<T>)
    requires Runs(s, steps)
    ensures r.InRange() && |r.slots| == |s.slots|
    decreases |steps|
  {
    if steps == [] then s else After(Take(s, steps[0]), steps[1..])
  }

  ghost predicate Fresh<T>(s: Shared<T>) {
    s.InRange() && s.front == s.pointer == 0 && s.passed == [] && s.popper.NoPop? && s.line == [] && s.popped == []
  }

  /** The queue is sound at every moment of the run. */
  ghost predicate AlwaysSound<T>(s: Shared<T>, steps: seq<Step<T>>)
    requires Runs(s, steps)
    decreases |steps|
  {
    Sound(s) && (steps == [] || AlwaysSound(Take(s, steps[0]), steps[1..]))
  }

  ghost predicate AllGood<T>(s: Shared<T>, steps: seq<Step<T>>)
    requires Runs(s, steps)
    decreases |steps|
  {
    steps == [] || (Good(s, steps[0]) && AllGood(Take(s, steps[0]), steps[1..]))
  }

  /** Over every interleaving of any number of PushMessage, PushFront and PopMessage calls, the
      queue is sound at every moment if and only if every store finds a ring that is not full
      and, in front, no popper that holds another message. */
  lemma {:induction false} SoundExactly<T>(s: Shared<T>, steps: seq<Step<T>>)
    requires Sound(s) && Runs(s, steps)
    ensures AlwaysSound(s, steps) <==> AllGood(s, steps)
    ensures AlwaysSound(s, steps) ==> Sound(After(s, steps))
    decreases |steps|
  {
    if steps != [] {
      var t := Take(s, steps[0]);
      StepSound(s, steps[0]);
      if Good(s, steps[0]) {
        SoundExactly(t, steps[1..]);
      } else {
        NeverSound(t, steps[1..]);
      }
    }
  }

  lemma NeverSound<T>(s: Shared<T>, steps: seq<Step<T>>)
    requires Runs(s, steps) && !Sound(s)
    ensures !AlwaysSound(s, steps)
  {
  }

  /** Pushes go one after the other, at the back. */
  ghost predicate Serialised<T>(s: Shared<T>, steps: seq<Step<T>>)
    requires Runs(s, steps)
    decreases |steps|
  {
    steps == []
    || ((steps[0].CheckRoom? ==> s.passed == [] && !steps[0].front) && Serialised(Take(s, steps[0]), steps[1..]))
  }

  lemma {:induction false} SerialisedIsGood<T>(s: Shared<T>, steps: seq<Step<T>>)
    requires Runs(s, steps) && Serialised(s, steps)
    requires s.passed == [] || (|s.passed| == 1 && !s.passed[0].front && !s.IsFull())
    requires s.popper.Holds? || s.popper.NotEmpty? ==> s.front != s.pointer
    ensures AllGood(s, steps)
    decreases |steps|
  {
    if steps != [] {
      SerialisedIsGood(Take(s, steps[0]), steps[1..]);
    }
  }

  /** With pushes serialised through PushMessage and any number of poppers, over every
      interleaving of the lock-protected steps, what was popped is a prefix of what was pushed
      and the queue holds the rest: nothing is lost, doubled or reordered. */
  lemma NothingLostOrReordered<T>(s: Shared<T>, steps: seq<Step<T>>)
    requires Fresh(s) && Runs(s, steps) && Serialised(s, steps)
    ensures var r := After(s, steps); r.popped <= r.line && r.line[|r.popped|..] == r.Content()
  {
    SerialisedIsGood(s, steps);
    SoundExactly(s, steps);
  }

  // ----- and two that lose messages ------------------------------------------------------------------

  lemma {:induction false} RunsInParts<T>(s: Shared<T>, a: seq<Step<T>>, b: seq<Step<T>>)
    requires Runs(s, a) && Runs(After(s, a), b)
    ensures Runs(s, a + b) && After(s, a + b) == After(After(s, a), b)
    decreases |a|
  {
    if a == [] {
      assert a + b == b;
    } else {
      assert (a + b)[0] == a[0] && (a + b)[1..] == a[1..] + b;
      RunsInParts(Take(s, a[0]), a[1..], b);
    }
  }

  lemma RunsOne<T>(s: Shared<T>, a: Step<T>)
    requires s.InRange() && Enabled(s, a)
    ensures Runs(s, [a]) && After(s, [a]) == Take(s, a)
  {
    assert [a][1..] == [];
    assert After(Take(s, a), []) == Take(s, a);
  }

  /** The run goes on with one more step. */
  lemma RunsOn<T>(s: Shared<T>, steps: seq<Step<T>>, a: Step<T>)
    requires Runs(s, steps) && Enabled(After(s, steps), a)
    ensures Runs(s, steps + [a]) && After(s, steps + [a]) == Take(After(s, steps), a)
  {
    RunsOne(After(s, steps), a);
    RunsInParts(s, steps, [a]);
  }

  ghost predicate Quiet<T>(s: Shared<T>, w: seq<T>) {
    Sound(s) && s.passed == [] && s.popper.NoPop? && s.popped == [] && s.Content() == w
  }

  /** Pushing one message after another, as far as there is room. */
  lemma {:induction false} PushAll<T>(s: Shared<T>, w: seq<T>) returns (steps: seq<Step<T>>)
    requires Fresh(s) && |w| < |s.slots|
    ensures Runs(s, steps) && Quiet(After(s, steps), w)
    decreases |w|
  {
    if w == [] {
      return [];
    }
    var n := |w| - 1;
    steps := PushAll(s, w[..n]);
    steps := PushOne(s, steps, w[..n], w[n]);
    assert w == w[..n] + [w[n]];
  }

  lemma PushOne<T>(s: Shared<T>, before: seq<Step<T>>, w: seq<T>, x: T) returns (steps: seq<Step<T>>)
    requires Runs(s, before) && Quiet(After(s, before), w) && |w| + 1 < |s.slots|
    ensures Runs(s, steps) && Quiet(After(s, steps), w + [x])
  {
    var t := After(s, before);
    FullMeans(t.slots, t.front, t.pointer);
    StoreSound(t, x);
    WindowPush(t.slots, t.front, t.pointer, x);
    hide Window, Full, Runs, After;
    RunsOn(s, before, CheckRoom(x, false));
    steps := before + [CheckRoom(x, false)];
    RunsOn(s, steps, Store(0));
    steps := steps + [Store(0)];
  }

  /** A store into a full ring makes it count as empty. */
  lemma StoreWhenFull<T>(s: Shared<T>, x: T)
    requires s.InRange() && s.IsFull()
    ensures Stored(s, x).InRange() && Stored(s, x).Content() == []
  {
  }

  /** Two pushers pass IsFull while one place is left: after both have stored, the queue of any
      length counts as empty, and all of its messages are gone. */
  lemma TwoPushersLoseAll<T>(s: Shared<T>, w: seq<T>, x: T, y: T) returns (steps: seq<Step<T>>)
    requires Fresh(s) && |w| == |s.slots| - 2
    ensures Runs(s, steps)
    ensures var r := After(s, steps); r.line == w + [x, y] && r.popped == [] && r.Content() == []
  {
    steps := PushAll(s, w);
    var t := After(s, steps);
    var one := Stored(t, x);
    OnePlaceLeft(t, w, x);
    StoreWhenFull(one, y);
    hide Window, Full, Runs, After, Increase;
    RunsOn(s, steps, CheckRoom(x, false));
    steps := steps + [CheckRoom(x, false)];
    RunsOn(s, steps, CheckRoom(y, false));
    steps := steps + [CheckRoom(y, false)];
    RunsOn(s, steps, Store(0));
    steps := steps + [Store(0)];
    RunsOn(s, steps, Store(0));
    steps := steps + [Store(0)];
    assert w + [x] + [y] == w + [x, y];
  }

  lemma OnePlaceLeft<T>(s: Shared<T>, w: seq<T>, x: T)
    requires Quiet(s, w) && |w| == |s.slots| - 2
    ensures !s.IsFull() && Stored(s, x).InRange() && Stored(s, x).IsFull() && s.line == w
  {
    FullMeans(s.slots, s.front, s.pointer);
    WindowPush(s.slots, s.front, s.pointer, x);
    hide Window;
    var one := Stored(s, x);
    FullMeans(one.slots, one.front, one.pointer);
    assert [] + w == w;
  }

  /** A PushFront between the two critical sections of a PopMessage: the popper returns the old
      head and removes the new one, so `b` is nowhere and `a` is delivered and still queued. */
  lemma PushFrontDuringPop<T>(s: Shared<T>, a: T, b: T) returns (steps: seq<Step<T>>)
    requires Fresh(s) && |s.slots| >= 3
    ensures Runs(s, steps)
    ensures var r := After(s, steps); r.line == [b, a] && r.popped == [a] && r.Content() == [a]
  {
    steps := PushAll(s, [a]);
    var t := After(s, steps);
    RemovedInstead(t, a, b);
    hide Window, Full, Runs, After, Increase, Decrease;
    steps := PopperReads(s, steps, b);
    RunsOn(s, steps, Store(0));
    steps := steps + [Store(0)];
    RunsOn(s, steps, Advance);
    steps := steps + [Advance];
  }

  /** With `b` stored in front, removing the first slot gives the old content again. */
  lemma RemovedInstead<T>(t: Shared<T>, a: T, b: T)
    requires Quiet(t, [a]) && |t.slots| >= 3
    ensures !t.IsFull() && t.front != t.pointer && t.slots[t.front] == a
    ensures var u := StoredInFront(t, b);
            && u.InRange() && u.line == [b, a]
            && Window(u.slots, Increase(u.front, |u.slots|), u.pointer) == [a]
  {
    FullMeans(t.slots, t.front, t.pointer);
    WindowPop(t.slots, t.front, t.pointer);
    WindowPushFront(t.slots, t.front, t.pointer, b);
    var u := StoredInFront(t, b);
    assert u.front != u.pointer;
    WindowPop(u.slots, u.front, u.pointer);
    hide Window;
    var more := Window(t.slots, Increase(t.front, |t.slots|), t.pointer);
    assert ([t.slots[t.front]] + more)[0] == t.slots[t.front];
    assert [] + [a] == [a] && [a][..0] + [b] + [a][0..] == [b, a];
    assert ([b] + [a])[1..] == [a];
  }

  /** A popper reads the head, and a PushFront passes IsFull. */
  lemma PopperReads<T>(s: Shared<T>, before: seq<Step<T>>, b: T) returns (steps: seq<Step<T>>)
    requires Runs(s, before)
    requires var t := After(s, before); t.popper.NoPop? && t.passed == [] && t.front != t.pointer && !t.IsFull()
    ensures Runs(s, steps)
    ensures var t := After(s, before);
            After(s, steps) == t.(popper := Holds(t.slots[t.front]), passed := [Pusher(b, true)])
  {
    steps := before;
    RunsOn(s, steps, TakeLock);
    steps := steps + [TakeLock];
    RunsOn(s, steps, SeeMessage);
    steps := steps + [SeeMessage];
    RunsOn(s, steps, ReadSlot);
    steps := steps + [ReadSlot];
    RunsOn(s, steps, CheckRoom(b, true));
    steps := steps + [CheckRoom(b, true)];
  }
}

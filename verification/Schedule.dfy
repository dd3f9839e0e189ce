/** The timer wheel: a virtual clock that is stepped by ticks, and when a schedule fires. */
module Schedule {
  import opened Bytes

  const BREAKPOINT := 500              // ticks between two resynchronisations
  const LAG := 1000                    // how far the clock is set back at a resynchronisation
  const STEP := 62                     // milliseconds added per tick
  const BUCKET := 100                  // milliseconds per bucket
  const MAX_EXP := 60 * 60 * 24 * 30 * 1000
  const AT_ONCE := 1000                // below this a message is sent without the wheel

  datatype Clock = Clock(counter: nat, time: int)

  /** The first half of tickingFunc. */
  function Ticked(c: Clock, now: int): (r: Clock) {
    if c.counter == BREAKPOINT then Clock(0, now - LAG) else Clock(c.counter + 1, c.time + STEP)
  }

  function BucketOf(t: int): (b: int) { t / BUCKET }

  /** Where put files a schedule. */
  function DueTime(exp: int, now: int): (t: int) { Min(exp, MAX_EXP) + now }

  datatype Event =
    | Tick(now: int)
    | New(id: int, exp: int, now: int)   // NewSchedule, or a row that recoverSchedule finds

  /** What happens to one id: the times at which it is sent, given the bucket it waits in. */
  function SentTimes(c: Clock, waiting: Option<int>, id: int, es: seq<Event>): (times: seq<int>)
    decreases |es|
  {
    if es == [] then []
    else match es[0]
      case Tick(now) =>
        var d := Ticked(c, now);
        if waiting == Some(BucketOf(d.time)) then [now] + SentTimes(d, None, id, es[1..])
        else SentTimes(d, waiting, id, es[1..])
      case New(i, exp, now) =>
        if i != id then SentTimes(c, waiting, id, es[1..])
        else if exp < AT_ONCE then [now] + SentTimes(c, waiting, id, es[1..])
        else SentTimes(c, Some(BucketOf(DueTime(exp, now))), id, es[1..])
  }

  function ClockAfter(c: Clock, es: seq<Event>): (r: Clock)
    decreases |es|
  {
    if es == [] then c else ClockAfter(if es[0].Tick? then Ticked(c, es[0].now) else c, es[1..])
  }

  ghost predicate Mentions(es: seq<Event>, id: int) {
    exists i :: 0 <= i < |es| && es[i].New? && es[i].id == id
  }

  // ----- no bucket is skipped ---------------------------------------------------------

  /** The clock since the resynchronisation at `sync`. */
  predicate InStep(c: Clock, sync: int) {
    c.counter <= BREAKPOINT && c.time == sync - LAG + STEP * c.counter && sync >= LAG
  }

  function SyncAfter(c: Clock, sync: int, now: int): (s: int) {
    if c.counter == BREAKPOINT then now else sync
  }

  /** Resynchronisations are at most 31100 ms apart. */
  predicate SyncsInTime(c: Clock, sync: int, es: seq<Event>)
    decreases |es|
  {
    if es == [] then true
    else if es[0].New? then SyncsInTime(c, sync, es[1..])
    else && (c.counter == BREAKPOINT ==> LAG <= es[0].now <= sync + 31100)
         && SyncsInTime(Ticked(c, es[0].now), SyncAfter(c, sync, es[0].now), es[1..])
  }

  /** From one tick to the next the clock never jumps over a bucket. */
  lemma NoBucketSkipped(c: Clock, sync: int, now: int)
    requires InStep(c, sync)
    requires c.counter == BREAKPOINT ==> LAG <= now <= sync + 31100
    ensures InStep(Ticked(c, now), SyncAfter(c, sync, now))
    ensures BucketOf(Ticked(c, now).time) <= BucketOf(c.time) + 1
  {
  }

  /** Any longer gap loses a bucket, for a clock at the end of one. */
  lemma SkipPastTheBound(gap: int)
    requires gap > 31100
    ensures var c := Clock(BREAKPOINT, 100099 - LAG + STEP * BREAKPOINT);
            InStep(c, 100099) && BucketOf(Ticked(c, 100099 + gap).time) >= BucketOf(c.time) + 2
  {
  }

  /** 31100 ms is the bound: resynchronising `gap` ms after the last time keeps every clock from
      jumping over a bucket if and only if the gap is no longer. */
  lemma GapExactly(gap: nat)
    ensures (forall c: Clock, sync: int :: InStep(c, sync) && c.counter == BREAKPOINT ==>
               BucketOf(Ticked(c, sync + gap).time) <= BucketOf(c.time) + 1)
            <==> gap <= 31100
  {
    if gap > 31100 {
      SkipPastTheBound(gap);
    }
  }

  /** A schedule whose bucket lies ahead of the clock is sent exactly once, at a tick that
      finds the clock in that bucket, once the clock has got that far; not at all before. */
  lemma {:induction false} SentExactlyOnce(c: Clock, sync: int, b: int, id: int, es: seq<Event>)
    returns (k: nat)
    requires InStep(c, sync) && SyncsInTime(c, sync, es) && !Mentions(es, id)
    requires BucketOf(c.time) < b
    ensures SentTimes(c, Some(b), id, es) != [] || BucketOf(ClockAfter(c, es).time) < b
    ensures SentTimes(c, Some(b), id, es) != [] ==>
              && k < |es| && es[k].Tick? && SentTimes(c, Some(b), id, es) == [es[k].now]
              && BucketOf(ClockAfter(c, es[..k + 1]).time) == b
              && (forall j :: 0 <= j <= k ==> BucketOf(ClockAfter(c, es[..j]).time) < b)
    ensures SentTimes(c, Some(b), id, es) == [] ==> forall j :: 0 <= j <= |es| ==> BucketOf(ClockAfter(c, es[..j]).time) < b
    decreases |es|
  {
    k := 0;
    if es == [] {
      return;
    }
    MentionsTail(es, id);
    var d := if es[0].Tick? then Ticked(c, es[0].now) else c;
    var s := if es[0].Tick? then SyncAfter(c, sync, es[0].now) else sync;
    if es[0].Tick? {
      NoBucketSkipped(c, sync, es[0].now);
    }
    if es[0].Tick? && BucketOf(d.time) == b {
      NothingWaiting(d, id, es[1..]);
      assert es[..1][1..] == [];
    } else {
      k := SentExactlyOnce(d, s, b, id, es[1..]);
      if k < |es| - 1 {
        assert es[..k + 2][1..] == es[1..][..k + 1];
      }
      forall j | 0 <= j <= |es| && (SentTimes(c, Some(b), id, es) == [] || j <= k + 1)
        ensures BucketOf(ClockAfter(c, es[..j]).time) < b
      {
        if j > 0 {
          assert es[..j][1..] == es[1..][..j - 1];
        }
      }
      k := k + 1;
    }
  }

  lemma MentionsTail(es: seq<Event>, id: int)
    requires es != []
    ensures Mentions(es[1..], id) ==> Mentions(es, id)
    ensures !Mentions(es, id) && es[0].New? ==> es[0].id != id
  {
    if i :| 0 <= i < |es[1..]| && es[1..][i].New? && es[1..][i].id == id {
      assert es[i + 1].New? && es[i + 1].id == id;
    }
  }

  lemma {:induction false} NothingWaiting(c: Clock, id: int, es: seq<Event>)
    requires !Mentions(es, id)
    ensures SentTimes(c, None, id, es) == []
    decreases |es|
  {
    if es != [] {
      MentionsTail(es, id);
      NothingWaiting(if es[0].Tick? then Ticked(c, es[0].now) else c, id, es[1..]);
    }
  }

  // ----- with ticks 60 ms apart ---------------------------------------------------------

  /** The clock after a tick at `last`: it trails real time by 1000 ms right after a
      resynchronisation and catches up by 2 ms per tick. */
  predicate OnTrack(c: Clock, sync: int, last: int) {
    InStep(c, sync) && last == sync + 60 * c.counter
  }

  /** Ticks 60 ms apart, everything else in between. */
  predicate Regular(last: int, es: seq<Event>)
    decreases |es|
  {
    if es == [] then true
    else if es[0].Tick? then es[0].now == last + 60 && Regular(es[0].now, es[1..])
    else last <= es[0].now && Regular(last, es[1..])
  }

  lemma Trails(c: Clock, sync: int, last: int)
    requires OnTrack(c, sync, last)
    ensures last - LAG <= c.time <= last
  {
  }

  lemma StaysOnTrack(c: Clock, sync: int, last: int)
    requires OnTrack(c, sync, last)
    ensures OnTrack(Ticked(c, last + 60), SyncAfter(c, sync, last + 60), last + 60)
    ensures c.counter == BREAKPOINT ==> LAG <= last + 60 <= sync + 31100
  {
  }

  lemma {:induction false} RegularSyncsInTime(c: Clock, sync: int, last: int, es: seq<Event>)
    requires OnTrack(c, sync, last) && Regular(last, es)
    ensures SyncsInTime(c, sync, es)
    decreases |es|
  {
    if es != [] {
      if es[0].Tick? {
        StaysOnTrack(c, sync, last);
        RegularSyncsInTime(Ticked(c, es[0].now), SyncAfter(c, sync, es[0].now), es[0].now, es[1..]);
      } else {
        RegularSyncsInTime(c, sync, last, es[1..]);
      }
    }
  }

  /** At every tick of a regular run the clock is at most 1000 ms behind real time. */
  lemma {:induction false} TrailsThroughout(c: Clock, sync: int, last: int, es: seq<Event>, k: nat)
    requires OnTrack(c, sync, last) && Regular(last, es) && k < |es| && es[k].Tick?
    ensures es[k].now - LAG <= ClockAfter(c, es[..k + 1]).time <= es[k].now
    decreases |es|
  {
    assert es[..k + 1][1..] == es[1..][..k];
    if es[0].Tick? {
      StaysOnTrack(c, sync, last);
      var d, s := Ticked(c, es[0].now), SyncAfter(c, sync, es[0].now);
      if k == 0 {
        Trails(d, s, es[0].now);
      } else {
        TrailsThroughout(d, s, es[0].now, es[1..], k - 1);
      }
    } else {
      TrailsThroughout(c, sync, last, es[1..], k - 1);
    }
  }

  /** A waiting schedule, due at `due` in a bucket ahead of the clock, is sent exactly once
      in a regular run that goes on long enough: less than 100 ms early, less than 1100 ms
      late. */
  lemma SentOnTime(c: Clock, sync: int, last: int, due: int, id: int, es: seq<Event>, end: nat) returns (f: int)
    requires OnTrack(c, sync, last) && Regular(last, es) && !Mentions(es, id)
    requires BucketOf(c.time) < BucketOf(due)
    requires end < |es| && es[end].Tick? && es[end].now >= due + 1100
    ensures SentTimes(c, Some(BucketOf(due)), id, es) == [f]
    ensures due - 100 < f < due + 1100
  {
    RegularSyncsInTime(c, sync, last, es);
    var k := SentExactlyOnce(c, sync, BucketOf(due), id, es);
    TrailsThroughout(c, sync, last, es, end);
    f := es[k].now;
    TrailsThroughout(c, sync, last, es, k);
  }

  /** The guarantee for a message accepted during the run: with fresh ids, from the moment it
      is scheduled it is sent exactly once, at once if it is due within a second, and
      otherwise within the bounds around its due time. */
  lemma {:induction false} Guarantee(c: Clock, sync: int, last: int, es: seq<Event>, i: nat, end: nat)
    returns (f: int)
    requires OnTrack(c, sync, last) && Regular(last, es)
    requires i < |es| && es[i].New? && !Mentions(es[..i], es[i].id) && !Mentions(es[i + 1..], es[i].id)
    requires es[i].exp >= 1000 ==>
               i < end < |es| && es[end].Tick? && es[end].now >= DueTime(es[i].exp, es[i].now) + 1100
    ensures SentTimes(c, None, es[i].id, es) == [f]
    ensures if es[i].exp < 1000 then f == es[i].now
            else var due := es[i].now + if es[i].exp <= 2_592_000_000 then es[i].exp else 2_592_000_000;
                 due - 100 < f < due + 1100
    decreases i
  {
    var id := es[i].id;
    if i == 0 {
      var due := DueTime(es[0].exp, es[0].now);
      if es[0].exp < AT_ONCE {
        NothingWaiting(c, id, es[1..]);
        f := es[0].now;
      } else {
        Trails(c, sync, last);
        f := SentOnTime(c, sync, last, due, id, es[1..], end - 1);
      }
    } else {
      assert es[..i][1..] == es[1..][..i - 1];
      assert es[1..][i..] == es[i + 1..];
      MentionsTail(es[..i], id);
      var stop := if end > 0 then end - 1 else 0;
      if es[0].Tick? {
        StaysOnTrack(c, sync, last);
        f := Guarantee(Ticked(c, es[0].now), SyncAfter(c, sync, es[0].now), es[0].now, es[1..], i - 1, stop);
      } else {
        f := Guarantee(c, sync, last, es[1..], i - 1, stop);
      }
    }
  }

  /** The same for a schedule that was waiting before the first resynchronisation, whatever
      the clock said until then, provided it is due in or after that tick's bucket. */
  lemma GuaranteeFromFirstSync(c: Clock, es: seq<Event>, due: int, id: int, end: nat) returns (f: int)
    requires c.counter == BREAKPOINT && es != [] && es[0].Tick? && es[0].now >= LAG
    requires Regular(es[0].now, es[1..]) && !Mentions(es, id)
    requires BucketOf(due) >= BucketOf(es[0].now - LAG)
    requires 0 < end < |es| && es[end].Tick? && es[end].now >= due + 1100
    ensures SentTimes(c, Some(BucketOf(due)), id, es) == [f]
    ensures due - 100 < f < due + 1100
  {
    var now := es[0].now;
    var d := Ticked(c, now);
    MentionsTail(es, id);
    if BucketOf(due) == BucketOf(d.time) {
      NothingWaiting(d, id, es[1..]);
      f := now;
    } else {
      f := SentOnTime(d, now, now, due, id, es[1..], end - 1);
    }
  }

  /** put cuts an expiration down to thirty days, while a message may ask for ninety: a
      longer one is sent once all the same, but ahead of the time asked for. */
  lemma CutToThirtyDays(c: Clock, sync: int, last: int, es: seq<Event>, i: nat, end: nat) returns (f: int)
    requires OnTrack(c, sync, last) && Regular(last, es)
    requires i < end < |es| && es[i].New? && !Mentions(es[..i], es[i].id) && !Mentions(es[i + 1..], es[i].id)
    requires es[i].exp >= 2_592_000_000 + 1200
    requires es[end].Tick? && es[end].now >= DueTime(es[i].exp, es[i].now) + 1100
    ensures SentTimes(c, None, es[i].id, es) == [f]
    ensures f < es[i].now + es[i].exp - 100
  {
    f := Guarantee(c, sync, last, es, i, end);
  }

  // ----- thirty days, exactly -----------------------------------------------------------------

  /** A regular run in which event `i` is a fresh message with expiration `exp`, and which goes
      on until 1100 ms after the time that was asked for. */
  ghost predicate RunFor(exp: int, c: Clock, sync: int, last: int, es: seq<Event>, i: nat, end: nat) {
    && OnTrack(c, sync, last) && Regular(last, es)
    && i < end < |es| && es[i].New? && es[i].exp == exp
    && !Mentions(es[..i], es[i].id) && !Mentions(es[i + 1..], es[i].id)
    && es[end].Tick? && es[end].now >= es[i].now + exp + 1100
  }

  ghost predicate OnceWithin(times: seq<int>, lo: int, hi: int) { |times| == 1 && lo < times[0] < hi }

  function Ticks(last: int, n: nat): (es: seq<Event>)
    ensures |es| == n && forall j :: 0 <= j < n ==> es[j] == Tick(last + 60 * (j + 1))
  {
    seq(n, j requires 0 <= j < n => Tick(last + 60 * (j + 1)))
  }

  lemma {:induction false} TicksRegular(last: int, n: nat)
    ensures Regular(last, Ticks(last, n))
    decreases n
  {
    if n > 0 {
      TicksRegular(last + 60, n - 1);
      assert Ticks(last, n)[1..] == Ticks(last + 60, n - 1);
    }
  }

  lemma CounterStep(a: nat, b: nat, n: nat)
    requires a <= BREAKPOINT && b == if a == BREAKPOINT then 0 else a + 1
    ensures (a + n + 1) % (BREAKPOINT + 1) == (b + n) % (BREAKPOINT + 1)
  {
    assert a == BREAKPOINT ==> a + n + 1 == n + (BREAKPOINT + 1);
  }

  lemma {:induction false} ClockAfterTicks(c: Clock, sync: int, last: int, n: nat) returns (s: int)
    requires OnTrack(c, sync, last)
    ensures var d := ClockAfter(c, Ticks(last, n));
            OnTrack(d, s, last + 60 * n) && d.counter == (c.counter + n) % (BREAKPOINT + 1)
    decreases n
  {
    if n == 0 {
      s := sync;
    } else {
      StaysOnTrack(c, sync, last);
      assert Ticks(last, n)[1..] == Ticks(last + 60, n - 1);
      var d := Ticked(c, last + 60);
      s := ClockAfterTicks(d, SyncAfter(c, sync, last + 60), last + 60, n - 1);
      CounterStep(c.counter, d.counter, n - 1);
      assert last + 60 * n == last + 60 + 60 * (n - 1);
    }
  }

  const EARLY_CLOCK := Clock(228, 14216)
  const EARLY_LAST := 14760
  const EARLY_TICK := 43199999

  /** A message that asks for more than thirty days, accepted 39 ms after a tick, and ticks. */
  function EarlyRun(exp: nat): (es: seq<Event>) { [New(1, exp, EARLY_LAST + 39)] + Ticks(EARLY_LAST, exp) }

  /** When the clock has just caught up with real time, at the start of a bucket. */
  lemma EarlyClock()
    ensures var d := ClockAfter(EARLY_CLOCK, Ticks(EARLY_LAST, EARLY_TICK));
            d.time == EARLY_LAST + 60 * EARLY_TICK == 100 * 25920147
  {
    var s := ClockAfterTicks(EARLY_CLOCK, 1080, EARLY_LAST, EARLY_TICK);
  }

  /** The message is sent at that tick or before. */
  lemma EarlySending(n: nat) returns (f: int)
    requires n > EARLY_TICK
    ensures var ts := SentTimes(EARLY_CLOCK, Some(25920147), 1, Ticks(EARLY_LAST, n));
            ts != [] ==> ts == [f] && f <= 100 * 25920147
  {
    var c, ts := EARLY_CLOCK, Ticks(EARLY_LAST, n);
    TicksRegular(EARLY_LAST, n);
    RegularSyncsInTime(c, 1080, EARLY_LAST, ts);
    EarlyClock();
    hide ClockAfter, SentTimes, SyncsInTime, Regular;
    var k := SentExactlyOnce(c, 1080, 25920147, 1, ts);
    assert ts[..EARLY_TICK] == Ticks(EARLY_LAST, EARLY_TICK);
    f := EARLY_LAST + 60 * (k + 1);
  }

  /** In that run the clock has just caught up with real time when it enters the bucket of the
      cut due time, which ends in 99: the message is sent 100 ms early, or earlier. */
  lemma EarlyRunIsEarly(exp: nat)
    requires exp > 2_592_000_000
    ensures RunFor(exp, EARLY_CLOCK, 1080, EARLY_LAST, EarlyRun(exp), 0, exp)
    ensures !OnceWithin(SentTimes(EARLY_CLOCK, None, 1, EarlyRun(exp)), EARLY_LAST + 39 + exp - 100, EARLY_LAST + 39 + exp + 1100)
  {
    var es, ts := EarlyRun(exp), Ticks(EARLY_LAST, exp);
    assert es[1..] == ts && es[..0] == [];
    TicksRegular(EARLY_LAST, exp);
    var f := EarlySending(exp);
    assert BucketOf(DueTime(exp, EARLY_LAST + 39)) == 25920147;
    assert SentTimes(EARLY_CLOCK, None, 1, es) == SentTimes(EARLY_CLOCK, Some(25920147), 1, ts);
  }

  /** A message is sent within the bounds around the time it asked for, in every regular run,
      if and only if it asked for no more than thirty days. */
  lemma ThirtyDaysExactly(exp: int)
    requires exp >= 1000
    ensures (forall c: Clock, sync: int, last: int, es: seq<Event>, i: nat, end: nat :: RunFor(exp, c, sync, last, es, i, end) ==>
               OnceWithin(SentTimes(c, None, es[i].id, es), es[i].now + exp - 100, es[i].now + exp + 1100))
            <==> exp <= 2_592_000_000
  {
    if exp <= MAX_EXP {
      forall c: Clock, sync: int, last: int, es: seq<Event>, i: nat, end: nat | RunFor(exp, c, sync, last, es, i, end)
        ensures OnceWithin(SentTimes(c, None, es[i].id, es), es[i].now + exp - 100, es[i].now + exp + 1100)
      {
        var f := Guarantee(c, sync, last, es, i, end);
      }
    } else {
      EarlyRunIsEarly(exp);
      var es := EarlyRun(exp);
      assert es[0] == New(1, exp, EARLY_LAST + 39);
      assert RunFor(exp, EARLY_CLOCK, 1080, EARLY_LAST, es, 0, exp);
    }
  }
}

/** The scheduler's two maps, id to bucket and bucket to ids, and the wheel that turns over
    them. */
module KeyStore {
  import opened Bytes
  import opened Schedule

  predicate Distinct(l: seq<int>) { forall i, j :: 0 <= i < j < |l| ==> l[i] != l[j] }

  predicate Bucket(l: seq<int>) { l != [] && Distinct(l) }

  /** The two maps describe the same filing, and no bucket is empty. */
  ghost predicate Index(dm: map<int, seq<int>>, tt: map<int, int>) {
    && (forall t :: t in dm ==> Bucket(dm[t]))
    && (forall t, id :: t in dm && id in dm[t] ==> id in tt && tt[id] == t)
    && (forall id :: id in tt ==> tt[id] in dm && id in dm[tt[id]])
  }

  lemma BucketOfIndex(dm: map<int, seq<int>>, tt: map<int, int>, t: int)
    requires Index(dm, tt) && t in dm
    ensures Bucket(dm[t])
  {
  }

  lemma DistinctCount(l: seq<int>, id: int)
    requires Distinct(l)
    ensures multiset(l)[id] == if id in l then 1 else 0
  {
    if l != [] {
      assert l == l[..|l| - 1] + [l[|l| - 1]];
      DistinctCount(l[..|l| - 1], id);
    }
  }

  /** What the index promises: an id is filed under `t` exactly when it occurs once in that
      bucket and in no other. */
  lemma IndexMeans(dm: map<int, seq<int>>, tt: map<int, int>, id: int, t: int)
    requires Index(dm, tt)
    ensures (id in tt && tt[id] == t)
       <==> (t in dm && multiset(dm[t])[id] == 1 && forall u :: u in dm && u != t ==> id !in dm[u])
  {
    if t in dm {
      DistinctCount(dm[t], id);
    }
  }

  function Without(l: seq<int>, id: int): (r: seq<int>)
    ensures forall x :: x in r <==> x in l && x != id
  {
    if l == [] then []
    else if l[0] == id then Without(l[1..], id)
    else [l[0]] + Without(l[1..], id)
  }

  lemma {:induction false} WithoutAbsent(l: seq<int>, id: int)
    requires id !in l
    ensures Without(l, id) == l
  {
    if l != [] {
      WithoutAbsent(l[1..], id);
    }
  }

  lemma {:induction false} WithoutOne(l: seq<int>, id: int, i: nat)
    requires Distinct(l) && i < |l| && l[i] == id
    ensures Without(l, id) == l[..i] + l[i + 1..]
    decreases |l|
  {
    if i == 0 {
      WithoutAbsent(l[1..], id);
    } else {
      WithoutOne(l[1..], id, i - 1);
    }
  }

  /** The removal loop of put.  An element that was removed has no successor, so the loop
      ends at the first match. */
  method RemoveFrom(l: seq<int>, id: int) returns (r: seq<int>)
    requires Distinct(l)
    ensures r == Without(l, id) && Distinct(r)
  {
    for i := 0 to |l|
      invariant id !in l[..i]
    {
      if l[i] == id {
        WithoutOne(l, id, i);
        return l[..i] + l[i + 1..];
      }
    }
    assert l[..|l|] == l;
    WithoutAbsent(l, id);
    r := l;
  }

  datatype Sending = Sending(id: int, at: int)

  function TimesIn(log: seq<Sending>, id: int): (ts: seq<int>) {
    if log == [] then []
    else TimesIn(log[..|log| - 1], id) + (if log[|log| - 1].id == id then [log[|log| - 1].at] else [])
  }

  // ----- put ------------------------------------------------------------------------------

  /** The buckets without `id`. */
  function Cleared(dm: map<int, seq<int>>, tt: map<int, int>, id: int): (r: map<int, seq<int>>)
    requires Index(dm, tt)
  {
    if id !in tt then dm
    else
      var rest := Without(dm[tt[id]], id);
      if rest == [] then dm - {tt[id]} else dm[tt[id] := rest]
  }

  /** The buckets with `id` taken out of wherever it was and appended to bucket `b`. */
  function Filed(dm: map<int, seq<int>>, tt: map<int, int>, id: int, b: int): (r: map<int, seq<int>>)
    requires Index(dm, tt)
  {
    var c := Cleared(dm, tt, id);
    c[b := (if b in c then c[b] else []) + [id]]
  }

  lemma {:induction false} WithoutDistinct(l: seq<int>, id: int)
    requires Distinct(l)
    ensures Distinct(Without(l, id))
  {
    if l != [] {
      WithoutDistinct(l[1..], id);
      assert l[0] !in Without(l[1..], id) by {
        assert l[0] !in l[1..];
      }
    }
  }

  lemma {:induction false} ClearedIsIndex(dm: map<int, seq<int>>, tt: map<int, int>, id: int)
    requires Index(dm, tt)
    ensures Index(Cleared(dm, tt, id), tt - {id})
  {
    if id in tt {
      BucketOfIndex(dm, tt, tt[id]);
      WithoutDistinct(dm[tt[id]], id);
      var r := Cleared(dm, tt, id);
      forall i | i in tt - {id}
        ensures tt[i] in r && i in r[tt[i]]
      {
        assert i in dm[tt[i]];
      }
    }
  }

  lemma FiledIsIndex(dm: map<int, seq<int>>, tt: map<int, int>, id: int, b: int)
    requires Index(dm, tt)
    ensures Index(Filed(dm, tt, id, b), tt[id := b])
  {
    ClearedIsIndex(dm, tt, id);
    var c, r := Cleared(dm, tt, id), Filed(dm, tt, id, b);
    assert forall x :: x in r[b] <==> x == id || (b in c && x in c[b]);
  }

  /** put crashes when it takes the last id out of the very bucket it is about to file
      under: it saw the bucket before deleting it and does not make a new one. */
  predicate Crashes(dm: map<int, seq<int>>, tt: map<int, int>, id: int, b: int) {
    id in tt && tt[id] == b && b in dm && dm[b] == [id]
  }

  // ----- the wheel ------------------------------------------------------------------------

  class Wheel {
    var counter: nat
    var currentTime: int
    var dataMap: map<int, seq<int>>
    var timeTable: map<int, int>
    var sent: seq<Sending>     // pushToSendingQueue

    constructor (counter: nat, currentTime: int)
      ensures Now() == Clock(counter, currentTime) && dataMap == map[] && timeTable == map[] && sent == []
    {
      this.counter, this.currentTime := counter, currentTime;
      dataMap, timeTable, sent := map[], map[], [];
    }

    function Now(): (c: Clock)
      reads this
    {
      Clock(counter, currentTime)
    }

    ghost predicate Valid()
      reads this
    {
      Index(dataMap, timeTable)
    }

    /** put: it fails, by appending to a list that is no longer there, exactly when
        Crashes says so. */
    method Put(id: int, exp: int, now: int) returns (ok: bool)
      requires Valid()
      modifies `dataMap, `timeTable
      ensures var b := BucketOf(DueTime(exp, now));
              && ok == !Crashes(old(dataMap), old(timeTable), id, b)
              && (ok ==> Valid() && timeTable == old(timeTable)[id := b]
                         && dataMap == Filed(old(dataMap), old(timeTable), id, b))
    {
      hide Index;
      var b := BucketOf(DueTime(exp, now));
      var bucketThere := b in dataMap;
      FiledIsIndex(dataMap, timeTable, id, b);
      Unfile(id);
      if !bucketThere {
        dataMap := dataMap[b := []];
      }
      timeTable := timeTable[id := b];
      if b !in dataMap {
        return false;
      }
      dataMap := dataMap[b := dataMap[b] + [id]];
      assert dataMap == Filed(old(dataMap), old(timeTable), id, b);
      ok := true;
    }

    /** The part of put that takes `id` out of its present bucket. */
    method Unfile(id: int)
      requires Valid()
      modifies `dataMap
      ensures dataMap == Cleared(old(dataMap), timeTable, id)
      ensures forall b :: b in old(dataMap) ==> (b !in dataMap <==> Crashes(old(dataMap), timeTable, id, b))
      ensures forall b :: b in dataMap ==> b in old(dataMap)
    {
      if id in timeTable {
        var t := timeTable[id];
        var rest := RemoveFrom(dataMap[t], id);
        if rest == [] {
          EmptiedMeansSole(dataMap[t], id);
          dataMap := dataMap - {t};
        } else {
          dataMap := dataMap[t := rest];
        }
      }
    }

    /** The firing half of tickingFunc: every id of the bucket is looked up, sent and
        dropped, then the bucket goes.  The lookup never comes back empty. */
    method Fire(b: int, now: int)
      requires Valid() && b in dataMap
      modifies `dataMap, `timeTable, `sent
      ensures Valid() && dataMap == old(dataMap) - {b}
      ensures timeTable == map i | i in old(timeTable) && old(timeTable)[i] != b :: old(timeTable)[i]
      ensures |sent| == |old(sent)| + |old(dataMap)[b]| && old(sent) <= sent
      ensures forall j :: 0 <= j < |old(dataMap)[b]| ==> sent[|old(sent)| + j] == Sending(old(dataMap)[b][j], now)
    {
      var l := dataMap[b];
      assert forall x :: x in l ==> x in timeTable;
      for j := 0 to |l|
        invariant dataMap == old(dataMap) && forall x :: x in l ==> x in old(timeTable)
        invariant timeTable == old(timeTable) - (set i | i in l[..j])
        invariant |sent| == |old(sent)| + j && old(sent) <= sent
        invariant forall i :: 0 <= i < j ==> sent[|old(sent)| + i] == Sending(l[i], now)
      {
        assert l[j] in l && l[j] !in l[..j];
        var found := l[j] in timeTable;
        assert found by {
          assert l[j] in old(timeTable) && l[j] !in (set i | i in l[..j]);
        }
        sent := sent + [Sending(l[j], now)];
        timeTable := timeTable - {l[j]};
        assert l[..j + 1] == l[..j] + [l[j]];
      }
      assert l[..|l|] == l;
      dataMap := dataMap - {b};
      FiredIsIndex(old(dataMap), old(timeTable), b);
    }

    /** tickingFunc */
    method TickingFunc(now: int)
      requires Valid()
      modifies this
      ensures Valid() && Now() == Ticked(old(Now()), now) && timeTable.Keys <= old(timeTable).Keys
      ensures forall id ::
                if WaitingIn(old(timeTable), id) == Some(BucketOf(Now().time))
                then WaitingIn(timeTable, id) == None && TimesIn(sent, id) == TimesIn(old(sent), id) + [now]
                else WaitingIn(timeTable, id) == WaitingIn(old(timeTable), id) && TimesIn(sent, id) == TimesIn(old(sent), id)
    {
      if counter == BREAKPOINT {
        counter := 0;
        currentTime := now - LAG;
      } else {
        counter := counter + 1;
        currentTime := currentTime + STEP;
      }
      var b := BucketOf(currentTime);
      if b in dataMap {
        var l := dataMap[b];
        assert forall id :: id in l <==> WaitingIn(timeTable, id) == Some(b);
        Fire(b, now);
        forall id
          ensures TimesIn(sent, id) == TimesIn(old(sent), id) + (if id in l then [now] else [])
        {
          TimesAfterFiring(old(sent), sent, l, id, now);
        }
      }
    }

    /** The scheduling step of NewSchedule and of recoverSchedule, with the database's fresh id. */
    method Accept(id: int, exp: int, now: int)
      requires Valid() && id !in timeTable
      modifies this
      ensures Valid() && Now() == old(Now())
      ensures if exp < 1000 then timeTable == old(timeTable) && sent == old(sent) + [Sending(id, now)]
              else timeTable == old(timeTable)[id := BucketOf(DueTime(exp, now))] && sent == old(sent)
    {
      if exp < AT_ONCE {
        sent := sent + [Sending(id, now)];
      } else {
        var ok := Put(id, exp, now);
      }
    }

    /** The wheel, driven by any run of ticks and new messages, sends every id exactly at the
        times the clock alone determines. */
    method Run(es: seq<Event>)
      requires Valid() && FreshIds(es, timeTable.Keys)
      modifies this
      ensures Valid() && Now() == ClockAfter(old(Now()), es)
      ensures forall id :: TimesIn(sent, id)
                        == TimesIn(old(sent), id) + SentTimes(old(Now()), WaitingIn(old(timeTable), id), id, es)
      decreases |es|
    {
      if es == [] {
        return;
      }
      ghost var known := if es[0].New? then timeTable.Keys + {es[0].id} else timeTable.Keys;
      ghost var c, tt, log := Now(), timeTable, sent;
      match es[0] {
        case Tick(now) =>
          TickingFunc(now);
        case New(id, exp, now) =>
          Accept(id, exp, now);
      }
      FreshForFewer(es[1..], known, timeTable.Keys);
      ghost var c1, tt1, log1 := Now(), timeTable, sent;
      Run(es[1..]);
      forall id
        ensures TimesIn(sent, id) == TimesIn(log, id) + SentTimes(c, WaitingIn(tt, id), id, es)
      {
        var more := SentTimes(c1, WaitingIn(tt1, id), id, es[1..]);
        if es[0].New? && es[0].exp < AT_ONCE {
          assert log1[..|log|] == log;
        }
        assert TimesIn(log, id) + [es[0].now] + more == TimesIn(log, id) + ([es[0].now] + more);
      }
    }
  }

  function WaitingIn(tt: map<int, int>, id: int): (w: Option<int>) {
    if id in tt then Some(tt[id]) else None
  }

  /** Ids are never used twice. */
  ghost predicate FreshIds(es: seq<Event>, known: set<int>)
    decreases |es|
  {
    es == []
    || (if es[0].New? then es[0].id !in known && FreshIds(es[1..], known + {es[0].id}) else FreshIds(es[1..], known))
  }

  lemma {:induction false} FreshForFewer(es: seq<Event>, known: set<int>, fewer: set<int>)
    requires FreshIds(es, known) && fewer <= known
    ensures FreshIds(es, fewer)
    decreases |es|
  {
    if es != [] {
      if es[0].New? {
        FreshForFewer(es[1..], known + {es[0].id}, fewer + {es[0].id});
      } else {
        FreshForFewer(es[1..], known, fewer);
      }
    }
  }

  lemma {:induction false} TimesAfterFiring(log: seq<Sending>, log': seq<Sending>, l: seq<int>, id: int, now: int)
    requires Distinct(l) && |log'| == |log| + |l| && log <= log'
    requires forall j :: 0 <= j < |l| ==> log'[|log| + j] == Sending(l[j], now)
    ensures TimesIn(log', id) == TimesIn(log, id) + (if id in l then [now] else [])
    decreases |l|
  {
    if l == [] {
      assert log' == log;
    } else {
      var n := |l| - 1;
      TimesAfterFiring(log, log'[..|log'| - 1], l[..n], id, now);
      assert l == l[..n] + [l[n]];
    }
  }

  lemma EmptiedMeansSole(l: seq<int>, id: int)
    requires Distinct(l) && id in l && Without(l, id) == []
    ensures l == [id]
  {
    var i :| 0 <= i < |l| && l[i] == id;
    WithoutOne(l, id, i);
  }

  lemma FiredIsIndex(dm: map<int, seq<int>>, tt: map<int, int>, b: int)
    requires Index(dm, tt) && b in dm
    ensures Index(dm - {b}, map i | i in tt && tt[i] != b :: tt[i])
    ensures tt - (set i | i in dm[b]) == map i | i in tt && tt[i] != b :: tt[i]
  {
    var left := map i | i in tt && tt[i] != b :: tt[i];
    assert forall i :: i in tt ==> (i in dm[b] <==> tt[i] == b);
    forall t, id | t in dm - {b} && id in dm[t]
      ensures id in left && left[id] == t
    {
      assert id in tt && tt[id] == t;
    }
  }

  /** `id` was sent exactly once, strictly between the two times. */
  ghost predicate SentOnceWithin(log: seq<Sending>, id: int, lo: int, hi: int) {
    |TimesIn(log, id)| == 1 && lo < TimesIn(log, id)[0] < hi
  }

  lemma {:induction false} FreshMeansUnmentioned(es: seq<Event>, known: set<int>, i: nat)
    requires FreshIds(es, known) && i < |es| && es[i].New?
    ensures !Mentions(es[..i], es[i].id) && !Mentions(es[i + 1..], es[i].id) && es[i].id !in known
    decreases |es|
  {
    if i == 0 {
      KnownUnmentioned(es[1..], known + {es[0].id}, es[0].id);
    } else {
      var k := if es[0].New? then known + {es[0].id} else known;
      FreshMeansUnmentioned(es[1..], k, i - 1);
      assert es[..i] == [es[0]] + es[1..][..i - 1];
      assert es[1..][i..] == es[i + 1..];
      assert !Mentions(es[1..][..i - 1], es[i].id);
      forall m | 0 <= m < |es[..i]| && es[..i][m].New?
        ensures es[..i][m].id != es[i].id
      {
        assert m > 0 ==> es[1..][..i - 1][m - 1] == es[..i][m];
      }
    }
  }

  lemma {:induction false} KnownUnmentioned(es: seq<Event>, known: set<int>, id: int)
    requires FreshIds(es, known) && id in known
    ensures !Mentions(es, id)
    decreases |es|
  {
    if es != [] {
      KnownUnmentioned(es[1..], if es[0].New? then known + {es[0].id} else known, id);
      forall m | 0 <= m < |es| && es[m].New?
        ensures es[m].id != id
      {
        assert m > 0 ==> es[1..][m - 1] == es[m];
      }
    }
  }

  lemma StillWaiting(tt: map<int, int>, left: map<int, int>, b: int)
    requires forall id :: WaitingIn(left, id) == if WaitingIn(tt, id) == Some(b) then None else WaitingIn(tt, id)
    ensures left == map i | i in tt && tt[i] != b :: tt[i]
  {
    forall id
      ensures id in left <==> id in tt && tt[id] != b
      ensures id in left ==> left[id] == tt[id]
    {
      assert WaitingIn(left, id) == if WaitingIn(tt, id) == Some(b) then None else WaitingIn(tt, id);
    }
  }

  /** Where each id waits after a run, told from the events alone: a put files it under its
      due time, and the tick that finds the clock there takes it out. */
  function TableAfter(c: Clock, tt: map<int, int>, es: seq<Event>): (r: map<int, int>)
    decreases |es|
  {
    if es == [] then tt else
    match es[0]
    case Tick(now) =>
      var d := Ticked(c, now);
      TableAfter(d, map i | i in tt && tt[i] != BucketOf(d.time) :: tt[i], es[1..])
    case New(id, exp, now) => TableAfter(c, tt[id := BucketOf(DueTime(exp, now))], es[1..])
  }

  /** Any run of ticks and puts, ids filed anew as often as one likes: the two maps stay each
      other's inverse until the run is over, or until a put of the one kind that crashes. */
  method IndexThroughout(c: Clock, es: seq<Event>) returns (done: nat, dm: map<int, seq<int>>, tt: map<int, int>)
    ensures Index(dm, tt) && done <= |es|
    ensures done == |es| ==> tt == TableAfter(c, map[], es)
    ensures done < |es| ==> es[done].New? && Crashes(dm, tt, es[done].id, BucketOf(DueTime(es[done].exp, es[done].now)))
  {
    var wheel := new Wheel(c.counter, c.time);
    done := 0;
    assert es[0..] == es;
    while done < |es|
      invariant wheel.Valid() && fresh(wheel) && done <= |es|
      invariant TableAfter(wheel.Now(), wheel.timeTable, es[done..]) == TableAfter(c, map[], es)
    {
      dm, tt := wheel.dataMap, wheel.timeTable;
      assert es[done..][1..] == es[done + 1..];
      match es[done] {
        case Tick(now) =>
          wheel.TickingFunc(now);
          StillWaiting(tt, wheel.timeTable, BucketOf(wheel.Now().time));
        case New(id, exp, now) =>
          var ok := wheel.Put(id, exp, now);
          if !ok {
            return;
          }
      }
      done := done + 1;
    }
    dm, tt := wheel.dataMap, wheel.timeTable;
  }

  lemma FirstFiling(id: int, b: int)
    ensures Index(map[], map[]) && Filed(map[], map[], id, b) == map[b := [id]]
  {
    assert Cleared(map[], map[], id) == map[];
    assert [] + [id] == [id];
  }

  /** The same id put twice for the same time, into an empty key store: the second put crashes. */
  method PutTwice() returns (first: bool, second: bool)
    ensures first && !second
  {
    var wheel := new Wheel(0, 0);
    FirstFiling(7, 10);
    assert BucketOf(DueTime(1000, 0)) == 10;
    first := wheel.Put(7, 1000, 0);
    second := wheel.Put(7, 1000, 0);
  }

  /** The scheduler's promise, for the whole service: from a resynchronisation at `sync` on,
      with a tick every 60 ms and fresh ids, each message that is at least a second away is
      sent exactly once around its due time, as soon as the run has got 1100 ms past it. */
  method ServiceRun(sync: int, es: seq<Event>) returns (log: seq<Sending>)
    requires sync >= LAG && Regular(sync, es) && FreshIds(es, {})
    ensures forall i, end :: 0 <= i < end < |es| && es[i].New? && es[i].exp >= 1000 && es[end].Tick?
                             && es[end].now >= DueTime(es[i].exp, es[i].now) + 1100
              ==> SentOnceWithin(log, es[i].id, DueTime(es[i].exp, es[i].now) - 100, DueTime(es[i].exp, es[i].now) + 1100)
  {
    var wheel := new Wheel(0, sync - LAG);
    assert wheel.timeTable.Keys == {};
    wheel.Run(es);
    log := wheel.sent;
    forall i, end | 0 <= i < end < |es| && es[i].New? && es[i].exp >= 1000 && es[end].Tick?
                    && es[end].now >= DueTime(es[i].exp, es[i].now) + 1100
      ensures SentOnceWithin(log, es[i].id, DueTime(es[i].exp, es[i].now) - 100, DueTime(es[i].exp, es[i].now) + 1100)
    {
      FreshMeansUnmentioned(es, {}, i);
      var f := Guarantee(Clock(0, sync - LAG), sync, sync, es, i, end);
      assert TimesIn(log, es[i].id) == [] + [f];
    }
  }
}

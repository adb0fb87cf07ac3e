/**
 Two programs that turn paired delays into a histogram in the kernel: runqlat (wakeup to
 run, per task) and the nginx probe (start to done, per request object).
 */
module RunQueue {
  import opened Bits
  import opened Modular
  import opened CallPairing
  import opened LatencyProbes
  import opened Histogram
  import BpfMap

  const MAX_TASKS: nat := 16384
  const MAX_REQUESTS: nat := 10240

  /** The reported durations in whole microseconds. */
  function Delays(rs: seq<Report<nat>>): (us: seq<nat>)
    ensures |us| == |rs|
  {
    seq(|rs|, k requires 0 <= k < |rs| => rs[k].dur / 1000)
  }

  lemma DelaysAppend(rs: seq<Report<nat>>, r: Report<nat>)
    ensures Delays(rs + [r]) == Delays(rs) + [r.dur / 1000]
  {}

  // ----- runqlat ---------------------------------------------------------------------------

  /** A stamp enters a wait and a record returns from it; the idle task has none. */
  function Stamps(pid: nat, now: nat): seq<Event<nat>>
  {
    if pid == 0 then [] else [Enter(pid, 0, now)]
  }

  function Records(pid: nat, now: nat): seq<Event<nat>>
  {
    if pid == 0 then [] else [Return(pid, 0, now)]
  }

  function Paired(trace: seq<Event<nat>>): State<nat>
  {
    Run(MAX_TASKS, trace, Always(|trace|))
  }

  lemma PairedAppend(trace: seq<Event<nat>>, e: Event<nat>)
    ensures Paired(trace + [e]) == Step(MAX_TASKS, Paired(trace), e, true)
  {
    hide Step;
    assert (trace + [e])[..|trace|] == trace;
    assert Always(|trace| + 1)[..|trace|] == Always(|trace|);
  }

  lemma CountInAppend(delays: seq<nat>, us: nat, i: nat)
    ensures CountIn(delays + [us], i) == CountIn(delays, i) + if Bucket(us) == i then 1 else 0
  {
    assert (delays + [us])[..|delays|] == delays;
  }

  /** Each slot counts the delays of its bucket. */
  ghost predicate Counts(hist: seq<u64>, delays: seq<nat>)
  {
    && |hist| == NBUCKETS
    && forall i :: 0 <= i < NBUCKETS ==> hist[i] == Wrap(CountIn(delays, i))
  }

  lemma CountsOneMore(hist: seq<u64>, delays: seq<nat>, us: nat)
    requires Counts(hist, delays)
    ensures Counts(hist[Bucket(us) := Inc(hist[Bucket(us)])], delays + [us])
  {
    var hist' := hist[Bucket(us) := Inc(hist[Bucket(us)])];
    hide Bucket, Wrap;
    forall i | 0 <= i < NBUCKETS
      ensures hist'[i] == Wrap(CountIn(delays + [us], i))
    {
      CountInAppend(delays, us, i);
      WrapSum(CountIn(delays, i), 1);
    }
  }

  lemma RecordStep(s: State<nat>, pid: nat, now: nat)
    ensures var s' := Step(MAX_TASKS, s, Return(pid, 0, now), true);
            if pid in s.start
            then
              && s'.start == BpfMap.Remove(s.start, pid)
              && s'.out == s.out + [Report(pid, 0, SaturatingSub(now, s.start[pid]))]
            else s' == s
  {}

  class RunqLat {
    var start: map<nat, nat>
    const hist: array<u64>
    ghost var trace: seq<Event<nat>>

    ghost predicate Valid()
      reads this, hist
    {
      start == Paired(trace).start && Counts(hist[..], Delays(Paired(trace).out))
    }

    constructor ()
      ensures Valid() && trace == [] && fresh(hist)
    {
      hist := new u64[NBUCKETS](i => 0);
      start, trace := map[], [];
    }

    method Stamp(pid: nat, now: nat)
      requires Valid()
      modifies this`start, this`trace
      ensures Valid() && trace == old(trace) + Stamps(pid, now)
      ensures start == if pid != 0 && (pid in old(start) || |old(start)| < 16384)
                       then old(start)[pid := now] else old(start)
    {
      hide Run, Counts, Delays;
      if pid == 0 {
        assert trace + [] == trace;
        return;
      }
      PairedAppend(trace, Enter(pid, 0, now));
      start := BpfMap.Insert(start, MAX_TASKS, pid, now);
      trace := trace + [Enter(pid, 0, now)];
    }

    method Record(pid: nat, now: nat)
      requires Valid()
      modifies this`start, this`trace, hist
      ensures Valid() && trace == old(trace) + Records(pid, now)
      ensures start == if pid != 0 then old(start) - {pid} else old(start)
    {
      hide Run, Step, Delays, Bucket, Wrap, Paired;
      if pid == 0 {
        assert trace + [] == trace;
        return;
      }
      PairedAppend(trace, Return(pid, 0, now));
      RecordStep(Paired(trace), pid, now);
      ghost var out := Paired(trace).out;
      trace := trace + [Return(pid, 0, now)];
      if pid !in start {
        return;
      }
      var began := start[pid];
      start := BpfMap.Remove(start, pid);
      var deltaUs := SaturatingSub(now, began) / 1000;
      DelaysAppend(out, Report(pid, 0, SaturatingSub(now, began)));
      CountsOneMore(hist[..], Delays(out), deltaUs);
      var bucket := Bucket(deltaUs);
      hide Counts;
      hist[bucket] := Inc(hist[bucket]);
    }

    method SchedWakeup(pid: nat, now: nat)
      requires Valid()
      modifies this`start, this`trace
      ensures Valid() && trace == old(trace) + Stamps(pid, now)
      ensures start == if pid != 0 && (pid in old(start) || |old(start)| < 16384)
                       then old(start)[pid := now] else old(start)
    {
      Stamp(pid, now);
    }

    /** The clock is read once for each side of the switch. */
    method SchedSwitch(prevPid: nat, prevState: int, nextPid: nat, outAt: nat, inAt: nat)
      requires Valid()
      modifies this`start, this`trace, hist
      ensures Valid()
      ensures trace == old(trace) + (if prevState == 0 then Stamps(prevPid, outAt) else []) + Records(nextPid, inAt)
    {
      if prevState == 0 {
        Stamp(prevPid, outAt);
      }
      Record(nextPid, inAt);
    }
  }

  /** The waits of a trace: each dispatch of a task whose latest event is a stamp. */
  function Waits(trace: seq<Event<nat>>): seq<nat>
  {
    Delays(AllDue(trace, Always(|trace|), |trace|))
  }

  /** A stamp and the record that follows it make one wait of that many whole microseconds. */
  lemma OneMoreWait(trace: seq<Event<nat>>, pid: nat, stamped: nat, recorded: nat)
    requires pid != 0 && stamped <= recorded
    ensures Waits(trace + Stamps(pid, stamped) + Records(pid, recorded)) == Waits(trace) + [(recorded - stamped) / 1000]
  {
    var mid := trace + [Enter(pid, 0, stamped)];
    var all := mid + [Return(pid, 0, recorded)];
    assert trace + Stamps(pid, stamped) == mid && mid + Records(pid, recorded) == all;
    WaitsAppend(trace, Enter(pid, 0, stamped));
    WaitsAppend(mid, Return(pid, 0, recorded));
    LastAppend(trace, Enter(pid, 0, stamped), pid);
    assert all[..|mid|] == mid;
    hide Last, AllDue, Delays;
    DelaysAppend([], Report(pid, 0, recorded - stamped));
    assert Waits(trace) + [] == Waits(trace);
  }

  /** One more event adds what is due for it. */
  lemma WaitsAppend(trace: seq<Event<nat>>, e: Event<nat>)
    ensures Waits(trace + [e]) == Waits(trace) + Delays(Due(trace + [e], |trace|))
  {
    var all := trace + [e];
    var n := |trace|;
    AllDuePrefix(all, Always(n + 1), n, n);
    assert all[..n] == trace && Always(n + 1)[..n] == Always(n);
    hide Due, Last;
    DelaysConcat(AllDue(trace, Always(n), n), Due(all, n));
  }

  lemma DelaysConcat(a: seq<Report<nat>>, b: seq<Report<nat>>)
    ensures Delays(a + b) == Delays(a) + Delays(b)
  {}

  /** The idle task is neither stamped nor recorded. */
  lemma IdleTaskIgnored(trace: seq<Event<nat>>, now: nat)
    ensures trace + Stamps(0, now) == trace && trace + Records(0, now) == trace
  {}

  /** The histogram is that of the waits, one count for each. */
  lemma HistogramOfWaits(hist: seq<u64>, trace: seq<Event<nat>>)
    requires Counts(hist, Delays(Paired(trace).out))
    requires NeverFull(MAX_TASKS, trace) && |Waits(trace)| < U64
    ensures hist == Buckets(Waits(trace))
  {
    hide CountIn, Run, AllDue, NeverFull, Delays, Wrap;
    ReportsAllDue(MAX_TASKS, trace, Always(|trace|));
    forall i | 0 <= i < NBUCKETS
      ensures hist[i] == CountIn(Waits(trace), i)
    {
      CountInBound(Waits(trace), i);
      WrapSum(CountIn(Waits(trace), i), 0);
    }
  }

  lemma {:induction false} CountInBound(delays: seq<nat>, i: nat)
    ensures CountIn(delays, i) <= |delays|
  {
    if delays == [] {
    } else {
      CountInBound(delays[..|delays| - 1], i);
    }
  }

  // ----- the nginx probe ---------------------------------------------------------------------

  /** How many delays have the logarithm k; no bucket takes the overflow here. */
  function CountLog(delays: seq<nat>, k: nat): nat
  {
    if delays == [] then 0
    else
      var n := |delays| - 1;
      CountLog(delays[..n], k) + if Log2(delays[n]) == k then 1 else 0
  }

  function Slot(hist: map<nat, u64>, k: nat): u64
  {
    if k in hist then hist[k] else 0
  }

  ghost predicate LogCounts(hist: map<nat, u64>, delays: seq<nat>)
  {
    && (forall k :: k in hist ==> k < 64)
    && forall k: nat :: Slot(hist, k) == Wrap(CountLog(delays, k))
  }

  function Bump(hist: map<nat, u64>, k: nat): map<nat, u64>
  {
    BpfMap.Insert(hist, 64, k, Inc(Slot(hist, k)))
  }

  /** Sixty-four keys always fit, so no bump is refused. */
  lemma BumpCounts(hist: map<nat, u64>, delays: seq<nat>, us: u64)
    requires LogCounts(hist, delays)
    ensures LogCounts(Bump(hist, Log2(us)), delays + [us])
  {
    WordLog2(us);
    BumpHasRoom(hist, Log2(us));
    hide Log2, Bump, Wrap, CountLog;
    var hist' := Bump(hist, Log2(us));
    forall k: nat
      ensures Slot(hist', k) == Wrap(CountLog(delays + [us], k))
    {
      CountLogAppend(delays, us, k);
      WrapSum(CountLog(delays, k), 1);
      assert Slot(hist, k) == Wrap(CountLog(delays, k));
    }
  }

  lemma CountLogAppend(delays: seq<nat>, us: nat, k: nat)
    ensures CountLog(delays + [us], k) == CountLog(delays, k) + if Log2(us) == k then 1 else 0
  {
    assert (delays + [us])[..|delays|] == delays;
  }

  lemma BumpHasRoom(hist: map<nat, u64>, k: nat)
    requires (forall j :: j in hist ==> j < 64) && k < 64
    ensures Bump(hist, k) == hist[k := Inc(Slot(hist, k))]
  {
    BpfMap.InsertHasRoom(hist, 64, k, Inc(Slot(hist, k)), UpTo(64));
  }

  function UpTo(n: nat): (s: set<nat>)
    ensures |s| == n && forall j: nat :: j in s <==> j < n
  {
    if n == 0 then {} else UpTo(n - 1) + {n - 1}
  }

  lemma ZeroLog2()
    ensures Log2(0) == 0
  {}

  lemma BumpIs(hist: map<nat, u64>, us: u64)
    requires forall j :: j in hist ==> j < 64
    ensures exists k: nat ::
              && (us == 0 ==> k == 0) && (0 < us ==> Pow2(k) <= us < Pow2(k + 1))
              && Bump(hist, Log2(us)) ==
                 hist[k := ((if k in hist then hist[k] as int else 0) + 1) % 0x1_0000_0000_0000_0000]
  {
    hide Log2, Bump, Pow2, Inc;
    var k := Log2(us);
    WordLog2(us);
    ZeroLog2();
    BumpHasRoom(hist, k);
    IncIs(Slot(hist, k));
    if 0 < us {
      Log2Brackets(us);
    }
  }

  class NginxProbe {
    var starts: map<nat, nat>
    var hist: map<nat, u64>
    ghost var log: Log<nat>

    ghost predicate Valid()
      reads this
    {
      Follows(MAX_REQUESTS, starts, log) && LogCounts(hist, Delays(log.reports))
    }

    constructor ()
      ensures Valid() && log.trace == []
    {
      starts, hist, log := map[], map[], Log([], [], []);
    }

    method ReqStart(r: nat, now: u64)
      requires Valid()
      modifies this`starts, this`log
      ensures Valid() && log == if r == 0 then old(log) else LogEnter(old(log), r, 0, now)
      ensures starts == if r != 0 && (r in old(starts) || |old(starts)| < 10240)
                        then old(starts)[r := now] else old(starts)
    {
      hide Follows, LogCounts;
      if r != 0 {
        FollowsEnter(MAX_REQUESTS, starts, log, r, 0, now);
        starts := BpfMap.Insert(starts, MAX_REQUESTS, r, now);
        log := LogEnter(log, r, 0, now);
      }
    }

    /** A request that took no time is dropped from the map but not counted. */
    method ReqDone(r: nat, now: u64)
      requires Valid()
      modifies this
      ensures Valid()
      ensures log == if r == 0 then old(log)
                     else LogReturn(old(log), old(starts), r, 0, now, Reportable(old(starts), r, now, true))
      ensures starts == if r != 0 then old(starts) - {r} else old(starts)
      ensures !(r != 0 && r in old(starts) && old(starts)[r] < now) ==> hist == old(hist)
      ensures r != 0 && r in old(starts) && old(starts)[r] < now ==>
                hist == Bump(old(hist), Log2((now - old(starts)[r]) / 1000))
    {
      hide Follows, LogCounts, Delays, Bump, Log2, Wrap;
      if r == 0 {
        return;
      }
      ghost var reports := log.reports;
      FollowsReturn(MAX_REQUESTS, starts, log, r, 0, now, Reportable(starts, r, now, true));
      log := LogReturn(log, starts, r, 0, now, Reportable(starts, r, now, true));
      if r in starts {
        var start := starts[r];
        starts := BpfMap.Remove(starts, r);
        if now > start {
          var us := (now - start) / 1000;
          DelaysAppend(reports, Report(r, 0, now - start));
          BumpCounts(hist, Delays(reports), us);
          var k := ShiftingLog2(us);
          hist := Bump(hist, k);
        }
      }
    }
  }
}

/** energy, cpu-busy and power: what their maps hold after any trace of context switches. */
module SwitchPrograms {
  import opened Bits
  import opened Modular
  import opened SwitchTime
  import BpfMap

  function Cpus(es: seq<Switch>): set<nat>
  {
    set k | 0 <= k < |es| :: es[k].cpu
  }

  // ----- the clock map shared by energy and cpu-busy ---------------------------------------

  /** Every stamp is the time of its CPU's latest switch. */
  ghost predicate Stamps(es: seq<Switch>, last: map<nat, nat>)
  {
    forall cpu :: cpu in last ==> exists i: nat :: Latest(es, cpu, i) && last[cpu] == es[i].now
  }

  /** A CPU without a stamp was never observed, unless the map is full. */
  ghost predicate Unstamped(capacity: nat, es: seq<Switch>, last: map<nat, nat>)
  {
    |last| <= capacity && forall cpu :: cpu !in last && |last| < capacity ==> !Seen(es, cpu)
  }

  lemma StampStep(capacity: nat, es: seq<Switch>, last: map<nat, nat>, e: Switch)
    requires Stamps(es, last) && Unstamped(capacity, es, last)
    ensures var last' := BpfMap.Insert(last, capacity, e.cpu, e.now);
            Stamps(es + [e], last') && Unstamped(capacity, es + [e], last')
  {
    var es', last' := es + [e], BpfMap.Insert(last, capacity, e.cpu, e.now);
    StampsStay(capacity, es, last, e);
    hide Latest, Stamps;
    forall cpu | cpu !in last' && |last'| < capacity
      ensures !Seen(es', cpu)
    {
      forall i: nat
        ensures !Latest(es', cpu, i)
      {
        LatestAppend(es, e, cpu, i);
        assert !Seen(es, cpu);
      }
    }
  }

  lemma StampsStay(capacity: nat, es: seq<Switch>, last: map<nat, nat>, e: Switch)
    requires Stamps(es, last) && Unstamped(capacity, es, last)
    ensures Stamps(es + [e], BpfMap.Insert(last, capacity, e.cpu, e.now))
  {
    var es', last' := es + [e], BpfMap.Insert(last, capacity, e.cpu, e.now);
    forall cpu | cpu in last'
      ensures exists i: nat :: Latest(es', cpu, i) && last'[cpu] == es'[i].now
    {
      if cpu == e.cpu {
        LatestAppend(es, e, cpu, |es|);
        assert Latest(es', cpu, |es|);
      } else {
        var i: nat :| Latest(es, cpu, i) && last[cpu] == es[i].now;
        LatestAppend(es, e, cpu, i);
        assert Latest(es', cpu, i) && es'[i] == es[i];
      }
    }
  }

  /** A trace is well formed and its clocks run forward, up to any point. */
  ghost predicate Proper(es: seq<Switch>)
  {
    WellFormed(es) && Monotone(es)
  }

  lemma ProperPrefix(es: seq<Switch>, n: nat)
    requires Proper(es) && n <= |es|
    ensures Proper(es[..n])
  {
    forall i: nat, j: nat | Adjacent(es[..n], i, j)
      ensures es[..n][j].prev == es[..n][i].next
    {
      assert Adjacent(es, i, j);
    }
  }

  lemma PrevIsCurrent(es: seq<Switch>, e: Switch, l: nat)
    requires WellFormed(es + [e]) && Latest(es, e.cpu, l)
    ensures e.prev == es[l].next
  {
    AdjacentAppend(es, e, l, |es|);
    assert (es + [e])[|es|] == e && (es + [e])[l] == es[l];
  }

  // ----- energy: time per task -------------------------------------------------------------

  const ENERGY_CPUS: nat := 1024
  const ENERGY_TASKS: nat := 16384

  datatype TaskStat = TaskStat(cpuNs: u64, comm: Comm)

  datatype EnergyState = EnergyState(oncpu: map<nat, nat>, usage: map<nat, TaskStat>)

  function Credited(usage: map<nat, TaskStat>, pid: nat): u64
  {
    if pid in usage then usage[pid].cpuNs else 0
  }

  function EnergyStep(s: EnergyState, e: Switch): EnergyState
  {
    EnergyState(
      BpfMap.Insert(s.oncpu, ENERGY_CPUS, e.cpu, e.now),
      if e.cpu in s.oncpu && e.prev != 0 then
        BpfMap.Insert(s.usage, ENERGY_TASKS, e.prev,
                      TaskStat(Wrap(Credited(s.usage, e.prev) + SaturatingSub(e.now, s.oncpu[e.cpu])), e.comm))
      else s.usage)
  }

  function EnergyRun(es: seq<Switch>): EnergyState
  {
    if es == [] then EnergyState(map[], map[]) else EnergyStep(EnergyRun(es[..|es| - 1]), es[|es| - 1])
  }

  /** A task in the map has exactly its time; one without an entry has none, unless the map is full. */
  ghost predicate UsageExact(es: seq<Switch>, usage: map<nat, TaskStat>)
  {
    && 0 !in usage && |usage| <= ENERGY_TASKS
    && forall pid :: pid != 0 ==> TaskExact(es, usage, pid)
  }

  ghost predicate TaskExact(es: seq<Switch>, usage: map<nat, TaskStat>, pid: nat)
  {
    if pid in usage then usage[pid].cpuNs == Wrap(Time(es, Task(pid)))
    else |usage| == ENERGY_TASKS || Time(es, Task(pid)) == 0
  }

  lemma EnergyStepExact(es: seq<Switch>, s: EnergyState, e: Switch)
    requires Proper(es + [e])
    requires Stamps(es, s.oncpu) && Unstamped(ENERGY_CPUS, es, s.oncpu) && UsageExact(es, s.usage)
    requires e.cpu in s.oncpu || |s.oncpu| < ENERGY_CPUS
    ensures UsageExact(es + [e], EnergyStep(s, e).usage)
  {
    var usage' := EnergyStep(s, e).usage;
    forall pid | pid != 0
      ensures TaskExact(es + [e], usage', pid)
    {
      TaskStep(es, s, e, pid);
    }
  }

  lemma TaskStep(es: seq<Switch>, s: EnergyState, e: Switch, pid: nat)
    requires Proper(es + [e]) && pid != 0
    requires Stamps(es, s.oncpu) && Unstamped(ENERGY_CPUS, es, s.oncpu) && UsageExact(es, s.usage)
    requires e.cpu in s.oncpu || |s.oncpu| < ENERGY_CPUS
    ensures TaskExact(es + [e], EnergyStep(s, e).usage, pid)
  {
    hide Time, Stamps, Proper, Wrap, Latest;
    assert TaskExact(es, s.usage, pid);
    if e.cpu in s.oncpu {
      TaskSlice(es, s.oncpu, e, pid);
      WrapSum(Time(es, Task(pid)), e.now - s.oncpu[e.cpu]);
    } else {
      FirstSwitch(es, e, Task(pid));
    }
    hide Unstamped, UsageExact;
  }

  lemma TaskSlice(es: seq<Switch>, oncpu: map<nat, nat>, e: Switch, pid: nat)
    requires Proper(es + [e]) && Stamps(es, oncpu) && e.cpu in oncpu
    ensures oncpu[e.cpu] <= e.now
    ensures Time(es + [e], Task(pid)) == Time(es, Task(pid)) + if e.prev == pid then e.now - oncpu[e.cpu] else 0
  {
    var l: nat :| Latest(es, e.cpu, l) && oncpu[e.cpu] == es[l].now;
    NextSwitch(es, e, l, Task(pid));
    PrevIsCurrent(es, e, l);
    hide Time, Stamps, Proper;
  }

  lemma RoomForCpu(capacity: nat, es: seq<Switch>, last: map<nat, nat>, e: Switch)
    requires Stamps(es, last) && |Cpus(es + [e])| <= capacity
    ensures e.cpu in last || |last| < capacity
  {
    var es' := es + [e];
    assert es'[|es|] == e;
    forall cpu | cpu in last.Keys
      ensures cpu in Cpus(es')
    {
      var i: nat :| Latest(es, cpu, i) && last[cpu] == es[i].now;
      assert es'[i].cpu == cpu;
    }
    if e.cpu !in last {
      BpfMap.CardinalityBelow(last.Keys, Cpus(es') - {e.cpu});
      assert |last.Keys| == |last|;
    }
  }

  lemma FewerCpus(es: seq<Switch>, n: nat)
    requires n <= |es|
    ensures |Cpus(es[..n])| <= |Cpus(es)|
  {
    BpfMap.CardinalityBelow(Cpus(es[..n]), Cpus(es));
  }

  lemma NothingObserved(capacity: nat)
    ensures Stamps([], map[]) && Unstamped(capacity, [], map[])
    ensures forall who :: Time([], who) == 0
  {
    forall who
      ensures Time([], who) == 0
    {
      assert Moments([], who) == {};
    }
  }

  /** energy: on every well-formed trace each task's entry is its time on CPU. */
  lemma {:induction false} EnergyIsTimeOnCpu(es: seq<Switch>)
    requires Proper(es) && |Cpus(es)| <= ENERGY_CPUS
    ensures var s := EnergyRun(es);
            Stamps(es, s.oncpu) && Unstamped(ENERGY_CPUS, es, s.oncpu) && UsageExact(es, s.usage)
  {
    hide Stamps, Unstamped, TaskExact, EnergyStep, Proper, Cpus;
    if es == [] {
      NothingObserved(ENERGY_CPUS);
      NobodyCredited();
    } else {
      var n := |es| - 1;
      var s := EnergyRun(es[..n]);
      assert es == es[..n] + [es[n]];
      ProperPrefix(es, n);
      FewerCpus(es, n);
      EnergyIsTimeOnCpu(es[..n]);
      RoomForCpu(ENERGY_CPUS, es[..n], s.oncpu, es[n]);
      EnergyStepStamps(es[..n], s, es[n]);
      EnergyStepExact(es[..n], s, es[n]);
    }
  }

  lemma NobodyCredited()
    ensures UsageExact([], map[])
  {
    NothingObserved(0);
  }

  lemma EnergyStepStamps(es: seq<Switch>, s: EnergyState, e: Switch)
    requires Stamps(es, s.oncpu) && Unstamped(ENERGY_CPUS, es, s.oncpu)
    ensures Stamps(es + [e], EnergyStep(s, e).oncpu) && Unstamped(ENERGY_CPUS, es + [e], EnergyStep(s, e).oncpu)
  {
    hide Stamps, Unstamped;
    StampStep(ENERGY_CPUS, es, s.oncpu, e);
  }

  // ----- cpu-busy: time per CPU ------------------------------------------------------------

  const BUSY_CPUS: nat := 256

  datatype BusyState = BusyState(last: map<nat, nat>, busy: map<nat, u64>)

  function BusyNs(busy: map<nat, u64>, cpu: nat): u64
  {
    if cpu in busy then busy[cpu] else 0
  }

  function BusyStep(s: BusyState, e: Switch): BusyState
  {
    BusyState(
      BpfMap.Insert(s.last, BUSY_CPUS, e.cpu, e.now),
      if e.cpu in s.last && e.prev != 0 && e.now > s.last[e.cpu] then
        BpfMap.Insert(s.busy, BUSY_CPUS, e.cpu, Wrap(BusyNs(s.busy, e.cpu) + (e.now - s.last[e.cpu])))
      else s.busy)
  }

  function BusyRun(es: seq<Switch>): BusyState
  {
    if es == [] then BusyState(map[], map[]) else BusyStep(BusyRun(es[..|es| - 1]), es[|es| - 1])
  }

  /** The CPUs that found room for a stamp have exactly their busy time. */
  ghost predicate BusyExact(es: seq<Switch>, s: BusyState)
  {
    && s.busy.Keys <= s.last.Keys
    && forall cpu :: cpu in s.last || |s.last| < BUSY_CPUS ==> BusyNs(s.busy, cpu) == Wrap(Time(es, BusyOn(cpu)))
  }

  lemma CpuStep(es: seq<Switch>, s: BusyState, e: Switch, cpu: nat)
    requires Proper(es + [e])
    requires Stamps(es, s.last) && Unstamped(BUSY_CPUS, es, s.last) && BusyExact(es, s)
    requires var last' := BusyStep(s, e).last; cpu in last' || |last'| < BUSY_CPUS
    ensures BusyNs(BusyStep(s, e).busy, cpu) == Wrap(Time(es + [e], BusyOn(cpu)))
  {
    assert cpu in s.last || |s.last| < BUSY_CPUS;
    if e.cpu in s.last {
      BusyCredit(es, s, e);
      hide Stamps, Unstamped, Proper, Latest, Wrap;
      if cpu != e.cpu {
        BusyMap(s, e);
        OtherCpu(es, e, cpu);
      }
    } else if |s.last| < BUSY_CPUS {
      hide Stamps, Wrap;
      FirstSwitch(es, e, BusyOn(cpu));
    } else {
      hide Stamps, Wrap;
      OtherCpu(es, e, cpu);
    }
  }

  /** What the switch e adds to its CPU. */
  function Slice(last: map<nat, nat>, e: Switch): nat
  {
    if e.cpu in last && e.prev != 0 then SaturatingSub(e.now, last[e.cpu]) else 0
  }

  lemma BusyCredit(es: seq<Switch>, s: BusyState, e: Switch)
    requires Proper(es + [e]) && Stamps(es, s.last) && Unstamped(BUSY_CPUS, es, s.last) && BusyExact(es, s)
    requires e.cpu in s.last
    ensures BusyNs(BusyStep(s, e).busy, e.cpu) == Wrap(Time(es + [e], BusyOn(e.cpu)))
  {
    hide Proper, Stamps, Moments;
    assert BusyNs(s.busy, e.cpu) == Wrap(Time(es, BusyOn(e.cpu)));
    BusyMap(s, e);
    CpuSlice(es, s.last, e);
    WrapSum(Time(es, BusyOn(e.cpu)), Slice(s.last, e));
    hide *;
  }

  lemma CpuSlice(es: seq<Switch>, last: map<nat, nat>, e: Switch)
    requires Proper(es + [e]) && Stamps(es, last) && e.cpu in last
    ensures Time(es + [e], BusyOn(e.cpu)) == Time(es, BusyOn(e.cpu)) + Slice(last, e)
  {
    var l: nat :| Latest(es, e.cpu, l) && last[e.cpu] == es[l].now;
    NextSwitch(es, e, l, BusyOn(e.cpu));
    PrevIsCurrent(es, e, l);
    hide Time, Stamps, Proper;
  }

  lemma BusyMap(s: BusyState, e: Switch)
    requires s.busy.Keys <= s.last.Keys && |s.last| <= BUSY_CPUS
    ensures var busy' := BusyStep(s, e).busy;
            && (forall cpu :: cpu != e.cpu ==> BusyNs(busy', cpu) == BusyNs(s.busy, cpu))
            && BusyNs(busy', e.cpu) == Wrap(BusyNs(s.busy, e.cpu) + Slice(s.last, e))
  {
    WrapSum(BusyNs(s.busy, e.cpu), 0);
    hide Wrap;
    if 0 < Slice(s.last, e) {
      BpfMap.InsertHasRoom(s.busy, BUSY_CPUS, e.cpu, Wrap(BusyNs(s.busy, e.cpu) + Slice(s.last, e)), s.last.Keys);
    }
  }

  lemma OtherCpu(es: seq<Switch>, e: Switch, cpu: nat)
    requires e.cpu != cpu
    ensures Time(es + [e], BusyOn(cpu)) == Time(es, BusyOn(cpu))
  {
    StillCovered(es, e, BusyOn(cpu));
    hide Moments, Adjacent;
    forall m | m in Moments(es + [e], BusyOn(cpu))
      ensures m in Moments(es, BusyOn(cpu))
    {
      var i, j := IntervalOf(es + [e], BusyOn(cpu), m);
      CoversAppend(es, e, BusyOn(cpu), i, j, m.1);
      CoveredMoment(es, BusyOn(cpu), i, j, m.1);
    }
    assert Moments(es + [e], BusyOn(cpu)) == Moments(es, BusyOn(cpu));
  }

  lemma BusyStepExact(es: seq<Switch>, s: BusyState, e: Switch)
    requires Proper(es + [e])
    requires Stamps(es, s.last) && Unstamped(BUSY_CPUS, es, s.last) && BusyExact(es, s)
    ensures BusyExact(es + [e], BusyStep(s, e))
  {
    var s' := BusyStep(s, e);
    forall cpu | cpu in s'.last || |s'.last| < BUSY_CPUS
      ensures BusyNs(s'.busy, cpu) == Wrap(Time(es + [e], BusyOn(cpu)))
    {
      CpuStep(es, s, e, cpu);
    }
  }

  /** cpu-busy: on every well-formed trace each CPU's entry is its busy time. */
  lemma {:induction false} BusyIsTimePerCpu(es: seq<Switch>)
    requires Proper(es)
    ensures var s := BusyRun(es);
            Stamps(es, s.last) && Unstamped(BUSY_CPUS, es, s.last) && BusyExact(es, s)
  {
    hide Stamps, Unstamped, BusyExact, BusyStep, Proper;
    if es == [] {
      NothingObserved(BUSY_CPUS);
      NoCpuBusy();
    } else {
      var n := |es| - 1;
      var s := BusyRun(es[..n]);
      assert es == es[..n] + [es[n]];
      ProperPrefix(es, n);
      BusyIsTimePerCpu(es[..n]);
      BusyStepStamps(es[..n], s, es[n]);
      BusyStepExact(es[..n], s, es[n]);
    }
  }

  lemma NoCpuBusy()
    ensures BusyExact([], BusyState(map[], map[]))
  {
    NothingObserved(0);
  }

  lemma BusyStepStamps(es: seq<Switch>, s: BusyState, e: Switch)
    requires Stamps(es, s.last) && Unstamped(BUSY_CPUS, es, s.last)
    ensures Stamps(es + [e], BusyStep(s, e).last) && Unstamped(BUSY_CPUS, es + [e], BusyStep(s, e).last)
  {
    hide Stamps, Unstamped;
    StampStep(BUSY_CPUS, es, s.last, e);
  }

  // ----- power: time per command -----------------------------------------------------------

  const POWER_COMMANDS: nat := 4096

  /** `last` is the per-CPU slot, zero until the CPU's first switch. */
  datatype PowerState = PowerState(last: map<nat, nat>, oncpu: map<Comm, u64>)

  function Slot(last: map<nat, nat>, cpu: nat): nat
  {
    if cpu in last then last[cpu] else 0
  }

  function CommandNs(oncpu: map<Comm, u64>, comm: Comm): u64
  {
    if comm in oncpu then oncpu[comm] else 0
  }

  function PowerStep(s: PowerState, e: Switch): PowerState
  {
    var prev := Slot(s.last, e.cpu);
    PowerState(
      s.last[e.cpu := e.now],
      if prev != 0 then
        BpfMap.Insert(s.oncpu, POWER_COMMANDS, e.comm, Wrap(CommandNs(s.oncpu, e.comm) + SaturatingSub(e.now, prev)))
      else s.oncpu)
  }

  function PowerRun(es: seq<Switch>): PowerState
  {
    if es == [] then PowerState(map[], map[]) else PowerStep(PowerRun(es[..|es| - 1]), es[|es| - 1])
  }

  ghost predicate SlotsLatest(es: seq<Switch>, last: map<nat, nat>)
  {
    && (forall cpu :: cpu in last ==> exists i: nat :: Latest(es, cpu, i) && last[cpu] == es[i].now)
    && (forall cpu :: cpu !in last ==> !Seen(es, cpu))
  }

  ghost predicate CommandsExact(es: seq<Switch>, oncpu: map<Comm, u64>)
  {
    && |oncpu| <= POWER_COMMANDS
    && forall comm :: CommandExact(es, oncpu, comm)
  }

  ghost predicate CommandExact(es: seq<Switch>, oncpu: map<Comm, u64>, comm: Comm)
  {
    if comm in oncpu then oncpu[comm] == Wrap(Time(es, Command(comm)))
    else |oncpu| == POWER_COMMANDS || Time(es, Command(comm)) == 0
  }

  lemma CommandStep(es: seq<Switch>, s: PowerState, e: Switch, comm: Comm)
    requires Monotone(es + [e]) && SlotsLatest(es, s.last) && CommandsExact(es, s.oncpu)
    ensures CommandExact(es + [e], PowerStep(s, e).oncpu, comm)
  {
    assert CommandExact(es, s.oncpu, comm);
    if e.cpu in s.last {
      var l: nat :| Latest(es, e.cpu, l) && s.last[e.cpu] == es[l].now;
      NextSwitch(es, e, l, Command(comm));
      WrapSum(Time(es, Command(comm)), e.now - es[l].now);
    } else {
      FirstSwitch(es, e, Command(comm));
    }
  }

  lemma SlotsStep(es: seq<Switch>, s: PowerState, e: Switch)
    requires SlotsLatest(es, s.last)
    ensures SlotsLatest(es + [e], PowerStep(s, e).last)
  {
    StampStep(|s.last| + 2, es, s.last, e);
    hide Latest, Seen;
    assert |s.last[e.cpu := e.now]| <= |s.last| + 1;
  }

  lemma PowerStepExact(es: seq<Switch>, s: PowerState, e: Switch)
    requires Monotone(es + [e]) && SlotsLatest(es, s.last) && CommandsExact(es, s.oncpu)
    ensures CommandsExact(es + [e], PowerStep(s, e).oncpu)
  {
    forall comm
      ensures CommandExact(es + [e], PowerStep(s, e).oncpu, comm)
    {
      CommandStep(es, s, e, comm);
    }
  }

  /** power: each command's entry is the time of the slices that ended under that name. */
  lemma {:induction false} PowerIsTimePerCommand(es: seq<Switch>)
    requires Monotone(es)
    ensures SlotsLatest(es, PowerRun(es).last) && CommandsExact(es, PowerRun(es).oncpu)
  {
    hide SlotsLatest, CommandsExact, PowerStep;
    if es == [] {
      NothingCharged();
    } else {
      var n := |es| - 1;
      assert es == es[..n] + [es[n]];
      PowerIsTimePerCommand(es[..n]);
      SlotsStep(es[..n], PowerRun(es[..n]), es[n]);
      PowerStepExact(es[..n], PowerRun(es[..n]), es[n]);
    }
  }

  lemma NothingCharged()
    ensures SlotsLatest([], map[]) && CommandsExact([], map[])
  {
    NothingObserved(0);
  }

  // ----- the three programs agree ----------------------------------------------------------

  function ByTask(usage: map<nat, TaskStat>): map<Who, nat>
  {
    map pid | pid in usage :: Task(pid) := usage[pid].cpuNs
  }

  function ByCpu(busy: map<nat, u64>): map<Who, nat>
  {
    map cpu | cpu in busy :: BusyOn(cpu) := busy[cpu]
  }

  function ByCommand(oncpu: map<Comm, u64>): map<Who, nat>
  {
    map comm | comm in oncpu :: Command(comm) := oncpu[comm]
  }

  /** Some time passes between an interval's switches, and that is time of whoever keeps it. */
  lemma IntervalTime(es: seq<Switch>, who: Who, i: nat, j: nat)
    requires Adjacent(es, i, j) && Keeps(who, es[i], es[j]) && es[i].now < es[j].now
    ensures 0 < Time(es, who)
  {
    CoveredMoment(es, who, i, j, es[i].now);
    BpfMap.CardinalityBelow({(es[i].cpu, es[i].now)}, Moments(es, who));
  }

  /** What counts for v counts for w. */
  lemma TimeWithin(es: seq<Switch>, v: Who, w: Who)
    requires forall a, b :: Keeps(v, a, b) ==> Keeps(w, a, b)
    ensures Time(es, v) <= Time(es, w)
  {
    hide Keeps, Moments, Adjacent;
    forall m | m in Moments(es, v)
      ensures m in Moments(es, w)
    {
      var i, j := IntervalOf(es, v, m);
      CoveredMoment(es, w, i, j, m.1);
    }
    BpfMap.CardinalityBelow(Moments(es, v), Moments(es, w));
  }

  /** The intervals that count for `all` are those that count for one of `ws`. */
  ghost predicate Splits(es: seq<Switch>, all: Who, ws: set<Who>)
  {
    forall i: nat, j: nat :: Adjacent(es, i, j) && es[i].now < es[j].now ==>
                               (Keeps(all, es[i], es[j]) <==> exists w :: w in ws && Keeps(w, es[i], es[j]))
  }

  /** Each entry is the time of its key, and no two keys share an interval. */
  ghost predicate Exact(es: seq<Switch>, m: map<Who, nat>)
  {
    && (forall w :: w in m ==> m[w] == Time(es, w))
    && (forall v, w :: v in m && w in m && v != w ==> Apart(v, w))
  }

  lemma AddsUp(es: seq<Switch>, m: map<Who, nat>, all: Who)
    requires Monotone(es) && Splits(es, all, m.Keys) && Exact(es, m)
    ensures BpfMap.Total(m) == Time(es, all)
  {
    hide Monotone, Moments, Keeps, Adjacent, Apart, BpfMap.Total;
    TotalIsUnion(es, m);
    SameMoments(es, m.Keys, all);
  }

  /** Per-task time adds up to the busy time of the machine. */
  lemma UsageTotal(es: seq<Switch>)
    requires Proper(es) && |Cpus(es)| <= ENERGY_CPUS
    requires |EnergyRun(es).usage| < ENERGY_TASKS && Time(es, Busy) < U64
    ensures BpfMap.Total(ByTask(EnergyRun(es).usage)) == Time(es, Busy)
  {
    var usage := EnergyRun(es).usage;
    assert Monotone(es);
    hide *;
    EnergyIsTimeOnCpu(es);
    UsageSplits(es, usage);
    UsageValues(es, usage);
    AddsUp(es, ByTask(usage), Busy);
  }

  lemma UsageValues(es: seq<Switch>, usage: map<nat, TaskStat>)
    requires UsageExact(es, usage) && Time(es, Busy) < U64
    ensures Exact(es, ByTask(usage))
  {
    forall pid | pid in usage
      ensures usage[pid].cpuNs == Time(es, Task(pid))
    {
      assert TaskExact(es, usage, pid);
      TimeWithin(es, Task(pid), Busy);
    }
    hide Time, UsageExact;
  }

  lemma UsageSplits(es: seq<Switch>, usage: map<nat, TaskStat>)
    requires UsageExact(es, usage) && |usage| < ENERGY_TASKS
    ensures Splits(es, Busy, ByTask(usage).Keys)
  {
    hide Time;
    forall i: nat, j: nat | Adjacent(es, i, j) && es[i].now < es[j].now
      ensures Keeps(Busy, es[i], es[j]) <==> exists w :: w in ByTask(usage).Keys && Keeps(w, es[i], es[j])
    {
      if es[i].next != 0 {
        IntervalTime(es, Task(es[i].next), i, j);
        assert TaskExact(es, usage, es[i].next);
        assert Task(es[i].next) in ByTask(usage).Keys;
      }
    }
  }

  /** Per-CPU busy time adds up to the same total. */
  lemma BusyTotal(es: seq<Switch>)
    requires Proper(es) && |Cpus(es)| <= BUSY_CPUS && Time(es, Busy) < U64
    ensures BpfMap.Total(ByCpu(BusyRun(es).busy)) == Time(es, Busy)
  {
    var s := BusyRun(es);
    assert Monotone(es);
    hide *;
    BusyIsTimePerCpu(es);
    BusySplits(es, s);
    BusyValues(es, s);
    AddsUp(es, ByCpu(s.busy), Busy);
  }

  lemma BusyValues(es: seq<Switch>, s: BusyState)
    requires BusyExact(es, s) && Time(es, Busy) < U64
    ensures Exact(es, ByCpu(s.busy))
  {
    forall cpu | cpu in s.busy
      ensures s.busy[cpu] == Time(es, BusyOn(cpu))
    {
      BusyValue(es, s, cpu);
    }
    hide Time, BusyExact;
  }

  lemma BusyValue(es: seq<Switch>, s: BusyState, cpu: nat)
    requires BusyExact(es, s) && Time(es, Busy) < U64 && cpu in s.busy
    ensures s.busy[cpu] == Time(es, BusyOn(cpu))
  {
    TimeWithin(es, BusyOn(cpu), Busy);
    assert BusyNs(s.busy, cpu) == Wrap(Time(es, BusyOn(cpu)));
    hide Time, BusyExact;
  }

  lemma BusySplits(es: seq<Switch>, s: BusyState)
    requires |Cpus(es)| <= BUSY_CPUS && Time(es, Busy) < U64
    requires Stamps(es, s.last) && BusyExact(es, s)
    ensures Splits(es, Busy, ByCpu(s.busy).Keys)
  {
    hide Time, Stamps;
    forall i: nat, j: nat | Adjacent(es, i, j) && es[i].now < es[j].now
      ensures Keeps(Busy, es[i], es[j]) <==> exists w :: w in ByCpu(s.busy).Keys && Keeps(w, es[i], es[j])
    {
      if es[i].next != 0 {
        BusyEntry(es, s, i, j);
        assert BusyOn(es[i].cpu) in ByCpu(s.busy).Keys;
      }
    }
  }

  lemma BusyEntry(es: seq<Switch>, s: BusyState, i: nat, j: nat)
    requires |Cpus(es)| <= BUSY_CPUS && Time(es, Busy) < U64
    requires Stamps(es, s.last) && BusyExact(es, s)
    requires Adjacent(es, i, j) && es[i].now < es[j].now && es[i].next != 0
    ensures es[i].cpu in s.busy
  {
    var cpu := es[i].cpu;
    IntervalTime(es, BusyOn(cpu), i, j);
    TimeWithin(es, BusyOn(cpu), Busy);
    StampedOrRoom(es, s.last, cpu);
    hide Time, Stamps, Cpus, Adjacent;
  }

  lemma StampedOrRoom(es: seq<Switch>, last: map<nat, nat>, cpu: nat)
    requires Stamps(es, last) && |Cpus(es)| <= BUSY_CPUS && cpu in Cpus(es)
    ensures cpu in last || |last| < BUSY_CPUS
  {
    forall c | c in last.Keys
      ensures c in Cpus(es)
    {
      var i: nat :| Latest(es, c, i) && last[c] == es[i].now;
      assert es[i].cpu == c;
    }
    if cpu !in last {
      BpfMap.CardinalityBelow(last.Keys, Cpus(es) - {cpu});
      assert |last.Keys| == |last|;
    }
  }

  /** Per-command time adds up to busy plus idle time: the idle task has a name too. */
  lemma PowerTotal(es: seq<Switch>)
    requires Monotone(es) && (forall k :: 0 <= k < |es| ==> es[k].now != 0)
    requires |PowerRun(es).oncpu| < POWER_COMMANDS && Time(es, Everything) < U64
    ensures BpfMap.Total(ByCommand(PowerRun(es).oncpu)) == Time(es, Busy) + Time(es, Idle)
  {
    var oncpu := PowerRun(es).oncpu;
    hide *;
    PowerIsTimePerCommand(es);
    CommandSplits(es, oncpu);
    BusyAndIdle(es);
    CommandValues(es, oncpu);
    AddsUp(es, ByCommand(oncpu), Everything);
  }

  lemma CommandValues(es: seq<Switch>, oncpu: map<Comm, u64>)
    requires CommandsExact(es, oncpu) && Time(es, Everything) < U64
    ensures Exact(es, ByCommand(oncpu))
  {
    forall comm | comm in oncpu
      ensures oncpu[comm] == Time(es, Command(comm))
    {
      assert CommandExact(es, oncpu, comm);
      TimeWithin(es, Command(comm), Everything);
    }
    hide Time, CommandsExact;
  }

  lemma CommandSplits(es: seq<Switch>, oncpu: map<Comm, u64>)
    requires CommandsExact(es, oncpu) && |oncpu| < POWER_COMMANDS && (forall k :: 0 <= k < |es| ==> es[k].now != 0)
    ensures Splits(es, Everything, ByCommand(oncpu).Keys)
  {
    hide Time;
    forall i: nat, j: nat | Adjacent(es, i, j) && es[i].now < es[j].now
      ensures Keeps(Everything, es[i], es[j]) <==> exists w :: w in ByCommand(oncpu).Keys && Keeps(w, es[i], es[j])
    {
      var comm := es[j].comm;
      assert es[i].now != 0;
      IntervalTime(es, Command(comm), i, j);
      assert CommandExact(es, oncpu, comm);
      assert Command(comm) in ByCommand(oncpu).Keys;
    }
  }

  /**
   Main result. On one trace, time per task and time per CPU are the same total, and time
   per command is that total plus the idle time.
   */
  lemma ThreeProgramsAgree(es: seq<Switch>)
    requires Proper(es) && |Cpus(es)| <= BUSY_CPUS && (forall k :: 0 <= k < |es| ==> es[k].now != 0)
    requires |EnergyRun(es).usage| < ENERGY_TASKS && |PowerRun(es).oncpu| < POWER_COMMANDS
    requires Time(es, Everything) < U64
    ensures BpfMap.Total(ByTask(EnergyRun(es).usage)) == BpfMap.Total(ByCpu(BusyRun(es).busy))
    ensures BpfMap.Total(ByCommand(PowerRun(es).oncpu)) == BpfMap.Total(ByCpu(BusyRun(es).busy)) + Time(es, Idle)
  {
    BusyAndIdle(es);
    UsageTotal(es);
    BusyTotal(es);
    PowerTotal(es);
    hide *;
  }

  // ----- one switch, in figures ----------------------------------------------------------------

  lemma EnergyStepIs(s: EnergyState, e: Switch)
    ensures var s' := EnergyStep(s, e);
            var room := e.prev in s.usage || |s.usage| < 16384;
            && s'.oncpu == (if e.cpu in s.oncpu || |s.oncpu| < 1024 then s.oncpu[e.cpu := e.now] else s.oncpu)
            && (!(e.cpu in s.oncpu && e.prev != 0 && room) ==> s'.usage == s.usage)
            && (e.cpu in s.oncpu && e.prev != 0 && room ==>
                  var ran := if s.oncpu[e.cpu] <= e.now then e.now - s.oncpu[e.cpu] else 0;
                  var before := if e.prev in s.usage then s.usage[e.prev].cpuNs as int else 0;
                  s'.usage == s.usage[e.prev := TaskStat((before + ran) % 0x1_0000_0000_0000_0000, e.comm)])
  {}

  lemma BusyStepIs(s: BusyState, e: Switch)
    ensures var s' := BusyStep(s, e);
            var counts := && e.cpu in s.last && e.prev != 0 && s.last[e.cpu] < e.now
                          && (e.cpu in s.busy || |s.busy| < 256);
            && s'.last == (if e.cpu in s.last || |s.last| < 256 then s.last[e.cpu := e.now] else s.last)
            && (!counts ==> s'.busy == s.busy)
            && (counts ==>
                  var before := if e.cpu in s.busy then s.busy[e.cpu] as int else 0;
                  s'.busy == s.busy[e.cpu := (before + (e.now - s.last[e.cpu])) % 0x1_0000_0000_0000_0000])
  {}

  lemma PowerStepIs(s: PowerState, e: Switch)
    ensures var s' := PowerStep(s, e);
            var counts := e.cpu in s.last && s.last[e.cpu] != 0 && (e.comm in s.oncpu || |s.oncpu| < 4096);
            && s'.last == s.last[e.cpu := e.now]
            && (!counts ==> s'.oncpu == s.oncpu)
            && (counts ==>
                  var ran := if s.last[e.cpu] <= e.now then e.now - s.last[e.cpu] else 0;
                  var before := if e.comm in s.oncpu then s.oncpu[e.comm] as int else 0;
                  s'.oncpu == s.oncpu[e.comm := (before + ran) % 0x1_0000_0000_0000_0000])
  {}

  // ----- the programs ----------------------------------------------------------------------

  lemma RunAppend(es: seq<Switch>, e: Switch)
    ensures EnergyRun(es + [e]) == EnergyStep(EnergyRun(es), e)
    ensures BusyRun(es + [e]) == BusyStep(BusyRun(es), e)
    ensures PowerRun(es + [e]) == PowerStep(PowerRun(es), e)
  {
    hide EnergyStep, BusyStep, PowerStep;
    assert (es + [e])[..|es|] == es;
  }

  class Energy {
    var oncpu: map<nat, nat>
    var usage: map<nat, TaskStat>
    ghost var trace: seq<Switch>

    ghost predicate Valid()
      reads this
    {
      EnergyState(oncpu, usage) == EnergyRun(trace)
    }

    constructor ()
      ensures Valid() && trace == []
    {
      oncpu, usage, trace := map[], map[], [];
    }

    method SchedSwitch(cpu: nat, prevPid: nat, prevComm: Comm, ghost nextPid: nat, now: nat)
      requires Valid()
      modifies this
      ensures Valid() && trace == old(trace) + [Switch(cpu, prevPid, prevComm, nextPid, now)]
      ensures EnergyState(oncpu, usage) ==
              EnergyStep(EnergyState(old(oncpu), old(usage)), Switch(cpu, prevPid, prevComm, nextPid, now))
    {
      hide EnergyRun, Wrap, BpfMap.Insert, SaturatingSub;
      RunAppend(trace, Switch(cpu, prevPid, prevComm, nextPid, now));
      trace := trace + [Switch(cpu, prevPid, prevComm, nextPid, now)];
      if cpu in oncpu {
        var delta := SaturatingSub(now, oncpu[cpu]);
        if prevPid != 0 {
          var cur := if prevPid in usage then usage[prevPid] else TaskStat(0, prevComm);
          usage := BpfMap.Insert(usage, ENERGY_TASKS, prevPid, TaskStat(Wrap(cur.cpuNs + delta), prevComm));
        }
      }
      oncpu := BpfMap.Insert(oncpu, ENERGY_CPUS, cpu, now);
    }
  }

  class CpuBusy {
    var last: map<nat, nat>
    var busy: map<nat, u64>
    ghost var trace: seq<Switch>

    ghost predicate Valid()
      reads this
    {
      BusyState(last, busy) == BusyRun(trace)
    }

    constructor ()
      ensures Valid() && trace == []
    {
      last, busy, trace := map[], map[], [];
    }

    method OnSwitch(cpu: nat, prevPid: nat, ghost prevComm: Comm, ghost nextPid: nat, now: nat)
      requires Valid()
      modifies this
      ensures Valid() && trace == old(trace) + [Switch(cpu, prevPid, prevComm, nextPid, now)]
      ensures BusyState(last, busy) ==
              BusyStep(BusyState(old(last), old(busy)), Switch(cpu, prevPid, prevComm, nextPid, now))
    {
      hide BusyRun, Wrap, BpfMap.Insert;
      RunAppend(trace, Switch(cpu, prevPid, prevComm, nextPid, now));
      trace := trace + [Switch(cpu, prevPid, prevComm, nextPid, now)];
      if cpu in last {
        var before := last[cpu];
        if prevPid != 0 && now > before {
          var n := Wrap(BusyNs(busy, cpu) + (now - before));
          busy := BpfMap.Insert(busy, BUSY_CPUS, cpu, n);
        }
      }
      last := BpfMap.Insert(last, BUSY_CPUS, cpu, now);
    }
  }

  class Power {
    var last: map<nat, nat>
    var oncpu: map<Comm, u64>
    ghost var trace: seq<Switch>

    ghost predicate Valid()
      reads this
    {
      PowerState(last, oncpu) == PowerRun(trace)
    }

    constructor ()
      ensures Valid() && trace == []
    {
      last, oncpu, trace := map[], map[], [];
    }

    method OnSwitch(cpu: nat, ghost prevPid: nat, prevComm: Comm, ghost nextPid: nat, now: nat)
      requires Valid()
      modifies this
      ensures Valid() && trace == old(trace) + [Switch(cpu, prevPid, prevComm, nextPid, now)]
      ensures PowerState(last, oncpu) ==
              PowerStep(PowerState(old(last), old(oncpu)), Switch(cpu, prevPid, prevComm, nextPid, now))
    {
      hide PowerRun, Wrap, BpfMap.Insert, SaturatingSub;
      RunAppend(trace, Switch(cpu, prevPid, prevComm, nextPid, now));
      trace := trace + [Switch(cpu, prevPid, prevComm, nextPid, now)];
      var prevTs := Slot(last, cpu);
      if prevTs != 0 {
        var delta := SaturatingSub(now, prevTs);
        oncpu := BpfMap.Insert(oncpu, POWER_COMMANDS, prevComm, Wrap(CommandNs(oncpu, prevComm) + delta));
      }
      last := last[cpu := now];
    }
  }
}

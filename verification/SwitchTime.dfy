/**
 Three programs that keep the time between context switches under different keys: energy
 per task, cpu-busy per CPU, power per command. The reference is the set of (CPU,
 nanosecond) pairs a trace covers, each with the task that was current at that moment.
 */
module SwitchTime {
  import opened Bits
  import BpfMap

  type Comm = seq<byte>

  datatype Switch = Switch(cpu: nat, prev: nat, comm: Comm, next: nat, now: nat)

  // ----- the reference ---------------------------------------------------------------------

  /** i and j are two switches of one CPU with none in between. */
  ghost predicate Adjacent(es: seq<Switch>, i: nat, j: nat)
  {
    && i < j < |es| && es[i].cpu == es[j].cpu
    && forall k :: i < k < j ==> es[k].cpu != es[i].cpu
  }

  /** Each CPU's outgoing task is its earlier incoming task. */
  ghost predicate WellFormed(es: seq<Switch>)
  {
    forall i: nat, j: nat :: Adjacent(es, i, j) ==> es[j].prev == es[i].next
  }

  /** No CPU's clock runs backwards. */
  ghost predicate Monotone(es: seq<Switch>)
  {
    forall i, j :: 0 <= i < j < |es| && es[i].cpu == es[j].cpu ==> es[i].now <= es[j].now
  }

  /** Which moments to count. */
  datatype Who =
    | Task(pid: nat)
    | Command(comm: Comm)
    | BusyOn(cpu: nat)
    | Busy
    | Idle
    | Everything

  /** Whether the moments between the switches a and b count. */
  predicate Keeps(who: Who, a: Switch, b: Switch)
  {
    match who
    case Task(pid) => a.next == pid
    case Command(comm) => a.now != 0 && b.comm == comm
    case BusyOn(cpu) => a.next != 0 && a.cpu == cpu
    case Busy => a.next != 0
    case Idle => a.next == 0
    case Everything => true
  }

  /** Between the adjacent switches i and j, which count for `who`, falls the moment t. */
  ghost predicate Covers(es: seq<Switch>, who: Who, i: nat, j: nat, t: nat)
  {
    Adjacent(es, i, j) && Keeps(who, es[i], es[j]) && es[i].now <= t < es[j].now
  }

  /** The moments at which `who` was current, between a CPU's first and last observed switch. */
  ghost function Moments(es: seq<Switch>, who: Who): set<(nat, nat)>
  {
    set i: nat, j: nat, t: nat | i < j < |es| && es[i].now <= t < es[j].now && Covers(es, who, i, j, t) ::
      (es[i].cpu, t)
  }

  lemma IntervalOf(es: seq<Switch>, who: Who, m: (nat, nat)) returns (i: nat, j: nat)
    requires m in Moments(es, who)
    ensures i < j < |es| && es[i].cpu == m.0 && Covers(es, who, i, j, m.1)
  {
    hide Covers;
    var i0: nat, j0: nat, t: nat :| i0 < j0 < |es| && Covers(es, who, i0, j0, t) && m == (es[i0].cpu, t);
    i, j := i0, j0;
  }

  lemma CoveredMoment(es: seq<Switch>, who: Who, i: nat, j: nat, t: nat)
    requires Covers(es, who, i, j, t)
    ensures (es[i].cpu, t) in Moments(es, who)
  {}

  ghost function Time(es: seq<Switch>, who: Who): nat
  {
    |Moments(es, who)|
  }

  /** The latest switch of a CPU. */
  ghost predicate Latest(es: seq<Switch>, cpu: nat, i: nat)
  {
    i < |es| && es[i].cpu == cpu && forall k :: i < k < |es| ==> es[k].cpu != cpu
  }

  ghost predicate Seen(es: seq<Switch>, cpu: nat)
  {
    exists i: nat :: Latest(es, cpu, i)
  }

  // ----- one more switch -------------------------------------------------------------------

  function Interval(cpu: nat, start: nat, stop: nat): set<(nat, nat)>
  {
    set t: nat | start <= t < stop :: (cpu, t)
  }

  lemma {:induction false} IntervalSize(cpu: nat, start: nat, stop: nat)
    ensures |Interval(cpu, start, stop)| == if start <= stop then stop - start else 0
    decreases stop
  {
    if stop <= start {
    } else {
      IntervalSize(cpu, start, stop - 1);
      assert Interval(cpu, start, stop) == Interval(cpu, start, stop - 1) + {(cpu, stop - 1)};
    }
  }

  lemma LatestAppend(es: seq<Switch>, e: Switch, cpu: nat, i: nat)
    ensures Latest(es + [e], cpu, i) <==> if e.cpu == cpu then i == |es| else Latest(es, cpu, i)
  {
    var es' := es + [e];
    assert es'[|es|] == e;
    assert forall k :: 0 <= k < |es| ==> es'[k] == es[k];
  }

  lemma AdjacentAppend(es: seq<Switch>, e: Switch, i: nat, j: nat)
    ensures j < |es| ==> (Adjacent(es + [e], i, j) <==> Adjacent(es, i, j))
    ensures j == |es| ==> (Adjacent(es + [e], i, j) <==> Latest(es, e.cpu, i))
  {
    var es' := es + [e];
    assert es'[|es|] == e;
    assert forall k :: 0 <= k < |es| ==> es'[k] == es[k];
  }

  lemma OneLatest(es: seq<Switch>, cpu: nat, i: nat, j: nat)
    requires Latest(es, cpu, i) && Latest(es, cpu, j)
    ensures i == j
  {}

  lemma CoversAppend(es: seq<Switch>, e: Switch, who: Who, i: nat, j: nat, t: nat)
    ensures j < |es| ==> (Covers(es + [e], who, i, j, t) <==> Covers(es, who, i, j, t))
    ensures j == |es| ==> (Covers(es + [e], who, i, j, t) <==>
              Latest(es, e.cpu, i) && Keeps(who, es[i], e) && es[i].now <= t < e.now)
  {
    AdjacentAppend(es, e, i, j);
    assert forall k :: 0 <= k < |es| ==> (es + [e])[k] == es[k];
  }

  lemma StillCovered(es: seq<Switch>, e: Switch, who: Who)
    ensures Moments(es, who) <= Moments(es + [e], who)
  {
    hide Covers, Moments;
    forall m | m in Moments(es, who)
      ensures m in Moments(es + [e], who)
    {
      var i, j := IntervalOf(es, who, m);
      CoversAppend(es, e, who, i, j, m.1);
      CoveredMoment(es + [e], who, i, j, m.1);
    }
  }

  /** The first switch of a CPU covers nothing. */
  lemma FirstSwitch(es: seq<Switch>, e: Switch, who: Who)
    requires !Seen(es, e.cpu)
    ensures Time(es + [e], who) == Time(es, who)
  {
    StillCovered(es, e, who);
    hide Covers, Moments, Latest;
    forall m | m in Moments(es + [e], who)
      ensures m in Moments(es, who)
    {
      var i, j := IntervalOf(es + [e], who, m);
      CoversAppend(es, e, who, i, j, m.1);
      CoveredMoment(es, who, i, j, m.1);
    }
    assert Moments(es + [e], who) == Moments(es, who);
  }

  /** A later switch adds the slice since the one before, all of it new. */
  lemma NextSwitch(es: seq<Switch>, e: Switch, l: nat, who: Who)
    requires Monotone(es + [e]) && Latest(es, e.cpu, l)
    ensures Time(es + [e], who) == Time(es, who) + if Keeps(who, es[l], e) then e.now - es[l].now else 0
    ensures es[l].now <= e.now
  {
    assert Monotone(es + [e]) && (es + [e])[l] == es[l] && (es + [e])[|es|] == e;
    var added := Added(es, e, l, who);
    MomentsAppend(es, e, l, who);
    NothingCoveredSince(es, e, l, who);
    IntervalSize(e.cpu, es[l].now, e.now);
    hide Moments, Interval, Covers, Monotone, Latest, Keeps;
    assert |Moments(es, who) + added| == |Moments(es, who)| + |added|;
  }

  function Added(es: seq<Switch>, e: Switch, l: nat, who: Who): set<(nat, nat)>
    requires l < |es|
  {
    if Keeps(who, es[l], e) then Interval(e.cpu, es[l].now, e.now) else {}
  }

  lemma MomentsAppend(es: seq<Switch>, e: Switch, l: nat, who: Who)
    requires Latest(es, e.cpu, l)
    ensures Moments(es + [e], who) == Moments(es, who) + Added(es, e, l, who)
  {
    StillCovered(es, e, who);
    NewlyCovered(es, e, l, who);
    hide Moments, Added;
    forall m | m in Moments(es + [e], who)
      ensures m in Moments(es, who) + Added(es, e, l, who)
    {
      CoveredBeforeOrNow(es, e, l, who, m);
    }
  }

  lemma NewlyCovered(es: seq<Switch>, e: Switch, l: nat, who: Who)
    requires Latest(es, e.cpu, l)
    ensures Added(es, e, l, who) <= Moments(es + [e], who)
  {
    hide Covers, Moments;
    forall m | m in Added(es, e, l, who)
      ensures m in Moments(es + [e], who)
    {
      CoversAppend(es, e, who, l, |es|, m.1);
      CoveredMoment(es + [e], who, l, |es|, m.1);
    }
  }

  lemma CoveredBeforeOrNow(es: seq<Switch>, e: Switch, l: nat, who: Who, m: (nat, nat))
    requires Latest(es, e.cpu, l) && m in Moments(es + [e], who)
    ensures m in Moments(es, who) || m in Added(es, e, l, who)
  {
    hide Covers, Moments;
    var i, j := IntervalOf(es + [e], who, m);
    CoversAppend(es, e, who, i, j, m.1);
    if j < |es| {
      CoveredMoment(es, who, i, j, m.1);
    } else {
      OneLatest(es, e.cpu, i, l);
    }
  }

  lemma NothingCoveredSince(es: seq<Switch>, e: Switch, l: nat, who: Who)
    requires Monotone(es + [e]) && Latest(es, e.cpu, l)
    ensures Moments(es, who) !! Added(es, e, l, who)
  {
    hide Moments;
    forall m | m in Moments(es, who)
      ensures m !in Added(es, e, l, who)
    {
      var i, j := IntervalOf(es, who, m);
      assert es[i].cpu == e.cpu ==> j <= l;
      assert (es + [e])[j] == es[j] && (es + [e])[l] == es[l];
    }
  }

  // ----- conservation: the same time under different keys --------------------------------------

  /** One moment of one CPU lies in one interval. */
  lemma OneInterval(es: seq<Switch>, i: nat, j: nat, i': nat, j': nat, t: nat)
    requires Monotone(es) && Adjacent(es, i, j) && Adjacent(es, i', j') && es[i].cpu == es[i'].cpu
    requires es[i].now <= t < es[j].now && es[i'].now <= t < es[j'].now
    ensures i == i' && j == j'
  {
    NotBefore(es, i, j, i', j', t);
    NotBefore(es, i', j', i, j, t);
  }

  lemma NotBefore(es: seq<Switch>, i: nat, j: nat, i': nat, j': nat, t: nat)
    requires Monotone(es) && Adjacent(es, i, j) && Adjacent(es, i', j') && es[i].cpu == es[i'].cpu
    requires es[i].now <= t < es[j].now && es[i'].now <= t < es[j'].now
    ensures i' <= i
    ensures i == i' ==> j' <= j
  {}

  /** No interval belongs to both. */
  predicate Apart(v: Who, w: Who)
  {
    match (v, w)
    case (Task(p), Task(q)) => p != q
    case (Command(p), Command(q)) => p != q
    case (BusyOn(p), BusyOn(q)) => p != q
    case (Busy, Idle) => true
    case _ => false
  }

  lemma ApartMoments(es: seq<Switch>, v: Who, w: Who)
    requires Monotone(es) && Apart(v, w)
    ensures Moments(es, v) !! Moments(es, w)
  {
    forall m | m in Moments(es, v)
      ensures m !in Moments(es, w)
    {
      if m in Moments(es, w) {
        BothKeep(es, v, w, m);
        assert false;
      }
    }
  }

  lemma BothKeep(es: seq<Switch>, v: Who, w: Who, m: (nat, nat))
    requires Monotone(es) && m in Moments(es, v) && m in Moments(es, w)
    ensures exists a, b :: Keeps(v, a, b) && Keeps(w, a, b)
  {
    hide Keeps, Moments, Monotone, Adjacent;
    var i, j := IntervalOf(es, v, m);
    var i', j' := IntervalOf(es, w, m);
    OneInterval(es, i, j, i', j', m.1);
  }

  ghost function AllMoments(es: seq<Switch>, ws: set<Who>): set<(nat, nat)>
  {
    set w, m | w in ws && m in Moments(es, w) :: m
  }

  /** Time kept under keys that share no interval adds up to the time of all of them. */
  lemma {:induction false} TotalIsUnion(es: seq<Switch>, m: map<Who, nat>)
    requires Monotone(es)
    requires forall w :: w in m ==> m[w] == Time(es, w)
    requires forall v, w :: v in m && w in m && v != w ==> Apart(v, w)
    ensures BpfMap.Total(m) == |AllMoments(es, m.Keys)|
    decreases |m|
  {
    NoKeys(es, m.Keys);
    hide Time, AllMoments, Apart;
    if m == map[] {
    } else {
      var w :| w in m;
      BpfMap.TotalWithout(m, w);
      OneMoreKey(es, m.Keys, w);
      hide BpfMap.Total;
      FewerKeys(m, w);
      TotalIsUnion(es, m - {w});
    }
  }

  lemma FewerKeys(m: map<Who, nat>, w: Who)
    requires w in m
    ensures (m - {w}).Keys == m.Keys - {w} && |m - {w}| < |m|
  {
    assert (m - {w}).Keys == m.Keys - {w};
  }

  lemma NoKeys(es: seq<Switch>, ws: set<Who>)
    ensures ws == {} ==> AllMoments(es, ws) == {}
  {}

  lemma OneMoreKey(es: seq<Switch>, ws: set<Who>, w: Who)
    requires Monotone(es) && w in ws
    requires forall u, v :: u in ws && v in ws && u != v ==> Apart(u, v)
    ensures |AllMoments(es, ws)| == |AllMoments(es, ws - {w})| + Time(es, w)
  {
    var rest := AllMoments(es, ws - {w});
    WithOneKey(es, ws, w);
    forall m | m in rest
      ensures m !in Moments(es, w)
    {
      var v :| v in ws - {w} && m in Moments(es, v);
      ApartMoments(es, v, w);
    }
    hide Moments, AllMoments;
    assert |rest + Moments(es, w)| == |rest| + |Moments(es, w)|;
  }

  lemma WithOneKey(es: seq<Switch>, ws: set<Who>, w: Who)
    requires w in ws
    ensures AllMoments(es, ws) == AllMoments(es, ws - {w}) + Moments(es, w)
  {
    hide Moments;
  }

  /** Two readings that agree on which intervals count. */
  lemma SameMoments(es: seq<Switch>, ws: set<Who>, all: Who)
    requires forall i: nat, j: nat :: Adjacent(es, i, j) && es[i].now < es[j].now ==>
               (Keeps(all, es[i], es[j]) <==> exists w :: w in ws && Keeps(w, es[i], es[j]))
    ensures AllMoments(es, ws) == Moments(es, all)
  {
    hide Adjacent, Keeps, Moments;
    forall m | m in AllMoments(es, ws)
      ensures m in Moments(es, all)
    {
      var w :| w in ws && m in Moments(es, w);
      var i, j := IntervalOf(es, w, m);
      CoveredMoment(es, all, i, j, m.1);
    }
    forall m | m in Moments(es, all)
      ensures m in AllMoments(es, ws)
    {
      var i, j := IntervalOf(es, all, m);
      var w :| w in ws && Keeps(w, es[i], es[j]);
      CoveredMoment(es, w, i, j, m.1);
      InAllMoments(es, ws, w, m);
    }
  }

  lemma InAllMoments(es: seq<Switch>, ws: set<Who>, w: Who, m: (nat, nat))
    requires w in ws && m in Moments(es, w)
    ensures m in AllMoments(es, ws)
  {
    hide Moments;
  }

  /** Every moment is busy or idle. */
  lemma BusyAndIdle(es: seq<Switch>)
    requires Monotone(es)
    ensures Time(es, Everything) == Time(es, Busy) + Time(es, Idle)
  {
    SameMoments(es, {Busy, Idle}, Everything) by {
      assert Busy in {Busy, Idle} && Idle in {Busy, Idle};
    }
    ApartMoments(es, Busy, Idle);
    hide Moments;
    assert AllMoments(es, {Busy, Idle}) == Moments(es, Busy) + Moments(es, Idle);
    assert |Moments(es, Busy) + Moments(es, Idle)| == |Moments(es, Busy)| + |Moments(es, Idle)|;
  }
}

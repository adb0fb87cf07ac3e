/** The programs that pair an entry with a return: funclatency, he-observer, pg-probe. */
module LatencyProbes {
  import opened Wrappers
  import opened CallPairing
  import opened Modular
  import BpfMap

  /** What one program has seen: its events, whether each found room in the ring, its reports. */
  datatype Log<K> = Log(trace: seq<Event<K>>, slots: seq<bool>, reports: seq<Report<K>>)

  ghost predicate Follows<K>(capacity: nat, start: map<K, nat>, log: Log<K>)
  {
    && |log.slots| == |log.trace|
    && State(start, log.reports) == Run(capacity, log.trace, log.slots)
  }

  function LogEnter<K>(log: Log<K>, key: K, op: nat, now: nat): Log<K>
  {
    log.(trace := log.trace + [Enter(key, op, now)], slots := log.slots + [true])
  }

  function LogReturn<K(==)>(log: Log<K>, start: map<K, nat>, key: K, op: nat, now: nat, slot: bool): Log<K>
  {
    Log(log.trace + [Return(key, op, now)], log.slots + [slot],
        if key in start && slot then log.reports + [Report(key, op, SaturatingSub(now, start[key]))] else log.reports)
  }

  lemma FollowsEnter<K>(capacity: nat, start: map<K, nat>, log: Log<K>, key: K, op: nat, now: nat)
    requires Follows(capacity, start, log)
    ensures Follows(capacity, BpfMap.Insert(start, capacity, key, now), LogEnter(log, key, op, now))
  {
    var es, slots := log.trace + [Enter(key, op, now)], log.slots + [true];
    assert es[..|log.trace|] == log.trace && slots[..|log.slots|] == log.slots;
  }

  lemma FollowsReturn<K>(capacity: nat, start: map<K, nat>, log: Log<K>, key: K, op: nat, now: nat, slot: bool)
    requires Follows(capacity, start, log)
    ensures Follows(capacity, if key in start then BpfMap.Remove(start, key) else start,
                    LogReturn(log, start, key, op, now, slot))
  {
    var es, slots := log.trace + [Return(key, op, now)], log.slots + [slot];
    assert es[..|log.trace|] == log.trace && slots[..|log.slots|] == log.slots;
    assert log.reports + [] == log.reports;
  }

  /** What a program has reported: the leaf calls of its trace that found room in the ring. */
  lemma ReportsAreLeafCalls<K>(capacity: nat, start: map<K, nat>, log: Log<K>)
    requires Follows(capacity, start, log) && WellNested(log.trace) && Monotone(log.trace)
    ensures NeverFull(capacity, log.trace) ==> log.reports == LeafCalls(log.trace, log.slots, |log.trace|)
    ensures Subsequence(log.reports, LeafCalls(log.trace, Always(|log.trace|), |log.trace|))
  {
    OnlyLeafCallsAreReported(capacity, log.trace, log.slots);
    if NeverFull(capacity, log.trace) {
      LeafCallsAreReported(capacity, log.trace, log.slots);
    }
  }

  // ----- the leaf calls one by one -----------------------------------------------------------

  /** The event at j ends a call in which no probed call is nested. */
  ghost predicate EndsLeaf<K>(es: seq<Event<K>>, j: nat)
  {
    j < |es| && es[j].Return? && Closes(es, j) && Leaf(es, EntryOf(es, j), j)
  }

  /** Where leaf calls end among the first n events, where the ring had room. */
  ghost function LeafEnds<K>(es: seq<Event<K>>, slots: seq<bool>, n: nat): (ends: seq<nat>)
    requires n <= |es| == |slots|
    ensures forall k :: 0 <= k < |ends| ==> ends[k] < n && EndsLeaf(es, ends[k])
  {
    if n == 0 then []
    else LeafEnds(es, slots, n - 1) + (if EndsLeaf(es, n - 1) && slots[n - 1] then [n - 1] else [])
  }

  /** All of them, and in order. */
  lemma {:induction false} LeafEndsAreAll<K>(es: seq<Event<K>>, slots: seq<bool>, n: nat)
    requires n <= |es| == |slots|
    ensures var ends := LeafEnds(es, slots, n);
            && (forall j :: 0 <= j < n ==> (j in ends <==> EndsLeaf(es, j) && slots[j]))
            && (forall j, k :: 0 <= j < k < |ends| ==> ends[j] < ends[k])
  {
    hide EndsLeaf;
    if n == 0 {
    } else {
      LeafEndsAreAll(es, slots, n - 1);
    }
  }

  /** A report belongs to the leaf call that ends at j. */
  ghost predicate Reports<K>(es: seq<Event<K>>, j: nat, r: Report<K>)
    requires EndsLeaf(es, j)
  {
    var i := EntryOf(es, j);
    r.key == es[j].key && r.op == es[j].op && es[i].time <= es[j].time && r.dur == es[j].time - es[i].time
  }

  /** The k-th report belongs to the k-th leaf call. */
  ghost predicate OneByOne<K>(es: seq<Event<K>>, ends: seq<nat>, reports: seq<Report<K>>)
  {
    && |reports| == |ends|
    && forall k :: 0 <= k < |ends| ==> EndsLeaf(es, ends[k]) && Reports(es, ends[k], reports[k])
  }

  lemma {:induction false} LeafCallsOneByOne<K>(es: seq<Event<K>>, slots: seq<bool>, n: nat)
    requires WellNested(es) && Monotone(es) && n <= |es| == |slots|
    ensures OneByOne(es, LeafEnds(es, slots, n), LeafCalls(es, slots, n))
  {
    hide WellNested, Monotone, LeafReport, EndsLeaf, Reports, OneByOne;
    if n == 0 {
      NoneByNone(es);
    } else {
      LeafCallsOneByOne(es, slots, n - 1);
      OneLeafReport(es, n - 1);
      var ends := if EndsLeaf(es, n - 1) && slots[n - 1] then [n - 1] else [];
      var reports := if slots[n - 1] then LeafReport(es, n - 1) else [];
      OneMore(es, LeafEnds(es, slots, n - 1), LeafCalls(es, slots, n - 1), ends, reports);
    }
  }

  lemma NoneByNone<K>(es: seq<Event<K>>)
    ensures OneByOne(es, [], [])
  {}

  lemma OneMore<K>(es: seq<Event<K>>, ends: seq<nat>, reports: seq<Report<K>>, end: seq<nat>, report: seq<Report<K>>)
    requires OneByOne(es, ends, reports)
    requires |end| == |report| <= 1
    requires end != [] ==> EndsLeaf(es, end[0]) && Reports(es, end[0], report[0])
    ensures OneByOne(es, ends + end, reports + report)
  {
    hide EndsLeaf, Reports;
  }

  lemma OneLeafReport<K>(es: seq<Event<K>>, j: nat)
    requires WellNested(es) && Monotone(es) && j < |es|
    ensures |LeafReport(es, j)| == if EndsLeaf(es, j) then 1 else 0
    ensures EndsLeaf(es, j) ==> Reports(es, j, LeafReport(es, j)[0])
  {
    if es[j].Return? {
      assert Closes(es, j);
    }
    hide Closes, Leaf, EntryOf;
  }

  // ----- funclatency -----------------------------------------------------------------------

  datatype LatEvent = LatEvent(pid: nat, deltaNs: nat)

  function LatEvents(rs: seq<Report<nat>>): seq<LatEvent>
  {
    seq(|rs|, k requires 0 <= k < |rs| => LatEvent(rs[k].key / 0x1_0000_0000, rs[k].dur))
  }

  /**
   funclatency's events are the leaf calls that found room in the ring, in order: each has
   the time from its call's entry to its return, and the process of its thread.
   */
  lemma EventsAreLeafCalls(start: map<nat, nat>, log: Log<nat>, events: seq<LatEvent>)
    requires Follows(8192, start, log) && events == LatEvents(log.reports)
    requires WellNested(log.trace) && Monotone(log.trace) && NeverFull(8192, log.trace)
    ensures var es, ends := log.trace, LeafEnds(log.trace, log.slots, |log.trace|);
            && |events| == |ends|
            && forall k :: 0 <= k < |ends| ==>
                 var j := ends[k];
                 var i := EntryOf(es, j);
                 && events[k].deltaNs == es[j].time - es[i].time
                 && events[k].pid * 0x1_0000_0000 <= es[j].key < (events[k].pid + 1) * 0x1_0000_0000
  {
    hide Follows, WellNested, Monotone, NeverFull, LeafCalls, EndsLeaf, EntryOf, Closes;
    FollowsSlots(8192, start, log);
    ReportsAreLeafCalls(8192, start, log);
    LeafCallsOneByOne(log.trace, log.slots, |log.trace|);
  }

  lemma FollowsSlots<K>(capacity: nat, start: map<K, nat>, log: Log<K>)
    requires Follows(capacity, start, log)
    ensures |log.slots| == |log.trace|
  {}

  class FuncLatency {
    var start: map<nat, nat>
    var events: seq<LatEvent>
    ghost var log: Log<nat>

    ghost predicate Valid()
      reads this
    {
      Follows(8192, start, log) && events == LatEvents(log.reports)
    }

    constructor ()
      ensures Valid() && log.trace == []
    {
      start, events, log := map[], [], Log([], [], []);
    }

    method FnEnter(id: nat, now: nat)
      requires Valid()
      modifies this
      ensures Valid() && log == LogEnter(old(log), id, 0, now)
      ensures start == if id in old(start) || |old(start)| < 8192 then old(start)[id := now] else old(start)
      ensures events == old(events)
    {
      hide Follows;
      FollowsEnter(8192, start, log, id, 0, now);
      start := BpfMap.Insert(start, 8192, id, now);
      log := LogEnter(log, id, 0, now);
    }

    method FnExit(id: nat, now: nat, slot: bool)
      requires Valid()
      modifies this
      ensures Valid() && log == LogReturn(old(log), old(start), id, 0, now, slot)
      ensures start == old(start) - {id}
      ensures id !in old(start) || !slot ==> events == old(events)
      ensures id in old(start) && slot ==>
                && |events| == |old(events)| + 1 && events[..|old(events)|] == old(events)
                && var e := events[|old(events)|];
                   && e.pid * 0x1_0000_0000 <= id < (e.pid + 1) * 0x1_0000_0000
                   && e.deltaNs == if old(start)[id] <= now then now - old(start)[id] else 0
    {
      hide Follows;
      FollowsReturn(8192, start, log, id, 0, now, slot);
      log := LogReturn(log, start, id, 0, now, slot);
      if id !in start {
        return;
      }
      var began := start[id];
      start := BpfMap.Remove(start, id);
      var delta := SaturatingSub(now, began);
      if slot {
        events := events + [LatEvent(id / 0x1_0000_0000, delta)];
      }
    }
  }

  // ----- he-observer -----------------------------------------------------------------------

  datatype Sample = Sample(op: nat, durNs: nat)

  function HeSamples(rs: seq<Report<nat>>): seq<Sample>
  {
    seq(|rs|, k requires 0 <= k < |rs| => Sample(rs[k].op, rs[k].dur))
  }

  /** he-observer's samples likewise, each with the operation whose return probe was hit. */
  lemma SamplesAreLeafCalls(start: map<nat, nat>, log: Log<nat>, events: seq<Sample>)
    requires Follows(1024, start, log) && events == HeSamples(log.reports)
    requires WellNested(log.trace) && Monotone(log.trace) && NeverFull(1024, log.trace)
    ensures var es, ends := log.trace, LeafEnds(log.trace, log.slots, |log.trace|);
            && |events| == |ends|
            && forall k :: 0 <= k < |ends| ==>
                 var j := ends[k];
                 var i := EntryOf(es, j);
                 events[k].op == es[j].op && events[k].op == es[i].op && events[k].durNs == es[j].time - es[i].time
  {
    hide Follows, WellNested, Monotone, NeverFull, LeafCalls, EndsLeaf, EntryOf, Closes;
    FollowsSlots(1024, start, log);
    ReportsAreLeafCalls(1024, start, log);
    LeafCallsOneByOne(log.trace, log.slots, |log.trace|);
  }

  /** One entry probe for all operations, one return probe per operation. */
  class HeObserver {
    var start: map<nat, nat>
    var events: seq<Sample>
    ghost var log: Log<nat>

    ghost predicate Valid()
      reads this
    {
      Follows(1024, start, log) && events == HeSamples(log.reports)
    }

    constructor ()
      ensures Valid() && log.trace == []
    {
      start, events, log := map[], [], Log([], [], []);
    }

    /** `op` is the operation entered; the probe itself cannot tell which one it is. */
    method OnEntry(id: nat, ghost op: nat, now: nat)
      requires Valid()
      modifies this
      ensures Valid() && log == LogEnter(old(log), id, op, now)
      ensures start == if id in old(start) || |old(start)| < 1024 then old(start)[id := now] else old(start)
      ensures events == old(events)
    {
      hide Follows;
      FollowsEnter(1024, start, log, id, op, now);
      start := BpfMap.Insert(start, 1024, id, now);
      log := LogEnter(log, id, op, now);
    }

    method OnReturn(id: nat, op: nat, now: nat, slot: bool)
      requires Valid()
      modifies this
      ensures Valid() && log == LogReturn(old(log), old(start), id, op, now, slot)
      ensures start == old(start) - {id}
      ensures id !in old(start) || !slot ==> events == old(events)
      ensures id in old(start) && slot ==>
                && |events| == |old(events)| + 1 && events[..|old(events)|] == old(events)
                && events[|old(events)|].op == op
                && events[|old(events)|].durNs == if old(start)[id] <= now then now - old(start)[id] else 0
    {
      hide Follows;
      FollowsReturn(1024, start, log, id, op, now, slot);
      log := LogReturn(log, start, id, op, now, slot);
      if id in start {
        var dur := SaturatingSub(now, start[id]);
        if slot {
          events := events + [Sample(op, dur)];
        }
        start := BpfMap.Remove(start, id);
      }
    }
  }

  // ----- pg-probe --------------------------------------------------------------------------

  const KIND_QUERY: nat := 0
  const KIND_LOCK: nat := 1

  datatype PgEvent = PgEvent(kind: nat, pid: nat, durNs: nat, query: Option<seq<nat>>)

  /** Process and duration of the events of one kind. */
  function OfKind(events: seq<PgEvent>, kind: nat): seq<(nat, nat)>
  {
    if events == [] then []
    else
      var e := events[|events| - 1];
      OfKind(events[..|events| - 1], kind) + (if e.kind == kind then [(e.pid, e.durNs)] else [])
  }

  /** Process and duration of the reports of one pairing. */
  function Timings(rs: seq<Report<nat>>): seq<(nat, nat)>
  {
    if rs == [] then []
    else
      var r := rs[|rs| - 1];
      Timings(rs[..|rs| - 1]) + [(r.key / 0x1_0000_0000, r.dur)]
  }

  lemma OfKindAppend(events: seq<PgEvent>, e: PgEvent, kind: nat)
    ensures OfKind(events + [e], kind) ==
            if e.kind == kind then OfKind(events, kind) + [(e.pid, e.durNs)] else OfKind(events, kind)
  {
    assert (events + [e])[..|events|] == events;
    assert OfKind(events, kind) + [] == OfKind(events, kind);
  }

  /** The events of a kind are the reports of its pairing. */
  ghost predicate Shows(events: seq<PgEvent>, kind: nat, log: Log<nat>)
  {
    OfKind(events, kind) == Timings(log.reports)
  }

  /** The event list after a return that reports unless the call took no time. */
  function Emitted(events: seq<PgEvent>, kind: nat, start: map<nat, nat>, id: nat, now: nat,
                   text: Option<seq<nat>>, room: bool): seq<PgEvent>
  {
    if id in start && start[id] < now && room
    then events + [PgEvent(kind, id / 0x1_0000_0000, now - start[id], text)]
    else events
  }

  function Reportable(start: map<nat, nat>, id: nat, now: nat, room: bool): bool
  {
    room && id in start && start[id] < now
  }

  lemma EmittedShows(events: seq<PgEvent>, kind: nat, start: map<nat, nat>, log: Log<nat>, other: Log<nat>,
                     id: nat, op: nat, now: nat, text: Option<seq<nat>>, room: bool)
    requires kind <= 1 && Shows(events, kind, log) && Shows(events, 1 - kind, other)
    ensures var events' := Emitted(events, kind, start, id, now, text, room);
            && Shows(events', kind, LogReturn(log, start, id, op, now, Reportable(start, id, now, room)))
            && Shows(events', 1 - kind, other)
  {
    if Reportable(start, id, now, room) {
      var e := PgEvent(kind, id / 0x1_0000_0000, now - start[id], text);
      var r := Report(id, op, now - start[id]);
      OfKindAppend(events, e, kind);
      OfKindAppend(events, e, 1 - kind);
      TimingsAppend(log.reports, r);
      hide OfKind, Timings;
    }
  }

  lemma TimingsAppend(rs: seq<Report<nat>>, r: Report<nat>)
    ensures Timings(rs + [r]) == Timings(rs) + [(r.key / 0x1_0000_0000, r.dur)]
  {
    assert (rs + [r])[..|rs|] == rs;
  }

  /**
   The text a query report carries: that of the latest start with a non-null pointer since
   the thread's last return.
   */
  function LatestText(es: seq<Event<nat>>, texts: seq<Option<seq<nat>>>, id: nat): Option<seq<nat>>
    requires |texts| == |es|
  {
    if es == [] then None
    else
      var n := |es| - 1;
      if es[n].key != id then LatestText(es[..n], texts[..n], id)
      else if es[n].Return? then None
      else if texts[n].Some? then texts[n]
      else LatestText(es[..n], texts[..n], id)
  }

  ghost predicate TextsKept(es: seq<Event<nat>>, texts: seq<Option<seq<nat>>>, qtext: map<nat, seq<nat>>)
    requires |texts| == |es|
  {
    forall id: nat :: LatestText(es, texts, id) == if id in qtext then Some(qtext[id]) else None
  }

  lemma LatestTextAppend(es: seq<Event<nat>>, texts: seq<Option<seq<nat>>>, e: Event<nat>, t: Option<seq<nat>>, id: nat)
    requires |texts| == |es|
    ensures LatestText(es + [e], texts + [t], id) ==
            if e.key != id then LatestText(es, texts, id)
            else if e.Return? then None
            else if t.Some? then t
            else LatestText(es, texts, id)
  {
    assert (es + [e])[..|es|] == es && (texts + [t])[..|texts|] == texts;
  }

  /** A thread whose last event is not an entry has no text waiting. */
  lemma NoEntryNoText(es: seq<Event<nat>>, texts: seq<Option<seq<nat>>>, id: nat)
    requires |texts| == |es|
    ensures (var last := Last(es, id); last.None? || es[last.value].Return?) ==> LatestText(es, texts, id).None?
  {}

  lemma TextStep(es: seq<Event<nat>>, texts: seq<Option<seq<nat>>>, qtext: map<nat, seq<nat>>,
                 start: map<nat, nat>, e: Event<nat>, t: Option<seq<nat>>)
    requires |texts| == |es| && TextsKept(es, texts, qtext)
    requires StashesAreLast(es, start) && StashesAreAll(es, start)
    requires |Open(es + [e])| <= 4096 && (e.Return? ==> t.None?)
    ensures TextsKept(es + [e], texts + [t],
                      if e.Enter? then (if t.Some? then BpfMap.Insert(qtext, 4096, e.key, t.value) else qtext)
                      else if e.key in start then BpfMap.Remove(qtext, e.key) else qtext)
  {
    var es', texts' := es + [e], texts + [t];
    var qtext' := if e.Enter? then (if t.Some? then BpfMap.Insert(qtext, 4096, e.key, t.value) else qtext)
                  else if e.key in start then BpfMap.Remove(qtext, e.key) else qtext;
    if t.Some? {
      TextHasRoom(es, texts, qtext, start, e, t.value);
    }
    NoEntryNoText(es, texts, e.key);
    LastEvent(es, start, e);
    hide LatestText, Open, Last, StashesAreLast, StashesAreAll;
    forall id: nat
      ensures LatestText(es', texts', id) == if id in qtext' then Some(qtext'[id]) else None
    {
      LatestTextAppend(es, texts, e, t, id);
    }
  }

  /** A waiting text belongs to a waiting query. */
  lemma TextHasRoom(es: seq<Event<nat>>, texts: seq<Option<seq<nat>>>, qtext: map<nat, seq<nat>>,
                    start: map<nat, nat>, e: Event<nat>, text: seq<nat>)
    requires |texts| == |es| && TextsKept(es, texts, qtext) && e.Enter?
    requires StashesAreLast(es, start) && StashesAreAll(es, start) && |Open(es + [e])| <= 4096
    ensures BpfMap.Insert(qtext, 4096, e.key, text) == qtext[e.key := text]
  {
    hide LatestText;
    forall id | id in qtext.Keys
      ensures id in start
    {
      NoEntryNoText(es, texts, id);
    }
    StashesAreOpen(es, e, start);
    hide Open, Last;
    BpfMap.InsertHasRoom(qtext, 4096, e.key, text, Open(es + [e]));
  }

  /** Without a stash the thread's last event was not an entry. */
  lemma LastEvent(es: seq<Event<nat>>, start: map<nat, nat>, e: Event<nat>)
    requires StashesAreAll(es, start)
    ensures e.key !in start ==> var last := Last(es, e.key); last.None? || es[last.value].Return?
  {
    hide Last;
    LastIsLatest(es, e.key);
  }

  function WaitingText(qtext: map<nat, seq<nat>>, id: nat): Option<seq<nat>>
  {
    if id in qtext then Some(qtext[id]) else None
  }

  ghost predicate TextsOk(es: seq<Event<nat>>, texts: seq<Option<seq<nat>>>, qtext: map<nat, seq<nat>>)
  {
    |texts| == |es| && (NeverFull(4096, es) ==> TextsKept(es, texts, qtext))
  }

  /** While the maps never fill, a query report carries `LatestText`. */
  lemma WaitingIsLatest(es: seq<Event<nat>>, texts: seq<Option<seq<nat>>>, qtext: map<nat, seq<nat>>, id: nat)
    requires TextsOk(es, texts, qtext) && NeverFull(4096, es)
    ensures WaitingText(qtext, id) == LatestText(es, texts, id)
  {
    hide NeverFull, LatestText;
  }

  lemma SameReports(events: seq<PgEvent>, log: Log<nat>, id: nat, now: nat)
    requires Shows(events, KIND_QUERY, log)
    ensures Shows(events, KIND_QUERY, LogEnter(log, id, 0, now))
  {}

  lemma QueryTexts(start: map<nat, nat>, log: Log<nat>, texts: seq<Option<seq<nat>>>, qtext: map<nat, seq<nat>>,
                   e: Event<nat>, t: Option<seq<nat>>)
    requires Follows(4096, start, log) && TextsOk(log.trace, texts, qtext) && (e.Return? ==> t.None?)
    ensures TextsOk(log.trace + [e], texts + [t],
                    if e.Enter? then (if t.Some? then BpfMap.Insert(qtext, 4096, e.key, t.value) else qtext)
                    else if e.key in start then BpfMap.Remove(qtext, e.key) else qtext)
  {
    var es := log.trace;
    RunStashes(4096, es, log.slots);
    assert (es + [e])[..|es|] == es;
    hide Open, TextsKept, Run;
    if NeverFull(4096, es + [e]) {
      NeverFullPrefix(4096, es + [e], |es|);
      assert (es + [e])[..|es + [e]|] == es + [e];
      TextStep(es, texts, qtext, start, e, t);
    }
  }

  /**
   A report due for a query carries that query's own text exactly when its start had a
   non-null pointer or no earlier, unfinished start of the thread left one behind.
   */
  lemma OwnText(es: seq<Event<nat>>, texts: seq<Option<seq<nat>>>, j: nat)
    requires |texts| == |es| && j < |es|
    requires var last := Last(es[..j], es[j].key); last.Some? && es[last.value].Enter?
    ensures var i := Last(es[..j], es[j].key).value;
            LatestText(es[..j], texts[..j], es[j].key) == texts[i] <==>
            texts[i].Some? || LatestText(es[..i], texts[..i], es[j].key).None?
  {
    SkipToLast(es[..j], texts[..j], es[j].key);
    var i := Last(es[..j], es[j].key).value;
    assert es[..j][..i] == es[..i] && texts[..j][..i] == texts[..i];
  }

  lemma {:induction false} SkipToLast(es: seq<Event<nat>>, texts: seq<Option<seq<nat>>>, id: nat)
    requires |texts| == |es|
    requires Last(es, id).Some? && es[Last(es, id).value].Enter?
    ensures var i := Last(es, id).value;
            LatestText(es, texts, id) ==
            if texts[i].Some? then texts[i] else LatestText(es[..i], texts[..i], id)
  {
    var n := |es| - 1;
    if es[n].key == id {
    } else {
      SkipToLast(es[..n], texts[..n], id);
      var i := Last(es, id).value;
      assert es[..n][..i] == es[..i] && texts[..n][..i] == texts[..i];
    }
  }

  /**
   Queries and lock waits, timed through separate maps: a lock wait inside a query does
   not disturb the query, and the reports of each kind are those of its own trace.
   */
  class PgProbe {
    var qstart: map<nat, nat>
    var qtext: map<nat, seq<nat>>
    var lstart: map<nat, nat>
    var events: seq<PgEvent>
    ghost var queries: Log<nat>
    ghost var texts: seq<Option<seq<nat>>>
    ghost var locks: Log<nat>

    ghost predicate Valid()
      reads this
    {
      && Follows(4096, qstart, queries) && Follows(4096, lstart, locks)
      && Shows(events, KIND_QUERY, queries) && Shows(events, KIND_LOCK, locks)
      && TextsOk(queries.trace, texts, qtext)
    }

    constructor ()
      ensures Valid() && queries.trace == [] && locks.trace == []
    {
      qstart, qtext, lstart, events := map[], map[], map[], [];
      queries, texts, locks := Log([], [], []), [], Log([], [], []);
    }

    method QStart(id: nat, text: Option<seq<nat>>, now: nat)
      requires Valid()
      modifies this
      ensures Valid()
      ensures queries == LogEnter(old(queries), id, 0, now) && texts == old(texts) + [text]
      ensures events == old(events) && locks == old(locks)
      ensures qstart == if id in old(qstart) || |old(qstart)| < 4096 then old(qstart)[id := now] else old(qstart)
      ensures qtext == if text.Some? && (id in old(qtext) || |old(qtext)| < 4096)
                       then old(qtext)[id := text.value] else old(qtext)
    {
      hide Follows, Shows, TextsOk;
      QueryTexts(qstart, queries, texts, qtext, Enter(id, 0, now), text);
      FollowsEnter(4096, qstart, queries, id, 0, now);
      SameReports(events, queries, id, now);
      if text.Some? {
        qtext := BpfMap.Insert(qtext, 4096, id, text.value);
      }
      qstart := BpfMap.Insert(qstart, 4096, id, now);
      queries, texts := LogEnter(queries, id, 0, now), texts + [text];
    }

    /** A query that took no measurable time is not reported. */
    method QDone(id: nat, now: nat, room: bool)
      requires Valid()
      modifies this
      ensures Valid()
      ensures queries == LogReturn(old(queries), old(qstart), id, 0, now, Reportable(old(qstart), id, now, room))
      ensures texts == old(texts) + [None] && locks == old(locks)
      ensures events == Emitted(old(events), KIND_QUERY, old(qstart), id, now, WaitingText(old(qtext), id), room)
      ensures qstart == old(qstart) - {id}
      ensures qtext == if id in old(qstart) then old(qtext) - {id} else old(qtext)
      ensures !(room && id in old(qstart) && old(qstart)[id] < now) ==> events == old(events)
      ensures room && id in old(qstart) && old(qstart)[id] < now ==>
                && |events| == |old(events)| + 1 && events[..|old(events)|] == old(events)
                && var e := events[|old(events)|];
                   && e.kind == 0 && e.durNs == now - old(qstart)[id]
                   && e.pid * 0x1_0000_0000 <= id < (e.pid + 1) * 0x1_0000_0000
                   && e.query == if id in old(qtext) then Some(old(qtext)[id]) else None
    {
      hide Follows, Shows, TextsOk;
      QueryTexts(qstart, queries, texts, qtext, Return(id, 0, now), None);
      FollowsReturn(4096, qstart, queries, id, 0, now, Reportable(qstart, id, now, room));
      EmittedShows(events, KIND_QUERY, qstart, queries, locks, id, 0, now, WaitingText(qtext, id), room);
      assert LogReturn(queries, qstart, id, 0, now, Reportable(qstart, id, now, room)).trace
          == queries.trace + [Return(id, 0, now)];
      hide LogReturn, WaitingText, BpfMap.Remove;
      queries := LogReturn(queries, qstart, id, 0, now, Reportable(qstart, id, now, room));
      texts := texts + [None];
      if id in qstart {
        var began := qstart[id];
        var text := WaitingText(qtext, id);
        if began < now && room {
          events := events + [PgEvent(KIND_QUERY, id / 0x1_0000_0000, now - began, text)];
        }
        qstart := BpfMap.Remove(qstart, id);
        qtext := BpfMap.Remove(qtext, id);
      }
    }

    method LStart(id: nat, now: nat)
      requires Valid()
      modifies this`lstart, this`locks
      ensures Valid() && locks == LogEnter(old(locks), id, 1, now)
      ensures lstart == if id in old(lstart) || |old(lstart)| < 4096 then old(lstart)[id := now] else old(lstart)
    {
      hide Follows, TextsOk;
      FollowsEnter(4096, lstart, locks, id, 1, now);
      lstart := BpfMap.Insert(lstart, 4096, id, now);
      locks := LogEnter(locks, id, 1, now);
    }

    method LDone(id: nat, now: nat, room: bool)
      requires Valid()
      modifies this`lstart, this`events, this`locks
      ensures Valid()
      ensures locks == LogReturn(old(locks), old(lstart), id, 1, now, Reportable(old(lstart), id, now, room))
      ensures events == Emitted(old(events), KIND_LOCK, old(lstart), id, now, None, room)
      ensures lstart == old(lstart) - {id}
      ensures !(room && id in old(lstart) && old(lstart)[id] < now) ==> events == old(events)
      ensures room && id in old(lstart) && old(lstart)[id] < now ==>
                && |events| == |old(events)| + 1 && events[..|old(events)|] == old(events)
                && var e := events[|old(events)|];
                   && e.kind == 1 && e.durNs == now - old(lstart)[id]
                   && e.pid * 0x1_0000_0000 <= id < (e.pid + 1) * 0x1_0000_0000
                   && e.query == None
    {
      hide Follows, Shows, TextsOk;
      FollowsReturn(4096, lstart, locks, id, 1, now, Reportable(lstart, id, now, room));
      EmittedShows(events, KIND_LOCK, lstart, locks, queries, id, 1, now, None, room);
      locks := LogReturn(locks, lstart, id, 1, now, Reportable(lstart, id, now, room));
      if id in lstart {
        var began := lstart[id];
        if began < now && room {
          events := events + [PgEvent(KIND_LOCK, id / 0x1_0000_0000, now - began, None)];
        }
        lstart := BpfMap.Remove(lstart, id);
      }
    }
  }
}

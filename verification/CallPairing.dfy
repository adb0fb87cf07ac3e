/**
 Entry and return probes that meet in one map keyed by thread. The reference is the
 call trace itself: which calls of a nested, multi-threaded trace get reported, and with
 what duration, is stated on per-thread call stacks, without the map.
 */
module CallPairing {
  import opened Wrappers
  import opened Modular
  import BpfMap

  /** One probe hit: the thread, the function probed and the clock. */
  datatype Event<K> =
    | Enter(key: K, op: nat, time: nat)
    | Return(key: K, op: nat, time: nat)

  datatype Report<K> = Report(key: K, op: nat, dur: nat)

  datatype State<K> = State(start: map<K, nat>, out: seq<Report<K>>)

  /** Entry stashes the clock; return takes the stash and, if `slot` allows, reports. */
  function Step<K(==)>(capacity: nat, s: State<K>, e: Event<K>, slot: bool): State<K>
  {
    match e
    case Enter(key, _, time) =>
      s.(start := BpfMap.Insert(s.start, capacity, key, time))
    case Return(key, op, time) =>
      if key !in s.start then s
      else State(BpfMap.Remove(s.start, key),
                 s.out + if slot then [Report(key, op, SaturatingSub(time, s.start[key]))] else [])
  }

  function Run<K(==)>(capacity: nat, es: seq<Event<K>>, slots: seq<bool>): State<K>
    requires |slots| == |es|
  {
    if es == [] then State(map[], [])
    else
      var n := |es| - 1;
      Step(capacity, Run(capacity, es[..n], slots[..n]), es[n], slots[n])
  }

  /** The clock never runs backwards. */
  ghost predicate Monotone<K>(es: seq<Event<K>>)
  {
    forall i, j :: 0 <= i < j < |es| ==> es[i].time <= es[j].time
  }

  // ----- the reference ---------------------------------------------------------------------

  /** The latest event of a thread. */
  function Last<K(==)>(es: seq<Event<K>>, key: K): (r: Option<nat>)
    ensures r.Some? ==> r.value < |es| && es[r.value].key == key
    ensures r.Some? ==> forall k :: r.value < k < |es| ==> es[k].key != key
    ensures r.None? ==> forall k :: 0 <= k < |es| ==> es[k].key != key
  {
    if es == [] then None
    else
      var n := |es| - 1;
      if es[n].key == key then Some(n) else Last(es[..n], key)
  }

  /** The open calls of a thread, outermost first, as indices of their entries. */
  function Stack<K(==)>(es: seq<Event<K>>, key: K): (st: seq<nat>)
    ensures forall k :: 0 <= k < |st| ==> st[k] < |es| && es[st[k]].Enter? && es[st[k]].key == key
    ensures forall j, k :: 0 <= j < k < |st| ==> st[j] < st[k]
  {
    if es == [] then []
    else
      var n := |es| - 1;
      var st := Stack(es[..n], key);
      if es[n].key != key then st
      else if es[n].Enter? then st + [n]
      else if st == [] then st
      else st[..|st| - 1]
  }

  /** Each return closes an open call of the same function on its thread. */
  ghost predicate WellNested<K>(es: seq<Event<K>>)
  {
    forall j :: 0 <= j < |es| && es[j].Return? ==> Closes(es, j)
  }

  predicate Closes<K(==)>(es: seq<Event<K>>, j: nat)
    requires j < |es|
  {
    var st := Stack(es[..j], es[j].key);
    st != [] && es[st[|st| - 1]].op == es[j].op
  }

  /** The entry of the call that the return at j closes. */
  function EntryOf<K(==)>(es: seq<Event<K>>, j: nat): (i: nat)
    requires j < |es| && Closes(es, j)
    ensures i < j && es[i].Enter? && es[i].key == es[j].key && es[i].op == es[j].op
  {
    var st := Stack(es[..j], es[j].key);
    st[|st| - 1]
  }

  /** No probed call is nested inside the call from i to j. */
  predicate Leaf<K(==)>(es: seq<Event<K>>, i: nat, j: nat)
    requires i < j < |es|
  {
    forall k :: i < k < j && es[k].key == es[i].key ==> !es[k].Enter?
  }

  /** The report a leaf call deserves at its return j. */
  ghost function LeafReport<K>(es: seq<Event<K>>, j: nat): seq<Report<K>>
    requires WellNested(es) && Monotone(es) && j < |es|
  {
    if es[j].Enter? then []
    else
      assert Closes(es, j);
      var i := EntryOf(es, j);
      if Leaf(es, i, j) then [Report(es[i].key, es[i].op, es[j].time - es[i].time)] else []
  }

  /** The leaf calls among the first n events, in order of return, where `slots` allow. */
  ghost function LeafCalls<K>(es: seq<Event<K>>, slots: seq<bool>, n: nat): seq<Report<K>>
    requires WellNested(es) && Monotone(es) && n <= |es| == |slots|
  {
    if n == 0 then []
    else LeafCalls(es, slots, n - 1) + (if slots[n - 1] then LeafReport(es, n - 1) else [])
  }

  // ----- what the map holds ----------------------------------------------------------------

  /** Every stash is the time of its thread's latest event, which is an entry. */
  ghost predicate StashesAreLast<K>(es: seq<Event<K>>, start: map<K, nat>)
  {
    forall key :: key in start ==>
      Last(es, key).Some? && es[Last(es, key).value].Enter? && start[key] == es[Last(es, key).value].time
  }

  /** And no thread in that position is missing. */
  ghost predicate StashesAreAll<K>(es: seq<Event<K>>, start: map<K, nat>)
  {
    forall i :: 0 <= i < |es| && es[i].Enter? && Last(es, es[i].key) == Some(i) ==> es[i].key in start
  }

  /** The threads whose latest event is an entry: those with a call waiting to return. */
  ghost function Open<K>(es: seq<Event<K>>): set<K>
  {
    set i | 0 <= i < |es| && es[i].Enter? && Last(es, es[i].key) == Some(i) :: es[i].key
  }

  /** At no time do more threads wait than the map holds, however many come and go. */
  ghost predicate NeverFull<K>(capacity: nat, es: seq<Event<K>>)
  {
    forall n :: 0 <= n <= |es| ==> |Open(es[..n])| <= capacity
  }

  lemma NeverFullPrefix<K>(capacity: nat, es: seq<Event<K>>, m: nat)
    requires NeverFull(capacity, es) && m <= |es|
    ensures NeverFull(capacity, es[..m])
  {
    hide Open;
    forall n | 0 <= n <= m
      ensures |Open(es[..m][..n])| <= capacity
    {
      assert es[..m][..n] == es[..n];
    }
  }

  lemma LastAppend<K>(es: seq<Event<K>>, e: Event<K>, key: K)
    ensures Last(es + [e], key) == if e.key == key then Some(|es|) else Last(es, key)
  {
    assert (es + [e])[..|es|] == es;
  }

  /** After an entry, the stashes and the new one belong to waiting threads. */
  lemma StashesAreOpen<K>(es: seq<Event<K>>, e: Event<K>, start: map<K, nat>)
    requires StashesAreLast(es, start) && e.Enter?
    ensures start.Keys + {e.key} <= Open(es + [e])
  {
    var es' := es + [e];
    hide Last;
    forall key | key in start.Keys + {e.key}
      ensures key in Open(es')
    {
      LastAppend(es, e, key);
      var i := if key == e.key then |es| else Last(es, key).value;
      LastIsLatest(es, key);
      assert es'[i].key == key && es'[i].Enter?;
    }
  }

  lemma StepKeepsStashes<K>(capacity: nat, es: seq<Event<K>>, e: Event<K>, s: State<K>, slot: bool)
    requires StashesAreLast(es, s.start)
    ensures StashesAreLast(es + [e], Step(capacity, s, e, slot).start)
    ensures |Open(es + [e])| <= capacity && StashesAreAll(es, s.start) ==>
              StashesAreAll(es + [e], Step(capacity, s, e, slot).start)
  {
    var es', start' := es + [e], Step(capacity, s, e, slot).start;
    hide Last, Open;
    forall key | key in start'
      ensures Last(es', key).Some? && es'[Last(es', key).value].Enter? && start'[key] == es'[Last(es', key).value].time
    {
      LastAppend(es, e, key);
    }
    if |Open(es')| <= capacity && StashesAreAll(es, s.start) {
      if e.Enter? {
        StashesAreOpen(es, e, s.start);
        BpfMap.InsertHasRoom(s.start, capacity, e.key, e.time, Open(es'));
      }
      forall i | 0 <= i < |es'| && es'[i].Enter? && Last(es', es'[i].key) == Some(i)
        ensures es'[i].key in start'
      {
        LastAppend(es, e, es'[i].key);
      }
    }
  }

  // ----- any trace: a report is the adjacent entry/return pair of its thread ------------------

  /** The report due for event j: its thread's previous event must be an entry. */
  function Due<K(==)>(es: seq<Event<K>>, j: nat): seq<Report<K>>
    requires j < |es|
  {
    var last := Last(es[..j], es[j].key);
    if es[j].Return? && last.Some? && es[last.value].Enter?
    then [Report(es[j].key, es[j].op, SaturatingSub(es[j].time, es[last.value].time))]
    else []
  }

  function AllDue<K(==)>(es: seq<Event<K>>, slots: seq<bool>, n: nat): seq<Report<K>>
    requires n <= |es| == |slots|
  {
    if n == 0 then [] else AllDue(es, slots, n - 1) + (if slots[n - 1] then Due(es, n - 1) else [])
  }

  predicate Subsequence<T(==)>(a: seq<T>, b: seq<T>)
    decreases |b|
  {
    if a == [] then true
    else if b == [] then false
    else
      (a[|a| - 1] == b[|b| - 1] && Subsequence(a[..|a| - 1], b[..|b| - 1]))
      || Subsequence(a, b[..|b| - 1])
  }

  lemma {:induction false} RunStashes<K>(capacity: nat, es: seq<Event<K>>, slots: seq<bool>)
    requires |slots| == |es|
    ensures StashesAreLast(es, Run(capacity, es, slots).start)
    ensures NeverFull(capacity, es) ==> StashesAreAll(es, Run(capacity, es, slots).start)
  {
    hide StashesAreLast, StashesAreAll, Step, Open;
    if es == [] {
      NoStashes<K>();
    } else {
      var n := |es| - 1;
      RunStashes(capacity, es[..n], slots[..n]);
      if NeverFull(capacity, es) {
        NeverFullPrefix(capacity, es, n);
        assert es[..|es|] == es;
      }
      StepKeepsStashes(capacity, es[..n], es[n], Run(capacity, es[..n], slots[..n]), slots[n]);
      assert es == es[..n] + [es[n]];
    }
  }

  lemma NoStashes<K>()
    ensures StashesAreLast<K>([], map[]) && StashesAreAll<K>([], map[])
  {}

  lemma {:induction false} AllDuePrefix<K>(es: seq<Event<K>>, slots: seq<bool>, m: nat, n: nat)
    requires n <= m <= |es| == |slots|
    ensures AllDue(es[..m], slots[..m], n) == AllDue(es, slots, n)
  {
    hide Due;
    if n == 0 {
    } else {
      AllDuePrefix(es, slots, m, n - 1);
      DuePrefix(es, m, n - 1);
    }
  }

  lemma DuePrefix<K>(es: seq<Event<K>>, m: nat, j: nat)
    requires j < m <= |es|
    ensures Due(es[..m], j) == Due(es, j)
  {
    hide Last;
    assert es[..m][..j] == es[..j];
  }

  /** What one event adds to the output. */
  lemma StepReports<K>(capacity: nat, es: seq<Event<K>>, j: nat, s: State<K>, slot: bool)
    requires j < |es| && StashesAreLast(es[..j], s.start)
    ensures var added := Step(capacity, s, es[j], slot).out;
            && (added == s.out || (slot && added == s.out + Due(es, j)))
            && (StashesAreAll(es[..j], s.start) ==> added == s.out + if slot then Due(es, j) else [])
  {
    var e := es[j];
    var last := Last(es[..j], e.key);
    if e.Return? && e.key !in s.start && StashesAreAll(es[..j], s.start) {
      assert last.Some? ==> !es[..j][last.value].Enter?;
    }
    assert s.out + [] == s.out;
  }

  /** While the map never fills, the output is exactly what is due where slots allow. */
  lemma {:induction false} ReportsAllDue<K>(capacity: nat, es: seq<Event<K>>, slots: seq<bool>)
    requires |slots| == |es| && NeverFull(capacity, es)
    ensures Run(capacity, es, slots).out == AllDue(es, slots, |es|)
  {
    hide Step, Due, Open, StashesAreLast, StashesAreAll;
    if es == [] {
    } else {
      var n := |es| - 1;
      NeverFullPrefix(capacity, es, n);
      ReportsAllDue(capacity, es[..n], slots[..n]);
      RunStashes(capacity, es[..n], slots[..n]);
      AllDuePrefix(es, slots, n, n);
      StepReports(capacity, es, n, Run(capacity, es[..n], slots[..n]), slots[n]);
    }
  }

  lemma {:induction false} SubsequenceRefl<T>(a: seq<T>)
    ensures Subsequence(a, a)
  {
    if a == [] {
    } else {
      SubsequenceRefl(a[..|a| - 1]);
    }
  }

  lemma {:induction false} SubsequenceAppend<T>(a: seq<T>, b: seq<T>, x: seq<T>)
    requires Subsequence(a, b) && |x| <= 1
    ensures Subsequence(a, b + x) && Subsequence(a + x, b + x)
  {
    if x == [] {
      assert b + x == b && a + x == a;
    } else {
      assert (b + x)[..|b + x| - 1] == b && (a + x)[..|a + x| - 1] == a;
    }
  }

  lemma DueLength<K>(es: seq<Event<K>>, j: nat)
    requires j < |es|
    ensures |Due(es, j)| <= 1
  {}

  function Always(n: nat): (slots: seq<bool>)
    ensures |slots| == n && forall k :: 0 <= k < n ==> slots[k]
  {
    seq(n, _ => true)
  }

  /** A full map or a full ring only drops reports; those that remain are due, in order. */
  lemma {:induction false} ReportsOnlyDue<K>(capacity: nat, es: seq<Event<K>>, slots: seq<bool>)
    requires |slots| == |es|
    ensures Subsequence(Run(capacity, es, slots).out, AllDue(es, Always(|es|), |es|))
  {
    hide Step, Due, Open, StashesAreLast, StashesAreAll, Subsequence;
    if es == [] {
      SubsequenceRefl<Report<K>>([]);
    } else {
      var n := |es| - 1;
      var s, all := Run(capacity, es[..n], slots[..n]), AllDue(es, Always(|es|), n);
      ReportsOnlyDue(capacity, es[..n], slots[..n]);
      RunStashes(capacity, es[..n], slots[..n]);
      AllDuePrefix(es, Always(|es|), n, n);
      assert Always(|es|)[..n] == Always(n);
      StepReports(capacity, es, n, s, slots[n]);
      DueLength(es, n);
      SubsequenceAppend(s.out, all, Due(es, n));
    }
  }

  // ----- nested traces: the reports are the leaf calls --------------------------------------

  lemma {:induction false} StackAfterEntry<K>(es: seq<Event<K>>, i: nat, x: nat)
    requires i < x <= |es| && es[i].Enter?
    requires forall k :: i < k < x && es[k].key == es[i].key ==> !es[k].Enter?
    ensures var key := es[i].key;
            var full, st := Stack(es[..i], key) + [i], Stack(es[..x], key);
            && st <= full
            && ((forall k :: i < k < x ==> es[k].key != key) <==> |st| == |full|)
    decreases x
  {
    hide Stack;
    var key := es[i].key;
    StackStep(es, x - 1, key);
    if x <= i + 1 {
    } else {
      StackAfterEntry(es, i, x - 1);
    }
  }

  lemma StackStep<K>(es: seq<Event<K>>, n: nat, key: K)
    requires n < |es|
    ensures var st := Stack(es[..n], key);
            Stack(es[..n + 1], key) ==
            if es[n].key != key then st
            else if es[n].Enter? then st + [n]
            else if st == [] then st
            else st[..|st| - 1]
  {
    assert es[..n + 1][..n] == es[..n];
  }

  /** In a nested trace a return has a report due iff its call is a leaf: that call's. */
  lemma DueIsLeaf<K>(es: seq<Event<K>>, j: nat)
    requires WellNested(es) && Monotone(es) && j < |es| && es[j].Return?
    ensures Due(es, j) == LeafReport(es, j)
  {
    assert Closes(es, j);
    var i, last := EntryOf(es, j), Last(es[..j], es[j].key);
    hide Stack, Last, Leaf, Closes, EntryOf;
    if Leaf(es, i, j) {
      LeafEntryIsLast(es, j);
    }
    if last.Some? && es[last.value].Enter? {
      LastEntryIsTop(es, j);
    }
  }

  lemma LeafEntryIsLast<K>(es: seq<Event<K>>, j: nat)
    requires j < |es| && Closes(es, j) && Leaf(es, EntryOf(es, j), j)
    ensures Last(es[..j], es[j].key) == Some(EntryOf(es, j))
  {
    var key, i := es[j].key, EntryOf(es, j);
    var st := Stack(es[..j], key);
    assert st[|st| - 1] == i;
    hide Stack, Last;
    StackAfterEntry(es, i, j);
    StackBelow(es, i, key);
    LastIs(es[..j], key, i);
  }

  lemma LastEntryIsTop<K>(es: seq<Event<K>>, j: nat)
    requires j < |es| && Closes(es, j)
    requires var last := Last(es[..j], es[j].key); last.Some? && es[last.value].Enter?
    ensures Last(es[..j], es[j].key) == Some(EntryOf(es, j)) && Leaf(es, EntryOf(es, j), j)
  {
    var key := es[j].key;
    var l := Last(es[..j], key).value;
    hide Stack, Last;
    LastIsLatest(es[..j], key);
    StackAfterEntry(es, l, j);
  }

  lemma StackBelow<K>(es: seq<Event<K>>, i: nat, key: K)
    requires i <= |es|
    ensures forall k :: 0 <= k < |Stack(es[..i], key)| ==> Stack(es[..i], key)[k] < i
  {}

  lemma LastIs<K>(es: seq<Event<K>>, key: K, i: nat)
    requires i < |es| && es[i].key == key && forall k :: i < k < |es| ==> es[k].key != key
    ensures Last(es, key) == Some(i)
  {}

  lemma LastIsLatest<K>(es: seq<Event<K>>, key: K)
    ensures Last(es, key).Some? ==>
              && Last(es, key).value < |es| && es[Last(es, key).value].key == key
              && forall k :: Last(es, key).value < k < |es| ==> es[k].key != key
  {}

  lemma {:induction false} AllDueIsLeafCalls<K>(es: seq<Event<K>>, slots: seq<bool>, n: nat)
    requires WellNested(es) && Monotone(es) && n <= |es| == |slots|
    ensures AllDue(es, slots, n) == LeafCalls(es, slots, n)
  {
    if n == 0 {
    } else {
      if es[n - 1].Return? {
        DueIsLeaf(es, n - 1);
      }
      assert Due(es, n - 1) == LeafReport(es, n - 1);
      hide Due, LeafReport, WellNested, Monotone;
      AllDueIsLeafCalls(es, slots, n - 1);
    }
  }

  /**
   Main result. For every interleaving of well-nested threads that never fills the map, the
   reports are the leaf calls in order of return, each with its own tag and duration.
   */
  lemma LeafCallsAreReported<K>(capacity: nat, es: seq<Event<K>>, slots: seq<bool>)
    requires |slots| == |es| && WellNested(es) && Monotone(es) && NeverFull(capacity, es)
    ensures Run(capacity, es, slots).out == LeafCalls(es, slots, |es|)
  {
    ReportsAllDue(capacity, es, slots);
    AllDueIsLeafCalls(es, slots, |es|);
  }

  /** Whatever the capacity and the ring do, no other report and no wrong duration appears. */
  lemma OnlyLeafCallsAreReported<K>(capacity: nat, es: seq<Event<K>>, slots: seq<bool>)
    requires |slots| == |es| && WellNested(es) && Monotone(es)
    ensures Subsequence(Run(capacity, es, slots).out, LeafCalls(es, Always(|es|), |es|))
  {
    ReportsOnlyDue(capacity, es, slots);
    AllDueIsLeafCalls(es, Always(|es|), |es|);
  }
}

/**
 memleak: allocation calls paired with frees. The reference is the trace of calls alone:
 which returned pointers have not been passed to free, and what size each was asked for.
 */
module MemLeak {
  import opened Bits
  import opened Modular
  import BpfMap

  const MAX_CALLS: nat := 10240
  const MAX_ALLOCS: nat := 1_000_000

  /** One point of the traced processes. The last kind carries no probe. */
  datatype Event =
    | Enter(id: u64, size: u64)
    | Return(id: u64, ptr: u64, stack: int)
    | Free(id: u64, ptr: u64)
    | FreeExit(id: u64, ptr: u64)

  datatype AllocInfo = AllocInfo(size: u64, stack: int, pid: nat)

  datatype State = State(sizes: map<u64, u64>, allocs: map<u64, AllocInfo>)

  function PidOf(id: u64): nat
  {
    id / 0x1_0000_0000
  }

  /** Threads of other processes are not watched once a target is set. */
  predicate Watched(target: nat, id: u64)
  {
    target == 0 || PidOf(id) == target
  }

  function Step(target: nat, s: State, e: Event): State
  {
    if !Watched(target, e.id) then s
    else
      match e
      case Enter(id, size) => s.(sizes := BpfMap.Insert(s.sizes, MAX_CALLS, id, size))
      case Return(id, ptr, stack) =>
        if id !in s.sizes then s
        else
          State(BpfMap.Remove(s.sizes, id),
                if ptr == 0 then s.allocs
                else BpfMap.Insert(s.allocs, MAX_ALLOCS, ptr, AllocInfo(s.sizes[id], stack, PidOf(id))))
      case Free(_, ptr) => s.(allocs := if ptr == 0 then s.allocs else BpfMap.Remove(s.allocs, ptr))
      case FreeExit(_, _) => s
  }

  function Run(target: nat, es: seq<Event>): State
  {
    if es == [] then State(map[], map[])
    else Step(target, Run(target, es[..|es| - 1]), es[|es| - 1])
  }

  // ----- the reference ---------------------------------------------------------------------

  /** The call entered at i has not returned, and its thread has entered no other since. */
  ghost predicate Waits(es: seq<Event>, i: nat)
  {
    i < |es| && es[i].Enter? && QuietSince(es, i)
  }

  ghost predicate QuietSince(es: seq<Event>, i: nat)
    requires i < |es|
  {
    forall k :: i < k < |es| && es[k].id == es[i].id ==> !es[k].Enter? && !es[k].Return?
  }

  /** The call entered at i is the one that returns a pointer at j. */
  ghost predicate Allocates(target: nat, es: seq<Event>, i: nat, j: nat)
  {
    && i < j < |es| && es[i].Enter? && es[j].Return? && es[j].ptr != 0
    && es[i].id == es[j].id && Watched(target, es[j].id)
    && Waits(es[..j], i)
  }

  predicate Frees(target: nat, e: Event, ptr: u64)
  {
    e.Free? && e.ptr == ptr && Watched(target, e.id)
  }

  /** The pointer returned at j has not been passed to free since. */
  ghost predicate Outstanding(target: nat, es: seq<Event>, i: nat, j: nat)
  {
    Allocates(target, es, i, j) && UnfreedSince(target, es, j)
  }

  ghost predicate UnfreedSince(target: nat, es: seq<Event>, j: nat)
    requires j < |es| && es[j].Return?
  {
    forall k :: j < k < |es| ==> !Frees(target, es[k], es[j].ptr)
  }

  /** The allocator hands an address out again only after it has been passed to free. */
  ghost predicate ReusedAfterFree(target: nat, es: seq<Event>)
  {
    forall h: nat, i: nat, j: nat, k: nat ::
      Allocates(target, es, h, i) && Allocates(target, es, j, k) && i < k && es[i].ptr == es[k].ptr ==>
        FreedBetween(target, es, i, k)
  }

  ghost predicate FreedBetween(target: nat, es: seq<Event>, i: nat, k: nat)
  {
    i < k < |es| && es[i].Return? && exists f :: i < f < k && Frees(target, es[f], es[i].ptr)
  }

  ghost function Waiting(target: nat, es: seq<Event>): set<u64>
  {
    set i | 0 <= i < |es| && Waits(es, i) && Watched(target, es[i].id) :: es[i].id
  }

  ghost function Live(target: nat, es: seq<Event>): set<u64>
  {
    set j | 0 <= j < |es| && (exists i: nat :: Outstanding(target, es, i, j)) :: es[j].ptr
  }

  /** At no time do the maps fill up. */
  ghost predicate Fits(target: nat, es: seq<Event>)
  {
    forall n :: 0 <= n <= |es| ==> |Waiting(target, es[..n])| <= MAX_CALLS && |Live(target, es[..n])| <= MAX_ALLOCS
  }

  function InfoAt(es: seq<Event>, i: nat, j: nat): AllocInfo
    requires i < |es| && j < |es| && es[i].Enter? && es[j].Return?
  {
    AllocInfo(es[i].size, es[j].stack, PidOf(es[j].id))
  }

  /** Nothing wrong is in the map: each entry is an outstanding pointer with its own call's size and stack. */
  ghost predicate Sound(target: nat, es: seq<Event>, allocs: map<u64, AllocInfo>)
  {
    forall p :: p in allocs ==>
                  exists i: nat, j: nat ::
                    Outstanding(target, es, i, j) && es[j].ptr == p && allocs[p] == InfoAt(es, i, j)
  }

  /** Nothing is missing. */
  ghost predicate Complete(target: nat, es: seq<Event>, allocs: map<u64, AllocInfo>)
  {
    forall i: nat, j: nat :: Outstanding(target, es, i, j) ==> es[j].ptr in allocs
  }

  ghost predicate SizesSound(target: nat, es: seq<Event>, sizes: map<u64, u64>)
  {
    forall id :: id in sizes ==>
                   Watched(target, id) && exists i: nat :: Waits(es, i) && es[i].id == id && sizes[id] == es[i].size
  }

  ghost predicate SizesComplete(target: nat, es: seq<Event>, sizes: map<u64, u64>)
  {
    forall i: nat :: Waits(es, i) && Watched(target, es[i].id) ==> es[i].id in sizes
  }

  // ----- one more event ----------------------------------------------------------------------

  lemma WaitsAppend(es: seq<Event>, e: Event, i: nat)
    ensures i < |es| ==> (Waits(es + [e], i) <==> Waits(es, i) && (e.id == es[i].id ==> !e.Enter? && !e.Return?))
    ensures i == |es| ==> (Waits(es + [e], i) <==> e.Enter?)
  {
    var es' := es + [e];
    if i < |es| && Waits(es', i) {
      forall k | i < k < |es| && es[k].id == es[i].id
        ensures !es[k].Enter? && !es[k].Return?
      {
        assert es'[k] == es[k];
      }
      assert es'[|es|] == e;
    }
  }

  /** Calls of one thread do not wait side by side. */
  lemma OneWaits(es: seq<Event>, i: nat, j: nat)
    requires Waits(es, i) && Waits(es, j) && es[i].id == es[j].id
    ensures i == j
  {}

  lemma AllocatesAppend(target: nat, es: seq<Event>, e: Event, i: nat, j: nat)
    ensures j < |es| ==> (Allocates(target, es + [e], i, j) <==> Allocates(target, es, i, j))
    ensures j == |es| ==> (Allocates(target, es + [e], i, j) <==>
              e.Return? && e.ptr != 0 && Waits(es, i) && es[i].id == e.id && Watched(target, e.id))
  {
    hide QuietSince;
    assert j < |es| ==> (es + [e])[..j] == es[..j];
    assert (es + [e])[..|es|] == es;
  }

  lemma OutstandingAppend(target: nat, es: seq<Event>, e: Event, i: nat, j: nat)
    ensures j < |es| ==> (Outstanding(target, es + [e], i, j) <==>
              Outstanding(target, es, i, j) && !Frees(target, e, es[j].ptr))
    ensures j == |es| ==> (Outstanding(target, es + [e], i, j) <==>
              e.Return? && e.ptr != 0 && Waits(es, i) && es[i].id == e.id && Watched(target, e.id))
  {
    AllocatesAppend(target, es, e, i, j);
    hide QuietSince, Frees;
    var es' := es + [e];
    if j < |es| && Outstanding(target, es', i, j) {
      forall k | j < k < |es|
        ensures !Frees(target, es[k], es[j].ptr)
      {
        assert es'[k] == es[k];
      }
      assert es'[|es|] == e;
    }
  }

  lemma SizesStep(target: nat, es: seq<Event>, s: State, e: Event)
    requires SizesSound(target, es, s.sizes)
    ensures SizesSound(target, es + [e], Step(target, s, e).sizes)
    ensures SizesComplete(target, es, s.sizes) && |Waiting(target, es + [e])| <= MAX_CALLS ==>
              SizesComplete(target, es + [e], Step(target, s, e).sizes)
  {
    var es', sizes' := es + [e], Step(target, s, e).sizes;
    hide QuietSince;
    forall id | id in sizes'
      ensures Watched(target, id) && exists i: nat :: Waits(es', i) && es'[i].id == id && sizes'[id] == es'[i].size
    {
      if e.Enter? && e.id == id && sizes' == s.sizes[id := e.size] {
        WaitsAppend(es, e, |es|);
        assert es'[|es|] == e;
      } else {
        var i: nat :| Waits(es, i) && es[i].id == id && s.sizes[id] == es[i].size;
        WaitsAppend(es, e, i);
        assert es'[i] == es[i];
      }
    }
    if SizesComplete(target, es, s.sizes) && |Waiting(target, es')| <= MAX_CALLS {
      SizesStayComplete(target, es, s, e);
    }
  }

  lemma SizesStayComplete(target: nat, es: seq<Event>, s: State, e: Event)
    requires SizesSound(target, es, s.sizes) && SizesComplete(target, es, s.sizes)
    requires |Waiting(target, es + [e])| <= MAX_CALLS
    ensures SizesComplete(target, es + [e], Step(target, s, e).sizes)
  {
    var es', sizes' := es + [e], Step(target, s, e).sizes;
    if e.Enter? && Watched(target, e.id) {
      RoomForCall(target, es, s, e);
    }
    hide QuietSince;
    forall i: nat | Waits(es', i) && Watched(target, es'[i].id)
      ensures es'[i].id in sizes'
    {
      WaitsAppend(es, e, i);
      if i < |es| {
        assert es'[i] == es[i];
      }
    }
  }

  lemma RoomForCall(target: nat, es: seq<Event>, s: State, e: Event)
    requires SizesSound(target, es, s.sizes) && e.Enter? && Watched(target, e.id)
    requires |Waiting(target, es + [e])| <= MAX_CALLS
    ensures BpfMap.Insert(s.sizes, MAX_CALLS, e.id, e.size) == s.sizes[e.id := e.size]
  {
    var es' := es + [e];
    hide QuietSince;
    forall id | id in s.sizes.Keys + {e.id}
      ensures id in Waiting(target, es')
    {
      if id == e.id {
        WaitsAppend(es, e, |es|);
        assert es'[|es|] == e;
      } else {
        var i: nat :| Waits(es, i) && es[i].id == id && s.sizes[id] == es[i].size;
        WaitsAppend(es, e, i);
        assert es'[i] == es[i];
      }
    }
    BpfMap.InsertHasRoom(s.sizes, MAX_CALLS, e.id, e.size, Waiting(target, es'));
  }

  lemma AllocsStep(target: nat, es: seq<Event>, s: State, e: Event)
    requires SizesSound(target, es, s.sizes) && Sound(target, es, s.allocs)
    ensures Sound(target, es + [e], Step(target, s, e).allocs)
  {
    var es', allocs' := es + [e], Step(target, s, e).allocs;
    hide QuietSince, UnfreedSince;
    forall p | p in allocs'
      ensures exists i: nat, j: nat ::
                Outstanding(target, es', i, j) && es'[j].ptr == p && allocs'[p] == InfoAt(es', i, j)
    {
      if p in s.allocs && allocs'[p] == s.allocs[p] && !Frees(target, e, p) {
        StaysOutstanding(target, es, e, p, s.allocs[p]);
      } else {
        BecomesOutstanding(target, es, s, e);
      }
    }
  }

  lemma StaysOutstanding(target: nat, es: seq<Event>, e: Event, p: u64, info: AllocInfo)
    requires exists i: nat, j: nat :: Outstanding(target, es, i, j) && es[j].ptr == p && info == InfoAt(es, i, j)
    requires !Frees(target, e, p)
    ensures var es' := es + [e];
            exists i: nat, j: nat :: Outstanding(target, es', i, j) && es'[j].ptr == p && info == InfoAt(es', i, j)
  {
    hide QuietSince, UnfreedSince;
    var i: nat, j: nat :| Outstanding(target, es, i, j) && es[j].ptr == p && info == InfoAt(es, i, j);
    OutstandingAppend(target, es, e, i, j);
    assert Outstanding(target, es + [e], i, j);
  }

  lemma BecomesOutstanding(target: nat, es: seq<Event>, s: State, e: Event)
    requires SizesSound(target, es, s.sizes)
    requires e.Return? && e.ptr != 0 && Watched(target, e.id) && e.id in s.sizes
    ensures var es', info := es + [e], AllocInfo(s.sizes[e.id], e.stack, PidOf(e.id));
            exists i: nat, j: nat :: Outstanding(target, es', i, j) && es'[j].ptr == e.ptr && info == InfoAt(es', i, j)
  {
    hide QuietSince, UnfreedSince;
    var i: nat :| Waits(es, i) && es[i].id == e.id && s.sizes[e.id] == es[i].size;
    OutstandingAppend(target, es, e, i, |es|);
    assert Outstanding(target, es + [e], i, |es|);
  }

  lemma AllocsStayComplete(target: nat, es: seq<Event>, s: State, e: Event)
    requires SizesComplete(target, es, s.sizes) && SizesSound(target, es, s.sizes)
    requires Sound(target, es, s.allocs) && Complete(target, es, s.allocs)
    requires |Live(target, es + [e])| <= MAX_ALLOCS
    ensures Complete(target, es + [e], Step(target, s, e).allocs)
  {
    var es', allocs' := es + [e], Step(target, s, e).allocs;
    RoomForPointer(target, es, s, e);
    hide QuietSince, UnfreedSince;
    forall i: nat, j: nat | Outstanding(target, es', i, j)
      ensures es'[j].ptr in allocs'
    {
      OutstandingAppend(target, es, e, i, j);
      if j < |es| {
        assert es'[j] == es[j];
      } else {
        assert e.id in s.sizes;
      }
    }
  }

  lemma RoomForPointer(target: nat, es: seq<Event>, s: State, e: Event)
    requires SizesSound(target, es, s.sizes) && Sound(target, es, s.allocs)
    requires |Live(target, es + [e])| <= MAX_ALLOCS
    ensures e.Return? && e.ptr != 0 && Watched(target, e.id) && e.id in s.sizes ==>
              e.ptr in Step(target, s, e).allocs && s.allocs.Keys <= Step(target, s, e).allocs.Keys
  {
    if e.Return? && e.ptr != 0 && Watched(target, e.id) && e.id in s.sizes {
      var es', info := es + [e], AllocInfo(s.sizes[e.id], e.stack, PidOf(e.id));
      var i0: nat :| Waits(es, i0) && es[i0].id == e.id;
      hide QuietSince, UnfreedSince;
      forall p | p in s.allocs.Keys + {e.ptr}
        ensures p in Live(target, es')
      {
        if p == e.ptr {
          OutstandingAppend(target, es, e, i0, |es|);
          assert es'[|es|].ptr == p;
        } else {
          var i: nat, j: nat :| Outstanding(target, es, i, j) && es[j].ptr == p && s.allocs[p] == InfoAt(es, i, j);
          OutstandingAppend(target, es, e, i, j);
          assert es'[j].ptr == p;
        }
      }
      BpfMap.InsertHasRoom(s.allocs, MAX_ALLOCS, e.ptr, info, Live(target, es'));
    }
  }

  // ----- whole runs ----------------------------------------------------------------------------

  lemma {:induction false} RunIsSound(target: nat, es: seq<Event>)
    ensures SizesSound(target, es, Run(target, es).sizes) && Sound(target, es, Run(target, es).allocs)
  {
    hide SizesSound, Sound, Step;
    if es == [] {
      NothingYet(target);
    } else {
      var n := |es| - 1;
      RunIsSound(target, es[..n]);
      SizesStep(target, es[..n], Run(target, es[..n]), es[n]);
      AllocsStep(target, es[..n], Run(target, es[..n]), es[n]);
      assert es == es[..n] + [es[n]];
    }
  }

  lemma NothingYet(target: nat)
    ensures SizesSound(target, [], map[]) && Sound(target, [], map[])
    ensures SizesComplete(target, [], map[]) && Complete(target, [], map[])
  {}

  lemma {:induction false} RunIsComplete(target: nat, es: seq<Event>)
    requires Fits(target, es)
    ensures SizesComplete(target, es, Run(target, es).sizes) && Complete(target, es, Run(target, es).allocs)
  {
    hide SizesSound, Sound, SizesComplete, Complete, Step, Waiting, Live;
    if es == [] {
      NothingYet(target);
    } else {
      var n := |es| - 1;
      FitsPrefix(target, es, n);
      assert es[..|es|] == es;
      RunIsComplete(target, es[..n]);
      RunIsSound(target, es[..n]);
      SizesStep(target, es[..n], Run(target, es[..n]), es[n]);
      assert es == es[..n] + [es[n]];
      AllocsStayComplete(target, es[..n], Run(target, es[..n]), es[n]);
    }
  }

  lemma FitsPrefix(target: nat, es: seq<Event>, m: nat)
    requires Fits(target, es) && m <= |es|
    ensures Fits(target, es[..m])
  {
    hide Waiting, Live;
    forall n | 0 <= n <= m
      ensures |Waiting(target, es[..m][..n])| <= MAX_CALLS && |Live(target, es[..m][..n])| <= MAX_ALLOCS
    {
      assert es[..m][..n] == es[..n];
    }
  }

  /** With addresses reused only after free, a pointer is outstanding through one call only. */
  lemma OneCallOutstanding(target: nat, es: seq<Event>, h: nat, i: nat, j: nat, k: nat)
    requires ReusedAfterFree(target, es)
    requires Outstanding(target, es, h, i) && Outstanding(target, es, j, k) && es[i].ptr == es[k].ptr
    ensures h == j && i == k
  {
    NotFreedBetween(target, es, h, i, j, k);
    NotFreedBetween(target, es, j, k, h, i);
    OneWaits(es[..i], h, j);
  }

  lemma NotFreedBetween(target: nat, es: seq<Event>, h: nat, i: nat, j: nat, k: nat)
    requires ReusedAfterFree(target, es)
    requires Outstanding(target, es, h, i) && Outstanding(target, es, j, k) && es[i].ptr == es[k].ptr
    ensures k <= i
  {
    assert i < k ==> FreedBetween(target, es, i, k);
  }

  /**
   Main result. For every interleaving of threads that fits the maps, the map is the set of
   pointers returned and not yet freed, each with the size and stack of its own call.
   */
  lemma TracksLiveAllocations(target: nat, es: seq<Event>, p: u64)
    requires Fits(target, es) && ReusedAfterFree(target, es)
    ensures p in Run(target, es).allocs <==>
              exists i: nat, j: nat :: Outstanding(target, es, i, j) && es[j].ptr == p
    ensures forall i: nat, j: nat :: Outstanding(target, es, i, j) ==>
              es[j].ptr in Run(target, es).allocs && Run(target, es).allocs[es[j].ptr] == InfoAt(es, i, j)
  {
    RunIsSound(target, es);
    RunIsComplete(target, es);
    OnlyOwnInfo(target, es);
  }

  /** Full maps lose allocations; they never report a freed pointer or another call's size. */
  lemma OnlyOwnInfo(target: nat, es: seq<Event>)
    requires ReusedAfterFree(target, es)
    ensures forall p :: p in Run(target, es).allocs ==>
              exists i: nat, j: nat :: Outstanding(target, es, i, j) && es[j].ptr == p
    ensures forall i: nat, j: nat :: Outstanding(target, es, i, j) && es[j].ptr in Run(target, es).allocs ==>
              Run(target, es).allocs[es[j].ptr] == InfoAt(es, i, j)
  {
    RunIsSound(target, es);
    var allocs := Run(target, es).allocs;
    hide Run, QuietSince, UnfreedSince, ReusedAfterFree;
    forall i: nat, j: nat | Outstanding(target, es, i, j) && es[j].ptr in allocs
      ensures allocs[es[j].ptr] == InfoAt(es, i, j)
    {
      var h: nat, k: nat :|
        Outstanding(target, es, h, k) && es[k].ptr == es[j].ptr && allocs[es[j].ptr] == InfoAt(es, h, k);
      OneCallOutstanding(target, es, i, j, h, k);
    }
  }

  /** A target is a process: all its threads are watched, and no others. */
  lemma WatchedThreads(target: nat, id: u64)
    ensures Watched(target, id) <==> target == 0 || target * 0x1_0000_0000 <= id < (target + 1) * 0x1_0000_0000
  {
    ProcessOf(id);
  }

  lemma ProcessOf(id: u64)
    ensures PidOf(id) * 0x1_0000_0000 <= id < (PidOf(id) + 1) * 0x1_0000_0000
  {}

  /** Each entry carries the size its call asked for, and the stack and process it returned on. */
  lemma EntriesOfOwnProcess(target: nat, es: seq<Event>)
    requires ReusedAfterFree(target, es)
    ensures var allocs := Run(target, es).allocs;
            forall i: nat, j: nat :: Outstanding(target, es, i, j) && es[j].ptr in allocs ==>
              var info := allocs[es[j].ptr];
              && info.size == es[i].size && info.stack == es[j].stack
              && info.pid * 0x1_0000_0000 <= es[j].id < (info.pid + 1) * 0x1_0000_0000
  {
    hide QuietSince, UnfreedSince, Run, ReusedAfterFree, PidOf;
    OnlyOwnInfo(target, es);
    forall id: u64
      ensures PidOf(id) * 0x1_0000_0000 <= id < (PidOf(id) + 1) * 0x1_0000_0000
    {
      ProcessOf(id);
    }
  }

  // ----- why free is probed at entry -----------------------------------------------------------

  /** The same program with the entry deleted when free returns instead. */
  function StepAtExit(target: nat, s: State, e: Event): State
  {
    match e
    case Free(_, _) => s
    case FreeExit(id, ptr) => Step(target, s, Free(id, ptr))
    case _ => Step(target, s, e)
  }

  function RunAtExit(target: nat, es: seq<Event>): State
  {
    if es == [] then State(map[], map[])
    else StepAtExit(target, RunAtExit(target, es[..|es| - 1]), es[|es| - 1])
  }

  function Reuse(p: u64): seq<Event>
  {
    [Enter(1, 8), Return(1, p, 0), Free(1, p), Enter(2, 16), Return(2, p, 0), FreeExit(1, p)]
  }

  /**
   Thread 2 is handed the address thread 1 is still freeing: reuse after free, yet
   deleting at exit forgets the new allocation.
   */
  lemma ExitDeletionLosesReuse(p: u64)
    requires p != 0
    ensures var es := Reuse(p);
            && Fits(0, es) && ReusedAfterFree(0, es)
            && Outstanding(0, es, 3, 4)
            && p in Run(0, es).allocs && p !in RunAtExit(0, es).allocs
  {
    var es := Reuse(p);
    assert Outstanding(0, es, 3, 4);
    assert Frees(0, es[2], p);
    assert FreedBetween(0, es, 1, 4);
    forall h: nat, i: nat, j: nat, k: nat |
      Allocates(0, es, h, i) && Allocates(0, es, j, k) && i < k && es[i].ptr == es[k].ptr
      ensures FreedBetween(0, es, i, k)
    {
      assert i == 1 && k == 4;
    }
    forall n | 0 <= n <= |es|
      ensures |Waiting(0, es[..n])| <= MAX_CALLS && |Live(0, es[..n])| <= MAX_ALLOCS
    {
      BpfMap.CardinalityBelow(Waiting(0, es[..n]), {1, 2});
      BpfMap.CardinalityBelow(Live(0, es[..n]), {p});
    }
    TracksLiveAllocations(0, es, p);
    ForgottenAtExit(p);
  }

  lemma ForgottenAtExit(p: u64)
    requires p != 0
    ensures p !in RunAtExit(0, Reuse(p)).allocs
  {
    var es := Reuse(p);
    assert es[5] == FreeExit(1, p) && Watched(0, 1);
  }

  // ----- the probes ----------------------------------------------------------------------------

  lemma RunStep(target: nat, es: seq<Event>, e: Event)
    ensures Run(target, es + [e]) == Step(target, Run(target, es), e)
  {
    assert (es + [e])[..|es|] == es;
  }

  /** A product capped at the largest word. */
  function Capped(nmemb: u64, size: u64): u64
  {
    var product := Times(nmemb, size);
    if product < U64 then product else U64 - 1
  }

  function Times(a: nat, b: nat): nat
  {
    a * b
  }

  /** calloc's guard by division computes the capped product. */
  method CallocTotal(nmemb: u64, size: u64) returns (total: u64)
    ensures total == Capped(nmemb, size)
  {
    var limit := if size != 0 then (U64 - 1) / size else U64 - 1;
    LimitIsExact(nmemb, size);
    hide Times;
    if nmemb > limit {
      total := U64 - 1;
    } else {
      total := Wrap(Times(nmemb, size));
    }
  }

  /** The product fits the word exactly up to the limit. */
  lemma LimitIsExact(nmemb: u64, size: u64)
    ensures nmemb <= (if size != 0 then (U64 - 1) / size else U64 - 1) <==> Times(nmemb, size) < U64
  {
    if size != 0 {
      var limit, r := (U64 - 1) / size, (U64 - 1) % size;
      assert U64 - 1 == size * limit + r;
      if nmemb <= limit {
        Scale(nmemb, limit, size);
      } else {
        LargerQuotient(size, nmemb, 0, limit, r);
      }
      assert Times(nmemb, size) == size * nmemb;
    }
  }

  lemma CappedIs(nmemb: u64, size: u64)
    ensures nmemb * size < 0x1_0000_0000_0000_0000 ==> Capped(nmemb, size) == nmemb * size
    ensures 0x1_0000_0000_0000_0000 <= nmemb * size ==> Capped(nmemb, size) == 0xffff_ffff_ffff_ffff
  {}

  class Probes {
    const target: nat
    var sizes: map<u64, u64>
    var allocs: map<u64, AllocInfo>
    ghost var trace: seq<Event>

    ghost predicate Valid()
      reads this
    {
      State(sizes, allocs) == Run(target, trace)
    }

    constructor (target: nat)
      ensures Valid() && trace == [] && this.target == target
    {
      this.target := target;
      sizes, allocs, trace := map[], map[], [];
    }

    predicate Skip(pid: nat)
    {
      target != 0 && pid != target
    }

    method OnAllocEnter(id: u64, size: u64)
      requires Valid()
      modifies this
      ensures Valid() && trace == old(trace) + [Enter(id, size)]
      ensures allocs == old(allocs)
      ensures sizes == if (target == 0 || target * 0x1_0000_0000 <= id < (target + 1) * 0x1_0000_0000)
                          && (id in old(sizes) || |old(sizes)| < 10240)
                       then old(sizes)[id := size] else old(sizes)
    {
      hide Run;
      RunStep(target, trace, Enter(id, size));
      trace := trace + [Enter(id, size)];
      if Skip(PidOf(id)) {
        return;
      }
      sizes := BpfMap.Insert(sizes, MAX_CALLS, id, size);
    }

    method OnAllocReturn(id: u64, ptr: u64, stackid: int)
      requires Valid()
      modifies this
      ensures Valid() && trace == old(trace) + [Return(id, ptr, stackid)]
      ensures var hit := && (target == 0 || target * 0x1_0000_0000 <= id < (target + 1) * 0x1_0000_0000)
                         && id in old(sizes);
              && sizes == (if hit then old(sizes) - {id} else old(sizes))
              && (!(hit && ptr != 0 && (ptr in old(allocs) || |old(allocs)| < 1_000_000)) ==> allocs == old(allocs))
              && (hit && ptr != 0 && (ptr in old(allocs) || |old(allocs)| < 1_000_000) ==>
                    && ptr in allocs && allocs == old(allocs)[ptr := allocs[ptr]]
                    && allocs[ptr].size == old(sizes)[id] && allocs[ptr].stack == stackid
                    && allocs[ptr].pid * 0x1_0000_0000 <= id < (allocs[ptr].pid + 1) * 0x1_0000_0000)
    {
      hide Run;
      RunStep(target, trace, Return(id, ptr, stackid));
      trace := trace + [Return(id, ptr, stackid)];
      var pid := PidOf(id);
      if Skip(pid) || id !in sizes {
        return;
      }
      var size := sizes[id];
      sizes := BpfMap.Remove(sizes, id);
      if ptr == 0 {
        return;
      }
      allocs := BpfMap.Insert(allocs, MAX_ALLOCS, ptr, AllocInfo(size, stackid, pid));
    }

    method CallocEnter(id: u64, nmemb: u64, size: u64)
      requires Valid()
      modifies this
      ensures Valid() && trace == old(trace) + [Enter(id, Capped(nmemb, size))]
    {
      hide Capped;
      var total := CallocTotal(nmemb, size);
      OnAllocEnter(id, total);
    }

    method FreeEnter(id: u64, ptr: u64)
      requires Valid()
      modifies this
      ensures Valid() && trace == old(trace) + [Free(id, ptr)]
      ensures sizes == old(sizes)
      ensures allocs == if (target == 0 || target * 0x1_0000_0000 <= id < (target + 1) * 0x1_0000_0000) && ptr != 0
                        then old(allocs) - {ptr} else old(allocs)
    {
      hide Run;
      RunStep(target, trace, Free(id, ptr));
      trace := trace + [Free(id, ptr)];
      if Skip(PidOf(id)) {
        return;
      }
      if ptr != 0 {
        allocs := BpfMap.Remove(allocs, ptr);
      }
    }
  }

  // ----- the report ----------------------------------------------------------------------------

  /** Total size of a set of allocations, added up in no particular order. */
  ghost function Bytes(m: map<u64, AllocInfo>): nat
    decreases |m|
  {
    if m == map[] then 0
    else
      var p :| p in m;
      m[p].size + Bytes(m - {p})
  }

  lemma {:induction false} BytesWithout(m: map<u64, AllocInfo>, p: u64)
    requires p in m
    ensures Bytes(m) == m[p].size + Bytes(m - {p})
    decreases |m|
  {
    var q :| q in m && Bytes(m) == m[q].size + Bytes(m - {q});
    if q != p {
      BytesWithout(m - {q}, p);
      BytesWithout(m - {p}, q);
      assert m - {q} - {p} == m - {p} - {q};
    }
  }

  /** The call whose pointer was returned at j, if that pointer is still outstanding. */
  ghost predicate Held(target: nat, es: seq<Event>, j: nat)
  {
    exists i: nat :: Outstanding(target, es, i, j)
  }

  /** What the outstanding calls among the first n events asked for. */
  ghost function RequestedBytes(target: nat, es: seq<Event>, n: nat): nat
    requires n <= |es|
  {
    if n == 0 then 0
    else
      RequestedBytes(target, es, n - 1) +
      (if Held(target, es, n - 1) then
         var i: nat :| Outstanding(target, es, i, n - 1);
         es[i].size
       else 0)
  }

  ghost function HeldBefore(target: nat, es: seq<Event>, n: nat): set<u64>
    requires n <= |es|
  {
    set j | 0 <= j < n && Held(target, es, j) && es[j].Return? :: es[j].ptr
  }

  ghost function ReturnedBefore(target: nat, es: seq<Event>, n: nat): map<u64, AllocInfo>
    requires n <= |es|
  {
    map p | p in Run(target, es).allocs && p in HeldBefore(target, es, n) :: Run(target, es).allocs[p]
  }

  /** The tracked total is what the outstanding calls asked for, each counted once. */
  lemma OutstandingBytes(target: nat, es: seq<Event>)
    requires Fits(target, es) && ReusedAfterFree(target, es)
    ensures Bytes(Run(target, es).allocs) == RequestedBytes(target, es, |es|)
  {
    BytesBefore(target, es, |es|);
    AllReturned(target, es);
    hide *;
  }

  lemma AllReturned(target: nat, es: seq<Event>)
    requires ReusedAfterFree(target, es)
    ensures ReturnedBefore(target, es, |es|) == Run(target, es).allocs
  {
    OnlyOwnInfo(target, es);
    var allocs := Run(target, es).allocs;
    hide Run, ReusedAfterFree, QuietSince, UnfreedSince;
    forall p | p in allocs
      ensures p in HeldBefore(target, es, |es|)
    {
      var i: nat, j: nat :| Outstanding(target, es, i, j) && es[j].ptr == p;
      assert Held(target, es, j);
    }
  }

  lemma {:induction false} BytesBefore(target: nat, es: seq<Event>, n: nat)
    requires Fits(target, es) && ReusedAfterFree(target, es) && n <= |es|
    ensures Bytes(ReturnedBefore(target, es, n)) == RequestedBytes(target, es, n)
  {
    hide *;
    if n == 0 {
      NoReturns(target, es);
    } else {
      BytesBefore(target, es, n - 1);
      OneMoreReturn(target, es, n - 1);
      OneMoreRequest(target, es, n - 1);
    }
  }

  lemma NoReturns(target: nat, es: seq<Event>)
    ensures Bytes(ReturnedBefore(target, es, 0)) == 0 == RequestedBytes(target, es, 0)
  {
    hide Run;
    assert ReturnedBefore(target, es, 0) == map[];
  }

  lemma OneMoreRequest(target: nat, es: seq<Event>, j: nat)
    requires j < |es|
    ensures !Held(target, es, j) ==> RequestedBytes(target, es, j + 1) == RequestedBytes(target, es, j)
    ensures Held(target, es, j) ==> exists i: nat ::
              && Outstanding(target, es, i, j)
              && RequestedBytes(target, es, j + 1) == RequestedBytes(target, es, j) + es[i].size
  {
    hide QuietSince, UnfreedSince;
  }

  lemma OneMoreReturn(target: nat, es: seq<Event>, j: nat)
    requires Fits(target, es) && ReusedAfterFree(target, es) && j < |es|
    ensures !Held(target, es, j) ==> ReturnedBefore(target, es, j + 1) == ReturnedBefore(target, es, j)
    ensures forall i: nat :: Outstanding(target, es, i, j) ==>
              Bytes(ReturnedBefore(target, es, j + 1)) == Bytes(ReturnedBefore(target, es, j)) + es[i].size
  {
    HeldOneMore(target, es, j);
    hide Fits, ReusedAfterFree, Run, Bytes, HeldBefore, Held;
    forall i: nat | Outstanding(target, es, i, j)
      ensures Bytes(ReturnedBefore(target, es, j + 1)) == Bytes(ReturnedBefore(target, es, j)) + es[i].size
    {
      HeldOneMoreTime(target, es, i, j);
      TracksLiveAllocations(target, es, es[j].ptr);
      OneMoreEntry(target, es, j);
      hide *;
    }
  }

  lemma OneMoreEntry(target: nat, es: seq<Event>, j: nat)
    requires j < |es| && es[j].Return? && es[j].ptr in Run(target, es).allocs
    requires es[j].ptr !in HeldBefore(target, es, j)
    requires HeldBefore(target, es, j + 1) == HeldBefore(target, es, j) + {es[j].ptr}
    ensures Bytes(ReturnedBefore(target, es, j + 1)) ==
            Bytes(ReturnedBefore(target, es, j)) + Run(target, es).allocs[es[j].ptr].size
  {
    var p, more := es[j].ptr, ReturnedBefore(target, es, j + 1);
    BytesWithout(more, p);
    hide Run, Bytes, HeldBefore;
    assert more - {p} == ReturnedBefore(target, es, j);
  }

  lemma HeldOneMore(target: nat, es: seq<Event>, j: nat)
    requires j < |es|
    ensures !Held(target, es, j) ==> HeldBefore(target, es, j + 1) == HeldBefore(target, es, j)
  {
    hide Held;
  }

  lemma HeldOneMoreTime(target: nat, es: seq<Event>, i: nat, j: nat)
    requires ReusedAfterFree(target, es) && Outstanding(target, es, i, j)
    ensures HeldBefore(target, es, j + 1) == HeldBefore(target, es, j) + {es[j].ptr}
    ensures es[j].ptr !in HeldBefore(target, es, j)
  {
    hide QuietSince, UnfreedSince;
    if es[j].ptr in HeldBefore(target, es, j) {
      var k :| 0 <= k < j && Held(target, es, k) && es[k].Return? && es[k].ptr == es[j].ptr;
      var h: nat :| Outstanding(target, es, h, k);
      OneCallOutstanding(target, es, h, k, i, j);
      assert false;
    }
    assert Held(target, es, j);
  }

  function OfStack(m: map<u64, AllocInfo>, stack: int): map<u64, AllocInfo>
  {
    map p | p in m && m[p].stack == stack :: m[p]
  }

  lemma OfStackWith(m: map<u64, AllocInfo>, p: u64, info: AllocInfo, stack: int)
    requires p !in m
    ensures var more := OfStack(m[p := info], stack);
            && Bytes(more) == Bytes(OfStack(m, stack)) + (if info.stack == stack then info.size else 0)
            && |more| == |OfStack(m, stack)| + (if info.stack == stack then 1 else 0)
  {
    var more, m' := OfStack(m[p := info], stack), OfStack(m, stack);
    if info.stack == stack {
      assert more - {p} == m';
      BytesWithout(more, p);
    } else {
      assert more == m';
    }
  }

  datatype Row = Row(bytes: nat, count: nat)

  function Stacks(m: map<u64, AllocInfo>): set<int>
  {
    set p | p in m :: m[p].stack
  }

  /** What the report owes each stack: the bytes (modulo the word) and the number of its allocations. */
  ghost predicate GroupedBy(rows: map<int, Row>, m: map<u64, AllocInfo>)
  {
    && rows.Keys == Stacks(m)
    && forall s :: s in rows ==> rows[s] == RowOf(m, s)
  }

  ghost function RowOf(m: map<u64, AllocInfo>, s: int): Row
  {
    Row(Wrap(Bytes(OfStack(m, s))), Wrap(|OfStack(m, s)|))
  }

  /** `order` visits every key once, in whatever order the map iterates. */
  ghost predicate Visits<K>(order: seq<K>, keys: set<K>)
  {
    && (set k | k in order) == keys
    && forall i, j :: 0 <= i < j < |order| ==> order[i] != order[j]
  }

  function Seen(m: map<u64, AllocInfo>, order: seq<u64>): map<u64, AllocInfo>
  {
    map p | p in m && p in order :: m[p]
  }

  function AddTo(rows: map<int, Row>, info: AllocInfo): map<int, Row>
  {
    var e := if info.stack in rows then rows[info.stack] else Row(0, 0);
    rows[info.stack := Row(Wrap(e.bytes + info.size), Wrap(e.count + 1))]
  }

  lemma GroupOneMore(rows: map<int, Row>, seen: map<u64, AllocInfo>, p: u64, info: AllocInfo)
    requires GroupedBy(rows, seen) && p !in seen
    ensures GroupedBy(AddTo(rows, info), seen[p := info])
  {
    StacksWith(seen, p, info);
    forall s | s in AddTo(rows, info)
      ensures AddTo(rows, info)[s] == RowOf(seen[p := info], s)
    {
      RowOneMore(rows, seen, p, info, s);
    }
  }

  lemma RowOneMore(rows: map<int, Row>, seen: map<u64, AllocInfo>, p: u64, info: AllocInfo, s: int)
    requires GroupedBy(rows, seen) && p !in seen && s in AddTo(rows, info)
    ensures AddTo(rows, info)[s] == RowOf(seen[p := info], s)
  {
    hide Wrap, Bytes, OfStack, Stacks;
    OfStackWith(seen, p, info, s);
    if s == info.stack {
      EmptyStack(seen, s);
      WrapSum(Bytes(OfStack(seen, s)), info.size);
      WrapSum(|OfStack(seen, s)|, 1);
    }
  }

  lemma StacksWith(m: map<u64, AllocInfo>, p: u64, info: AllocInfo)
    requires p !in m
    ensures Stacks(m[p := info]) == Stacks(m) + {info.stack}
  {
    var m' := m[p := info];
    forall s | s in Stacks(m) + {info.stack}
      ensures s in Stacks(m')
    {
      if s == info.stack {
        assert m'[p].stack == s;
      } else {
        var q :| q in m && m[q].stack == s;
        assert m'[q].stack == s;
      }
    }
  }

  lemma EmptyStack(m: map<u64, AllocInfo>, s: int)
    ensures s !in Stacks(m) ==> OfStack(m, s) == map[] && Wrap(Bytes(OfStack(m, s))) == Wrap(|OfStack(m, s)|) == 0
  {
    if p :| p in OfStack(m, s) {
      assert m[p].stack in Stacks(m);
    }
  }

  method GroupByStack(allocs: map<u64, AllocInfo>, order: seq<u64>) returns (byStack: map<int, Row>)
    requires Visits(order, allocs.Keys)
    ensures GroupedBy(byStack, allocs)
    ensures forall s :: s in byStack <==> exists p :: p in allocs && allocs[p].stack == s
    ensures forall s :: s in byStack ==>
              && byStack[s].count == |set p | p in allocs && allocs[p].stack == s| % 0x1_0000_0000_0000_0000
              && byStack[s].bytes ==
                 Bytes(map p | p in allocs && allocs[p].stack == s :: allocs[p]) % 0x1_0000_0000_0000_0000
  {
    byStack := map[];
    for i := 0 to |order|
      invariant GroupedBy(byStack, Seen(allocs, order[..i]))
    {
      hide GroupedBy, Wrap;
      var p := order[i];
      SeenOneMore(allocs, order, i);
      var info := allocs[p];
      GroupOneMore(byStack, Seen(allocs, order[..i]), p, info);
      hide Seen;
      byStack := AddTo(byStack, info);
    }
    AllSeen(allocs, order);
    RowsAre(byStack, allocs);
  }

  lemma RowsAre(rows: map<int, Row>, m: map<u64, AllocInfo>)
    requires GroupedBy(rows, m)
    ensures forall s :: s in rows <==> exists p :: p in m && m[p].stack == s
    ensures forall s :: s in rows ==>
              && rows[s].count == |set p | p in m && m[p].stack == s| % 0x1_0000_0000_0000_0000
              && rows[s].bytes == Bytes(map p | p in m && m[p].stack == s :: m[p]) % 0x1_0000_0000_0000_0000
  {
    hide Bytes;
    forall s | s in rows
      ensures |OfStack(m, s)| == |set p | p in m && m[p].stack == s|
    {
      assert OfStack(m, s).Keys == set p | p in m && m[p].stack == s;
    }
  }

  lemma AllSeen(m: map<u64, AllocInfo>, order: seq<u64>)
    requires Visits(order, m.Keys)
    ensures Seen(m, order[..|order|]) == m
    ensures Seen(m, []) == map[]
    ensures GroupedBy(map[], map[])
  {
    forall p | p in m
      ensures p in order
    {
      assert p in (set k | k in order);
    }
    assert order[..|order|] == order;
  }

  lemma SeenOneMore(m: map<u64, AllocInfo>, order: seq<u64>, i: nat)
    requires Visits(order, m.Keys) && i < |order|
    ensures order[i] in m && order[i] !in Seen(m, order[..i])
    ensures Seen(m, order[..i + 1]) == Seen(m, order[..i])[order[i] := m[order[i]]]
  {
    assert order[i] in m.Keys;
  }

  /** The allocations made on the stacks listed so far. */
  function OnStacks(m: map<u64, AllocInfo>, stacks: seq<int>): map<u64, AllocInfo>
  {
    map p | p in m && m[p].stack in stacks :: m[p]
  }

  lemma {:induction false} BytesUnion(a: map<u64, AllocInfo>, b: map<u64, AllocInfo>)
    requires a.Keys !! b.Keys
    ensures Bytes(a + b) == Bytes(a) + Bytes(b)
    decreases |b|
  {
    BytesOfNone(a, b);
    hide Bytes;
    if b == map[] {
    } else {
      var p :| p in b;
      var b' := b - {p};
      UnionWithout(a, b, p);
      BytesUnion(a, b');
      BytesWithout(a + b, p);
      BytesWithout(b, p);
    }
  }

  lemma BytesOfNone(a: map<u64, AllocInfo>, b: map<u64, AllocInfo>)
    ensures b == map[] ==> Bytes(a + b) == Bytes(a) && Bytes(b) == 0
  {
    assert b == map[] ==> a + b == a;
  }

  lemma UnionWithout(a: map<u64, AllocInfo>, b: map<u64, AllocInfo>, p: u64)
    requires a.Keys !! b.Keys && p in b
    ensures (a + b) - {p} == a + (b - {p}) && p in a + b && (a + b)[p] == b[p]
    ensures a.Keys !! (b - {p}).Keys && |b - {p}| < |b|
  {
    SmallerWithout(b, p);
    SameAfterRemoval(a, b, p);
  }

  lemma SameAfterRemoval(a: map<u64, AllocInfo>, b: map<u64, AllocInfo>, p: u64)
    requires p !in a && p in b
    ensures (a + b) - {p} == a + (b - {p})
  {
    var l, r := (a + b) - {p}, a + (b - {p});
    assert l.Keys == r.Keys;
  }

  lemma SmallerWithout(b: map<u64, AllocInfo>, p: u64)
    requires p in b
    ensures |b - {p}| < |b|
  {
    assert (b - {p}).Keys == b.Keys - {p};
  }

  /** The grand total over rows in any order is the size of everything outstanding. */
  method TotalBytes(ghost allocs: map<u64, AllocInfo>, byStack: map<int, Row>, order: seq<int>) returns (total: nat)
    requires GroupedBy(byStack, allocs) && Visits(order, byStack.Keys)
    ensures total == Wrap(Bytes(allocs))
  {
    hide Wrap, Bytes, OnStacks, OfStack, Stacks;
    NoStacks(allocs);
    total := 0;
    for i := 0 to |order|
      invariant total == Wrap(Bytes(OnStacks(allocs, order[..i])))
    {
      assert order[i] in byStack.Keys;
      StackOneMore(allocs, order, i);
      WrapSum(Bytes(OnStacks(allocs, order[..i])), Bytes(OfStack(allocs, order[i])));
      total := Wrap(total + byStack[order[i]].bytes);
    }
    AllStacks(allocs, order);
    assert order[..|order|] == order;
  }

  lemma NoStacks(m: map<u64, AllocInfo>)
    ensures Wrap(Bytes(OnStacks(m, []))) == 0
  {
    assert OnStacks(m, []) == map[];
  }

  lemma StackOneMore(m: map<u64, AllocInfo>, stacks: seq<int>, i: nat)
    requires i < |stacks| && stacks[i] !in stacks[..i]
    ensures Bytes(OnStacks(m, stacks[..i + 1])) == Bytes(OnStacks(m, stacks[..i])) + Bytes(OfStack(m, stacks[i]))
  {
    BytesUnion(OnStacks(m, stacks[..i]), OfStack(m, stacks[i]));
    assert OnStacks(m, stacks[..i + 1]) == OnStacks(m, stacks[..i]) + OfStack(m, stacks[i]);
  }

  lemma AllStacks(m: map<u64, AllocInfo>, stacks: seq<int>)
    requires Stacks(m) == set s | s in stacks
    ensures OnStacks(m, stacks) == m
  {
    forall p | p in m
      ensures m[p].stack in stacks
    {
      assert m[p].stack in Stacks(m);
    }
  }
}

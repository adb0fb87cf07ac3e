/**
 The life of a stashed buffer address between the two getdents64 probes. A call that
 returns a positive count uses its stash up; one that returns nothing leaves it behind.
 The reference is the trace of probe hits alone: which enters are admitted, and which
 threads still hold a stash.
 */
module BufferStash {
  import BpfMap

  const MAX_STASHES: nat := 1024

  datatype Event =
    | Enter(key: nat, dirp: nat)
    | Return(key: nat, ret: int)

  function Step(bufs: map<nat, nat>, e: Event): map<nat, nat>
  {
    match e
    case Enter(key, dirp) => BpfMap.Insert(bufs, MAX_STASHES, key, dirp)
    case Return(key, ret) => if 0 < ret then BpfMap.Remove(bufs, key) else bufs
  }

  function Run(es: seq<Event>): map<nat, nat>
  {
    if es == [] then map[] else Step(Run(es[..|es| - 1]), es[|es| - 1])
  }

  // ----- the reference ---------------------------------------------------------------------

  /** Since the enter at i its thread has made no other, and no call of it has returned anything. */
  ghost predicate Unreturned(es: seq<Event>, i: nat)
  {
    && i < |es| && es[i].Enter?
    && forall k :: i < k < |es| && es[k].key == es[i].key ==> es[k].Return? && es[k].ret <= 0
  }

  /** At the enter at i fewer than 1024 other threads hold a stash. */
  ghost predicate Admitted(es: seq<Event>, i: nat)
    requires i < |es|
    decreases i, 2
  {
    |Holders(es[..i]) - {es[i].key}| < MAX_STASHES
  }

  ghost predicate Holds(es: seq<Event>, i: nat)
    decreases |es|, 0
  {
    i < |es| && es[i].Enter? && Unreturned(es, i) && Admitted(es, i)
  }

  /** The threads whose latest enter was admitted and not followed by a positive return. */
  ghost function Holders(es: seq<Event>): set<nat>
    decreases |es|, 1
  {
    set i | 0 <= i < |es| && Holds(es, i) :: es[i].key
  }

  /** The threads whose latest enter, admitted or not, has not been followed by a positive return. */
  ghost function Unfinished(es: seq<Event>): set<nat>
  {
    set i | 0 <= i < |es| && Unreturned(es, i) :: es[i].key
  }

  /** The map holds a stash for exactly the holders, from their latest enter. */
  ghost predicate Agrees(es: seq<Event>, bufs: map<nat, nat>)
  {
    && |bufs| <= MAX_STASHES
    && bufs.Keys == Holders(es)
    && forall i: nat :: Holds(es, i) ==> es[i].key in bufs && bufs[es[i].key] == es[i].dirp
  }

  // ----- one more probe hit ------------------------------------------------------------------

  lemma UnreturnedAppend(es: seq<Event>, e: Event, i: nat)
    ensures i < |es| ==> (Unreturned(es + [e], i) <==>
              Unreturned(es, i) && (e.key == es[i].key ==> e.Return? && e.ret <= 0))
    ensures i == |es| ==> (Unreturned(es + [e], i) <==> e.Enter?)
  {
    var es' := es + [e];
    assert es'[|es|] == e;
    assert forall k :: 0 <= k < |es| ==> es'[k] == es[k];
  }

  lemma AdmittedAppend(es: seq<Event>, e: Event, i: nat)
    requires i <= |es|
    ensures i < |es| ==> (Admitted(es + [e], i) <==> Admitted(es, i))
    ensures i == |es| ==> (Admitted(es + [e], i) <==> |Holders(es) - {e.key}| < MAX_STASHES)
  {
    hide Holders;
    assert i < |es| ==> (es + [e])[..i] == es[..i];
    assert (es + [e])[..|es|] == es;
  }

  lemma HoldsAppend(es: seq<Event>, e: Event, i: nat)
    ensures i < |es| ==> (Holds(es + [e], i) <==> Holds(es, i) && (e.key == es[i].key ==> e.Return? && e.ret <= 0))
    ensures i == |es| ==> (Holds(es + [e], i) <==> e.Enter? && |Holders(es) - {e.key}| < MAX_STASHES)
  {
    hide Unreturned, Admitted, Holders;
    UnreturnedAppend(es, e, i);
    if i <= |es| {
      AdmittedAppend(es, e, i);
    }
  }

  lemma HoldersAppend(es: seq<Event>, e: Event)
    ensures Holders(es + [e]) ==
            if e.Enter? then
              if |Holders(es) - {e.key}| < MAX_STASHES then Holders(es) + {e.key} else Holders(es) - {e.key}
            else if 0 < e.ret then Holders(es) - {e.key}
            else Holders(es)
  {
    var es' := es + [e];
    hide Holds;
    forall key
      ensures key in Holders(es') <==>
              if key != e.key then key in Holders(es)
              else if e.Enter? then |Holders(es) - {e.key}| < MAX_STASHES
              else key in Holders(es) && e.ret <= 0
    {
      if key in Holders(es') {
        var i :| 0 <= i < |es'| && Holds(es', i) && es'[i].key == key;
        HoldsAppend(es, e, i);
        assert i < |es| ==> es'[i] == es[i];
      }
      if key in Holders(es) {
        var i :| 0 <= i < |es| && Holds(es, i) && es[i].key == key;
        HoldsAppend(es, e, i);
        assert es'[i] == es[i];
      }
      HoldsAppend(es, e, |es|);
      assert es'[|es|] == e;
    }
  }

  /** The map has room for a thread exactly when fewer than 1024 others have a stash. */
  lemma RoomForStash(bufs: map<nat, nat>, key: nat)
    requires |bufs| <= MAX_STASHES
    ensures key in bufs || |bufs| < MAX_STASHES <==> |bufs.Keys - {key}| < MAX_STASHES
  {
    assert |bufs| == |bufs.Keys|;
    if key in bufs {
      assert bufs.Keys == (bufs.Keys - {key}) + {key};
    } else {
      assert bufs.Keys - {key} == bufs.Keys;
    }
  }

  lemma InsertSize(bufs: map<nat, nat>, key: nat, dirp: nat)
    requires |bufs| <= MAX_STASHES
    ensures |BpfMap.Insert(bufs, MAX_STASHES, key, dirp)| <= MAX_STASHES
    ensures |BpfMap.Remove(bufs, key)| <= MAX_STASHES
  {
    BpfMap.CardinalityBelow((bufs - {key}).Keys, bufs.Keys);
    assert |bufs| == |bufs.Keys| && |bufs - {key}| == |(bufs - {key}).Keys|;
    if key in bufs {
      assert bufs[key := dirp].Keys == bufs.Keys;
    } else {
      assert bufs[key := dirp].Keys == bufs.Keys + {key};
    }
    assert |bufs[key := dirp]| == |bufs[key := dirp].Keys|;
  }

  lemma StepAgrees(es: seq<Event>, bufs: map<nat, nat>, e: Event)
    requires Agrees(es, bufs)
    ensures Agrees(es + [e], Step(bufs, e))
  {
    var es', bufs' := es + [e], Step(bufs, e);
    hide Unreturned, Admitted, Holders, BpfMap.Remove;
    RoomForStash(bufs, e.key);
    HoldersAppend(es, e);
    InsertSize(bufs, e.key, if e.Enter? then e.dirp else 0);
    StepKeys(bufs, e);
    hide BpfMap.Insert;
    forall i: nat | Holds(es', i)
      ensures es'[i].key in bufs' && bufs'[es'[i].key] == es'[i].dirp
    {
      HoldsAppend(es, e, i);
      assert es'[|es|] == e;
      if i < |es| {
        assert es'[i] == es[i];
      }
    }
  }

  lemma StepKeys(bufs: map<nat, nat>, e: Event)
    ensures var bufs' := Step(bufs, e);
            && (forall key :: key in bufs && (key != e.key || (e.Return? && e.ret <= 0)) ==>
                  key in bufs' && bufs'[key] == bufs[key])
            && (e.Enter? && (e.key in bufs || |bufs| < MAX_STASHES) ==>
                  e.key in bufs' && bufs'[e.key] == e.dirp && bufs'.Keys == bufs.Keys + {e.key})
            && (e.Enter? && !(e.key in bufs || |bufs| < MAX_STASHES) ==> bufs' == bufs)
            && (e.Return? ==> bufs'.Keys == if 0 < e.ret then bufs.Keys - {e.key} else bufs.Keys)
  {}

  // ----- whole runs ----------------------------------------------------------------------------

  /** For every trace: a thread is stashed iff its latest enter was admitted and has not returned anything. */
  lemma {:induction false} StashesAreHolders(es: seq<Event>)
    ensures Agrees(es, Run(es))
  {
    hide Step;
    if es == [] {
      NothingHeld();
    } else {
      var n := |es| - 1;
      StashesAreHolders(es[..n]);
      hide Agrees;
      StepAgrees(es[..n], Run(es[..n]), es[n]);
      assert es == es[..n] + [es[n]];
    }
  }

  lemma NothingHeld()
    ensures Agrees([], map[])
  {}

  lemma StashedIffHolder(es: seq<Event>, key: nat)
    ensures key in Run(es) <==> key in Holders(es)
  {
    hide Run, Holders;
    StashesAreHolders(es);
  }

  /** A positive return finds a stash iff the enter it answers was admitted: that enter's address. */
  lemma FoundIffAdmitted(es: seq<Event>, i: nat)
    requires Unreturned(es, i)
    ensures es[i].key in Run(es) <==> Admitted(es, i)
    ensures Admitted(es, i) ==> Run(es)[es[i].key] == es[i].dirp
  {
    StashesAreHolders(es);
    hide Run, Admitted;
    if es[i].key in Holders(es) {
      var h :| 0 <= h < |es| && Holds(es, h) && es[h].key == es[i].key;
      OneUnreturned(es, h, i);
    }
    if Admitted(es, i) {
      assert Holds(es, i);
    }
  }

  lemma OneUnreturned(es: seq<Event>, h: nat, i: nat)
    requires Unreturned(es, h) && Unreturned(es, i) && es[h].key == es[i].key
    ensures h == i
  {}

  // ----- when every enter is admitted --------------------------------------------------------

  ghost predicate AllAdmitted(es: seq<Event>)
  {
    forall i: nat :: i < |es| && es[i].Enter? ==> Admitted(es, i)
  }

  /** At each enter fewer than 1024 other threads are between an enter and its positive return. */
  ghost predicate NeverCrowded(es: seq<Event>)
  {
    forall i: nat :: i < |es| && es[i].Enter? ==> |Unfinished(es[..i]) - {es[i].key}| < MAX_STASHES
  }

  lemma HoldersAreUnfinished(es: seq<Event>)
    requires AllAdmitted(es)
    ensures Holders(es) == Unfinished(es)
  {
    hide Admitted;
    assert forall i: nat :: i < |es| ==> (Holds(es, i) <==> Unreturned(es, i));
  }

  lemma AdmittedPrefix(es: seq<Event>, m: nat, i: nat)
    requires i < m <= |es|
    ensures Admitted(es[..m], i) <==> Admitted(es, i)
  {
    hide Holders;
    assert es[..m][..i] == es[..i];
  }

  lemma {:induction false} CrowdedOrAdmitted(es: seq<Event>, n: nat)
    requires NeverCrowded(es) && n <= |es|
    ensures AllAdmitted(es[..n])
  {
    hide Admitted, Unfinished, Holders, AllAdmitted;
    if n == 0 {
      NoneAdmitted();
    } else {
      CrowdedOrAdmitted(es, n - 1);
      HoldersAreUnfinished(es[..n - 1]);
      AdmittedHere(es, n - 1);
      OneMoreAdmitted(es, n - 1);
    }
  }

  lemma NoneAdmitted()
    ensures AllAdmitted([])
  {}

  lemma OneMoreAdmitted(es: seq<Event>, m: nat)
    requires m < |es| && AllAdmitted(es[..m]) && (es[m].Enter? ==> Admitted(es, m))
    ensures AllAdmitted(es[..m + 1])
  {
    hide Admitted;
    var now := es[..m + 1];
    forall i: nat | i < |now| && now[i].Enter?
      ensures Admitted(now, i)
    {
      AdmittedPrefix(es, m + 1, i);
      if i < m {
        AdmittedPrefix(es, m, i);
        assert es[..m][i] == es[i];
      }
    }
  }

  lemma AdmittedHere(es: seq<Event>, i: nat)
    requires i < |es|
    ensures Admitted(es, i) <==> |Holders(es[..i]) - {es[i].key}| < MAX_STASHES
  {}

  /** Every enter is admitted iff at none of them 1024 other threads are unfinished. */
  lemma AllAdmittedIff(es: seq<Event>)
    ensures AllAdmitted(es) <==> NeverCrowded(es)
  {
    hide Admitted, Unfinished;
    if NeverCrowded(es) {
      CrowdedOrAdmitted(es, |es|);
      assert es[..|es|] == es;
    }
    if AllAdmitted(es) {
      forall i: nat | i < |es| && es[i].Enter?
        ensures |Unfinished(es[..i]) - {es[i].key}| < MAX_STASHES
      {
        AllAdmittedBefore(es, i);
        HoldersAreUnfinished(es[..i]);
        AdmittedHere(es, i);
      }
    }
  }

  lemma AllAdmittedBefore(es: seq<Event>, m: nat)
    requires AllAdmitted(es) && m <= |es|
    ensures AllAdmitted(es[..m])
  {
    hide Admitted;
    forall i: nat | i < m && es[..m][i].Enter?
      ensures Admitted(es[..m], i)
    {
      AdmittedPrefix(es, m, i);
    }
  }

  // ----- finished listings fill the map ------------------------------------------------------

  /** n threads each read a directory to its end: the call that returns 0 keeps its stash. */
  function Ended(n: nat, dirp: nat): (es: seq<Event>)
    ensures |es| == 2 * n
  {
    if n == 0 then [] else Ended(n - 1, dirp) + [Enter(n - 1, dirp), Return(n - 1, 0)]
  }

  lemma RunTwo(es: seq<Event>, a: Event, b: Event)
    ensures Run(es + [a, b]) == Step(Step(Run(es), a), b)
  {
    hide Step;
    assert (es + [a, b])[..|es| + 1] == es + [a] && (es + [a])[..|es|] == es;
  }

  lemma RunAppend(es: seq<Event>, e: Event)
    ensures Run(es + [e]) == Step(Run(es), e)
  {
    hide Step;
    assert (es + [e])[..|es|] == es;
  }

  lemma {:induction false} EndedFill(n: nat, dirp: nat)
    requires n <= MAX_STASHES
    ensures |Run(Ended(n, dirp))| == n && forall key: nat :: key in Run(Ended(n, dirp)) <==> key < n
  {
    if n == 0 {
    } else {
      hide Run;
      EndedFill(n - 1, dirp);
      RunTwo(Ended(n - 1, dirp), Enter(n - 1, dirp), Return(n - 1, 0));
      OneMoreEnded(Run(Ended(n - 1, dirp)), n - 1, dirp);
      hide Step;
    }
  }

  lemma OneMoreEnded(bufs: map<nat, nat>, n: nat, dirp: nat)
    requires |bufs| == n < MAX_STASHES && forall key: nat :: key in bufs <==> key < n
    ensures var bufs' := Step(Step(bufs, Enter(n, dirp)), Return(n, 0));
            |bufs'| == n + 1 && forall key: nat :: key in bufs' <==> key < n + 1
  {
    assert bufs[n := dirp].Keys == bufs.Keys + {n};
    assert |bufs[n := dirp]| == |bufs[n := dirp].Keys| && |bufs| == |bufs.Keys|;
  }

  /** Once 1024 threads hold a stash, whatever other threads do leaves the map as it is. */
  lemma {:induction false} FullStaysFull(es: seq<Event>, more: seq<Event>)
    requires |Run(es)| == MAX_STASHES
    requires forall k :: 0 <= k < |more| ==> more[k].key !in Run(es)
    ensures Run(es + more) == Run(es)
    decreases |more|
  {
    hide Run, Step;
    if more == [] {
      assert es + more == es;
    } else {
      var n := |more| - 1;
      FullStaysFull(es, more[..n]);
      assert es + more == (es + more[..n]) + [more[n]];
      RunAppend(es + more[..n], more[n]);
      FullStep(Run(es), more[n]);
    }
  }

  lemma FullStep(bufs: map<nat, nat>, e: Event)
    requires |bufs| == MAX_STASHES && e.key !in bufs
    ensures Step(bufs, e) == bufs
  {
    assert BpfMap.Remove(bufs, e.key) == bufs;
  }

  /** So after 1024 finished listings no other thread's call is ever spliced. */
  lemma FinishedListingsShutOut(dirp: nat, more: seq<Event>, key: nat)
    requires MAX_STASHES <= key && forall k :: 0 <= k < |more| ==> MAX_STASHES <= more[k].key
    ensures key !in Run(Ended(MAX_STASHES, dirp) + more)
    ensures var es := Ended(MAX_STASHES, dirp) + more + [Enter(key, dirp)]; !Admitted(es, |es| - 1)
  {
    var es := Ended(MAX_STASHES, dirp) + more;
    EndedFill(MAX_STASHES, dirp);
    FullStaysFull(Ended(MAX_STASHES, dirp), more);
    StashesAreHolders(es);
    assert (es + [Enter(key, dirp)])[..|es|] == es;
    hide Run, Ended, Holds, Holders;
    RoomForStash(Run(es), key);
    AdmittedAppend(es, Enter(key, dirp), |es|);
  }
}

/** The two getdents64 probes: stash the buffer address on entry, splice on return. */
module PidHide {
  import opened Wrappers
  import opened Bits
  import opened RecordSplice
  import opened Modular
  import opened BufferStash
  import BpfMap

  lemma FirstNulAt(t: seq<byte>, i: nat)
    requires i <= |t| && (forall k :: 0 <= k < i ==> t[k] != 0) && (i < |t| ==> t[i] == 0)
    ensures FirstNul(t) == i
  {
    if 0 < i {
      FirstNulAt(t[1..], i - 1);
    }
  }

  /** Name comparison up to and including the target's terminator. */
  method Eq(name: seq<byte>, target: seq<byte>) returns (r: bool)
    requires |name| == NAME_CAP && |target| == NAME_CAP
    ensures r <==> SameName(name, target)
  {
    var i := 0;
    while i < NAME_CAP
      invariant i <= NAME_CAP
      invariant forall k :: 0 <= k < i ==> target[k] != 0 && name[k] == target[k]
    {
      var t := target[i];
      if t == 0 {
        FirstNulAt(target, i);
        return name[i] == 0;
      }
      if name[i] != t {
        Differs(name, target, i);
        return false;
      }
      i := i + 1;
    }
    FirstNulAt(target, NAME_CAP);
    r := true;
  }

  lemma Differs(name: seq<byte>, target: seq<byte>, i: nat)
    requires |name| == NAME_CAP && |target| == NAME_CAP && i < NAME_CAP
    requires (forall k :: 0 <= k <= i ==> target[k] != 0) && name[i] != target[i]
    ensures !SameName(name, target)
  {
    var n := FirstNul(target);
    assert i < n;
    assert name[..n][i] != target[..n][i];
  }

  /** The single counter of the HIDES map; absent means zero. */
  function Count(hides: map<nat, u64>): u64
  {
    BpfMap.Get(hides, 0, 0)
  }

  class Probes {
    const target: seq<byte>
    var bufs: map<nat, nat>
    var hides: map<nat, u64>
    ghost var trace: seq<Event>

    ghost predicate Valid()
      reads this
    {
      |target| == NAME_CAP && hides.Keys <= {0} && bufs == Run(trace)
    }

    constructor (target: seq<byte>)
      requires |target| == NAME_CAP
      ensures Valid() && this.target == target && trace == [] && hides == map[]
    {
      this.target := target;
      bufs, hides, trace := map[], map[], [];
    }

    method EnterGetdents(key: nat, dirp: nat)
      requires Valid()
      modifies this`bufs, this`trace
      ensures Valid() && trace == old(trace) + [Enter(key, dirp)]
      ensures bufs == if key in old(bufs) || |old(bufs)| < 1024 then old(bufs)[key := dirp] else old(bufs)
    {
      RunAppend(trace, Enter(key, dirp));
      hide Run;
      bufs := BpfMap.Insert(bufs, MAX_STASHES, key, dirp);
      trace := trace + [Enter(key, dirp)];
    }

    method Bump(amount: nat)
      requires Valid()
      modifies this`hides
      ensures Valid() && Count(hides) == (Count(old(hides)) + amount) % U64
    {
      var n := (Count(hides) + amount) % U64;
      BpfMap.InsertHasRoom(hides, 1, 0, n, {0});
      hides := BpfMap.Insert(hides, 1, 0, n);
    }

    /**
     `user` is the caller's memory from the stashed address on, `ret` the byte count the
     call returned. The buffer of a thread that holds a stash becomes what `Probe` says
     and the counter grows by the number of merges; any other return changes nothing.
     */
    method ExitGetdents(key: nat, ret: int, user: array<byte>) returns (ok: bool)
      requires Valid() && ret <= user.Length
      requires 0 < ret && key in bufs ==> bufs[key] != 0
      modifies this`bufs, this`hides, this`trace, user
      ensures Valid() && trace == old(trace) + [Return(key, ret)]
      ensures bufs == if 0 < ret then old(bufs) - {key} else old(bufs)
      ensures ret <= 0 || key !in Holders(old(trace)) ==>
                (ok <==> ret <= 0) && hides == old(hides) && user[..] == old(user[..])
      ensures 0 < ret && key in Holders(old(trace)) ==>
                var out := Probe(old(user[..]), ret, target);
                && user[..] == out.buf
                && (ok <==> !out.faulted)
                && Count(hides) == (Count(old(hides)) + out.merges) % U64
    {
      hide Probe, Count, Run, Holders, Holds, BpfMap.Remove;
      StashedIffHolder(trace, key);
      RunAppend(trace, Return(key, ret));
      RemoveIs(bufs, key);
      trace := trace + [Return(key, ret)];
      if ret <= 0 {
        return true;
      }
      if key !in bufs {
        return false;
      }
      var dirp := bufs[key];
      bufs := BpfMap.Remove(bufs, key);
      ghost var merges;
      ok, merges := Splice(dirp, ret, user);
    }

    /** The bounded walk: addresses are absolute, 0 standing for "no record before". */
    method Splice(dirp: nat, total: nat, user: array<byte>) returns (ok: bool, ghost merges: nat)
      requires Valid() && 0 < dirp && total <= user.Length
      modifies this`hides, user
      ensures Valid()
      ensures var out := Probe(old(user[..]), total, target);
              user[..] == out.buf && merges == out.merges && (ok <==> !out.faulted)
      ensures Count(hides) == (Count(old(hides)) + merges) % U64
    {
      hide RecLen, SetLen, SameName, NameBuf, Count, Scan, Matches, Run, Probe;
      ScanStart(user[..], total, target);
      ghost var hides0 := Count(hides);
      var bpos, prev := 0, 0;
      merges := 0;
      ghost var last: Option<nat> := None;
      for i := 0 to MAX_RECORDS
        invariant Valid()
        invariant if prev == 0 then last == None
                  else dirp <= prev && prev - dirp + 18 <= user.Length && last == Some(prev - dirp)
        invariant Later(Probe(old(user[..]), total, target), merges,
                        Scan(user[..], total, bpos, last, MAX_RECORDS - i, target))
        invariant Count(hides) == (hides0 + merges) % U64
      {
        ScanStops(user[..], total, bpos, last, MAX_RECORDS - i, target);
        if total <= bpos {
          break;
        }
        var addr := dirp + bpos;
        ScanTurn(user[..], total, bpos, last, MAX_RECORDS - i, target);
        if user.Length < bpos + 18 {
          return false, merges;
        }
        var reclen := RecLen(user[..], bpos);
        if reclen == 0 {
          break;
        }
        var hit := Eq(NameBuf(user[..], bpos), target);
        if hit && prev != 0 {
          var merged := (RecLen(user[..], prev - dirp) + reclen) % U16;
          WriteLen(user, prev - dirp, merged);
          ModAdd(hides0 + merges, 1, U64);
          merges := merges + 1;
          Bump(1);
        }
        prev := addr;
        last := Some(bpos);
        bpos := bpos + reclen;
      }
      ScanStops(user[..], total, bpos, last, 0, target);
      ok := true;
    }
  }

  lemma RemoveIs(bufs: map<nat, nat>, key: nat)
    ensures BpfMap.Remove(bufs, key) == bufs - {key}
    ensures key !in bufs ==> bufs - {key} == bufs
  {}

  lemma ScanStart(b: seq<byte>, total: nat, target: seq<byte>)
    requires |target| == NAME_CAP
    ensures Later(Probe(b, total, target), 0, Scan(b, total, 0, None, MAX_RECORDS, target))
  {}

  lemma ScanStops(b: seq<byte>, total: nat, pos: nat, prev: Option<nat>, fuel: nat, target: seq<byte>)
    requires |target| == NAME_CAP && (prev.Some? ==> prev.value + 18 <= |b|)
    ensures fuel == 0 || total <= pos ==> Scan(b, total, pos, prev, fuel, target) == Outcome(b, 0, false)
  {}

  /** One turn of the walk. */
  lemma ScanTurn(b: seq<byte>, total: nat, pos: nat, prev: Option<nat>, fuel: nat, target: seq<byte>)
    requires |target| == NAME_CAP && (prev.Some? ==> prev.value + 18 <= |b|)
    requires 0 < fuel && pos < total
    ensures var out := Scan(b, total, pos, prev, fuel, target);
            if |b| < pos + 18 then out == Outcome(b, 0, true)
            else if RecLen(b, pos) == 0 then out == Outcome(b, 0, false)
            else if SameName(NameBuf(b, pos), target) && prev.Some? then
              var merged := (RecLen(b, prev.value) + RecLen(b, pos)) % U16;
              var rest := Scan(SetLen(b, prev.value, merged), total, pos + RecLen(b, pos), Some(pos), fuel - 1, target);
              out == rest.(merges := rest.merges + 1)
            else out == Scan(b, total, pos + RecLen(b, pos), Some(pos), fuel - 1, target)
  {
    hide RecLen, NameBuf, SameName;
  }

  /** `rest` finishes what `whole` describes, after `done` merges. */
  predicate Later(whole: Outcome, done: nat, rest: Outcome)
  {
    whole.buf == rest.buf && whole.merges == done + rest.merges && whole.faulted == rest.faulted
  }

  method WriteLen(user: array<byte>, off: nat, v: nat)
    requires off + 18 <= user.Length && v < U16
    modifies user
    ensures user[..] == SetLen(old(user[..]), off, v)
  {
    user[off + 16] := v % 0x100;
    user[off + 17] := v / 0x100;
  }

  /**
   Main result. For any trace of the two probes and a call of it that returns a well-formed
   buffer whose merges fit, the caller misses the target iff there is none, or the enter
   probe was admitted and the target is hideable.
   */
  lemma CallerMissesTargetIff(es: seq<Event>, i: nat, b: seq<byte>, total: nat, offs: seq<nat>, target: seq<byte>)
    requires Unreturned(es, i)
    requires |target| == NAME_CAP && Records(b, total, offs) && Fits(b, offs, Flags(b, offs, target), 0)
    ensures var m := Flags(b, offs, target);
            Unseen(Delivered(b, total, target, es[i].key in Holders(es)), total, target) <==>
            (forall j :: 0 <= j < |m| ==> !m[j]) || (Admitted(es, i) && Hideable(m))
  {
    StashesAreHolders(es);
    FoundIffAdmitted(es, i);
    UnseenIff(b, total, offs, target, es[i].key in Holders(es));
    hide *;
  }

  /** After 1024 finished listings every other thread's caller sees whatever is there. */
  lemma ShutOutCallerSeesTarget(dirp: nat, more: seq<Event>, key: nat, b: seq<byte>, total: nat, offs: seq<nat>,
                                target: seq<byte>)
    requires MAX_STASHES <= key && forall k :: 0 <= k < |more| ==> MAX_STASHES <= more[k].key
    requires |target| == NAME_CAP && Records(b, total, offs) && Fits(b, offs, Flags(b, offs, target), 0)
    ensures var es := Ended(MAX_STASHES, dirp) + more + [Enter(key, dirp)];
            && key !in Holders(es)
            && (Unseen(Delivered(b, total, target, key in Holders(es)), total, target) <==>
                  forall j :: 0 <= j < |offs| ==> !Flags(b, offs, target)[j])
  {
    var es := Ended(MAX_STASHES, dirp) + more + [Enter(key, dirp)];
    FinishedListingsShutOut(dirp, more, key);
    StashesAreHolders(es);
    hide Ended, Run, Holders, Admitted, Hideable, Unseen, Records, Fits;
    assert es[|es| - 1] == Enter(key, dirp);
    FoundIffAdmitted(es, |es| - 1);
    CallerMissesTargetIff(es, |es| - 1, b, total, offs, target);
  }
}

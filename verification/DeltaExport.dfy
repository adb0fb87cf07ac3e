/**
 The exporter that turns snapshots of kernel counters into counter increments. Its only
 memory is the last value exported for each key.
 */
module DeltaExport {
  import opened Wrappers
  import opened Bits
  import BpfMap

  datatype Reading = Reading(key: nat, total: u64)

  datatype Increment = Increment(key: nat, amount: u64)

  /** The memory, and every increment exported so far. */
  datatype Export = Export(last: map<nat, u64>, added: seq<Increment>)

  function Remembered(last: map<nat, u64>, key: nat): u64
  {
    if key in last then last[key] else 0
  }

  function Observe(s: Export, r: Reading): Export
  {
    if Remembered(s.last, r.key) < r.total
    then Export(s.last[r.key := r.total], s.added + [Increment(r.key, r.total - Remembered(s.last, r.key))])
    else s
  }

  function After(readings: seq<Reading>): Export
  {
    if readings == [] then Export(map[], [])
    else Observe(After(readings[..|readings| - 1]), readings[|readings| - 1])
  }

  /** The readings an iteration yields before its first error, at which the report gives up. */
  function UntilError(items: seq<Result<Reading>>): (readings: seq<Reading>)
    ensures |readings| <= |items|
    ensures forall k :: 0 <= k < |readings| ==> items[k] == Ok(readings[k])
    ensures |readings| < |items| ==> items[|readings|].Err?
  {
    if items == [] || items[0].Err? then [] else [items[0].value] + UntilError(items[1..])
  }

  class Exporter {
    var last: map<nat, u64>
    var added: seq<Increment>
    ghost var readings: seq<Reading>

    ghost predicate Valid()
      reads this
    {
      Export(last, added) == After(readings)
    }

    constructor ()
      ensures Valid() && readings == [] && added == []
    {
      last, added, readings := map[], [], [];
    }

    method Report(items: seq<Result<Reading>>) returns (r: Result<()>)
      requires Valid()
      modifies this
      ensures Valid() && readings == old(readings) + UntilError(items)
      ensures r.Ok? <==> forall k :: 0 <= k < |items| ==> items[k].Ok?
    {
      hide After, UntilError;
      WholeList(items);
      for i := 0 to |items|
        invariant Valid()
        invariant readings + UntilError(items[i..]) == old(readings) + UntilError(items)
        invariant forall k :: 0 <= k < i ==> items[k].Ok?
      {
        UntilErrorStep(items, i, readings);
        if items[i].Err? {
          return Err;
        }
        var reading := items[i].value;
        AfterAppend(readings, reading);
        var prev := Remembered(last, reading.key);
        if reading.total > prev {
          added := added + [Increment(reading.key, reading.total - prev)];
          last := last[reading.key := reading.total];
        }
        readings := readings + [reading];
      }
      UntilErrorEnd(items, readings);
      r := Ok(());
    }
  }

  lemma WholeList(items: seq<Result<Reading>>)
    ensures items[0..] == items && items[..|items|] == items
  {}

  lemma UntilErrorStep(items: seq<Result<Reading>>, i: nat, before: seq<Reading>)
    requires i < |items|
    ensures items[i].Err? ==> before + UntilError(items[i..]) == before
    ensures items[i].Ok? ==> before + UntilError(items[i..]) == (before + [items[i].value]) + UntilError(items[i + 1..])
  {
    assert items[i..][1..] == items[i + 1..];
    if items[i].Ok? {
      Reassociate(before, items[i].value, UntilError(items[i + 1..]));
    }
  }

  lemma UntilErrorEnd(items: seq<Result<Reading>>, before: seq<Reading>)
    ensures before + UntilError(items[|items|..]) == before
  {}

  lemma AfterAppend(readings: seq<Reading>, r: Reading)
    ensures After(readings + [r]) == Observe(After(readings), r)
  {
    assert (readings + [r])[..|readings|] == readings;
  }

  lemma Reassociate(a: seq<Reading>, r: Reading, b: seq<Reading>)
    ensures a + ([r] + b) == (a + [r]) + b
  {}

  // ----- what has been exported ------------------------------------------------------------

  /** The largest value ever read for a key, 0 if none. */
  function MaxRead(readings: seq<Reading>, key: nat): (m: u64)
    ensures forall k :: 0 <= k < |readings| && readings[k].key == key ==> readings[k].total <= m
    ensures m != 0 ==> exists k :: 0 <= k < |readings| && readings[k].key == key && readings[k].total == m
  {
    if readings == [] then 0
    else
      var n := |readings| - 1;
      var m := MaxRead(readings[..n], key);
      if readings[n].key == key && m < readings[n].total then readings[n].total else m
  }

  /** All increments of a key added up. */
  function Added(added: seq<Increment>, key: nat): nat
  {
    if added == [] then 0
    else
      var n := |added| - 1;
      Added(added[..n], key) + if added[n].key == key then added[n].amount else 0
  }

  lemma AddedAppend(added: seq<Increment>, i: Increment, key: nat)
    ensures Added(added + [i], key) == Added(added, key) + if i.key == key then i.amount else 0
  {
    assert (added + [i])[..|added|] == added;
  }

  /**
   Main result. Whatever the readings, growing or not, the increments exported for a key
   add up to the largest value read for it.
   */
  lemma {:induction false} ExportsRunningMax(readings: seq<Reading>, key: nat)
    ensures Remembered(After(readings).last, key) == MaxRead(readings, key)
    ensures Added(After(readings).added, key) == MaxRead(readings, key)
  {
    if readings == [] {
    } else {
      var n := |readings| - 1;
      ExportsRunningMax(readings[..n], key);
      var s, r := After(readings[..n]), readings[n];
      if Remembered(s.last, r.key) < r.total {
        AddedAppend(s.added, Increment(r.key, r.total - Remembered(s.last, r.key)), key);
      }
    }
  }

  // ----- labels: several keys may share one -----------------------------------------------------

  datatype Proto = Icmp | Tcp | Udp | Other

  function ProtoName(key: nat): Proto
  {
    match key
    case 1 => Icmp
    case 6 => Tcp
    case 17 => Udp
    case _ => Other
  }

  /** All increments under a label added up: what the exported counter shows. */
  function AddedUnder(added: seq<Increment>, name: Proto): nat
  {
    if added == [] then 0
    else
      var n := |added| - 1;
      AddedUnder(added[..n], name) + if ProtoName(added[n].key) == name then added[n].amount else 0
  }

  lemma AddedUnderAppend(added: seq<Increment>, i: Increment, name: Proto)
    ensures AddedUnder(added + [i], name) == AddedUnder(added, name) + if ProtoName(i.key) == name then i.amount else 0
  {
    assert (added + [i])[..|added|] == added;
  }

  /** The largest value read for each key of a label. */
  ghost function MaximaUnder(last: map<nat, u64>, name: Proto): map<nat, nat>
  {
    map key | key in last && ProtoName(key) == name :: last[key]
  }

  lemma MaximaUnderWith(last: map<nat, u64>, key: nat, total: u64, name: Proto)
    requires Remembered(last, key) < total
    ensures BpfMap.Total(MaximaUnder(last[key := total], name)) ==
            BpfMap.Total(MaximaUnder(last, name)) + if ProtoName(key) == name then total - Remembered(last, key) else 0
  {
    var before, now := MaximaUnder(last, name), MaximaUnder(last[key := total], name);
    hide ProtoName, BpfMap.Total;
    if ProtoName(key) == name {
      BpfMap.TotalWithout(now, key);
      if key in last {
        BpfMap.TotalWithout(before, key);
        assert now - {key} == before - {key};
      } else {
        assert now - {key} == before;
      }
    } else {
      assert now == before;
    }
  }

  /** A label shows the sum, over its keys, of the largest value read for each. */
  lemma {:induction false} LabelShowsSumOfMaxima(readings: seq<Reading>, name: Proto)
    ensures AddedUnder(After(readings).added, name) == BpfMap.Total(MaximaUnder(After(readings).last, name))
  {
    hide MaximaUnder, ProtoName, BpfMap.Total;
    if readings == [] {
      NoMaxima(name);
    } else {
      var n := |readings| - 1;
      LabelShowsSumOfMaxima(readings[..n], name);
      LabelStep(After(readings[..n]), readings[n], name);
      hide Observe, AddedUnder;
    }
  }

  lemma NoMaxima(name: Proto)
    ensures BpfMap.Total(MaximaUnder(map[], name)) == 0
  {
    assert MaximaUnder(map[], name) == map[];
  }

  lemma LabelStep(s: Export, r: Reading, name: Proto)
    requires AddedUnder(s.added, name) == BpfMap.Total(MaximaUnder(s.last, name))
    ensures AddedUnder(Observe(s, r).added, name) == BpfMap.Total(MaximaUnder(Observe(s, r).last, name))
  {
    hide MaximaUnder, ProtoName, BpfMap.Total, AddedUnder;
    if Remembered(s.last, r.key) < r.total {
      AddedUnderAppend(s.added, Increment(r.key, r.total - Remembered(s.last, r.key)), name);
      MaximaUnderWith(s.last, r.key, r.total, name);
    }
  }

  /** Protocols 1, 6 and 17 have labels of their own, which show the largest value read for them. */
  lemma NamedProtocols(readings: seq<Reading>)
    ensures AddedUnder(After(readings).added, Icmp) == MaxRead(readings, 1)
    ensures AddedUnder(After(readings).added, Tcp) == MaxRead(readings, 6)
    ensures AddedUnder(After(readings).added, Udp) == MaxRead(readings, 17)
  {
    OneKeyLabel(After(readings).added, 1, Icmp);
    OneKeyLabel(After(readings).added, 6, Tcp);
    OneKeyLabel(After(readings).added, 17, Udp);
    hide After, AddedUnder;
    ExportsRunningMax(readings, 1);
    ExportsRunningMax(readings, 6);
    ExportsRunningMax(readings, 17);
  }

  lemma {:induction false} OneKeyLabel(added: seq<Increment>, key: nat, name: Proto)
    requires forall k: nat :: ProtoName(k) == name <==> k == key
    ensures AddedUnder(added, name) == Added(added, key)
  {
    if added == [] {
    } else {
      OneKeyLabel(added[..|added| - 1], key, name);
    }
  }

  /** Every increment of any other protocol goes under the remaining label. */
  lemma {:induction false} RemainingProtocols(added: seq<Increment>)
    requires forall k :: 0 <= k < |added| ==> added[k].key != 1 && added[k].key != 6 && added[k].key != 17
    ensures AddedUnder(added, Other) == AllAdded(added)
  {
    if added == [] {
    } else {
      RemainingProtocols(added[..|added| - 1]);
    }
  }

  function AllAdded(added: seq<Increment>): nat
  {
    if added == [] then 0 else AllAdded(added[..|added| - 1]) + added[|added| - 1].amount
  }
}

/**
 The producer library, the consumer program and the produce loop, run in turn on one
 ring. Every method moves through the steps of the state machine, so what is proved
 about runs holds here too.
 */
module UserRing {
  import opened Wrappers
  import opened Bits
  import opened Modular
  import opened RingProtocol
  import opened RingInvariant
  import BpfMap

  /** A claimed record: where its header is and how long its payload is. */
  datatype RbEntry = RbEntry(hdr: nat, size: u64)

  // ----- samples ---------------------------------------------------------------------

  const SAMPLE: nat := 8

  /** `n` little-endian bytes. */
  function Encode(n: nat, v: nat): (bs: seq<byte>)
    ensures |bs| == n
  {
    if n == 0 then [] else [v % 0x100] + Encode(n - 1, v / 0x100)
  }

  function Decode(bs: seq<byte>): nat
  {
    if bs == [] then 0 else bs[0] + 0x100 * Decode(bs[1..])
  }

  lemma {:induction false} DecodeEncode(n: nat, v: nat)
    requires v < Pow2(8 * n)
    ensures Decode(Encode(n, v)) == v
  {
    if n == 0 {
    } else {
      var p := Pow2(8 * (n - 1));
      Pow2Add(8, 8 * (n - 1));
      assert Pow2(8) == 256;
      DecodeEncode(n - 1, v / 0x100);
      EncodeHead(n, v);
      hide Encode, Decode, Pow2;
    }
  }

  lemma EncodeHead(n: nat, v: nat)
    requires 0 < n
    ensures Decode(Encode(n, v)) == v % 0x100 + 0x100 * Decode(Encode(n - 1, v / 0x100))
  {
    assert Encode(n, v)[1..] == Encode(n - 1, v / 0x100);
  }

  /** Eight bytes, least significant first. */
  lemma DecodeEight(bs: seq<byte>)
    requires |bs| == 8
    ensures Decode(bs) == bs[0] + 0x100 * (bs[1] as int) + 0x1_0000 * (bs[2] as int) + 0x100_0000 * (bs[3] as int)
              + 0x1_0000_0000 * (bs[4] as int) + 0x100_0000_0000 * (bs[5] as int) + 0x1_0000_0000_0000 * (bs[6] as int)
              + 0x100_0000_0000_0000 * (bs[7] as int)
  {
    DecodeFour(bs);
    DecodeFour(bs[4..]);
    assert bs[4..][4..] == [];
  }

  lemma DecodeFour(bs: seq<byte>)
    requires 4 <= |bs|
    ensures Decode(bs) == bs[0] + 0x100 * (bs[1] as int) + 0x1_0000 * (bs[2] as int) + 0x100_0000 * (bs[3] as int)
              + 0x1_0000_0000 * Decode(bs[4..])
  {
    assert bs[1..][1..] == bs[2..] && bs[2..][1..] == bs[3..] && bs[3..][1..] == bs[4..];
    assert Decode(bs[1..]) == bs[1] + 0x100 * Decode(bs[2..]);
    assert Decode(bs[2..]) == bs[2] + 0x100 * Decode(bs[3..]);
    assert Decode(bs[3..]) == bs[3] + 0x100 * Decode(bs[4..]);
  }

  /** The payloads long enough to hold a sample; the callback skips the others. */
  function Values(ps: seq<seq<byte>>): seq<nat>
  {
    if ps == [] then []
    else
      var p := ps[|ps| - 1];
      Values(ps[..|ps| - 1]) + (if SAMPLE <= |p| then [Decode(p[..SAMPLE])] else [])
  }

  function Sum(vs: seq<nat>): nat
  {
    if vs == [] then 0 else Sum(vs[..|vs| - 1]) + vs[|vs| - 1]
  }

  lemma ValuesAppend(ps: seq<seq<byte>>, p: seq<byte>)
    ensures Values(ps + [p]) == Values(ps) + (if SAMPLE <= |p| then [Decode(p[..SAMPLE])] else [])
  {
    assert (ps + [p])[..|ps|] == ps;
  }

  lemma SumAppend(vs: seq<nat>, v: nat)
    ensures Sum(vs + [v]) == Sum(vs) + v
  {
    assert (vs + [v])[..|vs|] == vs;
  }

  function Samples(vs: seq<nat>): seq<seq<byte>>
  {
    if vs == [] then [] else Samples(vs[..|vs| - 1]) + [Encode(SAMPLE, vs[|vs| - 1])]
  }

  lemma {:induction false} SamplesValues(vs: seq<nat>)
    requires forall i :: 0 <= i < |vs| ==> vs[i] < U64
    ensures Values(Samples(vs)) == vs
  {
    hide Encode, Decode, Pow2;
    if vs == [] {
    } else {
      var front, v := vs[..|vs| - 1], vs[|vs| - 1];
      SamplesValues(front);
      Pow2Constants();
      DecodeEncode(SAMPLE, v);
      ValuesAppend(Samples(front), Encode(SAMPLE, v));
      assert Encode(SAMPLE, v)[..SAMPLE] == Encode(SAMPLE, v);
      assert vs == front + [v];
    }
  }

  lemma SamplesAppend(vs: seq<nat>, v: nat)
    ensures Samples(vs + [v]) == Samples(vs) + [Encode(SAMPLE, v)]
  {
    assert (vs + [v])[..|vs|] == vs;
  }

  /** 1, 2, ..., n */
  function Upto(n: nat): (vs: seq<nat>)
    ensures |vs| == n
    ensures forall i :: 0 <= i < n ==> vs[i] == i + 1
  {
    if n == 0 then [] else Upto(n - 1) + [n]
  }

  lemma UptoNext(i: nat)
    requires 1 <= i
    ensures Upto(i) == Upto(i - 1) + [i]
  {}

  function Triangle(n: nat): nat
  {
    n * (n + 1) / 2
  }

  lemma {:induction false} SumUpto(n: nat)
    ensures Sum(Upto(n)) == Triangle(n)
  {
    if n == 0 {
    } else {
      SumUpto(n - 1);
      SumAppend(Upto(n - 1), n);
      assert n * (n + 1) == (n - 1) * n + 2 * n;
    }
  }

  // ----- reserving --------------------------------------------------------------------

  lemma PowerBelow(n: nat)
    requires IsPowerOfTwo(n) && n < 0x1_0000_0000
    ensures n <= BUSY
  {
    hide Pow2;
    var k := PowerOfTwoOrder(n);
    Pow2Constants();
    if 32 <= k {
      Pow2Monotone(32, k);
    } else {
      Pow2Monotone(k, 31);
    }
  }

  /** The four steps of an undisturbed reserve, in machine terms. */
  function Reserved(s: Sys, size: u64): Sys
  {
    var off := And(s.prod, s.Mask());
    s.(data := SetWord(SetWord(s.data, off, HeaderWord(size)), off + 4, 0),
       prod := (s.prod + Total(size)) % U64,
       p := Owned(off, size))
  }

  function ReserveEvents(size: u64): seq<Event>
  {
    [LoadCons(size), WriteLen, WritePad, Publish]
  }

  lemma ExecAppend(s: Sys, es: seq<Event>, e: Event)
    ensures Exec(s, es + [e]) == Next(Exec(s, es), e)
  {
    hide Next;
    assert (es + [e])[..|es|] == es;
  }

  lemma ExecFour(s: Sys, a: Event, b: Event, c: Event, d: Event)
    ensures Exec(s, [a, b, c, d]) == Next(Next(Next(Next(s, a), b), c), d)
  {
    hide Next;
    assert Exec(s, []) == s;
    hide Exec;
    ExecAppend(s, [], a);
    ExecAppend(s, [a], b);
    ExecAppend(s, [a, b], c);
    ExecAppend(s, [a, b, c], d);
    assert [] + [a] == [a] && [a] + [b] == [a, b];
    assert [a, b] + [c] == [a, b, c] && [a, b, c] + [d] == [a, b, c, d];
  }

  lemma ReserveSteps(s: Sys, size: u64)
    requires s.p.Idle?
    ensures Total(size) <= s.Avail(s.cons) ==> Exec(s, ReserveEvents(size)) == Reserved(s, size)
    ensures Total(size) > s.Avail(s.cons) ==> Next(Next(s, LoadCons(size)), WriteLen) == s
  {
    hide And, Word, SetWord, HeaderWord, Total, WrapSub, Exec, Byte;
    var s1 := Next(s, LoadCons(size));
    assert s1 == s.(p := Loaded(size, s.cons));
    if Total(size) <= s.Avail(s.cons) {
      ExecFour(s, LoadCons(size), WriteLen, WritePad, Publish);
      var off := And(s.prod, s.Mask());
      var s2 := Next(s1, WriteLen);
      assert s2 == s.(data := SetWord(s.data, off, HeaderWord(size)), p := LenWritten(size));
      var s3 := Next(s2, WritePad);
      assert s3 == s.(data := SetWord(SetWord(s.data, off, HeaderWord(size)), off + 4, 0), p := PadWritten(size));
    }
  }

  lemma ReserveGhosts(s: Sys, g: Ghosts, size: u64)
    requires s.p.Idle?
    ensures var s1, g1 := Next(s, LoadCons(size)), GhostNext(s, g, LoadCons(size));
            var s2, g2 := Next(s1, WriteLen), GhostNext(s1, g1, WriteLen);
            var s3, g3 := Next(s2, WritePad), GhostNext(s2, g2, WritePad);
            && s1.p.Loaded? && g2.recs == g.recs
            && (Total(size) <= s.Avail(s.cons) ==>
                  GhostNext(s3, g3, Publish).recs == g.recs + [Rec(g.P, size, [], false)])
  {
    hide And, Word, SetWord, HeaderWord, Total, WrapSub;
  }

  lemma RoundedClaim(size: u64)
    ensures size <= 0xffff_ffff_ffff_fff0 ==> Total(size) == RoundUp8(size + HDR) == (size + 15) / 8 * 8
  {}

  /** The bytes of a copied payload follow the 8-byte header. */
  lemma PayloadInPlace(s: Sys, g: Ghosts)
    requires Inv(s, g) && s.p.Copying?
    ensures forall k :: 0 <= k < s.p.i ==> Byte(s.data, s.p.hdr + 8 + k) == s.p.src[k]
  {
    hide Byte, Word, Ring, ConsumerOk;
    var r := g.recs[|g.recs| - 1];
    forall k | 0 <= k < s.p.i
      ensures Byte(s.data, s.p.hdr + 8 + k) == s.p.src[k]
    {
      SameByte(s.data, r.pos, HDR + k);
      assert Byte(s.data, r.pos + HDR + k) == s.p.src[k];
    }
  }

  lemma FreeSpace(s: Sys, g: Ghosts, size: u64)
    requires Inv(s, g)
    ensures s.Unread() <= |s.data|
    ensures size <= MAX_SIZE ==> Total(size) == RoundUp8(size + HDR)
    ensures Total(size) <= |s.data| - s.Unread() ==>
              WrapSub((s.prod + Total(size)) % U64, s.cons, U64) == s.Unread() + Total(size)
  {
    hide Stored, Tiled, ReadyPayloads, ProducerOk, ConsumerOk, IsPowerOfTwo, WrapSub, Total, RoundUp8;
    TotalExact(size);
    ModDistance(g.C, g.P, U64);
    if Total(size) <= |s.data| - s.Unread() {
      ModAdd(g.P, Total(size), U64);
      ModDistance(g.C, g.P + Total(size), U64);
    }
  }

  predicate SameConsumer(a: Sys, b: Sys)
  {
    a.cons == b.cons && a.c == b.c && a.delivered == b.delivered
  }

  predicate SameButProducer(a: Sys, b: Sys)
  {
    SameConsumer(a, b) && a.prod == b.prod
  }

  lemma ProducerStepKeeps(s: Sys, e: Event)
    requires !IsConsumerEvent(e)
    ensures SameConsumer(Next(s, e), s)
    ensures !e.Submit? ==> Next(s, e).submitted == s.submitted
  {
    hide And, Or, Word, SetWord, SetByte, HeaderWord, ClearBusy, Total, WrapSub;
  }

  lemma ReserveKeepsConsumer(s: Sys, size: u64)
    ensures SameConsumer(Exec(s, ReserveEvents(size)), s)
    ensures Exec(s, ReserveEvents(size)).submitted == s.submitted
  {
    ExecFour(s, LoadCons(size), WriteLen, WritePad, Publish);
    hide Exec, Next;
    var s1 := Next(s, LoadCons(size));
    var s2 := Next(s1, WriteLen);
    var s3 := Next(s2, WritePad);
    ProducerStepKeeps(s, LoadCons(size));
    ProducerStepKeeps(s1, WriteLen);
    ProducerStepKeeps(s2, WritePad);
    ProducerStepKeeps(s3, Publish);
  }

  lemma CopyStarts(s: Sys, g: Ghosts, src: seq<byte>)
    requires s.p.Owned?
    ensures Next(s, BeginCopy(src)) == s.(p := if |src| == s.p.size then Copying(s.p.hdr, src, 0) else Idle)
    ensures GhostNext(s, g, BeginCopy(src)) == g
  {}

  lemma CopyContinues(s: Sys, g: Ghosts)
    requires s.p.Copying? && s.p.i < |s.p.src|
    ensures Next(s, CopyByte) ==
            s.(data := SetByte(s.data, s.p.hdr + HDR + s.p.i, s.p.src[s.p.i]),
               p := Copying(s.p.hdr, s.p.src, s.p.i + 1))
    ensures GhostNext(s, g, CopyByte) == g
  {}

  lemma SubmitEnds(s: Sys)
    requires s.p.Copying? && s.p.i == |s.p.src|
    ensures Next(s, Submit) ==
            s.(data := SetWord(s.data, s.p.hdr, ClearBusy(Word(s.data, s.p.hdr))), p := Idle,
               submitted := s.submitted + [s.p.src])
  {
    hide Word, SetWord, ClearBusy;
  }

  lemma SubmitGhosts(s: Sys, g: Ghosts)
    requires Inv(s, g) && s.p.Copying? && s.p.i == |s.p.src|
    ensures var m := |g.recs| - 1;
            && 0 <= m
            && GhostNext(s, g, Submit).recs == g.recs[..m] + [g.recs[m].(payload := s.p.src, ready := true)]
  {
    hide Ring;
  }

  // ----- draining ----------------------------------------------------------------------

  lemma DrainPeek(s: Sys, g: Ghosts)
    requires Inv(s, g) && s.c.Waiting?
    ensures var s1, g1 := Next(s, LoadProd), GhostNext(s, g, LoadProd);
            && s1 == s.(c := Seen(s.prod)) && g1 == g.(P0 := g.P)
            && GhostNext(s1, g1, Peek) == g1
            && Next(s1, Peek) ==
               if g.recs != [] && g.recs[0].ready then s.(c := Reading(g.recs[0].size, [])) else s
  {
    var s1, g1 := Next(s, LoadProd), GhostNext(s, g, LoadProd);
    hide Stored, Tiled, ReadyPayloads, Word, And, IsPowerOfTwo, ConsumerStep;
    if g.recs != [] {
      HeadBelow(s, g);
    } else {
      EmptySpan(s, g);
    }
    LoadProdStep(s);
    NextKeepsInv(s, g, LoadProd);
    PeekStep(s1, g1);
  }

  lemma LoadProdStep(s: Sys)
    ensures s.c.Waiting? ==> Next(s, LoadProd) == s.(c := Seen(s.prod))
  {
    hide Word, And;
  }

  /** The stop test of the helper, on the bytes it looks at. */
  predicate Stops(s: Sys)
  {
    s.cons == s.prod || And(Word(s.data, And(s.cons, s.Mask())), BUSY) != 0
  }

  lemma PeekStops(s: Sys, g: Ghosts)
    requires Inv(s, g) && s.c.Waiting?
    ensures var s1, g1 := Next(s, LoadProd), GhostNext(s, g, LoadProd);
            && s1.c == Seen(s.prod)
            && g1.recs == g.recs && GhostNext(s1, g1, Peek) == g1
            && Next(s1, Peek) ==
               if Stops(s) then s else s.(c := Reading(Word(s.data, And(s.cons, s.Mask())), []))
    ensures Stops(s) <==> g.recs == [] || !g.recs[0].ready
  {
    hide Inv, Word, And, Next, GhostNext, ConsumerStep;
    DrainPeek(s, g);
    PeekTest(s);
  }

  lemma PeekTest(s: Sys)
    requires s.c.Waiting?
    ensures Next(s.(c := Seen(s.prod)), Peek) ==
            if Stops(s) then s else s.(c := Reading(Word(s.data, And(s.cons, s.Mask())), []))
  {
    hide Word, And;
  }

  lemma ReadOne(s: Sys, g: Ghosts)
    requires s.c.Reading? && |s.c.got| < s.c.len
    ensures Next(s, ReadByte) ==
            s.(c := Reading(s.c.len, s.c.got + [Byte(s.data, And(s.cons, s.Mask()) + HDR + |s.c.got|)]))
    ensures GhostNext(s, g, ReadByte) == g
  {
    hide Byte, And;
  }

  lemma ReleaseOne(s: Sys, g: Ghosts)
    requires Inv(s, g) && s.c.Reading? && |s.c.got| == s.c.len
    ensures Next(s, Release) ==
            s.(cons := (s.cons + RoundUp8(s.c.len + HDR)) % U64, c := Waiting,
               delivered := s.delivered + [s.c.got])
    ensures g.recs != [] && g.recs[0].ready && GhostNext(s, g, Release).recs == g.recs[1..]
  {
    hide Ring, Byte, And;
  }

  lemma EmptySpan(s: Sys, g: Ghosts)
    requires Ring(s, g) && g.recs == []
    ensures g.C == g.P
  {}

  lemma HeadBelow(s: Sys, g: Ghosts)
    requires Ring(s, g) && g.recs != []
    ensures g.C < g.P
  {
    hide Stored, ReadyPayloads, IsPowerOfTwo, RoundUp8;
    RoundUpBounds(g.recs[0].size + HDR);
  }

  // ----- the whole stream ------------------------------------------------------------------

  ghost predicate AllReady(recs: seq<Rec>)
  {
    forall i :: 0 <= i < |recs| ==> recs[i].ready
  }

  lemma ReadyAreWaiting(s: Sys, g: Ghosts)
    requires Inv(s, g) && AllReady(g.recs)
    ensures |s.submitted| == |s.delivered| + |g.recs|
  {
    hide Stored, Tiled, Positions, ProducerOk, ConsumerOk, ReadyPayloads;
    ReadyCount(g.recs);
  }

  lemma {:induction false} ReadyCount(recs: seq<Rec>)
    requires AllReady(recs)
    ensures |ReadyPayloads(recs)| == |recs|
  {
    if recs == [] {
    } else {
      ReadyCount(recs[1..]);
    }
  }

  lemma NothingYet()
    ensures Samples([]) == [] && Sum(Upto(0)) == 0 && Upto(0) == [] && AllReady([])
  {}

  lemma EmptyRing(s: Sys, g: Ghosts)
    requires Inv(s, g)
    ensures g.recs == [] ==> s.Unread() == 0
  {
    hide Stored, ReadyPayloads, ProducerOk, ConsumerOk, IsPowerOfTwo;
  }

  lemma {:induction false} SamplesPrefix(vs: seq<nat>, ps: seq<seq<byte>>)
    requires ps <= Samples(vs)
    ensures |Samples(vs)| == |vs| && ps == Samples(vs[..|ps|])
  {
    hide Encode;
    SamplesLength(vs);
    if |ps| == |vs| {
      assert vs[..|ps|] == vs;
    } else {
      var front := vs[..|vs| - 1];
      SamplesLength(front);
      SamplesPrefix(front, ps);
      assert vs[..|ps|] == front[..|ps|];
    }
  }

  lemma {:induction false} SamplesLength(vs: seq<nat>)
    ensures |Samples(vs)| == |vs|
  {
    hide Encode;
    if vs == [] {
    } else {
      SamplesLength(vs[..|vs| - 1]);
    }
  }

  lemma DeliveredFromInv(s: Sys, g: Ghosts)
    requires Inv(s, g)
    ensures s.delivered <= s.submitted
    ensures g.recs == [] ==> s.delivered == s.submitted
  {
    hide Stored, Tiled, ProducerOk, ConsumerOk, IsPowerOfTwo;
  }

  /** The aggregate read back is the count and sum of the accepted values that arrived. */
  lemma FinalAggregate(s: Sys, g: Ghosts, agg: map<nat, u64>, accepted: seq<nat>)
    requires Inv(s, g) && Aggregates(agg, s.delivered) && s.submitted == Samples(accepted)
    requires forall k :: 0 <= k < |accepted| ==> accepted[k] < U64
    ensures |s.delivered| <= |accepted| == |s.submitted|
    ensures g.recs == [] ==> |s.delivered| == |accepted| && accepted[..|s.delivered|] == accepted
    ensures BpfMap.Get(agg, 0, 0) == |s.delivered| % U64
    ensures BpfMap.Get(agg, 1, 0) == Sum(accepted[..|s.delivered|]) % U64
  {
    hide Inv, Samples, Values, Sum;
    DeliveredFromInv(s, g);
    SamplesPrefix(accepted, s.delivered);
    SamplesValues(accepted[..|s.delivered|]);
  }

  // ----- the objects -----------------------------------------------------------------------

  /** The aggregate after those payloads went through the callback: count and sum, in u64. */
  predicate Aggregates(agg: map<nat, u64>, ps: seq<seq<byte>>)
  {
    && agg.Keys <= {0, 1}
    && BpfMap.Get(agg, 0, 0) == |Values(ps)| % U64
    && BpfMap.Get(agg, 1, 0) == Sum(Values(ps)) % U64
  }

  lemma AggregateKeys(agg: map<nat, u64>, ps: seq<seq<byte>>)
    requires Aggregates(agg, ps)
    ensures agg.Keys <= {0, 1}
  {}

  /** One counter with an amount added, modulo 2^64. */
  function Plus(agg: map<nat, u64>, key: nat, amount: nat): map<nat, u64>
  {
    agg[key := (BpfMap.Get(agg, key, 0) + amount) % U64]
  }

  function Counted(agg: map<nat, u64>, v: nat): map<nat, u64>
  {
    Plus(Plus(agg, 0, 1), 1, v)
  }

  lemma CountedIs(agg: map<nat, u64>, v: nat)
    ensures BpfMap.Get(Counted(agg, v), 0, 0) == (BpfMap.Get(agg, 0, 0) as int + 1) % 0x1_0000_0000_0000_0000
    ensures BpfMap.Get(Counted(agg, v), 1, 0) == (BpfMap.Get(agg, 1, 0) + v) % 0x1_0000_0000_0000_0000
  {}

  lemma AggregateStep(agg: map<nat, u64>, ps: seq<seq<byte>>, p: seq<byte>)
    requires Aggregates(agg, ps)
    ensures Aggregates(if SAMPLE <= |p| then Counted(agg, Decode(p[..SAMPLE])) else agg, ps + [p])
  {
    ValuesAppend(ps, p);
    var vs := Values(ps);
    hide Values, Sum, Decode;
    if SAMPLE <= |p| {
      var v := Decode(p[..SAMPLE]);
      SumAppend(vs, v);
      ModAdd(|vs|, 1, U64);
      ModAdd(Sum(vs), v, U64);
    } else {
      assert vs + [] == vs;
    }
  }

  /** The mapped pages of the ring, the aggregate map, and the state they stand for. */
  class UserRb {
    const mask: nat
    const data: array<byte>
    var consumer: u64
    var producer: u64
    var agg: map<nat, u64>
    ghost var sys: Sys
    ghost var ghosts: Ghosts

    /** The fields agree with the machine state. */
    ghost predicate Mirrors()
      reads this, data
    {
      && mask + 1 == data.Length
      && sys.data == data[..] && sys.cons == consumer && sys.prod == producer
    }

    ghost predicate Valid()
      reads this, data
    {
      && Mirrors()
      && Inv(sys, ghosts)
      && Aggregates(agg, sys.delivered)
    }

    constructor (area: array<byte>)
      requires 0 < area.Length && Capacity(area.Length)
      ensures Valid() && data == area && sys == Init(area[..], 0)
    {
      mask, data := area.Length - 1, area;
      consumer, producer, agg := 0, 0, map[];
      sys, ghosts := Init(area[..], 0), Ghosts(0, 0, [], 0, 0);
    }

    /** A ring is opened only over a power-of-two number of bytes. */
    static method Open(maxEntries: nat, area: array<byte>) returns (r: Result<UserRb>)
      requires area.Length == maxEntries < 0x1_0000_0000
      ensures r.Ok? <==> exists k: nat :: maxEntries == Pow2(k)
      ensures r.Ok? ==> fresh(r.value) && r.value.Valid() && r.value.data == area
                        && r.value.sys == Init(area[..], 0)
    {
      forall k: nat | maxEntries == Pow2(k)
        ensures IsPowerOfTwo(maxEntries)
      {
        Pow2IsPowerOfTwo(k);
      }
      if !IsPowerOfTwo(maxEntries) {
        return Err;
      }
      var k := PowerOfTwoOrder(maxEntries);
      PowerBelow(maxEntries);
      var ring := new UserRb(area);
      return Ok(ring);
    }

    method StoreByte(i: nat, b: byte)
      requires 0 < data.Length
      modifies data
      ensures data[..] == SetByte(old(data[..]), i, b)
    {
      data[i % data.Length] := b;
    }

    method StoreWord(i: nat, v: nat)
      requires 0 < data.Length && v < 0x1_0000_0000
      modifies data
      ensures data[..] == SetWord(old(data[..]), i, v)
    {
      hide SetByte;
      StoreByte(i, v % 0x100);
      StoreByte(i + 1, v / 0x100 % 0x100);
      StoreByte(i + 2, v / 0x1_0000 % 0x100);
      StoreByte(i + 3, v / 0x100_0000);
    }

    ghost method Step(e: Event)
      requires Inv(sys, ghosts) && Fits(e)
      modifies this`sys, this`ghosts
      ensures Inv(sys, ghosts)
      ensures sys == Next(old(sys), e) && ghosts == GhostNext(old(sys), old(ghosts), e)
    {
      NextKeepsInv(sys, ghosts, e);
      sys, ghosts := Next(sys, e), GhostNext(sys, ghosts, e);
    }

    /**
     Claims a record: it succeeds exactly when its rounded length fits the free space, and
     then has taken the four steps of the protocol; otherwise nothing changes. That length
     wraps beyond MAX_SIZE, where the steps are still these but no longer keep the ring
     whole.
     */
    method Reserve(size: u64) returns (r: Result<RbEntry>)
      requires Valid() && sys.p.Idle?
      modifies this`producer, this`sys, this`ghosts, data
      ensures Mirrors() && (size <= MAX_SIZE || r.Err? ==> Valid())
      ensures r.Ok? <==> Total(size) <= data.Length - old(sys.Unread())
      ensures size <= 0xffff_ffff_ffff_fff0 ==> (r.Ok? <==> (size + 15) / 8 * 8 <= data.Length - old(sys.Unread()))
      ensures r.Ok? ==>
                && sys == Exec(old(sys), [LoadCons(size), WriteLen, WritePad, Publish])
                && sys.p == Owned(r.value.hdr, size) && r.value.size == size
      ensures r.Ok? && size <= MAX_SIZE ==>
                && sys.Unread() == old(sys.Unread()) + (size + 15) / 8 * 8
                && ghosts.recs == old(ghosts.recs) + [Rec(old(ghosts.P), size, [], false)]
      ensures r.Err? ==> sys == old(sys) && data[..] == old(data[..]) && ghosts.recs == old(ghosts.recs)
    {
      hide Inv, Aggregates, And, Word, SetWord, HeaderWord, Next, GhostNext, Total, RoundUp8, WrapSub, Exec;
      var total := Total(size);
      var seen := consumer;
      var used := WrapSub(producer, seen, U64);
      var avail := if used <= data.Length then data.Length - used else 0;
      RoundedClaim(size);
      ReserveSteps(sys, size);
      ReserveGhosts(sys, ghosts, size);
      FreeSpace(sys, ghosts, size);
      if size <= MAX_SIZE {
        Step(LoadCons(size));
      }
      if total > avail {
        if size <= MAX_SIZE {
          Step(WriteLen);
        }
        return Err;
      }
      ExecFour(old(sys), LoadCons(size), WriteLen, WritePad, Publish);
      var offset := And(producer, mask);
      StoreWord(offset, HeaderWord(size));
      StoreWord(offset + 4, 0);
      producer := (producer + total) % U64;
      if size <= MAX_SIZE {
        FinishReserve(size);
      } else {
        sys := Exec(sys, ReserveEvents(size));
      }
      r := Ok(RbEntry(offset, size));
    }

    ghost method FinishReserve(size: u64)
      requires Inv(sys, ghosts) && sys.p.Loaded?
      modifies this`sys, this`ghosts
      ensures Inv(sys, ghosts)
      ensures sys == Next(Next(Next(old(sys), WriteLen), WritePad), Publish)
      ensures ghosts == GhostNext(Next(Next(old(sys), WriteLen), WritePad),
                                  GhostNext(Next(old(sys), WriteLen),
                                            GhostNext(old(sys), old(ghosts), WriteLen), WritePad), Publish)
    {
      hide Inv, Next, GhostNext;
      Step(WriteLen);
      Step(WritePad);
      Step(Publish);
    }

    /**
     `copy_from_slice`: fills the claimed payload, or panics on a length mismatch, which
     drops the entry unsubmitted.
     */
    method CopyFromSlice(entry: RbEntry, src: seq<byte>) returns (ok: bool)
      requires Valid() && sys.p == Owned(entry.hdr, entry.size)
      modifies this`sys, this`ghosts, data
      ensures Valid()
      ensures ok <==> |src| == entry.size
      ensures ok ==> sys.p == Copying(entry.hdr, src, |src|)
      ensures ok ==> forall k :: 0 <= k < |src| ==> Byte(data[..], entry.hdr + 8 + k) == src[k]
      ensures !ok ==> sys.p.Idle? && data[..] == old(data[..])
      ensures SameButProducer(sys, old(sys)) && sys.submitted == old(sys.submitted)
      ensures ghosts == old(ghosts)
    {
      hide Inv, Aggregates, And, Word, SetWord, HeaderWord, Next, GhostNext;
      CopyStarts(sys, ghosts, src);
      Step(BeginCopy(src));
      if |src| != entry.size {
        return false;
      }
      for i := 0 to |src|
        invariant Valid()
        invariant sys.p == Copying(entry.hdr, src, i)
        invariant SameButProducer(sys, old(sys)) && sys.submitted == old(sys.submitted)
        invariant ghosts == old(ghosts)
      {
        CopyContinues(sys, ghosts);
        StoreByte(entry.hdr + HDR + i, src[i]);
        Step(CopyByte);
      }
      PayloadInPlace(sys, ghosts);
      ok := true;
    }

    /** `submit`: clears the busy bit, after which the payload is in the stream. */
    method Submit(entry: RbEntry, ghost src: seq<byte>)
      requires Valid() && sys.p == Copying(entry.hdr, src, |src|)
      modifies this`sys, this`ghosts, data
      ensures Valid() && sys.p.Idle?
      ensures SameButProducer(sys, old(sys)) && sys.submitted == old(sys.submitted) + [src]
      ensures var m := |old(ghosts.recs)| - 1;
              && 0 <= m
              && ghosts.recs == old(ghosts.recs)[..m] + [old(ghosts.recs)[m].(payload := src, ready := true)]
    {
      hide Inv, Aggregates, And, Word, SetWord, ClearBusy, Next, GhostNext;
      SubmitEnds(sys);
      SubmitGhosts(sys, ghosts);
      var len := ClearBusy(Word(data[..], entry.hdr));
      StoreWord(entry.hdr, len);
      Step(RingProtocol.Event.Submit);
    }

    /** `bump`: adds to one of the two counters, modulo 2^64. */
    method Bump(key: nat, amount: nat)
      requires key <= 1 && agg.Keys <= {0, 1}
      modifies this`agg
      ensures agg == Plus(old(agg), key, amount)
    {
      var n := (BpfMap.Get(agg, key, 0) + amount) % U64;
      BpfMap.InsertHasRoom(agg, 2, key, n, {0, 1});
      agg := BpfMap.Insert(agg, 2, key, n);
    }

    /** The callback: a payload too short for a sample is ignored. */
    method OnSample(payload: seq<byte>)
      requires Aggregates(agg, sys.delivered)
      modifies this`agg
      ensures Aggregates(agg, sys.delivered + [payload])
      ensures |payload| < 8 ==> agg == old(agg)
      ensures 8 <= |payload| ==>
                && BpfMap.Get(agg, 0, 0) == (BpfMap.Get(old(agg), 0, 0) as int + 1) % 0x1_0000_0000_0000_0000
                && BpfMap.Get(agg, 1, 0) ==
                   (BpfMap.Get(old(agg), 1, 0) + Decode(payload[..8])) % 0x1_0000_0000_0000_0000
    {
      CountedIs(agg, if SAMPLE <= |payload| then Decode(payload[..SAMPLE]) else 0);
      AggregateStep(agg, sys.delivered, payload);
      AggregateKeys(agg, sys.delivered);
      assert Plus(agg, 0, 1).Keys <= {0, 1};
      hide Aggregates, Decode, Plus;
      if SAMPLE <= |payload| {
        Bump(0, 1);
        Bump(1, Decode(payload[..SAMPLE]));
      }
    }

    /** One turn of the drain helper: hands over the oldest record, or finds it must stop. */
    method DrainOne() returns (more: bool)
      requires Valid() && sys.c.Waiting?
      modifies this`consumer, this`agg, this`sys, this`ghosts
      ensures Valid() && sys.c.Waiting?
      ensures more <==> old(ghosts.recs) != [] && old(ghosts.recs)[0].ready
      ensures !more ==> sys == old(sys) && ghosts.recs == old(ghosts.recs)
      ensures more ==>
                && ghosts.recs == old(ghosts.recs)[1..]
                && old(sys.delivered) < sys.delivered && |sys.delivered| == |old(sys.delivered)| + 1
                && sys.submitted == old(sys.submitted) && sys.p == old(sys.p)
    {
      hide Inv, Aggregates, And, Word, ClearBusy, Next, GhostNext, RoundUp8;
      PeekStops(sys, ghosts);
      var off := And(consumer, mask);
      var word := Word(data[..], off);
      more := consumer != producer && And(word, BUSY) == 0;
      Step(LoadProd);
      Step(Peek);
      if more {
        var got := ReadPayload(off, word);
        OnSample(got);
        ReleaseOne(sys, ghosts);
        consumer := (consumer + RoundUp8(word + HDR)) % U64;
        Step(Release);
      }
    }

    /** The callback's view of the payload, byte by byte through the mapping. */
    method ReadPayload(off: nat, len: nat) returns (got: seq<byte>)
      requires Valid() && sys.c == Reading(len, []) && off == And(consumer, mask)
      modifies this`sys, this`ghosts
      ensures Valid() && |got| == len
      ensures sys == old(sys).(c := Reading(len, got)) && ghosts == old(ghosts)
    {
      hide Inv, Aggregates, And, Next, GhostNext;
      got := [];
      while |got| < len
        invariant |got| <= len
        invariant Valid() && sys == old(sys).(c := Reading(len, got)) && ghosts == old(ghosts)
      {
        ReadOne(sys, ghosts);
        Step(ReadByte);
        got := got + [data[(off + HDR + |got|) % data.Length]];
      }
    }

    /**
     One run of the consumer program: record after record until the ring is empty, a
     busy header is met, or the helper's budget is used up.
     */
    method DrainIt(limit: nat) returns (n: nat)
      requires Valid() && sys.c.Waiting?
      modifies this`consumer, this`agg, this`sys, this`ghosts
      ensures Valid() && sys.c.Waiting?
      ensures n <= limit && n <= |old(ghosts.recs)|
      ensures forall i :: 0 <= i < n ==> old(ghosts.recs)[i].ready
      ensures n < limit ==> n == |old(ghosts.recs)| || !old(ghosts.recs)[n].ready
      ensures old(sys.delivered) <= sys.delivered && |sys.delivered| == |old(sys.delivered)| + n
      ensures sys.submitted == old(sys.submitted) && sys.p == old(sys.p)
      ensures ghosts.recs == old(ghosts.recs)[n..]
    {
      hide Inv, Aggregates;
      n := 0;
      var more := true;
      while more && n < limit
        invariant Valid() && sys.c.Waiting?
        invariant n <= limit && n <= |old(ghosts.recs)|
        invariant forall i :: 0 <= i < n ==> old(ghosts.recs)[i].ready
        invariant old(sys.delivered) <= sys.delivered && |sys.delivered| == |old(sys.delivered)| + n
        invariant sys.submitted == old(sys.submitted) && sys.p == old(sys.p)
        invariant ghosts.recs == old(ghosts.recs)[n..]
        invariant !more ==> n == |old(ghosts.recs)| || !old(ghosts.recs)[n].ready
        decreases limit - n, more
      {
        more := DrainOne();
        if more {
          n := n + 1;
        }
      }
    }

    /** The producer half of one iteration: reserve, and on success copy and submit. */
    method Offer(v: u64) returns (ok: bool)
      requires Valid() && sys.p.Idle?
      modifies this`producer, this`sys, this`ghosts, data
      ensures Valid() && sys.p.Idle? && SameConsumer(sys, old(sys))
      ensures ok <==> 16 <= data.Length - old(sys.Unread())
      ensures ok ==>
                && sys.submitted == old(sys.submitted) + [Encode(SAMPLE, v)]
                && |ghosts.recs| == |old(ghosts.recs)| + 1 && ghosts.recs[|ghosts.recs| - 1].ready
                && ghosts.recs[..|old(ghosts.recs)|] == old(ghosts.recs)
      ensures !ok ==> sys == old(sys) && ghosts.recs == old(ghosts.recs)
    {
      hide Inv, Aggregates, Encode;
      hide Exec, Next;
      ReserveKeepsConsumer(sys, SAMPLE);
      var r := Reserve(SAMPLE);
      ok := r.Ok?;
      if ok {
        var filled := CopyFromSlice(r.value, Encode(SAMPLE, v));
        Submit(r.value, Encode(SAMPLE, v));
      }
    }

    /** One iteration: offer a value, then trigger the consumer. */
    method Turn(v: u64, limit: nat) returns (ok: bool)
      requires Valid() && sys.p.Idle? && sys.c.Waiting?
      modifies this`consumer, this`producer, this`agg, this`sys, this`ghosts, data
      ensures Valid() && sys.p.Idle? && sys.c.Waiting?
      ensures ok <==> 16 <= data.Length - old(sys.Unread())
      ensures sys.submitted == old(sys.submitted) + if ok then [Encode(SAMPLE, v)] else []
      ensures AllReady(old(ghosts.recs)) ==> AllReady(ghosts.recs)
      ensures AllReady(old(ghosts.recs)) && |old(ghosts.recs)| + (if ok then 1 else 0) <= limit ==> ghosts.recs == []
    {
      hide Inv, Aggregates, Encode, RoundUp8;
      ok := Offer(v);
      ghost var recs := ghosts.recs;
      assert AllReady(old(ghosts.recs)) ==> AllReady(recs) by {
        if ok {
          assert forall i :: 0 <= i < |old(ghosts.recs)| ==> recs[i] == recs[..|old(ghosts.recs)|][i];
        }
      }
      var n := DrainIt(limit);
    }

    /** The loop of `Produce`, before the aggregate is read back. */
    method Attempt(n: u64, limits: seq<nat>) returns (msgs: nat, total: nat, ghost accepted: seq<nat>)
      requires |limits| == n
      requires Valid() && sys.p.Idle? && sys.c.Waiting?
      requires sys.submitted == [] && sys.delivered == [] && ghosts.recs == []
      modifies this`consumer, this`producer, this`agg, this`sys, this`ghosts, data
      ensures Valid()
      ensures msgs == n && total == Sum(Upto(n))
      ensures sys.submitted == Samples(accepted) && |accepted| <= n
      ensures forall k :: 0 <= k < |accepted| ==> accepted[k] < U64
      ensures 0 < n && |accepted| <= limits[n - 1] ==> ghosts.recs == []
      ensures 16 <= data.Length && (forall i :: 0 <= i < n ==> 1 <= limits[i]) ==>
                ghosts.recs == [] && accepted == Upto(n)
    {
      hide Inv, Aggregates, Encode, Samples, Sum, BpfMap.Get, Upto, AllReady;
      msgs, total, accepted := 0, 0, [];
      ghost var smooth := 16 <= data.Length && forall i :: 0 <= i < n ==> 1 <= limits[i];
      NothingYet();
      for i := 1 to n + 1
        invariant Valid() && sys.p.Idle? && sys.c.Waiting?
        invariant msgs == i - 1 && total == Sum(Upto(i - 1))
        invariant sys.submitted == Samples(accepted) && |accepted| <= i - 1
        invariant forall k :: 0 <= k < |accepted| ==> accepted[k] < U64
        invariant smooth ==> ghosts.recs == [] && accepted == Upto(i - 1)
        invariant AllReady(ghosts.recs)
        invariant 1 < i && |accepted| <= limits[i - 2] ==> ghosts.recs == []
      {
        EmptyRing(sys, ghosts);
        ReadyAreWaiting(sys, ghosts);
        SamplesLength(accepted);
        UptoNext(i);
        var ok := Turn(i, limits[i - 1]);
        if ok {
          SamplesAppend(accepted, i);
          accepted := accepted + [i];
        }
        msgs := msgs + 1;
        total := total + i;
        SumAppend(Upto(i - 1), i);
      }
    }

    /**
     The produce loop: offers 1..n, counting every attempt, and lets the consumer take up
     to `limits[i]` records after each. What was accepted is what was submitted; when every
     drain may take a record and a record fits, all n values arrive.
     */
    method Produce(n: u64, limits: seq<nat>) returns (msgs: nat, total: nat, ghost accepted: seq<nat>)
      requires |limits| == n
      requires Valid() && sys.p.Idle? && sys.c.Waiting?
      requires sys.submitted == [] && sys.delivered == [] && ghosts.recs == []
      modifies this`consumer, this`producer, this`agg, this`sys, this`ghosts, data
      ensures Valid()
      ensures msgs == n && total == Triangle(n)
      ensures |sys.delivered| <= |accepted| == |sys.submitted| <= n
      ensures sys.submitted == Samples(accepted)
      ensures BpfMap.Get(agg, 0, 0) == |sys.delivered| % U64
      ensures BpfMap.Get(agg, 1, 0) == Sum(accepted[..|sys.delivered|]) % U64
      ensures 0 < n && |accepted| <= limits[n - 1] ==> |sys.delivered| == |accepted|
      ensures 16 <= data.Length && (forall i :: 0 <= i < n ==> 1 <= limits[i]) ==>
                && accepted == Upto(n)
                && BpfMap.Get(agg, 0, 0) == n
                && BpfMap.Get(agg, 1, 0) == Triangle(n) % U64
    {
      hide Inv, Aggregates, Encode, Samples, Sum, BpfMap.Get, Triangle, Upto;
      msgs, total, accepted := Attempt(n, limits);
      SumUpto(n);
      FinalAggregate(sys, ghosts, agg, accepted);
    }
  }
}

/**
 What every reachable state of the ring satisfies. The two 64-bit positions are
 images of unbounded positions C <= P, and the bytes between them are tiled by
 records; each step is shown to keep that picture.
 */
module RingInvariant {
  import opened Bits
  import opened Modular
  import opened RingProtocol

  /** A record between the two positions, at its unbounded position. */
  datatype Rec = Rec(pos: nat, size: nat, payload: seq<byte>, ready: bool)
  {
    function End(): nat { pos + RoundUp8(size + HDR) }
  }

  /** C, P: unbounded positions; C0, P0: those behind the values last read. */
  datatype Ghosts = Ghosts(C: nat, P: nat, recs: seq<Rec>, C0: nat, P0: nat)

  predicate Capacity(n: nat)
  {
    IsPowerOfTwo(n) && n <= BUSY
  }

  ghost predicate Stored(d: Mem, r: Rec)
  {
    && r.pos % 8 == 0
    && r.size < BUSY
    && r.End() <= r.pos + |d|
    && Word(d, r.pos) == (if r.ready then r.size else r.size + BUSY)
    && Word(d, r.pos + 4) == 0
    && (r.ready ==>
          && |r.payload| == r.size
          && forall k :: 0 <= k < r.size ==> Byte(d, r.pos + HDR + k) == r.payload[k])
  }

  ghost predicate Tiled(recs: seq<Rec>, C: nat, P: nat)
  {
    && (recs == [] ==> C == P)
    && (recs != [] ==> recs[0].pos == C && recs[|recs| - 1].End() == P)
    && (forall i :: 0 <= i < |recs| - 1 ==> recs[i + 1].pos == recs[i].End())
    && (forall i :: 0 <= i < |recs| ==> C <= recs[i].pos && recs[i].End() <= P)
    && (forall i, j :: 0 <= i < j < |recs| ==> recs[i].End() <= recs[j].pos)
  }

  function ReadyPayloads(recs: seq<Rec>): seq<seq<byte>>
  {
    if recs == [] then []
    else (if recs[0].ready then [recs[0].payload] else []) + ReadyPayloads(recs[1..])
  }

  ghost predicate Positions(s: Sys, g: Ghosts)
  {
    && Capacity(|s.data|)
    && s.cons == g.C % U64 && s.prod == g.P % U64
    && g.C <= g.P <= g.C + |s.data|
    && g.C % 8 == 0 && g.P % 8 == 0
  }

  ghost predicate Ring(s: Sys, g: Ghosts)
  {
    && Positions(s, g)
    && Tiled(g.recs, g.C, g.P)
    && (forall i :: 0 <= i < |g.recs| ==> Stored(s.data, g.recs[i]))
    && s.submitted == s.delivered + ReadyPayloads(g.recs)
  }

  ghost predicate OwnsLast(d: Mem, recs: seq<Rec>, hdr: nat, size: nat)
  {
    recs != [] &&
    var r := recs[|recs| - 1];
    !r.ready && r.size == size && hdr == r.pos % |d|
  }

  ghost predicate ProducerOk(s: Sys, g: Ghosts)
  {
    match s.p
    case Idle => true
    case Loaded(size, seen) =>
      size <= MAX_SIZE && seen == g.C0 % U64 && g.C0 <= g.C && g.P <= g.C0 + |s.data|
    case LenWritten(size) =>
      && size < BUSY && g.P + RoundUp8(size + HDR) <= g.C + |s.data|
      && Word(s.data, g.P) == size + BUSY
    case PadWritten(size) =>
      && size < BUSY && g.P + RoundUp8(size + HDR) <= g.C + |s.data|
      && Word(s.data, g.P) == size + BUSY && Word(s.data, g.P + 4) == 0
    case Owned(hdr, size) => OwnsLast(s.data, g.recs, hdr, size)
    case Copying(hdr, src, i) =>
      && OwnsLast(s.data, g.recs, hdr, |src|) && i <= |src|
      && var r := g.recs[|g.recs| - 1];
         forall k :: 0 <= k < i ==> Byte(s.data, r.pos + HDR + k) == src[k]
  }

  ghost predicate ConsumerOk(s: Sys, g: Ghosts)
  {
    match s.c
    case Waiting => true
    case Seen(end) => end == g.P0 % U64 && g.C <= g.P0 <= g.P
    case Reading(len, got) =>
      && g.recs != [] && g.recs[0].ready && len == g.recs[0].size
      && |got| <= len == |g.recs[0].payload| && got == g.recs[0].payload[..|got|]
  }

  ghost predicate Inv(s: Sys, g: Ghosts)
  {
    Ring(s, g) && ProducerOk(s, g) && ConsumerOk(s, g)
  }

  /** How the unbounded picture moves with a step. */
  function GhostNext(s: Sys, g: Ghosts, e: Event): Ghosts
  {
    match (e, s.p, s.c)
    case (LoadCons(_), Idle, _) => g.(C0 := g.C)
    case (Publish, PadWritten(size), _) =>
      var r := Rec(g.P, size, [], false);
      g.(P := r.End(), recs := g.recs + [r])
    case (Submit, Copying(_, src, i), _) =>
      var m := |g.recs| - 1;
      if i == |src| && 0 <= m
      then g.(recs := g.recs[..m] + [g.recs[m].(payload := src, ready := true)])
      else g
    case (LoadProd, _, Waiting) => g.(P0 := g.P)
    case (Release, _, Reading(len, got)) =>
      if |got| == len && g.recs != [] then g.(C := g.recs[0].End(), recs := g.recs[1..]) else g
    case _ => g
  }

  // ----- word arithmetic ---------------------------------------------------------

  /** Masking a 64-bit position gives the slot of the unbounded position. */
  lemma OffsetOf(n: nat, pos: nat)
    requires Capacity(n)
    ensures And(pos % U64, n - 1) == pos % n
  {
    var k := PowerOfTwoOrder(n);
    Pow2Constants();
    if 64 < k {
      Pow2Monotone(64, k);
    }
    Pow2Add(k, 64 - k);
    ModOfMultiple(pos, n, Pow2(64 - k));
    AndMask(pos % U64, k);
  }

  lemma CapacityAligned(n: nat)
    requires Capacity(n) && 8 <= n
    ensures n % 8 == 0
  {
    assert n % 2 == 0 && IsPowerOfTwo(n / 2);
    assert n / 2 % 2 == 0 && IsPowerOfTwo(n / 2 / 2);
    assert n / 2 / 2 % 2 == 0;
  }

  lemma RoundUpBounds(n: nat)
    ensures n <= RoundUp8(n) < n + 8 && RoundUp8(n) % 8 == 0
  {}

  lemma AlignedSum(a: nat, b: nat)
    requires a % 8 == 0 && b % 8 == 0
    ensures (a + b) % 8 == 0
  {}

  lemma TotalExact(size: u64)
    ensures size <= MAX_SIZE ==> Total(size) == RoundUp8(size + HDR)
  {}

  lemma BusyHeader(size: u64)
    requires size < BUSY
    ensures HeaderWord(size) == size + BUSY
  {
    hide Or, Pow2;
    Pow2Constants();
    OrClearBit(size, 31);
  }

  /** Clearing the busy bit recovers the size; testing it tells the two apart. */
  lemma BusyBit(size: nat)
    requires size < BUSY
    ensures ClearBusy(size + BUSY) == size
    ensures And(size, BUSY) == 0
    ensures And(size + BUSY, BUSY) == BUSY
  {
    hide And, Pow2;
    Pow2Constants();
    AndMask(size + BUSY, 31);
    AndTopBit(size, 31);
    AndTopBit(size + BUSY, 31);
  }

  // ----- memory --------------------------------------------------------------------

  lemma SameByte(d: Mem, pos: nat, k: nat)
    ensures Byte(d, pos % |d| + k) == Byte(d, pos + k)
  {
    ModAdd(pos, k, |d|);
  }

  lemma SameSetByte(d: Mem, pos: nat, k: nat, b: byte)
    ensures SetByte(d, pos % |d| + k, b) == SetByte(d, pos + k, b)
  {
    ModAdd(pos, k, |d|);
  }

  lemma SameWord(d: Mem, pos: nat)
    ensures Word(d, pos % |d|) == Word(d, pos)
  {
    SameByte(d, pos, 0);
    SameByte(d, pos, 1);
    SameByte(d, pos, 2);
    SameByte(d, pos, 3);
  }

  lemma SameSetWord(d: Mem, pos: nat, k: nat, v: nat)
    requires v < 0x1_0000_0000
    ensures SetWord(d, pos % |d| + k, v) == SetWord(d, pos + k, v)
  {
    ModAdd(pos, k, |d|);
    ModAdd(pos, k + 1, |d|);
    ModAdd(pos, k + 2, |d|);
    ModAdd(pos, k + 3, |d|);
  }

  /** A store at x leaves the bytes of a range that is less than a lap away. */
  lemma SetByteFrame(d: Mem, x: nat, b: byte, lo: nat, hi: nat)
    requires (x < lo && hi <= x + |d|) || (hi <= x && x < lo + |d|)
    ensures forall y :: lo <= y < hi ==> Byte(SetByte(d, x, b), y) == Byte(d, y)
  {
    forall y | lo <= y < hi
      ensures Byte(SetByte(d, x, b), y) == Byte(d, y)
    {
      if x < y {
        ModDistinct(x, y, |d|);
      } else {
        ModDistinct(y, x, |d|);
      }
    }
  }

  lemma SetWordFrame(d: Mem, x: nat, v: nat, lo: nat, hi: nat)
    requires v < 0x1_0000_0000
    requires (x + 3 < lo && hi <= x + |d|) || (hi <= x && x + 3 < lo + |d|)
    ensures forall y :: lo <= y < hi ==> Byte(SetWord(d, x, v), y) == Byte(d, y)
  {
    var d1 := SetByte(d, x, v % 0x100);
    var d2 := SetByte(d1, x + 1, v / 0x100 % 0x100);
    var d3 := SetByte(d2, x + 2, v / 0x1_0000 % 0x100);
    SetByteFrame(d, x, v % 0x100, lo, hi);
    SetByteFrame(d1, x + 1, v / 0x100 % 0x100, lo, hi);
    SetByteFrame(d2, x + 2, v / 0x1_0000 % 0x100, lo, hi);
    SetByteFrame(d3, x + 3, v / 0x100_0000, lo, hi);
  }

  lemma SetWordGet(d: Mem, x: nat, v: nat)
    requires v < 0x1_0000_0000 && 8 <= |d|
    ensures Word(SetWord(d, x, v), x) == v
  {
    var d1 := SetByte(d, x, v % 0x100);
    var d2 := SetByte(d1, x + 1, v / 0x100 % 0x100);
    var d3 := SetByte(d2, x + 2, v / 0x1_0000 % 0x100);
    SetByteFrame(d1, x + 1, v / 0x100 % 0x100, x, x + 1);
    SetByteFrame(d2, x + 2, v / 0x1_0000 % 0x100, x, x + 2);
    SetByteFrame(d3, x + 3, v / 0x100_0000, x, x + 3);
    WordBytes(v);
  }

  lemma WordBytes(v: nat)
    requires v < 0x1_0000_0000
    ensures v % 0x100 + 0x100 * (v / 0x100 % 0x100) + 0x1_0000 * (v / 0x1_0000 % 0x100)
            + 0x100_0000 * (v / 0x100_0000) == v
  {}

  lemma RecordFrame(d: Mem, d': Mem, r: Rec)
    requires Stored(d, r) && |d'| == |d|
    requires forall y :: r.pos <= y < r.End() ==> Byte(d', y) == Byte(d, y)
    ensures Stored(d', r)
  {
    hide Byte;
    assert r.pos + 8 <= r.End();
    if r.ready {
      forall k | 0 <= k < r.size
        ensures Byte(d', r.pos + HDR + k) == r.payload[k]
      {
        assert r.pos + HDR + k < r.End();
      }
    }
  }

  lemma RecordsFrame(d: Mem, d': Mem, recs: seq<Rec>, lo: nat, hi: nat)
    requires |d'| == |d|
    requires forall i :: 0 <= i < |recs| ==> Stored(d, recs[i]) && lo <= recs[i].pos && recs[i].End() <= hi
    requires forall y :: lo <= y < hi ==> Byte(d', y) == Byte(d, y)
    ensures forall i :: 0 <= i < |recs| ==> Stored(d', recs[i])
  {
    hide Stored, Byte;
    forall i | 0 <= i < |recs|
      ensures Stored(d', recs[i])
    {
      RecordFrame(d, d', recs[i]);
    }
  }

  // ----- the log ---------------------------------------------------------------------

  lemma {:induction false} ReadyAppend(recs: seq<Rec>, r: Rec)
    ensures ReadyPayloads(recs + [r]) == ReadyPayloads(recs) + (if r.ready then [r.payload] else [])
  {
    if recs == [] {
      assert recs + [r] == [r];
    } else {
      ReadyAppend(recs[1..], r);
      assert (recs + [r])[1..] == recs[1..] + [r];
    }
  }

  // ----- each step, in unbounded positions ------------------------------------------

  lemma RingFrame(s: Sys, s': Sys, g: Ghosts)
    requires Ring(s, g)
    requires |s'.data| == |s.data| && s'.cons == s.cons && s'.prod == s.prod
    requires s'.submitted == s.submitted && s'.delivered == s.delivered
    requires forall y :: g.C <= y < g.P ==> Byte(s'.data, y) == Byte(s.data, y)
    ensures Ring(s', g)
  {
    hide Stored, Byte, ReadyPayloads, IsPowerOfTwo;
    RecordsFrame(s.data, s'.data, g.recs, g.C, g.P);
  }

  /** The space check of reserve, decided by the consumer position it read. */
  lemma AvailExact(s: Sys, g: Ghosts)
    requires Positions(s, g) && ProducerOk(s, g) && s.p.Loaded?
    ensures s.Avail(s.p.seen) == |s.data| - (g.P - g.C0)
    ensures Total(s.p.size) == RoundUp8(s.p.size + HDR)
  {
    hide IsPowerOfTwo;
    TotalExact(s.p.size);
    ModDistance(g.C0, g.P, U64);
  }

  lemma WriteLenStep(s: Sys, g: Ghosts)
    requires Positions(s, g) && ProducerOk(s, g) && s.p.Loaded?
    ensures var size := s.p.size;
            Next(s, WriteLen) ==
            if RoundUp8(size + HDR) <= |s.data| - (g.P - g.C0)
            then assert size < BUSY;
                 s.(data := SetWord(s.data, g.P, size + BUSY), p := LenWritten(size))
            else s.(p := Idle)
  {
    hide SetWord, And, Or, HeaderWord, IsPowerOfTwo, Total, RoundUp8, Sys.Avail, WrapSub;
    var size := s.p.size;
    AvailExact(s, g);
    RoundUpBounds(size + HDR);
    if RoundUp8(size + HDR) <= |s.data| - (g.P - g.C0) {
      OffsetOf(|s.data|, g.P);
      BusyHeader(size);
      SameSetWord(s.data, g.P, 0, size + BUSY);
    }
  }

  lemma WriteLenKeepsInv(s: Sys, g: Ghosts)
    requires Inv(s, g) && s.p.Loaded?
    ensures Inv(Next(s, WriteLen), g)
  {
    hide Stored, Byte, Word, SetWord, ProducerStep, ReadyPayloads, IsPowerOfTwo, And, Or;
    var size, s' := s.p.size, Next(s, WriteLen);
    WriteLenStep(s, g);
    if s'.p.LenWritten? {
      SetWordGet(s.data, g.P, size + BUSY);
      SetWordFrame(s.data, g.P, size + BUSY, g.C, g.P);
      RingFrame(s, s', g);
    } else {
      RingFrame(s, s', g);
    }
  }

  lemma WritePadStep(s: Sys, g: Ghosts)
    requires Positions(s, g) && s.p.LenWritten?
    ensures Next(s, WritePad) == s.(data := SetWord(s.data, g.P + 4, 0), p := PadWritten(s.p.size))
  {
    hide SetWord, And, Or, IsPowerOfTwo;
    OffsetOf(|s.data|, g.P);
    SameSetWord(s.data, g.P, 4, 0);
  }

  lemma WritePadKeepsInv(s: Sys, g: Ghosts)
    requires Inv(s, g) && s.p.LenWritten?
    ensures Inv(Next(s, WritePad), g)
  {
    hide Stored, Byte, SetWord, ProducerStep, ReadyPayloads, IsPowerOfTwo, And, Or;
    var s' := Next(s, WritePad);
    WritePadStep(s, g);
    SetWordGet(s.data, g.P + 4, 0);
    SetWordFrame(s.data, g.P + 4, 0, g.C, g.P + 4);
    RingFrame(s, s', g);
  }

  lemma PublishStep(s: Sys, g: Ghosts)
    requires Positions(s, g) && ProducerOk(s, g) && s.p.PadWritten?
    ensures var size := s.p.size;
            Next(s, Publish) ==
            s.(prod := (g.P + RoundUp8(size + HDR)) % U64, p := Owned(g.P % |s.data|, size))
  {
    hide And, Or, IsPowerOfTwo, Word;
    PublishOnly(s);
    TotalExact(s.p.size);
    OffsetOf(|s.data|, g.P);
    hide RoundUp8, Total, Next, Capacity;
    ModAdd(g.P, Total(s.p.size), U64);
  }

  lemma PublishOnly(s: Sys)
    requires s.p.PadWritten?
    ensures Next(s, Publish) ==
            s.(prod := (s.prod + Total(s.p.size)) % U64, p := Owned(And(s.prod, s.Mask()), s.p.size))
  {
    hide And, Total;
  }

  lemma AppendTiling(recs: seq<Rec>, r: Rec, C: nat, P: nat)
    requires Tiled(recs, C, P) && C <= P && r.pos == P
    ensures Tiled(recs + [r], C, r.End())
  {
    var all := recs + [r];
    assert forall i :: 0 <= i < |recs| ==> all[i] == recs[i];
  }

  lemma ClaimedRecord(d: Mem, r: Rec)
    requires r.pos % 8 == 0 && r.size < BUSY && r.End() <= r.pos + |d| && !r.ready
    requires Word(d, r.pos) == r.size + BUSY && Word(d, r.pos + 4) == 0
    ensures Stored(d, r)
  {}

  lemma PublishedRing(s: Sys, s': Sys, g: Ghosts, r: Rec)
    requires Ring(s, g) && Stored(s.data, r) && r.pos == g.P && !r.ready
    requires r.End() <= g.C + |s.data|
    requires s' == s.(prod := r.End() % U64, p := s'.p)
    ensures Ring(s', g.(P := r.End(), recs := g.recs + [r]))
  {
    hide Stored, Tiled, ReadyPayloads, IsPowerOfTwo, RoundUp8;
    RoundUpBounds(r.size + HDR);
    AlignedSum(r.pos, RoundUp8(r.size + HDR));
    AppendTiling(g.recs, r, g.C, g.P);
    ReadyAppend(g.recs, r);
    assert ReadyPayloads(g.recs) + [] == ReadyPayloads(g.recs);
    var all := g.recs + [r];
    assert forall i :: 0 <= i < |all| ==> all[i] == if i < |g.recs| then g.recs[i] else r;
  }

  lemma PublishedRecord(s: Sys, g: Ghosts, r: Rec)
    requires Positions(s, g) && ProducerOk(s, g) && s.p.PadWritten?
    requires r == Rec(g.P, s.p.size, [], false)
    ensures Stored(s.data, r) && r.End() <= g.C + |s.data| && g.P <= r.End()
  {
    hide Byte, Word, Stored, IsPowerOfTwo, RoundUp8;
    RoundUpBounds(r.size + HDR);
    ClaimedRecord(s.data, r);
  }

  lemma PublishKeepsInv(s: Sys, g: Ghosts)
    requires Inv(s, g) && s.p.PadWritten?
    ensures Inv(Next(s, Publish), GhostNext(s, g, Publish))
  {
    hide Byte, Word, Stored, Tiled, Ring, Positions, ConsumerOk, Next, ReadyPayloads, RoundUp8;
    var r, s' := Rec(g.P, s.p.size, [], false), Next(s, Publish);
    var g' := g.(P := r.End(), recs := g.recs + [r]);
    RingPositions(s, g);
    PublishStep(s, g);
    PublishedRecord(s, g, r);
    PublishedRing(s, s', g, r);
    ConsumerKept(s, g, s', g');
  }

  /** Growing P or the last record does not disturb a consumer that is at work. */
  lemma ConsumerKept(s: Sys, g: Ghosts, s': Sys, g': Ghosts)
    requires ConsumerOk(s, g) && s'.c == s.c
    requires g'.C == g.C && g'.P0 == g.P0 && g.P <= g'.P
    requires g.recs != [] && g.recs[0].ready ==> g'.recs != [] && g'.recs[0] == g.recs[0]
    ensures ConsumerOk(s', g')
  {}

  lemma RingPositions(s: Sys, g: Ghosts)
    requires Ring(s, g)
    ensures Positions(s, g)
  {}

  lemma CopyByteStep(s: Sys, g: Ghosts)
    requires ProducerOk(s, g) && s.p.Copying? && s.p.i < |s.p.src|
    ensures var r := g.recs[|g.recs| - 1];
            Next(s, CopyByte) ==
            s.(data := SetByte(s.data, r.pos + HDR + s.p.i, s.p.src[s.p.i]),
               p := Copying(s.p.hdr, s.p.src, s.p.i + 1))
  {
    hide SetByte;
    SameSetByte(s.data, g.recs[|g.recs| - 1].pos, HDR + s.p.i, s.p.src[s.p.i]);
  }

  /** Bytes up to x are kept, so all records but the last and its header are too. */
  lemma LastRecordFrame(d: Mem, d': Mem, recs: seq<Rec>, C: nat, P: nat)
    requires |d'| == |d| && recs != [] && Tiled(recs, C, P)
    requires forall i :: 0 <= i < |recs| ==> Stored(d, recs[i])
    requires forall y :: C <= y < recs[|recs| - 1].pos ==> Byte(d', y) == Byte(d, y)
    requires Stored(d', recs[|recs| - 1])
    ensures forall i :: 0 <= i < |recs| ==> Stored(d', recs[i])
  {
    hide Stored, Byte;
    var m := |recs| - 1;
    RecordsFrame(d, d', recs[..m], C, recs[m].pos);
    assert forall i :: 0 <= i < m ==> recs[..m][i] == recs[i];
  }

  lemma BusyRecordFrame(d: Mem, d': Mem, r: Rec)
    requires Stored(d, r) && !r.ready && |d'| == |d|
    requires forall y :: r.pos <= y < r.pos + HDR ==> Byte(d', y) == Byte(d, y)
    ensures Stored(d', r)
  {
    hide Byte;
  }

  /** A payload byte stored into the busy last record leaves every record stored. */
  lemma CopiedRing(d: Mem, recs: seq<Rec>, C: nat, P: nat, i: nat, b: byte)
    requires recs != [] && Tiled(recs, C, P) && P <= C + |d|
    requires forall k :: 0 <= k < |recs| ==> Stored(d, recs[k])
    requires var r := recs[|recs| - 1]; !r.ready && i < r.size
    ensures var d' := SetByte(d, recs[|recs| - 1].pos + HDR + i, b);
            && (forall y :: C <= y < recs[|recs| - 1].pos + HDR + i ==> Byte(d', y) == Byte(d, y))
            && forall k :: 0 <= k < |recs| ==> Stored(d', recs[k])
  {
    var r := recs[|recs| - 1];
    var x := r.pos + HDR + i;
    TiledEnds(recs, C, P);
    RoundUpBounds(r.size + HDR);
    hide Byte, SetByte, Stored, Tiled, RoundUp8;
    SetByteFrame(d, x, b, C, x);
    BusyRecordFrame(d, SetByte(d, x, b), r);
    LastRecordFrame(d, SetByte(d, x, b), recs, C, P);
  }

  lemma TiledEnds(recs: seq<Rec>, C: nat, P: nat)
    requires recs != [] && Tiled(recs, C, P)
    ensures C <= recs[|recs| - 1].pos && recs[|recs| - 1].End() == P
  {}

  /** And extends the prefix of the payload that is in place. */
  lemma CopiedBytes(d: Mem, d': Mem, x: nat, src: seq<byte>, i: nat)
    requires i < |src| && |d'| == |d| && d' == SetByte(d, x + i, src[i])
    requires forall k :: 0 <= k < i ==> Byte(d, x + k) == src[k]
    requires forall y :: x <= y < x + i ==> Byte(d', y) == Byte(d, y)
    ensures forall k :: 0 <= k < i + 1 ==> Byte(d', x + k) == src[k]
  {
    SetByteGet(d, x + i, src[i]);
    hide Byte, SetByte;
  }

  /** A state that differs in the data area and the copy's progress alone. */
  lemma CopiedState(s: Sys, s': Sys, g: Ghosts)
    requires Inv(s, g) && s.p.Copying? && s.p.i < |s.p.src| && |s'.data| == |s.data|
    requires s' == s.(data := s'.data, p := Copying(s.p.hdr, s.p.src, s.p.i + 1))
    requires forall k :: 0 <= k < |g.recs| ==> Stored(s'.data, g.recs[k])
    requires var r := g.recs[|g.recs| - 1];
             forall k :: 0 <= k < s.p.i + 1 ==> Byte(s'.data, r.pos + HDR + k) == s.p.src[k]
    ensures Inv(s', g)
  {
    hide Byte, Word, ReadyPayloads, Capacity, RoundUp8, Tiled, Stored;
  }

  /** What copying one byte leaves in the data area. */
  lemma CopiedArea(d: Mem, recs: seq<Rec>, C: nat, P: nat, i: nat, src: seq<byte>)
    requires recs != [] && Tiled(recs, C, P) && P <= C + |d| && i < |src|
    requires forall k :: 0 <= k < |recs| ==> Stored(d, recs[k])
    requires var r := recs[|recs| - 1];
             && !r.ready && r.size == |src|
             && forall k :: 0 <= k < i ==> Byte(d, r.pos + HDR + k) == src[k]
    ensures var r := recs[|recs| - 1];
            var d' := SetByte(d, r.pos + HDR + i, src[i]);
            && (forall k :: 0 <= k < |recs| ==> Stored(d', recs[k]))
            && forall k :: 0 <= k < i + 1 ==> Byte(d', r.pos + HDR + k) == src[k]
  {
    var r := recs[|recs| - 1];
    var x := r.pos + HDR;
    hide Byte, SetByte, RoundUp8, Tiled, Stored;
    CopiedRing(d, recs, C, P, i, src[i]);
    TiledEnds(recs, C, P);
    CopiedBytes(d, SetByte(d, x + i, src[i]), x, src, i);
  }

  lemma CopyByteKeepsInv(s: Sys, g: Ghosts)
    requires Inv(s, g) && s.p.Copying? && s.p.i < |s.p.src|
    ensures Inv(Next(s, CopyByte), g)
  {
    hide Next, Byte, SetByte, Tiled, Stored, ReadyPayloads, Capacity, RoundUp8, ConsumerOk;
    CopyByteStep(s, g);
    CopiedArea(s.data, g.recs, g.C, g.P, s.p.i, s.p.src);
    CopiedState(s, Next(s, CopyByte), g);
  }

  lemma SetByteGet(d: Mem, x: nat, b: byte)
    ensures Byte(SetByte(d, x, b), x) == b
  {}

  lemma SubmitStep(s: Sys, g: Ghosts)
    requires Ring(s, g) && ProducerOk(s, g) && s.p.Copying? && s.p.i == |s.p.src|
    ensures var r := g.recs[|g.recs| - 1];
            Next(s, Submit) ==
            s.(data := SetWord(s.data, r.pos, r.size), p := Idle, submitted := s.submitted + [s.p.src])
  {
    hide SetWord, Word, Byte, And, Or, ClearBusy, ReadyPayloads, IsPowerOfTwo;
    var r := g.recs[|g.recs| - 1];
    assert Stored(s.data, r);
    BusyBit(r.size);
    SameWord(s.data, r.pos);
    SameSetWord(s.data, r.pos, 0, r.size);
  }

  lemma SubmitTiling(recs: seq<Rec>, r': Rec, C: nat, P: nat)
    requires recs != [] && Tiled(recs, C, P) && C <= P
    requires r'.pos == recs[|recs| - 1].pos && r'.size == recs[|recs| - 1].size
    ensures Tiled(recs[..|recs| - 1] + [r'], C, P)
  {
    var recs' := recs[..|recs| - 1] + [r'];
    assert forall i :: 0 <= i < |recs| ==> recs'[i].pos == recs[i].pos && recs'[i].size == recs[i].size;
  }

  lemma SubmitLog(recs: seq<Rec>, r': Rec)
    requires recs != [] && !recs[|recs| - 1].ready && r'.ready
    ensures ReadyPayloads(recs[..|recs| - 1] + [r']) == ReadyPayloads(recs) + [r'.payload]
  {
    hide ReadyPayloads;
    var m := |recs| - 1;
    assert recs == recs[..m] + [recs[m]];
    ReadyAppend(recs[..m], recs[m]);
    ReadyAppend(recs[..m], r');
  }

  lemma SubmitKeepsInv(s: Sys, g: Ghosts)
    requires Inv(s, g) && s.p.Copying? && s.p.i == |s.p.src|
    ensures Inv(Next(s, Submit), GhostNext(s, g, Submit))
  {
    hide Byte, SetWord, Word, Stored, ProducerStep, ReadyPayloads, IsPowerOfTwo, And, Or;
    var src, m, s' := s.p.src, |g.recs| - 1, Next(s, Submit);
    var r := g.recs[m];
    var r' := r.(payload := src, ready := true);
    SubmitStep(s, g);
    SubmittedBytes(s.data, r, src, g.C);
    SubmitTiling(g.recs, r', g.C, g.P);
    SubmitLog(g.recs, r');
    RecordsFrame(s.data, s'.data, g.recs[..m], g.C, r.pos);
    assert s.delivered + (ReadyPayloads(g.recs) + [src]) == s.delivered + ReadyPayloads(g.recs) + [src];
  }

  lemma SubmittedBytes(d: Mem, r: Rec, src: seq<byte>, C: nat)
    requires Stored(d, r) && !r.ready && |src| == r.size && C <= r.pos && r.End() <= C + |d|
    requires forall k :: 0 <= k < |src| ==> Byte(d, r.pos + HDR + k) == src[k]
    ensures var d' := SetWord(d, r.pos, r.size);
            && (forall y :: C <= y < r.pos ==> Byte(d', y) == Byte(d, y))
            && Stored(d', r.(payload := src, ready := true))
  {
    hide Byte, SetWord, Word;
    SetWordGet(d, r.pos, r.size);
    SetWordFrame(d, r.pos, r.size, C, r.pos);
    SetWordFrame(d, r.pos, r.size, r.pos + 4, r.End());
    SubmittedRecord(d, SetWord(d, r.pos, r.size), r, src);
  }

  lemma SubmittedRecord(d: Mem, d': Mem, r: Rec, src: seq<byte>)
    requires Stored(d, r) && !r.ready && |src| == r.size && |d'| == |d|
    requires Word(d', r.pos) == r.size
    requires forall y :: r.pos + 4 <= y < r.End() ==> Byte(d', y) == Byte(d, y)
    requires forall k :: 0 <= k < |src| ==> Byte(d, r.pos + HDR + k) == src[k]
    ensures Stored(d', r.(payload := src, ready := true))
  {
    hide Byte;
    assert r.pos + 8 <= r.End();
    assert Word(d', r.pos + 4) == Word(d, r.pos + 4);
    forall k | 0 <= k < r.size
      ensures Byte(d', r.pos + HDR + k) == src[k]
    {
      assert r.pos + HDR + k < r.End();
    }
  }

  lemma HeadWord(s: Sys, g: Ghosts)
    requires Ring(s, g) && g.recs != []
    ensures var word := Word(s.data, And(s.cons, s.Mask()));
            && (And(word, BUSY) == 0 <==> g.recs[0].ready)
            && (g.recs[0].ready ==> word == g.recs[0].size)
  {
    hide Word, Byte, And, Or, ReadyPayloads, IsPowerOfTwo;
    OffsetOf(|s.data|, g.C);
    SameWord(s.data, g.C);
    assert Stored(s.data, g.recs[0]);
    BusyBit(g.recs[0].size);
  }

  lemma PeekStep(s: Sys, g: Ghosts)
    requires Ring(s, g) && ConsumerOk(s, g) && s.c.Seen?
    ensures g.C < g.P0 ==> g.recs != []
    ensures Next(s, Peek) ==
            if g.C < g.P0 && g.recs[0].ready then s.(c := Reading(g.recs[0].size, []))
            else s.(c := Waiting)
  {
    hide Word, Byte, And, Or, Stored, ReadyPayloads, IsPowerOfTwo;
    if g.C < g.P0 {
      ModDistinct(g.C, g.P0, U64);
      HeadWord(s, g);
    }
  }

  lemma PeekKeepsInv(s: Sys, g: Ghosts)
    requires Inv(s, g) && s.c.Seen?
    ensures Inv(Next(s, Peek), g)
  {
    hide Byte, Word, ConsumerStep, ReadyPayloads, IsPowerOfTwo, And, Or;
    PeekStep(s, g);
    if g.C < g.P0 && g.recs[0].ready {
      assert Stored(s.data, g.recs[0]);
    }
  }

  lemma HeadByte(s: Sys, g: Ghosts, j: nat)
    requires Ring(s, g) && g.recs != [] && g.recs[0].ready && j < g.recs[0].size
    ensures j < |g.recs[0].payload|
    ensures Byte(s.data, And(s.cons, s.Mask()) + HDR + j) == g.recs[0].payload[j]
  {
    hide Word, Byte, And, Or, ReadyPayloads, IsPowerOfTwo, RoundUp8;
    OffsetOf(|s.data|, g.C);
    SameByte(s.data, g.C, HDR + j);
    assert Stored(s.data, g.recs[0]);
  }

  lemma ReadByteStep(s: Sys, g: Ghosts)
    requires Ring(s, g) && ConsumerOk(s, g) && s.c.Reading? && |s.c.got| < s.c.len
    ensures Next(s, ReadByte) ==
            s.(c := Reading(s.c.len, s.c.got + [g.recs[0].payload[|s.c.got|]]))
  {
    hide Byte, And, Ring;
    HeadByte(s, g, |s.c.got|);
  }

  lemma ReadByteKeepsInv(s: Sys, g: Ghosts)
    requires Inv(s, g) && s.c.Reading? && |s.c.got| < s.c.len
    ensures Inv(Next(s, ReadByte), g)
  {
    hide Byte, Word, Stored, ConsumerStep, ReadyPayloads, IsPowerOfTwo, And, Or;
    ReadByteStep(s, g);
    var w, j := g.recs[0].payload, |s.c.got|;
    assert w[..j + 1] == w[..j] + [w[j]];
  }

  lemma ReleaseStep(s: Sys, g: Ghosts)
    requires Ring(s, g) && ConsumerOk(s, g) && s.c.Reading? && |s.c.got| == s.c.len
    ensures var r := g.recs[0];
            Next(s, Release) ==
            s.(cons := r.End() % U64, c := Waiting, delivered := s.delivered + [r.payload])
  {
    hide Word, Byte, And, Or, ReadyPayloads, IsPowerOfTwo, Stored;
    ModAdd(g.C, RoundUp8(s.c.len + HDR), U64);
    assert s.c.got == g.recs[0].payload;
  }

  lemma ReadyHead(recs: seq<Rec>)
    requires recs != [] && recs[0].ready
    ensures ReadyPayloads(recs) == [recs[0].payload] + ReadyPayloads(recs[1..])
  {}

  lemma ReleasedRing(s: Sys, s': Sys, g: Ghosts)
    requires Ring(s, g) && g.recs != [] && g.recs[0].ready
    requires s' == s.(cons := g.recs[0].End() % U64, c := Waiting,
                      delivered := s.delivered + [g.recs[0].payload])
    ensures Ring(s', g.(C := g.recs[0].End(), recs := g.recs[1..]))
  {
    hide Stored, Tiled, ReadyPayloads, IsPowerOfTwo, RoundUp8;
    var r, rest := g.recs[0], g.recs[1..];
    RoundUpBounds(r.size + HDR);
    TiledBounds(g.recs, g.C, g.P);
    AlignedSum(r.pos, RoundUp8(r.size + HDR));
    ReleasedTiling(g.recs, g.C, g.P);
    ReadyHead(g.recs);
    assert s.delivered + ([r.payload] + ReadyPayloads(rest)) == (s.delivered + [r.payload]) + ReadyPayloads(rest);
  }

  lemma ReleaseKeepsInv(s: Sys, g: Ghosts)
    requires Inv(s, g) && s.c.Reading? && |s.c.got| == s.c.len
    ensures Inv(Next(s, Release), GhostNext(s, g, Release))
  {
    hide Byte, Word, Stored, Tiled, Ring, ConsumerStep, ReadyPayloads, IsPowerOfTwo, RoundUp8;
    var r := g.recs[0];
    ReleaseStep(s, g);
    ReleasedRing(s, Next(s, Release), g);
    RingPositions(s, g);
    RoundUpBounds(r.size + HDR);
    HeadPos(s, g);
  }

  lemma HeadPos(s: Sys, g: Ghosts)
    requires Ring(s, g) && g.recs != []
    ensures g.recs[0].pos == g.C
  {}

  lemma TiledBounds(recs: seq<Rec>, C: nat, P: nat)
    requires recs != [] && Tiled(recs, C, P)
    ensures recs[0].pos == C && recs[0].End() <= P
  {}

  lemma ReleasedTiling(recs: seq<Rec>, C: nat, P: nat)
    requires recs != [] && Tiled(recs, C, P)
    ensures Tiled(recs[1..], recs[0].End(), P)
  {
    var rest := recs[1..];
    assert forall i :: 0 <= i < |rest| ==> rest[i] == recs[i + 1];
  }

  // ----- all steps ------------------------------------------------------------------------

  predicate Fits(e: Event)
  {
    e.LoadCons? ==> e.size <= MAX_SIZE
  }

  lemma ProducerKeepsInv(s: Sys, g: Ghosts, e: Event)
    requires Inv(s, g) && Fits(e) && !IsConsumerEvent(e)
    ensures Inv(Next(s, e), GhostNext(s, g, e))
  {
    hide Byte, Word, SetWord, SetByte, HeaderWord, ClearBusy, Stored, Tiled, ReadyPayloads, IsPowerOfTwo, And, Or;
    match (e, s.p)
    case (LoadCons(_), Idle) =>
    case (WriteLen, Loaded(_, _)) => WriteLenKeepsInv(s, g);
    case (WritePad, LenWritten(_)) => WritePadKeepsInv(s, g);
    case (Publish, PadWritten(_)) => PublishKeepsInv(s, g);
    case (CopyByte, Copying(_, src, i)) => if i < |src| { CopyByteKeepsInv(s, g); }
    case (Submit, Copying(_, src, i)) => if i == |src| { SubmitKeepsInv(s, g); }
    case _ =>
  }

  lemma ConsumerKeepsInv(s: Sys, g: Ghosts, e: Event)
    requires Inv(s, g) && IsConsumerEvent(e)
    ensures Inv(Next(s, e), GhostNext(s, g, e))
  {
    hide Byte, Word, Stored, Tiled, ReadyPayloads, IsPowerOfTwo, And, Or;
    match (e, s.c)
    case (Peek, Seen(_)) => PeekKeepsInv(s, g);
    case (ReadByte, Reading(len, got)) => if |got| < len { ReadByteKeepsInv(s, g); }
    case (Release, Reading(len, got)) => if |got| == len { ReleaseKeepsInv(s, g); }
    case _ =>
  }

  /** Every step of either side keeps the picture. */
  lemma NextKeepsInv(s: Sys, g: Ghosts, e: Event)
    requires Inv(s, g) && Fits(e)
    ensures Inv(Next(s, e), GhostNext(s, g, e))
  {
    hide Inv, Next, GhostNext;
    if IsConsumerEvent(e) {
      ConsumerKeepsInv(s, g, e);
    } else {
      ProducerKeepsInv(s, g, e);
    }
  }
}

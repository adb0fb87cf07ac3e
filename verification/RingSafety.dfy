/**
 The promises of the ring, for every capacity the producer accepts, every initial
 content of the data area and every interleaving of the two sides.
 */
module RingSafety {
  import opened Bits
  import opened Modular
  import opened RingProtocol
  import opened RingInvariant

  ghost predicate Run(d: Mem, start: u64, es: seq<Event>)
  {
    && Capacity(|d|) && start % 8 == 0
    && forall i :: 0 <= i < |es| ==> Fits(es[i])
  }

  lemma InitInv(d: Mem, start: u64)
    requires Capacity(|d|) && start % 8 == 0
    ensures Inv(Init(d, start), Ghosts(start, start, [], 0, 0))
  {
    DivModUnique(start, U64, 0, start);
  }

  lemma {:induction false} RunInv(d: Mem, start: u64, es: seq<Event>) returns (g: Ghosts)
    requires Run(d, start, es)
    ensures Inv(Exec(Init(d, start), es), g)
    ensures |Exec(Init(d, start), es).data| == |d|
    decreases |es|
  {
    hide Inv, Next, GhostNext, Init, IsPowerOfTwo;
    if es == [] {
      InitInv(d, start);
      g := Ghosts(start, start, [], 0, 0);
      InitArea(d, start);
    } else {
      var front, e := es[..|es| - 1], es[|es| - 1];
      var g0 := RunInv(d, start, front);
      NextKeepsInv(Exec(Init(d, start), front), g0, e);
      NextArea(Exec(Init(d, start), front), e);
      g := GhostNext(Exec(Init(d, start), front), g0, e);
    }
  }

  lemma InitArea(d: Mem, start: u64)
    ensures |Init(d, start).data| == |d|
  {}

  lemma NextArea(s: Sys, e: Event)
    ensures |Next(s, e).data| == |s.data|
  {
    hide And, Or, Word, SetWord, SetByte, HeaderWord, ClearBusy, Total;
  }

  // ----- tiling --------------------------------------------------------------------

  /** The next `left` bytes from slot `off` are a chain of whole 8-aligned records. */
  predicate Chain(d: Mem, off: nat, left: nat)
    decreases left
  {
    left == 0 ||
    var t := RoundUp8(ClearBusy(Word(d, off)) + HDR);
    off % 8 == 0 && Word(d, off + 4) == 0 && t <= left && Chain(d, (off + t) % |d|, left - t)
  }

  /** The payloads of the submitted records among those bytes, oldest first. */
  function Pending(d: Mem, off: nat, left: nat): seq<seq<byte>>
    decreases left
  {
    var word := Word(d, off);
    var size := ClearBusy(word);
    var t := RoundUp8(size + HDR);
    if left < t then []
    else (if And(word, BUSY) == 0 then [Slice(d, off + HDR, size)] else [])
         + Pending(d, (off + t) % |d|, left - t)
  }

  function Slice(d: Mem, off: nat, len: nat): seq<byte>
  {
    seq<byte>(len, k requires 0 <= k => Byte(d, off + k))
  }

  /** Stored records that tile [C, P). */
  ghost predicate Laid(d: Mem, recs: seq<Rec>, C: nat, P: nat)
  {
    C <= P && Tiled(recs, C, P) && forall i :: 0 <= i < |recs| ==> Stored(d, recs[i])
  }

  lemma LaidTail(d: Mem, recs: seq<Rec>, C: nat, P: nat)
    requires Laid(d, recs, C, P)
    ensures recs == [] ==> C == P
    ensures recs != [] ==>
              && recs[0].pos == C <= recs[0].End() <= P && Stored(d, recs[0])
              && Laid(d, recs[1..], recs[0].End(), P)
  {
    hide Stored;
    if recs != [] {
      ReleasedTiling(recs, C, P);
    }
  }

  lemma {:induction false} RecordsChain(d: Mem, recs: seq<Rec>, C: nat, P: nat)
    requires Capacity(|d|) && C <= P && Laid(d, recs, C, P)
    ensures Chain(d, Rem(C, |d|), P - C)
    decreases |recs|
  {
    EmptyPending(d, Rem(C, |d|));
    hide Capacity, Stored, Laid, Rem, Chain, Rec.End;
    LaidTail(d, recs, C, P);
    if recs == [] {
    } else {
      RecordsChain(d, recs[1..], recs[0].End(), P);
      ChainStep(d, recs[0], P);
    }
  }

  lemma {:induction false} RecordsPending(d: Mem, recs: seq<Rec>, C: nat, P: nat)
    requires C <= P && Laid(d, recs, C, P)
    ensures Pending(d, Rem(C, |d|), P - C) == ReadyPayloads(recs)
    decreases |recs|
  {
    hide Stored, Laid, Pending, Log, Rem, Rec.End;
    LaidTail(d, recs, C, P);
    if recs == [] {
      EmptyPending(d, Rem(C, |d|));
    } else {
      RecordsPending(d, recs[1..], recs[0].End(), P);
      PendingStep(d, recs[0], P);
      PendingLog(d, recs, C, P);
    }
  }

  lemma PendingLog(d: Mem, recs: seq<Rec>, C: nat, P: nat)
    requires recs != [] && recs[0].pos == C <= recs[0].End() <= P
    requires Pending(d, Rem(C, |d|), P - C) == Log(recs[0]) + Pending(d, Rem(recs[0].End(), |d|), P - recs[0].End())
    requires Pending(d, Rem(recs[0].End(), |d|), P - recs[0].End()) == ReadyPayloads(recs[1..])
    ensures Pending(d, Rem(C, |d|), P - C) == ReadyPayloads(recs)
  {
    LogStep(recs);
    hide Pending, Rem, Rec.End, Log, ReadyPayloads;
  }

  lemma EmptyPending(d: Mem, off: nat)
    ensures Pending(d, off, 0) == [] && Chain(d, off, 0)
  {}

  function Log(r: Rec): seq<seq<byte>>
  {
    if r.ready then [r.payload] else []
  }

  lemma LogStep(recs: seq<Rec>)
    requires recs != []
    ensures ReadyPayloads(recs) ==
            Log(recs[0]) + ReadyPayloads(recs[1..])
  {}

  /** The header of a stored record, read through its slot. */
  lemma StoredHeader(d: Mem, r: Rec)
    requires Stored(d, r)
    ensures var word := Word(d, Rem(r.pos, |d|));
            && ClearBusy(word) == r.size && r.size < BUSY
            && (And(word, BUSY) == 0 <==> r.ready)
            && Word(d, Rem(r.pos, |d|) + 4) == 0
  {
    hide Byte, Word, And, ClearBusy;
    SameWordAt(d, r.pos, 0);
    SameWordAt(d, r.pos, 4);
    BusyBit(r.size);
    PlainWord(r.size);
  }

  lemma ChainStep(d: Mem, r: Rec, P: nat)
    requires Capacity(|d|) && Stored(d, r) && r.pos <= r.End() <= P
    requires Chain(d, Rem(r.End(), |d|), P - r.End())
    ensures Chain(d, Rem(r.pos, |d|), P - r.pos)
  {
    StoredHeader(d, r);
    RoundUpBounds(r.size + HDR);
    HeaderFits(|d|, r.pos);
    SlotAligned(d, r);
    hide Stored, Byte, Word, And, ClearBusy, IsPowerOfTwo, RoundUp8;
    ModAdd(r.pos, RoundUp8(r.size + HDR), |d|);
  }

  lemma SlotAligned(d: Mem, r: Rec)
    requires Capacity(|d|) && Stored(d, r)
    ensures Rem(r.pos, |d|) % 8 == 0
  {
    hide Word, Byte, IsPowerOfTwo;
    CapacityAligned(|d|);
    AlignedRemainder(r.pos, |d|);
  }

  lemma PendingStep(d: Mem, r: Rec, P: nat)
    requires Stored(d, r) && r.pos <= r.End() <= P
    ensures Pending(d, Rem(r.pos, |d|), P - r.pos) ==
            Log(r) + Pending(d, Rem(r.End(), |d|), P - r.End())
  {
    hide Stored, Byte, Word, And, ClearBusy, RoundUp8, Slice, Pending, Rem;
    StoredHeader(d, r);
    StoredSlice(d, r);
    PendingUnfold(d, Rem(r.pos, |d|), P - r.pos);
    NextSlot(d, r);
  }

  lemma PendingUnfold(d: Mem, off: nat, left: nat)
    ensures var word := Word(d, off);
            var t := RoundUp8(ClearBusy(word) + HDR);
            t <= left ==>
              Pending(d, off, left) ==
              (if And(word, BUSY) == 0 then [Slice(d, off + HDR, ClearBusy(word))] else [])
              + Pending(d, Rem(off + t, |d|), left - t)
  {
    RoundUpBounds(ClearBusy(Word(d, off)) + HDR);
    hide Word, And, ClearBusy, RoundUp8, Slice;
  }

  lemma NextSlot(d: Mem, r: Rec)
    ensures Rem(Rem(r.pos, |d|) + RoundUp8(r.size + HDR), |d|) == Rem(r.End(), |d|)
  {
    hide RoundUp8;
    ModAdd(r.pos, RoundUp8(r.size + HDR), |d|);
  }

  lemma StoredSlice(d: Mem, r: Rec)
    requires Stored(d, r)
    ensures r.ready ==> Slice(d, Rem(r.pos, |d|) + HDR, r.size) == r.payload
  {
    hide Byte, Word;
    if r.ready {
      forall k | 0 <= k < r.size
        ensures Slice(d, Rem(r.pos, |d|) + HDR, r.size)[k] == r.payload[k]
      {
        SameByte(d, r.pos, HDR + k);
      }
    }
  }

  lemma SameWordAt(d: Mem, pos: nat, k: nat)
    ensures Word(d, pos % |d| + k) == Word(d, pos + k)
  {
    SameByte(d, pos, k);
    SameByte(d, pos, k + 1);
    SameByte(d, pos, k + 2);
    SameByte(d, pos, k + 3);
  }

  lemma PlainWord(size: nat)
    requires size < BUSY
    ensures ClearBusy(size) == size
  {
    hide And, Pow2;
    Pow2Constants();
    AndMask(size, 31);
  }

  lemma AlignedRemainder(pos: nat, n: nat)
    requires pos % 8 == 0 && n % 8 == 0 && 1 <= n
    ensures pos % n % 8 == 0
  {
    ModOfMultiple(pos, 8, n / 8);
  }

  /** In every reachable state whole records fill the span between the positions exactly. */
  lemma SpanIsChainOfRecords(d: Mem, start: u64, es: seq<Event>)
    requires Run(d, start, es)
    ensures var s := Exec(Init(d, start), es);
            && s.Unread() <= |d|
            && s.cons % 8 == 0 && s.prod % 8 == 0
            && Chain(s.data, And(s.cons, s.Mask()), s.Unread())
  {
    hide Exec, Stored, Tiled, ReadyPayloads, ProducerOk, ConsumerOk, IsPowerOfTwo, Chain, And, WrapSub;
    var s := Exec(Init(d, start), es);
    var g := RunInv(d, start, es);
    ModDistance(g.C, g.P, U64);
    AlignedRemainder(g.C, U64);
    AlignedRemainder(g.P, U64);
    OffsetOf(|s.data|, g.C);
    RecordsChain(s.data, g.recs, g.C, g.P);
  }

  // ----- FIFO ----------------------------------------------------------------------

  /**
   Under every interleaving, each submitted payload has either been delivered or lies
   whole in the ring, in submission order: none is lost, repeated, reordered or torn.
   */
  lemma SubmittedIsDeliveredThenPending(d: Mem, start: u64, es: seq<Event>)
    requires Run(d, start, es)
    ensures var s := Exec(Init(d, start), es);
            && s.delivered <= s.submitted
            && s.submitted == s.delivered + Pending(s.data, And(s.cons, s.Mask()), s.Unread())
  {
    hide Exec, Stored, Tiled, ReadyPayloads, ProducerOk, ConsumerOk, IsPowerOfTwo, And, WrapSub, Pending;
    var s := Exec(Init(d, start), es);
    var g := RunInv(d, start, es);
    ModDistance(g.C, g.P, U64);
    OffsetOf(|s.data|, g.C);
    RecordsPending(s.data, g.recs, g.C, g.P);
  }

  // ----- reserve ----------------------------------------------------------------------

  /**
   The decision of reserve, taken on a consumer position read earlier: it accepts
   exactly when the record fits what was free then, so never more than is free now,
   and a refusal changes nothing but the producer's own progress.
   */
  lemma ReserveDecision(s: Sys, g: Ghosts)
    requires Inv(s, g) && s.p.Loaded?
    ensures var size, s' := s.p.size, Next(s, WriteLen);
            && s.Avail(s.p.seen) == |s.data| - (g.P - g.C0)
            && s.Avail(s.p.seen) <= |s.data| - s.Unread()
            && (RoundUp8(size + HDR) <= s.Avail(s.p.seen) ==> s'.p == LenWritten(size))
            && (RoundUp8(size + HDR) > s.Avail(s.p.seen) ==> s' == s.(p := Idle))
  {
    hide Stored, Tiled, ReadyPayloads, ConsumerOk, IsPowerOfTwo, SetWord, And, Or, ProducerStep, Total, RoundUp8;
    AvailExact(s, g);
    WriteLenStep(s, g);
    ModDistance(g.C, g.P, U64);
  }

  /** The steps of reserve leave every unconsumed byte as it was. */
  lemma ReserveKeepsUnread(s: Sys, g: Ghosts, e: Event)
    requires Inv(s, g) && (e.LoadCons? || e == WriteLen || e == WritePad || e == Publish)
    ensures forall y :: s.cons <= y < s.cons + s.Unread() ==>
              Byte(Next(s, e).data, y) == Byte(s.data, y)
  {
    hide Stored, Tiled, ReadyPayloads, ConsumerOk, ProducerOk, IsPowerOfTwo, WrapSub, Sys.Unread, Next, Byte;
    var d, d' := s.data, Next(s, e).data;
    NextArea(s, e);
    UnreadLength(s, g);
    ReserveFrame(s, g, e);
    assert Capacity(|d|) && s.cons == g.C % U64;
    hide Inv, Ring, Positions, Capacity;
    forall y | s.cons <= y < s.cons + s.Unread()
      ensures Byte(d', y) == Byte(d, y)
    {
      var k := y - s.cons;
      PositionByte(d, g.C, k);
      PositionByte(d', g.C, k);
      assert Byte(d', g.C + k) == Byte(d, g.C + k);
    }
  }

  lemma UnreadLength(s: Sys, g: Ghosts)
    requires Positions(s, g)
    ensures s.Unread() == g.P - g.C
  {
    hide IsPowerOfTwo;
    ModDistance(g.C, g.P, U64);
  }

  lemma PositionByte(d: Mem, C: nat, k: nat)
    requires Capacity(|d|)
    ensures Byte(d, C % U64 + k) == Byte(d, C + k)
  {
    var n := |d|;
    var j := PowerOfTwoOrder(n);
    Pow2Constants();
    if 64 < j {
      Pow2Monotone(64, j);
    }
    Pow2Add(j, 64 - j);
    ModOfMultiple(C, n, Pow2(64 - j));
    ModAdd(C % U64, k, n);
    ModAdd(C, k, n);
  }

  lemma ReserveFrame(s: Sys, g: Ghosts, e: Event)
    requires Inv(s, g) && (e.LoadCons? || e == WriteLen || e == WritePad || e == Publish)
    ensures forall y :: g.C <= y < g.P ==> Byte(Next(s, e).data, y) == Byte(s.data, y)
  {
    hide Stored, Tiled, ReadyPayloads, ConsumerOk, IsPowerOfTwo, SetWord, Word, Byte, And, Or;
    if e == WriteLen && s.p.Loaded? {
      WriteLenStep(s, g);
      if Next(s, e).p.LenWritten? {
        SetWordFrame(s.data, g.P, s.p.size + BUSY, g.C, g.P);
      }
    } else if e == WritePad && s.p.LenWritten? {
      WritePadStep(s, g);
      SetWordFrame(s.data, g.P + 4, 0, g.C, g.P + 4);
    }
  }

  /** The producer keeps to its own claimed record: submitted ones never change. */
  lemma SubmittedBytesStay(s: Sys, g: Ghosts, e: Event, i: nat)
    requires Inv(s, g) && Fits(e) && i < |g.recs| && g.recs[i].ready
    ensures forall y :: g.recs[i].pos <= y < g.recs[i].End() ==>
              Byte(Next(s, e).data, y) == Byte(s.data, y)
  {
    hide Stored, ReadyPayloads, ConsumerOk, IsPowerOfTwo, SetWord, SetByte, Word, Byte, And, Or, RoundUp8;
    if s.p.Copying? && e == CopyByte && s.p.i < |s.p.src| {
      var r := g.recs[|g.recs| - 1];
      CopyByteStep(s, g);
      RoundUpBounds(r.size + HDR);
      SetByteFrame(s.data, r.pos + HDR + s.p.i, s.p.src[s.p.i], g.C, r.pos);
    } else if s.p.Copying? && e == Submit && s.p.i == |s.p.src| {
      var r := g.recs[|g.recs| - 1];
      SubmitStep(s, g);
      RoundUpBounds(r.size + HDR);
      assert Stored(s.data, r);
      StoredSize(s.data, r);
      SetWordFrame(s.data, r.pos, r.size, g.C, r.pos);
    } else if (e == WriteLen && s.p.Loaded?) || (e == WritePad && s.p.LenWritten?) {
      ReserveFrame(s, g, e);
    }
  }

  lemma StoredSize(d: Mem, r: Rec)
    requires Stored(d, r)
    ensures r.size < BUSY
  {}

  /** A claimed record starts inside the area with its header whole; its payload
      ends inside the second mapping. The same holds for the record being read. */
  lemma AccessesStayInMapping(s: Sys, g: Ghosts)
    requires Inv(s, g)
    ensures s.p.Owned? ==> s.p.hdr + HDR <= |s.data| && s.p.hdr + HDR + s.p.size <= 2 * |s.data|
    ensures s.p.Copying? ==> s.p.hdr + HDR <= |s.data| && s.p.hdr + HDR + |s.p.src| <= 2 * |s.data|
    ensures s.c.Reading? ==>
              var off := And(s.cons, s.Mask());
              off + HDR <= |s.data| && off + HDR + s.c.len <= 2 * |s.data|
  {
    hide Tiled, ReadyPayloads, Word, Byte, And, IsPowerOfTwo, RoundUp8;
    var n := |s.data|;
    if s.p.Owned? || s.p.Copying? {
      var r := g.recs[|g.recs| - 1];
      assert Stored(s.data, r);
      RoundUpBounds(r.size + HDR);
      HeaderFits(n, r.pos);
    }
    if s.c.Reading? {
      var r := g.recs[0];
      assert Stored(s.data, r);
      HeadPos(s, g);
      RoundUpBounds(r.size + HDR);
      HeaderFits(n, r.pos);
      OffsetOf(n, r.pos);
    }
  }

  lemma HeaderFits(n: nat, pos: nat)
    requires Capacity(n) && 8 <= n && pos % 8 == 0
    ensures pos % n + HDR <= n
  {
    CapacityAligned(n);
    AlignedRemainder(pos, n);
  }

  // ----- sizes ------------------------------------------------------------------------

  /**
   For a size that passes the space check: the stored header gives the size back,
   shows busy before submit, and leads the consumer over exactly the claimed bytes.
   Beyond MAX_SIZE the 64-bit sum wraps to 0 or 8 and the two sides fall out of step.
   */
  lemma HeaderKeepsSidesInStep(size: u64, avail: nat)
    requires Total(size) <= avail <= BUSY
    ensures size <= MAX_SIZE <==> RoundUp8(ClearBusy(HeaderWord(size)) + HDR) == Total(size)
    ensures size <= MAX_SIZE ==> ClearBusy(HeaderWord(size)) == size && And(HeaderWord(size), BUSY) != 0
  {
    hide And, Or, Pow2, HeaderWord;
    RoundUpBounds((size + HDR) % U64);
    TotalExact(size);
    if size <= MAX_SIZE {
      RoundUpBounds(size + HDR);
      BusyHeader(size);
      BusyBit(size);
    } else {
      WrappedTotal(size);
      WrappedHeader(size);
    }
  }

  /** From 2^64 - 15 to 2^64 - 8 the claim is empty; the last seven sizes claim a bare header. */
  lemma WrappedTotal(size: u64)
    requires MAX_SIZE < size
    ensures Total(size) == if size <= U64 - 8 then 0 else 8
  {}

  lemma WrappedHeader(size: u64)
    requires MAX_SIZE < size
    ensures ClearBusy(HeaderWord(size)) > 8
  {
    hide And, Pow2, Or;
    var low := size % 0x1_0000_0000;
    assert low >= 0xffff_fff0;
    Pow2Constants();
    OrSetBit(low, 31);
    AndMask(low, 31);
  }

  lemma {:induction false} OrSetBit(v: nat, k: nat)
    requires Pow2(k) <= v < 2 * Pow2(k)
    ensures Or(v, Pow2(k)) == v
  {
    if k == 0 {
    } else {
      OrSetBit(v / 2, k - 1);
    }
  }

  /** Without that bound a full ring accepts a record that claims nothing, over the oldest unread header. */
  lemma WrappedSizeOverwrites(s: Sys, g: Ghosts)
    requires Ring(s, g) && g.P == g.C + |s.data| && g.recs != [] && g.recs[0].ready
    requires s.p.Loaded? && s.p.seen == s.cons && MAX_SIZE < s.p.size <= U64 - 8
    ensures Total(s.p.size) == 0
    ensures Next(s, WriteLen).p.LenWritten?
    ensures Word(Next(s, WriteLen).data, g.C) != Word(s.data, g.C)
  {
    hide Tiled, ReadyPayloads, IsPowerOfTwo, And, Or, Byte, SetWord, Word, HeaderWord;
    var size := s.p.size;
    var r := g.recs[0];
    WrappedTotal(size);
    assert Stored(s.data, r);
    HeadPos(s, g);
    ReadyWord(s.data, r);
    hide Stored, Total;
    WrappedSlot(s, g);
    SameSetWord(s.data, g.C, 0, HeaderWord(size));
    SetWordGet(s.data, g.C, HeaderWord(size));
    WrappedHeaderIsBusy(size);
  }

  /**
   The last seven sizes claim a bare header: a ring with just eight bytes free accepts
   them, and the payload then starts on the oldest unread record.
   */
  lemma WrappedSizeClaimsHeader(s: Sys, g: Ghosts)
    requires Ring(s, g) && g.P + HDR == g.C + |s.data|
    requires s.p.Loaded? && s.p.seen == s.cons && U64 - 8 < s.p.size
    ensures Total(s.p.size) == HDR
    ensures var s' := Next(Next(Next(s, WriteLen), WritePad), Publish);
            && s'.p.Owned? && s'.p.size == s.p.size && |s'.data| == |s.data|
            && (s'.p.hdr + HDR) % |s.data| == g.C % |s.data|
  {
    hide Tiled, Stored, ReadyPayloads, IsPowerOfTwo, And, Or, Byte, SetWord, Word, HeaderWord, WrapSub;
    var size, n := s.p.size, |s.data|;
    WrappedTotal(size);
    hide Total;
    UnreadLength(s, g);
    OffsetOf(n, g.P);
    var s1 := Next(s, WriteLen);
    assert s1.p == LenWritten(size) && s1.prod == s.prod;
    var s2 := Next(s1, WritePad);
    assert s2.p == PadWritten(size) && s2.prod == s.prod;
    assert Next(s2, Publish).p == Owned(g.P % n, size);
    hide Next, ProducerStep, Capacity;
    ModAdd(g.P, HDR, n);
    NextLap(g.C, n);
  }

  lemma ReadyWord(d: Mem, r: Rec)
    requires Stored(d, r) && r.ready
    ensures Word(d, r.pos) < BUSY && 8 <= |d|
  {
    hide Byte, Word;
    RoundUpBounds(r.size + HDR);
  }

  /** In a full ring the next header goes to the slot of the oldest one. */
  lemma WrappedSlot(s: Sys, g: Ghosts)
    requires Positions(s, g) && g.P == g.C + |s.data|
    ensures And(s.prod, s.Mask()) == g.C % |s.data| + 0
  {
    hide And, IsPowerOfTwo;
    OffsetOf(|s.data|, g.P);
    NextLap(g.C, |s.data|);
  }

  lemma NextLap(C: nat, n: nat)
    requires 1 <= n
    ensures (C + n) % n == C % n
  {
    DivModUnique(C + n, n, C / n + 1, C % n);
  }

  lemma WrappedHeaderIsBusy(size: u64)
    requires MAX_SIZE < size
    ensures HeaderWord(size) >= BUSY
  {
    hide Pow2, Or;
    Pow2Constants();
    OrSetBit(size % 0x1_0000_0000, 31);
  }

  // ----- the layout of a header --------------------------------------------------------------

  /** What reserve stores: the size in little-endian order, the busy flag on top, four zeros. */
  lemma ReservedBytes(d: Mem, i: nat, size: nat)
    requires i + 8 <= |d| && size < 0x8000_0000
    ensures var d' := SetWord(SetWord(d, i, HeaderWord(size)), i + 4, 0);
            && |d'| == |d|
            && d'[i] == size % 0x100 && d'[i + 1] == size / 0x100 % 0x100
            && d'[i + 2] == size / 0x1_0000 % 0x100 && d'[i + 3] == size / 0x100_0000 + 128
            && d'[i + 4] == 0 && d'[i + 5] == 0 && d'[i + 6] == 0 && d'[i + 7] == 0
  {
    hide HeaderWord, SetWord, Byte;
    BusyHeader(size);
    var v := size + BUSY;
    var d1 := SetWord(d, i, v);
    SetWordBytes(d, i, v);
    TopByte(size);
    PadKeepsWord(d1, i);
    hide *;
  }

  lemma PadKeepsWord(d: Mem, i: nat)
    requires i + 8 <= |d|
    ensures var d' := SetWord(d, i + 4, 0);
            && |d'| == |d|
            && d'[i] == Byte(d, i) && d'[i + 1] == Byte(d, i + 1)
            && d'[i + 2] == Byte(d, i + 2) && d'[i + 3] == Byte(d, i + 3)
            && d'[i + 4] == 0 && d'[i + 5] == 0 && d'[i + 6] == 0 && d'[i + 7] == 0
  {
    hide SetWord, Byte;
    var d' := SetWord(d, i + 4, 0);
    SetWordFrame(d, i + 4, 0, i, i + 4);
    SetWordBytes(d, i + 4, 0);
    ByteAt(d', i);
    ByteAt(d', i + 1);
    ByteAt(d', i + 2);
    ByteAt(d', i + 3);
    ByteAt(d', i + 4);
    ByteAt(d', i + 5);
    ByteAt(d', i + 6);
    ByteAt(d', i + 7);
  }

  lemma ByteAt(d: Mem, i: nat)
    requires i < |d|
    ensures Byte(d, i) == d[i]
  {}

  lemma TopByte(size: nat)
    requires size < 0x8000_0000
    ensures var v := size + BUSY;
            && v % 0x100 == size % 0x100 && v / 0x100 % 0x100 == size / 0x100 % 0x100
            && v / 0x1_0000 % 0x100 == size / 0x1_0000 % 0x100 && v / 0x100_0000 == size / 0x100_0000 + 128
  {
    var v := size + BUSY;
    assert v / 0x100 == size / 0x100 + 0x80_0000;
    assert v / 0x1_0000 == size / 0x1_0000 + 0x8000;
  }

  lemma SetWordBytes(d: Mem, i: nat, v: nat)
    requires v < 0x1_0000_0000 && 8 <= |d|
    ensures var d' := SetWord(d, i, v);
            && Byte(d', i) == v % 0x100 && Byte(d', i + 1) == v / 0x100 % 0x100
            && Byte(d', i + 2) == v / 0x1_0000 % 0x100 && Byte(d', i + 3) == v / 0x100_0000
  {
    var b0, b1, b2, b3 := v % 0x100, v / 0x100 % 0x100, v / 0x1_0000 % 0x100, v / 0x100_0000;
    var d1 := SetByte(d, i, b0);
    var d2 := SetByte(d1, i + 1, b1);
    var d3 := SetByte(d2, i + 2, b2);
    SetByteGet(d, i, b0);
    SetByteGet(d1, i + 1, b1);
    SetByteGet(d2, i + 2, b2);
    SetByteGet(d3, i + 3, b3);
    SetByteFrame(d1, i + 1, b1, i, i + 1);
    SetByteFrame(d2, i + 2, b2, i, i + 2);
    SetByteFrame(d3, i + 3, b3, i, i + 3);
    hide Byte, SetByte;
  }

  /** What the consumer reads there: busy iff the top bit is set, the rest being the length. */
  lemma ReadBytes(d: Mem, i: nat)
    requires i + 4 <= |d|
    ensures And(Word(d, i), BUSY) == 0 <==> d[i + 3] < 128
    ensures ClearBusy(Word(d, i)) ==
            d[i] + 0x100 * (d[i + 1] as int) + 0x1_0000 * (d[i + 2] as int) + 0x100_0000 * (d[i + 3] as int % 128)
  {
    hide And, Pow2, ClearBusy, Byte;
    ByteAt(d, i);
    ByteAt(d, i + 1);
    ByteAt(d, i + 2);
    ByteAt(d, i + 3);
    var low := d[i] + 0x100 * (d[i + 1] as int) + 0x1_0000 * (d[i + 2] as int);
    var word := Word(d, i);
    assert word == low + 0x100_0000 * (d[i + 3] as int);
    hide Word;
    LowBits(low, d[i + 3]);
    ClearBusyIs(word);
    BusyIs(word);
  }

  lemma BusyIs(word: nat)
    requires word < 0x1_0000_0000
    ensures And(word, BUSY) == 0 <==> word < 0x8000_0000
  {
    Pow2Constants();
    hide And, Pow2;
    AndTopBit(word, 31);
  }

  lemma ClearBusyIs(word: nat)
    ensures ClearBusy(word) == word % 0x8000_0000
  {
    Pow2Constants();
    hide And, Pow2;
    AndMask(word, 31);
  }

  lemma LowBits(low: nat, top: nat)
    requires low < 0x100_0000 && top < 256
    ensures (low + 0x100_0000 * top) % 0x8000_0000 == low + 0x100_0000 * (top % 128)
    ensures low + 0x100_0000 * top < 0x8000_0000 <==> top < 128
  {}

  // ----- a dropped entry -----------------------------------------------------------------

  /** The oldest record is busy and no entry for it exists any more. */
  ghost predicate Abandoned(s: Sys, g: Ghosts)
  {
    && g.recs != [] && !g.recs[0].ready
    && (s.p.Owned? || s.p.Copying? ==> 2 <= |g.recs|)
  }

  lemma AbandonedStays(s: Sys, g: Ghosts, e: Event)
    requires Inv(s, g) && Fits(e) && Abandoned(s, g)
    ensures Abandoned(Next(s, e), GhostNext(s, g, e))
    ensures Next(s, e).delivered == s.delivered && Next(s, e).cons == s.cons
  {
    hide Stored, Tiled, Ring, ReadyPayloads, Word, Byte, SetWord, SetByte, And, Or;
    hide HeaderWord, ClearBusy, Total, RoundUp8;
  }

  /** Once an entry is dropped before submit, nothing behind it is ever delivered. */
  lemma {:induction false} DroppedEntryBlocksDelivery(s: Sys, g: Ghosts, es: seq<Event>) returns (g': Ghosts)
    requires Inv(s, g) && Abandoned(s, g)
    requires forall i :: 0 <= i < |es| ==> Fits(es[i])
    ensures Inv(Exec(s, es), g') && Abandoned(Exec(s, es), g')
    ensures Exec(s, es).delivered == s.delivered && Exec(s, es).cons == s.cons
    decreases |es|
  {
    hide Inv, Next, GhostNext, Abandoned;
    if es == [] {
      g' := g;
    } else {
      var g0 := DroppedEntryBlocksDelivery(s, g, es[..|es| - 1]);
      var s0, e := Exec(s, es[..|es| - 1]), es[|es| - 1];
      NextKeepsInv(s0, g0, e);
      AbandonedStays(s0, g0, e);
      g' := GhostNext(s0, g0, e);
    }
  }
}

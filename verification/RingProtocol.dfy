/**
 The user ring buffer as a state machine: one producer and one consumer that share
 an area of bytes, an 8-byte record header and two free-running positions. Every
 access to shared memory is a step of its own, so a run is an arbitrary
 interleaving of the two sides.
 */
module RingProtocol {
  import opened Bits
  import opened Modular

  /** The data area; its length is the capacity of the ring. */
  type Mem = d: seq<byte> | 0 < |d| witness [0]

  const HDR: nat := 8
  const BUSY: nat := 0x8000_0000

  /** The largest size whose header and padding still fit a 64-bit word. */
  const MAX_SIZE: nat := U64 - 16

  function RoundUp8(n: nat): nat
  {
    (n + 7) / 8 * 8
  }

  /** Bytes claimed for a payload, with the wrap-around of an optimised build. */
  function Total(size: u64): u64
  {
    RoundUp8((size + HDR) % U64) % U64
  }

  // Memory. The data pages are mapped twice in a row, so linear address i of the
  // mapping is byte i % |d| of the area.

  function Byte(d: Mem, i: nat): byte
  {
    d[i % |d|]
  }

  function SetByte(d: Mem, i: nat, b: byte): (d': Mem)
    ensures |d'| == |d|
  {
    d[i % |d| := b]
  }

  /** A little-endian u32 load. */
  function Word(d: Mem, i: nat): nat
  {
    Byte(d, i) + 0x100 * Byte(d, i + 1) + 0x1_0000 * Byte(d, i + 2) + 0x100_0000 * Byte(d, i + 3)
  }

  /** A little-endian u32 store. */
  function SetWord(d: Mem, i: nat, v: nat): (d': Mem)
    requires v < 0x1_0000_0000
    ensures |d'| == |d|
  {
    SetByte(SetByte(SetByte(SetByte(d,
      i, v % 0x100),
      i + 1, v / 0x100 % 0x100),
      i + 2, v / 0x1_0000 % 0x100),
      i + 3, v / 0x100_0000)
  }

  /** Where the producer stands inside reserve / copy_from_slice / submit. */
  datatype Producer =
    | Idle
    | Loaded(size: u64, seen: u64)                // consumer position has been read
    | LenWritten(size: u64)                       // first header word stored
    | PadWritten(size: u64)                       // second header word stored
    | Owned(hdr: nat, size: u64)                  // position published, entry returned
    | Copying(hdr: nat, src: seq<byte>, i: nat)   // first i bytes of src copied

  /** Where the consumer stands inside a drain. */
  datatype Consumer =
    | Waiting
    | Seen(end: u64)                              // producer position has been read
    | Reading(len: nat, got: seq<byte>)           // payload being read by the callback

  datatype Sys = Sys(
    data: Mem,
    cons: u64,
    prod: u64,
    p: Producer,
    c: Consumer,
    submitted: seq<seq<byte>>,
    delivered: seq<seq<byte>>)
  {
    function Mask(): nat { |data| - 1 }

    /** Bytes between the two positions. */
    function Unread(): nat { WrapSub(prod, cons, U64) }

    /** Free space as reserve computes it from a consumer position it has read. */
    function Avail(seen: u64): nat {
      var used := WrapSub(prod, seen, U64);
      if used <= |data| then |data| - used else 0
    }
  }

  datatype Event =
    | LoadCons(size: u64) | WriteLen | WritePad | Publish
    | BeginCopy(src: seq<byte>) | CopyByte | Submit | DropEntry
    | LoadProd | Peek | ReadByte | Release

  function HeaderWord(size: u64): (v: nat)
    ensures v < 0x1_0000_0000
  {
    var low := size % 0x1_0000_0000;
    var v := Or(low, BUSY);
    HeaderWordFits(low);
    v
  }

  lemma HeaderWordFits(low: nat)
    requires low < 0x1_0000_0000
    ensures Or(low, BUSY) < 0x1_0000_0000
  {
    Pow2Constants();
    OrBelow(low, BUSY, 32);
  }

  lemma {:induction false} OrBelow(a: nat, b: nat, k: nat)
    requires a < Pow2(k) && b < Pow2(k)
    ensures Or(a, b) < Pow2(k)
  {
    if k == 0 || a == 0 || b == 0 {
    } else {
      OrBelow(a / 2, b / 2, k - 1);
    }
  }

  lemma {:induction false} AndBelow(a: nat, b: nat)
    ensures And(a, b) <= a && And(a, b) <= b
  {
    if a == 0 || b == 0 {
    } else {
      AndBelow(a / 2, b / 2);
    }
  }

  /** The header word with its busy bit cleared. */
  function ClearBusy(v: nat): (w: nat)
    ensures w < BUSY
  {
    AndBelow(v, BUSY - 1);
    And(v, BUSY - 1)
  }

  function ProducerStep(s: Sys, e: Event): Sys
  {
    match (e, s.p)
    case (LoadCons(size), Idle) =>
      s.(p := Loaded(size, s.cons))
    case (WriteLen, Loaded(size, seen)) =>
      if Total(size) <= s.Avail(seen)
      then s.(data := SetWord(s.data, And(s.prod, s.Mask()), HeaderWord(size)), p := LenWritten(size))
      else s.(p := Idle)
    case (WritePad, LenWritten(size)) =>
      s.(data := SetWord(s.data, And(s.prod, s.Mask()) + 4, 0), p := PadWritten(size))
    case (Publish, PadWritten(size)) =>
      s.(prod := (s.prod + Total(size)) % U64, p := Owned(And(s.prod, s.Mask()), size))
    case (BeginCopy(src), Owned(hdr, size)) =>
      if |src| == size then s.(p := Copying(hdr, src, 0)) else s.(p := Idle)
    case (CopyByte, Copying(hdr, src, i)) =>
      if i < |src|
      then s.(data := SetByte(s.data, hdr + HDR + i, src[i]), p := Copying(hdr, src, i + 1))
      else s
    case (Submit, Copying(hdr, src, i)) =>
      if i == |src|
      then s.(data := SetWord(s.data, hdr, ClearBusy(Word(s.data, hdr))), p := Idle,
              submitted := s.submitted + [src])
      else s
    case (DropEntry, Owned(_, _)) => s.(p := Idle)
    case (DropEntry, Copying(_, _, _)) => s.(p := Idle)
    case _ => s
  }

  function ConsumerStep(s: Sys, e: Event): Sys
  {
    match (e, s.c)
    case (LoadProd, Waiting) =>
      s.(c := Seen(s.prod))
    case (Peek, Seen(end)) =>
      var word := Word(s.data, And(s.cons, s.Mask()));
      if s.cons == end || And(word, BUSY) != 0 then s.(c := Waiting)
      else s.(c := Reading(word, []))
    case (ReadByte, Reading(len, got)) =>
      if |got| < len
      then s.(c := Reading(len, got + [Byte(s.data, And(s.cons, s.Mask()) + HDR + |got|)]))
      else s
    case (Release, Reading(len, got)) =>
      if |got| == len
      then s.(cons := (s.cons + RoundUp8(len + HDR)) % U64, c := Waiting,
              delivered := s.delivered + [got])
      else s
    case _ => s
  }

  predicate IsConsumerEvent(e: Event)
  {
    e.LoadProd? || e.Peek? || e.ReadByte? || e.Release?
  }

  /** One step of either side; an event that is not enabled leaves the state alone. */
  function Next(s: Sys, e: Event): Sys
  {
    if IsConsumerEvent(e) then ConsumerStep(s, e) else ProducerStep(s, e)
  }

  function Exec(s: Sys, es: seq<Event>): Sys
    decreases |es|
  {
    if es == [] then s else Next(Exec(s, es[..|es| - 1]), es[|es| - 1])
  }

  /** Any initial contents of the data area, both positions equal. */
  function Init(d: Mem, start: u64): Sys
  {
    Sys(d, start, start, Idle, Waiting, [], [])
  }
}

/**
 Walking and splicing a packed buffer of length-prefixed directory records: the u16
 length of a record sits 16 bytes into it and its NUL-terminated name at 19.
 */
module RecordSplice {
  import opened Wrappers
  import opened Bits

  const LEN_OFF: nat := 16
  const NAME_OFF: nat := 19
  const NAME_CAP: nat := 16
  const MAX_RECORDS: nat := 512
  const U16: nat := 0x1_0000

  function RecLen(b: seq<byte>, off: nat): nat
    requires off + 18 <= |b|
  {
    var lo: nat, hi: nat := b[off + 16], b[off + 17];
    lo + 0x100 * hi
  }

  function SetLen(b: seq<byte>, off: nat, v: nat): (b': seq<byte>)
    requires off + 18 <= |b| && v < U16
    ensures |b'| == |b|
  {
    b[off + 16 := v % 0x100][off + 17 := v / 0x100]
  }

  /** A bounded string read: up to `room` characters before a NUL; None on a fault. */
  function ReadStr(b: seq<byte>, i: nat, room: nat): Option<seq<byte>>
    decreases room
  {
    if |b| <= i then None
    else if b[i] == 0 || room == 0 then Some([])
    else
      match ReadStr(b, i + 1, room - 1)
      case None => None
      case Some(rest) => Some([b[i]] + rest)
  }

  function Zeros(n: nat): seq<byte>
  {
    seq<byte>(n, _ => 0)
  }

  lemma ReadStrShort(b: seq<byte>, i: nat, room: nat)
    ensures var r := ReadStr(b, i, room);
            r.Some? ==> |r.value| <= room && forall k :: 0 <= k < |r.value| ==> r.value[k] != 0
    decreases room
  {
    if i < |b| && b[i] != 0 && room != 0 {
      ReadStrShort(b, i + 1, room - 1);
    }
  }

  /** The 16-byte name buffer the probe compares: zero-filled, at most 15 characters. */
  function NameBuf(b: seq<byte>, off: nat): (name: seq<byte>)
    ensures |name| == NAME_CAP
  {
    ReadStrShort(b, off + NAME_OFF, NAME_CAP - 1);
    match ReadStr(b, off + NAME_OFF, NAME_CAP - 1)
    case None => Zeros(NAME_CAP)
    case Some(s) => s + Zeros(NAME_CAP - |s|)
  }

  /** `eq`: the name equals the target up to and including the target's terminator. */
  predicate SameName(name: seq<byte>, target: seq<byte>)
    requires |name| == NAME_CAP && |target| == NAME_CAP
  {
    name[..FirstNul(target)] == target[..FirstNul(target)]
    && (FirstNul(target) < NAME_CAP ==> name[FirstNul(target)] == 0)
  }

  function FirstNul(t: seq<byte>): (n: nat)
    ensures n <= |t|
    ensures forall k :: 0 <= k < n ==> t[k] != 0
    ensures n < |t| ==> t[n] == 0
  {
    if t == [] || t[0] == 0 then 0 else 1 + FirstNul(t[1..])
  }

  predicate Matches(b: seq<byte>, off: nat, target: seq<byte>)
    requires |target| == NAME_CAP
  {
    SameName(NameBuf(b, off), target)
  }

  /** What the probe leaves: the buffer, the number of merges, and whether a read faulted. */
  datatype Outcome = Outcome(buf: seq<byte>, merges: nat, faulted: bool)

  /** The walk of the probe from offset `pos`, `prev` being the record before it. */
  function Scan(b: seq<byte>, total: nat, pos: nat, prev: Option<nat>, fuel: nat, target: seq<byte>): Outcome
    requires |target| == NAME_CAP
    requires prev.Some? ==> prev.value + 18 <= |b|
    decreases fuel
  {
    if fuel == 0 || total <= pos then Outcome(b, 0, false)
    else if |b| < pos + 18 then Outcome(b, 0, true)
    else
      var len := RecLen(b, pos);
      if len == 0 then Outcome(b, 0, false)
      else if Matches(b, pos, target) && prev.Some? then
        var merged := (RecLen(b, prev.value) + len) % U16;
        var rest := Scan(SetLen(b, prev.value, merged), total, pos + len, Some(pos), fuel - 1, target);
        rest.(merges := rest.merges + 1)
      else Scan(b, total, pos + len, Some(pos), fuel - 1, target)
  }

  /**
   What a reader of the buffer sees: the offsets of the records it steps through, or
   None if the lengths do not lead exactly to the end.
   */
  function Listing(b: seq<byte>, total: nat, pos: nat): Option<seq<nat>>
    decreases total - pos
  {
    if pos == total then Some([])
    else if total < pos || |b| < pos + 18 || RecLen(b, pos) == 0 then None
    else
      match Listing(b, total, pos + RecLen(b, pos))
      case None => None
      case Some(rest) => Some([pos] + rest)
  }

  // ----- well-formed buffers --------------------------------------------------------------

  /** Records at `offs` tile [0, total), each with its name terminated inside it. */
  ghost predicate Records(b: seq<byte>, total: nat, offs: seq<nat>)
  {
    && total <= |b|
    && (forall i :: 0 <= i < |offs| ==> RecordAt(b, offs[i], End(total, offs, i)))
    && (offs == [] ==> total == 0)
    && (offs != [] ==> offs[0] == 0)
    && (forall i :: 0 <= i < |offs| ==> End(total, offs, i) <= total)
    && (forall i, j :: 0 <= i < j < |offs| ==> End(total, offs, i) <= offs[j])
  }

  function End(total: nat, offs: seq<nat>, i: nat): nat
    requires i < |offs|
  {
    if i + 1 < |offs| then offs[i + 1] else total
  }

  ghost predicate RecordAt(b: seq<byte>, off: nat, end: nat)
  {
    && off + NAME_OFF < end <= |b|
    && RecLen(b, off) == end - off
    && exists j :: off + NAME_OFF <= j < end && b[j] == 0
  }

  /** Which records carry the target's name. */
  function Flags(b: seq<byte>, offs: seq<nat>, target: seq<byte>): (m: seq<bool>)
    requires |target| == NAME_CAP
    ensures |m| == |offs|
    ensures forall i :: 0 <= i < |offs| ==> m[i] == Matches(b, offs[i], target)
  {
    seq(|offs|, i requires 0 <= i < |offs| => Matches(b, offs[i], target))
  }

  /** A record is merged into the one before it when it matches, is not first, and is in reach. */
  predicate Merged(m: seq<bool>, i: nat)
  {
    0 < i < |m| && i < MAX_RECORDS && m[i]
  }

  /** A record is hidden iff it is merged into a record that is itself visible. */
  predicate Hidden(m: seq<bool>, i: nat)
  {
    Merged(m, i) && !Hidden(m, i - 1)
  }

  // ----- the splice, byte by byte ----------------------------------------------------------

  ghost predicate LengthByte(offs: seq<nat>, x: nat)
  {
    exists i :: 0 <= i < |offs| && (x == offs[i] + LEN_OFF || x == offs[i] + LEN_OFF + 1)
  }

  /** Length of record i once the first k records have been looked at. */
  function SplicedLen(b: seq<byte>, offs: seq<nat>, m: seq<bool>, k: nat, i: nat): nat
    requires i < |offs| && forall j :: 0 <= j < |offs| ==> offs[j] + 18 <= |b|
  {
    if i + 1 < |offs| && i + 1 < k && Merged(m, i + 1)
    then (RecLen(b, offs[i]) + RecLen(b, offs[i + 1])) % U16
    else RecLen(b, offs[i])
  }

  /** c is b with the merges among the first k records made, and nothing else changed. */
  ghost predicate Spliced(b: seq<byte>, c: seq<byte>, offs: seq<nat>, m: seq<bool>, k: nat)
  {
    && |c| == |b|
    && (forall i :: 0 <= i < |offs| ==> offs[i] + 18 <= |b|)
    && (forall i :: 0 <= i < |offs| ==> RecLen(c, offs[i]) == SplicedLen(b, offs, m, k, i))
    && (forall x :: 0 <= x < |b| && !LengthByte(offs, x) ==> c[x] == b[x])
  }

  function Pos(total: nat, offs: seq<nat>, k: nat): nat
  {
    if k < |offs| then offs[k] else total
  }

  function Prev(offs: seq<nat>, k: nat): Option<nat>
    requires k <= |offs|
  {
    if k == 0 then None else Some(offs[k - 1])
  }

  function CountMerged(m: seq<bool>, k: nat): nat
    decreases |m| - k
  {
    if |m| <= k then 0 else (if Merged(m, k) then 1 else 0) + CountMerged(m, k + 1)
  }

  lemma {:induction false} ReadStrFrame(b: seq<byte>, c: seq<byte>, i: nat, room: nat, stop: nat)
    requires |c| == |b| && i <= stop < |b| && b[stop] == 0
    requires forall x :: i <= x <= stop ==> c[x] == b[x]
    ensures ReadStr(c, i, room) == ReadStr(b, i, room)
    decreases room
  {
    if b[i] == 0 || room == 0 {
    } else {
      ReadStrFrame(b, c, i + 1, room - 1, stop);
    }
  }

  lemma RecordSpan(b: seq<byte>, total: nat, offs: seq<nat>, i: nat)
    requires Records(b, total, offs) && i < |offs|
    ensures offs[i] + NAME_OFF < End(total, offs, i) <= total <= |b|
    ensures RecLen(b, offs[i]) == End(total, offs, i) - offs[i]
  {}

  /** No length field of any record lies between a record's name and its end. */
  lemma NamesAreNotLengths(b: seq<byte>, total: nat, offs: seq<nat>, i: nat, x: nat)
    requires Records(b, total, offs) && i < |offs|
    requires offs[i] + NAME_OFF <= x < End(total, offs, i)
    ensures !LengthByte(offs, x)
  {
    forall j | 0 <= j < |offs|
      ensures x != offs[j] + LEN_OFF && x != offs[j] + LEN_OFF + 1
    {
      RecordSpan(b, total, offs, j);
      if j < i {
        assert End(total, offs, j) <= offs[i];
      } else if i < j {
        assert End(total, offs, i) <= offs[j];
      }
    }
  }

  lemma NameEnd(b: seq<byte>, total: nat, offs: seq<nat>, i: nat) returns (stop: nat)
    requires Records(b, total, offs) && i < |offs|
    ensures offs[i] + NAME_OFF <= stop < End(total, offs, i) <= |b| && b[stop] == 0
  {
    assert RecordAt(b, offs[i], End(total, offs, i));
    stop :| offs[i] + NAME_OFF <= stop < End(total, offs, i) && b[stop] == 0;
  }

  lemma NameFrame(b: seq<byte>, c: seq<byte>, total: nat, offs: seq<nat>, m: seq<bool>, k: nat, i: nat)
    requires Records(b, total, offs) && Spliced(b, c, offs, m, k) && i < |offs|
    ensures NameBuf(c, offs[i]) == NameBuf(b, offs[i])
  {
    hide Records, RecordAt, SplicedLen, LengthByte, RecLen, ReadStr;
    RecordSpan(b, total, offs, i);
    var stop := NameEnd(b, total, offs, i);
    forall x | offs[i] + NAME_OFF <= x <= stop
      ensures c[x] == b[x]
    {
      NamesAreNotLengths(b, total, offs, i, x);
    }
    ReadStrFrame(b, c, offs[i] + NAME_OFF, NAME_CAP - 1, stop);
  }

  lemma SetLenGet(b: seq<byte>, off: nat, v: nat)
    requires off + 18 <= |b| && v < U16
    ensures RecLen(SetLen(b, off, v), off) == v
    ensures forall x :: 0 <= x < |b| && x != off + LEN_OFF && x != off + LEN_OFF + 1 ==> SetLen(b, off, v)[x] == b[x]
  {}

  /** Merging record k into record k - 1 extends the spliced prefix by one. */
  lemma MergeStep(b: seq<byte>, c: seq<byte>, total: nat, offs: seq<nat>, m: seq<bool>, k: nat)
    requires Records(b, total, offs) && Spliced(b, c, offs, m, k) && |m| == |offs|
    requires 0 < k < |offs| && Merged(m, k)
    ensures RecLen(c, offs[k - 1]) == RecLen(b, offs[k - 1]) && RecLen(c, offs[k]) == RecLen(b, offs[k])
    ensures var v := (RecLen(c, offs[k - 1]) + RecLen(c, offs[k])) % U16;
            Spliced(b, SetLen(c, offs[k - 1], v), offs, m, k + 1)
  {
    hide Records, RecLen, LengthByte, Merged, SetLen;
    var v := (RecLen(c, offs[k - 1]) + RecLen(c, offs[k])) % U16;
    var d := SetLen(c, offs[k - 1], v);
    SetLenGet(c, offs[k - 1], v);
    forall i | 0 <= i < |offs|
      ensures RecLen(d, offs[i]) == SplicedLen(b, offs, m, k + 1, i)
    {
      if i != k - 1 {
        LengthsApart(b, total, offs, i, k - 1);
        SameLen(c, d, offs[i]);
      }
    }
    forall x | 0 <= x < |b| && !LengthByte(offs, x)
      ensures d[x] == b[x]
    {
      NotLength(offs, x, k - 1);
    }
  }

  lemma NotLength(offs: seq<nat>, x: nat, i: nat)
    requires !LengthByte(offs, x) && i < |offs|
    ensures x != offs[i] + LEN_OFF && x != offs[i] + LEN_OFF + 1
  {}

  lemma LengthsApart(b: seq<byte>, total: nat, offs: seq<nat>, i: nat, j: nat)
    requires Records(b, total, offs) && i < |offs| && j < |offs| && i != j
    ensures offs[i] + 18 <= offs[j] || offs[j] + 18 <= offs[i]
  {
    RecordSpan(b, total, offs, i);
    RecordSpan(b, total, offs, j);
  }

  lemma SameLen(c: seq<byte>, d: seq<byte>, off: nat)
    requires |d| == |c| && off + 18 <= |c|
    requires d[off + 16] == c[off + 16] && d[off + 17] == c[off + 17]
    ensures RecLen(d, off) == RecLen(c, off)
  {}

  /** A record that is not merged leaves the picture as it is. */
  lemma PassStep(b: seq<byte>, c: seq<byte>, offs: seq<nat>, m: seq<bool>, k: nat)
    requires Spliced(b, c, offs, m, k) && k < |offs| && !Merged(m, k)
    ensures Spliced(b, c, offs, m, k + 1)
    ensures RecLen(c, offs[k]) == RecLen(b, offs[k])
  {
    hide RecLen, LengthByte, Merged;
    forall i | 0 <= i < |offs|
      ensures RecLen(c, offs[i]) == SplicedLen(b, offs, m, k + 1, i)
    {
    }
  }

  lemma {:induction false} ScanSplices(b: seq<byte>, c: seq<byte>, total: nat, offs: seq<nat>,
                                         target: seq<byte>, k: nat)
    requires |target| == NAME_CAP && Records(b, total, offs) && k <= |offs| && k <= MAX_RECORDS
    requires Spliced(b, c, offs, Flags(b, offs, target), k)
    ensures k > 0 ==> offs[k - 1] + 18 <= |c|
    ensures var m := Flags(b, offs, target);
            var out := Scan(c, total, Pos(total, offs, k), Prev(offs, k), MAX_RECORDS - k, target);
            && !out.faulted && out.merges == CountMerged(m, k)
            && Spliced(b, out.buf, offs, m, |offs|)
    decreases |offs| - k
  {
    hide Records, Spliced, RecLen, NameBuf, SameName;
    var m := Flags(b, offs, target);
    SplicedLength(b, c, offs, m, k);
    if k == |offs| {
    } else if k == MAX_RECORDS {
      BeyondReach(b, c, offs, m);
      NoMergeBeyond(m, k);
    } else {
      RecordSpan(b, total, offs, k);
      NameFrame(b, c, total, offs, m, k, k);
      if Merged(m, k) {
        MergeStep(b, c, total, offs, m, k);
        var v := (RecLen(c, offs[k - 1]) + RecLen(c, offs[k])) % U16;
        ScanSplices(b, SetLen(c, offs[k - 1], v), total, offs, target, k + 1);
      } else {
        PassStep(b, c, offs, m, k);
        ScanSplices(b, c, total, offs, target, k + 1);
      }
    }
  }

  lemma SplicedLength(b: seq<byte>, c: seq<byte>, offs: seq<nat>, m: seq<bool>, k: nat)
    requires Spliced(b, c, offs, m, k)
    ensures |c| == |b| && forall i :: 0 <= i < |offs| ==> offs[i] + 18 <= |c|
  {}

  lemma BeyondReach(b: seq<byte>, c: seq<byte>, offs: seq<nat>, m: seq<bool>)
    requires Spliced(b, c, offs, m, MAX_RECORDS) && MAX_RECORDS <= |offs|
    ensures Spliced(b, c, offs, m, |offs|)
  {
    hide RecLen, LengthByte;
  }

  lemma {:induction false} NoMergeBeyond(m: seq<bool>, k: nat)
    requires MAX_RECORDS <= k
    ensures CountMerged(m, k) == 0
    decreases |m| - k
  {
    if |m| <= k {
    } else {
      NoMergeBeyond(m, k + 1);
    }
  }

  // ----- what a reader then sees ---------------------------------------------------------

  /** Every hidden record's length, added to the one before it, still fits the u16 field. */
  ghost predicate Fits(b: seq<byte>, offs: seq<nat>, m: seq<bool>, i: nat)
  {
    (forall j :: 0 <= j < |offs| ==> offs[j] + 18 <= |b|) &&
    forall j :: i < j < |offs| && Hidden(m, j) ==> RecLen(b, offs[j - 1]) + RecLen(b, offs[j]) < U16
  }

  /** Offsets of the records still visible from record i on. */
  function Shown(offs: seq<nat>, m: seq<bool>, i: nat): seq<nat>
    requires |m| == |offs|
    decreases |m| - i
  {
    if |m| <= i then [] else (if Hidden(m, i) then [] else [offs[i]]) + Shown(offs, m, i + 1)
  }

  /** A visible record leads the reader to the next visible one, if the merge fits. */
  lemma VisibleLen(b: seq<byte>, c: seq<byte>, total: nat, offs: seq<nat>, m: seq<bool>, i: nat)
    requires Records(b, total, offs) && Spliced(b, c, offs, m, |offs|) && |m| == |offs|
    requires i < |offs| && !Hidden(m, i)
    ensures offs[i] < total && offs[i] + 18 <= |c|
    ensures i < NextShown(m, i) <= |offs| && offs[i] < Pos(total, offs, NextShown(m, i))
    ensures var d := Pos(total, offs, NextShown(m, i)) - offs[i];
            if d < U16 then RecLen(c, offs[i]) == d else RecLen(c, offs[i]) < d
    ensures NextShown(m, i) == i + 2 ==>
              i + 1 < |offs| && Hidden(m, i + 1) &&
              Pos(total, offs, i + 2) - offs[i] == RecLen(b, offs[i]) + RecLen(b, offs[i + 1])
    ensures NextShown(m, i) == i + 1 ==> Pos(total, offs, i + 1) - offs[i] < U16
  {
    hide Records, RecLen, LengthByte;
    RecordSpan(b, total, offs, i);
    RecLenBound(b, offs[i]);
    if i + 1 < |offs| {
      RecordSpan(b, total, offs, i + 1);
    }
  }

  /** The record a reader reaches from visible record i. */
  function NextShown(m: seq<bool>, i: nat): nat
  {
    if i + 1 < |m| && Hidden(m, i + 1) then i + 2 else i + 1
  }

  lemma NextVisible(offs: seq<nat>, m: seq<bool>, i: nat)
    requires |m| == |offs| && i < |m| && !Hidden(m, i)
    ensures NextShown(m, i) <= |m| && !Hidden(m, NextShown(m, i))
    ensures Shown(offs, m, i) == [offs[i]] + Shown(offs, m, NextShown(m, i))
  {}

  lemma RecLenBound(b: seq<byte>, off: nat)
    requires off + 18 <= |b|
    ensures RecLen(b, off) < U16
  {}

  lemma ListingStep(c: seq<byte>, total: nat, pos: nat)
    requires pos < total && pos + 18 <= |c| && 0 < RecLen(c, pos)
    ensures var rest := Listing(c, total, pos + RecLen(c, pos));
            Listing(c, total, pos) == if rest.None? then None else Some([pos] + rest.value)
  {}

  lemma LengthsInside(b: seq<byte>, total: nat, offs: seq<nat>)
    requires Records(b, total, offs)
    ensures forall j :: 0 <= j < |offs| ==> offs[j] + 18 <= |b|
  {
    forall j | 0 <= j < |offs|
      ensures offs[j] + 18 <= |b|
    {
      RecordSpan(b, total, offs, j);
    }
  }

  lemma FitsStep(b: seq<byte>, offs: seq<nat>, m: seq<bool>, i: nat)
    requires forall j :: 0 <= j < |offs| ==> offs[j] + 18 <= |b|
    requires |m| == |offs| && i < |offs| && !Hidden(m, i)
    ensures Fits(b, offs, m, i) <==>
            && (NextShown(m, i) == i + 2 ==> RecLen(b, offs[i]) + RecLen(b, offs[i + 1]) < U16)
            && Fits(b, offs, m, NextShown(m, i))
  {
    NextVisible(offs, m, i);
    hide Hidden, RecLen;
  }

  lemma {:induction false} ListingShowsVisible(b: seq<byte>, c: seq<byte>, total: nat, offs: seq<nat>,
                                                 m: seq<bool>, i: nat)
    requires Records(b, total, offs) && Spliced(b, c, offs, m, |offs|) && |m| == |offs|
    requires i <= |offs| && !Hidden(m, i) && Fits(b, offs, m, i)
    ensures Listing(c, total, Pos(total, offs, i)) == Some(Shown(offs, m, i))
    decreases |offs| - i
  {
    ListingHead(c, total, Pos(total, offs, i));
    ShownHead(total, offs, m, i);
    EmptyListing(c, total);
    hide Records, Spliced, RecLen, Hidden, NextShown, Shown, Listing, Fits;
    LengthsInside(b, total, offs);
    if |offs| <= i {
    } else {
      var next := NextShown(m, i);
      VisibleLen(b, c, total, offs, m, i);
      NextVisible(offs, m, i);
      FitsStep(b, offs, m, i);
      RecLenBound(c, offs[i]);
      ListingShowsVisible(b, c, total, offs, m, next);
      ListingCons(c, total, offs[i], Pos(total, offs, next), Shown(offs, m, next), Shown(offs, m, i));
    }
  }

  lemma ListingCons(c: seq<byte>, total: nat, pos: nat, next: nat, tail: seq<nat>, all: seq<nat>)
    requires pos < total && pos + 18 <= |c| && pos < next == pos + RecLen(c, pos)
    requires Listing(c, total, next) == Some(tail) && all == [pos] + tail
    ensures Listing(c, total, pos) == Some(all)
  {}

  lemma EmptyListing(c: seq<byte>, total: nat)
    ensures Listing(c, total, total) == Some([])
  {}

  lemma ListingHead(c: seq<byte>, total: nat, pos: nat)
    ensures var l := Listing(c, total, pos);
            l.Some? ==> (pos == total && l.value == []) || (l.value != [] && l.value[0] == pos)
  {}

  lemma ShownHead(total: nat, offs: seq<nat>, m: seq<bool>, i: nat)
    requires |m| == |offs| && i <= |m| && !Hidden(m, i)
    ensures if i == |m| then Shown(offs, m, i) == [] else Shown(offs, m, i) != [] && Shown(offs, m, i)[0] == offs[i]
  {}

  /** A merged length that wraps sends the reader somewhere no visible record starts. */
  lemma {:induction false} WrappedMergeBreaksListing(b: seq<byte>, c: seq<byte>, total: nat, offs: seq<nat>,
                                                       m: seq<bool>, i: nat)
    requires Records(b, total, offs) && Spliced(b, c, offs, m, |offs|) && |m| == |offs|
    requires i <= |offs| && !Hidden(m, i) && !Fits(b, offs, m, i)
    ensures Listing(c, total, Pos(total, offs, i)) != Some(Shown(offs, m, i))
    decreases |offs| - i
  {
    hide Records, Spliced, RecLen, Hidden, NextShown, Shown, Listing, Fits;
    LengthsInside(b, total, offs);
    MoreToFit(b, offs, m, i);
    VisibleLen(b, c, total, offs, m, i);
    NextVisible(offs, m, i);
    FitsStep(b, offs, m, i);
    var next, len := NextShown(m, i), RecLen(c, offs[i]);
    if len == Pos(total, offs, next) - offs[i] {
      RecLenBound(c, offs[i]);
      ListingStep(c, total, offs[i]);
      WrappedMergeBreaksListing(b, c, total, offs, m, next);
      SameTail(offs[i], Listing(c, total, offs[i] + len), Shown(offs, m, next));
    } else {
      PosBound(b, total, offs, next);
      WrongTurn(b, c, total, offs, m, i);
    }
  }

  lemma PosBound(b: seq<byte>, total: nat, offs: seq<nat>, k: nat)
    requires Records(b, total, offs) && k <= |offs|
    ensures Pos(total, offs, k) <= total
  {
    if k < |offs| {
      RecordSpan(b, total, offs, k);
    }
  }

  lemma MoreToFit(b: seq<byte>, offs: seq<nat>, m: seq<bool>, i: nat)
    requires forall j :: 0 <= j < |offs| ==> offs[j] + 18 <= |b|
    ensures !Fits(b, offs, m, i) ==> i < |offs|
  {
    hide Hidden, RecLen;
  }

  lemma SameTail(x: nat, l: Option<seq<nat>>, s: seq<nat>)
    requires l != Some(s)
    ensures l.Some? ==> [x] + l.value != [x] + s
  {
    assert l.Some? ==> l.value == ([x] + l.value)[1..];
    assert s == ([x] + s)[1..];
  }

  lemma WrongTurn(b: seq<byte>, c: seq<byte>, total: nat, offs: seq<nat>, m: seq<bool>, i: nat)
    requires |m| == |offs| && i < |offs| && offs[i] < total && offs[i] + 18 <= |c|
    requires var next := NextShown(m, i);
             && next <= |offs| && !Hidden(m, next)
             && offs[i] + RecLen(c, offs[i]) < Pos(total, offs, next) <= total
             && Shown(offs, m, i) == [offs[i]] + Shown(offs, m, next)
    ensures Listing(c, total, offs[i]) != Some(Shown(offs, m, i))
  {
    hide Hidden, NextShown, RecLen;
    var next, len := NextShown(m, i), RecLen(c, offs[i]);
    ShownHead(total, offs, m, next);
    hide Shown;
    if 0 < len {
      ListingStep(c, total, offs[i]);
      ListingHead(c, total, offs[i] + len);
      hide Listing;
      SameTail(offs[i], Listing(c, total, offs[i] + len), Shown(offs, m, next));
    }
  }

  // ----- the results ---------------------------------------------------------------------

  function Probe(b: seq<byte>, total: nat, target: seq<byte>): Outcome
    requires |target| == NAME_CAP
  {
    Scan(b, total, 0, None, MAX_RECORDS, target)
  }

  /**
   After the probe ran over a well-formed buffer: a reader steps through exactly the
   records that are not hidden, and through all of the buffer, if and only if every
   merged length fits its field. Only length fields change, each name reads as before,
   and the count is the number of merges.
   */
  lemma ProbeHidesExactly(b: seq<byte>, total: nat, offs: seq<nat>, target: seq<byte>)
    requires |target| == NAME_CAP && Records(b, total, offs)
    ensures var m, out := Flags(b, offs, target), Probe(b, total, target);
            && !out.faulted && out.merges == CountMerged(m, 0)
            && (Listing(out.buf, total, 0) == Some(Shown(offs, m, 0)) <==> Fits(b, offs, m, 0))
            && |out.buf| == |b|
            && (forall x :: 0 <= x < |b| && !LengthByte(offs, x) ==> out.buf[x] == b[x])
            && (forall i :: 0 <= i < |offs| ==> NameBuf(out.buf, offs[i]) == NameBuf(b, offs[i]))
  {
    hide Scan, Listing, Hidden, NameBuf, RecLen, LengthByte, Shown, CountMerged, Fits;
    var m, out := Flags(b, offs, target), Probe(b, total, target);
    NothingSpliced(b, total, offs, m);
    ScanSplices(b, b, total, offs, target, 0);
    forall i | 0 <= i < |offs|
      ensures NameBuf(out.buf, offs[i]) == NameBuf(b, offs[i])
    {
      NameFrame(b, out.buf, total, offs, m, |offs|, i);
    }
    FirstIsVisible(m);
    if Fits(b, offs, m, 0) {
      ListingShowsVisible(b, out.buf, total, offs, m, 0);
    } else {
      WrappedMergeBreaksListing(b, out.buf, total, offs, m, 0);
    }
  }

  lemma NothingSpliced(b: seq<byte>, total: nat, offs: seq<nat>, m: seq<bool>)
    requires Records(b, total, offs)
    ensures Spliced(b, b, offs, m, 0)
    ensures Pos(total, offs, 0) == 0
  {
    LengthsInside(b, total, offs);
    hide RecLen, LengthByte;
  }

  lemma FirstIsVisible(m: seq<bool>)
    ensures !Hidden(m, 0)
  {}

  /** The records a reader steps through always cover the buffer without a gap. */
  lemma {:induction false} ListingCovers(c: seq<byte>, total: nat, pos: nat)
    requires Listing(c, total, pos).Some?
    ensures var l := Listing(c, total, pos).value;
            && (forall k :: 0 <= k < |l| ==> l[k] + 18 <= |c|)
            && pos + SumLen(c, l) == total
    decreases total - pos
  {
    hide RecLen;
    if pos == total {
    } else {
      ListingCovers(c, total, pos + RecLen(c, pos));
      SumLenHead(c, pos, Listing(c, total, pos + RecLen(c, pos)).value);
    }
  }

  function SumLen(c: seq<byte>, l: seq<nat>): nat
    requires forall k :: 0 <= k < |l| ==> l[k] + 18 <= |c|
  {
    if l == [] then 0 else RecLen(c, l[0]) + SumLen(c, l[1..])
  }

  lemma SumLenHead(c: seq<byte>, pos: nat, rest: seq<nat>)
    requires pos + 18 <= |c| && forall k :: 0 <= k < |rest| ==> rest[k] + 18 <= |c|
    ensures forall k :: 0 <= k < |[pos] + rest| ==> ([pos] + rest)[k] + 18 <= |c|
    ensures SumLen(c, [pos] + rest) == RecLen(c, pos) + SumLen(c, rest)
  {
    hide RecLen;
    assert ([pos] + rest)[1..] == rest;
  }

  /** The target is not the first record, not beyond the reach of the walk, and never occurs twice in a row. */
  ghost predicate Hideable(m: seq<bool>)
  {
    && (|m| > 0 ==> !m[0])
    && (forall i :: MAX_RECORDS <= i < |m| ==> !m[i])
    && (forall i :: 0 < i < |m| ==> !(m[i - 1] && m[i]))
  }

  /** In a spliced buffer the target disappears from the listing altogether exactly when it is hideable. */
  lemma TargetGone(m: seq<bool>)
    ensures (forall i :: 0 <= i < |m| && m[i] ==> Hidden(m, i)) <==> Hideable(m)
  {
    if forall i :: 0 <= i < |m| && m[i] ==> Hidden(m, i) {
      forall i | 0 < i < |m|
        ensures !(m[i - 1] && m[i])
      {
        assert m[i] ==> Hidden(m, i);
        assert m[i - 1] ==> Hidden(m, i - 1);
      }
    }
  }

  /**
   Up to 512 records, a reader of the spliced buffer steps through the first record and every
   record that does not match, in order, and there is one merge for each of the others.
   */
  lemma MatchesAreFilteredOut(b: seq<byte>, total: nat, offs: seq<nat>, target: seq<byte>)
    requires |target| == NAME_CAP && Records(b, total, offs) && |offs| <= 512
    requires forall i :: 1 < i < |offs| ==> !(Matches(b, offs[i - 1], target) && Matches(b, offs[i], target))
    requires forall i :: 0 < i < |offs| && Matches(b, offs[i], target) ==>
               && offs[i - 1] + 18 <= |b| && offs[i] + 18 <= |b|
               && RecLen(b, offs[i - 1]) + RecLen(b, offs[i]) < 0x1_0000
    ensures var out := Probe(b, total, target);
            var listing := Listing(out.buf, total, 0);
            && listing.Some?
            && (forall j, k :: 0 <= j < k < |listing.value| ==> listing.value[j] < listing.value[k])
            && (forall i :: 0 <= i < |offs| ==>
                  (offs[i] in listing.value <==> i == 0 || !Matches(b, offs[i], target)))
            && (forall x :: x in listing.value ==> x in offs)
            && out.merges == |set i | 0 < i < |offs| && Matches(b, offs[i], target)|
  {
    var m := Flags(b, offs, target);
    hide Probe, Listing, Records, Matches, RecLen, Flags, MergedFrom;
    FlaggedAreFilteredOut(b, total, offs, target, m);
    FlaggedMerges(b, offs, target, m);
  }

  lemma FlaggedMerges(b: seq<byte>, offs: seq<nat>, target: seq<byte>, m: seq<bool>)
    requires |target| == NAME_CAP && m == Flags(b, offs, target) && |offs| <= 512
    ensures MergedFrom(m, 0) == set i | 0 < i < |offs| && Matches(b, offs[i], target)
  {
    hide Matches;
  }

  lemma FlaggedAreFilteredOut(b: seq<byte>, total: nat, offs: seq<nat>, target: seq<byte>, m: seq<bool>)
    requires |target| == NAME_CAP && Records(b, total, offs) && |m| == |offs| <= 512 && m == Flags(b, offs, target)
    requires forall i :: 1 < i < |offs| ==> !(m[i - 1] && m[i])
    requires forall i :: 0 < i < |offs| && m[i] ==>
               && offs[i - 1] + 18 <= |b| && offs[i] + 18 <= |b|
               && RecLen(b, offs[i - 1]) + RecLen(b, offs[i]) < 0x1_0000
    ensures var out := Probe(b, total, target);
            var listing := Listing(out.buf, total, 0);
            && listing.Some?
            && (forall j, k :: 0 <= j < k < |listing.value| ==> listing.value[j] < listing.value[k])
            && (forall i :: 0 <= i < |offs| ==> (offs[i] in listing.value <==> i == 0 || !m[i]))
            && (forall x :: x in listing.value ==> x in offs)
            && out.merges == |MergedFrom(m, 0)|
  {
    hide Probe, Listing, Records, Fits, RecLen, Shown, CountMerged, MergedFrom, Flags;
    SparseFits(b, total, offs, m);
    ListingIsShown(b, total, offs, target);
    OffsetsGrow(b, total, offs);
    FilteredShown(offs, m);
    MergesCounted(m, 0);
  }

  lemma ListingIsShown(b: seq<byte>, total: nat, offs: seq<nat>, target: seq<byte>)
    requires |target| == NAME_CAP && Records(b, total, offs) && Fits(b, offs, Flags(b, offs, target), 0)
    ensures Listing(Probe(b, total, target).buf, total, 0) == Some(Shown(offs, Flags(b, offs, target), 0))
    ensures Probe(b, total, target).merges == CountMerged(Flags(b, offs, target), 0)
  {
    hide Probe, Listing, Records, Fits, Hidden, NameBuf, RecLen, Shown, CountMerged, Flags;
    ProbeHidesExactly(b, total, offs, target);
  }

  lemma SparseFits(b: seq<byte>, total: nat, offs: seq<nat>, m: seq<bool>)
    requires Records(b, total, offs) && |m| == |offs|
    requires forall i :: 0 < i < |offs| && m[i] ==>
               && offs[i - 1] + 18 <= |b| && offs[i] + 18 <= |b|
               && RecLen(b, offs[i - 1]) + RecLen(b, offs[i]) < 0x1_0000
    ensures Fits(b, offs, m, 0)
  {
    LengthsInside(b, total, offs);
    hide RecLen, Records;
  }

  lemma FilteredShown(offs: seq<nat>, m: seq<bool>)
    requires |m| == |offs| <= 512 && forall i, j :: 0 <= i < j < |offs| ==> offs[i] < offs[j]
    requires forall j :: 1 < j < |m| ==> !(m[j - 1] && m[j])
    ensures var l := Shown(offs, m, 0);
            && (forall j, k :: 0 <= j < k < |l| ==> l[j] < l[k])
            && (forall i :: 0 <= i < |offs| ==> (offs[i] in l <==> i == 0 || !m[i]))
            && (forall x :: x in l ==> x in offs)
  {
    hide Shown, Hidden;
    ShownAscends(offs, m, 0);
    forall i | 0 <= i < |offs|
      ensures offs[i] in Shown(offs, m, 0) <==> i == 0 || !m[i]
    {
      SparseShown(offs, m, i);
    }
    forall x | x in Shown(offs, m, 0)
      ensures x in offs
    {
      var j := ShownIsUnhidden(offs, m, 0, x);
    }
  }

  lemma OffsetsGrow(b: seq<byte>, total: nat, offs: seq<nat>)
    requires Records(b, total, offs)
    ensures forall i, j :: 0 <= i < j < |offs| ==> offs[i] < offs[j]
  {}

  lemma {:induction false} ShownAscends(offs: seq<nat>, m: seq<bool>, i: nat)
    requires |m| == |offs| && forall i, j :: 0 <= i < j < |offs| ==> offs[i] < offs[j]
    ensures forall j, k :: 0 <= j < k < |Shown(offs, m, i)| ==> Shown(offs, m, i)[j] < Shown(offs, m, i)[k]
    ensures i < |offs| ==> forall k :: 0 <= k < |Shown(offs, m, i)| ==> offs[i] <= Shown(offs, m, i)[k]
    decreases |m| - i
  {
    hide Hidden;
    if |m| <= i {
    } else {
      ShownAscends(offs, m, i + 1);
      if i + 1 < |offs| {
        assert offs[i] < offs[i + 1];
      }
    }
  }

  lemma SparseShown(offs: seq<nat>, m: seq<bool>, i: nat)
    requires |m| == |offs| <= 512 && i < |m| && forall i, j :: 0 <= i < j < |offs| ==> offs[i] < offs[j]
    requires forall j :: 1 < j < |m| ==> !(m[j - 1] && m[j])
    ensures offs[i] in Shown(offs, m, 0) <==> i == 0 || !m[i]
  {
    HidingIsFiltering(m, i);
    hide Hidden;
    if offs[i] in Shown(offs, m, 0) {
      var j := ShownIsUnhidden(offs, m, 0, offs[i]);
      assert j == i;
    }
    if !Hidden(m, i) {
      ShownElements(offs, m, 0, i);
    }
  }

  function MergedFrom(m: seq<bool>, k: nat): set<int>
  {
    set i | k <= i < |m| && 0 < i < 512 && m[i]
  }

  lemma {:induction false} MergesCounted(m: seq<bool>, k: nat)
    ensures CountMerged(m, k) == |MergedFrom(m, k)|
    decreases |m| - k
  {
    if |m| <= k {
      assert MergedFrom(m, k) == {};
    } else {
      MergesCounted(m, k + 1);
      if Merged(m, k) {
        assert MergedFrom(m, k) == MergedFrom(m, k + 1) + {k};
      } else {
        assert MergedFrom(m, k) == MergedFrom(m, k + 1);
      }
    }
  }

  /** A record at index 512 or beyond is always listed. */
  lemma BeyondReachIsListed(b: seq<byte>, total: nat, offs: seq<nat>, target: seq<byte>, i: nat)
    requires |target| == NAME_CAP && Records(b, total, offs) && Fits(b, offs, Flags(b, offs, target), 0)
    requires 512 <= i < |offs|
    ensures var listing := Listing(Probe(b, total, target).buf, total, 0);
            listing.Some? && offs[i] in listing.value
  {
    var m := Flags(b, offs, target);
    ProbeHidesExactly(b, total, offs, target);
    hide Probe, Listing, Records, Fits, Flags;
    ShownElements(offs, m, 0, i);
  }

  /** A reader that steps through the buffer meets no record with the target's name. */
  ghost predicate Unseen(c: seq<byte>, total: nat, target: seq<byte>)
    requires |target| == NAME_CAP
  {
    var l := Listing(c, total, 0);
    l.Some? && forall x :: x in l.value ==> !Matches(c, x, target)
  }

  lemma {:induction false} ShownElements(offs: seq<nat>, m: seq<bool>, i: nat, j: nat)
    requires |m| == |offs| && i <= j < |m| && !Hidden(m, j)
    ensures offs[j] in Shown(offs, m, i)
    decreases |m| - i
  {
    hide Hidden;
    if i == j {
    } else {
      ShownElements(offs, m, i + 1, j);
    }
  }

  lemma {:induction false} ShownIsUnhidden(offs: seq<nat>, m: seq<bool>, i: nat, x: nat) returns (j: nat)
    requires |m| == |offs| && x in Shown(offs, m, i)
    ensures i <= j < |m| && !Hidden(m, j) && offs[j] == x
    decreases |m| - i
  {
    hide Hidden;
    if !Hidden(m, i) && x == offs[i] {
      j := i;
    } else {
      j := ShownIsUnhidden(offs, m, i + 1, x);
    }
  }

  /** The listing of the shown records lacks the target iff every record with its name is hidden. */
  lemma UnseenIffHidden(b: seq<byte>, c: seq<byte>, total: nat, offs: seq<nat>, target: seq<byte>, m: seq<bool>)
    requires |target| == NAME_CAP && |m| == |offs|
    requires Listing(c, total, 0) == Some(Shown(offs, m, 0))
    requires forall i :: 0 <= i < |offs| ==> NameBuf(c, offs[i]) == NameBuf(b, offs[i])
    ensures Unseen(c, total, target) <==>
            forall i :: 0 <= i < |m| && Flags(b, offs, target)[i] ==> Hidden(m, i)
  {
    var flags := Flags(b, offs, target);
    hide Hidden, Listing, Shown, NameBuf, SameName;
    assert forall i :: 0 <= i < |offs| ==> Matches(c, offs[i], target) == flags[i];
    if forall i :: 0 <= i < |m| && flags[i] ==> Hidden(m, i) {
      forall x | x in Shown(offs, m, 0)
        ensures !Matches(c, x, target)
      {
        var j := ShownIsUnhidden(offs, m, 0, x);
      }
    }
    if Unseen(c, total, target) {
      forall i | 0 <= i < |m| && flags[i]
        ensures Hidden(m, i)
      {
        if !Hidden(m, i) {
          ShownElements(offs, m, 0, i);
        }
      }
    }
  }

  /** Left as it was, a well-formed buffer lists all its records. */
  lemma UnsplicedListing(b: seq<byte>, total: nat, offs: seq<nat>, m: seq<bool>)
    requires Records(b, total, offs) && |m| == |offs| && forall i :: 0 <= i < |m| ==> !m[i]
    ensures Listing(b, total, 0) == Some(Shown(offs, m, 0))
    ensures forall i :: 0 <= i < |m| ==> !Hidden(m, i)
  {
    NothingSpliced(b, total, offs, m);
    NothingToSplice(b, offs, m);
    FirstIsVisible(m);
    LengthsInside(b, total, offs);
    hide Listing, Shown, RecLen;
    ListingShowsVisible(b, b, total, offs, m, 0);
  }

  lemma NothingToSplice(b: seq<byte>, offs: seq<nat>, m: seq<bool>)
    requires Spliced(b, b, offs, m, 0) && forall i :: 0 <= i < |m| ==> !m[i]
    ensures Spliced(b, b, offs, m, |offs|)
  {
    hide RecLen;
  }

  /** What a call that returned `total` bytes hands its caller, its thread holding a stash or not. */
  function Delivered(b: seq<byte>, total: nat, target: seq<byte>, stashed: bool): seq<byte>
    requires |target| == NAME_CAP
  {
    if stashed then Probe(b, total, target).buf else b
  }

  /** The caller misses the target iff there is none, or its call is spliced and the target hideable. */
  lemma UnseenIff(b: seq<byte>, total: nat, offs: seq<nat>, target: seq<byte>, stashed: bool)
    requires |target| == NAME_CAP && Records(b, total, offs) && Fits(b, offs, Flags(b, offs, target), 0)
    ensures var m := Flags(b, offs, target);
            Unseen(Delivered(b, total, target, stashed), total, target) <==>
            (forall i :: 0 <= i < |m| ==> !m[i]) || (stashed && Hideable(m))
  {
    var m := Flags(b, offs, target);
    if stashed {
      ProbeHidesExactly(b, total, offs, target);
      hide Listing, Shown, Probe, NameBuf, Flags;
      UnseenIffHidden(b, Probe(b, total, target).buf, total, offs, target, m);
      TargetGone(m);
      hide Hidden, Unseen;
    } else {
      var none := seq(|offs|, _ => false);
      UnsplicedListing(b, total, offs, none);
      hide Listing, Shown, Probe, NameBuf, Flags;
      UnseenIffHidden(b, b, total, offs, target, none);
      hide Hidden, Unseen;
    }
  }

  /** Without two matches in a row, hiding is plain filtering of the matches in reach. */
  lemma HidingIsFiltering(m: seq<bool>, i: nat)
    requires forall j :: 1 < j < |m| ==> !(m[j - 1] && m[j])
    requires |m| <= MAX_RECORDS && i < |m|
    ensures Hidden(m, i) <==> 0 < i && m[i]
  {}

  // ----- the layout of a record ----------------------------------------------------------------

  /** A directory entry as the kernel lays it out: 16 bytes, length, type, name, NUL, padding. */
  function Dirent(head: seq<byte>, len: nat, kind: byte, name: seq<byte>, pad: seq<byte>): seq<byte>
    requires len < 0x1_0000
  {
    head + [len % 0x100, len / 0x100, kind] + name + [0] + pad
  }

  /** Length and name are read where they are, and storing a length changes nothing else. */
  lemma DirentFields(before: seq<byte>, head: seq<byte>, len: nat, kind: byte, name: seq<byte>, pad: seq<byte>,
                     after: seq<byte>, v: nat)
    requires |head| == 16 && len < 0x1_0000 && v < 0x1_0000 && forall k :: 0 <= k < |name| ==> name[k] != 0
    ensures var b, off := before + Dirent(head, len, kind, name, pad) + after, |before|;
            && off + 18 <= |b|
            && RecLen(b, off) == len
            && Name(b, off + 19) == name
            && NameBuf(b, off) == Padded(name)
            && SetLen(b, off, v) == before + Dirent(head, v, kind, name, pad) + after
  {
    var b, off := before + Dirent(head, len, kind, name, pad) + after, |before|;
    hide RecLen, SetLen, NameBuf, Padded, Name;
    DirentBytes(before, head, len, kind, name, pad, after);
    RecLenAt(b, off, len);
    NameAt(b, off + 19, name);
    NameBufShort(b, off, off + 19 + |name|);
    SetLenAt(before, head, len, kind, name, pad, after, v);
  }

  lemma DirentBytes(before: seq<byte>, head: seq<byte>, len: nat, kind: byte, name: seq<byte>, pad: seq<byte>,
                    after: seq<byte>)
    requires |head| == 16 && len < 0x1_0000
    ensures var b, off := before + Dirent(head, len, kind, name, pad) + after, |before|;
            && off + 20 + |name| <= |b|
            && b[off + 16] == len % 0x100 && b[off + 17] == len / 0x100
            && b[off + 19..off + 19 + |name|] == name && b[off + 19 + |name|] == 0
  {}

  lemma RecLenAt(b: seq<byte>, off: nat, len: nat)
    requires off + 18 <= |b| && len < 0x1_0000 && b[off + 16] == len % 0x100 && b[off + 17] == len / 0x100
    ensures RecLen(b, off) == len
  {}

  lemma {:induction false} NameAt(b: seq<byte>, i: nat, name: seq<byte>)
    requires i + |name| < |b| && b[i..i + |name|] == name && b[i + |name|] == 0
    requires forall k :: 0 <= k < |name| ==> name[k] != 0
    ensures Name(b, i) == name
    decreases |name|
  {
    if name == [] {
    } else {
      assert b[i] == b[i..i + |name|][0] == name[0];
      assert b[i + 1..i + |name|] == b[i..i + |name|][1..] == name[1..];
      NameAt(b, i + 1, name[1..]);
    }
  }

  lemma SetLenAt(before: seq<byte>, head: seq<byte>, len: nat, kind: byte, name: seq<byte>, pad: seq<byte>,
                 after: seq<byte>, v: nat)
    requires |head| == 16 && len < 0x1_0000 && v < 0x1_0000
    ensures SetLen(before + Dirent(head, len, kind, name, pad) + after, |before|, v)
            == before + Dirent(head, v, kind, name, pad) + after
  {}

  // ----- the name test ---------------------------------------------------------------------

  /** A NUL-terminated string read in full. */
  function Name(b: seq<byte>, i: nat): seq<byte>
    decreases |b| - i
  {
    if |b| <= i || b[i] == 0 then [] else [b[i]] + Name(b, i + 1)
  }

  lemma {:induction false} ReadStrIsPrefix(b: seq<byte>, i: nat, room: nat, stop: nat)
    requires i <= stop < |b| && b[stop] == 0
    ensures ReadStr(b, i, room) ==
            Some(if |Name(b, i)| <= room then Name(b, i) else Name(b, i)[..room])
    ensures forall k :: 0 <= k < |Name(b, i)| ==> Name(b, i)[k] != 0
    decreases room, stop - i
  {
    NameNonZero(b, i);
    if b[i] == 0 || room == 0 {
    } else {
      ReadStrIsPrefix(b, i + 1, room - 1, stop);
      var rest := Name(b, i + 1);
      assert Name(b, i) == [b[i]] + rest;
      assert room < |rest| + 1 ==> ([b[i]] + rest)[..room] == [b[i]] + rest[..room - 1];
    }
  }

  lemma {:induction false} NameNonZero(b: seq<byte>, i: nat)
    ensures forall k :: 0 <= k < |Name(b, i)| ==> Name(b, i)[k] != 0
    decreases |b| - i
  {
    if |b| <= i || b[i] == 0 {
    } else {
      NameNonZero(b, i + 1);
    }
  }

  /** String equality up to 14 characters, a prefix test at 15, never for a full buffer. */
  predicate NamesTarget(name: seq<byte>, target: seq<byte>)
    requires |target| == NAME_CAP
  {
    var t := FirstNul(target);
    if t <= 14 then name == target[..t]
    else if t == 15 then 15 <= |name| && name[..15] == target[..15]
    else false
  }

  /**
   The test is string equality for targets of up to 14 characters; a 15-character target
   also matches every longer name that starts with it, and a full buffer matches nothing.
   */
  lemma MatchIsNameEquality(b: seq<byte>, total: nat, offs: seq<nat>, i: nat, target: seq<byte>)
    requires |target| == NAME_CAP && Records(b, total, offs) && i < |offs|
    ensures Matches(b, offs[i], target) <==> NamesTarget(Name(b, offs[i] + NAME_OFF), target)
  {
    hide *;
    MatchesIs(b, offs[i], target);
    var stop := NameEnd(b, total, offs, i);
    NameBufShort(b, offs[i], stop);
    ShortMatch(Name(b, offs[i] + NAME_OFF), target);
  }

  lemma MatchesIs(b: seq<byte>, off: nat, target: seq<byte>)
    requires |target| == NAME_CAP
    ensures Matches(b, off, target) == SameName(NameBuf(b, off), target)
  {
    hide SameName, NameBuf;
  }

  lemma ShortMatch(name: seq<byte>, target: seq<byte>)
    requires |target| == NAME_CAP && forall k :: 0 <= k < |Short(name)| ==> Short(name)[k] != 0
    ensures SameName(Padded(name), target) <==> NamesTarget(name, target)
  {
    hide Zeros, SameName, FirstNul, Short;
    PaddedEquality(Short(name), target);
    ShortEquality(name, target);
  }

  /** A name cut to 15 characters and zero-filled to 16. */
  function Padded(name: seq<byte>): (p: seq<byte>)
    ensures |p| == NAME_CAP
  {
    Short(name) + Zeros(NAME_CAP - |Short(name)|)
  }

  lemma NameBufShort(b: seq<byte>, off: nat, stop: nat)
    requires off + NAME_OFF <= stop < |b| && b[stop] == 0
    ensures NameBuf(b, off) == Padded(Name(b, off + NAME_OFF))
    ensures var s := Short(Name(b, off + NAME_OFF)); forall k :: 0 <= k < |s| ==> s[k] != 0
  {
    hide ReadStr, Zeros, Name;
    ReadStrIsPrefix(b, off + NAME_OFF, NAME_CAP - 1, stop);
    NameBufIs(b, off);
    hide NameBuf;
    var name := Name(b, off + NAME_OFF);
    assert |name| > 15 ==> forall k :: 0 <= k < 15 ==> name[..15][k] == name[k];
  }

  lemma NameBufIs(b: seq<byte>, off: nat)
    ensures var r := ReadStr(b, off + NAME_OFF, NAME_CAP - 1);
            r.Some? && |r.value| < NAME_CAP ==> NameBuf(b, off) == r.value + Zeros(NAME_CAP - |r.value|)
  {
    hide ReadStr, Zeros;
  }

  function Short(name: seq<byte>): (s: seq<byte>)
    ensures |s| <= 15
  {
    if |name| <= 15 then name else name[..15]
  }

  lemma ShortEquality(name: seq<byte>, target: seq<byte>)
    requires |target| == NAME_CAP
    ensures var t := FirstNul(target);
            && (t <= 14 ==> (Short(name) == target[..t] <==> name == target[..t]))
            && (t == 15 ==> (Short(name) == target[..t] <==> 15 <= |name| && name[..15] == target[..15]))
  {
    assert |name| == 15 ==> name[..15] == name;
  }

  lemma PaddedEquality(s: seq<byte>, target: seq<byte>)
    requires |target| == NAME_CAP && |s| <= 15
    requires forall k :: 0 <= k < |s| ==> s[k] != 0
    ensures SameName(s + Zeros(NAME_CAP - |s|), target) <==>
            FirstNul(target) <= 15 && s == target[..FirstNul(target)]
  {
    var t, p := FirstNul(target), s + Zeros(NAME_CAP - |s|);
    assert t == 16 ==> !SameName(p, target) by {
      if t == 16 {
        assert p[..16][15] == 0 && target[..16][15] != 0;
      }
    }
    assert t < |s| ==> !SameName(p, target) by {
      if t < |s| {
        assert p[t] == s[t] != 0;
      }
    }
    assert |s| < t <= 15 ==> !SameName(p, target) by {
      if |s| < t <= 15 {
        assert p[..t][|s|] == 0 && target[..t][|s|] != 0;
      }
    }
    assert |s| <= 15 && p[..|s|] == s && p[|s|] == 0;
  }
}

/** xdp-lb: the backend table, the packet rewrite and the dispatch counters. */
module LoadBalancer {
  import opened Wrappers
  import opened Bits
  import opened Modular
  import opened RoundRobin
  import BpfMap

  const MAX_BACKENDS: nat := 8
  const VIP_PORT: nat := 8080
  const ETH_LEN: nat := 14
  const IPV4_LEN: nat := 20
  const UDP_LEN: nat := 8

  type u16 = x: int | 0 <= x < 0x1_0000
  type u32 = x: int | 0 <= x < 0x1_0000_0000

  /** The maps: the table the loader fills, the cursor and the counters. */
  datatype Lb = Lb(backends: seq<u16>, nback: u32, idx: u32, hits: map<u16, u64>)

  // ----- one frame ---------------------------------------------------------------------------

  function HalfWord(high: nat, low: nat): nat
  {
    high * 0x100 + low
  }

  /** A big-endian half word. */
  function Be16(frame: seq<byte>, off: nat): nat
    requires off + 2 <= |frame|
  {
    HalfWord(frame[off], frame[off + 1])
  }

  /** The frames the program takes for datagrams to the virtual port: it reads fixed offsets. */
  predicate ForVip(frame: seq<byte>)
  {
    && ETH_LEN + IPV4_LEN + UDP_LEN <= |frame|
    && Be16(frame, 12) == 0x0800
    && frame[23] == 17
    && Be16(frame, 36) == VIP_PORT
  }

  /** The backend slot the cursor points at, if there is one. */
  predicate HasBackend(lb: Lb)
  {
    0 < lb.nback && lb.idx % lb.nback < |lb.backends|
  }

  function Chosen(lb: Lb): u16
    requires HasBackend(lb)
  {
    lb.backends[lb.idx % lb.nback]
  }

  function HitsOf(hits: map<u16, u64>, port: u16): u64
  {
    if port in hits then hits[port] else 0
  }

  function Bumped(hits: map<u16, u64>, port: u16): map<u16, u64>
  {
    BpfMap.Insert(hits, MAX_BACKENDS, port, Inc(HitsOf(hits, port)))
  }

  function Advanced(lb: Lb): Lb
    requires HasBackend(lb)
  {
    var n: nat := lb.idx;
    lb.(idx := (n + 1) % U32, hits := Bumped(lb.hits, Chosen(lb)))
  }

  function Next(lb: Lb, frame: seq<byte>): Lb
  {
    if ForVip(frame) && HasBackend(lb) then Advanced(lb) else lb
  }

  /** `after` is `before` with `port` at bytes 36-37, zeros at 40-41, and every other byte as it was. */
  ghost predicate Redirected(before: seq<byte>, after: seq<byte>, port: u16)
  {
    && |after| == |before| && 42 <= |before|
    && Be16(after, 36) == port
    && Be16(after, 40) == 0
    && forall k :: 0 <= k < |before| && k !in {36, 37, 40, 41} ==> after[k] == before[k]
  }

  /** Bounds check of a T-sized read at `offset`. */
  predicate InFrame(length: nat, offset: nat, size: nat)
  {
    offset + size <= length
  }

  class Program {
    const backends: array<u16>
    var nback: u32
    var idx: u32
    var hits: map<u16, u64>

    ghost predicate Valid()
      reads this
    {
      backends.Length == MAX_BACKENDS
    }

    ghost function State(): Lb
      reads this, backends
    {
      Lb(backends[..], nback, idx, hits)
    }

    constructor ()
      ensures Valid() && fresh(backends)
      ensures State() == Lb(seq(MAX_BACKENDS, i => 0), 0, 0, map[])
    {
      backends := new u16[MAX_BACKENDS](i => 0);
      nback, idx, hits := 0, 0, map[];
      new;
      assert backends[..] == seq(MAX_BACKENDS, i => 0);
    }

    /**
     The loader's table fill. Nine ports or more stop it after the eighth, before the
     count is set.
     */
    method Fill(ports: seq<u16>) returns (r: Result<()>)
      requires Valid()
      modifies this`nback, this`idx, backends
      ensures Valid() && hits == old(hits)
      ensures r.Ok? <==> |ports| <= 8
      ensures r.Ok? ==> nback == |ports| && idx == 0 && backends[..nback] == ports
      ensures r.Err? ==> nback == old(nback) && idx == old(idx)
    {
      for i := 0 to |ports|
        invariant i <= MAX_BACKENDS && backends[..i] == ports[..i]
        invariant nback == old(nback) && idx == old(idx) && hits == old(hits)
      {
        if i >= backends.Length {
          return Err;
        }
        backends[i] := ports[i];
      }
      nback := |ports|;
      idx := 0;
      r := Ok(());
    }

    method Bump(key: u16)
      modifies this`hits
      ensures hits == Bumped(old(hits), key)
    {
      hits := BpfMap.Insert(hits, MAX_BACKENDS, key, Inc(HitsOf(hits, key)));
    }

    /**
     One frame. Every frame is passed on; it is changed only when it is for the virtual
     port and a backend exists, and then so are the cursor and the counters.
     */
    method TryLb(frame: array<byte>) returns (r: Result<()>)
      requires Valid() && frame !in {backends as object}
      modifies this`idx, this`hits, frame
      ensures Valid() && State() == Next(old(State()), old(frame[..]))
      ensures if ForVip(old(frame[..])) && HasBackend(old(State()))
              then Redirected(old(frame[..]), frame[..], Chosen(old(State())))
              else frame[..] == old(frame[..])
    {
      hide Bumped, Redirected;
      if !InFrame(frame.Length, 0, ETH_LEN) {
        return Err;
      }
      if frame[12] != 0x08 || frame[13] != 0x00 {
        return Ok(());
      }
      if !InFrame(frame.Length, ETH_LEN, IPV4_LEN) {
        return Err;
      }
      if frame[23] != 17 {
        return Ok(());
      }
      var udp := ETH_LEN + IPV4_LEN;
      if !InFrame(frame.Length, udp, UDP_LEN) {
        return Err;
      }
      if HalfWord(frame[udp + 2], frame[udp + 3]) != VIP_PORT {
        return Ok(());
      }
      var n := nback;
      if n == 0 {
        return Ok(());
      }
      var cur: nat := idx;
      if cur % n >= backends.Length {
        return Err;
      }
      var port := backends[cur % n];
      idx := (cur + 1) % U32;
      Redirect(frame, udp, port);
      Bump(port);
      r := Ok(());
    }

    /** The UDP header starts at `udp`. */
    method Redirect(frame: array<byte>, udp: nat, port: u16)
      requires udp == 34 && udp + UDP_LEN <= frame.Length
      modifies frame
      ensures Redirected(old(frame[..]), frame[..], port)
    {
      frame[udp + 2], frame[udp + 3] := port / 0x100, port % 0x100;
      frame[udp + 6], frame[udp + 7] := 0, 0;
    }
  }

  /** One frame, in figures. */
  lemma NextIs(lb: Lb, frame: seq<byte>)
    requires |lb.backends| == 8
    ensures var lb' := Next(lb, frame);
            var sent := && 42 <= |frame| && frame[12] == 0x08 && frame[13] == 0x00 && frame[23] == 17
                        && frame[36] == 0x1f && frame[37] == 0x90
                        && 0 < lb.nback && lb.idx % lb.nback < 8;
            && (ForVip(frame) && HasBackend(lb) <==> sent)
            && (!sent ==> lb' == lb)
            && (sent ==>
                  var port := lb.backends[lb.idx % lb.nback];
                  && Chosen(lb) == port && lb'.backends == lb.backends && lb'.nback == lb.nback
                  && lb'.idx == (lb.idx as int + 1) % 0x1_0000_0000
                  && lb'.hits == if port in lb.hits || |lb.hits| < 8
                                 then lb.hits[port := ((if port in lb.hits then lb.hits[port] as int else 0) + 1)
                                                      % 0x1_0000_0000_0000_0000]
                                 else lb.hits)
  {}

  /** The bytes of a redirected frame. */
  lemma RedirectedBytes(before: seq<byte>, after: seq<byte>, port: u16)
    requires Redirected(before, after, port)
    ensures |after| == |before| && 42 <= |before|
    ensures after[36] as int * 0x100 + after[37] == port && after[40] as int * 0x100 + after[41] == 0
    ensures forall k :: 0 <= k < |before| && k !in {36, 37, 40, 41} ==> after[k] == before[k]
  {}

  // ----- where the UDP header really is ---------------------------------------------------------

  /** Words of the IPv4 header, and the fragment offset (RFC 791 section 3.1). */
  function Ihl(frame: seq<byte>): nat
    requires ETH_LEN + IPV4_LEN <= |frame|
  {
    frame[14] % 16
  }

  function FragmentOffset(frame: seq<byte>): nat
    requires ETH_LEN + IPV4_LEN <= |frame|
  {
    Be16(frame, 20) % 0x2000
  }

  /** The UDP header follows the options. */
  function UdpOff(frame: seq<byte>): nat
    requires ETH_LEN + IPV4_LEN <= |frame|
  {
    ETH_LEN + 4 * Ihl(frame)
  }

  /** An IPv4 frame whose first fragment holds a whole UDP header (RFC 768). */
  predicate CarriesUdp(frame: seq<byte>)
  {
    && ETH_LEN + IPV4_LEN <= |frame|
    && Be16(frame, 12) == 0x0800 && frame[23] == 17
    && 5 <= Ihl(frame) && FragmentOffset(frame) == 0
    && UdpOff(frame) + UDP_LEN <= |frame|
  }

  /** A datagram to the virtual port. */
  predicate ToVip(frame: seq<byte>)
  {
    CarriesUdp(frame) && Be16(frame, UdpOff(frame) + 2) == VIP_PORT
  }

  predicate PlainHeader(frame: seq<byte>)
    requires ETH_LEN + IPV4_LEN <= |frame|
  {
    Ihl(frame) == 5 && FragmentOffset(frame) == 0
  }

  /** A datagram redirected as RFC 768 has it: destination port and checksum, nothing else. */
  ghost predicate UdpRedirected(before: seq<byte>, after: seq<byte>, port: u16)
  {
    && |after| == |before| && CarriesUdp(before)
    && var udp := UdpOff(before);
       && Be16(after, udp + 2) == port
       && Be16(after, udp + 6) == 0
       && forall k :: 0 <= k < |before| && k !in {udp + 2, udp + 3, udp + 6, udp + 7} ==> after[k] == before[k]
  }

  /** Without options or a fragment offset, the frames dispatched are the datagrams to the virtual port. */
  lemma PlainFrames(frame: seq<byte>)
    requires ETH_LEN + IPV4_LEN <= |frame| && PlainHeader(frame)
    ensures ForVip(frame) <==> ToVip(frame)
  {
    assert UdpOff(frame) == 34;
  }

  /** The bytes rewritten are the fields of the UDP header iff there are no options and no fragment offset. */
  lemma RewrittenFields(frame: seq<byte>)
    requires ForVip(frame)
    ensures PlainHeader(frame) <==>
            CarriesUdp(frame) && UdpOff(frame) + 2 == 36 && UdpOff(frame) + 6 == 40
  {
    assert PlainHeader(frame) ==> UdpOff(frame) == 34;
  }

  /** And only then does redirecting the frame redirect its datagram, unless to the port it had. */
  lemma RedirectsDatagram(before: seq<byte>, after: seq<byte>, port: u16)
    requires ForVip(before) && Redirected(before, after, port) && port != VIP_PORT
    ensures UdpRedirected(before, after, port) <==> PlainHeader(before)
  {
    RewrittenFields(before);
    assert after[36] != before[36] || after[37] != before[37];
  }

  /** A frame with one word of options and the UDP ports after it. */
  function OptionFrame(option: u16, port: u16): (frame: seq<byte>)
    ensures |frame| == 46
  {
    seq(46, k => if k == 12 then 0x08 else if k == 14 then 0x46 else if k == 23 then 17
                 else if k == 36 then option / 0x100 else if k == 37 then option % 0x100
                 else if k == 40 then port / 0x100 else if k == 41 then port % 0x100
                 else 0)
  }

  /**
   Options that read like the virtual port get a datagram to another port dispatched and its
   port zeroed; a datagram that is for the virtual port behind options is passed over.
   */
  lemma OptionsMislead(after: seq<byte>, port: u16)
    ensures var frame := OptionFrame(VIP_PORT, 53);
            && CarriesUdp(frame) && Be16(frame, UdpOff(frame) + 2) == 53
            && ForVip(frame) && !ToVip(frame)
            && (Redirected(frame, after, port) ==> Be16(after, UdpOff(frame) + 2) == 0)
    ensures var frame := OptionFrame(0, VIP_PORT); ToVip(frame) && !ForVip(frame)
  {
    hide OptionFrame, CarriesUdp, ForVip;
    OptionFrameBytes(VIP_PORT, 53);
    OptionFrameBytes(0, VIP_PORT);
    OptionDatagram(OptionFrame(VIP_PORT, 53), VIP_PORT, 53);
    OptionDatagram(OptionFrame(0, VIP_PORT), 0, VIP_PORT);
  }

  lemma OptionDatagram(frame: seq<byte>, option: u16, port: u16)
    requires |frame| == 46 && Be16(frame, 12) == 0x0800 && frame[14] == 0x46 && Be16(frame, 20) == 0 && frame[23] == 17
    requires Be16(frame, 36) == option && Be16(frame, 40) == port
    ensures CarriesUdp(frame) && UdpOff(frame) == 38
    ensures ForVip(frame) <==> option == VIP_PORT
  {}

  lemma OptionFrameBytes(option: u16, port: u16)
    ensures var frame := OptionFrame(option, port);
            && Be16(frame, 12) == 0x0800 && frame[14] == 0x46 && Be16(frame, 20) == 0 && frame[23] == 17
            && Be16(frame, 36) == option && Be16(frame, 40) == port
  {}

  // ----- runs ----------------------------------------------------------------------------------

  function Run(lb: Lb, frames: seq<seq<byte>>): Lb
  {
    if frames == [] then lb else Next(Run(lb, frames[..|frames| - 1]), frames[|frames| - 1])
  }

  /** How many of the frames are for the virtual port. */
  function Dispatches(frames: seq<seq<byte>>): (m: nat)
    ensures m <= |frames|
  {
    if frames == [] then 0
    else Dispatches(frames[..|frames| - 1]) + if ForVip(frames[|frames| - 1]) then 1 else 0
  }

  /** As the loader leaves it. */
  predicate Loaded(lb: Lb)
  {
    |lb.backends| == MAX_BACKENDS && 0 < lb.nback <= MAX_BACKENDS
  }

  function Ports(lb: Lb): set<u16>
    requires Loaded(lb)
  {
    set s | 0 <= s < lb.nback :: lb.backends[s]
  }

  /** How many of m dispatches from the state lb on go to a port. */
  function Sent(lb: Lb, m: nat, port: u16): nat
    requires Loaded(lb)
  {
    if m == 0 then 0
    else Sent(lb, m - 1, port) + if lb.backends[Slot(lb.nback, lb.idx, m - 1)] == port then 1 else 0
  }

  /** The state after m dispatches: cursor and counters are functions of m alone. */
  ghost predicate After(lb: Lb, m: nat, lb': Lb)
    requires Loaded(lb)
  {
    && lb'.backends == lb.backends && lb'.nback == lb.nback
    && lb'.idx == (lb.idx + m) % U32
    && lb'.hits.Keys <= Ports(lb)
    && forall p :: p in Ports(lb) ==> HitsOf(lb'.hits, p) == Wrap(HitsOf(lb.hits, p) + Sent(lb, m, p))
  }

  lemma PortsBound(lb: Lb)
    requires Loaded(lb)
    ensures |Ports(lb)| <= MAX_BACKENDS
  {
    PortsUpTo(lb.backends, lb.nback);
  }

  lemma {:induction false} PortsUpTo(backends: seq<u16>, n: nat)
    requires n <= |backends|
    ensures |set s | 0 <= s < n :: backends[s]| <= n
  {
    if n == 0 {
    } else {
      PortsUpTo(backends, n - 1);
      var fewer := set s | 0 <= s < n - 1 :: backends[s];
      assert (set s | 0 <= s < n :: backends[s]) == fewer + {backends[n - 1]};
    }
  }

  /** A dispatch chooses the slot of round robin, in range of the table. */
  lemma ChosenSlot(lb: Lb, m: nat, lb': Lb)
    requires Loaded(lb) && After(lb, m, lb')
    ensures HasBackend(lb') && Chosen(lb') == lb.backends[Slot(lb.nback, lb.idx, m)]
    ensures Chosen(lb') in Ports(lb)
  {
    var s := Slot(lb.nback, lb.idx, m);
    assert lb.backends[s] in Ports(lb);
  }

  /** The counter map always has room for the port chosen. */
  lemma BumpKeepsUp(lb: Lb, hits: map<u16, u64>, port: u16)
    requires Loaded(lb) && hits.Keys <= Ports(lb) && port in Ports(lb)
    ensures Bumped(hits, port) == hits[port := Inc(HitsOf(hits, port))]
  {
    PortsBound(lb);
    hide Ports, Inc;
    BpfMap.InsertHasRoom(hits, MAX_BACKENDS, port, Inc(HitsOf(hits, port)), Ports(lb));
  }

  lemma CounterStep(lb: Lb, m: nat, lb': Lb, p: u16)
    requires Loaded(lb) && After(lb, m, lb') && p in Ports(lb)
    ensures HasBackend(lb') && HitsOf(Advanced(lb').hits, p) == Wrap(HitsOf(lb.hits, p) + Sent(lb, m + 1, p))
  {
    ChosenSlot(lb, m, lb');
    var port := Chosen(lb');
    BumpKeepsUp(lb, lb'.hits, port);
    IncWrap(HitsOf(lb.hits, p) + Sent(lb, m, p));
    assert HitsOf(lb'.hits, p) == Wrap(HitsOf(lb.hits, p) + Sent(lb, m, p));
    hide Bumped, Ports, Wrap, Slot, Inc, After, HasBackend;
    SentStep(lb, m, p);
    hide Sent;
  }

  lemma SentStep(lb: Lb, m: nat, p: u16)
    requires Loaded(lb)
    ensures Sent(lb, m + 1, p) == Sent(lb, m, p) + if lb.backends[Slot(lb.nback, lb.idx, m)] == p then 1 else 0
  {}

  lemma OneMoreDispatch(lb: Lb, m: nat, lb': Lb)
    requires Loaded(lb) && After(lb, m, lb')
    ensures HasBackend(lb') && After(lb, m + 1, Advanced(lb'))
  {
    hide *;
    CursorStep(lb, m, lb');
    forall p | p in Ports(lb)
      ensures HitsOf(Advanced(lb').hits, p) == Wrap(HitsOf(lb.hits, p) + Sent(lb, m + 1, p))
    {
      CounterStep(lb, m, lb', p);
    }
    AfterIs(lb, m + 1, Advanced(lb'));
  }

  lemma AfterIs(lb: Lb, m: nat, lb': Lb)
    requires Loaded(lb) && lb'.backends == lb.backends && lb'.nback == lb.nback && lb'.idx == (lb.idx + m) % U32
    requires lb'.hits.Keys <= Ports(lb)
    requires forall p :: p in Ports(lb) ==> HitsOf(lb'.hits, p) == Wrap(HitsOf(lb.hits, p) + Sent(lb, m, p))
    ensures After(lb, m, lb')
  {
    hide HitsOf, Sent, Ports, Wrap;
  }

  lemma CursorStep(lb: Lb, m: nat, lb': Lb)
    requires Loaded(lb) && After(lb, m, lb')
    ensures HasBackend(lb')
    ensures var lb'' := Advanced(lb');
            && lb''.backends == lb.backends && lb''.nback == lb.nback
            && lb''.idx == (lb.idx + (m + 1)) % U32 && lb''.hits.Keys <= Ports(lb)
  {
    ChosenSlot(lb, m, lb');
    BumpKeepsUp(lb, lb'.hits, Chosen(lb'));
    ModAdd(lb.idx + m, 1, U32);
    hide HitsOf, Sent, HasBackend, Chosen, Bumped, Ports, Wrap, Slot, Inc;
  }

  lemma NoDispatch(lb: Lb)
    requires Loaded(lb) && lb.hits.Keys <= Ports(lb)
    ensures After(lb, 0, lb)
  {
    forall p | p in Ports(lb)
      ensures HitsOf(lb.hits, p) == Wrap(HitsOf(lb.hits, p) + 0)
    {
      WrapSum(HitsOf(lb.hits, p), 0);
    }
  }

  /**
   After any run of frames the counters are exactly the dispatches to each port, none
   refused, and the cursor has moved once per dispatch. An empty table dispatches nothing.
   */
  lemma {:induction false} RunDispatches(lb: Lb, frames: seq<seq<byte>>)
    requires |lb.backends| == MAX_BACKENDS && lb.nback <= MAX_BACKENDS
    requires 0 < lb.nback ==> lb.hits.Keys <= Ports(lb)
    ensures lb.nback == 0 ==> Run(lb, frames) == lb
    ensures 0 < lb.nback ==> After(lb, Dispatches(frames), Run(lb, frames))
  {
    if lb.nback == 0 {
      EmptyTable(lb, frames);
    } else {
      NoDispatch(lb);
    }
    hide After, ForVip, Ports, Advanced;
    if frames == [] {
    } else if 0 < lb.nback {
      var n := |frames| - 1;
      RunDispatches(lb, frames[..n]);
      OneMoreDispatch(lb, Dispatches(frames[..n]), Run(lb, frames[..n]));
      hide HasBackend;
    }
  }

  lemma {:induction false} EmptyTable(lb: Lb, frames: seq<seq<byte>>)
    requires lb.nback == 0
    ensures Run(lb, frames) == lb
  {
    if frames == [] {
    } else {
      EmptyTable(lb, frames[..|frames| - 1]);
    }
  }

  predicate Distinct(ports: seq<u16>)
  {
    forall i, j :: 0 <= i < j < |ports| ==> ports[i] != ports[j]
  }

  lemma {:induction false} SentIsServed(lb: Lb, m: nat, s: nat)
    requires Loaded(lb) && Distinct(lb.backends[..lb.nback]) && s < lb.nback
    ensures Sent(lb, m, lb.backends[s]) == Served(lb.nback, lb.idx, m, s)
  {
    if m == 0 {
    } else {
      SentIsServed(lb, m - 1, s);
      var t := Slot(lb.nback, lb.idx, m - 1);
      hide Slot;
      assert lb.backends[..lb.nback][s] == lb.backends[s] && lb.backends[..lb.nback][t] == lb.backends[t];
    }
  }

  /** Freshly loaded, distinct backends are hit equally often, give or take one, until the cursor wraps. */
  lemma HitsAreFair(lb: Lb, frames: seq<seq<byte>>, s: nat)
    requires Loaded(lb) && lb.idx == 0 && lb.hits == map[] && Distinct(lb.backends[..lb.nback])
    requires s < lb.nback && Dispatches(frames) <= U32
    ensures var m, n := Dispatches(frames), lb.nback;
            m / n <= HitsOf(Run(lb, frames).hits, lb.backends[s]) <= m / n + 1
  {
    var m, n := Dispatches(frames), lb.nback;
    var port := lb.backends[s];
    assert port in Ports(lb);
    assert HitsOf(lb.hits, port) == 0;
    RunDispatches(lb, frames);
    assert HitsOf(Run(lb, frames).hits, port) == Wrap(0 + Sent(lb, m, port));
    hide *;
    SentIsServed(lb, m, s);
    FairWithoutWrap(n, 0, m, s);
    WrapSum(Sent(lb, m, port), 0);
    ShareIsSmall(m, n);
  }

  lemma ShareIsSmall(m: nat, n: nat)
    requires 0 < n && m <= U32
    ensures m / n + 1 < U64
  {
    assert m == n * (m / n) + m % n;
    if m < m / n {
      assert n * (m / n) == m / n + (n - 1) * (m / n);
    }
  }
}

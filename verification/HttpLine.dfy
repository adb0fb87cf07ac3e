/** httpl7: from a frame to the request or response line shown for it. */
module HttpLine {
  import opened Wrappers
  import opened Bits

  const ETH_HLEN: nat := 14
  const TCP_OFF: nat := 34
  const LINE_CAP: nat := 80
  const IPPROTO_TCP: nat := 6

  /** Addresses and ports are kept in network byte order, as loaded. */
  datatype HttpEvent = HttpEvent(saddr: seq<byte>, daddr: seq<byte>, sport: seq<byte>, dport: seq<byte>,
                                 len: nat, line: seq<byte>)

  function Ascii(s: string): (b: seq<byte>)
    requires forall k :: 0 <= k < |s| ==> s[k] as int < 128
    ensures |b| == |s|
  {
    seq(|s|, k requires 0 <= k < |s| => s[k] as int)
  }

  /** The start of a request with one of five methods, or of a response. */
  predicate LooksHttp(b: seq<byte>)
    requires |b| == 5
  {
    || b[..4] == Ascii("GET ")
    || b[..4] == Ascii("POST")
    || b[..4] == Ascii("PUT ")
    || b[..4] == Ascii("HEAD")
    || b[..4] == Ascii("DELE")
    || b == Ascii("HTTP/")
  }

  /** The six starts, byte by byte. */
  lemma CapturedStarts(b: seq<byte>)
    requires |b| == 5
    ensures LooksHttp(b) <==>
            || (b[0] == 71 && b[1] == 69 && b[2] == 84 && b[3] == 32)
            || (b[0] == 80 && b[1] == 79 && b[2] == 83 && b[3] == 84)
            || (b[0] == 80 && b[1] == 85 && b[2] == 84 && b[3] == 32)
            || (b[0] == 72 && b[1] == 69 && b[2] == 65 && b[3] == 68)
            || (b[0] == 68 && b[1] == 69 && b[2] == 76 && b[3] == 69)
            || (b[0] == 72 && b[1] == 84 && b[2] == 84 && b[3] == 80 && b[4] == 47)
  {
    assert b[..4] == [b[0], b[1], b[2], b[3]];
    assert b == [b[0], b[1], b[2], b[3], b[4]];
  }

  /** Where the TCP payload starts, by the data offset in the high nibble of byte 46. */
  function PayloadOff(frame: seq<byte>): nat
    requires TCP_OFF + 13 <= |frame|
  {
    TCP_OFF + (frame[TCP_OFF + 12] / 16) * 4
  }

  /** IPv4 without options (RFC 791 section 3.1) carrying TCP (RFC 9293 section 3.1), up to the data offset. */
  predicate IsTcp(frame: seq<byte>)
  {
    && TCP_OFF + 13 <= |frame|
    && frame[12] == 0x08 && frame[13] == 0x00
    && frame[ETH_HLEN] % 16 == 5
    && frame[ETH_HLEN + 9] == IPPROTO_TCP
  }

  predicate Captures(frame: seq<byte>)
  {
    && IsTcp(frame)
    && PayloadOff(frame) + 5 <= |frame|
    && LooksHttp(frame[PayloadOff(frame)..PayloadOff(frame) + 5])
  }

  /** The TCP payload. */
  function Payload(frame: seq<byte>): seq<byte>
    requires IsTcp(frame) && PayloadOff(frame) <= |frame|
  {
    frame[PayloadOff(frame)..]
  }

  function Min(a: nat, b: nat): nat
  {
    if a < b then a else b
  }

  /** `line` is the payload cut or zero-filled to the capacity. */
  ghost predicate Holds(line: seq<byte>, payload: seq<byte>)
  {
    var n := Min(|payload|, LINE_CAP);
    && |line| == LINE_CAP
    && line[..n] == payload[..n]
    && forall k :: n <= k < LINE_CAP ==> line[k] == 0
  }

  ghost predicate Describes(ev: HttpEvent, frame: seq<byte>)
    requires Captures(frame)
  {
    && ev.saddr == frame[26..30] && ev.daddr == frame[30..34]
    && ev.sport == frame[34..36] && ev.dport == frame[36..38]
    && ev.len == LINE_CAP
    && Holds(ev.line, Payload(frame))
  }

  class Filter {
    var events: seq<HttpEvent>

    constructor ()
      ensures events == []
    {
      events := [];
    }

    /** `room` says whether the event ring has room. */
    method TryHttp(frame: array<byte>, room: bool) returns (r: Result<()>)
      modifies this
      ensures Captures(frame[..]) && room ==>
                && |events| == |old(events)| + 1 && events[..|old(events)|] == old(events)
                && Describes(events[|old(events)|], frame[..])
                && var ev := events[|old(events)|];
                   && ev.saddr == frame[26..30] && ev.daddr == frame[30..34]
                   && ev.sport == frame[34..36] && ev.dport == frame[36..38]
                   && ev.len == 80 && |ev.line| == 80
      ensures !(Captures(frame[..]) && room) ==> events == old(events)
      ensures r.Err? <==>
                || frame.Length < 14
                || (frame[12] == 0x08 && frame[13] == 0x00 &&
                    (|| frame.Length < 15
                     || (frame[14] % 16 == 5 &&
                         (|| frame.Length < 24
                          || (frame[23] == 6 &&
                              (frame.Length < 47 || frame.Length < 34 + 4 * (frame[46] as int / 16) + 5))))))
    {
      hide LooksHttp;
      if frame.Length < 14 {
        return Err;
      }
      if frame[12] != 0x08 || frame[13] != 0x00 {
        return Ok(());
      }
      if frame.Length < 15 {
        return Err;
      }
      if frame[ETH_HLEN] % 16 != 5 {
        return Ok(());
      }
      if frame.Length < 24 {
        return Err;
      }
      if frame[ETH_HLEN + 9] != IPPROTO_TCP {
        return Ok(());
      }
      if frame.Length < TCP_OFF + 13 {
        return Err;
      }
      var saddr, daddr := frame[26..30], frame[30..34];
      var sport, dport := frame[34..36], frame[36..38];
      var tcpHlen := (frame[TCP_OFF + 12] / 16) * 4;
      var payload := TCP_OFF + tcpHlen;
      if frame.Length < payload + 5 {
        return Err;
      }
      var first5 := frame[payload..payload + 5];
      assert first5 == frame[..][payload..payload + 5];
      if !LooksHttp(first5) {
        return Ok(());
      }
      var line := ReadLine(frame, payload);
      if room {
        assert frame[..][payload..] == frame[payload..];
        events := events + [HttpEvent(saddr, daddr, sport, dport, LINE_CAP, line)];
      }
      r := Ok(());
    }
  }

  /** The bounded copy: between 1 and 80 bytes into a zeroed buffer, none if they are not there. */
  method ReadLine(frame: array<byte>, payload: nat) returns (line: seq<byte>)
    ensures payload < frame.Length ==> Holds(line, frame[payload..])
  {
    var buffer := new byte[LINE_CAP](k => 0);
    var avail := if payload <= frame.Length then frame.Length - payload else 0;
    var n := if Min(avail, LINE_CAP) < 1 then 1 else Min(avail, LINE_CAP);
    if payload + n <= frame.Length {
      forall k | 0 <= k < n {
        buffer[k] := frame[payload + k];
      }
    }
    line := buffer[..];
  }

  /** Which frames are captured, and what of them, in figures. */
  lemma CapturedFrames(frame: seq<byte>)
    ensures Captures(frame) <==>
            && 47 <= |frame| && frame[12] == 0x08 && frame[13] == 0x00
            && frame[14] % 16 == 5 && frame[23] == 6
            && 34 + 4 * (frame[46] as int / 16) + 5 <= |frame|
            && LooksHttp(frame[34 + 4 * (frame[46] as int / 16)..34 + 4 * (frame[46] as int / 16) + 5])
    ensures Captures(frame) ==> Payload(frame) == frame[34 + 4 * (frame[46] as int / 16)..]
  {
    hide LooksHttp;
  }

  // ----- where the TCP payload really is -------------------------------------------------------

  /** Total length and fragment offset (RFC 791 section 3.1), data offset (RFC 9293 section 3.1). */
  function TotalLength(frame: seq<byte>): nat
    requires IsTcp(frame)
  {
    frame[16] as int * 0x100 + frame[17]
  }

  function FragmentOffset(frame: seq<byte>): nat
    requires IsTcp(frame)
  {
    (frame[20] as int * 0x100 + frame[21]) % 0x2000
  }

  /** A frame that holds a whole TCP header, and the data after it. */
  predicate CarriesTcp(frame: seq<byte>)
    requires IsTcp(frame)
  {
    && FragmentOffset(frame) == 0 && 20 <= PayloadOff(frame) - TCP_OFF
    && PayloadOff(frame) <= ETH_HLEN + TotalLength(frame) <= |frame|
  }

  function TcpData(frame: seq<byte>): seq<byte>
    requires IsTcp(frame) && CarriesTcp(frame)
  {
    frame[PayloadOff(frame)..ETH_HLEN + TotalLength(frame)]
  }

  /** What the program takes for the payload is the TCP data iff the fields it does not read are plain. */
  lemma PayloadIsTcpData(frame: seq<byte>)
    requires IsTcp(frame) && PayloadOff(frame) <= |frame|
    ensures CarriesTcp(frame) && Payload(frame) == TcpData(frame) <==>
            FragmentOffset(frame) == 0 && 20 <= PayloadOff(frame) - TCP_OFF && ETH_HLEN + TotalLength(frame) == |frame|
  {
    if CarriesTcp(frame) {
      assert |Payload(frame)| == |frame| - PayloadOff(frame);
      assert |TcpData(frame)| == ETH_HLEN + TotalLength(frame) - PayloadOff(frame);
    }
  }

  // ----- the line shown -----------------------------------------------------------------------

  predicate EndsLine(c: byte)
  {
    c == 13 || c == 10 || c == 0
  }

  /** The first CR, LF or NUL, or the end. */
  function LineEnd(b: seq<byte>): (e: nat)
    ensures e <= |b|
    ensures e < |b| ==> EndsLine(b[e])
    ensures forall k :: 0 <= k < e ==> !EndsLine(b[k])
  {
    if b == [] || EndsLine(b[0]) then 0 else 1 + LineEnd(b[1..])
  }

  method FirstLine(b: seq<byte>) returns (line: seq<byte>)
    ensures line == b[..LineEnd(b)]
  {
    var end := 0;
    while end < |b| && !EndsLine(b[end])
      invariant end <= |b| && forall k :: 0 <= k < end ==> !EndsLine(b[k])
    {
      end := end + 1;
    }
    line := b[..end];
  }

  /** Everything before the first space. */
  method MethodOf(line: seq<byte>) returns (word: seq<byte>)
    ensures FirstWord(line, word)
  {
    var i := 0;
    while i < |line| && line[i] != 32
      invariant i <= |line| && 32 !in line[..i]
    {
      i := i + 1;
    }
    word := line[..i];
  }

  /**
   Main result. For every captured frame at least five bytes are copied, and the line shown
   is the payload up to its first CR, LF or NUL, its end, or 80 bytes.
   */
  lemma ShownLine(frame: seq<byte>, ev: HttpEvent)
    requires Captures(frame) && Describes(ev, frame)
    ensures 5 <= Min(|Payload(frame)|, LINE_CAP)
    ensures var end := Min(LineEnd(Payload(frame)), LINE_CAP);
            && LineEnd(ev.line) == end && ev.line[..end] == Payload(frame)[..end]
            && end <= 80 && end <= |Payload(frame)|
            && (forall k :: 0 <= k < end ==>
                  Payload(frame)[k] != 13 && Payload(frame)[k] != 10 && Payload(frame)[k] != 0)
            && (end < 80 && end < |Payload(frame)| ==>
                  Payload(frame)[end] == 13 || Payload(frame)[end] == 10 || Payload(frame)[end] == 0)
  {
    var p, line := Payload(frame), ev.line;
    var n, end := Min(|p|, LINE_CAP), Min(LineEnd(p), LINE_CAP);
    assert forall k :: 0 <= k < n ==> line[..n][k] == line[k] && p[..n][k] == p[k];
    assert forall k :: 0 <= k < end ==> line[k] == p[k];
    assert end < LINE_CAP ==> line[end] == if end < |p| then p[end] else 0;
  }

  /** What MethodOf promises of the word it returns. */
  predicate FirstWord(line: seq<byte>, word: seq<byte>)
  {
    word <= line && 32 !in word && (|word| < |line| ==> line[|word|] == 32)
  }

  lemma WordLength(line: seq<byte>, word: seq<byte>, n: nat)
    requires FirstWord(line, word) && n <= |line| && 32 !in line[..n]
    ensures n <= |word| && word[..n] == line[..n]
    ensures n == |line| || line[n] == 32 ==> |word| == n
    ensures n < |line| && line[n] != 32 ==> n < |word|
  {
    assert forall k :: 0 <= k < n ==> line[..n][k] == line[k];
    assert n < |word| ==> word[n] == line[n];
  }

  /** A line shown for a captured frame is never blank; GET and PUT are named exactly, the others by a prefix. */
  lemma NameOf(frame: seq<byte>, ev: HttpEvent, word: seq<byte>)
    requires Captures(frame) && Describes(ev, frame) && FirstWord(ev.line[..LineEnd(ev.line)], word)
    ensures var p := Payload(frame);
            && 4 <= LineEnd(ev.line)
            && (p[..4] == Ascii("GET ") || p[..4] == Ascii("PUT ") ==> word == p[..3])
            && (p[..4] == Ascii("POST") || p[..4] == Ascii("HEAD") || p[..4] == Ascii("DELE") ==>
                  p[..4] <= word && (word == p[..4] <==> p[4] == 32 || EndsLine(p[4])))
  {
    var p, line := Payload(frame), ev.line[..LineEnd(ev.line)];
    ShownStart(frame, ev);
    hide LooksHttp, Captures, Describes, LineEnd, FirstWord, EndsLine;
    if p[3] == 32 {
      ShortName(p, line, word);
    } else {
      LongName(p, line, word);
    }
  }

  /** The method bytes reach the line shown. */
  lemma ShownStart(frame: seq<byte>, ev: HttpEvent)
    requires Captures(frame) && Describes(ev, frame)
    ensures var p, line := Payload(frame), ev.line[..LineEnd(ev.line)];
            && 5 <= |p| && 4 <= |line| && line[..4] == p[..4]
            && (|line| == 4 <==> EndsLine(p[4]))
            && (4 < |line| ==> line[4] == p[4])
            && 32 !in p[..3]
            && (p[3] == 32 <==> p[..4] == Ascii("GET ") || p[..4] == Ascii("PUT "))
  {
    ShownLine(frame, ev);
    var p, off := Payload(frame), PayloadOff(frame);
    assert frame[off..off + 5] == p[..5];
    FirstFour(p);
    FiveEnd(p, ev.line);
    hide LooksHttp, Captures, Describes, LineEnd;
  }

  /** A method followed by a space in its fourth byte. */
  lemma ShortName(p: seq<byte>, line: seq<byte>, word: seq<byte>)
    requires FirstWord(line, word) && 4 <= |p| && 4 <= |line| && line[..4] == p[..4]
    requires 32 !in p[..3] && p[3] == 32
    ensures word == p[..3]
  {
    assert line[..3] == line[..4][..3] == p[..3] && line[3] == line[..4][3] == p[3];
    WordLength(line, word, 3);
    hide FirstWord;
    assert word[..3] == word;
  }

  /** Four letters, whatever follows them. */
  lemma LongName(p: seq<byte>, line: seq<byte>, word: seq<byte>)
    requires FirstWord(line, word) && 5 <= |p| && 4 <= |line| && line[..4] == p[..4]
    requires 32 !in p[..3] && p[3] != 32
    requires (|line| == 4 <==> EndsLine(p[4])) && (4 < |line| ==> line[4] == p[4])
    ensures p[..4] <= word && (word == p[..4] <==> p[4] == 32 || EndsLine(p[4]))
  {
    assert p[..4] == p[..3] + [p[3]];
    WordLength(line, word, 4);
    hide FirstWord, EndsLine;
    assert |word| == 4 ==> word[..4] == word;
  }

  lemma FirstFour(p: seq<byte>)
    requires 5 <= |p| && LooksHttp(p[..5])
    ensures forall k :: 0 <= k < 4 ==> !EndsLine(p[k])
    ensures 32 !in p[..3]
    ensures p[3] == 32 <==> p[..4] == Ascii("GET ") || p[..4] == Ascii("PUT ")
  {
    assert p[..5][..4] == p[..4];
    assert forall k :: 0 <= k < 4 ==> p[..4][k] == p[k];
    assert forall k :: 0 <= k < 5 ==> p[..5][k] == p[k];
  }

  lemma FiveEnd(p: seq<byte>, line: seq<byte>)
    requires 5 <= |p| && |line| == LINE_CAP && LineEnd(line) == Min(LineEnd(p), LINE_CAP)
    requires forall k :: 0 <= k < 4 ==> !EndsLine(p[k])
    ensures 4 <= LineEnd(line) && (LineEnd(line) == 4 <==> EndsLine(p[4]))
  {}
}

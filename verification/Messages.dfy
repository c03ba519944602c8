/** Messages on a byte stream: fixed-size headers, partial sends and receives, and interruptions. */
module Messages {
  import opened Common

  // ----- integers in memory (little endian) -----

  function Pow256(k: nat): nat { if k == 0 then 1 else 256 * Pow256(k - 1) }

  function Bytes(n: nat, k: nat): (s: seq<byte>)
    ensures |s| == k
  {
    if k == 0 then [] else [n % 256] + Bytes(n / 256, k - 1)
  }

  function Number(s: seq<byte>): nat {
    if s == [] then 0 else s[0] + 256 * Number(s[1..])
  }

  lemma {:induction false} NumberOfBytes(n: nat, k: nat)
    requires n < Pow256(k)
    ensures Number(Bytes(n, k)) == n
  {
    if k == 0 {
    } else {
      assert Bytes(n, k)[1..] == Bytes(n / 256, k - 1);
      NumberOfBytes(n / 256, k - 1);
    }
  }

  // ----- message headers -----

  const HEADER_SIZE: nat := 48
  const FILEINFO: nat := 17

  /** length: 8 bytes; type: 4; token: 16; padding: 4; sent_at: 16. */
  datatype Header = Header(length: nat, kind: nat, token: seq<byte>, pad: seq<byte>, sentAt: seq<byte>)

  predicate ValidHeader(h: Header) {
    h.length < Pow256(8) && h.kind < Pow256(4) && |h.token| == 16 && |h.pad| == 4 && |h.sentAt| == 16
  }

  function EncodeHeader(h: Header): (s: seq<byte>)
    requires ValidHeader(h)
    ensures |s| == HEADER_SIZE
  {
    Bytes(h.length, 8) + Bytes(h.kind, 4) + h.token + h.pad + h.sentAt
  }

  function DecodeHeader(s: seq<byte>): (h: Header)
    requires |s| == HEADER_SIZE
  {
    Header(Number(s[..8]), Number(s[8..12]), s[12..28], s[28..32], s[32..])
  }

  lemma HeaderRoundTrip(h: Header)
    requires ValidHeader(h)
    ensures DecodeHeader(EncodeHeader(h)) == h
  {
    var s := EncodeHeader(h);
    NumberOfBytes(h.length, 8);
    NumberOfBytes(h.kind, 4);
    assert s[..8] == Bytes(h.length, 8) && s[8..12] == Bytes(h.kind, 4);
    assert s[12..28] == h.token && s[28..32] == h.pad && s[32..] == h.sentAt;
  }

  /** The value of the four bytes at p, and of the eight, the lowest first. */
  function Four(s: seq<byte>, p: nat): nat
    requires p + 4 <= |s|
  {
    var a: nat, b: nat, c: nat, d: nat := s[p], s[p + 1], s[p + 2], s[p + 3];
    a + 0x100 * b + 0x1_0000 * c + 0x100_0000 * d
  }

  function Eight(s: seq<byte>, p: nat): nat
    requires p + 8 <= |s|
  {
    Four(s, p) + 0x1_0000_0000 * Four(s, p + 4)
  }

  lemma OneByte(s: seq<byte>)
    requires s != []
    ensures Number(s) == s[0] + 256 * Number(s[1..])
  {
  }

  lemma NumberOfFour(s: seq<byte>)
    requires |s| >= 4
    ensures Number(s) == Four(s, 0) + 0x1_0000_0000 * Number(s[4..])
  {
    OneByte(s);
    OneByte(s[1..]);
    OneByte(s[2..]);
    OneByte(s[3..]);
    assert s[1..][1..] == s[2..] && s[2..][1..] == s[3..] && s[3..][1..] == s[4..];
  }

  lemma FourInside(s: seq<byte>, p: nat, n: nat)
    requires p + 4 <= |s| && n < Pow256(4) && s[p..p + 4] == Bytes(n, 4)
    ensures Four(s, p) == n
  {
    var b := Bytes(n, 4);
    NumberOfBytes(n, 4);
    NumberOfFour(b);
    assert b[0] == s[p] && b[1] == s[p + 1] && b[2] == s[p + 2] && b[3] == s[p + 3];
    assert b[4..] == [];
  }

  lemma EightInside(s: seq<byte>, p: nat, n: nat)
    requires p + 8 <= |s| && n < Pow256(8) && s[p..p + 8] == Bytes(n, 8)
    ensures Eight(s, p) == n
  {
    var b := Bytes(n, 8);
    NumberOfBytes(n, 8);
    NumberOfFour(b);
    NumberOfFour(b[4..]);
    assert b[4..][4..] == [];
    assert forall i :: 0 <= i < 8 ==> b[i] == s[p + i];
    assert forall i :: 0 <= i < 4 ==> b[4..][i] == s[p + 4 + i];
    hide Bytes, Number;
    assert Four(b[4..], 0) == Four(s, p + 4) && Four(b, 0) == Four(s, p);
  }

  /** Where the fields of a header stand. */
  lemma HeaderLayout(h: Header)
    requires ValidHeader(h)
    ensures var s := EncodeHeader(h);
            && |s| == 48 && Eight(s, 0) == h.length && Four(s, 8) == h.kind
            && s[12..28] == h.token && s[28..32] == h.pad && s[32..48] == h.sentAt
  {
    EightInside(EncodeHeader(h), 0, h.length);
    FourInside(EncodeHeader(h), 8, h.kind);
  }

  // ----- the connection -----

  /** What the kernel does with one call: move up to n bytes, fail with EINTR, or fail for good.
      A call beyond the end of the script moves everything it can. */
  datatype Event = Moves(n: nat) | Interrupts | Fails

  datatype IoResult = Moved(n: nat) | Eintr | Error

  function Io(events: seq<Event>, limit: nat, least: nat): IoResult
    requires least <= limit
  {
    if events == [] then Moved(limit)
    else match events[0]
         case Moves(k) => Moved(if k < least then least else Min(k, limit))
         case Interrupts => Eintr
         case Fails => Error
  }

  function Later(events: seq<Event>): seq<Event> {
    if events == [] then [] else events[1..]
  }

  predicate NoFailure(events: seq<Event>) { Fails !in events }

  /** What is left of a script holds nothing the script did not. */
  predicate Remain(left: seq<Event>, events: seq<Event>) { forall e :: e in left ==> e in events }

  /** `inbox` holds all bytes that arrive before the peer closes, `outbox` all bytes sent. */
  class Socket {
    var inbox: seq<byte>
    var outbox: seq<byte>
    var events: seq<Event>

    /** send(2): any number of bytes may be taken, in odd cases none. */
    method Send(buf: seq<byte>) returns (r: IoResult)
      requires buf != []
      modifies this
      ensures r == Io(old(events), |buf|, 0) && events == Later(old(events)) && inbox == old(inbox)
      ensures outbox == old(outbox) + (if r.Moved? then buf[..r.n] else [])
    {
      r := Io(events, |buf|, 0);
      events := Later(events);
      if r.Moved? { outbox := outbox + buf[..r.n]; }
    }

    /** recv(2): at least one byte, unless the peer has closed and all bytes have been read. */
    method Recv(len: nat) returns (r: IoResult, data: seq<byte>)
      requires len > 0
      modifies this
      ensures r == Io(old(events), Min(len, |old(inbox)|), Min(1, |old(inbox)|))
      ensures events == Later(old(events)) && outbox == old(outbox)
      ensures r.Moved? ==> data == old(inbox)[..r.n] && inbox == old(inbox)[r.n..]
      ensures !r.Moved? ==> data == [] && inbox == old(inbox)
    {
      r, data := Io(events, Min(len, |inbox|), Min(1, |inbox|)), [];
      events := Later(events);
      if r.Moved? { data, inbox := inbox[..r.n], inbox[r.n..]; }
    }
  }

  /** send_all: 0 when everything was taken, -1 on an error, -2 when a call took nothing. Without
      such calls it succeeds, however the bytes are split and however often it is interrupted. */
  method SendAll(sock: Socket, buf: seq<byte>) returns (ret: int)
    requires buf != []
    modifies sock
    ensures sock.inbox == old(sock.inbox)
    ensures ret == 0 ==> sock.outbox == old(sock.outbox) + buf
    ensures ret != 0 ==> sock.outbox < old(sock.outbox) + buf && old(sock.outbox) <= sock.outbox
    ensures ret == 0 || (ret == -1 && Fails in old(sock.events)) || (ret == -2 && Moves(0) in old(sock.events))
    ensures Remain(sock.events, old(sock.events))
  {
    var left := |buf|;
    while left > 0
      invariant 0 <= left <= |buf|
      invariant sock.outbox == old(sock.outbox) + buf[..|buf| - left] && sock.inbox == old(sock.inbox)
      invariant Remain(sock.events, old(sock.events))
      decreases left, |sock.events|
    {
      ghost var done := |buf| - left;
      assert sock.events != [] ==> sock.events[0] in sock.events;
      var r := sock.Send(buf[|buf| - left..]);
      match r {
        case Eintr => continue;
        case Error => return -1;
        case Moved(n) =>
          if n == 0 { return -2; }
          assert buf[..done] + buf[done..][..n] == buf[..done + n];
          left := left - n;
      }
    }
    return 0;
  }

  lemma StreamSplits(s: seq<byte>, done: nat, n: nat)
    requires done + n <= |s|
    ensures s[..done] + s[done..][..n] == s[..done + n] && s[done..][n..] == s[done + n..]
  {
  }

  method CopyInto(buf: array<byte>, at: nat, data: seq<byte>)
    requires at + |data| <= buf.Length
    modifies buf
    ensures buf[..at + |data|] == old(buf[..at]) + data
  {
    for i := 0 to |data|
      invariant buf[..at] == old(buf[..at]) && buf[at..at + i] == data[..i]
    {
      buf[at + i] := data[i];
    }
    assert buf[..at + |data|] == buf[..at] + buf[at..at + |data|];
  }

  /** recv_all: 0 when `len` bytes were received, -1 on an error, -2 when the peer closed first. */
  method RecvAll(sock: Socket, buf: array<byte>, len: nat) returns (ret: int)
    requires 0 < len <= buf.Length
    modifies sock, buf
    ensures sock.outbox == old(sock.outbox) && |sock.inbox| <= |old(sock.inbox)|
    ensures ret == 0 ==> |old(sock.inbox)| >= len && buf[..len] == old(sock.inbox)[..len]
                         && sock.inbox == old(sock.inbox)[len..]
    ensures ret == -2 ==> |old(sock.inbox)| < len && sock.inbox == []
    ensures ret == 0 || ret == -2 || (ret == -1 && Fails in old(sock.events))
    ensures Remain(sock.events, old(sock.events))
  {
    var left := len;
    ghost var stream := sock.inbox;
    while left > 0
      invariant 0 <= left <= len && len - left <= |stream|
      invariant buf[..len - left] == stream[..len - left] && sock.inbox == stream[len - left..]
      invariant sock.outbox == old(sock.outbox)
      invariant Remain(sock.events, old(sock.events))
      decreases left, |sock.events|
    {
      ghost var done := len - left;
      assert sock.events != [] ==> sock.events[0] in sock.events;
      var r, data := sock.Recv(left);
      match r {
        case Eintr => continue;
        case Error => return -1;
        case Moved(n) =>
          if n == 0 { return -2; }
          StreamSplits(stream, done, n);
          CopyInto(buf, len - left, data);
          left := left - n;
      }
    }
    return 0;
  }

  // ----- messages -----

  type Payload = Option<seq<byte>>

  function BytesOf(p: Payload): seq<byte> { if p.None? then [] else p.value }

  predicate NonEmpty(p: Payload) { p.Some? ==> p.value != [] }

  /** The bytes of one message on the stream: header, payload header, payload. */
  function Frame(h: Header, extra: Payload, payload: Payload): seq<byte>
    requires ValidHeader(h)
  {
    EncodeHeader(h) + BytesOf(extra) + BytesOf(payload)
  }

  // ----- what a receiver reads off a stream -----

  datatype Parsed = Got(h: Header, body: seq<byte>, rest: seq<byte>) | TooLong(h: Header, rest: seq<byte>) | Closed

  function Parse(s: seq<byte>, maxlen: nat): Parsed {
    if |s| < HEADER_SIZE then Closed
    else
      var h, rest := DecodeHeader(s[..HEADER_SIZE]), s[HEADER_SIZE..];
      if h.length > maxlen then TooLong(h, rest)
      else if |rest| < h.length then Closed
      else Got(h, rest[..h.length], rest[h.length..])
  }

  class Message {
    var hdr: Header
    var payload: Payload

    constructor ()
      ensures hdr == Header(0, 0, seq(16, _ => 0), seq(4, _ => 0), seq(16, _ => 0)) && payload == None
    {
      hdr := Header(0, 0, seq(16, _ => 0), seq(4, _ => 0), seq(16, _ => 0));
      payload := None;
    }

    /** msg_init: the token of the header is kept. */
    method Init(kind: nat, payload: Payload)
      modifies this
      ensures hdr == old(hdr).(length := |BytesOf(payload)|, kind := kind, sentAt := seq(16, _ => 0))
      ensures this.payload == payload
    {
      hdr := hdr.(length := |BytesOf(payload)|, kind := kind, sentAt := seq(16, _ => 0));
      this.payload := payload;
    }

    /** msg_send at time `now`: the payload header is counted in the length sent (and stays counted). */
    method SendTo(sock: Socket, extra: Payload, now: seq<byte>) returns (ret: int)
      requires NonEmpty(extra) && NonEmpty(payload)
      requires ValidHeader(hdr.(length := hdr.length + |BytesOf(extra)|, sentAt := now))
      modifies this, sock
      ensures hdr == old(hdr).(length := old(hdr).length + |BytesOf(extra)|, sentAt := now)
      ensures payload == old(payload) && sock.inbox == old(sock.inbox)
      ensures ret == 0 ==> sock.outbox == old(sock.outbox) + Frame(hdr, extra, payload)
      ensures ret != 0 ==> old(sock.outbox) <= sock.outbox < old(sock.outbox) + Frame(hdr, extra, payload)
      ensures ret == 0 || (ret == -1 && Fails in old(sock.events)) || (ret == -2 && Moves(0) in old(sock.events))
      ensures Remain(sock.events, old(sock.events))
    {
      hdr := hdr.(length := hdr.length + |BytesOf(extra)|, sentAt := now);
      ghost var was, head, mid, tail := sock.outbox, EncodeHeader(hdr), BytesOf(extra), BytesOf(payload);
      assert was + (head + mid + tail) == was + head + mid + tail;
      ret := SendAll(sock, EncodeHeader(hdr));
      if ret < 0 { return; }
      if extra.Some? {
        ret := SendAll(sock, extra.value);
        if ret < 0 { return; }
      }
      if payload.Some? {
        ret := SendAll(sock, payload.value);
        if ret < 0 { return; }
      }
      return 0;
    }

    /** msg_recv_header */
    method RecvHeader(sock: Socket) returns (ret: int)
      modifies this, sock
      ensures payload == old(payload) && sock.outbox == old(sock.outbox)
      ensures ret == 0 || ret == -2 || (ret == -1 && Fails in old(sock.events))
      ensures ret == 0 ==> |old(sock.inbox)| >= HEADER_SIZE && hdr == DecodeHeader(old(sock.inbox)[..HEADER_SIZE])
                           && sock.inbox == old(sock.inbox)[HEADER_SIZE..]
      ensures ret == -2 ==> |old(sock.inbox)| < HEADER_SIZE && sock.inbox == []
      ensures Remain(sock.events, old(sock.events))
    {
      var buf := new byte[HEADER_SIZE];
      ret := RecvAll(sock, buf, HEADER_SIZE);
      if ret < 0 { return; }
      assert buf[..] == buf[..HEADER_SIZE];
      hdr := DecodeHeader(buf[..]);
    }

    /** msg_recv_payload: nothing is read past the limit, and without a payload the old one stays. */
    method RecvPayload(sock: Socket, maxlen: nat) returns (ret: int)
      modifies this, sock
      ensures hdr == old(hdr) && sock.outbox == old(sock.outbox) && |sock.inbox| <= |old(sock.inbox)|
      ensures ret == 0 || ret == -2 || ret == -3 || (ret == -1 && Fails in old(sock.events))
      ensures ret == -3 <==> hdr.length > maxlen
      ensures ret == -3 || hdr.length == 0 ==> sock.inbox == old(sock.inbox) && payload == old(payload)
      ensures ret != -3 && hdr.length > 0 ==> payload.Some? && |payload.value| == hdr.length
      ensures ret == 0 && hdr.length > 0 ==>
                |old(sock.inbox)| >= hdr.length && payload == Some(old(sock.inbox)[..hdr.length])
                && sock.inbox == old(sock.inbox)[hdr.length..]
      ensures ret == -2 ==> |old(sock.inbox)| < hdr.length && sock.inbox == []
      ensures Remain(sock.events, old(sock.events))
    {
      if hdr.length > maxlen { return -3; }
      if hdr.length > 0 {
        var buf := new byte[hdr.length];
        ret := RecvAll(sock, buf, hdr.length);
        payload := Some(buf[..]);
        if ret < 0 { return; }
        assert buf[..] == buf[..hdr.length];
      }
      return 0;
    }

    /** msg_recv: each result tells what the stream begins with; only a failing call gives -1. */
    method RecvFrom(sock: Socket, maxlen: nat) returns (ret: int)
      modifies this, sock
      ensures sock.outbox == old(sock.outbox)
      ensures ret == 0 || ret == -2 || ret == -3 || (ret == -1 && Fails in old(sock.events))
      ensures ret == 0 ==>
                var p := Parse(old(sock.inbox), maxlen);
                p.Got? && hdr == p.h && sock.inbox == p.rest
                && payload == if p.h.length > 0 then Some(p.body) else old(payload)
      ensures ret == -3 ==>
                var p := Parse(old(sock.inbox), maxlen);
                p.TooLong? && hdr == p.h && sock.inbox == p.rest && payload == old(payload)
      ensures ret == -2 ==> Parse(old(sock.inbox), maxlen).Closed? && sock.inbox == []
      ensures Remain(sock.events, old(sock.events))
    {
      ret := RecvHeader(sock);
      if ret < 0 { return; }
      ret := RecvPayload(sock, maxlen);
    }
  }

  // ----- sequences of messages -----

  /** A message as its sender holds it before msg_send. */
  datatype Outgoing = Outgoing(h: Header, extra: Payload, payload: Payload)

  function Body(m: Outgoing): seq<byte> { BytesOf(m.extra) + BytesOf(m.payload) }

  predicate Sendable(m: Outgoing, maxlen: nat) {
    ValidHeader(m.h) && m.h.length == |Body(m)| <= maxlen
  }

  function Frames(ms: seq<Outgoing>, maxlen: nat): seq<byte>
    requires forall m :: m in ms ==> Sendable(m, maxlen)
  {
    if ms == [] then []
    else
      assert Sendable(ms[0], maxlen) by { assert ms[0] in ms; }
      Frame(ms[0].h, ms[0].extra, ms[0].payload) + Frames(ms[1..], maxlen)
  }

  lemma ParseOne(m: Outgoing, maxlen: nat, rest: seq<byte>)
    requires Sendable(m, maxlen)
    ensures Parse(Frame(m.h, m.extra, m.payload) + rest, maxlen) == Got(m.h, Body(m), rest)
  {
    var s := Frame(m.h, m.extra, m.payload) + rest;
    assert s[..HEADER_SIZE] == EncodeHeader(m.h);
    HeaderRoundTrip(m.h);
    assert s[HEADER_SIZE..] == Body(m) + rest;
  }

  function ParseAll(s: seq<byte>, count: nat, maxlen: nat): (seq<(Header, seq<byte>)>, seq<byte>) {
    if count == 0 then ([], s)
    else
      match Parse(s, maxlen)
      case Got(h, body, rest) =>
        var (ms, end) := ParseAll(rest, count - 1, maxlen);
        ([(h, body)] + ms, end)
      case _ => ([], s)
  }

  function Contents(ms: seq<Outgoing>): (c: seq<(Header, seq<byte>)>)
    ensures |c| == |ms| && forall i :: 0 <= i < |ms| ==> c[i] == (ms[i].h, Body(ms[i]))
  {
    seq(|ms|, i requires 0 <= i < |ms| => (ms[i].h, Body(ms[i])))
  }

  lemma ParseAllStep(m: Outgoing, count: nat, maxlen: nat, next: seq<byte>)
    requires Sendable(m, maxlen)
    ensures var (ms, end) := ParseAll(next, count, maxlen);
            ParseAll(Frame(m.h, m.extra, m.payload) + next, count + 1, maxlen) == ([(m.h, Body(m))] + ms, end)
  {
    ParseOne(m, maxlen, next);
  }

  lemma FramesSplit(ms: seq<Outgoing>, maxlen: nat, rest: seq<byte>)
    requires ms != [] && forall m :: m in ms ==> Sendable(m, maxlen)
    ensures Sendable(ms[0], maxlen)
    ensures Frames(ms, maxlen) + rest
            == Frame(ms[0].h, ms[0].extra, ms[0].payload) + (Frames(ms[1..], maxlen) + rest)
  {
    assert Sendable(ms[0], maxlen) by { assert ms[0] in ms; }
  }

  lemma ContentsSplit(ms: seq<Outgoing>)
    requires ms != []
    ensures [(ms[0].h, Body(ms[0]))] + Contents(ms[1..]) == Contents(ms)
  {
  }

  /** Any sequence of messages is recovered in order, payload header before payload, and the
      stream is left at the next header. */
  lemma {:induction false} StreamRoundTrip(ms: seq<Outgoing>, maxlen: nat, rest: seq<byte>)
    requires forall m :: m in ms ==> Sendable(m, maxlen)
    ensures ParseAll(Frames(ms, maxlen) + rest, |ms|, maxlen) == (Contents(ms), rest)
    decreases ms
  {
    if ms == [] {
      assert [] + rest == rest;
    } else {
      FramesSplit(ms, maxlen, rest);
      ParseAllStep(ms[0], |ms| - 1, maxlen, Frames(ms[1..], maxlen) + rest);
      StreamRoundTrip(ms[1..], maxlen, rest);
      ContentsSplit(ms);
    }
  }

  /** A message that did not arrive whole is not there at all for the receiver. */
  lemma ParsePartial(m: Outgoing, maxlen: nat, s: seq<byte>)
    requires Sendable(m, maxlen) && s < Frame(m.h, m.extra, m.payload)
    ensures Parse(s, maxlen) == Closed
  {
    var all := Frame(m.h, m.extra, m.payload);
    if |s| >= HEADER_SIZE {
      assert s[..HEADER_SIZE] == all[..HEADER_SIZE] == EncodeHeader(m.h);
      HeaderRoundTrip(m.h);
    }
  }

  lemma SplitPrefix(s: seq<byte>, a: seq<byte>, b: seq<byte>)
    requires s <= a + b && |a| <= |s|
    ensures s == a + s[|a|..] && s[|a|..] <= b
  {
    assert s[..|a|] == (a + b)[..|a|] == a;
    assert s[|a|..] == (a + b)[|a|..|s|] == b[..|s| - |a|];
  }

  lemma ShorterPrefix(s: seq<byte>, a: seq<byte>, b: seq<byte>)
    requires s <= a + b && |s| < |a|
    ensures s < a
  {
    assert s == (a + b)[..|s|] == a[..|s|];
  }

  lemma PrefixGrows(got: seq<(Header, seq<byte>)>, ms: seq<Outgoing>)
    requires ms != [] && got <= Contents(ms[1..])
    ensures [(ms[0].h, Body(ms[0]))] + got <= Contents(ms)
  {
    ContentsSplit(ms);
  }

  /** Wherever the stream is cut, what is recovered is the first messages of those sent. */
  lemma {:induction false} CutStreamYieldsPrefix(ms: seq<Outgoing>, maxlen: nat, s: seq<byte>)
    requires forall m :: m in ms ==> Sendable(m, maxlen)
    requires s <= Frames(ms, maxlen)
    ensures ParseAll(s, |ms|, maxlen).0 <= Contents(ms)
    decreases ms
  {
    if ms == [] {
    } else {
      FramesSplit(ms, maxlen, []);
      var m, rest := ms[0], Frames(ms[1..], maxlen);
      var first := Frame(m.h, m.extra, m.payload);
      assert Frames(ms, maxlen) + [] == Frames(ms, maxlen) && rest + [] == rest;
      if |s| < |first| {
        ShorterPrefix(s, first, rest);
        ParsePartial(m, maxlen, s);
      } else {
        SplitPrefix(s, first, rest);
        ParseAllStep(m, |ms| - 1, maxlen, s[|first|..]);
        CutStreamYieldsPrefix(ms[1..], maxlen, s[|first|..]);
        PrefixGrows(ParseAll(s[|first|..], |ms| - 1, maxlen).0, ms);
      }
    }
  }

  /** The first n messages are whole on the stream, and the next one, if there is one, is not. */
  predicate WholeAre(ms: seq<Outgoing>, maxlen: nat, s: seq<byte>, n: nat)
    requires forall m :: m in ms ==> Sendable(m, maxlen)
  {
    n <= |ms| && Frames(ms[..n], maxlen) <= s
    && (n < |ms| ==> |s| < |Frames(ms[..n], maxlen)| + HEADER_SIZE + |Body(ms[n])|)
  }

  lemma WholeAfterFirst(ms: seq<Outgoing>, maxlen: nat, s: seq<byte>, n: nat)
    requires ms != [] && forall m :: m in ms ==> Sendable(m, maxlen)
    requires WholeAre(ms[1..], maxlen, s, n)
    ensures Sendable(ms[0], maxlen)
    ensures WholeAre(ms, maxlen, Frame(ms[0].h, ms[0].extra, ms[0].payload) + s, n + 1)
  {
    assert ms[0] in ms;
    assert ms[..n + 1][1..] == ms[1..][..n] && forall m :: m in ms[..n + 1] ==> m in ms;
    FramesSplit(ms[..n + 1], maxlen, []);
  }

  /** Wherever the stream is cut, what is recovered is the messages that are whole on it, all of them. */
  lemma {:induction false} CutStreamYieldsWhole(ms: seq<Outgoing>, maxlen: nat, s: seq<byte>) returns (n: nat)
    requires forall m :: m in ms ==> Sendable(m, maxlen)
    requires s <= Frames(ms, maxlen)
    ensures WholeAre(ms, maxlen, s, n) && ParseAll(s, |ms|, maxlen).0 == Contents(ms[..n])
    decreases ms
  {
    if ms == [] {
      n := 0;
    } else {
      FramesSplit(ms, maxlen, []);
      var m, rest := ms[0], Frames(ms[1..], maxlen);
      var first := Frame(m.h, m.extra, m.payload);
      assert Frames(ms, maxlen) + [] == Frames(ms, maxlen) && rest + [] == rest;
      if |s| < |first| {
        ShorterPrefix(s, first, rest);
        ParsePartial(m, maxlen, s);
        n := 0;
      } else {
        SplitPrefix(s, first, rest);
        ParseAllStep(m, |ms| - 1, maxlen, s[|first|..]);
        hide Frame, Body, ParseAll, WholeAre;
        n := CutStreamYieldsWhole(ms[1..], maxlen, s[|first|..]);
        WholeAfterFirst(ms, maxlen, s[|first|..], n);
        n := n + 1;
        ContentsSplit(ms[..n]);
        assert ms[..n][1..] == ms[1..][..n - 1];
      }
    }
  }

  // ----- a whole sequence received: the client's listing -----

  /** The bodies of the messages of one kind at the head of a stream, and what stops them. */
  datatype Listed = Listed(bodies: seq<seq<byte>>, stop: Parsed)

  function ParseListing(s: seq<byte>, maxlen: nat): Listed
    decreases |s|
  {
    match Parse(s, maxlen)
    case Got(h, body, rest) =>
      if h.kind != FILEINFO then Listed([], Got(h, body, rest))
      else
        var later := ParseListing(rest, maxlen);
        Listed([body] + later.bodies, later.stop)
    case p => Listed([], p)
  }

  /** The receiving loop of cmd_list: file entries until a message of another kind, or an error. */
  method ReceiveListing(sock: Socket, maxlen: nat) returns (ret: int, bodies: seq<seq<byte>>, last: Header)
    modifies sock
    ensures ret == 0 || ret == -2 || ret == -3 || (ret == -1 && Fails in old(sock.events))
    ensures bodies <= ParseListing(old(sock.inbox), maxlen).bodies
    ensures ret != -1 ==> bodies == ParseListing(old(sock.inbox), maxlen).bodies
    ensures ret == 0 ==>
              var stop := ParseListing(old(sock.inbox), maxlen).stop;
              stop.Got? && last == stop.h && last.kind != FILEINFO && sock.inbox == stop.rest
    ensures ret == -2 ==> ParseListing(old(sock.inbox), maxlen).stop.Closed?
    ensures ret == -3 ==> ParseListing(old(sock.inbox), maxlen).stop.TooLong?
  {
    ghost var all := ParseListing(sock.inbox, maxlen);
    bodies := [];
    while true
      invariant all == Listed(bodies + ParseListing(sock.inbox, maxlen).bodies, ParseListing(sock.inbox, maxlen).stop)
      invariant Remain(sock.events, old(sock.events))
      decreases |sock.inbox|
    {
      var msg := new Message();
      ghost var later := ParseListing(sock.inbox, maxlen);
      ret := msg.RecvFrom(sock, maxlen);
      last := msg.hdr;
      if ret < 0 || msg.hdr.kind != FILEINFO { return; }
      var body := BytesOf(msg.payload);
      assert later.bodies == [body] + ParseListing(sock.inbox, maxlen).bodies;
      Regroup(bodies, [body], ParseListing(sock.inbox, maxlen).bodies);
      bodies := bodies + [body];
    }
  }

  function Bodies(ms: seq<Outgoing>): (b: seq<seq<byte>>)
    ensures |b| == |ms| && forall i :: 0 <= i < |ms| ==> b[i] == Body(ms[i])
  {
    seq(|ms|, i requires 0 <= i < |ms| => Body(ms[i]))
  }

  lemma ListingStep(m: Outgoing, maxlen: nat, next: seq<byte>)
    requires Sendable(m, maxlen) && m.h.kind == FILEINFO
    ensures var later := ParseListing(next, maxlen);
            ParseListing(Frame(m.h, m.extra, m.payload) + next, maxlen) == Listed([Body(m)] + later.bodies, later.stop)
  {
    ParseOne(m, maxlen, next);
  }

  lemma BodiesSplit(ms: seq<Outgoing>)
    requires ms != []
    ensures [Body(ms[0])] + Bodies(ms[1..]) == Bodies(ms)
  {
  }

  /** The loop gets every entry sent, in order, and stops at the message that ends the listing. */
  lemma {:induction false} ListingRoundTrip(ms: seq<Outgoing>, end: Outgoing, maxlen: nat, rest: seq<byte>)
    requires forall m :: m in ms ==> Sendable(m, maxlen) && m.h.kind == FILEINFO
    requires Sendable(end, maxlen) && end.h.kind != FILEINFO
    ensures ParseListing(Frames(ms, maxlen) + (Frame(end.h, end.extra, end.payload) + rest), maxlen)
            == Listed(Bodies(ms), Got(end.h, Body(end), rest))
    decreases |ms|
  {
    var tail := Frame(end.h, end.extra, end.payload) + rest;
    if ms == [] {
      ParseOne(end, maxlen, rest);
      assert [] + tail == tail;
    } else {
      FramesSplit(ms, maxlen, tail);
      assert ms[0] in ms;
      ListingStep(ms[0], maxlen, Frames(ms[1..], maxlen) + tail);
      ListingRoundTrip(ms[1..], end, maxlen, rest);
      BodiesSplit(ms);
    }
  }

  /** A listing cut before its end: the loop has every entry that is whole on the stream, and reports
      the loss. */
  lemma {:induction false} CutListingYieldsWhole(ms: seq<Outgoing>, end: Outgoing, maxlen: nat, s: seq<byte>)
    returns (n: nat)
    requires forall m :: m in ms ==> Sendable(m, maxlen) && m.h.kind == FILEINFO
    requires Sendable(end, maxlen) && s < Frames(ms, maxlen) + Frame(end.h, end.extra, end.payload)
    ensures WholeAre(ms, maxlen, s, n) && ParseListing(s, maxlen) == Listed(Bodies(ms[..n]), Closed)
    decreases |ms|
  {
    var last := Frame(end.h, end.extra, end.payload);
    if ms == [] {
      n := 0;
      assert [] + last == last;
      ParsePartial(end, maxlen, s);
    } else {
      FramesSplit(ms, maxlen, last);
      assert ms[0] in ms;
      var first := Frame(ms[0].h, ms[0].extra, ms[0].payload);
      var rest := Frames(ms[1..], maxlen) + last;
      if |s| < |first| {
        ShorterPrefix(s, first, rest);
        ParsePartial(ms[0], maxlen, s);
        n := 0;
      } else {
        SplitPrefix(s, first, rest);
        ListingStep(ms[0], maxlen, s[|first|..]);
        hide Frame, Body, ParseListing;
        n := CutListingYieldsWhole(ms[1..], end, maxlen, s[|first|..]);
        WholeAfterFirst(ms, maxlen, s[|first|..], n);
        n := n + 1;
        BodiesSplit(ms[..n]);
        assert ms[..n][1..] == ms[1..][..n - 1];
      }
    }
  }
}

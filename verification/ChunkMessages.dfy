/** Chunks and their replies as messages: chunk_send, chunk_recv, and what repeated calls make of a
    stream of chunks that may be cut anywhere. */
module ChunkMessages {
  import opened Common
  import opened ChunkCount
  import opened Chunks
  import opened Messages
  import opened Transfer

  const SEND_CHUNK: nat := 18
  const CHUNK_OK: nat := 19
  const CHUNK_AGAIN: nat := 20
  const CHUNK_HEADER_SIZE: nat := 64
  const MAX_CHUNK_MESSAGE: nat := CHUNK_HEADER_SIZE + CHUNK_SIZE

  predicate ValidChunkHdr(c: ChunkHdr) {
    c.seqNo < Pow256(8) && c.startByte < Pow256(8) && 0 <= c.endByte < Pow256(8) && c.length < Pow256(8)
    && |c.checksum| == 32
  }

  function EncodeChunkHdr(c: ChunkHdr): (s: seq<byte>)
    requires ValidChunkHdr(c)
    ensures |s| == CHUNK_HEADER_SIZE
  {
    Bytes(c.seqNo, 8) + Bytes(c.startByte, 8) + Bytes(c.endByte, 8) + Bytes(c.length, 8) + c.checksum
  }

  function DecodeChunkHdr(s: seq<byte>): ChunkHdr
    requires |s| == CHUNK_HEADER_SIZE
  {
    ChunkHdr(Number(s[..8]), Number(s[8..16]), Number(s[16..24]), Number(s[24..32]), s[32..])
  }

  lemma FieldsOf(a: seq<byte>, b: seq<byte>, c: seq<byte>, d: seq<byte>, e: seq<byte>)
    requires |a| == |b| == |c| == |d| == 8
    ensures var s := a + b + c + d + e;
            s[..8] == a && s[8..16] == b && s[16..24] == c && s[24..32] == d && s[32..] == e
  {
  }

  lemma ChunkHdrRoundTrip(c: ChunkHdr)
    requires ValidChunkHdr(c)
    ensures DecodeChunkHdr(EncodeChunkHdr(c)) == c
  {
    NumberOfBytes(c.seqNo, 8);
    NumberOfBytes(c.startByte, 8);
    NumberOfBytes(c.endByte, 8);
    NumberOfBytes(c.length, 8);
    FieldsOf(Bytes(c.seqNo, 8), Bytes(c.startByte, 8), Bytes(c.endByte, 8), Bytes(c.length, 8), c.checksum);
  }

  predicate ValidChunk(c: Chunk) {
    ValidChunkHdr(c.hdr) && 0 < |c.data| == c.hdr.length <= CHUNK_SIZE
  }

  function ChunkOf(body: seq<byte>): Chunk
    requires |body| >= CHUNK_HEADER_SIZE
  {
    Chunk(DecodeChunkHdr(body[..CHUNK_HEADER_SIZE]), body[CHUNK_HEADER_SIZE..])
  }

  /** The bytes of one chunk message. */
  function ChunkFrame(c: Chunk, token: seq<byte>, pad: seq<byte>, now: seq<byte>): seq<byte>
    requires ValidChunk(c) && |token| == 16 && |pad| == 4 && |now| == 16
  {
    Frame(Header(CHUNK_HEADER_SIZE + |c.data|, SEND_CHUNK, token, pad, now), Some(EncodeChunkHdr(c.hdr)), Some(c.data))
  }

  lemma ChunkHdrLayout(c: ChunkHdr)
    requires ValidChunkHdr(c)
    ensures var s := EncodeChunkHdr(c);
            && |s| == 64 && Eight(s, 0) == c.seqNo && Eight(s, 8) == c.startByte && Eight(s, 16) == c.endByte
            && Eight(s, 24) == c.length && s[32..64] == c.checksum
  {
    var s := EncodeChunkHdr(c);
    FieldsOf(Bytes(c.seqNo, 8), Bytes(c.startByte, 8), Bytes(c.endByte, 8), Bytes(c.length, 8), c.checksum);
    assert s[0..8] == s[..8];
    hide EncodeChunkHdr;
    EightInside(s, 0, c.seqNo);
    EightInside(s, 8, c.startByte);
    EightInside(s, 16, c.endByte);
    EightInside(s, 24, c.length);
  }

  lemma EightBehind(a: seq<byte>, b: seq<byte>, c: seq<byte>, p: nat)
    requires p + 8 <= |b|
    ensures Eight(a + b + c, |a| + p) == Eight(b, p)
  {
    var s, q := a + b + c, |a| + p;
    assert s[q] == b[p] && s[q + 1] == b[p + 1] && s[q + 2] == b[p + 2] && s[q + 3] == b[p + 3];
    assert s[q + 4] == b[p + 4] && s[q + 5] == b[p + 5] && s[q + 6] == b[p + 6] && s[q + 7] == b[p + 7];
  }

  lemma FrontPlaces(a: seq<byte>, b: seq<byte>)
    requires |a| == 48
    ensures var s := a + b;
            && Eight(s, 0) == Eight(a, 0) && Four(s, 8) == Four(a, 8) && s[12..28] == a[12..28]
            && s[28..32] == a[28..32] && s[32..48] == a[32..48]
  {
    assert forall i :: 0 <= i < 12 ==> (a + b)[i] == a[i];
  }

  lemma BackPlaces(a: seq<byte>, b: seq<byte>, d: seq<byte>)
    requires |a| == 48 && |b| == 64
    ensures var s := a + b + d;
            && Eight(s, 48) == Eight(b, 0) && Eight(s, 56) == Eight(b, 8) && Eight(s, 64) == Eight(b, 16)
            && Eight(s, 72) == Eight(b, 24) && s[80..112] == b[32..64] && s[112..] == d
  {
    hide Eight;
    EightBehind(a, b, d, 0);
    EightBehind(a, b, d, 8);
    EightBehind(a, b, d, 16);
    EightBehind(a, b, d, 24);
  }

  /** A chunk on the wire: 48 bytes of message header, 64 of chunk header, and the data. */
  lemma ChunkLayout(c: Chunk, token: seq<byte>, pad: seq<byte>, now: seq<byte>)
    requires ValidChunk(c) && |token| == 16 && |pad| == 4 && |now| == 16
    ensures var s := ChunkFrame(c, token, pad, now);
            && |s| == 112 + |c.data| && Eight(s, 0) == 64 + |c.data| && Four(s, 8) == 18
            && s[12..28] == token && s[28..32] == pad && s[32..48] == now
            && Eight(s, 48) == c.hdr.seqNo && Eight(s, 56) == c.hdr.startByte && Eight(s, 64) == c.hdr.endByte
            && Eight(s, 72) == c.hdr.length && s[80..112] == c.hdr.checksum && s[112..] == c.data
  {
    var h := Header(CHUNK_HEADER_SIZE + |c.data|, SEND_CHUNK, token, pad, now);
    var a, b := EncodeHeader(h), EncodeChunkHdr(c.hdr);
    assert ChunkFrame(c, token, pad, now) == a + b + c.data;
    hide Eight, Four, EncodeHeader, EncodeChunkHdr;
    HeaderLayout(h);
    ChunkHdrLayout(c.hdr);
    Regroup(a, b, c.data);
    FrontPlaces(a, b + c.data);
    BackPlaces(a, b, c.data);
  }

  /** chunk_send; token and padding of the message header are whatever the stack held. */
  method ChunkSend(c: Chunk, sock: Socket, token: seq<byte>, pad: seq<byte>, now: seq<byte>) returns (ret: int)
    requires ValidChunk(c) && |token| == 16 && |pad| == 4 && |now| == 16
    modifies sock
    ensures sock.inbox == old(sock.inbox)
    ensures ret >= 0 ==> ret == c.hdr.length && sock.outbox == old(sock.outbox) + ChunkFrame(c, token, pad, now)
    ensures ret < 0 ==> old(sock.outbox) <= sock.outbox < old(sock.outbox) + ChunkFrame(c, token, pad, now)
    ensures Fails !in old(sock.events) && Moves(0) !in old(sock.events) ==> ret >= 0
    ensures Remain(sock.events, old(sock.events))
  {
    var msg := new Message();
    msg.hdr := msg.hdr.(token := token, pad := pad);
    msg.Init(SEND_CHUNK, Some(c.data));
    ghost var h := Header(CHUNK_HEADER_SIZE + |c.data|, SEND_CHUNK, token, pad, now);
    assert msg.hdr.(length := msg.hdr.length + CHUNK_HEADER_SIZE, sentAt := now) == h && ValidHeader(h);
    ret := msg.SendTo(sock, Some(EncodeChunkHdr(c.hdr)), now);
    assert msg.hdr == h && msg.payload == Some(c.data);
    if ret < 0 { return; }
    return c.hdr.length;
  }

  /** What the stream holds for a call of chunk_recv. */
  datatype Incoming =
    | NoHeader
    | Short(h: Header, rest: seq<byte>)
    | Long(h: Header)
    | CutShort(h: Header)
    | Whole(c: Chunk, rest: seq<byte>)

  function NextChunk(s: seq<byte>): Incoming {
    if |s| < HEADER_SIZE then NoHeader
    else
      var h, rest := DecodeHeader(s[..HEADER_SIZE]), s[HEADER_SIZE..];
      if h.length < CHUNK_HEADER_SIZE then Short(h, rest)
      else if h.length > MAX_CHUNK_MESSAGE then Long(h)
      else if |rest| < h.length then CutShort(h)
      else Whole(ChunkOf(rest[..h.length]), rest[h.length..])
  }

  /** A chunk was received and its digest compared. */
  predicate Judged(ret: int) { ret >= 0 || ret == -3 }

  /** chunk_recv: -4 for a message too short to be a chunk, -3 if the digest does not match, -1 or
      -2 if the connection is lost before a header is complete. What a connection lost inside the
      payload leaves in the buffer is arbitrary: it is judged like any other chunk. After a longer
      message than a chunk the source copies from a null payload. */
  method ChunkRecv(sock: Socket, digest: seq<byte> -> Checksum) returns (ret: int, c: Chunk, crashes: bool)
    modifies sock
    ensures sock.outbox == old(sock.outbox) && (Judged(ret) ==> |sock.inbox| < |old(sock.inbox)|)
    ensures ret >= -4 && (ret == -1 ==> Fails in old(sock.events))
    ensures ret == -2 ==> NextChunk(old(sock.inbox)).NoHeader?
    ensures ret == -4 ==> NextChunk(old(sock.inbox)).Short? && sock.inbox == NextChunk(old(sock.inbox)).rest
    ensures crashes ==> ret == -3 && NextChunk(old(sock.inbox)).Long?
    ensures Judged(ret) && !crashes ==>
              ret == (if Intact(digest, c) then |c.data| else -3)
              && (NextChunk(old(sock.inbox)) == Whole(c, sock.inbox) || Fails in old(sock.events)
                  || (NextChunk(old(sock.inbox)).CutShort? && sock.inbox == []
                      && |c.data| == NextChunk(old(sock.inbox)).h.length - CHUNK_HEADER_SIZE))
    ensures NextChunk(old(sock.inbox)).Long? ==> crashes || Fails in old(sock.events)
    ensures Remain(sock.events, old(sock.events))
  {
    c, crashes := Chunk(ChunkHdr(0, 0, 0, 0, []), []), false;
    var msg := new Message();
    ret := msg.RecvHeader(sock);
    if ret < 0 { return; }
    if msg.hdr.length < CHUNK_HEADER_SIZE { return -4, c, false; }
    ret := msg.RecvPayload(sock, MAX_CHUNK_MESSAGE);
    if msg.payload.None? { return -3, c, true; }
    c := ChunkOf(msg.payload.value);
    if !Intact(digest, c) { return -3, c, false; }
    return msg.hdr.length - CHUNK_HEADER_SIZE, c, false;
  }

  /** The message chunk_send puts on the stream. */
  function ChunkMessage(h: Header, c: Chunk): Outgoing
    requires ValidChunkHdr(c.hdr)
  {
    Outgoing(h, Some(EncodeChunkHdr(c.hdr)), Some(c.data))
  }

  predicate CarriesChunk(m: Outgoing, c: Chunk) {
    ValidChunk(c) && ValidHeader(m.h) && m.h.length == CHUNK_HEADER_SIZE + |c.data| && m == ChunkMessage(m.h, c)
  }

  predicate CarryChunks(ms: seq<Outgoing>, cs: seq<Chunk>) {
    |ms| == |cs| && forall i :: 0 <= i < |ms| ==> CarriesChunk(ms[i], cs[i])
  }

  lemma CarrierIsSendable(m: Outgoing, c: Chunk)
    requires CarriesChunk(m, c)
    ensures Sendable(m, MAX_CHUNK_MESSAGE) && |Body(m)| >= CHUNK_HEADER_SIZE && ChunkOf(Body(m)) == c
  {
    assert Body(m)[..CHUNK_HEADER_SIZE] == EncodeChunkHdr(c.hdr);
    assert Body(m)[CHUNK_HEADER_SIZE..] == c.data;
    ChunkHdrRoundTrip(c.hdr);
  }

  /** A chunk that is sent is read back as it is, and only the digest decides whether it counts. */
  lemma ChunkRoundTrip(c: Chunk, h: Header, rest: seq<byte>)
    requires ValidChunk(c) && ValidHeader(h) && h.length == CHUNK_HEADER_SIZE + |c.data|
    ensures var extra := Some(EncodeChunkHdr(c.hdr));
            match Parse(Frame(h, extra, Some(c.data)) + rest, MAX_CHUNK_MESSAGE)
            case Got(h', body, rest') => h' == h && rest' == rest && |body| == h.length && ChunkOf(body) == c
            case _ => false
  {
    CarrierIsSendable(ChunkMessage(h, c), c);
    ParseOne(ChunkMessage(h, c), MAX_CHUNK_MESSAGE, rest);
  }

  lemma CarriersAreSendable(ms: seq<Outgoing>, cs: seq<Chunk>)
    requires CarryChunks(ms, cs)
    ensures forall m :: m in ms ==> Sendable(m, MAX_CHUNK_MESSAGE)
  {
    forall i | 0 <= i < |ms| ensures Sendable(ms[i], MAX_CHUNK_MESSAGE) { CarrierIsSendable(ms[i], cs[i]); }
  }

  lemma HeaderOfPrefix(m: Outgoing, s: seq<byte>)
    requires ValidHeader(m.h) && s <= Frame(m.h, m.extra, m.payload) && |s| >= HEADER_SIZE
    ensures DecodeHeader(s[..HEADER_SIZE]) == m.h
  {
    assert s[..HEADER_SIZE] == Frame(m.h, m.extra, m.payload)[..HEADER_SIZE] == EncodeHeader(m.h);
    HeaderRoundTrip(m.h);
  }

  lemma WholeChunkNext(m: Outgoing, c: Chunk, rest: seq<byte>)
    requires CarriesChunk(m, c) && Sendable(m, MAX_CHUNK_MESSAGE)
    ensures NextChunk(Frame(m.h, m.extra, m.payload) + rest) == Whole(c, rest)
  {
    ParseOne(m, MAX_CHUNK_MESSAGE, rest);
    CarrierIsSendable(m, c);
  }

  lemma CutChunkNext(m: Outgoing, c: Chunk, s: seq<byte>)
    requires CarriesChunk(m, c) && Sendable(m, MAX_CHUNK_MESSAGE) && s < Frame(m.h, m.extra, m.payload)
    ensures NextChunk(s).NoHeader? || NextChunk(s).CutShort?
    ensures Parse(s, MAX_CHUNK_MESSAGE).Closed?
  {
    ParsePartial(m, MAX_CHUNK_MESSAGE, s);
    if |s| >= HEADER_SIZE { HeaderOfPrefix(m, s); }
  }

  lemma FirstOfFrames(ms: seq<Outgoing>, s: seq<byte>)
    requires ms != [] && forall m :: m in ms ==> Sendable(m, MAX_CHUNK_MESSAGE)
    requires s <= Frames(ms, MAX_CHUNK_MESSAGE)
    ensures Sendable(ms[0], MAX_CHUNK_MESSAGE)
    ensures var first := Frame(ms[0].h, ms[0].extra, ms[0].payload);
            s < first || (|first| <= |s| && s == first + s[|first|..]
                          && s[|first|..] <= Frames(ms[1..], MAX_CHUNK_MESSAGE))
  {
    assert ms[0] in ms;
    var first, later := Frame(ms[0].h, ms[0].extra, ms[0].payload), Frames(ms[1..], MAX_CHUNK_MESSAGE);
    if |s| < |first| { ShorterPrefix(s, first, later); } else { SplitPrefix(s, first, later); }
  }

  /** n chunks have been read off a part of the stream of chunk messages that holds `whole` of them
      and then `end`; s is what is still to come. */
  predicate AtChunk(ms: seq<Outgoing>, cs: seq<Chunk>, s: seq<byte>, n: nat, whole: nat, end: seq<byte>) {
    && CarryChunks(ms, cs) && (forall m :: m in ms ==> Sendable(m, MAX_CHUNK_MESSAGE))
    && n <= |ms| && s <= Frames(ms[n..], MAX_CHUNK_MESSAGE)
    && whole == n + |ParseAll(s, |ms| - n, MAX_CHUNK_MESSAGE).0| && end == ParseAll(s, |ms| - n, MAX_CHUNK_MESSAGE).1
  }

  /** The next chunk is the one sent if it is whole; otherwise the stream is cut before the end of its
      header or inside its payload. */
  lemma NextOnStream(ms: seq<Outgoing>, cs: seq<Chunk>, s: seq<byte>, n: nat, whole: nat, end: seq<byte>)
    requires AtChunk(ms, cs, s, n, whole, end) && n < |ms|
    ensures match NextChunk(s)
            case Whole(c, rest) => c == cs[n] && AtChunk(ms, cs, rest, n + 1, whole, end)
            case Short(_, _) => false
            case Long(_) => false
            case _ => whole == n && end == s
  {
    var m, left := ms[n], ms[n..];
    assert left[0] == m && left[1..] == ms[n + 1..];
    FirstOfFrames(left, s);
    assert CarriesChunk(m, cs[n]);
    var first := Frame(m.h, m.extra, m.payload);
    if s < first {
      CutChunkNext(m, cs[n], s);
    } else {
      WholeChunkNext(m, cs[n], s[|first|..]);
      ParseOne(m, MAX_CHUNK_MESSAGE, s[|first|..]);
    }
  }

  lemma {:induction false} ParseAllIsShort(s: seq<byte>, count: nat, maxlen: nat)
    ensures |ParseAll(s, count, maxlen).0| <= count
  {
    if count == 0 {
    } else if Parse(s, maxlen).Got? {
      ParseAllIsShort(Parse(s, maxlen).rest, count - 1, maxlen);
    }
  }

  lemma ReadCount(ms: seq<Outgoing>, cs: seq<Chunk>, s: seq<byte>, n: nat, whole: nat, end: seq<byte>)
    requires AtChunk(ms, cs, s, n, whole, end)
    ensures n <= |ms| == |cs| && n <= whole <= |cs| && (n == |cs| ==> whole == n)
  {
    ParseAllIsShort(s, |ms| - n, MAX_CHUNK_MESSAGE);
  }

  lemma PrefixKept(got: seq<Chunk>, c: Chunk, cs: seq<Chunk>, n: nat)
    requires n <= |got| && n <= |cs| && got[..n] == cs[..n]
    ensures (got + [c])[..n] == cs[..n]
    ensures |got| == n < |cs| && c == cs[n] ==> (got + [c])[..n + 1] == cs[..n + 1]
  {
    assert (got + [c])[..n] == got[..n];
  }

  /** One call, on a stream that is in order or no longer is: after a cut inside a payload, or a
      failing call. */
  method RecvNext(sock: Socket, digest: seq<byte> -> Checksum, ghost ms: seq<Outgoing>, ghost cs: seq<Chunk>,
                  ghost n: nat, ghost whole: nat, ghost end: seq<byte>, ghost inOrder: bool)
    returns (goesOn: bool, c: Chunk, ghost still: bool)
    requires inOrder ==> n < |ms| && AtChunk(ms, cs, sock.inbox, n, whole, end)
    modifies sock
    ensures Remain(sock.events, old(sock.events))
    ensures still ==> inOrder && goesOn && n < whole && c == cs[n] && AtChunk(ms, cs, sock.inbox, n + 1, whole, end)
    ensures inOrder && goesOn && !still ==>
              Fails in old(sock.events) || (n == whole && sock.inbox == [] && NextChunk(end).CutShort?)
    ensures inOrder && !goesOn ==> Fails in old(sock.events) || (n == whole && !NextChunk(end).CutShort?)
    ensures !inOrder && goesOn ==> Fails in old(sock.events) || old(sock.inbox) != []
  {
    if inOrder { NextOnStream(ms, cs, sock.inbox, n, whole, end); }
    var ret, d, crashes := ChunkRecv(sock, digest);
    goesOn, c := Judged(ret) && !crashes, d;
    still := inOrder && goesOn && NextChunk(old(sock.inbox)) == Whole(d, sock.inbox);
  }

  /** The receiver's side of a stream of chunk messages: chunk_recv again and again, until as many
      chunks have come as were sent, or it reports a loss or crashes. The first n chunks are delivered
      as they were sent. Anything else comes only after a call has failed, or, one chunk made of
      whatever the buffer held, after a cut inside a payload; without failing calls n is the number of
      chunks that are whole on the stream. */
  method RecvChunks(sock: Socket, digest: seq<byte> -> Checksum, count: nat,
                    ghost ms: seq<Outgoing>, ghost cs: seq<Chunk>)
    returns (got: seq<Chunk>, ghost n: nat)
    requires AtChunk(ms, cs, sock.inbox, 0, |ParseAll(sock.inbox, |ms|, MAX_CHUNK_MESSAGE).0|,
                     ParseAll(sock.inbox, |ms|, MAX_CHUNK_MESSAGE).1)
    requires count == |cs|
    modifies sock
    ensures n <= |ParseAll(old(sock.inbox), |ms|, MAX_CHUNK_MESSAGE).0| <= |cs|
    ensures n <= |got| <= |cs| && got[..n] == cs[..n]
    ensures NoFailure(old(sock.events)) ==>
              var (all, end) := ParseAll(old(sock.inbox), |ms|, MAX_CHUNK_MESSAGE);
              n == |all| && |got| == n + (if n < |cs| && NextChunk(end).CutShort? then 1 else 0)
  {
    ghost var (all, end) := ParseAll(sock.inbox, |ms|, MAX_CHUNK_MESSAGE);
    ghost var whole, inOrder := |all|, true;
    ReadCount(ms, cs, sock.inbox, 0, whole, end);
    hide AtChunk, NextChunk, ParseAll, CarryChunks;
    got, n := [], 0;
    while |got| < count
      invariant n <= |got| <= count && n <= whole && got[..n] == cs[..n]
      invariant Remain(sock.events, old(sock.events))
      invariant inOrder ==> |got| == n && AtChunk(ms, cs, sock.inbox, n, whole, end) && (n == |cs| ==> whole == n)
      invariant !inOrder ==> Fails in old(sock.events)
                             || (n == whole < |cs| && |got| == n + 1 && sock.inbox == [] && NextChunk(end).CutShort?)
    {
      var goesOn, c;
      goesOn, c, inOrder := RecvNext(sock, digest, ms, cs, n, whole, end, inOrder);
      if !goesOn { return; }
      PrefixKept(got, c, cs, n);
      got := got + [c];
      if inOrder {
        n := n + 1;
        ReadCount(ms, cs, sock.inbox, n, whole, end);
      }
    }
  }

  /** Every part of a stream of chunk messages from its beginning is one RecvChunks can start on; the
      messages that are whole on it carry the first of the chunks, and all of them if it is not cut. */
  lemma StreamDeliversChunks(ms: seq<Outgoing>, cs: seq<Chunk>, s: seq<byte>)
    requires CarryChunks(ms, cs)
    ensures forall m :: m in ms ==> Sendable(m, MAX_CHUNK_MESSAGE)
    ensures s <= Frames(ms, MAX_CHUNK_MESSAGE) ==>
              var (got, end) := ParseAll(s, |ms|, MAX_CHUNK_MESSAGE);
              && AtChunk(ms, cs, s, 0, |got|, end) && |got| <= |cs|
              && (forall i :: 0 <= i < |got| ==> |got[i].1| >= CHUNK_HEADER_SIZE && ChunkOf(got[i].1) == cs[i])
              && (s == Frames(ms, MAX_CHUNK_MESSAGE) ==> |got| == |cs|)
  {
    CarriersAreSendable(ms, cs);
    if s <= Frames(ms, MAX_CHUNK_MESSAGE) {
      CutStreamYieldsPrefix(ms, MAX_CHUNK_MESSAGE, s);
      StreamRoundTrip(ms, MAX_CHUNK_MESSAGE, []);
      assert Frames(ms, MAX_CHUNK_MESSAGE) + [] == Frames(ms, MAX_CHUNK_MESSAGE) && ms[0..] == ms;
      var got := ParseAll(s, |ms|, MAX_CHUNK_MESSAGE).0;
      forall i | 0 <= i < |got| ensures |got[i].1| >= CHUNK_HEADER_SIZE && ChunkOf(got[i].1) == cs[i] {
        assert got[i] == Contents(ms)[i];
        CarrierIsSendable(ms[i], cs[i]);
      }
    }
  }

  /** The chunks a transfer sends fit the wire format. */
  lemma ChunkAtIsSendable(j: Job, i: nat)
    requires i * CHUNK_SIZE < |j.src| < Pow256(8) && forall data :: |j.digest(data)| == 32
    ensures ValidChunk(ChunkAt(j, i))
  {
    ChunksTile(j, i);
  }

  // ----- the replies -----

  function ReplyHeader(reply: Reply, now: seq<byte>): Header {
    Header(0, if reply.Ok? then CHUNK_OK else CHUNK_AGAIN, seq(16, _ => 0), seq(4, _ => 0), now)
  }

  /** The reply at the head of a stream, as the sender takes it: every type but OK asks for a repeat. */
  function NextReply(s: seq<byte>): Option<(Reply, seq<byte>)> {
    match Parse(s, 0)
    case Got(h, _, rest) => Some((if h.kind == CHUNK_OK then Ok else Again, rest))
    case _ => None
  }

  /** A reply on the wire: a header only, of type 19 for OK and 20 for a repeat. */
  lemma ReplyLayout(reply: Reply, now: seq<byte>)
    requires |now| == 16
    ensures var s := Frame(ReplyHeader(reply, now), None, None);
            && |s| == 48 && Eight(s, 0) == 0 && Four(s, 8) == (if reply.Ok? then 19 else 20) && s[32..48] == now
  {
    var h := ReplyHeader(reply, now);
    HeaderLayout(h);
    assert Frame(h, None, None) == EncodeHeader(h);
  }

  /** How file_recv answers. */
  method SendReply(sock: Socket, reply: Reply, now: seq<byte>) returns (ret: int)
    requires |now| == 16
    modifies sock
    ensures sock.inbox == old(sock.inbox)
    ensures ret == 0 ==> sock.outbox == old(sock.outbox) + Frame(ReplyHeader(reply, now), None, None)
    ensures ret != 0 ==> old(sock.outbox) <= sock.outbox < old(sock.outbox) + Frame(ReplyHeader(reply, now), None, None)
    ensures ret == 0 || (ret == -1 && Fails in old(sock.events)) || (ret == -2 && Moves(0) in old(sock.events))
    ensures Remain(sock.events, old(sock.events))
  {
    var msg := new Message();
    msg.Init(if reply.Ok? then CHUNK_OK else CHUNK_AGAIN, None);
    ret := msg.SendTo(sock, None, now);
  }

  /** How file_send takes the answer. */
  method RecvReply(sock: Socket) returns (ret: int, reply: Reply)
    modifies sock
    ensures sock.outbox == old(sock.outbox) && Remain(sock.events, old(sock.events))
    ensures ret == 0 ==> NextReply(old(sock.inbox)) == Some((reply, sock.inbox))
    ensures ret != 0 ==> ret < 0 && (Fails in old(sock.events) || NextReply(old(sock.inbox)).None?)
  {
    var msg := new Message();
    ret := msg.RecvFrom(sock, 0);
    reply := if msg.hdr.kind == CHUNK_OK then Ok else Again;
  }

  /** The answer read is the answer given, and no part of one is taken for an answer. */
  lemma ReplyRoundTrip(reply: Reply, now: seq<byte>, rest: seq<byte>, part: seq<byte>)
    requires |now| == 16 && part < Frame(ReplyHeader(reply, now), None, None)
    ensures NextReply(Frame(ReplyHeader(reply, now), None, None) + rest) == Some((reply, rest))
    ensures NextReply(part).None?
  {
    var m := Outgoing(ReplyHeader(reply, now), None, None);
    ParseOne(m, 0, rest);
    ParsePartial(m, 0, part);
  }
}

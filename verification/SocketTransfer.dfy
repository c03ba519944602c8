/** file_send and file_recv over a socket: with chunk_send, chunk_recv and the messages of the replies,
    for every way the kernel splits, interrupts or fails the calls. */
module SocketTransfer {
  import opened Common
  import opened ChunkCount
  import opened Chunks
  import opened Transfer
  import opened FileTransfer
  import opened Messages
  import opened ChunkMessages

  // ----- what a peer reads off a stream -----

  /** All whole replies at the head of a stream, and what follows them. */
  function ReadReplies(s: seq<byte>): (r: (seq<Reply>, seq<byte>))
    decreases |s|
  {
    match NextReply(s)
    case None => ([], s)
    case Some((reply, rest)) => var later := ReadReplies(rest); ([reply] + later.0, later.1)
  }

  /** All whole chunks at the head of a stream, and what follows them. */
  function ReadChunks(s: seq<byte>): (r: (seq<Chunk>, seq<byte>))
    decreases |s|
  {
    match NextChunk(s)
    case Whole(c, rest) => var later := ReadChunks(rest); ([c] + later.0, later.1)
    case _ => ([], s)
  }

  lemma ParseExtends(s: seq<byte>, t: seq<byte>, maxlen: nat)
    requires Parse(s, maxlen).Got?
    ensures var p := Parse(s, maxlen); Parse(s + t, maxlen) == Got(p.h, p.body, p.rest + t)
  {
    assert (s + t)[..HEADER_SIZE] == s[..HEADER_SIZE] && (s + t)[HEADER_SIZE..] == s[HEADER_SIZE..] + t;
  }

  lemma NextChunkIsParse(s: seq<byte>)
    ensures match Parse(s, MAX_CHUNK_MESSAGE)
            case Got(h, body, rest) =>
              if |body| < CHUNK_HEADER_SIZE then NextChunk(s).Short? else NextChunk(s) == Whole(ChunkOf(body), rest)
            case _ => !NextChunk(s).Whole?
  {
  }

  lemma {:induction false} RepliesChain(s: seq<byte>, t: seq<byte>)
    requires ReadReplies(s).1 == []
    ensures ReadReplies(s + t) == (ReadReplies(s).0 + ReadReplies(t).0, ReadReplies(t).1)
    decreases |s|
  {
    if NextReply(s).None? {
      assert s + t == t && ReadReplies(s).0 + ReadReplies(t).0 == ReadReplies(t).0;
    } else {
      ParseExtends(s, t, 0);
      var rest := NextReply(s).value.1;
      RepliesChain(rest, t);
      Regroup([NextReply(s).value.0], ReadReplies(rest).0, ReadReplies(t).0);
    }
  }

  lemma {:induction false} ChunksChain(s: seq<byte>, t: seq<byte>)
    requires ReadChunks(s).1 == []
    ensures ReadChunks(s + t) == (ReadChunks(s).0 + ReadChunks(t).0, ReadChunks(t).1)
    decreases |s|
  {
    NextChunkIsParse(s);
    assert NextChunk(s).Whole? ==> |NextChunk(s).rest| < |s|;
    hide NextChunk, Parse;
    if !NextChunk(s).Whole? {
      assert s + t == t && ReadChunks(s).0 + ReadChunks(t).0 == ReadChunks(t).0;
    } else {
      ParseExtends(s, t, MAX_CHUNK_MESSAGE);
      NextChunkIsParse(s + t);
      var rest := NextChunk(s).rest;
      ChunksChain(rest, t);
      Regroup([NextChunk(s).c], ReadChunks(rest).0, ReadChunks(t).0);
    }
  }

  lemma OneReply(reply: Reply, now: seq<byte>, part: seq<byte>)
    requires |now| == 16 && part < Frame(ReplyHeader(reply, now), None, None)
    ensures ReadReplies(Frame(ReplyHeader(reply, now), None, None)) == ([reply], [])
    ensures ReadReplies(part) == ([], part)
  {
    var frame := Frame(ReplyHeader(reply, now), None, None);
    ReplyRoundTrip(reply, now, [], part);
    assert frame + [] == frame && [reply] + [] == [reply];
    assert ReadReplies([]) == ([], []);
  }

  lemma OneChunk(c: Chunk, token: seq<byte>, pad: seq<byte>, now: seq<byte>, part: seq<byte>)
    requires ValidChunk(c) && |token| == 16 && |pad| == 4 && |now| == 16 && part < ChunkFrame(c, token, pad, now)
    ensures ReadChunks(ChunkFrame(c, token, pad, now)) == ([c], []) && ReadChunks(part) == ([], part)
  {
    var h := Header(CHUNK_HEADER_SIZE + |c.data|, SEND_CHUNK, token, pad, now);
    var m, frame := ChunkMessage(h, c), ChunkFrame(c, token, pad, now);
    assert CarriesChunk(m, c);
    assert Frame(m.h, m.extra, m.payload) == frame;
    CarrierIsSendable(m, c);
    WholeChunkNext(m, c, []);
    CutChunkNext(m, c, part);
    assert frame + [] == frame;
    assert ReadChunks([]) == ([], []) && [c] + [] == [c];
    hide NextChunk, ChunkFrame, CarriesChunk, Sendable;
  }

  // ----- receiving -----

  /** Fed the chunks `got`, and having sent `replied`, the loop has come from r0 to r. */
  ghost predicate RecvLeads(digest: seq<byte> -> Checksum, count: nat, r0: Receiver, got: seq<Chunk>,
                            replied: seq<Reply>, r: Receiver)
  {
    forall rest: seq<Chunk>, room: nat, loss: int ::
      RecvLoop(digest, count, r0, got + rest, |replied| + room, loss, [])
      == RecvLoop(digest, count, r, rest, room, loss, replied)
  }

  lemma RecvLeadsStart(digest: seq<byte> -> Checksum, count: nat, r0: Receiver)
    ensures RecvLeads(digest, count, r0, [], [], r0)
  {
    forall rest: seq<Chunk>, room: nat, loss: int
      ensures RecvLoop(digest, count, r0, [] + rest, 0 + room, loss, [])
              == RecvLoop(digest, count, r0, rest, room, loss, [])
    {
      assert [] + rest == rest;
    }
  }

  /** A chunk was judged and the reply to it sent. */
  lemma RecvLeadsOn(digest: seq<byte> -> Checksum, count: nat, r0: Receiver, got: seq<Chunk>,
                    replied: seq<Reply>, r: Receiver, c: Chunk)
    requires RecvLeads(digest, count, r0, got, replied, r) && r.phase.Receiving? && r.seqNo < count
    requires !Judge(digest, r, c).Mismatch?
    ensures match Judge(digest, r, c)
            case Refuse => RecvLeads(digest, count, r0, got + [c], replied + [Again], r)
            case Accept(q) => RecvLeads(digest, count, r0, got + [c], replied + [Ok], WriteChunk(q))
            case Mismatch(_) => true
  {
    var v := Judge(digest, r, c);
    var reply, next := if v.Refuse? then Again else Ok, if v.Refuse? then r else WriteChunk(v.rcv);
    forall rest: seq<Chunk>, room: nat, loss: int
      ensures RecvLoop(digest, count, r0, got + [c] + rest, |replied + [reply]| + room, loss, [])
              == RecvLoop(digest, count, next, rest, room, loss, replied + [reply])
    {
      Regroup(got, [c], rest);
      assert ([c] + rest)[1..] == rest;
      assert RecvLoop(digest, count, r0, got + ([c] + rest), |replied| + (room + 1), loss, [])
             == RecvLoop(digest, count, r, [c] + rest, room + 1, loss, replied);
      if v.Accept? {
        assert RecvLoop(digest, count, v.rcv, rest, room, loss, replied + [reply])
               == RecvLoop(digest, count, next, rest, room, loss, replied + [reply]);
      }
    }
  }

  /** The loop ends here: all chunks counted, no further chunk, a wrong number, or an unsent reply. */
  lemma RecvLeadsOut(digest: seq<byte> -> Checksum, count: nat, r0: Receiver, got: seq<Chunk>,
                     replied: seq<Reply>, r: Receiver, loss: int)
    requires RecvLeads(digest, count, r0, got, replied, r) && r.phase.Receiving?
    ensures RecvLoop(digest, count, r0, got, |replied|, loss, [])
            == RecvResult(r.(phase := Received(if r.seqNo >= count then 0 else loss)), replied)
    ensures forall c :: r.seqNo < count ==>
              RecvLoop(digest, count, r0, got + [c], |replied|, loss, [])
              == RecvResult(Unanswered(digest, r, c, loss), replied)
  {
    assert got + [] == got;
    assert RecvLoop(digest, count, r0, got + [], |replied| + 0, loss, [])
           == RecvLoop(digest, count, r, [], 0, loss, replied);
    forall c | r.seqNo < count
      ensures RecvLoop(digest, count, r0, got + [c], |replied|, loss, [])
              == RecvResult(Unanswered(digest, r, c, loss), replied)
    {
      assert RecvLoop(digest, count, r0, got + [c], |replied| + 0, loss, [])
             == RecvLoop(digest, count, r, [c], 0, loss, replied);
    }
  }

  /** `got` has been read off the stream and `rest` is left. */
  predicate Arrived(stream: seq<byte>, got: seq<Chunk>, rest: seq<byte>) {
    ReadChunks(stream) == (got + ReadChunks(rest).0, ReadChunks(rest).1)
  }

  /** The stream broke off inside a payload: the last of `got` is made of what the buffer held. */
  predicate Torn(stream: seq<byte>, got: seq<Chunk>, rest: seq<byte>) {
    got != [] && rest == [] && ReadChunks(stream).0 == Init(got) && NextChunk(ReadChunks(stream).1).CutShort?
  }

  predicate InOrder(stream: seq<byte>, got: seq<Chunk>, rest: seq<byte>) {
    Arrived(stream, got, rest) || Torn(stream, got, rest)
  }

  lemma NextArrives(stream: seq<byte>, got: seq<Chunk>, inbox: seq<byte>, c: Chunk, rest: seq<byte>)
    requires InOrder(stream, got, inbox)
    ensures NextChunk(inbox) == Whole(c, rest) ==> InOrder(stream, got + [c], rest)
    ensures NextChunk(inbox).CutShort? ==> InOrder(stream, got + [c], [])
    ensures !NextChunk(inbox).Whole? ==> ReadChunks(stream).0 <= got
    ensures NextChunk(inbox).Long? ==> ReadChunks(stream).1 == inbox
  {
    if Arrived(stream, got, inbox) {
      if NextChunk(inbox) == Whole(c, rest) {
        Regroup(got, [c], ReadChunks(rest).0);
      } else if !NextChunk(inbox).Whole? {
        assert got + [] == got == Init(got + [c]);
      }
    } else {
      assert NextChunk([]).NoHeader?;
    }
  }

  /** All of these replies, and nothing else, have been put on the stream since it was `was`. */
  predicate Replied(was: seq<byte>, now: seq<byte>, replied: seq<Reply>) {
    was <= now && ReadReplies(now[|was|..]) == (replied, [])
  }

  lemma RepliesGrow(was: seq<byte>, before: seq<byte>, replied: seq<Reply>, more: seq<byte>)
    requires Replied(was, before, replied)
    ensures was <= before + more
    ensures ReadReplies((before + more)[|was|..]) == (replied + ReadReplies(more).0, ReadReplies(more).1)
  {
    hide ReadReplies;
    var out := before[|was|..];
    RepliesChain(out, more);
    assert (before + more)[|was|..] == out + more;
  }

  /** Any bytes a clock or the stack may hold. */
  method AnyBytes(n: nat) returns (s: seq<byte>)
    ensures |s| == n
  {
    s := *;
    if |s| != n { s := seq(n, _ => 0); }
  }

  method Answer(sock: Socket, reply: Reply, ghost was: seq<byte>, ghost replied: seq<Reply>) returns (res: int)
    requires Replied(was, sock.outbox, replied)
    modifies sock
    ensures sock.inbox == old(sock.inbox) && Remain(sock.events, old(sock.events))
    ensures res == 0 ==> Replied(was, sock.outbox, replied + [reply])
    ensures res != 0 ==> res < 0 && was <= sock.outbox && ReadReplies(sock.outbox[|was|..]).0 == replied
    ensures res != 0 ==> Fails in old(sock.events) || Moves(0) in old(sock.events)
  {
    var now := AnyBytes(16);
    ghost var before, frame := sock.outbox, Frame(ReplyHeader(reply, now), None, None);
    res := SendReply(sock, reply, now);
    assert before + [] == before;
    ghost var more := sock.outbox[|before|..];
    assert sock.outbox == before + more && (res == 0 ==> more == frame) && (res != 0 ==> more < frame);
    OneReply(reply, now, if res == 0 then [] else more);
    RepliesGrow(was, before, replied, more);
    assert replied + [] == replied;
  }

  /** One call of chunk_recv on a stream of which `got` has arrived; `fails` if some call may fail. */
  method TakeChunk(sock: Socket, digest: seq<byte> -> Checksum, ghost stream: seq<byte>, ghost got: seq<Chunk>,
                   ghost fails: bool)
    returns (nbytes: int, c: Chunk, crashes: bool)
    requires !fails ==> NoFailure(sock.events) && InOrder(stream, got, sock.inbox)
    modifies sock
    ensures sock.outbox == old(sock.outbox) && Remain(sock.events, old(sock.events))
    ensures crashes && !fails ==> NextChunk(ReadChunks(stream).1).Long?
    ensures crashes || !Judged(nbytes) ==> nbytes < 0 && (!fails ==> ReadChunks(stream).0 <= got)
    ensures !crashes && Judged(nbytes) ==>
              |sock.inbox| < |old(sock.inbox)| && (nbytes == -3 <==> !Intact(digest, c))
              && (!fails ==> InOrder(stream, got + [c], sock.inbox))
  {
    nbytes, c, crashes := ChunkRecv(sock, digest);
    if !fails { NextArrives(stream, got, old(sock.inbox), c, sock.inbox); }
  }

  lemma NothingYet(stream: seq<byte>, was: seq<byte>)
    ensures InOrder(stream, [], stream) && Replied(was, was, [])
  {
    assert [] + ReadChunks(stream).0 == ReadChunks(stream).0;
    assert was[|was|..] == [] && NextReply([]).None?;
  }

  /** The chunks on the stream, in order; at most one more, torn off inside its payload. */
  predicate Delivered(stream: seq<byte>, got: seq<Chunk>, all: bool) {
    var whole := ReadChunks(stream).0;
    (got <= whole || (|got| == |whole| + 1 && Init(got) == whole)) && (all ==> |whole| <= |got|)
  }

  lemma InOrderIsDelivered(stream: seq<byte>, got: seq<Chunk>, inbox: seq<byte>)
    requires InOrder(stream, got, inbox)
    ensures forall all :: (all ==> ReadChunks(stream).0 <= got) ==> Delivered(stream, got, all)
  {
  }

  /** file_recv: on whatever the stream holds and whatever the kernel does, it does what RecvLoop does
      with the chunks `got` that reach it, the number of replies it gets out whole, and the result
      `loss` of the call that ended it (0 if none did). Unless a call failed, these are the chunks on
      the stream in order, and all of them if the end of the stream is what ended it. */
  method RecvFile(sock: Socket, digest: seq<byte> -> Checksum, file: DestFile?, count: nat)
    returns (stats: Stats, crashes: bool, ghost got: seq<Chunk>, ghost loss: int)
    requires file != null ==> file.off == 0
    modifies sock, file
    ensures file == null ==> stats == Stats(0, -1) && sock.outbox == old(sock.outbox)
    ensures file != null ==>
              old(sock.outbox) <= sock.outbox &&
              var replied := ReadReplies(sock.outbox[|old(sock.outbox)|..]).0;
              var res := RecvLoop(digest, count, StartReceiver(old(file.bytes)), got, |replied|, loss, []);
              res.replied == replied && res.rcv.phase.Received?
              && file.bytes == res.rcv.file && stats == Stats(res.rcv.seqNo, res.rcv.phase.code)
    ensures NoFailure(old(sock.events)) ==>
              Delivered(old(sock.inbox), got, loss != 0 && Moves(0) !in old(sock.events))
              && (crashes ==> NextChunk(ReadChunks(old(sock.inbox)).1).Long?)
  {
    hide ReadChunks, ReadReplies, NextChunk, InOrder, Delivered, RecvLeads, RecvLoop, WriteAt, Intact;
    crashes, got, loss := false, [], 0;
    NothingYet(sock.inbox, sock.outbox);
    if file == null {
      InOrderIsDelivered(sock.inbox, [], sock.inbox);
      return Stats(0, -1), false, [], 0;
    }
    ghost var stream, was, r0, replied: seq<Reply> := sock.inbox, sock.outbox, StartReceiver(file.bytes), [];
    ghost var fails := Fails in sock.events;
    var seqNo: nat := 0;
    RecvLeadsStart(digest, count, r0);
    while seqNo < count
      invariant RecvLeads(digest, count, r0, got, replied, Receiver(seqNo, file.off, file.bytes, Receiving))
      invariant Replied(was, sock.outbox, replied) && Remain(sock.events, old(sock.events)) && loss == 0
      invariant !fails ==> InOrder(stream, got, sock.inbox)
      decreases |sock.inbox|
    {
      ghost var r := Receiver(seqNo, file.off, file.bytes, Receiving);
      var nbytes, c;
      if !fails { InOrderIsDelivered(stream, got, sock.inbox); }
      nbytes, c, crashes := TakeChunk(sock, digest, stream, got, fails);
      if crashes || !Judged(nbytes) {
        RecvLeadsOut(digest, count, r0, got, replied, r, nbytes);
        return Stats(seqNo, nbytes), crashes, got, nbytes;
      }
      if !fails { InOrderIsDelivered(stream, got + [c], sock.inbox); }
      if !Judge(digest, r, c).Mismatch? { RecvLeadsOn(digest, count, r0, got, replied, r, c); }
      var res;
      if nbytes == -3 {
        res := Answer(sock, Again, was, replied);
        if res < 0 {
          RecvLeadsOut(digest, count, r0, got, replied, r, res);
          return Stats(seqNo, res), false, got + [c], res;
        }
        got, replied := got + [c], replied + [Again];
        continue;
      }
      IntactFits(digest, c);
      if seqNo == 0 && c.hdr.seqNo > 0 {
        seqNo := c.hdr.seqNo;
        file.Seek(seqNo * CHUNK_SIZE);
      }
      if seqNo != c.hdr.seqNo {
        RecvLeadsOut(digest, count, r0, got, replied, r, 0);
        return Stats(seqNo, -4), false, got + [c], 0;
      }
      res := Answer(sock, Ok, was, replied);
      if res < 0 {
        RecvLeadsOut(digest, count, r0, got, replied, r, res);
        return Stats(seqNo, res), false, got + [c], res;
      }
      file.Write(c.data[..c.hdr.length]);
      seqNo := seqNo + 1;
      assert WriteChunk(Judge(digest, r, c).rcv) == Receiver(seqNo, file.off, file.bytes, Receiving);
      got, replied := got + [c], replied + [Ok];
    }
    RecvLeadsOut(digest, count, r0, got, replied, Receiver(seqNo, file.off, file.bytes, Receiving), 0);
    if !fails { InOrderIsDelivered(stream, got, sock.inbox); }
    return Stats(seqNo, 0), false, got, 0;
  }

  // ----- sending -----

  /** Fed `replies`, and having sent the chunks `sent`, the loop has come from s0 to s. */
  ghost predicate SendLeads(j: Job, s0: Sender, replies: seq<Reply>, sent: seq<Chunk>, s: Sender) {
    forall rest: seq<Reply>, room: nat ::
      SendLoop(j, s0, replies + rest, |sent| + room, []) == SendLoop(j, s, rest, room, sent)
  }

  lemma SendLeadsStart(j: Job, s0: Sender)
    ensures SendLeads(j, s0, [], [], s0)
  {
    forall rest: seq<Reply>, room: nat
      ensures SendLoop(j, s0, [] + rest, 0 + room, []) == SendLoop(j, s0, rest, room, [])
    {
      assert [] + rest == rest;
    }
  }

  lemma SendLeadsRead(j: Job, s0: Sender, replies: seq<Reply>, sent: seq<Chunk>, s: Sender)
    requires SendLeads(j, s0, replies, sent, s) && s.phase.Reading?
    ensures SendLeads(j, s0, replies, sent, ReadChunk(j, s))
  {
    forall rest: seq<Reply>, room: nat
      ensures SendLoop(j, s0, replies + rest, |sent| + room, []) == SendLoop(j, ReadChunk(j, s), rest, room, sent)
    {
      assert SendLoop(j, s0, replies + rest, |sent| + room, []) == SendLoop(j, s, rest, room, sent);
    }
  }

  lemma SendLeadsSent(j: Job, s0: Sender, replies: seq<Reply>, sent: seq<Chunk>, s: Sender)
    requires SendLeads(j, s0, replies, sent, s) && s.phase.Sending?
    ensures SendLeads(j, s0, replies, sent + [s.phase.c], s.(phase := Awaiting(s.phase.c)))
  {
    var next, more := s.(phase := Awaiting(s.phase.c)), sent + [s.phase.c];
    forall rest: seq<Reply>, room: nat
      ensures SendLoop(j, s0, replies + rest, |more| + room, []) == SendLoop(j, next, rest, room, more)
    {
      assert |sent| + (room + 1) == |more| + room;
      assert SendLoop(j, s0, replies + rest, |sent| + (room + 1), []) == SendLoop(j, s, rest, room + 1, sent);
    }
  }

  lemma SendLeadsAnswered(j: Job, s0: Sender, replies: seq<Reply>, sent: seq<Chunk>, s: Sender, reply: Reply)
    requires SendLeads(j, s0, replies, sent, s) && s.phase.Awaiting?
    ensures SendLeads(j, s0, replies + [reply], sent, OnReply(s, reply))
  {
    forall rest: seq<Reply>, room: nat
      ensures SendLoop(j, s0, replies + [reply] + rest, |sent| + room, [])
              == SendLoop(j, OnReply(s, reply), rest, room, sent)
    {
      Regroup(replies, [reply], rest);
      assert ([reply] + rest)[1..] == rest;
      assert SendLoop(j, s0, replies + ([reply] + rest), |sent| + room, [])
             == SendLoop(j, s, [reply] + rest, room, sent);
    }
  }

  /** The loop ends here: it has stopped, or the chunk does not get out, or no reply comes. */
  lemma SendLeadsOut(j: Job, s0: Sender, replies: seq<Reply>, sent: seq<Chunk>, s: Sender)
    requires SendLeads(j, s0, replies, sent, s) && !s.phase.Reading?
    ensures SendLoop(j, s0, replies, |sent|, [])
            == SendResult(match s.phase
                          case Sending(_) => s.(phase := Sent(-5))
                          case Awaiting(_) => s.(phase := Sent(-6))
                          case _ => s, sent)
  {
    assert replies + [] == replies;
    assert SendLoop(j, s0, replies + [], |sent| + 0, []) == SendLoop(j, s, [], 0, sent);
  }

  /** All of these chunks, and nothing else, have been put on the stream since it was `was`. */
  predicate SentSince(was: seq<byte>, now: seq<byte>, sent: seq<Chunk>) {
    was <= now && ReadChunks(now[|was|..]) == (sent, [])
  }

  lemma ChunksGrow(was: seq<byte>, before: seq<byte>, sent: seq<Chunk>, more: seq<byte>)
    requires SentSince(was, before, sent)
    ensures was <= before + more
    ensures ReadChunks((before + more)[|was|..]) == (sent + ReadChunks(more).0, ReadChunks(more).1)
  {
    hide ReadChunks;
    var out := before[|was|..];
    ChunksChain(out, more);
    assert (before + more)[|was|..] == out + more;
  }

  method PutChunk(sock: Socket, c: Chunk, ghost was: seq<byte>, ghost sent: seq<Chunk>) returns (res: int)
    requires ValidChunk(c) && SentSince(was, sock.outbox, sent)
    modifies sock
    ensures sock.inbox == old(sock.inbox) && Remain(sock.events, old(sock.events))
    ensures res >= 0 ==> SentSince(was, sock.outbox, sent + [c])
    ensures res < 0 ==> was <= sock.outbox && ReadChunks(sock.outbox[|was|..]).0 == sent
    ensures res < 0 ==> Fails in old(sock.events) || Moves(0) in old(sock.events)
  {
    hide ReadChunks, NextChunk, ValidChunk;
    var token := AnyBytes(16);
    var pad := AnyBytes(4);
    var now := AnyBytes(16);
    ghost var before, frame := sock.outbox, ChunkFrame(c, token, pad, now);
    assert frame != [];
    hide ChunkFrame;
    res := ChunkSend(c, sock, token, pad, now);
    ghost var more := sock.outbox[|before|..];
    assert sock.outbox == before + more && (res >= 0 ==> more == frame) && (res < 0 ==> more < frame);
    OneChunk(c, token, pad, now, if res >= 0 then [] else more);
    ChunksGrow(was, before, sent, more);
    assert sent + [] == sent;
  }

  /** `replies` have been read off the stream and `rest` is left. */
  predicate Answered(stream: seq<byte>, replies: seq<Reply>, rest: seq<byte>) {
    ReadReplies(stream) == (replies + ReadReplies(rest).0, ReadReplies(rest).1)
  }

  lemma NothingSent(stream: seq<byte>, was: seq<byte>)
    ensures Answered(stream, [], stream) && SentSince(was, was, [])
  {
    assert [] + ReadReplies(stream).0 == ReadReplies(stream).0;
    assert was[|was|..] == [] && NextChunk([]).NoHeader?;
  }

  method TakeReply(sock: Socket, ghost stream: seq<byte>, ghost replies: seq<Reply>) returns (res: int, reply: Reply)
    requires Answered(stream, replies, sock.inbox)
    modifies sock
    ensures sock.outbox == old(sock.outbox) && Remain(sock.events, old(sock.events))
    ensures res == 0 ==> Answered(stream, replies + [reply], sock.inbox) && |sock.inbox| < |old(sock.inbox)|
    ensures res != 0 ==> res < 0 && (Fails in old(sock.events) || ReadReplies(stream).0 == replies)
  {
    ghost var later := ReadReplies(sock.inbox);
    res, reply := RecvReply(sock);
    if res == 0 {
      Regroup(replies, [reply], ReadReplies(sock.inbox).0);
    } else {
      assert replies + [] == replies;
    }
  }

  /** A call of file_send: what it transfers, where it starts, and the two streams as it found them. */
  datatype SendCall = SendCall(j: Job, s0: Sender, inbox: seq<byte>, outbox: seq<byte>)

  /** The call has come to state s; `inbox` and `outbox` are the streams now. */
  ghost predicate HasCome(call: SendCall, inbox: seq<byte>, outbox: seq<byte>, replies: seq<Reply>,
                          sent: seq<Chunk>, s: Sender)
  {
    && SendLeads(call.j, call.s0, replies, sent, s)
    && SentSince(call.outbox, outbox, sent) && Answered(call.inbox, replies, inbox)
  }

  /** The call has ended in state s: as SendLoop does with the replies that reached it and the number
      of chunks it got out whole. The replies are those on the stream in order. */
  predicate HasEnded(call: SendCall, outbox: seq<byte>, replies: seq<Reply>, s: Sender) {
    call.outbox <= outbox && replies <= ReadReplies(call.inbox).0 && s.phase.Sent? &&
    var sent := ReadChunks(outbox[|call.outbox|..]).0;
    SendLoop(call.j, call.s0, replies, |sent|, []) == SendResult(s, sent)
  }

  /** Why a call ends early. */
  predicate Causes(call: SendCall, replies: seq<Reply>, code: int, events: seq<Event>) {
    && (code == -5 ==> Fails in events || Moves(0) in events)
    && (code == -6 ==> Fails in events || replies == ReadReplies(call.inbox).0)
  }

  lemma SendEnds(call: SendCall, inbox: seq<byte>, outbox: seq<byte>, replies: seq<Reply>, sent: seq<Chunk>,
                 s: Sender, end: Sender)
    requires SendLeads(call.j, call.s0, replies, sent, s) && Answered(call.inbox, replies, inbox)
    requires call.outbox <= outbox && ReadChunks(outbox[|call.outbox|..]).0 == sent
    requires match s.phase
             case Sending(_) => end == s.(phase := Sent(-5))
             case Awaiting(_) => end == s.(phase := Sent(-6))
             case Sent(_) => end == s
             case Reading => false
    ensures HasEnded(call, outbox, replies, end)
  {
    SendLeadsOut(call.j, call.s0, replies, sent, s);
  }

  /** The inner loop: one chunk is sent until it is accepted. */
  method SendUntilOk(sock: Socket, c: Chunk, ghost call: SendCall, ghost replies0: seq<Reply>,
                     ghost sent0: seq<Chunk>, ghost s: Sender)
    returns (code: int, ghost replies: seq<Reply>, ghost sent: seq<Chunk>)
    requires HasCome(call, sock.inbox, sock.outbox, replies0, sent0, s) && s.phase == Sending(c) && ValidChunk(c)
    modifies sock
    ensures Remain(sock.events, old(sock.events))
    ensures code == 0 ==> HasCome(call, sock.inbox, sock.outbox, replies, sent, OnReply(s.(phase := Awaiting(c)), Ok))
                          && |sock.inbox| < |old(sock.inbox)|
    ensures code != 0 ==> HasEnded(call, sock.outbox, replies, s.(phase := Sent(code)))
                          && (code == -5 || code == -6) && Causes(call, replies, code, old(sock.events))
  {
    hide ReadChunks, ReadReplies, SendLeads, SendLoop, ValidChunk;
    replies, sent := replies0, sent0;
    ghost var waiting, before := s.(phase := Awaiting(c)), |sock.inbox|;
    var reply := Again;
    while reply != Ok
      invariant HasCome(call, sock.inbox, sock.outbox, replies, sent, if reply == Ok then OnReply(waiting, Ok) else s)
      invariant |sock.inbox| + (if reply == Ok then 1 else 0) <= before && Remain(sock.events, old(sock.events))
      decreases |sock.inbox|, reply != Ok
    {
      var res := PutChunk(sock, c, call.outbox, sent);
      if res < 0 {
        SendEnds(call, sock.inbox, sock.outbox, replies, sent, s, s.(phase := Sent(-5)));
        return -5, replies, sent;
      }
      SendLeadsSent(call.j, call.s0, replies, sent, s);
      sent := sent + [c];
      ghost var unread := sock.inbox;
      res, reply := TakeReply(sock, call.inbox, replies);
      if res < 0 {
        SendEnds(call, unread, sock.outbox, replies, sent, waiting, s.(phase := Sent(-6)));
        return -6, replies, sent;
      }
      SendLeadsAnswered(call.j, call.s0, replies, sent, waiting, reply);
      replies := replies + [reply];
    }
    return 0, replies, sent;
  }

  lemma CallBegins(j: Job, s0: Sender, inbox: seq<byte>, outbox: seq<byte>)
    ensures HasCome(SendCall(j, s0, inbox, outbox), inbox, outbox, [], [], s0)
  {
    SendLeadsStart(j, s0);
    NothingSent(inbox, outbox);
  }

  /** Reading goes on to the next chunk, or ends the call. */
  lemma CallReads(call: SendCall, inbox: seq<byte>, outbox: seq<byte>, replies: seq<Reply>, sent: seq<Chunk>,
                  top: Sender)
    requires HasCome(call, inbox, outbox, replies, sent, top) && top.phase.Reading?
    ensures var s := ReadChunk(call.j, top);
            if s.phase.Sent? then HasEnded(call, outbox, replies, s) else HasCome(call, inbox, outbox, replies, sent, s)
    ensures top.seqNo >= call.j.count ==> HasEnded(call, outbox, replies, top.(phase := Sent(0)))
  {
    SendLeadsRead(call.j, call.s0, replies, sent, top);
    var s := ReadChunk(call.j, top);
    if s.phase.Sent? { SendEnds(call, inbox, outbox, replies, sent, s, s); }
  }

  lemma NumberFits(size: nat, seqNo: nat)
    requires seqNo < CountedChunks(size) && 2 * size < Pow256(8)
    ensures seqNo < Pow256(8)
  {
    FloatAtMostDouble(size);
  }

  /** Top of the loop of file_send: the next chunk, as it fits the wire format, or none to be read. */
  method NextToSend(file: SourceFile, digest: seq<byte> -> Checksum, seqNo: nat, start: nat)
    returns (next: Option<Chunk>)
    requires start == file.pos && seqNo < CountedChunks(|file.bytes|)
    requires 2 * |file.bytes| < Pow256(8) && forall data :: |digest(data)| == 32
    modifies file
    ensures ReadChunk(JobOf(file.bytes, digest), Sender(seqNo, start, old(file.pos), Reading))
            == Sender(seqNo, start, file.pos, if next.None? then Sent(-1) else Sending(next.value))
    ensures next.Some? ==> ValidChunk(next.value) && file.pos == start + next.value.hdr.length
  {
    NumberFits(|file.bytes|, seqNo);
    hide ToFloat, Pow256;
    var data := file.Read();
    if data == [] { return None; }
    return Some(Chunk(ChunkHdr(seqNo, start, start + |data| - 1, |data|, digest(data)), data));
  }

  /** file_send: on whatever replies the stream holds and whatever the kernel does, it does what
      SendLoop does with the replies that reach it and the number of chunks it gets out whole. The
      replies are those on the stream in order, also when a call fails. The file fits an off_t. */
  method SendFile(sock: Socket, digest: seq<byte> -> Checksum, file: SourceFile?, startChunk: nat)
    returns (stats: Stats, ghost replies: seq<Reply>, ghost end: Sender)
    requires file != null ==> file.pos == 0 && 2 * |file.bytes| < Pow256(8)
    requires forall data :: |digest(data)| == 32
    modifies sock, file
    ensures file == null ==> stats == Stats(0, -1) && sock.outbox == old(sock.outbox)
    ensures file != null ==>
              var j, s0 := JobOf(file.bytes, digest), StartSender(startChunk);
              var call := SendCall(j, s0, old(sock.inbox), old(sock.outbox));
              HasEnded(call, sock.outbox, replies, end) && stats == SenderStats(end)
              && Causes(call, replies, stats.code, old(sock.events))
  {
    hide HasCome, HasEnded, ValidChunk, ReadChunk, CountedChunks;
    replies := [];
    if file == null { return Stats(0, -1), [], StartSender(0); }
    ghost var j, sent: seq<Chunk> := JobOf(file.bytes, digest), [];
    ghost var call := SendCall(j, StartSender(startChunk), sock.inbox, sock.outbox);
    var count, start: nat, seqNo: nat := CountedChunks(|file.bytes|), 0, 0;
    if startChunk > 0 {
      file.Seek(startChunk * CHUNK_SIZE);
      start, seqNo := startChunk * CHUNK_SIZE, startChunk;
    }
    CallBegins(j, call.s0, sock.inbox, sock.outbox);
    while seqNo < count
      invariant HasCome(call, sock.inbox, sock.outbox, replies, sent, Sender(seqNo, start, file.pos, Reading))
      invariant start == file.pos && Remain(sock.events, old(sock.events))
      decreases |sock.inbox|
    {
      CallReads(call, sock.inbox, sock.outbox, replies, sent, Sender(seqNo, start, file.pos, Reading));
      var next := NextToSend(file, digest, seqNo, start);
      if next.None? { return Stats(seqNo + 1, -1), replies, Sender(seqNo, start, file.pos, Sent(-1)); }
      ghost var s := Sender(seqNo, start, file.pos, Sending(next.value));
      var code;
      code, replies, sent := SendUntilOk(sock, next.value, call, replies, sent, s);
      if code != 0 { return Stats((seqNo + SIZE_T - 1) % SIZE_T, code), replies, s.(phase := Sent(code)); }
      start := start + next.value.hdr.length;
      seqNo := seqNo + 1;
    }
    ghost var end' := Sender(seqNo, start, file.pos, Sent(0));
    CallReads(call, sock.inbox, sock.outbox, replies, sent, end'.(phase := Reading));
    return Stats(seqNo, 0), replies, end';
  }
}

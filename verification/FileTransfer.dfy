/** file_send and file_recv as loops over open files and one end of a connection each, and the
    proof that in every run of the step system each end computes what its loop computes. */
module FileTransfer {
  import opened Common
  import opened ChunkCount
  import opened Chunks
  import opened Transfer
  import opened TransferRuns

  class SourceFile {
    const bytes: seq<byte>
    var pos: nat

    constructor (bytes: seq<byte>)
      ensures this.bytes == bytes && pos == 0
    {
      this.bytes := bytes;
      pos := 0;
    }

    method Seek(off: nat)
      modifies this
      ensures pos == off
    {
      pos := off;
    }

    method Read() returns (data: seq<byte>)
      modifies this
      ensures data == if old(pos) >= |bytes| then [] else bytes[old(pos)..Min(old(pos) + CHUNK_SIZE, |bytes|)]
      ensures pos == old(pos) + |data|
    {
      data := if pos >= |bytes| then [] else bytes[pos..Min(pos + CHUNK_SIZE, |bytes|)];
      pos := pos + |data|;
    }
  }

  /** A file opened for writing, created if missing and not truncated. */
  class DestFile {
    var bytes: seq<byte>
    var off: nat

    constructor (bytes: seq<byte>)
      ensures this.bytes == bytes && off == 0
    {
      this.bytes, off := bytes, 0;
    }

    method Seek(off: nat)
      modifies this
      ensures this.off == off && bytes == old(bytes)
    {
      this.off := off;
    }

    method Write(data: seq<byte>)
      modifies this
      ensures bytes == WriteAt(old(bytes), old(off), data) && off == old(off) + |data|
    {
      bytes := WriteAt(bytes, off, data);
      off := off + |data|;
    }
  }

  /** The sender's end: the replies that will still arrive, how many chunks the connection will
      still take, and the chunks put on it. */
  class SenderEnd {
    var replies: seq<Reply>
    var room: nat
    var sent: seq<Chunk>

    method SendChunk(c: Chunk) returns (ok: bool)
      modifies this
      ensures ok <==> old(room) > 0
      ensures replies == old(replies)
      ensures ok ==> room == old(room) - 1 && sent == old(sent) + [c]
      ensures !ok ==> room == 0 && sent == old(sent)
    {
      ok := room > 0;
      if ok { room, sent := room - 1, sent + [c]; }
    }

    method RecvReply() returns (ok: bool, reply: Reply)
      modifies this
      ensures ok <==> old(replies) != []
      ensures room == old(room) && sent == old(sent)
      ensures if ok then reply == old(replies)[0] && replies == old(replies)[1..] else replies == []
    {
      ok, reply := replies != [], Again;
      if ok { reply, replies := replies[0], replies[1..]; }
    }
  }

  /** The receiver's end: the chunks that will still arrive, how many replies the connection will
      still take, and the error both calls report once it is lost. */
  class ReceiverEnd {
    var chunks: seq<Chunk>
    var room: nat
    var replied: seq<Reply>
    var loss: int

    constructor (chunks: seq<Chunk>, room: nat, loss: int, replied: seq<Reply>)
      ensures this.chunks == chunks && this.room == room && this.loss == loss && this.replied == replied
    {
      this.chunks, this.room, this.loss, this.replied := chunks, room, loss, replied;
    }

    method RecvChunk() returns (ok: bool, c: Chunk)
      modifies this
      ensures ok <==> old(chunks) != []
      ensures room == old(room) && replied == old(replied) && loss == old(loss)
      ensures if ok then c == old(chunks)[0] && chunks == old(chunks)[1..] else chunks == []
    {
      ok := chunks != [];
      if ok { c, chunks := chunks[0], chunks[1..]; } else { c := Chunk(ChunkHdr(0, 0, 0, 0, []), []); }
    }

    method SendReply(reply: Reply) returns (ok: bool)
      modifies this
      ensures ok <==> old(room) > 0
      ensures chunks == old(chunks) && loss == old(loss)
      ensures ok ==> room == old(room) - 1 && replied == old(replied) + [reply]
      ensures !ok ==> room == 0 && replied == old(replied)
    {
      ok := room > 0;
      if ok { room, replied := room - 1, replied + [reply]; }
    }
  }

  // ----- what the loops compute -----

  datatype SendResult = SendResult(snd: Sender, sent: seq<Chunk>)

  function PhaseRank(p: SenderPhase): nat {
    match p case Reading => 3 case Sending(_) => 2 case Awaiting(_) => 1 case Sent(_) => 0
  }

  function SendLoop(j: Job, s: Sender, replies: seq<Reply>, room: nat, sent: seq<Chunk>): SendResult
    decreases |replies|, PhaseRank(s.phase)
  {
    match s.phase
    case Sent(_) => SendResult(s, sent)
    case Reading => SendLoop(j, ReadChunk(j, s), replies, room, sent)
    case Sending(c) =>
      if room == 0 then SendResult(s.(phase := Sent(-5)), sent)
      else SendLoop(j, s.(phase := Awaiting(c)), replies, room - 1, sent + [c])
    case Awaiting(_) =>
      if replies == [] then SendResult(s.(phase := Sent(-6)), sent)
      else SendLoop(j, OnReply(s, replies[0]), replies[1..], room, sent)
  }

  datatype Stats = Stats(last: nat, code: int)

  const SIZE_T: nat := 0x1_0000_0000_0000_0000

  /** Statistics returned by the sender; `seq - 1` is computed in an unsigned 64-bit type. */
  function SenderStats(s: Sender): Stats
    requires s.phase.Sent?
  {
    if s.phase.code == 0 then Stats(s.seqNo, 0)
    else if s.phase.code == -1 then Stats(s.seqNo + 1, -1)
    else Stats((s.seqNo + SIZE_T - 1) % SIZE_T, s.phase.code)
  }

  datatype RecvResult = RecvResult(rcv: Receiver, replied: seq<Reply>)

  function RecvLoop(digest: seq<byte> -> Checksum, count: nat, r: Receiver, chunks: seq<Chunk>, room: nat, loss: int,
                    replied: seq<Reply>): RecvResult
    decreases |chunks|, if r.phase.Writing? then 1 else 0
  {
    match r.phase
    case Received(_) => RecvResult(r, replied)
    case Writing(_) => RecvLoop(digest, count, WriteChunk(r), chunks, room, loss, replied)
    case Receiving =>
      if r.seqNo >= count then RecvResult(r.(phase := Received(0)), replied)
      else if chunks == [] then RecvResult(r.(phase := Received(loss)), replied)
      else
        match Judge(digest, r, chunks[0])
        case Mismatch(q) => RecvResult(q, replied)
        case Refuse =>
          if room == 0 then RecvResult(Unanswered(digest, r, chunks[0], loss), replied)
          else RecvLoop(digest, count, r, chunks[1..], room - 1, loss, replied + [Again])
        case Accept(q) =>
          if room == 0 then RecvResult(Unanswered(digest, r, chunks[0], loss), replied)
          else RecvLoop(digest, count, q, chunks[1..], room - 1, loss, replied + [Ok])
  }

  // ----- the loops -----

  /** The loop of file_send, from any chunk number. */
  method SendChunks(end: SenderEnd, j: Job, file: SourceFile, firstByte: nat, first: nat) returns (stats: Stats)
    requires file.bytes == j.src
    modifies end, file
    ensures var res := SendLoop(j, Sender(first, firstByte, old(file.pos), Reading),
                                old(end.replies), old(end.room), old(end.sent));
            res.snd.phase.Sent? && end.sent == res.sent && stats == SenderStats(res.snd)
  {
    ghost var res := SendLoop(j, Sender(first, firstByte, file.pos, Reading), end.replies, end.room, end.sent);
    var count, digest := j.count, j.digest;
    var start: nat, seqNo: nat := firstByte, first;
    while seqNo < count
      invariant SendLoop(j, Sender(seqNo, start, file.pos, Reading), end.replies, end.room, end.sent) == res
      decreases |end.replies|
    {
      ghost var s := ReadChunk(j, Sender(seqNo, start, file.pos, Reading));
      var data := file.Read();
      if data == [] { return Stats(seqNo + 1, -1); }
      var c := Chunk(ChunkHdr(seqNo, start, start + |data| - 1, |data|, digest(data)), data);
      assert s == Sender(seqNo, start, file.pos, Sending(c));
      ghost var waiting, before := s.(phase := Awaiting(c)), |end.replies|;
      var reply := Again;
      while reply != Ok
        invariant file.pos == s.pos
        invariant |end.replies| + (if reply == Ok then 1 else 0) <= before
        invariant res == SendLoop(j, if reply == Ok then OnReply(waiting, Ok) else s, end.replies, end.room, end.sent)
        decreases |end.replies|, reply != Ok
      {
        var ok := end.SendChunk(c);
        if !ok { return Stats((seqNo + SIZE_T - 1) % SIZE_T, -5); }
        ok, reply := end.RecvReply();
        if !ok { return Stats((seqNo + SIZE_T - 1) % SIZE_T, -6); }
      }
      start := start + |data|;
      seqNo := seqNo + 1;
    }
    return Stats(seqNo, 0);
  }

  /** `file` is null when the file cannot be examined or opened. */
  method FileSend(end: SenderEnd, digest: seq<byte> -> Checksum, file: SourceFile?, startChunk: nat)
    returns (stats: Stats)
    requires file != null ==> file.pos == 0
    modifies end, file
    ensures file == null ==> stats == Stats(0, -1) && end.sent == old(end.sent)
    ensures file != null ==>
              var j := Job(file.bytes, CountedChunks(|file.bytes|), digest);
              var res := SendLoop(j, StartSender(startChunk), old(end.replies), old(end.room), old(end.sent));
              res.snd.phase.Sent? && end.sent == res.sent && stats == SenderStats(res.snd)
  {
    if file == null { return Stats(0, -1); }
    var j := Job(file.bytes, CountedChunks(|file.bytes|), digest);
    var start: nat, seqNo: nat := 0, 0;
    if startChunk > 0 {
      file.Seek(startChunk * CHUNK_SIZE);
      start, seqNo := startChunk * CHUNK_SIZE, startChunk;
    }
    stats := SendChunks(end, j, file, start, seqNo);
  }

  /** `file` is null when the destination cannot be opened. */
  method FileRecv(end: ReceiverEnd, digest: seq<byte> -> Checksum, file: DestFile?, count: nat)
    returns (stats: Stats)
    requires file != null ==> file.off == 0
    modifies end, file
    ensures file == null ==> stats == Stats(0, -1) && end.replied == old(end.replied)
    ensures file != null ==>
              var res := RecvLoop(digest, count, StartReceiver(old(file.bytes)),
                                  old(end.chunks), old(end.room), old(end.loss), old(end.replied));
              res.rcv.phase.Received? && end.replied == res.replied
              && file.bytes == res.rcv.file && stats == Stats(res.rcv.seqNo, res.rcv.phase.code)
  {
    hide WriteAt, Intact;
    if file == null { return Stats(0, -1); }
    ghost var res := RecvLoop(digest, count, StartReceiver(file.bytes), end.chunks, end.room, end.loss, end.replied);
    var seqNo: nat := 0;
    while seqNo < count
      invariant end.loss == old(end.loss)
      invariant RecvLoop(digest, count, Receiver(seqNo, file.off, file.bytes, Receiving),
                         end.chunks, end.room, end.loss, end.replied) == res
      decreases |end.chunks|
    {
      var ok, c := end.RecvChunk();
      if !ok { return Stats(seqNo, end.loss); }
      if !Intact(digest, c) {
        var sent := end.SendReply(Again);
        if !sent { return Stats(seqNo, end.loss); }
        continue;
      }
      IntactFits(digest, c);
      if seqNo == 0 && c.hdr.seqNo > 0 {
        seqNo := c.hdr.seqNo;
        file.Seek(seqNo * CHUNK_SIZE);
      }
      if seqNo != c.hdr.seqNo { return Stats(seqNo, -4); }
      var sent := end.SendReply(Ok);
      if !sent { return Stats(seqNo, end.loss); }
      file.Write(c.data[..c.hdr.length]);
      seqNo := seqNo + 1;
    }
    return Stats(seqNo, 0);
  }

  // ----- each end of the step system runs its loop -----

  /** The chunks the receiver takes in a run. */
  function Taken(j: Job, a: System, steps: seq<Step>): seq<Chunk>
    requires CanRun(j, a, steps)
    decreases steps
  {
    if steps == [] then []
    else (if steps[0].TakeChunk? || steps[0].ReplyFails? then [a.toRcv[0]] else [])
         + Taken(j, Apply(j, a, steps[0]), steps[1..])
  }

  /** How many replies the connection takes in a run. */
  function Answers(steps: seq<Step>): nat {
    if steps == [] then 0 else (if steps[0].TakeChunk? then 1 else 0) + Answers(steps[1..])
  }

  lemma {:induction false} StoppedReceiverIsIdle(j: Job, a: System, steps: seq<Step>)
    requires CanRun(j, a, steps) && a.rcv.phase.Received?
    ensures Taken(j, a, steps) == [] && Answers(steps) == 0 && Reach(j, a, steps).rcv == a.rcv
    decreases steps
  {
    if steps == [] {
    } else {
      StoppedReceiverIsIdle(j, Apply(j, a, steps[0]), steps[1..]);
    }
  }

  /** One step of the system is one step of the loop, or none. */
  lemma ReceiverLoopStep(j: Job, a: System, step: Step, next: seq<Chunk>, room: nat, loss: int, replied: seq<Reply>)
    returns (more: seq<Reply>)
    requires Enabled(j, a, step)
    requires Apply(j, a, step).rcv.phase.Received? ==> next == [] && room == 0
    requires (step.ReplyFails? || step.NoChunk?) ==> step.code == loss
    ensures var taken := (if step.TakeChunk? || step.ReplyFails? then [a.toRcv[0]] else []) + next;
            var answers := (if step.TakeChunk? then 1 else 0) + room;
            RecvLoop(j.digest, j.count, a.rcv, taken, answers, loss, replied).rcv
            == RecvLoop(j.digest, j.count, Apply(j, a, step).rcv, next, room, loss, more).rcv
  {
    more := replied;
    if step.TakeChunk? || step.ReplyFails? {
      assert ([a.toRcv[0]] + next)[1..] == next;
      if step.TakeChunk? {
        more := replied + [if Judge(j.digest, a.rcv, a.toRcv[0]).Accept? then Ok else Again];
      }
    } else {
      assert [] + next == next;
    }
  }

  /** In every run in which the receiver stops, it stops where FileRecv stops when it is given the
      chunks delivered in that run, with the destination FileRecv leaves. */
  lemma {:induction false} ReceiverRunsItsLoop(j: Job, a: System, steps: seq<Step>, replied: seq<Reply>)
    requires CanRun(j, a, steps) && Reach(j, a, steps).rcv.phase.Received?
    ensures var end := Reach(j, a, steps).rcv;
            RecvLoop(j.digest, j.count, a.rcv, Taken(j, a, steps), Answers(steps), end.phase.code, replied).rcv == end
    decreases steps
  {
    if steps == [] {
    } else {
      var b, rest := Apply(j, a, steps[0]), steps[1..];
      if b.rcv.phase.Received? { StoppedReceiverIsIdle(j, b, rest); }
      var loss := Reach(j, a, steps).rcv.phase.code;
      var more := ReceiverLoopStep(j, a, steps[0], Taken(j, b, rest), Answers(rest), loss, replied);
      ReceiverRunsItsLoop(j, b, rest, more);
    }
  }

  /** The replies the sender gets in a run. */
  function Replies(j: Job, a: System, steps: seq<Step>): seq<Reply>
    requires CanRun(j, a, steps)
    decreases steps
  {
    if steps == [] then []
    else (if steps[0].GetReply? then [a.toSnd[0]] else []) + Replies(j, Apply(j, a, steps[0]), steps[1..])
  }

  /** The chunks the sender puts on the connection in a run. */
  function Sends(j: Job, a: System, steps: seq<Step>): seq<Chunk>
    requires CanRun(j, a, steps)
    decreases steps
  {
    if steps == [] then []
    else (if steps[0].Send? then [a.snd.phase.c] else []) + Sends(j, Apply(j, a, steps[0]), steps[1..])
  }

  lemma {:induction false} StoppedSenderIsIdle(j: Job, a: System, steps: seq<Step>)
    requires CanRun(j, a, steps) && a.snd.phase.Sent?
    ensures Replies(j, a, steps) == [] && Sends(j, a, steps) == [] && Reach(j, a, steps).snd == a.snd
    decreases steps
  {
    if steps == [] {
    } else {
      StoppedSenderIsIdle(j, Apply(j, a, steps[0]), steps[1..]);
    }
  }

  lemma SenderLoopStep(j: Job, a: System, step: Step, replies: seq<Reply>, sends: seq<Chunk>, sent: seq<Chunk>)
    requires Enabled(j, a, step)
    requires Apply(j, a, step).snd.phase.Sent? ==> replies == [] && sends == []
    ensures var got := (if step.GetReply? then [a.toSnd[0]] else []) + replies;
            var put := if step.Send? then [a.snd.phase.c] else [];
            SendLoop(j, a.snd, got, |put + sends|, sent)
            == SendLoop(j, Apply(j, a, step).snd, replies, |sends|, sent + put)
  {
    hide ReadChunk, OnReply, Judge;
    if step.GetReply? { assert ([a.toSnd[0]] + replies)[1..] == replies; } else { assert [] + replies == replies; }
    assert [] + sends == sends && sent + [] == sent;
  }

  /** In every run in which the sender stops, it stops where FileSend stops when it is given the
      replies of that run, having put the same chunks on the connection. */
  lemma {:induction false} SenderRunsItsLoop(j: Job, a: System, steps: seq<Step>, sent: seq<Chunk>)
    requires CanRun(j, a, steps) && Reach(j, a, steps).snd.phase.Sent?
    ensures SendLoop(j, a.snd, Replies(j, a, steps), |Sends(j, a, steps)|, sent)
            == SendResult(Reach(j, a, steps).snd, sent + Sends(j, a, steps))
    decreases steps
  {
    if steps == [] {
    } else {
      var b, rest := Apply(j, a, steps[0]), steps[1..];
      if b.snd.phase.Sent? { StoppedSenderIsIdle(j, b, rest); }
      var put := if steps[0].Send? then [a.snd.phase.c] else [];
      SenderLoopStep(j, a, steps[0], Replies(j, b, rest), Sends(j, b, rest), sent);
      SenderRunsItsLoop(j, b, rest, sent + put);
      assert sent + put + Sends(j, b, rest) == sent + (put + Sends(j, b, rest));
    }
  }
}

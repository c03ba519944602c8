/** What file_send puts on the connection: over every run, and for any replies and losses, the
    chunks of the file in order, with repeats only of the last one. */
module SentChunks {
  import opened Common
  import opened ChunkCount
  import opened Chunks
  import opened Transfer
  import opened TransferRuns
  import opened FileTransfer

  predicate LaidOut(j: Job, c: Chunk) {
    c.hdr.seqNo < j.count && c.hdr.seqNo * CHUNK_SIZE < |j.src| && c == ChunkAt(j, c.hdr.seqNo)
  }

  predicate Follows(c: Chunk, d: Chunk) { d.hdr.seqNo == c.hdr.seqNo || d.hdr.seqNo == c.hdr.seqNo + 1 }

  /** Every chunk is one of the file's; the first has the start number, and each further one repeats
      the chunk before it or is the next. */
  predicate InOrder(j: Job, first: nat, sent: seq<Chunk>) {
    && (forall i :: 0 <= i < |sent| ==> LaidOut(j, sent[i]))
    && (sent != [] ==> sent[0].hdr.seqNo == first)
    && (forall i :: 0 < i < |sent| ==> Follows(sent[i - 1], sent[i]))
  }

  /** Where the sender stands, given what it has sent. */
  predicate History(j: Job, first: nat, sent: seq<Chunk>, s: Sender) {
    InOrder(j, first, sent) &&
    if sent == [] then s.seqNo == first && !s.phase.Awaiting?
    else
      var last := Last(sent).hdr.seqNo;
      && (s.seqNo == last || s.seqNo == last + 1)
      && (s.phase.Awaiting? ==> s.seqNo == last)
      && (s.phase.Reading? || s.phase == Sent(0) ==> s.seqNo == last + 1)
  }

  lemma SendKeepsHistory(j: Job, first: nat, sent: seq<Chunk>, s: Sender)
    requires SenderOk(j, s, first) && History(j, first, sent, s) && s.phase.Sending?
    ensures History(j, first, sent + [s.phase.c], s.(phase := Awaiting(s.phase.c)))
  {
    var more := sent + [s.phase.c];
    forall i | 0 < i < |more| ensures Follows(more[i - 1], more[i]) {
      if i < |sent| { assert Follows(sent[i - 1], sent[i]); }
    }
  }

  lemma SenderReadsOk(j: Job, s: Sender, first: nat)
    requires ValidJob(j) && SenderOk(j, s, first) && s.phase.Reading?
    ensures SenderOk(j, ReadChunk(j, s), first)
  {
  }

  lemma SenderHearsOk(j: Job, s: Sender, first: nat, reply: Reply)
    requires ValidJob(j) && SenderOk(j, s, first) && s.phase.Awaiting?
    ensures SenderOk(j, OnReply(s, reply), first)
  {
  }

  /** file_send, for any replies and however long the connection holds. */
  lemma {:induction false} LoopKeepsHistory(j: Job, first: nat, s: Sender, replies: seq<Reply>, room: nat,
                                            sent: seq<Chunk>)
    requires ValidJob(j) && SenderOk(j, s, first) && History(j, first, sent, s)
    ensures var res := SendLoop(j, s, replies, room, sent);
            SenderOk(j, res.snd, first) && History(j, first, res.sent, res.snd)
    decreases |replies|, PhaseRank(s.phase)
  {
    hide InOrder, ChunkAt;
    match s.phase
    case Sent(_) =>
    case Reading =>
      SenderReadsOk(j, s, first);
      LoopKeepsHistory(j, first, ReadChunk(j, s), replies, room, sent);
    case Sending(c) =>
      if room > 0 {
        SendKeepsHistory(j, first, sent, s);
        LoopKeepsHistory(j, first, s.(phase := Awaiting(c)), replies, room - 1, sent + [c]);
      }
    case Awaiting(_) =>
      if replies != [] {
        SenderHearsOk(j, s, first, replies[0]);
        LoopKeepsHistory(j, first, OnReply(s, replies[0]), replies[1..], room, sent);
      }
  }

  lemma {:induction false} LoopAppends(j: Job, s: Sender, replies: seq<Reply>, room: nat,
                                       before: seq<Chunk>, sent: seq<Chunk>)
    ensures var res := SendLoop(j, s, replies, room, sent);
            SendLoop(j, s, replies, room, before + sent) == SendResult(res.snd, before + res.sent)
    decreases |replies|, PhaseRank(s.phase)
  {
    match s.phase
    case Sent(_) =>
    case Reading => LoopAppends(j, ReadChunk(j, s), replies, room, before, sent);
    case Sending(c) =>
      if room > 0 {
        LoopAppends(j, s.(phase := Awaiting(c)), replies, room - 1, before, sent + [c]);
        Regroup(before, sent, [c]);
      }
    case Awaiting(_) =>
      if replies != [] { LoopAppends(j, OnReply(s, replies[0]), replies[1..], room, before, sent); }
  }

  lemma StepKeepsHistory(j: Job, a: System, step: Step, first: nat, was: seq<byte>, sent: seq<Chunk>)
    requires ValidJob(j) && Inv(j, a, first, was) && Enabled(j, a, step) && History(j, first, sent, a.snd)
    ensures History(j, first, sent + (if step.Send? then [a.snd.phase.c] else []), Apply(j, a, step).snd)
  {
    assert sent + [] == sent;
    if step.Send? { SendKeepsHistory(j, first, sent, a.snd); }
  }

  lemma {:induction false} RunKeepsHistory(j: Job, a: System, steps: seq<Step>, first: nat, was: seq<byte>,
                                           sent: seq<Chunk>)
    requires ValidJob(j) && Inv(j, a, first, was) && CanRun(j, a, steps) && History(j, first, sent, a.snd)
    ensures History(j, first, sent + Sends(j, a, steps), Reach(j, a, steps).snd)
    decreases steps
  {
    if steps == [] {
      assert sent + [] == sent;
    } else {
      var b, put := Apply(j, a, steps[0]), if steps[0].Send? then [a.snd.phase.c] else [];
      StepKeepsInv(j, a, steps[0], first, was);
      StepKeepsHistory(j, a, steps[0], first, was, sent);
      RunKeepsHistory(j, b, steps[1..], first, was, sent + put);
      Regroup(sent, put, Sends(j, b, steps[1..]));
    }
  }

  lemma {:induction false} NumbersGrow(j: Job, first: nat, sent: seq<Chunk>, i: nat)
    requires InOrder(j, first, sent) && i < |sent|
    ensures first <= sent[i].hdr.seqNo <= first + i
  {
    if i == 0 {
    } else {
      NumbersGrow(j, first, sent, i - 1);
      assert Follows(sent[i - 1], sent[i]);
    }
  }

  /** Over every interleaving, corruption and loss, at every moment of a run. */
  lemma RunSendsInOrder(j: Job, startChunk: nat, was: seq<byte>, steps: seq<Step>)
    requires ValidJob(j) && CanRun(j, Start(j, startChunk, was), steps)
    ensures InOrder(j, startChunk, Sends(j, Start(j, startChunk, was), steps))
    ensures forall c :: c in Sends(j, Start(j, startChunk, was), steps) ==>
              startChunk <= c.hdr.seqNo < j.count && c == ChunkAt(j, c.hdr.seqNo)
  {
    var a := Start(j, startChunk, was);
    InvStart(j, startChunk, was);
    RunKeepsHistory(j, a, steps, startChunk, was, []);
    var sent := Sends(j, a, steps);
    assert [] + sent == sent;
    hide Sends, CanRun, Start;
    forall i | 0 <= i < |sent| ensures startChunk <= sent[i].hdr.seqNo { NumbersGrow(j, startChunk, sent, i); }
  }

  /** Chunks sent one after the other are the same chunk again, or lie end to end in the file. */
  lemma SentChunksTile(j: Job, first: nat, sent: seq<Chunk>, i: nat)
    requires InOrder(j, first, sent) && i + 1 < |sent|
    ensures sent[i + 1] == sent[i] || sent[i + 1].hdr.startByte == sent[i].hdr.endByte + 1
    ensures Intact(j.digest, sent[i]) && sent[i].data == j.src[sent[i].hdr.startByte..sent[i].hdr.endByte + 1]
  {
    assert Follows(sent[i], sent[i + 1]) && LaidOut(j, sent[i]) && LaidOut(j, sent[i + 1]);
    ChunksTile(j, sent[i].hdr.seqNo);
    ChunksTile(j, sent[i + 1].hdr.seqNo);
  }

  /** The bodies sent, a repeated chunk counted once. */
  function BodyOnce(sent: seq<Chunk>): seq<byte> {
    if sent == [] then []
    else BodyOnce(Init(sent)) + (if |sent| > 1 && Last(sent) == sent[|sent| - 2] then [] else Last(sent).data)
  }

  lemma BodyGoesOn(j: Job, lo: nat, c: Chunk)
    requires LaidOut(j, c) && lo <= c.hdr.seqNo * CHUNK_SIZE
    ensures j.src[lo..c.hdr.seqNo * CHUNK_SIZE] + c.data == j.src[lo..Min((c.hdr.seqNo + 1) * CHUNK_SIZE, |j.src|)]
  {
  }

  /** The last chunk sent, and the one before it. */
  lemma LastTwo(j: Job, first: nat, sent: seq<Chunk>)
    requires InOrder(j, first, sent) && sent != []
    ensures var c := Last(sent); LaidOut(j, c) && first <= c.hdr.seqNo && (|sent| == 1 ==> c.hdr.seqNo == first)
    ensures |sent| > 1 ==>
              var before, c, d := Init(sent), Last(sent), Last(Init(sent));
              InOrder(j, first, before) && LaidOut(j, d) && d == sent[|sent| - 2]
              && (c == d || c.hdr.seqNo == d.hdr.seqNo + 1)
  {
    NumbersGrow(j, first, sent, |sent| - 1);
    if |sent| > 1 { assert Follows(sent[|sent| - 2], sent[|sent| - 1]); }
  }

  lemma BodyOnceUnfold(sent: seq<Chunk>)
    requires sent != []
    ensures |sent| == 1 ==> BodyOnce(sent) == Last(sent).data
    ensures |sent| > 1 ==> BodyOnce(sent) == if Last(sent) == sent[|sent| - 2] then BodyOnce(Init(sent))
                                             else BodyOnce(Init(sent)) + Last(sent).data
  {
    assert BodyOnce(Init(sent)) + [] == BodyOnce(Init(sent));
    if |sent| == 1 { assert [] + Last(sent).data == Last(sent).data; }
  }

  lemma {:induction false} BodyOnceIsTheFile(j: Job, first: nat, sent: seq<Chunk>)
    requires InOrder(j, first, sent) && sent != []
    ensures first <= Last(sent).hdr.seqNo
    ensures BodyOnce(sent) == j.src[first * CHUNK_SIZE..Min((Last(sent).hdr.seqNo + 1) * CHUNK_SIZE, |j.src|)]
    decreases |sent|
  {
    hide InOrder, BodyOnce;
    LastTwo(j, first, sent);
    BodyOnceUnfold(sent);
    if |sent| > 1 {
      BodyOnceIsTheFile(j, first, Init(sent));
      if Last(sent) != sent[|sent| - 2] { BodyGoesOn(j, first * CHUNK_SIZE, Last(sent)); }
    }
  }

  lemma {:induction false} NumbersAreReached(j: Job, first: nat, sent: seq<Chunk>, n: nat) returns (i: nat)
    requires InOrder(j, first, sent) && sent != [] && first <= n <= Last(sent).hdr.seqNo
    ensures i < |sent| && sent[i].hdr.seqNo == n && sent[i] == ChunkAt(j, n)
    decreases |sent|
  {
    var last := |sent| - 1;
    assert LaidOut(j, sent[last]);
    if n == sent[last].hdr.seqNo {
      i := last;
    } else {
      assert |sent| > 1 && Follows(sent[last - 1], sent[last]);
      assert InOrder(j, first, Init(sent)) && Last(Init(sent)) == sent[last - 1];
      i := NumbersAreReached(j, first, Init(sent), n);
    }
  }

  lemma AllNumbersAreReached(j: Job, first: nat, sent: seq<Chunk>)
    requires InOrder(j, first, sent) && sent != [] && Last(sent).hdr.seqNo == j.count - 1
    ensures forall n :: first <= n < j.count ==> n * CHUNK_SIZE < |j.src| && ChunkAt(j, n) in sent
  {
    forall n | first <= n < j.count ensures n * CHUNK_SIZE < |j.src| && ChunkAt(j, n) in sent {
      var i := NumbersAreReached(j, first, sent, n);
      assert sent[i] in sent;
    }
  }

  lemma NothingToSend(j: Job, startChunk: nat, replies: seq<Reply>, room: nat)
    requires startChunk >= j.count
    ensures SendLoop(j, StartSender(startChunk), replies, room, []).sent == []
  {
    assert ReadChunk(j, StartSender(startChunk)).phase == Sent(0);
  }

  /** What a call of file_send adds to the connection, whatever replies it gets and however long the
      connection holds: the file's chunks in order from the start chunk on; and if it reports
      success, every counted chunk from there on, the bodies being that stretch of the file. */
  lemma FileSendSendsTheFile(j: Job, startChunk: nat, replies: seq<Reply>, room: nat, before: seq<Chunk>)
    returns (sent: seq<Chunk>)
    requires ValidJob(j)
    ensures var res := SendLoop(j, StartSender(startChunk), replies, room, before);
            && res.sent == before + sent && InOrder(j, startChunk, sent)
            && (res.snd.phase == Sent(0) && startChunk < j.count ==>
                  (forall n :: startChunk <= n < j.count ==> n * CHUNK_SIZE < |j.src| && ChunkAt(j, n) in sent)
                  && BodyOnce(sent) == j.src[startChunk * CHUNK_SIZE..Covered(j)])
            && (startChunk >= j.count ==> sent == [])
  {
    hide SendLoop, BodyOnce, Follows, ChunkAt;
    var res := SendLoop(j, StartSender(startChunk), replies, room, []);
    sent := res.sent;
    LoopAppends(j, StartSender(startChunk), replies, room, before, []);
    assert before + [] == before;
    LoopKeepsHistory(j, startChunk, StartSender(startChunk), replies, room, []);
    if startChunk >= j.count {
      NothingToSend(j, startChunk, replies, room);
    } else if res.snd.phase == Sent(0) {
      BodyOnceIsTheFile(j, startChunk, sent);
      AllNumbersAreReached(j, startChunk, sent);
    }
  }

  // ----- the number reported -----

  /** How many of the replies acknowledge. */
  function Oks(replies: seq<Reply>): nat {
    if replies == [] then 0 else (if replies[0].Ok? then 1 else 0) + Oks(replies[1..])
  }

  /** The loop has come to `end`, having taken t replies: it has counted the acknowledged chunks, and has
      stopped for want of a reply, of room for a chunk, of bytes to read, or of chunks to send. */
  predicate Counted(j: Job, s: Sender, replies: seq<Reply>, room: nat, sent: nat, t: nat, end: SendResult) {
    t <= |replies| && end.snd.phase.Sent? && end.snd.seqNo == s.seqNo + Oks(replies[..t]) && |end.sent| >= sent &&
    var code, put := end.snd.phase.code, |end.sent| - sent;
    && put + (if s.phase.Awaiting? then 1 else 0) == t + (if code == -6 then 1 else 0)
    && (code == 0 || code == -1 || code == -5 || code == -6) && (code == 0 <==> end.snd.seqNo >= j.count)
    && (code == -6 ==> t == |replies|) && (code == -5 ==> put == room)
  }

  lemma {:induction false} LoopCounts(j: Job, s: Sender, replies: seq<Reply>, room: nat, sent: seq<Chunk>)
    returns (t: nat)
    requires !s.phase.Sent? && (s.phase.Reading? || s.seqNo < j.count)
    ensures Counted(j, s, replies, room, |sent|, t, SendLoop(j, s, replies, room, sent))
    decreases |replies|, PhaseRank(s.phase)
  {
    t := 0;
    match s.phase
    case Reading => if !ReadChunk(j, s).phase.Sent? { t := LoopCounts(j, ReadChunk(j, s), replies, room, sent); }
    case Sending(c) =>
      if room > 0 { t := LoopCounts(j, s.(phase := Awaiting(c)), replies, room - 1, sent + [c]); }
    case Awaiting(_) =>
      if replies != [] {
        t := LoopCounts(j, OnReply(s, replies[0]), replies[1..], room, sent);
        t := t + 1;
        assert replies[..t][1..] == replies[1..][..t - 1];
      }
  }

  /** What file_send reports: the start plus the chunks acknowledged, so many replies having been taken
      as chunks were sent (one less if the last one got none); plus one after an empty read, and minus
      one, in 64 unsigned bits, after a chunk or a reply was lost. */
  lemma NumberReported(j: Job, startChunk: nat, replies: seq<Reply>, room: nat)
    requires j.count < SIZE_T
    ensures SendLoop(j, StartSender(startChunk), replies, room, []).snd.phase.Sent?
    ensures var res := SendLoop(j, StartSender(startChunk), replies, room, []);
            var code := res.snd.phase.code;
            var t := |res.sent| - (if code == -6 then 1 else 0);
            && 0 <= t <= |replies| && (code == 0 || code == -1 || code == -5 || code == -6)
            && (code == -6 ==> t == |replies|) && (code == -5 ==> t == room)
            && var n := startChunk + Oks(replies[..t]);
               && (code == 0 <==> n >= j.count)
               && SenderStats(res.snd) == (if code == 0 then Stats(n, 0) else if code == -1 then Stats(n + 1, -1)
                                           else Stats(if n == 0 then SIZE_T - 1 else n - 1, code))
  {
    var t := LoopCounts(j, StartSender(startChunk), replies, room, []);
  }

  // ----- a count beyond the end of the file -----

  lemma SendsOne(j: Job, s: Sender, replies: seq<Reply>, room: nat, sent: seq<Chunk>)
    requires s.phase.Reading? && s.seqNo < j.count && s.pos < |j.src|
    ensures var t := ReadChunk(j, s);
            SendLoop(j, s, [Ok] + replies, room + 1, sent)
            == SendLoop(j, OnReply(t.(phase := Awaiting(t.phase.c)), Ok), replies, room, sent + [t.phase.c])
  {
    var t := ReadChunk(j, s);
    var u := t.(phase := Awaiting(t.phase.c));
    assert ([Ok] + replies)[1..] == replies;
    assert SendLoop(j, s, [Ok] + replies, room + 1, sent) == SendLoop(j, t, [Ok] + replies, room + 1, sent);
    assert SendLoop(j, t, [Ok] + replies, room + 1, sent) == SendLoop(j, u, [Ok] + replies, room, sent + [t.phase.c]);
  }

  /** With every chunk acknowledged the sender walks on to the first read behind the end. */
  lemma {:induction false} WalksPastEnd(j: Job, s: Sender, sent: seq<Chunk>) returns (k: nat)
    requires s.phase.Reading? && s.seqNo < j.count && |j.src| <= (j.count - 1) * CHUNK_SIZE
    requires s.pos >= |j.src| || s.pos == s.seqNo * CHUNK_SIZE
    ensures SendLoop(j, s, seq(k, _ => Ok), k, sent).snd.phase == Sent(-1)
    decreases j.count - s.seqNo
  {
    if s.pos >= |j.src| {
      k := 0;
    } else {
      var t := ReadChunk(j, s);
      var c := t.phase.c;
      var later := WalksPastEnd(j, OnReply(t.(phase := Awaiting(c)), Ok), sent + [c]);
      k := later + 1;
      SendsOne(j, s, seq(later, _ => Ok), later, sent);
      assert seq(k, _ => Ok) == [Ok] + seq(later, _ => Ok);
    }
  }

  /** The exit for an empty read can be taken exactly when the start is below a count whose last chunk
      begins at or past the end of the file. */
  lemma EmptyReadIff(j: Job, startChunk: nat)
    ensures (exists replies, room: nat :: SendLoop(j, StartSender(startChunk), replies, room, []).snd.phase == Sent(-1))
            <==> startChunk < j.count && |j.src| <= (j.count - 1) * CHUNK_SIZE
  {
    if startChunk < j.count && |j.src| <= (j.count - 1) * CHUNK_SIZE {
      var k := WalksPastEnd(j, StartSender(startChunk), []);
      assert SendLoop(j, StartSender(startChunk), seq(k, _ => Ok), k, []).snd.phase == Sent(-1);
    } else {
      forall replies, room: nat
        ensures SendLoop(j, StartSender(startChunk), replies, room, []).snd.phase != Sent(-1)
      {
        if startChunk < j.count { LoopKeepsHistory(j, startChunk, StartSender(startChunk), replies, room, []); }
      }
    }
  }

  /** Which files have such a count: from 2^36 bytes on those that round up by a chunk or more. */
  lemma CountsPastEndIff(src: seq<byte>, digest: seq<byte> -> Checksum)
    ensures ValidJob(JobOf(src, digest)) <==> |src| < 0x10_0000_0000 || ToFloat(|src|) < |src| + CHUNK_SIZE
  {
    if |src| < 0x10_0000_0000 {
      JobIsValid(src, digest);
    } else {
      LargeFiles(|src|);
      LargeFloatIsPositive(|src|);
    }
  }

  /** 2^37 + 8193 bytes are one of them. */
  lemma CountPastEnd()
    ensures ToFloat(0x20_0000_2001) == 0x20_0000_2001 + 8191
  {
    Pow2IsTable(12);
    assert Pow2(13) == 8192 && Pow2(14) == 16384;
    ExponentAtLeast(0x20_0000_2001, 13);
    SpacingBelow(0x20_0000_2001, 14);
    assert Spacing(0x20_0000_2001) == 16384;
  }
}

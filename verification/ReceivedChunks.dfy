/** What file_recv makes of whatever chunks reach it: which it answers how, what it writes where, and
    the number it reports, told of the chunks alone. */
module ReceivedChunks {
  import opened Common
  import opened ChunkCount
  import opened Chunks
  import opened Transfer
  import opened FileTransfer

  /** The data has the digest the header names. */
  predicate IsGood(digest: seq<byte> -> Checksum, c: Chunk) {
    c.hdr.length <= |c.data| && digest(c.data[..c.hdr.length]) == c.hdr.checksum
  }

  function Good(digest: seq<byte> -> Checksum, chunks: seq<Chunk>): seq<Chunk> {
    if chunks == [] then []
    else (if IsGood(digest, chunks[0]) then [chunks[0]] else []) + Good(digest, chunks[1..])
  }

  function Body(c: Chunk): seq<byte> { c.data[..Min(c.hdr.length, |c.data|)] }

  /** Their data, one after the other. */
  function Bodies(good: seq<Chunk>): seq<byte> {
    if good == [] then [] else Body(good[0]) + Bodies(good[1..])
  }

  /** Their numbers follow each other. */
  predicate InStep(good: seq<Chunk>) {
    forall i :: 0 < i < |good| ==> good[i].hdr.seqNo == good[0].hdr.seqNo + i
  }

  /** OK for a good chunk, a request to repeat for any other. */
  predicate Answers(digest: seq<byte> -> Checksum, chunks: seq<Chunk>, replies: seq<Reply>) {
    |replies| <= |chunks|
    && forall i :: 0 <= i < |replies| ==> replies[i] == if IsGood(digest, chunks[i]) then Ok else Again
  }

  lemma WriteNothing(file: seq<byte>, off: nat)
    ensures WriteAt(file, off, []) == file
  {
  }

  lemma AnswersGrow(digest: seq<byte> -> Checksum, chunks: seq<Chunk>, replies: seq<Reply>)
    requires chunks != [] && Answers(digest, chunks[1..], replies)
    ensures Answers(digest, chunks, [if IsGood(digest, chunks[0]) then Ok else Again] + replies)
  {
    forall i | 0 < i < |replies| + 1
      ensures replies[i - 1] == if IsGood(digest, chunks[i]) then Ok else Again
    {
      assert chunks[i] == chunks[1..][i - 1];
    }
  }

  /** Without its first chunk. */
  lemma GoodTail(digest: seq<byte> -> Checksum, chunks: seq<Chunk>)
    requires chunks != []
    ensures var good, rest := Good(digest, chunks), Good(digest, chunks[1..]);
            if IsGood(digest, chunks[0]) then
              good != [] && good[0] == chunks[0] && |good| == 1 + |rest|
              && (InStep(good) ==> InStep(rest) && (rest != [] ==> rest[0].hdr.seqNo == chunks[0].hdr.seqNo + 1))
            else good == rest
  {
    var good, rest := Good(digest, chunks), Good(digest, chunks[1..]);
    if IsGood(digest, chunks[0]) {
      assert good == [chunks[0]] + rest;
      assert forall i :: 0 <= i < |rest| ==> good[i + 1] == rest[i];
    }
  }

  lemma GoodPrefix(digest: seq<byte> -> Checksum, chunks: seq<Chunk>, k: nat)
    requires chunks != [] && k < |chunks|
    ensures Good(digest, chunks[..k + 1])
            == (if IsGood(digest, chunks[0]) then [chunks[0]] else []) + Good(digest, chunks[1..][..k])
  {
    assert chunks[..k + 1][1..] == chunks[1..][..k];
  }

  /** A good chunk with the awaited number, or the first one, is accepted, and its data written. */
  lemma GoodIsWritten(digest: seq<byte> -> Checksum, r: Receiver, c: Chunk)
    requires r.phase.Receiving? && IsGood(digest, c) && (r.seqNo == c.hdr.seqNo || r.seqNo == 0)
    ensures Judge(digest, r, c).Accept? && Judge(digest, r, c).rcv.phase.Writing?
    ensures var n, off := c.hdr.seqNo, if r.seqNo == 0 && c.hdr.seqNo > 0 then c.hdr.seqNo * CHUNK_SIZE else r.off;
            WriteChunk(Judge(digest, r, c).rcv)
            == Receiver(n + 1, off + |Body(c)|, WriteAt(r.file, off, Body(c)), Receiving)
  {
  }

  /** The loop, behind its first good chunk, answers so many chunks and writes the good ones. */
  ghost predicate GoesOn(digest: seq<byte> -> Checksum, count: nat, r: Receiver, chunks: seq<Chunk>, room: nat,
                         loss: int, before: seq<Reply>, replies: seq<Reply>)
  {
    Answers(digest, chunks, replies) && |replies| <= room &&
    var res := RecvLoop(digest, count, r, chunks, room, loss, before);
    var good := Good(digest, chunks[..|replies|]);
    && res.replied == before + replies
    && res.rcv.seqNo == r.seqNo + |good| && res.rcv.file == WriteAt(r.file, r.off, Bodies(good))
    && res.rcv.phase == Received(if r.seqNo + |good| >= count then 0 else loss)
    && (r.seqNo + |good| < count ==> |replies| == Min(room, |chunks|))
    && (r.seqNo + |good| >= count ==> if r.seqNo >= count then replies == []
                                      else r.seqNo + |good| == count && replies != [] && Last(replies) == Ok)
  }

  lemma AcceptedTurn(digest: seq<byte> -> Checksum, count: nat, r: Receiver, chunks: seq<Chunk>, room: nat, loss: int,
                     before: seq<Reply>)
    requires chunks != [] && r.phase.Receiving? && r.seqNo < count && room > 0 && Judge(digest, r, chunks[0]).Accept?
    ensures RecvLoop(digest, count, r, chunks, room, loss, before)
            == RecvLoop(digest, count, WriteChunk(Judge(digest, r, chunks[0]).rcv), chunks[1..], room - 1, loss,
                        before + [Ok])
  {
    var q := Judge(digest, r, chunks[0]).rcv;
    assert RecvLoop(digest, count, r, chunks, room, loss, before)
           == RecvLoop(digest, count, q, chunks[1..], room - 1, loss, before + [Ok]);
  }

  lemma RefusedTurn(digest: seq<byte> -> Checksum, count: nat, r: Receiver, chunks: seq<Chunk>, room: nat, loss: int,
                    before: seq<Reply>)
    requires chunks != [] && r.phase.Receiving? && r.seqNo < count && room > 0 && !IsGood(digest, chunks[0])
    ensures RecvLoop(digest, count, r, chunks, room, loss, before)
            == RecvLoop(digest, count, r, chunks[1..], room - 1, loss, before + [Again])
  {
  }

  lemma GoodTurn(digest: seq<byte> -> Checksum, count: nat, r: Receiver, chunks: seq<Chunk>, room: nat, loss: int,
                 before: seq<Reply>, later: seq<Reply>)
    requires chunks != [] && IsGood(digest, chunks[0]) && r.phase.Receiving? && 0 < r.seqNo < count && room > 0
    requires chunks[0].hdr.seqNo == r.seqNo
    requires GoesOn(digest, count, WriteChunk(Judge(digest, r, chunks[0]).rcv), chunks[1..], room - 1, loss,
                    before + [Ok], later)
    ensures GoesOn(digest, count, r, chunks, room, loss, before, [Ok] + later)
  {
    hide WriteAt, RecvLoop, WriteChunk, Judge;
    var c, rest := chunks[0], chunks[1..];
    var good := Good(digest, rest[..|later|]);
    GoodIsWritten(digest, r, c);
    AcceptedTurn(digest, count, r, chunks, room, loss, before);
    AnswersGrow(digest, chunks, later);
    GoodPrefix(digest, chunks, |later|);
    Regroup(before, [Ok], later);
    WritesMerge(r.file, r.off, Body(c), Bodies(good));
    assert ([c] + good)[1..] == good && Bodies([c] + good) == Body(c) + Bodies(good);
    hide Good, IsGood, Body, Answers, Bodies;
  }

  lemma BadTurn(digest: seq<byte> -> Checksum, count: nat, r: Receiver, chunks: seq<Chunk>, room: nat, loss: int,
                before: seq<Reply>, later: seq<Reply>)
    requires chunks != [] && !IsGood(digest, chunks[0]) && r.phase.Receiving? && r.seqNo < count && room > 0
    requires GoesOn(digest, count, r, chunks[1..], room - 1, loss, before + [Again], later)
    ensures GoesOn(digest, count, r, chunks, room, loss, before, [Again] + later)
  {
    hide WriteAt, RecvLoop, Bodies;
    var rest := chunks[1..];
    RefusedTurn(digest, count, r, chunks, room, loss, before);
    AnswersGrow(digest, chunks, later);
    GoodPrefix(digest, chunks, |later|);
    Regroup(before, [Again], later);
    assert [] + Good(digest, rest[..|later|]) == Good(digest, rest[..|later|]);
    hide Good, Answers;
  }

  lemma LoopEnds(digest: seq<byte> -> Checksum, count: nat, r: Receiver, chunks: seq<Chunk>, room: nat, loss: int,
                 before: seq<Reply>)
    requires r.phase.Receiving? && r.seqNo > 0 && (r.seqNo >= count || chunks == [] || room == 0)
    requires Good(digest, chunks) != [] ==> Good(digest, chunks)[0].hdr.seqNo == r.seqNo
    ensures GoesOn(digest, count, r, chunks, room, loss, before, [])
  {
    assert before + [] == before && chunks[..0] == [];
    hide WriteAt;
    assert WriteAt(r.file, r.off, Bodies([])) == r.file by { WriteNothing(r.file, r.off); }
  }

  lemma {:induction false} LoopGoesOn(digest: seq<byte> -> Checksum, count: nat, r: Receiver, chunks: seq<Chunk>,
                                      room: nat, loss: int, before: seq<Reply>)
    returns (replies: seq<Reply>)
    requires r.phase.Receiving? && r.seqNo > 0 && InStep(Good(digest, chunks))
    requires Good(digest, chunks) != [] ==> Good(digest, chunks)[0].hdr.seqNo == r.seqNo
    ensures GoesOn(digest, count, r, chunks, room, loss, before, replies)
    decreases |chunks|
  {
    hide GoesOn, WriteAt, Good, InStep, RecvLoop;
    replies := [];
    if r.seqNo >= count || chunks == [] || room == 0 {
      LoopEnds(digest, count, r, chunks, room, loss, before);
    } else {
      var later;
      GoodTail(digest, chunks);
      if IsGood(digest, chunks[0]) {
        GoodIsWritten(digest, r, chunks[0]);
        var next := WriteChunk(Judge(digest, r, chunks[0]).rcv);
        later := LoopGoesOn(digest, count, next, chunks[1..], room - 1, loss, before + [Ok]);
        GoodTurn(digest, count, r, chunks, room, loss, before, later);
        replies := [Ok] + later;
      } else {
        later := LoopGoesOn(digest, count, r, chunks[1..], room - 1, loss, before + [Again]);
        BadTurn(digest, count, r, chunks, room, loss, before, later);
        replies := [Again] + later;
      }
    }
  }

  // ----- from the start -----

  /** The number reported before anything is written: that of a first good chunk whose reply does not
      get out, or none. */
  function Unwritten(digest: seq<byte> -> Checksum, chunks: seq<Chunk>, answered: nat): nat {
    if answered < |chunks| && IsGood(digest, chunks[answered]) then chunks[answered].hdr.seqNo else 0
  }

  /** The whole loop: the good chunks among those it answers are written one behind the other from the
      place of the first one on, until enough are counted or no further one comes or is answered. */
  ghost predicate Writes(digest: seq<byte> -> Checksum, count: nat, was: seq<byte>, chunks: seq<Chunk>, room: nat,
                         loss: int, before: seq<Reply>, replies: seq<Reply>)
  {
    Answers(digest, chunks, replies) && |replies| <= room &&
    var res := RecvLoop(digest, count, StartReceiver(was), chunks, room, loss, before);
    var good := Good(digest, chunks[..|replies|]);
    var done := count == 0 || (good != [] && good[0].hdr.seqNo + |good| >= count);
    && res.replied == before + replies && res.rcv.phase == Received(if done then 0 else loss)
    && (good == [] ==> res.rcv.file == was)
    && (good == [] ==> res.rcv.seqNo == if count == 0 then 0 else Unwritten(digest, chunks, |replies|))
    && (good != [] ==> res.rcv.file == WriteAt(was, good[0].hdr.seqNo * CHUNK_SIZE, Bodies(good)))
    && (good != [] ==> res.rcv.seqNo == good[0].hdr.seqNo + |good|)
    && (!done ==> |replies| == Min(room, |chunks|))
    && (done && count > 0 ==> replies != [] && Last(replies) == Ok)
    && (done && count > 0 ==> |good| == 1 || good[0].hdr.seqNo + |good| == count)
    && (done && count == 0 ==> replies == [])
  }

  lemma UnwrittenLater(digest: seq<byte> -> Checksum, chunks: seq<Chunk>, k: nat)
    requires chunks != []
    ensures Unwritten(digest, chunks, k + 1) == Unwritten(digest, chunks[1..], k)
  {
  }

  lemma StartEnds(digest: seq<byte> -> Checksum, count: nat, was: seq<byte>, chunks: seq<Chunk>, room: nat, loss: int,
                  before: seq<Reply>)
    requires count == 0 || chunks == [] || room == 0
    ensures Writes(digest, count, was, chunks, room, loss, before, [])
  {
    assert before + [] == before && chunks[..0] == [];
  }

  lemma StartBad(digest: seq<byte> -> Checksum, count: nat, was: seq<byte>, chunks: seq<Chunk>, room: nat, loss: int,
                 before: seq<Reply>, later: seq<Reply>)
    requires chunks != [] && !IsGood(digest, chunks[0]) && 0 < count && room > 0
    requires Writes(digest, count, was, chunks[1..], room - 1, loss, before + [Again], later)
    ensures Writes(digest, count, was, chunks, room, loss, before, [Again] + later)
  {
    hide WriteAt, RecvLoop, Bodies, IsGood, Unwritten;
    RefusedTurn(digest, count, StartReceiver(was), chunks, room, loss, before);
    AnswersGrow(digest, chunks, later);
    GoodPrefix(digest, chunks, |later|);
    Regroup(before, [Again], later);
    assert [] + Good(digest, chunks[1..][..|later|]) == Good(digest, chunks[1..][..|later|]);
    UnwrittenLater(digest, chunks, |later|);
    var replies := [Again] + later;
    assert |replies| == |later| + 1 && (later != [] ==> Last(replies) == Last(later));
    assert later == [] ==> Good(digest, chunks[1..][..0]) == [];
    hide Good, Answers, StartReceiver, Last;
  }

  lemma StartGood(digest: seq<byte> -> Checksum, count: nat, was: seq<byte>, chunks: seq<Chunk>, room: nat, loss: int,
                  before: seq<Reply>, later: seq<Reply>)
    requires chunks != [] && IsGood(digest, chunks[0]) && 0 < count && room > 0
    requires GoesOn(digest, count, WriteChunk(Judge(digest, StartReceiver(was), chunks[0]).rcv), chunks[1..], room - 1,
                    loss, before + [Ok], later)
    ensures Writes(digest, count, was, chunks, room, loss, before, [Ok] + later)
  {
    hide WriteAt, RecvLoop, WriteChunk, Judge, IsGood, Body;
    var c, rest := chunks[0], chunks[1..];
    var good := Good(digest, rest[..|later|]);
    GoodIsWritten(digest, StartReceiver(was), c);
    AcceptedTurn(digest, count, StartReceiver(was), chunks, room, loss, before);
    AnswersGrow(digest, chunks, later);
    GoodPrefix(digest, chunks, |later|);
    Regroup(before, [Ok], later);
    WritesMerge(was, c.hdr.seqNo * CHUNK_SIZE, Body(c), Bodies(good));
    assert ([c] + good)[1..] == good && Bodies([c] + good) == Body(c) + Bodies(good);
    hide Good, IsGood, Body, Answers, Bodies;
  }

  /** file_recv, for every sequence of chunks whose good ones are in step, every destination, and
      however many replies the connection takes. */
  lemma {:induction false} LoopWrites(digest: seq<byte> -> Checksum, count: nat, was: seq<byte>, chunks: seq<Chunk>,
                                      room: nat, loss: int, before: seq<Reply>)
    returns (replies: seq<Reply>)
    requires InStep(Good(digest, chunks))
    ensures Writes(digest, count, was, chunks, room, loss, before, replies)
    decreases |chunks|
  {
    hide Writes, GoesOn, WriteAt, RecvLoop, Good, InStep;
    if chunks != [] { GoodTail(digest, chunks); }
    if count == 0 || chunks == [] || room == 0 {
      replies := [];
      StartEnds(digest, count, was, chunks, room, loss, before);
    } else if IsGood(digest, chunks[0]) {
      GoodIsWritten(digest, StartReceiver(was), chunks[0]);
      var next := WriteChunk(Judge(digest, StartReceiver(was), chunks[0]).rcv);
      var later := LoopGoesOn(digest, count, next, chunks[1..], room - 1, loss, before + [Ok]);
      StartGood(digest, count, was, chunks, room, loss, before, later);
      replies := [Ok] + later;
    } else {
      var later := LoopWrites(digest, count, was, chunks[1..], room - 1, loss, before + [Again]);
      StartBad(digest, count, was, chunks, room, loss, before, later);
      replies := [Again] + later;
    }
  }

  /** Told of one call: its replies, its bytes, the number and the code it reports. */
  lemma FileRecvWrites(digest: seq<byte> -> Checksum, count: nat, was: seq<byte>, chunks: seq<Chunk>, room: nat,
                       loss: int)
    returns (k: nat)
    requires InStep(Good(digest, chunks))
    ensures k <= Min(room, |chunks|)
    ensures var res := RecvLoop(digest, count, StartReceiver(was), chunks, room, loss, []);
            var good := Good(digest, chunks[..k]);
            var done := count == 0 || (good != [] && good[0].hdr.seqNo + |good| >= count);
            && |res.replied| == k
            && (forall i :: 0 <= i < k ==> (res.replied[i].Ok? <==> IsGood(digest, chunks[i])))
            && res.rcv.file == (if good == [] then was else WriteAt(was, good[0].hdr.seqNo * CHUNK_SIZE, Bodies(good)))
            && res.rcv.seqNo == (if good != [] then good[0].hdr.seqNo + |good|
                                 else if count > 0 then Unwritten(digest, chunks, k) else 0)
            && res.rcv.phase == Received(if done then 0 else loss)
            && (!done ==> k == Min(room, |chunks|))
            && (done ==> if count == 0 then k == 0
                         else k > 0 && IsGood(digest, chunks[k - 1])
                              && (|good| == 1 || good[0].hdr.seqNo + |good| == count))
  {
    hide RecvLoop, Good, WriteAt, Bodies, Unwritten, IsGood, InStep, StartReceiver;
    var replies := LoopWrites(digest, count, was, chunks, room, loss, []);
    assert [] + replies == replies;
    k := |replies|;
  }

  // ----- a chunk out of step -----

  lemma HeadAndTail(a: seq<Chunk>, b: seq<Chunk>)
    requires a != []
    ensures (a + b)[0] == a[0] && (a + b)[1..] == a[1..] + b
  {
  }

  lemma OutOfStepIsMismatch(digest: seq<byte> -> Checksum, count: nat, r: Receiver, tail: seq<Chunk>,
                            room: nat, loss: int, before: seq<Reply>)
    requires r.phase.Receiving? && 0 < r.seqNo < count
    requires tail != [] && IsGood(digest, tail[0]) && tail[0].hdr.seqNo != r.seqNo
    ensures RecvLoop(digest, count, r, tail, room, loss, before).rcv == r.(phase := Received(-4))
  {
  }

  /** The number and the code of a call. */
  function Reported(res: RecvResult): (nat, ReceiverPhase) { (res.rcv.seqNo, res.rcv.phase) }

  /** Behind the first good chunk: good ones in step from number m on, and then one whose number is not n. */
  predicate WillBreak(digest: seq<byte> -> Checksum, count: nat, m: nat, chunks: seq<Chunk>, tail: seq<Chunk>, n: nat) {
    var good := Good(digest, chunks);
    0 < m && InStep(good) && (good != [] ==> good[0].hdr.seqNo == m) && n == m + |good| < count
    && tail != [] && IsGood(digest, tail[0]) && tail[0].hdr.seqNo != n
  }

  lemma WillBreakLater(digest: seq<byte> -> Checksum, count: nat, m: nat, chunks: seq<Chunk>, tail: seq<Chunk>, n: nat)
    requires WillBreak(digest, count, m, chunks, tail, n)
    ensures 0 < m < count
    ensures chunks == [] ==> m == n
    ensures chunks != [] ==>
              WillBreak(digest, count, if IsGood(digest, chunks[0]) then m + 1 else m, chunks[1..], tail, n)
    ensures chunks != [] && IsGood(digest, chunks[0]) ==> chunks[0].hdr.seqNo == m
  {
    if chunks != [] { GoodTail(digest, chunks); }
  }

  lemma {:induction false} StopsOutOfStep(digest: seq<byte> -> Checksum, count: nat, r: Receiver, chunks: seq<Chunk>,
                                          tail: seq<Chunk>, room: nat, loss: int, before: seq<Reply>, n: nat)
    requires r.phase.Receiving? && WillBreak(digest, count, r.seqNo, chunks, tail, n) && |chunks| <= room
    requires tail != [] && IsGood(digest, tail[0]) && tail[0].hdr.seqNo != n
    ensures Reported(RecvLoop(digest, count, r, chunks + tail, room, loss, before)) == (n, Received(-4))
    decreases |chunks|
  {
    hide WriteAt, RecvLoop, WillBreak, Judge, WriteChunk, Body, IsGood;
    WillBreakLater(digest, count, r.seqNo, chunks, tail, n);
    if chunks == [] {
      assert chunks + tail == tail;
      OutOfStepIsMismatch(digest, count, r, tail, room, loss, before);
    } else {
      HeadAndTail(chunks, tail);
      if IsGood(digest, chunks[0]) {
        GoodIsWritten(digest, r, chunks[0]);
        AcceptedTurn(digest, count, r, chunks + tail, room, loss, before);
        var next := WriteChunk(Judge(digest, r, chunks[0]).rcv);
        StopsOutOfStep(digest, count, next, chunks[1..], tail, room - 1, loss, before + [Ok], n);
      } else {
        RefusedTurn(digest, count, r, chunks + tail, room, loss, before);
        StopsOutOfStep(digest, count, r, chunks[1..], tail, room - 1, loss, before + [Again], n);
      }
    }
  }

  lemma FirstIsAccepted(digest: seq<byte> -> Checksum, was: seq<byte>, c: Chunk)
    requires IsGood(digest, c)
    ensures var v, r := Judge(digest, StartReceiver(was), c), StartReceiver(was);
            r.phase.Receiving? && r.seqNo == 0 && v.Accept? && v.rcv.phase.Writing?
            && WriteChunk(v.rcv).phase.Receiving? && WriteChunk(v.rcv).seqNo == c.hdr.seqNo + 1
  {
    GoodIsWritten(digest, StartReceiver(was), c);
  }

  /** Good chunks in step, and then, before all are counted, a good one whose number is not n, the next. */
  predicate BreaksStep(digest: seq<byte> -> Checksum, count: nat, chunks: seq<Chunk>, tail: seq<Chunk>, n: nat) {
    var good := Good(digest, chunks);
    InStep(good) && good != [] && n == good[0].hdr.seqNo + |good| < count
    && tail != [] && IsGood(digest, tail[0]) && tail[0].hdr.seqNo != n
  }

  lemma BreaksBehindFirst(digest: seq<byte> -> Checksum, count: nat, chunks: seq<Chunk>, tail: seq<Chunk>, n: nat)
    requires chunks != [] && IsGood(digest, chunks[0]) && BreaksStep(digest, count, chunks, tail, n)
    ensures WillBreak(digest, count, chunks[0].hdr.seqNo + 1, chunks[1..], tail, n) && count > 0
    ensures tail != [] && IsGood(digest, tail[0]) && tail[0].hdr.seqNo != n
  {
    GoodTail(digest, chunks);
  }

  lemma FirstThenStops(digest: seq<byte> -> Checksum, count: nat, was: seq<byte>, chunks: seq<Chunk>, tail: seq<Chunk>,
                       room: nat, loss: int, before: seq<Reply>, n: nat)
    requires chunks != [] && IsGood(digest, chunks[0]) && BreaksStep(digest, count, chunks, tail, n) && |chunks| <= room
    ensures Reported(RecvLoop(digest, count, StartReceiver(was), chunks + tail, room, loss, before))
            == (n, Received(-4))
  {
    hide WriteAt, RecvLoop, WillBreak, BreaksStep, Judge, WriteChunk, Body, IsGood, Reported, StartReceiver;
    HeadAndTail(chunks, tail);
    BreaksBehindFirst(digest, count, chunks, tail, n);
    FirstIsAccepted(digest, was, chunks[0]);
    AcceptedTurn(digest, count, StartReceiver(was), chunks + tail, room, loss, before);
    var next := WriteChunk(Judge(digest, StartReceiver(was), chunks[0]).rcv);
    StopsOutOfStep(digest, count, next, chunks[1..], tail, room - 1, loss, before + [Ok], n);
  }

  lemma BreaksLater(digest: seq<byte> -> Checksum, count: nat, chunks: seq<Chunk>, tail: seq<Chunk>, n: nat)
    requires BreaksStep(digest, count, chunks, tail, n)
    ensures chunks != [] && count > 0
    ensures !IsGood(digest, chunks[0]) ==> BreaksStep(digest, count, chunks[1..], tail, n)
  {
    GoodTail(digest, chunks);
  }

  /** After good chunks in step, one whose number is not the next ends file_recv with -4. */
  lemma {:induction false} OutOfStepIsRefused(digest: seq<byte> -> Checksum, count: nat, was: seq<byte>,
                                              chunks: seq<Chunk>, tail: seq<Chunk>, room: nat, loss: int,
                                              before: seq<Reply>, n: nat)
    requires BreaksStep(digest, count, chunks, tail, n) && |chunks| <= room
    ensures Reported(RecvLoop(digest, count, StartReceiver(was), chunks + tail, room, loss, before))
            == (n, Received(-4))
    decreases |chunks|
  {
    hide BreaksStep, RecvLoop, IsGood, Reported;
    BreaksLater(digest, count, chunks, tail, n);
    if IsGood(digest, chunks[0]) {
      FirstThenStops(digest, count, was, chunks, tail, room, loss, before, n);
    } else {
      HeadAndTail(chunks, tail);
      RefusedTurn(digest, count, StartReceiver(was), chunks + tail, room, loss, before);
      OutOfStepIsRefused(digest, count, was, chunks[1..], tail, room - 1, loss, before + [Again], n);
    }
  }
}

/** How an upload ends, for whatever reaches the server: told of the chunks and the loss, without the
    loop and without the step system. */
module UploadEnds {
  import opened Common
  import opened ChunkCount
  import opened Chunks
  import opened FileTransfer
  import opened ReceivedChunks
  import opened Sessions
  import opened Uploads

  lemma {:induction false} FirstGood(digest: seq<byte> -> Checksum, chunks: seq<Chunk>, m: nat)
    requires m < |chunks| && Good(digest, chunks[..m]) == [] && IsGood(digest, chunks[m])
    ensures Good(digest, chunks) != [] && Good(digest, chunks)[0] == chunks[m]
    decreases m
  {
    GoodTail(digest, chunks);
    if m == 0 {
    } else {
      assert chunks[..m][0] == chunks[0] && chunks[..m][1..] == chunks[1..][..m - 1];
      GoodTail(digest, chunks[..m]);
      FirstGood(digest, chunks[1..], m - 1);
    }
  }

  /** When enough chunks were written the upload is finished. Otherwise the loss decides: after a lost
      connection, -1 or -2, its session is kept at the number reached, if it has a slot; any other code
      is answered as finished too. The number tells whether enough were written, unless the first good
      chunk already has one past the count. */
  lemma UploadFinishesIff(digest: seq<byte> -> Checksum, info: FileInfo, k: Key, wire: Wire, was: Account,
                          before: seq<byte>, out: UploadOutcome, now: Account, after: seq<byte>) returns (m: nat)
    requires Uploaded(digest, info, k, true, true, wire, was, before, out, now, after) && info.size <= MAX_USER_SPACE
    requires InStep(Good(digest, wire.chunks))
    ensures m <= Min(wire.room, |wire.chunks|)
    ensures var good, count := Good(digest, wire.chunks[..m]), info.chunkCount;
            var done := count == 0 || (good != [] && good[0].hdr.seqNo + |good| >= count);
            && (out.Suspended? <==> !done && (wire.loss == -1 || wire.loss == -2)) && (out.Suspended? || out.Finished?)
            && out.stats.code == (if done then 0 else wire.loss) && (done ==> out.stats.last >= count)
            && (!done ==> m == Min(wire.room, |wire.chunks|))
            && after == (if good == [] then before else WriteAt(before, good[0].hdr.seqNo * CHUNK_SIZE, Bodies(good)))
            && (count > 0 ==> out.stats.last == if good != [] then good[0].hdr.seqNo + |good|
                                                else Unwritten(digest, wire.chunks, m))
    ensures var good := Good(digest, wire.chunks);
            (good != [] ==> good[0].hdr.seqNo < info.chunkCount) && (wire.loss == -1 || wire.loss == -2) ==>
              (out.Finished? <==> out.stats.last >= info.chunkCount)
    ensures out.Suspended? && (k in was.table.keys || |was.table.keys| < 10) ==> now.offers[k] == out.stats.last
  {
    hide RecvLoop, Good, InStep, IsGood, Bodies, WriteAt;
    var replies := LoopWrites(digest, info.chunkCount, before, wire.chunks, wire.room, wire.loss, wire.replied);
    m := |replies|;
    if Good(digest, wire.chunks[..m]) == [] && m < |wire.chunks| && IsGood(digest, wire.chunks[m]) {
      FirstGood(digest, wire.chunks, m);
    }
    assert k in was.table.keys || k in was.table.keys + [k];
  }

  /** A destination that cannot be opened suspends the upload, with nothing to resume. */
  lemma UnopenedIsSuspended(digest: seq<byte> -> Checksum, info: FileInfo, k: Key, wire: Wire, was: Account,
                            before: seq<byte>, out: UploadOutcome, now: Account, after: seq<byte>)
    requires Uploaded(digest, info, k, true, false, wire, was, before, out, now, after) && info.size <= MAX_USER_SPACE
    ensures out == Suspended(was.offers[k], Stats(0, -1)) && after == before && now.offers[k] == 0
    ensures now.table == if k in was.table.keys || |was.table.keys| >= 10 then was.table
                         else was.table.(keys := was.table.keys + [k])
  {
  }

  /** A good chunk out of step ends the transfer, and the upload is answered as finished. */
  lemma OutOfStepIsFinished(digest: seq<byte> -> Checksum, info: FileInfo, k: Key, wire: Wire, was: Account,
                            before: seq<byte>, out: UploadOutcome, now: Account, after: seq<byte>,
                            chunks: seq<Chunk>, tail: seq<Chunk>, n: nat)
    requires Uploaded(digest, info, k, true, true, wire, was, before, out, now, after) && info.size <= MAX_USER_SPACE
    requires wire.chunks == chunks + tail && |chunks| <= wire.room
    requires BreaksStep(digest, info.chunkCount, chunks, tail, n)
    ensures out == Finished(was.offers[k], Stats(n, -4)) && n < info.chunkCount
    ensures Unique(was.table.keys) ==> now.offers[k] == 0
  {
    hide RecvLoop, Good, IsGood, AfterUpload;
    OutOfStepIsRefused(digest, info.chunkCount, before, chunks, tail, wire.room, wire.loss, wire.replied, n);
  }
}

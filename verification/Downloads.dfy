/** Downloads: where they start, that they always end, and when they end well. The server closes the
    connection as soon as file_send returns, so the client is never left waiting. */
module Downloads {
  import opened Common
  import opened ChunkCount
  import opened Chunks
  import opened Transfer
  import opened TransferRuns
  import opened FileTransfer

  // ----- the start chunk -----

  const INT_MAX: nat := 0x7FFF_FFFF

  /** The requested chunk number passes through an `int` on its way from one size_t to another. */
  function Narrowed(n: nat): nat {
    var low := n % 0x1_0000_0000;
    if low <= INT_MAX then low else SIZE_T - 0x1_0000_0000 + low
  }

  /** Where the server starts for a client that has `have` bytes; it sends no number without bytes. */
  function DownloadStart(have: nat): nat {
    if have == 0 then 0 else Narrowed(ResumeChunk(have))
  }

  /** The number passed on agrees with the one asked for in its lower half, and is its value as a signed
      number: those above INT_MAX either drop to below it or rise above every chunk count. */
  lemma NarrowedIff(n: nat)
    ensures Narrowed(n) % 0x1_0000_0000 == n % 0x1_0000_0000 && Narrowed(n) < SIZE_T
    ensures Narrowed(n) <= INT_MAX || Narrowed(n) >= SIZE_T - 0x8000_0000
    ensures Narrowed(n) == n || Narrowed(n) <= INT_MAX < n || Narrowed(n) >= SIZE_T - 0x8000_0000
    ensures n <= INT_MAX ==> Narrowed(n) == n
    ensures INT_MAX < n < 0x1_0000_0000 ==> Narrowed(n) >= SIZE_T - 0x8000_0000
  {
  }

  lemma StartsInsideBytes(have: nat)
    requires ResumeChunk(have) <= INT_MAX
    ensures DownloadStart(have) == ResumeChunk(have)
    ensures DownloadStart(have) * CHUNK_SIZE <= have <==> !ResumesPast(have)
  {
    ResumeChunkIsCovered(have);
  }

  // ----- runs of the two programs, with the close -----

  /** handle_download has returned and on_stream_req closes the connection: what is in flight still
      arrives. */
  predicate IsClose(a: System, step: Step) {
    a.up && a.snd.phase.Sent? && step == Cut(|a.toRcv|, |a.toSnd|)
  }

  /** A step of one of the two programs. */
  predicate IsDownloadMove(a: System, step: Step) { IsMove(step) || IsClose(a, step) }

  /** No disconnection but the server's own close, which the client reads as the end of the stream. */
  predicate Undisturbed(j: Job, a: System, steps: seq<Step>)
    requires CanRun(j, a, steps)
    decreases steps
  {
    steps == [] ||
    ((steps[0].Cut? ==> IsClose(a, steps[0])) && (steps[0].NoChunk? ==> steps[0].code == -2)
     && Undisturbed(j, Apply(j, a, steps[0]), steps[1..]))
  }

  /** The connection goes down only after the sender has succeeded, and the client then reads -2. */
  predicate Quiet(a: System) {
    (!a.up ==> a.snd.phase == Sent(0))
    && (a.rcv.phase.Received? ==> a.rcv.phase.code == 0 || (a.rcv.phase.code == -2 && !a.up))
  }

  lemma StepKeepsQuiet(j: Job, a: System, step: Step, start: nat, was: seq<byte>)
    requires ValidJob(j) && Inv(j, a, start, was) && Quiet(a) && Enabled(j, a, step)
    requires (step.Cut? ==> IsClose(a, step)) && (step.NoChunk? ==> step.code == -2)
    ensures Quiet(Apply(j, a, step))
  {
    if step.TakeChunk? { TakenChunkIsAwaited(j, a, start, was); }
  }

  lemma {:induction false} UndisturbedRunIsQuiet(j: Job, a: System, steps: seq<Step>, start: nat, was: seq<byte>)
    requires ValidJob(j) && Inv(j, a, start, was) && Quiet(a) && CanRun(j, a, steps) && Undisturbed(j, a, steps)
    ensures Inv(j, Reach(j, a, steps), start, was) && Quiet(Reach(j, a, steps))
    decreases steps
  {
    if steps == [] {
    } else {
      StepKeepsInv(j, a, steps[0], start, was);
      StepKeepsQuiet(j, a, steps[0], start, was);
      UndisturbedRunIsQuiet(j, Apply(j, a, steps[0]), steps[1..], start, was);
    }
  }

  /** Asked for a chunk at or past its last one the sender sends nothing, whatever the count. */
  predicate NothingSent(a: System, start: nat, was: seq<byte>) {
    && a.toRcv == [] && a.toSnd == [] && a.snd.seqNo == start && (a.snd.phase.Reading? || a.snd.phase == Sent(0))
    && (!a.up ==> a.snd.phase == Sent(0)) && a.rcv.seqNo == 0 && a.rcv.file == was
    && (a.rcv.phase.Receiving? || (a.rcv.phase == Received(-2) && !a.up))
  }

  lemma {:induction false} NothingIsSent(j: Job, a: System, steps: seq<Step>, start: nat, was: seq<byte>)
    requires 0 < j.count <= start && NothingSent(a, start, was) && CanRun(j, a, steps) && Undisturbed(j, a, steps)
    ensures NothingSent(Reach(j, a, steps), start, was)
    decreases steps
  {
    if steps == [] {
    } else {
      NothingIsSent(j, Apply(j, a, steps[0]), steps[1..], start, was);
    }
  }

  /** One of the programs can always go on until both have stopped. */
  lemma SomeProgramMoves(j: Job, a: System, start: nat, was: seq<byte>) returns (step: Step)
    requires !Finished(a)
    requires (ValidJob(j) && Inv(j, a, start, was)) || (0 < j.count <= start && NothingSent(a, start, was))
    ensures IsDownloadMove(a, step) && Enabled(j, a, step) && (step.NoChunk? ==> step.code == -2)
  {
    if a.rcv.phase.Writing? { step := Write; }
    else if a.rcv.phase.Receiving? && a.rcv.seqNo >= j.count { step := Finish; }
    else if a.rcv.phase.Receiving? && a.toRcv != [] { step := TakeChunk; }
    else if a.rcv.phase.Receiving? && !a.up { step := NoChunk(-2); }
    else {
      match a.snd.phase
      case Reading => step := Read;
      case Sending(_) => step := Send;
      case Awaiting(_) => if a.toSnd != [] { step := GetReply; } else { step := NoReply; }
      case Sent(_) => step := Cut(|a.toRcv|, |a.toSnd|);
    }
  }

  /** An undisturbed download goes on until both programs have stopped, the server successfully. It
      fails, with -2 and the local file as it was, exactly when it is asked to start at or past a
      positive chunk count; otherwise the client reports success, and if the local bytes before the
      start were right, so is the counted content. */
  lemma DownloadEnds(j: Job, start: nat, was: seq<byte>, steps: seq<Step>)
    requires ValidJob(j) || 0 < j.count <= start
    requires CanRun(j, Start(j, start, was), steps) && Undisturbed(j, Start(j, start, was), steps)
    ensures var b := Reach(j, Start(j, start, was), steps);
            (exists step :: IsDownloadMove(b, step) && Enabled(j, b, step)) ||
            (b.snd.phase == Sent(0) && b.rcv.phase == Received(if 0 < j.count <= start then -2 else 0)
             && (0 < j.count <= start ==> b.rcv.file == was)
             && (!(0 < j.count <= start) && Agrees(was, j.src, start * CHUNK_SIZE) ==>
                   b.rcv.file == j.src[..Covered(j)] + was[Min(Covered(j), |was|)..]))
  {
    var a := Start(j, start, was);
    var b := Reach(j, a, steps);
    if 0 < j.count <= start {
      NothingIsSent(j, a, steps, start, was);
    } else {
      InvStart(j, start, was);
      UndisturbedRunIsQuiet(j, a, steps, start, was);
      if b.rcv.phase == Received(0) && Agrees(was, j.src, start * CHUNK_SIZE) {
        if start < j.count || j.count == 0 { SuccessDelivers(j, start, was, steps); }
      }
    }
    if !Finished(b) {
      var step := SomeProgramMoves(j, b, start, was);
      assert IsDownloadMove(b, step) && Enabled(j, b, step);
    }
  }

  // ----- a download resumed on part of the file -----

  /** A number that does not fit an `int` is never the start of a transfer past the bytes at hand. */
  lemma NarrowedStartsInside(have: nat)
    requires ResumeChunk(have) > INT_MAX && DownloadStart(have) < SIZE_T - 0x8000_0000
    ensures DownloadStart(have) * CHUNK_SIZE <= have
  {
    NarrowedIff(ResumeChunk(have));
    FloatAtMostDouble(have);
  }

  /** A download resumed on top of a prefix of the file is right exactly when the local size did not
      round up past bytes that are not zero. */
  lemma ResumedDownloadIff(j: Job, have: nat, steps: seq<Step>)
    requires ValidJob(j) && have <= |j.src| < SIZE_T
    requires DownloadStart(have) < j.count
    requires CanRun(j, Start(j, DownloadStart(have), j.src[..have]), steps)
    requires Reach(j, Start(j, DownloadStart(have), j.src[..have]), steps).rcv.phase == Received(0)
    ensures var file, lo := Reach(j, Start(j, DownloadStart(have), j.src[..have]), steps).rcv.file,
                            DownloadStart(have) * CHUNK_SIZE;
            && lo <= |j.src| && |file| >= Covered(j)
            && (file[..Covered(j)] == j.src[..Covered(j)] <==>
                ResumeChunk(have) > INT_MAX || !ResumesPast(have) || forall i :: have <= i < lo ==> j.src[i] == 0)
  {
    var first := DownloadStart(have);
    StartDecides(j, first, j.src[..have], steps);
    HeadOfPrefixIff(j.src, have, first * CHUNK_SIZE);
    if ResumeChunk(have) <= INT_MAX { StartsInsideBytes(have); } else { NarrowedStartsInside(have); }
  }

  /** With 4097 chunks less one byte at hand, and that byte not zero, the resumed download reports
      success and is wrong. */
  lemma ResumedDownloadFails(j: Job, steps: seq<Step>)
    requires ValidJob(j) && 4097 < j.count && 0x100_0FFF < |j.src| < SIZE_T && j.src[0x100_0FFF] != 0
    requires CanRun(j, Start(j, DownloadStart(0x100_0FFF), j.src[..0x100_0FFF]), steps)
    requires Reach(j, Start(j, DownloadStart(0x100_0FFF), j.src[..0x100_0FFF]), steps).rcv.phase == Received(0)
    ensures var file := Reach(j, Start(j, DownloadStart(0x100_0FFF), j.src[..0x100_0FFF]), steps).rcv.file;
            |file| >= Covered(j) && file[..Covered(j)] != j.src[..Covered(j)]
  {
    ResumeSkipsAByte();
    StartsInsideBytes(0x100_0FFF);
    ResumedDownloadIff(j, 0x100_0FFF, steps);
  }

  // ----- a file fetched again -----

  /** The client that has the whole file asks for a chunk at or past the last one. */
  lemma AsksPastEndIff(size: nat)
    requires ResumeChunk(size) < 0x1_0000_0000
    ensures 0 < CountedChunks(size) <= DownloadStart(size) <==> ToFloat(size) > 0 && ToFloat(size) % CHUNK_SIZE == 0
    ensures !(ToFloat(size) > 0 && ToFloat(size) % CHUNK_SIZE == 0) ==> size < 0x10_0000_0000
  {
    var n := ResumeChunk(size);
    NarrowedIff(n);
    if size < 0x10_0000_0000 {
      RoundingStaysInChunk(size);
    } else {
      RoundedIsWhole(size);
      LargeFloatIsPositive(size);
    }
    if ToFloat(size) % CHUNK_SIZE == 0 {
      CeilingOfWhole(size, ToFloat(size));
      assert CountedChunks(size) == n;
    } else {
      assert CountedChunks(size) == n + 1;
    }
  }

  /** A complete file fetched again is unharmed. Below 2^44 bytes the client is told of a failure, -2,
      exactly when the size, as a float, is a positive whole number of chunks: then it asks for the
      chunk behind the last one. */
  lemma RepeatedDownload(src: seq<byte>, digest: seq<byte> -> Checksum, steps: seq<Step>)
    requires ResumeChunk(|src|) < 0x1_0000_0000
    requires var j, start := JobOf(src, digest), DownloadStart(|src|);
             CanRun(j, Start(j, start, src), steps) && Undisturbed(j, Start(j, start, src), steps)
    ensures var j := JobOf(src, digest);
            var b := Reach(j, Start(j, DownloadStart(|src|), src), steps);
            (exists step :: IsDownloadMove(b, step) && Enabled(j, b, step)) ||
            (b.snd.phase == Sent(0) && b.rcv.file == src
             && b.rcv.phase == Received(if ToFloat(|src|) > 0 && ToFloat(|src|) % CHUNK_SIZE == 0 then -2 else 0))
  {
    var j, start := JobOf(src, digest), DownloadStart(|src|);
    AsksPastEndIff(|src|);
    if |src| < 0x10_0000_0000 { JobIsValid(src, digest); }
    DownloadEnds(j, start, src, steps);
    if !(0 < j.count <= start) {
      assert src[..Covered(j)] + src[Covered(j)..] == src;
    }
  }

  /** 2^44 bytes: the number of the chunk asked for has no low half, and all is sent again. */
  lemma AllIsSentAgain()
    ensures ResumeChunk(0x1000_0000_0000) == 0x1_0000_0000 && DownloadStart(0x1000_0000_0000) == 0
  {
    PowerIsFloat(20);
    Pow2Splits(8, 12);
    Pow2IsTable(8);
    Pow2IsTable(12);
    assert SIGNIFICANDS * Pow2(20) == 0x1000_0000_0000;
  }
}

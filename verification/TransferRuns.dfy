/** Whole runs of the transfer: safety in every reachable state, when it can get stuck, how long it
    can last, and what is in the destination when it ends. */
module TransferRuns {
  import opened Common
  import opened ChunkCount
  import opened Chunks
  import opened Transfer

  predicate CanRun(j: Job, a: System, steps: seq<Step>)
    decreases steps
  {
    steps == [] || (Enabled(j, a, steps[0]) && CanRun(j, Apply(j, a, steps[0]), steps[1..]))
  }

  function Reach(j: Job, a: System, steps: seq<Step>): System
    requires CanRun(j, a, steps)
    decreases steps
  {
    if steps == [] then a else Reach(j, Apply(j, a, steps[0]), steps[1..])
  }

  lemma {:induction false} RunKeepsInv(j: Job, a: System, steps: seq<Step>, startChunk: nat, was: seq<byte>)
    requires ValidJob(j) && Inv(j, a, startChunk, was) && CanRun(j, a, steps)
    ensures Inv(j, Reach(j, a, steps), startChunk, was)
    decreases steps
  {
    if steps == [] {
    } else {
      StepKeepsInv(j, a, steps[0], startChunk, was);
      RunKeepsInv(j, Apply(j, a, steps[0]), steps[1..], startChunk, was);
    }
  }

  // ----- safety -----

  predicate Agrees(file: seq<byte>, src: seq<byte>, n: nat) {
    n <= |file| && n <= |src| && file[..n] == src[..n]
  }

  /** Writing a stretch of the source again never damages what already agreed. */
  lemma PatchKeepsAgreement(was: seq<byte>, src: seq<byte>, lo: nat, hi: nat, n: nat)
    requires Agrees(was, src, n) && lo <= n && hi <= |src|
    ensures Agrees(Patched(was, src, lo, hi), src, Max(n, hi))
    ensures |Patched(was, src, lo, hi)| == Max(|was|, hi)
    ensures Patched(was, src, lo, hi)[Max(n, hi)..] == was[Min(Max(n, hi), |was|)..]
  {
    if lo < hi {
      assert src[..lo] == was[..lo];
      PatchAgrees(was, src, lo, hi);
      assert src[..lo] + src[lo..hi] == src[..hi];
      var p := Patched(was, src, lo, hi);
      assert forall i :: hi <= i < |p| ==> p[i] == was[i];
      assert forall i :: 0 <= i < n ==> was[i] == was[..n][i] == src[..n][i] == src[i];
    }
  }

  /** Safety over every interleaving, corruption and loss, whatever the destination held. The numbers
      of the two loops differ by at most one, the sequence check and the short-read exit are never
      taken, and the receiver has written the source from the start chunk up to its offset, and
      nothing else. */
  lemma TransferIsSafe(j: Job, startChunk: nat, was: seq<byte>, steps: seq<Step>)
    requires ValidJob(j) && CanRun(j, Start(j, startChunk, was), steps)
    ensures var b, lo := Reach(j, Start(j, startChunk, was), steps), startChunk * CHUNK_SIZE;
            && b.snd.phase != Sent(-1) && b.rcv.phase != Received(-4)
            && (Awaited(b.rcv, startChunk) == b.snd.seqNo || Awaited(b.rcv, startChunk) == b.snd.seqNo + 1)
            && b.rcv.off == Min(b.rcv.seqNo * CHUNK_SIZE, |j.src|)
            && if b.rcv.off <= lo then b.rcv.file == was
               else
                 |b.rcv.file| == Max(|was|, b.rcv.off) && b.rcv.file[lo..b.rcv.off] == j.src[lo..b.rcv.off]
                 && b.rcv.file[..Min(lo, |was|)] == was[..Min(lo, |was|)]
                 && b.rcv.file[b.rcv.off..] == was[Min(b.rcv.off, |was|)..]
                 && forall i :: |was| <= i < lo ==> b.rcv.file[i] == 0
  {
    InvStart(j, startChunk, was);
    RunKeepsInv(j, Start(j, startChunk, was), steps, startChunk, was);
    var b, lo := Reach(j, Start(j, startChunk, was), steps), startChunk * CHUNK_SIZE;
    if lo < b.rcv.off { PatchEffect(was, j.src, lo, b.rcv.off); }
  }

  /** If the first n bytes of the destination were right (n at or past the start), they and everything
      up to the receiver's offset are right; bytes past both are untouched. */
  lemma AgreementGrows(j: Job, startChunk: nat, was: seq<byte>, n: nat, steps: seq<Step>)
    requires ValidJob(j) && CanRun(j, Start(j, startChunk, was), steps)
    requires Agrees(was, j.src, n) && startChunk * CHUNK_SIZE <= n
    ensures var r := Reach(j, Start(j, startChunk, was), steps).rcv;
            && Agrees(r.file, j.src, Max(n, r.off)) && |r.file| == Max(|was|, r.off)
            && r.file[Max(n, r.off)..] == was[Min(Max(n, r.off), |was|)..]
  {
    InvStart(j, startChunk, was);
    RunKeepsInv(j, Start(j, startChunk, was), steps, startChunk, was);
    var r := Reach(j, Start(j, startChunk, was), steps).rcv;
    if !(r.seqNo == 0 && !r.phase.Writing?) {
      PatchKeepsAgreement(was, j.src, startChunk * CHUNK_SIZE, r.off, n);
    }
  }

  predicate Finished(a: System) { a.snd.phase.Sent? && a.rcv.phase.Received? }

  predicate Succeeded(a: System) { a.snd.phase == Sent(0) && a.rcv.phase == Received(0) }

  /** When the receiver reports success the destination holds every counted byte of the source,
      followed by whatever an older, longer destination had behind them. */
  lemma SuccessDelivers(j: Job, startChunk: nat, was: seq<byte>, steps: seq<Step>)
    requires ValidJob(j) && CanRun(j, Start(j, startChunk, was), steps)
    requires startChunk < j.count || j.count == 0
    requires Agrees(was, j.src, startChunk * CHUNK_SIZE)
    requires Reach(j, Start(j, startChunk, was), steps).rcv.phase == Received(0)
    ensures Reach(j, Start(j, startChunk, was), steps).rcv.file
            == j.src[..Covered(j)] + was[Min(Covered(j), |was|)..]
  {
    var a := Start(j, startChunk, was);
    InvStart(j, startChunk, was);
    RunKeepsInv(j, a, steps, startChunk, was);
    var b := Reach(j, a, steps);
    if b.rcv.seqNo == 0 {
      assert j.src[..0] + was[0..] == was;
    } else {
      PatchAgrees(was, j.src, startChunk * CHUNK_SIZE, b.rcv.off);
    }
  }

  lemma ReceivedIsPatched(j: Job, first: nat, was: seq<byte>, steps: seq<Step>)
    requires ValidJob(j) && first < j.count && CanRun(j, Start(j, first, was), steps)
    requires Reach(j, Start(j, first, was), steps).rcv.phase == Received(0)
    ensures Reach(j, Start(j, first, was), steps).rcv.file == Patched(was, j.src, first * CHUNK_SIZE, Covered(j))
  {
    InvStart(j, first, was);
    RunKeepsInv(j, Start(j, first, was), steps, first, was);
  }

  /** What a successful transfer leaves is the source up to the counted end exactly when the
      destination held the source before the start chunk, a hole counting as zeros: a resumed
      transfer is only as right as what it resumes on, be it another file's or cut off. */
  lemma StartDecides(j: Job, first: nat, was: seq<byte>, steps: seq<Step>)
    requires ValidJob(j) && first < j.count && CanRun(j, Start(j, first, was), steps)
    requires Reach(j, Start(j, first, was), steps).rcv.phase == Received(0)
    ensures var file, lo := Reach(j, Start(j, first, was), steps).rcv.file, first * CHUNK_SIZE;
            && lo <= |j.src| && |file| >= Covered(j)
            && (file[..Covered(j)] == j.src[..Covered(j)] <==> Head(was, lo) == j.src[..lo])
            && file[Covered(j)..] == was[Min(Covered(j), |was|)..]
  {
    ReceivedIsPatched(j, first, was, steps);
    var lo, hi := first * CHUNK_SIZE, Covered(j);
    WriteSplits(was, lo, j.src[lo..hi]);
    var head, data := Head(was, lo), j.src[lo..hi];
    var file := head + data + Rest(was, lo + |data|);
    assert file[..hi] == head + data && file[..lo] == head;
    assert j.src[..hi] == j.src[..lo] + data && j.src[..hi][..lo] == j.src[..lo];
    assert file[..hi][..lo] == head;
  }

  // ----- progress -----

  /** Steps of the two programs, as opposed to those of the environment. */
  predicate IsMove(step: Step) { !step.Corrupt? && !step.Cut? }

  ghost predicate Stuck(j: Job, a: System) {
    !Finished(a) && forall step :: IsMove(step) ==> !Enabled(j, a, step)
  }

  ghost predicate Deadlocks(j: Job, a: System, steps: seq<Step>) {
    CanRun(j, a, steps) && Stuck(j, Reach(j, a, steps))
  }

  lemma SomeoneCanMove(j: Job, a: System, startChunk: nat, was: seq<byte>) returns (step: Step)
    requires ValidJob(j) && Inv(j, a, startChunk, was) && !Finished(a)
    requires startChunk < j.count || j.count == 0 || !a.up
    ensures IsMove(step) && Enabled(j, a, step)
  {
    if a.rcv.phase.Writing? { step := Write; }
    else if a.rcv.phase.Receiving? && a.rcv.seqNo >= j.count { step := Finish; }
    else if a.rcv.phase.Receiving? && a.toRcv != [] { step := TakeChunk; }
    else if a.rcv.phase.Receiving? && !a.up { step := NoChunk(-2); }
    else {
      match a.snd.phase
      case Reading => step := Read;
      case Sending(_) => step := Send;
      case Awaiting(_) => if a.toSnd != [] { step := GetReply; } else { step := NoReply; }
      case Sent(_) => assert false;
    }
  }

  /** Asked to start at or past its last chunk, the sender is done at once, and the receiver, which
      learns the start from the first chunk, waits. */
  lemma StartPastEndDeadlocks(j: Job, startChunk: nat, was: seq<byte>)
    requires 0 < j.count <= startChunk
    ensures Deadlocks(j, Start(j, startChunk, was), [Read])
  {
    var a := Start(j, startChunk, was);
    var b := Apply(j, a, Read);
    assert [Read][1..] == [] && CanRun(j, b, [Read][1..]);
    assert Reach(j, a, [Read]) == b;
  }

  /** The transfer can deadlock exactly when it is asked to start at or past its last chunk. */
  lemma DeadlockIff(j: Job, startChunk: nat, was: seq<byte>)
    requires ValidJob(j)
    ensures (exists steps :: Deadlocks(j, Start(j, startChunk, was), steps)) <==> 0 < j.count <= startChunk
  {
    var a := Start(j, startChunk, was);
    InvStart(j, startChunk, was);
    if 0 < j.count <= startChunk {
      StartPastEndDeadlocks(j, startChunk, was);
    } else {
      forall steps | CanRun(j, a, steps) ensures !Deadlocks(j, a, steps) {
        var b := Reach(j, a, steps);
        RunKeepsInv(j, a, steps, startChunk, was);
        if !Finished(b) { var step := SomeoneCanMove(j, b, startChunk, was); }
      }
    }
  }

  // ----- termination -----

  function Left(j: Job, s: Sender): nat { if s.seqNo < j.count then j.count - s.seqNo else 0 }

  /** Chunks left weigh most; inside one chunk the rank falls from the message in flight to the
      reply, and a corrupted chunk stands above the repeat it will cause. */
  function SenderRank(j: Job, a: System): int {
    match a.snd.phase
    case Reading => 12 * Left(j, a.snd) + 1
    case Sending(_) => 12 * Left(j, a.snd) - 1
    case Awaiting(_) =>
      12 * Left(j, a.snd) +
      (if a.toRcv != [] then (if Intact(j.digest, a.toRcv[0]) then -2 else 1)
       else if a.toSnd != [] then (if a.toSnd[0].Ok? then -6 else 0) else -7)
    case Sent(_) => if a.toRcv != [] then 4 else 0
  }

  function Rank(j: Job, a: System): int {
    SenderRank(j, a)
    + (match a.rcv.phase case Writing(_) => 2 case Receiving => 1 case Received(_) => 0)
    + (if a.up then 1 else 0)
  }

  function Gain(step: Step): int { if step.Corrupt? then 3 else -1 }

  lemma SenderStepLowersRank(j: Job, a: System, step: Step, startChunk: nat, was: seq<byte>)
    requires ValidJob(j) && Inv(j, a, startChunk, was) && Enabled(j, a, step)
    requires step.Read? || step.Send? || step.SendFails? || step.GetReply? || step.NoReply?
    ensures Rank(j, Apply(j, a, step)) <= Rank(j, a) - 1
  {
    if step.Send? { ChunksTile(j, a.snd.seqNo); }
  }

  lemma ReceiverStepLowersRank(j: Job, a: System, step: Step, startChunk: nat, was: seq<byte>)
    requires ValidJob(j) && Inv(j, a, startChunk, was) && Enabled(j, a, step)
    requires step.TakeChunk? || step.ReplyFails? || step.NoChunk? || step.Write? || step.Finish?
    ensures Rank(j, Apply(j, a, step)) <= Rank(j, a) - 1
  {
    if step.TakeChunk? || step.ReplyFails? { TakenChunkIsAwaited(j, a, startChunk, was); }
  }

  lemma StepLowersRank(j: Job, a: System, step: Step, startChunk: nat, was: seq<byte>)
    requires ValidJob(j) && Inv(j, a, startChunk, was) && Enabled(j, a, step)
    ensures Rank(j, a) >= 0
    ensures Rank(j, Apply(j, a, step)) <= Rank(j, a) + Gain(step)
  {
    match step
    case Corrupt(c) =>
    case Cut(chunks, replies) =>
    case Read | Send | SendFails | GetReply | NoReply => SenderStepLowersRank(j, a, step, startChunk, was);
    case _ => ReceiverStepLowersRank(j, a, step, startChunk, was);
  }

  function Corruptions(steps: seq<Step>): nat {
    if steps == [] then 0 else (if steps[0].Corrupt? then 1 else 0) + Corruptions(steps[1..])
  }

  lemma {:induction false} RunIsBounded(j: Job, a: System, steps: seq<Step>, startChunk: nat, was: seq<byte>)
    requires ValidJob(j) && Inv(j, a, startChunk, was) && CanRun(j, a, steps)
    ensures |steps| <= Rank(j, a) + 4 * Corruptions(steps)
    decreases steps
  {
    if steps == [] {
      assert Rank(j, a) >= 0;
    } else {
      StepKeepsInv(j, a, steps[0], startChunk, was);
      StepLowersRank(j, a, steps[0], startChunk, was);
      RunIsBounded(j, Apply(j, a, steps[0]), steps[1..], startChunk, was);
    }
  }

  /** A run lasts at most twelve steps per chunk to send, four per corruption, and three more. */
  lemma TransferTerminates(j: Job, startChunk: nat, was: seq<byte>, steps: seq<Step>)
    requires ValidJob(j) && CanRun(j, Start(j, startChunk, was), steps)
    ensures |steps| <= 12 * Left(j, StartSender(startChunk)) + 3 + 4 * Corruptions(steps)
  {
    InvStart(j, startChunk, was);
    RunIsBounded(j, Start(j, startChunk, was), steps, startChunk, was);
  }

  predicate NoCut(steps: seq<Step>) { forall step :: step in steps ==> !step.Cut? }

  lemma {:induction false} UncutRunStaysUp(j: Job, a: System, steps: seq<Step>)
    requires CanRun(j, a, steps) && NoCut(steps) && a.up
    ensures Reach(j, a, steps).up
    decreases steps
  {
    if steps == [] {
    } else {
      assert steps[0] in steps;
      UncutRunStaysUp(j, Apply(j, a, steps[0]), steps[1..]);
    }
  }

  /** Total correctness: a run without a disconnection that neither program can extend has both
      ends successful and the whole counted content delivered. */
  lemma CompletedTransferSucceeds(j: Job, startChunk: nat, was: seq<byte>, steps: seq<Step>)
    requires ValidJob(j) && CanRun(j, Start(j, startChunk, was), steps) && NoCut(steps)
    requires startChunk < j.count || j.count == 0
    requires Agrees(was, j.src, startChunk * CHUNK_SIZE)
    requires forall step :: IsMove(step) ==> !Enabled(j, Reach(j, Start(j, startChunk, was), steps), step)
    ensures var b := Reach(j, Start(j, startChunk, was), steps);
            Succeeded(b) && b.rcv.seqNo == j.count
            && b.rcv.file == j.src[..Covered(j)] + was[Min(Covered(j), |was|)..]
  {
    var a := Start(j, startChunk, was);
    InvStart(j, startChunk, was);
    RunKeepsInv(j, a, steps, startChunk, was);
    UncutRunStaysUp(j, a, steps);
    var b := Reach(j, a, steps);
    if !Finished(b) { var step := SomeoneCanMove(j, b, startChunk, was); }
    SuccessDelivers(j, startChunk, was, steps);
  }
}

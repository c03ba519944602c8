/** An upload that never ends: the name of an interrupted upload is used again for a shorter file. The
    server asks for a chunk the new file does not have; the client sends nothing and waits for the
    final message, and the server waits for a chunk. */
module UploadStalls {
  import opened Common
  import opened ChunkCount
  import opened Chunks
  import opened Transfer
  import opened TransferRuns
  import opened Resume

  lemma {:induction false} RunsChain(j: Job, a: System, first: seq<Step>, second: seq<Step>)
    requires CanRun(j, a, first) && CanRun(j, Reach(j, a, first), second)
    ensures CanRun(j, a, first + second) && Reach(j, a, first + second) == Reach(j, Reach(j, a, first), second)
    decreases |first|
  {
    if first == [] {
      assert first + second == second;
    } else {
      RunsChain(j, Apply(j, a, first[0]), first[1..], second);
      assert (first + second)[1..] == first[1..] + second;
    }
  }

  lemma OneStep(j: Job, a: System, step: Step)
    requires Enabled(j, a, step)
    ensures CanRun(j, a, [step]) && Reach(j, a, [step]) == Apply(j, a, step)
  {
    assert [step][1..] == [];
    assert CanRun(j, Apply(j, a, step), []);
  }

  /** One chunk, from its reading to its reply. */
  function Round(): seq<Step> { [Read] + [Send] + ([TakeChunk] + [Write]) + [GetReply] }

  function Rounds(n: nat): seq<Step> { if n == 0 then [] else Rounds(n - 1) + Round() }

  /** Between two chunks: the first n are in place, nothing is in flight. */
  function Level(j: Job, was: seq<byte>, n: nat): System {
    var off := Min(n * CHUNK_SIZE, |j.src|);
    System(Sender(n, off, off, Reading), Receiver(n, off, Patched(was, j.src, 0, off), Receiving), [], [], true)
  }

  /** Chunk n is on its way. */
  function InFlight(j: Job, was: seq<byte>, n: nat): System
    requires n * CHUNK_SIZE < |j.src|
  {
    var a, c := Level(j, was, n), ChunkAt(j, n);
    a.(snd := Sender(n, a.snd.start, a.snd.pos + c.hdr.length, Awaiting(c)), toRcv := [c])
  }

  lemma ChunkLeaves(j: Job, was: seq<byte>, n: nat)
    requires n < j.count && n * CHUNK_SIZE < |j.src|
    ensures CanRun(j, Level(j, was, n), [Read] + [Send])
    ensures Reach(j, Level(j, was, n), [Read] + [Send]) == InFlight(j, was, n)
  {
    var a := Level(j, was, n);
    OneStep(j, a, Read);
    OneStep(j, Apply(j, a, Read), Send);
    RunsChain(j, a, [Read], [Send]);
  }

  lemma ChunkArrives(j: Job, was: seq<byte>, n: nat)
    requires n < j.count && n * CHUNK_SIZE < |j.src|
    ensures CanRun(j, InFlight(j, was, n), [TakeChunk] + [Write])
    ensures var b := Reach(j, InFlight(j, was, n), [TakeChunk] + [Write]);
            b == InFlight(j, was, n).(rcv := Level(j, was, n + 1).rcv, toRcv := [], toSnd := [Ok])
  {
    hide WriteAt, Patched, Intact;
    var a := InFlight(j, was, n);
    ChunksTile(j, n);
    OneStep(j, a, TakeChunk);
    var b := Apply(j, a, TakeChunk);
    assert b.rcv == a.rcv.(phase := Writing(ChunkAt(j, n)));
    OneStep(j, b, Write);
    PatchGrows(was, j.src, 0, a.rcv.off, Min((n + 1) * CHUNK_SIZE, |j.src|));
    assert a.toRcv[0].data[..a.toRcv[0].hdr.length] == a.toRcv[0].data;
    RunsChain(j, a, [TakeChunk], [Write]);
  }

  lemma RoundRuns(j: Job, was: seq<byte>, n: nat)
    requires n < j.count && n * CHUNK_SIZE < |j.src|
    ensures CanRun(j, Level(j, was, n), Round()) && Reach(j, Level(j, was, n), Round()) == Level(j, was, n + 1)
  {
    var a, b := Level(j, was, n), InFlight(j, was, n);
    ChunkLeaves(j, was, n);
    ChunkArrives(j, was, n);
    RunsChain(j, a, [Read] + [Send], [TakeChunk] + [Write]);
    OneStep(j, Reach(j, b, [TakeChunk] + [Write]), GetReply);
    RunsChain(j, a, [Read] + [Send] + ([TakeChunk] + [Write]), [GetReply]);
  }

  lemma {:induction false} RoundsRun(j: Job, was: seq<byte>, n: nat)
    requires n <= j.count && (n > 0 ==> (n - 1) * CHUNK_SIZE < |j.src|)
    ensures CanRun(j, Start(j, 0, was), Rounds(n)) && Reach(j, Start(j, 0, was), Rounds(n)) == Level(j, was, n)
  {
    if n == 0 {
    } else {
      RoundsRun(j, was, n - 1);
      RoundRuns(j, was, n - 1);
      RunsChain(j, Start(j, 0, was), Rounds(n - 1), Round());
    }
  }

  /** An upload whose connection is lost after n chunks, as the failing call reports it. */
  function LostAfter(n: nat, code: int): Attempt { Attempt(0, Rounds(n) + [Cut(0, 0)] + [NoChunk(code)], true) }

  /** However the loss shows, as a failure or as the end of the stream, the upload is resumed there. */
  lemma LostAfterOffers(j: Job, was: seq<byte>, n: nat, code: int)
    requires ValidJob(j) && n < j.count && (code == -1 || code == -2)
    ensures CanAttempt(j, Store(0, was), LostAfter(n, code))
    ensures Outcome(j, Store(0, was), LostAfter(n, code)).phase == Received(code)
    ensures AfterAttempt(j, Store(0, was), LostAfter(n, code)).offer == n
  {
    var a, b := Start(j, 0, was), Level(j, was, n);
    RoundsRun(j, was, n);
    OneStep(j, b, Cut(0, 0));
    RunsChain(j, a, Rounds(n), [Cut(0, 0)]);
    OneStep(j, Apply(j, b, Cut(0, 0)), NoChunk(code));
    RunsChain(j, a, Rounds(n) + [Cut(0, 0)], [NoChunk(code)]);
  }

  /** What the server holds decides: an upload can get stuck exactly when the byte of the offered
      number that the client keeps is at or past a positive chunk count. */
  lemma UploadStallsIff(j: Job, s: Store)
    requires ValidJob(j)
    ensures (exists steps :: Deadlocks(j, Start(j, ClientRestart(s.offer), s.file), steps))
            <==> 0 < j.count <= s.offer % 256
  {
    ClientRestartsEarlier(s.offer);
    DeadlockIff(j, ClientRestart(s.offer), s.file);
  }

  /** For every two files, the second one shorter and of less than 256 chunks, some interruption of the
      first makes the upload of the second under the same name get stuck at once. */
  lemma ShorterUploadStalls(long: Job, short: Job, was: seq<byte>)
    requires ValidJob(long) && 0 < short.count < 256 && short.count < long.count
    ensures CanAttempt(long, Store(0, was), LostAfter(short.count, -2))
    ensures var s := AfterAttempt(long, Store(0, was), LostAfter(short.count, -2));
            Deadlocks(short, Start(short, ClientRestart(s.offer), s.file), [Read])
  {
    LostAfterOffers(long, was, short.count, -2);
    var s := AfterAttempt(long, Store(0, was), LostAfter(short.count, -2));
    ClientRestartsEarlier(s.offer);
    StartPastEndDeadlocks(short, ClientRestart(s.offer), s.file);
  }
}

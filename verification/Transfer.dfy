/** The two ends of a chunked transfer, and the step system they form over a connection that may
    deliver a chunk detectably corrupted and may be lost at any moment. */
module Transfer {
  import opened Common
  import opened ChunkCount
  import opened Chunks

  /** CHUNK_OK, or any other reply: the sender tells no other types apart. */
  datatype Reply = Ok | Again

  datatype SenderPhase = Reading | Sending(c: Chunk) | Awaiting(c: Chunk) | Sent(code: int)

  /** Locals of the sending loop; `pos` is the offset of the open file. */
  datatype Sender = Sender(seqNo: nat, start: nat, pos: nat, phase: SenderPhase)

  datatype ReceiverPhase = Receiving | Writing(c: Chunk) | Received(code: int)

  /** Locals of the receiving loop; `off` is the offset of the destination, `file` its bytes. */
  datatype Receiver = Receiver(seqNo: nat, off: nat, file: seq<byte>, phase: ReceiverPhase)

  function StartSender(startChunk: nat): Sender {
    Sender(startChunk, startChunk * CHUNK_SIZE, startChunk * CHUNK_SIZE, Reading)
  }

  /** Top of the sending loop: stop, or read the next chunk and put its header together. */
  function ReadChunk(j: Job, s: Sender): Sender {
    if s.seqNo >= j.count then s.(phase := Sent(0))
    else if s.pos >= |j.src| then s.(phase := Sent(-1))
    else
      var data := j.src[s.pos..Min(s.pos + CHUNK_SIZE, |j.src|)];
      var hdr := ChunkHdr(s.seqNo, s.start, s.start + |data| - 1, |data|, j.digest(data));
      s.(pos := s.pos + |data|, phase := Sending(Chunk(hdr, data)))
  }

  /** A reply arrived: go on after OK, send the same chunk again otherwise. */
  function OnReply(s: Sender, reply: Reply): Sender
    requires s.phase.Awaiting?
  {
    if reply.Ok? then Sender(s.seqNo + 1, s.start + s.phase.c.hdr.length, s.pos, Reading)
    else s.(phase := Sending(s.phase.c))
  }

  function StartReceiver(file: seq<byte>): Receiver {
    Receiver(0, 0, file, Receiving)
  }

  /** What the receiving loop makes of a chunk, up to its reply (if there is one). */
  datatype Verdict = Refuse | Mismatch(rcv: Receiver) | Accept(rcv: Receiver)

  function Judge(digest: seq<byte> -> Checksum, r: Receiver, c: Chunk): Verdict {
    if !Intact(digest, c) then Refuse
    else
      var q := if r.seqNo == 0 && c.hdr.seqNo > 0
               then r.(seqNo := c.hdr.seqNo, off := c.hdr.seqNo * CHUNK_SIZE) else r;
      if q.seqNo != c.hdr.seqNo then Mismatch(q.(phase := Received(-4)))
      else Accept(q.(phase := Writing(c)))
  }

  function WriteChunk(r: Receiver): Receiver
    requires r.phase.Writing?
  {
    var c := r.phase.c;
    var data := c.data[..Min(c.hdr.length, |c.data|)];
    Receiver(r.seqNo + 1, r.off + |data|, WriteAt(r.file, r.off, data), Receiving)
  }

  // ----- the step system -----

  /** `toRcv` and `toSnd` are the messages in flight; `up` tells whether the connection still holds. */
  datatype System = System(snd: Sender, rcv: Receiver, toRcv: seq<Chunk>, toSnd: seq<Reply>, up: bool)

  datatype Step =
    | Read | Send | SendFails | GetReply | NoReply
    | TakeChunk | ReplyFails(code: int) | NoChunk(code: int) | Write | Finish
    | Corrupt(c: Chunk) | Cut(chunks: nat, replies: nat)

  function Start(j: Job, startChunk: nat, file: seq<byte>): System {
    System(StartSender(startChunk), StartReceiver(file), [], [], true)
  }

  predicate IsLoss(code: int) { code == -1 || code == -2 }

  /** Messages put on a lost connection vanish. */
  function Put<T>(queue: seq<T>, m: T, up: bool): seq<T> {
    if up then queue + [m] else queue
  }

  predicate Enabled(j: Job, a: System, step: Step) {
    match step
    case Read => a.snd.phase.Reading?
    case Send => a.snd.phase.Sending?
    case SendFails => a.snd.phase.Sending? && !a.up
    case GetReply => a.snd.phase.Awaiting? && a.toSnd != []
    case NoReply => a.snd.phase.Awaiting? && a.toSnd == [] && !a.up
    case TakeChunk => a.rcv.phase.Receiving? && a.rcv.seqNo < j.count && a.toRcv != []
    case ReplyFails(code) => a.rcv.phase.Receiving? && a.rcv.seqNo < j.count && a.toRcv != [] && !a.up
                             && IsLoss(code) && !Judge(j.digest, a.rcv, a.toRcv[0]).Mismatch?
    case NoChunk(code) => a.rcv.phase.Receiving? && a.rcv.seqNo < j.count && a.toRcv == [] && !a.up && IsLoss(code)
    case Write => a.rcv.phase.Writing?
    case Finish => a.rcv.phase.Receiving? && a.rcv.seqNo >= j.count
    case Corrupt(c) => a.toRcv != [] && !Intact(j.digest, c)
    case Cut(chunks, replies) => a.up && chunks <= |a.toRcv| && replies <= |a.toSnd|
  }

  /** The receiver could not send its reply: an accepted chunk is not written. */
  function Unanswered(digest: seq<byte> -> Checksum, r: Receiver, c: Chunk, code: int): Receiver {
    match Judge(digest, r, c)
    case Refuse => r.(phase := Received(code))
    case Mismatch(q) => q
    case Accept(q) => q.(phase := Received(code))
  }

  function Apply(j: Job, a: System, step: Step): System
    requires Enabled(j, a, step)
  {
    match step
    case Read => a.(snd := ReadChunk(j, a.snd))
    case Send => a.(snd := a.snd.(phase := Awaiting(a.snd.phase.c)), toRcv := Put(a.toRcv, a.snd.phase.c, a.up))
    case SendFails => a.(snd := a.snd.(phase := Sent(-5)))
    case GetReply => a.(snd := OnReply(a.snd, a.toSnd[0]), toSnd := a.toSnd[1..])
    case NoReply => a.(snd := a.snd.(phase := Sent(-6)))
    case TakeChunk =>
      var b := a.(toRcv := a.toRcv[1..]);
      (match Judge(j.digest, a.rcv, a.toRcv[0])
       case Refuse => b.(toSnd := Put(a.toSnd, Again, a.up))
       case Mismatch(r) => b.(rcv := r)
       case Accept(r) => b.(rcv := r, toSnd := Put(a.toSnd, Ok, a.up)))
    case ReplyFails(code) => a.(toRcv := a.toRcv[1..], rcv := Unanswered(j.digest, a.rcv, a.toRcv[0], code))
    case NoChunk(code) => a.(rcv := a.rcv.(phase := Received(code)))
    case Write => a.(rcv := WriteChunk(a.rcv))
    case Finish => a.(rcv := a.rcv.(phase := Received(0)))
    case Corrupt(c) => a.(toRcv := [c] + a.toRcv[1..])
    case Cut(chunks, replies) => a.(toRcv := a.toRcv[..chunks], toSnd := a.toSnd[..replies], up := false)
  }

  // ----- what every reachable state satisfies -----

  /** The chunk the receiver will accept next; `startChunk` until it has accepted one. */
  function Awaited(r: Receiver, startChunk: nat): nat {
    if r.phase.Writing? then r.seqNo + 1 else if r.seqNo == 0 then startChunk else r.seqNo
  }

  predicate ChunkInHand(j: Job, s: Sender, c: Chunk) {
    s.seqNo < j.count && s.seqNo * CHUNK_SIZE < |j.src| && c == ChunkAt(j, s.seqNo)
    && s.start == s.seqNo * CHUNK_SIZE && s.pos == s.start + c.hdr.length
  }

  predicate SenderOk(j: Job, s: Sender, startChunk: nat) {
    startChunk <= s.seqNo &&
    match s.phase
    case Reading => s.start == s.pos && (s.seqNo < j.count ==> s.pos == s.seqNo * CHUNK_SIZE)
    case Sending(c) => ChunkInHand(j, s, c)
    case Awaiting(c) => ChunkInHand(j, s, c)
    case Sent(code) => (code == 0 && s.seqNo >= j.count) || ((code == -5 || code == -6) && s.seqNo < j.count)
  }

  /** The destination holds the source from the start chunk up to the receiver's offset, and is
      otherwise as it was found. */
  predicate ReceiverOk(j: Job, r: Receiver, startChunk: nat, was: seq<byte>) {
    if r.seqNo == 0 && !r.phase.Writing? then r.off == 0 && r.file == was
    else
      startChunk <= r.seqNo <= j.count && r.off == Min(r.seqNo * CHUNK_SIZE, |j.src|)
      && r.file == Patched(was, j.src, startChunk * CHUNK_SIZE, r.off)
      && (r.phase.Writing? ==> r.seqNo < j.count && r.seqNo * CHUNK_SIZE < |j.src| && r.phase.c == ChunkAt(j, r.seqNo))
  }

  /** One message is in flight at a time, and the two loops are at most one chunk apart. */
  predicate LinkOk(j: Job, a: System, startChunk: nat) {
    var next, awaiting := Awaited(a.rcv, startChunk), a.snd.phase.Awaiting?;
    && (next == a.snd.seqNo || next == a.snd.seqNo + 1)
    && (next == a.snd.seqNo + 1 ==> (awaiting && (a.up ==> a.toSnd == [Ok])) || a.snd.phase == Sent(-6))
    && |a.toRcv| + |a.toSnd| <= 1
    && (a.up ==> (|a.toRcv| + |a.toSnd| == 1 <==> awaiting))
    && (a.toSnd != [] ==> awaiting && next == a.snd.seqNo + (if a.toSnd[0].Ok? then 1 else 0))
    && (a.toRcv != [] ==> (awaiting || a.snd.phase == Sent(-6)) && next == a.snd.seqNo < j.count
                          && a.snd.seqNo * CHUNK_SIZE < |j.src|
                          && (a.toRcv[0] == ChunkAt(j, a.snd.seqNo) || !Intact(j.digest, a.toRcv[0])))
    && (a.snd.phase.Sent? && a.snd.phase.code != 0 ==> !a.up)
    && (a.rcv.phase.Received? ==> if a.rcv.phase.code == 0 then a.rcv.seqNo >= j.count
                                  else IsLoss(a.rcv.phase.code) && !a.up && a.rcv.seqNo < j.count)
  }

  predicate Inv(j: Job, a: System, startChunk: nat, was: seq<byte>) {
    SenderOk(j, a.snd, startChunk) && ReceiverOk(j, a.rcv, startChunk, was) && LinkOk(j, a, startChunk)
  }

  lemma InvStart(j: Job, startChunk: nat, file: seq<byte>)
    requires ValidJob(j)
    ensures Inv(j, Start(j, startChunk, file), startChunk, file)
  {
  }

  lemma WritingKeepsReceiverOk(j: Job, r: Receiver, startChunk: nat, was: seq<byte>)
    requires ReceiverOk(j, r, startChunk, was) && r.phase.Writing?
    ensures ReceiverOk(j, WriteChunk(r), startChunk, was)
  {
    var c := r.phase.c;
    var lo, mid, hi := startChunk * CHUNK_SIZE, r.off, Min((r.seqNo + 1) * CHUNK_SIZE, |j.src|);
    assert c.data == j.src[mid..hi];
    assert c.data[..Min(c.hdr.length, |c.data|)] == c.data;
    PatchGrows(was, j.src, lo, mid, hi);
    assert WriteChunk(r) == Receiver(r.seqNo + 1, hi, Patched(was, j.src, lo, hi), Receiving);
  }

  /** An intact chunk in flight is the awaited one, so the sequence check always passes. */
  lemma TakenChunkIsAwaited(j: Job, a: System, startChunk: nat, was: seq<byte>)
    requires ValidJob(j) && Inv(j, a, startChunk, was)
    requires a.rcv.phase.Receiving? && a.toRcv != []
    ensures !Judge(j.digest, a.rcv, a.toRcv[0]).Mismatch?
    ensures Intact(j.digest, a.toRcv[0]) <==> a.toRcv[0] == ChunkAt(j, a.snd.seqNo)
  {
    ChunksTile(j, a.snd.seqNo);
  }

  lemma SendingKeepsInv(j: Job, a: System, step: Step, startChunk: nat, was: seq<byte>)
    requires ValidJob(j) && Inv(j, a, startChunk, was) && Enabled(j, a, step)
    requires step.Read? || step.Send? || step.SendFails?
    ensures Inv(j, Apply(j, a, step), startChunk, was)
  {
  }

  lemma AwaitingKeepsInv(j: Job, a: System, step: Step, startChunk: nat, was: seq<byte>)
    requires ValidJob(j) && Inv(j, a, startChunk, was) && Enabled(j, a, step)
    requires step.GetReply? || step.NoReply?
    ensures Inv(j, Apply(j, a, step), startChunk, was)
  {
  }

  lemma TakingKeepsInv(j: Job, a: System, step: Step, startChunk: nat, was: seq<byte>)
    requires ValidJob(j) && Inv(j, a, startChunk, was) && Enabled(j, a, step)
    requires step.TakeChunk? || step.ReplyFails?
    ensures Inv(j, Apply(j, a, step), startChunk, was)
  {
    TakenChunkIsAwaited(j, a, startChunk, was);
    hide WriteAt, Intact;
  }

  lemma ReceiverKeepsInv(j: Job, a: System, step: Step, startChunk: nat, was: seq<byte>)
    requires ValidJob(j) && Inv(j, a, startChunk, was) && Enabled(j, a, step)
    requires step.NoChunk? || step.Write? || step.Finish?
    ensures Inv(j, Apply(j, a, step), startChunk, was)
  {
    hide WriteAt;
    if step.Write? { WritingKeepsReceiverOk(j, a.rcv, startChunk, was); }
  }

  lemma StepKeepsInv(j: Job, a: System, step: Step, startChunk: nat, was: seq<byte>)
    requires ValidJob(j) && Inv(j, a, startChunk, was) && Enabled(j, a, step)
    ensures Inv(j, Apply(j, a, step), startChunk, was)
  {
    match step
    case Corrupt(c) =>
    case Cut(chunks, replies) =>
    case Read | Send | SendFails => SendingKeepsInv(j, a, step, startChunk, was);
    case GetReply | NoReply => AwaitingKeepsInv(j, a, step, startChunk, was);
    case TakeChunk | ReplyFails(_) => TakingKeepsInv(j, a, step, startChunk, was);
    case _ => ReceiverKeepsInv(j, a, step, startChunk, was);
  }
}

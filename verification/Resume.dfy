/** What any number of interrupted and resumed transfers of one unchanged file leaves behind. */
module Resume {
  import opened Common
  import opened ChunkCount
  import opened Chunks
  import opened Transfer
  import opened TransferRuns
  import opened FileTransfer
  import opened Sessions
  import opened Uploads
  import Messages

  /** What the server keeps between two uploads of a file: the chunk number it will ask for first
      (0 without an interrupted session) and the stored bytes. */
  datatype Store = Store(offer: nat, file: seq<byte>)

  /** One upload: the chunk the client restarts at, everything that happens until the receiver
      stops, and whether the upload's session found room in the table. */
  datatype Attempt = Attempt(restart: nat, steps: seq<Step>, kept: bool)

  predicate CanAttempt(j: Job, s: Store, a: Attempt) {
    a.restart <= s.offer && CanRun(j, Start(j, a.restart, s.file), a.steps)
    && Reach(j, Start(j, a.restart, s.file), a.steps).rcv.phase.Received?
  }

  function Outcome(j: Job, s: Store, a: Attempt): Receiver
    requires CanAttempt(j, s, a)
  {
    Reach(j, Start(j, a.restart, s.file), a.steps).rcv
  }

  /** A session in the table survives, at the receiver's chunk number, if the connection was lost. */
  function AfterAttempt(j: Job, s: Store, a: Attempt): Store
    requires CanAttempt(j, s, a)
  {
    var r := Outcome(j, s, a);
    Store(if IsLoss(r.phase.code) && a.kept then r.seqNo else 0, r.file)
  }

  predicate CanAttempts(j: Job, s: Store, attempts: seq<Attempt>)
    decreases attempts
  {
    attempts == [] ||
    (CanAttempt(j, s, attempts[0]) && CanAttempts(j, AfterAttempt(j, s, attempts[0]), attempts[1..]))
  }

  function AfterAttempts(j: Job, s: Store, attempts: seq<Attempt>): Store
    requires CanAttempts(j, s, attempts)
    decreases attempts
  {
    if attempts == [] then s else AfterAttempts(j, AfterAttempt(j, s, attempts[0]), attempts[1..])
  }

  /** The first n bytes are stored right, all offered chunks are among them, and behind them the
      file is as it was before the first attempt. */
  predicate StoreOk(j: Job, s: Store, was: seq<byte>, n: nat) {
    s.offer * CHUNK_SIZE <= n <= Covered(j) && (s.offer < j.count || s.offer == 0)
    && Agrees(s.file, j.src, n) && s.file[n..] == was[Min(n, |was|)..]
  }

  lemma TailKept(was: seq<byte>, before: seq<byte>, after: seq<byte>, n: nat, m: nat)
    requires n <= m <= |after| && n <= |before|
    requires before[n..] == was[Min(n, |was|)..] && after[m..] == before[Min(m, |before|)..]
    ensures after[m..] == was[Min(m, |was|)..]
  {
    var k := Min(m, |before|);
    assert before[k..] == before[n..][k - n..];
    assert was[Min(n, |was|)..][k - n..] == was[Min(m, |was|)..];
  }

  lemma AttemptKeepsStore(j: Job, s: Store, a: Attempt, was: seq<byte>, n: nat) returns (m: nat)
    requires ValidJob(j) && StoreOk(j, s, was, n) && CanAttempt(j, s, a)
    ensures n <= m && StoreOk(j, AfterAttempt(j, s, a), was, m)
    ensures Outcome(j, s, a).phase.code in {0, -1, -2}
    ensures Outcome(j, s, a).phase.code == 0 ==> m == Covered(j)
  {
    var start, r := Start(j, a.restart, s.file), Outcome(j, s, a);
    InvStart(j, a.restart, s.file);
    RunKeepsInv(j, start, a.steps, a.restart, s.file);
    AgreementGrows(j, a.restart, s.file, n, a.steps);
    m := Max(n, r.off);
    TailKept(was, s.file, r.file, n, m);
  }

  /** What reaches the handler's end of the connection in an attempt. */
  function WireOfAttempt(j: Job, s: Store, a: Attempt, replied: seq<Reply>): Wire
    requires CanAttempt(j, s, a)
  {
    Wire(Taken(j, Start(j, a.restart, s.file), a.steps), Answers(a.steps), Outcome(j, s, a).phase.code, replied)
  }

  /** Given the chunks that were delivered, file_recv stops where the attempt stops. */
  lemma HandlerRunsAttempt(j: Job, s: Store, a: Attempt, replied: seq<Reply>)
    requires CanAttempt(j, s, a)
    ensures Run(j.digest, j.count, s.file, WireOfAttempt(j, s, a, replied)) == Outcome(j, s, a)
  {
    ReceiverRunsItsLoop(j, Start(j, a.restart, s.file), a.steps, replied);
  }

  /** What the handler makes of an attempt is the store that AfterAttempt describes. */
  lemma UploadedIsAttempt(j: Job, s: Store, a: Attempt, info: FileInfo, k: Key, wire: Wire,
                          was: Account, out: UploadOutcome, now: Account, after: seq<byte>)
    requires Uploaded(j.digest, info, k, true, true, wire, was, s.file, out, now, after) && Unique(was.table.keys)
    requires info.size <= MAX_USER_SPACE && info.chunkCount == j.count
    requires CanAttempt(j, s, a) && s.offer == was.offers[k] && wire == WireOfAttempt(j, s, a, wire.replied)
    requires a.kept <==> k in RunOp(was.table, CAPACITY, LookupOrAdd(k)).keys
    ensures AfterAttempt(j, s, a) == Store(now.offers[k], after) && Unique(now.table.keys)
    ensures Ran(out) && (out.Suspended? <==> Outcome(j, s, a).phase.code == -1 || Outcome(j, s, a).phase.code == -2)
  {
    hide RecvLoop;
    HandlerRunsAttempt(j, s, a, wire.replied);
    UploadKeepsUnique(was.table, k, out);
  }

  /** The handler performs the attempt: the number its table offers afterwards and the bytes in the
      destination are the store that AfterAttempt describes, and the numbers of all other files stay. */
  method UploadAttempt(user: User, root: string, info: FileInfo, dest: DestFile, end: ReceiverEnd,
                       j: Job, ghost s: Store, ghost a: Attempt) returns (out: UploadOutcome)
    requires user.Valid() && Unique(Keys(user)) && dest.off == 0
    requires info.size <= MAX_USER_SPACE && info.chunkCount == j.count
    requires CanAttempt(j, s, a) && s == Store(Offer(user, UploadKey(root, info)), dest.bytes)
    requires WireOf(end) == WireOfAttempt(j, s, a, end.replied)
    requires a.kept <==> UploadKey(root, info) in RunOp(user.State(), CAPACITY, LookupOrAdd(UploadKey(root, info))).keys
    modifies user, user.sessions, user.Objects(), dest, end
    ensures user.Valid() && Unique(Keys(user))
    ensures AfterAttempt(j, s, a) == Store(Offer(user, UploadKey(root, info)), dest.bytes)
    ensures AccountOf(user).offers
            == old(AccountOf(user)).offers[UploadKey(root, info) := Offer(user, UploadKey(root, info))]
    ensures Ran(out) && out.offered == s.offer
    ensures out.Suspended? <==> Outcome(j, s, a).phase.code == -1 || Outcome(j, s, a).phase.code == -2
  {
    hide UploadKey, OfferIn, RunOp, Receives;
    ghost var was, wire := AccountOf(user), WireOf(end);
    out := UploadTo(user, root, info, true, dest, end, j.digest);
    UploadedIsAttempt(j, s, a, info, UploadKey(root, info), wire, was, out, AccountOf(user), dest.bytes);
  }

  /** Over any number of interrupted uploads, each restarted at the offered chunk or any earlier
      one, the server never offers a chunk beyond what is correctly stored. */
  lemma {:induction false} OfferNeverExceedsStored(j: Job, s: Store, attempts: seq<Attempt>, was: seq<byte>, n: nat)
    returns (m: nat)
    requires ValidJob(j) && StoreOk(j, s, was, n) && CanAttempts(j, s, attempts)
    ensures n <= m && StoreOk(j, AfterAttempts(j, s, attempts), was, m)
    decreases attempts
  {
    if attempts == [] {
      m := n;
    } else {
      m := AttemptKeepsStore(j, s, attempts[0], was, n);
      m := OfferNeverExceedsStored(j, AfterAttempt(j, s, attempts[0]), attempts[1..], was, m);
    }
  }

  // ----- several files -----

  /** Uploads of any files in any order; each is an attempt at the file of its key. */
  predicate CanUploads(jobs: map<Key, Job>, stores: map<Key, Store>, uploads: seq<(Key, Attempt)>)
    requires stores.Keys == jobs.Keys
    decreases uploads
  {
    uploads == [] ||
    (var (k, a) := uploads[0];
     k in jobs && CanAttempt(jobs[k], stores[k], a)
     && CanUploads(jobs, stores[k := AfterAttempt(jobs[k], stores[k], a)], uploads[1..]))
  }

  function AfterUploads(jobs: map<Key, Job>, stores: map<Key, Store>, uploads: seq<(Key, Attempt)>)
    : (r: map<Key, Store>)
    requires stores.Keys == jobs.Keys && CanUploads(jobs, stores, uploads)
    ensures r.Keys == jobs.Keys
    decreases uploads
  {
    if uploads == [] then stores
    else
      var (k, a) := uploads[0];
      AfterUploads(jobs, stores[k := AfterAttempt(jobs[k], stores[k], a)], uploads[1..])
  }

  function AttemptsAt(k: Key, uploads: seq<(Key, Attempt)>): seq<Attempt> {
    if uploads == [] then []
    else (if uploads[0].0 == k then [uploads[0].1] else []) + AttemptsAt(k, uploads[1..])
  }

  /** However uploads of several files interleave, each file fares as if its own were the only ones. */
  lemma {:induction false} EachFileByItself(jobs: map<Key, Job>, stores: map<Key, Store>,
                                            uploads: seq<(Key, Attempt)>, k: Key)
    requires stores.Keys == jobs.Keys && CanUploads(jobs, stores, uploads) && k in jobs
    ensures CanAttempts(jobs[k], stores[k], AttemptsAt(k, uploads))
    ensures AfterUploads(jobs, stores, uploads)[k] == AfterAttempts(jobs[k], stores[k], AttemptsAt(k, uploads))
    decreases uploads
  {
    if uploads == [] {
    } else {
      var (o, a) := uploads[0];
      var rest := AttemptsAt(k, uploads[1..]);
      EachFileByItself(jobs, stores[o := AfterAttempt(jobs[o], stores[o], a)], uploads[1..], k);
      if o == k { assert ([a] + rest)[1..] == rest; } else { assert [] + rest == rest; }
    }
  }

  /** So no offered number ever runs ahead of the bytes stored for its file, whatever else is
      uploaded in between. */
  lemma OffersStaySafe(jobs: map<Key, Job>, was: map<Key, seq<byte>>, uploads: seq<(Key, Attempt)>, k: Key)
    returns (n: nat)
    requires was.Keys == jobs.Keys && k in jobs && ValidJob(jobs[k])
    requires CanUploads(jobs, map o | o in jobs :: Store(0, was[o]), uploads)
    ensures StoreOk(jobs[k], AfterUploads(jobs, map o | o in jobs :: Store(0, was[o]), uploads)[k], was[k], n)
  {
    var stores := map o | o in jobs :: Store(0, was[o]);
    EachFileByItself(jobs, stores, uploads, k);
    n := OfferNeverExceedsStored(jobs[k], Store(0, was[k]), AttemptsAt(k, uploads), was[k], 0);
  }

  // ----- completed uploads -----

  function Delivered(j: Job, was: seq<byte>): seq<byte> {
    j.src[..Covered(j)] + was[Min(Covered(j), |was|)..]
  }

  lemma CompleteAttempt(j: Job, s: Store, a: Attempt, was: seq<byte>, n: nat)
    requires ValidJob(j) && StoreOk(j, s, was, n) && CanAttempt(j, s, a)
    requires Outcome(j, s, a).phase == Received(0)
    ensures AfterAttempt(j, s, a) == Store(0, Delivered(j, was))
  {
    var m := AttemptKeepsStore(j, s, a, was, n);
    var file := AfterAttempt(j, s, a).file;
    assert file == file[..m] + file[m..];
  }

  /** After any number of interrupted uploads, one that the receiver reports as complete has put
      the whole counted content in place, before whatever an older, longer file had behind it. */
  lemma ResumedUploadDelivers(j: Job, was: seq<byte>, attempts: seq<Attempt>, s: Store, last: Attempt)
    requires ValidJob(j) && CanAttempts(j, Store(0, was), attempts)
    requires s == AfterAttempts(j, Store(0, was), attempts)
    requires CanAttempt(j, s, last) && Outcome(j, s, last).phase == Received(0)
    ensures AfterAttempt(j, s, last) == Store(0, Delivered(j, was))
  {
    var n := OfferNeverExceedsStored(j, Store(0, was), attempts, was, 0);
    CompleteAttempt(j, s, last, was, n);
  }

  lemma UncutAttemptCompletes(j: Job, s: Store, a: Attempt, was: seq<byte>, n: nat)
    requires ValidJob(j) && StoreOk(j, s, was, n) && a.restart <= s.offer
    requires CanRun(j, Start(j, a.restart, s.file), a.steps) && NoCut(a.steps)
    requires forall step :: IsMove(step) ==> !Enabled(j, Reach(j, Start(j, a.restart, s.file), a.steps), step)
    ensures CanAttempt(j, s, a) && AfterAttempt(j, s, a) == Store(0, Delivered(j, was))
  {
    assert s.file[..n][..a.restart * CHUNK_SIZE] == s.file[..a.restart * CHUNK_SIZE];
    assert j.src[..n][..a.restart * CHUNK_SIZE] == j.src[..a.restart * CHUNK_SIZE];
    CompletedTransferSucceeds(j, a.restart, s.file, a.steps);
    CompleteAttempt(j, s, a, was, n);
  }

  /** Whatever is stored from before, the next upload that is neither cut nor stopped early completes.
      (What its session does to the table is Uploads.UploadOverrunsIff.) */
  lemma NextUploadCompletes(j: Job, was: seq<byte>, attempts: seq<Attempt>, s: Store, next: Attempt)
    requires ValidJob(j) && CanAttempts(j, Store(0, was), attempts)
    requires s == AfterAttempts(j, Store(0, was), attempts)
    requires next.restart <= s.offer
    requires CanRun(j, Start(j, next.restart, s.file), next.steps) && NoCut(next.steps)
    requires forall step :: IsMove(step) ==> !Enabled(j, Reach(j, Start(j, next.restart, s.file), next.steps), step)
    ensures CanAttempt(j, s, next) && AfterAttempt(j, s, next) == Store(0, Delivered(j, was))
  {
    var n := OfferNeverExceedsStored(j, Store(0, was), attempts, was, 0);
    UncutAttemptCompletes(j, s, next, was, n);
  }

  /** The client takes the first of the eight bytes in which the offered number arrives. */
  function ClientRestart(offer: nat): nat { Messages.Bytes(offer, 8)[0] }

  /** It restarts where it was asked to exactly while the number fits in that byte; never later. */
  lemma ClientRestartsEarlier(offer: nat)
    ensures ClientRestart(offer) == offer % 256 <= offer
    ensures ClientRestart(offer) == offer <==> offer < 256
  {
    assert Messages.Bytes(offer, 8) == [offer % 256] + Messages.Bytes(offer / 256, 7);
  }

  // ----- the whole file -----

  /** A completed upload stores exactly the source in these cases and no others: with all chunks
      counted, over a file that was not longer; with the last chunk lost, over a file that already
      had the source's length and ended like it. */
  lemma WholeFileIff(src: seq<byte>, was: seq<byte>, digest: seq<byte> -> Checksum)
    requires |src| < 0x10_0000_0000
    ensures var j := JobOf(src, digest);
            Delivered(j, was) == src <==>
            if LosesTail(|src|) then |was| == |src| && was[Covered(j)..] == src[Covered(j)..] else |was| <= |src|
  {
    JobIsValid(src, digest);
    var j := JobOf(src, digest);
    var c := Covered(j);
    assert src == src[..c] + src[c..];
    assert Delivered(j, was)[c..] == was[Min(c, |was|)..];
  }

  // ----- the programs, not only the step system -----

  /** A complete transfer, told of the two loops: given the chunks and replies of any uncut,
      exhausted run, file_send and file_recv both return success with the full count, and the
      destination file_recv writes has the whole counted content. */
  lemma LoopsDeliver(j: Job, startChunk: nat, was: seq<byte>, steps: seq<Step>)
    requires ValidJob(j) && CanRun(j, Start(j, startChunk, was), steps) && NoCut(steps)
    requires startChunk < j.count || j.count == 0
    requires Agrees(was, j.src, startChunk * CHUNK_SIZE)
    requires forall step :: IsMove(step) ==> !Enabled(j, Reach(j, Start(j, startChunk, was), steps), step)
    ensures var a := Start(j, startChunk, was);
            var snd := SendLoop(j, StartSender(startChunk), Replies(j, a, steps), |Sends(j, a, steps)|, []).snd;
            var rcv := RecvLoop(j.digest, j.count, StartReceiver(was), Taken(j, a, steps), Answers(steps), 0, []).rcv;
            snd.phase == Sent(0) && SenderStats(snd) == Stats(snd.seqNo, 0) && rcv.phase == Received(0)
            && rcv.seqNo == j.count && rcv.file == Delivered(j, was)
  {
    var a := Start(j, startChunk, was);
    CompletedTransferSucceeds(j, startChunk, was, steps);
    SenderRunsItsLoop(j, a, steps, []);
    ReceiverRunsItsLoop(j, a, steps, []);
  }
}

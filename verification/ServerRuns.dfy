/** Resumed uploads over whole runs of the server: however the requests of all users interleave, the
    number offered for a file stays within what is stored of it, as long as the file is not removed. */
module ServerRuns {
  import opened Common
  import opened ChunkCount
  import opened Chunks
  import opened TransferRuns
  import opened Paths
  import opened FileTree
  import opened UserPaths
  import opened MakeDirs
  import opened UserMap
  import opened Requests
  import opened Resume
  import Transfer
  import Uploads

  /** The name leads to a place right inside the user's directory. */
  predicate Ordinary(t: Token, info: Uploads.FileInfo) {
    |UploadPath(t, info)| == 4 && STORAGE + [Unparse(t)] <= UploadPath(t, info)
  }

  // ----- other uploads go elsewhere -----

  lemma OrdinaryEnds(t: Token, info: Uploads.FileInfo)
    requires Ordinary(t, info)
    ensures var f := Uploads.LastPart(info.filename);
            f != "" && f[0] == '/' && UploadPath(t, info) == STORAGE + [Unparse(t)] + [f[1..]]
  {
    hide ResolvePath, RootText, Uploads.LastPart;
    var token, f := Unparse(t), Uploads.LastPart(info.filename);
    RootResolves(token);
    if '/' in info.filename {
      TargetBelow(RootText(token), f);
    } else {
      SlashlessTarget(token, info.filename);
    }
  }

  lemma SamePlaceSameKey(t: Token, a: Uploads.FileInfo, b: Uploads.FileInfo)
    requires Ordinary(t, a) && UploadPath(t, b) == UploadPath(t, a)
    ensures UploadKey(t, b) == UploadKey(t, a)
  {
    hide UploadPath, Uploads.LastPart;
    OrdinaryEnds(t, a);
    OrdinaryEnds(t, b);
    var f, g := Uploads.LastPart(a.filename), Uploads.LastPart(b.filename);
    assert f[1..] == Last(UploadPath(t, a)) == g[1..];
    assert f == "/" + f[1..] && g == "/" + g[1..];
  }

  lemma OtherUserElsewhere(t: Token, info: Uploads.FileInfo, o: Token, other: Uploads.FileInfo)
    requires Ordinary(t, info) && o != t
    ensures UploadPath(o, other) != UploadPath(t, info)
    ensures !Reachable(Unparse(o), UploadPath(t, info))
  {
    var p := UploadPath(t, info);
    assert p[2] == (STORAGE + [Unparse(t)])[2] && p[..2] == (STORAGE + [Unparse(t)])[..2] == STORAGE;
    if Reachable(Unparse(o), p) { RootsAreApart(o, t, p); }
    UploadTarget(Unparse(o), other.filename);
  }

  lemma OtherUploadElsewhere(t: Token, info: Uploads.FileInfo, o: Token, other: Uploads.FileInfo)
    requires Ordinary(t, info) && (o != t || UploadKey(o, other) != UploadKey(t, info))
    ensures UploadPath(o, other) != UploadPath(t, info) && UploadKey(o, other) != UploadKey(t, info)
  {
    if o != t {
      OtherUserElsewhere(t, info, o, other);
    } else if UploadPath(o, other) == UploadPath(t, info) {
      SamePlaceSameKey(t, info, other);
    }
  }

  // ----- one request -----

  /** The user is registered under this identity, and holds no key twice. */
  predicate Tracks(w: World, t: Token, id: UserId, k: Sessions.Key) {
    && |w.buckets| > 0 && UserOf(w, t) == Some(id) && id < |w.accounts|
    && k in w.accounts[id].offers && Sessions.Unique(w.accounts[id].table.keys)
  }

  /** What the server holds of the file: the number it will offer, and the bytes. */
  ghost function StoreAt(w: World, id: UserId, k: Sessions.Key, p: Path): Store
    requires id < |w.accounts| && k in w.accounts[id].offers
  {
    Store(w.accounts[id].offers[k], BytesAt(w.nodes, p))
  }

  predicate IsOwnUpload(m: (Token, Request), t: Token, info: Uploads.FileInfo) {
    m.0 == t && m.1.Upload? && UploadKey(t, m.1.info) == UploadKey(t, info)
  }

  /** A removal by the user, of the file or a directory above it. */
  predicate RemovesFile(m: (Token, Request), t: Token, info: Uploads.FileInfo) {
    m.0 == t && m.1.Remove? && ResolvePath(RootText(Unparse(t)) + "/" + m.1.path) <= UploadPath(t, info)
  }

  lemma LookupStays(b: Buckets, p: Pair, t: Token)
    requires |b| > 0 && Lookup(b, t).Some?
    ensures Lookup(PutPair(b, p), t) == Lookup(b, t)
  {
    FindSnoc(b[Index(t, |b|)], p, t);
  }

  /** A user's own request other than an upload leaves the bytes of what it does not remove. */
  lemma TreeRequestKeepsBytes(w: World, m: (Token, Request), res: Response, now: World, p: Path)
    requires match m.1
             case Remove(path) => RemoveStep(w, m.0, path, res, now)
                                  && !(ResolvePath(RootText(Unparse(m.0)) + "/" + path) <= p)
             case MakeDir(path) => MkdirStep(w, m.0, path, res, now)
             case ReadOnly => now == w
             case _ => false
    ensures BytesAt(now.nodes, p) == BytesAt(w.nodes, p)
    ensures now.accounts == w.accounts && now.buckets == w.buckets
  {
    hide ResolvePath, RootText, Unparse, Reachable, IsTree, AllThere, RoomFor, StopsAt, Blamed;
  }

  /** A registration, and every request that is not this file's upload or removal, leaves it alone. */
  lemma OtherStepKeeps(digest: seq<byte> -> Checksum, w: World, m: (Token, Request), res: Response, now: World,
                       t: Token, id: UserId, info: Uploads.FileInfo)
    requires Step(digest, w, m, res, now) && Tracks(w, t, id, UploadKey(t, info)) && Ordinary(t, info)
    requires !m.1.Upload? && !RemovesFile(m, t, info)
    ensures Tracks(now, t, id, UploadKey(t, info))
    ensures StoreAt(now, id, UploadKey(t, info), UploadPath(t, info))
            == StoreAt(w, id, UploadKey(t, info), UploadPath(t, info))
  {
    hide UploadKey, UploadPath, ResolvePath, RootText, PutPair, Lookup, IsTree, Unparse, Uploads.IsNew, Shrunk, Made;
    var p := UploadPath(t, info);
    if m.1.Auth? {
      LookupStays(w.buckets, Pair(m.0, |w.accounts|), t);
      assert now.accounts[id] == w.accounts[id];
    } else if m.0 != t {
      OtherUserElsewhere(t, info, m.0, info);
      assert SameAt(w.nodes, now.nodes, p);
    } else {
      TreeRequestKeepsBytes(w, m, res, now, p);
    }
  }

  lemma OtherUploadKeeps(digest: seq<byte> -> Checksum, w: World, m: (Token, Request), res: Response, now: World,
                         t: Token, id: UserId, info: Uploads.FileInfo)
    requires Step(digest, w, m, res, now) && Tracks(w, t, id, UploadKey(t, info)) && Ordinary(t, info)
    requires m.1.Upload? && !IsOwnUpload(m, t, info)
    ensures Tracks(now, t, id, UploadKey(t, info))
    ensures StoreAt(now, id, UploadKey(t, info), UploadPath(t, info))
            == StoreAt(w, id, UploadKey(t, info), UploadPath(t, info))
  {
    hide UploadKey, UploadPath, Lookup, Uploads.AfterUpload, Uploads.Receives, IsTree, ResolvePath, RootText,
         UploadTree, Touches, Unparse, BytesAt;
    OtherUploadElsewhere(t, info, m.0, m.1.info);
    if UserOf(w, m.0).Some? {
      var who, other, q := UserOf(w, m.0).value, UploadKey(m.0, m.1.info), UploadPath(m.0, m.1.info);
      var root := STORAGE + [Unparse(m.0)];
      var open, out :| Handled(digest, w, who, root, other, q, m.1.info, m.1.wire, open, out, now)
                       && res == AnswerTo(out);
      HandledBytes(digest, w, who, root, other, q, m.1.info, m.1.wire, open, out, now);
      if who == id { Uploads.UploadKeepsUnique(w.accounts[id].table, other, out); }
    }
  }

  /** The file's own upload is described by Uploads.Uploaded. */
  lemma OwnUploadIsUploaded(digest: seq<byte> -> Checksum, w: World, m: (Token, Request), res: Response, now: World,
                            t: Token, id: UserId, info: Uploads.FileInfo)
    returns (dirOk: bool, open: bool, out: Uploads.UploadOutcome)
    requires Step(digest, w, m, res, now) && Tracks(w, t, id, UploadKey(t, info)) && IsOwnUpload(m, t, info)
    ensures Tracks(now, t, id, UploadKey(t, info))
    ensures Uploads.Uploaded(digest, m.1.info, UploadKey(t, info), dirOk, open, m.1.wire,
                             w.accounts[id], BytesAt(w.nodes, UploadPath(t, info)), out,
                             now.accounts[id], BytesAt(now.nodes, UploadPath(t, info)))
  {
    hide Uploads.UploadKey, Lookup, Uploads.AfterUpload, Uploads.Receives, ResolvePath, IsTree;
    var k, p := UploadKey(t, info), UploadPath(t, info);
    var root := STORAGE + [Unparse(t)];
    open, out :| Handled(digest, w, id, root, k, p, m.1.info, m.1.wire, open, out, now) && res == AnswerTo(out);
    dirOk := root in now.nodes;
    Uploads.UploadKeepsUnique(w.accounts[id].table, k, out);
  }

  // ----- an interrupted upload, whatever comes between -----

  /** The upload is an attempt at the job: it carries what a run of the transfer delivers. */
  ghost predicate IsAttempt(j: Job, s: Store, table: Sessions.SessionTable, k: Sessions.Key, info: Uploads.FileInfo,
                            wire: Uploads.Wire, a: Attempt)
  {
    && info.chunkCount == j.count && CanAttempt(j, s, a) && wire == WireOfAttempt(j, s, a, wire.replied)
    && (a.kept <==> k in Sessions.RunOp(table, Sessions.CAPACITY, Sessions.LookupOrAdd(k)).keys)
  }

  lemma UploadKeepsStore(j: Job, w: World, m: (Token, Request), res: Response, now: World, t: Token, id: UserId,
                         info: Uploads.FileInfo, a: Attempt, was: seq<byte>, n: nat) returns (more: nat)
    requires ValidJob(j) && Step(j.digest, w, m, res, now)
    requires Tracks(w, t, id, UploadKey(t, info)) && IsOwnUpload(m, t, info)
    requires var k, p := UploadKey(t, info), UploadPath(t, info);
             StoreOk(j, StoreAt(w, id, k, p), was, n)
             && IsAttempt(j, StoreAt(w, id, k, p), w.accounts[id].table, k, m.1.info, m.1.wire, a)
    ensures Tracks(now, t, id, UploadKey(t, info))
    ensures n <= more && StoreOk(j, StoreAt(now, id, UploadKey(t, info), UploadPath(t, info)), was, more)
  {
    hide UploadKey, UploadPath, Uploads.AfterUpload, Uploads.Receives, Sessions.RunOp, Step;
    var k, p := UploadKey(t, info), UploadPath(t, info);
    var s, bytes := StoreAt(w, id, k, p), BytesAt(now.nodes, p);
    var dirOk, open, out := OwnUploadIsUploaded(j.digest, w, m, res, now, t, id, info);
    more := n;
    if Uploads.Ran(out) && open {
      more := AttemptKeepsStore(j, s, a, was, n);
      UploadedIsAttempt(j, s, a, m.1.info, k, m.1.wire, w.accounts[id], out, now.accounts[id], bytes);
    } else if Uploads.Ran(out) {
      assert bytes == s.file && now.accounts[id].offers[k] == 0;
    }
  }

  /** Whatever the request, unless it removes the file. */
  lemma StepKeepsOffer(j: Job, w: World, m: (Token, Request), res: Response, now: World, t: Token, id: UserId,
                       info: Uploads.FileInfo, a: Attempt, was: seq<byte>, n: nat) returns (more: nat)
    requires ValidJob(j) && Step(j.digest, w, m, res, now) && Ordinary(t, info) && !RemovesFile(m, t, info)
    requires Tracks(w, t, id, UploadKey(t, info))
    requires StoreOk(j, StoreAt(w, id, UploadKey(t, info), UploadPath(t, info)), was, n)
    requires IsOwnUpload(m, t, info) ==>
               IsAttempt(j, StoreAt(w, id, UploadKey(t, info), UploadPath(t, info)), w.accounts[id].table,
                         UploadKey(t, info), m.1.info, m.1.wire, a)
    ensures Tracks(now, t, id, UploadKey(t, info))
    ensures n <= more && StoreOk(j, StoreAt(now, id, UploadKey(t, info), UploadPath(t, info)), was, more)
  {
    hide UploadKey, UploadPath, Step, Tracks, IsAttempt, StoreOk, StoreAt, Ordinary, IsOwnUpload, RemovesFile;
    more := n;
    if IsOwnUpload(m, t, info) {
      more := UploadKeepsStore(j, w, m, res, now, t, id, info, a, was, n);
    } else if m.1.Upload? {
      OtherUploadKeeps(j.digest, w, m, res, now, t, id, info);
    } else {
      OtherStepKeeps(j.digest, w, m, res, now, t, id, info);
    }
  }

  /** The run's uploads of the file are attempts at the job, each from what the server then holds. */
  ghost predicate UploadsAreAttempts(j: Job, messages: seq<(Token, Request)>, worlds: seq<World>,
                                     attempts: seq<Attempt>, t: Token, info: Uploads.FileInfo)
  {
    var k, p := UploadKey(t, info), UploadPath(t, info);
    |worlds| == |messages| + 1 && |attempts| == |messages|
    && forall i, id: UserId ::
         0 <= i < |messages| && IsOwnUpload(messages[i], t, info) && Tracks(worlds[i], t, id, k) ==>
           IsAttempt(j, StoreAt(worlds[i], id, k, p), worlds[i].accounts[id].table, k,
                     messages[i].1.info, messages[i].1.wire, attempts[i])
  }

  lemma AttemptsPrefix(j: Job, messages: seq<(Token, Request)>, worlds: seq<World>, attempts: seq<Attempt>,
                       t: Token, info: Uploads.FileInfo)
    requires messages != [] && UploadsAreAttempts(j, messages, worlds, attempts, t, info)
    ensures UploadsAreAttempts(j, Init(messages), Init(worlds), Init(attempts), t, info)
  {
    hide UploadKey, UploadPath, Tracks, IsAttempt, StoreAt, IsOwnUpload;
    var ms, ws := Init(messages), Init(worlds);
    assert forall i :: 0 <= i < |ms| ==> ms[i] == messages[i] && ws[i] == worlds[i] && Init(attempts)[i] == attempts[i];
  }

  /** Over every run of requests, of any users in any order, in which the user removes neither the file
      nor a directory above it, the number offered for the file stays within what is stored right. */
  lemma {:induction false} OfferSurvivesRun(j: Job, messages: seq<(Token, Request)>, answers: seq<Response>,
                                            worlds: seq<World>, attempts: seq<Attempt>, t: Token, id: UserId,
                                            info: Uploads.FileInfo, was: seq<byte>, n: nat) returns (more: nat)
    requires ValidJob(j) && IsRun(j.digest, messages, answers, worlds) && Ordinary(t, info)
    requires Tracks(worlds[0], t, id, UploadKey(t, info))
    requires StoreOk(j, StoreAt(worlds[0], id, UploadKey(t, info), UploadPath(t, info)), was, n)
    requires UploadsAreAttempts(j, messages, worlds, attempts, t, info)
    requires forall m :: m in messages ==> !RemovesFile(m, t, info)
    ensures Tracks(Last(worlds), t, id, UploadKey(t, info))
    ensures n <= more && StoreOk(j, StoreAt(Last(worlds), id, UploadKey(t, info), UploadPath(t, info)), was, more)
    decreases |messages|
  {
    hide UploadKey, UploadPath, Step, Tracks, IsAttempt, StoreOk, StoreAt, Ordinary, IsOwnUpload, RemovesFile;
    if messages == [] {
      more := n;
    } else {
      var i := |messages| - 1;
      RunPrefix(j.digest, messages, answers, worlds, i);
      AttemptsPrefix(j, messages, worlds, attempts, t, info);
      more := OfferSurvivesRun(j, Init(messages), Init(answers), Init(worlds), Init(attempts), t, id, info, was, n);
      assert messages[i] in messages && Step(j.digest, worlds[i], messages[i], answers[i], worlds[i + 1]);
      more := StepKeepsOffer(j, worlds[i], messages[i], answers[i], worlds[i + 1], t, id, info, attempts[i], was, more);
    }
  }

  // ----- from the start of the server -----

  predicate NothingHeld(a: Uploads.Account, k: Sessions.Key) {
    k in a.offers && a.offers[k] == 0 && Sessions.Unique(a.table.keys)
  }

  /** The user is not registered yet, and nobody has a session under this key. */
  predicate NotYet(w: World, t: Token, k: Sessions.Key) {
    && |w.buckets| > 0 && UserOf(w, t).None? && IdsBelow(w.buckets, |w.accounts|)
    && forall i :: 0 <= i < |w.accounts| ==> NothingHeld(w.accounts[i], k)
  }

  lemma StartIsNotYet(w: World, t: Token, k: Sessions.Key)
    requires w.accounts == [] && |w.buckets| > 0 && forall b :: b in w.buckets ==> b == []
    ensures NotYet(w, t, k)
  {
    assert w.buckets[Index(t, |w.buckets|)] in w.buckets;
    assert forall i :: 0 <= i < |w.buckets| ==> w.buckets[i] in w.buckets;
  }

  /** A registration of the user: whose account the table hands out, it holds nothing. */
  lemma RegistrationStarts(w: World, m: (Token, Request), res: Response, now: World, t: Token, k: Sessions.Key)
    requires NotYet(w, t, k) && AuthStep(w, m.0, res, now)
    ensures if m.0 == t && t != NO_TOKEN then
              UserOf(now, t).Some? && Tracks(now, t, UserOf(now, t).value, k)
              && now.accounts[UserOf(now, t).value].offers[k] == 0
            else NotYet(now, t, k)
  {
    hide Unparse, CanMake;
    var p := Pair(m.0, |w.accounts|);
    PutKeepsIds(w.buckets, p, |w.accounts|);
    FindSnoc(w.buckets[Index(p.key, |w.buckets|)], p, t);
    assert forall i :: 0 <= i < |w.accounts| ==> now.accounts[i] == w.accounts[i];
    assert NothingHeld(Last(now.accounts), k);
    hide PutPair;
    if UserOf(now, t).Some? { FoundIdIsBelow(now.buckets, t, |now.accounts|); }
  }

  lemma AuthIsAuthStep(digest: seq<byte> -> Checksum, w: World, m: (Token, Request), res: Response, now: World)
    requires Step(digest, w, m, res, now) && m.1.Auth?
    ensures |w.buckets| > 0 && AuthStep(w, m.0, res, now)
  {
  }

  lemma UploadOfAnother(digest: seq<byte> -> Checksum, info: Uploads.FileInfo, other: Sessions.Key, dirOk: bool,
                        open: bool, wire: Uploads.Wire, was: Uploads.Account, before: seq<byte>,
                        out: Uploads.UploadOutcome, now: Uploads.Account, after: seq<byte>, k: Sessions.Key)
    requires Uploads.Uploaded(digest, info, other, dirOk, open, wire, was, before, out, now, after)
    requires NothingHeld(was, k) && k != other
    ensures NothingHeld(now, k)
  {
    hide Uploads.AfterUpload, Uploads.OffersAfter, Uploads.Receives;
    Uploads.UploadKeepsUnique(was.table, other, out);
  }

  lemma NotYetStays(digest: seq<byte> -> Checksum, w: World, m: (Token, Request), res: Response, now: World,
                    t: Token, info: Uploads.FileInfo)
    requires Step(digest, w, m, res, now) && NotYet(w, t, UploadKey(t, info)) && Ordinary(t, info) && !m.1.Auth?
    ensures NotYet(now, t, UploadKey(t, info))
  {
    hide UploadKey, UploadPath, Lookup, Uploads.Uploaded, NothingHeld, UploadTree, IsTree, ResolvePath, RootText,
         Touches, Unparse, IdsBelow;
    if m.1.Upload? && UserOf(w, m.0).Some? {
      OtherUploadElsewhere(t, info, m.0, m.1.info);
      var who, other, q := UserOf(w, m.0).value, UploadKey(m.0, m.1.info), UploadPath(m.0, m.1.info);
      var root := STORAGE + [Unparse(m.0)];
      var open, out :| Handled(digest, w, who, root, other, q, m.1.info, m.1.wire, open, out, now)
                       && res == AnswerTo(out);
      UploadOfAnother(digest, m.1.info, other, root in now.nodes, open, m.1.wire, w.accounts[who], BytesAt(w.nodes, q),
                      out, now.accounts[who], BytesAt(now.nodes, q), UploadKey(t, info));
    }
  }

  /** From the start of the server, whoever registers when and whatever is requested: once the user is
      registered, the number offered for the file is within what is stored right. */
  lemma {:induction false} OfferIsSafe(j: Job, messages: seq<(Token, Request)>, answers: seq<Response>,
                                       worlds: seq<World>, attempts: seq<Attempt>, t: Token, info: Uploads.FileInfo)
    returns (was: seq<byte>, n: nat)
    requires ValidJob(j) && IsRun(j.digest, messages, answers, worlds) && Ordinary(t, info)
    requires worlds[0].accounts == [] && |worlds[0].buckets| > 0 && forall b :: b in worlds[0].buckets ==> b == []
    requires UploadsAreAttempts(j, messages, worlds, attempts, t, info)
    requires forall m :: m in messages ==> !RemovesFile(m, t, info)
    ensures var w, k := Last(worlds), UploadKey(t, info);
            if |w.buckets| > 0 && UserOf(w, t).Some? then
              Tracks(w, t, UserOf(w, t).value, k)
              && StoreOk(j, StoreAt(w, UserOf(w, t).value, k, UploadPath(t, info)), was, n)
            else NotYet(w, t, k)
    decreases |messages|
  {
    var k := UploadKey(t, info);
    hide UploadKey, UploadPath, Step, IsAttempt, Ordinary, IsOwnUpload, RemovesFile;
    was, n := [], 0;
    if messages == [] {
      StartIsNotYet(worlds[0], t, k);
    } else {
      var i := |messages| - 1;
      var w, m, res, now := worlds[i], messages[i], answers[i], worlds[i + 1];
      RunPrefix(j.digest, messages, answers, worlds, i);
      AttemptsPrefix(j, messages, worlds, attempts, t, info);
      was, n := OfferIsSafe(j, Init(messages), Init(answers), Init(worlds), Init(attempts), t, info);
      assert m in messages && Step(j.digest, w, m, res, now);
      if |w.buckets| > 0 && UserOf(w, t).Some? {
        n := StepKeepsOffer(j, w, m, res, now, t, UserOf(w, t).value, info, attempts[i], was, n);
      } else if m.1.Auth? {
        AuthIsAuthStep(j.digest, w, m, res, now);
        RegistrationStarts(w, m, res, now, t, k);
        was, n := BytesAt(now.nodes, UploadPath(t, info)), 0;
      } else {
        NotYetStays(j.digest, w, m, res, now, t, info);
      }
    }
  }

  // ----- and if it is removed -----

  /** After the file is gone, the number offered is within what is stored exactly if there is none. */
  lemma RemovalIff(j: Job, w: World, m: (Token, Request), res: Response, now: World, t: Token, id: UserId,
                   info: Uploads.FileInfo)
    requires Step(j.digest, w, m, res, now) && Tracks(w, t, id, UploadKey(t, info))
    requires RemovesFile(m, t, info) && BytesAt(now.nodes, UploadPath(t, info)) == []
    ensures Tracks(now, t, id, UploadKey(t, info))
    ensures (exists was, n :: StoreOk(j, StoreAt(now, id, UploadKey(t, info), UploadPath(t, info)), was, n))
            <==> StoreAt(w, id, UploadKey(t, info), UploadPath(t, info)).offer == 0
  {
    hide UploadKey, UploadPath, Lookup, IsTree;
    var k, p := UploadKey(t, info), UploadPath(t, info);
    if StoreAt(w, id, k, p).offer == 0 { assert StoreOk(j, StoreAt(now, id, k, p), [], 0); }
  }

  /** The next upload to complete has a hole of zeros where it was not asked to send again: it is right
      exactly when the source has zeros there. */
  lemma UploadAfterRemovalIff(j: Job, offer: nat, a: Attempt)
    requires ValidJob(j) && CanAttempt(j, Store(offer, []), a)
    requires Outcome(j, Store(offer, []), a).phase == Transfer.Received(0) && a.restart < j.count
    ensures var file := AfterAttempt(j, Store(offer, []), a).file;
            && a.restart * CHUNK_SIZE <= |j.src| && |file| >= Covered(j)
            && (file[..Covered(j)] == j.src[..Covered(j)]
                <==> forall i :: 0 <= i < a.restart * CHUNK_SIZE ==> j.src[i] == 0)
  {
    StartDecides(j, a.restart, [], a.steps);
    HeadOfPrefixIff(j.src, 0, a.restart * CHUNK_SIZE);
    assert j.src[..0] == [];
  }
}

/** What each request does to the server's accounts, user table and file tree, as a relation between
    values, and the isolation of users from each other over every run of requests. */
module Requests {
  import opened Common
  import opened Paths
  import opened FileTree
  import opened UserPaths
  import opened MakeDirs
  import opened UserMap
  import opened Chunks
  import Sessions
  import Uploads

  ghost predicate SameAt(was: Nodes, now: Nodes, p: Path) {
    (p in was <==> p in now) && (p in was && p in now ==> was[p] == now[p])
  }

  predicate IsFile(t: Nodes, p: Path) { p in t && t[p].File? }

  /** The bytes a transfer finds when it opens this destination. */
  function BytesAt(t: Nodes, p: Path): seq<byte> {
    if p in t && t[p].File? then t[p].bytes else []
  }

  lemma FilledBytes(t: Nodes, p: Path, bytes: seq<byte>)
    ensures BytesAt(t[p := File(bytes)], p) == bytes
  {
  }

  ghost predicate SameBytes(was: Nodes, now: Nodes) { forall q :: BytesAt(now, q) == BytesAt(was, q) }

  /** Bytes were lost at or below r only. */
  ghost predicate Cleared(was: Nodes, now: Nodes, r: Path) {
    forall q :: BytesAt(now, q) == BytesAt(was, q) || (r <= q && BytesAt(now, q) == [])
  }

  /** Between two states nothing changed outside what the token reaches. */
  ghost predicate Touches(token: string, was: Nodes, now: Nodes) {
    IsTree(now) && forall p :: !Reachable(token, p) ==> SameAt(was, now, p)
  }

  /** Every file and directory at or below the user's root is as it was. */
  ghost predicate Untouched(token: string, was: Nodes, now: Nodes) {
    forall p :: UnderRoot(token, p) ==> SameAt(was, now, p)
  }

  lemma OthersUntouched(a: Token, b: Token, was: Nodes, now: Nodes)
    requires a != b && Touches(Unparse(a), was, now)
    ensures Untouched(Unparse(b), was, now)
  {
    forall p | UnderRoot(Unparse(b), p) ensures SameAt(was, now, p) {
      if Reachable(Unparse(a), p) { RootsAreApart(a, b, p); }
    }
  }

  lemma UntouchedChain(token: string, a: Nodes, b: Nodes, c: Nodes)
    requires Untouched(token, a, b) && Untouched(token, b, c)
    ensures Untouched(token, a, c)
  {
    forall p | UnderRoot(token, p) ensures SameAt(a, c, p) {
      assert SameAt(a, b, p) && SameAt(b, c, p);
    }
  }

  lemma NothingTouched(token: string, t: Nodes)
    requires IsTree(t)
    ensures Touches(token, t, t)
  {
  }

  /** What is below a reachable path is reachable, and so are its prefixes of three or more. */
  lemma ReachableBelow(token: string, r: Path, p: Path)
    requires Reachable(token, r)
    ensures r <= p || (2 < |p| && p <= r) ==> Reachable(token, p)
  {
  }

  lemma ShrinkTouches(token: string, was: Nodes, now: Nodes, top: Path)
    requires Reachable(token, top) && Shrunk(was, now, top)
    ensures Touches(token, was, now)
  {
    forall p | !Reachable(token, p) ensures SameAt(was, now, p) { ReachableBelow(token, top, p); }
  }

  lemma ShrinkClears(was: Nodes, now: Nodes, top: Path)
    requires Shrunk(was, now, top)
    ensures Cleared(was, now, top)
  {
  }

  lemma MakingKeepsBytes(was: Nodes, now: Nodes, r: Path, n: nat, slash: bool)
    requires Made(was, now, r, n, slash)
    ensures SameBytes(was, now)
  {
  }

  lemma MakingTouches(token: string, was: Nodes, now: Nodes, r: Path, slash: bool)
    requires Reachable(token, r) && Made(was, now, r, 3, slash)
    ensures Touches(token, was, now)
  {
    forall p | !Reachable(token, p) ensures SameAt(was, now, p) { ReachableBelow(token, r, p); }
  }

  lemma SettingTouches(token: string, was: Nodes, p: Path, node: Node)
    requires Reachable(token, p) && IsTree(was[p := node])
    ensures Touches(token, was, was[p := node])
  {
  }

  lemma TouchesChain(token: string, a: Nodes, b: Nodes, c: Nodes)
    requires Touches(token, a, b) && Touches(token, b, c)
    ensures Touches(token, a, c)
  {
    forall p | !Reachable(token, p) ensures SameAt(a, c, p) {
      assert SameAt(a, b, p) && SameAt(b, c, p);
    }
  }

  lemma RootIsWellFormed(token: string)
    requires IsPlain(token) && '\0' !in token
    ensures var root := STORAGE + [token];
            AllPlain(root) && RootText(token) == Render(root) && '\0' !in RootText(token)
            && forall r :: StartsAt(root, r) <==> Reachable(token, r)
  {
    RootIsRendered(token);
    var root := STORAGE + [token];
    assert Init(root) == STORAGE && Last(root) == token;
  }

  // ----- where an upload goes -----

  lemma TargetBelow(dir: string, f: string)
    requires f != "" && f[0] == '/' && '/' !in f[1..]
    ensures ResolvePath(dir + f) == if f[1..] == "" then ResolvePath(dir) else Push(ResolvePath(dir), f[1..])
  {
    assert f == "/" + f[1..];
    assert dir + f == dir + "/" + f[1..];
    ResolveBelow(dir, f[1..]);
  }

  lemma OneStepFromRoot(token: string, last: string)
    requires IsPlain(token)
    ensures var p := Push(STORAGE + [token], last); Reachable(token, p) || p == STORAGE
    ensures Reachable(token, STORAGE + [token])
  {
    assert Init(STORAGE + [token]) == STORAGE;
  }

  lemma PlainGrows(token: string, more: string)
    requires IsPlain(token) && token != "." && '/' !in more && 2 < |token|
    ensures IsPlain(token + more)
  {
  }

  /** A name without a slash goes beside the user's directory, to the same place for all of them. */
  lemma SlashlessTarget(token: string, name: string)
    requires IsPlain(token) && 2 < |token| && '/' !in name
    ensures ResolvePath(RootText(token) + Uploads.LastPart(name)) == STORAGE + [token + "(null)"]
    ensures !UnderRoot(token, STORAGE + [token + "(null)"])
  {
    PlainGrows(token, "(null)");
    RootResolves(token + "(null)");
    assert RootText(token) + "(null)" == RootText(token + "(null)");
    assert (STORAGE + [token + "(null)"])[2] == token + "(null)" != token;
  }

  /** The last part of an uploaded name stays in the user's directory, is that directory itself or one
      beside it that starts with the token text, or is the storage directory above it. */
  lemma UploadTarget(token: string, name: string)
    requires IsPlain(token) && 2 < |token|
    ensures var p := ResolvePath(RootText(token) + Uploads.LastPart(name));
            Reachable(token, p) || p == STORAGE
  {
    if '/' in name {
      var f := Uploads.FromLastSlash(name);
      RootResolves(token);
      TargetBelow(RootText(token), f);
      OneStepFromRoot(token, f[1..]);
    } else {
      SlashlessTarget(token, name);
      var p := STORAGE + [token + "(null)"];
      assert p[..2] == STORAGE && token <= p[2];
    }
  }

  /** The user's directory was not there and is now. */
  predicate RootMade(was: Nodes, now: Nodes, token: string) {
    STORAGE + [token] !in was && now == was[STORAGE + [token] := Dir]
  }

  /** The root is a directory or can be made one, and the name below it is no directory. */
  predicate RoomForUpload(t: Nodes, token: string, p: Path) {
    var root := STORAGE + [token];
    (if root in t then t[root].Dir? else CanMake(t, root)) && |p| == 4 && root <= p && (p in t ==> t[p].File?)
  }

  // ----- what an upload does to the tree -----

  /** The tree once the user's directory is there, if it was missing and could be made. */
  function WithRoot(t: Nodes, root: Path, there: bool): Nodes {
    if there && root !in t then t[root := Dir] else t
  }

  /** The user's directory is added if it was missing and could be made, then the destination, if it
      could be opened, has the bytes it has; nothing else changes. While no call fails, the directory
      and the destination are there whenever the tree has room for them. */
  ghost predicate UploadTree(was: Nodes, now: Nodes, root: Path, p: Path, open: bool, quiet: bool) {
    var base := WithRoot(was, root, root in now);
    && IsTree(now) && now == (if open then base[p := File(BytesAt(now, p))] else base)
    && (root in was ==> root in now) && (root in now ==> root in was || CanMake(was, root))
    && (open ==> root in now && IsFree(base, p))
    && (quiet ==> (root in now <==> root in was || CanMake(was, root)))
    && (quiet ==> (open <==> root in now && IsFree(base, p)))
  }

  lemma UploadTreeBytes(was: Nodes, now: Nodes, root: Path, p: Path, open: bool, quiet: bool)
    requires UploadTree(was, now, root, p, open, quiet)
    ensures forall q :: q != p ==> BytesAt(now, q) == BytesAt(was, q)
    ensures !open ==> SameBytes(was, now)
  {
  }

  lemma AboveRoot(t: Nodes, token: string)
    requires IsTree(t) && STORAGE + [token] in t
    ensures STORAGE in t && t[STORAGE].Dir?
  {
    assert Init(STORAGE + [token]) == STORAGE;
  }

  /** The directory is not there and could not be made. */
  lemma TreeUntouched(t: Nodes, root: Path, p: Path, quiet: bool)
    requires IsTree(t) && root !in t && (quiet ==> !CanMake(t, root))
    ensures UploadTree(t, t, root, p, false, quiet) && SameBytes(t, t)
  {
  }

  /** The directory is there, and the destination has been opened or not. */
  lemma TreeOpened(was: Nodes, now: Nodes, root: Path, p: Path, open: bool, quiet: bool)
    requires IsTree(now) && (root in was || CanMake(was, root))
    requires var base := WithRoot(was, root, true);
             now == (if open && p !in base then base[p := File([])] else base)
             && (open ==> IsFree(base, p)) && (quiet ==> (open <==> IsFree(base, p)))
    ensures UploadTree(was, now, root, p, open, quiet) && SameBytes(was, now) && root in now
    ensures open ==> IsFile(now, p)
  {
    var base := WithRoot(was, root, true);
    assert root in base && (root == p && open ==> root in was);
    assert root in now;
    if open { assert now == base[p := File(BytesAt(now, p))]; }
    assert SameBytes(was, base) && SameBytes(base, now);
    hide IsTree, CanMake, IsFree, SameBytes;
  }

  /** What file_recv wrote replaces what was there when the file was opened. */
  lemma UploadTreeFilled(was: Nodes, mid: Nodes, root: Path, p: Path, quiet: bool, bytes: seq<byte>)
    requires UploadTree(was, mid, root, p, true, quiet) && IsTree(mid[p := File(bytes)])
    ensures UploadTree(was, mid[p := File(bytes)], root, p, true, quiet)
  {
    var now, base := mid[p := File(bytes)], WithRoot(was, root, root in mid);
    assert now == base[p := File(bytes)];
  }

  lemma UploadTreeTouches(token: string, was: Nodes, now: Nodes, p: Path, open: bool, quiet: bool)
    requires UploadTree(was, now, STORAGE + [token], p, open, quiet)
    requires Reachable(token, p) || !open
    ensures Touches(token, was, now)
  {
    assert Reachable(token, STORAGE + [token]);
  }

  lemma RoomMeansOpen(was: Nodes, now: Nodes, token: string, p: Path, open: bool)
    requires UploadTree(was, now, STORAGE + [token], p, open, true) && RoomForUpload(was, token, p)
    ensures open
  {
    assert Init(p) == STORAGE + [token];
  }

  // ----- requests -----

  datatype Request =
    | Auth
    | Remove(path: string)
    | MakeDir(path: string)
    | Upload(info: Uploads.FileInfo, wire: Uploads.Wire)   // and what then reaches file_recv
    | ReadOnly                                             // downloads and listings

  datatype Response = Done | NotRegistered | Refused | Failed

  /** A path comes without the byte that ends it. */
  predicate WellFormed(req: Request) { req.MakeDir? ==> '\0' !in req.path }

  predicate IdsBelow(b: Buckets, n: nat) {
    forall i, m :: 0 <= i < |b| && 0 <= m < |b[i]| ==> b[i][m].value < n
  }

  lemma PutKeepsIds(b: Buckets, p: Pair, n: nat)
    requires |b| > 0 && IdsBelow(b, n) && p.value == n
    ensures IdsBelow(PutPair(b, p), n + 1)
  {
  }

  lemma FoundIdIsBelow(b: Buckets, k: Uuid, n: nat)
    requires |b| > 0 && IdsBelow(b, n) && Lookup(b, k).Some?
    ensures Lookup(b, k).value < n
  {
  }

  const NO_TOKEN: Token := [0, 0, 0, 0, 0, 0, 0, 0, 0, 0, 0, 0, 0, 0, 0, 0]

  /** The name under which handle_upload keeps its session, and where it writes. */
  function UploadKey(token: Token, info: Uploads.FileInfo): Sessions.Key {
    Uploads.UploadKey(RootText(Unparse(token)), info)
  }

  function UploadPath(token: Token, info: Uploads.FileInfo): Path { ResolvePath(UploadKey(token, info).filename) }

  // ----- requests as relations -----

  /** The server's state as a value: accounts, user table, file tree, and the calls that have failed. */
  datatype World = World(accounts: seq<Uploads.Account>, buckets: Buckets, nodes: Nodes, failed: seq<Path>)

  function UserOf(w: World, token: Token): Option<UserId>
    requires |w.buckets| > 0
  {
    if token == NO_TOKEN then None else Lookup(w.buckets, token)
  }

  /** handle_auth: a user with an empty table is registered in any case. */
  ghost predicate AuthStep(w: World, token: Token, res: Response, now: World)
    requires |w.buckets| > 0
  {
    var root := STORAGE + [Unparse(token)];
    && |now.accounts| == |w.accounts| + 1 && w.accounts <= now.accounts && Uploads.IsNew(Last(now.accounts))
    && now.buckets == PutPair(w.buckets, Pair(token, |w.accounts|)) && w.failed <= now.failed
    && if res == Done then now.failed == w.failed && CanMake(w.nodes, root) && now.nodes == w.nodes[root := Dir]
       else res == Failed && now.nodes == w.nodes && (now.failed == w.failed ==> !CanMake(w.nodes, root))
  }

  /** handle_remove: what is left below r is what failed calls stand in the way of. */
  ghost predicate RemoveStep(w: World, token: Token, path: string, res: Response, now: World) {
    var r := ResolvePath(RootText(Unparse(token)) + "/" + path);
    if !Reachable(Unparse(token), r) then res == Refused && now == w
    else
      && now == w.(nodes := now.nodes, failed := now.failed) && w.failed <= now.failed
      && Shrunk(w.nodes, now.nodes, r) && (res == Done || res == Failed)
      && (res == Done <==> r in w.nodes && r !in now.nodes)
      && forall q :: q in now.nodes && r <= q ==> Blamed(now.failed, |w.failed|, q)
  }

  /** handle_mkdir: done exactly when all is there that was asked for. */
  ghost predicate MkdirStep(w: World, token: Token, path: string, res: Response, now: World) {
    var full := RootText(Unparse(token)) + "/" + path;
    var r, slash := ResolvePath(full), Effective(Components(full)) == "..";
    if !Reachable(Unparse(token), r) then res == Refused && now == w
    else
      && now == w.(nodes := now.nodes, failed := now.failed)
      && Made(w.nodes, now.nodes, r, 3, slash) && (res == Done || res == Failed)
      && (res == Done <==> AllThere(now.nodes, r, 3, |r|) && (slash ==> r in now.nodes))
      && (if res == Done then now.failed == w.failed
          else exists p :: StopsAt(now.nodes, w.failed, now.failed, r, 3, slash, p))
      && (now.failed == w.failed && RoomFor(w.nodes, r, 3) ==> res == Done)
  }

  /** handle_upload with a destination that could be opened or not: Uploads.Uploaded for the account
      and the destination; nothing is touched for a file that is too big. */
  ghost predicate Handled(digest: seq<byte> -> Checksum, w: World, id: UserId, root: Path, k: Sessions.Key, p: Path,
                          info: Uploads.FileInfo, wire: Uploads.Wire, open: bool,
                          out: Uploads.UploadOutcome, now: World)
  {
    && id < |w.accounts| == |now.accounts| && now.accounts == w.accounts[id := now.accounts[id]]
    && now.buckets == w.buckets && w.failed <= now.failed
    && (if out.NoSpace? then now.nodes == w.nodes && now.failed == w.failed
        else UploadTree(w.nodes, now.nodes, root, p, open, now.failed == w.failed))
    && Uploads.Uploaded(digest, info, k, root in now.nodes, open, wire,
                        w.accounts[id], BytesAt(w.nodes, p), out, now.accounts[id], BytesAt(now.nodes, p))
  }

  /** The destination is opened or not, and then the transfer runs or not. */
  lemma UploadIsHandled(digest: seq<byte> -> Checksum, w: World, mid: World, id: UserId, root: Path,
                        k: Sessions.Key, p: Path, info: Uploads.FileInfo, wire: Uploads.Wire, dirOk: bool, open: bool,
                        out: Uploads.UploadOutcome, now: World)
    requires w.failed <= mid.failed && mid == w.(nodes := mid.nodes, failed := mid.failed)
    requires if info.size > Uploads.MAX_USER_SPACE then mid == w && !open
             else UploadTree(w.nodes, mid.nodes, root, p, open, mid.failed == w.failed)
                  && SameBytes(w.nodes, mid.nodes) && (dirOk <==> root in mid.nodes)
    requires id < |w.accounts| == |now.accounts| && now == mid.(accounts := now.accounts, nodes := now.nodes)
    requires now.accounts == w.accounts[id := now.accounts[id]] && IsTree(now.nodes)
    requires now.nodes == if open && Uploads.Ran(out) then mid.nodes[p := File(BytesAt(now.nodes, p))] else mid.nodes
    requires Uploads.Uploaded(digest, info, k, dirOk, open, wire, w.accounts[id], BytesAt(mid.nodes, p), out,
                              now.accounts[id], BytesAt(now.nodes, p))
    ensures Handled(digest, w, id, root, k, p, info, wire, open, out, now)
  {
    hide Uploads.AfterUpload, Uploads.OffersAfter, Uploads.Receives;
    if info.size <= Uploads.MAX_USER_SPACE && open && Uploads.Ran(out) {
      UploadTreeFilled(w.nodes, mid.nodes, root, p, mid.failed == w.failed, BytesAt(now.nodes, p));
    }
  }

  lemma HandledTouches(digest: seq<byte> -> Checksum, w: World, id: UserId, token: string, k: Sessions.Key, p: Path,
                       info: Uploads.FileInfo, wire: Uploads.Wire, open: bool, out: Uploads.UploadOutcome, now: World)
    requires Handled(digest, w, id, STORAGE + [token], k, p, info, wire, open, out, now)
    requires IsTree(w.nodes) && (Reachable(token, p) || !open)
    ensures Touches(token, w.nodes, now.nodes)
  {
    if out.NoSpace? {
      NothingTouched(token, w.nodes);
    } else {
      UploadTreeTouches(token, w.nodes, now.nodes, p, open, now.failed == w.failed);
    }
  }

  lemma HandledBytes(digest: seq<byte> -> Checksum, w: World, id: UserId, root: Path, k: Sessions.Key, p: Path,
                     info: Uploads.FileInfo, wire: Uploads.Wire, open: bool, out: Uploads.UploadOutcome, now: World)
    requires Handled(digest, w, id, root, k, p, info, wire, open, out, now)
    ensures forall q :: q != p ==> BytesAt(now.nodes, q) == BytesAt(w.nodes, q)
  {
    if !out.NoSpace? { UploadTreeBytes(w.nodes, now.nodes, root, p, open, now.failed == w.failed); }
  }

  function AnswerTo(out: Uploads.UploadOutcome): Response {
    match out
    case NoSpace => Refused
    case Finished(_, _) => Done
    case _ => Failed
  }

  ghost predicate UploadStep(digest: seq<byte> -> Checksum, w: World, token: Token, id: UserId,
                             info: Uploads.FileInfo, wire: Uploads.Wire, res: Response, now: World)
  {
    exists open, out ::
      Handled(digest, w, id, STORAGE + [Unparse(token)], UploadKey(token, info), UploadPath(token, info),
              info, wire, open, out, now)
      && res == AnswerTo(out)
  }

  ghost predicate RegisteredStep(digest: seq<byte> -> Checksum, w: World, token: Token, id: UserId, req: Request,
                                 res: Response, now: World)
    requires |w.buckets| > 0
  {
    match req
    case Auth => AuthStep(w, token, res, now)
    case Remove(path) => RemoveStep(w, token, path, res, now)
    case MakeDir(path) => MkdirStep(w, token, path, res, now)
    case Upload(info, wire) => UploadStep(digest, w, token, id, info, wire, res, now)
    case ReadOnly => res == Done && now == w
  }

  /** Only a registration may come without a token; everything else needs a registered user. */
  ghost predicate Step(digest: seq<byte> -> Checksum, w: World, m: (Token, Request), res: Response, now: World) {
    && |w.buckets| > 0 && Touches(Unparse(m.0), w.nodes, now.nodes) &&
    if m.1.Auth? then AuthStep(w, m.0, res, now)
    else if UserOf(w, m.0).None? then res == NotRegistered && now == w
    else RegisteredStep(digest, w, m.0, UserOf(w, m.0).value, m.1, res, now)
  }

  lemma AuthIsStep(digest: seq<byte> -> Checksum, w: World, token: Token, res: Response, now: World)
    requires |w.buckets| > 0 && IsTree(now.nodes) && AuthStep(w, token, res, now)
    ensures Step(digest, w, (token, Auth), res, now)
  {
    assert Reachable(Unparse(token), STORAGE + [Unparse(token)]);
  }

  ghost predicate IsRun(digest: seq<byte> -> Checksum, messages: seq<(Token, Request)>, answers: seq<Response>,
                        worlds: seq<World>)
  {
    |answers| == |messages| && |worlds| == |messages| + 1
    && forall i :: 0 <= i < |messages| ==> Step(digest, worlds[i], messages[i], answers[i], worlds[i + 1])
  }

  lemma RunGrows(digest: seq<byte> -> Checksum, messages: seq<(Token, Request)>, answers: seq<Response>,
                 worlds: seq<World>, m: (Token, Request), res: Response, now: World)
    requires IsRun(digest, messages, answers, worlds) && Step(digest, Last(worlds), m, res, now)
    ensures IsRun(digest, messages + [m], answers + [res], worlds + [now])
  {
    hide Step;
    var ms, rs, ws := messages + [m], answers + [res], worlds + [now];
    forall i | 0 <= i < |ms| ensures Step(digest, ws[i], ms[i], rs[i], ws[i + 1]) {
      if i < |messages| { assert Step(digest, worlds[i], messages[i], answers[i], worlds[i + 1]); }
    }
  }

  lemma RunPrefix(digest: seq<byte> -> Checksum, messages: seq<(Token, Request)>, answers: seq<Response>,
                  worlds: seq<World>, n: nat)
    requires IsRun(digest, messages, answers, worlds) && n <= |messages|
    ensures IsRun(digest, messages[..n], answers[..n], worlds[..n + 1])
  {
    hide Step;
  }

  lemma StepTouches(digest: seq<byte> -> Checksum, w: World, m: (Token, Request), res: Response, now: World)
    requires Step(digest, w, m, res, now)
    ensures Touches(Unparse(m.0), w.nodes, now.nodes)
  {
  }

  /** Isolation over runs: as long as no request carries a user's token, nothing at or below that
      user's root changes. */
  lemma {:induction false} RunLeavesOthersAlone(digest: seq<byte> -> Checksum, messages: seq<(Token, Request)>,
                                                answers: seq<Response>, worlds: seq<World>, b: Token)
    requires IsRun(digest, messages, answers, worlds) && forall m :: m in messages ==> m.0 != b
    ensures Untouched(Unparse(b), worlds[0].nodes, Last(worlds).nodes)
    decreases |messages|
  {
    if messages == [] {
    } else {
      hide Step, Touches, Untouched, Unparse;
      var n := |messages| - 1;
      var w, m, res, now := worlds[n], messages[n], answers[n], worlds[n + 1];
      assert m in messages && Step(digest, w, m, res, now);
      RunPrefix(digest, messages, answers, worlds, n);
      RunLeavesOthersAlone(digest, Init(messages), Init(answers), Init(worlds), b);
      StepTouches(digest, w, m, res, now);
      OthersUntouched(m.0, b, w.nodes, now.nodes);
      UntouchedChain(Unparse(b), worlds[0].nodes, w.nodes, now.nodes);
    }
  }
}

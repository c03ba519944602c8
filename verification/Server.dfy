/** The server's request handlers as methods on its file tree, its user table and its users' sessions. */
module Server {
  import opened Common
  import opened Paths
  import opened FileTree
  import opened UserPaths
  import opened MakeDirs
  import opened UserMap
  import opened Chunks
  import opened Requests
  import Accounts
  import Uploads

  class MiniBox {
    const disk: Disk
    const users: Table
    const digest: seq<byte> -> Checksum
    const people: Accounts.People
    ghost var Repr: set<object>      // everything requests may change

    /** Every identity in the table is that of somebody. */
    ghost predicate UsersOk()
      reads users, users.entries, users.place.Keys, people
    {
      users.Valid() && IdsBelow(users.Buckets(), |people.users|)
    }

    /** The users' sessions are apart from everything else. */
    ghost predicate PeopleOk()
      reads users, people, people.Repr
    {
      && people.Valid() && this !in people.Repr && disk !in people.Repr && users !in people.Repr
      && users.entries !in people.Repr && users.place.Keys !! people.Repr
    }

    ghost predicate Valid()
      reads this, Repr
    {
      && {this, disk, users, users.entries, people} <= Repr && users.place.Keys <= Repr && people.Repr <= Repr
      && IsTree(disk.nodes) && UsersOk() && PeopleOk()
    }

    /** The state as a value. */
    ghost function Now(): World
      reads disk, users, people
    {
      World(people.view, users.Buckets(), disk.nodes, disk.failed)
    }

    /** The server at its start, with nobody registered. */
    constructor (disk: Disk, users: Table, digest: seq<byte> -> Checksum)
      requires IsTree(disk.nodes) && users.Valid() && users.Logged() && users.log == []
      ensures Valid() && this.disk == disk && this.users == users && this.digest == digest
      ensures fresh(people) && people.users == []
    {
      this.disk, this.users, this.digest := disk, users, digest;
      people := new Accounts.People();
      new;
      Repr := {this, disk, users, users.entries} + users.place.Keys + people.Repr;
    }

    /** mkdir of the user's directory; `taken` tells that something has its name. */
    method MakeRoot(token: Token) returns (made: bool, taken: bool)
      requires IsTree(disk.nodes)
      modifies disk
      ensures var root := STORAGE + [Unparse(token)];
              && (made <==> CanMake(old(disk.nodes), root) && disk.failed == old(disk.failed))
              && (taken <==> root in old(disk.nodes)) && (taken ==> disk.failed == old(disk.failed))
              && disk.nodes == (if made then old(disk.nodes)[root := Dir] else old(disk.nodes))
      ensures IsTree(disk.nodes) && old(disk.failed) <= disk.failed
    {
      RootResolves(Unparse(token));
      var r;
      r, taken := disk.Mkdir(RootText(Unparse(token)));
      made := r == 0;
    }

    /** The same, told of the whole server. */
    method MakeUserRoot(token: Token) returns (made: bool)
      requires IsTree(disk.nodes) && UsersOk() && PeopleOk()
      modifies disk
      ensures UsersOk() && PeopleOk() && |users.Buckets()| > 0 && IsTree(disk.nodes)
      ensures var root := STORAGE + [Unparse(token)];
              && (made <==> CanMake(old(disk.nodes), root) && disk.failed == old(disk.failed))
              && disk.nodes == (if made then old(disk.nodes)[root := Dir] else old(disk.nodes))
      ensures old(disk.failed) <= disk.failed
    {
      hide IdsBelow, Accounts.People.Valid, CanMake, IsTree, Unparse;
      var taken;
      made, taken := MakeRoot(token);
    }

    /** uman_register_user: every registration brings a user of its own. */
    method Register(token: Token)
      requires UsersOk() && PeopleOk()
      modifies people, users, users.entries, users.place.Keys
      ensures UsersOk() && PeopleOk()
      ensures fresh(users.place.Keys - old(users.place.Keys)) && fresh(people.Repr - old(people.Repr))
      ensures users.Buckets() == PutPair(old(users.Buckets()), Pair(token, old(|people.view|)))
      ensures |people.view| == old(|people.view|) + 1 && people.view == old(people.view) + [Last(people.view)]
      ensures Uploads.IsNew(Last(people.view))
    {
      var n := |people.users|;
      PutKeepsIds(users.Buckets(), Pair(token, n), n);
      people.Add();
      var put := users.Put(token, n);
    }

    /** handle_auth: the directory is made, and the user registered in any case. */
    method HandleAuth(token: Token) returns (res: Response)
      requires IsTree(disk.nodes) && UsersOk() && PeopleOk()
      modifies disk, people, users, users.entries, users.place.Keys
      ensures UsersOk() && PeopleOk()
      ensures fresh(users.place.Keys - old(users.place.Keys)) && fresh(people.Repr - old(people.Repr))
      ensures IsTree(disk.nodes) && Step(digest, old(Now()), (token, Auth), res, Now())
    {
      hide PutPair, UsersOk, PeopleOk, Step, IsTree, Unparse, CanMake, Uploads.IsNew;
      ghost var w := Now();
      var made := MakeUserRoot(token);
      Register(token);
      res := if made then Done else Failed;
      AuthIsStep(digest, w, token, res, Now());
    }

    /** What handle_remove does with an accepted path: a file is read for its digest first. */
    method RemoveTarget(target: string) returns (removed: bool)
      requires IsTree(disk.nodes)
      modifies disk
      ensures Shrunk(old(disk.nodes), disk.nodes, ResolvePath(target)) && old(disk.failed) <= disk.failed
      ensures removed <==> ResolvePath(target) in old(disk.nodes) && ResolvePath(target) !in disk.nodes
      ensures forall q :: q in disk.nodes && ResolvePath(target) <= q && q != [] ==>
                Blamed(disk.failed, |old(disk.failed)|, q)
    {
      hide ResolvePath;
      ghost var was, r, n := disk.nodes, ResolvePath(target), |disk.failed|;
      var found, isDir := disk.Lstat(target);
      var unreadable := false;
      if found == 0 && !isDir { unreadable := disk.Fails(ResolvePath(target)); }
      if found < 0 || unreadable {
        NothingShrunk(was, r);
        AllInTheWay(was, disk.failed, n, r);
        return false;
      }
      var ret := RmR(disk, target);
      return ret == 0;
    }

    /** handle_remove for a known user. */
    method HandleRemove(token: Token, path: string) returns (res: Response)
      requires IsTree(disk.nodes)
      modifies disk
      ensures RemoveStep(old(Now()), token, path, res, Now())
      ensures Touches(Unparse(token), old(disk.nodes), disk.nodes)
    {
      hide RootText, ResolvePath, UserPath, IsTree, Shrunk, Blamed, Touches, Unparse;
      ghost var was, r := disk.nodes, ResolvePath(RootText(Unparse(token)) + "/" + path);
      AcceptedIff(path, Unparse(token));
      var target := GetUserPath(path, Unparse(token));
      if target.None? {
        NothingTouched(Unparse(token), was);
        return Refused;
      }
      var removed := RemoveTarget(target.value);
      ShrinkTouches(Unparse(token), was, disk.nodes, r);
      return if removed then Done else Failed;
    }

    /** handle_mkdir for a known user. */
    method HandleMkdir(token: Token, path: string) returns (res: Response)
      requires IsTree(disk.nodes) && '\0' !in path
      modifies disk
      ensures MkdirStep(old(Now()), token, path, res, Now())
      ensures Touches(Unparse(token), old(disk.nodes), disk.nodes)
    {
      ghost var was, full := disk.nodes, RootText(Unparse(token)) + "/" + path;
      ghost var root := STORAGE + [Unparse(token)];
      RootIsWellFormed(Unparse(token));
      NothingTouched(Unparse(token), was);
      hide RootText, ResolvePath, Render, Touches, AllThere, RoomFor, Made, IsTree, AllPlain, StopsAt;
      var ret := CreateDirectories(disk, RootText(Unparse(token)), path, root);
      if ret == -2 { return Refused; }
      MakingTouches(Unparse(token), was, disk.nodes, ResolvePath(full), Effective(Components(full)) == "..");
      return if ret == 0 then Done else Failed;
    }

    /** Make the user's directory if it is missing, and open the destination; the storage directory
        above the root is a directory and cannot be opened. */
    method OpenUpload(token: Token, file: string) returns (dirOk: bool, open: bool)
      requires IsTree(disk.nodes) && PeopleOk()
      requires Reachable(Unparse(token), ResolvePath(file)) || ResolvePath(file) == STORAGE
      modifies disk
      ensures UploadTree(old(disk.nodes), disk.nodes, STORAGE + [Unparse(token)], ResolvePath(file), open,
                         disk.failed == old(disk.failed))
      ensures IsTree(disk.nodes) && (dirOk <==> STORAGE + [Unparse(token)] in disk.nodes)
      ensures open ==> dirOk && Reachable(Unparse(token), ResolvePath(file)) && IsFile(disk.nodes, ResolvePath(file))
      ensures SameBytes(old(disk.nodes), disk.nodes) && PeopleOk() && old(disk.failed) <= disk.failed
    {
      hide Unparse, RootText, ResolvePath, Reachable, Accounts.People.Valid, SameBytes, UploadTree, IsTree, BytesAt;
      ghost var was, root, p := disk.nodes, STORAGE + [Unparse(token)], ResolvePath(file);
      var made, taken := MakeRoot(token);
      if made || taken { AboveRoot(disk.nodes, Unparse(token)); }
      if !made && !taken {
        TreeUntouched(was, root, p, disk.failed == old(disk.failed));
        return false, false;
      }
      open := disk.OpenForWrite(file);
      dirOk := true;
      TreeOpened(was, disk.nodes, root, p, open, disk.failed == old(disk.failed));
    }

    /** What file_recv wrote is in the file. */
    method StoreUpload(token: Token, file: string, bytes: seq<byte>)
      requires IsTree(disk.nodes) && IsFile(disk.nodes, ResolvePath(file)) && PeopleOk()
      modifies disk`nodes
      ensures IsTree(disk.nodes) && disk.nodes == old(disk.nodes)[ResolvePath(file) := File(bytes)] && PeopleOk()
    {
      hide Accounts.People.Valid, ResolvePath;
      disk.Fill(file, bytes);
    }

    /** The transfer, with the destination open or not. */
    method ReceiveUpload(token: Token, id: UserId, root: string, file: string, info: Uploads.FileInfo,
                         wire: Uploads.Wire, dirOk: bool, open: bool) returns (out: Uploads.UploadOutcome)
      requires IsTree(disk.nodes) && PeopleOk() && id < |people.users|
      requires open ==> dirOk && IsFile(disk.nodes, ResolvePath(file))
      modifies disk`nodes, people.Repr
      ensures PeopleOk() && fresh(people.Repr - old(people.Repr)) && |people.users| == old(|people.users|)
      ensures IsTree(disk.nodes) && |people.view| == old(|people.view|) && id < |people.view|
      ensures people.view == old(people.view)[id := people.view[id]]
      ensures Uploads.Uploaded(digest, info, Uploads.UploadKey(root, info), dirOk, open, wire,
                               old(people.view)[id], BytesAt(old(disk.nodes), ResolvePath(file)), out,
                               people.view[id], BytesAt(disk.nodes, ResolvePath(file)))
      ensures disk.nodes == if open && Uploads.Ran(out)
                            then old(disk.nodes)[ResolvePath(file) := File(BytesAt(disk.nodes, ResolvePath(file)))]
                            else old(disk.nodes)
    {
      assert id < |people.view|;
      hide Uploads.UploadKey, Uploads.Uploaded, ResolvePath, Accounts.People.Valid, IsTree, BytesAt, Uploads.Ran;
      ghost var k, p, account, before := Uploads.UploadKey(root, info), ResolvePath(file), people.view[id], disk.nodes;
      var now;
      out, now := people.UploadAs(id, root, info, dirOk, open, BytesAt(disk.nodes, ResolvePath(file)), wire, digest);
      if open && Uploads.Ran(out) {
        StoreUpload(token, file, now);
        FilledBytes(before, p, now);
      } else {
        Uploads.NotRunKeepsBytes(digest, info, k, dirOk, open, wire, account, BytesAt(before, p), out,
                                 people.view[id], now);
      }
    }

    /** handle_upload, for a destination in the user's reach. */
    method UploadUnder(token: Token, id: UserId, root: string, file: string, info: Uploads.FileInfo, wire: Uploads.Wire)
      returns (out: Uploads.UploadOutcome, open: bool)
      requires IsTree(disk.nodes) && PeopleOk() && id < |people.users|
      requires Reachable(Unparse(token), ResolvePath(file)) || ResolvePath(file) == STORAGE
      modifies disk, people.Repr
      ensures Touches(Unparse(token), old(disk.nodes), disk.nodes)
      ensures PeopleOk() && fresh(people.Repr - old(people.Repr)) && |people.users| == old(|people.users|)
      ensures Handled(digest, old(Now()), id, STORAGE + [Unparse(token)], Uploads.UploadKey(root, info),
                      ResolvePath(file), info, wire, open, out, Now())
    {
      hide Uploads.UploadKey, Uploads.Uploaded, ResolvePath, Touches, Handled, Accounts.People.Valid, UploadTree,
           Unparse, Reachable, IsTree, SameBytes;
      ghost var w := Now();
      var dirOk := false;
      open := false;
      if info.size <= Uploads.MAX_USER_SPACE { dirOk, open := OpenUpload(token, file); }
      ghost var mid := Now();
      out := ReceiveUpload(token, id, root, file, info, wire, dirOk, open);
      ghost var k, p := Uploads.UploadKey(root, info), ResolvePath(file);
      UploadIsHandled(digest, w, mid, id, STORAGE + [Unparse(token)], k, p, info, wire, dirOk, open, out, Now());
      HandledTouches(digest, w, id, Unparse(token), k, p, info, wire, open, out, Now());
    }

    /** handle_upload for a known user. */
    method HandleUpload(token: Token, id: UserId, info: Uploads.FileInfo, wire: Uploads.Wire)
      returns (out: Uploads.UploadOutcome, open: bool)
      requires IsTree(disk.nodes) && PeopleOk() && id < |people.users|
      modifies disk, people.Repr
      ensures Touches(Unparse(token), old(disk.nodes), disk.nodes)
      ensures PeopleOk() && fresh(people.Repr - old(people.Repr)) && |people.users| == old(|people.users|)
      ensures Handled(digest, old(Now()), id, STORAGE + [Unparse(token)], UploadKey(token, info),
                      UploadPath(token, info), info, wire, open, out, Now())
    {
      UploadTarget(Unparse(token), info.filename);
      out, open := UploadUnder(token, id, RootText(Unparse(token)), UploadKey(token, info).filename, info, wire);
    }

    /** Requests that change the file tree only. */
    method HandleTree(token: Token, req: Request) returns (res: Response)
      requires IsTree(disk.nodes) && !req.Auth? && !req.Upload? && WellFormed(req)
      modifies disk
      ensures Touches(Unparse(token), old(disk.nodes), disk.nodes)
      ensures match req
              case Remove(path) => RemoveStep(old(Now()), token, path, res, Now())
              case MakeDir(path) => MkdirStep(old(Now()), token, path, res, Now())
              case _ => res == Done && Now() == old(Now())
    {
      hide RemoveStep, MkdirStep;
      match req {
        case Remove(path) => res := HandleRemove(token, path);
        case MakeDir(path) => res := HandleMkdir(token, path);
        case ReadOnly =>
          NothingTouched(Unparse(token), disk.nodes);
          res := Done;
      }
    }

    /** The requests of a registered user change the file tree and that user's sessions only. */
    method HandleRegistered(token: Token, id: UserId, req: Request) returns (res: Response)
      requires IsTree(disk.nodes) && PeopleOk() && id < |people.users| && !req.Auth? && WellFormed(req)
      requires |users.Buckets()| > 0
      modifies disk, people.Repr
      ensures Touches(Unparse(token), old(disk.nodes), disk.nodes) && IsTree(disk.nodes)
      ensures PeopleOk() && fresh(people.Repr - old(people.Repr)) && |people.users| == old(|people.users|)
      ensures RegisteredStep(digest, old(Now()), token, id, req, res, Now())
    {
      hide Handled, ResolvePath, UploadKey, UploadPath, RemoveStep, MkdirStep;
      if req.Upload? {
        var out, open := HandleUpload(token, id, req.info, req.wire);
        res := AnswerTo(out);
      } else {
        res := HandleTree(token, req);
      }
    }

    /** umap_get, for messages that need a registered user. */
    method Identify(token: Token) returns (id: Option<UserId>)
      requires UsersOk()
      ensures id == UserOf(Now(), token)
      ensures id.Some? ==> id.value < |people.users|
    {
      if token == NO_TOKEN { return None; }
      id := users.Get(token);
      if id.Some? { FoundIdIsBelow(users.Buckets(), token, |people.users|); }
    }

    /** New objects are taken into the frame. */
    ghost method Adopt()
      requires {this, disk, users, users.entries, people} <= Repr && IsTree(disk.nodes) && UsersOk() && PeopleOk()
      modifies `Repr
      ensures Valid() && Repr == old(Repr) + users.place.Keys + people.Repr
    {
      hide IsTree, IdsBelow, Accounts.People.Valid;
      Repr := Repr + users.place.Keys + people.Repr;
    }

    method OnAuth(token: Token) returns (res: Response)
      requires Valid()
      modifies Repr
      ensures Valid() && fresh(Repr - old(Repr)) && Step(digest, old(Now()), (token, Auth), res, Now())
    {
      hide Step, UsersOk, IsTree;
      res := HandleAuth(token);
      Adopt();
    }

    method OnRegistered(token: Token, id: UserId, req: Request) returns (res: Response)
      requires Valid() && !req.Auth? && WellFormed(req) && UserOf(Now(), token) == Some(id) && id < |people.users|
      modifies Repr
      ensures Valid() && fresh(Repr - old(Repr)) && Step(digest, old(Now()), (token, req), res, Now())
    {
      hide RegisteredStep, IdsBelow, Accounts.People.Valid, UserOf, Touches;
      res := HandleRegistered(token, id, req);
      Adopt();
    }

    /** on_client_message_received: only a registration may come without a token, and everything
        else needs a registered user. */
    method OnMessage(token: Token, req: Request) returns (res: Response)
      requires Valid() && WellFormed(req)
      modifies Repr
      ensures Valid() && fresh(Repr - old(Repr)) && Step(digest, old(Now()), (token, req), res, Now())
    {
      hide IdsBelow, Accounts.People.Valid, UserOf;
      if req.Auth? {
        res := OnAuth(token);
        return;
      }
      var id := Identify(token);
      if id.None? { return NotRegistered; }
      res := OnRegistered(token, id.value, req);
    }

    /** A run of the server's loop over any messages is a run of their steps; it leaves every user
        untouched whose token none of them carries. */
    method Serve(messages: seq<(Token, Request)>) returns (answers: seq<Response>, ghost worlds: seq<World>)
      requires Valid() && forall m :: m in messages ==> WellFormed(m.1)
      modifies Repr
      ensures Valid() && IsRun(digest, messages, answers, worlds) && worlds[0] == old(Now()) && Last(worlds) == Now()
      ensures forall b: Token :: (forall m :: m in messages ==> m.0 != b) ==>
                Untouched(Unparse(b), old(disk.nodes), disk.nodes)
    {
      hide Valid, Step, Untouched, WellFormed;
      answers, worlds := [], [Now()];
      for i := 0 to |messages|
        invariant Valid() && fresh(Repr - old(Repr))
        invariant IsRun(digest, messages[..i], answers, worlds) && worlds[0] == old(Now()) && Last(worlds) == Now()
      {
        assert messages[i] in messages;
        var res := OnMessage(messages[i].0, messages[i].1);
        RunGrows(digest, messages[..i], answers, worlds, messages[i], res, Now());
        assert messages[..i + 1] == messages[..i] + [messages[i]];
        answers, worlds := answers + [res], worlds + [Now()];
      }
      assert messages[..|messages|] == messages;
      forall b: Token | forall m :: m in messages ==> m.0 != b
        ensures Untouched(Unparse(b), old(disk.nodes), disk.nodes)
      {
        RunLeavesOthersAlone(digest, messages, answers, worlds, b);
      }
    }
  }
}

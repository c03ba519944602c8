/** Uploads that are interrupted and resumed: the server's handler with its session, and what any
    number of attempts leaves in the destination. */
module Uploads {
  import opened Common
  import opened Chunks
  import opened Transfer
  import opened FileTransfer
  import opened Sessions

  const MAX_USER_SPACE: nat := 10_000_000_000

  datatype FileInfo = FileInfo(filename: string, size: nat, chunkCount: nat)

  datatype UploadOutcome =
    | NoSpace
    | NoDirectory(offered: nat)
    | Finished(offered: nat, stats: Stats)      // UPLOAD_FIN was sent and the session dropped
    | Suspended(offered: nat, stats: Stats)     // the session stays, interrupted

  /** strrchr(s, '/'): the text from the last slash on. */
  function FromLastSlash(s: string): (r: string)
    requires '/' in s
    ensures 0 < |r| <= |s| && r == s[|s| - |r|..] && r[0] == '/' && '/' !in r[1..]
  {
    if '/' in s[1..] then FromLastSlash(s[1..]) else s
  }

  /** How a null pointer is printed as a string. */
  const NULL_TEXT: string := "(null)"

  /** What the handler appends to the user's directory: for a name without a slash strrchr is null. */
  function LastPart(name: string): (r: string)
    ensures '/' in name ==> 0 < |r| <= |name| && r == name[|name| - |r|..] && r[0] == '/' && '/' !in r[1..]
    ensures '/' !in name ==> r == NULL_TEXT
  {
    if '/' in name then FromLastSlash(name) else NULL_TEXT
  }

  function UploadKey(root: string, info: FileInfo): Key { Key(Upload, root + LastPart(info.filename)) }

  ghost function Keys(u: User): seq<Key>
    reads u, u.sessions
    requires u.Valid()
  {
    KeysOf(u.Contents())
  }

  /** The number of the chunk the server asks for first, given the sessions of a user. */
  ghost function OfferIn(ss: seq<Session?>, k: Key): nat
    reads ss
    requires NonNull(ss)
  {
    var i := FirstMatch(KeysOf(ss), k);
    if i < |ss| && ss[i].state == Interrupted then ss[i].lastChunk else 0
  }

  ghost function Offer(u: User, k: Key): nat
    reads u, u.sessions, if u.Valid() then u.Objects() else {}
    requires u.Valid()
  {
    OfferIn(u.Contents(), k)
  }

  /** What the table holds for every other key, and the number offered for it, is as it was. */
  twostate predicate OthersKept(u: User, k: Key)
    reads u, u.sessions, if u.Valid() then u.Objects() else {}
    requires old(u.Valid()) && u.Valid()
  {
    forall o :: o != k ==> (o in Keys(u) <==> o in old(Keys(u))) && Offer(u, o) == old(Offer(u, o))
  }

  /** Its sessions are some of those it had, and new ones. */
  twostate predicate KeptOrNew(u: User)
    reads u, u.sessions
    requires old(u.Valid()) && u.Valid()
  {
    forall s :: s in u.Contents() ==> s in old(u.Contents()) || fresh(s)
  }

  lemma MatchInRange(keys: seq<Key>, k: Key)
    ensures k in keys <==> FirstMatch(keys, k) < |keys|
  {
    assert keys[..|keys|] == keys;
  }

  lemma MatchAfterAdd(keys: seq<Key>, k: Key, o: Key)
    ensures FirstMatch(keys + [k], o) == FirstMatch(keys, o) + (if o !in keys && o != k then 1 else 0)
  {
    MatchInRange(keys, o);
    MatchInRange(keys + [k], o);
    var i := FirstMatch(keys, o);
    if o in keys + [k] {
      assert (keys + [k])[..i] == keys[..i];
      MatchIsFirst(keys + [k], o, i);
    }
  }

  lemma AddKeepsOffer(ss: seq<Session?>, s: Session, o: Key)
    requires NonNull(ss)
    requires o != s.key || (o !in KeysOf(ss) && s.state != Interrupted)
    ensures OfferIn(ss + [s], o) == OfferIn(ss, o)
  {
    assert KeysOf(ss + [s]) == KeysOf(ss) + [s.key];
    MatchAfterAdd(KeysOf(ss), s.key, o);
    MatchInRange(KeysOf(ss), o);
  }

  lemma AddKeepsOffers(ss: seq<Session?>, s: Session)
    requires NonNull(ss) && s.key !in KeysOf(ss) && s.state != Interrupted
    ensures KeysOf(ss + [s]) == KeysOf(ss) + [s.key] && FirstMatch(KeysOf(ss + [s]), s.key) == |ss|
    ensures forall o :: OfferIn(ss + [s], o) == OfferIn(ss, o)
    ensures forall o :: o != s.key ==> (o in KeysOf(ss + [s]) <==> o in KeysOf(ss))
  {
    assert KeysOf(ss + [s]) == KeysOf(ss) + [s.key];
    MatchInRange(KeysOf(ss), s.key);
    MatchAfterAdd(KeysOf(ss), s.key, s.key);
    forall o ensures OfferIn(ss + [s], o) == OfferIn(ss, o) { AddKeepsOffer(ss, s, o); }
  }

  lemma RemovalShifts(ss: seq<Session?>, k: Key, o: Key)
    requires NonNull(ss) && k in KeysOf(ss) && o in KeysOf(ss) && o != k
    ensures var rest := RemoveAt(ss, FirstMatch(KeysOf(ss), k));
            var i := FirstMatch(RemoveFirst(KeysOf(ss), k), o);
            i < |rest| && rest[i] == ss[FirstMatch(KeysOf(ss), o)]
  {
    hide KeysOf, FirstMatch;
    var keys := KeysOf(ss);
    MatchInRange(keys, k);
    MatchInRange(keys, o);
    RemovalKeepsOthers(keys, k, o);
  }

  lemma RemovalKeepsOffer(ss: seq<Session?>, k: Key, o: Key)
    requires NonNull(ss) && k in KeysOf(ss) && o != k
    ensures var rest := RemoveAt(ss, FirstMatch(KeysOf(ss), k));
            NonNull(rest) && OfferIn(rest, o) == OfferIn(ss, o) && (o in KeysOf(rest) <==> o in KeysOf(ss))
  {
    var keys := KeysOf(ss);
    MatchInRange(keys, k);
    KeysOfRemoveAt(ss, FirstMatch(keys, k));
    MatchInRange(keys, o);
    MatchInRange(RemoveFirst(keys, k), o);
    if o in keys {
      RemovalShifts(ss, k, o);
    } else {
      assert o !in RemoveFirst(keys, k);
    }
  }

  lemma RemovalKeepsOffers(ss: seq<Session?>, k: Key)
    requires NonNull(ss) && k in KeysOf(ss)
    ensures FirstMatch(KeysOf(ss), k) < |ss|
    ensures var rest := RemoveAt(ss, FirstMatch(KeysOf(ss), k));
            NonNull(rest) && (forall s :: s in rest ==> s in ss)
            && forall o :: o != k ==> OfferIn(rest, o) == OfferIn(ss, o) && (o in KeysOf(rest) <==> o in KeysOf(ss))
  {
    MatchInRange(KeysOf(ss), k);
    var rest := RemoveAt(ss, FirstMatch(KeysOf(ss), k));
    forall o | o != k
      ensures NonNull(rest) && OfferIn(rest, o) == OfferIn(ss, o) && (o in KeysOf(rest) <==> o in KeysOf(ss))
    {
      RemovalKeepsOffer(ss, k, o);
    }
    assert NonNull(rest) by { KeysOfRemoveAt(ss, FirstMatch(KeysOf(ss), k)); }
  }

  lemma NoOfferWithoutKey(u: User, k: Key)
    requires u.Valid() && k !in Keys(u)
    ensures Offer(u, k) == 0
  {
    MatchInRange(Keys(u), k);
  }

  lemma MatchHasKey(ss: seq<Session?>, o: Key)
    requires NonNull(ss)
    ensures var i := FirstMatch(KeysOf(ss), o); i < |ss| ==> ss[i] in ss && ss[i].key == o
  {
  }

  /** A new session for a key that has none; a full table does not take it. */
  method StartSession(user: User, k: Key) returns (session: Session)
    requires user.Valid() && k !in Keys(user)
    modifies user, user.sessions
    ensures user.Valid() && user.State() == RunOp(old(user.State()), CAPACITY, LookupOrAdd(k))
    ensures OthersKept(user, k) && KeptOrNew(user) && Offer(user, k) == 0
    ensures session.key == k && fresh(session)
    ensures k in Keys(user) ==> user.Contents()[FirstMatch(Keys(user), k)] == session
  {
    hide OfferIn, KeysOf;
    session := new Session(k);
    NoOfferWithoutKey(user, k);
    MatchInRange(Keys(user), k);
    AddKeepsOffers(user.Contents(), session);
    var added := user.AddSession(session);
  }

  lemma LookupKeepsTable(t: SessionTable, k: Key)
    ensures k in t.keys ==> RunOp(t, CAPACITY, LookupOrAdd(k)) == t
  {
  }

  /** Look the upload up, or start a session for it. */
  method OpenSession(user: User, k: Key) returns (session: Session, seqNo: nat)
    requires user.Valid()
    modifies user, user.sessions
    ensures user.Valid() && user.State() == RunOp(old(user.State()), CAPACITY, LookupOrAdd(k))
    ensures OthersKept(user, k) && KeptOrNew(user) && seqNo == Offer(user, k) == old(Offer(user, k))
    ensures session.key == k && (session in old(user.Contents()) || fresh(session))
    ensures k in Keys(user) ==> user.Contents()[FirstMatch(Keys(user), k)] == session
  {
    hide KeysOf, RunOp;
    var found := user.GetSession(k);
    MatchInRange(Keys(user), k);
    LookupKeepsTable(user.State(), k);
    if found != null {
      return found, if found.state == Interrupted then found.lastChunk else 0;
    }
    session := StartSession(user, k);
    return session, 0;
  }

  method SetSession(user: User, session: Session, state: SessionState, last: nat)
    requires user.Valid()
    modifies session
    ensures user.Valid() && user.Contents() == old(user.Contents()) && OthersKept(user, session.key)
    ensures session.state == state && session.lastChunk == last
  {
    session.state, session.lastChunk := state, last;
    forall o | o != session.key ensures Offer(user, o) == old(Offer(user, o)) { MatchHasKey(user.Contents(), o); }
  }

  method DropSession(user: User, k: Key)
    requires user.Valid()
    modifies user, user.sessions
    ensures user.Valid() && OthersKept(user, k) && KeptOrNew(user)
    ensures user.State() == RunOp(old(user.State()), CAPACITY, Remove(k))
  {
    hide OfferIn, KeysOf, RunOp;
    ghost var was := user.Contents();
    if k in KeysOf(was) { RemovalKeepsOffers(was, k); }
    var removed := user.RemoveSession(k);
  }

  /** After file_recv: an error leaves the session interrupted at the chunk reached; unless the
      connection was lost, the upload counts as finished and its session is dropped. */
  method CloseSession(user: User, session: Session, k: Key, stats: Stats) returns (finished: bool)
    requires user.Valid() && session.key == k
    requires k in Keys(user) ==> user.Contents()[FirstMatch(Keys(user), k)] == session
    modifies user, user.sessions, session
    ensures user.Valid() && OthersKept(user, k) && KeptOrNew(user)
    ensures finished <==> stats.code != -1 && stats.code != -2
    ensures user.State() == if finished then RunOp(old(user.State()), CAPACITY, Remove(k)) else old(user.State())
    ensures !finished ==> Offer(user, k) == if k in Keys(user) then stats.last else 0
  {
    if stats.code < 0 { SetSession(user, session, Interrupted, stats.last); }
    MatchInRange(Keys(user), k);
    if stats.code == -1 || stats.code == -2 { return false; }
    DropSession(user, k);
    return true;
  }

  datatype Wire = Wire(chunks: seq<Chunk>, room: nat, loss: int, replied: seq<Reply>)

  ghost function WireOf(end: ReceiverEnd): Wire
    reads end
  {
    Wire(end.chunks, end.room, end.loss, end.replied)
  }

  /** What file_recv makes of a destination and one end of a connection. */
  ghost function Run(digest: seq<byte> -> Checksum, count: nat, file: seq<byte>, w: Wire): Receiver {
    RecvLoop(digest, count, StartReceiver(file), w.chunks, w.room, w.loss, w.replied).rcv
  }

  /** What the receiving loop makes of a file's bytes and the chunks that come. */
  ghost predicate Receives(digest: seq<byte> -> Checksum, count: nat, was: seq<byte>, wire: Wire, now: seq<byte>,
                           stats: Stats)
  {
    var r := Run(digest, count, was, wire);
    r.phase.Received? && now == r.file && stats == Stats(r.seqNo, r.phase.code)
  }

  method Receive(end: ReceiverEnd, digest: seq<byte> -> Checksum, dest: DestFile?, count: nat) returns (stats: Stats)
    requires dest != null ==> dest.off == 0
    modifies end, dest
    ensures dest == null ==> stats == Stats(0, -1)
    ensures dest != null ==> Receives(digest, count, old(dest.bytes), old(WireOf(end)), dest.bytes, stats)
  {
    stats := FileRecv(end, digest, dest, count);
  }

  /** The transfer itself, with its session running. */
  method RunSession(user: User, session: Session, k: Key, count: nat, dest: DestFile?, end: ReceiverEnd,
                    digest: seq<byte> -> Checksum) returns (stats: Stats, finished: bool)
    requires user.Valid() && session.key == k && (dest != null ==> dest.off == 0)
    requires k in Keys(user) ==> user.Contents()[FirstMatch(Keys(user), k)] == session
    modifies user, user.sessions, session, dest, end
    ensures user.Valid() && finished == !IsLoss(stats.code) && OthersKept(user, k) && KeptOrNew(user)
    ensures user.State() == if finished then RunOp(old(user.State()), CAPACITY, Remove(k)) else old(user.State())
    ensures !finished ==> Offer(user, k) == if k in Keys(user) then stats.last else 0
    ensures dest == null ==> stats == Stats(0, -1)
    ensures dest != null ==> Receives(digest, count, old(dest.bytes), old(WireOf(end)), dest.bytes, stats)
  {
    hide OfferIn, KeysOf, RunOp, Receives, FirstMatch;
    SetSession(user, session, Running, session.lastChunk);
    stats := Receive(end, digest, dest, count);
    finished := CloseSession(user, session, k, stats);
  }

  /** The session table after an upload: looked up or added unless refused, removed when finished. */
  function AfterUpload(t: SessionTable, k: Key, out: UploadOutcome): SessionTable {
    if out.NoSpace? then t
    else
      var mid := RunOp(t, CAPACITY, LookupOrAdd(k));
      if out.Finished? then RunOp(mid, CAPACITY, Remove(k)) else mid
  }

  /** An upload leaves the array of sessions exactly when it finishes while its own session is one of
      ten: it resumed one of ten, or took the tenth slot itself. */
  lemma UploadOverrunsIff(t: SessionTable, k: Key, out: UploadOutcome)
    requires |t.keys| <= CAPACITY && !t.overran
    ensures AfterUpload(t, k, out).overran
            <==> out.Finished? && |t.keys| == if k in t.keys then CAPACITY else CAPACITY - 1
  {
    if k !in t.keys && |t.keys| < CAPACITY { assert k in t.keys + [k]; }
  }

  lemma UploadKeepsUnique(t: SessionTable, k: Key, out: UploadOutcome)
    requires Unique(t.keys)
    ensures Unique(AfterUpload(t, k, out).keys)
    ensures out.Finished? ==> k !in AfterUpload(t, k, out).keys
  {
    RemoveFirstEffect(RunOp(t, CAPACITY, LookupOrAdd(k)).keys, k);
  }

  /** A user's table and all numbers it offers, as one value. */
  datatype Account = Account(table: SessionTable, offers: imap<Key, nat>)

  ghost function AccountOf(u: User): (a: Account)
    reads u, u.sessions, if u.Valid() then u.Objects() else {}
    requires u.Valid()
    ensures forall k :: k in a.offers && a.offers[k] == Offer(u, k)
  {
    Account(u.State(), imap k: Key | true :: Offer(u, k))
  }

  /** The account of a user who has just registered: no session, and no number to offer. */
  ghost predicate IsNew(a: Account) {
    a.table == SessionTable([], false) && forall k :: k in a.offers && a.offers[k] == 0
  }

  lemma NothingOffered(u: User)
    requires u.Valid() && u.Contents() == [] && !u.overran
    ensures IsNew(AccountOf(u))
  {
    assert u.State() == SessionTable([], false);
  }

  predicate Ran(out: UploadOutcome) { out.Finished? || out.Suspended? }

  /** The number offered afterwards: the one reached if the connection was lost and the session found
      room, none if the upload finished, the same as before if it did not run. */
  predicate OffersAfter(was: SessionTable, k: Key, before: nat, out: UploadOutcome, after: nat) {
    match out
    case Suspended(_, stats) => after == if k in AfterUpload(was, k, out).keys then stats.last else 0
    case Finished(_, _) => Unique(was.keys) ==> after == 0
    case _ => after == before
  }

  /** The handler's outcome, and the account and bytes it leaves, for a directory that is there or not
      and a destination that could be opened or not. No other file's number changes. */
  ghost predicate Uploaded(digest: seq<byte> -> Checksum, info: FileInfo, k: Key, dirOk: bool, open: bool, wire: Wire,
                           was: Account, before: seq<byte>, out: UploadOutcome, now: Account, after: seq<byte>)
  {
    && (out.NoSpace? <==> info.size > MAX_USER_SPACE)
    && k in was.offers && k in now.offers
    && (!out.NoSpace? ==> out.offered == was.offers[k] && (out.NoDirectory? <==> !dirOk))
    && (Ran(out) ==> (out.Suspended? <==> out.stats.code == -1 || out.stats.code == -2))
    && (Ran(out) && !open ==> out.stats == Stats(0, -1))
    && now.table == AfterUpload(was.table, k, out)
    && now.offers == was.offers[k := now.offers[k]] && OffersAfter(was.table, k, was.offers[k], out, now.offers[k])
    && (if Ran(out) && open then Receives(digest, info.chunkCount, before, wire, after, out.stats) else after == before)
  }

  lemma NotRunKeepsBytes(digest: seq<byte> -> Checksum, info: FileInfo, k: Key, dirOk: bool, open: bool, wire: Wire,
                         was: Account, before: seq<byte>, out: UploadOutcome, now: Account, after: seq<byte>)
    requires Uploaded(digest, info, k, dirOk, open, wire, was, before, out, now, after) && !(open && Ran(out))
    ensures after == before
  {
  }

  lemma TransferIsUploaded(digest: seq<byte> -> Checksum, info: FileInfo, k: Key, open: bool, wire: Wire, was: Account,
                           before: seq<byte>, stats: Stats, finished: bool, now: Account, after: seq<byte>)
    requires info.size <= MAX_USER_SPACE && finished == !IsLoss(stats.code)
    requires var mid := RunOp(was.table, CAPACITY, LookupOrAdd(k));
             now.table == if finished then RunOp(mid, CAPACITY, Remove(k)) else mid
    requires k in was.offers && k in now.offers && now.offers == was.offers[k := now.offers[k]]
    requires !finished ==> now.offers[k] == if k in now.table.keys then stats.last else 0
    requires finished && k !in now.table.keys ==> now.offers[k] == 0
    requires if open then Receives(digest, info.chunkCount, before, wire, after, stats)
             else after == before && stats == Stats(0, -1)
    ensures var out := if finished then Finished(was.offers[k], stats) else Suspended(was.offers[k], stats);
            Uploaded(digest, info, k, true, open, wire, was, before, out, now, after)
  {
    var out := if finished then Finished(was.offers[k], stats) else Suspended(was.offers[k], stats);
    if Unique(was.table.keys) { UploadKeepsUnique(was.table, k, out); }
  }

  lemma OffersUpdated(was: imap<Key, nat>, now: imap<Key, nat>, k: Key)
    requires forall o :: o in was && o in now && (o != k ==> now[o] == was[o])
    ensures now == was[k := now[k]]
  {
  }

  function BytesIn(dest: DestFile?): seq<byte>
    reads dest
  {
    if dest == null then [] else dest.bytes
  }

  /** handle_upload for a known user, on its directory `root`. `dirOk` tells that the directory is
      there; `dest` is the opened destination, or null. */
  method UploadTo(user: User, root: string, info: FileInfo, dirOk: bool, dest: DestFile?,
                  end: ReceiverEnd, digest: seq<byte> -> Checksum) returns (out: UploadOutcome)
    requires user.Valid() && (dest != null ==> dest.off == 0)
    modifies user, user.sessions, user.Objects(), dest, end
    ensures user.Valid() && KeptOrNew(user)
    ensures Uploaded(digest, info, UploadKey(root, info), dirOk, dest != null, old(WireOf(end)),
                     old(AccountOf(user)), old(BytesIn(dest)), out, AccountOf(user), BytesIn(dest))
    ensures !Ran(out) ==> WireOf(end) == old(WireOf(end))
  {
    hide UploadKey, Run, OfferIn, KeysOf, RunOp;
    ghost var was, before := AccountOf(user), BytesIn(dest);
    var k := UploadKey(root, info);
    if info.size > MAX_USER_SPACE {
      OffersUpdated(was.offers, AccountOf(user).offers, k);
      return NoSpace;
    }
    var session, seqNo := OpenSession(user, k);
    if !dirOk {
      OffersUpdated(was.offers, AccountOf(user).offers, k);
      return NoDirectory(seqNo);
    }
    var stats, finished := RunSession(user, session, k, info.chunkCount, dest, end, digest);
    if k !in Keys(user) { NoOfferWithoutKey(user, k); }
    OffersUpdated(was.offers, AccountOf(user).offers, k);
    TransferIsUploaded(digest, info, k, dest != null, old(WireOf(end)), was, before, stats, finished,
                       AccountOf(user), BytesIn(dest));
    return if finished then Finished(seqNo, stats) else Suspended(seqNo, stats);
  }

  lemma NotOpenKeepsBytes(digest: seq<byte> -> Checksum, info: FileInfo, k: Key, dirOk: bool, wire: Wire,
                          was: Account, bytes: seq<byte>, out: UploadOutcome, now: Account)
    requires Uploaded(digest, info, k, dirOk, false, wire, was, [], out, now, [])
    ensures Uploaded(digest, info, k, dirOk, false, wire, was, bytes, out, now, bytes)
  {
  }

  /** The same on bytes: with a destination that holds them, or none. */
  method UploadBytes(user: User, root: string, info: FileInfo, dirOk: bool, open: bool, bytes: seq<byte>, wire: Wire,
                     digest: seq<byte> -> Checksum) returns (out: UploadOutcome, now: seq<byte>)
    requires user.Valid()
    modifies user, user.sessions, user.Objects()
    ensures user.Valid() && KeptOrNew(user)
    ensures Uploaded(digest, info, UploadKey(root, info), dirOk, open, wire,
                     old(AccountOf(user)), bytes, out, AccountOf(user), now)
  {
    hide UploadKey, AfterUpload, Receives, OfferIn, KeysOf;
    var end := new ReceiverEnd(wire.chunks, wire.room, wire.loss, wire.replied);
    assert WireOf(end) == wire;
    now := bytes;
    if open {
      var dest := new DestFile(bytes);
      out := UploadTo(user, root, info, dirOk, dest, end, digest);
      now := dest.bytes;
    } else {
      out := UploadTo(user, root, info, dirOk, null, end, digest);
      NotOpenKeepsBytes(digest, info, UploadKey(root, info), dirOk, wire, old(AccountOf(user)), bytes, out,
                        AccountOf(user));
    }
  }
}

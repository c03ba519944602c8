/** All registered users with their session tables, and an upload for one of them. */
module Accounts {
  import opened Common
  import opened Chunks
  import opened Sessions
  import opened Uploads

  class People {
    var users: seq<User>             // by identity
    ghost var view: seq<Account>     // their accounts, as values
    ghost var Repr: set<object>      // the users, their tables and all sessions in them

    ghost predicate Owns(u: User)
      reads this, Repr
    {
      u in Repr && u.sessions in Repr && u.Valid() && u.Objects() <= Repr
    }

    ghost predicate Apart(u: User, v: User)
      reads u, u.sessions, v, v.sessions
    {
      u != v && u.sessions != v.sessions && (u.Valid() && v.Valid() ==> u.Objects() !! v.Objects())
    }

    /** Users do not share their tables, nor any session in them. */
    ghost predicate Valid()
      reads this, Repr
    {
      && this in Repr && |view| == |users| && (forall i :: 0 <= i < |users| ==> Owns(users[i]))
      && (forall i :: 0 <= i < |users| ==> view[i] == AccountOf(users[i]))
      && (forall i, j :: 0 <= i < j < |users| ==> Apart(users[i], users[j]))
    }

    constructor ()
      ensures Valid() && fresh(Repr) && users == []
    {
      users, view, Repr := [], [], {this};
    }

    /** A user apart from all others joins them. */
    method Enroll(user: User)
      requires Valid() && user.Valid() && {user, user.sessions} !! Repr && user.Objects() == {}
      modifies this
      ensures Valid() && Repr == old(Repr) + {user, user.sessions} && users == old(users) + [user]
      ensures view == old(view) + [AccountOf(user)]
    {
      hide AccountOf, OfferIn;
      users, view, Repr := users + [user], view + [AccountOf(user)], Repr + {user, user.sessions};
      forall i | 0 <= i < |users| ensures Owns(users[i]) {
        if i < |old(users)| { assert old(Owns(users[i])); }
      }
      forall i, j | 0 <= i < j < |users| ensures Apart(users[i], users[j]) {
        if j < |old(users)| { assert old(Apart(users[i], users[j])); } else { assert old(Owns(users[i])); }
      }
    }

    /** A registration brings a user with nothing in the table. */
    method Add()
      requires Valid()
      modifies this
      ensures Valid() && fresh(Repr - old(Repr))
      ensures |users| == |old(users)| + 1 && view == old(view) + [Last(view)] && IsNew(Last(view))
    {
      hide AccountOf, IsNew, Valid;
      var user := new User();
      NothingOffered(user);
      Enroll(user);
    }

    /** What an upload has changed is taken down. */
    ghost method TakeDown(id: nat)
      requires this in Repr && id < |users| == |view|
      requires users[id].Valid() && users[id] in Repr && users[id].sessions in Repr
      requires forall i :: 0 <= i < |users| && i != id ==> Owns(users[i]) && view[i] == AccountOf(users[i])
      requires forall i, j :: 0 <= i < j < |users| ==> Apart(users[i], users[j])
      modifies this
      ensures Valid() && Repr == old(Repr) + users[id].Objects() && users == old(users)
      ensures view == old(view)[id := AccountOf(users[id])]
    {
      hide AccountOf;
      Repr, view := Repr + users[id].Objects(), view[id := AccountOf(users[id])];
      forall i | 0 <= i < |users| && i != id ensures Owns(users[i]) { assert old(Owns(users[i])); }
    }

    /** An upload by one user, as Uploads.Uploaded describes it; nobody else's account changes. */
    method UploadAs(id: nat, root: string, info: FileInfo, dirOk: bool, open: bool, bytes: seq<byte>, wire: Wire,
                    digest: seq<byte> -> Checksum) returns (out: UploadOutcome, now: seq<byte>)
      requires Valid() && id < |users|
      modifies Repr
      ensures Valid() && fresh(Repr - old(Repr)) && |users| == |view| == |old(view)|
      ensures view == old(view)[id := view[id]]
      ensures Uploaded(digest, info, UploadKey(root, info), dirOk, open, wire, old(view)[id], bytes, out, view[id], now)
    {
      hide UploadKey, Uploaded, OfferIn, KeysOf, User.State, AccountOf;
      var user := users[id];
      assert Owns(user);
      out, now := UploadBytes(user, root, info, dirOk, open, bytes, wire, digest);
      forall i | 0 <= i < |users| && i != id
        ensures Owns(users[i]) && users[i].Objects() == old(users[i].Objects()) && users[i].Objects() !! user.Objects()
        ensures AccountOf(users[i]) == old(AccountOf(users[i]))
      {
        assert old(Owns(users[i]));
        assert if i < id then old(Apart(users[i], user)) else old(Apart(user, users[i]));
      }
      forall i, j | 0 <= i < j < |users| ensures Apart(users[i], users[j]) { assert old(Apart(users[i], users[j])); }
      TakeDown(id);
    }
  }
}

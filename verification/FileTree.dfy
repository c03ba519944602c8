/** The file system as a tree whose operations may fail, and recursive removal on it. */
module FileTree {
  import opened Common
  import opened PathLaws
  import opened Paths

  type Path = seq<string>

  datatype Node = Dir | File(bytes: seq<byte>)

  type Nodes = map<Path, Node>

  /** The root is there, every other node has a directory above it, and names are plain. */
  ghost predicate IsTree(t: Nodes) {
    [] in t && t[[]].Dir?
    && forall p :: p in t && p != [] ==> IsPlain(Last(p)) && Init(p) in t && t[Init(p)].Dir?
  }

  lemma {:induction false} PrefixesExist(t: Nodes, top: Path, p: Path)
    requires IsTree(t) && p in t && top <= p
    ensures top in t && (top != p ==> t[top].Dir?)
    decreases |p|
  {
    if top == p {
    } else {
      assert top <= Init(p);
      PrefixesExist(t, top, Init(p));
    }
  }

  /** The path is free and its parent is a directory. */
  predicate CanMake(t: Nodes, p: Path) {
    p != [] && p !in t && Init(p) in t && t[Init(p)].Dir?
  }

  ghost predicate IsEmptyDir(t: Nodes, p: Path) {
    p in t && t[p].Dir? && forall q :: q in t && p <= q ==> q == p
  }

  /** A file can be opened there: one that exists, or a new one in a directory. */
  predicate IsFree(t: Nodes, p: Path) { CanMake(t, p) || (p in t && t[p].File?) }

  /** The last parts of all paths right below p. */
  function NamesIn(t: Nodes, p: Path): set<string> {
    set q | q in t && q != [] && Init(q) == p :: Last(q)
  }

  lemma NamesAreChildren(t: Nodes, p: Path)
    ensures forall n :: n in NamesIn(t, p) <==> p + [n] in t
  {
    forall n ensures n in NamesIn(t, p) <==> p + [n] in t {
      if p + [n] in t { assert Init(p + [n]) == p && Last(p + [n]) == n; }
      if n in NamesIn(t, p) {
        var q :| q in t && q != [] && Init(q) == p && Last(q) == n;
        assert q == p + [n];
      }
    }
  }

  /** What a call leaves in the record of failures: nothing, or that the call for p failed. */
  predicate Recorded(was: seq<Path>, now: seq<Path>, p: Path) { now == was || now == was + [p] }

  /** Any call may fail for reasons outside the tree; which did is recorded. */
  class Disk {
    var nodes: Nodes
    ghost var failed: seq<Path>

    method Fails(p: Path) returns (fails: bool)
      modifies `failed
      ensures failed == if fails then old(failed) + [p] else old(failed)
    {
      fails := *;
      if fails { failed := failed + [p]; }
    }

    /** lstat: 0 and what is there, or -1. */
    method Lstat(path: string) returns (r: int, isDir: bool)
      modifies `failed
      ensures (r == 0 || r == -1) && Recorded(old(failed), failed, ResolvePath(path))
      ensures r == 0 <==> ResolvePath(path) in nodes && failed == old(failed)
      ensures r == 0 ==> isDir == nodes[ResolvePath(path)].Dir?
    {
      var p := ResolvePath(path);
      if p !in nodes { return -1, false; }
      var fails := Fails(p);
      if fails { return -1, false; }
      return 0, nodes[p].Dir?;
    }

    method Unlink(path: string) returns (r: int)
      modifies this
      ensures (r == 0 || r == -1) && Recorded(old(failed), failed, ResolvePath(path))
      ensures r == 0 <==>
                ResolvePath(path) in old(nodes) && old(nodes)[ResolvePath(path)].File? && failed == old(failed)
      ensures nodes == if r == 0 then old(nodes) - {ResolvePath(path)} else old(nodes)
    {
      var p := ResolvePath(path);
      if p !in nodes || nodes[p].Dir? { return -1; }
      var fails := Fails(p);
      if fails { return -1; }
      nodes := nodes - {p};
      return 0;
    }

    /** rmdir removes only empty directories. */
    method Rmdir(path: string) returns (r: int)
      modifies this
      ensures (r == 0 || r == -1) && Recorded(old(failed), failed, ResolvePath(path))
      ensures r == 0 <==> ResolvePath(path) != [] && IsEmptyDir(old(nodes), ResolvePath(path)) && failed == old(failed)
      ensures nodes == if r == 0 then old(nodes) - {ResolvePath(path)} else old(nodes)
    {
      var p := ResolvePath(path);
      if p == [] || p !in nodes || nodes[p].File? { return -1; }
      if exists q :: q in nodes && p <= q && q != p { return -1; }
      var fails := Fails(p);
      if fails { return -1; }
      nodes := nodes - {p};
      return 0;
    }

    /** mkdir: 0, or -1 with `exists` telling whether errno is EEXIST. */
    method Mkdir(path: string) returns (r: int, taken: bool)
      requires IsTree(nodes)
      modifies this
      ensures IsTree(nodes) && (r == 0 || r == -1) && Recorded(old(failed), failed, ResolvePath(path))
      ensures r == 0 <==> CanMake(old(nodes), ResolvePath(path)) && failed == old(failed)
      ensures nodes == if r == 0 then old(nodes)[ResolvePath(path) := Dir] else old(nodes)
      ensures (taken <==> ResolvePath(path) in old(nodes)) && (taken ==> failed == old(failed))
    {
      var p := ResolvePath(path);
      ResolvedIsPlain(path);
      taken := p in nodes;
      if taken || Init(p) !in nodes || nodes[Init(p)].File? { return -1, taken; }
      var fails := Fails(p);
      if fails { return -1, false; }
      assert IsPlain(Last(p));
      nodes := nodes[p := Dir];
      return 0, false;
    }

    /** open(path, O_WRONLY | O_CREAT): an existing file, or a new empty one in a directory. */
    method OpenForWrite(path: string) returns (ok: bool)
      requires IsTree(nodes)
      modifies this
      ensures IsTree(nodes) && Recorded(old(failed), failed, ResolvePath(path))
      ensures ok <==> IsFree(old(nodes), ResolvePath(path)) && failed == old(failed)
      ensures nodes == if ok && ResolvePath(path) !in old(nodes) then old(nodes)[ResolvePath(path) := File([])]
                       else old(nodes)
    {
      var p := ResolvePath(path);
      ResolvedIsPlain(path);
      if p in nodes && nodes[p].Dir? { return false; }
      if p !in nodes && (p == [] || Init(p) !in nodes || nodes[Init(p)].File?) { return false; }
      var fails := Fails(p);
      if fails { return false; }
      if p !in nodes {
        assert IsPlain(Last(p));
        nodes := nodes[p := File([])];
      }
      return true;
    }

    /** The bytes of an open file after a transfer into it. */
    method Fill(path: string, bytes: seq<byte>)
      requires IsTree(nodes) && ResolvePath(path) in nodes && nodes[ResolvePath(path)].File?
      modifies `nodes
      ensures IsTree(nodes) && nodes == old(nodes)[ResolvePath(path) := File(bytes)]
    {
      nodes := nodes[ResolvePath(path) := File(bytes)];
    }

    /** opendir and the entries readdir yields, or failure. */
    method List(path: string) returns (ok: bool, names: set<string>)
      requires IsTree(nodes) && ResolvePath(path) in nodes
      modifies `failed
      ensures Recorded(old(failed), failed, ResolvePath(path)) && (ok <==> failed == old(failed))
      ensures ok ==> forall n :: n in names <==> ResolvePath(path) + [n] in nodes
    {
      var p := ResolvePath(path);
      var fails := Fails(p);
      if fails { return false, {}; }
      NamesAreChildren(nodes, p);
      return true, NamesIn(nodes, p);
    }
  }

  function Subtree(t: Nodes, top: Path): set<Path> { set p | p in t && top <= p }

  lemma RemovalKeepsTree(t: Nodes, p: Path)
    requires IsTree(t) && p != [] && (forall q :: q in t && p <= q ==> q == p)
    ensures IsTree(t - {p})
  {
    forall q | q in t && q != p && q != [] ensures Init(q) != p {
      assert Init(q) <= q;
    }
  }

  /** The state of a removal below `top`: still a tree, nothing new, nothing changed elsewhere. */
  ghost predicate Shrunk(was: Nodes, now: Nodes, top: Path) {
    IsTree(now) && (forall p :: p in now ==> p in was && now[p] == was[p])
    && forall p :: p in was && !(top <= p) ==> p in now
  }

  lemma ChildShrinks(was: Nodes, mid: Nodes, now: Nodes, top: Path, name: string)
    requires top in was && Shrunk(was, mid, top)
    ensures Subtree(mid, top + [name]) < Subtree(was, top)
    ensures Shrunk(mid, now, top + [name]) ==> Shrunk(was, now, top) && (top in mid ==> top in now)
  {
    assert !(top + [name] <= top);
    assert forall p :: p in was && top + [name] <= p ==> top <= p;
    assert top in Subtree(was, top) && top !in Subtree(mid, top + [name]);
  }

  lemma LeafOnly(t: Nodes, top: Path)
    requires IsTree(t) && top in t && t[top].File?
    ensures top != [] && forall q :: q in t && top <= q ==> q == top
  {
    forall q | q in t && top <= q ensures q == top {
      PrefixesExist(t, top, q);
    }
  }

  /** Removing an empty directory or a file that is the last of its subtree. */
  lemma LastRemoved(was: Nodes, mid: Nodes, top: Path)
    requires Shrunk(was, mid, top) && top != [] && (forall q :: q in mid && top <= q ==> q == top)
    ensures Shrunk(was, mid - {top}, top) && forall p :: top <= p ==> p !in mid - {top}
  {
    RemovalKeepsTree(mid, top);
  }

  /** A call for this path, one above it or one below it has failed since the record had n entries. */
  ghost predicate Blamed(failed: seq<Path>, n: nat, q: Path) {
    exists i :: n <= i < |failed| && (failed[i] <= q || q <= failed[i])
  }

  lemma BlamedStays(was: seq<Path>, now: seq<Path>, n: nat, m: nat, q: Path)
    requires m <= n && was <= now && Blamed(was, n, q)
    ensures Blamed(now, m, q)
  {
    var i :| n <= i < |was| && (was[i] <= q || q <= was[i]);
    assert now[i] == was[i];
  }

  lemma BlamedAbove(failed: seq<Path>, n: nat, top: Path, q: Path)
    requires Blamed(failed, n, q) && top <= q
    ensures Blamed(failed, n, top)
  {
    var i :| n <= i < |failed| && (failed[i] <= q || q <= failed[i]);
    assert failed[i] <= top || top <= failed[i];
  }

  lemma StandsInTheWay(t: Nodes, failed: seq<Path>, n: nat, top: Path, q: Path)
    requires IsTree(t) && q in t && top <= q && (top !in t || (n < |failed| && failed[n] == top))
    ensures Blamed(failed, n, q)
  {
    PrefixesExist(t, top, q);
    assert failed[n] == top;
  }

  lemma AllInTheWay(t: Nodes, failed: seq<Path>, n: nat, top: Path)
    requires IsTree(t) && (top !in t || (n < |failed| && failed[n] == top))
    ensures forall q :: q in t && top <= q ==> Blamed(failed, n, q)
  {
    forall q | q in t && top <= q ensures Blamed(failed, n, q) { StandsInTheWay(t, failed, n, top, q); }
  }

  lemma NothingShrunk(t: Nodes, top: Path)
    requires IsTree(t)
    ensures Shrunk(t, t, top)
  {
  }

  /** What is left below `top` is blamed, except below the children still named. */
  ghost predicate LeftIsBlamed(t: Nodes, failed: seq<Path>, n: nat, top: Path, names: set<string>) {
    forall q :: q in t && top < q ==> q[|top|] in names || Blamed(failed, n, q)
  }

  lemma NoneTreated(t: Nodes, failed: seq<Path>, n: nat, top: Path, names: set<string>)
    requires IsTree(t) && forall m :: m in names <==> top + [m] in t
    ensures LeftIsBlamed(t, failed, n, top, names) && forall m :: m in names ==> IsPlain(m)
  {
    forall m | m in names ensures IsPlain(m) { assert Last(top + [m]) == m; }
    forall q | q in t && top < q ensures q[|top|] in names {
      assert top + [q[|top|]] <= q;
      PrefixesExist(t, top + [q[|top|]], q);
    }
  }

  /** A child has been treated: what is left of it is blamed. */
  lemma ChildTreated(mid: Nodes, now: Nodes, was: seq<Path>, failed: seq<Path>, n: nat, top: Path, name: string,
                     names: set<string>)
    requires LeftIsBlamed(mid, was, n, top, names) && n <= |was| && was <= failed && name in names
    requires forall p :: p in now ==> p in mid
    requires forall q :: q in now && top + [name] <= q ==> Blamed(failed, |was|, q)
    ensures LeftIsBlamed(now, failed, n, top, names - {name})
  {
    forall q | q in now && top < q && q[|top|] !in names - {name} ensures Blamed(failed, n, q) {
      if q[|top|] == name {
        assert top + [name] <= q;
        BlamedStays(failed, failed, |was|, n, q);
      } else {
        BlamedStays(was, failed, n, n, q);
      }
    }
  }

  lemma AllTreated(t: Nodes, failed: seq<Path>, n: nat, top: Path)
    requires IsTree(t) && top in t && LeftIsBlamed(t, failed, n, top, {}) && !Blamed(failed, n, top)
    ensures t[top].Dir? ==> IsEmptyDir(t, top)
  {
    forall q | q in t && top <= q ensures q == top {
      if q != top { BlamedAbove(failed, n, top, q); }
    }
  }

  /** The rmdir at the end. */
  method RemoveSelf(disk: Disk, path: string, ghost was: Nodes, ghost n: nat) returns (r: int)
    requires IsTree(disk.nodes) && ResolvePath(path) in was && was[ResolvePath(path)].Dir? && n <= |disk.failed|
    requires Shrunk(was, disk.nodes, ResolvePath(path)) && ResolvePath(path) in disk.nodes
    requires LeftIsBlamed(disk.nodes, disk.failed, n, ResolvePath(path), {})
    modifies disk
    ensures Shrunk(was, disk.nodes, ResolvePath(path)) && (r == 0 || r == -1) && old(disk.failed) <= disk.failed
    ensures if r == 0 then forall p :: ResolvePath(path) <= p ==> p !in disk.nodes else ResolvePath(path) in disk.nodes
    ensures forall q :: q in disk.nodes && ResolvePath(path) <= q && q != [] ==> Blamed(disk.failed, n, q)
  {
    ghost var top, mid, before := ResolvePath(path), disk.nodes, disk.failed;
    if !Blamed(before, n, top) { AllTreated(mid, before, n, top); }
    r := disk.Rmdir(path);
    if r == 0 {
      LastRemoved(was, mid, top);
    } else {
      forall q | q in mid && top <= q && q != [] ensures Blamed(disk.failed, n, q) {
        if disk.failed != before {
          assert disk.failed[|before|] == top;
        } else if q == top {
        } else {
          assert top < q;
        }
      }
    }
  }

  /** One turn of the loop over the entries. */
  method RemoveEntry(disk: Disk, path: string, name: string, ghost was: Nodes, ghost n: nat, ghost names: set<string>)
    requires IsTree(disk.nodes) && IsPlain(name) && name in names && n <= |disk.failed|
    requires ResolvePath(path) in was && Shrunk(was, disk.nodes, ResolvePath(path)) && ResolvePath(path) in disk.nodes
    requires LeftIsBlamed(disk.nodes, disk.failed, n, ResolvePath(path), names)
    modifies disk
    ensures Shrunk(was, disk.nodes, ResolvePath(path)) && ResolvePath(path) in disk.nodes && IsTree(disk.nodes)
    ensures old(disk.failed) <= disk.failed
    ensures LeftIsBlamed(disk.nodes, disk.failed, n, ResolvePath(path), names - {name})
    decreases Subtree(disk.nodes, ResolvePath(path) + [name]), 1
  {
    ghost var top, mid, before := ResolvePath(path), disk.nodes, disk.failed;
    NameIsAppended(path, name);
    var child := RmR(disk, path + "/" + name);
    ChildShrinks(was, mid, disk.nodes, top, name);
    ChildTreated(mid, disk.nodes, before, disk.failed, n, top, name, names);
  }

  /** rm_r. Whatever calls fail, it ends, removes nothing outside the named subtree and changes
      nothing. For a path that is there it returns 0 exactly when the whole subtree is gone; what is
      left of it is what a failed call stood in the way of, and the root of the tree. */
  method RmR(disk: Disk, path: string) returns (r: int)
    requires IsTree(disk.nodes)
    modifies disk
    ensures Shrunk(old(disk.nodes), disk.nodes, ResolvePath(path)) && old(disk.failed) <= disk.failed
    ensures r == 0 || r == -1
    ensures r == 0 ==> ResolvePath(path) in old(disk.nodes)
                       && forall p :: ResolvePath(path) <= p ==> p !in disk.nodes
    ensures r != 0 && ResolvePath(path) in old(disk.nodes) ==> ResolvePath(path) in disk.nodes
    ensures forall q :: q in disk.nodes && ResolvePath(path) <= q && q != [] ==>
              Blamed(disk.failed, |old(disk.failed)|, q)
    decreases Subtree(disk.nodes, ResolvePath(path)), 0
  {
    hide ResolvePath, IsTree, Shrunk, Blamed, LeftIsBlamed, IsPlain;
    ghost var top, was, n := ResolvePath(path), disk.nodes, |disk.failed|;
    NothingShrunk(was, top);
    var found, isDir := disk.Lstat(path);
    if found < 0 {
      AllInTheWay(was, disk.failed, n, top);
      return -1;
    }
    if !isDir {
      LeafOnly(was, top);
      LastRemoved(was, was, top);
      r := disk.Unlink(path);
      if r != 0 { AllInTheWay(was, disk.failed, n, top); }
      return;
    }
    var ok, names := disk.List(path);
    if !ok {
      AllInTheWay(was, disk.failed, n, top);
      return -1;
    }
    NoneTreated(was, disk.failed, n, top, names);
    while names != {}
      invariant Shrunk(was, disk.nodes, top) && top in disk.nodes && IsTree(disk.nodes)
      invariant forall n :: n in names ==> IsPlain(n)
      invariant old(disk.failed) <= disk.failed && LeftIsBlamed(disk.nodes, disk.failed, n, top, names)
      decreases names
    {
      var name :| name in names;
      ChildShrinks(was, disk.nodes, disk.nodes, top, name);
      RemoveEntry(disk, path, name, was, n, names);
      names := names - {name};
    }
    r := RemoveSelf(disk, path, was, n);
  }
}

/** path_next_dir, which cuts a path in place at one slash after another, and the creation of all
    directories on a user's path with it. */
module MakeDirs {
  import opened Common
  import opened Paths
  import opened Normalize
  import opened FileTree
  import opened UserPaths

  /** The next cut from `at` on: a slash past the skipped characters, or the end. */
  function Cut(text: string, at: nat, skip: int): (c: nat)
    requires at <= |text|
    ensures at <= c <= |text| && (c < |text| ==> text[c] == '/' && c > skip)
    ensures forall k :: at <= k < c ==> text[k] != '/' || k <= skip
    decreases |text| - at
  {
    if at == |text| || (text[at] == '/' && at > skip) then at else Cut(text, at + 1, skip)
  }

  /** The static variables of path_next_dir: a private copy of the path, its length, and where it
      is cut at the moment (-1: nowhere yet). */
  class PathWalker {
    ghost const text: string
    const path: array<char>
    const len: nat
    var slash: int

    /** The copy is the path except for the terminator at the cut. */
    ghost predicate Valid()
      reads this, path
    {
      len == |text| && '\0' !in text && path.Length == len + 1 && -1 <= slash <= len
      && path[len] == '\0' && (0 <= slash ==> path[slash] == '\0') && (0 <= slash < len ==> text[slash] == '/')
      && forall k :: 0 <= k < len && k != slash ==> path[k] == text[k]
    }

    constructor (text: string)
      requires '\0' !in text
      ensures Valid() && fresh(path) && this.text == text && slash == -1
    {
      this.text := text;
      len, slash := |text|, -1;
      path := new char[|text| + 1](k requires 0 <= k <= |text| => if k < |text| then text[k] else '\0');
      new;
      assert path[len] == '\0';
    }

    /** The scan: to the next slash past the skipped characters, or the terminator. */
    method Scan(at: nat, skip: int) returns (i: nat)
      requires at <= len == |text| && path.Length == len + 1 && path[len] == '\0' && '\0' !in text
      requires forall k :: 0 <= k < len ==> path[k] == text[k]
      ensures i == Cut(text, at, skip)
    {
      i := at;
      assert forall k :: 0 <= k < len ==> text[k] in text;
      while (path[i] != '/' || i <= skip) && path[i] != '\0'
        invariant at <= i <= len && Cut(text, at, skip) == Cut(text, i, skip)
        decreases len - i
      {
        i := i + 1;
      }
    }

    /** A call without a new path: null once the whole path has been returned. A slash cut before
        is put back, and the text up to the next one is returned. */
    method Next(skip: int) returns (more: bool, dir: string)
      requires Valid()
      modifies this, path
      ensures Valid()
      ensures more <==> old(slash) < len
      ensures more ==> slash == Cut(text, old(slash) + 1, skip) && dir == text[..slash]
      ensures !more ==> slash == old(slash) && path[..len] == text
    {
      if slash >= len { return false, ""; }
      if slash >= 0 { path[slash] := '/'; }
      var i := Scan(slash + 1, skip);
      path[i] := '\0';
      slash := i;
      return true, path[..i];
    }
  }

  // ----- the cuts of a normalised path -----

  lemma {:induction false} CutIs(text: string, at: nat, skip: int, c: nat)
    requires at <= c <= |text| && (c < |text| ==> text[c] == '/' && c > skip)
    requires forall k :: at <= k < c ==> text[k] != '/' || k <= skip
    ensures Cut(text, at, skip) == c
    decreases c - at
  {
    if at == c {
    } else {
      CutIs(text, at + 1, skip, c);
    }
  }

  lemma {:induction false} RenderSplit(r: seq<string>, k: nat)
    requires k <= |r|
    ensures Render(r) == Render(r[..k]) + Render(r[k..])
    decreases |r|
  {
    if k == |r| {
      assert r[..k] == r && Render(r[k..]) == "";
    } else {
      RenderSplit(Init(r), k);
      assert Init(r)[..k] == r[..k] && Init(r)[k..] == Init(r[k..]) && Last(r[k..]) == Last(r);
      var a, b, c := Render(r[..k]), Render(Init(r[k..])), Last(r);
      assert Render(r) == a + b + "/" + c && Render(r[k..]) == b + "/" + c;
      assert a + b + "/" + c == a + (b + "/" + c);
    }
  }

  /** Between the slash at lo and the cut at m stands a name; behind the cut is a slash, or nothing. */
  predicate NameBetween(text: string, lo: nat, name: string, m: nat) {
    m == lo + 1 + |name| <= |text| && '/' !in name && text[lo] == '/' && (m < |text| ==> text[m] == '/')
    && forall i :: lo < i < m ==> text[i] == name[i - lo - 1]
  }

  /** The text of the first k components, and what stands right behind it. */
  lemma PrefixText(r: seq<string>, tail: string, k: nat)
    requires AllNames(r) && k < |r| && (tail == "" || tail == "/")
    ensures NameBetween(Render(r) + tail, |Render(r[..k])|, r[k], |Render(r[..k + 1])|)
    ensures (Render(r) + tail)[..|Render(r[..k + 1])|] == Render(r[..k + 1])
  {
    RenderSplit(r, k + 1);
    RenderStarts(r[k + 1..]);
    assert Init(r[..k + 1]) == r[..k] && IsName(r[k]);
    var text, rest := Render(r) + tail, Render(r[k + 1..]) + tail;
    assert text == Render(r[..k + 1]) + rest;
  }

  /** The root's text is a prefix of the path's text: the path starts with the root's components,
      except that the last of them may be longer. */
  predicate StartsAt(root: Path, r: Path)
    requires root != []
  {
    |r| >= |root| && r[..|root| - 1] == Init(root) && Last(root) <= r[|root| - 1]
  }

  /** The scan from inside the name, or from before it with a skip that reaches into it. */
  lemma CutBehindName(text: string, lo: nat, name: string, m: nat, at: nat, skip: int)
    requires NameBetween(text, lo, name, m) && at <= m && skip < m && (lo < at || lo <= skip)
    ensures Cut(text, at, skip) == m
  {
    CutIs(text, at, skip, m);
  }

  lemma FirstCut(root: Path, r: Path, tail: string)
    requires AllNames(r) && (tail == "" || tail == "/") && root != [] && StartsAt(root, r)
    ensures Cut(Render(r) + tail, 0, |Render(root)| - 1) == |Render(r[..|root|])| <= |Render(r) + tail|
  {
    var k := |root| - 1;
    var lo, m := |Render(r[..k])|, |Render(r[..k + 1])|;
    PrefixText(r, tail, k);
    assert Render(root) == Render(r[..k]) + "/" + Last(root);
    assert |Render(root)| == lo + 1 + |Last(root)|;
    CutBehindName(Render(r) + tail, lo, r[k], m, 0, |Render(root)| - 1);
  }

  lemma NextCut(r: seq<string>, tail: string, k: nat)
    requires AllNames(r) && k < |r| && (tail == "" || tail == "/")
    ensures var text := Render(r) + tail;
            |Render(r[..k])| < |text| && Cut(text, |Render(r[..k])| + 1, 0) == |Render(r[..k + 1])|
  {
    var lo, m := |Render(r[..k])|, |Render(r[..k + 1])|;
    PrefixText(r, tail, k);
    CutBehindName(Render(r) + tail, lo, r[k], m, lo + 1, 0);
  }

  lemma RenderResolves(r: seq<string>, tail: string)
    requires AllPlain(r) && r != [] && (tail == "" || tail == "/")
    ensures ResolvePath(Render(r) + tail) == r
  {
    ComponentsOfAbsoluteText(r, tail == "/");
    ResolvePlain([], r);
    assert [] + r == r;
  }

  // ----- characters survive -----

  lemma {:induction false} ComponentsLack(s: string, x: char)
    requires x !in s
    ensures forall c :: c in Components(s) ==> x !in c
    decreases |s|
  {
    if s == "" {
    } else if s[0] == '/' {
      ComponentsLack(s[1..], x);
    } else {
      ComponentsLack(s[NameLength(s)..], x);
    }
  }

  lemma {:induction false} ResolveLacks(stack: seq<string>, cs: seq<string>, x: char)
    requires (forall c :: c in stack ==> x !in c) && (forall c :: c in cs ==> x !in c)
    ensures forall c :: c in Resolve(stack, cs) ==> x !in c
    decreases cs
  {
    if cs == [] {
    } else {
      ResolveLacks(Push(stack, cs[0]), cs[1..], x);
    }
  }

  lemma {:induction false} RenderLacks(stack: seq<string>, x: char)
    requires x != '/' && forall c :: c in stack ==> x !in c
    ensures x !in Render(stack)
  {
    if stack == [] {
    } else {
      RenderLacks(Init(stack), x);
    }
  }

  lemma NormalLacks(path: string, x: char)
    requires x != '/' && x !in path
    ensures x !in Normal(path)
  {
    NormalForm(path);
    ComponentsLack(path, x);
    ResolveLacks([], Components(path), x);
    RenderLacks(ResolvePath(path), x);
  }

  // ----- create_directories_from_path -----

  /** The directories asked for below a root of n components: every longer prefix of r, and with a
      trailing slash also r itself. */
  predicate Wanted(r: Path, n: nat, slash: bool, p: Path) {
    (n < |p| <= |r| && p == r[..|p|]) || (slash && p == r)
  }

  /** Only wanted directories were added, and nothing else changed. */
  ghost predicate Made(was: Nodes, now: Nodes, r: Path, n: nat, slash: bool) {
    IsTree(now) && (forall p :: p in was ==> p in now && now[p] == was[p])
    && forall p :: p in now && p !in was ==> Wanted(r, n, slash, p) && now[p].Dir?
  }

  ghost predicate AllThere(t: Nodes, r: Path, n: nat, k: int) {
    forall i :: n < i <= k && i <= |r| ==> r[..i] in t
  }

  /** No file stands where a directory is needed, and the walk starts in a directory. */
  ghost predicate RoomFor(t: Nodes, r: Path, n: nat) {
    |r| >= n && r[..n] in t && forall i :: n <= i < |r| && r[..i] in t ==> t[r[..i]].Dir?
  }

  lemma MadeOne(was: Nodes, now: Nodes, r: Path, n: nat, slash: bool, p: Path)
    requires Made(was, now, r, n, slash) && Wanted(r, n, slash, p) && CanMake(now, p) && IsPlain(Last(p))
    ensures Made(was, now[p := Dir], r, n, slash)
  {
  }

  lemma ParentReady(was: Nodes, now: Nodes, r: Path, n: nat, slash: bool, p: Path)
    requires 0 < n
    requires Made(was, now, r, n, slash) && RoomFor(was, r, n) && Wanted(r, n, slash, p)
    requires AllThere(now, r, n, |p| - 1)
    ensures p in now || CanMake(now, p)
  {
    assert Init(p) == r[..|p| - 1];
    if |p| == n { assert p == r[..n]; }
  }

  /** Here the walk stopped: all before it is there, and this is not, because its mkdir failed or there
      is no directory to make it in. */
  ghost predicate StopsAt(t: Nodes, was: seq<Path>, failed: seq<Path>, r: Path, n: nat, slash: bool, p: Path) {
    && Wanted(r, n, slash, p) && p !in t && AllThere(t, r, n, |p| - 1)
    && (failed == was + [p] || (failed == was && !CanMake(t, p)))
  }

  /** One mkdir of the walk, EEXIST being as good as success. */
  method MakeOne(disk: Disk, dir: string, ghost was: Nodes, ghost r: Path, ghost n: nat, ghost slash: bool)
    returns (ok: bool)
    requires Made(was, disk.nodes, r, n, slash) && Wanted(r, n, slash, ResolvePath(dir)) && AllPlain(r) && 0 < n
    modifies disk
    ensures Made(was, disk.nodes, r, n, slash)
    ensures forall p :: p in old(disk.nodes) ==> p in disk.nodes
    ensures ok <==> ResolvePath(dir) in disk.nodes
    ensures ok ==> disk.failed == old(disk.failed)
    ensures !ok && AllThere(old(disk.nodes), r, n, |ResolvePath(dir)| - 1) ==>
              StopsAt(disk.nodes, old(disk.failed), disk.failed, r, n, slash, ResolvePath(dir))
    ensures !ok && RoomFor(was, r, n) && AllThere(old(disk.nodes), r, n, |ResolvePath(dir)| - 1) ==>
              disk.failed != old(disk.failed)
  {
    ghost var p, before := ResolvePath(dir), disk.nodes;
    var made, taken := disk.Mkdir(dir);
    if made == 0 {
      assert IsPlain(Last(p));
      MadeOne(was, before, r, n, slash, p);
    }
    if RoomFor(was, r, n) && AllThere(before, r, n, |p| - 1) {
      ParentReady(was, before, r, n, slash, p);
    }
    return made == 0 || taken;
  }

  lemma RootTextIff(root: Path, r: Path, slash: bool)
    requires root != [] && AllPlain(root) && AllNames(r)
    ensures Render(root) <= AbsoluteText(r, slash) <==> StartsAt(root, r)
  {
    var tail := if r == [] || slash then "/" else "";
    assert Init(root) + [Last(root)] == root;
    assert IsPlain(Last(root)) && forall c :: c in Init(root) ==> c in root;
    TextPrefixIff(Init(root), Last(root), r, tail);
    assert AbsoluteText(r, slash) == Render(r) + tail;
  }

  /** Where the copy is cut after k components; a trailing slash counts as one more cut. */
  function CutOffset(r: Path, tail: string, k: nat): nat {
    if k <= |r| then |Render(r[..k])| else |Render(r) + tail|
  }

  /** From the cut at `at` the walker goes to `next`, and what it returns resolves to p. */
  predicate StepsTo(text: string, at: nat, next: nat, p: Path) {
    at < |text| && Cut(text, at + 1, 0) == next && ResolvePath(text[..next]) == p
  }

  lemma AdvanceInside(r: Path, tail: string, k: nat)
    requires AllPlain(r) && (tail == "" || tail == "/") && 0 < k < |r|
    ensures StepsTo(Render(r) + tail, |Render(r[..k])|, |Render(r[..k + 1])|, r[..k + 1])
  {
    NextCut(r, tail, k);
    PrefixText(r, tail, k);
    RenderResolves(r[..k + 1], "");
    assert Render(r[..k + 1]) + "" == Render(r[..k + 1]);
  }

  lemma AdvanceToEnd(r: Path)
    requires AllPlain(r) && r != []
    ensures StepsTo(Render(r) + "/", |Render(r)|, |Render(r) + "/"|, r)
  {
    var text := Render(r) + "/";
    RenderResolves(r, "/");
    assert text[..|text|] == text;
  }

  /** What the walker needs to know to move on from the cut behind k components. */
  lemma AdvanceCut(r: Path, tail: string, k: nat)
    requires AllPlain(r) && (tail == "" || tail == "/") && 0 < k <= |r| + |tail|
    ensures k == |r| + |tail| ==> CutOffset(r, tail, k) == |Render(r) + tail|
    ensures k < |r| + |tail| ==>
              StepsTo(Render(r) + tail, CutOffset(r, tail, k), CutOffset(r, tail, k + 1), r[..Min(k + 1, |r|)])
  {
    assert r[..|r|] == r;
    if k < |r| {
      AdvanceInside(r, tail, k);
    } else if k < |r| + |tail| {
      AdvanceToEnd(r);
    }
  }

  /** The walker stands behind k components: there is one more path to return, or not. */
  ghost predicate Standing(w: PathWalker, r: Path, tail: string, k: nat, more: bool, dir: string)
    reads w, w.path
  {
    w.Valid() && w.text == Render(r) + tail && (more <==> k <= |r| + |tail|)
    && (more ==> w.slash == CutOffset(r, tail, k) && ResolvePath(dir) == r[..Min(k, |r|)])
  }

  method Advance(w: PathWalker, ghost r: Path, ghost tail: string, ghost k: nat) returns (more: bool, dir: string)
    requires w.Valid() && w.text == Render(r) + tail && w.slash == CutOffset(r, tail, k)
    requires AllPlain(r) && (tail == "" || tail == "/") && 0 < k <= |r| + |tail|
    modifies w, w.path
    ensures Standing(w, r, tail, k + 1, more, dir)
  {
    AdvanceCut(r, tail, k);
    more, dir := w.Next(0);
  }

  lemma MoreThere(was: Nodes, now: Nodes, r: Path, n: nat, k: nat)
    requires 0 < k && AllThere(was, r, n, k - 1) && r[..Min(k, |r|)] in now && forall p :: p in was ==> p in now
    ensures AllThere(now, r, n, k)
  {
  }

  /** How far the walk is: all wanted directories before the k-th cut are there. */
  ghost predicate Progress(was: Nodes, now: Nodes, r: Path, n: nat, slash: bool, k: nat) {
    Made(was, now, r, n, slash) && AllThere(now, r, n, k - 1) && (k > |r| + 1 && slash ==> r in now)
  }

  /** One turn of the loop: make the directory the walker shows, and move on. */
  method MakeAndAdvance(disk: Disk, w: PathWalker, dir: string, ghost was: Nodes, ghost r: Path, ghost n: nat,
                        ghost slash: bool, ghost tail: string, ghost k: nat)
    returns (ok: bool, more: bool, next: string, ghost k': nat)
    requires AllPlain(r) && 0 < n < k && tail == if slash then "/" else ""
    requires Standing(w, r, tail, k, true, dir)
    requires Progress(was, disk.nodes, r, n, slash, k)
    modifies disk, w, w.path
    ensures k' == k + 1 && (ok ==> Standing(w, r, tail, k', more, next) && Progress(was, disk.nodes, r, n, slash, k'))
    ensures Made(was, disk.nodes, r, n, slash) && (ok ==> disk.failed == old(disk.failed))
    ensures !ok ==> StopsAt(disk.nodes, old(disk.failed), disk.failed, r, n, slash, r[..Min(k, |r|)])
    ensures !ok && RoomFor(was, r, n) ==> disk.failed != old(disk.failed)
  {
    hide Made, StopsAt, RoomFor, Render, IsTree;
    ghost var before := disk.nodes;
    assert r[..|r|] == r;
    ok := MakeOne(disk, dir, was, r, n, slash);
    more, next, k' := false, "", k + 1;
    if ok {
      MoreThere(before, disk.nodes, r, n, k);
      more, next := Advance(w, r, tail, k);
    }
  }

  /** The first two calls: the root itself, or the name next to it, is returned and dropped. */
  method StartWalk(text: string, rootDir: string, ghost root: Path, ghost r: Path, ghost tail: string)
    returns (walker: PathWalker, more: bool, dir: string, ghost k: nat)
    requires root != [] && rootDir == Render(root) && '\0' !in text && (tail == "" || tail == "/")
    requires StartsAt(root, r) && AllPlain(r) && text == Render(r) + tail
    ensures fresh(walker) && fresh(walker.path)
    ensures k == |root| + 1 && Standing(walker, r, tail, k, more, dir)
  {
    walker := new PathWalker(text);
    FirstCut(root, r, tail);
    more, dir := walker.Next(|rootDir| - 1);
    more, dir := Advance(walker, r, tail, |root|);
    k := |root| + 1;
  }

  /** The walk: everything behind the first path is made. */
  method WalkAndMake(disk: Disk, text: string, rootDir: string, ghost root: Path, ghost r: Path, ghost slash: bool)
    returns (ret: int)
    requires IsTree(disk.nodes) && root != [] && rootDir == Render(root) && '\0' !in text
    requires StartsAt(root, r) && AllPlain(r) && text == Render(r) + (if slash then "/" else "")
    modifies disk
    ensures (ret == 0 || ret == -3) && Made(old(disk.nodes), disk.nodes, r, |root|, slash)
    ensures ret == 0 <==> AllThere(disk.nodes, r, |root|, |r|) && (slash ==> r in disk.nodes)
    ensures if ret == 0 then disk.failed == old(disk.failed)
            else exists p :: StopsAt(disk.nodes, old(disk.failed), disk.failed, r, |root|, slash, p)
    ensures disk.failed == old(disk.failed) && RoomFor(old(disk.nodes), r, |root|) ==> ret == 0
  {
    ghost var was, tail, n, k := disk.nodes, if slash then "/" else "", |root|, |root|;
    var walker, more, dir;
    walker, more, dir, k := StartWalk(text, rootDir, root, r, tail);
    while more
      invariant fresh(walker) && fresh(walker.path)
      invariant n < k <= |r| + |tail| + 1
      invariant Standing(walker, r, tail, k, more, dir)
      invariant Progress(was, disk.nodes, r, n, slash, k) && disk.failed == old(disk.failed)
      decreases |r| + 2 - k
    {
      var ok;
      ok, more, dir, k := MakeAndAdvance(disk, walker, dir, was, r, n, slash, tail, k);
      if !ok { assert r[..|r|] == r; return -3; }
    }
    return 0;
  }

  /** create_directories_from_path below a root given by its normalised text. -2: the path leaves the
      root text, and nothing happens. Otherwise it returns 0 exactly when every directory asked for is
      there (or something by that name) and has added nothing else; and it stops only at a call that
      fails or where a file is in the way. */
  method CreateDirectories(disk: Disk, rootDir: string, userPath: string, ghost root: Path) returns (ret: int)
    requires IsTree(disk.nodes) && '\0' !in rootDir && '\0' !in userPath
    requires root != [] && AllPlain(root) && rootDir == Render(root)
    modifies disk
    ensures var full := rootDir + "/" + userPath;
            var r := ResolvePath(full);
            var slash := Effective(Components(full)) == "..";
            && (ret == -2 <==> !StartsAt(root, r))
            && (ret == -2 ==> disk.nodes == old(disk.nodes) && disk.failed == old(disk.failed))
            && (ret != -2 ==>
                  (ret == 0 || ret == -3) && Made(old(disk.nodes), disk.nodes, r, |root|, slash)
                  && (ret == 0 <==> AllThere(disk.nodes, r, |root|, |r|) && (slash ==> r in disk.nodes))
                  && (if ret == 0 then disk.failed == old(disk.failed)
                      else exists p :: StopsAt(disk.nodes, old(disk.failed), disk.failed, r, |root|, slash, p))
                  && (disk.failed == old(disk.failed) && RoomFor(old(disk.nodes), r, |root|) ==> ret == 0))
  {
    ghost var full := rootDir + "/" + userPath;
    ghost var r, slash := ResolvePath(full), Effective(Components(full)) == "..";
    RenderStarts(root);
    var out, len := NormalizePath(rootDir + "/" + userPath);
    var text := out[..len];
    NormalForm(full);
    NormalLacks(full, '\0');
    ResolvedIsPlain(full);
    RootTextIff(root, r, slash);
    if !(rootDir <= text) { return -2; }
    ret := WalkAndMake(disk, text, rootDir, root, r, slash);
  }
}

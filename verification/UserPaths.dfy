/** Tokens, user roots, and the path test that confines a request to its user's files. */
module UserPaths {
  import opened Common
  import opened Paths
  import opened Normalize

  // ----- token text (section 4 of RFC 9562) -----

  const DIGITS: string := "0123456789abcdef"

  function Hex(u: seq<byte>): (s: string)
    ensures |s| == 2 * |u| && forall c :: c in s ==> c in DIGITS
  {
    if u == [] then "" else [DIGITS[u[0] / 16], DIGITS[u[0] % 16]] + Hex(u[1..])
  }

  type Token = u: seq<byte> | |u| == 16 witness seq(16, _ => 0)

  /** Groups of hexadecimal digits joined by dashes. */
  function Groups(u: seq<byte>, sizes: seq<nat>): (s: string)
    ensures forall c :: c in s ==> c in DIGITS || c == '-'
    decreases sizes
  {
    if |sizes| < 2 || |u| < sizes[0] then Hex(u)
    else Hex(u[..sizes[0]]) + "-" + Groups(u[sizes[0]..], sizes[1..])
  }

  const LAYOUT: seq<nat> := [4, 2, 2, 2, 6]

  lemma GroupsAre36(u: Token)
    ensures |Groups(u, LAYOUT)| == 36
  {
    assert LAYOUT[1..] == [2, 2, 2, 6] && [2, 2, 2, 6][1..] == [2, 2, 6];
    assert [2, 2, 6][1..] == [2, 6] && [2, 6][1..] == [6];
  }

  lemma GroupsArePlain(u: seq<byte>, sizes: seq<nat>)
    requires 2 < |Groups(u, sizes)|
    ensures IsPlain(Groups(u, sizes)) && '\0' !in Groups(u, sizes)
  {
  }

  /** uuid_unparse */
  function Unparse(u: Token): (s: string)
    ensures |s| == 36 && IsPlain(s) && '\0' !in s
  {
    GroupsAre36(u);
    GroupsArePlain(u, LAYOUT);
    Groups(u, LAYOUT)
  }

  lemma DigitsDiffer(i: nat, k: nat)
    requires i < 16 && k < 16 && DIGITS[i] == DIGITS[k]
    ensures i == k
  {
  }

  lemma {:induction false} HexIsInjective(u: seq<byte>, v: seq<byte>)
    requires |u| == |v| && Hex(u) == Hex(v)
    ensures u == v
  {
    if u == [] {
    } else {
      var x, y := Hex(u), Hex(v);
      assert x[0] == y[0] && x[1] == y[1] && x[2..] == Hex(u[1..]) && y[2..] == Hex(v[1..]);
      DigitsDiffer(u[0] / 16, v[0] / 16);
      DigitsDiffer(u[0] % 16, v[0] % 16);
      HexIsInjective(u[1..], v[1..]);
      assert u == [u[0]] + u[1..] && v == [v[0]] + v[1..];
    }
  }

  lemma {:induction false} GroupsAreInjective(u: seq<byte>, v: seq<byte>, sizes: seq<nat>)
    requires |u| == |v| && Groups(u, sizes) == Groups(v, sizes)
    ensures u == v
    decreases sizes
  {
    if |sizes| < 2 || |u| < sizes[0] {
      HexIsInjective(u, v);
    } else {
      var n := sizes[0];
      var x, y := Groups(u, sizes), Groups(v, sizes);
      assert x[..2 * n] == Hex(u[..n]) && y[..2 * n] == Hex(v[..n]);
      assert x[2 * n + 1..] == Groups(u[n..], sizes[1..]) && y[2 * n + 1..] == Groups(v[n..], sizes[1..]);
      HexIsInjective(u[..n], v[..n]);
      GroupsAreInjective(u[n..], v[n..], sizes[1..]);
      assert u == u[..n] + u[n..] && v == v[..n] + v[n..];
    }
  }

  /** Different tokens have different texts, so different users have different roots. */
  lemma UnparseIsInjective(u: Token, v: Token)
    ensures Unparse(u) == Unparse(v) <==> u == v
  {
    if Unparse(u) == Unparse(v) { GroupsAreInjective(u, v, LAYOUT); }
  }

  /** The value of a hexadecimal digit. */
  function DigitValue(c: char): int {
    if '0' <= c <= '9' then c as int - '0' as int else c as int - 'a' as int + 10
  }

  predicate IsDigit(c: char) { '0' <= c <= '9' || 'a' <= c <= 'f' }

  lemma DigitIs(d: nat)
    requires d < 16
    ensures IsDigit(DIGITS[d]) && DigitValue(DIGITS[d]) == d
  {
  }

  /** The characters at p stand for this byte, the higher half first. */
  predicate StandsFor(t: string, p: nat, b: byte) {
    p + 1 < |t| && IsDigit(t[p]) && IsDigit(t[p + 1]) && DigitValue(t[p]) * 16 + DigitValue(t[p + 1]) == b
  }

  lemma {:induction false} HexStandsFor(u: seq<byte>, i: nat)
    requires i < |u|
    ensures StandsFor(Hex(u), 2 * i, u[i])
    decreases i
  {
    if i == 0 {
      DigitIs(u[0] / 16);
      DigitIs(u[0] % 16);
    } else {
      HexStandsFor(u[1..], i - 1);
      assert Hex(u)[2..] == Hex(u[1..]);
      assert Hex(u)[2 * i] == Hex(u[1..])[2 * i - 2] && Hex(u)[2 * i + 1] == Hex(u[1..])[2 * i - 1];
    }
  }

  /** A group's text in its place. */
  lemma GroupStandsFor(t: string, p: nat, u: seq<byte>, from: nat, size: nat, i: nat)
    requires from <= i < from + size <= |u| && p + 2 * size <= |t| && t[p..p + 2 * size] == Hex(u[from..from + size])
    ensures StandsFor(t, p + 2 * (i - from), u[i])
  {
    HexStandsFor(u[from..from + size], i - from);
    var g, k := t[p..p + 2 * size], 2 * (i - from);
    assert g[k] == t[p + k] && g[k + 1] == t[p + k + 1];
  }

  lemma GroupsUnfold(u: Token)
    ensures Groups(u, LAYOUT)
            == Hex(u[..4]) + "-" + (Hex(u[4..6]) + "-" + (Hex(u[6..8]) + "-" + (Hex(u[8..10]) + "-" + Hex(u[10..]))))
  {
    assert LAYOUT[1..] == [2, 2, 2, 6] && [2, 2, 2, 6][1..] == [2, 2, 6];
    assert [2, 2, 6][1..] == [2, 6] && [2, 6][1..] == [6];
    assert u[4..][..2] == u[4..6] && u[4..][2..] == u[6..] && u[6..][..2] == u[6..8] && u[6..][2..] == u[8..];
    assert u[8..][..2] == u[8..10] && u[8..][2..] == u[10..];
    assert Groups(u[10..], [6]) == Hex(u[10..]);
    assert Groups(u[8..], [2, 6]) == Hex(u[8..10]) + "-" + Hex(u[10..]);
  }

  lemma GroupPlaces(a: string, b: string, c: string, d: string, e: string)
    requires |a| == 8 && |b| == |c| == |d| == 4 && |e| == 12
    ensures var t := a + "-" + (b + "-" + (c + "-" + (d + "-" + e)));
            && |t| == 36 && t[8] == t[13] == t[18] == t[23] == '-'
            && t[0..8] == a && t[9..13] == b && t[14..18] == c && t[19..23] == d && t[24..36] == e
  {
  }

  /** Where the digits of byte i stand: behind those of the bytes before it, and the dashes. */
  function Place(i: nat): nat {
    2 * i + (if i < 4 then 0 else if i < 6 then 1 else if i < 8 then 2 else if i < 10 then 3 else 4)
  }

  lemma UnparseGroups(u: Token)
    ensures var t := Unparse(u);
            && t[8] == t[13] == t[18] == t[23] == '-'
            && t[0..8] == Hex(u[0..4]) && t[9..13] == Hex(u[4..6]) && t[14..18] == Hex(u[6..8])
            && t[19..23] == Hex(u[8..10]) && t[24..36] == Hex(u[10..16])
  {
    assert u[0..4] == u[..4] && u[10..16] == u[10..];
    GroupsUnfold(u);
    GroupPlaces(Hex(u[..4]), Hex(u[4..6]), Hex(u[6..8]), Hex(u[8..10]), Hex(u[10..]));
    hide Hex, Groups;
  }

  /** The text of a token: two hexadecimal digits a byte, and dashes behind 4, 6, 8 and 10 bytes. */
  lemma UnparseLayout(u: Token)
    ensures var t := Unparse(u);
            && t[8] == t[13] == t[18] == t[23] == '-'
            && forall i :: 0 <= i < 16 ==> StandsFor(t, Place(i), u[i])
  {
    hide Unparse, Hex, StandsFor;
    UnparseGroups(u);
    var t := Unparse(u);
    forall i | 0 <= i < 16 ensures StandsFor(t, Place(i), u[i]) {
      if i < 4 { GroupStandsFor(t, 0, u, 0, 4, i); }
      else if i < 6 { GroupStandsFor(t, 9, u, 4, 2, i); }
      else if i < 8 { GroupStandsFor(t, 14, u, 6, 2, i); }
      else if i < 10 { GroupStandsFor(t, 19, u, 8, 2, i); }
      else { GroupStandsFor(t, 24, u, 10, 6, i); }
    }
  }

  // ----- roots and the prefix test -----

  const STORAGE_DIR: string := "/var/minibox"
  const STORAGE: seq<string> := ["var", "minibox"]

  /** get_user_root */
  function RootText(token: string): string { STORAGE_DIR + "/" + token }

  /** Resolved paths at or below the user's root. */
  predicate UnderRoot(token: string, p: seq<string>) {
    |p| > 2 && p[..2] == STORAGE && p[2] == token
  }

  /** Resolved paths in the storage directory whose next component starts with the token text. */
  predicate Reachable(token: string, p: seq<string>) {
    |p| > 2 && p[..2] == STORAGE && token <= p[2]
  }

  /** get_user_path: normalise below the root, and test that the root is a prefix of the text. */
  function UserPath(path: string, token: string): Option<string> {
    var normal := Normal(RootText(token) + "/" + path);
    if RootText(token) <= normal then Some(normal) else None
  }

  method GetUserPath(path: string, token: string) returns (r: Option<string>)
    ensures r == UserPath(path, token)
  {
    var out, len := NormalizePath(RootText(token) + "/" + path);
    r := if RootText(token) <= out[..len] then Some(out[..len]) else None;
  }

  lemma {:induction false} RenderFront(stack: seq<string>)
    requires stack != []
    ensures Render(stack) == "/" + stack[0] + Render(stack[1..])
  {
    if |stack| == 1 {
      assert Render(Init(stack)) == "" && Render(stack[1..]) == "";
    } else {
      var a, b, c := "/" + stack[0], Render(Init(stack[1..])), Last(stack);
      assert Render(stack) == Render(Init(stack)) + "/" + c && Render(stack[1..]) == b + "/" + c;
      hide Render;
      assert Init(stack)[1..] == Init(stack[1..]);
      RenderFront(Init(stack));
      Regroup(a + b, "/", c);
      Regroup(a, b, "/" + c);
      Regroup(b, "/", c);
    }
  }

  predicate StartsNoName(x: string) { x == "" || x[0] == '/' }

  lemma TailPrefix(a: string, b: string)
    requires a != "" && b != ""
    ensures a <= b <==> a[0] == b[0] && a[1..] <= b[1..]
  {
    if a[0] == b[0] && a[1..] <= b[1..] {
      assert a == [a[0]] + a[1..] && b == [b[0]] + b[1..];
    }
    if a <= b { assert b[1..][..|a| - 1] == b[..|a|][1..]; }
  }

  /** A name in front of two texts: the name decides up to the next slash. */
  lemma {:induction false} NamePrefix(t: string, c: string, x: string)
    requires '/' !in t && StartsNoName(x)
    ensures t <= c + x <==> t <= c
  {
    if t == "" {
    } else if c == "" {
      assert c + x == x && t[0] in t;
    } else {
      assert (c + x)[1..] == c[1..] + x;
      NamePrefix(t[1..], c[1..], x);
      TailPrefix(t, c + x);
      TailPrefix(t, c);
    }
  }

  lemma {:induction false} SameName(b: string, y: string, c: string, x: string)
    requires '/' !in b && '/' !in c && y != "" && y[0] == '/' && StartsNoName(x)
    ensures b + y <= c + x <==> b == c && y <= x
  {
    if b == "" || c == "" {
      assert b + y == if b == "" then y else b + y;
      assert c + x == if c == "" then x else c + x;
      if b != "" { assert b[0] in b; }
      if c != "" { assert c[0] in c; }
    } else {
      assert (b + y)[1..] == b[1..] + y && (c + x)[1..] == c[1..] + x;
      TailPrefix(b + y, c + x);
      SameName(b[1..], y, c[1..], x);
      assert b == [b[0]] + b[1..] && c == [c[0]] + c[1..];
    }
  }

  lemma RenderStarts(stack: seq<string>)
    ensures stack != [] ==> Render(stack) != "" && Render(stack)[0] == '/'
  {
    if stack != [] { RenderFront(stack); }
  }

  lemma RenderWithTail(r: seq<string>, tail: string)
    requires r != [] && (tail == "" || tail == "/")
    ensures Render(r) + tail == "/" + (r[0] + (Render(r[1..]) + tail))
    ensures StartsNoName(Render(r[1..]) + tail)
  {
    RenderFront(r);
    RenderStarts(r[1..]);
    var rest := Render(r[1..]);
    assert StartsNoName(rest + tail);
    hide Render, StartsNoName;
    Regroup("/" + r[0], rest, tail);
    Regroup("/", r[0], rest + tail);
  }

  lemma PrefixFromFront(base: seq<string>, r: seq<string>)
    requires base != [] && |r| > |base|
    ensures r[..|base|] == base <==> r[0] == base[0] && r[1..][..|base| - 1] == base[1..]
  {
    assert r[..|base|] == [r[0]] + r[1..][..|base| - 1];
    assert base == [base[0]] + base[1..];
  }

  /** The text test is a test on components, exact up to the last one. */
  lemma {:induction false} TextPrefixIff(base: seq<string>, t: string, r: seq<string>, tail: string)
    requires AllNames(base) && IsName(t) && AllNames(r) && (tail == "" || tail == "/")
    ensures Render(base + [t]) <= Render(r) + tail <==> |r| > |base| && r[..|base|] == base && t <= r[|base|]
    decreases base
  {
    var all := base + [t];
    var y := Render(all[1..]);
    RenderWithTail(all, "");
    assert Render(all) + "" == Render(all) && y + "" == y;
    assert IsName(all[0]);
    if r == [] {
      assert |Render(all)| >= 2;
    } else {
      var x := Render(r[1..]) + tail;
      RenderWithTail(r, tail);
      TailPrefix(Render(all), Render(r) + tail);
      assert Render(all)[1..] == all[0] + y && (Render(r) + tail)[1..] == r[0] + x;
      assert IsName(r[0]);
      if base == [] {
        assert all[1..] == [] && t + y == t;
        NamePrefix(t, r[0], x);
      } else {
        assert all[1..] == base[1..] + [t];
        RenderStarts(all[1..]);
        SameName(base[0], y, r[0], x);
        TextPrefixIff(base[1..], t, r[1..], tail);
        if |r| > |base| { PrefixFromFront(base, r); }
      }
    }
  }

  lemma RootIsRendered(token: string)
    ensures RootText(token) == Render(STORAGE + [token])
  {
    RenderFront(STORAGE + [token]);
    RenderFront(["minibox", token]);
    RenderFront([token]);
    assert (STORAGE + [token])[1..] == ["minibox", token];
    assert ["minibox", token][1..] == [token] && [token][1..] == [];
  }

  lemma TextTestIff(r: seq<string>, slash: bool, token: string)
    requires AllNames(r) && IsName(token)
    ensures RootText(token) <= AbsoluteText(r, slash) <==> Reachable(token, r)
  {
    var tail := if r == [] || slash then "/" else "";
    RootIsRendered(token);
    TextPrefixIff(STORAGE, token, r, tail);
    assert AbsoluteText(r, slash) == Render(r) + tail;
  }

  /** get_user_path accepts a path exactly when it resolves to the storage directory followed by a
      component that starts with the token text, and what it returns resolves to the same place. */
  lemma AcceptedIff(path: string, token: string)
    requires IsPlain(token)
    ensures var r := ResolvePath(RootText(token) + "/" + path);
            (UserPath(path, token).Some? <==> Reachable(token, r))
            && (UserPath(path, token).Some? ==> ResolvePath(UserPath(path, token).value) == r)
  {
    var full := RootText(token) + "/" + path;
    NormalForm(full);
    NormalIsStable(full);
    ResolvedIsPlain(full);
    TextTestIff(ResolvePath(full), Effective(Components(full)) == "..", token);
  }

  /** Every path that stays at or below the root is accepted; an accepted one does so exactly when
      its third component is as long as a token. */
  lemma ContainedIff(path: string, token: Token)
    ensures var r := ResolvePath(RootText(Unparse(token)) + "/" + path);
            UnderRoot(Unparse(token), r) <==> UserPath(path, Unparse(token)).Some? && |r| > 2 && |r[2]| == 36
  {
    AcceptedIff(path, Unparse(token));
  }

  /** What one user's requests can reach is never at or below another user's root. */
  lemma RootsAreApart(a: Token, b: Token, p: seq<string>)
    requires a != b && Reachable(Unparse(a), p)
    ensures !UnderRoot(Unparse(b), p)
  {
    UnparseIsInjective(a, b);
  }

  lemma SiblingComponents(name: string)
    requires IsName(name)
    ensures Components("../" + name) == ["..", name]
  {
    assert "../" + name == ".." + "/" + name;
    ComponentsSplit("..", name);
    ComponentsOfOne("..");
    ComponentsOfOne(name);
  }

  lemma RootResolves(token: string)
    requires IsPlain(token)
    ensures ResolvePath(RootText(token)) == STORAGE + [token]
  {
    var root := STORAGE + [token];
    RootIsRendered(token);
    ComponentsOfRender(root);
    ResolvePlain([], root);
    assert [] + root == root;
  }

  /** A name next to the root that extends the token text is accepted too. */
  lemma SiblingIsAccepted(token: Token)
    ensures var t := Unparse(token); var path := "../" + (t + "x");
            UserPath(path, t).Some? && ResolvePath(RootText(t) + "/" + path) == STORAGE + [t + "x"]
  {
    var t := Unparse(token);
    var name, root := t + "x", STORAGE + [t];
    RootResolves(t);
    ResolveComposes(RootText(t), "../" + name);
    SiblingComponents(name);
    assert ["..", name][1..] == [name] && Init(root) == STORAGE;
    ResolveOne(STORAGE, name);
    AcceptedIff("../" + name, t);
  }
}

/** A user's table of transfer sessions: a fixed array of session objects, searched by kind and
    file name, with removal that closes the gap by swaps. */
module Sessions {
  import opened Common

  datatype SessionKind = NoKind | Download | Upload
  datatype SessionState = Idle | Running | Interrupted
  datatype Key = Key(kind: SessionKind, filename: string)

  class Session {
    const key: Key
    var state: SessionState
    var lastChunk: nat

    constructor (key: Key)
      ensures this.key == key && state == Idle && lastChunk == 0
    {
      this.key, state, lastChunk := key, Idle, 0;
    }
  }

  // ----- the table as an ordered association list -----

  function FirstMatch(keys: seq<Key>, k: Key): (i: nat)
    ensures i <= |keys| && k !in keys[..i] && (i < |keys| ==> keys[i] == k)
  {
    if keys == [] || keys[0] == k then 0 else 1 + FirstMatch(keys[1..], k)
  }

  function RemoveAt<T>(s: seq<T>, i: nat): seq<T>
    requires i < |s|
  {
    s[..i] + s[i + 1..]
  }

  function RemoveFirst(keys: seq<Key>, k: Key): seq<Key> {
    var i := FirstMatch(keys, k);
    if i == |keys| then keys else RemoveAt(keys, i)
  }

  predicate Unique(keys: seq<Key>) {
    forall i, j :: 0 <= i < j < |keys| ==> keys[i] != keys[j]
  }

  predicate NonNull(ss: seq<Session?>) { forall i :: 0 <= i < |ss| ==> ss[i] != null }

  function KeysOf(ss: seq<Session?>): (keys: seq<Key>)
    requires NonNull(ss)
    ensures |keys| == |ss| && forall i :: 0 <= i < |ss| ==> keys[i] == ss[i].key
  {
    seq(|ss|, i requires 0 <= i < |ss| => ss[i].key)
  }

  lemma MatchIsFirst(keys: seq<Key>, k: Key, i: nat)
    requires i < |keys| && keys[i] == k && k !in keys[..i]
    ensures FirstMatch(keys, k) == i
  {
    if i == 0 {
    } else {
      assert keys[0] == keys[..i][0];
      assert keys[1..][..i - 1] == keys[..i][1..];
      MatchIsFirst(keys[1..], k, i - 1);
    }
  }

  lemma KeysOfRemoveAt(ss: seq<Session?>, i: nat)
    requires i < |ss| && NonNull(ss)
    ensures NonNull(RemoveAt(ss, i)) && KeysOf(RemoveAt(ss, i)) == RemoveAt(KeysOf(ss), i)
  {
  }

  /** The table as its users see it, and whether the array has been left. */
  datatype SessionTable = SessionTable(keys: seq<Key>, overran: bool)

  /** The discipline of the handlers: look a key up, and add a session only when there is none. */
  datatype TableOp = LookupOrAdd(k: Key) | Remove(k: Key)

  /** A removal leaves the array: the key is there and all slots are taken. */
  predicate Overruns(t: SessionTable, capacity: nat, op: TableOp) {
    op.Remove? && op.k in t.keys && |t.keys| == capacity
  }

  function RunOp(t: SessionTable, capacity: nat, op: TableOp): SessionTable {
    match op
    case LookupOrAdd(k) => if k in t.keys || |t.keys| >= capacity then t else t.(keys := t.keys + [k])
    case Remove(k) => SessionTable(RemoveFirst(t.keys, k), t.overran || Overruns(t, capacity, op))
  }

  // ----- the table on the heap -----

  const CAPACITY: nat := 10

  class User {
    const sessions: array<Session?>   // the ten slots, and the word of memory behind them
    var count: nat
    ghost var overran: bool           // whether that word has been read and written

    ghost predicate Valid()
      reads this, sessions
    {
      sessions.Length == CAPACITY + 1 && count <= CAPACITY && NonNull(sessions[..count])
    }

    ghost function Contents(): (s: seq<Session?>)
      reads this, sessions
      requires Valid()
    {
      sessions[..count]
    }

    ghost function Objects(): (o: set<Session>)
      reads this, sessions
      requires Valid()
    {
      set s: Session | s in Contents()
    }

    ghost function State(): SessionTable
      reads this, sessions
      requires Valid()
    {
      SessionTable(KeysOf(Contents()), overran)
    }

    constructor ()
      ensures Valid() && fresh(sessions) && Contents() == [] && !overran
    {
      sessions := new Session?[11](_ => null);
      count, overran := 0, false;
    }

    method AddSession(s: Session) returns (res: int)
      requires Valid()
      modifies `count, sessions
      ensures Valid()
      ensures old(count) < CAPACITY ==> res == 0 && Contents() == old(Contents()) + [s]
      ensures old(count) == CAPACITY ==> res == -1 && Contents() == old(Contents())
      ensures sessions[CAPACITY] == old(sessions[CAPACITY])
    {
      if count >= CAPACITY { return -1; }
      sessions[count] := s;
      count := count + 1;
      return 0;
    }

    method GetSession(k: Key) returns (s: Session?)
      requires Valid()
      ensures s == null <==> k !in KeysOf(Contents())
      ensures s != null ==> s.key == k && s == Contents()[FirstMatch(KeysOf(Contents()), k)]
    {
      ghost var keys := KeysOf(Contents());
      for i := 0 to count
        invariant k !in keys[..i]
      {
        if sessions[i].key == k {
          MatchIsFirst(keys, k, i);
          return sessions[i];
        }
        assert keys[..i + 1] == keys[..i] + [keys[i]];
      }
      assert keys[..count] == keys;
      return null;
    }

    /** The inner loop of the removal: bubble the emptied slot i past the last session. It always
        reaches the slot at `count`; in a full table that is the word behind the array. */
    method ShiftDown(i: nat)
      requires sessions.Length == CAPACITY + 1 && i < count <= CAPACITY
      modifies sessions, `overran
      ensures sessions[..count - 1] == RemoveAt(old(sessions[..count]), i)
      ensures sessions[CAPACITY] == if count == CAPACITY then null else old(sessions[CAPACITY])
      ensures overran == (old(overran) || count == CAPACITY)
    {
      sessions[i] := null;
      for j := i to count
        invariant forall m :: 0 <= m < i ==> sessions[m] == old(sessions[m])
        invariant forall m :: i <= m < j ==> sessions[m] == old(sessions[m + 1])
        invariant sessions[j] == null
        invariant forall m :: j < m <= CAPACITY ==> sessions[m] == old(sessions[m])
        invariant overran == (old(overran) || j == CAPACITY)
      {
        var tmp := sessions[j];
        sessions[j] := sessions[j + 1];
        sessions[j + 1] := tmp;
        overran := overran || j + 1 == CAPACITY;
      }
    }

    /** The first session with the key goes, and all others keep their order. The array is left, and
        the word behind it overwritten with null, exactly when such a session is removed from a full
        table. */
    method RemoveSession(k: Key) returns (res: int)
      requires Valid()
      modifies this, sessions
      ensures Valid()
      ensures res == if k in KeysOf(old(Contents())) then 0 else -1
      ensures Contents() == if k in KeysOf(old(Contents()))
                            then RemoveAt(old(Contents()), FirstMatch(KeysOf(old(Contents())), k))
                            else old(Contents())
      ensures State() == RunOp(old(State()), CAPACITY, Remove(k))
      ensures sessions[CAPACITY] == if k in KeysOf(old(Contents())) && old(count) == CAPACITY then null
                                    else old(sessions[CAPACITY])
    {
      ghost var was := Contents();
      ghost var keys := KeysOf(was);
      for i := 0 to count
        invariant Valid() && Contents() == was
        invariant k !in keys[..i]
      {
        if sessions[i].key == k {
          assert keys[i] == k;
          MatchIsFirst(keys, k, i);
          KeysOfRemoveAt(was, i);
          ShiftDown(i);
          count := count - 1;
          return 0;
        }
        assert keys[..i + 1] == keys[..i] + [keys[i]];
      }
      assert keys[..count] == keys;
      return -1;
    }
  }

  // ----- what the list guarantees over runs -----

  function RunOps(t: SessionTable, capacity: nat, ops: seq<TableOp>): SessionTable {
    if ops == [] then t else RunOp(RunOps(t, capacity, Init(ops)), capacity, Last(ops))
  }

  lemma RemoveFirstEffect(keys: seq<Key>, k: Key)
    requires Unique(keys)
    ensures Unique(RemoveFirst(keys, k)) && k !in RemoveFirst(keys, k)
    ensures forall other :: other != k ==> (other in keys <==> other in RemoveFirst(keys, k))
    ensures |RemoveFirst(keys, k)| == |keys| - (if k in keys then 1 else 0)
  {
    var i := FirstMatch(keys, k);
    var rest := RemoveFirst(keys, k);
    if i < |keys| {
      assert forall m :: 0 <= m < |rest| ==> rest[m] == keys[if m < i then m else m + 1];
      forall other | other != k && other in keys ensures other in rest {
        var m :| 0 <= m < |keys| && keys[m] == other;
        assert rest[if m < i then m else m - 1] == other;
      }
    } else {
      assert keys[..i] == keys;
    }
  }

  /** Over any run of lookups, additions and removals the keys stay unique and no more than the
      slots. */
  lemma {:induction false} KeysStayUnique(t: SessionTable, capacity: nat, ops: seq<TableOp>)
    requires Unique(t.keys) && |t.keys| <= capacity
    ensures Unique(RunOps(t, capacity, ops).keys) && |RunOps(t, capacity, ops).keys| <= capacity
  {
    if ops == [] {
    } else {
      KeysStayUnique(t, capacity, Init(ops));
      if Last(ops).Remove? { RemoveFirstEffect(RunOps(t, capacity, Init(ops)).keys, Last(ops).k); }
    }
  }

  /** Operation number i of the run removes its key from a full table. */
  predicate OverrunsAt(t: SessionTable, capacity: nat, ops: seq<TableOp>, i: nat)
    requires i < |ops|
  {
    Overruns(RunOps(t, capacity, ops[..i]), capacity, ops[i])
  }

  ghost predicate RemovesFromFull(t: SessionTable, capacity: nat, ops: seq<TableOp>) {
    exists i: nat :: i < |ops| && OverrunsAt(t, capacity, ops, i)
  }

  lemma OverrunsAtInit(t: SessionTable, capacity: nat, ops: seq<TableOp>, i: nat)
    requires i + 1 < |ops|
    ensures OverrunsAt(t, capacity, ops, i) <==> OverrunsAt(t, capacity, Init(ops), i)
  {
    assert Init(ops)[..i] == ops[..i];
  }

  lemma RemovesFromFullStep(t: SessionTable, capacity: nat, ops: seq<TableOp>)
    requires ops != []
    ensures RemovesFromFull(t, capacity, ops)
            <==> RemovesFromFull(t, capacity, Init(ops)) || OverrunsAt(t, capacity, ops, |ops| - 1)
  {
    forall i: nat | i + 1 < |ops|
      ensures OverrunsAt(t, capacity, ops, i) <==> OverrunsAt(t, capacity, Init(ops), i)
    {
      OverrunsAtInit(t, capacity, ops, i);
    }
    if RemovesFromFull(t, capacity, Init(ops)) {
      var i: nat :| i < |ops| - 1 && OverrunsAt(t, capacity, Init(ops), i);
      assert OverrunsAt(t, capacity, ops, i);
    }
  }

  /** A run leaves the array exactly when some removal in it meets its key in a full table. */
  lemma {:induction false} RunOverrunsIff(t: SessionTable, capacity: nat, ops: seq<TableOp>)
    ensures RunOps(t, capacity, ops).overran <==> t.overran || RemovesFromFull(t, capacity, ops)
  {
    if ops == [] {
    } else {
      RunOverrunsIff(t, capacity, Init(ops));
      RemovesFromFullStep(t, capacity, ops);
    }
  }

  function Lookups(keys: seq<Key>): (ops: seq<TableOp>)
    ensures |ops| == |keys|
  {
    if keys == [] then [] else Lookups(Init(keys)) + [LookupOrAdd(Last(keys))]
  }

  lemma {:induction false} LookupsFill(keys: seq<Key>, capacity: nat)
    requires Unique(keys) && |keys| <= capacity
    ensures RunOps(SessionTable([], false), capacity, Lookups(keys)) == SessionTable(keys, false)
  {
    if keys == [] {
    } else {
      LookupsFill(Init(keys), capacity);
      assert Init(Lookups(keys)) == Lookups(Init(keys));
      assert Init(keys) + [Last(keys)] == keys;
    }
  }

  /** Interrupt an upload of every file, then resume and finish one of them. */
  function FillThenFinish(keys: seq<Key>, k: Key): seq<TableOp> {
    Lookups(keys) + [LookupOrAdd(k), Remove(k)]
  }

  /** From an empty table, with as many files as there are slots, this leaves the array. */
  lemma FullTableOverruns(keys: seq<Key>, k: Key)
    requires Unique(keys) && k in keys
    ensures RunOps(SessionTable([], false), |keys|, FillThenFinish(keys, k)).overran
  {
    var ops := FillThenFinish(keys, k);
    LookupsFill(keys, |keys|);
    assert Init(ops) == Lookups(keys) + [LookupOrAdd(k)] && Init(Init(ops)) == Lookups(keys);
  }

  lemma GapHolds(keys: seq<Key>, i: nat, m: nat, other: Key)
    requires i < m < |keys| && keys[m] == other && other !in keys[..m]
    ensures RemoveAt(keys, i)[m - 1] == other && other !in RemoveAt(keys, i)[..m - 1]
  {
    var rest := RemoveAt(keys, i);
    forall x | 0 <= x < m - 1 ensures rest[x] != other {
      assert rest[x] == keys[..m][if x < i then x else x + 1];
    }
  }

  lemma LaterMatchShifts(keys: seq<Key>, k: Key, other: Key)
    requires FirstMatch(keys, k) < FirstMatch(keys, other) < |keys| && other != k
    ensures FirstMatch(RemoveFirst(keys, k), other) == FirstMatch(keys, other) - 1 && other in RemoveFirst(keys, k)
  {
    GapHolds(keys, FirstMatch(keys, k), FirstMatch(keys, other), other);
    MatchIsFirst(RemoveFirst(keys, k), other, FirstMatch(keys, other) - 1);
  }

  lemma EarlierMatchStays(keys: seq<Key>, k: Key, other: Key)
    requires FirstMatch(keys, other) < |keys| && FirstMatch(keys, other) <= FirstMatch(keys, k) && other != k
    ensures FirstMatch(RemoveFirst(keys, k), other) == FirstMatch(keys, other) && other in RemoveFirst(keys, k)
  {
    var m, rest := FirstMatch(keys, other), RemoveFirst(keys, k);
    assert rest[..m] == keys[..m] && rest[m] == other;
    MatchIsFirst(rest, other, m);
  }

  /** Removing one key does not disturb what a lookup of another one finds. */
  lemma RemovalKeepsOthers(keys: seq<Key>, k: Key, other: Key)
    requires other != k && other in keys
    ensures var rest := RemoveFirst(keys, k);
            other in rest && FirstMatch(rest, other) == FirstMatch(keys, other)
                               - (if FirstMatch(keys, k) < FirstMatch(keys, other) then 1 else 0)
  {
    assert keys[..|keys|] == keys;
    if FirstMatch(keys, k) < FirstMatch(keys, other) {
      LaterMatchShifts(keys, k, other);
    } else {
      EarlierMatchStays(keys, k, other);
    }
  }
}

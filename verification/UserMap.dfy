/** The table from tokens to users: chained buckets on the heap under a wrapping 64-bit hash. */
module UserMap {
  import opened Common

  type Uuid = seq<byte>

  // ----- the hash -----

  const WORD: nat := 0x1_0000_0000_0000_0000

  function Pow33(n: nat): nat { if n == 0 then 1 else 33 * Pow33(n - 1) }

  /** Each byte times its power of 33. */
  function Weighted(s: seq<byte>): nat {
    if s == [] then 0 else s[0] * Pow33(|s| - 1) + Weighted(s[1..])
  }

  function Polynomial(s: seq<byte>): nat { 5381 * Pow33(|s|) + Weighted(s) }

  lemma Rearrange(a: nat, p: nat)
    ensures a * (33 * p) == 33 * (a * p)
  {
  }

  lemma {:induction false} WeightedSnoc(s: seq<byte>, c: byte)
    ensures Weighted(s + [c]) == 33 * Weighted(s) + c
  {
    var t := s + [c];
    if s == [] {
      assert t[1..] == [];
    } else {
      assert t[1..] == s[1..] + [c];
      WeightedSnoc(s[1..], c);
      Rearrange(s[0], Pow33(|s| - 1));
    }
  }

  lemma PolynomialSnoc(s: seq<byte>, c: byte)
    ensures Polynomial(s + [c]) == 33 * Polynomial(s) + c
  {
    WeightedSnoc(s, c);
  }

  /** hash = ((hash << 5) + hash) + c, in unsigned 64-bit arithmetic. */
  function ShiftAdd(h: nat, c: byte): nat {
    ((h * 32 % WORD + h) % WORD + c) % WORD
  }

  lemma DropWords(q: nat, x: nat)
    ensures (q * WORD + x) % WORD == x % WORD
  {
  }

  lemma Wrap(x: nat, y: nat)
    ensures (x % WORD + y) % WORD == (x + y) % WORD
  {
    DropWords(x / WORD, x % WORD + y);
  }

  lemma ShiftAddIsTimes33(x: nat, c: byte)
    ensures ShiftAdd(x % WORD, c) == (33 * x + c) % WORD
  {
    var r := x % WORD;
    Wrap(r * 32, r);
    Wrap(r * 32 + r, c);
    DropWords(33 * (x / WORD), 33 * r + c);
  }

  /** The loop computes the polynomial 5381 * 33^n + sum of bytes times powers of 33, modulo 2^64. */
  method HashOf(s: seq<byte>) returns (h: nat)
    ensures h == Polynomial(s) % WORD
  {
    h := 5381;
    for i := 0 to |s|
      invariant h == Polynomial(s[..i]) % WORD
    {
      assert s[..i + 1] == s[..i] + [s[i]];
      PolynomialSnoc(s[..i], s[i]);
      ShiftAddIsTimes33(Polynomial(s[..i]), s[i]);
      h := ShiftAdd(h, s[i]);
    }
    assert s[..|s|] == s;
  }

  function Index(k: Uuid, capacity: nat): (i: nat)
    requires capacity > 0
    ensures i < capacity
  {
    Polynomial(k) % WORD % capacity
  }

  // ----- buckets as sequences -----

  /** A registered user, by identity: every registration allocates a new one. */
  type UserId = nat

  datatype Pair = Pair(key: Uuid, value: UserId)

  type Buckets = seq<seq<Pair>>

  /** A put is refused only when the key is the one at the head of its bucket. */
  predicate HeadHas(bucket: seq<Pair>, k: Uuid) {
    bucket != [] && bucket[0].key == k
  }

  function PutPair(b: Buckets, p: Pair): (r: Buckets)
    requires |b| > 0
    ensures |r| == |b|
  {
    var i := Index(p.key, |b|);
    if HeadHas(b[i], p.key) then b else b[i := b[i] + [p]]
  }

  /** The first pair of a bucket with this key. */
  function Find(bucket: seq<Pair>, k: Uuid): Option<UserId> {
    if bucket == [] then None else if bucket[0].key == k then Some(bucket[0].value) else Find(bucket[1..], k)
  }

  /** As written: whatever node the key is found at, the value handed back is the head's. */
  function Lookup(b: Buckets, k: Uuid): Option<UserId>
    requires |b| > 0
  {
    var bucket := b[Index(k, |b|)];
    if Find(bucket, k).Some? then Some(bucket[0].value) else None
  }

  /** As meant: the value of the node found. */
  function GetMeant(b: Buckets, k: Uuid): Option<UserId>
    requires |b| > 0
  {
    Find(b[Index(k, |b|)], k)
  }

  function PutAll(capacity: nat, puts: seq<Pair>): (b: Buckets)
    requires capacity > 0
    ensures |b| == capacity
  {
    if puts == [] then seq(capacity, _ => []) else PutPair(PutAll(capacity, Init(puts)), Last(puts))
  }

  // ----- what a run of puts leaves -----

  /** The first value put under a key, and the first pair put into a bucket. */
  function FirstPut(puts: seq<Pair>, k: Uuid): Option<UserId> {
    if puts == [] then None
    else if FirstPut(Init(puts), k).Some? then FirstPut(Init(puts), k)
    else if Last(puts).key == k then Some(Last(puts).value) else None
  }

  function FirstInBucket(puts: seq<Pair>, capacity: nat, i: nat): Option<Pair>
    requires capacity > 0
  {
    if puts == [] then None
    else if FirstInBucket(Init(puts), capacity, i).Some? then FirstInBucket(Init(puts), capacity, i)
    else if Index(Last(puts).key, capacity) == i then Some(Last(puts)) else None
  }

  lemma {:induction false} FindSnoc(bucket: seq<Pair>, p: Pair, k: Uuid)
    ensures Find(bucket + [p], k)
            == if Find(bucket, k).Some? then Find(bucket, k) else if p.key == k then Some(p.value) else None
  {
    if bucket == [] {
      assert [] + [p] == [p] && [p][1..] == [];
    } else {
      assert (bucket + [p])[1..] == bucket[1..] + [p];
      FindSnoc(bucket[1..], p, k);
    }
  }

  /** After any sequence of puts a key is found exactly when it was put, and the node found holds
      the first value put under it. */
  lemma {:induction false} FoundIsFirstPut(capacity: nat, puts: seq<Pair>, k: Uuid)
    requires capacity > 0
    ensures GetMeant(PutAll(capacity, puts), k) == FirstPut(puts, k)
  {
    if puts == [] {
    } else {
      FoundIsFirstPut(capacity, Init(puts), k);
      var bucket, p := PutAll(capacity, Init(puts))[Index(k, capacity)], Last(puts);
      FindSnoc(bucket, p, k);
    }
  }

  /** The head of a bucket is the first pair put into it, and stays. */
  lemma {:induction false} HeadIsFirst(capacity: nat, puts: seq<Pair>, i: nat)
    requires i < capacity
    ensures var bucket := PutAll(capacity, puts)[i];
            FirstInBucket(puts, capacity, i) == if bucket == [] then None else Some(bucket[0])
  {
    if puts == [] {
    } else {
      HeadIsFirst(capacity, Init(puts), i);
    }
  }

  lemma {:induction false} FirstPutIsPut(puts: seq<Pair>, k: Uuid)
    ensures FirstPut(puts, k).Some? <==> exists p :: p in puts && p.key == k
    ensures FirstPut(puts, k).Some? ==> Pair(k, FirstPut(puts, k).value) in puts
  {
    if puts == [] {
    } else {
      FirstPutIsPut(Init(puts), k);
      assert puts == Init(puts) + [Last(puts)];
    }
  }

  lemma {:induction false} FirstInBucketIsPut(puts: seq<Pair>, capacity: nat, i: nat)
    requires capacity > 0
    ensures FirstInBucket(puts, capacity, i).Some? ==> FirstInBucket(puts, capacity, i).value in puts
  {
    if puts == [] {
    } else {
      FirstInBucketIsPut(Init(puts), capacity, i);
      assert puts == Init(puts) + [Last(puts)];
    }
  }

  /** The puts into one bucket, in order. */
  function PutsInto(puts: seq<Pair>, capacity: nat, i: nat): seq<Pair>
    requires capacity > 0
  {
    if puts == [] then []
    else PutsInto(Init(puts), capacity, i) + if Index(Last(puts).key, capacity) == i then [Last(puts)] else []
  }

  function WithoutKey(puts: seq<Pair>, k: Uuid): seq<Pair> {
    if puts == [] then [] else WithoutKey(Init(puts), k) + if Last(puts).key == k then [] else [Last(puts)]
  }

  /** A bucket holds what was put into it, in order, but for repeats of its first key: other keys are
      linked again and again. */
  lemma {:induction false} BucketIsItsPuts(capacity: nat, puts: seq<Pair>, i: nat)
    requires i < capacity
    ensures var into := PutsInto(puts, capacity, i);
            PutAll(capacity, puts)[i] == if into == [] then [] else [into[0]] + WithoutKey(into[1..], into[0].key)
  {
    if puts == [] {
    } else {
      BucketIsItsPuts(capacity, Init(puts), i);
      var p, into, all := Last(puts), PutsInto(Init(puts), capacity, i), PutsInto(puts, capacity, i);
      if Index(p.key, capacity) == i {
        assert all == into + [p];
        if into != [] {
          assert all[1..] == into[1..] + [p] && Init(all[1..]) == into[1..];
        } else {
          assert all[1..] == [];
        }
      } else {
        assert all == into;
      }
    }
  }

  /** umap_get hands back the value of the first pair put into the bucket. */
  lemma GetIsTheHeads(capacity: nat, puts: seq<Pair>, k: Uuid)
    requires capacity > 0 && Lookup(PutAll(capacity, puts), k).Some?
    ensures var into := PutsInto(puts, capacity, Index(k, capacity));
            into != [] && Lookup(PutAll(capacity, puts), k) == Some(into[0].value)
  {
    BucketIsItsPuts(capacity, puts, Index(k, capacity));
  }

  /** umap_get as written succeeds for exactly the keys that were put. */
  lemma GetFindsExactlyThePut(capacity: nat, puts: seq<Pair>, k: Uuid)
    requires capacity > 0
    ensures Lookup(PutAll(capacity, puts), k).Some? <==> exists p :: p in puts && p.key == k
  {
    FoundIsFirstPut(capacity, puts, k);
    FirstPutIsPut(puts, k);
  }

  predicate DistinctValues(puts: seq<Pair>) {
    forall i, j :: 0 <= i < j < |puts| ==> puts[i].value != puts[j].value
  }

  /** When every put brings a value of its own, as registrations do, umap_get as written hands back
      the right value exactly for the keys at the head of their bucket: those for which no other key
      was put into the bucket earlier. */
  lemma GetIsRightIff(capacity: nat, puts: seq<Pair>, k: Uuid)
    requires capacity > 0 && DistinctValues(puts) && FirstPut(puts, k).Some?
    ensures FirstInBucket(puts, capacity, Index(k, capacity)).Some?
    ensures Lookup(PutAll(capacity, puts), k) == FirstPut(puts, k)
            <==> FirstInBucket(puts, capacity, Index(k, capacity)).value.key == k
  {
    var i := Index(k, capacity);
    var bucket := PutAll(capacity, puts)[i];
    FoundIsFirstPut(capacity, puts, k);
    HeadIsFirst(capacity, puts, i);
    FirstPutIsPut(puts, k);
    FirstInBucketIsPut(puts, capacity, i);
    var head, mine := bucket[0], Pair(k, FirstPut(puts, k).value);
    if head.value == mine.value {
      var m, n :| 0 <= m < |puts| && puts[m] == head && 0 <= n < |puts| && puts[n] == mine;
      assert m == n;
    }
  }

  lemma WordThenByte(x: nat)
    ensures x % WORD % 256 == x % 256
  {
    var q, r := x / WORD, x % WORD;
    assert x == 256 * (q * 0x100_0000_0000_0000) + r;
  }

  lemma PolynomialOfTwo(s: seq<byte>, c: byte, d: byte)
    ensures Polynomial(s + [c, d]) == 1089 * Polynomial(s) + 33 * c + d
  {
    assert s + [c, d] == (s + [c]) + [d];
    PolynomialSnoc(s, c);
    PolynomialSnoc(s + [c], d);
  }

  lemma OneTurnLater(x: nat)
    ensures (x + 256) % WORD % 256 == x % WORD % 256
  {
    WordThenByte(x);
    WordThenByte(x + 256);
  }

  /** Two keys that differ in their last two bytes and share a bucket of 256. */
  lemma KeysCollide(prefix: seq<byte>)
    ensures Index(prefix + [0, 0], 256) == Index(prefix + [1, 223], 256)
  {
    PolynomialOfTwo(prefix, 0, 0);
    PolynomialOfTwo(prefix, 1, 223);
    var x, y := Polynomial(prefix + [0, 0]), Polynomial(prefix + [1, 223]);
    assert y == x + 256;
    OneTurnLater(x);
  }

  /** The second of them gets the user of the first. */
  lemma SecondKeyGetsFirstUser(prefix: seq<byte>, first: UserId, second: UserId)
    ensures var puts := [Pair(prefix + [0, 0], first), Pair(prefix + [1, 223], second)];
            Lookup(PutAll(256, puts), prefix + [1, 223]) == Some(first)
  {
    var k, k' := prefix + [0, 0], prefix + [1, 223];
    var puts := [Pair(k, first), Pair(k', second)];
    assert k[|prefix|] == 0 && k'[|prefix|] == 1;
    KeysCollide(prefix);
    var i, one := Index(k', 256), Init(puts);
    assert one == [Pair(k, first)] && Init(one) == [];
    assert FirstInBucket(Init(one), 256, i) == None && FirstPut(Init(one), k') == None;
    assert FirstInBucket(one, 256, i) == Some(Pair(k, first)) && FirstPut(one, k') == None;
    FoundIsFirstPut(256, puts, k');
    HeadIsFirst(256, puts, i);
  }

  // ----- every node is where its hash says, and all are counted -----

  function Total(b: Buckets): nat { if b == [] then 0 else |Last(b)| + Total(Init(b)) }

  lemma {:induction false} TotalUpdate(b: Buckets, i: nat, bucket: seq<Pair>)
    requires i < |b|
    ensures Total(b[i := bucket]) == Total(b) - |b[i]| + |bucket|
  {
    if i == |b| - 1 {
      assert Init(b[i := bucket]) == Init(b);
    } else {
      assert Init(b[i := bucket]) == Init(b)[i := bucket];
      TotalUpdate(Init(b), i, bucket);
    }
  }

  lemma {:induction false} EmptyTotal(b: Buckets)
    requires forall i :: 0 <= i < |b| ==> b[i] == []
    ensures Total(b) == 0
  {
    if b == [] {
    } else {
      EmptyTotal(Init(b));
    }
  }

  lemma {:induction false} NodesAreInPlace(capacity: nat, puts: seq<Pair>, i: nat)
    requires i < capacity
    ensures forall p :: p in PutAll(capacity, puts)[i] ==> Index(p.key, capacity) == i && p in puts
  {
    if puts == [] {
    } else {
      NodesAreInPlace(capacity, Init(puts), i);
      assert puts == Init(puts) + [Last(puts)];
    }
  }

  // ----- the table on the heap -----

  class Entry {
    const key: Uuid
    const value: UserId
    var next: Entry?

    constructor (key: Uuid, value: UserId)
      ensures this.key == key && this.value == value && next == null
    {
      this.key, this.value, next := key, value, null;
    }
  }

  function Contents(chain: seq<Entry>): (b: seq<Pair>)
    ensures |b| == |chain| && forall i :: 0 <= i < |chain| ==> b[i] == Pair(chain[i].key, chain[i].value)
  {
    seq(|chain|, i requires 0 <= i < |chain| => Pair(chain[i].key, chain[i].value))
  }

  function AllContents(chains: seq<seq<Entry>>): (b: Buckets)
    ensures |b| == |chains| && forall i :: 0 <= i < |chains| ==> b[i] == Contents(chains[i])
  {
    seq(|chains|, i requires 0 <= i < |chains| => Contents(chains[i]))
  }

  class Table {
    const capacity: nat
    const entries: array<Entry?>
    var count: nat
    ghost var chains: seq<seq<Entry>>
    ghost var place: map<Entry, (nat, nat)>   // bucket and position of every node
    ghost var log: seq<Pair>                  // everything put so far

    ghost predicate NodeOk(i: nat, k: nat)
      requires i < |chains| && k < |chains[i]|
      reads `chains, `place, place.Keys
    {
      var n := chains[i][k];
      n in place && place[n] == (i, k) && n.next == if k + 1 < |chains[i]| then chains[i][k + 1] else null
    }

    /** The slot heads its chain, each node points to the next one, the last to null; a node has one
        place, so chains are acyclic and disjoint. */
    ghost predicate ChainOk(i: nat)
      requires i < |chains| == entries.Length
      reads `chains, `place, entries, place.Keys
    {
      entries[i] == (if chains[i] == [] then null else chains[i][0])
      && forall k :: 0 <= k < |chains[i]| ==> NodeOk(i, k)
    }

    ghost function Buckets(): (b: Buckets)
      reads `chains
    {
      AllContents(chains)
    }

    ghost predicate Valid()
      reads `count, `chains, `place, entries, place.Keys
    {
      capacity == entries.Length == |chains| > 0 && count == Total(Buckets())
      && forall i :: 0 <= i < capacity ==> ChainOk(i)
    }

    /** The buckets are what the puts so far leave. */
    ghost predicate Logged()
      reads `chains, `log
    {
      capacity > 0 && Buckets() == PutAll(capacity, log)
    }

    /** umap_init */
    constructor (capacity: nat)
      requires capacity > 0
      ensures Valid() && fresh(entries) && this.capacity == capacity && place == map[]
      ensures log == [] && Logged()
    {
      this.capacity := capacity;
      entries := new Entry?[capacity](_ => null);
      count := 0;
      chains := seq(capacity, _ => []);
      place := map[];
      log := [];
      new;
      EmptyTotal(Buckets());
    }

    method KeyToIndex(key: Uuid) returns (i: nat)
      requires capacity > 0
      ensures i == Index(key, capacity)
    {
      var h := HashOf(key);
      i := h % capacity;
    }

    ghost predicate NodeLinked(i: nat, k: nat, node: Entry)
      requires i < |chains| && k < |chains[i]|
      reads `chains, `place, place.Keys
    {
      var n := chains[i][k];
      n in place && place[n] == (i, k) && n.next == if k + 1 < |chains[i]| then chains[i][k + 1] else node
    }

    /** The chain of bucket i, with the new node linked behind its last one. */
    ghost predicate Linked(i: nat, node: Entry)
      requires i < |chains| == entries.Length
      reads `chains, `place, entries, place.Keys
    {
      entries[i] == (if chains[i] == [] then node else chains[i][0])
      && forall k :: 0 <= k < |chains[i]| ==> NodeLinked(i, k, node)
    }

    /** Count a linked node in. */
    method CountIn(i: nat, node: Entry)
      requires i < capacity == entries.Length == |chains| && count == Total(Buckets())
      requires node !in place && node.next == null && Linked(i, node)
      requires forall m :: 0 <= m < capacity && m != i ==> ChainOk(m)
      modifies this
      ensures log == old(log)
      ensures Valid() && place.Keys == old(place.Keys) + {node}
      ensures Buckets() == old(Buckets())[i := old(Buckets())[i] + [Pair(node.key, node.value)]]
    {
      ghost var was, chain, b := chains[i], chains[i] + [node], Buckets();
      count := count + 1;
      place := place[node := (i, |was|)];
      chains := chains[i := chain];
      assert Contents(chain) == b[i] + [Pair(node.key, node.value)];
      assert Buckets() == b[i := Contents(chain)];
      TotalUpdate(b, i, Contents(chain));
      forall k | 0 <= k < |chain| ensures NodeOk(i, k) {
        if k < |was| { assert old(NodeLinked(i, k, node)); }
      }
      forall m | 0 <= m < capacity && m != i ensures ChainOk(m) {
        assert old(ChainOk(m));
        forall k | 0 <= k < |chains[m]| ensures NodeOk(m, k) { assert old(NodeOk(m, k)); }
      }
    }

    /** The empty slot takes the node. */
    method LinkAtHead(i: nat, node: Entry)
      requires Valid() && i < capacity && chains[i] == [] && node !in place && node.next == null
      modifies this, entries
      ensures log == old(log)
      ensures Valid() && place.Keys == old(place.Keys) + {node}
      ensures Buckets() == old(Buckets())[i := old(Buckets())[i] + [Pair(node.key, node.value)]]
    {
      entries[i] := node;
      forall m | 0 <= m < capacity && m != i ensures ChainOk(m) {
        assert old(ChainOk(m));
        forall k | 0 <= k < |chains[m]| ensures NodeOk(m, k) { assert old(NodeOk(m, k)); }
      }
      CountIn(i, node);
    }

    /** Walk to the end of the chain and link the node there. */
    method LinkAtTail(i: nat, node: Entry)
      requires Valid() && i < capacity && chains[i] != [] && node !in place && node.next == null
      modifies this, place.Keys
      ensures log == old(log)
      ensures Valid() && place.Keys == old(place.Keys) + {node}
      ensures Buckets() == old(Buckets())[i := old(Buckets())[i] + [Pair(node.key, node.value)]]
    {
      assert ChainOk(i) && NodeOk(i, 0);
      var cur := entries[i];
      ghost var last := 0;
      while cur.next != null
        invariant last < |chains[i]| && cur == chains[i][last] && NodeOk(i, last)
        decreases |chains[i]| - last
      {
        cur := cur.next;
        last := last + 1;
        assert NodeOk(i, last);
      }
      cur.next := node;
      forall k | 0 <= k < |chains[i]| ensures NodeLinked(i, k, node) { assert old(NodeOk(i, k)); }
      forall m | 0 <= m < capacity && m != i ensures ChainOk(m) {
        assert old(ChainOk(m));
        forall k | 0 <= k < |chains[m]| ensures NodeOk(m, k) { assert old(NodeOk(m, k)); }
      }
      CountIn(i, node);
    }

    /** umap_put, with `next` of a new entry null. */
    method Put(key: Uuid, value: UserId) returns (ret: int)
      requires Valid()
      modifies this, entries, place.Keys
      ensures Valid() && fresh(place.Keys - old(place.Keys))
      ensures Buckets() == PutPair(old(Buckets()), Pair(key, value))
      ensures log == old(log) + [Pair(key, value)] && (old(Logged()) ==> Logged())
      ensures ret == if HeadHas(old(Buckets())[Index(key, capacity)], key) then -1 else 0
    {
      log := log + [Pair(key, value)];
      assert Init(log) == old(log);
      var idx := KeyToIndex(key);
      var node := new Entry(key, value);
      assert ChainOk(idx);
      if entries[idx] == null {
        LinkAtHead(idx, node);
        return 0;
      }
      if entries[idx].key == key { return -1; }
      LinkAtTail(idx, node);
      return 0;
    }

    /** umap_get: the value handed back is always that of the first node of the bucket. */
    method Get(key: Uuid) returns (out: Option<UserId>)
      requires Valid()
      ensures out == Lookup(Buckets(), key)
      ensures Logged() ==> (out.Some? <==> exists p :: p in log && p.key == key)
    {
      hide Total, Index, PutAll;
      var idx := KeyToIndex(key);
      assert ChainOk(idx);
      if Logged() { GetFindsExactlyThePut(capacity, log, key); }
      if entries[idx] == null { return None; }
      if entries[idx].key == key { return Some(entries[idx].value); }
      ghost var bucket := Buckets()[idx];
      var cur := entries[idx];
      ghost var k := 0;
      while cur != null
        invariant if cur == null then k == |chains[idx]| else k < |chains[idx]| && cur == chains[idx][k]
        invariant Find(bucket[k..], key) == Find(bucket, key)
        decreases |chains[idx]| - k
      {
        assert NodeOk(idx, k) && bucket[k..][0] == bucket[k] && bucket[k..][1..] == bucket[k + 1..];
        if cur.key == key { return Some(entries[idx].value); }
        cur := cur.next;
        k := k + 1;
      }
      assert bucket[k..] == [];
      return None;
    }
  }
}

/** Chunks, their digests, and what writing one does to a file. */
module Chunks {
  import opened Common
  import opened ChunkCount

  type Checksum = seq<byte>

  datatype ChunkHdr = ChunkHdr(seqNo: nat, startByte: nat, endByte: int, length: nat, checksum: Checksum)

  datatype Chunk = Chunk(hdr: ChunkHdr, data: seq<byte>)

  /** One file being transferred: its bytes, the chunk count both ends use, and the digest function. */
  datatype Job = Job(src: seq<byte>, count: nat, digest: seq<byte> -> Checksum)

  /** Every counted chunk has at least one byte (see ChunkCount.ChunksIsExactOrOneLess). */
  predicate ValidJob(j: Job) {
    j.count > 0 ==> (j.count - 1) * CHUNK_SIZE < |j.src|
  }

  /** The digest the receiver computes agrees with the one in the chunk header. */
  predicate Intact(digest: seq<byte> -> Checksum, c: Chunk) {
    c.hdr.length <= |c.data| && digest(c.data[..c.hdr.length]) == c.hdr.checksum
  }

  lemma IntactFits(digest: seq<byte> -> Checksum, c: Chunk)
    requires Intact(digest, c)
    ensures c.hdr.length <= |c.data|
  {
  }

  /** Chunk number i of the file, as the layout of the protocol defines it. */
  function ChunkAt(j: Job, i: nat): Chunk
    requires i * CHUNK_SIZE < |j.src|
  {
    var lo, hi := i * CHUNK_SIZE, Min((i + 1) * CHUNK_SIZE, |j.src|);
    var data := j.src[lo..hi];
    Chunk(ChunkHdr(i, lo, hi - 1, hi - lo, j.digest(data)), data)
  }

  /** A regular file after `data` is written at offset `off`: holes read as zero, a tail stays. */
  function WriteAt(file: seq<byte>, off: nat, data: seq<byte>): seq<byte> {
    if data == [] then file
    else if |file| < off then file + seq(off - |file|, _ => 0) + data
    else file[..off] + data + file[Min(off + |data|, |file|)..]
  }

  /** The bytes before the write offset, holes included, and those behind the written stretch. */
  function Head(file: seq<byte>, off: nat): (h: seq<byte>)
    ensures |h| == off
  {
    if |file| < off then file + seq(off - |file|, _ => 0) else file[..off]
  }

  function Rest(file: seq<byte>, off: nat): seq<byte> {
    file[Min(off, |file|)..]
  }

  lemma WriteSplits(file: seq<byte>, off: nat, data: seq<byte>)
    requires data != []
    ensures WriteAt(file, off, data) == Head(file, off) + data + Rest(file, off + |data|)
  {
  }

  lemma RestAfterWrite(file: seq<byte>, off: nat, a: seq<byte>, n: nat)
    requires a != []
    ensures Rest(WriteAt(file, off, a), off + |a| + n) == Rest(file, off + |a| + n)
  {
    WriteSplits(file, off, a);
    var front := Head(file, off) + a;
    assert |front| == off + |a|;
    assert Rest(front + Rest(file, off + |a|), off + |a| + n) == Rest(Rest(file, off + |a|), n);
  }

  /** Two writes that meet are one write. */
  lemma WritesMerge(file: seq<byte>, off: nat, a: seq<byte>, b: seq<byte>)
    ensures WriteAt(WriteAt(file, off, a), off + |a|, b) == WriteAt(file, off, a + b)
  {
    if a == [] {
      assert a + b == b;
    } else if b == [] {
      assert a + b == a;
    } else {
      var once := WriteAt(file, off, a);
      WriteSplits(file, off, a);
      WriteSplits(once, off + |a|, b);
      WriteSplits(file, off, a + b);
      RestAfterWrite(file, off, a, |b|);
      assert Head(once, off + |a|) == Head(file, off) + a;
      assert Head(file, off) + a + b == Head(file, off) + (a + b);
    }
  }

  /** A hole holds zeros, which is right where the source has zeros. */
  lemma HeadOfPrefixIff(src: seq<byte>, have: nat, lo: nat)
    requires have <= |src| && lo <= |src|
    ensures Head(src[..have], lo) == src[..lo] <==> forall i :: have <= i < lo ==> src[i] == 0
  {
    var head := Head(src[..have], lo);
    if forall i :: have <= i < lo ==> src[i] == 0 { assert head == src[..lo]; }
    if head == src[..lo] {
      forall i | have <= i < lo ensures src[i] == 0 { assert head[i] == src[..lo][i]; }
    }
  }

  /** The destination once bytes [lo, hi) of the source have been written into `was`. */
  function Patched(was: seq<byte>, src: seq<byte>, lo: nat, hi: nat): seq<byte>
    requires hi <= |src|
  {
    if lo >= hi then was else WriteAt(was, lo, src[lo..hi])
  }

  lemma PatchGrows(was: seq<byte>, src: seq<byte>, lo: nat, mid: nat, hi: nat)
    requires lo <= mid <= hi <= |src|
    ensures WriteAt(Patched(was, src, lo, mid), mid, src[mid..hi]) == Patched(was, src, lo, hi)
  {
    if lo == mid {
      assert Patched(was, src, lo, mid) == was;
    } else {
      var a, b := src[lo..mid], src[mid..hi];
      assert a + b == src[lo..hi];
      assert Patched(was, src, lo, mid) == WriteAt(was, lo, a);
      WritesMerge(was, lo, a, b);
    }
  }

  /** Inside the stretch the destination has the source's bytes; outside it is as it was, with zeros
      in a hole before it. */
  lemma PatchEffect(was: seq<byte>, src: seq<byte>, lo: nat, hi: nat)
    requires lo < hi <= |src|
    ensures var p := Patched(was, src, lo, hi);
            && |p| == Max(|was|, hi) && p[lo..hi] == src[lo..hi]
            && p[..Min(lo, |was|)] == was[..Min(lo, |was|)] && p[hi..] == was[Min(hi, |was|)..]
            && forall i :: |was| <= i < lo ==> p[i] == 0
  {
    assert |src[lo..hi]| == hi - lo;
  }

  /** If the destination agreed with the source before lo, it agrees up to hi, and keeps an old tail. */
  lemma PatchAgrees(was: seq<byte>, src: seq<byte>, lo: nat, hi: nat)
    requires lo <= hi <= |src| && lo <= |was| && was[..lo] == src[..lo]
    ensures Patched(was, src, lo, hi) == src[..hi] + was[Min(hi, |was|)..]
  {
    assert src[..lo] + src[lo..hi] == src[..hi];
    if lo == hi { assert was == was[..lo] + was[lo..]; }
  }

  /** The headers of consecutive chunks tile the file: each starts where the previous one ended. */
  lemma ChunksTile(j: Job, i: nat)
    requires i * CHUNK_SIZE < |j.src|
    ensures var c := ChunkAt(j, i);
            c.hdr.startByte == i * CHUNK_SIZE && c.hdr.endByte == c.hdr.startByte + c.hdr.length - 1
            && 0 < c.hdr.length <= CHUNK_SIZE && |c.data| == c.hdr.length && Intact(j.digest, c)
            && c.data == j.src[c.hdr.startByte..c.hdr.endByte + 1]
    ensures (i + 1) * CHUNK_SIZE < |j.src| ==>
              ChunkAt(j, i).hdr.endByte + 1 == ChunkAt(j, i + 1).hdr.startByte
    ensures (i + 1) * CHUNK_SIZE >= |j.src| ==> ChunkAt(j, i).hdr.endByte + 1 == |j.src|
  {
    var c := ChunkAt(j, i);
    assert c.data[..c.hdr.length] == c.data;
  }

  function Covered(j: Job): nat { Min(j.count * CHUNK_SIZE, |j.src|) }

  /** The job both ends of a transfer agree on: the sender counts, and tells the receiver. */
  function JobOf(src: seq<byte>, digest: seq<byte> -> Checksum): Job {
    Job(src, CountedChunks(|src|), digest)
  }

  lemma JobIsValid(src: seq<byte>, digest: seq<byte> -> Checksum)
    requires |src| < 0x10_0000_0000
    ensures ValidJob(JobOf(src, digest))
    ensures Covered(JobOf(src, digest)) == |src| <==> !LosesTail(|src|)
  {
    ChunksIsExactOrOneLess(|src|);
  }

  /** checksums_match: byte by byte, stopping at the first difference. */
  method ChecksumsMatch(a: array<byte>, b: array<byte>) returns (same: bool)
    requires a.Length == b.Length == 32
    ensures same <==> a[..] == b[..]
  {
    for i := 0 to 32
      invariant a[..i] == b[..i]
    {
      if a[i] != b[i] { return false; }
    }
    assert a[..] == a[..32] && b[..] == b[..32];
    return true;
  }
}

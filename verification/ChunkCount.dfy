/** How many chunks a file has, as the program computes it: the size goes through a binary32
    `float` before it is divided by the chunk size (src/file.c, src/client.c). */
module ChunkCount {

  const CHUNK_SIZE: nat := 4096
  const SIGNIFICANDS: nat := 0x100_0000   // 2^24: binary32 has 24 significand bits

  function Pow2(e: nat): (p: nat)
    ensures p >= 1
  {
    if e == 0 then 1 else 2 * Pow2(e - 1)
  }

  /** Exponent of the spacing between the binary32 numbers around n. */
  function Exponent(n: nat): nat {
    if n < SIGNIFICANDS then 0 else 1 + Exponent(n / 2)
  }

  function Spacing(n: nat): nat {
    Pow2(Exponent(n))
  }

  /** Conversion of an integer to binary32, round to nearest, ties to even. */
  function ToFloat(n: nat): nat {
    var u := Spacing(n);
    var rest := n % u;
    var low := n - rest;
    if 2 * rest < u || (2 * rest == u && n / u % 2 == 0) then low else low + u
  }

  /** ceil((float) size / CHUNK_SIZE): division by a power of two is exact. */
  function CountedChunks(size: nat): nat {
    (ToFloat(size) + CHUNK_SIZE - 1) / CHUNK_SIZE
  }

  /** floor((float) size / CHUNK_SIZE), the chunk at which a download asks to resume. */
  function ResumeChunk(size: nat): nat {
    ToFloat(size) / CHUNK_SIZE
  }

  /** The chunks the file really has. */
  function ExactChunks(size: nat): nat {
    (size + CHUNK_SIZE - 1) / CHUNK_SIZE
  }

  // ----- the rounding is the one of IEEE 754-2019, section 4.3.1 -----

  ghost predicate IsFloat(y: nat, m: nat, e: nat) {
    m < SIGNIFICANDS && y == m * Pow2(e)
  }

  ghost predicate Representable(y: nat) {
    exists m: nat, e: nat :: IsFloat(y, m, e)
  }

  lemma {:induction false} SpacingBounds(n: nat)
    ensures n < SIGNIFICANDS * Spacing(n)
    ensures n >= SIGNIFICANDS ==> SIGNIFICANDS / 2 * Spacing(n) <= n
  {
    if n < SIGNIFICANDS {
    } else {
      SpacingBounds(n / 2);
      if n / 2 < SIGNIFICANDS {
        assert Spacing(n) == 2 * Spacing(n / 2) == 2;
      }
    }
  }

  lemma Associate(a: nat, b: nat, c: nat)
    ensures a * (b * c) == (a * b) * c
  {
  }

  lemma {:induction false} Pow2Splits(a: nat, b: nat)
    ensures Pow2(a + b) == Pow2(a) * Pow2(b)
  {
    if a == 0 {
    } else {
      Pow2Splits(a - 1, b);
      Associate(2, Pow2(a - 1), Pow2(b));
    }
  }

  function Gap(a: nat, b: nat): nat { if a <= b then b - a else a - b }

  lemma TimesIsMonotone(a: nat, b: nat, u: nat)
    requires a <= b
    ensures a * u <= b * u
  {
  }

  lemma QuotientOfMultiple(q: nat, u: nat)
    requires u > 0
    ensures q * u / u == q
  {
    var d := q * u / u;
    assert q * u == d * u + q * u % u;
    if d < q { TimesIsMonotone(d + 1, q, u); }
    if d > q { TimesIsMonotone(q + 1, d, u); }
  }

  /** Between two neighbouring multiples of u there is no third one. */
  lemma MultiplesAreApart(n: nat, u: nat, k: nat, y: nat)
    requires u > 0 && y == k * u
    ensures y <= n - n % u || n - n % u + u <= y
  {
    var q := n / u;
    assert q * u == n - n % u;
    if k <= q { TimesIsMonotone(k, q, u); } else { TimesIsMonotone(q + 1, k, u); }
  }

  lemma CoarseFloat(n: nat, m: nat, e: nat, y: nat)
    requires e >= Exponent(n) && y == m * Pow2(e)
    ensures y <= n - n % Spacing(n) || n - n % Spacing(n) + Spacing(n) <= y
  {
    var x, u := Exponent(n), Spacing(n);
    Pow2Splits(e - x, x);
    var f := Pow2(e - x);
    Associate(m, f, u);
    MultiplesAreApart(n, u, m * f, y);
  }

  lemma FineFloat(n: nat, m: nat, e: nat, y: nat)
    requires m < SIGNIFICANDS && e < Exponent(n) && y == m * Pow2(e)
    ensures y <= n - n % Spacing(n)
  {
    var d, u := Exponent(n) - 1 - e, Spacing(n);
    Pow2Splits(d, e);
    TimesIsMonotone(1, Pow2(d), Pow2(e));
    var p := Pow2(e);
    assert 2 * p <= u;
    TimesIsMonotone(m, SIGNIFICANDS, p);
    var h := SIGNIFICANDS / 2;
    SpacingBounds(n);
    MultiplesAreApart(n, u, h, h * u);
  }

  lemma ToFloatIsRepresentable(n: nat)
    ensures Representable(ToFloat(n))
  {
    var u := Spacing(n);
    var q := n / u;
    assert q * u == n - n % u;
    SpacingBounds(n);
    if q >= SIGNIFICANDS { TimesIsMonotone(SIGNIFICANDS, q, u); assert false; }
    if ToFloat(n) == q * u {
      assert IsFloat(ToFloat(n), q, Exponent(n));
    } else {
      assert ToFloat(n) == (q + 1) * u;
      if q + 1 < SIGNIFICANDS {
        assert IsFloat(ToFloat(n), q + 1, Exponent(n));
      } else {
        var h := SIGNIFICANDS / 2;
        assert Pow2(Exponent(n) + 1) == 2 * u;
        assert IsFloat(ToFloat(n), h, Exponent(n) + 1);
      }
    }
  }

  /** On a tie the chosen neighbour has an even significand. */
  lemma TieGoesToEven(n: nat)
    requires 2 * (n % Spacing(n)) == Spacing(n)
    ensures ToFloat(n) / Spacing(n) % 2 == 0
  {
    var u := Spacing(n);
    var q := n / u;
    assert q * u == n - n % u;
    assert (q + 1) * u == n - n % u + u;
    QuotientOfMultiple(q, u);
    QuotientOfMultiple(q + 1, u);
  }

  lemma FloatsAreCoarse(n: nat, y: nat)
    requires Representable(y)
    ensures y <= n - n % Spacing(n) || n - n % Spacing(n) + Spacing(n) <= y
  {
    var m: nat, e: nat :| IsFloat(y, m, e);
    if e >= Exponent(n) { CoarseFloat(n, m, e, y); } else { FineFloat(n, m, e, y); }
  }

  /** No binary32 number is closer to n than ToFloat(n). */
  lemma ToFloatIsNearest(n: nat, y: nat)
    requires Representable(y)
    ensures Gap(ToFloat(n), n) <= Gap(y, n)
    ensures Gap(ToFloat(n), n) == Gap(y, n) && y != ToFloat(n) ==> 2 * (n % Spacing(n)) == Spacing(n)
  {
    FloatsAreCoarse(n, y);
  }

  // ----- the chunk count against the real number of chunks -----

  /** The spacing of each binade below 2^36; it always divides the chunk size. */
  lemma {:induction false} SpacingBelow(n: nat, k: nat)
    requires n < SIGNIFICANDS * Pow2(k)
    ensures Exponent(n) <= k
  {
    if n < SIGNIFICANDS {
    } else {
      SpacingBelow(n / 2, k - 1);
    }
  }

  function Pow2Table(k: nat): nat
    requires k <= 12
  {
    [1, 2, 4, 8, 16, 32, 64, 128, 256, 512, 1024, 2048, 4096][k]
  }

  lemma {:induction false} Pow2IsTable(k: nat)
    requires k <= 12
    ensures Pow2(k) == Pow2Table(k)
  {
    if k == 0 {
    } else {
      Pow2IsTable(k - 1);
    }
  }

  lemma SpacingIsSmall(n: nat)
    requires n < 0x10_0000_0000
    ensures Exponent(n) <= 12 && Spacing(n) == Pow2Table(Exponent(n))
    ensures n < 0x4_0000_0000 ==> Exponent(n) <= 10
    ensures n <= SIGNIFICANDS ==> Exponent(n) <= 1
  {
    Pow2IsTable(12);
    Pow2IsTable(10);
    SpacingBelow(n, 12);
    if n < 0x4_0000_0000 { SpacingBelow(n, 10); }
    Pow2IsTable(Exponent(n));
  }

  /** The size rounds down to a chunk boundary although bytes follow that boundary. */
  predicate LosesTail(size: nat) {
    var tail, u := size % CHUNK_SIZE, Spacing(size);
    tail > 0 && (2 * tail < u || (2 * tail == u && size / u % 2 == 0))
  }

  lemma QuotientIs(n: nat, u: nat, q: nat)
    requires u > 0 && q * u <= n < q * u + u
    ensures n % u == n - q * u
  {
    var d := n / u;
    assert n == d * u + n % u;
    if d < q { TimesIsMonotone(d + 1, q, u); }
    if d > q { TimesIsMonotone(q + 1, d, u); }
  }

  lemma RestInsideChunk(n: nat, u: nat, c: nat)
    requires u > 0 && u * c == CHUNK_SIZE
    ensures n % u == n % CHUNK_SIZE % u
  {
    var k, tail := n / CHUNK_SIZE, n % CHUNK_SIZE;
    var q := tail / u;
    Associate(k, c, u);
    assert n == (k * c + q) * u + tail % u;
    QuotientIs(n, u, k * c + q);
  }

  lemma MultiplesInsideChunk(t: nat, u: nat, c: nat)
    requires u > 0 && u * c == CHUNK_SIZE && t < CHUNK_SIZE
    ensures t == t % u || t - t % u >= u
    ensures t - t % u + u == CHUNK_SIZE || t - t % u + 2 * u <= CHUNK_SIZE
  {
    var q := t / u;
    assert q * u == t - t % u;
    if q > 0 { TimesIsMonotone(1, q, u); }
    if q >= c { TimesIsMonotone(c, q, u); assert false; }
    if q + 1 < c { TimesIsMonotone(q + 2, c, u); }
  }

  lemma SpacingDividesChunk(n: nat)
    requires n < 0x10_0000_0000
    ensures Exponent(n) <= 12 && Spacing(n) * Pow2(12 - Exponent(n)) == CHUNK_SIZE
  {
    SpacingIsSmall(n);
    Pow2Splits(Exponent(n), 12 - Exponent(n));
    Pow2IsTable(12);
  }

  /** The size rounds up to a chunk boundary it does not reach. */
  predicate GainsTail(size: nat) {
    var missing, u := CHUNK_SIZE - size % CHUNK_SIZE, Spacing(size);
    2 * missing < u || (2 * missing == u && size / u % 2 == 1)
  }

  /** Rounding moves a size at most to the chunk boundary below or above it. */
  lemma RoundingStaysInChunk(n: nat)
    requires n < 0x10_0000_0000
    ensures var lo := n - n % CHUNK_SIZE;
            lo <= ToFloat(n) <= lo + CHUNK_SIZE &&
            (ToFloat(n) == lo <==> n % CHUNK_SIZE == 0 || LosesTail(n)) &&
            (ToFloat(n) == lo + CHUNK_SIZE <==> GainsTail(n))
  {
    SpacingDividesChunk(n);
    var u, c, t := Spacing(n), Pow2(12 - Exponent(n)), n % CHUNK_SIZE;
    RestInsideChunk(n, u, c);
    MultiplesInsideChunk(t, u, c);
  }

  lemma CeilingOf(size: nat, f: nat)
    requires size - size % CHUNK_SIZE <= f <= size - size % CHUNK_SIZE + CHUNK_SIZE
    ensures (f + CHUNK_SIZE - 1) / CHUNK_SIZE
            == size / CHUNK_SIZE + (if f == size - size % CHUNK_SIZE then 0 else 1)
  {
  }

  /** The main result on counts: below 2^36 bytes the program counts every chunk, except that it
      drops the last one exactly when the size rounds down onto the chunk boundary below it. */
  lemma ChunksIsExactOrOneLess(size: nat)
    requires size < 0x10_0000_0000
    ensures CountedChunks(size) == ExactChunks(size) - (if LosesTail(size) then 1 else 0)
    ensures LosesTail(size) ==> CountedChunks(size) * CHUNK_SIZE == size - size % CHUNK_SIZE < size
    ensures !LosesTail(size) ==> size <= CountedChunks(size) * CHUNK_SIZE
  {
    RoundingStaysInChunk(size);
    CeilingOf(size, ToFloat(size));
    CeilingOf(size, size);
  }

  /** What is lost is at most half a float spacing: no byte up to 2^24, 512 bytes below 2^34. */
  lemma LossIsSmall(size: nat)
    requires size < 0x10_0000_0000
    ensures size - CountedChunks(size) * CHUNK_SIZE <= Spacing(size) / 2
    ensures size < 0x4_0000_0000 ==> size - CountedChunks(size) * CHUNK_SIZE <= 512
    ensures size <= SIGNIFICANDS ==> CountedChunks(size) == ExactChunks(size)
  {
    ChunksIsExactOrOneLess(size);
    SpacingIsSmall(size);
    Pow2IsTable(10);
  }

  lemma {:induction false} ExponentAtLeast(n: nat, k: nat)
    requires SIGNIFICANDS * Pow2(k) <= n
    ensures Exponent(n) > k
  {
    if k == 0 {
    } else {
      ExponentAtLeast(n / 2, k - 1);
    }
  }

  lemma MultipleOfChunk(q: nat, u: nat, f: nat, x: nat)
    requires u == f * CHUNK_SIZE && x == q * u
    ensures x % CHUNK_SIZE == 0
  {
    Associate(q, f, CHUNK_SIZE);
  }

  lemma RoundedIsWhole(size: nat)
    requires 0x10_0000_0000 <= size
    ensures ToFloat(size) % CHUNK_SIZE == 0
  {
    Pow2IsTable(12);
    ExponentAtLeast(size, 12);
    var e, u := Exponent(size), Spacing(size);
    Pow2Splits(e - 12, 12);
    var q, low := size / u, size - size % u;
    assert q * u == low;
    MultipleOfChunk(q, u, Pow2(e - 12), low);
    assert (q + 1) * u == low + u;
    MultipleOfChunk(q + 1, u, Pow2(e - 12), low + u);
  }

  lemma CeilingOfWhole(size: nat, f: nat)
    requires f % CHUNK_SIZE == 0
    ensures (f + CHUNK_SIZE - 1) / CHUNK_SIZE * CHUNK_SIZE == f
    ensures (f + CHUNK_SIZE - 1) / CHUNK_SIZE == ExactChunks(size) <==> size <= f < size + CHUNK_SIZE
  {
  }

  /** From 2^36 bytes on the float itself is a whole number of chunks, and the count is that number:
      it is right exactly when the float is at or above the size, by less than a chunk. */
  lemma LargeFiles(size: nat)
    requires 0x10_0000_0000 <= size
    ensures CountedChunks(size) * CHUNK_SIZE == ToFloat(size)
    ensures CountedChunks(size) == ExactChunks(size) <==> size <= ToFloat(size) < size + CHUNK_SIZE
  {
    RoundedIsWhole(size);
    CeilingOfWhole(size, ToFloat(size));
  }

  lemma FloatAtMostDouble(n: nat)
    ensures ToFloat(n) <= 2 * n
  {
    SpacingBounds(n);
    if n >= SIGNIFICANDS { TimesIsMonotone(1, SIGNIFICANDS / 2, Spacing(n)); }
  }

  lemma LargeFloatIsPositive(size: nat)
    requires 0x10_0000_0000 <= size
    ensures ToFloat(size) > 0
  {
    SpacingBounds(size);
    TimesIsMonotone(1, SIGNIFICANDS / 2, Spacing(size));
  }

  /** 2^24 + 1 bytes: the last byte belongs to no chunk. */
  lemma LastByteLost()
    ensures CountedChunks(0x100_0001) == 4096 && ExactChunks(0x100_0001) == 4097
  {
    assert Spacing(0x100_0001) == 2;
  }

  /** The size goes up to the next float. */
  predicate RoundsUp(size: nat) {
    var rest, u := size % Spacing(size), Spacing(size);
    2 * rest > u || (2 * rest == u && size / u % 2 == 1)
  }

  /** A download of which `size` bytes are there resumes behind them. */
  predicate ResumesPast(size: nat) {
    if size < 0x10_0000_0000 then GainsTail(size) else RoundsUp(size)
  }

  lemma RoundsUpIff(size: nat)
    ensures ToFloat(size) > size <==> RoundsUp(size)
  {
  }

  lemma SmallSizesAreFloats(size: nat)
    requires size < SIGNIFICANDS
    ensures Spacing(size) == 1 && !GainsTail(size)
  {
  }

  lemma FloorOf(size: nat, f: nat)
    requires size - size % CHUNK_SIZE <= f <= size - size % CHUNK_SIZE + CHUNK_SIZE
    ensures f / CHUNK_SIZE == size / CHUNK_SIZE + (if f == size - size % CHUNK_SIZE + CHUNK_SIZE then 1 else 0)
  {
  }

  /** A download resumes inside the bytes it already has, unless the local size rounds up: onto the
      next chunk boundary below 2^36 bytes, at all from there on. */
  lemma ResumeChunkIsCovered(size: nat)
    ensures ResumeChunk(size) * CHUNK_SIZE <= size <==> !ResumesPast(size)
    ensures size < 0x10_0000_0000 ==> ResumeChunk(size) == size / CHUNK_SIZE + (if GainsTail(size) then 1 else 0)
    ensures size >= 0x10_0000_0000 ==> ResumeChunk(size) * CHUNK_SIZE == ToFloat(size)
    ensures size < SIGNIFICANDS ==> !ResumesPast(size)
  {
    hide ToFloat, Spacing, Exponent, GainsTail, RoundsUp;
    if size < 0x10_0000_0000 {
      RoundingStaysInChunk(size);
      FloorOf(size, ToFloat(size));
      if size < SIGNIFICANDS { SmallSizesAreFloats(size); }
    } else {
      RoundedIsWhole(size);
      RoundsUpIff(size);
    }
  }

  /** 4097 chunks less one byte: the download resumes behind a byte it does not have. */
  lemma ResumeSkipsAByte()
    ensures ResumeChunk(0x100_0FFF) == 4097
  {
    assert Spacing(0x100_0FFF) == 2;
  }

  lemma {:induction false} ExponentOfPower(k: nat)
    ensures Exponent(SIGNIFICANDS * Pow2(k)) == k + 1
  {
    var n := SIGNIFICANDS * Pow2(k);
    if k == 0 {
      assert Exponent(n / 2) == 0;
    } else {
      ExponentOfPower(k - 1);
      assert n / 2 == SIGNIFICANDS * Pow2(k - 1) && n >= SIGNIFICANDS;
    }
  }

  lemma PowerIsFloat(k: nat)
    ensures ToFloat(SIGNIFICANDS * Pow2(k)) == SIGNIFICANDS * Pow2(k)
  {
    ExponentOfPower(k);
    var n, u := SIGNIFICANDS * Pow2(k), Pow2(k + 1);
    var h := SIGNIFICANDS / 2;
    assert n == h * u;
    QuotientIs(n, u, h);
  }
}

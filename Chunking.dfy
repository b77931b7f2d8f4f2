/**
 * How the pooled-chunked solver splits the rows below the pivot into jobs:
 * the chunk size, and the pieces `chunks_mut(chunk_size)` cuts from
 * `A[norm_row+1..]` and `B[norm_row+1..]`, written as absolute row ranges.
 */
module Chunking {

  /** No chunk handed to a job is smaller than this, unless it is the last piece of the range. */
  const MIN_CHUNK_SIZE: nat := 16

  /**
   * The chunk size of round `normRow` of an order-n system on `totalThreads`
   * workers: max(MIN_CHUNK_SIZE, (n - normRow) / totalThreads).
   */
  function ChunkSize(n: nat, normRow: nat, totalThreads: nat): (size: nat)
    requires normRow <= n && 1 <= totalThreads
    ensures MIN_CHUNK_SIZE <= size && (n - normRow) / totalThreads <= size
    ensures size == MIN_CHUNK_SIZE || size == (n - normRow) / totalThreads
  {
    if (n - normRow) / totalThreads < MIN_CHUNK_SIZE then MIN_CHUNK_SIZE else (n - normRow) / totalThreads
  }

  /** The half-open row range lo .. hi-1. */
  datatype Span = Span(lo: nat, hi: nat)

  /**
   * The ranges tile lo .. hi-1: each is non-empty and at most `size` long,
   * each starts where the previous one ended, every one but the last is
   * exactly `size` long, and together they run from lo to hi.
   */
  ghost predicate Tiles(cs: seq<Span>, lo: nat, hi: nat, size: nat) {
    && (cs == [] <==> lo == hi)
    && (cs != [] ==> cs[0].lo == lo && cs[|cs| - 1].hi == hi)
    && (forall k :: 0 <= k < |cs| ==> cs[k].lo < cs[k].hi <= cs[k].lo + size)
    && (forall k :: 0 <= k < |cs| - 1 ==> cs[k].hi == cs[k + 1].lo && cs[k].hi == cs[k].lo + size)
  }

  /** The pieces `chunks_mut(size)` cuts from the rows lo .. hi-1, in order. */
  function Chunks(lo: nat, hi: nat, size: nat): seq<Span>
    requires lo <= hi && 0 < size
    decreases hi - lo
  {
    if lo == hi then []
    else
      var end := if hi - lo <= size then hi else lo + size;
      [Span(lo, end)] + Chunks(end, hi, size)
  }

  /** The pieces tile the range: disjoint, contiguous, covering, each `size` long but the last. */
  lemma {:induction false} ChunksTile(lo: nat, hi: nat, size: nat)
    requires lo <= hi && 0 < size
    ensures Tiles(Chunks(lo, hi, size), lo, hi, size)
    decreases hi - lo
  {
    if lo < hi {
      var end := if hi - lo <= size then hi else lo + size;
      ChunksTile(end, hi, size);
    }
  }

  /**
   * The k-th piece, one at a time: it lies inside the range, the next piece
   * starts where it ends, and the last piece ends at hi.
   */
  lemma ChunkAt(lo: nat, hi: nat, size: nat, k: nat)
    requires lo <= hi && 0 < size && k < |Chunks(lo, hi, size)|
    ensures var cs := Chunks(lo, hi, size);
      && lo <= cs[k].lo < cs[k].hi <= hi
      && (k + 1 < |cs| ==> cs[k + 1].lo == cs[k].hi)
      && (k + 1 == |cs| ==> cs[k].hi == hi)
  {
    ChunksTile(lo, hi, size);
    TileWithin(Chunks(lo, hi, size), lo, hi, size, k);
  }

  /** The first piece starts at lo, and there is none exactly when the range is empty. */
  lemma ChunksStart(lo: nat, hi: nat, size: nat)
    requires lo <= hi && 0 < size
    ensures Chunks(lo, hi, size) == [] <==> lo == hi
    ensures Chunks(lo, hi, size) != [] ==> Chunks(lo, hi, size)[0].lo == lo
  {
  }

  /** Every piece but the last is `size` rows long, so the pieces before the last cover less than the range. */
  lemma {:induction false} ChunksCount(lo: nat, hi: nat, size: nat)
    requires lo < hi && 0 < size
    ensures (|Chunks(lo, hi, size)| - 1) * size < hi - lo
    decreases hi - lo
  {
    if size < hi - lo {
      var c := |Chunks(lo + size, hi, size)|;
      ChunksCount(lo + size, hi, size);
      assert |Chunks(lo, hi, size)| == c + 1;
      assert (c - 1) * size + size == c * size;
    }
  }

  /**
   * The number of jobs one round of the pooled solver issues: the rows below
   * the pivot cut into pieces of `ChunkSize` rows make at most 2·totalThreads
   * pieces.
   */
  lemma JobsPerRound(n: nat, normRow: nat, totalThreads: nat)
    requires normRow < n && 1 <= totalThreads
    ensures |Chunks(normRow + 1, n, ChunkSize(n, normRow, totalThreads))| <= 2 * totalThreads
  {
    var size := ChunkSize(n, normRow, totalThreads);
    if normRow + 1 < n {
      ChunksCount(normRow + 1, n, size);
      var d := n - normRow;
      DivBelow(d, totalThreads);
      PiecesBelowTwiceThreads(|Chunks(normRow + 1, n, size)|, size, d, totalThreads, d / totalThreads);
    }
  }

  /**
   * The arithmetic behind the job count: fewer than d rows in c - 1 full
   * pieces of `size`, and d below t * (q + 1) with q + 1 <= 2 * size, leave
   * at most 2 * t pieces.
   */
  lemma PiecesBelowTwiceThreads(c: nat, size: nat, d: nat, t: nat, q: nat)
    requires 1 <= c && (c - 1) * size < d && d < t * (q + 1) && q + 1 <= 2 * size
    ensures c <= 2 * t
  {
    ScaleLeft(q + 1, 2 * size, t);
    TwiceProduct(t, size);
    if 2 * t < c {
      ScaleLeft(2 * t, c - 1, size);
      assert false;
    }
  }

  /** d lies below the next multiple of t after t * (d / t). */
  lemma DivBelow(d: nat, t: nat)
    requires 0 < t
    ensures d < t * (d / t + 1)
  {
    assert d == t * (d / t) + d % t;
    assert t * (d / t + 1) == t * (d / t) + t;
  }

  /** t * (2 * s) and s * (2 * t) are the same product. */
  lemma TwiceProduct(t: nat, s: nat)
    ensures t * (2 * s) == s * (2 * t) == 2 * (t * s)
  {
  }

  /** Multiplying both sides of a <= b by the same natural number keeps the order. */
  lemma {:induction false} ScaleLeft(a: nat, b: nat, k: nat)
    requires a <= b
    ensures k * a <= k * b
    decreases k
  {
    if 0 < k {
      ScaleLeft(a, b, k - 1);
      assert k * a == (k - 1) * a + a;
      assert k * b == (k - 1) * b + b;
    }
  }

  /** Row i lies in the range sp. */
  predicate InSpan(sp: Span, i: nat) {
    sp.lo <= i < sp.hi
  }

  /** Tiling ranges are pairwise disjoint and in ascending order: an earlier one ends before a later one starts. */
  lemma {:induction false} TilesAscend(cs: seq<Span>, lo: nat, hi: nat, size: nat, k: nat, l: nat)
    requires Tiles(cs, lo, hi, size) && k < l < |cs|
    ensures cs[k].hi <= cs[l].lo
    decreases l - k
  {
    if k + 1 < l {
      TilesAscend(cs, lo, hi, size, k + 1, l);
    }
  }

  /** Every tiling range lies inside lo .. hi-1. */
  lemma TileWithin(cs: seq<Span>, lo: nat, hi: nat, size: nat, k: nat)
    requires Tiles(cs, lo, hi, size) && k < |cs|
    ensures lo <= cs[k].lo && cs[k].hi <= hi
  {
    if 0 < k {
      TilesAscend(cs, lo, hi, size, 0, k);
    }
    if k < |cs| - 1 {
      TilesAscend(cs, lo, hi, size, k, |cs| - 1);
    }
  }

  /** Without their first range, tiling ranges tile the rest of the rows. */
  lemma TilesRest(cs: seq<Span>, lo: nat, hi: nat, size: nat)
    requires Tiles(cs, lo, hi, size) && cs != []
    ensures Tiles(cs[1..], cs[0].hi, hi, size)
  {
    if 2 < |cs| {
      TilesAscend(cs, lo, hi, size, 1, |cs| - 1);
    }
  }

  /** Every row of lo .. hi-1, and no other row, lies in one of the tiling ranges. */
  lemma {:induction false} TilesCover(cs: seq<Span>, lo: nat, hi: nat, size: nat, i: nat)
    requires Tiles(cs, lo, hi, size)
    ensures lo <= i < hi <==> exists k :: 0 <= k < |cs| && InSpan(cs[k], i)
    decreases |cs|
  {
    if cs != [] {
      var rest := cs[1..];
      TilesRest(cs, lo, hi, size);
      TilesCover(rest, cs[0].hi, hi, size, i);
      TileWithin(cs, lo, hi, size, 0);
      if exists k :: 1 <= k < |cs| && InSpan(cs[k], i) {
        var k :| 1 <= k < |cs| && InSpan(cs[k], i);
        assert InSpan(rest[k - 1], i);
      }
      if lo <= i < hi && !InSpan(cs[0], i) {
        var k :| 0 <= k < |rest| && InSpan(rest[k], i);
        assert InSpan(cs[k + 1], i);
      }
    }
  }

  /** No row lies in two tiling ranges. */
  lemma TilesDisjoint(cs: seq<Span>, lo: nat, hi: nat, size: nat, i: nat)
    requires Tiles(cs, lo, hi, size)
    ensures forall k, l :: 0 <= k < |cs| && 0 <= l < |cs| && InSpan(cs[k], i) && InSpan(cs[l], i) ==> k == l
  {
    forall k, l | 0 <= k < |cs| && 0 <= l < |cs| && InSpan(cs[k], i) && InSpan(cs[l], i)
      ensures k == l
    {
      if k < l {
        TilesAscend(cs, lo, hi, size, k, l);
      } else if l < k {
        TilesAscend(cs, lo, hi, size, l, k);
      }
    }
  }

  /**
   * `zip` of the A pieces (rows lo .. hiA-1) with the B pieces (lo .. hiB-1,
   * hiA <= hiB): there are no more A pieces than B pieces, and the k-th A
   * piece starts where the k-th B piece does and is no longer; with hiA ==
   * hiB they are the same ranges.
   */
  lemma ChunksZip(lo: nat, hiA: nat, hiB: nat, size: nat)
    requires lo <= hiA <= hiB && 0 < size
    ensures |Chunks(lo, hiA, size)| <= |Chunks(lo, hiB, size)|
    ensures forall k :: 0 <= k < |Chunks(lo, hiA, size)| ==>
              Chunks(lo, hiA, size)[k].lo == Chunks(lo, hiB, size)[k].lo &&
              Chunks(lo, hiA, size)[k].hi <= Chunks(lo, hiB, size)[k].hi
  {
    ChunksCountZip(lo, hiA, hiB, size);
    forall k | 0 <= k < |Chunks(lo, hiA, size)|
      ensures Chunks(lo, hiA, size)[k].lo == Chunks(lo, hiB, size)[k].lo
      ensures Chunks(lo, hiA, size)[k].hi <= Chunks(lo, hiB, size)[k].hi
    {
      ChunkZipAt(lo, hiA, hiB, size, k);
    }
  }

  /** A shorter range is cut into no more pieces. */
  lemma {:induction false} ChunksCountZip(lo: nat, hiA: nat, hiB: nat, size: nat)
    requires lo <= hiA <= hiB && 0 < size
    ensures |Chunks(lo, hiA, size)| <= |Chunks(lo, hiB, size)|
    decreases hiA - lo
  {
    if lo < hiA {
      var endA := if hiA - lo <= size then hiA else lo + size;
      var endB := if hiB - lo <= size then hiB else lo + size;
      if endA == endB {
        ChunksCountZip(endA, hiA, hiB, size);
      }
    }
  }

  /** The k-th piece of a shorter range starts where the k-th piece of a longer one does, and is no longer. */
  lemma {:induction false} ChunkZipAt(lo: nat, hiA: nat, hiB: nat, size: nat, k: nat)
    requires lo <= hiA <= hiB && 0 < size && k < |Chunks(lo, hiA, size)|
    ensures k < |Chunks(lo, hiB, size)|
    ensures Chunks(lo, hiA, size)[k].lo == Chunks(lo, hiB, size)[k].lo
    ensures Chunks(lo, hiA, size)[k].hi <= Chunks(lo, hiB, size)[k].hi
    decreases k
  {
    var endA := if hiA - lo <= size then hiA else lo + size;
    var endB := if hiB - lo <= size then hiB else lo + size;
    if 0 < k {
      assert endA == endB;
      ChunkZipAt(endA, hiA, hiB, size, k - 1);
    }
  }
}

/**
  The chunk partitioner of `run_in_parallel`.

  A call over a range of `rangeSize` elements either processes every index on the
  calling thread, in order, or cuts `[0, rangeSize)` into consecutive chunks and
  enqueues one job per chunk on the thread pool. A `Plan` records both outcomes: the
  indices visited on the caller and the chunks enqueued. The pool itself (its workers,
  queue, mutex and condition variables) is not part of this model.
*/
module Parallel {
  import opened Integers

  /** `std::distance` yields a signed 64-bit difference, so a range has fewer than 2^63 elements. */
  const MAX_RANGE: nat := 0x8000_0000_0000_0000

  /** The half-open index range `[lo, hi)` a job processes. */
  datatype Chunk = Chunk(lo: nat, hi: nat)

  /** What one call does: indices processed on the calling thread, then jobs enqueued, in order. */
  datatype Plan = Plan(onCaller: seq<nat>, queued: seq<Chunk>)

  /** The indices `lo, lo + 1, ..., hi - 1`. */
  function Iota(lo: nat, hi: nat): (s: seq<nat>)
    ensures |s| == if lo <= hi then hi - lo else 0
    ensures forall i :: 0 <= i < |s| ==> s[i] == lo + i
  {
    if hi <= lo then [] else seq(hi - lo, i requires 0 <= i < hi - lo => lo + i)
  }

  /** The indices the jobs for `cs` process, one job after the other. */
  function Flatten(cs: seq<Chunk>): seq<nat>
  {
    if cs == [] then [] else Iota(cs[0].lo, cs[0].hi) + Flatten(cs[1..])
  }

  /** `schedule_factor * pool.num_workers()` as a `uint64` product. */
  function NumChunks(scheduleFactor: nat, workers: nat): (k: nat)
    ensures k < U64
    ensures scheduleFactor * workers < U64 ==> k == scheduleFactor * workers
  {
    (scheduleFactor * workers) % U64
  }

  /**
    The chunk size: `rangeSize / k`, raised to `minChunk` when smaller. Unraised, it is the
    largest size of which `k` chunks fit in the range; raised, `k` chunks of it would
    overrun the range.
  */
  function ChunkSize(rangeSize: nat, k: nat, minChunk: nat): (c: nat)
    requires k > 0 && minChunk > 0
    ensures c >= minChunk
    ensures rangeSize / k >= minChunk ==> c * k <= rangeSize < (c + 1) * k
    ensures rangeSize / k < minChunk ==> c == minChunk && rangeSize < c * k
  {
    var c := rangeSize / k;
    if c < minChunk then
      assert rangeSize < (c + 1) * k;
      assert (c + 1) * k <= minChunk * k;
      minChunk
    else
      c
  }

  /**
    The chunks the enqueueing loop produces from `idx_begin = lo`: each runs to
    `min(lo + c, n)` and the next starts where it ends.
  */
  function Chunks(lo: nat, n: nat, c: nat): (cs: seq<Chunk>)
    requires lo <= n && c > 0
    ensures cs == [] <==> lo == n
    ensures |cs| <= n - lo
    decreases n - lo
  {
    if lo == n then [] else [Chunk(lo, Min(lo + c, n))] + Chunks(Min(lo + c, n), n, c)
  }

  /** The preconditions of `run_in_parallel`, with the `uint64` and `uint32` widths of its operands. */
  predicate Admissible(rangeSize: nat, workers: nat, scheduleFactor: nat, minChunk: nat)
    ensures Admissible(rangeSize, workers, scheduleFactor, minChunk) ==>
      rangeSize + rangeSize < U64 && (rangeSize > 0 ==> scheduleFactor * workers % U64 > 0)
  {
    && rangeSize < MAX_RANGE && workers < U32
    && 0 < scheduleFactor < U64 && 0 < minChunk < U64
    && (rangeSize > 0 ==> NumChunks(scheduleFactor, workers) > 0)
  }

  /** What `run_in_parallel` does for a range of `rangeSize` elements. */
  function PlanOf(rangeSize: nat, workers: nat, scheduleFactor: nat, minChunk: nat): (p: Plan)
    requires Admissible(rangeSize, workers, scheduleFactor, minChunk)
    ensures p.onCaller == [] || p.queued == []
    ensures rangeSize > 0 <==> p.onCaller != [] || p.queued != []
  {
    if rangeSize == 0 then Plan([], [])
    else
      var c := ChunkSize(rangeSize, NumChunks(scheduleFactor, workers), minChunk);
      if rangeSize <= c then Plan(Iota(0, rangeSize), [])
      else Plan([], Chunks(0, rangeSize, c))
  }

  // ---------------------------------------------------------------------------
  // The chunks

  /** The chunks from `lo` lie in `[lo, n)`, are non-empty, hold at most `c` indices, and are in order. */
  lemma {:induction false} ChunksOrdered(lo: nat, n: nat, c: nat)
    requires lo <= n && c > 0
    ensures forall k :: 0 <= k < |Chunks(lo, n, c)| ==>
      lo <= Chunks(lo, n, c)[k].lo < Chunks(lo, n, c)[k].hi <= n
      && Chunks(lo, n, c)[k].hi - Chunks(lo, n, c)[k].lo <= c
    ensures forall k, k' :: 0 <= k < k' < |Chunks(lo, n, c)| ==>
      Chunks(lo, n, c)[k].hi <= Chunks(lo, n, c)[k'].lo
    decreases n - lo
  {
    if lo < n {
      var next := Min(lo + c, n);
      ChunksOrdered(next, n, c);
      var cs := Chunks(lo, n, c);
      assert cs[1..] == Chunks(next, n, c);
      forall k, k' | 0 <= k < k' < |cs| ensures cs[k].hi <= cs[k'].lo {
        if k > 0 {
          assert cs[k] == cs[1..][k - 1] && cs[k'] == cs[1..][k' - 1];
        } else {
          assert cs[k'] == cs[1..][k' - 1];
        }
      }
    }
  }

  /**
    The chunks tile `[lo, n)`: the first starts at `lo`, each one ends where the next
    begins, the last ends at `n`, and every chunk but the last holds exactly `c` indices.
  */
  lemma {:induction false} ChunksTile(lo: nat, n: nat, c: nat)
    requires lo <= n && c > 0
    ensures var cs := Chunks(lo, n, c);
      && (lo < n ==> |cs| > 0 && cs[0].lo == lo && cs[|cs| - 1].hi == n)
      && (forall k :: 0 <= k < |cs| - 1 ==> cs[k].hi == cs[k + 1].lo && cs[k].hi - cs[k].lo == c)
    decreases n - lo
  {
    if lo < n {
      var next := Min(lo + c, n);
      ChunksTile(next, n, c);
      var cs := Chunks(lo, n, c);
      assert cs[1..] == Chunks(next, n, c);
      forall k | 0 <= k < |cs| - 1 ensures cs[k].hi == cs[k + 1].lo && cs[k].hi - cs[k].lo == c {
        if k > 0 {
          assert cs[k] == cs[1..][k - 1] && cs[k + 1] == cs[1..][k];
        }
      }
    }
  }

  /** Run one job after another in enqueueing order, the chunks visit `lo, ..., n - 1`. */
  lemma {:induction false} ChunksCover(lo: nat, n: nat, c: nat)
    requires lo <= n && c > 0
    ensures Flatten(Chunks(lo, n, c)) == Iota(lo, n)
    decreases n - lo
  {
    if lo < n {
      var next := Min(lo + c, n);
      var cs := Chunks(lo, n, c);
      assert cs[1..] == Chunks(next, n, c);
      ChunksCover(next, n, c);
      IotaSplit(lo, next, n);
    }
  }

  /** The indices of `[lo, hi)` are those of `[lo, mid)` followed by those of `[mid, hi)`. */
  lemma IotaSplit(lo: nat, mid: nat, hi: nat)
    requires lo <= mid <= hi
    ensures Iota(lo, hi) == Iota(lo, mid) + Iota(mid, hi)
  {
  }

  /** Each index of `[lo, n)` lies in exactly one chunk, whatever order the workers run the jobs in. */
  lemma ChunksPartition(lo: nat, n: nat, c: nat, i: nat)
    requires lo <= i < n && c > 0
    ensures exists k :: 0 <= k < |Chunks(lo, n, c)| && Chunks(lo, n, c)[k].lo <= i < Chunks(lo, n, c)[k].hi
    ensures forall k, k' ::
      (0 <= k < |Chunks(lo, n, c)| && 0 <= k' < |Chunks(lo, n, c)|
       && Chunks(lo, n, c)[k].lo <= i < Chunks(lo, n, c)[k].hi
       && Chunks(lo, n, c)[k'].lo <= i < Chunks(lo, n, c)[k'].hi) ==> k == k'
  {
    var cs := Chunks(lo, n, c);
    ChunksOrdered(lo, n, c);
    ChunksTile(lo, n, c);
    var k := 0;
    while cs[k].hi <= i
      invariant 0 <= k < |cs| && cs[k].lo <= i
      decreases |cs| - k
    {
      k := k + 1;
    }
  }

  /** There are `ceil((n - lo) / c)` chunks. */
  lemma {:induction false} ChunkCount(lo: nat, n: nat, c: nat)
    requires lo <= n && c > 0
    ensures |Chunks(lo, n, c)| == (n - lo + c - 1) / c
    decreases n - lo
  {
    if lo < n {
      var next := Min(lo + c, n);
      ChunkCount(next, n, c);
      if lo + c < n {
        DivStep(n - next + c - 1, c);
      } else {
        DivBelow(n - lo + c - 1, c, 1);
        DivBelow(n - lo + c - 1, c, 2);
      }
    }
  }

  /** Adding `c` to the dividend adds one to the quotient. */
  lemma DivStep(x: nat, c: nat)
    requires c > 0
    ensures (x + c) / c == x / c + 1
  {
    DivBelow(x, c, x / c + 1);
    DivBelow(x + c, c, x / c + 2);
    DivBelow(x + c, c, x / c + 1);
    DivBelow(x, c, x / c);
  }

  /**
    `x / c < m` exactly when `x < m * c`: the arithmetic behind the chunk count bounds.
  */
  lemma DivBelow(x: nat, c: nat, m: nat)
    requires c > 0
    ensures x / c < m <==> x < m * c
  {
    if x / c < m {
      assert x < (x / c + 1) * c;
      assert (x / c + 1) * c <= m * c;
    } else {
      assert m * c <= (x / c) * c <= x;
    }
  }

  // ---------------------------------------------------------------------------
  // The plan

  /**
    Every index of the range is processed exactly once: on the calling thread, in order,
    when the range fits in one chunk, and otherwise by exactly one enqueued job.
  */
  lemma PlanCoversRange(rangeSize: nat, workers: nat, scheduleFactor: nat, minChunk: nat)
    requires Admissible(rangeSize, workers, scheduleFactor, minChunk)
    ensures var p := PlanOf(rangeSize, workers, scheduleFactor, minChunk);
      p.onCaller + Flatten(p.queued) == Iota(0, rangeSize)
    ensures var p := PlanOf(rangeSize, workers, scheduleFactor, minChunk);
      p.onCaller == [] || p.queued == []
  {
    if rangeSize > 0 {
      var c := ChunkSize(rangeSize, NumChunks(scheduleFactor, workers), minChunk);
      if rangeSize > c {
        ChunksCover(0, rangeSize, c);
      }
    }
  }

  /**
    When jobs are enqueued there are at least two of them, each holds at least
    `min_chunk_size` indices except possibly the last, and the loop's `idx_end + chunk_size`
    never wraps around 2^64.
  */
  lemma QueuedChunksShape(rangeSize: nat, workers: nat, scheduleFactor: nat, minChunk: nat)
    requires Admissible(rangeSize, workers, scheduleFactor, minChunk)
    ensures var p := PlanOf(rangeSize, workers, scheduleFactor, minChunk);
      p.queued != [] ==>
        && |p.queued| >= 2
        && (forall k :: 0 <= k < |p.queued| - 1 ==> p.queued[k].hi - p.queued[k].lo >= minChunk)
        && (forall k :: 0 <= k < |p.queued| ==> p.queued[k].hi + (p.queued[0].hi - p.queued[0].lo) < U64)
  {
    var p := PlanOf(rangeSize, workers, scheduleFactor, minChunk);
    if p.queued != [] {
      var c := ChunkSize(rangeSize, NumChunks(scheduleFactor, workers), minChunk);
      ChunksTile(0, rangeSize, c);
      ChunksOrdered(0, rangeSize, c);
      ChunkCount(0, rangeSize, c);
      DivBelow(rangeSize + c - 1, c, 2);
      assert p.queued[0].hi == c;
    }
  }

  /**
    How many jobs are enqueued, against `k = schedule_factor * num_workers`: at least `k`
    when the chunk size was not raised to the minimum, at most `k` when it was, and never
    more than `2k - 1`. So the range can be cut into more chunks than `k`.
  */
  lemma QueuedChunkCount(rangeSize: nat, workers: nat, scheduleFactor: nat, minChunk: nat)
    requires Admissible(rangeSize, workers, scheduleFactor, minChunk)
    ensures var p := PlanOf(rangeSize, workers, scheduleFactor, minChunk);
      var k := NumChunks(scheduleFactor, workers);
      p.queued != [] ==>
        && |p.queued| <= 2 * k - 1
        && (rangeSize / k >= minChunk ==> |p.queued| >= k)
        && (rangeSize / k < minChunk ==> |p.queued| <= k)
  {
    var p := PlanOf(rangeSize, workers, scheduleFactor, minChunk);
    if p.queued != [] {
      var k := NumChunks(scheduleFactor, workers);
      var c := ChunkSize(rangeSize, k, minChunk);
      ChunkCount(0, rangeSize, c);
      CeilAtMostTwice(rangeSize, c, k);
      if rangeSize / k >= minChunk {
        CeilAtLeast(rangeSize, c, k);
      } else {
        CeilAtMost(rangeSize, c, k);
      }
    }
  }

  /** Below `(c + 1) * k`, at most `2k - 1` pieces of size `c` are needed. */
  lemma CeilAtMostTwice(n: nat, c: nat, k: nat)
    requires c > 0 && k > 0 && n < (c + 1) * k
    ensures (n + c - 1) / c <= 2 * k - 1
  {
    ProductAtLeastSum(c, k);
    assert (c + 1) * k == c * k + k;
    assert (2 * k) * c == c * k + c * k;
    DivBelow(n + c - 1, c, 2 * k);
  }

  /** For positive `c` and `k`, `c * k + 1 >= c + k`: each step of `k` past 1 adds `c >= 1`. */
  lemma {:induction false} ProductAtLeastSum(c: nat, k: nat)
    requires c > 0 && k > 0
    ensures c * k + 1 >= c + k
    decreases k
  {
    if k > 1 {
      ProductAtLeastSum(c, k - 1);
      assert c * k == c * (k - 1) + c;
    }
  }

  /** From `c * k` on, at least `k` pieces of size `c` are needed. */
  lemma CeilAtLeast(n: nat, c: nat, k: nat)
    requires c > 0 && c * k <= n
    ensures (n + c - 1) / c >= k
  {
    DivBelow(n + c - 1, c, k);
  }

  /** Below `c * k`, at most `k` pieces of size `c` are needed. */
  lemma CeilAtMost(n: nat, c: nat, k: nat)
    requires c > 0 && n < c * k
    ensures (n + c - 1) / c <= k
  {
    assert (k + 1) * c == k * c + c;
    DivBelow(n + c - 1, c, k + 1);
  }

  /** Seven elements on four workers with the default factors are cut into seven one-element chunks. */
  lemma MoreChunksThanWorkers()
    ensures |PlanOf(7, 4, 1, 1).queued| == 7
  {
    assert ChunkSize(7, 4, 1) == 1;
    ChunkCount(0, 7, 1);
  }

  // ---------------------------------------------------------------------------
  // The loops

  /** A job's body: `func` applied to each index of its chunk, in order. */
  method RunChunk(ch: Chunk) returns (visited: seq<nat>)
    requires ch.lo <= ch.hi
    ensures visited == Iota(ch.lo, ch.hi)
  {
    visited := [];
    var it := ch.lo;
    while it != ch.hi
      invariant ch.lo <= it <= ch.hi
      invariant visited == Iota(ch.lo, it)
      decreases ch.hi - it
    {
      visited := visited + [it];
      it := it + 1;
    }
  }

  /**
    `run_in_parallel(pool, begin, end, func, schedule_factor, min_chunk_size)` on a range of
    `rangeSize` elements and a pool of `workers` threads.
  */
  method RunInParallel(rangeSize: nat, workers: nat, scheduleFactor: nat, minChunk: nat) returns (p: Plan)
    requires Admissible(rangeSize, workers, scheduleFactor, minChunk)
    ensures p == PlanOf(rangeSize, workers, scheduleFactor, minChunk)
  {
    if rangeSize == 0 {
      return Plan([], []);
    }
    var numChunks := NumChunks(scheduleFactor, workers);
    var chunkSize := rangeSize / numChunks;
    if chunkSize < minChunk {
      chunkSize := minChunk;
    }

    if rangeSize <= chunkSize {
      var visited := RunChunk(Chunk(0, rangeSize));
      return Plan(visited, []);
    }

    var queued := Enqueue(rangeSize, chunkSize);
    return Plan([], queued);
  }

  /**
    The enqueueing loop: chunks of `chunkSize` indices from 0, the last one cut at `n`.
    `idx_end + chunk_size` never wraps around in `uint64`.
  */
  method Enqueue(n: nat, chunkSize: nat) returns (queued: seq<Chunk>)
    requires 0 < chunkSize < n < MAX_RANGE
    ensures queued == Chunks(0, n, chunkSize)
  {
    queued := [];
    var idxBegin, idxEnd := 0, chunkSize;
    while idxBegin != n
      invariant idxBegin <= n && idxEnd == Min(idxBegin + chunkSize, n)
      invariant queued + Chunks(idxBegin, n, chunkSize) == Chunks(0, n, chunkSize)
      decreases n - idxBegin
    {
      queued := queued + [Chunk(idxBegin, idxEnd)];
      idxBegin := idxEnd;
      assert idxEnd + chunkSize < U64;
      idxEnd := Min(idxEnd + chunkSize, n);
    }
  }

  /** The overload without factors: `schedule_factor` and `min_chunk_size` are both 1. */
  method RunInParallelDefault(rangeSize: nat, workers: nat) returns (p: Plan)
    requires Admissible(rangeSize, workers, 1, 1)
    ensures p == PlanOf(rangeSize, workers, 1, 1)
    ensures p.onCaller + Flatten(p.queued) == Iota(0, rangeSize)
  {
    p := RunInParallel(rangeSize, workers, 1, 1);
    PlanCoversRange(rangeSize, workers, 1, 1);
  }
}

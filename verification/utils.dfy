/** Integer ranges and fixed-size chunking, used to lay the calendar out in week rows. */
module Utils {

  /** Concatenation of a sequence of sequences, front to back. */
  function Flatten<T>(xss: seq<seq<T>>): seq<T>
  {
    if |xss| == 0 then [] else xss[0] + Flatten(xss[1..])
  }

  /** The first `n` elements of `xs`, or all of them when there are fewer (what `splice(0, n)` removes). */
  function Take<T>(xs: seq<T>, n: nat): (r: seq<T>)
    ensures |r| == if |xs| < n then |xs| else n
    ensures r <= xs
  {
    if |xs| < n then xs else xs[..n]
  }

  /** What `splice(0, n)` leaves in the array. */
  function Drop<T>(xs: seq<T>, n: nat): (r: seq<T>)
    ensures Take(xs, n) + r == xs
  {
    if |xs| < n then [] else xs[n..]
  }

  /**
    * A split of `xs` into consecutive groups: concatenated they give `xs` back,
    * every group but the last has exactly `size` elements, and the last one is
    * non-empty and at most `size` long.
    */
  ghost predicate IsChunking<T>(chunks: seq<seq<T>>, xs: seq<T>, size: int)
  {
    && Flatten(chunks) == xs
    && (forall i :: 0 <= i < |chunks| - 1 ==> |chunks[i]| == size)
    && (|chunks| > 0 ==> 0 < |chunks[|chunks| - 1]| <= size)
  }

  /** Reference definition of the chunks of `xs`: take `size`, repeat on the rest. */
  function Chunks<T>(xs: seq<T>, size: nat): seq<seq<T>>
    requires size >= 1
    decreases |xs|
  {
    if |xs| == 0 then [] else [Take(xs, size)] + Chunks(Drop(xs, size), size)
  }

  /** The reference chunks meet the chunking contract. */
  lemma {:induction false} ChunksIsChunking<T>(xs: seq<T>, size: nat)
    requires size >= 1
    ensures IsChunking(Chunks(xs, size), xs, size)
    decreases |xs|
  {
    if |xs| > 0 {
      var rest := Chunks(Drop(xs, size), size);
      ChunksIsChunking(Drop(xs, size), size);
      var c := Chunks(xs, size);
      assert c == [Take(xs, size)] + rest;
      assert c[1..] == rest;
      if |rest| == 0 {
        assert Drop(xs, size) == [];
      } else {
        assert |Drop(xs, size)| > 0;
        assert |Take(xs, size)| == size;
      }
    }
  }

  /** The chunking contract determines the chunks: any split meeting it is the reference one. */
  lemma {:induction false} ChunkingIsUnique<T>(chunks: seq<seq<T>>, xs: seq<T>, size: nat)
    requires size >= 1
    requires IsChunking(chunks, xs, size)
    ensures chunks == Chunks(xs, size)
    decreases |chunks|
  {
    if |chunks| == 0 {
      assert xs == [];
    } else if |chunks| == 1 {
      assert Flatten(chunks) == chunks[0] + Flatten(chunks[1..]);
      assert chunks[0] == xs;
      assert Drop(xs, size) == [];
      assert Chunks(xs, size) == [xs] + Chunks([], size);
    } else {
      ChunkingTail(chunks, xs, size);
      ChunkingIsUnique(chunks[1..], Drop(xs, size), size);
      assert chunks == [chunks[0]] + chunks[1..];
    }
  }

  /** A chunking of two or more groups starts with the first `size` elements and chunks the rest. */
  lemma ChunkingTail<T>(chunks: seq<seq<T>>, xs: seq<T>, size: nat)
    requires size >= 1
    requires |chunks| >= 2
    requires IsChunking(chunks, xs, size)
    ensures chunks[0] == Take(xs, size)
    ensures IsChunking(chunks[1..], Drop(xs, size), size)
  {
    var tail := chunks[1..];
    assert Flatten(chunks) == chunks[0] + Flatten(tail);
    assert |chunks[0]| == size;
    assert chunks[0] == xs[..size];
    assert Flatten(tail) == xs[size..];
    assert tail[|tail| - 1] == chunks[|chunks| - 1];
  }

  /**
    * An input whose length is `k` times the chunk size splits into `k` full
    * chunks, chunk `r` holding elements `size * r` to `size * r + size - 1`.
    */
  lemma {:induction false} ChunksOfMultiple<T>(xs: seq<T>, size: nat, k: nat)
    requires size >= 1
    requires |xs| == size * k
    ensures |Chunks(xs, size)| == k
    ensures forall r :: 0 <= r < k ==> |Chunks(xs, size)[r]| == size
    ensures forall r, j :: 0 <= r < k && 0 <= j < size && size * r + j < |xs| ==>
              Chunks(xs, size)[r][j] == xs[size * r + j]
    decreases k
  {
    if k > 0 {
      var rest := xs[size..];
      assert |rest| == size * (k - 1);
      ChunksOfMultiple(rest, size, k - 1);
      ChunksStep(xs, size);
      ConsChunk(xs, rest, Chunks(rest, size), size, k);
    } else {
      assert xs == [];
    }
  }

  /** One step of the reference chunking: the first `size` elements, then the chunks of the rest. */
  lemma ChunksStep<T>(xs: seq<T>, size: nat)
    requires 1 <= size <= |xs|
    ensures Chunks(xs, size) == [xs[..size]] + Chunks(xs[size..], size)
  {
    assert Drop(xs, size) == xs[size..];
  }

  /** Row `r` of the whole starts one row further on than row `r - 1` of the rest. */
  lemma RowShift(size: int, r: int, j: int)
    ensures size + (size * (r - 1) + j) == size * r + j
  {
  }

  /** Putting the first `size` elements in front of the chunks of the rest gives the chunks of the whole. */
  lemma ConsChunk<T>(xs: seq<T>, rest: seq<T>, tail: seq<seq<T>>, size: nat, k: nat)
    requires size >= 1 && k > 0 && |xs| == size * k && rest == xs[size..]
    requires |tail| == k - 1
    requires forall r :: 0 <= r < k - 1 ==> |tail[r]| == size
    requires forall r, j :: 0 <= r < k - 1 && 0 <= j < size && size * r + j < |rest| ==> tail[r][j] == rest[size * r + j]
    ensures var c := [xs[..size]] + tail;
      && |c| == k
      && (forall r :: 0 <= r < k ==> |c[r]| == size)
      && (forall r, j :: 0 <= r < k && 0 <= j < size && size * r + j < |xs| ==> c[r][j] == xs[size * r + j])
  {
    var c := [xs[..size]] + tail;
    forall r | 0 <= r < k
      ensures |c[r]| == size
    {
      if r > 0 {
        assert c[r] == tail[r - 1];
      }
    }
    forall r, j | 0 <= r < k && 0 <= j < size && size * r + j < |xs|
      ensures c[r][j] == xs[size * r + j]
    {
      if r > 0 {
        var i := size * (r - 1) + j;
        RowShift(size, r, j);
        assert c[r] == tail[r - 1];
        assert tail[r - 1][j] == rest[i];
      }
    }
  }

  /**
    * `chunkArray`: repeatedly splices the first `chunkSize` elements off the
    * input until it is empty. The input array is consumed; `remaining` is what
    * is left of it. A `chunkSize` below 1 never empties a non-empty input, so
    * callers must not combine the two.
    */
  method ChunkArray<T>(input: seq<T>, chunkSize: int) returns (results: seq<seq<T>>, remaining: seq<T>)
    requires |input| == 0 || chunkSize >= 1
    ensures remaining == []
    ensures IsChunking(results, input, chunkSize)
    ensures |input| == 0 ==> results == []
    ensures chunkSize >= 1 ==> results == Chunks(input, chunkSize)
  {
    results := [];
    remaining := input;
    if |input| == 0 {
      return;
    }
    while |remaining| > 0
      invariant results + Chunks(remaining, chunkSize) == Chunks(input, chunkSize)
      decreases |remaining|
    {
      var chunk := Take(remaining, chunkSize);
      assert Chunks(remaining, chunkSize) == [chunk] + Chunks(Drop(remaining, chunkSize), chunkSize);
      results := results + [chunk];
      remaining := Drop(remaining, chunkSize);
    }
    assert Chunks(remaining, chunkSize) == [];
    assert results + [] == results;
    ChunksIsChunking(input, chunkSize);
  }

  /** `range(start, end)`: the integers from `start` to `end`, both included. */
  method Range(start: int, end: int) returns (results: seq<int>)
    ensures |results| == if start <= end then end - start + 1 else 0
    ensures forall i :: 0 <= i < |results| ==> results[i] == start + i
    ensures forall x :: x in results <==> start <= x <= end
    ensures forall i, j :: 0 <= i < j < |results| ==> results[i] < results[j]
    ensures |results| > 0 ==> results[0] == start && results[|results| - 1] == end
  {
    results := [];
    var i := start;
    while i <= end
      invariant start <= i && (i <= end + 1 || i == start)
      invariant |results| == i - start
      invariant forall k :: 0 <= k < |results| ==> results[k] == start + k
    {
      results := results + [i];
      i := i + 1;
    }
    forall x | start <= x <= end
      ensures x in results
    {
      assert results[x - start] == x;
    }
  }
}

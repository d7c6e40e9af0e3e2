/**
 * The batch loop of ingestion: `for i in range(0, len(chunks), BATCH_SIZE)`
 * with `chunks[i:i + BATCH_SIZE]`, where Python's slice clamps its upper
 * bound to the length of the list.
 */
module Batching {

  /** Number of chunks embedded per call (`BATCH_SIZE`). */
  const BatchSize: nat := 32

  function Min(a: int, b: int): int {
    if a <= b then a else b
  }

  /** The batches the loop visits from loop index `i` onwards. */
  function BatchesFrom<T>(xs: seq<T>, i: nat): (bs: seq<seq<T>>)
    ensures bs == [] <==> i >= |xs|
    decreases |xs| - i
  {
    if i >= |xs| then []
    else [xs[i..Min(i + BatchSize, |xs|)]] + BatchesFrom(xs, i + BatchSize)
  }

  /** All batches of `xs`, in loop order. */
  function Batches<T>(xs: seq<T>): (bs: seq<seq<T>>)
    ensures bs == [] <==> xs == []
  {
    BatchesFrom(xs, 0)
  }

  /** The in-order concatenation of a list of batches. */
  function Flatten<T>(bs: seq<seq<T>>): seq<T> {
    if bs == [] then [] else bs[0] + Flatten(bs[1..])
  }

  lemma {:induction false} FlattenAppend<T>(a: seq<seq<T>>, b: seq<seq<T>>)
    ensures Flatten(a + b) == Flatten(a) + Flatten(b)
    decreases |a|
  {
    if a == [] {
      assert a + b == b;
    } else {
      assert (a + b)[1..] == a[1..] + b;
      FlattenAppend(a[1..], b);
    }
  }

  /** From loop index `i` on, the batches cover exactly the rest of `xs`. */
  lemma {:induction false} BatchesFromCover<T>(xs: seq<T>, i: nat)
    requires i <= |xs|
    ensures Flatten(BatchesFrom(xs, i)) == xs[i..]
    ensures forall k :: 0 <= k < |BatchesFrom(xs, i)| ==> 0 < |BatchesFrom(xs, i)[k]| <= BatchSize
    ensures forall k :: 0 <= k < |BatchesFrom(xs, i)| - 1 ==> |BatchesFrom(xs, i)[k]| == BatchSize
    ensures |BatchesFrom(xs, i)| == (|xs| - i + BatchSize - 1) / BatchSize
    decreases |xs| - i
  {
    if i < |xs| {
      var hi := Min(i + BatchSize, |xs|);
      var rest := BatchesFrom(xs, i + BatchSize);
      if i + BatchSize <= |xs| {
        BatchesFromCover(xs, i + BatchSize);
        assert xs[i..] == xs[i..hi] + xs[hi..];
      } else {
        assert rest == [];
      }
      assert BatchesFrom(xs, i)[1..] == rest;
    }
  }

  /**
   * The batches partition the chunk list: each is non-empty and holds at most
   * `BatchSize` chunks, all but the last hold exactly `BatchSize`, there are
   * `ceil(|xs| / BatchSize)` of them, and concatenated in order they give
   * back `xs`.
   */
  lemma BatchesPartition<T>(xs: seq<T>)
    ensures Flatten(Batches(xs)) == xs
    ensures forall k :: 0 <= k < |Batches(xs)| ==> 0 < |Batches(xs)[k]| <= BatchSize
    ensures forall k :: 0 <= k < |Batches(xs)| - 1 ==> |Batches(xs)[k]| == BatchSize
    ensures |Batches(xs)| == (|xs| + BatchSize - 1) / BatchSize
  {
    BatchesFromCover(xs, 0);
  }
}

/** Splitting the records of one file into statements of at most `size` rows (scripts/load.py). */
module Chunking {

  function Min(a: int, b: int): int { if a <= b then a else b }

  /** The concatenation of the chunks, in order. */
  function Flatten<T>(cs: seq<seq<T>>): seq<T>
    decreases |cs|
  {
    if cs == [] then [] else cs[0] + Flatten(cs[1..])
  }

  /**
   * The slices xs[i : i + size] for i in range(0, |xs|, size), Python's slice stopping at the
   * end of the list. For a positive size their concatenation is xs; each is non-empty and at
   * most `size` long; all but the last are exactly `size` long; there are ceil(|xs| / size) of
   * them. A negative step makes the range empty, so there are no chunks; a zero step is an error
   * of `range` itself.
   */
  function Chunks<T>(xs: seq<T>, size: int): (cs: seq<seq<T>>)
    requires size != 0
    ensures size < 0 ==> cs == []
    ensures size > 0 ==> Flatten(cs) == xs
    ensures forall i :: 0 <= i < |cs| ==> 0 < |cs[i]| <= size
    ensures forall i :: 0 <= i < |cs| - 1 ==> |cs[i]| == size
    ensures size > 0 ==> |cs| == (|xs| + size - 1) / size
    decreases |xs|
  {
    if size < 0 || xs == [] then []
    else
      var n := Min(size, |xs|);
      CountStep(|xs|, size);
      [xs[..n]] + Chunks(xs[n..], size)
  }

  lemma {:induction false} MulAtLeast(d: int, m: int)
    requires d > 0 && m >= 1
    ensures d * m >= d
    decreases m
  {
    if m > 1 {
      MulAtLeast(d, m - 1);
      assert d * m == d * (m - 1) + d;
    }
  }

  /** Division is determined by quotient and remainder. */
  lemma DivUnique(a: int, d: int, q: int, r: int)
    requires d > 0 && 0 <= r < d && a == d * q + r
    ensures a / d == q
  {
    var q', r' := a / d, a % d;
    assert a == d * q' + r' && 0 <= r' < d;
    if q' < q {
      assert d * q == d * q' + d * (q - q');
      MulAtLeast(d, q - q');
      assert false;
    } else if q' > q {
      assert d * q' == d * q + d * (q' - q);
      MulAtLeast(d, q' - q);
      assert false;
    }
  }

  /** One chunk fewer for one chunk's worth fewer elements. */
  lemma CountStep(n: nat, size: nat)
    requires size > 0 && n > 0
    ensures (n + size - 1) / size == 1 + (n - Min(size, n) + size - 1) / size
  {
    if n <= size {
      DivUnique(n + size - 1, size, 1, n - 1);
      DivUnique(size - 1, size, 0, size - 1);
    } else {
      var q, r := (n - 1) / size, (n - 1) % size;
      assert n - 1 == size * q + r;
      assert n + size - 1 == size * (q + 1) + r;
      DivUnique(n + size - 1, size, q + 1, r);
    }
  }

  lemma SliceOfSuffix<T>(xs: seq<T>, n: int, a: int, b: int)
    requires 0 <= n <= |xs| && 0 <= a <= b <= |xs| - n
    ensures xs[n..][a..b] == xs[n + a .. n + b]
  {
  }

  /** The chunk at offset (k - 1) * size of xs[size..] is the chunk at offset k * size of xs. */
  lemma ShiftChunk<T>(xs: seq<T>, size: nat, k: nat, c: seq<T>)
    requires 0 < size < |xs| && k > 0
    requires (k - 1) * size < |xs| - size
    requires c == xs[size..][(k - 1) * size .. Min((k - 1) * size + size, |xs| - size)]
    ensures k * size < |xs|
    ensures c == xs[k * size .. Min(k * size + size, |xs|)]
  {
    var j := (k - 1) * size;
    assert k * size == j + size;
    SliceOfSuffix(xs, size, j, Min(j + size, |xs| - size));
  }

  /** The k-th chunk is the slice starting at k * size, as `range(0, len, size)` steps. */
  lemma {:induction false} ChunkAt<T>(xs: seq<T>, size: nat, k: nat)
    requires size > 0 && k < |Chunks(xs, size)|
    ensures k * size < |xs|
    ensures Chunks(xs, size)[k] == xs[k * size .. Min(k * size + size, |xs|)]
    decreases k
  {
    var n := Min(size, |xs|);
    var rest := xs[n..];
    assert Chunks(xs, size) == [xs[..n]] + Chunks(rest, size);
    if k > 0 {
      ChunkAt(rest, size, k - 1);
      ShiftChunk(xs, size, k, Chunks(rest, size)[k - 1]);
    }
  }

  /** Concatenation distributes over appending one more chunk. */
  lemma {:induction false} FlattenSnoc<T>(cs: seq<seq<T>>, c: seq<T>)
    ensures Flatten(cs + [c]) == Flatten(cs) + c
    decreases |cs|
  {
    if cs == [] {
      assert [] + [c] == [c];
    } else {
      FlattenSnoc(cs[1..], c);
      assert (cs + [c])[1..] == cs[1..] + [c];
    }
  }
}

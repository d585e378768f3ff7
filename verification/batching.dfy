/** `batch_generator` (main.py): splitting a list into consecutive slices of at
    most `batch_size` elements, and the facts the index build relies on. */
module Batching {
  import opened Seqs

  /** The batch size `get_vector_store` uses for both texts and metadatas. */
  const BatchSize: nat := 100

  /** The slices `data[i:i + size]` for `i` in `range(0, len(data), size)`,
      in order. `range` with a zero step raises, so `size` is positive. */
  function Batches<T>(data: seq<T>, size: nat): seq<seq<T>>
    requires size > 0
    decreases |data|
  {
    if |data| == 0 then []
    else if |data| <= size then [data]
    else [data[..size]] + Batches(data[size..], size)
  }

  function Min(a: int, b: int): int
  {
    if a <= b then a else b
  }

  /** Concatenating the batches gives back the input exactly, in order. */
  lemma {:induction false} BatchesConcat<T>(data: seq<T>, size: nat)
    requires size > 0
    ensures Flatten(Batches(data, size)) == data
    decreases |data|
  {
    if |data| == 0 {
    } else if |data| <= size {
      assert Flatten([data]) == Flatten([data][..0]) + data;
    } else {
      BatchesConcat(data[size..], size);
      FlattenCons(data[..size], Batches(data[size..], size));
      assert data[..size] + data[size..] == data;
    }
  }

  lemma DivUnique(x: int, n: int, q: int, r: int)
    requires n > 0 && 0 <= r < n && x == q * n + r
    ensures x / n == q
  {
    var q', r' := x / n, x % n;
    assert (q - q') * n == r' - r;
    if q' < q {
      assert (q - q') * n >= n by { MulAtLeast(q - q', n); }
    } else if q' > q {
      assert (q' - q) * n >= n by { MulAtLeast(q' - q, n); }
    }
  }

  lemma MulAtLeast(k: int, n: int)
    requires k >= 1 && n > 0
    ensures k * n >= n
  {
  }

  lemma DivStep(x: nat, n: nat)
    requires n > 0
    ensures (x + n) / n == x / n + 1
  {
    DivUnique(x + n, n, x / n + 1, x % n);
  }

  /** There are ceil(len(data) / size) batches; an empty input yields none. */
  lemma {:induction false} BatchCount<T>(data: seq<T>, size: nat)
    requires size > 0
    ensures |Batches(data, size)| == (|data| + size - 1) / size
    ensures |data| == 0 <==> Batches(data, size) == []
    decreases |data|
  {
    var n := |data|;
    if n == 0 {
      DivUnique(size - 1, size, 0, size - 1);
    } else if n <= size {
      DivUnique(n + size - 1, size, 1, n - 1);
    } else {
      var rest := data[size..];
      BatchCount(rest, size);
      assert |rest| + size - 1 == n - 1;
      assert |Batches(data, size)| == 1 + |Batches(rest, size)|;
      DivStep(n - 1, size);
      assert n + size - 1 == (n - 1) + size;
    }
  }

  /** Batch `i` is the slice `data[i * size : i * size + size]`, cut off at the end. */
  lemma {:induction false} BatchAt<T>(data: seq<T>, size: nat, i: nat)
    requires size > 0 && i < |Batches(data, size)|
    ensures i * size < |data|
    ensures Batches(data, size)[i] == data[i * size..Min(i * size + size, |data|)]
    decreases |data|
  {
    if i > 0 {
      assert |data| > size;
      var rest := data[size..];
      BatchAt(rest, size, i - 1);
      assert (i - 1) * size + size == i * size;
      assert rest[(i - 1) * size..Min((i - 1) * size + size, |rest|)]
          == data[i * size..Min(i * size + size, |data|)];
    }
  }

  /** Every batch is non-empty and at most `size` long; all but the last are exactly `size` long. */
  lemma BatchSizes<T>(data: seq<T>, size: nat)
    requires size > 0
    ensures forall i :: 0 <= i < |Batches(data, size)| ==> 0 < |Batches(data, size)[i]| <= size
    ensures forall i :: 0 <= i < |Batches(data, size)| - 1 ==> |Batches(data, size)[i]| == size
  {
    var b := Batches(data, size);
    forall i | 0 <= i < |b|
      ensures 0 < |b[i]| <= size
      ensures i < |b| - 1 ==> |b[i]| == size
    {
      BatchAt(data, size, i);
      if i < |b| - 1 {
        BatchAt(data, size, i + 1);
        assert (i + 1) * size == i * size + size;
      }
    }
  }

  /** The first `i` batches together are the first min(i * size, len(data)) elements. */
  lemma {:induction false} BatchPrefix<T>(data: seq<T>, size: nat, i: nat)
    requires size > 0 && i <= |Batches(data, size)|
    ensures Flatten(Batches(data, size)[..i]) == data[..Min(i * size, |data|)]
    decreases i
  {
    var b := Batches(data, size);
    if i > 0 {
      BatchPrefix(data, size, i - 1);
      BatchAt(data, size, i - 1);
      var lo, hi := (i - 1) * size, Min(i * size, |data|);
      assert lo + size == i * size;
      assert Flatten(b[..i]) == Flatten(b[..i - 1]) + b[i - 1] by {
        assert b[..i][..i - 1] == b[..i - 1];
      }
      assert Min(lo, |data|) == lo;
      assert data[..lo] + data[lo..hi] == data[..hi];
    }
  }

  /** Two equally long inputs are cut at the same places: same number of
      batches, and batch `i` of one is as long as batch `i` of the other. */
  lemma BatchesAligned<A, B>(a: seq<A>, b: seq<B>, size: nat)
    requires size > 0 && |a| == |b|
    ensures |Batches(a, size)| == |Batches(b, size)|
    ensures forall i :: 0 <= i < |Batches(a, size)| ==> |Batches(a, size)[i]| == |Batches(b, size)[i]|
  {
    BatchCount(a, size);
    BatchCount(b, size);
    forall i | 0 <= i < |Batches(a, size)|
      ensures |Batches(a, size)[i]| == |Batches(b, size)[i]|
    {
      BatchAt(a, size, i);
      BatchAt(b, size, i);
    }
  }
}

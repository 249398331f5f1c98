/** Splitting the generated items into consecutive batches of a fixed size,
    as `insertRandomItems` does with `Array.from` and `slice`. */
module Partition {

  import opened Arith

  function Min(a: nat, b: nat): nat {
    if a <= b then a else b
  }

  /** `Math.ceil(n / b)` for whole numbers, computed without fractions. */
  function CeilDiv(n: nat, b: nat): nat
    requires 1 <= b
  {
    (n + b - 1) / b
  }

  /** CeilDiv(n, b) is the ceiling of n / b: the k with
      (k - 1) * b < n <= k * b, which is 0 exactly for no items. */
  lemma CeilDivBounds(n: nat, b: nat)
    requires 1 <= b
    ensures (CeilDiv(n, b) - 1) * b < n <= CeilDiv(n, b) * b
    ensures CeilDiv(n, b) == 0 <==> n == 0
  {
    var k := CeilDiv(n, b);
    assert k * b <= n + b - 1 < k * b + b;
    assert (k - 1) * b == k * b - b;
  }

  /** Only CeilDiv(n, b) satisfies the ceiling characterisation. */
  lemma CeilDivUnique(n: nat, b: nat, k: int)
    requires 1 <= b
    requires (k - 1) * b < n <= k * b
    ensures k == CeilDiv(n, b)
  {
    CeilDivBounds(n, b);
    var c: int := CeilDiv(n, b);
    MulMono(k, c - 1, b);
    MulMono(c, k - 1, b);
  }

  /** `Array.prototype.slice` with non-negative bounds: both ends are
      clamped to the length and an empty range gives the empty sequence. */
  function Slice<T>(s: seq<T>, lo: nat, hi: nat): (r: seq<T>)
    ensures lo <= hi <= |s| ==> r == s[lo..hi]
    ensures lo <= |s| <= hi ==> r == s[lo..]
    ensures |s| <= lo || hi <= lo ==> r == []
  {
    var a := Min(lo, |s|);
    var z := Min(hi, |s|);
    if a < z then s[a..z] else []
  }

  /** `Array.from({ length: k }, (_, i) => items.slice(i * b, (i + 1) * b))`
      from index i onwards: the slices for i, i + 1, ..., k - 1 in order. */
  function SlicesFrom<T>(items: seq<T>, b: nat, i: nat, k: nat): (bs: seq<seq<T>>)
    ensures |bs| == if i <= k then k - i else 0
    decreases k - i
  {
    if i < k then [Slice(items, i * b, (i + 1) * b)] + SlicesFrom(items, b, i + 1, k) else []
  }

  /** The batches of `insertRandomItems`: CeilDiv(|items|, b) slices of b. */
  function Batches<T>(items: seq<T>, b: nat): (bs: seq<seq<T>>)
    requires 1 <= b
    ensures |bs| == CeilDiv(|items|, b)
  {
    SlicesFrom(items, b, 0, CeilDiv(|items|, b))
  }

  lemma {:induction false} SlicesFromIndex<T>(items: seq<T>, b: nat, i: nat, k: nat, j: nat)
    requires i <= j < k
    ensures SlicesFrom(items, b, i, k)[j - i] == Slice(items, j * b, (j + 1) * b)
    decreases j - i
  {
    var bs := SlicesFrom(items, b, i, k);
    assert bs == [Slice(items, i * b, (i + 1) * b)] + SlicesFrom(items, b, i + 1, k);
    if i < j {
      SlicesFromIndex(items, b, i + 1, k, j);
      assert bs[j - i] == SlicesFrom(items, b, i + 1, k)[j - (i + 1)];
    }
  }

  /** Batch j is the slice [j * b, (j + 1) * b) of the items. */
  lemma BatchesIndex<T>(items: seq<T>, b: nat, j: nat)
    requires 1 <= b
    requires j < CeilDiv(|items|, b)
    ensures Batches(items, b)[j] == Slice(items, j * b, j * b + b)
  {
    var lo, hi := j * b, (j + 1) * b;
    SlicesFromIndex(items, b, 0, CeilDiv(|items|, b), j);
    assert hi == lo + b;
  }

  /** The concatenation of a sequence of sequences, in order. */
  function Flatten<T>(ss: seq<seq<T>>): seq<T> {
    if |ss| == 0 then [] else ss[0] + Flatten(ss[1..])
  }

  /** A reference partition, defined by peeling off b items at a time. */
  function Chunks<T>(items: seq<T>, b: nat): seq<seq<T>>
    requires 1 <= b
    decreases |items|
  {
    if |items| == 0 then []
    else if |items| <= b then [items]
    else [items[..b]] + Chunks(items[b..], b)
  }

  /** Every batch has between 1 and b items, and every batch but the last
      has exactly b. */
  ghost predicate Shaped<T>(ss: seq<seq<T>>, b: nat) {
    && (forall j :: 0 <= j < |ss| ==> 1 <= |ss[j]| <= b)
    && (forall j :: 0 <= j < |ss| - 1 ==> |ss[j]| == b)
  }

  /** Where batch j starts and ends: its start lies below n, every batch
      before the last ends below n, and the last one reaches n. */
  lemma BatchBounds(n: nat, b: nat, j: nat)
    requires 1 <= b
    requires j < CeilDiv(n, b)
    ensures j * b < n
    ensures j + 1 < CeilDiv(n, b) ==> j * b + b < n
    ensures j + 1 == CeilDiv(n, b) ==> n <= j * b + b
  {
    var k := CeilDiv(n, b);
    CeilDivBounds(n, b);
    MulMono(j, k - 1, b);
    MulMono(j + 1, k - 1, b);
    assert (j + 1) * b == j * b + b;
  }

  lemma BatchSizes<T>(items: seq<T>, b: nat)
    requires 1 <= b
    ensures Shaped(Batches(items, b), b)
  {
    var bs := Batches(items, b);
    forall j | 0 <= j < |bs|
      ensures 1 <= |bs[j]| <= b
      ensures j < |bs| - 1 ==> |bs[j]| == b
    {
      BatchesIndex(items, b, j);
      BatchBounds(|items|, b, j);
    }
  }

  /** Slicing after dropping d elements is slicing further along. */
  lemma SliceDrop<T>(s: seq<T>, d: nat, lo: nat, hi: nat)
    requires d <= |s|
    ensures Slice(s[d..], lo, hi) == Slice(s, lo + d, hi + d)
  {
    var a, z := Min(lo, |s| - d), Min(hi, |s| - d);
    if a < z {
      assert s[d..][a..z] == s[a + d..z + d];
    }
  }

  /** Dropping the first b items removes exactly one batch. */
  lemma BatchCountUnfold(n: nat, b: nat)
    requires 1 <= b < n
    ensures CeilDiv(n, b) == CeilDiv(n - b, b) + 1
  {
    var k' := CeilDiv(n - b, b);
    CeilDivBounds(n - b, b);
    assert (k' - 1) * b == k' * b - b;
    assert (k' + 1) * b == k' * b + b;
    CeilDivUnique(n, b, k' + 1);
  }

  /** Past the first batch, the batches of items are those of items[b..]. */
  lemma BatchesUnfold<T>(items: seq<T>, b: nat)
    requires 1 <= b < |items|
    ensures Batches(items, b) == [items[..b]] + Batches(items[b..], b)
  {
    var bs, rest := Batches(items, b), Batches(items[b..], b);
    BatchCountUnfold(|items|, b);
    forall i | 0 <= i < |rest|
      ensures bs[i + 1] == rest[i]
    {
      BatchShift(items, b, i);
    }
    BatchesIndex(items, b, 0);
    assert bs[0] == items[..b];
    assert bs == [items[..b]] + rest;
  }

  lemma BatchShift<T>(items: seq<T>, b: nat, i: nat)
    requires 1 <= b < |items|
    requires i < CeilDiv(|items| - b, b) && i + 1 < CeilDiv(|items|, b)
    ensures Batches(items, b)[i + 1] == Batches(items[b..], b)[i]
  {
    BatchesIndex(items, b, i + 1);
    BatchesIndex(items[b..], b, i);
    assert (i + 1) * b == i * b + b;
    SliceDrop(items, b, i * b, i * b + b);
  }

  lemma {:induction false} BatchesAreChunks<T>(items: seq<T>, b: nat)
    requires 1 <= b
    ensures Batches(items, b) == Chunks(items, b)
    decreases |items|
  {
    if |items| == 0 {
      CeilDivBounds(0, b);
      assert |Batches(items, b)| == 0;
    } else if |items| <= b {
      var bs := Batches(items, b);
      CeilDivUnique(|items|, b, 1);
      BatchesIndex(items, b, 0);
      assert bs[0] == items;
    } else {
      BatchesUnfold(items, b);
      BatchesAreChunks(items[b..], b);
    }
  }

  lemma {:induction false} FlattenChunks<T>(items: seq<T>, b: nat)
    requires 1 <= b
    ensures Flatten(Chunks(items, b)) == items
    decreases |items|
  {
    if |items| == 0 {
    } else if |items| <= b {
      assert Flatten([items]) == items + Flatten([]);
    } else {
      var cs := Chunks(items, b);
      assert cs[1..] == Chunks(items[b..], b);
      FlattenChunks(items[b..], b);
      assert items == items[..b] + items[b..];
    }
  }

  /** Concatenating the batches in order gives back exactly the items. */
  lemma BatchesFlatten<T>(items: seq<T>, b: nat)
    requires 1 <= b
    ensures Flatten(Batches(items, b)) == items
  {
    BatchesAreChunks(items, b);
    FlattenChunks(items, b);
  }

  /** In a shaped sequence, position i of the concatenation is position
      i % b of part i / b. */
  lemma {:induction false} FlattenIndex<T>(ss: seq<seq<T>>, b: nat, i: nat)
    requires 1 <= b
    requires Shaped(ss, b)
    requires i < |Flatten(ss)|
    ensures 0 <= i / b < |ss| && 0 <= i % b < |ss[i / b]|
    ensures Flatten(ss)[i] == ss[i / b][i % b]
    decreases |ss|
  {
    var f := Flatten(ss);
    assert f == ss[0] + Flatten(ss[1..]);
    if i < |ss[0]| {
      DivBounds(i, b, 0, 1);
    } else {
      assert |Flatten(ss[1..])| > 0;
      assert |ss| >= 2;
      assert |ss[0]| == b;
      assert Shaped(ss[1..], b) by {
        forall j | 0 <= j < |ss| - 1
          ensures ss[1..][j] == ss[j + 1]
        {
        }
      }
      FlattenIndex(ss[1..], b, i - b);
      DivShift(i, b);
    }
  }

  /** Item i of the input sits in batch i / b at offset i % b. */
  lemma BatchOfItem<T>(items: seq<T>, b: nat, i: nat)
    requires 1 <= b
    requires i < |items|
    ensures var bs := Batches(items, b);
            0 <= i / b < |bs| && 0 <= i % b < |bs[i / b]| && bs[i / b][i % b] == items[i]
  {
    var bs := Batches(items, b);
    BatchSizes(items, b);
    BatchesFlatten(items, b);
    FlattenIndex(bs, b, i);
    assert Flatten(bs)[i] == items[i];
  }

  /** Two sequences of parts with the same part lengths concatenate to
      sequences of the same length. */
  lemma {:induction false} FlattenLengths<T, U>(xs: seq<seq<T>>, ys: seq<seq<U>>)
    requires |xs| == |ys|
    requires forall j :: 0 <= j < |xs| ==> |xs[j]| == |ys[j]|
    ensures |Flatten(xs)| == |Flatten(ys)|
    decreases |xs|
  {
    if |xs| > 0 {
      FlattenLengths(xs[1..], ys[1..]);
    }
  }

  /** Flatten distributes over concatenation of part sequences. */
  lemma {:induction false} FlattenAppend<T>(xs: seq<seq<T>>, ys: seq<seq<T>>)
    ensures Flatten(xs + ys) == Flatten(xs) + Flatten(ys)
    decreases |xs|
  {
    if |xs| == 0 {
      assert xs + ys == ys;
    } else {
      assert (xs + ys)[1..] == xs[1..] + ys;
      FlattenAppend(xs[1..], ys);
    }
  }
}

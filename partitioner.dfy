/**
  The partitioner inlined in `main`: with `workers` execution units it takes
  size = len(words) // workers + 1 and builds exactly `workers` slices
  words[i*size:(i+1)*size], Python slice bounds clamped to the length.
*/
module Partitioner {
  import opened Seqs

  /** len(words) // workers + 1. */
  function ChunkSize(n: nat, workers: nat): (size: nat)
    requires workers >= 1
    ensures size >= 1
    ensures workers * size > n
  {
    var q := n / workers;
    assert n == workers * q + n % workers;
    assert workers * (q + 1) == workers * q + workers;
    q + 1
  }

  /** i*size, the index where slice i begins. */
  function SliceStart(i: nat, size: nat): nat
  {
    i * size
  }

  lemma SliceStartSucc(i: nat, size: nat)
    ensures SliceStart(i + 1, size) == SliceStart(i, size) + size
  {
  }

  /** Python's s[lo:hi] for lo, hi >= 0: both bounds are clamped to |s|. */
  function PySlice<T>(s: seq<T>, lo: nat, hi: nat): (r: seq<T>)
    ensures |r| <= Max(hi - lo, 0)
    ensures |r| == Max(Min(hi, |s|) - Min(lo, |s|), 0)
  {
    var a, b := Min(lo, |s|), Min(hi, |s|);
    if a <= b then s[a..b] else []
  }

  /** The list comprehension [words[i*size:(i+1)*size] for i in range(workers)]. */
  function Partition<T>(words: seq<T>, workers: nat): (slices: seq<seq<T>>)
    requires workers >= 1
    ensures |slices| == workers
  {
    var size := ChunkSize(|words|, workers);
    seq(workers, i requires 0 <= i < workers => PySlice(words, SliceStart(i, size), SliceStart(i + 1, size)))
  }

  /** Joining one more piece that continues a prefix extends the prefix. */
  lemma JoinStep<T>(pieces: seq<seq<T>>, words: seq<T>, a: nat, b: nat)
    requires |pieces| > 0 && a <= b <= |words|
    requires Flatten(pieces[..|pieces| - 1]) == words[..a]
    requires pieces[|pieces| - 1] == words[a..b]
    ensures Flatten(pieces) == words[..b]
  {
    var init, last := pieces[..|pieces| - 1], pieces[|pieces| - 1];
    calc {
      Flatten(pieces);
      { assert pieces == init + [last]; }
      Flatten(init + [last]);
      { FlattenSnoc(init, last); }
      words[..a] + words[a..b];
      { assert words[..b] == words[..a] + words[a..b]; }
      words[..b];
    }
  }

  lemma {:induction false} PrefixFlatten<T>(words: seq<T>, workers: nat, k: nat)
    requires workers >= 1 && k <= workers
    ensures Flatten(Partition(words, workers)[..k]) == words[..Min(SliceStart(k, ChunkSize(|words|, workers)), |words|)]
  {
    var slices, size, n := Partition(words, workers), ChunkSize(|words|, workers), |words|;
    if k == 0 {
      assert slices[..0] == [];
    } else {
      PrefixFlatten(words, workers, k - 1);
      var lo, hi := SliceStart(k - 1, size), SliceStart(k, size);
      SliceStartSucc(k - 1, size);
      assert slices[k - 1] == PySlice(words, lo, hi);
      assert slices[..k][..k - 1] == slices[..k - 1];
      JoinStep(slices[..k], words, Min(lo, n), Min(hi, n));
    }
  }

  /** The slices, joined in order, give back `words`: no loss, duplication or reordering. */
  lemma PartitionFlatten<T>(words: seq<T>, workers: nat)
    requires workers >= 1
    ensures Flatten(Partition(words, workers)) == words
  {
    var slices := Partition(words, workers);
    PrefixFlatten(words, workers, workers);
    assert slices[..workers] == slices;
  }

  /**
    Every slice has at most `size` words; a slice that ends inside `words` is
    full; a slice is empty exactly when it starts at or past the end.
  */
  lemma PartitionShape<T>(words: seq<T>, workers: nat)
    requires workers >= 1
    ensures forall i :: 0 <= i < workers ==> |Partition(words, workers)[i]| <= ChunkSize(|words|, workers)
    ensures forall i :: 0 <= i < workers && SliceStart(i + 1, ChunkSize(|words|, workers)) <= |words| ==>
      |Partition(words, workers)[i]| == ChunkSize(|words|, workers)
    ensures forall i :: 0 <= i < workers ==>
      (Partition(words, workers)[i] == [] <==> SliceStart(i, ChunkSize(|words|, workers)) >= |words|)
  {
  }
}

/** `torch.tensor_split(t, indices)` on a one-dimensional tensor, and `zip`. */
module TensorSplit {

  /** The index normalisation of a slice: a negative index counts from the end,
      and the result is clamped to `[0, n]`. */
  function Clamp(i: int, n: nat): (c: nat)
    ensures c <= n
    ensures 0 <= i <= n ==> c == i
  {
    var j := if i < 0 then i + n else i;
    if j < 0 then 0 else if j > n then n else j
  }

  /** Where chunk `k` starts: chunk 0 at 0, chunk `k` at `indices[k - 1]`. */
  function ChunkStart(indices: seq<int>, n: nat, k: nat): (lo: nat)
    requires k <= |indices|
    ensures lo <= n
  {
    if k == 0 then 0 else Clamp(indices[k - 1], n)
  }

  /** Where chunk `k` ends: at `indices[k]`, the last chunk at `n`; an end
      before the start gives an empty chunk. */
  function ChunkEnd(indices: seq<int>, n: nat, k: nat): (hi: nat)
    requires k <= |indices|
    ensures ChunkStart(indices, n, k) <= hi <= n
  {
    var lo := ChunkStart(indices, n, k);
    var e := if k == |indices| then n else Clamp(indices[k], n);
    if e < lo then lo else e
  }

  /** The chunks `tensor_split` returns: always one more than the indices. */
  function Chunks<T>(s: seq<T>, indices: seq<int>): (r: seq<seq<T>>) {
    seq(|indices| + 1, k requires 0 <= k <= |indices| =>
      s[ChunkStart(indices, |s|, k)..ChunkEnd(indices, |s|, k)])
  }

  function Flatten<T>(xs: seq<seq<T>>): seq<T>
    decreases |xs|
  {
    if xs == [] then [] else xs[0] + Flatten(xs[1..])
  }

  /** Split positions that partition a buffer of `n` elements: in range and
      non-decreasing. */
  predicate Partitions(indices: seq<int>, n: nat) {
    && (forall i :: 0 <= i < |indices| ==> 0 <= indices[i] <= n)
    && (forall i, j :: 0 <= i <= j < |indices| ==> indices[i] <= indices[j])
  }

  /** For partitioning split positions the chunks are contiguous: each one
      starts where the previous one ended, the first at 0 and the last ends at
      `n`, and chunk `k` spans exactly from one split position to the next. */
  lemma ChunksAreContiguous(indices: seq<int>, n: nat)
    requires Partitions(indices, n)
    ensures ChunkStart(indices, n, 0) == 0
    ensures ChunkEnd(indices, n, |indices|) == n
    ensures forall k :: 0 < k <= |indices| ==> ChunkStart(indices, n, k) == ChunkEnd(indices, n, k - 1)
    ensures forall k :: 0 < k <= |indices| ==> ChunkStart(indices, n, k) == indices[k - 1]
    ensures forall k :: 0 <= k < |indices| ==> ChunkEnd(indices, n, k) == indices[k]
  {
  }

  /** There are `|indices| + 1` chunks and, for partitioning positions, their
      concatenation is the whole input. */
  lemma ChunksConcatenate<T>(s: seq<T>, indices: seq<int>)
    requires Partitions(indices, |s|)
    ensures |Chunks(s, indices)| == |indices| + 1
    ensures Flatten(Chunks(s, indices)) == s
  {
    ChunksAreContiguous(indices, |s|);
    FlattenFrom(s, indices, 0);
  }

  lemma {:induction false} FlattenFrom<T>(s: seq<T>, indices: seq<int>, j: nat)
    requires Partitions(indices, |s|)
    requires j <= |indices|
    ensures Flatten(Chunks(s, indices)[j..]) == s[ChunkStart(indices, |s|, j)..]
    decreases |indices| - j
  {
    var c := Chunks(s, indices);
    var n := |s|;
    var lo, hi := ChunkStart(indices, n, j), ChunkEnd(indices, n, j);
    assert c[j..][0] == s[lo..hi];
    assert c[j..][1..] == c[j + 1..];
    assert Flatten(c[j..]) == s[lo..hi] + Flatten(c[j + 1..]);
    if j == |indices| {
      assert c[j + 1..] == [];
      assert hi == n;
    } else {
      FlattenFrom(s, indices, j + 1);
      assert hi == indices[j] == ChunkStart(indices, n, j + 1);
    }
    assert s[lo..hi] + s[hi..] == s[lo..];
  }

  /** `split_positions = [N]` on a buffer of at least `N` elements gives the
      first `N` elements and the rest. */
  lemma SplitAtOne<T>(s: seq<T>, at: nat)
    requires at <= |s|
    ensures Chunks(s, [at]) == [s[..at], s[at..]]
  {
    var c := Chunks(s, [at]);
    assert c[0] == s[..at];
    assert c[1] == s[at..];
  }

  /** `zip(xs, ys)`: pairs up to the length of the shorter list. */
  function Zip<A, B>(xs: seq<A>, ys: seq<B>): (r: seq<(A, B)>)
    ensures |r| == if |xs| <= |ys| then |xs| else |ys|
    ensures forall i :: 0 <= i < |r| ==> r[i] == (xs[i], ys[i])
  {
    if xs == [] || ys == [] then [] else [(xs[0], ys[0])] + Zip(xs[1..], ys[1..])
  }
}

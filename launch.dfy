/** Launch geometry of the decode kernel: the grid size computed on every
    forward pass and the shared-memory size computed when `output_positions`
    is attached. */
module Launch {
  import opened Wrappers
  import opened Basics
  import opened Tensors

  /** `int(math.ceil(n_bytes / (threads_per_block[0] * bytes_per_thread)))`,
      in exact integer arithmetic. */
  function BlocksPerGrid(nBytes: nat, threads: nat, bytesPerThread: nat): nat
    requires threads > 0 && bytesPerThread > 0
  {
    var perBlock := threads * bytesPerThread;
    (nBytes + perBlock - 1) / perBlock
  }

  /** The grid is the least number of blocks whose threads cover every coded
      byte: `b * perBlock >= nBytes`, and no smaller count does. */
  lemma BlocksPerGridIsCeiling(nBytes: nat, threads: nat, bytesPerThread: nat)
    requires threads > 0 && bytesPerThread > 0
    ensures var b, k := BlocksPerGrid(nBytes, threads, bytesPerThread), threads * bytesPerThread;
      && b * k >= nBytes
      && forall c: nat :: c * k >= nBytes ==> b <= c
  {
    var k := threads * bytesPerThread;
    var b := BlocksPerGrid(nBytes, threads, bytesPerThread);
    var r := (nBytes + k - 1) % k;
    assert nBytes + k - 1 == b * k + r;
    if b > 0 {
      assert (b - 1) * k == b * k - k;
      forall c: nat | c * k >= nBytes
        ensures b <= c
      {
        MultiplyCancel(c, b - 1, k);
      }
    }
  }

  lemma MultiplyCancel(a: nat, b: nat, k: nat)
    requires a * k > b * k
    ensures a > b
  {
    if a <= b {
      MultiplyMonotone(a, b, k);
    }
  }

  /** 1000 coded bytes with 256 threads of 4 bytes need one block; 1025 need two. */
  lemma BlocksPerGridExamples()
    ensures BlocksPerGrid(1000, 256, 4) == 1
    ensures BlocksPerGrid(1024, 256, 4) == 1
    ensures BlocksPerGrid(1025, 256, 4) == 2
    ensures BlocksPerGrid(0, 256, 4) == 0
  {
  }

  /** `positions[1:] - positions[:-1]` in numpy uint32 arithmetic: each
      difference wraps modulo 2^32; fewer than two positions give no gaps. */
  function Gaps(w: seq<Word>): seq<nat> {
    if |w| < 2 then []
    else seq(|w| - 1, i requires 0 <= i < |w| - 1 => (w[i + 1] - w[i]) % TWO_32)
  }

  lemma GapAt(w: seq<Word>, i: nat)
    requires i + 1 < |w|
    ensures |Gaps(w)| == |w| - 1
    ensures Gaps(w)[i] == if w[i] <= w[i + 1] then w[i + 1] - w[i] else TWO_32 - (w[i] - w[i + 1])
  {
  }

  /** `threads_per_block[0] * 4 + 4 + gaps.max().item() * 2`; `None` when
      there are no gaps, where numpy's `max` raises. */
  function SharedMemSize(threads: int, w: seq<Word>): Option<int> {
    var g := Gaps(w);
    if g == [] then None else Some(threads * 4 + 4 + 2 * Largest(g))
  }

  predicate StrictlyIncreasing(w: seq<Word>) {
    forall i :: 0 <= i < |w| - 1 ==> w[i] < w[i + 1]
  }

  /** Fewer than two positions leave the size undefined; two or more define it. */
  lemma SharedMemSizeDefinedIff(threads: int, w: seq<Word>)
    ensures SharedMemSize(threads, w).Some? <==> |w| >= 2
  {
  }

  /** For strictly increasing positions no difference wraps, and the size is
      `threads * 4 + 4` plus twice the largest consecutive difference. */
  lemma SharedMemSizeOfIncreasing(threads: int, w: seq<Word>)
    requires |w| >= 2 && StrictlyIncreasing(w)
    ensures exists m: nat ::
      && SharedMemSize(threads, w) == Some(threads * 4 + 4 + 2 * m)
      && (forall i :: 0 <= i < |w| - 1 ==> w[i + 1] - w[i] <= m)
      && (exists i :: 0 <= i < |w| - 1 && w[i + 1] - w[i] == m)
  {
    var g := Gaps(w);
    forall i | 0 <= i < |w| - 1
      ensures g[i] == w[i + 1] - w[i]
    {
      GapAt(w, i);
    }
    var m := Largest(g);
    assert SharedMemSize(threads, w) == Some(threads * 4 + 4 + 2 * m);
  }

  /** A position that is smaller than its predecessor wraps: its gap is
      2^32 minus the drop, and the size is at least twice that. */
  lemma DecreasingPositionWraps(threads: int, w: seq<Word>, i: nat)
    requires i + 1 < |w| && w[i + 1] < w[i]
    ensures Gaps(w)[i] == TWO_32 - (w[i] - w[i + 1])
    ensures SharedMemSize(threads, w).value >= threads * 4 + 4 + 2 * (TWO_32 - (w[i] - w[i + 1]))
  {
    var g := Gaps(w);
    GapAt(w, i);
    assert g[i] <= Largest(g);
  }

  /** Positions [0, 10, 25, 40] with 128 threads per block need 546 bytes. */
  lemma SharedMemSizeExample()
    ensures SharedMemSize(128, [0, 10, 25, 40]) == Some(546)
  {
    var w: seq<Word> := [0, 10, 25, 40];
    var g := Gaps(w);
    assert g == [10, 15, 15];
    assert Largest(g) == 15;
  }
}

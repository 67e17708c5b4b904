/** The model-size report after loading: the bytes of every state-dict
    tensor, counted by element type. */
module Footprint {
  import opened Basics
  import opened Tensors

  /** Bytes the loop counts per element: the storage width of the recognised
      types, nothing for the others (which are only reported). */
  function CountedWidth(d: DType): (w: nat)
    ensures w == 0 <==> d == Bool || d == F8
    ensures w != 0 ==> w == StorageWidth(d)
    ensures w in {0, 1, 2, 4, 8}
  {
    match d
    case U8 | I8 => 1
    case F16 | BF16 | I16 | U16 => 2
    case F32 | I32 | U32 => 4
    case F64 | I64 | U64 => 8
    case Bool | F8 => 0
  }

  function Bytes(t: Tensor): nat {
    Numel(t) * CountedWidth(t.dtype)
  }

  /** The sum of the counted bytes of a list of tensors. */
  function Total(ts: seq<Tensor>): nat
    decreases |ts|
  {
    if ts == [] then 0 else Total(ts[..|ts| - 1]) + Bytes(ts[|ts| - 1])
  }

  /** The element count of a list of tensors. */
  function Elements(ts: seq<Tensor>): nat
    decreases |ts|
  {
    if ts == [] then 0 else Elements(ts[..|ts| - 1]) + Numel(ts[|ts| - 1])
  }

  /** The tensors of recognised element types. */
  function Recognised(ts: seq<Tensor>): (r: seq<Tensor>)
    ensures forall t :: t in r <==> t in ts && CountedWidth(t.dtype) != 0
    decreases |ts|
  {
    if ts == [] then []
    else Recognised(ts[..|ts| - 1]) + (if CountedWidth(ts[|ts| - 1].dtype) != 0 then [ts[|ts| - 1]] else [])
  }

  /** `model_bytes += param.numel() * width` over `state_dict().values()`. */
  method ModelBytes(ts: seq<Tensor>) returns (total: nat)
    ensures total == Total(ts)
  {
    total := 0;
    var i := 0;
    while i < |ts|
      invariant 0 <= i <= |ts|
      invariant total == Total(ts[..i])
    {
      var t := ts[i];
      match t.dtype {
        case U8 | I8 => total := total + Numel(t);
        case F16 | BF16 | I16 | U16 => total := total + Numel(t) * 2;
        case F32 | I32 | U32 => total := total + Numel(t) * 4;
        case F64 | I64 | U64 => total := total + Numel(t) * 8;
        case Bool | F8 =>
      }
      assert ts[..i + 1][..i] == ts[..i] && ts[..i + 1][i] == ts[i];
      i := i + 1;
    }
    assert ts[..i] == ts;
  }

  /** The count is additive over concatenation. */
  lemma {:induction false} TotalAppend(a: seq<Tensor>, b: seq<Tensor>)
    ensures Total(a + b) == Total(a) + Total(b)
    decreases |b|
  {
    if b == [] {
      assert a + b == a;
    } else {
      var init := b[..|b| - 1];
      TotalAppend(a, init);
      assert (a + b)[..|a + b| - 1] == a + init;
      assert (a + b)[|a + b| - 1] == b[|b| - 1];
    }
  }

  /** Taking one tensor out of the list takes its bytes out of the count. */
  lemma TotalSnoc(ts: seq<Tensor>, x: Tensor)
    ensures Total(ts + [x]) == Total(ts) + Bytes(x)
  {
    assert (ts + [x])[..|ts|] == ts;
  }

  lemma SplitAround(b: seq<Tensor>, k: nat)
    requires k < |b|
    ensures b == (b[..k] + [b[k]]) + b[k + 1..]
  {
  }

  lemma TotalRemove(b: seq<Tensor>, k: nat)
    requires k < |b|
    ensures Total(b) == Total(b[..k] + b[k + 1..]) + Bytes(b[k])
  {
    var left, x, right := b[..k], b[k], b[k + 1..];
    SplitAround(b, k);
    TotalAppend(left + [x], right);
    TotalSnoc(left, x);
    TotalAppend(left, right);
  }

  lemma MultisetRemove(b: seq<Tensor>, k: nat)
    requires k < |b|
    ensures multiset(b[..k] + b[k + 1..]) == multiset(b) - multiset{b[k]}
  {
    assert b == b[..k] + [b[k]] + b[k + 1..];
  }

  /** The count does not depend on the order the state dict lists its tensors. */
  lemma {:induction false} TotalPermutation(a: seq<Tensor>, b: seq<Tensor>)
    requires multiset(a) == multiset(b)
    ensures Total(a) == Total(b)
    decreases |a|
  {
    if a == [] {
      assert b == [] by { assert |b| == |multiset(b)| == 0; }
    } else {
      var init, x := a[..|a| - 1], a[|a| - 1];
      assert a == init + [x];
      assert multiset(init) == multiset(a) - multiset{x};
      assert x in multiset(b);
      var k :| 0 <= k < |b| && b[k] == x;
      MultisetRemove(b, k);
      TotalPermutation(init, b[..k] + b[k + 1..]);
      TotalRemove(b, k);
    }
  }

  /** Unrecognised tensors contribute nothing: the count is that of the
      recognised tensors alone. */
  lemma {:induction false} UnrecognisedCountZero(ts: seq<Tensor>)
    ensures Total(ts) == Total(Recognised(ts))
    decreases |ts|
  {
    if ts != [] {
      var init, x := ts[..|ts| - 1], ts[|ts| - 1];
      UnrecognisedCountZero(init);
      if CountedWidth(x.dtype) != 0 {
        var r := Recognised(init) + [x];
        assert r[..|r| - 1] == Recognised(init) && r[|r| - 1] == x;
      } else {
        assert Recognised(init) + [] == Recognised(init);
      }
    }
  }

  lemma BytesBounds(x: Tensor)
    ensures Bytes(x) <= 8 * Numel(x)
    ensures CountedWidth(x.dtype) != 0 ==> Numel(x) <= Bytes(x)
  {
    var n, w := Numel(x), CountedWidth(x.dtype);
    assert n * w <= n * 8 by { MultiplyMonotone(w, 8, n); }
    if w != 0 {
      MultiplyMonotone(1, w, n);
    }
  }

  /** Every counted element takes at most eight bytes. */
  lemma {:induction false} TotalAtMostEight(ts: seq<Tensor>)
    ensures Total(ts) <= 8 * Elements(ts)
    decreases |ts|
  {
    if ts != [] {
      TotalAtMostEight(ts[..|ts| - 1]);
      BytesBounds(ts[|ts| - 1]);
    }
  }

  /** Every recognised element takes at least one byte. */
  lemma {:induction false} TotalAtLeastRecognised(ts: seq<Tensor>)
    ensures Elements(Recognised(ts)) <= Total(ts)
    decreases |ts|
  {
    if ts != [] {
      var init, x := ts[..|ts| - 1], ts[|ts| - 1];
      TotalAtLeastRecognised(init);
      BytesBounds(x);
      if CountedWidth(x.dtype) != 0 {
        var r := Recognised(init) + [x];
        assert r[..|r| - 1] == Recognised(init) && r[|r| - 1] == x;
      } else {
        assert Recognised(init) + [] == Recognised(init);
      }
    }
  }
}

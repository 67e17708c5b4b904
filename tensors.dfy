/** Tensors as the rewriter and the decode hook see them: an element type, a
    shape, the elements and the device they live on. */
module Tensors {
  import opened Wrappers
  import opened BufferPool

  /** Element types that occur in the checkpoints; `Bool` and `F8` stand for
      the types the footprint loop does not recognise. */
  datatype DType = U8 | I8 | Bool | F8 | F16 | BF16 | I16 | U16 | F32 | I32 | U32 | F64 | I64 | U64

  /** Bytes per element in storage. */
  function StorageWidth(t: DType): nat {
    match t
    case U8 | I8 | Bool | F8 => 1
    case F16 | BF16 | I16 | U16 => 2
    case F32 | I32 | U32 => 4
    case F64 | I64 | U64 => 8
  }

  /** Elements are integers: an integer type's value, or a floating type's
      bit pattern. Element `i` of a tensor of shape [d0, d1, ...] is in
      row-major order; the element count is the product of the shape. */
  datatype Tensor = Tensor(dtype: DType, shape: seq<nat>, data: seq<int>, device: Device)

  function Product(shape: seq<nat>): nat
    decreases |shape|
  {
    if shape == [] then 1 else shape[0] * Product(shape[1..])
  }

  /** `tensor.numel()`. */
  function Numel(t: Tensor): nat {
    Product(t.shape)
  }

  const TWO_16: nat := 0x1_0000
  const TWO_32: nat := 0x1_0000_0000
  const TWO_64: nat := 0x1_0000_0000_0000_0000

  /** An unsigned 32-bit word. */
  type Word = x: int | 0 <= x < 0x1_0000_0000

  function Byte(v: int): nat {
    v % 0x100
  }

  function Half(v: int): nat {
    v % TWO_16
  }

  /** `tensor.view(torch.uint32)` of a one-dimensional tensor: the same bytes
      (little-endian) read as 32-bit words. A narrower element type needs an
      element count that fills whole words, or the view fails (`None`). */
  function AsWords(t: Tensor): Option<seq<Word>> {
    var d := t.data;
    match StorageWidth(t.dtype)
    case 4 => Some(seq(|d|, i requires 0 <= i < |d| => d[i] % TWO_32))
    case 8 => Some(seq(2 * |d|, i requires 0 <= i < 2 * |d| =>
                 var v := d[i / 2] % TWO_64;
                 if i % 2 == 0 then v % TWO_32 else v / TWO_32))
    case 2 =>
      if |d| % 2 != 0 then None
      else Some(seq(|d| / 2, i requires 0 <= i < |d| / 2 =>
                  Half(d[2 * i]) + TWO_16 * Half(d[2 * i + 1])))
    case _ =>
      if |d| % 4 != 0 then None
      else Some(seq(|d| / 4, i requires 0 <= i < |d| / 4 =>
                  Byte(d[4 * i]) + 0x100 * Byte(d[4 * i + 1])
                  + 0x1_0000 * Byte(d[4 * i + 2]) + 0x100_0000 * Byte(d[4 * i + 3])))
  }

  /** Reading a 4-byte integer tensor as words keeps every value modulo 2^32, so
      a tensor of uint32 values reads back unchanged. */
  lemma WordsOfWidthFour(t: Tensor)
    requires StorageWidth(t.dtype) == 4
    ensures AsWords(t).Some? && |AsWords(t).value| == |t.data|
    ensures forall i :: 0 <= i < |t.data| ==> AsWords(t).value[i] == t.data[i] % TWO_32
    ensures (forall i :: 0 <= i < |t.data| ==> 0 <= t.data[i] < TWO_32) ==> AsWords(t).value == t.data
  {
  }

  /** An 8-byte tensor reads as twice as many words: for every element, the
      low word then the high word of its two's-complement 64-bit pattern; a
      value that fits in 32 unsigned bits reads as itself followed by zero. */
  lemma WordsOfWidthEight(t: Tensor)
    requires StorageWidth(t.dtype) == 8
    ensures AsWords(t).Some? && |AsWords(t).value| == 2 * |t.data|
    ensures forall i :: 0 <= i < |t.data| ==>
      AsWords(t).value[2 * i] + TWO_32 * AsWords(t).value[2 * i + 1] == t.data[i] % TWO_64
    ensures forall i :: 0 <= i < |t.data| && 0 <= t.data[i] < TWO_32 ==>
      AsWords(t).value[2 * i] == t.data[i] && AsWords(t).value[2 * i + 1] == 0
  {
    var w := AsWords(t).value;
    forall i | 0 <= i < |t.data|
      ensures w[2 * i] + TWO_32 * w[2 * i + 1] == t.data[i] % TWO_64
      ensures 0 <= t.data[i] < TWO_32 ==> w[2 * i] == t.data[i] && w[2 * i + 1] == 0
    {
      assert (2 * i) / 2 == i && (2 * i) % 2 == 0;
      assert (2 * i + 1) / 2 == i && (2 * i + 1) % 2 == 1;
      var v := t.data[i] % TWO_64;
      assert v == (v / TWO_32) * TWO_32 + v % TWO_32;
    }
  }
}

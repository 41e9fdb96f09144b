/** Element types and sizes of tensors. */
module Tensors {
  type Byte = bv8

  datatype DataType =
    | UInt8 | UInt16 | UInt32 | UInt64
    | Int8 | Int16 | Int32 | Int64
    | Float32 | Float64 | Complex64 | Complex128
    | Unknown

  function SizeOf(t: DataType): nat {
    match t
    case UInt8 | Int8 => 1
    case UInt16 | Int16 => 2
    case UInt32 | Int32 | Float32 => 4
    case UInt64 | Int64 | Float64 | Complex64 => 8
    case Complex128 => 16
    case Unknown => 0
  }

  function Product(dims: seq<nat>): nat {
    if dims == [] then 1 else dims[0] * Product(dims[1..])
  }

  /** The four dimensions a tensor stores: the given ones, then ones. */
  function PadWithOnes(dims: seq<nat>): (p: seq<nat>)
    requires |dims| <= 4
    ensures |p| == 4 && dims <= p
  {
    dims + seq(4 - |dims|, _ => 1)
  }

  function NumElements(dims: seq<nat>): nat
    requires |dims| == 4
  {
    dims[0] * dims[1] * dims[2] * dims[3]
  }

  lemma ProductOf(dims: seq<nat>, head: nat, tail: seq<nat>)
    requires dims == [head] + tail
    ensures Product(dims) == head * Product(tail)
  {
    assert dims[1..] == tail;
  }

  lemma ProductOfFour(a: nat, b: nat, c: nat, d: nat)
    ensures Product([a, b, c, d]) == a * b * c * d
  {
    ProductOf([a, b, c, d], a, [b, c, d]);
    ProductOf([b, c, d], b, [c, d]);
    ProductOf([c, d], c, [d]);
    ProductOf([d], d, []);
    Associate(a, b, c * d);
    Associate(b, c, d);
    Associate(a * b, c, d);
  }

  lemma Associate(a: nat, b: nat, c: nat)
    ensures a * (b * c) == a * b * c
  {
  }

  lemma {:induction false} ProductOneMore(dims: seq<nat>, i: nat)
    requires i < |dims|
    ensures Product(dims[..i + 1]) == Product(dims[..i]) * dims[i]
    decreases i
  {
    if i == 0 {
      ProductOf(dims[..1], dims[0], []);
    } else {
      var rest := dims[1..];
      ProductOneMore(rest, i - 1);
      ProductOf(dims[..i], dims[0], rest[..i - 1]);
      ProductOf(dims[..i + 1], dims[0], rest[..i]);
      Associate(dims[0], Product(rest[..i - 1]), dims[i]);
    }
  }

  lemma PaddingKeepsProduct(dims: seq<nat>)
    requires |dims| <= 4
    ensures NumElements(PadWithOnes(dims)) == Product(dims)
  {
    var p := PadWithOnes(dims);
    ProductOfFour(p[0], p[1], p[2], p[3]);
    assert p == [p[0], p[1], p[2], p[3]];
    ProductPadded(dims, 4 - |dims|);
  }

  lemma {:induction false} ProductPadded(dims: seq<nat>, k: nat)
    ensures Product(dims + seq(k, _ => 1)) == Product(dims)
    decreases |dims| + k
  {
    var ones := seq(k, _ => 1);
    if dims == [] && k == 0 {
    } else if dims != [] {
      ProductOf(dims + ones, dims[0], dims[1..] + ones);
      ProductPadded(dims[1..], k);
    } else {
      var fewer := seq(k - 1, _ => 1);
      ProductOf(dims + ones, 1, fewer);
      ProductPadded([], k - 1);
      assert [] + fewer == fewer;
    }
  }
}

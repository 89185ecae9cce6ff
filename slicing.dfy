// Strided slicing of a tensor view (src/slice.rs): per-dimension index
// specifications are resolved against the shape, and an odometer over the
// selected region yields one element-sized byte slice per step.
module Slicing {

  import opened Wrappers
  import opened Bytes
  import opened Dtypes
  import opened TensorMetadata
  import opened Container

  // ---------------------------------------------------------------------
  // Index specifications
  // ---------------------------------------------------------------------

  /** One end of a range, as `core::ops::Bound` describes it. */
  datatype Bound = Included(n: nat) | Excluded(n: nat) | Unbounded

  /** A single index (which keeps the dimension, with extent 1) or a range. */
  datatype IndexOp = Single(index: nat) | Slice(start: Bound, end: Bound)

  /** A `TensorIndexer`: the operations for one dimension, applied in order. */
  type Indexer = seq<IndexOp>

  datatype InvalidSlice =
    | TooManySlices
    | SliceOutOfRange(dimIndex: nat, asked: nat, dimSize: nat)
    | MisalignedSlice

  /** The first selected position a start bound asks for. */
  function StartOf(b: Bound): nat
  {
    match b
    case Included(n) => n
    case Excluded(n) => n + 1
    case Unbounded => 0
  }

  /** The position just past the selection that an end bound asks for. */
  function EndOf(b: Bound, dimSize: nat): nat
  {
    match b
    case Included(n) => n + 1
    case Excluded(n) => n
    case Unbounded => dimSize
  }

  /** The half-open range an operation asks for on a dimension of size `dimSize`. */
  function Requested(op: IndexOp, dimSize: nat): (nat, nat)
  {
    match op
    case Single(idx) => (idx, idx + 1)
    case Slice(s, e) => (StartOf(s), EndOf(e, dimSize))
  }

  /**
   * One operation on dimension `i`: the requested range is accepted when it
   * starts inside the dimension, ends inside it and is not reversed;
   * otherwise the error reports the start if that is past the end of the
   * dimension, and the end in every other case.
   */
  function ApplyOp(op: IndexOp, i: nat, dimSize: nat): (r: Result<(nat, nat), InvalidSlice>)
    ensures var (s, e) := Requested(op, dimSize);
      (r.Ok? <==> s < dimSize && e <= dimSize && s <= e) &&
      (r.Ok? ==> r.value == (s, e)) &&
      (r.Err? ==> r.error == SliceOutOfRange(i, if s >= dimSize then s else e, dimSize))
  {
    match op
    case Single(idx) =>
      if idx >= dimSize then Err(SliceOutOfRange(i, idx, dimSize))
      else Ok((idx, idx + 1))
    case Slice(sb, eb) =>
      var start := StartOf(sb);
      var end := EndOf(eb, dimSize);
      if start >= dimSize || end > dimSize || start > end then
        Err(SliceOutOfRange(i, if start >= dimSize then start else end, dimSize))
      else Ok((start, end))
  }

  /**
   * All operations of one indexer, in order, starting from the full range:
   * every operation is checked, the first rejected one decides the error,
   * and the last accepted one decides the range.
   */
  function DimRange(ops: Indexer, i: nat, dimSize: nat): (r: Result<(nat, nat), InvalidSlice>)
    ensures r.Ok? <==> forall k :: 0 <= k < |ops| ==> ApplyOp(ops[k], i, dimSize).Ok?
    ensures r.Ok? && ops == [] ==> r.value == (0, dimSize)
    ensures r.Ok? && ops != [] ==> r == ApplyOp(ops[|ops| - 1], i, dimSize)
    ensures r.Err? ==> exists k :: (0 <= k < |ops| && r == ApplyOp(ops[k], i, dimSize) &&
      forall j :: 0 <= j < k ==> ApplyOp(ops[j], i, dimSize).Ok?)
    decreases |ops|
  {
    if ops == [] then Ok((0, dimSize))
    else
      var init := ops[..|ops| - 1];
      assert forall k :: 0 <= k < |init| ==> init[k] == ops[k];
      var _ :- DimRange(init, i, dimSize);
      ApplyOp(ops[|ops| - 1], i, dimSize)
  }

  /** The range of dimension `i`: its indexer if one was given, else the whole dimension. */
  function DimSpec(shape: seq<nat>, slices: seq<Indexer>, i: nat): Result<(nat, nat), InvalidSlice>
    requires i < |shape|
  {
    if i < |slices| then DimRange(slices[i], i, shape[i]) else Ok((0, shape[i]))
  }

  /** The ranges of the first `m` dimensions; the first rejected dimension decides the error. */
  function RangesUpTo(shape: seq<nat>, slices: seq<Indexer>, m: nat): (r: Result<seq<(nat, nat)>, InvalidSlice>)
    requires m <= |shape|
    ensures r.Ok? <==> forall j :: 0 <= j < m ==> DimSpec(shape, slices, j).Ok?
    ensures r.Ok? ==> |r.value| == m && forall j :: 0 <= j < m ==> Ok(r.value[j]) == DimSpec(shape, slices, j)
    ensures r.Err? ==> exists j :: (0 <= j < m && Err(r.error) == DimSpec(shape, slices, j) &&
      forall j' :: 0 <= j' < j ==> DimSpec(shape, slices, j').Ok?)
    decreases m
  {
    if m == 0 then Ok([])
    else
      var prev :- RangesUpTo(shape, slices, m - 1);
      var range :- DimSpec(shape, slices, m - 1);
      Ok(prev + [range])
  }

  /**
   * The range resolution of `SliceIterator::new`: more indexers than
   * dimensions is `TooManySlices`; otherwise every operation of every
   * indexer must be accepted, and each dimension gets the range of its last
   * operation, or all of itself when it has none.
   */
  function Resolution(shape: seq<nat>, slices: seq<Indexer>): (r: Result<seq<(nat, nat)>, InvalidSlice>)
    ensures r == Err(TooManySlices) <==> |slices| > |shape|
    ensures r.Ok? <==> |slices| <= |shape| && forall j, k :: 0 <= j < |slices| && 0 <= k < |slices[j]| ==>
      ApplyOp(slices[j][k], j, shape[j]).Ok?
    ensures r.Ok? ==> |r.value| == |shape| && forall j :: 0 <= j < |shape| ==>
      r.value[j].0 <= r.value[j].1 <= shape[j] &&
      (j < |slices| && slices[j] != [] ==> r.value[j] == Requested(slices[j][|slices[j]| - 1], shape[j])) &&
      (j >= |slices| || slices[j] == [] ==> r.value[j] == (0, shape[j]))
  {
    if |slices| > |shape| then Err(TooManySlices)
    else
      var r := RangesUpTo(shape, slices, |shape|);
      assert r.Err? ==> r.error.SliceOutOfRange?;
      assert forall j :: 0 <= j < |slices| ==> DimSpec(shape, slices, j) == DimRange(slices[j], j, shape[j]);
      r
  }

  /** Index 5 on the first dimension, of size 2, is out of range: `(0, 5, 2)`. */
  lemma SingleOutOfRange()
    ensures Resolution([2, 3, 4], [[Single(5)]]) == Err(SliceOutOfRange(0, 5, 2))
  {
    assert DimSpec([2, 3, 4], [[Single(5)]], 0) == Err(SliceOutOfRange(0, 5, 2));
  }

  /** A range may be empty, but never start at the end of the dimension. */
  lemma EmptyRangeAtEnd()
    ensures Resolution([3], [[Slice(Included(1), Excluded(1))]]) == Ok([(1, 1)])
    ensures Resolution([3], [[Slice(Included(3), Excluded(3))]]) == Err(SliceOutOfRange(0, 3, 3))
  {
    assert DimSpec([3], [[Slice(Included(1), Excluded(1))]], 0) == Ok((1, 1));
    assert RangesUpTo([3], [[Slice(Included(1), Excluded(1))]], 0) == Ok([]);
    assert RangesUpTo([3], [[Slice(Included(1), Excluded(1))]], 1) == Ok([] + [(1, 1)]);
    assert [] + [(1, 1)] == [(1, 1)];
    assert DimSpec([3], [[Slice(Included(3), Excluded(3))]], 0) == Err(SliceOutOfRange(0, 3, 3));
  }

  // ---------------------------------------------------------------------
  // Strides and addresses
  // ---------------------------------------------------------------------

  /** Row-major strides: each dimension's stride is the product of the later extents. */
  predicate RowMajor(strides: seq<nat>, shape: seq<nat>)
  {
    |strides| == |shape| && forall i :: 0 <= i < |shape| ==> strides[i] == Product(shape[i + 1..])
  }

  /**
   * The stride computation of `SliceIterator::new`: walk the shape from the
   * last dimension, pushing the running stride and then multiplying it by
   * the extent, and reverse the result.
   */
  method RowMajorStrides(shape: seq<nat>) returns (strides: seq<nat>)
    ensures |strides| == |shape|
    ensures forall i :: 0 <= i < |shape| ==> strides[i] == Product(shape[i + 1..])
  {
    var pushed: seq<nat> := [];
    var stride := 1;
    var j := |shape|;
    while j > 0
      invariant 0 <= j <= |shape|
      invariant |pushed| == |shape| - j
      invariant stride == Product(shape[j..])
      invariant forall k :: 0 <= k < |pushed| ==> pushed[k] == Product(shape[|shape| - k..])
    {
      j := j - 1;
      pushed := pushed + [stride];
      assert shape[j..][1..] == shape[j + 1..];
      stride := stride * shape[j];
    }
    strides := seq(|shape|, i requires 0 <= i < |shape| => pushed[|shape| - 1 - i]);
  }

  /** The last stride is 1, and each other stride is the next extent times the next stride. */
  lemma StrideStep(strides: seq<nat>, shape: seq<nat>)
    requires RowMajor(strides, shape) && shape != []
    ensures strides[|shape| - 1] == 1
    ensures forall i :: 0 <= i < |shape| - 1 ==> strides[i] == shape[i + 1] * strides[i + 1]
  {
    assert shape[|shape|..] == [];
    forall i | 0 <= i < |shape| - 1
      ensures strides[i] == shape[i + 1] * strides[i + 1]
    {
      assert shape[i + 1..][1..] == shape[i + 2..];
    }
  }

  /** Σ (starts[i] + c[i]) · strides[i]: the element of the tensor a counter vector designates. */
  function Address(starts: seq<nat>, c: seq<nat>, strides: seq<nat>): nat
    requires |starts| == |c| == |strides|
    decreases |c|
  {
    if c == [] then 0
    else
      var n := |c| - 1;
      Address(starts[..n], c[..n], strides[..n]) + (starts[n] + c[n]) * strides[n]
  }

  lemma MulMono(a: nat, b: nat, p: nat)
    requires a <= b
    ensures a * p <= b * p
  {
  }

  lemma MulCancel(a: nat, b: nat, p: nat)
    requires a * p < b * p
    ensures a < b
  {
    if a >= b {
      MulMono(b, a, p);
    }
  }

  lemma MulSucc(q: nat, m: nat)
    ensures (q + 1) * m == q * m + m
  {
  }

  lemma {:induction false} AddressPrefixBound(shape: seq<nat>, strides: seq<nat>, starts: seq<nat>, c: seq<nat>, m: nat)
    requires RowMajor(strides, shape) && |starts| == |c| == |shape|
    requires forall i :: 0 <= i < |c| ==> starts[i] + c[i] < shape[i]
    requires m <= |shape|
    ensures Address(starts[..m], c[..m], strides[..m]) + Product(shape[m..]) <= Product(shape)
    decreases m
  {
    if m == 0 {
      assert shape[0..] == shape;
    } else {
      var k := m - 1;
      AddressPrefixBound(shape, strides, starts, c, k);
      assert starts[..m][..k] == starts[..k];
      assert c[..m][..k] == c[..k];
      assert strides[..m][..k] == strides[..k];
      var before := Address(starts[..k], c[..k], strides[..k]);
      var d := starts[k] + c[k];
      var p := Product(shape[m..]);
      assert shape[k..][1..] == shape[m..];
      assert Product(shape[k..]) == shape[k] * p;
      assert strides[k] == p;
      assert Address(starts[..m], c[..m], strides[..m]) == before + d * p;
      MulMono(d + 1, shape[k], p);
      MulSucc(d, p);
    }
  }

  /** A position inside the shape on every dimension designates an element inside the tensor. */
  lemma AddressInBounds(shape: seq<nat>, strides: seq<nat>, starts: seq<nat>, c: seq<nat>)
    requires RowMajor(strides, shape) && |starts| == |c| == |shape|
    requires forall i :: 0 <= i < |c| ==> starts[i] + c[i] < shape[i]
    ensures Address(starts, c, strides) < Product(shape)
  {
    AddressPrefixBound(shape, strides, starts, c, |shape|);
    assert starts[..|shape|] == starts && c[..|shape|] == c && strides[..|shape|] == strides;
    assert shape[|shape|..] == [];
  }

  // ---------------------------------------------------------------------
  // The odometer
  // ---------------------------------------------------------------------

  /** Every counter is below its extent. */
  predicate Bounded(c: seq<nat>, extents: seq<nat>)
  {
    |c| == |extents| && forall i :: 0 <= i < |c| ==> c[i] < extents[i]
  }

  /** The row-major ordinal of a counter vector: the last counter varies fastest. */
  function Ordinal(c: seq<nat>, extents: seq<nat>): nat
    requires |c| == |extents|
    decreases |c|
  {
    if c == [] then 0
    else
      var n := |c| - 1;
      Ordinal(c[..n], extents[..n]) * extents[n] + c[n]
  }

  /**
   * One step of the carry loop of `next`: add one to the last counter; a
   * counter that reaches its extent restarts at 0 and carries into the
   * counter before it.
   */
  function Inc(c: seq<nat>, extents: seq<nat>): (r: seq<nat>)
    requires |c| == |extents|
    ensures |r| == |c|
    decreases |c|
  {
    if c == [] then []
    else
      var n := |c| - 1;
      if c[n] + 1 >= extents[n] then Inc(c[..n], extents[..n]) + [0]
      else c[..n] + [c[n] + 1]
  }

  /** `n` counters at zero, as `vec![0; n]` creates them. */
  function Zeros(n: nat): (r: seq<nat>)
    ensures |r| == n && forall i :: 0 <= i < n ==> r[i] == 0
  {
    seq(n, _ => 0)
  }

  lemma {:induction false} ProductLast(s: seq<nat>)
    requires s != []
    ensures Product(s) == Product(s[..|s| - 1]) * s[|s| - 1]
    decreases |s|
  {
    if |s| > 1 {
      var t := s[1..];
      ProductLast(t);
      assert t[..|t| - 1] == s[..|s| - 1][1..];
      var x := Product(t[..|t| - 1]);
      var last := s[|s| - 1];
      assert Product(s) == s[0] * (x * last);
      assert Product(s[..|s| - 1]) == s[0] * x;
      MulAssoc(s[0], x, last);
    }
  }

  lemma {:induction false} PositiveFactors(s: seq<nat>)
    requires Product(s) > 0
    ensures forall i :: 0 <= i < |s| ==> s[i] > 0
    decreases |s|
  {
    if s != [] {
      PositiveFactors(s[1..]);
      assert forall i :: 1 <= i < |s| ==> s[i] == s[1..][i - 1];
    }
  }

  /** The counters start at ordinal 0, inside the extents whenever the selection is not empty. */
  lemma ZerosOrdinal(extents: seq<nat>)
    requires Product(extents) > 0
    ensures Bounded(Zeros(|extents|), extents) && Ordinal(Zeros(|extents|), extents) == 0
  {
    PositiveFactors(extents);
    ZerosOrdinalFrom(extents);
  }

  lemma {:induction false} ZerosOrdinalFrom(extents: seq<nat>)
    ensures Ordinal(Zeros(|extents|), extents) == 0
    decreases |extents|
  {
    if extents != [] {
      var n := |extents| - 1;
      ZerosOrdinalFrom(extents[..n]);
      assert Zeros(|extents|)[..n] == Zeros(n);
    }
  }

  /** Below the last position, one step of the odometer moves to the next ordinal and stays in range. */
  lemma {:induction false} IncOrdinal(c: seq<nat>, extents: seq<nat>)
    requires Bounded(c, extents) && Ordinal(c, extents) + 1 < Product(extents)
    ensures Bounded(Inc(c, extents), extents) && Ordinal(Inc(c, extents), extents) == Ordinal(c, extents) + 1
    decreases |c|, 1
  {
    var n := |c| - 1;
    if c[n] + 1 >= extents[n] {
      IncOrdinalCarry(c, extents);
    } else {
      var r := Inc(c, extents);
      assert r[..n] == c[..n];
    }
  }

  lemma {:induction false} IncOrdinalCarry(c: seq<nat>, extents: seq<nat>)
    requires Bounded(c, extents) && Ordinal(c, extents) + 1 < Product(extents)
    requires c != [] && c[|c| - 1] + 1 >= extents[|c| - 1]
    ensures Bounded(Inc(c, extents), extents) && Ordinal(Inc(c, extents), extents) == Ordinal(c, extents) + 1
    decreases |c|, 0
  {
    var n := |c| - 1;
    var ci, ei := c[..n], extents[..n];
    assert Bounded(ci, ei);
    var m := extents[n];
    var q := Ordinal(ci, ei);
    var p := Product(ei);
    assert Ordinal(c, extents) == q * m + c[n];
    ProductLast(extents);
    MulSucc(q, m);
    MulCancel(q + 1, p, m);
    IncOrdinal(ci, ei);
    var t := Inc(ci, ei);
    assert Inc(c, extents) == t + [0];
    assert (t + [0])[..n] == t;
    assert Ordinal(t + [0], extents) == Ordinal(t, ei) * m;
  }

  /** The last digit of the last ordinal is its maximum, and the ordinal of the rest is also the last. */
  lemma LastDigit(q: nat, p: nat, m: nat, d: nat)
    requires d < m && q < p && q * m + d + 1 == p * m
    ensures d + 1 == m && q + 1 == p
  {
    MulMono(q + 1, p, m);
    MulSucc(q, m);
    MulSucc(q + 1, m);
    MulCancel(p, q + 2, m);
  }

  /** After the last position the odometer returns to all zeros. */
  lemma {:induction false} IncWraps(c: seq<nat>, extents: seq<nat>)
    requires Bounded(c, extents) && Ordinal(c, extents) + 1 == Product(extents)
    ensures Inc(c, extents) == Zeros(|c|)
    decreases |c|
  {
    if c != [] {
      var n := |c| - 1;
      var ci, ei := c[..n], extents[..n];
      assert Bounded(ci, ei);
      var m := extents[n];
      var q := Ordinal(ci, ei);
      assert Ordinal(c, extents) == q * m + c[n];
      ProductLast(extents);
      OrdinalBelow(ci, ei);
      LastDigit(q, Product(ei), m, c[n]);
      IncWraps(ci, ei);
      assert Inc(c, extents) == Zeros(n) + [0];
    }
  }

  /** The ordinal of counters inside the extents is below the product of the extents. */
  lemma {:induction false} OrdinalBelow(c: seq<nat>, extents: seq<nat>)
    requires Bounded(c, extents)
    ensures Ordinal(c, extents) < Product(extents)
    decreases |c|
  {
    if c != [] {
      var n := |c| - 1;
      var ci, ei := c[..n], extents[..n];
      assert Bounded(ci, ei);
      OrdinalBelow(ci, ei);
      ProductLast(extents);
      var m := extents[n];
      var q := Ordinal(ci, ei);
      assert Ordinal(c, extents) == q * m + c[n];
      MulSucc(q, m);
      MulMono(q + 1, Product(ei), m);
    }
  }

  lemma DigitUnique(q: nat, q': nat, a: nat, b: nat, m: nat)
    requires a < m && b < m && q * m + a == q' * m + b
    ensures q == q' && a == b
  {
    if q < q' {
      MulMono(q + 1, q', m);
      MulSucc(q, m);
    } else if q' < q {
      MulMono(q' + 1, q, m);
      MulSucc(q', m);
    }
  }

  /** Counters inside the extents are determined by their ordinal. */
  lemma {:induction false} OrdinalInjective(c: seq<nat>, d: seq<nat>, extents: seq<nat>)
    requires Bounded(c, extents) && Bounded(d, extents)
    requires Ordinal(c, extents) == Ordinal(d, extents)
    ensures c == d
    decreases |c|
  {
    if c != [] {
      var n := |c| - 1;
      assert Bounded(c[..n], extents[..n]) && Bounded(d[..n], extents[..n]);
      DigitUnique(Ordinal(c[..n], extents[..n]), Ordinal(d[..n], extents[..n]), c[n], d[n], extents[n]);
      OrdinalInjective(c[..n], d[..n], extents[..n]);
      assert c == c[..n] + [c[n]] && d == d[..n] + [d[n]];
    }
  }

  // ---------------------------------------------------------------------
  // Row-major order, and the iterator as the source writes it
  // ---------------------------------------------------------------------

  lemma Horner(a: nat, s: nat, c: nat, p: nat)
    ensures a * (s * p) + c * p == (a * s + c) * p
  {
  }

  /**
   * The linear index as `next` computes it: Σ counter · stride, with the
   * start of the selection left out. It is the address with every start 0.
   */
  function WrittenAddress(c: seq<nat>, strides: seq<nat>): (r: nat)
    requires |c| == |strides|
    ensures r == Address(Zeros(|c|), c, strides)
    decreases |c|
  {
    if c == [] then 0
    else
      var n := |c| - 1;
      assert Zeros(|c|)[..n] == Zeros(n);
      WrittenAddress(c[..n], strides[..n]) + c[n] * strides[n]
  }

  lemma {:induction false} OrdinalPrefix(shape: seq<nat>, strides: seq<nat>, c: seq<nat>, m: nat)
    requires RowMajor(strides, shape) && |c| == |shape| && m <= |shape|
    ensures WrittenAddress(c[..m], strides[..m]) == Ordinal(c[..m], shape[..m]) * Product(shape[m..])
    decreases m
  {
    if m > 0 {
      var k := m - 1;
      OrdinalPrefix(shape, strides, c, k);
      assert c[..m][..k] == c[..k];
      assert strides[..m][..k] == strides[..k];
      assert shape[..m][..k] == shape[..k];
      var p := Product(shape[m..]);
      assert shape[k..][1..] == shape[m..];
      assert Product(shape[k..]) == shape[k] * p;
      assert strides[k] == p;
      var a := Ordinal(c[..k], shape[..k]);
      assert Ordinal(c[..m], shape[..m]) == a * shape[k] + c[k];
      assert WrittenAddress(c[..m], strides[..m]) == a * (shape[k] * p) + c[k] * p;
      Horner(a, shape[k], c[k], p);
    }
  }

  /**
   * Over row-major strides, the address of counters with every start 0 is
   * their row-major ordinal: counting through the whole shape visits the
   * elements 0, 1, 2, ... in storage order.
   */
  lemma RowMajorOrder(shape: seq<nat>, strides: seq<nat>, c: seq<nat>)
    requires RowMajor(strides, shape) && |c| == |shape|
    ensures WrittenAddress(c, strides) == Ordinal(c, shape)
  {
    var n := |shape|;
    OrdinalPrefix(shape, strides, c, n);
    assert c[..n] == c && strides[..n] == strides && shape[..n] == shape;
    assert shape[n..] == [];
    var o := Ordinal(c, shape);
    assert WrittenAddress(c, strides) == o * 1;
  }

  /**
   * Index 1 on the first dimension of a `[2, 3, 4]` tensor selects the
   * elements 12 to 23; as written, the first item is element 0, because the
   * start of the selection is not added.
   */
  lemma WrittenDropsStart()
    ensures Resolution([2, 3, 4], [[Single(1)]]) == Ok([(1, 2), (0, 3), (0, 4)])
    ensures RowMajor([12, 4, 1], [2, 3, 4])
    ensures WrittenAddress([0, 0, 0], [12, 4, 1]) == 0
    ensures Address([1, 0, 0], [0, 0, 0], [12, 4, 1]) == 12
  {
    var slices := [[Single(1)]];
    assert DimSpec([2, 3, 4], slices, 0) == Ok((1, 2));
    assert DimSpec([2, 3, 4], slices, 1) == Ok((0, 3));
    assert DimSpec([2, 3, 4], slices, 2) == Ok((0, 4));
    var r := RangesUpTo([2, 3, 4], slices, 3);
    assert r.Ok? && r.value[0] == (1, 2) && r.value[1] == (0, 3) && r.value[2] == (0, 4);
    assert r.value == [(1, 2), (0, 3), (0, 4)];
    assert Resolution([2, 3, 4], slices) == r;
    assert [2, 3, 4][1..] == [3, 4] && [3, 4][1..] == [4] && [2, 3, 4][2..] == [4];
    assert [2, 3, 4][3..] == [];
  }

  /** The first two columns of a `[2, 3]` tensor: extents `[2, 2]`, both starting at 0. */
  lemma FirstTwoColumns()
    ensures Resolution([2, 3], [[], [Slice(Unbounded, Excluded(2))]]) == Ok([(0, 2), (0, 2)])
  {
    var slices: seq<Indexer> := [[], [Slice(Unbounded, Excluded(2))]];
    assert DimSpec([2, 3], slices, 0) == Ok((0, 2));
    assert DimSpec([2, 3], slices, 1) == Ok((0, 2));
    var r := RangesUpTo([2, 3], slices, 2);
    assert r.Ok? && r.value[0] == (0, 2) && r.value[1] == (0, 2);
    assert r.value == [(0, 2), (0, 2)];
  }

  /**
   * For the first two columns of a `[2, 3]` tensor (extents `[2, 2]`), as
   * written the counters run up to the original extents, so the step after
   * counters `[0, 1]` reaches `[0, 2]`, outside the selection, where the
   * selected extents give `[1, 0]`: the third item is element 2 rather
   * than element 3.
   */
  lemma WrittenCarryOverruns()
    ensures Resolution([2, 3], [[], [Slice(Unbounded, Excluded(2))]]) == Ok([(0, 2), (0, 2)])
    ensures RowMajor([3, 1], [2, 3])
    ensures Inc([0, 1], [2, 3]) == [0, 2] && !Bounded([0, 2], [2, 2])
    ensures Inc([0, 1], [2, 2]) == [1, 0]
    ensures WrittenAddress([0, 2], [3, 1]) == 2 && Address([0, 0], [1, 0], [3, 1]) == 3
  {
    FirstTwoColumns();
    assert [2, 3][1..] == [3] && [2, 3][2..] == [];
    assert [0, 1][..1] == [0];
    assert [0, 2][1] == 2;
  }

  // ---------------------------------------------------------------------
  // The iterator
  // ---------------------------------------------------------------------

  /** The `size` bytes of element `address`, or None when they are not all inside `data`. */
  function Element(data: seq<byte>, address: nat, size: nat): Option<seq<byte>>
  {
    var start := address * size;
    var end := start + size;
    if start < |data| && end <= |data| then Some(data[start..end]) else None
  }

  lemma EightTimes(x: nat)
    ensures (8 * x) / 8 == x
  {
  }

  /** A view that `TensorView::new` accepts holds exactly one whole-byte element per position. */
  lemma WholeBytes(view: TensorView)
    requires NewView(view.dtype, view.shape, view.data).Ok? && ByteSize(view.dtype) > 0
    ensures |view.data| == Product(view.shape) * ByteSize(view.dtype)
  {
    var b := ByteSize(view.dtype);
    var p := Product(view.shape);
    assert BitSize(view.dtype) == 8 * b;
    MulAssoc(p, 8, b);
    assert p * BitSize(view.dtype) == 8 * (p * b);
    EightTimes(p * b);
  }

  /** An element below the element count of a whole-byte view is inside its data. */
  lemma ElementPresent(data: seq<byte>, address: nat, size: nat, count: nat)
    requires address < count && |data| == count * size && size > 0
    ensures Element(data, address, size).Some?
  {
    MulMono(address + 1, count, size);
    MulSucc(address, size);
  }

  /** The selected region as `SliceIterator::new` records it: the start and extent of every range. */
  predicate Selection(starts: seq<nat>, newShape: seq<nat>, ranges: seq<(nat, nat)>)
  {
    |starts| == |newShape| == |ranges| &&
    forall j :: 0 <= j < |ranges| ==> starts[j] == ranges[j].0 && ranges[j].0 + newShape[j] == ranges[j].1
  }

  /** The first rejected operation, in dimension order and then operation order, is the error of the resolution. */
  lemma Rejected(shape: seq<nat>, slices: seq<Indexer>, i: nat, k: nat)
    requires |slices| <= |shape| && i < |slices| && k < |slices[i]|
    requires forall j :: 0 <= j < i ==> DimSpec(shape, slices, j).Ok?
    requires DimRange(slices[i][..k], i, shape[i]).Ok?
    requires ApplyOp(slices[i][k], i, shape[i]).Err?
    ensures Resolution(shape, slices).Err?
    ensures Resolution(shape, slices).error == ApplyOp(slices[i][k], i, shape[i]).error
  {
    var ops := slices[i];
    assert forall j :: 0 <= j < k ==> ops[..k][j] == ops[j];
    var d := DimRange(ops, i, shape[i]);
    assert d.Err?;
    var k' :| 0 <= k' < |ops| && d == ApplyOp(ops[k'], i, shape[i]) &&
      forall j :: 0 <= j < k' ==> ApplyOp(ops[j], i, shape[i]).Ok?;
    assert k' == k;
    assert DimSpec(shape, slices, i) == d;
    var r := RangesUpTo(shape, slices, |shape|);
    assert r.Err?;
    var i' :| 0 <= i' < |shape| && Err(r.error) == DimSpec(shape, slices, i') &&
      forall j' :: 0 <= j' < i' ==> DimSpec(shape, slices, j').Ok?;
    assert i' == i;
  }

  /**
   * In a view that `TensorView::new` accepts, of a whole-byte type, the
   * element at any counters inside a selection that lies inside the shape
   * is present in the data.
   */
  lemma ItemInside(view: TensorView, strides: seq<nat>, starts: seq<nat>, newShape: seq<nat>, c: seq<nat>)
    requires RowMajor(strides, view.shape) && |starts| == |newShape| == |view.shape|
    requires forall i :: 0 <= i < |view.shape| ==> starts[i] + newShape[i] <= view.shape[i]
    requires Bounded(c, newShape)
    requires NewView(view.dtype, view.shape, view.data).Ok? && ByteSize(view.dtype) > 0
    ensures Element(view.data, Address(starts, c, strides), ByteSize(view.dtype)).Some?
  {
    AddressInBounds(view.shape, strides, starts, c);
    WholeBytes(view);
    ElementPresent(view.data, Address(starts, c, strides), ByteSize(view.dtype), Product(view.shape));
  }

  /**
   * `SliceIterator`: the view, its original shape and row-major strides, the
   * selected region (start and extent of every dimension), and the odometer
   * state, a counter per dimension and the number of items already yielded.
   */
  class SliceIterator {
    const view: TensorView
    const shape: seq<nat>
    const strides: seq<nat>
    const starts: seq<nat>
    const newShape: seq<nat>
    const nElements: nat
    const elementSize: nat
    const current: array<nat>
    var index: nat

    /**
     * The iterator's invariant: the selection lies inside the shape, and
     * while items remain the counters are inside the selected extents and
     * their row-major ordinal is the number of items already yielded.
     */
    ghost predicate Valid()
      reads this, current
    {
      shape == view.shape &&
      RowMajor(strides, shape) &&
      |starts| == |newShape| == |shape| == current.Length &&
      (forall i :: 0 <= i < |shape| ==> starts[i] + newShape[i] <= shape[i]) &&
      nElements == Product(newShape) &&
      elementSize == ByteSize(view.dtype) &&
      index <= nElements &&
      (index < nElements ==> Bounded(current[..], newShape) && Ordinal(current[..], newShape) == index)
    }

    constructor (view: TensorView, strides: seq<nat>, starts: seq<nat>, newShape: seq<nat>)
      ensures this.view == view && shape == view.shape && this.strides == strides
      ensures this.starts == starts && this.newShape == newShape
      ensures nElements == Product(newShape) && elementSize == ByteSize(view.dtype)
      ensures fresh(current) && current[..] == Zeros(|newShape|) && index == 0
    {
      this.view := view;
      shape := view.shape;
      this.strides := strides;
      this.starts := starts;
      this.newShape := newShape;
      nElements := Product(newShape);
      elementSize := ByteSize(view.dtype);
      current := new nat[|newShape|](_ => 0);
      index := 0;
    }

    /** The item at counters `c`: the element at Σ (start + counter) · stride. */
    function Item(c: seq<nat>): Option<seq<byte>>
      reads this
      requires |c| == |starts| == |strides|
    {
      Element(view.data, Address(starts, c, strides), elementSize)
    }

    /**
     * `SliceIterator::new`: resolve the indexers against the view's shape,
     * record the start and extent of every dimension, compute the strides of
     * the original shape and start the counters at zero.
     */
    static method New(view: TensorView, slices: seq<Indexer>) returns (r: Result<SliceIterator, InvalidSlice>)
      ensures r.Err? <==> Resolution(view.shape, slices).Err?
      ensures r.Err? ==> r.error == Resolution(view.shape, slices).error
      ensures r.Ok? ==> (fresh(r.value) && fresh(r.value.current) && r.value.Valid() &&
        r.value.view == view && r.value.index == 0 &&
        Selection(r.value.starts, r.value.newShape, Resolution(view.shape, slices).value))
    {
      var shape := view.shape;
      if |slices| > |shape| {
        return Err(TooManySlices);
      }
      var newShape: seq<nat> := [];
      var starts: seq<nat> := [];
      var ends: seq<nat> := [];
      for i := 0 to |shape|
        invariant |starts| == |ends| == |newShape| == i
        invariant forall j :: 0 <= j < i ==>
          DimSpec(shape, slices, j) == Ok((starts[j], ends[j])) && newShape[j] == ends[j] - starts[j]
      {
        var dimSize := shape[i];
        var range := (0, dimSize);
        if i < |slices| {
          var ops := slices[i];
          for k := 0 to |ops|
            invariant DimRange(ops[..k], i, dimSize) == Ok(range)
          {
            var step := ApplyOp(ops[k], i, dimSize);
            if step.Err? {
              Rejected(shape, slices, i, k);
              return Err(step.error);
            }
            assert ops[..k + 1][..k] == ops[..k];
            range := step.value;
          }
          assert ops[..|ops|] == ops;
        }
        starts := starts + [range.0];
        ends := ends + [range.1];
        newShape := newShape + [range.1 - range.0];
      }
      var strides := RowMajorStrides(shape);
      ghost var ranges := Resolution(shape, slices).value;
      assert Selection(starts, newShape, ranges);
      var it := new SliceIterator(view, strides, starts, newShape);
      if Product(newShape) > 0 {
        ZerosOrdinal(newShape);
      }
      return Ok(it);
    }

    /** The linear-index loop of `next`: Σ (start + counter) · stride over the dimensions. */
    method LinearIndex() returns (linear: nat)
      requires Valid()
      ensures linear == Address(starts, current[..], strides)
    {
      var n := current.Length;
      linear := 0;
      for i := 0 to n
        invariant linear == Address(starts[..i], current[..i], strides[..i])
      {
        assert starts[..i + 1][..i] == starts[..i];
        assert current[..i + 1][..i] == current[..i];
        assert strides[..i + 1][..i] == strides[..i];
        linear := linear + (starts[i] + current[i]) * strides[i];
      }
      assert starts[..n] == starts && current[..n] == current[..] && strides[..n] == strides;
    }

    /**
     * The carry loop of `next`: from the last dimension, add the carry (always
     * 1 at the head of the loop); a counter that reaches its extent restarts
     * at 0 and the loop goes on, one that stays below it ends the loop.
     */
    method Advance()
      requires current.Length == |newShape|
      modifies current
      ensures current[..] == Inc(old(current[..]), newShape)
    {
      ghost var before := current[..];
      var n := current.Length;
      var i := n;
      assert before[..n] == before && newShape[..n] == newShape;
      assert Inc(before, newShape) + Zeros(0) == Inc(before, newShape);
      while i > 0
        invariant 0 <= i <= n
        invariant forall k :: 0 <= k < i ==> current[k] == before[k]
        invariant forall k :: i <= k < n ==> current[k] == 0
        invariant Inc(before, newShape) == Inc(before[..i], newShape[..i]) + Zeros(n - i)
      {
        i := i - 1;
        assert before[..i + 1][..i] == before[..i];
        assert newShape[..i + 1][..i] == newShape[..i];
        current[i] := current[i] + 1;
        if current[i] >= newShape[i] {
          current[i] := 0;
          assert [0] + Zeros(n - i - 1) == Zeros(n - i);
        } else {
          assert Inc(before, newShape) == before[..i] + [current[i]] + Zeros(n - i - 1);
          assert current[..] == Inc(before, newShape);
          return;
        }
      }
      assert current[..] == Inc(before, newShape);
    }

    /**
     * `Iterator::next`: once all `nElements` items are out, None; otherwise
     * the item at the current counters (None when its bytes are not all
     * inside the data), after which the carry loop advances the counters
     * and the item count goes up by one. A view that `TensorView::new`
     * accepts, of a whole-byte type, has every item inside its data.
     */
    method Next() returns (r: Option<seq<byte>>)
      requires Valid()
      modifies this, current
      ensures Valid()
      ensures old(index) >= nElements ==> r == None && index == old(index) && current[..] == old(current[..])
      ensures old(index) < nElements ==>
        (index == old(index) + 1 && r == Item(old(current[..])) && current[..] == Inc(old(current[..]), newShape))
      ensures old(index) < nElements && NewView(view.dtype, view.shape, view.data).Ok? && elementSize > 0 ==> r.Some?
    {
      if index >= nElements {
        return None;
      }
      ghost var before := current[..];
      var linear := LinearIndex();
      var start: nat := linear * elementSize;
      var end := start + elementSize;
      Advance();
      index := index + 1;
      if start < |view.data| && end <= |view.data| {
        r := Some(view.data[start..end]);
      } else {
        r := None;
      }
      assert r == Item(before);
      if index < nElements {
        IncOrdinal(before, newShape);
        assert Bounded(current[..], newShape) && Ordinal(current[..], newShape) == index;
      }
      if NewView(view.dtype, view.shape, view.data).Ok? && elementSize > 0 {
        ItemInside(view, strides, starts, newShape, before);
      }
    }
  }
}

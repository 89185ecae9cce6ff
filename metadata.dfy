/**
 * The header model: per-tensor descriptors, the ordered table with its
 * name index, and the validation that ties offsets to shapes and widths.
 */
module TensorMetadata {

  import opened Wrappers
  import opened Bytes
  import opened Dtypes
  import Sorting

  /** The library's error kinds (the I/O kind is not part of this model). */
  datatype Error =
    | InvalidHeader                  // the header is not UTF-8
    | InvalidHeaderDeserialization   // the header is not the expected JSON
    | HeaderTooLarge
    | HeaderTooSmall
    | InvalidHeaderLength
    | TensorNotFound(name: string)
    | TensorInvalidInfo
    | InvalidOffset(name: string)
    | JsonError
    | InvalidTensorView(dtype: Dtype, shape: seq<nat>, nBytes: nat)
    | MetadataIncompleteBuffer
    | ValidationOverflow
    | MisalignedSlice
    | Aborted                        // not returned by the library: stands for a panic, which ends the program

  /** One tensor's descriptor; `[start, end)` is its byte range in the payload. */
  datatype TensorInfo = TensorInfo(dtype: Dtype, shape: seq<nat>, start: nat, end: nat)

  /**
   * The ordered table. `names` is the key sequence the table was built from,
   * in order; `indexMap` is the name-to-position map built from it.
   */
  datatype Metadata = Metadata(
    metadata: Option<map<string, string>>,
    tensors: seq<TensorInfo>,
    indexMap: map<string, nat>,
    names: seq<string>)

  /** The name reported for a position that no key maps to. */
  const NO_TENSOR: string := "no_tensor"

  function Product(s: seq<nat>): (r: nat)
    ensures s == [] ==> r == 1
  {
    if s == [] then 1 else s[0] * Product(s[1..])
  }

  /**
   * `try_fold(acc, usize::checked_mul)`: multiplies left to right and gives
   * up at the first intermediate product that does not fit in a `usize`.
   */
  function CheckedProductFrom(acc: nat, s: seq<nat>): (r: Option<nat>)
    requires acc <= USIZE_MAX
    ensures r.Some? ==> r.value == acc * Product(s) && r.value <= USIZE_MAX
    decreases |s|
  {
    if s == [] then Some(acc)
    else if acc * s[0] > USIZE_MAX then None
    else
      assert acc * Product(s) == (acc * s[0]) * Product(s[1..]);
      CheckedProductFrom(acc * s[0], s[1..])
  }

  /** Without zero dimensions, the checked product fails exactly when the product does not fit. */
  lemma {:induction false} CheckedProductExact(acc: nat, s: seq<nat>)
    requires 0 < acc <= USIZE_MAX
    requires forall i :: 0 <= i < |s| ==> s[i] > 0
    ensures CheckedProductFrom(acc, s).None? <==> acc * Product(s) > USIZE_MAX
    decreases |s|
  {
    if s != [] {
      var a := acc * s[0];
      var p := Product(s[1..]);
      assert acc * Product(s) == a * p by {
        MulAssoc(acc, s[0], p);
      }
      ProductPositive(s[1..]);
      if a > USIZE_MAX {
        MulAtLeast(a, p);
      } else {
        assert a > 0 by { MulPositive(acc, s[0]); }
        CheckedProductExact(a, s[1..]);
      }
    }
  }

  lemma MulAssoc(a: int, b: int, c: int)
    ensures a * (b * c) == (a * b) * c
  {
  }

  lemma MulAtLeast(a: nat, p: nat)
    requires p >= 1
    ensures a * p >= a
  {
  }

  lemma MulPositive(a: nat, b: nat)
    requires a > 0 && b > 0
    ensures a * b > 0
  {
  }

  lemma {:induction false} ProductPositive(s: seq<nat>)
    requires forall i :: 0 <= i < |s| ==> s[i] > 0
    ensures Product(s) >= 1
  {
    if s != [] {
      ProductPositive(s[1..]);
    }
  }

  /** The size rule of one descriptor: element and bit counts fit, whole bytes, and the range length matches. */
  ghost predicate SizeConsistent(info: TensorInfo) {
    var nbits := Product(info.shape) * BitSize(info.dtype);
    && CheckedProductFrom(1, info.shape).Some?
    && nbits <= USIZE_MAX
    && nbits % 8 == 0
    && info.start <= info.end
    && info.end - info.start == nbits / 8
  }

  /** The checks `validate` makes on one descriptor, given the running cursor. */
  function CheckEntry(info: TensorInfo, cursor: nat, name: string): (r: Result<nat, Error>)
    ensures r.Ok? <==> info.start == cursor && SizeConsistent(info)
    ensures r.Ok? ==> r.value == info.end
    ensures (info.start != cursor || info.end < info.start) ==> r == Err(InvalidOffset(name))
  {
    if info.start != cursor || info.end < info.start then Err(InvalidOffset(name))
    else match CheckedProductFrom(1, info.shape)
      case None => Err(ValidationOverflow)
      case Some(nelements) =>
        var nbits := nelements * BitSize(info.dtype);
        if nbits > USIZE_MAX then Err(ValidationOverflow)
        else if nbits % 8 != 0 then Err(MisalignedSlice)
        else if info.end - info.start != nbits / 8 then Err(TensorInvalidInfo)
        else Ok(info.end)
  }

  /** The name `validate` reports for position `i`: the key mapped to `i`, if there is one. */
  function NameAt(m: Metadata, i: nat): string {
    if i < |m.names| && m.names[i] in m.indexMap && m.indexMap[m.names[i]] == i then m.names[i]
    else NO_TENSOR
  }

  /** `validate` from position `i` on, with the cursor at `cursor`. */
  function ValidateFrom(m: Metadata, i: nat, cursor: nat): Result<nat, Error>
    decreases |m.tensors| - i
  {
    if i >= |m.tensors| then Ok(cursor)
    else
      var next :- CheckEntry(m.tensors[i], cursor, NameAt(m, i));
      ValidateFrom(m, i + 1, next)
  }

  /** What `validate` returns: the payload length, or the first failing check. */
  function Validation(m: Metadata): Result<nat, Error> {
    ValidateFrom(m, 0, 0)
  }

  /** `Metadata::validate`, with its running cursor and early returns. */
  method Validate(m: Metadata) returns (r: Result<nat, Error>)
    ensures r == Validation(m)
  {
    var start := 0;
    var i := 0;
    while i < |m.tensors|
      invariant 0 <= i <= |m.tensors|
      invariant Validation(m) == ValidateFrom(m, i, start)
    {
      var info := m.tensors[i];
      if info.start != start || info.end < info.start {
        return Err(InvalidOffset(NameAt(m, i)));
      }
      start := info.end;
      var count := CheckedProductFrom(1, info.shape);
      if count.None? {
        return Err(ValidationOverflow);
      }
      var nbits := count.value * BitSize(info.dtype);
      if nbits > USIZE_MAX {
        return Err(ValidationOverflow);
      }
      if nbits % 8 != 0 {
        return Err(MisalignedSlice);
      }
      var size := nbits / 8;
      if info.end - info.start != size {
        return Err(TensorInvalidInfo);
      }
      i := i + 1;
    }
    return Ok(start);
  }

  /** The payload length: the end of the last range, or 0 for an empty table. */
  function DataLen(m: Metadata): nat {
    if m.tensors == [] then 0 else m.tensors[|m.tensors| - 1].end
  }

  /** Ranges are back to back from 0 and none is reversed. */
  ghost predicate Contiguous(t: seq<TensorInfo>) {
    forall i :: 0 <= i < |t| ==>
      t[i].start <= t[i].end && (i == 0 ==> t[i].start == 0) && (i > 0 ==> t[i].start == t[i - 1].end)
  }

  ghost predicate AllSizesConsistent(t: seq<TensorInfo>) {
    forall i :: 0 <= i < |t| ==> SizeConsistent(t[i])
  }

  ghost predicate ValidFrom(t: seq<TensorInfo>, i: nat, cursor: nat) {
    forall j :: i <= j < |t| ==>
      SizeConsistent(t[j]) && (j == i ==> t[j].start == cursor) && (j > i ==> t[j].start == t[j - 1].end)
  }

  lemma {:induction false} ValidateFromOk(m: Metadata, i: nat, cursor: nat)
    requires i <= |m.tensors|
    ensures ValidateFrom(m, i, cursor).Ok? <==> ValidFrom(m.tensors, i, cursor)
    ensures ValidateFrom(m, i, cursor).Ok? ==>
      ValidateFrom(m, i, cursor).value == if i == |m.tensors| then cursor else DataLen(m)
    decreases |m.tensors| - i
  {
    var t := m.tensors;
    if i < |t| {
      var c := CheckEntry(t[i], cursor, NameAt(m, i));
      if c.Ok? {
        ValidateFromOk(m, i + 1, t[i].end);
        if ValidFrom(t, i + 1, t[i].end) {
          assert ValidFrom(t, i, cursor);
        }
      }
      if ValidFrom(t, i, cursor) {
        assert t[i].start == cursor && SizeConsistent(t[i]);
        assert ValidFrom(t, i + 1, t[i].end);
      }
    }
  }

  /**
   * Validation succeeds exactly when the ranges are contiguous from 0 and
   * every range has the size its shape and type call for; it then returns
   * the payload length.
   */
  lemma ValidationCharacterized(m: Metadata)
    ensures Validation(m).Ok? <==> Contiguous(m.tensors) && AllSizesConsistent(m.tensors)
    ensures Validation(m).Ok? ==> Validation(m).value == DataLen(m)
  {
    ValidateFromOk(m, 0, 0);
    var t := m.tensors;
    if ValidFrom(t, 0, 0) {
      forall i | 0 <= i < |t|
        ensures t[i].start <= t[i].end && SizeConsistent(t[i])
      {
      }
    }
  }

  /** The cursor `validate` holds when it reaches position `i` of a table whose first `i` entries passed. */
  function CursorAt(t: seq<TensorInfo>, i: nat): nat
    requires i <= |t|
  {
    if i == 0 then 0 else t[i - 1].end
  }

  lemma {:induction false} ValidateFromError(m: Metadata, i: nat, cursor: nat) returns (k: nat)
    requires i <= |m.tensors|
    requires ValidateFrom(m, i, cursor).Err?
    ensures i <= k < |m.tensors| && ValidFrom(m.tensors[..k], i, cursor)
    ensures CheckEntry(m.tensors[k], if k == i then cursor else m.tensors[k - 1].end, NameAt(m, k))
      == Err(ValidateFrom(m, i, cursor).error)
    decreases |m.tensors| - i
  {
    var t := m.tensors;
    var c := CheckEntry(t[i], cursor, NameAt(m, i));
    if c.Err? {
      k := i;
    } else {
      k := ValidateFromError(m, i + 1, t[i].end);
      assert ValidFrom(t[..k], i, cursor);
    }
  }

  /**
   * A failure is the verdict of the first failing entry: every entry before
   * position `k` passes, and entry `k`'s own checks give the reported error.
   */
  lemma FirstFailure(m: Metadata) returns (k: nat)
    requires Validation(m).Err?
    ensures k < |m.tensors| && ValidFrom(m.tensors[..k], 0, 0)
    ensures CheckEntry(m.tensors[k], CursorAt(m.tensors, k), NameAt(m, k)) == Err(Validation(m).error)
  {
    k := ValidateFromError(m, 0, 0);
  }

  /** A first range that does not start at 0 is reported as a bad offset under that tensor's name. */
  lemma FirstOffsetMustBeZero(m: Metadata)
    requires m.tensors != [] && m.tensors[0].start != 0
    ensures Validation(m) == Err(InvalidOffset(NameAt(m, 0)))
  {
  }

  /** The four-bit type with an odd element count leaves half a byte: misaligned. */
  lemma OddF4IsMisaligned()
    ensures Validation(Metadata(None, [TensorInfo(F4, [3], 0, 2)], map["x" := 0], ["x"]))
      == Err(MisalignedSlice)
  {
    var m := Metadata(None, [TensorInfo(F4, [3], 0, 2)], map["x" := 0], ["x"]);
    assert CheckedProductFrom(1, [3]) == Some(3) by {
      assert [3][1..] == [];
    }
    assert ValidateFrom(m, 1, 2) == Ok(2);
  }

  /** A key and its descriptor, as the table is built from them. */
  type Entry = (string, TensorInfo)

  function Keys(entries: seq<Entry>): (r: seq<string>)
    ensures |r| == |entries| && forall i :: 0 <= i < |entries| ==> r[i] == entries[i].0
  {
    seq(|entries|, i requires 0 <= i < |entries| => entries[i].0)
  }

  /** The second components of a sequence of pairs: a table's descriptors, or the tensors of named tensors. */
  function Seconds<A, B>(s: seq<(A, B)>): (r: seq<B>)
    ensures |r| == |s| && forall i :: 0 <= i < |s| ==> r[i] == s[i].1
  {
    seq(|s|, i requires 0 <= i < |s| => s[i].1)
  }

  /**
   * The name index after inserting every key with its position, in order:
   * it holds exactly the keys given, each at a position where it occurs,
   * and a repeated key keeps its last position.
   */
  function IndexMapOf(names: seq<string>): (r: map<string, nat>)
    ensures forall k :: k in r <==> k in names
    ensures forall k :: k in r ==> r[k] < |names| && names[r[k]] == k
    ensures forall k, j :: k in r && r[k] < j < |names| ==> names[j] != k
  {
    if names == [] then map[]
    else
      var n := |names| - 1;
      assert names == names[..n] + [names[n]];
      IndexMapOf(names[..n])[names[n] := n]
  }

  predicate DistinctNames(names: seq<string>) {
    forall i, j :: 0 <= i < j < |names| ==> names[i] != names[j]
  }

  /** With distinct keys every key is indexed at its own position. */
  lemma IndexOfDistinct(names: seq<string>, i: nat)
    requires DistinctNames(names) && i < |names|
    ensures names[i] in IndexMapOf(names) && IndexMapOf(names)[names[i]] == i
  {
    var r := IndexMapOf(names);
    assert names[i] in r;
  }

  lemma IndexMapOfSnoc(names: seq<string>, k: string)
    ensures IndexMapOf(names + [k]) == IndexMapOf(names)[k := |names|]
  {
    assert (names + [k])[..|names|] == names;
  }

  lemma DistinctSnoc(p: seq<string>, k: string)
    ensures DistinctNames(p + [k]) <==> DistinctNames(p) && k !in p
  {
    var q := p + [k];
    if k in p {
      var j :| 0 <= j < |p| && p[j] == k;
      assert q[j] == q[|p|];
    }
    if DistinctNames(q) {
      forall i, j | 0 <= i < j < |p| ensures p[i] != p[j] {
        assert p[i] == q[i] && p[j] == q[j];
      }
    }
  }

  /** The index holds one key per distinct name, so it is as large as the key list exactly when no key repeats. */
  lemma {:induction false} IndexMapSize(names: seq<string>)
    ensures |IndexMapOf(names)| <= |names|
    ensures |IndexMapOf(names)| == |names| <==> DistinctNames(names)
  {
    if names != [] {
      var n := |names| - 1;
      var p := names[..n];
      var k := names[n];
      assert names == p + [k];
      IndexMapSize(p);
      IndexMapOfSnoc(p, k);
      DistinctSnoc(p, k);
      var m := IndexMapOf(p);
      assert k in m <==> k in p;
      if k !in m {
        assert |m[k := n]| == |m| + 1;
      } else {
        assert |m[k := n]| == |m|;
      }
    }
  }

  /**
   * Whether every key can be written at its index into a list as long as
   * the index, as `Serialize for Metadata` does with `names[index] = name`;
   * when some index lies past that length, the write panics.
   */
  predicate KeysPlaceable(m: Metadata) {
    forall k :: k in m.indexMap ==> m.indexMap[k] < |m.indexMap|
  }

  /** A built table's keys can all be placed exactly when no key repeats; then the index has one key per descriptor. */
  lemma PlaceableIffDistinct(m: Metadata)
    requires WellFormed(m)
    ensures KeysPlaceable(m) <==> DistinctNames(m.names)
    ensures DistinctNames(m.names) ==> |m.indexMap| == |m.tensors|
  {
    IndexMapSize(m.names);
    if !DistinctNames(m.names) {
      var n := |m.names| - 1;
      var k := m.names[n];
      assert k in m.indexMap;
      assert m.indexMap[k] == n;
    }
  }

  /** The table is the one built from its key sequence. */
  ghost predicate WellFormed(m: Metadata) {
    |m.names| == |m.tensors| && m.indexMap == IndexMapOf(m.names)
  }

  /** `NameAt` finds the key the index maps to position `i`, or reports `no_tensor` when there is none. */
  lemma NameAtIsSearch(m: Metadata, i: nat)
    requires WellFormed(m) && i < |m.tensors|
    ensures forall k :: k in m.indexMap && m.indexMap[k] == i ==> NameAt(m, i) == k
    ensures (forall k :: k in m.indexMap ==> m.indexMap[k] != i) ==> NameAt(m, i) == NO_TENSOR
  {
  }

  /** `Metadata::new`: index the keys, keep the descriptors in order, then validate. */
  function Build(meta: Option<map<string, string>>, entries: seq<Entry>): (r: Result<Metadata, Error>)
    ensures r.Ok? ==> WellFormed(r.value) && r.value.metadata == meta
    ensures r.Ok? ==> r.value.tensors == Seconds(entries) && r.value.names == Keys(entries)
    ensures r.Ok? ==> Validation(r.value) == Ok(DataLen(r.value))
  {
    var m := Metadata(meta, Seconds(entries), IndexMapOf(Keys(entries)), Keys(entries));
    ValidationCharacterized(m);
    var _ :- Validation(m);
    Ok(m)
  }

  /** Building succeeds exactly when the descriptors are contiguous from 0 and each has a consistent size. */
  lemma BuildCharacterized(meta: Option<map<string, string>>, entries: seq<Entry>)
    ensures Build(meta, entries).Ok? <==> Contiguous(Seconds(entries)) && AllSizesConsistent(Seconds(entries))
  {
    ValidationCharacterized(Metadata(meta, Seconds(entries), IndexMapOf(Keys(entries)), Keys(entries)));
  }

  /** `Metadata::new` as the source runs it: one insertion per entry, then `validate`. */
  method New(meta: Option<map<string, string>>, entries: seq<Entry>) returns (r: Result<Metadata, Error>)
    ensures r == Build(meta, entries)
  {
    var indexMap: map<string, nat> := map[];
    var tensors: seq<TensorInfo> := [];
    for index := 0 to |entries|
      invariant indexMap == IndexMapOf(Keys(entries)[..index])
      invariant tensors == Seconds(entries)[..index]
    {
      var (k, tensor) := entries[index];
      assert Keys(entries)[..index + 1] == Keys(entries)[..index] + [k];
      IndexMapOfSnoc(Keys(entries)[..index], k);
      indexMap := indexMap[k := index];
      tensors := tensors + [tensor];
    }
    assert Keys(entries)[..|entries|] == Keys(entries);
    assert Seconds(entries)[..|entries|] == Seconds(entries);
    var m := Metadata(meta, tensors, indexMap, Keys(entries));
    var v := Validate(m);
    if v.Err? {
      return Err(v.error);
    }
    return Ok(m);
  }

  /** `Metadata::info`: the descriptor the name is indexed at. */
  function Info(m: Metadata, name: string): (r: Option<TensorInfo>)
    ensures WellFormed(m) ==> (r.Some? <==> name in m.names)
    ensures WellFormed(m) && r.Some? ==>
      m.names[m.indexMap[name]] == name && r.value == m.tensors[m.indexMap[name]]
  {
    if name in m.indexMap && m.indexMap[name] < |m.tensors| then Some(m.tensors[m.indexMap[name]])
    else None
  }

  /** With distinct keys, the descriptor found for a key is the one stored beside it. */
  lemma InfoOfDistinct(m: Metadata, i: nat)
    requires WellFormed(m) && DistinctNames(m.names) && i < |m.names|
    ensures Info(m, m.names[i]) == Some(m.tensors[i])
  {
    IndexOfDistinct(m.names, i);
  }

  /** `Metadata::tensors`: every indexed name with its descriptor (a hash map, so unordered). */
  function TensorsMap(m: Metadata): (r: map<string, TensorInfo>)
    ensures forall k :: k in r <==> Info(m, k).Some?
    ensures forall k :: k in r ==> r[k] == Info(m, k).value
  {
    map k | k in m.indexMap && m.indexMap[k] < |m.tensors| :: m.tensors[m.indexMap[k]]
  }

  /** The first `n` keys, keeping each key only at the position the index gives it. */
  function OffsetKeysUpTo(m: Metadata, n: nat): (r: seq<string>)
    requires n <= |m.names|
    ensures forall x :: x in r ==> x in m.indexMap && m.indexMap[x] < n
    ensures forall a, b :: 0 <= a < b < |r| ==> m.indexMap[r[a]] < m.indexMap[r[b]]
    ensures forall i :: 0 <= i < n && m.names[i] in m.indexMap && m.indexMap[m.names[i]] == i ==> m.names[i] in r
  {
    if n == 0 then []
    else
      var k := m.names[n - 1];
      OffsetKeysUpTo(m, n - 1) + if k in m.indexMap && m.indexMap[k] == n - 1 then [k] else []
  }

  /** `Metadata::offset_keys`: the indexed names in increasing position order. */
  function OffsetKeys(m: Metadata): (r: seq<string>)
    requires |m.names| == |m.tensors|
  {
    OffsetKeysUpTo(m, |m.names|)
  }

  /** The names listed by offset are exactly the indexed names, in increasing position order. */
  lemma OffsetKeysOrdered(m: Metadata)
    requires WellFormed(m)
    ensures forall x :: x in OffsetKeys(m) <==> x in m.indexMap
    ensures forall a, b :: 0 <= a < b < |OffsetKeys(m)| ==>
      m.indexMap[OffsetKeys(m)[a]] < m.indexMap[OffsetKeys(m)[b]]
  {
    forall x | x in m.indexMap ensures x in OffsetKeys(m) {
      assert m.names[m.indexMap[x]] == x;
    }
  }

  /** With distinct keys, listing by offset gives the keys in table order. */
  lemma {:induction false} OffsetKeysDistinct(m: Metadata)
    requires WellFormed(m) && DistinctNames(m.names)
    ensures OffsetKeys(m) == m.names
  {
    AllIndexed(m);
    OffsetKeysAll(m, |m.names|);
    assert m.names[..|m.names|] == m.names;
  }

  lemma AllIndexed(m: Metadata)
    requires WellFormed(m) && DistinctNames(m.names)
    ensures forall i :: 0 <= i < |m.names| ==> m.names[i] in m.indexMap && m.indexMap[m.names[i]] == i
  {
    forall i | 0 <= i < |m.names| ensures m.names[i] in m.indexMap && m.indexMap[m.names[i]] == i {
      IndexOfDistinct(m.names, i);
    }
  }

  lemma {:induction false} OffsetKeysAll(m: Metadata, n: nat)
    requires n <= |m.names|
    requires forall i :: 0 <= i < |m.names| ==> m.names[i] in m.indexMap && m.indexMap[m.names[i]] == i
    ensures OffsetKeysUpTo(m, n) == m.names[..n]
  {
    if n > 0 {
      OffsetKeysAll(m, n - 1);
      OffsetKeysStep(m, n);
      assert m.names[..n] == m.names[..n - 1] + [m.names[n - 1]];
    }
  }

  lemma OffsetKeysStep(m: Metadata, n: nat)
    requires 0 < n <= |m.names|
    requires m.names[n - 1] in m.indexMap && m.indexMap[m.names[n - 1]] == n - 1
    ensures OffsetKeysUpTo(m, n) == OffsetKeysUpTo(m, n - 1) + [m.names[n - 1]]
  {
  }

  /** Entries compared by their `(start, end)` offsets, as tuples compare. */
  predicate OffsetLe(a: Entry, b: Entry) {
    a.1.start < b.1.start || (a.1.start == b.1.start && a.1.end <= b.1.end)
  }

  lemma OffsetLeIsPreorder()
    ensures Sorting.TotalPreorder(OffsetLe)
  {
  }

  /** `TryFrom<HashMetadata>`: sort the parsed entries by offsets, then build the table. */
  function FromEntries(meta: Option<map<string, string>>, entries: seq<Entry>): Result<Metadata, Error> {
    Build(meta, Sorting.SortBy(entries, OffsetLe))
  }
}

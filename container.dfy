/**
 * The container: layout planner, writer and zero-copy reader.
 *
 * A file is `le64(n) ++ header ++ payload`: an 8-byte little-endian header
 * length, `n` header bytes (JSON padded with spaces), then every tensor's
 * bytes back to back. The JSON layer is a parameter (`HeaderCodec`).
 */
module Container {

  import opened Wrappers
  import opened Bytes
  import opened Dtypes
  import opened TensorMetadata
  import Sorting

  const MAX_HEADER_SIZE: nat := 100_000_000
  /** Width of the header-length prefix. */
  const N_LEN: nat := 8

  /** What the writer needs of a tensor: type, shape and bytes (its `data_len` is the byte count). */
  datatype TensorSource = TensorSource(dtype: Dtype, shape: seq<nat>, data: seq<byte>)

  /** A named tensor handed to the writer. */
  type Named = (string, TensorSource)

  /** A read-only view: type, shape and the bytes of one tensor. */
  datatype TensorView = TensorView(dtype: Dtype, shape: seq<nat>, data: seq<byte>)

  /** The header as the JSON layer sees it: the free-form map and the entries, in the order given. */
  datatype HeaderRecord = HeaderRecord(metadata: Option<map<string, string>>, entries: seq<Entry>)

  /**
   * The JSON layer: `encode` is `serde_json::to_string`; `parse` is the
   * UTF-8 check followed by `serde_json::from_str`, with its failures
   * reported as `InvalidHeader` or `InvalidHeaderDeserialization`.
   */
  datatype HeaderCodec = HeaderCodec(
    encode: HeaderRecord -> seq<byte>,
    parse: seq<byte> -> Result<HeaderRecord, Error>)

  /** The key that holds the free-form map; a tensor cannot use it. */
  const METADATA_KEY: string := "__metadata__"

  /** A header whose tensor keys are distinct and leave the reserved key free. */
  ghost predicate Encodable(h: HeaderRecord) {
    DistinctNames(Keys(h.entries)) && METADATA_KEY !in Keys(h.entries)
  }

  /** `p` holds the same map and the same entries as `h`, in some order (a JSON object has none). */
  ghost predicate SameHeader(p: HeaderRecord, h: HeaderRecord) {
    p.metadata == h.metadata && multiset(p.entries) == multiset(h.entries)
  }

  /**
   * What the model assumes of the JSON layer: parsing an encoded header,
   * followed by fewer than 8 spaces, gives back the same header up to the
   * order of its entries.
   */
  ghost predicate ReadsBack(c: HeaderCodec) {
    forall h: HeaderRecord, k: nat :: Encodable(h) && k < 8 ==>
      var p := c.parse(c.encode(h) + Spaces(k));
      p.Ok? && SameHeader(p.value, h)
  }

  // ---------------------------------------------------------------- views

  /** `TensorView::new`: the bytes must be exactly what the shape and type call for. */
  function NewView(dtype: Dtype, shape: seq<nat>, data: seq<byte>): (r: Result<TensorView, Error>)
    ensures r.Ok? <==> (Product(shape) * BitSize(dtype)) % 8 == 0 && |data| == Product(shape) * BitSize(dtype) / 8
    ensures r.Ok? ==> r.value == TensorView(dtype, shape, data)
    ensures (Product(shape) * BitSize(dtype)) % 8 != 0 ==> r == Err(MisalignedSlice)
    ensures (Product(shape) * BitSize(dtype)) % 8 == 0 && r.Err? ==> r.error == InvalidTensorView(dtype, shape, |data|)
  {
    var nbits := Product(shape) * BitSize(dtype);
    if nbits % 8 != 0 then Err(MisalignedSlice)
    else if |data| != nbits / 8 then Err(InvalidTensorView(dtype, shape, |data|))
    else Ok(TensorView(dtype, shape, data))
  }

  // -------------------------------------------------------------- planner

  /**
   * The planner's order: `right.dtype().cmp(&left.dtype()).then(lname.cmp(rname))`,
   * that is wider-ranked types first, then names in ascending order.
   */
  predicate PlanLe(l: Named, r: Named) {
    var c := Compare(r.1.dtype, l.1.dtype);
    c < 0 || (c == 0 && Sorting.LexLe(l.0, r.0))
  }

  lemma PlanLeIsPreorder()
    ensures Sorting.TotalPreorder(PlanLe)
  {
    forall x: Named, y: Named ensures PlanLe(x, y) || PlanLe(y, x) {
      Sorting.LexLeTotal(x.0, y.0);
      RankInjective(x.1.dtype, y.1.dtype);
    }
    forall x: Named, y: Named, z: Named | PlanLe(x, y) && PlanLe(y, z) ensures PlanLe(x, z) {
      RankInjective(x.1.dtype, y.1.dtype);
      RankInjective(y.1.dtype, z.1.dtype);
      RankInjective(x.1.dtype, z.1.dtype);
      if Rank(x.1.dtype) == Rank(y.1.dtype) == Rank(z.1.dtype) {
        Sorting.LexLeTransitive(x.0, y.0, z.0);
      }
    }
  }

  /** The bytes the planner reserves for the tensors of `s`. */
  function Total(s: seq<Named>): (r: nat)
    ensures s == [] ==> r == 0
  {
    if s == [] then 0 else Total(s[..|s| - 1]) + |s[|s| - 1].1.data|
  }

  /** Descriptors with running offsets, one per tensor, appended in order. */
  function Plan(s: seq<Named>): (r: seq<Entry>)
    ensures |r| == |s|
  {
    if s == [] then []
    else
      var n := |s| - 1;
      Plan(s[..n]) + [(s[n].0, TensorInfo(s[n].1.dtype, s[n].1.shape, Total(s[..n]), Total(s[..n]) + |s[n].1.data|))]
  }

  /** Entry `i` keeps its name, type and shape and covers `[Total(s[..i]), Total(s[..i+1]))`. */
  lemma {:induction false} PlanAt(s: seq<Named>, i: nat)
    requires i < |s|
    ensures Plan(s)[i].0 == s[i].0 && Plan(s)[i].1.dtype == s[i].1.dtype && Plan(s)[i].1.shape == s[i].1.shape
    ensures Plan(s)[i].1.start == Total(s[..i]) && Plan(s)[i].1.end == Total(s[..i + 1])
  {
    var n := |s| - 1;
    if i < n {
      PlanAt(s[..n], i);
      assert s[..n][..i] == s[..i] && s[..n][..i + 1] == s[..i + 1];
    } else {
      assert s[..n + 1] == s;
    }
  }

  lemma PlanStep(s: seq<Named>, i: nat)
    requires i < |s|
    ensures Total(s[..i + 1]) == Total(s[..i]) + |s[i].1.data|
    ensures Plan(s[..i + 1]) == Plan(s[..i]) +
      [(s[i].0, TensorInfo(s[i].1.dtype, s[i].1.shape, Total(s[..i]), Total(s[..i]) + |s[i].1.data|))]
    ensures Seconds(s[..i + 1]) == Seconds(s[..i]) + [s[i].1]
  {
    assert s[..i + 1][..i] == s[..i];
  }

  /** `next_multiple_of(8)`. */
  function AlignUp8(n: nat): (r: nat)
    ensures r % 8 == 0 && n <= r < n + 8
  {
    if n % 8 == 0 then n else n + (8 - n % 8)
  }

  /**
   * The header padded with spaces to a multiple of 8: the smallest such
   * length, the original bytes first, spaces after.
   */
  function PadHeader(b: seq<byte>): (r: seq<byte>)
    ensures |r| % 8 == 0 && |b| <= |r| < |b| + 8
    ensures r[..|b|] == b
    ensures forall i :: |b| <= i < |r| ==> r[i] == SPACE
  {
    b + Spaces(AlignUp8(|b|) - |b|)
  }

  /** The key written for position `i`: the name indexed there, or `""` when none is. */
  function KeyAt(m: Metadata, i: nat): string {
    if i < |m.names| && m.names[i] in m.indexMap && m.indexMap[m.names[i]] == i then m.names[i] else ""
  }

  /** How many key-descriptor pairs `zip` yields: the shorter of the key list and the descriptor list. */
  function EntryCount(m: Metadata): nat {
    if |m.indexMap| < |m.tensors| then |m.indexMap| else |m.tensors|
  }

  /**
   * `Serialize for Metadata`: the free-form map, then every descriptor under
   * its key, in table order. The keys are first placed into a list as long
   * as the index; a key whose index lies past its end makes the write panic,
   * shown here as `Aborted`.
   */
  function RecordOf(m: Metadata): (r: Result<HeaderRecord, Error>)
    ensures r.Ok? <==> KeysPlaceable(m)
    ensures r.Err? ==> r.error == Aborted
    ensures r.Ok? ==> r.value.metadata == m.metadata && |r.value.entries| == EntryCount(m)
    ensures r.Ok? ==> forall i :: 0 <= i < EntryCount(m) ==> r.value.entries[i] == (KeyAt(m, i), m.tensors[i])
  {
    if !KeysPlaceable(m) then Err(Aborted)
    else Ok(HeaderRecord(m.metadata, seq(EntryCount(m), i requires 0 <= i < EntryCount(m) => (KeyAt(m, i), m.tensors[i]))))
  }

  /** `PreparedData`. */
  datatype Prepared = Prepared(n: nat, headerBytes: seq<byte>, offset: nat)

  /** What `prepare` computes: the header and the tensors in planned order. */
  function Preparation(codec: HeaderCodec, data: seq<Named>, info: Option<map<string, string>>)
    : (r: Result<(Prepared, seq<TensorSource>), Error>)
  {
    PreparationOfPlanned(codec, Sorting.SortBy(data, PlanLe), info)
  }

  /** The part of `prepare` after sorting: plan, build, encode and pad, for tensors already in planned order. */
  function PreparationOfPlanned(codec: HeaderCodec, sorted: seq<Named>, info: Option<map<string, string>>)
    : (r: Result<(Prepared, seq<TensorSource>), Error>)
  {
    var md :- Build(info, Plan(sorted));
    var record :- RecordOf(md);
    var header := PadHeader(codec.encode(record));
    Ok((Prepared(|header|, header, Total(sorted)), Seconds(sorted)))
  }

  /** `prepare`: sort, assign running offsets, build and validate the table, encode and pad the header. */
  method Prepare(codec: HeaderCodec, data: seq<Named>, info: Option<map<string, string>>)
    returns (r: Result<(Prepared, seq<TensorSource>), Error>)
    ensures r == Preparation(codec, data, info)
    ensures r.Ok? ==> r.value.0.n == |r.value.0.headerBytes| && r.value.0.n % 8 == 0
  {
    var sorted := Sorting.SortBy(data, PlanLe);
    var tensors: seq<TensorSource> := [];
    var hmetadata: seq<Entry> := [];
    var offset := 0;
    for i := 0 to |sorted|
      invariant hmetadata == Plan(sorted[..i])
      invariant tensors == Seconds(sorted[..i])
      invariant offset == Total(sorted[..i])
    {
      var (name, tensor) := sorted[i];
      var n := |tensor.data|;
      var tensorInfo := TensorInfo(tensor.dtype, tensor.shape, offset, offset + n);
      PlanStep(sorted, i);
      offset := offset + n;
      hmetadata := hmetadata + [(name, tensorInfo)];
      tensors := tensors + [tensor];
    }
    assert sorted[..|sorted|] == sorted;
    var built := New(info, hmetadata);
    if built.Err? {
      return Err(built.error);
    }
    var record := RecordOf(built.value);
    if record.Err? {
      return Err(record.error);
    }
    var metadataBuf := codec.encode(record.value);
    metadataBuf := PadHeader(metadataBuf);
    return Ok((Prepared(|metadataBuf|, metadataBuf, offset), tensors));
  }

  // --------------------------------------------------------------- writer

  /** The payload: every tensor's bytes, unchanged, back to back. */
  function Concat(ts: seq<TensorSource>): (r: seq<byte>)
  {
    if ts == [] then [] else Concat(ts[..|ts| - 1]) + ts[|ts| - 1].data
  }

  /** What `serialize` returns. */
  function Serialization(codec: HeaderCodec, data: seq<Named>, info: Option<map<string, string>>)
    : (r: Result<seq<byte>, Error>)
  {
    var prepared :- Preparation(codec, data, info);
    var p := prepared.0;
    if p.n > MAX_HEADER_SIZE then Err(HeaderTooLarge)
    else Ok(LeBytes(p.n, N_LEN) + p.headerBytes + Concat(prepared.1))
  }

  /** `serialize`: the length prefix, the header, then every tensor's bytes appended in planned order. */
  method Serialize(codec: HeaderCodec, data: seq<Named>, info: Option<map<string, string>>)
    returns (r: Result<seq<byte>, Error>)
    ensures r == Serialization(codec, data, info)
  {
    var prepared := Prepare(codec, data, info);
    if prepared.Err? {
      return Err(prepared.error);
    }
    var p := prepared.value.0;
    var tensors := prepared.value.1;
    if p.n > MAX_HEADER_SIZE {
      return Err(HeaderTooLarge);
    }
    var buffer := LeBytes(p.n, N_LEN);
    buffer := buffer + p.headerBytes;
    ghost var prefix := buffer;
    for i := 0 to |tensors|
      invariant buffer == prefix + Concat(tensors[..i])
    {
      ConcatSnoc(tensors, i);
      AppendAssoc(prefix, Concat(tensors[..i]), tensors[i].data);
      buffer := buffer + tensors[i].data;
    }
    assert tensors[..|tensors|] == tensors;
    return Ok(buffer);
  }

  lemma AppendAssoc(a: seq<byte>, b: seq<byte>, c: seq<byte>)
    ensures a + (b + c) == (a + b) + c
  {
  }

  lemma ConcatSnoc(ts: seq<TensorSource>, i: nat)
    requires i < |ts|
    ensures Concat(ts[..i + 1]) == Concat(ts[..i]) + ts[i].data
  {
    assert ts[..i + 1][..i] == ts[..i];
  }

  lemma {:induction false} ConcatLength(s: seq<Named>)
    ensures |Concat(Seconds(s))| == Total(s)
  {
    if s != [] {
      ConcatLength(s[..|s| - 1]);
      assert Seconds(s)[..|s| - 1] == Seconds(s[..|s| - 1]);
    }
  }

  /**
   * A file the writer produces is exactly `8 + n + offset` bytes long, its
   * header length a multiple of 8 within the limit; it fails only when
   * the table does not validate or the header is too large.
   */
  lemma SerializedSize(codec: HeaderCodec, data: seq<Named>, info: Option<map<string, string>>)
    ensures Serialization(codec, data, info).Ok? <==>
      Preparation(codec, data, info).Ok? && Preparation(codec, data, info).value.0.n <= MAX_HEADER_SIZE
    ensures Serialization(codec, data, info).Ok? ==>
      var p := Preparation(codec, data, info).value.0;
      |Serialization(codec, data, info).value| == N_LEN + p.n + p.offset && p.n % 8 == 0
  {
    if Preparation(codec, data, info).Ok? {
      ConcatLength(Sorting.SortBy(data, PlanLe));
    }
  }

  // --------------------------------------------------------------- reader

  /** `read_metadata`: the header length and the validated table, or the first failing check. */
  function ReadMetadata(codec: HeaderCodec, buffer: seq<byte>): (r: Result<(nat, Metadata), Error>)
    ensures |buffer| < N_LEN ==> r == Err(HeaderTooSmall)
    ensures |buffer| >= N_LEN && LeValue(buffer[..N_LEN]) > MAX_HEADER_SIZE ==> r == Err(HeaderTooLarge)
    ensures (|buffer| >= N_LEN && LeValue(buffer[..N_LEN]) <= MAX_HEADER_SIZE &&
             N_LEN + LeValue(buffer[..N_LEN]) > |buffer|) ==> r == Err(InvalidHeaderLength)
    ensures r.Ok? ==> |buffer| >= N_LEN && r.value.0 == LeValue(buffer[..N_LEN])
    ensures r.Ok? ==> WellFormed(r.value.1) && Validation(r.value.1) == Ok(DataLen(r.value.1))
    ensures r.Ok? ==> N_LEN + r.value.0 + DataLen(r.value.1) == |buffer|
  {
    if |buffer| < N_LEN then Err(HeaderTooSmall)
    else
      var n := LeValue(buffer[..N_LEN]);
      if n > MAX_HEADER_SIZE then Err(HeaderTooLarge)
      // `checked_add`: cannot overflow once the size limit holds
      else if n + N_LEN > USIZE_MAX then Err(InvalidHeaderLength)
      else
        var stop := n + N_LEN;
        if stop > |buffer| then Err(InvalidHeaderLength)
        else
          var header :- codec.parse(buffer[N_LEN..stop]);
          var metadata :- FromEntries(header.metadata, header.entries);
          // `validate` again: the table was validated when it was built, so this cannot fail
          var bufferEnd := Validation(metadata).value;
          if bufferEnd + N_LEN + n != |buffer| then Err(MetadataIncompleteBuffer)
          else Ok((n, metadata))
  }

  /** A reader: the validated table and the payload it indexes. */
  datatype Archive = Archive(metadata: Metadata, data: seq<byte>)

  /** What every reader `deserialize` makes satisfies: its table is valid and covers the payload exactly. */
  ghost predicate ValidArchive(a: Archive) {
    WellFormed(a.metadata) && Validation(a.metadata) == Ok(DataLen(a.metadata)) &&
    DataLen(a.metadata) == |a.data|
  }

  /** `deserialize`: read the header and keep the payload `buffer[8 + n..]`, not copied. */
  function Deserialize(codec: HeaderCodec, buffer: seq<byte>): (r: Result<Archive, Error>)
    ensures r.Ok? ==> ValidArchive(r.value)
    ensures r.Ok? ==> (ReadMetadata(codec, buffer).Ok? &&
      r.value.data == buffer[N_LEN + ReadMetadata(codec, buffer).value.0..])
    ensures r.Err? ==> ReadMetadata(codec, buffer).Err? && r.error == ReadMetadata(codec, buffer).error
  {
    var (n, metadata) :- ReadMetadata(codec, buffer);
    Ok(Archive(metadata, buffer[N_LEN + n..]))
  }

  /** In a valid table every range ends within the payload. */
  lemma RangeWithinPayload(m: Metadata, i: nat)
    requires Validation(m).Ok? && i < |m.tensors|
    ensures m.tensors[i].start <= m.tensors[i].end <= DataLen(m)
  {
    ValidationCharacterized(m);
    EndsIncrease(m.tensors, i, |m.tensors| - 1);
  }

  lemma {:induction false} EndsIncrease(t: seq<TensorInfo>, i: nat, j: nat)
    requires Contiguous(t) && i <= j < |t|
    ensures t[i].end <= t[j].end
    decreases j - i
  {
    if i < j {
      EndsIncrease(t, i + 1, j);
    }
  }

  /**
   * `tensor(name)`: unknown names fail `TensorNotFound`; a known name gives
   * its type and shape and the payload bytes at its recorded offsets.
   */
  function Tensor(a: Archive, name: string): (r: Result<TensorView, Error>)
    requires ValidArchive(a)
    ensures r.Err? <==> name !in a.metadata.names
    ensures r.Err? ==> r.error == TensorNotFound(name)
    ensures r.Ok? ==> (Info(a.metadata, name).Some? &&
      var info := Info(a.metadata, name).value;
      info.start <= info.end <= |a.data| &&
      r.value == TensorView(info.dtype, info.shape, a.data[info.start..info.end]))
  {
    var m := a.metadata;
    if name !in m.indexMap then Err(TensorNotFound(name))
    else
      var index := m.indexMap[name];
      if index >= |m.tensors| then Err(TensorNotFound(name))
      else
        var info := m.tensors[index];
        RangeWithinPayload(m, index);
        Ok(TensorView(info.dtype, info.shape, a.data[info.start..info.end]))
  }

  /** `names()`: the indexed names, as a set (the source lists them in hash order). */
  function Names(a: Archive): (r: set<string>)
    requires ValidArchive(a)
    ensures forall k :: k in r <==> Tensor(a, k).Ok?
  {
    a.metadata.indexMap.Keys
  }

  /** `len()`: the number of descriptors. */
  function Len(a: Archive): (r: nat)
    requires ValidArchive(a)
    ensures r == |a.metadata.names|
  {
    |a.metadata.tensors|
  }

  /** `is_empty()`: true exactly when no name can be looked up. */
  function IsEmpty(a: Archive): (r: bool)
    requires ValidArchive(a)
    ensures r <==> forall k :: Tensor(a, k).Err?
  {
    assert a.metadata.names != [] ==> Tensor(a, a.metadata.names[0]).Ok?;
    |a.metadata.tensors| == 0
  }
}

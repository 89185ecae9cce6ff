/**
 * What the writer and the reader promise together: a file the writer
 * produces is accepted by the reader, which finds every tensor under its
 * name with the type, shape and bytes it was given.
 */
module RoundTrip {

  import opened Wrappers
  import opened Bytes
  import opened Dtypes
  import opened TensorMetadata
  import opened Container
  import Sorting

  function NameOf(x: Named): string {
    x.0
  }

  function NamesOf(data: seq<Named>): seq<string> {
    Sorting.Map(NameOf, data)
  }

  /** Names the writer can put in one header: distinct, and none is the reserved key. */
  ghost predicate Nameable(data: seq<Named>) {
    Sorting.Distinct(NamesOf(data)) && METADATA_KEY !in NamesOf(data)
  }

  /** What the size rule asks of a tensor handed to the writer. */
  ghost predicate Writable(t: TensorSource) {
    var nbits := Product(t.shape) * BitSize(t.dtype);
    && CheckedProductFrom(1, t.shape).Some?
    && nbits <= USIZE_MAX
    && nbits % 8 == 0
    && |t.data| == nbits / 8
  }

  // ------------------------------------------------------------- planner

  lemma {:induction false} PlanKeys(s: seq<Named>)
    ensures Keys(Plan(s)) == NamesOf(s)
  {
    forall i | 0 <= i < |s| ensures Keys(Plan(s))[i] == NamesOf(s)[i] {
      PlanAt(s, i);
    }
  }

  /** The planned ranges are back to back from 0 and end at the total byte count. */
  lemma {:induction false} PlanContiguous(s: seq<Named>)
    ensures Contiguous(Seconds(Plan(s)))
    ensures Plan(s) != [] ==> Plan(s)[|s| - 1].1.end == Total(s)
  {
    var t := Seconds(Plan(s));
    forall i | 0 <= i < |t|
      ensures t[i].start <= t[i].end && (i == 0 ==> t[i].start == 0) && (i > 0 ==> t[i].start == t[i - 1].end)
    {
      PlanAt(s, i);
      PlanStep(s, i);
      if i > 0 {
        PlanAt(s, i - 1);
        assert i - 1 + 1 == i;
      }
    }
    if s != [] {
      PlanAt(s, |s| - 1);
      assert s[..|s|] == s;
    }
  }

  /** Planned descriptors satisfy the size rule exactly when every tensor planned is writable. */
  lemma {:induction false} PlanSizes(s: seq<Named>)
    ensures AllSizesConsistent(Seconds(Plan(s))) <==> forall i :: 0 <= i < |s| ==> Writable(s[i].1)
  {
    var t := Seconds(Plan(s));
    forall i | 0 <= i < |s| ensures SizeConsistent(t[i]) <==> Writable(s[i].1) {
      PlanAt(s, i);
      PlanStep(s, i);
    }
  }

  lemma {:induction false} SortedMembers(data: seq<Named>)
    ensures forall x :: x in data <==> x in Sorting.SortBy(data, PlanLe)
  {
    var sorted := Sorting.SortBy(data, PlanLe);
    assert forall x :: x in data <==> x in multiset(sorted);
  }

  /** The planned table's names repeat exactly when the caller's names do. */
  lemma {:induction false} PlannedNamesDistinct(data: seq<Named>)
    ensures DistinctNames(Keys(Plan(Sorting.SortBy(data, PlanLe)))) <==> Sorting.Distinct(NamesOf(data))
  {
    var sorted := Sorting.SortBy(data, PlanLe);
    PlanKeys(sorted);
    Sorting.MapPermutation(NameOf, data, sorted);
    if Sorting.Distinct(NamesOf(data)) {
      Sorting.DistinctPermutation(NamesOf(data), NamesOf(sorted));
    }
    if Sorting.Distinct(NamesOf(sorted)) {
      Sorting.DistinctPermutation(NamesOf(sorted), NamesOf(data));
    }
  }

  /** `prepare` succeeds exactly when the planned table builds and its names do not repeat. */
  lemma PreparationStages(codec: HeaderCodec, data: seq<Named>, info: Option<map<string, string>>)
    ensures var entries := Plan(Sorting.SortBy(data, PlanLe));
      Preparation(codec, data, info).Ok? <==> Build(info, entries).Ok? && DistinctNames(Keys(entries))
  {
    var built := Build(info, Plan(Sorting.SortBy(data, PlanLe)));
    if built.Ok? {
      PlaceableIffDistinct(built.value);
    }
  }

  /**
   * `prepare` fails exactly when two tensors share a name (writing the
   * header then panics) or some tensor breaks the size rule: the planned
   * offsets themselves are always valid.
   */
  lemma {:induction false} PreparationSucceeds(codec: HeaderCodec, data: seq<Named>, info: Option<map<string, string>>)
    ensures Preparation(codec, data, info).Ok? <==>
      Sorting.Distinct(NamesOf(data)) && forall x :: x in data ==> Writable(x.1)
  {
    var sorted := Sorting.SortBy(data, PlanLe);
    PlanContiguous(sorted);
    PlanSizes(sorted);
    BuildCharacterized(info, Plan(sorted));
    SortedMembers(data);
    assert (forall x :: x in data ==> Writable(x.1)) <==> forall i :: 0 <= i < |sorted| ==> Writable(sorted[i].1);
    PlannedNamesDistinct(data);
    PreparationStages(codec, data, info);
  }

  /** Wider-ranked types first; within one type, names in ascending order. */
  predicate InPlannedOrder(s: seq<Named>) {
    forall i, j :: 0 <= i < j < |s| ==>
      Rank(s[j].1.dtype) <= Rank(s[i].1.dtype) &&
      (s[i].1.dtype == s[j].1.dtype ==> Sorting.LexLe(s[i].0, s[j].0))
  }

  /** The planner's order, stated outright, over a rearrangement of the caller's tensors. */
  lemma {:induction false} PlanOrder(data: seq<Named>)
    ensures InPlannedOrder(Sorting.SortBy(data, PlanLe))
    ensures multiset(Sorting.SortBy(data, PlanLe)) == multiset(data)
  {
    PlanLeIsPreorder();
    Sorting.SortBySorted(data, PlanLe);
    var s := Sorting.SortBy(data, PlanLe);
    forall i, j | 0 <= i < j < |s|
      ensures Rank(s[j].1.dtype) <= Rank(s[i].1.dtype)
      ensures s[i].1.dtype == s[j].1.dtype ==> Sorting.LexLe(s[i].0, s[j].0)
    {
      assert PlanLe(s[i], s[j]);
    }
  }

  /** Two tensors the planner ties on share their type and their name. */
  lemma PlanTie(x: Named, y: Named)
    requires PlanLe(x, y) && PlanLe(y, x)
    ensures x.0 == y.0 && x.1.dtype == y.1.dtype
  {
    CompareAntisymmetric(y.1.dtype, x.1.dtype);
    Sorting.LexLeAntisymmetric(x.0, y.0);
  }

  /** Among tensors with distinct names, only a tensor ties with itself. */
  lemma {:induction false} DistinctNamesNoTies(a: seq<Named>, s: seq<Named>)
    requires multiset(s) == multiset(a) && Sorting.Distinct(NamesOf(a))
    ensures forall x, y :: x in s && y in s && PlanLe(x, y) && PlanLe(y, x) ==> x == y
  {
    forall x, y | x in s && y in s && PlanLe(x, y) && PlanLe(y, x) ensures x == y {
      assert x in multiset(a) && y in multiset(a);
      var i :| 0 <= i < |a| && a[i] == x;
      var k :| 0 <= k < |a| && a[k] == y;
      PlanTie(x, y);
      assert NamesOf(a)[i] == NamesOf(a)[k];
    }
  }

  /**
   * With distinct names the planned order depends only on which tensors
   * are given, not on the order they are given in.
   */
  lemma {:induction false} PlanOrderIndependent(a: seq<Named>, b: seq<Named>)
    requires multiset(a) == multiset(b) && Sorting.Distinct(NamesOf(a))
    ensures Sorting.SortBy(a, PlanLe) == Sorting.SortBy(b, PlanLe)
  {
    PlanLeIsPreorder();
    var sa := Sorting.SortBy(a, PlanLe);
    var sb := Sorting.SortBy(b, PlanLe);
    Sorting.SortBySorted(a, PlanLe);
    Sorting.SortBySorted(b, PlanLe);
    DistinctNamesNoTies(a, sa);
    Sorting.SortedUnique(sa, sb, PlanLe);
  }

  /** So does everything `prepare` and `serialize` produce. */
  lemma {:induction false} SerializationOrderIndependent(codec: HeaderCodec, a: seq<Named>, b: seq<Named>, info: Option<map<string, string>>)
    requires multiset(a) == multiset(b) && Sorting.Distinct(NamesOf(a))
    ensures Preparation(codec, a, info) == Preparation(codec, b, info)
    ensures Serialization(codec, a, info) == Serialization(codec, b, info)
  {
    PlanOrderIndependent(a, b);
    assert Preparation(codec, a, info) == Preparation(codec, b, info);
  }

  // -------------------------------------------------------------- reader

  function RangeOf(e: Entry): (nat, nat) {
    (e.1.start, e.1.end)
  }

  /** Tuple order on `(start, end)`: total and antisymmetric. */
  predicate PairLe(a: (nat, nat), b: (nat, nat)) {
    a.0 < b.0 || (a.0 == b.0 && a.1 <= b.1)
  }

  lemma {:induction false} EndBeforeStart(t: seq<TensorInfo>, i: nat, j: nat)
    requires Contiguous(t) && i < j < |t|
    ensures t[i].end <= t[j].start
    decreases j - i
  {
    if i + 1 < j {
      EndBeforeStart(t, i + 1, j);
    }
  }

  lemma {:induction false} ContiguousRangesSorted(entries: seq<Entry>)
    requires Contiguous(Seconds(entries))
    ensures Sorting.Sorted(Sorting.Map(RangeOf, entries), PairLe)
  {
    forall i, j | 0 <= i < j < |entries|
      ensures PairLe(Sorting.Map(RangeOf, entries)[i], Sorting.Map(RangeOf, entries)[j])
    {
      EndBeforeStart(Seconds(entries), i, j);
    }
  }

  lemma {:induction false} OffsetSortedRanges(s: seq<Entry>)
    requires Sorting.Sorted(s, OffsetLe)
    ensures Sorting.Sorted(Sorting.Map(RangeOf, s), PairLe)
  {
  }

  /**
   * Sorting any permutation of a contiguous table by offsets puts the same
   * ranges in the same places, whatever order the entries arrived in.
   */
  lemma {:induction false} SameRanges(entries: seq<Entry>, parsed: seq<Entry>)
    requires Contiguous(Seconds(entries)) && multiset(parsed) == multiset(entries)
    ensures Sorting.Map(RangeOf, Sorting.SortBy(parsed, OffsetLe)) == Sorting.Map(RangeOf, entries)
  {
    var sorted := Sorting.SortBy(parsed, OffsetLe);
    OffsetLeIsPreorder();
    Sorting.SortBySorted(parsed, OffsetLe);
    OffsetSortedRanges(sorted);
    ContiguousRangesSorted(entries);
    Sorting.MapPermutation(RangeOf, sorted, entries);
    Sorting.SortedUnique(Sorting.Map(RangeOf, sorted), Sorting.Map(RangeOf, entries), PairLe);
  }

  /** The last end offset of a list of entries (its payload length once contiguous). */
  function LastEnd(entries: seq<Entry>): nat {
    if entries == [] then 0 else entries[|entries| - 1].1.end
  }

  lemma {:induction false} ContiguousOfRanges(entries: seq<Entry>, sorted: seq<Entry>)
    requires Contiguous(Seconds(entries)) && Sorting.Map(RangeOf, sorted) == Sorting.Map(RangeOf, entries)
    ensures Contiguous(Seconds(sorted)) && LastEnd(sorted) == LastEnd(entries)
  {
    var t := Seconds(sorted);
    forall i | 0 <= i < |t|
      ensures t[i].start <= t[i].end && (i == 0 ==> t[i].start == 0) && (i > 0 ==> t[i].start == t[i - 1].end)
    {
      assert RangeOf(sorted[i]) == RangeOf(entries[i]);
      if i > 0 {
        assert RangeOf(sorted[i - 1]) == RangeOf(entries[i - 1]);
      }
    }
    if sorted != [] {
      assert RangeOf(sorted[|sorted| - 1]) == RangeOf(entries[|entries| - 1]);
    }
  }

  lemma {:induction false} SizesOfPermutation(entries: seq<Entry>, sorted: seq<Entry>)
    requires AllSizesConsistent(Seconds(entries)) && multiset(sorted) == multiset(entries)
    ensures AllSizesConsistent(Seconds(sorted))
  {
    var t := Seconds(sorted);
    forall i | 0 <= i < |t| ensures SizeConsistent(t[i]) {
      assert sorted[i] in multiset(entries);
      var j :| 0 <= j < |entries| && entries[j] == sorted[i];
      assert Seconds(entries)[j] == t[i];
    }
  }

  /**
   * The reader's table rebuilt from a permutation of a valid table is
   * valid, holds the same entries and covers the same payload.
   */
  lemma {:induction false} ReorderedTable(meta: Option<map<string, string>>, entries: seq<Entry>, parsed: seq<Entry>)
    requires Build(meta, entries).Ok? && multiset(parsed) == multiset(entries)
    ensures FromEntries(meta, parsed).Ok?
    ensures multiset(Sorting.SortBy(parsed, OffsetLe)) == multiset(entries)
    ensures DataLen(FromEntries(meta, parsed).value) == LastEnd(entries)
  {
    var sorted := Sorting.SortBy(parsed, OffsetLe);
    BuildCharacterized(meta, entries);
    SameRanges(entries, parsed);
    ContiguousOfRanges(entries, sorted);
    SizesOfPermutation(entries, sorted);
    BuildCharacterized(meta, sorted);
  }

  // ------------------------------------------------------------- payload

  lemma {:induction false} ConcatPrefix(ts: seq<TensorSource>, m: nat)
    requires m <= |ts|
    ensures Concat(ts[..m]) <= Concat(ts)
    decreases |ts|
  {
    if m < |ts| {
      var n := |ts| - 1;
      ConcatPrefix(ts[..n], m);
      assert ts[..n][..m] == ts[..m];
    } else {
      assert ts[..m] == ts;
    }
  }

  /** The planned range of tensor `j` holds exactly its bytes. */
  lemma {:induction false} PayloadSlice(s: seq<Named>, j: nat)
    requires j < |s|
    ensures Total(s[..j]) <= Total(s[..j + 1]) <= |Concat(Seconds(s))|
    ensures Concat(Seconds(s))[Total(s[..j])..Total(s[..j + 1])] == s[j].1.data
  {
    var ts := Seconds(s);
    assert ts[..j] == Seconds(s[..j]);
    assert ts[..j + 1] == Seconds(s[..j + 1]);
    ConcatLength(s[..j]);
    ConcatLength(s[..j + 1]);
    ConcatSnoc(ts, j);
    ConcatPrefix(ts, j + 1);
    var whole := Concat(ts);
    var before := Concat(ts[..j]);
    assert whole[..|before| + |s[j].1.data|] == before + s[j].1.data;
  }

  /** The reader recovers the length prefix the writer put in front, and the header and payload after it. */
  lemma {:induction false} LengthPrefix(header: seq<byte>, payload: seq<byte>)
    requires |header| <= MAX_HEADER_SIZE
    ensures var buf := LeBytes(|header|, N_LEN) + header + payload;
      |buf| >= N_LEN && LeValue(buf[..N_LEN]) == |header| &&
      buf[N_LEN..N_LEN + |header|] == header && buf[N_LEN + |header|..] == payload
  {
    var prefix := LeBytes(|header|, N_LEN);
    var buf := prefix + header + payload;
    assert buf[..N_LEN] == prefix;
    assert buf[N_LEN..N_LEN + |header|] == header;
    assert buf[N_LEN + |header|..] == payload;
    assert Pow256(N_LEN) == 0x1_0000_0000_0000_0000;
    LeRoundTrip(|header|, N_LEN);
  }

  // ------------------------------------------------------------ the names

  function EntryName(e: Entry): string {
    e.0
  }

  lemma {:induction false} KeysAsMap(entries: seq<Entry>)
    ensures Keys(entries) == Sorting.Map(EntryName, entries)
  {
  }

  /** Keys of two permutations of each other: the same names, and distinct together. */
  lemma {:induction false} PermutedKeys(a: seq<Entry>, b: seq<Entry>)
    requires multiset(a) == multiset(b)
    ensures forall k :: k in Keys(a) <==> k in Keys(b)
    ensures DistinctNames(Keys(a)) ==> DistinctNames(Keys(b))
  {
    KeysAsMap(a);
    KeysAsMap(b);
    Sorting.MapPermutation(EntryName, a, b);
    assert forall k :: k in Keys(a) <==> k in multiset(Keys(b));
    if DistinctNames(Keys(a)) {
      Sorting.DistinctPermutation(Keys(a), Keys(b));
    }
  }

  /** The planned order keeps the caller's names, so they stay distinct and free of the reserved key. */
  lemma {:induction false} SortedNames(data: seq<Named>)
    requires Nameable(data)
    ensures forall k :: k in NamesOf(data) <==> k in Keys(Plan(Sorting.SortBy(data, PlanLe)))
    ensures DistinctNames(Keys(Plan(Sorting.SortBy(data, PlanLe))))
  {
    var sorted := Sorting.SortBy(data, PlanLe);
    Sorting.MapPermutation(NameOf, data, sorted);
    Sorting.DistinctPermutation(NamesOf(data), NamesOf(sorted));
    assert forall k :: k in NamesOf(data) <==> k in multiset(NamesOf(sorted));
    PlanKeys(sorted);
  }

  /** With distinct names, the key written at each position is the name stored there. */
  lemma KeysOfDistinct(m: Metadata)
    requires WellFormed(m) && DistinctNames(m.names)
    ensures forall i :: 0 <= i < |m.names| ==> KeyAt(m, i) == m.names[i]
  {
    forall i | 0 <= i < |m.names| ensures KeyAt(m, i) == m.names[i] {
      IndexOfDistinct(m.names, i);
    }
  }

  /** A well-formed table with distinct names is written as its entries, in table order. */
  lemma {:induction false} RecordOfDistinct(m: Metadata, entries: seq<Entry>)
    requires WellFormed(m) && DistinctNames(m.names)
    requires m.names == Keys(entries) && m.tensors == Seconds(entries)
    ensures RecordOf(m) == Ok(HeaderRecord(m.metadata, entries))
  {
    PlaceableIffDistinct(m);
    KeysOfDistinct(m);
    var r := RecordOf(m).value;
    forall i | 0 <= i < |entries| ensures r.entries[i] == entries[i] {
      assert r.entries[i] == (m.names[i], m.tensors[i]);
    }
    assert r.entries == entries;
  }

  /** Writing a built table emits every entry under its own name, in table order. */
  lemma {:induction false} RecordOfBuilt(meta: Option<map<string, string>>, entries: seq<Entry>)
    requires Build(meta, entries).Ok? && DistinctNames(Keys(entries))
    ensures RecordOf(Build(meta, entries).value) == Ok(HeaderRecord(meta, entries))
  {
    RecordOfDistinct(Build(meta, entries).value, entries);
  }

  // ------------------------------------------------------- write, then read

  /** A successful write is the length prefix, the padded header of the planned table, and the planned payload. */
  lemma {:induction false} WrittenLayout(codec: HeaderCodec, data: seq<Named>, info: Option<map<string, string>>)
    returns (md: Metadata, pad: nat)
    requires Serialization(codec, data, info).Ok?
    ensures Build(info, Plan(Sorting.SortBy(data, PlanLe))) == Ok(md)
    ensures RecordOf(md).Ok? && pad < 8
    ensures var header := codec.encode(RecordOf(md).value) + Spaces(pad);
      |header| <= MAX_HEADER_SIZE &&
      Serialization(codec, data, info).value ==
        LeBytes(|header|, N_LEN) + header + Concat(Seconds(Sorting.SortBy(data, PlanLe)))
  {
    var sorted := Sorting.SortBy(data, PlanLe);
    md := Build(info, Plan(sorted)).value;
    var b := codec.encode(RecordOf(md).value);
    pad := AlignUp8(|b|) - |b|;
    var header := PadHeader(b);
    assert header == b + Spaces(pad);
    assert Preparation(codec, data, info) == Ok((Prepared(|header|, header, Total(sorted)), Seconds(sorted)));
  }

  /** The reader's checks on a buffer laid out as the writer lays it out. */
  lemma {:induction false} ReadLayout(codec: HeaderCodec, header: seq<byte>, payload: seq<byte>, meta: Option<map<string, string>>, entries: seq<Entry>)
    requires |header| <= MAX_HEADER_SIZE
    requires codec.parse(header).Ok? && SameHeader(codec.parse(header).value, HeaderRecord(meta, entries))
    requires Build(meta, entries).Ok? && LastEnd(entries) == |payload|
    ensures var p := codec.parse(header).value;
      FromEntries(p.metadata, p.entries).Ok? &&
      ReadMetadata(codec, LeBytes(|header|, N_LEN) + header + payload) ==
        Ok((|header|, FromEntries(p.metadata, p.entries).value))
  {
    var p := codec.parse(header).value;
    var buf := LeBytes(|header|, N_LEN) + header + payload;
    ReorderedTable(meta, entries, p.entries);
    LengthPrefix(header, payload);
  }

  /**
   * The reader accepts what the writer wrote: it keeps the free-form map,
   * lays a permutation of the planned entries over the planned payload.
   */
  lemma {:induction false} ReadBack(codec: HeaderCodec, data: seq<Named>, info: Option<map<string, string>>)
    returns (a: Archive, table: seq<Entry>)
    requires ReadsBack(codec) && Nameable(data)
    requires Serialization(codec, data, info).Ok?
    ensures Deserialize(codec, Serialization(codec, data, info).value) == Ok(a)
    ensures ValidArchive(a) && a.metadata.metadata == info
    ensures a.metadata.names == Keys(table) && a.metadata.tensors == Seconds(table)
    ensures multiset(table) == multiset(Plan(Sorting.SortBy(data, PlanLe)))
    ensures a.data == Concat(Seconds(Sorting.SortBy(data, PlanLe)))
  {
    var sorted := Sorting.SortBy(data, PlanLe);
    var entries := Plan(sorted);
    var md, pad := WrittenLayout(codec, data, info);
    SortedNames(data);
    RecordOfBuilt(info, entries);
    var header := codec.encode(HeaderRecord(info, entries)) + Spaces(pad);
    var payload := Concat(Seconds(sorted));
    var buf := LeBytes(|header|, N_LEN) + header + payload;
    assert buf == Serialization(codec, data, info).value;
    assert Encodable(HeaderRecord(info, entries));
    var p := codec.parse(header).value;
    ConcatLength(sorted);
    PlanContiguous(sorted);
    ReadLayout(codec, header, payload, info, entries);
    ReorderedTable(info, entries, p.entries);
    table := Sorting.SortBy(p.entries, OffsetLe);
    LengthPrefix(header, payload);
    a := Archive(FromEntries(p.metadata, p.entries).value, payload);
  }

  /** Looking up a name the caller wrote finds that tensor's type, shape and bytes. */
  lemma {:induction false} LookupWritten(data: seq<Named>, a: Archive, table: seq<Entry>, i: nat)
    requires Nameable(data) && i < |data|
    requires ValidArchive(a)
    requires a.metadata.names == Keys(table) && a.metadata.tensors == Seconds(table)
    requires multiset(table) == multiset(Plan(Sorting.SortBy(data, PlanLe)))
    requires a.data == Concat(Seconds(Sorting.SortBy(data, PlanLe)))
    ensures Tensor(a, data[i].0) == Ok(TensorView(data[i].1.dtype, data[i].1.shape, data[i].1.data))
  {
    var sorted := Sorting.SortBy(data, PlanLe);
    var entries := Plan(sorted);
    var name := data[i].0;
    SortedMembers(data);
    assert data[i] in sorted;
    var j :| 0 <= j < |sorted| && sorted[j] == data[i];
    PlanAt(sorted, j);
    assert entries[j] in multiset(table);
    var k :| 0 <= k < |table| && table[k] == entries[j];
    SortedNames(data);
    PermutedKeys(entries, table);
    InfoOfDistinct(a.metadata, k);
    assert a.metadata.names[k] == name;
    PayloadSlice(sorted, j);
  }

  /** The reader finds exactly the names the caller wrote, one descriptor each. */
  lemma {:induction false} ReadNames(data: seq<Named>, a: Archive, table: seq<Entry>)
    requires Nameable(data) && ValidArchive(a)
    requires a.metadata.names == Keys(table) && a.metadata.tensors == Seconds(table)
    requires multiset(table) == multiset(Plan(Sorting.SortBy(data, PlanLe)))
    ensures Len(a) == |data|
    ensures forall k :: k in Names(a) <==> k in NamesOf(data)
  {
    SortedNames(data);
    PermutedKeys(Plan(Sorting.SortBy(data, PlanLe)), table);
    var sorted := Sorting.SortBy(data, PlanLe);
    assert |table| == |Plan(sorted)| by {
      assert |multiset(table)| == |multiset(Plan(sorted))|;
    }
    assert |sorted| == |data| by {
      assert |multiset(sorted)| == |multiset(data)|;
    }
    assert Len(a) == |a.metadata.tensors| == |Seconds(table)| == |table|;
  }

  /**
   * Write, then read: with a JSON layer that reads back what it writes
   * and names that can share a header, every tensor comes back under its
   * name with its type, shape and bytes, the free-form map comes back,
   * and nothing else is found.
   */
  lemma {:induction false} WriteThenRead(codec: HeaderCodec, data: seq<Named>, info: Option<map<string, string>>)
    returns (a: Archive)
    requires ReadsBack(codec) && Nameable(data)
    requires Serialization(codec, data, info).Ok?
    ensures Deserialize(codec, Serialization(codec, data, info).value) == Ok(a)
    ensures ValidArchive(a) && a.metadata.metadata == info && Len(a) == |data|
    ensures forall i :: 0 <= i < |data| ==>
      Tensor(a, data[i].0) == Ok(TensorView(data[i].1.dtype, data[i].1.shape, data[i].1.data))
    ensures forall k :: k in Names(a) <==> k in NamesOf(data)
  {
    var table;
    a, table := ReadBack(codec, data, info);
    forall i | 0 <= i < |data|
      ensures Tensor(a, data[i].0) == Ok(TensorView(data[i].1.dtype, data[i].1.shape, data[i].1.data))
    {
      LookupWritten(data, a, table, i);
    }
    ReadNames(data, a, table);
  }
}

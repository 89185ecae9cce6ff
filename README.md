# A verified model of the x8Dsub-byte tensor container

This project models the core of a fork of the *safetensors* container
format, written in Dafny. It covers two parts.

**The container.** A file is an 8-byte little-endian header length `n`,
then `n` bytes of JSON header padded with spaces to a multiple of 8, then
every tensor's bytes back to back. The model covers:

- the element-type catalogue and its bit widths;
- the descriptor table (`Metadata`) and its validation;
- the layout planner (`prepare`);
- the writer (`serialize`);
- the zero-copy reader (`read_metadata`, `deserialize`, `tensor`, `len`, `is_empty`);
- the `TensorView::new` size check.

**The strided slicing iterator.** Per-dimension index operations (a single
index or a range with included, excluded or unbounded ends) are resolved
against a view's shape. An odometer over the selected region then yields
one element-sized byte slice per step.

The JSON layer is a parameter, `Container.HeaderCodec`. It stands for
`serde_json::to_string` on one side and for UTF-8 decoding followed by
`serde_json::from_str` on the other. The round-trip lemmas assume only
`Container.ReadsBack`: parsing an encoded header, followed by fewer than 8
spaces, gives back the same free-form map and the same entries in some
order. A JSON object has no order, which is why the reader re-sorts
entries by offset. Tensor bytes pass through the writer and the reader
unchanged.

Modules:

- **`Bytes`:** bytes, `usize`, little-endian integers, spaces.
- **`Dtypes`:** `Dtype`, its derived order, `bitsize`, `size`, tags.
- **`Sorting`:** a stable sort standing for `sort_by`, with uniqueness of sorted permutations; lexicographic string order.
- **`TensorMetadata`:** `TensorInfo`, `Metadata`, `validate`, `new`, `info`, `tensors`, `offset_keys`, `data_len`, the offset sort.
- **`Container`:** views, the planner, the writer, the reader.
- **`RoundTrip`:** what the writer and the reader promise together.
- **`Slicing`:** index resolution, strides, the iterator class (`SliceIterator`).

The slicing iterator is modelled as its comments describe it, not as its
code computes it. An item's address is Σ (start_i + counter_i) · stride_i.
Each counter is bounded by the extent selected in its dimension. The code
as written does both differently; see "## Findings", where both halves are
modelled.

## Model

| member | source | states |
|---|---|---|
| Dtypes.Rank | safetensors/src/x8d_tensor.rs:885-934 | A type's position in the declaration, which is what the derived `Ord` compares, is one of the 20 positions. `RankInjective` shows that no two types share one. |
| Dtypes.Compare | safetensors/src/x8d_tensor.rs:885-934 | The derived comparison is 0 exactly on equal types and negative exactly when the first is declared earlier. |
| Dtypes.RankInjective | safetensors/src/x8d_tensor.rs:885-934 | Distinct types have distinct positions, so the derived order is total. |
| Dtypes.CompareAntisymmetric | safetensors/src/x8d_tensor.rs:885-934 | Swapping the operands negates the comparison. |
| Dtypes.BitSize | safetensors/src/x8d_tensor.rs:938-961 | A width is one of 4, 6, 8, 16, 32 or 64 bits. It is below 8 exactly for F4, F6_E2M3 and F6_E3M2. |
| Dtypes.ByteSize | safetensors/src/x8d_tensor.rs:963-969 | `bitsize / 8`: whole bytes per element, 0 exactly for the sub-byte types. |
| Dtypes.RankFollowsWidth | safetensors/src/x8d_tensor.rs:885-961 | Apart from BOOL, a narrower type is declared before a wider one, so "descending dtype" puts wider types first. |
| Dtypes.Tag | safetensors/src/x8d_tensor.rs:972-996 | A type's textual name, as `Display` and the header write it, is at least two characters. `TagRoundTrip` shows that it reads back as that type. |
| Dtypes.ParseTag | safetensors/src/x8d_tensor.rs:885-886 | Reading a name back yields a type only when that type's name is the text read. |
| Dtypes.TagRoundTrip | safetensors/src/x8d_tensor.rs:885-886 | Every type's name reads back as that type. |
| Bytes.LeBytes | safetensors/src/x8d_tensor.rs:319 | `to_le_bytes` gives exactly `k` bytes. |
| Bytes.LeValue | safetensors/src/x8d_tensor.rs:430 | `from_le_bytes` of `k` bytes is below 256^k. |
| Bytes.LeRoundTrip | safetensors/src/x8d_tensor.rs:430-432 | Decoding the little-endian encoding of a number that fits gives the number back. |
| Bytes.Spaces | safetensors/src/x8d_tensor.rs:282 | The padding is `k` bytes, each `b' '`. |
| Sorting.SortBy | safetensors/src/x8d_tensor.rs:257-259 | Sorting returns a permutation of its input. |
| Sorting.SortBySorted | safetensors/src/x8d_tensor.rs:257-259 | Under a total preorder, the result is sorted and a permutation of the input. |
| Sorting.SortByIdentity | safetensors/src/x8d_tensor.rs:257-259 | Sorting an already sorted sequence changes nothing. |
| Sorting.SortedUnique | safetensors/src/x8d_tensor.rs:257-259 | Two sorted permutations of each other are equal when the order ties no two distinct elements. |
| Sorting.LexLeTotal | safetensors/src/x8d_tensor.rs:258 | `lname.cmp(rname)` compares any two names. |
| Sorting.LexLeTransitive | safetensors/src/x8d_tensor.rs:258 | The name order is transitive. |
| Sorting.LexLeAntisymmetric | safetensors/src/x8d_tensor.rs:258 | Names that compare both ways are equal. |
| Sorting.MapPermutation | safetensors/src/x8d_tensor.rs:632 | Projecting two permutations of each other gives permutations of each other. |
| Sorting.DistinctPermutation | safetensors/src/x8d_tensor.rs:632 | A permutation of a sequence without repeats has none either. |
| TensorMetadata.Product | safetensors/src/x8d_tensor.rs:717-722 | The element count of a shape; the empty shape holds one element. |
| TensorMetadata.CheckedProductFrom | safetensors/src/x8d_tensor.rs:717-722 | The overflow-checked product, when it succeeds, is the true product and fits in `usize`. |
| TensorMetadata.CheckedProductExact | safetensors/src/x8d_tensor.rs:717-722 | Without zero dimensions, the checked product fails exactly when the true product exceeds `usize`. |
| TensorMetadata.CheckEntry | safetensors/src/x8d_tensor.rs:706-737 | One descriptor passes exactly when it starts at the cursor and its size is consistent; the cursor then moves to its end. A wrong start or a reversed range fails `InvalidOffset` with its name. |
| TensorMetadata.Validate | safetensors/src/x8d_tensor.rs:702-739 | The loop with its running cursor and early returns computes `Validation`. |
| TensorMetadata.ValidateFromOk | safetensors/src/x8d_tensor.rs:702-739 | Validation from a position succeeds exactly when every later descriptor passes its check in turn, and it returns the last end. |
| TensorMetadata.ValidationCharacterized | safetensors/src/x8d_tensor.rs:702-769 | `validate` succeeds exactly on contiguous, size-consistent tables, and then returns `data_len()`. |
| TensorMetadata.ValidateFromError | safetensors/src/x8d_tensor.rs:702-739 | A failure comes from the first descriptor that fails its check, after all earlier ones passed. |
| TensorMetadata.FirstFailure | safetensors/src/x8d_tensor.rs:702-739 | The error `validate` returns is the first failing descriptor's error, with the cursor it met. |
| TensorMetadata.FirstOffsetMustBeZero | safetensors/src/x8d_tensor.rs:706-715 | A first range not starting at 0 fails `InvalidOffset` under that tensor's name. |
| TensorMetadata.OddF4IsMisaligned | safetensors/src/x8d_tensor.rs:723-729 | Three F4 elements, 12 bits, fail `MisalignedSlice`. |
| TensorMetadata.IndexMapOf | safetensors/src/x8d_tensor.rs:682-691 | Inserting keys in order maps each key to its last position. |
| TensorMetadata.DistinctSnoc | safetensors/src/x8d_tensor.rs:682-691 | A key list extended by one key has no repeats exactly when the list has none and does not hold the key. |
| TensorMetadata.IndexMapSize | safetensors/src/x8d_tensor.rs:682-691 | The index has at most one key per position, and exactly one exactly when no key repeats. |
| TensorMetadata.PlaceableIffDistinct | safetensors/src/x8d_tensor.rs:654-656 | For a table built by `Metadata::new`, every key can be placed at its index exactly when no key repeats, and then there is one key per descriptor. |
| TensorMetadata.IndexOfDistinct | safetensors/src/x8d_tensor.rs:682-691 | With distinct keys, each key maps to its own position. |
| TensorMetadata.NameAtIsSearch | safetensors/src/x8d_tensor.rs:707-714 | The name reported for a position is the key indexed there, or `no_tensor` when none is. |
| TensorMetadata.Build | safetensors/src/x8d_tensor.rs:678-700 | A built table keeps the free-form map, the descriptors and the keys in order, and validates to its `data_len`. |
| TensorMetadata.BuildCharacterized | safetensors/src/x8d_tensor.rs:678-700 | Building succeeds exactly when the descriptors are contiguous from 0 and each has a consistent size. |
| TensorMetadata.New | safetensors/src/x8d_tensor.rs:678-700 | The insertion loop followed by `validate` computes `Build`. |
| TensorMetadata.Info | safetensors/src/x8d_tensor.rs:742-745 | A descriptor is found exactly for the keys given, and it is the one at the position the key maps to. |
| TensorMetadata.InfoOfDistinct | safetensors/src/x8d_tensor.rs:742-745 | With distinct keys, the descriptor found for a key is the one stored beside it. |
| TensorMetadata.TensorsMap | safetensors/src/x8d_tensor.rs:748-753 | The map holds exactly the names that `info` finds, each with its descriptor. |
| TensorMetadata.OffsetKeysUpTo | safetensors/src/x8d_tensor.rs:756-760 | The first `n` positions' keys, each listed once at its indexed position, in increasing order. |
| TensorMetadata.OffsetKeysOrdered | safetensors/src/x8d_tensor.rs:756-760 | `offset_keys` lists exactly the indexed names, in increasing position order. |
| TensorMetadata.OffsetKeysDistinct | safetensors/src/x8d_tensor.rs:756-760 | With distinct keys, listing by offset gives the keys in table order. |
| TensorMetadata.OffsetLeIsPreorder | safetensors/src/x8d_tensor.rs:632 | Comparing `data_offsets` tuples is a total preorder. |
| Container.NewView | safetensors/src/x8d_tensor.rs:826-846 | A view is made exactly when the bit count is whole bytes and the data has that many bytes. Otherwise it fails `MisalignedSlice`, or `InvalidTensorView` with the type, shape and length. |
| Container.PlanLeIsPreorder | safetensors/src/x8d_tensor.rs:257-259 | Descending type, then ascending name, is a total preorder. |
| Container.Plan | safetensors/src/x8d_tensor.rs:265-275 | As many descriptors as tensors. `PlanAt` gives each one's name, type, shape and range. |
| Container.PlanAt | safetensors/src/x8d_tensor.rs:265-275 | Descriptor `i` keeps the tensor's name, type and shape. It covers the running offset before it up to the offset after it. |
| TensorMetadata.Seconds | safetensors/src/x8d_tensor.rs:274 | The second components, position by position: the tensors handed back are the planned tensors, in planned order, and a table's descriptors are its entries' descriptors. |
| Container.AlignUp8 | safetensors/src/x8d_tensor.rs:281 | `next_multiple_of(8)`: the least multiple of 8 not below `n`. |
| Container.PadHeader | safetensors/src/x8d_tensor.rs:280-282 | The padded header length is a multiple of 8, below the original length plus 8. It starts with the header and continues only with spaces. |
| Container.RecordOf | safetensors/src/x8d_tensor.rs:649-672 | Writing the table aborts (the `names[index]` write panics) exactly when some key's index lies past the key count. Otherwise the header carries the free-form map, then as many entries as `zip` yields, each descriptor under the key indexed at its position, in table order. |
| Container.Prepare | safetensors/src/x8d_tensor.rs:245-292 | The sort, the offset loop, `Metadata::new`, encoding and padding compute `Preparation`, including its abort on repeated names; `n` is the padded header's length, a multiple of 8. |
| Container.Serialize | safetensors/src/x8d_tensor.rs:296-331 | The buffer built by the `extend` calls is `Serialization`: the planning error or abort when `prepare` fails, `HeaderTooLarge` above the limit, else the length prefix, the header and every tensor's bytes. |
| Container.ConcatLength | safetensors/src/x8d_tensor.rs:324-328 | The payload is as long as the planner's final offset. |
| Container.SerializedSize | safetensors/src/x8d_tensor.rs:313-330 | Writing fails exactly when planning fails (a size error, or the abort on repeated names) or the header exceeds 100,000,000 bytes. A written file is `8 + n + offset` bytes, with `n` a multiple of 8. |
| Container.ReadMetadata | safetensors/src/x8d_tensor.rs:422-461 | The error ladder: under 8 bytes `HeaderTooSmall`; a length above the limit `HeaderTooLarge`; a header past the buffer `InvalidHeaderLength`. On success, the table is valid and `8 + n + data_len` is the buffer length. |
| Container.Deserialize | safetensors/src/x8d_tensor.rs:484-488 | A reader holds the valid table and the buffer past the header; otherwise it fails with `read_metadata`'s error. |
| Container.RangeWithinPayload | safetensors/src/x8d_tensor.rs:567-568 | In a valid table, every range lies within the payload. |
| Container.Tensor | safetensors/src/x8d_tensor.rs:552-581 | Looking up a name fails `TensorNotFound` exactly for names not in the table. Otherwise it gives the descriptor's type, shape and payload bytes. |
| Container.Names | safetensors/src/x8d_tensor.rs:586-588 | The names are exactly those `tensor` finds. |
| Container.Len | safetensors/src/x8d_tensor.rs:592-594 | The number of descriptors. |
| Container.IsEmpty | safetensors/src/x8d_tensor.rs:598-600 | True exactly when no name can be looked up. |
| RoundTrip.PlanKeys | safetensors/src/x8d_tensor.rs:265-275 | The planned keys are the tensors' names, in order. |
| RoundTrip.PlanContiguous | safetensors/src/x8d_tensor.rs:263-275 | The planned ranges run back to back from 0 and end at the final offset. |
| RoundTrip.PlanSizes | safetensors/src/x8d_tensor.rs:265-277 | The planned descriptors pass the size rule exactly when every tensor's bytes match its shape and type. |
| RoundTrip.PreparationStages | safetensors/src/x8d_tensor.rs:277-278 | `prepare` succeeds exactly when `Metadata::new` accepts the planned table and its names do not repeat. |
| RoundTrip.PlannedNamesDistinct | safetensors/src/x8d_tensor.rs:256-274 | The planned keys repeat exactly when the caller's names do. |
| RoundTrip.PreparationSucceeds | safetensors/src/x8d_tensor.rs:245-292 | `prepare` fails exactly when two tensors share a name (the header write then panics) or some tensor breaks the size rule, because the planned offsets are always valid. |
| RoundTrip.PlanOrder | safetensors/src/x8d_tensor.rs:256-259 | Planned order puts wider-ranked types first; within one type, names ascend. The planned tensors are a rearrangement of the given ones. |
| RoundTrip.PlanTie | safetensors/src/x8d_tensor.rs:257-259 | Two tensors the planner cannot order share their type and their name. |
| RoundTrip.PlanOrderIndependent | safetensors/src/x8d_tensor.rs:256-259 | With distinct names, the planned order depends only on which tensors are given, not on their input order. |
| RoundTrip.SerializationOrderIndependent | safetensors/src/x8d_tensor.rs:245-331 | With distinct names, `prepare` and `serialize` give the same result for any input order. |
| RoundTrip.SameRanges | safetensors/src/x8d_tensor.rs:632 | Sorting any permutation of a contiguous table by offsets puts the same ranges in the same places. |
| RoundTrip.ReorderedTable | safetensors/src/x8d_tensor.rs:623-634 | A parsed permutation of a valid table is accepted by `try_from`, with the same entries and payload length. |
| RoundTrip.PayloadSlice | safetensors/src/x8d_tensor.rs:324-328 | Tensor `j`'s planned range of the payload holds exactly its bytes. |
| RoundTrip.LengthPrefix | safetensors/src/x8d_tensor.rs:430-446 | The reader recovers the length the writer put in front, and the header and payload after it. |
| RoundTrip.SortedNames | safetensors/src/x8d_tensor.rs:256-277 | Planning keeps the caller's names, so they stay distinct and free of the reserved key. |
| RoundTrip.KeysOfDistinct | safetensors/src/x8d_tensor.rs:649-656 | With distinct names, the key placed at each position is the name stored there. |
| RoundTrip.RecordOfDistinct | safetensors/src/x8d_tensor.rs:649-672 | A well-formed table with distinct names is written without aborting, as exactly its entries in table order. |
| RoundTrip.RecordOfBuilt | safetensors/src/x8d_tensor.rs:649-672 | Writing a built table with distinct names emits every entry under its own name, in table order. |
| RoundTrip.WrittenLayout | safetensors/src/x8d_tensor.rs:245-331 | A written file is the length prefix, the encoded table with fewer than 8 spaces, and the planned payload. |
| RoundTrip.ReadLayout | safetensors/src/x8d_tensor.rs:422-461 | On a buffer laid out as the writer lays it out, every reader check passes. |
| RoundTrip.ReadBack | safetensors/src/x8d_tensor.rs:422-488 | Reading a written file succeeds. The reader keeps the free-form map, a permutation of the planned table, and the planned payload. |
| RoundTrip.LookupWritten | safetensors/src/x8d_tensor.rs:552-581 | Looking up a name the caller wrote finds that tensor's type, shape and bytes. |
| RoundTrip.ReadNames | safetensors/src/x8d_tensor.rs:586-594 | The reader finds exactly the caller's names, one descriptor each. |
| RoundTrip.WriteThenRead | safetensors/src/x8d_tensor.rs:422-581 | Write, then read: every tensor comes back under its name with its type, shape and bytes. The free-form map comes back, and no other name is found. |
| Slicing.ApplyOp | src/slice.rs:229-262 | One operation is accepted exactly when its range starts inside the dimension, ends inside it and is not reversed. A rejection reports the dimension, the start if it is past the end of the dimension (else the end), and the size. |
| Slicing.DimRange | src/slice.rs:227-265 | A dimension's operations are accepted exactly when each one is. The range is the last operation's, or the whole dimension when there is none. A failure is the first rejected operation's error. |
| Slicing.RangesUpTo | src/slice.rs:221-274 | Resolving the first `m` dimensions succeeds exactly when each dimension does, giving each one's range. A failure is the first failing dimension's error. |
| Slicing.Resolution | src/slice.rs:211-274 | `TooManySlices` exactly when there are more operations than dimensions. Otherwise success exactly when every operation is accepted. Each range lies in its dimension, and unspecified dimensions are whole. |
| Slicing.Rejected | src/slice.rs:221-263 | The first rejected operation, after all earlier dimensions resolved, decides the error of the whole resolution. |
| Slicing.SingleOutOfRange | src/slice.rs:378-392 | Index 5 on the first dimension (size 2) of a `[2, 3, 4]` tensor fails `SliceOutOfRange(0, 5, 2)`. |
| Slicing.EmptyRangeAtEnd | src/slice.rs:253-260 | On a dimension of 3, `1..1` selects nothing. An empty range starting at the end, `3..3`, is rejected with `asked = 3`. |
| Slicing.RowMajorStrides | src/slice.rs:276-283 | Each stride is the product of the later dimensions of the original shape. |
| Slicing.StrideStep | src/slice.rs:279-282 | The last stride is 1, and each earlier one is the next dimension times the next stride. |
| Slicing.AddressInBounds | src/slice.rs:308-320 | Counters inside a selection that fits the shape give an address inside the tensor. |
| Slicing.Inc | src/slice.rs:323-335 | The carry step keeps the number of counters. |
| Slicing.ZerosOrdinal | src/slice.rs:292 | When the selection is not empty, the all-zero starting counters are within their extents and denote the first position. |
| Slicing.IncOrdinal | src/slice.rs:323-335 | Before the last position, one carry step moves bounded counters to the next row-major position; they stay below their extents. |
| Slicing.IncWraps | src/slice.rs:323-335 | At the last position, the carry step wraps every counter to 0. |
| Slicing.OrdinalBelow | src/slice.rs:323-335 | Bounded counters denote a position below the element count. |
| Slicing.OrdinalInjective | src/slice.rs:323-335 | Distinct bounded counters denote distinct positions, so no element is yielded twice. |
| Slicing.WrittenAddress | src/slice.rs:308-314 | The address as written is the corrected address with every start set to 0. |
| Slicing.RowMajorOrder | src/slice.rs:276-314 | Over row-major strides, the address as written is the counters' row-major ordinal. |
| Slicing.WrittenDropsStart | src/slice.rs:308-314 | On `[2, 3, 4]` with index 1 on the first dimension, the first item as written is element 0; the selection starts at element 12. |
| Slicing.FirstTwoColumns | src/slice.rs:221-274 | `[2, 3]` with `..2` on the second dimension resolves to rows 0..2 and columns 0..2. |
| Slicing.WrittenCarryOverruns | src/slice.rs:323-335 | With counters bounded by the original shape, that selection steps to column 2, outside it, and addresses element 2 where the third item is element 3. |
| Slicing.WholeBytes | safetensors/src/x8d_tensor.rs:826-846 | A view `TensorView::new` accepts, of a whole-byte type, holds element count × element size bytes. |
| Slicing.ElementPresent | src/slice.rs:339-343 | An element whose address is inside the tensor is present in the data. |
| Slicing.ItemInside | src/slice.rs:308-343 | For an accepted whole-byte view, every item at bounded counters lies within the data. |
| Slicing.SliceIterator.New | src/slice.rs:207-297 | Construction fails exactly when resolution fails, with the same error. Otherwise the iterator is valid at index 0, over the resolved starts and the extents `end - start`. |
| Slicing.SliceIterator.LinearIndex | src/slice.rs:308-314 | The loop computes Σ (start_i + counter_i) · stride_i. |
| Slicing.SliceIterator.Advance | src/slice.rs:323-335 | The carry loop performs the odometer step on the counters, bounded by the selected extents. |
| Slicing.SliceIterator.Next | src/slice.rs:303-344 | Once all `Π new_shape` items are out, `None` with nothing changed. Otherwise the item at the current counters, with the index one higher and the counters stepped, and the iterator stays valid. An accepted whole-byte view always yields an item. |

## Left out

- The float transform applied to tensor bytes on writing and reading (`b * 0.001` and its inverse) is floating point and loses every byte; the model passes bytes through unchanged.
- Writing to a file (`serialize_to_file`, the buffered writer, `set_len`, `F_NOCACHE`) is I/O.
- JSON encoding and parsing and the UTF-8 check are foreign code. They are the `HeaderCodec` parameter, and `ReadsBack` is an assumption the round-trip lemmas take, not a proof.
- `InvalidHeader`, `InvalidHeaderDeserialization` and the I/O error kinds come only from that foreign code, so they are whatever the codec's parse returns.
- The commented-out `InvalidHeaderStart` check is not modelled, since the code does not run it.
- `tensors()` and `iter()` list entries in hash-map order. They are represented by `TensorsMap`, `Names` and `OffsetKeys`; the per-entry views are what `Tensor` returns.
- The `Display` and `Error` impls and the `View` trait's copy-on-write plumbing are formatting and plumbing. A tensor source is a record of type, shape and bytes.
- The crate facade and the Python demos hold no logic of the core.
- `sliced_data` only forwards to `SliceIterator::new`.
- Unchecked arithmetic is modelled on unbounded integers, so wrap-around or a panic there is not captured. This covers:
  - planner offsets;
  - the reader's `buffer_end + 8 + n`;
  - `n + 1` in bound translation;
  - `stride *= dim_size`;
  - the element count and `nbits = n_elements * bitsize` in `TensorView::new`;
  - `next()`'s address arithmetic: `linear_index += actual_pos * stride`, `start = linear_index * element_size` and `end = start + element_size`.
- Writing a table whose names repeat panics in `Serialize for Metadata` (`names[index] = name` past the end of `names`). A panic ends the program; `prepare`, `serialize` and `Container.RecordOf` return the extra error `Aborted` in its place, which the library itself never returns.
- Container.ReadMetadata: the `u64` to `usize` conversion cannot fail on the 64-bit targets modelled. The contract states the error ladder's first three rungs and the success facts; `MetadataIncompleteBuffer` appears only through the success condition.
- Sorting.SortBy: a stable insertion sort stands for the library's `sort_by`. Only the result matters, and with distinct names it is the unique sorted permutation (`RoundTrip.PlanOrderIndependent`).
- Entries with equal offsets (possible only for empty tensors) may be listed by the reader in any order among themselves. The lemmas about reading back speak of the table up to permutation.
- A tensor named `__metadata__` is outside `Nameable`: the header cannot carry both it and the free-form map.
- The slicing file does not compile as given. `TensorIndexer` is both a trait and a struct, the `From` impls and the range variants are duplicated. The model takes one `IndexOp = Single | Slice(Bound, Bound)`.
- The two slicing unit tests that contradict the code (wrong element count, a range the code rejects) are not used.
- `MisalignedSlice` is declared but never returned by slicing. For the 4-bit and 6-bit types the element size is 0 bytes, so each item is empty or absent.
- Slicing.SliceIterator.New: the corrected iterator stores the resolved starts, which the source's struct has no field for (see "## Findings").

## Findings

| source | as written | input that shows it | evidently intended | confidence | as-written member | corrected member |
|---|---|---|---|---|---|---|
| src/slice.rs:308-314 | The address is Σ counter_i · stride_i. The slice start is never added, despite the comment. | Shape `[2, 3, 4]`, index 1 on dimension 0. The first item as written is element 0; the selection begins at element 12. | Address Σ (start_i + counter_i) · stride_i | not executed | Slicing.WrittenDropsStart | Slicing.SliceIterator.LinearIndex |
| src/slice.rs:323-335 | Each counter wraps at the original `shape[i]`, not at the selected extent. | Shape `[2, 3]`, `..2` on dimension 1. After element 1 the counters step to column 2, outside the selection, and the third item is element 2 instead of 3. | Counter i wraps at `new_shape[i]` | not executed | Slicing.WrittenCarryOverruns | Slicing.SliceIterator.Advance |

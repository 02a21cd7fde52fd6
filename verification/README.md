# Minarrow verification

A Dafny model of the parts of Minarrow, a columnar array library in the style of Apache Arrow, that keep
state by hand: packed validity masks, nullable arrays edited in place, copy-on-write handles, the dictionary
encoder, the SIMD reductions, and the printing, equality and hashing of scalars. `dafny verify dfyconfig.toml`
checks all of it.

How the model is laid out:

- `Sequences.dfy` puts lists end to end. `Words.dfy` gives unsigned machine words as bounded naturals with
  shifts and bitwise operators worked out bit by bit, and little-endian bytes.
- `Buffers.dfy` and `Bitmask.dfy` model the packed mask: class `Bitmask` over an owned vector or a window on a
  shared allocation, its byte and word loops on packed bytes, and its abstraction `Bits()`, a `seq<bool>`.
- `MaskedArray.dfy`, `EditLaws.dfy`, `Consolidate.dfy` and `AlignedChunks.dfy` model the nullable array.
  `Rows()` is a `seq<Option<T>>`. Its invariant is `Valid()`: an absent mask, or one as long as the data.
- `SimdMask.dfy` reads and writes mask lanes across the boundaries of 64-bit words.
- `Utf8.dfy`, `DictKeys.dfy`, `Dictionary.dfy`, `Categorical.dfy` and `CatToString.dfy` model the conversions
  between string and categorical arrays. UTF-8 is that of section 4 of RFC 3629.
- `Columns.dfy` and `Handles.dfy` are the state machine of Python array handles: shared outer cells, typed
  arrays shared below them, windows, and the two `make_mut` steps. The specification gives every handle a
  column of its own.
- `SimdSum.dfy` models the reductions, `Decimal.dfy` the two decimal printers against a reader of decimal text,
  `Scalar.dfy`
  scalar equality and hashing, `Floats.dfy` the numbers that float bits stand for (IEEE 754-2008, section 3.4), and
  `ScalarStream.dfy` a reader of the hashed bytes.

What the proofs found:

- `Bitmask::resize` to a longer mask of set bits keeps the old bits of any whole byte past the one the length
  ends in. A mask with such spare bytes, reachable through the constructors that take a buffer, then shows
  cleared bits where set ones were asked for. `append_range` inherits this when only the left array has a
  mask. The condition is `SpareBitsAre`, both directions are proved, and `ResizeLeavesSpareByte` and
  `AppendRangeAddsNull` are instances.
- The string to categorical conversion unwraps the error of its checked cast, although a comment calls it
  checked. When every row's offsets can be sliced, as ordered offsets in bounds always can, it panics exactly
  when some readable rows at the window's start have more different values than the index type has codes
  (`PanicsExactlyWhenOverfull`). `ConvertEndsExactlyWhen` gives the condition for success, error and panic on any
  window, `NarrowDictionariesPanic` an instance for the 8-bit and 16-bit types, and `OtherEnds` a window that
  panics for its offsets and one that fails before its dictionary could overflow.
- The printer that divides loses the sign of a negative value above minus one: minus a half prints as `0.5`.
  `DividedDenotesExactlyWhen` proves that this band is the only failure. Outside it the two printers' texts are the
  same but for zero at a negative scale, which the other printer writes with zeros after it
  (`PrintersPrintAlikeExactlyWhen`).
- Clearing a null through a window does nothing (`clear_null_at`): the row is present afterwards exactly when
  the handle is no window or the row was present already (`ClearNullAt`, with `WindowKeepsNull` as an instance).
  `PyArray::set` is right all the same, because its write has replaced the window by then.
- Converting a string window and converting a copy of it do not always end alike. `CopyDiffersExactlyWhen` says
  when not: the window is out of bounds, an error where the copy panics; or it can be copied and fails at a row
  that ends past the window's last offset, where the copy panics; or it cannot be copied, yet is empty or fails.
  Ordered offsets in bounds exclude all of these. `CopyFailsOtherwise` gives two instances. Where the copy gives
  an array the window gives the same one, and so does every window of at least one row the other way round.

## Model

| member | source | states |
|---|---|---|
| `Words.BitFromLe` | src/structs/bitmask.rs:439-452 | bit k of a word read from little-endian bytes is bit k % 8 of byte k / 8 |
| `Words.ToLeFromLe` | src/structs/bitmask.rs:439-452 | a word written as bytes and read back is the same word |
| `Words.BitIs` | src/structs/bitmask.rs:439-452 | bit k of a word is the parity of the word over two to the k |
| `Words.ShiftDivides` | src/structs/bitmask.rs:948-993 | shifting right divides by a power of two and truncating takes the remainder |
| `Buffers.Buffer.AdjacentWindow` | src/structs/buffer.rs:784-815 | two windows join exactly when they share an allocation and the second starts where the first ends; the joined window reads as the concatenation |
| `Buffers.Buffer.TruncateTo` | src/structs/buffer.rs:882-898 | the first n elements, shared or owned, and never longer than before |
| `Bitmasks.Bitmask.MaskTrailingBits` | src/structs/bitmask.rs:89-100 | the unused bits of the last byte are cleared, no bit inside the length changes |
| `Bitmasks.Bitmask.NewSetAll` | src/structs/bitmask.rs:169-180 | every bit has the given value and the mask is valid and compact |
| `Bitmasks.Bitmask.Set` | src/structs/bitmask.rs:403-413 | writes one bit, growing the mask when the index is past its end; every other bit stays |
| `Bitmasks.Bitmask.EnsureCapacity` | src/structs/bitmask.rs:454-463 | the length becomes the larger one, old bits stay, bytes past the buffer come in clear |
| `Bitmasks.Bitmask.Resize` | src/structs/bitmask.rs:681-701 | the exact bits after a resize, stored bytes past the length included; old bits inside the length are kept and the mask is compact |
| `Bitmasks.ResizeKeepsPromiseWhen` | src/structs/bitmask.rs:672-701 | new bits all have the asked value exactly when the whole bytes stored past the length's own already hold it |
| `Bitmasks.ResizeLeavesSpareByte` | src/structs/bitmask.rs:672-701 | a three-bit mask over two bytes, resized to sixteen set bits, keeps a cleared bit |
| `Bitmasks.ShiftDown` | src/structs/bitmask.rs:109-165 | the in-place byte loop moves every bit behind a gap down over it, though its writes trail its reads in the same bytes |
| `Bitmasks.Bitmask.DeleteRange` | src/structs/bitmask.rs:109-165 | the bits before the range followed by the bits after it, by whole bytes, truncation or shifting |
| `Bitmasks.SliceBytes` | src/structs/bitmask.rs:948-993 | the word loop and byte tail of a slice give each byte funnelled from its two neighbours |
| `Bitmasks.Bitmask.SliceClone` | src/structs/bitmask.rs:948-993 | a fresh mask with exactly the bits of the range, for aligned and unaligned offsets |
| `Bitmasks.SpillBytes` | src/structs/bitmask.rs:832-892 | the spill loop over words and bytes writes each shifted byte with the bits carried from the one before, and touches no byte around them |
| `Bitmasks.Bitmask.ExtendFromSlice` | src/structs/bitmask.rs:832-892 | appends the first n packed bits to any bit length |
| `Bitmasks.Bitmask.ExtendFromBitmaskRange` | src/structs/bitmask.rs:798-824 | appends the bits stored for another mask's range, clear past its last byte; inside that mask's length these are its bits |
| `Bitmasks.Bitmask.ExtendFromBitmask` | src/structs/bitmask.rs:784-793 | the concatenation of both masks |
| `Bitmasks.Bitmask.Union` | src/structs/bitmask.rs:1028-1036 | or-ing the stored bytes as far as both reach gives the bits set in either mask |
| `Bitmasks.Bitmask.CountOnes` | src/structs/bitmask.rs:626-659 | the counts of the whole bytes and of the masked last byte add up to the set bits inside the length |
| `Bitmasks.Bitmask.SplitOff` | src/structs/bitmask.rs:711-770 | cuts the bits in two at any position, by bytes or bit by bit, and keeps compactness |
| `Bitmasks.Bitmask.AdjacentWindow` | src/structs/bitmask.rs:925-939 | joins without copying exactly when the buffers adjoin and the first mask ends on a byte with no byte to spare; the result reads as the concatenation |
| `SimdMasks.WordsNumberBitsAsBytes` | src/structs/bitmask.rs:439-452 | numbering bits by words and by bytes agrees |
| `SimdMasks.SimdMaskLane` | src/utils.rs:225-254 | a lane is true exactly when its index is below the limit, its word exists and its bit is set, across a word boundary as well |
| `SimdMasks.SimdMaskReadsMask` | src/utils.rs:225-254 | with the limit inside the mask, lane i is bit offset + i below the limit |
| `SimdMasks.WriteSimdMaskBits` | src/utils.rs:259-285 | exactly the bits from offset on take the lanes' values; every other bit of every word stays |
| `SimdMasks.WriteThenRead` | src/utils.rs:225-285 | lanes written and read at the same offset come back, and no other bit changes |
| `MaskedArrays.MaskedArray.constructor` | src/utils.rs:40-54 | an array whose mask is as long as its data is valid |
| `MaskedArrays.MaskedArray.Get` | src/macros.rs:272-277 | the row at an index, and nothing past the end |
| `MaskedArrays.MaskedArray.Push` | src/macros.rs:136-142 | appends one present row |
| `MaskedArrays.MaskedArray.PushNull` | src/traits/masked_array.rs:200-211 | appends one null row, with a new mask when there was none |
| `MaskedArrays.MaskedArray.Set` | src/macros.rs:294-304 | replaces one row by a present one |
| `MaskedArrays.MaskedArray.SetNull` | src/traits/masked_array.rs:243-255 | replaces one row by a null; past the end the mask alone grows, its old bits kept, and no longer fits the data |
| `MaskedArrays.MaskedArray.DeleteRange` | src/macros.rs:127-132 | removes exactly the rows of the range, values and mask bits together |
| `MaskedArrays.MaskedArray.SliceClone` | src/macros.rs:176-191 | a fresh array of the range's rows |
| `MaskedArrays.MaskedArray.AppendArray` | src/macros.rs:324-364 | the concatenation of both arrays' rows, with either, both or neither mask; adjoining windows are joined without copying |
| `MaskedArrays.MaskedArray.AdjacentWindow` | src/macros.rs:366-379 | joins without copying exactly when both buffers adjoin and both masks, if any, do; the result is the one window over both and reads as the concatenation |
| `MaskedArrays.MaskedArray.AppendRange` | src/macros.rs:381-407 | fails exactly out of bounds; otherwise appends exactly the range's rows if and only if no spare mask byte in reach holds a cleared bit |
| `MaskedArrays.ResizedRows` | src/macros.rs:395-399 | the one mask combination in which the rows appended can go wrong, with its exact condition |
| `MaskedArrays.InsertValues` | src/macros.rs:412-440 | the backwards shift in place and the copy put the new values in the gap and lose no old one |
| `MaskedArrays.InsertBits` | src/macros.rs:441-505 | the same for mask bits, from another mask or as set bits |
| `MaskedArrays.MaskedArray.InsertRows` | src/macros.rs:412-510 | rows before the index, the other array's rows, rows after, in all four mask combinations; an index past the end is an error that changes nothing |
| `MaskedArrays.MaskedArray.Split` | src/macros.rs:513-557 | both halves' rows; fails exactly at the ends, and panics exactly on a shared buffer it has to cut |
| `MaskedArrays.MaskedArray.NullCount` | src/traits/masked_array.rs:182-187 | the number of null rows |
| `EditLaws.SplitThenAppend` | src/macros.rs:513-557 | whenever the split ends well, appending the second half to the first restores the array |
| `EditLaws.InsertThenDelete` | src/macros.rs:412-510 | deleting the rows just inserted restores the array |
| `EditLaws.InsertAtEndIsAppend` | src/macros.rs:324-510 | inserting at the end is appending |
| `EditLaws.AppendRangeIsAppendOfSlice` | src/macros.rs:381-407 | appending a range and appending a copy of it agree exactly when the spare mask bytes in reach are set |
| `EditLaws.AppendRangeAddsNull` | src/macros.rs:395-399 | six rows, none of them null, appended to three over a two-byte mask leave a null ninth row |
| `Consolidation.ConsolidateColumn` | benches/consolidate.rs:125-128 | folding appends over the batches gives their rows one after another, whichever steps join |
| `Consolidation.ConsolidateTable` | benches/consolidate.rs:119-143 | the same for every column of the table, in new arrays that leave the batches as they were, with each column's null count |
| `AlignedChunks.UnionOpt` | src/structs/bitmask.rs:1018-1036 | the packed union of optional masks is the union of their bits; an absent mask leaves the other |
| `AlignedChunks.UnionArraySuperArrayMasks` | src/utils.rs:369-415 | there is a mask exactly when the array or any chunk has one; each of its bits is the array's united with that of the chunk holding the row, set where that has no mask; fails exactly when both exist and their lengths differ |
| `AlignedChunks.CreateAlignedChunks` | src/utils.rs:419-483 | fails exactly when the total lengths differ, otherwise the pieces have the chunks' lengths and spell out the values, the united mask and the rows; row by row, each piece reads the array at its chunk's place under the united bit |
| `AlignedChunks.CutChunks` | src/utils.rs:440-480 | once the lengths match the bounds error is never returned |
| `Utf8.CutAtBoundary` | src/conversions.rs:585-600 | text cut at a character boundary is valid on both sides |
| `Utf8.ValidSliceEndsOnBoundary` | src/conversions.rs:585-600 | a valid slice that starts on a boundary ends on one |
| `Utf8.ValidExactlyWhenEncoded` | src/conversions.rs:594-614 | bytes are text exactly when they are the encoding of some Unicode scalar values |
| `Categoricals.FastRowIsSlowRow` | src/conversions.rs:585-622 | with the fast path or without it each row comes out the same, errors and panics included, for any offsets in the address space |
| `Categoricals.ReadableTakesFastPath` | src/conversions.rs:585-622 | when every row is valid text, every row is read from the window validated once |
| `Categoricals.ReadableExactlyWhen` | src/conversions.rs:585-622 | with ordered offsets in bounds, all rows are valid exactly when the window is valid text and each row starts on a boundary |
| `Categoricals.ConvertOutcome` | src/conversions.rs:572-650 | readable rows give their dictionary encoding if the different values fit the codes and a panic if they do not; other rows never give an array |
| `Categoricals.ConvertEndsExactlyWhen` | src/conversions.rs:572-650 | for any window, exactly when it gives an array, when it panics, from the dictionary or from slicing a row, and when it returns an error: whatever comes first |
| `Categoricals.PanicsExactlyWhenOverfull` | src/conversions.rs:621-634 | when every row can be sliced, it panics exactly when some readable rows at the start have more different values than there are codes |
| `Categoricals.OrderedRowsSlice` | src/conversions.rs:604-620 | the rows of a window can all be sliced exactly when its offsets are ordered and in bounds |
| `Categoricals.OtherEnds` | src/conversions.rs:604-634 | a window that panics with no dictionary overflow, and one that fails with more values than codes |
| `Categoricals.StringToCat` | src/conversions.rs:553-655 | for every hash function and table size: an array exactly when the window's rows are text and fit the codes, each code naming its row's text, codes given out at first appearance, the dictionary without repeats, the mask the window's; an index error exactly out of bounds, a type error exactly at a row that is sliced but no text after rows that fit, a panic otherwise |
| `Categoricals.StringToCatSeeded` | src/conversions.rs:482-550 | so for every seed of the dictionary hasher |
| `Dictionaries.EncodeDecodes` | src/conversions.rs:600-640 | every code is below the dictionary's length and decodes to its row |
| `Dictionaries.EncodeDistinct` | src/conversions.rs:600-640 | the dictionary repeats nothing and holds exactly the rows' values |
| `Dictionaries.EncodeOrder` | src/conversions.rs:600-640 | of two dictionary values the one with the smaller code appeared first |
| `Dictionaries.EncodeUses` | src/conversions.rs:600-640 | every code is used, and before its first use come only smaller codes |
| `Dictionaries.EncodeSize` | src/conversions.rs:600-640 | the dictionary has as many entries as the rows have different values |
| `DictKeys.KeyStreamInjective` | src/conversions.rs:517-550 | different keys mix different word streams, whatever their lengths |
| `DictKeys.HashKey` | src/conversions.rs:517-550 | the hasher fed with a string computes the fold over that stream |
| `DictKeys.MixBit` | src/conversions.rs:517-522 | a mixed bit is the exclusive or of the 128-bit product's two halves at that bit |
| `DictKeys.DictTable.Insert` | src/conversions.rs:621-640 | a bucket table over any hash function acts as a map |
| `CatToStrings.CatToString` | src/conversions.rs:676-716 | fails with overflow exactly when the decoded bytes outnumber the offset type's maximum; otherwise row for row the dictionary entries, empty past the dictionary, between offsets from zero to the byte length, under the same mask |
| `CatToStrings.StringsOfShape` | src/conversions.rs:676-716 | offsets start at zero, end at the byte length, and bound each row's bytes |
| `CatToStrings.StringCatString` | src/conversions.rs:553-716 | strings converted to categories decode to the same rows under the same mask, and without overflow |
| `CatToStrings.ThereAndBack` | src/conversions.rs:553-716 | both conversions run one after the other give the window's rows and mask with offsets counted from zero, and end otherwise exactly as the first one does or by overflow |
| `CatToStrings.CatStringCat` | src/conversions.rs:553-716 | decoded rows encode again to their dictionary encoding in order of first appearance |
| `CatToStrings.NarrowDictionariesPanic` | src/conversions.rs:621-634 | the 8-bit and 16-bit dictionaries overflow, and panic, on an array of one row more than they have codes |
| `CatToStrings.DictionaryPanics` | src/conversions.rs:621-634 | a dictionary of any size overflows on some readable rows |
| `CatToStrings.SliceClone` | src/structs/variants/string.rs:715-737 | copies exactly when the window's bytes are in bounds and no offset lies before its first, and panics otherwise; the copy has the window's bytes, its offsets less the first, and its mask |
| `CatToStrings.CopyDiffersExactlyWhen` | src/structs/variants/string.rs:715-737 | for any window, exactly when converting it and converting a copy of it end differently, the copy's own panics included |
| `CatToStrings.CopyableDiffersExactlyWhen` | src/structs/variants/string.rs:715-737 | a window that can be copied ends differently exactly when it fails at a row that ends past its last offset |
| `CatToStrings.UncopyableEnds` | src/structs/variants/string.rs:718-729 | a window that cannot be copied converts without a panic exactly when it is empty or fails |
| `CatToStrings.WindowConvertsAsItsCopy` | src/structs/variants/string.rs:715-737 | with ordered offsets in bounds the copy can be made and both end alike: in the same array, error or panic |
| `CatToStrings.CopyConvertsAlike` | src/structs/variants/string.rs:715-737 | the same for unordered offsets, as long as the copy can be made and none lies past the window's last |
| `CatToStrings.CopySucceedsAlike` | src/structs/variants/string.rs:715-737 | the copy gives an array exactly when the window does and can be copied, and the same one; a window of at least one row that gives an array can be copied |
| `CatToStrings.CopyFailsOtherwise` | src/structs/variants/string.rs:715-737 | a window that fails and an empty one that succeeds where their copies panic |
| `CatToStrings.CatNarrow` | src/conversions.rs:797-821 | fails exactly when a code exceeds the narrower type, otherwise nothing changes |
| `CatToStrings.WidenKeepsRows` | src/conversions.rs:777-794 | the cast to a type at least as wide keeps every code, and so the rows |
| `CatToStrings.CatCast` | src/conversions.rs:777-794 | the cast leaves each code's remainder by two to the width, and the dictionary and mask as they are |
| `CatToStrings.CastKeepsExactlyWhen` | src/conversions.rs:777-821 | the cast to any width keeps the codes exactly when they all fit |
| `CatToStrings.CategoricalFromCodes` | minarrow-py/src/convert.rs:465-527 | fails, with a type error, exactly on a code out of range or too many categories; otherwise a row is null exactly where the code was none, and reads its category elsewhere |
| `Columns.Col.SetNullBit` | minarrow-py/src/array.rs:361-369 | one row becomes null, or shows the value below it; a mask of set bits is made when there is none |
| `Columns.Col.NullBools` | minarrow-py/src/array.rs:372-378 | true exactly at the null rows |
| `Columns.Col.NullCount` | src/traits/masked_array.rs:182-187 | the number of null rows |
| `MaskedArrays.NullCountCounts` | src/structs/field_array.rs:333-340 | the count of cleared bits is the number of null rows |
| `Handles.Store.MakeMutOuter` | minarrow-py/src/array.rs:279-290 | afterwards no other handle holds the outer cell, and every handle reads as before; the cell is kept exactly when no other handle held it |
| `Handles.Store.MakeMutTyped` | src/macros.rs:968-1020 | afterwards no other cell holds the typed array, and every handle reads as before; the array is kept exactly when no other cell held it |
| `Handles.Store.ToArray` | src/structs/views/array_view.rs:810-815 | a window's rows as an array, sharing when the window covers everything and copying otherwise |
| `Handles.Store.EditArray` | minarrow-py/src/array.rs:279-348 | the handle edited reads as the plain edit of its column, every other handle reads as before, cached null counts stay right, and an unsupported value changes nothing |
| `Handles.Store.NullCount` | minarrow-py/src/array.rs:174-180 | the count a handle gives, cached or not, is the number of null rows it reads |
| `Handles.Store.SetItem` | minarrow-py/src/array.rs:645-657 | negative indices, nulls and values, each an update of one row of one handle; errors change nothing |
| `Handles.Store.Window` | src/structs/views/array_view.rs:795-803 | a window of a window reads as the slice of the slice |
| `Handles.Store.Drop` | minarrow-py/src/array.rs:279-348 | freeing what nothing holds changes no other handle's reading |
| `Handles.Store.Run` | minarrow-py/src/array.rs:279-369 | every run of any operations reads as if each handle owned its column alone |
| `Handles.Store.RunIsolated` | minarrow-py/src/array.rs:279-369 | after a whole run of the store, what a handle reads depends only on the edits made through it, whatever was shared, cut, edited or dropped elsewhere |
| `Handles.Store.ClearNullAt` | minarrow-py/src/array.rs:339-347 | the row is present afterwards exactly when the handle is no window or the row was present already; no other handle changes |
| `Handles.WindowKeepsNull` | minarrow-py/src/array.rs:339-347 | a null cleared through a window is still there |
| `Handles.ItemSet` | minarrow-py/src/array.rs:645-657 | the row update of a set, by resolved index |
| `Handles.ResolveIndex` | minarrow-py/src/convert.rs:556-565 | indices from minus the length up to the length resolve to a row, all others fail |
| `SimdSums.SimdSumUnrolled` | benches/hotloop_benchmark_avg_simd.rs:53-109 | four lane accumulators with both tails give the sequential wrapping sum, for every length and lane count |
| `SimdSums.SimdSum` | benches/benchmark_parallel_simd.rs:44-59 | the single-accumulator lane sum gives it too |
| `SimdSums.ChunksCut` | benches/benchmark_parallel_simd.rs:81-88 | the chunks are the data in order, all of the chunk size but the last, none empty |
| `SimdSums.ParallelSumIsSequential` | benches/benchmark_parallel_simd.rs:81-88 | chunk sums of any chunk size, added in any order and grouping, give the sequential sum |
| `Decimals.FormatReadsBack` | src/enums/scalar.rs:44-71 | the text reads as the raw integer with exactly scale digits after the point, or with minus-scale zeros appended |
| `Decimals.FormatIs` | src/enums/scalar.rs:44-71 | with a point the text is the sign, the digits of the whole part without leading zeros, and exactly scale digits of the rest |
| `Decimals.FormatDenotes` | minarrow-py/src/convert.rs:581-608 | the printer's copy in the Python crate, the same function, denotes raw times ten to the minus scale |
| `Decimals.FormatInjective` | src/enums/scalar.rs:44-71 | at one scale different values print differently |
| `Decimals.I128Bounds` | minarrow-py/src/pyliquid.rs:340-356 | a power of ten fits a signed 128-bit integer exactly up to the 38th |
| `Decimals.DividesExactlyWhen` | minarrow-py/src/pyliquid.rs:340-356 | the dividing printer prints exactly when scale is at most 38, or minus scale is and the product fits |
| `Decimals.DividedReadsBack` | minarrow-py/src/pyliquid.rs:340-356 | what the dividing printer's text reads as, for every value that does not overflow |
| `Decimals.DividedDenotesExactlyWhen` | minarrow-py/src/pyliquid.rs:340-356 | it denotes the value given exactly outside the band of negative values above minus one |
| `Decimals.PrintersAgreeExactlyWhen` | minarrow-py/src/pyliquid.rs:340-356 | the two printers' texts read alike exactly outside that band |
| `Decimals.PrintersPrintAlikeExactlyWhen` | minarrow-py/src/pyliquid.rs:340-356 | their texts are the same exactly outside that band and but for zero at a negative scale |
| `Decimals.DividedLosesSign` | minarrow-py/src/pyliquid.rs:340-356 | minus five at scale one prints as 0.5 |
| `Floats.SameValue` | src/enums/scalar.rs:1876-1879 | sign, exponent and fraction fields give one value exactly when they agree, or both spell NaN, or both spell zero |
| `Floats.MagnitudeSteps` | src/enums/scalar.rs:1876-1879 | each significand is worth one step more than the one before, across exponents too |
| `Scalars.EqExactlyWhen` | src/enums/scalar.rs:1857-1900 | two scalars are equal exactly when they are floats of one width with one value, NaN counting as a value, or the same scalar |
| `Scalars.EqIsEquivalence` | src/enums/scalar.rs:1857-1900 | equality is reflexive, symmetric and transitive, NaN and both zeros included |
| `Scalars.HashMeetsEq` | src/enums/scalar.rs:1902-1952 | two scalars feed a hasher the same bytes exactly when they are equal |
| `Scalars.StreamDelimits` | src/enums/scalar.rs:1902-1952 | no scalar's bytes are the start of an unequal scalar's |
| `Scalars.KeysHashMeetsEq` | src/enums/scalar.rs:1902-1952 | keys of any number of scalars run together still feed the same bytes exactly when they are equal one by one |
| `ScalarStreams.StreamReadsBack` | src/enums/scalar.rs:1902-1952 | the bytes fed to a hasher read back, variant, widths, signs and text, as the scalar or an equal float |
| `ScalarStreams.FoldedSpelling` | src/enums/scalar.rs:1924-1933 | every NaN is fed as the positive quiet one and each zero as the positive one |

## Left out

- AppendRange: states the concatenation under the condition on spare mask bytes, because without it the source does not append the range's rows.
- Resize: states the bits the source produces rather than the fill its documentation promises, which fails with spare bytes.
- InsertRows: takes the default value that fills the resized buffer as a parameter, because the element type is abstract.
- CreateAlignedChunks: excludes an empty array against no chunks, because building a chunked array from none panics.
- CopyOf: subtracts offsets with overflow checks; without them 64-bit offsets wrap round instead of panicking.
- StringToCat: stops at the panic of a full dictionary as an outcome of its own; unwinding is not modelled.
- FormatDecimal: requires a scale above -128, whose negation overflows eight bits.
- EditArray: stores columns as values, so the in-place writes inside one typed array are those of the nullable array module.
- ConsolidateTable: columns of different types take a sum type as the element type; the names and field descriptions copied along are not modelled.
- ExtendFromBitmaskRange: requires enough stored bytes, because the source panics on fewer; it reads past the other mask's length as the source does.
- Union: requires masks of one length, because the source panics on others.
- HashStream: every optional variant is present, the platform is 64-bit and little-endian, and strings are UTF-8.
- Boolean, string and categorical arrays under the edits: the nullable array is modelled for buffers of fixed-width elements.
- Masks made longer than their data, and the resizing and extending calls that leave the mask short, which break the length invariant.
- Buffers over memory-mapped, foreign or raw pointers, atomic masks, capacities, alignment, and the address computations behind windows.
- Overflow of an offset plus a length in machine words, except in the string row reader, where it decides the result.
- Masks built over bytes whose unused bits are set, which the library itself requires to be clear.
- Unchecked methods, parallel iterators, and floating-point reductions and casts.
- The standard hash map: a bucket table over an arbitrary hash function stands for it.
- Error texts, Python objects, foreign interfaces, dtype tables, date parsing and printing of other values.
- Bit-vectors: words are bounded naturals, so that bit facts follow by induction.

# PyFITS record codec, modelled in Dafny

This project models the record codec of PyFITS, `lib/fitsrec.py`. The codec sits between a FITS table's raw record buffer and the logical column values a program reads and writes. It covers the table extensions of the FITS Standard, version 4.0: section 7.2 (ASCII tables), section 7.3 (binary tables) and section 7.3.5 (variable-length arrays in the heap).

The codec has two classes:

- `FITS_rec`, the table. It owns a per-column conversion cache `_convert` and views rows of a raw buffer. Slices of the table share that buffer.
- `FITS_record`, one row of a table seen through a column window `[start, end)`.

The model has three layers.

- **Pure rules.** These are datatypes, functions and lemmas:
  - `Cells`: cell values, Python indexing and slicing, and the logical `'T'`/`'F'` codec.
  - `Columns`: the column definitions the codec reads, and the primitives of `pyfits.column` it calls.
  - `Records`: the window arithmetic of `FITS_record`.
  - `Decoding`: `_get_scale_factors` and what `field` decodes and caches.
  - `Encoding`: the variable-length descriptor layout and the ASCII text layout of `_scale_back`.
- **`TableModel`.** This is `FITS_rec` as a state machine over values. A `State` holds:
  - the cache;
  - the raw storage of every column;
  - the list `_coldefs.starts`;
  - `_heapsize`.

  Every operation is a function from a state to its result and the state it leaves. An error produces the state as it stood where the error was raised. The lemmas about these functions state what the source promises:
  - caching;
  - row and slice assignment;
  - what slicing materialises;
  - the heap layout;
  - the boolean round trip;
  - what `_scale_back` leaves alone.
- **`Table`.** This is `FITS_rec` as a class over an `array2<Cell>` raw buffer, with a row offset `base`, and an `array<Option<seq<Cell>>>` cache. `FITS_record` is a datatype that holds the table and a `Window`. Every method that models a source operation ensures two things: its result equals the matching `TableModel` step's result, and its new abstract state `Abs()` equals the state that step computes. Four buffer helpers that `_scale_back` is built from are specified against the raw storage instead:
  - `PutRaw` and `WriteColumn` ensure the new `Storage()`: one cell, or one whole column, replaced;
  - `WriteDescriptors` ensures that column k of `Storage()` becomes `Encoding.Layout` of the row lengths, that `heapsize` becomes `Encoding.HeapAfter`, and that `starts` is unchanged;
  - `AsciiWriteRows` ensures that its error and the new column k are those `Encoding.AsciiWrite` computes from the old column.

  `ReadVarLen` changes nothing, and it returns the column that `Decoding.DecodeVarLen` computes from the raw descriptors.

  Methods that write the buffer also ensure `OnlyOwnRows()`: buffer rows outside the table's own rows are unchanged. A slice built by `GetSlice` shares the buffer and gets a fresh cache.

Some quirks of the code are kept as written:

- In `_scale_back`, `_loc` is the same list object as `_coldefs.starts` (lib/fitsrec.py:424). As a result:
  - the leading gap `starts[indx] - _loc[indx]` is always 0;
  - every call appends one more entry to `starts`.
- Both overlap checks build their message with `'...' % indx + 1`, which raises before the intended `ValueError`. The model records them only as the failure `OverlapFailure`.
- For `D` formats, the result of `.replace('E', 'D')` is discarded, so the raw text keeps its `E` exponents.
- Slicing calls `field(idx)` on every column before it copies the cache. Every column that `field` caches is therefore materialised in the parent, and so in the child, before the child exists.
- `FITS_record` does not clamp window bounds to `[0, nfields]`:
  - a start above `nfields` becomes `nfields + 1`, and no lower clamp exists;
  - `__len__()` can return a negative number, and then Python's `len(record)` raises ValueError;
  - `__getslice__(i, j)` takes absolute column bounds. So `view[0:1]` on a view that starts at column 1 covers column 0.
- A record position is checked only against the window's end. A negative position reaches `field` unrejected.

## Model

| member | source | states |
|---|---|---|
| Cells.At | lib/fitsrec.py:96 | Reading `col[i]` succeeds exactly for `-len <= i < len`. It gives `col[i]`, or `col[len + i]` for a negative `i`. |
| Cells.Put | lib/fitsrec.py:110 | Writing `col[i] = v` succeeds exactly for `-len <= i < len`. The new column has the same length and differs only at that cell. |
| Cells.SliceBounds | lib/fitsrec.py:240-257 | Python's `x[i:j]` row range over n rows. A negative bound counts from the end (`i + n`), then each bound is clamped to `[0, n]`, and an end below the start becomes the start. So `lo <= hi <= n`, and in-range bounds are kept as given. |
| Cells.DecodeBool | lib/fitsrec.py:410 | `raw == ord('T')`: one flag per raw byte, true exactly where the byte is `'T'`. |
| Cells.EncodeBool | lib/fitsrec.py:516-520 | `where(col, ord('T'), ord('F'))`: one byte per cell, `'T'` exactly where the cell is truthy and `'F'` exactly where it is not. |
| Cells.EncodeBoolWritesTF | lib/fitsrec.py:516-520 | Encoding a logical column writes `'T'` exactly for true values and `'F'` for all others, one byte per row. |
| Cells.BoolRoundTrip | lib/fitsrec.py:516-520 | For a column of flags, decoding (`raw == ord('T')`) after encoding gives the column back. |
| Cells.DecodeThenEncode | lib/fitsrec.py:410 | Encoding after decoding keeps every `'T'` byte and turns every other raw byte into `'F'`. |
| Cells.DecodeBoolIsLogical | lib/fitsrec.py:410 | Decoding yields flags only, so a second encode/decode round trip changes nothing. |
| Cells.Strip | lib/fitsrec.py:389 | `s.strip()` is a contiguous piece `s[a..b]` of `s` with only white space before `a` and after `b`. It neither starts nor ends with white space. |
| Cells.TrimmedBothEnds | lib/fitsrec.py:389 | Cutting a leading run of white space, then a trailing one, leaves such a piece. |
| Cells.Replace | lib/fitsrec.py:390 | `s.replace(a, b)` keeps the length. Every `a` becomes `b`, every other character is kept, and no `a` is left. |
| Cells.Spaces | lib/fitsrec.py:487-488 | `' ' * n` is `max(n, 0)` spaces. |
| Columns.IndexOf | lib/fitsrec.py:86 | The lookup of a name gives its first position in the name list, or None exactly when the name is absent. |
| Columns.GetIndex | lib/fitsrec.py:86 | `_get_index` on a name succeeds exactly when the name is listed. It then gives a position holding that name; otherwise it fails with KeyError. |
| Columns.GetIndexOfOwnName | lib/fitsrec.py:277 | With distinct names, looking up the name of column k finds column k. |
| Records.NewWindow | lib/fitsrec.py:43-53 | `start` is `s` when `s <= nfields`, else `nfields + 1`. `end` is `e` when `0 < e <= nfields`, else `nfields`. The row is kept. |
| Records.Len | lib/fitsrec.py:112-113 | `__len__()` is at most the column count and at most `end - start`, and equals one of them. It is negative when the start lies past the end. |
| Records.SubWindow | lib/fitsrec.py:115-116 | `__getslice__(i, j)` keeps the row. Its start is `i` when `i <= nfields`, else `nfields + 1`. Its end is `j` when `0 < j <= nfields`, else `nfields`. The old window's bounds play no part. |
| Records.SubWindowIgnoresWindow | lib/fitsrec.py:115-116 | Two records of the same row give the same `__getslice__(i, j)`, whatever their own windows. |
| Records.Resolve | lib/fitsrec.py:84-110 | A name resolves exactly when it is listed and its index lies in `[start, end)`. It fails with NameNotFound or NameOutOfWindow otherwise. A position `p` resolves to `p + start` exactly when that is below `end`, and fails with PositionOutOfWindow otherwise. |
| Records.RowWindow | lib/fitsrec.py:267-272 | An integer key gives a whole-row window exactly when `key < len`, with length `nfields`. It fails with IndexError otherwise. |
| Records.PositionResolvesIffBelowLen | lib/fitsrec.py:84-113 | For a non-negative start and position `k >= 0`, `k` resolves exactly when `k < __len__()`. |
| Records.ResolvedIndexInWindow | lib/fitsrec.py:84-110 | Any key that resolves in a window with a non-negative start names a column inside the window and the table. |
| Records.NegativePositionPassesCheck | lib/fitsrec.py:91-94 | Position -1 in a window starting at 0 resolves to index -1. No lower bound is checked. |
| Records.StartPastEndGivesNegativeLen | lib/fitsrec.py:112-113 | A start past `nfields` makes `__len__()` negative (-1 with an open end), and no position resolves. |
| Records.SubWindowIsAbsolute | lib/fitsrec.py:84-116 | Sub-window bounds are absolute, for every `i`, `j` and position `k`. With `i <= nfields`, position `k` of `view[i:j]` resolves exactly when `i + k` is below the clamped `j`, and then names column `i + k`, whatever the view's own start. With `i > nfields`, no position `k >= 0` resolves. |
| Records.WindowExample | lib/fitsrec.py:84-116 | On 5 columns, the window `[1, 3)` rejects position 2 and maps position 1 to column 2. Its sub-window `(0, 1)` covers column 0 alone. |
| Records.WindowColumns | lib/fitsrec.py:75-77 | Every column `__str__` visits among the first m lies in the window and below m. |
| Records.WindowColumnsCount | lib/fitsrec.py:76-77 | The columns `__str__` visits are `start, start + 1, ...`, and there are as many as the window allows among the first m. |
| Records.StrCoversLen | lib/fitsrec.py:70-79 | `__str__` visits exactly `__len__()` columns (none when that is negative), the window's columns in order. |
| Decoding.GetScaleFactors | lib/fitsrec.py:298-322 | `_number` holds exactly when neither `_bool` nor `_str` does, and `_bool` is false for ASCII tables. `_str` and `_bool` follow the format tests; `_scale` and `_zero` say the factor is given and not the identity. An absent factor is returned as 1 or 0. An empty ASCII format is IndexError. |
| Decoding.IdentityFactorsAreAbsent | lib/fitsrec.py:314-320 | A factor given as exactly 1 (scale) or 0 (zero) classifies the column like an empty or missing one. |
| Decoding.AsciiNumType | lib/fitsrec.py:384-386 | `_fmap[fmt[0]]` exists exactly for I, F, E and D: I gives int32, D gives float64. |
| Decoding.ParseAscii | lib/fitsrec.py:388-393 | ASCII parsing succeeds exactly when every prepared cell text parses. Cell i is then the parse of its text after the `D`-to-`E` rewrite and the TNULL substitution. |
| Decoding.NullCellParsesAsNull | lib/fitsrec.py:388-392 | A cell whose stripped text equals the stripped TNULL is parsed from the text of ASCIITNULL. |
| Decoding.PrepareAscii | lib/fitsrec.py:389-391 | A cell's text after `.replace('D', 'E')` holds no `D`. It becomes the text of ASCIITNULL exactly when its stripped form equals TNULL, and otherwise stays the rewritten text. |
| Decoding.NullTextWithDNeverMatches | lib/fitsrec.py:389-391 | A TNULL holding `D` is never matched, because the rewrite runs first. |
| Decoding.DecodeVarLen | lib/fitsrec.py:347-377 | One decoded row per descriptor, and equal descriptors decode alike. Without scaling, row i is the heap read at the descriptor's count and offset plus the heap offset. A logical column decodes to flags. |
| Decoding.VarLenRow | lib/fitsrec.py:347-377 | One variable-length row: the heap read at the descriptor's count and offset plus the heap offset; then `data*bscale+bzero` when a factor is given; then flags for a logical column. |
| Decoding.VarLenTrustsDescriptors | lib/fitsrec.py:347-364 | Row i of a variable-length column is the heap read at its stored count and offset plus the heap offset. Equal descriptors decode alike. |
| Decoding.RawPolicy | lib/fitsrec.py:379-412 | When `field` hands the raw column out uncached: only for fixed formats; in an ASCII table exactly for string columns; never for a logical or a scaled numeric non-string column. |
| Decoding.DecodeField | lib/fitsrec.py:331-414 | An uncached result is the raw column itself. Otherwise the result is cached exactly when the column is not handed out raw (a string, or a binary column that is neither scaled-numeric nor logical). Failures are format or number errors only. The value, per kind: a bit column is `_unwrapx` of the raw bytes; a variable-length column is `DecodeVarLen` of its descriptors; a string column is the raw column; an ASCII number column succeeds exactly when its format has a parse type and every prepared cell parses, and is then the parsed column, scaled when it has a factor; a binary number column with a factor is the scaled raw column; a binary logical column is `raw == ord('T')`. A bad format is the error `_get_scale_factors` raised. |
| Decoding.LogicalColumnDecode | lib/fitsrec.py:409-410 | A binary logical column decodes to `raw == ord('T')`, cached. |
| Decoding.StringColumnsStayRaw | lib/fitsrec.py:379-380 | A string column, in either table type, is handed out raw and not cached. |
| Decoding.AsciiNumbersAreCached | lib/fitsrec.py:383-395 | Every non-string column of an ASCII table that decodes is cached. |
| Encoding.Counts | lib/fitsrec.py:446-448 | Descriptor counts are `len(row)` for the cached rows and 0 for the rows after them. It succeeds exactly when every row has a length and there are no more rows than storage. A scalar row is TypeError (checked first); otherwise more rows than storage is ValueError. |
| Encoding.Offset | lib/fitsrec.py:451-453 | Row i's heap offset: the old `_heapsize` for row 0, and never below it. |
| Encoding.HeapAfter | lib/fitsrec.py:454 | The new `_heapsize` is at least the old one, and it is the offset just past the last row. |
| Encoding.Layout | lib/fitsrec.py:448-453 | One descriptor per row: row i's count is `counts[i]` and its offset is `Offset(i)`. |
| Encoding.LayoutIsContiguous | lib/fitsrec.py:451-454 | Row 0 starts at the old `_heapsize`, and every row starts where the previous one ends. The last row ends at the new `_heapsize`, the old one plus `itemsize * sum(counts)`. |
| Encoding.LayoutRowsDisjoint | lib/fitsrec.py:451-454 | No two rows share heap bytes, and all lie between the old and the new `_heapsize`. |
| Encoding.LayoutExample | lib/fitsrec.py:446-454 | Rows of lengths 0, 3, 1 and 5 get offsets 0, 0, 3w and 4w, and a heap of 9w. |
| Encoding.AsciiTemplate | lib/fitsrec.py:421-488 | The template is `_pc + fmt[1:] + _fmap[fmt[0]]`, left-justified when the format holds `A`. Its last character is `s` for A, `d` for I, `f` for F and `E` for E and D. It succeeds exactly for a non-empty format starting with one of those, and fails with IndexError or KeyError otherwise. |
| Encoding.AsciiCell | lib/fitsrec.py:487-493 | `_fmt % dummy[i]`: the formatted value with `lead` spaces before it and `trail` spaces after it (none for a negative count). |
| Encoding.AsciiWrite | lib/fitsrec.py:492-500 | The ASCII row loop keeps the column's length. |
| Encoding.AsciiWriteStops | lib/fitsrec.py:492-500 | After the first failing row, nothing more is written. |
| Encoding.AsciiWriteMeaning | lib/fitsrec.py:492-500 | The loop succeeds exactly when every formatted value fits the span and has a row. Row i then holds value i's text; rows past the values are untouched. |
| Encoding.SpanCheckIsWidthCheck | lib/fitsrec.py:477-494 | With lead 0 and a non-negative trail, `len(x) > loc[k+1] - loc[k]` is the formatted value exceeding the column width. |
| TableModel.FieldIndex | lib/fitsrec.py:329 | A name resolves exactly when listed; an integer resolves exactly in `-n .. n-1`. The result names a column. |
| TableModel.FieldStep | lib/fitsrec.py:324-414 | A filled slot is returned unchanged and nothing changes. Otherwise a cached decode fills slot k, and a raw decode returns the storage with the state unchanged. Only slot k can change; storage, starts and heap size never do. A failure leaves the state unchanged. With an empty slot, the result is `DecodeField` of column k's raw storage. |
| TableModel.FieldKeyStep | lib/fitsrec.py:238-239 | `FITS_rec[name]` is `field(name)`. An unknown name fails with the state unchanged. |
| TableModel.FieldReadsTNullAsAsciiTNull | lib/fitsrec.py:387-395 | In an unscaled ASCII number column, `field(k)` turns a cell equal to TNULL (after the `D`-to-`E` rewrite and stripping) into the value of ASCIITNULL, and caches the column. |
| TableModel.FieldReadsVarLen | lib/fitsrec.py:343-376 | `field(k)` on a variable-length column with an empty slot returns the heap rows of `DecodeVarLen` and caches them in slot k. |
| TableModel.CacheShadowsStorage | lib/fitsrec.py:331-414 | Once slot k is filled, `field(k)` returns it whatever raw storage holds. |
| TableModel.RawColumnsStayUncached | lib/fitsrec.py:379-412 | A column handed out raw returns its storage and leaves its slot empty. |
| TableModel.FieldIsStable | lib/fitsrec.py:331-414 | A second `field(k)` returns the same column as the first and changes nothing. |
| TableModel.FieldIsLocal | lib/fitsrec.py:324-414 | `field(k)` depends only on slot k and raw column k. |
| TableModel.SetCellStep | lib/fitsrec.py:281 | A cell write changes nothing outside column k. A failed write leaves the state `field(k)` left. |
| TableModel.SetCellWrites | lib/fitsrec.py:281 | `field(k)[row] = v` succeeds exactly when the column decodes and the row is in range. It changes that one cell of column k's view and no other column's view. |
| TableModel.RecordGetStep | lib/fitsrec.py:84-96 | A key that does not resolve fails with the state unchanged. A successful get is `field(indx)[row]`. Storage is never changed. |
| TableModel.RecordSetStep | lib/fitsrec.py:98-110 | A key that does not resolve fails with the state unchanged. Otherwise the set is the cell write `field(indx)[row] = v`. |
| TableModel.RecordSetWritesResolvedColumn | lib/fitsrec.py:104-110 | Setting position p of a window opened at `s` writes column `s + p`. |
| TableModel.SetCells | lib/fitsrec.py:279-281 | Writing the first n items leaves columns n and later alone. |
| TableModel.SetCellsStop | lib/fitsrec.py:280-281 | After the first failing column, nothing more is written. |
| TableModel.CopyColumnStep | lib/fitsrec.py:277 | Copying a column from a record changes neither starts nor heap size. |
| TableModel.CopyColumnByPosition | lib/fitsrec.py:277 | With distinct names, copying column k by name from a whole-row record reads position k and writes column k. |
| TableModel.SetFromRecord | lib/fitsrec.py:275-277 | The record-copy loop changes neither starts nor heap size. |
| TableModel.SetFromRecordStops | lib/fitsrec.py:276-277 | After the first failing column, nothing more is copied. |
| TableModel.CopyColumnMeaning | lib/fitsrec.py:277 | With distinct names, copying column k succeeds exactly when it lies in the record's window, decodes, and both rows are in range. It then puts the record's cell in row `row` of column k. On failure it raises KeyError outside the window, the decode error, or IndexError, and column k's view is unchanged. No other column's view changes. |
| TableModel.SetFromRecordMeaning | lib/fitsrec.py:275-277 | With distinct names, copying columns 0 .. n-1 succeeds exactly when each is copyable. Column j then holds the record's cell, read before the loop, at row `row`; later columns are unchanged. |
| TableModel.CopiedFromSameView | lib/fitsrec.py:277 | Whether a column can be copied, its error and its copy depend only on its view. |
| TableModel.SetFromRecordFails | lib/fitsrec.py:275-277 | With distinct names, when column m is the first that cannot be copied, the loop raises its error there, with columns 0 .. m-1 copied and the rest unchanged. |
| TableModel.SetRowStep | lib/fitsrec.py:274-287 | A value that is no record, tuple or list is TypeError, and a tuple of the wrong length is ValueError. Both leave the state unchanged. |
| TableModel.SetFromRecordWrites | lib/fitsrec.py:267-277 | `table[row] = table[wrow]`, with distinct names and columns of one cell per row, succeeds. Row `row` of every column then holds that column's cell at `wrow`, and every other row is unchanged. |
| TableModel.SetFromRecordStopsAtWindowEnd | lib/fitsrec.py:275-277 | A record whose window ends at column `e` before the last raises KeyError at column `e`. Columns 0 .. e-1 are copied by then, and the rest are unchanged. |
| TableModel.SetFromOffsetRecordFails | lib/fitsrec.py:275-277 | A record whose window starts after column 0 raises KeyError at column 0, and nothing changes. |
| TableModel.SetCellsWrites | lib/fitsrec.py:279-281 | After writing items 0 .. n-1, column j's view holds `items[j]` at the row and is otherwise as before. Later columns are unchanged. |
| TableModel.RowWrittenStep | lib/fitsrec.py:280-281 | One more column written extends the row-written relation by that column. |
| TableModel.SetRowWrites | lib/fitsrec.py:278-281 | A tuple row assigned without error puts `value[idx]` in column idx at the row. Every other row of every column is unchanged. |
| TableModel.SetSliceRange | lib/fitsrec.py:290-293 | The rows `[s0, e0)` start at `max(0, start)`, lie in the table and below `end`, and are no more than the values. An in-range call assigns exactly `[start, start + len(value))`. A start past the end, or an end at or below 0, assigns nothing. A non-empty range ends at the table's end, at `end`, or after the last value. |
| TableModel.SetRows | lib/fitsrec.py:295-296 | The row loop changes neither starts nor heap size. |
| TableModel.SetRowsStop | lib/fitsrec.py:295-296 | After the first failing row, nothing more is assigned. |
| TableModel.SetSliceStep | lib/fitsrec.py:289-296 | An empty range assigns nothing and succeeds. |
| TableModel.SetRowsNext | lib/fitsrec.py:295-296 | One more row assigned extends the loop by that row. |
| TableModel.SetSliceRuns | lib/fitsrec.py:289-296 | A non-empty range is the row loop over `[s0, e0)` and reads only existing values. |
| TableModel.SetRowsWrites | lib/fitsrec.py:295-296 | After m tuple rows, row `s0 + i` of every column holds `value[i]` for `i < m`, and every other row is unchanged. |
| TableModel.SetSliceWrites | lib/fitsrec.py:289-296 | A successful slice assignment from tuples writes row i from `value[i - s0]` exactly for i in `[s0, e0)`. Every other row of every column is unchanged. |
| TableModel.FieldAll | lib/fitsrec.py:245-254 | Touching columns 0 .. n-1 never changes storage or a filled slot, and leaves slots n and later alone. |
| TableModel.FieldAllNext | lib/fitsrec.py:254 | One more `field(idx)` extends the touch loop by that column. |
| TableModel.FieldAllStops | lib/fitsrec.py:245-254 | After the first failing `field(idx)`, nothing more is touched. |
| TableModel.FieldAllMaterialises | lib/fitsrec.py:251-254 | After the touch loop succeeds, each column is cached or is one that `field` hands out raw. |
| TableModel.FieldStepMaterialises | lib/fitsrec.py:331-414 | After a successful `field(k)`, slot k is filled or column k is handed out raw. |
| TableModel.SliceCache | lib/fitsrec.py:255-257 | The child's slot k is filled exactly when the parent's is, with the parent's column sliced by the same bounds. |
| TableModel.SliceStep | lib/fitsrec.py:240-263 | Slicing leaves the parent in the state of the touch loop. It succeeds exactly when there is a column and the touch loop succeeds. With no columns, `del dummy` raises NameError. The child views rows `[lo, hi)` of the parent's storage, where `(lo, hi)` is Python's slice of the row range. Its cache is the parent's sliced, and it shares the starts. |
| TableModel.SliceMaterialisesParent | lib/fitsrec.py:251-257 | After slicing, every column not handed out raw is cached in the parent, and the child's slot k is filled exactly when the parent's is. |
| TableModel.ReprStep | lib/fitsrec.py:78 | `repr(field(k)[row])` leaves the state `field(k)` leaves. It succeeds exactly when column k decodes and the row is in range, and is then the repr of the view's cell at the row. Otherwise it is the decode error or IndexError. |
| TableModel.StrParts | lib/fitsrec.py:75-78 | There is one part per window column visited. Storage and the slots of later columns are unchanged. |
| TableModel.StrPartsMeaning | lib/fitsrec.py:75-78 | The parts succeed exactly when every visited column is printable. Part t is then what the t-th visited column shows in the state before the call. |
| TableModel.PrintableIsLocal | lib/fitsrec.py:78 | What a column shows depends only on its own slot and raw column. |
| TableModel.StrPartsStop | lib/fitsrec.py:76-78 | After the first failing cell, nothing more is printed. |
| TableModel.Join | lib/fitsrec.py:79 | `', '.join(parts)`: empty for no parts, the part itself for one; the text starts with the first part and ends with the last, with a separator between. |
| TableModel.JoinThree | lib/fitsrec.py:79 | Three parts are joined as `a + sep + b + sep + c`. |
| TableModel.RecordStrStep | lib/fitsrec.py:70-79 | `__str__` succeeds exactly when its parts do, and is then `'(' + ', '.join(parts) + ')'`. |
| TableModel.StrShowsWindow | lib/fitsrec.py:70-79 | For a record opened at start `s >= 0`, `__str__` joins exactly `__len__()` parts (none when that is negative). Part `k - s` is the repr of column k's cell at the record's row. It fails exactly when one of those columns cannot be printed. |
| TableModel.AsciiPrelude | lib/fitsrec.py:423-429 | A binary table is unchanged. On an ASCII table, one more start (the last start plus the last column's item size) is appended to `starts` itself. It fails with IndexError on empty starts and NameError with no columns. |
| TableModel.StoreColumn | lib/fitsrec.py:510-511 | A new raw column is stored exactly when it has a cell per row; otherwise it fails with ValueError and the state unchanged. |
| TableModel.VarLenPass | lib/fitsrec.py:444-454 | A non-variable column is untouched. Otherwise the descriptors are zeroed, and a failed count leaves them zeroed. On success they are the heap layout of the counts after the old `_heapsize`, and `_heapsize` grows by the column's bytes. No other column changes. |
| TableModel.AsciiColumn | lib/fitsrec.py:469-502 | The ASCII write changes column k only, and neither the cache, starts nor heap size. |
| TableModel.OverlapOnlyFromTrailingGap | lib/fitsrec.py:471-482 | The overlap failure is raised exactly when the next start minus the width falls before this column's start. The leading gap never fails. |
| TableModel.AsciiColumnWrites | lib/fitsrec.py:477-500 | With room for the text, the write succeeds exactly when every formatted value is within the column's width. Row i then holds value i formatted and padded. |
| TableModel.BinaryColumn | lib/fitsrec.py:506-511 | A binary rescaled column with no rows fails, because row 0 is read. Only column k changes. |
| TableModel.ConvertBack | lib/fitsrec.py:456-520 | A logical column is stored as its `'T'`/`'F'` encoding. A binary column that is neither scaled-numeric nor logical is left as it is. Only column k changes. |
| TableModel.ScaleBackColumn | lib/fitsrec.py:433-520 | An empty slot changes nothing, and only column k's storage changes. Only a variable-length column changes the heap size. |
| TableModel.ScaleBackBitsInPlace | lib/fitsrec.py:433-437 | With `_wrapx` packing into the array it is given, a cached bit column is written back: its raw column becomes the packed flags, and nothing else changes. |
| TableModel.ScaleBackColumns | lib/fitsrec.py:432-433 | The column loop keeps the cache and starts, and leaves columns n and later alone. |
| TableModel.ScaleBackColumnsStop | lib/fitsrec.py:432-440 | After the first failing column, nothing more is written. |
| TableModel.ScaleBackStep | lib/fitsrec.py:416-431 | `_scale_back` never changes the cache. |
| TableModel.ScaleBackRestartsHeap | lib/fitsrec.py:431 | The outcome does not depend on the `_heapsize` found, because it restarts at 0. |
| TableModel.ScaleBackGrowsStarts | lib/fitsrec.py:423-429 | On an ASCII table every call appends one start, so two calls add two. |
| TableModel.UncachedColumnsUntouched | lib/fitsrec.py:432-433 | Columns with an empty slot keep their raw storage through the loop. |
| TableModel.ScaleBackLeavesUncached | lib/fitsrec.py:432-433 | `_scale_back` never modifies a column that was never converted. |
| TableModel.ScaleBackBoolRoundTrip | lib/fitsrec.py:516-520 | A cached logical column is written as `'T'`/`'F'` bytes, and decoding them gives the cached column back. |
| TableModel.ScaleBackVarLenLayout | lib/fitsrec.py:444-454 | A cached variable-length column ends with `_heapsize` grown by its bytes. Its descriptors are laid out after the earlier columns' heap bytes. |
| Table.FitsRec.RawColumn | lib/fitsrec.py:380 | `rec.recarray.field(self, k)` is column k of the table's own buffer rows. |
| Table.FitsRec.constructor | lib/fitsrec.py:241-244 | A table over buffer rows `[base, base + nrows)` with the given cache, starts and heap size. |
| Table.FitsRec.Open | lib/fitsrec.py:146-147 | A fresh table over a whole buffer with `_convert = [None] * nfields`. |
| Table.FitsRec.PutRaw | lib/fitsrec.py:500 | One raw cell written; no other cell and no other view's rows change. |
| Table.FitsRec.WriteColumn | lib/fitsrec.py:510-511 | A raw column written whole; the other columns and the other views' rows are unchanged. |
| Table.FitsRec.ReadVarLen | lib/fitsrec.py:347-364 | The heap read loop gives the decoded variable-length column. |
| Table.FitsRec.Field | lib/fitsrec.py:324-414 | `field(k)` on the object follows `TableModel.FieldStep`. |
| Table.FitsRec.FieldByKey | lib/fitsrec.py:238-239 | `FITS_rec[name]` follows `TableModel.FieldKeyStep`. |
| Table.FitsRec.SetCell | lib/fitsrec.py:281 | `field(k)[row] = v` follows `TableModel.SetCellStep`, writing the cache or the buffer. |
| Table.FitsRec.SetItems | lib/fitsrec.py:278-281 | The tuple loop follows `TableModel.SetCells`. |
| Table.FitsRec.CopyColumn | lib/fitsrec.py:277 | One column copied from a record follows `TableModel.CopyColumnStep`. |
| Table.FitsRec.SetItemsFromRecord | lib/fitsrec.py:275-277 | The record-copy loop follows `TableModel.SetFromRecord`. |
| Table.FitsRec.SetRow | lib/fitsrec.py:274-287 | `__setitem__` follows `TableModel.SetRowStep`. |
| Table.FitsRec.SetSlice | lib/fitsrec.py:289-296 | `__setslice__` follows `TableModel.SetSliceStep`, and no other view's rows change. |
| Table.FitsRec.GetRow | lib/fitsrec.py:267-272 | `FITS_rec[key]` for an integer gives a whole-row record of this table exactly when `key < len`, and IndexError otherwise. |
| Table.FitsRec.TouchAll | lib/fitsrec.py:245-254 | The touch loop follows `TableModel.FieldAll`. |
| Table.FitsRec.GetSlice | lib/fitsrec.py:240-263 | `FITS_rec[i:j]` follows `TableModel.SliceStep`. The child is a fresh table with a fresh cache over rows `base + lo` onward of the same buffer. |
| Table.FitsRec.StoreColumn | lib/fitsrec.py:510-511 | Follows `TableModel.StoreColumn`. |
| Table.FitsRec.WriteDescriptors | lib/fitsrec.py:448-454 | The descriptor column becomes the heap layout of the counts after the old `_heapsize`, and `_heapsize` grows by the column's bytes. |
| Table.FitsRec.AsciiWriteRows | lib/fitsrec.py:492-500 | The ASCII row loop follows `Encoding.AsciiWrite`. |
| Table.FitsRec.AsciiColumn | lib/fitsrec.py:469-502 | Follows `TableModel.AsciiColumn`. |
| Table.FitsRec.ConvertBack | lib/fitsrec.py:456-520 | Follows `TableModel.ConvertBack`. |
| Table.FitsRec.VarLenPass | lib/fitsrec.py:444-454 | Follows `TableModel.VarLenPass`. |
| Table.FitsRec.ScaleBackColumn | lib/fitsrec.py:433-520 | Follows `TableModel.ScaleBackColumn`. |
| Table.FitsRec.ScaleBack | lib/fitsrec.py:416-520 | `_scale_back` follows `TableModel.ScaleBackStep`, and no other view's rows change. |
| Table.Record.Length | lib/fitsrec.py:112-113 | `len(record)` is `__len__()` when that is non-negative, and at most the column count. A negative `__len__()` is ValueError. |
| Table.Record.Slice | lib/fitsrec.py:115-116 | `__getslice__(i, j)` gives a record of the same table and row. Its start is `i` when `i <= nfields`, else `nfields + 1`. Its end is `j` when `0 < j <= nfields`, else `nfields`. |
| Table.Record.Get | lib/fitsrec.py:84-96 | `record[key]` follows `TableModel.RecordGetStep`. |
| Table.Record.Set | lib/fitsrec.py:98-110 | `record[key] = v` follows `TableModel.RecordSetStep` and writes through to the table. |
| Table.Record.Repr | lib/fitsrec.py:78 | `repr(field(k)[row])` follows `TableModel.ReprStep`. |
| Table.Record.Str | lib/fitsrec.py:70-79 | `__str__` follows `TableModel.RecordStrStep`. |

## Left out

- Floating-point scaling (`* bscale + bzero`, `-= bzero`, `/= bscale`), `np.around` and `astype`. These are the `scale`, `scaleRow`, `unscale` and `toStorage` fields of `Columns.Codec`, abstract functions with no arithmetic modelled.
- ASCII number formatting through Python's `%` and number parsing through `np.array(..., dtype)`. These are the `formatValue` and `parseNumber` fields of `Columns.Codec`; only the width and span checks around them are modelled.
- `repr()` of a cell is the abstract `repr` field of `Columns.Codec`.
- Literal spaces around the `%` template are modelled as text concatenated with the formatted value, not as part of the template.
- Bit packing (`_wrapx`/`_unwrapx`) consists of abstract functions on the column. `_wrapx` writes in place, so its output always fits the raw column. The model writes the abstract output back through `StoreColumn`, which would raise ValueError if that output had the wrong length. `Columns.WrapsInPlace` rules this out, and `TableModel.ScaleBackBitsInPlace` shows the write-back then succeeds.
- `pyfits.column` (`ColDefs`, `_get_index`, `_convert_format`, `_convert_ascii_format`, `ASCIITNULL`) is not part of this model:
  - column definitions are given as values;
  - `_get_index` is an exact first match on a name;
  - ASCII widths are taken as given;
  - `FITS2NUMPY['L']` is taken as `'i1'` and `ASCIITNULL` as 0.
- Heap reads through `self._file.seek` and `_fromfile` are a function `readHeap` of the element type, count and byte offset. The three loops of the variable-length branch (read, scale, compare with `'T'`) are merged into one function per row.
- The numpy subclass plumbing: `__new__`, `__array_finalize__`, `_clone`, `__repr__`, dtype checks and coercion, and broadcasting. `Table.FitsRec.Open` stands in for the cache set-up of `__new__`.
- `ColDefs._arrays` and `_shape`, which slicing rebuilds, are not modelled. The child's column definitions are the parent's.
- Keys that are numpy arrays (fancy indexing) in `FITS_rec.__getitem__`. Only names, integers and slices are modelled.
- Slices with a step (`t[::2]`, `slice(i, j, k)`) in `FITS_rec.__getitem__`, which would slice both the buffer and `_convert` with that step. `Cells.SliceBounds`, `TableModel.SliceStep` and `Table.FitsRec.GetSlice` take a start and a stop, with step 1.
- Python 2's adjustment of negative slice bounds before `__getslice__`/`__setslice__` is called. The bounds are taken as they reach the method.
- A `FITS_record` of another table as the value of a row assignment. The model copies from records of the same table.
- Table.FitsRec.GetSlice: the child's cache slots are filled after the touch loop rather than interleaved with it. This is the same, since `field(idx)` changes no slot but its own. The child's slots are copies, so a later write through the child's cache is not seen by the parent, and the reverse also holds. Writes through raw storage are shared.
- Table.FitsRec.WriteDescriptors: the descriptor column is written whole, as numpy's vector assignments do, not entry by entry. Descriptor offsets are unbounded integers; the int32 overflow of a descriptor is not modelled.
- `lib/hdu/extension.py` (HDU and header handling), the tests and `setup.py` are not part of this model.

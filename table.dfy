/**
 * `FITS_rec` and `FITS_record` as objects. A table owns its conversion cache, an array
 * of one slot per column, and views rows [base, base + nrows) of a raw record buffer
 * that slices of the table share. Each method that models a source operation is proved
 * to leave the table in the state, and to return the result, that the matching
 * `TableModel` step computes. The buffer helpers that `_scale_back` is built from are
 * specified against the raw storage instead: `PutRaw`, `WriteColumn` and
 * `WriteDescriptors` state the new `Storage()` (and, for descriptors, the new
 * `heapsize`), and `AsciiWriteRows` states its error and new column as
 * `Encoding.AsciiWrite` computes them. `ReadVarLen` changes nothing and returns the
 * column `Decoding.DecodeVarLen` computes.
 */
module Table {
  import opened Results
  import opened Cells
  import opened Columns
  import opened Records
  import opened Decoding
  import opened Encoding
  import opened TableModel

  class FitsRec {
    const cd: ColDefs
    const codec: Codec
    const nrows: nat
    const heapoffset: int
    /** The record buffer: raw[k, b] is column k of buffer row b. */
    const raw: array2<Cell>
    /** The first buffer row this table views. */
    const base: nat
    /** `_convert`: one slot per column, filled when the column is first decoded. */
    const convert: array<Option<seq<Cell>>>
    /** `_coldefs.starts`, the ASCII start column of each field. */
    var starts: seq<int>
    var heapsize: int

    ghost predicate Valid()
    {
      WellFormed(cd) && convert.Length == |cd.names| && raw.Length0 == |cd.names| &&
      base + nrows <= raw.Length1
    }

    function Sc(): Schema
    {
      Schema(cd, codec, nrows, heapoffset)
    }

    /** `rec.recarray.field(self, k)`: column k of this table's rows of the buffer. */
    function RawColumn(k: nat): (r: seq<Cell>)
      requires Valid() && k < |cd.names|
      reads raw
      ensures |r| == nrows
      ensures forall i :: 0 <= i < nrows ==> r[i] == raw[k, base + i]
    {
      seq(nrows, i requires 0 <= i < nrows reads raw => raw[k, base + i])
    }

    ghost function Storage(): (r: seq<seq<Cell>>)
      requires Valid()
      reads raw
      ensures |r| == |cd.names| && forall k :: 0 <= k < |cd.names| ==> r[k] == RawColumn(k)
    {
      seq(|cd.names|, k requires 0 <= k < |cd.names| reads raw => RawColumn(k))
    }

    ghost function Abs(): (s: State)
      requires Valid()
      reads this, raw, convert
      ensures Fits(Sc(), s)
    {
      State(convert[..], Storage(), starts, heapsize)
    }

    /** Buffer rows that other views of the buffer own are left as they were. */
    twostate predicate OnlyOwnRows()
      reads raw
    {
      forall a, b :: 0 <= a < raw.Length0 && 0 <= b < raw.Length1 && !(base <= b < base + nrows) ==>
        raw[a, b] == old(raw[a, b])
    }

    constructor (cd: ColDefs, codec: Codec, nrows: nat, heapoffset: int, raw: array2<Cell>, base: nat,
                 convert: array<Option<seq<Cell>>>, starts: seq<int>, heapsize: int)
      requires WellFormed(cd) && convert.Length == |cd.names| && raw.Length0 == |cd.names|
      requires base + nrows <= raw.Length1
      ensures Valid()
      ensures this.cd == cd && this.codec == codec && this.nrows == nrows && this.heapoffset == heapoffset
      ensures this.raw == raw && this.base == base && this.convert == convert
      ensures this.starts == starts && this.heapsize == heapsize
    {
      this.cd := cd;
      this.codec := codec;
      this.nrows := nrows;
      this.heapoffset := heapoffset;
      this.raw := raw;
      this.base := base;
      this.convert := convert;
      this.starts := starts;
      this.heapsize := heapsize;
    }

    /** A table over a whole buffer, with `_convert = [None] * nfields`. */
    static method Open(cd: ColDefs, codec: Codec, heapoffset: int, raw: array2<Cell>, starts: seq<int>)
      returns (t: FitsRec)
      requires WellFormed(cd) && raw.Length0 == |cd.names|
      ensures fresh(t) && fresh(t.convert) && t.Valid() && t.raw == raw && t.base == 0
      ensures t.nrows == raw.Length1 && t.cd == cd
      ensures t.Abs().cache == seq(|cd.names|, _ => None) && t.Abs().starts == starts
    {
      var slots := new Option<seq<Cell>>[|cd.names|](_ => None);
      t := new FitsRec(cd, codec, raw.Length1, heapoffset, raw, 0, slots, starts, 0);
    }

    // -------------------------------------------------------------------------
    // Raw writes.

    /** One raw cell written: column k, row i of this table. */
    method PutRaw(k: nat, i: nat, v: Cell)
      requires Valid() && k < |cd.names| && i < nrows
      modifies raw
      ensures Storage() == old(Storage())[k := old(Storage())[k][i := v]]
      ensures OnlyOwnRows()
    {
      raw[k, base + i] := v;
      forall j | 0 <= j < |cd.names| && j != k
        ensures RawColumn(j) == old(RawColumn(j))
      {
      }
      assert RawColumn(k) == old(RawColumn(k))[i := v];
    }

    /** A whole raw column written, row by row. */
    method WriteColumn(k: nat, col: seq<Cell>)
      requires Valid() && k < |cd.names| && |col| == nrows
      modifies raw
      ensures Storage() == old(Storage())[k := col]
      ensures OnlyOwnRows()
    {
      var i := 0;
      while i < nrows
        invariant 0 <= i <= nrows
        invariant forall a, b :: 0 <= a < raw.Length0 && 0 <= b < raw.Length1 ==>
          raw[a, b] == if a == k && base <= b < base + i then col[b - base] else old(raw[a, b])
      {
        raw[k, base + i] := col[i];
        i := i + 1;
      }
      forall j | 0 <= j < |cd.names| && j != k
        ensures RawColumn(j) == old(RawColumn(j))
      {
      }
      assert RawColumn(k) == col;
    }

    // -------------------------------------------------------------------------
    // field().

    /** The heap read loop of a variable-length column: one row of the heap per descriptor. */
    method ReadVarLen(k: nat, dtype: string, f: ScaleFactors) returns (col: seq<Cell>)
      requires Valid() && k < |cd.names|
      ensures col == DecodeVarLen(codec, dtype, f, RawColumn(k), heapoffset)
    {
      col := [];
      var i := 0;
      while i < nrows
        invariant 0 <= i <= nrows
        invariant |col| == i
        invariant forall j :: 0 <= j < i ==> col[j] == VarLenRow(codec, dtype, f, raw[k, base + j], heapoffset)
      {
        col := col + [VarLenRow(codec, dtype, f, raw[k, base + i], heapoffset)];
        i := i + 1;
      }
    }

    /** `field(k)`: the cached column, or the column decoded and, unless handed out raw, cached. */
    method Field(k: nat) returns (r: Result<Decoded>)
      requires Valid() && k < |cd.names|
      modifies convert
      ensures var s := FieldStep(Sc(), old(Abs()), k); r == s.result && Abs() == s.state
    {
      if convert[k].Some? {
        return Ok(Decoded(convert[k].value, true));
      }
      var d: Decoded;
      match cd.recformats[k].kind {
        case VarLen(dtype, _) =>
          var f := GetScaleFactors(cd, k);
          if f.Err? {
            return Err(f.error);
          }
          var col := ReadVarLen(k, dtype, f.value);
          d := Decoded(col, true);
        case _ =>
          var e := DecodeField(cd, codec, k, RawColumn(k), heapoffset);
          if e.Err? {
            return e;
          }
          d := e.value;
      }
      if d.cached {
        convert[k] := Some(d.col);
      }
      return Ok(d);
    }

    /** `field(key)`, and `FITS_rec[name]`. */
    method FieldByKey(key: Key) returns (r: Result<seq<Cell>>)
      requires Valid()
      modifies convert
      ensures var s := FieldKeyStep(Sc(), old(Abs()), key); r == s.result && Abs() == s.state
    {
      var k :- FieldIndex(Sc(), key);
      var d :- Field(k);
      return Ok(d.col);
    }

    // -------------------------------------------------------------------------
    // Assignment.

    /** `field(k)[row] = v`. */
    method SetCell(k: nat, row: int, v: Cell) returns (r: Result<()>)
      requires Valid() && k < |cd.names|
      modifies raw, convert
      ensures var s := SetCellStep(Sc(), old(Abs()), k, row, v); r == s.result && Abs() == s.state
      ensures OnlyOwnRows()
    {
      var d :- Field(k);
      var i := PyIndex(row, |d.col|);
      if i.None? {
        return Err(IndexOutOfRange);
      }
      if d.cached {
        convert[k] := Some(d.col[i.value := v]);
      } else {
        PutRaw(k, i.value, v);
      }
      return Ok(());
    }

    /** A tuple or list row: `field(idx)[row] = value[idx]` for every column in order. */
    method SetItems(row: int, items: seq<Cell>) returns (r: Result<()>)
      requires Valid() && |items| == |cd.names|
      modifies raw, convert
      ensures var s := SetCells(Sc(), old(Abs()), row, items, |cd.names|); r == s.result && Abs() == s.state
      ensures OnlyOwnRows()
    {
      hide SetCellStep;
      ghost var st0 := Abs();
      var n := |cd.names|;
      var idx := 0;
      while idx < n
        invariant 0 <= idx <= n
        invariant SetCells(Sc(), st0, row, items, idx) == Step(Ok(()), Abs())
        invariant OnlyOwnRows()
      {
        ghost var before := Abs();
        r := SetCell(idx, row, items[idx]);
        assert SetCells(Sc(), st0, row, items, idx + 1) == SetCellStep(Sc(), before, idx, row, items[idx]);
        if r.Err? {
          SetCellsStop(Sc(), st0, row, items, idx + 1, n);
          return;
        }
        assert r.value == ();
        idx := idx + 1;
      }
      return Ok(());
    }

    /** `field(names[k])[row] = value.field(names[k])` for a record of this table. */
    method CopyColumn(row: int, w: Window, k: nat) returns (r: Result<()>)
      requires Valid() && k < |cd.names|
      modifies raw, convert
      ensures var s := CopyColumnStep(Sc(), old(Abs()), row, w, k); r == s.result && Abs() == s.state
      ensures OnlyOwnRows()
    {
      var name := cd.names[k];
      var v :- Record(this, w).Get(Name(name));
      var j := GetIndex(cd.names, name);
      r := SetCell(j.value, row, v);
    }

    /** A record of this table as the row: every column copied by name, in order. */
    method SetItemsFromRecord(row: int, w: Window) returns (r: Result<()>)
      requires Valid()
      modifies raw, convert
      ensures var s := SetFromRecord(Sc(), old(Abs()), row, w, |cd.names|); r == s.result && Abs() == s.state
      ensures OnlyOwnRows()
    {
      hide CopyColumnStep;
      ghost var st0 := Abs();
      var n := |cd.names|;
      var idx := 0;
      while idx < n
        invariant 0 <= idx <= n
        invariant SetFromRecord(Sc(), st0, row, w, idx) == Step(Ok(()), Abs())
        invariant OnlyOwnRows()
      {
        ghost var before := Abs();
        r := CopyColumn(row, w, idx);
        assert SetFromRecord(Sc(), st0, row, w, idx + 1) == CopyColumnStep(Sc(), before, row, w, idx);
        if r.Err? {
          SetFromRecordStops(Sc(), st0, row, w, idx + 1, n);
          return;
        }
        assert r.value == ();
        idx := idx + 1;
      }
      return Ok(());
    }

    /** `FITS_rec.__setitem__(row, value)`. */
    method SetRow(row: int, value: RowValue) returns (r: Result<()>)
      requires Valid()
      modifies raw, convert
      ensures var s := SetRowStep(Sc(), old(Abs()), row, value); r == s.result && Abs() == s.state
      ensures OnlyOwnRows()
    {
      match value {
        case Scalar(_) =>
          return Err(UnsupportedAssignment);
        case Items(items) =>
          if |cd.names| != |items| {
            return Err(ArityMismatch);
          }
          r := SetItems(row, items);
        case RecordOf(w) =>
          r := SetItemsFromRecord(row, w);
      }
    }

    /** `FITS_rec.__setslice__(start, end, value)`: rows [s0, e0) assigned in order. */
    method SetSlice(start: int, end: int, values: seq<RowValue>) returns (r: Result<()>)
      requires Valid()
      modifies raw, convert
      ensures var s := SetSliceStep(Sc(), old(Abs()), start, end, values); r == s.result && Abs() == s.state
      ensures OnlyOwnRows()
    {
      hide SetRowStep;
      ghost var st0 := Abs();
      assert st0 == old(Abs());
      var (s0, e0) := SetSliceRange(nrows, start, end, |values|);
      if e0 <= s0 {
        assert SetSliceStep(Sc(), st0, start, end, values) == Step(Ok(()), Abs());
        return Ok(());
      }
      SetSliceRuns(Sc(), st0, start, end, values, s0, e0);
      var m := 0;
      while m < e0 - s0
        invariant 0 <= m <= e0 - s0
        invariant SetRows(Sc(), st0, s0, values, m) == Step(Ok(()), Abs())
        invariant OnlyOwnRows()
      {
        ghost var before := Abs();
        r := SetRow(s0 + m, values[m]);
        SetRowsNext(Sc(), st0, s0, values, m, before, r, Abs());
        if r.Err? {
          SetRowsStop(Sc(), st0, s0, values, m + 1, e0 - s0);
          assert SetSliceStep(Sc(), st0, start, end, values) == Step(r, Abs());
          return;
        }
        assert r.value == ();
        m := m + 1;
      }
      assert SetSliceStep(Sc(), st0, start, end, values) == Step(Ok(()), Abs());
      return Ok(());
    }

    // -------------------------------------------------------------------------
    // Row access and slicing.

    /** `FITS_rec[key]` for an integer key: the record of that row, or IndexError. */
    function GetRow(key: int): (r: Result<Record>)
      ensures r.Ok? <==> key < nrows
      ensures r.Err? ==> r.error == IndexOutOfRange
      ensures r.Ok? ==> r.value.table == this && r.value.window.row == key &&
                        r.value.window.start == 0 && r.value.window.end == |cd.names|
    {
      match RowWindow(|cd.names|, nrows, key)
      case Err(e) => Err(e)
      case Ok(w) => Ok(Record(this, w))
    }

    /** The loop of slicing: `field(idx)` for every column, in order; the first failure stops it. */
    method TouchAll() returns (r: Result<()>)
      requires Valid()
      modifies convert
      ensures var s := FieldAll(Sc(), old(Abs()), |cd.names|); r == s.result && Abs() == s.state
    {
      ghost var st0 := Abs();
      assert FieldAll(Sc(), st0, 0) == Step(Ok(()), st0);
      hide FieldStep;
      hide FieldDecodes;
      hide FieldAll;
      var n := |cd.names|;
      var idx := 0;
      while idx < n
        invariant 0 <= idx <= n
        invariant FieldAll(Sc(), st0, idx) == Step(Ok(()), Abs())
      {
        ghost var before := Abs();
        var d := Field(idx);
        r := if d.Ok? then Ok(()) else Err(d.error);
        FieldAllNext(Sc(), st0, idx, before, r, Abs());
        if r.Err? {
          FieldAllStops(Sc(), st0, idx + 1, n);
          return;
        }
        assert r.value == ();
        idx := idx + 1;
      }
      return Ok(());
    }

    /**
     * `FITS_rec[i:j]`: every column touched, then a new table over rows [lo, hi) of the same
     * buffer whose cache holds each filled slot of this one, sliced.
     */
    method GetSlice(i: int, j: int) returns (r: Result<FitsRec>)
      requires Valid()
      modifies convert
      ensures var s := SliceStep(Sc(), old(Abs()), i, j);
        Abs() == s.state && (r.Ok? <==> s.result.Ok?) &&
        (r.Err? ==> r.error == s.result.error) &&
        (r.Ok? ==> fresh(r.value) && fresh(r.value.convert) && r.value.Valid() &&
                   r.value.raw == raw && r.value.base == base + s.result.value.lo &&
                   r.value.Sc() == Sc().(nrows := s.result.value.hi - s.result.value.lo) &&
                   r.value.Abs() == s.result.value.state)
    {
      hide FieldStep;
      hide FieldDecodes;
      hide FieldAll;
      var t := TouchAll();
      if t.Err? {
        return Err(t.error);
      }
      var n := |cd.names|;
      if n == 0 {
        return Err(UnboundName);
      }
      var slots := new Option<seq<Cell>>[n](k requires 0 <= k < n reads convert => SliceSlot(convert[k], i, j));
      assert slots[..] == SliceCache(convert[..], i, j);
      var (lo, hi) := SliceBounds(i, j, nrows);
      var child := new FitsRec(cd, codec, hi - lo, heapoffset, raw, base + lo, slots, starts, heapsize);
      forall k | 0 <= k < n
        ensures child.RawColumn(k) == RawColumn(k)[lo..hi]
      {
      }
      return Ok(child);
    }

    // -------------------------------------------------------------------------
    // _scale_back.

    /** Writes a new raw column k when it has one cell per row; ValueError otherwise. */
    method StoreColumn(k: nat, col: seq<Cell>) returns (r: Result<()>)
      requires Valid() && k < |cd.names|
      modifies raw
      ensures var s := TableModel.StoreColumn(Sc(), old(Abs()), k, col); r == s.result && Abs() == s.state
      ensures OnlyOwnRows()
    {
      if |col| != nrows {
        return Err(ShapeMismatch);
      }
      WriteColumn(k, col);
      return Ok(());
    }

    /** The descriptor column, written whole: desc[i] = (counts[i], heap so far plus the bytes of rows 0 .. i-1). */
    method WriteDescriptors(k: nat, counts: seq<nat>, size: nat)
      requires Valid() && k < |cd.names| && |counts| == nrows
      modifies this, raw
      ensures Storage() == old(Storage())[k := Layout(counts, size, old(heapsize))]
      ensures heapsize == HeapAfter(counts, size, old(heapsize))
      ensures starts == old(starts)
      ensures OnlyOwnRows()
    {
      WriteColumn(k, Layout(counts, size, heapsize));
      heapsize := HeapAfter(counts, size, heapsize);
    }

    /** The row loop of an ASCII column: format, check the span, store; the first failure stops it. */
    method AsciiWriteRows(k: nat, template: string, lead: int, trail: int, span: int, dummy: seq<Cell>)
      returns (err: Option<Error>)
      requires Valid() && k < |cd.names|
      modifies raw
      ensures var w := AsciiWrite(codec, template, lead, trail, span, dummy, old(RawColumn(k)), |dummy|);
        err == w.err && Storage() == old(Storage())[k := w.col]
      ensures OnlyOwnRows()
    {
      hide AsciiCell;
      ghost var col0 := RawColumn(k);
      var i := 0;
      while i < |dummy|
        invariant 0 <= i <= |dummy|
        invariant AsciiWrite(codec, template, lead, trail, span, dummy, col0, i) == ColumnWrite(None, RawColumn(k))
        invariant Storage() == old(Storage())[k := RawColumn(k)]
        invariant OnlyOwnRows()
      {
        var x := AsciiCell(codec, template, lead, trail, dummy[i]);
        if |x| > span {
          AsciiWriteStops(codec, template, lead, trail, span, dummy, col0, i + 1, |dummy|);
          return Some(FieldTooNarrow);
        }
        if i >= nrows {
          AsciiWriteStops(codec, template, lead, trail, span, dummy, col0, i + 1, |dummy|);
          return Some(IndexOutOfRange);
        }
        PutRaw(k, i, Text(x));
        i := i + 1;
      }
      return None;
    }

    /** The ASCII write of column k: the gap checks, the `%` template and the row loop. */
    method AsciiColumn(k: nat, dummy: seq<Cell>) returns (r: Result<()>)
      requires Valid() && k < |cd.names|
      modifies raw
      ensures var s := TableModel.AsciiColumn(Sc(), old(Abs()), k, dummy); r == s.result && Abs() == s.state
      ensures OnlyOwnRows()
    {
      hide AsciiWrite;
      hide AsciiTemplate;
      hide Strip;
      // `_loc` is the list `_coldefs.starts` itself.
      var loc := starts;
      if k >= |starts| {
        return Err(IndexOutOfRange);
      }
      var lead := starts[k] - loc[k];
      if lead < 0 {
        return Err(OverlapFailure);
      }
      if k + 1 >= |loc| {
        return Err(IndexOutOfRange);
      }
      var trail := loc[k + 1] - cd.widths[k] - starts[k];
      if trail < 0 {
        return Err(OverlapFailure);
      }
      var template :- AsciiTemplate(Strip(cd.asciiFormats[k]));
      var err := AsciiWriteRows(k, template, lead, trail, loc[k + 1] - loc[k], dummy);
      if err.Some? {
        return Err(err.value);
      }
      return Ok(());
    }

    /** The conversion pass of a non-bit column with a filled slot. */
    method ConvertBack(k: nat, c: seq<Cell>, f: ScaleFactors) returns (r: Result<()>)
      requires Valid() && k < |cd.names|
      modifies raw
      ensures var s := TableModel.ConvertBack(Sc(), old(Abs()), k, c, f); r == s.result && Abs() == s.state
      ensures OnlyOwnRows()
    {
      if f.isNumber || f.isStr {
        var dummy: seq<Cell>;
        if f.isNumber && (f.scale || f.zero) {
          dummy := codec.unscale(c, f.bscale, f.bzero, f.scale, f.zero);
        } else if cd.tbtype == AsciiTable {
          dummy := c;
        } else {
          return Ok(());
        }
        if cd.tbtype == AsciiTable {
          r := AsciiColumn(k, dummy);
        } else if nrows == 0 {
          r := Err(IndexOutOfRange);
        } else {
          r := StoreColumn(k, codec.toStorage(dummy, RawColumn(k)));
        }
      } else if f.isBool {
        r := StoreColumn(k, EncodeBool(c));
      } else {
        r := Ok(());
      }
    }

    /** The descriptor pass of a variable-length column: zeroed, then counts and offsets written. */
    method VarLenPass(k: nat, c: seq<Cell>, size: nat) returns (r: Result<()>)
      requires Valid() && k < |cd.names| && cd.recformats[k].kind.VarLen? && cd.recformats[k].kind.itemsize == size
      modifies this, raw
      ensures var s := TableModel.VarLenPass(Sc(), old(Abs()), k, c); r == s.result && Abs() == s.state
      ensures OnlyOwnRows()
    {
      WriteColumn(k, seq(nrows, _ => Desc(0, 0)));
      var counts := Counts(c, nrows);
      if counts.Err? {
        return Err(counts.error);
      }
      WriteDescriptors(k, counts.value, size);
      return Ok(());
    }

    /** The write-back of column k. */
    method ScaleBackColumn(k: nat) returns (r: Result<()>)
      requires Valid() && k < |cd.names|
      modifies this, raw
      ensures var s := TableModel.ScaleBackColumn(Sc(), old(Abs()), k); r == s.result && Abs() == s.state
      ensures OnlyOwnRows()
    {
      hide TableModel.AsciiColumn;
      hide TableModel.VarLenPass;
      hide TableModel.ConvertBack;
      hide TableModel.StoreColumn;
      if convert[k].None? {
        return Ok(());
      }
      var c := convert[k].value;
      match cd.recformats[k].kind {
        case Bits(nx) =>
          r := StoreColumn(k, codec.wrapX(c, RawColumn(k), nx));
        case VarLen(_, size) =>
          var f := GetScaleFactors(cd, k);
          if f.Err? {
            return Err(f.error);
          }
          r := VarLenPass(k, c, size);
          if r.Err? {
            return;
          }
          r := ConvertBack(k, c, f.value);
        case Fixed =>
          var f := GetScaleFactors(cd, k);
          if f.Err? {
            return Err(f.error);
          }
          r := ConvertBack(k, c, f.value);
      }
    }

    /** `_scale_back`: the ASCII prelude, `_heapsize = 0`, then every column in order. */
    method ScaleBack() returns (r: Result<()>)
      requires Valid()
      modifies this, raw
      ensures var s := ScaleBackStep(Sc(), old(Abs())); r == s.result && Abs() == s.state
      ensures OnlyOwnRows()
    {
      hide TableModel.ScaleBackColumn;
      ghost var st0 := Abs();
      var n := |cd.names|;
      if cd.tbtype == AsciiTable {
        if |starts| == 0 {
          return Err(IndexOutOfRange);
        }
        if n == 0 {
          return Err(UnboundName);
        }
        starts := starts + [starts[|starts| - 1] + cd.itemsizes[n - 1]];
      }
      heapsize := 0;
      ghost var start := Abs();
      assert start == AsciiPrelude(Sc(), st0).state.(heapsize := 0);
      var indx := 0;
      while indx < n
        invariant 0 <= indx <= n
        invariant ScaleBackColumns(Sc(), start, indx) == Step(Ok(()), Abs())
        invariant OnlyOwnRows()
      {
        ghost var before := Abs();
        r := ScaleBackColumn(indx);
        assert ScaleBackColumns(Sc(), start, indx + 1) == TableModel.ScaleBackColumn(Sc(), before, indx);
        if r.Err? {
          ScaleBackColumnsStop(Sc(), start, indx + 1, n);
          return;
        }
        assert r.value == ();
        indx := indx + 1;
      }
      return Ok(());
    }
  }

  /** `FITS_record`: a row of a table seen through a column window. */
  datatype Record = Record(table: FitsRec, window: Window)
  {
    /**
     * `len(record)`: the window length `__len__` returns, which Python refuses with
     * ValueError when it is negative.
     */
    function Length(): (r: Result<nat>)
      ensures r.Ok? <==> Len(window, |table.cd.names|) >= 0
      ensures r.Ok? ==> r.value == Len(window, |table.cd.names|) && r.value <= |table.cd.names|
      ensures r.Err? ==> r.error == NegativeLength
    {
      var n := Len(window, |table.cd.names|);
      if n < 0 then Err(NegativeLength) else Ok(n)
    }

    /**
     * `FITS_record.__getslice__(i, j)`: a record of the same row and table whose bounds
     * are i and j as absolute column indices, clamped as the constructor clamps them.
     */
    function Slice(i: int, j: int): (r: Record)
      ensures r.table == table && r.window.row == window.row
      ensures i <= |table.cd.names| ==> r.window.start == i
      ensures i > |table.cd.names| ==> r.window.start == |table.cd.names| + 1
      ensures 0 < j <= |table.cd.names| ==> r.window.end == j
      ensures j <= 0 || j > |table.cd.names| ==> r.window.end == |table.cd.names|
    {
      Record(table, SubWindow(|table.cd.names|, window, i, j))
    }

    /** `FITS_record.__getitem__` and `field`. */
    method Get(key: Key) returns (r: Result<Cell>)
      requires table.Valid()
      modifies table.convert
      ensures var s := RecordGetStep(table.Sc(), old(table.Abs()), window, key);
        r == s.result && table.Abs() == s.state
    {
      var indx :- Resolve(table.cd.names, window, key);
      var k :- FieldIndex(table.Sc(), Pos(indx));
      var d :- table.Field(k);
      return At(d.col, window.row);
    }

    /** `FITS_record.__setitem__` and `setfield`: writes through to the table. */
    method Set(key: Key, v: Cell) returns (r: Result<()>)
      requires table.Valid()
      modifies table.raw, table.convert
      ensures var s := RecordSetStep(table.Sc(), old(table.Abs()), window, key, v);
        r == s.result && table.Abs() == s.state
      ensures table.OnlyOwnRows()
    {
      var indx :- Resolve(table.cd.names, window, key);
      var k :- FieldIndex(table.Sc(), Pos(indx));
      r := table.SetCell(k, window.row, v);
    }

    /** `repr(self.field(k))`, the part of `__str__` for column k. */
    method Repr(k: nat) returns (r: Result<string>)
      requires table.Valid() && k < |table.cd.names|
      modifies table.convert
      ensures var s := ReprStep(table.Sc(), old(table.Abs()), window.row, k);
        r == s.result && table.Abs() == s.state
    {
      var d :- table.Field(k);
      var c :- At(d.col, window.row);
      return Ok(table.codec.repr(c));
    }

    /** `FITS_record.__str__`: the repr of each cell in the window, comma-separated, in parentheses. */
    method Str() returns (r: Result<string>)
      requires table.Valid()
      modifies table.convert
      ensures var s := RecordStrStep(table.Sc(), old(table.Abs()), window);
        r == s.result && table.Abs() == s.state
    {
      hide ReprStep;
      hide FieldStep;
      hide FieldDecodes;
      hide View;
      hide Printable;
      hide Shown;
      hide DecodeField;
      hide FieldDecodes;
      hide Join;
      hide StrParts;
      ghost var st0 := table.Abs();
      var n := |table.cd.names|;
      var parts: seq<string> := [];
      var idx := 0;
      while idx < n
        invariant 0 <= idx <= n
        invariant StrParts(table.Sc(), st0, window, idx) == Step(Ok(parts), table.Abs())
      {
        if window.start <= idx < window.end {
          ghost var before := table.Abs();
          var x := Repr(idx);
          StrPartsNext(table.Sc(), st0, window, idx, parts, before, x, table.Abs());
          if x.Err? {
            StrPartsStop(table.Sc(), st0, window, idx + 1, n);
            return Err(x.error);
          }
          parts := parts + [x.value];
        } else {
          StrPartsSkip(table.Sc(), st0, window, idx);
        }
        idx := idx + 1;
      }
      return Ok("(" + Join(parts, ", ") + ")");
    }
  }
}

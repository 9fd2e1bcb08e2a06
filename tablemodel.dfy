/**
 * `FITS_rec` as a state machine over values: the conversion cache `_convert`, the raw
 * storage of every column, the ASCII start list `_coldefs.starts` and `_heapsize`.
 * Each operation maps a state to its result and the state it leaves, including the
 * state at the point where an error is raised. Class `Table.FitsRec` is proved to
 * follow these functions.
 */
module TableModel {
  import opened Results
  import opened Cells
  import opened Columns
  import opened Records
  import opened Decoding
  import opened Encoding

  /** What stays fixed for a table: its column definitions, primitives, rows and heap offset. */
  datatype Schema = Schema(cd: ColDefs, codec: Codec, nrows: nat, heapoffset: int)

  function NFields(sc: Schema): nat
  {
    |sc.cd.names|
  }

  /** The mutable part: one cache slot and one raw column per field, the starts list and the heap size. */
  datatype State = State(cache: seq<Option<seq<Cell>>>, storage: seq<seq<Cell>>,
                         starts: seq<int>, heapsize: int)

  /** One slot and one raw column per field; every raw column has a row per table row. */
  predicate Fits(sc: Schema, st: State)
  {
    WellFormed(sc.cd) && |st.cache| == NFields(sc) && |st.storage| == NFields(sc) &&
    forall k :: 0 <= k < |st.storage| ==> |st.storage[k]| == sc.nrows
  }

  /** An operation's result, or the error it raised, and the state it leaves behind. */
  datatype Step<T> = Step(result: Result<T>, state: State)

  /** A value assigned to a whole row: a record of this table, a tuple or list, or anything else. */
  datatype RowValue = RecordOf(window: Window) | Items(items: seq<Cell>) | Scalar(cell: Cell)

  // ---------------------------------------------------------------------------
  // field(): lazy decoding with the conversion cache.

  /** `_get_index` as `field` uses it: a name is looked up, an integer is a list index. */
  function FieldIndex(sc: Schema, key: Key): (r: Result<nat>)
    ensures r.Ok? ==> r.value < NFields(sc)
    ensures key.Name? ==> (r.Ok? <==> key.s in sc.cd.names)
    ensures key.Name? && r.Ok? ==> sc.cd.names[r.value] == key.s
    ensures key.Pos? ==> (r.Ok? <==> -(NFields(sc) as int) <= key.i < NFields(sc))
    ensures key.Pos? && r.Ok? ==> r.value == key.i || r.value == key.i + NFields(sc)
    ensures r.Err? ==> r.error == if key.Name? then NameNotFound else IndexOutOfRange
  {
    match key
    case Name(s) => GetIndex(sc.cd.names, s)
    case Pos(i) =>
      match PyIndex(i, NFields(sc))
      case None => Err(IndexOutOfRange)
      case Some(k) => Ok(k)
  }

  /** With an empty slot, `field(k)` returns what decoding column k's raw storage gives. */
  ghost predicate FieldDecodes(sc: Schema, st: State, k: nat, r: Result<Decoded>)
    requires Fits(sc, st) && k < NFields(sc)
  {
    st.cache[k].None? ==> r == DecodeField(sc.cd, sc.codec, k, st.storage[k], sc.heapoffset)
  }

  /**
   * `field(k)`: a filled cache slot is returned as it is; otherwise the column is decoded
   * from raw storage and, unless it is handed out raw, stored in the slot.
   */
  function FieldStep(sc: Schema, st: State, k: nat): (r: Step<Decoded>)
    requires Fits(sc, st) && k < NFields(sc)
    ensures Fits(sc, r.state)
    ensures r.state.storage == st.storage && r.state.starts == st.starts && r.state.heapsize == st.heapsize
    ensures forall j :: 0 <= j < NFields(sc) && j != k ==> r.state.cache[j] == st.cache[j]
    ensures st.cache[k].Some? ==> r == Step(Ok(Decoded(st.cache[k].value, true)), st)
    ensures r.result.Ok? && r.result.value.cached ==> r.state.cache[k] == Some(r.result.value.col)
    ensures r.result.Ok? && !r.result.value.cached ==> r.state == st && r.result.value.col == st.storage[k]
    ensures r.result.Err? ==> r.state == st && st.cache[k].None?
    ensures FieldDecodes(sc, st, k, r.result)
  {
    match st.cache[k]
    case Some(c) => Step(Ok(Decoded(c, true)), st)
    case None =>
      match DecodeField(sc.cd, sc.codec, k, st.storage[k], sc.heapoffset)
      case Err(e) => Step(Err(e), st)
      case Ok(d) => Step(Ok(d), if d.cached then st.(cache := st.cache[k := Some(d.col)]) else st)
  }

  /** `field(key)` and `FITS_rec.__getitem__` with a name. */
  function FieldKeyStep(sc: Schema, st: State, key: Key): (r: Step<seq<Cell>>)
    requires Fits(sc, st)
    ensures Fits(sc, r.state)
    ensures FieldIndex(sc, key).Err? ==> r == Step(Err(FieldIndex(sc, key).error), st)
    ensures FieldIndex(sc, key).Ok? ==>
      var s := FieldStep(sc, st, FieldIndex(sc, key).value);
      r.state == s.state && (r.result.Ok? <==> s.result.Ok?) &&
      (r.result.Ok? ==> r.result.value == s.result.value.col)
  {
    match FieldIndex(sc, key)
    case Err(e) => Step(Err(e), st)
    case Ok(k) =>
      var s := FieldStep(sc, st, k);
      match s.result
      case Err(e) => Step(Err(e), s.state)
      case Ok(d) => Step(Ok(d.col), s.state)
  }

  /** The column `field(k)` would hand out in a state: its logical view. */
  function View(sc: Schema, st: State, k: nat): Result<seq<Cell>>
    requires Fits(sc, st) && k < NFields(sc)
  {
    match FieldStep(sc, st, k).result
    case Err(e) => Err(e)
    case Ok(d) => Ok(d.col)
  }

  /**
   * `field(k)` on an unscaled ASCII number column whose slot is empty: a cell whose text,
   * after the 'D' to 'E' rewrite and stripping, equals the stripped TNULL comes out as the
   * value parsed from ASCIITNULL's text, and the column is cached.
   */
  lemma FieldReadsTNullAsAsciiTNull(sc: Schema, st: State, k: nat, i: nat)
    requires Fits(sc, st) && k < NFields(sc) && st.cache[k].None?
    requires sc.cd.tbtype == AsciiTable && sc.cd.recformats[k].kind.Fixed?
    requires GetScaleFactors(sc.cd, k).Ok? && !GetScaleFactors(sc.cd, k).value.isStr
    requires !GetScaleFactors(sc.cd, k).value.scale && !GetScaleFactors(sc.cd, k).value.zero
    requires FieldStep(sc, st, k).result.Ok? && i < |st.storage[k]|
    requires Strip(Replace(TextOf(st.storage[k][i]), 'D', 'E')) == Strip(sc.cd.nulls[k])
    ensures AsciiNumType(sc.cd.asciiFormats[k]).Ok?
    ensures var d := FieldStep(sc, st, k).result.value;
      && d.cached && i < |d.col|
      && Some(d.col[i]) == sc.codec.parseNumber(AsciiNumType(sc.cd.asciiFormats[k]).value, AsciiNullText)
  {
    NullCellParsesAsNull(TextOf(st.storage[k][i]), sc.cd.nulls[k]);
  }

  /** `field(k)` on a variable-length column whose slot is empty: the heap rows, cached. */
  lemma FieldReadsVarLen(sc: Schema, st: State, k: nat)
    requires Fits(sc, st) && k < NFields(sc) && st.cache[k].None?
    requires sc.cd.recformats[k].kind.VarLen? && GetScaleFactors(sc.cd, k).Ok?
    ensures var col := DecodeVarLen(sc.codec, sc.cd.recformats[k].kind.dtype, GetScaleFactors(sc.cd, k).value,
                                    st.storage[k], sc.heapoffset);
      FieldStep(sc, st, k) == Step(Ok(Decoded(col, true)), st.(cache := st.cache[k := Some(col)]))
  {
  }

  /** Once a slot is filled, the raw storage no longer matters: the cached column is what field returns. */
  lemma CacheShadowsStorage(sc: Schema, st: State, k: nat, storage: seq<seq<Cell>>)
    requires Fits(sc, st) && k < NFields(sc) && st.cache[k].Some?
    requires Fits(sc, st.(storage := storage))
    ensures FieldStep(sc, st.(storage := storage), k).result == Ok(Decoded(st.cache[k].value, true))
  {
  }

  /** Columns handed out raw leave their slot empty, and their view is the storage itself. */
  lemma RawColumnsStayUncached(sc: Schema, st: State, k: nat, storage: seq<seq<Cell>>)
    requires Fits(sc, st) && k < NFields(sc) && st.cache[k].None?
    requires GetScaleFactors(sc.cd, k).Ok? && RawPolicy(sc.cd, k, GetScaleFactors(sc.cd, k).value)
    ensures FieldStep(sc, st, k) == Step(Ok(Decoded(st.storage[k], false)), st)
  {
  }

  /** A second `field(k)` returns the same column as the first and changes nothing. */
  lemma FieldIsStable(sc: Schema, st: State, k: nat)
    requires Fits(sc, st) && k < NFields(sc)
    requires FieldStep(sc, st, k).result.Ok?
    ensures var s := FieldStep(sc, st, k);
      FieldStep(sc, s.state, k) == Step(s.result, s.state)
  {
  }

  /** Decoding one column reads only that column's slot and storage. */
  lemma FieldIsLocal(sc: Schema, st: State, st': State, k: nat)
    requires Fits(sc, st) && Fits(sc, st') && k < NFields(sc)
    requires st'.cache[k] == st.cache[k] && st'.storage[k] == st.storage[k]
    ensures FieldStep(sc, st', k).result == FieldStep(sc, st, k).result
    ensures View(sc, st', k) == View(sc, st, k)
  {
  }

  // ---------------------------------------------------------------------------
  // Cell, record and row assignment.

  /**
   * `field(k)[row] = v`: the write goes to the cache slot when the column is cached,
   * and to raw storage when field hands the storage out.
   */
  function SetCellStep(sc: Schema, st: State, k: nat, row: int, v: Cell): (r: Step<()>)
    requires Fits(sc, st) && k < NFields(sc)
    ensures Fits(sc, r.state)
    ensures r.state.starts == st.starts && r.state.heapsize == st.heapsize
    ensures forall j :: 0 <= j < NFields(sc) && j != k ==>
      r.state.cache[j] == st.cache[j] && r.state.storage[j] == st.storage[j]
    ensures r.result.Err? ==> r.state == FieldStep(sc, st, k).state
  {
    var fs := FieldStep(sc, st, k);
    match fs.result
    case Err(e) => Step(Err(e), fs.state)
    case Ok(d) =>
      match Put(d.col, row, v)
      case Err(e) => Step(Err(e), fs.state)
      case Ok(c) =>
        if d.cached then Step(Ok(()), fs.state.(cache := fs.state.cache[k := Some(c)]))
        else Step(Ok(()), fs.state.(storage := fs.state.storage[k := c]))
  }

  /**
   * A cell write succeeds exactly when the column decodes and the row is in range; it
   * changes that one cell of that column's view, and no other column's view.
   */
  lemma SetCellWrites(sc: Schema, st: State, k: nat, row: int, v: Cell)
    requires Fits(sc, st) && k < NFields(sc)
    ensures var r := SetCellStep(sc, st, k, row, v);
      (r.result.Ok? <==> View(sc, st, k).Ok? && Put(View(sc, st, k).value, row, v).Ok?) &&
      (r.result.Ok? ==> View(sc, r.state, k) == Ok(Put(View(sc, st, k).value, row, v).value)) &&
      (r.result.Err? && View(sc, st, k).Ok? ==> r.result.error == IndexOutOfRange) &&
      forall j :: 0 <= j < NFields(sc) && j != k ==> View(sc, r.state, j) == View(sc, st, j)
  {
    var r := SetCellStep(sc, st, k, row, v);
    var fs := FieldStep(sc, st, k);
    forall j | 0 <= j < NFields(sc) && j != k
      ensures View(sc, r.state, j) == View(sc, st, j)
    {
      FieldIsLocal(sc, st, r.state, j);
    }
    if r.result.Ok? && !fs.result.value.cached {
      var f := GetScaleFactors(sc.cd, k);
      assert !sc.cd.recformats[k].kind.Bits?;
      assert f.Ok? && RawPolicy(sc.cd, k, f.value);
      RawColumnsStayUncached(sc, r.state, k, r.state.storage);
    }
  }

  /** `FITS_record.__getitem__(key)`: resolve the key in the window, then `field(indx)[row]`. */
  function RecordGetStep(sc: Schema, st: State, w: Window, key: Key): (r: Step<Cell>)
    requires Fits(sc, st)
    ensures Fits(sc, r.state)
    ensures r.state.storage == st.storage && r.state.starts == st.starts && r.state.heapsize == st.heapsize
    ensures Resolve(sc.cd.names, w, key).Err? ==> r == Step(Err(Resolve(sc.cd.names, w, key).error), st)
    ensures r.result.Ok? ==>
      var k := FieldIndex(sc, Pos(Resolve(sc.cd.names, w, key).value));
      k.Ok? && View(sc, st, k.value).Ok? && At(View(sc, st, k.value).value, w.row) == r.result
  {
    match Resolve(sc.cd.names, w, key)
    case Err(e) => Step(Err(e), st)
    case Ok(indx) =>
      match FieldIndex(sc, Pos(indx))
      case Err(e) => Step(Err(e), st)
      case Ok(k) =>
        var fs := FieldStep(sc, st, k);
        match fs.result
        case Err(e) => Step(Err(e), fs.state)
        case Ok(d) => Step(At(d.col, w.row), fs.state)
  }

  /** `FITS_record.__setitem__(key, v)`: resolve the key in the window, then `field(indx)[row] = v`. */
  function RecordSetStep(sc: Schema, st: State, w: Window, key: Key, v: Cell): (r: Step<()>)
    requires Fits(sc, st)
    ensures Fits(sc, r.state)
    ensures Resolve(sc.cd.names, w, key).Err? ==> r == Step(Err(Resolve(sc.cd.names, w, key).error), st)
    ensures Resolve(sc.cd.names, w, key).Ok? && FieldIndex(sc, Pos(Resolve(sc.cd.names, w, key).value)).Ok? ==>
      r == SetCellStep(sc, st, FieldIndex(sc, Pos(Resolve(sc.cd.names, w, key).value)).value, w.row, v)
  {
    match Resolve(sc.cd.names, w, key)
    case Err(e) => Step(Err(e), st)
    case Ok(indx) =>
      match FieldIndex(sc, Pos(indx))
      case Err(e) => Step(Err(e), st)
      case Ok(k) => SetCellStep(sc, st, k, w.row, v)
  }

  /** Record keys are window-relative: position p of a window names the column start + p. */
  lemma RecordSetWritesResolvedColumn(sc: Schema, st: State, row: int, s: int, e: int, p: int, v: Cell)
    requires Fits(sc, st) && 0 <= s && 0 <= p
    requires p + s < NewWindow(NFields(sc), row, s, e).end
    ensures RecordSetStep(sc, st, NewWindow(NFields(sc), row, s, e), Pos(p), v)
         == SetCellStep(sc, st, p + s, row, v)
  {
    hide SetCellStep;
  }

  /** Columns 0 .. n-1 of a tuple row written in order; the first failure stops the loop. */
  function SetCells(sc: Schema, st: State, row: int, items: seq<Cell>, n: nat): (r: Step<()>)
    requires Fits(sc, st) && n <= |items| == NFields(sc)
    ensures Fits(sc, r.state)
    ensures r.state.starts == st.starts && r.state.heapsize == st.heapsize
    ensures forall j :: n <= j < NFields(sc) ==>
      r.state.cache[j] == st.cache[j] && r.state.storage[j] == st.storage[j]
  {
    if n == 0 then Step(Ok(()), st)
    else
      var prev := SetCells(sc, st, row, items, n - 1);
      if prev.result.Err? then prev
      else SetCellStep(sc, prev.state, n - 1, row, items[n - 1])
  }

  /** Once a step fails, the loop has stopped: later steps change neither the error nor the state. */
  lemma {:induction false} SetCellsStop(sc: Schema, st: State, row: int, items: seq<Cell>, m: nat, n: nat)
    requires Fits(sc, st) && m <= n <= |items| == NFields(sc)
    requires SetCells(sc, st, row, items, m).result.Err?
    ensures SetCells(sc, st, row, items, n) == SetCells(sc, st, row, items, m)
    decreases n
  {
    hide SetCellStep;
    if n > m {
      SetCellsStop(sc, st, row, items, m, n - 1);
    }
  }

  /**
   * Column k copied from a record of this table: `field(names[k])[row] = value.field(names[k])`.
   * The right-hand side is evaluated first.
   */
  function CopyColumnStep(sc: Schema, st: State, row: int, w: Window, k: nat): (r: Step<()>)
    requires Fits(sc, st) && k < NFields(sc)
    ensures Fits(sc, r.state)
    ensures r.state.starts == st.starts && r.state.heapsize == st.heapsize
  {
    var name := sc.cd.names[k];
    var get := RecordGetStep(sc, st, w, Name(name));
    match get.result
    case Err(e) => Step(Err(e), get.state)
    case Ok(v) =>
      match FieldIndex(sc, Name(name))
      case Err(e) => Step(Err(e), get.state)
      case Ok(j) => SetCellStep(sc, get.state, j, row, v)
  }

  /**
   * With distinct column names, copying column k by name from a whole-row record reads the
   * record's position k and writes column k: the name lookups on both sides find column k.
   */
  lemma CopyColumnByPosition(sc: Schema, st: State, row: int, wrow: int, k: nat)
    requires Fits(sc, st) && k < NFields(sc)
    requires forall i, j :: 0 <= i < j < NFields(sc) ==> sc.cd.names[i] != sc.cd.names[j]
    ensures var w := NewWindow(NFields(sc), wrow, 0, 0);
      var get := RecordGetStep(sc, st, w, Pos(k));
      CopyColumnStep(sc, st, row, w, k) ==
        if get.result.Err? then Step(Err(get.result.error), get.state)
        else SetCellStep(sc, get.state, k, row, get.result.value)
  {
    hide SetCellStep;
    hide FieldStep;
    hide FieldDecodes;
    GetIndexOfOwnName(sc.cd.names, k);
  }

  /** Columns 0 .. n-1 copied from a record of this table, in order; the first failure stops the loop. */
  function SetFromRecord(sc: Schema, st: State, row: int, w: Window, n: nat): (r: Step<()>)
    requires Fits(sc, st) && n <= NFields(sc)
    ensures Fits(sc, r.state)
    ensures r.state.starts == st.starts && r.state.heapsize == st.heapsize
  {
    if n == 0 then Step(Ok(()), st)
    else
      var prev := SetFromRecord(sc, st, row, w, n - 1);
      if prev.result.Err? then prev
      else CopyColumnStep(sc, prev.state, row, w, n - 1)
  }

  /** Once a step fails, the loop has stopped: later steps change neither the error nor the state. */
  lemma {:induction false} SetFromRecordStops(sc: Schema, st: State, row: int, w: Window, m: nat, n: nat)
    requires Fits(sc, st) && m <= n <= NFields(sc)
    requires SetFromRecord(sc, st, row, w, m).result.Err?
    ensures SetFromRecord(sc, st, row, w, n) == SetFromRecord(sc, st, row, w, m)
    decreases n
  {
    hide CopyColumnStep;
    if n > m {
      SetFromRecordStops(sc, st, row, w, m, n - 1);
      var prev := SetFromRecord(sc, st, row, w, n - 1);
      assert prev.result.Err?;
      assert SetFromRecord(sc, st, row, w, n) == prev;
    }
  }

  /**
   * Column k can be copied from the record's row to row `row`: it lies in the record's
   * window, it decodes, and both rows are in range.
   */
  ghost predicate Copyable(sc: Schema, st: State, row: int, w: Window, k: nat)
    requires Fits(sc, st) && k < NFields(sc)
  {
    && w.start <= k < w.end
    && View(sc, st, k).Ok?
    && At(View(sc, st, k).value, w.row).Ok?
    && Put(View(sc, st, k).value, row, At(View(sc, st, k).value, w.row).value).Ok?
  }

  /** Column k's view with the record's row copied to row `row`. */
  ghost function Copied(sc: Schema, st: State, row: int, w: Window, k: nat): seq<Cell>
    requires Fits(sc, st) && k < NFields(sc) && Copyable(sc, st, row, w, k)
  {
    Put(View(sc, st, k).value, row, At(View(sc, st, k).value, w.row).value).value
  }

  /** The error copying column k raises when it is not copyable. */
  ghost function CopyError(sc: Schema, st: State, row: int, w: Window, k: nat): Error
    requires Fits(sc, st) && k < NFields(sc)
  {
    if !(w.start <= k < w.end) then NameOutOfWindow
    else if View(sc, st, k).Err? then View(sc, st, k).error
    else IndexOutOfRange
  }

  /** The column views after columns 0 .. n-1 have been copied from the record's row to row `row`. */
  ghost predicate RecordCopied(sc: Schema, st: State, st': State, row: int, w: Window, n: nat)
    requires Fits(sc, st) && Fits(sc, st') && n <= NFields(sc)
  {
    && (forall j :: 0 <= j < n ==> Copyable(sc, st, row, w, j) && View(sc, st', j) == Ok(Copied(sc, st, row, w, j)))
    && (forall j :: n <= j < NFields(sc) ==> View(sc, st', j) == View(sc, st, j))
  }

  /**
   * With distinct column names, copying column k by name succeeds exactly when it is
   * copyable, and then writes the record's cell into row `row` of column k; on failure it
   * raises the column's copy error and leaves the view of column k as it was. No other
   * column's view changes either way.
   */
  lemma CopyColumnMeaning(sc: Schema, st: State, row: int, w: Window, k: nat)
    requires Fits(sc, st) && k < NFields(sc)
    requires forall i, j :: 0 <= i < j < NFields(sc) ==> sc.cd.names[i] != sc.cd.names[j]
    ensures var r := CopyColumnStep(sc, st, row, w, k);
      && (r.result.Ok? <==> Copyable(sc, st, row, w, k))
      && (r.result.Ok? ==> View(sc, r.state, k) == Ok(Copied(sc, st, row, w, k)))
      && (r.result.Err? ==> r.result.error == CopyError(sc, st, row, w, k) && View(sc, r.state, k) == View(sc, st, k))
      && (forall j :: 0 <= j < NFields(sc) && j != k ==> View(sc, r.state, j) == View(sc, st, j))
  {
    hide SetCellStep;
    GetIndexOfOwnName(sc.cd.names, k);
    var r := CopyColumnStep(sc, st, row, w, k);
    var get := RecordGetStep(sc, st, w, Name(sc.cd.names[k]));
    forall j | 0 <= j < NFields(sc) && j != k
      ensures View(sc, get.state, j) == View(sc, st, j)
    {
      FieldIsLocal(sc, st, get.state, j);
    }
    if w.start <= k < w.end {
      var fs := FieldStep(sc, st, k);
      assert get.state == fs.state;
      if fs.result.Ok? {
        FieldIsStable(sc, st, k);
        assert View(sc, get.state, k) == View(sc, st, k);
        if get.result.Ok? {
          assert r == SetCellStep(sc, get.state, k, row, get.result.value);
          SetCellWrites(sc, get.state, k, row, get.result.value);
        }
      }
    }
  }

  /**
   * With distinct column names, copying columns 0 .. n-1 from a record succeeds exactly
   * when every one of them is copyable, and then column j holds the record's cell at row
   * `row`, read before the loop, and the later columns are unchanged.
   */
  lemma {:induction false} SetFromRecordMeaning(sc: Schema, st: State, row: int, w: Window, n: nat)
    requires Fits(sc, st) && n <= NFields(sc)
    requires forall i, j :: 0 <= i < j < NFields(sc) ==> sc.cd.names[i] != sc.cd.names[j]
    ensures var r := SetFromRecord(sc, st, row, w, n);
      && (r.result.Ok? <==> forall j :: 0 <= j < n ==> Copyable(sc, st, row, w, j))
      && (r.result.Ok? ==> RecordCopied(sc, st, r.state, row, w, n))
  {
    hide CopyColumnStep;
    hide FieldStep;
    hide FieldDecodes;
    hide View;
    if n > 0 {
      SetFromRecordMeaning(sc, st, row, w, n - 1);
      var prev := SetFromRecord(sc, st, row, w, n - 1);
      if prev.result.Ok? {
        var r := CopyColumnStep(sc, prev.state, row, w, n - 1);
        assert r == SetFromRecord(sc, st, row, w, n);
        CopyColumnMeaning(sc, prev.state, row, w, n - 1);
        CopiedFromSameView(sc, st, prev.state, row, w, n - 1);
        if r.result.Ok? {
          assert RecordCopied(sc, st, r.state, row, w, n);
        }
      }
    }
  }

  /** Copyability and the copied column depend only on the column's view. */
  lemma CopiedFromSameView(sc: Schema, st: State, st': State, row: int, w: Window, k: nat)
    requires Fits(sc, st) && Fits(sc, st') && k < NFields(sc)
    requires View(sc, st', k) == View(sc, st, k)
    ensures Copyable(sc, st', row, w, k) == Copyable(sc, st, row, w, k)
    ensures CopyError(sc, st', row, w, k) == CopyError(sc, st, row, w, k)
    ensures Copyable(sc, st, row, w, k) ==> Copied(sc, st', row, w, k) == Copied(sc, st, row, w, k)
  {
  }

  /**
   * With distinct column names, when column m is the first that is not copyable, the loop
   * raises its copy error there, after columns 0 .. m-1 have been copied.
   */
  lemma SetFromRecordFails(sc: Schema, st: State, row: int, w: Window, n: nat, m: nat)
    requires Fits(sc, st) && m < n <= NFields(sc)
    requires forall i, j :: 0 <= i < j < NFields(sc) ==> sc.cd.names[i] != sc.cd.names[j]
    requires forall j :: 0 <= j < m ==> Copyable(sc, st, row, w, j)
    requires !Copyable(sc, st, row, w, m)
    ensures var r := SetFromRecord(sc, st, row, w, n);
      r.result == Err(CopyError(sc, st, row, w, m)) && RecordCopied(sc, st, r.state, row, w, m)
  {
    hide CopyColumnStep;
    hide FieldStep;
    hide FieldDecodes;
    hide View;
    SetFromRecordMeaning(sc, st, row, w, m);
    var prev := SetFromRecord(sc, st, row, w, m);
    var r := CopyColumnStep(sc, prev.state, row, w, m);
    assert r == SetFromRecord(sc, st, row, w, m + 1);
    CopyColumnMeaning(sc, prev.state, row, w, m);
    CopiedFromSameView(sc, st, prev.state, row, w, m);
    assert RecordCopied(sc, st, r.state, row, w, m);
    SetFromRecordStops(sc, st, row, w, m + 1, n);
  }

  /**
   * `FITS_rec.__setitem__(row, value)`: a record is copied column by column; a tuple or
   * list must have one item per column; anything else is refused.
   */
  function SetRowStep(sc: Schema, st: State, row: int, value: RowValue): (r: Step<()>)
    requires Fits(sc, st)
    ensures Fits(sc, r.state)
    ensures r.state.starts == st.starts && r.state.heapsize == st.heapsize
    ensures value.Scalar? ==> r == Step(Err(UnsupportedAssignment), st)
    ensures value.Items? && |value.items| != NFields(sc) ==> r == Step(Err(ArityMismatch), st)
  {
    match value
    case RecordOf(w) => SetFromRecord(sc, st, row, w, NFields(sc))
    case Items(items) =>
      if NFields(sc) == |items| then SetCells(sc, st, row, items, NFields(sc))
      else Step(Err(ArityMismatch), st)
    case Scalar(_) => Step(Err(UnsupportedAssignment), st)
  }

  /**
   * `table[row] = table[wrow]`, with distinct names and every column decoding to one cell
   * per row: the assignment succeeds, row `row` of every column's view then holds that
   * column's cell at `wrow`, and every other row keeps its value.
   */
  lemma SetFromRecordWrites(sc: Schema, st: State, row: nat, wrow: nat)
    requires Fits(sc, st) && row < sc.nrows && wrow < sc.nrows
    requires forall i, j :: 0 <= i < j < NFields(sc) ==> sc.cd.names[i] != sc.cd.names[j]
    requires forall k :: 0 <= k < NFields(sc) ==> View(sc, st, k).Ok? && |View(sc, st, k).value| == sc.nrows
    ensures var r := SetRowStep(sc, st, row, RecordOf(NewWindow(NFields(sc), wrow, 0, 0)));
      && r.result.Ok?
      && forall k :: 0 <= k < NFields(sc) ==>
        View(sc, r.state, k).Ok? && |View(sc, r.state, k).value| == sc.nrows &&
        forall i :: 0 <= i < sc.nrows ==>
          View(sc, r.state, k).value[i] == if i == row then View(sc, st, k).value[wrow] else View(sc, st, k).value[i]
  {
    hide FieldStep;
    hide FieldDecodes;
    hide View;
    hide SetFromRecord;
    var w := NewWindow(NFields(sc), wrow, 0, 0);
    SetFromRecordMeaning(sc, st, row, w, NFields(sc));
  }

  /**
   * A record whose window ends at column e before the last: copying columns 0 .. e-1
   * succeeds, then the name of column e falls outside the window and KeyError is raised,
   * with columns 0 .. e-1 already copied and the rest untouched.
   */
  lemma SetFromRecordStopsAtWindowEnd(sc: Schema, st: State, row: nat, wrow: nat, e: nat)
    requires Fits(sc, st) && row < sc.nrows && wrow < sc.nrows && 0 < e < NFields(sc)
    requires forall i, j :: 0 <= i < j < NFields(sc) ==> sc.cd.names[i] != sc.cd.names[j]
    requires forall k :: 0 <= k < NFields(sc) ==> View(sc, st, k).Ok? && |View(sc, st, k).value| == sc.nrows
    ensures var w := NewWindow(NFields(sc), wrow, 0, e);
      var r := SetRowStep(sc, st, row, RecordOf(w));
      r.result == Err(NameOutOfWindow) && RecordCopied(sc, st, r.state, row, w, e)
  {
    hide FieldStep;
    hide FieldDecodes;
    hide View;
    hide SetFromRecord;
    var w := NewWindow(NFields(sc), wrow, 0, e);
    SetFromRecordFails(sc, st, row, w, NFields(sc), e);
  }

  /** A record whose window starts after column 0 is refused at column 0, and nothing changes. */
  lemma SetFromOffsetRecordFails(sc: Schema, st: State, row: int, w: Window)
    requires Fits(sc, st) && NFields(sc) > 0 && w.start > 0
    ensures SetRowStep(sc, st, row, RecordOf(w)) == Step(Err(NameOutOfWindow), st)
  {
    assert CopyColumnStep(sc, st, row, w, 0) == Step(Err(NameOutOfWindow), st);
    assert SetFromRecord(sc, st, row, w, 1) == Step(Err(NameOutOfWindow), st);
    SetFromRecordStops(sc, st, row, w, 1, NFields(sc));
  }

  /** The column views after item i of a tuple row has been written into each column i < n. */
  ghost predicate RowWritten(sc: Schema, st: State, st': State, row: int, items: seq<Cell>, n: nat)
    requires Fits(sc, st) && Fits(sc, st') && n <= |items| == NFields(sc)
  {
    (forall j :: 0 <= j < n ==>
      View(sc, st, j).Ok? && Put(View(sc, st, j).value, row, items[j]).Ok? &&
      View(sc, st', j) == Ok(Put(View(sc, st, j).value, row, items[j]).value)) &&
    (forall j :: n <= j < NFields(sc) ==> View(sc, st', j) == View(sc, st, j))
  }

  /**
   * A tuple row that is assigned without error puts item k at the row in column k's view,
   * leaves every other row of every column as it was, and leaves the later columns alone.
   */
  lemma {:induction false} SetCellsWrites(sc: Schema, st: State, row: int, items: seq<Cell>, n: nat)
    requires Fits(sc, st) && n <= |items| == NFields(sc)
    requires SetCells(sc, st, row, items, n).result.Ok?
    ensures RowWritten(sc, st, SetCells(sc, st, row, items, n).state, row, items, n)
  {
    hide SetCellStep;
    hide FieldStep;
    hide FieldDecodes;
    hide View;
    if n > 0 {
      hide RowWritten;
      var prev := SetCells(sc, st, row, items, n - 1);
      SetCellsWrites(sc, st, row, items, n - 1);
      var r := SetCellStep(sc, prev.state, n - 1, row, items[n - 1]);
      assert r == SetCells(sc, st, row, items, n);
      SetCellWrites(sc, prev.state, n - 1, row, items[n - 1]);
      RowWrittenStep(sc, st, prev.state, r.state, row, items, n);
    }
  }

  /** One more item written: the views after item n-1 extend those after the first n-1 items. */
  lemma RowWrittenStep(sc: Schema, st: State, mid: State, after: State, row: int, items: seq<Cell>, n: nat)
    requires Fits(sc, st) && Fits(sc, mid) && Fits(sc, after) && 0 < n <= |items| == NFields(sc)
    requires RowWritten(sc, st, mid, row, items, n - 1)
    requires View(sc, mid, n - 1).Ok? && Put(View(sc, mid, n - 1).value, row, items[n - 1]).Ok?
    requires View(sc, after, n - 1) == Ok(Put(View(sc, mid, n - 1).value, row, items[n - 1]).value)
    requires forall j :: 0 <= j < NFields(sc) && j != n - 1 ==> View(sc, after, j) == View(sc, mid, j)
    ensures RowWritten(sc, st, after, row, items, n)
  {
    hide View;
    assert View(sc, mid, n - 1) == View(sc, st, n - 1);
  }

  /** Whole-row assignment from a tuple: item k lands in column k at the row, and nothing else changes. */
  lemma SetRowWrites(sc: Schema, st: State, row: int, items: seq<Cell>)
    requires Fits(sc, st) && |items| == NFields(sc)
    requires SetRowStep(sc, st, row, Items(items)).result.Ok?
    ensures var st' := SetRowStep(sc, st, row, Items(items)).state;
      forall k :: 0 <= k < NFields(sc) ==>
        View(sc, st, k).Ok? && View(sc, st', k).Ok? &&
        |View(sc, st', k).value| == |View(sc, st, k).value| &&
        forall i :: 0 <= i < |View(sc, st, k).value| ==>
          View(sc, st', k).value[i] ==
            if i == row || i == row + |View(sc, st, k).value| then items[k] else View(sc, st, k).value[i]
  {
    SetCellsWrites(sc, st, row, items, NFields(sc));
  }

  // ---------------------------------------------------------------------------
  // Slice assignment.

  /**
   * The rows `__setslice__(start, end, value)` assigns: [s0, e0). Every one is a row of the
   * table, every value index it reads is in range, an in-range call assigns exactly
   * [start, start + count), and a start past the end or an end at or before 0 assigns nothing.
   */
  function SetSliceRange(nrows: nat, start: int, end: int, count: nat): (r: (nat, nat))
    ensures r.0 == if start < 0 then 0 else start
    ensures r.1 <= nrows && r.1 <= r.0 + count && r.1 <= (if end < 0 then 0 else end)
    ensures 0 <= start && start + count <= end && end <= nrows ==> r == (start, start + count)
    ensures start >= nrows || end <= 0 ==> r.1 <= r.0
    ensures r.0 < r.1 ==> r.1 == nrows || r.1 == end || r.1 == r.0 + count
  {
    var e1 := if nrows < end then nrows else end;
    var e2 := if e1 < 0 then 0 else e1;
    var s0 := if start < 0 then 0 else start;
    (s0, if e2 < s0 + count then e2 else s0 + count)
  }

  /** Rows s0 .. s0+m-1 assigned from value[0 .. m-1] in order; the first failure stops the loop. */
  function SetRows(sc: Schema, st: State, s0: nat, values: seq<RowValue>, m: nat): (r: Step<()>)
    requires Fits(sc, st) && m <= |values|
    ensures Fits(sc, r.state)
    ensures r.state.starts == st.starts && r.state.heapsize == st.heapsize
  {
    if m == 0 then Step(Ok(()), st)
    else
      var prev := SetRows(sc, st, s0, values, m - 1);
      if prev.result.Err? then prev
      else SetRowStep(sc, prev.state, s0 + m - 1, values[m - 1])
  }

  /** Once a step fails, the loop has stopped: later steps change neither the error nor the state. */
  lemma {:induction false} SetRowsStop(sc: Schema, st: State, s0: nat, values: seq<RowValue>, m: nat, n: nat)
    requires Fits(sc, st) && m <= n <= |values|
    requires SetRows(sc, st, s0, values, m).result.Err?
    ensures SetRows(sc, st, s0, values, n) == SetRows(sc, st, s0, values, m)
    decreases n
  {
    hide SetRowStep;
    if n > m {
      SetRowsStop(sc, st, s0, values, m, n - 1);
      var prev := SetRows(sc, st, s0, values, n - 1);
      assert prev.result.Err?;
      assert SetRows(sc, st, s0, values, n) == prev;
    }
  }

  /** `FITS_rec.__setslice__(start, end, value)`. */
  function SetSliceStep(sc: Schema, st: State, start: int, end: int, values: seq<RowValue>): (r: Step<()>)
    requires Fits(sc, st)
    ensures Fits(sc, r.state)
    ensures var range := SetSliceRange(sc.nrows, start, end, |values|);
      range.1 <= range.0 ==> r == Step(Ok(()), st)
  {
    var range := SetSliceRange(sc.nrows, start, end, |values|);
    if range.1 <= range.0 then Step(Ok(()), st) else SetRows(sc, st, range.0, values, range.1 - range.0)
  }

  /** One more row assigned after m rows that succeeded. */
  lemma SetRowsNext(sc: Schema, st: State, s0: nat, values: seq<RowValue>, m: nat, mid: State, r: Result<()>, after: State)
    requires Fits(sc, st) && m < |values|
    requires SetRows(sc, st, s0, values, m) == Step(Ok(()), mid)
    requires SetRowStep(sc, mid, s0 + m, values[m]) == Step(r, after)
    ensures SetRows(sc, st, s0, values, m + 1) == Step(r, after)
  {
  }

  /** A slice with at least one row to assign is the row loop over its clamped range. */
  lemma SetSliceRuns(sc: Schema, st: State, start: int, end: int, values: seq<RowValue>, s0: nat, e0: nat)
    requires Fits(sc, st)
    requires SetSliceRange(sc.nrows, start, end, |values|) == (s0, e0) && s0 < e0
    ensures e0 - s0 <= |values|
    ensures SetSliceStep(sc, st, start, end, values) == SetRows(sc, st, s0, values, e0 - s0)
  {
    hide SetRows;
  }

  /** Every value is a tuple with one item per column. */
  ghost predicate AllTuples(sc: Schema, values: seq<RowValue>)
  {
    forall i :: 0 <= i < |values| ==> values[i].Items? && |values[i].items| == NFields(sc)
  }

  /** After rows s0 .. s0+m-1 are assigned from tuples, each column's view holds the tuples' items there. */
  ghost predicate RowsWritten(sc: Schema, st: State, st': State, s0: nat, values: seq<RowValue>, m: nat)
    requires Fits(sc, st) && Fits(sc, st') && m <= |values| && AllTuples(sc, values)
  {
    forall k :: 0 <= k < NFields(sc) ==>
      View(sc, st, k).Ok? && View(sc, st', k).Ok? &&
      |View(sc, st', k).value| == |View(sc, st, k).value| &&
      forall i :: 0 <= i < |View(sc, st, k).value| ==>
        View(sc, st', k).value[i] ==
          if s0 <= i < s0 + m then values[i - s0].items[k] else View(sc, st, k).value[i]
  }

  lemma {:induction false} SetRowsWrites(sc: Schema, st: State, s0: nat, values: seq<RowValue>, m: nat)
    requires Fits(sc, st) && m <= |values| && AllTuples(sc, values)
    requires SetRows(sc, st, s0, values, m).result.Ok?
    requires forall k :: 0 <= k < NFields(sc) ==> View(sc, st, k).Ok?
    ensures RowsWritten(sc, st, SetRows(sc, st, s0, values, m).state, s0, values, m)
  {
    hide SetRowStep;
    hide SetCells;
    hide SetFromRecord;
    hide FieldDecodes;
    if m > 0 {
      var prev := SetRows(sc, st, s0, values, m - 1);
      SetRowsWrites(sc, st, s0, values, m - 1);
      var items := values[m - 1].items;
      SetRowWrites(sc, prev.state, s0 + m - 1, items);
    }
  }

  /**
   * A slice assignment from tuples that succeeds writes row i from value[i - s0] exactly
   * for the rows i in [s0, e0), and every other row of every column keeps its value.
   */
  lemma SetSliceWrites(sc: Schema, st: State, start: int, end: int, values: seq<RowValue>)
    requires Fits(sc, st) && AllTuples(sc, values)
    requires forall k :: 0 <= k < NFields(sc) ==> View(sc, st, k).Ok?
    requires SetSliceStep(sc, st, start, end, values).result.Ok?
    ensures var (s0, e0) := SetSliceRange(sc.nrows, start, end, |values|);
      var st' := SetSliceStep(sc, st, start, end, values).state;
      forall k :: 0 <= k < NFields(sc) ==>
        View(sc, st', k).Ok? && |View(sc, st', k).value| == |View(sc, st, k).value| &&
        forall i :: 0 <= i < |View(sc, st, k).value| ==>
          View(sc, st', k).value[i] ==
            if s0 <= i < e0 then values[i - s0].items[k] else View(sc, st, k).value[i]
  {
    hide SetRowStep;
    hide SetRows;
    hide FieldStep;
    hide FieldDecodes;
    hide View;
    var (s0, e0) := SetSliceRange(sc.nrows, start, end, |values|);
    if s0 < e0 {
      SetRowsWrites(sc, st, s0, values, e0 - s0);
    }
  }

  // ---------------------------------------------------------------------------
  // Slicing: `FITS_rec.__getitem__` with a slice.

  /** `field(idx)` touched for columns 0 .. n-1, as slicing does before copying the cache. */
  function FieldAll(sc: Schema, st: State, n: nat): (r: Step<()>)
    requires Fits(sc, st) && n <= NFields(sc)
    ensures Fits(sc, r.state)
    ensures r.state.storage == st.storage && r.state.starts == st.starts && r.state.heapsize == st.heapsize
    ensures forall j :: 0 <= j < NFields(sc) && st.cache[j].Some? ==> r.state.cache[j] == st.cache[j]
    ensures forall j :: n <= j < NFields(sc) ==> r.state.cache[j] == st.cache[j]
  {
    if n == 0 then Step(Ok(()), st)
    else
      var prev := FieldAll(sc, st, n - 1);
      if prev.result.Err? then prev
      else
        var fs := FieldStep(sc, prev.state, n - 1);
        Step(if fs.result.Ok? then Ok(()) else Err(fs.result.error), fs.state)
  }

  /** One more column touched after m columns that succeeded. */
  lemma FieldAllNext(sc: Schema, st: State, m: nat, mid: State, r: Result<()>, after: State)
    requires Fits(sc, st) && m < NFields(sc)
    requires FieldAll(sc, st, m) == Step(Ok(()), mid)
    requires FieldStep(sc, mid, m).state == after
    requires r.Ok? <==> FieldStep(sc, mid, m).result.Ok?
    requires r.Err? ==> r.error == FieldStep(sc, mid, m).result.error
    ensures FieldAll(sc, st, m + 1) == Step(r, after)
  {
    hide FieldStep;
    hide FieldDecodes;
    if r.Ok? {
      assert r.value == ();
    }
  }

  /** Once a step fails, the loop has stopped: later steps change neither the error nor the state. */
  lemma {:induction false} FieldAllStops(sc: Schema, st: State, m: nat, n: nat)
    requires Fits(sc, st) && m <= n <= NFields(sc)
    requires FieldAll(sc, st, m).result.Err?
    ensures FieldAll(sc, st, n) == FieldAll(sc, st, m)
    decreases n
  {
    hide FieldAll, FieldStep;
    if n > m {
      FieldAllStops(sc, st, m, n - 1);
      FieldAllAfterError(sc, st, n);
    }
  }

  lemma FieldAllAfterError(sc: Schema, st: State, n: nat)
    requires Fits(sc, st) && 0 < n <= NFields(sc)
    requires FieldAll(sc, st, n - 1).result.Err?
    ensures FieldAll(sc, st, n) == FieldAll(sc, st, n - 1)
  {
    hide FieldStep;
    hide FieldDecodes;
  }

  /** After touching columns 0 .. n-1 without error, each of them is cached, or handed out raw. */
  lemma {:induction false} FieldAllMaterialises(sc: Schema, st: State, n: nat)
    requires Fits(sc, st) && n <= NFields(sc)
    requires FieldAll(sc, st, n).result.Ok?
    ensures forall j :: 0 <= j < n ==>
      FieldAll(sc, st, n).state.cache[j].Some? ||
      (GetScaleFactors(sc.cd, j).Ok? && RawPolicy(sc.cd, j, GetScaleFactors(sc.cd, j).value))
  {
    if n > 0 {
      hide FieldStep;
      hide FieldDecodes;
      FieldAllMaterialises(sc, st, n - 1);
      var prev := FieldAll(sc, st, n - 1);
      FieldStepMaterialises(sc, prev.state, n - 1);
      assert FieldAll(sc, st, n).state == FieldStep(sc, prev.state, n - 1).state;
    }
  }

  /** A column that `field` decodes without error is cached afterwards, or is handed out raw. */
  lemma FieldStepMaterialises(sc: Schema, st: State, k: nat)
    requires Fits(sc, st) && k < NFields(sc)
    requires FieldStep(sc, st, k).result.Ok?
    ensures FieldStep(sc, st, k).state.cache[k].Some? ||
      (GetScaleFactors(sc.cd, k).Ok? && RawPolicy(sc.cd, k, GetScaleFactors(sc.cd, k).value))
  {
    hide DecodeField;
    if st.cache[k].None? && !FieldStep(sc, st, k).result.value.cached {
      assert !sc.cd.recformats[k].kind.Bits?;
    }
  }

  /** A slice of a table: the parent rows [lo, hi) it views and its own state. */
  datatype Child = Child(lo: nat, hi: nat, state: State)

  /** The child's cache: each filled slot of the parent, sliced with the same bounds. */
  function SliceCache(cache: seq<Option<seq<Cell>>>, i: int, j: int): (r: seq<Option<seq<Cell>>>)
    ensures |r| == |cache|
    ensures forall k :: 0 <= k < |cache| ==>
      (r[k].Some? <==> cache[k].Some?) && (cache[k].Some? ==> r[k].value == SliceOf(cache[k].value, i, j))
  {
    seq(|cache|, k requires 0 <= k < |cache| => SliceSlot(cache[k], i, j))
  }

  /** One slot of the child's cache. */
  function SliceSlot(slot: Option<seq<Cell>>, i: int, j: int): Option<seq<Cell>>
  {
    match slot case None => None case Some(c) => Some(SliceOf(c, i, j))
  }

  /**
   * `FITS_rec[i:j]`: every column of the parent is touched first, then the child views
   * rows [lo, hi) of the parent's storage and copies each filled cache slot, sliced.
   * With no columns the touch loop never binds `dummy`, and `del dummy` raises NameError.
   */
  function SliceStep(sc: Schema, st: State, i: int, j: int): (r: Step<Child>)
    requires Fits(sc, st)
    ensures Fits(sc, r.state)
    ensures r.state == FieldAll(sc, st, NFields(sc)).state
    ensures NFields(sc) == 0 ==> r == Step(Err(UnboundName), st)
    ensures r.result.Ok? <==> NFields(sc) > 0 && FieldAll(sc, st, NFields(sc)).result.Ok?
    ensures r.result.Err? && NFields(sc) > 0 ==> r.result.error == FieldAll(sc, st, NFields(sc)).result.error
    ensures r.result.Ok? ==>
      var c := r.result.value;
      (c.lo, c.hi) == SliceBounds(i, j, sc.nrows) &&
      Fits(sc.(nrows := c.hi - c.lo), c.state) &&
      c.state.cache == SliceCache(r.state.cache, i, j) &&
      c.state.starts == st.starts &&
      forall k, n :: 0 <= k < NFields(sc) && 0 <= n < c.hi - c.lo ==>
        c.state.storage[k][n] == st.storage[k][c.lo + n]
  {
    var all := FieldAll(sc, st, NFields(sc));
    match all.result
    case Err(e) => Step(Err(e), all.state)
    case Ok(_) =>
      if NFields(sc) == 0 then Step(Err(UnboundName), all.state)
      else
        var (lo, hi) := SliceBounds(i, j, sc.nrows);
        var p := all.state;
        var storage := seq(NFields(sc), k requires 0 <= k < NFields(sc) => p.storage[k][lo..hi]);
        Step(Ok(Child(lo, hi, State(SliceCache(p.cache, i, j), storage, p.starts, p.heapsize))), p)
  }

  /** After slicing, the parent has cached every column it does not hand out raw, and so has the child. */
  lemma SliceMaterialisesParent(sc: Schema, st: State, i: int, j: int)
    requires Fits(sc, st)
    requires SliceStep(sc, st, i, j).result.Ok?
    ensures var r := SliceStep(sc, st, i, j);
      forall k :: 0 <= k < NFields(sc) ==>
        (r.state.cache[k].Some? ||
         (GetScaleFactors(sc.cd, k).Ok? && RawPolicy(sc.cd, k, GetScaleFactors(sc.cd, k).value))) &&
        (r.result.value.state.cache[k].Some? <==> r.state.cache[k].Some?)
  {
    FieldAllMaterialises(sc, st, NFields(sc));
  }

  // ---------------------------------------------------------------------------
  // `FITS_record.__str__`.

  /** Column k can be printed at the row: it decodes, and the row is in range. */
  ghost predicate Printable(sc: Schema, st: State, row: int, k: nat)
    requires Fits(sc, st) && k < NFields(sc)
  {
    View(sc, st, k).Ok? && At(View(sc, st, k).value, row).Ok?
  }

  /** What `__str__` prints for a printable column: the repr of the column's cell at the row. */
  ghost function Shown(sc: Schema, st: State, row: int, k: nat): string
    requires Fits(sc, st) && k < NFields(sc) && Printable(sc, st, row, k)
  {
    sc.codec.repr(At(View(sc, st, k).value, row).value)
  }

  /** The repr of `field(k)[row]`. */
  function ReprStep(sc: Schema, st: State, row: int, k: nat): (r: Step<string>)
    requires Fits(sc, st) && k < NFields(sc)
    ensures Fits(sc, r.state)
    ensures r.state == FieldStep(sc, st, k).state
    ensures r.result.Ok? <==> Printable(sc, st, row, k)
    ensures r.result.Ok? ==> r.result.value == Shown(sc, st, row, k)
    ensures r.result.Err? && View(sc, st, k).Ok? ==> r.result.error == IndexOutOfRange
  {
    var fs := FieldStep(sc, st, k);
    match fs.result
    case Err(e) => Step(Err(e), fs.state)
    case Ok(d) =>
      match At(d.col, row)
      case Err(e) => Step(Err(e), fs.state)
      case Ok(c) => Step(Ok(sc.codec.repr(c)), fs.state)
  }

  /** The repr of `field(idx)[row]` for the window's columns among the first m, in column order. */
  function StrParts(sc: Schema, st: State, w: Window, m: nat): (r: Step<seq<string>>)
    requires Fits(sc, st) && m <= NFields(sc)
    ensures Fits(sc, r.state)
    ensures r.state.storage == st.storage
    ensures forall j :: m <= j < NFields(sc) ==> r.state.cache[j] == st.cache[j]
    ensures r.result.Ok? ==> |r.result.value| == |WindowColumns(w, m)|
    ensures m == 0 ==> r == Step(Ok([]), st)
  {
    if m == 0 then Step(Ok([]), st)
    else
      var prev := StrParts(sc, st, w, m - 1);
      if prev.result.Err? || !(w.start <= m - 1 < w.end) then prev
      else
        var p := ReprStep(sc, prev.state, w.row, m - 1);
        match p.result
        case Err(e) => Step(Err(e), p.state)
        case Ok(x) => Step(Ok(prev.result.value + [x]), p.state)
  }

  /** One more window column printed after m columns whose parts succeeded. */
  lemma StrPartsNext(sc: Schema, st: State, w: Window, m: nat, parts: seq<string>, mid: State,
                     x: Result<string>, after: State)
    requires Fits(sc, st) && m < NFields(sc) && w.start <= m < w.end
    requires StrParts(sc, st, w, m) == Step(Ok(parts), mid)
    requires ReprStep(sc, mid, w.row, m) == Step(x, after)
    ensures StrParts(sc, st, w, m + 1) == Step(if x.Ok? then Ok(parts + [x.value]) else Err(x.error), after)
  {
    hide ReprStep;
  }

  /** A column outside the window adds no part and changes nothing. */
  lemma StrPartsSkip(sc: Schema, st: State, w: Window, m: nat)
    requires Fits(sc, st) && m < NFields(sc) && !(w.start <= m < w.end)
    ensures StrParts(sc, st, w, m + 1) == StrParts(sc, st, w, m)
  {
    hide ReprStep;
  }

  /**
   * The parts succeed exactly when every column of the window among the first m is
   * printable, and part t is what the window's t-th column shows, read in the state
   * before the call: decoding a column on the way does not change what a later one shows.
   */
  lemma {:induction false} StrPartsMeaning(sc: Schema, st: State, w: Window, m: nat)
    requires Fits(sc, st) && m <= NFields(sc)
    ensures var r := StrParts(sc, st, w, m);
      var cols := WindowColumns(w, m);
      (r.result.Ok? <==> forall t :: 0 <= t < |cols| ==> Printable(sc, st, w.row, cols[t])) &&
      (r.result.Ok? ==> forall t :: 0 <= t < |cols| ==> r.result.value[t] == Shown(sc, st, w.row, cols[t]))
  {
    hide FieldDecodes;
    hide FieldStep;
    hide FieldDecodes;
    hide View;
    hide ReprStep;
    hide Printable;
    hide Shown;
    if m > 0 {
      StrPartsMeaning(sc, st, w, m - 1);
      var prev := StrParts(sc, st, w, m - 1);
      var cols := WindowColumns(w, m - 1);
      var r := StrParts(sc, st, w, m);
      if prev.result.Err? || !(w.start <= m - 1 < w.end) {
        assert r == prev;
        assert WindowColumns(w, m)[..|cols|] == cols;
        if !(w.start <= m - 1 < w.end) {
          assert WindowColumns(w, m) == cols;
        }
      } else {
        var p := ReprStep(sc, prev.state, w.row, m - 1);
        PrintableIsLocal(sc, st, prev.state, w.row, m - 1);
        assert WindowColumns(w, m) == cols + [m - 1];
        if p.result.Ok? {
          assert r.result.value == prev.result.value + [p.result.value];
        } else {
          assert WindowColumns(w, m)[|cols|] == m - 1 && !Printable(sc, st, w.row, m - 1);
        }
      }
    }
  }

  /** Once a step fails, the loop has stopped: later steps change neither the error nor the state. */
  lemma {:induction false} StrPartsStop(sc: Schema, st: State, w: Window, m: nat, n: nat)
    requires Fits(sc, st) && m <= n <= NFields(sc)
    requires StrParts(sc, st, w, m).result.Err?
    ensures StrParts(sc, st, w, n) == StrParts(sc, st, w, m)
    decreases n
  {
    hide FieldDecodes;
    hide ReprStep;
    hide FieldStep;
    hide FieldDecodes;
    hide View;
    if n > m {
      StrPartsStop(sc, st, w, m, n - 1);
    }
  }

  /** Python's `sep.join(parts)`: the parts in order with `sep` between neighbours. */
  function Join(parts: seq<string>, sep: string): (r: string)
    ensures |parts| == 0 ==> r == ""
    ensures |parts| == 1 ==> r == parts[0]
    ensures |parts| >= 1 ==> |parts[0]| <= |r| && r[..|parts[0]|] == parts[0]
    ensures |parts| >= 1 ==> |parts[|parts| - 1]| <= |r| && r[|r| - |parts[|parts| - 1]|..] == parts[|parts| - 1]
    ensures |parts| >= 2 ==> |r| >= |parts[0]| + |sep| + |parts[|parts| - 1]|
  {
    if |parts| == 0 then ""
    else if |parts| == 1 then parts[0]
    else Join(parts[..|parts| - 1], sep) + sep + parts[|parts| - 1]
  }

  /** Three parts are joined as `a + sep + b + sep + c`, the tuple text of a three-column record. */
  lemma JoinThree(a: string, b: string, c: string, sep: string)
    ensures Join([a, b, c], sep) == a + sep + b + sep + c
  {
    assert [a, b, c][..2] == [a, b];
    assert [a, b][..1] == [a];
  }

  /** What a column shows depends only on its own slot and raw column. */
  lemma PrintableIsLocal(sc: Schema, st: State, st': State, row: int, k: nat)
    requires Fits(sc, st) && Fits(sc, st') && k < NFields(sc)
    requires st'.cache[k] == st.cache[k] && st'.storage[k] == st.storage[k]
    ensures Printable(sc, st', row, k) == Printable(sc, st, row, k)
    ensures Printable(sc, st, row, k) ==> Shown(sc, st', row, k) == Shown(sc, st, row, k)
  {
    FieldIsLocal(sc, st, st', k);
  }

  /** `FITS_record.__str__`: `'(%s)' % ', '.join(parts)`. */
  function RecordStrStep(sc: Schema, st: State, w: Window): (r: Step<string>)
    requires Fits(sc, st)
    ensures Fits(sc, r.state)
    ensures r.result.Ok? <==> StrParts(sc, st, w, NFields(sc)).result.Ok?
    ensures r.result.Ok? ==> r.result.value == "(" + Join(StrParts(sc, st, w, NFields(sc)).result.value, ", ") + ")"
    ensures r.result.Ok? ==> |r.result.value| >= 2 && r.result.value[0] == '(' && r.result.value[|r.result.value| - 1] == ')'
  {
    var p := StrParts(sc, st, w, NFields(sc));
    match p.result
    case Err(e) => Step(Err(e), p.state)
    case Ok(parts) => Step(Ok("(" + Join(parts, ", ") + ")"), p.state)
  }

  /**
   * For a record opened at a non-negative start s, `__str__` joins exactly Len parts (none
   * when Len is negative), part t is what column s + t shows at the record's row, and the
   * call fails exactly when one of those columns is not printable.
   */
  lemma StrShowsWindow(sc: Schema, st: State, row: int, s: int, e: int)
    requires Fits(sc, st) && 0 <= s
    ensures var w := NewWindow(NFields(sc), row, s, e);
      var n := Clamp(Len(w, NFields(sc)));
      var p := StrParts(sc, st, w, NFields(sc));
      && (p.result.Ok? <==> forall k :: s <= k < s + n ==> k < NFields(sc) && Printable(sc, st, row, k))
      && (p.result.Ok? ==> |p.result.value| == n)
      && (p.result.Ok? ==> forall k :: s <= k < s + n ==>
            k < NFields(sc) && Printable(sc, st, row, k) && p.result.value[k - s] == Shown(sc, st, row, k))
  {
    hide StrParts;
    var w := NewWindow(NFields(sc), row, s, e);
    var cols := WindowColumns(w, NFields(sc));
    var p := StrParts(sc, st, w, NFields(sc));
    StrCoversLen(NFields(sc), row, s, e);
    StrPartsMeaning(sc, st, w, NFields(sc));
    if p.result.Ok? {
      forall k | s <= k < s + |cols|
        ensures k < NFields(sc) && Printable(sc, st, row, k) && p.result.value[k - s] == Shown(sc, st, row, k)
      {
        assert cols[k - s] == k;
      }
    } else {
      var t :| 0 <= t < |cols| && !Printable(sc, st, row, cols[t]);
      assert cols[t] == s + t;
    }
  }

  // ---------------------------------------------------------------------------
  // `_scale_back`: writing the cache back into raw storage.

  /**
   * The ASCII prelude: `_loc` is the very list `_coldefs.starts`, and one more entry, the
   * last start plus the last column's item size, is appended to it on every call.
   */
  function AsciiPrelude(sc: Schema, st: State): (r: Step<()>)
    requires Fits(sc, st)
    ensures Fits(sc, r.state)
    ensures r.state.cache == st.cache && r.state.storage == st.storage && r.state.heapsize == st.heapsize
    ensures sc.cd.tbtype == BinTable ==> r == Step(Ok(()), st)
    ensures r.result.Err? ==> r.state == st
    ensures sc.cd.tbtype == AsciiTable && |st.starts| == 0 ==> r.result == Err(IndexOutOfRange)
    ensures sc.cd.tbtype == AsciiTable && |st.starts| > 0 && NFields(sc) == 0 ==> r.result == Err(UnboundName)
    ensures r.result.Ok? && sc.cd.tbtype == AsciiTable ==>
      |st.starts| > 0 && NFields(sc) > 0 &&
      r.state.starts == st.starts + [st.starts[|st.starts| - 1] + sc.cd.itemsizes[NFields(sc) - 1]]
  {
    if sc.cd.tbtype == BinTable then Step(Ok(()), st)
    else if |st.starts| == 0 then Step(Err(IndexOutOfRange), st)
    else if NFields(sc) == 0 then Step(Err(UnboundName), st)
    else
      var last := st.starts[|st.starts| - 1] + sc.cd.itemsizes[NFields(sc) - 1];
      Step(Ok(()), st.(starts := st.starts + [last]))
  }

  /** Writes a new raw column k, which must have one cell per row. */
  function StoreColumn(sc: Schema, st: State, k: nat, col: seq<Cell>): (r: Step<()>)
    requires Fits(sc, st) && k < NFields(sc)
    ensures Fits(sc, r.state)
    ensures r.result.Ok? <==> |col| == sc.nrows
    ensures r.result.Ok? ==> r.state == st.(storage := st.storage[k := col])
    ensures r.result.Err? ==> r == Step(Err(ShapeMismatch), st)
  {
    if |col| == sc.nrows then Step(Ok(()), st.(storage := st.storage[k := col]))
    else Step(Err(ShapeMismatch), st)
  }

  /**
   * The descriptor pass of a variable-length column: the descriptors are zeroed, the row
   * lengths written as counts, the offsets laid out after the heap so far, and the heap grown.
   */
  function VarLenPass(sc: Schema, st: State, k: nat, c: seq<Cell>): (r: Step<()>)
    requires Fits(sc, st) && k < NFields(sc)
    ensures Fits(sc, r.state)
    ensures r.state.cache == st.cache && r.state.starts == st.starts
    ensures forall j :: 0 <= j < NFields(sc) && j != k ==> r.state.storage[j] == st.storage[j]
    ensures !sc.cd.recformats[k].kind.VarLen? ==> r == Step(Ok(()), st)
    ensures sc.cd.recformats[k].kind.VarLen? ==>
      var size := sc.cd.recformats[k].kind.itemsize;
      (r.result.Ok? <==> Counts(c, sc.nrows).Ok?) &&
      (r.result.Err? ==> r.result.error == Counts(c, sc.nrows).error &&
                         r.state == st.(storage := st.storage[k := seq(sc.nrows, _ => Desc(0, 0))])) &&
      (r.result.Ok? ==>
        r.state.storage[k] == Layout(Counts(c, sc.nrows).value, size, st.heapsize) &&
        r.state.heapsize == HeapAfter(Counts(c, sc.nrows).value, size, st.heapsize))
  {
    match sc.cd.recformats[k].kind
    case VarLen(_, size) =>
      var zeroed := st.(storage := st.storage[k := seq(sc.nrows, _ => Desc(0, 0))]);
      (match Counts(c, sc.nrows)
       case Err(e) => Step(Err(e), zeroed)
       case Ok(counts) =>
         Step(Ok(()), zeroed.(storage := st.storage[k := Layout(counts, size, st.heapsize)],
                              heapsize := HeapAfter(counts, size, st.heapsize))))
    case _ => Step(Ok(()), st)
  }

  /**
   * The ASCII write of column k: the trailing-gap check, the `%` template, and the row
   * loop. The leading gap `starts[k] - loc[k]` compares the list with itself and is 0.
   */
  function AsciiColumn(sc: Schema, st: State, k: nat, dummy: seq<Cell>): (r: Step<()>)
    requires Fits(sc, st) && k < NFields(sc)
    ensures Fits(sc, r.state)
    ensures r.state.cache == st.cache && r.state.starts == st.starts && r.state.heapsize == st.heapsize
    ensures forall j :: 0 <= j < NFields(sc) && j != k ==> r.state.storage[j] == st.storage[j]
  {
    var loc := st.starts;
    if k >= |st.starts| then Step(Err(IndexOutOfRange), st)
    else
      var lead := st.starts[k] - loc[k];
      if lead < 0 then Step(Err(OverlapFailure), st)
      else if k + 1 >= |loc| then Step(Err(IndexOutOfRange), st)
      else
        var trail := loc[k + 1] - sc.cd.widths[k] - st.starts[k];
        if trail < 0 then Step(Err(OverlapFailure), st)
        else
          match AsciiTemplate(Strip(sc.cd.asciiFormats[k]))
          case Err(e) => Step(Err(e), st)
          case Ok(template) =>
            var w := AsciiWrite(sc.codec, template, lead, trail, loc[k + 1] - loc[k],
                                dummy, st.storage[k], |dummy|);
            // The `.replace('E', 'D')` for D formats returns a new array that is dropped.
            Step(if w.err.None? then Ok(()) else Err(w.err.value), st.(storage := st.storage[k := w.col]))
  }

  /**
   * The overlap failure comes only from the trailing gap: with a start for this column
   * and the next, it is raised exactly when the next start minus the width falls before
   * this column's start.
   */
  lemma OverlapOnlyFromTrailingGap(sc: Schema, st: State, k: nat, dummy: seq<Cell>)
    requires Fits(sc, st) && k < NFields(sc)
    ensures AsciiColumn(sc, st, k, dummy).result == Err(OverlapFailure) <==>
      k + 1 < |st.starts| && st.starts[k + 1] - sc.cd.widths[k] - st.starts[k] < 0
  {
    if k + 1 < |st.starts| && st.starts[k + 1] - sc.cd.widths[k] - st.starts[k] >= 0 {
      var tmpl := AsciiTemplate(Strip(sc.cd.asciiFormats[k]));
      if tmpl.Ok? {
        AsciiWriteMeaning(sc.codec, tmpl.value, 0, st.starts[k + 1] - sc.cd.widths[k] - st.starts[k],
                          st.starts[k + 1] - st.starts[k], dummy, st.storage[k], |dummy|);
      }
    }
  }

  /**
   * An ASCII column with room for its text is written in full: row i holds value i
   * formatted, exactly when every formatted value is within the column's width.
   */
  lemma AsciiColumnWrites(sc: Schema, st: State, k: nat, dummy: seq<Cell>)
    requires Fits(sc, st) && k < NFields(sc) && k + 1 < |st.starts|
    requires st.starts[k + 1] - sc.cd.widths[k] - st.starts[k] >= 0
    requires AsciiTemplate(Strip(sc.cd.asciiFormats[k])).Ok?
    requires |dummy| <= sc.nrows
    ensures var t := AsciiTemplate(Strip(sc.cd.asciiFormats[k])).value;
      var trail := st.starts[k + 1] - sc.cd.widths[k] - st.starts[k];
      var r := AsciiColumn(sc, st, k, dummy);
      (r.result.Ok? <==> forall i :: 0 <= i < |dummy| ==> |sc.codec.formatValue(t, dummy[i])| <= sc.cd.widths[k]) &&
      (r.result.Ok? ==> forall i :: 0 <= i < |dummy| ==>
        r.state.storage[k][i] == Text(AsciiCell(sc.codec, t, 0, trail, dummy[i])))
  {
    var t := AsciiTemplate(Strip(sc.cd.asciiFormats[k])).value;
    var trail := st.starts[k + 1] - sc.cd.widths[k] - st.starts[k];
    var span := st.starts[k + 1] - st.starts[k];
    AsciiWriteMeaning(sc.codec, t, 0, trail, span, dummy, st.storage[k], |dummy|);
    forall i | 0 <= i < |dummy|
      ensures |AsciiCell(sc.codec, t, 0, trail, dummy[i])| <= span
          <==> |sc.codec.formatValue(t, dummy[i])| <= sc.cd.widths[k]
    {
      SpanCheckIsWidthCheck(sc.codec, t, dummy[i], st.starts[k], st.starts[k + 1], sc.cd.widths[k]);
    }
  }

  /** The binary write of a rescaled numeric column: `np.around` for integer storage, then `astype`. */
  function BinaryColumn(sc: Schema, st: State, k: nat, dummy: seq<Cell>): (r: Step<()>)
    requires Fits(sc, st) && k < NFields(sc)
    ensures Fits(sc, r.state)
    ensures r.state.cache == st.cache && r.state.starts == st.starts && r.state.heapsize == st.heapsize
    ensures forall j :: 0 <= j < NFields(sc) && j != k ==> r.state.storage[j] == st.storage[j]
    ensures sc.nrows == 0 ==> r == Step(Err(IndexOutOfRange), st)
  {
    // `isinstance(field[0], np.integer)` reads row 0 first.
    if sc.nrows == 0 then Step(Err(IndexOutOfRange), st)
    else StoreColumn(sc, st, k, sc.codec.toStorage(dummy, st.storage[k]))
  }

  /** The conversion pass of a non-bit column, after its factors are known. */
  function ConvertBack(sc: Schema, st: State, k: nat, c: seq<Cell>, f: ScaleFactors): (r: Step<()>)
    requires Fits(sc, st) && k < NFields(sc)
    ensures Fits(sc, r.state)
    ensures r.state.cache == st.cache && r.state.starts == st.starts && r.state.heapsize == st.heapsize
    ensures forall j :: 0 <= j < NFields(sc) && j != k ==> r.state.storage[j] == st.storage[j]
    ensures f.isBool && !f.isNumber && !f.isStr ==>
      r == StoreColumn(sc, st, k, EncodeBool(c))
    ensures sc.cd.tbtype == BinTable && !f.isBool && !(f.isNumber && (f.scale || f.zero)) ==>
      r == Step(Ok(()), st)
  {
    if f.isNumber || f.isStr then
      var dummy :=
        if f.isNumber && (f.scale || f.zero) then Some(sc.codec.unscale(c, f.bscale, f.bzero, f.scale, f.zero))
        else if sc.cd.tbtype == AsciiTable then Some(c)
        else None;
      match dummy
      case None => Step(Ok(()), st)
      case Some(d) =>
        if sc.cd.tbtype == AsciiTable then AsciiColumn(sc, st, k, d) else BinaryColumn(sc, st, k, d)
    else if f.isBool then StoreColumn(sc, st, k, EncodeBool(c))
    else Step(Ok(()), st)
  }

  /** The write-back of column k, when its cache slot is filled. */
  function ScaleBackColumn(sc: Schema, st: State, k: nat): (r: Step<()>)
    requires Fits(sc, st) && k < NFields(sc)
    ensures Fits(sc, r.state)
    ensures r.state.cache == st.cache && r.state.starts == st.starts
    ensures forall j :: 0 <= j < NFields(sc) && j != k ==> r.state.storage[j] == st.storage[j]
    ensures st.cache[k].None? ==> r == Step(Ok(()), st)
    ensures !sc.cd.recformats[k].kind.VarLen? ==> r.state.heapsize == st.heapsize
  {
    match st.cache[k]
    case None => Step(Ok(()), st)
    case Some(c) =>
      match sc.cd.recformats[k].kind
      case Bits(nx) => StoreColumn(sc, st, k, sc.codec.wrapX(c, st.storage[k], nx))
      case _ =>
        match GetScaleFactors(sc.cd, k)
        case Err(e) => Step(Err(e), st)
        case Ok(f) =>
          var v := VarLenPass(sc, st, k, c);
          if v.result.Err? then v else ConvertBack(sc, v.state, k, c, f)
  }

  /**
   * A cached bit column is packed back into its own raw column: with `_wrapx` writing in
   * place, the write-back succeeds, stores the packed flags and changes nothing else.
   */
  lemma ScaleBackBitsInPlace(sc: Schema, st: State, k: nat)
    requires Fits(sc, st) && k < NFields(sc) && st.cache[k].Some?
    requires sc.cd.recformats[k].kind.Bits? && WrapsInPlace(sc.codec)
    ensures var packed := sc.codec.wrapX(st.cache[k].value, st.storage[k], sc.cd.recformats[k].kind.nx);
      ScaleBackColumn(sc, st, k) == Step(Ok(()), st.(storage := st.storage[k := packed]))
  {
    var packed := sc.codec.wrapX(st.cache[k].value, st.storage[k], sc.cd.recformats[k].kind.nx);
    assert |packed| == |st.storage[k]|;
  }

  /** Columns 0 .. n-1 written back in order; the first failure stops the loop. */
  function ScaleBackColumns(sc: Schema, st: State, n: nat): (r: Step<()>)
    requires Fits(sc, st) && n <= NFields(sc)
    ensures Fits(sc, r.state)
    ensures r.state.cache == st.cache && r.state.starts == st.starts
    ensures forall j :: n <= j < NFields(sc) ==> r.state.storage[j] == st.storage[j]
  {
    if n == 0 then Step(Ok(()), st)
    else
      var prev := ScaleBackColumns(sc, st, n - 1);
      if prev.result.Err? then prev else ScaleBackColumn(sc, prev.state, n - 1)
  }

  /** Once a step fails, the loop has stopped: later steps change neither the error nor the state. */
  lemma {:induction false} ScaleBackColumnsStop(sc: Schema, st: State, m: nat, n: nat)
    requires Fits(sc, st) && m <= n <= NFields(sc)
    requires ScaleBackColumns(sc, st, m).result.Err?
    ensures ScaleBackColumns(sc, st, n) == ScaleBackColumns(sc, st, m)
    decreases n
  {
    hide ScaleBackColumn;
    if n > m {
      ScaleBackColumnsStop(sc, st, m, n - 1);
    }
  }

  /** `FITS_rec._scale_back`: the ASCII prelude, `_heapsize` reset to 0, then every column. */
  function ScaleBackStep(sc: Schema, st: State): (r: Step<()>)
    requires Fits(sc, st)
    ensures Fits(sc, r.state)
    ensures r.state.cache == st.cache
  {
    var p := AsciiPrelude(sc, st);
    if p.result.Err? then p
    else ScaleBackColumns(sc, p.state.(heapsize := 0), NFields(sc))
  }

  /** `_scale_back` does not depend on the heap size it finds: it restarts the heap at 0. */
  lemma ScaleBackRestartsHeap(sc: Schema, st: State, h: int)
    requires Fits(sc, st)
    requires AsciiPrelude(sc, st).result.Ok?
    ensures ScaleBackStep(sc, st.(heapsize := h)) == ScaleBackStep(sc, st)
  {
    assert AsciiPrelude(sc, st.(heapsize := h)).state.(heapsize := 0) == AsciiPrelude(sc, st).state.(heapsize := 0);
  }

  /** On an ASCII table every call appends one start, so two calls leave two more entries. */
  lemma ScaleBackGrowsStarts(sc: Schema, st: State)
    requires Fits(sc, st) && sc.cd.tbtype == AsciiTable && |st.starts| > 0 && NFields(sc) > 0
    ensures var once := ScaleBackStep(sc, st).state;
      once.starts == st.starts + [st.starts[|st.starts| - 1] + sc.cd.itemsizes[NFields(sc) - 1]] &&
      |ScaleBackStep(sc, once).state.starts| == |st.starts| + 2
  {
  }

  /** Columns with an empty cache slot keep their raw storage through the first n write-backs. */
  lemma {:induction false} UncachedColumnsUntouched(sc: Schema, st: State, n: nat)
    requires Fits(sc, st) && n <= NFields(sc)
    ensures forall j :: 0 <= j < NFields(sc) && st.cache[j].None? ==>
      ScaleBackColumns(sc, st, n).state.storage[j] == st.storage[j]
  {
    hide ScaleBackColumn;
    if n > 0 {
      UncachedColumnsUntouched(sc, st, n - 1);
    }
  }

  /** `_scale_back` never modifies a column that was never converted, nor the cache. */
  lemma ScaleBackLeavesUncached(sc: Schema, st: State, k: nat)
    requires Fits(sc, st) && k < NFields(sc) && st.cache[k].None?
    ensures ScaleBackStep(sc, st).state.storage[k] == st.storage[k]
    ensures ScaleBackStep(sc, st).state.cache == st.cache
  {
    var p := AsciiPrelude(sc, st);
    if p.result.Ok? {
      UncachedColumnsUntouched(sc, p.state.(heapsize := 0), NFields(sc));
    }
  }

  /**
   * A binary-table logical column with one flag per row is written back as 'T'/'F' bytes,
   * and decoding what was written gives the cached column back.
   */
  lemma ScaleBackBoolRoundTrip(sc: Schema, st: State, k: nat)
    requires Fits(sc, st) && k < NFields(sc) && st.cache[k].Some?
    requires sc.cd.tbtype == BinTable && sc.cd.recformats[k].kind.Fixed?
    requires Last2(sc.cd.recformats[k].text) == LogicalCode && 'a' !in sc.cd.formats[k]
    requires AllFlags(st.cache[k].value) && |st.cache[k].value| == sc.nrows
    ensures var r := ScaleBackColumn(sc, st, k);
      r.result.Ok? &&
      r.state.storage[k] == EncodeBool(st.cache[k].value) &&
      DecodeField(sc.cd, sc.codec, k, r.state.storage[k], sc.heapoffset) == Ok(Decoded(st.cache[k].value, true))
  {
    var c := st.cache[k].value;
    LogicalColumnDecode(sc.cd, sc.codec, k, EncodeBool(c), sc.heapoffset);
    BoolRoundTrip(c);
  }

  /**
   * A cached variable-length column of sequences gets one descriptor per row laid out
   * after the heap bytes of the columns before it, and the heap grows by its bytes.
   */
  lemma ScaleBackVarLenLayout(sc: Schema, st: State, k: nat)
    requires Fits(sc, st) && k < NFields(sc) && st.cache[k].Some?
    requires sc.cd.recformats[k].kind.VarLen?
    requires GetScaleFactors(sc.cd, k).Ok?
    requires Counts(st.cache[k].value, sc.nrows).Ok?
    ensures var counts := Counts(st.cache[k].value, sc.nrows).value;
      var size := sc.cd.recformats[k].kind.itemsize;
      var v := VarLenPass(sc, st, k, st.cache[k].value);
      var r := ScaleBackColumn(sc, st, k);
      r == ConvertBack(sc, v.state, k, st.cache[k].value, GetScaleFactors(sc.cd, k).value) &&
      r.state.heapsize == HeapAfter(counts, size, st.heapsize) &&
      (sc.cd.tbtype == BinTable && !(GetScaleFactors(sc.cd, k).value.isNumber &&
                                     (GetScaleFactors(sc.cd, k).value.scale || GetScaleFactors(sc.cd, k).value.zero)) &&
       !GetScaleFactors(sc.cd, k).value.isBool ==>
        r.state.storage[k] == Layout(counts, size, st.heapsize))
  {
  }
}

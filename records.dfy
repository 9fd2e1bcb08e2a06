/**
 * The window arithmetic of `FITS_record`: a record is one row of a table seen
 * through a column window [start, end). Opening a window clamps its bounds;
 * keys are resolved to absolute column indices against the window.
 */
module Records {
  import opened Results
  import opened Columns

  /** The row of a record and its column window. The table itself is held beside it. */
  datatype Window = Window(row: int, start: int, end: int)

  /** A record key: a column name or a window-relative position. */
  datatype Key = Name(s: string) | Pos(i: int)

  /** The window that `FITS_record(array, row, startColumn, endColumn)` opens on a table of nfields columns. */
  function NewWindow(nfields: nat, row: int, s: int, e: int): (w: Window)
    ensures w.row == row
    ensures s <= nfields ==> w.start == s
    ensures s > nfields ==> w.start == nfields + 1
    ensures 0 < e <= nfields ==> w.end == e
    ensures e <= 0 || e > nfields ==> w.end == nfields
    ensures w.end <= nfields && (nfields > 0 ==> 0 < w.end)
  {
    Window(row,
           if s > nfields then nfields + 1 else s,
           if e <= 0 || e > nfields then nfields else e)
  }

  /** `FITS_record.__len__()`: the window's length, capped at the column count. It can be negative. */
  function Len(w: Window, nfields: nat): (r: int)
    ensures r <= nfields && r <= w.end - w.start
    ensures r == nfields || r == w.end - w.start
  {
    if w.end - w.start < nfields then w.end - w.start else nfields
  }

  /** `FITS_record.__getslice__(i, j)`: a new window on the same row with absolute bounds i and j. */
  function SubWindow(nfields: nat, w: Window, i: int, j: int): (r: Window)
    ensures r.row == w.row
    ensures i <= nfields ==> r.start == i
    ensures i > nfields ==> r.start == nfields + 1
    ensures 0 < j <= nfields ==> r.end == j
    ensures j <= 0 || j > nfields ==> r.end == nfields
  {
    NewWindow(nfields, w.row, i, j)
  }

  /**
   * The absolute column index a key names in a window: a name is looked up in the
   * column list and must fall in [start, end); a position is offset by start and must
   * fall below end. There is no lower bound on positions.
   */
  function Resolve(names: seq<string>, w: Window, key: Key): (r: Result<int>)
    ensures key.Name? ==> (r.Ok? <==> key.s in names && w.start <= IndexOf(names, key.s).value < w.end)
    ensures key.Name? && r.Ok? ==> 0 <= r.value < |names| && names[r.value] == key.s
    ensures key.Name? && key.s !in names ==> r == Err(NameNotFound)
    ensures key.Name? && key.s in names && r.Err? ==> r == Err(NameOutOfWindow)
    ensures key.Pos? ==> (r.Ok? <==> key.i + w.start < w.end)
    ensures key.Pos? && r.Ok? ==> r.value == key.i + w.start
    ensures key.Pos? && r.Err? ==> r == Err(PositionOutOfWindow)
  {
    match key
    case Name(s) =>
      (match GetIndex(names, s)
       case Err(e) => Err(e)
       case Ok(indx) => if indx < w.start || indx > w.end - 1 then Err(NameOutOfWindow) else Ok(indx))
    case Pos(k) =>
      var indx := k + w.start;
      if indx > w.end - 1 then Err(PositionOutOfWindow) else Ok(indx)
  }

  /** `FITS_rec.__getitem__` with an integer key: the whole-row record, or IndexError. */
  function RowWindow(nfields: nat, nrows: nat, key: int): (r: Result<Window>)
    ensures r.Ok? <==> key < nrows
    ensures r.Err? ==> r.error == IndexOutOfRange
    ensures r.Ok? ==> r.value.row == key && r.value.start == 0 && r.value.end == nfields
    ensures r.Ok? ==> Len(r.value, nfields) == nfields
  {
    if key >= nrows then Err(IndexOutOfRange) else Ok(NewWindow(nfields, key, 0, 0))
  }

  /** The columns that `FITS_record.__str__` prints, in column order, among the first m. */
  function WindowColumns(w: Window, m: nat): (r: seq<nat>)
    ensures forall t :: 0 <= t < |r| ==> w.start <= r[t] < w.end && r[t] < m
  {
    if m == 0 then []
    else WindowColumns(w, m - 1) + (if w.start <= m - 1 < w.end then [m - 1] else [])
  }

  // ---------------------------------------------------------------------------
  // Properties of the window arithmetic.

  /** For a window opened at a non-negative start, a position k >= 0 resolves exactly when k < Len. */
  lemma PositionResolvesIffBelowLen(names: seq<string>, nfields: nat, row: int, s: int, e: int, k: int)
    requires 0 <= s && 0 <= k
    ensures Resolve(names, NewWindow(nfields, row, s, e), Pos(k)).Ok?
        <==> k < Len(NewWindow(nfields, row, s, e), nfields)
  {
  }

  /** Whatever resolves in a window opened at a non-negative start is a column inside the window. */
  lemma ResolvedIndexInWindow(names: seq<string>, nfields: nat, row: int, s: int, e: int, key: Key)
    requires 0 <= s && |names| == nfields
    requires key.Pos? ==> 0 <= key.i
    requires Resolve(names, NewWindow(nfields, row, s, e), key).Ok?
    ensures var w := NewWindow(nfields, row, s, e);
      var indx := Resolve(names, w, key).value;
      w.start <= indx < w.end && 0 <= indx < nfields
  {
  }

  /** A negative position is not rejected: -1 in a window starting at 0 resolves to index -1. */
  lemma NegativePositionPassesCheck(names: seq<string>, nfields: nat, row: int)
    requires 0 < nfields
    ensures Resolve(names, NewWindow(nfields, row, 0, 0), Pos(-1)) == Ok(-1)
  {
  }

  /** A start beyond the column count gives an empty window whose length is negative
      (-1 when the end is left open); Python's len() refuses such a length. */
  lemma StartPastEndGivesNegativeLen(nfields: nat, row: int, s: int, e: int)
    requires s > nfields
    ensures Len(NewWindow(nfields, row, s, e), nfields) < 0
    ensures e <= 0 ==> Len(NewWindow(nfields, row, s, e), nfields) == -1
    ensures forall k :: k >= 0 ==> Resolve([], NewWindow(nfields, row, s, e), Pos(k)).Err?
  {
  }

  /** A sub-window depends on the row alone, not on the bounds of the window it is taken from. */
  lemma SubWindowIgnoresWindow(nfields: nat, w: Window, w': Window, i: int, j: int)
    requires w.row == w'.row
    ensures SubWindow(nfields, w, i, j) == SubWindow(nfields, w', i, j)
  {
  }

  /**
   * Sub-window bounds are absolute: position k of `view[i:j]` resolves to column i + k
   * exactly when that is below the clamped end; a start past the column count admits no
   * position k >= 0.
   */
  lemma SubWindowIsAbsolute(names: seq<string>, nfields: nat, w: Window, i: int, j: int, k: int)
    ensures var r := Resolve(names, SubWindow(nfields, w, i, j), Pos(k));
      var e := if 0 < j <= nfields then j else nfields;
      (i <= nfields ==> (r.Ok? <==> i + k < e) && (r.Ok? ==> r.value == i + k)) &&
      (i > nfields && k >= 0 ==> r == Err(PositionOutOfWindow))
  {
  }

  /** On a 5-column row, the window [1, 3) rejects position 2 and resolves position 1 to column 2;
      its sub-window (0, 1) holds column 0 alone. */
  lemma WindowExample(names: seq<string>, row: int)
    ensures var w := NewWindow(5, row, 1, 3);
      Resolve(names, w, Pos(2)) == Err(PositionOutOfWindow) &&
      Resolve(names, w, Pos(1)) == Ok(2) &&
      WindowColumns(SubWindow(5, w, 0, 1), 5) == [0]
  {
    var sub := SubWindow(5, NewWindow(5, row, 1, 3), 0, 1);
    assert WindowColumns(sub, 1) == [0];
    assert WindowColumns(sub, 2) == [0];
    assert WindowColumns(sub, 3) == [0];
    assert WindowColumns(sub, 4) == [0];
  }

  /** The columns among the first m in a window with a non-negative start, counted. */
  lemma {:induction false} WindowColumnsCount(w: Window, m: nat)
    requires 0 <= w.start
    ensures |WindowColumns(w, m)| == Clamp((if m < w.end then m else w.end) - w.start)
    ensures forall k :: 0 <= k < |WindowColumns(w, m)| ==>
      WindowColumns(w, m)[k] == w.start + k
  {
    if m > 0 {
      WindowColumnsCount(w, m - 1);
    }
  }

  function Clamp(x: int): nat
  {
    if x < 0 then 0 else x
  }

  /** `__str__` prints exactly Len cells (none when Len is negative), the window's columns in order. */
  lemma StrCoversLen(nfields: nat, row: int, s: int, e: int)
    requires 0 <= s
    ensures var w := NewWindow(nfields, row, s, e);
      |WindowColumns(w, nfields)| == Clamp(Len(w, nfields)) &&
      forall k :: 0 <= k < |WindowColumns(w, nfields)| ==> WindowColumns(w, nfields)[k] == w.start + k
  {
    WindowColumnsCount(NewWindow(nfields, row, s, e), nfields);
  }
}

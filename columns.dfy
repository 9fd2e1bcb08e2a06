/**
 * The interface the record codec consumes from the column-definition model
 * (pyfits.column): per-column names, format texts, scale and zero factors,
 * null texts and ASCII layout, plus the numeric and I/O primitives the codec
 * calls but does not define. pyfits.column is not part of this model; its
 * primitives are the function-valued fields of Codec.
 */
module Columns {
  import opened Results
  import opened Cells

  /** `_coldefs._tbtype`: 'BinTableHDU' or 'TableHDU'. */
  datatype TableType = BinTable | AsciiTable

  /** A TSCAL/TZERO entry: the empty text, None, or a number. */
  datatype Factor = Blank | Missing | Value(v: real)

  /** The class of a `_recformats` entry: `_FormatX`, `_FormatP` or a plain text. */
  datatype RecKind =
    | Bits(nx: nat)                         // _FormatX, with _nx bits per row
    | VarLen(dtype: string, itemsize: nat)  // _FormatP, with the heap element's dtype and size
    | Fixed

  /** A `_recformats` entry: its text (every entry is a string) and its class. */
  datatype RecFormat = RecFormat(text: string, kind: RecKind)

  /** The fields of `ColDefs` that the record codec reads. */
  datatype ColDefs = ColDefs(
    tbtype: TableType,
    names: seq<string>,          // names
    formats: seq<string>,        // formats
    asciiFormats: seq<string>,   // _Formats
    recformats: seq<RecFormat>,  // _recformats
    bscales: seq<Factor>,        // bscales
    bzeros: seq<Factor>,         // bzeros
    nulls: seq<string>,          // nulls
    widths: seq<int>,            // _convert_ascii_format(_Formats[i])[1]
    itemsizes: seq<nat>          // the byte width of each column's raw field
  )

  /** Every per-column list has one entry per column. */
  predicate WellFormed(cd: ColDefs)
  {
    var n := |cd.names|;
    |cd.formats| == n && |cd.asciiFormats| == n && |cd.recformats| == n &&
    |cd.bscales| == n && |cd.bzeros| == n && |cd.nulls| == n &&
    |cd.widths| == n && |cd.itemsizes| == n
  }

  /** `FITS2NUMPY['L']`, the numpy code of a logical column. */
  const LogicalCode: string := "i1"

  /** The value `ASCIITNULL`, as text: what a null ASCII cell is parsed from. */
  const AsciiNullText: string := "0"

  /** The numpy type an ASCII numeric column parses into. */
  datatype NumType = Int32 | Float32 | Float64

  /** The primitives the codec calls but does not define. */
  datatype Codec = Codec(
    unwrapX: (seq<Cell>, nat) -> seq<Cell>,          // _unwrapx: packed bits to rows of nx flags
    wrapX: (seq<Cell>, seq<Cell>, nat) -> seq<Cell>,  // _wrapx: rows of flags into the packed field
    readHeap: (string, int, int) -> Cell,             // seek to an offset, read count elements
    scaleRow: (Cell, real, real, bool, bool) -> Cell, // one heap row times bscale plus bzero
    scale: (seq<Cell>, real, real, bool, bool) -> seq<Cell>,   // float64, times bscale, plus bzero
    unscale: (seq<Cell>, real, real, bool, bool) -> seq<Cell>, // a copy, minus bzero, over bscale
    parseNumber: (NumType, string) -> Option<Cell>,   // np.array(text, dtype), None on bad text
    formatValue: (string, Cell) -> string,            // Python's `template % value`
    toStorage: (seq<Cell>, seq<Cell>) -> seq<Cell>,   // np.around for integers, then astype
    repr: Cell -> string                              // Python's repr() of one cell
  )

  /**
   * `_wrapx` packs the flags into the very array it is handed, so what it leaves has one
   * entry per row of that array.
   */
  ghost predicate WrapsInPlace(codec: Codec)
  {
    forall flags, packed, nx :: |codec.wrapX(flags, packed, nx)| == |packed|
  }

  /** The first position of `key` in `names`. */
  function IndexOf(names: seq<string>, key: string): (r: Option<nat>)
    ensures r.Some? ==> r.value < |names| && names[r.value] == key
    ensures r.Some? ==> forall j :: 0 <= j < r.value ==> names[j] != key
    ensures r.None? <==> key !in names
  {
    if names == [] then None
    else if names[0] == key then Some(0)
    else match IndexOf(names[1..], key)
      case None => None
      case Some(j) => Some(j + 1)
  }

  /** `_get_index(names, key)` for a name: its position, or KeyError. */
  function GetIndex(names: seq<string>, key: string): (r: Result<nat>)
    ensures r.Ok? <==> key in names
    ensures r.Ok? ==> r.value < |names| && names[r.value] == key
    ensures r.Err? ==> r.error == NameNotFound
  {
    match IndexOf(names, key)
    case None => Err(NameNotFound)
    case Some(i) => Ok(i)
  }

  /** With distinct names, looking up the name of column k finds column k. */
  lemma GetIndexOfOwnName(names: seq<string>, k: nat)
    requires k < |names|
    requires forall i, j :: 0 <= i < j < |names| ==> names[i] != names[j]
    ensures GetIndex(names, names[k]) == Ok(k)
  {
  }
}

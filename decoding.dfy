/**
 * The decoding rules of `FITS_rec.field`: which columns are converted from raw
 * storage to logical values, how, and which of them are kept in the conversion
 * cache; and `FITS_rec._get_scale_factors`, which classifies a column.
 */
module Decoding {
  import opened Results
  import opened Cells
  import opened Columns

  /** The result of `_get_scale_factors`: (_str, _bool, _number, _scale, _zero, bscale, bzero). */
  datatype ScaleFactors = ScaleFactors(isStr: bool, isBool: bool, isNumber: bool,
                                       scale: bool, zero: bool, bscale: real, bzero: real)

  /** A factor that is given and differs from the identity: `f not in ['', None, identity]`. */
  predicate Declared(f: Factor, identity: real)
  {
    f.Value? && f.v != identity
  }

  /** Python's `s[-2:]`. */
  function Last2(s: string): string
  {
    if |s| >= 2 then s[|s| - 2..] else s
  }

  /** `_get_scale_factors(k)`: the column's kind flags, and its factors with 1 and 0 for absent ones. */
  function GetScaleFactors(cd: ColDefs, k: nat): (r: Result<ScaleFactors>)
    requires WellFormed(cd) && k < |cd.names|
    ensures r.Err? <==> cd.tbtype == AsciiTable && cd.formats[k] == ""
    ensures r.Err? ==> r.error == BadFormat
    ensures r.Ok? ==> r.value.isNumber == !(r.value.isBool || r.value.isStr)
    ensures r.Ok? && cd.tbtype == AsciiTable ==>
      !r.value.isBool && (r.value.isStr <==> cd.formats[k][0] == 'A')
    ensures r.Ok? && cd.tbtype == BinTable ==>
      (r.value.isStr <==> 'a' in cd.formats[k]) &&
      (r.value.isBool <==> Last2(cd.recformats[k].text) == LogicalCode)
    ensures r.Ok? ==> (r.value.scale <==> Declared(cd.bscales[k], 1.0))
    ensures r.Ok? ==> (r.value.zero <==> Declared(cd.bzeros[k], 0.0))
    ensures r.Ok? && !r.value.scale ==> r.value.bscale == 1.0
    ensures r.Ok? && !r.value.zero ==> r.value.bzero == 0.0
    ensures r.Ok? && r.value.scale ==> r.value.bscale == cd.bscales[k].v != 1.0
    ensures r.Ok? && r.value.zero ==> r.value.bzero == cd.bzeros[k].v != 0.0
  {
    if cd.tbtype == AsciiTable && |cd.formats[k]| == 0 then Err(BadFormat)
    else
      var isStr := match cd.tbtype
        case BinTable => 'a' in cd.formats[k]
        case AsciiTable => cd.formats[k][0] == 'A';
      var isBool := cd.tbtype == BinTable && Last2(cd.recformats[k].text) == LogicalCode;
      var scale := Declared(cd.bscales[k], 1.0);
      var zero := Declared(cd.bzeros[k], 0.0);
      Ok(ScaleFactors(isStr, isBool, !(isBool || isStr), scale, zero,
                      if scale then cd.bscales[k].v else 1.0,
                      if zero then cd.bzeros[k].v else 0.0))
  }

  /** A factor given as exactly the identity classifies a column the same as an absent factor. */
  lemma IdentityFactorsAreAbsent(cd: ColDefs, k: nat, f: Factor)
    requires WellFormed(cd) && k < |cd.names|
    requires f == Blank || f == Missing
    ensures GetScaleFactors(cd.(bscales := cd.bscales[k := Value(1.0)]), k)
         == GetScaleFactors(cd.(bscales := cd.bscales[k := f]), k)
    ensures GetScaleFactors(cd.(bzeros := cd.bzeros[k := Value(0.0)]), k)
         == GetScaleFactors(cd.(bzeros := cd.bzeros[k := f]), k)
  {
  }

  // ---------------------------------------------------------------------------
  // ASCII numeric columns.

  /** The parse type `_fmap[_Formats[k][0]]`: IndexError on an empty format, KeyError off the map. */
  function AsciiNumType(fmt: string): (r: Result<NumType>)
    ensures r.Ok? <==> fmt != [] && fmt[0] in "IFED"
    ensures r.Ok? ==> (r.value == Int32 <==> fmt[0] == 'I') && (r.value == Float64 <==> fmt[0] == 'D')
    ensures r.Err? ==> r.error == BadFormat
  {
    if fmt == [] then Err(BadFormat)
    else if fmt[0] == 'I' then Ok(Int32)
    else if fmt[0] == 'F' || fmt[0] == 'E' then Ok(Float32)
    else if fmt[0] == 'D' then Ok(Float64)
    else Err(BadFormat)
  }

  /** The text of a raw ASCII cell (raw storage of an ASCII table holds text only). */
  function TextOf(c: Cell): string
  {
    if c.Text? then c.s else ""
  }

  /**
   * One cell's text after the 'D' to 'E' exponent rewrite and the TNULL substitution: the
   * text of ASCIITNULL when the rewritten text, stripped, is the null value, and the
   * rewritten text otherwise. No 'D' is left either way.
   */
  function PrepareAscii(text: string, nullval: string): (r: string)
    ensures Strip(Replace(text, 'D', 'E')) == nullval ==> r == AsciiNullText
    ensures Strip(Replace(text, 'D', 'E')) != nullval ==> r == Replace(text, 'D', 'E')
    ensures 'D' !in r
  {
    var t := Replace(text, 'D', 'E');
    if Strip(t) == nullval then AsciiNullText else t
  }

  predicate AllParse(codec: Codec, t: NumType, nullval: string, raw: seq<Cell>)
  {
    forall i :: 0 <= i < |raw| ==> codec.parseNumber(t, PrepareAscii(TextOf(raw[i]), nullval)).Some?
  }

  /** Parsing an ASCII numeric column: every cell prepared, then converted to the column's type. */
  function ParseAscii(codec: Codec, t: NumType, nulltext: string, raw: seq<Cell>): (r: Result<seq<Cell>>)
    ensures r.Ok? <==> AllParse(codec, t, Strip(nulltext), raw)
    ensures r.Err? ==> r.error == NumberSyntax
    ensures r.Ok? ==> |r.value| == |raw| && forall i :: 0 <= i < |raw| ==>
      Some(r.value[i]) == codec.parseNumber(t, PrepareAscii(TextOf(raw[i]), Strip(nulltext)))
  {
    var nullval := Strip(nulltext);
    if AllParse(codec, t, nullval, raw) then
      Ok(seq(|raw|, i requires 0 <= i < |raw| =>
        codec.parseNumber(t, PrepareAscii(TextOf(raw[i]), nullval)).value))
    else Err(NumberSyntax)
  }

  /** A cell whose stripped text equals the stripped TNULL text is parsed from the text of ASCIITNULL. */
  lemma NullCellParsesAsNull(text: string, nulltext: string)
    requires Strip(Replace(text, 'D', 'E')) == Strip(nulltext)
    ensures PrepareAscii(text, Strip(nulltext)) == AsciiNullText
  {
  }

  /** A TNULL text holding 'D' is never recognised: the exponent rewrite runs before the comparison. */
  lemma NullTextWithDNeverMatches(text: string, nulltext: string)
    requires 'D' in Strip(nulltext)
    ensures PrepareAscii(text, Strip(nulltext)) == Replace(text, 'D', 'E')
  {
  }

  // ---------------------------------------------------------------------------
  // Variable-length (P format) columns: one heap read per row, at the stored descriptor.

  /** The (count, byte offset) pair of a descriptor cell; any other cell reads as (0, 0). */
  function DescriptorOf(c: Cell): (int, int)
  {
    match c
    case Desc(n, off) => (n, off)
    case _ => (0, 0)
  }

  /** `np.equal(row, ord('T'))` on one variable-length row. */
  function EqualT(c: Cell): Cell
  {
    match c
    case Arr(items) => Arr(DecodeBool(items))
    case _ => DecodeBoolCell(c)
  }

  /** One decoded row: the heap read at the row's descriptor, scaled, then made logical for 'L' data. */
  function VarLenRow(codec: Codec, dtype: string, f: ScaleFactors, c: Cell, heapoffset: int): (r: Cell)
    ensures var data := codec.readHeap(dtype, DescriptorOf(c).0, DescriptorOf(c).1 + heapoffset);
      && (!f.scale && !f.zero && dtype != LogicalCode ==> r == data)
      && ((f.scale || f.zero) && dtype != LogicalCode ==> r == codec.scaleRow(data, f.bscale, f.bzero, f.scale, f.zero))
    ensures dtype == LogicalCode ==> r.Flag? || (r.Arr? && AllFlags(r.items))
  {
    var (count, offset) := DescriptorOf(c);
    var data := codec.readHeap(dtype, count, offset + heapoffset);
    var scaled := if f.scale || f.zero then codec.scaleRow(data, f.bscale, f.bzero, f.scale, f.zero) else data;
    if dtype == LogicalCode then EqualT(scaled) else scaled
  }

  /**
   * The decoded variable-length column: one row per descriptor, each from its own stored
   * descriptor only; an unscaled row is the heap read at that descriptor, and 'L' data
   * comes out logical.
   */
  function DecodeVarLen(codec: Codec, dtype: string, f: ScaleFactors, raw: seq<Cell>, heapoffset: int): (r: seq<Cell>)
    ensures |r| == |raw|
    ensures forall i, j :: 0 <= i < |raw| && 0 <= j < |raw| && raw[i] == raw[j] ==> r[i] == r[j]
    ensures !f.scale && !f.zero && dtype != LogicalCode ==> forall i :: 0 <= i < |raw| ==>
      r[i] == codec.readHeap(dtype, DescriptorOf(raw[i]).0, DescriptorOf(raw[i]).1 + heapoffset)
    ensures dtype == LogicalCode ==> forall i :: 0 <= i < |raw| ==>
      r[i].Flag? || (r[i].Arr? && AllFlags(r[i].items))
  {
    seq(|raw|, i requires 0 <= i < |raw| => VarLenRow(codec, dtype, f, raw[i], heapoffset))
  }

  /** Decoding trusts the stored descriptors: two rows with the same descriptor decode alike, and
      a row's heap read is at its stored offset plus the heap base. */
  lemma VarLenTrustsDescriptors(codec: Codec, dtype: string, f: ScaleFactors, raw: seq<Cell>,
                                heapoffset: int, i: nat, j: nat)
    requires i < |raw| && j < |raw| && raw[i] == raw[j]
    requires raw[i].Desc? && !f.scale && !f.zero && dtype != LogicalCode
    ensures |DecodeVarLen(codec, dtype, f, raw, heapoffset)| == |raw|
    ensures DecodeVarLen(codec, dtype, f, raw, heapoffset)[i] == DecodeVarLen(codec, dtype, f, raw, heapoffset)[j]
    ensures DecodeVarLen(codec, dtype, f, raw, heapoffset)[i]
         == codec.readHeap(dtype, raw[i].count, raw[i].offset + heapoffset)
  {
  }

  // ---------------------------------------------------------------------------
  // The whole decision of `field`.

  /** A decoded column and whether `field` stores it in the conversion cache. */
  datatype Decoded = Decoded(col: seq<Cell>, cached: bool)

  /** The columns `field` hands out as raw storage, without caching anything. */
  predicate RawPolicy(cd: ColDefs, k: nat, f: ScaleFactors)
    requires WellFormed(cd) && k < |cd.names|
    ensures RawPolicy(cd, k, f) ==> cd.recformats[k].kind.Fixed?
    ensures cd.tbtype == AsciiTable ==> (RawPolicy(cd, k, f) <==> cd.recformats[k].kind.Fixed? && f.isStr)
    ensures f.isBool && !f.isStr ==> !RawPolicy(cd, k, f)
    ensures f.isNumber && (f.scale || f.zero) && !f.isStr ==> !RawPolicy(cd, k, f)
  {
    cd.recformats[k].kind.Fixed? &&
    (f.isStr || (cd.tbtype == BinTable && !(f.isNumber && (f.scale || f.zero)) && !f.isBool))
  }

  /**
   * An ASCII numeric column's decoding: it succeeds exactly when the format has a parse type
   * and every prepared cell parses; the parsed column is then cached, scaled first when the
   * column is numeric with a factor.
   */
  ghost predicate AsciiDecoded(codec: Codec, fmt: string, nulltext: string, f: ScaleFactors, raw: seq<Cell>, r: Result<Decoded>)
  {
    && (r.Ok? <==> AsciiNumType(fmt).Ok? && ParseAscii(codec, AsciiNumType(fmt).value, nulltext, raw).Ok?)
    && (r.Ok? ==>
          var parsed := ParseAscii(codec, AsciiNumType(fmt).value, nulltext, raw).value;
          r.value == Decoded(if f.isNumber && (f.scale || f.zero)
                             then codec.scale(parsed, f.bscale, f.bzero, f.scale, f.zero)
                             else parsed, true))
  }

  /**
   * What each kind of column decodes to: a bit column to `_unwrapx` of its bytes, a
   * variable-length column to its heap rows, a string column to itself, an ASCII number
   * column to its parsed (and, with a factor, scaled) text, a binary number column with a
   * factor to its scaled values and a binary logical column to `raw == 'T'`; a bad format
   * is the error `_get_scale_factors` raises.
   */
  ghost predicate DecodesByKind(cd: ColDefs, codec: Codec, k: nat, raw: seq<Cell>, heapoffset: int, r: Result<Decoded>)
    requires WellFormed(cd) && k < |cd.names|
  {
    && (cd.recformats[k].kind.Bits? ==>
          r == Ok(Decoded(codec.unwrapX(raw, cd.recformats[k].kind.nx), true)))
    && (!cd.recformats[k].kind.Bits? && GetScaleFactors(cd, k).Err? ==>
          r == Err(GetScaleFactors(cd, k).error))
    && (cd.recformats[k].kind.VarLen? && GetScaleFactors(cd, k).Ok? ==>
          r == Ok(Decoded(DecodeVarLen(codec, cd.recformats[k].kind.dtype, GetScaleFactors(cd, k).value, raw, heapoffset), true)))
    && (cd.recformats[k].kind.Fixed? && GetScaleFactors(cd, k).Ok? && GetScaleFactors(cd, k).value.isStr ==>
          r == Ok(Decoded(raw, false)))
    && (cd.recformats[k].kind.Fixed? && GetScaleFactors(cd, k).Ok? && cd.tbtype == AsciiTable ==>
          var f := GetScaleFactors(cd, k).value;
          !f.isStr ==> AsciiDecoded(codec, cd.asciiFormats[k], cd.nulls[k], f, raw, r))
    && (cd.recformats[k].kind.Fixed? && GetScaleFactors(cd, k).Ok? && cd.tbtype == BinTable ==>
          var f := GetScaleFactors(cd, k).value;
          !f.isStr ==> r == Ok(if f.isNumber && (f.scale || f.zero) then Decoded(codec.scale(raw, f.bscale, f.bzero, f.scale, f.zero), true)
                               else if f.isBool then Decoded(DecodeBool(raw), true)
                               else Decoded(raw, false)))
  }

  /** What `field(k)` computes when column k's cache slot is empty. */
  function DecodeField(cd: ColDefs, codec: Codec, k: nat, raw: seq<Cell>, heapoffset: int): (r: Result<Decoded>)
    requires WellFormed(cd) && k < |cd.names|
    ensures r.Ok? && !r.value.cached ==> r.value.col == raw
    ensures r.Err? ==> r.error == BadFormat || r.error == NumberSyntax
    ensures cd.recformats[k].kind.Bits? ==> r.Ok? && r.value.cached
    ensures r.Ok? && !cd.recformats[k].kind.Bits? ==>
      GetScaleFactors(cd, k).Ok? && (r.value.cached <==> !RawPolicy(cd, k, GetScaleFactors(cd, k).value))
    ensures DecodesByKind(cd, codec, k, raw, heapoffset, r)
  {
    match cd.recformats[k].kind
    case Bits(nx) => Ok(Decoded(codec.unwrapX(raw, nx), true))
    case VarLen(dtype, _) =>
      (match GetScaleFactors(cd, k)
       case Err(e) => Err(e)
       case Ok(f) => Ok(Decoded(DecodeVarLen(codec, dtype, f, raw, heapoffset), true)))
    case Fixed =>
      match GetScaleFactors(cd, k)
      case Err(e) => Err(e)
      case Ok(f) =>
        if f.isStr then Ok(Decoded(raw, false))
        else if cd.tbtype == AsciiTable then
          (match AsciiNumType(cd.asciiFormats[k])
           case Err(e) => Err(e)
           case Ok(t) =>
             match ParseAscii(codec, t, cd.nulls[k], raw)
             case Err(e) => Err(e)
             case Ok(parsed) =>
               if f.isNumber && (f.scale || f.zero) then
                 Ok(Decoded(codec.scale(parsed, f.bscale, f.bzero, f.scale, f.zero), true))
               else Ok(Decoded(parsed, true)))
        else if f.isNumber && (f.scale || f.zero) then
          Ok(Decoded(codec.scale(raw, f.bscale, f.bzero, f.scale, f.zero), true))
        else if f.isBool then Ok(Decoded(DecodeBool(raw), true))
        else Ok(Decoded(raw, false))
  }

  /** A binary-table logical column decodes to `raw == 'T'`, and the result is cached. */
  lemma LogicalColumnDecode(cd: ColDefs, codec: Codec, k: nat, raw: seq<Cell>, heapoffset: int)
    requires WellFormed(cd) && k < |cd.names|
    requires cd.tbtype == BinTable && cd.recformats[k].kind.Fixed?
    requires Last2(cd.recformats[k].text) == LogicalCode && 'a' !in cd.formats[k]
    ensures DecodeField(cd, codec, k, raw, heapoffset) == Ok(Decoded(DecodeBool(raw), true))
  {
  }

  /** String columns, in either table type, are handed out raw and never cached. */
  lemma StringColumnsStayRaw(cd: ColDefs, codec: Codec, k: nat, raw: seq<Cell>, heapoffset: int)
    requires WellFormed(cd) && k < |cd.names| && cd.recformats[k].kind.Fixed?
    requires GetScaleFactors(cd, k).Ok? && GetScaleFactors(cd, k).value.isStr
    ensures DecodeField(cd, codec, k, raw, heapoffset) == Ok(Decoded(raw, false))
  {
  }

  /** Every non-string column of an ASCII table is cached, since ASCII tables have no logical type. */
  lemma AsciiNumbersAreCached(cd: ColDefs, codec: Codec, k: nat, raw: seq<Cell>, heapoffset: int)
    requires WellFormed(cd) && k < |cd.names| && cd.tbtype == AsciiTable
    requires GetScaleFactors(cd, k).Ok? && !GetScaleFactors(cd, k).value.isStr
    requires DecodeField(cd, codec, k, raw, heapoffset).Ok?
    ensures DecodeField(cd, codec, k, raw, heapoffset).value.cached
  {
  }
}

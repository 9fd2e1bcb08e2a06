/**
 * The mechanics of `FITS_rec._scale_back`: the heap layout of variable-length
 * descriptors, and the fixed-width text layout of ASCII table columns.
 */
module Encoding {
  import opened Results
  import opened Cells
  import opened Columns

  // ---------------------------------------------------------------------------
  // Variable-length columns: descriptors (count, offset) and the running heap size.

  function Sum(s: seq<nat>): nat
  {
    if s == [] then 0 else Sum(s[..|s| - 1]) + s[|s| - 1]
  }

  /** The element count `len(row)` of a variable-length cell; None for a scalar, where len() fails. */
  function CellLen(c: Cell): Option<nat>
  {
    match c
    case Arr(items) => Some(|items|)
    case Text(s) => Some(|s|)
    case _ => None
  }

  /**
   * The descriptor counts of a column of nrows rows: `map(len, convert[k])`, written over
   * a zeroed column. A scalar row is a TypeError; more rows than the storage a ValueError.
   */
  function Counts(col: seq<Cell>, nrows: nat): (r: Result<seq<nat>>)
    ensures r.Ok? ==> |r.value| == nrows && |col| <= nrows
    ensures r.Ok? ==> forall i :: 0 <= i < |col| ==> CellLen(col[i]).Some? && r.value[i] == CellLen(col[i]).value
    ensures r.Ok? ==> forall i :: |col| <= i < nrows ==> r.value[i] == 0
    ensures r.Ok? <==> |col| <= nrows && forall i :: 0 <= i < |col| ==> CellLen(col[i]).Some?
    ensures (exists i :: 0 <= i < |col| && CellLen(col[i]).None?) ==> r == Err(NotASequence)
    ensures (forall i :: 0 <= i < |col| ==> CellLen(col[i]).Some?) && |col| > nrows ==> r == Err(ShapeMismatch)
    ensures r.Err? ==> r.error == NotASequence || r.error == ShapeMismatch
  {
    if exists i :: 0 <= i < |col| && CellLen(col[i]).None? then Err(NotASequence)
    else if |col| > nrows then Err(ShapeMismatch)
    else Ok(seq(nrows, i requires 0 <= i < nrows => if i < |col| then CellLen(col[i]).value else 0))
  }

  /** The byte offset of row i: the heap size before this column plus the bytes of rows 0 .. i-1. */
  function Offset(counts: seq<nat>, itemsize: nat, heapsize: int, i: nat): (r: int)
    requires i <= |counts|
    ensures i == 0 ==> r == heapsize
    ensures r >= heapsize
  {
    assert i == 0 ==> counts[..i] == [];
    heapsize + itemsize * Sum(counts[..i])
  }

  /** The descriptors `_scale_back` writes: desc[i] = (counts[i], Offset(i)). */
  function Layout(counts: seq<nat>, itemsize: nat, heapsize: int): (r: seq<Cell>)
    ensures |r| == |counts|
    ensures forall i :: 0 <= i < |counts| ==> r[i].Desc? && r[i].count == counts[i]
    ensures forall i :: 0 <= i < |counts| ==> r[i].offset == Offset(counts, itemsize, heapsize, i)
  {
    seq(|counts|, i requires 0 <= i < |counts| => Desc(counts[i], Offset(counts, itemsize, heapsize, i)))
  }

  /** The `_heapsize` after this column: the bytes of all its rows added. */
  function HeapAfter(counts: seq<nat>, itemsize: nat, heapsize: int): (r: int)
    ensures r >= heapsize
    ensures r == Offset(counts, itemsize, heapsize, |counts|)
  {
    assert counts[..|counts|] == counts;
    heapsize + itemsize * Sum(counts)
  }

  lemma SumStep(s: seq<nat>, i: nat)
    requires i < |s|
    ensures Sum(s[..i + 1]) == Sum(s[..i]) + s[i]
  {
    assert s[..i + 1][..i] == s[..i];
  }

  lemma {:induction false} SumMonotone(s: seq<nat>, i: nat, j: nat)
    requires i <= j <= |s|
    ensures Sum(s[..i]) <= Sum(s[..j])
    decreases j - i
  {
    if i < j {
      SumStep(s, j - 1);
      SumMonotone(s, i, j - 1);
    }
  }

  /**
   * The heap is laid out contiguously: row 0 starts at the old heap size, every row starts
   * where the previous one ends, and the last one ends at the new heap size.
   */
  lemma LayoutIsContiguous(counts: seq<nat>, itemsize: nat, heapsize: int)
    ensures |counts| > 0 ==> Layout(counts, itemsize, heapsize)[0].offset == heapsize
    ensures forall i :: 0 <= i < |counts| - 1 ==>
      Layout(counts, itemsize, heapsize)[i].offset + itemsize * counts[i]
        == Layout(counts, itemsize, heapsize)[i + 1].offset
    ensures |counts| > 0 ==>
      Layout(counts, itemsize, heapsize)[|counts| - 1].offset + itemsize * counts[|counts| - 1]
        == HeapAfter(counts, itemsize, heapsize)
  {
    hide Offset, Sum;
    var d := Layout(counts, itemsize, heapsize);
    forall i | 0 <= i < |counts|
      ensures d[i].offset + itemsize * counts[i] == Offset(counts, itemsize, heapsize, i + 1)
    {
      OffsetStep(counts, itemsize, heapsize, i);
    }
  }

  lemma OffsetStep(counts: seq<nat>, itemsize: nat, heapsize: int, i: nat)
    requires i < |counts|
    ensures Offset(counts, itemsize, heapsize, i + 1) == Offset(counts, itemsize, heapsize, i) + itemsize * counts[i]
  {
    SumStep(counts, i);
    assert itemsize * Sum(counts[..i + 1]) == itemsize * Sum(counts[..i]) + itemsize * counts[i];
  }

  lemma OffsetMonotone(counts: seq<nat>, itemsize: nat, heapsize: int, i: nat, j: nat)
    requires i <= j <= |counts|
    ensures heapsize <= Offset(counts, itemsize, heapsize, i) <= Offset(counts, itemsize, heapsize, j)
  {
    SumMonotone(counts, i, j);
    MulMonotone(itemsize, Sum(counts[..i]), Sum(counts[..j]));
  }

  lemma MulMonotone(x: nat, a: nat, b: nat)
    requires a <= b
    ensures x * a <= x * b
  {
    assert x * b == x * a + x * (b - a);
  }

  /** No two rows share heap bytes: each row's extent lies before every later row's start,
      and all of them lie within the old and new heap sizes. */
  lemma LayoutRowsDisjoint(counts: seq<nat>, itemsize: nat, heapsize: int, i: nat, j: nat)
    requires i < j < |counts|
    ensures var d := Layout(counts, itemsize, heapsize);
      heapsize <= d[i].offset &&
      d[i].offset + itemsize * counts[i] <= d[j].offset &&
      d[j].offset + itemsize * counts[j] <= HeapAfter(counts, itemsize, heapsize)
  {
    hide Offset, Sum;
    OffsetStep(counts, itemsize, heapsize, i);
    OffsetStep(counts, itemsize, heapsize, j);
    OffsetMonotone(counts, itemsize, heapsize, 0, i);
    OffsetMonotone(counts, itemsize, heapsize, i + 1, j);
    OffsetMonotone(counts, itemsize, heapsize, j + 1, |counts|);
  }

  /** Rows of lengths 0, 3, 1 and 5 with element width w: offsets 0, 0, 3w, 4w and a heap of 9w. */
  lemma LayoutExample(w: nat)
    ensures Layout([0, 3, 1, 5], w, 0) == [Desc(0, 0), Desc(3, 0), Desc(1, 3 * w), Desc(5, 4 * w)]
    ensures HeapAfter([0, 3, 1, 5], w, 0) == 9 * w
  {
    var c: seq<nat> := [0, 3, 1, 5];
    assert c[..0] == [] && c[..1] == [0] && c[..2] == [0, 3] && c[..3] == [0, 3, 1];
    assert c[..4] == c;
    assert [0, 3, 1][..2] == [0, 3] && [0, 3][..1] == [0] && [0][..0] == [];
    assert Sum(c[..1]) == 0 && Sum(c[..2]) == 3 && Sum(c[..3]) == 4 && Sum(c) == 9;
    var d := Layout(c, w, 0);
    assert d[0] == Desc(0, 0) && d[1] == Desc(3, 0) && d[2] == Desc(1, 3 * w) && d[3] == Desc(5, 4 * w);
  }

  // ---------------------------------------------------------------------------
  // ASCII columns: the `%` template, the gaps and the per-row text.

  /**
   * The template `_pc + _format[1:] + _fmap[_format[0]]` for a stripped ASCII format:
   * left-justified when the format holds 'A'. IndexError on an empty format, KeyError
   * for a first letter outside A, I, F, E, D.
   */
  function AsciiTemplate(fmt: string): (r: Result<string>)
    ensures r.Ok? <==> fmt != [] && fmt[0] in "AIFED"
    ensures r.Ok? ==> |r.value| >= 1
    ensures r.Ok? ==> r.value[..|r.value| - 1] == (if 'A' in fmt then "%-" else "%") + fmt[1..]
    ensures r.Ok? && fmt[0] in "ED" ==> r.value[|r.value| - 1] == 'E'
    ensures r.Ok? && fmt[0] == 'A' ==> r.value[|r.value| - 1] == 's'
    ensures r.Ok? && fmt[0] == 'I' ==> r.value[|r.value| - 1] == 'd'
    ensures r.Ok? && fmt[0] == 'F' ==> r.value[|r.value| - 1] == 'f'
    ensures r.Err? ==> r.error == BadFormat
  {
    var pc := if 'A' in fmt then "%-" else "%";
    if fmt == [] then Err(BadFormat)
    else
      var code := match fmt[0]
        case 'A' => Some('s')
        case 'I' => Some('d')
        case 'F' => Some('f')
        case 'E' => Some('E')
        case 'D' => Some('E')
        case _ => None;
      if code.None? then Err(BadFormat) else Ok(pc + fmt[1..] + [code.value])
  }

  /** One row's text: `(' '*lead + template + ' '*trail) % value`. */
  function AsciiCell(codec: Codec, template: string, lead: int, trail: int, v: Cell): (r: string)
    ensures var x := codec.formatValue(template, v);
      var a := if lead < 0 then 0 else lead;
      var b := if trail < 0 then 0 else trail;
      && |r| == a + |x| + b
      && r[a..a + |x|] == x
      && (forall k :: 0 <= k < a ==> r[k] == ' ')
      && (forall k :: a + |x| <= k < |r| ==> r[k] == ' ')
  {
    Spaces(lead) + codec.formatValue(template, v) + Spaces(trail)
  }

  /** The state of one column's raw storage while rows are written, and the error that stopped it. */
  datatype ColumnWrite = ColumnWrite(err: Option<Error>, col: seq<Cell>)

  /**
   * The rows 0 .. n-1 of the ASCII write loop: each value formatted, refused with
   * FieldTooNarrow when longer than the span between this column's start and the next
   * one's, with IndexError past the storage's last row; the first failure stops the loop.
   */
  function AsciiWrite(codec: Codec, template: string, lead: int, trail: int, span: int,
                      dummy: seq<Cell>, col: seq<Cell>, n: nat): (r: ColumnWrite)
    requires n <= |dummy|
    ensures |r.col| == |col|
  {
    if n == 0 then ColumnWrite(None, col)
    else
      var prev := AsciiWrite(codec, template, lead, trail, span, dummy, col, n - 1);
      if prev.err.Some? then prev
      else
        var x := AsciiCell(codec, template, lead, trail, dummy[n - 1]);
        if |x| > span then ColumnWrite(Some(FieldTooNarrow), prev.col)
        else if n - 1 >= |prev.col| then ColumnWrite(Some(IndexOutOfRange), prev.col)
        else ColumnWrite(None, prev.col[n - 1 := Text(x)])
  }

  /** Once a row fails, the loop has stopped: later rows change neither the error nor the column. */
  lemma {:induction false} AsciiWriteStops(codec: Codec, template: string, lead: int, trail: int, span: int,
                                          dummy: seq<Cell>, col: seq<Cell>, m: nat, n: nat)
    requires m <= n <= |dummy|
    requires AsciiWrite(codec, template, lead, trail, span, dummy, col, m).err.Some?
    ensures AsciiWrite(codec, template, lead, trail, span, dummy, col, n)
         == AsciiWrite(codec, template, lead, trail, span, dummy, col, m)
    decreases n
  {
    if n > m {
      AsciiWriteStops(codec, template, lead, trail, span, dummy, col, m, n - 1);
    }
  }

  predicate AllFit(codec: Codec, template: string, lead: int, trail: int, span: int, dummy: seq<Cell>, n: nat)
    requires n <= |dummy|
  {
    forall i :: 0 <= i < n ==> |AsciiCell(codec, template, lead, trail, dummy[i])| <= span
  }

  /**
   * The write loop succeeds exactly when every value fits and the storage has a row for
   * each; then row i holds value i's text and the rows past n are untouched.
   */
  lemma {:induction false} AsciiWriteMeaning(codec: Codec, template: string, lead: int, trail: int,
                                            span: int, dummy: seq<Cell>, col: seq<Cell>, n: nat)
    requires n <= |dummy|
    ensures var r := AsciiWrite(codec, template, lead, trail, span, dummy, col, n);
      (r.err.None? <==> AllFit(codec, template, lead, trail, span, dummy, n) && n <= |col|) &&
      (r.err.Some? ==> r.err.value == FieldTooNarrow || r.err.value == IndexOutOfRange) &&
      (r.err.None? ==> forall i :: 0 <= i < n ==> r.col[i] == Text(AsciiCell(codec, template, lead, trail, dummy[i]))) &&
      (forall i :: n <= i < |col| ==> r.col[i] == col[i])
  {
    if n > 0 {
      AsciiWriteMeaning(codec, template, lead, trail, span, dummy, col, n - 1);
    }
  }

  /**
   * With the leading gap 0 and a non-negative trailing gap, the span check
   * `len(x) > loc[k+1] - loc[k]` is the same as the formatted value exceeding the width.
   */
  lemma SpanCheckIsWidthCheck(codec: Codec, template: string, v: Cell, start: int, next: int, width: int)
    requires next - width - start >= 0
    ensures |AsciiCell(codec, template, 0, next - width - start, v)| <= next - start
        <==> |codec.formatValue(template, v)| <= width
  {
  }
}

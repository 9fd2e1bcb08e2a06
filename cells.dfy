/**
 * Cell values of a table, Python's index and slice normalisation, the 'T'/'F'
 * encoding of logical columns, and the text helpers the ASCII codec uses.
 */
module Cells {
  import opened Results

  /**
   * One element of a column, raw or logical. Raw storage of a logical column holds
   * bytes (Num), a variable-length column holds descriptors (Desc), an ASCII column
   * holds text (Text). Values the model does not interpret (floating-point
   * numbers, complex numbers) are Other.
   */
  datatype Cell =
    | Num(n: int)
    | Flag(b: bool)
    | Text(s: string)
    | Desc(count: int, offset: int)
    | Arr(items: seq<Cell>)
    | Other(tag: int)

  /** The byte codes of the characters 'T' and 'F'. */
  const ByteT: int := 'T' as int
  const ByteF: int := 'F' as int

  // ---------------------------------------------------------------------------
  // Python indexing of a sequence of length n: negative indices count from the end.

  function PyIndex(i: int, n: nat): Option<nat>
  {
    if 0 <= i < n then Some(i) else if 0 <= i + n && i < 0 then Some(i + n) else None
  }

  /** `col[i]`, with IndexError outside -|col| .. |col|-1. */
  function At(col: seq<Cell>, i: int): (r: Result<Cell>)
    ensures r.Ok? <==> -|col| <= i < |col|
    ensures 0 <= i < |col| ==> r == Ok(col[i])
    ensures -|col| <= i < 0 ==> r == Ok(col[|col| + i])
  {
    match PyIndex(i, |col|)
    case None => Err(IndexOutOfRange)
    case Some(k) => Ok(col[k])
  }

  /** `col[i] = v` on a copy, with IndexError outside -|col| .. |col|-1. */
  function Put(col: seq<Cell>, i: int, v: Cell): (r: Result<seq<Cell>>)
    ensures r.Ok? <==> -|col| <= i < |col|
    ensures r.Ok? ==> |r.value| == |col|
    ensures r.Ok? ==> forall k :: 0 <= k < |col| ==>
      r.value[k] == if k == i || k == i + |col| then v else col[k]
  {
    match PyIndex(i, |col|)
    case None => Err(IndexOutOfRange)
    case Some(k) => Ok(col[k := v])
  }

  /**
   * The row range [lo, hi) that Python's `x[i:j]` selects from a sequence of length n: a
   * negative bound counts from the end, each bound is clamped to [0, n], and an end
   * before the start gives an empty range at the start.
   */
  function SliceBounds(i: int, j: int, n: nat): (r: (nat, nat))
    ensures r.0 <= r.1 <= n
    ensures 0 <= i <= n ==> r.0 == i
    ensures 0 <= i <= j <= n ==> r.1 == j
    ensures r.0 == if i < 0 then (if i + n < 0 then 0 else i + n) else (if i > n then n else i)
    ensures var hi := if j < 0 then (if j + n < 0 then 0 else j + n) else (if j > n then n else j);
      r.1 == if hi < r.0 then r.0 else hi
  {
    var lo := if i < 0 then (if i + n < 0 then 0 else i + n) else (if i > n then n else i);
    var hi := if j < 0 then (if j + n < 0 then 0 else j + n) else (if j > n then n else j);
    (lo, if hi < lo then lo else hi)
  }

  function SliceOf(col: seq<Cell>, i: int, j: int): seq<Cell>
  {
    var (lo, hi) := SliceBounds(i, j, |col|);
    col[lo..hi]
  }

  // ---------------------------------------------------------------------------
  // Logical (boolean) columns: raw bytes 'T' and 'F'.

  /** `np.equal(raw, ord('T'))` for one element. */
  function DecodeBoolCell(c: Cell): Cell
  {
    Flag(c == Num(ByteT))
  }

  /** Python truthiness, which numpy's choice between 'F' and 'T' applies to a cell. */
  predicate Truthy(c: Cell)
  {
    match c
    case Num(n) => n != 0
    case Flag(b) => b
    case Text(s) => s != ""
    case Desc(_, _) => true
    case Arr(items) => items != []
    case Other(_) => true
  }

  /** `np.choose(value, ('F', 'T'))` for one element. */
  function EncodeBoolCell(c: Cell): Cell
  {
    Num(if Truthy(c) then ByteT else ByteF)
  }

  /** A raw logical column read as flags: true exactly where the byte is 'T'. */
  function DecodeBool(raw: seq<Cell>): (r: seq<Cell>)
    ensures |r| == |raw|
    ensures forall i :: 0 <= i < |raw| ==> r[i].Flag? && (r[i].b <==> raw[i] == Num(ByteT))
  {
    seq(|raw|, i requires 0 <= i < |raw| => DecodeBoolCell(raw[i]))
  }

  /** A logical column written as bytes: 'T' for every truthy cell, 'F' for every other. */
  function EncodeBool(col: seq<Cell>): (r: seq<Cell>)
    ensures |r| == |col|
    ensures forall i :: 0 <= i < |col| ==> r[i].Num? && (r[i].n == ByteT <==> Truthy(col[i]))
    ensures forall i :: 0 <= i < |col| ==> r[i].Num? && (r[i].n == ByteF <==> !Truthy(col[i]))
  {
    seq(|col|, i requires 0 <= i < |col| => EncodeBoolCell(col[i]))
  }

  ghost predicate AllFlags(col: seq<Cell>)
  {
    forall i :: 0 <= i < |col| ==> col[i].Flag?
  }

  /** Encoding writes nothing but the bytes 'T' and 'F', 'T' exactly for true values. */
  lemma EncodeBoolWritesTF(col: seq<Cell>)
    ensures |EncodeBool(col)| == |col|
    ensures forall i :: 0 <= i < |col| ==>
      EncodeBool(col)[i] == (if Truthy(col[i]) then Num(ByteT) else Num(ByteF))
  {
  }

  /** Decoding a logical column's encoding gives back the logical column. */
  lemma BoolRoundTrip(col: seq<Cell>)
    requires AllFlags(col)
    ensures DecodeBool(EncodeBool(col)) == col
  {
    var back := DecodeBool(EncodeBool(col));
    forall i | 0 <= i < |col|
      ensures back[i] == col[i]
    {
      assert EncodeBool(col)[i] == EncodeBoolCell(col[i]);
    }
  }

  /** Encoding after decoding keeps every 'T' byte and turns every other byte into 'F'. */
  lemma DecodeThenEncode(raw: seq<Cell>)
    ensures |EncodeBool(DecodeBool(raw))| == |raw|
    ensures forall i :: 0 <= i < |raw| && raw[i] == Num(ByteT) ==>
      EncodeBool(DecodeBool(raw))[i] == raw[i]
    ensures forall i :: 0 <= i < |raw| && raw[i] != Num(ByteT) ==>
      EncodeBool(DecodeBool(raw))[i] == Num(ByteF)
  {
    forall i | 0 <= i < |raw|
      ensures EncodeBool(DecodeBool(raw))[i] == EncodeBoolCell(DecodeBoolCell(raw[i]))
    {
    }
  }

  /** Decoding yields booleans only, so a second round trip changes nothing. */
  lemma DecodeBoolIsLogical(raw: seq<Cell>)
    ensures AllFlags(DecodeBool(raw))
    ensures DecodeBool(EncodeBool(DecodeBool(raw))) == DecodeBool(raw)
  {
    BoolRoundTrip(DecodeBool(raw));
  }

  // ---------------------------------------------------------------------------
  // Text helpers: Python's str.strip() and single-character str.replace().

  predicate IsSpace(c: char)
  {
    c == ' ' || c == '\t' || c == '\n' || c == '\r' || c as int == 11 || c as int == 12
  }

  function TrimLeft(s: string): (r: string)
    ensures |r| <= |s| && r == s[|s| - |r|..]
    ensures r != [] ==> !IsSpace(r[0])
    ensures forall k :: 0 <= k < |s| - |r| ==> IsSpace(s[k])
  {
    if s != [] && IsSpace(s[0]) then TrimLeft(s[1..]) else s
  }

  function TrimRight(s: string): (r: string)
    ensures |r| <= |s| && r == s[..|r|]
    ensures r != [] ==> !IsSpace(r[|r| - 1])
    ensures forall k :: |r| <= k < |s| ==> IsSpace(s[k])
  {
    if s != [] && IsSpace(s[|s| - 1]) then TrimRight(s[..|s| - 1]) else s
  }

  /** Python's `s.strip()`: the text without its leading and trailing white space. */
  function Strip(s: string): (r: string)
    ensures exists a, b ::
      && 0 <= a <= b <= |s| && r == s[a..b]
      && (forall k :: 0 <= k < a ==> IsSpace(s[k]))
      && (forall k :: b <= k < |s| ==> IsSpace(s[k]))
    ensures r != [] ==> !IsSpace(r[0]) && !IsSpace(r[|r| - 1])
  {
    var t := TrimLeft(s);
    var r := TrimRight(t);
    TrimmedBothEnds(s, |s| - |t|, t, r);
    r
  }

  /** Cutting a leading run of white space and then a trailing one leaves a slice of s with white space outside it. */
  lemma TrimmedBothEnds(s: string, a: nat, t: string, r: string)
    requires a <= |s| && t == s[a..] && |r| <= |t| && r == t[..|r|]
    requires forall k :: 0 <= k < a ==> IsSpace(s[k])
    requires forall k :: |r| <= k < |t| ==> IsSpace(t[k])
    ensures exists a, b ::
      && 0 <= a <= b <= |s| && r == s[a..b]
      && (forall k :: 0 <= k < a ==> IsSpace(s[k]))
      && (forall k :: b <= k < |s| ==> IsSpace(s[k]))
  {
    var b := a + |r|;
    assert r == s[a..b];
    forall k | b <= k < |s|
      ensures IsSpace(s[k])
    {
      assert s[k] == t[k - a];
    }
  }

  /** Python's `s.replace(a, b)` for single characters. */
  function Replace(s: string, a: char, b: char): (r: string)
    ensures |r| == |s|
    ensures a != b ==> a !in r
    ensures forall k :: 0 <= k < |s| && s[k] != a ==> r[k] == s[k]
    ensures forall k :: 0 <= k < |s| && s[k] == a ==> r[k] == b
  {
    seq(|s|, k requires 0 <= k < |s| => if s[k] == a then b else s[k])
  }

  function Spaces(n: int): (r: string)
    ensures |r| == if n < 0 then 0 else n
    ensures forall k :: 0 <= k < |r| ==> r[k] == ' '
  {
    if n <= 0 then "" else Spaces(n - 1) + " "
  }
}

/**
 * Rows of a table as bytes (src/query/row_format.c:3-51, bindings/python/kanbudb/__init__.py:677-702) and the join
 * step of a query (src/query/query_builder.c:620-713). A value is its byte string; lengths are below 2^31.
 */
module Rows {
  import opened Keys
  import opened Records

  const MAX_COLS := 64
  const I32 := 0x8000_0000

  datatype ColType = Int32 | Int64 | Float | Double | Bool | String | Blob

  /** Bytes of a fixed-size column, 0 for a variable one. */
  function Size(t: ColType): (n: nat) {
    match t
    case Int32 => 4
    case Int64 => 8
    case Float => 4
    case Double => 8
    case Bool => 1
    case _ => 0
  }

  /** The sizes of the types, one by one. */
  ghost predicate SizeIs(t: ColType, n: nat) {
    ((t == Int32 || t == Float) <==> n == 4) && ((t == Int64 || t == Double) <==> n == 8) && (t == Bool <==> n == 1) &&
    ((t == String || t == Blob) <==> n == 0)
  }

  predicate ValueOk(t: ColType, v: Bytes) {
    if Size(t) > 0 then |v| == Size(t) else |v| < I32
  }

  ghost predicate RowOk(ts: seq<ColType>, vs: seq<Bytes>) {
    |ts| == |vs| && forall i :: 0 <= i < |ts| ==> ValueOk(ts[i], vs[i])
  }

  /** A variable column has its length in front. */
  function Field(t: ColType, v: Bytes): (b: Bytes) {
    if Size(t) > 0 then v else LE(|v|, 4) + v
  }

  function Encode(ts: seq<ColType>, vs: seq<Bytes>): (b: Bytes)
    requires |ts| == |vs|
  {
    if ts == [] then [] else Encode(ts[..|ts| - 1], vs[..|vs| - 1]) + Field(ts[|ts| - 1], vs[|vs| - 1])
  }

  // ---- schema --------------------------------------------------------------------------------------

  /** The place a fixed column would have if every variable one before it were empty. */
  function FixedPlace(ts: seq<ColType>, i: nat): (p: nat)
    requires i <= |ts|
  {
    if i == 0 then 0 else FixedPlace(ts, i - 1) + if Size(ts[i - 1]) > 0 then Size(ts[i - 1]) else 4
  }

  /** Sizes and places of the first 64 columns; a variable column has size 0 and place -1. */
  datatype Schema = Schema(numCols: nat, sizes: seq<nat>, offsets: seq<int>)

  function SizesTo(ts: seq<ColType>, n: nat): (r: seq<nat>)
    requires n <= |ts|
  {
    seq<nat>(n, i requires 0 <= i < n => Size(ts[i]))
  }

  function OffsetsTo(ts: seq<ColType>, n: nat): (r: seq<int>)
    requires n <= |ts|
  {
    seq<int>(n, i requires 0 <= i < n => if Size(ts[i]) > 0 then FixedPlace(ts, i) else -1)
  }

  function SchemaOf(ts: seq<ColType>): (s: Schema) {
    var n := if |ts| < MAX_COLS then |ts| else MAX_COLS;
    Schema(|ts|, SizesTo(ts, n), OffsetsTo(ts, n))
  }

  lemma SchemaStep(ts: seq<ColType>, i: nat)
    requires i < |ts|
    ensures SizesTo(ts, i + 1) == SizesTo(ts, i) + [Size(ts[i])]
    ensures OffsetsTo(ts, i + 1) == OffsetsTo(ts, i) + [if Size(ts[i]) > 0 then FixedPlace(ts, i) else -1]
  {
  }

  /** row_schema_init: at most 64 columns; a fixed one lies behind those before it, of which a variable one takes 4 bytes. */
  method SchemaInit(ts: seq<ColType>) returns (s: Schema)
    ensures s == SchemaOf(ts)
    ensures |s.sizes| == |s.offsets| == if |ts| < 64 then |ts| else 64
    ensures forall i :: 0 <= i < |s.sizes| ==> SizeIs(ts[i], s.sizes[i])
  {
    var sizes: seq<nat>, offsets: seq<int>, offset := [], [], 0;
    var i := 0;
    while i < |ts| && i < MAX_COLS
      invariant i <= |ts| && i <= MAX_COLS && offset == FixedPlace(ts, i)
      invariant sizes == SizesTo(ts, i) && offsets == OffsetsTo(ts, i)
    {
      SchemaStep(ts, i);
      var size := Size(ts[i]);
      sizes, offsets := sizes + [size], offsets + [if size > 0 then offset else -1];
      offset := offset + if size > 0 then size else 4;
      i := i + 1;
    }
    s := Schema(|ts|, sizes, offsets);
  }

  // ---- extraction ----------------------------------------------------------------------------------

  function U32At(b: Bytes, p: nat): (n: nat)
    requires p + 4 <= |b|
  {
    FromLE(b[p..p + 4])
  }

  /** A cast to a signed 32-bit integer. */
  function Signed(n: nat): (i: int)
    ensures -0x8000_0000 <= i < 0x8000_0000 && (n - i) % 0x1_0000_0000 == 0
    ensures n < I32 ==> i == n
    ensures I32 <= n < 2 * I32 ==> i < 0
  {
    var m := n % (2 * I32);
    if m < I32 then m else m - 2 * I32
  }

  /** Where the walk over the columns stands: at an offset, ended by the check of the row length, or gone wrong by a sum that
      does not fit 32 bits or a read outside the row. */
  datatype Spot = At(offset: int) | Short | Wrong

  function Moved(n: int): (r: Spot)
    ensures r.At? <==> -0x8000_0000 <= n < 0x8000_0000
    ensures r != Short && (r.At? ==> r.offset == n)
  {
    if -I32 <= n < I32 then At(n) else Wrong
  }

  /** One round of the loop of lines 29-38. */
  function Advance(size: nat, row: Bytes, offset: int): (r: Spot)
    ensures r == Short <==> size == 0 && Signed(|row|) < offset + 4 <= 0x7fff_ffff
    ensures r.At? ==> -0x8000_0000 <= r.offset <= 0x7fff_ffff && (size == 0 ==> offset + 4 <= 0x7fff_ffff)
  {
    if size > 0 then Moved(offset + size)
    else if offset + 4 >= I32 then Wrong
    else if offset + 4 > Signed(|row|) then Short
    else if offset < 0 || offset + 4 > |row| then Wrong
    else
      var step := 4 + Signed(U32At(row, offset));
      if step >= I32 then Wrong else Moved(offset + step)
  }

  function Skip(s: Schema, i: nat, row: Bytes): (r: Spot) {
    if i == 0 then At(0)
    else
      var o := Skip(s, i - 1, row);
      if !o.At? then o else if i - 1 < |s.sizes| then Advance(s.sizes[i - 1], row, o.offset) else Wrong
  }

  /** The place and length of a column. */
  datatype Column = Column(place: int, len: int) | Missing | Undefined

  function ColumnAt(size: nat, row: Bytes, offset: int): (r: Column)
    ensures var end := offset + if size > 0 then size else 4;
            (end > 0x7fff_ffff ==> r == Undefined) && (r == Missing <==> Signed(|row|) < end <= 0x7fff_ffff)
  {
    if size > 0 then
      if offset + size >= I32 then Undefined else if offset + size > Signed(|row|) then Missing else Column(offset, size)
    else if offset + 4 >= I32 then Undefined
    else if offset + 4 > Signed(|row|) then Missing
    else if offset < 0 || offset + 4 > |row| then Undefined
    else Column(offset + 4, Signed(U32At(row, offset)))
  }

  function Extracted(s: Schema, col: int, row: Bytes): (r: Column) {
    if col < 0 || col >= s.numCols then Missing
    else
      match Skip(s, col, row)
      case Short => Missing
      case Wrong => Undefined
      case At(offset) => if col < |s.sizes| then ColumnAt(s.sizes[col], row, offset) else Undefined
  }

  /** row_extract_column on any bytes */
  method Extract(s: Schema, col: int, row: Bytes) returns (r: Column)
    ensures r == Extracted(s, col, row)
  {
    if col < 0 || col >= s.numCols { return Missing; }
    var offset := 0;
    for i := 0 to col
      invariant Skip(s, i, row) == At(offset)
    {
      var next := if i < |s.sizes| then Advance(s.sizes[i], row, offset) else Wrong;
      if !next.At? {
        SkipStays(s, i + 1, col, row);
        return if next.Short? then Missing else Undefined;
      }
      offset := next.offset;
    }
    r := if col < |s.sizes| then ColumnAt(s.sizes[col], row, offset) else Undefined;
  }

  lemma {:induction false} SkipStays(s: Schema, i: nat, j: nat, row: Bytes)
    requires i <= j && !Skip(s, i, row).At?
    ensures Skip(s, j, row) == Skip(s, i, row)
  {
    if i < j { SkipStays(s, i, j - 1, row); }
  }

  // ---- round trip ----------------------------------------------------------------------------------

  lemma Window(a: Bytes, x: Bytes, c: Bytes)
    ensures (a + x + c)[|a|..|a| + |x|] == x && |a + x + c| == |a| + |x| + |c|
  {
  }

  lemma {:induction false} EncodeAppend(ts: seq<ColType>, vs: seq<Bytes>, us: seq<ColType>, ws: seq<Bytes>)
    requires |ts| == |vs| && |us| == |ws|
    ensures Encode(ts + us, vs + ws) == Encode(ts, vs) + Encode(us, ws)
  {
    if us == [] {
      assert ts + us == ts && vs + ws == vs;
      AppendNone(Encode(ts, vs));
    } else {
      var n := |us| - 1;
      EncodeAppend(ts, vs, us[..n], ws[..n]);
      assert (ts + us)[..|ts + us| - 1] == ts + us[..n] && (vs + ws)[..|vs + ws| - 1] == vs + ws[..n];
      Assoc(Encode(ts, vs), Encode(us[..n], ws[..n]), Field(us[n], ws[n]));
    }
  }

  lemma EncodeSingle(t: ColType, v: Bytes)
    ensures Encode([t], [v]) == Field(t, v)
  {
    assert [t][..0] == [] && [v][..0] == [] && [] + Field(t, v) == Field(t, v);
  }

  lemma AppendNone(b: Bytes)
    ensures b + [] == b
  {
  }

  /** A row starts with the encoding of its first columns, then column i, then the rest. */
  lemma RowSplit(ts: seq<ColType>, vs: seq<Bytes>, i: nat) returns (rest: Bytes)
    requires |ts| == |vs| && i < |ts|
    ensures Encode(ts, vs) == Encode(ts[..i], vs[..i]) + Field(ts[i], vs[i]) + rest
  {
    rest := Encode(ts[i + 1..], vs[i + 1..]);
    ThreeParts(ts, i);
    ThreeParts(vs, i);
    EncodeAppend(ts[..i], vs[..i], [ts[i]], [vs[i]]);
    EncodeSingle(ts[i], vs[i]);
    EncodeAppend(ts[..i] + [ts[i]], vs[..i] + [vs[i]], ts[i + 1..], vs[i + 1..]);
  }

  lemma ThreeParts<T>(s: seq<T>, i: nat)
    requires i < |s|
    ensures s == s[..i] + [s[i]] + s[i + 1..]
  {
  }

  /** The length in front of a variable value reads back. */
  lemma LengthReads(a: Bytes, v: Bytes, c: Bytes)
    requires |v| < I32
    ensures |a| + 4 + |v| <= |a + (LE(|v|, 4) + v) + c| && U32At(a + (LE(|v|, 4) + v) + c, |a|) == |v|
    ensures (a + (LE(|v|, 4) + v) + c)[|a| + 4..|a| + 4 + |v|] == v
  {
    var n := LE(|v|, 4);
    var b := a + (n + v) + c;
    assert b == a + n + (v + c) && b == (a + n) + v + c;
    Window(a, n, v + c);
    Window(a + n, v, c);
    Pow256Values();
    LERoundTrip(|v|, 4);
  }

  /** The field of a value stands at p. */
  ghost predicate FieldAt(row: Bytes, p: nat, t: ColType, v: Bytes) {
    p + |Field(t, v)| <= |row| &&
    if Size(t) > 0 then row[p..p + |v|] == v
    else p + 4 + |v| <= |row| && U32At(row, p) == |v| && row[p + 4..p + 4 + |v|] == v
  }

  /** Where column i starts: the total size of the fields before it. */
  ghost function Start(ts: seq<ColType>, vs: seq<Bytes>, i: nat): (p: nat)
    requires i <= |ts| == |vs|
  {
    if i == 0 then 0 else Start(ts, vs, i - 1) + |Field(ts[i - 1], vs[i - 1])|
  }

  lemma {:induction false} StartIs(ts: seq<ColType>, vs: seq<Bytes>, i: nat)
    requires i <= |ts| == |vs|
    ensures Start(ts, vs, i) == |Encode(ts[..i], vs[..i])|
  {
    if i > 0 {
      var k := i - 1;
      StartIs(ts, vs, k);
      EncodeStep(ts, vs, k);
      JoinSize(Encode(ts[..k], vs[..k]), Field(ts[k], vs[k]), Encode(ts[..i], vs[..i]));
    }
  }

  lemma JoinSize(a: Bytes, x: Bytes, b: Bytes)
    requires b == a + x
    ensures |b| == |a| + |x|
  {
  }

  /** The bytes of the variable values before column i. */
  ghost function VarBytes(ts: seq<ColType>, vs: seq<Bytes>, i: nat): (n: nat)
    requires i <= |ts| == |vs|
  {
    if i == 0 then 0 else VarBytes(ts, vs, i - 1) + if Size(ts[i - 1]) > 0 then 0 else |vs[i - 1]|
  }

  lemma {:induction false} StartIsPlace(ts: seq<ColType>, vs: seq<Bytes>, i: nat)
    requires RowOk(ts, vs) && i <= |ts|
    ensures Start(ts, vs, i) == FixedPlace(ts, i) + VarBytes(ts, vs, i)
  {
    if i > 0 {
      StartIsPlace(ts, vs, i - 1);
      FieldSize(ts[i - 1], vs[i - 1]);
    }
  }

  lemma {:induction false} VarBytesZero(ts: seq<ColType>, vs: seq<Bytes>, i: nat)
    requires i <= |ts| == |vs|
    ensures VarBytes(ts, vs, i) == 0 <==> EmptyVars(ts, vs, i)
  {
    if i > 0 {
      VarBytesZero(ts, vs, i - 1);
      EmptyVarsStep(ts, vs, i);
    }
  }

  /** The place recorded for a fixed column is where it starts exactly when the variable values before it are empty. */
  lemma FixedPlaceIff(ts: seq<ColType>, vs: seq<Bytes>, i: nat)
    requires RowOk(ts, vs) && i < |ts| <= MAX_COLS && Size(ts[i]) > 0
    ensures SchemaOf(ts).offsets[i] == Start(ts, vs, i) <==> EmptyVars(ts, vs, i)
  {
    StartIsPlace(ts, vs, i);
    VarBytesZero(ts, vs, i);
  }

  lemma FieldSize(t: ColType, v: Bytes)
    requires ValueOk(t, v)
    ensures |Field(t, v)| == if Size(t) > 0 then Size(t) else 4 + |v|
  {
  }

  ghost predicate EmptyVars(ts: seq<ColType>, vs: seq<Bytes>, i: nat)
    requires i <= |ts| == |vs|
  {
    forall j :: 0 <= j < i && Size(ts[j]) == 0 ==> vs[j] == []
  }

  lemma EmptyVarsStep(ts: seq<ColType>, vs: seq<Bytes>, i: nat)
    requires 0 < i <= |ts| == |vs|
    ensures EmptyVars(ts, vs, i) <==> EmptyVars(ts, vs, i - 1) && (Size(ts[i - 1]) == 0 ==> vs[i - 1] == [])
  {
  }

  lemma FieldHere(row: Bytes, ts: seq<ColType>, vs: seq<Bytes>, post: Bytes, i: nat)
    requires RowOk(ts, vs) && i < |ts| && row == Encode(ts, vs) + post
    ensures FieldAt(row, Start(ts, vs, i), ts[i], vs[i])
  {
    StartIs(ts, vs, i);
    var rest := RowSplit(ts, vs, i);
    var a, x := Encode(ts[..i], vs[..i]), Field(ts[i], vs[i]);
    Assoc(a + x, rest, post);
    Window(a, x, rest + post);
    if Size(ts[i]) == 0 { LengthReads(a, vs[i], rest + post); }
  }

  lemma SkipStep(row: Bytes, p: nat, t: ColType, v: Bytes)
    requires |row| < I32 && ValueOk(t, v) && FieldAt(row, p, t, v)
    ensures Advance(Size(t), row, p) == At(p + |Field(t, v)|)
  {
  }

  lemma SkipOne(s: Schema, k: nat, row: Bytes, p: nat, t: ColType, v: Bytes)
    requires Skip(s, k, row) == At(p) && k < |s.sizes| && s.sizes[k] == Size(t)
    requires |row| < I32 && ValueOk(t, v) && FieldAt(row, p, t, v)
    ensures Skip(s, k + 1, row) == At(p + |Field(t, v)|)
  {
    SkipStep(row, p, t, v);
  }

  lemma EncodeStep(ts: seq<ColType>, vs: seq<Bytes>, i: nat)
    requires |ts| == |vs| && i < |ts|
    ensures Encode(ts[..i + 1], vs[..i + 1]) == Encode(ts[..i], vs[..i]) + Field(ts[i], vs[i])
  {
    assert ts[..i + 1][..i] == ts[..i] && vs[..i + 1][..i] == vs[..i];
  }

  /** Column i starts after the fields before it. */
  lemma {:induction false} SkipIs(row: Bytes, ts: seq<ColType>, vs: seq<Bytes>, post: Bytes, s: Schema, i: nat)
    requires RowOk(ts, vs) && row == Encode(ts, vs) + post && |row| < I32 && i <= |ts|
    requires i <= |s.sizes| && forall k :: 0 <= k < i ==> s.sizes[k] == Size(ts[k])
    ensures Skip(s, i, row) == At(Start(ts, vs, i))
  {
    if i > 0 {
      var k := i - 1;
      SkipIs(row, ts, vs, post, s, k);
      FieldHere(row, ts, vs, post, k);
      SkipOne(s, k, row, Start(ts, vs, k), ts[k], vs[k]);
    }
  }

  /** The column read at the given place is v. */
  ghost predicate Gives(r: Column, row: Bytes, v: Bytes) {
    r.Column? && 0 <= r.place <= r.place + r.len <= |row| && row[r.place..r.place + r.len] == v
  }

  lemma ColumnHere(row: Bytes, p: nat, t: ColType, v: Bytes)
    requires |row| < I32 && ValueOk(t, v) && FieldAt(row, p, t, v)
    ensures Gives(ColumnAt(Size(t), row, p), row, v)
  {
  }

  /** Extracting column i of an encoded row gives back value i, whatever follows the row, for up to 64 columns and rows
      below 2^31 bytes. */
  lemma ExtractRoundTrip(row: Bytes, ts: seq<ColType>, vs: seq<Bytes>, post: Bytes, i: nat)
    requires RowOk(ts, vs) && i < |ts| <= MAX_COLS && row == Encode(ts, vs) + post && |row| < I32
    ensures Gives(Extracted(SchemaOf(ts), i, row), row, vs[i])
  {
    SkipIs(row, ts, vs, post, SchemaOf(ts), i);
    FieldHere(row, ts, vs, post, i);
    ColumnHere(row, Start(ts, vs, i), ts[i], vs[i]);
  }

  /** From 2^31 bytes on the cast of the row length is negative, and no column is found. */
  lemma {:induction false} SkipLong(s: Schema, i: nat, row: Bytes)
    requires I32 <= |row| < 2 * I32 && i <= |s.sizes| <= MAX_COLS && forall k :: 0 <= k < |s.sizes| ==> s.sizes[k] <= 8
    ensures Skip(s, i, row).Short? || (Skip(s, i, row).At? && 0 <= Skip(s, i, row).offset <= 8 * i)
  {
    if i > 0 { SkipLong(s, i - 1, row); }
  }

  /** Below 2^32 bytes, the round trip holds exactly for rows below 2^31 bytes. */
  lemma ExtractIff(row: Bytes, ts: seq<ColType>, vs: seq<Bytes>, post: Bytes, i: nat)
    requires RowOk(ts, vs) && i < |ts| <= MAX_COLS && row == Encode(ts, vs) + post && |row| < 2 * I32
    ensures Gives(Extracted(SchemaOf(ts), i, row), row, vs[i]) <==> |row| < I32
    ensures |row| >= I32 ==> Extracted(SchemaOf(ts), i, row) == Missing
  {
    if |row| < I32 {
      ExtractRoundTrip(row, ts, vs, post, i);
    } else {
      SkipLong(SchemaOf(ts), i, row);
    }
  }

  // ---- join ----------------------------------------------------------------------------------------

  function Without<T>(s: seq<T>, k: nat): (r: seq<T>)
    requires k < |s|
  {
    s[..k] + s[k + 1..]
  }

  /** The first j columns of the foreign row, without the join column. */
  ghost function Others<T>(s: seq<T>, k: nat, j: nat): (r: seq<T>)
    requires k < |s| && j <= |s|
  {
    if j == 0 then [] else if j - 1 == k then Others(s, k, j - 1) else Others(s, k, j - 1) + [s[j - 1]]
  }

  lemma {:induction false} OthersIs<T>(s: seq<T>, k: nat, j: nat)
    requires k < |s| && j <= |s|
    ensures Others(s, k, j) == if j <= k then s[..j] else s[..k] + s[k + 1..j]
  {
    if j > 0 { OthersIs(s, k, j - 1); }
  }

  /** What a foreign column adds to a joined row: nothing if it is missing, its bytes with their length in front if it is a
      string or a blob (lines 689-700); None if it reaches outside the row. */
  function Piece(t: ColType, r: Column, row: Bytes): (b: Option<Bytes>) {
    match r
    case Missing => Some([])
    case Undefined => None
    case Column(p, n) =>
      if p < 0 || n < 0 || p + n > |row| then None
      else Some(if t == String || t == Blob then LE(n, 4) + row[p..p + n] else row[p..p + n])
  }

  function Joined(a: Option<Bytes>, b: Option<Bytes>): (r: Option<Bytes>) {
    if a == None || b == None then None else Some(a.value + b.value)
  }

  /** What the first j foreign columns other than the join column add. */
  function Pieces(s: Schema, ts: seq<ColType>, row: Bytes, k: nat, j: nat): (r: Option<Bytes>)
    requires j <= |ts|
  {
    if j == 0 then Some([])
    else if j - 1 == k then Pieces(s, ts, row, k, j - 1)
    else Joined(Pieces(s, ts, row, k, j - 1), Piece(ts[j - 1], Extracted(s, j - 1, row), row))
  }

  /** The joined row, if no column reaches outside the foreign row and its size fits 32 bits. */
  function JoinedRow(local: Bytes, ts: seq<ColType>, foreign: Bytes, k: nat): (r: Option<Bytes>) {
    var tail := Pieces(SchemaOf(ts), ts, foreign, k, |ts|);
    if tail == None || |local| + |tail.value| >= I32 then None else Some(local + tail.value)
  }

  /** Lines 637-702 on any foreign row: the local row followed by the foreign columns other than the join column. */
  method JoinRow(local: Bytes, ftypes: seq<ColType>, foreign: Bytes, fc: nat) returns (combined: Option<Bytes>)
    requires fc < |ftypes|
    ensures combined == JoinedRow(local, ftypes, foreign, fc)
  {
    var schema := SchemaInit(ftypes);
    var tail: Bytes := [];
    for j := 0 to |ftypes|
      invariant Pieces(schema, ftypes, foreign, fc, j) == Some(tail)
    {
      if j == fc { continue; }
      var r := Extract(schema, j, foreign);
      var piece := Piece(ftypes[j], r, foreign);
      if piece == None {
        PiecesStay(schema, ftypes, foreign, fc, j + 1, |ftypes|);
        return None;
      }
      tail := tail + piece.value;
    }
    combined := if |local| + |tail| >= I32 then None else Some(local + tail);
  }

  lemma {:induction false} PiecesStay(s: Schema, ts: seq<ColType>, row: Bytes, k: nat, i: nat, j: nat)
    requires i <= j <= |ts| && Pieces(s, ts, row, k, i) == None
    ensures Pieces(s, ts, row, k, j) == None
  {
    if i < j { PiecesStay(s, ts, row, k, i, j - 1); }
  }

  /** An encoded foreign row adds its values without the join column. */
  lemma JoinedEncoding(local: Bytes, ts: seq<ColType>, vs: seq<Bytes>, post: Bytes, foreign: Bytes, fc: nat)
    requires RowOk(ts, vs) && fc < |ts| <= MAX_COLS && foreign == Encode(ts, vs) + post && |foreign| < I32
    requires |local| + |Encode(Without(ts, fc), Without(vs, fc))| < I32
    ensures JoinedRow(local, ts, foreign, fc) == Some(local + Encode(Without(ts, fc), Without(vs, fc)))
  {
    forall i: nat {:trigger PieceFits(SchemaOf(ts), ts, vs, foreign, i)} | i < |ts| ensures PieceFits(SchemaOf(ts), ts, vs, foreign, i) {
      PieceIs(ts, vs, post, foreign, i);
    }
    PiecesAre(SchemaOf(ts), ts, vs, foreign, fc, |ts|);
    TailIs(ts, vs, fc, |ts|);
    OthersAll(ts, fc);
    OthersAll(vs, fc);
  }

  ghost predicate PieceFits(s: Schema, ts: seq<ColType>, vs: seq<Bytes>, row: Bytes, i: nat)
    requires i < |ts| == |vs|
  {
    Piece(ts[i], Extracted(s, i, row), row) == Some(Field(ts[i], vs[i]))
  }

  lemma {:induction false} PiecesAre(s: Schema, ts: seq<ColType>, vs: seq<Bytes>, row: Bytes, k: nat, j: nat)
    requires k < |ts| == |vs| && j <= |ts| && forall i: nat {:trigger PieceFits(s, ts, vs, row, i)} :: i < |ts| ==> PieceFits(s, ts, vs, row, i)
    ensures Pieces(s, ts, row, k, j) == Some(Tail(ts, vs, k, j))
  {
    if j > 0 {
      PiecesAre(s, ts, vs, row, k, j - 1);
      assert PieceFits(s, ts, vs, row, j - 1);
      PiecesStep(s, ts, vs, row, k, j);
    }
  }

  lemma PiecesStep(s: Schema, ts: seq<ColType>, vs: seq<Bytes>, row: Bytes, k: nat, j: nat)
    requires k < |ts| == |vs| && 0 < j <= |ts| && Pieces(s, ts, row, k, j - 1) == Some(Tail(ts, vs, k, j - 1))
    requires Piece(ts[j - 1], Extracted(s, j - 1, row), row) == Some(Field(ts[j - 1], vs[j - 1]))
    ensures Pieces(s, ts, row, k, j) == Some(Tail(ts, vs, k, j))
  {
  }

  lemma PieceIs(ts: seq<ColType>, vs: seq<Bytes>, post: Bytes, row: Bytes, i: nat)
    requires RowOk(ts, vs) && i < |ts| <= MAX_COLS && row == Encode(ts, vs) + post && |row| < I32
    ensures Piece(ts[i], Extracted(SchemaOf(ts), i, row), row) == Some(Field(ts[i], vs[i]))
  {
    ExtractRoundTrip(row, ts, vs, post, i);
    GivesField(ts[i], vs[i], Extracted(SchemaOf(ts), i, row), row);
  }

  lemma GivesField(t: ColType, v: Bytes, r: Column, row: Bytes)
    requires Gives(r, row, v)
    ensures Piece(t, r, row) == Some(Field(t, v))
  {
    assert |v| == r.len;
  }

  /** The fields of the first j foreign columns, without the join column. */
  ghost function Tail(ts: seq<ColType>, vs: seq<Bytes>, k: nat, j: nat): (b: Bytes)
    requires k < |ts| == |vs| && j <= |ts|
  {
    if j == 0 then [] else if j - 1 == k then Tail(ts, vs, k, j - 1) else Tail(ts, vs, k, j - 1) + Field(ts[j - 1], vs[j - 1])
  }

  lemma {:induction false} TailIs(ts: seq<ColType>, vs: seq<Bytes>, k: nat, j: nat)
    requires k < |ts| == |vs| && j <= |ts|
    ensures |Others(ts, k, j)| == |Others(vs, k, j)| && Tail(ts, vs, k, j) == Encode(Others(ts, k, j), Others(vs, k, j))
  {
    if j > 0 {
      TailIs(ts, vs, k, j - 1);
      if j - 1 != k { EncodeOne(Others(ts, k, j - 1), Others(vs, k, j - 1), ts[j - 1], vs[j - 1]); }
    }
  }

  lemma EncodeOne(ts: seq<ColType>, vs: seq<Bytes>, t: ColType, v: Bytes)
    requires |ts| == |vs|
    ensures Encode(ts + [t], vs + [v]) == Encode(ts, vs) + Field(t, v)
  {
    assert (ts + [t])[..|ts|] == ts && (vs + [v])[..|vs|] == vs;
  }

  lemma OthersAll<T>(s: seq<T>, k: nat)
    requires k < |s|
    ensures Others(s, k, |s|) == Without(s, k)
  {
    OthersIs(s, k, |s|);
    assert s[k + 1..|s|] == s[k + 1..];
  }

  /** A joined row extracts, under the combined schema, to the local values followed by the foreign ones; the combined
      schema has room for 64 columns. */
  lemma JoinedExtract(ts: seq<ColType>, vs: seq<Bytes>, us: seq<ColType>, ws: seq<Bytes>, fc: nat, row: Bytes, i: nat)
    requires RowOk(ts, vs) && RowOk(us, ws) && fc < |us| && i < |ts| + |us| - 1 <= MAX_COLS
    requires row == Encode(ts, vs) + Encode(Without(us, fc), Without(ws, fc)) && |row| < I32
    ensures Gives(Extracted(SchemaOf(ts + Without(us, fc)), i, row), row, (vs + Without(ws, fc))[i])
  {
    var os, ows := Without(us, fc), Without(ws, fc);
    WithoutOk(us, ws, fc);
    AppendOk(ts, vs, os, ows);
    EncodeAppend(ts, vs, os, ows);
    AppendNone(row);
    ExtractRoundTrip(row, ts + os, vs + ows, [], i);
  }

  lemma WithoutOk(ts: seq<ColType>, vs: seq<Bytes>, k: nat)
    requires RowOk(ts, vs) && k < |ts|
    ensures RowOk(Without(ts, k), Without(vs, k)) && |Without(ts, k)| == |ts| - 1
  {
    var a, b := Without(ts, k), Without(vs, k);
    forall i | 0 <= i < |a| ensures ValueOk(a[i], b[i]) {
      assert ValueOk(ts[if i < k then i else i + 1], vs[if i < k then i else i + 1]);
    }
  }

  lemma AppendOk(ts: seq<ColType>, vs: seq<Bytes>, us: seq<ColType>, ws: seq<Bytes>)
    requires RowOk(ts, vs) && RowOk(us, ws)
    ensures RowOk(ts + us, vs + ws)
  {
  }

  lemma SizesPrefix(ts: seq<ColType>, os: seq<ColType>)
    requires |ts| + |os| <= MAX_COLS
    ensures |SchemaOf(ts + os).sizes| == |ts| + |os| && forall k :: 0 <= k < |ts| ==> SchemaOf(ts + os).sizes[k] == Size(ts[k])
  {
  }

  /** A row that found no foreign row keeps its bytes under the combined schema (lines 664 and 709-713): its own
      columns still extract, */
  lemma UnmatchedOwn(ts: seq<ColType>, vs: seq<Bytes>, os: seq<ColType>, row: Bytes, i: nat)
    requires RowOk(ts, vs) && i < |ts| && |ts| + |os| <= MAX_COLS && row == Encode(ts, vs) && |row| < I32
    ensures Gives(Extracted(SchemaOf(ts + os), i, row), row, vs[i])
  {
    AppendNone(row);
    SizesPrefix(ts, os);
    SkipIs(row, ts, vs, [], SchemaOf(ts + os), i);
    FieldHere(row, ts, vs, [], i);
    ColumnHere(row, Start(ts, vs, i), ts[i], vs[i]);
  }

  /** and every foreign column extracts to nothing, as long as the sums stay below 2^31. */
  lemma UnmatchedForeign(ts: seq<ColType>, vs: seq<Bytes>, os: seq<ColType>, row: Bytes, i: nat)
    requires RowOk(ts, vs) && |ts| <= i < |ts| + |os| <= MAX_COLS && row == Encode(ts, vs) && |row| + 8 * |os| < I32
    ensures Extracted(SchemaOf(ts + os), i, row) == Missing
  {
    var s := SchemaOf(ts + os);
    SizesPrefix(ts, os);
    OwnEnd(ts, vs, row, s);
    SizesSmall(ts + os);
    SkipBeyond(s, |ts|, i, row);
    BeyondMissing(s, i, row);
  }

  lemma SizesSmall(ts: seq<ColType>)
    ensures forall k :: 0 <= k < |SchemaOf(ts).sizes| ==> SchemaOf(ts).sizes[k] <= 8
  {
  }

  lemma BeyondMissing(s: Schema, i: nat, row: Bytes)
    requires i < s.numCols && i < |s.sizes| && s.sizes[i] <= 8 && |row| < I32
    requires Skip(s, i, row).Short? || (Skip(s, i, row).At? && |row| <= Skip(s, i, row).offset < I32 - 8)
    ensures Extracted(s, i, row) == Missing
  {
  }

  /** The own columns fill the row. */
  lemma OwnEnd(ts: seq<ColType>, vs: seq<Bytes>, row: Bytes, s: Schema)
    requires RowOk(ts, vs) && row == Encode(ts, vs) && |row| < I32
    requires |ts| <= |s.sizes| && forall k :: 0 <= k < |ts| ==> s.sizes[k] == Size(ts[k])
    ensures Skip(s, |ts|, row) == At(|row|)
  {
    AppendNone(row);
    SkipIs(row, ts, vs, [], s, |ts|);
    StartIs(ts, vs, |ts|);
    assert ts[..|ts|] == ts && vs[..|ts|] == vs;
  }

  lemma {:induction false} SkipBeyond(s: Schema, n: nat, i: nat, row: Bytes)
    requires n <= i <= |s.sizes| && (forall k :: 0 <= k < |s.sizes| ==> s.sizes[k] <= 8)
    requires Skip(s, n, row) == At(|row|) && |row| + 8 * (i - n) < I32
    ensures Skip(s, i, row).Short? || (Skip(s, i, row).At? && |row| <= Skip(s, i, row).offset <= |row| + 8 * (i - n))
  {
    if i > n { SkipBeyond(s, n, i - 1, row); }
  }
}

/**
 * Rows of typed values: the writer of bindings/python/kanbudb/__init__.py:677-702 packs every value with its own width,
 * and filter_match (src/query/query_builder.c:251-282) reads an extracted column back by its type. Floating-point
 * values are their bit patterns.
 */
module TypedRows {
  import opened Keys
  import opened Records
  import opened Rows

  datatype Value = Int32Value(n: int) | Int64Value(n: int) | FloatValue(bits: nat) | DoubleValue(bits: nat)
                 | BoolValue(truth: bool) | StringValue(bytes: Bytes) | BlobValue(bytes: Bytes)

  function TypeOf(v: Value): (t: ColType) {
    match v
    case Int32Value(_) => Int32
    case Int64Value(_) => Int64
    case FloatValue(_) => Float
    case DoubleValue(_) => Double
    case BoolValue(_) => Bool
    case StringValue(_) => String
    case BlobValue(_) => Blob
  }

  /** Values the packing accepts. */
  predicate InRange(v: Value) {
    match v
    case Int32Value(n) => -0x8000_0000 <= n < 0x8000_0000
    case Int64Value(n) => -0x8000_0000_0000_0000 <= n < 0x8000_0000_0000_0000
    case FloatValue(bits) => bits < 0x1_0000_0000
    case DoubleValue(bits) => bits < 0x1_0000_0000_0000_0000
    case BoolValue(_) => true
    case StringValue(b) => |b| < 0x1_0000_0000
    case BlobValue(b) => |b| < 0x1_0000_0000
  }

  /** The bytes of a value: integers in two's complement, a truth value in one byte, texts as they are. */
  function Pack(v: Value): (b: Bytes)
    requires InRange(v)
  {
    match v
    case Int32Value(n) => LE(if n < 0 then n + 0x1_0000_0000 else n, 4)
    case Int64Value(n) => LE(if n < 0 then n + 0x1_0000_0000_0000_0000 else n, 8)
    case FloatValue(bits) => LE(bits, 4)
    case DoubleValue(bits) => LE(bits, 8)
    case BoolValue(truth) => if truth then [1] else [0]
    case StringValue(b) => b
    case BlobValue(b) => b
  }

  /** What the writer appends for a value: a text has its length in front. */
  function PackField(v: Value): (b: Bytes)
    requires InRange(v)
  {
    if v.StringValue? || v.BlobValue? then LE(|v.bytes|, 4) + v.bytes else Pack(v)
  }

  ghost predicate AllInRange(vals: seq<Value>) {
    forall i :: 0 <= i < |vals| ==> InRange(vals[i])
  }

  function Packed(vals: seq<Value>): (b: Bytes)
    requires AllInRange(vals)
  {
    if vals == [] then [] else Packed(vals[..|vals| - 1]) + PackField(vals[|vals| - 1])
  }

  lemma PackedStep(vals: seq<Value>, i: nat)
    requires i < |vals| && AllInRange(vals[..i]) && InRange(vals[i])
    ensures AllInRange(vals[..i + 1]) && Packed(vals[..i + 1]) == Packed(vals[..i]) + PackField(vals[i])
  {
    var p := vals[..i + 1];
    assert p[..i] == vals[..i] && p[i] == vals[i];
    forall j | 0 <= j < |p| ensures InRange(p[j]) { assert j < i ==> p[j] == vals[..i][j]; }
  }

  /** put_row: fails if a value does not fit its column. */
  method PutRow(vals: seq<Value>) returns (buf: Option<Bytes>)
    ensures buf.Some? <==> AllInRange(vals)
    ensures buf.Some? ==> buf.value == Packed(vals)
  {
    var b: Bytes := [];
    for i := 0 to |vals|
      invariant AllInRange(vals[..i]) && b == Packed(vals[..i])
    {
      if !InRange(vals[i]) { return None; }
      PackedStep(vals, i);
      b := b + PackField(vals[i]);
    }
    assert vals[..|vals|] == vals;
    buf := Some(b);
  }

  /** The value read from the bytes of a column; any byte but 0 is true. */
  function Unpack(t: ColType, b: Bytes): (v: Option<Value>) {
    match t
    case Int32 => if |b| != 4 then None else
      var u := FromLE(b);
      Some(Int32Value(if u < 0x8000_0000 then u else u - 0x1_0000_0000))
    case Int64 => if |b| != 8 then None else
      var u := FromLE(b);
      Some(Int64Value(if u < 0x8000_0000_0000_0000 then u else u - 0x1_0000_0000_0000_0000))
    case Float => if |b| != 4 then None else Some(FloatValue(FromLE(b)))
    case Double => if |b| != 8 then None else Some(DoubleValue(FromLE(b)))
    case Bool => if |b| != 1 then None else Some(BoolValue(b[0] != 0))
    case String => Some(StringValue(b))
    case Blob => Some(BlobValue(b))
  }

  lemma UnpackPack(v: Value)
    requires InRange(v)
    ensures Unpack(TypeOf(v), Pack(v)) == Some(v)
  {
    Pow256Values();
    match v
    case Int32Value(n) => LERoundTrip(if n < 0 then n + 0x1_0000_0000 else n, 4);
    case Int64Value(n) => LERoundTrip(if n < 0 then n + 0x1_0000_0000_0000_0000 else n, 8);
    case FloatValue(bits) => LERoundTrip(bits, 4);
    case DoubleValue(bits) => LERoundTrip(bits, 8);
    case _ =>
  }

  /** Except for the bytes above 1 of a truth value, the bytes read as a value are its own, and the value is in range. */
  lemma PackUnpack(t: ColType, b: Bytes, v: Value)
    requires Unpack(t, b) == Some(v) && |b| < 0x1_0000_0000 && (t == Bool ==> b[0] <= 1)
    ensures InRange(v) && TypeOf(v) == t && Pack(v) == b
  {
    Pow256Values();
    FromLEInverse(b);
  }

  /** The values the writer takes are those that some bytes read as. */
  lemma InRangeIff(v: Value)
    ensures InRange(v) <==> exists b: Bytes :: |b| < 0x1_0000_0000 && Unpack(TypeOf(v), b) == Some(v)
  {
    if InRange(v) {
      UnpackPack(v);
      assert |Pack(v)| < 0x1_0000_0000;
    }
    if b: Bytes :| |b| < 0x1_0000_0000 && Unpack(TypeOf(v), b) == Some(v) {
      if v.BoolValue? { return; }
      PackUnpack(TypeOf(v), b, v);
    }
  }

  function TypesOf(vals: seq<Value>): (ts: seq<ColType>)
    ensures |ts| == |vals| && forall i :: 0 <= i < |vals| ==> ts[i] == TypeOf(vals[i])
  {
    seq(|vals|, i requires 0 <= i < |vals| => TypeOf(vals[i]))
  }

  function BytesOf(vals: seq<Value>): (vs: seq<Bytes>)
    requires AllInRange(vals)
    ensures |vs| == |vals| && forall i :: 0 <= i < |vals| ==> vs[i] == Pack(vals[i])
  {
    seq(|vals|, i requires 0 <= i < |vals| => Pack(vals[i]))
  }

  lemma FieldIs(v: Value)
    requires InRange(v)
    ensures PackField(v) == Field(TypeOf(v), Pack(v))
  {
  }

  /** The writer's row is the encoding the extraction expects. */
  lemma {:induction false} PackedIsEncoding(vals: seq<Value>)
    requires AllInRange(vals)
    ensures Packed(vals) == Rows.Encode(TypesOf(vals), BytesOf(vals))
  {
    if vals != [] {
      var n := |vals| - 1;
      PackedIsEncoding(vals[..n]);
      FieldIs(vals[n]);
      assert TypesOf(vals)[..n] == TypesOf(vals[..n]) && BytesOf(vals)[..n] == BytesOf(vals[..n]);
    }
  }

  /** No field is longer than the row. */
  ghost predicate Within(vals: seq<Value>, n: nat)
    requires AllInRange(vals)
  {
    forall i :: 0 <= i < |vals| ==> |PackField(vals[i])| <= n
  }

  lemma WithinStep(init: seq<Value>, v: Value, n: nat)
    requires AllInRange(init) && InRange(v) && Within(init, n)
    ensures AllInRange(init + [v]) && Within(init + [v], n + |PackField(v)|)
  {
  }

  lemma {:induction false} FieldsWithin(vals: seq<Value>)
    requires AllInRange(vals)
    ensures Within(vals, |Packed(vals)|)
  {
    if vals != [] {
      var n := |vals| - 1;
      FieldsWithin(vals[..n]);
      WithinStep(vals[..n], vals[n], |Packed(vals[..n])|);
      assert vals == vals[..n] + [vals[n]];
    }
  }

  lemma SmallFits(v: Value)
    requires InRange(v) && |PackField(v)| < 0x8000_0000
    ensures ValueOk(TypeOf(v), Pack(v)) && WidthIs(v, |Pack(v)|)
  {
  }

  lemma PackedOk(vals: seq<Value>)
    requires AllInRange(vals) && |Packed(vals)| < 0x8000_0000
    ensures RowOk(TypesOf(vals), BytesOf(vals))
  {
    FieldsWithin(vals);
    forall i | 0 <= i < |vals| ensures ValueOk(TypeOf(vals[i]), Pack(vals[i])) {
      SmallFits(vals[i]);
    }
  }

  /** The number of bytes of a value. */
  ghost predicate WidthIs(v: Value, n: int) {
    match v
    case Int32Value(_) => n == 4
    case Int64Value(_) => n == 8
    case FloatValue(_) => n == 4
    case DoubleValue(_) => n == 8
    case BoolValue(_) => n == 1
    case StringValue(b) => n == |b|
    case BlobValue(b) => n == |b|
  }

  /** Of a row written from typed values, whatever follows it, column i extracts to the bytes of value i, and they read back
      as that value: up to 64 columns, rows below 2^31 bytes. */
  lemma TypedRoundTrip(vals: seq<Value>, post: Bytes, row: Bytes, i: nat)
    requires AllInRange(vals) && i < |vals| <= 64 && row == Packed(vals) + post && |row| < 0x8000_0000
    ensures var c := Extracted(SchemaOf(TypesOf(vals)), i, row);
            c.Column? && 0 <= c.place <= c.place + c.len <= |row| && WidthIs(vals[i], c.len) &&
            Unpack(TypeOf(vals[i]), row[c.place..c.place + c.len]) == Some(vals[i])
  {
    PackedIsEncoding(vals);
    PackedOk(vals);
    ExtractRoundTrip(row, TypesOf(vals), BytesOf(vals), post, i);
    UnpackPack(vals[i]);
    FieldsWithin(vals);
    SmallFits(vals[i]);
  }
}

/**
 * Scalar quantization to one byte per dimension (src/vector/quantize.c:23-78), over the reals.
 */
module SQ8 {
  import opened KMeans

  /** The trained box: dimension d covers [lo[d], lo[d] + range[d]]. */
  datatype Box = Box(lo: Vector, range: Vector)

  ghost predicate BoxOk(b: Box, dim: nat) {
    |b.lo| == dim && |b.range| == dim && forall d :: 0 <= d < dim ==> b.range[d] > 0.0
  }

  ghost predicate Inside(b: Box, v: Vector, dim: nat)
    requires BoxOk(b, dim)
  {
    |v| == dim && forall d :: 0 <= d < dim ==> b.lo[d] <= v[d] <= b.lo[d] + b.range[d]
  }

  /** Smallest and largest value of one dimension (lines 31-37). */
  method MinMax(vs: seq<Vector>, dim: nat, d: nat) returns (mn: real, mx: real)
    requires Rows(vs, dim) && |vs| > 0 && d < dim
    ensures forall i :: 0 <= i < |vs| ==> mn <= vs[i][d] <= mx
    ensures exists i, j :: 0 <= i < |vs| && 0 <= j < |vs| && vs[i][d] == mn && vs[j][d] == mx
  {
    mn, mx := vs[0][d], vs[0][d];
    ghost var a, z := 0, 0;
    for i := 1 to |vs|
      invariant forall j :: 0 <= j < i ==> mn <= vs[j][d] <= mx
      invariant 0 <= a < i && 0 <= z < i && vs[a][d] == mn && vs[z][d] == mx
    {
      var v := vs[i][d];
      if v < mn { mn, a := v, i; }
      if v > mx { mx, z := v, i; }
    }
  }

  /** sq8_train: the smallest box that holds the training vectors, with range 1 in a constant dimension. */
  method Train(vs: seq<Vector>, dim: nat) returns (b: Box)
    requires Rows(vs, dim) && |vs| > 0
    ensures BoxOk(b, dim)
    ensures forall i :: 0 <= i < |vs| ==> Inside(b, vs[i], dim)
    ensures forall d :: 0 <= d < dim ==> TightAt(vs, dim, b, d)
  {
    b := Box([], []);
    for d := 0 to dim
      invariant |b.lo| == |b.range| == d && forall j :: 0 <= j < d ==> b.range[j] > 0.0
      invariant forall i, j :: 0 <= i < |vs| && 0 <= j < d ==> b.lo[j] <= vs[i][j] <= b.lo[j] + b.range[j]
      invariant forall j :: 0 <= j < d ==> TightAt(vs, dim, b, j)
    {
      var mn, mx := MinMax(vs, dim, d);
      ghost var was := b;
      b := Box(b.lo + [mn], b.range + [if mx > mn then mx - mn else 1.0]);
      forall j | 0 <= j < d + 1 ensures TightAt(vs, dim, b, j) {
        assert j < d ==> TightAt(vs, dim, was, j);
      }
    }
  }

  ghost predicate ConstantAt(vs: seq<Vector>, dim: nat, d: nat)
    requires Rows(vs, dim) && d < dim
  {
    forall i, j :: 0 <= i < |vs| && 0 <= j < |vs| ==> vs[i][d] == vs[j][d]
  }

  ghost predicate Attained(vs: seq<Vector>, dim: nat, d: nat, x: real)
    requires Rows(vs, dim) && d < dim
  {
    exists i :: 0 <= i < |vs| && vs[i][d] == x
  }

  /** Some training vector is at the lower side, and one at the upper; only if all agree, the range is 1 instead. */
  ghost predicate TightAt(vs: seq<Vector>, dim: nat, b: Box, d: nat)
    requires Rows(vs, dim) && d < dim
  {
    d < |b.lo| && d < |b.range| && Attained(vs, dim, d, b.lo[d]) &&
    if ConstantAt(vs, dim, d) then b.range[d] == 1.0 else Attained(vs, dim, d, b.lo[d] + b.range[d])
  }

  // ---- one dimension -------------------------------------------------------------------------------

  function Clamp(x: real): (y: real)
    ensures 0.0 <= y <= 1.0
    ensures 0.0 <= x <= 1.0 ==> y == x
  {
    if x < 0.0 then 0.0 else if x > 1.0 then 1.0 else x
  }

  function Quantum(x: real): (c: nat) {
    (Clamp(x) * 255.0 + 0.5).Floor
  }

  /** Rounding to the nearest of 255 steps is off by at most half a step. */
  lemma QuantumNear(x: real)
    ensures Quantum(x) <= 255
    ensures -1.0 / 510.0 <= Quantum(x) as real / 255.0 - Clamp(x) <= 1.0 / 510.0
  {
    var y, c := Clamp(x) * 255.0 + 0.5, Quantum(x);
    assert c as real <= y < c as real + 1.0;
  }

  function CodeAt(lo: real, range: real, v: real): (c: nat)
    requires range > 0.0
  {
    Quantum((v - lo) / range)
  }

  function ValueAt(lo: real, range: real, c: nat): (v: real) {
    lo + (c as real / 255.0) * range
  }

  /** Half a step, scaled to the range. */
  lemma Scale(x: real, y: real, range: real)
    requires range > 0.0 && -1.0 / 510.0 <= x - y <= 1.0 / 510.0
    ensures -range / 510.0 <= x * range - y * range <= range / 510.0
  {
    var d := x - y;
    ProductSign(d + 1.0 / 510.0, range);
    ProductSign(1.0 / 510.0 - d, range);
    assert d * range == x * range - y * range;
  }

  lemma ProductSign(a: real, b: real)
    requires a >= 0.0 && b >= 0.0
    ensures a * b >= 0.0
  {
  }

  /** The nearest value of the covered interval. */
  function Nearest(lo: real, range: real, v: real): (w: real) {
    if v < lo then lo else if v > lo + range then lo + range else v
  }

  lemma ClampIsNearest(lo: real, range: real, v: real)
    requires range > 0.0
    ensures lo + Clamp((v - lo) / range) * range == Nearest(lo, range, v)
  {
    var x := (v - lo) / range;
    assert x * range == v - lo;
    if v < lo {
      assert x < 0.0;
    } else if v > lo + range {
      assert x > 1.0 by { assert (x - 1.0) * range > 0.0; }
    } else {
      assert x <= 1.0 by { assert (1.0 - x) * range >= 0.0; }
    }
  }

  /** Decoding the code of any value gives the nearest value of the interval up to range / 510. */
  lemma CodeError(lo: real, range: real, v: real)
    requires range > 0.0
    ensures CodeAt(lo, range, v) <= 255
    ensures -range / 510.0 <= ValueAt(lo, range, CodeAt(lo, range, v)) - Nearest(lo, range, v) <= range / 510.0
  {
    var x := (v - lo) / range;
    var c := Quantum(x);
    QuantumNear(x);
    ClampIsNearest(lo, range, v);
    StepError(lo, range, c as real / 255.0, Clamp(x), ValueAt(lo, range, c), Nearest(lo, range, v));
  }

  lemma StepError(lo: real, range: real, q: real, y: real, value: real, near: real)
    requires range > 0.0 && -1.0 / 510.0 <= q - y <= 1.0 / 510.0 && value == lo + q * range && near == lo + y * range
    ensures -range / 510.0 <= value - near <= range / 510.0
  {
    Scale(q, y, range);
  }

  // ---- vectors -------------------------------------------------------------------------------------

  /** sq8_encode */
  method Encode(b: Box, v: Vector, dim: nat) returns (code: seq<nat>)
    requires BoxOk(b, dim) && |v| == dim
    ensures Encodes(b, v, dim, code)
  {
    code := [];
    for d := 0 to dim
      invariant |code| == d && forall j :: 0 <= j < d ==> code[j] == CodeAt(b.lo[j], b.range[j], v[j])
    {
      var normalized := (v[d] - b.lo[d]) / b.range[d];
      if normalized < 0.0 { normalized := 0.0; }
      if normalized > 1.0 { normalized := 1.0; }
      var c := (normalized * 255.0 + 0.5).Floor;
      code := code + [c];
    }
  }

  ghost predicate Encodes(b: Box, v: Vector, dim: nat, code: seq<nat>)
    requires BoxOk(b, dim) && |v| == dim
  {
    |code| == dim && forall d :: 0 <= d < dim ==> code[d] == CodeAt(b.lo[d], b.range[d], v[d])
  }

  /** sq8_decode */
  method Decode(b: Box, code: seq<nat>, dim: nat) returns (v: Vector)
    requires BoxOk(b, dim) && |code| == dim
    ensures v == Decoded(b, code, dim)
  {
    v := [];
    for d := 0 to dim
      invariant |v| == d && forall j :: 0 <= j < d ==> v[j] == ValueAt(b.lo[j], b.range[j], code[j])
    {
      v := v + [b.lo[d] + (code[d] as real / 255.0) * b.range[d]];
    }
  }

  function Decoded(b: Box, code: seq<nat>, dim: nat): (v: Vector)
    requires BoxOk(b, dim) && |code| == dim
    ensures |v| == dim
  {
    seq(dim, d requires 0 <= d < dim => ValueAt(b.lo[d], b.range[d], code[d]))
  }

  /** Inside the box every coordinate is off by at most range / 510, and codes fit a byte. */
  lemma DecodeNear(b: Box, v: Vector, dim: nat, code: seq<nat>, d: nat)
    requires BoxOk(b, dim) && Inside(b, v, dim) && Encodes(b, v, dim, code) && d < dim
    ensures code[d] <= 255
    ensures -b.range[d] / 510.0 <= Decoded(b, code, dim)[d] - v[d] <= b.range[d] / 510.0
  {
    CodeError(b.lo[d], b.range[d], v[d]);
  }

  /** sq8_distance: the squared distance of the decoded vectors. */
  method Distance(b: Box, x: seq<nat>, y: seq<nat>, dim: nat) returns (sum: real)
    requires BoxOk(b, dim) && |x| == dim && |y| == dim
    ensures sum == SqDist(Decoded(b, x, dim), Decoded(b, y, dim))
  {
    sum := 0.0;
    for d := 0 to dim
      invariant sum == SqDistTo(Decoded(b, x, dim), Decoded(b, y, dim), d)
    {
      var da := b.lo[d] + (x[d] as real / 255.0) * b.range[d];
      var db := b.lo[d] + (y[d] as real / 255.0) * b.range[d];
      var diff := da - db;
      sum := sum + diff * diff;
    }
  }

  function Abs(x: real): (y: real)
    ensures y >= 0.0
  {
    if x < 0.0 then -x else x
  }

  /** What one dimension can add to the error of the distance: steps of size e = range / 255. */
  function Slack(e: real, diff: real): (s: real) {
    e * (2.0 * Abs(diff) + e)
  }

  function SlackTo(b: Box, v: Vector, w: Vector, n: nat): (s: real)
    requires n <= |v| == |w| == |b.range|
  {
    if n == 0 then 0.0 else SlackTo(b, v, w, n - 1) + Slack(b.range[n - 1] / 255.0, v[n - 1] - w[n - 1])
  }

  lemma SquareNear(x: real, y: real, e: real)
    requires e >= 0.0 && -e <= x - y <= e
    ensures -Slack(e, y) <= Square(x) - Square(y) <= Slack(e, y)
  {
    var h := x - y;
    assert Square(x) - Square(y) == h * (2.0 * y + h);
    assert Abs(h) <= e;
    var s := 2.0 * y + h;
    assert Abs(s) <= 2.0 * Abs(y) + e;
    ProductBound(h, s, e, 2.0 * Abs(y) + e);
  }

  lemma ProductBound(h: real, s: real, e: real, t: real)
    requires Abs(h) <= e && Abs(s) <= t
    ensures -(e * t) <= h * s <= e * t
  {
    assert Abs(h * s) == Abs(h) * Abs(s);
    assert (e - Abs(h)) * Abs(s) >= 0.0;
    assert e * (t - Abs(s)) >= 0.0;
  }

  lemma OneDimensionNear(b: Box, v: Vector, w: Vector, dim: nat, x: seq<nat>, y: seq<nat>, d: nat)
    requires BoxOk(b, dim) && Inside(b, v, dim) && Inside(b, w, dim) && Encodes(b, v, dim, x) && Encodes(b, w, dim, y) && d < dim
    ensures var s := Slack(b.range[d] / 255.0, v[d] - w[d]);
            -s <= Square(Decoded(b, x, dim)[d] - Decoded(b, y, dim)[d]) - Square(v[d] - w[d]) <= s
  {
    DecodeNear(b, v, dim, x, d);
    DecodeNear(b, w, dim, y, d);
    SquareNear(Decoded(b, x, dim)[d] - Decoded(b, y, dim)[d], v[d] - w[d], b.range[d] / 255.0);
  }

  /** In dimension d the squared differences are off by at most the slack. */
  ghost predicate NearAt(b: Box, v: Vector, w: Vector, p: Vector, q: Vector, d: nat)
    requires d < |v| == |w| == |p| == |q| == |b.range|
  {
    var s := Slack(b.range[d] / 255.0, v[d] - w[d]);
    -s <= Square(p[d] - q[d]) - Square(v[d] - w[d]) <= s
  }

  lemma AddNear(x: real, y: real, s: real, dx: real, dy: real, ds: real)
    requires -s <= x - y <= s && -ds <= dx - dy <= ds
    ensures -(s + ds) <= (x + dx) - (y + dy) <= s + ds
  {
  }

  lemma {:induction false} NearTo(b: Box, v: Vector, w: Vector, p: Vector, q: Vector, n: nat)
    requires n <= |v| == |w| == |p| == |q| == |b.range| && forall d: nat :: d < n ==> NearAt(b, v, w, p, q, d)
    ensures -SlackTo(b, v, w, n) <= SqDistTo(p, q, n) - SqDistTo(v, w, n) <= SlackTo(b, v, w, n)
  {
    if n > 0 {
      var d := n - 1;
      NearTo(b, v, w, p, q, d);
      assert NearAt(b, v, w, p, q, d);
      AddNear(SqDistTo(p, q, d), SqDistTo(v, w, d), SlackTo(b, v, w, d),
              Square(p[d] - q[d]), Square(v[d] - w[d]), Slack(b.range[d] / 255.0, v[d] - w[d]));
    }
  }

  /** The distance of two codes is off the true squared distance by at most the sum of the slacks. */
  lemma DistanceNear(b: Box, v: Vector, w: Vector, dim: nat, x: seq<nat>, y: seq<nat>)
    requires BoxOk(b, dim) && Inside(b, v, dim) && Inside(b, w, dim) && Encodes(b, v, dim, x) && Encodes(b, w, dim, y)
    ensures -SlackTo(b, v, w, dim) <= SqDist(Decoded(b, x, dim), Decoded(b, y, dim)) - SqDist(v, w) <= SlackTo(b, v, w, dim)
  {
    var p, q := Decoded(b, x, dim), Decoded(b, y, dim);
    forall d: nat | d < dim ensures NearAt(b, v, w, p, q, d) { OneDimensionNear(b, v, w, dim, x, y, d); }
    NearTo(b, v, w, p, q, dim);
  }
}

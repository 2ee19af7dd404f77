/**
 * Product quantization (src/vector/quantize.c:83-239) over the reals: k-means training of a codebook, and
 * encoding with nearest codewords. Vectors are rows of reals; the source keeps them in one flat array.
 */
module KMeans {
  import opened Keys

  type Vector = seq<real>

  ghost predicate Rows(vs: seq<Vector>, dim: nat) {
    forall i :: 0 <= i < |vs| ==> |vs[i]| == dim
  }

  // ---- distances -----------------------------------------------------------------------------------

  function Square(x: real): (y: real)
    ensures y >= 0.0
  {
    x * x
  }

  /** Squared Euclidean distance of the first n coordinates. */
  function SqDistTo(a: Vector, b: Vector, n: nat): (d: real)
    requires n <= |a| && n <= |b|
    ensures d >= 0.0
  {
    if n == 0 then 0.0 else SqDistTo(a, b, n - 1) + Square(a[n - 1] - b[n - 1])
  }

  function SqDist(a: Vector, b: Vector): (d: real)
    requires |a| == |b|
    ensures d >= 0.0
  {
    SqDistTo(a, b, |a|)
  }

  method Distance(a: Vector, b: Vector) returns (dist: real)
    requires |a| == |b|
    ensures dist == SqDist(a, b)
  {
    dist := 0.0;
    for d := 0 to |a|
      invariant dist == SqDistTo(a, b, d)
    {
      var diff := a[d] - b[d];
      dist := dist + diff * diff;
    }
  }

  /** c is the first nearest codeword. */
  ghost predicate IsNearest(p: Vector, cb: seq<Vector>, c: nat)
    requires Rows(cb, |p|)
  {
    c < |cb| &&
    (forall j :: 0 <= j < |cb| ==> SqDist(p, cb[c]) <= SqDist(p, cb[j])) &&
    (forall j :: 0 <= j < c ==> SqDist(p, cb[c]) < SqDist(p, cb[j]))
  }

  /** The search of lines 104-117 and 188-202; a real distance is always below the initial FLT_MAX. */
  method Nearest(p: Vector, cb: seq<Vector>) returns (best: nat)
    requires |cb| > 0 && Rows(cb, |p|)
    ensures IsNearest(p, cb, best)
  {
    best := 0;
    var bestDist := 0.0;
    for c := 0 to |cb|
      invariant best <= c && (c > 0 ==> best < c && bestDist == SqDist(p, cb[best]))
      invariant forall j :: 0 <= j < c ==> bestDist <= SqDist(p, cb[j])
      invariant forall j :: 0 <= j < best ==> bestDist < SqDist(p, cb[j])
      invariant c == 0 ==> best == 0
    {
      var dist := Distance(p, cb[c]);
      if c == 0 || dist < bestDist { best, bestDist := c, dist; }
    }
  }

  // ---- the objective -------------------------------------------------------------------------------

  ghost predicate Assigned(ps: seq<Vector>, cb: seq<Vector>, dim: nat, a: seq<nat>) {
    Rows(ps, dim) && Rows(cb, dim) && |a| == |ps| && forall i :: 0 <= i < |a| ==> a[i] < |cb|
  }

  /** Total squared distance from the points to the codewords they are assigned to. */
  function CostOf(ps: seq<Vector>, cb: seq<Vector>, dim: nat, a: seq<nat>): (x: real)
    requires Assigned(ps, cb, dim, a)
  {
    if ps == [] then 0.0
    else
      var n := |ps| - 1;
      CostOf(ps[..n], cb, dim, a[..n]) + SqDist(ps[n], cb[a[n]])
  }

  ghost predicate NearestAll(ps: seq<Vector>, cb: seq<Vector>, dim: nat, a: seq<nat>) {
    Assigned(ps, cb, dim, a) && forall i {:trigger a[i]} :: 0 <= i < |a| ==> IsNearest(ps[i], cb, a[i])
  }

  /** The distance to a nearest codeword. */
  function MinDist(p: Vector, cb: seq<Vector>): (d: real)
    requires |cb| > 0 && Rows(cb, |p|)
  {
    var n := |cb| - 1;
    if n == 0 then SqDist(p, cb[0])
    else
      var rest, last := MinDist(p, cb[..n]), SqDist(p, cb[n]);
      if last < rest then last else rest
  }

  lemma {:induction false} MinDistIs(p: Vector, cb: seq<Vector>, c: nat)
    requires c < |cb| && Rows(cb, |p|)
    ensures MinDist(p, cb) <= SqDist(p, cb[c])
    ensures IsNearest(p, cb, c) ==> MinDist(p, cb) == SqDist(p, cb[c])
  {
    MinDistBelow(p, cb, c);
    if IsNearest(p, cb, c) { var j := MinDistAttained(p, cb); }
  }

  lemma {:induction false} MinDistBelow(p: Vector, cb: seq<Vector>, c: nat)
    requires c < |cb| && Rows(cb, |p|)
    ensures MinDist(p, cb) <= SqDist(p, cb[c])
  {
    var n := |cb| - 1;
    if c < n { MinDistBelow(p, cb[..n], c); }
  }

  lemma {:induction false} MinDistAttained(p: Vector, cb: seq<Vector>) returns (j: nat)
    requires |cb| > 0 && Rows(cb, |p|)
    ensures j < |cb| && SqDist(p, cb[j]) == MinDist(p, cb)
  {
    var n := |cb| - 1;
    j := n;
    if n > 0 {
      var i := MinDistAttained(p, cb[..n]);
      if SqDist(p, cb[n]) >= MinDist(p, cb[..n]) { j := i; }
    }
  }

  /** The k-means objective: the total squared distance from the points to their nearest codewords. */
  function Objective(ps: seq<Vector>, cb: seq<Vector>, dim: nat): (x: real)
    requires Rows(ps, dim) && Rows(cb, dim) && |cb| > 0
  {
    if ps == [] then 0.0 else Objective(ps[..|ps| - 1], cb, dim) + MinDist(ps[|ps| - 1], cb)
  }

  /** Every assignment costs at least the objective; a nearest one costs exactly that. */
  lemma {:induction false} ObjectiveBound(ps: seq<Vector>, cb: seq<Vector>, dim: nat, a: seq<nat>)
    requires Assigned(ps, cb, dim, a) && |cb| > 0
    ensures Objective(ps, cb, dim) <= CostOf(ps, cb, dim, a)
    ensures NearestAll(ps, cb, dim, a) ==> Objective(ps, cb, dim) == CostOf(ps, cb, dim, a)
  {
    if ps != [] {
      var n := |ps| - 1;
      ObjectiveBound(ps[..n], cb, dim, a[..n]);
      MinDistIs(ps[n], cb, a[n]);
      assert forall i :: 0 <= i < n ==> a[..n][i] == a[i];
      assert NearestAll(ps, cb, dim, a) ==> NearestAll(ps[..n], cb, dim, a[..n]) && IsNearest(ps[n], cb, a[n]);
    }
  }

  // ---- clusters ------------------------------------------------------------------------------------

  /** How many of the points are assigned to c. */
  function Count(a: seq<nat>, c: nat): (n: nat) {
    if a == [] then 0 else Count(a[..|a| - 1], c) + if a[|a| - 1] == c then 1 else 0
  }

  /** The sum of coordinate d over the points assigned to c. */
  function Sum(ps: seq<Vector>, dim: nat, a: seq<nat>, c: nat, d: nat): (s: real)
    requires Rows(ps, dim) && |a| == |ps| && d < dim
  {
    if ps == [] then 0.0
    else
      var n := |ps| - 1;
      Sum(ps[..n], dim, a[..n], c, d) + if a[n] == c then ps[n][d] else 0.0
  }

  lemma {:induction false} SetCoordDist(p: Vector, w: Vector, d: nat, v: real, n: nat)
    requires |p| == |w| && d < |p| && n <= |p|
    ensures SqDistTo(p, w[d := v], n) ==
            SqDistTo(p, w, n) + if d < n then Square(p[d] - v) - Square(p[d] - w[d]) else 0.0
  {
    if n > 0 { SetCoordDist(p, w, d, v, n - 1); }
  }

  /** The change of a cluster's cost when one coordinate moves from q to v; k and s are the size and the coordinate sum. */
  function Gain(k: nat, s: real, v: real, q: real): (g: real) {
    k as real * (v * v - q * q) - 2.0 * (v - q) * s
  }

  lemma GainStep(k: nat, s: real, x: real, v: real, q: real)
    ensures Gain(0, 0.0, v, q) == 0.0
    ensures Gain(k + 1, s + x, v, q) == Gain(k, s, v, q) + (Square(x - v) - Square(x - q))
  {
    var g, h := v * v - q * q, v - q;
    assert Square(x - v) - Square(x - q) == g - 2.0 * h * x;
    assert h * (s + x) == h * s + h * x;
    assert (k + 1) as real * g == k as real * g + g;
  }

  lemma SetCoordOne(p: Vector, w: Vector, d: nat, v: real)
    requires |p| == |w| && d < |p|
    ensures SqDist(p, w[d := v]) == SqDist(p, w) + (Square(p[d] - v) - Square(p[d] - w[d]))
  {
    SetCoordDist(p, w, d, v, |p|);
  }

  /** Changing one coordinate of one codeword changes the cost by an amount that only depends on the size and the
      coordinate sum of its cluster. */
  lemma {:induction false} SetCoordCost(ps: seq<Vector>, cb: seq<Vector>, now: seq<Vector>, dim: nat, a: seq<nat>, c: nat, d: nat, v: real)
    requires Assigned(ps, cb, dim, a) && c < |cb| && d < dim && now == cb[c := cb[c][d := v]]
    ensures Assigned(ps, now, dim, a)
    ensures CostOf(ps, now, dim, a) == CostOf(ps, cb, dim, a) + Gain(Count(a, c), Sum(ps, dim, a, c, d), v, cb[c][d])
  {
    var q := cb[c][d];
    if ps == [] {
      GainStep(0, 0.0, 0.0, v, q);
    } else {
      var n := |ps| - 1;
      SetCoordCost(ps[..n], cb, now, dim, a[..n], c, d, v);
      if a[n] == c {
        SetCoordOne(ps[n], cb[c], d, v);
        GainStep(Count(a[..n], c), Sum(ps[..n], dim, a[..n], c, d), ps[n][d], v, q);
      }
    }
  }

  /** With the mean in place of any other value the cost does not grow. */
  lemma MeanGain(k: nat, s: real, v: real, q: real)
    requires k > 0 && v == s / k as real
    ensures Gain(k, s, v, q) <= 0.0
  {
    var n, h := k as real, v - q;
    assert s == n * v;
    assert h * s == n * (h * v);
    assert v * v - q * q == 2.0 * (h * v) - h * h;
    assert n * (v * v - q * q) == 2.0 * (n * (h * v)) - n * (h * h);
    assert h * h >= 0.0;
    assert n * (h * h) >= 0.0;
  }

  // ---- one iteration -------------------------------------------------------------------------------

  /** Lines 103-118 */
  method AssignAll(ps: seq<Vector>, cb: seq<Vector>, dim: nat) returns (a: seq<nat>)
    requires Rows(ps, dim) && Rows(cb, dim) && |cb| > 0
    ensures NearestAll(ps, cb, dim, a)
  {
    a := [];
    for i := 0 to |ps|
      invariant |a| == i && forall j {:trigger a[j]} :: 0 <= j < i ==> IsNearest(ps[j], cb, a[j])
    {
      var best := Nearest(ps[i], cb);
      a := a + [best];
    }
  }

  ghost predicate Totals(ps: seq<Vector>, dim: nat, a: seq<nat>, k: nat, counts: seq<nat>, sums: seq<Vector>) {
    Rows(ps, dim) && |a| == |ps| && |counts| == k && |sums| == k && Rows(sums, dim) &&
    (forall c :: 0 <= c < k ==> counts[c] == Count(a, c)) &&
    (forall c, d :: 0 <= c < k && 0 <= d < dim ==> sums[c][d] == Sum(ps, dim, a, c, d))
  }

  /** Lines 121-129 */
  method Accumulate(ps: seq<Vector>, dim: nat, a: seq<nat>, k: nat) returns (counts: seq<nat>, sums: seq<Vector>)
    requires Rows(ps, dim) && |a| == |ps| && forall i :: 0 <= i < |a| ==> a[i] < k
    ensures Totals(ps, dim, a, k, counts, sums)
  {
    counts := seq(k, _ => 0);
    sums := seq(k, _ => seq<real>(dim, _ => 0.0));
    for i := 0 to |ps|
      invariant Totals(ps[..i], dim, a[..i], k, counts, sums)
    {
      var c := a[i];
      var row := AddRow(sums[c], ps[i]);
      TotalsStep(ps, dim, a, k, counts, sums, i, row);
      counts, sums := counts[c := counts[c] + 1], sums[c := row];
    }
    assert ps[..|ps|] == ps && a[..|a|] == a;
  }

  method AddRow(s: Vector, p: Vector) returns (r: Vector)
    requires |s| == |p|
    ensures |r| == |s| && forall d :: 0 <= d < |s| ==> r[d] == s[d] + p[d]
  {
    r := s;
    for d := 0 to |s|
      invariant |r| == |s|
      invariant forall j :: 0 <= j < d ==> r[j] == s[j] + p[j]
      invariant forall j :: d <= j < |s| ==> r[j] == s[j]
    {
      r := r[d := r[d] + p[d]];
    }
  }

  lemma TotalsStep(ps: seq<Vector>, dim: nat, a: seq<nat>, k: nat, counts: seq<nat>, sums: seq<Vector>, i: nat, row: Vector)
    requires Rows(ps, dim) && i < |ps| == |a| && a[i] < k && Totals(ps[..i], dim, a[..i], k, counts, sums)
    requires |row| == dim && forall d :: 0 <= d < dim ==> row[d] == sums[a[i]][d] + ps[i][d]
    ensures Totals(ps[..i + 1], dim, a[..i + 1], k, counts[a[i] := counts[a[i]] + 1], sums[a[i] := row])
  {
    var p, b := ps[..i + 1], a[..i + 1];
    assert p[..i] == ps[..i] && b[..i] == a[..i];
    forall c | 0 <= c < k ensures Count(b, c) == Count(a[..i], c) + if a[i] == c then 1 else 0 {}
    forall c, d | 0 <= c < k && 0 <= d < dim
      ensures Sum(p, dim, b, c, d) == Sum(ps[..i], dim, a[..i], c, d) + if a[i] == c then ps[i][d] else 0.0 {}
  }

  /** The codebook after an update: the mean of each cluster, the old codeword where a cluster is empty. */
  ghost predicate Updated(ps: seq<Vector>, cb: seq<Vector>, dim: nat, a: seq<nat>, now: seq<Vector>)
    requires Assigned(ps, cb, dim, a)
  {
    |now| == |cb| && Rows(now, dim) && forall c :: 0 <= c < |cb| ==> UpdatedAt(ps, cb, dim, a, now, c, dim)
  }

  ghost predicate UpdatedAt(ps: seq<Vector>, cb: seq<Vector>, dim: nat, a: seq<nat>, now: seq<Vector>, c: nat, n: nat)
    requires Assigned(ps, cb, dim, a) && |now| == |cb| && Rows(now, dim) && c < |cb| && n <= dim
  {
    forall d :: 0 <= d < n ==> now[c][d] == if Count(a, c) > 0 then Sum(ps, dim, a, c, d) / Count(a, c) as real else cb[c][d]
  }

  /** Lines 130-136: every coordinate set to its mean lowers the cost of the assignment, or keeps it. */
  method MoveToMeans(ps: seq<Vector>, cb: seq<Vector>, dim: nat, a: seq<nat>, counts: seq<nat>, sums: seq<Vector>)
    returns (now: seq<Vector>)
    requires Assigned(ps, cb, dim, a) && Totals(ps, dim, a, |cb|, counts, sums)
    ensures Updated(ps, cb, dim, a, now)
    ensures Assigned(ps, now, dim, a) && CostOf(ps, now, dim, a) <= CostOf(ps, cb, dim, a)
  {
    now := cb;
    for c := 0 to |cb|
      invariant Assigned(ps, now, dim, a) && |now| == |cb| && CostOf(ps, now, dim, a) <= CostOf(ps, cb, dim, a)
      invariant forall j :: 0 <= j < c ==> UpdatedAt(ps, cb, dim, a, now, j, dim)
      invariant forall j :: c <= j < |cb| ==> now[j] == cb[j]
    {
      if counts[c] > 0 {
        ghost var was := now;
        now := MoveOne(ps, cb, dim, a, counts, sums, now, c);
        assert forall j :: 0 <= j < c ==> UpdatedAt(ps, cb, dim, a, was, j, dim) && now[j] == was[j];
      }
      assert forall j :: 0 <= j < c ==> UpdatedAt(ps, cb, dim, a, now, j, dim);
    }
  }

  method MoveOne(ps: seq<Vector>, cb: seq<Vector>, dim: nat, a: seq<nat>, counts: seq<nat>, sums: seq<Vector>, was: seq<Vector>, c: nat)
    returns (now: seq<Vector>)
    requires Assigned(ps, cb, dim, a) && Totals(ps, dim, a, |cb|, counts, sums)
    requires Assigned(ps, was, dim, a) && |was| == |cb| && c < |cb| && counts[c] > 0
    ensures Assigned(ps, now, dim, a) && |now| == |cb| && CostOf(ps, now, dim, a) <= CostOf(ps, was, dim, a)
    ensures UpdatedAt(ps, cb, dim, a, now, c, dim)
    ensures forall j :: 0 <= j < |cb| && j != c ==> now[j] == was[j]
  {
    now := was;
    for d := 0 to dim
      invariant Assigned(ps, now, dim, a) && |now| == |cb| && CostOf(ps, now, dim, a) <= CostOf(ps, was, dim, a)
      invariant UpdatedAt(ps, cb, dim, a, now, c, d)
      invariant forall j :: 0 <= j < |cb| && j != c ==> now[j] == was[j]
    {
      var v := sums[c][d] / counts[c] as real;
      var next := now[c := now[c][d := v]];
      SetCoordCost(ps, now, next, dim, a, c, d, v);
      MeanGain(counts[c], sums[c][d], v, now[c][d]);
      now := next;
    }
  }

  /** `now` holds the means of the clusters that the points form around the codewords of cb. */
  ghost predicate Refined(ps: seq<Vector>, dim: nat, cb: seq<Vector>, now: seq<Vector>) {
    exists a :: NearestAll(ps, cb, dim, a) && Updated(ps, cb, dim, a, now)
  }

  /** One iteration (lines 102-136): the objective never grows. */
  method Iterate(ps: seq<Vector>, cb: seq<Vector>, dim: nat) returns (now: seq<Vector>)
    requires Rows(ps, dim) && Rows(cb, dim) && |cb| > 0
    ensures |now| == |cb| && Rows(now, dim) && Refined(ps, dim, cb, now)
    ensures Objective(ps, now, dim) <= Objective(ps, cb, dim)
  {
    var a := AssignAll(ps, cb, dim);
    ObjectiveBound(ps, cb, dim, a);
    var counts, sums := Accumulate(ps, dim, a, |cb|);
    now := MoveToMeans(ps, cb, dim, a, counts, sums);
    ObjectiveBound(ps, now, dim, a);
  }

  /** The initial codebook (lines 87-91): evenly spaced training points. */
  method InitialCodebook(ps: seq<Vector>, dim: nat, k: nat) returns (cb: seq<Vector>)
    requires Rows(ps, dim) && |ps| > 0
    ensures |cb| == k && Rows(cb, dim) && EvenlySpaced(ps, cb)
  {
    cb := [];
    for c := 0 to k
      invariant |cb| == c && forall j :: 0 <= j < c ==> cb[j] == ps[Seed(j, k, |ps|)]
    {
      cb := cb + [ps[Seed(c, k, |ps|)]];
    }
    forall c: nat {:trigger SeededAt(ps, cb, c)} | c < k ensures SeededAt(ps, cb, c) { SeedSpaced(c, k, |ps|); }
  }

  /** Of k codewords over n points, codeword c starts from point i: i / n <= c / k < (i + 1) / n. */
  ghost predicate SpacedAt(c: nat, k: nat, n: nat, i: nat) {
    i < n && i * k <= c * n < (i + 1) * k
  }

  ghost predicate SeededAt(ps: seq<Vector>, cb: seq<Vector>, c: nat) {
    c < |cb| && exists i: nat :: SpacedAt(c, |cb|, |ps|, i) && cb[c] == ps[i]
  }

  ghost predicate EvenlySpaced(ps: seq<Vector>, cb: seq<Vector>) {
    forall c: nat {:trigger SeededAt(ps, cb, c)} :: c < |cb| ==> SeededAt(ps, cb, c)
  }

  /** The training point that codeword c starts from. */
  function Seed(c: nat, k: nat, n: nat): (i: nat)
    requires c < k && n > 0
    ensures i < n
  {
    SharePositive(c as real, k as real, n as real);
    var i := (c as real / k as real * n as real).Floor;
    if i >= n then n - 1 else i
  }

  lemma SharePositive(c: real, k: real, n: real)
    requires c >= 0.0 && k > 0.0 && n >= 0.0
    ensures c / k * n >= 0.0
  {
    assert c / k >= 0.0;
  }

  /** The seeds are evenly spaced. */
  lemma SeedSpaced(c: nat, k: nat, n: nat)
    requires c < k && n > 0
    ensures SpacedAt(c, k, n, Seed(c, k, n))
  {
    var x := Share(c, k, n);
    FloorSpaced(c, k, n, x, x.Floor);
  }

  lemma Share(c: nat, k: nat, n: nat) returns (x: real)
    requires c < k && n > 0
    ensures x == c as real / k as real * n as real && x >= 0.0 && x * k as real == (c * n) as real
  {
    x := c as real / k as real * n as real;
    ShareScaled(c as real, k as real, n as real, x);
    ProductReal(c, n);
  }

  lemma ShareScaled(c: real, k: real, n: real, x: real)
    requires c >= 0.0 && k > 0.0 && n > 0.0 && x == c / k * n
    ensures x >= 0.0 && x * k == c * n
  {
    assert c / k >= 0.0 && c / k * k == c;
    assert x * k == c / k * k * n;
  }

  lemma FloorSpaced(c: nat, k: nat, n: nat, x: real, i: nat)
    requires c < k && n > 0 && x * k as real == (c * n) as real && i as real <= x < (i + 1) as real
    ensures SpacedAt(c, k, n, i)
  {
    Scaled(i, i + 1, k, x);
    MulBelow(c, k, n);
    if i >= n { MulMono(n, i, k); }
  }

  lemma Scaled(i: int, j: int, k: nat, x: real)
    requires k > 0 && i as real <= x < j as real
    ensures (i * k) as real <= x * k as real < (j * k) as real
  {
    ProductReal(i, k);
    ProductReal(j, k);
    MulReal(i as real, x, k as real);
    MulReal(x, j as real, k as real);
  }

  lemma ProductReal(i: int, k: int)
    ensures (i * k) as real == i as real * k as real
  {
  }

  lemma MulReal(a: real, b: real, k: real)
    requires k > 0.0
    ensures a <= b ==> a * k <= b * k
    ensures a < b ==> a * k < b * k
  {
    if a < b { assert (b - a) * k > 0.0; }
  }

  lemma MulBelow(c: nat, k: nat, n: nat)
    requires c < k && n > 0
    ensures c * n < n * k
  {
    MulMono(c + 1, k, n);
    assert (c + 1) * n == c * n + n;
  }

  lemma SpacedUnique(c: nat, k: nat, n: nat, i: nat, j: nat)
    requires SpacedAt(c, k, n, i) && SpacedAt(c, k, n, j)
    ensures i == j
  {
    if i < j { MulMono(i + 1, j, k); }
    if j < i { MulMono(j + 1, i, k); }
  }

  /** The seeds go up with the codewords; no two codewords start from one point if there are enough points. */
  lemma SeedsSpread(c: nat, d: nat, k: nat, n: nat)
    requires c < d < k && n > 0
    ensures Seed(c, k, n) <= Seed(d, k, n)
    ensures k <= n ==> Seed(c, k, n) < Seed(d, k, n)
  {
    var i, j := Seed(c, k, n), Seed(d, k, n);
    SeedSpaced(c, k, n);
    SeedSpaced(d, k, n);
    MulMono(c + 1, d, n);
    assert (c + 1) * n == c * n + n && (i + 1) * k == i * k + k && (j + 1) * k == j * k + k;
    if j < i { MulMono(j + 1, i, k); }
    if j == i && k <= n { assert false; }
  }

  /** Every point is a seed if there are enough codewords. */
  lemma SeedReaches(i: nat, k: nat, n: nat) returns (c: nat)
    requires i < n <= k
    ensures c < k && Seed(c, k, n) == i && forall j: nat :: SpacedAt(c, k, n, j) ==> j == i
  {
    c := (i * k + n - 1) / n;
    assert c * n == i * k + n - 1 - (i * k + n - 1) % n;
    assert (i + 1) * k == i * k + k;
    MulMono(i + 1, n, k);
    if c >= k { MulMono(k, c, n); assert false; }
    SeedSpaced(c, k, n);
    forall j: nat | SpacedAt(c, k, n, j) ensures j == i { SpacedUnique(c, k, n, i, j); }
  }

  lemma {:induction false} SelfDistance(p: Vector, n: nat)
    requires n <= |p|
    ensures SqDistTo(p, p, n) == 0.0
  {
    if n > 0 { SelfDistance(p, n - 1); }
  }

  lemma {:induction false} ObjectiveAtLeast(ps: seq<Vector>, cb: seq<Vector>, dim: nat)
    requires Rows(ps, dim) && Rows(cb, dim) && |cb| > 0
    ensures Objective(ps, cb, dim) >= 0.0
    ensures (forall i :: 0 <= i < |ps| ==> ps[i] in cb) ==> Objective(ps, cb, dim) == 0.0
  {
    if ps != [] {
      var n := |ps| - 1;
      ObjectiveAtLeast(ps[..n], cb, dim);
      var j := MinDistAttained(ps[n], cb);
      if forall i :: 0 <= i < |ps| ==> ps[i] in cb {
        assert forall i :: 0 <= i < n ==> ps[..n][i] == ps[i];
        var c :| 0 <= c < |cb| && cb[c] == ps[n];
        MinDistBelow(ps[n], cb, c);
        SelfDistance(ps[n], dim);
      }
    }
  }

  lemma PointIsSeed(ps: seq<Vector>, cb: seq<Vector>, i: nat)
    requires i < |ps| <= |cb| && EvenlySpaced(ps, cb)
    ensures ps[i] in cb
  {
    var c := SeedReaches(i, |cb|, |ps|);
    assert SeededAt(ps, cb, c);
  }

  /** With at least as many codewords as points, evenly spaced ones are all the points. */
  lemma SpacedCovers(ps: seq<Vector>, cb: seq<Vector>, dim: nat)
    requires Rows(ps, dim) && Rows(cb, dim) && 0 < |ps| <= |cb| && EvenlySpaced(ps, cb)
    ensures Objective(ps, cb, dim) == 0.0
  {
    forall i | 0 <= i < |ps| ensures ps[i] in cb { PointIsSeed(ps, cb, i); }
    ObjectiveAtLeast(ps, cb, dim);
  }

  /** pq_kmeans: every iteration brings the objective down or leaves it. */
  method Train(ps: seq<Vector>, dim: nat, k: nat, maxIter: nat) returns (cb: seq<Vector>, ghost trace: seq<seq<Vector>>)
    requires Rows(ps, dim) && |ps| > 0 && k > 0
    ensures |trace| == maxIter + 1 && cb == trace[maxIter]
    ensures |trace[0]| == k && EvenlySpaced(ps, trace[0])
    ensures forall i: nat {:trigger Descent(ps, dim, k, trace, i)} :: i < maxIter ==> Descent(ps, dim, k, trace, i)
    ensures |cb| == k && Rows(cb, dim)
    ensures |ps| <= k ==> Objective(ps, cb, dim) == 0.0
  {
    cb := InitialCodebook(ps, dim, k);
    if |ps| <= k { SpacedCovers(ps, cb, dim); }
    trace := [cb];
    for iter := 0 to maxIter
      invariant |trace| == iter + 1 && cb == trace[iter] && |cb| == k && Rows(cb, dim)
      invariant |trace[0]| == k && EvenlySpaced(ps, trace[0]) && (|ps| <= k ==> Objective(ps, cb, dim) == 0.0)
      invariant forall i: nat {:trigger Descent(ps, dim, k, trace, i)} :: i < iter ==> Descent(ps, dim, k, trace, i)
    {
      ghost var was := trace;
      cb := Iterate(ps, cb, dim);
      ObjectiveAtLeast(ps, cb, dim);
      trace := trace + [cb];
      forall i: nat {:trigger Descent(ps, dim, k, trace, i)} | i < iter + 1 ensures Descent(ps, dim, k, trace, i) {
        assert i < iter ==> Descent(ps, dim, k, was, i);
      }
    }
  }

  /** Codebook i + 1 of the training refines codebook i, and its objective is not larger. */
  ghost predicate Descent(ps: seq<Vector>, dim: nat, k: nat, trace: seq<seq<Vector>>, i: nat) {
    Rows(ps, dim) && k > 0 && i + 1 < |trace| && |trace[i]| == |trace[i + 1]| == k && Rows(trace[i], dim) && Rows(trace[i + 1], dim) &&
    Refined(ps, dim, trace[i], trace[i + 1]) && Objective(ps, trace[i + 1], dim) <= Objective(ps, trace[i], dim)
  }

  // ---- product codes -------------------------------------------------------------------------------

  /** One codebook of 256 codewords per subspace. */
  ghost predicate BooksOk(books: seq<seq<Vector>>, dim: nat) {
    forall s :: 0 <= s < |books| ==> |books[s]| == 256 && Rows(books[s], dim)
  }

  ghost predicate CodeOk(books: seq<seq<Vector>>, code: seq<nat>) {
    |code| == |books| && forall s :: 0 <= s < |code| ==> code[s] < 256
  }

  /** pq_decode: the chosen codewords end to end. */
  function Decoded(books: seq<seq<Vector>>, dim: nat, code: seq<nat>): (v: Vector)
    requires BooksOk(books, dim) && CodeOk(books, code)
    ensures |v| == |books| * dim
  {
    if books == [] then []
    else
      var n := |books| - 1;
      Decoded(books[..n], dim, code[..n]) + books[n][code[n]]
  }

  lemma {:induction false} SqDistPrefix(a: Vector, b: Vector, c: Vector, d: Vector, n: nat)
    requires |a| == |b| && n <= |a|
    ensures SqDistTo(a + c, b + d, n) == SqDistTo(a, b, n)
  {
    if n > 0 { SqDistPrefix(a, b, c, d, n - 1); }
  }

  lemma {:induction false} SqDistConcatTo(a: Vector, b: Vector, c: Vector, d: Vector, n: nat)
    requires |a| == |b| && |c| == |d| && n <= |c|
    ensures SqDistTo(a + c, b + d, |a| + n) == SqDist(a, b) + SqDistTo(c, d, n)
  {
    if n > 0 { SqDistConcatTo(a, b, c, d, n - 1); } else { SqDistPrefix(a, b, c, d, |a|); }
  }

  lemma SqDistConcat(a: Vector, b: Vector, c: Vector, d: Vector)
    requires |a| == |b| && |c| == |d|
    ensures SqDist(a + c, b + d) == SqDist(a, b) + SqDist(c, d)
  {
    SqDistConcatTo(a, b, c, d, |c|);
  }

  /** The coordinates of subspace s. */
  function Part(v: Vector, dim: nat, s: nat): (p: Vector)
    ensures |p| == dim
  {
    if s * dim + dim <= |v| then v[s * dim..s * dim + dim] else seq(dim, _ => 0.0)
  }

  ghost predicate NearestAt(book: seq<Vector>, dim: nat, v: Vector, c: nat, s: nat) {
    Rows(book, dim) && |book| == 256 && IsNearest(Part(v, dim, s), book, c)
  }

  /** In every subspace the code names the first nearest codeword. */
  ghost predicate NearestCode(books: seq<seq<Vector>>, dim: nat, v: Vector, code: seq<nat>) {
    |books| * dim <= |v| && CodeOk(books, code) &&
    forall s: nat {:trigger code[s]} :: s < |books| ==> NearestAt(books[s], dim, v, code[s], s)
  }

  lemma {:induction false} MulMono(a: nat, b: nat, c: nat)
    requires a <= b
    ensures a * c <= b * c
  {
    if a < b { MulMono(a, b - 1, c); assert b * c == (b - 1) * c + c; }
  }

  /** pq_encode: coordinates after the nsub * sub_dim covered ones play no part. */
  method Encode(books: seq<seq<Vector>>, dim: nat, v: Vector) returns (code: seq<nat>)
    requires BooksOk(books, dim) && |books| * dim <= |v|
    ensures NearestCode(books, dim, v, code)
  {
    code := [];
    for s := 0 to |books|
      invariant |code| == s && forall j :: 0 <= j < s ==> code[j] < 256
      invariant forall j: nat {:trigger code[j]} :: j < s ==> NearestAt(books[j], dim, v, code[j], j)
    {
      MulMono(s + 1, |books|, dim);
      var best := Nearest(Part(v, dim, s), books[s]);
      assert NearestAt(books[s], dim, v, best, s);
      code := code + [best];
    }
  }

  lemma PartsSplit(v: Vector, n: nat, dim: nat)
    requires |v| == (n + 1) * dim
    ensures n * dim + dim == |v| && v == v[..n * dim] + Part(v, dim, n)
    ensures forall s: nat :: s < n ==> Part(v[..n * dim], dim, s) == Part(v, dim, s)
  {
    assert (n + 1) * dim == n * dim + dim;
    CoveredParts(v, n, dim);
  }

  /** The code of a vector is the code of its covered coordinates. */
  lemma CoveredParts(v: Vector, n: nat, dim: nat)
    requires n * dim <= |v|
    ensures forall s: nat :: s < n ==> Part(v[..n * dim], dim, s) == Part(v, dim, s)
  {
    forall s: nat | s < n ensures Part(v[..n * dim], dim, s) == Part(v, dim, s) {
      MulMono(s + 1, n, dim);
      assert (s + 1) * dim == s * dim + dim;
    }
  }

  lemma CoveredCode(books: seq<seq<Vector>>, dim: nat, v: Vector, code: seq<nat>)
    requires NearestCode(books, dim, v, code)
    ensures NearestCode(books, dim, v[..|books| * dim], code)
  {
    CoveredParts(v, |books|, dim);
    var w := v[..|books| * dim];
    forall s: nat {:trigger code[s]} | s < |books| ensures NearestAt(books[s], dim, w, code[s], s) {
      assert NearestAt(books[s], dim, v, code[s], s);
      assert Part(w, dim, s) == Part(v, dim, s);
    }
  }

  /** No other code reconstructs the covered coordinates with a smaller error. */
  lemma CodeIsBest(books: seq<seq<Vector>>, dim: nat, v: Vector, code: seq<nat>, other: seq<nat>)
    requires BooksOk(books, dim) && NearestCode(books, dim, v, code) && CodeOk(books, other)
    ensures SqDist(v[..|books| * dim], Decoded(books, dim, code)) <= SqDist(v[..|books| * dim], Decoded(books, dim, other))
  {
    CoveredCode(books, dim, v, code);
    CoveredIsBest(books, dim, v[..|books| * dim], code, other);
  }

  lemma {:induction false} CoveredIsBest(books: seq<seq<Vector>>, dim: nat, v: Vector, code: seq<nat>, other: seq<nat>)
    requires BooksOk(books, dim) && |v| == |books| * dim && NearestCode(books, dim, v, code) && CodeOk(books, other)
    ensures SqDist(v, Decoded(books, dim, code)) <= SqDist(v, Decoded(books, dim, other))
  {
    if books != [] {
      var n := |books| - 1;
      PartsSplit(v, n, dim);
      var init, last := v[..n * dim], Part(v, dim, n);
      forall s: nat | s < n ensures NearestAt(books[..n][s], dim, init, code[..n][s], s) {
        assert NearestAt(books[s], dim, v, code[s], s);
      }
      CoveredIsBest(books[..n], dim, init, code[..n], other[..n]);
      SqDistConcat(init, Decoded(books[..n], dim, code[..n]), last, books[n][code[n]]);
      SqDistConcat(init, Decoded(books[..n], dim, other[..n]), last, books[n][other[n]]);
      assert NearestAt(books[n], dim, v, code[n], n);
    }
  }

  // ---- training the codebooks ----------------------------------------------------------------------

  /** The coordinates of subspace s of every vector. */
  function Parts(vs: seq<Vector>, dim: nat, s: nat): (ps: seq<Vector>)
    ensures |ps| == |vs| && Rows(ps, dim) && forall i :: 0 <= i < |vs| ==> ps[i] == Part(vs[i], dim, s)
  {
    seq(|vs|, i requires 0 <= i < |vs| => Part(vs[i], dim, s))
  }

  /** A book trained on one subspace: 256 codewords after 20 iterations from evenly spaced points. */
  ghost predicate TrainedBook(ps: seq<Vector>, dim: nat, book: seq<Vector>) {
    exists trace: seq<seq<Vector>> ::
      |trace| == 21 && book == trace[20] && |trace[0]| == 256 && EvenlySpaced(ps, trace[0]) &&
      forall i: nat {:trigger Descent(ps, dim, 256, trace, i)} :: i < 20 ==> Descent(ps, dim, 256, trace, i)
  }

  ghost predicate TrainedAt(vs: seq<Vector>, dim: nat, books: seq<seq<Vector>>, s: nat) {
    s < |books| && TrainedBook(Parts(vs, dim, s), dim, books[s])
  }

  /** At most 256 vectors: the codewords of the subspace hit every one. */
  ghost predicate HitAll(vs: seq<Vector>, dim: nat, books: seq<seq<Vector>>, s: nat) {
    s < |books| && |books[s]| == 256 && Rows(books[s], dim) && Objective(Parts(vs, dim, s), books[s], dim) == 0.0
  }

  /** pq_train: a codebook for every subspace; fails if there are more subspaces than coordinates. */
  method TrainBooks(vs: seq<Vector>, dim: nat, nsub: nat) returns (books: Option<seq<seq<Vector>>>, sub: nat)
    requires Rows(vs, dim) && |vs| > 0 && nsub > 0
    ensures sub == dim / nsub && (books == None <==> dim < nsub)
    ensures books.Some? ==> |books.value| == nsub && BooksOk(books.value, sub)
    ensures books.Some? ==> forall s: nat {:trigger TrainedAt(vs, sub, books.value, s)} :: s < nsub ==> TrainedAt(vs, sub, books.value, s)
    ensures books.Some? && |vs| <= 256 ==> forall s: nat {:trigger HitAll(vs, sub, books.value, s)} :: s < nsub ==> HitAll(vs, sub, books.value, s)
  {
    sub := dim / nsub;
    if sub == 0 { return None, 0; }
    var bs: seq<seq<Vector>> := [];
    for s := 0 to nsub
      invariant |bs| == s && BooksOk(bs, sub)
      invariant forall j: nat {:trigger TrainedAt(vs, sub, bs, j)} :: j < s ==> TrainedAt(vs, sub, bs, j)
      invariant |vs| <= 256 ==> forall j: nat {:trigger HitAll(vs, sub, bs, j)} :: j < s ==> HitAll(vs, sub, bs, j)
    {
      ghost var was := bs;
      var book, trace := Train(Parts(vs, sub, s), sub, 256, 20);
      assert TrainedBook(Parts(vs, sub, s), sub, book);
      bs := bs + [book];
      forall j: nat {:trigger TrainedAt(vs, sub, bs, j)} | j < s + 1 ensures TrainedAt(vs, sub, bs, j) {
        if j < s { assert TrainedAt(vs, sub, was, j); }
      }
      if |vs| <= 256 {
        forall j: nat {:trigger HitAll(vs, sub, bs, j)} | j < s + 1 ensures HitAll(vs, sub, bs, j) {
          if j < s { assert HitAll(vs, sub, was, j); }
        }
      }
    }
    books := Some(bs);
  }

  lemma {:induction false} ZeroObjective(ps: seq<Vector>, cb: seq<Vector>, dim: nat, i: nat)
    requires Rows(ps, dim) && Rows(cb, dim) && |cb| > 0 && i < |ps| && Objective(ps, cb, dim) == 0.0
    ensures MinDist(ps[i], cb) == 0.0
  {
    var n := |ps| - 1;
    ObjectiveAtLeast(ps[..n], cb, dim);
    var j := MinDistAttained(ps[n], cb);
    if i < n { ZeroObjective(ps[..n], cb, dim, i); }
  }

  lemma {:induction false} ZeroDistance(a: Vector, b: Vector, n: nat)
    requires |a| == |b| && n <= |a| && SqDistTo(a, b, n) == 0.0
    ensures a[..n] == b[..n]
  {
    if n > 0 {
      var x := a[n - 1] - b[n - 1];
      assert Square(x) == 0.0;
      if x != 0.0 { PositiveSquare(x); }
      ZeroDistance(a, b, n - 1);
      assert a[..n] == a[..n - 1] + [a[n - 1]] && b[..n] == b[..n - 1] + [b[n - 1]];
    }
  }

  lemma PositiveSquare(x: real)
    requires x != 0.0
    ensures Square(x) > 0.0
  {
    if x < 0.0 { ProductPositive(-x, -x, Square(x)); } else { ProductPositive(x, x, Square(x)); }
  }

  lemma ProductPositive(a: real, b: real, y: real)
    requires a > 0.0 && b > 0.0 && y == a * b
    ensures y > 0.0
  {
  }

  /** The codeword of a training vector is its part. */
  lemma TrainedPart(vs: seq<Vector>, dim: nat, books: seq<seq<Vector>>, code: seq<nat>, i: nat, s: nat)
    requires BooksOk(books, dim) && i < |vs| && s < |books| && HitAll(vs, dim, books, s) && NearestCode(books, dim, vs[i], code)
    ensures books[s][code[s]] == Part(vs[i], dim, s)
  {
    var p := Part(vs[i], dim, s);
    assert NearestAt(books[s], dim, vs[i], code[s], s);
    ZeroObjective(Parts(vs, dim, s), books[s], dim, i);
    MinDistIs(p, books[s], code[s]);
    ZeroDistance(p, books[s][code[s]], dim);
    assert p[..dim] == p && books[s][code[s]][..dim] == books[s][code[s]];
  }

  lemma {:induction false} PartsJoin(books: seq<seq<Vector>>, dim: nat, code: seq<nat>, v: Vector)
    requires BooksOk(books, dim) && CodeOk(books, code) && |v| == |books| * dim
    requires forall s: nat :: s < |books| ==> books[s][code[s]] == Part(v, dim, s)
    ensures Decoded(books, dim, code) == v
  {
    if books != [] {
      var n := |books| - 1;
      PartsSplit(v, n, dim);
      PartsJoin(books[..n], dim, code[..n], v[..n * dim]);
    }
  }

  /** Books trained on at most 256 vectors give back the covered coordinates of every one of them. */
  lemma TrainingRoundTrip(vs: seq<Vector>, dim: nat, books: seq<seq<Vector>>, code: seq<nat>, i: nat)
    requires BooksOk(books, dim) && i < |vs| && NearestCode(books, dim, vs[i], code)
    requires forall s: nat {:trigger HitAll(vs, dim, books, s)} :: s < |books| ==> HitAll(vs, dim, books, s)
    ensures Decoded(books, dim, code) == vs[i][..|books| * dim]
  {
    CoveredParts(vs[i], |books|, dim);
    forall s: nat | s < |books| ensures books[s][code[s]] == Part(vs[i][..|books| * dim], dim, s) {
      assert HitAll(vs, dim, books, s);
      TrainedPart(vs, dim, books, code, i, s);
    }
    PartsJoin(books, dim, code, vs[i][..|books| * dim]);
  }

  /** pq_distance_scalar: the squared distance of the two reconstructions. */
  method CodeDistance(books: seq<seq<Vector>>, dim: nat, a: seq<nat>, b: seq<nat>) returns (sum: real)
    requires BooksOk(books, dim) && CodeOk(books, a) && CodeOk(books, b)
    ensures sum == SqDist(Decoded(books, dim, a), Decoded(books, dim, b))
  {
    sum := 0.0;
    for s := 0 to |books|
      invariant sum == SqDist(Decoded(books[..s], dim, a[..s]), Decoded(books[..s], dim, b[..s]))
    {
      var ca, cb := books[s][a[s]], books[s][b[s]];
      ghost var base := sum;
      for d := 0 to dim
        invariant sum == base + SqDistTo(ca, cb, d)
      {
        var diff := ca[d] - cb[d];
        sum := sum + diff * diff;
      }
      SqDistConcat(Decoded(books[..s], dim, a[..s]), Decoded(books[..s], dim, b[..s]), ca, cb);
      assert books[..s + 1][..s] == books[..s] && a[..s + 1][..s] == a[..s] && b[..s + 1][..s] == b[..s];
    }
    assert books[..|books|] == books && a[..|a|] == a && b[..|b|] == b;
  }
}

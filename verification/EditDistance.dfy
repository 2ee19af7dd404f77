/** Levenshtein distance: the recursion behind the row updates of the fuzzy search
    (src/util/fst.c:130-149), what it means, and why the row minimum may prune. */
module EditDistance {
  import opened Keys

  function Min(a: nat, b: nat): nat {
    if a < b then a else b
  }

  function Front<T>(s: seq<T>): seq<T>
    requires s != []
  {
    s[..|s| - 1]
  }

  function Last<T>(s: seq<T>): T
    requires s != []
  {
    s[|s| - 1]
  }

  /** The recursion on last characters. */
  function Lev(a: Bytes, b: Bytes): nat
    decreases |a| + |b|
  {
    if a == [] then |b|
    else if b == [] then |a|
    else Min(Min(Lev(Front(a), b) + 1, Lev(a, Front(b)) + 1),
             Lev(Front(a), Front(b)) + if Last(a) == Last(b) then 0 else 1)
  }

  // ---------- Meaning: the cheapest edit script ----------

  /** One column of an alignment of two strings. */
  datatype Edit = Keep(c: Byte) | Replace(c: Byte, d: Byte) | Insert(d: Byte) | Delete(c: Byte)

  function Taken(e: Edit): Bytes {
    match e case Keep(c) => [c] case Replace(c, _) => [c] case Insert(_) => [] case Delete(c) => [c]
  }

  function Given(e: Edit): Bytes {
    match e case Keep(c) => [c] case Replace(_, d) => [d] case Insert(d) => [d] case Delete(_) => []
  }

  function Source(es: seq<Edit>): Bytes {
    if es == [] then [] else Source(Front(es)) + Taken(Last(es))
  }

  function Result(es: seq<Edit>): Bytes {
    if es == [] then [] else Result(Front(es)) + Given(Last(es))
  }

  function Cost(es: seq<Edit>): nat {
    if es == [] then 0 else Cost(Front(es)) + if Last(es).Keep? then 0 else 1
  }

  lemma LevSnoc(a: Bytes, b: Bytes, e: Edit)
    ensures Lev(a + Taken(e), b + Given(e)) <= Lev(a, b) + if e.Keep? then 0 else 1
  {
    match e {
      case Keep(c) => assert Front(a + [c]) == a && Front(b + [c]) == b;
      case Replace(c, d) => assert Front(a + [c]) == a && Front(b + [d]) == b;
      case Insert(d) => assert Front(b + [d]) == b && a + [] == a;
      case Delete(c) => assert Front(a + [c]) == a && b + [] == b;
    }
  }

  /** No script that turns a into b is cheaper than the distance. */
  lemma {:induction false} LevIsLowerBound(es: seq<Edit>)
    ensures Lev(Source(es), Result(es)) <= Cost(es)
  {
    if es != [] {
      LevIsLowerBound(Front(es));
      LevSnoc(Source(Front(es)), Result(Front(es)), Last(es));
    }
  }

  lemma ScriptSnoc(es: seq<Edit>, e: Edit)
    ensures Source(es + [e]) == Source(es) + Taken(e) && Result(es + [e]) == Result(es) + Given(e)
    ensures Cost(es + [e]) == Cost(es) + if e.Keep? then 0 else 1
  {
    assert Front(es + [e]) == es && Last(es + [e]) == e;
  }

  /** The last column of a cheapest script. */
  function LastEdit(a: Bytes, b: Bytes): Edit
    requires a != [] || b != []
  {
    if a == [] || (b != [] && Lev(a, b) == Lev(a, Front(b)) + 1) then Insert(Last(b))
    else if b == [] || Lev(a, b) == Lev(Front(a), b) + 1 then Delete(Last(a))
    else if Last(a) == Last(b) then Keep(Last(a)) else Replace(Last(a), Last(b))
  }

  /** Some script attains it. */
  lemma {:induction false} LevIsAttained(a: Bytes, b: Bytes) returns (es: seq<Edit>)
    ensures Source(es) == a && Result(es) == b && Cost(es) == Lev(a, b)
    decreases |a| + |b|
  {
    if a == [] && b == [] {
      es := [];
    } else {
      var e := LastEdit(a, b);
      var a0 := if e.Insert? then a else Front(a);
      var b0 := if e.Delete? then b else Front(b);
      LastEditIs(a, b, e, a0, b0);
      es := LevIsAttained(a0, b0);
      ScriptSnoc(es, e);
      es := es + [e];
    }
  }

  lemma LastEditIs(a: Bytes, b: Bytes, e: Edit, a0: Bytes, b0: Bytes)
    requires (a != [] || b != []) && e == LastEdit(a, b)
    requires a0 == (if e.Insert? then a else Front(a)) && b0 == (if e.Delete? then b else Front(b))
    ensures a == a0 + Taken(e) && b == b0 + Given(e) && |a0| + |b0| < |a| + |b|
    ensures Lev(a, b) == Lev(a0, b0) + if e.Keep? then 0 else 1
  {
    if a != [] { FrontLast(a); }
    if b != [] { FrontLast(b); }
    match e
    case Insert(_) => assert a + [] == a;
    case Delete(_) => assert b + [] == b;
    case Keep(_) =>
    case Replace(_, _) =>
  }

  lemma FrontLast(s: Bytes)
    requires s != []
    ensures s == Front(s) + [Last(s)]
  {
  }

  // ---------- Pruning ----------

  /** Extending the first string cannot beat the best entry of its row: some prefix of b is at most
      as far from p as b is from p + x. */
  lemma {:induction false} RowMinimumBounds(p: Bytes, x: Bytes, b: Bytes) returns (j: nat)
    ensures j <= |b| && Lev(p, b[..j]) <= Lev(p + x, b)
    decreases |x| + |b|
  {
    if x == [] {
      assert p + x == p;
      j := |b|;
      assert b[..j] == b;
    } else if b == [] {
      j := 0;
    } else {
      var a := p + x;
      assert Front(a) == p + Front(x);
      if Lev(a, b) == Lev(Front(a), b) + 1 {
        j := RowMinimumBounds(p, Front(x), b);
      } else if Lev(a, b) == Lev(a, Front(b)) + 1 {
        j := RowMinimumBounds(p, x, Front(b));
        assert Front(b)[..j] == b[..j];
      } else {
        j := RowMinimumBounds(p, Front(x), Front(b));
        assert Front(b)[..j] == b[..j];
      }
    }
  }

  // ---------- Rows ----------

  /** The row of a string: its distance to every prefix of the query. */
  ghost predicate IsRow(row: seq<nat>, p: Bytes, query: Bytes) {
    |row| == |query| + 1 && forall j :: 0 <= j < |row| ==> row[j] == Lev(p, query[..j])
  }

  /** The first row (src/util/fst.c:162-163). */
  method FirstRow(query: Bytes) returns (row: seq<nat>)
    ensures IsRow(row, [], query)
  {
    row := [];
    for j := 0 to |query| + 1
      invariant |row| == j && forall i :: 0 <= i < j ==> row[i] == i
    {
      row := row + [j];
    }
  }

  /** The row update for one more character (src/util/fst.c:130-142). */
  method NextRow(row: seq<nat>, c: Byte, query: Bytes, ghost p: Bytes) returns (next: seq<nat>)
    requires IsRow(row, p, query)
    ensures IsRow(next, p + [c], query)
  {
    var q := p + [c];
    assert Front(q) == p && Last(q) == c;
    assert query[..0] == [];
    next := [row[0] + 1];
    for j := 1 to |query| + 1
      invariant |next| == j && forall i :: 0 <= i < j ==> next[i] == Lev(q, query[..i])
    {
      assert Front(query[..j]) == query[..j - 1];
      var cost := if query[j - 1] == c then 0 else 1;
      var del, ins, sub := row[j] + 1, next[j - 1] + 1, row[j - 1] + cost;
      var m := if del < ins then del else ins;
      next := next + [if m < sub then m else sub];
    }
  }

  /** The row minimum (src/util/fst.c:144-148). */
  method RowMin(row: seq<nat>) returns (m: nat)
    requires row != []
    ensures m in row && forall j :: 0 <= j < |row| ==> m <= row[j]
  {
    m := row[0];
    for j := 1 to |row|
      invariant m in row && forall i :: 0 <= i < j ==> m <= row[i]
    {
      if row[j] < m { m := row[j]; }
    }
  }
}

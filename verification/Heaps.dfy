/**
 * The two binary heaps of src/vector/hnsw.c:12-96. The candidate heap keeps the smallest distance at the
 * root, the result heap the largest; the code is the same but for the direction of the comparison, so one
 * heap takes that direction as a field.
 */
module Heaps {
  datatype Cand = Cand(dist: real, node: nat)

  /** Whether a may stand above b in the heap. */
  predicate Above(max: bool, a: Cand, b: Cand) {
    if max then a.dist >= b.dist else a.dist <= b.dist
  }

  function Parent(i: nat): (p: nat)
    requires i > 0
    ensures p < i && (i == 2 * p + 1 || i == 2 * p + 2)
  {
    (i - 1) / 2
  }

  predicate Edge(max: bool, s: seq<Cand>, i: nat)
    requires 0 < i < |s|
  {
    Above(max, s[Parent(i)], s[i])
  }

  predicate IsHeap(max: bool, s: seq<Cand>) {
    forall i: nat {:trigger Edge(max, s, i)} :: 0 < i < |s| ==> Edge(max, s, i)
  }

  lemma {:induction false} RootAbove(max: bool, s: seq<Cand>, j: nat)
    requires IsHeap(max, s) && j < |s|
    ensures Above(max, s[0], s[j])
  {
    if j > 0 {
      RootAbove(max, s, Parent(j));
      assert Edge(max, s, j);
    }
  }

  function Swapped(s: seq<Cand>, i: nat, j: nat): (r: seq<Cand>)
    requires i < |s| && j < |s|
    ensures |r| == |s| && r[i] == s[j] && r[j] == s[i]
    ensures forall k :: 0 <= k < |s| && k != i && k != j ==> r[k] == s[k]
    ensures multiset(r) == multiset(s)
  {
    s[i := s[j]][j := s[i]]
  }

  // ---- push ----------------------------------------------------------------------------------------

  /** The climb of the last element (lines 23-30). */
  function Up(max: bool, s: seq<Cand>, i: nat): (r: seq<Cand>)
    requires i < |s|
    decreases i
  {
    if i == 0 || Above(max, s[Parent(i)], s[i]) then s
    else Up(max, Swapped(s, Parent(i), i), Parent(i))
  }

  /** Every edge but the one above i holds, and the parent of i stands above the children of i. */
  ghost predicate UpReady(max: bool, s: seq<Cand>, i: nat) {
    i < |s| &&
    forall j: nat {:trigger Edge(max, s, j)} :: 0 < j < |s| ==>
      (j != i ==> Edge(max, s, j)) && (i > 0 && Parent(j) == i ==> Above(max, s[Parent(i)], s[j]))
  }

  lemma UpStep(max: bool, s: seq<Cand>, i: nat)
    requires UpReady(max, s, i) && i > 0 && !Above(max, s[Parent(i)], s[i])
    ensures UpReady(max, Swapped(s, Parent(i), i), Parent(i))
  {
    var p := Parent(i);
    var t := Swapped(s, p, i);
    forall j: nat {:trigger Edge(max, t, j)} | 0 < j < |t|
      ensures (j != p ==> Edge(max, t, j)) && (Parent(j) == p && p > 0 ==> Above(max, t[Parent(p)], t[j]))
    {
      assert j != i ==> Edge(max, s, j);
      if p > 0 { assert Edge(max, s, p); }
      if Parent(j) == i { assert Edge(max, s, j); }
    }
  }

  lemma {:induction false} UpIsHeap(max: bool, s: seq<Cand>, i: nat)
    requires UpReady(max, s, i)
    ensures IsHeap(max, Up(max, s, i)) && multiset(Up(max, s, i)) == multiset(s) && |Up(max, s, i)| == |s|
    decreases i
  {
    if i == 0 || Above(max, s[Parent(i)], s[i]) {
      forall j: nat {:trigger Edge(max, s, j)} | 0 < j < |s| ensures Edge(max, s, j) {}
    } else {
      UpStep(max, s, i);
      UpIsHeap(max, Swapped(s, Parent(i), i), Parent(i));
    }
  }

  lemma PushIsHeap(max: bool, s: seq<Cand>, c: Cand)
    requires IsHeap(max, s)
    ensures IsHeap(max, Up(max, s + [c], |s|))
    ensures multiset(Up(max, s + [c], |s|)) == multiset(s) + multiset{c}
    ensures |Up(max, s + [c], |s|)| == |s| + 1
  {
    var t := s + [c];
    forall j: nat {:trigger Edge(max, t, j)} | 0 < j < |t|
      ensures j != |s| ==> Edge(max, t, j)
    {
      if j < |s| { assert Edge(max, s, j); }
    }
    UpIsHeap(max, t, |s|);
  }

  // ---- pop -----------------------------------------------------------------------------------------

  /** The child that has to rise above i, or i itself (lines 39-45). */
  function Riser(max: bool, s: seq<Cand>, i: nat): (m: nat)
    requires i < |s|
    ensures m == i || (i < m < |s| && Parent(m) == i)
    ensures m < |s|
    ensures forall j :: i < j < |s| && Parent(j) == i ==> Above(max, s[m], s[j])
    ensures m != i ==> !Above(max, s[i], s[m])
  {
    var l := 2 * i + 1;
    var r := 2 * i + 2;
    var m := if l < |s| && !Above(max, s[i], s[l]) then l else i;
    if r < |s| && !Above(max, s[m], s[r]) then r else m
  }

  function Down(max: bool, s: seq<Cand>, i: nat): (r: seq<Cand>)
    requires i < |s|
    decreases |s| - i
  {
    var m := Riser(max, s, i);
    if m == i then s else Down(max, Swapped(s, i, m), m)
  }

  /** Every edge below another node than i holds, and the parent of i stands above the children of i. */
  ghost predicate DownAt(max: bool, s: seq<Cand>, i: nat, j: nat)
    requires i < |s| && 0 < j < |s|
  {
    if Parent(j) != i then Edge(max, s, j) else i > 0 ==> Above(max, s[Parent(i)], s[j])
  }

  ghost predicate DownReady(max: bool, s: seq<Cand>, i: nat) {
    i < |s| && forall j: nat {:trigger DownAt(max, s, i, j)} :: 0 < j < |s| ==> DownAt(max, s, i, j)
  }

  lemma DownStep(max: bool, s: seq<Cand>, i: nat, m: nat)
    requires DownReady(max, s, i) && m == Riser(max, s, i) && m != i
    ensures DownReady(max, Swapped(s, i, m), m)
  {
    var t := Swapped(s, i, m);
    assert DownAt(max, s, i, m);
    forall j: nat {:trigger DownAt(max, t, m, j)} | 0 < j < |t| ensures DownAt(max, t, m, j) {
      assert DownAt(max, s, i, j);
      if Parent(j) == m {
        assert Edge(max, s, j);
      } else if j == i {
        assert t[Parent(i)] == s[Parent(i)];
      } else if Parent(j) == i {
        assert Above(max, s[m], s[j]);
      }
    }
  }

  lemma {:induction false} DownIsHeap(max: bool, s: seq<Cand>, i: nat)
    requires DownReady(max, s, i)
    ensures IsHeap(max, Down(max, s, i)) && multiset(Down(max, s, i)) == multiset(s) && |Down(max, s, i)| == |s|
    decreases |s| - i
  {
    var m := Riser(max, s, i);
    if m == i {
      forall j: nat {:trigger Edge(max, s, j)} | 0 < j < |s| ensures Edge(max, s, j) {
        assert DownAt(max, s, i, j);
      }
    } else {
      DownStep(max, s, i, m);
      DownIsHeap(max, Swapped(s, i, m), m);
    }
  }

  /** The heap without its root (lines 36-51). */
  function Popped(max: bool, s: seq<Cand>): (r: seq<Cand>)
    requires |s| > 0
  {
    if |s| == 1 then [] else Down(max, s[0 := s[|s| - 1]][..|s| - 1], 0)
  }

  lemma LastToRoot(s: seq<Cand>, t: seq<Cand>)
    requires |s| > 1 && t == s[0 := s[|s| - 1]][..|s| - 1]
    ensures multiset(t) + multiset{s[0]} == multiset(s)
  {
    var mid, last := s[1..|s| - 1], s[|s| - 1];
    assert s == [s[0]] + mid + [last];
    assert t == [last] + mid;
  }

  lemma LastReady(max: bool, s: seq<Cand>, t: seq<Cand>)
    requires IsHeap(max, s) && |s| > 1 && t == s[0 := s[|s| - 1]][..|s| - 1]
    ensures DownReady(max, t, 0)
  {
    forall j: nat {:trigger DownAt(max, t, 0, j)} | 0 < j < |t| ensures DownAt(max, t, 0, j) {
      assert Edge(max, s, j);
    }
  }

  lemma PopIsHeap(max: bool, s: seq<Cand>)
    requires IsHeap(max, s) && |s| > 0
    ensures IsHeap(max, Popped(max, s)) && |Popped(max, s)| == |s| - 1
    ensures multiset(Popped(max, s)) + multiset{s[0]} == multiset(s)
  {
    if |s| > 1 {
      var t := s[0 := s[|s| - 1]][..|s| - 1];
      LastReady(max, s, t);
      DownIsHeap(max, t, 0);
      LastToRoot(s, t);
    } else {
      assert s == [s[0]];
    }
  }

  // ---- in place ------------------------------------------------------------------------------------

  method SiftUp(max: bool, a: array<Cand>, n: nat, start: nat)
    requires start < n <= a.Length
    modifies a
    ensures a[..n] == Up(max, old(a[..n]), start)
  {
    var i: nat := start;
    while i > 0 && !Above(max, a[Parent(i)], a[i])
      invariant i < n && Up(max, a[..n], i) == Up(max, old(a[..n]), start)
    {
      var p := Parent(i);
      ghost var t := a[..n];
      assert t[p] == a[p] && t[i] == a[i];
      a[p], a[i] := a[i], a[p];
      assert a[..n] == Swapped(t, p, i);
      i := p;
    }
  }

  method PickRiser(max: bool, a: array<Cand>, n: nat, i: nat) returns (m: nat)
    requires i < n <= a.Length
    ensures m == Riser(max, a[..n], i)
  {
    var left, right := 2 * i + 1, 2 * i + 2;
    m := i;
    if left < n && !Above(max, a[m], a[left]) { m := left; }
    if right < n && !Above(max, a[m], a[right]) { m := right; }
  }

  method SiftDown(max: bool, a: array<Cand>, n: nat)
    requires 0 < n <= a.Length
    modifies a
    ensures a[..n] == Down(max, old(a[..n]), 0)
  {
    var i: nat := 0;
    var m := PickRiser(max, a, n, i);
    while m != i
      invariant i < n && m == Riser(max, a[..n], i)
      invariant Down(max, a[..n], i) == Down(max, old(a[..n]), 0)
      decreases n - i
    {
      ghost var t := a[..n];
      assert t[i] == a[i] && t[m] == a[m];
      a[i], a[m] := a[m], a[i];
      assert a[..n] == Swapped(t, i, m);
      i := m;
      m := PickRiser(max, a, n, i);
    }
  }

  /** The array and the size that cand_push, cand_pop, res_push and res_pop are given. */
  class Heap {
    const max: bool
    const data: array<Cand>
    var size: nat

    ghost predicate Valid()
      reads this, data
    {
      size <= data.Length && IsHeap(max, data[..size])
    }

    function Contents(): (s: seq<Cand>)
      requires size <= data.Length
      reads this, data
    {
      data[..size]
    }

    constructor (max: bool, capacity: nat)
      ensures Valid() && this.max == max && data.Length == capacity && fresh(data) && Contents() == []
    {
      this.max := max;
      data := new Cand[capacity];
      size := 0;
    }

    /** cand_push and res_push */
    method Push(c: Cand)
      requires Valid() && size < data.Length
      modifies this, data
      ensures Valid() && size == old(size) + 1
      ensures multiset(Contents()) == old(multiset(Contents())) + multiset{c}
    {
      ghost var s := data[..size];
      data[size] := c;
      assert data[..size + 1] == s + [c];
      SiftUp(max, data, size + 1, size);
      size := size + 1;
      PushIsHeap(max, s, c);
    }

    /** cand_pop and res_pop: removes an extreme element. */
    method Pop() returns (top: Cand)
      requires Valid() && size > 0
      modifies this, data
      ensures Valid() && size == old(size) - 1
      ensures multiset(Contents()) + multiset{top} == old(multiset(Contents()))
      ensures forall c :: c in old(Contents()) ==> Above(max, top, c)
    {
      ghost var s := data[..size];
      PopIsHeap(max, s);
      forall c | c in s ensures Above(max, s[0], c) {
        var j :| 0 <= j < |s| && s[j] == c;
        RootAbove(max, s, j);
      }
      top := data[0];
      size := size - 1;
      data[0] := data[size];
      if size > 0 {
        assert data[..size] == s[0 := s[|s| - 1]][..|s| - 1];
        SiftDown(max, data, size);
      }
    }
  }
}

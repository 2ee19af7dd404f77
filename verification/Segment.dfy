/**
 * Dictionary segmentation (src/vector/embedding.c:74-127) over the dictionary that tools/gen_dict_header.py:27-55
 * writes: the words in code-point order, their UTF-8 bytes in one pool, each ended by a zero byte.
 */
module Segment {
  import opened Keys
  import opened Utf8

  const MAX_WORD := 8

  type Text = seq<Cp>

  ghost predicate NoZero(cs: Text) {
    forall i :: 0 <= i < |cs| ==> cs[i] != 0
  }

  /** What the generator's sort gives: strictly ascending words of 1 to 8 code points. */
  ghost predicate DictOk(ws: seq<Text>) {
    (forall i :: 0 <= i < |ws| ==> 1 <= |ws[i]| <= MAX_WORD && NoZero(ws[i])) &&
    (forall i, j :: 0 <= i < j < |ws| ==> CpCmp(ws[i], ws[j]) < 0)
  }

  // ---- the pool ------------------------------------------------------------------------------------

  function Pool(ws: seq<Text>): (b: Bytes) {
    if ws == [] then [] else Pool(ws[..|ws| - 1]) + (EncodeAll(ws[|ws| - 1]) + [0])
  }

  /** The offsets of the words in the pool. */
  function Offsets(ws: seq<Text>): (r: seq<nat>) {
    seq<nat>(|ws|, i requires 0 <= i < |ws| => |Pool(ws[..i])|)
  }

  /** The zero-terminated string at the start of the bytes. */
  function CString(b: Bytes): (s: Bytes) {
    if b == [] || b[0] == 0 then [] else [b[0]] + CString(b[1..])
  }

  lemma {:induction false} CStringBehind(w: Bytes, rest: Bytes)
    requires forall i :: 0 <= i < |w| ==> w[i] != 0
    ensures CString(w + rest) == w + CString(rest)
  {
    if w == [] {
      assert w + rest == rest;
    } else {
      CStringBehind(w[1..], rest);
      assert (w + rest)[1..] == w[1..] + rest;
      assert w == [w[0]] + w[1..];
    }
  }

  lemma CStringIs(w: Bytes, rest: Bytes)
    requires forall i :: 0 <= i < |w| ==> w[i] != 0
    ensures CString(w + [0] + rest) == w
  {
    assert w + [0] + rest == w + ([0] + rest);
    CStringBehind(w, [0] + rest);
  }

  lemma {:induction false} EncodedNoZero(cs: Text)
    requires NoZero(cs)
    ensures forall i :: 0 <= i < |EncodeAll(cs)| ==> EncodeAll(cs)[i] != 0
  {
    if cs != [] {
      EncodedNoZero(cs[1..]);
      assert forall i :: 0 <= i < |Encode(cs[0])| ==> Encode(cs[0])[i] != 0;
    }
  }

  lemma PoolStep(a: Bytes, x: Bytes, r: Bytes, y: Bytes)
    ensures (a + (x + r)) + y == a + (x + (r + y))
  {
  }

  lemma {:induction false} PoolSplit(ws: seq<Text>, i: nat) returns (rest: Bytes)
    requires i < |ws|
    ensures Pool(ws) == Pool(ws[..i]) + (EncodeAll(ws[i]) + [0] + rest)
  {
    var n := |ws| - 1;
    var x := EncodeAll(ws[i]) + [0];
    if i == n {
      rest := [];
      assert x + [] == x;
    } else {
      var r := PoolSplit(ws[..n], i);
      assert ws[..n][..i] == ws[..i];
      rest := r + (EncodeAll(ws[n]) + [0]);
      PoolStep(Pool(ws[..i]), x, r, EncodeAll(ws[n]) + [0]);
    }
  }

  /** The string at the offset of word i is the UTF-8 form of word i. */
  lemma PoolWord(ws: seq<Text>, i: nat)
    requires DictOk(ws) && i < |ws|
    ensures Offsets(ws)[i] <= |Pool(ws)| && CString(Pool(ws)[Offsets(ws)[i]..]) == EncodeAll(ws[i])
  {
    var rest := PoolSplit(ws, i);
    EncodedNoZero(ws[i]);
    CStringIs(EncodeAll(ws[i]), rest);
    var a, b := Pool(ws[..i]), EncodeAll(ws[i]) + [0] + rest;
    assert (a + b)[|a|..] == b;
  }

  // ---- lookup --------------------------------------------------------------------------------------

  ghost predicate BytesAscend(ws: seq<Text>) {
    forall i, j :: 0 <= i < j < |ws| ==> Rank(EncodeAll(ws[i])) < Rank(EncodeAll(ws[j]))
  }

  /** Every offset leads to the UTF-8 form of its word. */
  ghost predicate Strings(pool: Bytes, offsets: seq<nat>, ws: seq<Text>) {
    |offsets| == |ws| && forall i: nat {:trigger offsets[i]} :: i < |ws| ==> StringAt(pool, offsets[i], ws[i])
  }

  ghost predicate StringAt(pool: Bytes, off: nat, w: Text) {
    off <= |pool| && CString(pool[off..]) == EncodeAll(w)
  }

  /** A pool the lookup can search. */
  ghost predicate DictReady(pool: Bytes, offsets: seq<nat>, ws: seq<Text>) {
    Strings(pool, offsets, ws) && BytesAscend(ws)
  }

  /** The generator's pool is one: code-point order of the words is byte order of their encodings. */
  lemma GeneratedDict(ws: seq<Text>)
    requires DictOk(ws)
    ensures DictReady(Pool(ws), Offsets(ws), ws)
  {
    forall i, j | 0 <= i < j < |ws| ensures Rank(EncodeAll(ws[i])) < Rank(EncodeAll(ws[j])) {
      OrderIsCodePointOrder(ws[i], ws[j]);
    }
    forall i: nat | i < |ws| ensures StringAt(Pool(ws), Offsets(ws)[i], ws[i]) {
      PoolWord(ws, i);
    }
  }

  /** The text up to its first zero code point. */
  function CutZero(cs: Text): (r: Text) {
    if cs == [] || cs[0] == 0 then [] else [cs[0]] + CutZero(cs[1..])
  }

  lemma {:induction false} CutZeroIs(cs: Text, r: Text)
    requires r == CutZero(cs)
    ensures |r| <= |cs| && r == cs[..|r|] && NoZero(r)
    ensures |r| < |cs| ==> cs[|r|] == 0
  {
    if cs != [] && cs[0] != 0 { CutZeroIs(cs[1..], r[1..]); }
  }

  /** A code point 0 is written as a zero byte, where strcmp stops. */
  lemma {:induction false} BufferString(cs: Text)
    ensures CString(EncodeAll(cs) + [0]) == EncodeAll(CutZero(cs))
  {
    if cs != [] {
      var c, rest := cs[0], EncodeAll(cs[1..]) + [0];
      assert EncodeAll(cs) + [0] == Encode(c) + rest;
      if c != 0 {
        BufferString(cs[1..]);
        assert forall i :: 0 <= i < |Encode(c)| ==> Encode(c)[i] != 0;
        CStringBehind(Encode(c), rest);
        assert ([c] + CutZero(cs[1..]))[1..] == CutZero(cs[1..]);
      }
    }
  }

  /** strcmp of the word sought with word mid of the pool. */
  method Probe(pool: Bytes, offsets: seq<nat>, key: Bytes, mid: nat, ghost ws: seq<Text>) returns (cmp: int)
    requires Strings(pool, offsets, ws) && mid < |ws|
    ensures cmp == KeyCmp(key, EncodeAll(ws[mid]))
  {
    assert StringAt(pool, offsets[mid], ws[mid]);
    cmp := KeyCmp(key, CString(pool[offsets[mid]..]));
  }

  ghost predicate Below(ws: seq<Text>, lo: int, key: Bytes) {
    forall i :: 0 <= i < lo && i < |ws| ==> Rank(EncodeAll(ws[i])) < Rank(key)
  }

  ghost predicate Above(ws: seq<Text>, hi: int, key: Bytes) {
    forall i :: 0 <= i && hi < i < |ws| ==> Rank(key) < Rank(EncodeAll(ws[i]))
  }

  lemma BelowTo(ws: seq<Text>, mid: nat, key: Bytes)
    requires BytesAscend(ws) && mid < |ws| && Rank(EncodeAll(ws[mid])) < Rank(key)
    ensures Below(ws, mid + 1, key)
  {
  }

  lemma AboveFrom(ws: seq<Text>, mid: nat, key: Bytes)
    requires BytesAscend(ws) && mid < |ws| && Rank(key) < Rank(EncodeAll(ws[mid]))
    ensures Above(ws, mid - 1, key)
  {
  }

  /** The binary search of dict_lookup. */
  method SearchPool(pool: Bytes, offsets: seq<nat>, key: Bytes, ghost ws: seq<Text>, ghost w: Text) returns (found: bool)
    requires DictReady(pool, offsets, ws) && key == EncodeAll(w)
    ensures found <==> w in ws
  {
    var lo, hi := 0, |offsets| - 1;
    while lo <= hi
      invariant 0 <= lo <= hi + 1 <= |ws|
      invariant Below(ws, lo, key) && Above(ws, hi, key)
      decreases hi - lo
    {
      var mid := lo + (hi - lo) / 2;
      var cmp := Probe(pool, offsets, key, mid, ws);
      if cmp == 0 {
        EncodeInjective(w, ws[mid]);
        return true;
      }
      if cmp < 0 {
        AboveFrom(ws, mid, key);
        hi := mid - 1;
      } else {
        BelowTo(ws, mid, key);
        lo := mid + 1;
      }
    }
    found := false;
    NotThere(ws, w, lo, hi);
  }

  /** dict_lookup on the zero-terminated form of a text: finds exactly the words of the dictionary, but strcmp sees the text
      only up to its first zero code point. */
  method DictLookup(pool: Bytes, offsets: seq<nat>, word: Bytes, ghost ws: seq<Text>, ghost cs: Text) returns (found: bool)
    requires DictReady(pool, offsets, ws) && word == EncodeAll(cs) + [0]
    ensures found <==> CutZero(cs) in ws
  {
    BufferString(cs);
    found := SearchPool(pool, offsets, CString(word), ws, CutZero(cs));
  }

  lemma NotThere(ws: seq<Text>, w: Text, lo: int, hi: int)
    requires hi < lo && Below(ws, lo, EncodeAll(w)) && Above(ws, hi, EncodeAll(w))
    ensures w !in ws
  {
  }

  // ---- segmentation --------------------------------------------------------------------------------

  function Window(cs: Text): (m: nat) {
    if |cs| < MAX_WORD then |cs| else MAX_WORD
  }

  /** The greatest length up to m whose lookup succeeds, 0 if none. */
  function Longest(ws: seq<Text>, cs: Text, m: nat): (n: nat)
    requires m <= |cs|
    ensures n <= m
  {
    if m == 0 then 0 else if CutZero(cs[..m]) in ws then m else Longest(ws, cs, m - 1)
  }

  function PieceLen(ws: seq<Text>, cs: Text): (n: nat)
    requires cs != []
    ensures 1 <= n <= MAX_WORD && n <= |cs|
  {
    var n := Longest(ws, cs, Window(cs));
    if n == 0 then 1 else n
  }

  /** The length of the longest word of at most m code points that the text starts with, 0 if none. */
  function LongestWord(ws: seq<Text>, cs: Text, m: nat): (n: nat)
    requires m <= |cs|
    ensures n <= m && (n > 0 ==> cs[..n] in ws)
    ensures forall k :: n < k <= m ==> cs[..k] !in ws
  {
    if m == 0 then 0 else if cs[..m] in ws then m else LongestWord(ws, cs, m - 1)
  }

  /** The piece that maximum matching asks for. */
  function TrueLen(ws: seq<Text>, cs: Text): (n: nat)
    requires cs != []
    ensures 1 <= n <= MAX_WORD && n <= |cs|
  {
    var n := LongestWord(ws, cs, Window(cs));
    if n == 0 then 1 else n
  }

  /** The text starts with a word and a zero code point, both within the window. */
  ghost predicate WordThenZero(ws: seq<Text>, cs: Text) {
    exists z :: 1 <= z < Window(cs) && cs[z] == 0 && cs[..z] in ws
  }

  lemma {:induction false} CutIs(t: Text, z: nat)
    requires z <= |t| && NoZero(t[..z]) && (z < |t| ==> t[z] == 0)
    ensures CutZero(t) == t[..z]
  {
    if z > 0 {
      assert t[..z][0] == t[0];
      assert t[1..][..z - 1] == t[..z][1..];
      CutIs(t[1..], z - 1);
    }
  }

  lemma CutAt(cs: Text, k: nat, z: nat)
    requires z <= k <= |cs| && NoZero(cs[..z]) && (z < k ==> cs[z] == 0)
    ensures CutZero(cs[..k]) == cs[..z]
  {
    assert cs[..k][..z] == cs[..z];
    CutIs(cs[..k], z);
  }

  /** The piece taken is the one asked for unless the text starts with a word and a zero; then it is the whole window. */
  lemma PieceLenIff(ws: seq<Text>, cs: Text)
    requires DictOk(ws) && cs != []
    ensures PieceLen(ws, cs) == TrueLen(ws, cs) <==> !WordThenZero(ws, cs)
    ensures WordThenZero(ws, cs) ==> PieceLen(ws, cs) == Window(cs) && cs[..Window(cs)] !in ws
  {
    var m := Window(cs);
    if WordThenZero(ws, cs) {
      var z :| 1 <= z < m && cs[z] == 0 && cs[..z] in ws;
      assert NoZero(cs[..z]);
      CutAt(cs, m, z);
      forall k | z < k <= m ensures cs[..k] !in ws { HasZero(ws, cs, k, z); }
    } else {
      forall k | 1 <= k <= m ensures CutZero(cs[..k]) in ws <==> cs[..k] in ws { SameWord(ws, cs, k); }
      LongestSame(ws, cs, m);
    }
  }

  lemma HasZero(ws: seq<Text>, cs: Text, k: nat, z: nat)
    requires DictOk(ws) && z < k <= |cs| && cs[z] == 0
    ensures cs[..k] !in ws
  {
    assert cs[..k][z] == 0;
  }

  lemma SameWord(ws: seq<Text>, cs: Text, k: nat)
    requires DictOk(ws) && 1 <= k <= Window(cs) && !WordThenZero(ws, cs)
    ensures CutZero(cs[..k]) in ws <==> cs[..k] in ws
  {
    var z := |CutZero(cs[..k])|;
    CutZeroIs(cs[..k], CutZero(cs[..k]));
    assert cs[..k][..z] == cs[..z];
    if z < k {
      assert cs[z] == cs[..k][z] == 0;
      HasZero(ws, cs, k, z);
    } else {
      assert cs[..k][..k] == cs[..k];
    }
  }

  lemma {:induction false} LongestSame(ws: seq<Text>, cs: Text, m: nat)
    requires m <= |cs| && forall k :: 1 <= k <= m ==> (CutZero(cs[..k]) in ws <==> cs[..k] in ws)
    ensures Longest(ws, cs, m) == LongestWord(ws, cs, m)
  {
    if m > 0 { LongestSame(ws, cs, m - 1); }
  }

  /** Forward maximum matching. */
  function Greedy(ws: seq<Text>, cs: Text): (ps: seq<Text>)
    decreases |cs|
  {
    if cs == [] then [] else [cs[..PieceLen(ws, cs)]] + Greedy(ws, cs[PieceLen(ws, cs)..])
  }

  function Flatten(ps: seq<Text>): (cs: Text) {
    if ps == [] then [] else ps[0] + Flatten(ps[1..])
  }

  /** The pieces are the text, cut. */
  lemma {:induction false} GreedyPartitions(ws: seq<Text>, cs: Text)
    ensures Flatten(Greedy(ws, cs)) == cs
    decreases |cs|
  {
    if cs != [] {
      var n := PieceLen(ws, cs);
      GreedyPartitions(ws, cs[n..]);
      assert Greedy(ws, cs)[1..] == Greedy(ws, cs[n..]);
      assert cs == cs[..n] + cs[n..];
    }
  }

  /** Forward maximum matching as it is meant: every piece is the longest word at its place. */
  function TrueGreedy(ws: seq<Text>, cs: Text): (ps: seq<Text>)
    decreases |cs|
  {
    if cs == [] then [] else [cs[..TrueLen(ws, cs)]] + TrueGreedy(ws, cs[TrueLen(ws, cs)..])
  }

  /** At no cut does the text go on with a word and a zero code point. */
  ghost predicate CleanCuts(ws: seq<Text>, cs: Text)
    decreases |cs|
  {
    cs == [] || (!WordThenZero(ws, cs) && CleanCuts(ws, cs[TrueLen(ws, cs)..]))
  }

  lemma {:induction false} NoZeroIsClean(ws: seq<Text>, cs: Text)
    requires NoZero(cs)
    ensures CleanCuts(ws, cs)
    decreases |cs|
  {
    if cs != [] { NoZeroIsClean(ws, cs[TrueLen(ws, cs)..]); }
  }

  /** The piece is a dictionary word or a single code point, and no longer word starts where it starts. */
  ghost predicate LongestPiece(ws: seq<Text>, p: Text, rest: Text) {
    (p in ws || |p| == 1) && p <= rest && forall w :: w in ws && w <= rest ==> |w| <= |p|
  }

  ghost predicate LongestPieces(ws: seq<Text>, ps: seq<Text>) {
    forall k {:trigger ps[k]} :: 0 <= k < |ps| ==> LongestPiece(ws, ps[k], Flatten(ps[k..]))
  }

  lemma LongestPiecesFront(ws: seq<Text>, p: Text, ps: seq<Text>)
    ensures LongestPieces(ws, [p] + ps) <==> LongestPiece(ws, p, p + Flatten(ps)) && LongestPieces(ws, ps)
  {
    var qs := [p] + ps;
    assert qs[0..] == qs && qs[1..] == ps;
    forall k | 0 <= k < |ps| ensures qs[k + 1] == ps[k] && qs[k + 1..] == ps[k..] {}
    if LongestPieces(ws, qs) {
      assert LongestPiece(ws, qs[0], Flatten(qs[0..]));
      forall k | 0 <= k < |ps| ensures LongestPiece(ws, ps[k], Flatten(ps[k..])) {
        assert LongestPiece(ws, qs[k + 1], Flatten(qs[k + 1..]));
      }
    }
    if LongestPiece(ws, p, p + Flatten(ps)) && LongestPieces(ws, ps) {
      forall k | 0 <= k < |qs| ensures LongestPiece(ws, qs[k], Flatten(qs[k..])) {
        if k > 0 { assert LongestPiece(ws, ps[k - 1], Flatten(ps[k - 1..])); }
      }
    }
  }

  /** The first piece is as long as it should be exactly when the text does not go on with a word and a zero. */
  lemma FirstPieceIff(ws: seq<Text>, cs: Text)
    requires DictOk(ws) && cs != []
    ensures LongestPiece(ws, cs[..PieceLen(ws, cs)], cs) <==> !WordThenZero(ws, cs)
  {
    PieceLenIff(ws, cs);
    if WordThenZero(ws, cs) {
      assert |cs[..PieceLen(ws, cs)]| > 1;
    } else {
      var n := TrueLen(ws, cs);
      forall w | w in ws && w <= cs ensures |w| <= n { assert cs[..|w|] == w; }
    }
  }

  lemma SameCuts(p: Text, ps: seq<Text>, q: Text, qs: seq<Text>)
    ensures [p] + ps == [q] + qs <==> p == q && ps == qs
  {
    assert ([p] + ps)[0] == p && ([q] + qs)[0] == q && ([p] + ps)[1..] == ps && ([q] + qs)[1..] == qs;
  }

  /** The cuts are those of maximum matching exactly when no cut is followed by a word and a zero code point within the
      window. */
  lemma {:induction false} GreedyIsTrueIff(ws: seq<Text>, cs: Text)
    requires DictOk(ws)
    ensures Greedy(ws, cs) == TrueGreedy(ws, cs) <==> CleanCuts(ws, cs)
    decreases |cs|
  {
    if cs != [] {
      var n, m := PieceLen(ws, cs), TrueLen(ws, cs);
      PieceLenIff(ws, cs);
      GreedyIsTrueIff(ws, cs[n..]);
      SameCuts(cs[..n], Greedy(ws, cs[n..]), cs[..m], TrueGreedy(ws, cs[m..]));
      assert |cs[..n]| == n && |cs[..m]| == m;
    }
  }

  lemma FrontIff(ws: seq<Text>, cs: Text, n: nat, ps: seq<Text>)
    requires DictOk(ws) && cs != [] && n == PieceLen(ws, cs) && Flatten(ps) == cs[n..]
    ensures LongestPieces(ws, [cs[..n]] + ps) <==> !WordThenZero(ws, cs) && LongestPieces(ws, ps)
  {
    FirstPieceIff(ws, cs);
    assert cs[..n] + cs[n..] == cs;
    LongestPiecesFront(ws, cs[..n], ps);
  }

  /** Under the same condition, and no other, every piece is the longest word at its place, or a single code point where no
      word starts. */
  lemma {:induction false} GreedyIsLongestIff(ws: seq<Text>, cs: Text)
    requires DictOk(ws)
    ensures LongestPieces(ws, Greedy(ws, cs)) <==> CleanCuts(ws, cs)
    decreases |cs|
  {
    if cs != [] {
      var n := PieceLen(ws, cs);
      GreedyPartitions(ws, cs[n..]);
      FrontIff(ws, cs, n, Greedy(ws, cs[n..]));
      PieceLenIff(ws, cs);
      if !WordThenZero(ws, cs) { GreedyIsLongestIff(ws, cs[n..]); }
    }
  }

  /** A word followed by a zero code point is cut together with it. */
  lemma ZeroIsSwallowed()
    ensures DictOk([[65]]) && Greedy([[65]], [65, 0]) == [[65, 0]] && TrueGreedy([[65]], [65, 0]) == [[65], [0]]
  {
    var ws: seq<Text>, cs: Text := [[65]], [65, 0];
    assert ws[0] == [65];
    assert cs[..1] == [65] && cs[..1] in ws;
    assert WordThenZero(ws, cs);
    PieceLenIff(ws, cs);
    assert cs[..2] == cs && cs[2..] == [];
    TwoCuts(ws, cs);
  }

  lemma TwoCuts(ws: seq<Text>, cs: Text)
    requires ws == [[65]] && cs == [65, 0]
    ensures TrueGreedy(ws, cs) == [[65], [0]]
  {
    assert cs[..1] == [65] && cs[..2] == cs && cs[1..] == [0];
    assert LongestWord(ws, cs, 2) == LongestWord(ws, cs, 1) == 1;
    OneCut(ws, [0]);
    assert TrueGreedy(ws, cs) == [[65]] + TrueGreedy(ws, [0]);
  }

  lemma OneCut(ws: seq<Text>, cs: Text)
    requires |cs| == 1
    ensures TrueGreedy(ws, cs) == [cs]
  {
    assert TrueLen(ws, cs) == 1 && cs[..1] == cs && cs[1..] == [];
  }

  /** The output: every piece with a space after it. */
  function Render(ps: seq<Text>): (out: Text) {
    if ps == [] then [] else Render(ps[..|ps| - 1]) + ps[|ps| - 1] + [0x20]
  }

  /** Lines 99-115 */
  method NextLen(pool: Bytes, offsets: seq<nat>, cs: Text, i: nat, ghost ws: seq<Text>) returns (n: nat)
    requires DictReady(pool, offsets, ws) && i < |cs|
    ensures n == PieceLen(ws, cs[i..])
  {
    var max := |cs| - i;
    if max > MAX_WORD { max := MAX_WORD; }
    ghost var rest := cs[i..];
    var len := max;
    while len >= 1
      invariant 0 <= len <= max && Longest(ws, rest, max) == Longest(ws, rest, len)
    {
      var word := cs[i..i + len];
      assert rest[..len] == word;
      EncodedSize(word);
      var buf := EncodeAll(word) + [0];
      assert |buf| <= 64;
      var found := DictLookup(pool, offsets, buf, ws, word);
      if found { return len; }
      len := len - 1;
    }
    n := 1;
  }

  lemma {:induction false} EncodedSize(cs: Text)
    ensures |EncodeAll(cs)| <= 4 * |cs|
  {
    if cs != [] { EncodedSize(cs[1..]); }
  }

  /** What was written after some pieces: all of them with spaces, but for a last space that did not fit. */
  ghost predicate Written(out: Text, ps: seq<Text>, cap: int) {
    out == Render(ps) || (|out| == cap - 1 && out + [0x20] == Render(ps))
  }

  /** segment_codepoints: the pieces of a prefix of the text, and of the whole text if the buffer is large enough. */
  method SegmentText(pool: Bytes, offsets: seq<nat>, cs: Text, cap: int, ghost ws: seq<Text>) returns (out: Text)
    requires DictReady(pool, offsets, ws)
    ensures |out| <= cap - 1 || out == []
    ensures exists ps :: ps <= Greedy(ws, cs) && Written(out, ps, cap) && (ps == Greedy(ws, cs) || |out| >= cap - 8)
    ensures 2 * (|cs| - 1) < cap - 8 ==> out == Render(Greedy(ws, cs))
  {
    out := [];
    ghost var all := Greedy(ws, cs);
    ghost var ps: seq<Text>, todo := [], all;
    var i := 0;
    assert cs[0..] == cs && ps + todo == all;
    while i < |cs| && |out| < cap - 8
      invariant 0 <= i <= |cs| && todo == Greedy(ws, cs[i..])
      invariant Progress(all, i, out, ps, todo, cap)
      decreases |cs| - i
    {
      out, i, ps, todo := SegmentStep(pool, offsets, cs, i, out, cap, ws, all, ps, todo);
    }
    assert i == |cs| ==> cs[i..] == [];
    ProgressEnd(all, i, |cs|, out, ps, todo, cap);
  }

  /** One round of that loop. */
  method SegmentStep(pool: Bytes, offsets: seq<nat>, cs: Text, i: nat, out: Text, cap: int, ghost ws: seq<Text>,
                     ghost all: seq<Text>, ghost ps: seq<Text>, ghost todo: seq<Text>)
    returns (more: Text, next: nat, ghost qs: seq<Text>, ghost rest: seq<Text>)
    requires DictReady(pool, offsets, ws) && i < |cs| && |out| < cap - 8 && todo == Greedy(ws, cs[i..])
    requires Progress(all, i, out, ps, todo, cap)
    ensures i < next <= |cs| && rest == Greedy(ws, cs[next..]) && Progress(all, next, more, qs, rest, cap)
  {
    var n;
    ghost var p;
    n, p, rest := NextPiece(pool, offsets, cs, i, ws, todo);
    more, qs := WritePiece(cs, i, n, out, cap, all, ps, todo, p, rest);
    next := i + n;
  }

  method WritePiece(cs: Text, i: nat, n: nat, out: Text, cap: int, ghost all: seq<Text>, ghost ps: seq<Text>, ghost todo: seq<Text>,
                    ghost p: Text, ghost rest: seq<Text>)
    returns (more: Text, ghost qs: seq<Text>)
    requires 1 <= n <= |cs| - i && n <= MAX_WORD && p == cs[i..i + n] && todo == [p] + rest
    requires Progress(all, i, out, ps, todo, cap) && |out| < cap - 8
    ensures Progress(all, i + n, more, qs, rest, cap)
  {
    more := AppendPiece(out, cs, i, n, cap);
    qs := ps + [p];
    ProgressStep(all, i, out, ps, todo, cap, p, rest, more);
  }

  method NextPiece(pool: Bytes, offsets: seq<nat>, cs: Text, i: nat, ghost ws: seq<Text>, ghost todo: seq<Text>)
    returns (n: nat, ghost p: Text, ghost rest: seq<Text>)
    requires DictReady(pool, offsets, ws) && i < |cs| && todo == Greedy(ws, cs[i..])
    ensures 1 <= n <= |cs| - i && n <= MAX_WORD && p == cs[i..i + n] && rest == Greedy(ws, cs[i + n..]) && todo == [p] + rest
  {
    n := NextLen(pool, offsets, cs, i, ws);
    p, rest := GreedyStep(ws, cs, i, n, todo);
  }

  lemma GreedyStep(ws: seq<Text>, cs: Text, i: nat, n: nat, todo: seq<Text>) returns (p: Text, rest: seq<Text>)
    requires i < |cs| && n == PieceLen(ws, cs[i..]) && todo == Greedy(ws, cs[i..])
    ensures 1 <= n <= |cs| - i && n <= MAX_WORD && p == cs[i..i + n] && rest == Greedy(ws, cs[i + n..]) && todo == [p] + rest
  {
    p, rest := cs[i..i + n], Greedy(ws, cs[i + n..]);
    assert cs[i..][..n] == cs[i..i + n] && cs[i..][n..] == cs[i + n..];
  }

  /** The pieces written and those to come are all pieces. */
  ghost predicate Progress(all: seq<Text>, i: int, out: Text, ps: seq<Text>, todo: seq<Text>, cap: int) {
    |out| <= 2 * i && (out == [] || |out| <= cap - 1) && ps + todo == all && Written(out, ps, cap)
  }

  lemma ProgressStep(all: seq<Text>, i: nat, out: Text, ps: seq<Text>, todo: seq<Text>, cap: int, p: Text, rest: seq<Text>, more: Text)
    requires Progress(all, i, out, ps, todo, cap) && |out| < cap - 8 && 1 <= |p| <= MAX_WORD && todo == [p] + rest
    requires more == if |out| + |p| < cap - 1 then out + p + [0x20] else out + p
    ensures Progress(all, i + |p|, more, ps + [p], rest, cap)
  {
    PieceWritten(out, ps, p, cap, more);
    assert ps + ([p] + rest) == (ps + [p]) + rest;
  }

  lemma ProgressEnd(all: seq<Text>, i: nat, size: nat, out: Text, ps: seq<Text>, todo: seq<Text>, cap: int)
    requires Progress(all, i, out, ps, todo, cap) && i <= size && (i == size || |out| >= cap - 8) && (i == size ==> todo == [])
    ensures ps <= all && Written(out, ps, cap) && (ps == all || |out| >= cap - 8)
    ensures 2 * (size - 1) < cap - 8 ==> ps == all && out == Render(ps)
  {
    if i == size { assert ps + [] == ps; }
  }

  lemma PieceWritten(out: Text, ps: seq<Text>, piece: Text, cap: int, more: Text)
    requires out == Render(ps) && |out| < cap - 8 && |piece| <= MAX_WORD
    requires more == if |out| + |piece| < cap - 1 then out + piece + [0x20] else out + piece
    ensures Written(more, ps + [piece], cap)
  {
    assert (ps + [piece])[..|ps|] == ps;
  }

  /** Lines 118-123 */
  method AppendPiece(out0: Text, cs: Text, i: nat, n: nat, cap: int) returns (out: Text)
    requires i + n <= |cs| && n <= MAX_WORD && |out0| < cap - 8
    ensures out == if |out0| + n < cap - 1 then out0 + cs[i..i + n] + [0x20] else out0 + cs[i..i + n]
    ensures |out| <= cap - 1
  {
    out := out0;
    var j := 0;
    while j < n && |out| < cap - 1
      invariant 0 <= j <= n && out == out0 + cs[i..i + j]
    {
      out := out + [cs[i + j]];
      assert cs[i..i + (j + 1)] == cs[i..i + j] + [cs[i + j]];
      j := j + 1;
    }
    if |out| < cap - 1 { out := out + [0x20]; }
  }
}

/** The write-ahead log: buffered appends, replay and truncation (src/storage/wal.c). */
module Wal {
  import opened Keys
  import opened Records

  const MAGIC := 0x4845524D4553
  const VERSION := 1
  const HEADER_SIZE := 20
  const BUF_SIZE := 65536
  const MAX_LEN := 1048576

  function Header(seqno: nat): (b: Bytes)
    ensures |b| == HEADER_SIZE
  {
    LE(MAGIC, 8) + LE(VERSION, 4) + LE(seqno, 8)
  }

  // ---------- Parsing ----------

  /** The outcome of one round of the replay loop (src/storage/wal.c:361-402). */
  datatype Parsed = Whole(d: Delivery, size: nat) | Ended | Bad

  function ParseOne(b: Bytes): (p: Parsed)
    ensures p.Whole? ==> FIXED <= p.size <= |b|
  {
    if |b| < FIXED then Ended
    else
      var kl, vl := FromLE(b[17..25]), FromLE(b[25..33]);
      var put := b[8] == 0;
      if kl > MAX_LEN || vl > MAX_LEN || |b| < FIXED + kl then Bad
      else if put && |b| < FIXED + kl + vl then Bad
      else
        var size := FIXED + kl + if put then vl else 0;
        Whole(Delivery(FromLE(b[0..8]), !put, FromLE(b[9..17]), b[FIXED..FIXED + kl],
                       if put then b[FIXED + kl..size] else [], vl), size)
  }

  datatype Status = Ok | Corrupt

  /** Everything a replay of these bytes delivers. */
  function ParseAll(b: Bytes): (seq<Delivery>, Status)
    decreases |b|
  {
    match ParseOne(b)
    case Ended => ([], Ok)
    case Bad => ([], Corrupt)
    case Whole(d, size) => var (ds, st) := ParseAll(b[size..]); ([d] + ds, st)
  }

  /** A record wal_append takes. */
  predicate Fits(r: Record) {
    Fits64(r) && |Encode(r)| <= BUF_SIZE
  }

  /** One that replay takes as well: a delete stores the length of its value, which callers pass as 0. */
  predicate Accepted(r: Record) {
    Fits(r) && (r.delete ==> |r.val| <= MAX_LEN)
  }

  ghost predicate AllAccepted(rs: seq<Record>) {
    forall i :: 0 <= i < |rs| ==> Accepted(rs[i])
  }

  lemma ParseWhole(r: Record, rest: Bytes)
    requires Accepted(r)
    ensures ParseOne(Encode(r) + rest) == Whole(Canon(r), |Encode(r)|)
  {
    var b := Encode(r) + rest;
    assert b[..FIXED] == Head(r);
    HeadFields(r, b);
    assert b[FIXED..FIXED + |r.key|] == r.key;
    if !r.delete {
      assert b[FIXED + |r.key|..|Encode(r)|] == r.val;
    }
  }

  /** A cut-off record is never delivered. */
  lemma ParseTorn(r: Record, n: nat)
    requires Accepted(r) && n < |Encode(r)|
    ensures !ParseOne(Encode(r)[..n]).Whole?
  {
    if n >= FIXED {
      var b := Encode(r)[..n];
      assert b[..FIXED] == Head(r);
      HeadFields(r, b);
    }
  }

  function Canons(rs: seq<Record>): (ds: seq<Delivery>)
    ensures |ds| == |rs| && forall i :: 0 <= i < |rs| ==> ds[i] == Canon(rs[i])
  {
    seq(|rs|, i requires 0 <= i < |rs| => Canon(rs[i]))
  }

  /** How many of the records lie completely within the first n bytes. */
  function WholeRecords(rs: seq<Record>, n: nat): (c: nat)
    ensures c <= |rs|
  {
    if rs == [] || |Encode(rs[0])| > n then 0 else 1 + WholeRecords(rs[1..], n - |Encode(rs[0])|)
  }

  lemma EncodeAllFront(rs: seq<Record>)
    requires rs != []
    ensures EncodeAll(rs) == Encode(rs[0]) + EncodeAll(rs[1..])
  {
    EncodeAllAppend([rs[0]], rs[1..]);
    EncodeSingle(rs[0]);
    FrontAndRest(rs);
  }

  lemma EncodeSingle(r: Record)
    ensures EncodeAll([r]) == Encode(r)
  {
    assert [r][..0] == [] && [] + Encode(r) == Encode(r);
  }

  lemma FrontAndRest(rs: seq<Record>)
    requires rs != []
    ensures [rs[0]] + rs[1..] == rs
  {
  }

  /** The count is the largest number of records that fit. */
  lemma {:induction false} WholeRecordsIsMax(rs: seq<Record>, n: nat)
    ensures var c := WholeRecords(rs, n);
            |EncodeAll(rs[..c])| <= n && (c < |rs| ==> n < |EncodeAll(rs[..c + 1])|)
  {
    if rs == [] {
    } else if |Encode(rs[0])| > n {
      PrefixSize(rs, 1);
      assert rs[1..][..0] == [] && rs[..0] == [];
    } else {
      var c := WholeRecords(rs, n);
      WholeRecordsIsMax(rs[1..], n - |Encode(rs[0])|);
      PrefixSize(rs, c);
      if c < |rs| { PrefixSize(rs, c + 1); }
    }
  }

  lemma PrefixSize(rs: seq<Record>, c: nat)
    requires 0 < c <= |rs|
    ensures |EncodeAll(rs[..c])| == |Encode(rs[0])| + |EncodeAll(rs[1..][..c - 1])|
  {
    EncodeAllFront(rs[..c]);
    assert rs[..c][1..] == rs[1..][..c - 1];
  }

  lemma ParseAllFront(r: Record, rest: Bytes)
    requires Accepted(r)
    ensures ParseAll(Encode(r) + rest) == ([Canon(r)] + ParseAll(rest).0, ParseAll(rest).1)
  {
    ParseWhole(r, rest);
    assert (Encode(r) + rest)[|Encode(r)|..] == rest;
  }

  lemma {:induction false} WholeArea(rs: seq<Record>)
    requires AllAccepted(rs)
    ensures ParseAll(EncodeAll(rs)) == (Canons(rs), Ok)
  {
    if rs != [] {
      EncodeAllFront(rs);
      WholeArea(rs[1..]);
      ParseAllFront(rs[0], EncodeAll(rs[1..]));
      assert Canons(rs) == [Canon(rs[0])] + Canons(rs[1..]);
    }
  }

  // ---------- A log cut off and appended to ----------

  /** Whole records in front are delivered, whatever follows them. */
  lemma {:induction false} ParseBehind(rs: seq<Record>, rest: Bytes)
    requires AllAccepted(rs)
    ensures ParseAll(EncodeAll(rs) + rest) == (Canons(rs) + ParseAll(rest).0, ParseAll(rest).1)
  {
    if rs == [] {
      assert EncodeAll(rs) + rest == rest && Canons(rs) + ParseAll(rest).0 == ParseAll(rest).0;
    } else {
      ParseBehind(rs[1..], rest);
      BehindOne(rs, EncodeAll(rs[1..]), rest);
    }
  }

  lemma BehindOne(rs: seq<Record>, tail: Bytes, rest: Bytes)
    requires rs != [] && Accepted(rs[0]) && tail == EncodeAll(rs[1..])
    requires ParseAll(tail + rest) == (Canons(rs[1..]) + ParseAll(rest).0, ParseAll(rest).1)
    ensures ParseAll(EncodeAll(rs) + rest) == (Canons(rs) + ParseAll(rest).0, ParseAll(rest).1)
  {
    EncodeAllFront(rs);
    Assoc(Encode(rs[0]), tail, rest);
    ParseAllFront(rs[0], tail + rest);
    CanonsSplit(rs, ParseAll(rest).0);
  }

  lemma CanonsSplit(rs: seq<Record>, ds: seq<Delivery>)
    requires rs != []
    ensures Canons(rs) + ds == [Canon(rs[0])] + (Canons(rs[1..]) + ds)
  {
  }

  /** A whole record at the front is read the same, whatever is appended. */
  lemma ParseOneStable(b: Bytes, x: Bytes)
    requires ParseOne(b).Whole?
    ensures ParseOne(b + x) == ParseOne(b)
  {
    SameSlice(b, x, 0, 8);
    SameSlice(b, x, 9, 17);
    SameSlice(b, x, 17, 25);
    SameSlice(b, x, 25, 33);
    var kl, size := FromLE(b[17..25]), ParseOne(b).size;
    SameSlice(b, x, FIXED, FIXED + kl);
    SameSlice(b, x, FIXED + kl, size);
  }

  lemma SameSlice(b: Bytes, x: Bytes, p: nat, q: nat)
    requires p <= q <= |b|
    ensures (b + x)[p..q] == b[p..q]
  {
  }

  /** What a replay leaves unread: the bytes behind the last whole record. */
  function Unread(b: Bytes): (r: Bytes)
    ensures !ParseOne(r).Whole?
    decreases |b|
  {
    var p := ParseOne(b);
    if p.Whole? then Unread(b[p.size..]) else b
  }

  /** Bytes appended to any log are read behind what it leaves unread. */
  lemma {:induction false} ParseAppend(b: Bytes, x: Bytes)
    ensures ParseAll(b + x).0 == ParseAll(b).0 + ParseAll(Unread(b) + x).0
    ensures Unread(b + x) == Unread(Unread(b) + x)
    decreases |b|
  {
    var p := ParseOne(b);
    if p.Whole? {
      ParseOneStable(b, x);
      ParseAppend(b[p.size..], x);
      DropFront(b, x, p.size);
      AssocThree(p.d, ParseAll(b[p.size..]).0, ParseAll(Unread(b[p.size..]) + x).0);
    } else {
      assert [] + ParseAll(b + x).0 == ParseAll(b + x).0;
    }
  }

  lemma DropFront(b: Bytes, x: Bytes, n: nat)
    requires n <= |b|
    ensures (b + x)[n..] == b[n..] + x
  {
  }

  lemma AssocThree(d: Delivery, a: seq<Delivery>, b: seq<Delivery>)
    ensures [d] + (a + b) == ([d] + a) + b
  {
  }

  /** The fragment a cut after n bytes leaves behind the whole records; empty when n is a record boundary. */
  function Fragment(rs: seq<Record>, n: nat): (b: Bytes)
    requires n <= |EncodeAll(rs)|
  {
    var size := |EncodeAll(rs[..WholeRecords(rs, n)])|;
    if size <= n then EncodeAll(rs)[size..n] else []
  }

  lemma CutParts(rs: seq<Record>, n: nat, c: nat)
    requires n <= |EncodeAll(rs)| && c == WholeRecords(rs, n)
    ensures EncodeAll(rs)[..n] == EncodeAll(rs[..c]) + Fragment(rs, n)
    ensures |EncodeAll(rs[..c])| <= n
  {
    WholeRecordsIsMax(rs, n);
    EncodeAllAppend(rs[..c], rs[c..]);
    assert rs == rs[..c] + rs[c..];
    PrefixThen(EncodeAll(rs), EncodeAll(rs[..c]), EncodeAll(rs[c..]), n);
  }

  lemma PrefixThen(all: Bytes, a: Bytes, b: Bytes, n: nat)
    requires all == a + b && |a| <= n <= |all|
    ensures all[..n] == a + all[|a|..n]
  {
  }

  /** The fragment is an incomplete record. */
  lemma FragmentIs(rs: seq<Record>, n: nat, c: nat)
    requires n <= |EncodeAll(rs)| && c == WholeRecords(rs, n)
    ensures c == |rs| ==> Fragment(rs, n) == []
    ensures c < |rs| ==> |Fragment(rs, n)| < |Encode(rs[c])| && Fragment(rs, n) == Encode(rs[c])[..|Fragment(rs, n)|]
  {
    CutParts(rs, n, c);
    if c == |rs| {
      assert rs[..c] == rs;
    } else {
      WholeRecordsIsMax(rs, n);
      NextRecord(rs, c);
      FragmentWindow(EncodeAll(rs), EncodeAll(rs[..c]), Encode(rs[c]), EncodeAll(rs[c + 1..]), n);
    }
  }

  lemma NextRecord(rs: seq<Record>, c: nat)
    requires c < |rs|
    ensures EncodeAll(rs) == EncodeAll(rs[..c]) + (Encode(rs[c]) + EncodeAll(rs[c + 1..]))
    ensures |EncodeAll(rs[..c + 1])| == |EncodeAll(rs[..c])| + |Encode(rs[c])|
  {
    EncodeAllAppend(rs[..c], rs[c..]);
    assert rs == rs[..c] + rs[c..];
    EncodeAllFront(rs[c..]);
    assert rs[c..][1..] == rs[c + 1..];
    assert rs[..c + 1][..c] == rs[..c];
  }

  lemma FragmentWindow(all: Bytes, a: Bytes, e: Bytes, z: Bytes, n: nat)
    requires all == a + (e + z) && |a| <= n < |a| + |e|
    ensures all[|a|..n] == e[..n - |a|]
  {
  }

  /** For every byte prefix of the record area, replay delivers exactly the whole records in it. */
  lemma PrefixReplay(rs: seq<Record>, n: nat)
    requires AllAccepted(rs) && n <= |EncodeAll(rs)|
    ensures ParseAll(EncodeAll(rs)[..n]).0 == Canons(rs[..WholeRecords(rs, n)])
    ensures n == |EncodeAll(rs)| ==> ParseAll(EncodeAll(rs)[..n]).1 == Ok
  {
    var c := WholeRecords(rs, n);
    CutParts(rs, n, c);
    FragmentIs(rs, n, c);
    ParseBehind(rs[..c], Fragment(rs, n));
    if c < |rs| { ParseTorn(rs[c], |Fragment(rs, n)|); }
    assert Canons(rs[..c]) + [] == Canons(rs[..c]);
    if n == |EncodeAll(rs)| {
      assert EncodeAll(rs)[..n] == EncodeAll(rs);
      WholeArea(rs);
    }
  }

  lemma {:induction false} UnreadBehind(rs: seq<Record>, rest: Bytes)
    requires AllAccepted(rs) && !ParseOne(rest).Whole?
    ensures Unread(EncodeAll(rs) + rest) == rest
  {
    if rs == [] {
      assert EncodeAll(rs) + rest == rest;
    } else {
      UnreadBehind(rs[1..], rest);
      EncodeAllFront(rs);
      Assoc(Encode(rs[0]), EncodeAll(rs[1..]), rest);
      ParseWhole(rs[0], EncodeAll(rs[1..]) + rest);
      Behind(Encode(rs[0]), EncodeAll(rs[1..]) + rest);
    }
  }

  lemma Behind(a: Bytes, b: Bytes)
    ensures (a + b)[|a|..] == b
  {
  }

  /** A log cut off after n bytes leaves its fragment unread. */
  lemma UnreadIsFragment(rs: seq<Record>, n: nat)
    requires AllAccepted(rs) && n <= |EncodeAll(rs)|
    ensures Unread(EncodeAll(rs)[..n]) == Fragment(rs, n)
  {
    var c := WholeRecords(rs, n);
    CutParts(rs, n, c);
    FragmentIs(rs, n, c);
    if c < |rs| { ParseTorn(rs[c], |Fragment(rs, n)|); }
    UnreadBehind(rs[..c], Fragment(rs, n));
  }

  /** Records appended behind a cut: the whole records come back, then whatever fragment and new records read as. */
  lemma CutReplay(rs: seq<Record>, n: nat, ts: seq<Record>)
    requires AllAccepted(rs) && n <= |EncodeAll(rs)|
    ensures var tail := ParseAll(Fragment(rs, n) + EncodeAll(ts));
            ParseAll(EncodeAll(rs)[..n] + EncodeAll(ts)) == (Canons(rs[..WholeRecords(rs, n)]) + tail.0, tail.1)
  {
    var c := WholeRecords(rs, n);
    CutParts(rs, n, c);
    Assoc(EncodeAll(rs[..c]), Fragment(rs, n), EncodeAll(ts));
    ParseBehind(rs[..c], Fragment(rs, n) + EncodeAll(ts));
  }

  /** The bytes read as the record: equal to its encoding, but any non-zero byte marks a delete. */
  ghost predicate Matches(b: Bytes, r: Record) {
    |b| >= |Encode(r)| && b[..8] == Encode(r)[..8] && (b[8] == 0 <==> !r.delete) && b[9..|Encode(r)|] == Encode(r)[9..]
  }

  /** The bytes read as the records in turn, and what is left is no whole record. */
  ghost predicate ReadsAs(b: Bytes, ts: seq<Record>)
    decreases |ts|
  {
    if ts == [] then !ParseOne(b).Whole?
    else Matches(b, ts[0]) && ReadsAs(b[|Encode(ts[0])|..], ts[1..])
  }

  lemma EncodeWindows(r: Record)
    ensures var e, k := Encode(r), |r.key|;
            e[0..8] == LE(r.seqno, 8) && e[8] == (if r.delete then 1 else 0) && e[9..17] == LE(r.table, 8) &&
            e[17..25] == LE(|r.key|, 8) && e[25..33] == LE(|r.val|, 8) && e[33..33 + k] == r.key && e[33 + k..] == Payload(r)[k..]
  {
    var h := Head(r);
    assert Encode(r)[..33] == h;
    assert h[0..8] == LE(r.seqno, 8) && h[9..17] == LE(r.table, 8) && h[17..25] == LE(|r.key|, 8) && h[25..33] == LE(|r.val|, 8);
  }

  /** Equal at every window, equal from 9 on. */
  lemma WindowsMeet(b: Bytes, e: Bytes, k: nat)
    requires |e| >= 33 + k && |b| >= |e|
    requires b[9..17] == e[9..17] && b[17..25] == e[17..25] && b[25..33] == e[25..33]
    requires b[33..33 + k] == e[33..33 + k] && b[33 + k..|e|] == e[33 + k..]
    ensures b[9..|e|] == e[9..]
  {
    assert b[9..|e|] == b[9..17] + b[17..25] + b[25..33] + b[33..33 + k] + b[33 + k..|e|];
    assert e[9..] == e[9..17] + e[17..25] + e[25..33] + e[33..33 + k] + e[33 + k..];
  }

  lemma InverseAt(b: Bytes, p: nat, n: nat)
    requires p + 8 <= |b| && FromLE(b[p..p + 8]) == n
    ensures b[p..p + 8] == LE(n, 8)
  {
    FromLEInverse(b[p..p + 8]);
  }

  lemma WindowsSame(b: Bytes, e: Bytes)
    requires |b| >= |e| >= 33 && b[..8] == e[..8] && b[9..|e|] == e[9..]
    ensures b[0..8] == e[0..8] && b[9..17] == e[9..17] && b[17..25] == e[17..25] && b[25..33] == e[25..33]
    ensures forall p, q :: 33 <= p <= q <= |e| ==> b[p..q] == e[p..q]
  {
    forall p, q | 9 <= p <= q <= |e| ensures b[p..q] == e[p..q] {
      SubSlice(b, 9, |e|, p, q);
      SubSlice(e, 9, |e|, p, q);
      assert e[9..|e|] == e[9..];
    }
  }

  lemma SubSlice(b: Bytes, lo: nat, hi: nat, p: nat, q: nat)
    requires lo <= p <= q <= hi <= |b|
    ensures b[lo..hi][p - lo..q - lo] == b[p..q]
  {
    var x, y := b[lo..hi][p - lo..q - lo], b[p..q];
    assert |x| == |y|;
    forall i | 0 <= i < |x| ensures x[i] == y[i] { assert b[lo..hi][p - lo + i] == b[p + i]; }
  }

  /** Bytes deliver a record exactly when they match it. */
  lemma ParseMatches(b: Bytes, r: Record)
    requires Accepted(r)
    ensures ParseOne(b).Whole? && ParseOne(b).d == Canon(r) <==> Matches(b, r)
    ensures Matches(b, r) ==> ParseOne(b).size == |Encode(r)|
  {
    if Matches(b, r) { MatchesParse(b, r); }
    if ParseOne(b).Whole? && ParseOne(b).d == Canon(r) { MatchesBack(b, r); }
  }

  lemma FieldsParse(b: Bytes, r: Record, k: nat, size: nat)
    requires Accepted(r) && k == |r.key| && size == |Encode(r)| <= |b|
    requires FromLE(b[0..8]) == r.seqno && (b[8] == 0 <==> !r.delete) && FromLE(b[9..17]) == r.table
    requires FromLE(b[17..25]) == k && FromLE(b[25..33]) == |r.val| && b[33..33 + k] == r.key
    requires !r.delete ==> b[33 + k..size] == r.val
    ensures ParseOne(b) == Whole(Canon(r), size)
  {
  }

  lemma MatchesParse(b: Bytes, r: Record)
    requires Accepted(r) && Matches(b, r)
    ensures ParseOne(b) == Whole(Canon(r), |Encode(r)|)
  {
    var e, k := Encode(r), |r.key|;
    MatchedFields(b, r, e, k);
    FieldsParse(b, r, k, |e|);
  }

  lemma MatchedFields(b: Bytes, r: Record, e: Bytes, k: nat)
    requires Accepted(r) && Matches(b, r) && e == Encode(r) && k == |r.key|
    ensures FromLE(b[0..8]) == r.seqno && FromLE(b[9..17]) == r.table && FromLE(b[17..25]) == k && FromLE(b[25..33]) == |r.val|
    ensures b[33..33 + k] == r.key && (!r.delete ==> b[33 + k..|e|] == r.val)
  {
    EncodeWindows(r);
    WindowsSame(b, e);
    U64RoundTrip(r.seqno);
    U64RoundTrip(r.table);
    U64RoundTrip(k);
    U64RoundTrip(|r.val|);
    assert b[33..33 + k] == r.key;
    if !r.delete { assert b[33 + k..|e|] == e[33 + k..|e|] == r.val; }
  }

  lemma MatchesBack(b: Bytes, r: Record)
    requires Accepted(r) && ParseOne(b).Whole? && ParseOne(b).d == Canon(r)
    ensures Matches(b, r)
  {
    var e, k := Encode(r), |r.key|;
    EncodeWindows(r);
    InverseAt(b, 0, r.seqno);
    InverseAt(b, 9, r.table);
    InverseAt(b, 17, k);
    InverseAt(b, 25, |r.val|);
    assert b[..8] == b[0..8] && e[..8] == e[0..8];
    WindowsMeet(b, e, k);
  }

  /** What any bytes deliver is a given list of records exactly when they read as it. */
  lemma {:induction false} DeliversIff(b: Bytes, ts: seq<Record>)
    requires AllAccepted(ts)
    ensures ParseAll(b).0 == Canons(ts) <==> ReadsAs(b, ts)
    decreases |ts|
  {
    if ts != [] {
      ParseMatches(b, ts[0]);
      assert Canons(ts) == [Canon(ts[0])] + Canons(ts[1..]);
      if ParseOne(b).Whole? {
        var rest := b[ParseOne(b).size..];
        assert ParseAll(b).0 == [ParseOne(b).d] + ParseAll(rest).0;
        HeadTail(ParseOne(b).d, ParseAll(rest).0, Canon(ts[0]), Canons(ts[1..]));
        if Matches(b, ts[0]) { DeliversIff(rest, ts[1..]); }
      }
    }
  }

  lemma HeadTail(a: Delivery, x: seq<Delivery>, b: Delivery, y: seq<Delivery>)
    ensures [a] + x == [b] + y <==> a == b && x == y
  {
    assert ([a] + x)[0] == a && ([b] + y)[0] == b && ([a] + x)[1..] == x && ([b] + y)[1..] == y;
  }

  /** Appending behind a cut loses nothing exactly when the fragment followed by the new records reads as the new records.
      On a record boundary the fragment is empty and it always does. */
  lemma TornReplayIff(rs: seq<Record>, n: nat, ts: seq<Record>)
    requires AllAccepted(rs) && AllAccepted(ts) && n <= |EncodeAll(rs)|
    ensures ParseAll(EncodeAll(rs)[..n] + EncodeAll(ts)).0 == Canons(rs[..WholeRecords(rs, n)] + ts) <==>
            ReadsAs(Fragment(rs, n) + EncodeAll(ts), ts)
    ensures Fragment(rs, n) == [] ==> ReadsAs(Fragment(rs, n) + EncodeAll(ts), ts)
    ensures Fragment(rs, n) == [] <==> n == |EncodeAll(rs[..WholeRecords(rs, n)])|
  {
    var c, b := WholeRecords(rs, n), Fragment(rs, n) + EncodeAll(ts);
    CutReplay(rs, n, ts);
    CutParts(rs, n, c);
    DeliversIff(b, ts);
    CanonsJoin(rs[..c], ts, ParseAll(b).0);
    if Fragment(rs, n) == [] {
      assert b == EncodeAll(ts);
      WholeArea(ts);
    }
  }

  lemma CanonsJoin(a: seq<Record>, b: seq<Record>, ds: seq<Delivery>)
    ensures Canons(a) + ds == Canons(a + b) <==> ds == Canons(b)
  {
    var x, y := Canons(a) + ds, Canons(a + b);
    assert y == Canons(a) + Canons(b);
    assert x[|a|..] == ds && y[|a|..] == Canons(b);
  }

  /** A record torn after its fixed part takes the bytes it misses from the records behind it, or, if they are too few,
      makes the whole replay stop: everything appended behind it is lost. */
  lemma TornTakesOver(r: Record, n: nat, rest: Bytes)
    requires Accepted(r) && FIXED <= n < |Encode(r)|
    ensures var b, need := Encode(r)[..n] + rest, |Encode(r)| - n;
            if |rest| < need then ParseAll(b) == ([], Corrupt)
            else ParseOne(b).Whole? && ParseOne(b).size == |Encode(r)| && ParseOne(b).d.seqno == r.seqno &&
                 ParseAll(b).0[1..] == ParseAll(rest[need..]).0
  {
    var e, need := Encode(r), |Encode(r)| - n;
    var b := e[..n] + rest;
    assert b[..FIXED] == Head(r);
    HeadFields(r, b);
    if |rest| >= need { assert b[|e|..] == rest[need..]; }
  }

  /** It comes back as itself exactly when the bytes behind it begin with the ones it misses. */
  lemma TornCompletedIff(r: Record, n: nat, rest: Bytes)
    requires Accepted(r) && FIXED <= n < |Encode(r)|
    ensures var b, need := Encode(r)[..n] + rest, |Encode(r)| - n;
            ParseOne(b).Whole? && ParseOne(b).d == Canon(r) <==> |rest| >= need && rest[..need] == Encode(r)[n..]
  {
    var b := Encode(r)[..n] + rest;
    ParseMatches(b, r);
    if |rest| >= |Encode(r)| - n && rest[..|Encode(r)| - n] == Encode(r)[n..] { WholeMatches(b, r, n, rest); }
    if Matches(b, r) { MatchCompletes(b, r, n, rest); }
  }

  lemma WholeMatches(b: Bytes, r: Record, n: nat, rest: Bytes)
    requires n <= |Encode(r)| && b == Encode(r)[..n] + rest && |rest| >= |Encode(r)| - n && rest[..|Encode(r)| - n] == Encode(r)[n..]
    ensures Matches(b, r)
  {
    var e := Encode(r);
    assert b[..|e|] == e by { assert e == e[..n] + e[n..]; }
    assert b[9..|e|] == b[..|e|][9..] && b[..8] == b[..|e|][..8] && b[8] == b[..|e|][8];
    EncodeWindows(r);
  }

  lemma MatchCompletes(b: Bytes, r: Record, n: nat, rest: Bytes)
    requires FIXED <= n <= |Encode(r)| && b == Encode(r)[..n] + rest && Matches(b, r)
    ensures |rest| >= |Encode(r)| - n && rest[..|Encode(r)| - n] == Encode(r)[n..]
  {
    var e := Encode(r);
    WindowsSame(b, e);
    assert b[n..|e|] == rest[..|e| - n];
    assert e[n..|e|] == e[n..];
  }

  lemma FirstByte(r: Record)
    requires r.seqno < 256
    ensures Encode(r)[0] == r.seqno
  {
    assert LE(r.seqno, 8)[0] == r.seqno;
    assert Head(r)[0] == LE(r.seqno, 8)[0];
  }

  /** A put torn after its fixed part, and another put of the same shape behind it: the second is lost, and a record
      nobody appended is delivered in its place. */
  lemma TornTailIsMisread()
    ensures var lost, next := Record(7, false, 0, [1], []), Record(7, false, 0, [2], []);
            Accepted(lost) && Accepted(next) && !ReadsAs(Encode(lost)[..FIXED] + Encode(next), [next]) &&
            ParseOne(Encode(lost)[..FIXED] + Encode(next)) == Whole(Delivery(7, false, 0, [7], [], 0), FIXED + 1)
  {
    var lost, next := Record(7, false, 0, [1], []), Record(7, false, 0, [2], []);
    var b := Encode(lost)[..FIXED] + Encode(next);
    FirstByte(next);
    assert Encode(lost)[..FIXED] == Head(lost);
    JoinAt(Head(lost), Encode(next));
    HeadFields(lost, b);
    ParseMatches(b, next);
  }

  lemma JoinAt(a: Bytes, b: Bytes)
    requires b != []
    ensures (a + b)[..|a|] == a && (a + b)[|a|] == b[0] && (a + b)[|a|..|a| + 1] == [b[0]]
  {
  }

  /** A cut inside a record can also be harmless: a put of the low byte of its own sequence number under the empty key,
      torn after its fixed part and appended again, reads as itself. */
  lemma TearCanBeHarmless(n: Byte, table: nat)
    requires table < U64
    ensures var r := Record(n, false, table, [], [n]); Accepted(r) && ReadsAs(Encode(r)[..FIXED] + Encode(r), [r])
  {
    var r := Record(n, false, table, [], [n]);
    FirstByte(r);
    TornCopyReads(r, Encode(r)[..FIXED] + Encode(r));
  }

  lemma TornCopyReads(r: Record, b: Bytes)
    requires Accepted(r) && !r.delete && r.key == [] && |r.val| == 1 && Encode(r)[0] == r.val[0]
    requires b == Encode(r)[..FIXED] + Encode(r)
    ensures ReadsAs(b, [r])
  {
    OwnByte(r, b);
    BehindCopy(Encode(r), b);
    BigLength(r, Encode(r)[1..]);
    assert [r][1..] == [];
  }

  lemma BehindCopy(e: Bytes, b: Bytes)
    requires |e| == FIXED + 1 && b == e[..FIXED] + e
    ensures b[|e|..] == e[1..]
  {
  }

  lemma OwnByte(r: Record, b: Bytes)
    requires Accepted(r) && !r.delete && r.key == [] && |r.val| == 1 && Encode(r)[0] == r.val[0]
    requires b == Encode(r)[..FIXED] + Encode(r)
    ensures Matches(b, r)
  {
    assert Encode(r)[FIXED..] == r.val;
    WholeMatches(b, r, FIXED, Encode(r));
  }

  lemma BigLength(r: Record, rest: Bytes)
    requires |r.val| == 1 && r.key == [] && !r.delete && rest == Encode(r)[1..]
    ensures !ParseOne(rest).Whole?
  {
    EncodeWindows(r);
    ShiftedLength(Encode(r), rest);
    assert LE(0, 8)[1..] == LE(0, 7) && LE(1, 8)[0] == 1;
    HighByte(7);
    assert Pow256(3) == 16777216 && Pow256(7) >= Pow256(3);
  }

  lemma ShiftedLength(e: Bytes, rest: Bytes)
    requires |e| >= 33 && rest == e[1..]
    ensures rest[17..25] == e[17..25][1..] + [e[25..33][0]]
  {
  }

  lemma {:induction false} HighByte(n: nat)
    ensures FromLE(LE(0, n) + [1]) == Pow256(n)
  {
    if n > 0 {
      HighByte(n - 1);
      assert (LE(0, n) + [1])[1..] == LE(0, n - 1) + [1];
    } else {
      assert LE(0, 0) + [1] == [1] && [1][1..] == [];
    }
  }

  // ---------- The log object ----------

  datatype FsyncMode = None_ | Periodic | Always

  /** The bytes are the header, the record area found on opening, and the records appended since. */
  ghost predicate LogOk(file: Bytes, buf: Bytes, seqno: nat, base: nat, start: Bytes, recs: seq<Record>) {
    && HEADER_SIZE <= |file| && |buf| <= BUF_SIZE && seqno < U64 && base < U64
    && file + buf == Header(base) + (start + EncodeAll(recs))
    && (forall i :: 0 <= i < |recs| ==> Fits(recs[i]))
  }

  lemma LogOkAppend(file: Bytes, buf: Bytes, seqno: nat, base: nat, start: Bytes, recs: seq<Record>, r: Record)
    requires LogOk(file, buf, seqno, base, start, recs) && Fits(r) && |buf| + |Encode(r)| <= BUF_SIZE
    ensures LogOk(file, buf + Encode(r), seqno, base, start, recs + [r])
  {
    assert (recs + [r])[..|recs + [r]| - 1] == recs;
    Assoc(file, buf, Encode(r));
    Assoc(Header(base), start + EncodeAll(recs), Encode(r));
    Assoc(start, EncodeAll(recs), Encode(r));
  }

  lemma AreaIs(file: Bytes, base: nat, area: Bytes)
    requires file + [] == Header(base) + area
    ensures |file| >= HEADER_SIZE && file[HEADER_SIZE..] == area
  {
    assert file == file + [];
  }

  /** The replay loop over the record area. */
  method ReplayBytes(b: Bytes) returns (out: seq<Delivery>, status: Status)
    ensures (out, status) == ParseAll(b)
  {
    var rest := b;
    out := [];
    assert out + ParseAll(b).0 == ParseAll(b).0;
    while true
      invariant ParseAll(b) == (out + ParseAll(rest).0, ParseAll(rest).1)
      decreases |rest|
    {
      var p := ParseOne(rest);
      if p.Ended? {
        assert out + [] == out;
        return out, Ok;
      }
      if p.Bad? {
        assert out + [] == out;
        return out, Corrupt;
      }
      AssocDeliveries(out, p.d, ParseAll(rest[p.size..]).0);
      out := out + [p.d];
      rest := rest[p.size..];
    }
  }

  lemma AssocDeliveries(a: seq<Delivery>, d: Delivery, b: seq<Delivery>)
    ensures a + ([d] + b) == (a + [d]) + b
  {
  }

  /** A header wal_create takes: magic number, version, and a whole sequence number. */
  predicate HeaderOk(file: Bytes) {
    |file| >= HEADER_SIZE && FromLE(file[0..8]) == MAGIC && FromLE(file[8..12]) == VERSION
  }

  lemma HeaderReads(file: Bytes)
    requires HeaderOk(file)
    ensures var seqno := FromLE(file[12..20]); seqno < U64 && file + [] == Header(seqno) + (file[HEADER_SIZE..] + EncodeAll([]))
  {
    FromLEInverse(file[0..8]);
    FromLEInverse(file[8..12]);
    FromLEInverse(file[12..20]);
    Pow256Values();
    HeaderParts(file);
  }

  lemma HeaderParts(file: Bytes)
    requires |file| >= HEADER_SIZE
    ensures file + [] == (file[0..8] + file[8..12] + file[12..20]) + (file[HEADER_SIZE..] + [])
  {
  }

  lemma HeaderWritten(seqno: nat, area: Bytes)
    requires seqno < U64
    ensures HeaderOk(Header(seqno) + area) && FromLE((Header(seqno) + area)[12..20]) == seqno
    ensures (Header(seqno) + area)[HEADER_SIZE..] == area
  {
    var f := Header(seqno) + area;
    Pow256Values();
    LERoundTrip(MAGIC, 8);
    LERoundTrip(VERSION, 4);
    U64RoundTrip(seqno);
    assert f[0..8] == LE(MAGIC, 8) && f[8..12] == LE(VERSION, 4) && f[12..20] == LE(seqno, 8);
  }

  class Log {
    var file: Bytes          // what has been handed to the file
    var buf: Bytes           // what is still in the write buffer
    var seqno: nat
    var readable: bool       // the stream was opened for reading, too
    const mode: FsyncMode
    ghost var base: nat      // sequence number in the file header
    ghost var start: Bytes   // record area when the log was opened or emptied
    ghost var recs: seq<Record>  // appended since

    ghost predicate Valid()
      reads this
    {
      LogOk(file, buf, seqno, base, start, recs)
    }

    /** wal_create on a new file, or on a file whose header is good (src/storage/wal.c:201-236): the sequence number comes
        from the header, whatever records follow it. */
    constructor (f: Bytes, m: FsyncMode)
      requires f == [] || HeaderOk(f)
      ensures Valid() && mode == m && readable && buf == [] && recs == []
      ensures f == [] ==> start == [] && seqno == base == 0
      ensures f != [] ==> start == f[HEADER_SIZE..] && seqno == base == FromLE(f[12..20]) && file == f
    {
      buf := [];
      mode := m;
      readable := true;
      recs := [];
      if f == [] {
        file := Header(0);
        seqno := 0;
        base := 0;
        start := [];
      } else {
        HeaderReads(f);
        file := f;
        seqno := FromLE(f[12..20]);
        base := FromLE(f[12..20]);
        start := f[HEADER_SIZE..];
      }
    }

    /** wal_flush_buf */
    method Flush()
      requires Valid()
      modifies this`file, this`buf
      ensures Valid() && buf == [] && file == old(file) + old(buf)
    {
      file := file + buf;
      buf := [];
      assert file + buf == file;
    }

    /** The retry of wal_append: flush when the record does not fit behind the buffered ones. */
    method MakeRoom(need: nat) returns (ok: bool)
      requires Valid()
      modifies this`file, this`buf
      ensures Valid() && (ok <==> need <= BUF_SIZE) && (ok ==> |buf| + need <= BUF_SIZE)
      ensures buf == if |old(buf)| + need <= BUF_SIZE then old(buf) else []
    {
      if need > BUF_SIZE - |buf| {
        Flush();
      }
      ok := need <= BUF_SIZE - |buf|;
    }

    /** The record goes to the buffer; mode Always or a half-full buffer sends it on to the file. */
    method Store(r: Record)
      requires Valid() && Fits(r) && |buf| + |Encode(r)| <= BUF_SIZE
      modifies this`file, this`buf, this`recs
      ensures Valid() && recs == old(recs) + [r]
      ensures buf == if mode == Always || |old(buf)| + |Encode(r)| >= 32768 then [] else old(buf) + Encode(r)
    {
      LogOkAppend(file, buf, seqno, base, start, recs, r);
      buf := buf + Encode(r);
      recs := recs + [r];
      if mode == Always || |buf| >= BUF_SIZE / 2 {
        Flush();
      }
    }

    /** wal_append: accepted exactly when the record fits an empty buffer; a refused append uses up a sequence number,
        which wraps at 64 bits. What the buffer cannot take is sent on to the file first; a buffer that is half full, and
        in mode Always any, is sent on before the return. */
    method Append(delete: bool, table: nat, key: Bytes, val: Bytes) returns (ok: bool)
      requires Valid() && table < U64 && |key| < U64 && |val| < U64
      modifies this`file, this`buf, this`recs, this`seqno
      ensures Valid() && seqno == (old(seqno) + 1) % U64
      ensures ok <==> |Encode(Record(seqno, delete, table, key, val))| <= 65536
      ensures recs == if ok then old(recs) + [Record(seqno, delete, table, key, val)] else old(recs)
      ensures var e := Encode(Record(seqno, delete, table, key, val));
              var kept := if |old(buf)| + |e| <= 65536 then old(buf) else [];
              buf == if !ok || mode == Always || |kept| + |e| >= 32768 then [] else kept + e
    {
      seqno := (seqno + 1) % U64;
      var r := Record(seqno, delete, table, key, val);
      var e := Encode(r);
      ok := MakeRoom(|e|);
      if ok { Store(r); }
    }

    /** wal_replay: flushes, then delivers what the record area reads as, and takes over the last sequence number; after a
        truncation the stream cannot be read and nothing is delivered. */
    method Replay() returns (out: seq<Delivery>, status: Status)
      requires Valid()
      modifies this`file, this`buf, this`seqno
      ensures Valid() && buf == []
      ensures (out, status) == if readable then ParseAll(start + EncodeAll(recs)) else ([], Ok)
      ensures seqno == if out == [] then old(seqno) else out[|out| - 1].seqno
    {
      Flush();
      AreaIs(file, base, start + EncodeAll(recs));
      if !readable { return [], Ok; }
      out, status := ReplayBytes(file[HEADER_SIZE..]);
      if out != [] {
        DeliveredSeqno(file[HEADER_SIZE..], |out| - 1);
        seqno := out[|out| - 1].seqno;
      }
    }

    /** wal_truncate: an empty log whose header carries the sequence number on, opened for writing only. */
    method Truncate()
      requires Valid()
      modifies this
      ensures Valid() && recs == [] && start == [] && buf == [] && base == seqno == old(seqno) && file == Header(seqno)
      ensures !readable
    {
      Flush();
      file := Header(seqno);
      base := seqno;
      start := [];
      recs := [];
      readable := false;
    }
  }

  /** wal_create: nothing is returned for a file that is not empty and has no good header. */
  method Create(f: Bytes, m: FsyncMode) returns (log: Log?)
    ensures log == null <==> f != [] && !HeaderOk(f)
    ensures log != null ==> fresh(log) && log.Valid() && log.mode == m && log.readable && log.recs == [] && log.buf == []
    ensures log != null ==> log.start == (if f == [] then [] else f[HEADER_SIZE..])
    ensures log != null ==> log.seqno == if f == [] then 0 else FromLE(f[12..20])
  {
    if f != [] && !HeaderOk(f) { return null; }
    log := new Log(f, m);
  }

  lemma {:induction false} DeliveredSeqno(b: Bytes, i: nat)
    requires i < |ParseAll(b).0|
    ensures ParseAll(b).0[i].seqno < U64
    decreases |b|
  {
    var p := ParseOne(b);
    if i == 0 {
      FromLEInverse(b[0..8]);
      Pow256Values();
    } else {
      DeliveredSeqno(b[p.size..], i - 1);
    }
  }

  // ---------- Sessions ----------

  /** Sequence numbers grow strictly from the header's on. */
  ghost predicate Climbs(base: nat, rs: seq<Record>) {
    && (forall i :: 0 <= i < |rs| ==> base < rs[i].seqno)
    && (forall i, j :: 0 <= i < j < |rs| ==> rs[i].seqno < rs[j].seqno)
  }

  function LastSeqno(base: nat, rs: seq<Record>): (n: nat) {
    if rs == [] then base else rs[|rs| - 1].seqno
  }

  /** Reopening any byte prefix of a written file and replaying it delivers exactly the whole records in it, and leaves the
      sequence number of the last of them. */
  lemma ReopenReplays(base: nat, rs: seq<Record>, n: nat, f: Bytes)
    requires AllAccepted(rs) && base < U64 && n <= |EncodeAll(rs)| && f == (Header(base) + EncodeAll(rs))[..HEADER_SIZE + n]
    ensures HeaderOk(f) && FromLE(f[12..20]) == base
    ensures var (out, _) := ParseAll(f[HEADER_SIZE..] + EncodeAll([])); var kept := rs[..WholeRecords(rs, n)];
            out == Canons(kept) && (if out == [] then base else out[|out| - 1].seqno) == LastSeqno(base, kept)
  {
    var area := EncodeAll(rs)[..n];
    assert f == Header(base) + area;
    HeaderWritten(base, area);
    assert area + EncodeAll([]) == area;
    PrefixReplay(rs, n);
  }

  /** Appends after such a replay go on with strictly larger sequence numbers. */
  lemma SessionClimbs(base: nat, rs: seq<Record>, ts: seq<Record>)
    requires Climbs(base, rs) && forall i :: 0 <= i < |ts| ==> ts[i].seqno == LastSeqno(base, rs) + 1 + i
    ensures Climbs(base, rs + ts)
  {
  }

  /** An append to a reopened log before its replay takes the number after the header's: that is in order exactly when the
      log was empty. */
  lemma AppendBeforeReplayIff(base: nat, rs: seq<Record>, r: Record)
    requires Climbs(base, rs) && r.seqno == base + 1
    ensures Climbs(base, rs + [r]) <==> rs == []
  {
    if rs != [] { assert (rs + [r])[0] == rs[0] && (rs + [r])[|rs|] == r; }
  }
}

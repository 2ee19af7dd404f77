/**
 * The two linked structures over the pages of src/util/page_cache.c: the circular recency list through the
 * sentinel, and the hash chains. Memory is a map from addresses to pages; `ring` and `chain` are the addresses
 * in list order.
 */
module PageLists {
  import opened Keys

  type Ptr = nat
  const NULL: Ptr := 0
  /** The address of the sentinel inside the cache object. */
  const HEAD: Ptr := 1

  datatype Page = Page(id: nat, refcount: int, dirty: bool, data: Bytes, hashNext: Ptr, lruNext: Ptr, lruPrev: Ptr)

  type Memory = map<Ptr, Page>

  ghost predicate NoDup(s: seq<Ptr>) {
    forall i, j :: 0 <= i < j < |s| ==> s[i] != s[j]
  }

  // ---- the recency list ----------------------------------------------------------------------------

  /** The position after i, around the ring. */
  function Succ(i: nat, n: nat): (j: nat)
    requires i < n
    ensures j < n
  {
    if i + 1 < n then i + 1 else 0
  }

  ghost predicate LinkOk(mem: Memory, ring: seq<Ptr>, i: nat)
    requires i < |ring| && forall k :: 0 <= k < |ring| ==> ring[k] in mem
  {
    mem[ring[i]].lruNext == ring[Succ(i, |ring|)] && mem[ring[Succ(i, |ring|)]].lruPrev == ring[i]
  }

  /** The sentinel first, then the pages from the most to the least recently used, linked both ways. */
  ghost predicate RingOk(mem: Memory, ring: seq<Ptr>) {
    |ring| > 0 && ring[0] == HEAD && NoDup(ring) && (forall i :: 0 <= i < |ring| ==> ring[i] in mem) &&
    forall i: nat {:trigger LinkOk(mem, ring, i)} :: i < |ring| ==> LinkOk(mem, ring, i)
  }

  function WithNext(mem: Memory, p: Ptr, q: Ptr): (r: Memory)
    requires p in mem
  {
    mem[p := mem[p].(lruNext := q)]
  }

  function WithPrev(mem: Memory, p: Ptr, q: Ptr): (r: Memory)
    requires p in mem
  {
    mem[p := mem[p].(lruPrev := q)]
  }

  /** Nothing changed but links of the recency list. */
  ghost predicate OnlyLinks(mem: Memory, now: Memory) {
    now.Keys == mem.Keys &&
    forall p :: p in mem ==> now[p] == mem[p].(lruNext := now[p].lruNext, lruPrev := now[p].lruPrev)
  }

  function Cut<T>(s: seq<T>, k: nat): (r: seq<T>)
    requires k < |s|
  {
    s[..k] + s[k + 1..]
  }

  /** lru_remove */
  method LruRemove(mem: Memory, page: Ptr, ghost ring: seq<Ptr>, ghost k: nat) returns (now: Memory)
    requires RingOk(mem, ring) && 0 < k < |ring| && ring[k] == page
    ensures OnlyLinks(mem, now) && RingOk(now, Cut(ring, k))
  {
    assert LinkOk(mem, ring, k) && LinkOk(mem, ring, k - 1);
    var prev, next := mem[page].lruPrev, mem[page].lruNext;
    now := WithNext(mem, prev, next);
    now := WithPrev(now, next, prev);
    RemoveOk(mem, now, ring, k);
  }

  lemma RemoveOk(mem: Memory, now: Memory, ring: seq<Ptr>, k: nat)
    requires RingOk(mem, ring) && 0 < k < |ring|
    requires now == WithPrev(WithNext(mem, ring[k - 1], ring[Succ(k, |ring|)]), ring[Succ(k, |ring|)], ring[k - 1])
    ensures OnlyLinks(mem, now) && RingOk(now, Cut(ring, k))
  {
    var cut, n := Cut(ring, k), |ring|;
    assert forall i :: 0 <= i < |cut| ==> cut[i] == if i < k then ring[i] else ring[i + 1];
    forall i: nat {:trigger LinkOk(now, cut, i)} | i < |cut| ensures LinkOk(now, cut, i) {
      var j := if i < k then i else i + 1;
      assert LinkOk(mem, ring, j);
      if i == k - 1 { assert LinkOk(mem, ring, k); }
    }
  }

  /** lru_push_front */
  method LruPushFront(mem: Memory, page: Ptr, ghost ring: seq<Ptr>) returns (now: Memory)
    requires RingOk(mem, ring) && page in mem && page !in ring
    ensures OnlyLinks(mem, now) && RingOk(now, [HEAD, page] + ring[1..])
  {
    assert LinkOk(mem, ring, 0);
    var first := mem[HEAD].lruNext;
    now := WithNext(mem, page, first);
    now := WithPrev(now, page, HEAD);
    now := WithPrev(now, first, page);
    now := WithNext(now, HEAD, page);
    PushOk(mem, now, page, ring);
  }

  lemma PushOk(mem: Memory, now: Memory, page: Ptr, ring: seq<Ptr>)
    requires RingOk(mem, ring) && page in mem && page !in ring
    requires now == WithNext(WithPrev(WithPrev(WithNext(mem, page, ring[Succ(0, |ring|)]), page, HEAD), ring[Succ(0, |ring|)], page), HEAD, page)
    ensures OnlyLinks(mem, now) && RingOk(now, [HEAD, page] + ring[1..])
  {
    var r, n := [HEAD, page] + ring[1..], |ring|;
    assert forall i :: 2 <= i < |r| ==> r[i] == ring[i - 1];
    assert forall i :: 0 <= i < n ==> ring[i] in ring;
    forall i: nat {:trigger LinkOk(now, r, i)} | i < |r| ensures LinkOk(now, r, i) {
      if i >= 1 { assert LinkOk(mem, ring, i - 1); }
    }
  }

  // ---- hash chains ---------------------------------------------------------------------------------

  /** Element i of a chain, or the null address after its end. */
  function At(ch: seq<Ptr>, i: nat): (p: Ptr) {
    if i < |ch| then ch[i] else NULL
  }

  ghost predicate ChainLink(mem: Memory, ch: seq<Ptr>, i: nat, b: nat, cap: nat)
    requires i < |ch| && cap > 0
  {
    ch[i] in mem && ch[i] != NULL && ch[i] != HEAD && mem[ch[i]].hashNext == At(ch, i + 1) && mem[ch[i]].id % cap == b
  }

  ghost predicate ChainOk(mem: Memory, start: Ptr, ch: seq<Ptr>, b: nat, cap: nat)
    requires cap > 0
  {
    start == At(ch, 0) && NoDup(ch) &&
    forall i: nat {:trigger ChainLink(mem, ch, i, b, cap)} :: i < |ch| ==> ChainLink(mem, ch, i, b, cap)
  }

  ghost predicate ChainsOk(mem: Memory, slots: seq<Ptr>, chains: seq<seq<Ptr>>, cap: nat) {
    cap > 0 && |slots| == |chains| == cap &&
    forall b: nat {:trigger ChainOk(mem, slots[b], chains[b], b, cap)} :: b < cap ==> ChainOk(mem, slots[b], chains[b], b, cap)
  }

  lemma ChainsFrame(mem: Memory, now: Memory, slots: seq<Ptr>, chains: seq<seq<Ptr>>, cap: nat)
    requires ChainsOk(mem, slots, chains, cap)
    requires forall p :: p in mem ==> p in now && now[p].id == mem[p].id && now[p].hashNext == mem[p].hashNext
    ensures ChainsOk(now, slots, chains, cap)
  {
    forall b: nat {:trigger ChainOk(now, slots[b], chains[b], b, cap)} | b < cap ensures ChainOk(now, slots[b], chains[b], b, cap) {
      assert ChainOk(mem, slots[b], chains[b], b, cap);
      forall i: nat {:trigger ChainLink(now, chains[b], i, b, cap)} | i < |chains[b]| ensures ChainLink(now, chains[b], i, b, cap) {
        assert ChainLink(mem, chains[b], i, b, cap);
      }
    }
  }

  /** A page enters at the front of its chain (lines 108-109). */
  lemma ChainPush(mem: Memory, now: Memory, start: Ptr, ch: seq<Ptr>, b: nat, cap: nat, p: Ptr, x: Page)
    requires cap > 0 && ChainOk(mem, start, ch, b, cap) && p !in mem && p != NULL && p != HEAD
    requires now == mem[p := x] && x.hashNext == start && x.id % cap == b
    ensures ChainOk(now, p, [p] + ch, b, cap)
  {
    var c := [p] + ch;
    assert forall i :: 1 <= i < |c| ==> c[i] == ch[i - 1];
    forall i: nat {:trigger ChainLink(now, c, i, b, cap)} | i < |c| ensures ChainLink(now, c, i, b, cap) {
      if i > 0 { assert ChainLink(mem, ch, i - 1, b, cap); }
    }
    assert NoDup(c) by {
      forall i: nat | i < |ch| ensures ch[i] != p { assert ChainLink(mem, ch, i, b, cap); }
    }
  }

  /** A page leaves its chain: its predecessor, or the slot, takes over its link (lines 85-92). */
  lemma ChainCut(mem: Memory, now: Memory, start: Ptr, ch: seq<Ptr>, b: nat, cap: nat, k: nat, first: Ptr)
    requires cap > 0 && ChainOk(mem, start, ch, b, cap) && k < |ch|
    requires k == 0 ==> ch[0] in mem && now == mem && first == mem[ch[0]].hashNext
    requires k > 0 ==> ch[k - 1] in mem && ch[k] in mem &&
                       now == mem[ch[k - 1] := mem[ch[k - 1]].(hashNext := mem[ch[k]].hashNext)] && first == start
    ensures ChainOk(now, first, Cut(ch, k), b, cap)
  {
    var c := Cut(ch, k);
    assert forall i :: 0 <= i < |c| ==> c[i] == if i < k then ch[i] else ch[i + 1];
    assert ChainLink(mem, ch, k, b, cap);
    forall i: nat {:trigger ChainLink(now, c, i, b, cap)} | i < |c| ensures ChainLink(now, c, i, b, cap) {
      assert ChainLink(mem, ch, if i < k then i else i + 1, b, cap);
    }
  }
}

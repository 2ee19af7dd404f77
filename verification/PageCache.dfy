/**
 * The page cache of src/util/page_cache.c: hash chains to find a page, and a recency list to choose a victim.
 * Pages() is what a caller sees: the resident pages from the most to the least recently touched. Addresses come
 * from `malloc`, any function of the set in use that returns an unused one; it may return a freed address again.
 */
module PageCache {
  import opened Keys
  import opened PageLists

  const PAGE_SIZE := 4096

  /** A page as its users see it. */
  datatype Info = Info(id: nat, refcount: int, dirty: bool, data: Bytes)

  function InfoOf(p: Page): (x: Info) {
    Info(p.id, p.refcount, p.dirty, p.data)
  }

  ghost predicate InMemory(mem: Memory, ring: seq<Ptr>) {
    forall i :: 0 <= i < |ring| ==> ring[i] in mem
  }

  ghost function PagesOf(mem: Memory, ring: seq<Ptr>): (r: seq<Info>)
    requires |ring| > 0 && InMemory(mem, ring)
    ensures |r| == |ring| - 1
  {
    seq(|ring| - 1, i requires 0 <= i < |ring| - 1 => InfoOf(mem[ring[i + 1]]))
  }

  /** Both structures hold the same pages, each in the chain of its id, and ids are distinct. */
  ghost predicate IndexOk(mem: Memory, ring: seq<Ptr>, chains: seq<seq<Ptr>>, cap: nat) {
    cap > 0 && |chains| == cap && NULL !in mem && (forall p :: p in mem ==> p in ring) &&
    (forall p :: p in mem && p != HEAD ==> p in chains[mem[p].id % cap]) &&
    (forall p, q :: p in mem && q in mem && p != HEAD && q != HEAD && mem[p].id == mem[q].id ==> p == q)
  }

  ghost predicate StoreOk(mem: Memory, ring: seq<Ptr>, slots: seq<Ptr>, chains: seq<seq<Ptr>>, cap: nat) {
    RingOk(mem, ring) && ChainsOk(mem, slots, chains, cap) && IndexOk(mem, ring, chains, cap)
  }

  /** Changes that keep the keys and the chains. */
  ghost predicate SamePlaces(mem: Memory, now: Memory) {
    now.Keys == mem.Keys && forall p :: p in mem ==> now[p].id == mem[p].id && now[p].hashNext == mem[p].hashNext
  }

  lemma StoreKept(mem: Memory, now: Memory, ring: seq<Ptr>, next: seq<Ptr>, slots: seq<Ptr>, chains: seq<seq<Ptr>>, cap: nat)
    requires StoreOk(mem, ring, slots, chains, cap) && SamePlaces(mem, now)
    requires RingOk(now, next) && forall p :: p in ring ==> p in next
    ensures StoreOk(now, next, slots, chains, cap)
  {
    ChainsFrame(mem, now, slots, chains, cap);
  }

  function ToFront<T>(s: seq<T>, k: nat, x: T): (r: seq<T>)
    requires k < |s|
  {
    [x] + s[..k] + s[k + 1..]
  }

  method MoveToFront(mem: Memory, page: Ptr, ghost ring: seq<Ptr>, ghost k: nat) returns (now: Memory, ghost next: seq<Ptr>)
    requires RingOk(mem, ring) && 0 < k < |ring| && ring[k] == page
    ensures OnlyLinks(mem, now) && RingOk(now, next) && next == [HEAD, page] + Cut(ring, k)[1..]
  {
    var a := LruRemove(mem, page, ring, k);
    ghost var cut := Cut(ring, k);
    assert page !in cut;
    now := LruPushFront(a, page, cut);
    next := [HEAD, page] + cut[1..];
  }

  /** Lines 49-51 and 66-68: the page moves to the front and is referenced once more. */
  method Touch(mem: Memory, page: Ptr, ghost ring: seq<Ptr>, ghost k: nat, ghost slots: seq<Ptr>, ghost chains: seq<seq<Ptr>>, ghost cap: nat)
    returns (now: Memory, ghost next: seq<Ptr>)
    requires StoreOk(mem, ring, slots, chains, cap) && 0 < k < |ring| && ring[k] == page
    ensures StoreOk(now, next, slots, chains, cap) && |next| == |ring| && page in now && next[1] == page
    ensures Touched(mem, now, ring, k, next)
  {
    var b;
    b, next := MoveToFront(mem, page, ring, k);
    now := b[page := b[page].(refcount := b[page].refcount + 1)];
    TouchDoneStore(mem, b, now, page, ring, k, next, slots, chains, cap);
    TouchDonePages(mem, b, now, page, ring, k, next);
  }

  ghost predicate Touched(mem: Memory, now: Memory, ring: seq<Ptr>, k: nat, next: seq<Ptr>)
    requires 0 < k < |ring| == |next| && InMemory(mem, ring) && InMemory(now, next)
  {
    PagesOf(now, next) == ToFront(PagesOf(mem, ring), k - 1, PagesOf(mem, ring)[k - 1].(refcount := mem[ring[k]].refcount + 1))
  }

  lemma TouchDoneStore(mem: Memory, b: Memory, now: Memory, page: Ptr, ring: seq<Ptr>, k: nat, next: seq<Ptr>, slots: seq<Ptr>, chains: seq<seq<Ptr>>, cap: nat)
    requires StoreOk(mem, ring, slots, chains, cap) && 0 < k < |ring| && ring[k] == page
    requires OnlyLinks(mem, b) && RingOk(b, next) && next == [HEAD, page] + Cut(ring, k)[1..]
    requires page in b && now == b[page := b[page].(refcount := b[page].refcount + 1)]
    ensures StoreOk(now, next, slots, chains, cap) && |next| == |ring|
  {
    RingMembers(ring, k, next);
    TouchedStore(mem, b, now, page, ring, next, slots, chains, cap);
  }

  lemma TouchDonePages(mem: Memory, b: Memory, now: Memory, page: Ptr, ring: seq<Ptr>, k: nat, next: seq<Ptr>)
    requires 0 < k < |ring| && ring[k] == page && ring[0] == HEAD && NoDup(ring) && InMemory(mem, ring)
    requires OnlyLinks(mem, b) && next == [HEAD, page] + Cut(ring, k)[1..] && InMemory(b, next)
    requires page in b && now == b[page := b[page].(refcount := b[page].refcount + 1)]
    ensures |next| == |ring| && Touched(mem, now, ring, k, next)
  {
    RingMembers(ring, k, next);
    assert forall p :: p in mem && p != page ==> p in now && InfoOf(now[p]) == InfoOf(mem[p]);
    TouchedPages(mem, now, ring, k, next);
  }

  lemma TouchedStore(mem: Memory, b: Memory, now: Memory, page: Ptr, ring: seq<Ptr>, next: seq<Ptr>, slots: seq<Ptr>, chains: seq<seq<Ptr>>, cap: nat)
    requires StoreOk(mem, ring, slots, chains, cap) && OnlyLinks(mem, b) && RingOk(b, next) && page in b
    requires now == b[page := b[page].(refcount := b[page].refcount + 1)] && forall p :: p in ring ==> p in next
    ensures StoreOk(now, next, slots, chains, cap)
    ensures forall p :: p in mem && p != page ==> p in now && InfoOf(now[p]) == InfoOf(mem[p])
    ensures page in mem && InfoOf(now[page]) == InfoOf(mem[page]).(refcount := mem[page].refcount + 1)
  {
    RingFrame(b, now, next);
    StoreKept(mem, now, ring, next, slots, chains, cap);
  }

  lemma RingFrame(mem: Memory, now: Memory, ring: seq<Ptr>)
    requires RingOk(mem, ring) && now.Keys == mem.Keys
    requires forall p :: p in mem ==> now[p].lruNext == mem[p].lruNext && now[p].lruPrev == mem[p].lruPrev
    ensures RingOk(now, ring)
  {
    forall i: nat {:trigger LinkOk(now, ring, i)} | i < |ring| ensures LinkOk(now, ring, i) {
      assert LinkOk(mem, ring, i);
    }
  }

  lemma RingMembers(ring: seq<Ptr>, k: nat, next: seq<Ptr>)
    requires 0 < k < |ring| && ring[0] == HEAD && next == [HEAD, ring[k]] + Cut(ring, k)[1..]
    ensures |next| == |ring|
    ensures forall p :: p in ring ==> p in next
    ensures forall i {:trigger next[i]} :: 2 <= i < |next| ==> next[i] == if i <= k then ring[i - 1] else ring[i]
  {
    var cut := Cut(ring, k);
    assert forall i :: 1 <= i < |cut| ==> cut[i] == if i < k then ring[i] else ring[i + 1];
    forall p | p in ring ensures p in next {
      var i :| 0 <= i < |ring| && ring[i] == p;
      assert p == if i == 0 then next[0] else if i < k then next[i + 1] else if i == k then next[1] else next[i];
    }
  }

  lemma TouchedPages(mem: Memory, now: Memory, ring: seq<Ptr>, k: nat, next: seq<Ptr>)
    requires 0 < k < |ring| && InMemory(mem, ring) && |next| == |ring| && next[1] == ring[k] && InMemory(now, next)
    requires forall i {:trigger next[i]} :: 2 <= i < |next| ==> next[i] == if i <= k then ring[i - 1] else ring[i]
    requires NoDup(ring) && forall p :: p in mem && p != ring[k] ==> p in now && InfoOf(now[p]) == InfoOf(mem[p])
    requires ring[k] in now && InfoOf(now[ring[k]]) == InfoOf(mem[ring[k]]).(refcount := mem[ring[k]].refcount + 1)
    ensures Touched(mem, now, ring, k, next)
  {
    var a, b := PagesOf(mem, ring), PagesOf(now, next);
    var want := ToFront(a, k - 1, a[k - 1].(refcount := mem[ring[k]].refcount + 1));
    assert |b| == |want|;
    forall i | 0 <= i < |b| ensures b[i] == want[i] {
      assert b[i] == InfoOf(now[next[i + 1]]);
      if i == 0 {
        assert a[k - 1] == InfoOf(mem[ring[k]]);
      } else {
        OtherPage(mem, now, ring, k, if i < k then i else i + 1);
        FrontAt(a, k - 1, want[0], i);
        PlaceOf(ring, k, next, i);
      }
    }
  }

  lemma FrontAt<T>(s: seq<T>, k: nat, x: T, i: nat)
    requires k < |s| && i < |s|
    ensures |ToFront(s, k, x)| == |s| && ToFront(s, k, x)[i] == if i == 0 then x else if i <= k then s[i - 1] else s[i]
  {
  }

  lemma PlaceOf(ring: seq<Ptr>, k: nat, next: seq<Ptr>, i: nat)
    requires 0 < k < |ring| == |next| && 1 <= i < |next| - 1
    requires forall i {:trigger next[i]} :: 2 <= i < |next| ==> next[i] == if i <= k then ring[i - 1] else ring[i]
    ensures next[i + 1] == if i < k then ring[i] else ring[i + 1]
  {
    var j := i + 1;
    assert next[j] == if j <= k then ring[j - 1] else ring[j];
  }

  lemma OtherPage(mem: Memory, now: Memory, ring: seq<Ptr>, k: nat, i: nat)
    requires 0 < k < |ring| && i < |ring| && i != k && InMemory(mem, ring) && NoDup(ring)
    requires forall p :: p in mem && p != ring[k] ==> p in now && InfoOf(now[p]) == InfoOf(mem[p])
    ensures ring[i] in now && InfoOf(now[ring[i]]) == InfoOf(mem[ring[i]])
  {
    assert ring[i] != ring[k];
  }

  // ---- the victim ----------------------------------------------------------------------------------

  /** The least recently touched page that is referenced at most once, or -1. */
  function Victim(ps: seq<Info>): (v: int)
    ensures -1 <= v < |ps|
    ensures v >= 0 ==> ps[v].refcount <= 1
    ensures forall i :: v < i < |ps| ==> ps[i].refcount > 1
  {
    if ps == [] then -1
    else if ps[|ps| - 1].refcount <= 1 then |ps| - 1
    else Victim(ps[..|ps| - 1])
  }

  // ---- finding -------------------------------------------------------------------------------------

  /** The walk of lines 45-58 and 62-72. */
  method Find(mem: Memory, slots: seq<Ptr>, cap: nat, id: nat, ghost ring: seq<Ptr>, ghost chains: seq<seq<Ptr>>)
    returns (page: Ptr, ghost k: nat)
    requires StoreOk(mem, ring, slots, chains, cap)
    ensures page == NULL ==> forall p :: p in mem && p != HEAD ==> mem[p].id != id
    ensures page != NULL ==> 0 < k < |ring| && ring[k] == page && page in mem && page != HEAD && mem[page].id == id
  {
    var b := id % cap;
    ghost var ch, i := chains[b], 0;
    assert ChainOk(mem, slots[b], ch, b, cap);
    page, k := slots[b], 0;
    while page != NULL
      invariant 0 <= i <= |ch| && page == At(ch, i)
      invariant forall j :: 0 <= j < i ==> ch[j] in mem && mem[ch[j]].id != id
      decreases |ch| - i
    {
      assert ChainLink(mem, ch, i, b, cap);
      if mem[page].id == id {
        assert page in ring;
        k :| 0 <= k < |ring| && ring[k] == page;
        return;
      }
      page := mem[page].hashNext;
      i := i + 1;
    }
    NotFound(mem, ring, slots, chains, cap, id, i);
  }

  lemma ChainEnd(mem: Memory, start: Ptr, ch: seq<Ptr>, b: nat, cap: nat, i: nat)
    requires cap > 0 && ChainOk(mem, start, ch, b, cap) && i <= |ch| && At(ch, i) == NULL
    ensures i == |ch|
  {
    forall j: nat | j < |ch| ensures ch[j] != NULL { assert ChainLink(mem, ch, j, b, cap); }
  }

  lemma NotFound(mem: Memory, ring: seq<Ptr>, slots: seq<Ptr>, chains: seq<seq<Ptr>>, cap: nat, id: nat, i: nat)
    requires StoreOk(mem, ring, slots, chains, cap) && At(chains[id % cap], i) == NULL && i <= |chains[id % cap]|
    requires forall j :: 0 <= j < i ==> chains[id % cap][j] in mem && mem[chains[id % cap][j]].id != id
    ensures forall p :: p in mem && p != HEAD ==> mem[p].id != id
  {
    var b := id % cap;
    assert ChainOk(mem, slots[b], chains[b], b, cap);
    ChainEnd(mem, slots[b], chains[b], b, cap, i);
    forall p | p in mem && p != HEAD ensures mem[p].id != id {
      if mem[p].id % cap == b {
        var j :| 0 <= j < |chains[b]| && chains[b][j] == p;
        assert j < i;
      }
    }
  }

  // ---- eviction ------------------------------------------------------------------------------------

  /** Lines 75-78: from the back of the list past the pages referenced more than once. */
  method FindVictim(mem: Memory, ghost ring: seq<Ptr>) returns (evict: Ptr, ghost k: nat)
    requires RingOk(mem, ring)
    ensures k < |ring| && ring[k] == evict && k == Victim(PagesOf(mem, ring)) + 1
  {
    ghost var ps, n := PagesOf(mem, ring), |ring|;
    assert LinkOk(mem, ring, n - 1);
    evict, k := mem[HEAD].lruPrev, n - 1;
    while evict != HEAD && mem[evict].refcount > 1
      invariant k < n && evict == ring[k]
      invariant forall i :: k <= i < n - 1 ==> ps[i].refcount > 1
      decreases k
    {
      assert k > 0;
      assert LinkOk(mem, ring, k - 1);
      assert ps[k - 1] == InfoOf(mem[ring[k]]);
      evict := mem[evict].lruPrev;
      k := k - 1;
    }
    if k > 0 { assert ps[k - 1] == InfoOf(mem[ring[k]]); }
    VictimUnique(ps, k - 1);
  }

  lemma {:induction false} VictimUnique(ps: seq<Info>, v: int)
    requires -1 <= v < |ps| && (v >= 0 ==> ps[v].refcount <= 1) && forall i :: v < i < |ps| ==> ps[i].refcount > 1
    ensures v == Victim(ps)
  {
  }

  /** Lines 84-92: takes the page out of its hash chain. */
  method Unhash(mem: Memory, slots: seq<Ptr>, cap: nat, evict: Ptr, ghost chains: seq<seq<Ptr>>, ghost k: nat)
    returns (now: Memory, heads: seq<Ptr>)
    requires ChainsOk(mem, slots, chains, cap) && evict in mem
    requires k < |chains[mem[evict].id % cap]| && chains[mem[evict].id % cap][k] == evict
    ensures ChainsOk(now, heads, chains[mem[evict].id % cap := Cut(chains[mem[evict].id % cap], k)], cap)
    ensures now.Keys == mem.Keys && forall p :: p in mem ==> now[p] == mem[p].(hashNext := now[p].hashNext)
  {
    var b := mem[evict].id % cap;
    ghost var ch, i := chains[b], 0;
    assert ChainOk(mem, slots[b], ch, b, cap);
    now, heads := mem, slots;
    if slots[b] == evict {
      assert ChainLink(mem, ch, 0, b, cap);
      heads := slots[b := mem[evict].hashNext];
      UnhashOk(mem, now, slots, heads, chains, cap, b, k);
      return;
    }
    assert ChainLink(mem, ch, 0, b, cap);
    var prev := slots[b];
    while mem[prev].hashNext != evict
      invariant 0 <= i < k && prev == ch[i] && prev in mem
      decreases k - i
    {
      assert ChainLink(mem, ch, i, b, cap) && ChainLink(mem, ch, i + 1, b, cap);
      prev := mem[prev].hashNext;
      i := i + 1;
    }
    assert ChainLink(mem, ch, i, b, cap);
    now := mem[prev := mem[prev].(hashNext := mem[evict].hashNext)];
    UnhashOk(mem, now, slots, heads, chains, cap, b, k);
  }

  lemma UnhashOk(mem: Memory, now: Memory, slots: seq<Ptr>, heads: seq<Ptr>, chains: seq<seq<Ptr>>, cap: nat, b: nat, k: nat)
    requires ChainsOk(mem, slots, chains, cap) && b < cap && k < |chains[b]| && chains[b][k] in mem
    requires k == 0 ==> now == mem && heads == slots[b := mem[chains[b][0]].hashNext]
    requires k > 0 ==> chains[b][k - 1] in mem && heads == slots &&
                       now == mem[chains[b][k - 1] := mem[chains[b][k - 1]].(hashNext := mem[chains[b][k]].hashNext)]
    ensures ChainsOk(now, heads, chains[b := Cut(chains[b], k)], cap)
  {
    var next := chains[b := Cut(chains[b], k)];
    forall c: nat {:trigger ChainOk(now, heads[c], next[c], c, cap)} | c < cap ensures ChainOk(now, heads[c], next[c], c, cap) {
      assert ChainOk(mem, slots[c], chains[c], c, cap);
      if c == b {
        ChainCut(mem, now, slots[b], chains[b], b, cap, k, heads[b]);
      } else {
        OtherChain(mem, now, slots, chains, cap, b, k, c);
      }
    }
  }

  lemma OtherChain(mem: Memory, now: Memory, slots: seq<Ptr>, chains: seq<seq<Ptr>>, cap: nat, b: nat, k: nat, c: nat)
    requires ChainsOk(mem, slots, chains, cap) && b < cap && c < cap && c != b && k < |chains[b]|
    requires forall p :: p in mem && (k == 0 || p != chains[b][k - 1]) ==> p in now && now[p] == mem[p]
    ensures ChainOk(now, slots[c], chains[c], c, cap)
  {
    var ch := chains[c];
    assert ChainOk(mem, slots[c], ch, c, cap) && ChainOk(mem, slots[b], chains[b], b, cap);
    forall i: nat {:trigger ChainLink(now, ch, i, c, cap)} | i < |ch| ensures ChainLink(now, ch, i, c, cap) {
      assert ChainLink(mem, ch, i, c, cap);
      if k > 0 { assert ChainLink(mem, chains[b], k - 1, b, cap); }
    }
  }

  lemma CutMembers(s: seq<Ptr>, k: nat, p: Ptr)
    requires k < |s| && NoDup(s)
    ensures p in Cut(s, k) <==> p in s && p != s[k]
  {
    var c := Cut(s, k);
    assert forall i :: 0 <= i < |c| ==> c[i] == if i < k then s[i] else s[i + 1];
    if p in s && p != s[k] {
      var i :| 0 <= i < |s| && s[i] == p;
      assert p == if i < k then c[i] else c[i - 1];
    }
  }

  lemma DropRing(mem: Memory, ring: seq<Ptr>, p: Ptr)
    requires RingOk(mem, ring) && p !in ring
    ensures RingOk(mem - {p}, ring)
  {
    var now := mem - {p};
    assert forall i :: 0 <= i < |ring| ==> ring[i] in ring;
    forall i: nat {:trigger LinkOk(now, ring, i)} | i < |ring| ensures LinkOk(now, ring, i) {
      assert LinkOk(mem, ring, i);
    }
  }

  lemma DropChains(mem: Memory, slots: seq<Ptr>, chains: seq<seq<Ptr>>, cap: nat, p: Ptr)
    requires ChainsOk(mem, slots, chains, cap) && forall b :: 0 <= b < cap ==> p !in chains[b]
    ensures ChainsOk(mem - {p}, slots, chains, cap)
  {
    var now := mem - {p};
    forall b: nat {:trigger ChainOk(now, slots[b], chains[b], b, cap)} | b < cap ensures ChainOk(now, slots[b], chains[b], b, cap) {
      var ch := chains[b];
      assert ChainOk(mem, slots[b], ch, b, cap);
      forall i: nat {:trigger ChainLink(now, ch, i, b, cap)} | i < |ch| ensures ChainLink(now, ch, i, b, cap) {
        assert ChainLink(mem, ch, i, b, cap);
        assert ch[i] in ch;
      }
    }
  }

  /** A page is only in the chain of its id, once. */
  lemma OnlyInItsChain(mem: Memory, slots: seq<Ptr>, chains: seq<seq<Ptr>>, rest: seq<seq<Ptr>>, cap: nat, p: Ptr, j: nat)
    requires ChainsOk(mem, slots, chains, cap) && p in mem
    requires j < |chains[mem[p].id % cap]| && chains[mem[p].id % cap][j] == p
    requires rest == chains[mem[p].id % cap := Cut(chains[mem[p].id % cap], j)]
    ensures NoDup(chains[mem[p].id % cap]) && forall b :: 0 <= b < cap ==> p !in rest[b]
  {
    var h := mem[p].id % cap;
    assert ChainOk(mem, slots[h], chains[h], h, cap);
    forall b | 0 <= b < cap ensures p !in rest[b] {
      if b == h {
        CutMembers(chains[h], j, p);
      } else {
        assert ChainOk(mem, slots[b], chains[b], b, cap);
        forall i: nat | i < |chains[b]| ensures chains[b][i] != p {
          assert ChainLink(mem, chains[b], i, b, cap);
        }
      }
    }
  }

  lemma DropIndex(mem: Memory, now: Memory, ring: seq<Ptr>, k: nat, chains: seq<seq<Ptr>>, cap: nat, j: nat)
    requires IndexOk(mem, ring, chains, cap) && NoDup(ring) && k < |ring| && ring[k] in mem && ring[k] != HEAD
    requires j < |chains[mem[ring[k]].id % cap]| && chains[mem[ring[k]].id % cap][j] == ring[k] && NoDup(chains[mem[ring[k]].id % cap])
    requires now.Keys == mem.Keys - {ring[k]} && forall p :: p in now ==> now[p].id == mem[p].id
    ensures IndexOk(now, Cut(ring, k), chains[mem[ring[k]].id % cap := Cut(chains[mem[ring[k]].id % cap], j)], cap)
  {
    var h := mem[ring[k]].id % cap;
    forall p | p in now ensures p in Cut(ring, k) { CutMembers(ring, k, p); }
    var next := chains[h := Cut(chains[h], j)];
    forall p | p in now && p != HEAD ensures p in next[now[p].id % cap] { CutMembers(chains[h], j, p); }
  }

  /** Lines 82-93: the page leaves both structures and is freed. */
  method DropPage(mem: Memory, slots: seq<Ptr>, cap: nat, evict: Ptr, ghost ring: seq<Ptr>, ghost k: nat, ghost chains: seq<seq<Ptr>>)
    returns (now: Memory, heads: seq<Ptr>, ghost rest: seq<seq<Ptr>>)
    requires StoreOk(mem, ring, slots, chains, cap) && 0 < k < |ring| && ring[k] == evict
    ensures StoreOk(now, Cut(ring, k), heads, rest, cap) && forall p :: p in now ==> p in mem && now[p].id == mem[p].id
    ensures PagesOf(now, Cut(ring, k)) == Cut(PagesOf(mem, ring), k - 1)
  {
    ghost var h := mem[evict].id % cap;
    ghost var j :| 0 <= j < |chains[h]| && chains[h][j] == evict;
    var a := LruRemove(mem, evict, ring, k);
    ChainsFrame(mem, a, slots, chains, cap);
    var b;
    b, heads := Unhash(a, slots, cap, evict, chains, j);
    now := b - {evict};
    rest := chains[h := Cut(chains[h], j)];
    OnlyInItsChain(a, slots, chains, rest, cap, evict, j);
    DropChains(b, heads, rest, cap, evict);
    CutMembers(ring, k, evict);
    RingFrame(a, b, Cut(ring, k));
    DropRing(b, Cut(ring, k), evict);
    DropIndex(mem, now, ring, k, chains, cap, j);
    DropPages(mem, now, ring, k);
  }

  lemma DropPages(mem: Memory, now: Memory, ring: seq<Ptr>, k: nat)
    requires 0 < k < |ring| && InMemory(mem, ring) && InMemory(now, Cut(ring, k))
    requires forall p :: p in now ==> p in mem && InfoOf(now[p]) == InfoOf(mem[p])
    ensures PagesOf(now, Cut(ring, k)) == Cut(PagesOf(mem, ring), k - 1)
  {
    var c, a := Cut(ring, k), PagesOf(mem, ring);
    var x, y := PagesOf(now, c), Cut(a, k - 1);
    assert |x| == |y|;
    forall i | 0 <= i < |x| ensures x[i] == y[i] {
      assert c[i + 1] == if i + 1 < k then ring[i + 1] else ring[i + 2];
      assert y[i] == if i < k - 1 then a[i] else a[i + 1];
    }
  }

  /** Lines 75-94: frees the victim, if there is one. */
  method MakeRoom(mem: Memory, slots: seq<Ptr>, cap: nat, ghost id: nat, ghost ring: seq<Ptr>, ghost chains: seq<seq<Ptr>>)
    returns (ok: bool, now: Memory, heads: seq<Ptr>, ghost next: seq<Ptr>, ghost rest: seq<seq<Ptr>>)
    requires StoreOk(mem, ring, slots, chains, cap) && forall p :: p in mem && p != HEAD ==> mem[p].id != id
    ensures ok <==> Victim(PagesOf(mem, ring)) >= 0
    ensures ok ==> StoreOk(now, next, heads, rest, cap) && |next| == |ring| - 1
    ensures ok ==> PagesOf(now, next) == Cut(PagesOf(mem, ring), Victim(PagesOf(mem, ring)))
    ensures ok ==> forall p :: p in now && p != HEAD ==> now[p].id != id
  {
    var evict; ghost var k;
    evict, k := FindVictim(mem, ring);
    assert ring[0] == HEAD;
    now, heads, next, rest := mem, slots, ring, chains;
    ok := evict != HEAD;
    if ok {
      now, heads, rest := DropPage(mem, slots, cap, evict, ring, k, chains);
      next := Cut(ring, k);
    }
  }

  // ---- a new page ----------------------------------------------------------------------------------

  function Zeros(): (b: Bytes) {
    seq<Byte>(PAGE_SIZE, _ => 0)
  }

  lemma PushChains(mem: Memory, now: Memory, slots: seq<Ptr>, chains: seq<seq<Ptr>>, cap: nat, b: nat, p: Ptr, x: Page)
    requires ChainsOk(mem, slots, chains, cap) && b < cap && p !in mem && p != NULL && p != HEAD
    requires now == mem[p := x] && x.hashNext == slots[b] && x.id % cap == b
    ensures ChainsOk(now, slots[b := p], chains[b := [p] + chains[b]], cap)
  {
    var heads, next := slots[b := p], chains[b := [p] + chains[b]];
    forall c: nat {:trigger ChainOk(now, heads[c], next[c], c, cap)} | c < cap ensures ChainOk(now, heads[c], next[c], c, cap) {
      assert ChainOk(mem, slots[c], chains[c], c, cap);
      if c == b {
        ChainPush(mem, now, slots[b], chains[b], b, cap, p, x);
      } else {
        var ch := chains[c];
        forall i: nat {:trigger ChainLink(now, ch, i, c, cap)} | i < |ch| ensures ChainLink(now, ch, i, c, cap) {
          assert ChainLink(mem, ch, i, c, cap);
        }
      }
    }
  }

  lemma PushRing(mem: Memory, now: Memory, ring: seq<Ptr>, p: Ptr, x: Page)
    requires RingOk(mem, ring) && p !in mem && now == mem[p := x]
    ensures RingOk(now, ring)
  {
    forall i: nat {:trigger LinkOk(now, ring, i)} | i < |ring| ensures LinkOk(now, ring, i) {
      assert LinkOk(mem, ring, i);
    }
  }

  /** Lines 97-113 */
  method AddPage(mem: Memory, slots: seq<Ptr>, cap: nat, id: nat, p: Ptr, ghost ring: seq<Ptr>, ghost chains: seq<seq<Ptr>>)
    returns (now: Memory, heads: seq<Ptr>, ghost more: seq<seq<Ptr>>)
    requires StoreOk(mem, ring, slots, chains, cap) && p !in mem && p != NULL && p != HEAD
    requires forall q :: q in mem && q != HEAD ==> mem[q].id != id
    ensures StoreOk(now, [HEAD, p] + ring[1..], heads, more, cap) && p in now
    ensures PagesOf(now, [HEAD, p] + ring[1..]) == [Info(id, 1, false, Zeros())] + PagesOf(mem, ring)
  {
    var b := id % cap;
    var x := Page(id, 1, false, Zeros(), slots[b], NULL, NULL);
    var a := mem[p := x];
    heads := slots[b := p];
    more := chains[b := [p] + chains[b]];
    PushChains(mem, a, slots, chains, cap, b, p, x);
    PushRing(mem, a, ring, p, x);
    assert forall i :: 0 <= i < |ring| ==> ring[i] in mem;
    now := LruPushFront(a, p, ring);
    ChainsFrame(a, now, heads, more, cap);
    AddedIndex(mem, now, ring, chains, cap, p, id);
    AddedPages(mem, now, ring, p);
  }

  lemma AddedIndex(mem: Memory, now: Memory, ring: seq<Ptr>, chains: seq<seq<Ptr>>, cap: nat, p: Ptr, id: nat)
    requires IndexOk(mem, ring, chains, cap) && p !in mem && p != NULL && p != HEAD && |ring| > 0 && ring[0] == HEAD
    requires forall q :: q in mem && q != HEAD ==> mem[q].id != id
    requires now.Keys == mem.Keys + {p} && now[p].id == id && forall q :: q in mem ==> now[q].id == mem[q].id
    ensures IndexOk(now, [HEAD, p] + ring[1..], chains[id % cap := [p] + chains[id % cap]], cap)
  {
    var next, b := [HEAD, p] + ring[1..], id % cap;
    var more := chains[b := [p] + chains[b]];
    forall q | q in now ensures q in next {
      if q != p {
        var i :| 0 <= i < |ring| && ring[i] == q;
        assert q == if i == 0 then next[0] else next[i + 1];
      } else {
        assert next[1] == p;
      }
    }
    forall q | q in now && q != HEAD ensures q in more[now[q].id % cap] {
      if q == p { assert more[b][0] == p; }
    }
  }

  lemma AddedPages(mem: Memory, now: Memory, ring: seq<Ptr>, p: Ptr)
    requires |ring| > 0 && InMemory(mem, ring) && p in now && InMemory(now, [HEAD, p] + ring[1..])
    requires forall q :: q in mem ==> q in now && InfoOf(now[q]) == InfoOf(mem[q])
    ensures PagesOf(now, [HEAD, p] + ring[1..]) == [InfoOf(now[p])] + PagesOf(mem, ring)
  {
    var next := [HEAD, p] + ring[1..];
    var x, y := PagesOf(now, next), [InfoOf(now[p])] + PagesOf(mem, ring);
    assert |x| == |y|;
    forall i | 0 <= i < |x| ensures x[i] == y[i] {
      assert i > 0 ==> next[i + 1] == ring[i];
    }
  }

  // ---- flush ---------------------------------------------------------------------------------------

  /** After the pages in `done` were visited: each dirty one was written once, and is clean now. */
  ghost predicate Flushed(mem: Memory, now: Memory, done: set<Ptr>, written: seq<(nat, Bytes)>) {
    done <= mem.Keys && now.Keys == mem.Keys &&
    (forall p :: p in mem ==> now[p] == if p in done then mem[p].(dirty := false) else mem[p]) &&
    (forall x :: x in written ==> exists p :: p in done && mem[p].dirty && x == (mem[p].id, mem[p].data)) &&
    (forall p :: p in done && mem[p].dirty ==> (mem[p].id, mem[p].data) in written) &&
    (forall i, j :: 0 <= i < j < |written| ==> written[i].0 != written[j].0)
  }

  lemma FlushStep(mem: Memory, now: Memory, done: set<Ptr>, written: seq<(nat, Bytes)>, p: Ptr)
    requires Flushed(mem, now, done, written) && p in mem && p !in done && mem[p].dirty
    requires forall q :: q in done ==> mem[q].id != mem[p].id
    ensures Flushed(mem, now[p := now[p].(dirty := false)], done + {p}, written + [(mem[p].id, mem[p].data)])
  {
    var w := written + [(mem[p].id, mem[p].data)];
    forall x | x in w ensures exists q :: q in done + {p} && mem[q].dirty && x == (mem[q].id, mem[q].data) {
      if x in written {
        var q :| q in done && mem[q].dirty && x == (mem[q].id, mem[q].data);
        assert q in done + {p};
      } else {
        assert p in done + {p};
      }
    }
    forall i | 0 <= i < |written| ensures written[i].0 != mem[p].id { assert written[i] in written; }
  }

  ghost predicate Seen(chains: seq<seq<Ptr>>, done: set<Ptr>, c: nat, j: nat)
    requires c < |chains| && j < |chains[c]|
  {
    chains[c][j] in done
  }

  ghost predicate SeenInTurn(mem: Memory, chains: seq<seq<Ptr>>, cap: nat, b: nat, i: nat, p: Ptr)
    requires cap > 0
  {
    p in mem && p != HEAD && mem[p].id % cap <= b &&
    (mem[p].id % cap == b ==> b < |chains| && i <= |chains[b]| && p in chains[b][..i])
  }

  /** The visited pages: all of the chains before b, and the first i of chain b. */
  ghost predicate Visited(mem: Memory, chains: seq<seq<Ptr>>, cap: nat, done: set<Ptr>, b: nat, i: nat) {
    cap > 0 && |chains| == cap && b <= cap &&
    (forall c: nat, j: nat {:trigger Seen(chains, done, c, j)} ::
      c < cap && j < |chains[c]| && (c < b || (c == b && j < i)) ==> Seen(chains, done, c, j)) &&
    (forall p {:trigger SeenInTurn(mem, chains, cap, b, i, p)} :: p in done ==> SeenInTurn(mem, chains, cap, b, i, p))
  }

  /** The next page of the chain was not visited yet. */
  lemma NotVisited(mem: Memory, ring: seq<Ptr>, slots: seq<Ptr>, chains: seq<seq<Ptr>>, cap: nat, done: set<Ptr>, b: nat, i: nat)
    requires StoreOk(mem, ring, slots, chains, cap) && Visited(mem, chains, cap, done, b, i) && b < cap && i < |chains[b]|
    ensures chains[b][i] in mem && chains[b][i] != HEAD && chains[b][i] !in done
    ensures forall q :: q in done ==> q in mem && mem[q].id != mem[chains[b][i]].id
    ensures Visited(mem, chains, cap, done + {chains[b][i]}, b, i + 1)
  {
    var p := chains[b][i];
    assert ChainOk(mem, slots[b], chains[b], b, cap);
    assert ChainLink(mem, chains[b], i, b, cap);
    assert chains[b][..i + 1] == chains[b][..i] + [p];
    assert p !in chains[b][..i];
    var more := done + {p};
    assert p in done ==> SeenInTurn(mem, chains, cap, b, i, p);
    forall q | q in done ensures q in mem && mem[q].id != mem[p].id { assert SeenInTurn(mem, chains, cap, b, i, q); }
    forall c: nat, j: nat {:trigger Seen(chains, more, c, j)} | c < cap && j < |chains[c]| && (c < b || (c == b && j < i + 1))
      ensures Seen(chains, more, c, j)
    {
      assert (c == b && j == i) || Seen(chains, done, c, j);
    }
    forall q {:trigger SeenInTurn(mem, chains, cap, b, i + 1, q)} | q in more ensures SeenInTurn(mem, chains, cap, b, i + 1, q) {
      assert q == p || SeenInTurn(mem, chains, cap, b, i, q);
    }
  }

  /** page_cache_flush */
  method FlushAll(mem: Memory, slots: seq<Ptr>, cap: nat, ghost ring: seq<Ptr>, ghost chains: seq<seq<Ptr>>)
    returns (now: Memory, written: seq<(nat, Bytes)>)
    requires StoreOk(mem, ring, slots, chains, cap)
    ensures Flushed(mem, now, mem.Keys - {HEAD}, written)
  {
    now, written := mem, [];
    ghost var done: set<Ptr> := {};
    for b := 0 to cap
      invariant Flushed(mem, now, done, written) && Visited(mem, chains, cap, done, b, 0)
    {
      now, written, done := FlushChain(mem, now, slots, cap, b, written, ring, chains, done);
    }
    AllVisited(mem, ring, slots, chains, cap, done);
  }

  /** Lines 130-137 */
  method FlushChain(ghost mem: Memory, mem0: Memory, slots: seq<Ptr>, cap: nat, b: nat, written0: seq<(nat, Bytes)>,
                    ghost ring: seq<Ptr>, ghost chains: seq<seq<Ptr>>, ghost done0: set<Ptr>)
    returns (now: Memory, written: seq<(nat, Bytes)>, ghost done: set<Ptr>)
    requires StoreOk(mem, ring, slots, chains, cap) && b < cap
    requires Flushed(mem, mem0, done0, written0) && Visited(mem, chains, cap, done0, b, 0)
    ensures Flushed(mem, now, done, written) && Visited(mem, chains, cap, done, b + 1, 0)
  {
    now, written, done := mem0, written0, done0;
    ghost var i, n := 0, |chains[b]|;
    ChainEnds(mem, slots, chains, cap, b);
    var page := slots[b];
    while page != NULL
      invariant i <= n && page == At(chains[b], i)
      invariant Flushed(mem, now, done, written)
      invariant Visited(mem, chains, cap, done, b, i)
      decreases n - i
    {
      now, written, done, page := FlushNext(mem, now, page, cap, b, written, ring, slots, chains, done, i);
      i := i + 1;
    }
    assert i == n;
    NextChain(mem, chains, cap, done, b);
  }

  lemma ChainEnds(mem: Memory, slots: seq<Ptr>, chains: seq<seq<Ptr>>, cap: nat, b: nat)
    requires ChainsOk(mem, slots, chains, cap) && b < cap
    ensures slots[b] == At(chains[b], 0) && forall i: nat :: i < |chains[b]| ==> chains[b][i] != NULL
  {
    assert ChainOk(mem, slots[b], chains[b], b, cap);
    forall i: nat | i < |chains[b]| ensures chains[b][i] != NULL { assert ChainLink(mem, chains[b], i, b, cap); }
  }

  method FlushNext(ghost mem: Memory, mem0: Memory, page: Ptr, cap: nat, b: nat, written0: seq<(nat, Bytes)>,
                   ghost ring: seq<Ptr>, ghost slots: seq<Ptr>, ghost chains: seq<seq<Ptr>>, ghost done0: set<Ptr>, ghost i: nat)
    returns (now: Memory, written: seq<(nat, Bytes)>, ghost done: set<Ptr>, next: Ptr)
    requires StoreOk(mem, ring, slots, chains, cap) && b < cap && i < |chains[b]| && page == chains[b][i]
    requires Flushed(mem, mem0, done0, written0) && Visited(mem, chains, cap, done0, b, i)
    ensures Flushed(mem, now, done, written) && Visited(mem, chains, cap, done, b, i + 1)
    ensures next == At(chains[b], i + 1)
  {
    NotVisited(mem, ring, slots, chains, cap, done0, b, i);
    now, written := FlushPage(mem, mem0, page, written0, done0);
    done := done0 + {page};
    ChainNext(mem, slots, chains, cap, b, i);
    next := now[page].hashNext;
  }

  lemma ChainNext(mem: Memory, slots: seq<Ptr>, chains: seq<seq<Ptr>>, cap: nat, b: nat, i: nat)
    requires ChainsOk(mem, slots, chains, cap) && b < cap && i < |chains[b]|
    ensures chains[b][i] in mem && mem[chains[b][i]].hashNext == At(chains[b], i + 1)
  {
    assert ChainOk(mem, slots[b], chains[b], b, cap);
    assert ChainLink(mem, chains[b], i, b, cap);
  }

  method FlushPage(ghost mem: Memory, mem0: Memory, page: Ptr, written0: seq<(nat, Bytes)>, ghost done: set<Ptr>)
    returns (now: Memory, written: seq<(nat, Bytes)>)
    requires Flushed(mem, mem0, done, written0) && page in mem && page !in done
    requires forall q :: q in done ==> mem[q].id != mem[page].id
    ensures Flushed(mem, now, done + {page}, written)
  {
    now, written := mem0, written0;
    if now[page].dirty {
      FlushStep(mem, now, done, written, page);
      written := written + [(now[page].id, now[page].data)];
      now := now[page := now[page].(dirty := false)];
    } else {
      FlushClean(mem, now, done, written, page);
    }
  }

  lemma FlushClean(mem: Memory, now: Memory, done: set<Ptr>, written: seq<(nat, Bytes)>, p: Ptr)
    requires Flushed(mem, now, done, written) && p in mem && p !in done && !mem[p].dirty
    ensures Flushed(mem, now, done + {p}, written)
  {
    forall x | x in written ensures exists q :: q in done + {p} && mem[q].dirty && x == (mem[q].id, mem[q].data) {
      var q :| q in done && mem[q].dirty && x == (mem[q].id, mem[q].data);
      assert q in done + {p};
    }
  }

  lemma NextChain(mem: Memory, chains: seq<seq<Ptr>>, cap: nat, done: set<Ptr>, b: nat)
    requires b < cap && |chains| == cap && Visited(mem, chains, cap, done, b, |chains[b]|)
    ensures Visited(mem, chains, cap, done, b + 1, 0)
  {
    forall c: nat, j: nat {:trigger Seen(chains, done, c, j)} | c < b + 1 && j < |chains[c]| ensures Seen(chains, done, c, j) {}
    forall p {:trigger SeenInTurn(mem, chains, cap, b + 1, 0, p)} | p in done ensures SeenInTurn(mem, chains, cap, b + 1, 0, p) {
      assert SeenInTurn(mem, chains, cap, b, |chains[b]|, p);
    }
  }

  lemma AllVisited(mem: Memory, ring: seq<Ptr>, slots: seq<Ptr>, chains: seq<seq<Ptr>>, cap: nat, done: set<Ptr>)
    requires StoreOk(mem, ring, slots, chains, cap) && Visited(mem, chains, cap, done, cap, 0)
    ensures done == mem.Keys - {HEAD}
  {
    forall p | p in mem && p != HEAD ensures p in done {
      var h := mem[p].id % cap;
      var j :| 0 <= j < |chains[h]| && chains[h][j] == p;
      assert Seen(chains, done, h, j);
    }
    forall p | p in done ensures p in mem && p != HEAD { assert SeenInTurn(mem, chains, cap, cap, 0, p); }
  }

  lemma PagesByAddress(mem: Memory, ring: seq<Ptr>, p: Ptr)
    requires RingOk(mem, ring) && p in ring && p != HEAD
    ensures InfoOf(mem[p]) in PagesOf(mem, ring)
  {
    var i :| 0 <= i < |ring| && ring[i] == p;
    assert PagesOf(mem, ring)[i - 1] == InfoOf(mem[p]);
  }

  lemma NoSuchPage(mem: Memory, ring: seq<Ptr>, id: nat)
    requires RingOk(mem, ring) && forall p :: p in mem && p != HEAD ==> mem[p].id != id
    ensures forall x :: x in PagesOf(mem, ring) ==> x.id != id
  {
    forall i | 0 <= i < |ring| - 1 ensures PagesOf(mem, ring)[i].id != id {
      assert ring[i + 1] != ring[0];
    }
  }

  lemma DistinctIds(mem: Memory, ring: seq<Ptr>, chains: seq<seq<Ptr>>, cap: nat)
    requires RingOk(mem, ring) && IndexOk(mem, ring, chains, cap)
    ensures DistinctPages(PagesOf(mem, ring))
  {
    forall i, j | 0 <= i < j < |ring| - 1 ensures PagesOf(mem, ring)[i].id != PagesOf(mem, ring)[j].id {
      assert ring[i + 1] != ring[j + 1] && ring[i + 1] != ring[0] && ring[j + 1] != ring[0];
    }
  }

  /** What an allocation that had to add a page leaves: a fresh page in front, and one page fewer if it was full. */
  function Allocated(ps: seq<Info>, cap: nat, id: nat): (r: seq<Info>) {
    var rest := if |ps| < cap then ps else if Victim(ps) < 0 then ps else Cut(ps, Victim(ps));
    [Info(id, 1, false, Zeros())] + rest
  }

  ghost predicate DistinctPages(ps: seq<Info>) {
    forall i, j :: 0 <= i < j < |ps| ==> ps[i].id != ps[j].id
  }

  ghost predicate Resident(ps: seq<Info>, id: nat) {
    exists x :: x in ps && x.id == id
  }

  /** What page_cache_alloc makes of the resident pages. */
  ghost predicate AllocGives(ps: seq<Info>, cap: nat, id: nat, rs: seq<Info>) {
    if Resident(ps, id) then
      exists k :: 0 <= k < |ps| && ps[k].id == id && rs == ToFront(ps, k, ps[k].(refcount := ps[k].refcount + 1))
    else if |ps| >= cap && Victim(ps) < 0 then rs == ps
    else rs == Allocated(ps, cap, id) && FreshPage(rs[0], id)
  }

  /** A page as it is handed out first: one reference, clean, 4096 zero bytes. */
  ghost predicate FreshPage(x: Info, id: nat) {
    x.id == id && x.refcount == 1 && !x.dirty && |x.data| == 4096 && forall i :: 0 <= i < |x.data| ==> x.data[i] == 0
  }

  lemma AllocIs(ps: seq<Info>, cap: nat, id: nat, rs: seq<Info>, k: nat, null_: bool)
    requires k <= |ps| && (k < |ps| ==> !null_ && ps[k].id == id && rs == ToFront(ps, k, ps[k].(refcount := ps[k].refcount + 1)))
    requires k == |ps| ==> (forall x :: x in ps ==> x.id != id) && (null_ <==> |ps| >= cap && Victim(ps) < 0)
    requires k == |ps| ==> rs == if null_ then ps else Allocated(ps, cap, id)
    ensures AllocGives(ps, cap, id, rs) && (null_ <==> !Resident(ps, id) && |ps| >= cap && Victim(ps) < 0)
  {
    if k < |ps| { assert ps[k] in ps; } else if !null_ { AllocatedFresh(ps, cap, id); }
  }

  lemma AllocatedFresh(ps: seq<Info>, cap: nat, id: nat)
    ensures Allocated(ps, cap, id) != [] && FreshPage(Allocated(ps, cap, id)[0], id)
  {
  }

  /** The allocation evicts a page: the id is not resident, the cache is full, and some page is referenced at most once. */
  ghost predicate Evicts(ps: seq<Info>, cap: nat, id: nat) {
    !Resident(ps, id) && |ps| >= cap && Victim(ps) >= 0
  }

  lemma CutItems<T>(s: seq<T>, k: nat, x: T)
    requires k < |s| && forall i, j :: 0 <= i < j < |s| ==> s[i] != s[j]
    ensures x in Cut(s, k) <==> x in s && x != s[k]
  {
    if x in s && x != s[k] {
      var i :| 0 <= i < |s| && s[i] == x;
      assert i < k ==> Cut(s, k)[i] == x;
      assert i > k ==> Cut(s, k)[i - 1] == x;
    }
  }

  /** Apart from the page evicted, every other page stays as it was, and the page of the id stays resident. */
  lemma AllocKeeps(ps: seq<Info>, cap: nat, id: nat, rs: seq<Info>, x: Info)
    requires DistinctPages(ps) && AllocGives(ps, cap, id, rs) && x in ps
    ensures Resident(rs, x.id) <==> !(Evicts(ps, cap, id) && x == ps[Victim(ps)])
    ensures Resident(rs, x.id) && x.id != id ==> x in rs
  {
    if Resident(ps, id) {
      var k :| 0 <= k < |ps| && ps[k].id == id && rs == ToFront(ps, k, ps[k].(refcount := ps[k].refcount + 1));
      HitKeeps(ps, id, rs, x, k);
    } else if |ps| >= cap && Victim(ps) >= 0 {
      EvictKeeps(ps, id, rs, x, Victim(ps));
    } else {
      assert x in rs;
    }
  }

  lemma HitKeeps(ps: seq<Info>, id: nat, rs: seq<Info>, x: Info, k: nat)
    requires DistinctPages(ps) && k < |ps| && ps[k].id == id && x in ps && rs == ToFront(ps, k, ps[k].(refcount := ps[k].refcount + 1))
    ensures Resident(rs, x.id) && (x.id != id ==> x in rs)
  {
    CutItems(ps, k, x);
    var first := ps[k].(refcount := ps[k].refcount + 1);
    assert rs == [first] + Cut(ps, k);
    assert first in rs;
    if x != ps[k] { assert x in rs; }
  }

  lemma EvictKeeps(ps: seq<Info>, id: nat, rs: seq<Info>, x: Info, v: nat)
    requires DistinctPages(ps) && !Resident(ps, id) && v < |ps| && x in ps && rs == [Info(id, 1, false, Zeros())] + Cut(ps, v)
    ensures Resident(rs, x.id) <==> x != ps[v]
    ensures Resident(rs, x.id) ==> x in rs
  {
    CutItems(ps, v, x);
    assert rs[0].id == id;
    forall y | y in rs && y.id == x.id ensures y == x && y in Cut(ps, v) {
      assert y != rs[0];
      CutItems(ps, v, y);
    }
    if x != ps[v] { assert x in rs; }
  }

  /** A dirty page is lost exactly when the allocation evicts and its victim is dirty; then that page is the only one
      lost, and a later flush cannot write it. */
  lemma DirtyLostIff(ps: seq<Info>, cap: nat, id: nat, rs: seq<Info>)
    requires DistinctPages(ps) && AllocGives(ps, cap, id, rs)
    ensures (exists x :: x in ps && x.dirty && !Resident(rs, x.id)) <==> Evicts(ps, cap, id) && ps[Victim(ps)].dirty
    ensures forall x :: x in ps && !Resident(rs, x.id) ==> Victim(ps) >= 0 && x == ps[Victim(ps)]
  {
    forall x | x in ps ensures Resident(rs, x.id) <==> !(Evicts(ps, cap, id) && x == ps[Victim(ps)]) {
      AllocKeeps(ps, cap, id, rs, x);
    }
    if Evicts(ps, cap, id) { assert ps[Victim(ps)] in ps; }
  }

  /** A dirty page whose one holder has not released it is evicted by the allocation of another. */
  lemma DirtyPageCanBeDropped(id: nat, other: nat, data: Bytes)
    requires other != id
    ensures var ps, rs := [Info(id, 1, true, data)], [Info(other, 1, false, Zeros())];
            DistinctPages(ps) && AllocGives(ps, 1, other, rs) && ps[0].dirty && !Resident(rs, id)
  {
    var ps, rs := [Info(id, 1, true, data)], [Info(other, 1, false, Zeros())];
    assert Victim(ps) == 0;
    assert Cut(ps, 0) == [];
    assert Allocated(ps, 1, other) == rs;
    forall x | x in ps ensures x.id == id {}
    forall x | x in rs ensures x.id == other {}
  }

  class Cache {
    const capacity: nat
    var mem: Memory
    var slots: seq<Ptr>
    var count: nat
    var hits: nat
    var misses: nat
    ghost var ring: seq<Ptr>
    ghost var chains: seq<seq<Ptr>>

    ghost predicate Valid()
      reads this
    {
      StoreOk(mem, ring, slots, chains, capacity) && count == |ring| - 1 && count <= capacity
    }

    /** The resident pages, most recently touched first. */
    ghost function Pages(): (r: seq<Info>)
      requires Valid()
      reads this
    {
      PagesOf(mem, ring)
    }

    /** No two resident pages have the same id. */
    lemma PagesDistinct()
      requires Valid()
      ensures |Pages()| <= capacity && DistinctPages(Pages())
    {
      DistinctIds(mem, ring, chains, capacity);
    }

    /** Whatever the cache holds, the allocation of an id loses a dirty page exactly when the id is not resident, the cache
        is full, and there is a victim and it is dirty; no other page is lost. */
    lemma LosesDirtyIff(id: nat, rs: seq<Info>)
      requires Valid() && AllocGives(Pages(), capacity, id, rs)
      ensures (exists x :: x in Pages() && x.dirty && !Resident(rs, x.id)) <==>
              !Resident(Pages(), id) && |Pages()| == capacity && Victim(Pages()) >= 0 && Pages()[Victim(Pages())].dirty
      ensures forall x :: x in Pages() && !Resident(rs, x.id) ==> Victim(Pages()) >= 0 && x == Pages()[Victim(Pages())]
    {
      PagesDistinct();
      DirtyLostIff(Pages(), capacity, id, rs);
    }

    /** page_cache_init */
    constructor (maxPages: nat)
      requires maxPages > 0
      ensures Valid() && capacity == maxPages && Pages() == [] && hits == 0 && misses == 0
    {
      capacity := maxPages;
      mem := map[HEAD := Page(0, 0, false, [], NULL, HEAD, HEAD)];
      slots := seq(maxPages, _ => NULL);
      count, hits, misses, ring, chains := 0, 0, 0, [HEAD], seq(maxPages, _ => []);
    }

    /** page_cache_get */
    method Get(id: nat) returns (page: Ptr, ghost k: nat)
      requires Valid()
      modifies this
      ensures Valid()
      ensures page == NULL ==> Pages() == old(Pages()) && forall x :: x in old(Pages()) ==> x.id != id
      ensures page != NULL ==> k < |old(Pages())| && old(Pages())[k].id == id && page in mem && mem[page].id == id
      ensures page != NULL ==> Pages() == ToFront(old(Pages()), k, old(Pages())[k].(refcount := old(Pages())[k].refcount + 1))
      ensures hits == old(hits) + (if page != NULL then 1 else 0) && misses == old(misses) + (if page != NULL then 0 else 1)
    {
      page, k := Find(mem, slots, capacity, id, ring, chains);
      if page == NULL {
        NoSuchPage(mem, ring, id);
        misses := misses + 1;
        return;
      }
      var now; ghost var next;
      now, next := Touch(mem, page, ring, k, slots, chains, capacity);
      assert InfoOf(now[next[1]]) == PagesOf(now, next)[0];
      mem, ring, hits, k := now, next, hits + 1, k - 1;
    }

    /** page_cache_alloc: a null result means every resident page is referenced more than once. */
    method Alloc(id: nat, malloc: set<Ptr> -> Ptr) returns (page: Ptr, ghost k: nat)
      requires Valid() && forall s :: malloc(s) !in s && malloc(s) != NULL && malloc(s) != HEAD
      modifies this`mem, this`slots, this`count, this`ring, this`chains
      ensures Valid() && AllocGives(old(Pages()), capacity, id, Pages())
      ensures page != NULL ==> page in mem && mem[page].id == id
      ensures page == NULL <==> !Resident(old(Pages()), id) && |old(Pages())| >= capacity && Victim(old(Pages())) < 0
    {
      ghost var ps := Pages();
      page, k := FindOrAdd(id, malloc);
      AllocIs(ps, capacity, id, Pages(), k, page == NULL);
    }

    method FindOrAdd(id: nat, malloc: set<Ptr> -> Ptr) returns (page: Ptr, ghost k: nat)
      requires Valid() && forall s :: malloc(s) !in s && malloc(s) != NULL && malloc(s) != HEAD
      modifies this`mem, this`slots, this`count, this`ring, this`chains
      ensures Valid() && k <= |old(Pages())|
      ensures page != NULL ==> page in mem && mem[page].id == id
      ensures k < |old(Pages())| ==> page != NULL && old(Pages())[k].id == id
      ensures k < |old(Pages())| ==> Pages() == ToFront(old(Pages()), k, old(Pages())[k].(refcount := old(Pages())[k].refcount + 1))
      ensures k == |old(Pages())| ==> forall x :: x in old(Pages()) ==> x.id != id
      ensures k == |old(Pages())| ==> (page == NULL <==> |old(Pages())| >= capacity && Victim(old(Pages())) < 0)
      ensures k == |old(Pages())| ==> Pages() == if page == NULL then old(Pages()) else Allocated(old(Pages()), capacity, id)
    {
      page, k := Find(mem, slots, capacity, id, ring, chains);
      if page != NULL {
        var now; ghost var next;
        now, next := Touch(mem, page, ring, k, slots, chains, capacity);
        assert InfoOf(now[next[1]]) == PagesOf(now, next)[0];
        mem, ring, k := now, next, k - 1;
      } else {
        NoSuchPage(mem, ring, id);
        k := |ring| - 1;
        page := AllocNew(id, malloc);
      }
    }

    /** Lines 74-113 */
    method AllocNew(id: nat, malloc: set<Ptr> -> Ptr) returns (page: Ptr)
      requires Valid() && forall s :: malloc(s) !in s && malloc(s) != NULL && malloc(s) != HEAD
      requires forall p :: p in mem && p != HEAD ==> mem[p].id != id
      modifies this`mem, this`slots, this`count, this`ring, this`chains
      ensures Valid() && (page == NULL <==> |old(Pages())| >= capacity && Victim(old(Pages())) < 0)
      ensures Pages() == if page == NULL then old(Pages()) else Allocated(old(Pages()), capacity, id)
      ensures page != NULL ==> page in mem && mem[page].id == id
    {
      var now, heads, left := mem, slots, count;
      ghost var next, rest := ring, chains;
      ghost var ps := PagesOf(mem, ring);
      if count >= capacity {
        var ok;
        ok, now, heads, next, rest := MakeRoom(mem, slots, capacity, id, ring, chains);
        if !ok { return NULL; }
        left := count - 1;
      }
      assert [Info(id, 1, false, Zeros())] + PagesOf(now, next) == Allocated(ps, capacity, id);
      page := malloc(now.Keys);
      AddNew(now, heads, left, id, page, next, rest);
    }

    /** Lines 97-113, on memory with room for the page. */
    method AddNew(with: Memory, heads: seq<Ptr>, left: nat, id: nat, page: Ptr, ghost at: seq<Ptr>, ghost rest: seq<seq<Ptr>>)
      requires StoreOk(with, at, heads, rest, capacity) && left == |at| - 1 && left < capacity
      requires page !in with && page != NULL && page != HEAD && forall q :: q in with && q != HEAD ==> with[q].id != id
      modifies this`mem, this`slots, this`count, this`ring, this`chains
      ensures Valid() && page in mem && mem[page].id == id
      ensures Pages() == [Info(id, 1, false, Zeros())] + PagesOf(with, at)
    {
      var now, slotsNow; ghost var more;
      now, slotsNow, more := AddPage(with, heads, capacity, id, page, at, rest);
      ghost var next := [HEAD, page] + at[1..];
      assert InfoOf(now[next[1]]) == PagesOf(now, next)[0];
      mem, slots, ring, chains, count := now, slotsNow, next, more, left + 1;
    }

    /** page_cache_release */
    method Release(page: Ptr)
      requires Valid() && (page != NULL ==> page in mem && page != HEAD)
      modifies this`mem
      ensures Valid() && mem.Keys == old(mem).Keys
      ensures forall p :: p in mem ==> InfoOf(mem[p]) == if p == page then InfoOf(old(mem)[p]).(refcount := old(mem)[p].refcount - 1) else InfoOf(old(mem)[p])
    {
      if page != NULL {
        var now := mem[page := mem[page].(refcount := mem[page].refcount - 1)];
        RingFrame(mem, now, ring);
        StoreKept(mem, now, ring, ring, slots, chains, capacity);
        mem := now;
      }
    }

    /** page_cache_mark_dirty */
    method MarkDirty(page: Ptr)
      requires Valid() && (page != NULL ==> page in mem && page != HEAD)
      modifies this`mem
      ensures Valid() && mem.Keys == old(mem).Keys
      ensures forall p :: p in mem ==> InfoOf(mem[p]) == if p == page then InfoOf(old(mem)[p]).(dirty := true) else InfoOf(old(mem)[p])
    {
      if page != NULL {
        var now := mem[page := mem[page].(dirty := true)];
        RingFrame(mem, now, ring);
        StoreKept(mem, now, ring, ring, slots, chains, capacity);
        mem := now;
      }
    }

    /** page_cache_flush: writes every dirty page once and leaves all pages clean. */
    method Flush() returns (written: seq<(nat, Bytes)>)
      requires Valid()
      modifies this`mem
      ensures Valid() && |Pages()| == |old(Pages())|
      ensures forall i :: 0 <= i < |Pages()| ==> Pages()[i] == old(Pages())[i].(dirty := false)
      ensures forall i :: 0 <= i < |Pages()| && old(Pages())[i].dirty ==> (Pages()[i].id, Pages()[i].data) in written
      ensures forall x :: x in written ==> exists y :: y in old(Pages()) && y.dirty && x == (y.id, y.data)
      ensures forall i, j :: 0 <= i < j < |written| ==> written[i].0 != written[j].0
    {
      var now;
      now, written := FlushAll(mem, slots, capacity, ring, chains);
      RingFrame(mem, now, ring);
      StoreKept(mem, now, ring, ring, slots, chains, capacity);
      FlushedPages(mem, now, ring, written);
      mem := now;
    }
  }

  lemma FlushedPages(mem: Memory, now: Memory, ring: seq<Ptr>, written: seq<(nat, Bytes)>)
    requires RingOk(mem, ring) && RingOk(now, ring) && Flushed(mem, now, mem.Keys - {HEAD}, written)
    requires forall p :: p in mem ==> p in ring
    ensures forall i :: 0 <= i < |ring| - 1 ==> PagesOf(now, ring)[i] == PagesOf(mem, ring)[i].(dirty := false)
    ensures forall i :: 0 <= i < |ring| - 1 && PagesOf(mem, ring)[i].dirty ==>
              (PagesOf(now, ring)[i].id, PagesOf(now, ring)[i].data) in written
    ensures forall x :: x in written ==> exists y :: y in PagesOf(mem, ring) && y.dirty && x == (y.id, y.data)
  {
    var a, b := PagesOf(mem, ring), PagesOf(now, ring);
    forall i | 0 <= i < |ring| - 1 ensures b[i] == a[i].(dirty := false) && (a[i].dirty ==> (b[i].id, b[i].data) in written) {
      assert ring[i + 1] != ring[0];
      assert a[i] == InfoOf(mem[ring[i + 1]]) && b[i] == InfoOf(now[ring[i + 1]]);
    }
    forall x | x in written ensures exists y :: y in a && y.dirty && x == (y.id, y.data) {
      var p :| p in mem.Keys - {HEAD} && mem[p].dirty && x == (mem[p].id, mem[p].data);
      PagesByAddress(mem, ring, p);
      assert InfoOf(mem[p]).dirty;
    }
  }
}

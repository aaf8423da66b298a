/** malloc() and free_s() of lib/malloc.c over descriptor lists and bucket pages. */
module KernelMalloc {
  import opened LinkedLists
  import opened BucketPages

  /** A bucket descriptor; its bucket_size is the size of its chain. */
  datatype Desc = Desc(page: nat, next: int, freeptr: nat, refcnt: nat, size: nat)

  // ---------------------------------------------------------------- the descriptor lists

  /** Nine bucket chains, and the free descriptors as the tenth list. */
  const FREE: nat := 9

  ghost predicate Link(c: seq<nat>, desc: seq<Desc>, i: nat)
    requires i < |c| && c[i] < |desc|
  {
    desc[c[i]].next == Next(c, i)
  }

  ghost predicate IsList(c: seq<nat>, head: int, desc: seq<Desc>) {
    && Distinct(c) && InTable(c, |desc|) && head == Head(c)
    && forall i | 0 <= i < |c| :: Link(c, desc, i)
  }

  predicate In(lists: seq<seq<nat>>, b: nat, d: nat) {
    b < |lists| && d in lists[b]
  }

  /** Every descriptor is on exactly the list that `home` says. */
  ghost predicate ListsOk(desc: seq<Desc>, dir: seq<int>, lists: seq<seq<nat>>, home: seq<nat>) {
    && |lists| == |dir| == 10 && |home| == |desc|
    && (forall b | 0 <= b < 10 :: IsList(lists[b], dir[b], desc))
    && (forall b: nat, d: nat | In(lists, b, d) :: d < |desc| && home[d] == b)
    && (forall d | 0 <= d < |desc| :: home[d] < 10 && In(lists, home[d], d))
  }

  predicate SameLinks(a: seq<Desc>, b: seq<Desc>) {
    |a| == |b| && forall d | 0 <= d < |a| :: b[d].next == a[d].next
  }

  lemma ListFrame(c: seq<nat>, head: int, desc: seq<Desc>, desc': seq<Desc>)
    requires IsList(c, head, desc) && |desc| <= |desc'|
    requires forall d | d in c && d < |desc| :: desc'[d].next == desc[d].next
    ensures IsList(c, head, desc')
  {
    forall i | 0 <= i < |c| ensures Link(c, desc', i) {
      assert Link(c, desc, i) && c[i] in c;
    }
  }

  lemma LinkOf(desc: seq<Desc>, dir: seq<int>, lists: seq<seq<nat>>, home: seq<nat>, b: nat, i: nat)
    requires ListsOk(desc, dir, lists, home) && b < 10 && i < |lists[b]|
    ensures lists[b][i] < |desc| && home[lists[b][i]] == b
    ensures desc[lists[b][i]].next == Next(lists[b], i) && NULL <= Next(lists[b], i) < |desc|
  {
    assert IsList(lists[b], dir[b], desc);
    assert Link(lists[b], desc, i);
    assert In(lists, b, lists[b][i]);
  }

  lemma HeadOf(desc: seq<Desc>, dir: seq<int>, lists: seq<seq<nat>>, home: seq<nat>, b: nat)
    requires ListsOk(desc, dir, lists, home) && b < 10
    ensures NULL <= dir[b] == Head(lists[b]) < |desc| && Distinct(lists[b])
  {
    assert IsList(lists[b], dir[b], desc);
  }

  lemma LinksKept(desc: seq<Desc>, desc': seq<Desc>, dir: seq<int>, lists: seq<seq<nat>>, home: seq<nat>)
    requires ListsOk(desc, dir, lists, home) && SameLinks(desc, desc')
    ensures ListsOk(desc', dir, lists, home)
  {
    forall b | 0 <= b < 10 ensures IsList(lists[b], dir[b], desc') {
      ListFrame(lists[b], dir[b], desc, desc');
    }
  }

  /** A list after its i-th descriptor is taken out. */
  lemma ListWithout(c: seq<nat>, head: int, desc: seq<Desc>, desc': seq<Desc>, i: nat)
    requires IsList(c, head, desc) && i < |c| && |desc'| == |desc|
    requires forall e | e in c && e < |desc| && e != c[i] && !(i > 0 && e == c[i - 1]) :: desc'[e].next == desc[e].next
    requires c[i] < |desc| && (i > 0 ==> c[i - 1] < |desc| && desc'[c[i - 1]].next == desc[c[i]].next)
    ensures IsList(Without(c, i), if i == 0 then desc[c[i]].next else head, desc')
  {
    var w := Without(c, i);
    WithoutDistinct(c, i, |desc|);
    assert Link(c, desc, i);
    forall k | 0 <= k < |w| ensures Link(w, desc', k) {
      var j := if k < i then k else k + 1;
      assert Link(c, desc, j) && c[j] in c;
      Member(c, j, i);
      if i > 0 { Member(c, j, i - 1); }
    }
  }

  lemma ListWith(c: seq<nat>, head: int, desc: seq<Desc>, desc': seq<Desc>, d: nat)
    requires IsList(c, head, desc) && d < |desc'| && |desc| <= |desc'| && d !in c && desc'[d].next == head
    requires forall e | e in c && e < |desc| :: desc'[e].next == desc[e].next
    ensures IsList([d] + c, d, desc')
  {
    var w := [d] + c;
    assert forall j | 0 <= j < |c| :: c[j] in c;
    assert Distinct(w);
    assert InTable(w, |desc'|);
    forall k | 0 <= k < |w| ensures Link(w, desc', k) {
      if k > 0 {
        assert Link(c, desc, k - 1) && w[k] == c[k - 1];
        assert Next(w, k) == Next(c, k - 1);
      }
    }
  }

  lemma NotOn(desc: seq<Desc>, dir: seq<int>, lists: seq<seq<nat>>, home: seq<nat>, b: nat, i: nat, e: nat)
    requires ListsOk(desc, dir, lists, home) && b < 10 && i < |lists[b]| && e < 10 && e != b
    ensures lists[b][i] !in lists[e]
  {
    assert In(lists, b, lists[b][i]) && !In(lists, e, lists[b][i]);
  }

  /** Moving the i-th descriptor of one list to the front of another. */
  lemma MoveKeeps(desc: seq<Desc>, desc': seq<Desc>, dir: seq<int>, lists: seq<seq<nat>>, home: seq<nat>, b: nat, i: nat, c: nat)
    requires ListsOk(desc, dir, lists, home) && b < 10 && c < 10 && b != c && i < |lists[b]| && |desc'| == |desc|
    requires lists[b][i] < |desc|
    requires forall e | 0 <= e < |desc| && e != lists[b][i] && !(i > 0 && e == lists[b][i - 1]) :: desc'[e].next == desc[e].next
    requires desc'[lists[b][i]].next == dir[c]
    requires i > 0 ==> lists[b][i - 1] < |desc| && desc'[lists[b][i - 1]].next == desc[lists[b][i]].next
    ensures var d := lists[b][i];
      ListsOk(desc', dir[b := if i == 0 then desc[d].next else dir[b]][c := d],
              lists[b := Without(lists[b], i)][c := [d] + lists[c]], home[d := c])
  {
    hide IsList, In;
    var d := lists[b][i];
    var dir' := dir[b := if i == 0 then desc[d].next else dir[b]][c := d];
    var lists', home' := lists[b := Without(lists[b], i)][c := [d] + lists[c]], home[d := c];
    forall e | 0 <= e < 10 ensures IsList(lists'[e], dir'[e], desc') {
      if e == b {
        ListWithout(lists[b], dir[b], desc, desc', i);
      } else {
        NotOn(desc, dir, lists, home, b, i, e);
        if i > 0 { NotOn(desc, dir, lists, home, b, i - 1, e); }
        if e == c {
          ListWith(lists[c], dir[c], desc, desc', d);
        } else {
          ListFrame(lists[e], dir[e], desc, desc');
        }
      }
    }
    MoveHomes(desc, dir, lists, home, b, i, c, lists', home');
  }

  lemma MoveHomes(desc: seq<Desc>, dir: seq<int>, lists: seq<seq<nat>>, home: seq<nat>, b: nat, i: nat, c: nat,
                  lists': seq<seq<nat>>, home': seq<nat>)
    requires ListsOk(desc, dir, lists, home) && b < 10 && c < 10 && b != c && i < |lists[b]| && lists[b][i] < |desc|
    requires lists' == lists[b := Without(lists[b], i)][c := [lists[b][i]] + lists[c]] && home' == home[lists[b][i] := c]
    ensures forall e: nat, x: nat | In(lists', e, x) :: x < |desc| && home'[x] == e
    ensures forall x | 0 <= x < |desc| :: home'[x] < 10 && In(lists', home'[x], x)
  {
    var d := lists[b][i];
    assert IsList(lists[b], dir[b], desc);
    WithoutDistinct(lists[b], i, |desc|);
    assert In(lists, b, d);
    forall e: nat, x: nat | In(lists', e, x) ensures x < |desc| && home'[x] == e {
      assert e == b ==> x != d;
      if !(e == c && x == d) { assert In(lists, e, x); }
    }
    forall x | 0 <= x < |desc| ensures home'[x] < 10 && In(lists', home'[x], x) {
      assert In(lists, home[x], x);
    }
  }

  /** The entries of a fresh descriptor page, in order. */
  function Fresh(from: nat): (c: seq<nat>)
    ensures |c| == 256 && forall i | 0 <= i < 256 :: c[i] == from + i
  {
    seq(256, i requires 0 <= i < 256 => from + i)
  }

  /** Lines 102-114: a page of 256 descriptors in front of the free ones. */
  lemma GrowKeeps(desc: seq<Desc>, desc': seq<Desc>, dir: seq<int>, lists: seq<seq<nat>>, home: seq<nat>)
    requires ListsOk(desc, dir, lists, home) && |desc'| == |desc| + 256 && desc'[..|desc|] == desc
    requires forall d | |desc| <= d < |desc| + 256 :: desc'[d].next == if d < |desc| + 255 then d + 1 else dir[FREE]
    ensures ListsOk(desc', dir[FREE := |desc|], lists[FREE := Fresh(|desc|) + lists[FREE]], home + FreeHomes())
  {
    var n := |desc|;
    var w := Fresh(n) + lists[FREE];
    var lists', home' := lists[FREE := w], home + FreeHomes();
    assert forall d | 0 <= d < n :: desc'[d] == desc'[..n][d];
    assert IsList(lists[FREE], dir[FREE], desc);
    assert InTable(w, |desc'|);
    forall k | 0 <= k < |w| ensures Link(w, desc', k) {
      if k >= 256 { assert Link(lists[FREE], desc, k - 256); }
    }
    forall e | 0 <= e < 10 && e != FREE ensures IsList(lists[e], dir[e], desc') {
      ListFrame(lists[e], dir[e], desc, desc');
    }
    forall e: nat, x: nat | In(lists', e, x) ensures x < |desc'| && home'[x] == e {
      if !(e == FREE && x >= n) { NewOrOld(n, lists[FREE], x); assert In(lists, e, x); }
    }
    forall x | 0 <= x < |desc'| ensures home'[x] < 10 && In(lists', home'[x], x) {
      if x < n {
        assert In(lists, home[x], x);
      } else {
        assert w[x - n] == x;
      }
    }
  }

  lemma NewOrOld(n: nat, c: seq<nat>, x: nat)
    requires x < n
    ensures x in Fresh(n) + c ==> x in c
  {
  }

  // ---------------------------------------------------------------- the pages

  /** `home` is the list of each descriptor, `frees` the free objects of its page. */
  datatype Heap = Heap(word: seq<nat>, desc: seq<Desc>, home: seq<nat>, frees: seq<seq<nat>>,
                       freePages: set<nat>, descPages: set<nat>)

  predicate Used(h: Heap, d: nat) {
    d < |h.desc| && d < |h.home| && h.home[d] < 9
  }

  ghost predicate PageOk(h: Heap, d: nat)
    requires Used(h, d) && |h.frees| == |h.desc|
  {
    var (b, e) := (h.home[d], h.desc[d]);
    && e.size == SizeOf(b) && e.refcnt == Slots(b) - |h.frees[d]|
    && Threaded(e.page, b, h.frees[d], e.freeptr, h.word)
    && e.page !in h.freePages && e.page !in h.descPages
  }

  predicate Holds(h: Heap, d: nat, p: nat) {
    Used(h, d) && h.desc[d].page == p
  }

  ghost predicate HasHolder(h: Heap, p: nat) {
    exists d: nat :: Holds(h, d, p)
  }

  /** Every bucket page is partitioned into its free list and its live objects, `refcnt` of them;
      no page has two owners; and all pages are accounted for. */
  ghost predicate HeapOk(h: Heap, all: set<nat>) {
    && |h.home| == |h.frees| == |h.desc|
    && (forall d: nat | Used(h, d) :: PageOk(h, d))
    && (forall d: nat, e: nat, p: nat | Holds(h, d, p) && Holds(h, e, p) :: d == e)
    && h.freePages !! h.descPages
    && (forall p | p in h.freePages :: 0 < p && 256 * p + 256 <= |h.word|)
    && (forall p :: p in all <==> p in h.freePages || p in h.descPages || HasHolder(h, p))
  }

  predicate IsLive(h: Heap, d: nat, k: nat) {
    Used(h, d) && d < |h.frees| && k < Slots(h.home[d]) && k !in h.frees[d]
  }

  function AddrOf(h: Heap, d: nat, k: nat): nat
    requires Used(h, d)
  {
    Addr(h.desc[d].page, h.home[d], k)
  }

  ghost predicate LiveAt(h: Heap, addr: nat, size: nat) {
    exists d: nat, k: nat :: IsLive(h, d, k) && addr == AddrOf(h, d, k) && size == SizeOf(h.home[d])
  }

  /** The live objects, as (address, size). */
  ghost function Live(h: Heap): iset<(nat, nat)> {
    iset a: nat, s: nat | LiveAt(h, a, s) :: (a, s)
  }

  /** Live objects do not overlap, and each lies inside a page. */
  lemma LiveApart(h: Heap, all: set<nat>, a: nat, s: nat, b: nat, t: nat)
    requires HeapOk(h, all) && (a, s) in Live(h) && (b, t) in Live(h) && (a, s) != (b, t)
    ensures a + s <= b || b + t <= a
    ensures a / 4096 in all && a / 4096 == (a + s - 1) / 4096 && a > 0
  {
    var d: nat, j: nat :| IsLive(h, d, j) && a == AddrOf(h, d, j) && s == SizeOf(h.home[d]);
    var e: nat, k: nat :| IsLive(h, e, k) && b == AddrOf(h, e, k) && t == SizeOf(h.home[e]);
    assert PageOk(h, d) && PageOk(h, e);
    assert Holds(h, d, h.desc[d].page) && Holds(h, e, h.desc[e].page);
    AddrInPage(h.desc[d].page, h.home[d], j);
    if d == e {
      AddrApart(h.desc[d].page, h.home[d], j, k);
    } else {
      PagesApart(h.desc[d].page, h.home[d], j, h.desc[e].page, h.home[e], k);
    }
  }

  /** An address names one live object. */
  lemma LivePlace(h: Heap, all: set<nat>, d: nat, j: nat, e: nat, k: nat)
    requires HeapOk(h, all) && Used(h, d) && Used(h, e) && j < Slots(h.home[d]) && k < Slots(h.home[e])
    requires AddrOf(h, d, j) == AddrOf(h, e, k)
    ensures d == e && j == k
  {
    AddrInPage(h.desc[d].page, h.home[d], j);
    AddrInPage(h.desc[e].page, h.home[e], k);
    assert Holds(h, d, h.desc[d].page) && Holds(h, e, h.desc[d].page);
    if j != k { AddrApart(h.desc[d].page, h.home[d], j, k); }
  }

  /** `refcnt` is the number of live objects on the page; the others are its free list. */
  lemma RefcntCounts(h: Heap, all: set<nat>, d: nat)
    requires HeapOk(h, all) && Used(h, d)
    ensures d < |h.frees| && |set k: nat | k in AllSlots(h.home[d]) && IsLive(h, d, k)| == h.desc[d].refcnt
    ensures h.desc[d].refcnt + |h.frees[d]| == Slots(h.home[d])
  {
    assert PageOk(h, d);
    var b := h.home[d];
    var live := set k: nat | k in AllSlots(b) && k !in h.frees[d];
    LiveCount(b, h.frees[d], live);
    assert (set k: nat | k in AllSlots(b) && IsLive(h, d, k)) == live;
  }

  function WithDesc(h: Heap, d: nat, e: Desc, free: seq<nat>): Heap
    requires d < |h.desc| == |h.frees|
  {
    Heap(h.word, h.desc[d := e], h.home, h.frees[d := free], h.freePages, h.descPages)
  }

  /** Lines 168-170. */
  function Taken(h: Heap, d: nat): Heap
    requires d < |h.desc| == |h.frees| && h.frees[d] != []
  {
    var e := h.desc[d];
    WithDesc(h, d, Desc(e.page, e.next, LinkAt(h.word, e.freeptr), e.refcnt + 1, e.size), h.frees[d][1..])
  }

  lemma TakeKeeps(h: Heap, all: set<nat>, d: nat)
    requires HeapOk(h, all) && Used(h, d) && h.frees[d] != []
    ensures HeapOk(Taken(h, d), all)
    ensures h.desc[d].freeptr > 0 && (h.desc[d].freeptr, SizeOf(h.home[d])) !in Live(h)
    ensures Live(Taken(h, d)) == Live(h) + iset{(h.desc[d].freeptr, SizeOf(h.home[d]))}
  {
    var h' := Taken(h, d);
    var e := h.desc[d];
    assert PageOk(h, d);
    TakeFirst(e.page, h.home[d], h.frees[d], e.freeptr, h.word);
    OthersOk(h, h', all, d);
    var k := h.frees[d][0];
    assert e.freeptr == AddrOf(h, d, k) && !IsLive(h, d, k) && IsLive(h', d, k) by {
      assert k !in h.frees[d][1..];
    }
    TakeLive(h, all, d);
  }

  lemma TakeLive(h: Heap, all: set<nat>, d: nat)
    requires HeapOk(h, all) && Used(h, d) && h.frees[d] != []
    ensures (AddrOf(h, d, h.frees[d][0]), SizeOf(h.home[d])) !in Live(h)
    ensures Live(Taken(h, d)) == Live(h) + iset{(AddrOf(h, d, h.frees[d][0]), SizeOf(h.home[d]))}
  {
    var h', k := Taken(h, d), h.frees[d][0];
    assert PageOk(h, d);
    assert forall x :: x in h.frees[d] <==> x == k || x in h.frees[d][1..] by { assert h.frees[d] == [k] + h.frees[d][1..]; }
    assert k !in h.frees[d][1..];
    assert forall x: nat, y: nat :: IsLive(h', x, y) <==> IsLive(h, x, y) || (x == d && y == k);
    if (AddrOf(h, d, k), SizeOf(h.home[d])) in Live(h) {
      var x: nat, y: nat :| IsLive(h, x, y) && AddrOf(h, d, k) == AddrOf(h, x, y);
      LivePlace(h, all, d, k, x, y);
    }
    LiveGrows(h, h', d, k);
  }

  /** One more live object. */
  lemma LiveGrows(h: Heap, h': Heap, d: nat, k: nat)
    requires Used(h, d) && h'.home == h.home && |h'.desc| == |h.desc|
    requires forall x | 0 <= x < |h.desc| :: h'.desc[x].page == h.desc[x].page
    requires forall x: nat, y: nat :: IsLive(h', x, y) <==> IsLive(h, x, y) || (x == d && y == k)
    ensures Live(h') == Live(h) + iset{(AddrOf(h, d, k), SizeOf(h.home[d]))}
  {
    forall a: nat, s: nat ensures LiveAt(h', a, s) <==> LiveAt(h, a, s) || (a, s) == (AddrOf(h, d, k), SizeOf(h.home[d])) {
      if LiveAt(h, a, s) {
        var x: nat, y: nat :| IsLive(h, x, y) && a == AddrOf(h, x, y) && s == SizeOf(h.home[x]);
        assert IsLive(h', x, y);
      }
      if (a, s) == (AddrOf(h, d, k), SizeOf(h.home[d])) { assert IsLive(h', d, k); }
      if LiveAt(h', a, s) {
        var x: nat, y: nat :| IsLive(h', x, y) && a == AddrOf(h', x, y) && s == SizeOf(h'.home[x]);
        assert IsLive(h, x, y) || (x == d && y == k);
      }
    }
  }

  /** A change to one descriptor that keeps its page. */
  lemma OthersOk(h: Heap, h': Heap, all: set<nat>, d: nat)
    requires HeapOk(h, all) && Used(h, d) && h'.home == h.home && |h'.desc| == |h.desc| == |h'.frees|
    requires h'.freePages == h.freePages && h'.descPages == h.descPages && h'.word == h.word
    requires forall x | 0 <= x < |h.desc| :: h'.desc[x].page == h.desc[x].page
    requires forall x | 0 <= x < |h.desc| && x != d :: h'.desc[x] == h.desc[x] && h'.frees[x] == h.frees[x]
    requires PageOk(h', d)
    ensures HeapOk(h', all)
  {
    assert forall x: nat, p: nat :: Holds(h', x, p) <==> Holds(h, x, p);
    assert forall p: nat :: HasHolder(h', p) <==> HasHolder(h, p);
    forall x: nat | Used(h', x) ensures PageOk(h', x) {
      if x != d { assert PageOk(h, x); }
    }
  }

  /** Lines 205-207. */
  function PutBack(h: Heap, d: nat, k: nat): Heap
    requires Used(h, d) && d < |h.desc| == |h.frees| && h.desc[d].refcnt > 0 && AddrOf(h, d, k) / 16 < |h.word|
  {
    var e, a := h.desc[d], AddrOf(h, d, k);
    Heap(h.word[a / 16 := e.freeptr], h.desc[d := Desc(e.page, e.next, a, e.refcnt - 1, e.size)],
         h.home, h.frees[d := [k] + h.frees[d]], h.freePages, h.descPages)
  }

  lemma PutKeeps(h: Heap, all: set<nat>, d: nat, k: nat)
    requires HeapOk(h, all) && IsLive(h, d, k)
    ensures h.desc[d].refcnt > 0 && AddrOf(h, d, k) / 16 < |h.word|
    ensures HeapOk(PutBack(h, d, k), all)
    ensures (AddrOf(h, d, k), SizeOf(h.home[d])) !in Live(PutBack(h, d, k))
    ensures Live(PutBack(h, d, k)) + iset{(AddrOf(h, d, k), SizeOf(h.home[d]))} == Live(h)
  {
    assert PageOk(h, d);
    var e := h.desc[d];
    Busy(h, d, k);
    PutFirst(e.page, h.home[d], h.frees[d], e.freeptr, h.word, k);
    var h' := PutBack(h, d, k);
    forall x: nat | Used(h, x) && x != d ensures PageOk(h', x) {
      assert PageOk(h, x);
      StoreElsewhere(h, all, d, k, 0, x, e.freeptr);
    }
    assert forall x: nat, p: nat :: Holds(h', x, p) <==> Holds(h, x, p);
    assert forall p: nat :: HasHolder(h', p) <==> HasHolder(h, p);
    assert HeapOk(h', all);
    PutLive(h, h', all, d, k);
  }

  /** A page with a live object has room to count it. */
  lemma Busy(h: Heap, d: nat, k: nat)
    requires IsLive(h, d, k) && |h.frees| == |h.desc| && PageOk(h, d)
    ensures h.desc[d].refcnt > 0
  {
    var live := set j: nat | j in AllSlots(h.home[d]) && j !in h.frees[d];
    LiveCount(h.home[d], h.frees[d], live);
    assert AllSlots(h.home[d])[k] == k && k in live;
  }

  lemma PutLive(h: Heap, h': Heap, all: set<nat>, d: nat, k: nat)
    requires HeapOk(h, all) && IsLive(h, d, k) && HeapOk(h', all)
    requires h'.home == h.home && |h'.desc| == |h.desc| && |h.frees| == |h.desc| && h'.frees == h.frees[d := [k] + h.frees[d]]
    requires forall x | 0 <= x < |h.desc| :: h'.desc[x].page == h.desc[x].page
    ensures (AddrOf(h, d, k), SizeOf(h.home[d])) !in Live(h')
    ensures Live(h') + iset{(AddrOf(h, d, k), SizeOf(h.home[d]))} == Live(h)
  {
    assert forall x: nat, y: nat :: IsLive(h, x, y) <==> IsLive(h', x, y) || (x == d && y == k);
    if (AddrOf(h, d, k), SizeOf(h.home[d])) in Live(h') {
      var x: nat, y: nat :| IsLive(h', x, y) && AddrOf(h, d, k) == AddrOf(h', x, y);
      LivePlace(h, all, d, k, x, y);
    }
    LiveGrows(h', h, d, k);
  }

  /** A store inside a live object of descriptor d leaves the other pages' lists alone. */
  lemma StoreElsewhere(h: Heap, all: set<nat>, d: nat, k: nat, off: nat, x: nat, v: nat)
    requires HeapOk(h, all) && IsLive(h, d, k) && off < SizeOf(h.home[d]) && Used(h, x) && x != d
    ensures (AddrOf(h, d, k) + off) / 16 < |h.word|
    ensures Threaded(h.desc[x].page, h.home[x], h.frees[x], h.desc[x].freeptr, h.word[(AddrOf(h, d, k) + off) / 16 := v])
  {
    assert PageOk(h, d) && PageOk(h, x);
    assert Holds(h, d, h.desc[d].page) && Holds(h, x, h.desc[x].page);
    var a := AddrOf(h, d, k) + off;
    AddrInPage(h.desc[d].page, h.home[d], k);
    WordPage(a);
    assert a / 4096 == h.desc[d].page;
    OtherPage(h.desc[x].page, h.home[x], h.frees[x], h.desc[x].freeptr, h.word, h.word[a / 16 := v], h.desc[d].page);
  }

  /** The kernel may write what it likes into its own objects. */
  lemma StoreKeeps(h: Heap, all: set<nat>, d: nat, k: nat, off: nat, v: nat)
    requires HeapOk(h, all) && IsLive(h, d, k) && off < SizeOf(h.home[d])
    ensures (AddrOf(h, d, k) + off) / 16 < |h.word|
    ensures var h' := Heap(h.word[(AddrOf(h, d, k) + off) / 16 := v], h.desc, h.home, h.frees, h.freePages, h.descPages);
      HeapOk(h', all) && Live(h') == Live(h)
  {
    assert PageOk(h, d);
    StoreApart(h.desc[d].page, h.home[d], h.frees[d], h.desc[d].freeptr, h.word, k, off, v);
    var h' := Heap(h.word[(AddrOf(h, d, k) + off) / 16 := v], h.desc, h.home, h.frees, h.freePages, h.descPages);
    forall x: nat | Used(h', x) ensures PageOk(h', x) {
      assert PageOk(h, x);
      if x != d { StoreElsewhere(h, all, d, k, off, x, v); }
    }
    assert forall x: nat, p: nat :: Holds(h', x, p) <==> Holds(h, x, p);
    assert forall p: nat :: HasHolder(h', p) <==> HasHolder(h, p);
    SameLive(h, h');
  }

  lemma SameLive(h: Heap, h': Heap)
    requires forall x: nat, y: nat :: IsLive(h', x, y) <==> IsLive(h, x, y)
    requires forall x: nat, y: nat :: IsLive(h, x, y) && IsLive(h', x, y) ==> h'.home[x] == h.home[x] && h'.desc[x].page == h.desc[x].page
    ensures Live(h') == Live(h)
  {
    forall a: nat, s: nat ensures LiveAt(h', a, s) <==> LiveAt(h, a, s) {
      if LiveAt(h, a, s) {
        var x: nat, y: nat :| IsLive(h, x, y) && a == AddrOf(h, x, y) && s == SizeOf(h.home[x]);
        assert IsLive(h', x, y);
      }
      if LiveAt(h', a, s) {
        var x: nat, y: nat :| IsLive(h', x, y) && a == AddrOf(h', x, y) && s == SizeOf(h'.home[x]);
        assert IsLive(h, x, y);
      }
    }
  }

  /** Lines 150-164: descriptor d opens a bucket of the given list on a free page. */
  function Opened(h: Heap, d: nat, b: nat, page: nat, next: int, word': seq<nat>): Heap
    requires d < |h.desc| == |h.home| == |h.frees| && b < 9
  {
    Heap(word', h.desc[d := Desc(page, next, 4096 * page, 0, SizeOf(b))], h.home[d := b], h.frees[d := AllSlots(b)],
         h.freePages - {page}, h.descPages)
  }

  lemma OpenKeeps(h: Heap, all: set<nat>, d: nat, b: nat, page: nat, next: int, word': seq<nat>)
    requires HeapOk(h, all) && d < |h.desc| && h.home[d] == FREE && b < 9 && page in h.freePages && |word'| == |h.word|
    requires forall i | 0 <= i < |h.word| && i / 256 != page :: word'[i] == h.word[i]
    requires forall k: nat | k < Slots(b) :: InOrder(page, b, word', k)
    ensures HeapOk(Opened(h, d, b, page, next, word'), all)
    ensures Live(Opened(h, d, b, page, next, word')) == Live(h)
  {
    var h' := Opened(h, d, b, page, next, word');
    NewThread(page, b, word');
    forall x: nat | Used(h', x) ensures PageOk(h', x) {
      if x != d {
        assert Used(h, x) && PageOk(h, x);
        OtherPage(h.desc[x].page, h.home[x], h.frees[x], h.desc[x].freeptr, h.word, word', page);
      }
    }
    forall x: nat, p: nat ensures Holds(h', x, p) <==> Holds(h, x, p) || (x == d && p == page) {
    }
    forall x: nat ensures !Holds(h, x, page) {
      if Used(h, x) { assert PageOk(h, x); }
    }
    assert forall p: nat :: HasHolder(h', p) <==> HasHolder(h, p) || p == page by {
      assert Holds(h', d, page);
      forall p: nat ensures HasHolder(h', p) <==> HasHolder(h, p) || p == page {
        if HasHolder(h, p) { var x: nat :| Holds(h, x, p); assert Holds(h', x, p); }
      }
    }
    assert forall y: nat :: !IsLive(h', d, y) by {
      forall y: nat ensures !IsLive(h', d, y) {
        if y < Slots(b) { assert AllSlots(b)[y] == y; }
      }
    }
    SameLive(h, h');
  }

  /** Lines 225-227: the last object is gone; descriptor and page are free again. */
  function Closed(h: Heap, d: nat, next: int): Heap
    requires d < |h.desc| == |h.home|
  {
    var e := h.desc[d];
    Heap(h.word, h.desc[d := Desc(e.page, next, e.freeptr, e.refcnt, e.size)], h.home[d := FREE], h.frees,
         h.freePages + {e.page}, h.descPages)
  }

  lemma CloseKeeps(h: Heap, all: set<nat>, d: nat, next: int)
    requires HeapOk(h, all) && Used(h, d) && h.desc[d].refcnt == 0
    ensures HeapOk(Closed(h, d, next), all) && Live(Closed(h, d, next)) == Live(h)
    ensures h.desc[d].page !in h.freePages
  {
    var h', p := Closed(h, d, next), h.desc[d].page;
    assert PageOk(h, d);
    assert Holds(h, d, p);
    forall x: nat | Used(h', x) ensures PageOk(h', x) {
      assert PageOk(h, x);
      assert h.desc[x].page == p ==> Holds(h, x, p);
    }
    assert forall x: nat, q: nat :: Holds(h', x, q) <==> Holds(h, x, q) && x != d;
    forall q: nat ensures HasHolder(h', q) <==> HasHolder(h, q) && q != p {
      if HasHolder(h, q) && q != p { var x: nat :| Holds(h, x, q); assert Holds(h', x, q); }
      if HasHolder(h', q) { var x: nat :| Holds(h', x, q); assert Holds(h, x, q); }
    }
    forall y: nat ensures !IsLive(h, d, y) {
      if IsLive(h, d, y) { Busy(h, d, y); }
    }
    SameLive(h, h');
  }

  /** A page of the free pool holds 256 more descriptors, all of them free. */
  ghost function Grown(h: Heap, page: nat, more: seq<Desc>): Heap {
    Heap(h.word, h.desc + more, h.home + FreeHomes(), h.frees + NoObjects(), h.freePages - {page}, h.descPages + {page})
  }

  ghost function FreeHomes(): (s: seq<nat>) {
    seq(256, i => FREE)
  }

  ghost function NoObjects(): (s: seq<seq<nat>>) {
    seq(256, i => [])
  }

  /** Lines 102-114: a free page becomes a page of descriptors. */
  lemma GrowPages(h: Heap, all: set<nat>, page: nat, more: seq<Desc>)
    requires HeapOk(h, all) && page in h.freePages && |more| == 256
    ensures var h' := Grown(h, page, more);
      && HeapOk(h', all) && Live(h') == Live(h)
      && forall x: nat :: Used(h', x) ==> Used(h, x) && h'.desc[x] == h.desc[x]
  {
    var h' := Grown(h, page, more);
    assert forall x: nat :: Used(h', x) <==> Used(h, x);
    assert forall x: nat | Used(h, x) :: h'.desc[x] == h.desc[x] && h'.frees[x] == h.frees[x] && h'.home[x] == h.home[x];
    forall x: nat | Used(h', x) ensures PageOk(h', x) {
      assert PageOk(h, x);
    }
    assert forall x: nat, q: nat :: Holds(h', x, q) <==> Holds(h, x, q);
    assert forall q: nat :: HasHolder(h', q) <==> HasHolder(h, q);
    SameLive(h, h');
  }

  lemma ListSizes(desc: seq<Desc>, dir: seq<int>, lists: seq<seq<nat>>, home: seq<nat>)
    requires ListsOk(desc, dir, lists, home)
    ensures |lists| == |dir| == 10 && |home| == |desc|
  {
  }

  /** Lines 105-113: each descriptor of a fresh page links to the next, the last to the old ones. */
  function FreshDescs(from: nat, last: int): (s: seq<Desc>)
    ensures |s| == 256 && forall i | 0 <= i < 256 :: s[i].next == if i < 255 then from + i + 1 else last
  {
    seq(256, i requires 0 <= i < 256 => Desc(0, if i < 255 then from + i + 1 else last, 0, 0, 0))
  }

  lemma RoomIff(h: Heap, d: nat)
    requires Used(h, d) && |h.frees| == |h.desc| && PageOk(h, d)
    ensures h.desc[d].freeptr == 0 <==> h.frees[d] == []
  {
    TakeFirst(h.desc[d].page, h.home[d], h.frees[d], h.desc[d].freeptr, h.word);
  }

  lemma NextAddr(page: nat, b: nat, j: nat)
    requires b < 9
    ensures Addr(page, b, j + 1) == Addr(page, b, j) + SizeOf(b)
  {
  }

  /** Writing the j-th link keeps the earlier ones. */
  lemma LinksBefore(page: nat, b: nat, j: nat, word: seq<nat>, word': seq<nat>, v: nat)
    requires b < 9 && 256 * page + 256 <= |word| && j < Slots(b)
    requires Addr(page, b, j) / 16 < |word| && word' == word[Addr(page, b, j) / 16 := v]
    requires forall k: nat | k < j :: InOrder(page, b, word, k)
    ensures forall k: nat | k < j :: InOrder(page, b, word', k)
    ensures LinkAt(word', Addr(page, b, j)) == v
  {
    AddrInPage(page, b, j);
    forall k: nat | k < j ensures InOrder(page, b, word', k) {
      assert InOrder(page, b, word, k);
      AddrInPage(page, b, k);
      AddrApart(page, b, k, j);
    }
  }

  // ---------------------------------------------------------------- the allocator

  /** A block, or one of the two panics: a request over 4096 bytes, or no page left. */
  datatype Result = Block(addr: nat) | TooLarge | NoMemory

  /** The bucket that wastes least. */
  ghost predicate SmallestFor(b: nat, len: nat)
    requires b < 9
  {
    len <= SizeOf(b) && forall c: nat | c < b :: SizeOf(c) < len
  }

  /** A block at addr that was not live, from the smallest bucket that fits. */
  ghost predicate Obtained(before: iset<(nat, nat)>, after: iset<(nat, nat)>, addr: nat, b: nat, len: nat)
    requires b < 9
  {
    SmallestFor(b, len) && (addr, SizeOf(b)) !in before && after == before + iset{(addr, SizeOf(b))}
  }

  /** Some bucket page for requests of this length has a free object. */
  ghost predicate HasRoom(h: Heap, len: nat) {
    exists d: nat :: Used(h, d) && h.desc[d].freeptr != 0 && Fits(h.desc[d].size, len)
  }

  /** The smallest of 16, 32, ... 4096 that is no smaller than len. */
  predicate Fits(size: nat, len: nat) {
    size in {16, 32, 64, 128, 256, 512, 1024, 2048, 4096} && len <= size && (size == 16 || size < 2 * len)
  }

  lemma SmallestFits(b: nat, len: nat)
    requires b < 9 && SmallestFor(b, len)
    ensures Fits(SizeOf(b), len) && forall c: nat | c < 9 && Fits(SizeOf(c), len) :: c == b
  {
    assert b > 0 ==> SizeOf(b - 1) < len;
  }

  /** Room in terms of the free lists. */
  lemma RoomIn(h: Heap, all: set<nat>, b: nat, len: nat)
    requires HeapOk(h, all) && b < 9 && SmallestFor(b, len)
    ensures HasRoom(h, len) <==> exists d: nat :: Used(h, d) && h.home[d] == b && h.frees[d] != []
  {
    SmallestFits(b, len);
    forall d: nat | Used(h, d) ensures h.desc[d].freeptr != 0 <==> h.frees[d] != [] {
      assert PageOk(h, d);
      RoomIff(h, d);
    }
    forall d: nat | Used(h, d) ensures Fits(h.desc[d].size, len) <==> h.home[d] == b {
      assert PageOk(h, d);
    }
  }

  /** obj is live, and its bucket is no smaller than the size the caller gives. */
  ghost predicate LiveObject(h: Heap, obj: nat, size: nat) {
    exists d: nat, k: nat :: IsLive(h, d, k) && obj == AddrOf(h, d, k) && size <= SizeOf(h.home[d])
  }

  /** The object's page has no other live object. */
  ghost predicate OnlyObject(h: Heap, obj: nat) {
    exists d: nat :: Holds(h, d, obj / 4096) && h.desc[d].refcnt == 1
  }

  lemma PageFound(h: Heap, all: set<nat>, d: nat, k: nat)
    requires HeapOk(h, all) && IsLive(h, d, k)
    ensures h.desc[d].page == AddrOf(h, d, k) / 4096 && AddrOf(h, d, k) / 16 < |h.word|
    ensures h.desc[d].refcnt > 0
    ensures OnlyObject(h, AddrOf(h, d, k)) <==> h.desc[d].refcnt == 1
  {
    assert PageOk(h, d);
    AddrInPage(h.desc[d].page, h.home[d], k);
    Busy(h, d, k);
    assert Holds(h, d, AddrOf(h, d, k) / 4096);
  }

  lemma OnePage(h: Heap, all: set<nat>, d: nat, e: nat, p: nat)
    requires HeapOk(h, all) && Used(h, d) && Used(h, e) && h.desc[d].page == p == h.desc[e].page
    ensures d == e
  {
    assert Holds(h, d, p) && Holds(h, e, p);
  }

  lemma PlaceOf(desc: seq<Desc>, dir: seq<int>, lists: seq<seq<nat>>, home: seq<nat>, d: nat) returns (i: nat)
    requires ListsOk(desc, dir, lists, home) && d < |desc|
    ensures home[d] < 10 && i < |lists[home[d]]| && lists[home[d]][i] == d
  {
    assert In(lists, home[d], d);
    i :| i < |lists[home[d]]| && lists[home[d]][i] == d;
  }

  /** The links between descriptors are no concern of the pages. */
  lemma NextOnly(h: Heap, h': Heap, all: set<nat>)
    requires HeapOk(h, all) && h'.word == h.word && h'.home == h.home && h'.frees == h.frees
    requires h'.freePages == h.freePages && h'.descPages == h.descPages && |h'.desc| == |h.desc|
    requires forall d | 0 <= d < |h.desc| :: h'.desc[d] == h.desc[d].(next := h'.desc[d].next)
    ensures HeapOk(h', all) && Live(h') == Live(h)
  {
    forall d: nat | Used(h', d) ensures PageOk(h', d) {
      assert PageOk(h, d);
    }
    assert forall d: nat, p: nat :: Holds(h', d, p) <==> Holds(h, d, p);
    assert forall p: nat :: HasHolder(h', p) <==> HasHolder(h, p);
    SameLive(h, h');
  }

  lemma HeapSizes(h: Heap, all: set<nat>)
    requires HeapOk(h, all)
    ensures |h.home| == |h.frees| == |h.desc|
    ensures forall p | p in h.freePages :: 0 < p && 256 * p + 256 <= |h.word|
  {
  }

  lemma UsedPage(h: Heap, all: set<nat>, d: nat)
    requires HeapOk(h, all) && Used(h, d)
    ensures |h.home| == |h.frees| == |h.desc| && PageOk(h, d) && h.desc[d].freeptr / 16 <= |h.word|
    ensures h.frees[d] != [] ==> h.desc[d].freeptr / 16 < |h.word|
  {
    RoomIff(h, d);
    TakeFirst(h.desc[d].page, h.home[d], h.frees[d], h.desc[d].freeptr, h.word);
  }

  class Allocator {
    const word: array<nat>
    var desc: seq<Desc>
    /** Heads of the nine chains of bucket_dir, then free_bucket_desc. */
    const dir: array<int>
    var freePages: set<nat>
    ghost var lists: seq<seq<nat>>
    ghost var home: seq<nat>
    ghost var frees: seq<seq<nat>>
    ghost var descPages: set<nat>
    ghost const all: set<nat>

    ghost function Value(): Heap
      reads this, word
    {
      Heap(word[..], desc, home, frees, freePages, descPages)
    }

    ghost predicate Sound()
      reads this, word, dir
    {
      && word as object != dir && dir.Length == 10
      && ListsOk(desc, dir[..], lists, home) && HeapOk(Value(), all)
    }

    /** Besides, a page without live objects has gone back. */
    ghost predicate Valid()
      reads this, word, dir
    {
      Sound() && forall d: nat | Used(Value(), d) :: desc[d].refcnt > 0
    }

    /** Nothing allocated yet. */
    constructor (word: array<nat>, pages: set<nat>)
      requires forall p | p in pages :: 0 < p && 256 * p + 256 <= word.Length
      ensures Valid() && this.word == word && freePages == pages == all && Live(Value()) == iset{}
    {
      this.word := word;
      desc := [];
      dir := new int[10](i => NULL);
      freePages, all := pages, pages;
      lists := seq(10, i => []);
      home, frees, descPages := [], [], {};
      new;
      assert forall b: nat, d: nat :: !In(lists, b, d);
      assert forall d: nat, p: nat :: !Holds(Value(), d, p);
      assert forall d: nat, k: nat :: !IsLive(Value(), d, k);
    }

    /** Lines 127-134: the smallest bucket that fits. */
    method FindBucket(len: nat) returns (b: nat)
      ensures b <= 9 && forall c: nat | c < b :: SizeOf(c) < len
      ensures b < 9 ==> len <= SizeOf(b)
    {
      b := 0;
      while b < 9
        invariant b <= 9 && forall c: nat | c < b :: SizeOf(c) < len
      {
        if SizeOf(b) >= len { return; }
        b := b + 1;
      }
    }

    /** Lines 139-141: a descriptor of the chain with a free object. */
    method FindRoom(b: nat) returns (d: int)
      requires Sound() && b < 9
      ensures NULL <= d < |desc| == |frees| == |home|
      ensures d != NULL ==> Used(Value(), d) && home[d] == b && frees[d] != []
      ensures d == NULL ==> forall e: nat | Used(Value(), e) && home[e] == b :: frees[e] == []
    {
      HeadOf(desc, dir[..], lists, home, b);
      d := dir[b];
      ghost var i := 0;
      ghost var h := Value();
      while d != NULL
        invariant 0 <= i <= |lists[b]| && d == (if i < |lists[b]| then lists[b][i] else NULL)
        invariant forall j | 0 <= j < i :: lists[b][j] < |desc| && frees[lists[b][j]] == []
        decreases |lists[b]| - i
      {
        LinkOf(desc, dir[..], lists, home, b, i);
        assert PageOk(h, d);
        RoomIff(h, d);
        if desc[d].freeptr != 0 { return; }
        d := desc[d].next;
        i := i + 1;
      }
      forall e: nat | Used(h, e) && home[e] == b ensures frees[e] == [] {
        assert In(lists, home[e], e);
      }
    }

    /** Lines 97-115. */
    method InitBucketDesc() returns (ok: bool)
      requires Valid()
      modifies this, dir
      ensures Valid() && Live(Value()) == old(Live(Value())) && ok == (old(freePages) != {})
      ensures !ok ==> desc == old(desc) && lists == old(lists) && freePages == old(freePages)
      ensures ok ==> |lists| == 10 && lists[FREE] != [] && freePages < old(freePages) && |freePages| == |old(freePages)| - 1
      ensures forall d: nat | Used(Value(), d) :: old(Used(Value(), d))
    {
      if freePages == {} { return false; }
      var page :| page in freePages;
      hide HeapOk, ListsOk, Live, InOrder, Used, FreshDescs, Fresh, FreeHomes, NoObjects;
      ListSizes(desc, dir[..], lists, home);
      var n, last := |desc|, dir[9];
      var more := FreshDescs(n, last);
      GrowPages(Value(), all, page, more);
      GrowKeeps(desc, desc + more, dir[..], lists, home);
      ghost var d0, h := dir[..], Value();
      desc := desc + more;
      freePages, descPages := freePages - {page}, descPages + {page};
      lists := lists[9 := Fresh(n) + lists[9]];
      home, frees := home + FreeHomes(), frees + NoObjects();
      dir[9] := n;
      assert dir[..] == d0[9 := n];
      assert Value() == Grown(h, page, more);
      ok := true;
    }

    /** Lines 159-164: the objects of a page linked in order. */
    method InitPage(page: nat, b: nat)
      requires b < 9 && 0 < page && 256 * page + 256 <= word.Length
      modifies word
      ensures forall k: nat | k < Slots(b) :: InOrder(page, b, word[..], k)
      ensures forall i | 0 <= i < word.Length && i / 256 != page :: word[i] == old(word[i])
    {
      var cp: nat := 4096 * page;
      var i := Slots(b);
      ghost var j := 0;
      while i > 1
        invariant 1 <= i && j + i == Slots(b) && cp == Addr(page, b, j)
        invariant forall k: nat | k < j :: InOrder(page, b, word[..], k)
        invariant forall m | 0 <= m < word.Length && m / 256 != page :: word[m] == old(word[m])
      {
        ghost var was := word[..];
        AddrInPage(page, b, j);
        WordPage(cp);
        var following: nat := cp + SizeOf(b);
        word[cp / 16] := following;
        assert word[..] == was[cp / 16 := following];
        LinksBefore(page, b, j, was, word[..], following);
        NextAddr(page, b, j);
        cp := following;
        i, j := i - 1, j + 1;
      }
      ghost var was := word[..];
      AddrInPage(page, b, j);
      WordPage(cp);
      word[cp / 16] := 0;
      assert word[..] == was[cp / 16 := 0];
      LinksBefore(page, b, j, was, word[..], 0);
    }

    /** Lines 150-167: a free descriptor opens a page for bucket b. */
    method OpenBucket(b: nat) returns (d: nat)
      requires Sound() && b < 9 && lists[FREE] != [] && freePages != {}
      modifies this`desc, this`freePages, this`lists, this`home, this`frees, dir, word
      ensures Sound() && Live(Value()) == old(Live(Value()))
      ensures Used(Value(), d) && home[d] == b && |frees| == |desc| && frees[d] != [] && freePages <= old(freePages)
      ensures |freePages| == |old(freePages)| - 1
      ensures forall e: nat | Used(Value(), e) && e != d :: old(Used(Value(), e)) && desc[e] == old(desc)[e]
    {
      hide HeapOk, ListsOk, Live, InOrder;
      ListSizes(desc, dir[..], lists, home);
      HeapSizes(Value(), all);
      HeadOf(desc, dir[..], lists, home, FREE);
      LinkOf(desc, dir[..], lists, home, FREE, 0);
      ghost var h := Value();
      ghost var dir0: seq<int> := dir[..];
      d := dir[9];
      dir[9] := desc[d].next;
      var page :| page in freePages;
      freePages := freePages - {page};
      InitPage(page, b);
      OpenKeeps(h, all, d, b, page, dir[b], word[..]);
      ghost var desc' := desc[d := Desc(page, dir[b], 4096 * page, 0, SizeOf(b))];
      MoveKeeps(desc, desc', dir0, lists, home, FREE, 0, b);
      desc := desc[d := Desc(page, dir[b], 4096 * page, 0, SizeOf(b))];
      dir[b] := d;
      lists := lists[FREE := Without(lists[FREE], 0)][b := [d] + lists[b]];
      home, frees := home[d := b], frees[d := AllSlots(b)];
      assert dir[..] == dir0[FREE := h.desc[d].next][b := d];
    }

    /** Lines 168-170: the first free object of descriptor d. */
    method TakeObject(d: nat) returns (addr: nat)
      requires Sound() && Used(Value(), d) && |frees| == |desc| && frees[d] != []
      requires forall e: nat | Used(Value(), e) && e != d :: desc[e].refcnt > 0
      modifies this`desc, this`frees
      ensures Valid()
      ensures (addr, SizeOf(old(home[d]))) !in old(Live(Value()))
      ensures Live(Value()) == old(Live(Value())) + iset{(addr, SizeOf(old(home[d])))}
    {
      hide HeapOk, ListsOk, Live;
      ghost var h := Value();
      UsedPage(h, all, d);
      TakeKeeps(h, all, d);
      LinksKept(desc, Taken(h, d).desc, dir[..], lists, home);
      var e := desc[d];
      addr := e.freeptr;
      desc := desc[d := Desc(e.page, e.next, word[addr / 16], e.refcnt + 1, e.size)];
      frees := frees[d := frees[d][1..]];
      assert Value() == Taken(h, d);
    }

    /** Lines 117-173. */
    method Malloc(len: nat) returns (r: Result)
      requires Valid()
      modifies this, dir, word
      ensures Valid()
      ensures r == TooLarge <==> len > 4096
      ensures r.Block? ==> exists b: nat :: b < 9 && Fits(SizeOf(b), len) && Obtained(old(Live(Value())), Live(Value()), r.addr, b, len)
      ensures !r.Block? ==> Live(Value()) == old(Live(Value()))
      ensures r == NoMemory <==>
        len <= 4096 && !old(HasRoom(Value(), len)) && |old(freePages)| < if old(dir[9]) == NULL then 2 else 1
      ensures freePages <= old(freePages)
      ensures r.Block? ==>
        |freePages| == |old(freePages)| - if old(HasRoom(Value(), len)) then 0 else if old(dir[9]) == NULL then 2 else 1
    {
      hide HeapOk, ListsOk, Live;
      ghost var before := Live(Value());
      var b := FindBucket(len);
      if b == 9 {
        assert SizeOf(8) < len;
        return TooLarge;
      }
      SmallestFits(b, len);
      RoomIn(Value(), all, b, len);
      var found := FindRoom(b);
      var d: nat;
      if found != NULL {
        d := found;
      } else {
        var ok := MakeRoom(b);
        if !ok { return NoMemory; }
        d := OpenBucket(b);
      }
      var addr := TakeObject(d);
      assert Obtained(before, Live(Value()), addr, b, len);
      r := Block(addr);
    }

    /** Lines 150-151: there is a free descriptor. */
    method MakeRoom(b: nat) returns (ok: bool)
      requires Valid() && b < 9
      modifies this, dir
      ensures Valid() && Live(Value()) == old(Live(Value())) && freePages <= old(freePages)
      ensures ok ==> freePages != {} && |lists| == 10 && lists[FREE] != []
      ensures |freePages| == |old(freePages)| - if old(dir[9]) == NULL && old(freePages) != {} then 1 else 0
      ensures ok <==> freePages != {}
    {
      hide HeapOk, ListsOk, Live;
      ListSizes(desc, dir[..], lists, home);
      HeadOf(desc, dir[..], lists, home, FREE);
      if dir[9] == NULL {
        var grown := InitBucketDesc();
      }
      ok := freePages != {};
    }

    /** Lines 189-202: the descriptor of the page of a live object, with its chain and the one before
        it there. */
    method FindPage(obj: nat, size: nat) returns (b: nat, d: nat, prev: int, ghost i: nat, ghost k: nat)
      requires Sound() && LiveObject(Value(), obj, size)
      ensures b < 9 && |lists| == 10 && i < |lists[b]| && lists[b][i] == d && prev == Prev(lists[b], i)
      ensures IsLive(Value(), d, k) && home[d] == b && AddrOf(Value(), d, k) == obj
    {
      hide HeapOk, ListsOk;
      ghost var h := Value();
      ListSizes(desc, dir[..], lists, home);
      ghost var e: nat, j: nat :| IsLive(h, e, j) && obj == AddrOf(h, e, j) && size <= SizeOf(home[e]);
      PageFound(h, all, e, j);
      ghost var at := PlaceOf(desc, dir[..], lists, home, e);
      k := j;
      var page := obj / 4096;
      b := 0;
      while b < 9
        invariant b <= home[e] < 9
        decreases 9 - b
      {
        if SizeOf(b) >= size {
          HeadOf(desc, dir[..], lists, home, b);
          prev, d, i := NULL, 0, 0;
          var x := dir[b];
          while x != NULL
            invariant i <= |lists[b]| && x == (if i < |lists[b]| then lists[b][i] else NULL)
            invariant prev == (if i > 0 && i <= |lists[b]| then lists[b][i - 1] else NULL)
            invariant b == home[e] ==> i <= at
            decreases |lists[b]| - i
          {
            LinkOf(desc, dir[..], lists, home, b, i);
            if desc[x].page == page {
              OnePage(h, all, x, e, page);
              d := x;
              return;
            }
            prev, x, i := x, desc[x].next, i + 1;
          }
        }
        b := b + 1;
      }
      assert false;
    }

    /** Lines 182-231. The size is the caller's hint, 0 when it has none. */
    method Free(obj: nat, size: nat)
      requires Valid() && LiveObject(Value(), obj, size)
      modifies this, dir, word
      ensures Valid()
      ensures exists s: nat :: (obj, s) in old(Live(Value())) && (obj, s) !in Live(Value())
                            && Live(Value()) + iset{(obj, s)} == old(Live(Value()))
      ensures freePages == if OnlyObject(old(Value()), obj) then old(freePages) + {obj / 4096} else old(freePages)
      ensures OnlyObject(old(Value()), obj) ==> obj / 4096 !in old(freePages)
    {
      hide HeapOk, ListsOk, Live;
      var b, d, prev;
      ghost var i, k;
      b, d, prev, i, k := FindPage(obj, size);
      ghost var h := Value();
      HeapSizes(h, all);
      PutKeeps(h, all, d, k);
      LinksKept(desc, PutBack(h, d, k).desc, dir[..], lists, home);
      PageFound(h, all, d, k);
      var e := desc[d];
      word[obj / 16] := e.freeptr;
      desc := desc[d := Desc(e.page, e.next, obj, e.refcnt - 1, e.size)];
      frees := frees[d := [k] + frees[d]];
      assert word[..] == h.word[obj / 16 := e.freeptr];
      assert Value() == PutBack(h, d, k);
      if desc[d].refcnt == 0 {
        CloseBucket(b, d, prev, i);
      }
    }

    /** Lines 218-227; nothing ran in between, so `prev` is still the one before. */
    method CloseBucket(b: nat, d: nat, prev: int, ghost i: nat)
      requires Sound() && b < 9 && |lists| == 10 && i < |lists[b]| && lists[b][i] == d && prev == Prev(lists[b], i)
      requires Used(Value(), d) && desc[d].refcnt == 0
      requires forall e: nat | Used(Value(), e) && e != d :: desc[e].refcnt > 0
      modifies this`desc, this`freePages, this`lists, this`home, dir
      ensures Valid() && Live(Value()) == old(Live(Value()))
      ensures freePages == old(freePages) + {old(desc)[d].page} && old(desc)[d].page !in old(freePages)
    {
      hide HeapOk, ListsOk, Live;
      ghost var h := Value();
      ghost var dir0: seq<int> := dir[..];
      HeapSizes(h, all);
      ListSizes(desc, dir0, lists, home);
      HeadOf(desc, dir0, lists, home, b);
      LinkOf(desc, dir0, lists, home, b, i);
      var e := desc[d];
      if prev != NULL {
        LinkOf(desc, dir0, lists, home, b, i - 1);
        var p := desc[prev];
        desc := desc[prev := Desc(p.page, e.next, p.freeptr, p.refcnt, p.size)];
      } else {
        dir[b] := e.next;
      }
      freePages := freePages + {e.page};
      desc := desc[d := Desc(e.page, dir[9], e.freeptr, e.refcnt, e.size)];
      dir[9] := d;
      MoveKeeps(h.desc, desc, dir0, lists, home, b, i, FREE);
      CloseKeeps(h, all, d, dir0[9]);
      lists := lists[b := Without(lists[b], i)][FREE := [d] + lists[FREE]];
      home := home[d := FREE];
      assert dir[..] == dir0[b := if i == 0 then e.next else dir0[b]][FREE := d];
      NextOnly(Closed(h, d, dir0[9]), Value(), all);
    }
  }
}

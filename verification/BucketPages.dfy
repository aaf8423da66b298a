/** One bucket page of lib/malloc.c: objects of one size, the free ones threaded through their own
    first words. Words are 16 bytes apart, which is how far two allocator links are at least. */
module BucketPages {
  import opened LinkedLists

  /** Lines 77-86: 16, 32, ... 4096. */
  function SizeOf(b: nat): (s: nat)
    requires b < 9
    ensures 16 <= s <= 4096
  {
    match b
    case 0 => 16 case 1 => 32 case 2 => 64 case 3 => 128 case 4 => 256
    case 5 => 512 case 6 => 1024 case 7 => 2048 case _ => 4096
  }

  /** PAGE_SIZE / size. */
  function Slots(b: nat): (n: nat)
    requires b < 9
    ensures 1 <= n <= 256 && n * SizeOf(b) == 4096
  {
    match b
    case 0 => 256 case 1 => 128 case 2 => 64 case 3 => 32 case 4 => 16
    case 5 => 8 case 6 => 4 case 7 => 2 case _ => 1
  }

  /** The k-th object of a page. */
  function Addr(page: nat, b: nat, k: nat): nat
    requires b < 9
  {
    4096 * page + SizeOf(b) * k
  }

  /** Objects of a page lie inside it, on link boundaries, and apart. */
  lemma AddrInPage(page: nat, b: nat, k: nat)
    requires b < 9 && k < Slots(b)
    ensures 4096 * page <= Addr(page, b, k) && Addr(page, b, k) + SizeOf(b) <= 4096 * page + 4096
    ensures Addr(page, b, k) / 4096 == page && Addr(page, b, k) % 16 == 0
  {
  }

  lemma AddrApart(page: nat, b: nat, j: nat, k: nat)
    requires b < 9 && j < Slots(b) && k < Slots(b) && j != k
    ensures Addr(page, b, j) + SizeOf(b) <= Addr(page, b, k) || Addr(page, b, k) + SizeOf(b) <= Addr(page, b, j)
  {
  }

  /** Objects on different pages are apart. */
  lemma PagesApart(p: nat, b: nat, j: nat, q: nat, c: nat, k: nat)
    requires b < 9 && c < 9 && j < Slots(b) && k < Slots(c) && p != q
    ensures Addr(p, b, j) + SizeOf(b) <= Addr(q, c, k) || Addr(q, c, k) + SizeOf(c) <= Addr(p, b, j)
  {
    AddrInPage(p, b, j);
    AddrInPage(q, c, k);
  }

  /** The link stored in an object; 0 is NULL. */
  function LinkAt(word: seq<nat>, addr: nat): nat {
    if addr / 16 < |word| then word[addr / 16] else 0
  }

  function NextFree(page: nat, b: nat, free: seq<nat>, i: nat): nat
    requires b < 9 && i <= |free|
  {
    if i < |free| then Addr(page, b, free[i]) else 0
  }

  /** `free` lists the free objects from freeptr on. */
  ghost predicate Threaded(page: nat, b: nat, free: seq<nat>, freeptr: nat, word: seq<nat>)
    requires b < 9
  {
    && 0 < page && 256 * page + 256 <= |word|
    && Distinct(free) && InTable(free, Slots(b))
    && freeptr == NextFree(page, b, free, 0)
    && forall i | 0 <= i < |free| :: LinkAt(word, Addr(page, b, free[i])) == NextFree(page, b, free, i + 1)
  }

  lemma ThreadedFrame(page: nat, b: nat, free: seq<nat>, freeptr: nat, word: seq<nat>, word': seq<nat>)
    requires b < 9 && Threaded(page, b, free, freeptr, word) && |word'| == |word|
    requires forall k: nat | k < Slots(b) && k in free :: LinkAt(word', Addr(page, b, k)) == LinkAt(word, Addr(page, b, k))
    ensures Threaded(page, b, free, freeptr, word')
  {
    assert forall i | 0 <= i < |free| :: free[i] in free;
  }

  /** Words of other pages do not matter. */
  lemma OtherPage(page: nat, b: nat, free: seq<nat>, freeptr: nat, word: seq<nat>, word': seq<nat>, p: nat)
    requires b < 9 && Threaded(page, b, free, freeptr, word) && |word'| == |word| && p != page
    requires forall i | 0 <= i < |word| && i / 256 != p :: word'[i] == word[i]
    ensures Threaded(page, b, free, freeptr, word')
  {
    forall k: nat | k < Slots(b) && k in free ensures LinkAt(word', Addr(page, b, k)) == LinkAt(word, Addr(page, b, k)) {
      AddrInPage(page, b, k);
      WordPage(Addr(page, b, k));
    }
    ThreadedFrame(page, b, free, freeptr, word, word');
  }

  lemma WordPage(addr: nat)
    ensures addr / 16 / 256 == addr / 4096
  {
  }

  /** Lines 160-164: the k-th object links to the next, the last to nothing. */
  predicate InOrder(page: nat, b: nat, word: seq<nat>, k: nat)
    requires b < 9
  {
    LinkAt(word, Addr(page, b, k)) == if k + 1 < Slots(b) then Addr(page, b, k + 1) else 0
  }

  /** A fresh bucket page threads all its objects in order. */
  lemma NewThread(page: nat, b: nat, word: seq<nat>)
    requires b < 9 && 0 < page && 256 * page + 256 <= |word|
    requires forall k: nat | k < Slots(b) :: InOrder(page, b, word, k)
    ensures Threaded(page, b, AllSlots(b), 4096 * page, word)
  {
    var free := AllSlots(b);
    forall i | 0 <= i < |free| ensures LinkAt(word, Addr(page, b, free[i])) == NextFree(page, b, free, i + 1) {
      assert InOrder(page, b, word, free[i]);
    }
  }

  /** Taking the first free object: lines 168-169. */
  lemma TakeFirst(page: nat, b: nat, free: seq<nat>, freeptr: nat, word: seq<nat>)
    requires b < 9 && Threaded(page, b, free, freeptr, word)
    ensures freeptr == 0 <==> free == []
    ensures free != [] ==> freeptr / 16 < |word| && Threaded(page, b, free[1..], LinkAt(word, freeptr), word)
  {
    if free != [] {
      AddrInPage(page, b, free[0]);
      forall i | 0 <= i < |free[1..]|
        ensures LinkAt(word, Addr(page, b, free[1..][i])) == NextFree(page, b, free[1..], i + 1)
      {
        assert free[1..][i] == free[i + 1];
      }
    }
  }

  /** Putting an object in front: lines 205-206. */
  lemma PutFirst(page: nat, b: nat, free: seq<nat>, freeptr: nat, word: seq<nat>, k: nat)
    requires b < 9 && Threaded(page, b, free, freeptr, word) && k < Slots(b) && k !in free
    ensures Addr(page, b, k) / 16 < |word|
    ensures Threaded(page, b, [k] + free, Addr(page, b, k), word[Addr(page, b, k) / 16 := freeptr])
  {
    AddrInPage(page, b, k);
    var word', free' := word[Addr(page, b, k) / 16 := freeptr], [k] + free;
    forall i | 0 <= i < |free'| ensures LinkAt(word', Addr(page, b, free'[i])) == NextFree(page, b, free', i + 1) {
      if i > 0 {
        assert free'[i] == free[i - 1] && free[i - 1] in free;
        AddrInPage(page, b, free[i - 1]);
        AddrApart(page, b, free[i - 1], k);
      }
    }
  }

  /** A store inside an object that is not free leaves the free list alone. */
  lemma StoreApart(page: nat, b: nat, free: seq<nat>, freeptr: nat, word: seq<nat>, k: nat, off: nat, v: nat)
    requires b < 9 && Threaded(page, b, free, freeptr, word) && k < Slots(b) && k !in free && off < SizeOf(b)
    ensures (Addr(page, b, k) + off) / 16 < |word|
    ensures Threaded(page, b, free, freeptr, word[(Addr(page, b, k) + off) / 16 := v])
  {
    AddrInPage(page, b, k);
    var word' := word[(Addr(page, b, k) + off) / 16 := v];
    forall j: nat | j < Slots(b) && j in free ensures LinkAt(word', Addr(page, b, j)) == LinkAt(word, Addr(page, b, j)) {
      AddrInPage(page, b, j);
      AddrApart(page, b, j, k);
    }
    ThreadedFrame(page, b, free, freeptr, word, word');
  }

  /** All objects of a page, in order. */
  function AllSlots(b: nat): (s: seq<nat>)
    requires b < 9
    ensures |s| == Slots(b) && forall i | 0 <= i < |s| :: s[i] == i
  {
    seq(Slots(b), i => i)
  }

  /** The live objects of a page are as many as its free list is short. */
  lemma LiveCount(b: nat, free: seq<nat>, live: set<nat>)
    requires b < 9 && Distinct(free) && InTable(free, Slots(b))
    requires live == set k: nat | k in AllSlots(b) && k !in free
    ensures |live| == Slots(b) - |free|
  {
    var all := set k: nat | k in AllSlots(b);
    var f := set k: nat | k in free;
    DistinctCount(AllSlots(b));
    DistinctCount(free);
    assert f <= all by {
      forall k: nat | k in free ensures k in AllSlots(b) { assert AllSlots(b)[k] == k; }
    }
    assert live == all - f;
  }

  lemma {:induction false} DistinctCount(free: seq<nat>)
    requires Distinct(free)
    ensures |set k: nat | k in free| == |free|
  {
    if free != [] {
      DistinctCount(free[1..]);
      assert free == [free[0]] + free[1..];
      assert free[0] !in free[1..];
      assert (set k: nat | k in free) == (set k: nat | k in free[1..]) + {free[0]};
    } else {
      assert (set k: nat | k in free) == {};
    }
  }
}

/** The cache index of fs/buffer.c: every buffer is in one ring in order of release, and a buffer
    with a device is in the hash chain of its (device, block). */
module BufferIndex {
  import opened LinkedLists

  const NR_HASH: nat := 307

  /** Line 131. */
  function Hash(key: Key): (h: nat)
    ensures h < NR_HASH
  {
    ((key.dev ^ key.block) as nat) % NR_HASH
  }

  datatype Key = Key(dev: bv32, block: bv32)

  datatype Index = Index(key: seq<Key>, table: seq<int>, next: seq<int>, prev: seq<int>)

  predicate SizesOk(t: Index) {
    |t.table| == NR_HASH && |t.next| == |t.prev| == |t.key|
  }

  predicate Keyed(t: Index, b: nat) {
    b < |t.key| && t.key[b].dev != 0
  }

  function HashOf(t: Index, b: nat): (h: nat)
    requires SizesOk(t) && b < |t.key|
    ensures h < NR_HASH
  {
    Hash(t.key[b])
  }

  predicate In(chains: seq<seq<nat>>, h: nat, b: nat)
    requires h < |chains|
  {
    b in chains[h]
  }

  /** Each keyed buffer but `out` is in exactly the chain of its own hash; a buffer without a
      device is in none. */
  ghost predicate IndexOk(t: Index, chains: seq<seq<nat>>, out: int) {
    && SizesOk(t) && |chains| == NR_HASH
    && (forall h | 0 <= h < NR_HASH :: IsChain(chains[h], t.table[h], t.next, t.prev))
    && (forall h: nat, b: nat | h < NR_HASH && In(chains, h, b) :: Keyed(t, b) && HashOf(t, b) == h && b != out)
    && (forall b: nat | b < |t.key| && b != out && Keyed(t, b) :: In(chains, HashOf(t, b), b))
    && (forall b | 0 <= b < |t.key| && b != out && t.key[b].dev == 0 :: t.next[b] == NULL && t.prev[b] == NULL)
  }

  /** At most one buffer for a device block. */
  ghost predicate OnePerBlock(key: seq<Key>) {
    forall a, b | 0 <= a < b < |key| && key[a].dev != 0 :: key[a] != key[b]
  }

  lemma Place(c: seq<nat>, b: nat) returns (k: nat)
    requires b in c
    ensures k < |c| && c[k] == b
  {
    k :| 0 <= k < |c| && c[k] == b;
  }

  // Lines 137-142 on the whole index.
  function Unhashed(t: Index, b: nat): Index
    requires SizesOk(t) && b < |t.key| && NULL <= t.next[b] < |t.key| && NULL <= t.prev[b] < |t.key|
  {
    var h := HashOf(t, b);
    Index(t.key, if t.table[h] == b then t.table[h := t.next[b]] else t.table,
          Set(t.next, t.prev[b], t.next[b]), Set(t.prev, t.next[b], t.prev[b]))
  }

  ghost function ChainsWithout(t: Index, chains: seq<seq<nat>>, b: nat): (c: seq<seq<nat>>)
    requires SizesOk(t) && b < |t.key| && |chains| == NR_HASH
    ensures |c| == NR_HASH
  {
    var h := HashOf(t, b);
    if In(chains, h, b) then
      var k :| 0 <= k < |chains[h]| && chains[h][k] == b;
      chains[h := Without(chains[h], k)]
    else chains
  }

  lemma NoneLinked(t: Index, chains: seq<seq<nat>>, b: nat)
    requires IndexOk(t, chains, NULL) && b < |t.key|
    ensures NULL <= t.next[b] < |t.key| && NULL <= t.prev[b] < |t.key|
    ensures t.key[b].dev == 0 ==> t.table[HashOf(t, b)] != b && !In(chains, HashOf(t, b), b)
    ensures t.key[b].dev != 0 ==> In(chains, HashOf(t, b), b)
  {
    var h := HashOf(t, b);
    if t.key[b].dev != 0 {
      assert Keyed(t, b);
      var k := Place(chains[h], b);
      ChainAt(chains[h], t.table[h], t.next, t.prev, k);
    } else {
      assert !Keyed(t, b) && !In(chains, h, b);
      assert chains[h] != [] ==> In(chains, h, chains[h][0]);
    }
  }

  /** The neighbours of a member are members. */
  lemma Neighbours(c: seq<nat>, head: int, nx: seq<int>, pv: seq<int>, k: nat)
    requires IsChain(c, head, nx, pv) && k < |c|
    ensures c[k] < |nx| && (nx[c[k]] == NULL || nx[c[k]] in c) && (pv[c[k]] == NULL || pv[c[k]] in c)
  {
    ChainAt(c, head, nx, pv, k);
  }

  /** The other chains do not see a change to a member of this one. */
  lemma OtherChain(t: Index, chains: seq<seq<nat>>, h: nat, g: nat, nx': seq<int>, pv': seq<int>, out: int)
    requires IndexOk(t, chains, out) && h < NR_HASH && g < NR_HASH && g != h
    requires |nx'| == |t.next| && |pv'| == |t.prev|
    requires forall a | 0 <= a < |t.next| && a !in chains[h] && a != out :: nx'[a] == t.next[a] && pv'[a] == t.prev[a]
    ensures IsChain(chains[g], t.table[g], nx', pv')
  {
    var c := chains[g];
    forall i | 0 <= i < |c| ensures nx'[c[i]] == t.next[c[i]] && pv'[c[i]] == t.prev[c[i]] {
      assert In(chains, g, c[i]);
      assert !In(chains, h, c[i]);
      assert c[i] !in chains[h];
    }
    ChainFrame(c, t.table[g], t.next, t.prev, nx', pv');
  }

  lemma UnhashKeeps(t: Index, chains: seq<seq<nat>>, b: nat)
    requires IndexOk(t, chains, NULL) && b < |t.key|
    ensures |chains| == NR_HASH && NULL <= t.next[b] < |t.key| && NULL <= t.prev[b] < |t.key|
    ensures IndexOk(Unhashed(t, b), ChainsWithout(t, chains, b), b)
  {
    NoneLinked(t, chains, b);
    var h := HashOf(t, b);
    var u := Unhashed(t, b);
    if t.key[b].dev != 0 {
      var k: nat :| k < |chains[h]| && chains[h][k] == b && ChainsWithout(t, chains, b) == chains[h := Without(chains[h], k)];
      UnhashKeyed(t, chains, b, k);
    } else {
      assert u == t;
      assert forall g: nat | g < NR_HASH :: !In(chains, g, b) by {
        forall g: nat | g < NR_HASH ensures !In(chains, g, b) { assert !Keyed(t, b); }
      }
    }
  }

  lemma UnhashKeyed(t: Index, chains: seq<seq<nat>>, b: nat, k: nat)
    requires IndexOk(t, chains, NULL) && b < |t.key| && t.key[b].dev != 0
    requires k < |chains[HashOf(t, b)]| && chains[HashOf(t, b)][k] == b
    requires NULL <= t.next[b] < |t.key| && NULL <= t.prev[b] < |t.key|
    ensures IndexOk(Unhashed(t, b), chains[HashOf(t, b) := Without(chains[HashOf(t, b)], k)], b)
  {
    var h := HashOf(t, b);
    var c := chains[h];
    var u, chains' := Unhashed(t, b), chains[h := Without(c, k)];
    Neighbours(c, t.table[h], t.next, t.prev, k);
    ChainRemove(c, t.table[h], t.next, t.prev, k);
    WithoutDistinct(c, k, |t.key|);
    forall g | 0 <= g < NR_HASH ensures IsChain(chains'[g], u.table[g], u.next, u.prev) {
      if g != h {
        OtherChain(t, chains, h, g, u.next, u.prev, NULL);
        assert b !in chains[g] by { assert !In(chains, g, b); }
        assert chains[g] != [] ==> In(chains, g, chains[g][0]);
      }
    }
    forall g: nat, a: nat | g < NR_HASH && In(chains', g, a) ensures Keyed(u, a) && HashOf(u, a) == g && a != b {
      assert In(chains, g, a);
    }
    forall a: nat | a < |u.key| && a != b && Keyed(u, a) ensures In(chains', HashOf(u, a), a) {
      assert Keyed(t, a) && In(chains, HashOf(t, a), a);
    }
    forall a | 0 <= a < |u.key| && a != b && u.key[a].dev == 0 ensures u.next[a] == NULL && u.prev[a] == NULL {
      assert !Keyed(t, a) && !In(chains, h, a);
      assert a !in c;
    }
  }

  // Lines 160-166, with a null test added at line 166.
  function Hashed(t: Index, b: nat, key: Key): Index
    requires SizesOk(t) && b < |t.key| && (forall h | 0 <= h < NR_HASH :: NULL <= t.table[h] < |t.key|)
  {
    var keys := t.key[b := key];
    if key.dev == 0 then Index(keys, t.table, t.next[b := NULL], t.prev[b := NULL])
    else
      var h := Hash(key);
      Index(keys, t.table[h := b], t.next[b := t.table[h]], Set(t.prev[b := NULL], t.table[h], b))
  }

  ghost function ChainsWith(chains: seq<seq<nat>>, b: nat, key: Key): (c: seq<seq<nat>>)
    requires |chains| == NR_HASH
    ensures |c| == NR_HASH
  {
    var h := Hash(key);
    if key.dev == 0 then chains else chains[h := [b] + chains[h]]
  }

  lemma HeadsInTable(t: Index, chains: seq<seq<nat>>, out: int)
    requires IndexOk(t, chains, out)
    ensures forall h | 0 <= h < NR_HASH :: NULL <= t.table[h] < |t.key|
  {
    forall h | 0 <= h < NR_HASH ensures NULL <= t.table[h] < |t.key| {
      assert IsChain(chains[h], t.table[h], t.next, t.prev);
    }
  }

  lemma HashKeeps(t: Index, chains: seq<seq<nat>>, b: nat, key: Key)
    requires IndexOk(t, chains, b) && b < |t.key|
    ensures |chains| == NR_HASH && forall h | 0 <= h < NR_HASH :: NULL <= t.table[h] < |t.key|
    ensures IndexOk(Hashed(t, b, key), ChainsWith(chains, b, key), NULL)
  {
    HeadsInTable(t, chains, b);
    var u, chains', h := Hashed(t, b, key), ChainsWith(chains, b, key), Hash(key);
    assert b !in chains[h] by { assert !In(chains, h, b); }
    if key.dev != 0 { ChainInsert(chains[h], t.table[h], t.next, t.prev, b); }
    assert chains[h] != [] ==> In(chains, h, chains[h][0]);
    forall g | 0 <= g < NR_HASH ensures IsChain(chains'[g], u.table[g], u.next, u.prev) {
      if g != h {
        OtherChain(t, chains, h, g, u.next, u.prev, b);
      } else if key.dev == 0 {
        OtherChain(t, chains, if h == 0 then 1 else 0, g, u.next, u.prev, b);
      }
    }
    forall g: nat, a: nat | g < NR_HASH && In(chains', g, a) ensures Keyed(u, a) && HashOf(u, a) == g {
      if a == b { assert !In(chains, g, b); } else { assert In(chains, g, a); }
    }
    forall a: nat | a < |u.key| && Keyed(u, a) ensures In(chains', HashOf(u, a), a) {
      if a != b { assert Keyed(t, a) && In(chains, HashOf(t, a), a); }
    }
    forall a | 0 <= a < |u.key| && u.key[a].dev == 0 ensures u.next[a] == NULL && u.prev[a] == NULL {
      if a != b { assert !Keyed(t, a) && !In(chains, h, a); assert a !in chains[h]; }
    }
  }

  /** The key of a buffer that is in no chain is nobody else's concern. */
  lemma OutKeyFree(t: Index, chains: seq<seq<nat>>, b: nat, key: Key)
    requires IndexOk(t, chains, b) && b < |t.key|
    ensures IndexOk(Index(t.key[b := key], t.table, t.next, t.prev), chains, b)
  {
    var u := Index(t.key[b := key], t.table, t.next, t.prev);
    forall h: nat, a: nat | h < NR_HASH && In(chains, h, a) ensures Keyed(u, a) && HashOf(u, a) == h && a != b {
      assert Keyed(t, a) && HashOf(t, a) == h;
    }
    forall a: nat | a < |u.key| && a != b && Keyed(u, a) ensures In(chains, HashOf(u, a), a) {
      assert Keyed(t, a);
    }
  }

  /** find_buffer succeeds exactly when some buffer has the key. */
  lemma ChainFinds(t: Index, chains: seq<seq<nat>>, key: Key)
    requires IndexOk(t, chains, NULL) && key.dev != 0
    requires forall i | 0 <= i < |chains[Hash(key)]| ::
      var b := chains[Hash(key)][i]; b < |t.key| && !(t.key[b] == key)
    ensures forall b | 0 <= b < |t.key| :: !(t.key[b] == key)
  {
    forall b | 0 <= b < |t.key| ensures !(t.key[b] == key) {
      if t.key[b].dev != 0 {
        assert Keyed(t, b) && In(chains, HashOf(t, b), b);
        var k := Place(chains[HashOf(t, b)], b);
      }
    }
  }
}

module BufferCache {
  import opened LinkedLists
  import opened BufferIndex

  function Counting(n: nat): seq<nat> {
    seq(n, i => i)
  }

  lemma FreshRing(n: nat, nf: seq<int>, pf: seq<int>)
    requires |nf| == |pf| == n > 0
    requires forall i | 0 <= i < n :: nf[i] == if i + 1 < n then i + 1 else 0
    requires forall i | 0 <= i < n :: pf[i] == if i > 0 then i - 1 else n - 1
    ensures IsRing(Counting(n), 0, nf, pf)
    ensures forall b: nat | b < n :: b in Counting(n)
    ensures NULL !in Counting(n)
  {
    var r := Counting(n);
    forall b: nat | b < n ensures b in r {
      assert r[b] == b;
    }
    forall i | 0 <= i < n ensures RingLink(r, nf, pf, i) {
      assert r[i] == i;
    }
  }

  function NoChains(): seq<seq<nat>> {
    seq(NR_HASH, i => [])
  }

  lemma FreshIndex(n: nat, t: Index)
    requires SizesOk(t) && |t.key| == n
    requires (forall h | 0 <= h < NR_HASH :: t.table[h] == NULL)
    requires forall b | 0 <= b < n :: t.key[b].dev == 0 && t.next[b] == NULL && t.prev[b] == NULL
    ensures IndexOk(t, NoChains(), NULL) && OnePerBlock(t.key)
  {
    var chains := NoChains();
    assert forall h: nat, b: nat | h < NR_HASH :: !In(chains, h, b);
  }

  datatype State = State(count: nat, dirt: bool, lock: bool, uptodate: bool)

  /** Line 208: dirty weighs more than locked. */
  function Badness(s: State): (n: nat) {
    (if s.dirt then 2 else 0) + if s.lock then 1 else 0
  }

  /** In ring order, the i-th buffer is the best of the first n idle ones. */
  ghost predicate BestOf(ring: seq<nat>, state: seq<State>, n: nat, i: nat)
    requires i < n <= |ring| && InTable(ring, |state|)
  {
    && state[ring[i]].count == 0
    && (forall j | 0 <= j < n && state[ring[j]].count == 0 :: Badness(state[ring[i]]) <= Badness(state[ring[j]]))
    && (forall j | 0 <= j < i && state[ring[j]].count == 0 :: Badness(state[ring[i]]) < Badness(state[ring[j]]))
  }

  /** The first n buffers in ring order are seen: none of them is idle, or b, at place i, is the best. */
  ghost predicate Scanned(ring: seq<nat>, state: seq<State>, n: nat, b: int, i: nat)
    requires n <= |ring| && InTable(ring, |state|)
  {
    if b == NULL then forall j | 0 <= j < n :: state[ring[j]].count > 0
    else i < n && ring[i] == b && BestOf(ring, state, n, i)
  }

  /** Whether the scan prefers buffer a to the best so far. */
  predicate Prefers(state: seq<State>, a: nat, b: int)
    requires a < |state| && b < |state|
  {
    state[a].count == 0 && (b < 0 || Badness(state[a]) < Badness(state[b]))
  }

  lemma ScanBegins(ring: seq<nat>, state: seq<State>)
    requires InTable(ring, |state|)
    ensures Scanned(ring, state, 0, NULL, 0)
  {
  }

  lemma ScanStep(ring: seq<nat>, state: seq<State>, n: nat, b: int, i: nat)
    requires n < |ring| && InTable(ring, |state|) && NULL <= b < |state| && Scanned(ring, state, n, b, i)
    ensures ring[n] < |state|
    ensures Prefers(state, ring[n], b) ==> Scanned(ring, state, n + 1, ring[n], n)
    ensures !Prefers(state, ring[n], b) ==> Scanned(ring, state, n + 1, b, i)
  {
  }

  /** An unlocked clean buffer ends the scan. */
  lemma ScanEnds(ring: seq<nat>, state: seq<State>, n: nat, b: nat, i: nat)
    requires n <= |ring| && InTable(ring, |state|) && b < |state| && Scanned(ring, state, n, b, i) && Badness(state[b]) == 0
    ensures Scanned(ring, state, |ring|, b, i)
  {
  }

  /** Where getblk stands when it returns, or at one of its sleep points. */
  datatype Progress = Got(b: nat) | AwaitHit(b: nat) | AwaitVictim(b: nat) | AwaitIdle | MustSync(b: nat) | Repeat

  class Cache {
    const key: array<Key>
    const state: array<State>
    const next: array<int>
    const prev: array<int>
    const nextFree: array<int>
    const prevFree: array<int>
    const hashTable: array<int>
    var freeList: int
    /** The free list from its head on, and the chain of each hash. */
    ghost var ring: seq<nat>
    ghost var chains: seq<seq<nat>>

    ghost function Repr(): set<object> {
      {key as object, state, next, prev, nextFree, prevFree, hashTable}
    }

    ghost function Value(): Index
      reads this, Repr()
      requires Shape()
    {
      Index(key[..], hashTable[..], next[..], prev[..])
    }

    ghost predicate Shape()
      reads this, Repr()
    {
      && key.Length == state.Length == next.Length == prev.Length == nextFree.Length == prevFree.Length
      && hashTable.Length == NR_HASH
      && next != prev && next != nextFree && next != prevFree && next != hashTable && prev != nextFree
      && prev != prevFree && prev != hashTable && nextFree != prevFree && nextFree != hashTable
      && prevFree != hashTable && {key as object, state} !! {next as object, prev, nextFree, prevFree, hashTable}
      && key as object != state
    }

    /** Structure with one buffer possibly between queues. */
    ghost predicate Linked(out: int)
      reads this, Repr()
    {
      && Shape()
      && IndexOk(Value(), chains, out)
      && IsRing(ring, freeList, nextFree[..], prevFree[..])
      && (forall b: nat | b < key.Length && b != out :: b in ring)
      && out !in ring
    }

    ghost predicate Valid()
      reads this, Repr()
    {
      && Linked(NULL)
      && OnePerBlock(key[..])
    }

    /** Lines 351-384, for a table of n buffers. */
    constructor (n: nat)
      requires n >= 2
      ensures Valid() && fresh(Repr())
      ensures key.Length == n && ring == Counting(n)
      ensures forall b | 0 <= b < n :: key[b].dev == 0 && state[b] == State(0, false, false, false)
    {
      hide IndexOk, IsRing, Hash, OnePerBlock, NoChains, Counting;
      key := new Key[n](i => Key(0, 0));
      state := new State[n](i => State(0, false, false, false));
      next := new int[n](i => NULL);
      prev := new int[n](i => NULL);
      nextFree := new int[n](i => if i + 1 < n then i + 1 else 0);
      prevFree := new int[n](i => if i > 0 then i - 1 else n - 1);
      hashTable := new int[NR_HASH](i => NULL);
      freeList := 0;
      ring := Counting(n);
      chains := NoChains();
      new;
      assert Shape();
      FreshRing(n, nextFree[..], prevFree[..]);
      ghost var t := Value();
      assert t.table == hashTable[..] && t.next == next[..] && t.prev == prev[..] && t.key == key[..];
      FreshIndex(n, t);
    }

    /** Lines 169-177: the buffer that caches the block, NULL when none does. */
    method FindBuffer(k: Key) returns (b: int)
      requires Valid()
      ensures NULL <= b < key.Length
      ensures b != NULL ==> k.dev != 0 && key[b] == k
      ensures b == NULL && k.dev != 0 ==> forall a | 0 <= a < key.Length :: key[a] != k
    {
      ghost var h := Hash(k);
      ghost var i := 0;
      ghost var c := chains[h];
      ghost var t := Value();
      assert IsChain(c, t.table[h], t.next, t.prev);
      b := hashTable[Hash(k)];
      while b != NULL
        invariant 0 <= i <= |c| && b == (if i < |c| then c[i] else NULL)
        invariant forall j | 0 <= j < i :: c[j] < key.Length && key[c[j]] != k
        decreases |c| - i
      {
        assert In(chains, h, b);
        assert Keyed(t, b);
        if key[b] == k { return; }
        ChainAt(c, t.table[h], t.next, t.prev, i);
        b := next[b];
        i := i + 1;
      }
      if k.dev != 0 { ChainFinds(t, chains, k); }
    }

    /** Buffer b is i-th in the ring, and every idle one before it is worse: dirty where b is clean, or
        locked where b is not and as clean or dirty as b. */
    ghost predicate FirstBest(i: nat, b: int)
      reads this, Repr()
      requires InTable(ring, state.Length)
    {
      i < |ring| && ring[i] == b &&
      forall j | 0 <= j < i && state[ring[j]].count == 0 ::
        var (x, y) := (state[ring[j]], state[ring[i]]); (x.dirt && !y.dirt) || (x.dirt == y.dirt && x.lock && !y.lock)
    }

    /** No idle buffer is better: a dirty one is worse than any clean one, and a locked one than an unlocked. */
    lemma IdleIsBest(b: nat)
      requires Valid() && InTable(ring, key.Length)
      requires exists i | 0 <= i < |ring| :: ring[i] == b && BestOf(ring, state[..], |ring|, i)
      ensures b < key.Length && state[b].count == 0
      ensures state[b].dirt ==> forall a | 0 <= a < key.Length && state[a].count == 0 :: state[a].dirt
      ensures state[b].lock ==>
        forall a | 0 <= a < key.Length && state[a].count == 0 :: state[a].lock || (state[a].dirt && !state[b].dirt)
    {
      hide IsRing, IndexOk, Hash, OnePerBlock;
      forall a | 0 <= a < key.Length && state[a].count == 0 ensures Badness(state[b]) <= Badness(state[a]) {
        var j := Place(ring, a);
      }
    }

    /** Lines 216-226: the first of the best idle buffers in ring order, NULL when none is idle. */
    method PickVictim() returns (b: int)
      requires Valid()
      ensures InTable(ring, key.Length)
      ensures b == NULL <==> forall a | 0 <= a < key.Length :: state[a].count > 0
      ensures NULL <= b < key.Length
      ensures b != NULL ==> state[b].count == 0 && exists i | 0 <= i < |ring| :: FirstBest(i, b)
      ensures b != NULL && state[b].dirt ==> forall a | 0 <= a < key.Length && state[a].count == 0 :: state[a].dirt
      ensures b != NULL && state[b].lock ==>
        forall a | 0 <= a < key.Length && state[a].count == 0 :: state[a].lock || (state[a].dirt && !state[b].dirt)
    {
      hide IsRing, IndexOk, Hash, OnePerBlock, Distinct, Scanned, BestOf, Badness;
      RingFirst(ring, freeList, nextFree[..], prevFree[..]);
      b := NULL;
      var tmp := freeList;
      ghost var i, best := 0, 0;
      ghost var st := state[..];
      ScanBegins(ring, st);
      while true
        invariant 0 <= i < |ring| && tmp == ring[i] && NULL <= b < key.Length
        invariant Scanned(ring, st, i, b, best)
        decreases |ring| - i
      {
        ScanStep(ring, st, i, b, best);
        if state[tmp].count == 0 && (b == NULL || Badness(state[tmp]) < Badness(state[b])) {
          b, best := tmp, i;
          if Badness(state[tmp]) == 0 {
            ScanEnds(ring, st, i + 1, b, best);
            break;
          }
        }
        RingAt(ring, freeList, nextFree[..], prevFree[..], i);
        tmp := nextFree[tmp];
        if i + 1 < |ring| { Member(ring, i + 1, 0); }
        if tmp == freeList { break; }
        i := i + 1;
      }
      ScanResult(b, best);
      if b != NULL {
        IdleIsBest(b);
        assert FirstBest(best, b);
      }
    }

    lemma ScanResult(b: int, best: nat)
      requires Valid() && InTable(ring, key.Length) && Scanned(ring, state[..], |ring|, b, best)
      ensures b == NULL <==> forall a | 0 <= a < key.Length :: state[a].count > 0
      ensures b != NULL ==> best < |ring| && ring[best] == b && BestOf(ring, state[..], |ring|, best) && FirstBest(best, b)
    {
      hide IsRing, IndexOk, Hash, OnePerBlock, Distinct;
      forall a: nat | b == NULL && a < key.Length ensures state[a].count > 0 {
        var j := Place(ring, a);
      }
    }

    /** Lines 134-150. */
    method RemoveFromQueues(b: nat)
      requires Linked(NULL) && b < key.Length && key.Length >= 2
      modifies this, next, prev, hashTable, nextFree, prevFree
      ensures Linked(b)
      ensures exists k | 0 <= k < |old(ring)| :: old(ring)[k] == b && ring == Without(old(ring), k)
    {
      hide IndexOk, IsRing, Hash;
      Unhash(b);
      ghost var t := Value();
      UnlinkFree(b);
      assert key[..] == t.key && hashTable[..] == t.table && next[..] == t.next && prev[..] == t.prev;
    }

    /** Lines 137-142. */
    method Unhash(b: nat)
      requires Shape() && IndexOk(Value(), chains, NULL) && b < key.Length
      modifies this`chains, next, prev, hashTable
      ensures IndexOk(Value(), chains, b)
    {
      hide IndexOk, Hash;
      ghost var t := Value();
      UnhashKeeps(t, chains, b);
      var p, q := prev[b], next[b];
      if q != NULL { prev[q] := p; }
      if p != NULL { next[p] := q; }
      var h := Hash(key[b]);
      if hashTable[h] == b { hashTable[h] := q; }
      chains := ChainsWithout(t, chains, b);
      ghost var u := Unhashed(t, b);
      assert key[..] == u.key && hashTable[..] == u.table;
      assert next[..] == u.next && prev[..] == u.prev;
    }

    /** Lines 143-149. */
    method UnlinkFree(b: nat)
      requires Shape() && IsRing(ring, freeList, nextFree[..], prevFree[..])
      requires b < key.Length && key.Length >= 2 && forall a: nat | a < key.Length :: a in ring
      modifies this`freeList, this`ring, nextFree, prevFree
      ensures IsRing(ring, freeList, nextFree[..], prevFree[..]) && b !in ring
      ensures forall a: nat | a < key.Length && a != b :: a in ring
      ensures exists k | 0 <= k < |old(ring)| :: old(ring)[k] == b && ring == Without(old(ring), k)
    {
      ghost var k := Place(ring, b);
      assert |ring| > 1 by { assert 0 in ring && 1 in ring; }
      RingRemove(ring, freeList, nextFree[..], prevFree[..], k);
      WithoutDistinct(ring, k, key.Length);
      var p, q := prevFree[b], nextFree[b];
      ghost var nf, pf := nextFree[..], prevFree[..];
      nextFree[p] := q;
      prevFree[q] := p;
      if freeList == b { freeList := q; }
      ring := Without(ring, k);
      assert nextFree[..] == nf[p := q] && prevFree[..] == pf[q := p];
    }

    /** Lines 152-167. */
    method InsertIntoQueues(b: nat)
      requires Linked(b) && b < key.Length && key.Length >= 2
      modifies this, next, prev, hashTable, nextFree, prevFree
      ensures Linked(NULL) && ring == old(ring) + [b]
    {
      hide IndexOk, IsRing, Hash;
      LinkFree(b);
      ghost var t := Value();
      HashKeeps(t, chains, b, key[b]);
      prev[b] := NULL;
      next[b] := NULL;
      ghost var u := Hashed(t, b, key[b]);
      if key[b].dev != 0 {
        var h := Hash(key[b]);
        var head := hashTable[h];
        next[b] := head;
        hashTable[h] := b;
        if head != NULL { prev[head] := b; }
        chains := ChainsWith(chains, b, key[b]);
      }
      assert key[..] == u.key && hashTable[..] == u.table;
      assert next[..] == u.next && prev[..] == u.prev;
    }

    /** Lines 155-158. */
    method LinkFree(b: nat)
      requires Shape() && IsRing(ring, freeList, nextFree[..], prevFree[..]) && b < key.Length && b !in ring
      modifies this`ring, nextFree, prevFree
      ensures IsRing(ring, freeList, nextFree[..], prevFree[..]) && ring == old(ring) + [b]
    {
      RingInsert(ring, freeList, nextFree[..], prevFree[..], b);
      ghost var nf, pf := nextFree[..], prevFree[..];
      var last := prevFree[freeList];
      nextFree[b] := freeList;
      prevFree[b] := last;
      nextFree[last] := b;
      prevFree[freeList] := b;
      ring := ring + [b];
      assert nextFree[..] == nf[b := freeList][last := b] && prevFree[..] == pf[b := last][freeList := b];
    }

    /** Lines 245-252: an idle buffer is given to a block that no buffer caches. */
    method Claim(b: nat, k: Key)
      requires Valid() && b < key.Length && key.Length >= 2
      requires k.dev != 0 && forall a | 0 <= a < key.Length :: key[a] != k
      modifies this, Repr()
      ensures Valid()
      ensures key[..] == old(key[..])[b := k] && state[..] == old(state[..])[b := State(1, false, old(state[b]).lock, false)]
      ensures exists i | 0 <= i < |old(ring)| :: old(ring)[i] == b && ring == Without(old(ring), i) + [b]
    {
      hide IndexOk, IsRing, Hash;
      state[b] := State(1, false, state[b].lock, false);
      RemoveFromQueues(b);
      ghost var t, keys := Value(), key[..];
      key[b] := k;
      assert Value() == Index(t.key[b := k], t.table, t.next, t.prev);
      OutKeyFree(t, chains, b, k);
      InsertIntoQueues(b);
      assert key[..] == keys[b := k];
    }

    // ------------------------------------------------------------ getblk between its sleep points

    /** Some buffer caches the block. */
    ghost predicate Cached(k: Key)
      reads key
    {
      exists a | 0 <= a < key.Length :: key[a] == k
    }

    /** Lines 195-198, once the buffer that had the key is unlocked: it is still the one, or the caller
        lets go of it and starts again. */
    method Hit(b: nat, k: Key) returns (p: Progress)
      requires Valid() && b < key.Length && state[b].count > 0
      modifies state
      ensures Valid() && p == if key[b] == k then Got(b) else Repeat
      ensures state[..] == if p == Repeat then old(state[..])[b := old(state[b]).(count := old(state[b].count) - 1)] else old(state[..])
    {
      if key[b] == k { return Got(b); }
      state[b] := state[b].(count := state[b].count - 1);
      return Repeat;
    }

    /** Lines 231-253, from the wake-up on the victim to the return: whatever other tasks did to the cache
        meanwhile, the victim is taken exactly when it is idle and clean and the block still has no buffer.
        A dirty one is synced and waited for, and the same lines run again. */
    method Victim(b: nat, k: Key) returns (p: Progress)
      requires Valid() && b < key.Length && key.Length >= 2 && k.dev != 0 && !state[b].lock
      modifies this, Repr()
      ensures Valid()
      ensures p == if old(state[b].count > 0 || (!state[b].dirt && Cached(k))) then Repeat
                   else if old(state[b].dirt) then MustSync(b) else Got(b)
      ensures p == Got(b) ==> !old(Cached(k)) && key[..] == old(key[..])[b := k]
      ensures p == Got(b) ==> state[..] == old(state[..])[b := State(1, false, false, false)]
      ensures p == Got(b) ==> exists i | 0 <= i < |old(ring)| :: old(ring)[i] == b && ring == Without(old(ring), i) + [b]
      ensures p != Got(b) ==> key[..] == old(key[..]) && state[..] == old(state[..]) && ring == old(ring)
    {
      if state[b].count > 0 { return Repeat; }
      if state[b].dirt { return MustSync(b); }
      var found := FindBuffer(k);
      if found != NULL { return Repeat; }
      Claim(b, k);
      return Got(b);
    }

    lemma OnceInRing(i: nat)
      requires Valid() && i < |ring|
      ensures InTable(ring, state.Length) && forall j | 0 <= j < |ring| && ring[j] == ring[i] :: j == i
    {
    }

    /** Lines 213-230, and on to the return when nothing has to be waited for: a cached
        block is held first and waited for after; for any other the best idle buffer is taken, at once
        if it is unlocked and clean. Without sleeping there is nothing to repeat. */
    method Getblk(k: Key) returns (p: Progress)
      requires Valid() && key.Length >= 2 && k.dev != 0
      modifies this, Repr()
      ensures Valid() && p != Repeat
      ensures old(Cached(k)) <==> p.AwaitHit? || (p.Got? && p.b < key.Length && old(key[p.b]) == k)
      ensures p.Got? || p.AwaitHit? ==> p.b < key.Length && key[p.b] == k && state[p.b].lock == p.AwaitHit?
      ensures p.Got? || p.AwaitHit? ==>
        && key[..] == old(key[..])[p.b := k]
        && state[..] == old(state[..])[p.b := if old(Cached(k)) then old(state[p.b]).(count := old(state[p.b].count) + 1)
                                              else State(1, false, false, false)]
      ensures !old(Cached(k)) ==>
        (p.Got? <==> exists a | 0 <= a < key.Length :: old(state[a].count == 0 && !state[a].dirt && !state[a].lock))
      ensures p.Got? && !old(Cached(k)) ==> old(state[p.b].count == 0 && !state[p.b].dirt && !state[p.b].lock)
      ensures p.Got? && !old(Cached(k)) ==>
        exists i | 0 <= i < |old(ring)| :: ring == Without(old(ring), i) + [p.b] && old(InTable(ring, state.Length) && FirstBest(i, p.b))
      ensures p.AwaitIdle? <==> !old(Cached(k)) && forall a | 0 <= a < key.Length :: old(state[a].count) > 0
      ensures !p.Got? && !p.AwaitHit? ==> key[..] == old(key[..]) && state[..] == old(state[..])
      ensures p.MustSync? ==>
        && p.b < key.Length && state[p.b].count == 0 && state[p.b].dirt && !state[p.b].lock
        && forall a | 0 <= a < key.Length && state[a].count == 0 :: state[a].dirt
      ensures p.AwaitVictim? ==>
        && p.b < key.Length && state[p.b].count == 0 && state[p.b].lock
        && forall a | 0 <= a < key.Length && state[a].count == 0 ::
             if state[p.b].dirt then state[a].dirt && state[a].lock else state[a].dirt || state[a].lock
    {
      hide IndexOk, IsRing, Hash, OnePerBlock;
      var b := FindBuffer(k);
      if b != NULL {
        state[b] := state[b].(count := state[b].count + 1);
        if state[b].lock { return AwaitHit(b); }
        return Got(b);
      }
      b := PickVictim();
      if b == NULL { return AwaitIdle; }
      if state[b].lock { return AwaitVictim(b); }
      ghost var i: nat :| i < |ring| && FirstBest(i, b);
      OnceInRing(i);
      p := Victim(b, k);
    }
  }
}

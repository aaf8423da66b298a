/** Doubly linked lists in a table, as fs/buffer.c threads them through its buffer heads: a ring
    (b_next_free, b_prev_free) and chains (b_next, b_prev). Pointers are table indices, and NULL
    is -1. */
module LinkedLists {
  const NULL: int := -1

  predicate Distinct(r: seq<nat>) {
    forall i, j | 0 <= i < j < |r| :: r[i] != r[j]
  }

  predicate InTable(r: seq<nat>, n: nat) {
    forall i | 0 <= i < |r| :: r[i] < n
  }

  function Without(r: seq<nat>, k: nat): (w: seq<nat>)
    requires k < |r|
    ensures |w| == |r| - 1 && forall i | 0 <= i < |w| :: w[i] == if i < k then r[i] else r[i + 1]
  {
    r[..k] + r[k + 1..]
  }

  lemma Member(r: seq<nat>, i: nat, j: nat)
    requires Distinct(r) && i < |r| && j < |r|
    ensures r[i] == r[j] <==> i == j
  {
  }

  lemma WithoutDistinct(r: seq<nat>, k: nat, n: nat)
    requires Distinct(r) && InTable(r, n) && k < |r|
    ensures Distinct(Without(r, k)) && InTable(Without(r, k), n) && r[k] !in Without(r, k)
    ensures forall b | b in r && b != r[k] :: b in Without(r, k)
    ensures forall b | b in Without(r, k) :: b in r
  {
    var w := Without(r, k);
    forall b | b in r && b != r[k] ensures b in w {
      var i :| 0 <= i < |r| && r[i] == b;
      assert w[if i < k then i else i - 1] == b;
    }
  }

  // ---------------------------------------------------------------- the ring

  function After(r: seq<nat>, i: nat): nat
    requires i < |r|
  {
    if i + 1 < |r| then r[i + 1] else r[0]
  }

  function Before(r: seq<nat>, i: nat): nat
    requires i < |r|
  {
    if i > 0 then r[i - 1] else r[|r| - 1]
  }

  ghost predicate RingLink(r: seq<nat>, nx: seq<int>, pv: seq<int>, i: nat)
    requires i < |r| && r[i] < |nx| && |nx| == |pv|
  {
    nx[r[i]] == After(r, i) && pv[r[i]] == Before(r, i)
  }

  /** r is a circular doubly linked list from `first` on. */
  ghost predicate IsRing(r: seq<nat>, first: int, nx: seq<int>, pv: seq<int>) {
    && |nx| == |pv| && |r| > 0 && Distinct(r) && InTable(r, |nx|) && first == r[0]
    && forall i | 0 <= i < |r| :: RingLink(r, nx, pv, i)
  }

  lemma RingAt(r: seq<nat>, first: int, nx: seq<int>, pv: seq<int>, i: nat)
    requires IsRing(r, first, nx, pv) && i < |r|
    ensures r[i] < |nx| && nx[r[i]] == After(r, i) < |nx| && pv[r[i]] == Before(r, i) < |nx|
  {
    assert RingLink(r, nx, pv, i);
  }

  lemma RingFirst(r: seq<nat>, first: int, nx: seq<int>, pv: seq<int>)
    requires IsRing(r, first, nx, pv)
    ensures |nx| == |pv| && |r| > 0 && Distinct(r) && InTable(r, |nx|) && first == r[0]
  {
  }

  /** Lines 146-149: taking one of several buffers out of the ring. */
  lemma RingRemove(r: seq<nat>, first: int, nx: seq<int>, pv: seq<int>, k: nat)
    requires IsRing(r, first, nx, pv) && k < |r| && |r| > 1
    ensures 0 <= pv[r[k]] < |nx| && 0 <= nx[r[k]] < |nx|
    ensures IsRing(Without(r, k), if first == r[k] then nx[r[k]] else first,
                   nx[pv[r[k]] := nx[r[k]]], pv[nx[r[k]] := pv[r[k]]])
  {
    RingAt(r, first, nx, pv, k);
    var p, q := Before(r, k), After(r, k);
    var w, nx', pv' := Without(r, k), nx[p := q], pv[q := p];
    WithoutDistinct(r, k, |nx|);
    forall i | 0 <= i < |w| ensures RingLink(w, nx', pv', i) {
      RemoveAt(r, first, nx, pv, k, i);
    }
    Member(r, 0, k);
  }

  lemma RemoveAt(r: seq<nat>, first: int, nx: seq<int>, pv: seq<int>, k: nat, i: nat)
    requires IsRing(r, first, nx, pv) && k < |r| && i < |r| - 1
    ensures var w := Without(r, k);
      && w[i] < |nx| && Before(r, k) < |nx| && After(r, k) < |nx|
      && RingLink(w, nx[Before(r, k) := After(r, k)], pv[After(r, k) := Before(r, k)], i)
  {
    var j := if i < k then i else i + 1;
    RingAt(r, first, nx, pv, j);
    RingAt(r, first, nx, pv, k);
    Member(r, j, if k > 0 then k - 1 else |r| - 1);
    Member(r, j, if k + 1 < |r| then k + 1 else 0);
  }

  /** Lines 155-158: putting a buffer at the end of the ring. */
  lemma RingInsert(r: seq<nat>, first: int, nx: seq<int>, pv: seq<int>, b: nat)
    requires IsRing(r, first, nx, pv) && b < |nx| && b !in r
    ensures 0 <= first < |pv| && 0 <= pv[first] < |nx|
    ensures IsRing(r + [b], first, nx[b := first][pv[first] := b], pv[b := pv[first]][first := b])
  {
    var m := |r|;
    RingAt(r, first, nx, pv, 0);
    RingAt(r, first, nx, pv, m - 1);
    var w, nx', pv' := r + [b], nx[b := first][r[m - 1] := b], pv[b := r[m - 1]][r[0] := b];
    forall i | 0 <= i < |w| ensures RingLink(w, nx', pv', i) {
      if i < m {
        RingAt(r, first, nx, pv, i);
        Member(r, i, m - 1);
        Member(r, i, 0);
        assert r[i] in r;
      }
    }
  }

  // ---------------------------------------------------------------- a hash chain

  function Next(c: seq<nat>, i: nat): int
    requires i < |c|
  {
    if i + 1 < |c| then c[i + 1] else NULL
  }

  function Prev(c: seq<nat>, i: nat): int
    requires i < |c|
  {
    if i > 0 then c[i - 1] else NULL
  }

  ghost predicate ChainLink(c: seq<nat>, nx: seq<int>, pv: seq<int>, i: nat)
    requires i < |c| && c[i] < |nx| && |nx| == |pv|
  {
    nx[c[i]] == Next(c, i) && pv[c[i]] == Prev(c, i)
  }

  function Head(c: seq<nat>): int {
    if c == [] then NULL else c[0]
  }

  /** c is a doubly linked list ended by NULL both ways. */
  ghost predicate IsChain(c: seq<nat>, head: int, nx: seq<int>, pv: seq<int>) {
    && |nx| == |pv| && Distinct(c) && InTable(c, |nx|) && head == Head(c)
    && forall i | 0 <= i < |c| :: ChainLink(c, nx, pv, i)
  }

  lemma ChainAt(c: seq<nat>, head: int, nx: seq<int>, pv: seq<int>, i: nat)
    requires IsChain(c, head, nx, pv) && i < |c|
    ensures c[i] < |nx| && NULL <= nx[c[i]] == Next(c, i) < |nx| && NULL <= pv[c[i]] == Prev(c, i) < |nx|
  {
    assert ChainLink(c, nx, pv, i);
  }

  function Set(s: seq<int>, i: int, v: int): (t: seq<int>)
    requires NULL <= i < |s|
    ensures |t| == |s|
  {
    if i == NULL then s else s[i := v]
  }

  /** Lines 137-142: taking a buffer out of its hash chain. */
  lemma ChainRemove(c: seq<nat>, head: int, nx: seq<int>, pv: seq<int>, k: nat)
    requires IsChain(c, head, nx, pv) && k < |c|
    ensures NULL <= pv[c[k]] < |nx| && NULL <= nx[c[k]] < |nx|
    ensures IsChain(Without(c, k), if head == c[k] then nx[c[k]] else head,
                 Set(nx, pv[c[k]], nx[c[k]]), Set(pv, nx[c[k]], pv[c[k]]))
  {
    ChainAt(c, head, nx, pv, k);
    var w, nx', pv' := Without(c, k), Set(nx, Prev(c, k), Next(c, k)), Set(pv, Next(c, k), Prev(c, k));
    WithoutDistinct(c, k, |nx|);
    forall i | 0 <= i < |w| ensures ChainLink(w, nx', pv', i) {
      ChainRemoveAt(c, head, nx, pv, k, i);
    }
    Member(c, 0, k);
  }

  lemma ChainRemoveAt(c: seq<nat>, head: int, nx: seq<int>, pv: seq<int>, k: nat, i: nat)
    requires IsChain(c, head, nx, pv) && k < |c| && i < |c| - 1
    ensures NULL <= Prev(c, k) < |nx| && NULL <= Next(c, k) < |nx| && Without(c, k)[i] < |nx|
    ensures ChainLink(Without(c, k), Set(nx, Prev(c, k), Next(c, k)), Set(pv, Next(c, k), Prev(c, k)), i)
  {
    var j := if i < k then i else i + 1;
    ChainAt(c, head, nx, pv, j);
    ChainAt(c, head, nx, pv, k);
    if k > 0 { Member(c, j, k - 1); }
    if k + 1 < |c| { Member(c, j, k + 1); }
  }

  /** Lines 160-166, with the null test that line 166 leaves out: a buffer at the front. */
  lemma ChainInsert(c: seq<nat>, head: int, nx: seq<int>, pv: seq<int>, b: nat)
    requires IsChain(c, head, nx, pv) && b < |nx| && b !in c
    ensures NULL <= head < |nx|
    ensures IsChain([b] + c, b, nx[b := head], Set(pv[b := NULL], head, b))
  {
    if c != [] { ChainAt(c, head, nx, pv, 0); }
    var w, nx', pv' := [b] + c, nx[b := head], Set(pv[b := NULL], head, b);
    forall i | 0 <= i < |w| ensures ChainLink(w, nx', pv', i) {
      if i > 0 {
        ChainAt(c, head, nx, pv, i - 1);
        Member(c, i - 1, 0);
        assert w[i] == c[i - 1] && c[i - 1] in c;
      }
    }
  }

  /** A list none of whose members is touched stays what it was. */
  lemma ChainFrame(c: seq<nat>, head: int, nx: seq<int>, pv: seq<int>, nx': seq<int>, pv': seq<int>)
    requires IsChain(c, head, nx, pv) && |nx'| == |nx| && |pv'| == |pv|
    requires forall i | 0 <= i < |c| :: nx'[c[i]] == nx[c[i]] && pv'[c[i]] == pv[c[i]]
    ensures IsChain(c, head, nx', pv')
  {
    forall i | 0 <= i < |c| ensures ChainLink(c, nx', pv', i) {
      ChainAt(c, head, nx, pv, i);
    }
  }
}

/** The order of a device queue: IN_ORDER of kernel/blk_drv/blk.h and the sorted insertion of
    kernel/blk_drv/ll_rw_blk.c. */
module Elevator {
  const READ: nat := 0
  const WRITE: nat := 1

  type Word16 = n: nat | n < 0x1_0000
  type Word32 = n: nat | n < 0x1_0000_0000

  datatype Key = Key(write: bool, dev: Word16, sector: Word32)

  function Cmd(k: Key): nat {
    if k.write then WRITE else READ
  }

  /** blk.h lines 40-43. */
  predicate InOrder(a: Key, b: Key) {
    Cmd(a) < Cmd(b) || (Cmd(a) == Cmd(b) &&
      (a.dev < b.dev || (a.dev == b.dev &&
        a.sector < b.sector)))
  }

  /** How many keys come before this one. */
  function Rank(k: Key): (n: nat)
    ensures n < 0x2_0000_0000_0000
  {
    (Cmd(k) * 0x1_0000 + k.dev) * 0x1_0000_0000 + k.sector
  }

  function Keys(): nat { 0x2_0000_0000_0000 }

  lemma OrderIsRank(a: Key, b: Key)
    ensures InOrder(a, b) <==> Rank(a) < Rank(b)
    ensures a == b <==> Rank(a) == Rank(b)
  {
  }

  // ---------------------------------------------------------------- the insertion

  predicate Distinct(q: seq<Key>) {
    forall i, j | 0 <= i < j < |q| :: q[i] != q[j]
  }

  /** The test of lines 79-81 at the i-th request of the queue. */
  predicate Fits(q: seq<Key>, r: Key, i: nat)
    requires i + 1 < |q|
  {
    (InOrder(q[i], r) || !InOrder(q[i], q[i + 1])) && InOrder(r, q[i + 1])
  }

  /** Lines 78-82 from position i on: the request after which r goes. */
  function Place(q: seq<Key>, r: Key, i: nat): (p: nat)
    requires i < |q|
    ensures i <= p < |q|
    ensures p + 1 < |q| ==> Fits(q, r, p)
    ensures forall j | i <= j < p :: !Fits(q, r, j)
    decreases |q| - i
  {
    if i + 1 == |q| || Fits(q, r, i) then i else Place(q, r, i + 1)
  }

  function InsertAfter<T>(q: seq<T>, p: nat, r: T): (n: seq<T>)
    requires p < |q|
    ensures |n| == |q| + 1
    ensures forall i | 0 <= i < |n| :: n[i] == if i <= p then q[i] else if i == p + 1 then r else q[i - 1]
  {
    q[..p + 1] + [r] + q[p + 1..]
  }

  /** Lines 68-84. */
  function Add(q: seq<Key>, r: Key): seq<Key> {
    if q == [] then [r] else InsertAfter(q, Place(q, r, 0), r)
  }

  // ---------------------------------------------------------------- two sweeps

  predicate Descent(q: seq<Key>, i: nat) {
    i + 1 < |q| && !InOrder(q[i], q[i + 1])
  }

  /** At most one place where the order descends. */
  ghost predicate TwoSweeps(q: seq<Key>) {
    forall i: nat, j: nat | i < j :: !(Descent(q, i) && Descent(q, j))
  }

  lemma {:induction false} Ascends(q: seq<Key>, i: nat, j: nat)
    requires i <= j < |q| && forall k: nat | i <= k < j :: !Descent(q, k)
    ensures i < j ==> InOrder(q[i], q[j])
    decreases j
  {
    if i + 1 < j {
      Ascends(q, i, j - 1);
      OrderIsRank(q[i], q[j - 1]);
      OrderIsRank(q[j - 1], q[j]);
      OrderIsRank(q[i], q[j]);
    }
    if i < j { assert !Descent(q, j - 1); }
  }

  /** In an ascending stretch, a key between the ends fits somewhere. */
  lemma {:induction false} FitsBetween(q: seq<Key>, r: Key, lo: nat, hi: nat)
    requires lo < hi < |q| && r !in q
    requires InOrder(q[lo], r) && InOrder(r, q[hi])
    ensures exists i: nat :: lo <= i < hi && Fits(q, r, i)
    decreases hi - lo
  {
    if lo + 1 == hi {
      assert Fits(q, r, lo);
    } else {
      var m := lo + 1;
      OrderIsRank(q[m], r);
      OrderIsRank(r, q[m]);
      assert q[m] in q;
      if InOrder(r, q[m]) {
        assert Fits(q, r, lo);
      } else {
        FitsBetween(q, r, m, hi);
      }
    }
  }

  /** Appending a smaller key than the last opens the second sweep; there was none before. */
  lemma AppendedOnlySecond(q: seq<Key>, r: Key, d: nat)
    requires |q| > 0 && r !in q && Distinct(q) && TwoSweeps(q)
    requires Place(q, r, 0) == |q| - 1 && !InOrder(q[|q| - 1], r)
    ensures !Descent(q, d)
  {
    if Descent(q, d) {
      var last := |q| - 1;
      assert !Fits(q, r, d);
      OrderIsRank(r, q[d + 1]);
      OrderIsRank(q[d + 1], r);
      OrderIsRank(r, q[last]);
      OrderIsRank(q[last], r);
      assert q[d + 1] in q && q[last] in q;
      assert InOrder(q[d + 1], r) && InOrder(r, q[last]);
      assert d + 1 < last;
      FitsBetween(q, r, d + 1, last);
    }
  }

  /** Where the descents of the new queue come from. */
  lemma DescentsMove(q: seq<Key>, r: Key, i: nat)
    requires |q| > 0 && Distinct(q) && r !in q
    ensures var (n, p) := (Add(q, r), Place(q, r, 0));
      && (i < p ==> (Descent(n, i) <==> Descent(q, i)))
      && (i > p + 1 ==> (Descent(n, i) <==> Descent(q, i - 1)))
      && (i == p + 1 ==> !Descent(n, i))
      && (i == p < |q| - 1 && Descent(n, i) ==> Descent(q, i))
  {
    var p := Place(q, r, 0);
    if p + 1 < |q| {
      OrderIsRank(q[p], r);
      OrderIsRank(r, q[p + 1]);
      OrderIsRank(q[p], q[p + 1]);
    }
  }

  lemma AddDistinct(q: seq<Key>, r: Key)
    requires Distinct(q) && r !in q
    ensures Distinct(Add(q, r)) && forall k | k in Add(q, r) :: k == r || k in q
  {
    assert forall i | 0 <= i < |q| :: q[i] in q;
  }

  /** Insertion keeps the two sweeps. */
  lemma AddKeepsSweeps(q: seq<Key>, r: Key)
    requires Distinct(q) && r !in q && TwoSweeps(q)
    ensures TwoSweeps(Add(q, r)) && Distinct(Add(q, r))
  {
    AddDistinct(q, r);
    if q != [] {
      var n := Add(q, r);
      forall i: nat, j: nat | i < j ensures !(Descent(n, i) && Descent(n, j)) {
        AddOneDescent(q, r, i, j);
      }
    }
  }

  lemma AddOneDescent(q: seq<Key>, r: Key, i: nat, j: nat)
    requires |q| > 0 && Distinct(q) && r !in q && TwoSweeps(q) && i < j
    ensures !(Descent(Add(q, r), i) && Descent(Add(q, r), j))
  {
    hide Add, Place, Distinct;
    DescentsMove(q, r, i);
    DescentsMove(q, r, j);
    var p := Place(q, r, 0);
    if p == |q| - 1 && j == p { SecondSweepOpens(q, r, i); }
    assert j > p + 1 && i <= p ==> !(Descent(q, i) && Descent(q, j - 1));
    assert j > p + 1 && i > p + 1 ==> !(Descent(q, i - 1) && Descent(q, j - 1));
    assert j <= p ==> !(Descent(q, i) && Descent(q, j));
    assert !Descent(q, |q| - 1);
  }

  lemma SecondSweepOpens(q: seq<Key>, r: Key, i: nat)
    requires |q| > 0 && Distinct(q) && r !in q && TwoSweeps(q) && Place(q, r, 0) == |q| - 1
    ensures !(Descent(q, i) && Descent(Add(q, r), |q| - 1))
  {
    if Descent(Add(q, r), |q| - 1) { AppendedOnlySecond(q, r, i); }
  }

  lemma PopKeepsSweeps(q: seq<Key>)
    requires |q| > 0 && Distinct(q) && TwoSweeps(q)
    ensures TwoSweeps(q[1..]) && Distinct(q[1..])
  {
    forall i: nat, j: nat | i < j ensures !(Descent(q[1..], i) && Descent(q[1..], j)) {
      assert Descent(q[1..], i) <==> Descent(q, i + 1);
      assert Descent(q[1..], j) <==> Descent(q, j + 1);
    }
  }

  // ---------------------------------------------------------------- what is served before what

  /** Reads go before writes, then lower devices before higher, then lower sectors before higher. */
  predicate Sooner(a: Key, b: Key) {
    if a.write != b.write then b.write else if a.dev != b.dev then a.dev < b.dev else a.sector < b.sector
  }

  /** Within a sweep reads go before writes, and each kind by device and sector. */
  lemma SweepIsSorted(q: seq<Key>, i: nat, j: nat)
    requires i < j < |q| && forall k: nat | i <= k < j :: !Descent(q, k)
    ensures Sooner(q[i], q[j])
  {
    Ascends(q, i, j);
  }

  /** Where a request goes: behind the head, after the first place where it comes before the next one and
      after this one, or before the next one that opens the second sweep; else to the end. */
  lemma AddPlaces(q: seq<Key>, r: Key) returns (p: nat)
    requires |q| > 0 && Distinct(q) && r !in q
    ensures p < |q| && Add(q, r) == q[..p + 1] + [r] + q[p + 1..]
    ensures p + 1 < |q| ==> Sooner(r, q[p + 1]) && (Sooner(q[p], r) || Sooner(q[p + 1], q[p]))
    ensures forall i | 0 <= i < p :: !(Sooner(r, q[i + 1]) && (Sooner(q[i], r) || Sooner(q[i + 1], q[i])))
  {
    p := Place(q, r, 0);
    forall i | 0 <= i < |q| - 1
      ensures Fits(q, r, i) <==> Sooner(r, q[i + 1]) && (Sooner(q[i], r) || Sooner(q[i + 1], q[i]))
    {
      assert q[i] in q && q[i] != q[i + 1];
    }
  }

  // ---------------------------------------------------------------- fairness

  datatype Event = Serve | Arrive(key: Key)

  function Step(q: seq<Key>, e: Event): seq<Key> {
    match e
    case Serve => if q == [] then q else q[1..]
    case Arrive(k) => Add(q, k)
  }

  /** The queue through a run; a device with nothing queued has nothing to serve. */
  function Run(q: seq<Key>, events: seq<Event>): seq<Key>
    decreases |events|
  {
    if events == [] then q else Run(Step(q, events[0]), events[1..])
  }

  /** No arrival repeats a queued key. */
  predicate Fresh(q: seq<Key>, events: seq<Event>)
    decreases |events|
  {
    events == [] || ((events[0].Arrive? ==> events[0].key !in q) && Fresh(Step(q, events[0]), events[1..]))
  }

  /** r is queued and is not the one served, all through the run. */
  predicate Waits(q: seq<Key>, r: Key, events: seq<Event>)
    decreases |events|
  {
    r in q && (events == [] || ((events[0].Serve? ==> q[0] != r) && Waits(Step(q, events[0]), r, events[1..])))
  }

  function Serves(events: seq<Event>): nat
    decreases |events|
  {
    if events == [] then 0 else (if events[0].Serve? then 1 else 0) + Serves(events[1..])
  }

  ghost predicate DescentBefore(q: seq<Key>, p: nat) {
    exists i: nat :: i < p && Descent(q, i)
  }

  /** The keys from the head to r in service order: straight up, or up to the top and from the
      bottom again. */
  ghost function Distance(q: seq<Key>, p: nat): int
    requires p < |q|
  {
    if DescentBefore(q, p) then (Keys() - Rank(q[0])) + Rank(q[p]) else Rank(q[p]) - Rank(q[0])
  }

  lemma DistanceBounds(q: seq<Key>, p: nat)
    requires p < |q|
    ensures 0 <= Distance(q, p) <= (Keys() - Rank(q[0])) + Rank(q[p])
  {
    if !DescentBefore(q, p) {
      Ascends(q, 0, p);
      OrderIsRank(q[0], q[p]);
    }
  }

  /** Serving another request brings r nearer. */
  lemma ServeNearer(q: seq<Key>, p: nat)
    requires 0 < p < |q|
    requires TwoSweeps(q)
    ensures Distance(q[1..], p - 1) < Distance(q, p)
  {
    var t := q[1..];
    OrderIsRank(q[0], q[1]);
    assert forall i: nat :: Descent(t, i) <==> Descent(q, i + 1);
    DistanceBounds(t, p - 1);
    if DescentBefore(t, p - 1) {
      var i: nat :| i < p - 1 && Descent(t, i);
      assert Descent(q, i + 1);
      assert !Descent(q, 0);
    } else if DescentBefore(q, p) {
      var i: nat :| i < p && Descent(q, i);
      assert i > 0 ==> Descent(t, i - 1);
    } else {
      assert !Descent(q, 0);
    }
  }

  /** An arrival leaves the distance as it is. */
  lemma ArriveSame(q: seq<Key>, p: nat, k: Key)
    requires p < |q| && Distinct(q) && k !in q
    ensures var (n, s) := (Add(q, k), Place(q, k, 0));
      var p' := if p <= s then p else p + 1;
      n[0] == q[0] && n[p'] == q[p] && Distance(n, p') == Distance(q, p)
  {
    DescentsStay(q, p, k);
  }

  lemma DescentsStay(q: seq<Key>, p: nat, k: Key)
    requires p < |q| && Distinct(q) && k !in q
    ensures var (n, s) := (Add(q, k), Place(q, k, 0));
      var p' := if p <= s then p else p + 1;
      DescentBefore(n, p') <==> DescentBefore(q, p)
  {
    var n, s := Add(q, k), Place(q, k, 0);
    var p' := if p <= s then p else p + 1;
    forall i: nat | i < p && Descent(q, i) ensures DescentBefore(n, p') {
      DescentsMove(q, k, i);
      DescentsMove(q, k, i + 1);
      if i == s { StillDescends(q, k); }
      assert Descent(n, if i <= s then i else i + 1);
    }
    forall i: nat | i < p' && Descent(n, i) ensures DescentBefore(q, p) {
      DescentsMove(q, k, i);
      assert Descent(q, if i <= s then i else i - 1);
    }
  }

  /** A descent that gets split still descends, on its left side. */
  lemma StillDescends(q: seq<Key>, k: Key)
    requires |q| > 0 && Distinct(q) && k !in q && Descent(q, Place(q, k, 0))
    ensures Descent(Add(q, k), Place(q, k, 0))
  {
    var s := Place(q, k, 0);
    OrderIsRank(q[s], k);
    OrderIsRank(k, q[s + 1]);
    OrderIsRank(q[s], q[s + 1]);
  }

  /** However requests keep arriving, one that is still waiting has seen no more others served than
      the first head, the keys above that head and the keys below its own, and every one served has
      brought it nearer: what is left of its distance bounds those still to come. */
  lemma {:induction false} Fair(q: seq<Key>, p: nat, events: seq<Event>) returns (p': nat)
    requires p < |q| && Distinct(q) && TwoSweeps(q) && Fresh(q, events) && Waits(q, q[p], events)
    ensures p' < |Run(q, events)| && Run(q, events)[p'] == q[p]
    ensures Distinct(Run(q, events)) && TwoSweeps(Run(q, events))
    ensures 0 <= Distance(Run(q, events), p')
    ensures Serves(events) + Distance(Run(q, events), p') <= Distance(q, p) <= (Keys() - Rank(q[0])) + Rank(q[p])
    decreases |events|
  {
    DistanceBounds(q, p);
    if events == [] {
      p' := p;
    } else {
      var e, rest := events[0], events[1..];
      if e.Serve? {
        PopKeepsSweeps(q);
        ServeNearer(q, p);
        p' := Fair(q[1..], p - 1, rest);
      } else {
        AddKeepsSweeps(q, e.key);
        ArriveSame(q, p, e.key);
        p' := Fair(Add(q, e.key), if p <= Place(q, e.key, 0) then p else p + 1, rest);
      }
    }
  }
}

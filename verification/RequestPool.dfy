/** The slot pool and device queues of kernel/blk_drv/ll_rw_blk.c as values: singly linked queues
    threaded through one table of requests. */
module RequestQueues {
  import opened LinkedLists
  import Elevator

  type DevOrFree = d: int | -1 <= d < 0x1_0000
  const FREE: DevOrFree := -1

  datatype Request = Request(dev: DevOrFree, write: bool, sector: Elevator.Word32, bh: nat, next: int)

  function KeyOf(r: Request): Elevator.Key {
    Elevator.Key(r.write, if r.dev < 0 then 0 else r.dev, r.sector)
  }

  ghost predicate Link(q: seq<nat>, slots: seq<Request>, i: nat)
    requires i < |q| && q[i] < |slots|
  {
    slots[q[i]].next == Next(q, i)
  }

  ghost predicate IsQueue(q: seq<nat>, head: int, slots: seq<Request>) {
    && Distinct(q) && InTable(q, |slots|) && head == Head(q)
    && forall i | 0 <= i < |q| :: Link(q, slots, i)
  }

  ghost function KeysOf(q: seq<nat>, slots: seq<Request>): (k: seq<Elevator.Key>)
    requires InTable(q, |slots|)
    ensures |k| == |q| && forall i | 0 <= i < |q| :: k[i] == KeyOf(slots[q[i]])
  {
    seq(|q|, i requires 0 <= i < |q| => KeyOf(slots[q[i]]))
  }

  predicate Queued(slots: seq<Request>, s: nat) {
    s < |slots| && slots[s].dev >= 0
  }

  predicate InQueue(queues: seq<seq<nat>>, d: nat, s: nat) {
    d < |queues| && s in queues[d]
  }

  /** Every slot is free or in exactly the queue of its major device, once; slots from 21 up never
      hold a write. */
  ghost predicate PoolOk(slots: seq<Request>, current: seq<int>, queues: seq<seq<nat>>) {
    && |slots| == 32 && |current| == |queues| == 7
    && (forall d | 0 <= d < 7 :: IsQueue(queues[d], current[d], slots))
    && (forall d: nat, s: nat | InQueue(queues, d, s) :: Queued(slots, s) && slots[s].dev / 256 == d)
    && (forall s: nat | Queued(slots, s) :: InQueue(queues, slots[s].dev / 256, s))
    && (forall s: nat | Queued(slots, s) && s >= 21 :: !slots[s].write)
  }

  lemma LinkAt(q: seq<nat>, head: int, slots: seq<Request>, i: nat)
    requires IsQueue(q, head, slots) && i < |q|
    ensures q[i] < |slots| && NULL <= slots[q[i]].next == Next(q, i) < |slots|
  {
    assert Link(q, slots, i);
  }

  lemma QueueFrame(q: seq<nat>, head: int, slots: seq<Request>, slots': seq<Request>)
    requires IsQueue(q, head, slots) && |slots'| == |slots|
    requires forall s | s in q && s < |slots| :: slots'[s].next == slots[s].next
    ensures IsQueue(q, head, slots')
  {
    forall i | 0 <= i < |q| ensures Link(q, slots', i) {
      LinkAt(q, head, slots, i);
      assert q[i] in q;
    }
  }

  // ---------------------------------------------------------------- adding

  ghost function Linked(slots: seq<Request>, q: seq<nat>, p: nat, r: nat, req: Request): seq<Request>
    requires p < |q| && InTable(q, |slots|) && r < |slots|
  {
    var filled := slots[r := req.(next := slots[q[p]].next)];
    filled[q[p] := filled[q[p]].(next := r)]
  }

  lemma QueueInsert(q: seq<nat>, head: int, slots: seq<Request>, p: nat, r: nat, req: Request)
    requires IsQueue(q, head, slots) && p < |q| && r < |slots| && r !in q
    ensures IsQueue(Elevator.InsertAfter(q, p, r), head, Linked(slots, q, p, r, req))
  {
    var n, slots' := Elevator.InsertAfter(q, p, r), Linked(slots, q, p, r, req);
    assert forall i | 0 <= i < |q| :: q[i] in q;
    LinkAt(q, head, slots, p);
    forall i | 0 <= i < |n| ensures Link(n, slots', i) {
      if i <= p {
        LinkAt(q, head, slots, i);
        Member(q, i, p);
      } else if i > p + 1 {
        LinkAt(q, head, slots, i - 1);
        Member(q, i - 1, p);
      }
    }
  }

  lemma InsertMembers(q: seq<nat>, p: nat, r: nat)
    requires p < |q|
    ensures forall s :: s in Elevator.InsertAfter(q, p, r) <==> s in q || s == r
  {
    var n := Elevator.InsertAfter(q, p, r);
    assert n == q[..p + 1] + [r] + q[p + 1..];
    assert q == q[..p + 1] + q[p + 1..];
  }

  /** Lines 133-141 and 78-84: a filled slot joins a queue that is not empty. */
  lemma JoinKeeps(slots: seq<Request>, current: seq<int>, queues: seq<seq<nat>>, d: nat, p: nat, r: nat, req: Request)
    requires PoolOk(slots, current, queues) && d < 7 && p < |queues[d]|
    requires r < 32 && !Queued(slots, r) && req.dev >= 0 && req.dev / 256 == d && (r >= 21 ==> !req.write)
    ensures InTable(queues[d], 32)
    ensures PoolOk(Linked(slots, queues[d], p, r, req), current, queues[d := Elevator.InsertAfter(queues[d], p, r)])
  {
    var q := queues[d];
    var slots', queues' := Linked(slots, q, p, r, req), queues[d := Elevator.InsertAfter(q, p, r)];
    assert forall e: nat :: !InQueue(queues, e, r);
    assert !InQueue(queues, d, r) && r !in q;
    QueueInsert(q, current[d], slots, p, r, req);
    InsertMembers(q, p, r);
    assert InQueue(queues, d, q[p]);
    forall e | 0 <= e < 7 ensures IsQueue(queues'[e], current[e], slots') {
      if e != d {
        assert forall s: nat | s in queues[e] :: InQueue(queues, e, s);
        assert !InQueue(queues, e, q[p]) && !InQueue(queues, e, r);
        QueueFrame(queues[e], current[e], slots, slots');
      }
    }
    forall e: nat, s: nat | InQueue(queues', e, s) ensures Queued(slots', s) && slots'[s].dev / 256 == e {
      if s == r {
        assert slots'[s].dev == req.dev && (e != d ==> !InQueue(queues, e, r));
      } else {
        assert InQueue(queues, e, s) && slots'[s].dev == slots[s].dev;
      }
    }
    forall s: nat | Queued(slots', s) ensures InQueue(queues', slots'[s].dev / 256, s) {
      if s == r {
        assert slots'[s].dev == req.dev && InQueue(queues', d, r);
      } else {
        assert slots'[s].dev == slots[s].dev && Queued(slots, s);
        var e := slots[s].dev / 256;
        assert InQueue(queues, e, s);
        if e == d { assert s in queues'[d]; } else { assert queues'[e] == queues[e]; }
        assert InQueue(queues', e, s);
      }
    }
    forall s: nat | Queued(slots', s) && s >= 21 ensures !slots'[s].write {
      assert s != r ==> Queued(slots, s);
    }
  }

  /** Lines 72-73: the queue was empty. */
  lemma StartKeeps(slots: seq<Request>, current: seq<int>, queues: seq<seq<nat>>, d: nat, r: nat, req: Request)
    requires PoolOk(slots, current, queues) && d < 7 && queues[d] == []
    requires r < 32 && !Queued(slots, r) && req.dev >= 0 && req.dev / 256 == d && (r >= 21 ==> !req.write)
    ensures PoolOk(slots[r := req.(next := NULL)], current[d := r], queues[d := [r]])
  {
    var slots', current', queues' := slots[r := req.(next := NULL)], current[d := r], queues[d := [r]];
    forall e | 0 <= e < 7 ensures IsQueue(queues'[e], current'[e], slots') {
      if e != d {
        assert !InQueue(queues, e, r);
        QueueFrame(queues[e], current[e], slots, slots');
      }
    }
    forall e: nat, s: nat | InQueue(queues', e, s) ensures Queued(slots', s) && slots'[s].dev / 256 == e {
      if e != d { assert InQueue(queues, e, s); }
    }
    forall s: nat | Queued(slots', s) ensures InQueue(queues', slots'[s].dev / 256, s) {
      if s != r {
        assert Queued(slots, s) && InQueue(queues, slots[s].dev / 256, s);
      }
    }
    forall s: nat | Queued(slots', s) && s >= 21 ensures !slots'[s].write {
      assert s != r ==> Queued(slots, s);
    }
  }

  // ---------------------------------------------------------------- serving

  /** blk.h lines 123-124. */
  lemma ServeKeeps(slots: seq<Request>, current: seq<int>, queues: seq<seq<nat>>, d: nat)
    requires PoolOk(slots, current, queues) && d < 7 && queues[d] != []
    ensures current[d] == queues[d][0] < 32
    ensures var s := queues[d][0];
      PoolOk(slots[s := slots[s].(dev := FREE)], current[d := slots[s].next], queues[d := queues[d][1..]])
  {
    var q := queues[d];
    var h := q[0];
    LinkAt(q, current[d], slots, 0);
    var slots', current', queues' := slots[h := slots[h].(dev := FREE)], current[d := slots[h].next], queues[d := q[1..]];
    assert InQueue(queues, d, h);
    forall e | 0 <= e < 7 ensures IsQueue(queues'[e], current'[e], slots') {
      if e == d {
        forall i | 0 <= i < |q[1..]| ensures Link(q[1..], slots', i) {
          LinkAt(q, current[d], slots, i + 1);
        }
      } else {
        QueueFrame(queues[e], current[e], slots, slots');
      }
    }
    forall e: nat, s: nat | InQueue(queues', e, s) ensures Queued(slots', s) && slots'[s].dev / 256 == e {
      assert InQueue(queues, e, s);
      if e == d { HeadOnce(q, s); }
    }
    forall s: nat | Queued(slots', s) ensures InQueue(queues', slots'[s].dev / 256, s) {
      assert Queued(slots, s) && InQueue(queues, slots[s].dev / 256, s);
    }
    forall s: nat | Queued(slots', s) && s >= 21 ensures !slots'[s].write {
      assert Queued(slots, s);
    }
  }

  lemma HeadOnce(q: seq<nat>, s: nat)
    requires Distinct(q) && |q| > 0 && s in q[1..]
    ensures s != q[0] && s in q
  {
    var i :| 0 <= i < |q| - 1 && q[1..][i] == s;
    assert q[i + 1] == s;
  }
}

/** kernel/blk_drv/ll_rw_blk.c over its state: the request table, the queue heads of the seven
    major devices, and the buffers whose locks requests hold. */
module BlockRequests {
  import opened LinkedLists
  import opened RequestQueues
  import Elevator

  /** Block numbers are below 2^31, so doubling one to a sector does not wrap. */
  type BlockNr = n: nat | n < 0x8000_0000

  datatype Buffer = Buffer(dev: Elevator.Word16, block: BlockNr, lock: bool, dirt: bool, uptodate: bool)

  function RequestFor(b: nat, buf: Buffer, write: bool): Request
  {
    Request(buf.dev, write, 2 * buf.block, b, NULL)
  }

  predicate HasRequest(slots: seq<Request>, b: nat) {
    exists s: nat | s < |slots| :: Queued(slots, s) && slots[s].bh == b
  }

  /** A buffer is locked exactly while it has a queued request or its maker still waits for a
      slot (`pending`), never both, and it never has two. */
  ghost predicate LocksOk(slots: seq<Request>, buffers: seq<Buffer>, pending: set<nat>) {
    && (forall s: nat | Queued(slots, s) ::
          slots[s].bh < |buffers| && slots[s].bh !in pending && slots[s].dev > 0
          && slots[s] == RequestFor(slots[s].bh, buffers[slots[s].bh], slots[s].write).(next := slots[s].next))
    && (forall s: nat, t: nat | Queued(slots, s) && Queued(slots, t) && s != t :: slots[s].bh != slots[t].bh)
    && (forall b: nat | b < |buffers| :: buffers[b].lock <==> b in pending || HasRequest(slots, b))
    && (forall b | b in pending :: b < |buffers|)
  }

  /** The cache keeps one buffer for a block (BufferCache). */
  ghost predicate KeysOk(buffers: seq<Buffer>) {
    forall a, b | 0 <= a < b < |buffers| && buffers[a].dev != 0 ::
         !(buffers[a].dev == buffers[b].dev && buffers[a].block == buffers[b].block)
  }

  /** Each device queue runs in at most two ascending sweeps. */
  ghost predicate SweepsOk(slots: seq<Request>, queues: seq<seq<nat>>) {
    forall d | 0 <= d < |queues| :: Sweeps(queues[d], slots)
  }

  ghost predicate Sweeps(q: seq<nat>, slots: seq<Request>) {
    InTable(q, |slots|) && Elevator.TwoSweeps(KeysOf(q, slots))
  }

  // ---------------------------------------------------------------- consequences

  /** No two queued requests are for the same sector of the same device. */
  lemma OneRequestPerSector(slots: seq<Request>, buffers: seq<Buffer>, pending: set<nat>, s: nat, t: nat)
    requires LocksOk(slots, buffers, pending) && KeysOk(buffers)
    requires Queued(slots, s) && Queued(slots, t) && s != t
    ensures !(slots[s].dev == slots[t].dev && slots[s].sector == slots[t].sector)
    ensures KeyOf(slots[s]) != KeyOf(slots[t])
  {
    var a, b := slots[s].bh, slots[t].bh;
    if a < b {
      assert !(buffers[a].dev == buffers[b].dev && buffers[a].block == buffers[b].block);
    } else {
      assert !(buffers[b].dev == buffers[a].dev && buffers[b].block == buffers[a].block);
    }
  }

  /** A queued request is for its buffer's device and for the sectors of 512 bytes that its block of 1024
      bytes covers. */
  lemma SectorsOfBlock(slots: seq<Request>, buffers: seq<Buffer>, pending: set<nat>, s: nat)
    requires LocksOk(slots, buffers, pending) && Queued(slots, s)
    ensures slots[s].bh < |buffers|
    ensures slots[s].dev == buffers[slots[s].bh].dev && 512 * slots[s].sector == 1024 * buffers[slots[s].bh].block
  {
  }

  /** A request is for two sectors, and no two queued for one device overlap. */
  lemma DisjointSectors(slots: seq<Request>, buffers: seq<Buffer>, pending: set<nat>, s: nat, t: nat)
    requires LocksOk(slots, buffers, pending) && KeysOk(buffers)
    requires Queued(slots, s) && Queued(slots, t) && s != t && slots[s].dev == slots[t].dev
    ensures slots[s].sector + 2 <= slots[t].sector || slots[t].sector + 2 <= slots[s].sector
  {
    SectorsOfBlock(slots, buffers, pending, s);
    SectorsOfBlock(slots, buffers, pending, t);
    OneRequestPerSector(slots, buffers, pending, s, t);
  }

  lemma KeysDistinct(slots: seq<Request>, current: seq<int>, queues: seq<seq<nat>>, buffers: seq<Buffer>,
                     pending: set<nat>, d: nat)
    requires PoolOk(slots, current, queues) && LocksOk(slots, buffers, pending) && KeysOk(buffers) && d < 7
    ensures InTable(queues[d], 32) && Elevator.Distinct(KeysOf(queues[d], slots))
  {
    var q := queues[d];
    forall i, j | 0 <= i < j < |q| ensures KeysOf(q, slots)[i] != KeysOf(q, slots)[j] {
      assert InQueue(queues, d, q[i]) && InQueue(queues, d, q[j]);
      OneRequestPerSector(slots, buffers, pending, q[i], q[j]);
    }
  }

  lemma {:induction false} AtMost(n: nat, s: set<nat>)
    requires forall x | x in s :: x < n
    ensures |s| <= n
  {
    if n > 0 {
      AtMost(n - 1, s - {n - 1});
    } else {
      assert s == {};
    }
  }

  function Writes(slots: seq<Request>): set<nat> {
    set s: nat | s < |slots| && Queued(slots, s) && slots[s].write
  }

  /** Writes never occupy more than 21 slots; a read finds none free only when the other 11 all
      hold reads. */
  lemma RoomForReads(slots: seq<Request>, current: seq<int>, queues: seq<seq<nat>>)
    requires PoolOk(slots, current, queues)
    ensures |Writes(slots)| <= 21
    ensures (forall s: nat | s < 32 :: Queued(slots, s)) ==> forall s: nat | 21 <= s < 32 :: Queued(slots, s) && !slots[s].write
  {
    assert forall s: nat | s in Writes(slots) :: Queued(slots, s);
    AtMost(21, Writes(slots));
  }

  // ---------------------------------------------------------------- steps on the locks

  lemma LockKeeps(slots: seq<Request>, buffers: seq<Buffer>, pending: set<nat>, b: nat)
    requires LocksOk(slots, buffers, pending) && b < |buffers| && !buffers[b].lock
    ensures LocksOk(slots, buffers[b := buffers[b].(lock := true)], pending + {b})
    ensures KeysOk(buffers) ==> KeysOk(buffers[b := buffers[b].(lock := true)])
  {
    assert !HasRequest(slots, b);
    assert forall s: nat | Queued(slots, s) :: slots[s].bh != b;
  }

  lemma UnlockKeeps(slots: seq<Request>, buffers: seq<Buffer>, pending: set<nat>, b: nat)
    requires LocksOk(slots, buffers, pending) && b in pending
    ensures b < |buffers| && LocksOk(slots, buffers[b := buffers[b].(lock := false)], pending - {b})
    ensures KeysOk(buffers) ==> KeysOk(buffers[b := buffers[b].(lock := false)])
  {
    assert !HasRequest(slots, b);
  }

  /** The links of the slots carry no lock. */
  predicate SameButLinks(a: seq<Request>, b: seq<Request>, r: nat) {
    |a| == |b| && forall s | 0 <= s < |a| && s != r :: b[s] == a[s].(next := b[s].next)
  }

  lemma QueueKeepsLocks(slots: seq<Request>, slots': seq<Request>, buffers: seq<Buffer>, pending: set<nat>,
                        b: nat, r: nat, write: bool)
    requires LocksOk(slots, buffers, pending) && KeysOk(buffers) && b in pending && r < |slots| && !Queued(slots, r)
    requires SameButLinks(slots, slots', r)
    requires b < |buffers| && buffers[b].dev > 0
    requires slots'[r] == RequestFor(b, buffers[b], write).(next := slots'[r].next)
    ensures LocksOk(slots', buffers[b := buffers[b].(dirt := false)], pending - {b})
    ensures KeysOk(buffers[b := buffers[b].(dirt := false)])
  {
    var buffers' := buffers[b := buffers[b].(dirt := false)];
    assert forall s: nat | s != r :: Queued(slots', s) <==> Queued(slots, s);
    forall a: nat | a < |buffers'| ensures buffers'[a].lock <==> a in pending - {b} || HasRequest(slots', a) {
      if a == b {
        assert Queued(slots', r) && slots'[r].bh == b;
      } else {
        if HasRequest(slots, a) {
          var s: nat :| s < |slots| && Queued(slots, s) && slots[s].bh == a;
          assert Queued(slots', s) && slots'[s].bh == a;
        }
        if HasRequest(slots', a) {
          var s: nat :| s < |slots'| && Queued(slots', s) && slots'[s].bh == a;
          assert Queued(slots, s) && slots[s].bh == a;
        }
      }
    }
  }

  lemma ServeKeepsLocks(slots: seq<Request>, buffers: seq<Buffer>, pending: set<nat>, h: nat, ok: bool)
    requires LocksOk(slots, buffers, pending) && KeysOk(buffers) && Queued(slots, h)
    ensures slots[h].bh < |buffers|
    ensures var b := slots[h].bh;
      var buffers' := buffers[b := buffers[b].(lock := false, uptodate := ok)];
      LocksOk(slots[h := slots[h].(dev := FREE)], buffers', pending) && KeysOk(buffers')
  {
    var b := slots[h].bh;
    var slots', buffers' := slots[h := slots[h].(dev := FREE)], buffers[b := buffers[b].(lock := false, uptodate := ok)];
    assert forall s: nat :: Queued(slots', s) <==> Queued(slots, s) && s != h;
    forall a: nat | a < |buffers'| ensures buffers'[a].lock <==> a in pending || HasRequest(slots', a) {
      if a != b && HasRequest(slots, a) {
        var s: nat :| s < |slots| && Queued(slots, s) && slots[s].bh == a;
        assert Queued(slots', s);
      }
    }
  }

  // ---------------------------------------------------------------- steps on the order

  lemma KeysSame(q: seq<nat>, slots: seq<Request>, slots': seq<Request>, r: nat)
    requires InTable(q, |slots|) && SameButLinks(slots, slots', r) && r !in q
    ensures KeysOf(q, slots') == KeysOf(q, slots)
  {
    assert forall i | 0 <= i < |q| :: q[i] in q;
  }

  /** The keys of a queue grow as the elevator's do. */
  lemma JoinKeepsSweeps(slots: seq<Request>, current: seq<int>, queues: seq<seq<nat>>, d: nat, p: nat, r: nat,
                        slots': seq<Request>)
    requires PoolOk(slots, current, queues) && d < 7 && p < |queues[d]| && r < 32 && !Queued(slots, r)
    requires SweepsOk(slots, queues) && |slots'| == 32 && SameButLinks(slots, slots', r)
    requires InTable(queues[d], 32) && Elevator.Distinct(KeysOf(queues[d], slots))
    requires KeyOf(slots'[r]) !in KeysOf(queues[d], slots) && p == Elevator.Place(KeysOf(queues[d], slots), KeyOf(slots'[r]), 0)
    ensures SweepsOk(slots', queues[d := Elevator.InsertAfter(queues[d], p, r)])
    ensures KeysOf(Elevator.InsertAfter(queues[d], p, r), slots') == Elevator.Add(KeysOf(queues[d], slots), KeyOf(slots'[r]))
  {
    hide Elevator.Place, Elevator.Add, Elevator.Distinct, Elevator.TwoSweeps, PoolOk, KeysOf, SameButLinks, Queued, SweepsOk;
    NotQueued(slots, current, queues, r);
    SweepOf(slots, queues, d);
    var q, keys, k := queues[d], KeysOf(queues[d], slots), KeyOf(slots'[r]);
    var n := Elevator.InsertAfter(q, p, r);
    JoinedKeys(q, slots, slots', p, r);
    Elevator.AddKeepsSweeps(keys, k);
    var queues' := queues[d := n];
    forall e | 0 <= e < 7 ensures Sweeps(queues'[e], slots') {
      SweepOf(slots, queues, e);
      if e != d { KeysSame(queues[e], slots, slots', r); }
    }
    SweepsFold(slots', queues');
  }

  lemma NotQueued(slots: seq<Request>, current: seq<int>, queues: seq<seq<nat>>, r: nat)
    requires PoolOk(slots, current, queues) && !Queued(slots, r)
    ensures |slots| == 32 && |queues| == 7 && forall e | 0 <= e < 7 :: r !in queues[e]
  {
    forall e | 0 <= e < 7 ensures r !in queues[e] {
      assert !InQueue(queues, e, r);
    }
  }

  lemma SweepOf(slots: seq<Request>, queues: seq<seq<nat>>, e: nat)
    requires SweepsOk(slots, queues) && e < |queues|
    ensures InTable(queues[e], |slots|) && Elevator.TwoSweeps(KeysOf(queues[e], slots))
  {
  }

  lemma SweepsFold(slots: seq<Request>, queues: seq<seq<nat>>)
    requires forall e | 0 <= e < |queues| :: Sweeps(queues[e], slots)
    ensures SweepsOk(slots, queues)
  {
  }

  lemma JoinedKeys(q: seq<nat>, slots: seq<Request>, slots': seq<Request>, p: nat, r: nat)
    requires InTable(q, |slots|) && p < |q| && r < |slots| && r !in q && SameButLinks(slots, slots', r)
    requires p == Elevator.Place(KeysOf(q, slots), KeyOf(slots'[r]), 0)
    ensures InTable(Elevator.InsertAfter(q, p, r), |slots'|)
    ensures KeysOf(Elevator.InsertAfter(q, p, r), slots') == Elevator.Add(KeysOf(q, slots), KeyOf(slots'[r]))
  {
    hide Elevator.Place;
    var n := Elevator.InsertAfter(q, p, r);
    KeysSame(q, slots, slots', r);
    assert KeysOf(n, slots') == Elevator.InsertAfter(KeysOf(q, slots), p, KeyOf(slots'[r]));
  }

  // ---------------------------------------------------------------- the whole state

  ghost predicate LayerOk(slots: seq<Request>, current: seq<int>, queues: seq<seq<nat>>, buffers: seq<Buffer>, pending: set<nat>) {
    PoolOk(slots, current, queues) && LocksOk(slots, buffers, pending) && KeysOk(buffers) && SweepsOk(slots, queues)
  }

  /** What a queue asks of its device, in order. */
  ghost function Wanted(slots: seq<Request>, queues: seq<seq<nat>>, d: nat): seq<Elevator.Key> {
    if d < |queues| && InTable(queues[d], |slots|) then KeysOf(queues[d], slots) else []
  }

  /** A buffer, locked and still without a slot, that slot r may be filled for. */
  ghost predicate MayFill(slots: seq<Request>, buffers: seq<Buffer>, pending: set<nat>, d: nat, r: nat, req: Request) {
    && d < 7 && r < |slots| && !Queued(slots, r) && req.dev > 0 && req.dev / 256 == d && (r >= 21 ==> !req.write)
    && req.bh in pending && req.bh < |buffers| && req == RequestFor(req.bh, buffers[req.bh], req.write)
  }

  function Clean(buffers: seq<Buffer>, b: nat): (c: seq<Buffer>)
    requires b < |buffers|
    ensures |c| == |buffers|
  {
    buffers[b := buffers[b].(dirt := false)]
  }

  /** The new request's key is not queued yet: its buffer is. */
  lemma NewKey(slots: seq<Request>, current: seq<int>, queues: seq<seq<nat>>, buffers: seq<Buffer>, pending: set<nat>,
               d: nat, r: nat, req: Request)
    requires LayerOk(slots, current, queues, buffers, pending) && MayFill(slots, buffers, pending, d, r, req)
    ensures KeyOf(req) !in Wanted(slots, queues, d) && Elevator.Distinct(Wanted(slots, queues, d))
    ensures InTable(queues[d], 32)
  {
    KeysDistinct(slots, current, queues, buffers, pending, d);
    var q := queues[d];
    forall i | 0 <= i < |q| ensures KeyOf(slots[q[i]]) != KeyOf(req) {
      assert InQueue(queues, d, q[i]);
      var a, b := slots[q[i]].bh, req.bh;
      assert a != b;
      var lo, hi := if a < b then a else b, if a < b then b else a;
      assert !(buffers[lo].dev == buffers[hi].dev && buffers[lo].block == buffers[hi].block);
    }
  }

  lemma JoinLayer(slots: seq<Request>, current: seq<int>, queues: seq<seq<nat>>, buffers: seq<Buffer>, pending: set<nat>,
                  d: nat, p: nat, r: nat, req: Request)
    requires LayerOk(slots, current, queues, buffers, pending) && MayFill(slots, buffers, pending, d, r, req)
    requires p < |queues[d]| && p == Elevator.Place(Wanted(slots, queues, d), KeyOf(req), 0)
    ensures InTable(queues[d], 32)
    ensures var (slots', queues') := (Linked(slots, queues[d], p, r, req), queues[d := Elevator.InsertAfter(queues[d], p, r)]);
      && LayerOk(slots', current, queues', Clean(buffers, req.bh), pending - {req.bh})
      && Wanted(slots', queues', d) == Elevator.Add(Wanted(slots, queues, d), KeyOf(req))
  {
    hide PoolOk, LocksOk, KeysOk, SweepsOk, Elevator.Place, Elevator.Distinct;
    NewKey(slots, current, queues, buffers, pending, d, r, req);
    PoolSizes(slots, current, queues);
    JoinKeeps(slots, current, queues, d, p, r, req);
    var slots' := Linked(slots, queues[d], p, r, req);
    assert SameButLinks(slots, slots', r) && KeyOf(slots'[r]) == KeyOf(req);
    QueueKeepsLocks(slots, slots', buffers, pending, req.bh, r, req.write);
    JoinKeepsSweeps(slots, current, queues, d, p, r, slots');
    NotQueued(slots, current, queues, r);
  }

  lemma PoolSizes(slots: seq<Request>, current: seq<int>, queues: seq<seq<nat>>)
    requires PoolOk(slots, current, queues)
    ensures |slots| == 32 && |current| == |queues| == 7
    ensures forall d | 0 <= d < 7 :: current[d] == Head(queues[d]) && InTable(queues[d], 32)
  {
    assert forall d | 0 <= d < 7 :: IsQueue(queues[d], current[d], slots);
  }

  lemma StartLayer(slots: seq<Request>, current: seq<int>, queues: seq<seq<nat>>, buffers: seq<Buffer>, pending: set<nat>,
                   d: nat, r: nat, req: Request)
    requires LayerOk(slots, current, queues, buffers, pending) && MayFill(slots, buffers, pending, d, r, req)
    requires d < |queues| && queues[d] == [] && |current| == 7
    ensures LayerOk(slots[r := req], current[d := r], queues[d := [r]], Clean(buffers, req.bh), pending - {req.bh})
    ensures Wanted(slots[r := req], queues[d := [r]], d) == [KeyOf(req)]
  {
    hide PoolOk, LocksOk, KeysOk, SweepsOk;
    PoolSizes(slots, current, queues);
    StartKeeps(slots, current, queues, d, r, req);
    QueueKeepsLocks(slots, slots[r := req], buffers, pending, req.bh, r, req.write);
    NotQueued(slots, current, queues, r);
    var queues' := queues[d := [r]];
    forall e | 0 <= e < 7 ensures Sweeps(queues'[e], slots[r := req]) {
      SweepOf(slots, queues, e);
      if e != d { KeysSame(queues[e], slots, slots[r := req], r); }
    }
    SweepsFold(slots[r := req], queues');
  }

  function Done(buffers: seq<Buffer>, b: nat, ok: bool): (c: seq<Buffer>)
    requires b < |buffers|
    ensures |c| == |buffers|
  {
    buffers[b := buffers[b].(lock := false, uptodate := ok)]
  }

  lemma ServeLayer(slots: seq<Request>, current: seq<int>, queues: seq<seq<nat>>, buffers: seq<Buffer>, pending: set<nat>,
                   d: nat, ok: bool)
    requires LayerOk(slots, current, queues, buffers, pending) && d < 7 && |current| == 7 && current[d] != NULL
    ensures |queues| == 7 && |queues[d]| > 0 && current[d] == queues[d][0] < |slots| && slots[current[d]].bh < |buffers|
    ensures var (h, q') := (current[d], queues[d := queues[d][1..]]);
      var slots' := slots[h := slots[h].(dev := FREE)];
      && LayerOk(slots', current[d := slots[h].next], q', Done(buffers, slots[h].bh, ok), pending)
      && Wanted(slots, queues, d) != [] && Wanted(slots', q', d) == Wanted(slots, queues, d)[1..]
  {
    hide LocksOk, KeysOk, SweepsOk, PoolOk;
    PoolSizes(slots, current, queues);
    ServeKeeps(slots, current, queues, d);
    var h, q' := current[d], queues[d := queues[d][1..]];
    var slots' := slots[h := slots[h].(dev := FREE)];
    HeadQueued(slots, current, queues, d);
    ServeKeepsLocks(slots, buffers, pending, h, ok);
    forall e | 0 <= e < 7 ensures Sweeps(q'[e], slots') {
      SweepOf(slots, queues, e);
      if e != d {
        KeysSame(queues[e], slots, slots', h);
      } else {
        KeysDistinct(slots, current, queues, buffers, pending, d);
        TailKeys(queues[d], slots);
        Elevator.PopKeepsSweeps(KeysOf(queues[d], slots));
      }
    }
    SweepsFold(slots', q');
    KeysDistinct(slots, current, queues, buffers, pending, d);
    DistinctQueue(slots, current, queues, d);
    TailKeys(queues[d], slots);
  }

  lemma DistinctQueue(slots: seq<Request>, current: seq<int>, queues: seq<seq<nat>>, d: nat)
    requires PoolOk(slots, current, queues) && d < 7
    ensures Distinct(queues[d])
  {
    assert IsQueue(queues[d], current[d], slots);
  }

  lemma HeadQueued(slots: seq<Request>, current: seq<int>, queues: seq<seq<nat>>, d: nat)
    requires PoolOk(slots, current, queues) && d < 7 && queues[d] != []
    ensures Queued(slots, queues[d][0]) && forall e | 0 <= e < 7 && e != d :: queues[d][0] !in queues[e]
  {
    var h := queues[d][0];
    assert InQueue(queues, d, h);
    assert Queued(slots, h);
    forall e | 0 <= e < 7 && e != d ensures h !in queues[e] {
      assert !InQueue(queues, e, h);
    }
  }

  lemma TailKeys(q: seq<nat>, slots: seq<Request>)
    requires Distinct(q) && |q| > 0 && InTable(q, |slots|)
    ensures InTable(q[1..], |slots|)
    ensures KeysOf(q[1..], slots[q[0] := slots[q[0]].(dev := FREE)]) == KeysOf(q, slots)[1..]
  {
  }

  lemma LayerSizes(slots: seq<Request>, current: seq<int>, queues: seq<seq<nat>>, buffers: seq<Buffer>, pending: set<nat>)
    requires LayerOk(slots, current, queues, buffers, pending)
    ensures PoolOk(slots, current, queues) && |slots| == 32 && |current| == |queues| == 7
    ensures forall d | 0 <= d < 7 :: (current[d] == NULL <==> queues[d] == []) && InTable(queues[d], 32)
  {
    PoolSizes(slots, current, queues);
  }

  lemma EmptyAsked(slots: seq<Request>, queues: seq<seq<nat>>, d: nat, k: Elevator.Key)
    requires d < |queues| && queues[d] == []
    ensures Elevator.Add(Wanted(slots, queues, d), k) == [k]
  {
  }

  lemma EmptyLayer(slots: seq<Request>, current: seq<int>, queues: seq<seq<nat>>, buffers: seq<Buffer>)
    requires |slots| == 32 && |current| == 7 && queues == [[], [], [], [], [], [], []] && KeysOk(buffers)
    requires (forall s | 0 <= s < 32 :: slots[s].dev < 0) && (forall d | 0 <= d < 7 :: current[d] == NULL)
    requires forall b | 0 <= b < |buffers| :: !buffers[b].lock
    ensures LayerOk(slots, current, queues, buffers, {})
    ensures forall d | 0 <= d < 7 :: Wanted(slots, queues, d) == []
  {
    assert forall s: nat :: !Queued(slots, s);
    assert forall d: nat, s: nat :: !InQueue(queues, d, s);
  }

  lemma LockLayer(slots: seq<Request>, current: seq<int>, queues: seq<seq<nat>>, buffers: seq<Buffer>, pending: set<nat>, b: nat)
    requires LayerOk(slots, current, queues, buffers, pending) && b < |buffers| && !buffers[b].lock
    ensures b !in pending
    ensures LayerOk(slots, current, queues, buffers[b := buffers[b].(lock := true)], pending + {b})
  {
    LockKeeps(slots, buffers, pending, b);
  }

  lemma UnlockLayer(slots: seq<Request>, current: seq<int>, queues: seq<seq<nat>>, buffers: seq<Buffer>, pending: set<nat>, b: nat)
    requires LayerOk(slots, current, queues, buffers, pending) && b in pending
    ensures b < |buffers| && LayerOk(slots, current, queues, buffers[b := buffers[b].(lock := false)], pending - {b})
  {
    UnlockKeeps(slots, buffers, pending, b);
  }

  // ---------------------------------------------------------------- the state itself

  datatype Command = Read | Write | ReadAhead | WriteAhead

  /** What became of a command: no driver, a read-ahead of a locked buffer, nothing to do, no slot
      for a read-ahead, its maker sleeps until a slot is free, or it is queued. */
  datatype Outcome = NoDevice | Busy | Nothing | Dropped | Asleep | Added

  predicate InOrder(a: Request, b: Request) {
    Elevator.InOrder(KeyOf(a), KeyOf(b))
  }

  class BlockLayer {
    const request: array<Request>
    const current: array<int>
    const buffer: array<Buffer>
    /** The major devices that have a driver; major 0 never has one. */
    const drivers: set<nat>
    /** The slots of each device queue in order, and the locked buffers still without a slot. */
    ghost var queues: seq<seq<nat>>
    ghost var pending: set<nat>

    ghost predicate Shape()
      reads this, request, current, buffer
    {
      && request.Length == 32 && current.Length == 7
      && request as object !in {current as object, buffer} && current as object != buffer
      && (forall m | m in drivers :: 0 < m < 7)
    }

    ghost predicate Valid()
      reads this, request, current, buffer
    {
      Shape() && LayerOk(request[..], current[..], queues, buffer[..], pending)
    }

    /** What the queue of a major device asks for, in order. */
    ghost function Asked(d: nat): seq<Elevator.Key>
      reads this, request
    {
      Wanted(request[..], queues, d)
    }

    /** Lines 157-165, before any buffer is locked. */
    constructor (table: array<Buffer>, drivers: set<nat>)
      requires KeysOk(table[..]) && (forall m | m in drivers :: 0 < m < 7)
      requires forall b | 0 <= b < table.Length :: !table[b].lock
      ensures Valid() && buffer == table && fresh(request) && fresh(current)
      ensures forall d | 0 <= d < 7 :: Asked(d) == []
    {
      request := new Request[32](i => Request(FREE, false, 0, 0, NULL));
      current := new int[7](i => NULL);
      buffer := table;
      this.drivers := drivers;
      queues := [[], [], [], [], [], [], []];
      pending := {};
      new;
      hide LayerOk, KeysOk;
      EmptyLayer(request[..], current[..], queues, buffer[..]);
    }

    /** Lines 115-122: the highest free slot that the command may use. */
    method FindSlot(write: bool) returns (r: int)
      requires Shape()
      ensures r == NULL <==> forall s: nat | s < (if write then 21 else 32) :: Queued(request[..], s)
      ensures r != NULL ==> 0 <= r < (if write then 21 else 32) && !Queued(request[..], r)
      ensures forall s: nat | r < s < (if write then 21 else 32) :: Queued(request[..], s)
    {
      r := if write then 20 else 31;
      while r >= 0
        invariant NULL <= r < if write then 21 else 32
        invariant forall s: nat | r < s < (if write then 21 else 32) :: Queued(request[..], s)
      {
        assert request[r].dev < 0 <==> !Queued(request[..], r);
        if request[r].dev < 0 { return; }
        r := r - 1;
      }
    }

    /** Lines 78-82: the request of a device queue after which the new one goes. */
    method FindPlace(d: nat, req: Request) returns (tmp: nat, ghost p: nat)
      requires Shape() && PoolOk(request[..], current[..], queues) && d < 7 && queues[d] != []
      ensures p < |queues[d]| && tmp == queues[d][p] < 32
      ensures p == Elevator.Place(Asked(d), KeyOf(req), 0)
    {
      ghost var q, slots := queues[d], request[..];
      assert IsQueue(q, current[d], slots);
      ghost var keys, k := KeysOf(q, slots), KeyOf(req);
      tmp, p := current[d], 0;
      LinkAt(q, current[d], slots, 0);
      while request[tmp].next != NULL &&
            !((InOrder(request[tmp], req) || !InOrder(request[tmp], request[request[tmp].next])) &&
              InOrder(req, request[request[tmp].next]))
        invariant p < |q| && tmp == q[p] && tmp < 32 && NULL <= request[tmp].next == Next(q, p) < 32
        invariant Elevator.Place(keys, k, 0) == Elevator.Place(keys, k, p)
        decreases |q| - p
      {
        LinkAt(q, current[d], slots, p + 1);
        tmp, p := request[tmp].next, p + 1;
      }
    }

    /** Lines 64-86, with the slot filled in as lines 133-141 do. */
    method AddRequest(d: nat, r: nat, req: Request)
      requires Valid() && MayFill(request[..], buffer[..], pending, d, r, req)
      modifies this`queues, this`pending, request, current, buffer
      ensures Valid() && pending == old(pending) - {req.bh}
      ensures req.bh < buffer.Length && buffer[..] == Clean(old(buffer[..]), req.bh)
      ensures Asked(d) == Elevator.Add(old(Asked(d)), KeyOf(req))
      ensures request[r] == req.(next := request[r].next)
    {
      hide LayerOk, PoolOk, Queued, Wanted, Elevator.Add, Elevator.Place, RequestFor, KeyOf;
      ghost var slots, heads, bufs, qs, pend := request[..], current[..], buffer[..], queues, pending;
      LayerSizes(slots, heads, qs, bufs, pend);
      if current[d] == NULL {
        StartLayer(slots, heads, qs, bufs, pend, d, r, req);
        buffer[req.bh] := buffer[req.bh].(dirt := false);
        request[r] := req;
        current[d] := r;
        queues, pending := queues[d := [r]], pending - {req.bh};
        assert request[..] == slots[r := req] && current[..] == heads[d := r] && buffer[..] == Clean(bufs, req.bh);
        EmptyAsked(slots, qs, d, KeyOf(req));
      } else {
        ghost var p;
        var tmp;
        tmp, p := FindPlace(d, req);
        JoinLayer(slots, heads, qs, bufs, pend, d, p, r, req);
        buffer[req.bh] := buffer[req.bh].(dirt := false);
        request[r] := req.(next := request[tmp].next);
        request[tmp] := request[tmp].(next := r);
        queues, pending := queues[d := Elevator.InsertAfter(queues[d], p, r)], pending - {req.bh};
        assert request[..] == Linked(slots, qs[d], p, r, req) && current[..] == heads && buffer[..] == Clean(bufs, req.bh);
      }
    }

    /** Slot r was free and holds the read or write of the block of buffer b: the sectors of 512 bytes that
        its 1024 bytes are. */
    twostate predicate Holds(r: nat, b: nat, write: bool)
      reads this, request, buffer
    {
      && r < request.Length && b < buffer.Length && old(request[r]).dev < 0
      && request[r].bh == b && request[r].write == write && request[r].dev == buffer[b].dev
      && 512 * request[r].sector == 1024 * buffer[b].block
    }

    /** Lines 110-142: true when the locked buffer got a slot, false when its maker must sleep. */
    method Enqueue(b: nat, write: bool) returns (ok: bool)
      requires Valid() && b in pending && b < buffer.Length && buffer[b].dev / 256 in drivers
      modifies this`queues, this`pending, request, current, buffer
      ensures Valid()
      ensures ok <==> exists s: nat | s < (if write then 21 else 32) :: !Queued(old(request[..]), s)
      ensures ok ==> pending == old(pending) - {b} && buffer[..] == Clean(old(buffer[..]), b)
      ensures ok ==> Asked(buffer[b].dev / 256) ==
                     Elevator.Add(old(Asked(buffer[b].dev / 256)), Elevator.Key(write, buffer[b].dev, 2 * buffer[b].block))
      ensures ok ==> exists r: nat :: Holds(r, b, write)
      ensures !ok ==> pending == old(pending) && buffer[..] == old(buffer[..]) && queues == old(queues)
      ensures !ok ==> request[..] == old(request[..]) && current[..] == old(current[..])
    {
      hide LayerOk, PoolOk, Wanted, Elevator.Add;
      var r := FindSlot(write);
      ok := r != NULL;
      if ok {
        var req := RequestFor(b, buffer[b], write);
        AddRequest(buffer[b].dev / 256, r, req);
        assert Holds(r, b, write);
      }
    }

    /** Lines 145-155 and 88-142. A command other than read-ahead is taken up at the point where
        lock_buffer has seen the buffer unlocked. */
    method LlRwBlock(rw: Command, b: nat) returns (out: Outcome)
      requires Valid() && b < buffer.Length && (buffer[b].lock ==> rw in {ReadAhead, WriteAhead})
      modifies this`queues, this`pending, request, current, buffer
      ensures Valid()
      ensures out == NoDevice <==> buffer[b].dev / 256 !in drivers
      ensures out == Busy <==> buffer[b].dev / 256 in drivers && old(buffer[b].lock)
      ensures out == Nothing <==> buffer[b].dev / 256 in drivers && !old(buffer[b].lock) &&
                                  if rw in {Write, WriteAhead} then !old(buffer[b].dirt) else old(buffer[b].uptodate)
      ensures out in {Dropped, Asleep} ==> forall s: nat | s < (if rw in {Write, WriteAhead} then 21 else 32) :: Queued(request[..], s)
      ensures out == Added ==> exists s: nat | s < (if rw in {Write, WriteAhead} then 21 else 32) :: !Queued(old(request[..]), s)
      ensures out == Dropped ==> rw in {ReadAhead, WriteAhead}
      ensures out == Asleep ==> rw in {Read, Write}
      ensures out in {NoDevice, Busy, Nothing, Dropped} ==> buffer[..] == old(buffer[..]) && pending == old(pending)
      ensures out != Added ==> request[..] == old(request[..]) && queues == old(queues)
      ensures out == Asleep ==> pending == old(pending) + {b} && buffer[..] == old(buffer[..])[b := old(buffer[b]).(lock := true)]
      ensures out == Added ==> pending == old(pending)
      ensures out == Added ==> buffer[..] == old(buffer[..])[b := old(buffer[b]).(lock := true, dirt := false)]
      ensures out == Added && rw in {Read, ReadAhead} ==> exists r: nat :: Holds(r, b, false)
      ensures out == Added && rw in {Write, WriteAhead} ==> exists r: nat :: Holds(r, b, true)
      ensures out == Added ==> Asked(buffer[b].dev / 256) ==
                               Elevator.Add(old(Asked(buffer[b].dev / 256)),
                                            Elevator.Key(rw in {Write, WriteAhead}, buffer[b].dev, 2 * buffer[b].block))
    {
      hide LayerOk, PoolOk, Wanted, Elevator.Add, Queued, RequestFor, KeyOf;
      ghost var bufs := buffer[..];
      if buffer[b].dev / 256 !in drivers { return NoDevice; }
      var ahead := rw in {ReadAhead, WriteAhead};
      if ahead && buffer[b].lock { return Busy; }
      var write := rw in {Write, WriteAhead};
      LockLayer(request[..], current[..], queues, buffer[..], pending, b);
      buffer[b] := buffer[b].(lock := true);
      pending := pending + {b};
      assert buffer[..] == bufs[b := bufs[b].(lock := true)];
      if (write && !buffer[b].dirt) || (!write && buffer[b].uptodate) {
        out := Nothing;
      } else {
        label Locked:
        var ok := Enqueue(b, write);
        if ok {
          ghost var r: nat :| Holds@Locked(r, b, write);
          assert Holds(r, b, write);
        }
        out := if ok then Added else if ahead then Dropped else Asleep;
      }
      if out == Nothing || out == Dropped {
        UnlockLayer(request[..], current[..], queues, buffer[..], pending, b);
        buffer[b] := buffer[b].(lock := false);
        pending := pending - {b};
        assert buffer[..] == bufs;
      }
    }

    /** blk.h lines 109-125: the driver is done with the request at the head. */
    method EndRequest(d: nat, ok: bool)
      requires Valid() && d < 7 && current[d] != NULL
      modifies this`queues, request, current, buffer
      ensures Valid() && pending == old(pending)
      ensures old(Asked(d)) != [] && Asked(d) == old(Asked(d))[1..]
      ensures 0 <= old(current[d]) < 32 && old(request[current[d]]).bh < buffer.Length
      ensures var b := old(request[current[d]]).bh;
        buffer[..] == old(buffer[..])[b := old(buffer[..])[b].(lock := false, uptodate := ok)]
    {
      hide LayerOk, PoolOk, Wanted, Queued;
      ghost var slots, heads, bufs, qs := request[..], current[..], buffer[..], queues;
      ServeLayer(slots, heads, qs, bufs, pending, d, ok);
      var h := current[d];
      var b := request[h].bh;
      buffer[b] := buffer[b].(uptodate := ok);
      buffer[b] := buffer[b].(lock := false);
      request[h] := request[h].(dev := FREE);
      current[d] := request[h].next;
      queues := queues[d := queues[d][1..]];
      assert request[..] == slots[h := slots[h].(dev := FREE)] && current[..] == heads[d := slots[h].next];
      assert buffer[..] == Done(bufs, b, ok);
    }
  }
}

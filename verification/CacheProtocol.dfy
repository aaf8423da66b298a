/** The buffer cache of fs/buffer.c as a transition system. The kernel is not preempted, so a
    step is what one task does between two places where it may sleep, or what the disk does;
    steps of different tasks interleave freely. */
module CacheProtocol {
  datatype Key = Key(dev: nat, block: nat)

  type Data = seq<int>

  /** Why a buffer is locked: a request that has no slot yet, or one in the device queue. */
  datatype Io = Quiet | WaitingRead | WaitingWrite | Reading | Writing

  datatype Buf = Buf(key: Key, uptodate: bool, dirt: bool, count: nat, io: Io, data: Data)
  {
    predicate Locked() { io != Quiet }
    predicate Keyed() { key.dev != 0 }
  }

  /** Where a task is. `b` is the buffer and `k` the block it is after.
      Hit: in get_hash_table, count raised, waiting for the lock.
      Victim: in getblk, waiting for the buffer it means to take.
      Starved: asleep on buffer_wait. Got: getblk has returned. WantRead: in make_request,
      waiting for the lock. ReadWait: in bread, waiting for the data. Have: bread or
      new_block has returned. Releasing: in brelse, waiting for the lock. */
  datatype Pc =
    | Idle
    | Hit(b: nat, k: Key)
    | Victim(b: nat, k: Key)
    | Starved(k: Key)
    | Got(b: nat, k: Key)
    | WantRead(b: nat, k: Key)
    | ReadWait(b: nat, k: Key)
    | Have(b: nat, k: Key)
    | Releasing(b: nat, k: Key)

  datatype Sys = Sys(bufs: seq<Buf>, disk: map<Key, Data>, pcs: seq<Pc>)

  function At(m: map<Key, Data>, k: Key): Data {
    if k in m then m[k] else []
  }

  predicate Cached(s: Sys, k: Key) {
    exists b :: 0 <= b < |s.bufs| && s.bufs[b].key == k
  }

  function SetBuf(s: Sys, b: nat, x: Buf): Sys
    requires b < |s.bufs|
  {
    Sys(s.bufs[b := x], s.disk, s.pcs)
  }

  function SetPc(s: Sys, t: nat, p: Pc): Sys
    requires t < |s.pcs|
  {
    Sys(s.bufs, s.disk, s.pcs[t := p])
  }

  function Counted(x: Buf, d: int): Buf
    requires x.count as int + d >= 0
  {
    Buf(x.key, x.uptodate, x.dirt, x.count + d, x.io, x.data)
  }

  // ---------------------------------------------------------------- steps

  /** `c` is the choice a lookup makes: the buffer find_buffer finds, or else the victim of
      the scan over the free list, or else |bufs|. `junk` is what a write in flight may leave
      on disk when its buffer was changed meanwhile. */
  datatype Step =
    | Lookup(t: nat, k: Key, c: nat)
    | HitDone(t: nat, c: nat)
    | VictimDone(t: nat, c: nat)
    | Wake(t: nat, c: nat)
    | Bread(t: nat)
    | SubmitRead(t: nat)
    | ReadDone(t: nat)
    | Put(t: nat, v: Data)          // bread client changes the data and marks it dirty
    | Fresh(t: nat, v: Data)        // new_block fills the buffer without reading it
    | Forget(t: nat)                // free_block drops the buffer's contents
    | Release(t: nat)
    | Released(t: nat)
    | LockForWrite(b: nat)          // ll_rw_block(WRITE) from sync_dev or sys_sync
    | Enqueue(b: nat)               // add_request
    | Complete(b: nat, junk: Data)  // end_request(1)

  /** find_buffer finds c; or nothing is found and c is an unused buffer; or there is none. */
  ghost predicate GoodChoice(s: Sys, k: Key, c: nat) {
    if Cached(s, k) then c < |s.bufs| && s.bufs[c].key == k
    else if exists b :: 0 <= b < |s.bufs| && s.bufs[b].count == 0 then c < |s.bufs| && s.bufs[c].count == 0
    else c == |s.bufs|
  }

  /** getblk from `repeat` on up to the first place it may sleep. */
  ghost function Look(s: Sys, t: nat, k: Key, c: nat): Sys
    requires t < |s.pcs| && GoodChoice(s, k, c)
  {
    if Cached(s, k) then SetPc(SetBuf(s, c, Counted(s.bufs[c], 1)), t, Hit(c, k))
    else if c < |s.bufs| then SetPc(s, t, Victim(c, k))
    else SetPc(s, t, Starved(k))
  }

  predicate HasBuffer(s: Sys, t: nat) {
    t < |s.pcs| && !s.pcs[t].Idle? && !s.pcs[t].Starved? && s.pcs[t].b < |s.bufs|
  }

  ghost predicate Enabled(s: Sys, e: Step) {
    match e
    case Lookup(t, k, c) => t < |s.pcs| && s.pcs[t].Idle? && k.dev != 0 && GoodChoice(s, k, c)
    case HitDone(t, c) =>
      && HasBuffer(s, t) && s.pcs[t].Hit? && !s.bufs[s.pcs[t].b].Locked()
      && (s.bufs[s.pcs[t].b].key != s.pcs[t].k ==>
            s.bufs[s.pcs[t].b].count > 0 && GoodChoice(SetBuf(s, s.pcs[t].b, Counted(s.bufs[s.pcs[t].b], -1)), s.pcs[t].k, c))
    case VictimDone(t, c) =>
      && HasBuffer(s, t) && s.pcs[t].Victim? && !s.bufs[s.pcs[t].b].Locked() && GoodChoice(s, s.pcs[t].k, c)
    case Wake(t, c) => t < |s.pcs| && s.pcs[t].Starved? && GoodChoice(s, s.pcs[t].k, c)
    case Bread(t) => HasBuffer(s, t) && s.pcs[t].Got?
    case SubmitRead(t) => HasBuffer(s, t) && s.pcs[t].WantRead? && !s.bufs[s.pcs[t].b].Locked()
    case ReadDone(t) => HasBuffer(s, t) && s.pcs[t].ReadWait? && !s.bufs[s.pcs[t].b].Locked() && s.bufs[s.pcs[t].b].uptodate
    case Put(t, _) => HasBuffer(s, t) && s.pcs[t].Have?
    case Fresh(t, _) => HasBuffer(s, t) && s.pcs[t].Got? && !s.bufs[s.pcs[t].b].Locked() && s.bufs[s.pcs[t].b].count == 1
    case Forget(t) => HasBuffer(s, t) && s.pcs[t].Got? && !s.bufs[s.pcs[t].b].Locked() && s.bufs[s.pcs[t].b].count == 1
    case Release(t) => HasBuffer(s, t) && (s.pcs[t].Got? || s.pcs[t].Have?)
    case Released(t) => HasBuffer(s, t) && s.pcs[t].Releasing? && !s.bufs[s.pcs[t].b].Locked() && s.bufs[s.pcs[t].b].count > 0
    case LockForWrite(b) => b < |s.bufs| && !s.bufs[b].Locked() && s.bufs[b].dirt && s.bufs[b].Keyed()
    case Enqueue(b) => b < |s.bufs| && (s.bufs[b].io.WaitingRead? || s.bufs[b].io.WaitingWrite?)
    case Complete(b, _) => b < |s.bufs| && (s.bufs[b].io.Reading? || s.bufs[b].io.Writing?)
  }

  ghost function Do(s: Sys, e: Step): Sys
    requires Enabled(s, e)
  {
    match e
    case Lookup(t, k, c) => Look(s, t, k, c)
    case HitDone(t, c) =>
      var (b, k) := (s.pcs[t].b, s.pcs[t].k);
      if s.bufs[b].key == k then SetPc(s, t, Got(b, k))
      else Look(SetBuf(s, b, Counted(s.bufs[b], -1)), t, k, c)
    case VictimDone(t, c) =>
      var (b, k) := (s.pcs[t].b, s.pcs[t].k);
      if s.bufs[b].count != 0 then Look(s, t, k, c)
      else if s.bufs[b].dirt then s                       // sync_dev and wait once more
      else if Cached(s, k) then Look(s, t, k, c)
      else SetPc(SetBuf(s, b, Buf(k, false, false, 1, Quiet, s.bufs[b].data)), t, Got(b, k))
    case Wake(t, c) => Look(s, t, s.pcs[t].k, c)
    case Bread(t) =>
      var (b, k) := (s.pcs[t].b, s.pcs[t].k);
      SetPc(s, t, if s.bufs[b].uptodate then Have(b, k) else WantRead(b, k))
    case SubmitRead(t) =>
      var (b, k, x) := (s.pcs[t].b, s.pcs[t].k, s.bufs[s.pcs[t].b]);
      var s1 := if x.uptodate then s else SetBuf(s, b, Buf(x.key, x.uptodate, x.dirt, x.count, WaitingRead, x.data));
      SetPc(s1, t, ReadWait(b, k))
    case ReadDone(t) => SetPc(s, t, Have(s.pcs[t].b, s.pcs[t].k))
    case Put(t, v) =>
      var (b, x) := (s.pcs[t].b, s.bufs[s.pcs[t].b]);
      SetBuf(s, b, Buf(x.key, x.uptodate, true, x.count, x.io, v))
    case Fresh(t, v) =>
      var (b, x) := (s.pcs[t].b, s.bufs[s.pcs[t].b]);
      SetPc(SetBuf(s, b, Buf(x.key, true, true, x.count, x.io, v)), t, Have(b, s.pcs[t].k))
    case Forget(t) =>
      var (b, x) := (s.pcs[t].b, s.bufs[s.pcs[t].b]);
      SetBuf(s, b, Buf(x.key, false, false, x.count, x.io, x.data))
    case Release(t) => SetPc(s, t, Releasing(s.pcs[t].b, s.pcs[t].k))
    case Released(t) =>
      var b := s.pcs[t].b;
      SetPc(SetBuf(s, b, Counted(s.bufs[b], -1)), t, Idle)
    case LockForWrite(b) =>
      var x := s.bufs[b];
      SetBuf(s, b, Buf(x.key, x.uptodate, x.dirt, x.count, WaitingWrite, x.data))
    case Enqueue(b) =>
      var x := s.bufs[b];
      SetBuf(s, b, Buf(x.key, x.uptodate, false, x.count, if x.io.WaitingRead? then Reading else Writing, x.data))
    case Complete(b, junk) =>
      var x := s.bufs[b];
      if x.io.Reading? then SetBuf(s, b, Buf(x.key, true, x.dirt, x.count, Quiet, At(s.disk, x.key)))
      else Sys(s.bufs[b := Buf(x.key, true, x.dirt, x.count, Quiet, x.data)],
               s.disk[x.key := if x.dirt then junk else x.data], s.pcs)
  }

  // ---------------------------------------------------------------- the plain map it stands for

  /** What clients have put: the last data written to each block. Freeing a block gives up its
      contents, leaving whatever the disk has. */
  ghost function Apply(latest: map<Key, Data>, s: Sys, e: Step): map<Key, Data>
    requires Enabled(s, e)
  {
    match e
    case Put(t, v) => latest[s.pcs[t].k := v]
    case Fresh(t, v) => latest[s.pcs[t].k := v]
    case Forget(t) => latest[s.pcs[t].k := At(s.disk, s.pcs[t].k)]
    case _ => latest
  }

  // ---------------------------------------------------------------- the invariant

  /** At most one buffer holds a block. */
  ghost predicate Unique(s: Sys) {
    forall b, c | 0 <= b < |s.bufs| && 0 <= c < |s.bufs| && b != c && s.bufs[b].Keyed() :: s.bufs[b].key != s.bufs[c].key
  }

  predicate Holds(p: Pc, b: nat) {
    !p.Idle? && !p.Starved? && !p.Victim? && p.b == b
  }

  ghost function Holders(pcs: seq<Pc>, b: nat): set<nat> {
    set t: nat | t < |pcs| && Holds(pcs[t], b)
  }

  /** b_count is the number of tasks that hold the buffer. */
  ghost predicate CountsOk(s: Sys) {
    forall b | 0 <= b < |s.bufs| :: s.bufs[b].count == |Holders(s.pcs, b)|
  }

  ghost predicate PcOk(s: Sys, t: nat)
    requires t < |s.pcs|
  {
    var p := s.pcs[t];
    && (!p.Idle? ==> p.k.dev != 0)
    && (!p.Idle? && !p.Starved? ==> p.b < |s.bufs|)
    && (forall b | 0 <= b < |s.bufs| && Holds(p, b) :: s.bufs[b].key == p.k)
    && (p.Have? && p.b < |s.bufs| ==> s.bufs[p.b].uptodate)
  }

  ghost predicate BufOk(x: Buf) {
    && (x.dirt ==> x.uptodate)
    && (x.Locked() || x.uptodate ==> x.Keyed())
    && (x.io.WaitingRead? || x.io.Reading? ==> !x.uptodate)
    && (x.io.WaitingWrite? || x.io.Writing? ==> x.uptodate)
  }

  /** A buffer whose contents the disk does not have yet. */
  predicate Ahead(x: Buf) { x.dirt || x.io.Writing? }

  /** Up-to-date buffers show the latest data; a block with no buffer ahead is right on disk. */
  ghost predicate NoneAhead(s: Sys, k: Key) {
    forall b | 0 <= b < |s.bufs| && s.bufs[b].key == k :: !Ahead(s.bufs[b])
  }

  ghost predicate Transparent(s: Sys, latest: map<Key, Data>) {
    && (forall b | 0 <= b < |s.bufs| && s.bufs[b].uptodate :: s.bufs[b].data == At(latest, s.bufs[b].key))
    && (forall k: Key {:trigger NoneAhead(s, k)} | k.dev != 0 && NoneAhead(s, k) :: At(s.disk, k) == At(latest, k))
  }

  ghost predicate Inv(s: Sys, latest: map<Key, Data>) {
    && Unique(s) && CountsOk(s) && Transparent(s, latest)
    && (forall t | 0 <= t < |s.pcs| :: PcOk(s, t))
    && (forall b | 0 <= b < |s.bufs| :: BufOk(s.bufs[b]))
  }

  // ---------------------------------------------------------------- proofs

  lemma HoldersSet(pcs: seq<Pc>, t: nat, p: Pc, b: nat)
    requires t < |pcs|
    ensures |Holders(pcs[t := p], b)| ==
      |Holders(pcs, b)| + (if Holds(p, b) then 1 else 0) - (if Holds(pcs[t], b) then 1 else 0)
  {
    var rest := Holders(pcs, b) - {t};
    assert Holders(pcs[t := p], b) - {t} == rest;
    assert Holders(pcs, b) == if Holds(pcs[t], b) then rest + {t} else rest;
    assert Holders(pcs[t := p], b) == if Holds(p, b) then rest + {t} else rest;
  }

  /** A step of task t that leaves every key alone, moves t to p and buffer b to x. */
  ghost predicate OneBuf(s: Sys, s': Sys, t: nat, p: Pc, b: nat, x: Buf)
  {
    && t < |s.pcs| && b < |s.bufs| && s'.pcs == s.pcs[t := p] && s'.bufs == s.bufs[b := x] && s'.disk == s.disk
  }

  /** Counts follow the program counters, and nobody else is disturbed. */
  lemma OneBufKeeps(s: Sys, s': Sys, latest: map<Key, Data>, latest': map<Key, Data>, t: nat, p: Pc, b: nat, x: Buf)
    requires Inv(s, latest) && OneBuf(s, s', t, p, b, x) && x.key == s.bufs[b].key
    requires forall c | 0 <= c < |s.bufs| :: s'.bufs[c].count ==
               s.bufs[c].count + (if Holds(p, c) then 1 else 0) - (if Holds(s.pcs[t], c) then 1 else 0)
    requires BufOk(x) && PcOk(s', t) && Transparent(s', latest')
    requires !x.uptodate && s.bufs[b].uptodate ==> forall u | 0 <= u < |s.pcs| && u != t :: !Holds(s.pcs[u], b)
    ensures Inv(s', latest')
  {
    forall c | 0 <= c < |s.bufs| ensures s'.bufs[c].count == |Holders(s'.pcs, c)| {
      HoldersSet(s.pcs, t, p, c);
    }
    forall u | 0 <= u < |s.pcs| ensures PcOk(s', u) {
      assert PcOk(s, u);
    }
  }

  /** When no contents change, neither does what is visible. */
  lemma SameContents(s: Sys, s': Sys, latest: map<Key, Data>)
    requires Transparent(s, latest) && |s'.bufs| == |s.bufs| && s'.disk == s.disk
    requires forall b | 0 <= b < |s.bufs| ::
      && s'.bufs[b].key == s.bufs[b].key && s'.bufs[b].data == s.bufs[b].data
      && (s'.bufs[b].uptodate ==> s.bufs[b].uptodate) && (Ahead(s.bufs[b]) ==> Ahead(s'.bufs[b]))
    ensures Transparent(s', latest)
  {
    forall k: Key | k.dev != 0 && NoneAhead(s', k) ensures At(s'.disk, k) == At(latest, k) {
      assert NoneAhead(s, k);
    }
  }

  lemma LookKeeps(s: Sys, latest: map<Key, Data>, t: nat, k: Key, c: nat)
    requires Inv(s, latest) && t < |s.pcs| && GoodChoice(s, k, c) && k.dev != 0
    requires s.pcs[t].Idle? || s.pcs[t].Starved? || s.pcs[t].Victim?
    ensures Inv(Look(s, t, k, c), latest)
  {
    var s' := Look(s, t, k, c);
    SameContents(s, s', latest);
    if c < |s.bufs| {
      OneBufKeeps(s, s', latest, latest, t, s'.pcs[t], c, s'.bufs[c]);
    } else {
      forall b | 0 <= b < |s.bufs| ensures s'.bufs[b].count == |Holders(s'.pcs, b)| { HoldersSet(s.pcs, t, s'.pcs[t], b); }
      forall u | 0 <= u < |s.pcs| ensures PcOk(s', u) { assert PcOk(s, u); }
    }
  }

  /** A task that holds a buffer finds it still keyed to its block. */
  lemma HeldKeepsKey(s: Sys, latest: map<Key, Data>, t: nat)
    requires Inv(s, latest) && HasBuffer(s, t) && !s.pcs[t].Victim?
    ensures s.bufs[s.pcs[t].b].key == s.pcs[t].k && s.bufs[s.pcs[t].b].Keyed() && s.bufs[s.pcs[t].b].count > 0
  {
    var b := s.pcs[t].b;
    assert PcOk(s, t) && Holds(s.pcs[t], b);
    assert t in Holders(s.pcs, b);
  }

  lemma OnlyHolder(s: Sys, latest: map<Key, Data>, t: nat)
    requires Inv(s, latest) && HasBuffer(s, t) && Holds(s.pcs[t], s.pcs[t].b) && s.bufs[s.pcs[t].b].count == 1
    ensures forall u | 0 <= u < |s.pcs| && u != t :: !Holds(s.pcs[u], s.pcs[t].b)
  {
    var hs := Holders(s.pcs, s.pcs[t].b);
    var rest := hs - {t};
    assert hs == rest + {t} && rest == {};
    forall u | 0 <= u < |s.pcs| && u != t ensures !Holds(s.pcs[u], s.pcs[t].b) { assert u !in rest; }
  }

  /** The victim is taken only when unused, clean and unlocked, so the disk has its block. */
  lemma ClaimKeeps(s: Sys, latest: map<Key, Data>, t: nat)
    requires Inv(s, latest) && HasBuffer(s, t) && s.pcs[t].Victim?
    requires var x := s.bufs[s.pcs[t].b]; !x.Locked() && x.count == 0 && !x.dirt
    requires !Cached(s, s.pcs[t].k)
    ensures var (b, k) := (s.pcs[t].b, s.pcs[t].k);
      Inv(SetPc(SetBuf(s, b, Buf(k, false, false, 1, Quiet, s.bufs[b].data)), t, Got(b, k)), latest)
  {
    var (b, k) := (s.pcs[t].b, s.pcs[t].k);
    var s' := SetPc(SetBuf(s, b, Buf(k, false, false, 1, Quiet, s.bufs[b].data)), t, Got(b, k));
    assert PcOk(s, t);
    assert forall c | 0 <= c < |s.bufs| :: s.bufs[c].key != k;
    forall c | 0 <= c < |s.bufs| ensures s'.bufs[c].count == |Holders(s'.pcs, c)| { HoldersSet(s.pcs, t, Got(b, k), c); }
    assert Holders(s.pcs, b) == {};
    forall u | 0 <= u < |s.pcs| ensures PcOk(s', u) {
      assert PcOk(s, u);
      if u != t { assert u !in Holders(s.pcs, b); }
    }
    forall j: Key | j.dev != 0 && NoneAhead(s', j) ensures At(s'.disk, j) == At(latest, j) {
      forall c | 0 <= c < |s.bufs| && s.bufs[c].key == j ensures !Ahead(s.bufs[c]) {
        if c != b { assert s'.bufs[c] == s.bufs[c]; }
      }
      assert NoneAhead(s, j);
    }
  }

  /** A client's new contents are the latest, and the buffer is ahead of the disk. */
  lemma PutShows(s: Sys, s': Sys, latest: map<Key, Data>, b: nat, v: Data)
    requires Unique(s) && Transparent(s, latest) && b < |s.bufs| && s.bufs[b].Keyed() && s'.disk == s.disk
    requires s'.bufs == s.bufs[b := Buf(s.bufs[b].key, true, true, s.bufs[b].count, s.bufs[b].io, v)]
    requires forall c | 0 <= c < |s.bufs| && s.bufs[c].uptodate :: s.bufs[c].Keyed()
    ensures Transparent(s', latest[s.bufs[b].key := v])
  {
    forall k: Key | k.dev != 0 && NoneAhead(s', k) ensures At(s'.disk, k) == At(latest[s.bufs[b].key := v], k) {
      assert s'.bufs[b].key == k ==> !Ahead(s'.bufs[b]);
      forall c | 0 <= c < |s.bufs| && s.bufs[c].key == k ensures !Ahead(s.bufs[c]) {
        assert s'.bufs[c].key == k ==> !Ahead(s'.bufs[c]);
      }
      assert NoneAhead(s, k);
    }
  }

  lemma PutKeeps(s: Sys, latest: map<Key, Data>, e: Step)
    requires Inv(s, latest) && Enabled(s, e) && (e.Put? || e.Fresh?)
    ensures Inv(Do(s, e), Apply(latest, s, e))
  {
    var b, k, s' := s.pcs[e.t].b, s.pcs[e.t].k, Do(s, e);
    HeldKeepsKey(s, latest, e.t);
    assert PcOk(s, e.t);
    PutShows(s, s', latest, b, e.v);
    OneBufKeeps(s, s', latest, Apply(latest, s, e), e.t, s'.pcs[e.t], b, s'.bufs[b]);
  }

  lemma ForgetKeeps(s: Sys, latest: map<Key, Data>, e: Step)
    requires Inv(s, latest) && Enabled(s, e) && e.Forget?
    ensures Inv(Do(s, e), Apply(latest, s, e))
  {
    var b, k, s', latest' := s.pcs[e.t].b, s.pcs[e.t].k, Do(s, e), Apply(latest, s, e);
    HeldKeepsKey(s, latest, e.t);
    OnlyHolder(s, latest, e.t);
    forall j: Key | j.dev != 0 && NoneAhead(s', j) ensures At(s'.disk, j) == At(latest', j) {
      if j != k {
        forall c | 0 <= c < |s.bufs| && s.bufs[c].key == j ensures !Ahead(s.bufs[c]) { assert s'.bufs[c] == s.bufs[c]; }
        assert NoneAhead(s, j);
      }
    }
    OneBufKeeps(s, s', latest, latest', e.t, s'.pcs[e.t], b, s'.bufs[b]);
  }

  /** What a finished transfer leaves on the disk, for blocks no buffer is ahead of. */
  lemma CompleteDisk(s: Sys, latest: map<Key, Data>, e: Step, k: Key)
    requires Inv(s, latest) && Enabled(s, e) && e.Complete? && k.dev != 0 && NoneAhead(Do(s, e), k)
    ensures At(Do(s, e).disk, k) == At(latest, k)
  {
    var b, s' := e.b, Do(s, e);
    var x := s.bufs[b];
    assert BufOk(x);
    assert s'.bufs[b].key == k ==> !Ahead(s'.bufs[b]);
    if k != x.key || x.io.Reading? {
      forall c | 0 <= c < |s.bufs| && s.bufs[c].key == k ensures !Ahead(s.bufs[c]) {
        if c != b { assert s'.bufs[c] == s.bufs[c] && !Ahead(s'.bufs[c]); }
      }
      assert NoneAhead(s, k);
    }
  }

  /** A read brings what was put last. */
  lemma CompleteReads(s: Sys, latest: map<Key, Data>, e: Step)
    requires Inv(s, latest) && Enabled(s, e) && e.Complete? && s.bufs[e.b].io.Reading? && s.bufs[e.b].key.dev != 0
    ensures At(s.disk, s.bufs[e.b].key) == At(latest, s.bufs[e.b].key)
  {
    var k := s.bufs[e.b].key;
    assert BufOk(s.bufs[e.b]);
    forall c | 0 <= c < |s.bufs| && s.bufs[c].key == k ensures !Ahead(s.bufs[c]) { assert c == e.b; }
    assert NoneAhead(s, k);
  }

  lemma CompleteKeeps(s: Sys, latest: map<Key, Data>, e: Step)
    requires Inv(s, latest) && Enabled(s, e) && e.Complete?
    ensures Inv(Do(s, e), latest)
  {
    hide NoneAhead, Ahead;
    var s' := Do(s, e);
    assert BufOk(s.bufs[e.b]);
    if s.bufs[e.b].io.Reading? && s.bufs[e.b].key.dev != 0 { CompleteReads(s, latest, e); }
    forall k: Key | k.dev != 0 && NoneAhead(s', k) ensures At(s'.disk, k) == At(latest, k) {
      CompleteDisk(s, latest, e, k);
    }
    forall u | 0 <= u < |s.pcs| ensures PcOk(s', u) { assert PcOk(s, u); }
  }

  lemma LockKeeps(s: Sys, latest: map<Key, Data>, e: Step)
    requires Inv(s, latest) && Enabled(s, e) && (e.LockForWrite? || e.Enqueue?)
    ensures Inv(Do(s, e), latest)
  {
    var s' := Do(s, e);
    assert BufOk(s.bufs[e.b]);
    SameContents(s, s', latest);
    forall u | 0 <= u < |s.pcs| ensures PcOk(s', u) { assert PcOk(s, u); }
  }

  /** The steps of a task that change no contents. */
  lemma TaskKeeps(s: Sys, latest: map<Key, Data>, e: Step)
    requires Inv(s, latest) && Enabled(s, e)
    requires e.Bread? || e.SubmitRead? || e.ReadDone? || e.Release? || e.Released?
    ensures Inv(Do(s, e), latest)
  {
    var b, s' := s.pcs[e.t].b, Do(s, e);
    HeldKeepsKey(s, latest, e.t);
    assert PcOk(s, e.t) && BufOk(s.bufs[b]);
    SameContents(s, s', latest);
    OneBufKeeps(s, s', latest, latest, e.t, s'.pcs[e.t], b, s'.bufs[b]);
  }

  lemma VictimKeeps(s: Sys, latest: map<Key, Data>, e: Step)
    requires Inv(s, latest) && Enabled(s, e) && e.VictimDone?
    ensures Inv(Do(s, e), latest)
  {
    var b, k := s.pcs[e.t].b, s.pcs[e.t].k;
    assert PcOk(s, e.t);
    if s.bufs[b].count != 0 || (!s.bufs[b].dirt && Cached(s, k)) {
      LookKeeps(s, latest, e.t, k, e.c);
    } else if !s.bufs[b].dirt {
      ClaimKeeps(s, latest, e.t);
    }
  }

  lemma WakeKeeps(s: Sys, latest: map<Key, Data>, e: Step)
    requires Inv(s, latest) && Enabled(s, e) && e.Wake?
    ensures Inv(Do(s, e), latest)
  {
    assert PcOk(s, e.t);
    LookKeeps(s, latest, e.t, s.pcs[e.t].k, e.c);
  }

  /** The re-check of get_hash_table never fails: a held buffer is not re-keyed. */
  lemma HitKeeps(s: Sys, latest: map<Key, Data>, e: Step)
    requires Inv(s, latest) && Enabled(s, e) && e.HitDone?
    ensures Inv(Do(s, e), latest) && Do(s, e).pcs[e.t] == Got(s.pcs[e.t].b, s.pcs[e.t].k)
  {
    var b, s' := s.pcs[e.t].b, Do(s, e);
    HeldKeepsKey(s, latest, e.t);
    assert PcOk(s, e.t);
    SameContents(s, s', latest);
    OneBufKeeps(s, s', latest, latest, e.t, s'.pcs[e.t], b, s'.bufs[b]);
  }

  /** Every step of every task and of the disk keeps the cache transparent. */
  lemma StepKeeps(s: Sys, latest: map<Key, Data>, e: Step)
    requires Inv(s, latest) && Enabled(s, e)
    ensures Inv(Do(s, e), Apply(latest, s, e))
  {
    hide Inv, Look, GoodChoice;
    match e
    case Lookup(t, k, c) => LookKeeps(s, latest, t, k, c);
    case HitDone(t, c) => HitKeeps(s, latest, e);
    case VictimDone(t, c) => VictimKeeps(s, latest, e);
    case Wake(t, c) => WakeKeeps(s, latest, e);
    case Bread(_) => TaskKeeps(s, latest, e);
    case SubmitRead(_) => TaskKeeps(s, latest, e);
    case ReadDone(_) => TaskKeeps(s, latest, e);
    case Put(_, _) => PutKeeps(s, latest, e);
    case Fresh(_, _) => PutKeeps(s, latest, e);
    case Forget(_) => ForgetKeeps(s, latest, e);
    case Release(_) => TaskKeeps(s, latest, e);
    case Released(_) => TaskKeeps(s, latest, e);
    case LockForWrite(_) => LockKeeps(s, latest, e);
    case Enqueue(_) => LockKeeps(s, latest, e);
    case Complete(_, _) => CompleteKeeps(s, latest, e);
  }

  // ---------------------------------------------------------------- whole runs

  /** A run: the system and, beside it, the plain map of what clients have put. */
  ghost predicate RunTo(s: Sys, latest: map<Key, Data>, es: seq<Step>, s': Sys, latest': map<Key, Data>)
    decreases |es|
  {
    if es == [] then s' == s && latest' == latest
    else Enabled(s, es[0]) && RunTo(Do(s, es[0]), Apply(latest, s, es[0]), es[1..], s', latest')
  }

  /** After buffer_init every buffer is free and the disk is all there is. */
  ghost predicate Initial(s: Sys) {
    && (forall b | 0 <= b < |s.bufs| :: s.bufs[b] == Buf(Key(0, 0), false, false, 0, Quiet, s.bufs[b].data))
    && (forall t | 0 <= t < |s.pcs| :: s.pcs[t] == Idle)
  }

  lemma InitialInv(s: Sys)
    requires Initial(s)
    ensures Inv(s, s.disk)
  {
    forall b | 0 <= b < |s.bufs| ensures s.bufs[b].count == |Holders(s.pcs, b)| { assert Holders(s.pcs, b) == {}; }
  }

  lemma {:induction false} RunKeeps(s: Sys, latest: map<Key, Data>, es: seq<Step>, s': Sys, latest': map<Key, Data>)
    requires Inv(s, latest) && RunTo(s, latest, es, s', latest')
    ensures Inv(s', latest')
    decreases |es|
  {
    hide Inv;
    if es != [] {
      StepKeeps(s, latest, es[0]);
      RunKeeps(Do(s, es[0]), Apply(latest, s, es[0]), es[1..], s', latest');
    }
  }

  /** Cache transparency: whatever lookups, releases, evictions, syncs and disk transfers have
      gone before, a task that bread lets go on finds in its buffer the last data any client
      put in that block, or the disk's contents if none did; and only one buffer has it. */
  lemma ReadersSeeLatest(s: Sys, es: seq<Step>, s': Sys, latest: map<Key, Data>, t: nat)
    requires Initial(s) && RunTo(s, s.disk, es, s', latest)
    requires t < |s'.pcs| && s'.pcs[t].Have?
    ensures s'.pcs[t].b < |s'.bufs|
    ensures var x := s'.bufs[s'.pcs[t].b];
      && x.uptodate && x.key == s'.pcs[t].k && x.data == At(latest, s'.pcs[t].k)
      && forall c | 0 <= c < |s'.bufs| && s'.bufs[c].key == s'.pcs[t].k :: c == s'.pcs[t].b
  {
    InitialInv(s);
    RunKeeps(s, s.disk, es, s', latest);
    assert PcOk(s', t);
    HeldKeepsKey(s', latest, t);
  }

  /** A buffer changes its block only when it is unused, clean and unlocked. */
  lemma RekeyedOnlyWhenFree(s: Sys, latest: map<Key, Data>, e: Step, b: nat)
    requires Inv(s, latest) && Enabled(s, e) && b < |s.bufs|
    requires |Do(s, e).bufs| == |s.bufs| && Do(s, e).bufs[b].key != s.bufs[b].key
    ensures s.bufs[b].count == 0 && !s.bufs[b].dirt && !s.bufs[b].Locked()
  {
  }

  // ---------------------------------------------------------------- reads and syncs get through

  /** A lookup goes on with the buffer of the block when there is one, with an unused buffer when there is
      not, and sleeps on buffer_wait only when every buffer is in use. */
  lemma LookupGoes(s: Sys, e: Step)
    requires Enabled(s, e) && (e.Lookup? || e.Wake?)
    ensures var (p, k) := (Do(s, e).pcs[e.t], if e.Lookup? then e.k else s.pcs[e.t].k);
      && (p.Hit? || p.Victim? || p.Starved?) && p.k == k
      && (p.Hit? <==> exists b :: 0 <= b < |s.bufs| && s.bufs[b].key == k)
      && (p.Starved? <==> !Cached(s, k) && forall b | 0 <= b < |s.bufs| :: s.bufs[b].count > 0)
      && (p.Hit? ==> s.bufs[p.b].key == k && Do(s, e).bufs[p.b].count == s.bufs[p.b].count + 1)
      && (p.Victim? ==> s.bufs[p.b].count == 0)
  {
  }

  /** The buffer waited for is taken exactly when it is unused and clean and nobody has brought in the block. */
  lemma VictimTaken(s: Sys, e: Step)
    requires Enabled(s, e) && e.VictimDone?
    ensures var (b, k, s') := (s.pcs[e.t].b, s.pcs[e.t].k, Do(s, e));
      && (s'.pcs[e.t].Got? <==> s.bufs[b].count == 0 && !s.bufs[b].dirt && !Cached(s, k))
      && (s'.pcs[e.t].Got? ==> s'.pcs[e.t] == Got(b, k) && s'.bufs[b].key == k && s'.bufs[b].count == 1)
  {
  }

  /** What a read of block k is made of when nobody else runs: a buffer that is up to date takes no transfer. */
  function ReadSteps(t: nat, k: Key, c: nat, cached: bool, uptodate: bool): seq<Step> {
    [Lookup(t, k, c), if cached then HitDone(t, c) else VictimDone(t, c), Bread(t)]
    + if cached && uptodate then [] else [SubmitRead(t), Enqueue(c), Complete(c, []), ReadDone(t)]
  }

  lemma Then(s: Sys, latest: map<Key, Data>, e: Step, rest: seq<Step>, s': Sys, latest': map<Key, Data>)
    requires Enabled(s, e) && RunTo(Do(s, e), Apply(latest, s, e), rest, s', latest')
    ensures RunTo(s, latest, [e] + rest, s', latest')
  {
    hide Enabled, Do, Apply;
    assert ([e] + rest)[1..] == rest;
  }

  lemma AtEnd(s: Sys, latest: map<Key, Data>)
    ensures RunTo(s, latest, [], s, latest)
  {
  }

  lemma TransferCompletes(s: Sys, latest: map<Key, Data>, t: nat)
    requires HasBuffer(s, t) && s.pcs[t].WantRead?
    requires var x := s.bufs[s.pcs[t].b]; !x.Locked() && !x.uptodate
    ensures var c := s.pcs[t].b;
      exists s' ::
        && RunTo(s, latest, [SubmitRead(t), Enqueue(c), Complete(c, []), ReadDone(t)], s', latest)
        && |s'.pcs| == |s.pcs| && s'.pcs[t] == Have(c, s.pcs[t].k)
  {
    hide RunTo, GoodChoice, Look, Cached;
    var c := s.pcs[t].b;
    var s1 := Do(s, SubmitRead(t));
    var s2 := Do(s1, Enqueue(c));
    var s3 := Do(s2, Complete(c, []));
    var s' := Do(s3, ReadDone(t));
    AtEnd(s', latest);
    Then(s3, latest, ReadDone(t), [], s', latest);
    Then(s2, latest, Complete(c, []), [ReadDone(t)] + [], s', latest);
    Then(s1, latest, Enqueue(c), [Complete(c, [])] + ([ReadDone(t)] + []), s', latest);
    Then(s, latest, SubmitRead(t), [Enqueue(c)] + ([Complete(c, [])] + ([ReadDone(t)] + [])), s', latest);
    assert [SubmitRead(t)] + ([Enqueue(c)] + ([Complete(c, [])] + ([ReadDone(t)] + [])))
        == [SubmitRead(t), Enqueue(c), Complete(c, []), ReadDone(t)];
  }

  /** Once bread has its buffer it gets the data, at once when they are up to date. */
  lemma BreadCompletes(s: Sys, latest: map<Key, Data>, t: nat)
    requires HasBuffer(s, t) && s.pcs[t].Got? && !s.bufs[s.pcs[t].b].Locked()
    ensures var (c, k) := (s.pcs[t].b, s.pcs[t].k);
      var rest := if s.bufs[c].uptodate then [] else [SubmitRead(t), Enqueue(c), Complete(c, []), ReadDone(t)];
      exists s' :: RunTo(s, latest, [Bread(t)] + rest, s', latest) && |s'.pcs| == |s.pcs| && s'.pcs[t] == Have(c, k)
  {
    hide RunTo, GoodChoice, Look, Cached;
    var c, s1 := s.pcs[t].b, Do(s, Bread(t));
    if s.bufs[c].uptodate {
      AtEnd(s1, latest);
      Then(s, latest, Bread(t), [], s1, latest);
    } else {
      TransferCompletes(s1, latest, t);
      var rest := [SubmitRead(t), Enqueue(c), Complete(c, []), ReadDone(t)];
      var s' :| RunTo(s1, latest, rest, s', latest) && |s'.pcs| == |s.pcs| && s'.pcs[t] == Have(c, s.pcs[t].k);
      Then(s, latest, Bread(t), rest, s', latest);
    }
  }

  /** Every read gets its block: from the cache when it is there, else from the disk through any unused,
      clean and unlocked buffer. */
  lemma ReadCompletes(s: Sys, latest: map<Key, Data>, t: nat, k: Key, c: nat)
    requires Inv(s, latest) && t < |s.pcs| && s.pcs[t].Idle? && k.dev != 0
    requires GoodChoice(s, k, c) && c < |s.bufs| && !s.bufs[c].Locked() && (Cached(s, k) || !s.bufs[c].dirt)
    ensures exists s' ::
              && RunTo(s, latest, ReadSteps(t, k, c, Cached(s, k), s.bufs[c].uptodate), s', latest)
              && |s'.pcs| == |s.pcs| && s'.pcs[t] == Have(c, k)
  {
    hide RunTo;
    var e1 := Lookup(t, k, c);
    var s1 := Do(s, e1);
    var e2 := if Cached(s, k) then HitDone(t, c) else VictimDone(t, c);
    assert Enabled(s1, e2);
    var s2 := Do(s1, e2);
    BreadCompletes(s2, latest, t);
    var rest := [Bread(t)] + if s2.bufs[c].uptodate then [] else [SubmitRead(t), Enqueue(c), Complete(c, []), ReadDone(t)];
    var s' :| RunTo(s2, latest, rest, s', latest) && |s'.pcs| == |s2.pcs| && s'.pcs[t] == Have(c, k);
    Then(s1, latest, e2, rest, s', latest);
    Then(s, latest, e1, [e2] + rest, s', latest);
    assert [e1] + ([e2] + rest) == ReadSteps(t, k, c, Cached(s, k), s.bufs[c].uptodate);
  }

  /** Writing a dirty buffer out leaves it clean and the disk with its data. */
  lemma SyncCompletes(s: Sys, b: nat, junk: Data)
    requires b < |s.bufs| && s.bufs[b].dirt && !s.bufs[b].Locked() && s.bufs[b].Keyed()
    ensures var s1 := Do(s, LockForWrite(b));
      && Enabled(s1, Enqueue(b)) && var s2 := Do(s1, Enqueue(b));
      && Enabled(s2, Complete(b, junk)) && var s3 := Do(s2, Complete(b, junk));
      && !s3.bufs[b].dirt && !s3.bufs[b].Locked() && s3.bufs[b].data == s.bufs[b].data
      && At(s3.disk, s.bufs[b].key) == s.bufs[b].data
      && forall k: Key | k != s.bufs[b].key :: At(s3.disk, k) == At(s.disk, k)
  {
  }
}

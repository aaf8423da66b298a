/** The ring of fs/pipe.c: one page with a head and a tail. */
module PipeRing {
  type Byte = n: nat | n < 256

  function Min(a: int, b: int): int {
    if a < b then a else b
  }

  /** Lines 24-28 and 54-58: a chunk stops at the end of the page, at what the caller wants, and at
      what the ring has to give. */
  function Chunk(place: nat, wanted: nat, available: nat): (n: nat)
    requires place < 4096
    ensures n <= wanted && n <= available && place + n <= 4096
    ensures wanted > 0 && available > 0 ==> n > 0
    ensures n == wanted || n == available || place + n == 4096
  {
    Min(Min(4096 - place, wanted), available)
  }

  /** PIPE_SIZE and the masking of head and tail. */
  function PipeSize(head: nat, tail: nat): (n: nat)
    ensures n < 4096
  {
    (head - tail) % 4096
  }

  function Advance(place: nat, n: nat): (p: nat)
    ensures p < 4096
  {
    (place + n) % 4096
  }

  /** Masking is at most one subtraction of the page size. */
  lemma Masked(head: nat, tail: nat, n: nat)
    requires head < 4096 && tail < 4096 && n <= 4096
    ensures PipeSize(head, tail) == if head >= tail then head - tail else head - tail + 4096
    ensures Advance(head, n) == if head + n < 4096 then head + n else head + n - 4096
  {
  }

  lemma SizeMoves(head: nat, tail: nat, n: nat)
    requires head < 4096 && tail < 4096
    ensures PipeSize(head, tail) + n < 4096 ==> PipeSize(Advance(head, n), tail) == PipeSize(head, tail) + n
    ensures n <= PipeSize(head, tail) ==> PipeSize(head, Advance(tail, n)) == PipeSize(head, tail) - n
  {
    hide PipeSize, Advance;
    if n < 4096 {
      Masked(head, tail, n);
      Masked(tail, head, n);
      Masked(Advance(head, n), tail, 0);
      Masked(head, Advance(tail, n), 0);
    }
  }

  /** Place i of a ring that starts at `from`. */
  function Wrap(from: nat, i: nat): (p: nat)
    requires from < 4096 && i < 4096
    ensures p < 4096
  {
    if from + i < 4096 then from + i else from + i - 4096
  }

  ghost function RingBytes(page: seq<Byte>, tail: nat, size: nat): (s: seq<Byte>)
    requires |page| == 4096 && tail < 4096 && size < 4096
    ensures |s| == size && forall i | 0 <= i < size :: s[i] == page[Wrap(tail, i)]
  {
    seq(size, i requires 0 <= i < size => page[Wrap(tail, i)])
  }

  lemma TakeOff(page: seq<Byte>, tail: nat, size: nat, n: nat)
    requires |page| == 4096 && tail < 4096 && size < 4096 && n <= size && tail + n <= 4096
    ensures page[tail..tail + n] + RingBytes(page, Advance(tail, n), size - n) == RingBytes(page, tail, size)
  {
  }

  lemma PutOn(page: seq<Byte>, page': seq<Byte>, tail: nat, head: nat, bytes: seq<Byte>, n: nat)
    requires |page| == |page'| == 4096 && tail < 4096 && head < 4096 && n <= |bytes| && head + n <= 4096
    requires PipeSize(head, tail) + n < 4096
    requires forall k | 0 <= k < 4096 :: page'[k] == if head <= k < head + n then bytes[k - head] else page[k]
    ensures RingBytes(page', tail, PipeSize(head, tail) + n) == RingBytes(page, tail, PipeSize(head, tail)) + bytes[..n]
  {
    var size := PipeSize(head, tail);
    assert size == if head >= tail then head - tail else head - tail + 4096;
  }

  // ---------------------------------------------------------------- chunks

  datatype Buffer = Buffer(page: seq<Byte>, head: nat, tail: nat)

  predicate Sound(b: Buffer) {
    |b.page| == 4096 && b.head < 4096 && b.tail < 4096
  }

  function Count(b: Buffer): (n: nat)
    ensures n <= 4095
  {
    PipeSize(b.head, b.tail)
  }

  /** The bytes in the pipe, oldest first. */
  ghost function Bytes(b: Buffer): (s: seq<Byte>)
    requires Sound(b)
    ensures |s| == Count(b)
  {
    RingBytes(b.page, b.tail, Count(b))
  }

  /** Lines 24-35: one chunk leaves the ring. */
  function Take(b: Buffer, count: nat): (r: (Buffer, seq<Byte>))
    requires Sound(b)
    ensures |r.1| <= count
  {
    var n := Chunk(b.tail, count, Count(b));
    (b.(tail := Advance(b.tail, n)), b.page[b.tail..b.tail + n])
  }

  /** Lines 54-65: one chunk enters the ring; the number is what went in. */
  function Put(b: Buffer, bytes: seq<Byte>): (r: (Buffer, nat))
    requires Sound(b)
    ensures r.1 <= |bytes|
  {
    var n := Chunk(b.head, |bytes|, 4095 - Count(b));
    (Buffer(b.page[..b.head] + bytes[..n] + b.page[b.head + n..], Advance(b.head, n), b.tail), n)
  }

  lemma PutStores(b: Buffer, bytes: seq<Byte>, page': seq<Byte>)
    requires Sound(b) && |page'| == 4096
    requires var n := Chunk(b.head, |bytes|, 4095 - Count(b));
      forall k | 0 <= k < 4096 :: page'[k] == if b.head <= k < b.head + n then bytes[k - b.head] else b.page[k]
    ensures var n := Chunk(b.head, |bytes|, 4095 - Count(b));
      Put(b, bytes) == (Buffer(page', Advance(b.head, n), b.tail), n)
  {
    hide PipeSize, Advance;
    var n := Chunk(b.head, |bytes|, 4095 - Count(b));
    assert page' == b.page[..b.head] + bytes[..n] + b.page[b.head + n..];
  }

  /** What leaves is the oldest part of what was there, and something leaves a ring that has any. */
  lemma TakeOldest(b: Buffer, count: nat)
    requires Sound(b)
    ensures var (b', bytes) := Take(b, count);
      && Sound(b') && bytes + Bytes(b') == Bytes(b)
      && Count(b') == Count(b) - |bytes| && (count > 0 && Count(b) > 0 ==> bytes != [])
  {
    hide PipeSize, Advance, RingBytes;
    var n := Chunk(b.tail, count, Count(b));
    SizeMoves(b.head, b.tail, n);
    TakeOff(b.page, b.tail, Count(b), n);
  }

  /** What enters goes behind all that was there, and something enters a ring with room. */
  lemma PutNewest(b: Buffer, bytes: seq<Byte>)
    requires Sound(b)
    ensures var (b', n) := Put(b, bytes);
      && Sound(b') && Bytes(b') == Bytes(b) + bytes[..n]
      && Count(b') == Count(b) + n && (bytes != [] && Count(b) < 4095 ==> n > 0)
  {
    hide PipeSize, Advance, RingBytes;
    var n := Chunk(b.head, |bytes|, 4095 - Count(b));
    SizeMoves(b.head, b.tail, n);
    PutOn(b.page, Put(b, bytes).0.page, b.tail, b.head, bytes, n);
  }

  class Ring {
    const page: array<Byte>
    var head: nat
    var tail: nat

    ghost predicate Valid()
      reads this
    {
      page.Length == 4096 && head < 4096 && tail < 4096
    }

    ghost function Value(): (b: Buffer)
      reads this, page
      requires Valid()
      ensures Sound(b)
    {
      Buffer(page[..], head, tail)
    }

    /** get_pipe_inode (fs/inode.c, lines 234-239): an empty pipe. */
    constructor ()
      ensures Valid() && Bytes(Value()) == [] && head == tail == 0 && fresh(page)
    {
      page := new Byte[4096](i => 0);
      head, tail := 0, 0;
    }

    /** Lines 24-35. */
    method ReadChunk(count: nat) returns (bytes: seq<Byte>)
      requires Valid()
      modifies this`tail
      ensures Valid() && (Value(), bytes) == Take(old(Value()), count)
      ensures bytes + Bytes(Value()) == old(Bytes(Value()))
    {
      hide PipeSize, Advance, RingBytes;
      TakeOldest(Value(), count);
      var chars := Chunk(tail, count, PipeSize(head, tail));
      var size := tail;
      tail := Advance(tail, chars);
      bytes := [];
      var i := 0;
      while i < chars
        invariant 0 <= i <= chars && |bytes| == i
        invariant forall k | 0 <= k < i :: bytes[k] == page[size + k]
      {
        bytes := bytes + [page[size + i]];
        i := i + 1;
      }
      assert bytes == page[..][size..size + chars];
    }

    /** Lines 54-65. */
    method WriteChunk(bytes: seq<Byte>) returns (n: nat)
      requires Valid()
      modifies this`head, page
      ensures Valid() && (Value(), n) == Put(old(Value()), bytes)
      ensures Bytes(Value()) == old(Bytes(Value())) + bytes[..n]
    {
      hide PipeSize, Advance, RingBytes, Put;
      ghost var was := Value();
      PutNewest(was, bytes);
      n := Chunk(head, |bytes|, 4095 - PipeSize(head, tail));
      var size := head;
      head := Advance(head, n);
      var i := 0;
      while i < n
        invariant 0 <= i <= n && head == Advance(size, n)
        invariant forall k | 0 <= k < i :: page[size + k] == bytes[k]
        invariant forall k | 0 <= k < 4096 && !(size <= k < size + i) :: page[k] == was.page[k]
      {
        page[size + i] := bytes[i];
        i := i + 1;
      }
      PutStores(was, bytes, page[..]);
    }
  }
}

/** read_pipe() and write_pipe() as steps of several tasks that share one pipe. A task runs until it
    sleeps on the pipe's queue, so the steps of different tasks interleave at least as freely as in
    the kernel; the copy of one chunk is one step. */
module PipeProtocol {
  import opened PipeRing
  import W = WaitQueues

  const PIPE_QUEUE: nat := 0

  /** What a task does in the pipe, or what its last call returned and whether that raised SIGPIPE. */
  datatype Call = Returned(result: int, sigpipe: bool) | Reading(todo: nat, got: seq<Byte>) | Writing(rest: seq<Byte>, done: nat)

  /** `open` says that i_count is 2; `written` and `read` are all bytes that ever went in and out. */
  datatype Pipe = Pipe(ring: Buffer, open: bool, calls: seq<Call>, sleep: W.System,
                       written: seq<Byte>, read: seq<Byte>)

  datatype Event = Read(task: nat, count: nat) | Write(task: nat, bytes: seq<Byte>) | Go(task: nat) | Resume(task: nat) | Close

  predicate Awake(p: Pipe, i: nat) {
    0 < i < |p.calls| == |p.sleep.frame| == |p.sleep.asleep| && !p.sleep.asleep[i] && p.sleep.frame[i].Outside?
  }

  predicate Can(p: Pipe, e: Event) {
    W.Can(p.sleep, W.WakeUp(PIPE_QUEUE)) &&
    match e
    case Read(i, n) => Awake(p, i) && p.calls[i].Returned?
    case Write(i, b) => Awake(p, i) && p.calls[i].Returned?
    case Go(i) => Awake(p, i) && !p.calls[i].Returned? && Sound(p.ring)
    case Resume(i) => W.Can(p.sleep, W.Resume(i))
    case Close => p.open
  }

  function SetCall(p: Pipe, i: nat, c: Call): Pipe
    requires i < |p.calls|
  {
    p.(calls := p.calls[i := c])
  }

  function Woken(p: Pipe): Pipe
    requires W.Can(p.sleep, W.WakeUp(PIPE_QUEUE))
  {
    p.(sleep := W.Step(p.sleep, W.WakeUp(PIPE_QUEUE)))
  }

  /** The way out of a loop that finds nothing to do: wake the other side, then give up when it is
      gone (lines 19-22, 47-52), or else sleep. */
  function Blocked(p: Pipe, i: nat, over: Call): Pipe
    requires Awake(p, i) && W.Can(p.sleep, W.WakeUp(PIPE_QUEUE))
  {
    var q := Woken(p);
    if !p.open then SetCall(q, i, over) else q.(sleep := W.Step(q.sleep, W.SleepOn(i, PIPE_QUEUE)))
  }

  function Step(p: Pipe, e: Event): Pipe
    requires Can(p, e)
  {
    match e
    case Read(i, n) => SetCall(p, i, Reading(n, []))
    case Write(i, b) => SetCall(p, i, Writing(b, 0))
    case Resume(i) => p.(sleep := W.Step(p.sleep, W.Resume(i)))
    case Close => Woken(p.(open := false))
    case Go(i) =>
      match p.calls[i]
      case Reading(todo, got) =>
        if todo == 0 then SetCall(Woken(p), i, Returned(|got|, false))   // lines 37-38
        else if Count(p.ring) == 0 then Blocked(p, i, Returned(|got|, false))
        else
          var (ring, bytes) := Take(p.ring, todo);                       // lines 24-35
          Pipe(ring, p.open, p.calls[i := Reading(todo - |bytes|, got + bytes)],
               p.sleep, p.written, p.read + bytes)
      case Writing(rest, done) =>
        if rest == [] then SetCall(Woken(p), i, Returned(done, false))   // lines 67-68
        else if Count(p.ring) == 4095 then Blocked(p, i, Returned(if done > 0 then done else -1, true))
        else
          var (ring, n) := Put(p.ring, rest);                            // lines 54-65
          Pipe(ring, p.open, p.calls[i := Writing(rest[n..], done + n)], p.sleep, p.written + rest[..n], p.read)
  }

  // ---------------------------------------------------------------- a bounded FIFO

  ghost predicate Conserved(p: Pipe) {
    Sound(p.ring) && p.written == p.read + Bytes(p.ring)
  }

  lemma StepConserves(p: Pipe, e: Event)
    requires Conserved(p) && Can(p, e)
    ensures Conserved(Step(p, e))
    ensures p.read <= Step(p, e).read && p.written <= Step(p, e).written
  {
    hide Bytes, Take, Put, W.Step;
    if e.Go? {
      match p.calls[e.task]
      case Reading(todo, _) => TakeOldest(p.ring, todo);
      case Writing(rest, _) => PutNewest(p.ring, rest);
    }
  }

  /** sys_pipe: the ring is empty, both ends are open and nobody is in the pipe yet. */
  predicate Fresh(p: Pipe) {
    && Sound(p.ring) && p.ring.head == p.ring.tail == 0 && p.open && p.written == p.read == []
    && |p.calls| == |p.sleep.frame| == |p.sleep.asleep|
    && PIPE_QUEUE < |p.sleep.head| && p.sleep.head[PIPE_QUEUE] == W.NULL
    && forall i | 0 <= i < |p.calls| :: p.calls[i].Returned? && p.sleep.frame[i].Outside? && !p.sleep.asleep[i]
  }

  /** What one turn does to a read that is under way: it goes on with the oldest bytes as long as there are
      any; with none it sleeps while there is a writer, and is over when there is not; and it is over when
      all it wanted is there. It returns how many bytes it got. */
  lemma ReadGoesOn(p: Pipe, i: nat)
    requires Can(p, Go(i)) && p.calls[i].Reading?
    ensures var (q, todo, got) := (Step(p, Go(i)), p.calls[i].todo, p.calls[i].got);
      && (q.calls[i].Returned? <==> todo == 0 || (Count(p.ring) == 0 && !p.open))
      && (q.calls[i].Returned? ==> q.calls[i] == Returned(|got|, false))
      && (todo > 0 && Count(p.ring) > 0 ==>
            q.calls[i].Reading? && q.calls[i].todo < todo && |q.calls[i].got| + q.calls[i].todo == |got| + todo
            && Sound(q.ring) && got + Bytes(p.ring) == q.calls[i].got + Bytes(q.ring))
      && (todo > 0 && Count(p.ring) == 0 && p.open ==> q.calls[i] == p.calls[i] && q.ring == p.ring && q.sleep.asleep[i])
  {
    hide Take, Bytes;
    TakeOldest(p.ring, p.calls[i].todo);
  }

  /** The same for a write: its bytes go in behind all others while there is room. With no reader it raises
      SIGPIPE, and returns -1 if nothing went in. */
  lemma WriteGoesOn(p: Pipe, i: nat)
    requires Can(p, Go(i)) && p.calls[i].Writing?
    ensures var (q, rest, done) := (Step(p, Go(i)), p.calls[i].rest, p.calls[i].done);
      && (q.calls[i].Returned? <==> rest == [] || (Count(p.ring) == 4095 && !p.open))
      && (q.calls[i].Returned? ==> q.calls[i].result == (if rest != [] && done == 0 then -1 else done))
      && (q.calls[i].Returned? ==> (q.calls[i].sigpipe <==> rest != []))
      && (rest != [] && Count(p.ring) < 4095 ==>
            q.calls[i].Writing? && |q.calls[i].rest| < |rest| && Sound(q.ring)
            && q.calls[i].done + |q.calls[i].rest| == done + |rest|
            && Bytes(p.ring) + rest == Bytes(q.ring) + q.calls[i].rest)
      && (rest != [] && Count(p.ring) == 4095 && p.open ==> q.calls[i] == p.calls[i] && q.ring == p.ring && q.sleep.asleep[i])
  {
    hide Put, Bytes;
    PutNewest(p.ring, p.calls[i].rest);
    var n := Put(p.ring, p.calls[i].rest).1;
    assert p.calls[i].rest == p.calls[i].rest[..n] + p.calls[i].rest[n..];
  }

  /** The last close of the other end wakes whoever sleeps on the pipe and leaves the bytes and the calls alone;
      from then on nobody goes to sleep there. */
  lemma CloseWakes(p: Pipe, i: nat)
    requires Can(p, Close) && PIPE_QUEUE < |p.sleep.head|
    ensures var q := Step(p, Close);
      && !q.open && q.ring == p.ring && q.calls == p.calls && q.written == p.written && q.read == p.read
      && (0 < p.sleep.head[PIPE_QUEUE] < |q.sleep.asleep| ==> !q.sleep.asleep[p.sleep.head[PIPE_QUEUE]])
      && (Can(q, Go(i)) ==> !Step(q, Go(i)).sleep.asleep[i])
  {
    hide Take, Put;
  }

  predicate CanRun(p: Pipe, es: seq<Event>)
    decreases |es|
  {
    es == [] || (Can(p, es[0]) && CanRun(Step(p, es[0]), es[1..]))
  }

  function Final(p: Pipe, es: seq<Event>): Pipe
    requires CanRun(p, es)
    decreases |es|
  {
    if es == [] then p else Final(Step(p, es[0]), es[1..])
  }

  lemma {:induction false} RunConserves(p: Pipe, es: seq<Event>)
    requires Conserved(p) && CanRun(p, es)
    ensures Conserved(Final(p, es))
    decreases |es|
  {
    if es != [] {
      StepConserves(p, es[0]);
      RunConserves(Step(p, es[0]), es[1..]);
    }
  }

  /** However readers and writers interleave from the creation of the pipe on, what was written is what
      was read followed by what is in the ring, and that is never more than 4095 bytes. */
  lemma Fifo(p: Pipe, es: seq<Event>)
    requires Fresh(p) && CanRun(p, es)
    ensures var q := Final(p, es); Sound(q.ring) && q.written == q.read + Bytes(q.ring) && |Bytes(q.ring)| <= 4095
  {
    RunConserves(p, es);
  }

  // ---------------------------------------------------------------- one reader, one writer

  /** Task r only reads, task w only writes, and nobody else uses the pipe. */
  predicate Roles(e: Event, r: nat, w: nat) {
    match e
    case Read(i, n) => i == r
    case Write(i, b) => i == w
    case Go(i) => i == r || i == w
    case Resume(i) => i == r || i == w
    case Close => true
  }

  /** x has at most its own place in the queue: nobody sleeps in front of another. */
  predicate Alone(p: Pipe, x: nat)
    requires |p.calls| == |p.sleep.frame| == |p.sleep.asleep| && PIPE_QUEUE < |p.sleep.head|
  {
    && 0 < x < |p.calls|
    && (p.sleep.frame[x].Inside? ==> p.sleep.frame[x] == W.Inside(PIPE_QUEUE, W.NULL) && !p.calls[x].Returned?)
    && (p.sleep.asleep[x] <==> p.sleep.head[PIPE_QUEUE] == x)
    && (p.sleep.asleep[x] ==> p.sleep.frame[x].Inside? && p.open)
  }

  /** One of two tasks sleeps at most; a sleeping reader has missed nothing unless the writer is
      still writing, and the other way round. */
  ghost predicate Pair(p: Pipe, r: nat, w: nat) {
    && r != w && Conserved(p)
    && |p.calls| == |p.sleep.frame| == |p.sleep.asleep| && PIPE_QUEUE < |p.sleep.head|
    && Alone(p, r) && Alone(p, w)
    && p.sleep.head[PIPE_QUEUE] in {-1, r as int, w as int}
    && !p.calls[r].Writing? && !p.calls[w].Reading?
    && (p.sleep.asleep[r] && p.calls[w].Returned? ==> Count(p.ring) == 0)
    && (p.sleep.asleep[w] && p.calls[r].Returned? ==> Count(p.ring) == 4095)
  }

  lemma StepKeepsPair(p: Pipe, e: Event, r: nat, w: nat)
    requires Pair(p, r, w) && Can(p, e) && Roles(e, r, w)
    ensures Pair(Step(p, e), r, w)
  {
    match e
    case Go(i) => if i == r { ReaderKeepsPair(p, r, w); } else { WriterKeepsPair(p, r, w); }
    case _ => OtherKeepsPair(p, e, r, w);
  }

  lemma ReaderKeepsPair(p: Pipe, r: nat, w: nat)
    requires Pair(p, r, w) && Can(p, Go(r))
    ensures Pair(Step(p, Go(r)), r, w)
  {
    StepConserves(p, Go(r));
  }

  lemma WriterKeepsPair(p: Pipe, r: nat, w: nat)
    requires Pair(p, r, w) && Can(p, Go(w))
    ensures Pair(Step(p, Go(w)), r, w)
  {
    StepConserves(p, Go(w));
  }

  lemma OtherKeepsPair(p: Pipe, e: Event, r: nat, w: nat)
    requires Pair(p, r, w) && Can(p, e) && Roles(e, r, w) && !e.Go?
    ensures Pair(Step(p, e), r, w)
  {
  }

  lemma FreshPair(p: Pipe, r: nat, w: nat)
    requires Fresh(p) && 0 < r < |p.calls| && 0 < w < |p.calls| && r != w
    ensures Pair(p, r, w)
  {
    assert Bytes(p.ring) == [];
  }

  lemma {:induction false} RunKeepsPair(p: Pipe, es: seq<Event>, r: nat, w: nat)
    requires Pair(p, r, w) && CanRun(p, es) && forall e | e in es :: Roles(e, r, w)
    ensures Pair(Final(p, es), r, w)
    decreases |es|
  {
    if es != [] {
      assert es[0] in es;
      StepKeepsPair(p, es[0], r, w);
      RunKeepsPair(Step(p, es[0]), es[1..], r, w);
    }
  }

  /** From the creation of the pipe on, a reader and a writer are never asleep in it at once, and whoever
      sleeps is waiting for something the other can still do: the writer can go on, or it has gone with
      the pipe empty; the reader can go on, or it has gone with the pipe full. */
  lemma NeverBothAsleep(p: Pipe, es: seq<Event>, r: nat, w: nat)
    requires Fresh(p) && 0 < r < |p.calls| && 0 < w < |p.calls| && r != w
    requires CanRun(p, es) && forall e | e in es :: Roles(e, r, w)
    ensures var q := Final(p, es);
      && Pair(q, r, w)
      && !(q.sleep.asleep[r] && q.sleep.asleep[w])
      && (q.sleep.asleep[r] ==> Can(q, Go(w)) || Can(q, Resume(w)) || (q.calls[w].Returned? && Count(q.ring) == 0))
      && (q.sleep.asleep[w] ==> Can(q, Go(r)) || Can(q, Resume(r)) || (q.calls[r].Returned? && Count(q.ring) == 4095))
  {
    FreshPair(p, r, w);
    RunKeepsPair(p, es, r, w);
  }
}

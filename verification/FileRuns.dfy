/** Whole histories of a device: writes and truncations of any of its files, one after the other. */
module FileRuns {
  import opened ZoneTree
  import opened FileBytes
  import opened Truncation

  /** file_write took the first `done` bytes of buf; truncate emptied file n. */
  datatype Event = Write(n: nat, pos: nat, buf: seq<byte>, done: nat) | Truncate(n: nat)

  ghost predicate Happens(s: Fs, e: Event, s': Fs)
    requires Shape(s)
  {
    e.n < |s.inodes| &&
    match e
    case Write(n, pos, buf, done) => pos + |buf| <= LIMIT && (s', done) == FileWrite(s, n, pos, buf)
    case Truncate(n) => Truncated(s, s', n)
  }

  ghost predicate Runs(s: Fs, es: seq<Event>, s': Fs)
    requires Shape(s)
    decreases |es|
  {
    if es == [] then s' == s
    else exists t :: Shape(t) && Runs(s, es[..|es| - 1], t) && Happens(t, es[|es| - 1], s')
  }

  /** The files as plain arrays, all zero at first, and their sizes. */
  datatype Files = Files(bytes: Bytes, sizes: seq<nat>)

  ghost function NewFiles(k: nat): Files {
    Files(map x | x in Positions(k) :: 0, seq(k, _ => 0))
  }

  ghost function Edited(f: Files, e: Event): (g: Files)
    requires e.n < |f.sizes| && (e.Write? ==> e.done <= |e.buf|)
    ensures |g.sizes| == |f.sizes|
  {
    match e
    case Write(n, pos, buf, done) => Files(Put(f.bytes, n, pos, buf[..done]), f.sizes[n := SizeAfter(f.sizes[n], pos, done)])
    case Truncate(n) => Files(map x | x in f.bytes :: if x.0 == n then 0 else f.bytes[x], f.sizes[n := 0])
  }

  predicate Named(k: nat, e: Event) {
    e.n < k && (e.Write? ==> e.done <= |e.buf|)
  }

  ghost function EditedAll(f: Files, es: seq<Event>): (g: Files)
    requires forall e | e in es :: Named(|f.sizes|, e)
    ensures |g.sizes| == |f.sizes|
    decreases |es|
  {
    if es == [] then f
    else
      var e := es[|es| - 1];
      assert Named(|f.sizes|, e);
      Edited(EditedAll(f, es[..|es| - 1]), e)
  }

  ghost predicate Shows(s: Fs, f: Files) {
    && WellFormed(s) && Contents(s) == f.bytes && |f.sizes| == |s.inodes|
    && forall n | 0 <= n < |s.inodes| :: s.inodes[n].size == f.sizes[n]
  }

  /** Past its size a file is zero. */
  ghost predicate ZeroBeyond(f: Files) {
    forall x {:trigger x in f.bytes} | x in f.bytes && x.0 < |f.sizes| && f.sizes[x.0] <= x.1 :: f.bytes[x] == 0
  }

  lemma StepShows(s: Fs, f: Files, e: Event, s': Fs)
    requires Shows(s, f) && Happens(s, e, s')
    ensures Named(|f.sizes|, e) && Shows(s', Edited(f, e))
    ensures e.Write? && e.done < |e.buf| ==> NoRoom(s')
  {
    hide FileWrite, Contents, WellFormed, NoRoom;
    match e
    case Write(n, pos, buf, done) => FileWriteSpec(s, n, pos, buf);
    case Truncate(n) =>
      TruncateSpec(s, s', n);
      TruncateContents(s, s', n);
  }

  lemma EditKeepsZero(f: Files, e: Event)
    requires Named(|f.sizes|, e) && ZeroBeyond(f)
    ensures ZeroBeyond(Edited(f, e))
  {
  }

  lemma {:induction false} RunShows(s: Fs, f: Files, es: seq<Event>, s': Fs)
    requires Shape(s) && Shows(s, f) && ZeroBeyond(f) && Runs(s, es, s')
    ensures forall e | e in es :: Named(|f.sizes|, e)
    ensures Shows(s', EditedAll(f, es)) && ZeroBeyond(EditedAll(f, es))
    decreases |es|
  {
    hide Shows, ZeroBeyond, Happens, Edited, Named;
    if es != [] {
      var n := |es| - 1;
      var t :| Shape(t) && Runs(s, es[..n], t) && Happens(t, es[n], s');
      RunShows(s, f, es[..n], t);
      StepShows(t, EditedAll(f, es[..n]), es[n], s');
      EditKeepsZero(EditedAll(f, es[..n]), es[n]);
      assert es == es[..n] + [es[n]];
    }
  }

  lemma NothingYet(s: Fs)
    requires NoFiles(s)
    ensures Shows(s, NewFiles(|s.inodes|)) && ZeroBeyond(NewFiles(|s.inodes|))
  {
    EmptyForest(s);
    forall n, p | 0 <= n < |s.inodes| && 0 <= p < LIMIT ensures ByteAt(s, n, p) == 0 {
      hide WellFormed;
      DataSlotLegal(s, n, p / 1024);
    }
    assert Contents(s) == NewFiles(|s.inodes|).bytes;
  }

  /** From a device without files on, whatever is written and truncated, every file reads as the plain
      array would with the same bytes put in, has its size, and is zero past it. */
  lemma FilesFromEmpty(s: Fs, es: seq<Event>, s': Fs)
    requires NoFiles(s) && Runs(s, es, s')
    ensures forall e | e in es :: Named(|s.inodes|, e)
    ensures Shows(s', EditedAll(NewFiles(|s.inodes|), es)) && ZeroBeyond(EditedAll(NewFiles(|s.inodes|), es))
  {
    hide Shows, ZeroBeyond, Runs, Named, EditedAll;
    NothingYet(s);
    RunShows(s, NewFiles(|s.inodes|), es, s');
  }
}

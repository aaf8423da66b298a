/** When the memory manager says no: exact conditions for the answers of mm/memory.c, in terms of the
    count table and the bits of the entries alone. */
module FreeFrames {
  import opened PageTables
  import opened PageSteps
  import opened AddressSpaces

  /** The frames whose count byte is zero. */
  function FreeOnes(s: Mm): set<nat>
    requires Shape(s)
  {
    set k: nat | k < PAGING_PAGES && s.count[k] == 0
  }

  lemma GetFreeTakesOne(s: Mm)
    requires Shape(s)
    ensures var (s', f) := GetFree(s);
      && (f == 0 <==> FreeOnes(s) == {})
      && (f != 0 ==> LOW <= f < FRAMES && f - LOW in FreeOnes(s) && FreeOnes(s') == FreeOnes(s) - {f - LOW}
                     && |FreeOnes(s')| == |FreeOnes(s)| - 1)
  {
    var (s', f) := GetFree(s);
    if f == 0 {
      assert forall k: nat | k < PAGING_PAGES :: s.count[k] != 0;
      assert FreeOnes(s) == {};
    } else {
      assert f - LOW in FreeOnes(s);
      assert FreeOnes(s') == FreeOnes(s) - {f - LOW};
    }
  }

  // ---------------------------------------------------------------- try_to_share

  /** Only a present, clean, pageable page of the other task is shared; it is refused for lack of memory
      only when a table is needed and every count is non-zero; and both entries end up read-only. */
  lemma ShareAnswers(s: Mm, fd: nat, td: nat, j: nat)
    requires Inv(s) && Allowed(s, SharePage(fd, td, j))
    ensures var (w, (s', a)) := (Pte(s, fd, j), Share(s, fd, td, j));
      && (a == 0 <==> !w.present || w.dirty || !(LOW <= w.frame < s.hi))
      && (a == 2 <==> a != 0 && !Dir(s, td).present && forall k | 0 <= k < PAGING_PAGES :: s.count[k] > 0)
      && (a != 1 ==> a in {0, 2} && s' == s)
      && (a == 1 ==> Pte(s', fd, j) == Pte(s', td, j) == Word(w.frame, false, false, true, w.rest))
  {
    hide TablesOk, EntriesOk, Exclusive, HeldOk, CountsOk, CopyEntry, GetFree;
    var w := Pte(s, fd, j);
    if w.present && !w.dirty && LOW <= w.frame < s.hi {
      HasTableIff(s, td);
      if HasTable(s, td) {
        CopyEntryWords(s, fd, td, j);
      } else {
        ShareIntoNewTable(s, fd, td, j);
      }
    }
  }

  lemma HasTableIff(s: Mm, d: nat)
    requires Inv(s) && TASK_DIRS <= d < 1024
    ensures HasTable(s, d) <==> Dir(s, d).present
  {
    assert Dir(s, d).present ==> Target(s, Table(d)) == Dir(s, d).frame;
  }

  lemma ShareIntoNewTable(s: Mm, fd: nat, td: nat, j: nat)
    requires Inv(s) && Allowed(s, SharePage(fd, td, j)) && !HasTable(s, td)
    requires var w := Pte(s, fd, j); w.present && !w.dirty && LOW <= w.frame < s.hi
    ensures var (w, (s', a)) := (Pte(s, fd, j), Share(s, fd, td, j));
      && (a == 2 <==> forall k | 0 <= k < PAGING_PAGES :: s.count[k] > 0)
      && (a != 1 ==> a == 2 && s' == s)
      && (a == 1 ==> Pte(s', fd, j) == Pte(s', td, j) == Word(w.frame, false, false, true, w.rest))
  {
    HasTableIff(s, td);
    hide TablesOk, EntriesOk, Exclusive, HeldOk, CountsOk, CopyEntry;
    GetFreeInv(s);
    var (s1, t) := GetFree(s);
    if t != 0 {
      assert Target(s1, Table(td)) == Target(s, Table(td)) < 0;
      AddTableInv(s1, td, t);
      var s2 := AddTable(s1, td, t);
      assert WordAt(s2, Entry(fd, j)) == WordAt(s1, Entry(fd, j)) == WordAt(s, Entry(fd, j)) by {
        AddTableKeepsWords(s1, td, t, fd, j);
      }
      CopyEntryWords(s2, fd, td, j);
    }
  }

  lemma AddTableKeepsWords(s: Mm, td: nat, t: nat, fd: nat, j: nat)
    requires Inv(s) && TASK_DIRS <= td < 1024 && t in s.held && s.ram[t] == ZeroPage() && !Dir(s, td).present
    requires Legal(Entry(fd, j)) && fd != td
    ensures WordAt(AddTable(s, td, t), Entry(fd, j)) == WordAt(s, Entry(fd, j))
  {
    HasTableIff(s, fd);
    assert Dir(s, fd).present ==> Target(s, Table(fd)) >= LOW;
  }

  /** A page that a store of its task or of the kernel went to is shared with nobody. */
  lemma StoredNotShared(s: Mm, fd: nat, td: nat, j: nat, off: nat, w: Word)
    requires Inv(s) && Allowed(s, SharePage(fd, td, j)) && off < ENTRIES && Pte(s, fd, j).present
    requires LOW <= Pte(s, fd, j).frame
    ensures Share(Store(s, fd, j, off, w), fd, td, j) == (Store(s, fd, j, off, w), 0)
  {
    MappedFrame(s, fd, j);
    var s' := Store(s, fd, j, off, w);
    assert Target(s, Table(fd)) >= LOW;
    assert Dir(s', fd) == Dir(s, fd);
    assert Pte(s', fd, j) == Dirtied(Pte(s, fd, j));
  }

  /** fork keeps the dirty bit, in both tasks. */
  lemma ForkKeepsBits(s: Mm, fd: nat, td: nat, j: nat)
    requires Inv(s) && Legal(Entry(td, j)) && HasTable(s, td) && Legal(Entry(fd, j)) && fd != td && Pte(s, fd, j).present
    ensures var (w, s') := (Pte(s, fd, j), CopyEntry(s, fd, td, j));
      && Pte(s', td, j) == Word(w.frame, w.dirty, false, true, w.rest)
      && (w.frame >= LOW ==> Pte(s', fd, j) == Word(w.frame, w.dirty, false, true, w.rest))
  {
    CopyEntryWords(s, fd, td, j);
  }

  // ---------------------------------------------------------------- write faults and new pages

  /** A write fault fails only for a page somebody else has too, and only when every count is non-zero;
      a sole owner keeps its frame, any other gets a fresh one, with its dirty bit clear. */
  lemma UnWpAnswers(s: Mm, d: nat, j: nat)
    requires Inv(s) && Legal(Entry(d, j)) && Pte(s, d, j).present
    ensures var (w, (s', ok)) := (Pte(s, d, j), UnWp(s, d, j));
      var alone := LOW <= w.frame < FRAMES && s.count[w.frame - LOW] == 1;
      && (ok <==> alone || FreeOnes(s) != {})
      && (alone ==> s'.count == s.count && Pte(s', d, j) == Word(w.frame, w.dirty, true, true, w.rest))
      && (ok && !alone ==> var f := Pte(s', d, j).frame;
                           f >= LOW && f - LOW in FreeOnes(s) && Pte(s', d, j) == Word(f, false, true, true, 1))
  {
    var w := Pte(s, d, j);
    MappedFrame(s, d, j);
    hide TablesOk, EntriesOk, Exclusive, HeldOk, CountsOk, Repoint, View, FreeOnes, GetFree;
    if LOW <= w.frame && s.count[w.frame - LOW] == 1 {
      UnWpAlone(s, d, j);
    } else {
      UnWpFresh(s, d, j);
    }
  }

  lemma UnWpCopies(s: Mm, d: nat, j: nat)
    requires Shape(s) && d < 1024 && j < ENTRIES && Pte(s, d, j).frame < FRAMES
    requires !(LOW <= Pte(s, d, j).frame && s.count[Pte(s, d, j).frame - LOW] == 1)
    ensures var (s1, f) := GetFree(s);
      UnWp(s, d, j) == if f == 0 then (s, false) else (Repoint(s1, d, j, f, s1.ram[Pte(s, d, j).frame]), true)
  {
  }

  lemma UnWpFresh(s: Mm, d: nat, j: nat)
    requires Inv(s) && Legal(Entry(d, j)) && Pte(s, d, j).present && Pte(s, d, j).frame < FRAMES
    requires !(LOW <= Pte(s, d, j).frame && s.count[Pte(s, d, j).frame - LOW] == 1)
    ensures var (s', ok) := UnWp(s, d, j);
      && (ok <==> FreeOnes(s) != {})
      && (ok ==> var f := Pte(s', d, j).frame;
                 f >= LOW && f - LOW in FreeOnes(s) && Pte(s', d, j) == Word(f, false, true, true, 1))
  {
    HasTableIff(s, d);
    hide TablesOk, EntriesOk, Exclusive, HeldOk, CountsOk, Repoint, View, FreeOnes, GetFree, PokeEntry, UnWp;
    GetFreeInv(s);
    GetFreeTakesOne(s);
    UnWpCopies(s, d, j);
    var (s1, f) := GetFree(s);
    if f != 0 {
      assert WordAt(s1, Entry(d, j)) == WordAt(s, Entry(d, j)) && WordAt(s1, Table(d)) == WordAt(s, Table(d));
      RepointWords(s1, d, j, f, s1.ram[Pte(s, d, j).frame]);
    }
  }

  /** put_page needs a free frame exactly when there is no table yet. */
  lemma PutPageAnswers(s: Mm, f: nat, d: nat, j: nat)
    requires Inv(s) && f in s.held && f < FRAMES && Legal(Entry(d, j)) && !Pte(s, d, j).present
    ensures PutPage(s, f, d, j).1 <==> Dir(s, d).present || FreeOnes(s) != {}
  {
    HasTableIff(s, d);
    GetFreeTakesOne(s);
  }

  /** A page is brought in exactly when there is a frame for it and, if need be, one for its table. */
  lemma PageInAnswers(s: Mm, d: nat, j: nat, words: seq<Word>)
    requires Inv(s) && Legal(Entry(d, j)) && !Pte(s, d, j).present && |words| == ENTRIES
    ensures PageIn(s, d, j, words).1 <==> |FreeOnes(s)| >= if Dir(s, d).present then 1 else 2
  {
    hide TablesOk, EntriesOk, Exclusive, HeldOk, CountsOk, PutPage;
    GetFreeInv(s);
    GetFreeTakesOne(s);
    var (s1, f) := GetFree(s);
    if f != 0 {
      FillHeld(s1, f, words);
      var s2 := Mm(s1.count, s1.ram[f := words], s1.held, s1.lo, s1.hi);
      assert WordAt(s2, Entry(d, j)) == WordAt(s1, Entry(d, j)) == WordAt(s, Entry(d, j));
      assert WordAt(s2, Table(d)) == WordAt(s1, Table(d)) == WordAt(s, Table(d));
      assert FreeOnes(s2) == FreeOnes(s1);
      PutPageAnswers(s2, f, d, j);
    }
  }

  // ---------------------------------------------------------------- fork

  /** The page tables of a range. */
  function TablesIn(s: Mm, fd: nat, n: nat): set<nat>
    requires Shape(s) && fd + n <= 1024
  {
    set d: nat | fd <= d < fd + n && Dir(s, d).present
  }

  lemma CopyEntryTakesNone(s: Mm, fd: nat, td: nat, j: nat)
    requires Inv(s) && fd < 1024 && Legal(Entry(td, j)) && HasTable(s, td) && fd != td && Source(s, fd, j)
    ensures FreeOnes(CopyEntry(s, fd, td, j)) == FreeOnes(s)
  {
    var w := Pte(s, fd, j);
    if w.present && LOW <= w.frame < FRAMES {
      assert fd >= TASK_DIRS;
      MappedFrame(s, fd, j);
    }
  }

  lemma {:induction false} CopyTableTakesNone(s: Mm, fd: nat, td: nat, n: nat)
    requires Inv(s) && CanCopy(s, fd, td, n) && HasTable(s, td) && EmptySlot(s, td, 0)
    ensures FreeOnes(CopyTable(s, fd, td, n)) == FreeOnes(s)
  {
    hide TablesOk, EntriesOk, Exclusive, HeldOk, CountsOk, FreeOnes, CopyEntry;
    if n > 0 {
      CopyTableTakesNone(s, fd, td, n - 1);
      CopyTableInv(s, fd, td, n - 1);
      var s1 := CopyTable(s, fd, td, n - 1);
      SameDirs(s, s1, fd, td);
      SourceStays(s, s1, fd, n - 1);
      CopyEntryTakesNone(s1, fd, td, n - 1);
    }
  }

  lemma SourceStays(s: Mm, s1: Mm, fd: nat, j: nat)
    requires Shape(s) && Shape(s1) && SameLow(s, s1) && fd < 1024 && j < ENTRIES && Source(s, fd, j)
    ensures Source(s1, fd, j)
  {
  }

  /** One slot: a table that is there needs one free frame, and takes it. */
  lemma CopyDirAnswers(s: Mm, fd: nat, td: nat, nr: nat)
    requires Inv(s) && CanFork(s, fd, td, 1, nr) && Free(s, td, 1)
    ensures var (s', ok) := CopyDir(s, fd, td, nr);
      && (ok <==> !Dir(s, fd).present || FreeOnes(s) != {})
      && (ok ==> |FreeOnes(s')| == |FreeOnes(s)| - if Dir(s, fd).present then 1 else 0)
  {
    if Dir(s, fd).present {
      hide TablesOk, EntriesOk, Exclusive, HeldOk, CountsOk, CopyTable;
      GetFreeTakesOne(s);
      var (s1, t) := GetFree(s);
      if t != 0 {
        NewTableReady(s, fd, td, nr);
        var s2 := AddTable(s1, td, t);
        assert FreeOnes(s2) == FreeOnes(s1);
        CopyTableTakesNone(s2, fd, td, nr);
      }
    }
  }

  lemma NewTableReady(s: Mm, fd: nat, td: nat, nr: nat)
    requires Inv(s) && CanFork(s, fd, td, 1, nr) && Free(s, td, 1) && Dir(s, fd).present && GetFree(s).1 != 0
    ensures var s2 := AddTable(GetFree(s).0, td, GetFree(s).1);
      Inv(s2) && CanCopy(s2, fd, td, nr) && HasTable(s2, td) && EmptySlot(s2, td, 0)
  {
    FreeShowsFault(s, td, 1);
    SamePlace(fd, td);
    var (s1, t) := GetFree(s);
    GetFreeInv(s);
    assert Target(s1, Table(td)) == Target(s, Table(td)) < 0;
    AddTableInv(s1, td, t);
    var s2 := AddTable(s1, td, t);
    forall j | 0 <= j < ENTRIES ensures !Pte(s2, td, j).present {
      assert Target(s2, Entry(td, j)) == Target(s1, Entry(td, j)) == Target(s, Entry(td, j));
      assert View(s, td, j) == Fault;
    }
    assert LowSource(s, fd);
  }

  /** A fork succeeds exactly when there are as many free frames as the parent has page tables. */
  lemma {:induction false} ForkAnswers(s: Mm, fd: nat, td: nat, n: nat, nr: nat)
    requires Inv(s) && CanFork(s, fd, td, n, nr) && Free(s, td, n)
    ensures var (s', ok) := CopyDirs(s, fd, td, n, nr);
      && (ok <==> |FreeOnes(s)| >= |TablesIn(s, fd, n)|)
      && (ok ==> |FreeOnes(s')| == |FreeOnes(s)| - |TablesIn(s, fd, n)|)
  {
    hide TablesOk, EntriesOk, Exclusive, HeldOk, CountsOk, CopyDir, FreeOnes;
    if n == 0 {
      assert TablesIn(s, fd, 0) == {};
    } else {
      ForkAnswers(s, fd, td, n - 1, nr);
      var (s1, ok) := CopyDirs(s, fd, td, n - 1, nr);
      TablesNext(s, fd, n);
      if ok {
        CopyDirsInv(s, fd, td, n - 1, nr);
        NextSlotReady(s, s1, fd, td, n, nr);
        SourceDirSame(s, s1, fd, td, n);
        CopyDirAnswers(s1, fd + n - 1, td + n - 1, nr);
        Emptiness(s1);
      }
    }
  }

  /** So does copy_mem, and then the child has the parent's pages; else nothing of the copy is left. */
  lemma CopyMemAnswers(s: Mm, fd: nat, td: nat, n: nat, nr: nat)
    requires Inv(s) && CanFork(s, fd, td, n, nr) && Free(s, td, n)
    ensures var (s', ok) := CopyMem(s, fd, td, n, nr);
      && (ok <==> |FreeOnes(s)| >= |TablesIn(s, fd, n)|)
      && (ok ==> Untouched(s, s', td, td + n) && s'.held == s.held)
      && (ok && fd >= TASK_DIRS ==> CopiedRange(s, s', fd, td, n))
      && (!ok ==> Free(s', td, n) && s'.count == s.count && SameView(s, s'))
  {
    hide TablesOk, EntriesOk, Exclusive, HeldOk, CountsOk, CopyDirs, FreeOnes, Free, SameView, CopiedRange, Untouched, FreeDirs;
    ForkAnswers(s, fd, td, n, nr);
    CopyDirsInv(s, fd, td, n, nr);
    if !CopyMem(s, fd, td, n, nr).1 {
      ForkRollback(s, fd, td, n, nr);
      FreeStays(s, CopyMem(s, fd, td, n, nr).0, td, n);
    }
  }

  lemma FreeStays(s: Mm, s': Mm, td: nat, n: nat)
    requires Shape(s) && Shape(s') && td + n <= 1024 && Free(s, td, n)
    requires forall q | Legal(q) :: Target(s', q) == Target(s, q)
    ensures Free(s', td, n)
  {
    forall e | TASK_DIRS <= e < 1024 && td <= e < td + n ensures Target(s', Table(e)) < 0 {
      assert Legal(Table(e));
    }
  }

  lemma Emptiness(s: Mm)
    requires Shape(s)
    ensures FreeOnes(s) == {} <==> |FreeOnes(s)| == 0
  {
  }

  lemma TablesNext(s: Mm, fd: nat, n: nat)
    requires Shape(s) && n > 0 && fd + n <= 1024
    ensures |TablesIn(s, fd, n)| == |TablesIn(s, fd, n - 1)| + if Dir(s, fd + n - 1).present then 1 else 0
  {
    var last := fd + n - 1;
    assert TablesIn(s, fd, n) == if Dir(s, last).present then TablesIn(s, fd, n - 1) + {last} else TablesIn(s, fd, n - 1);
  }

  lemma SourceDirSame(s: Mm, s1: Mm, fd: nat, td: nat, n: nat)
    requires Inv(s) && Inv(s1) && n > 0 && fd + n <= 1024 && TASK_DIRS <= td && td + n <= 1024 && (fd + n <= td || td + n <= fd)
    requires Untouched(s, s1, td, td + n - 1) && SameKernelDirs(s, s1)
    ensures Dir(s1, fd + n - 1).present <==> Dir(s, fd + n - 1).present
  {
    if fd + n - 1 >= TASK_DIRS {
      assert Target(s1, Table(fd + n - 1)) == Target(s, Table(fd + n - 1));
    }
  }
}

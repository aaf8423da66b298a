/** The kernel's own page directory slots and everything else below LOW_MEM stay as the boot code left
    them, whatever user processes do, so task 0 can fork at any time. */
module KernelMemory {
  import opened PageTables
  import opened PageSteps
  import opened AddressSpaces

  lemma Chain(s: Mm, s1: Mm, s2: Mm)
    requires Shape(s) && Shape(s1) && Shape(s2) && SameKernelDirs(s, s1) && SameKernelDirs(s1, s2)
    ensures SameKernelDirs(s, s2)
  {
  }

  lemma TableIsHigh(s: Mm, d: nat)
    requires Inv(s) && TASK_DIRS <= d < 1024
    ensures Dir(s, d).present ==> LOW <= Dir(s, d).frame < s.hi
  {
    assert Dir(s, d).present ==> Target(s, Table(d)) == Dir(s, d).frame;
  }

  lemma HeldIsHigh(s: Mm, f: nat)
    requires Inv(s) && f in s.held
    ensures LOW <= f < FRAMES
  {
  }

  lemma PokeSpares(s: Mm, d: nat, j: nat, w: Word)
    requires Shape(s) && d < 1024 && j < ENTRIES && (Dir(s, d).present ==> LOW <= Dir(s, d).frame)
    ensures SameKernelDirs(s, PokeEntry(s, d, j, w))
  {
  }

  lemma GetFreeSpares(s: Mm)
    requires Shape(s)
    ensures SameKernelDirs(s, GetFree(s).0)
  {
  }

  lemma AddTableSpares(s: Mm, d: nat, t: nat)
    requires Shape(s) && TASK_DIRS <= d < 1024
    ensures SameKernelDirs(s, AddTable(s, d, t))
  {
  }

  lemma RepointSpares(s: Mm, d: nat, j: nat, f: nat, words: seq<Word>)
    requires Shape(s) && d < 1024 && j < ENTRIES && LOW <= f < FRAMES && |words| == ENTRIES
    requires Dir(s, d).present ==> LOW <= Dir(s, d).frame
    ensures SameKernelDirs(s, Repoint(s, d, j, f, words))
  {
    var e := Pte(s, d, j);
    PokeSpares(if e.present && LOW <= e.frame < FRAMES then Drop(s, e.frame) else s, d, j, Entry7(f));
  }

  lemma UnWpSpares(s: Mm, d: nat, j: nat)
    requires Inv(s) && Legal(Entry(d, j))
    ensures SameKernelDirs(s, UnWp(s, d, j).0)
  {
    hide TablesOk, EntriesOk, Exclusive, HeldOk, CountsOk, PokeEntry, Repoint, SameKernelDirs;
    TableIsHigh(s, d);
    var e := Pte(s, d, j);
    PokeSpares(s, d, j, Writable(e));
    GetFreeSpares(s);
    GetFreeInv(s);
    var (s1, f) := GetFree(s);
    if f != 0 && e.frame < FRAMES {
      HeldIsHigh(s1, f);
      TableIsHigh(s1, d);
      RepointSpares(s1, d, j, f, s1.ram[e.frame]);
      Chain(s, s1, Repoint(s1, d, j, f, s1.ram[e.frame]));
    }
    Unchanged(s);
  }

  lemma Unchanged(s: Mm)
    requires Shape(s)
    ensures SameKernelDirs(s, s)
  {
  }

  lemma PutPageSpares(s: Mm, f: nat, d: nat, j: nat)
    requires Inv(s) && f in s.held && Legal(Entry(d, j))
    ensures f < FRAMES && SameKernelDirs(s, PutPage(s, f, d, j).0)
  {
    hide TablesOk, EntriesOk, Exclusive, HeldOk, CountsOk, Repoint, SameKernelDirs;
    HeldIsHigh(s, f);
    TableIsHigh(s, d);
    Unchanged(s);
    if HasTable(s, d) {
      RepointSpares(s, d, j, f, s.ram[f]);
    } else {
      GetFreeSpares(s);
      GetFreeInv(s);
      var (s1, t) := GetFree(s);
      if t != 0 {
        HeldIsHigh(s1, t);
        var s2 := AddTable(s1, d, t);
        AddTableSpares(s1, d, t);
        RepointSpares(s2, d, j, f, s2.ram[f]);
        Chain(s, s1, s2);
        Chain(s, s2, PutPage(s, f, d, j).0);
      }
    }
  }

  lemma FillSpares(s: Mm, f: nat, words: seq<Word>)
    requires Shape(s) && LOW <= f < FRAMES && |words| == ENTRIES
    ensures SameKernelDirs(s, Mm(s.count, s.ram[f := words], s.held, s.lo, s.hi))
  {
  }

  lemma FreeHeldSpares(s: Mm, f: nat)
    requires Shape(s) && LOW <= f < FRAMES
    ensures SameKernelDirs(s, FreeHeld(s, f))
  {
  }

  lemma PageInSpares(s: Mm, d: nat, j: nat, words: seq<Word>)
    requires Inv(s) && Legal(Entry(d, j)) && |words| == ENTRIES
    ensures SameKernelDirs(s, PageIn(s, d, j, words).0)
  {
    hide TablesOk, EntriesOk, Exclusive, HeldOk, CountsOk, PutPage, SameKernelDirs;
    Unchanged(s);
    GetFreeSpares(s);
    GetFreeInv(s);
    var (s1, f) := GetFree(s);
    if f != 0 {
      HeldIsHigh(s1, f);
      FillHeld(s1, f, words);
      FillSpares(s1, f, words);
      var s2 := Mm(s1.count, s1.ram[f := words], s1.held, s1.lo, s1.hi);
      PutPageSpares(s2, f, d, j);
      var (s3, ok) := PutPage(s2, f, d, j);
      FreeHeldSpares(s3, f);
      Chain(s, s1, s2);
      Chain(s, s2, s3);
      Chain(s, s3, FreeHeld(s3, f));
    }
  }

  lemma CopyEntrySpares(s: Mm, fd: nat, td: nat, j: nat)
    requires Inv(s) && Legal(Entry(fd, j)) && Legal(Entry(td, j)) && HasTable(s, td) && fd != td && fd % 16 == td % 16
    requires !Pte(s, td, j).present
    ensures SameKernelDirs(s, CopyEntry(s, fd, td, j))
  {
    CopyEntryInv(s, fd, td, j);
  }

  lemma ShareSpares(s: Mm, fd: nat, td: nat, j: nat)
    requires Inv(s) && Allowed(s, SharePage(fd, td, j))
    ensures SameKernelDirs(s, Share(s, fd, td, j).0)
  {
    assert !HasTable(s, td) ==> Target(s, Table(td)) < 0;
    hide TablesOk, EntriesOk, Exclusive, HeldOk, CountsOk, CopyEntry, SameKernelDirs;
    Unchanged(s);
    if HasTable(s, td) {
      CopyEntrySpares(s, fd, td, j);
    } else {
      GetFreeSpares(s);
      GetFreeInv(s);
      var (s1, t) := GetFree(s);
      if t != 0 {
        assert Target(s1, Table(td)) == Target(s, Table(td));
        AddTableInv(s1, td, t);
        AddTableSpares(s1, td, t);
        var s2 := AddTable(s1, td, t);
        assert Target(s2, Entry(td, j)) == Target(s1, Entry(td, j)) == Target(s, Entry(td, j));
        CopyEntrySpares(s2, fd, td, j);
        Chain(s, s1, s2);
        Chain(s, s2, CopyEntry(s2, fd, td, j));
      }
    }
  }

  lemma StoreSpares(s: Mm, d: nat, j: nat, off: nat, w: Word)
    requires Inv(s) && Legal(Entry(d, j)) && off < ENTRIES && LOW <= Pte(s, d, j).frame
    ensures SameKernelDirs(s, Store(s, d, j, off, w))
  {
    TableIsHigh(s, d);
    PokeSpares(s, d, j, Dirtied(Pte(s, d, j)));
  }

  lemma FreeDirSpares(s: Mm, d: nat)
    requires Inv(s) && TASK_DIRS <= d < 1024
    ensures SameKernelDirs(s, FreeDir(s, d))
  {
    if Dir(s, d).present {
      TableIsHigh(s, d);
      FreeTableInv(s, d, ENTRIES);
    }
  }

  lemma {:induction false} FreeDirsSpares(s: Mm, d: nat, n: nat)
    requires Inv(s) && TASK_DIRS <= d && d + n <= 1024
    ensures SameKernelDirs(s, FreeDirs(s, d, n))
  {
    hide TablesOk, EntriesOk, Exclusive, HeldOk, CountsOk, FreeDir, SameKernelDirs;
    if n == 0 {
      Unchanged(s);
    } else {
      FreeDirsSpares(s, d, n - 1);
      FreeDirsInv(s, d, n - 1);
      var s1 := FreeDirs(s, d, n - 1);
      FreeDirSpares(s1, d + n - 1);
      Chain(s, s1, FreeDir(s1, d + n - 1));
    }
  }

  lemma ForkSpares(s: Mm, fd: nat, td: nat, n: nat, nr: nat)
    requires Inv(s) && CanFork(s, fd, td, n, nr) && Free(s, td, n)
    ensures SameKernelDirs(s, CopyMem(s, fd, td, n, nr).0)
  {
    hide TablesOk, EntriesOk, Exclusive, HeldOk, CountsOk, CopyDirs, FreeDirs, SameKernelDirs;
    CopyDirsInv(s, fd, td, n, nr);
    var s1 := CopyDirs(s, fd, td, n, nr).0;
    FreeDirsSpares(s1, td, n);
    Chain(s, s1, FreeDirs(s1, td, n));
  }

  lemma WritableIsHigh(s: Mm, d: nat, j: nat)
    requires Inv(s) && Legal(Entry(d, j)) && Pte(s, d, j).present && Pte(s, d, j).rw
    ensures LOW <= Pte(s, d, j).frame
  {
    assert Target(s, Entry(d, j)) == Pte(s, d, j).frame;
  }

  lemma UserWriteSpares(s: Mm, e: Event)
    requires Inv(s) && Allowed(s, e) && e.UserWrite?
    ensures SameKernelDirs(s, Exec(s, e).0)
  {
    hide TablesOk, EntriesOk, Exclusive, HeldOk, CountsOk, UnWp, Store, SameKernelDirs, View;
    if Pte(s, e.d, e.j).rw {
      WritableIsHigh(s, e.d, e.j);
      StoreSpares(s, e.d, e.j, e.off, e.w);
    } else {
      UnWpInv(s, e.d, e.j);
      UnWpSpares(s, e.d, e.j);
      var (s1, ok) := UnWp(s, e.d, e.j);
      if ok {
        WritableIsHigh(s1, e.d, e.j);
        StoreSpares(s1, e.d, e.j, e.off, e.w);
        Chain(s, s1, Store(s1, e.d, e.j, e.off, e.w));
      }
    }
  }

  /** Every step but a kernel store into a shared page leaves the kernel's low memory alone. */
  lemma StepSpares(s: Mm, e: Event)
    requires Inv(s) && Allowed(s, e) && PrivateStore(s, e)
    ensures SameKernelDirs(s, Exec(s, e).0)
  {
    hide TablesOk, EntriesOk, Exclusive, HeldOk, CountsOk, SameKernelDirs, CopyMem, FreeDirs, PageIn, Share, UnWp, Store,
      GetFree, PutPage, FreeHeld;
    Unchanged(s);
    match e
    case Fork(a, b, n) =>
      assert CanFork(s, a * 16, b * 16, n, if a == 0 then 0xA0 else ENTRIES);
      ForkSpares(s, a * 16, b * 16, n, if a == 0 then 0xA0 else ENTRIES);
    case Exit(a, n) => FreeDirsSpares(s, a * 16, n);
    case LoadPage(d, j, words) => PageInSpares(s, d, j, words);
    case SharePage(fd, td, j) => ShareSpares(s, fd, td, j);
    case UserWrite(_, _, _, _) => UserWriteSpares(s, e);
    case Verify(d, j) => UnWpSpares(s, d, j);
    case KernelStore(d, j, off, w) => StoreSpares(s, d, j, off, w);
    case KernelGet => GetFreeSpares(s);
    case KernelFill(f, words) => FillSpares(s, f, words);
    case PutHeld(f, d, j) => PutPageSpares(s, f, d, j);
    case KernelFree(f) => FreeHeldSpares(s, f);
  }

  lemma {:induction false} RunSpares(s: Mm, m: Spaces, es: seq<Event>)
    requires Inv(s) && PrivateStores(s, es)
    ensures SameKernelDirs(s, Run(s, m, es).0)
    decreases |es|
  {
    hide TablesOk, EntriesOk, Exclusive, HeldOk, CountsOk, SameKernelDirs, Allowed, Exec, Eager, PrivateStore;
    Unchanged(s);
    if es != [] {
      if Allowed(s, es[0]) {
        StepSpares(s, es[0]);
        StepRefines(s, es[0]);
        var (s1, ok) := Exec(s, es[0]);
        RunSpares(s1, Eager(m, es[0], ok, s.ram), es[1..]);
        Chain(s, s1, Run(s, m, es).0);
      } else {
        RunSpares(s, m, es[1..]);
      }
    }
  }

  lemma StaysMapped(s: Mm, s': Mm)
    requires KernelMapped(s) && Shape(s') && SameKernelDirs(s, s')
    ensures KernelMapped(s')
  {
  }

  /** After any run from the state mem_init leaves, task 0 can be forked into any free task slot. */
  lemma TaskZeroCanFork(s: Mm, es: seq<Event>, b: nat)
    requires Booted(s) && PrivateStores(s, es) && 1 <= b < NR_TASKS
    ensures var s' := Run(s, Abs(s), es).0;
      KernelMapped(s') && (Free(s', b * 16, 1) ==> Allowed(s', Fork(0, b, 1)))
  {
    BootedInv(s);
    RunSpares(s, Abs(s), es);
    StaysMapped(s, Run(s, Abs(s), es).0);
  }
}

/** fork, exit and page faults over whole address spaces, and the two theorems of the
    memory manager: a failed fork leaves no trace, and copy-on-write is eager copying. */
module AddressSpaces {
  import opened PageTables
  import opened PageSteps

  // ---------------------------------------------------------------- whole tables

  /** The first n entries of the inner loop of copy_page_tables. */
  function CopyTable(s: Mm, fd: nat, td: nat, n: nat): (s': Mm)
    requires Shape(s) && fd < 1024 && td < 1024 && n <= ENTRIES
    ensures Shape(s')
  {
    if n == 0 then s else CopyEntry(CopyTable(s, fd, td, n - 1), fd, td, n - 1)
  }

  /** fork never copies onto itself, keeps task-relative addresses and starts from an empty slot;
      from task 0 only the kernel's low pages are copied. */
  ghost predicate CanCopy(s: Mm, fd: nat, td: nat, n: nat)
    requires Shape(s)
  {
    && fd < 1024 && TASK_DIRS <= td < 1024 && fd != td && fd % 16 == td % 16 && n <= ENTRIES
    && LowSource(s, fd) && (fd < TASK_DIRS ==> n <= 0xA0)
  }

  ghost predicate EmptySlot(s: Mm, d: nat, from: nat)
    requires Shape(s) && d < 1024
  {
    forall j {:trigger Pte(s, d, j)} | from <= j < ENTRIES :: !Pte(s, d, j).present
  }

  /** Directory slots other than [lo, hi) point where they did and show what they did. */
  ghost predicate Untouched(s: Mm, s': Mm, lo: nat, hi: nat)
    requires Shape(s) && Shape(s')
  {
    && s'.lo == s.lo && s'.hi == s.hi
    && (forall q {:trigger Target(s', q)} | Legal(q) && !(lo <= q.d < hi) :: Target(s', q) == Target(s, q))
    && (forall d, j {:trigger View(s', d, j)} | TASK_DIRS <= d < 1024 && 0 <= j < ENTRIES && !(lo <= d < hi) ::
          View(s', d, j) == View(s, d, j))
  }

  ghost predicate CopiedTable(s: Mm, s': Mm, fd: nat, td: nat, n: nat)
    requires Shape(s) && Shape(s') && fd < 1024 && td < 1024 && n <= ENTRIES
  {
    forall j {:trigger View(s', td, j)} | 0 <= j < n :: View(s', td, j) == View(s, fd, j)
  }

  lemma CopyTableInv(s: Mm, fd: nat, td: nat, n: nat)
    requires Inv(s) && CanCopy(s, fd, td, n) && HasTable(s, td) && EmptySlot(s, td, 0)
    ensures var s' := CopyTable(s, fd, td, n);
      && Inv(s') && s'.held == s.held && s'.lo == s.lo && s'.hi == s.hi && SameLow(s, s')
      && Untouched(s, s', td, td + 1) && EmptySlot(s', td, n)
      && (fd >= TASK_DIRS ==> CopiedTable(s, s', fd, td, n))
  {
    if n > 0 {
      CopyTableInv(s, fd, td, n - 1);
      CopyTableNext(s, CopyTable(s, fd, td, n - 1), fd, td, n);
    }
  }

  lemma SameDirs(s: Mm, s1: Mm, fd: nat, td: nat)
    requires Shape(s) && Shape(s1) && SameLow(s, s1) && fd < 1024 && td < 1024
    ensures Dir(s1, td) == Dir(s, td) && Dir(s1, fd) == Dir(s, fd)
  {
  }

  lemma CopyTableNext(s: Mm, s1: Mm, fd: nat, td: nat, n: nat)
    requires Shape(s) && Inv(s1) && 0 < n && CanCopy(s, fd, td, n) && HasTable(s, td)
    requires SameLow(s, s1) && Untouched(s, s1, td, td + 1) && EmptySlot(s1, td, n - 1)
    requires fd >= TASK_DIRS ==> CopiedTable(s, s1, fd, td, n - 1)
    ensures var s' := CopyEntry(s1, fd, td, n - 1);
      && Inv(s') && s'.held == s1.held && SameLow(s, s')
      && Untouched(s, s', td, td + 1) && EmptySlot(s', td, n)
      && (fd >= TASK_DIRS ==> CopiedTable(s, s', fd, td, n))
  {
    SameDirs(s, s1, fd, td);
    CopyEntryInv(s1, fd, td, n - 1);
    var s' := CopyEntry(s1, fd, td, n - 1);
    forall j | n <= j < ENTRIES ensures !Pte(s', td, j).present {
      assert Target(s', Entry(td, j)) == Target(s1, Entry(td, j));
    }
    forall q | Legal(q) && q.d != td ensures Target(s', q) == Target(s, q) {
      assert Target(s', q) == Target(s1, q);
    }
    if fd >= TASK_DIRS {
      assert View(s', td, n - 1) == View(s1, fd, n - 1) == View(s, fd, n - 1);
    }
  }

  /** The first n entries of the inner loop of free_page_tables. */
  function FreeTable(s: Mm, d: nat, n: nat): (s': Mm)
    requires Shape(s) && d < 1024 && n <= ENTRIES
    ensures Shape(s')
  {
    if n == 0 then s else FreeEntry(FreeTable(s, d, n - 1), d, n - 1)
  }

  ghost predicate ClearTo(s: Mm, d: nat, n: nat)
    requires Shape(s)
  {
    forall q {:trigger Target(s, q)} | Legal(q) && q.Entry? && q.d == d && q.j < n :: Target(s, q) < 0
  }

  lemma FreeTableInv(s: Mm, d: nat, n: nat)
    requires Inv(s) && TASK_DIRS <= d < 1024 && n <= ENTRIES && HasTable(s, d)
    ensures var s' := FreeTable(s, d, n);
      && Inv(s') && s'.held == s.held && Untouched(s, s', d, d + 1) && SameLow(s, s')
      && ClearTo(s', d, n)
  {
    if n > 0 {
      FreeTableInv(s, d, n - 1);
      FreeTableNext(s, FreeTable(s, d, n - 1), d, n);
    }
  }

  lemma FreeTableNext(s: Mm, s1: Mm, d: nat, n: nat)
    requires Shape(s) && Inv(s1) && TASK_DIRS <= d < 1024 && 0 < n <= ENTRIES && HasTable(s, d)
    requires Untouched(s, s1, d, d + 1) && SameLow(s, s1) && ClearTo(s1, d, n - 1)
    ensures var s' := FreeEntry(s1, d, n - 1);
      Inv(s') && s'.held == s1.held && Untouched(s, s', d, d + 1) && SameLow(s, s') && ClearTo(s', d, n)
  {
    assert Dir(s1, d) == Dir(s, d);
    FreeEntryInv(s1, d, n - 1);
    var s' := FreeEntry(s1, d, n - 1);
    assert Target(s', Entry(d, n - 1)) < 0;
    forall q | Legal(q) && q.d != d ensures Target(s', q) == Target(s, q) {
      assert Target(s', q) == Target(s1, q);
    }
  }

  // ---------------------------------------------------------------- whole ranges of slots

  /** One round of the outer loop of copy_page_tables; false is -1, out of memory. */
  function CopyDir(s: Mm, fd: nat, td: nat, nr: nat): (r: (Mm, bool))
    requires Shape(s) && fd < 1024 && td < 1024 && nr <= ENTRIES
    ensures Shape(r.0)
  {
    if !Dir(s, fd).present then (s, true)
    else
      var (s1, t) := GetFree(s);
      if t == 0 then (s, false) else (CopyTable(AddTable(s1, td, t), fd, td, nr), true)
  }

  function CopyDirs(s: Mm, fd: nat, td: nat, n: nat, nr: nat): (r: (Mm, bool))
    requires Shape(s) && fd + n <= 1024 && td + n <= 1024 && nr <= ENTRIES
    ensures Shape(r.0)
  {
    if n == 0 then (s, true)
    else
      var (s1, ok) := CopyDirs(s, fd, td, n - 1, nr);
      if !ok then (s1, false) else CopyDir(s1, fd + n - 1, td + n - 1, nr)
  }

  /** One round of the outer loop of free_page_tables. */
  function FreeDir(s: Mm, d: nat): (s': Mm)
    requires Shape(s) && d < 1024
    ensures Shape(s')
  {
    if !Dir(s, d).present then s else DropTable(FreeTable(s, d, ENTRIES), d)
  }

  function FreeDirs(s: Mm, d: nat, n: nat): (s': Mm)
    requires Shape(s) && d + n <= 1024
    ensures Shape(s')
  {
    if n == 0 then s else FreeDir(FreeDirs(s, d, n - 1), d + n - 1)
  }

  /** No directory slot of [d, d + n) is in use. */
  ghost predicate Free(s: Mm, d: nat, n: nat)
    requires Shape(s)
  {
    forall e {:trigger Table(e)} | TASK_DIRS <= e < 1024 && d <= e < d + n :: Target(s, Table(e)) < 0
  }

  lemma FreeShowsFault(s: Mm, d: nat, n: nat)
    requires Shape(s) && Free(s, d, n)
    ensures forall e, j {:trigger View(s, e, j)} | TASK_DIRS <= e < 1024 && d <= e < d + n && 0 <= j < ENTRIES ::
      View(s, e, j) == Fault && Target(s, Entry(e, j)) < 0
  {
    forall e, j | TASK_DIRS <= e < 1024 && d <= e < d + n && 0 <= j < ENTRIES
      ensures View(s, e, j) == Fault && Target(s, Entry(e, j)) < 0
    {
      assert Target(s, Table(e)) < 0;
    }
  }

  lemma FreeDirInv(s: Mm, d: nat)
    requires Inv(s) && TASK_DIRS <= d < 1024
    ensures var s' := FreeDir(s, d);
      Inv(s') && s'.held == s.held && Untouched(s, s', d, d + 1) && Free(s', d, 1)
  {
    if Dir(s, d).present {
      assert Target(s, Table(d)) >= 0;
      FreeTableInv(s, d, ENTRIES);
      var s1 := FreeTable(s, d, ENTRIES);
      assert Dir(s1, d) == Dir(s, d);
      forall j | 0 <= j < ENTRIES ensures !Pte(s1, d, j).present { assert Target(s1, Entry(d, j)) < 0; }
      DropTableInv(s1, d);
      var s' := FreeDir(s, d);
      forall q | Legal(q) && q.d != d ensures Target(s', q) == Target(s, q) {
        assert Target(s', q) == Target(s1, q);
      }
    }
  }

  lemma FreeDirsInv(s: Mm, d: nat, n: nat)
    requires Inv(s) && TASK_DIRS <= d && d + n <= 1024
    ensures var s' := FreeDirs(s, d, n);
      Inv(s') && s'.held == s.held && Untouched(s, s', d, d + n) && Free(s', d, n)
  {
    if n > 0 {
      FreeDirsInv(s, d, n - 1);
      var s1 := FreeDirs(s, d, n - 1);
      FreeDirInv(s1, d + n - 1);
      var s' := FreeDirs(s, d, n);
      forall q | Legal(q) && !(d <= q.d < d + n) ensures Target(s', q) == Target(s, q) {
        assert Target(s', q) == Target(s1, q);
      }
      forall e | TASK_DIRS <= e < 1024 && d <= e < d + n ensures Target(s', Table(e)) < 0 {
        if e < d + n - 1 { assert Target(s', Table(e)) == Target(s1, Table(e)); }
      }
    }
  }

  /** What a range copy asks of its caller: 4 MB slots at one task-relative place of two
      tasks, the target unused ("already exist" panic), and task 0 only for its low pages. */
  ghost predicate CanFork(s: Mm, fd: nat, td: nat, n: nat, nr: nat)
    requires Shape(s)
  {
    && fd + n <= 1024 && TASK_DIRS <= td && td + n <= 1024
    && nr == (if fd < TASK_DIRS then 0xA0 else ENTRIES)
    && (td - fd) % 16 == 0 && (fd + n <= td || td + n <= fd)
    && (fd < TASK_DIRS ==> fd + n <= TASK_DIRS)
    && (forall d | fd <= d < fd + n :: LowSource(s, d))
  }

  ghost predicate SameKernelDirs(s: Mm, s': Mm)
    requires Shape(s) && Shape(s')
  {
    && (forall f | 0 < f < LOW :: s'.ram[f] == s.ram[f])
    && (forall d | 0 <= d < TASK_DIRS :: s'.ram[0][d] == s.ram[0][d])
  }

  lemma SamePlace(fd: nat, td: nat)
    requires (td - fd) % 16 == 0
    ensures fd % 16 == td % 16
  {
  }

  lemma CopyDirInv(s: Mm, fd: nat, td: nat, nr: nat)
    requires Inv(s) && CanFork(s, fd, td, 1, nr) && Free(s, td, 1)
    ensures var (s', ok) := CopyDir(s, fd, td, nr);
      && Inv(s') && s'.held == s.held && Untouched(s, s', td, td + 1) && SameKernelDirs(s, s')
      && (ok && fd >= TASK_DIRS ==> CopiedTable(s, s', fd, td, ENTRIES))
      && (!ok ==> s' == s)
  {
    FreeShowsFault(s, td, 1);
    SamePlace(fd, td);
    if Dir(s, fd).present {
      var (s1, t) := GetFree(s);
      GetFreeInv(s);
      if t != 0 {
        assert Target(s1, Table(td)) == Target(s, Table(td));
        AddTableInv(s1, td, t);
        var s2 := AddTable(s1, td, t);
        assert SameKernelDirs(s, s2);
        forall j | 0 <= j < ENTRIES ensures !Pte(s2, td, j).present {
          assert Target(s2, Entry(td, j)) == Target(s1, Entry(td, j)) == Target(s, Entry(td, j));
          assert View(s, td, j) == Fault;
        }
        assert LowSource(s, fd);
        CopyTableInv(s2, fd, td, nr);
        var s' := CopyTable(s2, fd, td, nr);
        forall q | Legal(q) && q.d != td ensures Target(s', q) == Target(s, q) {
          assert Target(s', q) == Target(s2, q) == Target(s1, q);
        }
      }
    }
  }

  ghost predicate CopiedRange(s: Mm, s': Mm, fd: nat, td: nat, n: nat)
    requires Shape(s) && Shape(s') && fd + n <= 1024 && td + n <= 1024
  {
    forall d, j {:trigger View(s', d, j)} | td <= d < td + n && 0 <= j < ENTRIES ::
      View(s', d, j) == View(s, d - td + fd, j)
  }

  lemma CopyDirsInv(s: Mm, fd: nat, td: nat, n: nat, nr: nat)
    requires Inv(s) && CanFork(s, fd, td, n, nr) && Free(s, td, n)
    ensures var (s', ok) := CopyDirs(s, fd, td, n, nr);
      && Inv(s') && s'.held == s.held && Untouched(s, s', td, td + n) && SameKernelDirs(s, s')
      && (ok && fd >= TASK_DIRS ==> CopiedRange(s, s', fd, td, n))
  {
    if n > 0 {
      CopyDirsInv(s, fd, td, n - 1, nr);
      var (s1, ok) := CopyDirs(s, fd, td, n - 1, nr);
      if ok { CopyDirsNext(s, s1, fd, td, n, nr); }
    }
  }

  lemma NextSlotReady(s: Mm, s1: Mm, fd: nat, td: nat, n: nat, nr: nat)
    requires Shape(s) && Shape(s1) && n > 0 && CanFork(s, fd, td, n, nr) && Free(s, td, n)
    requires Untouched(s, s1, td, td + n - 1) && SameKernelDirs(s, s1)
    ensures CanFork(s1, fd + n - 1, td + n - 1, 1, nr) && Free(s1, td + n - 1, 1)
  {
    var f, t := fd + n - 1, td + n - 1;
    assert Target(s1, Table(t)) == Target(s, Table(t)) < 0;
    assert LowSource(s, f);
  }

  lemma CopyDirsNext(s: Mm, s1: Mm, fd: nat, td: nat, n: nat, nr: nat)
    requires Shape(s) && n > 0 && CanFork(s, fd, td, n, nr) && Free(s, td, n)
    requires Inv(s1) && s1.held == s.held && Untouched(s, s1, td, td + n - 1) && SameKernelDirs(s, s1)
    requires fd >= TASK_DIRS ==> CopiedRange(s, s1, fd, td, n - 1)
    ensures var (s', ok) := CopyDir(s1, fd + n - 1, td + n - 1, nr);
      && Inv(s') && s'.held == s.held && Untouched(s, s', td, td + n) && SameKernelDirs(s, s')
      && (ok && fd >= TASK_DIRS ==> CopiedRange(s, s', fd, td, n))
  {
    var f, t := fd + n - 1, td + n - 1;
    NextSlotReady(s, s1, fd, td, n, nr);
    CopyDirInv(s1, f, t, nr);
    var (s', ok) := CopyDir(s1, f, t, nr);
    CopyDirsStep(s, s1, s', fd, td, n, ok && fd >= TASK_DIRS);
  }

  lemma CopyDirsStep(s: Mm, s1: Mm, s': Mm, fd: nat, td: nat, n: nat, copied: bool)
    requires Shape(s) && Shape(s1) && Shape(s') && n > 0
    requires fd + n <= 1024 && TASK_DIRS <= td && td + n <= 1024 && (fd + n <= td || td + n <= fd)
    requires Untouched(s, s1, td, td + n - 1) && Untouched(s1, s', td + n - 1, td + n)
    requires copied ==> fd >= TASK_DIRS && CopiedRange(s, s1, fd, td, n - 1)
                        && CopiedTable(s1, s', fd + n - 1, td + n - 1, ENTRIES)
    ensures Untouched(s, s', td, td + n) && (copied ==> CopiedRange(s, s', fd, td, n))
  {
    forall q | Legal(q) && !(td <= q.d < td + n) ensures Target(s', q) == Target(s, q) {
      assert Target(s', q) == Target(s1, q);
    }
    if copied {
      forall d, j | td <= d < td + n && 0 <= j < ENTRIES ensures View(s', d, j) == View(s, d - td + fd, j) {
        if d < td + n - 1 { assert View(s', d, j) == View(s1, d, j); }
      }
    }
  }

  // ---------------------------------------------------------------- fork of an address space

  /** copy_mem: the range copy, undone by free_page_tables when memory runs out. */
  function CopyMem(s: Mm, fd: nat, td: nat, n: nat, nr: nat): (r: (Mm, bool))
    requires Shape(s) && fd + n <= 1024 && td + n <= 1024 && nr <= ENTRIES
    ensures Shape(r.0)
  {
    var (s1, ok) := CopyDirs(s, fd, td, n, nr);
    if ok then (s1, true) else (FreeDirs(s1, td, n), false)
  }

  /** A fork that runs out of memory and rolls back restores every count of mem_map, every
      frame the kernel holds and every task's view; all it leaves behind are read-only bits. */
  lemma ForkRollback(s: Mm, fd: nat, td: nat, n: nat, nr: nat)
    requires Inv(s) && CanFork(s, fd, td, n, nr) && Free(s, td, n)
    requires !CopyMem(s, fd, td, n, nr).1
    ensures var s' := CopyMem(s, fd, td, n, nr).0;
      && Inv(s') && SameView(s, s') && s'.held == s.held
      && s'.count == s.count
      && (forall q | Legal(q) :: Target(s', q) == Target(s, q))
  {
    hide TablesOk, EntriesOk, Exclusive, HeldOk, CountsOk, CopyDirs, FreeDirs, View;
    var (s1, ok) := CopyDirs(s, fd, td, n, nr);
    CopyDirsInv(s, fd, td, n, nr);
    FreeDirsInv(s1, td, n);
    var s' := CopyMem(s, fd, td, n, nr).0;
    FreeShowsFault(s, td, n);
    FreeShowsFault(s', td, n);
    forall q | Legal(q) ensures Target(s', q) == Target(s, q) {
      if td <= q.d < td + n {
        assert Target(s, Table(q.d)) < 0 && Target(s', Table(q.d)) < 0;
      } else {
        assert Target(s', q) == Target(s1, q) == Target(s, q);
      }
    }
    forall d, j | TASK_DIRS <= d < 1024 && 0 <= j < ENTRIES ensures View(s', d, j) == View(s, d, j) {
      if !(td <= d < td + n) { assert View(s', d, j) == View(s1, d, j); }
    }
    RefsSame(s, s');
    forall k | 0 <= k < PAGING_PAGES ensures s'.count[k] == s.count[k] {
      CountBy(s, k + LOW);
      CountBy(s', k + LOW);
    }
  }

  lemma CountBy(s: Mm, f: nat)
    requires Inv(s) && LOW <= f < FRAMES
    ensures s.count[f - LOW] == |Refs(s, f)| + (if f in s.held then 1 else 0) + (if s.lo <= f < s.hi then 0 else USED)
  {
  }

  // ---------------------------------------------------------------- runs

  /** What can happen to user memory between two instructions of the kernel. */
  datatype Event =
    | Fork(from: nat, to: nat, dirs: nat)                      // task numbers, 4 MB units; task 0 has 640 kB
    | Exit(task: nat, dirs: nat)
    | LoadPage(d: nat, j: nat, words: seq<Word>)               // fault: fresh zero page or file contents
    | SharePage(fd: nat, td: nat, j: nat)                      // fault: page found in another task
    | UserWrite(d: nat, j: nat, off: nat, w: Word)
    | Verify(d: nat, j: nat)                                   // write_verify, well before the store
    | KernelStore(d: nat, j: nat, off: nat, w: Word)           // the store itself, which ignores rw
    | KernelGet
    | KernelFill(f: nat, words: seq<Word>)                     // the kernel writes a page it holds
    | PutHeld(f: nat, d: nat, j: nat)                          // put_page of such a page (change_ldt)
    | KernelFree(f: nat)

  /** What the callers in the kernel see to before the step. */
  ghost predicate Allowed(s: Mm, e: Event)
    requires Shape(s)
  {
    match e
    case Fork(a, b, n) =>
      && a < NR_TASKS && 1 <= b < NR_TASKS && a != b && n <= TASK_DIRS && Free(s, b * 16, n)
      && (a == 0 ==> n <= 1 && KernelMapped(s))
    case Exit(a, n) => 1 <= a < NR_TASKS && n <= TASK_DIRS
    case LoadPage(d, j, words) => Legal(Entry(d, j)) && |words| == ENTRIES && !Pte(s, d, j).present
    case SharePage(fd, td, j) =>
      && Legal(Entry(fd, j)) && Legal(Entry(td, j)) && fd != td && fd % 16 == td % 16
      && !Pte(s, td, j).present
    case UserWrite(d, j, off, _) => Legal(Entry(d, j)) && off < ENTRIES && Pte(s, d, j).present
    case Verify(d, j) => Legal(Entry(d, j))
    case KernelStore(d, j, off, _) => Legal(Entry(d, j)) && off < ENTRIES && Pte(s, d, j).present
    case KernelGet => true
    case KernelFill(f, words) => f in s.held && LOW <= f < FRAMES && |words| == ENTRIES
    case PutHeld(f, d, j) => f in s.held && LOW <= f < FRAMES && Legal(Entry(d, j)) && !Pte(s, d, j).present
    case KernelFree(f) => f in s.held && LOW <= f < FRAMES
  }

  /** write_verify */
  function WriteVerify(s: Mm, d: nat, j: nat): (r: (Mm, bool))
    requires Shape(s) && d < 1024 && j < ENTRIES
    ensures Shape(r.0)
  {
    if !HasTable(s, d) then (s, true)
    else if Pte(s, d, j).present && !Pte(s, d, j).rw then UnWp(s, d, j)
    else (s, true)
  }

  /** The step as the kernel takes it; false where it ends in -ENOMEM, oom or "no". */
  ghost function Exec(s: Mm, e: Event): (r: (Mm, bool))
    requires Shape(s) && Allowed(s, e)
    ensures Shape(r.0)
  {
    match e
    case Fork(a, b, n) => CopyMem(s, a * 16, b * 16, n, if a == 0 then 0xA0 else ENTRIES)
    case Exit(a, n) => (FreeDirs(s, a * 16, n), true)
    case LoadPage(d, j, words) => PageIn(s, d, j, words)
    case SharePage(fd, td, j) => var (s1, a) := Share(s, fd, td, j); (s1, a == 1)
    case UserWrite(d, j, off, w) =>
      if Pte(s, d, j).rw then (Store(s, d, j, off, w), true)
      else
        var (s1, ok) := UnWp(s, d, j);
        if ok then (Store(s1, d, j, off, w), true) else (s1, false)
    case Verify(d, j) => WriteVerify(s, d, j)
    case KernelStore(d, j, off, w) => (Store(s, d, j, off, w), true)
    case KernelGet => var (s1, f) := GetFree(s); (s1, f != 0)
    case KernelFill(f, words) => (Mm(s.count, s.ram[f := words], s.held, s.lo, s.hi), true)
    case PutHeld(f, d, j) => PutPage(s, f, d, j)
    case KernelFree(f) => (FreeHeld(s, f), true)
  }

  // ---------------------------------------------------------------- the eager machine

  /** Memory as if nothing were ever shared: every page of every task has its own words. */
  type Spaces = map<(nat, nat), Sight>

  ghost function UserPages(): (ps: set<(nat, nat)>)
    ensures forall p: (nat, nat) :: p in ps <==> TASK_DIRS <= p.0 < 1024 && p.1 < ENTRIES
  {
    set d: nat, j: nat | TASK_DIRS <= d < 1024 && j < ENTRIES :: (d, j)
  }

  ghost function Abs(s: Mm): Spaces
    requires Shape(s)
  {
    map p | p in UserPages() :: View(s, p.0, p.1)
  }

  /** The words behind a page; `ram` is kernel memory, which is nobody's page. */
  function Words(v: Sight, ram: seq<seq<Word>>): seq<Word> {
    match v
    case Fault => []
    case Kernel(f) => if f < |ram| then ram[f] else []
    case Page(words) => words
  }

  ghost function At(m: Spaces, d: int, j: int): Sight {
    if d >= 0 && j >= 0 && (d, j) in m then m[(d, j)] else Fault
  }

  /** Copies n slots page by page, all at once. */
  ghost function EagerFork(m: Spaces, fd: nat, td: nat, n: nat): Spaces {
    map p | p in m :: if td <= p.0 < td + n then At(m, p.0 - td + fd, p.1) else m[p]
  }

  /** A child of task 0 reads the kernel's first 640 kB, and nothing else. */
  ghost function EagerFirstFork(m: Spaces, td: nat, n: nat): Spaces {
    map p | p in m :: if td <= p.0 < td + n then (if p.1 < 0xA0 then Kernel(p.1) else Fault) else m[p]
  }

  ghost function EagerExit(m: Spaces, d: nat, n: nat): Spaces {
    map p | p in m :: if d <= p.0 < d + n then Fault else m[p]
  }

  /** `ram` is what the kernel sees; tasks see m only. */
  ghost function Eager(m: Spaces, e: Event, ok: bool, ram: seq<seq<Word>>): Spaces {
    if !ok then m
    else match e
      case Fork(a, b, n) => if a == 0 then EagerFirstFork(m, b * 16, n) else EagerFork(m, a * 16, b * 16, n)
      case Exit(a, n) => EagerExit(m, a * 16, n)
      case LoadPage(d, j, words) => m[(d, j) := Page(words)]
      case SharePage(fd, td, j) => m[(td, j) := At(m, fd, j)]
      case UserWrite(d, j, off, w) => EagerStore(m, d, j, off, w, ram)
      case Verify(d, j) => if At(m, d, j).Fault? then m else m[(d, j) := Page(Words(At(m, d, j), ram))]
      case KernelStore(d, j, off, w) => EagerStore(m, d, j, off, w, ram)
      case KernelGet => m
      case KernelFill(_, _) => m
      case PutHeld(f, d, j) => if f < |ram| then m[(d, j) := Page(ram[f])] else m
      case KernelFree(_) => m
  }

  ghost function EagerStore(m: Spaces, d: nat, j: nat, off: nat, w: Word, ram: seq<seq<Word>>): Spaces {
    if (d, j) !in m || off >= |Words(m[(d, j)], ram)| then m
    else m[(d, j) := Page(Words(m[(d, j)], ram)[off := w])]
  }

  lemma AbsExcept(s: Mm, s': Mm, d: nat, j: nat)
    requires Shape(s) && Shape(s') && SameViewExcept(s, s', d, j) && Legal(Entry(d, j))
    ensures Abs(s') == Abs(s)[(d, j) := View(s', d, j)]
  {
  }

  lemma AbsSame(s: Mm, s': Mm)
    requires Shape(s) && Shape(s') && SameView(s, s')
    ensures Abs(s') == Abs(s)
  {
  }

  lemma AbsFork(s: Mm, s': Mm, fd: nat, td: nat, n: nat)
    requires Shape(s) && Shape(s') && TASK_DIRS <= fd && fd + n <= 1024 && TASK_DIRS <= td && td + n <= 1024
    requires Untouched(s, s', td, td + n) && CopiedRange(s, s', fd, td, n)
    ensures Abs(s') == EagerFork(Abs(s), fd, td, n)
  {
    hide View;
    var m, a, a' := EagerFork(Abs(s), fd, td, n), Abs(s), Abs(s');
    forall p | p in UserPages() ensures m[p] == a'[p] {
      if td <= p.0 < td + n {
        assert (p.0 - td + fd, p.1) in UserPages();
        assert View(s', p.0, p.1) == View(s, p.0 - td + fd, p.1);
      }
    }
  }

  lemma AbsExit(s: Mm, s': Mm, d0: nat, n: nat)
    requires Shape(s) && Shape(s') && TASK_DIRS <= d0 && d0 + n <= 1024
    requires Untouched(s, s', d0, d0 + n) && Free(s', d0, n)
    ensures Abs(s') == EagerExit(Abs(s), d0, n)
  {
    FreeShowsFault(s', d0, n);
  }

  lemma ForkRefines(s: Mm, e: Event)
    requires Inv(s) && e.Fork? && Allowed(s, e) && e.from != 0
    ensures var (s', ok) := CopyMem(s, e.from * 16, e.to * 16, e.dirs, ENTRIES);
      Inv(s') && Abs(s') == Eager(Abs(s), e, ok, s.ram)
  {
    var fd, td, n := e.from * 16, e.to * 16, e.dirs;
    var (s', ok) := CopyMem(s, fd, td, n, ENTRIES);
    assert CanFork(s, fd, td, n, ENTRIES);
    if ok {
      CopyDirsInv(s, fd, td, n, ENTRIES);
      AbsFork(s, s', fd, td, n);
    } else {
      ForkRollback(s, fd, td, n, ENTRIES);
      AbsSame(s, s');
    }
  }

  // ---------------------------------------------------------------- the first fork

  /** The first n pages of a table copied from task 0 show the kernel's own. */
  lemma LowTableShows(s: Mm, td: nat, n: nat)
    requires Inv(s) && KernelMapped(s) && CanCopy(s, 0, td, n) && HasTable(s, td) && EmptySlot(s, td, 0)
    ensures var s' := CopyTable(s, 0, td, n);
      && Inv(s') && EmptySlot(s', td, n) && forall j {:trigger View(s', td, j)} | 0 <= j < n :: View(s', td, j) == Kernel(j)
  {
    hide TablesOk, EntriesOk, Exclusive, HeldOk, CountsOk, View;
    CopyTableInv(s, 0, td, n);
    if n > 0 {
      LowTableShows(s, td, n - 1);
      CopyTableInv(s, 0, td, n - 1);
      var s1 := CopyTable(s, 0, td, n - 1);
      SameDirs(s, s1, 0, td);
      assert s1.ram[1] == s.ram[1];
      CopyEntryInv(s1, 0, td, n - 1);
      CopyEntryWords(s1, 0, td, n - 1);
      LowShows(CopyEntry(s1, 0, td, n - 1), td, n - 1);
    }
  }

  lemma LowShows(s: Mm, d: nat, j: nat)
    requires Shape(s) && d < 1024 && j < ENTRIES && Pte(s, d, j).present && Pte(s, d, j).frame < LOW
    ensures View(s, d, j) == Kernel(Pte(s, d, j).frame)
  {
  }

  /** What a child of task 0 finds in its first slot. */
  ghost predicate LowSlot(s: Mm, td: nat)
    requires Shape(s) && td < 1024
  {
    forall j {:trigger View(s, td, j)} | 0 <= j < ENTRIES :: View(s, td, j) == if j < 0xA0 then Kernel(j) else Fault
  }

  lemma LowDirShows(s: Mm, td: nat)
    requires Inv(s) && KernelMapped(s) && CanFork(s, 0, td, 1, 0xA0) && Free(s, td, 1) && CopyDir(s, 0, td, 0xA0).1
    ensures LowSlot(CopyDir(s, 0, td, 0xA0).0, td)
  {
    var (s1, t) := GetFree(s);
    GetFreeInv(s);
    assert Target(s1, Table(td)) == Target(s, Table(td)) < 0;
    AddTableInv(s1, td, t);
    var s2 := AddTable(s1, td, t);
    FreeShowsFault(s, td, 1);
    forall j | 0 <= j < ENTRIES ensures !Pte(s2, td, j).present {
      assert Target(s2, Entry(td, j)) == Target(s1, Entry(td, j)) == Target(s, Entry(td, j));
      assert View(s, td, j) == Fault;
    }
    LowTableShows(s2, td, 0xA0);
  }

  lemma FirstForkRefines(s: Mm, e: Event)
    requires Inv(s) && e.Fork? && Allowed(s, e) && e.from == 0
    ensures var (s', ok) := CopyMem(s, 0, e.to * 16, e.dirs, 0xA0);
      Inv(s') && Abs(s') == Eager(Abs(s), e, ok, s.ram)
  {
    var td, n := e.to * 16, e.dirs;
    var (s', ok) := CopyMem(s, 0, td, n, 0xA0);
    assert CanFork(s, 0, td, n, 0xA0);
    if ok {
      CopyDirsInv(s, 0, td, n, 0xA0);
      if n == 1 {
        assert CopyDirs(s, 0, td, 0, 0xA0) == (s, true);
        LowDirShows(s, td);
      }
      AbsFirstFork(s, s', td, n);
    } else {
      ForkRollback(s, 0, td, n, 0xA0);
      AbsSame(s, s');
    }
  }

  lemma AbsFirstFork(s: Mm, s': Mm, td: nat, n: nat)
    requires Shape(s) && Shape(s') && TASK_DIRS <= td && td + n <= 1024 && n <= 1
    requires Untouched(s, s', td, td + n) && (n == 1 ==> LowSlot(s', td))
    ensures Abs(s') == EagerFirstFork(Abs(s), td, n)
  {
    hide View;
    var m, a, a' := EagerFirstFork(Abs(s), td, n), Abs(s), Abs(s');
    forall p | p in UserPages() ensures m[p] == a'[p] {
      if td <= p.0 < td + n { assert View(s', td, p.1) == a'[p]; }
    }
  }

  lemma WriteRefines(s: Mm, d: nat, j: nat, off: nat, w: Word)
    requires Inv(s) && Legal(Entry(d, j)) && off < ENTRIES && Pte(s, d, j).present && Pte(s, d, j).rw
    ensures var s' := Store(s, d, j, off, w);
      Inv(s') && Abs(s') == EagerStore(Abs(s), d, j, off, w, s.ram)
  {
    StoreInv(s, d, j, off, w);
    AbsExcept(s, Store(s, d, j, off, w), d, j);
  }

  /** What a present entry shows; a writable one is a page of the task's own. */
  lemma PresentShows(s: Mm, d: nat, j: nat)
    requires Inv(s) && Legal(Entry(d, j)) && Pte(s, d, j).present
    ensures HasTable(s, d) && Pte(s, d, j).frame < FRAMES && Words(View(s, d, j), s.ram) == s.ram[Pte(s, d, j).frame]
    ensures Pte(s, d, j).rw ==> View(s, d, j) == Page(s.ram[Pte(s, d, j).frame])
    ensures View(s, d, j) != Fault
  {
    MappedFrame(s, d, j);
    assert Target(s, Entry(d, j)) == Pte(s, d, j).frame;
  }

  lemma AbsAt(s: Mm, d: nat, j: nat)
    requires Shape(s) && Legal(Entry(d, j))
    ensures (d, j) in Abs(s) && Abs(s)[(d, j)] == View(s, d, j)
  {
  }

  lemma FaultRefines(s: Mm, d: nat, j: nat, off: nat, w: Word)
    requires Inv(s) && Legal(Entry(d, j)) && off < ENTRIES && Pte(s, d, j).present
    ensures var (s1, ok) := UnWp(s, d, j);
      && Inv(s1) && (!ok ==> s1 == s)
      && (ok ==> Inv(Store(s1, d, j, off, w))
                 && Abs(Store(s1, d, j, off, w)) == EagerStore(Abs(s), d, j, off, w, s.ram))
  {
    hide TablesOk, EntriesOk, Exclusive, HeldOk, CountsOk, UnWp, Store, View, Pte, EagerStore, Abs, Words,
      SameViewExcept, SameTargetsBut;
    UnWpInv(s, d, j);
    PresentShows(s, d, j);
    AbsAt(s, d, j);
    var (s1, ok) := UnWp(s, d, j);
    if ok {
      WriteRefines(s1, d, j, off, w);
      AbsExcept(s, s1, d, j);
      EagerOwnPage(Abs(s), s.ram[Pte(s, d, j).frame], d, j, off, w, s.ram, s1.ram);
    }
  }

  /** A private copy taken before a store makes no difference to the store. */
  lemma EagerOwnPage(m: Spaces, words: seq<Word>, d: nat, j: nat, off: nat, w: Word,
                     low: seq<seq<Word>>, low': seq<seq<Word>>)
    requires (d, j) in m && words == Words(m[(d, j)], low) && off < |words|
    ensures EagerStore(m[(d, j) := Page(words)], d, j, off, w, low') == EagerStore(m, d, j, off, w, low)
  {
  }

  lemma UserWriteRefines(s: Mm, e: Event)
    requires Inv(s) && Allowed(s, e) && e.UserWrite?
    ensures var (s', ok) := Exec(s, e);
      Inv(s') && Abs(s') == Eager(Abs(s), e, ok, s.ram)
  {
    if Pte(s, e.d, e.j).rw {
      WriteRefines(s, e.d, e.j, e.off, e.w);
    } else {
      FaultRefines(s, e.d, e.j, e.off, e.w);
    }
  }

  // ---------------------------------------------------------------- stores by the kernel

  /** write_verify gives a page that is there an unshared copy, and does nothing for one that is not. */
  lemma VerifyRefines(s: Mm, e: Event)
    requires Inv(s) && Allowed(s, e) && e.Verify?
    ensures var (s', ok) := Exec(s, e);
      && Inv(s') && Abs(s') == Eager(Abs(s), e, ok, s.ram)
      && (ok && Pte(s, e.d, e.j).present ==> Pte(s', e.d, e.j).present && Pte(s', e.d, e.j).rw)
  {
    hide TablesOk, EntriesOk, Exclusive, HeldOk, CountsOk;
    var d, j := e.d, e.j;
    if Pte(s, d, j).present {
      PresentShows(s, d, j);
      if !Pte(s, d, j).rw {
        hide UnWp;
        UnWpInv(s, d, j);
        if UnWp(s, d, j).1 { AbsExcept(s, UnWp(s, d, j).0, d, j); }
      }
    }
  }

  /** What makes a kernel store the task's own affair: the page is not the kernel's, and nobody
      else maps its frame, or the word is what it was. A writable entry is such a case, but the
      processor does not ask for one. */
  ghost predicate StoreIsPrivate(s: Mm, d: nat, j: nat, off: nat, w: Word)
    requires Shape(s) && d < 1024 && j < ENTRIES && off < ENTRIES
  {
    var f := Pte(s, d, j).frame;
    LOW <= f < FRAMES && (s.count[f - LOW] == 1 || s.ram[f][off] == w)
  }

  lemma MappedShows(s: Mm, d: nat, j: nat, f: nat)
    requires Shape(s) && Legal(Entry(d, j)) && Target(s, Entry(d, j)) == f && LOW <= f < FRAMES
    ensures View(s, d, j) == Page(s.ram[f])
  {
  }

  lemma PrivateStoreRefines(s: Mm, d: nat, j: nat, off: nat, w: Word)
    requires Inv(s) && Allowed(s, KernelStore(d, j, off, w)) && StoreIsPrivate(s, d, j, off, w)
    ensures var s' := Store(s, d, j, off, w);
      Inv(s') && Abs(s') == EagerStore(Abs(s), d, j, off, w, s.ram)
  {
    hide TablesOk, EntriesOk, Exclusive, HeldOk, CountsOk, Store, View, Abs;
    var f, s' := Pte(s, d, j).frame, Store(s, d, j, off, w);
    assert Target(s, Entry(d, j)) == f;
    StoreShows(s, d, j, off, w);
    if s.count[f - LOW] == 1 {
      SoleReference(s, Entry(d, j), f);
    } else {
      assert s.ram[f][off := w] == s.ram[f];
    }
    forall e, k | TASK_DIRS <= e < 1024 && 0 <= k < ENTRIES && (e, k) != (d, j) ensures View(s', e, k) == View(s, e, k) {
      if Target(s, Entry(e, k)) == f { MappedShows(s, e, k, f); }
    }
    MappedShows(s, d, j, f);
    AbsAt(s, d, j);
    AbsExcept(s, s', d, j);
  }

  lemma SharedStoreDiffers(s: Mm, d: nat, j: nat, off: nat, w: Word)
    requires Inv(s) && Allowed(s, KernelStore(d, j, off, w)) && !StoreIsPrivate(s, d, j, off, w)
    requires !(Pte(s, d, j).frame == 0 && off == d)
    ensures Abs(Store(s, d, j, off, w)) != EagerStore(Abs(s), d, j, off, w, s.ram)
  {
    var f, s' := Pte(s, d, j).frame, Store(s, d, j, off, w);
    PresentShows(s, d, j);
    if f < LOW {
      LowStoreDiffers(s, d, j, off, w);
    } else {
      var e, k := AnotherMapping(s, d, j);
      SharedWordShows(s, d, j, off, w, e, k);
      var m := EagerStore(Abs(s), d, j, off, w, s.ram);
      assert (e, k) in Abs(s) && (e, k) in Abs(s');
      assert m[(e, k)] == View(s, e, k) != View(s', e, k) == Abs(s')[(e, k)];
    }
  }

  lemma LowStoreDiffers(s: Mm, d: nat, j: nat, off: nat, w: Word)
    requires Inv(s) && Allowed(s, KernelStore(d, j, off, w)) && Pte(s, d, j).frame < LOW
    requires !(Pte(s, d, j).frame == 0 && off == d)
    ensures Abs(Store(s, d, j, off, w)) != EagerStore(Abs(s), d, j, off, w, s.ram)
  {
    var s' := Store(s, d, j, off, w);
    assert Target(s, Table(d)) >= LOW;
    assert View(s', d, j) == Kernel(Pte(s, d, j).frame);
    assert (d, j) in Abs(s) && (d, j) in Abs(s');
    assert EagerStore(Abs(s), d, j, off, w, s.ram)[(d, j)].Page?;
  }

  lemma SharedWordShows(s: Mm, d: nat, j: nat, off: nat, w: Word, e: nat, k: nat)
    requires Inv(s) && Allowed(s, KernelStore(d, j, off, w)) && LOW <= Pte(s, d, j).frame < FRAMES
    requires s.ram[Pte(s, d, j).frame][off] != w
    requires Legal(Entry(e, k)) && Target(s, Entry(e, k)) == Pte(s, d, j).frame
    ensures View(Store(s, d, j, off, w), e, k) != View(s, e, k)
  {
    StoreShows(s, d, j, off, w);
    var f := Pte(s, d, j).frame;
    assert View(s, e, k) == Page(s.ram[f]);
    assert s.ram[f][off := w][off] != s.ram[f][off];
  }

  /** The references to pageable frames below n. */
  ghost function RefsBelow(s: Mm, n: nat): set<Ref>
    requires Shape(s)
  {
    set r | r in AllRefs() && LOW <= Target(s, r) < n
  }

  lemma TotalNext(s: Mm, n: nat)
    requires Shape(s) && LOW < n
    ensures |RefsBelow(s, n)| == |RefsBelow(s, n - 1)| + |Refs(s, n - 1)|
  {
    hide Target;
    assert RefsBelow(s, n) == RefsBelow(s, n - 1) + Refs(s, n - 1);
    assert RefsBelow(s, n - 1) !! Refs(s, n - 1);
  }

  lemma {:induction false} SameTotal(s: Mm, s': Mm, n: nat)
    requires Shape(s) && Shape(s') && LOW <= n && forall f: nat | LOW <= f < n :: |Refs(s', f)| == |Refs(s, f)|
    ensures |RefsBelow(s', n)| == |RefsBelow(s, n)|
  {
    if n == LOW {
      assert RefsBelow(s, n) == {} && RefsBelow(s', n) == {};
    } else {
      SameTotal(s, s', n - 1);
      TotalNext(s, n);
      TotalNext(s', n);
    }
  }

  /** With the same counts and holds, as many references go to pageable frames. */
  lemma CountsFixTotal(s: Mm, s': Mm)
    requires Inv(s) && Inv(s') && s'.count == s.count && s'.held == s.held && s'.lo == s.lo && s'.hi == s.hi
    ensures |RefsBelow(s', FRAMES)| == |RefsBelow(s, FRAMES)|
  {
    forall f: nat | LOW <= f < FRAMES ensures |Refs(s', f)| == |Refs(s, f)| {
      CountBy(s, f);
      CountBy(s', f);
    }
    SameTotal(s, s', FRAMES);
  }

  lemma HighIsPage(s: Mm, e: nat, k: nat)
    requires Inv(s) && Legal(Entry(e, k))
    ensures Entry(e, k) in RefsBelow(s, FRAMES) <==> View(s, e, k).Page?
  {
    assert Target(s, Entry(e, k)) >= 0 ==> Target(s, Entry(e, k)) < FRAMES;
  }

  lemma HighTable(s: Mm, e: nat)
    requires Inv(s) && TASK_DIRS <= e < 1024
    ensures Table(e) in RefsBelow(s, FRAMES) <==> Dir(s, e).present
  {
    assert Dir(s, e).present ==> Target(s, Table(e)) == Dir(s, e).frame;
  }

  lemma DirectoryStoreDirs(s: Mm, d: nat, j: nat, w: Word)
    requires Inv(s) && Allowed(s, KernelStore(d, j, d, w)) && Pte(s, d, j).frame == 0
    ensures var s' := Store(s, d, j, d, w);
      && s'.count == s.count && s'.held == s.held && s'.lo == s.lo && s'.hi == s.hi
      && (forall e | 0 <= e < 1024 && e != d :: Dir(s', e) == Dir(s, e))
      && Dir(s, d).present && (View(s', d, j).Page? ==> Dir(s', d).present)
  {
    assert Target(s, Table(d)) >= LOW;
  }

  lemma EagerStoreAt(m: Spaces, d: nat, j: nat, off: nat, w: Word, ram: seq<seq<Word>>, e: nat, k: nat)
    requires (d, j) in m && (e, k) in m && off < |Words(m[(d, j)], ram)|
    ensures (e, k) in EagerStore(m, d, j, off, w, ram)
    ensures (e, k) == (d, j) ==> EagerStore(m, d, j, off, w, ram)[(e, k)].Page?
    ensures (e, k) != (d, j) ==> EagerStore(m, d, j, off, w, ram)[(e, k)] == m[(e, k)]
  {
  }

  /** If the store were the eager one, the entry it goes through would refer to a pageable frame, and all
      others would go where they went. */
  lemma DirectoryStoreRefs(s: Mm, d: nat, j: nat, w: Word, r: Ref)
    requires Inv(s) && Allowed(s, KernelStore(d, j, d, w)) && Pte(s, d, j).frame == 0 && Legal(r)
    requires var s' := Store(s, d, j, d, w); Inv(s') && Abs(s') == EagerStore(Abs(s), d, j, d, w, s.ram)
    ensures r in RefsBelow(Store(s, d, j, d, w), FRAMES) <==> r in RefsBelow(s, FRAMES) || r == Entry(d, j)
  {
    hide TablesOk, EntriesOk, Exclusive, HeldOk, CountsOk, View, Store, Abs, RefsBelow, Target, Words, EagerStore;
    var s' := Store(s, d, j, d, w);
    PresentShows(s, d, j);
    AbsAt(s, d, j);
    AbsAt(s', d, j);
    EagerStoreAt(Abs(s), d, j, d, w, s.ram, d, j);
    match r {
      case Table(e) => {
        DirectoryStoreDirs(s, d, j, w);
        HighTable(s, e);
        HighTable(s', e);
      }
      case Entry(e, k) => {
        AbsAt(s, e, k);
        AbsAt(s', e, k);
        EagerStoreAt(Abs(s), d, j, d, w, s.ram, e, k);
        HighIsPage(s, e, k);
        HighIsPage(s', e, k);
      }
    }
  }

  /** A store into the page directory, to the slot it goes through, would need one page more than the
      counts allow for. */
  lemma DirectoryStoreBreaks(s: Mm, d: nat, j: nat, w: Word)
    requires Inv(s) && Allowed(s, KernelStore(d, j, d, w)) && Pte(s, d, j).frame == 0
    ensures var s' := Store(s, d, j, d, w);
      !(Inv(s') && Abs(s') == EagerStore(Abs(s), d, j, d, w, s.ram))
  {
    hide TablesOk, EntriesOk, Exclusive, HeldOk, CountsOk, View, Store, Abs, EagerStore;
    var s' := Store(s, d, j, d, w);
    if Inv(s') && Abs(s') == EagerStore(Abs(s), d, j, d, w, s.ram) {
      DirectoryStoreDirs(s, d, j, w);
      CountsFixTotal(s, s');
      forall r | Legal(r) ensures r in RefsBelow(s', FRAMES) <==> r in RefsBelow(s, FRAMES) || r == Entry(d, j) {
        DirectoryStoreRefs(s, d, j, w, r);
      }
      assert Target(s, Entry(d, j)) == 0;
      OneMore(RefsBelow(s, FRAMES), RefsBelow(s', FRAMES), Entry(d, j));
    }
  }

  lemma OneMore(a: set<Ref>, b: set<Ref>, r: Ref)
    requires r !in a && Legal(r) && (forall q | q in a || q in b :: Legal(q))
    requires forall q | Legal(q) :: q in b <==> q in a || q == r
    ensures |b| == |a| + 1
  {
    assert b == a + {r};
  }

  /** A kernel store keeps the invariant and is the eager machine's store if and only if it is private.
      Without the invariant the same holds of every store but one into the page directory, to the slot
      it goes through. */
  lemma KernelStoreExact(s: Mm, d: nat, j: nat, off: nat, w: Word)
    requires Inv(s) && Allowed(s, KernelStore(d, j, off, w))
    ensures var s' := Store(s, d, j, off, w);
      && (Inv(s') && Abs(s') == EagerStore(Abs(s), d, j, off, w, s.ram) <==> StoreIsPrivate(s, d, j, off, w))
      && (!(Pte(s, d, j).frame == 0 && off == d) ==>
            (Abs(s') == EagerStore(Abs(s), d, j, off, w, s.ram) <==> StoreIsPrivate(s, d, j, off, w)))
  {
    hide TablesOk, EntriesOk, Exclusive, HeldOk, CountsOk, Abs, Store, EagerStore;
    if StoreIsPrivate(s, d, j, off, w) {
      PrivateStoreRefines(s, d, j, off, w);
    } else if Pte(s, d, j).frame == 0 && off == d {
      DirectoryStoreBreaks(s, d, j, w);
    } else {
      SharedStoreDiffers(s, d, j, off, w);
    }
  }

  /** Right after its verification the store is private. */
  lemma VerifiedStoreIsPrivate(s: Mm, d: nat, j: nat, off: nat, w: Word)
    requires Inv(s) && Allowed(s, Verify(d, j)) && Exec(s, Verify(d, j)).1 && Pte(s, d, j).present && off < ENTRIES
    ensures StoreIsPrivate(Exec(s, Verify(d, j)).0, d, j, off, w)
  {
    VerifyRefines(s, Verify(d, j));
    WritableIsAlone(Exec(s, Verify(d, j)).0, d, j);
  }

  /** The first way it goes wrong: the page was absent when it was verified, the store faults, the
      fault maps another task's page, and the store that is tried again changes that task's page. */
  lemma StoreAfterSharingIn(s: Mm, fd: nat, td: nat, j: nat, off: nat, w: Word)
    requires Inv(s) && Allowed(s, SharePage(fd, td, j)) && off < ENTRIES && Exec(s, SharePage(fd, td, j)).1
    ensures Exec(s, Verify(td, j)) == (s, true)
    ensures var s1 := Exec(s, SharePage(fd, td, j)).0;
      && Inv(s1) && Allowed(s1, KernelStore(td, j, off, w)) && View(s, fd, j).Page?
      && View(Exec(s1, KernelStore(td, j, off, w)).0, fd, j) == Page(View(s, fd, j).words[off := w])
  {
    ShareMaps(s, fd, td, j);
    ShareInv(s, fd, td, j);
    var s1 := Share(s, fd, td, j).0;
    assert Target(s1, Entry(td, j)) == Target(s1, Entry(fd, j)) == Pte(s, fd, j).frame;
    assert View(s1, fd, j) == View(s, fd, j);
    StoreShows(s1, td, j, off, w);
  }

  /** The second: the page was verified, or needed no verification, and while the task slept another
      task shared it; the store shows in that task too. */
  lemma StoreAfterSharingOut(s: Mm, fd: nat, td: nat, j: nat, off: nat, w: Word)
    requires Inv(s) && Allowed(s, SharePage(fd, td, j)) && off < ENTRIES && Exec(s, SharePage(fd, td, j)).1
    requires Pte(s, fd, j).rw
    ensures Exec(s, Verify(fd, j)) == (s, true)
    ensures var s1 := Exec(s, SharePage(fd, td, j)).0;
      && Inv(s1) && Allowed(s1, KernelStore(fd, j, off, w)) && View(s1, td, j) == View(s, fd, j) && View(s, fd, j).Page?
      && View(Exec(s1, KernelStore(fd, j, off, w)).0, td, j) == Page(View(s, fd, j).words[off := w])
  {
    ShareMaps(s, fd, td, j);
    ShareInv(s, fd, td, j);
    var s1 := Share(s, fd, td, j).0;
    assert Target(s1, Entry(td, j)) == Target(s1, Entry(fd, j)) == Pte(s, fd, j).frame;
    StoreShows(s1, fd, j, off, w);
  }

  // ---------------------------------------------------------------- the other steps

  lemma LoadRefines(s: Mm, e: Event)
    requires Inv(s) && Allowed(s, e) && e.LoadPage?
    ensures Inv(Exec(s, e).0) && Abs(Exec(s, e).0) == Eager(Abs(s), e, Exec(s, e).1, s.ram)
  {
    PageInInv(s, e.d, e.j, e.words);
    AbsExcept(s, PageIn(s, e.d, e.j, e.words).0, e.d, e.j);
  }

  lemma ShareRefines(s: Mm, e: Event)
    requires Inv(s) && Allowed(s, e) && e.SharePage?
    ensures Inv(Exec(s, e).0) && Abs(Exec(s, e).0) == Eager(Abs(s), e, Exec(s, e).1, s.ram)
  {
    ShareInv(s, e.fd, e.td, e.j);
    AbsExcept(s, Share(s, e.fd, e.td, e.j).0, e.td, e.j);
  }

  lemma HeldRefines(s: Mm, e: Event)
    requires Inv(s) && Allowed(s, e) && (e.KernelGet? || e.KernelFill? || e.KernelFree?)
    ensures var (s', ok) := Exec(s, e);
      Inv(s') && Abs(s') == Eager(Abs(s), e, ok, s.ram)
  {
    match e
    case KernelGet =>
      GetFreeInv(s);
      AbsSame(s, GetFree(s).0);
    case KernelFill(f, words) =>
      FillHeld(s, f, words);
      AbsSame(s, Exec(s, e).0);
    case KernelFree(f) =>
      FreeHeldInv(s, f);
      AbsSame(s, FreeHeld(s, f));
  }

  lemma PutHeldRefines(s: Mm, e: Event)
    requires Inv(s) && Allowed(s, e) && e.PutHeld?
    ensures var (s', ok) := Exec(s, e);
      Inv(s') && Abs(s') == Eager(Abs(s), e, ok, s.ram)
  {
    PutPageInv(s, e.f, e.d, e.j);
    AbsExcept(s, Exec(s, e).0, e.d, e.j);
  }

  lemma ExitRefines(s: Mm, e: Event)
    requires Inv(s) && Allowed(s, e) && e.Exit?
    ensures Inv(Exec(s, e).0) && Abs(Exec(s, e).0) == Eager(Abs(s), e, Exec(s, e).1, s.ram)
  {
    FreeDirsInv(s, e.task * 16, e.dirs);
    AbsExit(s, FreeDirs(s, e.task * 16, e.dirs), e.task * 16, e.dirs);
  }

  ghost predicate PrivateStore(s: Mm, e: Event)
    requires Shape(s) && Allowed(s, e)
  {
    e.KernelStore? ==> StoreIsPrivate(s, e.d, e.j, e.off, e.w)
  }

  /** Every step of the lazy machine, but a kernel store into a shared page, is the same step of the
      eager one. */
  lemma StepRefines(s: Mm, e: Event)
    requires Inv(s) && Allowed(s, e) && PrivateStore(s, e)
    ensures Inv(Exec(s, e).0) && Abs(Exec(s, e).0) == Eager(Abs(s), e, Exec(s, e).1, s.ram)
  {
    match e
    case Fork(from, _, _) => if from == 0 { FirstForkRefines(s, e); } else { ForkRefines(s, e); }
    case Exit(_, _) => ExitRefines(s, e);
    case LoadPage(_, _, _) => LoadRefines(s, e);
    case SharePage(_, _, _) => ShareRefines(s, e);
    case UserWrite(_, _, _, _) => UserWriteRefines(s, e);
    case Verify(_, _) => VerifyRefines(s, e);
    case KernelStore(d, j, off, w) => PrivateStoreRefines(s, d, j, off, w);
    case KernelGet => HeldRefines(s, e);
    case KernelFill(_, _) => HeldRefines(s, e);
    case PutHeld(_, _, _) => PutHeldRefines(s, e);
    case KernelFree(_) => HeldRefines(s, e);
  }

  /** Runs the lazy machine, and the eager one beside it with the same outcomes; a step
      its callers would not make is skipped. */
  ghost function Run(s: Mm, m: Spaces, es: seq<Event>): (r: (Mm, Spaces))
    requires Shape(s)
    ensures Shape(r.0)
    decreases |es|
  {
    if es == [] then (s, m)
    else if !Allowed(s, es[0]) then Run(s, m, es[1..])
    else
      var (s', ok) := Exec(s, es[0]);
      Run(s', Eager(m, es[0], ok, s.ram), es[1..])
  }

  /** Every kernel store of the run is private when it happens. */
  ghost predicate PrivateStores(s: Mm, es: seq<Event>)
    requires Shape(s)
    decreases |es|
  {
    es == [] ||
    if Allowed(s, es[0]) then PrivateStore(s, es[0]) && PrivateStores(Exec(s, es[0]).0, es[1..])
    else PrivateStores(s, es[1..])
  }

  /** Copy-on-write is eager copying: in every run whose kernel stores are private, every page of
      every task reads exactly as it would had each fork copied every page at once; and the counts
      stay right. */
  lemma {:induction false} CopyOnWriteIsEager(s: Mm, es: seq<Event>)
    requires Inv(s) && PrivateStores(s, es)
    ensures var (s', m) := Run(s, Abs(s), es);
      Inv(s') && m == Abs(s')
    decreases |es|
  {
    if es != [] {
      if Allowed(s, es[0]) {
        StepRefines(s, es[0]);
        CopyOnWriteIsEager(Exec(s, es[0]).0, es[1..]);
      } else {
        CopyOnWriteIsEager(s, es[1..]);
      }
    }
  }

  // ---------------------------------------------------------------- from the start

  /** From the state mem_init leaves, where no task but task 0 has a page. */
  lemma {:induction false} CopyOnWriteFromBoot(s: Mm, es: seq<Event>)
    requires Booted(s) && PrivateStores(s, es)
    ensures var (s', m) := Run(s, map p | p in UserPages() :: Fault, es);
      Inv(s') && m == Abs(s')
  {
    BootedInv(s);
    forall p | p in UserPages() ensures View(s, p.0, p.1) == Fault {
      assert !Dir(s, p.0).present;
    }
    assert Abs(s) == map p | p in UserPages() :: Fault;
    CopyOnWriteIsEager(s, es);
  }

  /** What a page taken costs. */
  lemma TakesLast(s: Mm, a: nat)
    requires Shape(s) && a < PAGING_PAGES && s.count[a] == 0
    ensures var (s1, f) := GetFree(s);
      LOW <= f < FRAMES && s1 == Mm(s.count[f - LOW := 1], s.ram[f := ZeroPage()], s.held + {f}, s.lo, s.hi)
  {
  }

  /** put_page into a slot without a table takes one more frame and counts nothing else. */
  lemma PutIntoNewTable(s: Mm, g: nat, d: nat, j: nat, b: nat)
    requires Inv(s) && g in s.held && LOW <= g < FRAMES && Legal(Entry(d, j)) && !Dir(s, d).present
    requires b < PAGING_PAGES && s.count[b] == 0
    ensures var ((s', ok), t) := (PutPage(s, g, d, j), GetFree(s).1 - LOW);
      && ok && 0 <= t < PAGING_PAGES && s'.count == s.count[t := 1] && Pte(s', d, j) == Entry7(g)
  {
    hide TablesOk, EntriesOk, Exclusive, HeldOk, CountsOk, Repoint;
    TakesLast(s, b);
    GetFreeInv(s);
    var (s1, t) := GetFree(s);
    assert WordAt(s1, Table(d)) == WordAt(s, Table(d));
    AddTableInv(s1, d, t);
    var s2 := AddTable(s1, d, t);
    assert Pte(s2, d, j) == ZERO_WORD;
    RepointWords(s2, d, j, g, s2.ram[g]);
    RepointCounts(s2, d, j, g, s2.ram[g]);
  }

  lemma RepointCounts(s: Mm, d: nat, j: nat, f: nat, words: seq<Word>)
    requires Shape(s) && d < 1024 && j < ENTRIES && f < FRAMES && |words| == ENTRIES && !Pte(s, d, j).present
    ensures Repoint(s, d, j, f, words).count == s.count
  {
  }

  /** With two frames free, a first page can be loaded into a task that has no table. */
  lemma FirstLoad(s: Mm, d: nat, j: nat, words: seq<Word>, a: nat, b: nat) returns (f: nat, t: nat)
    requires Inv(s) && Legal(Entry(d, j)) && !Dir(s, d).present && |words| == ENTRIES
    requires a < b < PAGING_PAGES && s.count[a] == 0 && s.count[b] == 0
    ensures var (s', ok) := PageIn(s, d, j, words);
      && ok && Inv(s') && Pte(s', d, j) == Entry7(f + LOW) && View(s', d, j) == Page(words)
      && f < PAGING_PAGES && t < PAGING_PAGES && s'.count == s.count[f := 1][t := 1]
  {
    hide TablesOk, EntriesOk, Exclusive, HeldOk, CountsOk, PutPage, View;
    TakesLast(s, a);
    var (s1, g) := GetFree(s);
    f := g - LOW;
    var s2 := Mm(s1.count, s1.ram[g := words], s1.held, s1.lo, s1.hi);
    GetFreeInv(s);
    FillHeld(s1, g, words);
    assert WordAt(s2, Table(d)) == WordAt(s1, Table(d)) == Dir(s, d);
    PageInInv(s, d, j, words);
    PutIntoNewTable(s2, g, d, j, if f == a then b else a);
    t := GetFree(s2).1 - LOW;
  }

  lemma RunFirst(s: Mm, m: Spaces, e: Event, es: seq<Event>)
    requires Shape(s) && Allowed(s, e)
    ensures Run(s, m, [e] + es) == Run(Exec(s, e).0, Eager(m, e, Exec(s, e).1, s.ram), es)
  {
    assert ([e] + es)[1..] == es;
  }

  ghost function Leak(fd: nat, td: nat, j: nat, off: nat, w: Word): seq<Event> {
    [Verify(td, j)] + ([SharePage(fd, td, j)] + ([KernelStore(td, j, off, w)] + []))
  }

  /** Wherever a page can be shared into a task, a system call of that task can go wrong: the eager
      machine keeps the other task's page as it was, the kernel changes it. */
  lemma LeakingRun(s: Mm, fd: nat, td: nat, j: nat, off: nat, w: Word)
    requires Inv(s) && Allowed(s, SharePage(fd, td, j)) && off < ENTRIES && Exec(s, SharePage(fd, td, j)).1
    ensures var (s', m) := Run(s, Abs(s), Leak(fd, td, j, off, w));
      && View(s, fd, j).Page? && At(m, fd, j) == View(s, fd, j)
      && View(s', fd, j) == Page(View(s, fd, j).words[off := w])
  {
    hide TablesOk, EntriesOk, Exclusive, HeldOk, CountsOk, Share, Store, WriteVerify, View;
    var e2, e3, e4 := Verify(td, j), SharePage(fd, td, j), KernelStore(td, j, off, w);
    StoreAfterSharingIn(s, fd, td, j, off, w);
    var s1 := Exec(s, e3).0;
    AbsAt(s, fd, j);
    AbsAt(s, td, j);
    AbsentShows(s, td, j);
    RunFirst(s, Abs(s), e2, [e3] + ([e4] + []));
    RunFirst(s, Abs(s), e3, [e4] + []);
    RunFirst(s1, Eager(Abs(s), e3, true, s.ram), e4, []);
  }

  lemma AbsentShows(s: Mm, d: nat, j: nat)
    requires Shape(s) && d < 1024 && j < ENTRIES && !Pte(s, d, j).present
    ensures View(s, d, j) == Fault
  {
  }

  /** Such a run starts at boot: task 1 loads its first page, task 2 has it verified for a call while
      it is absent there, shares it in the fault, and the call's store lands in task 1 as well. */
  lemma KernelStoreLeaks(s: Mm, w: Word, a: nat, b: nat, c: nat)
    requires Booted(s) && s.lo - LOW <= a < b < c < s.hi - LOW
    ensures var (s', m) := Run(s, Abs(s), [LoadPage(16, 0, ZeroPage())] + Leak(16, 32, 0, 0, w));
      At(m, 16, 0) == Page(ZeroPage()) && View(s', 16, 0) == Page(ZeroPage()[0 := w])
  {
    hide TablesOk, EntriesOk, Exclusive, HeldOk, CountsOk, PageIn, View, Share, GetFree, WriteVerify, Store, Run;
    var e := LoadPage(16, 0, ZeroPage());
    BootedInv(s);
    assert !Dir(s, 16).present && !Dir(s, 32).present;
    var f, t := FirstLoad(s, 16, 0, ZeroPage(), a, b);
    var s1 := Exec(s, e).0;
    var z := if f != a && t != a then a else if f != b && t != b then b else c;
    assert s.count[z] == 0;
    FirstShares(s, s1, f, z);
    RunFirst(s, Abs(s), e, Leak(16, 32, 0, 0, w));
    StepRefines(s, e);
    LeakingRun(s1, 16, 32, 0, 0, w);
  }

  lemma FirstShares(s: Mm, s1: Mm, f: nat, z: nat)
    requires Inv(s) && !Dir(s, 32).present && Allowed(s, LoadPage(16, 0, ZeroPage()))
    requires s1 == Exec(s, LoadPage(16, 0, ZeroPage())).0 && Inv(s1) && f < PAGING_PAGES && Pte(s1, 16, 0) == Entry7(f + LOW)
    requires z < PAGING_PAGES && s1.count[z] == 0
    ensures Allowed(s1, SharePage(16, 32, 0)) && Exec(s1, SharePage(16, 32, 0)).1
  {
    hide TablesOk, EntriesOk, Exclusive, HeldOk, CountsOk, PageIn, View, GetFree;
    PageInInv(s, 16, 0, ZeroPage());
    AbsentShows(s, 32, 0);
    MappedFrame(s1, 16, 0);
    if Pte(s1, 32, 0).present { PresentShows(s1, 32, 0); }
    TakesLast(s1, z);
  }
}

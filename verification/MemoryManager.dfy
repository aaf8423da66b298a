/** mm/memory.c and copy_mem of kernel/fork.c as they run: the count bytes and physical
    memory are updated in place, and each routine is shown to compute its value-level
    counterpart without ever reaching a panic or wrapping a count byte. */
module MemoryManager {
  import opened PageTables
  import opened PageSteps
  import opened AddressSpaces

  type byte = x: nat | x < 256

  class Memory {
    const memMap: array<byte>
    const ram: array<seq<Word>>
    const lo: nat
    const hi: nat
    ghost var held: set<nat>

    ghost function Value(): Mm
      reads this, memMap, ram
    {
      Mm(memMap[..], ram[..], held, lo, hi)
    }

    ghost predicate Valid()
      reads this, memMap, ram
    {
      Inv(Value())
    }

    /** mem_init: every frame is marked used, then [start, end) is given to the pager. What memory holds
        by then is up to the boot code, which maps the kernel's own pages (boot/head.s, lines 225-239) and
        leaves the directory slots of tasks 1 to 63 empty. */
    constructor (start: nat, end: nat, pages: seq<seq<Word>>)
      requires LOW <= start <= end <= FRAMES
      requires |pages| == FRAMES && forall f | 0 <= f < FRAMES :: |pages[f]| == ENTRIES
      requires pages[0][0].present && pages[0][0].frame == 1
      requires forall j | 0 <= j < 0xA0 :: pages[1][j].present && pages[1][j].frame == j
      requires forall d | TASK_DIRS <= d < 1024 :: !pages[0][d].present
      ensures Valid() && Booted(Value()) && fresh(memMap) && fresh(ram)
      ensures Value().ram == pages && lo == start && hi == end
    {
      memMap := new byte[PAGING_PAGES];
      ram := new seq<Word>[FRAMES](f requires 0 <= f < FRAMES => pages[f]);
      lo, hi, held := start, end, {};
      new;
      var i := 0;
      while i < PAGING_PAGES
        modifies memMap
        invariant 0 <= i <= PAGING_PAGES
        invariant forall k | 0 <= k < i :: memMap[k] == USED
      {
        memMap[i] := USED;
        i := i + 1;
      }
      i := start - LOW;
      var left := end - start;
      while left > 0
        modifies memMap
        invariant 0 <= left && i + left == end - LOW
        invariant forall k | 0 <= k < PAGING_PAGES :: memMap[k] == if start - LOW <= k < i then 0 else USED
      {
        memMap[i] := 0;
        i, left := i + 1, left - 1;
      }
      assert ram[..] == pages;
      BootedInv(Value());
    }

    // ------------------------------------------------------------ words and counts

    method WriteEntry(d: nat, j: nat, w: Word)
      requires Shape(Value()) && d < 1024 && j < ENTRIES && HasTable(Value(), d)
      modifies ram
      ensures Value() == PokeEntry(old(Value()), d, j, w)
    {
      var t := ram[0][d].frame;
      ram[t] := ram[t][j := w];
    }

    method WriteDir(d: nat, w: Word)
      requires Shape(Value()) && d < 1024
      modifies ram
      ensures Value() == PokeDir(old(Value()), d, w)
    {
      ram[0] := ram[0][d := w];
    }

    /** The scan from the end of mem_map for a zero byte; the page found is cleared. */
    method GetFreePage() returns (f: nat)
      requires Shape(Value())
      modifies this`held, memMap, ram
      ensures Shape(Value()) && (Value(), f) == GetFree(old(Value()))
    {
      var i := PAGING_PAGES;
      while i > 0 && memMap[i - 1] != 0
        invariant 0 <= i <= PAGING_PAGES
        invariant forall k | i <= k < PAGING_PAGES :: memMap[k] != 0
      {
        i := i - 1;
      }
      if i == 0 { return 0; }
      assert LastZero(memMap[..]) == i - 1;
      memMap[i - 1] := 1;
      f := i - 1 + LOW;
      ram[f] := ZeroPage();
      held := held + {f};
    }

    /** free_page. The two panics are excluded by the precondition. */
    method FreePage(f: nat)
      requires Shape(Value()) && (f >= LOW ==> f < hi && memMap[f - LOW] > 0)
      modifies memMap
      ensures Value() == if f < LOW then old(Value()) else Drop(old(Value()), f)
    {
      if f < LOW { return; }
      memMap[f - LOW] := memMap[f - LOW] - 1;
    }

    lemma TableInRange(s: Mm, d: nat)
      requires Inv(s) && TASK_DIRS <= d < 1024 && Dir(s, d).present
      ensures HasTable(s, d) && s.lo <= Dir(s, d).frame < s.hi
    {
      assert Target(s, Table(d)) >= 0;
    }

    // ------------------------------------------------------------ exit

    method FreePageTables(from: nat, size: nat)
      requires Valid() && from % 0x400000 == 0
      requires TASK_DIRS <= from / 0x400000 && from / 0x400000 + (size + 0x3fffff) / 0x400000 <= 1024
      modifies memMap, ram
      ensures Valid() && Value() == FreeDirs(old(Value()), from / 0x400000, (size + 0x3fffff) / 0x400000)
    {
      var n := (size + 0x3fffff) / 0x400000;
      var d := from / 0x400000;
      ghost var s := Value();
      var i := 0;
      while i < n
        invariant 0 <= i <= n && held == old(held)
        invariant Valid() && Value() == FreeDirs(s, d, i)
      {
        FreeOneTable(d + i);
        i := i + 1;
      }
    }

    method FreeOneEntry(d: nat, j: nat)
      requires Valid() && Legal(Entry(d, j)) && HasTable(Value(), d)
      modifies memMap, ram
      ensures Valid() && Value() == FreeEntry(old(Value()), d, j)
    {
      FreeEntryInv(Value(), d, j);
      var e := ram[ram[0][d].frame][j];
      if e.present {
        MappedFrame(Value(), d, j);
        FreePage(e.frame);
      }
      WriteEntry(d, j, ZERO_WORD);
    }

    method FreeOneTable(d: nat)
      requires Valid() && TASK_DIRS <= d < 1024
      modifies memMap, ram
      ensures Valid() && Value() == FreeDir(old(Value()), d)
    {
      hide TablesOk, EntriesOk, Exclusive, HeldOk, CountsOk;
      ghost var s := Value();
      FreeDirInv(s, d);
      if !ram[0][d].present { return; }
      TableInRange(s, d);
      var nr := 0;
      while nr < ENTRIES
        invariant 0 <= nr <= ENTRIES
        invariant Valid() && Value() == FreeTable(s, d, nr) && HasTable(Value(), d)
      {
        FreeOneEntry(d, nr);
        nr := nr + 1;
        FreeTableInv(s, d, nr);
      }
      ClearedTable(s, Value(), d);
      TableInRange(Value(), d);
      DropTableInv(Value(), d);
      FreePage(ram[0][d].frame);
      WriteDir(d, ZERO_WORD);
    }

    lemma ClearedTable(s: Mm, s': Mm, d: nat)
      requires Inv(s) && TASK_DIRS <= d < 1024 && HasTable(s, d) && s' == FreeTable(s, d, ENTRIES)
      ensures HasTable(s', d) && forall j | 0 <= j < ENTRIES :: !Pte(s', d, j).present
    {
      FreeTableInv(s, d, ENTRIES);
      forall j | 0 <= j < ENTRIES ensures !Pte(s', d, j).present { assert Target(s', Entry(d, j)) < 0; }
    }

    // ------------------------------------------------------------ fork

    method CopyOneEntry(fd: nat, td: nat, j: nat)
      requires Valid() && fd < 1024 && Legal(Entry(td, j)) && HasTable(Value(), td) && HasTable(Value(), fd)
      requires fd != td && fd % 16 == td % 16 && Source(Value(), fd, j) && !Pte(Value(), td, j).present
      modifies memMap, ram
      ensures Valid() && Value() == CopyEntry(old(Value()), fd, td, j)
    {
      ghost var s := Value();
      CopyEntryInv(s, fd, td, j);
      var w := ram[ram[0][fd].frame][j];
      if !w.present { return; }
      CopyEntryWords(s, fd, td, j);
      WriteEntry(td, j, ReadOnly(w));
      if w.frame >= LOW {
        SharedFrame(s, fd, j);
        WriteEntry(fd, j, ReadOnly(w));
        memMap[w.frame - LOW] := memMap[w.frame - LOW] + 1;
      }
    }

    /** The frame about to gain a mapping has a count that can still grow. */
    lemma SharedFrame(s: Mm, fd: nat, j: nat)
      requires Inv(s) && fd < 1024 && j < ENTRIES && Source(s, fd, j) && Pte(s, fd, j).present && Pte(s, fd, j).frame >= LOW
      ensures Pte(s, fd, j).frame < FRAMES && s.count[Pte(s, fd, j).frame - LOW] < 255
    {
      assert Target(s, Entry(fd, j)) == Pte(s, fd, j).frame;
      CountAtMost63(s, Pte(s, fd, j).frame);
    }

    method CopyOneTable(fd: nat, td: nat, nr: nat) returns (ok: bool)
      requires Valid() && CanFork(Value(), fd, td, 1, nr) && Free(Value(), td, 1)
      modifies this`held, memMap, ram
      ensures Valid() && (Value(), ok) == CopyDir(old(Value()), fd, td, nr)
    {
      ghost var s := Value();
      CopyDirInv(s, fd, td, nr);
      if !ram[0][fd].present { return true; }
      FreshTable(s, fd, td, nr);
      var t := GetFreePage();
      if t == 0 { return false; }
      WriteDir(td, Entry7(t));
      held := held - {t};
      CopyEntries(fd, td, nr);
      return true;
    }

    method CopyEntries(fd: nat, td: nat, nr: nat)
      requires Valid() && CanCopy(Value(), fd, td, nr)
      requires HasTable(Value(), td) && HasTable(Value(), fd) && EmptySlot(Value(), td, 0)
      modifies memMap, ram
      ensures Valid() && Value() == CopyTable(old(Value()), fd, td, nr)
    {
      ghost var s := Value();
      var j := 0;
      while j < nr
        invariant 0 <= j <= nr
        invariant Valid() && Value() == CopyTable(s, fd, td, j)
      {
        CopyProgress(s, fd, td, j);
        CopyOneEntry(fd, td, j);
        j := j + 1;
      }
    }

    lemma CopyProgress(s: Mm, fd: nat, td: nat, j: nat)
      requires Inv(s) && j < ENTRIES && CanCopy(s, fd, td, j + 1) && EmptySlot(s, td, 0)
      requires HasTable(s, td) && HasTable(s, fd)
      ensures var s' := CopyTable(s, fd, td, j);
        HasTable(s', td) && HasTable(s', fd) && Source(s', fd, j) && !Pte(s', td, j).present
    {
      CopyTableInv(s, fd, td, j);
    }

    lemma FreshTable(s: Mm, fd: nat, td: nat, nr: nat)
      requires Inv(s) && CanFork(s, fd, td, 1, nr) && Free(s, td, 1) && Dir(s, fd).present
      ensures var (s1, t) := GetFree(s);
        t != 0 ==>
          var s2 := AddTable(s1, td, t);
          Inv(s2) && HasTable(s2, td) && HasTable(s2, fd) && EmptySlot(s2, td, 0) && CanCopy(s2, fd, td, nr)
    {
      var (s1, t) := GetFree(s);
      GetFreeInv(s);
      SamePlace(fd, td);
      if t != 0 {
        assert Target(s1, Table(td)) == Target(s, Table(td));
        AddTableInv(s1, td, t);
        var s2 := AddTable(s1, td, t);
        FreeShowsFault(s, td, 1);
        forall j | 0 <= j < ENTRIES ensures !Pte(s2, td, j).present {
          assert Target(s2, Entry(td, j)) == Target(s1, Entry(td, j)) == Target(s, Entry(td, j));
          assert View(s, td, j) == Fault;
        }
        if fd >= TASK_DIRS { assert Target(s2, Table(fd)) == Target(s1, Table(fd)) == Target(s, Table(fd)); }
        assert LowSource(s, fd);
      }
    }

    method CopyPageTables(from: nat, to: nat, size: nat) returns (r: int)
      requires Valid() && from % 0x400000 == 0 && to % 0x400000 == 0
      requires var n := (size + 0x3fffff) / 0x400000;
        && Free(Value(), to / 0x400000, n)
        && CanFork(Value(), from / 0x400000, to / 0x400000, n, if from / 0x400000 < TASK_DIRS then 0xA0 else ENTRIES)
        && (from / 0x400000 < TASK_DIRS ==> from == 0)
      modifies this`held, memMap, ram
      ensures Valid() && (r == 0 || r == -1) && held == old(held)
      ensures (Value(), r == 0) ==
        CopyDirs(old(Value()), from / 0x400000, to / 0x400000, (size + 0x3fffff) / 0x400000,
                 if from == 0 then 0xA0 else ENTRIES)
    {
      var n := (size + 0x3fffff) / 0x400000;
      CopyDirsInv(Value(), from / 0x400000, to / 0x400000, n, if from == 0 then 0xA0 else ENTRIES);
      var ok := CopyRange(from / 0x400000, to / 0x400000, n, if from == 0 then 0xA0 else ENTRIES);
      return if ok then 0 else -1;
    }

    method CopyRange(fd: nat, td: nat, n: nat, nr: nat) returns (ok: bool)
      requires Valid() && CanFork(Value(), fd, td, n, nr) && Free(Value(), td, n)
      modifies this`held, memMap, ram
      ensures Valid() && (Value(), ok) == CopyDirs(old(Value()), fd, td, n, nr)
    {
      hide TablesOk, EntriesOk, Exclusive, HeldOk, CountsOk;
      ghost var s := Value();
      var i := 0;
      while i < n
        invariant 0 <= i <= n
        invariant Valid() && (Value(), true) == CopyDirs(s, fd, td, i, nr)
      {
        RangeProgress(s, fd, td, i, n, nr);
        ok := CopyOneTable(fd + i, td + i, nr);
        i := i + 1;
        if !ok {
          FailedRange(s, fd, td, i, n, nr);
          return;
        }
      }
      return true;
    }

    lemma RangeProgress(s: Mm, fd: nat, td: nat, i: nat, n: nat, nr: nat)
      requires Inv(s) && i < n && CanFork(s, fd, td, n, nr) && Free(s, td, n) && CopyDirs(s, fd, td, i, nr).1
      ensures var s' := CopyDirs(s, fd, td, i, nr).0;
        CanFork(s', fd + i, td + i, 1, nr) && Free(s', td + i, 1)
    {
      CopyDirsInv(s, fd, td, i, nr);
      NextSlotReady(s, CopyDirs(s, fd, td, i, nr).0, fd, td, i + 1, nr);
    }

    /** Once the copy has failed the remaining slots are not looked at. */
    lemma {:induction false} FailedRange(s: Mm, fd: nat, td: nat, i: nat, n: nat, nr: nat)
      requires Shape(s) && fd + n <= 1024 && td + n <= 1024 && nr <= ENTRIES && i <= n
      requires !CopyDirs(s, fd, td, i, nr).1
      ensures CopyDirs(s, fd, td, n, nr) == CopyDirs(s, fd, td, i, nr)
    {
      if i < n { FailedRange(s, fd, td, i, n - 1, nr); }
    }

    /** copy_mem for child number nr of a task at linear base `base` with data limit `limit`. */
    method CopyMemory(base: nat, nr: nat, limit: nat) returns (r: int)
      requires Valid() && base % (0x4000000) == 0 && 1 <= nr < NR_TASKS
      requires base / 0x400000 + TASK_DIRS <= 1024 && base != nr * 0x4000000
      requires limit <= if base == 0 then 0xA0000 else 0x4000000
      requires Free(Value(), nr * 16, TASK_DIRS)
      requires base == 0 ==> LowSource(Value(), 0)
      modifies this`held, memMap, ram
      ensures Valid() && held == old(held)
      ensures (Value(), r == 0) ==
        CopyMem(old(Value()), base / 0x400000, nr * 16, (limit + 0x3fffff) / 0x400000,
                if base == 0 then 0xA0 else ENTRIES)
      ensures r != 0 ==> SameView(old(Value()), Value()) && memMap[..] == old(memMap[..])
      ensures r == 0 || r == -12
    {
      ghost var s := Value();
      var to := nr * 0x4000000;
      ghost var n := (limit + 0x3fffff) / 0x400000;
      ForkPossible(s, base, nr, limit);
      r := CopyPageTables(base, to, limit);
      if r != 0 {
        FreePageTables(to, limit);
        ForkRollback(s, base / 0x400000, to / 0x400000, n, if base == 0 then 0xA0 else ENTRIES);
        r := -12;
      }
    }

    lemma ForkPossible(s: Mm, base: nat, nr: nat, limit: nat)
      requires Inv(s) && base % (0x4000000) == 0 && 1 <= nr < NR_TASKS
      requires base / 0x400000 + TASK_DIRS <= 1024 && base != nr * 0x4000000
      requires limit <= if base == 0 then 0xA0000 else 0x4000000
      requires Free(s, nr * 16, TASK_DIRS)
      requires base == 0 ==> LowSource(s, 0)
      ensures var n := (limit + 0x3fffff) / 0x400000;
        && base % 0x400000 == 0 && (nr * 0x4000000) / 0x400000 == nr * 16
        && CanFork(s, base / 0x400000, nr * 16, n, if base / 0x400000 < TASK_DIRS then 0xA0 else ENTRIES)
        && Free(s, nr * 16, n) && (base / 0x400000 < TASK_DIRS ==> base == 0)
    {
      var t := base / (0x4000000);
      assert base == t * (0x4000000) && base / 0x400000 == t * 16;
      assert t != nr;
    }

    // ------------------------------------------------------------ faults

    lemma HeldInRange(s: Mm, f: nat)
      requires Inv(s) && f in s.held
      ensures s.lo <= f < s.hi
    {
    }

    method Repointed(d: nat, j: nat, f: nat, words: seq<Word>)
      requires Valid() && Legal(Entry(d, j)) && HasTable(Value(), d) && f in held && |words| == ENTRIES
      modifies this`held, memMap, ram
      ensures Valid() && Value() == Repoint(old(Value()), d, j, f, words)
    {
      hide TablesOk, EntriesOk, Exclusive, HeldOk, CountsOk;
      RepointInv(Value(), d, j, f, words);
      HeldInRange(Value(), f);
      var old_page := ram[ram[0][d].frame][j];
      if old_page.present && old_page.frame >= LOW {
        MappedFrame(Value(), d, j);
        memMap[old_page.frame - LOW] := memMap[old_page.frame - LOW] - 1;
      }
      WriteEntry(d, j, Entry7(f));
      ram[f] := words;
      held := held - {f};
    }

    /** un_wp_page; false where it calls oom. */
    method UnWpPage(d: nat, j: nat) returns (ok: bool)
      requires Valid() && Legal(Entry(d, j)) && Pte(Value(), d, j).present
      modifies this`held, memMap, ram
      ensures Valid() && (Value(), ok) == UnWp(old(Value()), d, j)
      ensures ok ==> Pte(Value(), d, j).present && Pte(Value(), d, j).rw
    {
      ghost var s := Value();
      UnWpInv(s, d, j);
      MappedFrame(s, d, j);
      var e := ram[ram[0][d].frame][j];
      if e.frame >= LOW && memMap[e.frame - LOW] == 1 {
        WriteEntry(d, j, Writable(e));
        return true;
      }
      var f := GetFreePage();
      if f == 0 { return false; }
      GetFreeInv(s);
      assert WordAt(Value(), Table(d)) == WordAt(s, Table(d));
      Repointed(d, j, f, ram[e.frame]);
      return true;
    }

    method WriteVerifyPage(d: nat, j: nat) returns (ok: bool)
      requires Valid() && Legal(Entry(d, j))
      modifies this`held, memMap, ram
      ensures Valid() && (Value(), ok) == WriteVerify(old(Value()), d, j)
      ensures ok && Pte(Value(), d, j).present ==> Pte(Value(), d, j).rw
    {
      if !ram[0][d].present { return true; }
      assert Target(Value(), Table(d)) >= 0;
      var e := ram[ram[0][d].frame][j];
      if e.present && !e.rw {
        ok := UnWpPage(d, j);
      } else {
        ok := true;
      }
    }

    /** put_page; 0 where there is no page for a new table. */
    method PutPageAt(f: nat, d: nat, j: nat) returns (r: nat)
      requires Valid() && f in held && Legal(Entry(d, j)) && !Pte(Value(), d, j).present
      modifies this`held, memMap, ram
      ensures Valid() && (Value(), r != 0) == PutPage(old(Value()), f, d, j) && (r == 0 || r == f)
    {
      ghost var s := Value();
      assert s.lo <= f;
      if !ram[0][d].present {
        var t := GetFreePage();
        if t == 0 { return 0; }
        GetFreeInv(s);
        assert Target(Value(), Table(d)) == Target(s, Table(d)) < 0;
        AddTableInv(Value(), d, t);
        WriteDir(d, Entry7(t));
        held := held - {t};
      } else {
        assert Target(s, Table(d)) >= 0;
      }
      Repointed(d, j, f, ram[f]);
      return f;
    }

    /** get_empty_page, or the load of a file page when `words` says what was read. */
    method LoadPageAt(d: nat, j: nat, words: seq<Word>) returns (ok: bool)
      requires Valid() && Legal(Entry(d, j)) && !Pte(Value(), d, j).present && |words| == ENTRIES
      modifies this`held, memMap, ram
      ensures Valid() && (Value(), ok) == PageIn(old(Value()), d, j, words)
    {
      ghost var s := Value();
      PageInInv(s, d, j, words);
      var f := GetFreePage();
      if f == 0 { return false; }
      GetFreeInv(s);
      FillHeld(Value(), f, words);
      assert WordAt(Value(), Entry(d, j)) == WordAt(s, Entry(d, j));
      ram[f] := words;
      assert WordAt(Value(), Entry(d, j)) == WordAt(s, Entry(d, j));
      var r := PutPageAt(f, d, j);
      if r == 0 {
        FreeHeldInv(Value(), f);
        FreePage(f);
        held := held - {f};
        return false;
      }
      return true;
    }

    /** try_to_share between the tasks whose address falls in directory slots fd and td. */
    method TryToShare(fd: nat, td: nat, j: nat) returns (r: nat)
      requires Valid() && Legal(Entry(fd, j)) && Legal(Entry(td, j))
      requires fd != td && fd % 16 == td % 16 && !Pte(Value(), td, j).present
      modifies this`held, memMap, ram
      ensures Valid() && (Value(), r) == Share(old(Value()), fd, td, j)
    {
      hide TablesOk, EntriesOk, Exclusive, HeldOk, CountsOk;
      ghost var s := Value();
      ShareInv(s, fd, td, j);
      if !ram[0][fd].present { return 0; }
      TableInRange(s, fd);
      var e := ram[ram[0][fd].frame][j];
      if !e.present || e.dirty || e.frame >= hi || e.frame < LOW { return 0; }
      if !ram[0][td].present {
        var t := GetFreePage();
        if t == 0 { return 2; }
        GetFreeInv(s);
        ghost var s1 := Value();
        assert Target(s1, Table(td)) == Target(s, Table(td)) < 0;
        AddTableInv(s1, td, t);
        WriteDir(td, Entry7(t));
        held := held - {t};
        assert Target(Value(), Entry(td, j)) == Target(s1, Entry(td, j)) == Target(s, Entry(td, j));
        assert Target(Value(), Table(fd)) == Target(s1, Table(fd)) == Target(s, Table(fd));
      } else {
        TableInRange(s, td);
      }
      CopyOneEntry(fd, td, j);
      return 1;
    }
  }
}

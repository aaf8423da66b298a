/** The atomic steps of mm/memory.c on the value model, and what each does to the
    invariant and to the pages a task sees. */
module PageSteps {
  import opened PageTables

  // ---------------------------------------------------------------- primitives

  function PokeEntry(s: Mm, d: nat, j: nat, w: Word): (s': Mm)
    requires Shape(s) && d < 1024 && j < ENTRIES
    ensures Shape(s')
  {
    var tf := Dir(s, d).frame;
    if !HasTable(s, d) then s else Mm(s.count, s.ram[tf := s.ram[tf][j := w]], s.held, s.lo, s.hi)
  }

  function PokeDir(s: Mm, d: nat, w: Word): (s': Mm)
    requires Shape(s) && d < 1024
    ensures Shape(s')
  {
    Mm(s.count, s.ram[0 := s.ram[0][d := w]], s.held, s.lo, s.hi)
  }

  /** mem_map[f]++ */
  function Bump(s: Mm, f: nat): (s': Mm)
    requires Shape(s) && LOW <= f < FRAMES
    ensures Shape(s')
  {
    Mm(s.count[f - LOW := s.count[f - LOW] + 1], s.ram, s.held, s.lo, s.hi)
  }

  /** mem_map[f]--, left at zero where free_page would panic ("trying to free free page"). */
  function Drop(s: Mm, f: nat): (s': Mm)
    requires Shape(s) && LOW <= f < FRAMES
    ensures Shape(s')
  {
    var c := s.count[f - LOW];
    Mm(s.count[f - LOW := if c > 0 then c - 1 else 0], s.ram, s.held, s.lo, s.hi)
  }

  function ReadOnly(w: Word): Word { Word(w.frame, w.dirty, false, w.present, w.rest) }

  function Writable(w: Word): Word { Word(w.frame, w.dirty, true, w.present, w.rest) }

  function Dirtied(w: Word): Word { Word(w.frame, true, w.rw, w.present, w.rest) }

  ghost predicate Same(s: Mm, s': Mm)
    requires Shape(s) && Shape(s')
  {
    forall q {:trigger WordAt(s', q)} {:trigger Target(s', q)} | Legal(q) ::
      WordAt(s', q) == WordAt(s, q) && Target(s', q) == Target(s, q)
  }

  ghost predicate SameBut(s: Mm, s': Mm, r: Ref)
    requires Shape(s) && Shape(s')
  {
    forall q {:trigger WordAt(s', q)} {:trigger Target(s', q)} | Legal(q) && q != r ::
      WordAt(s', q) == WordAt(s, q) && Target(s', q) == Target(s, q)
  }

  ghost predicate SameTargetsBut(s: Mm, s': Mm, r: Ref)
    requires Shape(s) && Shape(s')
  {
    forall q {:trigger WordAt(s', q)} {:trigger Target(s', q)} | Legal(q) && q != r ::
      Target(s', q) == Target(s, q) && (WordAt(s', q).rw ==> WordAt(s, q).rw)
  }

  ghost predicate Tables(s: Mm) {
    && Shape(s) && TablesOk(s)
    && forall r, q {:trigger Target(s, r), Target(s, q)} | Legal(r) && Legal(q) && r != q && r.Table? && q.Table? ::
         Target(s, r) == Target(s, q) ==> Target(s, r) < 0
  }

  lemma InvTables(s: Mm)
    requires Inv(s)
    ensures Tables(s)
  {
    forall r, q | Legal(r) && Legal(q) && r != q && r.Table? && q.Table? && Target(s, r) == Target(s, q)
      ensures Target(s, r) < 0
    {
      assert !(Target(s, r) == Target(s, q) >= LOW);
    }
  }

  lemma PokeEntryEffect(s: Mm, d: nat, j: nat, w: Word)
    requires Tables(s) && Legal(Entry(d, j)) && HasTable(s, d)
    ensures var s' := PokeEntry(s, d, j, w);
      && Tables(s')
      && SameBut(s, s', Entry(d, j)) && Pte(s', d, j) == w
      && (forall f | 0 <= f < FRAMES && f != Dir(s, d).frame :: s'.ram[f] == s.ram[f])
  {
    var s' := PokeEntry(s, d, j, w);
    assert Target(s, Table(d)) >= 0;
    forall r | Legal(r) && r != Entry(d, j) ensures WordAt(s', r) == WordAt(s, r) && Target(s', r) == Target(s, r) {
      if r.Entry? && r.d != d && Dir(s, r.d).present {
        assert Target(s, Table(r.d)) >= 0;
        assert Target(s, Table(r.d)) != Target(s, Table(d));
      }
    }
  }

  // ---------------------------------------------------------------- what a task sees

  /** What a task finds at a page: a fault, one of the kernel's own low pages (below
      LOW_MEM, never counted and never copied by fork), or a page of its own with these words. */
  datatype Sight = Fault | Kernel(frame: nat) | Page(words: seq<Word>)

  function View(s: Mm, d: nat, j: nat): Sight
    requires Shape(s) && d < 1024 && j < ENTRIES
  {
    var e := Pte(s, d, j);
    if !e.present || e.frame >= FRAMES then Fault
    else if e.frame < LOW then Kernel(e.frame)
    else Page(s.ram[e.frame])
  }

  ghost predicate SameViewExcept(s: Mm, s': Mm, d: nat, j: nat)
    requires Shape(s) && Shape(s')
  {
    forall e, k | TASK_DIRS <= e < 1024 && 0 <= k < ENTRIES && (e, k) != (d, j) :: View(s', e, k) == View(s, e, k)
  }

  ghost predicate SameView(s: Mm, s': Mm)
    requires Shape(s) && Shape(s')
  {
    forall e, k | TASK_DIRS <= e < 1024 && 0 <= k < ENTRIES :: View(s', e, k) == View(s, e, k)
  }

  /** A mapped frame is never a page table, the page directory or a kernel page. */
  lemma MappedFrame(s: Mm, d: nat, j: nat)
    requires Inv(s) && Legal(Entry(d, j)) && Pte(s, d, j).present
    ensures Pte(s, d, j).frame < s.hi
    ensures Pte(s, d, j).frame !in s.held
    ensures forall e | TASK_DIRS <= e < 1024 && HasTable(s, e) :: Dir(s, e).frame != Pte(s, d, j).frame
    ensures Pte(s, d, j).frame >= LOW ==> s.count[Pte(s, d, j).frame - LOW] > 0
  {
    var r := Entry(d, j);
    assert Target(s, r) >= 0;
    forall e | TASK_DIRS <= e < 1024 && HasTable(s, e) ensures Dir(s, e).frame != Pte(s, d, j).frame {
      assert Target(s, Table(e)) >= 0;
      assert Table(e) != r;
    }
    if Target(s, r) >= LOW { assert r in Refs(s, Target(s, r)); }
  }

  // ---------------------------------------------------------------- get_free_page

  /** Index of the last zero byte, -1 for none. */
  function LastZero(c: seq<nat>): (i: int)
    ensures -1 <= i < |c|
    ensures i >= 0 ==> c[i] == 0
    ensures forall k | i < k < |c| :: c[k] != 0
  {
    if |c| == 0 then -1
    else if c[|c| - 1] == 0 then |c| - 1
    else LastZero(c[..|c| - 1])
  }

  function GetFree(s: Mm): (r: (Mm, nat))
    requires Shape(s)
    ensures Shape(r.0)
  {
    var i := LastZero(s.count);
    if i < 0 then (s, 0)
    else (Mm(s.count[i := 1], s.ram[i + LOW := ZeroPage()], s.held + {i + LOW}, s.lo, s.hi), i + LOW)
  }

  lemma GetFreeUnused(s: Mm, f: nat)
    requires Inv(s) && LOW <= f < FRAMES && s.count[f - LOW] == 0
    ensures s.lo <= f < s.hi && f !in s.held && Refs(s, f) == {}
    ensures forall r {:trigger Target(s, r)} | Legal(r) :: Target(s, r) != f
  {
    assert Refs(s, f) == {};
    forall r | Legal(r) ensures Target(s, r) != f { assert r !in Refs(s, f); }
  }

  /** A frame that nothing refers to goes to the kernel: nobody's references change. */
  lemma TakeUnused(s: Mm, f: nat)
    requires Inv(s) && LOW <= f < FRAMES && s.count[f - LOW] == 0
    ensures var s' := Mm(s.count[f - LOW := 1], s.ram[f := ZeroPage()], s.held + {f}, s.lo, s.hi);
      Shape(s') && Same(s, s') && Inv(s')
  {
    var s' := Mm(s.count[f - LOW := 1], s.ram[f := ZeroPage()], s.held + {f}, s.lo, s.hi);
    GetFreeUnused(s, f);
    forall r | Legal(r) ensures WordAt(s', r) == WordAt(s, r) && Target(s', r) == Target(s, r) {
      assert Target(s, Table(r.d)) != f;
      if Dir(s, r.d).present { assert Target(s, Table(r.d)) >= 0; }
    }
    RefsSame(s, s');
  }

  lemma GetFreeInv(s: Mm)
    requires Inv(s)
    ensures var (s', f) := GetFree(s);
      && Inv(s') && SameView(s, s')
      && Same(s, s')
      && (f == 0 ==> s' == s && forall k | 0 <= k < PAGING_PAGES :: s.count[k] > 0)
      && (f != 0 ==> s.lo <= f < s.hi && f !in s.held && s'.held == s.held + {f} && s'.ram[f] == ZeroPage()
                     && forall r {:trigger Target(s, r)} | Legal(r) :: Target(s, r) != f)
      && (forall g | 0 <= g < FRAMES && g != f :: s'.ram[g] == s.ram[g])
  {
    hide TablesOk, EntriesOk, Exclusive, HeldOk, CountsOk;
    var (s', f) := GetFree(s);
    if f != 0 {
      GetFreeUnused(s, f);
      TakeUnused(s, f);
      SameWordsSameView(s, s', f);
    }
  }

  /** Refilling a frame nobody maps changes no one's view. */
  lemma SameWordsSameView(s: Mm, s': Mm, f: nat)
    requires Shape(s) && Shape(s') && Same(s, s') && f >= LOW
    requires forall r {:trigger Target(s, r)} | Legal(r) && r.Entry? :: Target(s, r) != f
    requires forall g | 0 <= g < FRAMES && g != f :: s'.ram[g] == s.ram[g]
    ensures SameView(s, s')
  {
    forall e, k | TASK_DIRS <= e < 1024 && 0 <= k < ENTRIES ensures View(s', e, k) == View(s, e, k) {
      assert WordAt(s', Entry(e, k)) == WordAt(s, Entry(e, k)) && Target(s, Entry(e, k)) != f;
    }
  }

  // ---------------------------------------------------------------- free_page, kernel side

  /** The kernel gives back a page it holds. */
  function FreeHeld(s: Mm, f: nat): Mm
    requires Shape(s) && LOW <= f < FRAMES
  {
    Mm(Drop(s, f).count, s.ram, s.held - {f}, s.lo, s.hi)
  }

  lemma FreeHeldInv(s: Mm, f: nat)
    requires Inv(s) && f in s.held
    ensures s.count[f - LOW] == 1
    ensures Inv(FreeHeld(s, f)) && SameView(s, FreeHeld(s, f))
    ensures Same(s, FreeHeld(s, f))
  {
    forall r | Legal(r) ensures r !in Refs(s, f) { assert Target(s, r) !in s.held; }
    assert Refs(s, f) == {};
    var s' := FreeHeld(s, f);
    assert Same(s, s');
    RefsSame(s, s');
  }

  // ---------------------------------------------------------------- page tables come and go

  function One(b: bool): nat { if b then 1 else 0 }

  /** `*dir = table | 7` for a fresh, empty table. */
  function AddTable(s: Mm, d: nat, f: nat): Mm
    requires Shape(s) && d < 1024
  {
    Mm(s.count, PokeDir(s, d, Entry7(f)).ram, s.held - {f}, s.lo, s.hi)
  }

  lemma SameTargetsSameView(s: Mm, s': Mm, d: nat)
    requires Shape(s) && Shape(s') && SameTargetsBut(s, s', Table(d))
    requires forall g | 0 < g < FRAMES :: s'.ram[g] == s.ram[g]
    ensures SameView(s, s')
  {
    forall e, k | TASK_DIRS <= e < 1024 && 0 <= k < ENTRIES ensures View(s', e, k) == View(s, e, k) {
      assert Target(s', Entry(e, k)) == Target(s, Entry(e, k));
    }
  }

  lemma AddTableInv(s: Mm, d: nat, f: nat)
    requires Inv(s) && TASK_DIRS <= d < 1024 && f in s.held && s.ram[f] == ZeroPage() && !Dir(s, d).present
    ensures var s' := AddTable(s, d, f);
      && Inv(s') && SameView(s, s') && HasTable(s', d)
      && SameTargetsBut(s, s', Table(d)) && s'.held == s.held - {f}
      && (forall g | 0 < g < FRAMES :: s'.ram[g] == s.ram[g])
  {
    var s' := AddTable(s, d, f);
    AddTableTargets(s, d, f);
    SameTargetsSameView(s, s', d);
    forall g: nat ensures |Refs(s', g)| == |Refs(s, g)| + if g == f then 1 else 0 {
      RefsChange(s, s', Table(d), g);
    }
    AddTableExclusive(s, d, f);
  }

  lemma AddTableTargets(s: Mm, d: nat, f: nat)
    requires Inv(s) && TASK_DIRS <= d < 1024 && f in s.held && s.ram[f] == ZeroPage() && !Dir(s, d).present
    ensures var s' := AddTable(s, d, f);
      SameTargetsBut(s, s', Table(d)) && Target(s', Table(d)) == f && Target(s, Table(d)) == -1
  {
    var s' := AddTable(s, d, f);
    forall r | Legal(r) && r != Table(d)
      ensures Target(s', r) == Target(s, r) && (WordAt(s', r).rw ==> WordAt(s, r).rw)
    {
      if r.Entry? && r.d != d && HasTable(s, r.d) { assert Target(s, Table(r.d)) >= 0; }
    }
  }

  lemma AddTableExclusive(s: Mm, d: nat, f: nat)
    requires Inv(s) && TASK_DIRS <= d < 1024 && f in s.held && s.ram[f] == ZeroPage() && !Dir(s, d).present
    ensures Exclusive(AddTable(s, d, f)) && HeldOk(AddTable(s, d, f))
  {
    var s' := AddTable(s, d, f);
    AddTableTargets(s, d, f);
    forall r | Legal(r) ensures Target(s', r) !in s'.held {
      if r != Table(d) { assert Target(s', r) == Target(s, r); }
    }
    forall r, q | Legal(r) && Legal(q) && r != q && Target(s', r) == Target(s', q) >= LOW
      ensures r.Entry? && q.Entry? && r.d % 16 == q.d % 16 && r.j == q.j
              && !WordAt(s', r).rw && !WordAt(s', q).rw
    {
      assert Target(s, r) == Target(s, q);
    }
  }

  /** `free_page(table); *dir = 0` once every entry of the table is zero. */
  function DropTable(s: Mm, d: nat): Mm
    requires Shape(s) && d < 1024
  {
    var tf := Dir(s, d).frame;
    var s1 := if LOW <= tf < FRAMES then Drop(s, tf) else s;
    PokeDir(s1, d, ZERO_WORD)
  }

  lemma DropTableTargets(s: Mm, d: nat)
    requires Inv(s) && TASK_DIRS <= d < 1024
    requires forall j | 0 <= j < ENTRIES :: !Pte(s, d, j).present
    ensures SameTargetsBut(s, DropTable(s, d), Table(d)) && !Dir(DropTable(s, d), d).present
  {
    var s' := DropTable(s, d);
    forall r | Legal(r) && r != Table(d)
      ensures Target(s', r) == Target(s, r) && (WordAt(s', r).rw ==> WordAt(s, r).rw)
    {
      if r.Entry? && r.d == d {
        assert !Pte(s, d, r.j).present;
      } else if r.Entry? {
        assert Dir(s', r.d) == Dir(s, r.d);
        if HasTable(s, r.d) { assert Target(s, Table(r.d)) >= LOW; }
      }
    }
  }

  lemma DropTableInv(s: Mm, d: nat)
    requires Inv(s) && TASK_DIRS <= d < 1024 && HasTable(s, d)
    requires forall j | 0 <= j < ENTRIES :: !Pte(s, d, j).present
    ensures LOW <= Dir(s, d).frame < s.hi && s.count[Dir(s, d).frame - LOW] > 0
    ensures var s' := DropTable(s, d);
      && Inv(s') && SameView(s, s') && !Dir(s', d).present && s'.held == s.held
      && SameTargetsBut(s, s', Table(d))
  {
    var s' := DropTable(s, d);
    var r := Table(d);
    assert s.lo <= Target(s, r) < s.hi && r in Refs(s, Target(s, r));
    DropTableTargets(s, d);
    forall f | LOW <= f < FRAMES
      ensures s'.count[f - LOW] == |Refs(s', f)| + One(f in s'.held) + (if s'.lo <= f < s'.hi then 0 else USED)
    {
      RefsChange(s, s', r, f);
    }
    assert SameView(s, s') by { DropTableViews(s, d); }
  }

  lemma DropTableViews(s: Mm, d: nat)
    requires Inv(s) && TASK_DIRS <= d < 1024
    requires forall j | 0 <= j < ENTRIES :: !Pte(s, d, j).present
    ensures SameView(s, DropTable(s, d))
  {
    var s' := DropTable(s, d);
    DropTableTargets(s, d);
    forall e, k | TASK_DIRS <= e < 1024 && 0 <= k < ENTRIES ensures View(s', e, k) == View(s, e, k) {
      assert Target(s', Entry(e, k)) == Target(s, Entry(e, k));
    }
  }

  // ---------------------------------------------------------------- one page-table entry

  lemma CountsStep(s: Mm, s': Mm, r: Ref)
    requires Shape(s) && CountsOk(s) && Shape(s') && s'.lo == s.lo && s'.hi == s.hi && Legal(r)
    requires SameTargetsBut(s, s', r)
    requires forall f | LOW <= f < FRAMES ::
      s'.count[f - LOW] + One(Target(s, r) == f) + One(f in s.held)
      == s.count[f - LOW] + One(Target(s', r) == f) + One(f in s'.held)
    ensures CountsOk(s')
  {
    hide Target, Refs;
    forall f | LOW <= f < FRAMES
      ensures s'.count[f - LOW] == |Refs(s', f)| + One(f in s'.held) + (if s'.lo <= f < s'.hi then 0 else USED)
    {
      RefsChange(s, s', r, f);
    }
  }

  /** A change of one entry keeps the invariant when its own count changes with it and its
      new frame is either nobody's or shared read-only at the same page of other tasks. */
  lemma EntryStep(s: Mm, s': Mm, r: Ref)
    requires Inv(s) && Shape(s') && s'.lo == s.lo && s'.hi == s.hi && Legal(r) && r.Entry?
    requires SameTargetsBut(s, s', r)
    requires Target(s', r) < 0 || (Target(s', r) < LOW && !WordAt(s', r).rw) || s.lo <= Target(s', r) < s.hi
    requires forall q {:trigger Target(s', q)} | Legal(q) && q != r && Target(s', q) == Target(s', r) >= LOW ::
      q.Entry? && q.d % 16 == r.d % 16 && q.j == r.j && !WordAt(s', q).rw && !WordAt(s', r).rw
    requires HeldOk(s')
    requires forall f | LOW <= f < FRAMES ::
      s'.count[f - LOW] + One(Target(s, r) == f) + One(f in s.held)
      == s.count[f - LOW] + One(Target(s', r) == f) + One(f in s'.held)
    ensures Inv(s')
  {
    hide CountsOk;
    CountsStep(s, s', r);
  }

  /** One round of the inner loop of free_page_tables. */
  function FreeEntry(s: Mm, d: nat, j: nat): (s': Mm)
    requires Shape(s) && d < 1024 && j < ENTRIES
    ensures Shape(s')
  {
    var e := Pte(s, d, j);
    PokeEntry(if e.present && LOW <= e.frame < FRAMES then Drop(s, e.frame) else s, d, j, ZERO_WORD)
  }

  lemma FreeEntryInv(s: Mm, d: nat, j: nat)
    requires Inv(s) && Legal(Entry(d, j)) && HasTable(s, d)
    ensures var s' := FreeEntry(s, d, j);
      && Inv(s') && SameViewExcept(s, s', d, j) && s'.held == s.held
      && SameBut(s, s', Entry(d, j)) && Pte(s', d, j) == ZERO_WORD && SameLow(s, s')
  {
    var s' := FreeEntry(s, d, j);
    FreeEntryWords(s, d, j);
    if Pte(s, d, j).present { MappedFrame(s, d, j); assert Target(s, Entry(d, j)) == Pte(s, d, j).frame; }
    EntryStep(s, s', Entry(d, j));
    ViewsKept(s, s', Entry(d, j), Dir(s, d).frame);
  }

  lemma FreeEntryWords(s: Mm, d: nat, j: nat)
    requires Inv(s) && Legal(Entry(d, j)) && HasTable(s, d)
    ensures var s' := FreeEntry(s, d, j);
      && SameBut(s, s', Entry(d, j)) && Pte(s', d, j) == ZERO_WORD && SameLow(s, s')
      && (forall f | 0 <= f < FRAMES && f != Dir(s, d).frame :: s'.ram[f] == s.ram[f])
  {
    InvTables(s);
    var s1 := if Pte(s, d, j).present && LOW <= Pte(s, d, j).frame < FRAMES then Drop(s, Pte(s, d, j).frame) else s;
    assert Same(s, s1);
    PokeEntryEffect(s1, d, j, ZERO_WORD);
    assert Target(s, Table(d)) >= LOW;
  }

  /** Writing page table `tf` leaves alone every page seen through unchanged entries. */
  lemma ViewsKept(s: Mm, s': Mm, r: Ref, tf: nat)
    requires Inv(s) && Shape(s') && Legal(r) && r.Entry?
    requires SameTargetsBut(s, s', r)
    requires exists d :: TASK_DIRS <= d < 1024 && HasTable(s, d) && Dir(s, d).frame == tf
    requires forall f | LOW <= f < FRAMES && f != tf :: s'.ram[f] == s.ram[f]
    ensures SameViewExcept(s, s', r.d, r.j)
  {
    forall e, k | TASK_DIRS <= e < 1024 && 0 <= k < ENTRIES && (e, k) != (r.d, r.j)
      ensures View(s', e, k) == View(s, e, k)
    {
      assert Target(s', Entry(e, k)) == Target(s, Entry(e, k));
      if Pte(s, e, k).present { MappedFrame(s, e, k); }
    }
  }

  /** One round of the inner loop of copy_page_tables: the child's entry, and for a frame
      at or above LOW_MEM the parent's too, become read-only copies and the count goes up. */
  function CopyEntry(s: Mm, fd: nat, td: nat, j: nat): (s': Mm)
    requires Shape(s) && fd < 1024 && td < 1024 && j < ENTRIES
    ensures Shape(s')
  {
    var w := Pte(s, fd, j);
    if !w.present then s
    else
      var s1 := PokeEntry(s, td, j, ReadOnly(w));
      if LOW <= w.frame < FRAMES then Bump(PokeEntry(s1, fd, j, ReadOnly(w)), w.frame) else s1
  }

  /** Kernel memory: the page directory, task 0's tables and everything else below LOW_MEM. */
  ghost predicate SameLow(s: Mm, s': Mm)
    requires Shape(s) && Shape(s')
  {
    forall f | 0 <= f < LOW :: s'.ram[f] == s.ram[f]
  }

  /** Task 0's tables lie below LOW_MEM and map the kernel's first 640 kB there. */
  ghost predicate LowSource(s: Mm, fd: nat)
    requires Shape(s) && fd < 1024
  {
    fd >= TASK_DIRS || !Dir(s, fd).present ||
    (0 < Dir(s, fd).frame < LOW && forall j | 0 <= j < 0xA0 :: s.ram[Dir(s, fd).frame][j].frame < LOW)
  }

  ghost predicate Source(s: Mm, fd: nat, j: nat)
    requires Shape(s) && fd < 1024 && j < ENTRIES
  {
    LowSource(s, fd) && (fd < TASK_DIRS ==> j < 0xA0)
  }

  lemma CopyEntryWords(s: Mm, fd: nat, td: nat, j: nat)
    requires Inv(s) && Legal(Entry(td, j)) && HasTable(s, td) && fd < 1024 && fd != td
    requires Pte(s, fd, j).present && Source(s, fd, j)
    ensures var (s', w) := (CopyEntry(s, fd, td, j), ReadOnly(Pte(s, fd, j)));
      && SameTargetsBut(s, s', Entry(td, j)) && SameLow(s, s') && Pte(s', td, j) == w
      && (w.frame >= LOW ==> HasTable(s, fd) && Pte(s', fd, j) == w)
      && (forall f | 0 <= f < FRAMES && f != Dir(s, td).frame && (w.frame >= LOW ==> f != Dir(s, fd).frame) :: s'.ram[f] == s.ram[f])
  {
    var w := Pte(s, fd, j);
    InvTables(s);
    assert Target(s, Table(td)) >= LOW;
    PokeEntryEffect(s, td, j, ReadOnly(w));
    if LOW <= w.frame {
      assert Target(s, Entry(fd, j)) == w.frame && Target(s, Table(fd)) >= LOW;
      var s1 := PokeEntry(s, td, j, ReadOnly(w));
      PokeEntryEffect(s1, fd, j, ReadOnly(w));
      assert Dir(s1, fd) == WordAt(s1, Table(fd)) == Dir(s, fd);
      var s2 := PokeEntry(s1, fd, j, ReadOnly(w));
      assert Same(s2, CopyEntry(s, fd, td, j));
      assert WordAt(s2, Entry(td, j)) == ReadOnly(w);
      assert Target(s2, Entry(fd, j)) == w.frame;
    }
  }

  lemma CopyEntryInv(s: Mm, fd: nat, td: nat, j: nat)
    requires Inv(s) && fd < 1024 && Legal(Entry(td, j)) && HasTable(s, td)
    requires fd != td && fd % 16 == td % 16 && Source(s, fd, j)
    requires !Pte(s, td, j).present
    ensures var s' := CopyEntry(s, fd, td, j);
      && Inv(s') && SameViewExcept(s, s', td, j) && s'.held == s.held
      && (fd >= TASK_DIRS ==> View(s', td, j) == View(s, fd, j))
      && SameTargetsBut(s, s', Entry(td, j)) && SameLow(s, s')
  {
    var w := Pte(s, fd, j);
    if w.present {
      var s' := CopyEntry(s, fd, td, j);
      var r := Entry(td, j);
      CopyEntryWords(s, fd, td, j);
      assert Target(s', r) == w.frame;
      if fd >= TASK_DIRS { assert Target(s, Entry(fd, j)) == w.frame; MappedFrame(s, fd, j); }
      CopyEntryRest(s, fd, td, j);
      EntryStep(s, s', r);
      if LOW <= w.frame {
        assert Target(s, Table(fd)) == Dir(s, fd).frame;
        ViewsKept2(s, s', r, Dir(s, td).frame, Dir(s, fd).frame);
      } else {
        ViewsKept(s, s', r, Dir(s, td).frame);
      }
    }
  }

  /** Everyone else who maps the copied frame does so at the same page, read-only. */
  lemma CopyEntryRest(s: Mm, fd: nat, td: nat, j: nat)
    requires Inv(s) && Legal(Entry(td, j)) && HasTable(s, td) && fd < 1024 && fd != td
    requires Pte(s, fd, j).present && Source(s, fd, j) && fd % 16 == td % 16
    ensures forall q {:trigger Target(CopyEntry(s, fd, td, j), q)} |
              Legal(q) && q != Entry(td, j) && Target(CopyEntry(s, fd, td, j), q) == Pte(s, fd, j).frame >= LOW ::
              q.Entry? && q.d % 16 == td % 16 && q.j == j && !WordAt(CopyEntry(s, fd, td, j), q).rw
  {
    var s' := CopyEntry(s, fd, td, j);
    var w := Pte(s, fd, j);
    CopyEntryWords(s, fd, td, j);
    forall q | Legal(q) && q != Entry(td, j) && Target(s', q) == w.frame >= LOW
      ensures q.Entry? && q.d % 16 == td % 16 && q.j == j && !WordAt(s', q).rw
    {
      assert Target(s, Entry(fd, j)) == w.frame == Target(s, q);
    }
  }

  lemma ViewsKept2(s: Mm, s': Mm, r: Ref, tf: nat, tf2: nat)
    requires Inv(s) && Shape(s') && Legal(r) && r.Entry?
    requires SameTargetsBut(s, s', r)
    requires exists d :: TASK_DIRS <= d < 1024 && HasTable(s, d) && Dir(s, d).frame == tf
    requires forall q {:trigger Target(s, q)} | Legal(q) && q.Entry? :: Target(s, q) != tf2
    requires forall f | LOW <= f < FRAMES && f != tf && f != tf2 :: s'.ram[f] == s.ram[f]
    ensures SameViewExcept(s, s', r.d, r.j)
  {
    forall e, k | TASK_DIRS <= e < 1024 && 0 <= k < ENTRIES && (e, k) != (r.d, r.j)
      ensures View(s', e, k) == View(s, e, k)
    {
      assert Target(s', Entry(e, k)) == Target(s, Entry(e, k));
      if Pte(s, e, k).present { MappedFrame(s, e, k); }
    }
  }

  /** Replaces the frame behind an entry by a free frame f filled with `words`. */
  function Repoint(s: Mm, d: nat, j: nat, f: nat, words: seq<Word>): (s': Mm)
    requires Shape(s) && d < 1024 && j < ENTRIES && f < FRAMES && |words| == ENTRIES
    ensures Shape(s')
  {
    var e := Pte(s, d, j);
    var s2 := PokeEntry(if e.present && LOW <= e.frame < FRAMES then Drop(s, e.frame) else s, d, j, Entry7(f));
    Mm(s2.count, s2.ram[f := words], s2.held - {f}, s.lo, s.hi)
  }

  /** un_wp_page: the last user of a frame just gets write access back; any other gets a
      copy of its own. False when there is no free page (oom). */
  function UnWp(s: Mm, d: nat, j: nat): (r: (Mm, bool))
    requires Shape(s) && d < 1024 && j < ENTRIES
    ensures Shape(r.0)
  {
    var e := Pte(s, d, j);
    if LOW <= e.frame < FRAMES && s.count[e.frame - LOW] == 1 then (PokeEntry(s, d, j, Writable(e)), true)
    else
      var (s1, f) := GetFree(s);
      if f == 0 || e.frame >= FRAMES then (s, false)
      else (Repoint(s1, d, j, f, s1.ram[e.frame]), true)
  }

  lemma UnWpAlone(s: Mm, d: nat, j: nat)
    requires Inv(s) && Legal(Entry(d, j)) && Pte(s, d, j).present
    requires LOW <= Pte(s, d, j).frame < FRAMES && s.count[Pte(s, d, j).frame - LOW] == 1
    ensures var s' := PokeEntry(s, d, j, Writable(Pte(s, d, j)));
      Inv(s') && SameViewExcept(s, s', d, j) && Pte(s', d, j) == Writable(Pte(s, d, j))
      && View(s', d, j) == View(s, d, j) && SameTargetsBut(s, s', Entry(d, j))
  {
    var e := Pte(s, d, j);
    var r := Entry(d, j);
    InvTables(s);
    MappedFrame(s, d, j);
    assert Target(s, r) == e.frame;
    PokeEntryEffect(s, d, j, Writable(e));
    SoleReference(s, r, e.frame);
    EntryStep(s, PokeEntry(s, d, j, Writable(e)), r);
    ViewsKept(s, PokeEntry(s, d, j, Writable(e)), r, Dir(s, d).frame);
  }

  lemma RepointWords(s: Mm, d: nat, j: nat, f: nat, words: seq<Word>)
    requires Inv(s) && Legal(Entry(d, j)) && HasTable(s, d) && f in s.held && |words| == ENTRIES
    ensures var s' := Repoint(s, d, j, f, words);
      SameBut(s, s', Entry(d, j)) && Pte(s', d, j) == Entry7(f)
  {
    InvTables(s);
    var e := Pte(s, d, j);
    var s1 := if e.present && LOW <= e.frame < FRAMES then Drop(s, e.frame) else s;
    assert Same(s, s1);
    PokeEntryEffect(s1, d, j, Entry7(f));
    TableWordsKept(PokeEntry(s1, d, j, Entry7(f)), Repoint(s, d, j, f, words), f);
    assert WordAt(Repoint(s, d, j, f, words), Entry(d, j)) == Entry7(f);
  }

  lemma RepointInv(s: Mm, d: nat, j: nat, f: nat, words: seq<Word>)
    requires Inv(s) && Legal(Entry(d, j)) && HasTable(s, d) && f in s.held && |words| == ENTRIES
    ensures var s' := Repoint(s, d, j, f, words);
      && Inv(s') && SameViewExcept(s, s', d, j) && s'.held == s.held - {f}
      && Pte(s', d, j) == Entry7(f) && View(s', d, j) == Page(words) && SameTargetsBut(s, s', Entry(d, j))
  {
    var s' := Repoint(s, d, j, f, words);
    var r := Entry(d, j);
    RepointWords(s, d, j, f, words);
    if Pte(s, d, j).present {
      MappedFrame(s, d, j);
      assert Target(s, r) == Pte(s, d, j).frame;
    }
    EntryStep(s, s', r);
    assert s'.ram[f] == words && Pte(s', d, j) == Entry7(f);
    ViewsKept2(s, s', r, Dir(s, d).frame, f);
  }

  lemma UnWpChain(s: Mm, s1: Mm, s2: Mm, r: Ref)
    requires Shape(s) && Shape(s1) && Shape(s2) && r.Entry?
    requires Same(s, s1) && SameView(s, s1) && SameTargetsBut(s1, s2, r) && SameViewExcept(s1, s2, r.d, r.j)
    ensures SameTargetsBut(s, s2, r) && SameViewExcept(s, s2, r.d, r.j)
  {
    forall q | Legal(q) && q != r ensures Target(s2, q) == Target(s, q) && (WordAt(s2, q).rw ==> WordAt(s, q).rw) {
      assert Target(s1, q) == Target(s, q) && WordAt(s1, q) == WordAt(s, q);
    }
  }

  lemma UnWpCopy(s: Mm, d: nat, j: nat)
    requires Inv(s) && Legal(Entry(d, j)) && Pte(s, d, j).present && Pte(s, d, j).frame < FRAMES && GetFree(s).1 != 0
    ensures var (s1, f) := GetFree(s);
      var (s', e) := (Repoint(s1, d, j, f, s1.ram[Pte(s, d, j).frame]), Pte(s, d, j));
      && Inv(s') && SameViewExcept(s, s', d, j) && s'.held == s.held && SameTargetsBut(s, s', Entry(d, j))
      && Pte(s', d, j) == Entry7(f) && View(s', d, j) == Page(s.ram[e.frame])
  {
    var e := Pte(s, d, j);
    var (s1, f) := GetFree(s);
    GetFreeInv(s);
    assert WordAt(s1, Entry(d, j)) == e && WordAt(s1, Table(d)) == Dir(s, d);
    assert Target(s, Entry(d, j)) == e.frame;
    RepointInv(s1, d, j, f, s1.ram[e.frame]);
    UnWpChain(s, s1, Repoint(s1, d, j, f, s1.ram[e.frame]), Entry(d, j));
  }

  lemma UnWpInv(s: Mm, d: nat, j: nat)
    requires Inv(s) && Legal(Entry(d, j)) && Pte(s, d, j).present
    ensures Pte(s, d, j).frame < FRAMES
    ensures var (s', ok) := UnWp(s, d, j);
      && Inv(s') && SameViewExcept(s, s', d, j) && s'.held == s.held && SameTargetsBut(s, s', Entry(d, j))
      && (ok ==> Pte(s', d, j).present && Pte(s', d, j).rw && View(s', d, j) == Page(s.ram[Pte(s, d, j).frame]))
      && (!ok ==> s' == s && forall k | 0 <= k < PAGING_PAGES :: s.count[k] > 0)
  {
    MappedFrame(s, d, j);
    hide TablesOk, EntriesOk, Exclusive, HeldOk, CountsOk, View, GetFree, Repoint, PokeEntry, Target, WordAt, HasTable, Dir;
    var e := Pte(s, d, j);
    if LOW <= e.frame && s.count[e.frame - LOW] == 1 {
      UnWpAlone(s, d, j);
    } else if GetFree(s).1 == 0 {
      GetFreeInv(s);
    } else {
      UnWpCopy(s, d, j);
    }
  }

  /** With a count of one and a reference in hand there is no other reference. */
  lemma SoleReference(s: Mm, r: Ref, f: nat)
    requires Inv(s) && Legal(r) && LOW <= f < FRAMES && Target(s, r) == f && s.count[f - LOW] == 1
    ensures forall q | Legal(q) && q != r :: Target(s, q) != f
  {
    var rest := Refs(s, f) - {r};
    assert Refs(s, f) == rest + {r};
    assert rest == {};
    forall q | Legal(q) && q != r ensures Target(s, q) != f { assert q !in rest; }
  }

  /** Filling a frame that is no page table changes no entry. */
  lemma TableWordsKept(s: Mm, s': Mm, f: nat)
    requires Shape(s) && Shape(s') && LOW <= f < FRAMES
    requires forall g | 0 <= g < FRAMES && g != f :: s'.ram[g] == s.ram[g]
    requires forall r {:trigger Target(s, r)} | Legal(r) && r.Table? :: Target(s, r) != f
    ensures Same(s, s')
  {
    forall q | Legal(q) ensures WordAt(s', q) == WordAt(s, q) { assert Target(s, Table(q.d)) != f; }
  }

  // ---------------------------------------------------------------- put_page and its callers

  /** put_page: enters the kernel-held frame f at (d, j), with a new table if there is none.
      False when no page is free for the table. */
  function PutPage(s: Mm, f: nat, d: nat, j: nat): (r: (Mm, bool))
    requires Shape(s) && d < 1024 && j < ENTRIES && f < FRAMES
    ensures Shape(r.0)
  {
    if HasTable(s, d) then (Repoint(s, d, j, f, s.ram[f]), true)
    else
      var (s1, t) := GetFree(s);
      if t == 0 then (s, false)
      else
        var s2 := AddTable(s1, d, t);
        (Repoint(s2, d, j, f, s2.ram[f]), true)
  }

  lemma PutPageInv(s: Mm, f: nat, d: nat, j: nat)
    requires Inv(s) && f in s.held && Legal(Entry(d, j)) && !Pte(s, d, j).present
    ensures var (s', ok) := PutPage(s, f, d, j);
      && Inv(s') && SameViewExcept(s, s', d, j)
      && (ok ==> s'.held == s.held - {f} && View(s', d, j) == Page(s.ram[f]))
      && (!ok ==> s' == s)
  {
    assert s.lo <= f < s.hi;
    if HasTable(s, d) {
      RepointInv(s, d, j, f, s.ram[f]);
    } else {
      var (s1, t) := GetFree(s);
      GetFreeInv(s);
      if t != 0 {
        assert WordAt(s1, Table(d)) == Dir(s, d) && Target(s1, Table(d)) == Target(s, Table(d));
        assert Target(s, Table(d)) < 0;
        AddTableInv(s1, d, t);
        RepointInv(AddTable(s1, d, t), d, j, f, s.ram[f]);
      }
    }
  }

  /** get_free_page, fill, put_page: get_empty_page when `words` is the zero page, and the
      load of a page of the executable in do_no_page otherwise. False is oom, with any page
      taken given back. */
  function PageIn(s: Mm, d: nat, j: nat, words: seq<Word>): (r: (Mm, bool))
    requires Shape(s) && d < 1024 && j < ENTRIES && |words| == ENTRIES
    ensures Shape(r.0)
  {
    var (s1, f) := GetFree(s);
    if f == 0 then (s, false)
    else
      var s2 := Mm(s1.count, s1.ram[f := words], s1.held, s1.lo, s1.hi);
      var (s3, ok) := PutPage(s2, f, d, j);
      if ok then (s3, true) else (FreeHeld(s3, f), false)
  }

  lemma FillHeld(s: Mm, f: nat, words: seq<Word>)
    requires Inv(s) && f in s.held && |words| == ENTRIES
    ensures var s' := Mm(s.count, s.ram[f := words], s.held, s.lo, s.hi);
      Inv(s') && SameView(s, s') && Same(s, s')
  {
    var s' := Mm(s.count, s.ram[f := words], s.held, s.lo, s.hi);
    TableWordsKept(s, s', f);
    RefsSame(s, s');
    SameWordsSameView(s, s', f);
  }

  lemma PageInInv(s: Mm, d: nat, j: nat, words: seq<Word>)
    requires Inv(s) && Legal(Entry(d, j)) && !Pte(s, d, j).present && |words| == ENTRIES
    ensures var (s', ok) := PageIn(s, d, j, words);
      && Inv(s') && SameViewExcept(s, s', d, j) && s'.held == s.held
      && View(s', d, j) == (if ok then Page(words) else Fault)
  {
    var (s1, f) := GetFree(s);
    GetFreeInv(s);
    if f != 0 {
      FillHeld(s1, f, words);
      var s2 := Mm(s1.count, s1.ram[f := words], s1.held, s1.lo, s1.hi);
      assert WordAt(s2, Entry(d, j)) == WordAt(s1, Entry(d, j)) == WordAt(s, Entry(d, j));
      PutPageInv(s2, f, d, j);
      if !PutPage(s2, f, d, j).1 { FreeHeldInv(s2, f); }
    }
  }

  /** try_to_share: maps the clean page (fd, j) of another task read-only at (td, j) as well.
      Answers 0 (no), 1 (shared) or 2 (oom while getting a table). */
  function Share(s: Mm, fd: nat, td: nat, j: nat): (r: (Mm, nat))
    requires Shape(s) && fd < 1024 && td < 1024 && j < ENTRIES
    ensures Shape(r.0)
  {
    var w := Pte(s, fd, j);
    if !w.present || w.dirty || w.frame >= s.hi || w.frame < LOW then (s, 0)
    else if HasTable(s, td) then (CopyEntry(s, fd, td, j), 1)
    else
      var (s1, t) := GetFree(s);
      if t == 0 then (s, 2) else (CopyEntry(AddTable(s1, td, t), fd, td, j), 1)
  }

  lemma ShareInv(s: Mm, fd: nat, td: nat, j: nat)
    requires Inv(s) && Legal(Entry(fd, j)) && Legal(Entry(td, j))
    requires fd != td && fd % 16 == td % 16 && !Pte(s, td, j).present
    ensures var (s', a) := Share(s, fd, td, j);
      && Inv(s') && SameViewExcept(s, s', td, j) && s'.held == s.held
      && View(s', td, j) == if a == 1 then View(s, fd, j) else View(s, td, j)
  {
    assert !HasTable(s, td) ==> Target(s, Table(td)) < 0;
    hide TablesOk, EntriesOk, Exclusive, HeldOk, CountsOk;
    var w := Pte(s, fd, j);
    if w.present && !w.dirty && LOW <= w.frame < s.hi {
      if HasTable(s, td) {
        CopyEntryInv(s, fd, td, j);
      } else {
        var (s1, t) := GetFree(s);
        GetFreeInv(s);
        if t != 0 {
          assert Target(s1, Table(td)) == Target(s, Table(td));
          AddTableInv(s1, td, t);
          var s2 := AddTable(s1, td, t);
          assert Target(s2, Entry(td, j)) == Target(s1, Entry(td, j)) == Target(s, Entry(td, j));
          CopyEntryInv(s2, fd, td, j);
        }
      }
    }
  }

  // ---------------------------------------------------------------- stores

  /** The processor writes a word through an entry and marks the page dirty. */
  function Store(s: Mm, d: nat, j: nat, off: nat, w: Word): (s': Mm)
    requires Shape(s) && d < 1024 && j < ENTRIES && off < ENTRIES
    ensures Shape(s')
  {
    var f := Pte(s, d, j).frame;
    var s1 := PokeEntry(s, d, j, Dirtied(Pte(s, d, j)));
    if f >= FRAMES then s1 else Mm(s1.count, s1.ram[f := s1.ram[f][off := w]], s1.held, s1.lo, s1.hi)
  }

  /** A store is seen at every page that maps the frame, and nowhere else. Whether the entry is
      writable does not matter: the kernel runs with write protection off (boot/head.s, lines 53-61). */
  lemma StoreShows(s: Mm, d: nat, j: nat, off: nat, w: Word)
    requires Inv(s) && Legal(Entry(d, j)) && off < ENTRIES && Pte(s, d, j).present && Pte(s, d, j).frame >= LOW
    ensures Pte(s, d, j).frame < FRAMES
    ensures var (s', f) := (Store(s, d, j, off, w), Pte(s, d, j).frame);
      && Inv(s') && s'.held == s.held && s'.count == s.count
      && forall e, k {:trigger View(s', e, k)} | TASK_DIRS <= e < 1024 && 0 <= k < ENTRIES ::
           View(s', e, k) == if Target(s, Entry(e, k)) == f then Page(s.ram[f][off := w]) else View(s, e, k)
  {
    var e := Pte(s, d, j);
    var r := Entry(d, j);
    assert Target(s, r) == e.frame;
    InvTables(s);
    MappedFrame(s, d, j);
    var s1 := PokeEntry(s, d, j, Dirtied(e));
    PokeEntryEffect(s, d, j, Dirtied(e));
    assert Target(s1, r) == e.frame;
    EntryStep(s, s1, r);
    ViewsKept(s, s1, r, Dir(s, d).frame);
    StoreWords(s1, Store(s, d, j, off, w), e.frame, r);
    forall k, i | TASK_DIRS <= k < 1024 && 0 <= i < ENTRIES
      ensures View(Store(s, d, j, off, w), k, i)
           == if Target(s, Entry(k, i)) == e.frame then Page(s.ram[e.frame][off := w]) else View(s, k, i)
    {
      assert Target(s1, Entry(k, i)) == Target(s, Entry(k, i));
    }
  }

  /** New words in a frame are seen at the pages that map it. */
  lemma StoreWords(s: Mm, s': Mm, f: nat, r: Ref)
    requires Inv(s) && Shape(s') && Legal(r) && r.Entry? && Target(s, r) == f >= LOW
    requires s'.count == s.count && s'.held == s.held && s'.lo == s.lo && s'.hi == s.hi
    requires forall g | 0 <= g < FRAMES && g != f :: s'.ram[g] == s.ram[g]
    ensures Inv(s') && f < FRAMES
    ensures forall q, k {:trigger View(s', q, k)} | TASK_DIRS <= q < 1024 && 0 <= k < ENTRIES ::
      View(s', q, k) == if Target(s, Entry(q, k)) == f then Page(s'.ram[f]) else View(s, q, k)
  {
    TableWordsKept(s, s', f);
    RefsSame(s, s');
    forall q, k | TASK_DIRS <= q < 1024 && 0 <= k < ENTRIES
      ensures View(s', q, k) == if Target(s, Entry(q, k)) == f then Page(s'.ram[f]) else View(s, q, k)
    {
      assert Target(s', Entry(q, k)) == Target(s, Entry(q, k));
    }
  }

  /** A writable entry is its frame's only mapping, so the store is seen there alone. */
  lemma StoreInv(s: Mm, d: nat, j: nat, off: nat, w: Word)
    requires Inv(s) && Legal(Entry(d, j)) && off < ENTRIES && Pte(s, d, j).present && Pte(s, d, j).rw
    ensures var s' := Store(s, d, j, off, w);
      && Inv(s') && SameViewExcept(s, s', d, j) && s'.held == s.held
      && View(s, d, j).Page? && View(s', d, j) == Page(View(s, d, j).words[off := w])
  {
    var r := Entry(d, j);
    assert Target(s, r) == Pte(s, d, j).frame >= LOW;
    StoreShows(s, d, j, off, w);
    var s' := Store(s, d, j, off, w);
    forall e, k | TASK_DIRS <= e < 1024 && 0 <= k < ENTRIES && (e, k) != (d, j) ensures View(s', e, k) == View(s, e, k) {
      assert Target(s, Entry(e, k)) != Target(s, r);
    }
  }

  /** A writable entry's frame has count 1. */
  lemma WritableIsAlone(s: Mm, d: nat, j: nat)
    requires Inv(s) && Legal(Entry(d, j)) && Pte(s, d, j).present && Pte(s, d, j).rw
    ensures LOW <= Pte(s, d, j).frame < FRAMES && s.count[Pte(s, d, j).frame - LOW] == 1
  {
    var r, f := Entry(d, j), Pte(s, d, j).frame;
    assert Target(s, r) == f >= LOW;
    MappedFrame(s, d, j);
    assert Refs(s, f) == {r} by {
      forall q | q in Refs(s, f) ensures q == r { assert Target(s, q) == Target(s, r); }
      assert r in Refs(s, f);
    }
  }

  /** A count above 1 means another page shows the frame. */
  lemma AnotherMapping(s: Mm, d: nat, j: nat) returns (e: nat, k: nat)
    requires Inv(s) && Legal(Entry(d, j)) && Pte(s, d, j).present && LOW <= Pte(s, d, j).frame < FRAMES
    requires s.count[Pte(s, d, j).frame - LOW] != 1
    ensures Legal(Entry(e, k)) && (e, k) != (d, j) && Target(s, Entry(e, k)) == Pte(s, d, j).frame
  {
    var r, f := Entry(d, j), Pte(s, d, j).frame;
    assert Target(s, r) == f;
    MappedFrame(s, d, j);
    assert r in Refs(s, f);
    var rest := Refs(s, f) - {r};
    assert Refs(s, f) == rest + {r};
    assert rest != {};
    var q :| q in rest;
    assert Target(s, q) == Target(s, r);
    e, k := q.d, q.j;
  }

  /** After a page is shared both entries are the same, read-only. */
  lemma ShareMaps(s: Mm, fd: nat, td: nat, j: nat)
    requires Inv(s) && Legal(Entry(fd, j)) && Legal(Entry(td, j))
    requires fd != td && fd % 16 == td % 16 && !Pte(s, td, j).present && Share(s, fd, td, j).1 == 1
    ensures var s' := Share(s, fd, td, j).0;
      && Pte(s', td, j) == Pte(s', fd, j) == ReadOnly(Pte(s, fd, j))
      && Pte(s, fd, j).present && LOW <= Pte(s, fd, j).frame < FRAMES
  {
    assert !HasTable(s, td) ==> Target(s, Table(td)) < 0;
    if HasTable(s, td) {
      CopyEntryWords(s, fd, td, j);
    } else {
      var (s1, t) := GetFree(s);
      GetFreeInv(s);
      assert Target(s1, Table(td)) == Target(s, Table(td));
      assert WordAt(s1, Entry(fd, j)) == WordAt(s, Entry(fd, j)) && Target(s, Table(fd)) == Dir(s, fd).frame;
      assert Target(s1, Table(fd)) == Target(s, Table(fd)) && WordAt(s1, Table(fd)) == WordAt(s, Table(fd));
      AddTableInv(s1, td, t);
      assert Pte(AddTable(s1, td, t), fd, j) == Pte(s, fd, j);
      CopyEntryWords(AddTable(s1, td, t), fd, td, j);
    }
  }
}

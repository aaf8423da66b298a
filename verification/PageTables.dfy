/** The memory manager of mm/memory.c on values: physical memory, the byte-per-frame
    count table and every step the kernel takes on them, entry by entry.
    Page numbers are physical addresses shifted right by twelve. */
module PageTables {
  const LOW: nat := 256             // LOW_MEM >> 12
  const PAGING_PAGES: nat := 3840   // PAGING_MEMORY >> 12
  const FRAMES: nat := 4096         // LOW + PAGING_PAGES
  const ENTRIES: nat := 1024        // words in a page
  const USED: nat := 100
  const NR_TASKS: nat := 64
  const TASK_DIRS: nat := 16        // 64 MB of linear space, 4 MB a directory entry

  /** A 32-bit word by its bit fields: page number (bits 12..31), dirty (6),
      writable (1), present (0) and the remaining bits. Every word of memory, user data
      or page-table entry, is one of these. */
  datatype Word = Word(frame: nat, dirty: bool, rw: bool, present: bool, rest: nat)

  const ZERO_WORD := Word(0, false, false, false, 0)

  function ZeroPage(): (z: seq<Word>)
    ensures |z| == ENTRIES && forall j | 0 <= j < ENTRIES :: z[j] == ZERO_WORD
  {
    seq(ENTRIES, _ => ZERO_WORD)
  }

  /** `page | 7` */
  function Entry7(f: nat): Word { Word(f, false, true, true, 1) }

  /** `count` is mem_map, `ram[0]` the page directory (pg_dir is at physical address 0).
      `held` are the frames the kernel itself got from get_free_page and still keeps;
      lo and hi bound the pageable frames as mem_init sets them up. */
  datatype Mm = Mm(count: seq<nat>, ram: seq<seq<Word>>, held: set<nat>, lo: nat, hi: nat)

  predicate Shape(s: Mm) {
    && |s.count| == PAGING_PAGES && |s.ram| == FRAMES
    && LOW <= s.lo <= s.hi <= FRAMES
    && forall f | 0 <= f < FRAMES :: |s.ram[f]| == ENTRIES
  }

  function Dir(s: Mm, d: nat): Word
    requires Shape(s) && d < 1024
  {
    s.ram[0][d]
  }

  predicate HasTable(s: Mm, d: nat)
    requires Shape(s) && d < 1024
  {
    Dir(s, d).present && Dir(s, d).frame < FRAMES
  }

  /** The page-table entry for page j of directory slot d; zero when there is no table. */
  function Pte(s: Mm, d: nat, j: nat): Word
    requires Shape(s) && d < 1024 && j < ENTRIES
  {
    if HasTable(s, d) then s.ram[Dir(s, d).frame][j] else ZERO_WORD
  }

  // ---------------------------------------------------------------- what points where

  datatype Ref = Table(d: nat) | Entry(d: nat, j: nat)

  ghost predicate Legal(r: Ref) {
    TASK_DIRS <= r.d < 1024 && (r.Entry? ==> r.j < ENTRIES)
  }

  ghost function AllRefs(): (rs: set<Ref>)
    ensures forall r :: r in rs <==> Legal(r)
  {
    (set d, j | TASK_DIRS <= d < 1024 && 0 <= j < ENTRIES :: Entry(d, j)) +
    (set d | TASK_DIRS <= d < 1024 :: Table(d))
  }

  ghost function WordAt(s: Mm, r: Ref): Word
    requires Shape(s) && Legal(r)
  {
    match r
    case Table(d) => Dir(s, d)
    case Entry(d, j) => Pte(s, d, j)
  }

  /** The frame a reference points to, -1 for none. */
  ghost function Target(s: Mm, r: Ref): int
    requires Shape(s) && Legal(r)
  {
    var w := WordAt(s, r);
    if w.present then w.frame else -1
  }

  /** Every page-table mapping and page-directory hold of frame f by tasks 1..63. */
  ghost function Refs(s: Mm, f: nat): set<Ref>
    requires Shape(s)
  {
    set r | r in AllRefs() && Target(s, r) == f
  }

  // ---------------------------------------------------------------- the invariant

  ghost predicate TablesOk(s: Mm)
    requires Shape(s)
  {
    forall r {:trigger Target(s, r)} | Legal(r) && r.Table? && Target(s, r) >= 0 :: s.lo <= Target(s, r) < s.hi
  }

  /** A task entry maps a pageable frame, or read-only one of the kernel's low pages. */
  ghost predicate EntriesOk(s: Mm)
    requires Shape(s)
  {
    forall r {:trigger Target(s, r)} | Legal(r) && r.Entry? && Target(s, r) >= 0 ::
      (Target(s, r) < LOW && !WordAt(s, r).rw) || s.lo <= Target(s, r) < s.hi
  }

  /** Two references share a frame only as read-only entries for one task-relative page. */
  ghost predicate Exclusive(s: Mm)
    requires Shape(s)
  {
    forall r, q {:trigger Target(s, r), Target(s, q)} | Legal(r) && Legal(q) && r != q && Target(s, r) == Target(s, q) >= LOW ::
      && r.Entry? && q.Entry? && r.d % 16 == q.d % 16 && r.j == q.j
      && !WordAt(s, r).rw && !WordAt(s, q).rw
  }

  ghost predicate HeldOk(s: Mm)
    requires Shape(s)
  {
    && (forall f | f in s.held :: s.lo <= f < s.hi)
    && (forall r {:trigger Target(s, r)} | Legal(r) :: Target(s, r) !in s.held)
  }

  ghost predicate CountsOk(s: Mm)
    requires Shape(s)
  {
    forall f | LOW <= f < FRAMES ::
      s.count[f - LOW] == |Refs(s, f)| + (if f in s.held then 1 else 0)
                          + (if s.lo <= f < s.hi then 0 else USED)
  }

  ghost predicate Inv(s: Mm) {
    Shape(s) && TablesOk(s) && EntriesOk(s) && Exclusive(s) && HeldOk(s) && CountsOk(s)
  }

  // ---------------------------------------------------------------- counting

  lemma RefsChange(s: Mm, s': Mm, r: Ref, f: nat)
    requires Shape(s) && Shape(s') && Legal(r)
    requires forall q {:trigger Target(s', q)} | Legal(q) && q != r :: Target(s', q) == Target(s, q)
    ensures |Refs(s', f)| == |Refs(s, f)| + (if Target(s', r) == f then 1 else 0)
                                          - (if Target(s, r) == f then 1 else 0)
  {
    var base := Refs(s, f) - {r};
    assert Refs(s', f) - {r} == base;
    assert Refs(s, f) == if Target(s, r) == f then base + {r} else base;
    assert Refs(s', f) == if Target(s', r) == f then base + {r} else base;
  }

  lemma RefsSame(s: Mm, s': Mm)
    requires Shape(s) && Shape(s')
    requires forall q | Legal(q) :: Target(s', q) == Target(s, q)
    ensures forall f: nat :: Refs(s', f) == Refs(s, f)
  {
  }

  /** The other references of a frame that is mapped by an entry lie at the same page of
      other tasks, so there are at most 63 and a count byte cannot wrap. */
  lemma CountAtMost63(s: Mm, f: nat)
    requires Inv(s) && s.lo <= f < s.hi
    ensures s.count[f - LOW] <= NR_TASKS - 1
  {
    var rs := Refs(s, f);
    if r :| r in rs {
      if f in s.held { assert false; }
      var tasks := set q | q in rs :: q.d / 16;
      SmallSet(tasks, NR_TASKS);
      forall p, q | p in rs && q in rs && p != q ensures p.d / 16 != q.d / 16 {
        assert p.d % 16 == q.d % 16 && p.j == q.j;
      }
      ImageSize(rs, tasks);
    } else {
      assert rs == {};
    }
  }

  lemma {:induction false} SmallSet(ts: set<nat>, n: nat)
    requires n >= 1 && forall t | t in ts :: 1 <= t < n
    ensures |ts| <= n - 1
  {
    if n == 1 {
      assert ts == {};
    } else {
      SmallSet(ts - {n - 1}, n - 1);
    }
  }

  lemma ImageSize(rs: set<Ref>, ts: set<nat>)
    requires ts == set q | q in rs :: q.d / 16
    requires forall p, q | p in rs && q in rs && p != q :: p.d / 16 != q.d / 16
    ensures |rs| == |ts|
  {
    if r :| r in rs {
      var rest := rs - {r};
      var ts' := set q | q in rest :: q.d / 16;
      assert ts == ts' + {r.d / 16};
      ImageSize(rest, ts');
    } else {
      assert ts == {};
    }
  }

  // ---------------------------------------------------------------- after mem_init

  /** setup_paging (boot/head.s, lines 225-239): the first table, in frame 1, maps the kernel's 640 kB
      to themselves. */
  predicate KernelMapped(s: Mm) {
    && Shape(s) && Dir(s, 0).present && Dir(s, 0).frame == 1
    && forall j | 0 <= j < 0xA0 :: s.ram[1][j].present && s.ram[1][j].frame == j
  }

  /** mem_init (lines 400-412): the frames of [lo, hi) are free, all others USED; no task but task 0 has
      a page table yet. */
  ghost predicate Booted(s: Mm) {
    && KernelMapped(s) && s.held == {}
    && (forall k | 0 <= k < PAGING_PAGES :: s.count[k] == if s.lo <= k + LOW < s.hi then 0 else USED)
    && (forall d | TASK_DIRS <= d < 1024 :: !Dir(s, d).present)
  }

  lemma BootedInv(s: Mm)
    requires Booted(s)
    ensures Inv(s)
  {
    forall r | Legal(r) ensures Target(s, r) < 0 {
      assert !Dir(s, r.d).present;
    }
    forall f | LOW <= f < FRAMES
      ensures s.count[f - LOW] == |Refs(s, f)| + (if f in s.held then 1 else 0) + (if s.lo <= f < s.hi then 0 else USED)
    {
      forall r ensures r !in Refs(s, f) {
        if Legal(r) { assert Target(s, r) < 0; }
      }
      assert Refs(s, f) == {};
      assert s.count[f - LOW] == if s.lo <= f - LOW + LOW < s.hi then 0 else USED;
    }
  }
}

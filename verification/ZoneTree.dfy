/** The zone forest of fs/bitmap.c and fs/inode.c on values: a zone bitmap, the blocks of
    one device, and inodes with 7 direct, 1 indirect and 1 doubly indirect zone. */
module ZoneTree {
  const BLOCK_SIZE: nat := 1024
  const PER_BLOCK: nat := 512          // zone numbers in an indirect block
  const MAX_BLOCKS: nat := 7 + 512 + 512 * 512

  type byte = x: nat | x < 256

  datatype Kind = Regular | Directory | Other

  datatype MInode = MInode(zone: seq<nat>, size: nat, kind: Kind)

  /** `first` and `nzones` are s_firstdatazone and s_nzones; bit b of the bitmap stands for
      zone first - 1 + b, and bit 0 is set by mkfs and never given out. */
  datatype Fs = Fs(zmap: seq<bool>, blocks: seq<seq<byte>>, inodes: seq<MInode>, first: nat, nzones: nat)

  predicate Shape(s: Fs) {
    && 0 < s.first <= s.nzones <= |s.blocks| && s.nzones < 0x10000
    && s.nzones - s.first < |s.zmap| <= 8 * 8192 && |s.zmap| % 8192 == 0
    && (forall z | 0 <= z < |s.blocks| :: |s.blocks[z]| == BLOCK_SIZE)
    && (forall n | 0 <= n < |s.inodes| :: |s.inodes[n].zone| == 9)
  }

  /** Entry i of a block read as an array of unsigned shorts. */
  function Short(b: seq<byte>, i: nat): nat
    requires |b| == BLOCK_SIZE && i < PER_BLOCK
  {
    var lo: nat, hi: nat := b[2 * i], b[2 * i + 1];
    lo + 256 * hi
  }

  function PutShort(b: seq<byte>, i: nat, v: nat): (b': seq<byte>)
    requires |b| == BLOCK_SIZE && i < PER_BLOCK && v < 0x10000
    ensures |b'| == BLOCK_SIZE
    ensures forall k | 0 <= k < PER_BLOCK :: Short(b', k) == if k == i then v else Short(b, k)
  {
    b[2 * i := v % 256][2 * i + 1 := v / 256]
  }

  function ZeroBlock(): (b: seq<byte>)
    ensures |b| == BLOCK_SIZE && forall i | 0 <= i < BLOCK_SIZE :: b[i] == 0
    ensures forall k | 0 <= k < PER_BLOCK :: Short(b, k) == 0
  {
    seq(BLOCK_SIZE, _ => 0)
  }

  // ---------------------------------------------------------------- the forest

  /** A place that can name a zone: field f of inode n (7 direct zones, 7 the indirect and
      8 the doubly indirect one), an entry of the indirect block, an entry of the doubly
      indirect block, or an entry of a second-level block. */
  datatype Slot = Root(n: nat, f: nat) | Ind(n: nat, i: nat) | Mid(n: nat, i: nat) | Leaf(n: nat, i: nat, j: nat)

  predicate IsIndirect(q: Slot) {
    q.Mid? || (q.Root? && q.f >= 7)
  }

  /** A place of one of k inodes. */
  predicate Legal(k: nat, q: Slot) {
    && q.n < k
    && (q.Root? ==> q.f < 9)
    && (!q.Root? ==> q.i < PER_BLOCK)
    && (q.Leaf? ==> q.j < PER_BLOCK)
  }

  /** The place that names the block an entry lies in, and its index there. */
  function Parent(q: Slot): Slot
    requires !q.Root?
  {
    match q
    case Ind(n, _) => Root(n, 7)
    case Mid(n, _) => Root(n, 8)
    case Leaf(n, i, _) => Mid(n, i)
  }

  function Index(q: Slot): nat
    requires !q.Root?
  {
    if q.Leaf? then q.j else q.i
  }

  function Level(q: Slot): nat {
    if q.Root? then 0 else if q.Leaf? then 2 else 1
  }

  function RootZone(s: Fs, n: nat, f: nat): nat
    requires Shape(s)
  {
    if n < |s.inodes| && f < 9 then s.inodes[n].zone[f] else 0
  }

  function EntryOf(s: Fs, z: nat, i: nat): nat
    requires Shape(s)
  {
    if 0 < z < |s.blocks| && i < PER_BLOCK then Short(s.blocks[z], i) else 0
  }

  /** The zone a place names, 0 for none. */
  function ZoneAt(s: Fs, q: Slot): nat
    requires Shape(s)
  {
    match q
    case Root(n, f) => RootZone(s, n, f)
    case Ind(n, i) => EntryOf(s, RootZone(s, n, 7), i)
    case Mid(n, i) => EntryOf(s, RootZone(s, n, 8), i)
    case Leaf(n, i, j) => EntryOf(s, EntryOf(s, RootZone(s, n, 8), i), j)
  }

  predicate Marked(s: Fs, z: nat)
    requires Shape(s)
  {
    s.first <= z < s.nzones && s.zmap[z - s.first + 1]
  }

  ghost predicate ZonesMarked(s: Fs)
    requires Shape(s)
  {
    forall q {:trigger ZoneAt(s, q)} | Legal(|s.inodes|, q) && ZoneAt(s, q) != 0 :: Marked(s, ZoneAt(s, q))
  }

  ghost predicate ZonesDistinct(s: Fs)
    requires Shape(s)
  {
    forall q, r {:trigger ZoneAt(s, q), ZoneAt(s, r)} |
      Legal(|s.inodes|, q) && Legal(|s.inodes|, r) && ZoneAt(s, q) == ZoneAt(s, r) != 0 :: q == r
  }

  /** Every zone named anywhere is a marked data zone, named once. */
  ghost predicate WellFormed(s: Fs) {
    Shape(s) && s.zmap[0] && ZonesMarked(s) && ZonesDistinct(s)
  }

  /** No inode names a zone or has a size; the bit that stands for no zone is set (fs/super.c, line 162). */
  predicate NoFiles(s: Fs) {
    && Shape(s) && s.zmap[0]
    && forall n | 0 <= n < |s.inodes| :: s.inodes[n].size == 0 && forall f | 0 <= f < 9 :: s.inodes[n].zone[f] == 0
  }

  lemma EmptyForest(s: Fs)
    requires NoFiles(s)
    ensures WellFormed(s) && forall q | Legal(|s.inodes|, q) :: ZoneAt(s, q) == 0
  {
    forall q | Legal(|s.inodes|, q) ensures ZoneAt(s, q) == 0 {
      assert q.Root? || (Parent(q).Root? && ZoneAt(s, Parent(q)) == 0) || ZoneAt(s, Root(q.n, 8)) == 0;
    }
  }

  /** The place of logical block b of a file. */
  function DataSlot(n: nat, b: nat): Slot
    requires b < MAX_BLOCKS
  {
    if b < 7 then Root(n, b)
    else if b < 7 + 512 then Ind(n, b - 7)
    else Leaf(n, (b - 519) / 512, (b - 519) % 512)
  }

  lemma DataSlotLegal(s: Fs, n: nat, b: nat)
    requires b < MAX_BLOCKS && n < |s.inodes|
    ensures Legal(|s.inodes|, DataSlot(n, b)) && !IsIndirect(DataSlot(n, b)) && DataSlot(n, b).n == n
  {
  }

  lemma DataSlotInjective(n: nat, b: nat, m: nat, c: nat)
    requires b < MAX_BLOCKS && c < MAX_BLOCKS && DataSlot(n, b) == DataSlot(m, c)
    ensures n == m && b == c
  {
  }

  // ---------------------------------------------------------------- allocation

  /** Index of the first clear bit, |m| for none. */
  function FirstZero(m: seq<bool>): (i: nat)
    ensures i <= |m| && (i < |m| ==> !m[i])
    ensures forall k | 0 <= k < i :: m[k]
  {
    if |m| == 0 then 0 else if !m[0] then 0 else 1 + FirstZero(m[1..])
  }

  lemma FirstZeroIs(m: seq<bool>, i: nat)
    requires i <= |m| && (i < |m| ==> !m[i]) && forall k | 0 <= k < i :: m[k]
    ensures FirstZero(m) == i
  {
  }

  /** new_block: takes the first clear bit and returns its zone, zeroed, or 0. A bit past
      the last zone is set all the same before the 0 is returned. */
  function NewBlock(s: Fs): (r: (Fs, nat))
    requires Shape(s)
    ensures Shape(r.0)
  {
    var j := FirstZero(s.zmap);
    if j == |s.zmap| then (s, 0)
    else
      var z := j + s.first - 1;
      if z >= s.nzones then (Fs(s.zmap[j := true], s.blocks, s.inodes, s.first, s.nzones), 0)
      else (Fs(s.zmap[j := true], s.blocks[z := ZeroBlock()], s.inodes, s.first, s.nzones), z)
  }

  /** The lowest clear bit is set, past the last zone too, and no other changes. */
  lemma NewBlockMarks(s: Fs)
    requires Shape(s)
    ensures |NewBlock(s).0.zmap| == |s.zmap|
    ensures forall b | 0 <= b < |s.zmap| :: NewBlock(s).0.zmap[b] <==> s.zmap[b] || forall a | 0 <= a < b :: s.zmap[a]
  {
  }

  /** A zone is found if and only if the bit of some zone of the device is clear, and it is the lowest such. */
  lemma NewBlockFinds(s: Fs)
    requires Shape(s) && s.zmap[0]
    ensures var z := NewBlock(s).1;
      && (z == 0 <==> forall b | 1 <= b <= s.nzones - s.first :: s.zmap[b])
      && (z != 0 ==> s.first <= z < s.nzones && !s.zmap[z - s.first + 1] && forall b | 1 <= b < z - s.first + 1 :: s.zmap[b])
  {
    var j := FirstZero(s.zmap);
    assert j > 0;
  }

  ghost predicate SameForest(s: Fs, s': Fs)
    requires Shape(s) && Shape(s')
  {
    && |s'.inodes| == |s.inodes| && s'.first == s.first && s'.nzones == s.nzones
    && |s'.blocks| == |s.blocks| && |s'.zmap| == |s.zmap|
    && forall q {:trigger ZoneAt(s', q)} | Legal(|s.inodes|, q) :: ZoneAt(s', q) == ZoneAt(s, q)
  }

  /** Blocks of files keep their bytes. */
  ghost predicate SameData(s: Fs, s': Fs)
    requires Shape(s) && Shape(s') && |s'.blocks| == |s.blocks|
  {
    forall q {:trigger ZoneAt(s, q)} | Legal(|s.inodes|, q) && !IsIndirect(q) && 0 < ZoneAt(s, q) < |s.blocks| ::
      s'.blocks[ZoneAt(s, q)] == s.blocks[ZoneAt(s, q)]
  }

  /** Rewriting blocks that no place names moves no mapping. */
  lemma {:induction false} UnusedBlocks(s: Fs, s': Fs, q: Slot)
    requires WellFormed(s) && Shape(s') && s'.inodes == s.inodes && |s'.blocks| == |s.blocks|
    requires forall z | 0 <= z < |s.blocks| && s'.blocks[z] != s.blocks[z] ::
      forall p {:trigger ZoneAt(s, p)} | Legal(|s.inodes|, p) :: ZoneAt(s, p) != z
    requires Legal(|s.inodes|, q)
    ensures ZoneAt(s', q) == ZoneAt(s, q)
    decreases Level(q)
  {
    if !q.Root? { UnusedBlocks(s, s', Parent(q)); assert ZoneAt(s, Parent(q)) >= 0; }
  }

  lemma NewBlockKeeps(s: Fs)
    requires WellFormed(s)
    ensures var (s', z) := NewBlock(s);
      && WellFormed(s') && SameForest(s, s') && SameData(s, s') && s'.inodes == s.inodes
      && (z == 0 ==> s'.blocks == s.blocks)
      && (z != 0 ==> Marked(s', z) && s'.blocks[z] == ZeroBlock()
                     && !Marked(s, z) && forall q {:trigger ZoneAt(s, q)} | Legal(|s.inodes|, q) :: ZoneAt(s, q) != z)
  {
    var (s', z) := NewBlock(s);
    forall q | Legal(|s.inodes|, q) ensures z != 0 ==> ZoneAt(s, q) != z {
      assert ZoneAt(s, q) != 0 ==> Marked(s, ZoneAt(s, q));
    }
    forall q | Legal(|s.inodes|, q) ensures ZoneAt(s', q) == ZoneAt(s, q) { UnusedBlocks(s, s', q); }
    MoreMarks(s, s');
  }

  lemma MoreMarks(s: Fs, s': Fs)
    requires WellFormed(s) && Shape(s') && SameForest(s, s')
    requires forall j | 0 <= j < |s.zmap| && s.zmap[j] :: s'.zmap[j]
    ensures WellFormed(s')
  {
  }

  // ---------------------------------------------------------------- growing a file

  /** Enters zone z at place q: an inode field, or a short in the parent's block. */
  function Attach(s: Fs, q: Slot, z: nat): (s': Fs)
    requires Shape(s) && Legal(|s.inodes|, q) && z < 0x10000
    ensures Shape(s')
  {
    if q.Root? then
      var nd := s.inodes[q.n];
      Fs(s.zmap, s.blocks, s.inodes[q.n := MInode(nd.zone[q.f := z], nd.size, nd.kind)], s.first, s.nzones)
    else
      var pz := ZoneAt(s, Parent(q));
      if pz >= |s.blocks| then s
      else Fs(s.zmap, s.blocks[pz := PutShort(s.blocks[pz], Index(q), z)], s.inodes, s.first, s.nzones)
  }

  /** What _bmap sees to before it attaches a zone: the place is empty, its block is there,
      and the zone is marked, zeroed and named nowhere. */
  ghost predicate CanAttach(s: Fs, q: Slot, z: nat)
    requires Shape(s)
  {
    && Legal(|s.inodes|, q) && ZoneAt(s, q) == 0 && (!q.Root? ==> ZoneAt(s, Parent(q)) != 0)
    && Marked(s, z) && s.blocks[z] == ZeroBlock()
    && forall p {:trigger ZoneAt(s, p)} | Legal(|s.inodes|, p) :: ZoneAt(s, p) != z
  }

  /** Attaching a fresh zeroed zone names it at q and moves no other mapping. */
  lemma {:induction false} AttachAt(s: Fs, q: Slot, z: nat, r: Slot)
    requires WellFormed(s) && CanAttach(s, q, z) && Legal(|s.inodes|, r)
    ensures ZoneAt(Attach(s, q, z), r) == if r == q then z else ZoneAt(s, r)
    decreases Level(r)
  {
    var s' := Attach(s, q, z);
    if !q.Root? {
      assert Marked(s, ZoneAt(s, Parent(q))) && ZoneAt(s, Parent(q)) != z;
    }
    if !r.Root? {
      var p := Parent(r);
      AttachAt(s, q, z, p);
      if p == q {
        assert s'.blocks[z] == ZeroBlock();
      } else if ZoneAt(s, p) != 0 {
        assert Marked(s, ZoneAt(s, p));
        if !q.Root? && p != Parent(q) { assert ZoneAt(s, p) != ZoneAt(s, Parent(q)); }
      }
    }
  }

  lemma AttachKeeps(s: Fs, q: Slot, z: nat)
    requires WellFormed(s) && CanAttach(s, q, z)
    ensures var s' := Attach(s, q, z);
      && WellFormed(s') && SameData(s, s') && ZoneAt(s', q) == z && |s'.inodes| == |s.inodes|
      && |s'.blocks| == |s.blocks| && s'.zmap == s.zmap && s'.first == s.first && s'.nzones == s.nzones
      && s'.blocks[z] == ZeroBlock()
      && (forall r {:trigger ZoneAt(s', r)} | Legal(|s.inodes|, r) && r != q :: ZoneAt(s', r) == ZoneAt(s, r))
      && (forall n | 0 <= n < |s.inodes| :: s'.inodes[n].size == s.inodes[n].size && s'.inodes[n].kind == s.inodes[n].kind)
  {
    var s' := Attach(s, q, z);
    forall r | Legal(|s.inodes|, r) ensures ZoneAt(s', r) == if r == q then z else ZoneAt(s, r) {
      AttachAt(s, q, z, r);
    }
    if !q.Root? {
      assert IsIndirect(Parent(q)) && ZoneAt(s, Parent(q)) != z;
    }
    OneMoreZone(s, s', q, z);
  }

  lemma OneMoreZone(s: Fs, s': Fs, q: Slot, z: nat)
    requires WellFormed(s) && Shape(s') && Legal(|s.inodes|, q) && |s'.inodes| == |s.inodes|
    requires s'.zmap == s.zmap && s'.first == s.first && s'.nzones == s.nzones
    requires Marked(s, z) && forall p {:trigger ZoneAt(s, p)} | Legal(|s.inodes|, p) :: ZoneAt(s, p) != z
    requires forall r {:trigger ZoneAt(s', r)} | Legal(|s.inodes|, r) :: ZoneAt(s', r) == if r == q then z else ZoneAt(s, r)
    ensures WellFormed(s')
  {
  }

  /** One `if (create && !zone) zone = new_block()` of _bmap. */
  function Claim(s: Fs, q: Slot): (r: (Fs, nat))
    requires Shape(s) && Legal(|s.inodes|, q)
    ensures Shape(r.0) && |r.0.inodes| == |s.inodes|
  {
    if ZoneAt(s, q) != 0 then (s, ZoneAt(s, q))
    else
      var (s1, z) := NewBlock(s);
      if z == 0 then (s1, 0) else (Attach(s1, q, z), z)
  }

  /** create_block: claims the places on the way to the data zone, top down, stopping at
      the first that cannot be had. */
  function CreateAt(s: Fs, q: Slot): (r: (Fs, nat))
    requires Shape(s) && Legal(|s.inodes|, q)
    ensures Shape(r.0) && |r.0.inodes| == |s.inodes|
    decreases Level(q)
  {
    if q.Root? then Claim(s, q)
    else
      var (s1, z) := CreateAt(s, Parent(q));
      if z == 0 then (s1, 0) else Claim(s1, q)
  }

  function CreateBlock(s: Fs, n: nat, b: nat): (r: (Fs, nat))
    requires Shape(s) && n < |s.inodes| && b < MAX_BLOCKS
    ensures Shape(r.0) && |r.0.inodes| == |s.inodes|
  {
    DataSlotLegal(s, n, b);
    CreateAt(s, DataSlot(n, b))
  }

  /** A prefix of the way to q, q included. */
  predicate OnPath(r: Slot, q: Slot) {
    r == q || (!q.Root? && (r == Parent(q) || (q.Leaf? && r == Root(q.n, 8))))
  }

  /** What growing along the way to q may do: nothing outside the way moves, zones once
      there stay, and no file changes a byte. */
  ghost predicate Grows(s: Fs, s': Fs, q: Slot)
    requires Shape(s) && Shape(s')
  {
    && |s'.inodes| == |s.inodes| && |s'.blocks| == |s.blocks| && |s'.zmap| == |s.zmap|
    && s'.first == s.first && s'.nzones == s.nzones && SameData(s, s')
    && (forall r {:trigger ZoneAt(s', r)} | Legal(|s.inodes|, r) && (!OnPath(r, q) || ZoneAt(s, r) != 0) ::
          ZoneAt(s', r) == ZoneAt(s, r))
    && (forall r {:trigger ZoneAt(s', r)} | Legal(|s.inodes|, r) && ZoneAt(s, r) == 0 && ZoneAt(s', r) != 0 ::
          (ZoneAt(s', r) < |s.blocks| && s'.blocks[ZoneAt(s', r)] == ZeroBlock()) || IsIndirect(r))
    && (forall n | 0 <= n < |s.inodes| :: s'.inodes[n].size == s.inodes[n].size && s'.inodes[n].kind == s.inodes[n].kind)
  }

  lemma ClaimKeeps(s: Fs, q: Slot)
    requires WellFormed(s) && Legal(|s.inodes|, q) && (!q.Root? ==> ZoneAt(s, Parent(q)) != 0)
    ensures var (s', z) := Claim(s, q);
      && WellFormed(s') && Grows(s, s', q) && ZoneAt(s', q) == z
      && (forall r {:trigger ZoneAt(s', r)} | Legal(|s.inodes|, r) && r != q :: ZoneAt(s', r) == ZoneAt(s, r))
  {
    if ZoneAt(s, q) == 0 {
      var (s1, z) := NewBlock(s);
      NewBlockKeeps(s);
      assert ZoneAt(s1, q) == 0;
      if z != 0 {
        if !q.Root? { assert ZoneAt(s1, Parent(q)) != 0; }
        assert forall p {:trigger ZoneAt(s1, p)} | Legal(|s.inodes|, p) :: ZoneAt(s1, p) != z by {
          forall p | Legal(|s.inodes|, p) ensures ZoneAt(s1, p) != z { assert ZoneAt(s1, p) == ZoneAt(s, p); }
        }
        AttachKeeps(s1, q, z);
        var s' := Attach(s1, q, z);
        forall r | Legal(|s.inodes|, r) && r != q ensures ZoneAt(s', r) == ZoneAt(s, r) {
          assert ZoneAt(s', r) == ZoneAt(s1, r);
        }
        DataChain(s, s1, s');
      }
    }
  }

  lemma DataChain(s: Fs, s1: Fs, s2: Fs)
    requires Shape(s) && Shape(s1) && Shape(s2) && |s.blocks| == |s1.blocks| == |s2.blocks| && |s.inodes| == |s1.inodes|
    requires SameData(s, s1) && SameData(s1, s2)
    requires forall q {:trigger ZoneAt(s1, q)} | Legal(|s.inodes|, q) && ZoneAt(s, q) != 0 :: ZoneAt(s1, q) == ZoneAt(s, q)
    ensures SameData(s, s2)
  {
    forall q | Legal(|s.inodes|, q) && !IsIndirect(q) && 0 < ZoneAt(s, q) < |s.blocks|
      ensures s2.blocks[ZoneAt(s, q)] == s.blocks[ZoneAt(s, q)]
    {
      assert ZoneAt(s1, q) == ZoneAt(s, q);
    }
  }

  /** create_block keeps the forest well formed, names only the way to the wanted block and
      changes no byte of any file; it returns what that place then names. */
  lemma {:induction false} CreateAtKeeps(s: Fs, q: Slot)
    requires WellFormed(s) && Legal(|s.inodes|, q)
    ensures var (s', z) := CreateAt(s, q);
      && WellFormed(s') && Grows(s, s', q)
      && ZoneAt(s', q) == z
    decreases Level(q)
  {
    hide ZonesMarked, ZonesDistinct, Claim;
    if q.Root? {
      ClaimKeeps(s, q);
    } else {
      var p := Parent(q);
      CreateAtKeeps(s, p);
      var (s1, z) := CreateAt(s, p);
      assert ZoneAt(s1, q) == ZoneAt(s, q);
      if z != 0 {
        ClaimKeeps(s1, q);
        GrowsChain(s, s1, Claim(s1, q).0, q);
      } else {
        assert ZoneAt(s1, p) == 0;
      }
    }
  }

  lemma GrowsChain(s: Fs, s1: Fs, s2: Fs, q: Slot)
    requires WellFormed(s) && Shape(s1) && WellFormed(s2) && !q.Root?
    requires Grows(s, s1, Parent(q)) && Grows(s1, s2, q)
    requires forall r {:trigger ZoneAt(s2, r)} | Legal(|s.inodes|, r) && r != q :: ZoneAt(s2, r) == ZoneAt(s1, r)
    requires ZoneAt(s1, q) == ZoneAt(s, q)
    ensures Grows(s, s2, q)
  {
    DataChain(s, s1, s2);
    forall r | Legal(|s.inodes|, r) && ZoneAt(s, r) == 0 && ZoneAt(s2, r) != 0
      ensures (ZoneAt(s2, r) < |s.blocks| && s2.blocks[ZoneAt(s2, r)] == ZeroBlock()) || IsIndirect(r)
    {
      if r != q && !IsIndirect(r) { assert ZoneAt(s1, r) == ZoneAt(s2, r); }
    }
    forall r | Legal(|s.inodes|, r) && (!OnPath(r, q) || ZoneAt(s, r) != 0) ensures ZoneAt(s2, r) == ZoneAt(s, r) {
      assert ZoneAt(s1, r) == ZoneAt(s, r);
    }
  }

  /** What bmap returns for block b of file n. */
  function BlockMap(s: Fs, n: nat, b: nat): nat
    requires Shape(s) && b < MAX_BLOCKS
  {
    ZoneAt(s, DataSlot(n, b))
  }

  /** What is on the disk: the first seven zones are in the inode, the next 512 in the block that its eighth
      names, and the others in the blocks named in the block that its ninth names, two bytes a zone with
      the low one first. */
  lemma OnDisk(s: Fs, n: nat, b: nat)
    requires WellFormed(s) && n < |s.inodes| && b < MAX_BLOCKS
    ensures var (zone, z) := (s.inodes[n].zone, BlockMap(s, n, b));
      && (b < 7 ==> z == zone[b])
      && (7 <= b < 519 ==>
            if zone[7] == 0 then z == 0
            else zone[7] < |s.blocks| && z == (s.blocks[zone[7]][2 * (b - 7)] as nat) + 256 * (s.blocks[zone[7]][2 * (b - 7) + 1] as nat))
      && (519 <= b ==>
            if zone[8] == 0 then z == 0
            else
              var (i, j) := ((b - 519) / 512, (b - 519) % 512);
              zone[8] < |s.blocks| &&
              var y: nat := (s.blocks[zone[8]][2 * i] as nat) + 256 * (s.blocks[zone[8]][2 * i + 1] as nat);
              if y == 0 then z == 0
              else y < |s.blocks| && z == (s.blocks[y][2 * j] as nat) + 256 * (s.blocks[y][2 * j + 1] as nat))
  {
    assert RootZone(s, n, 7) == ZoneAt(s, Root(n, 7)) && RootZone(s, n, 8) == ZoneAt(s, Root(n, 8));
    assert ZoneAt(s, Root(n, 7)) != 0 ==> Marked(s, ZoneAt(s, Root(n, 7)));
    assert ZoneAt(s, Root(n, 8)) != 0 ==> Marked(s, ZoneAt(s, Root(n, 8)));
    if b >= 519 {
      var i := (b - 519) / 512;
      assert ZoneAt(s, Mid(n, i)) == EntryOf(s, RootZone(s, n, 8), i);
      assert ZoneAt(s, Mid(n, i)) != 0 ==> Marked(s, ZoneAt(s, Mid(n, i)));
    }
  }

  /** create_block moves no mapping but the one asked for: a success maps it to the zone
      returned, a failure leaves every block of every file mapped as it was. */
  lemma CreateBlockMaps(s: Fs, n: nat, b: nat, m: nat, c: nat)
    requires WellFormed(s) && n < |s.inodes| && b < MAX_BLOCKS && m < |s.inodes| && c < MAX_BLOCKS
    ensures var (s', z) := CreateBlock(s, n, b);
      && WellFormed(s')
      && BlockMap(s', m, c) == (if m == n && c == b then z else BlockMap(s, m, c))
      && (BlockMap(s, n, b) != 0 ==> s' == s && z == BlockMap(s, n, b))
  {
    var q, r := DataSlot(n, b), DataSlot(m, c);
    DataSlotLegal(s, n, b);
    DataSlotLegal(s, m, c);
    CreateAtKeeps(s, q);
    if ZoneAt(s, q) != 0 { CreateAtAgain(s, q); }
    if q == r {
      DataSlotInjective(n, b, m, c);
    } else {
      assert !OnPath(r, q);
      assert ZoneAt(CreateAt(s, q).0, r) == ZoneAt(s, r);
    }
  }

  /** A place that is named already is found, not made. */
  lemma {:induction false} CreateAtAgain(s: Fs, q: Slot)
    requires Shape(s) && Legal(|s.inodes|, q) && ZoneAt(s, q) != 0
    ensures CreateAt(s, q) == (s, ZoneAt(s, q))
    decreases Level(q)
  {
    if !q.Root? { CreateAtAgain(s, Parent(q)); }
  }
}

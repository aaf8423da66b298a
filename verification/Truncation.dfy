/** What fs/truncate.c promises: every zone of the file, of all four kinds, goes back to the
    bitmap, no other zone does, and the file is empty afterwards. */
module Truncation {
  import opened ZoneTree
  import opened FileBytes

  /** r is q or lies below it. */
  predicate Below(q: Slot, r: Slot) { OnPath(q, r) }

  /** Zone z is named by q or by a place below q. */
  ghost predicate Under(s: Fs, q: Slot, z: nat)
    requires Shape(s)
  {
    z != 0 && exists r {:trigger ZoneAt(s, r)} :: Legal(|s.inodes|, r) && Below(q, r) && ZoneAt(s, r) == z
  }

  /** Zone z belongs to file n. */
  ghost predicate OwnedBy(s: Fs, n: nat, z: nat)
    requires Shape(s)
  {
    z != 0 && exists r {:trigger ZoneAt(s, r)} :: Legal(|s.inodes|, r) && r.n == n && ZoneAt(s, r) == z
  }

  function Emptied(nd: MInode): MInode {
    MInode([0, 0, 0, 0, 0, 0, 0, 0, 0], 0, nd.kind)
  }

  ghost predicate Truncated(s: Fs, s': Fs, n: nat)
    requires Shape(s) && n < |s.inodes|
  {
    && s'.blocks == s.blocks && s'.first == s.first && s'.nzones == s.nzones
    && s'.inodes == s.inodes[n := Emptied(s.inodes[n])]
    && |s'.zmap| == |s.zmap|
    && forall b | 0 <= b < |s.zmap| :: s'.zmap[b] == (s.zmap[b] && !OwnedBy(s, n, b + s.first - 1))
  }

  /** Afterwards the forest is well formed, file n maps nothing, every other mapping is what
      it was, and exactly the zones of file n have been given back. */
  lemma TruncateSpec(s: Fs, s': Fs, n: nat)
    requires WellFormed(s) && n < |s.inodes| && Truncated(s, s', n)
    ensures WellFormed(s') && |s'.inodes| == |s.inodes|
    ensures forall q {:trigger ZoneAt(s', q)} | Legal(|s.inodes|, q) ::
      ZoneAt(s', q) == if q.n == n then 0 else ZoneAt(s, q)
    ensures forall z | s.first <= z < s.nzones :: Marked(s', z) <==> Marked(s, z) && !OwnedBy(s, n, z)
    ensures forall z | OwnedBy(s, n, z) :: Marked(s, z) && !Marked(s', z)
  {
    assert Shape(s');
    forall q | Legal(|s.inodes|, q)
      ensures ZoneAt(s', q) == if q.n == n then 0 else ZoneAt(s, q)
    {
      assert RootZone(s', q.n, 7) == (if q.n == n then 0 else RootZone(s, q.n, 7));
      assert RootZone(s', q.n, 8) == (if q.n == n then 0 else RootZone(s, q.n, 8));
    }
    forall q | Legal(|s.inodes|, q) && q.n != n && ZoneAt(s, q) != 0 ensures !OwnedBy(s, n, ZoneAt(s, q)) {
    }
    forall r | Legal(|s.inodes|, r) && ZoneAt(s, r) != 0 ensures ZoneAt(s, r) != s.first - 1 {
      assert Marked(s, ZoneAt(s, r));
    }
  }

  /** The bytes of the truncated file are gone; those of every other file are not. */
  lemma TruncateContents(s: Fs, s': Fs, n: nat)
    requires WellFormed(s) && n < |s.inodes| && Truncated(s, s', n)
    ensures Shape(s') && Contents(s') == map x | x in Contents(s) :: if x.0 == n then 0 else Contents(s)[x]
    ensures s'.inodes[n].size == 0 && s'.inodes[n].kind == s.inodes[n].kind && forall m | 0 <= m < |s.inodes| && m != n :: s'.inodes[m] == s.inodes[m]
  {
    TruncateSpec(s, s', n);
    forall m, p | 0 <= m < |s.inodes| && 0 <= p < LIMIT
      ensures ByteAt(s', m, p) == if m == n then 0 else ByteAt(s, m, p)
    {
      DataSlotLegal(s, m, p / 1024);
    }
  }

  // ---------------------------------------------------------------- walking an indirect block

  /** Entry k of the block that the indirect place q names. */
  function ChildOf(q: Slot, k: nat): Slot
    requires IsIndirect(q)
  {
    match q
    case Root(n, f) => if f == 7 then Ind(n, k) else Mid(n, k)
    case Mid(n, i) => Leaf(n, i, k)
  }

  ghost predicate UnderFirst(s: Fs, q: Slot, i: nat, z: nat)
    requires Shape(s) && IsIndirect(q)
  {
    exists k: nat :: k < i && Under(s, ChildOf(q, k), z)
  }

  lemma UnderNext(s: Fs, q: Slot, i: nat, z: nat)
    requires Shape(s) && IsIndirect(q)
    ensures UnderFirst(s, q, i + 1, z) <==> UnderFirst(s, q, i, z) || Under(s, ChildOf(q, i), z)
  {
    if UnderFirst(s, q, i + 1, z) {
      var k: nat :| k < i + 1 && Under(s, ChildOf(q, k), z);
      assert k < i || k == i;
    }
  }

  lemma UnderSplit(s: Fs, q: Slot, z: nat)
    requires Shape(s) && IsIndirect(q) && Legal(|s.inodes|, q) && Under(s, q, z) && ZoneAt(s, q) != z
    ensures UnderFirst(s, q, PER_BLOCK, z)
  {
    var r :| Legal(|s.inodes|, r) && Below(q, r) && ZoneAt(s, r) == z;
    var k := if q.Root? && q.f == 8 then r.i else Index(r);
    assert Below(ChildOf(q, k), r) && Under(s, ChildOf(q, k), z);
  }

  lemma UnderJoin(s: Fs, q: Slot, z: nat)
    requires Shape(s) && IsIndirect(q) && Legal(|s.inodes|, q)
    requires UnderFirst(s, q, PER_BLOCK, z) || (z != 0 && ZoneAt(s, q) == z)
    ensures Under(s, q, z)
  {
    if UnderFirst(s, q, PER_BLOCK, z) {
      var k: nat :| k < PER_BLOCK && Under(s, ChildOf(q, k), z);
      var r :| Legal(|s.inodes|, r) && Below(ChildOf(q, k), r) && ZoneAt(s, r) == z;
      assert Below(q, r);
    }
  }

  lemma NothingUnder(s: Fs, q: Slot, z: nat)
    requires Shape(s) && Legal(|s.inodes|, q) && ZoneAt(s, q) == 0
    ensures !Under(s, q, z)
  {
  }

  lemma UnderLeaf(s: Fs, q: Slot, z: nat)
    requires Shape(s) && !IsIndirect(q) && Legal(|s.inodes|, q)
    ensures Under(s, q, z) <==> z != 0 && ZoneAt(s, q) == z
  {
  }

  /** A zone below entry i lies below no other entry, nor is it the block itself. */
  lemma UnderOnce(s: Fs, q: Slot, i: nat, r: Slot)
    requires WellFormed(s) && IsIndirect(q) && Legal(|s.inodes|, q) && i < PER_BLOCK
    requires Legal(|s.inodes|, r) && Below(ChildOf(q, i), r) && ZoneAt(s, r) != 0
    ensures !UnderFirst(s, q, i, ZoneAt(s, r)) && ZoneAt(s, r) != ZoneAt(s, q)
  {
    forall k: nat | k < i ensures !Under(s, ChildOf(q, k), ZoneAt(s, r)) {
      forall t | Legal(|s.inodes|, t) && Below(ChildOf(q, k), t) ensures ZoneAt(s, t) != ZoneAt(s, r) {
        assert t != r;
      }
    }
  }

  lemma BlockNotUnder(s: Fs, q: Slot)
    requires WellFormed(s) && IsIndirect(q) && Legal(|s.inodes|, q) && ZoneAt(s, q) != 0
    ensures !UnderFirst(s, q, PER_BLOCK, ZoneAt(s, q))
  {
    forall k: nat | k < PER_BLOCK ensures !Under(s, ChildOf(q, k), ZoneAt(s, q)) {
      forall t | Legal(|s.inodes|, t) && Below(ChildOf(q, k), t) ensures ZoneAt(s, t) != ZoneAt(s, q) {
        assert t != q;
      }
    }
  }

  /** The nine zone fields and what hangs below the last two are all a file owns. */
  ghost predicate UnderFields(s: Fs, n: nat, i: nat, z: nat)
    requires Shape(s)
  {
    exists f: nat :: f < i && f < 9 && Under(s, Root(n, f), z)
  }

  lemma FieldsNext(s: Fs, n: nat, i: nat, z: nat)
    requires Shape(s) && i < 9
    ensures UnderFields(s, n, i + 1, z) <==> UnderFields(s, n, i, z) || Under(s, Root(n, i), z)
  {
    if UnderFields(s, n, i + 1, z) {
      var f: nat :| f < i + 1 && f < 9 && Under(s, Root(n, f), z);
      assert f < i || f == i;
    }
  }

  lemma FieldsAll(s: Fs, n: nat, z: nat)
    requires Shape(s)
    ensures UnderFields(s, n, 9, z) <==> OwnedBy(s, n, z)
  {
    if OwnedBy(s, n, z) {
      var r :| Legal(|s.inodes|, r) && r.n == n && ZoneAt(s, r) == z;
      var f := if r.Root? then r.f else if r.Ind? then 7 else 8;
      assert Below(Root(n, f), r) && Under(s, Root(n, f), z);
    }
    if UnderFields(s, n, 9, z) {
      var f: nat :| f < 9 && Under(s, Root(n, f), z);
      var r :| Legal(|s.inodes|, r) && Below(Root(n, f), r) && ZoneAt(s, r) == z;
      assert r.n == n;
    }
  }

  lemma FieldsOnce(s: Fs, n: nat, i: nat, r: Slot)
    requires WellFormed(s) && i < 9 && Legal(|s.inodes|, r) && Below(Root(n, i), r) && ZoneAt(s, r) != 0
    ensures !UnderFields(s, n, i, ZoneAt(s, r))
  {
    forall f: nat | f < i ensures !Under(s, Root(n, f), ZoneAt(s, r)) {
      forall t | Legal(|s.inodes|, t) && Below(Root(n, f), t) ensures ZoneAt(s, t) != ZoneAt(s, r) {
        assert t != r;
      }
    }
  }

  // ---------------------------------------------------------------- bits

  function BitZone(s: Fs, b: nat): nat
    requires Shape(s)
  {
    b + s.first - 1
  }

  /** Every zone named by q or below it is marked in bitmap m. */
  ghost predicate MarkedIn(s: Fs, q: Slot, m: seq<bool>)
    requires Shape(s) && |m| == |s.zmap|
  {
    forall r {:trigger ZoneAt(s, r)} | Legal(|s.inodes|, r) && Below(q, r) && ZoneAt(s, r) != 0 ::
      s.first <= ZoneAt(s, r) < s.nzones && m[ZoneAt(s, r) - s.first + 1]
  }

  /** m' is m with the bits of the zones named by q or below it cleared, and no others. */
  ghost predicate Freed(s: Fs, q: Slot, m: seq<bool>, m': seq<bool>)
    requires Shape(s)
  {
    |m'| == |m| && forall b | 0 <= b < |m| :: m'[b] == (m[b] && !Under(s, q, BitZone(s, b)))
  }

  ghost predicate FreedFirst(s: Fs, q: Slot, i: nat, m: seq<bool>, m': seq<bool>)
    requires Shape(s) && IsIndirect(q)
  {
    |m'| == |m| && forall b | 0 <= b < |m| :: m'[b] == (m[b] && !UnderFirst(s, q, i, BitZone(s, b)))
  }

  lemma SelfMarked(s: Fs, q: Slot, m: seq<bool>)
    requires Shape(s) && |m| == |s.zmap| && MarkedIn(s, q, m) && Legal(|s.inodes|, q) && ZoneAt(s, q) != 0
    ensures s.first <= ZoneAt(s, q) < s.nzones && m[ZoneAt(s, q) - s.first + 1]
  {
    assert Below(q, q);
  }

  lemma ChildZone(s: Fs, q: Slot, i: nat)
    requires Shape(s) && IsIndirect(q) && Legal(|s.inodes|, q) && i < PER_BLOCK
    ensures Legal(|s.inodes|, ChildOf(q, i)) && ZoneAt(s, ChildOf(q, i)) == EntryOf(s, ZoneAt(s, q), i)
    ensures IsIndirect(ChildOf(q, i)) <==> q.Root? && q.f == 8
    ensures q.Root? && q.f == 8 ==> ChildOf(q, i).Mid?
  {
  }

  lemma FieldZone(s: Fs, n: nat, f: nat)
    requires Shape(s) && n < |s.inodes| && f < 9
    ensures ZoneAt(s, Root(n, f)) == s.inodes[n].zone[f]
  {
  }

  lemma FreedStart(s: Fs, q: Slot, m: seq<bool>)
    requires Shape(s) && IsIndirect(q)
    ensures FreedFirst(s, q, 0, m, m)
  {
  }

  lemma FreedNext(s: Fs, q: Slot, i: nat, m: seq<bool>, m1: seq<bool>, m2: seq<bool>)
    requires Shape(s) && IsIndirect(q) && FreedFirst(s, q, i, m, m1) && Freed(s, ChildOf(q, i), m1, m2)
    ensures FreedFirst(s, q, i + 1, m, m2)
  {
    forall b | 0 <= b < |m| ensures m2[b] == (m[b] && !UnderFirst(s, q, i + 1, BitZone(s, b))) {
      UnderNext(s, q, i, BitZone(s, b));
    }
  }

  /** The entries still to come are marked: the walk can never meet a cleared bit. */
  lemma NextMarked(s: Fs, q: Slot, i: nat, m: seq<bool>, m1: seq<bool>)
    requires WellFormed(s) && IsIndirect(q) && Legal(|s.inodes|, q) && i < PER_BLOCK && |m| == |s.zmap|
    requires MarkedIn(s, q, m) && FreedFirst(s, q, i, m, m1)
    ensures MarkedIn(s, ChildOf(q, i), m1)
  {
    forall r | Legal(|s.inodes|, r) && Below(ChildOf(q, i), r) && ZoneAt(s, r) != 0
      ensures s.first <= ZoneAt(s, r) < s.nzones && m1[ZoneAt(s, r) - s.first + 1]
    {
      UnderOnce(s, q, i, r);
      assert Below(q, r);
      assert BitZone(s, ZoneAt(s, r) - s.first + 1) == ZoneAt(s, r);
    }
  }

  lemma BlockMarked(s: Fs, q: Slot, m: seq<bool>, m1: seq<bool>)
    requires WellFormed(s) && IsIndirect(q) && Legal(|s.inodes|, q) && |m| == |s.zmap| && ZoneAt(s, q) != 0
    requires MarkedIn(s, q, m) && FreedFirst(s, q, PER_BLOCK, m, m1)
    ensures s.first <= ZoneAt(s, q) < s.nzones && m1[ZoneAt(s, q) - s.first + 1]
  {
    BlockNotUnder(s, q);
    assert Below(q, q) && BitZone(s, ZoneAt(s, q) - s.first + 1) == ZoneAt(s, q);
  }

  lemma FreedWhole(s: Fs, q: Slot, m: seq<bool>, m1: seq<bool>)
    requires Shape(s) && IsIndirect(q) && Legal(|s.inodes|, q) && FreedFirst(s, q, PER_BLOCK, m, m1)
    requires s.first <= ZoneAt(s, q) < s.nzones && ZoneAt(s, q) - s.first + 1 < |m|
    ensures Freed(s, q, m, m1[ZoneAt(s, q) - s.first + 1 := false])
  {
    forall b | 0 <= b < |m|
      ensures Under(s, q, BitZone(s, b)) <==> UnderFirst(s, q, PER_BLOCK, BitZone(s, b)) || ZoneAt(s, q) == BitZone(s, b)
    {
      if Under(s, q, BitZone(s, b)) && ZoneAt(s, q) != BitZone(s, b) { UnderSplit(s, q, BitZone(s, b)); }
      if UnderFirst(s, q, PER_BLOCK, BitZone(s, b)) || ZoneAt(s, q) == BitZone(s, b) { UnderJoin(s, q, BitZone(s, b)); }
    }
  }

  lemma FreedNothing(s: Fs, q: Slot, m: seq<bool>)
    requires Shape(s) && Legal(|s.inodes|, q) && ZoneAt(s, q) == 0
    ensures Freed(s, q, m, m)
  {
    forall b | 0 <= b < |m| ensures !Under(s, q, BitZone(s, b)) { NothingUnder(s, q, BitZone(s, b)); }
  }

  lemma FreedLeaf(s: Fs, q: Slot, m: seq<bool>)
    requires Shape(s) && !IsIndirect(q) && Legal(|s.inodes|, q) && s.first <= ZoneAt(s, q)
    requires ZoneAt(s, q) - s.first + 1 < |m|
    ensures Freed(s, q, m, m[ZoneAt(s, q) - s.first + 1 := false])
  {
    forall b | 0 <= b < |m| ensures Under(s, q, BitZone(s, b)) <==> ZoneAt(s, q) == BitZone(s, b) {
      UnderLeaf(s, q, BitZone(s, b));
    }
  }

  // the same for the nine fields of the inode

  ghost predicate FreedFields(s: Fs, n: nat, i: nat, m: seq<bool>, m': seq<bool>)
    requires Shape(s)
  {
    |m'| == |m| && forall b | 0 <= b < |m| :: m'[b] == (m[b] && !UnderFields(s, n, i, BitZone(s, b)))
  }

  lemma FieldsStart(s: Fs, n: nat)
    requires Shape(s)
    ensures FreedFields(s, n, 0, s.zmap, s.zmap)
  {
  }

  lemma FreedFieldsNext(s: Fs, n: nat, i: nat, m: seq<bool>, m1: seq<bool>, m2: seq<bool>)
    requires Shape(s) && i < 9 && FreedFields(s, n, i, m, m1) && Freed(s, Root(n, i), m1, m2)
    ensures FreedFields(s, n, i + 1, m, m2)
  {
    forall b | 0 <= b < |m| ensures m2[b] == (m[b] && !UnderFields(s, n, i + 1, BitZone(s, b))) {
      FieldsNext(s, n, i, BitZone(s, b));
    }
  }

  lemma FieldMarked(s: Fs, n: nat, i: nat, m1: seq<bool>)
    requires WellFormed(s) && n < |s.inodes| && i < 9 && FreedFields(s, n, i, s.zmap, m1)
    ensures MarkedIn(s, Root(n, i), m1)
  {
    forall r | Legal(|s.inodes|, r) && Below(Root(n, i), r) && ZoneAt(s, r) != 0
      ensures s.first <= ZoneAt(s, r) < s.nzones && m1[ZoneAt(s, r) - s.first + 1]
    {
      FieldsOnce(s, n, i, r);
      assert Marked(s, ZoneAt(s, r)) && BitZone(s, ZoneAt(s, r) - s.first + 1) == ZoneAt(s, r);
    }
  }

  lemma FreedFile(s: Fs, n: nat, m: seq<bool>)
    requires Shape(s) && n < |s.inodes| && FreedFields(s, n, 9, s.zmap, m)
    ensures Truncated(s, Fs(m, s.blocks, s.inodes[n := Emptied(s.inodes[n])], s.first, s.nzones), n)
  {
    forall b | 0 <= b < |m| ensures m[b] == (s.zmap[b] && !OwnedBy(s, n, b + s.first - 1)) {
      FieldsAll(s, n, BitZone(s, b));
    }
  }
}

/** fs/bitmap.c, fs/inode.c, fs/file_dev.c and fs/truncate.c as they run, on the bitmap,
    blocks and inode table of one device held in arrays and updated in place. The buffer
    cache in between is transparent (see CacheProtocol), so a block is its latest bytes. */
module FileSystem {
  import opened ZoneTree
  import opened FileBytes
  import opened Truncation

  class Device {
    const zmap: array<bool>
    const blocks: array<seq<byte>>
    const inodes: array<MInode>
    const first: nat
    const nzones: nat

    ghost function Value(): Fs
      reads zmap, blocks, inodes
    {
      Fs(zmap[..], blocks[..], inodes[..], first, nzones)
    }

    /** read_super (fs/super.c, lines 142-162): bitmap, blocks and inodes are what the disk has, with the
        bit that stands for no zone set. EmptyForest is the disk without files. */
    constructor (disk: Fs)
      requires Shape(disk) && WellFormed(disk.(zmap := disk.zmap[0 := true]))
      ensures WellFormed(Value()) && Value() == disk.(zmap := disk.zmap[0 := true])
      ensures fresh(zmap) && fresh(blocks) && fresh(inodes)
    {
      zmap := new bool[|disk.zmap|](i requires 0 <= i < |disk.zmap| => disk.zmap[i]);
      blocks := new seq<byte>[|disk.blocks|](i requires 0 <= i < |disk.blocks| => disk.blocks[i]);
      inodes := new MInode[|disk.inodes|](i requires 0 <= i < |disk.inodes| => disk.inodes[i]);
      first, nzones := disk.first, disk.nzones;
      new;
      zmap[0] := true;
      assert blocks[..] == disk.blocks && inodes[..] == disk.inodes && zmap[..] == disk.zmap[0 := true];
    }

    // ------------------------------------------------------------ fs/bitmap.c

    /** find_first_zero on the bitmap block that starts at bit `base`: word by word, then the
        lowest clear bit of the word. */
    method FindFirstZero(base: nat) returns (j: nat)
      requires base + 8192 <= zmap.Length
      ensures j <= 8192 && (j < 8192 ==> !zmap[base + j])
      ensures forall k | base <= k < base + j :: zmap[k]
    {
      j := 0;
      while j < 8192
        invariant j % 32 == 0 && j <= 8192
        invariant forall k | base <= k < base + j :: zmap[k]
      {
        var bit := 0;
        while bit < 32 && zmap[base + j + bit]
          invariant 0 <= bit <= 32
          invariant forall k | base <= k < base + j + bit :: zmap[k]
        {
          bit := bit + 1;
        }
        if bit < 32 { return j + bit; }
        j := j + 32;
      }
    }

    /** new_block */
    method NewZone() returns (z: nat)
      requires Shape(Value())
      modifies zmap, blocks
      ensures Shape(Value()) && (Value(), z) == NewBlock(old(Value()))
      ensures old(zmap[0]) ==> (z == 0 <==> forall b | 1 <= b <= nzones - first :: old(zmap[b]))
      ensures z != 0 ==> z < nzones && (old(zmap[0]) ==> first <= z && !old(zmap[z - first + 1]))
    {
      hide FirstZero;
      ghost var s := Value();
      if zmap[0] { NewBlockFinds(s); }
      var maps := zmap.Length / 8192;
      var i, j := 0, 8192;
      while i < maps
        invariant 0 <= i <= maps && j == 8192
        invariant Value() == s && forall k | 0 <= k < i * 8192 :: s.zmap[k]
      {
        j := FindFirstZero(i * 8192);
        assert forall k | i * 8192 <= k < i * 8192 + j :: s.zmap[k] == zmap[k];
        if j < 8192 { break; }
        i := i + 1;
      }
      assert Value() == s;
      if j == 8192 {
        assert maps * 8192 == zmap.Length;
        FirstZeroIs(s.zmap, zmap.Length);
        return 0;
      }
      var bit := i * 8192 + j;
      FirstZeroIs(s.zmap, bit);
      zmap[bit] := true;
      z := bit + first - 1;
      assert Value() == Fs(s.zmap[bit := true], s.blocks, s.inodes, first, nzones) && FirstZero(s.zmap) == bit;
      if z >= nzones { return 0; }
      blocks[z] := ZeroBlock();
    }

    /** free_block; the panics are excluded by the precondition. */
    method FreeZone(z: nat)
      requires Shape(Value()) && Marked(Value(), z)
      modifies zmap
      ensures Shape(Value()) && zmap[..] == old(zmap[..])[z - first + 1 := false]
    {
      zmap[z - (first - 1)] := false;
    }

    // ------------------------------------------------------------ _bmap

    method ClaimField(n: nat, f: nat) returns (z: nat)
      requires WellFormed(Value()) && n < inodes.Length && f < 9
      modifies zmap, blocks, inodes
      ensures WellFormed(Value()) && (Value(), z) == Claim(old(Value()), Root(n, f)) && ZoneAt(Value(), Root(n, f)) == z
    {
      ClaimKeeps(Value(), Root(n, f));
      if inodes[n].zone[f] == 0 {
        z := NewZone();
        if z != 0 {
          inodes[n] := MInode(inodes[n].zone[f := z], inodes[n].size, inodes[n].kind);
        }
      }
      return inodes[n].zone[f];
    }

    /** The create step on entry i of the indirect block of zone pz, which place p names. */
    method ClaimEntry(ghost q: Slot, pz: nat, i: nat) returns (z: nat)
      requires WellFormed(Value()) && Legal(inodes.Length, q) && !q.Root?
      requires pz == ZoneAt(Value(), Parent(q)) != 0 && i == Index(q)
      modifies zmap, blocks
      ensures WellFormed(Value()) && (Value(), z) == Claim(old(Value()), q) && ZoneAt(Value(), q) == z
    {
      ClaimKeeps(Value(), q);
      NewBlockKeeps(Value());
      assert Marked(Value(), pz);
      z := Short(blocks[pz], i);
      if z == 0 {
        z := NewZone();
        if z != 0 { blocks[pz] := PutShort(blocks[pz], i, z); }
      }
    }

    lemma CreateBlockUnfold(s: Fs, n: nat, b: nat)
      requires Shape(s) && n < |s.inodes| && b < MAX_BLOCKS
      ensures b < 7 ==> DataSlot(n, b) == Root(n, b) && CreateBlock(s, n, b) == Claim(s, Root(n, b))
      ensures 7 <= b < 519 ==>
        var (s1, z) := Claim(s, Root(n, 7));
        && DataSlot(n, b) == Ind(n, b - 7)
        && CreateBlock(s, n, b) == if z == 0 then (s1, 0) else Claim(s1, Ind(n, b - 7))
      ensures 519 <= b ==>
        var (i, j) := ((b - 519) / 512, (b - 519) % 512);
        var (s1, z) := Claim(s, Root(n, 8));
        && DataSlot(n, b) == Leaf(n, i, j)
        && CreateBlock(s, n, b) ==
             if z == 0 then (s1, 0)
             else
               var (s2, y) := Claim(s1, Mid(n, i));
               if y == 0 then (s2, 0) else Claim(s2, Leaf(n, i, j))
    {
      hide Claim;
      if b >= 519 {
        var (s1, z) := Claim(s, Root(n, 8));
        assert CreateAt(s, Root(n, 8)) == (s1, z);
        assert CreateAt(s, Mid(n, (b - 519) / 512)) == if z == 0 then (s1, 0) else Claim(s1, Mid(n, (b - 519) / 512));
      } else if b >= 7 {
        assert CreateAt(s, Root(n, 7)) == Claim(s, Root(n, 7));
      }
    }

    lemma CreateBlockKeeps(s: Fs, n: nat, b: nat)
      requires WellFormed(s) && n < |s.inodes| && b < MAX_BLOCKS
      ensures var (s', z) := CreateBlock(s, n, b);
        WellFormed(s') && ZoneAt(s', DataSlot(n, b)) == z
    {
      DataSlotLegal(s, n, b);
      CreateAtKeeps(s, DataSlot(n, b));
    }

    /** _bmap with create set. */
    method CreateZone(n: nat, b: nat) returns (z: nat)
      requires WellFormed(Value()) && n < inodes.Length && b < MAX_BLOCKS
      modifies zmap, blocks, inodes
      ensures WellFormed(Value()) && (Value(), z) == CreateBlock(old(Value()), n, b)
      ensures ZoneAt(Value(), DataSlot(n, b)) == z
    {
      hide Claim, CreateAt, CreateBlock, ZonesMarked, ZonesDistinct, ZoneAt, DataSlot;
      CreateBlockKeeps(Value(), n, b);
      CreateBlockUnfold(Value(), n, b);
      if b < 7 {
        z := ClaimField(n, b);
        return;
      }
      var k := b - 7;
      if k < 512 {
        var ind := ClaimField(n, 7);
        if ind == 0 { return 0; }
        z := ClaimEntry(Ind(n, k), ind, k);
        return;
      }
      k := k - 512;
      var dind := ClaimField(n, 8);
      if dind == 0 { return 0; }
      var mid := ClaimEntry(Mid(n, k / 512), dind, k / 512);
      if mid == 0 { return 0; }
      z := ClaimEntry(Leaf(n, k / 512, k % 512), mid, k % 512);
    }

    /** _bmap with create clear. */
    method Bmap(n: nat, b: nat) returns (z: nat)
      requires WellFormed(Value()) && n < inodes.Length && b < MAX_BLOCKS
      ensures z == ZoneAt(Value(), DataSlot(n, b))
    {
      if b < 7 { return inodes[n].zone[b]; }
      var k := b - 7;
      if k < 512 {
        if inodes[n].zone[7] == 0 { return 0; }
        assert Marked(Value(), ZoneAt(Value(), Root(n, 7)));
        return Short(blocks[inodes[n].zone[7]], k);
      }
      k := k - 512;
      if inodes[n].zone[8] == 0 { return 0; }
      assert Marked(Value(), ZoneAt(Value(), Root(n, 8)));
      var i := Short(blocks[inodes[n].zone[8]], k / 512);
      if i == 0 { return 0; }
      assert Marked(Value(), ZoneAt(Value(), Mid(n, k / 512)));
      return Short(blocks[i], k % 512);
    }

    // ------------------------------------------------------------ fs/file_dev.c

    /** The copy loop of one chunk: bytes land one at a time. */
    method StoreBytes(z: nat, c: nat, bytes: seq<byte>)
      requires Shape(Value()) && z < blocks.Length && c + |bytes| <= BLOCK_SIZE
      modifies blocks
      ensures Shape(Value()) && Value() == PutBytes(old(Value()), z, c, bytes)
    {
      ghost var was := blocks[z];
      assert was[..c] + bytes[..0] + was[c..] == was;
      var i := 0;
      while i < |bytes|
        invariant 0 <= i <= |bytes|
        invariant blocks[..] == old(blocks[..])[z := was[..c] + bytes[..i] + was[c + i..]]
      {
        blocks[z] := blocks[z][c + i := bytes[i]];
        assert was[..c] + bytes[..i + 1] + was[c + i + 1..] == (was[..c] + bytes[..i] + was[c + i..])[c + i := bytes[i]];
        i := i + 1;
      }
      assert bytes[..i] == bytes;
    }

    method StoreChunk(n: nat, pos: nat, z: nat, buf: seq<byte>)
      requires Shape(Value()) && n < inodes.Length && z < blocks.Length
      modifies blocks, inodes
      ensures Shape(Value()) && Value() == WriteChunk(old(Value()), n, pos, z, buf)
    {
      var c := Chunk(pos, |buf|);
      if pos + c > inodes[n].size {
        inodes[n] := MInode(inodes[n].zone, pos + c, inodes[n].kind);
      }
      StoreBytes(z, pos % 1024, buf[..c]);
    }

    /** file_write: returns the byte count or -1, and the new file position. */
    method WriteFile(n: nat, append: bool, fpos: nat, buf: seq<byte>) returns (ret: int, newpos: nat)
      requires WellFormed(Value()) && n < inodes.Length
      requires (if append then inodes[n].size else fpos) + |buf| <= LIMIT
      modifies zmap, blocks, inodes
      ensures var start := if append then old(inodes[n].size) else fpos;
        var (s', k) := FileWrite(old(Value()), n, start, buf);
        && Value() == s' && ret == (if k == 0 then -1 else k) && newpos == (if append then fpos else start + k)
      ensures WroteFile(old(Value()), Value(), n, if append then old(inodes[n].size) else fpos, buf, if ret < 0 then 0 else ret)
      ensures |buf| > 0 && ret < |buf| ==> forall b | 1 <= b <= nzones - first :: zmap[b]
      ensures var end := (if append then old(inodes[n].size) else fpos) + ret;
        inodes[n].size == if ret > 0 && end > old(inodes[n].size) then end else old(inodes[n].size)
    {
      hide FileWrite, CreateBlock, WriteChunk, Contents, ZonesMarked, ZonesDistinct, ZoneAt, DataSlot, Sized, Put, NoRoom;
      ghost var s := Value();
      var pos := if append then inodes[n].size else fpos;
      ghost var start := pos;
      FileWriteSpec(s, n, start, buf);
      var i := 0;
      while i < |buf|
        invariant 0 <= i <= |buf| && pos == start + i && start + |buf| <= LIMIT
        invariant WellFormed(Value()) && |s.inodes| == inodes.Length
        invariant FileWrite(s, n, start, buf) ==
          (FileWrite(Value(), n, pos, buf[i..]).0, i + FileWrite(Value(), n, pos, buf[i..]).1)
      {
        FileWriteUnfold(Value(), n, pos, buf[i..]);
        ghost var s0 := Value();
        var block := CreateZone(n, pos / 1024);
        if block == 0 {
          assert FileWrite(s, n, start, buf) == (Value(), i);
          break;
        }
        ghost var s1 := Value();
        FirstChunk(s0, s1, n, pos, block, buf[i..]);
        StoreChunk(n, pos, block, buf[i..]);
        var c := Chunk(pos, |buf| - i);
        assert buf[i..][c..] == buf[i + c..];
        pos := pos + c;
        i := i + c;
      }
      FileWriteUnfold(Value(), n, pos, buf[i..]);
      SizedAt(s, Value(), n, start, i);
      if i < |buf| { NoBitClear(Value()); }
      ret := if i == 0 then -1 else i;
      newpos := if append then fpos else pos;
    }

    function Zeros(k: nat): (z: seq<byte>)
      ensures |z| == k && forall i | 0 <= i < k :: z[i] == 0
    {
      seq<byte>(k, _ => 0)
    }

    lemma ChunkBytes(s: Fs, n: nat, pos: nat, z: nat, c: nat)
      requires WellFormed(s) && n < |s.inodes| && pos + c <= LIMIT && pos < LIMIT && pos % 1024 + c <= BLOCK_SIZE
      requires z == ZoneAt(s, DataSlot(n, pos / 1024))
      ensures z < |s.blocks|
      ensures forall p | pos <= p < pos + c ::
        ByteAt(s, n, p) == if z != 0 then s.blocks[z][pos % 1024 + (p - pos)] else 0
    {
      DataSlotLegal(s, n, pos / 1024);
      assert z != 0 ==> Marked(s, z);
      forall p | pos <= p < pos + c
        ensures ByteAt(s, n, p) == if z != 0 then s.blocks[z][pos % 1024 + (p - pos)] else 0
      {
        assert p / 1024 == pos / 1024 && p % 1024 == pos % 1024 + (p - pos);
      }
    }

    /** file_read: block by block, zeros where a block is not there. */
    method ReadFile(n: nat, fpos: nat, count: nat) returns (out: seq<byte>, newpos: nat)
      requires WellFormed(Value()) && n < inodes.Length && fpos + count <= LIMIT
      ensures out == Slice(Contents(Value()), n, fpos, count) && newpos == fpos + count
    {
      hide ZonesMarked, ZonesDistinct, ZoneAt, DataSlot, ByteAt;
      out, newpos := [], fpos;
      var left := count;
      while left > 0
        invariant 0 <= left <= count && newpos == fpos + (count - left) && |out| == count - left
        invariant forall p | fpos <= p < newpos :: ByteAt(Value(), n, p) == out[p - fpos]
      {
        var nr := Bmap(n, newpos / 1024);
        var chars := Chunk(newpos, left);
        ChunkBytes(Value(), n, newpos, nr, chars);
        var piece := if nr != 0 then blocks[nr][newpos % 1024..newpos % 1024 + chars] else Zeros(chars);
        out := out + piece;
        newpos := newpos + chars;
        left := left - chars;
      }
    }

    // ------------------------------------------------------------ fs/truncate.c

    /** The blocks and the superblock are those of the state s the walk began in. */
    ghost predicate From(s: Fs)
      reads zmap, blocks, inodes
    {
      && Shape(Value()) && WellFormed(s) && blocks[..] == s.blocks && first == s.first && nzones == s.nzones
      && inodes.Length == |s.inodes| && zmap.Length == |s.zmap|
    }

    method FreePlace(ghost s: Fs, ghost q: Slot, z: nat)
      requires From(s) && Legal(|s.inodes|, q) && !IsIndirect(q) && z == ZoneAt(s, q) && MarkedIn(s, q, zmap[..])
      modifies zmap
      ensures From(s) && Freed(s, q, old(zmap[..]), zmap[..])
    {
      hide Freed, FreedFirst, FreedFields, Under, UnderFirst, UnderFields, MarkedIn, ZonesMarked, ZonesDistinct, ZoneAt, ChildOf;
      if z == 0 {
        FreedNothing(s, q, zmap[..]);
      } else {
        SelfMarked(s, q, zmap[..]);
        FreedLeaf(s, q, zmap[..]);
        FreeZone(z);
      }
    }

    /** free_ind */
    method FreeInd(ghost s: Fs, ghost q: Slot, block: nat)
      requires From(s) && Legal(|s.inodes|, q) && (q.Mid? || (q.Root? && q.f == 7))
      requires block == ZoneAt(s, q) && MarkedIn(s, q, zmap[..])
      modifies zmap
      ensures From(s) && Freed(s, q, old(zmap[..]), zmap[..])
    {
      hide Freed, FreedFirst, FreedFields, Under, UnderFirst, UnderFields, MarkedIn, ZonesMarked, ZonesDistinct, ZoneAt, ChildOf;
      if block == 0 {
        FreedNothing(s, q, zmap[..]);
        return;
      }
      FreedStart(s, q, zmap[..]);
      var i := 0;
      while i < 512
        invariant 0 <= i <= 512 && From(s) && FreedFirst(s, q, i, old(zmap[..]), zmap[..])
      {
        NextMarked(s, q, i, old(zmap[..]), zmap[..]);
        ChildZone(s, q, i);
        ghost var m := zmap[..];
        FreePlace(s, ChildOf(q, i), EntryAt(block, i));
        FreedNext(s, q, i, old(zmap[..]), m, zmap[..]);
        i := i + 1;
      }
      BlockMarked(s, q, old(zmap[..]), zmap[..]);
      FreedWhole(s, q, old(zmap[..]), zmap[..]);
      FreeZone(block);
    }

    /** free_dind */
    method FreeDind(ghost s: Fs, n: nat, block: nat)
      requires From(s) && n < inodes.Length && block == ZoneAt(s, Root(n, 8)) && MarkedIn(s, Root(n, 8), zmap[..])
      modifies zmap
      ensures From(s) && Freed(s, Root(n, 8), old(zmap[..]), zmap[..])
    {
      hide Freed, FreedFirst, FreedFields, Under, UnderFirst, UnderFields, MarkedIn, ZonesMarked, ZonesDistinct, ZoneAt, ChildOf;
      if block == 0 {
        FreedNothing(s, Root(n, 8), zmap[..]);
        return;
      }
      FreeMids(s, n, block);
      BlockMarked(s, Root(n, 8), old(zmap[..]), zmap[..]);
      FreedWhole(s, Root(n, 8), old(zmap[..]), zmap[..]);
      FreeZone(block);
    }

    method FreeMids(ghost s: Fs, n: nat, block: nat)
      requires From(s) && n < inodes.Length && block == ZoneAt(s, Root(n, 8)) && MarkedIn(s, Root(n, 8), zmap[..])
      modifies zmap
      ensures From(s) && FreedFirst(s, Root(n, 8), 512, old(zmap[..]), zmap[..])
    {
      hide Freed, FreedFirst, FreedFields, Under, UnderFirst, UnderFields, MarkedIn, ZonesMarked, ZonesDistinct, ZoneAt, ChildOf;
      ghost var q := Root(n, 8);
      FreedStart(s, q, zmap[..]);
      var i := 0;
      while i < 512
        invariant 0 <= i <= 512 && From(s) && FreedFirst(s, q, i, old(zmap[..]), zmap[..])
      {
        NextMarked(s, q, i, old(zmap[..]), zmap[..]);
        ChildZone(s, q, i);
        ghost var m := zmap[..];
        FreeInd(s, ChildOf(q, i), EntryAt(block, i));
        FreedNext(s, q, i, old(zmap[..]), m, zmap[..]);
        i := i + 1;
      }
    }

    function EntryAt(block: nat, i: nat): (z: nat)
      requires Shape(Value()) && i < PER_BLOCK
      reads zmap, blocks, inodes
      ensures z == EntryOf(Value(), block, i)
    {
      if 0 < block < blocks.Length then Short(blocks[block], i) else 0
    }

    /** truncate */
    method Truncate(n: nat)
      requires WellFormed(Value()) && n < inodes.Length
      modifies zmap, inodes
      ensures inodes[n].kind.Other? ==> Value() == old(Value())
      ensures !old(inodes[n]).kind.Other? ==> Truncated(old(Value()), Value(), n)
    {
      hide Freed, FreedFirst, FreedFields, Under, UnderFirst, UnderFields, MarkedIn, ZonesMarked, ZonesDistinct, ZoneAt, ChildOf;
      if inodes[n].kind.Other? { return; }
      ghost var s := Value();
      FieldsStart(s, n);
      var kind := inodes[n].kind;
      var i := 0;
      while i < 7
        invariant 0 <= i <= 7 && From(s) && FreedFields(s, n, i, s.zmap, zmap[..])
        invariant |inodes[n].zone| == 9 && inodes[n].kind == s.inodes[n].kind
        invariant inodes[..] == s.inodes[n := inodes[n]]
        invariant forall k | i <= k < 9 :: inodes[n].zone[k] == s.inodes[n].zone[k]
        invariant forall k | 0 <= k < i :: inodes[n].zone[k] == 0
      {
        FieldMarked(s, n, i, zmap[..]);
        FieldZone(s, n, i);
        ghost var m := zmap[..];
        FreePlace(s, Root(n, i), inodes[n].zone[i]);
        FreedFieldsNext(s, n, i, s.zmap, m, zmap[..]);
        if inodes[n].zone[i] != 0 {
          inodes[n] := MInode(inodes[n].zone[i := 0], inodes[n].size, inodes[n].kind);
        }
        i := i + 1;
      }
      FieldMarked(s, n, 7, zmap[..]);
      FieldZone(s, n, 7);
      ghost var m7 := zmap[..];
      FreeInd(s, Root(n, 7), inodes[n].zone[7]);
      FreedFieldsNext(s, n, 7, s.zmap, m7, zmap[..]);
      FieldMarked(s, n, 8, zmap[..]);
      FieldZone(s, n, 8);
      ghost var m8 := zmap[..];
      FreeDind(s, n, inodes[n].zone[8]);
      FreedFieldsNext(s, n, 8, s.zmap, m8, zmap[..]);
      inodes[n] := MInode(inodes[n].zone[7 := 0][8 := 0], 0, inodes[n].kind);
      assert inodes[n] == Emptied(s.inodes[n]);
      FreedFile(s, n, zmap[..]);
    }
  }
}

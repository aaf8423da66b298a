/** file_read and file_write on values: a file is a sparse array of bytes, where a hole
    reads as zero, and writing is assignment to that array. */
module FileBytes {
  import opened ZoneTree

  const LIMIT: nat := 268966912     // MAX_BLOCKS * BLOCK_SIZE

  /** Byte p of file n. */
  function ByteAt(s: Fs, n: nat, p: nat): byte
    requires Shape(s) && p < LIMIT
  {
    var z := ZoneAt(s, DataSlot(n, p / 1024));
    if 0 < z < |s.blocks| then s.blocks[z][p % 1024] else 0
  }

  /** The abstract device: the byte of each file n at each position p, as (n, p). */
  type Bytes = map<(nat, nat), byte>

  ghost function Positions(k: nat): (ps: set<(nat, nat)>)
    ensures forall x: (nat, nat) :: x in ps <==> x.0 < k && x.1 < LIMIT
  {
    set n: nat, p: nat | n < k && p < LIMIT :: (n, p)
  }

  ghost function Contents(s: Fs): (b: Bytes)
    requires Shape(s)
  {
    map x | x in Positions(|s.inodes|) :: ByteAt(s, x.0, x.1)
  }

  ghost function Put(b: Bytes, n: nat, pos: nat, buf: seq<byte>): Bytes {
    map x | x in b :: if x.0 == n && pos <= x.1 < pos + |buf| then buf[x.1 - pos] else b[x]
  }

  lemma PutThenPut(b: Bytes, n: nat, pos: nat, buf: seq<byte>, c: nat, k: nat)
    requires c + k <= |buf|
    ensures Put(Put(b, n, pos, buf[..c]), n, pos + c, buf[c..][..k]) == Put(b, n, pos, buf[..c + k])
  {
  }

  lemma PutNothing(b: Bytes, n: nat, pos: nat)
    ensures Put(b, n, pos, []) == b
  {
  }

  // ---------------------------------------------------------------- steps that change no byte

  /** Growing the forest changes no byte of any file: fresh zones read as the holes did. */
  lemma GrowsSameContents(s: Fs, s': Fs, q: Slot)
    requires WellFormed(s) && WellFormed(s') && Grows(s, s', q)
    ensures Contents(s') == Contents(s)
  {
    forall n, p | 0 <= n < |s.inodes| && 0 <= p < LIMIT ensures ByteAt(s', n, p) == ByteAt(s, n, p) {
      var d := DataSlot(n, p / 1024);
      DataSlotLegal(s, n, p / 1024);
      assert ZoneAt(s, d) != 0 ==> Marked(s, ZoneAt(s, d)) && ZoneAt(s', d) == ZoneAt(s, d);
      assert ZoneAt(s', d) != 0 ==> Marked(s', ZoneAt(s', d));
    }
  }

  function Extend(s: Fs, n: nat, end: nat): (s': Fs)
    requires Shape(s) && n < |s.inodes|
    ensures Shape(s') && |s'.inodes| == |s.inodes| && s'.blocks == s.blocks
  {
    var nd := s.inodes[n];
    if end > nd.size then
      Fs(s.zmap, s.blocks, s.inodes[n := MInode(nd.zone, end, nd.kind)], s.first, s.nzones)
    else s
  }

  lemma SameZones(s: Fs, s': Fs, q: Slot)
    requires Shape(s) && Shape(s') && s'.blocks == s.blocks && |s'.inodes| == |s.inodes|
    requires forall m | 0 <= m < |s.inodes| :: s'.inodes[m].zone == s.inodes[m].zone
    ensures ZoneAt(s', q) == ZoneAt(s, q)
  {
  }

  lemma ExtendKeeps(s: Fs, n: nat, end: nat)
    requires WellFormed(s) && n < |s.inodes|
    ensures var s' := Extend(s, n, end);
      && WellFormed(s') && Contents(s') == Contents(s)
      && (forall q {:trigger ZoneAt(s', q)} | Legal(|s.inodes|, q) :: ZoneAt(s', q) == ZoneAt(s, q))
  {
    var s' := Extend(s, n, end);
    forall q | Legal(|s.inodes|, q) ensures ZoneAt(s', q) == ZoneAt(s, q) { SameZones(s, s', q); }
    MoreMarks(s, s');
    forall m, p | 0 <= m < |s.inodes| && 0 <= p < LIMIT ensures ByteAt(s', m, p) == ByteAt(s, m, p) {
      DataSlotLegal(s, m, p / 1024);
    }
  }

  // ---------------------------------------------------------------- a chunk

  function PutBytes(s: Fs, z: nat, c: nat, bytes: seq<byte>): (s': Fs)
    requires Shape(s) && z < |s.blocks| && c + |bytes| <= BLOCK_SIZE
    ensures Shape(s') && s'.inodes == s.inodes && |s'.blocks| == |s.blocks|
  {
    Fs(s.zmap, s.blocks[z := s.blocks[z][..c] + bytes + s.blocks[z][c + |bytes|..]], s.inodes, s.first, s.nzones)
  }

  lemma {:induction false} DataWriteMovesNothing(s: Fs, s': Fs, d: Slot, q: Slot)
    requires WellFormed(s) && Shape(s') && s'.inodes == s.inodes && |s'.blocks| == |s.blocks|
    requires Legal(|s.inodes|, d) && !IsIndirect(d) && ZoneAt(s, d) != 0
    requires forall z | 0 <= z < |s.blocks| && z != ZoneAt(s, d) :: s'.blocks[z] == s.blocks[z]
    requires Legal(|s.inodes|, q)
    ensures ZoneAt(s', q) == ZoneAt(s, q)
    decreases Level(q)
  {
    if !q.Root? {
      DataWriteMovesNothing(s, s', d, Parent(q));
      assert ZoneAt(s, Parent(q)) != ZoneAt(s, d);
    }
  }

  lemma ByteMoved(s: Fs, s': Fs, n: nat, pos: nat, z: nat, bytes: seq<byte>, m: nat, p: nat)
    requires WellFormed(s) && n < |s.inodes| && m < |s.inodes| && p < LIMIT && pos < LIMIT
    requires pos % 1024 + |bytes| <= BLOCK_SIZE
    requires z == ZoneAt(s, DataSlot(n, pos / 1024)) != 0 && z < |s.blocks| && s' == PutBytes(s, z, pos % 1024, bytes)
    requires forall q {:trigger ZoneAt(s', q)} | Legal(|s.inodes|, q) :: ZoneAt(s', q) == ZoneAt(s, q)
    ensures ByteAt(s', m, p) == if m == n && pos <= p < pos + |bytes| then bytes[p - pos] else ByteAt(s, m, p)
  {
    var d, e := DataSlot(n, pos / 1024), DataSlot(m, p / 1024);
    DataSlotLegal(s, n, pos / 1024);
    DataSlotLegal(s, m, p / 1024);
    assert ZoneAt(s', e) == ZoneAt(s, e);
    assert pos <= p < pos + |bytes| ==> p / 1024 == pos / 1024;
    if ZoneAt(s, e) == z {
      assert e == d;
      DataSlotInjective(m, p / 1024, n, pos / 1024);
    }
  }

  lemma PutBytesSpec(s: Fs, n: nat, pos: nat, z: nat, bytes: seq<byte>)
    requires WellFormed(s) && n < |s.inodes| && pos + |bytes| <= LIMIT && pos < LIMIT
    requires pos % 1024 + |bytes| <= BLOCK_SIZE
    requires z == ZoneAt(s, DataSlot(n, pos / 1024)) != 0 && z < |s.blocks|
    ensures WellFormed(PutBytes(s, z, pos % 1024, bytes))
    ensures Contents(PutBytes(s, z, pos % 1024, bytes)) == Put(Contents(s), n, pos, bytes)
  {
    var d := DataSlot(n, pos / 1024);
    DataSlotLegal(s, n, pos / 1024);
    var s' := PutBytes(s, z, pos % 1024, bytes);
    forall q | Legal(|s.inodes|, q) ensures ZoneAt(s', q) == ZoneAt(s, q) { DataWriteMovesNothing(s, s', d, q); }
    MoreMarks(s, s');
    forall m, p | 0 <= m < |s.inodes| && 0 <= p < LIMIT
      ensures ByteAt(s', m, p) == if m == n && pos <= p < pos + |bytes| then bytes[p - pos] else ByteAt(s, m, p)
    {
      ByteMoved(s, s', n, pos, z, bytes, m, p);
    }
  }

  function Chunk(pos: nat, left: nat): (c: nat)
    ensures c <= left && (left > 0 ==> c > 0) && pos % 1024 + c <= BLOCK_SIZE
  {
    var c := BLOCK_SIZE - pos % 1024;
    if c > left then left else c
  }

  /** One round of the loop of file_write: the size is raised, then the bytes are stored. */
  function WriteChunk(s: Fs, n: nat, pos: nat, z: nat, buf: seq<byte>): (s': Fs)
    requires Shape(s) && n < |s.inodes| && z < |s.blocks|
    ensures Shape(s') && |s'.inodes| == |s.inodes|
  {
    var c := Chunk(pos, |buf|);
    PutBytes(Extend(s, n, pos + c), z, pos % 1024, buf[..c])
  }

  lemma InRange(s: Fs, pos: nat)
    requires WellFormed(s)
    ensures Shape(s) && (pos < LIMIT ==> pos / 1024 < MAX_BLOCKS)
  {
  }

  lemma WriteChunkUnfold(s: Fs, n: nat, pos: nat, z: nat, buf: seq<byte>)
    requires Shape(s) && n < |s.inodes| && z < |s.blocks|
    ensures WriteChunk(s, n, pos, z, buf) ==
      PutBytes(Extend(s, n, pos + Chunk(pos, |buf|)), z, pos % 1024, buf[..Chunk(pos, |buf|)])
  {
  }

  lemma WriteChunkSpec(s: Fs, n: nat, pos: nat, z: nat, buf: seq<byte>)
    requires WellFormed(s) && n < |s.inodes| && pos + |buf| <= LIMIT && |buf| > 0
    requires z == ZoneAt(s, DataSlot(n, pos / 1024)) != 0 && z < |s.blocks|
    ensures WellFormed(WriteChunk(s, n, pos, z, buf))
    ensures Contents(WriteChunk(s, n, pos, z, buf)) == Put(Contents(s), n, pos, buf[..Chunk(pos, |buf|)])
  {
    hide *;
    InRange(s, pos);
    DataSlotLegal(s, n, pos / 1024);
    var c := Chunk(pos, |buf|);
    WriteChunkUnfold(s, n, pos, z, buf);
    ExtendKeeps(s, n, pos + c);
    PutBytesSpec(Extend(s, n, pos + c), n, pos, z, buf[..c]);
  }

  // ---------------------------------------------------------------- writing

  /** file_write from `pos` on: block by block, stopping short when no zone is free.
      Returns how many bytes were written. */
  function FileWrite(s: Fs, n: nat, pos: nat, buf: seq<byte>): (r: (Fs, nat))
    requires Shape(s) && n < |s.inodes| && pos + |buf| <= LIMIT
    ensures Shape(r.0) && |r.0.inodes| == |s.inodes|
    decreases |buf|
  {
    if |buf| == 0 then (s, 0)
    else
      var (s1, z) := CreateBlock(s, n, pos / 1024);
      if z == 0 || z >= |s1.blocks| then (s1, 0)
      else
        var c := Chunk(pos, |buf|);
        var (s2, k) := FileWrite(WriteChunk(s1, n, pos, z, buf), n, pos + c, buf[c..]);
        (s2, c + k)
  }

  /** Every zone of the device is in use. */
  ghost predicate NoRoom(s: Fs)
    requires Shape(s)
  {
    forall z | s.first <= z < s.nzones :: Marked(s, z)
  }

  lemma NoRoomStays(s: Fs)
    requires WellFormed(s) && NewBlock(s).1 == 0
    ensures NoRoom(NewBlock(s).0)
  {
    NewBlockFinds(s);
    var s' := NewBlock(s).0;
    forall z | s.first <= z < s.nzones ensures Marked(s', z) { assert s.zmap[z - s.first + 1]; }
  }

  lemma {:induction false} CreateFails(s: Fs, q: Slot)
    requires WellFormed(s) && Legal(|s.inodes|, q) && CreateAt(s, q).1 == 0
    ensures NoRoom(CreateAt(s, q).0)
    decreases Level(q)
  {
    if q.Root? {
      NoRoomStays(s);
    } else {
      var (s1, z) := CreateAt(s, Parent(q));
      CreateAtKeeps(s, Parent(q));
      if z == 0 { CreateFails(s, Parent(q)); } else { NoRoomStays(s1); }
    }
  }

  function SizeAfter(size: nat, pos: nat, k: nat): nat {
    if k > 0 && pos + k > size then pos + k else size
  }

  /** Sizes of all files but n are kept, and that of n becomes the maximum. */
  ghost predicate Sized(s: Fs, s': Fs, n: nat, pos: nat, k: nat) {
    && |s'.inodes| == |s.inodes|
    && forall m | 0 <= m < |s.inodes| ::
         s'.inodes[m].size == if m == n then SizeAfter(s.inodes[m].size, pos, k) else s.inodes[m].size
  }

  /** The two parts of what a write is said to leave, spelled out. */
  lemma SizedAt(s: Fs, s': Fs, n: nat, pos: nat, k: nat)
    requires Sized(s, s', n, pos, k) && n < |s.inodes|
    ensures n < |s'.inodes| && s'.inodes[n].size == if k > 0 && pos + k > s.inodes[n].size then pos + k else s.inodes[n].size
  {
  }

  lemma NoBitClear(s: Fs)
    requires Shape(s) && NoRoom(s)
    ensures forall b | 1 <= b <= s.nzones - s.first :: s.zmap[b]
  {
    forall b | 1 <= b <= s.nzones - s.first ensures s.zmap[b] { assert Marked(s, b + s.first - 1); }
  }

  /** The state after one chunk, seen from before its block was created. */
  lemma FirstChunk(s: Fs, s1: Fs, n: nat, pos: nat, z: nat, buf: seq<byte>)
    requires WellFormed(s) && n < |s.inodes| && pos + |buf| <= LIMIT && |buf| > 0
    requires (s1, z) == CreateBlock(s, n, pos / 1024) && z != 0
    ensures z < |s1.blocks|
    ensures var s2 := WriteChunk(s1, n, pos, z, buf);
      && WellFormed(s2) && Contents(s2) == Put(Contents(s), n, pos, buf[..Chunk(pos, |buf|)])
      && Sized(s, s2, n, pos, Chunk(pos, |buf|))
  {
    var q := DataSlot(n, pos / 1024);
    DataSlotLegal(s, n, pos / 1024);
    CreateAtKeeps(s, q);
    assert ZoneAt(s1, q) == z && Marked(s1, z);
    GrowsSameContents(s, s1, q);
    WriteChunkSpec(s1, n, pos, z, buf);
  }

  lemma SizedThen(s: Fs, s1: Fs, s2: Fs, n: nat, pos: nat, c: nat, k: nat)
    requires Sized(s, s1, n, pos, c) && Sized(s1, s2, n, pos + c, k) && c > 0
    ensures Sized(s, s2, n, pos, c + k)
  {
  }

  ghost predicate WroteFile(s: Fs, s': Fs, n: nat, pos: nat, buf: seq<byte>, k: nat)
    requires Shape(s) && Shape(s')
  {
    && k <= |buf| && WellFormed(s') && Contents(s') == Put(Contents(s), n, pos, buf[..k])
    && Sized(s, s', n, pos, k) && (k < |buf| ==> NoRoom(s'))
  }

  lemma FileWriteUnfold(s: Fs, n: nat, pos: nat, buf: seq<byte>)
    requires Shape(s) && n < |s.inodes| && pos + |buf| <= LIMIT
    ensures |buf| == 0 ==> FileWrite(s, n, pos, buf) == (s, 0)
    ensures |buf| > 0 ==>
      var (s1, z) := CreateBlock(s, n, pos / 1024);
      if z == 0 || z >= |s1.blocks| then FileWrite(s, n, pos, buf) == (s1, 0)
      else
        var c := Chunk(pos, |buf|);
        var (s3, k) := FileWrite(WriteChunk(s1, n, pos, z, buf), n, pos + c, buf[c..]);
        FileWrite(s, n, pos, buf) == (s3, c + k)
  {
    hide CreateBlock, WriteChunk, Chunk;
  }

  lemma WroteFirst(s: Fs, s2: Fs, s3: Fs, n: nat, pos: nat, buf: seq<byte>, c: nat, k: nat)
    requires Shape(s) && Shape(s2) && Shape(s3) && 0 < c <= |buf|
    requires Contents(s2) == Put(Contents(s), n, pos, buf[..c]) && Sized(s, s2, n, pos, c)
    requires WroteFile(s2, s3, n, pos + c, buf[c..], k)
    ensures WroteFile(s, s3, n, pos, buf, c + k)
  {
    PutThenPut(Contents(s), n, pos, buf, c, k);
    SizedThen(s, s2, s3, n, pos, c, k);
  }

  /** file_write refines assignment to a sparse byte array: the first k bytes land at pos,
      every other byte of every file stays, the size is the maximum, the forest stays well
      formed, and k falls short only when the device is full. */
  lemma {:induction false} FileWriteSpec(s: Fs, n: nat, pos: nat, buf: seq<byte>)
    requires WellFormed(s) && n < |s.inodes| && pos + |buf| <= LIMIT
    ensures WroteFile(s, FileWrite(s, n, pos, buf).0, n, pos, buf, FileWrite(s, n, pos, buf).1)
    decreases |buf|
  {
    hide *;
    InRange(s, pos);
    FileWriteUnfold(s, n, pos, buf);
    if |buf| == 0 {
      WroteNothing(s, n, pos, buf);
    } else {
      var (s1, z) := CreateBlock(s, n, pos / 1024);
      if z == 0 {
        WriteFails(s, n, pos, buf);
      } else {
        FirstChunk(s, s1, n, pos, z, buf);
        var c := Chunk(pos, |buf|);
        var s2 := WriteChunk(s1, n, pos, z, buf);
        FileWriteSpec(s2, n, pos + c, buf[c..]);
        var (s3, k) := FileWrite(s2, n, pos + c, buf[c..]);
        WroteFirst(s, s2, s3, n, pos, buf, c, k);
      }
    }
  }

  lemma WroteNothing(s: Fs, n: nat, pos: nat, buf: seq<byte>)
    requires WellFormed(s) && |buf| == 0
    ensures WroteFile(s, s, n, pos, buf, 0)
  {
    PutNothing(Contents(s), n, pos);
  }

  lemma WriteFails(s: Fs, n: nat, pos: nat, buf: seq<byte>)
    requires WellFormed(s) && n < |s.inodes| && pos < LIMIT && CreateBlock(s, n, pos / 1024).1 == 0
    ensures WroteFile(s, CreateBlock(s, n, pos / 1024).0, n, pos, buf, 0)
  {
    var q := DataSlot(n, pos / 1024);
    DataSlotLegal(s, n, pos / 1024);
    CreateAtKeeps(s, q);
    CreateFails(s, q);
    GrowsSameContents(s, CreateBlock(s, n, pos / 1024).0, q);
    PutNothing(Contents(s), n, pos);
  }

  // ---------------------------------------------------------------- reading

  ghost function Slice(b: Bytes, n: nat, pos: nat, count: nat): seq<byte>
    requires forall i | pos <= i < pos + count :: (n, i) in b
  {
    seq<byte>(count, i requires 0 <= i < count => b[(n, pos + i)])
  }

  /** What was written is what is read back, and everything else reads as before. */
  lemma ReadAfterWrite(s: Fs, n: nat, pos: nat, buf: seq<byte>, m: nat, at: nat, count: nat)
    requires WellFormed(s) && n < |s.inodes| && pos + |buf| <= LIMIT && m < |s.inodes| && at + count <= LIMIT
    ensures var (s', k) := FileWrite(s, n, pos, buf);
      && k <= |buf| && |s'.inodes| == |s.inodes|
      && Slice(Contents(s'), n, pos, k) == buf[..k]
      && (m != n || at + count <= pos || pos + k <= at ==>
            Slice(Contents(s'), m, at, count) == Slice(Contents(s), m, at, count))
  {
    FileWriteSpec(s, n, pos, buf);
    ReadBack(s, FileWrite(s, n, pos, buf).0, n, pos, buf, FileWrite(s, n, pos, buf).1, m, at, count);
  }

  lemma ReadBack(s: Fs, s': Fs, n: nat, pos: nat, buf: seq<byte>, k: nat, m: nat, at: nat, count: nat)
    requires Shape(s) && Shape(s') && WroteFile(s, s', n, pos, buf, k)
    requires n < |s.inodes| && pos + |buf| <= LIMIT && m < |s.inodes| && at + count <= LIMIT
    ensures Slice(Contents(s'), n, pos, k) == buf[..k]
    ensures m != n || at + count <= pos || pos + k <= at ==>
      Slice(Contents(s'), m, at, count) == Slice(Contents(s), m, at, count)
  {
    hide ByteAt, WellFormed, Shape, NoRoom;
  }
}

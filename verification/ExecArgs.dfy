/** Argument packing of fs/exec.c: strings copied down from the top of 32 pages, and parsed back into
    pointer tables. */
module PackedStrings {
  type Byte = n: nat | n < 256

  /** A C string without its final zero. */
  predicate IsString(s: seq<Byte>) {
    forall i | 0 <= i < |s| :: s[i] != 0
  }

  predicate AreStrings(ss: seq<seq<Byte>>) {
    forall i | 0 <= i < |ss| :: IsString(ss[i])
  }

  /** Strings one after the other, each with its zero. */
  function Packed(ss: seq<seq<Byte>>): seq<Byte> {
    if ss == [] then [] else ss[0] + [0] + Packed(ss[1..])
  }

  /** The string at an address: up to the next zero. */
  function StringAt(mem: seq<Byte>, a: nat): seq<Byte>
    decreases |mem| - a
  {
    if a < |mem| && mem[a] != 0 then [mem[a]] + StringAt(mem, a + 1) else []
  }

  /** n strings from an address on. */
  function StringsAt(mem: seq<Byte>, a: nat, n: nat): seq<seq<Byte>>
    decreases n
  {
    if n == 0 then [] else [StringAt(mem, a)] + StringsAt(mem, a + |StringAt(mem, a)| + 1, n - 1)
  }

  predicate Holds(mem: seq<Byte>, a: nat, bytes: seq<Byte>) {
    a + |bytes| <= |mem| && forall i | 0 <= i < |bytes| :: mem[a + i] == bytes[i]
  }

  lemma {:induction false} ReadsString(mem: seq<Byte>, a: nat, s: seq<Byte>)
    requires IsString(s) && Holds(mem, a, s + [0])
    ensures StringAt(mem, a) == s
    decreases |s|
  {
    assert mem[a + |s|] == (s + [0])[|s|];
    if s != [] {
      assert mem[a] == (s + [0])[0];
      forall i | 0 <= i < |s| ensures mem[a + 1 + i] == (s[1..] + [0])[i] {
        assert mem[a + (i + 1)] == (s + [0])[i + 1];
      }
      ReadsString(mem, a + 1, s[1..]);
      assert s == [s[0]] + s[1..];
    }
  }

  lemma HoldsSplit(mem: seq<Byte>, a: nat, x: seq<Byte>, y: seq<Byte>)
    ensures Holds(mem, a, x + y) <==> Holds(mem, a, x) && Holds(mem, a + |x|, y)
  {
    if Holds(mem, a, x + y) {
      forall i | 0 <= i < |x| ensures mem[a + i] == x[i] { assert mem[a + i] == (x + y)[i]; }
      forall i | 0 <= i < |y| ensures mem[a + |x| + i] == y[i] { assert mem[a + (|x| + i)] == (x + y)[|x| + i]; }
    }
    if Holds(mem, a, x) && Holds(mem, a + |x|, y) {
      forall i | 0 <= i < |x + y| ensures mem[a + i] == (x + y)[i] {
        if i >= |x| { assert mem[a + |x| + (i - |x|)] == y[i - |x|]; }
      }
    }
  }

  /** Packing and parsing undo each other. */
  lemma {:induction false} ParsesBack(mem: seq<Byte>, a: nat, ss: seq<seq<Byte>>)
    requires AreStrings(ss) && Holds(mem, a, Packed(ss))
    ensures StringsAt(mem, a, |ss|) == ss
    decreases |ss|
  {
    if ss != [] {
      var s, rest := ss[0], ss[1..];
      HoldsSplit(mem, a, s + [0], Packed(rest));
      ReadsString(mem, a, s);
      ParsesBack(mem, a + |s| + 1, rest);
      assert ss == [s] + rest;
    }
  }

  lemma {:induction false} PackedConcat(xs: seq<seq<Byte>>, ys: seq<seq<Byte>>)
    ensures Packed(xs + ys) == Packed(xs) + Packed(ys)
    decreases |xs|
  {
    if xs == [] {
      assert xs + ys == ys;
    } else {
      PackedConcat(xs[1..], ys);
      assert (xs + ys)[1..] == xs[1..] + ys;
    }
  }

  /** Where parsing stands after n strings. */
  function Passed(mem: seq<Byte>, a: nat, n: nat): nat
    decreases n
  {
    if n == 0 then a else Passed(mem, a + |StringAt(mem, a)| + 1, n - 1)
  }

  lemma {:induction false} PassesPacked(mem: seq<Byte>, a: nat, ss: seq<seq<Byte>>)
    requires AreStrings(ss) && Holds(mem, a, Packed(ss))
    ensures Passed(mem, a, |ss|) == a + |Packed(ss)|
    decreases |ss|
  {
    if ss != [] {
      HoldsSplit(mem, a, ss[0] + [0], Packed(ss[1..]));
      ReadsString(mem, a, ss[0]);
      PassesPacked(mem, a + |ss[0]| + 1, ss[1..]);
    }
  }
}

/** copy_strings() over the page table of do_execve(). */
module ArgPages {
  import opened PackedStrings

  /** Frame 0 means no page yet; no frame serves two pages, and free frames serve none. */
  ghost predicate PagesOk(frame: seq<nat>, free: seq<nat>, ramSize: nat) {
    && |frame| == 32
    && (forall i | 0 <= i < 32 :: 4096 * frame[i] + 4096 <= ramSize)
    && (forall i, j | 0 <= i < j < 32 && frame[i] != 0 :: frame[i] != frame[j])
    && (forall k | 0 <= k < |free| :: 0 < free[k] && 4096 * free[k] + 4096 <= ramSize)
    && (forall i, k | 0 <= i < 32 && 0 <= k < |free| :: frame[i] != free[k])
    && (forall k, l | 0 <= k < l < |free| :: free[k] != free[l])
  }

  function ByteAt(frame: seq<nat>, ram: seq<Byte>, a: nat): Byte {
    if a / 4096 < |frame| && frame[a / 4096] != 0 && 4096 * frame[a / 4096] + a % 4096 < |ram|
    then ram[4096 * frame[a / 4096] + a % 4096] else 0
  }

  /** The 128 kB the new program will see at the top of its memory. */
  function View(frame: seq<nat>, ram: seq<Byte>): (v: seq<Byte>)
    ensures |v| == 0x20000 && forall a: nat | a < 0x20000 :: v[a] == ByteAt(frame, ram, a)
  {
    seq(0x20000, a requires 0 <= a < 0x20000 => ByteAt(frame, ram, a))
  }

  /** Memory with some bytes laid over it. */
  function Over(v: seq<Byte>, a: nat, bytes: seq<Byte>): (w: seq<Byte>)
    requires a + |bytes| <= |v|
    ensures |w| == |v|
    ensures forall i | 0 <= i < |v| :: w[i] == if a <= i < a + |bytes| then bytes[i - a] else v[i]
  {
    v[..a] + bytes + v[a + |bytes|..]
  }

  lemma OverGrows(v: seq<Byte>, a: nat, b: Byte, bytes: seq<Byte>)
    requires 0 < a && a + |bytes| <= |v|
    ensures Over(v, a, bytes)[a - 1 := b] == Over(v, a - 1, [b] + bytes)
  {
  }

  /** A store through a page shows at its address and nowhere else. */
  lemma ViewStore(frame: seq<nat>, free: seq<nat>, ram: seq<Byte>, a: nat, b: Byte)
    requires PagesOk(frame, free, |ram|) && a < 0x20000 && frame[a / 4096] != 0
    ensures 4096 * frame[a / 4096] + a % 4096 < |ram|
    ensures View(frame, ram[4096 * frame[a / 4096] + a % 4096 := b]) == View(frame, ram)[a := b]
  {
    var at := 4096 * frame[a / 4096] + a % 4096;
    var ram' := ram[at := b];
    forall c: nat | c < 0x20000 ensures ByteAt(frame, ram', c) == if c == a then b else ByteAt(frame, ram, c) {
      if c != a && frame[c / 4096] != 0 { OtherCell(frame, free, |ram|, a, c); }
    }
  }

  lemma OtherCell(frame: seq<nat>, free: seq<nat>, ramSize: nat, a: nat, c: nat)
    requires PagesOk(frame, free, ramSize) && a < 0x20000 && c < 0x20000 && a != c
    requires frame[a / 4096] != 0 && frame[c / 4096] != 0
    ensures 4096 * frame[a / 4096] + a % 4096 != 4096 * frame[c / 4096] + c % 4096
  {
    if a / 4096 < c / 4096 {
      assert frame[a / 4096] != frame[c / 4096];
    } else if c / 4096 < a / 4096 {
      assert frame[c / 4096] != frame[a / 4096];
    }
  }

  /** A new zeroed page shows as the zeroes that were there. */
  lemma ViewNewPage(frame: seq<nat>, free: seq<nat>, ram: seq<Byte>, ram': seq<Byte>, i: nat)
    requires PagesOk(frame, free, |ram|) && i < 32 && frame[i] == 0 && free != [] && |ram'| == |ram|
    requires forall k | 0 <= k < |ram| :: ram'[k] == if k / 4096 == free[0] then 0 else ram[k]
    ensures PagesOk(frame[i := free[0]], free[1..], |ram|)
    ensures View(frame[i := free[0]], ram') == View(frame, ram)
  {
    var frame' := frame[i := free[0]];
    forall a: nat | a < 0x20000 ensures ByteAt(frame', ram', a) == ByteAt(frame, ram, a) {
      assert (4096 * frame'[a / 4096] + a % 4096) / 4096 == frame'[a / 4096];
    }
  }

  class ArgArea {
    const page: array<nat>
    const ram: array<Byte>
    /** The frames get_free_page() still has, in the order it gives them. */
    var free: seq<nat>

    ghost predicate Valid()
      reads this, page, ram
    {
      page as object != ram && page.Length == 32 && PagesOk(page[..], free, ram.Length)
    }

    function Value(): seq<Byte>
      reads page, ram
    {
      View(page[..], ram[..])
    }

    /** Lines 197-198: no pages yet. */
    constructor (ram: array<Byte>, free: seq<nat>)
      requires ram.Length >= 4096
      requires forall k | 0 <= k < |free| :: 0 < free[k] && 4096 * free[k] + 4096 <= ram.Length
      requires forall k, l | 0 <= k < l < |free| :: free[k] != free[l]
      ensures Valid() && this.ram == ram && this.free == free && fresh(page)
      ensures Value() == seq(0x20000, i => 0)
    {
      page := new nat[32](i => 0);
      this.ram := ram;
      this.free := free;
      new;
      assert forall a: nat | a < 0x20000 :: ByteAt(page[..], ram[..], a) == 0;
    }

    /** get_free_page (mm/memory.c, lines 63-79): a zeroed frame, 0 when there is none. */
    method GetFreePage() returns (f: nat)
      requires forall k | 0 <= k < |free| :: 0 < free[k] && 4096 * free[k] + 4096 <= ram.Length
      modifies this`free, ram
      ensures f == 0 <==> old(free) == []
      ensures f != 0 ==> f == old(free)[0] && free == old(free)[1..]
      ensures f == 0 ==> free == old(free) && ram[..] == old(ram[..])
      ensures f != 0 ==> forall k | 0 <= k < ram.Length :: ram[k] == if k / 4096 == f then 0 else old(ram[k])
    {
      if free == [] { return 0; }
      f := free[0];
      free := free[1..];
      var i := 0;
      while i < 4096
        invariant 0 <= i <= 4096 && 4096 * f + 4096 <= ram.Length && free == old(free)[1..]
        invariant forall k | 0 <= k < ram.Length :: ram[k] == if 4096 * f <= k < 4096 * f + i then 0 else old(ram[k])
      {
        ram[4096 * f + i] := 0;
        i := i + 1;
      }
    }

    /** Lines 134-146: one byte at p, on a new page when the last byte was the first of its page. */
    method PutByte(p: nat, b: Byte, pag: nat, offset: nat) returns (ok: bool, pag': nat, offset': nat)
      requires Valid() && p < 0x20000
      requires offset > 0 ==> offset == p % 4096 + 1 && pag == page[p / 4096] != 0
      modifies this`free, page, ram
      ensures Valid()
      ensures ok ==> Value() == old(Value())[p := b] && offset' == p % 4096 && pag' == page[p / 4096] != 0
      ensures !ok ==> free == []
    {
      hide View;
      ok, pag' := true, pag;
      if offset > 0 {
        offset' := offset - 1;
      } else {
        offset' := p % 4096;
        pag' := page[p / 4096];
        if pag' == 0 {
          ghost var frames, ram0 := page[..], ram[..];
          pag' := GetFreePage();
          if pag' == 0 { return false, 0, 0; }
          page[p / 4096] := pag';
          ViewNewPage(frames, old(free), ram0, ram[..], p / 4096);
          assert page[..] == frames[p / 4096 := old(free)[0]];
        }
      }
      ghost var ram1 := ram[..];
      ViewStore(page[..], free, ram1, p, b);
      ram[4096 * pag' + offset'] := b;
      assert ram[..] == ram1[4096 * page[p / 4096] + p % 4096 := b];
    }

    /** Lines 124-147 for one string: its bytes and its zero, last to first. */
    method CopyString(s: seq<Byte>, p: nat, pag: nat, offset: nat) returns (q: nat, pag': nat, offset': nat)
      requires Valid() && |s| + 1 < p <= 0x20000
      requires offset > 0 ==> p < 0x20000 && offset == p % 4096 && pag == page[p / 4096] != 0
      modifies this`free, page, ram
      ensures Valid()
      ensures q == 0 ==> free == []
      ensures q != 0 ==> q == p - |s| - 1 && Value() == Over(old(Value()), q, s + [0])
      ensures q != 0 ==> offset' == q % 4096 && pag' == page[q / 4096] != 0
    {
      hide View, PagesOk, ByteAt;
      var len := |s| + 1;
      var z := s + [0];
      q, pag', offset' := p, pag, offset;
      assert Over(Value(), p, z[len..]) == Value();
      while len > 0
        invariant Valid() && 0 <= len <= |z| && q == p - (|z| - len)
        invariant Value() == Over(old(Value()), q, z[len..])
        invariant offset' > 0 ==> q < 0x20000 && offset' == q % 4096 && pag' == page[q / 4096] != 0
        invariant len < |z| ==> offset' == q % 4096 && pag' == page[q / 4096] != 0
      {
        ghost var v := Value();
        q, len := q - 1, len - 1;
        var ok;
        SamePage(q, offset');
        ok, pag', offset' := PutByte(q, z[len], pag', offset');
        if !ok { return 0, 0, 0; }
        OverGrows(old(Value()), q + 1, z[len], z[len + 1..]);
        assert z[len..] == [z[len]] + z[len + 1..];
      }
      assert z[0..] == z;
    }

    /** Lines 104-152. The strings fit, which the test of line 128 means to check. */
    method CopyStrings(ss: seq<seq<Byte>>, p: nat) returns (q: nat)
      requires Valid() && p < 0x20000 && (p > 0 ==> |Packed(ss)| < p)
      modifies this`free, page, ram
      ensures Valid()
      ensures q == 0 ==> p == 0 || free == []
      ensures p == 0 ==> free == old(free)
      ensures q != 0 ==> q == p - |Packed(ss)| && Value() == Over(old(Value()), q, Packed(ss))
    {
      hide Packed, View, PagesOk, ByteAt, Over;
      if p == 0 { return 0; }
      q := p;
      var argc := |ss|;
      var pag, offset := 0, 0;
      assert ss[argc..] == [] && ss[..argc] == ss;
      NothingOver(Value(), p);
      while argc > 0
        invariant Valid() && 0 <= argc <= |ss| && q == p - |Packed(ss[argc..])|
        invariant |Packed(ss)| == |Packed(ss[..argc])| + |Packed(ss[argc..])|
        invariant Value() == Over(old(Value()), q, Packed(ss[argc..]))
        invariant offset > 0 ==> offset == q % 4096 && pag == page[q / 4096] != 0
      {
        ghost var after := Packed(ss[argc..]);
        argc := argc - 1;
        LastPacked(ss, argc);
        ghost var q0 := q;
        q, pag, offset := CopyString(ss[argc], q, pag, offset);
        if q == 0 { return; }
        OverJoins(old(Value()), q, ss[argc] + [0], after);
      }
      assert ss[0..] == ss;
    }
  }

  lemma NothingOver(v: seq<Byte>, a: nat)
    requires a <= |v|
    ensures Packed([]) == [] && Over(v, a, []) == v
  {
  }

  lemma SamePage(q: nat, offset: nat)
    requires offset > 0 ==> offset == (q + 1) % 4096
    ensures offset > 0 ==> offset == q % 4096 + 1 && (q + 1) / 4096 == q / 4096
  {
  }

  lemma OverJoins(v: seq<Byte>, a: nat, x: seq<Byte>, y: seq<Byte>)
    requires a + |x| + |y| <= |v|
    ensures Over(Over(v, a + |x|, y), a, x) == Over(v, a, x + y)
  {
  }

  lemma LastPacked(ss: seq<seq<Byte>>, k: nat)
    requires k < |ss|
    ensures Packed(ss[k..]) == ss[k] + [0] + Packed(ss[k + 1..])
    ensures |Packed(ss[..k + 1])| == |Packed(ss[..k])| + |ss[k]| + 1
  {
    assert ss[k..][1..] == ss[k + 1..];
    assert ss[..k + 1] == ss[..k] + [ss[k]];
    PackedConcat(ss[..k], [ss[k]]);
    assert Packed([ss[k]]) == ss[k] + [0];
  }
}

/** create_tables(), and how do_execve() puts the parts together. */
module ExecTables {
  import opened PackedStrings
  import opened ArgPages

  /** The strings' pages end at 64 MB (change_ldt, lines 161 and 170-175); their first byte is here. */
  const BASE: nat := 0x3fe_0000

  /** What the i-th pointer of a table leads to. */
  function Pointed(longs: map<nat, nat>, mem: seq<Byte>, at: nat, i: nat): seq<Byte>
    requires at + 4 * i in longs
  {
    if longs[at + 4 * i] >= BASE then StringAt(mem, longs[at + 4 * i] - BASE) else []
  }

  /** A table of pointers, ended by 0, that reads back as the given strings. */
  ghost predicate TableReads(longs: map<nat, nat>, mem: seq<Byte>, at: nat, ss: seq<seq<Byte>>) {
    && (forall i | 0 <= i <= |ss| :: at + 4 * i in longs)
    && (forall i | 0 <= i < |ss| :: longs[at + 4 * i] != 0 && Pointed(longs, mem, at, i) == ss[i])
    && longs[at + 4 * |ss|] == 0
  }

  lemma {:induction false} NthString(mem: seq<Byte>, a: nat, n: nat, i: nat)
    requires i < n
    ensures |StringsAt(mem, a, n)| == n && StringsAt(mem, a, n)[i] == StringAt(mem, Passed(mem, a, i))
    ensures Passed(mem, a, i + 1) == Passed(mem, a, i) + |StringAt(mem, Passed(mem, a, i))| + 1
    decreases n
  {
    var b := a + |StringAt(mem, a)| + 1;
    assert Passed(mem, a, 1) == Passed(mem, b, 0) == b;
    if i > 0 { NthString(mem, b, n - 1, i - 1); } else { StringsCount(mem, a, n); }
  }

  lemma {:induction false} StringsCount(mem: seq<Byte>, a: nat, n: nat)
    ensures |StringsAt(mem, a, n)| == n
    decreases n
  {
    if n > 0 { StringsCount(mem, a + |StringAt(mem, a)| + 1, n - 1); }
  }

  /** The i-th string of a packing ends in a zero inside it. */
  lemma {:induction false} EndsInside(mem: seq<Byte>, a: nat, ss: seq<seq<Byte>>, i: nat)
    requires AreStrings(ss) && Holds(mem, a, Packed(ss)) && i < |ss|
    ensures Passed(mem, a, i) + |ss[i]| < |mem| && StringAt(mem, Passed(mem, a, i)) == ss[i]
    ensures mem[Passed(mem, a, i) + |ss[i]|] == 0
    decreases |ss|
  {
    HoldsSplit(mem, a, ss[0] + [0], Packed(ss[1..]));
    ReadsString(mem, a, ss[0]);
    if i > 0 {
      EndsInside(mem, a + |ss[0]| + 1, ss[1..], i - 1);
    } else {
      assert mem[a + |ss[0]|] == (ss[0] + [0])[|ss[0]|];
    }
  }

  /** Lines 61 and 66: past the next zero. */
  method SkipString(mem: seq<Byte>, a: nat) returns (b: nat)
    requires a + |StringAt(mem, a)| < |mem|
    ensures b == a + |StringAt(mem, a)| + 1
  {
    b := a;
    ghost var s := StringAt(mem, a);
    while mem[b] != 0
      invariant a <= b <= a + |s| && StringAt(mem, b) == s[b - a..]
      decreases |mem| - b
    {
      assert StringAt(mem, b) == [mem[b]] + StringAt(mem, b + 1);
      b := b + 1;
    }
    assert StringAt(mem, b) == [];
    b := b + 1;
  }

  /** Lines 59-63 and 64-68: one table of n pointers at `at`. */
  method FillTable(mem: seq<Byte>, a: nat, n: nat, at: nat, longs: map<nat, nat>, ghost ss: seq<seq<Byte>>)
    returns (b: nat, longs': map<nat, nat>)
    requires AreStrings(ss) && n <= |ss| && Holds(mem, a, Packed(ss))
    ensures b == Passed(mem, a, n)
    ensures TableReads(longs', mem, at, ss[..n])
    ensures forall x :: x in longs' <==> x in longs || (at <= x <= at + 4 * n && (x - at) % 4 == 0)
    ensures forall x | x in longs && !(at <= x <= at + 4 * n) :: longs'[x] == longs[x]
  {
    hide Packed, Holds, StringAt;
    b, longs' := a, longs;
    var i := 0;
    while i < n
      invariant 0 <= i <= n && b == Passed(mem, a, i)
      invariant forall j | 0 <= j < i :: at + 4 * j in longs' && longs'[at + 4 * j] == BASE + Passed(mem, a, j)
      invariant forall x :: x in longs' <==> x in longs || (at <= x < at + 4 * i && (x - at) % 4 == 0)
      invariant forall x | x in longs && !(at <= x < at + 4 * i) :: longs'[x] == longs[x]
    {
      longs' := longs'[at + 4 * i := BASE + b];
      EndsInside(mem, a, ss, i);
      NthString(mem, a, n, i);
      b := SkipString(mem, b);
      i := i + 1;
    }
    longs' := longs'[at + 4 * n := 0];
    forall j | 0 <= j < n ensures longs'[at + 4 * j] != 0 && Pointed(longs', mem, at, j) == ss[..n][j] {
      EndsInside(mem, a, ss, j);
    }
  }

  /** What the new program finds on its stack: argc, argv, envp, and the two tables above them, all
      below the strings. */
  ghost predicate StackReads(longs: map<nat, nat>, mem: seq<Byte>, sp: nat, args: seq<seq<Byte>>, envs: seq<seq<Byte>>) {
    && sp in longs && sp + 4 in longs && sp + 8 in longs
    && longs[sp] == |args|
    && TableReads(longs, mem, longs[sp + 4], args) && TableReads(longs, mem, longs[sp + 8], envs)
  }

  /** Lines 46-70. The longs go below p, so none of them overlays a string. */
  method CreateTables(mem: seq<Byte>, p: nat, argc: nat, envc: nat, ghost ss: seq<seq<Byte>>)
    returns (sp: nat, longs: map<nat, nat>)
    requires AreStrings(ss) && argc + envc <= |ss| && Holds(mem, p, Packed(ss)) && |mem| == 0x20000
    requires 4 * (argc + envc + 5) < BASE
    ensures StackReads(longs, mem, sp, ss[..argc], ss[argc..argc + envc])
    ensures sp == (BASE + p) / 4 * 4 - 4 * (argc + envc + 5) && sp in longs && sp + 4 in longs && sp + 8 in longs
    ensures longs[sp] == argc && longs[sp + 4] == sp + 12 && longs[sp + 8] == sp + 12 + 4 * (argc + 1)
    ensures forall x | x in longs :: sp <= x && x + 4 <= BASE + p
  {
    hide Packed, Holds, StringAt, StringsAt, Passed, TableReads, AreStrings;
    sp := (BASE + p) / 4 * 4;
    sp := sp - 4 * (envc + 1);
    var envp := sp;
    sp := sp - 4 * (argc + 1);
    var argv := sp;
    longs := map[sp - 4 := envp, sp - 8 := argv, sp - 12 := argc];
    sp := sp - 12;
    var q;
    q, longs := FillTable(mem, p, argc, argv, longs, ss);
    ghost var before := longs;
    PackedFrom(mem, p, ss, argc);
    q, longs := FillTable(mem, q, envc, envp, longs, ss[argc..]);
    assert ss[argc..][..envc] == ss[argc..argc + envc];
    TableStays(before, longs, mem, argv, ss[..argc]) by {
      assert forall i | 0 <= i <= argc :: !(envp <= argv + 4 * i);
    }
  }

  lemma TableStays(longs: map<nat, nat>, longs': map<nat, nat>, mem: seq<Byte>, at: nat, ss: seq<seq<Byte>>)
    requires TableReads(longs, mem, at, ss)
    requires forall i | 0 <= i <= |ss| && at + 4 * i in longs :: at + 4 * i in longs' && longs'[at + 4 * i] == longs[at + 4 * i]
    ensures TableReads(longs', mem, at, ss)
  {
    hide StringAt;
    forall i | 0 <= i < |ss| ensures longs'[at + 4 * i] != 0 && Pointed(longs', mem, at, i) == ss[i] {
      assert Pointed(longs', mem, at, i) == Pointed(longs, mem, at, i);
    }
  }

  lemma PackedFrom(mem: seq<Byte>, a: nat, ss: seq<seq<Byte>>, n: nat)
    requires AreStrings(ss) && Holds(mem, a, Packed(ss)) && n <= |ss|
    ensures AreStrings(ss[n..]) && AreStrings(ss[..n]) && Holds(mem, Passed(mem, a, n), Packed(ss[n..]))
  {
    assert ss == ss[..n] + ss[n..];
    PackedConcat(ss[..n], ss[n..]);
    HoldsSplit(mem, a, Packed(ss[..n]), Packed(ss[n..]));
    PassesPacked(mem, a, ss[..n]);
  }

  datatype Built = NoPages | Stack(sp: nat, longs: map<nat, nat>)

  /** Lines 193, 310-317 and 333-334: an ordinary program sees exactly its arguments and its
      environment. */
  method BuildStack(area: ArgArea, argv: seq<seq<Byte>>, envp: seq<seq<Byte>>) returns (r: Built)
    requires area.Valid() && AreStrings(argv) && AreStrings(envp)
    requires |Packed(argv)| + |Packed(envp)| < 0x1fffc && |argv| + |envp| < 0x8_0000
    modifies area, area.page, area.ram
    ensures area.Valid() && (r.NoPages? ==> area.free == [])
    ensures r.Stack? ==> StackReads(r.longs, area.Value(), r.sp, argv, envp)
  {
    hide Packed, Over, View, PagesOk, StackReads;
    ghost var v := area.Value();
    var p := area.CopyStrings(envp, 0x1fffc);
    p := area.CopyStrings(argv, p);
    if p == 0 { return NoPages; }
    Stacked(v, p, argv, envp);
    var sp, longs := CreateTables(area.Value(), p, |argv|, |envp|, argv + envp);
    assert (argv + envp)[..|argv|] == argv && (argv + envp)[|argv|..|argv| + |envp|] == envp;
    r := Stack(sp, longs);
  }

  datatype Option<T> = None | Some(value: T)

  /** What a script's interpreter should see in argv: its own name, the argument of the #! line if
      there is one, the script, and the script's own arguments. */
  function Spliced(iName: seq<Byte>, iArg: Option<seq<Byte>>, filename: seq<Byte>, argv: seq<seq<Byte>>): seq<seq<Byte>> {
    [iName] + (if iArg.Some? then [iArg.value] else []) + [filename] + (if argv == [] then [] else argv[1..])
  }

  /** The interpreter's argv, place by place. */
  lemma SplicedIs(iName: seq<Byte>, iArg: Option<seq<Byte>>, filename: seq<Byte>, argv: seq<seq<Byte>>)
    ensures var (all, k) := (Spliced(iName, iArg, filename, argv), if iArg.Some? then 2 else 1);
      && |all| == k + (if argv == [] then 1 else |argv|)
      && all[0] == iName && (iArg.Some? ==> all[1] == iArg.value) && all[k] == filename
      && forall i | 1 <= i < |argv| :: all[k + i] == argv[i]
  {
  }

  function Interpreter(iName: seq<Byte>, iArg: Option<seq<Byte>>): seq<seq<Byte>> {
    if iArg.Some? then [iName, iArg.value] else [iName]
  }

  function ScriptRoom(iName: seq<Byte>, iArg: Option<seq<Byte>>, filename: seq<Byte>, argv: seq<seq<Byte>>, envp: seq<seq<Byte>>): nat {
    |Packed(Spliced(iName, iArg, filename, argv))| + |Packed(envp)|
  }

  /** Lines 261-286 and 333-334. The splice is right exactly when the caller passed an argv[0] at
      all. Without one, line 263 leaves argc at -1 and it ends one too small: the script's name is
      taken for the first of the environment, whose last string is lost. */
  method BuildScriptStack(area: ArgArea, filename: seq<Byte>, iName: seq<Byte>, iArg: Option<seq<Byte>>,
                          argv: seq<seq<Byte>>, envp: seq<seq<Byte>>) returns (r: Built)
    requires area.Valid() && AreStrings(argv) && AreStrings(envp)
    requires IsString(filename) && IsString(iName) && (iArg.Some? ==> IsString(iArg.value))
    requires ScriptRoom(iName, iArg, filename, argv, envp) < 0x1fffc && |argv| + |envp| < 0x8_0000
    modifies area, area.page, area.ram
    ensures area.Valid() && (r.NoPages? ==> area.free == [])
    ensures r.Stack? ==> (StackReads(r.longs, area.Value(), r.sp, Spliced(iName, iArg, filename, argv), envp) <==> argv != [])
    ensures r.Stack? && argv == [] ==> StackReads(r.longs, area.Value(), r.sp, Interpreter(iName, iArg), ([filename] + envp)[..|envp|])
  {
    hide Packed, Over, View, PagesOk, StackReads, AreStrings, IsString, Holds, ScriptRoom, Spliced;
    SplicedParts(iName, iArg, filename, argv, envp);
    SplicedSlices(iName, iArg, filename, argv, envp);
    ghost var v := area.Value();
    NothingOver(v, 0x1fffc);
    var args := if argv == [] then [] else argv[1..];
    var argc := |argv|;
    var p := Push(area, envp, 0x1fffc, v, []);
    ghost var ss := envp + [];
    argc := argc - 1;
    p := Push(area, args, p, v, ss);
    ss := args + ss;
    p := Push(area, [filename], p, v, ss);
    ss := [filename] + ss;
    argc := argc + 1;
    if iArg.Some? {
      p := Push(area, [iArg.value], p, v, ss);
      ss := [iArg.value] + ss;
      argc := argc + 1;
    }
    p := Push(area, [iName], p, v, ss);
    ss := [iName] + ss;
    argc := argc + 1;
    if p == 0 { return NoPages; }
    var all := Spliced(iName, iArg, filename, argv);
    SplicedOrder(iName, iArg, filename, argv, envp, ss);
    var sp, longs := CreateTables(area.Value(), p, argc, |envp|, ss);
    CountTold(longs, area.Value(), sp, ss[..argc], ss[argc..argc + |envp|], all, envp);
    r := Stack(sp, longs);
  }

  /** copy_strings() on top of what is already packed. */
  method Push(area: ArgArea, xs: seq<seq<Byte>>, p: nat, ghost v: seq<Byte>, ghost ss: seq<seq<Byte>>) returns (q: nat)
    requires area.Valid() && AreStrings(xs) && AreStrings(ss) && |v| == 0x20000
    requires p != 0 ==> p + |Packed(ss)| == 0x1fffc && area.Value() == Over(v, p, Packed(ss)) && |Packed(xs)| < p
    requires p == 0 ==> area.free == []
    modifies area, area.page, area.ram
    ensures area.Valid() && AreStrings(xs + ss) && (q == 0 ==> area.free == [])
    ensures |Packed(xs + ss)| == |Packed(xs)| + |Packed(ss)|
    ensures q != 0 ==> q + |Packed(xs + ss)| == 0x1fffc && area.Value() == Over(v, q, Packed(xs + ss))
    ensures q != 0 ==> Holds(area.Value(), q, Packed(xs + ss))
  {
    hide Packed, Over, View, PagesOk, IsString, Holds;
    PackedConcat(xs, ss);
    q := area.CopyStrings(xs, p);
    if q != 0 { Stacked(v, q, xs, ss); }
  }

  lemma SplicedSlices(iName: seq<Byte>, iArg: Option<seq<Byte>>, filename: seq<Byte>, argv: seq<seq<Byte>>, envp: seq<seq<Byte>>)
    ensures var all := Spliced(iName, iArg, filename, argv);
      && |all| == (if argv == [] then 2 else |argv| + 1) + (if iArg.Some? then 1 else 0)
      && (all + envp)[..|all|] == all && (all + envp)[|all|..|all| + |envp|] == envp
      && (argv == [] ==> (all + envp)[..|all| - 1] == Interpreter(iName, iArg))
      && (argv == [] ==> (all + envp)[|all| - 1..|all| - 1 + |envp|] == ([filename] + envp)[..|envp|])
  {
    var all := Spliced(iName, iArg, filename, argv);
    if argv == [] {
      assert all == Interpreter(iName, iArg) + [filename];
      assert all + envp == Interpreter(iName, iArg) + ([filename] + envp);
    }
  }

  /** The stack says how many arguments there are. */
  lemma CountTold(longs: map<nat, nat>, mem: seq<Byte>, sp: nat, args: seq<seq<Byte>>, envs: seq<seq<Byte>>,
                  wanted: seq<seq<Byte>>, wantedEnvs: seq<seq<Byte>>)
    requires StackReads(longs, mem, sp, args, envs)
    ensures |args| != |wanted| ==> !StackReads(longs, mem, sp, wanted, wantedEnvs)
  {
  }

  lemma SplicedOrder(iName: seq<Byte>, iArg: Option<seq<Byte>>, filename: seq<Byte>, argv: seq<seq<Byte>>, envp: seq<seq<Byte>>,
                     ss: seq<seq<Byte>>)
    requires var rest := [filename] + ((if argv == [] then [] else argv[1..]) + (envp + []));
      ss == [iName] + if iArg.Some? then [iArg.value] + rest else rest
    ensures ss == Spliced(iName, iArg, filename, argv) + envp
  {
  }

  /** How much room each part takes. */
  lemma SplicedParts(iName: seq<Byte>, iArg: Option<seq<Byte>>, filename: seq<Byte>, argv: seq<seq<Byte>>, envp: seq<seq<Byte>>)
    requires AreStrings(argv) && IsString(filename) && IsString(iName) && (iArg.Some? ==> IsString(iArg.value))
    ensures var args := if argv == [] then [] else argv[1..];
      && AreStrings([]) && AreStrings(args) && AreStrings([filename]) && AreStrings([iName]) && (iArg.Some? ==> AreStrings([iArg.value]))
      && ScriptRoom(iName, iArg, filename, argv, envp) ==
           |Packed([iName])| + (if iArg.Some? then |Packed([iArg.value])| else 0) + |Packed([filename])| + |Packed(args)| + |Packed(envp)|
  {
    var args := if argv == [] then [] else argv[1..];
    if iArg.Some? {
      assert Spliced(iName, iArg, filename, argv) == [iName] + ([iArg.value] + ([filename] + args));
      PackedConcat([iArg.value], [filename] + args);
      PackedConcat([iName], [iArg.value] + ([filename] + args));
    } else {
      assert Spliced(iName, iArg, filename, argv) == [iName] + ([filename] + args);
      PackedConcat([iName], [filename] + args);
    }
    PackedConcat([filename], args);
  }

  lemma Stacked(v: seq<Byte>, p: nat, x: seq<seq<Byte>>, y: seq<seq<Byte>>)
    requires p + |Packed(x)| + |Packed(y)| <= |v| && AreStrings(x) && AreStrings(y)
    ensures |Packed(x + y)| == |Packed(x)| + |Packed(y)|
    ensures Over(Over(v, p + |Packed(x)|, Packed(y)), p, Packed(x)) == Over(v, p, Packed(x + y))
    ensures Holds(Over(v, p, Packed(x + y)), p, Packed(x + y)) && AreStrings(x + y)
  {
    hide Packed, Over, IsString, Holds;
    PackedConcat(x, y);
    OverJoins(v, p, Packed(x), Packed(y));
    OverHolds(v, p, Packed(x + y));
  }

  lemma OverHolds(v: seq<Byte>, a: nat, bytes: seq<Byte>)
    requires a + |bytes| <= |v|
    ensures Holds(Over(v, a, bytes), a, bytes)
  {
  }

  // ---------------------------------------------------------------- the #! line

  /** A blank-free interpreter after leading blanks (spaces and tabs); its name after the last slash; and, after one
      blank, the rest of the line as its argument. */
  ghost predicate BangReads(text: seq<Byte>, interp: seq<Byte>, iName: seq<Byte>, iArg: Option<seq<Byte>>) {
    exists i: nat, j: nat, k: nat :: BangAt(text, i, j, k) && interp == text[i..j] && iName == text[k..j]
                   && iArg == if j == |text| then None else Some(text[j + 1..])
  }

  ghost predicate BangAt(text: seq<Byte>, i: nat, j: nat, k: nat) {
    && i < j <= |text| && i <= k <= j
    && (forall m | 0 <= m < i :: text[m] in {32, 9}) && (forall m | i <= m < j :: text[m] !in {32, 9})
    && (j < |text| ==> text[j] in {32, 9})
    && (forall m | k <= m < j :: text[m] != 47) && (k > i ==> text[k - 1] == 47)
  }

  datatype Bang = NoInterpreter | Found(interp: seq<Byte>, iName: seq<Byte>, iArg: Option<seq<Byte>>)

  /** Lines 235-256, on the characters after #! up to the first zero, at most 1022 of them. A line
      that does not end, or only has blanks, names no interpreter. */
  method ParseBang(buf: seq<Byte>) returns (r: Bang)
    requires |buf| <= 1022
    ensures r.NoInterpreter? <==> 10 !in buf || exists n: nat :: FirstNewline(buf, n) && forall m | 0 <= m < n :: buf[m] in {32, 9}
    ensures r.Found? ==> exists n: nat :: FirstNewline(buf, n) && BangReads(buf[..n], r.interp, r.iName, r.iArg)
  {
    var n := 0;
    while n < |buf| && buf[n] != 10
      invariant n <= |buf| && 10 !in buf[..n]
    {
      n := n + 1;
    }
    if n == |buf| {
      assert buf[..n] == buf;
      return NoInterpreter;
    }
    assert FirstNewline(buf, n);
    var text := buf[..n];
    var cp := 0;
    while cp < n && text[cp] in {32, 9}
      invariant cp <= n && forall m | 0 <= m < cp :: text[m] in {32, 9}
    {
      cp := cp + 1;
    }
    if cp == n {
      assert forall m | 0 <= m < n :: buf[m] in {32, 9} by { assert forall m | 0 <= m < n :: text[m] == buf[m]; }
      return NoInterpreter;
    }
    var i, k := cp, cp;
    while cp < n && text[cp] !in {32, 9}
      invariant i <= k <= cp <= n && (cp == i ==> text[i] !in {32, 9})
      invariant forall m | i <= m < cp :: text[m] !in {32, 9}
      invariant (forall m | k <= m < cp :: text[m] != 47) && (k > i ==> text[k - 1] == 47)
      decreases n - cp
    {
      if text[cp] == 47 { k := cp + 1; }
      cp := cp + 1;
    }
    assert BangAt(text, i, cp, k);
    assert buf[i] !in {32, 9} by { assert text[i] == buf[i]; }
    OneNewline(buf);
    r := Found(text[i..cp], text[k..cp], if cp < n then Some(text[cp + 1..]) else None);
  }

  predicate FirstNewline(buf: seq<Byte>, n: nat) {
    n < |buf| && buf[n] == 10 && 10 !in buf[..n]
  }

  lemma OneNewline(buf: seq<Byte>)
    ensures forall m: nat, n: nat | FirstNewline(buf, m) && FirstNewline(buf, n) :: m == n
  {
    forall m: nat, n: nat | FirstNewline(buf, m) && m < n <= |buf| ensures !FirstNewline(buf, n) {
      assert buf[..n][m] == 10;
    }
  }
}

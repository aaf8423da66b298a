/** kernel/chr_drv/console.c: the variables and the video memory behind the terminal of Terminals. */
module Console {
  import opened Terminals
  import opened VideoMemory

  class Display {
    const shape: Shape
    /** The adapter can be told where the screen starts (EGA and VGA). */
    const ega: bool
    const mem: array<Cell>
    var origin: nat
    var scrEnd: nat
    var pos: nat
    var x: nat
    var y: nat
    var top: nat
    var bottom: nat
    var state: nat
    var npar: nat
    var par: seq<Word32>
    var attr: Byte
    var savedX: nat
    var savedY: nat
    /** Where the screen has started so far. */
    ghost var origins: seq<nat>

    ghost predicate Valid()
      reads this
    {
      && ShapeOk(shape)
      && scrEnd == origin + RowAt(shape.cols, shape.lines) <= mem.Length
      && pos == origin + RowAt(shape.cols, y) + x
      && x <= shape.cols && y < shape.lines && top < bottom <= shape.lines
      && savedX <= shape.cols && savedY < shape.lines
      && state < 4 && |par| == 16 && npar < 16
      && (state == 3 ==> forall i | npar < i < 16 :: par[i] == 0)
      && Windows(shape, mem.Length, ega, origins, origin)
    }

    ghost function View(): Screen
      reads this, mem
      requires Valid()
    {
      Screen(Rows(mem[..], origin, shape.cols, shape.lines), x, y, top, bottom, attr, savedX, savedY)
    }

    ghost function Where(): Control
      reads this
      requires Valid()
    {
      if state == 0 then Ground else if state == 1 then Escape else if state == 2 then Bracket else Params(par[..npar + 1])
    }

    lemma ViewOk()
      requires Valid()
      ensures ScreenOk(shape, View())
    {
      RowsShown(mem[..], origin, shape.cols, shape.lines);
    }

    /** No store landed outside the screen as it is now. */
    twostate predicate OutsideKept()
      reads this, mem
    {
      old(origins) <= origins &&
      forall i | 0 <= i < mem.Length && !(origin <= i < scrEnd) :: mem[i] == old(mem[i])
    }

    /** Every store landed inside the screen as it was at some time since. */
    twostate predicate Kept()
      reads this, mem
    {
      old(origins) <= origins && old(origins) != [] &&
      KeptOutside(shape, old(mem[..]), mem[..], origins, |old(origins)| - 1)
    }

    twostate lemma OutsideIsKept()
      requires old(Valid()) && Valid() && OutsideKept()
      ensures Kept()
    {
      KeptInLast(shape, old(mem[..]), mem[..], origins, |old(origins)| - 1);
    }

    /** con_init, lines 677-682, with the cursor where the setup code left it. */
    constructor (shape: Shape, ega: bool, mem: array<Cell>, x: nat, y: nat)
      requires ShapeOk(shape) && RowAt(shape.cols, shape.lines) <= mem.Length && x <= shape.cols && y < shape.lines
      ensures Valid() && this.mem == mem && this.shape == shape && this.ega == ega && Where() == Ground && origins == [0]
      ensures View() == Screen(Rows(mem[..], 0, shape.cols, shape.lines), x, y, 0, shape.lines, 0x07, 0, 0)
    {
      this.shape, this.ega, this.mem := shape, ega, mem;
      origin, scrEnd := 0, RowAt(shape.cols, shape.lines);
      top, bottom := 0, shape.lines;
      this.x, this.y, pos := x, y, RowAt(shape.cols, y) + x;
      state, npar, par, attr := 0, 0, seq(16, i => 0), 0x07;
      savedX, savedY := 0, 0;
      origins := [0];
    }

    // -------------------------------------------------------------- the string instructions

    /** movsl: a pair of cells is read, then written. */
    method MoveLong(dst: nat, src: nat)
      requires dst + 2 <= mem.Length && src + 2 <= mem.Length
      modifies mem
      ensures mem[dst] == old(mem[src]) && mem[dst + 1] == old(mem[src + 1])
      ensures forall k | 0 <= k < mem.Length && k != dst && k != dst + 1 :: mem[k] == old(mem[k])
    {
      var low, high := mem[src], mem[src + 1];
      mem[dst] := low;
      mem[dst + 1] := high;
    }

    /** rep movsl, upwards: n pairs of cells. */
    method MoveLongs(dst: nat, src: nat, n: nat)
      requires dst <= src && src + 2 * n <= mem.Length
      modifies mem
      ensures mem[..] == Copied(old(mem[..]), dst, src, 2 * n)
    {
      ghost var m := mem[..];
      var i, at, from := 0, dst, src;
      while i < n
        invariant 0 <= i <= n && at == dst + 2 * i && from == src + 2 * i
        invariant forall k | dst <= k < at :: mem[k] == m[k - dst + src]
        invariant forall k | 0 <= k < mem.Length && !(dst <= k < at) :: mem[k] == m[k]
      {
        MoveLong(at, from);
        i, at, from := i + 1, at + 2, from + 2;
      }
    }

    /** rep movsl, downwards: the last of n pairs of cells is at dst and src. */
    method MoveLongsDown(dst: nat, src: nat, n: nat)
      requires src <= dst && dst + 2 <= mem.Length && 2 * n <= src + 2
      modifies mem
      ensures mem[..] == Copied(old(mem[..]), dst + 2 - 2 * n, src + 2 - 2 * n, 2 * n)
    {
      ghost var m := mem[..];
      var i := 0;
      var at: int, from: int := dst, src;
      while i < n
        invariant 0 <= i <= n && at == dst - 2 * i && from == src - 2 * i
        invariant forall k | at + 2 <= k < dst + 2 :: mem[k] == m[k - dst + src]
        invariant forall k | 0 <= k < mem.Length && !(at + 2 <= k < dst + 2) :: mem[k] == m[k]
      {
        MoveLong(at, from);
        i, at, from := i + 1, at - 2, from - 2;
      }
    }

    /** rep stosw, upwards. */
    method StoreWords(dst: nat, n: nat)
      requires dst + n <= mem.Length
      modifies mem
      ensures mem[..] == Filled(old(mem[..]), dst, n, shape.erase)
    {
      var i := 0;
      while i < n
        invariant 0 <= i <= n
        invariant forall k | 0 <= k < mem.Length :: mem[k] == if dst <= k < dst + i then shape.erase else old(mem[k])
      {
        mem[dst + i] := shape.erase;
        i := i + 1;
      }
    }

    /** rep stosw, downwards from dst. */
    method StoreWordsDown(dst: nat, n: nat)
      requires n <= dst + 1 <= mem.Length
      modifies mem
      ensures mem[..] == Filled(old(mem[..]), dst + 1 - n, n, shape.erase)
    {
      var i := 0;
      while i < n
        invariant 0 <= i <= n
        invariant forall k | 0 <= k < mem.Length :: mem[k] == if dst - i < k <= dst then shape.erase else old(mem[k])
      {
        mem[dst - i] := shape.erase;
        i := i + 1;
      }
    }

    // -------------------------------------------------------------- scrolling

    /** Lines 107-168. */
    method ScrUp()
      requires Valid()
      modifies this`origin, this`pos, this`scrEnd, this`origins, mem
      ensures Valid() && OutsideKept()
      ensures View() == old(View()).(rows := Up(shape, old(View()).rows, top, bottom))
    {
      if ega && top == 0 && bottom == shape.lines {
        ScrollScreen();
      } else {
        ScrollRegion();
      }
    }

    /** Lines 141-151 and 156-166. */
    method ScrollRegion()
      requires Valid()
      modifies mem
      ensures Valid() && OutsideKept()
      ensures View() == old(View()).(rows := Up(shape, old(View()).rows, top, bottom))
    {
      hide RowAt, Rows, Up, Copied, Filled;
      var c := shape.cols;
      ghost var m := mem[..];
      Bounds(c, top, bottom, shape.lines);
      RowEven(c, bottom - top - 1);
      MoveLongs(origin + RowAt(c, top), origin + RowAt(c, top + 1), RowAt(c, bottom - top - 1) / 2);
      StoreWords(origin + RowAt(c, top) + RowAt(c, bottom - top - 1), c);
      UpShows(shape, m, origin, top, bottom);
      assert mem[..] == ScrolledUp(shape, m, origin, top, bottom);
      forall i: nat | i < mem.Length && !(origin <= i < scrEnd) ensures mem[..][i] == m[i] {
        ScrolledUpAt(shape, m, origin, top, bottom, i);
      }
    }

    /** Lines 112-139: a row further, or back to the start of video memory. */
    method ScrollScreen()
      requires Valid() && ega && top == 0 && bottom == shape.lines
      modifies this`origin, this`pos, this`scrEnd, this`origins, mem
      ensures Valid() && OutsideKept()
      ensures View() == old(View()).(rows := Up(shape, old(View()).rows, top, bottom))
    {
      hide RowAt, Rows, Up, Copied, Filled, Windows, NextOrigin;
      var c := shape.cols;
      ghost var m, org := mem[..], origin;
      Bounds(c, 0, shape.lines, shape.lines);
      RowStep(c, 0);
      WindowMoves(shape, mem.Length, origins, origin);
      RowEven(c, shape.lines - 1);
      origin, pos, scrEnd := origin + c, pos + c, scrEnd + c;
      if scrEnd > mem.Length {
        MoveLongs(0, origin, RowAt(c, shape.lines - 1) / 2);
        StoreWords(RowAt(c, shape.lines - 1), c);
        scrEnd := scrEnd - origin;
        pos := pos - origin;
        origin := 0;
        WrapShows(shape, m, org);
        assert mem[..] == Wrapped(shape, m, org);
        WrappedOutside(shape, m, org);
      } else {
        assert scrEnd - c == org + RowAt(c, shape.lines);
        StoreWords(scrEnd - c, c);
        OriginShows(shape, m, org);
        assert mem[..] == Filled(m, org + RowAt(c, shape.lines), c, shape.erase);
        FilledOutside(m, scrEnd - c, c, shape.erase, origin, scrEnd);
      }
      origins := origins + [origin];
    }

    /** Lines 170-202. */
    method ScrDown()
      requires Valid()
      modifies mem
      ensures Valid() && OutsideKept()
      ensures View() == old(View()).(rows := Down(shape, old(View()).rows, top, bottom))
    {
      hide RowAt, Rows, Down, Copied, Filled;
      var c := shape.cols;
      ghost var m := mem[..];
      Bounds(c, top, bottom, shape.lines);
      RowEven(c, bottom - top - 1);
      var n := RowAt(c, bottom - top - 1) / 2;
      if n > 0 {
        MoveLongsDown(origin + RowAt(c, bottom) - 2, origin + RowAt(c, bottom - 1) - 2, n);
      } else {
        CopiedNothing(m, origin + RowAt(c, top + 1), origin + RowAt(c, top));
      }
      StoreWordsDown(origin + RowAt(c, bottom) - 2 - 2 * n + 1, c);
      DownShows(shape, m, origin, top, bottom);
      assert mem[..] == ScrolledDown(shape, m, origin, top, bottom);
      forall i: nat | i < mem.Length && !(origin <= i < scrEnd) ensures mem[..][i] == m[i] {
        ScrolledDownAt(shape, m, origin, top, bottom, i);
      }
    }

    // -------------------------------------------------------------- the cursor

    /** Lines 88-95. */
    method Gotoxy(newX: Word32, newY: Word32)
      requires Valid()
      modifies this`x, this`y, this`pos
      ensures Valid() && View() == Goto(shape, old(View()), newX, newY)
    {
      hide RowAt, Rows;
      if newX > shape.cols || newY >= shape.lines { return; }
      x, y := newX, newY;
      pos := origin + RowAt(shape.cols, y) + x;
    }

    /** Lines 204-212. */
    method Lf()
      requires Valid()
      modifies this`y, this`origin, this`pos, this`scrEnd, this`origins, mem
      ensures Valid() && OutsideKept() && View() == LineFeed(shape, old(View()))
    {
      hide RowAt, Rows, Up;
      if y + 1 < bottom {
        RowStep(shape.cols, y);
        y := y + 1;
        pos := pos + shape.cols;
        return;
      }
      ScrUp();
    }

    /** Lines 214-222. */
    method Ri()
      requires Valid()
      modifies this`y, this`pos, mem
      ensures Valid() && OutsideKept() && View() == ReverseLineFeed(shape, old(View()))
    {
      hide RowAt, Rows, Down;
      if y > top {
        RowStep(shape.cols, y - 1);
        y := y - 1;
        pos := pos - shape.cols;
        return;
      }
      ScrDown();
    }

    // -------------------------------------------------------------- stores

    /** A store of one cell of the cursor's row shows there. */
    method StoreCell(at: nat, k: nat, c: Cell)
      requires Valid() && k < shape.cols && at == origin + RowAt(shape.cols, y) + k
      modifies mem
      ensures Valid() && OutsideKept()
      ensures y < |old(View()).rows| && |old(View()).rows[y]| == shape.cols
      ensures View() == SetRow(old(View()), old(View()).rows[y][k := c])
    {
      hide RowAt, Rows;
      RowInScreen();
      ghost var m := mem[..];
      ghost var row := View().rows[y];
      mem[at] := c;
      RowStored(shape, m, mem[..], origin, y, row[k := c]);
    }

    /** Where the cursor's row lies, and what it shows. */
    lemma RowInScreen()
      requires Valid()
      ensures origin <= origin + RowAt(shape.cols, y) && origin + RowAt(shape.cols, y) + shape.cols <= scrEnd
      ensures |View().rows| == shape.lines && |View().rows[y]| == shape.cols
      ensures forall k | 0 <= k < shape.cols :: View().rows[y][k] == mem[origin + RowAt(shape.cols, y) + k]
    {
      RowOrder(shape.cols, y, shape.lines);
      assert View().rows[y] == Row(mem[..], origin, shape.cols, y);
    }

    /** Lines 457-461: a cursor past the last column goes to the next line first. */
    method WrapLine()
      requires Valid()
      modifies this`x, this`y, this`origin, this`pos, this`scrEnd, this`origins, mem
      ensures Valid() && OutsideKept() && x < shape.cols
      ensures ScreenOk(shape, old(View())) && View() == Wrap(shape, old(View()))
    {
      hide RowAt, Rows, LineFeed, Windows;
      ViewOk();
      FeedOk(shape, View().(x := 0));
      if x >= shape.cols {
        x := x - shape.cols;
        pos := pos - shape.cols;
        assert View() == old(View()).(x := 0);
        Lf();
      }
    }

    /** Lines 456-466. */
    method PutChar(c: Byte)
      requires Valid()
      modifies this`x, this`y, this`origin, this`pos, this`scrEnd, this`origins, mem
      ensures Valid() && OutsideKept()
      ensures ScreenOk(shape, old(View())) && View() == Print(shape, old(View()), c)
    {
      hide RowAt, Rows, Wrap, Windows;
      WrapLine();
      ViewOk();
      StoreCell(pos, x, 256 * attr + c);
      pos := pos + 1;
      x := x + 1;
    }

    /** Lines 230-237. */
    method Del()
      requires Valid()
      modifies this`x, this`pos, mem
      ensures Valid() && OutsideKept()
      ensures ScreenOk(shape, old(View())) && View() == Delete(shape, old(View()))
    {
      hide RowAt, Rows;
      ViewOk();
      if x > 0 {
        pos := pos - 1;
        x := x - 1;
        StoreCell(pos, x, shape.erase);
      }
    }

    /** Lines 480-488. */
    method TabStop()
      requires Valid()
      modifies this`x, this`y, this`origin, this`pos, this`scrEnd, this`origins, mem
      ensures Valid() && OutsideKept()
      ensures ScreenOk(shape, old(View())) && View() == Tab(shape, old(View()))
    {
      hide RowAt, Rows, LineFeed;
      ViewOk();
      var c := 8 - x % 8;
      x := x + c;
      pos := pos + c;
      if x > shape.cols {
        x := x - shape.cols;
        pos := pos - shape.cols;
        assert View() == old(View()).(x := x);
        Lf();
      }
    }

    /** Lines 239-266. */
    method CsiJ(how: Word32)
      requires Valid()
      modifies mem
      ensures Valid() && OutsideKept()
      ensures ScreenOk(shape, old(View())) && View() == EraseDisplay(shape, old(View()), how)
    {
      hide RowAt, Rows, EraseDisplay;
      ViewOk();
      RowsShown(mem[..], origin, shape.cols, shape.lines);
      RowInScreen();
      RowStep(shape.cols, 0);
      RowDiff(shape.cols, 0, shape.lines);
      var count, start;
      if how == 0 {
        count, start := scrEnd - pos, pos;
      } else if how == 1 {
        count, start := pos - origin, origin;
      } else if how == 2 {
        count, start := RowAt(shape.cols, shape.lines), origin;
      } else {
        NothingErased(shape, View(), how);
        return;
      }
      ghost var m := mem[..];
      EraseShows(shape, View(), m, origin, how, start, count);
      ErasesOnlyRows(shape, View(), how);
      StoreWords(start, count);
      FilledOutside(m, start, count, shape.erase, origin, scrEnd);
    }

    /** Lines 268-297. */
    method CsiK(how: Word32)
      requires Valid()
      modifies mem
      ensures Valid() && OutsideKept()
      ensures ScreenOk(shape, old(View())) && View() == EraseLine(shape, old(View()), how)
    {
      hide RowAt, Rows;
      ViewOk();
      RowInScreen();
      var count, start;
      if how == 0 {
        if x >= shape.cols {
          EmptyErase(shape, View());
          return;
        }
        count, start := shape.cols - x, pos;
      } else if how == 1 {
        start := pos - x;
        count := if x < shape.cols then x else shape.cols;
      } else if how == 2 {
        start, count := pos - x, shape.cols;
      } else {
        return;
      }
      ghost var m, t := mem[..], View();
      StoreWords(start, count);
      FilledOutside(m, start, count, shape.erase, origin, scrEnd);
      EraseLineShows(shape, t, m, origin, how, start, count);
    }

    /** Lines 338-347: n cells from `at` on move up one, and a blank comes in. */
    method ShiftUp(at: nat, n: nat)
      requires at + n <= mem.Length
      modifies mem
      ensures n > 0 ==> mem[at] == shape.erase
      ensures forall k | at < k < at + n :: mem[k] == old(mem[k - 1])
      ensures forall k | 0 <= k < mem.Length && !(at <= k < at + n) :: mem[k] == old(mem[k])
    {
      ghost var m := mem[..];
      var i, blank, p := 0, shape.erase, at;
      while i < n
        invariant 0 <= i <= n && p == at + i && blank == (if i == 0 then shape.erase else m[p - 1])
        invariant i > 0 ==> mem[at] == shape.erase
        invariant forall k | at < k < p :: mem[k] == m[k - 1]
        invariant forall k | 0 <= k < mem.Length && !(at <= k < p) :: mem[k] == m[k]
      {
        var tmp := mem[p];
        mem[p] := blank;
        blank := tmp;
        p := p + 1;
        i := i + 1;
      }
    }

    /** Lines 370-375: n cells from `at` on move down one, and the last is blank. */
    method ShiftDown(at: nat, n: nat)
      requires 0 < n && at + n <= mem.Length
      modifies mem
      ensures mem[at + n - 1] == shape.erase
      ensures forall k | at <= k < at + n - 1 :: mem[k] == old(mem[k + 1])
      ensures forall k | 0 <= k < mem.Length && !(at <= k < at + n) :: mem[k] == old(mem[k])
    {
      ghost var m := mem[..];
      var i, p := 1, at;
      while i < n
        invariant 0 < i <= n && p == at + i - 1
        invariant forall k | at <= k < p :: mem[k] == m[k + 1]
        invariant forall k | 0 <= k < mem.Length && !(at <= k < p) :: mem[k] == m[k]
      {
        mem[p] := mem[p + 1];
        p := p + 1;
        i := i + 1;
      }
      mem[p] := shape.erase;
    }

    /** Lines 336-348. */
    method InsertCharacter()
      requires Valid()
      modifies mem
      ensures Valid() && OutsideKept()
      ensures ScreenOk(shape, old(View())) && View() == InsertChar(shape, old(View()))
    {
      hide RowAt, Rows, InsertChar;
      ViewOk();
      RowInScreen();
      ghost var m, t := mem[..], View();
      if x < shape.cols {
        ShiftUp(pos, shape.cols - x);
        InsertShows(shape, t, m, mem[..], origin, pos, shape.cols - x);
      } else {
        NoRoom(shape, t);
      }
    }

    /** Lines 363-376. */
    method DeleteCharacter()
      requires Valid()
      modifies mem
      ensures Valid() && OutsideKept()
      ensures ScreenOk(shape, old(View())) && View() == DeleteChar(shape, old(View()))
    {
      hide RowAt, Rows, DeleteChar;
      ViewOk();
      RowInScreen();
      ghost var m, t := mem[..], View();
      if x >= shape.cols {
        NoRoom(shape, t);
        return;
      }
      ShiftDown(pos, shape.cols - x);
      DeleteShows(shape, t, m, mem[..], origin, pos, shape.cols - x);
    }

    /** Lines 350-361. */
    method InsertALine()
      requires Valid()
      modifies this`top, this`bottom, mem
      ensures Valid() && OutsideKept()
      ensures ScreenOk(shape, old(View())) && View() == InsertLine(shape, old(View()))
    {
      hide RowAt, Rows, Down;
      ViewOk();
      var oldTop, oldBottom := top, bottom;
      top, bottom := y, shape.lines;
      ScrDown();
      top, bottom := oldTop, oldBottom;
    }

    /** Lines 378-389. On the first line, EGA and VGA scroll by moving the origin. */
    method DeleteALine()
      requires Valid()
      modifies this`top, this`bottom, this`origin, this`pos, this`scrEnd, this`origins, mem
      ensures Valid() && OutsideKept()
      ensures ScreenOk(shape, old(View())) && View() == DeleteLine(shape, old(View()))
    {
      hide RowAt, Rows, Up;
      ViewOk();
      var oldTop, oldBottom := top, bottom;
      top, bottom := y, shape.lines;
      ScrUp();
      top, bottom := oldTop, oldBottom;
    }

    // -------------------------------------------------------------- escape sequences

    /** csi_at, csi_L, csi_P and csi_M, lines 391-429. */
    method Repeat(e: Edit, nr: Word32)
      requires Valid()
      modifies this`top, this`bottom, this`origin, this`pos, this`scrEnd, this`origins, mem
      ensures Valid() && Kept()
      ensures ScreenOk(shape, old(View()))
      ensures View() == EditTimes(shape, old(View()), e, Times(nr, if e.ICH? || e.DCH? then shape.cols else shape.lines))
    {
      hide RowAt, Rows, Windows, KeptOutside, InsertChar, DeleteChar, InsertLine, DeleteLine, ScreenOk;
      ViewOk();
      var limit := if e.ICH? || e.DCH? then shape.cols else shape.lines;
      var n: nat := nr;
      if nr > limit {
        n := limit;
      } else if nr == 0 {
        n := 1;
      }
      ghost var n0 := n;
      OutsideIsKept();
      while n > 0
        invariant Valid() && ScreenOk(shape, View()) && Kept()
        invariant EditTimes(shape, View(), e, n) == EditTimes(shape, old(View()), e, n0)
      {
        EditOk(shape, View(), e);
        label Before:
        match e {
          case ICH => InsertCharacter();
          case DCH => DeleteCharacter();
          case IL => InsertALine();
          case DL => DeleteALine();
        }
        OutsideIsKept@Before();
        KeptThrough(shape, old(mem[..]), old@Before(mem[..]), mem[..], old@Before(origins), origins, |old(origins)| - 1);
        n := n - 1;
      }
    }

    /** csi_m, lines 299-311. */
    method CsiM()
      requires Valid()
      modifies this`attr
      ensures Valid() && View() == old(View()).(attr := Attributes(old(attr), par[..npar + 1]))
    {
      hide RowAt, Rows;
      var i := 0;
      while i <= npar
        invariant 0 <= i <= npar + 1
        invariant Attributes(attr, par[i..npar + 1]) == Attributes(old(attr), par[..npar + 1])
        decreases npar + 1 - i
      {
        assert par[i..npar + 1][0] == par[i] && par[i..npar + 1][1..] == par[i + 1..npar + 1];
        if par[i] == 0 { attr := 0x07; }
        else if par[i] == 1 { attr := 0x0f; }
        else if par[i] == 4 { attr := 0x0f; }
        else if par[i] == 7 { attr := 0x70; }
        else if par[i] == 27 { attr := 0x07; }
        i := i + 1;
      }
    }

    method SaveCur()
      requires Valid()
      modifies this`savedX, this`savedY
      ensures Valid() && View() == old(View()).(savedX := x, savedY := y)
    {
      savedX, savedY := x, y;
    }

    /** Lines 528-564. */
    method MoveCommand(c: Char, p: Word32, q: Word32)
      requires Valid() && IsMove(c)
      modifies this`x, this`y, this`pos
      ensures Valid() && View() == Move(shape, old(View()), c, p, q)
    {
      hide RowAt, Rows, Goto;
      if c == 'G' as int || c == '`' as int { Gotoxy(Dec(p), y); }
      else if c == 'A' as int { Gotoxy(x, Wrap32(y - Inc(p))); }
      else if c == 'B' as int || c == 'e' as int { Gotoxy(x, Wrap32(y + Inc(p))); }
      else if c == 'C' as int || c == 'a' as int { Gotoxy(Wrap32(x + Inc(p)), y); }
      else if c == 'D' as int { Gotoxy(Wrap32(x - Inc(p)), y); }
      else if c == 'E' as int { Gotoxy(0, Wrap32(y + Inc(p))); }
      else if c == 'F' as int { Gotoxy(0, Wrap32(y - Inc(p))); }
      else if c == 'd' as int { Gotoxy(x, Dec(p)); }
      else { Gotoxy(Dec(q), Dec(p)); }
    }

    /** Lines 527-601. */
    method Dispatch(c: Char)
      requires Valid() && state == 3
      modifies this`x, this`y, this`top, this`bottom, this`origin, this`pos, this`scrEnd, this`origins, this`attr, this`savedX, this`savedY, mem
      ensures Valid() && Kept() && ScreenOk(shape, old(View()))
      ensures View() == Command(shape, old(View()), c, par[..npar + 1])
    {
      hide RowAt, Rows, Windows, KeptOutside, EditTimes, Times, EraseDisplay, EraseLine, Attributes, ScreenOk, Move, Goto;
      ViewOk();
      var p, q := par[0], par[1];
      assert Number(par[..npar + 1], 0) == p && Number(par[..npar + 1], 1) == q;
      if IsMove(c) { MoveCommand(c, p, q); }
      else if c == 'J' as int { CsiJ(p); }
      else if c == 'K' as int { CsiK(p); }
      else if c == 'L' as int { Repeat(IL, p); }
      else if c == 'M' as int { Repeat(DL, p); }
      else if c == 'P' as int { Repeat(DCH, p); }
      else if c == '@' as int { Repeat(ICH, p); }
      else if c == 'm' as int { CsiM(); }
      else if c == 'r' as int {
        p := Dec(p);
        if q == 0 { q := shape.lines; }
        if p < q && q <= shape.lines { top, bottom := p, q; }
      }
      else if c == 's' as int { SaveCur(); }
      else if c == 'u' as int { Gotoxy(savedX, savedY); }
      if c !in {'L' as int, 'M' as int, 'P' as int, '@' as int} { OutsideIsKept(); }
    }

    /** Lines 455-492. */
    method PlainChar(c: Char)
      requires Valid()
      modifies this`x, this`y, this`origin, this`pos, this`scrEnd, this`origins, mem
      ensures Valid() && OutsideKept() && ScreenOk(shape, old(View()))
      ensures View() == Plain(shape, old(View()), c)
    {
      hide RowAt, Rows, Windows, Print, Tab, Delete, LineFeed, ScreenOk;
      ViewOk();
      if c > 31 && c < 127 { PutChar(c); }
      else if c == 10 || c == 11 || c == 12 { Lf(); }
      else if c == 13 {
        pos := pos - x;
        x := 0;
      }
      else if c == shape.eraseKey { Del(); }
      else if c == 8 {
        if x > 0 {
          x := x - 1;
          pos := pos - 1;
        }
      }
      else if c == 9 { TabStop(); }
    }

    /** Lines 494-509. */
    method EscapeChar(c: Char)
      requires Valid()
      modifies this`x, this`y, this`origin, this`pos, this`scrEnd, this`origins, this`savedX, this`savedY, mem
      ensures Valid() && OutsideKept() && ScreenOk(shape, old(View()))
      ensures View() == Escaped(shape, old(View()), c)
    {
      hide RowAt, Rows, Windows, LineFeed, ReverseLineFeed, ScreenOk;
      ViewOk();
      if c == '[' as int {
      }
      else if c == 'E' as int { Gotoxy(0, y + 1); }
      else if c == 'M' as int { Ri(); }
      else if c == 'D' as int { Lf(); }
      else if c == 'Z' as int {
      }
      else if x == '7' as int { SaveCur(); }
      else if x == '8' as int { Gotoxy(savedX, savedY); }
    }

    /** Lines 518-526. */
    method ParameterChar(c: Char)
      requires Valid() && state == 3
      modifies this, mem
      ensures Valid() && Kept() && ScreenOk(shape, old(View()))
      ensures Term(View(), Where()) == Parameter(shape, old(View()), old(par[..npar + 1]), c)
    {
      hide RowAt, Rows, Windows, KeptOutside, Command, ScreenOk;
      ViewOk();
      ghost var known := par[..npar + 1];
      if c == ';' as int && npar < 15 {
        npar := npar + 1;
        assert par[..npar + 1] == known + [0];
        OutsideIsKept();
      } else if c >= '0' as int && c <= '9' as int {
        par := par[npar := Wrap32(10 * par[npar] + c - '0' as int)];
        assert par[..npar + 1] == known[|known| - 1 := par[npar]];
        OutsideIsKept();
      } else {
        Dispatch(c);
        state := 0;
      }
    }

    /** Lines 453-603: one character of output. */
    method Take(c: Char)
      requires Valid()
      modifies this, mem
      ensures Valid() && Kept() && ScreenOk(shape, old(View())) && ControlOk(old(Where()))
      ensures Term(View(), Where()) == Step(shape, Term(old(View()), old(Where())), c)
    {
      hide RowAt, Rows, Windows, KeptOutside, Plain, Escaped, Parameter, ScreenOk;
      ViewOk();
      if state == 0 {
        if c == 27 { state := 1; } else { PlainChar(c); }
        OutsideIsKept();
      } else if state == 1 {
        state := 0;
        EscapeChar(c);
        if c == '[' as int { state := 2; }
        OutsideIsKept();
      } else if state == 2 {
        par := seq(16, i => 0);
        npar := 0;
        state := 3;
        assert par[..npar + 1] == [0];
        OutsideIsKept();
        if c != '?' as int { ParameterChar(c); }
      } else {
        ParameterChar(c);
      }
    }

    /** Lines 445-603: what is queued for output, in order. */
    method ConWrite(chars: seq<Char>)
      requires Valid()
      modifies this, mem
      ensures Valid() && Kept() && ScreenOk(shape, old(View())) && ControlOk(old(Where()))
      ensures Term(View(), Where()) == Steps(shape, Term(old(View()), old(Where())), chars)
    {
      hide RowAt, Rows, Windows, KeptOutside, Step, ScreenOk;
      ViewOk();
      var nr := 0;
      assert chars[0..] == chars;
      OutsideIsKept();
      while nr < |chars|
        invariant 0 <= nr <= |chars| && Valid() && Kept() && ScreenOk(shape, View()) && ControlOk(Where())
        invariant Steps(shape, Term(View(), Where()), chars[nr..]) == Steps(shape, Term(old(View()), old(Where())), chars)
      {
        assert chars[nr..][0] == chars[nr] && chars[nr..][1..] == chars[nr + 1..];
        StepOk(shape, Term(View(), Where()), chars[nr]);
        label Before:
        Take(chars[nr]);
        KeptThrough(shape, old(mem[..]), old@Before(mem[..]), mem[..], old@Before(origins), origins, |old(origins)| - 1);
        nr := nr + 1;
      }
    }
  }

  lemma FilledOutside(m: seq<Cell>, dst: nat, n: nat, c: Cell, from: nat, to: nat)
    requires from <= dst && dst + n <= to <= |m|
    ensures forall i | 0 <= i < |m| && !(from <= i < to) :: Filled(m, dst, n, c)[i] == m[i]
  {
  }

  lemma EmptyErase(s: Shape, t: Screen)
    requires ScreenOk(s, t) && t.x == s.cols
    ensures EraseLine(s, t, 0) == t
  {
    assert t.rows[t.y][..t.x] + Blanks(s, s.cols - t.x) == t.rows[t.y];
  }

  /** csi_K: a stretch of the cursor's row is blanked. */
  lemma EraseLineShows(s: Shape, t: Screen, m: seq<Cell>, org: nat, how: nat, start: nat, count: nat)
    requires ScreenOk(s, t) && how <= 2 && org + RowAt(s.cols, s.lines) <= |m| && t.rows == Rows(m, org, s.cols, s.lines)
    requires org + RowAt(s.cols, t.y) + s.cols <= |m|
    requires start == org + RowAt(s.cols, t.y) + if how == 0 then t.x else 0
    requires count == if how == 0 then s.cols - t.x else if how == 1 then t.x else s.cols
    ensures t.(rows := Rows(Filled(m, start, count, s.erase), org, s.cols, s.lines)) == EraseLine(s, t, how)
  {
    hide RowAt, Rows;
    RowShows(s, t, m, org);
    var row := t.rows[t.y];
    var changed := if how == 0 then row[..t.x] + Blanks(s, s.cols - t.x)
                  else if how == 1 then Blanks(s, t.x) + row[t.x..] else Blanks(s, s.cols);
    RowStored(s, m, Filled(m, start, count, s.erase), org, t.y, changed);
  }

  lemma RowShows(s: Shape, t: Screen, m: seq<Cell>, org: nat)
    requires ScreenOk(s, t) && org + RowAt(s.cols, s.lines) <= |m| && t.rows == Rows(m, org, s.cols, s.lines)
    requires org + RowAt(s.cols, t.y) + s.cols <= |m|
    ensures |t.rows[t.y]| == s.cols && forall k | 0 <= k < s.cols :: t.rows[t.y][k] == m[org + RowAt(s.cols, t.y) + k]
  {
    assert t.rows[t.y] == Row(m, org, s.cols, t.y);
  }

  lemma NoRoom(s: Shape, t: Screen)
    requires ScreenOk(s, t) && t.x >= s.cols
    ensures InsertChar(s, t) == t && DeleteChar(s, t) == t
  {
  }

  lemma InsertShows(s: Shape, t: Screen, m: seq<Cell>, m': seq<Cell>, org: nat, at: nat, n: nat)
    requires ScreenOk(s, t) && org + RowAt(s.cols, s.lines) <= |m| == |m'| && t.rows == Rows(m, org, s.cols, s.lines)
    requires org + RowAt(s.cols, t.y) + s.cols <= |m| && t.x < s.cols
    requires at == org + RowAt(s.cols, t.y) + t.x && n == s.cols - t.x
    requires m'[at] == s.erase
    requires forall k | at < k < at + n :: m'[k] == m[k - 1]
    requires forall k | 0 <= k < |m| && !(at <= k < at + n) :: m'[k] == m[k]
    ensures t.(rows := Rows(m', org, s.cols, s.lines)) == InsertChar(s, t)
  {
    hide RowAt, Rows;
    RowShows(s, t, m, org);
    var row := t.rows[t.y];
    var changed := row[..t.x] + [s.erase] + row[t.x..s.cols - 1];
    var from := org + RowAt(s.cols, t.y);
    forall i | 0 <= i < |m| ensures m'[i] == if from <= i < from + s.cols then changed[i - from] else m[i] {
      if from <= i < from + s.cols {
        var j := i - from;
        assert changed[j] == if j < t.x then row[j] else if j == t.x then s.erase else row[j - 1];
        assert j < t.x ==> row[j] == m[i];
        assert j > t.x ==> row[j - 1] == m[i - 1];
      }
    }
    RowStored(s, m, m', org, t.y, changed);
  }

  lemma DeleteShows(s: Shape, t: Screen, m: seq<Cell>, m': seq<Cell>, org: nat, at: nat, n: nat)
    requires ScreenOk(s, t) && org + RowAt(s.cols, s.lines) <= |m| == |m'| && t.rows == Rows(m, org, s.cols, s.lines)
    requires org + RowAt(s.cols, t.y) + s.cols <= |m| && t.x < s.cols
    requires at == org + RowAt(s.cols, t.y) + t.x && n == s.cols - t.x
    requires m'[at + n - 1] == s.erase
    requires forall k | at <= k < at + n - 1 :: m'[k] == m[k + 1]
    requires forall k | 0 <= k < |m| && !(at <= k < at + n) :: m'[k] == m[k]
    ensures t.(rows := Rows(m', org, s.cols, s.lines)) == DeleteChar(s, t)
  {
    hide RowAt, Rows;
    RowShows(s, t, m, org);
    var row := t.rows[t.y];
    var changed := row[..t.x] + row[t.x + 1..] + [s.erase];
    var from := org + RowAt(s.cols, t.y);
    forall i | 0 <= i < |m| ensures m'[i] == if from <= i < from + s.cols then changed[i - from] else m[i] {
      if from <= i < from + s.cols {
        var j := i - from;
        assert changed[j] == if j < t.x then row[j] else if j == s.cols - 1 then s.erase else row[j + 1];
        assert j < t.x ==> row[j] == m[i];
        assert t.x <= j < s.cols - 1 ==> row[j + 1] == m[i + 1];
      }
    }
    RowStored(s, m, m', org, t.y, changed);
  }

  lemma ErasesOnlyRows(s: Shape, t: Screen, how: nat)
    requires ScreenOk(s, t)
    ensures EraseDisplay(s, t, how) == t.(rows := EraseDisplay(s, t, how).rows)
  {
  }

  lemma NothingErased(s: Shape, t: Screen, how: nat)
    requires ScreenOk(s, t) && how > 2
    ensures EraseDisplay(s, t, how) == t
  {
    assert EraseDisplay(s, t, how).rows == t.rows;
  }

  lemma CopiedNothing(m: seq<Cell>, dst: nat, src: nat)
    requires dst <= |m| && src <= |m|
    ensures Copied(m, dst, src, 0) == m
  {
  }
}

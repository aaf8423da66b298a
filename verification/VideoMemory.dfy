/** Video memory as kernel/chr_drv/console.c lays the screen out in it. Addresses count cells of two
    bytes from video_mem_start. */
module VideoMemory {
  import opened Terminals

  /** The offset of a row. */
  function RowAt(cols: nat, r: nat): nat {
    r * cols
  }

  lemma RowStep(cols: nat, r: nat)
    ensures RowAt(cols, r + 1) == RowAt(cols, r) + cols && RowAt(cols, 0) == 0
  {
  }

  lemma {:induction false} RowDiff(cols: nat, r: nat, q: nat)
    requires r <= q
    ensures RowAt(cols, q - r) == RowAt(cols, q) - RowAt(cols, r) >= 0
    decreases q
  {
    hide RowAt;
    RowStep(cols, 0);
    if r < q {
      RowDiff(cols, r, q - 1);
      RowStep(cols, q - 1);
      RowStep(cols, q - 1 - r);
    }
  }

  lemma RowOrder(cols: nat, r: nat, q: nat)
    requires r < q
    ensures RowAt(cols, r) + cols <= RowAt(cols, q)
  {
    hide RowAt;
    RowDiff(cols, r, q);
    RowStep(cols, q - r - 1);
  }

  /** Whole rows are whole pairs of cells. */
  lemma {:induction false} RowEven(cols: nat, n: nat)
    requires cols % 2 == 0
    ensures RowAt(cols, n) % 2 == 0
  {
    hide RowAt;
    RowStep(cols, 0);
    if n > 0 {
      RowEven(cols, n - 1);
      RowStep(cols, n - 1);
    }
  }

  function Row(mem: seq<Cell>, org: nat, cols: nat, r: nat): (row: seq<Cell>)
    requires org + RowAt(cols, r) + cols <= |mem|
    ensures |row| == cols && forall k | 0 <= k < cols :: row[k] == mem[org + RowAt(cols, r) + k]
  {
    mem[org + RowAt(cols, r)..][..cols]
  }

  /** The rows of the screen whose first cell is at org. */
  function Rows(mem: seq<Cell>, org: nat, cols: nat, lines: nat): (rows: seq<seq<Cell>>)
    requires org + RowAt(cols, lines) <= |mem|
    ensures |rows| == lines
  {
    seq(lines, r requires 0 <= r < lines => (RowOrder(cols, r, lines); Row(mem, org, cols, r)))
  }

  /** Cell k of row r. */
  predicate CellIs(mem: seq<Cell>, org: nat, cols: nat, r: nat, k: nat, c: Cell) {
    org + RowAt(cols, r) + k < |mem| && mem[org + RowAt(cols, r) + k] == c
  }

  ghost predicate Shown(mem: seq<Cell>, org: nat, cols: nat, rows: seq<seq<Cell>>) {
    forall r: nat, k: nat | r < |rows| && k < |rows[r]| :: CellIs(mem, org, cols, r, k, rows[r][k])
  }

  lemma RowsShown(mem: seq<Cell>, org: nat, cols: nat, lines: nat)
    requires org + RowAt(cols, lines) <= |mem|
    ensures Shown(mem, org, cols, Rows(mem, org, cols, lines))
    ensures forall r | 0 <= r < lines :: |Rows(mem, org, cols, lines)[r]| == cols
  {
    var rows := Rows(mem, org, cols, lines);
    forall r: nat | r < lines ensures |rows[r]| == cols && forall k: nat | k < cols :: CellIs(mem, org, cols, r, k, rows[r][k]) {
      RowOrder(cols, r, lines);
      assert rows[r] == Row(mem, org, cols, r);
    }
  }

  lemma RowsFrom(mem: seq<Cell>, org: nat, cols: nat, lines: nat, rows: seq<seq<Cell>>)
    requires org + RowAt(cols, lines) <= |mem| && |rows| == lines
    requires forall r | 0 <= r < lines :: |rows[r]| == cols
    requires Shown(mem, org, cols, rows)
    ensures Rows(mem, org, cols, lines) == rows
  {
    RowsShown(mem, org, cols, lines);
    var got := Rows(mem, org, cols, lines);
    forall r: nat | r < lines ensures got[r] == rows[r] {
      forall k: nat | k < cols ensures got[r][k] == rows[r][k] {
        assert CellIs(mem, org, cols, r, k, rows[r][k]) && CellIs(mem, org, cols, r, k, got[r][k]);
      }
    }
  }

  // ---------------------------------------------------------------- block copies and fills

  /** n cells copied as if at once. */
  function Copied(mem: seq<Cell>, dst: nat, src: nat, n: nat): (m: seq<Cell>)
    requires dst + n <= |mem| && src + n <= |mem|
    ensures |m| == |mem|
    ensures forall i | 0 <= i < |mem| :: m[i] == if dst <= i < dst + n then mem[i - dst + src] else mem[i]
  {
    mem[..dst] + mem[src..src + n] + mem[dst + n..]
  }

  function Filled(mem: seq<Cell>, dst: nat, n: nat, c: Cell): (m: seq<Cell>)
    requires dst + n <= |mem|
    ensures |m| == |mem|
    ensures forall i | 0 <= i < |mem| :: m[i] == if dst <= i < dst + n then c else mem[i]
  {
    mem[..dst] + seq(n, k => c) + mem[dst + n..]
  }

  // ---------------------------------------------------------------- what they show

  lemma Bounds(cols: nat, top: nat, bottom: nat, lines: nat)
    requires top < bottom <= lines
    ensures RowAt(cols, top) + cols == RowAt(cols, top + 1) <= RowAt(cols, bottom) <= RowAt(cols, lines)
    ensures RowAt(cols, bottom - 1) + cols == RowAt(cols, bottom)
    ensures RowAt(cols, bottom - top - 1) == RowAt(cols, bottom) - RowAt(cols, top) - cols >= 0
  {
    RowStep(cols, top);
    RowStep(cols, bottom - 1);
    RowDiff(cols, top + 1, bottom);
    RowDiff(cols, bottom, lines);
  }

  /** Two rows are the same or a row apart. */
  lemma Order(cols: nat, r: nat, q: nat)
    ensures r < q ==> RowAt(cols, r) + cols <= RowAt(cols, q)
    ensures q < r ==> RowAt(cols, q) + cols <= RowAt(cols, r)
  {
    if r < q { RowOrder(cols, r, q); }
    if q < r { RowOrder(cols, q, r); }
  }

  /** The cell that shows at row r, column k after the rows of [from, to) are overlaid with those
      `shift` rows further, or before. */
  lemma CellMoves(cols: nat, r: nat, top: nat, bottom: nat)
    requires top < bottom
    ensures r < top ==> RowAt(cols, r) + cols <= RowAt(cols, top)
    ensures top <= r ==> RowAt(cols, top) <= RowAt(cols, r)
    ensures r < bottom ==> RowAt(cols, r) + cols <= RowAt(cols, bottom)
    ensures r + 1 < bottom ==> RowAt(cols, r) + 2 * cols <= RowAt(cols, bottom)
    ensures r >= bottom ==> RowAt(cols, bottom) <= RowAt(cols, r)
    ensures RowAt(cols, r + 1) == RowAt(cols, r) + cols
    ensures r > 0 ==> RowAt(cols, r - 1) + cols == RowAt(cols, r)
    ensures top < r ==> RowAt(cols, top) + cols <= RowAt(cols, r)
  {
    Order(cols, r, top);
    Order(cols, r, bottom);
    RowStep(cols, r);
    Order(cols, r + 1, bottom);
    if r > 0 { RowStep(cols, r - 1); }
  }

  /** scrup on a region: the copy of lines 141-152, and the fill. */
  function ScrolledUp(s: Shape, mem: seq<Cell>, org: nat, top: nat, bottom: nat): (m: seq<Cell>)
    requires top < bottom && org + RowAt(s.cols, bottom) <= |mem|
    ensures |m| == |mem|
  {
    Bounds(s.cols, top, bottom, bottom);
    Filled(Copied(mem, org + RowAt(s.cols, top), org + RowAt(s.cols, top + 1), RowAt(s.cols, bottom - top - 1)),
           org + RowAt(s.cols, bottom - 1), s.cols, s.erase)
  }

  lemma UpShows(s: Shape, mem: seq<Cell>, org: nat, top: nat, bottom: nat)
    requires org + RowAt(s.cols, s.lines) <= |mem| && top < bottom <= s.lines
    ensures RowAt(s.cols, bottom) <= RowAt(s.cols, s.lines)
    ensures Rows(ScrolledUp(s, mem, org, top, bottom), org, s.cols, s.lines) == Up(s, Rows(mem, org, s.cols, s.lines), top, bottom)
  {
    var cols := s.cols;
    Bounds(cols, top, bottom, s.lines);
    var mem' := ScrolledUp(s, mem, org, top, bottom);
    var rows := Rows(mem, org, cols, s.lines);
    var want := Up(s, rows, top, bottom);
    RowsShown(mem, org, cols, s.lines);
    MovedRows(s, rows, top, bottom);
    forall r: nat, k: nat | r < s.lines && k < cols ensures CellIs(mem', org, cols, r, k, want[r][k]) {
      UpCell(s, mem, org, top, bottom, rows, r, k);
    }
    RowsFrom(mem', org, cols, s.lines, want);
  }

  /** Rows that show in memory, all of one width. */
  ghost predicate Showing(s: Shape, mem: seq<Cell>, org: nat, rows: seq<seq<Cell>>) {
    && org + RowAt(s.cols, s.lines) <= |mem| && |rows| == s.lines
    && (forall r | 0 <= r < |rows| :: |rows[r]| == s.cols)
    && Shown(mem, org, s.cols, rows)
  }

  lemma ShownCell(s: Shape, mem: seq<Cell>, org: nat, rows: seq<seq<Cell>>, r: nat, k: nat)
    requires Showing(s, mem, org, rows)
    ensures |rows| == s.lines && org + RowAt(s.cols, s.lines) <= |mem|
    ensures r < s.lines ==> |rows[r]| == s.cols
    ensures r < s.lines && k < s.cols ==> CellIs(mem, org, s.cols, r, k, rows[r][k])
  {
  }

  lemma UpRowSize(s: Shape, mem: seq<Cell>, org: nat, rows: seq<seq<Cell>>, top: nat, bottom: nat, r: nat)
    requires Showing(s, mem, org, rows) && top < bottom <= s.lines && r < s.lines
    ensures |rows| == s.lines
    ensures |Up(s, rows, top, bottom)[r]| == s.cols && |Down(s, rows, top, bottom)[r]| == s.cols
  {
    MovedRows(s, rows, top, bottom);
  }

  lemma UpCell(s: Shape, mem: seq<Cell>, org: nat, top: nat, bottom: nat, rows: seq<seq<Cell>>, r: nat, k: nat)
    requires Showing(s, mem, org, rows) && top < bottom <= s.lines && r < s.lines && k < s.cols
    ensures RowAt(s.cols, bottom) <= RowAt(s.cols, s.lines) && |Up(s, rows, top, bottom)[r]| == s.cols
    ensures CellIs(ScrolledUp(s, mem, org, top, bottom), org, s.cols, r, k, Up(s, rows, top, bottom)[r][k])
  {
    hide RowAt, Up, ScrolledUp, Showing;
    UpRowSize(s, mem, org, rows, top, bottom, r);
    ShownCell(s, mem, org, rows, if top <= r < bottom - 1 then r + 1 else r, k);
    Bounds(s.cols, top, bottom, s.lines);
    CellMoves(s.cols, r, top, bottom);
    Order(s.cols, r, s.lines);
    UpAt(s, rows, top, bottom, r);
    ScrolledUpAt(s, mem, org, top, bottom, org + RowAt(s.cols, r) + k);
  }

  lemma UpAt(s: Shape, rows: seq<seq<Cell>>, top: nat, bottom: nat, r: nat)
    requires top < bottom <= |rows| && r < |rows|
    ensures Up(s, rows, top, bottom)[r] == if r == bottom - 1 then Blanks(s, s.cols) else if top <= r < bottom then rows[r + 1] else rows[r]
    ensures Down(s, rows, top, bottom)[r] == if r == top then Blanks(s, s.cols) else if top < r < bottom then rows[r - 1] else rows[r]
  {
  }

  lemma ScrolledUpAt(s: Shape, mem: seq<Cell>, org: nat, top: nat, bottom: nat, i: nat)
    requires top < bottom && org + RowAt(s.cols, bottom) <= |mem| && i < |mem|
    ensures ScrolledUp(s, mem, org, top, bottom)[i] ==
      if org + RowAt(s.cols, bottom - 1) <= i < org + RowAt(s.cols, bottom - 1) + s.cols then s.erase
      else if org + RowAt(s.cols, top) <= i < org + RowAt(s.cols, bottom - 1) then mem[i + s.cols] else mem[i]
  {
    hide RowAt;
    Bounds(s.cols, top, bottom, bottom);
  }

  lemma ScrolledDownAt(s: Shape, mem: seq<Cell>, org: nat, top: nat, bottom: nat, i: nat)
    requires top < bottom && org + RowAt(s.cols, bottom) <= |mem| && i < |mem|
    ensures ScrolledDown(s, mem, org, top, bottom)[i] ==
      if org + RowAt(s.cols, top) <= i < org + RowAt(s.cols, top) + s.cols then s.erase
      else if org + RowAt(s.cols, top) + s.cols <= i < org + RowAt(s.cols, bottom) then mem[i - s.cols] else mem[i]
  {
    hide RowAt;
    Bounds(s.cols, top, bottom, bottom);
  }

  /** scrdown: the copy of lines 174-200 runs down from the end, and the fill after it. */
  function ScrolledDown(s: Shape, mem: seq<Cell>, org: nat, top: nat, bottom: nat): (m: seq<Cell>)
    requires top < bottom && org + RowAt(s.cols, bottom) <= |mem|
    ensures |m| == |mem|
  {
    Bounds(s.cols, top, bottom, bottom);
    Filled(Copied(mem, org + RowAt(s.cols, top + 1), org + RowAt(s.cols, top), RowAt(s.cols, bottom - top - 1)),
           org + RowAt(s.cols, top), s.cols, s.erase)
  }

  lemma DownCell(s: Shape, mem: seq<Cell>, org: nat, top: nat, bottom: nat, rows: seq<seq<Cell>>, r: nat, k: nat)
    requires Showing(s, mem, org, rows) && top < bottom <= s.lines && r < s.lines && k < s.cols
    ensures RowAt(s.cols, bottom) <= RowAt(s.cols, s.lines) && |Down(s, rows, top, bottom)[r]| == s.cols
    ensures CellIs(ScrolledDown(s, mem, org, top, bottom), org, s.cols, r, k, Down(s, rows, top, bottom)[r][k])
  {
    hide RowAt, Down, ScrolledDown, Showing;
    UpRowSize(s, mem, org, rows, top, bottom, r);
    ShownCell(s, mem, org, rows, if top < r < bottom then r - 1 else r, k);
    Bounds(s.cols, top, bottom, s.lines);
    CellMoves(s.cols, r, top, bottom);
    Order(s.cols, r, s.lines);
    UpAt(s, rows, top, bottom, r);
    ScrolledDownAt(s, mem, org, top, bottom, org + RowAt(s.cols, r) + k);
  }

  lemma DownShows(s: Shape, mem: seq<Cell>, org: nat, top: nat, bottom: nat)
    requires org + RowAt(s.cols, s.lines) <= |mem| && top < bottom <= s.lines
    ensures RowAt(s.cols, bottom) <= RowAt(s.cols, s.lines)
    ensures Rows(ScrolledDown(s, mem, org, top, bottom), org, s.cols, s.lines) == Down(s, Rows(mem, org, s.cols, s.lines), top, bottom)
  {
    var cols := s.cols;
    Bounds(cols, top, bottom, s.lines);
    var mem' := ScrolledDown(s, mem, org, top, bottom);
    var rows := Rows(mem, org, cols, s.lines);
    var want := Down(s, rows, top, bottom);
    RowsShown(mem, org, cols, s.lines);
    MovedRows(s, rows, top, bottom);
    forall r: nat, k: nat | r < s.lines && k < cols ensures CellIs(mem', org, cols, r, k, want[r][k]) {
      DownCell(s, mem, org, top, bottom, rows, r, k);
    }
    RowsFrom(mem', org, cols, s.lines, want);
  }

  /** EGA and VGA scroll the whole screen by showing it a row further (lines 112-114), with the row
      that comes in blanked (lines 131-137). */
  lemma OriginShows(s: Shape, mem: seq<Cell>, org: nat)
    requires s.lines > 0 && org + s.cols + RowAt(s.cols, s.lines) <= |mem|
    ensures org + RowAt(s.cols, s.lines) + s.cols <= |mem|
    ensures Rows(Filled(mem, org + RowAt(s.cols, s.lines), s.cols, s.erase), org + s.cols, s.cols, s.lines)
         == Up(s, Rows(mem, org, s.cols, s.lines), 0, s.lines)
  {
    var cols := s.cols;
    var mem' := Filled(mem, org + RowAt(cols, s.lines), cols, s.erase);
    var rows := Rows(mem, org, cols, s.lines);
    var want := Up(s, rows, 0, s.lines);
    RowsShown(mem, org, cols, s.lines);
    MovedRows(s, rows, 0, s.lines);
    forall r: nat, k: nat | r < s.lines && k < cols ensures CellIs(mem', org + cols, cols, r, k, want[r][k]) {
      OriginCell(s, mem, org, rows, r, k);
    }
    RowsFrom(mem', org + cols, cols, s.lines, want);
  }

  lemma OriginCell(s: Shape, mem: seq<Cell>, org: nat, rows: seq<seq<Cell>>, r: nat, k: nat)
    requires Showing(s, mem, org, rows) && r < s.lines && k < s.cols && org + s.cols + RowAt(s.cols, s.lines) <= |mem|
    ensures |Up(s, rows, 0, s.lines)[r]| == s.cols
    ensures CellIs(Filled(mem, org + RowAt(s.cols, s.lines), s.cols, s.erase), org + s.cols, s.cols, r, k, Up(s, rows, 0, s.lines)[r][k])
  {
    hide RowAt, Up, Showing;
    UpRowSize(s, mem, org, rows, 0, s.lines, r);
    ShownCell(s, mem, org, rows, r + 1, k);
    UpAt(s, rows, 0, s.lines, r);
    CellMoves(s.cols, r, 0, s.lines);
    RowStep(s.cols, s.lines - 1);
  }

  /** At the end of video memory the rows that stay are copied back to its start (lines 116-126). */
  function Wrapped(s: Shape, mem: seq<Cell>, org: nat): (m: seq<Cell>)
    requires s.lines > 0 && org + RowAt(s.cols, s.lines) <= |mem|
    ensures |m| == |mem|
  {
    Bounds(s.cols, 0, s.lines, s.lines);
    Filled(Copied(mem, 0, org + s.cols, RowAt(s.cols, s.lines - 1)), RowAt(s.cols, s.lines - 1), s.cols, s.erase)
  }

  lemma WrapShows(s: Shape, mem: seq<Cell>, org: nat)
    requires s.lines > 0 && org + RowAt(s.cols, s.lines) <= |mem|
    ensures Rows(Wrapped(s, mem, org), 0, s.cols, s.lines) == Up(s, Rows(mem, org, s.cols, s.lines), 0, s.lines)
  {
    var cols := s.cols;
    var mem' := Wrapped(s, mem, org);
    var rows := Rows(mem, org, cols, s.lines);
    var want := Up(s, rows, 0, s.lines);
    RowsShown(mem, org, cols, s.lines);
    MovedRows(s, rows, 0, s.lines);
    forall r: nat, k: nat | r < s.lines && k < cols ensures CellIs(mem', 0, cols, r, k, want[r][k]) {
      WrapCell(s, mem, org, rows, r, k);
    }
    RowsFrom(mem', 0, cols, s.lines, want);
  }

  lemma WrappedAt(s: Shape, mem: seq<Cell>, org: nat, i: nat)
    requires s.lines > 0 && org + RowAt(s.cols, s.lines) <= |mem| && i < |mem|
    ensures Wrapped(s, mem, org)[i] ==
      if i < RowAt(s.cols, s.lines - 1) && i + org + s.cols < |mem| then mem[i + org + s.cols]
      else if RowAt(s.cols, s.lines - 1) <= i < RowAt(s.cols, s.lines - 1) + s.cols then s.erase else mem[i]
  {
    hide RowAt;
    Bounds(s.cols, 0, s.lines, s.lines);
    RowStep(s.cols, 0);
  }

  lemma WrappedOutside(s: Shape, mem: seq<Cell>, org: nat)
    requires s.lines > 0 && org + RowAt(s.cols, s.lines) <= |mem|
    ensures forall i | 0 <= i < |mem| && !(0 <= i < RowAt(s.cols, s.lines)) :: Wrapped(s, mem, org)[i] == mem[i]
  {
    hide RowAt, Wrapped;
    Bounds(s.cols, 0, s.lines, s.lines);
    forall i | 0 <= i < |mem| && !(0 <= i < RowAt(s.cols, s.lines)) ensures Wrapped(s, mem, org)[i] == mem[i] {
      WrappedAt(s, mem, org, i);
    }
  }

  lemma WrapCell(s: Shape, mem: seq<Cell>, org: nat, rows: seq<seq<Cell>>, r: nat, k: nat)
    requires Showing(s, mem, org, rows) && r < s.lines && k < s.cols
    ensures |Up(s, rows, 0, s.lines)[r]| == s.cols
    ensures CellIs(Wrapped(s, mem, org), 0, s.cols, r, k, Up(s, rows, 0, s.lines)[r][k])
  {
    hide RowAt, Up, Showing, Wrapped;
    UpRowSize(s, mem, org, rows, 0, s.lines, r);
    ShownCell(s, mem, org, rows, r + 1, k);
    UpAt(s, rows, 0, s.lines, r);
    Bounds(s.cols, 0, s.lines, s.lines);
    RowStep(s.cols, 0);
    CellMoves(s.cols, r, 0, s.lines);
    Order(s.cols, r, s.lines - 1);
    WrappedAt(s, mem, org, RowAt(s.cols, r) + k);
  }

  /** A change inside one row. */
  lemma RowStored(s: Shape, mem: seq<Cell>, mem': seq<Cell>, org: nat, y: nat, row: seq<Cell>)
    requires org + RowAt(s.cols, s.lines) <= |mem| == |mem'| && y < s.lines && |row| == s.cols
    requires org + RowAt(s.cols, y) + s.cols <= |mem|
    requires forall i | 0 <= i < |mem| ::
      mem'[i] == if org + RowAt(s.cols, y) <= i < org + RowAt(s.cols, y) + s.cols then row[i - org - RowAt(s.cols, y)] else mem[i]
    ensures Rows(mem', org, s.cols, s.lines) == Rows(mem, org, s.cols, s.lines)[y := row]
  {
    var cols := s.cols;
    var rows := Rows(mem, org, cols, s.lines);
    RowsShown(mem, org, cols, s.lines);
    var want := rows[y := row];
    forall r: nat, k: nat | r < |want| && k < |want[r]| ensures CellIs(mem', org, cols, r, k, want[r][k]) {
      hide RowAt, Rows;
      assert CellIs(mem, org, cols, r, k, rows[r][k]);
      Order(cols, r, y);
    }
    RowsFrom(mem', org, cols, s.lines, want);
  }

  /** csi_J: one stretch of cells is blanked. */
  lemma EraseShows(s: Shape, t: Screen, mem: seq<Cell>, org: nat, how: nat, start: nat, count: nat)
    requires ScreenOk(s, t) && Showing(s, mem, org, t.rows) && how <= 2 && start + count <= |mem|
    requires start == if how == 0 then org + RowAt(s.cols, t.y) + t.x else org
    requires count == if how == 0 then org + RowAt(s.cols, s.lines) - start
                      else if how == 1 then RowAt(s.cols, t.y) + t.x else RowAt(s.cols, s.lines)
    ensures Rows(Filled(mem, start, count, s.erase), org, s.cols, s.lines) == EraseDisplay(s, t, how).rows
  {
    var cols := s.cols;
    var mem' := Filled(mem, start, count, s.erase);
    var want := EraseDisplay(s, t, how).rows;
    assert |want| == s.lines;
    forall r: nat, k: nat | r < |want| && k < |want[r]| ensures CellIs(mem', org, cols, r, k, want[r][k]) {
      hide RowAt;
      assert CellIs(mem, org, cols, r, k, t.rows[r][k]);
      assert want[r] == ErasedRow(s, t, how, r);
      Order(cols, r, t.y);
      Order(cols, r, s.lines);
    }
    RowsFrom(mem', org, cols, s.lines, want);
  }

  // ---------------------------------------------------------------- the windows on video memory

  /** Where scrolling the whole screen puts it: a row further, or back to the start of video memory when
      it would stick out (lines 112-129). */
  function NextOrigin(s: Shape, length: nat, org: nat): nat {
    if org + s.cols + RowAt(s.cols, s.lines) > length then 0 else org + s.cols
  }

  /** The origins the screen has had, the present one last: each follows from the one before, and an
      adapter that cannot move the screen keeps the first. */
  ghost predicate Windows(s: Shape, length: nat, moves: bool, origins: seq<nat>, org: nat) {
    && origins != [] && origins[|origins| - 1] == org
    && (!moves ==> |origins| == 1)
    && forall k | 0 <= k < |origins| - 1 :: origins[k + 1] == NextOrigin(s, length, origins[k])
  }

  lemma WindowMoves(s: Shape, length: nat, origins: seq<nat>, org: nat)
    requires Windows(s, length, true, origins, org)
    ensures Windows(s, length, true, origins + [NextOrigin(s, length, org)], NextOrigin(s, length, org))
    ensures NextOrigin(s, length, org) == if org + s.cols + RowAt(s.cols, s.lines) > length then 0 else org + s.cols
  {
  }

  /** Cell i was not on the screen in any of the windows number `from` and later. */
  ghost predicate OffScreen(s: Shape, origins: seq<nat>, from: nat, i: nat) {
    forall k | from <= k < |origins| :: !(origins[k] <= i < origins[k] + RowAt(s.cols, s.lines))
  }

  /** No cell changed but on the screen as it was then. */
  ghost predicate KeptOutside(s: Shape, m: seq<Cell>, m': seq<Cell>, origins: seq<nat>, from: nat) {
    |m'| == |m| && forall i: nat | i < |m| && OffScreen(s, origins, from, i) :: m'[i] == m[i]
  }

  lemma KeptInLast(s: Shape, m: seq<Cell>, m': seq<Cell>, origins: seq<nat>, from: nat)
    requires |m'| == |m| && from < |origins|
    requires forall i: nat | i < |m| && !(origins[|origins| - 1] <= i < origins[|origins| - 1] + RowAt(s.cols, s.lines)) :: m'[i] == m[i]
    ensures KeptOutside(s, m, m', origins, from)
  {
  }

  lemma KeptThrough(s: Shape, m: seq<Cell>, m': seq<Cell>, m'': seq<Cell>, origins: seq<nat>, origins': seq<nat>, from: nat)
    requires from < |origins| && origins <= origins'
    requires KeptOutside(s, m, m', origins, from) && KeptOutside(s, m', m'', origins', |origins| - 1)
    ensures KeptOutside(s, m, m'', origins', from)
  {
    forall i: nat | i < |m| && OffScreen(s, origins', from, i) ensures m''[i] == m[i] {
      forall k | from <= k < |origins| ensures !(origins[k] <= i < origins[k] + RowAt(s.cols, s.lines)) {
        assert origins'[k] == origins[k];
      }
      assert OffScreen(s, origins, from, i) && OffScreen(s, origins', |origins| - 1, i);
    }
  }
}

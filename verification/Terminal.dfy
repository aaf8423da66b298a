/** The terminal that kernel/chr_drv/console.c shows: a grid of cells, a cursor, a scrolling region
    and the escape sequences that work on them, with no word of video memory. */
module Terminals {
  type Cell = n: nat | n < 0x1_0000
  type Word32 = n: nat | n < 0x1_0000_0000
  type Byte = n: nat | n < 256
  /** A signed char. */
  type Char = c: int | -128 <= c < 128 witness 0

  datatype Shape = Shape(cols: nat, lines: nat, erase: Cell, eraseKey: Byte)

  /** Columns come in pairs, since scrolling copies two cells at a time, and a tab fits in a row. */
  predicate ShapeOk(s: Shape) {
    s.cols >= 8 && s.cols % 2 == 0 && s.lines >= 1 && s.lines < 0x8000 && s.cols < 0x8000
  }

  /** Rows of cells; the cursor may stand past the last column. */
  datatype Screen = Screen(rows: seq<seq<Cell>>, x: nat, y: nat, top: nat, bottom: nat, attr: Byte,
                           savedX: nat, savedY: nat)

  predicate ScreenOk(s: Shape, t: Screen) {
    && |t.rows| == s.lines && (forall r | 0 <= r < |t.rows| :: |t.rows[r]| == s.cols)
    && t.x <= s.cols && t.y < s.lines && t.top < t.bottom <= s.lines
    && t.savedX <= s.cols && t.savedY < s.lines
  }

  function Blanks(s: Shape, n: nat): (b: seq<Cell>)
    ensures |b| == n && forall k | 0 <= k < n :: b[k] == s.erase
  {
    seq(n, k => s.erase)
  }

  // ---------------------------------------------------------------- what the routines do

  /** scrup: the rows of the region move up one, and the last is blank. */
  function Up(s: Shape, rows: seq<seq<Cell>>, top: nat, bottom: nat): (r: seq<seq<Cell>>)
    requires top < bottom <= |rows|
    ensures |r| == |rows|
  {
    rows[..top] + rows[top + 1..bottom] + [Blanks(s, s.cols)] + rows[bottom..]
  }

  /** scrdown. */
  function Down(s: Shape, rows: seq<seq<Cell>>, top: nat, bottom: nat): (r: seq<seq<Cell>>)
    requires top < bottom <= |rows|
    ensures |r| == |rows|
  {
    rows[..top] + [Blanks(s, s.cols)] + rows[top..bottom - 1] + rows[bottom..]
  }

  function Goto(s: Shape, t: Screen, x: nat, y: nat): Screen {
    if x > s.cols || y >= s.lines then t else t.(x := x, y := y)
  }

  function LineFeed(s: Shape, t: Screen): Screen
    requires t.top < t.bottom <= |t.rows|
  {
    if t.y + 1 < t.bottom then t.(y := t.y + 1) else t.(rows := Up(s, t.rows, t.top, t.bottom))
  }

  function ReverseLineFeed(s: Shape, t: Screen): Screen
    requires t.top < t.bottom <= |t.rows|
  {
    if t.y > t.top then t.(y := t.y - 1) else t.(rows := Down(s, t.rows, t.top, t.bottom))
  }

  lemma MovedRows(s: Shape, rows: seq<seq<Cell>>, top: nat, bottom: nat)
    requires top < bottom <= |rows| && forall r | 0 <= r < |rows| :: |rows[r]| == s.cols
    ensures forall r | 0 <= r < |rows| :: |Up(s, rows, top, bottom)[r]| == s.cols
    ensures forall r | 0 <= r < |rows| :: |Down(s, rows, top, bottom)[r]| == s.cols
  {
  }

  lemma FeedOk(s: Shape, t: Screen)
    requires ScreenOk(s, t)
    ensures ScreenOk(s, LineFeed(s, t)) && ScreenOk(s, ReverseLineFeed(s, t))
    ensures LineFeed(s, t).x == t.x
  {
    MovedRows(s, t.rows, t.top, t.bottom);
  }

  function SetRow(t: Screen, row: seq<Cell>): Screen
    requires t.y < |t.rows|
  {
    t.(rows := t.rows[t.y := row])
  }

  /** A cursor past the last column goes to the start of the next line. */
  function Wrap(s: Shape, t: Screen): (w: Screen)
    requires ShapeOk(s) && ScreenOk(s, t)
    ensures ScreenOk(s, w) && w.x < s.cols
  {
    FeedOk(s, t.(x := 0));
    if t.x >= s.cols then LineFeed(s, t.(x := 0)) else t
  }

  function Print(s: Shape, t: Screen, c: Byte): Screen
    requires ShapeOk(s) && ScreenOk(s, t)
  {
    var w := Wrap(s, t);
    SetRow(w, w.rows[w.y][w.x := 256 * w.attr + c]).(x := w.x + 1)
  }

  function Tab(s: Shape, t: Screen): Screen
    requires ScreenOk(s, t)
  {
    var x := t.x + 8 - t.x % 8;
    if x > s.cols then LineFeed(s, t.(x := x - s.cols)) else t.(x := x)
  }

  function Delete(s: Shape, t: Screen): Screen
    requires ScreenOk(s, t)
  {
    if t.x > 0 then SetRow(t, t.rows[t.y][t.x - 1 := s.erase]).(x := t.x - 1) else t
  }

  /** csi_J, row by row: from the cursor on, up to the cursor, or everything. */
  function ErasedRow(s: Shape, t: Screen, how: nat, r: nat): (row: seq<Cell>)
    requires ScreenOk(s, t) && r < s.lines
    ensures |row| == s.cols
  {
    var row := t.rows[r];
    if how == 0 then
      if r < t.y then row else if r == t.y then row[..t.x] + Blanks(s, s.cols - t.x) else Blanks(s, s.cols)
    else if how == 1 then
      if r < t.y then Blanks(s, s.cols) else if r == t.y then Blanks(s, t.x) + row[t.x..] else row
    else if how == 2 then Blanks(s, s.cols)
    else row
  }

  function EraseDisplay(s: Shape, t: Screen, how: nat): Screen
    requires ScreenOk(s, t)
  {
    t.(rows := seq(s.lines, r requires 0 <= r < s.lines => ErasedRow(s, t, how, r)))
  }

  function EraseLine(s: Shape, t: Screen, how: nat): Screen
    requires ScreenOk(s, t)
  {
    var row := t.rows[t.y];
    if how == 0 then SetRow(t, row[..t.x] + Blanks(s, s.cols - t.x))
    else if how == 1 then SetRow(t, Blanks(s, t.x) + row[t.x..])
    else if how == 2 then SetRow(t, Blanks(s, s.cols))
    else t
  }

  function InsertChar(s: Shape, t: Screen): Screen
    requires ScreenOk(s, t)
  {
    var row := t.rows[t.y];
    if t.x < s.cols then SetRow(t, row[..t.x] + [s.erase] + row[t.x..s.cols - 1]) else t
  }

  function DeleteChar(s: Shape, t: Screen): Screen
    requires ScreenOk(s, t)
  {
    var row := t.rows[t.y];
    if t.x < s.cols then SetRow(t, row[..t.x] + row[t.x + 1..] + [s.erase]) else t
  }

  function InsertLine(s: Shape, t: Screen): Screen
    requires ScreenOk(s, t)
  {
    t.(rows := Down(s, t.rows, t.y, s.lines))
  }

  function DeleteLine(s: Shape, t: Screen): Screen
    requires ScreenOk(s, t)
  {
    t.(rows := Up(s, t.rows, t.y, s.lines))
  }

  /** csi_m for one parameter. */
  function Attribute(attr: Byte, par: Word32): Byte {
    if par == 0 || par == 27 then 0x07 else if par == 1 || par == 4 then 0x0f else if par == 7 then 0x70 else attr
  }

  function Attributes(attr: Byte, par: seq<Word32>): Byte
    decreases |par|
  {
    if par == [] then attr else Attributes(Attribute(attr, par[0]), par[1..])
  }

  /** A count of lines or characters: at least one, at most the given limit. */
  function Times(nr: Word32, limit: nat): nat {
    if nr > limit then limit else if nr == 0 then 1 else nr
  }

  datatype Edit = ICH | DCH | IL | DL

  function EditOnce(s: Shape, t: Screen, e: Edit): Screen
    requires ScreenOk(s, t)
  {
    match e
    case ICH => InsertChar(s, t)
    case DCH => DeleteChar(s, t)
    case IL => InsertLine(s, t)
    case DL => DeleteLine(s, t)
  }

  lemma EditOk(s: Shape, t: Screen, e: Edit)
    requires ScreenOk(s, t)
    ensures ScreenOk(s, EditOnce(s, t, e))
  {
    var u := EditOnce(s, t, e);
    match e
    case ICH =>
    case DCH =>
    case IL => MovedRows(s, t.rows, t.y, s.lines);
    case DL => MovedRows(s, t.rows, t.y, s.lines);
  }

  function EditTimes(s: Shape, t: Screen, e: Edit, n: nat): Screen
    requires ScreenOk(s, t)
    decreases n
  {
    EditOk(s, t, e);
    if n == 0 then t else EditTimes(s, EditOnce(s, t, e), e, n - 1)
  }

  // ---------------------------------------------------------------- the interpreter

  /** Where an escape sequence stands; Params keeps the numbers read so far. */
  datatype Control = Ground | Escape | Bracket | Params(par: seq<Word32>)

  predicate ControlOk(k: Control) {
    k.Params? ==> 1 <= |k.par| <= 16
  }

  function Wrap32(x: int): Word32 {
    x % 0x1_0000_0000
  }

  function Number(par: seq<Word32>, i: nat): Word32 {
    if i < |par| then par[i] else 0
  }

  function Inc(p: Word32): Word32 {
    if p == 0 then 1 else p
  }

  function Dec(p: Word32): Word32 {
    if p == 0 then 0 else p - 1
  }

  /** Lines 586-594: a region of at least one line inside the screen, or no change. */
  function SetRegion(s: Shape, t: Screen, from: Word32, to: Word32): Screen {
    var b := if to == 0 then s.lines else to;
    if Dec(from) < b && b <= s.lines then t.(top := Dec(from), bottom := b) else t
  }

  /** The letters that move the cursor. */
  predicate IsMove(c: Char) {
    (65 <= c <= 72) || c == 96 || c == 97 || (100 <= c <= 102)
  }

  /** Lines 528-564: G ` A B e C a D E F d H f. A distance that leaves the screen, also by wrapping
      below zero, moves nothing. */
  function Move(s: Shape, t: Screen, c: Char, p: Word32, q: Word32): Screen {
    if c == 'G' as int || c == '`' as int then Goto(s, t, Dec(p), t.y)
    else if c == 'A' as int then Goto(s, t, t.x, Wrap32(t.y - Inc(p)))
    else if c == 'B' as int || c == 'e' as int then Goto(s, t, t.x, Wrap32(t.y + Inc(p)))
    else if c == 'C' as int || c == 'a' as int then Goto(s, t, Wrap32(t.x + Inc(p)), t.y)
    else if c == 'D' as int then Goto(s, t, Wrap32(t.x - Inc(p)), t.y)
    else if c == 'E' as int then Goto(s, t, 0, Wrap32(t.y + Inc(p)))
    else if c == 'F' as int then Goto(s, t, 0, Wrap32(t.y - Inc(p)))
    else if c == 'd' as int then Goto(s, t, t.x, Dec(p))
    else Goto(s, t, Dec(q), Dec(p))
  }

  /** Lines 527-601: the letter that ends a control sequence. */
  function Command(s: Shape, t: Screen, c: Char, par: seq<Word32>): Screen
    requires ScreenOk(s, t)
  {
    var p, q := Number(par, 0), Number(par, 1);
    if IsMove(c) then Move(s, t, c, p, q)
    else if c == 'J' as int then EraseDisplay(s, t, p)
    else if c == 'K' as int then EraseLine(s, t, p)
    else if c == 'L' as int then EditTimes(s, t, IL, Times(p, s.lines))
    else if c == 'M' as int then EditTimes(s, t, DL, Times(p, s.lines))
    else if c == 'P' as int then EditTimes(s, t, DCH, Times(p, s.cols))
    else if c == '@' as int then EditTimes(s, t, ICH, Times(p, s.cols))
    else if c == 'm' as int then t.(attr := Attributes(t.attr, par))
    else if c == 'r' as int then SetRegion(s, t, p, q)
    else if c == 's' as int then t.(savedX := t.x, savedY := t.y)
    else if c == 'u' as int then Goto(s, t, t.savedX, t.savedY)
    else t
  }

  /** Lines 455-491. */
  function Plain(s: Shape, t: Screen, c: Char): Screen
    requires ShapeOk(s) && ScreenOk(s, t)
  {
    if 31 < c < 127 then Print(s, t, c)
    else if c == 10 || c == 11 || c == 12 then LineFeed(s, t)
    else if c == 13 then t.(x := 0)
    else if c == s.eraseKey then Delete(s, t)
    else if c == 8 then t.(x := if t.x > 0 then t.x - 1 else 0)
    else if c == 9 then Tab(s, t)
    else t
  }

  /** Lines 494-508. Where 7 and 8 should save and restore, the code looks at the cursor's column
      instead of the character: any other character saves in column 55 and restores in column 56.
      ESC Z, which answers through the keyboard queue, leaves the screen alone. */
  function Escaped(s: Shape, t: Screen, c: Char): Screen
    requires ScreenOk(s, t)
  {
    if c == '[' as int || c == 'Z' as int then t
    else if c == 'E' as int then Goto(s, t, 0, t.y + 1)
    else if c == 'M' as int then ReverseLineFeed(s, t)
    else if c == 'D' as int then LineFeed(s, t)
    else if t.x == '7' as int then t.(savedX := t.x, savedY := t.y)
    else if t.x == '8' as int then Goto(s, t, t.savedX, t.savedY)
    else t
  }

  datatype Term = Term(screen: Screen, control: Control)

  /** Lines 518-524: another parameter, another digit, or the end of the sequence. */
  function Parameter(s: Shape, t: Screen, par: seq<Word32>, c: Char): Term
    requires ScreenOk(s, t) && |par| > 0
  {
    if c == ';' as int && |par| < 16 then Term(t, Params(par + [0]))
    else if '0' as int <= c <= '9' as int then
      Term(t, Params(par[|par| - 1 := Wrap32(10 * par[|par| - 1] + c - '0' as int)]))
    else Term(Command(s, t, c, par), Ground)
  }

  function Step(s: Shape, t: Term, c: Char): Term
    requires ShapeOk(s) && ScreenOk(s, t.screen) && ControlOk(t.control)
  {
    match t.control
    case Ground => if c == 27 then Term(t.screen, Escape) else Term(Plain(s, t.screen, c), Ground)
    case Escape => Term(Escaped(s, t.screen, c), if c == '[' as int then Bracket else Ground)
    case Bracket => if c == '?' as int then Term(t.screen, Params([0])) else Parameter(s, t.screen, [0], c)
    case Params(par) => Parameter(s, t.screen, par, c)
  }

  // ---------------------------------------------------------------- every byte keeps the screen sound

  lemma {:induction false} TimesOk(s: Shape, t: Screen, e: Edit, n: nat)
    requires ScreenOk(s, t)
    ensures ScreenOk(s, EditTimes(s, t, e, n))
    decreases n
  {
    EditOk(s, t, e);
    if n > 0 { TimesOk(s, EditOnce(s, t, e), e, n - 1); }
  }

  lemma EraseOk(s: Shape, t: Screen, how: nat)
    requires ScreenOk(s, t)
    ensures ScreenOk(s, EraseDisplay(s, t, how)) && ScreenOk(s, EraseLine(s, t, how))
  {
  }

  lemma CommandOk(s: Shape, t: Screen, c: Char, par: seq<Word32>)
    requires ScreenOk(s, t)
    ensures ScreenOk(s, Command(s, t, c, par))
  {
    hide EditTimes, Attributes, Times, EraseDisplay, EraseLine;
    var p := Number(par, 0);
    EraseOk(s, t, p);
    TimesOk(s, t, IL, Times(p, s.lines));
    TimesOk(s, t, DL, Times(p, s.lines));
    TimesOk(s, t, DCH, Times(p, s.cols));
    TimesOk(s, t, ICH, Times(p, s.cols));
  }

  lemma PrintOk(s: Shape, t: Screen, c: Byte)
    requires ShapeOk(s) && ScreenOk(s, t)
    ensures ScreenOk(s, Print(s, t, c)) && ScreenOk(s, Delete(s, t))
  {
    FeedOk(s, t.(x := 0));
  }

  lemma TabOk(s: Shape, t: Screen)
    requires ShapeOk(s) && ScreenOk(s, t)
    ensures ScreenOk(s, Tab(s, t))
  {
    var x := t.x + 8 - t.x % 8;
    if x > s.cols { FeedOk(s, t.(x := x - s.cols)); }
  }

  lemma PlainOk(s: Shape, t: Screen, c: Char)
    requires ShapeOk(s) && ScreenOk(s, t)
    ensures ScreenOk(s, Plain(s, t, c))
  {
    hide Print, Tab, Delete;
    FeedOk(s, t);
    if 31 < c < 127 { PrintOk(s, t, c); } else { PrintOk(s, t, 0); }
    TabOk(s, t);
  }

  lemma StepOk(s: Shape, t: Term, c: Char)
    requires ShapeOk(s) && ScreenOk(s, t.screen) && ControlOk(t.control)
    ensures ScreenOk(s, Step(s, t, c).screen) && ControlOk(Step(s, t, c).control)
  {
    hide Command, Plain, ScreenOk;
    PlainOk(s, t.screen, c);
    EscapedOk(s, t.screen, c);
    CommandOk(s, t.screen, c, [0]);
    if t.control.Params? { CommandOk(s, t.screen, c, t.control.par); }
  }

  lemma EscapedOk(s: Shape, t: Screen, c: Char)
    requires ScreenOk(s, t)
    ensures ScreenOk(s, Escaped(s, t, c))
  {
    FeedOk(s, t);
  }

  /** What a stream of bytes makes of the screen. */
  function Steps(s: Shape, t: Term, cs: seq<Char>): Term
    requires ShapeOk(s) && ScreenOk(s, t.screen) && ControlOk(t.control)
    decreases |cs|
  {
    if cs == [] then t else
      StepOk(s, t, cs[0]);
      Steps(s, Step(s, t, cs[0]), cs[1..])
  }

  /** The cursor, the region and the rows stay sound whatever is written. */
  lemma {:induction false} StepsOk(s: Shape, t: Term, cs: seq<Char>)
    requires ShapeOk(s) && ScreenOk(s, t.screen) && ControlOk(t.control)
    ensures ScreenOk(s, Steps(s, t, cs).screen) && ControlOk(Steps(s, t, cs).control)
    decreases |cs|
  {
    if cs != [] {
      StepOk(s, t, cs[0]);
      StepsOk(s, Step(s, t, cs[0]), cs[1..]);
    }
  }
}

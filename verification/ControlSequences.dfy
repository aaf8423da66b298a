/** What the console does with the bytes it is sent, byte sequence by byte sequence: where the cursor
    goes, which cells change and to what. */
module ControlSequences {
  import opened Terminals

  // ---------------------------------------------------------------- reading a sequence

  predicate Digits(ds: seq<Char>) {
    forall i | 0 <= i < |ds| :: '0' as int <= ds[i] <= '9' as int
  }

  function Decimal(ds: seq<Char>): nat
    requires Digits(ds)
  {
    if ds == [] then 0 else 10 * Decimal(ds[..|ds| - 1]) + (ds[|ds| - 1] - '0' as int)
  }

  /** A parameter as the kernel keeps it, in 32 bits. */
  function Param(ds: seq<Char>): Word32
    requires Digits(ds)
  {
    Decimal(ds) % 0x1_0000_0000
  }

  predicate AllDigits(pss: seq<seq<Char>>) {
    forall i | 0 <= i < |pss| :: Digits(pss[i])
  }

  /** Digit strings with semicolons in between. */
  function Joined(pss: seq<seq<Char>>): seq<Char>
    requires pss != []
  {
    if |pss| == 1 then pss[0] else Joined(pss[..|pss| - 1]) + [';' as int] + pss[|pss| - 1]
  }

  /** ESC [ parameters letter. */
  function Csi(pss: seq<seq<Char>>, c: Char): seq<Char>
    requires pss != []
  {
    [27, '[' as int] + Joined(pss) + [c]
  }

  predicate Readable(s: Shape, t: Screen, pss: seq<seq<Char>>) {
    ShapeOk(s) && ScreenOk(s, t) && 1 <= |pss| <= 16 && AllDigits(pss)
  }

  function Params(pss: seq<seq<Char>>): (ps: seq<Word32>)
    requires AllDigits(pss)
    ensures |ps| == |pss| && forall i | 0 <= i < |ps| :: ps[i] == Param(pss[i])
  {
    seq(|pss|, i requires 0 <= i < |pss| => Param(pss[i]))
  }

  lemma {:induction false} StepsSplit(s: Shape, t: Term, a: seq<Char>, b: seq<Char>)
    requires ShapeOk(s) && ScreenOk(s, t.screen) && ControlOk(t.control)
    ensures ScreenOk(s, Steps(s, t, a).screen) && ControlOk(Steps(s, t, a).control)
    ensures Steps(s, t, a + b) == Steps(s, Steps(s, t, a), b)
    decreases |a|
  {
    StepsOk(s, t, a);
    if a == [] {
      assert a + b == b;
    } else {
      hide Step, ScreenOk;
      StepOk(s, t, a[0]);
      StepsSplit(s, Step(s, t, a[0]), a[1..], b);
      assert (a + b)[0] == a[0] && (a + b)[1..] == a[1..] + b;
    }
  }

  lemma OneStep(s: Shape, t: Term, c: Char)
    requires ShapeOk(s) && ScreenOk(s, t.screen) && ControlOk(t.control)
    ensures Steps(s, t, [c]) == Step(s, t, c)
  {
    StepOk(s, t, c);
    assert [c][1..] == [];
  }

  lemma NextDigit(x: nat, d: nat)
    ensures (10 * (x % 0x1_0000_0000) + d) % 0x1_0000_0000 == (10 * x + d) % 0x1_0000_0000
  {
    var q := x / 0x1_0000_0000;
    assert x == q * 0x1_0000_0000 + x % 0x1_0000_0000;
    assert 10 * x + d == 10 * (x % 0x1_0000_0000) + d + (10 * q) * 0x1_0000_0000;
  }

  /** Digits go into the last parameter. */
  lemma {:induction false} DigitsRead(s: Shape, t: Screen, par: seq<Word32>, ds: seq<Char>)
    requires ShapeOk(s) && ScreenOk(s, t) && Digits(ds) && |par| < 16
    ensures Steps(s, Term(t, Control.Params(par + [0])), ds) == Term(t, Control.Params(par + [Param(ds)]))
    decreases |ds|
  {
    hide ScreenOk;
    var start := Term(t, Control.Params(par + [0]));
    if ds != [] {
      var n := |ds| - 1;
      var most, d := ds[..n], ds[n];
      DigitsRead(s, t, par, most);
      assert ds == most + [d];
      StepsSplit(s, start, most, [d]);
      var mid := Term(t, Control.Params(par + [Param(most)]));
      OneStep(s, mid, d);
      NextDigit(Decimal(most), d - '0' as int);
      assert (par + [Param(most)])[|par| := Param(ds)] == par + [Param(ds)];
    }
  }

  lemma {:induction false} JoinedRead(s: Shape, t: Screen, pss: seq<seq<Char>>)
    requires Readable(s, t, pss)
    ensures Steps(s, Term(t, Control.Params([0])), Joined(pss)) == Term(t, Control.Params(Params(pss)))
    decreases |pss|
  {
    hide ScreenOk, Param;
    var start, n := Term(t, Control.Params([0])), |pss| - 1;
    if n == 0 {
      DigitsRead(s, t, [], pss[0]);
      assert [] + [0 as Word32] == [0] && [] + [Param(pss[0])] == Params(pss);
    } else {
      var most := pss[..n];
      JoinedRead(s, t, most);
      StepsSplit(s, start, Joined(most) + [';' as int], pss[n]);
      StepsSplit(s, start, Joined(most), [';' as int]);
      OneStep(s, Term(t, Control.Params(Params(most))), ';' as int);
      DigitsRead(s, t, Params(most), pss[n]);
      assert Params(pss) == Params(most) + [Param(pss[n])];
    }
  }

  lemma {:induction false} FirstOfJoined(pss: seq<seq<Char>>)
    requires pss != [] && AllDigits(pss)
    ensures Joined(pss) != [] ==> Joined(pss)[0] != '?' as int
    decreases |pss|
  {
    if |pss| > 1 { FirstOfJoined(pss[..|pss| - 1]); }
  }

  /** Before a parameter the bracket makes no difference. */
  lemma BracketIsZero(s: Shape, t: Screen, cs: seq<Char>)
    requires ShapeOk(s) && ScreenOk(s, t) && cs != [] && cs[0] != '?' as int
    ensures Steps(s, Term(t, Bracket), cs) == Steps(s, Term(t, Control.Params([0])), cs)
  {
    hide Command, ScreenOk;
    StepOk(s, Term(t, Bracket), cs[0]);
    StepOk(s, Term(t, Control.Params([0])), cs[0]);
  }

  /** The letters that end a sequence; a semicolon does after sixteen parameters. */
  predicate Ends(pss: seq<seq<Char>>, c: Char) {
    !('0' as int <= c <= '9' as int) && (c == ';' as int ==> |pss| == 16) && c != '?' as int
  }

  lemma CsiReads(s: Shape, t: Screen, pss: seq<seq<Char>>, c: Char)
    requires Readable(s, t, pss) && Ends(pss, c)
    ensures Steps(s, Term(t, Ground), Csi(pss, c)) == Term(Command(s, t, c, Params(pss)), Ground)
  {
    hide Command, ScreenOk, Params;
    var start, tail := Term(t, Ground), Joined(pss) + [c];
    assert Csi(pss, c) == [27, '[' as int] + tail;
    StepsSplit(s, start, [27, '[' as int], tail);
    assert [27, '[' as int] == [27] + ['[' as int];
    StepsSplit(s, start, [27], ['[' as int]);
    OneStep(s, start, 27);
    OneStep(s, Term(t, Escape), '[' as int);
    FirstOfJoined(pss);
    BracketIsZero(s, t, tail);
    StepsSplit(s, Term(t, Control.Params([0])), Joined(pss), [c]);
    JoinedRead(s, t, pss);
    OneStep(s, Term(t, Control.Params(Params(pss))), c);
  }

  /** A question mark before the parameters is skipped. */
  lemma QuestionSkipped(s: Shape, t: Screen, pss: seq<seq<Char>>, c: Char)
    requires Readable(s, t, pss) && Ends(pss, c)
    ensures Steps(s, Term(t, Ground), [27, '[' as int, '?' as int] + Joined(pss) + [c]) == Steps(s, Term(t, Ground), Csi(pss, c))
  {
    hide Command, ScreenOk, Params;
    CsiReads(s, t, pss, c);
    var start, tail := Term(t, Ground), Joined(pss) + [c];
    var lead := [27, '[' as int, '?' as int];
    assert lead + Joined(pss) + [c] == lead + tail;
    StepsSplit(s, start, lead, tail);
    assert lead == [27] + (['[' as int] + ['?' as int]);
    StepsSplit(s, start, [27], ['[' as int] + ['?' as int]);
    OneStep(s, start, 27);
    StepsSplit(s, Term(t, Escape), ['[' as int], ['?' as int]);
    OneStep(s, Term(t, Escape), '[' as int);
    OneStep(s, Term(t, Bracket), '?' as int);
    StepsSplit(s, Term(t, Control.Params([0])), Joined(pss), [c]);
    JoinedRead(s, t, pss);
    OneStep(s, Term(t, Control.Params(Params(pss))), c);
  }

  // ---------------------------------------------------------------- where the cursor goes

  /** The first and second parameters; one that is not there is zero. */
  function First(pss: seq<seq<Char>>): Word32
    requires pss != [] && AllDigits(pss)
  {
    Param(pss[0])
  }

  function Second(pss: seq<seq<Char>>): Word32
    requires AllDigits(pss)
  {
    if |pss| > 1 then Param(pss[1]) else 0
  }

  function AtLeastOne(p: nat): nat {
    if p == 0 then 1 else p
  }

  /** Whether a place below `limit` differs from `from + far` by a multiple of 2^32, and which. */
  predicate Lands(from: int, far: int, limit: nat) {
    0 <= from + far < limit || 0 <= from + far + 0x1_0000_0000 < limit || 0 <= from + far - 0x1_0000_0000 < limit
  }

  function Landing(from: int, far: int, limit: nat): int {
    if 0 <= from + far < limit then from + far
    else if 0 <= from + far + 0x1_0000_0000 < limit then from + far + 0x1_0000_0000
    else if 0 <= from + far - 0x1_0000_0000 < limit then from + far - 0x1_0000_0000
    else from
  }

  /** After these bytes the cursor is at (x, y), and cells, region, attribute and saved place are as before. */
  ghost predicate CursorAt(s: Shape, t: Screen, cs: seq<Char>, x: int, y: int) {
    ShapeOk(s) && ScreenOk(s, t) && x >= 0 && y >= 0 && Steps(s, Term(t, Ground), cs) == Term(t.(x := x, y := y), Ground)
  }

  lemma Wraps(x: int)
    requires -0x1_0000_0000 <= x < 0x2_0000_0000
    ensures Wrap32(x) == if x < 0 then x + 0x1_0000_0000 else if x < 0x1_0000_0000 then x else x - 0x1_0000_0000
  {
  }

  /** A: up as far as the parameter says, at least one row. A distance that leaves the screen moves nothing,
      unless it lands on the screen again modulo 2^32; so it is with the next three. */
  lemma MovesUp(s: Shape, t: Screen, pss: seq<seq<Char>>)
    requires Readable(s, t, pss)
    ensures var n: int := AtLeastOne(First(pss)); CursorAt(s, t, Csi(pss, 'A' as int), t.x, Landing(t.y, -n, s.lines))
  {
    hide Steps;
    CsiReads(s, t, pss, 'A' as int);
    Wraps(t.y - AtLeastOne(First(pss)));
  }

  /** B and e: down. */
  lemma MovesDown(s: Shape, t: Screen, pss: seq<seq<Char>>, c: Char)
    requires Readable(s, t, pss) && c in {'B' as int, 'e' as int}
    ensures CursorAt(s, t, Csi(pss, c), t.x, Landing(t.y, AtLeastOne(First(pss)), s.lines))
  {
    hide Steps;
    CsiReads(s, t, pss, c);
    Wraps(t.y + AtLeastOne(First(pss)));
  }

  /** C and a: to the right; the place behind the last column is still on the screen. */
  lemma MovesRight(s: Shape, t: Screen, pss: seq<seq<Char>>, c: Char)
    requires Readable(s, t, pss) && c in {'C' as int, 'a' as int}
    ensures CursorAt(s, t, Csi(pss, c), Landing(t.x, AtLeastOne(First(pss)), s.cols + 1), t.y)
  {
    hide Steps;
    CsiReads(s, t, pss, c);
    Wraps(t.x + AtLeastOne(First(pss)));
  }

  /** D: to the left. */
  lemma MovesLeft(s: Shape, t: Screen, pss: seq<seq<Char>>)
    requires Readable(s, t, pss)
    ensures var n: int := AtLeastOne(First(pss)); CursorAt(s, t, Csi(pss, 'D' as int), Landing(t.x, -n, s.cols + 1), t.y)
  {
    hide Steps;
    CsiReads(s, t, pss, 'D' as int);
    Wraps(t.x - AtLeastOne(First(pss)));
  }

  /** E and F: to the start of a line further down or up, or nowhere. */
  lemma MovesToLineStart(s: Shape, t: Screen, pss: seq<seq<Char>>)
    requires Readable(s, t, pss)
    ensures var n: int := AtLeastOne(First(pss));
      && CursorAt(s, t, Csi(pss, 'E' as int), if Lands(t.y, n, s.lines) then 0 else t.x, Landing(t.y, n, s.lines))
      && CursorAt(s, t, Csi(pss, 'F' as int), if Lands(t.y, -n, s.lines) then 0 else t.x, Landing(t.y, -n, s.lines))
  {
    hide Steps;
    var n := AtLeastOne(First(pss));
    CsiReads(s, t, pss, 'E' as int);
    CsiReads(s, t, pss, 'F' as int);
    Wraps(t.y - n);
    Wraps(t.y + n);
  }

  /** G and `: to a column; d: to a row; H and f: to a row and a column. Numbers start at one, none is one,
      and a place off the screen moves nothing; the column behind the last is still on it. */
  lemma MovesTo(s: Shape, t: Screen, pss: seq<seq<Char>>, c: Char)
    requires Readable(s, t, pss)
    ensures var (p, q) := (AtLeastOne(First(pss)) - 1, AtLeastOne(Second(pss)) - 1);
      && (c in {'G' as int, '`' as int} ==> CursorAt(s, t, Csi(pss, c), if p <= s.cols then p else t.x, t.y))
      && CursorAt(s, t, Csi(pss, 'd' as int), t.x, if p < s.lines then p else t.y)
      && (c in {'H' as int, 'f' as int} ==>
            if p < s.lines && q <= s.cols then CursorAt(s, t, Csi(pss, c), q, p) else CursorAt(s, t, Csi(pss, c), t.x, t.y))
  {
    hide Steps;
    CsiReads(s, t, pss, 'd' as int);
    if c in {'G' as int, '`' as int, 'H' as int, 'f' as int} { CsiReads(s, t, pss, c); }
  }

  /** s keeps the cursor's place, and u brings it back. */
  lemma SavesAndRestores(s: Shape, t: Screen, pss: seq<seq<Char>>)
    requires Readable(s, t, pss)
    ensures Steps(s, Term(t, Ground), Csi(pss, 's' as int)) == Term(t.(savedX := t.x, savedY := t.y), Ground)
    ensures CursorAt(s, t, Csi(pss, 'u' as int), t.savedX, t.savedY)
  {
    hide Steps;
    CsiReads(s, t, pss, 's' as int);
    CsiReads(s, t, pss, 'u' as int);
  }

  /** r: the scrolling region from one row to another, the last by default, if it is one and fits. */
  lemma SetsRegion(s: Shape, t: Screen, pss: seq<seq<Char>>)
    requires Readable(s, t, pss)
    ensures var (p, q) := (AtLeastOne(First(pss)) - 1, if Second(pss) == 0 then s.lines else Second(pss));
      Steps(s, Term(t, Ground), Csi(pss, 'r' as int)) ==
        Term(if p < q && q <= s.lines then t.(top := p, bottom := q) else t, Ground)
  {
    hide Steps;
    CsiReads(s, t, pss, 'r' as int);
  }

  /** The last parameter that names an attribute decides: 0 and 27 normal, 1 and 4 bright, 7 reverse. */
  lemma SetsAttribute(s: Shape, t: Screen, pss: seq<seq<Char>>) returns (k: int)
    requires Readable(s, t, pss)
    ensures -1 <= k < |pss| && forall i | k < i < |pss| :: Param(pss[i]) !in {0, 1, 4, 7, 27}
    ensures k >= 0 ==> Param(pss[k]) in {0, 1, 4, 7, 27}
    ensures Steps(s, Term(t, Ground), Csi(pss, 'm' as int)) ==
      Term(t.(attr := if k < 0 then t.attr
                      else if Param(pss[k]) in {0, 27} then 0x07 else if Param(pss[k]) == 7 then 0x70 else 0x0f), Ground)
  {
    hide Steps, Attributes;
    CsiReads(s, t, pss, 'm' as int);
    k := LastAttribute(t.attr, Params(pss));
  }

  lemma {:induction false} LastAttribute(attr: Byte, ps: seq<Word32>) returns (k: int)
    ensures -1 <= k < |ps| && forall i | k < i < |ps| :: ps[i] !in {0, 1, 4, 7, 27}
    ensures k >= 0 ==> ps[k] in {0, 1, 4, 7, 27}
    ensures Attributes(attr, ps) ==
      if k < 0 then attr else if ps[k] in {0, 27} then 0x07 else if ps[k] == 7 then 0x70 else 0x0f
    decreases |ps|
  {
    if ps == [] {
      k := -1;
    } else {
      var l := LastAttribute(Attribute(attr, ps[0]), ps[1..]);
      k := if l >= 0 then l + 1 else if ps[0] in {0, 1, 4, 7, 27} then 0 else -1;
      forall i | k < i < |ps| ensures ps[i] !in {0, 1, 4, 7, 27} {
        if i > 0 { assert ps[i] == ps[1..][i - 1]; }
      }
    }
  }

  /** Any other letter ends the sequence and does nothing else. */
  lemma OthersDoNothing(s: Shape, t: Screen, pss: seq<seq<Char>>, c: Char)
    requires Readable(s, t, pss) && Ends(pss, c) && !('A' as int <= c <= 'H' as int) && !('J' as int <= c <= 'M' as int)
    requires c !in {'@' as int, 'P' as int, '`' as int, 'a' as int, 'd' as int, 'e' as int, 'f' as int, 'm' as int, 'r' as int, 's' as int, 'u' as int}
    ensures Steps(s, Term(t, Ground), Csi(pss, c)) == Term(t, Ground)
  {
    hide Steps;
    CsiReads(s, t, pss, c);
  }

  // ---------------------------------------------------------------- which cells change

  /** After these bytes only cells may differ. */
  ghost predicate OnlyCells(s: Shape, t: Screen, cs: seq<Char>, u: Screen) {
    && ShapeOk(s) && ScreenOk(s, t) && ScreenOk(s, u) && u == t.(rows := u.rows)
    && Steps(s, Term(t, Ground), cs) == Term(u, Ground)
  }

  /** J: 0 blanks the cells from the cursor on, 1 those before it, 2 all. */
  lemma ErasesCells(s: Shape, t: Screen, pss: seq<seq<Char>>) returns (u: Screen)
    requires Readable(s, t, pss)
    ensures OnlyCells(s, t, Csi(pss, 'J' as int), u)
    ensures forall r, k {:trigger u.rows[r][k]} | 0 <= r < s.lines && 0 <= k < s.cols ::
      u.rows[r][k] == var how := First(pss);
        if (how == 0 && (r > t.y || (r == t.y && k >= t.x))) || (how == 1 && (r < t.y || (r == t.y && k < t.x))) || how == 2
        then s.erase else t.rows[r][k]
  {
    hide Steps;
    CsiReads(s, t, pss, 'J' as int);
    u := Command(s, t, 'J' as int, Params(pss));
  }

  /** K: the same within the cursor's row. */
  lemma ErasesInRow(s: Shape, t: Screen, pss: seq<seq<Char>>) returns (u: Screen)
    requires Readable(s, t, pss)
    ensures OnlyCells(s, t, Csi(pss, 'K' as int), u)
    ensures forall r, k {:trigger u.rows[r][k]} | 0 <= r < s.lines && 0 <= k < s.cols ::
      u.rows[r][k] == var how := First(pss);
        if r == t.y && ((how == 0 && k >= t.x) || (how == 1 && k < t.x) || how == 2) then s.erase else t.rows[r][k]
  {
    hide Steps;
    CsiReads(s, t, pss, 'K' as int);
    u := Command(s, t, 'K' as int, Params(pss));
  }

  /** How often an edit is done. */
  function Capped(p: nat, limit: nat): nat {
    if p > limit then limit else AtLeastOne(p)
  }

  /** L: blank rows come in at the cursor's row, and the rows from there on move down. */
  lemma InsertsLines(s: Shape, t: Screen, pss: seq<seq<Char>>) returns (u: Screen)
    requires Readable(s, t, pss)
    ensures OnlyCells(s, t, Csi(pss, 'L' as int), u)
    ensures var n := Capped(First(pss), s.lines);
      forall r, k {:trigger u.rows[r][k]} | 0 <= r < s.lines && 0 <= k < s.cols ::
        u.rows[r][k] == if r < t.y then t.rows[r][k] else if r < t.y + n then s.erase else t.rows[r - n][k]
  {
    hide Steps, EditTimes;
    CsiReads(s, t, pss, 'L' as int);
    u := LinesIn(s, t, Capped(First(pss), s.lines));
  }

  lemma {:induction false} LinesIn(s: Shape, t: Screen, n: nat) returns (u: Screen)
    requires ScreenOk(s, t)
    ensures u == EditTimes(s, t, IL, n)
    ensures ScreenOk(s, u) && u == t.(rows := u.rows)
    ensures forall r {:trigger u.rows[r]} | 0 <= r < s.lines ::
           u.rows[r] == if r < t.y then t.rows[r] else if r < t.y + n then Blanks(s, s.cols) else t.rows[r - n]
    decreases n
  {
    if n == 0 {
      u := t;
    } else {
      EditOk(s, t, IL);
      var t1 := EditOnce(s, t, IL);
      assert forall r {:trigger t1.rows[r]} | 0 <= r < s.lines :: t1.rows[r] == if r < t.y then t.rows[r] else if r == t.y then Blanks(s, s.cols) else t.rows[r - 1];
      u := LinesIn(s, t1, n - 1);
    }
  }

  /** M: the rows below move up over the cursor's, and blank ones come in at the bottom. */
  lemma DeletesLines(s: Shape, t: Screen, pss: seq<seq<Char>>) returns (u: Screen)
    requires Readable(s, t, pss)
    ensures OnlyCells(s, t, Csi(pss, 'M' as int), u)
    ensures var n := Capped(First(pss), s.lines);
      forall r, k {:trigger u.rows[r][k]} | 0 <= r < s.lines && 0 <= k < s.cols ::
        u.rows[r][k] == if r < t.y then t.rows[r][k] else if r + n < s.lines then t.rows[r + n][k] else s.erase
  {
    hide Steps, EditTimes;
    CsiReads(s, t, pss, 'M' as int);
    u := LinesOut(s, t, Capped(First(pss), s.lines));
  }

  lemma {:induction false} LinesOut(s: Shape, t: Screen, n: nat) returns (u: Screen)
    requires ScreenOk(s, t)
    ensures u == EditTimes(s, t, DL, n)
    ensures ScreenOk(s, u) && u == t.(rows := u.rows)
    ensures forall r {:trigger u.rows[r]} | 0 <= r < s.lines ::
           u.rows[r] == if r < t.y then t.rows[r] else if r + n < s.lines then t.rows[r + n] else Blanks(s, s.cols)
    decreases n
  {
    if n == 0 {
      u := t;
    } else {
      EditOk(s, t, DL);
      var t1 := EditOnce(s, t, DL);
      assert forall r {:trigger t1.rows[r]} | 0 <= r < s.lines :: t1.rows[r] == if r < t.y then t.rows[r] else if r + 1 < s.lines then t.rows[r + 1] else Blanks(s, s.cols);
      u := LinesOut(s, t1, n - 1);
    }
  }

  /** P: the cells behind the cursor move left over it, and blanks come in at the end of the row. */
  lemma DeletesCharacters(s: Shape, t: Screen, pss: seq<seq<Char>>) returns (u: Screen)
    requires Readable(s, t, pss)
    ensures OnlyCells(s, t, Csi(pss, 'P' as int), u)
    ensures var n := Capped(First(pss), s.cols);
      forall r, k {:trigger u.rows[r][k]} | 0 <= r < s.lines && 0 <= k < s.cols ::
        u.rows[r][k] == if r != t.y || k < t.x then t.rows[r][k] else if k + n < s.cols then t.rows[r][k + n] else s.erase
  {
    hide Steps, EditTimes;
    CsiReads(s, t, pss, 'P' as int);
    u := CharactersOut(s, t, Capped(First(pss), s.cols));
  }

  lemma {:induction false} CharactersOut(s: Shape, t: Screen, n: nat) returns (u: Screen)
    requires ScreenOk(s, t)
    ensures u == EditTimes(s, t, DCH, n)
    ensures ScreenOk(s, u) && u == t.(rows := t.rows[t.y := u.rows[t.y]])
    ensures forall k {:trigger u.rows[t.y][k]} | 0 <= k < s.cols ::
           u.rows[t.y][k] == if k < t.x then t.rows[t.y][k] else if k + n < s.cols then t.rows[t.y][k + n] else s.erase
    decreases n
  {
    if n == 0 {
      u := t;
    } else {
      EditOk(s, t, DCH);
      var t1 := EditOnce(s, t, DCH);
      assert forall k {:trigger t1.rows[t.y][k]} | 0 <= k < s.cols ::
        t1.rows[t.y][k] == if k < t.x then t.rows[t.y][k] else if k + 1 < s.cols then t.rows[t.y][k + 1] else s.erase;
      u := CharactersOut(s, t1, n - 1);
    }
  }

  /** @: blanks come in at the cursor, and the cells from there on move right. */
  lemma InsertsCharacters(s: Shape, t: Screen, pss: seq<seq<Char>>) returns (u: Screen)
    requires Readable(s, t, pss)
    ensures OnlyCells(s, t, Csi(pss, '@' as int), u)
    ensures var n := Capped(First(pss), s.cols);
      forall r, k {:trigger u.rows[r][k]} | 0 <= r < s.lines && 0 <= k < s.cols ::
        u.rows[r][k] == if r != t.y || k < t.x then t.rows[r][k] else if k < t.x + n then s.erase else t.rows[r][k - n]
  {
    hide Steps, EditTimes;
    CsiReads(s, t, pss, '@' as int);
    u := CharactersIn(s, t, Capped(First(pss), s.cols));
  }

  lemma {:induction false} CharactersIn(s: Shape, t: Screen, n: nat) returns (u: Screen)
    requires ScreenOk(s, t)
    ensures u == EditTimes(s, t, ICH, n)
    ensures ScreenOk(s, u) && u == t.(rows := t.rows[t.y := u.rows[t.y]])
    ensures forall k {:trigger u.rows[t.y][k]} | 0 <= k < s.cols ::
           u.rows[t.y][k] == if k < t.x then t.rows[t.y][k] else if k < t.x + n then s.erase else t.rows[t.y][k - n]
    decreases n
  {
    if n == 0 {
      u := t;
    } else {
      EditOk(s, t, ICH);
      var t1 := EditOnce(s, t, ICH);
      assert forall k {:trigger t1.rows[t.y][k]} | 0 <= k < s.cols ::
        t1.rows[t.y][k] == if k < t.x then t.rows[t.y][k] else if k == t.x then s.erase else t.rows[t.y][k - 1];
      u := CharactersIn(s, t1, n - 1);
    }
  }

  // ---------------------------------------------------------------- single characters

  /** A line further down, or the region moves up one row and a blank one comes in. */
  ghost predicate FedDown(s: Shape, t: Screen, u: Screen) {
    ScreenOk(s, t) && ScreenOk(s, u) &&
    if t.y + 1 < t.bottom then u == t.(y := t.y + 1)
    else
      u == t.(rows := u.rows) && forall r, k {:trigger u.rows[r][k]} | 0 <= r < s.lines && 0 <= k < s.cols ::
        u.rows[r][k] == if r < t.top || r >= t.bottom then t.rows[r][k] else if r + 1 < t.bottom then t.rows[r + 1][k] else s.erase
  }

  /** A line further up, or the region moves down one row and a blank one comes in. */
  ghost predicate FedUp(s: Shape, t: Screen, u: Screen) {
    ScreenOk(s, t) && ScreenOk(s, u) &&
    if t.y > t.top then u == t.(y := t.y - 1)
    else
      u == t.(rows := u.rows) && forall r, k {:trigger u.rows[r][k]} | 0 <= r < s.lines && 0 <= k < s.cols ::
        u.rows[r][k] == if r < t.top || r >= t.bottom then t.rows[r][k] else if r > t.top then t.rows[r - 1][k] else s.erase
  }

  lemma FeedsRight(s: Shape, t: Screen)
    requires ScreenOk(s, t)
    ensures FedDown(s, t, LineFeed(s, t)) && FedUp(s, t, ReverseLineFeed(s, t))
  {
    FeedOk(s, t);
  }

  /** One cell of the cursor's row changed. */
  function WithCell(s: Shape, t: Screen, k: nat, c: Cell): (u: Screen)
    requires ScreenOk(s, t) && k < s.cols
    ensures ScreenOk(s, u)
  {
    var row: seq<Cell> := t.rows[t.y][k := c];
    t.(rows := t.rows[t.y := row])
  }

  /** A printable character goes into the cursor's cell with the attribute beside it, and the cursor goes on;
      behind the last column it goes to the start of the next line first. */
  lemma Prints(s: Shape, t: Screen, c: Char) returns (w: Screen)
    requires ShapeOk(s) && ScreenOk(s, t) && 31 < c < 127
    ensures if t.x < s.cols then w == t else FedDown(s, t.(x := 0), w)
    ensures ScreenOk(s, w) && w.x < s.cols
    ensures Steps(s, Term(t, Ground), [c]) ==
      Term(WithCell(s, w, w.x, 256 * t.attr + c).(x := w.x + 1), Ground)
  {
    OneStep(s, Term(t, Ground), c);
    FeedsRight(s, t.(x := 0));
    w := Wrap(s, t);
  }

  /** Line feed, vertical tab and form feed, and ESC D. */
  lemma FeedsLine(s: Shape, t: Screen, c: Char) returns (u: Screen)
    requires ShapeOk(s) && ScreenOk(s, t) && c in {10, 11, 12}
    ensures FedDown(s, t, u) && Steps(s, Term(t, Ground), [c]) == Steps(s, Term(t, Ground), [27, 'D' as int]) == Term(u, Ground)
  {
    OneStep(s, Term(t, Ground), c);
    EscapeStep(s, t, 'D' as int);
    FeedsRight(s, t);
    u := LineFeed(s, t);
  }

  /** ESC M. */
  lemma FeedsBack(s: Shape, t: Screen) returns (u: Screen)
    requires ShapeOk(s) && ScreenOk(s, t)
    ensures FedUp(s, t, u) && Steps(s, Term(t, Ground), [27, 'M' as int]) == Term(u, Ground)
  {
    EscapeStep(s, t, 'M' as int);
    FeedsRight(s, t);
    u := ReverseLineFeed(s, t);
  }

  /** Carriage return, and backspace. */
  lemma MovesBack(s: Shape, t: Screen)
    requires ShapeOk(s) && ScreenOk(s, t)
    ensures CursorAt(s, t, [13], 0, t.y)
    ensures s.eraseKey != 8 ==> CursorAt(s, t, [8], if t.x == 0 then 0 else t.x - 1, t.y)
  {
    OneStep(s, Term(t, Ground), 13);
    OneStep(s, Term(t, Ground), 8);
  }

  /** The erase key also blanks the cell it goes back to. */
  lemma ErasesBack(s: Shape, t: Screen)
    requires ShapeOk(s) && ScreenOk(s, t) && !(31 < s.eraseKey < 127) && s.eraseKey < 128 && s.eraseKey !in {10, 11, 12, 13, 27}
    ensures Steps(s, Term(t, Ground), [s.eraseKey as Char]) ==
      Term(if t.x == 0 then t else WithCell(s, t, t.x - 1, s.erase).(x := t.x - 1), Ground)
  {
    OneStep(s, Term(t, Ground), s.eraseKey);
  }

  /** A tab goes to the next multiple of eight, on the next line when that is off the screen. */
  lemma Tabs(s: Shape, t: Screen) returns (u: Screen, stop: nat)
    requires ShapeOk(s) && ScreenOk(s, t) && s.eraseKey != 9
    ensures stop % 8 == 0 && t.x < stop <= t.x + 8 && Steps(s, Term(t, Ground), [9]) == Term(u, Ground)
    ensures if stop <= s.cols then u == t.(x := stop) else FedDown(s, t.(x := stop - s.cols), u)
  {
    OneStep(s, Term(t, Ground), 9);
    stop := t.x + 8 - t.x % 8;
    if stop > s.cols { FeedsRight(s, t.(x := stop - s.cols)); }
    u := Tab(s, t);
  }

  /** Any other character but escape does nothing. */
  lemma OthersAreIgnored(s: Shape, t: Screen, c: Char)
    requires ShapeOk(s) && ScreenOk(s, t) && !(31 < c < 127) && !(8 <= c <= 13) && c != s.eraseKey && c != 27
    ensures Steps(s, Term(t, Ground), [c]) == Term(t, Ground)
  {
    OneStep(s, Term(t, Ground), c);
  }

  lemma EscapeStep(s: Shape, t: Screen, c: Char)
    requires ShapeOk(s) && ScreenOk(s, t) && c != '[' as int
    ensures ScreenOk(s, Escaped(s, t, c)) && Steps(s, Term(t, Ground), [27, c]) == Term(Escaped(s, t, c), Ground)
  {
    EscapedOk(s, t, c);
    assert [27, c] == [27] + [c];
    StepsSplit(s, Term(t, Ground), [27], [c]);
    OneStep(s, Term(t, Ground), 27);
    OneStep(s, Term(t, Escape), c);
  }

  /** ESC E goes to the start of the next line, and nowhere from the last; ESC Z leaves the screen alone. Any
      other character after escape saves the cursor in column 55 and brings it back in column 56. */
  lemma OtherEscapes(s: Shape, t: Screen, c: Char)
    requires ShapeOk(s) && ScreenOk(s, t) && c !in {'[' as int, 'E' as int, 'M' as int, 'D' as int, 'Z' as int}
    ensures if t.y + 1 < s.lines then CursorAt(s, t, [27, 'E' as int], 0, t.y + 1) else CursorAt(s, t, [27, 'E' as int], t.x, t.y)
    ensures CursorAt(s, t, [27, 'Z' as int], t.x, t.y)
    ensures Steps(s, Term(t, Ground), [27, c]) ==
      Term(if t.x == 55 then t.(savedX := t.x, savedY := t.y)
           else if t.x == 56 then t.(x := t.savedX, y := t.savedY) else t, Ground)
  {
    EscapeStep(s, t, 'E' as int);
    EscapeStep(s, t, 'Z' as int);
    EscapeStep(s, t, c);
  }
}

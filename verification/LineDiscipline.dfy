/** Cooked input of kernel/chr_drv/tty_io.c: copy_to_cooked() as a fold over the characters typed,
    and what tty_read() takes from the result. Echo is not part of this model. */
module LineEditing {
  import opened TtyQueues

  type CtlChar = n: nat | n < 256

  datatype Termios = Termios(icrnl: bool, igncr: bool, inlcr: bool, iuclc: bool, icanon: bool, isig: bool,
                             intr: CtlChar, quit: CtlChar, erase: CtlChar, kill: CtlChar, eof: CtlChar,
                             start: CtlChar, stop: CtlChar)

  datatype Signal = Interrupt | Quit

  /** The secondary queue, its `data` count, the stop flag and the signals raised so far. */
  datatype Cooked = Cooked(queue: seq<Char>, data: int, stopped: bool, signals: seq<Signal>)

  datatype Typed = Dropped | Got(c: Char)

  function ToLower(c: Char): Char {
    if 65 <= c <= 90 then c + 32 else c
  }

  /** Lines 151-160. */
  function Translated(t: Termios, c: Char): Typed {
    if c == 13 && !t.icrnl && t.igncr then Dropped
    else
      var d := if c == 13 then (if t.icrnl then 10 else 13) else if c == 10 && t.inlcr then 13 else c;
      Got(if t.iuclc then ToLower(d) else d)
  }

  /** A newline or the end-of-file character ends a line. */
  predicate IsMark(t: Termios, c: Char) {
    c == 10 || c == t.eof
  }

  function Last(q: seq<Char>): Char
    requires q != []
  {
    q[|q| - 1]
  }

  /** Lines 164-174: back to the last mark. */
  function Killed(t: Termios, q: seq<Char>): (k: seq<Char>)
    ensures |k| <= |q|
  {
    if q == [] || IsMark(t, Last(q)) then q else Killed(t, q[..|q| - 1])
  }

  /** Lines 178-189. */
  function Erased(t: Termios, q: seq<Char>): seq<Char> {
    if q == [] || IsMark(t, Last(q)) then q else q[..|q| - 1]
  }

  /** One turn of the loop of lines 149-226. */
  function Feed(t: Termios, s: Cooked, typed: Char): Cooked {
    match Translated(t, typed)
    case Dropped => s
    case Got(c) =>
      if t.icanon && c == t.kill then s.(queue := Killed(t, s.queue))
      else if t.icanon && c == t.erase then s.(queue := Erased(t, s.queue))
      else if t.icanon && c == t.stop then s.(stopped := true)
      else if t.icanon && c == t.start then s.(stopped := false)
      else if t.isig && c == t.intr then s.(signals := s.signals + [Interrupt])
      else if t.isig && c == t.quit then s.(signals := s.signals + [Quit])
      else s.(queue := s.queue + [c], data := if IsMark(t, c) then s.data + 1 else s.data)
  }

  /** The loop itself: it stops when nothing is typed or the queue is full. */
  function Cook(t: Termios, s: Cooked, input: seq<Char>): (r: (Cooked, seq<Char>))
    decreases |input|
  {
    if input == [] || |s.queue| == 1023 then (s, input) else Cook(t, Feed(t, s, input[0]), input[1..])
  }

  // ---------------------------------------------------------------- a line editor

  /** The reference: finished lines, and the line being typed. */
  datatype Editor = Editor(done: seq<Char>, line: seq<Char>)

  function Text(e: Editor): seq<Char> {
    e.done + e.line
  }

  /** A mark finishes the line; erase and kill only touch the line being typed. */
  function Edit(t: Termios, e: Editor, c: Char): Editor {
    if t.icanon && c == t.kill then Editor(e.done, [])
    else if t.icanon && c == t.erase then Editor(e.done, if e.line == [] then [] else e.line[..|e.line| - 1])
    else if (t.icanon && (c == t.stop || c == t.start)) || (t.isig && (c == t.intr || c == t.quit)) then e
    else if IsMark(t, c) then Editor(e.done + e.line + [c], [])
    else Editor(e.done, e.line + [c])
  }

  function EditTyped(t: Termios, e: Editor, c: Char): Editor {
    match Translated(t, c)
    case Dropped => e
    case Got(d) => Edit(t, e, d)
  }

  function EditAll(t: Termios, e: Editor, input: seq<Char>): Editor
    decreases |input|
  {
    if input == [] then e else EditAll(t, EditTyped(t, e, input[0]), input[1..])
  }

  /** Finished lines end in a mark, and the line being typed has none. */
  predicate WellEdited(t: Termios, e: Editor) {
    && (e.done != [] ==> IsMark(t, Last(e.done)))
    && forall i | 0 <= i < |e.line| :: !IsMark(t, e.line[i])
  }

  function Marks(t: Termios, q: seq<Char>): nat {
    if q == [] then 0 else Marks(t, q[..|q| - 1]) + if IsMark(t, Last(q)) then 1 else 0
  }

  /** The queue is what the editor shows, and `data` counts its lines. */
  predicate Shows(t: Termios, s: Cooked, e: Editor) {
    s.queue == Text(e) && s.data == Marks(t, s.queue) && WellEdited(t, e)
  }

  lemma {:induction false} KillsLine(t: Termios, e: Editor)
    requires WellEdited(t, e)
    ensures Killed(t, Text(e)) == e.done && Marks(t, Text(e)) == Marks(t, e.done)
    decreases |e.line|
  {
    if e.line == [] {
      assert Text(e) == e.done;
    } else {
      var shorter := Editor(e.done, e.line[..|e.line| - 1]);
      assert Text(e)[..|Text(e)| - 1] == Text(shorter);
      assert Last(Text(e)) == Last(e.line);
      KillsLine(t, shorter);
    }
  }

  lemma ErasesOne(t: Termios, e: Editor)
    requires WellEdited(t, e)
    ensures Erased(t, Text(e)) == Text(Editor(e.done, if e.line == [] then [] else e.line[..|e.line| - 1]))
    ensures Marks(t, Erased(t, Text(e))) == Marks(t, Text(e))
  {
    if e.line == [] {
      assert Text(e) == e.done;
    } else {
      assert Text(e)[..|Text(e)| - 1] == e.done + e.line[..|e.line| - 1];
      assert Last(Text(e)) == Last(e.line);
    }
  }

  lemma PutShows(t: Termios, e: Editor, d: Char)
    requires WellEdited(t, e)
    ensures Text(Editor(e.done, e.line + [d])) == Text(e) + [d]
    ensures Text(Editor(e.done + e.line + [d], [])) == Text(e) + [d]
    ensures Marks(t, Text(e) + [d]) == Marks(t, Text(e)) + if IsMark(t, d) then 1 else 0
  {
    assert (Text(e) + [d])[..|Text(e)|] == Text(e);
  }

  lemma FeedShows(t: Termios, s: Cooked, e: Editor, c: Char)
    requires Shows(t, s, e)
    ensures Shows(t, Feed(t, s, c), EditTyped(t, e, c))
    ensures e.done <= EditTyped(t, e, c).done
  {
    hide Killed, Erased, Marks;
    KillsLine(t, e);
    ErasesOne(t, e);
    assert Text(Editor(e.done, [])) == e.done;
    match Translated(t, c)
    case Dropped =>
    case Got(d) => PutShows(t, e, d);
  }

  /** The queue after any input is what the line editor makes of the part consumed; the input is
      consumed up to where it ends or the queue fills; and no line once finished ever changes. */
  lemma {:induction false} CookIsEdit(t: Termios, s: Cooked, e: Editor, input: seq<Char>) returns (n: nat)
    requires Shows(t, s, e)
    ensures n <= |input| && Cook(t, s, input).1 == input[n..]
    ensures Shows(t, Cook(t, s, input).0, EditAll(t, e, input[..n]))
    ensures e.done <= EditAll(t, e, input[..n]).done
    ensures n < |input| ==> |Cook(t, s, input).0.queue| == 1023
    decreases |input|
  {
    hide Feed, EditTyped, Shows;
    if input == [] || |s.queue| == 1023 {
      n := 0;
    } else {
      FeedShows(t, s, e, input[0]);
      var m := CookIsEdit(t, Feed(t, s, input[0]), EditTyped(t, e, input[0]), input[1..]);
      n := m + 1;
      assert input[..n] == [input[0]] + input[1..][..m];
      assert input[1..][m..] == input[n..];
    }
  }

  /** Every queue is what some editor shows, so the editor always has a place to start. */
  lemma {:induction false} SomeEditor(t: Termios, q: seq<Char>) returns (e: Editor)
    ensures Text(e) == q && WellEdited(t, e) && e.done == Killed(t, q)
  {
    if q == [] || IsMark(t, Last(q)) {
      e := Editor(q, []);
    } else {
      var f := SomeEditor(t, q[..|q| - 1]);
      e := Editor(f.done, f.line + [Last(q)]);
      assert q == q[..|q| - 1] + [Last(q)];
    }
  }

  // ---------------------------------------------------------------- reading

  /** How far one turn of the loop of lines 261-272 gets: up to nr characters, and in canonical mode
      through an end-of-file character, which it takes but does not deliver. */
  function Taken(t: Termios, q: seq<Char>, nr: nat): (n: nat)
    ensures n <= |q| && n <= nr
  {
    if q == [] || nr == 0 then 0
    else if t.icanon && q[0] == t.eof then 1
    else 1 + Taken(t, q[1..], nr - 1)
  }

  predicate HitsEof(t: Termios, q: seq<Char>, nr: nat) {
    var n := Taken(t, q, nr);
    n > 0 && t.icanon && q[n - 1] == t.eof
  }

  lemma {:induction false} MarksSplit(t: Termios, a: seq<Char>, b: seq<Char>)
    ensures Marks(t, a + b) == Marks(t, a) + Marks(t, b)
    decreases |b|
  {
    if b == [] {
      assert a + b == a;
    } else {
      MarksSplit(t, a, b[..|b| - 1]);
      assert (a + b)[..|a + b| - 1] == a + b[..|b| - 1];
    }
  }

  /** What a read leaves keeps the count: `data` goes down by the marks that were taken. */
  lemma ReadKeepsCount(t: Termios, s: Cooked, n: nat)
    requires s.data == Marks(t, s.queue) && n <= |s.queue|
    ensures s.data - Marks(t, s.queue[..n]) == Marks(t, s.queue[n..])
  {
    MarksSplit(t, s.queue[..n], s.queue[n..]);
    assert s.queue == s.queue[..n] + s.queue[n..];
  }

  /** In canonical mode (lines 256-257) a reader goes ahead only on a finished line or an almost full queue, and
      delivers nothing only at an end-of-file character. */
  lemma {:induction false} CanonicalRead(t: Termios, s: Cooked, nr: nat)
    requires t.icanon && s.data == Marks(t, s.queue) && nr > 0
    requires !(s.queue == [] || (t.icanon && s.data == 0 && 1023 - |s.queue| > 20))
    ensures |s.queue| >= 1003 || exists i :: 0 <= i < |s.queue| && IsMark(t, s.queue[i])
    ensures Taken(t, s.queue, nr) > 0
    ensures (if HitsEof(t, s.queue, nr) then Taken(t, s.queue, nr) - 1 else Taken(t, s.queue, nr)) == 0 <==> s.queue[0] == t.eof
  {
    if s.data > 0 { SomeMark(t, s.queue); }
    if s.queue[0] != t.eof && Taken(t, s.queue, nr) == 1 { assert Taken(t, s.queue[1..], nr - 1) == 0; }
  }

  lemma {:induction false} SomeMark(t: Termios, q: seq<Char>)
    requires Marks(t, q) > 0
    ensures exists i :: 0 <= i < |q| && IsMark(t, q[i])
  {
    if !IsMark(t, Last(q)) {
      SomeMark(t, q[..|q| - 1]);
      var i :| 0 <= i < |q| - 1 && IsMark(t, q[..|q| - 1][i]);
      assert IsMark(t, q[i]);
    }
  }

  // ---------------------------------------------------------------- typing and reading, mixed

  /** `data` is right for the queue. */
  predicate Counted(t: Termios, s: Cooked) {
    s.data == Marks(t, s.queue)
  }

  lemma FeedCounts(t: Termios, s: Cooked, c: Char)
    requires Counted(t, s)
    ensures Counted(t, Feed(t, s, c))
  {
    var e := SomeEditor(t, s.queue);
    FeedShows(t, s, e, c);
  }

  /** The terminal after a read of up to nr characters. */
  function AfterRead(t: Termios, s: Cooked, nr: nat): Cooked {
    var n := Taken(t, s.queue, nr);
    s.(queue := s.queue[n..], data := s.data - Marks(t, s.queue[..n]))
  }

  /** For the line editor a read takes the oldest n characters, out of reach of erase and kill. */
  function ReadOff(e: Editor, n: nat): Editor
    requires n <= |Text(e)|
  {
    if n <= |e.done| then Editor(e.done[n..], e.line) else Editor([], e.line[n - |e.done|..])
  }

  lemma ReadOffText(t: Termios, e: Editor, n: nat)
    requires WellEdited(t, e) && n <= |Text(e)|
    ensures Text(ReadOff(e, n)) == Text(e)[n..] && WellEdited(t, ReadOff(e, n))
  {
    hide IsMark;
  }

  lemma ReadShows(t: Termios, s: Cooked, e: Editor, nr: nat)
    requires Shows(t, s, e)
    ensures Shows(t, AfterRead(t, s, nr), ReadOff(e, Taken(t, s.queue, nr)))
  {
    hide Taken, Marks, WellEdited;
    var n := Taken(t, s.queue, nr);
    ReadKeepsCount(t, s, n);
    ReadOffText(t, e, n);
  }

  /** What one read delivers: not the end-of-file character that ends it. */
  function Delivered(t: Termios, q: seq<Char>, nr: nat): seq<Char> {
    var n := Taken(t, q, nr);
    if HitsEof(t, q, nr) then q[..n - 1] else q[..n]
  }

  /** What the two sides of the terminal do: characters arrive, or a process reads. */
  datatype Event = Arrive(input: seq<Char>) | Read(nr: nat)

  /** Characters not yet cooked, those cooked, and what was delivered so far. */
  datatype Line = Line(pending: seq<Char>, cooked: Cooked, read: seq<Char>)

  function Step(t: Termios, l: Line, e: Event): Line {
    match e
    case Arrive(input) => var (s, rest) := Cook(t, l.cooked, l.pending + input); Line(rest, s, l.read)
    case Read(nr) => Line(l.pending, AfterRead(t, l.cooked, nr), l.read + Delivered(t, l.cooked.queue, nr))
  }

  function Run(t: Termios, l: Line, es: seq<Event>): Line
    decreases |es|
  {
    if es == [] then l else Run(t, Step(t, l, es[0]), es[1..])
  }

  /** The same for somebody who edits and reads a text instead of a queue. */
  datatype Desk = Desk(pending: seq<Char>, text: Editor, read: seq<Char>)

  function EditAvailable(t: Termios, e: Editor, input: seq<Char>): (Editor, seq<Char>)
    decreases |input|
  {
    if input == [] || |Text(e)| == 1023 then (e, input) else EditAvailable(t, EditTyped(t, e, input[0]), input[1..])
  }

  function DeskStep(t: Termios, d: Desk, e: Event): Desk {
    match e
    case Arrive(input) => var (f, rest) := EditAvailable(t, d.text, d.pending + input); Desk(rest, f, d.read)
    case Read(nr) => Desk(d.pending, ReadOff(d.text, Taken(t, Text(d.text), nr)), d.read + Delivered(t, Text(d.text), nr))
  }

  function DeskRun(t: Termios, d: Desk, es: seq<Event>): Desk
    decreases |es|
  {
    if es == [] then d else DeskRun(t, DeskStep(t, d, es[0]), es[1..])
  }

  ghost predicate Matches(t: Termios, l: Line, d: Desk) {
    l.pending == d.pending && l.read == d.read && Shows(t, l.cooked, d.text)
  }

  lemma {:induction false} CookAvailable(t: Termios, s: Cooked, e: Editor, input: seq<Char>)
    requires Shows(t, s, e)
    ensures Shows(t, Cook(t, s, input).0, EditAvailable(t, e, input).0)
    ensures Cook(t, s, input).1 == EditAvailable(t, e, input).1
    decreases |input|
  {
    if input != [] && |s.queue| != 1023 {
      FeedShows(t, s, e, input[0]);
      CookAvailable(t, Feed(t, s, input[0]), EditTyped(t, e, input[0]), input[1..]);
    }
  }

  lemma StepMatches(t: Termios, l: Line, d: Desk, e: Event)
    requires Matches(t, l, d)
    ensures Matches(t, Step(t, l, e), DeskStep(t, d, e))
  {
    match e
    case Arrive(input) => CookAvailable(t, l.cooked, d.text, l.pending + input);
    case Read(nr) => ReadShows(t, l.cooked, d.text, nr);
  }

  lemma {:induction false} RunMatches(t: Termios, l: Line, d: Desk, es: seq<Event>)
    requires Matches(t, l, d)
    ensures Matches(t, Run(t, l, es), DeskRun(t, d, es))
    decreases |es|
  {
    if es != [] {
      hide Step, DeskStep, Matches;
      StepMatches(t, l, d, es[0]);
      RunMatches(t, Step(t, l, es[0]), DeskStep(t, d, es[0]), es[1..]);
    }
  }

  /** Typing and reading in any order, from the empty terminal on: processes have read what the line
      editor handed out, the queue is the text it still has, and `data` counts the finished lines. */
  lemma RunShows(t: Termios, es: seq<Event>)
    ensures var start := Line([], Cooked([], 0, false, []), []);
      Matches(t, Run(t, start, es), DeskRun(t, Desk([], Editor([], []), []), es))
  {
    RunMatches(t, Line([], Cooked([], 0, false, []), []), Desk([], Editor([], []), []), es);
  }

  // ---------------------------------------------------------------- character by character

  /** What a typed character counts as: carriage return and newline as the flags say, capitals as small
      letters where that is asked for, anything else as itself. */
  lemma Translations(t: Termios, c: Char)
    ensures c == 13 ==> Translated(t, c) == if t.icrnl then Got(10) else if t.igncr then Dropped else Got(13)
    ensures c == 10 ==> Translated(t, c) == Got(if t.inlcr then 13 else 10)
    ensures 65 <= c <= 90 ==> Translated(t, c) == Got(if t.iuclc then c + 32 else c)
    ensures c != 13 && c != 10 && !(65 <= c <= 90) ==> Translated(t, c) == Got(c)
  {
  }

  /** What it does to a queue with room. In canonical mode kill cuts the queue back to its last newline or
      end of file, erase takes the last character unless it is one of these, stop and start set the flag;
      the signal characters raise theirs; all others are queued, and counted when they end a line. */
  lemma Typings(t: Termios, s: Cooked, c: Char, d: Char) returns (k: nat)
    requires |s.queue| < 1023 && Translated(t, c) == Got(d)
    ensures k <= |s.queue| && (k > 0 ==> s.queue[k - 1] in {10, t.eof as int})
    ensures forall i | k <= i < |s.queue| :: s.queue[i] != 10 && s.queue[i] != t.eof
    ensures Cook(t, s, [c]).1 == []
    ensures Cook(t, s, [c]).0 ==
      if t.icanon && d == t.kill then s.(queue := s.queue[..k])
      else if t.icanon && d == t.erase then s.(queue := if k == |s.queue| then s.queue else s.queue[..|s.queue| - 1])
      else if t.icanon && d == t.stop then s.(stopped := true)
      else if t.icanon && d == t.start then s.(stopped := false)
      else if t.isig && d == t.intr then s.(signals := s.signals + [Interrupt])
      else if t.isig && d == t.quit then s.(signals := s.signals + [Quit])
      else s.(queue := s.queue + [d], data := if d == 10 || d == t.eof then s.data + 1 else s.data)
  {
    assert [c][1..] == [];
    k := KilledTo(t, s.queue);
  }

  lemma {:induction false} KilledTo(t: Termios, q: seq<Char>) returns (k: nat)
    ensures k <= |q| && Killed(t, q) == q[..k] && (k > 0 ==> q[k - 1] in {10, t.eof as int})
    ensures forall i | k <= i < |q| :: q[i] != 10 && q[i] != t.eof
  {
    if q == [] || IsMark(t, Last(q)) {
      k := |q|;
    } else {
      k := KilledTo(t, q[..|q| - 1]);
    }
  }

  /** A full queue takes nothing, and a dropped character does nothing. */
  lemma NothingTyped(t: Termios, s: Cooked, c: Char)
    ensures |s.queue| == 1023 ==> Cook(t, s, [c]) == (s, [c])
    ensures |s.queue| < 1023 && Translated(t, c) == Dropped ==> Cook(t, s, [c]) == (s, [])
  {
    assert [c][1..] == [];
  }

  /** `data` goes by the newlines and end-of-file characters. */
  lemma {:induction false} MarksCount(t: Termios, q: seq<Char>)
    ensures Marks(t, q) == |set i: nat | i < |q| && (q[i] == 10 || q[i] == t.eof)|
  {
    var all := set i: nat | i < |q| && (q[i] == 10 || q[i] == t.eof);
    if q == [] {
      assert all == {};
    } else {
      var n := |q| - 1;
      MarksCount(t, q[..n]);
      var most := set i: nat | i < n && (q[..n][i] == 10 || q[..n][i] == t.eof);
      assert all == if q[n] == 10 || q[n] == t.eof then most + {n} else most;
    }
  }

  /** How a read ends: after nr characters, with the queue empty, or in canonical mode at the first end of
      file, which is taken from the queue and not delivered. */
  lemma {:induction false} ReadEnds(t: Termios, s: Cooked, nr: nat) returns (n: nat)
    ensures n <= nr && n <= |s.queue| && AfterRead(t, s, nr).queue == s.queue[n..]
    ensures forall i | 0 <= i < n - 1 :: !(t.icanon && s.queue[i] == t.eof)
    ensures n == nr || n == |s.queue| || (n > 0 && t.icanon && s.queue[n - 1] == t.eof)
    ensures Delivered(t, s.queue, nr) == if n > 0 && t.icanon && s.queue[n - 1] == t.eof then s.queue[..n - 1] else s.queue[..n]
  {
    n := Taken(t, s.queue, nr);
    TakenEnds(t, s.queue, nr);
  }

  lemma {:induction false} TakenEnds(t: Termios, q: seq<Char>, nr: nat)
    ensures var n := Taken(t, q, nr);
      && (forall i | 0 <= i < n - 1 :: !(t.icanon && q[i] == t.eof))
      && (n == nr || n == |q| || (n > 0 && t.icanon && q[n - 1] == t.eof))
    decreases |q|
  {
    if q != [] && nr > 0 && !(t.icanon && q[0] == t.eof) {
      TakenEnds(t, q[1..], nr - 1);
      var n := Taken(t, q, nr);
      forall i | 0 <= i < n - 1 ensures !(t.icanon && q[i] == t.eof) {
        if i > 0 { assert q[i] == q[1..][i - 1]; }
      }
    }
  }

  // ---------------------------------------------------------------- draining the queue

  /** n characters are delivered so far, none of them an end-of-file character. */
  ghost predicate Drained(t: Termios, q: seq<Char>, nr: nat, n: nat) {
    && n <= |q| && n <= nr
    && Taken(t, q, nr) == n + Taken(t, q[n..], nr - n)
    && forall i | 0 <= i < n :: !(t.icanon && q[i] == t.eof)
  }

  lemma DrainStart(t: Termios, q: seq<Char>, nr: nat)
    ensures Drained(t, q, nr, 0) && Marks(t, q[..0]) == 0
  {
    assert q[0..] == q;
  }

  lemma DrainStep(t: Termios, q: seq<Char>, nr: nat, n: nat)
    requires Drained(t, q, nr, n) && n < |q| && n < nr
    ensures q[n..] == [q[n]] + q[n + 1..] && q[..n + 1] == q[..n] + [q[n]]
    ensures Marks(t, q[..n + 1]) == Marks(t, q[..n]) + if IsMark(t, q[n]) then 1 else 0
    ensures !(t.icanon && q[n] == t.eof) ==> Drained(t, q, nr, n + 1)
  {
    assert q[n..][1..] == q[n + 1..];
    assert q[..n + 1][..n] == q[..n];
  }

  /** The read ends because nr characters were delivered or the queue is empty. */
  lemma DrainEnd(t: Termios, s: Cooked, nr: nat, n: nat)
    requires Drained(t, s.queue, nr, n) && (n == nr || n == |s.queue|)
    ensures AfterRead(t, s, nr) == s.(queue := s.queue[n..], data := s.data - Marks(t, s.queue[..n]))
    ensures Delivered(t, s.queue, nr) == s.queue[..n] && !HitsEof(t, s.queue, nr)
  {
  }

  /** The read ends at an end-of-file character. */
  lemma DrainEof(t: Termios, s: Cooked, nr: nat, n: nat)
    requires Drained(t, s.queue, nr, n) && n < |s.queue| && n < nr && t.icanon && s.queue[n] == t.eof
    ensures AfterRead(t, s, nr) == s.(queue := s.queue[n + 1..], data := s.data - Marks(t, s.queue[..n + 1]))
    ensures Delivered(t, s.queue, nr) == s.queue[..n] && HitsEof(t, s.queue, nr)
  {
  }

  lemma AfterReadCounts(t: Termios, s: Cooked, nr: nat)
    requires Counted(t, s)
    ensures Counted(t, AfterRead(t, s, nr))
  {
    ReadKeepsCount(t, s, Taken(t, s.queue, nr));
  }

  // ---------------------------------------------------------------- the terminal

  class Tty {
    const termios: Termios
    var stopped: bool
    var signals: seq<Signal>
    const readQ: TtyQueue
    const secondary: TtyQueue

    ghost predicate Shape()
      reads this, readQ, secondary
    {
      readQ != secondary && readQ.Valid() && secondary.Valid() && readQ.buf != secondary.buf
    }

    ghost function Value(): Cooked
      reads this, readQ, secondary, secondary.buf
      requires Shape()
    {
      Cooked(secondary.Contents(), secondary.data, stopped, signals)
    }

    ghost predicate Valid()
      reads this, readQ, secondary, secondary.buf
    {
      Shape() && Counted(termios, Value())
    }

    constructor (termios: Termios)
      ensures Valid() && this.termios == termios && readQ.Contents() == []
      ensures Value() == Cooked([], 0, false, [])
    {
      this.termios := termios;
      stopped, signals := false, [];
      var r := new TtyQueue();
      var s := new TtyQueue();
      readQ, secondary := r, s;
    }

    /** Lines 164-174. */
    method Kill()
      requires Shape()
      modifies secondary`head
      ensures Shape() && secondary.Contents() == Killed(termios, old(secondary.Contents()))
    {
      hide Masked;
      while true
        invariant Shape()
        invariant Killed(termios, secondary.Contents()) == Killed(termios, old(secondary.Contents()))
        decreases |secondary.Contents()|
      {
        secondary.EmptyFull();
        if secondary.Empty() { break; }
        var c := secondary.Last();
        if c == 10 || c == termios.eof { break; }
        secondary.Unput();
      }
    }

    /** Lines 178-189. */
    method Erase()
      requires Shape()
      modifies secondary`head
      ensures Shape() && secondary.Contents() == Erased(termios, old(secondary.Contents()))
    {
      secondary.EmptyFull();
      if secondary.Empty() { return; }
      var c := secondary.Last();
      if c == 10 || c == termios.eof { return; }
      secondary.Unput();
    }

    /** Lines 151-225 for one character. */
    method Take(typed: Char)
      requires Valid() && |secondary.Contents()| < 1023
      modifies this, secondary, secondary.buf
      ensures Valid() && Value() == Feed(termios, old(Value()), typed)
    {
      hide Killed, Erased, Masked, Marks;
      FeedCounts(termios, Value(), typed);
      var c := typed;
      if c == 13 {
        if termios.icrnl {
          c := 10;
        } else if termios.igncr {
          return;
        }
      } else if c == 10 && termios.inlcr {
        c := 13;
      }
      if termios.iuclc { c := ToLower(c); }
      assert Translated(termios, typed) == Got(c);
      if termios.icanon {
        if c == termios.kill { Kill(); return; }
        if c == termios.erase { Erase(); return; }
        if c == termios.stop { stopped := true; return; }
        if c == termios.start { stopped := false; return; }
      }
      if termios.isig {
        if c == termios.intr { signals := signals + [Interrupt]; return; }
        if c == termios.quit { signals := signals + [Quit]; return; }
      }
      if c == 10 || c == termios.eof { secondary.data := secondary.data + 1; }
      secondary.Putch(c);
    }

    /** Lines 145-228. */
    method CopyToCooked()
      requires Valid()
      modifies this, readQ`tail, secondary, secondary.buf
      ensures Valid()
      ensures (Value(), readQ.Contents()) == Cook(termios, old(Value()), old(readQ.Contents()))
    {
      hide Feed, Masked, Marks;
      while true
        invariant Valid()
        invariant Cook(termios, Value(), readQ.Contents()) == Cook(termios, old(Value()), old(readQ.Contents()))
        decreases |readQ.Contents()|
      {
        readQ.EmptyFull();
        secondary.EmptyFull();
        if readQ.Empty() || secondary.Full() { break; }
        ghost var q, s := readQ.Contents(), Value();
        var c := readQ.Getch();
        assert q[0] == c && readQ.Contents() == q[1..];
        Take(c);
        assert readQ.Contents() == q[1..];
      }
    }

    /** Lines 261-272 of tty_read(): what is delivered, and whether an end-of-file character ended it. */
    method Drain(nr: nat) returns (out: seq<Char>, eof: bool)
      requires Valid() && secondary.Contents() != [] && nr > 0
      modifies secondary`tail, secondary`data
      ensures Valid() && Value() == AfterRead(termios, old(Value()), nr)
      ensures eof == HitsEof(termios, old(secondary.Contents()), nr)
      ensures out == Delivered(termios, old(secondary.Contents()), nr)
    {
      hide Masked, Marks, HitsEof, Taken, AfterRead, Delivered, Counted, Drained;
      ghost var s := Value();
      AfterReadCounts(termios, s, nr);
      out, eof := [], false;
      var left := nr;
      ghost var q, n := secondary.Contents(), 0;
      DrainStart(termios, q, nr);
      while true
        invariant Shape() && n < |q| && left == nr - n > 0 && !eof && out == q[..n] && secondary.Contents() == q[n..]
        invariant Drained(termios, q, nr, n)
        invariant secondary.data == old(secondary.data) - Marks(termios, q[..n])
        decreases left
      {
        DrainStep(termios, q, nr, n);
        var c := secondary.Getch();
        secondary.EmptyFull();
        assert c == q[n] && secondary.Contents() == q[n + 1..];
        if c == termios.eof || c == 10 { secondary.data := secondary.data - 1; }
        if c == termios.eof && termios.icanon {
          DrainEof(termios, s, nr, n);
          eof := true;
          return;
        }
        out := out + [c];
        left, n := left - 1, n + 1;
        if left == 0 || secondary.Empty() { break; }
      }
      DrainEnd(termios, s, nr, n);
    }
  }
}

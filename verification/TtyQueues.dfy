/** The ring queues of include/linux/tty.h: 1024 characters, of which 1023 can be queued. */
module TtyQueues {
  /** A signed char. */
  type Char = c: int | -128 <= c < 128 witness 0

  function Masked(x: int): (m: nat)
    ensures m < 1024
  {
    x % 1024
  }

  /** CHARS and LEFT, lines 27 and 30. */
  function Chars(head: nat, tail: nat): (n: nat)
    ensures n < 1024
  {
    Masked(head - tail)
  }

  function Left(head: nat, tail: nat): (n: nat)
    ensures n < 1024
  {
    Masked(tail - head - 1)
  }

  /** Every slot but one is either queued or left. */
  lemma CharsAndLeft(head: nat, tail: nat)
    requires head < 1024 && tail < 1024
    ensures Chars(head, tail) + Left(head, tail) == 1023
    ensures Chars(head, tail) == 0 <==> head == tail
  {
  }

  lemma Wraps(x: int)
    requires -1024 <= x < 2048
    ensures Masked(x) == if x < 0 then x + 1024 else if x < 1024 then x else x - 1024
  {
  }

  lemma HeadMoves(head: nat, tail: nat)
    requires head < 1024 && tail < 1024
    ensures Chars(head, tail) < 1023 ==> Chars(Masked(head + 1), tail) == Chars(head, tail) + 1
    ensures head != tail ==> Chars(Masked(head - 1), tail) == Chars(head, tail) - 1
    ensures head != tail ==> Chars(head, Masked(tail + 1)) == Chars(head, tail) - 1
  {
    hide Masked;
    Wraps(head - tail);
    Wraps(head + 1);
    Wraps(head - 1);
    Wraps(tail + 1);
    Wraps(Masked(head + 1) - tail);
    Wraps(Masked(head - 1) - tail);
    Wraps(head - Masked(tail + 1));
  }

  function Place(tail: nat, i: nat): (p: nat)
    requires tail < 1024 && i < 1024
    ensures p < 1024
  {
    if tail + i < 1024 then tail + i else tail + i - 1024
  }

  lemma PlaceMoves(head: nat, tail: nat)
    requires head < 1024 && tail < 1024
    ensures Place(tail, Chars(head, tail)) == head
    ensures head != tail ==> Place(tail, Chars(head, tail) - 1) == Masked(head - 1)
    ensures forall i: nat | i < Chars(head, tail) :: Place(tail, i) != head
  {
  }

  lemma TailPlaces(tail: nat, tail': nat)
    requires tail < 1024 && tail' == Masked(tail + 1)
    ensures forall i: nat | i < 1023 :: Place(tail', i) == Place(tail, i + 1)
  {
  }

  ghost function Queued(buf: seq<Char>, tail: nat, n: nat): (s: seq<Char>)
    requires |buf| == 1024 && tail < 1024 && n < 1024
    ensures |s| == n && forall i | 0 <= i < n :: s[i] == buf[Place(tail, i)]
  {
    seq(n, i requires 0 <= i < n => buf[Place(tail, i)])
  }

  class TtyQueue {
    var data: int
    var head: nat
    var tail: nat
    const buf: array<Char>

    ghost predicate Valid()
      reads this
    {
      buf.Length == 1024 && head < 1024 && tail < 1024
    }

    /** The queued characters, oldest first. */
    ghost function Contents(): (s: seq<Char>)
      reads this, buf
      requires Valid()
      ensures |s| == Chars(head, tail)
    {
      Queued(buf[..], tail, Chars(head, tail))
    }

    constructor ()
      ensures Valid() && Contents() == [] && data == 0 && fresh(buf)
    {
      buf := new Char[1024](i => 0);
      data, head, tail := 0, 0, 0;
    }

    predicate Empty()
      reads this
    {
      head == tail
    }

    predicate Full()
      reads this
    {
      Left(head, tail) == 0
    }

    lemma EmptyFull()
      requires Valid()
      ensures Empty() <==> Contents() == []
      ensures Full() <==> |Contents()| == 1023
    {
      CharsAndLeft(head, tail);
    }

    /** GETCH, lines 31-32. */
    method Getch() returns (c: Char)
      requires Valid() && Contents() != []
      modifies this`tail
      ensures Valid() && [c] + Contents() == old(Contents())
    {
      hide Masked, Chars;
      CharsAndLeft(head, tail);
      HeadMoves(head, tail);
      PlaceMoves(head, tail);
      c := buf[tail];
      tail := Masked(tail + 1);
      TailPlaces(old(tail), tail);
      assert Place(old(tail), 0) == old(tail);
      assert [c] + Contents() == old(Contents());
    }

    /** PUTCH, lines 33-34, on a queue that is not full. */
    method Putch(c: Char)
      requires Valid() && |Contents()| < 1023
      modifies this`head, buf
      ensures Valid() && Contents() == old(Contents()) + [c]
    {
      hide Masked, Chars;
      HeadMoves(head, tail);
      PlaceMoves(head, tail);
      buf[head] := c;
      head := Masked(head + 1);
      assert Contents() == old(Contents()) + [c];
    }

    /** LAST, line 28. */
    method Last() returns (c: Char)
      requires Valid() && Contents() != []
      ensures c == Contents()[|Contents()| - 1]
    {
      hide Masked, Chars;
      CharsAndLeft(head, tail);
      PlaceMoves(head, tail);
      c := buf[Masked(head - 1)];
    }

    /** DEC of the head, line 25. */
    method Unput()
      requires Valid() && Contents() != []
      modifies this`head
      ensures Valid() && Contents() == old(Contents())[..|old(Contents())| - 1]
    {
      hide Masked, Chars;
      CharsAndLeft(head, tail);
      HeadMoves(head, tail);
      head := Masked(head - 1);
      assert Contents() == old(Contents())[..|old(Contents())| - 1];
    }
  }
}

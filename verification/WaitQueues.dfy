/** sleep_on() and wake_up() of kernel/sched.c as steps. A task inside sleep_on() has given up the
    processor between lines 162 and 163 and keeps its `tmp` on its own stack; other tasks run in
    between, so entering, resuming and waking are separate steps that interleave freely. */
module WaitQueues {
  const NULL: int := -1

  /** What a task keeps inside sleep_on(): the queue it sleeps on and its `tmp`. */
  datatype Frame = Outside | Inside(queue: nat, tmp: int)

  /** For each task whether it is asleep (uninterruptible) and its frame; for each queue the task
      its pointer names. */
  datatype System = System(asleep: seq<bool>, frame: seq<Frame>, head: seq<int>)

  datatype Event = SleepOn(task: nat, queue: nat) | Resume(task: nat) | WakeUp(queue: nat)

  predicate WellSized(s: System) {
    |s.asleep| == |s.frame|
  }

  /** Only a running task sleeps or resumes; task 0 never sleeps (lines 157-158). */
  predicate Can(s: System, e: Event) {
    WellSized(s) &&
    match e
    case SleepOn(i, q) => 0 < i < |s.frame| && q < |s.head| && !s.asleep[i] && s.frame[i].Outside?
    case Resume(i) => i < |s.frame| && !s.asleep[i] && s.frame[i].Inside? && s.frame[i].tmp < |s.frame|
    case WakeUp(q) => q < |s.head| && s.head[q] < |s.frame|
  }

  function Rouse(asleep: seq<bool>, task: int): (a: seq<bool>)
    requires task < |asleep|
    ensures |a| == |asleep|
  {
    if task < 0 then asleep else asleep[task := false]
  }

  function Step(s: System, e: Event): (s': System)
    requires Can(s, e)
    ensures |s'.frame| == |s.frame| && |s'.asleep| == |s.asleep| && |s'.head| == |s.head| && WellSized(s')
  {
    match e
    case SleepOn(i, q) =>   // lines 159-161
      System(s.asleep[i := true], s.frame[i := Inside(q, s.head[q])], s.head[q := i])
    case Resume(i) =>       // lines 163-164
      System(Rouse(s.asleep, s.frame[i].tmp), s.frame[i := Outside], s.head)
    case WakeUp(q) =>       // lines 190-193
      System(Rouse(s.asleep, s.head[q]), s.frame, s.head[q := NULL])
  }

  // ---------------------------------------------------------------- the chains

  /** A chain hangs off a queue pointer, or behind a woken task that has not resumed yet. */
  datatype Anchor = OnQueue(queue: nat) | Behind(task: nat)

  type Chains = map<Anchor, seq<nat>>

  predicate At(ch: Chains, a: Anchor, k: nat, x: nat) {
    a in ch && k < |ch[a]| && ch[a][k] == x
  }

  /** A member's `tmp` is the next member; all sleep on one queue, and all are asleep but a
      member that is its own anchor. */
  predicate Chained(s: System, c: seq<nat>, q: nat, k: nat, awake: bool)
    requires k < |c| && WellSized(s)
  {
    && 0 < c[k] < |s.frame|
    && s.frame[c[k]] == Inside(q, if k + 1 < |c| then c[k + 1] else NULL)
    && s.asleep[c[k]] == !(awake && k == 0)
  }

  function QueueOf(s: System, c: seq<nat>): nat {
    if c != [] && c[0] < |s.frame| && s.frame[c[0]].Inside? then s.frame[c[0]].queue else 0
  }

  ghost predicate IsChain(s: System, a: Anchor, c: seq<nat>)
    requires WellSized(s)
  {
    && c != [] && QueueOf(s, c) < |s.head|
    && (forall k | 0 <= k < |c| :: Chained(s, c, QueueOf(s, c), k, a.Behind?))
    && match a case OnQueue(p) => p == QueueOf(s, c) case Behind(w) => w == c[0]
  }

  ghost predicate AllChains(s: System, ch: Chains)
    requires WellSized(s)
  {
    forall a | a in ch :: IsChain(s, a, ch[a])
  }

  ghost predicate OnePlace(ch: Chains) {
    forall a, b, j: nat, k: nat, x: nat | At(ch, a, j, x) && At(ch, b, k, x) :: a == b && j == k
  }

  ghost predicate Placed(ch: Chains, x: nat) {
    exists a, k: nat :: At(ch, a, k, x)
  }

  /** Every task inside sleep_on() is at exactly one place of exactly one chain; a queue pointer
      names the first of its chain; and nobody else is asleep. */
  ghost predicate Inv(s: System, ch: Chains) {
    && WellSized(s)
    && AllChains(s, ch)
    && OnePlace(ch)
    && (forall x: nat | x < |s.frame| :: if s.frame[x].Inside? then Placed(ch, x) else !s.asleep[x])
    && (forall q: nat | q < |s.head| :: s.head[q] == First(ch, OnQueue(q)))
  }

  function First(ch: Chains, a: Anchor): int {
    if a !in ch || ch[a] == [] then NULL else ch[a][0]
  }

  /** How a step rearranges the chains: a sleeper goes to the front of its queue's chain, a wake-up
      cuts the chain off its queue, and a resuming task passes the chain on to the next. */
  ghost function StepChains(s: System, ch: Chains, e: Event): Chains
    requires Can(s, e)
  {
    match e
    case SleepOn(i, q) =>
      ch[OnQueue(q) := [i] + if OnQueue(q) in ch then ch[OnQueue(q)] else []]
    case Resume(i) =>
      if Behind(i) !in ch then ch
      else if |ch[Behind(i)]| <= 1 then ch - {Behind(i)}
      else (ch - {Behind(i)})[Behind(ch[Behind(i)][1]) := ch[Behind(i)][1..]]
    case WakeUp(q) =>
      if OnQueue(q) !in ch || ch[OnQueue(q)] == [] then ch
      else (ch - {OnQueue(q)})[Behind(ch[OnQueue(q)][0]) := ch[OnQueue(q)]]
  }

  lemma ChainAt(s: System, ch: Chains, a: Anchor, k: nat, x: nat)
    requires Inv(s, ch) && At(ch, a, k, x)
    ensures Chained(s, ch[a], QueueOf(s, ch[a]), k, a.Behind?) && IsChain(s, a, ch[a])
    ensures 0 < x < |s.frame| && s.frame[x].Inside? && s.frame[x].queue == QueueOf(s, ch[a]) < |s.head|
    ensures s.frame[x].tmp == if k + 1 < |ch[a]| then ch[a][k + 1] else NULL
    ensures s.asleep[x] == !(a.Behind? && k == 0)
  {
    assert IsChain(s, a, ch[a]);
  }

  /** A chain whose members keep frame and sleep state stays one. */
  lemma ChainFrame(s: System, s': System, a: Anchor, c: seq<nat>)
    requires WellSized(s) && WellSized(s') && |s'.frame| == |s.frame| && |s'.head| == |s.head| && IsChain(s, a, c)
    requires forall x: nat | x in c && x < |s.frame| :: s'.frame[x] == s.frame[x] && s'.asleep[x] == s.asleep[x]
    ensures IsChain(s', a, c)
  {
    assert Chained(s, c, QueueOf(s, c), 0, a.Behind?);
    forall k | 0 <= k < |c| ensures Chained(s', c, QueueOf(s', c), k, a.Behind?) {
      assert Chained(s, c, QueueOf(s, c), k, a.Behind?);
      assert c[k] in c;
    }
  }

  // ---------------------------------------------------------------- every step keeps the chains

  lemma NotIn(ch: Chains, b: Anchor, x: nat)
    requires b in ch && forall k: nat :: !At(ch, b, k, x)
    ensures x !in ch[b]
  {
    assert forall k: nat | k < |ch[b]| :: !At(ch, b, k, ch[b][k]) || ch[b][k] != x;
  }

  lemma SleepKeeps(s: System, ch: Chains, i: nat, q: nat)
    requires Inv(s, ch) && Can(s, SleepOn(i, q))
    ensures Inv(Step(s, SleepOn(i, q)), StepChains(s, ch, SleepOn(i, q)))
  {
    hide IsChain, OnePlace, Placed, Chained;
    SleepChains(s, ch, i, q);
    SleepPlaces(s, ch, i, q);
  }

  lemma OutsideNowhere(s: System, ch: Chains, i: nat)
    requires Inv(s, ch) && i < |s.frame| && s.frame[i].Outside?
    ensures forall b, k: nat :: !At(ch, b, k, i)
  {
    forall b, k: nat ensures !At(ch, b, k, i) {
      if At(ch, b, k, i) { ChainAt(s, ch, b, k, i); }
    }
  }

  lemma SleepChains(s: System, ch: Chains, i: nat, q: nat)
    requires Inv(s, ch) && Can(s, SleepOn(i, q))
    ensures AllChains(Step(s, SleepOn(i, q)), StepChains(s, ch, SleepOn(i, q)))
  {
    hide OnePlace, Placed;
    var a := OnQueue(q);
    var c := if a in ch then ch[a] else [];
    var s', ch' := Step(s, SleepOn(i, q)), ch[a := [i] + c];
    OutsideNowhere(s, ch, i);
    if a in ch { NotIn(ch, a, i); }
    forall b | b in ch' ensures IsChain(s', b, ch'[b]) {
      if b == a {
        forall k | 0 <= k < |c| + 1 ensures Chained(s', [i] + c, q, k, false) {
          if k > 0 {
            assert At(ch, a, k - 1, c[k - 1]);
            ChainAt(s, ch, a, k - 1, c[k - 1]);
          }
        }
      } else {
        NotIn(ch, b, i);
        ChainFrame(s, s', b, ch[b]);
      }
    }
  }

  lemma SleepPlaces(s: System, ch: Chains, i: nat, q: nat)
    requires Inv(s, ch) && Can(s, SleepOn(i, q))
    ensures OnePlace(StepChains(s, ch, SleepOn(i, q)))
    ensures forall x: nat | x < |s.frame| && (x == i || s.frame[x].Inside?) :: Placed(StepChains(s, ch, SleepOn(i, q)), x)
  {
    hide IsChain, AllChains;
    var a := OnQueue(q);
    var ch' := StepChains(s, ch, SleepOn(i, q));
    OutsideNowhere(s, ch, i);
    forall b, d, j: nat, k: nat, x: nat | At(ch', b, j, x) && At(ch', d, k, x) ensures b == d && j == k {
      assert b == a && j > 0 ==> At(ch, a, j - 1, x);
      assert b != a ==> At(ch, b, j, x);
      assert d == a && k > 0 ==> At(ch, a, k - 1, x);
      assert d != a ==> At(ch, d, k, x);
    }
    forall x: nat | x < |s.frame| && (x == i || s.frame[x].Inside?) ensures Placed(ch', x) {
      if x == i {
        assert At(ch', a, 0, i);
      } else {
        assert Placed(ch, x);
        var b, k: nat :| At(ch, b, k, x);
        assert At(ch', b, if b == a then k + 1 else k, x);
      }
    }
  }

  lemma WakeKeeps(s: System, ch: Chains, q: nat)
    requires Inv(s, ch) && Can(s, WakeUp(q))
    ensures Inv(Step(s, WakeUp(q)), StepChains(s, ch, WakeUp(q)))
  {
    hide IsChain, OnePlace, Placed, Chained;
    if OnQueue(q) in ch {
      FreshAnchor(s, ch, OnQueue(q), 0);
      WakeChains(s, ch, q);
      WakePlaces(s, ch, q);
    } else {
      assert Step(s, WakeUp(q)) == s && StepChains(s, ch, WakeUp(q)) == ch;
    }
  }

  /** No chain is anchored at a member of another, or at a later member of its own. */
  lemma FreshAnchor(s: System, ch: Chains, a: Anchor, k: nat)
    requires Inv(s, ch) && a in ch
    ensures |ch[a]| > 0 && At(ch, a, 0, ch[a][0])
    ensures k < |ch[a]| && (a.OnQueue? || k > 0) ==> At(ch, a, k, ch[a][k]) && Behind(ch[a][k]) !in ch
  {
    assert IsChain(s, a, ch[a]);
    if k < |ch[a]| && (a.OnQueue? || k > 0) {
      var n := Behind(ch[a][k]);
      if n in ch {
        assert IsChain(s, n, ch[n]);
        assert At(ch, n, 0, ch[a][k]) && At(ch, a, k, ch[a][k]);
      }
    }
  }

  /** A member of one chain is in no other. */
  lemma OnlyThere(ch: Chains, a: Anchor, k: nat, b: Anchor)
    requires OnePlace(ch) && a in ch && k < |ch[a]| && b in ch && b != a
    ensures ch[a][k] !in ch[b]
  {
    assert At(ch, a, k, ch[a][k]);
    NotIn(ch, b, ch[a][k]);
  }

  lemma WakeChains(s: System, ch: Chains, q: nat)
    requires Inv(s, ch) && Can(s, WakeUp(q)) && OnQueue(q) in ch && ch[OnQueue(q)] != []
    requires Behind(ch[OnQueue(q)][0]) !in ch
    ensures AllChains(Step(s, WakeUp(q)), StepChains(s, ch, WakeUp(q)))
  {
    hide OnePlace, Placed;
    var a := OnQueue(q);
    var c := ch[a];
    var n := Behind(c[0]);
    var s', ch' := Step(s, WakeUp(q)), StepChains(s, ch, WakeUp(q));
    assert s.head[q] == First(ch, a) == c[0];
    forall b | b in ch' ensures IsChain(s', b, ch'[b]) {
      if b == n {
        WakeCut(s, ch, q);
      } else {
        OnlyThere(ch, a, 0, b);
        assert IsChain(s, b, ch[b]);
        ChainFrame(s, s', b, ch[b]);
      }
    }
  }

  lemma WakeCut(s: System, ch: Chains, q: nat)
    requires Inv(s, ch) && Can(s, WakeUp(q)) && OnQueue(q) in ch && ch[OnQueue(q)] != []
    ensures IsChain(Step(s, WakeUp(q)), Behind(ch[OnQueue(q)][0]), ch[OnQueue(q)])
  {
    var a := OnQueue(q);
    var c := ch[a];
    var s' := Step(s, WakeUp(q));
    assert IsChain(s, a, c);
    assert s.head[q] == First(ch, a) == c[0];
    forall k | 0 <= k < |c| ensures Chained(s', c, q, k, true) {
      assert At(ch, a, k, c[k]) && At(ch, a, 0, c[0]);
      ChainAt(s, ch, a, k, c[k]);
    }
  }

  lemma WakePlaces(s: System, ch: Chains, q: nat)
    requires Inv(s, ch) && Can(s, WakeUp(q)) && OnQueue(q) in ch && ch[OnQueue(q)] != []
    requires Behind(ch[OnQueue(q)][0]) !in ch
    ensures OnePlace(StepChains(s, ch, WakeUp(q)))
    ensures forall x: nat | Placed(ch, x) :: Placed(StepChains(s, ch, WakeUp(q)), x)
  {
    hide AllChains, IsChain;
    var a := OnQueue(q);
    var n := Behind(ch[a][0]);
    var ch' := StepChains(s, ch, WakeUp(q));
    forall b, d, j: nat, k: nat, x: nat | At(ch', b, j, x) && At(ch', d, k, x) ensures b == d && j == k {
      assert At(ch, if b == n then a else b, j, x);
      assert At(ch, if d == n then a else d, k, x);
    }
    forall x: nat | Placed(ch, x) ensures Placed(ch', x) {
      var b, k: nat :| At(ch, b, k, x);
      assert At(ch', if b == a then n else b, k, x);
    }
  }

  lemma ResumeKeeps(s: System, ch: Chains, i: nat)
    requires Inv(s, ch) && Can(s, Resume(i))
    ensures Behind(i) in ch
    ensures Inv(Step(s, Resume(i)), StepChains(s, ch, Resume(i)))
  {
    hide IsChain, OnePlace, Placed, Chained;
    Woken(s, ch, i);
    FreshAnchor(s, ch, Behind(i), 1);
    assert IsChain(s, Behind(i), ch[Behind(i)]);
    ResumeChains(s, ch, i);
    ResumePlaces(s, ch, i);
    var s' := Step(s, Resume(i));
    ChainAt(s, ch, Behind(i), 0, i);
    assert forall x: nat | x < |s.frame| && s'.frame[x].Outside? && x != i :: !s.asleep[x];
  }

  lemma ResumeChains(s: System, ch: Chains, i: nat)
    requires Inv(s, ch) && Can(s, Resume(i)) && At(ch, Behind(i), 0, i)
    requires |ch[Behind(i)]| > 1 ==> Behind(ch[Behind(i)][1]) !in ch
    ensures AllChains(Step(s, Resume(i)), StepChains(s, ch, Resume(i)))
  {
    hide OnePlace, Placed;
    var a := Behind(i);
    var c := ch[a];
    var s', ch' := Step(s, Resume(i)), StepChains(s, ch, Resume(i));
    ChainAt(s, ch, a, 0, i);
    forall b | b in ch' ensures IsChain(s', b, ch'[b]) {
      if |c| > 1 && b == Behind(c[1]) {
        ResumeRest(s, ch, i);
      } else {
        OnlyThere(ch, a, 0, b);
        if |c| > 1 { OnlyThere(ch, a, 1, b); }
        assert IsChain(s, b, ch[b]);
        ChainFrame(s, s', b, ch[b]);
      }
    }
  }

  lemma ResumeRest(s: System, ch: Chains, i: nat)
    requires Inv(s, ch) && Can(s, Resume(i)) && At(ch, Behind(i), 0, i) && |ch[Behind(i)]| > 1
    ensures IsChain(Step(s, Resume(i)), Behind(ch[Behind(i)][1]), ch[Behind(i)][1..])
  {
    var a := Behind(i);
    var c := ch[a];
    var s' := Step(s, Resume(i));
    ChainAt(s, ch, a, 0, i);
    assert At(ch, a, 1, c[1]);
    ChainAt(s, ch, a, 1, c[1]);
    assert c[1] != i && QueueOf(s', c[1..]) == QueueOf(s, c);
    forall k | 0 <= k < |c| - 1 ensures Chained(s', c[1..], QueueOf(s, c), k, true) {
      assert At(ch, a, k + 1, c[k + 1]);
      ChainAt(s, ch, a, k + 1, c[k + 1]);
    }
  }

  lemma ResumePlaces(s: System, ch: Chains, i: nat)
    requires Inv(s, ch) && Can(s, Resume(i)) && At(ch, Behind(i), 0, i)
    requires |ch[Behind(i)]| > 1 ==> Behind(ch[Behind(i)][1]) !in ch
    ensures OnePlace(StepChains(s, ch, Resume(i)))
    ensures forall x: nat | Placed(ch, x) && x != i :: Placed(StepChains(s, ch, Resume(i)), x)
  {
    hide AllChains, IsChain;
    var a := Behind(i);
    var c := ch[a];
    var ch' := StepChains(s, ch, Resume(i));
    forall b, d, j: nat, k: nat, x: nat | At(ch', b, j, x) && At(ch', d, k, x) ensures b == d && j == k {
      assert if |c| > 1 && b == Behind(c[1]) then At(ch, a, j + 1, x) else At(ch, b, j, x) && b != a;
      assert if |c| > 1 && d == Behind(c[1]) then At(ch, a, k + 1, x) else At(ch, d, k, x) && d != a;
    }
    forall x: nat | Placed(ch, x) && x != i ensures Placed(ch', x) {
      var b, k: nat :| At(ch, b, k, x);
      if b == a {
        assert At(ch', Behind(c[1]), k - 1, x);
      } else {
        assert At(ch', b, k, x);
      }
    }
  }

  /** A task that is inside sleep_on() but runnable is the woken head of a chain. */
  lemma Woken(s: System, ch: Chains, i: nat)
    requires Inv(s, ch) && i < |s.frame| && !s.asleep[i] && s.frame[i].Inside?
    ensures Behind(i) in ch && At(ch, Behind(i), 0, i)
  {
    assert Placed(ch, i);
    var a, k: nat :| At(ch, a, k, i);
    ChainAt(s, ch, a, k, i);
  }

  lemma StepKeeps(s: System, ch: Chains, e: Event)
    requires Inv(s, ch) && Can(s, e)
    ensures Inv(Step(s, e), StepChains(s, ch, e))
  {
    hide Inv, Can, Step, StepChains;
    match e
    case SleepOn(i, q) => SleepKeeps(s, ch, i, q);
    case Resume(i) => ResumeKeeps(s, ch, i);
    case WakeUp(q) => WakeKeeps(s, ch, q);
  }

  /** Nobody is inside sleep_on() and no queue names anybody. */
  predicate Quiet(s: System) {
    && WellSized(s)
    && (forall x | 0 <= x < |s.frame| :: s.frame[x].Outside? && !s.asleep[x])
    && (forall q | 0 <= q < |s.head| :: s.head[q] == NULL)
  }

  lemma NobodySleeps(s: System)
    requires Quiet(s)
    ensures Inv(s, map[])
  {
  }

  // ---------------------------------------------------------------- runs

  predicate CanRun(s: System, es: seq<Event>)
    decreases |es|
  {
    es == [] || (Can(s, es[0]) && CanRun(Step(s, es[0]), es[1..]))
  }

  function Final(s: System, es: seq<Event>): System
    requires CanRun(s, es)
    decreases |es|
  {
    if es == [] then s else Final(Step(s, es[0]), es[1..])
  }

  ghost function FinalChains(s: System, ch: Chains, es: seq<Event>): Chains
    requires CanRun(s, es)
    decreases |es|
  {
    if es == [] then ch else FinalChains(Step(s, es[0]), StepChains(s, ch, es[0]), es[1..])
  }

  lemma {:induction false} SameSize(s: System, es: seq<Event>)
    requires CanRun(s, es)
    ensures |Final(s, es).frame| == |s.frame| && |Final(s, es).asleep| == |s.asleep|
    decreases |es|
  {
    if es != [] { SameSize(Step(s, es[0]), es[1..]); }
  }

  lemma {:induction false} RunKeeps(s: System, ch: Chains, es: seq<Event>)
    requires Inv(s, ch) && CanRun(s, es)
    ensures Inv(Final(s, es), FinalChains(s, ch, es))
    decreases |es|
  {
    if es != [] {
      StepKeeps(s, ch, es[0]);
      RunKeeps(Step(s, es[0]), StepChains(s, ch, es[0]), es[1..]);
    }
  }

  lemma Anchored(s: System, ch: Chains, x: nat) returns (a: Anchor, k: nat)
    requires Inv(s, ch) && x < |s.frame| && s.asleep[x]
    ensures At(ch, a, k, x) && s.frame[x].Inside?
    ensures match a
      case OnQueue(q) => s.frame[x].queue == q < |s.head| && s.head[q] == ch[a][0]
      case Behind(w) => k > 0 && ch[a][0] == w < |s.frame| && s.frame[w].Inside? && s.frame[w].queue == s.frame[x].queue && !s.asleep[w]
    ensures forall b, j: nat | At(ch, b, j, x) :: b == a && j == k
  {
    assert Placed(ch, x);
    a, k :| At(ch, a, k, x);
    ChainAt(s, ch, a, k, x);
    assert At(ch, a, 0, ch[a][0]);
    ChainAt(s, ch, a, 0, ch[a][0]);
  }

  /** After any run that starts with nobody asleep, nobody asleep is forgotten: it hangs, in one place,
      off the queue it sleeps on, or behind a task that is runnable and still has to resume. */
  lemma NobodyLost(s: System, es: seq<Event>, x: nat) returns (a: Anchor, k: nat)
    requires Quiet(s) && CanRun(s, es)
    requires x < |Final(s, es).asleep| && Final(s, es).asleep[x]
    ensures var (t, c) := (Final(s, es), FinalChains(s, map[], es));
      && Inv(t, c) && At(c, a, k, x) && (forall b, j: nat | At(c, b, j, x) :: b == a && j == k)
      && x < |t.frame| && t.frame[x].Inside?
      && match a
         case OnQueue(q) => t.frame[x].queue == q < |t.head| && t.head[q] == c[a][0]
         case Behind(w) => k > 0 && c[a][0] == w < |t.frame| && t.frame[w].Inside? && t.frame[w].queue == t.frame[x].queue && !t.asleep[w]
  {
    hide Inv;
    NobodySleeps(s);
    RunKeeps(s, map[], es);
    SameSize(s, es);
    a, k := Anchored(Final(s, es), FinalChains(s, map[], es), x);
  }

  /** The woken head of x's chain resumes. */
  ghost predicate PassesOn(ch: Chains, e: Event, x: nat) {
    e.Resume? && Behind(e.task) in ch && e.task != x && x in ch[Behind(e.task)]
  }

  ghost function HeadResumes(s: System, ch: Chains, es: seq<Event>, x: nat): nat
    requires CanRun(s, es)
    decreases |es|
  {
    if es == [] then 0 else
      (if PassesOn(ch, es[0], x) then 1 else 0) + HeadResumes(Step(s, es[0]), StepChains(s, ch, es[0]), es[1..], x)
  }

  /** A step brings a sleeper behind a woken task one place nearer, or leaves its place alone. */
  lemma PlaceMoves(s: System, ch: Chains, e: Event, w: nat, k: nat, x: nat) returns (w': nat)
    requires Inv(s, ch) && Can(s, e) && At(ch, Behind(w), k, x) && e != Resume(x)
    ensures PassesOn(ch, e, x) ==> k > 0
    ensures At(StepChains(s, ch, e), Behind(w'), if PassesOn(ch, e, x) then k - 1 else k, x)
  {
    w' := w;
    ChainAt(s, ch, Behind(w), k, x);
    match e
    case SleepOn(i, q) =>
    case WakeUp(q) =>
      if OnQueue(q) in ch { FreshAnchor(s, ch, OnQueue(q), 0); }
    case Resume(i) =>
      Woken(s, ch, i);
      if i == w {
        FreshAnchor(s, ch, Behind(w), 1);
        w' := ch[Behind(w)][1];
      } else {
        FreshAnchor(s, ch, Behind(i), 1);
        OnlyThere(ch, Behind(w), k, Behind(i));
      }
  }

  /** Whatever else happens, a sleeper k places behind a woken task is k resumes of the heads of
      its chain from being runnable, and never more. */
  lemma {:induction false} Approaches(s: System, ch: Chains, es: seq<Event>, w: nat, k: nat, x: nat) returns (w': nat)
    requires Inv(s, ch) && CanRun(s, es) && At(ch, Behind(w), k, x) && Resume(x) !in es
    ensures HeadResumes(s, ch, es, x) <= k
    ensures At(FinalChains(s, ch, es), Behind(w'), k - HeadResumes(s, ch, es, x), x)
    decreases |es|
  {
    hide Inv, Can, Step, StepChains, PassesOn;
    w' := w;
    if es != [] {
      var e := es[0];
      assert e in es;
      var v := PlaceMoves(s, ch, e, w, k, x);
      StepKeeps(s, ch, e);
      w' := Approaches(Step(s, e), StepChains(s, ch, e), es[1..], v, if PassesOn(ch, e, x) then k - 1 else k, x);
    }
  }

  /** One wake_up is enough for everyone then queued: the k-th sleeper of the queue is runnable
      after exactly k resumes along its chain, and until then some task that is runnable has the
      next of them to do. */
  lemma WakeUpReachesAll(s: System, ch: Chains, q: nat, k: nat, x: nat, es: seq<Event>)
    requires Inv(s, ch) && Can(s, WakeUp(q)) && At(ch, OnQueue(q), k, x)
    requires CanRun(Step(s, WakeUp(q)), es) && Resume(x) !in es
    ensures var (s1, ch1) := (Step(s, WakeUp(q)), StepChains(s, ch, WakeUp(q)));
      var (n, t, c) := (HeadResumes(s1, ch1, es, x), Final(s1, es), FinalChains(s1, ch1, es));
      && n <= k && |t.asleep| == |s.asleep| > x
      && (t.asleep[x] <==> n < k)
      && (t.asleep[x] ==> exists w: nat :: Can(t, Resume(w)) && PassesOn(c, Resume(w), x))
  {
    hide *;
    var s1, ch1 := Step(s, WakeUp(q)), StepChains(s, ch, WakeUp(q));
    WakeKeeps(s, ch, q);
    var h := CutOff(s, ch, q, k, x);
    ReachedAfter(s1, ch1, h, k, x, es);
  }

  lemma CutOff(s: System, ch: Chains, q: nat, k: nat, x: nat) returns (h: nat)
    requires Inv(s, ch) && Can(s, WakeUp(q)) && At(ch, OnQueue(q), k, x)
    ensures At(StepChains(s, ch, WakeUp(q)), Behind(h), k, x)
    ensures |Step(s, WakeUp(q)).asleep| == |s.asleep| > x
  {
    h := ch[OnQueue(q)][0];
    ChainAt(s, ch, OnQueue(q), k, x);
  }

  lemma ReachedAfter(s: System, ch: Chains, h: nat, k: nat, x: nat, es: seq<Event>)
    requires Inv(s, ch) && At(ch, Behind(h), k, x) && CanRun(s, es) && Resume(x) !in es && x < |s.asleep|
    ensures var (n, t, c) := (HeadResumes(s, ch, es, x), Final(s, es), FinalChains(s, ch, es));
      && n <= k && |t.asleep| == |s.asleep|
      && (t.asleep[x] <==> n < k)
      && (t.asleep[x] ==> exists w: nat :: Can(t, Resume(w)) && PassesOn(c, Resume(w), x))
  {
    hide CanRun, HeadResumes, Final, FinalChains, Inv, Can, IsChain, Chained, AllChains, OnePlace, Placed, QueueOf;
    var w := Approaches(s, ch, es, h, k, x);
    RunKeeps(s, ch, es);
    var t, c := Final(s, es), FinalChains(s, ch, es);
    SameSize(s, es);
    ChainAt(t, c, Behind(w), k - HeadResumes(s, ch, es, x), x);
    HeadCanResume(t, c, w);
    if t.asleep[x] {
      assert PassesOn(c, Resume(w), x);
    }
  }

  lemma HeadCanResume(s: System, ch: Chains, w: nat)
    requires Inv(s, ch) && Behind(w) in ch
    ensures Can(s, Resume(w)) && At(ch, Behind(w), 0, w)
  {
    assert IsChain(s, Behind(w), ch[Behind(w)]);
    assert At(ch, Behind(w), 0, w);
    ChainAt(s, ch, Behind(w), 0, w);
    if |ch[Behind(w)]| > 1 {
      assert At(ch, Behind(w), 1, ch[Behind(w)][1]);
      ChainAt(s, ch, Behind(w), 1, ch[Behind(w)][1]);
    }
  }
}

/**
 The `call_once` protocol, as atomic steps of any number of concurrent calls on one control word.

 Each call is a program counter; a schedule is any sequence of calls, each taking its next atomic
 step, with spurious wake-ups of sleeping calls thrown in at will. The results are about every
 schedule: `fn` starts at most once, nobody returns before it has finished, nobody sleeps for ever,
 and every schedule without spurious wake-ups is finite and ends with every call returned.
 */
module CallOnce {
  import opened Options

  const INIT: nat := 0
  const RUNNING: nat := 0x65C2_937B
  const WAITER: nat := 0x05A3_08D2
  const DONE: nat := 221

  datatype Transition = Transition(from: nat, to: nat, done: bool)

  const TRANSITIONS: seq<Transition> := [
    Transition(INIT, RUNNING, true),
    Transition(RUNNING, WAITER, false),
    Transition(DONE, DONE, true)
  ]

  /** The first row from `i` on that applies to `v`, or the number of rows. */
  function FindRow(trans: seq<Transition>, v: nat, i: nat): (row: nat)
    requires i <= |trans|
    ensures i <= row <= |trans|
    ensures row < |trans| ==> trans[row].from == v
    ensures forall k :: i <= k < row ==> trans[k].from != v
    decreases |trans| - i
  {
    if i != |trans| && v != trans[i].from then FindRow(trans, v, i + 1) else i
  }

  datatype Pc =
    | FastLoad            // about to read the word in call_once
    | DebugLoad           // about to read it in the debug check
    | FastExchange        // about to try INIT -> RUNNING
    | WaitLoad            // at the top of the SpinLockWait loop
    | WaitMatch(seen: nat)  // has read `seen`, about to look for its row
    | Delay(seen: nat)    // about to ask the kernel to sleep while the word is `seen`
    | Asleep(seen: nat)
    | Invoke              // won the right to call fn
    | InFn
    | Finish              // fn has returned, about to exchange in DONE
    | Wake                // about to wake all sleepers
    | Returned
    | Fatal               // the debug check failed

  // Whether the build leaves out debug checks, the control word, every call, and how often fn was
  // started and has finished.
  datatype State = State(ndebug: bool, word: nat, calls: seq<Pc>, starts: nat, finishes: nat)

  function Start(n: nat, ndebug: bool): State {
    State(ndebug, INIT, seq(n, i => FastLoad), 0, 0)
  }

  predicate KnownWord(word: nat) {
    word == INIT || word == RUNNING || word == WAITER || word == DONE
  }

  /** What a call does when SpinLockWait has returned `v`. */
  function AfterWait(v: nat): Pc {
    if v == INIT then Invoke else Returned
  }

  function Awakened(calls: seq<Pc>): (c: seq<Pc>)
    ensures |c| == |calls|
    ensures forall i :: 0 <= i < |c| ==> c[i] == if calls[i].Asleep? then WaitLoad else calls[i]
  {
    seq(|calls|, i requires 0 <= i < |calls| => if calls[i].Asleep? then WaitLoad else calls[i])
  }

  function Move(s: State, t: nat, pc: Pc): State
    requires t < |s.calls|
  {
    s.(calls := s.calls[t := pc])
  }

  /** One turn of the wait loop after reading `v`: delay, or a transition, or try again. */
  function MatchStep(s: State, t: nat, v: nat): State
    requires t < |s.calls|
  {
    var i := FindRow(TRANSITIONS, v, 0);
    if i == |TRANSITIONS| then Move(s, t, Delay(v))
    else
      var row := TRANSITIONS[i];
      if row.to == v || s.word == v then
        var s' := if row.to == v then s else s.(word := row.to);
        Move(s', t, if row.done then AfterWait(v) else WaitLoad)
      else Move(s, t, WaitLoad)
  }

  /** The next atomic step of call `t`; None when it has none of its own. */
  function Step(s: State, t: nat): Option<State>
    requires t < |s.calls|
  {
    match s.calls[t]
    case FastLoad =>
      Some(Move(s, t, if s.word == DONE then Returned else if s.ndebug then FastExchange else DebugLoad))
    case DebugLoad => Some(Move(s, t, if KnownWord(s.word) then FastExchange else Fatal))
    case FastExchange =>
      Some(if s.word == INIT then Move(s.(word := RUNNING), t, Invoke) else Move(s, t, WaitLoad))
    case WaitLoad => Some(Move(s, t, WaitMatch(s.word)))
    case WaitMatch(v) => Some(MatchStep(s, t, v))
    case Delay(v) => Some(Move(s, t, if s.word == v then Asleep(v) else WaitLoad))
    case Asleep(_) => None
    case Invoke => Some(Move(s.(starts := s.starts + 1), t, InFn))
    case InFn => Some(Move(s.(finishes := s.finishes + 1), t, Finish))
    case Finish => Some(Move(s.(word := DONE), t, if s.word == WAITER then Wake else Returned))
    case Wake => Some(s.(calls := Awakened(s.calls[t := Returned])))
    case Returned => None
    case Fatal => None
  }

  // A turn of the schedule: call `t` takes its step, or is woken for no reason.
  datatype Turn = Own(t: nat) | Spurious(t: nat)

  function Take(s: State, turn: Turn): Option<State> {
    match turn
    case Own(t) => if t < |s.calls| then Step(s, t) else None
    case Spurious(t) => if t < |s.calls| && s.calls[t].Asleep? then Some(Move(s, t, WaitLoad)) else None
  }

  /** The state a schedule leads to, if every turn of it can be taken. */
  function Run(s: State, schedule: seq<Turn>): Option<State> {
    if schedule == [] then Some(s)
    else match Run(s, schedule[..|schedule| - 1])
      case None => None
      case Some(s') => Take(s', schedule[|schedule| - 1])
  }

  // ----- The invariant

  predicate Runner(pc: Pc) {
    pc.Invoke? || pc.InFn? || pc.Finish?
  }

  predicate SoleRunner(s: State, r: nat) {
    r < |s.calls| && Runner(s.calls[r]) && forall i :: 0 <= i < |s.calls| && Runner(s.calls[i]) ==> i == r
  }

  predicate Progress(s: State, r: nat)
    requires r < |s.calls|
  {
    s.starts == (if s.calls[r].Invoke? then 0 else 1) && s.finishes == (if s.calls[r].Finish? then 1 else 0)
  }

  predicate NoRunner(s: State) {
    forall i :: 0 <= i < |s.calls| ==> !Runner(s.calls[i])
  }

  /** Who runs fn, and how far it has got, by the word. */
  ghost predicate Ownership(s: State) {
    if s.word == INIT then NoRunner(s) && s.starts == 0 && s.finishes == 0
    else if s.word == DONE then NoRunner(s) && s.starts == 1 && s.finishes == 1
    else exists r: nat :: SoleRunner(s, r) && Progress(s, r)
  }

  ghost predicate SomeoneWakes(s: State) {
    exists w :: 0 <= w < |s.calls| && s.calls[w].Wake?
  }

  /** What a call may assume of the word at each point. */
  ghost predicate Located(s: State, pc: Pc) {
    match pc
    case FastLoad => true
    case DebugLoad => true
    case FastExchange => true
    case WaitLoad => s.word != INIT
    case WaitMatch(v) =>
      && s.word != INIT && KnownWord(v) && v != INIT
      && (v == WAITER ==> s.word == WAITER || s.word == DONE) && (v == DONE ==> s.word == DONE)
    case Delay(v) => v == WAITER && (s.word == WAITER || s.word == DONE)
    case Asleep(v) => v == WAITER && (s.word == WAITER || (s.word == DONE && SomeoneWakes(s)))
    case Invoke => true
    case InFn => true
    case Finish => true
    case Wake => s.word == DONE
    case Returned => s.word == DONE
    case Fatal => false
  }

  ghost predicate Invariant(s: State) {
    && KnownWord(s.word)
    && Ownership(s)
    && forall i :: 0 <= i < |s.calls| ==> Located(s, s.calls[i])
  }

  lemma StartInvariant(n: nat, ndebug: bool)
    ensures Invariant(Start(n, ndebug))
  {
  }

  lemma {:induction false} RowsFor(v: nat)
    ensures FindRow(TRANSITIONS, v, 0)
         == if v == INIT then 0 else if v == RUNNING then 1 else if v == DONE then 2 else 3
  {
    assert FindRow(TRANSITIONS, v, 3) == 3;
    assert v != DONE ==> FindRow(TRANSITIONS, v, 2) == 3;
    assert v != DONE && v != RUNNING ==> FindRow(TRANSITIONS, v, 1) == 3;
  }

  /** The word only ever moves forward. */
  function Rank(word: nat): nat {
    if word == INIT then 0 else if word == RUNNING then 1 else if word == WAITER then 2 else 3
  }

  predicate WordEdge(w: nat, w': nat) {
    || w' == w
    || (w == INIT && w' == RUNNING)
    || (w == RUNNING && w' == WAITER)
    || (w == RUNNING && w' == DONE)
    || (w == WAITER && w' == DONE)
  }

  // ----- One step keeps the invariant

  /** A call that does not move keeps its place while the word moves forward. */
  lemma LocatedStays(s: State, s': State, pc: Pc)
    requires Located(s, pc) && KnownWord(s.word) && WordEdge(s.word, s'.word)
    requires s.word == DONE && SomeoneWakes(s) ==> SomeoneWakes(s')
    requires s.word == WAITER && s'.word == DONE ==> SomeoneWakes(s')
    ensures Located(s', pc)
  {
  }

  lemma {:induction false} WakersStay(s: State, s': State, t: nat)
    requires t < |s.calls| && |s'.calls| == |s.calls|
    requires forall i :: 0 <= i < |s.calls| && i != t ==> s'.calls[i] == s.calls[i]
    requires !s.calls[t].Wake? || s'.calls[t].Wake?
    ensures SomeoneWakes(s) ==> SomeoneWakes(s')
  {
    if SomeoneWakes(s) {
      var w :| 0 <= w < |s.calls| && s.calls[w].Wake?;
      assert s'.calls[w].Wake?;
    }
  }

  /** A move that neither starts nor ends running fn. */
  lemma {:induction false} QuietMove(s: State, t: nat, pc: Pc, word: nat)
    requires Invariant(s) && t < |s.calls|
    requires !Runner(s.calls[t]) && !Runner(pc) && !s.calls[t].Wake?
    requires word == s.word || (s.word == RUNNING && word == WAITER)
    requires Located(s.(word := word), pc)
    ensures Invariant(Move(s.(word := word), t, pc))
  {
    var s' := Move(s.(word := word), t, pc);
    WakersStay(s, s', t);
    forall i | 0 <= i < |s'.calls| ensures Located(s', s'.calls[i]) {
      if i == t {
        LocatedStays(s.(word := word), s', pc);
      } else {
        LocatedStays(s, s', s.calls[i]);
      }
    }
    if s.word == RUNNING || s.word == WAITER {
      var r: nat :| SoleRunner(s, r) && Progress(s, r);
      assert SoleRunner(s', r) && Progress(s', r);
    }
  }

  /** The first exchange from INIT makes its call the one that runs fn. */
  lemma {:induction false} ClaimMove(s: State, t: nat)
    requires Invariant(s) && t < |s.calls| && s.word == INIT
    ensures Invariant(Move(s.(word := RUNNING), t, Invoke))
  {
    var s' := Move(s.(word := RUNNING), t, Invoke);
    forall i | 0 <= i < |s'.calls| ensures Located(s', s'.calls[i]) {
      if i != t {
        LocatedStays(s, s', s.calls[i]);
      }
    }
    assert SoleRunner(s', t) && Progress(s', t);
  }

  lemma RunnerOwns(s: State, t: nat)
    requires Invariant(s) && t < |s.calls| && Runner(s.calls[t])
    ensures (s.word == RUNNING || s.word == WAITER) && SoleRunner(s, t) && Progress(s, t)
  {
  }

  /** The runner calls fn, or fn returns to it. */
  lemma {:induction false} RunnerMove(s: State, t: nat)
    requires Invariant(s) && t < |s.calls| && (s.calls[t].Invoke? || s.calls[t].InFn?)
    ensures Invariant(Step(s, t).value)
  {
    var s' := Step(s, t).value;
    RunnerOwns(s, t);
    WakersStay(s, s', t);
    forall i | 0 <= i < |s'.calls| ensures Located(s', s'.calls[i]) {
      if i != t {
        LocatedStays(s, s', s.calls[i]);
      }
    }
    assert SoleRunner(s', t) && Progress(s', t);
  }

  /** The runner leaves DONE behind, and wakes whoever may be asleep on WAITER. */
  lemma {:induction false} FinishMove(s: State, t: nat)
    requires Invariant(s) && t < |s.calls| && s.calls[t].Finish?
    ensures Invariant(Step(s, t).value)
  {
    var s' := Step(s, t).value;
    RunnerOwns(s, t);
    if s.word == WAITER {
      assert s'.calls[t].Wake?;
    }
    forall i | 0 <= i < |s'.calls| ensures Located(s', s'.calls[i]) {
      if i != t {
        LocatedStays(s, s', s.calls[i]);
      }
    }
  }

  lemma {:induction false} WakeMove(s: State, t: nat)
    requires Invariant(s) && t < |s.calls| && s.calls[t].Wake?
    ensures Invariant(Step(s, t).value)
  {
    var s' := Step(s, t).value;
    assert Located(s, s.calls[t]);
    forall i | 0 <= i < |s'.calls| ensures Located(s', s'.calls[i]) && !Runner(s'.calls[i]) {
      assert Located(s, s.calls[i]);
    }
  }

  lemma {:induction false} MatchMove(s: State, t: nat, v: nat)
    requires Invariant(s) && t < |s.calls| && s.calls[t] == WaitMatch(v)
    ensures Invariant(MatchStep(s, t, v))
    ensures v != INIT && WordEdge(s.word, MatchStep(s, t, v).word)
  {
    assert Located(s, s.calls[t]);
    RowsFor(v);
    if v == RUNNING {
      if s.word == RUNNING {
        QuietMove(s, t, WaitLoad, WAITER);
      } else {
        QuietMove(s, t, WaitLoad, s.word);
      }
    } else if v == DONE {
      QuietMove(s, t, Returned, s.word);
    } else {
      QuietMove(s, t, Delay(v), s.word);
    }
  }

  lemma {:induction false} StepInvariant(s: State, t: nat)
    requires Invariant(s) && t < |s.calls| && Step(s, t).Some?
    ensures Invariant(Step(s, t).value)
    ensures WordEdge(s.word, Step(s, t).value.word)
  {
    assert Located(s, s.calls[t]);
    match s.calls[t]
    case FastLoad =>
      QuietMove(s, t, if s.word == DONE then Returned else if s.ndebug then FastExchange else DebugLoad, s.word);
    case DebugLoad => QuietMove(s, t, FastExchange, s.word);
    case FastExchange =>
      if s.word == INIT {
        ClaimMove(s, t);
      } else {
        QuietMove(s, t, WaitLoad, s.word);
      }
    case WaitLoad => QuietMove(s, t, WaitMatch(s.word), s.word);
    case WaitMatch(v) => MatchMove(s, t, v);
    case Delay(v) => QuietMove(s, t, if s.word == v then Asleep(v) else WaitLoad, s.word);
    case Invoke => RunnerMove(s, t);
    case InFn => RunnerMove(s, t);
    case Finish =>
      RunnerOwns(s, t);
      FinishMove(s, t);
    case Wake => WakeMove(s, t);
  }

  lemma {:induction false} TakeInvariant(s: State, turn: Turn)
    requires Invariant(s) && Take(s, turn).Some?
    ensures Invariant(Take(s, turn).value)
    ensures WordEdge(s.word, Take(s, turn).value.word)
  {
    match turn
    case Own(t) => StepInvariant(s, t);
    case Spurious(t) =>
      assert Located(s, s.calls[t]);
      QuietMove(s, t, WaitLoad, s.word);
  }

  // ----- Safety of every schedule

  lemma {:induction false} RunInvariant(n: nat, ndebug: bool, schedule: seq<Turn>)
    requires Run(Start(n, ndebug), schedule).Some?
    ensures Invariant(Run(Start(n, ndebug), schedule).value)
  {
    StartInvariant(n, ndebug);
    if schedule != [] {
      var before := schedule[..|schedule| - 1];
      RunInvariant(n, ndebug, before);
      TakeInvariant(Run(Start(n, ndebug), before).value, schedule[|schedule| - 1]);
    }
  }

  lemma {:induction false} RunAppend(s: State, a: seq<Turn>, b: seq<Turn>)
    ensures Run(s, a + b) == match Run(s, a) case None => None case Some(m) => Run(m, b)
  {
    if b == [] {
      assert a + b == a;
    } else {
      assert (a + b)[..|a + b| - 1] == a + b[..|b| - 1];
      RunAppend(s, a, b[..|b| - 1]);
    }
  }

  /**
   * Exactly-once: under every schedule fn is started at most once, a call that has returned has
   * returned after fn finished, the wait never asks a second call to run fn, and the debug check
   * never fails.
   */
  lemma {:induction false} Safety(n: nat, ndebug: bool, schedule: seq<Turn>, s: State)
    requires Run(Start(n, ndebug), schedule) == Some(s)
    ensures s.finishes <= s.starts <= 1
    ensures (exists i :: 0 <= i < |s.calls| && s.calls[i].Returned?) ==> s.starts == 1 && s.finishes == 1
    ensures forall i :: 0 <= i < |s.calls| ==> !s.calls[i].Fatal?
    ensures forall i :: 0 <= i < |s.calls| && s.calls[i].WaitMatch? ==> AfterWait(s.calls[i].seen) == Returned
  {
    RunInvariant(n, ndebug, schedule);
    assert forall i :: 0 <= i < |s.calls| ==> Located(s, s.calls[i]);
  }

  /** Later in a schedule the word is the same or further on; once DONE it stays DONE. */
  lemma {:induction false} WordForward(s: State, schedule: seq<Turn>)
    requires Invariant(s) && Run(s, schedule).Some?
    ensures Invariant(Run(s, schedule).value)
    ensures Rank(s.word) <= Rank(Run(s, schedule).value.word)
    ensures s.word != INIT ==> Run(s, schedule).value.word != INIT
    ensures s.word == DONE ==> Run(s, schedule).value.word == DONE
  {
    if schedule != [] {
      var before := schedule[..|schedule| - 1];
      WordForward(s, before);
      TakeInvariant(Run(s, before).value, schedule[|schedule| - 1]);
    }
  }

  /** A sleeping call is owed a wake-up by a runner yet to exchange, or by one about to wake it. */
  lemma {:induction false} NoLostWakeup(n: nat, ndebug: bool, schedule: seq<Turn>, s: State, i: nat)
    requires Run(Start(n, ndebug), schedule) == Some(s)
    requires i < |s.calls| && s.calls[i].Asleep?
    ensures || (s.word == WAITER && exists r: nat :: SoleRunner(s, r))
            || (s.word == DONE && SomeoneWakes(s))
  {
    RunInvariant(n, ndebug, schedule);
    assert Located(s, s.calls[i]);
  }

  // ----- Progress

  predicate Finished(s: State) {
    forall i :: 0 <= i < |s.calls| ==> s.calls[i].Returned?
  }

  /** As long as some call has not returned, some call can take its own next step. */
  lemma {:induction false} NoDeadlock(s: State)
    requires Invariant(s)
    ensures Finished(s) || exists t: nat :: t < |s.calls| && Step(s, t).Some?
  {
    if i: nat :| i < |s.calls| && !s.calls[i].Returned? {
      assert Located(s, s.calls[i]);
      if s.calls[i].Asleep? {
        if s.word == WAITER {
          var r: nat :| SoleRunner(s, r);
          assert Step(s, r).Some?;
        } else {
          var w: nat :| w < |s.calls| && s.calls[w].Wake?;
          assert Step(s, w).Some?;
        }
      } else {
        assert Step(s, i).Some?;
      }
    }
  }

  const LONGEST: nat := 7

  /** How many steps a call can still take on its own while the word stays as it is. */
  function Left(pc: Pc, word: nat): (left: nat)
    ensures left <= LONGEST
  {
    match pc
    case FastLoad => 7
    case DebugLoad => 6
    case FastExchange => 5
    case WaitLoad => 3
    case WaitMatch(v) => if v == word then 2 else 5
    case Delay(v) => if v == word then 1 else 4
    case Asleep(v) => if v == word then 0 else 4
    case Invoke => 3
    case InFn => 2
    case Finish => 1
    case Wake => 1
    case Returned => 0
    case Fatal => 0
  }

  function TotalLeft(calls: seq<Pc>, word: nat): (total: nat)
    ensures total <= LONGEST * |calls|
  {
    if calls == [] then 0 else Left(calls[0], word) + TotalLeft(calls[1..], word)
  }

  /** A bound on the steps still to come, whatever the schedule. */
  function Remaining(s: State): nat {
    (3 - Rank(s.word)) * (LONGEST * |s.calls| + 1) + TotalLeft(s.calls, s.word)
  }

  lemma {:induction false} TotalUpdate(calls: seq<Pc>, t: nat, pc: Pc, word: nat)
    requires t < |calls|
    ensures TotalLeft(calls[t := pc], word) == TotalLeft(calls, word) - Left(calls[t], word) + Left(pc, word)
  {
    if t == 0 {
      assert calls[0 := pc][1..] == calls[1..];
    } else {
      assert calls[t := pc][1..] == calls[1..][t - 1 := pc];
      TotalUpdate(calls[1..], t - 1, pc, word);
    }
  }

  lemma {:induction false} TotalAwakened(calls: seq<Pc>)
    requires forall i :: 0 <= i < |calls| && calls[i].Asleep? ==> calls[i].seen == WAITER
    ensures TotalLeft(Awakened(calls), DONE) <= TotalLeft(calls, DONE)
  {
    if calls != [] {
      assert Awakened(calls)[1..] == Awakened(calls[1..]);
      TotalAwakened(calls[1..]);
    }
  }

  /** The step that moves the word pays for everything it gives other calls to do. */
  lemma {:induction false} WordMovePays(s: State, s': State)
    requires |s'.calls| == |s.calls| && Rank(s.word) < Rank(s'.word)
    ensures Remaining(s') < Remaining(s)
  {
    var k := LONGEST * |s.calls| + 1;
    assert TotalLeft(s'.calls, s'.word) < k;
    assert (3 - Rank(s'.word)) * k + k <= (3 - Rank(s.word)) * k by {
      assert 3 - Rank(s'.word) + 1 <= 3 - Rank(s.word);
      MultiplyMonotone(3 - Rank(s'.word) + 1, 3 - Rank(s.word), k);
    }
  }

  lemma MultiplyMonotone(a: nat, b: nat, k: nat)
    requires a <= b
    ensures a * k <= b * k
  {
  }

  lemma {:induction false} SleepersWait(s: State)
    requires Invariant(s)
    ensures forall i :: 0 <= i < |s.calls| && s.calls[i].Asleep? ==> s.calls[i].seen == WAITER
  {
    forall i | 0 <= i < |s.calls| && s.calls[i].Asleep? ensures s.calls[i].seen == WAITER {
      assert Located(s, s.calls[i]);
    }
  }

  lemma {:induction false} WakePays(s: State, t: nat)
    requires Invariant(s) && t < |s.calls| && s.calls[t].Wake?
    ensures TotalLeft(Step(s, t).value.calls, DONE) < TotalLeft(s.calls, DONE)
  {
    SleepersWait(s);
    hide Invariant, TotalLeft;
    TotalUpdate(s.calls, t, Returned, DONE);
    TotalAwakened(s.calls[t := Returned]);
  }

  /** A step that leaves the word alone leaves its call fewer steps to take. */
  lemma {:induction false} QuietStep(s: State, t: nat)
    requires t < |s.calls| && Step(s, t).Some? && Located(s, s.calls[t])
    requires Step(s, t).value.word == s.word && !s.calls[t].Wake? && !s.calls[t].Finish?
    ensures Left(Step(s, t).value.calls[t], s.word) < Left(s.calls[t], s.word)
    ensures Step(s, t).value.calls == s.calls[t := Step(s, t).value.calls[t]]
  {
    if s.calls[t].WaitMatch? {
      RowsFor(s.calls[t].seen);
    }
  }

  lemma {:induction false} QuietPays(s: State, t: nat)
    requires Invariant(s) && t < |s.calls| && Step(s, t).Some?
    requires Step(s, t).value.word == s.word && !s.calls[t].Wake?
    ensures TotalLeft(Step(s, t).value.calls, s.word) < TotalLeft(s.calls, s.word)
  {
    assert Located(s, s.calls[t]);
    if s.calls[t].Finish? {
      RunnerOwns(s, t);
    }
    hide Invariant, TotalLeft;
    QuietStep(s, t);
    TotalUpdate(s.calls, t, Step(s, t).value.calls[t], s.word);
  }

  lemma {:induction false} SameNumber(s: State, t: nat)
    requires t < |s.calls| && Step(s, t).Some?
    ensures |Step(s, t).value.calls| == |s.calls|
  {
    hide FindRow;
  }

  lemma WakerAfterDone(s: State, t: nat)
    requires Invariant(s) && t < |s.calls| && s.calls[t].Wake?
    ensures s.word == DONE
  {
    assert Located(s, s.calls[t]);
  }

  /** Every own step of every call uses up some of the bound: nothing spins for ever. */
  lemma {:induction false} StepPays(s: State, t: nat)
    requires Invariant(s) && t < |s.calls| && Step(s, t).Some?
    ensures |Step(s, t).value.calls| == |s.calls|
    ensures Remaining(Step(s, t).value) < Remaining(s)
  {
    hide Remaining, TotalLeft, Step, Invariant;
    var s' := Step(s, t).value;
    StepInvariant(s, t);
    SameNumber(s, t);
    if s'.word != s.word {
      WordMovePays(s, s');
    } else {
      if s.calls[t].Wake? {
        WakerAfterDone(s, t);
        WakePays(s, t);
      } else {
        QuietPays(s, t);
      }
      SameWordPays(s, s');
    }
  }

  lemma SameWordPays(s: State, s': State)
    requires s'.word == s.word && |s'.calls| == |s.calls|
    requires TotalLeft(s'.calls, s.word) < TotalLeft(s.calls, s.word)
    ensures Remaining(s') < Remaining(s)
  {
  }

  lemma {:induction false} SpuriousCosts(s: State, t: nat)
    requires Invariant(s) && t < |s.calls| && s.calls[t].Asleep?
    ensures Remaining(Move(s, t, WaitLoad)) <= Remaining(s) + 3
  {
    assert Located(s, s.calls[t]);
    TotalUpdate(s.calls, t, WaitLoad, s.word);
  }

  function SpuriousTurns(schedule: seq<Turn>): nat {
    if schedule == [] then 0
    else SpuriousTurns(schedule[..|schedule| - 1]) + if schedule[|schedule| - 1].Spurious? then 1 else 0
  }

  lemma {:induction false} TakePays(s: State, turn: Turn)
    requires Invariant(s) && Take(s, turn).Some?
    ensures |Take(s, turn).value.calls| == |s.calls|
    ensures Remaining(Take(s, turn).value) + 1 <= Remaining(s) + if turn.Spurious? then 4 else 0
  {
    match turn
    case Own(t) => StepPays(s, t);
    case Spurious(t) => SpuriousCosts(s, t);
  }

  lemma {:induction false} TotalAtStart(n: nat, ndebug: bool)
    ensures TotalLeft(Start(n, ndebug).calls, INIT) == 7 * n
  {
    if n > 0 {
      assert Start(n, ndebug).calls[1..] == Start(n - 1, ndebug).calls;
      TotalAtStart(n - 1, ndebug);
    }
  }

  /** No schedule is longer than its spurious wake-ups and the number of calls allow. */
  lemma {:induction false} SchedulesEnd(n: nat, ndebug: bool, schedule: seq<Turn>)
    requires Run(Start(n, ndebug), schedule).Some?
    ensures |Run(Start(n, ndebug), schedule).value.calls| == n
    ensures |schedule| + Remaining(Run(Start(n, ndebug), schedule).value) <= 28 * n + 3 + 4 * SpuriousTurns(schedule)
  {
    if schedule == [] {
      TotalAtStart(n, ndebug);
    } else {
      hide Remaining, Invariant, Take;
      var before := schedule[..|schedule| - 1];
      SchedulesEnd(n, ndebug, before);
      RunInvariant(n, ndebug, before);
      TakePays(Run(Start(n, ndebug), before).value, schedule[|schedule| - 1]);
    }
  }

  /**
   * Total correctness: a schedule that cannot be continued without a spurious wake-up has returned
   * every call, and if there was any call, fn was run exactly once.
   */
  lemma {:induction false} EveryCallReturns(n: nat, ndebug: bool, schedule: seq<Turn>, s: State)
    requires Run(Start(n, ndebug), schedule) == Some(s)
    requires forall t: nat :: Take(s, Own(t)).None?
    ensures |schedule| <= 28 * n + 3 + 4 * SpuriousTurns(schedule)
    ensures Finished(s)
    ensures n > 0 ==> s.starts == 1 && s.finishes == 1 && s.word == DONE
  {
    SchedulesEnd(n, ndebug, schedule);
    RunInvariant(n, ndebug, schedule);
    NoDeadlock(s);
    assert forall t: nat :: t < |s.calls| ==> Take(s, Own(t)) == Step(s, t);
    if n > 0 {
      assert Located(s, s.calls[0]);
    }
  }

  /** Once the word is DONE a call needs at most seven more steps of its own, and none undoes them. */
  lemma {:induction false} OwnStepsAfterDone(s: State, turn: Turn, t: nat)
    requires Invariant(s) && s.word == DONE && t < |s.calls|
    requires Take(s, turn).Some?
    ensures Take(s, turn).value.word == DONE && |Take(s, turn).value.calls| == |s.calls|
    ensures Left(Take(s, turn).value.calls[t], DONE) <= Left(s.calls[t], DONE) <= 7
    ensures turn == Own(t) ==> Left(Take(s, turn).value.calls[t], DONE) < Left(s.calls[t], DONE)
    ensures Left(s.calls[t], DONE) == 0 <==> s.calls[t].Returned?
  {
    TakeInvariant(s, turn);
    assert Located(s, s.calls[t]);
    assert Located(s, s.calls[turn.t]);
    if s.calls[turn.t].WaitMatch? {
      RowsFor(s.calls[turn.t].seen);
    }
  }

  // ----- A call alone, and a call that comes late

  /** The word only ever holds the four values of the protocol, and builds without debug checks make none. */
  lemma {:induction false} WordsSeen(n: nat, ndebug: bool, schedule: seq<Turn>)
    requires Run(Start(n, ndebug), schedule).Some?
    ensures var s := Run(Start(n, ndebug), schedule).value;
            && s.ndebug == ndebug
            && s.word in {0, 0x65C2_937B, 0x05A3_08D2, 221}
            && (ndebug ==> forall i :: 0 <= i < |s.calls| ==> !s.calls[i].DebugLoad?)
  {
    hide Take, Ownership, Located;
    RunInvariant(n, ndebug, schedule);
    if schedule != [] {
      var before := schedule[..|schedule| - 1];
      WordsSeen(n, ndebug, before);
      NoDebugStep(Run(Start(n, ndebug), before).value, schedule[|schedule| - 1]);
    }
  }

  lemma {:induction false} NoDebugStep(s: State, turn: Turn)
    requires Take(s, turn).Some?
    ensures Take(s, turn).value.ndebug == s.ndebug
    ensures s.ndebug && (forall i :: 0 <= i < |s.calls| ==> !s.calls[i].DebugLoad?) ==>
              forall i :: 0 <= i < |Take(s, turn).value.calls| ==> !Take(s, turn).value.calls[i].DebugLoad?
  {
    hide FindRow, TRANSITIONS;
  }

  /** The turn of the wait loop after reading v, value by value; INIT is never read in a run, and would claim fn. */
  lemma {:induction false} WaitTurns(s: State, t: nat, v: nat)
    requires t < |s.calls| && s.calls[t] == WaitMatch(v)
    ensures Step(s, t) == Some(
              if v == 0 then
                if s.word == 0 then Move(s.(word := 0x65C2_937B), t, Invoke) else Move(s, t, WaitLoad)
              else if v == 0x65C2_937B then
                Move(if s.word == v then s.(word := 0x05A3_08D2) else s, t, WaitLoad)
              else if v == 221 then Move(s, t, Returned)
              else Move(s, t, Delay(v)))
  {
    RowsFor(v);
  }

  /** Spurious turns are counted one by one. */
  lemma {:induction false} SpuriousCounted(schedule: seq<Turn>)
    ensures SpuriousTurns(schedule) == |set i | 0 <= i < |schedule| && schedule[i].Spurious?|
  {
    var spurious := set i | 0 <= i < |schedule| && schedule[i].Spurious?;
    if schedule == [] {
      assert spurious == {};
    } else {
      var last := |schedule| - 1;
      var front := schedule[..last];
      SpuriousCounted(front);
      var earlier := set i | 0 <= i < |front| && front[i].Spurious?;
      assert spurious == earlier + if schedule[last].Spurious? then {last} else {};
    }
  }

  lemma {:induction false} TakeLast(s: State, schedule: seq<Turn>, turn: Turn)
    requires Run(s, schedule).Some?
    ensures Run(s, schedule + [turn]) == Take(Run(s, schedule).value, turn)
  {
    assert (schedule + [turn])[..|schedule|] == schedule;
    hide Take;
  }

  lemma Replaced(a: Pc, b: Pc)
    ensures [a][0 := b] == [b]
  {
  }

  lemma {:induction false} StepsAlone(ndebug: bool)
    ensures Step(State(ndebug, 0, [FastLoad], 0, 0), 0)
         == Some(State(ndebug, 0, [if ndebug then FastExchange else DebugLoad], 0, 0))
    ensures Step(State(ndebug, 0, [DebugLoad], 0, 0), 0) == Some(State(ndebug, 0, [FastExchange], 0, 0))
    ensures Step(State(ndebug, 0, [FastExchange], 0, 0), 0) == Some(State(ndebug, 0x65C2_937B, [Invoke], 0, 0))
    ensures Step(State(ndebug, 0x65C2_937B, [Invoke], 0, 0), 0) == Some(State(ndebug, 0x65C2_937B, [InFn], 1, 0))
    ensures Step(State(ndebug, 0x65C2_937B, [InFn], 1, 0), 0) == Some(State(ndebug, 0x65C2_937B, [Finish], 1, 1))
    ensures Step(State(ndebug, 0x65C2_937B, [Finish], 1, 1), 0) == Some(State(ndebug, 221, [Returned], 1, 1))
  {
    Replaced(FastLoad, FastExchange);
    Replaced(FastLoad, DebugLoad);
    Replaced(DebugLoad, FastExchange);
    Replaced(FastExchange, Invoke);
    Replaced(Invoke, InFn);
    Replaced(InFn, Finish);
    Replaced(Finish, Returned);
  }

  /** The schedule of k turns of the only call. */
  function Turns(k: nat): seq<Turn> {
    if k == 0 then [] else Turns(k - 1) + [Own(0)]
  }

  lemma {:induction false} RunAlone(s: State, k: nat, before: State, after: State)
    requires Run(s, Turns(k)) == Some(before) && |before.calls| == 1 && Step(before, 0) == Some(after)
    ensures Run(s, Turns(k + 1)) == Some(after)
  {
    TakeLast(s, Turns(k), Own(0));
    hide Step, Run;
  }

  /** A call that nobody competes with exchanges, runs fn and exchanges again: it never waits and wakes nobody. */
  lemma {:induction false} LoneCall(ndebug: bool)
    ensures Run(Start(1, ndebug), Turns(if ndebug then 5 else 6)) == Some(State(ndebug, 221, [Returned], 1, 1))
  {
    var s := Start(1, ndebug);
    assert s == State(ndebug, 0, [FastLoad], 0, 0) && Run(s, Turns(0)) == Some(s);
    hide Run, Step, Turns;
    StepsAlone(ndebug);
    var k := if ndebug then 1 else 2;
    RunAlone(s, 0, s, State(ndebug, 0, [if ndebug then FastExchange else DebugLoad], 0, 0));
    if !ndebug {
      RunAlone(s, 1, State(ndebug, 0, [DebugLoad], 0, 0), State(ndebug, 0, [FastExchange], 0, 0));
    }
    RunAlone(s, k, State(ndebug, 0, [FastExchange], 0, 0), State(ndebug, 0x65C2_937B, [Invoke], 0, 0));
    RunAlone(s, k + 1, State(ndebug, 0x65C2_937B, [Invoke], 0, 0), State(ndebug, 0x65C2_937B, [InFn], 1, 0));
    RunAlone(s, k + 2, State(ndebug, 0x65C2_937B, [InFn], 1, 0), State(ndebug, 0x65C2_937B, [Finish], 1, 1));
    RunAlone(s, k + 3, State(ndebug, 0x65C2_937B, [Finish], 1, 1), State(ndebug, 221, [Returned], 1, 1));
  }

  /** A call that comes after fn has finished takes one step and leaves everything else as it is. */
  lemma LateCallReturns(s: State, t: nat)
    requires s.word == 221 && t < |s.calls| && s.calls[t].FastLoad?
    ensures Take(s, Own(t)) == Some(s.(calls := s.calls[t := Returned]))
  {
  }
}

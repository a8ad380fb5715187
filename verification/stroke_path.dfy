/**
 The helper that turns a stream of input points into a path.

 The stroke modeler behind it is foreign code: each call to it is given here by its outcome, either
 the samples it returns or None when it throws. A call to the helper that throws keeps whatever it
 had already done.
 */
module StrokePath {
  import opened Options

  // A smoothed point, and the path elements drawn through such points.
  datatype Sample = Sample(x: real, y: real)
  datatype Element = Move(to: Sample) | Line(to: Sample)

  type Outcome = Option<seq<Sample>>

  // The public calls, with the outcomes of the modeler calls each would make.
  datatype Call =
    | Start(resets: bool, down: Outcome)
    | Append(move: Outcome)
    | End(point: Option<Outcome>, up: Outcome)
    | ResetPath

  datatype State = State(started: bool, ended: bool, hasPathMove: bool, path: seq<Element>)

  const FRESH := State(false, false, false, [])

  function Lines(samples: seq<Sample>): (r: seq<Element>)
    ensures |r| == |samples|
  {
    seq(|samples|, i requires 0 <= i < |samples| => Line(samples[i]))
  }

  /** One stroke: a move to the first sample, lines through all later ones. */
  function Drawn(samples: seq<Sample>): seq<Element> {
    if samples == [] then [] else [Move(samples[0])] + Lines(samples[1..])
  }

  function Extended(s: State, samples: seq<Sample>): State {
    s.(path := s.path + if s.hasPathMove then Lines(samples) else Drawn(samples),
       hasPathMove := s.hasPathMove || samples != [])
  }

  // The state after a call, and whether the call threw.
  datatype Effect = Effect(state: State, threw: bool)

  function Update(s: State, outcome: Outcome): Effect {
    match outcome
    case None => Effect(s, true)
    case Some(samples) => Effect(Extended(s, samples), false)
  }

  function Step(s: State, call: Call): Effect {
    match call
    case ResetPath => Effect(FRESH, false)
    case Start(resets, down) =>
      if s.ended || s.started || !resets then Effect(s, true)
      else Update(s.(started := true, hasPathMove := false), down)
    case Append(move) =>
      if !s.started || s.ended then Effect(s, true) else Update(s, move)
    case End(point, up) =>
      if !s.started || s.ended then Effect(s, true)
      else
        var moved := if point.Some? then Update(s, point.value) else Effect(s, false);
        if moved.threw then moved
        else
          var lifted := Update(moved.state, up);
          if lifted.threw then lifted else Effect(lifted.state.(ended := true), false)
  }

  class InkStrokePathSmoother {
    var started: bool
    var ended: bool
    var hasPathMove: bool
    var path: seq<Element>

    ghost function Now(): State
      reads this
    {
      State(started, ended, hasPathMove, path)
    }

    constructor ()
      ensures Now() == FRESH
    {
      started, ended, hasPathMove, path := false, false, false, [];
    }

    method ResetPath()
      modifies this
      ensures Now() == FRESH
    {
      path := [];
      started := false;
      ended := false;
      hasPathMove := false;
    }

    method Start(resets: bool, down: Outcome) returns (threw: bool)
      modifies this
      ensures Effect(Now(), threw) == Step(old(Now()), Call.Start(resets, down))
    {
      if ended || started || !resets {
        return true;
      }
      started := true;
      hasPathMove := false;
      if down.None? {
        return true;
      }
      AppendResultsToPath(down.value);
      threw := false;
    }

    method Append(move: Outcome) returns (threw: bool)
      modifies this
      ensures Effect(Now(), threw) == Step(old(Now()), Call.Append(move))
    {
      if !started || ended || move.None? {
        return true;
      }
      AppendResultsToPath(move.value);
      threw := false;
    }

    /** The returned path is the one drawn when the stroke ends. */
    method End(point: Option<Outcome>, up: Outcome) returns (threw: bool, result: seq<Element>)
      modifies this
      ensures Effect(Now(), threw) == Step(old(Now()), Call.End(point, up))
      ensures !threw ==> result == path
    {
      result := [];
      if !started || ended {
        return true, result;
      }
      if point.Some? {
        if point.value.None? {
          return true, result;
        }
        AppendResultsToPath(point.value.value);
      }
      if up.None? {
        return true, result;
      }
      AppendResultsToPath(up.value);
      ended := true;
      return false, path;
    }

    method AppendResultsToPath(results: seq<Sample>)
      modifies `path, `hasPathMove
      ensures Now() == Extended(old(Now()), results)
    {
      hide Extended, Lines, Drawn;
      ghost var before := Now();
      ExtendedByNothing(before);
      if results == [] {
        return;
      }
      for idx := 0 to |results|
        invariant Now() == Extended(before, results[..idx])
      {
        ghost var was := Now();
        if !hasPathMove {
          path := path + [Move(results[idx])];
          hasPathMove := true;
        } else {
          path := path + [Line(results[idx])];
        }
        OneMore(was, results[idx]);
        ExtendedTwice(before, results[..idx], [results[idx]]);
        assert results[..idx] + [results[idx]] == results[..idx + 1];
      }
      assert results[..|results|] == results;
    }
  }

  lemma {:induction false} ExtendedByNothing(s: State)
    ensures Extended(s, []) == s
  {
    assert s.path + [] == s.path;
  }

  lemma {:induction false} OneMore(s: State, p: Sample)
    ensures Extended(s, [p]) == State(s.started, s.ended, true, s.path + [if s.hasPathMove then Line(p) else Move(p)])
  {
    assert Lines([p]) == [Line(p)];
    assert Drawn([p]) == [Move(p)];
  }

  lemma LinesJoin(a: seq<Sample>, b: seq<Sample>)
    ensures Lines(a + b) == Lines(a) + Lines(b)
  {
  }

  /** A stroke goes on where it left off. */
  lemma {:induction false} DrawnJoin(a: seq<Sample>, b: seq<Sample>)
    requires a != []
    ensures Drawn(a + b) == Drawn(a) + Lines(b)
  {
    hide Lines;
    assert (a + b)[1..] == a[1..] + b && (a + b)[0] == a[0];
    LinesJoin(a[1..], b);
    Associates([Move(a[0])], Lines(a[1..]), Lines(b));
  }

  /** Two batches draw what their concatenation draws. */
  lemma {:induction false} ExtendedTwice(s: State, a: seq<Sample>, b: seq<Sample>)
    ensures Extended(Extended(s, a), b) == Extended(s, a + b)
  {
    hide Lines, Drawn;
    LinesJoin(a, b);
    if a == [] {
      ExtendedByNothing(s);
      assert a + b == b;
    } else {
      DrawnJoin(a, b);
      Associates(s.path, if s.hasPathMove then Lines(a) else Drawn(a), Lines(b));
    }
  }

  lemma Associates(a: seq<Element>, b: seq<Element>, c: seq<Element>)
    ensures (a + b) + c == a + (b + c)
  {
  }

  // ----- Whole runs

  function Run(calls: seq<Call>): State {
    if calls == [] then FRESH else Step(Run(calls[..|calls| - 1]), calls[|calls| - 1]).state
  }

  // Where a helper is in its life, told from the calls and their outcomes alone.
  datatype Phase = Idle | Drawing | Done

  function PhaseAfter(calls: seq<Call>): Phase {
    if calls == [] then Idle
    else
      var before := PhaseAfter(calls[..|calls| - 1]);
      match calls[|calls| - 1]
      case ResetPath => Idle
      case Start(resets, _) => if before.Idle? && resets then Drawing else before
      case Append(_) => before
      case End(point, up) =>
        if before.Drawing? && (point.Some? ==> point.value.Some?) && up.Some? then Done else before
  }

  function Returned(outcome: Outcome): seq<Sample> {
    if outcome.Some? then outcome.value else []
  }

  /** The samples a call brings in from the modeler when the helper is in a given phase. */
  function Batch(phase: Phase, call: Call): seq<Sample> {
    match call
    case ResetPath => []
    case Start(resets, down) => if phase.Idle? && resets then Returned(down) else []
    case Append(move) => if phase.Drawing? then Returned(move) else []
    case End(point, up) =>
      if !phase.Drawing? then []
      else if point.None? then Returned(up)
      else if point.value.None? then []
      else point.value.value + Returned(up)
  }

  /** Every sample the modeler returned since the last reset, in order. */
  function Samples(calls: seq<Call>): seq<Sample> {
    if calls == [] || calls[|calls| - 1].ResetPath? then []
    else
      var earlier := calls[..|calls| - 1];
      Samples(earlier) + Batch(PhaseAfter(earlier), calls[|calls| - 1])
  }

  ghost predicate Draws(s: State, phase: Phase, samples: seq<Sample>) {
    && s.path == Drawn(samples)
    && (s.hasPathMove <==> samples != [])
    && (s.started <==> !phase.Idle?)
    && (s.ended <==> phase.Done?)
    && (phase.Idle? ==> samples == [])
  }

  lemma {:induction false} UpdateDraws(s: State, phase: Phase, samples: seq<Sample>, outcome: Outcome)
    requires Draws(s, phase, samples) && !phase.Idle?
    ensures Draws(Update(s, outcome).state, phase, samples + Returned(outcome))
    ensures Update(s, outcome).threw <==> outcome.None?
  {
    assert Drawn([]) == [];
    hide Drawn, Lines;
    match outcome
    case None =>
      assert samples + [] == samples;
    case Some(more) =>
      if samples == [] {
        assert samples + more == more && [] + Drawn(more) == Drawn(more);
      } else {
        DrawnJoin(samples, more);
      }
  }

  /** One call, whether it throws or not, draws exactly the batch it brought in. */
  lemma {:induction false} StepDraws(s: State, phase: Phase, samples: seq<Sample>, call: Call)
    requires Draws(s, phase, samples)
    ensures call.Start? && phase.Idle? && call.resets ==> Draws(Step(s, call).state, Drawing, samples + Batch(phase, call))
    ensures call.Append? ==> Draws(Step(s, call).state, phase, samples + Batch(phase, call))
    ensures call.End? && phase.Drawing? ==>
              Draws(Step(s, call).state,
                    if (call.point.Some? ==> call.point.value.Some?) && call.up.Some? then Done else Drawing,
                    samples + Batch(phase, call))
    ensures call.Start? && !(phase.Idle? && call.resets) ==> Step(s, call).state == s && Batch(phase, call) == []
    ensures call.End? && !phase.Drawing? ==> Step(s, call).state == s && Batch(phase, call) == []
  {
    hide Drawn, Extended;
    match call
    case ResetPath =>
    case Start(resets, down) =>
      if phase.Idle? && resets {
        UpdateDraws(s.(started := true, hasPathMove := false), Drawing, samples, down);
      }
    case Append(move) =>
      if phase.Drawing? {
        UpdateDraws(s, phase, samples, move);
      } else {
        assert samples + [] == samples;
      }
    case End(point, up) =>
      if phase.Drawing? {
        if point.Some? {
          UpdateDraws(s, phase, samples, point.value);
          if point.value.Some? {
            UpdateDraws(Update(s, point.value).state, phase, samples + point.value.value, up);
            assert samples + point.value.value + Returned(up) == samples + (point.value.value + Returned(up));
          }
        } else {
          UpdateDraws(s, phase, samples, up);
        }
      }
  }

  /**
   * After any run of calls, including ones that threw part-way, the path is one stroke through every
   * sample the modeler returned since the last reset: a move first and only lines after.
   */
  lemma {:induction false} PathIsWhatWasSampled(calls: seq<Call>)
    ensures Draws(Run(calls), PhaseAfter(calls), Samples(calls))
    ensures |Run(calls).path| == |Samples(calls)|
    ensures forall k :: 0 <= k < |Samples(calls)| ==>
              Run(calls).path[k] == if k == 0 then Move(Samples(calls)[0]) else Line(Samples(calls)[k])
  {
    DrawnShape(Samples(calls));
    if calls != [] {
      var earlier := calls[..|calls| - 1];
      PathIsWhatWasSampled(earlier);
      assert Step(Run(earlier), ResetPath).state == FRESH && Drawn([]) == [];
      hide Drawn, Step;
      StepDraws(Run(earlier), PhaseAfter(earlier), Samples(earlier), calls[|calls| - 1]);
      assert Samples(earlier) + [] == Samples(earlier);
    }
  }

  lemma {:induction false} DrawnShape(samples: seq<Sample>)
    ensures |Drawn(samples)| == |samples|
    ensures forall k :: 0 <= k < |samples| ==> Drawn(samples)[k] == if k == 0 then Move(samples[0]) else Line(samples[k])
  {
    forall k: nat | k < |samples|
      ensures Drawn(samples)[k] == if k == 0 then Move(samples[0]) else Line(samples[k])
    {
      if k > 0 {
        assert Drawn(samples)[k] == Lines(samples[1..])[k - 1];
      }
    }
  }

  /** When a call throws, told after any run from the phase the helper is in and the outcomes of the call. */
  lemma {:induction false} ThrowsExactly(calls: seq<Call>, call: Call)
    ensures var phase := PhaseAfter(calls);
            var threw := Step(Run(calls), call).threw;
            match call
            case ResetPath => !threw
            case Start(resets, down) => threw <==> phase != Idle || !resets || down.None?
            case Append(move) => threw <==> phase != Drawing || move.None?
            case End(point, up) => threw <==> phase != Drawing || (point.Some? && point.value.None?) || up.None?
  {
    PathIsWhatWasSampled(calls);
    hide Drawn, Extended, Samples, Run;
  }

  /** A successful end finishes the stroke through every sample since the last reset, its own included. */
  lemma {:induction false} EndFinishes(calls: seq<Call>, point: Option<Outcome>, up: Outcome)
    requires !Step(Run(calls), End(point, up)).threw
    ensures Step(Run(calls), End(point, up)).state.path == Drawn(Samples(calls + [End(point, up)]))
    ensures PhaseAfter(calls + [End(point, up)]) == Done
  {
    var all := calls + [End(point, up)];
    assert all[..|all| - 1] == calls;
    PathIsWhatWasSampled(all);
    ThrowsExactly(calls, End(point, up));
    hide Drawn, Step, Samples;
  }

  /** Once a stroke has ended, every call but a reset throws and changes nothing. */
  lemma {:induction false} EndedIsFinal(calls: seq<Call>, more: seq<Call>)
    requires PhaseAfter(calls) == Done && forall i :: 0 <= i < |more| ==> !more[i].ResetPath?
    ensures Run(calls + more) == Run(calls) && PhaseAfter(calls + more) == Done
    ensures forall call: Call :: !call.ResetPath? ==> Step(Run(calls + more), call) == Effect(Run(calls), true)
    decreases |more|
  {
    PathIsWhatWasSampled(calls);
    if more == [] {
      assert calls + more == calls;
    } else {
      var fewer := more[..|more| - 1];
      EndedIsFinal(calls, fewer);
      assert (calls + more)[..|calls + more| - 1] == calls + fewer;
    }
  }

  /** A start that throws after the modeler was reset still counts: no other start succeeds before a reset. */
  lemma {:induction false} StartsOnce(calls: seq<Call>, more: seq<Call>, resets: bool, down: Outcome)
    requires PhaseAfter(calls) != Idle && forall i :: 0 <= i < |more| ==> !more[i].ResetPath?
    ensures PhaseAfter(calls + more) != Idle
    ensures Step(Run(calls + more), Start(resets, down)) == Effect(Run(calls + more), true)
    decreases |more|
  {
    PathIsWhatWasSampled(calls + more);
    if more == [] {
      assert calls + more == calls;
    } else {
      StartsOnce(calls, more[..|more| - 1], resets, down);
      assert (calls + more)[..|calls + more| - 1] == calls + more[..|more| - 1];
    }
  }
}

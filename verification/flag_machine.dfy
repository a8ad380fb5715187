/**
 The parser's loop, one iteration at a time, as a machine over a stack of part-read argument lists,
 and the proof that it carries out the expansion: it stops exactly if the expansion is finite, and
 then with the memory that replaying the expansion leaves.
 */
module FlagMachine {
  import opened Options
  import opened Marshalling
  import opened FlagArguments
  import opened FlagExpansion

  // ----- What the loop reads and writes

  // Values of the parser's own flags, and the text last stored in every other flag.
  datatype Values = Values(
    flagfile: seq<string>, fromenv: seq<string>, tryfromenv: seq<string>, undefok: seq<string>,
    others: map<string, string>)

  // Generator flags that were set and not yet handled.
  datatype Pending = Pending(flagfile: bool, fromenv: bool, tryfromenv: bool)

  const NOT_PENDING := Pending(false, false, false)

  datatype Unrecognized = Unrecognized(fromArgv: bool, name: string)

  datatype Memory = Memory(
    values: Values,
    pending: Pending,
    flagfileValue: seq<string>,
    positional: seq<nat>,
    unrecognized: seq<Unrecognized>,
    specified: seq<string>,
    success: bool)

  function Store(v: Values, name: string, text: string): Values {
    if name == FLAGFILE then v.(flagfile := ParseStrings(text))
    else if name == FROMENV then v.(fromenv := ParseStrings(text))
    else if name == TRYFROMENV then v.(tryfromenv := ParseStrings(text))
    else if name == UNDEFOK then v.(undefok := ParseStrings(text))
    else v.(others := v.others[name := text])
  }

  /** The callbacks of the generator flags ignore empty values. */
  function Trigger(p: Pending, name: string, text: string): Pending {
    if ParseStrings(text) == [] then p
    else if name == FLAGFILE then p.(flagfile := true)
    else if name == FROMENV then p.(fromenv := true)
    else if name == TRYFROMENV then p.(tryfromenv := true)
    else p
  }

  /** The effect of an argument itself. */
  function Do(w: World, mem: Memory, e: Event): Memory {
    match e.item
    case Positional => mem.(positional := mem.positional + [e.index])
    case Terminator => mem
    case Usage => mem
    case Unknown(name) => mem.(unrecognized := mem.unrecognized + [Unrecognized(e.fromArgv, name)])
    case Assign(flag, value, deduced, _) =>
      if Accepts(w, flag, value) then
        mem.(values := Store(mem.values, flag.name, value),
             pending := Trigger(mem.pending, flag.name, value),
             specified := mem.specified + [flag.name],
             success := mem.success && deduced)
      else
        mem.(success := mem.success && deduced && flag.retired)
  }

  /** What the pending generators bring in, in the order it is processed: latest generator first. */
  function Loads(w: World, mem: Memory): Loaded {
    Together(
      if mem.pending.tryfromenv then LoadEnv(w, mem.values.tryfromenv, false) else NOTHING,
      Together(
        if mem.pending.fromenv then LoadEnv(w, mem.values.fromenv, true) else NOTHING,
        if mem.pending.flagfile then LoadFiles(w, mem.values.flagfile) else NOTHING))
  }

  /** Flag files named on the command line itself are collected. */
  function LoadMemory(w: World, mem: Memory, fromArgv: bool): Memory {
    mem.(flagfileValue := mem.flagfileValue + if mem.pending.flagfile && fromArgv then mem.values.flagfile else [],
         success := mem.success && Loads(w, mem).ok,
         pending := NOT_PENDING)
  }

  /** The effect of an argument together with the handling of the generator it may be. */
  function Apply(w: World, mem: Memory, e: Event): Memory {
    LoadMemory(w, Do(w, mem, e), e.fromArgv)
  }

  function Replay(w: World, mem: Memory, trace: seq<Event>): Memory {
    if trace == [] then mem else Apply(w, Replay(w, mem, trace[..|trace| - 1]), trace[|trace| - 1])
  }

  // ----- The stack of lists

  datatype ArgsList = ArgsList(args: seq<string>, next: nat)

  predicate ValidStack(stack: seq<ArgsList>) {
    forall i :: 0 <= i < |stack| ==> stack[i].next < |stack[i].args|
  }

  datatype Phase = Looping | Broken | Failed

  datatype Machine = Machine(stack: seq<ArgsList>, mem: Memory, phase: Phase)

  predicate Halted(m: Machine) {
    m.stack == [] || !m.phase.Looping?
  }

  /** Lists pushed so that the first is on top. */
  function Reversed(lists: seq<seq<string>>): seq<ArgsList> {
    if lists == [] then [] else Reversed(lists[1..]) + [ArgsList(lists[0], 0)]
  }

  function LoadPending(w: World, m: Machine): Machine {
    m.(stack := m.stack + Reversed(Loads(w, m.mem).lists), mem := LoadMemory(w, m.mem, |m.stack| == 1))
  }

  /** Process argument i of the top list, which stands on `base`. */
  function AdvanceTo(w: World, mem: Memory, base: seq<ArgsList>, args: seq<string>, i: nat): Machine
    requires i < |args|
  {
    var item := ItemAt(w, args, i);
    var fromArgv := base == [];
    if (item.Positional? || item.Terminator?) && !fromArgv then
      Machine(base + [ArgsList(args, i)], mem, Failed)
    else if item.Terminator? then
      Machine(base + [ArgsList(args, i + 1)], mem, Broken)
    else
      Machine(base + [ArgsList(args, After(item, i) - 1)], Do(w, mem, Event(item, fromArgv, i)), Looping)
  }

  /** One iteration: load what is pending, move on in the top list, and drop it if it is used up. */
  function Step(w: World, m: Machine): Machine
    requires !Halted(m)
  {
    var l := LoadPending(w, m);
    var top := l.stack[|l.stack| - 1];
    var base := l.stack[..|l.stack| - 1];
    if top.next + 1 >= |top.args| then l.(stack := base) else AdvanceTo(w, l.mem, base, top.args, top.next + 1)
  }

  function Runs(w: World, m: Machine, k: nat): Machine
    decreases k
  {
    if k == 0 || Halted(m) then m else Runs(w, Step(w, m), k - 1)
  }

  /** What is left to process: the top of the stack first. */
  function ExpandStack(w: World, depth: nat, stack: seq<ArgsList>): Outcome {
    if stack == [] then Finished([])
    else
      var top := stack[|stack| - 1];
      Then(Expand(w, depth, top.args, top.next + 1, |stack| == 1), ExpandStack(w, depth, stack[..|stack| - 1]))
  }

  // ----- One iteration takes one event off what is left

  lemma {:induction false} NothingPending(w: World, m: Machine)
    requires m.mem.pending == NOT_PENDING
    ensures LoadPending(w, m) == m
  {
    assert m.mem.flagfileValue + [] == m.mem.flagfileValue;
    TogetherNothing(NOTHING);
    assert m.stack + [] == m.stack;
  }

  lemma StackStays(w: World, m: Machine)
    requires m.stack != []
    ensures LoadPending(w, m).stack != []
  {
  }

  lemma {:induction false} TogetherNothing(a: Loaded)
    ensures Together(a, NOTHING) == a && Together(NOTHING, a) == a
  {
    assert a.lists + [] == a.lists && [] + a.lists == a.lists;
  }

  /** With nothing pending before, the lists an event makes pending are those it generates. */
  lemma {:induction false} EventLoads(w: World, mem: Memory, e: Event)
    requires mem.pending == NOT_PENDING
    ensures Loads(w, Do(w, mem, e)) == Generated(w, e.item)
  {
    hide LoadFiles, LoadEnv, ParseStrings, Accepts;
    TogetherNothing(NOTHING);
    TogetherNothing(Generated(w, e.item));
    hide Together;
  }

  /** Pushed lists are processed in their order, then what was on the stack. */
  lemma {:induction false} PushedFirst(w: World, depth: nat, stack: seq<ArgsList>, lists: seq<seq<string>>)
    requires stack != []
    ensures ExpandStack(w, depth, stack + Reversed(lists)) == Then(ExpandAll(w, depth, lists), ExpandStack(w, depth, stack))
  {
    hide Expand, Then;
    if lists == [] {
      assert stack + [] == stack;
      ThenNothing(ExpandStack(w, depth, stack));
    } else {
      var all := stack + Reversed(lists);
      PushedFirst(w, depth, stack, lists[1..]);
      assert all[..|all| - 1] == stack + Reversed(lists[1..]);
      assert all[|all| - 1] == ArgsList(lists[0], 0);
      ThenAssociates(Expand(w, depth, lists[0], 1, false), ExpandAll(w, depth, lists[1..]), ExpandStack(w, depth, stack));
    }
  }

  /** What is left after an iteration, once the generators it made pending are loaded. */
  function Left(w: World, depth: nat, m: Machine): Outcome {
    ExpandStack(w, depth, LoadPending(w, m).stack)
  }

  /** The event an iteration processes, if it processes one. */
  function EventOf(w: World, l: Machine): Option<Event>
    requires l.stack != []
  {
    var top := l.stack[|l.stack| - 1];
    var i := top.next + 1;
    if i >= |top.args| then None else Some(Event(ItemAt(w, top.args, i), |l.stack| == 1, i))
  }

  lemma {:induction false} PopLeaves(w: World, depth: nat, m: Machine)
    requires !Halted(m) && EventOf(w, LoadPending(w, m)) == None
    ensures Left(w, depth, Step(w, m)) == Left(w, depth, m)
    ensures LoadPending(w, Step(w, m)).mem == LoadPending(w, m).mem
    ensures Step(w, m).phase == Looping && |LoadPending(w, Step(w, m)).stack| < |LoadPending(w, m).stack|
  {
    hide Then, Loads, Reversed, ItemAt;
    var l := LoadPending(w, m);
    NothingPending(w, Step(w, m));
    ThenNothing(ExpandStack(w, depth, l.stack[..|l.stack| - 1]));
  }

  lemma {:induction false} EventLeaves(w: World, depth: nat, m: Machine, e: Event)
    requires !Halted(m) && EventOf(w, LoadPending(w, m)) == Some(e)
    requires !Misplaced(e) && !e.item.Terminator? && Left(w, depth, m) != Endless
    ensures !Halted(Step(w, m)) && Left(w, depth, m) == Then(Finished([e]), Left(w, depth, Step(w, m)))
    ensures LoadPending(w, Step(w, m)).mem == Apply(w, LoadPending(w, m).mem, e)
  {
    hide Then, Loads, Reversed, ItemAt, Generated, Expand, Do;
    var l := LoadPending(w, m);
    var top := l.stack[|l.stack| - 1];
    var base := l.stack[..|l.stack| - 1];
    var fromArgv := |l.stack| == 1;
    var s := Step(w, m);
    var lists := Generated(w, e.item).lists;
    EventLoads(w, l.mem, e);
    PushedFirst(w, depth, s.stack, lists);
    assert s.stack[..|s.stack| - 1] == base;
    var following := Expand(w, depth, top.args, After(e.item, e.index), fromArgv);
    NotEndless(Expand(w, depth, top.args, e.index, fromArgv), ExpandStack(w, depth, base));
    ExpandEvent(w, depth, top.args, e.index, fromArgv);
    ThenAssociates(Finished([e]), Then(ExpandAll(w, depth, lists), following), ExpandStack(w, depth, base));
    ThenAssociates(ExpandAll(w, depth, lists), following, ExpandStack(w, depth, base));
  }

  /** Nothing is left after a last event. */
  lemma {:induction false} LastLeft(w: World, depth: nat, l: Machine, e: Event)
    requires l.stack != [] && EventOf(w, l) == Some(e) && (Misplaced(e) || e.item.Terminator?)
    ensures ExpandStack(w, depth, l.stack) == if Misplaced(e) then Aborted([]) else Finished([e])
  {
    hide ItemAt, Generated;
    var top := l.stack[|l.stack| - 1];
    var base := l.stack[..|l.stack| - 1];
    var first := Expand(w, depth, top.args, top.next + 1, |l.stack| == 1);
    assert ExpandStack(w, depth, l.stack) == Then(first, ExpandStack(w, depth, base));
    if !Misplaced(e) {
      assert base == [];
      assert ExpandStack(w, depth, base) == Finished([]);
      assert first == Finished([e]);
      ThenNothing(Finished([e]));
    }
  }

  /** A misplaced argument fails the parse, a terminator ends it. */
  lemma {:induction false} LastEvent(w: World, depth: nat, m: Machine, e: Event)
    requires !Halted(m) && EventOf(w, LoadPending(w, m)) == Some(e) && (Misplaced(e) || e.item.Terminator?)
    requires Left(w, depth, m) != Endless
    ensures Step(w, m).mem == LoadPending(w, m).mem
    ensures Misplaced(e) ==> Left(w, depth, m) == Aborted([]) && Step(w, m).phase == Failed
    ensures !Misplaced(e) ==> Left(w, depth, m) == Finished([e]) && Step(w, m).phase == Broken
    ensures !Misplaced(e) ==> |Step(w, m).stack| == 1 && Step(w, m).stack[0].next == e.index + 1
    ensures !Misplaced(e) ==> Apply(w, LoadPending(w, m).mem, e) == LoadPending(w, m).mem
  {
    hide Loads, Reversed, ItemAt, Generated;
    var l := LoadPending(w, m);
    LastLeft(w, depth, l, e);
    hide ExpandStack;
    NothingPending(w, l);
  }

  /** Where a machine is that has carried out an outcome, starting from a memory. */
  ghost predicate Carried(w: World, mem: Memory, outcome: Outcome, m: Machine) {
    match outcome
    case Endless => false
    case Aborted(trace) => m.phase.Failed? && m.mem == Replay(w, mem, trace)
    case Finished(trace) =>
      && m.mem == Replay(w, mem, trace)
      && if trace != [] && trace[|trace| - 1].item.Terminator? then
           m.phase.Broken? && |m.stack| == 1 && m.stack[0].next == trace[|trace| - 1].index + 1
         else
           m.phase.Looping? && m.stack == []
  }

  lemma {:induction false} ReplayOne(w: World, mem: Memory, done: seq<Event>, e: Event)
    ensures Replay(w, mem, done + [e]) == Apply(w, Replay(w, mem, done), e)
  {
    assert (done + [e])[..|done + [e]| - 1] == done;
  }

  function Size(outcome: Outcome): nat {
    if outcome.Endless? then 0 else |outcome.trace|
  }

  /** The last event so far was no terminator, so the parse goes on. */
  ghost predicate GoesOn(done: seq<Event>) {
    done == [] || !done[|done| - 1].item.Terminator?
  }

  /** The machine with an empty stack has carried out whatever was done. */
  lemma {:induction false} CarriedAtEnd(w: World, depth: nat, m: Machine, mem: Memory, done: seq<Event>)
    requires m.phase.Looping? && m.stack == [] && m.mem.pending == NOT_PENDING
    requires GoesOn(done) && LoadPending(w, m).mem == Replay(w, mem, done)
    ensures Carried(w, mem, Then(Finished(done), Left(w, depth, m)), m)
  {
    hide Replay;
    NothingPending(w, m);
    ThenNothing(Finished(done));
  }

  lemma {:induction false} CarriedAtLast(w: World, depth: nat, m: Machine, mem: Memory, done: seq<Event>, e: Event)
    requires !Halted(m) && EventOf(w, LoadPending(w, m)) == Some(e) && (Misplaced(e) || e.item.Terminator?)
    requires Left(w, depth, m) != Endless && LoadPending(w, m).mem == Replay(w, mem, done)
    ensures Carried(w, mem, Then(Finished(done), Left(w, depth, m)), Step(w, m)) && Halted(Step(w, m))
  {
    hide Replay, Step, LoadPending, EventOf, Left, Apply;
    LastEvent(w, depth, m, e);
    ReplayOne(w, mem, done, e);
    assert done + [] == done;
  }

  /** One event more is done and one less is left. */
  lemma {:induction false} EventMoves(w: World, depth: nat, m: Machine, mem: Memory, done: seq<Event>, e: Event)
    requires !Halted(m) && EventOf(w, LoadPending(w, m)) == Some(e)
    requires !Misplaced(e) && !e.item.Terminator? && Left(w, depth, m) != Endless
    requires LoadPending(w, m).mem == Replay(w, mem, done)
    ensures !Halted(Step(w, m)) && LoadPending(w, Step(w, m)).mem == Replay(w, mem, done + [e])
    ensures Then(Finished(done), Left(w, depth, m)) == Then(Finished(done + [e]), Left(w, depth, Step(w, m)))
    ensures GoesOn(done + [e]) && Left(w, depth, Step(w, m)) != Endless
    ensures Size(Left(w, depth, m)) == Size(Left(w, depth, Step(w, m))) + 1
  {
    hide Replay, Step, LoadPending, EventOf, Left, Apply;
    EventLeaves(w, depth, m, e);
    ReplayOne(w, mem, done, e);
    ThenAssociates(Finished(done), Finished([e]), Left(w, depth, Step(w, m)));
    NotEndless(Finished([e]), Left(w, depth, Step(w, m)));
  }

  lemma {:induction false} PopMoves(w: World, m: Machine)
    requires !Halted(m) && EventOf(w, LoadPending(w, m)) == None
    ensures Step(w, m).mem.pending == NOT_PENDING
  {
    hide Loads, Reversed;
  }

  /** If what is left is finite, the machine stops, having carried out what was done and what was left. */
  lemma {:induction false} RunsFrom(w: World, depth: nat, m: Machine, mem: Memory, done: seq<Event>) returns (k: nat)
    requires m.phase.Looping? && (m.stack == [] ==> m.mem.pending == NOT_PENDING)
    requires Left(w, depth, m) != Endless && GoesOn(done)
    requires LoadPending(w, m).mem == Replay(w, mem, done)
    ensures Halted(Runs(w, m, k)) && Carried(w, mem, Then(Finished(done), Left(w, depth, m)), Runs(w, m, k))
    decreases Size(Left(w, depth, m)), |LoadPending(w, m).stack|
  {
    hide Step, LoadPending, Replay, Carried, EventOf, Left, Then, Size, GoesOn;
    if m.stack == [] {
      CarriedAtEnd(w, depth, m, mem, done);
      return 0;
    }
    StackStays(w, m);
    var event := EventOf(w, LoadPending(w, m));
    if event.None? {
      PopLeaves(w, depth, m);
      PopMoves(w, m);
      k := RunsFrom(w, depth, Step(w, m), mem, done);
      k := k + 1;
    } else {
      var e := event.value;
      if Misplaced(e) || e.item.Terminator? {
        CarriedAtLast(w, depth, m, mem, done, e);
        assert Runs(w, m, 1) == Runs(w, Step(w, m), 0);
        return 1;
      } else {
        EventMoves(w, depth, m, mem, done, e);
        k := RunsFrom(w, depth, Step(w, m), mem, done + [e]);
        k := k + 1;
      }
    }
  }

  // ----- The parser stops only if the expansion is finite

  /** What is left of a stack after an event of its top list. */
  function LeftOf(w: World, depth: nat, stack: seq<ArgsList>, e: Event): Outcome
    requires stack != []
  {
    Then(ExpandAll(w, depth, Generated(w, e.item).lists),
         Then(Expand(w, depth, stack[|stack| - 1].args, After(e.item, e.index), |stack| == 1),
              ExpandStack(w, depth, stack[..|stack| - 1])))
  }

  lemma {:induction false} LeftAfter(w: World, depth: nat, m: Machine, l: Machine, e: Event)
    requires !Halted(m) && l == LoadPending(w, m) && l.stack != [] && EventOf(w, l) == Some(e)
    requires !Misplaced(e) && !e.item.Terminator?
    ensures Left(w, depth, Step(w, m)) == LeftOf(w, depth, l.stack, e)
  {
    hide Then, Loads, Reversed, ItemAt, Generated, Expand, Do, ExpandAll;
    var s := Step(w, m);
    EventLoads(w, l.mem, e);
    PushedFirst(w, depth, s.stack, Generated(w, e.item).lists);
    assert s.stack[..|s.stack| - 1] == l.stack[..|l.stack| - 1];
  }

  /** Lists and the rest after them, at the depth of the argument that brings the lists in. */
  lemma {:induction false} Lifted(w: World, depth: nat, lists: seq<seq<string>>, args: seq<string>, i: nat, fromArgv: bool)
    requires Then(ExpandAll(w, depth, lists), Expand(w, depth, args, i, fromArgv)) != Endless
    ensures Then(Nested(w, depth + 1, lists), Expand(w, depth + 1, args, i, fromArgv))
         == Then(ExpandAll(w, depth, lists), Expand(w, depth, args, i, fromArgv))
  {
    hide Then, Expand, ExpandAll, Nested;
    var all, rest := ExpandAll(w, depth, lists), Expand(w, depth, args, i, fromArgv);
    NotEndless(all, rest);
    NestedUnfolds(w, depth + 1, lists);
    NestedUnfolds(w, depth, lists);
    if all.Finished? {
      Deeper(w, depth, depth + 1, args, i, fromArgv);
    } else {
      ThenAborted(all, rest);
      ThenAborted(all, Expand(w, depth + 1, args, i, fromArgv));
    }
  }

  lemma {:induction false} FiniteStack(w: World, depth: nat, l: Machine, e: Event)
    requires l.stack != [] && EventOf(w, l) == Some(e) && !Misplaced(e) && !e.item.Terminator?
    requires LeftOf(w, depth, l.stack, e) != Endless
    ensures ExpandStack(w, depth + 1, l.stack) != Endless
  {
    hide Then, ItemAt, Generated, Expand, ExpandAll, Nested;
    var top := l.stack[|l.stack| - 1];
    var base := l.stack[..|l.stack| - 1];
    var fromArgv := |l.stack| == 1;
    var lists := Generated(w, e.item).lists;
    var following := Expand(w, depth, top.args, After(e.item, e.index), fromArgv);
    ThenAssociates(ExpandAll(w, depth, lists), following, ExpandStack(w, depth, base));
    var whole := Then(ExpandAll(w, depth, lists), following);
    NotEndless(whole, ExpandStack(w, depth, base));
    Lifted(w, depth, lists, top.args, After(e.item, e.index), fromArgv);
    DeeperStack(w, depth, depth + 1, base, whole);
    Unfold(w, depth + 1, top.args, e.index, fromArgv);
    ThenAssociates(Finished([e]), whole, ExpandStack(w, depth + 1, base));
    EventFirst(e, Then(whole, ExpandStack(w, depth + 1, base)));
  }

  lemma {:induction false} EventGoesOn(w: World, m: Machine, e: Event)
    requires !Halted(m) && EventOf(w, LoadPending(w, m)) == Some(e)
    requires !Misplaced(e) && !e.item.Terminator?
    ensures !Halted(Step(w, m))
  {
    hide Loads, Reversed, ItemAt, Do;
  }

  /** An expansion that is finite after an event is finite before it. */
  lemma {:induction false} FiniteBefore(w: World, depth: nat, m: Machine, e: Event)
    requires !Halted(m) && LoadPending(w, m).stack != [] && EventOf(w, LoadPending(w, m)) == Some(e)
    requires !Misplaced(e) && !e.item.Terminator? && Left(w, depth, Step(w, m)) != Endless
    ensures Left(w, depth + 1, m) != Endless
  {
    hide Step, LoadPending, EventOf, LeftOf, ExpandStack, Misplaced;
    LeftAfter(w, depth, m, LoadPending(w, m), e);
    FiniteStack(w, depth, LoadPending(w, m), e);
  }

  lemma EventFirst(e: Event, o: Outcome)
    requires o != Endless
    ensures Then(Finished([e]), o) != Endless
  {
  }

  lemma {:induction false} DeeperStack(w: World, f: nat, g: nat, stack: seq<ArgsList>, before: Outcome)
    requires f <= g && Then(before, ExpandStack(w, f, stack)) != Endless
    ensures Then(before, ExpandStack(w, g, stack)) == Then(before, ExpandStack(w, f, stack))
    decreases |stack|
  {
    if before.Finished? && stack != [] {
      hide Expand;
      var top := stack[|stack| - 1];
      var first := Expand(w, f, top.args, top.next + 1, |stack| == 1);
      Deeper(w, f, g, top.args, top.next + 1, |stack| == 1);
      DeeperStack(w, f, g, stack[..|stack| - 1], first);
    }
  }

  lemma {:induction false} LastIsFinite(w: World, m: Machine, e: Event)
    requires !Halted(m) && LoadPending(w, m).stack != [] && EventOf(w, LoadPending(w, m)) == Some(e)
    requires Misplaced(e) || e.item.Terminator?
    ensures Left(w, 0, m) != Endless
  {
    hide LoadPending, EventOf, Misplaced;
    LastLeft(w, 0, LoadPending(w, m), e);
  }

  lemma RunsOn(w: World, m: Machine, k: nat)
    requires !Halted(m) && Halted(Runs(w, m, k))
    ensures k > 0 && Halted(Runs(w, Step(w, m), k - 1))
  {
  }

  lemma {:induction false} NothingLeft(w: World, m: Machine)
    requires m.stack == [] && m.mem.pending == NOT_PENDING
    ensures Left(w, 0, m) == Finished([])
  {
    NothingPending(w, m);
  }

  lemma {:induction false} StopsOnlyIfFinite(w: World, m: Machine, k: nat) returns (depth: nat)
    requires m.phase.Looping? && (m.stack == [] ==> m.mem.pending == NOT_PENDING) && Halted(Runs(w, m, k))
    ensures Left(w, depth, m) != Endless
    decreases k
  {
    hide Step, LoadPending, EventOf, Left, Expand, ExpandStack, Runs, Misplaced, Then;
    if m.stack == [] {
      NothingLeft(w, m);
      return 0;
    }
    RunsOn(w, m, k);
    StackStays(w, m);
    var event := EventOf(w, LoadPending(w, m));
    if event.None? {
      PopMoves(w, m);
      PopLeaves(w, 0, m);
      depth := StopsOnlyIfFinite(w, Step(w, m), k - 1);
      PopLeaves(w, depth, m);
    } else if Misplaced(event.value) || event.value.item.Terminator? {
      LastIsFinite(w, m, event.value);
      depth := 0;
    } else {
      EventGoesOn(w, m, event.value);
      depth := StopsOnlyIfFinite(w, Step(w, m), k - 1);
      FiniteBefore(w, depth, m, event.value);
      depth := depth + 1;
    }
  }

  // ----- Whole runs

  /** The parser at its start: values set and generators pending from before are part of the input. */
  function Start(argv: seq<string>, values: Values, pending: Pending): Machine {
    Machine([ArgsList(argv, 0)], Memory(values, pending, [], [0], [], [], true), Looping)
  }

  /** The memory once generators pending from before are handled. */
  function Initial(w: World, values: Values, pending: Pending): Memory {
    LoadMemory(w, Memory(values, pending, [], [0], [], [], true), true)
  }

  /** The expansion of a command line: lists pending from before, then argv from its second element. */
  function Expansion(w: World, depth: nat, argv: seq<string>, values: Values, pending: Pending): Outcome {
    Then(ExpandAll(w, depth, Loads(w, Start(argv, values, pending).mem).lists), Expand(w, depth, argv, 1, true))
  }

  lemma {:induction false} StartLeft(w: World, depth: nat, argv: seq<string>, values: Values, pending: Pending)
    ensures Left(w, depth, Start(argv, values, pending)) == Expansion(w, depth, argv, values, pending)
    ensures LoadPending(w, Start(argv, values, pending)).mem == Initial(w, values, pending)
  {
    hide Then, Expand, ExpandAll, Reversed, Loads;
    var m := Start(argv, values, pending);
    PushedFirst(w, depth, m.stack, Loads(w, m.mem).lists);
    assert m.stack[..0] == [];
    ThenNothing(Expand(w, depth, argv, 1, true));
    assert ExpandStack(w, depth, m.stack) == Then(Expand(w, depth, argv, 1, true), ExpandStack(w, depth, m.stack[..0]));
  }

  /** The stack machine refines the expansion: whenever that is finite, the machine stops and has carried it out. */
  lemma {:induction false} LoopRefinesExpansion(w: World, depth: nat, argv: seq<string>, values: Values, pending: Pending)
    returns (k: nat)
    requires Expansion(w, depth, argv, values, pending) != Endless
    ensures Halted(Runs(w, Start(argv, values, pending), k))
    ensures Carried(w, Initial(w, values, pending), Expansion(w, depth, argv, values, pending),
                    Runs(w, Start(argv, values, pending), k))
  {
    hide Left, Expansion, Initial, LoadPending, Carried, Runs, Halted;
    StartLeft(w, depth, argv, values, pending);
    k := RunsFrom(w, depth, Start(argv, values, pending), Initial(w, values, pending), []);
    assert Then(Finished([]), Expansion(w, depth, argv, values, pending)) == Expansion(w, depth, argv, values, pending) by {
      ThenNothing(Expansion(w, depth, argv, values, pending));
    }
  }

  /** The loop ends exactly if the expansion is finite. */
  lemma {:induction false} LoopEndsIffFinite(w: World, argv: seq<string>, values: Values, pending: Pending)
    ensures (exists k :: Halted(Runs(w, Start(argv, values, pending), k)))
       <==> (exists depth :: Expansion(w, depth, argv, values, pending) != Endless)
  {
    hide Left, Expansion, LoadPending, Carried, Runs, Halted;
    var m := Start(argv, values, pending);
    if k :| Halted(Runs(w, m, k)) {
      var depth := StopsOnlyIfFinite(w, m, k);
      StartLeft(w, depth, argv, values, pending);
    }
    if depth :| Expansion(w, depth, argv, values, pending) != Endless {
      var k := LoopRefinesExpansion(w, depth, argv, values, pending);
    }
  }
}

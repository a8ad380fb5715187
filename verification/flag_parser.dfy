/**
 The command-line parser itself: its fields, the loop over the stack of argument lists, and what is
 left when a parse is over.
 */
module FlagParser {
  import opened Options
  import opened StringOrder
  import opened Marshalling
  import opened FlagArguments
  import opened FlagExpansion
  import opened FlagMachine
  import opened FlagResults
  import opened FlagSources
  import opened FlagTermination

  // How a parse ends: a failed check aborts the process; otherwise `full` asks for exit code 1.
  datatype Ending = CheckFailed | Complete(full: bool)

  function CanIgnoreUndefinedFlag(undefok: seq<string>, name: string): bool {
    name in undefok || (HasNoPrefix(name) && name[2..] in undefok)
  }

  /** The unrecognized flags that may not be ignored, in order. */
  function Kept(flags: seq<Unrecognized>, undefok: seq<string>): seq<Unrecognized> {
    if flags == [] then []
    else
      var last := flags[|flags| - 1];
      Kept(flags[..|flags| - 1], undefok) + if CanIgnoreUndefinedFlag(undefok, last.name) then [] else [last]
  }

  /** A flag may be ignored under its name or its negative form. */
  lemma {:induction false} IgnoredNames(undefok: seq<string>, name: string)
    ensures CanIgnoreUndefinedFlag(undefok, name) <==>
              name in undefok || exists positive :: positive in undefok && name == "no" + positive
  {
    if HasNoPrefix(name) {
      assert name == "no" + name[2..];
    }
    if positive :| positive in undefok && name == "no" + positive {
      assert name[2..] == positive;
    }
  }

  /** Filtering keeps the order. */
  lemma {:induction false} KeptInOrder(a: seq<Unrecognized>, b: seq<Unrecognized>, undefok: seq<string>)
    ensures Kept(a + b, undefok) == Kept(a, undefok) + Kept(b, undefok)
  {
    hide CanIgnoreUndefinedFlag;
    if b == [] {
      assert a + b == a;
    } else {
      assert (a + b)[..|a + b| - 1] == a + b[..|b| - 1];
      KeptInOrder(a, b[..|b| - 1], undefok);
    }
  }

  lemma {:induction false} KeptCounts(flags: seq<Unrecognized>, undefok: seq<string>, u: Unrecognized)
    ensures multiset(Kept(flags, undefok))[u]
         == if CanIgnoreUndefinedFlag(undefok, u.name) then 0 else multiset(flags)[u]
  {
    hide CanIgnoreUndefinedFlag;
    if flags != [] {
      var front := flags[..|flags| - 1];
      KeptCounts(front, undefok, u);
      assert flags == front + [flags[|flags| - 1]];
    }
  }

  /** Filtering drops every flag that may be ignored and no other, however often it occurs. */
  lemma {:induction false} KeptExactly(flags: seq<Unrecognized>, undefok: seq<string>, u: Unrecognized)
    ensures multiset(Kept(flags, undefok))[u]
         == if u.name in undefok || (exists positive :: positive in undefok && u.name == "no" + positive) then 0
            else multiset(flags)[u]
  {
    hide CanIgnoreUndefinedFlag, Kept;
    IgnoredNames(undefok, u.name);
    KeptCounts(flags, undefok, u);
  }

  /** The flag files of a parse: those pending from before, then those named by argv itself. */
  function AllFlagfiles(w: World, values: Values, pending: Pending, trace: seq<Event>): seq<string> {
    (if pending.flagfile then values.flagfile else []) + CommandLineFiles(w, trace)
  }

  /** What the generator flags are left at. */
  function AfterReset(v: Values, flagfileValue: seq<string>): Values {
    v.(flagfile := if flagfileValue != [] then flagfileValue else v.flagfile, fromenv := [], tryfromenv := [])
  }

  /** The values a parse with that trace ends with. */
  function EndValues(w: World, values: Values, pending: Pending, trace: seq<Event>): Values {
    AfterReset(Replay(w, Initial(w, values, pending), trace).values, AllFlagfiles(w, values, pending, trace))
  }

  /** Any flag but the generators ends with its last successful assignment in the order of the expansion. */
  lemma {:induction false} FinalAssigned(w: World, values: Values, pending: Pending, trace: seq<Event>, name: string, k: nat)
    requires name !in [FLAGFILE, FROMENV, TRYFROMENV]
    requires k < |trace| && Sets(w, trace[k].item, name)
    requires forall j :: k < j < |trace| ==> !Sets(w, trace[j].item, name)
    ensures ValueOf(EndValues(w, values, pending, trace), name) == Parsed(name, trace[k].item.value)
  {
    hide Replay, Initial, AllFlagfiles, Sets, Parsed;
    LastAssignmentWins(w, Initial(w, values, pending), trace, name, k);
  }

  /** Any flag but the generators that nothing sets ends with the value it had before the parse. */
  lemma {:induction false} FinalUntouched(w: World, values: Values, pending: Pending, trace: seq<Event>, name: string)
    requires name !in [FLAGFILE, FROMENV, TRYFROMENV]
    requires forall j :: 0 <= j < |trace| ==> !Sets(w, trace[j].item, name)
    ensures ValueOf(EndValues(w, values, pending, trace), name) == ValueOf(values, name)
  {
    hide Replay, AllFlagfiles, Sets, Loads;
    UntouchedKeeps(w, Initial(w, values, pending), trace, name);
  }

  /**
   * The environment generators end empty. flagfile ends as the files argv and the caller named; if
   * they named none, as its last assignment anywhere, or else as it was.
   */
  lemma {:induction false} FinalGenerators(w: World, values: Values, pending: Pending, trace: seq<Event>)
    ensures var end := EndValues(w, values, pending, trace);
            var files := AllFlagfiles(w, values, pending, trace);
            && end.fromenv == [] && end.tryfromenv == []
            && (files != [] ==> end.flagfile == files)
            && (files == [] && (forall j :: 0 <= j < |trace| ==> !Sets(w, trace[j].item, FLAGFILE)) ==>
                  end.flagfile == values.flagfile)
            && (files == [] ==>
                  forall k :: 0 <= k < |trace| && Sets(w, trace[k].item, FLAGFILE)
                              && (forall j :: k < j < |trace| ==> !Sets(w, trace[j].item, FLAGFILE)) ==>
                              end.flagfile == ParseStrings(trace[k].item.value))
  {
    hide Replay, AllFlagfiles, Accepts, ParseStrings, Loads;
    var start := Initial(w, values, pending);
    if forall j :: 0 <= j < |trace| ==> !Sets(w, trace[j].item, FLAGFILE) {
      UntouchedKeeps(w, start, trace, FLAGFILE);
    }
    forall k | 0 <= k < |trace| && Sets(w, trace[k].item, FLAGFILE)
               && (forall j :: k < j < |trace| ==> !Sets(w, trace[j].item, FLAGFILE))
      ensures Replay(w, start, trace).values.flagfile == ParseStrings(trace[k].item.value)
    {
      LastAssignmentWins(w, start, trace, FLAGFILE, k);
    }
  }

  /** A retired flag is not recorded as specified and ends with the value it had before the parse. */
  lemma {:induction false} RetiredUnchanged(w: World, argv: seq<string>, values: Values, pending: Pending, name: string)
    requires Valid(w) && name in w.flags && w.flags[name].retired
    requires !Foreseen(w, argv, values, pending).Loops?
    ensures var trace := ForeseenTrace(w, argv, values, pending);
            && name !in Replay(w, Initial(w, values, pending), trace).specified
            && ValueOf(EndValues(w, values, pending, trace), name) == ValueOf(values, name)
  {
    hide Expansion, Foreseen, ForeseenTrace, Enough, EndValues, Replay, ValueOf, Sets, Loads;
    ExpansionForeseen(w, Enough(w), argv, values, pending);
    TraceForeseen(w, argv, values, pending);
    RetiredNeverSet(w, Enough(w), argv, values, pending, name);
    var trace := ForeseenTrace(w, argv, values, pending);
    assert !IsListFlag(name);
    FinalUntouched(w, values, pending, trace, name);
    SpecifiedIffSet(w, Initial(w, values, pending), trace, name);
  }

  lemma SetLast<T>(s: seq<T>, x: T)
    requires s != []
    ensures s[|s| - 1 := x] == s[..|s| - 1] + [x]
  {
  }

  lemma {:induction false} ReversedValid(lists: seq<seq<string>>)
    requires forall i :: 0 <= i < |lists| ==> lists[i] != []
    ensures ValidStack(Reversed(lists))
  {
    if lists != [] {
      ReversedValid(lists[1..]);
    }
  }

  lemma {:induction false} ReversedJoin(a: seq<seq<string>>, b: seq<seq<string>>)
    ensures Reversed(a + b) == Reversed(b) + Reversed(a)
  {
    if a == [] {
      assert [] + b == b && Reversed(b) + [] == Reversed(b);
    } else {
      assert (a + b)[1..] == a[1..] + b;
      ReversedJoin(a[1..], b);
    }
  }

  /** Every list pushed has its stand-in for the program name still in front. */
  lemma {:induction false} LoadsValid(w: World, mem: Memory)
    ensures forall i :: 0 <= i < |Loads(w, mem).lists| ==> Loads(w, mem).lists[i] != []
  {
    hide LoadFiles, EnvArguments;
    ListsNotEmpty(w, mem.values.flagfile);
  }

  /** No list on the stack is ever read past its end. */
  lemma {:induction false} StepStaysValid(w: World, m: Machine)
    requires !Halted(m) && ValidStack(m.stack)
    ensures ValidStack(LoadPending(w, m).stack)
    ensures !Step(w, m).phase.Broken? ==> ValidStack(Step(w, m).stack)
  {
    LoadsValid(w, m.mem);
    ReversedValid(Loads(w, m.mem).lists);
    hide Loads, Reversed, Classify, Do;
  }

  lemma NoFiles(w: World, files: seq<string>, stack: seq<ArgsList>)
    ensures LoadFiles(w, files[|files|..]) == NOTHING && stack + Reversed([]) == stack
  {
  }

  /** Reading one more file, from the back, pushes its list on top of those already pushed. */
  lemma {:induction false} OneMoreFile(w: World, files: seq<string>, i: nat, stack: seq<ArgsList>)
    requires i < |files|
    ensures var list := FileList(w, files[i]);
            LoadFiles(w, files[i..]).ok == (list.Some? && LoadFiles(w, files[i + 1..]).ok)
            && stack + Reversed(LoadFiles(w, files[i..]).lists)
            == stack + Reversed(LoadFiles(w, files[i + 1..]).lists) + if list.Some? then [ArgsList(list.value, 0)] else []
  {
    hide FileList;
    var list := FileList(w, files[i]);
    var rest := LoadFiles(w, files[i + 1..]);
    assert files[i..][1..] == files[i + 1..] && files[i..][0] == files[i];
    assert LoadFiles(w, files[i..]) == Together(if list.None? then Loaded([], false) else Loaded([list.value], true), rest);
    hide LoadFiles;
    if list.Some? {
      assert ([list.value] + rest.lists)[1..] == rest.lists;
    } else {
      assert [] + rest.lists == rest.lists;
    }
  }

  class Parser {
    const w: World
    var stack: seq<ArgsList>
    var values: Values
    var pending: Pending
    var flagfileValue: seq<string>
    var positional: seq<nat>
    var unrecognized: seq<Unrecognized>
    var specified: seq<string>
    var success: bool
    var parsed: bool

    ghost function Mem(): Memory
      reads this
    {
      Memory(values, pending, flagfileValue, positional, unrecognized, specified, success)
    }

    ghost function Now(phase: Phase): Machine
      reads this
    {
      Machine(stack, Mem(), phase)
    }

    constructor (w: World, values: Values, pending: Pending)
      ensures this.w == w && this.values == values && this.pending == pending && !parsed
    {
      this.w, this.values, this.pending := w, values, pending;
      stack, flagfileValue, positional, unrecognized, specified, success := [], [], [], [], [], true;
      parsed := false;
    }

    /** Files are read last first, so that the first is processed first. */
    method ReadFlagfiles(flagfiles: seq<string>) returns (ok: bool)
      modifies `stack
      ensures stack == old(stack) + Reversed(LoadFiles(w, flagfiles).lists)
      ensures ok == LoadFiles(w, flagfiles).ok
    {
      hide LoadFiles, Reversed, FileList;
      NoFiles(w, flagfiles, stack);
      ok := true;
      var i: nat := |flagfiles|;
      while i > 0
        invariant i <= |flagfiles|
        invariant stack == old(stack) + Reversed(LoadFiles(w, flagfiles[i..]).lists)
        invariant ok == LoadFiles(w, flagfiles[i..]).ok
      {
        i := i - 1;
        OneMoreFile(w, flagfiles, i, old(stack));
        var read, args := ReadFromFlagfile(w, flagfiles[i]);
        if read {
          stack := stack + [ArgsList(args, 0)];
        } else {
          ok := false;
        }
      }
      assert flagfiles[0..] == flagfiles;
    }

    method ReadFlagsFrom(names: seq<string>, failOnAbsent: bool) returns (ok: bool)
      modifies `stack
      ensures stack == old(stack) + Reversed(LoadEnv(w, names, failOnAbsent).lists)
      ensures ok == LoadEnv(w, names, failOnAbsent).ok
    {
      hide EnvArguments;
      var args;
      ok, args := ReadFlagsFromEnv(w, names, failOnAbsent);
      if ok {
        stack := stack + [ArgsList(args, 0)];
        assert [args][1..] == [];
      }
    }

    method HandleGeneratorFlags() returns (ok: bool)
      modifies `stack, `flagfileValue, `pending
      ensures ok == Loads(w, old(Mem())).ok && pending == NOT_PENDING
      ensures stack == old(stack) + Reversed(Loads(w, old(Mem())).lists)
      ensures flagfileValue == LoadMemory(w, old(Mem()), |old(stack)| == 1).flagfileValue
    {
      assert Reversed([]) == [];
      hide LoadFiles, LoadEnv, Reversed;
      ghost var a := if pending.flagfile then LoadFiles(w, values.flagfile) else NOTHING;
      ghost var b := if pending.fromenv then LoadEnv(w, values.fromenv, true) else NOTHING;
      ghost var c := if pending.tryfromenv then LoadEnv(w, values.tryfromenv, false) else NOTHING;
      ghost var before := stack;
      ok := true;
      if pending.flagfile {
        var flagfiles := values.flagfile;
        if |stack| == 1 {
          flagfileValue := flagfileValue + flagfiles;
        }
        var read := ReadFlagfiles(flagfiles);
        ok := ok && read;
        pending := pending.(flagfile := false);
      }
      assert stack == before + Reversed(a.lists);
      if pending.fromenv {
        var read := ReadFlagsFrom(values.fromenv, true);
        ok := ok && read;
        pending := pending.(fromenv := false);
      }
      assert stack == before + Reversed(a.lists) + Reversed(b.lists);
      if pending.tryfromenv {
        var read := ReadFlagsFrom(values.tryfromenv, false);
        ok := ok && read;
        pending := pending.(tryfromenv := false);
      }
      assert stack == before + Reversed(a.lists) + Reversed(b.lists) + Reversed(c.lists);
      ReversedJoin(c.lists, b.lists + a.lists);
      ReversedJoin(b.lists, a.lists);
      Regroup(before, Reversed(a.lists), Reversed(b.lists), Reversed(c.lists));
    }

    /** The value may be the next argument of the same list, which is then used up. */
    method DeduceFlagValue(flag: Flag, split: Split, isNegative: bool) returns (ok: bool, value: string)
      requires stack != [] && stack[|stack| - 1].next < |stack[|stack| - 1].args|
      modifies `stack
      ensures var top := old(stack)[|old(stack)| - 1];
              var d := Deduce(flag, split, isNegative, Next(top.args, top.next));
              ok == d.ok && value == d.value
              && stack == old(stack)[..|old(stack)| - 1]
                       + [ArgsList(top.args, if d.consumes then top.next + 1 else top.next)]
    {
      var last := |stack| - 1;
      var top := stack[last];
      SetLast(stack, top);
      assert stack[last := top] == stack;
      if flag.kind.BoolFlag? {
        if split.value == "" {
          if split.isEmptyValue {
            return false, "";
          }
          return true, if isNegative then "0" else "1";
        } else if isNegative {
          return false, "";
        }
      } else if isNegative {
        return false, "";
      } else if split.value == "" && !split.isEmptyValue {
        if |top.args| - top.next == 1 {
          return false, "";
        }
        SetLast(stack, ArgsList(top.args, top.next + 1));
        stack := stack[last := ArgsList(top.args, top.next + 1)];
        return true, top.args[top.next + 1];
      }
      return true, split.value;
    }

    method ParseFrom(flag: Flag, value: string) returns (ok: bool)
      modifies `values, `pending
      ensures ok == Accepts(w, flag, value)
      ensures values == if ok then Store(old(values), flag.name, value) else old(values)
      ensures pending == if ok then Trigger(old(pending), flag.name, value) else old(pending)
    {
      ok := Accepts(w, flag, value);
      if ok {
        values := Store(values, flag.name, value);
        pending := Trigger(pending, flag.name, value);
      }
    }

    /** Set the located flag, with the top list standing at the argument that names it. */
    method SetFlag(flag: Flag, split: Split, isNegative: bool)
      requires stack != [] && stack[|stack| - 1].next < |stack[|stack| - 1].args|
      modifies `stack, `values, `pending, `specified, `success
      ensures var top := old(stack)[|old(stack)| - 1];
              var d := Deduce(flag, split, isNegative, Next(top.args, top.next));
              var item := Assign(flag, d.value, d.ok, d.consumes);
              stack == old(stack)[..|old(stack)| - 1] + [ArgsList(top.args, After(item, top.next) - 1)]
              && forall fromArgv :: Mem() == Do(w, old(Mem()), Event(item, fromArgv, top.next))
    {
      hide Deduce, Store, Trigger, Accepts;
      ghost var before := Mem();
      ghost var top := stack[|stack| - 1];
      ghost var d := Deduce(flag, split, isNegative, Next(top.args, top.next));
      assert top.next + 1 == After(Assign(flag, d.value, d.ok, false), top.next);
      var ok, value := DeduceFlagValue(flag, split, isNegative);
      assert stack == old(stack)[..|old(stack)| - 1]
                    + [ArgsList(top.args, After(Assign(flag, d.value, d.ok, d.consumes), top.next) - 1)];
      success := success && ok;
      var accepted := ParseFrom(flag, value);
      if !accepted {
        if flag.retired {
          return;
        }
        success := false;
      } else {
        specified := specified + [flag.name];
      }
    }

    /** Process the argument the top list stands at. */
    method ParseArgument() returns (phase: Phase)
      requires stack != [] && stack[|stack| - 1].next < |stack[|stack| - 1].args|
      modifies `stack, `values, `pending, `positional, `unrecognized, `specified, `success
      ensures var top := old(stack)[|old(stack)| - 1];
              var base := old(stack)[..|old(stack)| - 1];
              Now(phase) == AdvanceTo(w, old(Mem()), base, top.args, top.next)
    {
      hide Store, Trigger, Accepts, HasNoPrefix, LocateFlag, SplitNameAndValue, IsUsageFlag, Deduce;
      ghost var base := stack[..|stack| - 1];
      var last := |stack| - 1;
      var args, i := stack[last].args, stack[last].next;
      SetLast(stack, stack[last]);
      assert stack == base + [ArgsList(args, i)];
      var fromArgv := |stack| == 1;
      if LooksPositional(args[i]) {
        if !fromArgv {
          return Failed;
        }
        positional := positional + [i];
        return Looping;
      }
      var split := SplitNameAndValue(args[i][1..]);
      if split.name == "" {
        if !fromArgv {
          return Failed;
        }
        SetLast(stack, ArgsList(args, i + 1));
        stack := stack[last := ArgsList(args, i + 1)];
        return Broken;
      }
      var located := LocateFlag(w, split.name);
      if located.flag.None? {
        if IsUsageFlag(split.name) {
          return Looping;
        }
        unrecognized := unrecognized + [Unrecognized(fromArgv, split.name)];
        return Looping;
      }
      SetFlag(located.flag.value, split, located.negative);
      phase := Looping;
    }

    /** One iteration of the loop. */
    method ParseNext() returns (phase: Phase)
      requires stack != [] && ValidStack(stack)
      modifies `stack, `values, `pending, `flagfileValue, `positional, `unrecognized, `specified, `success
      ensures Now(phase) == Step(w, old(Now(Looping)))
    {
      hide Loads, Reversed, AdvanceTo, ItemAt;
      ghost var l := LoadPending(w, Now(Looping));
      StepStaysValid(w, Now(Looping));
      var handled := HandleGeneratorFlags();
      success := success && handled;
      assert Now(Looping) == l;
      var last := |stack| - 1;
      var front := ArgsList(stack[last].args, stack[last].next + 1);
      SetLast(stack, front);
      stack := stack[last := front];
      if |front.args| - front.next == 0 {
        stack := stack[..last];
        return Looping;
      }
      assert stack[..|stack| - 1] == l.stack[..|l.stack| - 1];
      phase := ParseArgument();
    }

    /** The loop: it carries out what is left to do, and ends because that is finite. */
    method ParseAll(ghost depth: nat, ghost mem: Memory) returns (phase: Phase)
      requires stack != [] && ValidStack(stack)
      requires Left(w, depth, Now(Looping)) != Endless && LoadPending(w, Now(Looping)).mem == mem
      modifies `stack, `values, `pending, `flagfileValue, `positional, `unrecognized, `specified, `success
      ensures Carried(w, mem, old(Left(w, depth, Now(Looping))), Now(phase))
    {
      assert Replay(w, mem, []) == mem && GoesOn([]);
      hide LoadPending, Left, Step, Replay, Carried, Then, GoesOn, Size, EventOf, ValidStack, Misplaced, Mem;
      ghost var total := Left(w, depth, Now(Looping));
      ghost var done: seq<Event> := [];
      ThenNothing(total);
      phase := Looping;
      while stack != []
        invariant phase == Looping && ValidStack(stack) && (stack == [] ==> Now(Looping).mem.pending == NOT_PENDING)
        invariant Left(w, depth, Now(Looping)) != Endless && GoesOn(done)
        invariant LoadPending(w, Now(Looping)).mem == Replay(w, mem, done)
        invariant Then(Finished(done), Left(w, depth, Now(Looping))) == total
        decreases Size(Left(w, depth, Now(Looping))), |LoadPending(w, Now(Looping)).stack|
      {
        ghost var m := Now(Looping);
        ghost var event := IterationMoves(w, depth, m, mem, done, total);
        phase := ParseNext();
        if phase != Looping {
          break;
        }
        done := done + if event.Some? then [event.value] else [];
      }
      if phase == Looping {
        CarriedAtEnd(w, depth, Now(Looping), mem, done);
      }
    }

    method ResetGeneratorFlags()
      modifies `values, `pending
      ensures values == AfterReset(old(values), flagfileValue)
      ensures old(pending) == NOT_PENDING ==> pending == NOT_PENDING
    {
      if flagfileValue != [] {
        values := values.(flagfile := flagfileValue);
        pending := pending.(flagfile := false);
      }
      if values.fromenv != [] {
        values := values.(fromenv := []);
      }
      if values.tryfromenv != [] {
        values := values.(tryfromenv := []);
      }
      pending := pending.(fromenv := false, tryfromenv := false);
    }

    /** What stands behind a terminator is taken over as it is. */
    method TakeRemaining(argc: nat)
      modifies `positional
      ensures positional == old(positional) + if stack == [] then [] else Range(stack[|stack| - 1].next, argc)
    {
      if stack != [] {
        var i: nat := stack[|stack| - 1].next;
        ghost var front := i;
        assert Range(front, front) == [];
        while i < argc
          invariant front <= i && (i <= argc || i == front)
          invariant positional == old(positional) + Range(front, i)
        {
          positional := positional + [i];
          assert Range(front, i + 1) == Range(front, i) + [i];
          i := i + 1;
        }
      }
    }

    method FilterUnrecognized()
      modifies `unrecognized
      ensures unrecognized == Kept(old(unrecognized), values.undefok)
    {
      var filtered := [];
      for i := 0 to |unrecognized|
        invariant unrecognized == old(unrecognized) && filtered == Kept(unrecognized[..i], values.undefok)
      {
        assert unrecognized[..i + 1][..i] == unrecognized[..i];
        if CanIgnoreUndefinedFlag(values.undefok, unrecognized[i].name) {
          continue;
        }
        filtered := filtered + [unrecognized[i]];
      }
      assert unrecognized[..|unrecognized|] == unrecognized;
      unrecognized := filtered;
    }

    /** std::sort, by name. */
    method SortSpecified()
      modifies `specified
      ensures Sorted(specified) && forall name :: name in specified <==> name in old(specified)
    {
      SortSorts(specified);
      ghost var names := specified;
      specified := Sort(specified);
      assert multiset(specified) == multiset(names);
      forall name ensures name in specified <==> name in names {
        assert name in specified <==> name in multiset(specified);
        assert name in names <==> name in multiset(names);
      }
    }

    /** After the loop: reset the generators, take what remains of argv, sort and filter. */
    method Finish(argc: nat)
      modifies `values, `pending, `positional, `specified, `unrecognized
      ensures values == AfterReset(old(values), flagfileValue)
      ensures old(pending) == NOT_PENDING ==> pending == NOT_PENDING
      ensures positional == old(positional) + if stack == [] then [] else Range(stack[|stack| - 1].next, argc)
      ensures Sorted(specified) && forall name :: name in specified <==> name in old(specified)
      ensures unrecognized == Kept(old(unrecognized), values.undefok)
    {
      hide AfterReset, Range, Sorted, Kept;
      ResetGeneratorFlags();
      TakeRemaining(argc);
      SortSpecified();
      FilterUnrecognized();
    }

    /**
     * Parse a command line. No source may be met again inside its own expansion, for otherwise the loop
     * does not end; everything the parse leaves behind is told from the expansion.
     */
    method ParseAbseilFlagsOnly(argv: seq<string>) returns (ending: Ending)
      requires !Foreseen(w, argv, values, pending).Loops?
      modifies this
      ensures ending.CheckFailed? <==> argv == [] || old(Foreseen(w, argv, values, pending)).Fails?
      ensures ending.Complete? ==>
                var trace := old(ForeseenTrace(w, argv, values, pending));
                var start := old(Initial(w, values, pending));
                && positional == [0] + PositionalFrom(w, argv, 1)
                && values == EndValues(w, old(values), old(pending), trace)
                && pending == NOT_PENDING
                && unrecognized == Kept(UnknownFlags(trace), values.undefok)
                && parsed && Sorted(specified)
                && (forall name :: name in specified <==> exists j :: 0 <= j < |trace| && Sets(w, trace[j].item, name))
                && (ending.full <==> !(start.success && forall j :: 0 <= j < |trace| ==> Fine(w, trace[j].item)))
    {
      hide Expansion, Initial, Left, LoadPending, Carried, Replay, AfterReset, AllFlagfiles;
      hide UnknownFlags, Sets, Fine, PositionalFrom, Kept, Sorted, Range, Foreseen, ForeseenTrace, Enough;
      ghost var depth := Enough(w);
      ghost var outcome := Expansion(w, depth, argv, values, pending);
      ExpansionForeseen(w, depth, argv, values, pending);
      TraceForeseen(w, argv, values, pending);
      ghost var start := Initial(w, values, pending);
      if argv == [] {
        return CheckFailed;
      }
      stack := [ArgsList(argv, 0)];
      flagfileValue, positional, unrecognized, specified, success := [], [0], [], [], true;
      parsed := true;
      StartLeft(w, depth, argv, values, pending);
      var phase := ParseAll(depth, start);
      CarriedEnding(w, start, outcome, Now(phase));
      if phase == Failed {
        return CheckFailed;
      }
      PositionalCarried(w, depth, argv, old(values), old(pending), Now(phase));
      MemoryCarried(w, old(values), old(pending), outcome.trace);
      Finish(|argv|);
      ending := Complete(!success);
    }

    /** Was the flag of that name set on the command line? None if there was no parse yet, which is a failed check. */
    method WasPresentOnCommandLine(name: string) returns (present: Option<bool>)
      requires parsed ==> Sorted(specified)
      ensures present == if parsed then Some(name in specified) else None
    {
      if !parsed {
        return None;
      }
      var found := BinarySearch(specified, name);
      present := Some(found);
    }
  }

  /** What an iteration does to what is done and what is left, event by event. */
  lemma {:induction false} IterationMoves(w: World, depth: nat, m: Machine, mem: Memory, done: seq<Event>, total: Outcome)
    returns (event: Option<Event>)
    requires !Halted(m) && ValidStack(m.stack) && GoesOn(done)
    requires Left(w, depth, m) != Endless && LoadPending(w, m).mem == Replay(w, mem, done)
    requires Then(Finished(done), Left(w, depth, m)) == total
    ensures var s := Step(w, m);
            var after := done + if event.Some? then [event.value] else [];
            if s.phase.Looping? then
              && ValidStack(s.stack) && (s.stack == [] ==> s.mem.pending == NOT_PENDING)
              && Left(w, depth, s) != Endless && GoesOn(after)
              && LoadPending(w, s).mem == Replay(w, mem, after)
              && Then(Finished(after), Left(w, depth, s)) == total
              && if event.Some? then Size(Left(w, depth, s)) < Size(Left(w, depth, m))
                 else Size(Left(w, depth, s)) == Size(Left(w, depth, m))
                      && |LoadPending(w, s).stack| < |LoadPending(w, m).stack|
            else Carried(w, mem, total, s)
  {
    hide LoadPending, Left, Replay, Carried, Then, GoesOn, Size, EventOf, ValidStack, Step;
    StepStaysValid(w, m);
    StackStays(w, m);
    event := EventOf(w, LoadPending(w, m));
    assert done + [] == done;
    if event.None? {
      PopLeaves(w, depth, m);
      PopMoves(w, m);
    } else if Misplaced(event.value) || event.value.item.Terminator? {
      CarriedAtLast(w, depth, m, mem, done, event.value);
      LastEvent(w, depth, m, event.value);
    } else {
      EventMoves(w, depth, m, mem, done, event.value);
    }
  }

  lemma {:induction false} CarriedEnding(w: World, mem: Memory, outcome: Outcome, m: Machine)
    requires Carried(w, mem, outcome, m)
    ensures if m.phase.Failed? then outcome.Aborted? else outcome.Finished? && m.mem == Replay(w, mem, outcome.trace)
  {
    hide Replay;
  }

  lemma {:induction false} RemainingCarried(w: World, mem: Memory, trace: seq<Event>, m: Machine, argc: nat)
    requires Carried(w, mem, Finished(trace), m)
    ensures m.mem == Replay(w, mem, trace)
    ensures (if m.stack == [] then [] else Range(m.stack[|m.stack| - 1].next, argc)) == Remaining(trace, argc)
  {
    hide Replay, Range;
  }

  /** The positional output, of the loop and of what remains after it. */
  lemma {:induction false} PositionalCarried(w: World, depth: nat, argv: seq<string>, values: Values, pending: Pending, m: Machine)
    requires Expansion(w, depth, argv, values, pending).Finished?
    requires Carried(w, Initial(w, values, pending), Expansion(w, depth, argv, values, pending), m)
    ensures m.mem.positional + (if m.stack == [] then [] else Range(m.stack[|m.stack| - 1].next, |argv|))
         == [0] + PositionalFrom(w, argv, 1)
  {
    var start := Initial(w, values, pending);
    assert start.positional == [0];
    hide Initial, Expansion, Replay, UnknownFlags, PositionalFrom, PositionalIn, Range, Remaining, Carried;
    var trace := Expansion(w, depth, argv, values, pending).trace;
    RemainingCarried(w, start, trace, m, |argv|);
    Collected(w, start, trace);
    ArgvOfExpansion(w, depth, argv, values, pending);
    Joined(PositionalIn(trace), Remaining(trace, |argv|));
  }

  lemma Joined(a: seq<nat>, b: seq<nat>)
    ensures [0] + a + b == [0] + (a + b)
  {
  }

  /** What the memory holds after a finished expansion. */
  lemma {:induction false} MemoryCarried(w: World, values: Values, pending: Pending, trace: seq<Event>)
    ensures var start := Initial(w, values, pending);
            var end := Replay(w, start, trace);
            && end.pending == NOT_PENDING
            && end.flagfileValue == AllFlagfiles(w, values, pending, trace)
            && end.unrecognized == UnknownFlags(trace)
            && (end.success <==> start.success && forall j :: 0 <= j < |trace| ==> Fine(w, trace[j].item))
            && forall name :: name in end.specified <==> exists j :: 0 <= j < |trace| && Sets(w, trace[j].item, name)
  {
    hide Replay, UnknownFlags, Sets, Fine, PositionalIn, Loads, CommandLineFiles;
    var start := Initial(w, values, pending);
    NeverPending(w, start, trace);
    FlagfilesCollected(w, start, trace);
    Collected(w, start, trace);
    assert [] + UnknownFlags(trace) == UnknownFlags(trace);
    SuccessIffAllFine(w, start, trace);
    var before := if pending.flagfile then values.flagfile else [];
    assert [] + before == before;
    forall name
      ensures name in Replay(w, start, trace).specified <==> exists j :: 0 <= j < |trace| && Sets(w, trace[j].item, name)
    {
      SpecifiedIffSet(w, start, trace, name);
    }
  }

  lemma Regroup<T>(s: seq<T>, a: seq<T>, b: seq<T>, c: seq<T>)
    ensures s + a + b + c == s + ((a + b) + c)
  {
  }
}

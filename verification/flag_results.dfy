/**
 What a parse leaves behind, told from the trace of the expansion: values, the set of specified
 flags, success, unrecognized flags, collected flag files, positional arguments, and the role each
 element of argv played.
 */
module FlagResults {
  import opened Marshalling
  import opened FlagArguments
  import opened FlagExpansion
  import opened FlagMachine

  lemma {:induction false} NeverPending(w: World, mem: Memory, trace: seq<Event>)
    requires mem.pending == NOT_PENDING
    ensures Replay(w, mem, trace).pending == NOT_PENDING
  {
    hide Do, Loads;
    if trace != [] {
      NeverPending(w, mem, trace[..|trace| - 1]);
    }
  }

  // ----- Values: the last assignment wins

  datatype Value = Strings(list: seq<string>) | Text(text: string) | Untouched

  function ValueOf(v: Values, name: string): Value {
    if name == FLAGFILE then Strings(v.flagfile)
    else if name == FROMENV then Strings(v.fromenv)
    else if name == TRYFROMENV then Strings(v.tryfromenv)
    else if name == UNDEFOK then Strings(v.undefok)
    else if name in v.others then Text(v.others[name])
    else Untouched
  }

  function Parsed(name: string, text: string): Value {
    if IsListFlag(name) then Strings(ParseStrings(text)) else Text(text)
  }

  lemma {:induction false} OneAssignment(w: World, mem: Memory, e: Event, name: string)
    ensures ValueOf(Apply(w, mem, e).values, name)
         == if Sets(w, e.item, name) then Parsed(name, e.item.value) else ValueOf(mem.values, name)
  {
    hide ParseStrings, Loads, Accepts;
  }

  /** A flag no argument sets keeps its value. */
  lemma {:induction false} UntouchedKeeps(w: World, mem: Memory, trace: seq<Event>, name: string)
    requires forall j :: 0 <= j < |trace| ==> !Sets(w, trace[j].item, name)
    ensures ValueOf(Replay(w, mem, trace).values, name) == ValueOf(mem.values, name)
  {
    hide Apply, ValueOf, Sets;
    if trace != [] {
      UntouchedKeeps(w, mem, trace[..|trace| - 1], name);
      OneAssignment(w, Replay(w, mem, trace[..|trace| - 1]), trace[|trace| - 1], name);
    }
  }

  /** A flag has the value of its last successful assignment in the order of the expansion. */
  lemma {:induction false} LastAssignmentWins(w: World, mem: Memory, trace: seq<Event>, name: string, k: nat)
    requires k < |trace| && Sets(w, trace[k].item, name)
    requires forall j :: k < j < |trace| ==> !Sets(w, trace[j].item, name)
    ensures ValueOf(Replay(w, mem, trace).values, name) == Parsed(name, trace[k].item.value)
    decreases |trace|
  {
    hide Apply, ValueOf, Sets;
    var last := trace[|trace| - 1];
    OneAssignment(w, Replay(w, mem, trace[..|trace| - 1]), last, name);
    if k < |trace| - 1 {
      LastAssignmentWins(w, mem, trace[..|trace| - 1], name, k);
    }
  }

  // ----- Which flags can be set at all

  /** Is the flag an argument assigns to the one that is registered under its name? */
  ghost predicate FromWorld(w: World, item: Item) {
    item.Assign? ==> item.flag.name in w.flags && w.flags[item.flag.name] == item.flag
  }

  ghost predicate AllFromWorld(w: World, o: Outcome) {
    !o.Endless? ==> forall j :: 0 <= j < |o.trace| ==> FromWorld(w, o.trace[j].item)
  }

  lemma {:induction false} ItemFromWorld(w: World, args: seq<string>, i: nat)
    requires Valid(w) && i < |args|
    ensures FromWorld(w, ItemAt(w, args, i))
  {
    hide SplitNameAndValue, Deduce, IsUsageFlag, HasNoPrefix;
  }

  lemma ThenFromWorld(w: World, a: Outcome, b: Outcome)
    requires AllFromWorld(w, a) && AllFromWorld(w, b)
    ensures AllFromWorld(w, Then(a, b))
  {
  }

  lemma {:induction false} ExpandFromWorld(w: World, depth: nat, args: seq<string>, i: nat, fromArgv: bool)
    requires Valid(w)
    ensures AllFromWorld(w, Expand(w, depth, args, i, fromArgv))
    decreases depth, 0, |args| - i
  {
    hide ItemAt, Generated, FromWorld, Then, Valid, ExpandAll;
    if i < |args| {
      var item := ItemAt(w, args, i);
      var e := Event(item, fromArgv, i);
      ItemFromWorld(w, args, i);
      assert AllFromWorld(w, Finished([e]));
      if !Misplaced(e) && !item.Terminator? {
        var lists := Generated(w, item).lists;
        Unfold(w, depth, args, i, fromArgv);
        NestedUnfolds(w, depth, lists);
        if depth > 0 {
          ExpandAllFromWorld(w, depth - 1, lists);
        }
        ExpandFromWorld(w, depth, args, After(item, i), fromArgv);
        var nested, rest := Nested(w, depth, lists), Expand(w, depth, args, After(item, i), fromArgv);
        hide Expand, Nested;
        assert AllFromWorld(w, nested);
        hide AllFromWorld;
        ThenFromWorld(w, nested, rest);
        ThenFromWorld(w, Finished([e]), Then(nested, rest));
      }
    }
  }

  lemma {:induction false} ExpandAllFromWorld(w: World, depth: nat, lists: seq<seq<string>>)
    requires Valid(w)
    ensures AllFromWorld(w, ExpandAll(w, depth, lists))
    decreases depth, 1, |lists|
  {
    hide Expand, Then, Valid;
    if lists != [] {
      ExpandFromWorld(w, depth, lists[0], 1, false);
      ExpandAllFromWorld(w, depth, lists[1..]);
      ThenFromWorld(w, Expand(w, depth, lists[0], 1, false), ExpandAll(w, depth, lists[1..]));
    }
  }

  /**
   * Which processed arguments set a flag: those that assign a value the flag takes, of flags that are
   * not retired. The parser's own flags take any text.
   */
  lemma {:induction false} SettersAre(w: World, depth: nat, argv: seq<string>, values: Values, pending: Pending, name: string)
    requires Valid(w) && !Expansion(w, depth, argv, values, pending).Endless?
    ensures var trace := Expansion(w, depth, argv, values, pending).trace;
            forall j :: 0 <= j < |trace| ==>
              (Sets(w, trace[j].item, name) <==>
                 && trace[j].item.Assign? && trace[j].item.flag.name == name && name in w.flags
                 && w.flags[name] == trace[j].item.flag && !w.flags[name].retired
                 && (name in {"flagfile", "fromenv", "tryfromenv", "undefok"} || w.accepts(name, trace[j].item.value)))
  {
    hide ExpandAll, Expand, Loads, Then, Valid;
    var lists := Loads(w, FlagMachine.Start(argv, values, pending).mem).lists;
    ExpandAllFromWorld(w, depth, lists);
    ExpandFromWorld(w, depth, argv, 1, true);
    ThenFromWorld(w, ExpandAll(w, depth, lists), Expand(w, depth, argv, 1, true));
    var trace := Expansion(w, depth, argv, values, pending).trace;
    forall j | 0 <= j < |trace|
      ensures FromWorld(w, trace[j].item)
    {
    }
  }

  /** Whatever a command line and its files hold, a retired flag is never set. */
  lemma {:induction false} RetiredNeverSet(w: World, depth: nat, argv: seq<string>, values: Values, pending: Pending, name: string)
    requires Valid(w) && !Expansion(w, depth, argv, values, pending).Endless?
    requires name in w.flags && w.flags[name].retired
    ensures var trace := Expansion(w, depth, argv, values, pending).trace;
            forall j :: 0 <= j < |trace| ==> !Sets(w, trace[j].item, name)
  {
    SettersAre(w, depth, argv, values, pending, name);
    hide Sets, Expansion;
  }

  // ----- Specified flags and success

  /** A flag is recorded as specified exactly if some processed argument set it. */
  lemma {:induction false} SpecifiedIffSet(w: World, mem: Memory, trace: seq<Event>, name: string)
    ensures name in Replay(w, mem, trace).specified
       <==> name in mem.specified || exists j :: 0 <= j < |trace| && Sets(w, trace[j].item, name)
  {
    if trace != [] {
      var front := trace[..|trace| - 1];
      SpecifiedIffSet(w, mem, front, name);
      assert Replay(w, mem, trace) == Apply(w, Replay(w, mem, front), trace[|trace| - 1]);
      hide Replay, Accepts, Loads;
      forall j | 0 <= j < |front| ensures front[j] == trace[j] {}
    }
  }

  /** Did the argument, and the generator it may be, go without error? */
  predicate Fine(w: World, item: Item) {
    item.Assign? ==>
      item.deduced && (Accepts(w, item.flag, item.value) || item.flag.retired) && Generated(w, item).ok
  }

  lemma {:induction false} OneSuccess(w: World, mem: Memory, e: Event)
    requires mem.pending == NOT_PENDING
    ensures Apply(w, mem, e).success <==> mem.success && Fine(w, e.item)
  {
    EventLoads(w, mem, e);
    hide Loads, Accepts, Load;
  }

  /** The parse succeeds exactly if every processed argument did. */
  lemma {:induction false} SuccessIffAllFine(w: World, mem: Memory, trace: seq<Event>)
    requires mem.pending == NOT_PENDING
    ensures Replay(w, mem, trace).success <==> mem.success && forall j :: 0 <= j < |trace| ==> Fine(w, trace[j].item)
  {
    hide Apply, Fine;
    if trace != [] {
      var front := trace[..|trace| - 1];
      SuccessIffAllFine(w, mem, front);
      NeverPending(w, mem, front);
      OneSuccess(w, Replay(w, mem, front), trace[|trace| - 1]);
    }
  }

  // ----- Flag files collected, unrecognized flags, positional arguments

  /** The lists of files that argv itself named, in order, joined. */
  function CommandLineFiles(w: World, trace: seq<Event>): seq<string> {
    if trace == [] then []
    else
      var e := trace[|trace| - 1];
      CommandLineFiles(w, trace[..|trace| - 1])
        + if e.fromArgv && Sets(w, e.item, FLAGFILE) then ParseStrings(e.item.value) else []
  }

  lemma {:induction false} OneCollected(w: World, mem: Memory, e: Event)
    requires mem.pending == NOT_PENDING
    ensures Apply(w, mem, e).flagfileValue
         == mem.flagfileValue + if e.fromArgv && Sets(w, e.item, FLAGFILE) then ParseStrings(e.item.value) else []
  {
    hide Loads, ParseStrings, Accepts;
  }

  lemma {:induction false} FlagfilesCollected(w: World, mem: Memory, trace: seq<Event>)
    requires mem.pending == NOT_PENDING
    ensures Replay(w, mem, trace).flagfileValue == mem.flagfileValue + CommandLineFiles(w, trace)
  {
    hide Apply, Sets, ParseStrings;
    if trace == [] {
      assert mem.flagfileValue + [] == mem.flagfileValue;
    } else {
      var front := trace[..|trace| - 1];
      FlagfilesCollected(w, mem, front);
      NeverPending(w, mem, front);
      OneCollected(w, Replay(w, mem, front), trace[|trace| - 1]);
    }
  }

  function UnknownFlags(trace: seq<Event>): seq<Unrecognized> {
    if trace == [] then []
    else
      var e := trace[|trace| - 1];
      UnknownFlags(trace[..|trace| - 1]) + if e.item.Unknown? then [Unrecognized(e.fromArgv, e.item.name)] else []
  }

  function PositionalIn(trace: seq<Event>): seq<nat> {
    if trace == [] then []
    else
      var e := trace[|trace| - 1];
      PositionalIn(trace[..|trace| - 1]) + if e.item.Positional? then [e.index] else []
  }

  lemma {:induction false} Collected(w: World, mem: Memory, trace: seq<Event>)
    ensures Replay(w, mem, trace).unrecognized == mem.unrecognized + UnknownFlags(trace)
    ensures Replay(w, mem, trace).positional == mem.positional + PositionalIn(trace)
  {
    if trace == [] {
      assert mem.unrecognized + [] == mem.unrecognized && mem.positional + [] == mem.positional;
    } else {
      var front := trace[..|trace| - 1];
      var e := trace[|trace| - 1];
      Collected(w, mem, front);
      hide Loads, Accepts, Store, Trigger;
      var was := Replay(w, mem, front);
      assert Replay(w, mem, trace) == Apply(w, was, e);
      assert was.unrecognized + [] == was.unrecognized && was.positional + [] == was.positional;
      hide Replay;
      assert Apply(w, was, e).unrecognized
          == was.unrecognized + if e.item.Unknown? then [Unrecognized(e.fromArgv, e.item.name)] else [];
      assert Apply(w, was, e).positional == was.positional + if e.item.Positional? then [e.index] else [];
    }
  }

  // ----- The role of each element of argv

  datatype Role = Token(item: Item) | ValueOfPrevious | AfterTerminator

  /** The role of argv[k], told by argv and the registered flags alone, scanning from i. */
  function RoleFrom(w: World, argv: seq<string>, i: nat, k: nat): Role
    requires i <= k < |argv|
    decreases k - i
  {
    var item := ItemAt(w, argv, i);
    if i == k then Token(item)
    else if item.Terminator? then AfterTerminator
    else if After(item, i) > k then ValueOfPrevious
    else RoleFrom(w, argv, After(item, i), k)
  }

  ghost predicate NoneFromArgv(o: Outcome) {
    !o.Endless? ==> forall j :: 0 <= j < |o.trace| ==> !o.trace[j].fromArgv && !o.trace[j].item.Positional?
                                                       && !o.trace[j].item.Terminator?
  }

  lemma {:induction false} NestedStaysNested(w: World, depth: nat, args: seq<string>, i: nat)
    ensures NoneFromArgv(Expand(w, depth, args, i, false))
    decreases depth, 0, |args| - i
  {
    hide ItemAt, Generated;
    if i < |args| {
      var item := ItemAt(w, args, i);
      var lists := Generated(w, item).lists;
      if depth > 0 {
        NestedAll(w, depth - 1, lists);
      }
      hide ExpandAll;
      NestedStaysNested(w, depth, args, After(item, i));
    }
  }

  lemma {:induction false} NestedAll(w: World, depth: nat, lists: seq<seq<string>>)
    ensures NoneFromArgv(ExpandAll(w, depth, lists))
    decreases depth, 1, |lists|
  {
    hide Expand;
    if lists != [] {
      NestedStaysNested(w, depth, lists[0], 1);
      NestedAll(w, depth, lists[1..]);
    }
  }

  lemma {:induction false} NestedLists(w: World, depth: nat, lists: seq<seq<string>>)
    ensures NoneFromArgv(Nested(w, depth, lists))
  {
    hide ExpandAll;
    if depth > 0 {
      NestedAll(w, depth - 1, lists);
    }
  }

  /** The events of argv in a trace, without those of files and variables. */
  function OfArgv(trace: seq<Event>): seq<Event> {
    if trace == [] then []
    else OfArgv(trace[..|trace| - 1]) + if trace[|trace| - 1].fromArgv then [trace[|trace| - 1]] else []
  }

  lemma {:induction false} OfArgvJoin(a: seq<Event>, b: seq<Event>)
    ensures OfArgv(a + b) == OfArgv(a) + OfArgv(b)
  {
    if b == [] {
      assert a + b == a;
    } else {
      assert (a + b)[..|a + b| - 1] == a + b[..|b| - 1];
      OfArgvJoin(a, b[..|b| - 1]);
    }
  }

  lemma {:induction false} OfArgvNested(trace: seq<Event>)
    requires forall j :: 0 <= j < |trace| ==> !trace[j].fromArgv
    ensures OfArgv(trace) == []
  {
    if trace != [] {
      OfArgvNested(trace[..|trace| - 1]);
    }
  }

  /** What scanning argv alone gives, from position i. */
  function Scan(w: World, argv: seq<string>, i: nat): seq<Event>
    decreases |argv| - i
  {
    if i >= |argv| then []
    else
      var item := ItemAt(w, argv, i);
      [Event(item, true, i)] + if item.Terminator? then [] else Scan(w, argv, After(item, i))
  }

  /** Whatever files and variables hold, argv is processed as scanning it alone would. */
  lemma {:induction false} ArgvIsScanned(w: World, depth: nat, argv: seq<string>, i: nat)
    requires Expand(w, depth, argv, i, true).Finished?
    ensures OfArgv(Expand(w, depth, argv, i, true).trace) == Scan(w, argv, i)
    decreases |argv| - i
  {
    hide ItemAt, Generated;
    if i < |argv| {
      var item := ItemAt(w, argv, i);
      var event := [Event(item, true, i)];
      assert event[..0] == [];
      assert OfArgv(event) == event;
      if !item.Terminator? {
        var lists := Generated(w, item).lists;
        var nested := Nested(w, depth, lists);
        var rest := Expand(w, depth, argv, After(item, i), true);
        Unfold(w, depth, argv, i, true);
        hide OfArgv, Expand, ExpandAll;
        NestedLists(w, depth, lists);
        OfArgvNested(nested.trace);
        ArgvIsScanned(w, depth, argv, After(item, i));
        OfArgvJoin(nested.trace, rest.trace);
        OfArgvJoin(event, nested.trace + rest.trace);
        assert [] + OfArgv(rest.trace) == OfArgv(rest.trace);
      } else {
        assert event + [] == event;
      }
    }
  }

  /**
   * Each element of argv has one role: it is processed as an argument at its own position, or was
   * used up as the value of the element before it, or comes after the terminator.
   */
  lemma {:induction false} ScanRoles(w: World, argv: seq<string>, i: nat, k: nat)
    requires i <= k < |argv|
    ensures forall e :: e in Scan(w, argv, i) ==> i <= e.index < |argv| && e == Event(ItemAt(w, argv, e.index), true, e.index)
    ensures RoleFrom(w, argv, i, k).Token? <==> exists e :: e in Scan(w, argv, i) && e.index == k
    ensures RoleFrom(w, argv, i, k).Token? ==> RoleFrom(w, argv, i, k).item == ItemAt(w, argv, k)
    ensures RoleFrom(w, argv, i, k).ValueOfPrevious? <==>
              exists e :: e in Scan(w, argv, i) && e.index + 1 == k && e.item.Assign? && e.item.consumes
    ensures RoleFrom(w, argv, i, k).AfterTerminator? <==>
              exists e :: e in Scan(w, argv, i) && e.item.Terminator? && e.index < k
    decreases |argv| - i
  {
    hide Classify;
    var item := ItemAt(w, argv, i);
    var first := Event(item, true, i);
    assert first in Scan(w, argv, i);
    if item.Terminator? {
      assert Scan(w, argv, i) == [first] + [];
    } else if After(item, i) >= |argv| {
      assert Scan(w, argv, After(item, i)) == [];
    } else {
      var j := After(item, i);
      ScanRoles(w, argv, j, if k < j then j else k);
      assert forall e :: e in Scan(w, argv, i) <==> e == first || e in Scan(w, argv, j);
      hide Scan, ItemAt;
    }
  }

  /** Later events stand further on. */
  lemma {:induction false} ScanIncreases(w: World, argv: seq<string>, i: nat)
    ensures forall a, b :: 0 <= a < b < |Scan(w, argv, i)| ==> Scan(w, argv, i)[a].index < Scan(w, argv, i)[b].index
    ensures forall a :: 0 <= a < |Scan(w, argv, i)| ==> i <= Scan(w, argv, i)[a].index
    decreases |argv| - i
  {
    hide ItemAt;
    if i < |argv| {
      var item := ItemAt(w, argv, i);
      var rest := if item.Terminator? then [] else Scan(w, argv, After(item, i));
      if !item.Terminator? {
        ScanIncreases(w, argv, After(item, i));
      }
      assert Scan(w, argv, i) == [Event(item, true, i)] + rest;
    }
  }

  // ----- The positional output

  function Range(lo: nat, hi: nat): seq<nat> {
    if lo >= hi then [] else seq(hi - lo, j requires 0 <= j => lo + j)
  }

  /** After a terminator everything is positional. */
  function Remaining(trace: seq<Event>, argc: nat): seq<nat> {
    if trace != [] && trace[|trace| - 1].item.Terminator? then Range(trace[|trace| - 1].index + 1, argc) else []
  }

  predicate IsPositional(role: Role) {
    role.AfterTerminator? || (role.Token? && role.item.Positional?)
  }

  /** The positional elements of argv from position i, told by argv alone. */
  function PositionalFrom(w: World, argv: seq<string>, i: nat): seq<nat>
    decreases |argv| - i
  {
    if i >= |argv| then []
    else
      var item := ItemAt(w, argv, i);
      if item.Terminator? then Range(i + 1, |argv|)
      else (if item.Positional? then [i] else []) + PositionalFrom(w, argv, After(item, i))
  }

  ghost predicate Increasing(s: seq<nat>) {
    forall a, b :: 0 <= a < b < |s| ==> s[a] < s[b]
  }

  /** They are the elements whose role makes them positional, in increasing order. */
  lemma {:induction false} PositionalByRole(w: World, argv: seq<string>, i: nat)
    ensures forall k :: k in PositionalFrom(w, argv, i) <==> i <= k < |argv| && IsPositional(RoleFrom(w, argv, i, k))
    ensures var r := PositionalFrom(w, argv, i); forall a, b :: 0 <= a < b < |r| ==> r[a] < r[b]
    decreases |argv| - i
  {
    hide ItemAt;
    if i < |argv| {
      var item := ItemAt(w, argv, i);
      if !item.Terminator? {
        PositionalByRole(w, argv, After(item, i));
        PositionalStep(w, argv, i);
      } else {
        var r := PositionalFrom(w, argv, i);
        forall k | i <= k < |argv| ensures k in r <==> k > i {
          if k > i {
            assert r[k - i - 1] == k;
          }
        }
      }
    }
  }

  lemma {:induction false} PositionalStep(w: World, argv: seq<string>, i: nat)
    requires i < |argv| && !ItemAt(w, argv, i).Terminator?
    requires var j := After(ItemAt(w, argv, i), i);
             (forall k :: k in PositionalFrom(w, argv, j) <==> j <= k < |argv| && IsPositional(RoleFrom(w, argv, j, k)))
             && Increasing(PositionalFrom(w, argv, j))
    ensures forall k :: k in PositionalFrom(w, argv, i) <==> i <= k < |argv| && IsPositional(RoleFrom(w, argv, i, k))
    ensures Increasing(PositionalFrom(w, argv, i))
  {
    hide ItemAt;
    var item := ItemAt(w, argv, i);
    var j := After(item, i);
    var tail := PositionalFrom(w, argv, j);
    var r := PositionalFrom(w, argv, i);
    assert r == (if item.Positional? then [i] else []) + tail;
    forall k ensures k in r <==> i <= k < |argv| && IsPositional(RoleFrom(w, argv, i, k)) {
      assert k in r <==> (item.Positional? && k == i) || k in tail;
    }
    forall a | 0 <= a < |tail| ensures tail[a] > i {
      assert tail[a] in tail;
    }
  }

  /** Positional arguments and terminators are argv's own, and a terminator comes last. */
  ghost predicate Shaped(trace: seq<Event>) {
    && (forall j :: 0 <= j < |trace| && (trace[j].item.Positional? || trace[j].item.Terminator?) ==> trace[j].fromArgv)
    && (forall j :: 0 <= j < |trace| - 1 ==> !trace[j].item.Terminator?)
  }

  lemma {:induction false} TraceIsShaped(w: World, depth: nat, argv: seq<string>, i: nat)
    requires Expand(w, depth, argv, i, true).Finished?
    ensures Shaped(Expand(w, depth, argv, i, true).trace)
    decreases |argv| - i
  {
    hide ItemAt, Generated;
    if i < |argv| {
      var item := ItemAt(w, argv, i);
      if !item.Terminator? {
        Unfold(w, depth, argv, i, true);
        NestedLists(w, depth, Generated(w, item).lists);
        hide Expand, Nested;
        TraceIsShaped(w, depth, argv, After(item, i));
      }
    }
  }

  lemma {:induction false} PositionalOfArgv(trace: seq<Event>)
    requires Shaped(trace)
    ensures PositionalIn(trace) == PositionalIn(OfArgv(trace))
  {
    if trace != [] {
      var front := trace[..|trace| - 1];
      var last := trace[|trace| - 1];
      PositionalOfArgv(front);
      if last.fromArgv {
        assert (OfArgv(front) + [last])[..|OfArgv(front)|] == OfArgv(front);
      } else {
        assert OfArgv(front) + [] == OfArgv(front);
        assert PositionalIn(front) + [] == PositionalIn(front);
      }
    }
  }

  lemma {:induction false} NoTerminator(trace: seq<Event>)
    requires forall j :: 0 <= j < |trace| ==> !trace[j].item.Terminator?
    ensures forall j :: 0 <= j < |OfArgv(trace)| ==> !OfArgv(trace)[j].item.Terminator?
  {
    if trace != [] {
      NoTerminator(trace[..|trace| - 1]);
    }
  }

  lemma {:induction false} RemainingOfArgv(trace: seq<Event>, argc: nat)
    requires Shaped(trace)
    ensures Remaining(trace, argc) == Remaining(OfArgv(trace), argc)
  {
    if trace != [] {
      NoTerminator(trace[..|trace| - 1]);
    }
  }

  lemma {:induction false} PositionalJoin(e: Event, rest: seq<Event>)
    ensures PositionalIn([e] + rest) == (if e.item.Positional? then [e.index] else []) + PositionalIn(rest)
  {
    var all := [e] + rest;
    if rest == [] {
      assert all[..0] == [];
    } else {
      assert all[..|all| - 1] == [e] + rest[..|rest| - 1];
      PositionalJoin(e, rest[..|rest| - 1]);
    }
  }

  lemma {:induction false} PositionalStepScan(e: Event, rest: seq<Event>, argc: nat, tail: seq<nat>)
    requires !e.item.Terminator? && PositionalIn(rest) + Remaining(rest, argc) == tail
    ensures PositionalIn([e] + rest) + Remaining([e] + rest, argc) == (if e.item.Positional? then [e.index] else []) + tail
  {
    hide PositionalIn, Range;
    PositionalJoin(e, rest);
    assert Remaining([e] + rest, argc) == Remaining(rest, argc);
    hide Remaining;
    var head: seq<nat> := if e.item.Positional? then [e.index] else [];
    assert head + PositionalIn(rest) + Remaining(rest, argc) == head + (PositionalIn(rest) + Remaining(rest, argc));
  }

  lemma {:induction false} ScanPositional(w: World, argv: seq<string>, i: nat)
    ensures PositionalIn(Scan(w, argv, i)) + Remaining(Scan(w, argv, i), |argv|) == PositionalFrom(w, argv, i)
    decreases |argv| - i
  {
    hide ItemAt, Range;
    if i < |argv| {
      var item := ItemAt(w, argv, i);
      var e := Event(item, true, i);
      if item.Terminator? {
        assert Scan(w, argv, i) == [e] + [];
        PositionalJoin(e, []);
        assert [] + [] + Range(i + 1, |argv|) == Range(i + 1, |argv|);
      } else {
        ScanPositional(w, argv, After(item, i));
        PositionalStepScan(e, Scan(w, argv, After(item, i)), |argv|, PositionalFrom(w, argv, After(item, i)));
        hide PositionalIn, Remaining;
      }
    }
  }

  lemma {:induction false} PositionalNested(trace: seq<Event>)
    requires forall j :: 0 <= j < |trace| ==> !trace[j].item.Positional?
    ensures PositionalIn(trace) == []
  {
    if trace != [] {
      PositionalNested(trace[..|trace| - 1]);
    }
  }

  /**
   * The arguments of argv that a finished parse processes, and the positional output, are those of
   * argv scanned alone.
   */
  lemma {:induction false} ArgvOfExpansion(w: World, depth: nat, argv: seq<string>, values: Values, pending: Pending)
    requires Expansion(w, depth, argv, values, pending).Finished?
    ensures var trace := Expansion(w, depth, argv, values, pending).trace;
            OfArgv(trace) == Scan(w, argv, 1)
            && PositionalIn(trace) + Remaining(trace, |argv|) == PositionalFrom(w, argv, 1)
  {
    hide Expand, ExpandAll, Scan, PositionalFrom, Remaining, OfArgv, PositionalIn, Loads;
    var lists := Loads(w, FlagMachine.Start(argv, values, pending).mem).lists;
    var before := ExpandAll(w, depth, lists).trace;
    var own := Expand(w, depth, argv, 1, true).trace;
    NestedAll(w, depth, lists);
    TraceIsShaped(w, depth, argv, 1);
    OfArgvNested(before);
    ArgvIsScanned(w, depth, argv, 1);
    OfArgvJoin(before, own);
    assert [] + OfArgv(own) == OfArgv(own);
    assert Shaped(before + own);
    PositionalOfArgv(before + own);
    RemainingOfArgv(before + own, |argv|);
    ScanPositional(w, argv, 1);
  }
}

/**
 The flag registry: a hash map of flags, turned once into a vector sorted by name.

 After finalization lookups search the vector first and fall back to the map, which then only
 holds late registrations. Whatever the history, lookups find the flag that was first registered.
 */
module FlagReflection {
  import opened Options
  import opened StringOrder

  /** A flag object; `id` stands for its address. */
  datatype Flag = Flag(id: nat, name: string, retired: bool, typeId: nat, filename: string)

  datatype Registry = Registry(flags: map<string, Flag>, flat: seq<Flag>, finalized: bool)

  const EMPTY := Registry(map[], [], false)

  // Registration either leaves a registry or ends the process.
  datatype Outcome = Registered(reg: Registry) | Exit

  function Names(flags: seq<Flag>): (names: seq<string>)
    ensures |names| == |flags| && forall i :: 0 <= i < |flags| ==> names[i] == flags[i].name
  {
    seq(|flags|, i requires 0 <= i < |flags| => flags[i].name)
  }

  /** Strictly sorted by name: no two flags share one. */
  ghost predicate StrictlySorted(flags: seq<Flag>) {
    forall i, j :: 0 <= i < j < |flags| ==> Less(flags[i].name, flags[j].name)
  }

  predicate WellFormed(flags: map<string, Flag>) {
    forall name :: name in flags ==> flags[name].name == name
  }

  ghost predicate Valid(reg: Registry) {
    && WellFormed(reg.flags)
    && StrictlySorted(reg.flat)
    && (!reg.finalized ==> reg.flat == [])
  }

  // ----- What each operation does to the registry

  /** Is a second flag of the same name let pass? */
  predicate Harmless(flag: Flag, oldFlag: Flag) {
    flag.retired == oldFlag.retired && flag.typeId == oldFlag.typeId && oldFlag.retired
  }

  /** `normalized` is the normalized file the flag is registered from, if one is given. */
  function Register(reg: Registry, flag: Flag, normalized: Option<string>): Outcome {
    if normalized.Some? && flag.filename != normalized.value then Exit
    else if flag.name !in reg.flags then Registered(reg.(flags := reg.flags[flag.name := flag]))
    else if Harmless(flag, reg.flags[flag.name]) then Registered(reg)
    else Exit
  }

  ghost function InsertFlag(flag: Flag, flags: seq<Flag>): (r: seq<Flag>)
    ensures multiset(r) == multiset{flag} + multiset(flags)
  {
    if flags == [] || Less(flag.name, flags[0].name) then [flag] + flags
    else
      assert flags == [flags[0]] + flags[1..];
      [flags[0]] + InsertFlag(flag, flags[1..])
  }

  /** The flags of a map in order of their names. */
  ghost function Flatten(flags: map<string, Flag>): seq<Flag>
    decreases |flags|
  {
    if flags == map[] then []
    else var name :| name in flags; InsertFlag(flags[name], Flatten(flags - {name}))
  }

  ghost function Finalize(reg: Registry): Registry {
    if reg.finalized then reg else Registry(map[], Flatten(reg.flags), true)
  }

  function LookUp(flags: map<string, Flag>, name: string): Option<Flag> {
    if name in flags then Some(flags[name]) else None
  }

  /** The flag a search of the sorted vector would find. */
  ghost function FindFlat(flat: seq<Flag>, name: string): Option<Flag> {
    if exists i :: 0 <= i < |flat| && flat[i].name == name then
      var i :| 0 <= i < |flat| && flat[i].name == name;
      Some(flat[i])
    else None
  }

  ghost function Find(reg: Registry, name: string): Option<Flag> {
    if reg.finalized && FindFlat(reg.flat, name).Some? then FindFlat(reg.flat, name)
    else LookUp(reg.flags, name)
  }

  /** The flags ForEachFlag visits, with multiplicity. */
  ghost function Visited(reg: Registry): multiset<Flag> {
    (if reg.finalized then multiset(reg.flat) else multiset{}) + multiset(reg.flags.Values)
  }

  // ----- Flattening a map gives its flags, strictly sorted

  lemma {:induction false} InsertFlagSorted(flag: Flag, flags: seq<Flag>)
    requires StrictlySorted(flags) && forall i :: 0 <= i < |flags| ==> flags[i].name != flag.name
    ensures StrictlySorted(InsertFlag(flag, flags))
  {
    if flags != [] {
      if Less(flag.name, flags[0].name) {
        forall j | 0 <= j < |flags| ensures Less(flag.name, flags[j].name) {
          if j > 0 {
            LessTransitive(flag.name, flags[0].name, flags[j].name);
          }
        }
      } else {
        InsertFlagSorted(flag, flags[1..]);
        LessTotal(flag.name, flags[0].name);
        InsertFlagAbove(flags[0].name, flag, flags[1..]);
      }
    }
  }

  lemma {:induction false} InsertFlagAbove(low: string, flag: Flag, flags: seq<Flag>)
    requires Less(low, flag.name) && forall i :: 0 <= i < |flags| ==> Less(low, flags[i].name)
    ensures forall j :: 0 <= j < |InsertFlag(flag, flags)| ==> Less(low, InsertFlag(flag, flags)[j].name)
  {
    var r := InsertFlag(flag, flags);
    forall j | 0 <= j < |r| ensures Less(low, r[j].name) {
      assert r[j] in multiset(r);
      assert r[j] == flag || r[j] in flags;
    }
  }

  lemma {:induction false} FlattenSorted(flags: map<string, Flag>)
    requires WellFormed(flags)
    ensures StrictlySorted(Flatten(flags))
    ensures multiset(Flatten(flags)) == multiset(flags.Values)
    decreases |flags|
  {
    hide StrictlySorted, InsertFlag;
    if flags == map[] {
      EmptySorted();
    } else {
      var name :| name in flags && Flatten(flags) == InsertFlag(flags[name], Flatten(flags - {name}));
      var rest := flags - {name};
      var flat := Flatten(rest);
      FlattenSorted(rest);
      hide Flatten;
      forall i | 0 <= i < |flat| ensures flat[i].name != name {
        assert flat[i] in multiset(flat);
      }
      InsertFlagSorted(flags[name], flat);
      ValuesSplit(flags, name);
    }
  }

  lemma EmptySorted()
    ensures StrictlySorted([])
  {
  }

  lemma {:induction false} ValuesSplit(flags: map<string, Flag>, name: string)
    requires WellFormed(flags) && name in flags
    ensures multiset(flags.Values) == multiset{flags[name]} + multiset((flags - {name}).Values)
  {
    var rest := flags - {name};
    assert flags[name] !in rest.Values;
    assert flags.Values == {flags[name]} + rest.Values by {
      forall f | f in flags.Values ensures f in {flags[name]} + rest.Values {
        var k :| k in flags && flags[k] == f;
        assert k != name ==> k in rest;
      }
    }
  }

  lemma LeastFirst(a: seq<Flag>, f: Flag)
    requires StrictlySorted(a) && f in a
    ensures f == a[0] || Less(a[0].name, f.name)
  {
  }

  lemma {:induction false} Tail(a: seq<Flag>)
    requires a != []
    ensures StrictlySorted(a) ==> StrictlySorted(a[1..])
    ensures multiset(a[1..]) == multiset(a) - multiset{a[0]}
  {
    assert a == [a[0]] + a[1..];
  }

  /** Two strictly sorted arrangements of the same flags are the same. */
  lemma {:induction false} SortedUnique(a: seq<Flag>, b: seq<Flag>)
    requires StrictlySorted(a) && StrictlySorted(b) && multiset(a) == multiset(b)
    ensures a == b
  {
    hide StrictlySorted;
    assert |multiset(a)| == |a| && |multiset(b)| == |b|;
    if a != [] {
      assert a[0] in multiset(b) && b[0] in multiset(a);
      LeastFirst(a, b[0]);
      LeastFirst(b, a[0]);
      if a[0] != b[0] {
        LessTransitive(a[0].name, b[0].name, a[0].name);
        LessIrreflexive(a[0].name);
      }
      Tail(a);
      Tail(b);
      SortedUnique(a[1..], b[1..]);
      assert a == [a[0]] + a[1..] && b == [b[0]] + b[1..];
    }
  }

  // ----- Runs: any interleaving of registrations and finalizations that does not exit

  datatype Operation = DoRegister(flag: Flag, normalized: Option<string>) | DoFinalize

  ghost function Perform(reg: Registry, op: Operation): Outcome {
    match op
    case DoRegister(flag, normalized) => Register(reg, flag, normalized)
    case DoFinalize => Registered(Finalize(reg))
  }

  ghost function Run(ops: seq<Operation>): Outcome {
    if ops == [] then Registered(EMPTY)
    else match Run(ops[..|ops| - 1])
      case Exit => Exit
      case Registered(reg) => Perform(reg, ops[|ops| - 1])
  }

  lemma {:induction false} RunStep(before: seq<Operation>, op: Operation)
    ensures Run(before + [op])
         == if Run(before).Registered? then Perform(Run(before).reg, op) else Exit
  {
    hide Perform;
    assert (before + [op])[..|before|] == before;
  }

  lemma RunNothing()
    ensures Run([]) == Registered(EMPTY)
  {
  }

  /** Every flag ever passed to RegisterFlag, in order. */
  function History(ops: seq<Operation>): seq<Flag> {
    if ops == [] then []
    else History(ops[..|ops| - 1]) + match ops[|ops| - 1] case DoRegister(flag, _) => [flag] case DoFinalize => []
  }

  /** The flags whose insertion into the map succeeded. */
  ghost function Inserted(ops: seq<Operation>): multiset<Flag>
    requires Run(ops).Registered?
  {
    if ops == [] then multiset{}
    else
      var before := Run(ops[..|ops| - 1]).reg;
      Inserted(ops[..|ops| - 1]) +
      match ops[|ops| - 1]
      case DoRegister(flag, _) => if flag.name in before.flags then multiset{} else multiset{flag}
      case DoFinalize => multiset{}
  }

  /** The plain reference: the first flag registered under a name. */
  function FirstNamed(flags: seq<Flag>, name: string): Option<Flag> {
    if flags == [] then None
    else if flags[0].name == name then Some(flags[0])
    else FirstNamed(flags[1..], name)
  }

  lemma {:induction false} FirstNamedAppend(flags: seq<Flag>, flag: Flag, name: string)
    ensures FirstNamed(flags + [flag], name)
         == if FirstNamed(flags, name).Some? then FirstNamed(flags, name)
            else if flag.name == name then Some(flag) else None
  {
    if flags != [] {
      assert (flags + [flag])[1..] == flags[1..] + [flag];
      FirstNamedAppend(flags[1..], flag, name);
    }
  }

  lemma {:induction false} RunValid(ops: seq<Operation>)
    requires Run(ops).Registered?
    ensures Valid(Run(ops).reg)
  {
    if ops != [] {
      var reg := Run(ops[..|ops| - 1]).reg;
      RunValid(ops[..|ops| - 1]);
      FlattenSorted(reg.flags);
    }
  }

  lemma {:induction false} FindFlatAt(flat: seq<Flag>, i: nat)
    requires StrictlySorted(flat) && i < |flat|
    ensures FindFlat(flat, flat[i].name) == Some(flat[i])
  {
    LessIrreflexive(flat[i].name);
  }

  lemma FindFlatNowhere(flat: seq<Flag>, name: string)
    requires forall i :: 0 <= i < |flat| ==> flat[i].name != name
    ensures FindFlat(flat, name) == None
  {
  }

  lemma {:induction false} FlattenFinds(flags: map<string, Flag>, name: string)
    requires WellFormed(flags)
    ensures FindFlat(Flatten(flags), name) == LookUp(flags, name)
  {
    var flat := Flatten(flags);
    FlattenSorted(flags);
    hide Flatten, StrictlySorted, FindFlat;
    if name in flags {
      assert flags[name] in multiset(flat);
      var i :| 0 <= i < |flat| && flat[i] == flags[name];
      FindFlatAt(flat, i);
    } else {
      forall i | 0 <= i < |flat| ensures flat[i].name != name {
        assert flat[i] in multiset(flat);
      }
      FindFlatNowhere(flat, name);
    }
  }

  /**
   * First registered wins: after any run that has not exited, a lookup returns the first flag ever
   * registered under the name, before, across and after finalization.
   */
  lemma {:induction false} FindsFirstRegistered(ops: seq<Operation>, name: string)
    requires Run(ops).Registered?
    ensures Find(Run(ops).reg, name) == FirstNamed(History(ops), name)
  {
    if ops != [] {
      var before := ops[..|ops| - 1];
      var reg := Run(before).reg;
      RunValid(before);
      FindsFirstRegistered(before, name);
      match ops[|ops| - 1]
      case DoRegister(flag, _) => FirstNamedAppend(History(before), flag, name);
      case DoFinalize =>
        FlattenFinds(reg.flags, name);
        assert History(ops) == History(before);
    }
  }

  lemma {:induction false} InsertedStep(before: seq<Operation>, op: Operation)
    requires Run(before + [op]).Registered?
    ensures Run(before).Registered?
    ensures Inserted(before + [op])
         == Inserted(before) + if op.DoRegister? && op.flag.name !in Run(before).reg.flags then multiset{op.flag} else multiset{}
  {
    RunStep(before, op);
    hide Run, Perform;
    assert (before + [op])[..|before|] == before;
  }

  /** One operation visits what it inserts more than before. */
  lemma {:induction false} VisitedStep(reg: Registry, op: Operation)
    requires Valid(reg) && Perform(reg, op).Registered?
    ensures Visited(Perform(reg, op).reg)
         == Visited(reg) + if op.DoRegister? && op.flag.name !in reg.flags then multiset{op.flag} else multiset{}
  {
    hide Finalize;
    match op
    case DoRegister(flag, _) =>
      if flag.name !in reg.flags {
        ValuesGrow(reg.flags, flag);
      }
    case DoFinalize => FinalizeKeepsVisited(reg);
  }

  /** Conservation: the flags visited are exactly the flags inserted. */
  lemma {:induction false} VisitsInserted(ops: seq<Operation>)
    requires Run(ops).Registered?
    ensures Visited(Run(ops).reg) == Inserted(ops)
  {
    if ops == [] {
      assert EMPTY.flags.Values == {};
    } else {
      var before, op := ops[..|ops| - 1], ops[|ops| - 1];
      assert ops == before + [op];
      RunStep(before, op);
      InsertedStep(before, op);
      RunValid(before);
      VisitsInserted(before);
      hide Run, Perform, Inserted, Visited;
      VisitedStep(Run(before).reg, op);
    }
  }

  lemma {:induction false} ValuesGrow(flags: map<string, Flag>, flag: Flag)
    requires WellFormed(flags) && flag.name !in flags
    ensures multiset(flags[flag.name := flag].Values) == multiset(flags.Values) + multiset{flag}
  {
    var flags' := flags[flag.name := flag];
    assert flags' - {flag.name} == flags;
    ValuesSplit(flags', flag.name);
  }

  lemma {:induction false} FinalizeKeepsVisited(reg: Registry)
    requires Valid(reg)
    ensures Visited(Finalize(reg)) == Visited(reg)
  {
    FlattenSorted(reg.flags);
    assert EMPTY.flags.Values == {};
  }

  // ----- When a second registration of a name ends the process

  /** The operations that decide what the map holds: those after the first finalization. */
  function SinceFinalized(ops: seq<Operation>): seq<Operation> {
    if DoFinalize !in ops then ops
    else if ops[0] == DoFinalize then ops[1..]
    else SinceFinalized(ops[1..])
  }

  lemma {:induction false} SinceFinalizedAppend(ops: seq<Operation>, op: Operation)
    ensures SinceFinalized(ops + [op])
         == if DoFinalize in ops then SinceFinalized(ops) + [op]
            else if op == DoFinalize then [] else ops + [op]
  {
    var all := ops + [op];
    if ops == [] {
      assert all == [op];
    } else if DoFinalize in ops {
      assert DoFinalize in all && all[0] == ops[0];
      assert all[1..] == ops[1..] + [op];
      if ops[0] != DoFinalize {
        assert DoFinalize in ops[1..];
        SinceFinalizedAppend(ops[1..], op);
      }
    } else {
      assert all[1..] == ops[1..] + [op];
      assert DoFinalize !in ops[1..];
      SinceFinalizedAppend(ops[1..], op);
    }
  }

  lemma {:induction false} HistoryAppend(ops: seq<Operation>, op: Operation)
    ensures History(ops + [op]) == if op.DoRegister? then History(ops) + [op.flag] else History(ops)
  {
    assert (ops + [op])[..|ops|] == ops;
  }

  lemma RegisterLookUp(reg: Registry, flag: Flag, normalized: Option<string>, name: string)
    requires Register(reg, flag, normalized).Registered?
    ensures LookUp(Register(reg, flag, normalized).reg.flags, name)
         == if LookUp(reg.flags, name).Some? then LookUp(reg.flags, name)
            else if flag.name == name then Some(flag) else None
  {
  }

  lemma {:induction false} RecentStep(before: seq<Operation>, op: Operation, reg: Registry, name: string)
    requires reg.finalized <==> DoFinalize in before
    requires LookUp(reg.flags, name) == FirstNamed(History(SinceFinalized(before)), name)
    requires Perform(reg, op).Registered?
    ensures LookUp(Perform(reg, op).reg.flags, name) == FirstNamed(History(SinceFinalized(before + [op])), name)
    ensures Perform(reg, op).reg.finalized <==> DoFinalize in before + [op]
  {
    var recent := SinceFinalized(before);
    SinceFinalizedAppend(before, op);
    hide SinceFinalized, Flatten, History;
    HistoryAppend(recent, op);
    NoHistory();
    match op
    case DoRegister(flag, normalized) =>
      FirstNamedAppend(History(recent), flag, name);
      SinceFinalizedNone(before);
      RegisterLookUp(reg, flag, normalized, name);
    case DoFinalize =>
  }

  lemma NoHistory()
    ensures History([]) == []
  {
  }

  lemma SinceFinalizedNone(ops: seq<Operation>)
    ensures DoFinalize !in ops ==> SinceFinalized(ops) == ops
  {
  }

  /** The map holds the first flag of a name since the first finalization (or ever, before one). */
  lemma {:induction false} MapHoldsRecent(ops: seq<Operation>, name: string)
    requires Run(ops).Registered?
    ensures Run(ops).reg.finalized <==> DoFinalize in ops
    ensures LookUp(Run(ops).reg.flags, name) == FirstNamed(History(SinceFinalized(ops)), name)
  {
    hide LookUp, History, SinceFinalized, FirstNamed, Run, Perform;
    if ops == [] {
      RunNothing();
      SinceFinalizedNone(ops);
      NoHistory();
      EmptyLookUp(name);
    } else {
      var before, op := ops[..|ops| - 1], ops[|ops| - 1];
      assert ops == before + [op];
      RunStep(before, op);
      MapHoldsRecent(before, name);
      RecentStep(before, op, Run(before).reg, name);
    }
  }

  lemma EmptyLookUp(name: string)
    ensures LookUp(EMPTY.flags, name) == FirstNamed([], name)
  {
  }

  /**
   * A registration ends the process exactly when the flag does not come from the file it names, or
   * when its name was registered since the first finalization and the two flags are not retired flags
   * of one type. Anything registered only before finalization is no longer compared.
   */
  lemma {:induction false} DuplicateExits(ops: seq<Operation>, flag: Flag, normalized: Option<string>)
    requires Run(ops).Registered?
    ensures var earlier := FirstNamed(History(SinceFinalized(ops)), flag.name);
            Register(Run(ops).reg, flag, normalized).Exit? <==>
              || (normalized.Some? && flag.filename != normalized.value)
              || (earlier.Some?
                  && !(flag.retired && earlier.value.retired && flag.typeId == earlier.value.typeId))
  {
    MapHoldsRecent(ops, flag.name);
  }

  // A registration as the macros make it, from the file of the flag.
  function Definition(flag: Flag): Operation {
    DoRegister(flag, Some(flag.filename))
  }

  /** So of any two definitions that may not stand together, the later passes unnoticed after finalization. */
  lemma {:induction false} LateDuplicateMissed(a: Flag, b: Flag)
    requires a.name == b.name && !(a.retired && b.retired && a.typeId == b.typeId)
    ensures Run([Definition(a), Definition(b)]).Exit?
    ensures Run([Definition(a), DoFinalize, Definition(b)]).Registered?
    ensures Find(Run([Definition(a), DoFinalize, Definition(b)]).reg, a.name) == Some(a)
  {
    var one := [Definition(a)];
    assert one[..0] == [];
    assert Run(one) == Registered(Registry(map[a.name := a], [], false));
    var two := [Definition(a), DoFinalize];
    assert two[..1] == one;
    assert Run(two).Registered? && Run(two).reg.flags == map[];
    var three := [Definition(a), DoFinalize, Definition(b)];
    assert three[..2] == two;
    SecondDefinition(a, b);
    FindsFirstRegistered(three, a.name);
    hide Run;
    assert one + [DoFinalize] == two && two + [Definition(b)] == three;
    HistoryAppend([], Definition(a));
    assert [] + [Definition(a)] == one;
    HistoryAppend(one, DoFinalize);
    HistoryAppend(two, Definition(b));
  }

  /** Two definitions of one name stand together exactly if both are retired and of one type; the first stays. */
  lemma {:induction false} SecondDefinition(a: Flag, b: Flag)
    requires a.name == b.name
    ensures Run([Definition(a), Definition(b)])
         == if a.retired && b.retired && a.typeId == b.typeId then Registered(Registry(map[a.name := a], [], false)) else Exit
  {
    var one, two := [Definition(a)], [Definition(a), Definition(b)];
    assert one[..0] == [] && two[..1] == one;
    assert Run(one) == Registered(Registry(map[a.name := a], [], false));
  }

  // ----- The registry object

  class FlagRegistry {
    var flags: map<string, Flag>
    var flatFlags: seq<Flag>
    var finalizedFlags: bool

    ghost function State(): Registry
      reads this
    {
      Registry(flags, flatFlags, finalizedFlags)
    }

    constructor ()
      ensures State() == EMPTY
    {
      flags, flatFlags, finalizedFlags := map[], [], false;
    }

    /** The flag of that name, or None; the vector is searched by halving. */
    method FindFlag(name: string) returns (flag: Option<Flag>)
      requires Valid(State())
      ensures flag == Find(State(), name)
    {
      if finalizedFlags {
        SortedNames(flatFlags);
        var it := LowerBound(Names(flatFlags), name);
        LowerBoundFinds(flatFlags, name, it);
        if it < |flatFlags| && flatFlags[it].name == name {
          return Some(flatFlags[it]);
        }
      }
      flag := LookUp(flags, name);
    }

    /** Lookups by the public function, which refuses the empty name. */
    method FindCommandLineFlag(name: string) returns (flag: Option<Flag>)
      requires Valid(State())
      ensures flag == if name == "" then None else Find(State(), name)
    {
      if name == "" {
        return None;
      }
      flag := FindFlag(name);
    }

    method RegisterFlag(flag: Flag, normalized: Option<string>) returns (exited: bool)
      requires Valid(State())
      modifies this
      ensures Register(old(State()), flag, normalized) == if exited then Exit else Registered(State())
      ensures Valid(State())
    {
      if normalized.Some? && flag.filename != normalized.value {
        return true;
      }
      if flag.name !in flags {
        flags := flags[flag.name := flag];
        return false;
      }
      var oldFlag := flags[flag.name];
      if flag.retired != oldFlag.retired {
        return true;
      } else if flag.typeId != oldFlag.typeId {
        return true;
      } else if oldFlag.retired {
        return false;
      }
      return true;
    }

    method FinalizeRegistry()
      requires Valid(State())
      modifies this
      ensures State() == Finalize(old(State())) && Valid(State())
    {
      if finalizedFlags {
        return;
      }
      hide Flatten, StrictlySorted;
      var values := FlagsOf(flags);
      flatFlags := flatFlags + values;
      assert flatFlags == values;
      FlattenSorted(flags);
      DistinctNames(flags, values);
      flatFlags := SortFlags(flatFlags);
      SortedUnique(flatFlags, Flatten(flags));
      flags := map[];
      finalizedFlags := true;
    }

    /** The flags in the order a visitor sees them. */
    method ForEachFlag() returns (visited: seq<Flag>)
      requires Valid(State())
      ensures multiset(visited) == Visited(State())
    {
      visited := if finalizedFlags then flatFlags else [];
      var rest := FlagsOf(flags);
      visited := visited + rest;
    }
  }

  /** The values of a map, in whatever order it yields them. */
  method FlagsOf(flags: map<string, Flag>) returns (values: seq<Flag>)
    requires WellFormed(flags)
    ensures multiset(values) == multiset(flags.Values)
  {
    values := [];
    var rest := flags;
    assert EMPTY.flags.Values == {};
    while rest != map[]
      invariant WellFormed(rest)
      invariant multiset(values) + multiset(rest.Values) == multiset(flags.Values)
      decreases |rest|
    {
      var name :| name in rest;
      ValuesSplit(rest, name);
      values := values + [rest[name]];
      rest := rest - {name};
    }
  }

  lemma {:induction false} DistinctNames(flags: map<string, Flag>, values: seq<Flag>)
    requires WellFormed(flags) && multiset(values) == multiset(flags.Values)
    ensures forall i, j :: 0 <= i < j < |values| ==> values[i].name != values[j].name
  {
    forall i, j | 0 <= i < j < |values| ensures values[i].name != values[j].name {
      assert values[i] in multiset(values) && values[j] in multiset(values);
      assert multiset(flags.Values)[values[i]] <= 1;
      if values[i] == values[j] {
        RepeatCounts(values, i, j);
      }
    }
  }

  lemma {:induction false} RepeatCounts(values: seq<Flag>, i: nat, j: nat)
    requires i < j < |values| && values[i] == values[j]
    ensures multiset(values)[values[i]] >= 2
  {
    assert values == values[..i] + [values[i]] + values[i + 1..];
    assert values[j] in values[i + 1..];
  }

  /** std::sort by name. */
  method SortFlags(flags: seq<Flag>) returns (sorted: seq<Flag>)
    requires forall i, j :: 0 <= i < j < |flags| ==> flags[i].name != flags[j].name
    ensures StrictlySorted(sorted) && multiset(sorted) == multiset(flags)
  {
    sorted := [];
    for k := 0 to |flags|
      invariant StrictlySorted(sorted) && multiset(sorted) == multiset(flags[..k])
    {
      assert flags[..k + 1] == flags[..k] + [flags[k]];
      var flag := flags[k];
      forall i | 0 <= i < |sorted| ensures sorted[i].name != flag.name {
        assert sorted[i] in multiset(flags[..k]);
      }
      InsertFlagSorted(flag, sorted);
      sorted := InsertInto(flag, sorted);
    }
    assert flags[..|flags|] == flags;
  }

  method InsertInto(flag: Flag, flags: seq<Flag>) returns (r: seq<Flag>)
    ensures r == InsertFlag(flag, flags)
  {
    if flags == [] || Less(flag.name, flags[0].name) {
      r := [flag] + flags;
    } else {
      var rest := InsertInto(flag, flags[1..]);
      r := [flags[0]] + rest;
    }
  }

  lemma {:induction false} SortedNames(flat: seq<Flag>)
    requires StrictlySorted(flat)
    ensures Sorted(Names(flat))
  {
    forall i, j | 0 <= i < j < |flat| ensures !Less(flat[j].name, flat[i].name) {
      if Less(flat[j].name, flat[i].name) {
        LessTransitive(flat[i].name, flat[j].name, flat[i].name);
        LessIrreflexive(flat[i].name);
      }
    }
  }

  lemma {:induction false} LowerBoundFinds(flat: seq<Flag>, name: string, it: nat)
    requires StrictlySorted(flat) && it <= |flat|
    requires forall i :: 0 <= i < it ==> Less(flat[i].name, name)
    requires forall i :: it <= i < |flat| ==> !Less(flat[i].name, name)
    ensures FindFlat(flat, name) == if it < |flat| && flat[it].name == name then Some(flat[it]) else None
  {
    LessIrreflexive(name);
  }
}

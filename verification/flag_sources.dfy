/**
 When an expansion is finite: the files and variables a command line leads to, followed with the set
 of those now being expanded. A source met again inside its own expansion is never finished with;
 without that every expansion ends, at a depth no greater than the number of sources.
 */
module FlagSources {
  import opened Options
  import opened Marshalling
  import opened FlagArguments
  import opened FlagExpansion

  datatype Source = File(name: string) | Variable(name: string)

  /** What the variable for a flag puts into an argument list. */
  function VariableItem(w: World, name: string): Item
    requires EnvName(name) in w.env
  {
    Classify(w, EnvArgument(name, w.env[EnvName(name)]), None)
  }

  /** The names, among those asked for, whose variables are there. */
  function Present(w: World, names: seq<string>): (present: seq<string>)
    ensures forall k :: 0 <= k < |present| ==> EnvName(present[k]) in w.env && present[k] in names
  {
    if names == [] then []
    else
      var last := names[|names| - 1];
      Present(w, names[..|names| - 1]) + if EnvName(last) in w.env then [last] else []
  }

  function VariableList(w: World, present: seq<string>): (args: seq<string>)
    requires forall k :: 0 <= k < |present| ==> EnvName(present[k]) in w.env
    ensures |args| == |present| + 1
  {
    [""] + seq(|present|, k requires 0 <= k < |present| => EnvArgument(present[k], w.env[EnvName(present[k])]))
  }

  lemma {:induction false} EnvListIsVariables(w: World, names: seq<string>, required: bool)
    requires EnvArguments(w, names, required).Some?
    ensures [""] + EnvArguments(w, names, required).value == VariableList(w, Present(w, names))
  {
    hide EnvName, EnvArgument, VariableList;
    if names == [] {
      NoVariables(w);
    } else {
      var front := names[..|names| - 1];
      var name := names[|names| - 1];
      EnvListIsVariables(w, front, required);
      var values := EnvArguments(w, front, required).value;
      if EnvName(name) in w.env {
        OneVariableMore(w, Present(w, front), name);
        assert [""] + (values + [EnvArgument(name, w.env[EnvName(name)])])
            == [""] + values + [EnvArgument(name, w.env[EnvName(name)])];
      } else {
        assert Present(w, front) + [] == Present(w, front) && values + [] == values;
      }
    }
  }

  lemma NoVariables(w: World)
    ensures VariableList(w, []) == [""]
  {
  }

  lemma OneVariableMore(w: World, present: seq<string>, name: string)
    requires forall k :: 0 <= k < |present| ==> EnvName(present[k]) in w.env
    requires EnvName(name) in w.env
    ensures VariableList(w, present + [name]) == VariableList(w, present) + [EnvArgument(name, w.env[EnvName(name)])]
  {
  }

  /** Every variable's argument is read as the variable alone says, wherever it stands. */
  lemma {:induction false} VariableAt(w: World, present: seq<string>, k: nat)
    requires forall j :: 0 <= j < |present| ==> EnvName(present[j]) in w.env
    requires k < |present|
    ensures ItemAt(w, VariableList(w, present), k + 1) == VariableItem(w, present[k])
    ensures After(VariableItem(w, present[k]), k + 1) == k + 2
  {
    hide Classify;
    var args := VariableList(w, present);
    var arg := EnvArgument(present[k], w.env[EnvName(present[k])]);
    assert args[k + 1] == arg;
    NoLookAhead(w, arg, Next(args, k + 1));
    NoneConsumed(w, arg);
  }

  lemma NoneConsumed(w: World, arg: string)
    ensures After(Classify(w, arg, None), 0) == 1
  {
    hide SplitNameAndValue, LocateFlag, LooksPositional;
  }

  // ----- Looking ahead

  /** All files and variables there are. */
  function Sources(w: World): set<Source> {
    (set file | file in w.files :: File(file)) + (set key | key in w.env && |key| >= 6 :: Variable(key[6..]))
  }

  lemma {:induction false} SourcesListed(w: World)
    ensures forall file :: file in w.files ==> File(file) in Sources(w)
    ensures forall name :: EnvName(name) in w.env ==> Variable(name) in Sources(w)
  {
    forall name | EnvName(name) in w.env ensures Variable(name) in Sources(w) {
      assert EnvName(name)[6..] == name;
    }
  }

  // How an expansion will end: normally, with a failed check, or never.
  datatype Verdict = Ends | Fails | Loops

  function Before(a: Verdict, b: Verdict): Verdict {
    if a.Ends? then b else a
  }

  /** Arguments from position i on, inside the expansion of the sources in `active`. */
  function Probe(w: World, active: set<Source>, args: seq<string>, i: nat, fromArgv: bool): Verdict
    decreases Sources(w) - active, 3, |args| - i
  {
    if i >= |args| then Ends
    else
      var e := Event(ItemAt(w, args, i), fromArgv, i);
      if Misplaced(e) then Fails
      else if e.item.Terminator? then Ends
      else Before(ProbeItem(w, active, e.item), Probe(w, active, args, After(e.item, i), fromArgv))
  }

  /** What an argument brings in. */
  function ProbeItem(w: World, active: set<Source>, item: Item): Verdict
    decreases Sources(w) - active, 2, 0
  {
    if item.Assign? && Accepts(w, item.flag, item.value) then
      ProbeLoad(w, active, item.flag.name, ParseStrings(item.value))
    else Ends
  }

  function ProbeLoad(w: World, active: set<Source>, generator: string, names: seq<string>): Verdict
    decreases Sources(w) - active, 1, 0
  {
    if generator == FLAGFILE then ProbeFiles(w, active, names)
    else if (generator == FROMENV || generator == TRYFROMENV)
            && names != [] && EnvArguments(w, names, generator == FROMENV).Some? then
      ProbeVariables(w, active, Present(w, names))
    else Ends
  }

  function ProbeFiles(w: World, active: set<Source>, files: seq<string>): Verdict
    decreases Sources(w) - active, 0, |files|
  {
    if files == [] then Ends
    else
      var file := files[0];
      var rest := ProbeFiles(w, active, files[1..]);
      if FileList(w, file).None? then rest
      else if File(file) in active then Loops
      else
        SourcesListed(w);
        Before(Probe(w, active + {File(file)}, FileList(w, file).value, 1, false), rest)
  }

  function ProbeVariables(w: World, active: set<Source>, present: seq<string>): Verdict
    requires forall k :: 0 <= k < |present| ==> EnvName(present[k]) in w.env
    decreases Sources(w) - active, 0, |present|
  {
    if present == [] then Ends
    else
      var name := present[0];
      var item := VariableItem(w, name);
      if Misplaced(Event(item, false, 0)) then Fails
      else if Variable(name) in active then Loops
      else
        SourcesListed(w);
        Before(ProbeItem(w, active + {Variable(name)}, item), ProbeVariables(w, active, present[1..]))
  }

  // ----- Without a source met again the expansion ends as foreseen

  /** Does an outcome end as a verdict says? */
  predicate Matches(v: Verdict, o: Outcome) {
    match v
    case Ends => o.Finished?
    case Fails => o.Aborted?
    case Loops => true
  }

  lemma MatchesThen(v: Verdict, o: Outcome, v': Verdict, o': Outcome)
    requires Matches(v, o) && (v.Ends? ==> Matches(v', o'))
    ensures Matches(Before(v, v'), Then(o, o'))
  {
  }

  /** How many sources are not being expanded: as deep as lists can still go. */
  function Unused(w: World, active: set<Source>): nat {
    |Sources(w) - active|
  }

  lemma {:induction false} OneUsed(w: World, active: set<Source>, s: Source)
    requires s in Sources(w) && s !in active
    ensures Unused(w, active) == Unused(w, active + {s}) + 1
  {
    assert Sources(w) - active == (Sources(w) - (active + {s})) + {s};
  }

  lemma {:induction false} ProbeMatches(w: World, active: set<Source>, args: seq<string>, i: nat, fromArgv: bool)
    ensures Matches(Probe(w, active, args, i, fromArgv), Expand(w, Unused(w, active) + 1, args, i, fromArgv))
    decreases Sources(w) - active, 3, |args| - i
  {
    hide ItemAt, Generated, ProbeItem, Unused, Nested;
    if i < |args| {
      var e := Event(ItemAt(w, args, i), fromArgv, i);
      if !Misplaced(e) && !e.item.Terminator? {
        var depth := Unused(w, active) + 1;
        var nested := Nested(w, depth, Generated(w, e.item).lists);
        var rest := Expand(w, depth, args, After(e.item, i), fromArgv);
        ProbeItemMatches(w, active, e.item);
        ProbeMatches(w, active, args, After(e.item, i), fromArgv);
        Unfold(w, depth, args, i, fromArgv);
        hide Expand, Probe, Matches;
        MatchesThen(ProbeItem(w, active, e.item), nested, Probe(w, active, args, After(e.item, i), fromArgv), rest);
        OneFirst(e, Before(ProbeItem(w, active, e.item), Probe(w, active, args, After(e.item, i), fromArgv)),
                 Then(nested, rest));
      }
    }
  }

  lemma OneFirst(e: Event, v: Verdict, o: Outcome)
    requires Matches(v, o)
    ensures Matches(v, Then(Finished([e]), o))
  {
  }

  lemma {:induction false} ProbeItemMatches(w: World, active: set<Source>, item: Item)
    ensures Matches(ProbeItem(w, active, item), Nested(w, Unused(w, active) + 1, Generated(w, item).lists))
    decreases Sources(w) - active, 2, 0
  {
    hide Accepts, ParseStrings, Load, ProbeLoad, ExpandAll, Unused;
    NestedUnfolds(w, Unused(w, active) + 1, Generated(w, item).lists);
    hide Nested;
    if item.Assign? && Accepts(w, item.flag, item.value) {
      ProbeLoadMatches(w, active, item.flag.name, ParseStrings(item.value));
      NestedUnfolds(w, Unused(w, active), []);
    }
  }

  lemma {:induction false} ProbeLoadMatches(w: World, active: set<Source>, generator: string, names: seq<string>)
    ensures Matches(ProbeLoad(w, active, generator, names), ExpandAll(w, Unused(w, active), Load(w, generator, names).lists))
    decreases Sources(w) - active, 1, 0
  {
    hide Unused, LoadFiles, ProbeFiles, ProbeVariables, EnvArguments, Expand;
    var depth := Unused(w, active);
    if generator == FLAGFILE {
      ProbeFilesMatches(w, active, names);
      NoFilesLoaded(w);
    } else if generator == FROMENV || generator == TRYFROMENV {
      var required := generator == FROMENV;
      if names != [] && EnvArguments(w, names, required).Some? {
        var present := Present(w, names);
        EnvListIsVariables(w, names, required);
        hide VariableList, Present;
        ProbeVariablesMatches(w, active, present, 0);
        assert present[0..] == present;
        ExpandOne(w, depth, VariableList(w, present));
      }
    }
  }

  lemma NoFilesLoaded(w: World)
    ensures LoadFiles(w, []) == NOTHING
  {
  }

  lemma {:induction false} ExpandOne(w: World, depth: nat, list: seq<string>)
    ensures ExpandAll(w, depth, [list]) == Expand(w, depth, list, 1, false)
    ensures ExpandAll(w, depth, []) == Finished([])
  {
    hide Expand;
    ThenNothing(Expand(w, depth, list, 1, false));
    assert [list][1..] == [];
  }

  lemma {:induction false} ProbeFilesMatches(w: World, active: set<Source>, files: seq<string>)
    ensures Matches(ProbeFiles(w, active, files), ExpandAll(w, Unused(w, active), LoadFiles(w, files).lists))
    decreases Sources(w) - active, 0, |files|
  {
    hide Probe, Expand, Unused, Matches, Then;
    var depth := Unused(w, active);
    if files == [] {
      FilesNone(w, active);
    } else {
      var file := files[0];
      ProbeFilesMatches(w, active, files[1..]);
      FilesUnfold(w, depth, files);
      if FileList(w, file).Some? {
        SourcesListed(w);
        if File(file) in active {
          LoopsMatches(ExpandAll(w, depth, LoadFiles(w, files).lists));
        } else {
          var list := FileList(w, file).value;
          OneUsed(w, active, File(file));
          ProbeMatches(w, active + {File(file)}, list, 1, false);
          hide ExpandAll, ProbeFiles;
          MatchesThen(Probe(w, active + {File(file)}, list, 1, false), Expand(w, depth, list, 1, false),
                      ProbeFiles(w, active, files[1..]), ExpandAll(w, depth, LoadFiles(w, files[1..]).lists));
        }
      }
    }
  }

  lemma LoopsMatches(o: Outcome)
    ensures Matches(Loops, o)
  {
  }

  lemma FilesNone(w: World, active: set<Source>)
    ensures Matches(ProbeFiles(w, active, []), ExpandAll(w, Unused(w, active), LoadFiles(w, []).lists))
  {
  }

  lemma {:induction false} FilesUnfold(w: World, depth: nat, files: seq<string>)
    requires files != []
    ensures var list := FileList(w, files[0]);
            var rest := ExpandAll(w, depth, LoadFiles(w, files[1..]).lists);
            ExpandAll(w, depth, LoadFiles(w, files).lists) ==
              if list.None? then rest else Then(Expand(w, depth, list.value, 1, false), rest)
  {
    hide FileList, Expand, Then;
    var list := FileList(w, files[0]);
    var rest := LoadFiles(w, files[1..]).lists;
    if list.Some? {
      assert LoadFiles(w, files).lists == [list.value] + rest;
      assert ([list.value] + rest)[1..] == rest;
    } else {
      assert LoadFiles(w, files).lists == [] + rest == rest;
    }
  }

  lemma {:induction false} VariablesUnfold(w: World, active: set<Source>, present: seq<string>, k: nat)
    requires forall j :: 0 <= j < |present| ==> EnvName(present[j]) in w.env
    requires k < |present|
    ensures var item := VariableItem(w, present[k]);
            ProbeVariables(w, active, present[k..]) ==
              if Misplaced(Event(item, false, 0)) then Fails
              else if Variable(present[k]) in active then Loops
              else Before(ProbeItem(w, active + {Variable(present[k])}, item), ProbeVariables(w, active, present[k + 1..]))
  {
    hide ProbeItem, VariableItem, EnvName;
    assert present[k..][1..] == present[k + 1..] && present[k..][0] == present[k];
  }

  /** The rest of a list of variables, from its k-th. */
  lemma {:induction false} ProbeVariablesMatches(w: World, active: set<Source>, present: seq<string>, k: nat)
    requires forall j :: 0 <= j < |present| ==> EnvName(present[j]) in w.env
    requires k <= |present|
    ensures Matches(ProbeVariables(w, active, present[k..]),
                    Expand(w, Unused(w, active), VariableList(w, present), k + 1, false))
    decreases Sources(w) - active, 0, |present| - k
  {
    hide Unused, VariableItem, EnvName, ItemAt, Generated, ProbeItem, Nested, ProbeVariables, Expand, VariableList;
    var args := VariableList(w, present);
    var depth := Unused(w, active);
    if k == |present| {
      assert present[k..] == [];
      VariablesEnd(w, active, args, depth);
    } else {
      var name := present[k];
      var item := VariableItem(w, name);
      var e := Event(item, false, k + 1);
      VariableAt(w, present, k);
      VariablesUnfold(w, active, present, k);
      if Misplaced(e) {
        MisplacedFails(w, depth, args, k + 1);
      } else if Variable(name) !in active {
        VariableSource(w, name);
        OneUsed(w, active, Variable(name));
        var nested := Nested(w, depth, Generated(w, item).lists);
        var rest := Expand(w, depth, args, k + 2, false);
        ProbeItemMatches(w, active + {Variable(name)}, item);
        ProbeVariablesMatches(w, active, present, k + 1);
        Unfold(w, depth, args, k + 1, false);
        var v, v' := ProbeItem(w, active + {Variable(name)}, item), ProbeVariables(w, active, present[k + 1..]);
        hide Matches;
        MatchesThen(v, nested, v', rest);
        OneFirst(e, Before(v, v'), Then(nested, rest));
      }
    }
  }

  lemma VariablesEnd(w: World, active: set<Source>, args: seq<string>, depth: nat)
    ensures ProbeVariables(w, active, []) == Ends
    ensures Expand(w, depth, args, |args|, false) == Finished([])
  {
  }

  lemma MisplacedFails(w: World, depth: nat, args: seq<string>, i: nat)
    requires i < |args| && Misplaced(Event(ItemAt(w, args, i), false, i))
    ensures Expand(w, depth, args, i, false) == Aborted([])
  {
    hide ItemAt;
  }

  lemma VariableSource(w: World, name: string)
    requires EnvName(name) in w.env
    ensures Variable(name) in Sources(w)
  {
    SourcesListed(w);
  }

  // ----- A source met again inside its own expansion is never finished with

  /** The expansion of a source, entered at some depth, is finite. */
  predicate Finite(w: World, s: Source, depth: nat) {
    match s
    case File(name) => FileList(w, name).Some? && Expand(w, depth, FileList(w, name).value, 1, false) != Endless
    case Variable(name) => EnvName(name) in w.env && Nested(w, depth, Generated(w, VariableItem(w, name)).lists) != Endless
  }

  /** A list foreseen to end does so at every depth that suffices. */
  lemma {:induction false} EndsFinished(w: World, active: set<Source>, depth: nat, args: seq<string>, i: nat)
    requires Probe(w, active, args, i, false).Ends? && Expand(w, depth, args, i, false) != Endless
    ensures Expand(w, depth, args, i, false).Finished?
  {
    var enough := Unused(w, active) + 1;
    ProbeMatches(w, active, args, i, false);
    hide Expand, Probe;
    if depth < enough {
      Deeper(w, depth, enough, args, i, false);
    } else {
      Deeper(w, enough, depth, args, i, false);
    }
  }

  lemma {:induction false} ItemEndsFinished(w: World, active: set<Source>, depth: nat, item: Item)
    requires ProbeItem(w, active, item).Ends? && Nested(w, depth, Generated(w, item).lists) != Endless
    ensures Nested(w, depth, Generated(w, item).lists).Finished?
  {
    var enough := Unused(w, active) + 1;
    var lists := Generated(w, item).lists;
    ProbeItemMatches(w, active, item);
    hide Nested, ProbeItem, Generated;
    if depth < enough {
      DeeperNested(w, depth, enough, lists);
    } else {
      DeeperNested(w, enough, depth, lists);
    }
  }

  /**
   * Infinite descent: if a list leads back to a source that is being expanded, then wherever the list
   * is finite that source was finite at a smaller depth.
   */
  lemma {:induction false} Descend(w: World, active: set<Source>, depth: nat, args: seq<string>, i: nat, fromArgv: bool)
    returns (s: Source, d: nat)
    requires Probe(w, active, args, i, fromArgv).Loops? && Expand(w, depth, args, i, fromArgv) != Endless
    ensures s in active && d < depth && Finite(w, s, d)
    decreases depth, 4, |args| - i
  {
    hide Expand, ProbeItem, Nested, ItemAt, Generated, Finite;
    var e := Event(ItemAt(w, args, i), fromArgv, i);
    var lists := Generated(w, e.item).lists;
    var rest := Expand(w, depth, args, After(e.item, i), fromArgv);
    Unfold(w, depth, args, i, fromArgv);
    NotEndless(Finished([e]), Then(Nested(w, depth, lists), rest));
    NotEndless(Nested(w, depth, lists), rest);
    if ProbeItem(w, active, e.item).Loops? {
      s, d := DescendItem(w, active, depth, e.item);
    } else {
      ItemEndsFinished(w, active, depth, e.item);
      s, d := Descend(w, active, depth, args, After(e.item, i), fromArgv);
    }
  }

  lemma {:induction false} DescendItem(w: World, active: set<Source>, depth: nat, item: Item) returns (s: Source, d: nat)
    requires ProbeItem(w, active, item).Loops? && Nested(w, depth, Generated(w, item).lists) != Endless
    ensures s in active && d < depth && Finite(w, s, d)
    decreases depth, 3, 0
  {
    hide Nested, ProbeLoad, Finite, ExpandAll, Load, ParseStrings;
    var lists := Generated(w, item).lists;
    LoopsLoads(w, active, item.flag.name, ParseStrings(item.value));
    NestedUnfolds(w, depth, lists);
    s, d := DescendLoad(w, active, depth - 1, item.flag.name, ParseStrings(item.value));
  }

  /** Nothing loops without a list. */
  lemma {:induction false} LoopsLoads(w: World, active: set<Source>, generator: string, names: seq<string>)
    requires ProbeLoad(w, active, generator, names).Loops?
    ensures Load(w, generator, names).lists != []
  {
    hide Probe, FileList, EnvArguments;
    if generator == FLAGFILE {
      LoopsLoadsFiles(w, active, names);
    }
  }

  lemma {:induction false} LoopsLoadsFiles(w: World, active: set<Source>, files: seq<string>)
    requires ProbeFiles(w, active, files).Loops?
    ensures LoadFiles(w, files).lists != []
  {
    hide Probe, FileList;
    if FileList(w, files[0]).None? {
      LoopsLoadsFiles(w, active, files[1..]);
    }
  }

  lemma {:induction false} DescendLoad(w: World, active: set<Source>, depth: nat, generator: string, names: seq<string>)
    returns (s: Source, d: nat)
    requires ProbeLoad(w, active, generator, names).Loops?
    requires ExpandAll(w, depth, Load(w, generator, names).lists) != Endless
    ensures s in active && d <= depth && Finite(w, s, d)
    decreases depth, 9, 0
  {
    hide LoadFiles, ProbeFiles, ProbeVariables, EnvArguments, Expand, Finite, ExpandAll;
    if generator == FLAGFILE {
      NoFilesLoop(w, active);
      s, d := DescendFiles(w, active, depth, names);
    } else {
      var required := generator == FROMENV;
      var present := Present(w, names);
      EnvListIsVariables(w, names, required);
      hide VariableList, Present;
      assert present[0..] == present;
      ExpandOne(w, depth, VariableList(w, present));
      s, d := DescendVariables(w, active, depth, present, 0);
    }
  }

  lemma NoFilesLoop(w: World, active: set<Source>)
    ensures ProbeFiles(w, active, []) == Ends
  {
  }

  lemma {:induction false} DescendFiles(w: World, active: set<Source>, depth: nat, files: seq<string>)
    returns (s: Source, d: nat)
    requires ProbeFiles(w, active, files).Loops? && ExpandAll(w, depth, LoadFiles(w, files).lists) != Endless
    ensures s in active && d <= depth && Finite(w, s, d)
    decreases depth, 8, |files|
  {
    hide Probe, Expand, ExpandAll, LoadFiles;
    var file := files[0];
    FilesUnfold(w, depth, files);
    if FileList(w, file).None? {
      s, d := DescendFiles(w, active, depth, files[1..]);
    } else {
      var list := FileList(w, file).value;
      NotEndless(Expand(w, depth, list, 1, false), ExpandAll(w, depth, LoadFiles(w, files[1..]).lists));
      if File(file) in active {
        s, d := File(file), depth;
      } else if Probe(w, active + {File(file)}, list, 1, false).Loops? {
        s, d := DescendFile(w, active, depth, file);
      } else {
        EndsFinished(w, active + {File(file)}, depth, list, 1);
        s, d := DescendFiles(w, active, depth, files[1..]);
      }
    }
  }

  /** Should the file lead back to itself, it was finite at a smaller depth already; and so on down. */
  lemma {:induction false} DescendFile(w: World, active: set<Source>, depth: nat, file: string) returns (s: Source, d: nat)
    requires FileList(w, file).Some? && Probe(w, active + {File(file)}, FileList(w, file).value, 1, false).Loops?
    requires Expand(w, depth, FileList(w, file).value, 1, false) != Endless
    ensures s in active && d <= depth && Finite(w, s, d)
    decreases depth, 7, 0
  {
    hide Probe, Expand;
    s, d := Descend(w, active + {File(file)}, depth, FileList(w, file).value, 1, false);
    if s !in active {
      s, d := DescendFile(w, active, d, file);
    }
  }

  lemma {:induction false} DescendVariables(w: World, active: set<Source>, depth: nat, present: seq<string>, k: nat)
    returns (s: Source, d: nat)
    requires forall j :: 0 <= j < |present| ==> EnvName(present[j]) in w.env
    requires k <= |present| && ProbeVariables(w, active, present[k..]).Loops?
    requires Expand(w, depth, VariableList(w, present), k + 1, false) != Endless
    ensures s in active && d <= depth && Finite(w, s, d)
    decreases depth, 8, |present| - k
  {
    hide VariableItem, EnvName, ItemAt, Generated, ProbeItem, Nested, ProbeVariables, Expand, VariableList;
    var args := VariableList(w, present);
    if k == |present| {
      assert present[k..] == [];
      VariablesEnd(w, active, args, depth);
    }
    var name := present[k];
    var item := VariableItem(w, name);
    var lists := Generated(w, item).lists;
    var rest := Expand(w, depth, args, k + 2, false);
    VariableAt(w, present, k);
    VariablesUnfold(w, active, present, k);
    Unfold(w, depth, args, k + 1, false);
    NotEndless(Finished([Event(item, false, k + 1)]), Then(Nested(w, depth, lists), rest));
    NotEndless(Nested(w, depth, lists), rest);
    if Variable(name) in active {
      s, d := Variable(name), depth;
    } else if ProbeItem(w, active + {Variable(name)}, item).Loops? {
      s, d := DescendVariable(w, active, depth, name);
    } else {
      ItemEndsFinished(w, active + {Variable(name)}, depth, item);
      s, d := DescendVariables(w, active, depth, present, k + 1);
    }
  }

  lemma {:induction false} DescendVariable(w: World, active: set<Source>, depth: nat, name: string)
    returns (s: Source, d: nat)
    requires EnvName(name) in w.env && ProbeItem(w, active + {Variable(name)}, VariableItem(w, name)).Loops?
    requires Nested(w, depth, Generated(w, VariableItem(w, name)).lists) != Endless
    ensures s in active && d <= depth && Finite(w, s, d)
    decreases depth, 7, 0
  {
    hide ProbeItem, Nested, Generated, VariableItem, EnvName;
    s, d := DescendItem(w, active + {Variable(name)}, depth, VariableItem(w, name));
    if s !in active {
      s, d := DescendVariable(w, active, d, name);
    }
  }

  /** An argument list on which some source is met again inside its own expansion is endless at every depth. */
  lemma {:induction false} MetAgainIsEndless(w: World, depth: nat, args: seq<string>, i: nat, fromArgv: bool)
    requires Probe(w, {}, args, i, fromArgv).Loops?
    ensures Expand(w, depth, args, i, fromArgv) == Endless
  {
    hide Probe, Expand;
    if Expand(w, depth, args, i, fromArgv) != Endless {
      var s, d := Descend(w, {}, depth, args, i, fromArgv);
    }
  }

  lemma {:induction false} MetAgainInLoad(w: World, depth: nat, generator: string, names: seq<string>)
    requires ProbeLoad(w, {}, generator, names).Loops?
    ensures ExpandAll(w, depth, Load(w, generator, names).lists) == Endless
  {
    hide ProbeLoad, ExpandAll;
    if ExpandAll(w, depth, Load(w, generator, names).lists) != Endless {
      var s, d := DescendLoad(w, {}, depth, generator, names);
    }
  }

  // ----- Ranked sources

  /** Does an argument bring in a source? */
  predicate BringsIn(w: World, item: Item, s: Source) {
    && item.Assign? && Accepts(w, item.flag, item.value)
    && LoadsSource(w, item.flag.name, ParseStrings(item.value), s)
  }

  predicate LoadsSource(w: World, generator: string, names: seq<string>, s: Source) {
    && s.name in names
    && match s
       case File(name) => generator == FLAGFILE && FileList(w, name).Some?
       case Variable(name) =>
         && (generator == FROMENV || generator == TRYFROMENV)
         && EnvArguments(w, names, generator == FROMENV).Some? && EnvName(name) in w.env
  }

  /** Is a source brought in by an argument that processing a list from position i comes to? */
  predicate Reaches(w: World, args: seq<string>, i: nat, fromArgv: bool, s: Source)
    decreases |args| - i
  {
    && i < |args|
    && var item := ItemAt(w, args, i);
       !Misplaced(Event(item, fromArgv, i)) && !item.Terminator?
       && (BringsIn(w, item, s) || Reaches(w, args, After(item, i), fromArgv, s))
  }

  /** What a source holds brings in only sources of lower rank. */
  ghost predicate Ranked(w: World, rank: Source -> nat) {
    && (forall file, s :: FileList(w, file).Some? && Reaches(w, FileList(w, file).value, 1, false, s) ==>
                            rank(s) < rank(File(file)))
    && (forall name, s :: EnvName(name) in w.env && BringsIn(w, VariableItem(w, name), s) ==>
                            rank(s) < rank(Variable(name)))
  }

  ghost predicate Lower(rank: Source -> nat, active: set<Source>, s: Source) {
    forall a :: a in active ==> rank(s) < rank(a)
  }

  lemma LowerStill(rank: Source -> nat, active: set<Source>, s: Source, t: Source)
    requires Lower(rank, active, s) && rank(t) < rank(s)
    ensures Lower(rank, active + {s}, t)
  {
  }

  /** With ranked sources nothing is met again. */
  lemma {:induction false} RankedProbe(w: World, rank: Source -> nat, active: set<Source>,
                                       args: seq<string>, i: nat, fromArgv: bool)
    requires Ranked(w, rank) && forall s :: Reaches(w, args, i, fromArgv, s) ==> Lower(rank, active, s)
    ensures !Probe(w, active, args, i, fromArgv).Loops?
    decreases Sources(w) - active, 3, |args| - i
  {
    hide Ranked, Lower, ItemAt, ProbeItem, BringsIn;
    if i < |args| {
      var item := ItemAt(w, args, i);
      if !Misplaced(Event(item, fromArgv, i)) && !item.Terminator? {
        assert forall s :: BringsIn(w, item, s) ==> Reaches(w, args, i, fromArgv, s);
        RankedItem(w, rank, active, item);
        RankedProbe(w, rank, active, args, After(item, i), fromArgv);
      }
    }
  }

  lemma {:induction false} RankedItem(w: World, rank: Source -> nat, active: set<Source>, item: Item)
    requires Ranked(w, rank) && forall s :: BringsIn(w, item, s) ==> Lower(rank, active, s)
    ensures !ProbeItem(w, active, item).Loops?
    decreases Sources(w) - active, 2, 0
  {
    hide Ranked, Lower, Accepts, ParseStrings, LoadsSource, ProbeLoad;
    if item.Assign? && Accepts(w, item.flag, item.value) {
      forall s | LoadsSource(w, item.flag.name, ParseStrings(item.value), s) ensures Lower(rank, active, s) {
        assert BringsIn(w, item, s);
      }
      RankedLoad(w, rank, active, item.flag.name, ParseStrings(item.value));
    }
  }

  lemma {:induction false} RankedLoad(w: World, rank: Source -> nat, active: set<Source>, generator: string, names: seq<string>)
    requires Ranked(w, rank) && forall s :: LoadsSource(w, generator, names, s) ==> Lower(rank, active, s)
    ensures !ProbeLoad(w, active, generator, names).Loops?
    decreases Sources(w) - active, 1, 0
  {
    hide Ranked, Lower, ProbeFiles, ProbeVariables, FileList, EnvArguments, EnvName;
    if generator == FLAGFILE {
      forall name | name in names && FileList(w, name).Some? ensures Lower(rank, active, File(name)) {
        assert LoadsSource(w, generator, names, File(name));
      }
      RankedFiles(w, rank, active, names);
    } else if (generator == FROMENV || generator == TRYFROMENV)
              && names != [] && EnvArguments(w, names, generator == FROMENV).Some? {
      var present := Present(w, names);
      forall k | 0 <= k < |present| ensures Lower(rank, active, Variable(present[k])) {
        assert LoadsSource(w, generator, names, Variable(present[k]));
      }
      RankedVariables(w, rank, active, present);
    }
  }

  lemma {:induction false} RankedFiles(w: World, rank: Source -> nat, active: set<Source>, files: seq<string>)
    requires Ranked(w, rank)
    requires forall name :: name in files && FileList(w, name).Some? ==> Lower(rank, active, File(name))
    ensures !ProbeFiles(w, active, files).Loops?
    decreases Sources(w) - active, 0, |files|
  {
    hide FileList, Probe, Reaches;
    if files != [] {
      var file := files[0];
      RankedFiles(w, rank, active, files[1..]);
      if FileList(w, file).Some? {
        var list := FileList(w, file).value;
        assert Lower(rank, active, File(file));
        assert File(file) !in active;
        FileInSources(w, file);
        forall s | Reaches(w, list, 1, false, s) ensures Lower(rank, active + {File(file)}, s) {
          LowerStill(rank, active, File(file), s);
        }
        RankedProbe(w, rank, active + {File(file)}, list, 1, false);
      }
    }
  }

  lemma FileInSources(w: World, file: string)
    requires FileList(w, file).Some?
    ensures File(file) in Sources(w)
  {
    SourcesListed(w);
  }

  lemma {:induction false} RankedVariables(w: World, rank: Source -> nat, active: set<Source>, present: seq<string>)
    requires forall k :: 0 <= k < |present| ==> EnvName(present[k]) in w.env
    requires Ranked(w, rank)
    requires forall k :: 0 <= k < |present| ==> Lower(rank, active, Variable(present[k]))
    ensures !ProbeVariables(w, active, present).Loops?
    decreases Sources(w) - active, 0, |present|
  {
    hide VariableItem, EnvName, ProbeItem, BringsIn;
    if present != [] {
      var name := present[0];
      var item := VariableItem(w, name);
      RankedVariables(w, rank, active, present[1..]);
      assert Lower(rank, active, Variable(name));
      assert Variable(name) !in active;
      VariableSource(w, name);
      forall s | BringsIn(w, item, s) ensures Lower(rank, active + {Variable(name)}, s) {
        LowerStill(rank, active, Variable(name), s);
      }
      RankedItem(w, rank, active + {Variable(name)}, item);
    }
  }

  // ----- Cycles

  /** Processing a list from position i comes to another list, everything before it having ended. */
  ghost predicate LeadsTo(w: World, args: seq<string>, i: nat, fromArgv: bool, next: seq<string>)
    decreases |args| - i
  {
    && i < |args|
    && var item := ItemAt(w, args, i);
       var lists := Generated(w, item).lists;
       && !Misplaced(Event(item, fromArgv, i)) && !item.Terminator?
       && ((exists k: nat, d: nat :: k < |lists| && lists[k] == next && ExpandAll(w, d, lists[..k]).Finished?)
           || ((exists d: nat :: Nested(w, d, lists).Finished?) && LeadsTo(w, args, After(item, i), fromArgv, next)))
  }

  /** A list that leads to one endless a level further down is endless. */
  lemma {:induction false} EndlessBefore(w: World, depth: nat, args: seq<string>, i: nat, fromArgv: bool, next: seq<string>)
    requires LeadsTo(w, args, i, fromArgv, next)
    requires depth > 0 ==> Expand(w, depth - 1, next, 1, false) == Endless
    ensures Expand(w, depth, args, i, fromArgv) == Endless
    decreases |args| - i
  {
    hide Expand, ExpandAll, ItemAt, Generated, Nested;
    var e := Event(ItemAt(w, args, i), fromArgv, i);
    var lists := Generated(w, e.item).lists;
    var rest := Expand(w, depth, args, After(e.item, i), fromArgv);
    Unfold(w, depth, args, i, fromArgv);
    NestedUnfolds(w, depth, lists);
    if k: nat, d: nat :| k < |lists| && lists[k] == next && ExpandAll(w, d, lists[..k]).Finished? {
      if depth > 0 {
        EndlessInside(w, depth - 1, d, lists, k);
      }
    } else {
      var d: nat :| Nested(w, d, lists).Finished?;
      EndlessBefore(w, depth, args, After(e.item, i), fromArgv, next);
      if Nested(w, depth, lists) != Endless {
        NestedAgree(w, depth, d, lists);
      }
    }
  }

  lemma {:induction false} NestedAgree(w: World, c: nat, d: nat, lists: seq<seq<string>>)
    requires Nested(w, c, lists) != Endless && Nested(w, d, lists) != Endless
    ensures Nested(w, c, lists) == Nested(w, d, lists)
  {
    hide Nested;
    if c < d {
      DeeperNested(w, c, d, lists);
    } else {
      DeeperNested(w, d, c, lists);
    }
  }

  lemma {:induction false} EndlessInside(w: World, c: nat, d: nat, lists: seq<seq<string>>, k: nat)
    requires k < |lists| && ExpandAll(w, d, lists[..k]).Finished? && Expand(w, c, lists[k], 1, false) == Endless
    ensures ExpandAll(w, c, lists) == Endless
  {
    hide Expand, ExpandAll;
    assert lists == lists[..k] + lists[k..];
    ExpandAllJoin(w, c, lists[..k], lists[k..]);
    EndlessFirst(w, c, lists[k..]);
    if ExpandAll(w, c, lists[..k]) != Endless {
      if c < d {
        DeeperAll(w, c, d, lists[..k]);
      } else {
        DeeperAll(w, d, c, lists[..k]);
      }
    }
  }

  lemma EndlessFirst(w: World, depth: nat, lists: seq<seq<string>>)
    requires lists != [] && Expand(w, depth, lists[0], 1, false) == Endless
    ensures ExpandAll(w, depth, lists) == Endless
  {
  }

  /** Lists that lead round to each other are endless at every depth, and so is whatever leads to them. */
  lemma {:induction false} CycleIsEndless(w: World, depth: nat, cycle: seq<seq<string>>, k: nat)
    requires k < |cycle|
    requires forall j :: 0 <= j < |cycle| ==> LeadsTo(w, cycle[j], 1, false, cycle[if j + 1 < |cycle| then j + 1 else 0])
    ensures Expand(w, depth, cycle[k], 1, false) == Endless
    ensures forall args, i: nat, fromArgv :: LeadsTo(w, args, i, fromArgv, cycle[k]) ==>
                                               Expand(w, depth, args, i, fromArgv) == Endless
    decreases depth
  {
    hide Expand, LeadsTo;
    var next := if k + 1 < |cycle| then k + 1 else 0;
    if depth > 0 {
      CycleIsEndless(w, depth - 1, cycle, next);
      CycleIsEndless(w, depth - 1, cycle, k);
    }
    assert LeadsTo(w, cycle[k], 1, false, cycle[next]);
    EndlessBefore(w, depth, cycle[k], 1, false, cycle[next]);
    forall args, i: nat, fromArgv | LeadsTo(w, args, i, fromArgv, cycle[k])
      ensures Expand(w, depth, args, i, fromArgv) == Endless
    {
      EndlessBefore(w, depth, args, i, fromArgv, cycle[k]);
    }
  }

  // ----- The smallest cycle

  lemma {:induction false} FlagfileArgument(w: World, file: string, next: Option<string>)
    requires Valid(w)
    ensures Classify(w, "--" + (FLAGFILE + "=" + file), next) == Assign(Flag(FLAGFILE, OtherFlag, false), file, true, false)
  {
    hide Classify;
    assert IsListFlag(FLAGFILE);
    ValueForms(w, FLAGFILE, file, next);
  }

  /** What the argument --flagfile=f brings in, when the file f holds just that. */
  lemma {:induction false} SelfInclusion(w: World, args: seq<string>)
    requires Valid(w) && "f" in w.files && w.files["f"] == ["--flagfile=f"] && args == ["", "--flagfile=f"]
    ensures ItemAt(w, args, 1).Assign? && Generated(w, ItemAt(w, args, 1)).lists == [args]
  {
    assert args[1] == "--" + (FLAGFILE + "=" + "f");
    FlagfileArgument(w, "f", Next(args, 1));
    hide Classify, Valid;
    SplitPiece("f", "");
    assert ParseStrings("f") == ["f"];
    hide ParseStrings;
    SelfInclusionFile(w, args);
    hide FileList;
    assert ["f"][1..] == [];
    assert LoadFiles(w, []) == NOTHING;
    assert LoadFiles(w, ["f"]).lists == [args] + [];
  }

  lemma {:induction false} SelfInclusionFile(w: World, args: seq<string>)
    requires "f" in w.files && w.files["f"] == ["--flagfile=f"] && args == ["", "--flagfile=f"]
    ensures FileList(w, "f") == Some(args)
  {
    var lines := ["--flagfile=f"];
    assert lines[..|lines| - 1] == [];
    assert FileArguments([]) == Some([]);
    assert ReadLine(lines[0]) == Argument(lines[0]);
    assert FileArguments(lines) == Some([] + [lines[0]]);
    assert [""] + ([] + [lines[0]]) == args;
  }

  /** A file that names itself is never finished with, at any depth. */
  lemma {:induction false} SelfInclusionIsEndless(w: World, depth: nat)
    requires Valid(w) && "f" in w.files && w.files["f"] == ["--flagfile=f"]
    ensures Expand(w, depth, ["", "--flagfile=f"], 1, false) == Endless
  {
    var args := ["", "--flagfile=f"];
    SelfInclusion(w, args);
    hide Generated, ItemAt, Valid;
    LeadsToItself(w, args);
    hide LeadsTo, Expand;
    CycleIsEndless(w, depth, [args], 0);
  }

  lemma {:induction false} LeadsToItself(w: World, args: seq<string>)
    requires |args| > 1 && ItemAt(w, args, 1).Assign? && Generated(w, ItemAt(w, args, 1)).lists == [args]
    ensures LeadsTo(w, args, 1, false, args)
  {
    hide Generated, ItemAt;
    var lists := [args];
    assert lists[..0] == [];
    assert ExpandAll(w, 0, lists[..0]).Finished?;
    assert lists[0] == args;
  }
}

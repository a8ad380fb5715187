/**
 The expansion of a command line: every argument in the order it takes effect, with each generator
 argument followed at once by the contents of the files or environment variables it names.

 This is the reference the parser's stack of argument lists is compared with. The expansion need not
 be finite: files may name each other. `depth` bounds how deeply lists may bring in further lists, and
 a command line whose expansion is `Endless` at every depth is one the parser never finishes.
 */
module FlagExpansion {
  import opened Options
  import opened Marshalling
  import opened FlagArguments

  // An argument that was processed, and where it stood in its list.
  datatype Event = Event(item: Item, fromArgv: bool, index: nat)

  datatype Outcome = Finished(trace: seq<Event>) | Aborted(trace: seq<Event>) | Endless

  function Then(a: Outcome, b: Outcome): Outcome {
    match a
    case Finished(t) =>
      (match b
       case Finished(u) => Finished(t + u)
       case Aborted(u) => Aborted(t + u)
       case Endless => Endless)
    case Aborted(_) => a
    case Endless => a
  }

  lemma {:induction false} ThenAssociates(a: Outcome, b: Outcome, c: Outcome)
    ensures Then(Then(a, b), c) == Then(a, Then(b, c))
  {
    if a.Finished? && b.Finished? && !c.Endless? {
      assert a.trace + b.trace + c.trace == a.trace + (b.trace + c.trace);
    }
  }

  lemma {:induction false} ThenNothing(a: Outcome)
    ensures Then(Finished([]), a) == a && Then(a, Finished([])) == a
  {
    if !a.Endless? {
      assert [] + a.trace == a.trace && a.trace + [] == a.trace;
    }
  }

  /** Setting a retired flag fails; the parser's own flags take any text; the rest decide for themselves. */
  predicate Accepts(w: World, flag: Flag, value: string) {
    !flag.retired && (IsListFlag(flag.name) || w.accepts(flag.name, value))
  }

  /** Does the argument set the flag of that name? */
  predicate Sets(w: World, item: Item, name: string) {
    item.Assign? && item.flag.name == name && Accepts(w, item.flag, item.value)
  }

  function Load(w: World, generator: string, names: seq<string>): Loaded {
    if names == [] then NOTHING
    else if generator == FLAGFILE then LoadFiles(w, names)
    else if generator == FROMENV then LoadEnv(w, names, true)
    else if generator == TRYFROMENV then LoadEnv(w, names, false)
    else NOTHING
  }

  /** The lists an argument brings in. */
  function Generated(w: World, item: Item): Loaded {
    if item.Assign? && Accepts(w, item.flag, item.value) then Load(w, item.flag.name, ParseStrings(item.value))
    else NOTHING
  }

  lemma LoadByName(w: World, names: seq<string>)
    requires names != []
    ensures Load(w, "flagfile", names) == LoadFiles(w, names)
    ensures Load(w, "fromenv", names) == LoadEnv(w, names, true)
    ensures Load(w, "tryfromenv", names) == LoadEnv(w, names, false)
    ensures forall g: string :: g !in {"flagfile", "fromenv", "tryfromenv"} ==> Load(w, g, names) == NOTHING
  {
  }

  /**
   * What an argument that spells out a generator and its names brings in: the files named, or the
   * variables, all of which --fromenv requires and --tryfromenv does not. Without names, or on any
   * other flag, it brings in nothing.
   */
  lemma {:induction false} GeneratorForms(w: World, g: string, names: seq<string>, next: Option<string>)
    requires Valid(w) && NoCommas(names) && names != [""]
    requires g in w.flags && g != "" && '=' !in g && !w.flags[g].kind.BoolFlag?
    ensures Generated(w, Classify(w, "--" + (g + "=" + JoinCommas(names)), next))
         == if names == [] then NOTHING
            else if g == "flagfile" then LoadFiles(w, names)
            else if g == "fromenv" then LoadEnv(w, names, true)
            else if g == "tryfromenv" then LoadEnv(w, names, false)
            else NOTHING
  {
    ValueForms(w, g, JoinCommas(names), next);
    StringsRoundTrip(names);
    ListFlagsAre(g);
    if names != [] {
      LoadByName(w, names);
    } else {
      assert Load(w, g, []) == NOTHING;
    }
    hide Classify, ParseStrings, JoinCommas, Load, LoadFiles, LoadEnv;
  }

  /** Only argv may hold positional arguments and terminators. */
  predicate Misplaced(e: Event) {
    (e.item.Positional? || e.item.Terminator?) && !e.fromArgv
  }

  /** Arguments from position i on. */
  function Expand(w: World, depth: nat, args: seq<string>, i: nat, fromArgv: bool): Outcome
    decreases depth, 0, |args| - i
  {
    if i >= |args| then Finished([])
    else
      var e := Event(ItemAt(w, args, i), fromArgv, i);
      if Misplaced(e) then Aborted([])
      else if e.item.Terminator? then Finished([e])
      else
        Then(Finished([e]),
             Then(Nested(w, depth, Generated(w, e.item).lists), Expand(w, depth, args, After(e.item, i), fromArgv)))
  }

  /** The lists an argument brings in, at one depth less. */
  function Nested(w: World, depth: nat, lists: seq<seq<string>>): Outcome
    decreases depth, 0, 0
  {
    if lists == [] then Finished([]) else if depth == 0 then Endless else ExpandAll(w, depth - 1, lists)
  }

  /** Several lists, one after the other. */
  function ExpandAll(w: World, depth: nat, lists: seq<seq<string>>): Outcome
    decreases depth, 1, |lists|
  {
    if lists == [] then Finished([])
    else Then(Expand(w, depth, lists[0], 1, false), ExpandAll(w, depth, lists[1..]))
  }

  /** An argument that is neither misplaced nor a terminator, its lists, and what follows it. */
  lemma {:induction false} Unfold(w: World, depth: nat, args: seq<string>, i: nat, fromArgv: bool)
    requires i < |args| && !ItemAt(w, args, i).Terminator? && (ItemAt(w, args, i).Positional? ==> fromArgv)
    ensures Expand(w, depth, args, i, fromArgv)
         == Then(Finished([Event(ItemAt(w, args, i), fromArgv, i)]),
                 Then(Nested(w, depth, Generated(w, ItemAt(w, args, i)).lists),
                      Expand(w, depth, args, After(ItemAt(w, args, i), i), fromArgv)))
  {
    hide Generated, ItemAt, Then, ExpandAll;
  }

  lemma ThenAborted(a: Outcome, b: Outcome)
    requires a.Aborted?
    ensures Then(a, b) == a
  {
  }

  lemma NotEndless(a: Outcome, b: Outcome)
    requires Then(a, b) != Endless
    ensures a != Endless && (a.Finished? ==> b != Endless)
  {
  }

  // ----- Depth does not matter once it suffices

  lemma {:induction false} Deeper(w: World, d: nat, f: nat, args: seq<string>, i: nat, fromArgv: bool)
    requires d <= f && Expand(w, d, args, i, fromArgv) != Endless
    ensures Expand(w, f, args, i, fromArgv) == Expand(w, d, args, i, fromArgv)
    decreases d, 0, |args| - i
  {
    hide Generated, ItemAt, Then, ExpandAll;
    if i < |args| {
      var item := ItemAt(w, args, i);
      var e := Event(item, fromArgv, i);
      if !Misplaced(e) && !item.Terminator? {
        var lists := Generated(w, item).lists;
        Unfold(w, d, args, i, fromArgv);
        Unfold(w, f, args, i, fromArgv);
        hide Expand;
        var nested, rest := Nested(w, d, lists), Expand(w, d, args, After(item, i), fromArgv);
        NotEndless(Finished([e]), Then(nested, rest));
        NotEndless(nested, rest);
        NestedUnfolds(w, d, lists);
        NestedUnfolds(w, f, lists);
        hide Nested;
        if lists != [] {
          DeeperAll(w, d - 1, f - 1, lists);
        }
        if nested.Finished? {
          Deeper(w, d, f, args, After(item, i), fromArgv);
        } else {
          ThenAborted(nested, rest);
          ThenAborted(nested, Expand(w, f, args, After(item, i), fromArgv));
        }
      }
    }
  }

  lemma {:induction false} DeeperAll(w: World, d: nat, f: nat, lists: seq<seq<string>>)
    requires d <= f && ExpandAll(w, d, lists) != Endless
    ensures ExpandAll(w, f, lists) == ExpandAll(w, d, lists)
    decreases d, 1, |lists|
  {
    hide Expand, Then;
    if lists != [] {
      NotEndless(Expand(w, d, lists[0], 1, false), ExpandAll(w, d, lists[1..]));
      Deeper(w, d, f, lists[0], 1, false);
      if Expand(w, d, lists[0], 1, false).Finished? {
        DeeperAll(w, d, f, lists[1..]);
      } else {
        ThenAborted(Expand(w, d, lists[0], 1, false), ExpandAll(w, d, lists[1..]));
        ThenAborted(Expand(w, f, lists[0], 1, false), ExpandAll(w, f, lists[1..]));
      }
    }
  }

  lemma NestedUnfolds(w: World, depth: nat, lists: seq<seq<string>>)
    ensures lists == [] ==> Nested(w, depth, lists) == Finished([]) == ExpandAll(w, depth, lists)
    ensures lists != [] ==> Nested(w, depth, lists) == if depth == 0 then Endless else ExpandAll(w, depth - 1, lists)
  {
  }

  lemma {:induction false} DeeperNested(w: World, d: nat, f: nat, lists: seq<seq<string>>)
    requires d <= f && Nested(w, d, lists) != Endless
    ensures Nested(w, f, lists) == Nested(w, d, lists) == ExpandAll(w, f, lists)
  {
    hide Nested, ExpandAll;
    NestedUnfolds(w, d, lists);
    NestedUnfolds(w, f, lists);
    if lists != [] {
      DeeperAll(w, d - 1, f - 1, lists);
      DeeperAll(w, d - 1, f, lists);
    }
  }

  /** Where the depth suffices, lists may as well be expanded at the depth of the argument itself. */
  lemma {:induction false} ExpandEvent(w: World, depth: nat, args: seq<string>, i: nat, fromArgv: bool)
    requires i < |args| && Expand(w, depth, args, i, fromArgv) != Endless
    requires !ItemAt(w, args, i).Terminator? && (ItemAt(w, args, i).Positional? ==> fromArgv)
    ensures Expand(w, depth, args, i, fromArgv)
         == Then(Finished([Event(ItemAt(w, args, i), fromArgv, i)]),
                 Then(ExpandAll(w, depth, Generated(w, ItemAt(w, args, i)).lists),
                      Expand(w, depth, args, After(ItemAt(w, args, i), i), fromArgv)))
  {
    Unfold(w, depth, args, i, fromArgv);
    hide Generated, ItemAt, Then, Expand, Nested, ExpandAll;
    var item := ItemAt(w, args, i);
    var lists := Generated(w, item).lists;
    var rest := Expand(w, depth, args, After(item, i), fromArgv);
    NotEndless(Finished([Event(item, fromArgv, i)]), Then(Nested(w, depth, lists), rest));
    NotEndless(Nested(w, depth, lists), rest);
    DeeperNested(w, depth, depth, lists);
  }

  lemma {:induction false} ExpandAllJoin(w: World, depth: nat, a: seq<seq<string>>, b: seq<seq<string>>)
    ensures ExpandAll(w, depth, a + b) == Then(ExpandAll(w, depth, a), ExpandAll(w, depth, b))
  {
    hide Expand, Then;
    if a == [] {
      assert [] + b == b;
      ThenNothing(ExpandAll(w, depth, b));
    } else {
      assert (a + b)[1..] == a[1..] + b;
      ExpandAllJoin(w, depth, a[1..], b);
      ThenAssociates(Expand(w, depth, a[0], 1, false), ExpandAll(w, depth, a[1..]), ExpandAll(w, depth, b));
    }
  }
}

/**
 When a parse ends: exactly if no source is met again inside its own expansion, which can be told
 before the parse starts.
 */
module FlagTermination {
  import opened Options
  import opened Marshalling
  import opened FlagArguments
  import opened FlagExpansion
  import opened FlagMachine
  import opened FlagSources

  function ForeseenLoad(w: World, pending: bool, generator: string, names: seq<string>): Verdict {
    if pending then ProbeLoad(w, {}, generator, names) else Ends
  }

  /** How a parse will end, told from the command line and what was left from before. */
  function Foreseen(w: World, argv: seq<string>, values: Values, pending: Pending): Verdict {
    Before(ForeseenLoad(w, pending.tryfromenv, TRYFROMENV, values.tryfromenv),
      Before(ForeseenLoad(w, pending.fromenv, FROMENV, values.fromenv),
        Before(ForeseenLoad(w, pending.flagfile, FLAGFILE, values.flagfile),
          Probe(w, {}, argv, 1, true))))
  }

  /** The depth that always suffices, if any does. */
  function Enough(w: World): nat {
    Unused(w, {}) + 1
  }

  // ----- The expansion, part by part

  /** What a generator pending from before brings in; an empty list of variables is a list all the same. */
  function Part(w: World, pending: bool, generator: string, names: seq<string>): Loaded {
    if !pending then NOTHING
    else if generator == FLAGFILE then LoadFiles(w, names)
    else LoadEnv(w, names, generator == FROMENV)
  }

  lemma {:induction false} ExpansionParts(w: World, depth: nat, argv: seq<string>, values: Values, pending: Pending)
    ensures Expansion(w, depth, argv, values, pending) ==
            Then(ExpandAll(w, depth, Part(w, pending.tryfromenv, TRYFROMENV, values.tryfromenv).lists),
              Then(ExpandAll(w, depth, Part(w, pending.fromenv, FROMENV, values.fromenv).lists),
                Then(ExpandAll(w, depth, Part(w, pending.flagfile, FLAGFILE, values.flagfile).lists),
                  Expand(w, depth, argv, 1, true))))
  {
    hide Then, Expand, ExpandAll, LoadFiles, LoadEnv;
    var a := Part(w, pending.tryfromenv, TRYFROMENV, values.tryfromenv).lists;
    var b := Part(w, pending.fromenv, FROMENV, values.fromenv).lists;
    var c := Part(w, pending.flagfile, FLAGFILE, values.flagfile).lists;
    assert Loads(w, FlagMachine.Start(argv, values, pending).mem).lists == a + (b + c);
    ExpandAllJoin(w, depth, a, b + c);
    ExpandAllJoin(w, depth, b, c);
    var own := Expand(w, depth, argv, 1, true);
    ThenAssociates(ExpandAll(w, depth, a), ExpandAll(w, depth, b + c), own);
    ThenAssociates(ExpandAll(w, depth, b), ExpandAll(w, depth, c), own);
  }

  /**
   * Generators left pending from before come first: the variables that may be absent, then those that
   * may not, then the files, and only then argv. Any of them that cannot be read fails the parse.
   */
  lemma {:induction false} PresetsFirst(w: World, depth: nat, argv: seq<string>, values: Values, pending: Pending)
    ensures var tried := if pending.tryfromenv then LoadEnv(w, values.tryfromenv, false) else Loaded([], true);
            var required := if pending.fromenv then LoadEnv(w, values.fromenv, true) else Loaded([], true);
            var files := if pending.flagfile then LoadFiles(w, values.flagfile) else Loaded([], true);
            && Expansion(w, depth, argv, values, pending)
               == Then(ExpandAll(w, depth, tried.lists), Then(ExpandAll(w, depth, required.lists),
                    Then(ExpandAll(w, depth, files.lists), Expand(w, depth, argv, 1, true))))
            && (Initial(w, values, pending).success <==> tried.ok && required.ok && files.ok)
  {
    ExpansionParts(w, depth, argv, values, pending);
    hide Expansion, Then, Expand, ExpandAll, LoadFiles, LoadEnv;
  }

  /** Part and Load differ only for no names, where there is nothing but a stand-in for the program name. */
  lemma {:induction false} PartIsLoad(w: World, depth: nat, generator: string, names: seq<string>)
    requires generator == FLAGFILE || generator == FROMENV || generator == TRYFROMENV
    ensures ExpandAll(w, depth, Part(w, true, generator, names).lists) == ExpandAll(w, depth, Load(w, generator, names).lists)
  {
    hide LoadFiles, ExpandAll;
    if names == [] {
      NoFilesLoaded(w);
      if generator != FLAGFILE {
        assert [""] + [] == [""];
        assert LoadEnv(w, names, generator == FROMENV).lists == [[""]];
        ExpandOne(w, depth, [""]);
        StandInOnly(w, depth);
      }
    }
  }

  lemma StandInOnly(w: World, depth: nat)
    ensures Expand(w, depth, [""], 1, false) == Finished([]) == ExpandAll(w, depth, [])
  {
  }

  // ----- Foreseen and done

  /** An outcome at some depth: endless, for want of depth at least, or as foreseen. */
  predicate Fits(v: Verdict, o: Outcome) {
    o.Endless? || (Matches(v, o) && !v.Loops?)
  }

  lemma FitsThen(v: Verdict, o: Outcome, v': Verdict, o': Outcome)
    requires Fits(v, o) && Fits(v', o')
    ensures Fits(Before(v, v'), Then(o, o'))
  {
  }

  lemma {:induction false} PartFits(w: World, depth: nat, pending: bool, generator: string, names: seq<string>)
    requires generator == FLAGFILE || generator == FROMENV || generator == TRYFROMENV
    ensures Fits(ForeseenLoad(w, pending, generator, names), ExpandAll(w, depth, Part(w, pending, generator, names).lists))
    ensures Matches(ForeseenLoad(w, pending, generator, names),
                    ExpandAll(w, Enough(w), Part(w, pending, generator, names).lists))
  {
    hide ProbeLoad, Load, Unused, LoadFiles, LoadEnv, ExpandAll;
    if pending {
      var lists := Load(w, generator, names).lists;
      ProbeLoadMatches(w, {}, generator, names);
      PartIsLoad(w, Enough(w), generator, names);
      PartIsLoad(w, depth, generator, names);
      if ProbeLoad(w, {}, generator, names).Loops? {
        MetAgainInLoad(w, depth, generator, names);
      } else {
        DeeperAll(w, Unused(w, {}), Enough(w), lists);
        if ExpandAll(w, depth, lists) != Endless {
          AllAgree(w, depth, Enough(w), lists);
        }
      }
    } else {
      ExpandOne(w, Enough(w), []);
      ExpandOne(w, depth, []);
    }
  }

  lemma {:induction false} AllAgree(w: World, c: nat, d: nat, lists: seq<seq<string>>)
    requires ExpandAll(w, c, lists) != Endless && ExpandAll(w, d, lists) != Endless
    ensures ExpandAll(w, c, lists) == ExpandAll(w, d, lists)
  {
    hide ExpandAll;
    if c < d {
      DeeperAll(w, c, d, lists);
    } else {
      DeeperAll(w, d, c, lists);
    }
  }

  lemma {:induction false} ArgvFits(w: World, depth: nat, argv: seq<string>)
    ensures Fits(Probe(w, {}, argv, 1, true), Expand(w, depth, argv, 1, true))
    ensures Matches(Probe(w, {}, argv, 1, true), Expand(w, Enough(w), argv, 1, true))
  {
    hide Probe, Expand, Unused;
    ProbeMatches(w, {}, argv, 1, true);
    if Probe(w, {}, argv, 1, true).Loops? {
      MetAgainIsEndless(w, depth, argv, 1, true);
    } else if Expand(w, depth, argv, 1, true) != Endless {
      if depth < Enough(w) {
        Deeper(w, depth, Enough(w), argv, 1, true);
      } else {
        Deeper(w, Enough(w), depth, argv, 1, true);
      }
    }
  }

  /**
   * The expansion is as foreseen: at a depth of one more than there are sources it has ended normally
   * or with a failed check, or else it is endless at every depth.
   */
  lemma {:induction false} ExpansionForeseen(w: World, depth: nat, argv: seq<string>, values: Values, pending: Pending)
    ensures Matches(Foreseen(w, argv, values, pending), Expansion(w, Enough(w), argv, values, pending))
    ensures Foreseen(w, argv, values, pending).Loops? ==> Expansion(w, depth, argv, values, pending) == Endless
    ensures Expansion(w, depth, argv, values, pending) != Endless ==>
              Expansion(w, depth, argv, values, pending) == Expansion(w, Enough(w), argv, values, pending)
  {
    hide Probe, ProbeLoad, Expand, ExpandAll, Then, Part, ForeseenLoad, Matches, Fits, Before, Expansion, Enough;
    var enough := Enough(w);
    ExpansionParts(w, depth, argv, values, pending);
    ExpansionParts(w, enough, argv, values, pending);
    PartFits(w, depth, pending.tryfromenv, TRYFROMENV, values.tryfromenv);
    PartFits(w, depth, pending.fromenv, FROMENV, values.fromenv);
    PartFits(w, depth, pending.flagfile, FLAGFILE, values.flagfile);
    ArgvFits(w, depth, argv);
    var a := ForeseenLoad(w, pending.tryfromenv, TRYFROMENV, values.tryfromenv);
    var b := ForeseenLoad(w, pending.fromenv, FROMENV, values.fromenv);
    var c := ForeseenLoad(w, pending.flagfile, FLAGFILE, values.flagfile);
    var own := Probe(w, {}, argv, 1, true);
    FourThen(a, b, c, own,
              ExpandAll(w, depth, Part(w, pending.tryfromenv, TRYFROMENV, values.tryfromenv).lists),
              ExpandAll(w, depth, Part(w, pending.fromenv, FROMENV, values.fromenv).lists),
              ExpandAll(w, depth, Part(w, pending.flagfile, FLAGFILE, values.flagfile).lists),
              Expand(w, depth, argv, 1, true));
    FourMatch(a, b, c, own,
               ExpandAll(w, enough, Part(w, pending.tryfromenv, TRYFROMENV, values.tryfromenv).lists),
               ExpandAll(w, enough, Part(w, pending.fromenv, FROMENV, values.fromenv).lists),
               ExpandAll(w, enough, Part(w, pending.flagfile, FLAGFILE, values.flagfile).lists),
               Expand(w, enough, argv, 1, true));
    FitsMeans(Foreseen(w, argv, values, pending), Expansion(w, depth, argv, values, pending));
    if Expansion(w, depth, argv, values, pending) != Endless {
      FitsMatches(Foreseen(w, argv, values, pending), Expansion(w, enough, argv, values, pending));
      ExpansionAgrees(w, depth, enough, argv, values, pending);
    }
  }

  lemma FitsMeans(v: Verdict, o: Outcome)
    requires Fits(v, o)
    ensures v.Loops? ==> o == Endless
  {
  }

  lemma FitsMatches(v: Verdict, o: Outcome)
    requires Matches(v, o) && !v.Loops?
    ensures o != Endless
  {
  }

  lemma {:induction false} FourThen(a: Verdict, b: Verdict, c: Verdict, d: Verdict,
                                     o: Outcome, p: Outcome, q: Outcome, r: Outcome)
    requires Fits(a, o) && Fits(b, p) && Fits(c, q) && Fits(d, r)
    ensures Fits(Before(a, Before(b, Before(c, d))), Then(o, Then(p, Then(q, r))))
  {
    hide Fits, Then, Before;
    FitsThen(c, q, d, r);
    FitsThen(b, p, Before(c, d), Then(q, r));
    FitsThen(a, o, Before(b, Before(c, d)), Then(p, Then(q, r)));
  }

  lemma {:induction false} FourMatch(a: Verdict, b: Verdict, c: Verdict, d: Verdict,
                                     o: Outcome, p: Outcome, q: Outcome, r: Outcome)
    requires Matches(a, o) && Matches(b, p) && Matches(c, q) && Matches(d, r)
    ensures Matches(Before(a, Before(b, Before(c, d))), Then(o, Then(p, Then(q, r))))
  {
    hide Matches, Then, Before;
    MatchesThen(c, q, d, r);
    MatchesThen(b, p, Before(c, d), Then(q, r));
    MatchesThen(a, o, Before(b, Before(c, d)), Then(p, Then(q, r)));
  }

  lemma {:induction false} ExpansionAgrees(w: World, c: nat, d: nat, argv: seq<string>, values: Values, pending: Pending)
    requires Expansion(w, c, argv, values, pending) != Endless && Expansion(w, d, argv, values, pending) != Endless
    ensures Expansion(w, c, argv, values, pending) == Expansion(w, d, argv, values, pending)
  {
    hide Expand, ExpandAll, Loads, Then;
    var lists := Loads(w, FlagMachine.Start(argv, values, pending).mem).lists;
    NotEndless(ExpandAll(w, c, lists), Expand(w, c, argv, 1, true));
    NotEndless(ExpandAll(w, d, lists), Expand(w, d, argv, 1, true));
    AllAgree(w, c, d, lists);
    if ExpandAll(w, c, lists).Finished? {
      if c < d {
        Deeper(w, c, d, argv, 1, true);
      } else {
        Deeper(w, d, c, argv, 1, true);
      }
    } else {
      ThenAborted(ExpandAll(w, c, lists), Expand(w, c, argv, 1, true));
      ThenAborted(ExpandAll(w, d, lists), Expand(w, d, argv, 1, true));
    }
  }

  /** The arguments a parse will process, as long as it ends. */
  function ForeseenTrace(w: World, argv: seq<string>, values: Values, pending: Pending): seq<Event> {
    var o := Expansion(w, Enough(w), argv, values, pending);
    if o.Endless? then [] else o.trace
  }

  lemma TraceForeseen(w: World, argv: seq<string>, values: Values, pending: Pending)
    requires !Expansion(w, Enough(w), argv, values, pending).Endless?
    ensures ForeseenTrace(w, argv, values, pending) == Expansion(w, Enough(w), argv, values, pending).trace
  {
  }

  /** The loop ends exactly if no source is met again inside its own expansion. */
  lemma {:induction false} LoopEndsIffNothingMetAgain(w: World, argv: seq<string>, values: Values, pending: Pending)
    ensures (exists k :: Halted(Runs(w, FlagMachine.Start(argv, values, pending), k)))
       <==> !Foreseen(w, argv, values, pending).Loops?
  {
    hide Foreseen, Expansion, Runs, Halted, Enough;
    LoopEndsIffFinite(w, argv, values, pending);
    ExpansionForeseen(w, Enough(w), argv, values, pending);
    if depth: nat :| Expansion(w, depth, argv, values, pending) != Endless {
      ExpansionForeseen(w, depth, argv, values, pending);
    }
  }

  /** If sources can be ranked so that what each holds leads only to lower ones, every command line is parsed to its end. */
  lemma {:induction false} RankedParsesEnd(w: World, rank: Source -> nat, argv: seq<string>, values: Values, pending: Pending)
    requires Ranked(w, rank)
    ensures !Foreseen(w, argv, values, pending).Loops?
  {
    hide Ranked, Probe, ProbeLoad, Reaches, LoadsSource;
    RankedLoad(w, rank, {}, TRYFROMENV, values.tryfromenv);
    RankedLoad(w, rank, {}, FROMENV, values.fromenv);
    RankedLoad(w, rank, {}, FLAGFILE, values.flagfile);
    RankedProbe(w, rank, {}, argv, 1, true);
  }
}

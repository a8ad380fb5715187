/**
 Hints for a misspelled flag: the candidates closest to it.

 Each distance is computed only up to the best one seen so far. The hints are still exactly the
 closest candidates, in order, of those looked at before the list was full.
 */
module MisspellingHints {
  import opened EditDistance

  const MAX_HINTS := 100
  const MAX_DISTANCE := 3

  // A name to compare with, and the text of the hint that it would give.
  datatype Candidate = Candidate(name: string, hint: string)

  // A registered flag, as far as hints depend on it.
  datatype Flag = Flag(name: string, isBool: bool)

  /** A flag may be meant by its name, a boolean one also by its negative form. */
  function OfFlag(f: Flag): seq<Candidate> {
    [Candidate(f.name, f.name)] + if f.isBool then [Candidate("no" + f.name, "no" + f.name)] else []
  }

  function OfUndefok(name: string): seq<Candidate> {
    [Candidate(name, name + " (undefok)")]
  }

  function OfFlags(flags: seq<Flag>): seq<Candidate> {
    if flags == [] then [] else OfFlags(flags[..|flags| - 1]) + OfFlag(flags[|flags| - 1])
  }

  function OfUndefoks(names: seq<string>): seq<Candidate> {
    if names == [] then [] else OfUndefoks(names[..|names| - 1]) + OfUndefok(names[|names| - 1])
  }

  /** Hints may be one edit farther than this cutoff, because the search starts from the next distance. */
  function MaxCutoff(flag: string): nat {
    Min(|flag| / 2 + 1, MAX_DISTANCE)
  }

  /** How many edits away a hint may be, by the length of what was typed. */
  lemma Reach(flag: string)
    ensures MaxCutoff(flag) + 1 == if |flag| <= 1 then 2 else if |flag| <= 3 then 3 else 4
  {
  }

  /** The candidates are those of the flags, boolean ones under both forms, one flag after the other. */
  lemma {:induction false} CandidatesOfFlags(flags: seq<Flag>, more: seq<Flag>, f: Flag)
    ensures OfFlags([f]) == if f.isBool then [Candidate(f.name, f.name), Candidate("no" + f.name, "no" + f.name)]
                            else [Candidate(f.name, f.name)]
    ensures OfFlags(flags + more) == OfFlags(flags) + OfFlags(more)
  {
    assert [f][..0] == [];
    if more == [] {
      assert flags + more == flags;
      assert OfFlags(flags) + [] == OfFlags(flags);
    } else {
      assert (flags + more)[..|flags + more| - 1] == flags + more[..|more| - 1];
      CandidatesOfFlags(flags, more[..|more| - 1], f);
    }
  }

  lemma {:induction false} CandidatesOfUndefok(names: seq<string>)
    ensures |OfUndefoks(names)| == |names|
    ensures forall i :: 0 <= i < |names| ==> OfUndefoks(names)[i] == Candidate(names[i], names[i] + " (undefok)")
  {
    if names != [] {
      CandidatesOfUndefok(names[..|names| - 1]);
    }
  }

  // ----- The closest candidates

  /** The smallest distance among candidates, or the limit if all are farther. */
  function Nearest(flag: string, cands: seq<Candidate>): nat {
    if cands == [] then MaxCutoff(flag) + 1
    else Min(Nearest(flag, cands[..|cands| - 1]), Measured(flag, cands[|cands| - 1].name))
  }

  /** The hints of the candidates at a distance, in order. */
  function At(flag: string, cands: seq<Candidate>, distance: nat): seq<string> {
    if cands == [] then []
    else
      var last := cands[|cands| - 1];
      At(flag, cands[..|cands| - 1], distance) + if Measured(flag, last.name) == distance then [last.hint] else []
  }

  function Closest(flag: string, cands: seq<Candidate>): seq<string> {
    At(flag, cands, Nearest(flag, cands))
  }

  /** How many candidates are looked at: all, or those up to the one that fills the list. */
  function Used(flag: string, cands: seq<Candidate>): (n: nat)
    ensures n <= |cands|
  {
    if cands == [] then 0
    else
      var n := Used(flag, cands[..|cands| - 1]);
      if n < |cands| - 1 || |Closest(flag, cands[..|cands| - 1])| >= MAX_HINTS then n else |cands|
  }

  function Hints(flag: string, cands: seq<Candidate>): seq<string> {
    Closest(flag, cands[..Used(flag, cands)])
  }

  /** Nearest is a lower bound of all distances, and is one of them or the limit. */
  lemma {:induction false} NearestIsNearest(flag: string, cands: seq<Candidate>)
    ensures Nearest(flag, cands) <= MaxCutoff(flag) + 1
    ensures forall i :: 0 <= i < |cands| ==> Nearest(flag, cands) <= Measured(flag, cands[i].name)
    ensures Nearest(flag, cands) == MaxCutoff(flag) + 1
         || exists i :: 0 <= i < |cands| && Nearest(flag, cands) == Measured(flag, cands[i].name)
  {
    hide Measured, MaxCutoff;
    if cands != [] {
      var front := cands[..|cands| - 1];
      NearestIsNearest(flag, front);
      if Nearest(flag, cands) != Nearest(flag, front) {
        assert Nearest(flag, cands) == Measured(flag, cands[|cands| - 1].name);
      } else if Nearest(flag, front) != MaxCutoff(flag) + 1 {
        var i :| 0 <= i < |front| && Nearest(flag, front) == Measured(flag, front[i].name);
        assert cands[i] == front[i];
      }
    }
  }

  /** A hint is given exactly for the candidates at that distance. */
  lemma {:induction false} AtExactly(flag: string, cands: seq<Candidate>, distance: nat, hint: string)
    ensures hint in At(flag, cands, distance)
       <==> exists i :: 0 <= i < |cands| && cands[i].hint == hint && Measured(flag, cands[i].name) == distance
  {
    hide Measured;
    if cands != [] {
      var front := cands[..|cands| - 1];
      AtExactly(flag, front, distance, hint);
      forall i | 0 <= i < |front| ensures front[i] == cands[i] {}
    }
  }

  /**
   * Nothing but a full list keeps candidates from being looked at: before the last one that is used
   * the list is not full, and if any candidate is left out it is.
   */
  lemma {:induction false} UsedUntilFull(flag: string, cands: seq<Candidate>)
    ensures forall n :: 0 <= n < Used(flag, cands) ==> |Closest(flag, cands[..n])| < 100
    ensures Used(flag, cands) < |cands| ==> |Hints(flag, cands)| >= 100
  {
    hide Closest;
    if cands != [] {
      var front := cands[..|cands| - 1];
      UsedUntilFull(flag, front);
      assert forall n :: 0 <= n <= |front| ==> front[..n] == cands[..n];
      assert front[..|front|] == front;
    }
  }

  /**
   * Something is suggested exactly if some candidate looked at is near enough: two edits for a name of
   * one letter, three for one of two or three, four for a longer one.
   */
  lemma {:induction false} Suggests(flag: string, cands: seq<Candidate>)
    ensures Hints(flag, cands) != []
       <==> SomeWithin(flag, cands[..Used(flag, cands)], if |flag| <= 1 then 2 else if |flag| <= 3 then 3 else 4)
  {
    hide Measured, MaxCutoff, Used, At, Nearest;
    Reach(flag);
    var used := cands[..Used(flag, cands)];
    var nearest := Nearest(flag, used);
    NearestIsNearest(flag, used);
    if Hints(flag, cands) != [] {
      AtExactly(flag, used, nearest, Hints(flag, cands)[0]);
    }
    if SomeWithin(flag, used, MaxCutoff(flag) + 1) {
      var i :| 0 <= i < |used| && Measured(flag, used[i].name) <= MaxCutoff(flag) + 1;
      assert nearest == MaxCutoff(flag) + 1 ==> Measured(flag, used[i].name) == nearest;
      var k :| 0 <= k < |used| && Measured(flag, used[k].name) == nearest;
      AtExactly(flag, used, nearest, used[k].hint);
      assert used[k].hint in At(flag, used, nearest);
    }
  }

  /** Nothing farther away is ever suggested. */
  lemma {:induction false} HintsAreNear(flag: string, cands: seq<Candidate>, hint: string)
    requires hint in Hints(flag, cands)
    ensures exists i :: 0 <= i < |cands| && cands[i].hint == hint
                        && Measured(flag, cands[i].name) <= if |flag| <= 1 then 2 else if |flag| <= 3 then 3 else 4
  {
    hide Measured, MaxCutoff, Used, At, Nearest;
    var used := cands[..Used(flag, cands)];
    Reach(flag);
    NearestIsNearest(flag, used);
    AtExactly(flag, used, Nearest(flag, used), hint);
    var i :| 0 <= i < |used| && used[i].hint == hint && Measured(flag, used[i].name) == Nearest(flag, used);
    assert cands[i] == used[i];
  }

  ghost predicate SomeWithin(flag: string, cands: seq<Candidate>, limit: nat) {
    exists i :: 0 <= i < |cands| && Measured(flag, cands[i].name) <= limit
  }

  /**
   * Are only candidates at a distance below three suggested? Exactly if there is such a
   * candidate to push out the others, or if nothing is suggested at all.
   */
  lemma {:induction false} StatedLimit(flag: string, cands: seq<Candidate>)
    ensures var used := cands[..Used(flag, cands)];
            (forall i :: 0 <= i < |used| && Measured(flag, used[i].name) == Nearest(flag, used) ==>
                           Measured(flag, used[i].name) < 3)
            <==>
            || (exists i :: 0 <= i < |used| && Measured(flag, used[i].name) < 3)
            || (forall i :: 0 <= i < |used| ==>
                  Measured(flag, used[i].name) > if |flag| <= 1 then 2 else if |flag| <= 3 then 3 else 4)
  {
    hide Measured, MaxCutoff, Used, Nearest;
    Reach(flag);
    NearestIsNearest(flag, cands[..Used(flag, cands)]);
  }

  lemma {:induction false} NothingInCommon(s: string, i: nat, t: string, j: nat)
    requires i <= |s| && j <= |t| && forall a, b :: 0 <= a < |s| && 0 <= b < |t| ==> s[a] != t[b]
    ensures Distance(s, i, t, j) == if i < j then j else i
    decreases i + j
  {
    hide Distance;
    if i == 0 || j == 0 {
      OneEmpty(s, i, t, j);
    } else {
      Unfold(s, i, t, j);
      NothingInCommon(s, i - 1, t, j);
      NothingInCommon(s, i, t, j - 1);
      NothingInCommon(s, i - 1, t, j - 1);
    }
  }

  lemma {:induction false} NoMoreThanCandidates(flag: string, cands: seq<Candidate>, distance: nat)
    ensures |At(flag, cands, distance)| <= |cands|
  {
    hide Measured;
    if cands != [] {
      NoMoreThanCandidates(flag, cands[..|cands| - 1], distance);
    }
  }

  lemma {:induction false} FewAreAllUsed(flag: string, cands: seq<Candidate>)
    requires |cands| <= MAX_HINTS
    ensures Used(flag, cands) == |cands|
  {
    hide At, Nearest;
    if cands != [] {
      var front := cands[..|cands| - 1];
      FewAreAllUsed(flag, front);
      NoMoreThanCandidates(flag, front, Nearest(flag, front));
    }
  }

  lemma {:induction false} OfPlainFlags(flags: seq<Flag>)
    requires forall i :: 0 <= i < |flags| ==> !flags[i].isBool
    ensures |OfFlags(flags)| == |flags|
    ensures forall i :: 0 <= i < |flags| ==> OfFlags(flags)[i] == Candidate(flags[i].name, flags[i].name)
  {
    if flags != [] {
      OfPlainFlags(flags[..|flags| - 1]);
    }
  }

  lemma FarApart(flag: string, name: string, distance: nat)
    requires |flag| <= |name| == distance <= MAX_SIZE
    requires forall a, b :: 0 <= a < |flag| && 0 <= b < |name| ==> flag[a] != name[b]
    ensures Measured(flag, name) == distance
  {
    NothingInCommon(flag, |flag|, name, |name|);
  }

  // The flags of the parser itself, and one more, in the order they are visited.
  const FEW_FLAGS := [Flag("cwxz", false), Flag("flagfile", false), Flag("fromenv", false),
                      Flag("tryfromenv", false), Flag("undefok", false)]

  /** So the limit fails: here a name four edits away is suggested. */
  lemma {:induction false} FourEditsAway()
    ensures var cands := OfFlags(FEW_FLAGS) + OfUndefoks([]);
            Measured("hpqs", "cwxz") == 4 && "cwxz" in Hints("hpqs", cands)
  {
    hide Distance, Hints, Measured, Used, At, Nearest, MaxCutoff;
    var flag := "hpqs";
    var cands := OfFlags(FEW_FLAGS) + OfUndefoks([]);
    OfPlainFlags(FEW_FLAGS);
    assert cands == OfFlags(FEW_FLAGS);
    FewAreAllUsed(flag, cands);
    assert cands[..|cands|] == cands;
    FarApart(flag, "cwxz", 4);
    FarApart(flag, "flagfile", 8);
    FarApart(flag, "fromenv", 7);
    FarApart(flag, "tryfromenv", 10);
    FarApart(flag, "undefok", 7);
    NearestIsNearest(flag, cands);
    FourIsNearest(flag, cands);
    AtExactly(flag, cands, 4, "cwxz");
    HintsOfAll(flag, cands);
  }

  lemma FourIsNearest(flag: string, cands: seq<Candidate>)
    requires |flag| >= 4 && cands != [] && Measured(flag, cands[0].name) == 4
    requires forall i :: 0 <= i < |cands| ==> Measured(flag, cands[i].name) >= 4
    ensures Nearest(flag, cands) == 4
  {
    NearestIsNearest(flag, cands);
    hide Measured, Nearest;
  }

  lemma HintsOfAll(flag: string, cands: seq<Candidate>)
    requires Used(flag, cands) == |cands|
    ensures Hints(flag, cands) == At(flag, cands, Nearest(flag, cands))
  {
    assert cands[..|cands|] == cands;
  }

  // ----- Keeping the best so far

  lemma {:induction false} NoneCloser(flag: string, cands: seq<Candidate>, distance: nat)
    requires distance < Nearest(flag, cands)
    ensures At(flag, cands, distance) == []
  {
    hide Measured, MaxCutoff;
    if cands != [] {
      NoneCloser(flag, cands[..|cands| - 1], distance);
    }
  }

  /** What one more candidate does to the closest ones. */
  lemma {:induction false} OneMore(flag: string, cands: seq<Candidate>, c: Candidate)
    ensures var m := Measured(flag, c.name);
            var best := Nearest(flag, cands);
            && Nearest(flag, cands + [c]) == Min(best, m)
            && Closest(flag, cands + [c]) ==
                 if m < best then [c.hint] else if m == best then Closest(flag, cands) + [c.hint] else Closest(flag, cands)
  {
    hide Measured, MaxCutoff;
    var all := cands + [c];
    assert all[..|all| - 1] == cands;
    var m := Measured(flag, c.name);
    if m < Nearest(flag, cands) {
      NoneCloser(flag, cands, m);
      assert [] + [c.hint] == [c.hint];
    } else {
      assert At(flag, cands, Nearest(flag, cands)) + [] == At(flag, cands, Nearest(flag, cands));
    }
  }

  lemma {:induction false} AllUsedSoFar(flag: string, cands: seq<Candidate>, c: Candidate)
    ensures Used(flag, cands + [c]) ==
            if Used(flag, cands) < |cands| || |Closest(flag, cands)| >= MAX_HINTS then Used(flag, cands) else |cands| + 1
  {
    assert (cands + [c])[..|cands|] == cands;
  }

  class BestHints {
    var bestDistance: nat
    var hints: seq<string>

    constructor (max: nat)
      ensures bestDistance == max + 1 && hints == []
    {
      bestDistance, hints := max + 1, [];
    }

    method AddHint(hint: string, distance: nat) returns (added: bool)
      modifies this
      ensures added == (|old(hints)| < MAX_HINTS)
      ensures !added ==> hints == old(hints) && bestDistance == old(bestDistance)
      ensures added ==>
                && bestDistance == Min(old(bestDistance), distance)
                && hints == if distance < old(bestDistance) then [hint]
                            else if distance == old(bestDistance) then old(hints) + [hint] else old(hints)
    {
      if |hints| >= MAX_HINTS {
        return false;
      }
      if distance == bestDistance {
        hints := hints + [hint];
      }
      if distance < bestDistance {
        bestDistance := distance;
        hints := [hint];
      }
      added := true;
    }

    /** The state is that of the candidates seen so far, as far as they were looked at. */
    ghost predicate Tracks(flag: string, cands: seq<Candidate>)
      reads this
    {
      var used := cands[..Used(flag, cands)];
      hints == Closest(flag, used) && bestDistance == Nearest(flag, used)
    }

    /** A distance capped at the best so far decides as the full distance would. */
    method Consider(flag: string, c: Candidate, ghost cands: seq<Candidate>)
      requires Tracks(flag, cands) && bestDistance < MAX_SIZE
      modifies this
      ensures Tracks(flag, cands + [c]) && bestDistance <= old(bestDistance)
    {
      hide Closest, Nearest, Measured, Used;
      var distance := CappedDamerauLevenshteinDistance(flag, c.name, bestDistance);
      var added := AddHint(c.hint, distance);
      ghost var n := Used(flag, cands);
      AllUsedSoFar(flag, cands, c);
      UsedUntilFull(flag, cands);
      if n == |cands| {
        assert cands[..n] == cands;
        assert (cands + [c])[..n] == cands && (cands + [c])[..|cands| + 1] == cands + [c];
        OneMore(flag, cands, c);
      } else {
        assert (cands + [c])[..n] == cands[..n];
      }
    }
  }

  /** The hints for a flag, from the registered flags in the order they are visited and from undefok. */
  method GetMisspellingHints(flag: string, flags: seq<Flag>, undefok: seq<string>) returns (hints: seq<string>)
    ensures hints == Hints(flag, OfFlags(flags) + OfUndefoks(undefok))
  {
    hide Closest, Nearest, Measured, Used;
    var best := new BestHints(MaxCutoff(flag));
    ghost var seen: seq<Candidate> := [];
    Beginning(flag);
    for i := 0 to |flags|
      invariant best.Tracks(flag, seen) && best.bestDistance <= MAX_DISTANCE + 1
      invariant seen == OfFlags(flags[..i])
    {
      assert flags[..i + 1][..i] == flags[..i];
      var f := flags[i];
      if |best.hints| >= MAX_HINTS {
        FullStays(flag, seen, Candidate(f.name, f.name));
        seen := seen + [Candidate(f.name, f.name)];
        if f.isBool {
          FullStays(flag, seen, Candidate("no" + f.name, "no" + f.name));
          seen := seen + [Candidate("no" + f.name, "no" + f.name)];
        }
        continue;
      }
      best.Consider(flag, Candidate(f.name, f.name), seen);
      seen := seen + [Candidate(f.name, f.name)];
      if f.isBool {
        var negated := "no" + f.name;
        best.Consider(flag, Candidate(negated, negated), seen);
        seen := seen + [Candidate(negated, negated)];
      }
    }
    assert flags[..|flags|] == flags;
    ghost var ofFlags := seen;
    for i := 0 to |undefok|
      invariant best.Tracks(flag, seen) && best.bestDistance <= MAX_DISTANCE + 1
      invariant seen == ofFlags + OfUndefoks(undefok[..i])
    {
      assert undefok[..i + 1][..i] == undefok[..i];
      var name := undefok[i];
      ghost var c := Candidate(name, name + " (undefok)");
      if |best.hints| >= MAX_HINTS {
        FullStays(flag, seen, c);
        seen := seen + [c];
        continue;
      }
      best.Consider(flag, Candidate(name, name + " (undefok)"), seen);
      seen := seen + [c];
    }
    assert undefok[..|undefok|] == undefok;
    hints := best.hints;
  }

  lemma Beginning(flag: string)
    ensures Used(flag, []) == 0 && Closest(flag, []) == [] && Nearest(flag, []) == MaxCutoff(flag) + 1
    ensures MaxCutoff(flag) <= MAX_DISTANCE
  {
  }

  /** Once the list is full, later candidates are not looked at. */
  lemma {:induction false} FullStays(flag: string, cands: seq<Candidate>, c: Candidate)
    requires |Hints(flag, cands)| >= MAX_HINTS
    ensures (cands + [c])[..Used(flag, cands + [c])] == cands[..Used(flag, cands)]
  {
    hide Closest;
    AllUsedSoFar(flag, cands, c);
    assert cands[..|cands|] == cands;
  }
}

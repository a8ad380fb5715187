/**
 The distance between two strings in single-character edits and swaps of neighbours, no part being
 edited twice, and the banded table that computes it up to a cutoff.
 */
module EditDistance {

  // ----- Edit scripts

  datatype Edit = Keep | Substitute | Delete | Insert | Swap

  /** Does the script turn s[..i] into t[..j]? Its last edit is about the last characters. */
  predicate Turns(script: seq<Edit>, s: string, i: nat, t: string, j: nat)
    requires i <= |s| && j <= |t|
    decreases |script|
  {
    if script == [] then i == 0 && j == 0
    else
      var front := script[..|script| - 1];
      match script[|script| - 1]
      case Keep => i > 0 && j > 0 && s[i - 1] == t[j - 1] && Turns(front, s, i - 1, t, j - 1)
      case Substitute => i > 0 && j > 0 && Turns(front, s, i - 1, t, j - 1)
      case Delete => i > 0 && Turns(front, s, i - 1, t, j)
      case Insert => j > 0 && Turns(front, s, i, t, j - 1)
      case Swap =>
        i > 1 && j > 1 && s[i - 1] == t[j - 2] && s[i - 2] == t[j - 1] && Turns(front, s, i - 2, t, j - 2)
  }

  predicate Swapped(s: string, i: nat, t: string, j: nat)
    requires 1 < i <= |s| && 1 < j <= |t|
  {
    s[i - 1] == t[j - 2] && s[i - 2] == t[j - 1]
  }

  function Cost(script: seq<Edit>): nat {
    if script == [] then 0
    else Cost(script[..|script| - 1]) + if script[|script| - 1].Keep? then 0 else 1
  }

  function Min(a: int, b: int): int {
    if a < b then a else b
  }

  /** The cheapest way from s[..i] to t[..j]. */
  function Distance(s: string, i: nat, t: string, j: nat): nat
    requires i <= |s| && j <= |t|
    decreases i + j
  {
    if i == 0 then j
    else if j == 0 then i
    else
      var deletion := Distance(s, i - 1, t, j) + 1;
      var insertion := Distance(s, i, t, j - 1) + 1;
      var mismatch := Distance(s, i - 1, t, j - 1) + Mismatch(s, i, t, j);
      if i > 1 && j > 1 && Swapped(s, i, t, j) then
        Least(deletion, insertion, mismatch, Distance(s, i - 2, t, j - 2) + 1)
      else
        Least(deletion, insertion, mismatch, deletion)
  }

  function Least(a: nat, b: nat, c: nat, d: nat): (m: nat)
    ensures m <= a && m <= b && m <= c && m <= d && m in {a, b, c, d}
  {
    Min(Min(a, b), Min(c, d))
  }

  function Mismatch(s: string, i: nat, t: string, j: nat): nat
    requires 0 < i <= |s| && 0 < j <= |t|
  {
    if s[i - 1] == t[j - 1] then 0 else 1
  }

  /** One character more or less costs at most one edit. */
  lemma {:induction false} NeighboursClose(s: string, i: nat, t: string, j: nat)
    requires i <= |s| && j <= |t|
    ensures i > 0 ==> Distance(s, i, t, j) <= Distance(s, i - 1, t, j) + 1
    ensures j > 0 ==> Distance(s, i, t, j) <= Distance(s, i, t, j - 1) + 1
  {
    if i > 0 && j > 0 {
      Unfold(s, i, t, j);
      hide Distance;
    }
  }

  lemma {:induction false} Unfold(s: string, i: nat, t: string, j: nat)
    requires 0 < i <= |s| && 0 < j <= |t|
    ensures var deletion := Distance(s, i - 1, t, j) + 1;
            var insertion := Distance(s, i, t, j - 1) + 1;
            var mismatch := Distance(s, i - 1, t, j - 1) + Mismatch(s, i, t, j);
            Distance(s, i, t, j) ==
              if i > 1 && j > 1 && Swapped(s, i, t, j) then
                Least(deletion, insertion, mismatch, Distance(s, i - 2, t, j - 2) + 1)
              else
                Least(deletion, insertion, mismatch, deletion)
  {
    hide Least, Mismatch, Swapped, Min;
  }

  lemma OneEmpty(s: string, i: nat, t: string, j: nat)
    requires i <= |s| && j <= |t| && (i == 0 || j == 0)
    ensures Distance(s, i, t, j) == i + j
  {
  }

  /** No script is cheaper. */
  lemma {:induction false} DistanceIsLeast(script: seq<Edit>, s: string, i: nat, t: string, j: nat)
    requires i <= |s| && j <= |t| && Turns(script, s, i, t, j)
    ensures Distance(s, i, t, j) <= Cost(script)
    decreases |script|
  {
    hide Distance;
    if i == 0 || j == 0 {
      OneEmpty(s, i, t, j);
    } else {
      Unfold(s, i, t, j);
    }
    if script != [] {
      var front := script[..|script| - 1];
      match script[|script| - 1]
      case Keep => DistanceIsLeast(front, s, i - 1, t, j - 1);
      case Substitute => DistanceIsLeast(front, s, i - 1, t, j - 1);
      case Delete => DistanceIsLeast(front, s, i - 1, t, j); NeighboursClose(s, i, t, j);
      case Insert => DistanceIsLeast(front, s, i, t, j - 1); NeighboursClose(s, i, t, j);
      case Swap => DistanceIsLeast(front, s, i - 2, t, j - 2);
    }
  }

  /** Some script is that cheap. */
  lemma {:induction false} DistanceIsAttained(s: string, i: nat, t: string, j: nat) returns (script: seq<Edit>)
    requires i <= |s| && j <= |t|
    ensures Turns(script, s, i, t, j) && Cost(script) == Distance(s, i, t, j)
    decreases i + j
  {
    hide Cost, Distance;
    if i == 0 || j == 0 {
      OneEmpty(s, i, t, j);
      script := OneSided(s, i, t, j);
    } else {
      Unfold(s, i, t, j);
      var d := Distance(s, i, t, j);
      if d == Distance(s, i - 1, t, j) + 1 {
        script := DistanceIsAttained(s, i - 1, t, j);
        script := Appended(script, Delete);
      } else if d == Distance(s, i, t, j - 1) + 1 {
        script := DistanceIsAttained(s, i, t, j - 1);
        script := Appended(script, Insert);
      } else if d == Distance(s, i - 1, t, j - 1) + Mismatch(s, i, t, j) {
        script := DistanceIsAttained(s, i - 1, t, j - 1);
        script := Appended(script, if s[i - 1] == t[j - 1] then Keep else Substitute);
      } else {
        script := DistanceIsAttained(s, i - 2, t, j - 2);
        script := Appended(script, Swap);
      }
    }
  }

  lemma {:induction false} OneSided(s: string, i: nat, t: string, j: nat) returns (script: seq<Edit>)
    requires i <= |s| && j <= |t| && (i == 0 || j == 0)
    ensures Turns(script, s, i, t, j) && Cost(script) == i + j
    decreases i + j
  {
    script := [];
    if j > 0 {
      script := OneSided(s, i, t, j - 1);
      script := Appended(script, Insert);
    } else if i > 0 {
      script := OneSided(s, i - 1, t, j);
      script := Appended(script, Delete);
    }
  }

  lemma {:induction false} Appended(script: seq<Edit>, e: Edit) returns (longer: seq<Edit>)
    ensures longer != [] && longer[..|longer| - 1] == script && longer[|longer| - 1] == e
    ensures Cost(longer) == Cost(script) + if e.Keep? then 0 else 1
  {
    longer := script + [e];
    assert longer[..|longer| - 1] == script;
  }

  lemma {:induction false} DistanceSymmetric(s: string, i: nat, t: string, j: nat)
    requires i <= |s| && j <= |t|
    ensures Distance(s, i, t, j) == Distance(t, j, s, i)
    decreases i + j
  {
    hide Distance, Least;
    if i == 0 || j == 0 {
      OneEmpty(s, i, t, j);
      OneEmpty(t, j, s, i);
    } else {
      Unfold(s, i, t, j);
      Unfold(t, j, s, i);
      Commuted(Distance(s, i - 1, t, j) + 1, Distance(s, i, t, j - 1) + 1, Distance(s, i - 1, t, j - 1) + Mismatch(s, i, t, j));
      DistanceSymmetric(s, i - 1, t, j);
      DistanceSymmetric(s, i, t, j - 1);
      DistanceSymmetric(s, i - 1, t, j - 1);
      if i > 1 && j > 1 {
        DistanceSymmetric(s, i - 2, t, j - 2);
        Commuted4(Distance(s, i - 1, t, j) + 1, Distance(s, i, t, j - 1) + 1,
                  Distance(s, i - 1, t, j - 1) + Mismatch(s, i, t, j), Distance(s, i - 2, t, j - 2) + 1);
      }
    }
  }

  lemma Commuted(a: nat, b: nat, c: nat)
    ensures Least(a, b, c, a) == Least(b, a, c, b)
  {
  }

  lemma Commuted4(a: nat, b: nat, c: nat, d: nat)
    ensures Least(a, b, c, d) == Least(b, a, c, d)
  {
  }

  /** At least the difference of lengths has to be inserted or deleted. */
  lemma {:induction false} AtLeastDifference(s: string, i: nat, t: string, j: nat)
    requires i <= |s| && j <= |t|
    ensures Distance(s, i, t, j) >= i - j && Distance(s, i, t, j) >= j - i
    decreases i + j
  {
    hide Distance;
    if i == 0 || j == 0 {
      OneEmpty(s, i, t, j);
    } else {
      Unfold(s, i, t, j);
      AtLeastDifference(s, i - 1, t, j);
      AtLeastDifference(s, i, t, j - 1);
      AtLeastDifference(s, i - 1, t, j - 1);
      if i > 1 && j > 1 {
        AtLeastDifference(s, i - 2, t, j - 2);
      }
    }
  }

  // ----- The banded table

  const MAX_SIZE := 100

  /** How many insertions the rest of the strings will still need at least. */
  function Owed(s: string, i: nat, t: string, j: nat): nat
    requires i <= |s| && j <= |t|
  {
    if |t| - j > |s| - i then (|t| - j) - (|s| - i) else 0
  }

  /**
   * What a cell of the table is worth: never less than the distance, as far as the cutoff shows, and
   * exact wherever a path within the cutoff can still come through. Cells beyond the band satisfy
   * this with the value cutoff + 1.
   */
  ghost predicate Good(v: int, s: string, i: nat, t: string, j: nat, cutoff: nat)
    requires i <= |s| && j <= |t|
  {
    && Min(Distance(s, i, t, j), cutoff + 1) <= v <= cutoff + 1
    && (Distance(s, i, t, j) + Owed(s, i, t, j) <= cutoff ==> v == Distance(s, i, t, j))
  }

  /** The value computed for a cell from its neighbours. */
  function Combined(deletion: int, insertion: int, mismatch: int, transposition: int, cutoff: nat): int {
    Min(cutoff + 1, Min(deletion, Min(insertion, Min(mismatch, transposition))))
  }

  /** A cell computed from good neighbours is good. */
  lemma CombinedIsGood(s: string, i: nat, t: string, j: nat, cutoff: nat, up: int, left: int, diagonal: int, corner: int)
    requires 0 < i <= |s| && 0 < j <= |t|
    requires Good(up, s, i - 1, t, j, cutoff) && Good(left, s, i, t, j - 1, cutoff)
    requires Good(diagonal, s, i - 1, t, j - 1, cutoff)
    requires i > 1 && j > 1 && Swapped(s, i, t, j) ==> Good(corner, s, i - 2, t, j - 2, cutoff)
    ensures var transposition := if i > 1 && j > 1 && Swapped(s, i, t, j) then corner + 1 else cutoff + 1;
            Good(Combined(up + 1, left + 1, diagonal + Mismatch(s, i, t, j), transposition, cutoff), s, i, t, j, cutoff)
  {
  }

  /** Cells are bytes: a good one has room for the one that is added to it. */
  lemma FitsByte(v: int, s: string, i: nat, t: string, j: nat, cutoff: nat)
    requires i <= |s| && j <= |t| && Good(v, s, i, t, j, cutoff) && cutoff <= MAX_SIZE
    ensures 0 <= v && v + 1 < 0x100
  {
  }

  /** How far below the diagonal the band reaches. */
  function LowerDiag(s: string, t: string, cutoff: nat): nat
    requires |s| <= |t| <= |s| + cutoff
  {
    cutoff - (|t| - |s|)
  }

  function First(i: nat, lowerDiag: nat): nat {
    if i > lowerDiag then i - lowerDiag - 1 else 0
  }

  function Last(i: nat, upperDiag: nat, size: nat): nat {
    if i + upperDiag + 1 > size then size else i + upperDiag + 1
  }

  /** Row i of the table is filled from its first column up to, not including, column `end`. */
  ghost predicate RowFilled(d: array2<int>, s: string, i: nat, t: string, cutoff: nat, from: nat, end: nat)
    requires d.Length0 == MAX_SIZE + 2 && d.Length1 == MAX_SIZE + 2
    requires i <= |s| <= MAX_SIZE && |t| <= MAX_SIZE && end <= |t| + 1
    reads d
  {
    forall j :: from <= j < end ==> Good(d[i, j], s, i, t, j, cutoff)
  }

  /** Beyond the band on either side no path within the cutoff comes through. */
  lemma {:induction false} BeyondBand(s: string, i: nat, t: string, j: nat, cutoff: nat)
    requires i <= |s| <= |t| <= |s| + cutoff && j <= |t|
    requires i == j + LowerDiag(s, t, cutoff) + 1 || j == i + cutoff + 1
    ensures Good(cutoff + 1, s, i, t, j, cutoff)
  {
    AtLeastDifference(s, i, t, j);
  }

  lemma Edges(s: string, t: string, k: nat, cutoff: nat)
    ensures k <= |t| && k <= cutoff + 1 ==> Good(k, s, 0, t, k, cutoff)
    ensures k <= |s| && k <= cutoff + 1 ==> Good(k, s, k, t, 0, cutoff)
  {
  }

  /** The distance of a pair of strings; one that is too long is farther than any cutoff. */
  function Measured(s: string, t: string): nat {
    if |s| > MAX_SIZE || |t| > MAX_SIZE then 255 else Distance(s, |s|, t, |t|)
  }

  /** Row i is good wherever later rows look at it. */
  ghost predicate RowGood(d: array2<int>, s: string, i: nat, t: string, cutoff: nat)
    requires d.Length0 == MAX_SIZE + 2 && d.Length1 == MAX_SIZE + 2
    requires i <= |s| <= |t| <= |s| + cutoff && |t| <= MAX_SIZE
    reads d
  {
    RowFilled(d, s, i, t, cutoff, First(i, LowerDiag(s, t, cutoff)), Last(i, cutoff, |t|) + 1)
  }

  /** Strings in order of length that the table is computed for, and a row of it to be filled. */
  predicate RowToFill(s: string, i: nat, t: string, cutoff: nat) {
    0 < |s| <= |t| <= |s| + cutoff && |t| <= MAX_SIZE && cutoff <= MAX_SIZE && 1 <= i <= |s|
  }

  ghost predicate RowsAbove(d: array2<int>, s: string, i: nat, t: string, cutoff: nat)
    requires d.Length0 == MAX_SIZE + 2 && d.Length1 == MAX_SIZE + 2 && RowToFill(s, i, t, cutoff)
    reads d
  {
    RowGood(d, s, i - 1, t, cutoff) && (i > 1 ==> RowGood(d, s, i - 2, t, cutoff))
  }

  /** Row i is filled so far: from the cell before its window up to j, and just beyond its window. */
  ghost predicate RowSoFar(d: array2<int>, s: string, i: nat, t: string, cutoff: nat, j: nat)
    requires d.Length0 == MAX_SIZE + 2 && d.Length1 == MAX_SIZE + 2 && RowToFill(s, i, t, cutoff) && j <= |t| + 1
    reads d
  {
    && RowFilled(d, s, i, t, cutoff, First(i, LowerDiag(s, t, cutoff)), j)
    && (i + cutoff + 1 <= |t| ==> Good(d[i, i + cutoff + 1], s, i, t, i + cutoff + 1, cutoff))
  }

  /** The window of row i, and the cells just outside it. */
  method OpenRow(d: array2<int>, s: string, t: string, cutoff: nat, i: nat) returns (begin: nat, end: nat)
    requires d.Length0 == MAX_SIZE + 2 && d.Length1 == MAX_SIZE + 2 && RowToFill(s, i, t, cutoff)
    requires RowsAbove(d, s, i, t, cutoff)
    modifies d
    ensures RowsAbove(d, s, i, t, cutoff)
    ensures begin == First(i, LowerDiag(s, t, cutoff)) + 1 && end == (if i + cutoff > |t| then |t| else i + cutoff)
    ensures begin <= |t| + 1 && RowSoFar(d, s, i, t, cutoff, begin)
  {
    hide Good;
    begin := 1;
    if i > LowerDiag(s, t, cutoff) {
      begin := i - LowerDiag(s, t, cutoff);
      d[i, begin - 1] := cutoff + 1;
      BeyondBand(s, i, t, begin - 1, cutoff);
    } else {
      d[i, 0] := i;
      Edges(s, t, i, cutoff);
    }
    end := i + cutoff;
    if end > |t| {
      end := |t|;
    } else {
      d[i, end + 1] := cutoff + 1;
      if end + 1 <= |t| {
        BeyondBand(s, i, t, end + 1, cutoff);
      }
    }
  }

  /** One cell, from its neighbours; every cell it reads was written before. */
  method FillCell(d: array2<int>, s: string, t: string, cutoff: nat, i: nat, j: nat)
    requires d.Length0 == MAX_SIZE + 2 && d.Length1 == MAX_SIZE + 2 && RowToFill(s, i, t, cutoff)
    requires First(i, LowerDiag(s, t, cutoff)) < j <= |t| && j <= i + cutoff
    requires RowsAbove(d, s, i, t, cutoff) && RowSoFar(d, s, i, t, cutoff, j)
    modifies d
    ensures RowsAbove(d, s, i, t, cutoff) && RowSoFar(d, s, i, t, cutoff, j + 1)
  {
    hide Good, Swapped, Mismatch, Combined;
    assert Good(d[i - 1, j], s, i - 1, t, j, cutoff);
    assert Good(d[i, j - 1], s, i, t, j - 1, cutoff);
    assert Good(d[i - 1, j - 1], s, i - 1, t, j - 1, cutoff);
    var deletion := d[i - 1, j] + 1;
    var insertion := d[i, j - 1] + 1;
    var mismatch := d[i - 1, j - 1] + Mismatch(s, i, t, j);
    var transposition := cutoff + 1;
    if i > 1 && j > 1 && Swapped(s, i, t, j) {
      assert Good(d[i - 2, j - 2], s, i - 2, t, j - 2, cutoff);
      transposition := d[i - 2, j - 2] + 1;
    }
    FitsByte(d[i - 1, j], s, i - 1, t, j, cutoff);
    FitsByte(d[i, j - 1], s, i, t, j - 1, cutoff);
    FitsByte(d[i - 1, j - 1], s, i - 1, t, j - 1, cutoff);
    CombinedIsGood(s, i, t, j, cutoff, d[i - 1, j], d[i, j - 1], d[i - 1, j - 1], transposition - 1);
    d[i, j] := Combined(deletion, insertion, mismatch, transposition, cutoff);
  }

  /** One row, from the two rows above it. */
  method FillRow(d: array2<int>, s: string, t: string, cutoff: nat, i: nat)
    requires d.Length0 == MAX_SIZE + 2 && d.Length1 == MAX_SIZE + 2 && RowToFill(s, i, t, cutoff)
    requires RowsAbove(d, s, i, t, cutoff)
    modifies d
    ensures RowGood(d, s, i, t, cutoff) && RowGood(d, s, i - 1, t, cutoff)
  {
    hide Good, RowGood, RowFilled;
    var begin, end := OpenRow(d, s, t, cutoff, i);
    var j: nat := begin;
    while j <= end
      invariant begin <= j <= end + 1
      invariant RowsAbove(d, s, i, t, cutoff) && RowSoFar(d, s, i, t, cutoff, j)
    {
      FillCell(d, s, t, cutoff, i, j);
      j := j + 1;
    }
    RowDone(d, s, i, t, cutoff, end);
  }

  lemma {:induction false} RowDone(d: array2<int>, s: string, i: nat, t: string, cutoff: nat, end: nat)
    requires d.Length0 == MAX_SIZE + 2 && d.Length1 == MAX_SIZE + 2 && RowToFill(s, i, t, cutoff)
    requires end == (if i + cutoff > |t| then |t| else i + cutoff) && RowSoFar(d, s, i, t, cutoff, end + 1)
    ensures RowGood(d, s, i, t, cutoff)
  {
    hide Good;
  }

  /** The last cell of the table is the result. */
  lemma {:induction false} LastCell(d: array2<int>, s: string, t: string, cutoff: nat)
    requires d.Length0 == MAX_SIZE + 2 && d.Length1 == MAX_SIZE + 2 && RowToFill(s, |s|, t, cutoff)
    requires RowGood(d, s, |s|, t, cutoff)
    ensures d[|s|, |t|] == Min(Distance(s, |s|, t, |t|), cutoff + 1)
  {
    assert Good(d[|s|, |t|], s, |s|, t, |t|, cutoff);
    hide Distance;
  }

  /** The banded computation for strings in order of length. */
  method FillTable(s: string, t: string, cutoff: nat) returns (distance: int)
    requires 0 < |s| <= |t| <= |s| + cutoff && |t| <= MAX_SIZE && cutoff <= MAX_SIZE
    ensures distance == Min(Distance(s, |s|, t, |t|), cutoff + 1)
  {
    hide Good, Distance, RowFilled;
    var d := new int[MAX_SIZE + 2, MAX_SIZE + 2];
    for k := 0 to cutoff + 1
      invariant forall j :: 0 <= j < k ==> d[0, j] == j
    {
      d[0, k] := k;
    }
    d[0, cutoff + 1] := cutoff + 1;
    FirstRow(d, s, t, cutoff);
    hide RowGood;
    var i: nat := 1;
    while i <= |s|
      invariant 1 <= i <= |s| + 1
      invariant RowGood(d, s, i - 1, t, cutoff)
      invariant i > 1 ==> RowGood(d, s, i - 2, t, cutoff)
    {
      FillRow(d, s, t, cutoff, i);
      i := i + 1;
    }
    distance := d[|s|, |t|];
    LastCell(d, s, t, cutoff);
  }

  lemma {:induction false} FirstRow(d: array2<int>, s: string, t: string, cutoff: nat)
    requires d.Length0 == MAX_SIZE + 2 && d.Length1 == MAX_SIZE + 2
    requires |s| <= |t| <= |s| + cutoff && |t| <= MAX_SIZE && cutoff <= MAX_SIZE
    requires forall j :: 0 <= j <= cutoff + 1 ==> d[0, j] == j
    ensures RowGood(d, s, 0, t, cutoff)
  {
    hide Good;
    forall j | 0 <= j < Last(0, cutoff, |t|) + 1 ensures Good(d[0, j], s, 0, t, j, cutoff) {
      Edges(s, t, j, cutoff);
    }
  }

  /** The distance if it is within the cutoff, and otherwise the cutoff plus one. */
  method CappedDamerauLevenshteinDistance(s1: string, s2: string, cutoff0: nat) returns (distance: int)
    ensures distance == Min(Measured(s1, s2), Min(MAX_SIZE, cutoff0) + 1)
    ensures |s1| <= 100 && |s2| <= 100 ==>
              distance == Min(Distance(s1, |s1|, s2, |s2|), (if cutoff0 > 100 then 100 else cutoff0) + 1)
    ensures |s1| > 100 || |s2| > 100 ==> distance == (if cutoff0 > 100 then 100 else cutoff0) + 1
  {
    var cutoff: nat := Min(MAX_SIZE, cutoff0);
    var s, t := s1, s2;
    if |s| > |t| {
      s, t := t, s;
    }
    if |s| <= MAX_SIZE && |t| <= MAX_SIZE {
      AtLeastDifference(s, |s|, t, |t|);
      DistanceSymmetric(s, |s|, t, |t|);
    }
    if |s| + cutoff < |t| || |t| > MAX_SIZE {
      return cutoff + 1;
    }
    if s == "" {
      return |t|;
    }
    distance := FillTable(s, t, cutoff);
  }
}

/**
 The order of names and what the standard algorithms do with it: sorting by name and the search for
 the first name that is not less than a key.
 */
module StringOrder {
  /** Lexicographic order on characters. */
  predicate Less(a: string, b: string) {
    |b| > 0 && (|a| == 0 || a[0] < b[0] || (a[0] == b[0] && Less(a[1..], b[1..])))
  }

  /** A name is less if it is a proper beginning of the other, or has the lesser character where they first differ. */
  lemma {:induction false} LessMeans(a: string, b: string)
    ensures Less(a, b) <==> exists k: nat :: DecidedAt(a, b, k)
  {
    if |a| > 0 && |b| > 0 && a[0] == b[0] {
      LessMeans(a[1..], b[1..]);
      if k: nat :| DecidedAt(a, b, k) {
        assert k > 0;
        assert a[1..][..k - 1] == a[..k][1..] && b[1..][..k - 1] == b[..k][1..];
        assert DecidedAt(a[1..], b[1..], k - 1);
      }
      if k: nat :| DecidedAt(a[1..], b[1..], k) {
        assert a[..k + 1] == [a[0]] + a[1..][..k] && b[..k + 1] == [b[0]] + b[1..][..k];
        assert DecidedAt(a, b, k + 1);
      }
    } else {
      if Less(a, b) {
        assert DecidedAt(a, b, 0);
      }
      forall k: nat | DecidedAt(a, b, k) ensures Less(a, b) {
        FirstDecides(a, b, k);
      }
    }
  }

  lemma {:induction false} FirstDecides(a: string, b: string, k: nat)
    requires DecidedAt(a, b, k)
    ensures if k == 0 then Less(a, b) else |a| > 0 && a[0] == b[0]
  {
    if k > 0 {
      assert a[..k][0] == b[..k][0];
    }
  }

  /** Are both alike up to k, and is there the end of `a` or a lesser character in it? */
  ghost predicate DecidedAt(a: string, b: string, k: nat) {
    k <= |a| && k < |b| && a[..k] == b[..k] && (k == |a| || a[k] < b[k])
  }

  lemma {:induction false} LessIrreflexive(a: string)
    ensures !Less(a, a)
  {
    if |a| > 0 {
      LessIrreflexive(a[1..]);
    }
  }

  lemma {:induction false} LessTransitive(a: string, b: string, c: string)
    requires Less(a, b) && Less(b, c)
    ensures Less(a, c)
  {
    if |a| > 0 && a[0] == b[0] && b[0] == c[0] {
      LessTransitive(a[1..], b[1..], c[1..]);
    }
  }

  lemma {:induction false} LessTotal(a: string, b: string)
    ensures Less(a, b) || Less(b, a) || a == b
  {
    if |a| > 0 && |b| > 0 && a[0] == b[0] {
      LessTotal(a[1..], b[1..]);
      assert a == [a[0]] + a[1..] && b == [b[0]] + b[1..];
    }
  }

  // ----- Sequences of names in order

  ghost predicate Sorted(names: seq<string>) {
    forall i, j :: 0 <= i < j < |names| ==> !Less(names[j], names[i])
  }

  /**
   * The first position whose name is not less than `name`, by halving: the search that
   * std::partition_point and std::binary_search make.
   */
  method LowerBound(names: seq<string>, name: string) returns (first: nat)
    requires Sorted(names)
    ensures first <= |names|
    ensures forall i :: 0 <= i < first ==> Less(names[i], name)
    ensures forall i :: first <= i < |names| ==> !Less(names[i], name)
  {
    first := 0;
    var count := |names|;
    while count > 0
      invariant 0 <= first <= first + count <= |names|
      invariant forall i :: 0 <= i < first ==> Less(names[i], name)
      invariant forall i :: first + count <= i < |names| ==> !Less(names[i], name)
    {
      var step := count / 2;
      var middle := first + step;
      if Less(names[middle], name) {
        forall i | 0 <= i < middle ensures Less(names[i], name) {
          LessTotal(names[i], names[middle]);
          if Less(names[i], names[middle]) {
            LessTransitive(names[i], names[middle], name);
          }
        }
        first, count := middle + 1, count - step - 1;
      } else {
        forall i | middle <= i < |names| ensures !Less(names[i], name) {
          LessTotal(names[i], names[middle]);
          if Less(names[i], name) && Less(names[middle], names[i]) {
            LessTransitive(names[middle], names[i], name);
          }
        }
        count := step;
      }
    }
  }

  /** std::binary_search: is the name there? */
  method BinarySearch(names: seq<string>, name: string) returns (found: bool)
    requires Sorted(names)
    ensures found <==> name in names
  {
    var first := LowerBound(names, name);
    found := first < |names| && !Less(name, names[first]);
    LessIrreflexive(name);
    if first < |names| {
      LessTotal(names[first], name);
    }
  }

  // ----- Sorting

  function Insert(name: string, names: seq<string>): (r: seq<string>)
    ensures multiset(r) == multiset{name} + multiset(names)
  {
    if names == [] then [name]
    else if Less(names[0], name) then
      assert names == [names[0]] + names[1..];
      [names[0]] + Insert(name, names[1..])
    else [name] + names
  }

  /** Any sort gives this result: a sorted arrangement of names is unique. */
  function Sort(names: seq<string>): (r: seq<string>)
    ensures multiset(r) == multiset(names)
  {
    if names == [] then []
    else
      assert names == [names[0]] + names[1..];
      Insert(names[0], Sort(names[1..]))
  }

  lemma {:induction false} InsertSorted(name: string, names: seq<string>)
    requires Sorted(names)
    ensures Sorted(Insert(name, names))
  {
    var r := Insert(name, names);
    if names == [] {
    } else if Less(names[0], name) {
      InsertSorted(name, names[1..]);
      forall j | 1 <= j < |r| ensures !Less(r[j], names[0]) {
        assert r[j] in multiset(r[1..]);
        if r[j] == name {
          if Less(name, names[0]) {
            LessTransitive(name, names[0], name);
            LessIrreflexive(name);
          }
        } else {
          assert r[j] in names[1..];
        }
      }
    } else {
      forall j | 1 <= j < |r| ensures !Less(r[j], name) {
        if Less(r[j], name) {
          LessTotal(names[0], r[j]);
          if Less(names[0], r[j]) {
            LessTransitive(names[0], r[j], name);
          }
        }
      }
    }
  }

  lemma {:induction false} SortSorts(names: seq<string>)
    ensures Sorted(Sort(names))
  {
    if names != [] {
      SortSorts(names[1..]);
      InsertSorted(names[0], Sort(names[1..]));
    }
  }
}

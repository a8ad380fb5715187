/**
 Command-line arguments: what a single argument means, and the argument lists that flag files and
 environment variables hold.
 */
module FlagArguments {
  import opened Options
  import opened Marshalling

  datatype Kind = BoolFlag | StringFlag | OtherFlag
  datatype Flag = Flag(name: string, kind: Kind, retired: bool)

  // What a parse depends on and never changes: the registered flags, the values each accepts, and
  // what files and the environment hold.
  datatype World = World(
    flags: map<string, Flag>,
    accepts: (string, string) -> bool,
    files: map<string, seq<string>>,
    env: map<string, string>)

  const FLAGFILE := "flagfile"
  const FROMENV := "fromenv"
  const TRYFROMENV := "tryfromenv"
  const UNDEFOK := "undefok"

  /** The flags of the parser itself; all hold lists of strings. */
  predicate IsListFlag(name: string) {
    name == FLAGFILE || name == FROMENV || name == TRYFROMENV || name == UNDEFOK
  }

  lemma ListFlagsAre(name: string)
    ensures IsListFlag(name) <==> name in {"flagfile", "fromenv", "tryfromenv", "undefok"}
  {
  }

  ghost predicate Valid(w: World) {
    && (forall name :: name in w.flags ==> w.flags[name].name == name)
    && (forall name :: IsListFlag(name) ==> name in w.flags && w.flags[name] == Flag(name, OtherFlag, false))
  }

  // ----- One argument

  function IndexOf(s: string, c: char): (i: nat)
    ensures i <= |s| && c !in s[..i] && (i < |s| ==> s[i] == c)
  {
    if s == "" || s[0] == c then 0
    else
      assert forall n: nat :: n <= |s[1..]| ==> s[..n + 1] == [s[0]] + s[1..][..n];
      1 + IndexOf(s[1..], c)
  }

  datatype Split = Split(name: string, value: string, isEmptyValue: bool)

  /** One more leading dash is allowed; the name ends at the first equals sign. */
  function SplitNameAndValue(arg0: string): Split {
    var arg := if arg0 != "" && arg0[0] == '-' then arg0[1..] else arg0;
    var p := IndexOf(arg, '=');
    if p == |arg| then Split(arg, "", false)
    else Split(arg[..p], arg[p + 1..], arg[p + 1..] == "")
  }

  function FindCommandLineFlag(w: World, name: string): Option<Flag> {
    if name != "" && name in w.flags then Some(w.flags[name]) else None
  }

  predicate HasNoPrefix(name: string) {
    "no" <= name
  }

  // The flag a name stands for, and whether it was found under its negative form.
  datatype Located = Located(flag: Option<Flag>, negative: bool)

  function LocateFlag(w: World, name: string): Located {
    var flag := FindCommandLineFlag(w, name);
    if flag.None? && HasNoPrefix(name) then Located(FindCommandLineFlag(w, name[2..]), true)
    else Located(flag, false)
  }

  predicate IsUsageFlag(name: string) {
    if "help" <= name then
      var rest := name[4..];
      rest == "" || rest == "match" || rest == "on" || rest == "full" || rest == "short" || rest == "package"
    else name == "version" || name == "only_check_args"
  }

  // A value deduced for a flag, and whether the following argument was used up for it.
  datatype Deduced = Deduced(ok: bool, value: string, consumes: bool)

  const NO_VALUE := Deduced(false, "", false)

  function Deduce(flag: Flag, split: Split, negative: bool, next: Option<string>): Deduced {
    if flag.kind.BoolFlag? then
      if split.value == "" then
        if split.isEmptyValue then NO_VALUE
        else Deduced(true, if negative then "0" else "1", false)
      else if negative then NO_VALUE
      else Deduced(true, split.value, false)
    else if negative then NO_VALUE
    else if split.value == "" && !split.isEmptyValue then
      if next.None? then NO_VALUE else Deduced(true, next.value, true)
    else Deduced(true, split.value, false)
  }

  // What an argument is.
  datatype Item =
    | Positional
    | Terminator
    | Usage
    | Unknown(name: string)
    | Assign(flag: Flag, value: string, deduced: bool, consumes: bool)

  predicate LooksPositional(arg: string) {
    arg == "" || arg[0] != '-' || arg == "-"
  }

  function Classify(w: World, arg: string, next: Option<string>): Item {
    if LooksPositional(arg) then Positional
    else
      var split := SplitNameAndValue(arg[1..]);
      if split.name == "" then Terminator
      else
        var located := LocateFlag(w, split.name);
        if located.flag.None? then
          if IsUsageFlag(split.name) then Usage else Unknown(split.name)
        else
          var d := Deduce(located.flag.value, split, located.negative, next);
          Assign(located.flag.value, d.value, d.ok, d.consumes)
  }

  function Next(args: seq<string>, i: nat): Option<string> {
    if i + 1 < |args| then Some(args[i + 1]) else None
  }

  /** The argument at a position; a value is only ever taken from the same list. */
  function ItemAt(w: World, args: seq<string>, i: nat): (item: Item)
    requires i < |args|
    ensures item.Assign? && item.consumes ==> i + 1 < |args| && item.value == args[i + 1]
  {
    Classify(w, args[i], Next(args, i))
  }

  /** The position after an argument and the value it used up. */
  function After(item: Item, i: nat): nat {
    if item.Assign? && item.consumes then i + 2 else i + 1
  }

  lemma {:induction false} FirstIndex(s: string, c: char, k: nat)
    requires k < |s| && s[k] == c && c !in s[..k]
    ensures IndexOf(s, c) == k
  {
    if k > 0 {
      assert s[..k][0] == s[0];
      assert s[1..][..k - 1] == s[..k][1..];
      FirstIndex(s[1..], c, k - 1);
    }
  }

  /** An argument that spells out its name and value is read as that name and value. */
  lemma {:induction false} SpelledOut(name: string, value: string)
    requires '=' !in name
    ensures SplitNameAndValue("-" + name + "=" + value) == Split(name, value, value == "")
  {
    var arg := "-" + name + "=" + value;
    var rest := name + "=" + value;
    assert arg[1..] == rest;
    assert rest[..|name|] == name && rest[|name| + 1..] == value;
    FirstIndex(rest, '=', |name|);
  }

  lemma {:induction false} NoIndex(s: string, c: char)
    requires c !in s
    ensures IndexOf(s, c) == |s|
  {
    if s != "" {
      assert s[0] in s;
      NoIndex(s[1..], c);
    }
  }

  lemma {:induction false} NameAlone(name: string)
    requires '=' !in name
    ensures SplitNameAndValue("-" + name) == Split(name, "", false)
  {
    assert ("-" + name)[1..] == name;
    NoIndex(name, '=');
  }

  /** The argument that stands for a split, when its name is not empty. */
  lemma {:induction false} DashDash(w: World, text: string, split: Split, next: Option<string>)
    requires SplitNameAndValue("-" + text) == split && split.name != ""
    ensures Classify(w, "--" + text, next) ==
            var located := LocateFlag(w, split.name);
            if located.flag.None? then if IsUsageFlag(split.name) then Usage else Unknown(split.name)
            else
              var d := Deduce(located.flag.value, split, located.negative, next);
              Assign(located.flag.value, d.value, d.ok, d.consumes)
  {
    var arg := "--" + text;
    assert arg[1..] == "-" + text;
    hide SplitNameAndValue, LocateFlag, Deduce, IsUsageFlag;
  }

  lemma {:induction false} NegativeName(w: World, name: string)
    requires name != "" && name in w.flags
    ensures "no" + name !in w.flags ==> LocateFlag(w, "no" + name) == Located(Some(w.flags[name]), true)
    ensures LocateFlag(w, name) == Located(Some(w.flags[name]), false)
  {
    assert ("no" + name)[2..] == name;
  }

  /** The forms of a boolean flag; the negative ones unless they name a flag of their own. */
  lemma {:induction false} BooleanForms(w: World, name: string, value: string, next: Option<string>)
    requires name != "" && '=' !in name && name in w.flags && w.flags[name].kind.BoolFlag?
    ensures Classify(w, "--" + name, next) == Assign(w.flags[name], "1", true, false)
    ensures Classify(w, "--" + (name + "=" + value), next) == Assign(w.flags[name], value, value != "", false)
    ensures "no" + name !in w.flags ==>
              && Classify(w, "--" + ("no" + name), next) == Assign(w.flags[name], "0", true, false)
              && Classify(w, "--" + ("no" + name + "=" + value), next) == Assign(w.flags[name], "", false, false)
  {
    hide Classify, LocateFlag, SplitNameAndValue;
    NegativeName(w, name);
    NameAlone(name);
    NameAlone("no" + name);
    SpelledOut(name, value);
    SpelledOut("no" + name, value);
    Regrouped(name, value);
    Regrouped("no" + name, value);
    DashDash(w, name, Split(name, "", false), next);
    DashDash(w, "no" + name, Split("no" + name, "", false), next);
    DashDash(w, name + "=" + value, Split(name, value, value == ""), next);
    DashDash(w, "no" + name + "=" + value, Split("no" + name, value, value == ""), next);
  }

  /** The forms of other flags: two ways to give a value, and those that are refused. */
  lemma {:induction false} ValueForms(w: World, name: string, value: string, next: Option<string>)
    requires name != "" && '=' !in name && name in w.flags && !w.flags[name].kind.BoolFlag?
    ensures Classify(w, "--" + (name + "=" + value), next) == Assign(w.flags[name], value, true, false)
    ensures Classify(w, "--" + name, Some(value)) == Assign(w.flags[name], value, true, true)
    ensures Classify(w, "--" + name, None) == Assign(w.flags[name], "", false, false)
    ensures "no" + name !in w.flags ==>
              && Classify(w, "--" + ("no" + name), next) == Assign(w.flags[name], "", false, false)
              && Classify(w, "--" + ("no" + name + "=" + value), next) == Assign(w.flags[name], "", false, false)
  {
    hide Classify, LocateFlag, SplitNameAndValue;
    NegativeName(w, name);
    NameAlone(name);
    NameAlone("no" + name);
    SpelledOut(name, value);
    SpelledOut("no" + name, value);
    Regrouped(name, value);
    Regrouped("no" + name, value);
    DashDash(w, name, Split(name, "", false), Some(value));
    DashDash(w, name, Split(name, "", false), None);
    DashDash(w, "no" + name, Split("no" + name, "", false), next);
    DashDash(w, name + "=" + value, Split(name, value, value == ""), next);
    DashDash(w, "no" + name + "=" + value, Split("no" + name, value, value == ""), next);
  }

  /** Which arguments are positional, and which end the flags. */
  lemma {:induction false} DashForms(w: World, arg: string, next: Option<string>)
    ensures Classify(w, arg, next).Positional? <==> arg == "" || arg[0] != '-' || arg == "-"
    ensures Classify(w, arg, next).Terminator? <==> arg == "--" || "-=" <= arg || "--=" <= arg
  {
    hide SplitNameAndValue, LocateFlag, Deduce, IsUsageFlag;
    if !LooksPositional(arg) {
      var rest := arg[1..];
      NoName(rest);
      assert arg == "-" + rest;
      assert "-=" <= arg <==> rest[0] == '=';
      assert "--=" <= arg <==> "-=" <= rest;
    }
  }

  /** An argument has no name if it is nothing but a dash, or its equals sign comes at once. */
  lemma {:induction false} NoName(arg: string)
    requires arg != ""
    ensures SplitNameAndValue(arg).name == "" <==> arg == "-" || arg[0] == '=' || "-=" <= arg
  {
    var rest := if arg[0] == '-' then arg[1..] else arg;
    assert arg == "-" <==> rest == "";
    assert "-=" <= arg <==> |arg| >= 2 && arg[0] == '-' && arg[1] == '=';
    if rest != "" {
      var p := IndexOf(rest, '=');
      assert p == 0 <==> rest[0] == '=';
      assert SplitNameAndValue(arg).name == if p == |rest| then rest else rest[..p];
      assert arg[0] == '-' ==> rest[0] == arg[1];
    }
  }

  lemma {:induction false} SameSplit(text: string)
    requires text != "" && text[0] != '-'
    ensures SplitNameAndValue("-" + text) == SplitNameAndValue(text)
  {
    assert ("-" + text)[1..] == text;
    hide IndexOf;
  }

  /** One dash does as well as two. */
  lemma {:induction false} SingleDash(w: World, text: string, next: Option<string>)
    requires text != "" && text[0] != '-'
    ensures Classify(w, "-" + text, next) == Classify(w, "--" + text, next)
  {
    hide LocateFlag, Deduce, IsUsageFlag;
    assert ("--" + text)[1..] == "-" + text;
    assert ("-" + text)[1..] == text;
    SameSplit(text);
    hide SplitNameAndValue;
  }

  lemma Behind(prefix: string, rest: string, whole: string)
    requires whole == prefix + rest
    ensures prefix <= whole && whole[|prefix|..] == rest
  {
  }

  lemma {:induction false} UsageNames(name: string)
    ensures IsUsageFlag(name) <==> name in {"help", "helpmatch", "helpon", "helpfull", "helpshort", "helppackage",
                                            "version", "only_check_args"}
  {
    Behind("help", "", "help");
    Behind("help", "match", "helpmatch");
    Behind("help", "on", "helpon");
    Behind("help", "full", "helpfull");
    Behind("help", "short", "helpshort");
    Behind("help", "package", "helppackage");
    assert "version"[0] != "help"[0] && "only_check_args"[0] != "help"[0];
    if "help" <= name {
      assert name == "help" + name[4..];
    }
  }

  /** A name no flag goes by is a usage flag or unrecognized, with a value or without. */
  lemma {:induction false} UnknownForms(w: World, name: string, value: string, next: Option<string>)
    requires name != "" && '=' !in name && name !in w.flags
    requires "no" <= name ==> name == "no" || name[2..] !in w.flags
    ensures Classify(w, "--" + name, next) == Classify(w, "--" + (name + "=" + value), next)
         == if name in {"help", "helpmatch", "helpon", "helpfull", "helpshort", "helppackage", "version", "only_check_args"}
            then Usage else Unknown(name)
  {
    assert LocateFlag(w, name).flag == None;
    hide Classify, LocateFlag, SplitNameAndValue, IsUsageFlag;
    UsageNames(name);
    NameAlone(name);
    SpelledOut(name, value);
    Regrouped(name, value);
    DashDash(w, name, Split(name, "", false), next);
    DashDash(w, name + "=" + value, Split(name, value, value == ""), next);
  }

  /** A boolean flag named alone is set to a word for true, under its negative form to one for false. */
  lemma {:induction false} NamedAloneReads(w: World, name: string, next: Option<string>)
    requires name != "" && '=' !in name && name in w.flags && w.flags[name].kind.BoolFlag?
    ensures var item := Classify(w, "--" + name, next);
            item.Assign? && item.flag == w.flags[name] && item.deduced
            && SaysIn(item.value, TRUE_WORDS) && !SaysIn(item.value, FALSE_WORDS)
    ensures "no" + name !in w.flags ==>
              var item := Classify(w, "--" + ("no" + name), next);
              item.Assign? && item.flag == w.flags[name] && item.deduced
              && SaysIn(item.value, FALSE_WORDS) && !SaysIn(item.value, TRUE_WORDS)
  {
    hide Classify, SaysIn;
    BooleanForms(w, name, "", next);
    DigitsSay();
  }

  lemma Regrouped(name: string, value: string)
    ensures "-" + (name + "=" + value) == "-" + name + "=" + value
  {
  }

  /** A split with an equals sign has a value, or an empty one. */
  lemma {:induction false} EqualsSeen(arg: string)
    requires '=' in arg
    ensures var split := SplitNameAndValue(arg); split.value != "" || split.isEmptyValue
  {
    var rest := if arg[0] == '-' then arg[1..] else arg;
    assert arg == [arg[0]] + arg[1..];
    assert rest[..|rest|] == rest;
  }

  /** An argument with an equals sign never uses up the next one. */
  lemma {:induction false} NoLookAhead(w: World, arg: string, next: Option<string>)
    requires '=' in arg
    ensures Classify(w, arg, next) == Classify(w, arg, None)
  {
    if !LooksPositional(arg) {
      assert arg == [arg[0]] + arg[1..];
      EqualsSeen(arg[1..]);
      hide SplitNameAndValue, LocateFlag;
    }
  }

  // ----- Lists read from files and the environment

  datatype Line = Ignored | Argument(text: string) | Refused

  function ReadLine(line: string): Line {
    var stripped := StripLeading(line);
    if stripped == "" || stripped[0] == '#' then Ignored
    else if stripped[0] == '-' && stripped != "--" then Argument(stripped)
    else Refused
  }

  /** A line of a flag file, whatever space it starts with. */
  lemma {:induction false} LineReads(pad: string, rest: string)
    requires AllSpace(pad) && (rest == "" || !IsSpace(rest[0]))
    ensures ReadLine(pad + rest)
         == if rest == "" || rest[0] == '#' then Ignored
            else if rest[0] == '-' && rest != "--" then Argument(rest)
            else Refused
  {
    StripLeadingPads(pad, rest);
  }

  /** The arguments of a flag file; None if any line is refused. */
  function FileArguments(lines: seq<string>): Option<seq<string>> {
    if lines == [] then Some([])
    else
      var front := FileArguments(lines[..|lines| - 1]);
      var line := ReadLine(lines[|lines| - 1]);
      if front.None? || line.Refused? then None
      else Some(front.value + if line.Argument? then [line.text] else [])
  }

  /** Every list starts with a stand-in for the program name. */
  function FileList(w: World, file: string): Option<seq<string>> {
    if file !in w.files || FileArguments(w.files[file]).None? then None
    else Some([""] + FileArguments(w.files[file]).value)
  }

  /** A file can be read exactly if none of its lines is refused. */
  lemma {:induction false} FileReadable(lines: seq<string>)
    ensures FileArguments(lines).Some? <==> forall i :: 0 <= i < |lines| ==> !ReadLine(lines[i]).Refused?
  {
    hide ReadLine;
    if lines != [] {
      FileReadable(lines[..|lines| - 1]);
    }
  }

  /** Lines are read one by one: what a file holds is what its parts hold, in order. */
  lemma {:induction false} FileJoin(a: seq<string>, b: seq<string>)
    ensures FileArguments(a + b)
         == if FileArguments(a).None? || FileArguments(b).None? then None
            else Some(FileArguments(a).value + FileArguments(b).value)
  {
    hide ReadLine;
    if b == [] {
      assert a + b == a;
      assert FileArguments(a).Some? ==> FileArguments(a).value + [] == FileArguments(a).value;
    } else {
      assert (a + b)[..|a + b| - 1] == a + b[..|b| - 1];
      FileJoin(a, b[..|b| - 1]);
      var line := ReadLine(b[|b| - 1]);
      var more := if line.Argument? then [line.text] else [];
      if FileArguments(a).Some? && FileArguments(b[..|b| - 1]).Some? {
        Appended(FileArguments(a).value, FileArguments(b[..|b| - 1]).value, more);
      }
    }
  }

  lemma Appended(a: seq<string>, b: seq<string>, c: seq<string>)
    ensures (a + b) + c == a + (b + c)
  {
  }

  lemma {:induction false} OneLine(line: string)
    ensures FileArguments([line])
         == match ReadLine(line) case Ignored => Some([]) case Argument(text) => Some([text]) case Refused => None
  {
    assert [line][..0] == [];
    var read := ReadLine(line);
    hide ReadLine;
    assert FileArguments([]) == Some([]);
    if read.Argument? {
      assert [] + [read.text] == [read.text];
    } else if read.Ignored? {
      var none: seq<string> := [];
      assert none + [] == none;
    }
  }

  lemma {:induction false} RefusedForGood(lines: seq<string>, i: nat)
    requires i <= |lines| && FileArguments(lines[..i]).None?
    ensures FileArguments(lines).None?
    decreases |lines| - i
  {
    if i == |lines| {
      assert lines[..i] == lines;
    } else {
      assert lines[..i + 1][..i] == lines[..i];
      RefusedForGood(lines, i + 1);
    }
  }

  /** A refused line is reported and skipped, but "--" ends the reading; either way the file fails. */
  method ReadFromFlagfile(w: World, file: string) returns (success: bool, args: seq<string>)
    ensures success <==> FileList(w, file).Some?
    ensures success ==> args == FileList(w, file).value
  {
    args := [];
    if file !in w.files {
      return false, args;
    }
    args := [""];
    success := true;
    var lines := w.files[file];
    for i := 0 to |lines|
      invariant success <==> FileArguments(lines[..i]).Some?
      invariant success ==> args == [""] + FileArguments(lines[..i]).value
    {
      assert lines[..i + 1][..i] == lines[..i];
      var stripped := StripLeading(lines[i]);
      if stripped == "" || stripped[0] == '#' {
        continue;
      }
      if stripped[0] == '-' {
        if stripped == "--" {
          success := false;
          RefusedForGood(lines, i + 1);
          break;
        }
        args := args + [stripped];
        continue;
      }
      success := false;
    }
    assert lines[..|lines|] == lines;
  }

  function EnvName(flag: string): string {
    "FLAGS_" + flag
  }

  function EnvArgument(flag: string, value: string): string {
    "--" + flag + "=" + value
  }

  /** None if a name is refused as recursive, or is absent though required. */
  function EnvArguments(w: World, names: seq<string>, required: bool): Option<seq<string>> {
    if names == [] then Some([])
    else
      var name := names[|names| - 1];
      var front := EnvArguments(w, names[..|names| - 1], required);
      if front.None? || name == FROMENV || name == TRYFROMENV then None
      else if EnvName(name) in w.env then Some(front.value + [EnvArgument(name, w.env[EnvName(name)])])
      else if required then None
      else front
  }

  lemma {:induction false} EnvRefusedForGood(w: World, names: seq<string>, required: bool, i: nat)
    requires i <= |names| && EnvArguments(w, names[..i], required).None?
    ensures EnvArguments(w, names, required).None?
    decreases |names| - i
  {
    if i == |names| {
      assert names[..i] == names;
    } else {
      assert names[..i + 1][..i] == names[..i];
      EnvRefusedForGood(w, names, required, i + 1);
    }
  }

  /** Variables can be read exactly if no environment generator is named and nothing required is absent. */
  lemma {:induction false} VariablesReadable(w: World, names: seq<string>, required: bool)
    ensures EnvArguments(w, names, required).Some?
       <==> forall i :: 0 <= i < |names| ==> names[i] != "fromenv" && names[i] != "tryfromenv"
                                             && (required ==> "FLAGS_" + names[i] in w.env)
  {
    if names != [] {
      VariablesReadable(w, names[..|names| - 1], required);
    }
  }

  /** Naming the environment generators in the environment is refused outright. */
  lemma {:induction false} DirectRecursionRefused(w: World, names: seq<string>, required: bool)
    requires "fromenv" in names || "tryfromenv" in names
    ensures EnvArguments(w, names, required).None?
  {
    var name := names[|names| - 1];
    var front := names[..|names| - 1];
    if name != FROMENV && name != TRYFROMENV {
      assert names == front + [name];
      DirectRecursionRefused(w, front, required);
    }
  }

  /** Variables are read one by one, in the order they are named. */
  lemma {:induction false} EnvJoin(w: World, a: seq<string>, b: seq<string>, required: bool)
    ensures EnvArguments(w, a + b, required)
         == if EnvArguments(w, a, required).None? || EnvArguments(w, b, required).None? then None
            else Some(EnvArguments(w, a, required).value + EnvArguments(w, b, required).value)
  {
    hide EnvName, EnvArgument;
    if b == [] {
      assert a + b == a;
      var r := EnvArguments(w, a, required);
      assert r.Some? ==> r.value + [] == r.value;
    } else {
      assert (a + b)[..|a + b| - 1] == a + b[..|b| - 1];
      EnvJoin(w, a, b[..|b| - 1], required);
      var name := b[|b| - 1];
      var front := EnvArguments(w, b[..|b| - 1], required);
      if EnvArguments(w, a, required).Some? && front.Some? && EnvName(name) in w.env {
        Appended(EnvArguments(w, a, required).value, front.value, [EnvArgument(name, w.env[EnvName(name)])]);
      }
    }
  }

  /** A variable that is absent adds nothing, or fails the list if it is required. */
  lemma {:induction false} AbsentVariable(w: World, name: string, required: bool)
    requires "FLAGS_" + name !in w.env
    ensures required ==> LoadEnv(w, [name], required) == Loaded([], false)
    ensures !required && name != "fromenv" && name != "tryfromenv" ==> LoadEnv(w, [name], required) == Loaded([[""]], true)
  {
    assert [name][..0] == [];
    assert EnvArguments(w, [], required) == Some([]);
    assert [""] + [] == [""];
  }

  /**
   * A variable that is present brings in one argument, which sets the flag named to the value of the
   * variable. On a boolean flag the empty value is refused.
   */
  lemma {:induction false} VariableAssigns(w: World, name: string, required: bool)
    requires name != "" && '=' !in name && name != "fromenv" && name != "tryfromenv"
    requires name in w.flags && "FLAGS_" + name in w.env
    ensures var value := w.env["FLAGS_" + name];
            var loaded := LoadEnv(w, [name], required);
            && loaded.ok && |loaded.lists| == 1 && |loaded.lists[0]| == 2 && loaded.lists[0][0] == ""
            && ItemAt(w, loaded.lists[0], 1)
               == Assign(w.flags[name], value, !(w.flags[name].kind.BoolFlag? && value == ""), false)
  {
    var value := w.env["FLAGS_" + name];
    var arg := EnvArgument(name, value);
    assert [name][..0] == [];
    assert EnvArguments(w, [], required) == Some([]);
    assert [] + [arg] == [arg];
    assert EnvArguments(w, [name], required) == Some([arg]);
    assert LoadEnv(w, [name], required).lists == [[""] + [arg]];
    assert EnvArgument(name, value) == "--" + (name + "=" + value);
    hide Classify;
    if w.flags[name].kind.BoolFlag? {
      BooleanForms(w, name, value, None);
    } else {
      ValueForms(w, name, value, None);
    }
  }

  method ReadFlagsFromEnv(w: World, names: seq<string>, failOnAbsent: bool) returns (success: bool, args: seq<string>)
    ensures success <==> EnvArguments(w, names, failOnAbsent).Some?
    ensures success ==> args == [""] + EnvArguments(w, names, failOnAbsent).value
  {
    success := true;
    args := [""];
    for i := 0 to |names|
      invariant success <==> EnvArguments(w, names[..i], failOnAbsent).Some?
      invariant success ==> args == [""] + EnvArguments(w, names[..i], failOnAbsent).value
    {
      assert names[..i + 1][..i] == names[..i];
      if names[i] == FROMENV || names[i] == TRYFROMENV {
        success := false;
        continue;
      }
      if EnvName(names[i]) !in w.env {
        if failOnAbsent {
          success := false;
        }
        continue;
      }
      args := args + [EnvArgument(names[i], w.env[EnvName(names[i])])];
    }
    assert names[..|names|] == names;
  }

  // Lists to be processed, first list first, and whether everything asked for was read.
  datatype Loaded = Loaded(lists: seq<seq<string>>, ok: bool)

  const NOTHING := Loaded([], true)

  function Together(a: Loaded, b: Loaded): Loaded {
    Loaded(a.lists + b.lists, a.ok && b.ok)
  }

  /** The files that can be read, in the order they are named. */
  function LoadFiles(w: World, files: seq<string>): Loaded {
    if files == [] then NOTHING
    else
      var list := FileList(w, files[0]);
      Together(if list.None? then Loaded([], false) else Loaded([list.value], true), LoadFiles(w, files[1..]))
  }

  lemma {:induction false} FilesInOrder(w: World, a: seq<string>, b: seq<string>)
    ensures LoadFiles(w, a + b) == Together(LoadFiles(w, a), LoadFiles(w, b))
  {
    hide FileList;
    if a == [] {
      assert a + b == b;
      assert [] + LoadFiles(w, b).lists == LoadFiles(w, b).lists;
    } else {
      assert (a + b)[1..] == a[1..] + b;
      FilesInOrder(w, a[1..], b);
    }
  }

  /** Files are loaded without error exactly if each is there and has no refused line. */
  lemma {:induction false} FilesReadable(w: World, files: seq<string>)
    ensures LoadFiles(w, files).ok
       <==> forall f :: f in files ==>
              f in w.files && forall i :: 0 <= i < |w.files[f]| ==> !ReadLine(w.files[f][i]).Refused?
  {
    hide ReadLine, FileArguments;
    if files != [] {
      FilesReadable(w, files[1..]);
      assert files == [files[0]] + files[1..];
      if files[0] in w.files {
        FileReadable(w.files[files[0]]);
      }
    }
  }

  /** One file: it fails if it is absent; a line that is a flag becomes the argument behind the stand-in. */
  lemma {:induction false} FileOfOneFlag(w: World, file: string, pad: string, text: string)
    requires AllSpace(pad) && text != "" && text[0] == '-' && text != "--"
    ensures file !in w.files ==> LoadFiles(w, [file]) == Loaded([], false)
    ensures file in w.files && w.files[file] == [pad + text] ==> LoadFiles(w, [file]) == Loaded([["", text]], true)
  {
    LineReads(pad, text);
    OneLine(pad + text);
    assert [file][1..] == [];
    assert LoadFiles(w, []) == NOTHING;
    hide ReadLine, FileArguments;
    assert [""] + [text] == ["", text];
    if file in w.files && w.files[file] == [pad + text] {
      assert FileList(w, file) == Some(["", text]);
      assert [["", text]] + [] == [["", text]];
    } else if file !in w.files {
      var none: seq<seq<string>> := [];
      assert none + [] == none;
    }
  }

  function LoadEnv(w: World, names: seq<string>, required: bool): Loaded {
    var args := EnvArguments(w, names, required);
    if args.None? then Loaded([], false) else Loaded([[""] + args.value], true)
  }

  /** Every list that is loaded holds at least the stand-in for the program name. */
  lemma {:induction false} ListsNotEmpty(w: World, files: seq<string>)
    ensures forall i :: 0 <= i < |LoadFiles(w, files).lists| ==> LoadFiles(w, files).lists[i] != []
  {
    if files != [] {
      ListsNotEmpty(w, files[1..]);
    }
  }
}

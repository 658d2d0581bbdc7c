/**
 * What `CLIArgs.createFor` promises, proved about the specification functions of module
 * `CliArgs` (and so, through `CliArgs.CreateFor`'s postcondition, about the method).
 */
module CliArgsProperties {
  import opened Wrappers
  import opened JavaText
  import opened CliArgs

  // ---------------------------------------------------------------------------------
  // Option matching

  /** A string made of dashes only. */
  predicate AllDashes(d: string) {
    forall i :: 0 <= i < |d| ==> d[i] == '-'
  }

  /**
   * Any number (at least one) of leading dashes in front of the option's letters matches
   * the option: `-patch-with`, `--patchwith` and `---patch-with` all select `--patch-with`.
   */
  lemma DashVariantsMatch(dashes: string, name: string)
    requires |dashes| > 0 && AllDashes(dashes)
    ensures Matches(dashes + DeleteChar(name, '-'), name)
  {
    var letters := DeleteChar(name, '-');
    DeleteCharAppend(dashes, letters, '-');
    DeleteCharAbsent(letters, '-');
    DeleteCharAll(dashes, '-');
    assert StartsWith(dashes + letters, "-") by {
      assert (dashes + letters)[0] == '-';
    }
  }

  /** An argument that does not start with a dash never selects an option (it is a value). */
  lemma ValuesNeverMatch(arg: string, name: string)
    requires !StartsWith(arg, "-")
    ensures !Matches(arg, name)
  {
  }

  /** A spelling the test suite relies on, and a doubled dash. */
  lemma MatchExamples()
    ensures Matches("-patch-with", "--patch-with") && Matches("--h", "-h")
  {
  }

  /** A bare `?` is not the switch `-?`, and `-foo` is not `-f`. */
  lemma NonMatchExamples()
    ensures !Matches("?", "-?") && !Matches("-foo", "-f")
  {
  }

  // ---------------------------------------------------------------------------------
  // Value options: getAndRemoveArgOrNull

  /** No argument matches any of `names`. */
  predicate NoneMatch(args: seq<string>, names: seq<string>) {
    forall i, k :: 0 <= i < |args| && 0 <= k < |names| ==> !Matches(args[i], names[k])
  }

  /**
   * A value-option lookup returns null and leaves the list as it was exactly when no
   * argument matches any of its names.
   */
  lemma {:induction false} TakeValueAbsent(args: seq<string>, names: seq<string>)
    ensures NoneMatch(args, names) <==> TakeValue(args, names) == Success(Taken(None, args))
    decreases |names|
  {
    if names != [] {
      TakeValueAbsent(args, names[1..]);
      var index := IndexOfArgVariants(args, names[0]);
      if index < 0 {
        assert NoneMatch(args, names) <==> NoneMatch(args, names[1..]) by {
          if NoneMatch(args, names[1..]) {
            forall i, k | 0 <= i < |args| && 0 <= k < |names| ensures !Matches(args[i], names[k]) {
              if k > 0 { assert names[k] == names[1..][k - 1]; }
            }
          }
        }
      } else {
        assert !NoneMatch(args, names) by { assert Matches(args[index], names[0]); }
        var afterOption := args[..index] + args[index + 1..];
        if index < |afterOption| && !StartsWith(afterOption[index], "-") {
          assert TakeValue(args, names).value.value.Some?;
        }
      }
    }
  }

  /** The message of a value option without its value: the name, two blanks, "requires argument". */
  lemma RequiresArgumentMessage(name: string)
    ensures Error([name, " requires argument"]) == name + "  requires argument"
  {
    JoinTwo(" ", name, " requires argument");
    assert " " + " requires argument" == "  requires argument";
  }

  /** Removing position `i` twice removes `args[i]` and the argument after it. */
  lemma RemoveTwice(args: seq<string>, i: nat)
    requires i < |args|
    ensures var afterOption := args[..i] + args[i + 1..];
            && |afterOption| == |args| - 1
            && (i + 1 < |args| ==>
                  afterOption[i] == args[i + 1] && afterOption[..i] + afterOption[i + 1..] == args[..i] + args[i + 2..])
  {
    var afterOption := args[..i] + args[i + 1..];
    if i + 1 < |args| {
      assert afterOption[..i] == args[..i];
      assert afterOption[i + 1..] == args[i + 2..];
    }
  }

  /**
   * The first of `names` (in their order) that some argument matches decides the lookup:
   * its first match at `i` and the argument after it are removed and that argument is the
   * value; when there is no next argument, or it starts with a dash, the lookup fails
   * with the name and "requires argument".
   */
  lemma {:induction false} TakeValueDecided(args: seq<string>, names: seq<string>, k: nat, i: nat)
    requires k < |names| && IsFirstMatch(args, names[k], i)
    requires forall j, p :: 0 <= j < k && 0 <= p < |args| ==> !Matches(args[p], names[j])
    ensures i + 1 < |args| && !StartsWith(args[i + 1], "-") ==>
              TakeValue(args, names) == Success(Taken(Some(args[i + 1]), args[..i] + args[i + 2..]))
    ensures !(i + 1 < |args| && !StartsWith(args[i + 1], "-")) ==>
              TakeValue(args, names) == Failure(names[k] + "  requires argument")
    decreases k
  {
    if k == 0 {
      RemoveTwice(args, i);
      RequiresArgumentMessage(names[0]);
    } else {
      assert IndexOfArgVariants(args, names[0]) < 0 by {
        assert forall p :: 0 <= p < |args| ==> !Matches(args[p], names[0]);
      }
      assert names[1..][k - 1] == names[k];
      forall j, p | 0 <= j < k - 1 && 0 <= p < |args| ensures !Matches(args[p], names[1..][j]) {
        assert names[1..][j] == names[j + 1];
      }
      TakeValueDecided(args, names[1..], k - 1, i);
    }
  }

  /**
   * A value that was found removes exactly two arguments: an option matching one of
   * `names` and the value right behind it, which does not start with a dash.
   */
  lemma {:induction false} TakeValueRemovesPair(args: seq<string>, names: seq<string>)
    requires TakeValue(args, names).Success? && TakeValue(args, names).value.value.Some?
    ensures var t := TakeValue(args, names).value;
            exists i :: 0 <= i < |args| - 1 && MatchesAny(args[i], names) && args[i + 1] == t.value.value &&
                        !StartsWith(t.value.value, "-") && t.rest == args[..i] + args[i + 2..]
    decreases |names|
  {
    assert names != [];
    var index := IndexOfArgVariants(args, names[0]);
    if index < 0 {
      TakeValueRemovesPair(args, names[1..]);
      var t := TakeValue(args, names).value;
      var i :| 0 <= i < |args| - 1 && MatchesAny(args[i], names[1..]) && args[i + 1] == t.value.value &&
               !StartsWith(t.value.value, "-") && t.rest == args[..i] + args[i + 2..];
      var k :| 0 <= k < |names[1..]| && Matches(args[i], names[1..][k]);
      assert Matches(args[i], names[k + 1]);
    } else {
      TakeValueDecided(args, names, 0, index);
      assert MatchesAny(args[index], names) by { assert Matches(args[index], names[0]); }
    }
  }

  // ---------------------------------------------------------------------------------
  // Switches: getAndRemoveArgOrFalse

  /** `removeAll` keeps each element it does not drop as often as it occurred. */
  lemma {:induction false} WithoutCounts(xs: seq<string>, drop: set<string>)
    ensures forall x :: multiset(Without(xs, drop))[x] == if x in drop then 0 else multiset(xs)[x]
  {
    if xs != [] {
      assert xs == [xs[0]] + xs[1..];
      WithoutCounts(xs[1..], drop);
    }
  }

  /** `removeAll` works element by element, so the elements it keeps stay in order. */
  lemma {:induction false} WithoutAppend(a: seq<string>, b: seq<string>, drop: set<string>)
    ensures Without(a + b, drop) == Without(a, drop) + Without(b, drop)
  {
    if a == [] {
      assert a + b == b;
    } else {
      assert (a + b)[0] == a[0];
      assert (a + b)[1..] == a[1..] + b;
      WithoutAppend(a[1..], b, drop);
    }
  }

  /** Only the elements of the list matter to `removeAll`. */
  lemma {:induction false} WithoutAgrees(xs: seq<string>, d1: set<string>, d2: set<string>)
    requires forall i :: 0 <= i < |xs| ==> (xs[i] in d1 <==> xs[i] in d2)
    ensures Without(xs, d1) == Without(xs, d2)
  {
    if xs != [] {
      assert forall i :: 0 <= i < |xs[1..]| ==> xs[1..][i] == xs[i + 1];
      WithoutAgrees(xs[1..], d1, d2);
    }
  }

  /** Removing nothing leaves the list as it is. */
  lemma {:induction false} WithoutNothing(xs: seq<string>, drop: set<string>)
    requires forall i :: 0 <= i < |xs| ==> xs[i] !in drop
    ensures Without(xs, drop) == xs
  {
    if xs != [] {
      assert forall i :: 0 <= i < |xs[1..]| ==> xs[1..][i] == xs[i + 1];
      WithoutNothing(xs[1..], drop);
    }
  }

  /**
   * A switch is present exactly when some argument matches one of its names; afterwards
   * no argument matches any of them, and every other argument is kept as often as it
   * occurred.
   */
  lemma RemoveFlagsRemovesAll(args: seq<string>, names: seq<string>)
    ensures var f := RemoveFlags(args, names);
            && (f.present <==> exists i :: 0 <= i < |args| && MatchesAny(args[i], names))
            && (forall i :: 0 <= i < |f.rest| ==> !MatchesAny(f.rest[i], names))
            && (forall x :: !MatchesAny(x, names) ==> multiset(f.rest)[x] == multiset(args)[x])
  {
    var found := Found(args, names);
    WithoutCounts(args, found);
    if exists i :: 0 <= i < |args| && MatchesAny(args[i], names) {
      var i :| 0 <= i < |args| && MatchesAny(args[i], names);
      assert args[i] in found;
    }
  }

  /** The arguments a switch lookup leaves keep their relative order. */
  lemma RemoveFlagsKeepsOrder(a: seq<string>, b: seq<string>, names: seq<string>)
    ensures RemoveFlags(a + b, names).rest == RemoveFlags(a, names).rest + RemoveFlags(b, names).rest
  {
    var found := Found(a + b, names);
    WithoutAppend(a, b, found);
    WithoutAgrees(a, found, Found(a, names));
    forall i | 0 <= i < |b| ensures b[i] in found <==> b[i] in Found(b, names) {
      assert b[i] == (a + b)[|a| + i];
    }
    WithoutAgrees(b, found, Found(b, names));
  }

  /** When no argument matches, a switch lookup is false and changes nothing. */
  lemma RemoveFlagsAbsent(args: seq<string>, names: seq<string>)
    requires forall i :: 0 <= i < |args| ==> !MatchesAny(args[i], names)
    ensures RemoveFlags(args, names) == Flag(false, args)
  {
    var found := Found(args, names);
    forall a | a in args ensures !MatchesAny(a, names) {
      var i :| 0 <= i < |args| && args[i] == a;
    }
    assert found == {};
    WithoutNothing(args, found);
  }

  // ---------------------------------------------------------------------------------
  // File names: hasExt and replaceExt

  /**
   * The regular expression `^.+\.[^.]+$` read literally: at some dot, at least one
   * character before it, none of them a line terminator, and at least one character
   * after it, none of them a dot.
   */
  ghost predicate ExtPattern(s: string) {
    exists k :: 1 <= k < |s| - 1 && s[k] == '.' &&
      (forall j :: 0 <= j < k ==> !IsLineTerminator(s[j])) &&
      (forall j :: k < j < |s| ==> s[j] != '.')
  }

  /** `hasExt` decides the regular expression. */
  lemma HasExtIsPattern(s: string)
    ensures HasExt(s) <==> ExtPattern(s)
  {
    var dot := LastIndexOf(s, '.');
    if HasExt(s) {
      assert 1 <= dot < |s| - 1 && s[dot] == '.';
    }
    if ExtPattern(s) {
      var k :| 1 <= k < |s| - 1 && s[k] == '.' &&
        (forall j :: 0 <= j < k ==> !IsLineTerminator(s[j])) &&
        (forall j :: k < j < |s| ==> s[j] != '.');
      assert dot == k;
    }
  }

  /**
   * Appending `.zpatch` to a non-empty name without line terminators gives it an
   * extension, so `hasExt` holds of the defaulted name.
   */
  lemma ZpatchGivesExt(g: string)
    requires |g| > 0 && forall j :: 0 <= j < |g| ==> !IsLineTerminator(g[j])
    ensures HasExt(g + ".zpatch")
  {
    var s := g + ".zpatch";
    var dot := LastIndexOf(s, '.');
    assert s[|g|] == '.';
    forall j | |g| < j < |s| ensures s[j] != '.' {
      assert s[j] == ".zpatch"[j - |g|];
    }
    assert dot == |g|;
  }

  /**
   * The default patch target: `-new` is inserted right before the last dot of the base
   * file name, or appended when the name has no dot.
   */
  lemma NewSuffixInserted(name: string)
    ensures var k := |SplitExt(name).0|;
            && k <= |name|
            && ReplaceExt(name, NewSuffix) == name[..k] + "-new" + name[k..]
            && ('.' !in name ==> k == |name|)
            && ('.' in name ==> name[k] == '.' && '.' !in name[k + 1..])
  {
    var (base, ext) := SplitExt(name);
    assert name[..|base|] == base && name[|base|..] == ext;
    if '.' in name {
      assert ext[1..] == name[|base| + 1..];
    }
  }

  /** The test suite's default patch target. */
  lemma ReplaceExtExample()
    ensures ReplaceExt("a.zip", NewSuffix) == "a-new.zip"
  {
  }

  /** A name without a dot gets the suffix at its end. */
  lemma ReplaceExtNoDotExample()
    ensures ReplaceExt("ab", NewSuffix) == "ab-new"
  {
  }

  /** The test suite's `ab` has no extension until `.zpatch` is appended. */
  lemma HasExtExamples()
    ensures !HasExt("ab") && HasExt("ab.zpatch")
  {
  }

  /** A name needs a character before the dot and one after it to have an extension. */
  lemma HasExtEdgeExamples()
    ensures !HasExt(".zpatch") && !HasExt("ab.")
  {
  }

  // ---------------------------------------------------------------------------------
  // The private constructor's checks

  /** The five combination checks of the private constructor. */
  datatype Rule = NoBaseFile | GenerateWithoutCompare | NothingToDo | CompareWhilePatching | MissingPatchFile

  /** The order in which the constructor applies them. */
  const RuleOrder: seq<Rule> := [NoBaseFile, GenerateWithoutCompare, NothingToDo, CompareWhilePatching, MissingPatchFile]

  /** The fields break `rule`. */
  predicate Breaks(a: Args, fileExists: string -> bool, rule: Rule) {
    match rule
    case NoBaseFile => a.baseFile.None?
    case GenerateWithoutCompare => a.compareWith.None? && a.generatePatch.Some?
    case NothingToDo => a.compareWith.None? && a.patchWith.None?
    case CompareWhilePatching => a.patchWith.Some? && a.compareWith.Some?
    case MissingPatchFile => a.patchWith.Some? && !fileExists(a.patchWith.value)
  }

  /** The message of the exception each check throws. */
  function Message(a: Args, rule: Rule): string {
    match rule
    case NoBaseFile => "No base-file provided."
    case GenerateWithoutCompare => "Cannot create patch without a compare-with."
    case NothingToDo => "No compare and not patch. Nothing to do."
    case CompareWhilePatching => "Cannot compare when patching. Remove the -compare-with."
    case MissingPatchFile =>
      "Cannot patch -- file does not exist: " + (if a.patchWith.Some? then a.patchWith.value else "")
  }

  /**
   * What the checks accept: a base file, exactly one of compare-with and patch-with,
   * generate-patch only with compare-with, and a patch file that exists.
   */
  predicate ValidCombination(a: Args, fileExists: string -> bool) {
    && a.baseFile.Some?
    && (a.compareWith.Some? != a.patchWith.Some?)
    && (a.generatePatch.Some? ==> a.compareWith.Some?)
    && (a.patchWith.Some? ==> fileExists(a.patchWith.value))
  }

  /** Without help, the constructor accepts exactly the valid combinations. */
  lemma ConstructAcceptsValid(a: Args, fileExists: string -> bool)
    requires !a.help
    ensures Construct(a, fileExists).Success? <==> ValidCombination(a, fileExists)
  {
  }

  /** The valid combinations are those that break none of the five checks. */
  lemma ValidBreaksNoRule(a: Args, fileExists: string -> bool)
    ensures ValidCombination(a, fileExists) <==> forall k :: 0 <= k < |RuleOrder| ==> !Breaks(a, fileExists, RuleOrder[k])
  {
    assert RuleOrder[0] == NoBaseFile && RuleOrder[1] == GenerateWithoutCompare && RuleOrder[2] == NothingToDo;
    assert RuleOrder[3] == CompareWhilePatching && RuleOrder[4] == MissingPatchFile;
  }

  /** Without help, the first check (in the constructor's order) that fails decides the message. */
  lemma FirstBrokenRuleWins(a: Args, fileExists: string -> bool, k: nat)
    requires !a.help && k < |RuleOrder| && Breaks(a, fileExists, RuleOrder[k])
    requires forall j :: 0 <= j < k ==> !Breaks(a, fileExists, RuleOrder[j])
    ensures Construct(a, fileExists) == Failure(Message(a, RuleOrder[k]))
  {
    if k > 0 { assert !Breaks(a, fileExists, RuleOrder[0]); }
    if k > 1 { assert !Breaks(a, fileExists, RuleOrder[1]); }
    if k > 2 { assert !Breaks(a, fileExists, RuleOrder[2]); }
    if k > 3 { assert !Breaks(a, fileExists, RuleOrder[3]); }
    match RuleOrder[k]
    case NoBaseFile =>
    case GenerateWithoutCompare =>
    case NothingToDo =>
    case CompareWhilePatching =>
    case MissingPatchFile =>
  }

  // ---------------------------------------------------------------------------------
  // Help is decided by the input alone

  /** `marks[k][h]` is a letter that exactly one of `names[k]` and `HelpNames[h]` holds. */
  predicate TellsApart(names: seq<string>, marks: seq<string>) {
    |marks| == |names| &&
    forall k :: 0 <= k < |names| ==>
      |marks[k]| == |HelpNames| &&
      forall h :: 0 <= h < |HelpNames| ==>
        marks[k][h] != '-' && (marks[k][h] in names[k] <==> marks[k][h] !in HelpNames[h])
  }

  /** Names told apart from the help switches by a letter are never selected by a help switch. */
  lemma NotHelpNames(names: seq<string>, marks: seq<string>, arg: string)
    requires TellsApart(names, marks) && MatchesAny(arg, HelpNames)
    ensures !MatchesAny(arg, names)
  {
    var h :| 0 <= h < |HelpNames| && Matches(arg, HelpNames[h]);
    forall k | 0 <= k < |names| ensures !Matches(arg, names[k]) {
      var x := marks[k][h];
      DeleteCharKeepsOthers(names[k], '-', x);
      DeleteCharKeepsOthers(HelpNames[h], '-', x);
    }
  }

  /** Letters that tell the names of `-f` and `-c` apart from the help switches. */
  lemma BaseAndCompareTellApart()
    ensures TellsApart(BaseFileNames, ["fff", "bbb"]) && TellsApart(CompareWithNames, ["ccc", "ccc"])
  {
  }

  /** Letters that tell the names of `-g` and `-p` apart from the help switches. */
  lemma GenerateAndPatchTellApart()
    ensures TellsApart(GeneratePatchNames, ["ggg", "ggg"]) && TellsApart(PatchWithNames, ["pph", "www"])
  {
  }

  /** Letters that tell the names of `-t`, `-i` and `-v` apart from the help switches. */
  lemma TargetAndSwitchesTellApart()
    ensures TellsApart(PatchToNames, ["ttt", "ttt"]) && TellsApart(IgnoreValidationNames, ["iii", "iii"])
    ensures TellsApart(VerboseNames, ["vvv", "vvv"])
  {
  }

  /** A help switch is none of the options that `createFor` looks up before it. */
  lemma HelpIsNoEarlierOption(arg: string)
    requires MatchesAny(arg, HelpNames)
    ensures !MatchesAny(arg, BaseFileNames) && !MatchesAny(arg, CompareWithNames)
    ensures !MatchesAny(arg, GeneratePatchNames) && !MatchesAny(arg, PatchWithNames)
    ensures !MatchesAny(arg, PatchToNames)
    ensures !MatchesAny(arg, IgnoreValidationNames) && !MatchesAny(arg, VerboseNames)
  {
    BaseAndCompareTellApart();
    GenerateAndPatchTellApart();
    TargetAndSwitchesTellApart();
    NotHelpNames(BaseFileNames, ["fff", "bbb"], arg);
    NotHelpNames(CompareWithNames, ["ccc", "ccc"], arg);
    NotHelpNames(GeneratePatchNames, ["ggg", "ggg"], arg);
    NotHelpNames(PatchWithNames, ["pph", "www"], arg);
    NotHelpNames(PatchToNames, ["ttt", "ttt"], arg);
    NotHelpNames(IgnoreValidationNames, ["iii", "iii"], arg);
    NotHelpNames(VerboseNames, ["vvv", "vvv"], arg);
  }

  /** Taking out two neighbours `args[i]`, `args[i + 1]` removes exactly those two from the multiset. */
  lemma SplitAroundPair(args: seq<string>, i: nat)
    requires i + 1 < |args|
    ensures multiset(args) == multiset(args[..i] + args[i + 2..]) + multiset{args[i], args[i + 1]}
  {
    assert args == args[..i] + [args[i], args[i + 1]] + args[i + 2..];
  }

  /** A lookup that finds nothing leaves the list as it was. */
  lemma {:induction false} TakeValueNoneKeepsAll(args: seq<string>, names: seq<string>)
    requires TakeValue(args, names).Success? && TakeValue(args, names).value.value.None?
    ensures TakeValue(args, names).value.rest == args
    decreases |names|
  {
    if names != [] && IndexOfArgVariants(args, names[0]) < 0 {
      TakeValueNoneKeepsAll(args, names[1..]);
    }
  }

  /** A value lookup keeps every dash argument that is not one of its names. */
  lemma TakeValueKeeps(args: seq<string>, names: seq<string>, a: string)
    requires TakeValue(args, names).Success?
    requires StartsWith(a, "-") && !MatchesAny(a, names)
    ensures multiset(TakeValue(args, names).value.rest)[a] == multiset(args)[a]
  {
    var t := TakeValue(args, names).value;
    if t.value.None? {
      TakeValueNoneKeepsAll(args, names);
    } else {
      TakeValueRemovesPair(args, names);
      var i :| 0 <= i < |args| - 1 && MatchesAny(args[i], names) && args[i + 1] == t.value.value &&
               !StartsWith(t.value.value, "-") && t.rest == args[..i] + args[i + 2..];
      SplitAroundPair(args, i);
      assert args[i] != a && args[i + 1] != a;
    }
  }

  /** The value and switch lookups of `createFor` keep every help switch, as often as it occurs. */
  lemma HelpSurvivesExtract(argsIn: seq<string>, a: string)
    requires Extract(argsIn).Success? && MatchesAny(a, HelpNames)
    ensures multiset(Extract(argsIn).value.rest)[a] == multiset(argsIn)[a]
  {
    HelpIsNoEarlierOption(a);
    var k :| 0 <= k < |HelpNames| && Matches(a, HelpNames[k]);
    assert StartsWith(a, "-");
    var f := TakeValue(argsIn, BaseFileNames).value;
    TakeValueKeeps(argsIn, BaseFileNames, a);
    var c := TakeValue(f.rest, CompareWithNames).value;
    TakeValueKeeps(f.rest, CompareWithNames, a);
    var g := TakeValue(c.rest, GeneratePatchNames).value;
    TakeValueKeeps(c.rest, GeneratePatchNames, a);
    var p := TakeValue(g.rest, PatchWithNames).value;
    TakeValueKeeps(g.rest, PatchWithNames, a);
    var t := TakeValue(p.rest, PatchToNames).value;
    TakeValueKeeps(p.rest, PatchToNames, a);
    var i := RemoveFlags(t.rest, IgnoreValidationNames);
    RemoveFlagsRemovesAll(t.rest, IgnoreValidationNames);
    RemoveFlagsRemovesAll(i.rest, VerboseNames);
  }

  /** Some argument of `args` matches `-?`, `-h` or `-help`. */
  predicate HasHelpSwitch(args: seq<string>) {
    exists i :: 0 <= i < |args| && MatchesAny(args[i], HelpNames)
  }

  /**
   * Help as the input states it: no arguments, a literal `?`, or any dash variant of
   * `-?`, `-h` or `-help` anywhere among the arguments.
   */
  predicate HelpRequested(argsIn: seq<string>) {
    argsIn == [] || "?" in argsIn || HasHelpSwitch(argsIn)
  }

  /** Once the lookups succeed, a help switch is left in the list exactly when the input has one. */
  lemma HelpFromInput(argsIn: seq<string>)
    requires Extract(argsIn).Success?
    ensures AsksHelp(argsIn, Extract(argsIn).value.rest) <==> HelpRequested(argsIn)
  {
    var rest := Extract(argsIn).value.rest;
    RemoveFlagsRemovesAll(rest, HelpNames);
    if HasHelpSwitch(rest) {
      var i :| 0 <= i < |rest| && MatchesAny(rest[i], HelpNames);
      HelpSurvivesExtract(argsIn, rest[i]);
      assert rest[i] in multiset(rest);
      assert rest[i] in argsIn;
      var j :| 0 <= j < |argsIn| && argsIn[j] == rest[i];
      assert HasHelpSwitch(argsIn);
    }
    if HasHelpSwitch(argsIn) {
      var i :| 0 <= i < |argsIn| && MatchesAny(argsIn[i], HelpNames);
      HelpSurvivesExtract(argsIn, argsIn[i]);
      assert argsIn[i] in multiset(argsIn);
      assert argsIn[i] in rest;
      var j :| 0 <= j < |rest| && rest[j] == argsIn[i];
      assert HasHelpSwitch(rest);
    }
  }

  // ---------------------------------------------------------------------------------
  // createFor

  /** With no arguments every lookup finds nothing. */
  lemma EmptyArgsExtractNothing()
    ensures Extract([]) == Success(Extracted(None, None, None, None, None, false, false, []))
  {
    TakeValueAbsent([], BaseFileNames);
    TakeValueAbsent([], CompareWithNames);
    TakeValueAbsent([], GeneratePatchNames);
    TakeValueAbsent([], PatchWithNames);
    TakeValueAbsent([], PatchToNames);
    RemoveFlagsAbsent([], IgnoreValidationNames);
    RemoveFlagsAbsent([], VerboseNames);
  }

  /** No arguments at all ask for help, with every other field null or false. */
  lemma EmptyArgsAskHelp(fileExists: string -> bool)
    ensures Parse([], fileExists) == Success(Args(None, None, None, None, None, false, false, true))
  {
    var x := Extracted(None, None, None, None, None, false, false, []);
    EmptyArgsExtractNothing();
    assert Parse([], fileExists) == Finish([], x, fileExists);
  }

  /** A parse that succeeds got past the lookups; once past them, it is what the rest of `createFor` makes of them. */
  lemma ParseUnfolds(argsIn: seq<string>, fileExists: string -> bool)
    ensures Parse(argsIn, fileExists).Success? ==> Extract(argsIn).Success?
    ensures Extract(argsIn).Success? ==> Parse(argsIn, fileExists) == Finish(argsIn, Extract(argsIn).value, fileExists)
  {
  }

  /**
   * Once the lookups are done, the result has help set exactly when help was asked for, and
   * then it holds the fields as extracted.
   */
  lemma FinishHelp(argsIn: seq<string>, x: Extracted, fileExists: string -> bool)
    ensures AsksHelp(argsIn, x.rest) <==> Finish(argsIn, x, fileExists).Success? && Finish(argsIn, x, fileExists).value.help
    ensures AsksHelp(argsIn, x.rest) ==> Finish(argsIn, x, fileExists) == Success(AsIs(x, true))
  {
    var help := AsksHelp(argsIn, x.rest);
    if !(argsIn != [] && !help) {
      assert Finish(argsIn, x, fileExists) == Construct(AsIs(x, help), fileExists);
    }
  }

  /**
   * Once the value options are taken, help is set exactly when the input requests it; then
   * the result holds the fields as extracted: no leftover check, no default, no combination
   * check.
   */
  lemma HelpShortCircuits(argsIn: seq<string>, fileExists: string -> bool)
    requires Extract(argsIn).Success?
    ensures var x := Extract(argsIn).value;
            && (HelpRequested(argsIn) <==> Parse(argsIn, fileExists).Success? && Parse(argsIn, fileExists).value.help)
            && (HelpRequested(argsIn) ==> Parse(argsIn, fileExists) == Success(AsIs(x, true)))
  {
    ParseUnfolds(argsIn, fileExists);
    HelpFromInput(argsIn);
    FinishHelp(argsIn, Extract(argsIn).value, fileExists);
  }

  /** A value option without its value fails even when help is requested as well. */
  lemma LookupFailureWins(argsIn: seq<string>, fileExists: string -> bool)
    requires Extract(argsIn).Failure?
    ensures Parse(argsIn, fileExists) == Failure(Extract(argsIn).error)
  {
  }

  /**
   * Without help, arguments left after the lookups fail with their list, before any
   * default is filled in and before any combination check.
   */
  lemma LeftoversRejected(argsIn: seq<string>, fileExists: string -> bool)
    requires Extract(argsIn).Success?
    requires !HelpRequested(argsIn) && |Extract(argsIn).value.rest| > 0
    ensures Parse(argsIn, fileExists) == Failure("Unexpected arguments: " + Join(", ", Extract(argsIn).value.rest))
  {
    var x := Extract(argsIn).value;
    NoHelpKeepsLeftovers(argsIn);
    UnexpectedArgumentsMessage(x.rest);
    assert Parse(argsIn, fileExists) == Finish(argsIn, x, fileExists);
  }

  /** Without help, the help lookup finds nothing and the leftovers are what the other lookups left. */
  lemma NoHelpKeepsLeftovers(argsIn: seq<string>)
    requires Extract(argsIn).Success? && !HelpRequested(argsIn)
    ensures var rest := Extract(argsIn).value.rest;
            !AsksHelp(argsIn, rest) && Leftovers(argsIn, rest) == rest
  {
    var rest := Extract(argsIn).value.rest;
    HelpFromInput(argsIn);
    RemoveFlagsAbsent(rest, HelpNames) by {
      RemoveFlagsRemovesAll(rest, HelpNames);
    }
  }

  /** The message for leftovers: "Unexpected arguments:", one blank, the leftovers joined by ", ". */
  lemma UnexpectedArgumentsMessage(rest: seq<string>)
    ensures Error(["Unexpected arguments:", Join(", ", rest)]) == "Unexpected arguments: " + Join(", ", rest)
  {
    JoinTwo(" ", "Unexpected arguments:", Join(", ", rest));
    assert "Unexpected arguments:" + " " == "Unexpected arguments: ";
  }

  /**
   * Without help and without leftovers, the result is the constructor's verdict on the
   * fields with both defaults filled in, so its checks apply in their order.
   */
  lemma CombinationChecked(argsIn: seq<string>, fileExists: string -> bool)
    requires Extract(argsIn).Success? && !HelpRequested(argsIn) && Extract(argsIn).value.rest == []
    ensures Parse(argsIn, fileExists) == Construct(WithDefaults(Extract(argsIn).value), fileExists)
  {
    NoHelpKeepsLeftovers(argsIn);
    assert Parse(argsIn, fileExists) == Finish(argsIn, Extract(argsIn).value, fileExists);
  }

  /**
   * Without help and without leftovers, the first constructor check (in its order) that the
   * defaulted fields break decides the message of the parse.
   */
  lemma ParseFirstBrokenRuleWins(argsIn: seq<string>, fileExists: string -> bool, k: nat)
    requires Extract(argsIn).Success? && !HelpRequested(argsIn) && Extract(argsIn).value.rest == []
    requires k < |RuleOrder| && Breaks(WithDefaults(Extract(argsIn).value), fileExists, RuleOrder[k])
    requires forall j :: 0 <= j < k ==> !Breaks(WithDefaults(Extract(argsIn).value), fileExists, RuleOrder[j])
    ensures Parse(argsIn, fileExists) == Failure(Message(WithDefaults(Extract(argsIn).value), RuleOrder[k]))
  {
    CombinationChecked(argsIn, fileExists);
    FirstBrokenRuleWins(WithDefaults(Extract(argsIn).value), fileExists, k);
  }

  /** Once the lookups are done, success without help means no leftovers and the defaulted constructor call. */
  lemma FinishWithoutHelp(argsIn: seq<string>, x: Extracted, fileExists: string -> bool)
    requires Finish(argsIn, x, fileExists).Success? && !Finish(argsIn, x, fileExists).value.help
    ensures x.rest == [] && Finish(argsIn, x, fileExists) == Construct(WithDefaults(x), fileExists)
  {
    FinishHelp(argsIn, x, fileExists);
    RemoveFlagsAbsent(x.rest, HelpNames) by {
      RemoveFlagsRemovesAll(x.rest, HelpNames);
    }
    assert Leftovers(argsIn, x.rest) == x.rest;
  }

  /**
   * A successful parse without help had no leftovers, filled in both defaults, and holds
   * a valid combination: a base file, exactly one of compare-with and patch-with, and a
   * patch target whenever there is a patch file.
   */
  lemma SuccessWithoutHelp(argsIn: seq<string>, fileExists: string -> bool)
    requires Parse(argsIn, fileExists).Success? && !Parse(argsIn, fileExists).value.help
    ensures Extract(argsIn).Success? && Extract(argsIn).value.rest == []
    ensures var a := Parse(argsIn, fileExists).value;
            && a == WithDefaults(Extract(argsIn).value)
            && ValidCombination(a, fileExists)
            && (a.patchWith.Some? ==> a.patchTo.Some?)
  {
    ParseUnfolds(argsIn, fileExists);
    var x := Extract(argsIn).value;
    FinishWithoutHelp(argsIn, x, fileExists);
    ConstructAcceptsValid(WithDefaults(x), fileExists);
  }

  /**
   * The two defaults of a successful parse without help: the patch target when a patch
   * file is given without one, and the `.zpatch` extension of a patch to generate.
   */
  lemma DefaultsOnSuccess(argsIn: seq<string>, fileExists: string -> bool)
    requires Parse(argsIn, fileExists).Success? && !Parse(argsIn, fileExists).value.help
    ensures Extract(argsIn).Success?
    ensures var x := Extract(argsIn).value;
            var a := Parse(argsIn, fileExists).value;
            && (x.patchWith.Some? && x.patchTo.None? ==>
                  x.baseFile.Some? && a.patchTo == Some(ReplaceExt(x.baseFile.value, NewSuffix)))
            && (x.patchTo.Some? ==> a.patchTo == x.patchTo)
            && (x.generatePatch.Some? ==>
                  a.generatePatch == Some(if HasExt(x.generatePatch.value) then x.generatePatch.value
                                          else x.generatePatch.value + ".zpatch"))
  {
    SuccessWithoutHelp(argsIn, fileExists);
  }
}

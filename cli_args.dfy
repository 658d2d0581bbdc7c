/**
 * The command-line parser of ZipDiff (class `CLIArgs`).
 *
 * `createFor` copies the argument list into a mutable list and consumes it option by
 * option: five value options (`-f`, `-c`, `-g`, `-p`, `-t`, each with a long form), two
 * switches (`-i`, `-v`) and the help switches. What is left over is an error; then two
 * defaults are filled in and the private constructor checks the combination of options.
 *
 * Java's `null` is `None`; a thrown `IllegalArgumentException` is `Failure(message)`.
 * Whether the patch file exists on disk is the caller-supplied predicate `fileExists`.
 *
 * The specification functions (`TakeValue`, `RemoveFlags`, `Extract`, `Parse`) state what
 * each step computes; the methods (`GetAndRemoveArgOrNull`, `GetAndRemoveArgOrFalse`,
 * `CreateFor`) do it the way the source does, on the mutable list `ArgList`, and are
 * proved to agree with them.
 */
module CliArgs {
  import opened Wrappers
  import opened JavaText

  /** The public final fields of a `CLIArgs` object. */
  datatype Args = Args(
    baseFile: Option<string>,
    compareWith: Option<string>,
    generatePatch: Option<string>,
    patchWith: Option<string>,
    patchTo: Option<string>,
    ignoreValidation: bool,
    verbose: bool,
    help: bool)

  // The option names, in the order in which each lookup tries them.
  const BaseFileNames: seq<string> := ["-f", "--base-file"]
  const CompareWithNames: seq<string> := ["-c", "--compare-with"]
  const GeneratePatchNames: seq<string> := ["-g", "--generate-patch"]
  const PatchWithNames: seq<string> := ["-p", "--patch-with"]
  const PatchToNames: seq<string> := ["-t", "--patch-to"]
  const IgnoreValidationNames: seq<string> := ["-i", "--ignore-validation"]
  const VerboseNames: seq<string> := ["-v", "--verbose"]
  const HelpNames: seq<string> := ["-?", "-h", "-help"]

  /** `error(msg...)`: the message of the `IllegalArgumentException` it throws. */
  function Error(msg: seq<string>): string {
    Join(" ", msg)
  }

  // ---------------------------------------------------------------------------------
  // Matching an argument against an option name

  /**
   * The stream filter of `indexOfArgVariants` and `getAndRemoveArgOrFalse`: the argument
   * starts with a dash and equals the option name once all dashes are deleted from both.
   */
  predicate Matches(arg: string, name: string) {
    StartsWith(arg, "-") && DeleteChar(arg, '-') == DeleteChar(name, '-')
  }

  /** `arg` matches at least one of `names`. */
  predicate MatchesAny(arg: string, names: seq<string>) {
    exists k :: 0 <= k < |names| && Matches(arg, names[k])
  }

  /** Position `k` holds the first argument that matches `name`. */
  predicate IsFirstMatch(args: seq<string>, name: string, k: int) {
    0 <= k < |args| && Matches(args[k], name) && forall j :: 0 <= j < k ==> !Matches(args[j], name)
  }

  /**
   * `args.stream().filter(...).findAny()` on the sequential stream of a list: the first
   * argument that matches `name`, if any.
   */
  function FindAnyVariant(args: seq<string>, name: string): (r: Option<string>)
    ensures r.None? <==> forall j :: 0 <= j < |args| ==> !Matches(args[j], name)
    ensures r.Some? ==> exists k :: IsFirstMatch(args, name, k) && args[k] == r.value
  {
    if args == [] then None
    else if Matches(args[0], name) then
      assert IsFirstMatch(args, name, 0);
      Some(args[0])
    else
      var r := FindAnyVariant(args[1..], name);
      assert r.Some? ==> exists k :: IsFirstMatch(args, name, k) && args[k] == r.value by {
        if r.Some? {
          var k :| IsFirstMatch(args[1..], name, k) && args[1..][k] == r.value;
          forall j | 0 <= j < k + 1 ensures !Matches(args[j], name) {
            if j > 0 { assert args[j] == args[1..][j - 1]; }
          }
          assert IsFirstMatch(args, name, k + 1);
        }
      }
      r
  }

  /**
   * `indexOfArgVariants`: the position of the first argument that matches `name`, or -1.
   * The source takes the element found and looks up its position with `indexOf`; the
   * position of its first occurrence is the first matching position.
   */
  function IndexOfArgVariants(args: seq<string>, name: string): (r: int)
    ensures -1 <= r < |args|
    ensures r < 0 <==> forall j :: 0 <= j < |args| ==> !Matches(args[j], name)
    ensures r >= 0 ==> IsFirstMatch(args, name, r)
  {
    match FindAnyVariant(args, name)
    case None => -1
    case Some(a) =>
      var i := IndexOf(args, a);
      assert IsFirstMatch(args, name, i) by {
        var k :| IsFirstMatch(args, name, k) && args[k] == a;
      }
      i
  }

  // ---------------------------------------------------------------------------------
  // The two kinds of option, as specification functions

  /** What a value-option lookup returns on success: the value (or null) and the list left. */
  datatype Taken = Taken(value: Option<string>, rest: seq<string>)

  /**
   * `getAndRemoveArgOrNull(args, names)`: the first name (in the given order) that some
   * argument matches decides. Its first match is removed, then the argument after it,
   * which is the value; a missing value or one that starts with a dash is an error.
   * When no name matches, the result is null and the list is unchanged.
   */
  function TakeValue(args: seq<string>, names: seq<string>): Result<Taken, string>
    decreases |names|
  {
    if names == [] then Success(Taken(None, args))
    else
      var index := IndexOfArgVariants(args, names[0]);
      if index < 0 then TakeValue(args, names[1..])
      else
        var afterOption := args[..index] + args[index + 1..];
        if index < |afterOption| && !StartsWith(afterOption[index], "-") then
          Success(Taken(Some(afterOption[index]), afterOption[..index] + afterOption[index + 1..]))
        else
          Failure(Error([names[0], " requires argument"]))
  }

  /** `args.removeAll(drop)`: the elements not in `drop`, in their original order. */
  function Without(args: seq<string>, drop: set<string>): (r: seq<string>)
    ensures forall i :: 0 <= i < |r| ==> r[i] !in drop && r[i] in args
    ensures |r| <= |args|
  {
    if args == [] then [] else (if args[0] in drop then [] else [args[0]]) + Without(args[1..], drop)
  }

  /** The set `found` of `getAndRemoveArgOrFalse`: every argument that matches one of `names`. */
  function Found(args: seq<string>, names: seq<string>): set<string> {
    set a | a in args && MatchesAny(a, names)
  }

  /** What a switch lookup returns: whether it was given, and the list left. */
  datatype Flag = Flag(present: bool, rest: seq<string>)

  /**
   * `getAndRemoveArgOrFalse(args, names)`: every argument that matches any of `names` is
   * removed; the switch is present when at least one was.
   */
  function RemoveFlags(args: seq<string>, names: seq<string>): Flag {
    var found := Found(args, names);
    Flag(found != {}, Without(args, found))
  }

  // ---------------------------------------------------------------------------------
  // File names

  /** The characters Java's regular-expression `.` does not match (no DOTALL flag). */
  predicate IsLineTerminator(c: char) {
    c == '\n' || c == '\r' || c == '\U{85}' || c == '\U{2028}' || c == '\U{2029}'
  }

  /**
   * `hasExt`: `name.matches("^.+\\.[^.]+$")`. The dot of the pattern can only be the last
   * dot of `name`; it needs at least one character before it, none of them a line
   * terminator, and at least one after it.
   */
  predicate HasExt(name: string) {
    var dot := LastIndexOf(name, '.');
    1 <= dot < |name| - 1 && forall j :: 0 <= j < dot ==> !IsLineTerminator(name[j])
  }

  /**
   * The base name and extension of `replaceExt`: split at the last dot, the extension
   * keeping the dot; no dot means no extension.
   */
  function SplitExt(name: string): (r: (string, string))
    ensures r.0 + r.1 == name
    ensures r.1 == [] <==> '.' !in name
    ensures r.1 != [] ==> r.1[0] == '.' && '.' !in r.1[1..]
  {
    var dot := LastIndexOf(name, '.');
    if dot < 0 then (name, "")
    else
      assert name[dot..][1..] == name[dot + 1..];
      (name[..dot], name[dot..])
  }

  /** `replaceExt(name, replacer)`: the base name followed by the replaced extension. */
  function ReplaceExt(name: string, replacer: string -> string): string {
    var (base, ext) := SplitExt(name);
    base + replacer(ext)
  }

  /** The replacer `ext -> "-new" + ext` that `createFor` passes to `replaceExt`. */
  function NewSuffix(ext: string): string {
    "-new" + ext
  }

  // ---------------------------------------------------------------------------------
  // The private constructor and createFor, as specification functions

  /**
   * The private constructor: unless help was asked for, the combination of fields is
   * checked, in this order, and the first check that fails throws.
   */
  function Construct(a: Args, fileExists: string -> bool): (r: Result<Args, string>)
    ensures r.Success? ==> r.value == a
    ensures a.help ==> r.Success?
  {
    if a.help then Success(a)
    else if a.baseFile.None? then
      Failure(Error(["No base-file provided."]))
    else if a.compareWith.None? && a.generatePatch.Some? then
      Failure(Error(["Cannot create patch without a compare-with."]))
    else if a.compareWith.None? && a.patchWith.None? then
      Failure(Error(["No compare and not patch. Nothing to do."]))
    else if a.patchWith.Some? && a.compareWith.Some? then
      Failure(Error(["Cannot compare when patching. Remove the -compare-with."]))
    else if a.patchWith.Some? && !fileExists(a.patchWith.value) then
      Failure(Error(["Cannot patch -- file does not exist: " + a.patchWith.value]))
    else Success(a)
  }

  /** The locals of `createFor` once the value options and the two switches are taken. */
  datatype Extracted = Extracted(
    baseFile: Option<string>,
    compareWith: Option<string>,
    generatePatch: Option<string>,
    patchWith: Option<string>,
    patchTo: Option<string>,
    ignoreValidation: bool,
    verbose: bool,
    rest: seq<string>)

  /** The first seven lookups of `createFor`, in their order; the first that throws wins. */
  function Extract(argsIn: seq<string>): Result<Extracted, string> {
    var f :- TakeValue(argsIn, BaseFileNames);
    var c :- TakeValue(f.rest, CompareWithNames);
    var g :- TakeValue(c.rest, GeneratePatchNames);
    var p :- TakeValue(g.rest, PatchWithNames);
    var t :- TakeValue(p.rest, PatchToNames);
    var i := RemoveFlags(t.rest, IgnoreValidationNames);
    var v := RemoveFlags(i.rest, VerboseNames);
    Success(Extracted(f.value, c.value, g.value, p.value, t.value, i.present, v.present, v.rest))
  }

  /** Help asked for outright: no arguments at all, or a literal `?` among them. */
  predicate AsksHelpOutright(argsIn: seq<string>) {
    argsIn == [] || "?" in argsIn
  }

  /** Help is asked for by no arguments, a literal `?`, or a help switch left in the list. */
  predicate AsksHelp(argsIn: seq<string>, rest: seq<string>) {
    AsksHelpOutright(argsIn) || RemoveFlags(rest, HelpNames).present
  }

  /**
   * What `createFor` leaves in the list: the help switches are only looked up (and
   * removed) when neither of the first two ways of asking for help applies.
   */
  function Leftovers(argsIn: seq<string>, rest: seq<string>): seq<string> {
    if AsksHelpOutright(argsIn) then rest else RemoveFlags(rest, HelpNames).rest
  }

  /** The two defaults `createFor` fills in when help was not asked for. */
  function WithDefaults(x: Extracted): Args {
    var patchTo :=
      if x.baseFile.Some? && x.patchWith.Some? && x.patchTo.None?
      then Some(ReplaceExt(x.baseFile.value, NewSuffix))
      else x.patchTo;
    var generatePatch :=
      if x.generatePatch.Some? && !HasExt(x.generatePatch.value)
      then Some(x.generatePatch.value + ".zpatch")
      else x.generatePatch;
    Args(x.baseFile, x.compareWith, generatePatch, x.patchWith, patchTo, x.ignoreValidation, x.verbose, false)
  }

  /** The fields as extracted, with help asked for: nothing is defaulted or checked. */
  function AsIs(x: Extracted, help: bool): Args {
    Args(x.baseFile, x.compareWith, x.generatePatch, x.patchWith, x.patchTo, x.ignoreValidation, x.verbose, help)
  }

  /** `createFor(argsIn)`: the parsed arguments, or the message of the exception thrown. */
  function Parse(argsIn: seq<string>, fileExists: string -> bool): Result<Args, string> {
    var x :- Extract(argsIn);
    Finish(argsIn, x, fileExists)
  }

  /** The rest of `createFor` once the seven lookups have succeeded with `x`. */
  function Finish(argsIn: seq<string>, x: Extracted, fileExists: string -> bool): Result<Args, string> {
    var help := AsksHelp(argsIn, x.rest);
    var rest := Leftovers(argsIn, x.rest);
    if argsIn != [] && !help then
      if rest != [] then Failure(Error(["Unexpected arguments:", Join(", ", rest)]))
      else Construct(WithDefaults(x), fileExists)
    else
      Construct(AsIs(x, help), fileExists)
  }

  // ---------------------------------------------------------------------------------
  // The imperative code

  /** The mutable `ArrayList<String>` copy of the arguments that `createFor` consumes. */
  class ArgList {
    var items: seq<string>

    /** `new ArrayList<>(argsIn)`. */
    constructor (from: seq<string>)
      ensures items == from
    {
      items := from;
    }

    /** `remove(int index)`: removes and returns the element at `index`. */
    method Remove(index: nat) returns (removed: string)
      requires index < |items|
      modifies this
      ensures removed == old(items)[index]
      ensures items == old(items)[..index] + old(items)[index + 1..]
    {
      removed := items[index];
      items := items[..index] + items[index + 1..];
    }

    /** `removeAll(drop)`: removes every element contained in `drop`. */
    method RemoveAll(drop: set<string>)
      modifies this
      ensures items == Without(old(items), drop)
    {
      items := Without(items, drop);
    }
  }

  /** `getAndRemoveArgOrNull(args, names...)`, consuming `args` in place. */
  method GetAndRemoveArgOrNull(args: ArgList, names: seq<string>) returns (r: Result<Option<string>, string>)
    modifies args
    ensures TakeValue(old(args.items), names).Success? <==> r.Success?
    ensures r.Success? ==> r.value == TakeValue(old(args.items), names).value.value
    ensures r.Success? ==> args.items == TakeValue(old(args.items), names).value.rest
    ensures r.Failure? ==> r.error == TakeValue(old(args.items), names).error
  {
    ghost var start := args.items;
    for n := 0 to |names|
      invariant args.items == start
      invariant TakeValue(start, names) == TakeValue(start, names[n..])
    {
      assert names[n..][1..] == names[n + 1..];
      var index := IndexOfArgVariants(args.items, names[n]);
      if index >= 0 {
        var option := args.Remove(index);
        var value: Option<string> := None;
        if index < |args.items| {
          var v := args.Remove(index);
          value := Some(v);
        }
        if value.None? || StartsWith(value.value, "-") {
          return Failure(Error([names[n], " requires argument"]));
        }
        return Success(value);
      }
    }
    return Success(None);
  }

  /** `getAndRemoveArgOrFalse(args, names...)`, consuming `args` in place. */
  method GetAndRemoveArgOrFalse(args: ArgList, names: seq<string>) returns (present: bool)
    modifies args
    ensures present == RemoveFlags(old(args.items), names).present
    ensures args.items == RemoveFlags(old(args.items), names).rest
  {
    var found: set<string> := {};
    for n := 0 to |names|
      invariant found == Found(args.items, names[..n])
    {
      var ndName := DeleteChar(names[n], '-');
      found := found + set a | a in args.items && StartsWith(a, "-") && DeleteChar(a, '-') == ndName;
    }
    assert names[..|names|] == names;
    args.RemoveAll(found);
    present := found != {};
  }

  /** `createFor(argsIn)`. */
  method CreateFor(argsIn: seq<string>, fileExists: string -> bool) returns (r: Result<Args, string>)
    ensures r == Parse(argsIn, fileExists)
  {
    var args := new ArgList(argsIn);
    var baseFile :- GetAndRemoveArgOrNull(args, BaseFileNames);
    var compareWith :- GetAndRemoveArgOrNull(args, CompareWithNames);
    var generatePatch :- GetAndRemoveArgOrNull(args, GeneratePatchNames);
    var patchWith :- GetAndRemoveArgOrNull(args, PatchWithNames);
    var patchTo :- GetAndRemoveArgOrNull(args, PatchToNames);
    var ignoreValidation := GetAndRemoveArgOrFalse(args, IgnoreValidationNames);
    var verbose := GetAndRemoveArgOrFalse(args, VerboseNames);
    ghost var x := Extracted(baseFile, compareWith, generatePatch, patchWith, patchTo, ignoreValidation, verbose, args.items);
    assert Extract(argsIn) == Success(x);
    assert Parse(argsIn, fileExists) == Finish(argsIn, x, fileExists);
    var help := AsksHelpOutright(argsIn);
    if !help {
      help := GetAndRemoveArgOrFalse(args, HelpNames);
    }
    assert help == AsksHelp(argsIn, x.rest) && args.items == Leftovers(argsIn, x.rest);

    // `!argsIn.isEmpty()` adds nothing here: an empty `argsIn` already means help.
    if !help {
      if args.items != [] {
        assert Finish(argsIn, x, fileExists) == Failure(Error(["Unexpected arguments:", Join(", ", args.items)]));
        return Failure(Error(["Unexpected arguments:", Join(", ", args.items)]));
      }
      if baseFile.Some? && patchWith.Some? && patchTo.None? {
        patchTo := Some(ReplaceExt(baseFile.value, NewSuffix));
      }
      if generatePatch.Some? && !HasExt(generatePatch.value) {
        generatePatch := Some(generatePatch.value + ".zpatch");
      }
      assert Args(baseFile, compareWith, generatePatch, patchWith, patchTo, ignoreValidation, verbose, help) == WithDefaults(x);
      assert Finish(argsIn, x, fileExists) == Construct(WithDefaults(x), fileExists);
    } else {
      assert Args(baseFile, compareWith, generatePatch, patchWith, patchTo, ignoreValidation, verbose, help) == AsIs(x, help);
      assert Finish(argsIn, x, fileExists) == Construct(AsIs(x, help), fileExists);
    }
    r := Construct(Args(baseFile, compareWith, generatePatch, patchWith, patchTo, ignoreValidation, verbose, help), fileExists);
  }
}

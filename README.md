# ZipDiff command-line arguments, modelled in Dafny

ZipDiff compares two ZIP archives, generates a patch from one to the other, and applies such a
patch. This project models the program's command-line parser, the class `CLIArgs`. The parser
turns the argument list into eight fields:

- five file names that may be absent: `baseFile`, `compareWith`, `generatePatch`, `patchWith`
  and `patchTo`;
- three switches: `ignoreValidation`, `verbose` and `help`.

It rejects unknown arguments, options that lack their value, and combinations of options that
make no sense.

`createFor` works on a mutable copy of the arguments:

- It takes out the five value options (`-f/--base-file`, `-c/--compare-with`,
  `-g/--generate-patch`, `-p/--patch-with`, `-t/--patch-to`). Each takes its value with it.
- It takes out the two switches `-i/--ignore-validation` and `-v/--verbose`.
- Help is asked for by an empty list, a literal `?`, or one of `-?`, `-h`, `-help`.
- Without help, any argument still left is an error. Then two defaults are filled in:
  - `patchTo` becomes the base file with `-new` before its extension;
  - `generatePatch` gets `.zpatch` when it has no extension.
- The private constructor checks five rules in a fixed order.

An argument selects an option when it starts with a dash and equals the option's name once all
dashes are deleted from both. So `-patch-with`, `--patchwith` and `--patch-with` are the same
option.

The files:

- `wrappers.dfy` (module `Wrappers`): `Option` stands for Java's `null`. A thrown
  `IllegalArgumentException` becomes the `Failure` case of `Result`, which carries the
  exception's message.
- `java_text.dfy` (module `JavaText`): the `String` and `List` operations the parser relies on.
  These are `replace("-", "")`, `lastIndexOf`, `indexOf`, `startsWith` and `String.join`.
  Each comes with what it returns.
- `cli_args.dfy` (module `CliArgs`): the parser in two layers.
  - Specification functions say what each step computes: `TakeValue`, `RemoveFlags`,
    `HasExt`, `SplitExt`/`ReplaceExt`, `Construct`, `Extract` and `Parse`.
  - Methods do the work the way the source does: `GetAndRemoveArgOrNull`,
    `GetAndRemoveArgOrFalse` and `CreateFor`. They operate on the mutable list `ArgList`,
    which models the `ArrayList` copy, and each is proved equal to its specification function.
- `cli_args_properties.dfy` (module `CliArgsProperties`): what the parser promises, proved
  about the specification functions. The properties cover:
  - option matching;
  - what a value lookup and a switch lookup remove and keep;
  - the regular expression of `hasExt`;
  - the default patch target;
  - the order of the constructor's checks;
  - help depending on the input alone;
  - leftovers;
  - the shape of every successful parse.

Whether the patch file exists is the caller's predicate `fileExists`, passed to `Parse` and
`CreateFor`.

## Model

| member | source | states |
|---|---|---|
| CliArgs.CreateFor | src/main/java/nl/rutilo/zipdiff/CLIArgs.java:45-70 | The method returns exactly what the specification `Parse` gives on the same input. It consumes a mutable copy of the list through the five value lookups and the two switch lookups. It looks up help unless the input is empty or holds `?`, rejects leftovers, fills in both defaults, and runs the constructor's checks. |
| CliArgs.ArgList.constructor | src/main/java/nl/rutilo/zipdiff/CLIArgs.java:46 | The mutable copy starts out holding the input list. |
| CliArgs.ArgList.Remove | src/main/java/nl/rutilo/zipdiff/CLIArgs.java:79-80 | `ArrayList.remove(index)` returns the element at `index`. The list afterwards is the old list without that element. |
| CliArgs.ArgList.RemoveAll | src/main/java/nl/rutilo/zipdiff/CLIArgs.java:95 | `removeAll(found)` leaves the elements not in `found`, in order. |
| CliArgs.GetAndRemoveArgOrNull | src/main/java/nl/rutilo/zipdiff/CLIArgs.java:75-86 | The loop over the names succeeds exactly when `TakeValue` does. It returns the same value and leaves the list `TakeValue` computes, or fails with the same message. |
| CliArgs.GetAndRemoveArgOrFalse | src/main/java/nl/rutilo/zipdiff/CLIArgs.java:87-97 | Returns whether any argument matched one of the names. The list afterwards is `RemoveFlags`'s rest, and the set built up by the loop is `Found`. |
| CliArgs.FindAnyVariant | src/main/java/nl/rutilo/zipdiff/CLIArgs.java:101-103 | Gives nothing exactly when no argument matches `name`. Otherwise it gives the argument at the first matching position. |
| CliArgs.IndexOfArgVariants | src/main/java/nl/rutilo/zipdiff/CLIArgs.java:98-106 | Is -1 exactly when no argument matches. Otherwise it is the first matching position, which is what `indexOf` of the `findAny` result gives. |
| CliArgs.Without | src/main/java/nl/rutilo/zipdiff/CLIArgs.java:95 | What `removeAll` keeps: no dropped element, only elements of the list, and no more elements than before. |
| CliArgs.SplitExt | src/main/java/nl/rutilo/zipdiff/CLIArgs.java:110-116 | The base name and extension put back together give the name. The extension is empty exactly when the name has no dot. Otherwise the extension starts at the last dot and holds no further dot. |
| CliArgs.Construct | src/main/java/nl/rutilo/zipdiff/CLIArgs.java:21-40 | A constructor that does not throw keeps exactly the fields it was given. With help it never throws. |
| CliArgs.Error | src/main/java/nl/rutilo/zipdiff/CLIArgs.java:72-74 | The message is the parts joined by one blank. `RequiresArgumentMessage` and `UnexpectedArgumentsMessage` state the two messages built from two parts. |
| CliArgs.Matches | src/main/java/nl/rutilo/zipdiff/CLIArgs.java:92 | The stream filter: the argument starts with a dash and equals the name once every dash is deleted from both. `DashVariantsMatch`, `ValuesNeverMatch` and the two example lemmas state what it accepts and what it rejects. |
| CliArgs.TakeValue | src/main/java/nl/rutilo/zipdiff/CLIArgs.java:75-86 | The value lookup as a function of the list. `TakeValueAbsent` gives the null result if and only if nothing matches. `TakeValueDecided` gives the whole result when some name matches. `TakeValueRemovesPair` and `TakeValueKeeps` say what it removes and what it keeps. |
| CliArgs.Found | src/main/java/nl/rutilo/zipdiff/CLIArgs.java:88-94 | The set `found` holds every argument that matches one of the names. `RemoveFlagsRemovesAll` states what removing it leaves. |
| CliArgs.RemoveFlags | src/main/java/nl/rutilo/zipdiff/CLIArgs.java:87-97 | The switch lookup as a function of the list. `RemoveFlagsRemovesAll` says it is present if and only if something matches, that no match remains, and that other counts are kept. `RemoveFlagsKeepsOrder` and `RemoveFlagsAbsent` cover order and the case of no match. |
| CliArgs.HasExt | src/main/java/nl/rutilo/zipdiff/CLIArgs.java:107-109 | Stated through the last dot. `HasExtIsPattern` proves it equal to a literal reading of `^.+\.[^.]+$`. `ZpatchGivesExt` and the examples apply it. |
| CliArgs.ReplaceExt | src/main/java/nl/rutilo/zipdiff/CLIArgs.java:110-116 | The base name followed by the replaced extension. `SplitExt` states the split, and `NewSuffixInserted` states the default patch target built from it. |
| CliArgs.NewSuffix | src/main/java/nl/rutilo/zipdiff/CLIArgs.java:63 | The lambda `ext -> "-new" + ext`. `NewSuffixInserted` states where `-new` ends up in the default patch target. |
| CliArgs.AsksHelpOutright | src/main/java/nl/rutilo/zipdiff/CLIArgs.java:55-56 | The first two ways of asking for help: no arguments, or a literal `?` in the original list. `EmptyArgsAskHelp` and `HelpFromInput` are stated through it. |
| CliArgs.AsksHelp | src/main/java/nl/rutilo/zipdiff/CLIArgs.java:55-57 | The `help` expression, with the help switches looked up in what the seven earlier lookups left. `HelpFromInput` proves that it holds if and only if the original input is empty, contains `?`, or contains a help switch. |
| CliArgs.Leftovers | src/main/java/nl/rutilo/zipdiff/CLIArgs.java:55-60 | What the list holds at the leftover check: the help switches are removed only when the help lookup ran. `NoHelpKeepsLeftovers` says that without help it is what the seven lookups left. `LeftoversRejected` says that anything in it is reported. |
| CliArgs.WithDefaults | src/main/java/nl/rutilo/zipdiff/CLIArgs.java:62-67 | The two defaults: the patch target derived from the base file, and the `.zpatch` extension. `DefaultsOnSuccess` states both, where they apply and where they do not. `SuccessWithoutHelp` and `CombinationChecked` say that a parse without help constructs exactly these fields. |
| CliArgs.Extract | src/main/java/nl/rutilo/zipdiff/CLIArgs.java:48-54 | The seven lookups in order, where the first failure wins. `LookupFailureWins`, `HelpSurvivesExtract` and `EmptyArgsExtractNothing` are stated about it. |
| CliArgs.Finish | src/main/java/nl/rutilo/zipdiff/CLIArgs.java:55-69 | Help, leftovers, defaults and the constructor, applied to what the lookups left. `HelpShortCircuits`, `LeftoversRejected` and `CombinationChecked` cover its three branches. |
| CliArgs.Parse | src/main/java/nl/rutilo/zipdiff/CLIArgs.java:45-70 | `createFor` as a function: the lookups, then `Finish`. `CreateFor` is proved equal to it. `HelpShortCircuits`, `LeftoversRejected`, `CombinationChecked`, `ParseFirstBrokenRuleWins`, `SuccessWithoutHelp` and `DefaultsOnSuccess` state its outcomes. |
| JavaText.StartsWith | src/main/java/nl/rutilo/zipdiff/CLIArgs.java:81 | `startsWith("-")`, also used by the filters at lines 92 and 102. `ValuesNeverMatch` says that an argument not starting with a dash selects no option. `TakeValueRemovesPair` says that a value taken never starts with one. |
| JavaText.DeleteChar | src/main/java/nl/rutilo/zipdiff/CLIArgs.java:90 | `replace("-", "")` leaves no dash and never makes the string longer. |
| JavaText.DeleteCharCounts | src/main/java/nl/rutilo/zipdiff/CLIArgs.java:99 | Deleting dashes keeps every other character exactly as often as it occurs. |
| JavaText.DeleteCharAppend | src/main/java/nl/rutilo/zipdiff/CLIArgs.java:99 | Deleting dashes distributes over concatenation. |
| JavaText.DeleteCharKeepsOthers | src/main/java/nl/rutilo/zipdiff/CLIArgs.java:102 | A non-dash character occurs after the deletion exactly when it occurred before. |
| JavaText.LastIndexOf | src/main/java/nl/rutilo/zipdiff/CLIArgs.java:111 | `lastIndexOf('.')` is -1 exactly when there is no dot. Otherwise it points at a dot with no dot after it. |
| JavaText.IndexOf | src/main/java/nl/rutilo/zipdiff/CLIArgs.java:104 | `indexOf(x)` is -1 exactly when `x` is absent. Otherwise it is the first position holding `x`. |
| JavaText.Join | src/main/java/nl/rutilo/zipdiff/CLIArgs.java:73 | `String.join` of no parts is empty. Otherwise the result starts with the first part and its length is the parts' lengths plus one separator between each two neighbours. |
| JavaText.JoinTwo | src/main/java/nl/rutilo/zipdiff/CLIArgs.java:72-74 | Two parts are joined as the first part, one separator, then the second part. |
| CliArgsProperties.DashVariantsMatch | src/main/java/nl/rutilo/zipdiff/CLIArgs.java:98-105 | Any number (at least one) of dashes in front of an option's letters selects that option. |
| CliArgsProperties.ValuesNeverMatch | src/main/java/nl/rutilo/zipdiff/CLIArgs.java:102 | An argument that does not start with a dash never selects an option. |
| CliArgsProperties.MatchExamples | src/test/java/nl/rutilo/zipdiff/CLIArgsTest.java:113 | `-patch-with` selects `--patch-with`, and `--h` selects `-h`. |
| CliArgsProperties.NonMatchExamples | src/main/java/nl/rutilo/zipdiff/CLIArgs.java:102 | A bare `?` is not `-?`, and `-foo` is not `-f`. |
| CliArgsProperties.TakeValueAbsent | src/main/java/nl/rutilo/zipdiff/CLIArgs.java:75-86 | The lookup returns null and leaves the list unchanged if and only if no argument matches any of its names. |
| CliArgsProperties.TakeValueDecided | src/main/java/nl/rutilo/zipdiff/CLIArgs.java:76-83 | The first name (in order) that has a match decides, at its first matching position `i`. If the argument after `i` exists and has no leading dash, that argument is the value and the rest is the list without positions `i` and `i+1`. Otherwise the lookup fails with the name followed by "  requires argument". |
| CliArgsProperties.TakeValueRemovesPair | src/main/java/nl/rutilo/zipdiff/CLIArgs.java:78-82 | A value that was found removes exactly one matching option and the value right behind it, and the value has no leading dash. |
| CliArgsProperties.TakeValueNoneKeepsAll | src/main/java/nl/rutilo/zipdiff/CLIArgs.java:85 | A lookup that returns null leaves the list as it was. |
| CliArgsProperties.TakeValueKeeps | src/main/java/nl/rutilo/zipdiff/CLIArgs.java:75-86 | A value lookup keeps every dash argument that is not one of its names, as often as it occurs. |
| CliArgsProperties.RemoveTwice | src/main/java/nl/rutilo/zipdiff/CLIArgs.java:79-80 | Removing index `i` twice removes the option and the argument that followed it. |
| CliArgsProperties.RequiresArgumentMessage | src/main/java/nl/rutilo/zipdiff/CLIArgs.java:81 | The message is the option name, two blanks, then "requires argument". |
| CliArgsProperties.RemoveFlagsRemovesAll | src/main/java/nl/rutilo/zipdiff/CLIArgs.java:87-97 | A switch is present if and only if some argument matches one of its names. Afterwards no argument matches any of them, and every other argument keeps its number of occurrences. |
| CliArgsProperties.RemoveFlagsKeepsOrder | src/main/java/nl/rutilo/zipdiff/CLIArgs.java:95 | The arguments a switch lookup keeps stay in their relative order: the lookup distributes over concatenation. |
| CliArgsProperties.RemoveFlagsAbsent | src/main/java/nl/rutilo/zipdiff/CLIArgs.java:87-97 | When no argument matches, the switch is false and the list is unchanged. |
| CliArgsProperties.WithoutCounts | src/main/java/nl/rutilo/zipdiff/CLIArgs.java:95 | `removeAll` drops every occurrence of what it removes and keeps every other element as often as it occurred. |
| CliArgsProperties.WithoutAppend | src/main/java/nl/rutilo/zipdiff/CLIArgs.java:95 | `removeAll` distributes over concatenation. |
| CliArgsProperties.HasExtIsPattern | src/main/java/nl/rutilo/zipdiff/CLIArgs.java:107-109 | `hasExt` holds if and only if the name matches `^.+\.[^.]+$`. That means some dot has at least one character before it, none of them a line terminator, and at least one character after it, none of them a dot. |
| CliArgsProperties.ZpatchGivesExt | src/main/java/nl/rutilo/zipdiff/CLIArgs.java:65-67 | A non-empty name without line terminators has an extension once `.zpatch` is appended. |
| CliArgsProperties.NewSuffixInserted | src/main/java/nl/rutilo/zipdiff/CLIArgs.java:62-64 | The default patch target inserts `-new` right before the last dot of the base file name, or appends it when the name has no dot. |
| CliArgsProperties.ReplaceExtExample | src/test/java/nl/rutilo/zipdiff/CLIArgsTest.java:105 | `a.zip` gives the default patch target `a-new.zip`. |
| CliArgsProperties.ReplaceExtNoDotExample | src/main/java/nl/rutilo/zipdiff/CLIArgs.java:112-113 | A name without a dot gets `-new` at its end. |
| CliArgsProperties.HasExtExamples | src/test/java/nl/rutilo/zipdiff/CLIArgsTest.java:81-86 | `ab` has no extension and `ab.zpatch` has one. |
| CliArgsProperties.HasExtEdgeExamples | src/main/java/nl/rutilo/zipdiff/CLIArgs.java:108 | `.zpatch` has no extension, because nothing precedes the dot. `ab.` has none either, because nothing follows the dot. |
| CliArgsProperties.ConstructAcceptsValid | src/main/java/nl/rutilo/zipdiff/CLIArgs.java:33-39 | Without help, the constructor accepts a combination if and only if it is valid. Valid means: a base file is given; exactly one of compare-with and patch-with is given; generate-patch comes only with compare-with; and the patch file exists. |
| CliArgsProperties.ValidBreaksNoRule | src/main/java/nl/rutilo/zipdiff/CLIArgs.java:34-38 | A combination is valid if and only if it breaks none of the five checks. |
| CliArgsProperties.FirstBrokenRuleWins | src/main/java/nl/rutilo/zipdiff/CLIArgs.java:33-39 | Without help, the first check that fails, in the constructor's order, determines the message. |
| CliArgsProperties.NotHelpNames | src/main/java/nl/rutilo/zipdiff/CLIArgs.java:98-105 | Names that a letter tells apart from `-?`, `-h` and `-help` are never selected by a help switch. |
| CliArgsProperties.HelpIsNoEarlierOption | src/main/java/nl/rutilo/zipdiff/CLIArgs.java:48-54 | An argument selecting a help switch selects none of the seven options that are looked up before help. |
| CliArgsProperties.HelpSurvivesExtract | src/main/java/nl/rutilo/zipdiff/CLIArgs.java:48-54 | The seven lookups before help keep every help switch, as often as it occurs. |
| CliArgsProperties.HelpFromInput | src/main/java/nl/rutilo/zipdiff/CLIArgs.java:55-57 | Help is set if and only if the input is empty, holds a literal `?`, or holds any dash variant of `-?`, `-h` or `-help`. |
| CliArgsProperties.EmptyArgsExtractNothing | src/main/java/nl/rutilo/zipdiff/CLIArgs.java:48-54 | With no arguments, every lookup finds nothing. |
| CliArgsProperties.EmptyArgsAskHelp | src/test/java/nl/rutilo/zipdiff/CLIArgsTest.java:43 | No arguments give help, with every other field null or false. |
| CliArgsProperties.FinishHelp | src/main/java/nl/rutilo/zipdiff/CLIArgs.java:55-69 | For any outcome of the lookups, the result has help set if and only if help was asked for. When it was, the result is the extracted fields unchanged. |
| CliArgsProperties.FinishWithoutHelp | src/main/java/nl/rutilo/zipdiff/CLIArgs.java:59-69 | For any outcome of the lookups, a success without help left no arguments over and is the constructor's result on the defaulted fields. |
| CliArgsProperties.HelpShortCircuits | src/main/java/nl/rutilo/zipdiff/CLIArgs.java:55-69 | Once extraction succeeds, the result has help set if and only if the input asks for it. Then the result holds the fields exactly as extracted: there is no leftover check, no default, and no constructor check, so `-help --unknown-option` is accepted. |
| CliArgsProperties.LookupFailureWins | src/main/java/nl/rutilo/zipdiff/CLIArgs.java:48-57 | A value option without its value fails even when help is asked for as well. |
| CliArgsProperties.LeftoversRejected | src/main/java/nl/rutilo/zipdiff/CLIArgs.java:59-60 | Without help, any leftover fails with "Unexpected arguments: " followed by the leftovers joined by ", ". This happens before any default or constructor check. |
| CliArgsProperties.NoHelpKeepsLeftovers | src/main/java/nl/rutilo/zipdiff/CLIArgs.java:57-60 | Without help, the help lookup removes nothing. |
| CliArgsProperties.UnexpectedArgumentsMessage | src/main/java/nl/rutilo/zipdiff/CLIArgs.java:60 | The leftover message reads "Unexpected arguments:", one blank, then the joined leftovers. |
| CliArgsProperties.CombinationChecked | src/main/java/nl/rutilo/zipdiff/CLIArgs.java:59-69 | Without help and without leftovers, the parse gives exactly the constructor's result on the fields with both defaults filled in. |
| CliArgsProperties.ParseFirstBrokenRuleWins | src/main/java/nl/rutilo/zipdiff/CLIArgs.java:33-39 | Without help and without leftovers, the first of the constructor's checks that the defaulted fields break decides the message of the whole parse. |
| CliArgsProperties.SuccessWithoutHelp | src/main/java/nl/rutilo/zipdiff/CLIArgs.java:59-69 | A successful parse without help had no leftovers, holds the fields with both defaults filled in, and is a valid combination. Patch-with then implies a patch target. |
| CliArgsProperties.DefaultsOnSuccess | src/main/java/nl/rutilo/zipdiff/CLIArgs.java:62-67 | On success without help, a missing patch target becomes the base file with `-new` before its extension, and a given target is kept. A patch to generate gets `.zpatch` if and only if it has no extension. |

## Left out

- `ZipDiff.java` is not part of this model. It holds the `main` method, usage and help text
  printed to the console, and the dispatch to the archive engine.
- The archive diff and patch engine (`ZipPatcher`, `ZipUtil`) is not part of this model. Its
  source is absent from the files modelled here.
- `new File(patchWith).exists()` reads the filesystem. It is the parameter `fileExists`, which
  the model does not examine.
- `findAny` may in principle return any matching element. On the sequential stream of a list it
  returns the first, and that is what the model does.
- Java strings are UTF-16 code units, while Dafny's `char` is a Unicode scalar value. The parser
  inspects only `-`, `.`, `?` and the line terminators, which are the same in both, so nothing
  observable differs.
- The `value == null` test of `getAndRemoveArgOrNull` is modelled only as "no argument after the
  option". A list element that is itself `null` cannot arise from a command line.
- The `!argsIn.isEmpty()` condition at `CLIArgs.java:59` adds nothing: an empty input already sets
  `help`. `CreateFor` tests `help` alone there, and is proved equal to `Parse`, which keeps both
  conditions.
- The exception type, and the fact that `error` throws rather than returns, are not modelled.
  Only the exception's message is kept.
- The test suite's end-to-end cases are not restated one by one on literal argument lists. Their
  outcomes follow from the lemmas about `Parse`:
  - `HelpShortCircuits` covers help;
  - `LeftoversRejected` covers leftovers;
  - `ParseFirstBrokenRuleWins` and `CombinationChecked` cover the constructor's checks;
  - `DefaultsOnSuccess` covers the defaults.

  Applying them to a literal list still takes the lookups' results on that list. Literal examples
  are given only for matching, file names and messages.
- `hasExt` and `replaceExt` look at the whole path, so a dot in a directory name counts as the
  extension's dot (`my.dir/base` gives the default target `my-new.dir/base`). The model keeps
  this behaviour and does not prove it as a literal example.

# Option-occurrence engine of the `org.musiel.args` command-line parser

This project is a Dafny model of the core of `org.musiel.args`, a Java
library for parsing command-line arguments. A program declares its options:
each has a primary name, aliases, and "required", "repeatable" and
argument-policy flags. It may also declare an operand pattern. The library
then turns a token array into a result. The result gives the occurrences of
each option, looked up by any of its names, and the operands. It also holds
every structural error found, in order. Errors are collected rather than
thrown, and a caller can `check` them by kind.

The model covers five pieces of the library:

- **Declared options** (`AbstractOption`), module `Options`. This is the
  ordered, duplicate-free name set whose first element is the primary name.
- **The occurrence store and finaliser** (`AbstractParseResult`), module
  `ParseResults`.
  - It builds the name dictionary and rejects a name declared twice.
  - It files each occurrence under its option's primary name, as two parallel
    lists: the names as typed, and the arguments.
  - `build` gives every declared option an entry. It then appends the
    missing-option, too-many-occurrences, unexpected-argument and
    argument-required errors.
- **The GNU long-option step** (`GnuSyntax.GnuMachine`), module `GnuSyntax`.
  - It splits a `--name[=argument]` token at its first `=`.
  - It resolves the name by exact match, then by unique prefix.
  - It reports unknown, ambiguous and late options.
  - It either records an occurrence or leaves the option pending for the
    next token.
  - This module also holds the GNU option-name rule and the two flags'
    defaults.
- **The parser front end** (`AbstractParser`, with `DefaultParser`'s result
  construction), module `Parsers`.
  - Option registration is atomic: every name is checked before any is
    inserted.
  - It keeps operand descriptions in step with the operand pattern.
  - It has three `parse` entry points with their range checks.
- **Result access** (`SimpleAccessorImpl`, `DefaultResult`), modules
  `Accessors` and `Results`.
  - Absent lists read as empty, and "the single value" is the first element.
  - The three `check` variants filter errors by kind.

Java `null` is `Wrappers.Option`. A thrown setup-time exception is the `Err`
side of `Wrappers.Result`, carrying an `Errors.SetupError`. Each structural
error class is a constructor of `Errors.ArgError`, and `Errors.IsKind` stands
for `Class.isInstance` on the common base class and on each concrete error
class. Four collaborators whose code is not part of this
model are parameters:

- The POSIX short-option handler that `GnuMachine` falls back to. It is
  given as a function from the state and the token to an `Effect`: the
  occurrences it records, the errors it reports and the option it leaves
  pending.
- The whole syntax machine, as `Parsers.Parse` sees it: the declared options
  and the tokens go in, and a finished syntax result comes out.
- `Syntax.validate`, which `addOption` calls.
- `OperandPattern.match`, which returns either a slot map or one operand
  error.

A long name that does not resolve, because it is unknown or ambiguous, is
still recorded when the token carries `=argument` (`GnuSyntax.java:133-134`).
It is recorded as typed, under its own key, after its UnknownOption or
AmbiguousOptionName error (and a LateOption before that, when late options
are not allowed and an operand was already seen); the pending option and
every other key are unchanged. Without an argument it
is left pending with an absent option
(`GnuSyntax.UnresolvedWithArgumentIsRecorded`,
`GnuSyntax.PendingWithoutArgument`).

## Model

| member | source | states |
|---|---|---|
| Options.AddAll | src/org/musiel/args/AbstractOption.java:55-58 | `LinkedHashSet.addAll` keeps the existing elements as a prefix, keeps the set duplicate-free, and holds exactly the old and the added elements |
| Options.AddAllKeepsFirstOccurrences | src/org/musiel/args/AbstractOption.java:37-42 | adding to an ordered set appends the first occurrence of each new element, in the given order (against the reference definition `KeepFirst`) |
| Options.NewOption | src/org/musiel/args/AbstractOption.java:53-66 | construction fails with a NullPointerException exactly when the primary name, an additional name or the policy is null; otherwise the option is well formed (primary name first, non-empty, distinct), holds exactly the given names, and stores the three flags verbatim |
| Options.NamesInGivenOrder | src/org/musiel/args/AbstractOption.java:53-58 | the names are the primary name followed by the additional names in the given order, with duplicates skipped |
| Options.CopyOption | src/org/musiel/args/AbstractOption.java:68-70 | the copy constructor never fails on an option; the copy is well formed, keeps the primary name and the three flags, and holds the primary name and exactly the original's names |
| Options.CopyIsIdentity | src/org/musiel/args/AbstractOption.java:68-70 | the copy constructor applied to a well-formed option yields the same name, names and flags |
| ParseResults.InsertNames | src/org/musiel/args/syntax/AbstractParseResult.java:46-50 | inserting one option's names succeeds exactly when none is present and none repeats; every name then maps to the option and old entries are kept; otherwise it fails naming one of the names |
| ParseResults.BuildDictionary | src/org/musiel/args/syntax/AbstractParseResult.java:43-51 | the dictionary is built exactly when no name is declared twice; it then maps exactly the declared names, each to the option declaring it; otherwise it fails with a duplicate-name error naming a declared name |
| ParseResults.SharedNameIsRejected | src/org/musiel/args/syntax/AbstractParseResult.java:45-48 | a name declared by two options makes the dictionary fail |
| ParseResults.OwnsIsUnique | src/org/musiel/args/syntax/AbstractParseResult.java:43-51 | only one dictionary maps the declared names to their owners |
| ParseResults.NewScanState | src/org/musiel/args/syntax/AbstractParseResult.java:32-51 | a machine starts with the dictionary built, no occurrences (so trivially aligned and filed under their keys), no errors, no operands and nothing pending, or fails on a duplicate name |
| ParseResults.PushKeepsFiled | src/org/musiel/args/syntax/AbstractParseResult.java:60-71 | a push files the typed name under its canonical key, so every typed name stays filed under its own key |
| ParseResults.Push | src/org/musiel/args/syntax/AbstractParseResult.java:53-71 | a push appends exactly one occurrence, the typed name with its argument, under the canonical key (the owner's primary name, or the name itself when unknown); every other key and every other part of the state is unchanged; the two lists stay aligned |
| ParseResults.PushAll | src/org/musiel/args/syntax/AbstractParseResult.java:68-71 | any sequence of pushes keeps the two lists aligned and leaves errors, operands and the pending option alone |
| ParseResults.PushAllFilesInOrder | src/org/musiel/args/syntax/AbstractParseResult.java:60-71 | after any sequence of pushes, each key's occurrences are exactly the pushed ones filed under it, in push order |
| ParseResults.CanonicalNameIsOwner | src/org/musiel/args/syntax/AbstractParseResult.java:53-55 | under a consistent dictionary of well-formed options, every name of an option is filed under that option's primary name, an undeclared name under itself, and a key under itself |
| ParseResults.GetNames | src/org/musiel/args/syntax/AbstractParseResult.java:73-76 | `getNames` is `null` exactly when nothing is filed under the name's canonical key, and otherwise the typed names filed there |
| ParseResults.GetArguments | src/org/musiel/args/syntax/AbstractParseResult.java:78-81 | `getArguments` is `null` exactly when nothing is filed under the name's canonical key, and otherwise the arguments filed there |
| ParseResults.AliasLookup | src/org/musiel/args/syntax/AbstractParseResult.java:73-81 | looking up names or arguments by any alias gives what the primary name gives; an unknown name is its own key |
| ParseResults.AlignedAt | src/org/musiel/args/syntax/AbstractParseResult.java:108-112 | under aligned lists, the i-th typed name and the i-th argument of a key form its i-th occurrence |
| ParseResults.ArgumentErrors | src/org/musiel/args/syntax/AbstractParseResult.java:108-117 | an option's occurrences give no argument error exactly when every occurrence conforms to the policy |
| ParseResults.ArgumentErrorsMembers | src/org/musiel/args/syntax/AbstractParseResult.java:113-116 | an error comes from the occurrences exactly when some occurrence has an argument its policy does not accept (UnexpectedArgument) or lacks one its policy requires (ArgumentRequired), naming the name as typed |
| ParseResults.ArgumentErrorsKinds | src/org/musiel/args/syntax/AbstractParseResult.java:113-116 | the occurrences only ever give UnexpectedArgument or ArgumentRequired |
| ParseResults.MissingInOptionErrors | src/org/musiel/args/syntax/AbstractParseResult.java:104-105 | one option's errors hold one MissingOption naming its primary name exactly when it is required and never occurred, and no other MissingOption |
| ParseResults.TooManyInOptionErrors | src/org/musiel/args/syntax/AbstractParseResult.java:106-107 | one option's errors hold exactly one TooManyOccurrence, naming the second typed name and carrying all of them, exactly when it is not repeatable and occurred more than once |
| ParseResults.FinaliseOption | src/org/musiel/args/syntax/AbstractParseResult.java:96-117 | finalising one option gives it an entry and appends its errors after the existing ones, leaving the rest of the state and the alignment intact |
| ParseResults.FinaliseKeepsOccurrences | src/org/musiel/args/syntax/AbstractParseResult.java:97-102 | finalising an option never changes the occurrences under any key |
| ParseResults.BuildAll | src/org/musiel/args/syntax/AbstractParseResult.java:96-118 | finalising options in order keeps the lists aligned and the options, dictionary, operands and pending option unchanged |
| ParseResults.BuildAllErrors | src/org/musiel/args/syntax/AbstractParseResult.java:96-118 | finalising appends each declared option's errors in declaration order, computed from the occurrences recorded while scanning |
| ParseResults.BuildAllKeepsOccurrences | src/org/musiel/args/syntax/AbstractParseResult.java:88-102 | finalising never changes the recorded occurrences |
| ParseResults.BuildAllHasEntries | src/org/musiel/args/syntax/AbstractParseResult.java:96-102 | after finalising, every declared option and every previously recorded key has an entry |
| ParseResults.Build | src/org/musiel/args/syntax/AbstractParseResult.java:88-119 | `build` keeps the alignment, gives every declared option an entry, keeps every occurrence and the operands, and only appends errors: exactly the per-option errors in declaration order |
| ParseResults.BuildGivesEmptyListsToAbsentOptions | src/org/musiel/args/syntax/AbstractParseResult.java:96-102 | after `build`, an option that never occurred has empty names and arguments lists, and one that did keeps exactly its lists |
| ParseResults.MissingOptionReportedOnce | src/org/musiel/args/syntax/AbstractParseResult.java:104-105 | with distinct primary names, `build` adds exactly one MissingOption for a required option that never occurred, and none otherwise |
| ParseResults.TooManyOccurrenceReportedOnce | src/org/musiel/args/syntax/AbstractParseResult.java:96-107 | with distinct primary names and every typed name filed under its canonical key, `build` adds exactly one TooManyOccurrence for a non-repeatable option that occurred more than once, and none naming the typed names of a repeatable option or of one that occurred at most once |
| ParseResults.TooManyCountInNewErrors | src/org/musiel/args/syntax/AbstractParseResult.java:96-107 | over any run of declared options with distinct primary names, the TooManyOccurrence naming a list is added once by the non-repeatable option the list belongs to, and never by any other |
| ParseResults.TooManyOccurrenceReported | src/org/musiel/args/syntax/AbstractParseResult.java:106-107 | `build` reports a non-repeatable option occurring more than once by its second typed name, and does not truncate its lists |
| ParseResults.NewErrorsContain | src/org/musiel/args/syntax/AbstractParseResult.java:96-118 | every error of every declared option is among the errors `build` adds |
| GnuSyntax.ValidateName | src/org/musiel/args/syntax/GnuSyntax.java:88-98 | a name is accepted exactly when it is `-` and one ASCII letter or digit, or `--` and one or more ASCII letters, digits or hyphens; an accepted name holds no line terminator and no `=`; otherwise InvalidOption |
| GnuSyntax.NameWithTrailingNewlineAccepted | src/org/musiel/args/syntax/GnuSyntax.java:94-97 | the name pattern as written accepts `"-a\n"`, which the rule rejects |
| GnuSyntax.ValidNameSplitsToItself | src/org/musiel/args/syntax/GnuSyntax.java:94-122 | a valid name typed as a token splits back to itself with no argument, and is a long-option token exactly when it is longer than two characters |
| GnuSyntax.FirstIndexOf | src/org/musiel/args/syntax/GnuSyntax.java:120 | `indexOf('=')`: the first index holding `=`, or the length when there is none |
| GnuSyntax.SplitToken | src/org/musiel/args/syntax/GnuSyntax.java:120-122 | the name has no `=`; there is an argument exactly when the token has `=`, and then the token is name, `=`, argument; without `=` the name is the whole token |
| GnuSyntax.SplitJoinRoundTrip | src/org/musiel/args/syntax/GnuSyntax.java:120-122 | splitting and rejoining a token gives it back, and splitting a joined name (without `=`) and argument gives them back |
| GnuSyntax.FindAbbreviatedName | src/org/musiel/args/syntax/GnuSyntax.java:141-155 | with no registered name starting with the typed one: UnknownOption and the typed name; with several: AmbiguousOptionName and the typed name; with exactly one: that full registered name and no error |
| GnuSyntax.Resolve | src/org/musiel/args/syntax/GnuSyntax.java:126-131 | an exact match is taken as is; otherwise, without abbreviation, UnknownOption and no prefix search; with it, the abbreviation search |
| GnuSyntax.ResolvedIffUnique | src/org/musiel/args/syntax/GnuSyntax.java:126-155 | resolution succeeds without error exactly when the name is registered or, with abbreviation allowed, a prefix of exactly one registered name; failure keeps the typed name and reports one error |
| GnuSyntax.ExactMatchWins | src/org/musiel/args/syntax/GnuSyntax.java:126-131 | a registered name resolves to itself even when it is a prefix of other registered names |
| GnuSyntax.HandleLongOption | src/org/musiel/args/syntax/GnuSyntax.java:119-139 | the long-option step appends the late-option error and then the resolution error, and keeps the two lists aligned, the options, the dictionary and the operands (which occurrence it records, or what it leaves pending, is stated by the three lemmas below) |
| GnuSyntax.LongOptionErrors | src/org/musiel/args/syntax/GnuSyntax.java:123-131 | a long option only appends errors, at most two; LateOption naming the typed name appears exactly when an operand was seen and late options are not allowed; only LateOption, UnknownOption and AmbiguousOptionName can appear |
| GnuSyntax.DefaultAllowsLateOptions | src/org/musiel/args/syntax/GnuSyntax.java:84-86 | with the default flags a long option never yields LateOption |
| GnuSyntax.ResolvedOptionIsRecorded | src/org/musiel/args/syntax/GnuSyntax.java:126-134 | a resolved option taking its argument at once adds one occurrence under its primary name, recorded with the full registered name even when abbreviated, and leaves the pending option alone |
| GnuSyntax.UnresolvedWithArgumentIsRecorded | src/org/musiel/args/syntax/GnuSyntax.java:126-134 | an unresolved name with `=argument` is recorded as typed, under its own key, next to exactly one resolution error; the pending option and every other key are untouched |
| GnuSyntax.PendingWithoutArgument | src/org/musiel/args/syntax/GnuSyntax.java:133-138 | without `=`, an unresolved name or an option requiring an argument records nothing and is left pending, with the option absent when unresolved |
| GnuSyntax.ApplyEffect | src/org/musiel/args/syntax/GnuSyntax.java:115-116 | the POSIX handler's occurrences are filed in order under their keys, its errors appended, and its pending option taken over |
| GnuSyntax.HandleOption | src/org/musiel/args/syntax/GnuSyntax.java:111-117 | a token starting with `--` takes the long-option step and any other goes unchanged to the POSIX handler; either way errors are only appended and alignment and operands are kept |
| GnuSyntax.HandleOptionsKeepFiled | src/org/musiel/args/syntax/GnuSyntax.java:111-139 | over any run of option tokens, every typed name the machine records stays filed under its own canonical key |
| GnuSyntax.HandleOptions | src/org/musiel/args/syntax/GnuSyntax.java:111-117 | handling option tokens in turn only appends errors and keeps the lists aligned |
| Accessors.NullToEmpty | src/org/musiel/args/SimpleAccessorImpl.java:106-108 | a null list reads as empty, any other as itself |
| Accessors.Single | src/org/musiel/args/SimpleAccessorImpl.java:110-112 | the single value is absent exactly for an empty list, and otherwise the first element |
| Accessors.Names | src/org/musiel/args/SimpleAccessorImpl.java:42-45 | `getNames` is the typed names filed under the name's canonical key, empty when there are none |
| Accessors.Arguments | src/org/musiel/args/SimpleAccessorImpl.java:57-60 | `getArguments` is the arguments filed under the name's canonical key, empty when there are none |
| Accessors.Occurrences | src/org/musiel/args/SimpleAccessorImpl.java:37-40 | `getOccurrences` is the number of recorded occurrences, and zero exactly when the option did not occur |
| Accessors.Name | src/org/musiel/args/SimpleAccessorImpl.java:52-55 | `getName` is the name of the first occurrence, absent exactly when there is none |
| Accessors.Argument | src/org/musiel/args/SimpleAccessorImpl.java:67-70 | `getArgument` is the argument of the first occurrence, absent when there is no occurrence or the first has no argument |
| Accessors.IsOccurred | src/org/musiel/args/SimpleAccessorImpl.java:32-35 | `isOccurred` holds exactly when at least one occurrence is filed under the name's canonical key |
| Accessors.OccurredIffNamed | src/org/musiel/args/SimpleAccessorImpl.java:32-35 | `isOccurred` holds exactly when `getName` is present; aligned names and arguments are equally many |
| Accessors.AccessorAliases | src/org/musiel/args/SimpleAccessorImpl.java:42-70 | names, arguments and the single argument read the same by any alias as by the primary name |
| Accessors.Operand | src/org/musiel/args/SimpleAccessorImpl.java:82-85 | `getOperand()` is the first operand, absent exactly when there are none |
| Accessors.SlotOperands | src/org/musiel/args/SimpleAccessorImpl.java:87-90 | a slot's operands are its entry in the slot map, or empty when it has none |
| Accessors.SlotOperand | src/org/musiel/args/SimpleAccessorImpl.java:97-100 | a slot's single operand is present exactly when the slot has a non-empty entry, and is its first operand |
| Accessors.ToArray | src/org/musiel/args/SimpleAccessorImpl.java:102-104 | the array has the list's length and its elements in order |
| Accessors.NamesAsArray | src/org/musiel/args/SimpleAccessorImpl.java:47-50 | the array form of `getNames` has the same length and order |
| Accessors.ArgumentsAsArray | src/org/musiel/args/SimpleAccessorImpl.java:62-65 | the array form of `getArguments` has the same length and order |
| Accessors.OperandsAsArray | src/org/musiel/args/SimpleAccessorImpl.java:77-80 | the array form of `getOperands()` has the same length and order |
| Accessors.SlotOperandsAsArray | src/org/musiel/args/SimpleAccessorImpl.java:92-95 | the array form of a slot's operands has the same length and order |
| Results.NewDefaultResult | src/org/musiel/args/DefaultResult.java:27-31 | the result keeps the errors in the given order, and reads names, arguments, operands and slot operands from the syntax result and slot map it was given |
| Results.Filter | src/org/musiel/args/DefaultResult.java:52-55 | filtering by kind never lengthens the errors |
| Results.FilterMembers | src/org/musiel/args/DefaultResult.java:52-55 | an error is kept exactly when it was reported and is of the kind |
| Results.FilterCounts | src/org/musiel/args/DefaultResult.java:52-55 | every matching error is kept as often as it was reported, every other one dropped |
| Results.FilterConcat | src/org/musiel/args/DefaultResult.java:52-55 | filtering distributes over concatenation, so kept errors stay in their original order |
| Results.FilterAnyKeepsAll | src/org/musiel/args/DefaultResult.java:52-55 | filtering by the common error class keeps everything |
| Results.FilterAll | src/org/musiel/args/DefaultResult.java:38-48 | every error carried for several kinds is a reported error of at least one requested kind |
| Results.FilterAllCounts | src/org/musiel/args/DefaultResult.java:40-44 | for several kinds, an error is carried once per requested kind it is of, times the number of times it was reported |
| Results.FilterAllEmpty | src/org/musiel/args/DefaultResult.java:40-46 | nothing is carried exactly when no error is of any requested kind |
| Results.CheckAll | src/org/musiel/args/DefaultResult.java:61-66 | `check()` throws exactly when there are errors, carrying all of them, and otherwise returns the result itself |
| Results.CheckKind | src/org/musiel/args/DefaultResult.java:50-59 | `check(type)` throws exactly when some error is of the kind, carrying exactly the matching errors in order, and otherwise returns the result itself |
| Results.CheckKinds | src/org/musiel/args/DefaultResult.java:38-48 | `check(types)` throws exactly when some error is of some requested kind, carrying the matching errors kind by kind in the given order, and otherwise returns the result itself |
| Results.CheckVariantsAgree | src/org/musiel/args/DefaultResult.java:38-66 | `check()` is `check` of the common error class, and `check` of one kind is `check` of the one-kind collection |
| Results.MatchingTwiceCarriedTwice | src/org/musiel/args/DefaultResult.java:38-48 | an error of two requested kinds is carried twice |
| Results.GetAccessor | src/org/musiel/args/DefaultResult.java:68-71 | `getAccessor` returns the result itself, same accessor and same errors, without checking anything; when `check()` passes it is the very result `check()` returns |
| Parsers.NewParser | src/org/musiel/args/AbstractParser.java:95-96 | a new parser has no options and no names, and is well formed |
| Parsers.FirstKnown | src/org/musiel/args/AbstractParser.java:137-139 | the duplicate scan finds nothing exactly when no name is registered, and otherwise the first registered name in the option's name order |
| Parsers.AddOption | src/org/musiel/args/AbstractParser.java:121-146 | registration fails, leaving the parser unchanged, on a null name or policy, on a validation error, or when a name is already registered (naming it); it succeeds exactly otherwise, appending the option and mapping each of its names to it while keeping every old entry |
| Parsers.AddOptionKeepsWellFormed | src/org/musiel/args/AbstractParser.java:136-145 | registration keeps every option well formed, every name registered once, and the dictionary mapping each name to its owner |
| Parsers.ExtendKeepsWellFormed | src/org/musiel/args/AbstractParser.java:141-143 | appending an option whose names are all new, and registering them, keeps the parser well formed |
| Parsers.DuplicateIsRejected | src/org/musiel/args/AbstractParser.java:137-139 | re-registering any registered name, as primary name or alias, fails and changes nothing |
| Parsers.SyntaxSeesSameDictionary | src/org/musiel/args/AbstractParser.java:136-145 | the syntax result built from a well-formed parser's options has exactly the parser's dictionary, so parsing never meets a duplicate name |
| Parsers.GetOption | src/org/musiel/args/AbstractParser.java:103-106 | `getOption` finds an option exactly for its declared names, and the option found declares the name |
| Parsers.GetOptionByAlias | src/org/musiel/args/AbstractParser.java:103-106 | `getOption` returns the same option for the primary name and for every alias |
| Parsers.SetOperandPattern | src/org/musiel/args/AbstractParser.java:161-164 | setting the pattern replaces it and drops every description, leaving the options alone |
| Parsers.SetOperandDescription | src/org/musiel/args/AbstractParser.java:178-182 | a description is stored exactly when a pattern is set and the name is one of its slots, and otherwise rejected |
| Parsers.DescriptionsStayInPattern | src/org/musiel/args/AbstractParser.java:161-182 | described operands are always slots of the current pattern |
| Parsers.Parse | src/org/musiel/args/AbstractParser.java:226-240 | the result's errors are the syntax errors in order, followed by the operand error exactly when a pattern is set and rejects the operands; the slot map is the match's, or empty without a pattern or on a mismatch |
| Parsers.Wrap32 | src/org/musiel/args/AbstractParser.java:221 | `int` addition: the result lies in the `int` range, equals the true sum when that fits, and is off by 2^32 when the sum overflows by less than 2^31 |
| Parsers.EndCheckAsWritten | src/org/musiel/args/AbstractParser.java:221-222 | the end check as written agrees with `offset + length > args.length` whenever the sum fits in an `int`, and never fires for a non-negative offset and length whose sum overflows |
| Parsers.OverflowingRangeSlipsThrough | src/org/musiel/args/AbstractParser.java:217-223 | two arguments, offset 1 and length 2147483647 pass all three checks as written, though the range ends past the array and the wrapped end lies before the offset |
| Parsers.ParseRange | src/org/musiel/args/AbstractParser.java:215-224 | a bad offset, then a negative length, then an end past the array are rejected with their own errors, the end carrying `offset + length`, for every `int` offset and length; otherwise the result is parsing exactly the slice; wherever the sum fits in an `int`, the end check agrees with the check as written |
| Parsers.ParseFrom | src/org/musiel/args/AbstractParser.java:208-213 | an offset outside the array is rejected; otherwise the result is parsing the suffix from the offset |
| Parsers.EmptyArgumentsRejected | src/org/musiel/args/AbstractParser.java:208-224 | an empty array is rejected by both ranged forms whatever the offset and length |
| Parsers.RangesAgree | src/org/musiel/args/AbstractParser.java:208-224 | parsing from offset zero is parsing the whole array, and a non-empty range is parsing from its offset an array cut at its end |

## Left out

- The POSIX short-option machine (`PosixSyntax`, `PosixMachine`) is not part of this model. It covers option clustering, joint arguments, the `--` terminator, handing a pending option its argument, and the operand/option decision. `GnuSyntax.HandleOption` receives the POSIX step as a parameter. `GnuSyntax.HandleOptions` only folds the option step over tokens already known to be options.
- The `optionalArgumentsAllowed` and `jointArgumentsAllowed` flags are not modelled, because only the POSIX machine and its validation read them.
- Operand patterns are not part of this model: their compilation, matching and ambiguity search, and the ambiguity message built in `AbstractParser.java:184-206`. The compiled pattern is given as its text and slot names, and matching is a parameter.
- Description and argument-name lookup through resource bundles and locales is left out (`AbstractParser.java:50-93` and `127-132`). It is localisation plumbing with no effect on parsing.
- Help printing (`GnuMonoTermPrinter`) is left out, because it is output formatting. Reflection-based parsing (`ReflectParser`) and the value decoders (`LongValue`, `UrlValue`) are left out, because they depend on reflection and on library classes.
- The exception classes are represented only by the data they carry, as `Errors.ArgError` and `Errors.SetupError`. Their messages are left out.
- Read-only views and list freezing (`AbstractParseResult.java:89-94`, the unmodifiable collections) are left out, because every value in the model is immutable.
- `null` inside a token array is not modelled: tokens are strings.
- Two preconditions are assumed rather than modelled. A list that is iterated with a `null` element inside, or an occurrence list whose arguments run out early, would throw in Java. The model instead assumes the two lists are aligned, and `ParseResults.Push` proves that they always are.
- Intermediate exception classes, such as `OptionException` (`syntax/OptionException.java:17`), are not kinds a `check` can filter on: which concrete error classes extend them is defined in files that are not part of this model. Only the common base class and the concrete classes are kinds.
- Parsers.ParseRange: checks the end as `length > args.length - offset` instead of the overflowing `offset + length > args.length` (see Findings). What the code as written does with an overflowing range happens inside `Arrays.copyOfRange` and the syntax machine, which are not part of this model; `Parsers.EndCheckAsWritten` models only the check that lets such a range through.
- Parsers.AddOption: the option's description and argument-name overrides are not stored, because they only feed the resource lookup left out above.
- Parsers.SetOperandPattern: compiling the pattern text and rejecting an ambiguous pattern are not modelled. The compiled pattern is given.

## Findings

| source | as written | input that shows it | evidently intended | confidence | as-written member | corrected member |
|---|---|---|---|---|---|---|
| src/org/musiel/args/syntax/GnuSyntax.java:94-97 | the name pattern is anchored with `$`, which in `java.util.regex` also matches just before a final line terminator, so `find()` accepts a valid name followed by `\n`, `\r\n`, `\r`, U+0085, U+2028 or U+2029 | the option name `"-a\n"` is accepted by `validateName` | only names made of `-` and one letter or digit, or `--` and letters, digits and hyphens, with nothing after them | not executed | GnuSyntax.NameWithTrailingNewlineAccepted | GnuSyntax.ValidateName |
| src/org/musiel/args/AbstractParser.java:221-223 | the end of `parse(args, offset, length)` is checked as `offset + length > args.length` in 32-bit `int` arithmetic, so for a large length the sum wraps negative and the check does not fire; `Arrays.copyOfRange` then receives an end before the offset | `args` of two elements, offset 1, length 2147483647: the sum wraps to -2147483648 and no `ArrayIndexOutOfBoundsException` is thrown | every range ending past the array is rejected, as with `length > args.length - offset`, which cannot overflow | not executed | Parsers.OverflowingRangeSlipsThrough | Parsers.ParseRange |

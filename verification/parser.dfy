/** The parser front end (`AbstractParser`, with `DefaultParser`'s result
    construction): option registration, operand-pattern bookkeeping, and the
    three `parse` entry points. The syntax machine and the operand matcher are
    parameters: the first turns the declared options and the tokens into a
    finished syntax result, the second assigns operands to the pattern's
    slots or reports one operand error. */
module Parsers {
  import opened Wrappers
  import opened Errors
  import opened Options
  import opened ParseResults
  import opened Accessors
  import opened Results

  /** A compiled operand pattern: its text and the names of its slots. */
  datatype OperandPattern = OperandPattern(text: string, slotNames: set<string>)

  /** `OperandPattern.match`: the operands of each slot, or the
      `OperandException` it throws. */
  datatype MatchResult = Matched(slots: map<string, seq<string>>) | Mismatch(error: ArgError)

  /** The registration state of a parser. */
  datatype Parser = Parser(
    options: seq<OptionDef>,
    dictionary: map<string, OptionDef>,
    pattern: Option<OperandPattern>,
    descriptions: map<string, string>)

  /** Every registered option is well formed, no name is registered twice, and
      the dictionary maps each name to the option declaring it. */
  ghost predicate WellFormed(p: Parser) {
    && (forall i | 0 <= i < |p.options| :: Valid(p.options[i]))
    && Distinct(AllNames(p.options))
    && Owns(p.dictionary, p.options)
  }

  /** A new parser: no options, no operand pattern, no descriptions. */
  function NewParser(): (p: Parser)
    ensures WellFormed(p)
    ensures p.options == [] && p.dictionary == map[] && p.pattern == None
  {
    Parser([], map[], None, map[])
  }

  // ---------------------------------------------------------------------------
  // Options
  // ---------------------------------------------------------------------------

  /** The first of `ns` already in `d`, in the order of `ns`. */
  function FirstKnown(d: map<string, OptionDef>, ns: seq<string>): (r: Option<string>)
    ensures r.None? <==> forall n | n in ns :: n !in d
    ensures r.Some? ==> exists i | 0 <= i < |ns| :: ns[i] == r.value && r.value in d && forall j | 0 <= j < i :: ns[j] !in d
  {
    if ns == [] then None
    else if ns[0] in d then Some(ns[0])
    else
      var r := FirstKnown(d, ns[1..]);
      assert forall i | 1 <= i < |ns| :: ns[i] == ns[1..][i - 1];
      assert ns == [ns[0]] + ns[1..];
      r
  }

  /** The parser after a registration and what `addOption` returned or threw. */
  datatype Registration = Registration(parser: Parser, outcome: Result<OptionDef, SetupError>)

  /** `addOption`: builds the option, lets the syntax validate it, rejects it if
      any of its names is already registered, and only then records it under
      all of its names. A failed registration leaves the parser as it was. */
  function AddOption(
    p: Parser,
    validate: OptionDef -> Option<SetupError>,
    primary: Option<string>,
    additional: Option<seq<Option<string>>>,
    required: bool,
    repeatable: bool,
    policy: Option<Policy>): (r: Registration)
    ensures r.outcome.Err? ==> r.parser == p
    ensures var o := NewOption(primary, additional, required, repeatable, policy);
      r.outcome.Ok? <==> o.Ok? && validate(o.value).None? && forall n | n in o.value.names :: n !in p.dictionary
    ensures var o := NewOption(primary, additional, required, repeatable, policy);
      r.outcome.Err? && o.Ok? && validate(o.value).None? ==>
        r.outcome.error.DuplicateName? && r.outcome.error.name in o.value.names && r.outcome.error.name in p.dictionary
    ensures r.outcome.Ok? ==>
      && r.outcome == NewOption(primary, additional, required, repeatable, policy)
      && r.parser.options == p.options + [r.outcome.value]
      && r.parser.pattern == p.pattern && r.parser.descriptions == p.descriptions
      && (forall n :: n in r.parser.dictionary <==> n in p.dictionary || n in r.outcome.value.names)
      && (forall n | n in r.outcome.value.names :: r.parser.dictionary[n] == r.outcome.value)
      && (forall n | n in p.dictionary :: r.parser.dictionary[n] == p.dictionary[n])
  {
    var o := NewOption(primary, additional, required, repeatable, policy);
    if o.Err? then Registration(p, Err(o.error))
    else
      var invalid := validate(o.value);
      if invalid.Some? then Registration(p, Err(invalid.value))
      else
        var dup := FirstKnown(p.dictionary, o.value.names);
        if dup.Some? then Registration(p, Err(DuplicateName(dup.value)))
        else
          var d := InsertNames(p.dictionary, o.value, o.value.names);
          Registration(p.(options := p.options + [o.value], dictionary := d.value), Ok(o.value))
  }

  /** Registration keeps a parser well formed. */
  lemma AddOptionKeepsWellFormed(
    p: Parser,
    validate: OptionDef -> Option<SetupError>,
    primary: Option<string>,
    additional: Option<seq<Option<string>>>,
    required: bool,
    repeatable: bool,
    policy: Option<Policy>)
    requires WellFormed(p)
    ensures WellFormed(AddOption(p, validate, primary, additional, required, repeatable, policy).parser)
  {
    var r := AddOption(p, validate, primary, additional, required, repeatable, policy);
    if r.outcome.Ok? {
      ExtendKeepsWellFormed(p, r.outcome.value, r.parser);
    }
  }

  /** Appending an option none of whose names is registered, and registering
      each of its names, keeps a parser well formed. */
  lemma ExtendKeepsWellFormed(p: Parser, o: OptionDef, q: Parser)
    requires WellFormed(p) && Valid(o)
    requires forall n | n in o.names :: n !in p.dictionary
    requires q.options == p.options + [o]
    requires forall n :: n in q.dictionary <==> n in p.dictionary || n in o.names
    requires forall n | n in o.names :: q.dictionary[n] == o
    requires forall n | n in p.dictionary :: q.dictionary[n] == p.dictionary[n]
    ensures WellFormed(q)
  {
    var os := q.options;
    AllNamesConcat(p.options, [o]);
    assert AllNames([o]) == o.names + AllNames([]);
    assert AllNames(os) == AllNames(p.options) + o.names;
    forall n | n in AllNames(p.options) ensures n !in o.names {
      InAllNames(p.options, n);
    }
    DistinctConcat(AllNames(p.options), o.names);
    forall i, n | 0 <= i < |os| && n in os[i].names ensures n in q.dictionary && q.dictionary[n] == os[i] {
      if i < |p.options| {
        assert os[i] == p.options[i];
      }
    }
    forall i | 0 <= i < |os| ensures Valid(os[i]) {
      if i < |p.options| {
        assert os[i] == p.options[i];
      }
    }
  }

  /** The syntax side builds from the registered options exactly the parser's
      own dictionary, so a parse never meets a duplicate name. */
  lemma SyntaxSeesSameDictionary(p: Parser)
    requires WellFormed(p)
    ensures BuildDictionary(p.options) == Ok(p.dictionary)
  {
    OwnsIsUnique(BuildDictionary(p.options).value, p.dictionary, p.options);
  }

  /** `getOption` */
  function GetOption(p: Parser, name: string): (r: Option<OptionDef>)
    ensures WellFormed(p) && r.Some? ==> name in r.value.names && r.value in p.options
    ensures WellFormed(p) ==> (r.Some? <==> name in AllNames(p.options))
  {
    InAllNames(p.options, name);
    Get(p.dictionary, name)
  }

  /** An option is found under its primary name and under every alias. */
  lemma GetOptionByAlias(p: Parser, i: nat, alias: string)
    requires WellFormed(p) && 0 <= i < |p.options| && alias in p.options[i].names
    ensures GetOption(p, alias) == Some(p.options[i])
    ensures GetOption(p, p.options[i].name) == Some(p.options[i])
  {
    assert p.options[i].names[0] == p.options[i].name;
  }

  /** A rejected duplicate leaves the parser as it was: registering a name
      that is already registered, under any option, fails. */
  lemma DuplicateIsRejected(
    p: Parser,
    validate: OptionDef -> Option<SetupError>,
    primary: string,
    additional: seq<string>,
    required: bool,
    repeatable: bool,
    policy: Policy,
    n: string)
    requires n in p.dictionary && (n == primary || n in additional)
    ensures var r := AddOption(p, validate, Some(primary), Some(Wrap(additional)), required, repeatable, Some(policy));
      r.outcome.Err? && r.parser == p
  {
    var o := NewOption(Some(primary), Some(Wrap(additional)), required, repeatable, Some(policy));
    if n in additional {
      var i :| 0 <= i < |additional| && additional[i] == n;
      assert Wrap(additional)[i] == Some(n);
    }
    assert n in o.value.names;
  }

  // ---------------------------------------------------------------------------
  // Operands
  // ---------------------------------------------------------------------------

  /** `setOperandPattern`: the pattern is replaced and every operand
      description is dropped. Compiling the pattern text is not part of this
      model; the compiled pattern is given. */
  function SetOperandPattern(p: Parser, pattern: Option<OperandPattern>): (r: Parser)
    ensures r.pattern == pattern && r.descriptions == map[]
    ensures r.options == p.options && r.dictionary == p.dictionary
    ensures WellFormed(p) ==> WellFormed(r)
  {
    p.(pattern := pattern, descriptions := map[])
  }

  /** `setOperandDescription`: only a slot of the current pattern can be described. */
  function SetOperandDescription(p: Parser, name: string, description: string): (r: Result<Parser, SetupError>)
    ensures r.Ok? <==> p.pattern.Some? && name in p.pattern.value.slotNames
    ensures r.Ok? ==> r.value == p.(descriptions := p.descriptions[name := description])
    ensures r.Err? ==> r.error == UnknownOperandName(name)
  {
    if p.pattern.None? || name !in p.pattern.value.slotNames then Err(UnknownOperandName(name))
    else Ok(p.(descriptions := p.descriptions[name := description]))
  }

  /** Every described operand is a slot of the current pattern. */
  ghost predicate DescriptionsFitPattern(p: Parser) {
    forall n | n in p.descriptions :: p.pattern.Some? && n in p.pattern.value.slotNames
  }

  /** Setting a pattern and describing its slots keep descriptions within the pattern. */
  lemma DescriptionsStayInPattern(p: Parser, pattern: Option<OperandPattern>, name: string, description: string)
    ensures DescriptionsFitPattern(SetOperandPattern(p, pattern))
    ensures DescriptionsFitPattern(p) && SetOperandDescription(p, name, description).Ok? ==>
      DescriptionsFitPattern(SetOperandDescription(p, name, description).value)
  {
  }

  // ---------------------------------------------------------------------------
  // Parsing
  // ---------------------------------------------------------------------------

  /** `parse(args...)`: the syntax result's errors in order, followed by the
      operand matcher's error when it rejects the operands; the slot map is
      empty without a pattern or when the match fails. */
  function Parse(
    p: Parser,
    syntax: (seq<OptionDef>, seq<string>) -> ScanState,
    matcher: (OperandPattern, seq<string>) -> MatchResult,
    args: seq<string>): (r: DefaultResult)
    ensures var sr := syntax(p.options, args);
      && r.accessor.syntax == sr
      && |sr.errors| <= |r.errors| <= |sr.errors| + 1
      && r.errors[..|sr.errors|] == sr.errors
      && (|r.errors| > |sr.errors| <==> p.pattern.Some? && matcher(p.pattern.value, sr.operands).Mismatch?)
      && (|r.errors| > |sr.errors| ==> r.errors[|sr.errors|] == matcher(p.pattern.value, sr.operands).error)
    ensures var sr := syntax(p.options, args);
      && (p.pattern.None? ==> r.accessor.operandMap == map[])
      && (p.pattern.Some? ==> match matcher(p.pattern.value, sr.operands)
            case Matched(slots) => r.accessor.operandMap == slots
            case Mismatch(_) => r.accessor.operandMap == map[])
  {
    var sr := syntax(p.options, args);
    var matched := if p.pattern.Some? then Some(matcher(p.pattern.value, sr.operands)) else None;
    var errors := if matched.Some? && matched.value.Mismatch? then sr.errors + [matched.value.error] else sr.errors;
    var operandMap := if matched.Some? && matched.value.Matched? then matched.value.slots else map[];
    NewDefaultResult(sr, operandMap, errors)
  }

  // ---------------------------------------------------------------------------
  // 32-bit arithmetic
  // ---------------------------------------------------------------------------

  /** The bound of Java's `int`: every `int` lies in `[-IntLimit, IntLimit)`,
      and so does every array length. */
  const IntLimit: int := 0x8000_0000

  predicate IsInt(x: int) {
    -IntLimit <= x < IntLimit
  }

  /** The value Java's `int` addition yields for the mathematical result `x`
      of adding two `int`s: `x` wrapped into the `int` range. */
  function Wrap32(x: int): (r: int)
    ensures IsInt(r)
    ensures IsInt(x) ==> r == x
    ensures IntLimit <= x < 3 * IntLimit ==> r == x - 2 * IntLimit
    ensures -3 * IntLimit <= x < -IntLimit ==> r == x + 2 * IntLimit
  {
    (x + IntLimit) % (2 * IntLimit) - IntLimit
  }

  // ---------------------------------------------------------------------------
  // Ranged parsing
  // ---------------------------------------------------------------------------

  /** The end check of `parse(args, offset, length)` as written:
      `offset + length > args.length`, with the sum taken in `int`. It agrees
      with the mathematical check as long as the sum fits in an `int`, and
      lets through every in-bounds offset with a length large enough to
      overflow. */
  function EndCheckAsWritten(count: int, offset: int, length: int): (fires: bool)
    requires IsInt(offset) && IsInt(length)
    ensures IsInt(offset + length) ==> (fires <==> offset + length > count)
    ensures 0 <= offset && 0 <= length && !IsInt(offset + length) && 0 <= count ==> !fires
  {
    Wrap32(offset + length) > count
  }

  /** Two arguments, offset 1 and the largest `int` as length: the range ends
      far past the array, yet the end check as written does not fire, because
      the sum wraps round to the smallest `int`; the slice end handed on is
      then before the offset. */
  lemma OverflowingRangeSlipsThrough()
    ensures var count, offset, length := 2, 1, IntLimit - 1;
      && 0 <= offset < count && 0 <= length
      && offset + length > count
      && !EndCheckAsWritten(count, offset, length)
      && Wrap32(offset + length) == -IntLimit < offset
  {
  }

  /** `parse(args, offset, length)`: the slice `[offset, offset + length)`,
      after checking the offset, then the length, then the end. The end is
      checked as `length > args.length - offset`, which cannot overflow, so
      every range ending past the array is rejected; the error carries the
      end index `offset + length`. */
  function ParseRange(
    p: Parser,
    syntax: (seq<OptionDef>, seq<string>) -> ScanState,
    matcher: (OperandPattern, seq<string>) -> MatchResult,
    args: seq<string>,
    offset: int,
    length: int): (r: Result<DefaultResult, SetupError>)
    requires IsInt(offset) && IsInt(length) && |args| < IntLimit
    ensures r.Ok? <==> 0 <= offset < |args| && 0 <= length && offset + length <= |args|
    ensures (offset < 0 || offset >= |args|) ==> r == Err(OffsetOutOfBounds(offset))
    ensures 0 <= offset < |args| && length < 0 ==> r == Err(NegativeLength(length))
    ensures 0 <= offset < |args| && 0 <= length && offset + length > |args| ==> r == Err(EndOutOfBounds(offset + length))
    ensures 0 <= offset < |args| && 0 <= length && IsInt(offset + length) ==>
      (r.Err? <==> EndCheckAsWritten(|args|, offset, length))
    ensures r.Ok? ==> r.value == Parse(p, syntax, matcher, args[offset..offset + length])
  {
    if offset < 0 || offset >= |args| then Err(OffsetOutOfBounds(offset))
    else if length < 0 then Err(NegativeLength(length))
    else if length > |args| - offset then Err(EndOutOfBounds(offset + length))
    else Ok(Parse(p, syntax, matcher, args[offset..offset + length]))
  }

  /** `parse(args, offset)`: checks the offset, then parses the rest through
      `parse(args, offset, length)`. */
  function ParseFrom(
    p: Parser,
    syntax: (seq<OptionDef>, seq<string>) -> ScanState,
    matcher: (OperandPattern, seq<string>) -> MatchResult,
    args: seq<string>,
    offset: int): (r: Result<DefaultResult, SetupError>)
    requires IsInt(offset) && |args| < IntLimit
    ensures r.Ok? <==> 0 <= offset < |args|
    ensures r.Err? ==> r.error == OffsetOutOfBounds(offset)
    ensures r.Ok? ==> r.value == Parse(p, syntax, matcher, args[offset..])
  {
    if offset < 0 || offset >= |args| then Err(OffsetOutOfBounds(offset))
    else
      assert args[offset..offset + (|args| - offset)] == args[offset..];
      ParseRange(p, syntax, matcher, args, offset, |args| - offset)
  }

  /** An empty argument array is rejected by both ranged forms, whatever the
      offset and length. */
  lemma EmptyArgumentsRejected(
    p: Parser,
    syntax: (seq<OptionDef>, seq<string>) -> ScanState,
    matcher: (OperandPattern, seq<string>) -> MatchResult,
    offset: int,
    length: int)
    requires IsInt(offset) && IsInt(length)
    ensures ParseFrom(p, syntax, matcher, [], offset) == Err(OffsetOutOfBounds(offset))
    ensures ParseRange(p, syntax, matcher, [], offset, length) == Err(OffsetOutOfBounds(offset))
  {
  }

  /** Parsing from the start is parsing the whole array, and parsing a
      non-empty range is parsing from its offset an array cut at the range's end. */
  lemma RangesAgree(
    p: Parser,
    syntax: (seq<OptionDef>, seq<string>) -> ScanState,
    matcher: (OperandPattern, seq<string>) -> MatchResult,
    args: seq<string>,
    offset: int,
    length: int)
    requires 0 <= offset < |args| && 0 < length && offset + length <= |args| && |args| < IntLimit
    ensures ParseFrom(p, syntax, matcher, args, 0) == Ok(Parse(p, syntax, matcher, args))
    ensures ParseRange(p, syntax, matcher, args, offset, length) ==
      ParseFrom(p, syntax, matcher, args[..offset + length], offset)
  {
    assert args[0..] == args;
    assert args[..offset + length][offset..] == args[offset..offset + length];
  }
}

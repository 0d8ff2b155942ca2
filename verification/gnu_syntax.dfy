/** The GNU syntax (`GnuSyntax`): its option-name rule, its two flags, and the
    step of its machine that handles one option-shaped token. Tokens starting
    with `--` are long options, split at the first `=` and resolved by exact
    name or unique-prefix abbreviation; every other option token goes to the
    POSIX short-option handler, which is a parameter here. */
module GnuSyntax {
  import opened Wrappers
  import opened Errors
  import opened Options
  import opened ParseResults

  // ---------------------------------------------------------------------------
  // Configuration
  // ---------------------------------------------------------------------------

  /** The two flags that govern long options. */
  datatype Config = Config(lateOptionsAllowed: bool, abbreviationAllowed: bool)

  /** A new `GnuSyntax` allows options after operands, and abbreviations. */
  const DefaultConfig := Config(lateOptionsAllowed := true, abbreviationAllowed := true)

  // ---------------------------------------------------------------------------
  // Option names
  // ---------------------------------------------------------------------------

  predicate IsAsciiAlnum(c: char) {
    ('A' <= c <= 'Z') || ('a' <= c <= 'z') || ('0' <= c <= '9')
  }

  /** A GNU option name: `-` and one ASCII letter or digit, or `--` and one or
      more ASCII letters, digits or hyphens. */
  predicate IsValidName(s: string) {
    || (|s| == 2 && s[0] == '-' && IsAsciiAlnum(s[1]))
    || (|s| >= 3 && s[0] == '-' && s[1] == '-' && forall i | 2 <= i < |s| :: IsAsciiAlnum(s[i]) || s[i] == '-')
  }

  /** The line terminators `java.util.regex` recognises by default. */
  predicate IsLineTerminator(c: char) {
    c == '\n' || c == '\r' || c == 0x85 as char || c == 0x2028 as char || c == 0x2029 as char
  }

  /** What the name pattern accepts as written: the anchor `$` also matches just
      before a line terminator that ends the input (or a final CR LF pair), so
      a valid name followed by one such terminator is accepted too. */
  predicate IsValidNameAsWritten(s: string) {
    || IsValidName(s)
    || (|s| >= 1 && IsLineTerminator(s[|s| - 1]) && IsValidName(s[..|s| - 1]))
    || (|s| >= 2 && s[|s| - 2] == '\r' && s[|s| - 1] == '\n' && IsValidName(s[..|s| - 2]))
  }

  /** The pattern as written lets `"-a\n"` through, a name no long or short
      option token can ever spell; matched against the whole name it is
      rejected. */
  lemma NameWithTrailingNewlineAccepted()
    ensures IsValidNameAsWritten("-a\n")
    ensures !IsValidName("-a\n")
    ensures ValidateName("-a\n") == Some(InvalidOption("-a\n"))
  {
    assert "-a\n"[..2] == "-a";
  }

  /** `validateName`, with the name rule matched against the whole name: a
      name the GNU rule rejects is an invalid option, and an accepted name
      holds no line terminator and no `=`. */
  function ValidateName(name: string): (r: Option<SetupError>)
    ensures r.None? <==> IsValidName(name)
    ensures r.Some? ==> r.value == InvalidOption(name)
    ensures r.None? ==> forall i | 0 <= i < |name| :: !IsLineTerminator(name[i]) && name[i] != '='
  {
    if IsValidName(name) then None else Some(InvalidOption(name))
  }

  /** Every valid name is option-shaped and has no `=`, so a token spelling it
      splits back to the whole name; a valid name is long exactly when it
      starts with `--`. */
  lemma ValidNameSplitsToItself(name: string)
    requires IsValidName(name)
    ensures '=' !in name
    ensures SplitToken(name) == LongToken(name, None)
    ensures |name| > 2 <==> IsLongToken(name)
  {
    if '=' in name {
      var i :| 0 <= i < |name| && name[i] == '=';
    }
  }

  // ---------------------------------------------------------------------------
  // Splitting a long-option token
  // ---------------------------------------------------------------------------

  /** A long-option token taken apart: the name and the explicit argument. */
  datatype LongToken = LongToken(name: string, argument: Option<string>)

  predicate IsLongToken(arg: string) {
    |arg| >= 2 && arg[0] == '-' && arg[1] == '-'
  }

  /** The index of the first `c` in `s`, or `|s|` when there is none. */
  function FirstIndexOf(s: string, c: char): (r: nat)
    ensures r <= |s|
    ensures forall i | 0 <= i < r :: s[i] != c
    ensures r < |s| ==> s[r] == c
  {
    if s == [] || s[0] == c then 0 else 1 + FirstIndexOf(s[1..], c)
  }

  /** Splits at the first `=`: the name before it and the argument after it,
      which may itself contain `=`; without `=` the whole token is the name. */
  function SplitToken(arg: string): (r: LongToken)
    ensures '=' !in r.name
    ensures r.argument.None? <==> '=' !in arg
    ensures r.argument.None? ==> r.name == arg
    ensures r.argument.Some? ==> arg == r.name + "=" + r.argument.value
  {
    var i := FirstIndexOf(arg, '=');
    if i == |arg| then
      LongToken(arg, None)
    else
      assert arg == arg[..i] + "=" + arg[i + 1..];
      LongToken(arg[..i], Some(arg[i + 1..]))
  }

  /** The token a long option is written as. */
  function JoinToken(t: LongToken): string {
    match t.argument
    case None => t.name
    case Some(a) => t.name + "=" + a
  }

  /** Splitting undoes joining whenever the name has no `=`, and joining undoes
      splitting always. */
  lemma {:induction false} SplitJoinRoundTrip(t: LongToken, arg: string)
    requires '=' !in t.name
    ensures SplitToken(JoinToken(t)) == t
    ensures JoinToken(SplitToken(arg)) == arg
  {
    var s := JoinToken(t);
    var r := SplitToken(s);
    if t.argument.Some? {
      assert s[|t.name|] == '=';
      PrefixBeforeFirst(t.name, "=" + t.argument.value, '=');
    } else {
      assert '=' !in s;
    }
  }

  /** In `p + q` with no `c` in `p`, the first `c` is the first `c` of `q`, offset by `|p|`. */
  lemma {:induction false} PrefixBeforeFirst(p: string, q: string, c: char)
    requires c !in p && |q| > 0 && q[0] == c
    ensures FirstIndexOf(p + q, c) == |p|
    decreases |p|
  {
    if p == [] {
      assert p + q == q;
    } else {
      assert (p + q)[1..] == p[1..] + q;
      PrefixBeforeFirst(p[1..], q, c);
    }
  }

  // ---------------------------------------------------------------------------
  // Resolving a long name
  // ---------------------------------------------------------------------------

  /** The registered names that start with `name`. */
  function Candidates(d: map<string, OptionDef>, name: string): set<string> {
    set k | k in d && name <= k
  }

  /** The name a long option is filed under, and the errors resolving it gave. */
  datatype Resolution = Resolution(name: string, errors: seq<ArgError>)

  lemma SingletonMembersAreEqual(s: set<string>, a: string, b: string)
    requires |s| == 1 && a in s && b in s
    ensures a == b
  {
    assert |s - {a}| == |s| - 1 == 0;
    assert b !in s - {a};
  }

  /** `findAbbreviatedName`: the only registered name the typed one is a prefix
      of; with none or several, the typed name with one error. */
  function FindAbbreviatedName(d: map<string, OptionDef>, name: string): (r: Resolution)
    ensures |Candidates(d, name)| == 0 ==> r == Resolution(name, [UnknownOption(name)])
    ensures |Candidates(d, name)| > 1 ==> r == Resolution(name, [AmbiguousOptionName(name)])
    ensures |Candidates(d, name)| == 1 ==>
      && r.errors == [] && r.name in d && name <= r.name
      && forall k | k in d && name <= k :: k == r.name
  {
    var cs := Candidates(d, name);
    if |cs| == 0 then Resolution(name, [UnknownOption(name)])
    else if |cs| > 1 then Resolution(name, [AmbiguousOptionName(name)])
    else
      var c :| c in cs;
      assert forall k | k in d && name <= k :: k == c by {
        forall k | k in d && name <= k ensures k == c {
          assert k in cs;
          SingletonMembersAreEqual(cs, k, c);
        }
      }
      Resolution(c, [])
  }

  /** Resolution of a typed long name: an exact match first, then, when
      allowed, a unique-prefix abbreviation. */
  function Resolve(cfg: Config, d: map<string, OptionDef>, name: string): (r: Resolution)
    ensures name in d ==> r == Resolution(name, [])
    ensures name !in d && !cfg.abbreviationAllowed ==> r == Resolution(name, [UnknownOption(name)])
    ensures name !in d && cfg.abbreviationAllowed ==> r == FindAbbreviatedName(d, name)
  {
    if name in d then Resolution(name, [])
    else if !cfg.abbreviationAllowed then Resolution(name, [UnknownOption(name)])
    else FindAbbreviatedName(d, name)
  }

  /** A name resolves, without error, exactly when it is registered or is a
      prefix of exactly one registered name (and abbreviation is allowed);
      otherwise the typed name is kept and exactly one error is reported. */
  lemma ResolvedIffUnique(cfg: Config, d: map<string, OptionDef>, name: string)
    ensures var r := Resolve(cfg, d, name);
      (r.errors == [] <==> name in d || (cfg.abbreviationAllowed && |Candidates(d, name)| == 1))
    ensures var r := Resolve(cfg, d, name); r.errors == [] <==> r.name in d
    ensures var r := Resolve(cfg, d, name); r.errors != [] ==> r.name == name && |r.errors| == 1
  {
  }

  /** An exact match wins even when the typed name is a prefix of other
      registered names. */
  lemma ExactMatchWins(cfg: Config, d: map<string, OptionDef>, name: string, longer: string)
    requires name in d && longer in d && name < longer
    ensures |Candidates(d, name)| > 1
    ensures Resolve(cfg, d, name) == Resolution(name, [])
  {
    assert name != longer;
    assert {name, longer} <= Candidates(d, name);
    assert |{name, longer}| == 2;
    SubsetSize({name, longer}, Candidates(d, name));
  }

  lemma {:induction false} SubsetSize(a: set<string>, b: set<string>)
    requires a <= b
    ensures |a| <= |b|
  {
    assert b == a + (b - a);
  }

  // ---------------------------------------------------------------------------
  // The long-option step
  // ---------------------------------------------------------------------------

  /** `LateOption` for an option token after an operand, when that is not allowed. */
  function LateErrors(cfg: Config, st: ScanState, name: string): seq<ArgError> {
    if st.operands != [] && !cfg.lateOptionsAllowed then [LateOption(name)] else []
  }

  /** An occurrence is recorded at once when an argument was given, or when the
      option resolved and does not require one; otherwise the option is left
      pending for the next token. */
  predicate PushesAtOnce(d: map<string, OptionDef>, name: string, argument: Option<string>) {
    argument.Some? || (name in d && !d[name].policy.IsRequired())
  }

  /** `handleLongOption`. */
  function HandleLongOption(cfg: Config, st: ScanState, arg: string): (r: ScanState)
    ensures r.errors == st.errors + LateErrors(cfg, st, SplitToken(arg).name) + Resolve(cfg, st.dictionary, SplitToken(arg).name).errors
    ensures Aligned(st) ==> Aligned(r)
    ensures r.options == st.options && r.dictionary == st.dictionary && r.operands == st.operands
  {
    var t := SplitToken(arg);
    var st1 := st.(errors := st.errors + LateErrors(cfg, st, t.name));
    var res := Resolve(cfg, st.dictionary, t.name);
    var st2 := st1.(errors := st1.errors + res.errors);
    if PushesAtOnce(st.dictionary, res.name, t.argument) then
      Push(st2, res.name, t.argument)
    else
      st2.(pending := Pending(res.name, Get(st.dictionary, res.name)))
  }

  /** The errors a long option adds are at most a `LateOption` naming the name
      as typed, followed by at most one resolution error; `LateOption` is
      reported exactly when an operand was already seen and late options are
      not allowed. */
  lemma LongOptionErrors(cfg: Config, st: ScanState, arg: string)
    ensures var r := HandleLongOption(cfg, st, arg); var es := r.errors[|st.errors|..];
      && |st.errors| <= |r.errors| && r.errors[..|st.errors|] == st.errors
      && |es| <= 2
      && (LateOption(SplitToken(arg).name) in es <==> st.operands != [] && !cfg.lateOptionsAllowed)
      && (forall e | e in es :: e.LateOption? || e.UnknownOption? || e.AmbiguousOptionName?)
  {
    var t := SplitToken(arg);
    var late := LateErrors(cfg, st, t.name);
    var res := Resolve(cfg, st.dictionary, t.name);
    ResolutionErrors(cfg, st.dictionary, t.name);
    AppendedErrors(st.errors, st.operands != [] && !cfg.lateOptionsAllowed, t.name, res.errors,
      HandleLongOption(cfg, st, arg).errors);
  }

  /** After `pre`, the errors `pre + late + res` hold at most the one
      `LateOption` of `late` and the at most one resolution error of `res`. */
  lemma AppendedErrors(pre: seq<ArgError>, isLate: bool, name: string, res: seq<ArgError>, es: seq<ArgError>)
    requires es == pre + (if isLate then [LateOption(name)] else []) + res
    requires |res| <= 1 && forall e | e in res :: e.UnknownOption? || e.AmbiguousOptionName?
    ensures |pre| <= |es| && es[..|pre|] == pre
    ensures var added := es[|pre|..];
      && |added| <= 2
      && (LateOption(name) in added <==> isLate)
      && (forall e | e in added :: e.LateOption? || e.UnknownOption? || e.AmbiguousOptionName?)
  {
    var late: seq<ArgError> := if isLate then [LateOption(name)] else [];
    assert es[|pre|..] == late + res;
  }

  /** Resolution reports at most one error, of the two resolution kinds. */
  lemma ResolutionErrors(cfg: Config, d: map<string, OptionDef>, name: string)
    ensures |Resolve(cfg, d, name).errors| <= 1
    ensures forall e | e in Resolve(cfg, d, name).errors :: e.UnknownOption? || e.AmbiguousOptionName?
  {
  }

  /** With the default flags no long option is ever late. */
  lemma DefaultAllowsLateOptions(st: ScanState, arg: string)
    ensures forall e | e in HandleLongOption(DefaultConfig, st, arg).errors[|st.errors|..] :: !e.LateOption?
  {
    var r := HandleLongOption(DefaultConfig, st, arg);
    var t := SplitToken(arg);
    var res := Resolve(DefaultConfig, st.dictionary, t.name);
    assert r.errors[|st.errors|..] == res.errors;
  }

  /** A long option that resolves, with `=` or to an option not requiring an
      argument, adds one occurrence under the option's primary name, recorded
      with the full registered name even when typed abbreviated; the pending
      option is untouched. */
  lemma ResolvedOptionIsRecorded(cfg: Config, st: ScanState, arg: string, k: string)
    requires Aligned(st) && Owns(st.dictionary, st.options)
    requires var t := SplitToken(arg); var res := Resolve(cfg, st.dictionary, t.name);
      res.name in st.dictionary && PushesAtOnce(st.dictionary, res.name, t.argument)
    ensures var t := SplitToken(arg); var res := Resolve(cfg, st.dictionary, t.name);
      var r := HandleLongOption(cfg, st, arg);
      && r.pending == st.pending
      && (t.name in st.dictionary ==> res.name == t.name)
      && OccurrencesAt(r, k) ==
           if k == st.dictionary[res.name].name then OccurrencesAt(st, k) + [Occurrence(res.name, t.argument)]
           else OccurrencesAt(st, k)
  {
    var t := SplitToken(arg);
    var res := Resolve(cfg, st.dictionary, t.name);
    var r := HandleLongOption(cfg, st, arg);
    var st2 := st.(errors := r.errors);
    assert Aligned(st2);
    assert OccurrencesAt(st2, k) == OccurrencesAt(st, k);
  }

  /** A long option with `=` whose name does not resolve is still recorded, as
      typed and under its own name, next to the resolution error. */
  lemma UnresolvedWithArgumentIsRecorded(cfg: Config, st: ScanState, arg: string)
    requires Aligned(st)
    requires var t := SplitToken(arg);
      t.argument.Some? && Resolve(cfg, st.dictionary, t.name).name !in st.dictionary
    ensures var t := SplitToken(arg); var r := HandleLongOption(cfg, st, arg);
      && t.name !in st.dictionary
      && |r.errors| == |st.errors| + |LateErrors(cfg, st, t.name)| + 1
      && OccurrencesAt(r, t.name) == OccurrencesAt(st, t.name) + [Occurrence(t.name, t.argument)]
      && r.pending == st.pending
      && (forall k | k != t.name :: OccurrencesAt(r, k) == OccurrencesAt(st, k))
  {
    var t := SplitToken(arg);
    var r := HandleLongOption(cfg, st, arg);
    ResolvedIffUnique(cfg, st.dictionary, t.name);
    var st2 := st.(errors := r.errors);
    assert OccurrencesAt(st2, t.name) == OccurrencesAt(st, t.name);
  }

  /** Without `=`, an option requiring an argument, or a name that does not
      resolve, is left pending, and nothing is recorded. */
  lemma PendingWithoutArgument(cfg: Config, st: ScanState, arg: string)
    requires '=' !in arg
    requires var res := Resolve(cfg, st.dictionary, arg);
      res.name !in st.dictionary || st.dictionary[res.name].policy.IsRequired()
    ensures var res := Resolve(cfg, st.dictionary, arg); var r := HandleLongOption(cfg, st, arg);
      && r.names == st.names && r.arguments == st.arguments
      && r.pending == Pending(res.name, Get(st.dictionary, res.name))
      && (res.name !in st.dictionary ==> r.pending.option == None && res.name == arg)
  {
    ResolvedIffUnique(cfg, st.dictionary, arg);
  }

  // ---------------------------------------------------------------------------
  // Dispatch
  // ---------------------------------------------------------------------------

  /** What the POSIX short-option handler does with one token: the occurrences
      it records, in order, the errors it reports, and the pending option it
      leaves. */
  datatype Effect = Effect(occurrences: seq<Occurrence>, errors: seq<ArgError>, pending: Pending)

  /** Carries out a POSIX handler's effect on the state. */
  function ApplyEffect(st: ScanState, e: Effect): (r: ScanState)
    ensures Aligned(st) ==> Aligned(r)
    ensures Aligned(st) ==> forall k ::
      OccurrencesAt(r, k) == OccurrencesAt(st, k) + FiledUnder(st.dictionary, e.occurrences, k)
    ensures r.errors == st.errors + e.errors && r.pending == e.pending
    ensures r.options == st.options && r.dictionary == st.dictionary && r.operands == st.operands
  {
    var st1 := st.(errors := st.errors + e.errors, pending := e.pending);
    var r := PushAll(st1, e.occurrences);
    forall k | Aligned(st)
      ensures OccurrencesAt(r, k) == OccurrencesAt(st, k) + FiledUnder(st.dictionary, e.occurrences, k)
    {
      PushAllFilesInOrder(st1, e.occurrences, k);
    }
    r
  }

  /** `GnuMachine.handleOption`: a token starting with `--` is a long option;
      any other option token goes unchanged to the POSIX handler `posix`. */
  function HandleOption(cfg: Config, posix: (ScanState, string) -> Effect, st: ScanState, arg: string): (r: ScanState)
    ensures !IsLongToken(arg) ==> r == ApplyEffect(st, posix(st, arg))
    ensures IsLongToken(arg) ==> r == HandleLongOption(cfg, st, arg)
    ensures Aligned(st) ==> Aligned(r)
    ensures |st.errors| <= |r.errors| && r.errors[..|st.errors|] == st.errors
    ensures r.options == st.options && r.dictionary == st.dictionary && r.operands == st.operands
  {
    if IsLongToken(arg) then
      LongOptionErrors(cfg, st, arg);
      HandleLongOption(cfg, st, arg)
    else
      ApplyEffect(st, posix(st, arg))
  }

  /** Handles a run of option tokens in order. The POSIX loop that decides
      which tokens are options, and hands pending options their arguments,
      is not part of this model. */
  function HandleOptions(cfg: Config, posix: (ScanState, string) -> Effect, st: ScanState, args: seq<string>): (r: ScanState)
    ensures Aligned(st) ==> Aligned(r)
    ensures |st.errors| <= |r.errors| && r.errors[..|st.errors|] == st.errors
    ensures r.options == st.options && r.dictionary == st.dictionary && r.operands == st.operands
    decreases |args|
  {
    if args == [] then st
    else HandleOptions(cfg, posix, HandleOption(cfg, posix, st, args[0]), args[1..])
  }

  /** Every option step files each typed name under its canonical key, so a
      state built by the machine keeps every name filed under its own key. */
  lemma HandleOptionKeepsFiled(cfg: Config, posix: (ScanState, string) -> Effect, st: ScanState, arg: string)
    ensures FiledCanonically(st) ==> FiledCanonically(HandleOption(cfg, posix, st, arg))
  {
    if IsLongToken(arg) {
      var t := SplitToken(arg);
      var res := Resolve(cfg, st.dictionary, t.name);
      var errors := st.errors + LateErrors(cfg, st, t.name) + res.errors;
      PushKeepsFiled(st.(errors := errors), res.name, t.argument);
    } else {
      var e := posix(st, arg);
      PushAllKeepsFiled(st.(errors := st.errors + e.errors, pending := e.pending), e.occurrences);
    }
  }

  lemma {:induction false} HandleOptionsKeepFiled(cfg: Config, posix: (ScanState, string) -> Effect, st: ScanState, args: seq<string>)
    ensures FiledCanonically(st) ==> FiledCanonically(HandleOptions(cfg, posix, st, args))
    decreases |args|
  {
    if args != [] {
      HandleOptionKeepsFiled(cfg, posix, st, args[0]);
      HandleOptionsKeepFiled(cfg, posix, HandleOption(cfg, posix, st, args[0]), args[1..]);
    }
  }
}

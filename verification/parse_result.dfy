/** The occurrence store shared by the syntax machines (`AbstractParseResult`):
    the name dictionary built from the declared options, the per-option
    parallel lists of typed names and arguments, and the finaliser `build`. */
module ParseResults {
  import opened Wrappers
  import opened Errors
  import opened Options

  /** One appearance of an option: the name as typed and its argument, if any. */
  datatype Occurrence = Occurrence(name: string, argument: Option<string>)

  /** An option left waiting for the next token to supply its argument
      (`openOptionName` / `openOption`); the option is absent when the typed
      name did not resolve. */
  datatype Pending = NothingPending | Pending(name: string, option: Option<OptionDef>)

  /** The state a syntax machine threads through one parse, and, after
      `Build`, the frozen `SyntaxResult`. Both occurrence maps are keyed by
      canonical name. */
  datatype ScanState = ScanState(
    options: seq<OptionDef>,
    dictionary: map<string, OptionDef>,
    names: map<string, seq<string>>,
    arguments: map<string, seq<Option<string>>>,
    operands: seq<string>,
    errors: seq<ArgError>,
    pending: Pending)

  // ---------------------------------------------------------------------------
  // The name dictionary
  // ---------------------------------------------------------------------------

  /** Every name of every option, in iteration order. */
  function AllNames(os: seq<OptionDef>): seq<string> {
    if os == [] then [] else os[0].names + AllNames(os[1..])
  }

  /** `d` maps exactly the names of `os`, each to the option declaring it. */
  ghost predicate Owns(d: map<string, OptionDef>, os: seq<OptionDef>) {
    && (forall n :: n in d <==> n in AllNames(os))
    && (forall i, n | 0 <= i < |os| && n in os[i].names :: n in d && d[n] == os[i])
  }

  lemma {:induction false} DistinctConcat(a: seq<string>, b: seq<string>)
    ensures Distinct(a + b) <==> Distinct(a) && Distinct(b) && forall n | n in a :: n !in b
  {
    var ab := a + b;
    if Distinct(ab) {
      forall i, j | 0 <= i < j < |a| ensures a[i] != a[j] { assert a[i] == ab[i] && a[j] == ab[j]; }
      forall i, j | 0 <= i < j < |b| ensures b[i] != b[j] { assert b[i] == ab[|a| + i] && b[j] == ab[|a| + j]; }
      forall n | n in a ensures n !in b {
        var i :| 0 <= i < |a| && a[i] == n;
        forall j | 0 <= j < |b| ensures b[j] != n {
          assert ab[i] == a[i] && ab[|a| + j] == b[j];
        }
      }
    }
    if Distinct(a) && Distinct(b) && forall n | n in a :: n !in b {
      forall i, j | 0 <= i < j < |ab| ensures ab[i] != ab[j] {
        if j < |a| {
          assert ab[i] == a[i] && ab[j] == a[j];
        } else if i >= |a| {
          assert ab[i] == b[i - |a|] && ab[j] == b[j - |a|];
        } else {
          assert ab[i] == a[i] && ab[j] == b[j - |a|];
          assert a[i] in a && b[j - |a|] in b;
        }
      }
    }
  }

  lemma {:induction false} InAllNames(os: seq<OptionDef>, n: string)
    ensures n in AllNames(os) <==> exists i | 0 <= i < |os| :: n in os[i].names
  {
    if os != [] {
      InAllNames(os[1..], n);
      if n in AllNames(os[1..]) {
        var i :| 0 <= i < |os[1..]| && n in os[1..][i].names;
        assert n in os[i + 1].names;
      }
      forall i | 1 <= i < |os| && n in os[i].names ensures n in AllNames(os[1..]) {
        assert os[1..][i - 1] == os[i];
      }
    }
  }

  /** Inserts the names of one option, failing on the first name already present. */
  function InsertNames(d: map<string, OptionDef>, o: OptionDef, ns: seq<string>): (r: Result<map<string, OptionDef>, SetupError>)
    ensures r.Ok? <==> Distinct(ns) && forall n | n in ns :: n !in d
    ensures r.Ok? ==> forall n :: n in r.value <==> n in d || n in ns
    ensures r.Ok? ==> forall n | n in ns :: r.value[n] == o
    ensures r.Ok? ==> forall n | n in d :: r.value[n] == d[n]
    ensures r.Err? ==> r.error.DuplicateName? && r.error.name in ns
    decreases |ns|
  {
    if ns == [] then Ok(d)
    else if ns[0] in d then Err(DuplicateName(ns[0]))
    else
      var r := InsertNames(d[ns[0] := o], o, ns[1..]);
      DistinctConcat([ns[0]], ns[1..]);
      assert [ns[0]] + ns[1..] == ns;
      r
  }

  function BuildDictionaryFrom(d: map<string, OptionDef>, os: seq<OptionDef>): Result<map<string, OptionDef>, SetupError>
    decreases |os|
  {
    if os == [] then Ok(d)
    else
      var d1 := InsertNames(d, os[0], os[0].names);
      if d1.Err? then d1 else BuildDictionaryFrom(d1.value, os[1..])
  }

  /** The dictionary is built exactly when no name is declared twice or already present. */
  lemma {:induction false} BuildDictionaryFromSucceeds(d: map<string, OptionDef>, os: seq<OptionDef>)
    ensures var r := BuildDictionaryFrom(d, os);
      && (r.Ok? <==> Distinct(AllNames(os)) && forall n | n in AllNames(os) :: n !in d)
      && (r.Err? ==> r.error.DuplicateName? && r.error.name in AllNames(os))
    decreases |os|
  {
    if os != [] {
      var ns := os[0].names;
      var rest := AllNames(os[1..]);
      assert AllNames(os) == ns + rest;
      DistinctConcat(ns, rest);
      var d1 := InsertNames(d, os[0], ns);
      if d1.Ok? {
        BuildDictionaryFromSucceeds(d1.value, os[1..]);
      }
    }
  }

  /** A built dictionary holds exactly the old names and the declared ones. */
  lemma {:induction false} BuildDictionaryFromKeys(d: map<string, OptionDef>, os: seq<OptionDef>)
    ensures var r := BuildDictionaryFrom(d, os);
      r.Ok? ==> forall n :: n in r.value <==> n in d || n in AllNames(os)
    decreases |os|
  {
    if os != [] {
      var ns := os[0].names;
      assert AllNames(os) == ns + AllNames(os[1..]);
      var d1 := InsertNames(d, os[0], ns);
      if d1.Ok? {
        BuildDictionaryFromKeys(d1.value, os[1..]);
      }
    }
  }

  /** Building never changes an entry already present. */
  lemma {:induction false} BuildDictionaryFromKeepsOld(d: map<string, OptionDef>, os: seq<OptionDef>, n: string)
    requires n in d
    ensures var r := BuildDictionaryFrom(d, os);
      r.Ok? ==> n in r.value && r.value[n] == d[n]
    decreases |os|
  {
    if os != [] {
      var d1 := InsertNames(d, os[0], os[0].names);
      if d1.Ok? {
        BuildDictionaryFromKeepsOld(d1.value, os[1..], n);
      }
    }
  }

  /** A built dictionary maps each declared name to the option declaring it. */
  lemma {:induction false} BuildDictionaryFromOwners(d: map<string, OptionDef>, os: seq<OptionDef>, i: nat, n: string)
    requires 0 <= i < |os| && n in os[i].names
    ensures var r := BuildDictionaryFrom(d, os);
      r.Ok? ==> n in r.value && r.value[n] == os[i]
    decreases |os|
  {
    var d1 := InsertNames(d, os[0], os[0].names);
    if d1.Ok? {
      if i == 0 {
        BuildDictionaryFromKeepsOld(d1.value, os[1..], n);
      } else {
        assert os[i] == os[1..][i - 1];
        BuildDictionaryFromOwners(d1.value, os[1..], i - 1, n);
      }
    }
  }

  lemma BuildDictionaryOwns(os: seq<OptionDef>)
    ensures var r := BuildDictionaryFrom(map[], os); r.Ok? ==> Owns(r.value, os)
  {
    var r := BuildDictionaryFrom(map[], os);
    if r.Ok? {
      BuildDictionaryFromKeys(map[], os);
      forall i, n | 0 <= i < |os| && n in os[i].names ensures n in r.value && r.value[n] == os[i] {
        BuildDictionaryFromOwners(map[], os, i, n);
      }
    }
  }

  /** The constructor's dictionary: every name of every option mapped to its
      owner, or `DuplicateName` for a name declared twice. */
  function BuildDictionary(os: seq<OptionDef>): (r: Result<map<string, OptionDef>, SetupError>)
    ensures r.Ok? <==> Distinct(AllNames(os))
    ensures r.Ok? ==> Owns(r.value, os)
    ensures r.Err? ==> r.error.DuplicateName? && r.error.name in AllNames(os)
  {
    BuildDictionaryFromSucceeds(map[], os);
    BuildDictionaryOwns(os);
    BuildDictionaryFrom(map[], os)
  }

  /** A name declared by two different options makes the dictionary fail. */
  lemma {:induction false} SharedNameIsRejected(os: seq<OptionDef>, i: nat, j: nat, n: string)
    requires 0 <= i < j < |os| && n in os[i].names && n in os[j].names
    ensures BuildDictionary(os).Err?
  {
    var all := AllNames(os);
    assert os == os[..j] + os[j..];
    AllNamesConcat(os[..j], os[j..]);
    InAllNames(os[..j], n);
    assert n in os[..j][i].names;
    InAllNames(os[j..], n);
    assert n in os[j..][0].names;
    DistinctConcat(AllNames(os[..j]), AllNames(os[j..]));
  }

  lemma {:induction false} AllNamesConcat(a: seq<OptionDef>, b: seq<OptionDef>)
    ensures AllNames(a + b) == AllNames(a) + AllNames(b)
  {
    if a != [] {
      assert (a + b)[0] == a[0];
      assert (a + b)[1..] == a[1..] + b;
      AllNamesConcat(a[1..], b);
      calc {
        AllNames(a + b);
        a[0].names + AllNames(a[1..] + b);
        a[0].names + (AllNames(a[1..]) + AllNames(b));
        (a[0].names + AllNames(a[1..])) + AllNames(b);
      }
    } else {
      assert a + b == b;
    }
  }

  /** Two dictionaries owning the same options are the same dictionary. */
  lemma OwnsIsUnique(d1: map<string, OptionDef>, d2: map<string, OptionDef>, os: seq<OptionDef>)
    requires Owns(d1, os) && Owns(d2, os)
    ensures d1 == d2
  {
    forall n | n in d1 ensures n in d2 && d1[n] == d2[n] {
      InAllNames(os, n);
    }
  }

  /** The state a machine starts from: the dictionary built, nothing recorded. */
  function NewScanState(os: seq<OptionDef>): (r: Result<ScanState, SetupError>)
    ensures r.Ok? <==> Distinct(AllNames(os))
    ensures r.Ok? ==> Owns(r.value.dictionary, os) && r.value.options == os
    ensures r.Ok? ==> r.value.names == map[] && r.value.arguments == map[]
    ensures r.Ok? ==> Aligned(r.value) && FiledCanonically(r.value)
    ensures r.Ok? ==> r.value.errors == [] && r.value.operands == [] && r.value.pending == NothingPending
  {
    var d := BuildDictionary(os);
    if d.Err? then Err(d.error)
    else Ok(ScanState(os, d.value, map[], map[], [], [], NothingPending))
  }

  // ---------------------------------------------------------------------------
  // Recording occurrences
  // ---------------------------------------------------------------------------

  /** The key an occurrence is filed under: the owning option's primary name,
      or the typed name itself when no option declares it. */
  function CanonicalName(d: map<string, OptionDef>, n: string): (r: string)
    ensures n in d ==> r == d[n].name
    ensures n !in d ==> r == n
  {
    if n in d then d[n].name else n
  }

  /** Under a consistent dictionary of well-formed options, a declared name
      is filed under its owner's primary name, an undeclared name under
      itself, and a key is filed under itself. */
  lemma CanonicalNameIsOwner(d: map<string, OptionDef>, os: seq<OptionDef>, n: string)
    requires Owns(d, os) && forall i | 0 <= i < |os| :: Valid(os[i])
    ensures forall i | 0 <= i < |os| && n in os[i].names :: CanonicalName(d, n) == os[i].name
    ensures n !in AllNames(os) ==> CanonicalName(d, n) == n
    ensures CanonicalName(d, CanonicalName(d, n)) == CanonicalName(d, n)
  {
    InAllNames(os, n);
    if n in d {
      var i :| 0 <= i < |os| && n in os[i].names;
      assert os[i].names[0] == os[i].name;
    }
  }

  /** Every typed name is filed under its own canonical key, as `push` files it. */
  ghost predicate FiledCanonically(st: ScanState) {
    forall k, n | k in st.names && n in st.names[k] :: CanonicalName(st.dictionary, n) == k
  }

  /** The two occurrence maps have the same keys and equally long lists. */
  ghost predicate Aligned(st: ScanState) {
    && st.names.Keys == st.arguments.Keys
    && forall k | k in st.names :: |st.names[k]| == |st.arguments[k]|
  }

  function NamesAt(st: ScanState, k: string): seq<string> {
    if k in st.names then st.names[k] else []
  }

  function ArgumentsAt(st: ScanState, k: string): seq<Option<string>> {
    if k in st.arguments then st.arguments[k] else []
  }

  /** Pairs the i-th typed name with the i-th argument. */
  function Zip(ns: seq<string>, args: seq<Option<string>>): (r: seq<Occurrence>)
    ensures |ns| == |args| ==> |r| == |ns|
  {
    if ns == [] || args == [] then [] else [Occurrence(ns[0], args[0])] + Zip(ns[1..], args[1..])
  }

  /** The i-th pair is made of the i-th name and the i-th argument. */
  lemma {:induction false} ZipPairs(ns: seq<string>, args: seq<Option<string>>)
    requires |ns| == |args|
    ensures forall i | 0 <= i < |ns| :: Zip(ns, args)[i] == Occurrence(ns[i], args[i])
  {
    if ns != [] {
      ZipPairs(ns[1..], args[1..]);
      var z := Zip(ns, args);
      forall i | 1 <= i < |ns| ensures z[i] == Occurrence(ns[i], args[i]) {
        assert z[i] == Zip(ns[1..], args[1..])[i - 1];
      }
    }
  }

  /** Appending one name and one argument appends their pair. */
  lemma {:induction false} ZipSnoc(ns: seq<string>, args: seq<Option<string>>, n: string, a: Option<string>)
    ensures |ns| == |args| ==> Zip(ns + [n], args + [a]) == Zip(ns, args) + [Occurrence(n, a)]
  {
    if |ns| != |args| {
    } else if ns == [] {
      assert ns + [n] == [n] && args + [a] == [a];
    } else {
      assert (ns + [n])[1..] == ns[1..] + [n] && (args + [a])[1..] == args[1..] + [a];
      ZipSnoc(ns[1..], args[1..], n, a);
    }
  }

  /** The occurrences filed under key `k`, each typed name with its argument. */
  function OccurrencesAt(st: ScanState, k: string): seq<Occurrence> {
    Zip(NamesAt(st, k), ArgumentsAt(st, k))
  }

  /** `push`: appends the typed name and the argument under the same canonical key. */
  function Push(st: ScanState, name: string, argument: Option<string>): (r: ScanState)
    ensures Aligned(st) ==> Aligned(r)
    ensures Aligned(st) ==> forall k ::
      OccurrencesAt(r, k) ==
        if k == CanonicalName(st.dictionary, name) then OccurrencesAt(st, k) + [Occurrence(name, argument)]
        else OccurrencesAt(st, k)
    ensures r.options == st.options && r.dictionary == st.dictionary
    ensures r.operands == st.operands && r.errors == st.errors && r.pending == st.pending
  {
    var c := CanonicalName(st.dictionary, name);
    ZipSnoc(NamesAt(st, c), ArgumentsAt(st, c), name, argument);
    var r := st.(names := st.names[c := NamesAt(st, c) + [name]],
                 arguments := st.arguments[c := ArgumentsAt(st, c) + [argument]]);
    r
  }

  /** Pushes a list of occurrences in order. */
  function PushAll(st: ScanState, occs: seq<Occurrence>): (r: ScanState)
    ensures Aligned(st) ==> Aligned(r)
    ensures r.options == st.options && r.dictionary == st.dictionary
    ensures r.operands == st.operands && r.errors == st.errors && r.pending == st.pending
    decreases |occs|
  {
    if occs == [] then st else PushAll(Push(st, occs[0].name, occs[0].argument), occs[1..])
  }

  /** A push files the typed name under its canonical key, so every name
      stays filed under its own key. */
  lemma PushKeepsFiled(st: ScanState, name: string, argument: Option<string>)
    ensures FiledCanonically(st) ==> FiledCanonically(Push(st, name, argument))
  {
  }

  lemma {:induction false} PushAllKeepsFiled(st: ScanState, occs: seq<Occurrence>)
    ensures FiledCanonically(st) ==> FiledCanonically(PushAll(st, occs))
    decreases |occs|
  {
    if occs != [] {
      PushKeepsFiled(st, occs[0].name, occs[0].argument);
      PushAllKeepsFiled(Push(st, occs[0].name, occs[0].argument), occs[1..]);
    }
  }

  /** The occurrences of `occs` whose canonical key is `k`, in order. */
  function FiledUnder(d: map<string, OptionDef>, occs: seq<Occurrence>, k: string): seq<Occurrence> {
    if occs == [] then []
    else (if CanonicalName(d, occs[0].name) == k then [occs[0]] else []) + FiledUnder(d, occs[1..], k)
  }

  /** After any sequence of pushes, the i-th typed name and the i-th argument
      under a key belong to the same occurrence: each key's list is exactly the
      pushed occurrences filed under it, in push order. */
  lemma {:induction false} PushAllFilesInOrder(st: ScanState, occs: seq<Occurrence>, k: string)
    requires Aligned(st)
    ensures OccurrencesAt(PushAll(st, occs), k) == OccurrencesAt(st, k) + FiledUnder(st.dictionary, occs, k)
    decreases |occs|
  {
    if occs != [] {
      var st1 := Push(st, occs[0].name, occs[0].argument);
      PushAllFilesInOrder(st1, occs[1..], k);
    }
  }

  // ---------------------------------------------------------------------------
  // Lookup
  // ---------------------------------------------------------------------------

  /** `getNames`: the typed names filed under the name's canonical key, or `null`. */
  function GetNames(st: ScanState, n: string): (r: Option<seq<string>>)
    ensures r.None? <==> CanonicalName(st.dictionary, n) !in st.names
    ensures r.Some? ==> r.value == NamesAt(st, CanonicalName(st.dictionary, n))
  {
    Get(st.names, CanonicalName(st.dictionary, n))
  }

  /** `getArguments`: the arguments filed under the name's canonical key, or `null`. */
  function GetArguments(st: ScanState, n: string): (r: Option<seq<Option<string>>>)
    ensures r.None? <==> CanonicalName(st.dictionary, n) !in st.arguments
    ensures r.Some? ==> r.value == ArgumentsAt(st, CanonicalName(st.dictionary, n))
  {
    Get(st.arguments, CanonicalName(st.dictionary, n))
  }

  /** Looking up an option by any of its names gives what looking it up by its
      primary name gives; a name no option declares is its own key. */
  lemma AliasLookup(st: ScanState, i: nat, alias: string)
    requires Owns(st.dictionary, st.options)
    requires 0 <= i < |st.options| && Valid(st.options[i]) && alias in st.options[i].names
    ensures GetNames(st, alias) == GetNames(st, st.options[i].name)
    ensures GetArguments(st, alias) == GetArguments(st, st.options[i].name)
    ensures forall n | n !in st.dictionary :: GetNames(st, n) == Get(st.names, n)
  {
    assert st.options[i].name == st.options[i].names[0];
  }

  /** Under an aligned state every key has as many arguments as typed names,
      and its occurrences pair them up one by one. */
  lemma AlignedAt(st: ScanState, k: string)
    ensures Aligned(st) ==> |NamesAt(st, k)| == |ArgumentsAt(st, k)| == |OccurrencesAt(st, k)|
    ensures Aligned(st) ==> forall i | 0 <= i < |OccurrencesAt(st, k)| ::
      OccurrencesAt(st, k)[i] == Occurrence(NamesAt(st, k)[i], ArgumentsAt(st, k)[i])
  {
    if Aligned(st) {
      ZipPairs(NamesAt(st, k), ArgumentsAt(st, k));
    }
  }

  // ---------------------------------------------------------------------------
  // Finalising
  // ---------------------------------------------------------------------------

  /** The error, if any, for one occurrence of an option with policy `p`. */
  function OccurrenceErrors(p: Policy, name: string, argument: Option<string>): seq<ArgError> {
    (if !p.IsAccepted() && argument.Some? then [UnexpectedArgument(name)] else [])
    + (if p.IsRequired() && argument.None? then [ArgumentRequired(name)] else [])
  }

  /** An occurrence agrees with the policy: an argument only when one is
      accepted, and one whenever it is required. */
  predicate Conforms(p: Policy, argument: Option<string>) {
    && (argument.Some? ==> p.IsAccepted())
    && (p.IsRequired() ==> argument.Some?)
  }

  /** The argument errors of all occurrences of one option, in order. */
  function ArgumentErrors(p: Policy, ns: seq<string>, args: seq<Option<string>>): (r: seq<ArgError>)
    ensures |ns| == |args| ==> (r == [] <==> forall i | 0 <= i < |ns| :: Conforms(p, args[i]))
    decreases |ns|
  {
    if ns == [] || args == [] then []
    else
      var rest := ArgumentErrors(p, ns[1..], args[1..]);
      assert forall i | 1 <= i < |ns| && i < |args| :: args[i] == args[1..][i - 1];
      OccurrenceErrors(p, ns[0], args[0]) + rest
  }

  /** Each occurrence that disagrees with the policy contributes its own error,
      naming the name as typed, and nothing else is reported. */
  lemma {:induction false} ArgumentErrorsMembers(p: Policy, ns: seq<string>, args: seq<Option<string>>, e: ArgError)
    requires |ns| == |args|
    ensures e in ArgumentErrors(p, ns, args) <==> exists i | 0 <= i < |ns| ::
      || (e == UnexpectedArgument(ns[i]) && !p.IsAccepted() && args[i].Some?)
      || (e == ArgumentRequired(ns[i]) && p.IsRequired() && args[i].None?)
    decreases |ns|
  {
    if ns != [] {
      ArgumentErrorsMembers(p, ns[1..], args[1..], e);
      assert forall i | 1 <= i < |ns| :: ns[i] == ns[1..][i - 1] && args[i] == args[1..][i - 1];
      if e in ArgumentErrors(p, ns[1..], args[1..]) {
        var i :| 0 <= i < |ns| - 1 &&
          (|| (e == UnexpectedArgument(ns[1..][i]) && !p.IsAccepted() && args[1..][i].Some?)
           || (e == ArgumentRequired(ns[1..][i]) && p.IsRequired() && args[1..][i].None?));
        assert ns[1..][i] == ns[i + 1] && args[1..][i] == args[i + 1];
      }
    }
  }

  /** Only argument errors come from the occurrences. */
  lemma {:induction false} ArgumentErrorsKinds(p: Policy, ns: seq<string>, args: seq<Option<string>>, e: ArgError)
    requires e in ArgumentErrors(p, ns, args)
    ensures e.UnexpectedArgument? || e.ArgumentRequired?
    decreases |ns|
  {
    if e !in OccurrenceErrors(p, ns[0], args[0]) {
      ArgumentErrorsKinds(p, ns[1..], args[1..], e);
    }
  }

  /** The errors `build` adds for one declared option with the given occurrences. */
  function OptionErrors(o: OptionDef, ns: seq<string>, args: seq<Option<string>>): seq<ArgError> {
    (if o.required && |ns| == 0 then [MissingOption(o.name)] else [])
    + (if !o.repeatable && |ns| > 1 then [TooManyOccurrence(ns[1], ns)] else [])
    + ArgumentErrors(o.policy, ns, args)
  }

  /** The number of times `e` appears in `es`. */
  function Count(es: seq<ArgError>, e: ArgError): nat {
    if es == [] then 0 else (if es[0] == e then 1 else 0) + Count(es[1..], e)
  }

  lemma {:induction false} CountConcat(a: seq<ArgError>, b: seq<ArgError>, e: ArgError)
    ensures Count(a + b, e) == Count(a, e) + Count(b, e)
  {
    if a != [] {
      assert (a + b)[0] == a[0];
      assert (a + b)[1..] == a[1..] + b;
      CountConcat(a[1..], b, e);
      assert Count(a + b, e) == (if a[0] == e then 1 else 0) + Count(a[1..] + b, e);
    } else {
      assert a + b == b;
    }
  }

  lemma {:induction false} CountAbsent(es: seq<ArgError>, e: ArgError)
    requires e !in es
    ensures Count(es, e) == 0
  {
    if es != [] {
      CountAbsent(es[1..], e);
    }
  }

  /** A required option with no occurrence gets exactly one `MissingOption`,
      naming its primary name; no other option's errors name it. */
  lemma MissingInOptionErrors(o: OptionDef, ns: seq<string>, args: seq<Option<string>>, x: string)
    ensures Count(OptionErrors(o, ns, args), MissingOption(x)) ==
      if x == o.name && o.required && ns == [] then 1 else 0
  {
    var m: seq<ArgError> := if o.required && |ns| == 0 then [MissingOption(o.name)] else [];
    var t: seq<ArgError> := if !o.repeatable && |ns| > 1 then [TooManyOccurrence(ns[1], ns)] else [];
    var a := ArgumentErrors(o.policy, ns, args);
    CountConcat(m + t, a, MissingOption(x));
    CountConcat(m, t, MissingOption(x));
    if MissingOption(x) in a {
      ArgumentErrorsKinds(o.policy, ns, args, MissingOption(x));
    }
    CountAbsent(a, MissingOption(x));
  }

  /** A non-repeatable option with more than one occurrence gets exactly one
      `TooManyOccurrence`, naming the second typed name; any other option gets none. */
  lemma TooManyInOptionErrors(o: OptionDef, ns: seq<string>, args: seq<Option<string>>)
    ensures !o.repeatable && |ns| > 1 ==> Count(OptionErrors(o, ns, args), TooManyOccurrence(ns[1], ns)) == 1
    ensures forall e | e in OptionErrors(o, ns, args) && e.TooManyOccurrence? ::
      !o.repeatable && |ns| > 1 && e == TooManyOccurrence(ns[1], ns)
  {
    var m: seq<ArgError> := if o.required && |ns| == 0 then [MissingOption(o.name)] else [];
    var t: seq<ArgError> := if !o.repeatable && |ns| > 1 then [TooManyOccurrence(ns[1], ns)] else [];
    var a := ArgumentErrors(o.policy, ns, args);
    forall e | e in a ensures !e.TooManyOccurrence? {
      ArgumentErrorsKinds(o.policy, ns, args, e);
    }
    if !o.repeatable && |ns| > 1 {
      CountConcat(m + t, a, TooManyOccurrence(ns[1], ns));
      CountConcat(m, t, TooManyOccurrence(ns[1], ns));
      CountAbsent(a, TooManyOccurrence(ns[1], ns));
    }
  }

  /** `build` for one declared option: an option that never occurred gets
      empty lists, then its structural errors are appended. */
  function FinaliseOption(st: ScanState, o: OptionDef): (r: ScanState)
    ensures o.name in r.names
    ensures r.errors == st.errors + OptionErrors(o, NamesAt(st, o.name), ArgumentsAt(st, o.name))
    ensures r.options == st.options && r.dictionary == st.dictionary
    ensures r.operands == st.operands && r.pending == st.pending
  {
    var ns := NamesAt(st, o.name);
    var args := ArgumentsAt(st, o.name);
    st.(names := st.names[o.name := ns],
        arguments := st.arguments[o.name := args],
        errors := st.errors + OptionErrors(o, ns, args))
  }

  /** Finalising one option keeps the two lists aligned. */
  lemma FinaliseKeepsAligned(st: ScanState, o: OptionDef)
    ensures Aligned(st) ==> Aligned(FinaliseOption(st, o))
  {
  }

  /** Finalising any options keeps the two lists aligned. */
  lemma {:induction false} BuildAllKeepsAligned(st: ScanState, os: seq<OptionDef>)
    ensures Aligned(st) ==> Aligned(BuildAll(st, os))
    decreases |os|
  {
    if os != [] {
      FinaliseKeepsAligned(st, os[0]);
      BuildAllKeepsAligned(FinaliseOption(st, os[0]), os[1..]);
    }
  }

  /** Finalising one option leaves the occurrences under every key as they were. */
  lemma FinaliseKeepsOccurrences(st: ScanState, o: OptionDef, k: string)
    ensures NamesAt(FinaliseOption(st, o), k) == NamesAt(st, k)
    ensures ArgumentsAt(FinaliseOption(st, o), k) == ArgumentsAt(st, k)
  {
  }

  /** The errors `build` adds for `os`, each computed from the recorded occurrences. */
  function NewErrors(st: ScanState, os: seq<OptionDef>): seq<ArgError> {
    if os == [] then []
    else OptionErrors(os[0], NamesAt(st, os[0].name), ArgumentsAt(st, os[0].name)) + NewErrors(st, os[1..])
  }

  function BuildAll(st: ScanState, os: seq<OptionDef>): (r: ScanState)
    ensures r.options == st.options && r.dictionary == st.dictionary
    ensures r.operands == st.operands && r.pending == st.pending
    decreases |os|
  {
    if os == [] then st else BuildAll(FinaliseOption(st, os[0]), os[1..])
  }

  /** Finalising appends, after the scanning errors, each option's errors in
      declaration order, computed from the occurrences recorded while scanning. */
  lemma {:induction false} BuildAllErrors(st: ScanState, os: seq<OptionDef>)
    ensures BuildAll(st, os).errors == st.errors + NewErrors(st, os)
    decreases |os|
  {
    if os != [] {
      var st1 := FinaliseOption(st, os[0]);
      var head := OptionErrors(os[0], NamesAt(st, os[0].name), ArgumentsAt(st, os[0].name));
      var tail := NewErrors(st, os[1..]);
      assert BuildAll(st, os).errors == BuildAll(st1, os[1..]).errors;
      assert BuildAll(st1, os[1..]).errors == st1.errors + tail by {
        FinaliseKeepsNewErrors(st, os[0], os[1..]);
        BuildAllErrors(st1, os[1..]);
      }
      assert st1.errors == st.errors + head;
      assert NewErrors(st, os) == head + tail;
      assert (st.errors + head) + tail == st.errors + (head + tail);
    }
  }

  /** Finalising never changes the occurrences recorded under any key. */
  lemma {:induction false} BuildAllKeepsOccurrences(st: ScanState, os: seq<OptionDef>, k: string)
    ensures NamesAt(BuildAll(st, os), k) == NamesAt(st, k)
    ensures ArgumentsAt(BuildAll(st, os), k) == ArgumentsAt(st, k)
    decreases |os|
  {
    if os != [] {
      FinaliseKeepsOccurrences(st, os[0], k);
      BuildAllKeepsOccurrences(FinaliseOption(st, os[0]), os[1..], k);
    }
  }

  /** Finalising leaves an entry for every declared option, and keeps every key. */
  lemma {:induction false} BuildAllHasEntries(st: ScanState, os: seq<OptionDef>, k: string)
    requires k in st.names || exists i | 0 <= i < |os| :: os[i].name == k
    ensures k in BuildAll(st, os).names
    decreases |os|
  {
    if os != [] {
      var st1 := FinaliseOption(st, os[0]);
      if k !in st1.names {
        var i :| 0 <= i < |os| && os[i].name == k;
        assert os[1..][i - 1] == os[i];
      }
      BuildAllHasEntries(st1, os[1..], k);
    }
  }

  lemma FinaliseKeepsNewErrors(st: ScanState, o: OptionDef, os: seq<OptionDef>)
    ensures NewErrors(FinaliseOption(st, o), os) == NewErrors(st, os)
  {
    forall k ensures NamesAt(FinaliseOption(st, o), k) == NamesAt(st, k) && ArgumentsAt(FinaliseOption(st, o), k) == ArgumentsAt(st, k) {
      FinaliseKeepsOccurrences(st, o, k);
    }
    NewErrorsDependOnOccurrences(FinaliseOption(st, o), st, os);
  }

  lemma {:induction false} NewErrorsDependOnOccurrences(a: ScanState, b: ScanState, os: seq<OptionDef>)
    requires forall k :: NamesAt(a, k) == NamesAt(b, k) && ArgumentsAt(a, k) == ArgumentsAt(b, k)
    ensures NewErrors(a, os) == NewErrors(b, os)
  {
    if os != [] {
      NewErrorsDependOnOccurrences(a, b, os[1..]);
    }
  }

  /** `build`: every declared option gets an entry (empty lists when it never
      occurred), the recorded occurrences are kept as they are, and the
      structural errors are appended after the scanning errors. */
  function Build(st: ScanState): (r: ScanState)
    ensures Aligned(st) ==> Aligned(r)
    ensures forall i | 0 <= i < |st.options| :: st.options[i].name in r.names
    ensures forall k :: NamesAt(r, k) == NamesAt(st, k) && ArgumentsAt(r, k) == ArgumentsAt(st, k)
    ensures forall k | k in st.names :: k in r.names
    ensures r.errors == st.errors + NewErrors(st, st.options)
    ensures |st.errors| <= |r.errors| && r.errors[..|st.errors|] == st.errors
    ensures r.operands == st.operands && r.options == st.options && r.dictionary == st.dictionary
  {
    var r := BuildAll(st, st.options);
    BuildAllErrors(st, st.options);
    BuildAllKeepsAligned(st, st.options);
    forall k ensures NamesAt(r, k) == NamesAt(st, k) && ArgumentsAt(r, k) == ArgumentsAt(st, k) {
      BuildAllKeepsOccurrences(st, st.options, k);
    }
    forall k | k in st.names || exists i | 0 <= i < |st.options| :: st.options[i].name == k
      ensures k in r.names
    {
      BuildAllHasEntries(st, st.options, k);
    }
    r
  }

  /** After `build`, an option that never occurred has empty lists, and one that
      did keeps exactly its occurrences. */
  lemma BuildGivesEmptyListsToAbsentOptions(st: ScanState, i: nat)
    requires Aligned(st) && 0 <= i < |st.options|
    ensures var r := Build(st); var k := st.options[i].name;
      && k in r.names && k in r.arguments
      && (k !in st.names ==> r.names[k] == [] && r.arguments[k] == [])
      && (k in st.names ==> r.names[k] == st.names[k] && r.arguments[k] == st.arguments[k])
  {
    var r := Build(st);
    var k := st.options[i].name;
    assert NamesAt(r, k) == NamesAt(st, k) && ArgumentsAt(r, k) == ArgumentsAt(st, k);
  }

  /** The primary names of `os`, in order. */
  function Primaries(os: seq<OptionDef>): (r: seq<string>)
    ensures |r| == |os| && forall i | 0 <= i < |os| :: r[i] == os[i].name
  {
    if os == [] then [] else [os[0].name] + Primaries(os[1..])
  }

  lemma {:induction false} MissingCountInNewErrors(st: ScanState, os: seq<OptionDef>, x: string)
    requires Distinct(Primaries(os))
    ensures x !in Primaries(os) ==> Count(NewErrors(st, os), MissingOption(x)) == 0
    ensures forall i | 0 <= i < |os| && os[i].name == x ::
      Count(NewErrors(st, os), MissingOption(x)) == if os[i].required && NamesAt(st, x) == [] then 1 else 0
    decreases |os|
  {
    if os != [] {
      var head := OptionErrors(os[0], NamesAt(st, os[0].name), ArgumentsAt(st, os[0].name));
      var ps := Primaries(os);
      assert Count(NewErrors(st, os), MissingOption(x)) ==
        (if x == os[0].name && os[0].required && NamesAt(st, x) == [] then 1 else 0)
        + Count(NewErrors(st, os[1..]), MissingOption(x)) by {
        CountConcat(head, NewErrors(st, os[1..]), MissingOption(x));
        MissingInOptionErrors(os[0], NamesAt(st, os[0].name), ArgumentsAt(st, os[0].name), x);
      }
      assert ps[1..] == Primaries(os[1..]);
      assert Distinct(ps[1..]) by {
        forall i, j | 0 <= i < j < |ps| - 1 ensures ps[1..][i] != ps[1..][j] {
          assert ps[1..][i] == ps[i + 1] && ps[1..][j] == ps[j + 1];
        }
      }
      MissingCountInNewErrors(st, os[1..], x);
      if os[0].name == x {
        assert x !in Primaries(os[1..]) by {
          forall j | 0 <= j < |os| - 1 ensures ps[1..][j] != x {
            assert ps[1..][j] == ps[j + 1];
          }
        }
      }
      forall i | 1 <= i < |os| && os[i].name == x
        ensures os[0].name != x
      {
        assert ps[0] != ps[i];
      }
      assert forall i | 1 <= i < |os| :: os[i] == os[1..][i - 1];
    }
  }

  /** With distinct primary names, `build` adds exactly one `MissingOption`
      for each required option that never occurred, and none for the others. */
  lemma MissingOptionReportedOnce(st: ScanState, i: nat)
    requires Distinct(Primaries(st.options)) && 0 <= i < |st.options|
    ensures var r := Build(st); var o := st.options[i];
      Count(r.errors[|st.errors|..], MissingOption(o.name)) ==
        if o.required && NamesAt(st, o.name) == [] then 1 else 0
  {
    var r := Build(st);
    BuildAllErrors(st, st.options);
    assert r.errors[|st.errors|..] == NewErrors(st, st.options);
    MissingCountInNewErrors(st, st.options, st.options[i].name);
  }

  /** Each non-repeatable option with several occurrences gets a
      `TooManyOccurrence` naming its second typed name, and the occurrence
      lists are not truncated. */
  lemma TooManyOccurrenceReported(st: ScanState, i: nat)
    requires 0 <= i < |st.options|
    requires !st.options[i].repeatable && |NamesAt(st, st.options[i].name)| > 1
    ensures var r := Build(st); var ns := NamesAt(st, st.options[i].name);
      && TooManyOccurrence(ns[1], ns) in r.errors[|st.errors|..]
      && NamesAt(r, st.options[i].name) == ns
  {
    var o := st.options[i];
    NewErrorsContain(st, st.options, i);
    TooManyInOptionErrors(o, NamesAt(st, o.name), ArgumentsAt(st, o.name));
    var r := Build(st);
    BuildAllErrors(st, st.options);
    assert r.errors[|st.errors|..] == NewErrors(st, st.options);
  }

  /** One option's errors hold the `TooManyOccurrence` naming the list `ns`
      exactly once when they are that option's errors for `ns` and it is not
      repeatable, and not at all otherwise. */
  lemma TooManyCountInOptionErrors(o: OptionDef, nso: seq<string>, args: seq<Option<string>>, ns: seq<string>)
    requires |ns| > 1
    ensures Count(OptionErrors(o, nso, args), TooManyOccurrence(ns[1], ns)) ==
      if nso == ns && !o.repeatable then 1 else 0
  {
    TooManyInOptionErrors(o, nso, args);
    if !(nso == ns && !o.repeatable) {
      CountAbsent(OptionErrors(o, nso, args), TooManyOccurrence(ns[1], ns));
    }
  }

  /** With names filed canonically, two options with distinct primary names
      never share a non-empty list of typed names. */
  lemma ListDeterminesOption(st: ScanState, a: OptionDef, b: OptionDef)
    requires FiledCanonically(st)
    ensures NamesAt(st, a.name) != [] && NamesAt(st, a.name) == NamesAt(st, b.name) ==> a.name == b.name
  {
    if NamesAt(st, a.name) != [] && NamesAt(st, a.name) == NamesAt(st, b.name) {
      var n := NamesAt(st, a.name)[0];
      assert CanonicalName(st.dictionary, n) == a.name;
      assert CanonicalName(st.dictionary, n) == b.name;
    }
  }

  lemma {:induction false} TooManyCountInNewErrors(st: ScanState, os: seq<OptionDef>, ns: seq<string>)
    requires Distinct(Primaries(os)) && FiledCanonically(st) && |ns| > 1
    ensures (forall i | 0 <= i < |os| :: NamesAt(st, os[i].name) != ns) ==>
      Count(NewErrors(st, os), TooManyOccurrence(ns[1], ns)) == 0
    ensures forall i | 0 <= i < |os| && NamesAt(st, os[i].name) == ns ::
      Count(NewErrors(st, os), TooManyOccurrence(ns[1], ns)) == if os[i].repeatable then 0 else 1
    decreases |os|
  {
    if os != [] {
      var e := TooManyOccurrence(ns[1], ns);
      var head := OptionErrors(os[0], NamesAt(st, os[0].name), ArgumentsAt(st, os[0].name));
      var ps := Primaries(os);
      assert Count(NewErrors(st, os), e) ==
        (if NamesAt(st, os[0].name) == ns && !os[0].repeatable then 1 else 0)
        + Count(NewErrors(st, os[1..]), e) by {
        CountConcat(head, NewErrors(st, os[1..]), e);
        TooManyCountInOptionErrors(os[0], NamesAt(st, os[0].name), ArgumentsAt(st, os[0].name), ns);
      }
      assert ps[1..] == Primaries(os[1..]);
      assert Distinct(ps[1..]) by {
        forall i, j | 0 <= i < j < |ps| - 1 ensures ps[1..][i] != ps[1..][j] {
          assert ps[1..][i] == ps[i + 1] && ps[1..][j] == ps[j + 1];
        }
      }
      TooManyCountInNewErrors(st, os[1..], ns);
      if NamesAt(st, os[0].name) == ns {
        forall j | 0 <= j < |os| - 1 ensures NamesAt(st, os[1..][j].name) != ns {
          assert os[1..][j] == os[j + 1];
          assert ps[0] != ps[j + 1];
          ListDeterminesOption(st, os[0], os[j + 1]);
        }
      }
      assert forall i | 1 <= i < |os| :: os[i] == os[1..][i - 1];
    }
  }

  /** Every `TooManyOccurrence` that `build` adds names the typed names of a
      non-repeatable option that occurred more than once, its second name first. */
  lemma {:induction false} TooManyInNewErrorsComesFrom(st: ScanState, os: seq<OptionDef>, e: ArgError)
    requires e in NewErrors(st, os) && e.TooManyOccurrence?
    ensures exists i | 0 <= i < |os| :: var nsi := NamesAt(st, os[i].name);
      !os[i].repeatable && |nsi| > 1 && e == TooManyOccurrence(nsi[1], nsi)
    decreases |os|
  {
    var head := OptionErrors(os[0], NamesAt(st, os[0].name), ArgumentsAt(st, os[0].name));
    if e in head {
      TooManyInOptionErrors(os[0], NamesAt(st, os[0].name), ArgumentsAt(st, os[0].name));
    } else {
      TooManyInNewErrorsComesFrom(st, os[1..], e);
      var j :| 0 <= j < |os| - 1 && var nsj := NamesAt(st, os[1..][j].name);
        !os[1..][j].repeatable && |nsj| > 1 && e == TooManyOccurrence(nsj[1], nsj);
      assert os[1..][j] == os[j + 1];
    }
  }

  /** With distinct primary names and names filed canonically, `build` adds
      exactly one `TooManyOccurrence` for each non-repeatable option that
      occurred more than once, and none naming the typed names of any other
      option. */
  lemma TooManyOccurrenceReportedOnce(st: ScanState, i: nat)
    requires 0 <= i < |st.options|
    requires Distinct(Primaries(st.options)) && FiledCanonically(st)
    ensures var r := Build(st); var o := st.options[i]; var ns := NamesAt(st, o.name);
      && (!o.repeatable && |ns| > 1 ==> Count(r.errors[|st.errors|..], TooManyOccurrence(ns[1], ns)) == 1)
      && (forall e | e in r.errors[|st.errors|..] && e.TooManyOccurrence? && e.names == ns ::
            !o.repeatable && |ns| > 1)
  {
    var r := Build(st);
    var o := st.options[i];
    var ns := NamesAt(st, o.name);
    BuildAllErrors(st, st.options);
    assert r.errors[|st.errors|..] == NewErrors(st, st.options);
    if |ns| > 1 {
      TooManyCountInNewErrors(st, st.options, ns);
    }
    forall e | e in r.errors[|st.errors|..] && e.TooManyOccurrence? && e.names == ns
      ensures !o.repeatable && |ns| > 1
    {
      TooManyInNewErrorsComesFrom(st, st.options, e);
      var j :| 0 <= j < |st.options| && var nsj := NamesAt(st, st.options[j].name);
        !st.options[j].repeatable && |nsj| > 1 && e == TooManyOccurrence(nsj[1], nsj);
      ListDeterminesOption(st, st.options[j], o);
      var ps := Primaries(st.options);
      assert ps[i] == ps[j];
    }
  }

  lemma {:induction false} NewErrorsContain(st: ScanState, os: seq<OptionDef>, i: nat)
    requires 0 <= i < |os|
    ensures forall e | e in OptionErrors(os[i], NamesAt(st, os[i].name), ArgumentsAt(st, os[i].name)) ::
      e in NewErrors(st, os)
    decreases |os|
  {
    if i > 0 {
      NewErrorsContain(st, os[1..], i - 1);
    }
  }
}

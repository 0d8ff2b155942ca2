/** Declared options: the data behind `Option` and its implementation
    `AbstractOption`, whose constructor builds an ordered, duplicate-free
    name set starting with the primary name. */
module Options {
  import opened Wrappers
  import opened Errors

  /** `ArgumentPolicy`: whether an option takes an option-argument. */
  datatype Policy = NoArgument | OptionalArgument | RequiredArgument {
    /** an argument may be supplied */
    predicate IsAccepted() { !NoArgument? }
    /** an argument must be supplied */
    predicate IsRequired() { RequiredArgument? }
  }

  /** A declared option. `names` stands for the `LinkedHashSet` of names. */
  datatype OptionDef = OptionDef(
    name: string,
    names: seq<string>,
    required: bool,
    repeatable: bool,
    policy: Policy)

  predicate Distinct<T(==)>(s: seq<T>) {
    forall i, j | 0 <= i < j < |s| :: s[i] != s[j]
  }

  /** What the `Option` interface promises: the primary name is the first of a
      non-empty set of names. */
  predicate Valid(o: OptionDef) {
    && |o.names| > 0
    && o.names[0] == o.name
    && Distinct(o.names)
  }

  /** `LinkedHashSet.addAll`: appends, in order, each element not yet present. */
  function AddAll(acc: seq<string>, xs: seq<string>): (r: seq<string>)
    ensures |acc| <= |r| && r[..|acc|] == acc
    ensures Distinct(acc) ==> Distinct(r)
    ensures forall x :: x in r <==> x in acc || x in xs
    decreases |xs|
  {
    if xs == [] then acc
    else if xs[0] in acc then AddAll(acc, xs[1..])
    else AddAll(acc + [xs[0]], xs[1..])
  }

  /** `xs` with every element of `drop` removed, order kept. */
  function Without(xs: seq<string>, drop: set<string>): (r: seq<string>)
    ensures |r| <= |xs|
    ensures forall x :: x in r <==> x in xs && x !in drop
  {
    if xs == [] then []
    else if xs[0] in drop then Without(xs[1..], drop)
    else [xs[0]] + Without(xs[1..], drop)
  }

  /** Reference definition of an insertion-ordered set built from `xs`: the
      first element, followed by the rest with every copy of it removed. */
  function KeepFirst(xs: seq<string>): seq<string>
    decreases |xs|
  {
    if xs == [] then [] else [xs[0]] + KeepFirst(Without(xs[1..], {xs[0]}))
  }

  lemma {:induction false} WithoutTwice(xs: seq<string>, a: set<string>, b: set<string>)
    ensures Without(Without(xs, a), b) == Without(xs, a + b)
  {
    if xs != [] {
      WithoutTwice(xs[1..], a, b);
    }
  }

  /** Adding `xs` to an ordered set `acc` appends exactly the first occurrences
      of the elements of `xs` that `acc` does not already hold. */
  lemma {:induction false} AddAllKeepsFirstOccurrences(acc: seq<string>, xs: seq<string>)
    ensures AddAll(acc, xs) == acc + KeepFirst(Without(xs, set x | x in acc))
    decreases |xs|
  {
    var a := set x | x in acc;
    if xs == [] {
    } else if xs[0] in acc {
      AddAllKeepsFirstOccurrences(acc, xs[1..]);
    } else {
      var acc' := acc + [xs[0]];
      AddAllKeepsFirstOccurrences(acc', xs[1..]);
      assert (set x | x in acc') == a + {xs[0]};
      assert Without(xs, a) == [xs[0]] + Without(xs[1..], a);
      WithoutTwice(xs[1..], a, {xs[0]});
    }
  }

  /** Adding elements that are all new, and new to each other, appends them unchanged. */
  lemma {:induction false} AddAllOfDistinct(acc: seq<string>, xs: seq<string>)
    requires Distinct(acc + xs)
    ensures AddAll(acc, xs) == acc + xs
    decreases |xs|
  {
    if xs != [] {
      assert xs[0] == (acc + xs)[|acc|];
      assert xs[0] !in acc by {
        forall i | 0 <= i < |acc| ensures acc[i] != xs[0] {
          assert acc[i] == (acc + xs)[i];
        }
      }
      assert acc + xs == (acc + [xs[0]]) + xs[1..];
      AddAllOfDistinct(acc + [xs[0]], xs[1..]);
    }
  }

  /** The additional names with no `null` among them. */
  function Unwrap(xs: seq<Option<string>>): (r: seq<string>)
    requires None !in xs
    ensures |r| == |xs| && forall i | 0 <= i < |xs| :: xs[i] == Some(r[i])
  {
    if xs == [] then [] else [xs[0].value] + Unwrap(xs[1..])
  }

  function Wrap(xs: seq<string>): (r: seq<Option<string>>)
    ensures |r| == |xs| && forall i | 0 <= i < |xs| :: r[i] == Some(xs[i])
  {
    if xs == [] then [] else [Some(xs[0])] + Wrap(xs[1..])
  }

  /** The constructor of `AbstractOption`. A `null` primary name, a `null`
      among the additional names or a `null` policy is a `NullPointerException`;
      a `null` collection of additional names means there are none. */
  function NewOption(
    primary: Option<string>,
    additional: Option<seq<Option<string>>>,
    required: bool,
    repeatable: bool,
    policy: Option<Policy>): (r: Result<OptionDef, SetupError>)
    ensures r.Ok? <==>
      primary.Some? && policy.Some? && (additional.Some? ==> None !in additional.value)
    ensures r.Err? ==> r.error == NullName
    ensures r.Ok? ==> Valid(r.value)
    ensures r.Ok? ==>
      && r.value.name == primary.value
      && r.value.required == required
      && r.value.repeatable == repeatable
      && r.value.policy == policy.value
    ensures r.Ok? ==> forall n ::
      n in r.value.names <==> n == primary.value || (additional.Some? && Some(n) in additional.value)
  {
    if primary.None? || policy.None? || (additional.Some? && None in additional.value) then
      Err(NullName)
    else
      var extra := if additional.Some? then Unwrap(additional.value) else [];
      assert forall n :: n in extra <==> additional.Some? && Some(n) in additional.value;
      Ok(OptionDef(primary.value, AddAll([primary.value], extra), required, repeatable, policy.value))
  }

  /** The names of a constructed option: the primary name, then the first
      occurrence of every additional name, in the order given. */
  lemma NamesInGivenOrder(primary: string, additional: seq<string>, required: bool, repeatable: bool, policy: Policy)
    ensures NewOption(Some(primary), Some(Wrap(additional)), required, repeatable, Some(policy)).Ok?
    ensures NewOption(Some(primary), Some(Wrap(additional)), required, repeatable, Some(policy)).value.names
            == [primary] + KeepFirst(Without(additional, {primary}))
  {
    var r := NewOption(Some(primary), Some(Wrap(additional)), required, repeatable, Some(policy));
    assert Unwrap(Wrap(additional)) == additional;
    AddAllKeepsFirstOccurrences([primary], additional);
    assert (set x | x in [primary]) == {primary};
  }

  /** The copy constructor `AbstractOption(Option)`. */
  function CopyOption(o: OptionDef): (r: Result<OptionDef, SetupError>)
    ensures r.Ok? && Valid(r.value)
    ensures r.value.name == o.name && r.value.required == o.required
    ensures r.value.repeatable == o.repeatable && r.value.policy == o.policy
    ensures forall n :: n in r.value.names <==> n == o.name || n in o.names
  {
    NewOption(Some(o.name), Some(Wrap(o.names)), o.required, o.repeatable, Some(o.policy))
  }

  /** Copying a well-formed option yields the same option. */
  lemma CopyIsIdentity(o: OptionDef)
    requires Valid(o)
    ensures CopyOption(o) == Ok(o)
  {
    assert Unwrap(Wrap(o.names)) == o.names;
    assert [o.name] + o.names[1..] == o.names;
    AddAllOfDistinct([o.name], o.names[1..]);
    assert AddAll([o.name], o.names) == AddAll([o.name], o.names[1..]);
  }
}

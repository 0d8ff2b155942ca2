/** Read access to a finished parse (`SimpleAccessorImpl`): the occurrences of
    options, looked up by any of their names, the operands, and the operands
    the operand pattern assigned to each slot. Absent entries read as empty
    lists, and "the single value" is the first element or absent. */
module Accessors {
  import opened Wrappers
  import opened Options
  import opened ParseResults

  /** A finished syntax result together with the operand pattern's slot map. */
  datatype Accessor = Accessor(syntax: ScanState, operandMap: map<string, seq<string>>)

  /** `nullToEmptyList` */
  function NullToEmpty<E>(list: Option<seq<E>>): (r: seq<E>)
    ensures list.None? ==> r == []
    ensures list.Some? ==> r == list.value
  {
    list.GetOr([])
  }

  /** `getSingle`: the first element, or absent for an empty list. */
  function Single<E>(list: seq<E>): (r: Option<E>)
    ensures r.None? <==> list == []
    ensures r.Some? ==> r.value == list[0]
  {
    if list == [] then None else Some(list[0])
  }

  /** `getNames(name)`: the names as typed, filed under the option's key. */
  function Names(a: Accessor, name: string): (r: seq<string>)
    ensures r == NamesAt(a.syntax, CanonicalName(a.syntax.dictionary, name))
  {
    NullToEmpty(GetNames(a.syntax, name))
  }

  /** `getArguments(name)`: the arguments, one per occurrence, each possibly absent. */
  function Arguments(a: Accessor, name: string): (r: seq<Option<string>>)
    ensures r == ArgumentsAt(a.syntax, CanonicalName(a.syntax.dictionary, name))
  {
    NullToEmpty(GetArguments(a.syntax, name))
  }

  /** `isOccurred` */
  function IsOccurred(a: Accessor, name: string): (r: bool)
    ensures Aligned(a.syntax) ==> (r <==> OccurrencesAt(a.syntax, CanonicalName(a.syntax.dictionary, name)) != [])
  {
    AlignedAt(a.syntax, CanonicalName(a.syntax.dictionary, name));
    Names(a, name) != []
  }

  /** `getOccurrences`: the number of times the option occurred. */
  function Occurrences(a: Accessor, name: string): (r: nat)
    ensures Aligned(a.syntax) ==> r == |OccurrencesAt(a.syntax, CanonicalName(a.syntax.dictionary, name))|
    ensures r == 0 <==> !IsOccurred(a, name)
  {
    AlignedAt(a.syntax, CanonicalName(a.syntax.dictionary, name));
    |Names(a, name)|
  }

  /** `getName`: the name the option was first typed as. */
  function Name(a: Accessor, name: string): (r: Option<string>)
    ensures Aligned(a.syntax) ==> var occs := OccurrencesAt(a.syntax, CanonicalName(a.syntax.dictionary, name));
      && (r.Some? <==> occs != [])
      && (occs != [] ==> r == Some(occs[0].name))
  {
    AlignedAt(a.syntax, CanonicalName(a.syntax.dictionary, name));
    Single(Names(a, name))
  }

  /** `getArgument`: the argument of the first occurrence; absent when the
      option did not occur or its first occurrence had no argument. */
  function Argument(a: Accessor, name: string): (r: Option<string>)
    ensures Aligned(a.syntax) ==> var occs := OccurrencesAt(a.syntax, CanonicalName(a.syntax.dictionary, name));
      && (occs == [] ==> r.None?)
      && (occs != [] ==> r == occs[0].argument)
  {
    AlignedAt(a.syntax, CanonicalName(a.syntax.dictionary, name));
    var args := Arguments(a, name);
    if args == [] then None else args[0]
  }

  /** An option occurred exactly when it has a first name; with the two lists
      aligned, names and arguments are equally many. */
  lemma OccurredIffNamed(a: Accessor, name: string)
    ensures IsOccurred(a, name) <==> Name(a, name).Some?
    ensures Aligned(a.syntax) ==> |Names(a, name)| == |Arguments(a, name)|
  {
    AlignedAt(a.syntax, CanonicalName(a.syntax.dictionary, name));
  }

  /** Looking up any alias of a declared option reads the same lists as
      looking up its primary name. */
  lemma AccessorAliases(a: Accessor, i: nat, alias: string)
    requires Owns(a.syntax.dictionary, a.syntax.options)
    requires 0 <= i < |a.syntax.options| && Valid(a.syntax.options[i]) && alias in a.syntax.options[i].names
    ensures Names(a, alias) == Names(a, a.syntax.options[i].name)
    ensures Arguments(a, alias) == Arguments(a, a.syntax.options[i].name)
    ensures Argument(a, alias) == Argument(a, a.syntax.options[i].name)
  {
    AliasLookup(a.syntax, i, alias);
  }

  /** `getOperands()`: every operand, in order. */
  function Operands(a: Accessor): seq<string> {
    a.syntax.operands
  }

  /** `getOperand()`: the first operand, if any. */
  function Operand(a: Accessor): (r: Option<string>)
    ensures r.None? <==> Operands(a) == []
    ensures r.Some? ==> r.value == Operands(a)[0]
  {
    Single(Operands(a))
  }

  /** `getOperands(slot)`: the operands assigned to a slot, or none. */
  function SlotOperands(a: Accessor, slot: string): (r: seq<string>)
    ensures slot in a.operandMap ==> r == a.operandMap[slot]
    ensures slot !in a.operandMap ==> r == []
  {
    NullToEmpty(Get(a.operandMap, slot))
  }

  /** `getOperand(slot)`: the first operand assigned to a slot, if any. */
  function SlotOperand(a: Accessor, slot: string): (r: Option<string>)
    ensures r.Some? <==> slot in a.operandMap && a.operandMap[slot] != []
    ensures r.Some? ==> r.value == a.operandMap[slot][0]
  {
    Single(SlotOperands(a, slot))
  }

  /** `toArray`: a fresh array holding the list's elements in order. */
  method ToArray<E>(list: seq<E>) returns (arr: array<E>)
    ensures arr.Length == |list|
    ensures forall i | 0 <= i < |list| :: arr[i] == list[i]
  {
    arr := new E[|list|](i requires 0 <= i < |list| => list[i]);
  }

  /** `getNamesAsArray(name)` */
  method NamesAsArray(a: Accessor, name: string) returns (arr: array<string>)
    ensures arr.Length == |Names(a, name)|
    ensures forall i | 0 <= i < arr.Length :: arr[i] == Names(a, name)[i]
  {
    arr := ToArray(Names(a, name));
  }

  /** `getArgumentsAsArray(name)` */
  method ArgumentsAsArray(a: Accessor, name: string) returns (arr: array<Option<string>>)
    ensures arr.Length == |Arguments(a, name)|
    ensures forall i | 0 <= i < arr.Length :: arr[i] == Arguments(a, name)[i]
  {
    arr := ToArray(Arguments(a, name));
  }

  /** `getOperandsAsArray()` */
  method OperandsAsArray(a: Accessor) returns (arr: array<string>)
    ensures arr.Length == |Operands(a)|
    ensures forall i | 0 <= i < arr.Length :: arr[i] == Operands(a)[i]
  {
    arr := ToArray(Operands(a));
  }

  /** `getOperandsAsArray(slot)` */
  method SlotOperandsAsArray(a: Accessor, slot: string) returns (arr: array<string>)
    ensures arr.Length == |SlotOperands(a, slot)|
    ensures forall i | 0 <= i < arr.Length :: arr[i] == SlotOperands(a, slot)[i]
  {
    arr := ToArray(SlotOperands(a, slot));
  }
}

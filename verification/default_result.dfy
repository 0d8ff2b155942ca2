/** The result of one parse (`DefaultResult`): an accessor over the
    occurrences and operands, and the structural errors in the order they were
    found. The `check` variants throw the errors of the requested kinds, or
    give the result back when there are none. */
module Results {
  import opened Errors
  import opened ParseResults
  import opened Accessors

  datatype DefaultResult = DefaultResult(accessor: Accessor, errors: seq<ArgError>)

  /** The outcome of a `check`: the result itself, or the thrown
      `ArgumentExceptions` with the errors it carries. */
  datatype Checked = Passed(result: DefaultResult) | Thrown(errors: seq<ArgError>)

  /** The constructor keeps its own copy of the errors, in order. */
  function NewDefaultResult(syntax: ScanState, operandMap: map<string, seq<string>>, errors: seq<ArgError>): (r: DefaultResult)
    ensures r.errors == errors
    ensures forall n :: Names(r.accessor, n) == NamesAt(syntax, CanonicalName(syntax.dictionary, n))
    ensures forall n :: Arguments(r.accessor, n) == ArgumentsAt(syntax, CanonicalName(syntax.dictionary, n))
    ensures Operands(r.accessor) == syntax.operands
    ensures forall s :: SlotOperands(r.accessor, s) == if s in operandMap then operandMap[s] else []
  {
    DefaultResult(Accessor(syntax, operandMap), errors)
  }

  /** The errors of kind `kind`, in their original order. */
  function Filter(es: seq<ArgError>, kind: ErrorKind): (r: seq<ArgError>)
    ensures |r| <= |es|
    decreases |es|
  {
    if es == [] then []
    else (if IsKind(es[0], kind) then [es[0]] else []) + Filter(es[1..], kind)
  }

  /** An error is kept exactly when it is in the list and of the kind. */
  lemma {:induction false} FilterMembers(es: seq<ArgError>, kind: ErrorKind, e: ArgError)
    ensures e in Filter(es, kind) <==> e in es && IsKind(e, kind)
    decreases |es|
  {
    if es != [] {
      FilterMembers(es[1..], kind, e);
      assert es == [es[0]] + es[1..];
    }
  }

  /** Filtering keeps every matching error as often as it occurs, and drops
      every other error entirely. */
  lemma {:induction false} FilterCounts(es: seq<ArgError>, kind: ErrorKind, e: ArgError)
    ensures Count(Filter(es, kind), e) == if IsKind(e, kind) then Count(es, e) else 0
    decreases |es|
  {
    if es != [] {
      var head: seq<ArgError> := if IsKind(es[0], kind) then [es[0]] else [];
      var rest := Filter(es[1..], kind);
      assert Count(Filter(es, kind), e) == Count(head, e) + Count(rest, e) by {
        CountConcat(head, rest, e);
      }
      assert Count(rest, e) == if IsKind(e, kind) then Count(es[1..], e) else 0 by {
        FilterCounts(es[1..], kind, e);
      }
      assert Count(head, e) == if IsKind(es[0], kind) && es[0] == e then 1 else 0;
    }
  }

  /** Filtering distributes over concatenation, so the relative order of the
      kept errors is the original order. */
  lemma {:induction false} FilterConcat(a: seq<ArgError>, b: seq<ArgError>, kind: ErrorKind)
    ensures Filter(a + b, kind) == Filter(a, kind) + Filter(b, kind)
    decreases |a|
  {
    if a == [] {
      assert a + b == b;
    } else {
      var head: seq<ArgError> := if IsKind(a[0], kind) then [a[0]] else [];
      var fa := Filter(a[1..], kind);
      var fb := Filter(b, kind);
      assert Filter(a + b, kind) == head + (fa + fb) by {
        assert (a + b)[0] == a[0] && (a + b)[1..] == a[1..] + b;
        FilterConcat(a[1..], b, kind);
      }
      assert Filter(a, kind) == head + fa;
      assert head + (fa + fb) == (head + fa) + fb;
    }
  }

  /** Every error is of the common kind. */
  lemma {:induction false} FilterAnyKeepsAll(es: seq<ArgError>)
    ensures Filter(es, AnyError) == es
    decreases |es|
  {
    if es != [] {
      FilterAnyKeepsAll(es[1..]);
      assert es == [es[0]] + es[1..];
    }
  }

  /** The matching errors for each kind in turn, concatenated. */
  function FilterAll(es: seq<ArgError>, kinds: seq<ErrorKind>): (r: seq<ArgError>)
    ensures forall e | e in r :: e in es && exists i | 0 <= i < |kinds| :: IsKind(e, kinds[i])
    decreases |kinds|
  {
    if kinds == [] then []
    else
      var head := Filter(es, kinds[0]);
      var tail := FilterAll(es, kinds[1..]);
      assert forall e | e in head :: e in es && IsKind(e, kinds[0]) by {
        forall e | e in head ensures e in es && IsKind(e, kinds[0]) {
          FilterMembers(es, kinds[0], e);
        }
      }
      assert forall e | e in tail :: exists i | 0 <= i < |kinds| :: IsKind(e, kinds[i]) by {
        forall e | e in tail ensures exists i | 0 <= i < |kinds| :: IsKind(e, kinds[i]) {
          var j :| 0 <= j < |kinds| - 1 && IsKind(e, kinds[1..][j]);
          assert kinds[1..][j] == kinds[j + 1];
        }
      }
      head + tail
  }

  /** The number of requested kinds `e` is of, counting repeated kinds. */
  function KindHits(kinds: seq<ErrorKind>, e: ArgError): nat {
    if kinds == [] then 0 else (if IsKind(e, kinds[0]) then 1 else 0) + KindHits(kinds[1..], e)
  }

  /** An error is carried once for every requested kind it is of, times the
      number of times it was reported. */
  lemma {:induction false} FilterAllCounts(es: seq<ArgError>, kinds: seq<ErrorKind>, e: ArgError)
    ensures Count(FilterAll(es, kinds), e) == Count(es, e) * KindHits(kinds, e)
    decreases |kinds|
  {
    if kinds != [] {
      var c := Count(es, e);
      var h := KindHits(kinds[1..], e);
      var b := IsKind(e, kinds[0]);
      assert Count(FilterAll(es, kinds), e) == (if b then c else 0) + c * h by {
        FilterAllCounts(es, kinds[1..], e);
        CountConcat(Filter(es, kinds[0]), FilterAll(es, kinds[1..]), e);
        FilterCounts(es, kinds[0], e);
      }
      assert KindHits(kinds, e) == (if b then 1 else 0) + h;
      MultiplyStep(c, h, b);
    }
  }

  lemma MultiplyStep(c: nat, h: nat, b: bool)
    ensures (if b then c else 0) + c * h == c * ((if b then 1 else 0) + h)
  {
  }

  /** `check()`: throws all errors when there are any. */
  function CheckAll(r: DefaultResult): (c: Checked)
    ensures c.Thrown? <==> r.errors != []
    ensures c.Thrown? ==> c.errors == r.errors
    ensures c.Passed? ==> c.result == r
  {
    if r.errors != [] then Thrown(r.errors) else Passed(r)
  }

  /** `check(type)`: throws the errors of that kind, in order, when there are any. */
  function CheckKind(r: DefaultResult, kind: ErrorKind): (c: Checked)
    ensures c.Thrown? <==> exists e | e in r.errors :: IsKind(e, kind)
    ensures c.Thrown? ==> c.errors == Filter(r.errors, kind)
    ensures c.Passed? ==> c.result == r
  {
    var es := Filter(r.errors, kind);
    if es != [] then
      FilterMembers(r.errors, kind, es[0]);
      Thrown(es)
    else
      assert forall e | e in r.errors :: !IsKind(e, kind) by {
        forall e | e in r.errors ensures !IsKind(e, kind) { FilterMembers(r.errors, kind, e); }
      }
      Passed(r)
  }

  /** `check(types)`: throws, for each kind in the given order, the errors of
      that kind, when there are any at all. */
  function CheckKinds(r: DefaultResult, kinds: seq<ErrorKind>): (c: Checked)
    ensures c.Thrown? <==> exists e, i | e in r.errors && 0 <= i < |kinds| :: IsKind(e, kinds[i])
    ensures c.Thrown? ==> c.errors == FilterAll(r.errors, kinds)
    ensures c.Passed? ==> c.result == r
  {
    var es := FilterAll(r.errors, kinds);
    FilterAllEmpty(r.errors, kinds);
    if es != [] then Thrown(es) else Passed(r)
  }

  /** Nothing is carried exactly when no error is of any requested kind. */
  lemma {:induction false} FilterAllEmpty(es: seq<ArgError>, kinds: seq<ErrorKind>)
    ensures FilterAll(es, kinds) == [] <==> forall e, i | e in es && 0 <= i < |kinds| :: !IsKind(e, kinds[i])
    decreases |kinds|
  {
    if kinds != [] {
      FilterAllEmpty(es, kinds[1..]);
      forall e | e in es {
        FilterMembers(es, kinds[0], e);
      }
      if Filter(es, kinds[0]) != [] {
        FilterMembers(es, kinds[0], Filter(es, kinds[0])[0]);
      }
      assert forall i | 1 <= i < |kinds| :: kinds[i] == kinds[1..][i - 1];
    }
  }

  /** `check()` is `check` of the common kind, and `check` of one kind is
      `check` of the one-element collection of kinds. */
  lemma CheckVariantsAgree(r: DefaultResult, kind: ErrorKind)
    ensures CheckAll(r) == CheckKind(r, AnyError)
    ensures CheckKinds(r, [kind]) == CheckKind(r, kind)
  {
    FilterAnyKeepsAll(r.errors);
    assert FilterAll(r.errors, [kind]) == Filter(r.errors, kind) + FilterAll(r.errors, []);
  }

  /** An error of two requested kinds is carried twice. */
  lemma MatchingTwiceCarriedTwice(r: DefaultResult, k1: ErrorKind, k2: ErrorKind, e: ArgError)
    requires e in r.errors && IsKind(e, k1) && IsKind(e, k2)
    ensures CheckKinds(r, [k1, k2]).Thrown?
    ensures Count(CheckKinds(r, [k1, k2]).errors, e) == 2 * Count(r.errors, e)
  {
    var kinds := [k1, k2];
    FilterAllCounts(r.errors, kinds, e);
    assert KindHits(kinds, e) == 2 by {
      assert kinds[1..] == [k2] && [k2][1..] == [];
      assert KindHits([], e) == 0;
      assert KindHits([k2], e) == 1;
    }
    assert kinds[0] == k1;
  }

  /** `getAccessor`: the result itself, whether or not any check would pass;
      it is what a passing `check` gives back. */
  function GetAccessor(r: DefaultResult): (a: DefaultResult)
    ensures a.accessor == r.accessor && a.errors == r.errors
    ensures CheckAll(r).Passed? ==> a == CheckAll(r).result
  {
    r
  }
}

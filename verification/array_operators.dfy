/** The document store's array update operator `$addToSet` (with `$each`),
    over a sequence standing for an array field. Elements are compared by
    whole-value equality, as the store compares embedded documents. */
module ArrayOperators {

  /** True iff no element occurs twice in `xs`. */
  predicate NoDuplicates<T(==)>(xs: seq<T>) {
    forall i, j :: 0 <= i < j < |xs| ==> xs[i] != xs[j]
  }

  /** `$addToSet` of one value: appended unless an equal element is present. */
  function AddToSet<T(==,!new)>(xs: seq<T>, x: T): (r: seq<T>)
    ensures xs <= r && |r| <= |xs| + 1
    ensures x in r
    ensures forall y :: y in r <==> y in xs || y == x
    ensures forall k :: |xs| <= k < |r| ==> r[k] !in xs
    ensures NoDuplicates(xs) ==> NoDuplicates(r)
  {
    if x in xs then xs else xs + [x]
  }

  /** `$addToSet` with `$each`: the values of `adds` are added one by one,
      in order, so a value repeated inside `adds` is also added only once. */
  function AddEachToSet<T(==,!new)>(xs: seq<T>, adds: seq<T>): (r: seq<T>)
    ensures xs <= r
    ensures forall y :: y in r <==> y in xs || y in adds
    ensures forall y :: y in r[|xs|..] ==> y !in xs
    ensures NoDuplicates(r[|xs|..])
    ensures NoDuplicates(xs) ==> NoDuplicates(r)
    decreases |adds|
  {
    if adds == [] then xs
    else
      var step := AddToSet(xs, adds[0]);
      var r := AddEachToSet(step, adds[1..]);
      assert forall y :: y in adds <==> y == adds[0] || y in adds[1..];
      if adds[0] in xs then
        assert step == xs;
        r
      else
        assert step == xs + [adds[0]];
        assert r[|xs|..] == [adds[0]] + r[|step|..];
        assert r[|xs|] == adds[0];
        ConsNoDuplicates(adds[0], r[|step|..]);
        r
  }

  /** Putting a value in front of a duplicate-free sequence that lacks it
      gives a duplicate-free sequence. */
  lemma ConsNoDuplicates<T>(x: T, s: seq<T>)
    requires x !in s && NoDuplicates(s)
    ensures NoDuplicates([x] + s)
  {
  }
}

/** Small facts about sequences used throughout the model. */
module Seqs {

  /** No element occurs twice. */
  predicate NoDuplicates<T(==)>(s: seq<T>)
  {
    forall i, j :: 0 <= i < j < |s| ==> s[i] != s[j]
  }

  /** Where `x` first occurs in `s`. */
  function FirstIndex<T(==)>(s: seq<T>, x: T): (k: nat)
    requires x in s
    ensures k < |s| && s[k] == x
    ensures forall m :: 0 <= m < k ==> s[m] != x
  {
    if s[0] == x then 0 else 1 + FirstIndex(s[1..], x)
  }

  /** `Stream.distinct()`: the elements of `s` in order of first occurrence, each once. */
  function Distinct<T(==, !new)>(s: seq<T>): (r: seq<T>)
    ensures forall x :: x in r <==> x in s
    ensures NoDuplicates(r)
    ensures InFirstOccurrenceOrder(r, s)
  {
    if s == [] then []
    else
      var init := s[..|s| - 1];
      var rest := Distinct(init);
      assert s == init + [s[|s| - 1]];
      DistinctStep(init, s[|s| - 1], rest);
      if s[|s| - 1] in rest then rest else rest + [s[|s| - 1]]
  }

  /** The elements of `r` occur in `s`, and first occur there in the order of `r`. */
  predicate InFirstOccurrenceOrder<T(==)>(r: seq<T>, s: seq<T>)
  {
    && (forall x :: x in r ==> x in s)
    && forall i, j :: 0 <= i < j < |r| ==> FirstIndex(s, r[i]) < FirstIndex(s, r[j])
  }

  /** One more element at the end of the input keeps the order of the result. */
  lemma DistinctStep<T>(init: seq<T>, x: T, rest: seq<T>)
    requires forall y :: y in rest <==> y in init
    requires InFirstOccurrenceOrder(rest, init)
    ensures x in rest ==> InFirstOccurrenceOrder(rest, init + [x])
    ensures x !in rest ==> InFirstOccurrenceOrder(rest + [x], init + [x])
  {
    FirstIndexInPrefix(init, x);
    if x !in rest {
      var r := rest + [x];
      forall i, j | 0 <= i < j < |r| ensures FirstIndex(init + [x], r[i]) < FirstIndex(init + [x], r[j]) {
        assert r[i] == rest[i] && r[i] in init;
        if j < |rest| {
          assert r[j] == rest[j];
        }
      }
    }
  }

  /** Appending an element moves no first occurrence, and a new element comes last. */
  lemma FirstIndexInPrefix<T>(init: seq<T>, x: T)
    ensures forall y :: y in init ==> FirstIndex(init + [x], y) == FirstIndex(init, y)
    ensures x !in init ==> FirstIndex(init + [x], x) == |init|
  {
    var s := init + [x];
    forall y | y in init ensures FirstIndex(s, y) == FirstIndex(init, y) {
      assert s[FirstIndex(init, y)] == y;
    }
  }
}

/**
 * The part of a choco `IntVar` that the filtering algorithms use, on
 * enumerated domains held as finite sets of integers.
 *
 * `removeValue` and `instantiateTo` either report whether the domain changed
 * or raise a `ContradictionException`; here they return an `Outcome`, and
 * `Contradiction` stands for the exception.
 */
module Domains {
  import opened IntSets

  /** `Integer.MAX_VALUE`: what `nextValue` answers when no larger value exists. */
  const MAX_VALUE: int := 2147483647

  /** Either a result, or the `ContradictionException` that aborts propagation. */
  datatype Outcome<T> = Done(value: T) | Contradiction

  /** A domain a variable can hold: not empty, every value below `MAX_VALUE`. */
  predicate IsDomain(d: set<int>)
  {
    d != {} && forall x | x in d :: x < MAX_VALUE
  }

  /** `getLB()`. */
  function LB(d: set<int>): int
    requires d != {}
  {
    Min(d)
  }

  /** `getUB()`. */
  function UB(d: set<int>): int
    requires d != {}
  {
    Max(d)
  }

  /** `isInstantiated()`: the domain holds exactly one value. */
  predicate IsInstantiated(d: set<int>)
  {
    |d| == 1
  }

  /** A domain of size one is the singleton of its lower bound. */
  lemma InstantiatedIsSingleton(d: set<int>)
    requires IsInstantiated(d)
    ensures d == {LB(d)}
  {
    var m := LB(d);
    if d - {m} != {} {
      Inhabited(d - {m});
      var y :| y in d - {m};
      assert {m, y} <= d;
      SubsetCard({m, y}, d);
    }
    assert forall x :: x in d <==> x in {m} by {
      forall x ensures x in d <==> x in {m} {
        assert x !in d - {m};
      }
    }
  }

  /** A singleton domain is instantiated. */
  lemma SingletonIsInstantiated(k: int)
    ensures IsInstantiated({k})
  {
  }

  /**
   * `nextValue(k)`: the least value of the domain above `k`, or `MAX_VALUE`
   * when there is none.
   */
  function NextValue(d: set<int>, k: int): (r: int)
    requires IsDomain(d)
    ensures (r in d && k < r) || (r == MAX_VALUE && forall x | x in d :: x <= k)
    ensures forall x | x in d && k < x :: r <= x
  {
    var above := set x | x in d && k < x;
    if above == {} then
      assert forall x | x in d :: x <= k by {
        forall x | x in d ensures x <= k {
          assert x !in above;
        }
      }
      MAX_VALUE
    else
      var r := Min(above);
      assert forall x | x in d && k < x :: x in above;
      r
  }

  /**
   * `removeValue(k)`: no change when `k` is absent, a contradiction when `k`
   * is the last value, otherwise the domain without `k` and a change.
   */
  function RemoveValue(d: set<int>, k: int): (r: Outcome<(set<int>, bool)>)
    ensures r == Contradiction <==> d == {k}
    ensures r.Done? ==> r.value.0 == d - {k} && (r.value.1 <==> k in d)
  {
    if d == {k} then Contradiction
    else if k in d then Done((d - {k}, true))
    else
      assert d - {k} == d by {
        assert forall x :: x in d - {k} <==> x in d;
      }
      Done((d, false))
  }

  /**
   * `instantiateTo(k)`: a contradiction when `k` is not in the domain,
   * otherwise the singleton `{k}`, with a change unless the domain was
   * already that singleton.
   */
  function InstantiateTo(d: set<int>, k: int): (r: Outcome<(set<int>, bool)>)
    ensures r == Contradiction <==> k !in d
    ensures r.Done? ==> r.value.0 == {k} && (r.value.1 <==> d != {k})
  {
    if k !in d then Contradiction
    else Done(({k}, d != {k}))
  }

  /**
   * The failure trick of the matching phase: instantiating a variable to
   * one less than its lower bound always raises a contradiction.
   */
  lemma BelowLowerBoundFails(d: set<int>)
    requires d != {}
    ensures InstantiateTo(d, LB(d) - 1) == Contradiction
  {
  }

  /** `forall i`: domain i is a well-formed domain. */
  predicate AllDomains(d: seq<set<int>>)
  {
    forall i | 0 <= i < |d| :: IsDomain(d[i])
  }

  /** The solutions of `allDifferent` over domains `d`: one value per domain, pairwise distinct. */
  ghost predicate IsSolution(d: seq<set<int>>, s: seq<int>)
  {
    |s| == |d|
    && (forall i | 0 <= i < |d| :: s[i] in d[i])
    && (forall i, j | 0 <= i < j < |s| :: s[i] != s[j])
  }

  /** Whether `allDifferent` over domains `d` can be satisfied at all. */
  ghost predicate HasSolution(d: seq<set<int>>)
  {
    exists s :: IsSolution(d, s)
  }
}

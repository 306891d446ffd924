/**
 * Finite sets of integers as the Java code uses them: `java.util.BitSet`
 * (`set`, `nextSetBit`, `cardinality`) and the ordered integer domains of
 * choco variables (least element, greatest element).
 */
module IntSets {

  /** A set that is not empty has an element. */
  lemma Inhabited(s: set<int>)
    ensures s == {} || exists y :: y in s
  {
    if forall y :: y !in s {
      assert forall y :: y in s <==> y in {};
    }
  }

  /** Every nonempty finite set of integers has a least element. */
  lemma {:induction false} MinExists(s: set<int>)
    requires s != {}
    ensures exists m :: m in s && forall x | x in s :: m <= x
  {
    Inhabited(s);
    var y :| y in s;
    var rest := s - {y};
    if rest != {} {
      MinExists(rest);
      var m :| m in rest && forall x | x in rest :: m <= x;
      var least := if y < m then y else m;
      forall x | x in s ensures least <= x {
        if x != y { assert x in rest; }
      }
      assert least in s;
    } else {
      forall x | x in s ensures y <= x {
        assert x !in rest;
      }
    }
  }

  /** Every nonempty finite set of integers has a greatest element. */
  lemma {:induction false} MaxExists(s: set<int>)
    requires s != {}
    ensures exists m :: m in s && forall x | x in s :: x <= m
  {
    Inhabited(s);
    var y :| y in s;
    var rest := s - {y};
    if rest != {} {
      MaxExists(rest);
      var m :| m in rest && forall x | x in rest :: x <= m;
      var greatest := if m < y then y else m;
      forall x | x in s ensures x <= greatest {
        if x != y { assert x in rest; }
      }
      assert greatest in s;
    } else {
      forall x | x in s ensures x <= y {
        assert x !in rest;
      }
    }
  }

  /** The least element of a nonempty set. */
  function Min(s: set<int>): (m: int)
    requires s != {}
    ensures m in s && forall x | x in s :: m <= x
  {
    MinExists(s);
    var m :| m in s && forall x | x in s :: m <= x; m
  }

  /** The greatest element of a nonempty set. */
  function Max(s: set<int>): (m: int)
    requires s != {}
    ensures m in s && forall x | x in s :: x <= m
  {
    MaxExists(s);
    var m :| m in s && forall x | x in s :: x <= m; m
  }

  /** The integers of the half-open interval [lo, hi), as `BitSet.set(lo, hi)` sets them. */
  function Range(lo: int, hi: int): (r: set<int>)
    ensures forall x :: x in r <==> lo <= x < hi
    ensures |r| == if lo <= hi then hi - lo else 0
    decreases hi - lo
  {
    if hi <= lo then {} else {lo} + Range(lo + 1, hi)
  }

  /**
   * `BitSet.nextSetBit(from)`: the least member that is at least `from`,
   * or -1 when there is none (bit sets hold only non-negative indices).
   */
  function NextSetBit(s: set<int>, from: int): (r: int)
    requires forall x | x in s :: 0 <= x
    ensures r == -1 <==> forall x | x in s :: x < from
    ensures r != -1 ==> r in s && from <= r && forall x | x in s && from <= x :: r <= x
  {
    var above := set x | x in s && from <= x;
    if above == {} then
      assert forall x | x in s :: x < from by {
        forall x | x in s ensures x < from {
          assert x !in above;
        }
      }
      -1
    else
      var r := Min(above);
      assert forall x | x in s && from <= x :: x in above;
      r
  }

  /** An injective map from S into T needs T to be at least as large as S. */
  lemma {:induction false} Pigeonhole(S: set<int>, T: set<int>, f: int -> int)
    requires forall x | x in S :: f(x) in T
    requires forall x, y | x in S && y in S && x != y :: f(x) != f(y)
    ensures |S| <= |T|
    decreases S
  {
    Inhabited(S);
    if S != {} {
      var x :| x in S;
      Pigeonhole(S - {x}, T - {f(x)}, f);
    }
  }

  /** A subset is no larger than the set that contains it. */
  lemma SubsetCard(S: set<int>, T: set<int>)
    requires S <= T
    ensures |S| <= |T|
  {
    Pigeonhole(S, T, x => x);
  }

  /** Adding a new key to a map adds one to its key count. */
  lemma KeysGrow<V>(m: map<int, V>, k: int, v: V)
    requires k !in m
    ensures m[k := v].Keys == m.Keys + {k}
    ensures |m[k := v].Keys| == |m.Keys| + 1
  {
    assert forall x :: x in m[k := v].Keys <==> x in m.Keys + {k};
  }

  /** A set of integers drawn from `[0, hi)` has at most `hi` members. */
  lemma BoundedCard(s: set<int>, hi: int)
    requires 0 <= hi && forall x | x in s :: 0 <= x < hi
    ensures |s| <= hi
  {
    SubsetCard(s, Range(0, hi));
  }

  /** A set with one member and that member is the whole set. */
  lemma SingletonCard(s: set<int>, x: int)
    requires x in s && |s| == 1
    ensures s == {x}
  {
    var rest := s - {x};
    assert |rest| == 0;
    assert forall y | y in s :: y in rest || y == x;
  }

  /** A one-to-one map from `S` plus `i` into `S` exists only when `i` is already in `S`. */
  lemma InjectionInto(S: set<int>, i: int, f: int -> int)
    requires forall x | x in S + {i} :: f(x) in S
    requires forall x, y | x in S + {i} && y in S + {i} && x != y :: f(x) != f(y)
    ensures i in S
  {
    if i !in S {
      Pigeonhole(S + {i}, S, f);
      assert false;
    }
  }
}

/**
 * The variable/value graph of `allDifferent` and the matchings on it.
 *
 * Variables are the nodes `0 .. n-1` (`n == |d|`); a value `v` is the node
 * `ids[v]`, and `vals` is the inverse map from value nodes back to values.
 * There is an edge `(i, j)` when the value of node `j` is in the domain of
 * variable `i`. The filtering algorithms keep this graph as a digraph in
 * which a matched edge is the arc value -> variable and any other edge is
 * the arc variable -> value.
 */
module ValueGraphs {
  import opened IntSets
  import opened Domains

  /** Value nodes come after the `|d|` variable nodes. */
  ghost predicate Bipartite(d: seq<set<int>>, vals: map<int, int>)
  {
    forall j | j in vals :: |d| <= j
  }

  /** `ids` and `vals` are inverse maps, and every domain value has an id. */
  ghost predicate Numbered(d: seq<set<int>>, ids: map<int, int>, vals: map<int, int>)
  {
    (forall k | k in ids :: ids[k] in vals && vals[ids[k]] == k)
    && (forall j | j in vals :: vals[j] in ids && ids[vals[j]] == j)
    && (forall i | 0 <= i < |d| :: d[i] <= ids.Keys)
  }

  /** Edge between variable `i` and value node `j`. */
  ghost predicate Edge(d: seq<set<int>>, vals: map<int, int>, i: int, j: int)
  {
    0 <= i < |d| && j in vals && vals[j] in d[i]
  }

  /** `M` maps variables to value nodes along edges, no value node used twice. */
  ghost predicate IsMatching(d: seq<set<int>>, vals: map<int, int>, M: map<int, int>)
  {
    (forall i | i in M :: Edge(d, vals, i, M[i]))
    && (forall i, i' | i in M && i' in M && i != i' :: M[i] != M[i'])
  }

  /** The arc `x -> y` of the oriented graph: a matched edge points to its variable, any other edge to its value. */
  ghost predicate IsArc(d: seq<set<int>>, vals: map<int, int>, M: map<int, int>, x: int, y: int)
  {
    (Edge(d, vals, x, y) && !(x in M && M[x] == y))
    || (Edge(d, vals, y, x) && y in M && M[y] == x)
  }

  /** Some variable is matched to value node `v`. */
  ghost predicate Taken(M: map<int, int>, v: int)
  {
    exists i | i in M :: M[i] == v
  }

  /** A node no matched edge touches. */
  ghost predicate Free(M: map<int, int>, x: int)
  {
    x !in M && !Taken(M, x)
  }

  /** The first position of `x` in `P`. */
  function IndexOf(P: seq<int>, x: int): (t: nat)
    requires x in P
    ensures t < |P| && P[t] == x
    ensures forall s | 0 <= s < t :: P[s] != x
  {
    if P[0] == x then 0 else 1 + IndexOf(P[1..], x)
  }

  /**
   * A path the breadth-first search can return: it starts at a free
   * variable, ends at a free value node, follows arcs, and visits no node
   * twice.
   */
  ghost predicate AugmentingPath(d: seq<set<int>>, vals: map<int, int>, M: map<int, int>, P: seq<int>)
  {
    |P| >= 2
    && 0 <= P[0] < |d| && Free(M, P[0]) && Free(M, P[|P| - 1])
    && (forall t | 0 <= t < |P| - 1 :: IsArc(d, vals, M, P[t], P[t + 1]))
    && (forall s, t | 0 <= s < t < |P| :: P[s] != P[t])
  }

  /** The matching after the arcs of `P` are reversed: each variable of the path takes the node after it. */
  ghost function Augment(M: map<int, int>, P: seq<int>): map<int, int>
    requires |P| >= 2
  {
    map x | x in M.Keys + {P[0]} :: if x in P && IndexOf(P, x) < |P| - 1 then P[IndexOf(P, x) + 1] else M[x]
  }

  /** The arcs `P[t] -> P[t+1]` of a path. */
  ghost function Forward(P: seq<int>): set<(int, int)>
  {
    set t {:trigger P[t]} | 0 <= t < |P| - 1 :: (P[t], P[t + 1])
  }

  /** The reversed arcs `P[t+1] -> P[t]` of a path. */
  ghost function Backward(P: seq<int>): set<(int, int)>
  {
    set t {:trigger P[t]} | 0 <= t < |P| - 1 :: (P[t + 1], P[t])
  }

  /** Along an augmenting path, variables and values alternate, and every inner variable is matched to the node before it. */
  lemma PathShape(d: seq<set<int>>, vals: map<int, int>, M: map<int, int>, P: seq<int>, t: int)
    requires Bipartite(d, vals) && IsMatching(d, vals, M) && AugmentingPath(d, vals, M, P)
    requires 0 <= t < |P|
    ensures P[t] < |d| ==> t < |P| - 1 && Edge(d, vals, P[t], P[t + 1]) && !(P[t] in M && M[P[t]] == P[t + 1])
    ensures P[t] < |d| && 0 < t ==> P[t] in M && M[P[t]] == P[t - 1] && P[t - 1] >= |d|
    ensures P[t] >= |d| && t < |P| - 1 ==> P[t + 1] < |d| && P[t + 1] in M && M[P[t + 1]] == P[t]
    ensures P[t] >= |d| ==> 0 < t && P[t - 1] < |d|
  {
    if t < |P| - 1 {
      assert IsArc(d, vals, M, P[t], P[t + 1]);
    }
    if 0 < t {
      assert IsArc(d, vals, M, P[t - 1], P[t]);
    }
  }

  /** The augmented map of a path node, and of a node off the path. */
  lemma AugmentAt(d: seq<set<int>>, vals: map<int, int>, M: map<int, int>, P: seq<int>, x: int)
    requires Bipartite(d, vals) && IsMatching(d, vals, M) && AugmentingPath(d, vals, M, P)
    ensures x in Augment(M, P) <==> x in M || x == P[0]
    ensures x in P && x < |d| ==> x in Augment(M, P) && Augment(M, P)[x] == P[IndexOf(P, x) + 1]
    ensures x !in P && x in M ==> Augment(M, P)[x] == M[x]
  {
    if x in P && x < |d| {
      PathShape(d, vals, M, P, IndexOf(P, x));
      if x != P[0] {
        assert x in M;
      }
    }
  }

  /** Reversing an augmenting path gives a matching that covers one more variable and one more value node. */
  lemma {:induction false} AugmentIsMatching(d: seq<set<int>>, vals: map<int, int>, M: map<int, int>, P: seq<int>)
    requires Bipartite(d, vals) && IsMatching(d, vals, M) && AugmentingPath(d, vals, M, P)
    ensures IsMatching(d, vals, Augment(M, P))
    ensures forall x :: x in Augment(M, P) <==> x in M || x == P[0]
  {
    var A := Augment(M, P);
    forall x ensures x in A <==> x in M || x == P[0] {
      AugmentAt(d, vals, M, P, x);
    }
    forall i | i in A ensures Edge(d, vals, i, A[i]) {
      AugmentAt(d, vals, M, P, i);
      if i in P {
        PathShape(d, vals, M, P, IndexOf(P, i));
      }
    }
    forall i, i' | i in A && i' in A && i != i' ensures A[i] != A[i'] {
      AugmentAt(d, vals, M, P, i);
      AugmentAt(d, vals, M, P, i');
      if i in P && i' in P {
        PathShape(d, vals, M, P, IndexOf(P, i));
        PathShape(d, vals, M, P, IndexOf(P, i'));
      } else if i in P {
        NewMateNotOld(d, vals, M, P, i, i');
      } else if i' in P {
        NewMateNotOld(d, vals, M, P, i', i);
      }
    }
  }

  /** The node a path variable takes is not the mate of a variable off the path. */
  lemma NewMateNotOld(d: seq<set<int>>, vals: map<int, int>, M: map<int, int>, P: seq<int>, x: int, y: int)
    requires Bipartite(d, vals) && IsMatching(d, vals, M) && AugmentingPath(d, vals, M, P)
    requires x in P && x < |d| && y !in P && y in M
    ensures IndexOf(P, x) < |P| - 1 && P[IndexOf(P, x) + 1] != M[y]
  {
    var t := IndexOf(P, x);
    PathShape(d, vals, M, P, t);
    var v := P[t + 1];
    if t + 1 < |P| - 1 {
      PathShape(d, vals, M, P, t + 1);
      assert M[P[t + 2]] == v;
      assert P[t + 2] != y;
    } else {
      assert !Taken(M, v);
    }
  }

  /** The value nodes covered grow by exactly the last node of the path. */
  lemma AugmentTaken(d: seq<set<int>>, vals: map<int, int>, M: map<int, int>, P: seq<int>)
    requires Bipartite(d, vals) && IsMatching(d, vals, M) && AugmentingPath(d, vals, M, P)
    ensures forall v :: Taken(Augment(M, P), v) <==> Taken(M, v) || v == P[|P| - 1]
  {
    forall v ensures Taken(Augment(M, P), v) <==> Taken(M, v) || v == P[|P| - 1] {
      if Taken(Augment(M, P), v) {
        TakenAfter(d, vals, M, P, v);
      }
      if Taken(M, v) || v == P[|P| - 1] {
        TakenBefore(d, vals, M, P, v);
      }
    }
  }

  /** A value node the augmented matching covers was covered before or ends the path. */
  lemma TakenAfter(d: seq<set<int>>, vals: map<int, int>, M: map<int, int>, P: seq<int>, v: int)
    requires Bipartite(d, vals) && IsMatching(d, vals, M) && AugmentingPath(d, vals, M, P)
    requires Taken(Augment(M, P), v)
    ensures Taken(M, v) || v == P[|P| - 1]
  {
    var A := Augment(M, P);
    var x :| x in A && A[x] == v;
    AugmentAt(d, vals, M, P, x);
    if x in P && x < |d| {
      var t := IndexOf(P, x);
      PathShape(d, vals, M, P, t);
      if t + 1 < |P| - 1 {
        PathShape(d, vals, M, P, t + 1);
        assert M[P[t + 2]] == v;
      }
    } else {
      assert x in M && M[x] == v;
    }
  }

  /** A value node covered before, or ending the path, stays covered. */
  lemma TakenBefore(d: seq<set<int>>, vals: map<int, int>, M: map<int, int>, P: seq<int>, v: int)
    requires Bipartite(d, vals) && IsMatching(d, vals, M) && AugmentingPath(d, vals, M, P)
    requires Taken(M, v) || v == P[|P| - 1]
    ensures Taken(Augment(M, P), v)
  {
    if v == P[|P| - 1] {
      var t := |P| - 1;
      PathShape(d, vals, M, P, t);
      TakesNext(d, vals, M, P, t - 1);
    } else {
      var x :| x in M && M[x] == v;
      AugmentAt(d, vals, M, P, x);
      if x in P {
        var t := IndexOf(P, x);
        PathShape(d, vals, M, P, t);
        PathShape(d, vals, M, P, t - 1);
        TakesNext(d, vals, M, P, t - 2);
      } else {
        assert Augment(M, P)[x] == v;
      }
    }
  }

  /** The variable at position `t` of the path takes the node after it. */
  lemma TakesNext(d: seq<set<int>>, vals: map<int, int>, M: map<int, int>, P: seq<int>, t: int)
    requires Bipartite(d, vals) && IsMatching(d, vals, M) && AugmentingPath(d, vals, M, P)
    requires 0 <= t < |P| - 1 && P[t] < |d|
    ensures P[t] in Augment(M, P) && Augment(M, P)[P[t]] == P[t + 1]
  {
    AugmentAt(d, vals, M, P, P[t]);
    assert IndexOf(P, P[t]) == t;
  }

  /** Membership in the arcs of a path, by position. */
  lemma PathArcs(P: seq<int>, x: int, y: int)
    requires forall s, t | 0 <= s < t < |P| :: P[s] != P[t]
    ensures (x, y) in Forward(P) <==> x in P && IndexOf(P, x) < |P| - 1 && P[IndexOf(P, x) + 1] == y
    ensures (x, y) in Backward(P) <==> y in P && IndexOf(P, y) < |P| - 1 && P[IndexOf(P, y) + 1] == x
  {
    if (x, y) in Forward(P) {
      var t :| 0 <= t < |P| - 1 && (P[t], P[t + 1]) == (x, y);
      assert IndexOf(P, x) == t;
    }
    if x in P && IndexOf(P, x) < |P| - 1 && P[IndexOf(P, x) + 1] == y {
      var t := IndexOf(P, x);
      assert (P[t], P[t + 1]) in Forward(P);
    }
    if (x, y) in Backward(P) {
      var t :| 0 <= t < |P| - 1 && (P[t + 1], P[t]) == (x, y);
      assert IndexOf(P, y) == t;
    }
    if y in P && IndexOf(P, y) < |P| - 1 && P[IndexOf(P, y) + 1] == x {
      var t := IndexOf(P, y);
      assert (P[t + 1], P[t]) in Backward(P);
    }
  }

  /**
   * Reversing the arcs of an augmenting path turns the oriented graph of
   * `M` into the oriented graph of the augmented matching.
   */
  lemma AugmentArcs(d: seq<set<int>>, vals: map<int, int>, M: map<int, int>, P: seq<int>, x: int, y: int)
    requires Bipartite(d, vals) && IsMatching(d, vals, M) && AugmentingPath(d, vals, M, P)
    ensures IsArc(d, vals, Augment(M, P), x, y)
        <==> (IsArc(d, vals, M, x, y) && (x, y) !in Forward(P)) || (x, y) in Backward(P)
  {
    PathArcs(P, x, y);
    AugmentAt(d, vals, M, P, x);
    AugmentAt(d, vals, M, P, y);
    if x < |d| && x in P {
      AroundOnPath(d, vals, M, P, x);
    } else if x >= |d| && y in P && y < |d| {
      AroundOnPath(d, vals, M, P, y);
    }
  }

  /** The shape of an augmenting path around a node `z` on it and the node before it. */
  lemma AroundOnPath(d: seq<set<int>>, vals: map<int, int>, M: map<int, int>, P: seq<int>, z: int)
    requires Bipartite(d, vals) && IsMatching(d, vals, M) && AugmentingPath(d, vals, M, P)
    requires z in P && z < |d|
    ensures var t := IndexOf(P, z);
            t < |P| - 1 && Edge(d, vals, z, P[t + 1]) && !(z in M && M[z] == P[t + 1])
            && (0 < t ==> z in M && M[z] == P[t - 1] && P[t - 1] >= |d|)
  {
    var t := IndexOf(P, z);
    PathShape(d, vals, M, P, t);
    if 0 < t {
      PathShape(d, vals, M, P, t - 1);
    }
  }

  /** The variable matched to a taken value node. */
  ghost function MateOf(M: map<int, int>, v: int): (x: int)
    requires Taken(M, v)
    ensures x in M && M[x] == v
  {
    var x :| x in M && M[x] == v; x
  }

  /**
   * Hall's condition fails on a set `R` of nodes that holds a free variable,
   * is closed under the arcs, and whose value nodes are all matched to
   * variables of `R`: its variables have fewer values than themselves, so no
   * assignment of pairwise different values exists.
   */
  lemma {:induction false} StuckMeansNoSolution(d: seq<set<int>>, ids: map<int, int>, vals: map<int, int>,
                                                M: map<int, int>, R: set<int>, root: int)
    requires Bipartite(d, vals) && Numbered(d, ids, vals) && IsMatching(d, vals, M)
    requires root in R && 0 <= root < |d| && root !in M
    requires forall x, y | x in R && IsArc(d, vals, M, x, y) :: y in R
    requires forall x | x in R && x != root && 0 <= x < |d| :: x in M && M[x] in R
    requires forall y | y in R && |d| <= y :: Taken(M, y)
    ensures !HasSolution(d)
  {
    if HasSolution(d) {
      var s :| IsSolution(d, s);
      var X := set x | x in R && 0 <= x < |d|;
      var V := set y | y in R && |d| <= y;
      ValuesOfSolution(d, ids, vals, M, R, root, s, X, V);
      MatesOfValues(d, vals, M, R, root, X, V);
    }
  }

  /** The values a solution gives the variables `X` of `R` are pairwise different value nodes of `R`. */
  lemma ValuesOfSolution(d: seq<set<int>>, ids: map<int, int>, vals: map<int, int>, M: map<int, int>,
                         R: set<int>, root: int, s: seq<int>, X: set<int>, V: set<int>)
    requires Bipartite(d, vals) && Numbered(d, ids, vals) && IsMatching(d, vals, M) && IsSolution(d, s)
    requires root !in M
    requires forall x, y | x in R && IsArc(d, vals, M, x, y) :: y in R
    requires forall x | x in R && x != root && 0 <= x < |d| :: x in M && M[x] in R
    requires X == set x | x in R && 0 <= x < |d|
    requires V == set y | y in R && |d| <= y
    ensures |X| <= |V|
  {
    var f := x => if 0 <= x < |s| && s[x] in ids then ids[s[x]] else 0;
    forall x | x in X ensures f(x) in V {
      assert 0 <= x < |d| && s[x] in d[x];
      assert s[x] in ids;
      var j := ids[s[x]];
      assert forall k | k in ids :: ids[k] in vals && vals[ids[k]] == k;
      assert j in vals && vals[j] == s[x];
      assert Edge(d, vals, x, j);
      if !(x in M && M[x] == j) {
        assert IsArc(d, vals, M, x, j);
      }
    }
    forall x, x' | x in X && x' in X && x != x' ensures f(x) != f(x') {
      assert s[x] != s[x'];
    }
    Pigeonhole(X, V, f);
  }

  /** The mates of the value nodes `V` of `R` are pairwise different variables of `R` other than `root`. */
  lemma MatesOfValues(d: seq<set<int>>, vals: map<int, int>, M: map<int, int>, R: set<int>, root: int, X: set<int>, V: set<int>)
    requires Bipartite(d, vals) && IsMatching(d, vals, M)
    requires forall x, y | x in R && IsArc(d, vals, M, x, y) :: y in R
    requires forall y | y in R && |d| <= y :: Taken(M, y)
    requires X == set x | x in R && 0 <= x < |d|
    requires V == set y | y in R && |d| <= y
    requires root in X && root !in M
    ensures |V| < |X|
  {
    var g := y => if Taken(M, y) then MateOf(M, y) else 0;
    forall y | y in V ensures g(y) in X - {root} {
      var x := MateOf(M, y);
      assert Edge(d, vals, x, y);
      assert IsArc(d, vals, M, y, x);
    }
    Pigeonhole(V, X - {root}, g);
  }

  /** No two keys share a value. */
  ghost predicate Injective(m: map<int, int>)
  {
    forall a, b | a in m && b in m && a != b :: m[a] != m[b]
  }

  /**
   * Adding value `vals[j]` to the domain of variable `i` adds exactly one
   * arc: `j -> i` when the new edge is matched, `i -> j` otherwise; a
   * matched edge takes both its ends out of the free nodes.
   */
  lemma AddEdge(dd: seq<set<int>>, vals: map<int, int>, M: map<int, int>, i: int, j: int, matched: bool)
    requires Bipartite(dd, vals) && Injective(vals) && IsMatching(dd, vals, M)
    requires 0 <= i < |dd| && j in vals && vals[j] !in dd[i]
    requires matched ==> i !in M && !Taken(M, j)
    ensures var dd' := dd[i := dd[i] + {vals[j]}];
            var M' := if matched then M[i := j] else M;
            IsMatching(dd', vals, M')
            && (forall x, y :: IsArc(dd', vals, M', x, y) <==> IsArc(dd, vals, M, x, y) || (x, y) == (if matched then (j, i) else (i, j)))
            && (forall x :: Free(M', x) <==> Free(M, x) && !(matched && (x == i || x == j)))
  {
    var dd' := dd[i := dd[i] + {vals[j]}];
    var M' := if matched then M[i := j] else M;
    assert forall a, b :: Edge(dd', vals, a, b) <==> Edge(dd, vals, a, b) || (a == i && b == j);
    forall x ensures Free(M', x) <==> Free(M, x) && !(matched && (x == i || x == j)) {
      if matched && Taken(M', x) && x != j {
        var y :| y in M' && M'[y] == x;
        assert y in M && M[y] == x;
      }
      if matched && Taken(M, x) {
        var y :| y in M && M[y] == x;
        assert M'[y] == x;
      }
      if matched && x == j {
        assert i in M' && M'[i] == x;
      }
    }
  }

  /** The arcs of the suffix of `P` from `t - 1` are those of the suffix from `t` and the arc `P[t-1] -> P[t]`. */
  lemma SuffixArcs(P: seq<int>, t: int)
    requires 0 < t < |P|
    ensures Forward(P[t - 1..]) == Forward(P[t..]) + {(P[t - 1], P[t])}
    ensures Backward(P[t - 1..]) == Backward(P[t..]) + {(P[t], P[t - 1])}
  {
    var Q, Q' := P[t - 1..], P[t..];
    forall a ensures a in Forward(Q) <==> a in Forward(Q') + {(P[t - 1], P[t])} {
      if a in Forward(Q) {
        var s :| 0 <= s < |Q| - 1 && a == (Q[s], Q[s + 1]);
        if s > 0 {
          assert a == (Q'[s - 1], Q'[s]);
        }
      }
      if a in Forward(Q') {
        var s :| 0 <= s < |Q'| - 1 && a == (Q'[s], Q'[s + 1]);
        assert a == (Q[s + 1], Q[s + 2]);
      }
      if a == (P[t - 1], P[t]) {
        assert a == (Q[0], Q[1]);
      }
    }
    forall a ensures a in Backward(Q) <==> a in Backward(Q') + {(P[t], P[t - 1])} {
      if a in Backward(Q) {
        var s :| 0 <= s < |Q| - 1 && a == (Q[s + 1], Q[s]);
        if s > 0 {
          assert a == (Q'[s], Q'[s - 1]);
        }
      }
      if a in Backward(Q') {
        var s :| 0 <= s < |Q'| - 1 && a == (Q'[s + 1], Q'[s]);
        assert a == (Q[s + 2], Q[s + 1]);
      }
      if a == (P[t], P[t - 1]) {
        assert a == (Q[1], Q[0]);
      }
    }
  }

  /**
   * Turning round the arc `P[t-1] -> P[t]` extends, by one step towards the
   * start of the path, the suffix of `P` whose arcs are already reversed.
   */
  lemma FlipStep(A0: set<(int, int)>, A: set<(int, int)>, P: seq<int>, t: int)
    requires forall s, u | 0 <= s < u < |P| :: P[s] != P[u]
    requires 0 < t < |P| && A == (A0 - Forward(P[t..])) + Backward(P[t..])
    ensures (A - {(P[t - 1], P[t])}) + {(P[t], P[t - 1])} == (A0 - Forward(P[t - 1..])) + Backward(P[t - 1..])
  {
    SuffixArcs(P, t);
    var Q := P[t..];
    forall s | 0 <= s < |Q| - 1 ensures (Q[s + 1], Q[s]) != (P[t - 1], P[t]) {
      assert Q[s + 1] == P[t + s + 1];
    }
    var e, e' := (P[t - 1], P[t]), (P[t], P[t - 1]);
    assert e !in Backward(Q);
    assert forall a :: a in (A - {e}) + {e'} <==> a in (A0 - Forward(P[t - 1..])) + Backward(P[t - 1..]);
  }

  /**
   * Augmenting along `P` and reversing its arcs keeps the oriented graph in
   * step with the matching: the arcs become those of the augmented matching,
   * which matches `P[0]` in addition, and its two ends stop being free.
   */
  lemma AugmentedGraph(d: seq<set<int>>, vals: map<int, int>, M: map<int, int>, P: seq<int>, A0: set<(int, int)>)
    requires Bipartite(d, vals) && IsMatching(d, vals, M) && AugmentingPath(d, vals, M, P)
    requires forall x, y :: (x, y) in A0 <==> IsArc(d, vals, M, x, y)
    ensures IsMatching(d, vals, Augment(M, P))
    ensures forall x :: x in Augment(M, P) <==> x in M || x == P[0]
    ensures forall x, y :: (x, y) in (A0 - Forward(P)) + Backward(P) <==> IsArc(d, vals, Augment(M, P), x, y)
    ensures forall x :: Free(Augment(M, P), x) <==> Free(M, x) && x != P[0] && x != P[|P| - 1]
  {
    AugmentIsMatching(d, vals, M, P);
    AugmentTaken(d, vals, M, P);
    forall x, y ensures (x, y) in (A0 - Forward(P)) + Backward(P) <==> IsArc(d, vals, Augment(M, P), x, y) {
      AugmentArcs(d, vals, M, P, x, y);
    }
  }

  /** A matching that covers every variable assigns them pairwise different values of their domains. */
  lemma CompleteMatchingIsSolution(d: seq<set<int>>, vals: map<int, int>, M: map<int, int>)
    requires Injective(vals) && IsMatching(d, vals, M) && forall i | 0 <= i < |d| :: i in M
    ensures HasSolution(d)
  {
    var s := seq(|d|, i requires 0 <= i < |d| => vals[M[i]]);
    assert IsSolution(d, s);
  }

  /** Keeping each variable's mate keeps a solution: the matching itself. */
  lemma KeepsMatching(d: seq<set<int>>, d': seq<set<int>>, vals: map<int, int>, M: map<int, int>)
    requires Injective(vals) && IsMatching(d, vals, M) && forall i | 0 <= i < |d| :: i in M
    requires |d'| == |d| && forall i | 0 <= i < |d| :: vals[M[i]] in d'[i]
    ensures HasSolution(d')
  {
    CompleteMatchingIsSolution(d', vals, M);
  }

  /** The only arc into a variable comes from its matched value node. */
  lemma ArcsIntoVariable(d: seq<set<int>>, vals: map<int, int>, M: map<int, int>, i: int, x: int)
    requires Bipartite(d, vals) && IsMatching(d, vals, M) && 0 <= i < |d|
    ensures IsArc(d, vals, M, x, i) <==> i in M && M[i] == x
  {
  }
}

/**
 * The fast generalised arc consistency filter for `allDifferent`
 * (`AlgoAllDiffACFast`, after Zhang et al., IJCAI-18). After a maximum
 * matching has been found, `distinguish` marks, starting from the free value
 * nodes, every node reachable backwards by alternating paths: a value marks
 * the variables with an unmatched edge to it, a variable marks its mate.
 * `filter` then removes the values that a marked variable has outside the
 * marked nodes, and, between unmarked nodes, the values whose node lies in
 * another strongly connected component than the variable.
 */
module AllDiffACFastFilter {
  import opened IntSets
  import opened Domains
  import opened Digraphs
  import opened ValueIds
  import opened ValueGraphs
  import opened Matchers

  /** Every arc that ends at a value node starts at a variable. */
  ghost predicate ArcsIntoValues(g: Digraph, n: int, n2: int)
  {
    forall x, v | (x, v) in g.arcs && n <= v < n2 :: 0 <= x < n
  }

  /** Every value node of `D` has all its predecessors in `D`. */
  ghost predicate ValuesExpanded(g: Digraph, n: int, n2: int, D: set<int>)
  {
    forall x, v | v in D && n <= v < n2 && (x, v) in g.arcs :: x in D
  }

  /**
   * `D` is closed under the steps of `distinguish`: it holds every free
   * value node, every predecessor of its value nodes, and the mate `m[y]`
   * of each of its variables `y`.
   */
  ghost predicate AltClosed(g: Digraph, m: seq<int>, F: set<int>, n: int, n2: int, D: set<int>)
  {
    (forall v | v in F && n <= v < n2 :: v in D)
    && ValuesExpanded(g, n, n2, D)
    && (forall y | 0 <= y < |m| && y in D :: m[y] in D)
  }

  /** Every set closed under the steps of `distinguish` that contains `D0` contains `D`. */
  ghost predicate Forced(g: Digraph, m: seq<int>, F: set<int>, n: int, n2: int, D0: set<int>, D: set<int>)
  {
    forall T | AltClosed(g, m, F, n, n2, T) && D0 <= T :: D <= T
  }

  /** What `distinguish` computes: the least set closed under its steps. */
  ghost predicate Distinguished(g: Digraph, m: seq<int>, F: set<int>, n: int, n2: int, D: set<int>)
  {
    AltClosed(g, m, F, n, n2, D) && Forced(g, m, F, n, n2, {}, D)
  }

  /**
   * The queue `fifo` of `distinguish`: its first `last` slots hold distinct
   * variables of `D`, and every variable of `D` is among them.
   */
  ghost predicate Queue(q: seq<int>, n: int, D: set<int>, last: int)
  {
    0 <= last <= n && last <= |q|
    && (forall t | 0 <= t < last :: 0 <= q[t] < n && q[t] in D)
    && (forall s, t | 0 <= s < t < last :: q[s] != q[t])
    && (forall x | 0 <= x < n && x in D :: x in q[..last])
  }

  /** The mates of the first `first` queued variables are in `D`. */
  ghost predicate Processed(q: seq<int>, m: seq<int>, D: set<int>, first: int)
  {
    0 <= first <= |q| && forall t | 0 <= t < first :: 0 <= q[t] < |m| && m[q[t]] in D
  }

  /** A variable not yet in `D` fits in the queue: fewer than `n` variables are queued. */
  lemma RoomInQueue(q: seq<int>, n: int, D: set<int>, last: int, x: int)
    requires Queue(q, n, D, last) && 0 <= x < n && x !in D
    ensures last < n
  {
    var f := t => if 0 <= t < |q| then q[t] else -1;
    var S, T := Range(0, last), Range(0, n) - {x};
    forall t | t in S ensures f(t) in T {
      assert q[t] in D;
    }
    Pigeonhole(S, T, f);
    assert Range(0, n) == T + {x};
  }

  /** Pushing a variable not yet in `D` onto the back of the queue. */
  lemma QueuePush(q: seq<int>, n: int, D: set<int>, last: int, x: int)
    requires Queue(q, n, D, last) && 0 <= x < n && x !in D && last < |q| && last < n
    ensures Queue(q[last := x], n, D + {x}, last + 1)
    ensures q[last := x][..last] == q[..last]
  {
    var q' := q[last := x];
    assert q'[..last + 1] == q[..last] + [x];
    forall y | 0 <= y < n && y in D + {x} ensures y in q'[..last + 1] {
      if y != x {
        assert y in q[..last];
      }
    }
  }

  /** Marking more nodes, and writing only past the first `first` entries, keeps those entries processed. */
  lemma ProcessedKeep(q: seq<int>, q': seq<int>, m: seq<int>, D1: set<int>, D: set<int>, first: int)
    requires Processed(q, m, D1, first) && first <= |q'| && q'[..first] == q[..first] && D1 <= D
    ensures Processed(q', m, D, first)
  {
    forall t | 0 <= t < first ensures 0 <= q'[t] < |m| && m[q'[t]] in D {
      assert q'[t] == q'[..first][t] == q[..first][t] == q[t];
    }
  }

  /** Marking the value node `v` with all its predecessors keeps the marked values expanded. */
  lemma ExpandedStep(g: Digraph, n: int, n2: int, D1: set<int>, v: int, D: set<int>)
    requires ArcsIntoValues(g, n, n2) && ValuesExpanded(g, n, n2, D1) && n <= v < n2
    requires forall x :: x in D <==> x in D1 || x == v || (x, v) in g.arcs
    ensures ValuesExpanded(g, n, n2, D)
  {
    forall x, w | w in D && n <= w < n2 && (x, w) in g.arcs ensures x in D {
      assert w in D1 || w == v;
    }
  }

  /** The mates of the variables of a drained queue are in `D`: `D` is closed. */
  lemma Drained(q: seq<int>, g: Digraph, m: seq<int>, F: set<int>, n: int, n2: int, D: set<int>, last: int)
    requires Queue(q, n, D, last) && Processed(q, m, D, last) && |m| == n
    requires ValuesExpanded(g, n, n2, D) && forall v | v in F && n <= v < n2 :: v in D
    ensures AltClosed(g, m, F, n, n2, D)
  {
    forall y | 0 <= y < |m| && y in D ensures m[y] in D {
      assert y in q[..last];
      var t :| 0 <= t < last && q[t] == y;
    }
  }

  /**
   * One `predece` loop of `distinguish`: every predecessor of the value
   * node `v` that is not yet in `D` joins `D` and the back of the queue.
   */
  method Expand(fifo: array<int>, g: Digraph, n: int, n2: int, v: int, D0: set<int>, last0: int)
    returns (D: set<int>, last: int)
    requires ArcsIntoValues(g, n, n2) && n <= v < n2 && n <= fifo.Length
    requires Queue(fifo[..], n, D0, last0)
    modifies fifo
    ensures forall x :: x in D <==> x in D0 || (x, v) in g.arcs
    ensures Queue(fifo[..], n, D, last) && last0 <= last
    ensures fifo[..last0] == old(fifo[..last0])
  {
    D, last := D0, last0;
    var preds := Pred(g, v);
    while preds != {}
      invariant forall x | x in preds :: (x, v) in g.arcs
      invariant forall x :: x in D <==> x in D0 || ((x, v) in g.arcs && x !in preds)
      invariant Queue(fifo[..], n, D, last) && last0 <= last
      invariant fifo[..last0] == old(fifo[..last0])
      decreases |preds|
    {
      Inhabited(preds);
      var x :| x in preds;
      preds := preds - {x};
      if x !in D {
        ghost var q := fifo[..];
        RoomInQueue(q, n, D, last, x);
        QueuePush(q, n, D, last, x);
        fifo[last] := x;
        assert fifo[..] == q[last := x];
        assert fifo[..last0] == q[..last0] by {
          assert q[last := x][..last][..last0] == q[..last][..last0];
        }
        last := last + 1;
        D := D + {x};
      }
    }
  }

  /** The queue's front moves past a variable whose mate is now in `D`. */
  lemma ProcessedStep(q: seq<int>, q': seq<int>, m: seq<int>, D1: set<int>, D: set<int>, first: int, last: int)
    requires Processed(q, m, D1, first) && 0 <= first < last <= |q| && |q'| == |q|
    requires q'[..last] == q[..last] && 0 <= q[first] < |m| && m[q[first]] in D && D1 <= D
    ensures Processed(q', m, D, first + 1)
  {
    forall t | 0 <= t < first + 1 ensures 0 <= q'[t] < |m| && m[q'[t]] in D {
      assert q'[t] == q'[..last][t] == q[..last][t] == q[t];
    }
  }

  /** Marking the mate of a marked variable, and then its predecessors, marks only forced nodes. */
  lemma ForcedMate(g: Digraph, m: seq<int>, F: set<int>, n: int, n2: int, D0: set<int>, D1: set<int>, y: int, D2: set<int>)
    requires Forced(g, m, F, n, n2, D0, D1) && y in D1 && 0 <= y < |m| && n <= m[y] < n2
    requires forall x :: x in D2 <==> x in D1 || x == m[y] || (x, m[y]) in g.arcs
    ensures Forced(g, m, F, n, n2, D0, D2)
  {
    forall T | AltClosed(g, m, F, n, n2, T) && D0 <= T ensures D2 <= T {
      assert D1 <= T;
      assert m[y] in T;
      forall x | x in D2 ensures x in T {
        if (x, m[y]) in g.arcs {
          assert ValuesExpanded(g, n, n2, T);
        }
      }
    }
  }

  /** Marking a free value node, and then its predecessors, marks only forced nodes. */
  lemma ForcedFree(g: Digraph, m: seq<int>, F: set<int>, n: int, n2: int, D1: set<int>, v: int, D2: set<int>)
    requires Forced(g, m, F, n, n2, {}, D1) && v in F && n <= v < n2
    requires forall x :: x in D2 <==> x in D1 || x == v || (x, v) in g.arcs
    ensures Forced(g, m, F, n, n2, {}, D2)
  {
    forall T | AltClosed(g, m, F, n, n2, T) ensures D2 <= T {
      assert D1 <= T;
      assert v in T;
      forall x | x in D2 ensures x in T {
        if (x, v) in g.arcs {
          assert ValuesExpanded(g, n, n2, T);
        }
      }
    }
  }

  /** What is forced from `D1`, itself forced from `D0`, is forced from `D0`. */
  lemma ForcedTrans(g: Digraph, m: seq<int>, F: set<int>, n: int, n2: int, D0: set<int>, D1: set<int>, D2: set<int>)
    requires Forced(g, m, F, n, n2, D0, D1) && Forced(g, m, F, n, n2, D1, D2)
    ensures Forced(g, m, F, n, n2, D0, D2)
  {
    forall T | AltClosed(g, m, F, n, n2, T) && D0 <= T ensures D2 <= T {
      assert D1 <= T;
    }
  }

  /**
   * One round of the queue loop of `distinguish`: the mate of the variable
   * at `first` joins `D`, and then the predecessors of that mate.
   */
  method Dequeue(fifo: array<int>, g: Digraph, m: seq<int>, ghost F: set<int>, n: int, n2: int,
                 ghost D0: set<int>, D1: set<int>, first: int, last0: int) returns (D: set<int>, last: int)
    requires ArcsIntoValues(g, n, n2) && n <= fifo.Length && |m| == n
    requires forall y | 0 <= y < n :: n <= m[y] < n2
    requires Queue(fifo[..], n, D1, last0) && 0 <= first < last0 && Processed(fifo[..], m, D1, first)
    requires ValuesExpanded(g, n, n2, D1) && Forced(g, m, F, n, n2, D0, D1)
    modifies fifo
    ensures D1 <= D && Queue(fifo[..], n, D, last) && last0 <= last && Processed(fifo[..], m, D, first + 1)
    ensures ValuesExpanded(g, n, n2, D) && Forced(g, m, F, n, n2, D0, D)
  {
    ghost var q := fifo[..];
    var y := fifo[first];
    var v := m[y];
    D := D1 + {v};
    D, last := Expand(fifo, g, n, n2, v, D, last0);
    ForcedMate(g, m, F, n, n2, D0, D1, y, D);
    ExpandedStep(g, n, n2, D1, v, D);
    ProcessedStep(q, fifo[..], m, D1, D, first, last0);
  }

  /**
   * The queue loop of `distinguish`: the mate of each queued variable joins
   * `D`, and then the predecessors of that mate, until the queue is empty.
   */
  method Spread(fifo: array<int>, g: Digraph, m: seq<int>, ghost F: set<int>, n: int, n2: int,
                D0: set<int>, first0: int, last0: int) returns (D: set<int>, last: int)
    requires ArcsIntoValues(g, n, n2) && n <= fifo.Length && |m| == n
    requires forall y | 0 <= y < n :: n <= m[y] < n2
    requires Queue(fifo[..], n, D0, last0) && 0 <= first0 <= last0 && Processed(fifo[..], m, D0, first0)
    requires ValuesExpanded(g, n, n2, D0)
    modifies fifo
    ensures D0 <= D && Queue(fifo[..], n, D, last) && Processed(fifo[..], m, D, last)
    ensures ValuesExpanded(g, n, n2, D) && Forced(g, m, F, n, n2, D0, D)
  {
    D, last := D0, last0;
    var first := first0;
    while first != last
      invariant first0 <= first <= last
      invariant D0 <= D && Queue(fifo[..], n, D, last) && Processed(fifo[..], m, D, first)
      invariant ValuesExpanded(g, n, n2, D) && Forced(g, m, F, n, n2, D0, D)
      decreases n - first
    {
      D, last := Dequeue(fifo, g, m, F, n, n2, D0, D, first, last);
      first := first + 1;
    }
  }

  /**
   * The loops of `distinguish`: from each free value node in increasing
   * order, the value and its predecessors are marked, and then, through the
   * queue, the mate of each newly marked variable and that mate's
   * predecessors.
   */
  method Mark(fifo: array<int>, g: Digraph, m: seq<int>, F: set<int>, n: int, n2: int) returns (D: set<int>)
    requires ArcsIntoValues(g, n, n2) && 0 <= n <= fifo.Length && |m| == n
    requires forall y | 0 <= y < n :: n <= m[y] < n2
    requires forall x | x in F :: 0 <= x
    modifies fifo
    ensures Distinguished(g, m, F, n, n2, D)
  {
    D := {};
    var first, last := 0, 0;
    var i := NextSetBit(F, n);
    while n <= i < n2
      invariant first == last && Queue(fifo[..], n, D, last) && Processed(fifo[..], m, D, last)
      invariant ValuesExpanded(g, n, n2, D) && Forced(g, m, F, n, n2, {}, D)
      invariant i == -1 || (n <= i && i in F)
      invariant forall v | v in F && n <= v < n2 && (i == -1 || v < i) :: v in D
      decreases if n <= i then n2 - i else 0
    {
      ghost var D1, q1 := D, fifo[..];
      D := D + {i};
      D, last := Expand(fifo, g, n, n2, i, D, last);
      ForcedFree(g, m, F, n, n2, D1, i, D);
      ProcessedKeep(q1, fifo[..], m, D1, D, first);
      ExpandedStep(g, n, n2, D1, i, D);
      ghost var D2 := D;
      D, last := Spread(fifo, g, m, F, n, n2, D, first, last);
      ForcedTrans(g, m, F, n, n2, {}, D2, D);
      first := last;
      i := NextSetBit(F, i + 1);
    }
    Drained(fifo[..], g, m, F, n, n2, D, last);
  }

  /**
   * After a successful matching phase, arcs into value nodes come from
   * variables, and the free nodes are node numbers.
   */
  lemma MatchedGraph(d: seq<set<int>>, vals: map<int, int>, M: map<int, int>, g: Digraph, F: set<int>, n2: int)
    requires Bipartite(d, vals) && IsMatching(d, vals, M)
    requires forall x, y :: (x, y) in g.arcs <==> IsArc(d, vals, M, x, y)
    requires forall x :: x in F <==> 0 <= x < n2 && Free(M, x)
    ensures ArcsIntoValues(g, |d|, n2) && forall x | x in F :: 0 <= x
  {
  }

  /**
   * After a complete matching, a variable is marked exactly when its mate
   * is: no other marked variable has that mate, and the mate is not free.
   */
  lemma MarkedMates(g: Digraph, m: seq<int>, F: set<int>, n: int, n2: int, D: set<int>, i: int)
    requires Distinguished(g, m, F, n, n2, D) && ArcsIntoValues(g, n, n2) && |m| == n && 0 <= i < n
    requires forall y | 0 <= y < n :: n <= m[y] < n2 && m[y] !in F
    requires forall y, z | 0 <= y < n && 0 <= z < n && y != z :: m[y] != m[z]
    ensures m[i] in D <==> i in D
  {
    if i !in D {
      var T := D - {m[i]};
      assert ValuesExpanded(g, n, n2, T) by {
        forall x, v | v in T && n <= v < n2 && (x, v) in g.arcs ensures x in T {
          assert x in D;
        }
      }
      assert AltClosed(g, m, F, n, n2, T);
      assert D <= T;
    }
  }

  /**
   * The facts of a complete matching `M` (also held as the array `m`) on
   * the domains `d` that the first-kind lemmas use.
   */
  ghost predicate CompleteMatching(d: seq<set<int>>, ids: map<int, int>, vals: map<int, int>, M: map<int, int>,
                                   g: Digraph, F: set<int>, m: seq<int>, n2: int)
  {
    |m| == |d| && (forall i | 0 <= i < |d| :: i in M && M[i] == m[i])
    && IsMatching(d, vals, M)
    && (forall k | k in ids :: ids[k] in vals && vals[ids[k]] == k)
    && (forall j | j in vals :: |d| <= j < n2)
    && (forall i | 0 <= i < |d| :: d[i] <= ids.Keys)
    && (forall x, y :: (x, y) in g.arcs <==> IsArc(d, vals, M, x, y))
    && (forall x :: x in F <==> 0 <= x < n2 && Free(M, x))
  }

  /** The mates of a complete matching are value nodes in `n .. n2-1`, pairwise different, none of them free. */
  lemma CompleteMates(d: seq<set<int>>, ids: map<int, int>, vals: map<int, int>, M: map<int, int>,
                      g: Digraph, F: set<int>, m: seq<int>, n2: int)
    requires CompleteMatching(d, ids, vals, M, g, F, m, n2)
    ensures ArcsIntoValues(g, |d|, n2)
    ensures forall y | 0 <= y < |d| :: |d| <= m[y] < n2 && m[y] !in F
    ensures forall y, z | 0 <= y < |d| && 0 <= z < |d| && y != z :: m[y] != m[z]
  {
    forall y | 0 <= y < |d| ensures |d| <= m[y] < n2 && m[y] !in F {
      assert Edge(d, vals, y, M[y]);
      assert Taken(M, m[y]);
    }
    MatchedGraph(d, vals, M, g, F, n2);
  }

  /** The values of an unmarked variable are unmarked: its mate is, and any other value would mark it. */
  lemma UnmarkedDomain(d: seq<set<int>>, ids: map<int, int>, vals: map<int, int>, M: map<int, int>,
                       g: Digraph, F: set<int>, m: seq<int>, n2: int, D: set<int>, y: int, k: int)
    requires CompleteMatching(d, ids, vals, M, g, F, m, n2) && Distinguished(g, m, F, |d|, n2, D)
    requires 0 <= y < |d| && y !in D && k in d[y]
    ensures ids[k] !in D
  {
    CompleteMates(d, ids, vals, M, g, F, m, n2);
    MarkedMates(g, m, F, |d|, n2, D, y);
    var j := ids[k];
    if j != m[y] {
      assert IsArc(d, vals, M, y, j);
      assert (y, j) in g.arcs;
    }
  }

  /** An unmarked value node is the mate of an unmarked variable: it is not free, so it is matched. */
  lemma UnmarkedValue(d: seq<set<int>>, ids: map<int, int>, vals: map<int, int>, M: map<int, int>,
                      g: Digraph, F: set<int>, m: seq<int>, n2: int, D: set<int>, v: int)
    requires CompleteMatching(d, ids, vals, M, g, F, m, n2) && Distinguished(g, m, F, |d|, n2, D)
    requires v in vals && v !in D
    ensures exists z | 0 <= z < |d| && z !in D :: m[z] == v
  {
    assert v !in F;
    assert !Free(M, v);
    var z := MateOf(M, v);
    assert z !in D;
  }

  /**
   * The removals of the first kind lose no solution: in every assignment
   * of pairwise different values, a marked variable takes a marked value.
   */
  lemma FirstKindSound(d: seq<set<int>>, ids: map<int, int>, vals: map<int, int>, M: map<int, int>,
                       g: Digraph, F: set<int>, m: seq<int>, n2: int, D: set<int>, s: seq<int>)
    requires CompleteMatching(d, ids, vals, M, g, F, m, n2) && Distinguished(g, m, F, |d|, n2, D)
    requires IsSolution(d, s)
    ensures forall i | 0 <= i < |d| && i in D :: ids[s[i]] in D
  {
    UnmarkedClosed(d, ids, vals, M, g, F, m, n2, D);
    MarkedValues(d, ids, vals, m, D, s);
  }

  /** Unmarked variables have only unmarked values, and each unmarked value is the mate of an unmarked variable. */
  lemma UnmarkedClosed(d: seq<set<int>>, ids: map<int, int>, vals: map<int, int>, M: map<int, int>,
                       g: Digraph, F: set<int>, m: seq<int>, n2: int, D: set<int>)
    requires CompleteMatching(d, ids, vals, M, g, F, m, n2) && Distinguished(g, m, F, |d|, n2, D)
    ensures forall y, k | 0 <= y < |d| && y !in D && k in d[y] :: k in ids && ids[k] !in D
    ensures forall v | v in vals && v !in D :: 0 <= Owner(m, v) < |d| && Owner(m, v) !in D && m[Owner(m, v)] == v
  {
    forall y, k | 0 <= y < |d| && y !in D && k in d[y] ensures k in ids && ids[k] !in D {
      UnmarkedDomain(d, ids, vals, M, g, F, m, n2, D, y, k);
    }
    forall v | v in vals && v !in D ensures 0 <= Owner(m, v) < |d| && Owner(m, v) !in D && m[Owner(m, v)] == v {
      UnmarkedValue(d, ids, vals, M, g, F, m, n2, D, v);
      CompleteMates(d, ids, vals, M, g, F, m, n2);
      var z :| 0 <= z < |d| && z !in D && m[z] == v;
      OwnerOf(m, z);
    }
  }

  /**
   * The counting half of `FirstKindSound`: the unmarked variables take
   * pairwise different unmarked values, each the mate of an unmarked
   * variable, so they take all those mates; a marked variable with an
   * unmarked value would make one value more than there are mates.
   */
  lemma MarkedValues(d: seq<set<int>>, ids: map<int, int>, vals: map<int, int>, m: seq<int>, D: set<int>, s: seq<int>)
    requires |m| == |d| && IsSolution(d, s)
    requires forall k | k in ids :: ids[k] in vals && vals[ids[k]] == k
    requires forall y, k | 0 <= y < |d| && y !in D && k in d[y] :: k in ids && ids[k] !in D
    requires forall v | v in vals && v !in D :: 0 <= Owner(m, v) < |d| && Owner(m, v) !in D && m[Owner(m, v)] == v
    requires forall i | 0 <= i < |d| :: s[i] in ids
    ensures forall i | 0 <= i < |d| && i in D :: ids[s[i]] in D
  {
    var n := |d|;
    SolutionIds(d, ids, vals, s);
    forall i | 0 <= i < n && i in D ensures ids[s[i]] in D {
      if ids[s[i]] !in D {
        var U := set y | 0 <= y < n && y !in D;
        forall y {:trigger OwnerOfValue(m, ids, s, y)} | 0 <= y < n && (y !in D || y == i)
          ensures var o := OwnerOfValue(m, ids, s, y); 0 <= o < n && o !in D && m[o] == ids[s[y]]
        {
          if y != i {
            assert s[y] in d[y];
          }
        }
        var w := y => OwnerOfValue(m, ids, s, y);
        forall y, z | y in U + {i} && z in U + {i} && y != z ensures w(y) != w(z) {
          assert ids[s[y]] != ids[s[z]];
        }
        InjectionInto(U, i, w);
        assert false;
      }
    }
  }

  /** In an assignment of pairwise different values, the variables have pairwise different value nodes. */
  lemma SolutionIds(d: seq<set<int>>, ids: map<int, int>, vals: map<int, int>, s: seq<int>)
    requires IsSolution(d, s) && forall i | 0 <= i < |d| :: s[i] in ids
    requires forall k | k in ids :: ids[k] in vals && vals[ids[k]] == k
    ensures forall y, z | 0 <= y < |d| && 0 <= z < |d| && y != z :: ids[s[y]] != ids[s[z]]
  {
    forall y, z | 0 <= y < |d| && 0 <= z < |d| && y != z ensures ids[s[y]] != ids[s[z]] {
      assert s[y] in ids && s[z] in ids;
      assert vals[ids[s[y]]] == s[y] && vals[ids[s[z]]] == s[z];
      if y < z {
        assert s[y] != s[z];
      } else {
        assert s[z] != s[y];
      }
    }
  }

  /** The variable whose mate is the value that `s` gives variable `y`. */
  ghost function OwnerOfValue(m: seq<int>, ids: map<int, int>, s: seq<int>, y: int): int
  {
    if 0 <= y < |s| && s[y] in ids then Owner(m, ids[s[y]]) else -1
  }

  /** The variable whose mate is `v`, when there is one. */
  ghost function Owner(m: seq<int>, v: int): int
  {
    if exists y | 0 <= y < |m| :: m[y] == v then
      var y :| 0 <= y < |m| && m[y] == v; y
    else
      -1
  }

  /** When `m` is one-to-one, the owner of the mate of `y` is `y`. */
  lemma OwnerOf(m: seq<int>, y: int)
    requires 0 <= y < |m| && forall x, z | 0 <= x < |m| && 0 <= z < |m| && x != z :: m[x] != m[z]
    ensures Owner(m, m[y]) == y
  {
  }

  /** A pair of the first kind, for the marks `D`: the variable is marked and the value is not. */
  ghost predicate FirstKindOf(D: set<int>, i: int, j: int)
  {
    i in D && j !in D
  }

  /** A pair of the second kind, for the marks `D` and the component ids `ns`: both unmarked, in different components. */
  ghost predicate SecondKindOf(D: set<int>, ns: seq<int>, i: int, j: int)
  {
    i !in D && j !in D && 0 <= i < |ns| && 0 <= j < |ns| && ns[i] != ns[j]
  }

  /** Value `x` of variable `i` forms a pair of the first or the second kind. */
  ghost predicate CutOf(D: set<int>, ns: seq<int>, ids: map<int, int>, i: int, x: int)
  {
    x in ids && (FirstKindOf(D, i, ids[x]) || SecondKindOf(D, ns, i, ids[x]))
  }

  /**
   * What the loop over the values of variable `i` has left of `dom` once it
   * has reached `k`: the values that form no pair to cut, those from `k` on,
   * and the mate `m`; once the mate's pair of the second kind is met, the
   * mate alone.
   */
  ghost predicate Scanned(i: int, dom: set<int>, ids: map<int, int>, mate: int, m: int, D: set<int>, ns: seq<int>,
                          k: int, r: set<int>)
  {
    forall x :: x in r <==> x in dom && (k <= x || x == m || !CutOf(D, ns, ids, i, x))
                             && (SecondKindOf(D, ns, i, mate) && m < k ==> x == m)
  }

  /** A value `k` that forms no pair to cut stays, and the loop moves on to the next value `k'`. */
  lemma ScanKeep(i: int, dom: set<int>, ids: map<int, int>, mate: int, m: int, D: set<int>, ns: seq<int>,
                 k: int, r: set<int>, k': int)
    requires Scanned(i, dom, ids, mate, m, D, ns, k, r) && m in r && m in ids && ids[m] == mate
    requires k in r && !CutOf(D, ns, ids, i, k)
    requires k < k' && forall x | x in r && k < x :: k' <= x
    ensures Scanned(i, dom, ids, mate, m, D, ns, k', r)
  {
    forall x ensures x in r <==> x in dom && (k' <= x || x == m || !CutOf(D, ns, ids, i, x))
                                 && (SecondKindOf(D, ns, i, mate) && m < k' ==> x == m) {
      if k < m {
        assert k' <= m;
      }
    }
  }

  /** A value `k` other than the mate that forms a pair to cut is removed, and the loop moves on. */
  lemma ScanCut(i: int, dom: set<int>, ids: map<int, int>, mate: int, m: int, D: set<int>, ns: seq<int>,
                k: int, r: set<int>, k': int)
    requires Scanned(i, dom, ids, mate, m, D, ns, k, r) && m in r
    requires k in r && k != m && CutOf(D, ns, ids, i, k)
    requires k < k' && forall x | x in r - {k} && k < x :: k' <= x
    ensures Scanned(i, dom, ids, mate, m, D, ns, k', r - {k})
  {
    forall x ensures x in r - {k} <==> x in dom && (k' <= x || x == m || !CutOf(D, ns, ids, i, x))
                                       && (SecondKindOf(D, ns, i, mate) && m < k' ==> x == m) {
      if k < m {
        assert m in r - {k};
      }
      if k < x {
        assert x in r - {k} ==> k' <= x;
      }
    }
  }

  /** The mate forming a pair of the second kind instantiates the variable, and the loop ends. */
  lemma ScanMate(i: int, dom: set<int>, ids: map<int, int>, mate: int, m: int, D: set<int>, ns: seq<int>,
                 k: int, r: set<int>)
    requires Scanned(i, dom, ids, mate, m, D, ns, k, r) && m in dom && m < MAX_VALUE
    requires SecondKindOf(D, ns, i, mate)
    ensures Scanned(i, dom, ids, mate, m, D, ns, MAX_VALUE, {m})
  {
  }

  /** Past the last value, the loop has left what `filter` keeps. */
  lemma ScanEnd(i: int, dom: set<int>, ids: map<int, int>, mate: int, m: int, D: set<int>, ns: seq<int>,
                k: int, r: set<int>)
    requires Scanned(i, dom, ids, mate, m, D, ns, k, r) && m in r && m in ids && ids[m] == mate
    requires (i in D ==> mate in D) && m < k && forall x | x in dom :: x < k
    ensures SecondKindOf(D, ns, i, mate) ==> r == {m}
    ensures !SecondKindOf(D, ns, i, mate) ==> forall x :: x in r <==> x in dom && !CutOf(D, ns, ids, i, x)
  {
    if SecondKindOf(D, ns, i, mate) {
      assert forall x :: x in r <==> x == m;
    }
  }

  /**
   * The inner loop of `filter` on variable `i`, whose domain `dom` has two
   * values or more: the values in increasing order; a pair of the first
   * kind is removed; a pair of the second kind is removed, or, when the
   * value is the mate `m` (node `mate`), instantiated, which ends the loop.
   * The mate of a marked variable is marked, so the mate is never removed
   * and neither step can fail.
   */
  method ScanVariable(i: int, dom: set<int>, ids: map<int, int>, mate: int, ghost m: int, D: set<int>, ns: seq<int>)
    returns (r: set<int>, changed: bool)
    requires IsDomain(dom) && dom <= ids.Keys && m in dom && ids[m] == mate
    requires forall x | x in dom && ids[x] == mate :: x == m
    requires i in D ==> mate in D
    ensures m in r && r <= dom
    ensures SecondKindOf(D, ns, i, mate) ==> r == {m}
    ensures !SecondKindOf(D, ns, i, mate) ==> forall x :: x in r <==> x in dom && !CutOf(D, ns, ids, i, x)
    ensures changed <==> r != dom
  {
    r, changed := dom, false;
    var ub := UB(dom);
    var k := LB(dom);
    while k <= ub
      invariant k in r || k == MAX_VALUE
      invariant m in r && r <= dom && IsDomain(r)
      invariant Scanned(i, dom, ids, mate, m, D, ns, k, r)
      invariant changed <==> r != dom
      decreases ub - k
    {
      var j := ids[k];
      if i in D && j !in D {
        assert m != k;
        var o := RemoveValue(r, k);
        assert o.Done? by {
          assert m in r && m != k;
        }
        r, changed := o.value.0, changed || o.value.1;
        var k' := NextValue(r, k);
        ScanCut(i, dom, ids, mate, m, D, ns, k, r + {k}, k');
        k := k';
      } else if i !in D && j !in D && 0 <= i < |ns| && 0 <= j < |ns| && ns[i] != ns[j] {
        if mate == j {
          assert k == m;
          ScanMate(i, dom, ids, mate, m, D, ns, k, r);
          var o := InstantiateTo(r, k);
          assert o.Done?;
          r, changed := o.value.0, changed || o.value.1;
          k := MAX_VALUE;
        } else {
          assert k != m;
          var o := RemoveValue(r, k);
          assert o.Done? by {
            assert m in r && m != k;
          }
          r, changed := o.value.0, changed || o.value.1;
          var k' := NextValue(r, k);
          ScanCut(i, dom, ids, mate, m, D, ns, k, r + {k}, k');
          k := k';
        }
      } else {
        var k' := NextValue(r, k);
        ScanKeep(i, dom, ids, mate, m, D, ns, k, r, k');
        k := k';
      }
    }
    ScanEnd(i, dom, ids, mate, m, D, ns, k, r);
  }

  class AllDiffACFast {
    const n: nat
    const n2: nat
    const matcher: Matcher
    /** `distinction`: the nodes `distinguish` marked. */
    var distinction: set<int>
    /** The component of each node, as the component finder reported it. */
    var nodeSCC: seq<int>

    ghost predicate Valid()
      reads this, matcher, matcher.matching
    {
      matcher.Valid() && matcher.n == n && matcher.n2 == n2
    }

    /**
     * The constructor: every value of the initial domains `d0` gets an id
     * in `n .. n2-1`, in the order in which the values are first met, and
     * no variable is matched yet.
     */
    constructor (d0: seq<set<int>>)
      requires AllDomains(d0)
      ensures Valid() && n == |d0|
      ensures matcher.ids.Keys == AllValues(d0) && n2 == n + |matcher.ids.Keys|
      ensures forall v, w | v in matcher.ids && w in matcher.ids :: matcher.ids[v] < matcher.ids[w] <==> MetBefore(d0, v, w)
      ensures forall i | 0 <= i < n :: matcher.matching[i] == -1
      ensures distinction == {}
    {
      var ids, idToVal, top := AssignValueIds(d0);
      n := |d0|;
      n2 := top;
      matcher := new Matcher(|d0|, top, ids, idToVal);
      distinction := {};
      nodeSCC := [];
    }

    /**
     * `distinguish()`: the marked nodes are exactly the least set that
     * holds the free value nodes, the predecessors of its value nodes and
     * the mates of its variables.
     */
    method Distinguish()
      requires Valid() && ArcsIntoValues(matcher.digraph, n, n2)
      requires forall y | 0 <= y < n :: n <= matcher.matching[y] < n2
      requires forall x | x in matcher.free :: 0 <= x
      modifies this`distinction, matcher.fifo
      ensures Distinguished(matcher.digraph, matcher.matching[..], matcher.free, n, n2, distinction)
    {
      distinction := Mark(matcher.fifo, matcher.digraph, matcher.matching[..], matcher.free, n, n2);
    }
    /** A pair of the first kind: variable `i` is marked and value node `j` is not. */
    ghost predicate FirstKind(i: int, j: int)
      reads this
    {
      FirstKindOf(distinction, i, j)
    }

    /** A pair of the second kind: neither node is marked, and they lie in different components. */
    ghost predicate SecondKind(i: int, j: int)
      reads this
    {
      SecondKindOf(distinction, nodeSCC, i, j)
    }

    /**
     * `r` is what `filter` leaves of the domain `dom` of variable `i`: an
     * instantiated variable is skipped; when the mate of `i` forms a pair of
     * the second kind with `i`, the mate alone; otherwise the values that
     * form a pair of neither kind with `i`.
     */
    ghost predicate Pruned(i: int, dom: set<int>, r: set<int>)
      reads this, matcher, matcher.matching
      requires 0 <= i < matcher.matching.Length
    {
      var j := matcher.matching[i];
      j in matcher.vals
      && if IsInstantiated(dom) then r == dom
         else if SecondKind(i, j) then r == {matcher.vals[j]}
         else forall k :: k in r <==> k in dom && k in matcher.ids
                                      && !FirstKind(i, matcher.ids[k]) && !SecondKind(i, matcher.ids[k])
    }

    /**
     * `propagate()`: the matching phase, then `filter` on the components
     * `ns` that the component finder reports. It fails exactly when the
     * domains admit no assignment of pairwise different values; otherwise
     * the marked nodes are those of `Distinguished`, every domain is pruned
     * as `Pruned` states, the flag tells whether some domain changed, and
     * the matching found is still a solution of the pruned domains. A
     * marked variable keeps every value that some solution gives it.
     */
    method Propagate(d: seq<set<int>>, ns: seq<int>) returns (r: Outcome<(seq<set<int>>, bool)>)
      requires Valid() && |d| == n && DomainsIn(d, matcher.ids) && |ns| == n2
      modifies this`distinction, this`nodeSCC, matcher, matcher.matching, matcher.father, matcher.fifo
      ensures Valid()
      ensures r == Contradiction <==> !HasSolution(d)
      ensures r.Done? ==> Distinguished(matcher.digraph, matcher.matching[..], matcher.free, n, n2, distinction)
      ensures r.Done? ==> |r.value.0| == n && forall i | 0 <= i < n :: Pruned(i, d[i], r.value.0[i])
      ensures r.Done? ==> (r.value.1 <==> r.value.0 != d)
      ensures r.Done? ==> HasSolution(r.value.0)
      ensures r.Done? ==> forall s, i | IsSolution(d, s) && 0 <= i < n && i in distinction :: s[i] in r.value.0[i]
    {
      var ok;
      ghost var M;
      ok, M := matcher.FindMaximumMatching(d);
      if !ok {
        return Contradiction;
      }
      matcher.ValidIds(d);
      MatchedGraph(d, matcher.vals, M, matcher.digraph, matcher.free, n2);
      var d', changed := Filter(d, ns);
      KeepsMatching(d, d', matcher.vals, M);
      assert CompleteMatching(d, matcher.ids, matcher.vals, M, matcher.digraph, matcher.free, matcher.matching[..], n2);
      MarkedKept(d, d', M);
      r := Done((d', changed));
    }

    /** After `filter`, every solution keeps the value of each marked variable. */
    lemma MarkedKept(d: seq<set<int>>, d': seq<set<int>>, M: map<int, int>)
      requires |d| == n == matcher.matching.Length && |d'| == n
      requires CompleteMatching(d, matcher.ids, matcher.vals, M, matcher.digraph, matcher.free, matcher.matching[..], n2)
      requires Distinguished(matcher.digraph, matcher.matching[..], matcher.free, n, n2, distinction)
      requires forall i | 0 <= i < n :: Pruned(i, d[i], d'[i])
      ensures forall s, i | IsSolution(d, s) && 0 <= i < n && i in distinction :: s[i] in d'[i]
    {
      forall s, i | IsSolution(d, s) && 0 <= i < n && i in distinction ensures s[i] in d'[i] {
        FirstKindSound(d, matcher.ids, matcher.vals, M, matcher.digraph, matcher.free, matcher.matching[..], n2, distinction, s);
        assert s[i] in d[i] && s[i] in matcher.ids && matcher.ids[s[i]] in distinction;
        assert !SecondKind(i, matcher.matching[i]) && !FirstKind(i, matcher.ids[s[i]]) && !SecondKind(i, matcher.ids[s[i]]);
        assert Pruned(i, d[i], d'[i]);
        if !IsInstantiated(d[i]) {
          assert forall k :: k in d'[i] <==> (k in d[i] && k in matcher.ids
                                              && !FirstKind(i, matcher.ids[k]) && !SecondKind(i, matcher.ids[k]));
        }
      }
    }

    /**
     * `filter()`: `distinguish`, then the components `ns`, then each
     * variable in turn. A variable's mate is never removed, so the filter
     * never fails.
     */
    method Filter(d: seq<set<int>>, ns: seq<int>) returns (d': seq<set<int>>, changed: bool)
      requires Valid() && |d| == n && AllDomains(d) && forall i | 0 <= i < n :: d[i] <= matcher.ids.Keys
      requires forall i | 0 <= i < n :: matcher.matching[i] in matcher.vals && matcher.vals[matcher.matching[i]] in d[i]
      requires ArcsIntoValues(matcher.digraph, n, n2) && forall x | x in matcher.free :: 0 <= x
      requires |ns| == n2
      modifies this`distinction, this`nodeSCC, matcher.fifo
      ensures Distinguished(matcher.digraph, matcher.matching[..], matcher.free, n, n2, distinction)
      ensures |d'| == n && forall i | 0 <= i < n :: Pruned(i, d[i], d'[i])
      ensures changed <==> d' != d
    {
      Distinguish();
      nodeSCC := ns;
      d', changed := FilterAll(d);
    }

    /** The loop of `filter` over the variables. */
    method FilterAll(d: seq<set<int>>) returns (d': seq<set<int>>, changed: bool)
      requires Valid() && |d| == n && AllDomains(d) && forall i | 0 <= i < n :: d[i] <= matcher.ids.Keys
      requires forall i | 0 <= i < n :: matcher.matching[i] in matcher.vals && matcher.vals[matcher.matching[i]] in d[i]
      requires forall i | 0 <= i < n && i in distinction :: matcher.matching[i] in distinction
      requires |nodeSCC| == n2
      ensures |d'| == n && forall i | 0 <= i < n :: Pruned(i, d[i], d'[i])
      ensures changed <==> d' != d
    {
      d', changed := d, false;
      var i := 0;
      while i < n
        invariant 0 <= i <= n && |d'| == n
        invariant forall x | 0 <= x < i :: Pruned(x, d[x], d'[x])
        invariant forall x | i <= x < n :: d'[x] == d[x]
        invariant changed <==> exists x | 0 <= x < i :: d'[x] != d[x]
      {
        var r, c := FilterVariable(i, d[i]);
        d' := d'[i := r];
        changed := changed || c;
        i := i + 1;
      }
    }

    /**
     * `filter` on variable `i`: an instantiated variable is skipped, the
     * others go through the loop over their values.
     */
    method FilterVariable(i: int, dom: set<int>) returns (r: set<int>, changed: bool)
      requires Valid() && 0 <= i < n && IsDomain(dom) && dom <= matcher.ids.Keys && |nodeSCC| == n2
      requires matcher.matching[i] in matcher.vals && matcher.vals[matcher.matching[i]] in dom
      requires i in distinction ==> matcher.matching[i] in distinction
      ensures Pruned(i, dom, r) && matcher.vals[matcher.matching[i]] in r
      ensures changed <==> r != dom
    {
      var mate := matcher.matching[i];
      ghost var m := matcher.vals[mate];
      assert matcher.ids[m] == mate;
      if IsInstantiated(dom) {
        r, changed := dom, false;
      } else {
        r, changed := ScanVariable(i, dom, matcher.ids, mate, m, distinction, nodeSCC);
      }
    }
  }
}

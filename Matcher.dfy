/**
 * The matching phase shared by the three AllDifferent filters
 * (`findMaximumMatching`, `tryToMatch`, `augmentPath_BFS`): the value graph
 * is rebuilt from the current domains with the previous matching as a warm
 * start, then each free variable is matched along a shortest augmenting path
 * found by breadth-first search, and the call fails when some variable
 * cannot be matched.
 */
module Matchers {
  import opened IntSets
  import opened Domains
  import opened Digraphs
  import opened ValueGraphs

  /** Every domain is a proper domain whose values all have an id. */
  ghost predicate DomainsIn(d: seq<set<int>>, ids: map<int, int>)
  {
    AllDomains(d) && forall i | 0 <= i < |d| :: d[i] <= ids.Keys
  }

  /**
   * A path of the breadth-first search tree from `root` to `y`: it follows
   * arcs, repeats no node, stays inside the visited nodes `R`, and the
   * father links `fa` lead back along it.
   */
  ghost predicate TreePath(d: seq<set<int>>, vals: map<int, int>, M: map<int, int>, root: int, y: int,
                           p: seq<int>, R: set<int>, fa: seq<int>)
  {
    |p| >= 1 && p[0] == root && p[|p| - 1] == y
    && (forall t | 0 <= t < |p| :: p[t] in R && 0 <= p[t] < |fa|)
    && (forall t | 0 <= t < |p| - 1 :: IsArc(d, vals, M, p[t], p[t + 1]))
    && (forall t | 0 < t < |p| :: fa[p[t]] == p[t - 1])
    && (forall s, t | 0 <= s < t < |p| :: p[s] != p[t])
  }

  /**
   * The state of the breadth-first search from `root`: `fi[0 .. last)` is
   * the queue, holding `root` and the nodes of `inS` (the `in` bit set),
   * each once, and none of them but `root` is free; the first `first` of
   * them have been dequeued (`done`); `pos` gives each visited node its
   * place in the queue.
   */
  ghost predicate SearchQueue(n2: int, root: int, free: set<int>, inS: set<int>, fi: seq<int>,
                              first: int, last: int, pos: map<int, int>, done: set<int>)
  {
    |fi| == n2 && 0 <= root < n2
    && 0 <= first <= last <= n2 && root !in inS && fi[0] == root && |inS| == last - 1
    && (forall y | y in inS :: 0 <= y < n2 && y !in free)
    && (forall s, t | 0 <= s < t < last :: fi[s] != fi[t])
    && (forall t | 0 <= t < last :: fi[t] in inS + {root})
    && (forall y | y in inS + {root} :: y in pos && 0 <= pos[y] < last && fi[pos[y]] == y)
    && (forall t | 0 <= t < first :: fi[t] in done)
  }

  /** Every node visited by the search has, in `paths`, its path in the search tree. */
  ghost predicate SearchTree(d: seq<set<int>>, vals: map<int, int>, n2: int, M: map<int, int>, root: int,
                             inS: set<int>, fa: seq<int>, paths: map<int, seq<int>>)
  {
    |fa| == n2
    && forall y | y in inS + {root} :: y in paths && TreePath(d, vals, M, root, y, paths[y], inS + {root}, fa)
  }

  ghost predicate Searching(d: seq<set<int>>, vals: map<int, int>, n2: int, M: map<int, int>, root: int,
                            free: set<int>, inS: set<int>, fa: seq<int>, fi: seq<int>, first: int, last: int,
                            paths: map<int, seq<int>>, pos: map<int, int>, done: set<int>)
  {
    SearchQueue(n2, root, free, inS, fi, first, last, pos, done)
    && SearchTree(d, vals, n2, M, root, inS, fa, paths)
  }

  /** A tree path ending at `x` extends by an arc to a node `y` not yet visited. */
  lemma TreePathExtend(d: seq<set<int>>, vals: map<int, int>, M: map<int, int>, root: int, x: int, y: int,
                       p: seq<int>, R: set<int>, fa: seq<int>)
    requires TreePath(d, vals, M, root, x, p, R, fa)
    requires IsArc(d, vals, M, x, y) && y !in R && 0 <= y < |fa|
    ensures TreePath(d, vals, M, root, y, p + [y], R + {y}, fa[y := x])
  {
    var q := p + [y];
    forall t | 0 < t < |q| ensures fa[y := x][q[t]] == q[t - 1] {
      if t < |p| {
        assert q[t] == p[t] && p[t] in R;
      }
    }
  }

  /** Visiting a new node `y` keeps every tree path already built. */
  lemma TreePathKept(d: seq<set<int>>, vals: map<int, int>, M: map<int, int>, root: int, z: int, x: int, y: int,
                     p: seq<int>, R: set<int>, fa: seq<int>)
    requires TreePath(d, vals, M, root, z, p, R, fa)
    requires y !in R && 0 <= y < |fa|
    ensures TreePath(d, vals, M, root, z, p, R + {y}, fa[y := x])
  {
    forall t | 0 < t < |p| ensures fa[y := x][p[t]] == p[t - 1] {
      assert p[t] in R;
    }
  }

  /** While a node in `[0, n2)` is still unvisited, the queue has room for it. */
  lemma RoomForOne(n2: int, root: int, free: set<int>, inS: set<int>, fi: seq<int>,
                   first: int, last: int, pos: map<int, int>, done: set<int>, y: int)
    requires SearchQueue(n2, root, free, inS, fi, first, last, pos, done)
    requires y !in inS && y != root && 0 <= y < n2
    ensures last < n2
  {
    BoundedCard(inS + {root, y}, n2);
  }

  /** Enqueueing a node `y` that is not free keeps the queue's invariant. */
  lemma QueueStep(n2: int, root: int, free: set<int>, inS: set<int>, fi: seq<int>,
                  first: int, last: int, pos: map<int, int>, done: set<int>, y: int)
    requires SearchQueue(n2, root, free, inS, fi, first, last, pos, done)
    requires y !in inS && y != root && 0 <= y < n2 && y !in free && last < n2
    ensures SearchQueue(n2, root, free, inS + {y}, fi[last := y], first, last + 1, pos[y := last], done)
  {
    assert inS + {y} + {root} == inS + {root} + {y};
    assert |inS + {y}| == |inS| + 1;
  }

  /** Visiting `y` from a visited node `x` extends the search tree. */
  lemma TreeStep(d: seq<set<int>>, vals: map<int, int>, n2: int, M: map<int, int>, root: int,
                 inS: set<int>, fa: seq<int>, paths: map<int, seq<int>>, x: int, y: int)
    requires SearchTree(d, vals, n2, M, root, inS, fa, paths)
    requires x in inS + {root} && IsArc(d, vals, M, x, y)
    requires y !in inS && y != root && 0 <= y < n2
    ensures SearchTree(d, vals, n2, M, root, inS + {y}, fa[y := x], paths[y := paths[x] + [y]])
  {
    var R := inS + {root};
    var paths' := paths[y := paths[x] + [y]];
    assert inS + {y} + {root} == R + {y};
    forall z | z in R + {y}
      ensures z in paths' && TreePath(d, vals, M, root, z, paths'[z], R + {y}, fa[y := x])
    {
      if z == y {
        TreePathExtend(d, vals, M, root, x, y, paths[x], R, fa);
      } else {
        TreePathKept(d, vals, M, root, z, x, y, paths[z], R, fa);
      }
    }
  }

  /** `P` is an augmenting path from `root` to `mate` whose nodes the father links `fa` trace back. */
  ghost predicate Traced(d: seq<set<int>>, vals: map<int, int>, M: map<int, int>, root: int, mate: int,
                         P: seq<int>, fa: seq<int>)
  {
    AugmentingPath(d, vals, M, P) && P[0] == root && P[|P| - 1] == mate
    && (forall t | 0 <= t < |P| :: 0 <= P[t] < |fa|)
    && (forall t | 0 < t < |P| :: fa[P[t]] == P[t - 1])
  }

  /**
   * The visited nodes `inS`, with `root`, are closed under the arcs, none
   * of them but `root` is free, and each was reached by an arc from its
   * father in `fa`.
   */
  ghost predicate Closed(d: seq<set<int>>, vals: map<int, int>, M: map<int, int>, root: int,
                         free: set<int>, inS: set<int>, fa: seq<int>)
  {
    root !in inS
    && (forall x, y | x in inS + {root} && IsArc(d, vals, M, x, y) :: y in inS + {root})
    && (forall y | y in inS :: y !in free && 0 <= y < |fa| && fa[y] in inS + {root}
                               && IsArc(d, vals, M, fa[y], y))
  }

  /** Once every visited node has been dequeued and expanded, the visited nodes are closed. */
  lemma ClosedSearch(d: seq<set<int>>, vals: map<int, int>, n2: int, M: map<int, int>, root: int,
                     free: set<int>, inS: set<int>, fa: seq<int>, fi: seq<int>, last: int,
                     paths: map<int, seq<int>>, pos: map<int, int>, done: set<int>)
    requires Searching(d, vals, n2, M, root, free, inS, fa, fi, last, last, paths, pos, done)
    requires forall x, y | x in done && IsArc(d, vals, M, x, y) :: y in inS + {root}
    ensures Closed(d, vals, M, root, free, inS, fa)
  {
    forall y | y in inS ensures 0 <= y < |fa| && fa[y] in inS + {root} && IsArc(d, vals, M, fa[y], y) {
      var p := paths[y];
      assert TreePath(d, vals, M, root, y, p, inS + {root}, fa);
      assert |p| >= 2 && p[|p| - 1] == y;
      assert fa[y] == p[|p| - 2];
    }
    forall x, y | x in inS + {root} && IsArc(d, vals, M, x, y) ensures y in inS + {root} {
      assert fi[pos[x]] == x;
      assert x in done;
    }
  }

  /** A search-tree path from the free variable `root` to another free node is augmenting, and ends at a value. */
  lemma FoundPath(d: seq<set<int>>, vals: map<int, int>, M: map<int, int>, root: int, y: int,
                  P: seq<int>, R: set<int>, fa: seq<int>)
    requires Bipartite(d, vals) && 0 <= root < |d| && Free(M, root) && Free(M, y) && y != root
    requires TreePath(d, vals, M, root, y, P, R, fa)
    ensures Traced(d, vals, M, root, y, P, fa) && |d| <= y
  {
    assert |P| >= 2;
    assert IsArc(d, vals, M, P[|P| - 2], y);
  }

  /**
   * A failed search from a free variable leaves a set of nodes that breaks
   * Hall's condition, so the domains admit no solution.
   */
  lemma StuckHall(d: seq<set<int>>, ids: map<int, int>, vals: map<int, int>, M: map<int, int>, n2: int,
                  root: int, free: set<int>, inS: set<int>, fa: seq<int>)
    requires Bipartite(d, vals) && Numbered(d, ids, vals) && IsMatching(d, vals, M)
    requires 0 <= root < |d| && Free(M, root) && Closed(d, vals, M, root, free, inS, fa) && |fa| == n2
    requires forall x :: x in free <==> 0 <= x < n2 && Free(M, x)
    ensures !HasSolution(d)
  {
    var R := inS + {root};
    forall x | x in R && x != root && 0 <= x < |d| ensures x in M && M[x] in R {
      assert IsArc(d, vals, M, fa[x], x);
    }
    forall y | y in R && |d| <= y ensures Taken(M, y) {
      assert y in inS && y !in free && 0 <= y < |fa|;
    }
    StuckMeansNoSolution(d, ids, vals, M, R, root);
  }

  /** The predecessors of a variable are exactly its matched value node. */
  lemma ArcsIntoVariableAll(d: seq<set<int>>, vals: map<int, int>, M: map<int, int>, i: int)
    requires Bipartite(d, vals) && IsMatching(d, vals, M) && 0 <= i < |d|
    ensures forall x :: IsArc(d, vals, M, x, i) <==> i in M && M[i] == x
  {
    forall x ensures IsArc(d, vals, M, x, i) <==> i in M && M[i] == x {
      ArcsIntoVariable(d, vals, M, i, x);
    }
  }

  class Matcher {
    /** Number of variables. */
    const n: nat
    /** One past the largest value id. */
    const n2: nat
    /** Value -> node id (`map`). */
    const ids: map<int, int>
    /** Node id -> value, the inverse of `ids`. */
    ghost const vals: map<int, int>
    /** `matching[i]`: the value node matched to variable `i` at the end of the last successful call, or -1. */
    const matching: array<int>
    /** Breadth-first search tree: `father[y]` is the node `y` was reached from. */
    const father: array<int>
    /** Breadth-first search queue. */
    const fifo: array<int>
    /** The oriented value graph. */
    var digraph: Digraph
    /** Nodes no matched edge touches. */
    var free: set<int>
    /** Nodes the last search enqueued (`in`). */
    var inSet: set<int>

    ghost predicate Valid()
      reads this`digraph, matching
    {
      Ids() && WellFormed(digraph) && (forall x | x in digraph.nodes :: 0 <= x < n2)
    }

    /** Array sizes and the id maps, which never change. */
    ghost predicate Shape()
    {
      matching.Length == n && father.Length == n2 && fifo.Length == n2
      && matching != father && matching != fifo && father != fifo
      && n <= n2
      && (forall k | k in ids :: ids[k] in vals && vals[ids[k]] == k)
      && (forall j | j in vals :: n <= j < n2 && vals[j] in ids && ids[vals[j]] == j)
    }

    /** The parts of `Valid` that only the matching array can change: array sizes, the id maps and the last matching. */
    ghost predicate Ids()
      reads matching
    {
      Shape()
      && (forall i | 0 <= i < n :: matching[i] == -1 || n <= matching[i] < n2)
      && (forall i, i' | 0 <= i < n && 0 <= i' < n && i != i' && matching[i] != -1 :: matching[i] != matching[i'])
    }

    /** The graph is the oriented value graph of `d` for matching `M`, and `free` holds the nodes `M` leaves free. */
    ghost predicate State(d: seq<set<int>>, M: map<int, int>)
      reads this`digraph, this`free
    {
      IsMatching(d, vals, M)
      && (forall x, y :: (x, y) in digraph.arcs <==> IsArc(d, vals, M, x, y))
      && (forall x :: x in free <==> 0 <= x < n2 && Free(M, x))
    }

    /** Facts about the value ids that `Valid` implies. */
    lemma ValidIds(d: seq<set<int>>)
      requires Shape() && |d| == n
      ensures Bipartite(d, vals) && Injective(vals)
    {
      forall a, b | a in vals && b in vals && a != b ensures vals[a] != vals[b] {
        assert ids[vals[a]] == a && ids[vals[b]] == b;
      }
    }

    constructor (n: nat, n2: nat, ids: map<int, int>, ghost vals: map<int, int>)
      requires n <= n2
      requires forall k | k in ids :: ids[k] in vals && vals[ids[k]] == k
      requires forall j | j in vals :: n <= j < n2 && vals[j] in ids && ids[vals[j]] == j
      ensures Valid()
      ensures this.n == n && this.n2 == n2 && this.ids == ids && this.vals == vals
      ensures forall i | 0 <= i < n :: matching[i] == -1
      ensures digraph == Digraph({}, {}) && free == {} && inSet == {}
      ensures fresh(matching) && fresh(father) && fresh(fifo)
    {
      this.n, this.n2, this.ids, this.vals := n, n2, ids, vals;
      matching := new int[n](_ => -1);
      father := new int[n2];
      fifo := new int[n2];
      digraph := Digraph({}, {});
      free := {};
      inSet := {};
    }

    /**
     * The rebuild at the start of `findMaximumMatching`: all arcs of the
     * value nodes and variables are cleared, then for each variable and each
     * value of its domain the edge is added, as the arc value -> variable
     * when the value is the variable's previous mate (both ends then stop
     * being free) and as variable -> value otherwise.
     */
    method Rebuild(d: seq<set<int>>) returns (ghost M: map<int, int>)
      requires Valid() && |d| == n && DomainsIn(d, ids)
      modifies this`digraph, this`free
      ensures Valid() && State(d, M)
      ensures forall i :: i in M <==> 0 <= i < n && Edge(d, vals, i, matching[i])
      ensures forall i | i in M :: M[i] == matching[i]
      ensures old(digraph.nodes) <= digraph.nodes
    {
      ClearArcs();
      free := Range(0, n2);
      M := AddVariables(d);
    }

    /** The loop of `removeNode`/`addNode` over the nodes `0 .. n2-1`, which leaves no arc among them. */
    method ClearArcs()
      requires Valid()
      modifies this`digraph
      ensures Valid() && digraph.arcs == {} && digraph.nodes == old(digraph.nodes)
    {
      var i := 0;
      while i < n2
        invariant 0 <= i <= n2 && Valid()
        invariant digraph.nodes == old(digraph.nodes)
        invariant forall a :: a in digraph.arcs <==> a in old(digraph.arcs) && i <= a.0 && i <= a.1
      {
        digraph := ClearArcsOf(digraph, i);
        i := i + 1;
      }
      assert digraph.arcs == {} by {
        assert forall a :: a !in digraph.arcs;
      }
    }

    /** The loop over the variables of the rebuild, from an empty graph with every node free. */
    method AddVariables(d: seq<set<int>>) returns (ghost M: map<int, int>)
      requires Valid() && |d| == n && DomainsIn(d, ids) && digraph.arcs == {} && free == Range(0, n2)
      modifies this`digraph, this`free
      ensures Valid() && State(d, M)
      ensures forall i :: i in M <==> 0 <= i < n && Edge(d, vals, i, matching[i])
      ensures forall i | i in M :: M[i] == matching[i]
      ensures old(digraph.nodes) <= digraph.nodes
    {
      M := map[];
      ghost var dd: seq<set<int>> := seq(n, _ => {});
      ValidIds(d);
      var i := 0;
      while i < n
        invariant 0 <= i <= n && Valid()
        invariant |dd| == n && forall j | 0 <= j < n :: dd[j] == if j < i then d[j] else {}
        invariant old(digraph.nodes) <= digraph.nodes
        invariant State(dd, M)
        invariant forall x :: x in M <==> 0 <= x < i && Edge(d, vals, x, matching[x])
        invariant forall x | x in M :: M[x] == matching[x]
      {
        M, dd := AddVariable(d, i, M, dd);
        i := i + 1;
      }
      assert dd == d;
    }

    /** The inner loop of the rebuild: the edges of variable `i`, in increasing order of value. */
    method AddVariable(d: seq<set<int>>, i: int, ghost M0: map<int, int>, ghost dd0: seq<set<int>>)
      returns (ghost M: map<int, int>, ghost dd: seq<set<int>>)
      requires Valid() && |d| == n && DomainsIn(d, ids) && 0 <= i < n
      requires |dd0| == n && dd0[i] == {} && State(dd0, M0)
      requires forall x | x in M0 :: x < i && M0[x] == matching[x]
      modifies this`digraph, this`free
      ensures Valid() && old(digraph.nodes) <= digraph.nodes
      ensures dd == dd0[i := d[i]] && State(dd, M)
      ensures forall x :: x in M <==> x in M0 || (x == i && Edge(d, vals, i, matching[i]))
      ensures forall x | x in M :: M[x] == matching[x]
    {
      ValidIds(d);
      M, dd := M0, dd0;
      var ub := UB(d[i]);
      var mate := matching[i];
      var k := LB(d[i]);
      while k <= ub
        invariant k in d[i] || k == MAX_VALUE
        invariant Valid() && old(digraph.nodes) <= digraph.nodes
        invariant |dd| == n && forall j | 0 <= j < n && j != i :: dd[j] == dd0[j]
        invariant forall x :: x in dd[i] <==> x in d[i] && x < k
        invariant State(dd, M)
        invariant forall x :: x in M <==> x in M0 || (x == i && Edge(dd, vals, i, mate))
        invariant forall x | x in M :: M[x] == matching[x]
        decreases ub - k
      {
        M, dd := AddValue(d, i, k, M, dd);
        k := NextValue(d[i], k);
      }
      ghost var a, b := dd[i], d[i];
      assert forall x :: x in a <==> x in b;
      assert a == b;
    }
 
    /** One turn of the rebuild's inner loop: the edge between variable `i` and value `k`. */
    method AddValue(d: seq<set<int>>, i: int, k: int, ghost M0: map<int, int>, ghost dd0: seq<set<int>>)
      returns (ghost M: map<int, int>, ghost dd: seq<set<int>>)
      requires Valid() && |d| == n && DomainsIn(d, ids) && 0 <= i < n && k in d[i]
      requires |dd0| == n && k !in dd0[i] && State(dd0, M0)
      requires forall x | x in M0 :: M0[x] == matching[x]
      modifies this`digraph, this`free
      ensures Valid() && old(digraph.nodes) <= digraph.nodes
      ensures dd == dd0[i := dd0[i] + {k}] && State(dd, M)
      ensures M == if matching[i] == ids[k] then M0[i := ids[k]] else M0
    {
      ValidIds(d);
      var mate := matching[i];
      var j := ids[k];
      if mate == j {
        AddEdge(dd0, vals, M0, i, j, true);
        digraph := AddArc(digraph, j, i);
        free := free - {i, j};
        M := M0[i := j];
      } else {
        AddEdge(dd0, vals, M0, i, j, false);
        digraph := AddArc(digraph, i, j);
        M := M0;
      }
      dd := dd0[i := dd0[i] + {k}];
    }
 
    /** The search state of `augmentPath_BFS`, read from the fields it updates. */
    ghost predicate Search(d: seq<set<int>>, M: map<int, int>, root: int, first: int, last: int,
                           paths: map<int, seq<int>>, pos: map<int, int>, done: set<int>)
      reads this`inSet, this`free, father, fifo
    {
      Searching(d, vals, n2, M, root, free, inSet, father[..], fifo[..], first, last, paths, pos, done)
    }

    /**
     * `augmentPath_BFS(root)`: breadth-first search from the free variable
     * `root`, visiting successors in increasing order and stopping at the
     * first free node it enqueues. On success the father links spell an
     * augmenting path from `root` to the node returned; on failure the nodes
     * enqueued, with `root`, are closed under the arcs and none of them but
     * `root` is free. No node is enqueued twice.
     */
    method AugmentPathBFS(root: int, ghost d: seq<set<int>>, ghost M: map<int, int>)
      returns (mate: int, ghost P: seq<int>)
      requires Valid() && |d| == n && State(d, M) && 0 <= root < n && root in free
      modifies this`inSet, father, fifo
      ensures mate != -1 ==> Found(d, M, root, mate, P)
      ensures mate == -1 ==> Stuck(d, M, root)
    {
      inSet := {};
      var first, last := 0, 1;
      fifo[0] := root;
      ghost var paths: map<int, seq<int>> := map[root := [root]];
      ghost var pos: map<int, int> := map[root := 0];
      ghost var done: set<int> := {};
      while first != last
        invariant Valid() && State(d, M) && Search(d, M, root, first, last, paths, pos, done)
        invariant forall x, y | x in done && (x, y) in digraph.arcs :: y in inSet + {root}
        decreases n2 - first
      {
        var x := fifo[first];
        first := first + 1;
        done := done + {x};
        mate, P, last, paths, pos := ScanSuccessors(d, M, root, x, first, last, paths, pos, done);
        if mate != -1 {
          return;
        }
      }
      mate := -1;
      P := [];
      ClosedWhenDone(d, M, root, last, paths, pos, done);
    }

    /** What a successful search leaves: an augmenting path from `root` to the free value `mate`, traced by `father`. */
    ghost predicate Found(d: seq<set<int>>, M: map<int, int>, root: int, mate: int, P: seq<int>)
      reads this`free, father
    {
      n <= mate < n2 && mate in free && Traced(d, vals, M, root, mate, P, father[..])
    }

    /**
     * What a failed search leaves: the nodes of `in`, with `root`, are
     * closed under the arcs, none of them but `root` is free, and each was
     * reached by an arc from its father.
     */
    ghost predicate Stuck(d: seq<set<int>>, M: map<int, int>, root: int)
      reads this`inSet, this`free, father
    {
      Closed(d, vals, M, root, free, inSet, father[..])
    }

    /** Once the queue is empty, every visited node has been dequeued, so the visited nodes are closed. */
    lemma ClosedWhenDone(d: seq<set<int>>, M: map<int, int>, root: int, last: int,
                         paths: map<int, seq<int>>, pos: map<int, int>, done: set<int>)
      requires Valid() && |d| == n && State(d, M) && Search(d, M, root, last, last, paths, pos, done)
      requires forall x, y | x in done && (x, y) in digraph.arcs :: y in inSet + {root}
      ensures Stuck(d, M, root)
    {
      forall x, y | x in done && IsArc(d, vals, M, x, y) ensures y in inSet + {root} {
        assert (x, y) in digraph.arcs;
      }
      ClosedSearch(d, vals, n2, M, root, free, inSet, father[..], fifo[..], last, paths, pos, done);
    }

    /**
     * The inner loop of `augmentPath_BFS`: enqueues, in increasing order,
     * the successors of `x` not yet visited, and returns the first free one.
     */
    method ScanSuccessors(ghost d: seq<set<int>>, ghost M: map<int, int>, root: int, x: int,
                          ghost first: int, last0: int, ghost paths0: map<int, seq<int>>,
                          ghost pos0: map<int, int>, ghost done: set<int>)
      returns (mate: int, ghost P: seq<int>, last: int, ghost paths: map<int, seq<int>>, ghost pos: map<int, int>)
      requires Valid() && |d| == n && State(d, M) && 0 <= root < n && root in free
      requires Search(d, M, root, first, last0, paths0, pos0, done) && x in inSet + {root} && x in done
      requires forall x', y | x' in done && x' != x && (x', y) in digraph.arcs :: y in inSet + {root}
      modifies this`inSet, father, fifo
      ensures mate != -1 ==> Found(d, M, root, mate, P)
      ensures mate == -1 ==> Search(d, M, root, first, last, paths, pos, done)
                             && forall x', y | x' in done && (x', y) in digraph.arcs :: y in inSet + {root}
    {
      ValidIds(d);
      last, paths, pos := last0, paths0, pos0;
      var succs := Succ(digraph, x);
      while succs != {}
        invariant Search(d, M, root, first, last, paths, pos, done) && x in inSet + {root}
        invariant succs <= Succ(digraph, x)
        invariant forall x', y | x' in done && (x', y) in digraph.arcs && (x' != x || y !in succs) :: y in inSet + {root}
        decreases |succs|
      {
        var y := Min(succs);
        succs := succs - {y};
        if y !in inSet {
          assert IsArc(d, vals, M, x, y) && 0 <= y < n2 && Free(M, root);
          assert y != root;
          mate, P, last, paths, pos := Visit(d, M, root, x, y, first, last, paths, pos, done);
          if mate != -1 {
            return;
          }
        }
      }
      mate := -1;
      P := [];
    }

    /**
     * One new successor `y` of `x`: `father[y] = x`, `y` is enqueued and set
     * in `in`; it is returned when it is free.
     */
    method Visit(ghost d: seq<set<int>>, ghost M: map<int, int>, root: int, x: int, y: int,
                 ghost first: int, last0: int, ghost paths0: map<int, seq<int>>,
                 ghost pos0: map<int, int>, ghost done: set<int>)
      returns (mate: int, ghost P: seq<int>, last: int, ghost paths: map<int, seq<int>>, ghost pos: map<int, int>)
      requires Ids() && Bipartite(d, vals) && |d| == n && 0 <= root < n && Free(M, root)
      requires Search(d, M, root, first, last0, paths0, pos0, done) && x in inSet + {root}
      requires IsArc(d, vals, M, x, y) && y !in inSet && y != root && 0 <= y < n2 && (y in free ==> Free(M, y))
      modifies this`inSet, father, fifo
      ensures inSet == old(inSet) + {y}
      ensures mate != -1 ==> Found(d, M, root, mate, P)
      ensures mate == -1 ==> Search(d, M, root, first, last, paths, pos, done)
    {
      ghost var inS, fa, fi := inSet, father[..], fifo[..];
      RoomForOne(n2, root, free, inS, fi, first, last0, pos0, done, y);
      TreeStep(d, vals, n2, M, root, inS, fa, paths0, x, y);
      paths := paths0[y := paths0[x] + [y]];
      pos := pos0[y := last0];
      if y in free {
        assert TreePath(d, vals, M, root, y, paths[y], inS + {y} + {root}, fa[y := x]);
        FoundPath(d, vals, M, root, y, paths[y], inS + {y} + {root}, fa[y := x]);
      } else {
        QueueStep(n2, root, free, inS, fi, first, last0, pos0, done, y);
      }
      father[y] := x;
      fifo[last0] := y;
      inSet := inSet + {y};
      last := last0 + 1;
      assert father[..] == fa[y := x] && fifo[..] == fi[last0 := y] && inSet == inS + {y};
      if y in free {
        mate := y;
        P := paths[y];
      } else {
        mate := -1;
        P := [];
      }
    }

    /**
     * `tryToMatch(i)`: searches an augmenting path from the free variable
     * `root`; when one is found, its two ends leave the free nodes and its
     * arcs are turned round from its end back to `root`, which enlarges the
     * matching by `root`. Otherwise no assignment of pairwise different
     * values exists, and the call fails by instantiating the first variable
     * below its lower bound.
     */
    method TryToMatch(d: seq<set<int>>, root: int, ghost M: map<int, int>) returns (ok: bool, ghost M': map<int, int>)
      requires Valid() && |d| == n && State(d, M) && DomainsIn(d, ids) && 0 <= root < n && root in free
      modifies this`digraph, this`free, this`inSet, father, fifo
      ensures Valid() && digraph.nodes == old(digraph.nodes)
      ensures ok ==> State(d, M') && forall x :: x in M' <==> x in M || x == root
      ensures !ok ==> !HasSolution(d)
    {
      ValidIds(d);
      var mate;
      ghost var P;
      mate, P := AugmentPathBFS(root, d, M);
      if mate != -1 {
        assert Traced(d, vals, M, root, mate, P, father[..]);
        free := free - {mate};
        free := free - {root};
        ghost var A0 := digraph.arcs;
        ReversePath(root, mate, P);
        AugmentedGraph(d, vals, M, P, A0);
        M' := Augment(M, P);
        ok := true;
      } else {
        StuckHall(d, ids, vals, M, n2, root, free, inSet, father[..]);
        var r := InstantiateTo(d[0], LB(d[0]) - 1);
        BelowLowerBoundFails(d[0]);
        ok := r.Done?;
        M' := M;
      }
    }

    /** The loop of `tryToMatch` that walks the father links back from `mate` to `root`, turning each arc round. */
    method ReversePath(root: int, mate: int, ghost P: seq<int>)
      requires Valid() && |P| >= 1 && P[0] == root && P[|P| - 1] == mate
      requires forall s, u | 0 <= s < u < |P| :: P[s] != P[u]
      requires forall t | 0 <= t < |P| :: 0 <= P[t] < n2
      requires forall t | 0 < t < |P| :: father[P[t]] == P[t - 1]
      requires forall t | 0 < t < |P| :: (P[t - 1], P[t]) in digraph.arcs
      modifies this`digraph
      ensures Valid() && digraph.nodes == old(digraph.nodes)
      ensures digraph.arcs == (old(digraph.arcs) - Forward(P)) + Backward(P)
    {
      ghost var A0 := digraph.arcs;
      var tmp := mate;
      ghost var t := |P| - 1;
      assert P[t..] == [mate];
      assert Forward([mate]) == {} && Backward([mate]) == {};
      while tmp != root
        invariant Valid() && digraph.nodes == old(digraph.nodes)
        invariant 0 <= t < |P| && tmp == P[t]
        invariant digraph.arcs == (A0 - Forward(P[t..])) + Backward(P[t..])
        decreases t
      {
        assert t > 0;
        FlipStep(A0, digraph.arcs, P, t);
        assert (P[t - 1], P[t]) !in Forward(P[t..]) && (P[t - 1], P[t]) in A0;
        ReverseArc(digraph, P[t - 1], P[t]);
        digraph := RemoveArc(digraph, father[tmp], tmp);
        digraph := AddArc(digraph, tmp, father[tmp]);
        tmp := father[tmp];
        t := t - 1;
      }
      assert P[t..] == P;
    }

    /**
     * The loop of `findMaximumMatching` over the free nodes that are
     * variables, in increasing order, calling `tryToMatch` on each; it stops
     * at the first failure. On success every variable is matched.
     */
    method MatchFreeVariables(d: seq<set<int>>, ghost M0: map<int, int>) returns (ok: bool, ghost M: map<int, int>)
      requires Valid() && |d| == n && State(d, M0) && DomainsIn(d, ids)
      modifies this`digraph, this`free, this`inSet, father, fifo
      ensures Valid() && digraph.nodes == old(digraph.nodes)
      ensures ok ==> State(d, M) && forall i | 0 <= i < n :: i in M
      ensures !ok ==> !HasSolution(d)
    {
      ValidIds(d);
      M := M0;
      var i := NextSetBit(free, 0);
      forall x | 0 <= x < n && x !in M ensures x in free {
        assert Free(M, x);
      }
      while 0 <= i < n
        invariant Valid() && digraph.nodes == old(digraph.nodes) && State(d, M)
        invariant -1 <= i < n2 && (i != -1 ==> i in free)
        invariant forall x | 0 <= x < n && x !in M :: i != -1 && i <= x
        decreases if i < 0 then 0 else n2 + 1 - i
      {
        assert Free(M, i);
        ghost var M1 := M;
        ok, M := TryToMatch(d, i, M);
        if !ok {
          return;
        }
        forall x | 0 <= x < n && x !in M ensures x in free && i + 1 <= x {
          assert x !in M1 && Free(M, x);
        }
        i := NextSetBit(free, i + 1);
      }
      ok := true;
    }

    /**
     * The last loop of `findMaximumMatching`: `matching[i]` becomes the
     * predecessor of variable `i` in the oriented graph, that is its matched
     * value node, or -1 when it has none.
     */
    method ExtractMatching(ghost d: seq<set<int>>, ghost M: map<int, int>)
      requires Valid() && |d| == n && State(d, M) && forall i | 0 <= i < n :: i in M
      modifies matching
      ensures Valid()
      ensures forall i | 0 <= i < n :: matching[i] == M[i]
    {
      ValidIds(d);
      var i := 0;
      while i < n
        invariant 0 <= i <= n
        invariant forall j | 0 <= j < i :: matching[j] == M[j]
      {
        ArcsIntoVariableAll(d, vals, M, i);
        assert M[i] in Pred(digraph, i) && forall x | x in Pred(digraph, i) :: x == M[i];
        matching[i] := if Pred(digraph, i) == {} then -1 else Min(Pred(digraph, i));
        i := i + 1;
      }
    }

    /**
     * `findMaximumMatching()`: rebuilds the oriented graph from the domains
     * `d`, keeping the previous matching where it is still an edge, then
     * matches every free variable; `matching` receives the result. It
     * succeeds exactly when the domains admit pairwise different values, and
     * then `matching` is such an assignment.
     */
    method FindMaximumMatching(d: seq<set<int>>) returns (ok: bool, ghost M: map<int, int>)
      requires Valid() && |d| == n && DomainsIn(d, ids)
      modifies this`digraph, this`free, this`inSet, father, fifo, matching
      ensures Valid() && old(digraph.nodes) <= digraph.nodes
      ensures ok <==> HasSolution(d)
      ensures ok ==> State(d, M) && forall i | 0 <= i < n :: i in M && M[i] == matching[i]
      ensures ok ==> forall i | 0 <= i < n :: matching[i] in vals && vals[matching[i]] in d[i]
    {
      ValidIds(d);
      ghost var M0 := Rebuild(d);
      ok, M := MatchFreeVariables(d, M0);
      if ok {
        ExtractMatching(d, M);
        CompleteMatchingIsSolution(d, vals, M);
      }
    }
  }
}

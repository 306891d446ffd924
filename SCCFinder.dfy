/**
 * `StrongConnectivityFinder`: Tarjan's strongly connected components
 * algorithm without recursion, over the nodes of a directed graph that are
 * set in a restriction bit set. Depth-first numbers index the explicit
 * `stack`, the parent links `p`, the low links `inf` and the successor
 * iterators; a node leaves the restriction when its component is closed.
 * A pre-pass gives a component of its own to every node without
 * predecessors or without successors.
 */
module SCCFinders {
  import opened IntSets
  import opened Digraphs
  import opened SCCLists
  import opened SCCComponents

  /** The total number of successors still to visit in the iterators `it`. */
  ghost function Pending(it: seq<set<int>>): nat
  {
    if |it| == 0 then 0 else Pending(it[..|it| - 1]) + |it[|it| - 1]|
  }

  lemma {:induction false} PendingUpdate(it: seq<set<int>>, s: int, x: set<int>)
    requires 0 <= s < |it|
    ensures Pending(it[s := x]) == Pending(it) - |it[s]| + |x|
    decreases |it|
  {
    var m := |it| - 1;
    if s < m {
      assert it[s := x][..m] == it[..m][s := x];
      PendingUpdate(it[..m], s, x);
    } else {
      assert it[s := x][..m] == it[..m];
    }
  }

  /** Positions `a` and `b` are in order among the first `m`. */
  ghost predicate Before(a: int, b: int, m: int)
  {
    0 <= a < b < m
  }

  /**
   * The first `m` entries of `st` strictly increase. The order is only
   * consulted where a proof names two positions with `Before`, or through
   * `AscendingPairs`.
   */
  ghost predicate Ascending(st: seq<int>, m: int)
    requires m <= |st|
  {
    forall a, b {:trigger Before(a, b, m)} | Before(a, b, m) :: st[a] < st[b]
  }

  /** An ascending prefix orders every pair of its entries. */
  lemma AscendingPairs(st: seq<int>, m: int)
    requires m <= |st| && Ascending(st, m)
    ensures forall a, b | 0 <= a < b < m :: st[a] < st[b]
  {
    forall a, b | 0 <= a < b < m ensures st[a] < st[b] {
      assert Before(a, b, m);
    }
  }

  /** The last entry of an ascending prefix is above all the others. */
  lemma AscendingTop(st: seq<int>, m: int)
    requires 1 <= m <= |st| && Ascending(st, m)
    ensures forall a | 0 <= a < m - 1 :: st[a] < st[m - 1]
  {
    forall a | 0 <= a < m - 1 ensures st[a] < st[m - 1] {
      assert Before(a, m - 1, m);
    }
  }

  /** A prefix of an ascending prefix, and any sequence agreeing with it there, ascends. */
  lemma AscendingPrefix(st: seq<int>, m: int, st': seq<int>, m': int)
    requires 0 <= m' <= m <= |st| && m' <= |st'| && Ascending(st, m)
    requires forall a | 0 <= a < m' :: st'[a] == st[a]
    ensures Ascending(st', m')
  {
    forall a, b | Before(a, b, m') ensures st'[a] < st'[b] {
      assert Before(a, b, m);
    }
  }

  /** Writing above the last entry of an ascending prefix extends it by one. */
  lemma AscendingPush(st: seq<int>, m: int, v: int)
    requires 0 <= m < |st| && Ascending(st, m) && (m == 0 || st[m - 1] < v)
    ensures Ascending(st[m := v], m + 1)
  {
    var st', m' := st[m := v], m + 1;
    forall a, b | Before(a, b, m') ensures st'[a] < st'[b] {
      if b < m {
        assert Before(a, b, m);
      } else if a < m - 1 {
        assert Before(a, m - 1, m);
      }
    }
  }

  /**
   * The search of one `findSCC(start)` call once the numbers `[0, k]` are
   * given out, with the stack `st[0 .. sIdx)`:
   * - `no[s]` is the node numbered `s` (`nodeOfDfsNum`) and `dn` inverts it
   *   (`dfsNumOfNode`); `start` has number 0; a node of the restriction
   *   with number 0 other than `start` has not been visited;
   * - the stack holds numbers in increasing order from 0 at the bottom; for
   *   a number up to `k`, being in `inSt` (`inStack`) and being on the stack
   *   are the same, and so is its node still being in the restriction.
   * `inStack` may keep bits above `k` from an earlier call: they are not
   * read.
   */
  ghost predicate DfsCore(n: int, start: int, R0: set<int>, st: seq<int>, no: seq<int>, dn: seq<int>,
                          inSt: set<int>, restr: set<int>, k: int, sIdx: int)
  {
    |st| == n && |no| == n && |dn| == n
    && 0 <= k < n && 0 <= sIdx <= k + 1
    && (forall x | x in R0 :: 0 <= x < n)
    && st[0] == 0
    && Ascending(st, sIdx)
    && (forall a | 0 <= a < sIdx :: 0 <= st[a] <= k && st[a] in inSt)
    && (forall s | 0 <= s <= k && s in inSt :: exists a | 0 <= a < sIdx :: st[a] == s)
    && no[0] == start
    && (forall s | 0 <= s <= k :: no[s] in R0 && dn[no[s]] == s && (no[s] in restr <==> s in inSt))
    && (forall x | x in restr :: x in R0 && ((x != start && dn[x] == 0) || (0 <= dn[x] <= k && no[dn[x]] == x)))
    && (forall x | x in R0 && x !in restr :: 0 <= dn[x] <= k && no[dn[x]] == x)
  }

  /** `path` follows the parent links `pp` from number 0 to the current number `i`; all of it is on the stack. */
  ghost predicate TreePath(pp: seq<int>, inSt: set<int>, k: int, i: int, path: seq<int>)
  {
    k < |pp|
    && |path| >= 1 && path[0] == 0 && path[|path| - 1] == i
    && (forall t | 0 <= t < |path| :: 0 <= path[t] <= k && path[t] in inSt)
    && (forall t, u | 0 <= t < u < |path| :: path[t] < path[u])
    && (forall t | 0 < t < |path| :: pp[path[t]] == path[t - 1])
  }

  /** The node `x` has a number up to `k`. */
  ghost predicate Numbered(no: seq<int>, dn: seq<int>, k: int, x: int)
  {
    0 <= x < |dn| && 0 <= dn[x] <= k && dn[x] < |no| && no[dn[x]] == x
  }

  /** The tree path increases from number 0 to `i`. */
  ghost predicate PathTo(path: seq<int>, i: int)
  {
    |path| >= 1 && path[|path| - 1] == i
    && (forall m | 0 <= m < |path| :: 0 <= path[m] <= i)
    && (forall m, m' | 0 <= m < m' < |path| :: path[m] < path[m'])
  }

  /** An iterator holds successors of its node only. */
  ghost predicate IterArcs(g: Digraph, k: int, no: seq<int>, it: seq<set<int>>)
    requires k < |no| && |it| == |no|
  {
    forall t, v | 0 <= t <= k && v in it[t] :: (no[t], v) in g.arcs
  }

  /** A number off the tree path has no successor left to visit. */
  ghost predicate IterDone(k: int, path: seq<int>, it: seq<set<int>>)
    requires k < |it|
  {
    forall t | 0 <= t <= k && t !in path :: it[t] == {}
  }

  /** A number on the tree path reaches, inside `U`, every number given out after it. */
  ghost predicate TreeReach(g: Digraph, U: set<int>, k: int, path: seq<int>, no: seq<int>)
    requires k < |no|
  {
    forall m, t {:trigger Reaches(g, U, no[path[m]], no[t])} | 0 <= m < |path| && 0 <= path[m] <= t <= k :: Reaches(g, U, no[path[m]], no[t])
  }

  /** A number from 1 on the stack has a low link at most itself, also on the stack, and reaches it. */
  ghost predicate LinkReach(g: Digraph, U: set<int>, k: int, no: seq<int>, inSt: set<int>, lo: seq<int>)
    requires k < |no| && |lo| == |no|
  {
    forall t {:trigger lo[t]} | 1 <= t <= k && t in inSt :: 0 <= lo[t] <= t && lo[t] in inSt && Reaches(g, U, no[t], no[lo[t]])
  }

  /** A number on the stack off the tree path has a low link below itself. */
  ghost predicate LinkBelow(k: int, path: seq<int>, inSt: set<int>, lo: seq<int>)
    requires k < |lo|
  {
    forall t | 1 <= t <= k && t in inSt && t !in path :: lo[t] < t
  }

  /**
   * For a number on the stack off the tree path, the deepest number of the
   * path below it, unless that is 0, has a low link at most as large.
   */
  ghost predicate LinkOrder(k: int, path: seq<int>, inSt: set<int>, lo: seq<int>)
    requires k < |lo|
  {
    forall m, t {:trigger lo[path[m]], lo[t]} | 0 <= m < |path| && 1 <= path[m] < t <= k && t in inSt && t !in path
                  && (m + 1 == |path| || t < path[m + 1]) :: lo[path[m]] <= lo[t]
  }

  /**
   * A successor already taken from the iterator of a number `u` on the
   * stack is, if still restricted, numbered; its number is at least the low
   * link of `u` or above `u`, unless `u` is 0.
   */
  ghost predicate Taken(g: Digraph, k: int, no: seq<int>, dn: seq<int>, inSt: set<int>, restr: set<int>,
                        it: seq<set<int>>, lo: seq<int>)
    requires k < |no| && |it| == |no| && |lo| == |no|
  {
    forall u, v {:trigger (no[u], v) in g.arcs} | 0 <= u <= k && u in inSt && (no[u], v) in g.arcs && v !in it[u] && v in restr && 0 <= v < |dn| ::
      Numbered(no, dn, k, v) && (u == 0 || lo[u] <= dn[v] || u < dn[v])
  }

  /**
   * Tarjan's invariant for the search of one `findSCC` call, over the
   * subgraph on `U`, with the successor iterators `it` and the low links
   * `lo` (`inf`). The low link of number 0 is never read, and is left free.
   */
  ghost predicate Low(g: Digraph, U: set<int>, k: int, path: seq<int>, no: seq<int>, dn: seq<int>,
                      inSt: set<int>, restr: set<int>, it: seq<set<int>>, lo: seq<int>)
  {
    0 <= k < |no| && |it| == |no| && |lo| == |no|
    && IterArcs(g, k, no, it) && IterDone(k, path, it) && TreeReach(g, U, k, path, no)
    && LinkReach(g, U, k, no, inSt, lo) && LinkBelow(k, path, inSt, lo) && LinkOrder(k, path, inSt, lo)
    && Taken(g, k, no, dn, inSt, restr, it, lo)
  }

  /** The tree path increases and ends in `i`; a number above `i` is not on it. */
  lemma PathOf(pp: seq<int>, inSt: set<int>, k: int, i: int, path: seq<int>)
    requires TreePath(pp, inSt, k, i, path)
    ensures PathTo(path, i) && i in path
    ensures forall t | i < t :: t !in path
  {
    forall m | 0 <= m < |path| ensures path[m] <= i {
      if m < |path| - 1 {
        assert path[m] < path[|path| - 1];
      }
    }
    assert path[|path| - 1] == i;
  }

  /** Right after the initialisation: only `start`, numbered 0, is on the path, and its iterator holds its successors. */
  lemma LowStart(g: Digraph, U: set<int>, n: int, start: int, R0: set<int>, st: seq<int>, no: seq<int>, dn: seq<int>,
                 inSt: set<int>, it: seq<set<int>>, lo: seq<int>)
    requires DfsCore(n, start, R0, st, no, dn, inSt, R0, 0, 1) && R0 <= U && |it| == n && |lo| == n
    requires it[0] == Succ(g, start)
    ensures Low(g, U, 0, [0], no, dn, inSt, R0, it, lo)
  {
    ReachSelf(g, U, start);
  }

  /** Taking the successor `j` from the iterator of `i` keeps the iterators to successors and empty off the path. */
  lemma TakeIters(g: Digraph, k: int, path: seq<int>, no: seq<int>, it: seq<set<int>>, i: int, j: int)
    requires 0 <= i <= k < |no| && |it| == |no| && IterArcs(g, k, no, it) && IterDone(k, path, it)
    ensures IterArcs(g, k, no, it[i := it[i] - {j}]) && IterDone(k, path, it[i := it[i] - {j}])
  {
  }

  /** Taking the successor `j`, outside the restriction, from the iterator of `i` keeps the invariant. */
  lemma LowSkip(g: Digraph, U: set<int>, k: int, path: seq<int>, no: seq<int>, dn: seq<int>,
                inSt: set<int>, restr: set<int>, it: seq<set<int>>, lo: seq<int>, i: int, j: int)
    requires Low(g, U, k, path, no, dn, inSt, restr, it, lo) && 0 <= i <= k && j !in restr
    ensures Low(g, U, k, path, no, dn, inSt, restr, it[i := it[i] - {j}], lo)
  {
    TakeIters(g, k, path, no, it, i, j);
    SkipTaken(g, k, no, dn, inSt, restr, it, lo, i, j);
  }

  /** A successor outside the restriction, once taken, asks nothing of the search. */
  lemma SkipTaken(g: Digraph, k: int, no: seq<int>, dn: seq<int>, inSt: set<int>, restr: set<int>,
                  it: seq<set<int>>, lo: seq<int>, i: int, j: int)
    requires 0 <= i <= k < |no| && |it| == |no| && |lo| == |no| && Taken(g, k, no, dn, inSt, restr, it, lo) && j !in restr
    ensures Taken(g, k, no, dn, inSt, restr, it[i := it[i] - {j}], lo)
  {
  }

  /**
   * Taking the successor `j` of `i`, numbered and on the stack, lowers the
   * low link of `i` to the number of `j` and keeps the invariant.
   */
  lemma LowLower(g: Digraph, U: set<int>, n: int, start: int, R0: set<int>, st: seq<int>, no: seq<int>, dn: seq<int>,
                 inSt: set<int>, restr: set<int>, k: int, sIdx: int, pp: seq<int>, i: int, path: seq<int>,
                 it: seq<set<int>>, lo: seq<int>, j: int)
    requires DfsCore(n, start, R0, st, no, dn, inSt, restr, k, sIdx) && R0 <= U
    requires TreePath(pp, inSt, k, i, path) && Low(g, U, k, path, no, dn, inSt, restr, it, lo)
    requires j in it[i] && j in restr && Numbered(no, dn, k, j)
    ensures Low(g, U, k, path, no, dn, inSt, restr, it[i := it[i] - {j}], lo[i := if lo[i] < dn[j] then lo[i] else dn[j]])
  {
    PathOf(pp, inSt, k, i, path);
    assert (no[i], j) in g.arcs && no[i] in U && j in U && dn[j] in inSt;
    ReachArc(g, U, no[i], j);
    TakeIters(g, k, path, no, it, i, j);
    LowerLinks(g, U, k, path, no, inSt, lo, i, dn[j]);
    LowerTaken(g, k, no, dn, inSt, restr, it, lo, i, j);
  }

  /** Lowering the low link of `i`, on the path, to a number `w` on the stack that it reaches keeps the low links. */
  lemma LowerLinks(g: Digraph, U: set<int>, k: int, path: seq<int>, no: seq<int>, inSt: set<int>, lo: seq<int>, i: int, w: int)
    requires 0 <= i <= k < |no| && |lo| == |no| && i in path
    requires LinkReach(g, U, k, no, inSt, lo) && LinkBelow(k, path, inSt, lo) && LinkOrder(k, path, inSt, lo)
    requires 0 <= w <= k && w in inSt && Reaches(g, U, no[i], no[w])
    ensures var lo' := lo[i := if lo[i] < w then lo[i] else w];
            LinkReach(g, U, k, no, inSt, lo') && LinkBelow(k, path, inSt, lo') && LinkOrder(k, path, inSt, lo')
  {
  }

  /** After `j` is taken from the iterator of `i` and the low link of `i` lowered to its number, the taken successors keep their promise. */
  lemma LowerTaken(g: Digraph, k: int, no: seq<int>, dn: seq<int>, inSt: set<int>, restr: set<int>,
                   it: seq<set<int>>, lo: seq<int>, i: int, j: int)
    requires 0 <= i <= k < |no| && |it| == |no| && |lo| == |no| && Taken(g, k, no, dn, inSt, restr, it, lo)
    requires Numbered(no, dn, k, j)
    ensures Taken(g, k, no, dn, inSt, restr, it[i := it[i] - {j}], lo[i := if lo[i] < dn[j] then lo[i] else dn[j]])
  {
  }

  /**
   * Taking the unvisited restricted successor `j` of `i` and numbering it
   * `k + 1`, with the successors of `j` in its iterator and itself as low
   * link, keeps the invariant with the path grown by `k + 1`.
   */
  lemma LowDescend(g: Digraph, U: set<int>, n: int, start: int, R0: set<int>, st: seq<int>, no: seq<int>, dn: seq<int>,
                   inSt: set<int>, restr: set<int>, k: int, sIdx: int, pp: seq<int>, i: int, path: seq<int>,
                   it: seq<set<int>>, lo: seq<int>, j: int)
    requires DfsCore(n, start, R0, st, no, dn, inSt, restr, k, sIdx) && R0 <= U && k + 1 < n
    requires TreePath(pp, inSt, k, i, path) && Low(g, U, k, path, no, dn, inSt, restr, it, lo)
    requires j in it[i] && j in restr && dn[j] == 0 && j != start
    ensures Low(g, U, k + 1, path + [k + 1], no[k + 1 := j], dn[j := k + 1], inSt + {k + 1}, restr,
                it[i := it[i] - {j}][k + 1 := Succ(g, j)], lo[k + 1 := k + 1])
  {
    PathOf(pp, inSt, k, i, path);
    assert (no[i], j) in g.arcs && j in U && no[0] != j;
    DescendIters(g, k, no, it, path, i, j);
    DescendTree(g, U, k, path, no, i, j);
    DescendLinks(g, U, k, path, no, inSt, lo, i, j);
    DescendTaken(g, k, no, dn, inSt, restr, it, lo, i, j);
  }

  /** The iterators after a descent into `j`, numbered `k + 1`. */
  lemma DescendIters(g: Digraph, k: int, no: seq<int>, it: seq<set<int>>, path: seq<int>, i: int, j: int)
    requires 0 <= i <= k && k + 1 < |no| && |it| == |no|
    requires IterArcs(g, k, no, it) && IterDone(k, path, it) && i in path
    ensures IterArcs(g, k + 1, no[k + 1 := j], it[i := it[i] - {j}][k + 1 := Succ(g, j)])
    ensures IterDone(k + 1, path + [k + 1], it[i := it[i] - {j}][k + 1 := Succ(g, j)])
  {
  }

  /** After a descent from `i` into its successor `j`, numbered `k + 1`, the path still reaches every later number. */
  lemma DescendTree(g: Digraph, U: set<int>, k: int, path: seq<int>, no: seq<int>, i: int, j: int)
    requires 0 <= i <= k && k + 1 < |no| && PathTo(path, i) && TreeReach(g, U, k, path, no)
    requires (no[i], j) in g.arcs && j in U
    ensures TreeReach(g, U, k + 1, path + [k + 1], no[k + 1 := j])
  {
    var no', path' := no[k + 1 := j], path + [k + 1];
    ReachSelf(g, U, j);
    forall m, t | 0 <= m < |path'| && 0 <= path'[m] <= t <= k + 1 ensures Reaches(g, U, no'[path'[m]], no'[t]) {
      if m < |path| {
        assert path'[m] == path[m];
        if t == k + 1 {
          assert Reaches(g, U, no[path[m]], no[i]);
          ReachStep(g, U, no[path[m]], no[i], j);
        }
      }
    }
  }

  /** After a descent, numbered `k + 1` with itself as low link, the low links keep their promise. */
  lemma DescendLinks(g: Digraph, U: set<int>, k: int, path: seq<int>, no: seq<int>, inSt: set<int>, lo: seq<int>, i: int, j: int)
    requires 0 <= i <= k && k + 1 < |no| && |lo| == |no| && PathTo(path, i)
    requires LinkReach(g, U, k, no, inSt, lo) && LinkBelow(k, path, inSt, lo) && LinkOrder(k, path, inSt, lo) && j in U
    ensures LinkReach(g, U, k + 1, no[k + 1 := j], inSt + {k + 1}, lo[k + 1 := k + 1])
    ensures LinkBelow(k + 1, path + [k + 1], inSt + {k + 1}, lo[k + 1 := k + 1])
    ensures LinkOrder(k + 1, path + [k + 1], inSt + {k + 1}, lo[k + 1 := k + 1])
  {
    var path', inSt', lo' := path + [k + 1], inSt + {k + 1}, lo[k + 1 := k + 1];
    ReachSelf(g, U, j);
    forall m, t | 0 <= m < |path'| && 1 <= path'[m] < t <= k + 1 && t in inSt' && t !in path'
                  && (m + 1 == |path'| || t < path'[m + 1])
      ensures lo'[path'[m]] <= lo'[t]
    {
      assert m < |path| && path'[m] == path[m] && t != k + 1 && t in inSt && t !in path;
      assert lo'[t] == lo[t] && lo'[path'[m]] == lo[path[m]];
      if m + 1 < |path| {
        assert path'[m + 1] == path[m + 1];
      }
    }
  }

  /** After a descent into the unvisited `j`, the taken successors keep their promise. */
  lemma DescendTaken(g: Digraph, k: int, no: seq<int>, dn: seq<int>, inSt: set<int>, restr: set<int>,
                     it: seq<set<int>>, lo: seq<int>, i: int, j: int)
    requires 0 <= i <= k && k + 1 < |no| && |it| == |no| && |lo| == |no|
    requires Taken(g, k, no, dn, inSt, restr, it, lo)
    requires j in it[i] && 0 <= j < |dn| && dn[j] == 0 && no[0] != j
    ensures Taken(g, k + 1, no[k + 1 := j], dn[j := k + 1], inSt + {k + 1}, restr,
                  it[i := it[i] - {j}][k + 1 := Succ(g, j)], lo[k + 1 := k + 1])
  {
    var no', dn', inSt' := no[k + 1 := j], dn[j := k + 1], inSt + {k + 1};
    var it', lo' := it[i := it[i] - {j}][k + 1 := Succ(g, j)], lo[k + 1 := k + 1];
    forall u, v | 0 <= u <= k + 1 && u in inSt' && (no'[u], v) in g.arcs && v !in it'[u] && v in restr && 0 <= v < |dn'|
      ensures Numbered(no', dn', k + 1, v) && (u == 0 || lo'[u] <= dn'[v] || u < dn'[v])
    {
      if u <= k && !(u == i && v == j) {
        assert Numbered(no, dn, k, v);
      }
    }
  }

  /**
   * Backtracking from `i`, whose iterator is empty, to its parent, whose
   * low link takes that of `i`. When the low link of `i` has not dropped
   * below `i`, the numbers from `i` on have left the stack; otherwise the
   * stack is unchanged. Either way the invariant holds with the shorter
   * path.
   */
  lemma LowRetreat(g: Digraph, U: set<int>, n: int, start: int, R0: set<int>, st: seq<int>, no: seq<int>, dn: seq<int>,
                   inSt: set<int>, restr: set<int>, k: int, sIdx: int, pp: seq<int>, i: int, path: seq<int>,
                   it: seq<set<int>>, lo: seq<int>, inSt': set<int>, restr': set<int>)
    requires DfsCore(n, start, R0, st, no, dn, inSt, restr, k, sIdx) && R0 <= U
    requires TreePath(pp, inSt, k, i, path) && Low(g, U, k, path, no, dn, inSt, restr, it, lo)
    requires i != 0 && it[i] == {} && restr' <= restr
    requires forall s | 0 <= s <= k && s in inSt' :: s in inSt
    requires forall s | 0 <= s < i :: s in inSt' <==> s in inSt
    requires lo[i] >= i ==> forall s | i <= s <= k :: s !in inSt'
    requires lo[i] < i ==> inSt' == inSt
    ensures |path| >= 2 && pp[i] == path[|path| - 2]
    ensures Low(g, U, k, path[..|path| - 1], no, dn, inSt', restr', it,
                lo[pp[i] := if lo[pp[i]] < lo[i] then lo[pp[i]] else lo[i]])
  {
    PathOf(pp, inSt, k, i, path);
    var q := path[|path| - 2];
    assert q < i && pp[i] == q && q in path;
    RetreatIters(k, path, it, i);
    RetreatTree(g, U, k, path, no);
    assert Reaches(g, U, no[q], no[i]);
    RetreatReach(g, U, k, no, inSt, lo, i, q, inSt');
    RetreatBelow(k, path, inSt, lo, i, q, if lo[q] < lo[i] then lo[q] else lo[i], inSt');
    RetreatOrder(k, path, inSt, lo, i, inSt');
    RetreatTaken(g, k, no, dn, inSt, restr, it, lo, q, lo[i], inSt', restr');
  }

  /** Leaving `i`, whose iterator is empty, keeps the numbers off the path without successors to visit. */
  lemma RetreatIters(k: int, path: seq<int>, it: seq<set<int>>, i: int)
    requires 0 <= i <= k < |it| && |path| >= 2 && path[|path| - 1] == i && it[i] == {} && IterDone(k, path, it)
    ensures IterDone(k, path[..|path| - 1], it)
  {
    forall t | 0 <= t <= k && t !in path[..|path| - 1] ensures it[t] == {} {
      if t != i {
        assert t !in path;
      }
    }
  }

  /** A prefix of the tree path still reaches every number given out after its members. */
  lemma RetreatTree(g: Digraph, U: set<int>, k: int, path: seq<int>, no: seq<int>)
    requires k < |no| && |path| >= 2 && TreeReach(g, U, k, path, no)
    ensures TreeReach(g, U, k, path[..|path| - 1], no)
  {
    var path' := path[..|path| - 1];
    forall m, t | 0 <= m < |path'| && 0 <= path'[m] <= t <= k ensures Reaches(g, U, no[path'[m]], no[t]) {
      assert path'[m] == path[m];
    }
  }

  /** The low links after backtracking from `i` to its parent `q`, whose low link takes that of `i`, still reach their numbers. */
  lemma RetreatReach(g: Digraph, U: set<int>, k: int, no: seq<int>, inSt: set<int>, lo: seq<int>,
                     i: int, q: int, inSt': set<int>)
    requires 0 <= q < i <= k < |no| && |lo| == |no| && LinkReach(g, U, k, no, inSt, lo) && i in inSt
    requires Reaches(g, U, no[q], no[i])
    requires forall s | 0 <= s <= k && s in inSt' :: s in inSt
    requires forall s | 0 <= s < i :: s in inSt' <==> s in inSt
    requires lo[i] >= i ==> forall s | i <= s <= k :: s !in inSt'
    requires lo[i] < i ==> inSt' == inSt
    ensures LinkReach(g, U, k, no, inSt', lo[q := if lo[q] < lo[i] then lo[q] else lo[i]])
  {
    var lo' := lo[q := if lo[q] < lo[i] then lo[q] else lo[i]];
    if lo[i] < i {
      ReachTrans(g, U, no[q], no[i], no[lo[i]]);
    }
    forall t | 1 <= t <= k && t in inSt'
      ensures 0 <= lo'[t] <= t && lo'[t] in inSt' && Reaches(g, U, no[t], no[lo'[t]])
    {
      assert t in inSt;
      if lo[i] >= i {
        assert t < i;
      }
    }
  }

  /** After backtracking from `i`, a number off the shorter path still has a low link below itself. */
  lemma RetreatBelow(k: int, path: seq<int>, inSt: set<int>, lo: seq<int>, i: int, q: int, w: int, inSt': set<int>)
    requires 0 <= q < i <= k < |lo| && |path| >= 2 && path[|path| - 1] == i && path[|path| - 2] == q
    requires LinkBelow(k, path, inSt, lo)
    requires forall s | 0 <= s <= k && s in inSt' :: s in inSt
    requires i in inSt' ==> lo[i] < i
    ensures LinkBelow(k, path[..|path| - 1], inSt', lo[q := w])
  {
    forall t | 1 <= t <= k && t in inSt' && t !in path[..|path| - 1] ensures lo[q := w][t] < t {
      assert path[|path| - 2] == path[..|path| - 1][|path| - 2];
      if t != i {
        assert t !in path;
      }
    }
  }

  /** After backtracking from `i` to `q`, whose low link takes that of `i`, the order of the low links holds on the shorter path. */
  lemma RetreatOrder(k: int, path: seq<int>, inSt: set<int>, lo: seq<int>, i: int, inSt': set<int>)
    requires 1 <= i <= k < |lo| && |path| >= 2 && PathTo(path, i) && LinkOrder(k, path, inSt, lo)
    requires forall s | 0 <= s <= k && s in inSt' :: s in inSt
    ensures var q := path[|path| - 2];
            LinkOrder(k, path[..|path| - 1], inSt', lo[q := if lo[q] < lo[i] then lo[q] else lo[i]])
  {
    var q := path[|path| - 2];
    var path' := path[..|path| - 1];
    var lo' := lo[q := if lo[q] < lo[i] then lo[q] else lo[i]];
    forall m, t | 0 <= m < |path'| && 1 <= path'[m] < t <= k && t in inSt' && t !in path'
                  && (m + 1 == |path'| || t < path'[m + 1])
      ensures lo'[path'[m]] <= lo'[t]
    {
      assert path'[m] == path[m] && t in inSt;
      if m + 1 == |path'| {
        assert path[m] == q && path[m + 1] == i;
        if t > i {
          assert t !in path && lo[path[m + 1]] <= lo[t];
        } else if t < i {
          assert t !in path;
          assert lo[q] <= lo[t];
        }
      } else {
        assert path'[m + 1] == path[m + 1] && t !in path;
      }
    }
  }

  /** Backtracking, and possibly popping, keeps the promise of the taken successors. */
  lemma RetreatTaken(g: Digraph, k: int, no: seq<int>, dn: seq<int>, inSt: set<int>, restr: set<int>,
                     it: seq<set<int>>, lo: seq<int>, q: int, w: int, inSt': set<int>, restr': set<int>)
    requires 0 <= q <= k < |no| && |it| == |no| && |lo| == |no| && Taken(g, k, no, dn, inSt, restr, it, lo)
    requires restr' <= restr && forall s | 0 <= s <= k && s in inSt' :: s in inSt
    ensures Taken(g, k, no, dn, inSt', restr', it, lo[q := if lo[q] < w then lo[q] else w])
  {
  }

  /**
   * After a pop loop down to stack position `a`: the nodes that have left
   * the restriction are the restricted ones numbered from `st[a]` on, and
   * no number from `st[a]` on is still on the stack.
   */
  lemma PoppedSet(n: int, start: int, R0: set<int>, st: seq<int>, no: seq<int>, dn: seq<int>,
                  inSt: set<int>, restr: set<int>, k: int, sIdx: int, a: int, inSt': set<int>, restr': set<int>)
    requires DfsCore(n, start, R0, st, no, dn, inSt, restr, k, sIdx)
    requires DfsCore(n, start, R0, st, no, dn, inSt', restr', k, a)
    requires 0 <= a < sIdx && restr' <= restr
    requires forall s | 0 <= s < st[a] :: s in inSt' <==> s in inSt
    ensures forall s | st[a] <= s <= k :: s !in inSt'
    ensures forall x | x in restr :: x !in restr' <==> Numbered(no, dn, k, x) && st[a] <= dn[x]
  {
    AscendingPairs(st, sIdx);
  }

  /** A number above `i`, whose low link has not dropped below it, has a low link from `i` on. */
  lemma LowAbove(k: int, path: seq<int>, inSt: set<int>, lo: seq<int>, i: int, t: int)
    requires k < |lo| && LinkOrder(k, path, inSt, lo)
    requires 1 <= i < t <= k && t in inSt && t !in path
    requires |path| >= 1 && path[|path| - 1] == i && i <= lo[i]
    ensures i <= lo[t]
  {
    var m := |path| - 1;
    assert lo[path[m]] <= lo[t];
  }

  /**
   * Following low links, every number from `i` to `k` on the stack reaches
   * `i`, when `i` is 0 or its low link has not dropped below it.
   */
  lemma {:induction false} ReachRoot(g: Digraph, U: set<int>, k: int, path: seq<int>, no: seq<int>,
                                     inSt: set<int>, lo: seq<int>, i: int, t: int)
    requires k < |no| && |lo| == |no| && 0 <= i <= t <= k && t in inSt && no[i] in U
    requires LinkReach(g, U, k, no, inSt, lo) && LinkBelow(k, path, inSt, lo) && LinkOrder(k, path, inSt, lo)
    requires |path| >= 1 && path[|path| - 1] == i && (forall u | i < u :: u !in path)
    requires i == 0 || i <= lo[i]
    ensures Reaches(g, U, no[t], no[i])
    decreases t
  {
    if t == i {
      ReachSelf(g, U, no[i]);
    } else {
      var w := lo[t];
      if 1 <= i {
        LowAbove(k, path, inSt, lo, i, t);
      }
      if w != i {
        ReachRoot(g, U, k, path, no, inSt, lo, i, w);
        ReachTrans(g, U, no[t], no[w], no[i]);
      }
    }
  }

  /** The nodes popped with the root `i` reach one another inside `U`. */
  lemma PopSound(g: Digraph, U: set<int>, n: int, start: int, R0: set<int>, st: seq<int>, no: seq<int>, dn: seq<int>,
                 inSt: set<int>, restr: set<int>, k: int, sIdx: int, path: seq<int>, lo: seq<int>, i: int, restr': set<int>)
    requires DfsCore(n, start, R0, st, no, dn, inSt, restr, k, sIdx) && R0 <= U && |lo| == n
    requires LinkReach(g, U, k, no, inSt, lo) && LinkBelow(k, path, inSt, lo) && LinkOrder(k, path, inSt, lo)
    requires TreeReach(g, U, k, path, no)
    requires |path| >= 1 && path[|path| - 1] == i && (forall u | i < u :: u !in path)
    requires 0 <= i <= k && (i == 0 || i <= lo[i])
    requires forall x | x in restr :: x !in restr' <==> Numbered(no, dn, k, x) && i <= dn[x]
    ensures forall x, y | x in restr && x !in restr' && y in restr && y !in restr' :: MutuallyReach(g, U, x, y)
  {
    assert no[i] in R0;
    forall x, y | x in restr && x !in restr' && y in restr && y !in restr' ensures MutuallyReach(g, U, x, y) {
      var m := |path| - 1;
      assert no[dn[x]] == x && dn[x] in inSt && no[dn[y]] == y && dn[y] in inSt;
      ReachRoot(g, U, k, path, no, inSt, lo, i, dn[x]);
      ReachRoot(g, U, k, path, no, inSt, lo, i, dn[y]);
      assert Reaches(g, U, no[path[m]], no[dn[x]]) && Reaches(g, U, no[path[m]], no[dn[y]]);
      ReachTrans(g, U, x, no[i], y);
      ReachTrans(g, U, y, no[i], x);
    }
  }

  /**
   * An arc from a node popped with the root `i` to a node of the
   * restriction ends in a node popped with it: the successors of the popped
   * numbers have all been taken.
   */
  lemma PopExit(g: Digraph, k: int, path: seq<int>, no: seq<int>, dn: seq<int>, inSt: set<int>, restr: set<int>,
                it: seq<set<int>>, lo: seq<int>, i: int, restr': set<int>, u: int, v: int)
    requires k < |no| && |it| == |no| && |lo| == |no|
    requires Taken(g, k, no, dn, inSt, restr, it, lo) && IterDone(k, path, it) && LinkOrder(k, path, inSt, lo)
    requires |path| >= 1 && path[|path| - 1] == i && (forall t | i < t :: t !in path)
    requires 0 <= i <= k && it[i] == {} && (i == 0 || i <= lo[i])
    requires forall x | x in restr :: x !in restr' <==> Numbered(no, dn, k, x) && i <= dn[x]
    requires u in restr && u !in restr' && 0 <= u < |dn| && dn[u] in inSt && v in restr && 0 <= v < |dn| && (u, v) in g.arcs
    ensures v !in restr'
  {
    var t := dn[u];
    assert no[t] == u && it[t] == {};
    assert Numbered(no, dn, k, v) && (t == 0 || lo[t] <= dn[v] || t < dn[v]);
    if 1 <= i < t {
      LowAbove(k, path, inSt, lo, i, t);
    }
  }

  /**
   * When the nodes of `restr` outside `restr'` reach one another and every
   * arc from them into `restr` stays among them, none of them shares a
   * component with a node left in `restr'`.
   */
  lemma PopComplete(g: Digraph, U: set<int>, restr: set<int>, ns: seq<int>, restr': set<int>)
    requires SCCsClosed(g, U, restr, ns) && restr' <= restr
    requires forall x, y | x in restr && x !in restr' && y in restr && y !in restr' :: MutuallyReach(g, U, x, y)
    requires forall u, v | u in restr && u !in restr' && v in restr && (u, v) in g.arcs :: v !in restr'
    ensures forall x, y | x in restr && x !in restr' && y in restr' :: !MutuallyReach(g, U, x, y)
  {
    var S := restr - restr';
    forall x, y | x in restr && x !in restr' && y in restr' ensures !MutuallyReach(g, U, x, y) {
      if MutuallyReach(g, U, x, y) {
        var u, v := LeaveSet(g, U, S, x, y);
        if v !in restr {
          assert MutuallyReach(g, U, x, u);
          ReachArc(g, U, u, v);
          ReachTrans(g, U, x, u, v);
          ReachTrans(g, U, v, y, x);
          assert MutuallyReach(g, U, v, x);
        }
        assert false;
      }
    }
  }

  /**
   * Popping the nodes numbered from the root `i` on, with the new id `nb`,
   * closes one component of the subgraph on `U`: the closed nodes still
   * carry the components as ids.
   */
  lemma PopCloses(g: Digraph, U: set<int>, n: int, start: int, R0: set<int>, st: seq<int>, no: seq<int>, dn: seq<int>,
                  inSt: set<int>, restr: set<int>, k: int, sIdx: int, path: seq<int>, it: seq<set<int>>, lo: seq<int>,
                  i: int, restr': set<int>, ns0: seq<int>, A0: set<int>, chains0: seq<seq<int>>,
                  ns: seq<int>, fst: seq<int>, nx: seq<int>, nb: int, chains: seq<seq<int>>, A: set<int>,
                  ns': seq<int>, fst': seq<int>, nx': seq<int>, chains': seq<seq<int>>, A': set<int>)
    requires DfsCore(n, start, R0, st, no, dn, inSt, restr, k, sIdx) && R0 <= U && SCCsClosed(g, U, restr, ns)
    requires Low(g, U, k, path, no, dn, inSt, restr, it, lo)
    requires |path| >= 1 && path[|path| - 1] == i && (forall t | i < t :: t !in path)
    requires 0 <= i <= k && it[i] == {} && (i == 0 || i <= lo[i])
    requires restr' <= restr && forall x | x in restr :: x !in restr' <==> Numbered(no, dn, k, x) && i <= dn[x]
    requires Lists(ns, fst, nx, nb, chains, A) && Closing(ns0, A0, chains0, R0, restr, ns, chains, A)
    requires ListsUpTo(ns', fst', nx', nb + 1, chains', A') && Closing(ns0, A0, chains0, R0, restr', ns', chains', A')
    requires |ns'| == |ns| && forall c | 0 <= c < nb :: chains'[c] == chains[c]
    ensures SCCsClosed(g, U, restr', ns')
  {
    PopSound(g, U, n, start, R0, st, no, dn, inSt, restr, k, sIdx, path, lo, i, restr');
    forall u, v | u in restr && u !in restr' && v in restr && (u, v) in g.arcs ensures v !in restr' {
      assert no[dn[u]] == u && dn[u] in inSt && v in R0;
      PopExit(g, k, path, no, dn, inSt, restr, it, lo, i, restr', u, v);
    }
    PopComplete(g, U, restr, ns, restr');
    ListsKeep(ns, fst, nx, nb, chains, A, ns', fst', nx', chains', A');
    assert forall x | x in restr && x !in restr' :: ns[x] == -1 && ns'[x] != -1;
    CloseStep(g, U, restr, ns, restr', ns', nb);
  }

  /** Before the pop loop at the root at stack position `a`: the positions from `a` on hold numbers of nodes, in increasing order. */
  lemma ComponentRange(n: int, start: int, R0: set<int>, st: seq<int>, no: seq<int>, dn: seq<int>,
                       inSt: set<int>, restr: set<int>, k: int, sIdx: int, a: int, ns0: seq<int>, A0: set<int>, chains0: seq<seq<int>>,
                       ns: seq<int>, fst: seq<int>, nx: seq<int>, nb: int, cs: seq<seq<int>>, A: set<int>)
    requires DfsCore(n, start, R0, st, no, dn, inSt, restr, k, sIdx) && 0 <= a < sIdx && |ns| == n
    requires Lists(ns, fst, nx, nb, cs, A) && Closing(ns0, A0, chains0, R0, restr, ns, cs, A)
    ensures 0 <= nb < n && PopRange(st, no, ns, a, sIdx) && |fst| == n && |nx| == n
    ensures forall j | a < j < sIdx :: st[a] < st[j] && no[st[j]] != no[st[a]]
    ensures no[st[0]] == start
  {
    PopOpen(n, start, R0, st, no, dn, k, sIdx, ns0, A0, chains0, inSt, restr, A, ns, fst, nx, nb, cs);
    AscendingPairs(st, sIdx);
    forall j | a < j < sIdx ensures st[a] < st[j] && no[st[j]] != no[st[a]] {
      assert dn[no[st[j]]] == st[j] && dn[no[st[a]]] == st[a];
    }
  }

  /**
   * The pop loop of `findSCC` at the root `i`, at stack position `a`, and
   * the `nbSCC++` after it, from the state before it to the state `live'`,
   * `res'`, `ns'`, `fst'`, `nx'`, `A'`, `cs'` after it: the search keeps
   * its shape with the stack cut at `a`, the popped nodes form a new
   * component of the lists and close a component of the subgraph, and the
   * numbers from `i` on leave the stack.
   */
  lemma ComponentPopped(g: Digraph, U: set<int>, n: int, start: int, R0: set<int>, st: seq<int>, no: seq<int>, dn: seq<int>,
                        inSt: set<int>, restr: set<int>, k: int, sIdx: int, a: int, path: seq<int>, it: seq<set<int>>, lo: seq<int>,
                        i: int, ns0: seq<int>, A0: set<int>, chains0: seq<seq<int>>,
                        ns: seq<int>, fst: seq<int>, nx: seq<int>, nb: int, cs: seq<seq<int>>, A: set<int>,
                        live': set<int>, res': set<int>, ns': seq<int>, fst': seq<int>, nx': seq<int>, cs': seq<seq<int>>, A': set<int>)
    requires DfsCore(n, start, R0, st, no, dn, inSt, restr, k, sIdx) && 0 <= a < sIdx && st[a] == i && |ns| == n
    requires Lists(ns, fst, nx, nb, cs, A) && Closing(ns0, A0, chains0, R0, restr, ns, cs, A)
    requires R0 <= U && Low(g, U, k, path, no, dn, inSt, restr, it, lo) && it[i] == {} && (i == 0 || lo[i] >= i)
    requires SCCsClosed(g, U, restr, ns)
    requires |path| >= 1 && path[|path| - 1] == i && forall t | i < t :: t !in path
    requires PopRange(st, no, ns, a, sIdx) && |fst| == n && |nx| == n && 0 <= nb < n
    requires var ps := PopsFrom(Pops(inSt, restr, A, ns, fst, nx, []), st, no, nb, a, sIdx);
             live' == ps.live && res' == ps.res && ns' == ps.ns && fst' == ps.fst && nx' == ps.nx && A' == ps.lst
             && cs' == cs + [ps.cur]
    ensures DfsCore(n, start, R0, st, no, dn, live', res', k, a)
    ensures Lists(ns', fst', nx', nb + 1, cs', A') && Closing(ns0, A0, chains0, R0, res', ns', cs', A')
    ensures forall s | 0 <= s < i :: s in live' <==> s in inSt
    ensures SCCsClosed(g, U, res', ns') && res' <= restr
    ensures forall s | i <= s <= k :: s !in live'
    ensures forall s | 0 <= s <= k && s in live' :: s in inSt
    ensures a == 0 ==> forall x | x in res' :: dn[x] == 0 && x != start
  {
    PopPlan(n, start, R0, st, no, dn, k, sIdx, a, ns0, A0, chains0, inSt, restr, A, ns, fst, nx, nb, cs);
    PoppedSet(n, start, R0, st, no, dn, inSt, restr, k, sIdx, a, live', res');
    PopCloses(g, U, n, start, R0, st, no, dn, inSt, restr, k, sIdx, path, it, lo, i, res', ns0, A0, chains0,
              ns, fst, nx, nb, cs, A, ns', fst', nx', cs', A');
  }

  /**
   * The ids during one `findSCC` call: nodes still in the restriction have
   * none, the nodes it has closed have ids from `S0` on, and the nodes
   * outside `R0` keep the ids `ns0` they had.
   */
  ghost predicate IdsFrom(ns: seq<int>, ns0: seq<int>, R0: set<int>, restr: set<int>, S0: int)
  {
    |ns0| == |ns|
    && (forall x | x in restr :: 0 <= x < |ns| && ns[x] == -1)
    && (forall x | x in R0 && x !in restr :: 0 <= x < |ns| && S0 <= ns[x])
    && (forall x | 0 <= x < |ns| && x !in R0 :: ns[x] == ns0[x])
  }

  /** Giving the restricted node `y` an id from `S0` on keeps the ids in order. */
  lemma IdsStep(ns: seq<int>, ns0: seq<int>, R0: set<int>, restr: set<int>, S0: int, y: int, c: int)
    requires IdsFrom(ns, ns0, R0, restr, S0) && y in restr && y in R0 && S0 <= c
    ensures IdsFrom(ns[y := c], ns0, R0, restr - {y}, S0)
  {
  }

  /** A new number fits: the numbered nodes are `k + 1` different nodes below `n`, and `j` is another. */
  lemma RoomForNode(n: int, no: seq<int>, dn: seq<int>, k: int, j: int)
    requires |no| == n && |dn| == n && 0 <= k < n && 0 <= j < n
    requires forall s | 0 <= s <= k :: 0 <= no[s] < n && dn[no[s]] == s && no[s] != j
    ensures k + 1 < n
  {
    var f := (s: int) => if 0 <= s <= k then no[s] else j;
    forall a, b | a in Range(0, k + 2) && b in Range(0, k + 2) && a != b ensures f(a) != f(b) {
      if a <= k && b <= k {
        assert dn[no[a]] == a && dn[no[b]] == b;
      }
    }
    Pigeonhole(Range(0, k + 2), Range(0, n), f);
  }

  /** The search right after its initialisation: only `start`, numbered 0, is on the stack. */
  lemma StartSearch(n: int, start: int, R0: set<int>, st: seq<int>, pp: seq<int>, no: seq<int>, dn: seq<int>, inSt: set<int>)
    requires |st| == n && |pp| == n && |no| == n && |dn| == n && start in R0
    requires forall x | x in R0 :: 0 <= x < n && dn[x] == 0
    ensures DfsCore(n, start, R0, st[0 := 0], no[0 := start], dn[start := 0], inSt + {0}, R0, 0, 1)
    ensures TreePath(pp[0 := 0], inSt + {0}, 0, 0, [0])
  {
    var st', inSt' := st[0 := 0], inSt + {0};
    assert st'[0] == 0;
  }

  /** Before anything is closed, the closing record holds with the ids, holders and lists as they are. */
  lemma ClosingStart(ns: seq<int>, A: set<int>, chains: seq<seq<int>>, R0: set<int>, fst: seq<int>, nx: seq<int>, nb: int)
    requires Lists(ns, fst, nx, nb, chains, A) && forall x | x in R0 :: 0 <= x < |ns| && ns[x] == -1
    ensures Closing(ns, A, chains, R0, R0, ns, chains, A)
  {
  }

  /** Numbering the unvisited node `j` as `k + 1` and pushing the number keeps the stack and the numbering. */
  lemma DescendStep(n: int, start: int, R0: set<int>, st: seq<int>, no: seq<int>, dn: seq<int>,
                    inSt: set<int>, restr: set<int>, k: int, sIdx: int, j: int)
    requires DfsCore(n, start, R0, st, no, dn, inSt, restr, k, sIdx) && 1 <= sIdx
    requires j in restr && dn[j] == 0 && j != start
    ensures k + 1 < n && sIdx < n
    ensures DfsCore(n, start, R0, st[sIdx := k + 1], no[k + 1 := j], dn[j := k + 1], inSt + {k + 1}, restr, k + 1, sIdx + 1)
  {
    assert forall s | 0 <= s <= k :: no[s] != j;
    RoomForNode(n, no, dn, k, j);
    AscendingPush(st, sIdx, k + 1);
    var st' := st[sIdx := k + 1];
    var inSt' := inSt + {k + 1};
    forall s | 0 <= s <= k + 1 && s in inSt' ensures exists a | 0 <= a < sIdx + 1 :: st'[a] == s {
      if s == k + 1 {
        assert st'[sIdx] == s;
      } else {
        var a :| 0 <= a < sIdx && st[a] == s;
        assert st'[a] == s;
      }
    }
  }

  /** An unvisited restricted node leaves room for one more number and one more stack slot. */
  lemma RoomForDescent(n: int, start: int, R0: set<int>, st: seq<int>, no: seq<int>, dn: seq<int>,
                       inSt: set<int>, restr: set<int>, k: int, sIdx: int, j: int)
    requires DfsCore(n, start, R0, st, no, dn, inSt, restr, k, sIdx)
    requires j in restr && dn[j] == 0 && j != start
    ensures k + 1 < n && sIdx < n
  {
    assert forall s | 0 <= s <= k :: no[s] != j;
    RoomForNode(n, no, dn, k, j);
  }

  /** The state after a descent into `j`, numbered `k + 1` as a child of `i`, keeps the stack, the numbering and the tree path. */
  lemma Descended(n: int, start: int, R0: set<int>, st: seq<int>, no: seq<int>, dn: seq<int>,
                  inSt: set<int>, restr: set<int>, k: int, sIdx: int, j: int, pp: seq<int>, i: int, path: seq<int>,
                  st': seq<int>, no': seq<int>, dn': seq<int>, inSt': set<int>, restr': set<int>, pp': seq<int>, path': seq<int>)
    requires DfsCore(n, start, R0, st, no, dn, inSt, restr, k, sIdx) && 1 <= sIdx && k + 1 < n && sIdx < n
    requires TreePath(pp, inSt, k, i, path) && |pp| == n
    requires j in restr && dn[j] == 0 && j != start
    requires st' == st[sIdx := k + 1] && no' == no[k + 1 := j] && dn' == dn[j := k + 1] && pp' == pp[k + 1 := i]
    requires inSt' == inSt + {k + 1} && restr' == restr && path' == path + [k + 1]
    ensures DfsCore(n, start, R0, st', no', dn', inSt', restr', k + 1, sIdx + 1)
    ensures TreePath(pp', inSt', k + 1, k + 1, path')
  {
    DescendStep(n, start, R0, st, no, dn, inSt, restr, k, sIdx, j);
    DescendPath(pp, inSt, k, i, path);
  }

  /** The new number `k + 1` is a child of `i`: the tree path grows by it. */
  lemma DescendPath(pp: seq<int>, inSt: set<int>, k: int, i: int, path: seq<int>)
    requires TreePath(pp, inSt, k, i, path) && k + 1 < |pp|
    ensures TreePath(pp[k + 1 := i], inSt + {k + 1}, k + 1, k + 1, path + [k + 1])
  {
    var pp', path' := pp[k + 1 := i], path + [k + 1];
    forall t | 0 < t < |path'| ensures pp'[path'[t]] == path'[t - 1] {
      if t < |path| {
        assert path'[t] == path[t] && path[t] <= k;
      }
    }
  }

  /**
   * Backtracking from `i` to its parent: the tree path loses its last
   * number, and numbers above the parent may leave `inSt`.
   */
  lemma RetreatPath(pp: seq<int>, inSt: set<int>, inSt': set<int>, k: int, i: int, path: seq<int>)
    requires TreePath(pp, inSt, k, i, path) && i != 0
    requires forall s | 0 <= s < i :: s in inSt' <==> s in inSt
    ensures |path| >= 2 && pp[i] == path[|path| - 2] && 0 <= pp[i] < i
    ensures TreePath(pp, inSt', k, pp[i], path[..|path| - 1])
  {
    var path' := path[..|path| - 1];
    forall t | 0 <= t < |path'| ensures path'[t] < i && path'[t] in inSt' {
      assert path[t] < path[|path| - 1];
    }
  }

  /**
   * Popping the top of the stack: its number leaves `inSt` and its node
   * leaves the restriction. The node was in the restriction.
   */
  lemma PopStep(n: int, start: int, R0: set<int>, st: seq<int>, no: seq<int>, dn: seq<int>,
                inSt: set<int>, restr: set<int>, k: int, sIdx: int)
    requires DfsCore(n, start, R0, st, no, dn, inSt, restr, k, sIdx) && 1 <= sIdx
    ensures no[st[sIdx - 1]] in restr && no[st[sIdx - 1]] in R0
    ensures DfsCore(n, start, R0, st, no, dn, inSt - {st[sIdx - 1]}, restr - {no[st[sIdx - 1]]}, k, sIdx - 1)
  {
    var z := st[sIdx - 1];
    var inSt' := inSt - {z};
    AscendingPrefix(st, sIdx, st, sIdx - 1);
    AscendingTop(st, sIdx);
    forall s | 0 <= s <= k && s in inSt' ensures exists a | 0 <= a < sIdx - 1 :: st[a] == s {
      var a :| 0 <= a < sIdx && st[a] == s;
    }
    forall s | 0 <= s <= k ensures no[s] in restr - {no[z]} <==> s in inSt' {
      if no[s] == no[z] {
        assert dn[no[s]] == s && dn[no[z]] == z;
      }
    }
  }

  /** With the stack empty, no node of the restriction is numbered, and `start` has left it. */
  lemma StackEmpty(n: int, start: int, R0: set<int>, st: seq<int>, no: seq<int>, dn: seq<int>,
                   inSt: set<int>, restr: set<int>, k: int, sIdx: int)
    requires DfsCore(n, start, R0, st, no, dn, inSt, restr, k, sIdx) && sIdx == 0
    ensures forall x | x in restr :: dn[x] == 0 && x != start
  {
  }

  /**
   * What the pop loops of `findSCC` change: the numbers on the stack
   * (`live`), the restriction, the nodes with an id, the arrays `nodeSCC`,
   * `sccFirstNode` and `nextNode`, and the list `cur` of the component being
   * built.
   */
  datatype Pops = Pops(live: set<int>, res: set<int>, lst: set<int>,
                       ns: seq<int>, fst: seq<int>, nx: seq<int>, cur: seq<int>)

  /** The stack positions `[t, top)` hold numbers of nodes below `|ns|`. */
  ghost predicate PopRange(st: seq<int>, no: seq<int>, ns: seq<int>, t: int, top: int)
  {
    0 <= t <= top <= |st| && forall j | t <= j < top :: 0 <= st[j] < |no| && 0 <= no[st[j]] < |ns|
  }

  /**
   * One pop into component `nb`: the number at stack position `t` leaves the
   * stack; its node `y` leaves the restriction, gets the id `nb` and becomes
   * the head of the component's list (`sccAdd`).
   */
  ghost function Pop1(g: Pops, st: seq<int>, no: seq<int>, nb: int, t: int): (r: Pops)
    requires PopRange(st, no, g.ns, t, t + 1) && |g.nx| == |g.ns| && 0 <= nb < |g.fst|
    ensures |r.ns| == |g.ns| && |r.nx| == |g.nx| && |r.fst| == |g.fst|
  {
    var z := st[t];
    var y := no[z];
    Pops(g.live - {z}, g.res - {y}, g.lst + {y}, g.ns[y := nb], g.fst[nb := y], g.nx[y := g.fst[nb]], [y] + g.cur)
  }

  /** The pops of the stack positions from `top - 1` down to `t`, starting from `g0`. */
  ghost function PopsFrom(g0: Pops, st: seq<int>, no: seq<int>, nb: int, t: int, top: int): (r: Pops)
    requires PopRange(st, no, g0.ns, t, top) && |g0.nx| == |g0.ns| && 0 <= nb < |g0.fst|
    ensures |r.ns| == |g0.ns| && |r.nx| == |g0.nx| && |r.fst| == |g0.fst|
    decreases top - t
  {
    if t == top then g0 else Pop1(PopsFrom(g0, st, no, nb, t + 1, top), st, no, nb, t)
  }

  /**
   * The state `g` of a pop loop into the open component `nb`, with the
   * stack cut at `t`: the search keeps its shape, the lists hold the closed
   * components and the open one, and the closing record holds.
   */
  ghost predicate PopInv(n: int, start: int, R0: set<int>, st: seq<int>, no: seq<int>, dn: seq<int>, k: int,
                         ns0: seq<int>, A0: set<int>, chains0: seq<seq<int>>, chains: seq<seq<int>>, nb: int, g: Pops, t: int)
  {
    DfsCore(n, start, R0, st, no, dn, g.live, g.res, k, t)
    && ListsUpTo(g.ns, g.fst, g.nx, nb + 1, chains + [g.cur], g.lst)
    && Closing(ns0, A0, chains0, R0, g.res, g.ns, chains, g.lst)
  }

  /**
   * One pop into the open component `nb` keeps the pop-loop state: the
   * number at position `t` leaves the stack, and its node, which was in the
   * restriction and had no id, is closed.
   */
  lemma Pop1Keeps(n: int, start: int, R0: set<int>, st: seq<int>, no: seq<int>, dn: seq<int>, k: int,
                  ns0: seq<int>, A0: set<int>, chains0: seq<seq<int>>, chains: seq<seq<int>>, nb: int, g: Pops, t: int)
    requires PopInv(n, start, R0, st, no, dn, k, ns0, A0, chains0, chains, nb, g, t + 1)
    requires |g.ns| == n && 0 <= t && nb == |chains|
    ensures PopRange(st, no, g.ns, t, t + 1)
    ensures PopInv(n, start, R0, st, no, dn, k, ns0, A0, chains0, chains, nb, Pop1(g, st, no, nb, t), t)
    ensures |Pop1(g, st, no, nb, t).lst| == |g.lst| + 1
  {
    PopStep(n, start, R0, st, no, dn, g.live, g.res, k, t + 1);
    var y := no[st[t]];
    ClosingStep(ns0, A0, chains0, R0, g.res, g.ns, chains, g.lst, y, nb);
    SccAddStep(g.ns, g.fst, g.nx, nb, chains, g.lst, g.cur, y);
  }

  /**
   * Popping the stack positions `[t, top)` into the open component `nb`
   * keeps the pop-loop state, given that the pops of `[s, top)` did; each
   * pop adds one node to the component.
   */
  lemma PopsKeep(n: int, start: int, R0: set<int>, st: seq<int>, no: seq<int>, dn: seq<int>,
                                    k: int, top: int, ns0: seq<int>, A0: set<int>, chains0: seq<seq<int>>,
                                    chains: seq<seq<int>>, nb: int, g0: Pops, t: int, s: int)
    requires |g0.ns| == n && nb == |chains| && 0 <= t <= s <= top
    requires PopRange(st, no, g0.ns, s, top) && |g0.nx| == |g0.ns| && 0 <= nb < |g0.fst|
    requires PopInv(n, start, R0, st, no, dn, k, ns0, A0, chains0, chains, nb, PopsFrom(g0, st, no, nb, s, top), s)
    ensures PopRange(st, no, g0.ns, t, top)
    ensures PopInv(n, start, R0, st, no, dn, k, ns0, A0, chains0, chains, nb, PopsFrom(g0, st, no, nb, t, top), t)
    ensures |PopsFrom(g0, st, no, nb, t, top).cur| == |PopsFrom(g0, st, no, nb, s, top).cur| + s - t
    ensures |PopsFrom(g0, st, no, nb, t, top).lst| == |PopsFrom(g0, st, no, nb, s, top).lst| + s - t
  {
    var u := s;
    while u > t
      invariant t <= u <= s && PopRange(st, no, g0.ns, u, top)
      // bound to `ok` so that the state is checked whole rather than conjunct by conjunct
      invariant var ok := PopInv(n, start, R0, st, no, dn, k, ns0, A0, chains0, chains, nb, PopsFrom(g0, st, no, nb, u, top), u); ok
      invariant |PopsFrom(g0, st, no, nb, u, top).cur| == |PopsFrom(g0, st, no, nb, s, top).cur| + s - u
      invariant |PopsFrom(g0, st, no, nb, u, top).lst| == |PopsFrom(g0, st, no, nb, s, top).lst| + s - u
    {
      PopsStep(n, start, R0, st, no, dn, k, top, ns0, A0, chains0, chains, nb, g0, u - 1);
      u := u - 1;
    }
  }

  /** The pop at position `t`, after those of `[t + 1, top)`, keeps the pop-loop state. */
  lemma PopsStep(n: int, start: int, R0: set<int>, st: seq<int>, no: seq<int>, dn: seq<int>,
                 k: int, top: int, ns0: seq<int>, A0: set<int>, chains0: seq<seq<int>>,
                 chains: seq<seq<int>>, nb: int, g0: Pops, t: int)
    requires |g0.ns| == n && nb == |chains| && 0 <= t < top
    requires PopRange(st, no, g0.ns, t + 1, top) && |g0.nx| == |g0.ns| && 0 <= nb < |g0.fst|
    requires PopInv(n, start, R0, st, no, dn, k, ns0, A0, chains0, chains, nb, PopsFrom(g0, st, no, nb, t + 1, top), t + 1)
    requires |PopsFrom(g0, st, no, nb, t + 1, top).ns| == n
    ensures PopRange(st, no, g0.ns, t, top)
    ensures PopInv(n, start, R0, st, no, dn, k, ns0, A0, chains0, chains, nb, PopsFrom(g0, st, no, nb, t, top), t)
    ensures |PopsFrom(g0, st, no, nb, t, top).cur| == |PopsFrom(g0, st, no, nb, t + 1, top).cur| + 1
    ensures |PopsFrom(g0, st, no, nb, t, top).lst| == |PopsFrom(g0, st, no, nb, t + 1, top).lst| + 1
  {
    var g1 := PopsFrom(g0, st, no, nb, t + 1, top);
    Pop1Keeps(n, start, R0, st, no, dn, k, ns0, A0, chains0, chains, nb, g1, t);
    assert PopsFrom(g0, st, no, nb, t, top) == Pop1(g1, st, no, nb, t);
  }

  /**
   * Popping the stack positions `[t, top)`, whose numbers increase, only
   * removes restricted nodes and only takes numbers from `st[t]` on off the
   * stack.
   */
  lemma {:induction false} PopsBelow(st: seq<int>, no: seq<int>, nb: int, g0: Pops, t: int, top: int)
    requires PopRange(st, no, g0.ns, t, top) && |g0.nx| == |g0.ns| && 0 <= nb < |g0.fst|
    requires forall a, b | t <= a < b < top :: st[a] < st[b]
    ensures var g := PopsFrom(g0, st, no, nb, t, top);
            g.res <= g0.res && (t < top ==> forall s | s < st[t] :: s in g.live <==> s in g0.live)
    decreases top - t
  {
    if t < top {
      PopsBelow(st, no, nb, g0, t + 1, top);
      var g1 := PopsFrom(g0, st, no, nb, t + 1, top);
      assert PopsFrom(g0, st, no, nb, t, top) == Pop1(g1, st, no, nb, t);
      if t + 1 < top {
        assert st[t] < st[t + 1];
      }
    }
  }

  /** The test of `findSingletons`: a node of the graph whose predecessor count times successor count is 0. */
  predicate Isolated(g: Digraph, x: int)
  {
    x in g.nodes && |Pred(g, x)| * |Succ(g, x)| == 0
  }

  /** An isolated node has no predecessor or no successor. */
  lemma NoArcsSide(g: Digraph, x: int)
    requires Isolated(g, x)
    ensures Pred(g, x) == {} || Succ(g, x) == {}
  {
    if |Pred(g, x)| != 0 {
      assert |Succ(g, x)| == 0;
    }
  }

  /** The nodes of the graph below `n`, the restriction set by `findAllSCC`. */
  ghost function NodesBelow(g: Digraph, n: int): set<int>
  {
    set x | x in g.nodes && 0 <= x < n
  }

  /** Nodes of the restriction lie in `[0, |dn|)`, are unnumbered and have no id. */
  ghost predicate Unvisited(restr: set<int>, dn: seq<int>, ns: seq<int>)
  {
    |dn| == |ns| && forall x | x in restr :: 0 <= x < |ns| && dn[x] == 0 && ns[x] == -1
  }

  /**
   * What closing components from the restriction `R0` has done, starting
   * from the ids `ns0`, the id holders `A0` and the lists `chains0`: the
   * nodes still restricted have no id, the others of `R0` have a new id, the
   * rest keep theirs, the earlier lists are kept, and the id holders are
   * the old ones plus the closed nodes.
   */
  ghost predicate Closing(ns0: seq<int>, A0: set<int>, chains0: seq<seq<int>>, R0: set<int>,
                          restr: set<int>, ns: seq<int>, chains: seq<seq<int>>, A: set<int>)
  {
    IdsFrom(ns, ns0, R0, restr, |chains0|)
    && |chains0| <= |chains| && (forall c | 0 <= c < |chains0| :: chains[c] == chains0[c])
    && (forall x :: x in A <==> x in A0 || (x in R0 && x !in restr))
  }

  /** Closing the restricted node `y` into component `nb`, numbered from `|chains0|` on, adds one id holder. */
  lemma ClosingStep(ns0: seq<int>, A0: set<int>, chains0: seq<seq<int>>, R0: set<int>,
                    restr: set<int>, ns: seq<int>, chains: seq<seq<int>>, A: set<int>, y: int, nb: int)
    requires Closing(ns0, A0, chains0, R0, restr, ns, chains, A) && y in restr && y in R0 && |chains0| <= nb
    requires forall x :: x in A ==> 0 <= x < |ns| && ns[x] != -1
    ensures Closing(ns0, A0, chains0, R0, restr - {y}, ns[y := nb], chains, A + {y})
    ensures |A + {y}| == |A| + 1
  {
    IdsStep(ns, ns0, R0, restr, |chains0|, y, nb);
    assert y !in A;
  }

  /** Two rounds of closing components make one. */
  lemma ClosingTrans(ns0: seq<int>, A0: set<int>, chains0: seq<seq<int>>, R0: set<int>,
                     r1: set<int>, ns1: seq<int>, chains1: seq<seq<int>>, A1: set<int>,
                     r2: set<int>, ns2: seq<int>, chains2: seq<seq<int>>, A2: set<int>)
    requires Closing(ns0, A0, chains0, R0, r1, ns1, chains1, A1) && r1 <= R0
    requires Closing(ns1, A1, chains1, r1, r2, ns2, chains2, A2) && r2 <= r1
    ensures Closing(ns0, A0, chains0, R0, r2, ns2, chains2, A2)
  {
  }

  /**
   * The pass of `findSingletons` up to `lo`: the nodes of `R0` below `lo`
   * that are isolated (the set `iso`) have left the restriction as
   * components of their own.
   */
  ghost predicate Singles(iso: set<int>, R0: set<int>, ns0: seq<int>, A0: set<int>, chains0: seq<seq<int>>,
                          restr: set<int>, ns: seq<int>, chains: seq<seq<int>>, A: set<int>, lo: int)
  {
    Closing(ns0, A0, chains0, R0, restr, ns, chains, A) && restr <= R0
    && (forall x | x in R0 :: x in restr <==> lo <= x || x !in iso)
    && (forall x | x in R0 && x !in restr :: 0 <= ns[x] < |chains| && chains[ns[x]] == [x])
  }

  /** `findSingletons` takes the isolated node `i`, the next one from `lo`. */
  lemma SinglesTake(iso: set<int>, R0: set<int>, ns0: seq<int>, A0: set<int>, chains0: seq<seq<int>>, dn: seq<int>,
                    restr: set<int>, ns: seq<int>, fst: seq<int>, nx: seq<int>, nb: int, chains: seq<seq<int>>,
                    A: set<int>, lo: int, i: int)
    requires Singles(iso, R0, ns0, A0, chains0, restr, ns, chains, A, lo) && Lists(ns, fst, nx, nb, chains, A)
    requires Unvisited(restr, dn, ns) && i == NextSetBit(restr, lo) && i != -1 && i in iso
    ensures nb < |ns| && Lists(ns[i := nb], fst[nb := i], nx, nb + 1, chains + [[i]], A + {i})
    ensures Unvisited(restr - {i}, dn, ns[i := nb])
    ensures Singles(iso, R0, ns0, A0, chains0, restr - {i}, ns[i := nb], chains + [[i]], A + {i}, i + 1)
  {
    SingletonStep(ns, fst, nx, nb, chains, A, i);
    ClosingStep(ns0, A0, chains0, R0, restr, ns, chains, A, i, nb);
    var chains' := chains + [[i]];
    forall x | x in R0 && x !in restr - {i} ensures 0 <= ns[i := nb][x] < |chains'| && chains'[ns[i := nb][x]] == [x] {
      if x != i {
        assert chains'[ns[x]] == chains[ns[x]];
      }
    }
  }

  /** `findSingletons` passes over the node `i`, which is not isolated. */
  lemma SinglesSkip(iso: set<int>, R0: set<int>, ns0: seq<int>, A0: set<int>, chains0: seq<seq<int>>,
                    restr: set<int>, ns: seq<int>, chains: seq<seq<int>>, A: set<int>, lo: int, i: int)
    requires Singles(iso, R0, ns0, A0, chains0, restr, ns, chains, A, lo)
    requires (forall x | x in restr :: 0 <= x) && i == NextSetBit(restr, lo) && i != -1 && i !in iso
    ensures Singles(iso, R0, ns0, A0, chains0, restr, ns, chains, A, i + 1)
  {
  }

  /**
   * A pop loop and the `nbSCC++` after it, from the stack height `sIdx`
   * down to position `a`, planned from the state before it: the numbers
   * above `st[a]` are larger and belong to other nodes; after the pops the
   * search keeps its shape with the stack cut at `a`, one non-empty
   * component is added to the lists, the closed nodes have left the
   * restriction, and numbers below `st[a]` stay on the stack. Cut at 0, the
   * stack is empty and no node of the restriction is numbered.
   */
  lemma PopPlan(n: int, start: int, R0: set<int>, st: seq<int>, no: seq<int>, dn: seq<int>, k: int, sIdx: int,
                a: int, ns0: seq<int>, A0: set<int>, chains0: seq<seq<int>>,
                live: set<int>, res: set<int>, lst: set<int>, ns: seq<int>, fst: seq<int>, nx: seq<int>,
                nb: int, chains: seq<seq<int>>)
    requires DfsCore(n, start, R0, st, no, dn, live, res, k, sIdx)
    requires Lists(ns, fst, nx, nb, chains, lst)
    requires Closing(ns0, A0, chains0, R0, res, ns, chains, lst)
    requires 0 <= a < sIdx && |ns| == n
    ensures 0 <= nb < n && PopRange(st, no, ns, a, sIdx) && |fst| == n && |nx| == n
    ensures forall j | a < j < sIdx :: st[a] < st[j] && no[st[j]] != no[st[a]]
    ensures var g := PopsFrom(Pops(live, res, lst, ns, fst, nx, []), st, no, nb, a, sIdx);
            DfsCore(n, start, R0, st, no, dn, g.live, g.res, k, a)
            && Lists(g.ns, g.fst, g.nx, nb + 1, chains + [g.cur], g.lst)
            && Closing(ns0, A0, chains0, R0, g.res, g.ns, chains + [g.cur], g.lst) && g.res <= res
            && (forall s | 0 <= s < st[a] :: s in g.live <==> s in live)
            && (a == 0 ==> no[st[a]] == start && forall x | x in g.res :: dn[x] == 0 && x != start)
  {
    var g0 := Pops(live, res, lst, ns, fst, nx, []);
    PopOpen(n, start, R0, st, no, dn, k, sIdx, ns0, A0, chains0, live, res, lst, ns, fst, nx, nb, chains);
    assert PopsFrom(g0, st, no, nb, sIdx, sIdx) == g0;
    PopsKeep(n, start, R0, st, no, dn, k, sIdx, ns0, A0, chains0, chains, nb, g0, a, sIdx);
    AscendingPairs(st, sIdx);
    PopsBelow(st, no, nb, g0, a, sIdx);
    var g := PopsFrom(g0, st, no, nb, a, sIdx);
    PopFinish(ns0, A0, chains0, R0, g.res, g.ns, g.fst, g.nx, nb, chains, g.lst, g.cur);
    forall j | a < j < sIdx ensures st[a] < st[j] && no[st[j]] != no[st[a]] {
      assert dn[no[st[j]]] == st[j] && dn[no[st[a]]] == st[a];
    }
    if a == 0 {
      StackEmpty(n, start, R0, st, no, dn, g.live, g.res, k, a);
    }
  }

  /** Before a pop loop the open component `nb` can be added: it starts empty. */
  lemma PopOpen(n: int, start: int, R0: set<int>, st: seq<int>, no: seq<int>, dn: seq<int>, k: int, sIdx: int,
                ns0: seq<int>, A0: set<int>, chains0: seq<seq<int>>,
                live: set<int>, res: set<int>, lst: set<int>, ns: seq<int>, fst: seq<int>, nx: seq<int>,
                nb: int, chains: seq<seq<int>>)
    requires DfsCore(n, start, R0, st, no, dn, live, res, k, sIdx) && 1 <= sIdx && |ns| == n
    requires Lists(ns, fst, nx, nb, chains, lst)
    requires Closing(ns0, A0, chains0, R0, res, ns, chains, lst)
    ensures nb < n && nb == |chains| && |lst| >= nb
    ensures ListsUpTo(ns, fst, nx, nb + 1, chains + [[]], lst)
  {
    PopStep(n, start, R0, st, no, dn, live, res, k, sIdx);
    OpenComponent(ns, fst, nx, nb, chains, lst, no[st[sIdx - 1]]);
  }

  /** After a pop loop that closed at least one node, the open component is closed and recorded. */
  lemma PopFinish(ns0: seq<int>, A0: set<int>, chains0: seq<seq<int>>, R0: set<int>,
                  res: set<int>, ns: seq<int>, fst: seq<int>, nx: seq<int>, nb: int, chains: seq<seq<int>>,
                  lst: set<int>, cur: seq<int>)
    requires ListsUpTo(ns, fst, nx, nb + 1, chains + [cur], lst) && |cur| > 0 && nb + 1 <= |lst|
    requires forall c | 0 <= c < nb :: |chains[c]| > 0
    requires Closing(ns0, A0, chains0, R0, res, ns, chains, lst)
    ensures Lists(ns, fst, nx, nb + 1, chains + [cur], lst)
    ensures Closing(ns0, A0, chains0, R0, res, ns, chains + [cur], lst)
  {
    CloseComponent(ns, fst, nx, nb, chains, lst, cur);
    var chains' := chains + [cur];
    assert forall c | 0 <= c < |chains| :: chains'[c] == chains[c];
  }

  class SCCFinder {
    /** `graph.getNbMaxNodes()`: the nodes are `[0, n)`. */
    const n: nat
    const stack: array<int>
    const p: array<int>
    const inf: array<int>
    const nodeOfDfsNum: array<int>
    const dfsNumOfNode: array<int>
    /** The successors each numbered node has still to visit (`iterator`). */
    const iterators: array<set<int>>
    const sccFirstNode: array<int>
    const nextNode: array<int>
    const nodeSCC: array<int>
    var inStack: set<int>
    var restriction: set<int>
    var nbSCC: int
    /** The component lists that `sccFirstNode` and `nextNode` spell. */
    ghost var chains: seq<seq<int>>
    /** The nodes that have a component id. */
    ghost var listed: set<int>

    /** Array sizes, and no two arrays are the same. */
    ghost predicate Shape()
    {
      stack.Length == n && p.Length == n && inf.Length == n && nodeOfDfsNum.Length == n
      && dfsNumOfNode.Length == n && iterators.Length == n && sccFirstNode.Length == n
      && nextNode.Length == n && nodeSCC.Length == n
      && stack !in {p, inf, nodeOfDfsNum, dfsNumOfNode, sccFirstNode, nextNode, nodeSCC}
      && p !in {inf, nodeOfDfsNum, dfsNumOfNode, sccFirstNode, nextNode, nodeSCC}
      && inf !in {nodeOfDfsNum, dfsNumOfNode, sccFirstNode, nextNode, nodeSCC}
      && nodeOfDfsNum !in {dfsNumOfNode, sccFirstNode, nextNode, nodeSCC}
      && dfsNumOfNode !in {sccFirstNode, nextNode, nodeSCC}
      && sccFirstNode !in {nextNode, nodeSCC}
      && nextNode != nodeSCC
    }

    /** The component lists agree with `nodeSCC`. */
    ghost predicate ListsOk()
      reads this, nodeSCC, sccFirstNode, nextNode
    {
      Lists(nodeSCC[..], sccFirstNode[..], nextNode[..], nbSCC, chains, listed)
    }

    /** Between two `findSCC` calls: restricted nodes lie in `[0, n)`, are unnumbered and have no id. */
    ghost predicate Fresh()
      reads this, dfsNumOfNode, nodeSCC
    {
      Unvisited(restriction, dfsNumOfNode[..], nodeSCC[..])
    }

    /** The arrays are in shape and the restriction lies in `[0, n)`. */
    /** Tarjan's invariant on the arrays, over the subgraph on `U`, with the tree path `path` and the numbers up to `k`. */
    ghost predicate Lowlinks(g: Digraph, U: set<int>, k: int, path: seq<int>)
      reads this, nodeOfDfsNum, dfsNumOfNode, iterators, inf
    {
      Low(g, U, k, path, nodeOfDfsNum[..], dfsNumOfNode[..], inStack, restriction, iterators[..], inf[..])
    }

    ghost predicate Valid()
      reads this
    {
      Shape() && forall x | x in restriction :: 0 <= x < n
    }

    constructor (n: nat)
      ensures Valid() && this.n == n && restriction == {} && nbSCC == 0
    {
      this.n := n;
      stack := new int[n];
      p := new int[n];
      inf := new int[n];
      nodeOfDfsNum := new int[n];
      dfsNumOfNode := new int[n];
      iterators := new set<int>[n](_ => {});
      sccFirstNode := new int[n];
      nextNode := new int[n];
      nodeSCC := new int[n];
      inStack := {};
      restriction := {};
      nbSCC := 0;
      chains := [];
      listed := {};
    }

    /**
     * `findAllSCC()`: the restriction becomes the graph's nodes below `n`,
     * and every one of them gets a component.
     */
    method FindAllSCC(g: Digraph)
      requires Valid()
      modifies this`restriction, this`inStack, this`nbSCC, this`chains, this`listed
      modifies stack, p, inf, nodeOfDfsNum, dfsNumOfNode, iterators, sccFirstNode, nextNode, nodeSCC
      ensures Valid() && restriction == {} && ListsOk()
      ensures forall x :: x in listed <==> x in g.nodes && 0 <= x < n
      ensures forall x | x in g.nodes && 0 <= x < n && Isolated(g, x) :: chains[nodeSCC[x]] == [x]
      ensures forall x, y | x in NodesBelow(g, n) && y in NodesBelow(g, n) ::
                nodeSCC[x] == nodeSCC[y] <==> Reaches(g, NodesBelow(g, n), x, y) && Reaches(g, NodesBelow(g, n), y, x)
    {
      var i := 0;
      while i < n
        invariant 0 <= i <= n
        invariant forall x :: x in restriction <==> (0 <= x < i && x in g.nodes) || (i <= x < n && x in old(restriction))
      {
        if i in g.nodes {
          restriction := restriction + {i};
        } else {
          restriction := restriction - {i};
        }
        i := i + 1;
      }
      forall x ensures x in restriction <==> x in NodesBelow(g, n) {
      }
      assert restriction == NodesBelow(g, n);
      FindAllSCCOf(g);
    }

    /**
     * `findAllSCCOf(restriction)`: after the reset, every node of the
     * restriction gets a component id, nodes outside keep -1, and the
     * restriction ends empty.
     */
    method FindAllSCCOf(g: Digraph)
      requires Valid()
      modifies this`restriction, this`inStack, this`nbSCC, this`chains, this`listed
      modifies stack, p, inf, nodeOfDfsNum, dfsNumOfNode, iterators, sccFirstNode, nextNode, nodeSCC
      ensures Valid() && restriction == {} && ListsOk()
      ensures forall x :: x in listed <==> x in old(restriction)
      ensures forall x | x in old(restriction) && Isolated(g, x) :: chains[nodeSCC[x]] == [x]
      ensures forall x, y | x in old(restriction) && y in old(restriction) ::
                nodeSCC[x] == nodeSCC[y] <==> Reaches(g, old(restriction), x, y) && Reaches(g, old(restriction), y, x)
    {
      ghost var R0 := restriction;
      Reset();
      ghost var ns0 := nodeSCC[..];
      NothingClosed(g, R0, ns0);
      ghost var iso := set x | x in R0 && Isolated(g, x);
      FindSingletons(g, iso, R0);
      ghost var R1, ns1, chains1 := restriction, nodeSCC[..], chains;
      SearchAll(g, R0);
      AllClosed(g, R0, nodeSCC[..]);
      forall x | x in R0 && Isolated(g, x) ensures chains[nodeSCC[x]] == [x] {
        assert x in iso && x !in R1;
        assert nodeSCC[x] == ns1[x] && chains[ns1[x]] == chains1[ns1[x]];
      }
    }

    /**
     * The loop of `findAllSCCOf` after `findSingletons`: `findSCC` from the
     * least restricted node until the restriction is empty.
     */
    method SearchAll(g: Digraph, ghost U: set<int>)
      requires Shape() && ListsOk() && Fresh()
      requires restriction <= U && SCCsClosed(g, U, restriction, nodeSCC[..])
      modifies this`restriction, this`inStack, this`nbSCC, this`chains, this`listed
      modifies stack, p, inf, nodeOfDfsNum, dfsNumOfNode, iterators, sccFirstNode, nextNode, nodeSCC
      ensures ListsOk() && Fresh() && restriction == {} && SCCsClosed(g, U, {}, nodeSCC[..])
      ensures Closing(old(nodeSCC[..]), old(listed), old(chains), old(restriction), restriction, nodeSCC[..], chains, listed)
    {
      ghost var R1, ns1, A1, chains1 := restriction, nodeSCC[..], listed, chains;
      var first := NextSetBit(restriction, 0);
      while first >= 0
        invariant ListsOk() && Fresh()
        invariant Closing(ns1, A1, chains1, R1, restriction, nodeSCC[..], chains, listed) && restriction <= R1
        invariant first == -1 ==> restriction == {}
        invariant first != -1 ==> first in restriction && forall x | x in restriction :: first <= x
        invariant restriction <= U && SCCsClosed(g, U, restriction, nodeSCC[..])
        decreases if first < 0 then 0 else n + 1 - first
      {
        first := SearchFrom(g, first, U, R1, ns1, A1, chains1);
      }
    }

    /** One turn of the search loop of `findAllSCCOf`: `findSCC` from the least restricted node `first`. */
    method SearchFrom(g: Digraph, first: int, ghost U: set<int>,
                      ghost R1: set<int>, ghost ns1: seq<int>, ghost A1: set<int>, ghost chains1: seq<seq<int>>)
      returns (next: int)
      requires Shape() && ListsOk() && Fresh() && first in restriction
      requires restriction <= U && SCCsClosed(g, U, restriction, nodeSCC[..])
      requires Closing(ns1, A1, chains1, R1, restriction, nodeSCC[..], chains, listed) && restriction <= R1
      requires forall x | x in restriction :: first <= x
      modifies this`restriction, this`inStack, this`nbSCC, this`chains, this`listed
      modifies stack, p, inf, nodeOfDfsNum, dfsNumOfNode, iterators, sccFirstNode, nextNode, nodeSCC
      ensures ListsOk() && Fresh()
      ensures Closing(ns1, A1, chains1, R1, restriction, nodeSCC[..], chains, listed) && restriction <= R1
      ensures next == -1 ==> restriction == {}
      ensures next != -1 ==> first < next < n && next in restriction && forall x | x in restriction :: next <= x
      ensures restriction <= U && SCCsClosed(g, U, restriction, nodeSCC[..])
    {
      ghost var r, ns, cs, A := restriction, nodeSCC[..], chains, listed;
      FindSCC(g, first, U);
      ClosingTrans(ns1, A1, chains1, R1, r, ns, cs, A, restriction, nodeSCC[..], chains, listed);
      next := NextSetBit(restriction, first);
      if next == -1 {
        assert forall x | x in restriction :: x < first;
        assert forall x | x in restriction :: x in r;
      }
    }

    /** The reset at the head of `findAllSCCOf`: no node is numbered, listed or given an id. */
    method Reset()
      requires Valid()
      modifies this`inStack, this`nbSCC, this`chains, this`listed, dfsNumOfNode, inf, nextNode, sccFirstNode, nodeSCC
      ensures Valid() && inStack == {} && nbSCC == 0 && chains == [] && listed == {}
      ensures Lists(nodeSCC[..], sccFirstNode[..], nextNode[..], nbSCC, chains, listed)
      ensures Unvisited(restriction, dfsNumOfNode[..], nodeSCC[..])
      ensures forall x | 0 <= x < n :: nodeSCC[x] == -1 && inf[x] == n + 2
    {
      inStack := {};
      var i := 0;
      while i < n
        invariant 0 <= i <= n && inStack == {}
        invariant forall x | 0 <= x < i :: dfsNumOfNode[x] == 0 && inf[x] == n + 2 && nextNode[x] == -1 && sccFirstNode[x] == -1 && nodeSCC[x] == -1
      {
        dfsNumOfNode[i] := 0;
        inf[i] := n + 2;
        nextNode[i] := -1;
        sccFirstNode[i] := -1;
        nodeSCC[i] := -1;
        i := i + 1;
      }
      nbSCC := 0;
      chains := [];
      listed := {};
      ListsEmpty(nodeSCC[..], sccFirstNode[..], nextNode[..]);
    }

    /**
     * `findSingletons(restriction)`: every restricted node without
     * predecessors or without successors becomes a component of its own and
     * leaves the restriction.
     */
    method FindSingletons(g: Digraph, ghost iso: set<int>, ghost U: set<int>)
      requires Shape() && ListsOk() && Fresh()
      requires forall x | x in restriction :: x in iso <==> Isolated(g, x)
      requires restriction <= U && SCCsClosed(g, U, restriction, nodeSCC[..])
      modifies this`restriction, this`nbSCC, this`chains, this`listed, nodeSCC, sccFirstNode
      ensures ListsOk() && Fresh() && restriction <= U && SCCsClosed(g, U, restriction, nodeSCC[..])
      ensures Singles(iso, old(restriction), old(nodeSCC[..]), old(listed), old(chains), restriction, nodeSCC[..], chains, listed, n)
    {
      ghost var R0, ns0, A0, chains0 := restriction, nodeSCC[..], listed, chains;
      var lo := 0;
      while true
        invariant Lists(nodeSCC[..], sccFirstNode[..], nextNode[..], nbSCC, chains, listed)
        invariant Unvisited(restriction, dfsNumOfNode[..], nodeSCC[..])
        invariant Singles(iso, R0, ns0, A0, chains0, restriction, nodeSCC[..], chains, listed, lo)
        invariant restriction <= U && SCCsClosed(g, U, restriction, nodeSCC[..])
        invariant 0 <= lo <= n
        decreases n - lo
      {
        var i := NextSetBit(restriction, lo);
        if i < 0 {
          break;
        }
        if Isolated(g, i) {
          TakeSingleton(g, iso, U, R0, ns0, A0, chains0, lo, i);
        } else {
          assert i !in iso;
          SinglesSkip(iso, R0, ns0, A0, chains0, restriction, nodeSCC[..], chains, listed, lo, i);
        }
        lo := i + 1;
      }
    }

    /** The isolated node `i`, the next node of the restriction from `lo`, is closed as a component of its own. */
    method TakeSingleton(g: Digraph, ghost iso: set<int>, ghost U: set<int>,
                         ghost R0: set<int>, ghost ns0: seq<int>, ghost A0: set<int>, ghost chains0: seq<seq<int>>, lo: int, i: int)
      requires Shape() && forall x | x in R0 :: x in iso <==> Isolated(g, x)
      requires Lists(nodeSCC[..], sccFirstNode[..], nextNode[..], nbSCC, chains, listed)
      requires Unvisited(restriction, dfsNumOfNode[..], nodeSCC[..])
      requires Singles(iso, R0, ns0, A0, chains0, restriction, nodeSCC[..], chains, listed, lo)
      requires restriction <= U && SCCsClosed(g, U, restriction, nodeSCC[..])
      requires i == NextSetBit(restriction, lo) && i != -1 && Isolated(g, i)
      modifies this`restriction, this`nbSCC, this`chains, this`listed, nodeSCC, sccFirstNode
      ensures Lists(nodeSCC[..], sccFirstNode[..], nextNode[..], nbSCC, chains, listed)
      ensures Unvisited(restriction, dfsNumOfNode[..], nodeSCC[..])
      ensures Singles(iso, R0, ns0, A0, chains0, restriction, nodeSCC[..], chains, listed, i + 1)
      ensures restriction <= U && SCCsClosed(g, U, restriction, nodeSCC[..])
    {
      ghost var ns, fst := nodeSCC[..], sccFirstNode[..];
      assert i in iso;
      SinglesTake(iso, R0, ns0, A0, chains0, dfsNumOfNode[..], restriction, ns, fst, nextNode[..], nbSCC, chains, listed, lo, i);
      NoArcsSide(g, i);
      CloseAlone(g, U, restriction, ns, i, nbSCC);
      RecordSingleton(i);
    }

    /** The node `y` becomes the component `{y}` with the next id, and leaves the restriction. */
    method RecordSingleton(y: int)
      requires 0 <= y < nodeSCC.Length && 0 <= nbSCC < sccFirstNode.Length
      requires nodeSCC !in {sccFirstNode, nextNode, dfsNumOfNode} && sccFirstNode !in {nextNode, dfsNumOfNode}
      modifies this`restriction, this`nbSCC, this`chains, this`listed, nodeSCC, sccFirstNode
      ensures nodeSCC[..] == old(nodeSCC[..])[y := old(nbSCC)] && sccFirstNode[..] == old(sccFirstNode[..])[old(nbSCC) := y]
      ensures nbSCC == old(nbSCC) + 1 && chains == old(chains) + [[y]] && listed == old(listed) + {y}
      ensures restriction == old(restriction) - {y}
      ensures nextNode[..] == old(nextNode[..]) && dfsNumOfNode[..] == old(dfsNumOfNode[..])
    {
      nodeSCC[y] := nbSCC;
      sccFirstNode[nbSCC] := y;
      nbSCC := nbSCC + 1;
      chains := chains + [[y]];
      listed := listed + {y};
      restriction := restriction - {y};
    }

    /**
     * `findSCC(start, ...)`: the components of the nodes reached from
     * `start` inside the restriction are closed, given ids from `nbSCC` on,
     * and their nodes leave the restriction; `start` always does.
     */
    method FindSCC(g: Digraph, start: int, ghost U: set<int>)
      requires Shape() && ListsOk() && Fresh() && start in restriction
      requires restriction <= U && SCCsClosed(g, U, restriction, nodeSCC[..])
      modifies this`restriction, this`inStack, this`nbSCC, this`chains, this`listed
      modifies stack, p, inf, nodeOfDfsNum, dfsNumOfNode, iterators, sccFirstNode, nextNode, nodeSCC
      ensures ListsOk() && Fresh()
      ensures restriction <= old(restriction) && start !in restriction
      ensures Closing(old(nodeSCC[..]), old(listed), old(chains), old(restriction), restriction, nodeSCC[..], chains, listed)
      ensures SCCsClosed(g, U, restriction, nodeSCC[..])
    {
      if |restriction| == 1 {
        TrivialSCC(g, start, U);
        return;
      }
      ghost var R0, ns0, A0, chains0 := restriction, nodeSCC[..], listed, chains;
      var k, sIdx;
      ghost var st, no, dn, path;
      k, sIdx, st, no, dn, path := Explore(g, start, U);
      if inStack != {} {
        FinalPop(g, start, R0, U, ns0, A0, chains0, k, sIdx, path, st, no, dn);
      }
    }

    /** The trivial case of `findSCC`: `start` is the only restricted node and becomes a component of its own. */
    method TrivialSCC(ghost g: Digraph, start: int, ghost U: set<int>)
      requires Shape() && ListsOk() && Fresh() && start in restriction && |restriction| == 1
      requires SCCsClosed(g, U, restriction, nodeSCC[..])
      modifies this`restriction, this`nbSCC, this`chains, this`listed, nodeSCC, sccFirstNode
      ensures ListsOk() && Fresh() && restriction == {}
      ensures Closing(old(nodeSCC[..]), old(listed), old(chains), old(restriction), restriction, nodeSCC[..], chains, listed)
      ensures SCCsClosed(g, U, restriction, nodeSCC[..])
    {
      SingletonCard(restriction, start);
      ghost var ns, fst := nodeSCC[..], sccFirstNode[..];
      SingletonStep(ns, fst, nextNode[..], nbSCC, chains, listed, start);
      ClosingStep(ns, listed, chains, restriction, restriction, ns, chains, listed, start, nbSCC);
      CloseLast(g, U, restriction, ns, start, nbSCC);
      RecordSingleton(start);
    }

    /**
     * The initialisation and the main loop of `findSCC`: `start` gets the
     * number 0, then the search advances and retreats until it is back at
     * number 0 with no successor left. The numbers still on the stack start
     * with 0.
     */
    method Explore(g: Digraph, start: int, ghost U: set<int>)
      returns (k: int, sIdx: int, ghost st: seq<int>, ghost no: seq<int>, ghost dn: seq<int>, ghost path: seq<int>)
      requires Shape() && ListsOk() && Fresh() && start in restriction
      requires restriction <= U && SCCsClosed(g, U, restriction, nodeSCC[..])
      modifies this`restriction, this`inStack, this`nbSCC, this`chains, this`listed
      modifies stack, p, inf, nodeOfDfsNum, dfsNumOfNode, iterators, sccFirstNode, nextNode, nodeSCC
      ensures stack[..] == st && nodeOfDfsNum[..] == no && dfsNumOfNode[..] == dn && 1 <= sIdx && 0 in inStack
      ensures restriction <= old(restriction)
      ensures DfsCore(n, start, old(restriction), st, no, dn, inStack, restriction, k, sIdx)
      ensures Lists(nodeSCC[..], sccFirstNode[..], nextNode[..], nbSCC, chains, listed)
      ensures Closing(old(nodeSCC[..]), old(listed), old(chains), old(restriction), restriction, nodeSCC[..], chains, listed)
      ensures Lowlinks(g, U, k, path) && iterators[0] == {} && SCCsClosed(g, U, restriction, nodeSCC[..])
      ensures |path| >= 1 && path[|path| - 1] == 0 && forall t | 0 < t :: t !in path
    {
      ghost var R0, ns0, A0, chains0 := restriction, nodeSCC[..], listed, chains;
      ghost var st0, pp0, no0, dn0, inSt0 := stack[..], p[..], nodeOfDfsNum[..], dfsNumOfNode[..], inStack;
      ClosingStart(ns0, A0, chains0, R0, sccFirstNode[..], nextNode[..], nbSCC);
      Begin(g, start);
      StartSearch(n, start, R0, st0, pp0, no0, dn0, inSt0);
      LowStart(g, U, n, start, R0, stack[..], nodeOfDfsNum[..], dfsNumOfNode[..], inStack, iterators[..], inf[..]);
      k, sIdx, st, no, dn, path := Search(g, start, R0, U, ns0, A0, chains0, st0[0 := 0], pp0[0 := 0], no0[0 := start], dn0[start := 0]);
    }

    /**
     * The state of the main loop of `findSCC`: the snapshots `st`, `pp`,
     * `no`, `dn` of the arrays, the stack and numbering invariant, the tree
     * path from number 0 to `i`, the lists, and what has been closed.
     */
    ghost predicate Searching(start: int, R0: set<int>, ns0: seq<int>, A0: set<int>, chains0: seq<seq<int>>,
                              k: int, i: int, sIdx: int, path: seq<int>, st: seq<int>, pp: seq<int>, no: seq<int>, dn: seq<int>)
      reads this, stack, p, nodeOfDfsNum, dfsNumOfNode, nodeSCC, sccFirstNode, nextNode
    {
      stack[..] == st && p[..] == pp && nodeOfDfsNum[..] == no && dfsNumOfNode[..] == dn
      && DfsCore(n, start, R0, st, no, dn, inStack, restriction, k, sIdx)
      && TreePath(pp, inStack, k, i, path)
      && Lists(nodeSCC[..], sccFirstNode[..], nextNode[..], nbSCC, chains, listed)
      && Closing(ns0, A0, chains0, R0, restriction, nodeSCC[..], chains, listed)
    }

    /**
     * The main loop of `findSCC`, from `start` numbered 0 and alone on the
     * stack: the search advances and retreats until it is back at number 0
     * with no successor left.
     */
    method Search(g: Digraph, start: int, ghost R0: set<int>, ghost U: set<int>,
                  ghost ns0: seq<int>, ghost A0: set<int>, ghost chains0: seq<seq<int>>,
                  ghost st0: seq<int>, ghost pp0: seq<int>, ghost no0: seq<int>, ghost dn0: seq<int>)
      returns (k: int, sIdx: int, ghost st: seq<int>, ghost no: seq<int>, ghost dn: seq<int>, ghost path: seq<int>)
      requires Shape() && stack[..] == st0 && p[..] == pp0 && nodeOfDfsNum[..] == no0 && dfsNumOfNode[..] == dn0
      requires DfsCore(n, start, R0, st0, no0, dn0, inStack, restriction, 0, 1)
      requires TreePath(pp0, inStack, 0, 0, [0])
      requires Lists(nodeSCC[..], sccFirstNode[..], nextNode[..], nbSCC, chains, listed)
      requires Closing(ns0, A0, chains0, R0, restriction, nodeSCC[..], chains, listed)
      requires R0 <= U && Lowlinks(g, U, 0, [0]) && SCCsClosed(g, U, restriction, nodeSCC[..])
      modifies this`restriction, this`inStack, this`nbSCC, this`chains, this`listed
      modifies stack, p, inf, nodeOfDfsNum, dfsNumOfNode, iterators, sccFirstNode, nextNode, nodeSCC
      ensures stack[..] == st && nodeOfDfsNum[..] == no && dfsNumOfNode[..] == dn && 1 <= sIdx && 0 in inStack
      ensures restriction <= R0
      ensures DfsCore(n, start, R0, st, no, dn, inStack, restriction, k, sIdx)
      ensures Lists(nodeSCC[..], sccFirstNode[..], nextNode[..], nbSCC, chains, listed)
      ensures Closing(ns0, A0, chains0, R0, restriction, nodeSCC[..], chains, listed)
      ensures Lowlinks(g, U, k, path) && iterators[0] == {} && SCCsClosed(g, U, restriction, nodeSCC[..])
      ensures |path| >= 1 && path[|path| - 1] == 0 && forall t | 0 < t :: t !in path
    {
      k, sIdx := 0, 1;
      var i := 0;
      path := [0];
      ghost var pp;
      st, pp, no, dn := st0, pp0, no0, dn0;
      while true
        invariant Searching(start, R0, ns0, A0, chains0, k, i, sIdx, path, st, pp, no, dn)
        invariant Lowlinks(g, U, k, path) && SCCsClosed(g, U, restriction, nodeSCC[..])
        decreases n - k, Pending(iterators[..k + 1]), i
      {
        if iterators[i] == {} && i == 0 {
          break;
        }
        k, i, sIdx, path, st, pp, no, dn := Step(g, start, R0, U, ns0, A0, chains0, k, i, sIdx, path, st, pp, no, dn);
      }
      PathOf(pp, inStack, k, 0, path);
      assert forall x | x in restriction :: x in R0;
    }

    /** The initialisation of `findSCC`: `start` gets the number 0, its own parent, and is pushed. */
    method Begin(g: Digraph, start: int)
      requires Shape() && 0 <= start < n
      modifies nodeOfDfsNum, dfsNumOfNode, stack, p, iterators, this`inStack
      ensures dfsNumOfNode[..] == old(dfsNumOfNode[..])[start := 0] && nodeOfDfsNum[..] == old(nodeOfDfsNum[..])[0 := start]
      ensures stack[..] == old(stack[..])[0 := 0] && p[..] == old(p[..])[0 := 0] && inStack == old(inStack) + {0}
      ensures iterators[0] == Succ(g, start)
      ensures nodeSCC[..] == old(nodeSCC[..]) && sccFirstNode[..] == old(sccFirstNode[..]) && nextNode[..] == old(nextNode[..])
    {
      dfsNumOfNode[start] := 0;
      nodeOfDfsNum[0] := start;
      stack[0] := 0;
      inStack := inStack + {0};
      p[0] := 0;
      iterators[0] := Succ(g, start);
    }

    /**
     * One turn of the main loop of `findSCC`, which has not yet come back
     * to number 0 with nothing left to visit: advance when `i` has
     * successors left, retreat otherwise. Either a new number is given out,
     * or fewer successors are left to visit, or the search moves back to a
     * lower number.
     */
    method Step(g: Digraph, start: int, ghost R0: set<int>, ghost U: set<int>,
                ghost ns0: seq<int>, ghost A0: set<int>, ghost chains0: seq<seq<int>>,
                k: int, i: int, sIdx: int, ghost path: seq<int>,
                ghost st: seq<int>, ghost pp: seq<int>, ghost no: seq<int>, ghost dn: seq<int>)
      returns (k': int, i': int, sIdx': int, ghost path': seq<int>,
               ghost st': seq<int>, ghost pp': seq<int>, ghost no': seq<int>, ghost dn': seq<int>)
      requires Shape() && Searching(start, R0, ns0, A0, chains0, k, i, sIdx, path, st, pp, no, dn)
      requires iterators[i] != {} || i != 0
      requires R0 <= U && Lowlinks(g, U, k, path) && SCCsClosed(g, U, restriction, nodeSCC[..])
      modifies this`restriction, this`inStack, this`nbSCC, this`chains, this`listed
      modifies stack, p, inf, nodeOfDfsNum, dfsNumOfNode, iterators, sccFirstNode, nextNode, nodeSCC
      ensures Searching(start, R0, ns0, A0, chains0, k', i', sIdx', path', st', pp', no', dn')
      ensures Lowlinks(g, U, k', path') && SCCsClosed(g, U, restriction, nodeSCC[..])
      ensures k' == k + 1 || (k' == k && Pending(iterators[..k + 1]) < Pending(old(iterators[..k + 1])))
              || (k' == k && Pending(iterators[..k + 1]) == Pending(old(iterators[..k + 1])) && i' < i)
    {
      if iterators[i] != {} {
        k', i', sIdx', path', st', pp', no', dn' := Advance(g, start, R0, U, k, i, sIdx, path, st, pp, no, dn);
      } else {
        k', st', pp', no', dn' := k, st, pp, no, dn;
        i', sIdx', path' := Retreat(g, start, R0, U, ns0, A0, chains0, k, i, sIdx, path, st, pp, no, dn);
      }
    }

    /**
     * One step of the search with successors left at `i`: take the next
     * one, `j`; descend into it when it is restricted and unvisited, or
     * lower the low link of `i` to its number when it is on the stack.
     */
    method Advance(g: Digraph, start: int, ghost R0: set<int>, ghost U: set<int>, k: int, i: int, sIdx: int, ghost path: seq<int>,
                   ghost st: seq<int>, ghost pp: seq<int>, ghost no: seq<int>, ghost dn: seq<int>)
      returns (k': int, i': int, sIdx': int, ghost path': seq<int>,
               ghost st': seq<int>, ghost pp': seq<int>, ghost no': seq<int>, ghost dn': seq<int>)
      requires Shape() && stack[..] == st && p[..] == pp && nodeOfDfsNum[..] == no && dfsNumOfNode[..] == dn
      requires DfsCore(n, start, R0, st, no, dn, inStack, restriction, k, sIdx)
      requires TreePath(pp, inStack, k, i, path) && iterators[i] != {}
      requires R0 <= U && Lowlinks(g, U, k, path)
      modifies iterators, nodeOfDfsNum, dfsNumOfNode, p, stack, inf, this`inStack
      ensures stack[..] == st' && p[..] == pp' && nodeOfDfsNum[..] == no' && dfsNumOfNode[..] == dn'
      ensures DfsCore(n, start, R0, st', no', dn', inStack, restriction, k', sIdx')
      ensures TreePath(pp', inStack, k', i', path') && Lowlinks(g, U, k', path')
      ensures k' == k + 1 || (k' == k && Pending(iterators[..k + 1]) < Pending(old(iterators[..k + 1])))
      ensures nodeSCC[..] == old(nodeSCC[..]) && sccFirstNode[..] == old(sccFirstNode[..]) && nextNode[..] == old(nextNode[..])
    {
      ghost var it, inSt, restr, lo := iterators[..], inStack, restriction, inf[..];
      var j := TakeNext(i);
      PendingUpdate(it[..k + 1], i, it[i] - {j});
      assert iterators[..k + 1] == it[..k + 1][i := it[i] - {j}];
      k', i', sIdx', path' := k, i, sIdx, path;
      st', pp', no', dn' := st, pp, no, dn;
      if j in restriction {
        if dfsNumOfNode[j] == 0 && j != start {
          k', i', sIdx', path', st', pp', no', dn' := DescendTo(g, start, R0, U, k, i, sIdx, path, st, pp, no, dn, j, it, lo);
        } else if dfsNumOfNode[j] in inStack {
          LowLower(g, U, n, start, R0, st, no, dn, inSt, restr, k, sIdx, pp, i, path, it, lo, j);
          LowerLink(i, dfsNumOfNode[j]);
        }
      } else {
        LowSkip(g, U, k, path, no, dn, inSt, restr, it, lo, i, j);
      }
    }

    /**
     * `j`, a successor of `i` not yet visited, gets the next number `k + 1`,
     * goes on the stack and becomes the current node; the search keeps its
     * shape and its low links.
     */
    method DescendTo(g: Digraph, start: int, ghost R0: set<int>, ghost U: set<int>, k: int, i: int, sIdx: int, ghost path: seq<int>,
                     ghost st: seq<int>, ghost pp: seq<int>, ghost no: seq<int>, ghost dn: seq<int>, j: int,
                     ghost it: seq<set<int>>, ghost lo: seq<int>)
      returns (k': int, i': int, sIdx': int, ghost path': seq<int>,
               ghost st': seq<int>, ghost pp': seq<int>, ghost no': seq<int>, ghost dn': seq<int>)
      requires Shape() && stack[..] == st && p[..] == pp && nodeOfDfsNum[..] == no && dfsNumOfNode[..] == dn
      requires DfsCore(n, start, R0, st, no, dn, inStack, restriction, k, sIdx)
      requires TreePath(pp, inStack, k, i, path) && R0 <= U
      requires Low(g, U, k, path, no, dn, inStack, restriction, it, lo)
      requires j in it[i] && iterators[..] == it[i := it[i] - {j}] && inf[..] == lo
      requires j in restriction && dfsNumOfNode[j] == 0 && j != start
      modifies iterators, nodeOfDfsNum, dfsNumOfNode, p, stack, inf, this`inStack
      ensures stack[..] == st' && p[..] == pp' && nodeOfDfsNum[..] == no' && dfsNumOfNode[..] == dn'
      ensures DfsCore(n, start, R0, st', no', dn', inStack, restriction, k', sIdx')
      ensures TreePath(pp', inStack, k', i', path') && Lowlinks(g, U, k', path') && k' == k + 1
      ensures nodeSCC[..] == old(nodeSCC[..]) && sccFirstNode[..] == old(sccFirstNode[..]) && nextNode[..] == old(nextNode[..])
    {
      ghost var inSt, restr := inStack, restriction;
      RoomForDescent(n, start, R0, st, no, dn, inSt, restr, k, sIdx, j);
      LowDescend(g, U, n, start, R0, st, no, dn, inSt, restr, k, sIdx, pp, i, path, it, lo, j);
      k', i', sIdx' := Descend(g, k, i, sIdx, j, st, pp, no, dn);
      path', st', pp', no', dn' := path + [k'], st[sIdx := k'], pp[k' := i], no[k' := j], dn[j := k'];
      Descended(n, start, R0, st, no, dn, inSt, restr, k, sIdx, j, pp, i, path,
                st', no', dn', inStack, restriction, pp', path');
    }

    /**
     * `inf[i] = min(inf[i], v)`: the low link of `i` drops to `v`, the
     * number of a successor still on the stack or the low link of a child.
     */
    method LowerLink(i: int, v: int)
      requires 0 <= i < inf.Length && inf !in {stack, p, nodeOfDfsNum, dfsNumOfNode, sccFirstNode, nextNode, nodeSCC}
      modifies inf
      ensures inf[..] == old(inf[..])[i := if old(inf[i]) < v then old(inf[i]) else v]
      ensures stack[..] == old(stack[..]) && p[..] == old(p[..]) && iterators[..] == old(iterators[..])
      ensures nodeOfDfsNum[..] == old(nodeOfDfsNum[..]) && dfsNumOfNode[..] == old(dfsNumOfNode[..])
      ensures nodeSCC[..] == old(nodeSCC[..]) && sccFirstNode[..] == old(sccFirstNode[..]) && nextNode[..] == old(nextNode[..])
      ensures inStack == old(inStack) && restriction == old(restriction)
      ensures nbSCC == old(nbSCC) && chains == old(chains) && listed == old(listed)
    {
      inf[i] := if inf[i] < v then inf[i] else v;
    }

    /** `iterator[i].nextValue()`: the next successor `j` still to visit from `i` leaves its iterator. */
    method TakeNext(i: int) returns (j: int)
      requires 0 <= i < iterators.Length && iterators[i] != {}
      modifies iterators
      ensures j == Min(old(iterators[i])) && iterators[..] == old(iterators[..])[i := old(iterators[i]) - {j}]
    {
      j := Min(iterators[i]);
      iterators[i] := iterators[i] - {j};
    }

    /**
     * Descending from `i` into its successor `j`: `j` gets the number
     * `k + 1`, whose parent is `i`, whose iterator holds the successors of
     * `j` and whose low link is itself; the number is pushed on the stack
     * and the search moves to it.
     */
    method Descend(g: Digraph, k: int, i: int, sIdx: int, j: int,
                   ghost st: seq<int>, ghost pp: seq<int>, ghost no: seq<int>, ghost dn: seq<int>)
      returns (k': int, i': int, sIdx': int)
      requires Shape() && stack[..] == st && p[..] == pp && nodeOfDfsNum[..] == no && dfsNumOfNode[..] == dn
      requires 0 <= k + 1 < n && 0 <= j < n && 0 <= sIdx < n
      modifies iterators, nodeOfDfsNum, dfsNumOfNode, p, stack, inf, this`inStack
      ensures k' == k + 1 && i' == k' && sIdx' == sIdx + 1
      ensures nodeOfDfsNum[..] == no[k' := j] && dfsNumOfNode[..] == dn[j := k'] && p[..] == pp[k' := i]
      ensures stack[..] == st[sIdx := k'] && inStack == old(inStack) + {k'}
      ensures iterators[..] == old(iterators[..])[k' := Succ(g, j)] && inf[..] == old(inf[..])[k' := k']
    {
      k' := k + 1;
      nodeOfDfsNum[k'] := j;
      dfsNumOfNode[j] := k';
      p[k'] := i;
      i' := k';
      iterators[i'] := Succ(g, j);
      stack[sIdx] := i';
      sIdx' := sIdx + 1;
      inStack := inStack + {i'};
      inf[i'] := i';
    }

    /**
     * Backtracking from `i`, whose successors are all done: when its low
     * link has not dropped below its number, `i` and everything above it on
     * the stack form a component; then the parent's low link takes the
     * child's, and the search moves to the parent.
     */
    method Retreat(ghost g: Digraph, start: int, ghost R0: set<int>, ghost U: set<int>,
                   ghost ns0: seq<int>, ghost A0: set<int>, ghost chains0: seq<seq<int>>,
                   k: int, i: int, sIdx: int, ghost path: seq<int>,
                   ghost st: seq<int>, ghost pp: seq<int>, ghost no: seq<int>, ghost dn: seq<int>)
      returns (i': int, sIdx': int, ghost path': seq<int>)
      requires Shape() && i != 0
      requires stack[..] == st && p[..] == pp && nodeOfDfsNum[..] == no && dfsNumOfNode[..] == dn
      requires DfsCore(n, start, R0, st, no, dn, inStack, restriction, k, sIdx)
      requires TreePath(pp, inStack, k, i, path)
      requires Lists(nodeSCC[..], sccFirstNode[..], nextNode[..], nbSCC, chains, listed)
      requires Closing(ns0, A0, chains0, R0, restriction, nodeSCC[..], chains, listed)
      requires R0 <= U && Lowlinks(g, U, k, path) && iterators[i] == {} && SCCsClosed(g, U, restriction, nodeSCC[..])
      modifies this`inStack, this`restriction, this`nbSCC, this`chains, this`listed, nodeSCC, nextNode, sccFirstNode, inf
      ensures Lowlinks(g, U, k, path') && SCCsClosed(g, U, restriction, nodeSCC[..])
      ensures DfsCore(n, start, R0, st, no, dn, inStack, restriction, k, sIdx')
      ensures TreePath(pp, inStack, k, i', path') && 0 <= i' < i
      ensures stack[..] == st && p[..] == pp && nodeOfDfsNum[..] == no && dfsNumOfNode[..] == dn
      ensures iterators[..] == old(iterators[..])
      ensures Lists(nodeSCC[..], sccFirstNode[..], nextNode[..], nbSCC, chains, listed)
      ensures Closing(ns0, A0, chains0, R0, restriction, nodeSCC[..], chains, listed)
    {
      sIdx' := sIdx;
      ghost var a :| 0 <= a < sIdx && st[a] == i;
      ghost var inSt, restr, it, lo := inStack, restriction, iterators[..], inf[..];
      PathOf(pp, inSt, k, i, path);
      sIdx' := CloseIfRoot(g, start, R0, U, ns0, A0, chains0, k, i, sIdx, a, path, st, no, dn);
      i', path' := Backtrack(g, start, R0, U, k, i, sIdx, pp, path, st, no, dn, inSt, restr, it, lo);
    }

    /**
     * After the pop (if any) at `i`: the parent's low link takes the
     * child's when that is lower, and the search moves up to the parent.
     */
    method Backtrack(ghost g: Digraph, start: int, ghost R0: set<int>, ghost U: set<int>, k: int, i: int, sIdx: int,
                     ghost pp: seq<int>, ghost path: seq<int>, ghost st: seq<int>, ghost no: seq<int>, ghost dn: seq<int>,
                     ghost inSt: set<int>, ghost restr: set<int>, ghost it: seq<set<int>>, ghost lo: seq<int>)
      returns (i': int, ghost path': seq<int>)
      requires Shape() && p[..] == pp && nodeOfDfsNum[..] == no && dfsNumOfNode[..] == dn
      requires iterators[..] == it && inf[..] == lo
      requires DfsCore(n, start, R0, st, no, dn, inSt, restr, k, sIdx) && R0 <= U
      requires TreePath(pp, inSt, k, i, path) && Low(g, U, k, path, no, dn, inSt, restr, it, lo)
      requires i != 0 && it[i] == {} && restriction <= restr
      requires forall s | 0 <= s <= k && s in inStack :: s in inSt
      requires forall s | 0 <= s < i :: s in inStack <==> s in inSt
      requires lo[i] >= i ==> forall s | i <= s <= k :: s !in inStack
      requires lo[i] < i ==> inStack == inSt
      modifies inf
      ensures TreePath(pp, inStack, k, i', path') && 0 <= i' < i
      ensures Lowlinks(g, U, k, path')
    {
      LowRetreat(g, U, n, start, R0, st, no, dn, inSt, restr, k, sIdx, pp, i, path, it, lo, inStack, restriction);
      RetreatPath(pp, inSt, inStack, k, i, path);
      var parent := p[i];
      ghost var lo' := lo[parent := if lo[parent] < lo[i] then lo[parent] else lo[i]];
      LowerLink(parent, inf[i]);
      assert inf[..] == lo';
      i' := parent;
      path' := path[..|path| - 1];
    }

    /** When the low link of `i` has not dropped below its number, `i` roots a component, which is popped. */
    method CloseIfRoot(ghost g: Digraph, start: int, ghost R0: set<int>, ghost U: set<int>,
                       ghost ns0: seq<int>, ghost A0: set<int>, ghost chains0: seq<seq<int>>,
                       k: int, i: int, sIdx: int, ghost a: int, ghost path: seq<int>,
                       ghost st: seq<int>, ghost no: seq<int>, ghost dn: seq<int>)
      returns (sIdx': int)
      requires Shape() && stack[..] == st && nodeOfDfsNum[..] == no && dfsNumOfNode[..] == dn
      requires DfsCore(n, start, R0, st, no, dn, inStack, restriction, k, sIdx)
      requires 1 <= a < sIdx && st[a] == i
      requires Lists(nodeSCC[..], sccFirstNode[..], nextNode[..], nbSCC, chains, listed)
      requires Closing(ns0, A0, chains0, R0, restriction, nodeSCC[..], chains, listed)
      requires R0 <= U && Lowlinks(g, U, k, path) && iterators[i] == {} && SCCsClosed(g, U, restriction, nodeSCC[..])
      requires |path| >= 1 && path[|path| - 1] == i && forall t | i < t :: t !in path
      modifies this`inStack, this`restriction, this`nbSCC, this`chains, this`listed, nodeSCC, nextNode, sccFirstNode
      ensures sIdx' == (if old(inf[i]) >= i then a else sIdx)
      ensures stack[..] == st && nodeOfDfsNum[..] == no && p[..] == old(p[..]) && iterators[..] == old(iterators[..])
      ensures dfsNumOfNode[..] == old(dfsNumOfNode[..])
      ensures DfsCore(n, start, R0, st, no, dn, inStack, restriction, k, sIdx')
      ensures Lists(nodeSCC[..], sccFirstNode[..], nextNode[..], nbSCC, chains, listed)
      ensures Closing(ns0, A0, chains0, R0, restriction, nodeSCC[..], chains, listed)
      ensures forall s | 0 <= s < i :: s in inStack <==> s in old(inStack)
      ensures SCCsClosed(g, U, restriction, nodeSCC[..]) && restriction <= old(restriction)
      ensures forall s | 0 <= s <= k && s in inStack :: s in old(inStack)
      ensures old(inf[i]) >= i ==> forall s | i <= s <= k :: s !in inStack
      ensures old(inf[i]) < i ==> inStack == old(inStack)
    {
      sIdx' := sIdx;
      if inf[i] >= i {
        sIdx' := PopComponent(g, start, R0, U, ns0, A0, chains0, k, i, sIdx, a, path, st, no, dn);
      }
    }

    /** The pop loop of `findSCC`: numbers leave the stack down to `i`, which sits at position `a`, into one new component. */
    method PopComponent(ghost g: Digraph, start: int, ghost R0: set<int>, ghost U: set<int>,
                        ghost ns0: seq<int>, ghost A0: set<int>, ghost chains0: seq<seq<int>>,
                        k: int, i: int, sIdx: int, ghost a: int, ghost path: seq<int>,
                        ghost st: seq<int>, ghost no: seq<int>, ghost dn: seq<int>)
      returns (sIdx': int)
      requires Shape() && stack[..] == st && nodeOfDfsNum[..] == no && dfsNumOfNode[..] == dn
      requires DfsCore(n, start, R0, st, no, dn, inStack, restriction, k, sIdx)
      requires 1 <= a < sIdx && st[a] == i
      requires Lists(nodeSCC[..], sccFirstNode[..], nextNode[..], nbSCC, chains, listed)
      requires Closing(ns0, A0, chains0, R0, restriction, nodeSCC[..], chains, listed)
      requires R0 <= U && Lowlinks(g, U, k, path) && iterators[i] == {} && inf[i] >= i && SCCsClosed(g, U, restriction, nodeSCC[..])
      requires |path| >= 1 && path[|path| - 1] == i && forall t | i < t :: t !in path
      modifies this`inStack, this`restriction, this`nbSCC, this`chains, this`listed, nodeSCC, nextNode, sccFirstNode
      ensures sIdx' == a
      ensures DfsCore(n, start, R0, st, no, dn, inStack, restriction, k, sIdx')
      ensures Lists(nodeSCC[..], sccFirstNode[..], nextNode[..], nbSCC, chains, listed)
      ensures Closing(ns0, A0, chains0, R0, restriction, nodeSCC[..], chains, listed)
      ensures forall s | 0 <= s < i :: s in inStack <==> s in old(inStack)
      ensures SCCsClosed(g, U, restriction, nodeSCC[..]) && restriction <= old(restriction)
      ensures forall s | i <= s <= k :: s !in inStack
      ensures forall s | 0 <= s <= k && s in inStack :: s in old(inStack)
    {
      ghost var inSt, restr, ns, fst, nx, nb, cs, A := inStack, restriction, nodeSCC[..], sccFirstNode[..], nextNode[..], nbSCC, chains, listed;
      ghost var it, lo := iterators[..], inf[..];
      ComponentRange(n, start, R0, st, no, dn, inSt, restr, k, sIdx, a, ns0, A0, chains0, ns, fst, nx, nb, cs, A);
      ghost var ps;
      sIdx', ps := PopTo(i, sIdx, a, st, no, Pops(inSt, restr, A, ns, fst, nx, []));
      chains, nbSCC := chains + [ps.cur], nbSCC + 1;
      ComponentPopped(g, U, n, start, R0, st, no, dn, inSt, restr, k, sIdx, a, path, it, lo, i, ns0, A0, chains0,
                      ns, fst, nx, nb, cs, A, inStack, restriction, nodeSCC[..], sccFirstNode[..], nextNode[..], chains, listed);
    }

    /** The do-while of the pop loop: pops until the number `i`, at position `a`, is off the stack. */
    method PopTo(i: int, sIdx: int, ghost a: int, ghost st: seq<int>, ghost no: seq<int>, ghost g0: Pops)
      returns (sIdx': int, ghost g: Pops)
      requires Shape() && stack[..] == st && nodeOfDfsNum[..] == no && Mirrors(g0) && inStack == g0.live
      requires 0 <= a < sIdx && PopRange(st, no, g0.ns, a, sIdx) && 0 <= nbSCC < n && st[a] == i
      requires forall j | a < j < sIdx :: st[a] < st[j]
      modifies this`inStack, this`restriction, this`listed, nodeSCC, nextNode, sccFirstNode
      ensures sIdx' == a && g == PopsFrom(g0, st, no, nbSCC, a, sIdx) && Mirrors(g) && inStack == g.live
    {
      g := g0;
      sIdx' := sIdx;
      var done := false;
      while !done
        invariant a <= sIdx' <= sIdx && (done <==> sIdx' == a)
        invariant g == PopsFrom(g0, st, no, nbSCC, sIdx', sIdx)
        invariant Mirrors(g) && inStack == g.live
        decreases sIdx'
      {
        var z, y;
        sIdx', z, y, g := PopInto(sIdx', st, no, g);
        inStack := inStack - {z};
        done := z == i;
      }
    }

    /**
     * The closing pop of `findSCC`: every number left on the stack, down to
     * `start`'s, goes into one last component. `inStack` is not cleared
     * here.
     */
    method FinalPop(ghost g: Digraph, start: int, ghost R0: set<int>, ghost U: set<int>,
                    ghost ns0: seq<int>, ghost A0: set<int>, ghost chains0: seq<seq<int>>,
                    k: int, sIdx: int, ghost path: seq<int>, ghost st: seq<int>, ghost no: seq<int>, ghost dn: seq<int>)
      requires Shape() && 1 <= sIdx
      requires stack[..] == st && nodeOfDfsNum[..] == no && dfsNumOfNode[..] == dn
      requires DfsCore(n, start, R0, st, no, dn, inStack, restriction, k, sIdx)
      requires Lists(nodeSCC[..], sccFirstNode[..], nextNode[..], nbSCC, chains, listed)
      requires Closing(ns0, A0, chains0, R0, restriction, nodeSCC[..], chains, listed)
      requires R0 <= U && Lowlinks(g, U, k, path) && iterators[0] == {} && SCCsClosed(g, U, restriction, nodeSCC[..])
      requires |path| >= 1 && path[|path| - 1] == 0 && forall t | 0 < t :: t !in path
      modifies this`restriction, this`nbSCC, this`chains, this`listed, nodeSCC, nextNode, sccFirstNode
      ensures Lists(nodeSCC[..], sccFirstNode[..], nextNode[..], nbSCC, chains, listed)
      ensures Closing(ns0, A0, chains0, R0, restriction, nodeSCC[..], chains, listed) && restriction <= old(restriction)
      ensures forall x | x in restriction :: dn[x] == 0 && x != start
      ensures SCCsClosed(g, U, restriction, nodeSCC[..])
    {
      ghost var inSt, restr, ns, fst, nx, nb, cs, A := inStack, restriction, nodeSCC[..], sccFirstNode[..], nextNode[..], nbSCC, chains, listed;
      ghost var it, lo := iterators[..], inf[..];
      ComponentRange(n, start, R0, st, no, dn, inSt, restr, k, sIdx, 0, ns0, A0, chains0, ns, fst, nx, nb, cs, A);
      ghost var ps := PopToStart(start, sIdx, st, no, Pops(inSt, restr, A, ns, fst, nx, []));
      chains, nbSCC := chains + [ps.cur], nbSCC + 1;
      ComponentPopped(g, U, n, start, R0, st, no, dn, inSt, restr, k, sIdx, 0, path, it, lo, 0, ns0, A0, chains0,
                      ns, fst, nx, nb, cs, A, ps.live, restriction, nodeSCC[..], sccFirstNode[..], nextNode[..], chains, listed);
    }

    /** The do-while of the closing pop: pops until the node `start`, at the bottom, is off the stack. */
    method PopToStart(start: int, sIdx: int, ghost st: seq<int>, ghost no: seq<int>, ghost g0: Pops)
      returns (ghost g: Pops)
      requires Shape() && stack[..] == st && nodeOfDfsNum[..] == no && Mirrors(g0)
      requires 0 < sIdx && PopRange(st, no, g0.ns, 0, sIdx) && 0 <= nbSCC < n && no[st[0]] == start
      requires forall j | 0 < j < sIdx :: no[st[j]] != no[st[0]]
      modifies this`restriction, this`listed, nodeSCC, nextNode, sccFirstNode
      ensures g == PopsFrom(g0, st, no, nbSCC, 0, sIdx) && Mirrors(g)
    {
      g := g0;
      var idx := sIdx;
      var done := false;
      while !done
        invariant 0 <= idx <= sIdx && (done <==> idx == 0)
        invariant g == PopsFrom(g0, st, no, nbSCC, idx, sIdx)
        invariant Mirrors(g)
        decreases idx
      {
        var z, y;
        idx, z, y, g := PopInto(idx, st, no, g);
        done := y == start;
      }
    }

    /** The three arrays of the output lists: of length `n`, and no two the same. */
    ghost predicate ListArrays()
    {
      nodeSCC.Length == n && sccFirstNode.Length == n && nextNode.Length == n
      && nodeSCC != sccFirstNode && nodeSCC != nextNode && sccFirstNode != nextNode
    }

    /** The state `g` of the pop loops is the one held by the fields and arrays. */
    ghost predicate Mirrors(g: Pops)
      reads this, nodeSCC, sccFirstNode, nextNode
    {
      restriction == g.res && listed == g.lst
      && nodeSCC[..] == g.ns && sccFirstNode[..] == g.fst && nextNode[..] == g.nx
    }

    /**
     * One pop of the two pop loops: the number `z` on top of the stack, at
     * position `t - 1`, is taken off; its node `y` leaves the restriction and
     * joins the open component (`sccAdd`). Clearing `z` from `inStack` is
     * left to the caller, since the closing pop does not.
     */
    method PopInto(t: int, ghost st: seq<int>, ghost no: seq<int>, ghost g: Pops)
      returns (t': int, z: int, y: int, ghost g': Pops)
      requires ListArrays() && stack[..] == st && nodeOfDfsNum[..] == no && Mirrors(g)
      requires 1 <= t && PopRange(st, no, g.ns, t - 1, t) && 0 <= nbSCC < n
      modifies this`restriction, this`listed, nodeSCC, nextNode, sccFirstNode
      ensures t' == t - 1 && z == st[t'] && y == no[z]
      ensures g' == Pop1(g, st, no, nbSCC, t') && Mirrors(g')
    {
      t' := t - 1;
      z := stack[t'];
      y := nodeOfDfsNum[z];
      restriction := restriction - {y};
      SccAdd(y);
      g' := Pop1(g, st, no, nbSCC, t');
    }

    /**
     * `sccAdd(y)`: `y` gets the id of the component being built and becomes
     * the head of its list.
     */
    method SccAdd(y: int)
      requires ListArrays() && 0 <= y < n && 0 <= nbSCC < n
      modifies nodeSCC, nextNode, sccFirstNode, this`listed
      ensures nodeSCC[..] == old(nodeSCC[..])[y := nbSCC]
      ensures nextNode[..] == old(nextNode[..])[y := old(sccFirstNode[nbSCC])]
      ensures sccFirstNode[..] == old(sccFirstNode[..])[nbSCC := y]
      ensures listed == old(listed) + {y}
    {
      nodeSCC[y] := nbSCC;
      nextNode[y] := sccFirstNode[nbSCC];
      sccFirstNode[nbSCC] := y;
      listed := listed + {y};
    }

    /** `getNbSCC()`: the number of components found, each of which is non-empty. */
    function GetNbSCC(): (r: int)
      reads this, nodeSCC, sccFirstNode, nextNode
      ensures ListsOk() ==> r == |chains| && r <= |listed| && forall c | 0 <= c < r :: |chains[c]| > 0
    {
      nbSCC
    }

    /**
     * `getNodesSCC()`: the component id of every node, -1 for a node
     * without one; a node with an id lies in that component's list.
     */
    function GetNodesSCC(): (r: seq<int>)
      reads this, nodeSCC, sccFirstNode, nextNode
      ensures |r| == nodeSCC.Length
      ensures ListsOk() ==> forall x | 0 <= x < |r| :: (r[x] == -1 <==> x !in listed) && (r[x] != -1 ==> 0 <= r[x] < nbSCC && x in chains[r[x]])
    {
      nodeSCC[..]
    }

    /** `getSCCFirstNode(c)`: the head of the list of component `c`, or -1 past the last component. */
    function GetSCCFirstNode(c: int): (r: int)
      reads this, nodeSCC, sccFirstNode, nextNode
      requires 0 <= c < sccFirstNode.Length
      ensures ListsOk() ==> (c < nbSCC ==> r == chains[c][0]) && (nbSCC <= c ==> r == -1)
    {
      sccFirstNode[c]
    }

    /**
     * `getNextNode(j)`: the node after `j` in the list of its component, -1
     * when `j` is the last one or has no component.
     */
    function GetNextNode(j: int): (r: int)
      reads this, nodeSCC, sccFirstNode, nextNode
      requires 0 <= j < nextNode.Length
      ensures ListsOk() ==> (nodeSCC[j] == -1 ==> r == -1)
      ensures ListsOk() ==> forall c, t | 0 <= c < nbSCC && 0 <= t < |chains[c]| && chains[c][t] == j ::
                              r == if t + 1 < |chains[c]| then chains[c][t + 1] else -1
    {
      nextNode[j]
    }
  }
}

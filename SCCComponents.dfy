/**
 * What a strongly connected components finder promises of the nodes it has
 * closed so far, stated over the subgraph on a node set `U`: two closed
 * nodes share a component id exactly when each reaches the other inside
 * `U`, and no closed node shares a component with a node still open (still
 * in the restriction).
 */
module SCCComponents {
  import opened Digraphs

  /** The closed nodes of `U` (those outside `restr`) carry the components of the subgraph on `U` as ids `ns`. */
  ghost predicate SCCsClosed(g: Digraph, U: set<int>, restr: set<int>, ns: seq<int>)
  {
    restr <= U
    && (forall x | x in U :: 0 <= x < |ns|)
    && (forall x {:trigger ns[x]} | x in U && x !in restr :: 0 <= ns[x])
    && (forall x, y {:trigger MutuallyReach(g, U, x, y)} {:trigger ns[x], ns[y]} | x in U && x !in restr && y in U && y !in restr ::
          ns[x] == ns[y] <==> MutuallyReach(g, U, x, y))
    && (forall x, y {:trigger MutuallyReach(g, U, x, y)} | x in U && x !in restr && y in restr :: !MutuallyReach(g, U, x, y))
  }

  /** Before anything is closed, the promise holds of nothing. */
  lemma NothingClosed(g: Digraph, U: set<int>, ns: seq<int>)
    requires forall x | x in U :: 0 <= x < |ns|
    ensures SCCsClosed(g, U, U, ns)
  {
  }

  /**
   * Closing the nodes of `restr` that are not in `restr'` as one component
   * with the new id `nb` keeps the promise, when they reach one another and
   * share a component with no node left open.
   */
  lemma CloseStep(g: Digraph, U: set<int>, restr: set<int>, ns: seq<int>, restr': set<int>, ns': seq<int>, nb: int)
    requires SCCsClosed(g, U, restr, ns) && restr' <= restr && |ns'| == |ns| && 0 <= nb
    requires forall x | x in U && x !in restr :: ns'[x] == ns[x] && ns[x] < nb
    requires forall x | x in restr && x !in restr' :: ns'[x] == nb
    requires forall x, y | x in restr && x !in restr' && y in restr && y !in restr' :: MutuallyReach(g, U, x, y)
    requires forall x, y | x in restr && x !in restr' && y in restr' :: !MutuallyReach(g, U, x, y)
    ensures SCCsClosed(g, U, restr', ns')
  {
    forall x, y | x in U && x !in restr' && y in U && y !in restr'
      ensures ns'[x] == ns'[y] <==> MutuallyReach(g, U, x, y)
    {
      if x !in restr && y in restr {
        assert !MutuallyReach(g, U, x, y);
      } else if x in restr && y !in restr {
        assert !MutuallyReach(g, U, y, x);
      }
    }
  }

  /** A node without predecessors or without successors, closed on its own with the new id `nb`, keeps the promise. */
  lemma CloseAlone(g: Digraph, U: set<int>, restr: set<int>, ns: seq<int>, y: int, nb: int)
    requires SCCsClosed(g, U, restr, ns) && y in restr && 0 <= nb
    requires Pred(g, y) == {} || Succ(g, y) == {}
    requires forall x | x in U && x !in restr :: ns[x] < nb
    ensures SCCsClosed(g, U, restr - {y}, ns[y := nb])
  {
    ReachSelf(g, U, y);
    forall x | x in restr - {y} ensures !MutuallyReach(g, U, y, x) {
      AloneWithoutArcs(g, U, y, x);
    }
    CloseStep(g, U, restr, ns, restr - {y}, ns[y := nb], nb);
  }

  /** The last open node `y`, closed on its own with the new id `nb`, keeps the promise. */
  lemma CloseLast(g: Digraph, U: set<int>, restr: set<int>, ns: seq<int>, y: int, nb: int)
    requires SCCsClosed(g, U, restr, ns) && restr == {y} && 0 <= nb
    requires forall x | x in U && x !in restr :: ns[x] < nb
    ensures SCCsClosed(g, U, {}, ns[y := nb])
  {
    ReachSelf(g, U, y);
    CloseStep(g, U, restr, ns, {}, ns[y := nb], nb);
  }

  /** When every node of `U` is closed, two nodes share an id exactly when each reaches the other inside `U`. */
  lemma AllClosed(g: Digraph, U: set<int>, ns: seq<int>)
    requires SCCsClosed(g, U, {}, ns)
    ensures forall x, y | x in U && y in U :: ns[x] == ns[y] <==> Reaches(g, U, x, y) && Reaches(g, U, y, x)
  {
  }
}

/**
 * Régin's generalised arc consistency filter for `allDifferent`
 * (`AlgoAllDiffAC`): after a maximum matching has been found, the oriented
 * value graph gets a sink node when there are more values than variables,
 * its strongly connected components are computed, and every variable/value
 * pair whose two nodes lie in different components is filtered: the
 * variable is instantiated when the value is its mate, and the value is
 * removed otherwise.
 */
module AllDiffACFilter {
  import opened IntSets
  import opened Domains
  import opened Digraphs
  import opened ValueIds
  import opened ValueGraphs
  import opened Matchers
  import opened SCCLists
  import opened SCCFinders

  /**
   * The graph `buildSCC` gives to the component finder: with `n2 > 2n`, the
   * sink `n2` is added and joined to every value node; otherwise the graph
   * is unchanged.
   */
  ghost function WithSink(g: Digraph, free: set<int>, n: int, n2: int): Digraph
  {
    if n2 > 2 * n then PartialSink(g, free, n, n2, n2) else g
  }

  /** Two nodes of `g` share an id of `ns` exactly when each reaches the other in `g`. */
  ghost predicate Components(g: Digraph, ns: seq<int>)
  {
    (forall x | x in g.nodes :: 0 <= x < |ns|)
    && forall x, y | x in g.nodes && y in g.nodes :: ns[x] == ns[y] <==> MutuallyReach(g, g.nodes, x, y)
  }

  /** Ids that give the components of the nodes below `m`, when every node is below `m`, give the components of `g`. */
  lemma ComponentsBelow(g: Digraph, m: int, ns: seq<int>)
    requires (forall x | x in g.nodes :: 0 <= x < m) && m <= |ns|
    requires forall x, y | x in NodesBelow(g, m) && y in NodesBelow(g, m) ::
               ns[x] == ns[y] <==> Reaches(g, NodesBelow(g, m), x, y) && Reaches(g, NodesBelow(g, m), y, x)
    ensures Components(g, ns)
  {
    assert NodesBelow(g, m) == g.nodes;
  }

  /**
   * The sink `t` added to `g` and joined, one value after the other, to the
   * value nodes `n .. i-1`: from the value when it is free, towards it
   * otherwise.
   */
  ghost function PartialSink(g: Digraph, free: set<int>, n: int, i: int, t: int): Digraph
    decreases i - n
  {
    if i <= n then AddNode(g, t)
    else
      var h := PartialSink(g, free, n, i - 1, t);
      if i - 1 in free then AddArc(h, i - 1, t) else AddArc(h, t, i - 1)
  }

  /**
   * The partial sink graph's nodes and arcs: those of `g`, the sink, the
   * values joined so far, an arc from each free one to the sink and one
   * from the sink to each matched one.
   */
  lemma {:induction false} PartialSinkShape(g: Digraph, free: set<int>, n: int, i: int, t: int)
    requires n <= i
    ensures forall x :: x in PartialSink(g, free, n, i, t).nodes <==> x in g.nodes || x == t || n <= x < i
    ensures forall a :: a in PartialSink(g, free, n, i, t).arcs <==>
              a in g.arcs || (a.1 == t && n <= a.0 < i && a.0 in free) || (a.0 == t && n <= a.1 < i && a.1 !in free)
    decreases i - n
  {
    if i > n {
      PartialSinkShape(g, free, n, i - 1, t);
    }
  }

  /**
   * The sink's arcs: a value node points to the sink exactly when it is free,
   * and the sink points to it exactly when it is matched; the sink touches
   * nothing else.
   */
  lemma SinkArcsOf(g: Digraph, free: set<int>, n: nat, n2: int)
    requires n2 > 2 * n && forall x | x in g.nodes :: 0 <= x < n2
    requires WellFormed(g)
    ensures forall j :: (j, n2) in WithSink(g, free, n, n2).arcs <==> n <= j < n2 && j in free
    ensures forall j :: (n2, j) in WithSink(g, free, n, n2).arcs <==> n <= j < n2 && j !in free
  {
    PartialSinkShape(g, free, n, n2, n2);
    assert forall a | a in g.arcs :: a.0 != n2 && a.1 != n2;
  }

  /**
   * Removing the sink afterwards gives back the graph's arcs; the value
   * nodes the sink touched stay nodes.
   */
  lemma SinkRemoved(g: Digraph, free: set<int>, n: nat, n2: int)
    requires WellFormed(g) && forall x | x in g.nodes :: 0 <= x < n2
    ensures forall x :: x in RemoveNode(WithSink(g, free, n, n2), n2).nodes <==> x in g.nodes || (n2 > 2 * n && n <= x < n2)
    ensures RemoveNode(WithSink(g, free, n, n2), n2).arcs == g.arcs
    ensures WellFormed(RemoveNode(WithSink(g, free, n, n2), n2))
    ensures forall x | x in RemoveNode(WithSink(g, free, n, n2), n2).nodes :: 0 <= x < n2
  {
    var R := RemoveNode(WithSink(g, free, n, n2), n2);
    assert forall a | a in g.arcs :: a.0 != n2 && a.1 != n2;
    if n2 > 2 * n {
      PartialSinkShape(g, free, n, n2, n2);
    }
    assert forall a :: a in R.arcs <==> a in g.arcs;
  }

  /** The nodes the component finder is given: the graph's, and with `n2 > 2n` the sink and every value. */
  lemma SinkNodes(g: Digraph, free: set<int>, n: int, n2: int)
    requires n <= n2
    ensures forall x :: x in WithSink(g, free, n, n2).nodes <==> x in g.nodes || (n2 > 2 * n && (x == n2 || n <= x < n2))
  {
    if n2 > 2 * n {
      PartialSinkShape(g, free, n, n2, n2);
    }
  }

  /** Before `buildSCC`, no arc or node is the sink, so `removeNode(n2)` finds nothing to remove. */
  lemma NoSinkYet(g0: Digraph, n2: int)
    requires WellFormed(g0) && forall x | x in g0.nodes :: 0 <= x < n2
    ensures RemoveNode(g0, n2) == g0
  {
    assert forall a :: a in RemoveNode(g0, n2).arcs <==> a in g0.arcs;
  }

  /**
   * The first half of `buildSCC`: the sink `n2` is removed, and when values
   * outnumber variables it is added again and joined to every value node.
   */
  method AddSink(g0: Digraph, free: set<int>, n: nat, n2: nat) returns (g: Digraph)
    ensures g == WithSink(RemoveNode(g0, n2), free, n, n2)
  {
    g := RemoveNode(g0, n2);
    if n2 > n * 2 {
      g := JoinSink(g, free, n, n2);
    }
  }

  /**
   * `addNode(n2)`, then the loop over the value nodes: an arc from the
   * value to the sink when the value is free, from the sink to the value
   * otherwise.
   */
  method JoinSink(g0: Digraph, free: set<int>, n: nat, n2: nat) returns (g: Digraph)
    requires n <= n2
    ensures g == PartialSink(g0, free, n, n2, n2)
  {
    g := AddNode(g0, n2);
    var i := n;
    while i < n2
      invariant n <= i <= n2
      invariant g == PartialSink(g0, free, n, i, n2)
    {
      if i in free {
        g := AddArc(g, i, n2);
      } else {
        g := AddArc(g, n2, i);
      }
      i := i + 1;
    }
  }

  class AllDiffAC {
    /** Number of variables. */
    const n: nat
    /** One past the largest value id; the sink, when there is one, is node `n2`. */
    const n2: nat
    /** The matching phase and the value numbering. */
    const matcher: Matcher
    /** `SCCfinder`, over the `n2 + 1` nodes of the value graph and the sink. */
    const finder: SCCFinder
    /** The component id of every node, as the last `buildSCC` left it. */
    var nodeSCC: seq<int>
    /** The finder and its arrays. */
    ghost const finderRepr: set<object>

    ghost predicate Valid()
      reads this, matcher, matcher.matching, finder
    {
      matcher.Valid() && finder.Valid()
      && matcher.n == n && matcher.n2 == n2 && finder.n == n2 + 1
      && finderRepr == {finder, finder.stack, finder.p, finder.inf, finder.nodeOfDfsNum, finder.dfsNumOfNode,
                        finder.iterators, finder.sccFirstNode, finder.nextNode, finder.nodeSCC}
      && matcher.matching !in finderRepr && matcher.father !in finderRepr && matcher.fifo !in finderRepr
    }

    /**
     * The constructor: every value of the initial domains `d0` gets an id
     * in `n .. n2-1`, in the order in which the values are first met, and
     * no variable is matched yet.
     */
    constructor (d0: seq<set<int>>)
      requires AllDomains(d0)
      ensures Valid() && n == |d0|
      ensures matcher.ids.Keys == AllValues(d0) && n2 == n + |matcher.ids.Keys|
      ensures forall v, w | v in matcher.ids && w in matcher.ids :: matcher.ids[v] < matcher.ids[w] <==> MetBefore(d0, v, w)
      ensures forall i | 0 <= i < n :: matcher.matching[i] == -1
    {
      var ids, idToVal, top := AssignValueIds(d0);
      n := |d0|;
      n2 := top;
      var f := new SCCFinder(top + 1);
      finder := f;
      matcher := new Matcher(|d0|, top, ids, idToVal);
      nodeSCC := [];
      finderRepr := {f, f.stack, f.p, f.inf, f.nodeOfDfsNum, f.dfsNumOfNode, f.iterators, f.sccFirstNode, f.nextNode, f.nodeSCC};
    }

    /** Variable `i` and node `j` lie in the same component. */
    ghost predicate SameSCC(i: int, j: int)
      reads this
    {
      0 <= i < |nodeSCC| && 0 <= j < |nodeSCC| && nodeSCC[i] == nodeSCC[j]
    }

    /**
     * `r` is what `filter` leaves of the domain `dom` of variable `i`: when
     * the mate of `i` lies in the component of `i`, the values that lie
     * there too; otherwise the mate alone.
     */
    ghost predicate Pruned(i: int, dom: set<int>, r: set<int>)
      reads this, matcher, matcher.matching
      requires 0 <= i < matcher.matching.Length
    {
      var j := matcher.matching[i];
      j in matcher.vals
      && forall k :: k in r <==> k in dom && k in matcher.ids
                                 && (if SameSCC(i, j) then SameSCC(i, matcher.ids[k]) else k == matcher.vals[j])
    }

    /**
     * `propagate()`: the matching phase, then `filter`. It fails exactly
     * when the domains admit no assignment of pairwise different values;
     * otherwise every domain is pruned as `Pruned` states, the flag tells
     * whether some domain changed, and the matching found is still a
     * solution of the pruned domains.
     */
    method Propagate(d: seq<set<int>>) returns (r: Outcome<(seq<set<int>>, bool)>)
      requires Valid() && |d| == n && DomainsIn(d, matcher.ids)
      modifies this`nodeSCC, matcher, matcher.matching, matcher.father, matcher.fifo, finderRepr
      ensures Valid()
      ensures r == Contradiction <==> !HasSolution(d)
      ensures r.Done? ==> |r.value.0| == n && forall i | 0 <= i < n :: Pruned(i, d[i], r.value.0[i])
      ensures r.Done? ==> (r.value.1 <==> r.value.0 != d)
      ensures r.Done? ==> HasSolution(r.value.0)
    {
      var ok;
      ghost var M;
      ok, M := matcher.FindMaximumMatching(d);
      if !ok {
        return Contradiction;
      }
      var d', changed := Filter(d);
      matcher.ValidIds(d);
      KeepsMatching(d, d', matcher.vals, M);
      r := Done((d', changed));
    }

    /**
     * `filter()`: `buildSCC`, then each variable in turn. No removal can
     * empty a domain, since a variable's mate is never removed, so the
     * filter never fails.
     */
    method Filter(d: seq<set<int>>) returns (d': seq<set<int>>, changed: bool)
      requires Valid() && |d| == n && AllDomains(d) && forall i | 0 <= i < n :: d[i] <= matcher.ids.Keys
      requires forall i | 0 <= i < n :: matcher.matching[i] in matcher.vals && matcher.vals[matcher.matching[i]] in d[i]
      modifies this`nodeSCC, matcher`digraph, finderRepr
      ensures Valid() && matcher.digraph.arcs == old(matcher.digraph.arcs)
      ensures |d'| == n && forall i | 0 <= i < n :: Pruned(i, d[i], d'[i])
      ensures changed <==> d' != d
      ensures Components(WithSink(old(matcher.digraph), matcher.free, n, n2), nodeSCC)
    {
      BuildSCC();
      d', changed := FilterAll(d);
    }

    /**
     * `buildSCC()`: adds the sink when values outnumber variables, computes
     * the components of every node of that graph, and removes the sink
     * again, which leaves the arcs as they were.
     */
    method BuildSCC()
      requires Valid()
      modifies this`nodeSCC, matcher`digraph, finderRepr
      ensures Valid()
      ensures forall x :: x in matcher.digraph.nodes <==> x in old(matcher.digraph.nodes) || (n2 > 2 * n && n <= x < n2)
      ensures matcher.digraph.arcs == old(matcher.digraph.arcs)
      ensures |nodeSCC| == n2 + 1 && nodeSCC == finder.nodeSCC[..] && finder.ListsOk()
      ensures forall x :: x in finder.listed <==> x in old(matcher.digraph.nodes) || (n2 > 2 * n && (x == n2 || n <= x < n2))
      ensures Components(WithSink(old(matcher.digraph), matcher.free, n, n2), nodeSCC)
    {
      var g0 := matcher.digraph;
      NoSinkYet(g0, n2);
      SinkRemoved(g0, matcher.free, n, n2);
      SinkNodes(g0, matcher.free, n, n2);
      var G := AddSink(g0, matcher.free, n, n2);
      ghost var free := matcher.free;
      RunFinder(G);
      matcher.digraph := RemoveNode(G, n2);
      assert free == matcher.free && G == WithSink(old(matcher.digraph), free, n, n2);
    }

    /** The middle of `buildSCC`: the components of the graph with the sink. */
    method RunFinder(G: Digraph)
      requires Valid() && forall x | x in G.nodes :: 0 <= x <= n2
      modifies this`nodeSCC, finderRepr
      ensures Valid()
      ensures |nodeSCC| == n2 + 1 && nodeSCC == finder.nodeSCC[..] && finder.ListsOk()
      ensures forall x :: x in finder.listed <==> x in G.nodes
      ensures Components(G, nodeSCC)
    {
      finder.FindAllSCC(G);
      nodeSCC := finder.GetNodesSCC();
      ComponentsBelow(G, n2 + 1, nodeSCC);
    }

    /** The loop of `filter` over the variables, on the components `buildSCC` found. */
    method FilterAll(d: seq<set<int>>) returns (d': seq<set<int>>, changed: bool)
      requires Valid() && |d| == n && AllDomains(d) && forall i | 0 <= i < n :: d[i] <= matcher.ids.Keys
      requires forall i | 0 <= i < n :: matcher.matching[i] in matcher.vals && matcher.vals[matcher.matching[i]] in d[i]
      requires |nodeSCC| == n2 + 1
      ensures |d'| == n && forall i | 0 <= i < n :: Pruned(i, d[i], d'[i])
      ensures changed <==> d' != d
    {
      d', changed := d, false;
      var i := 0;
      while i < n
        invariant 0 <= i <= n && |d'| == n
        invariant forall x | 0 <= x < i :: Pruned(x, d[x], d'[x])
        invariant forall x | i <= x < n :: d'[x] == d[x]
        invariant changed <==> exists x | 0 <= x < i :: d'[x] != d[x]
      {
        var r, c := FilterVariable(i, d[i]);
        d' := d'[i := r];
        changed := changed || c;
        i := i + 1;
      }
    }

    /**
     * The inner loop of `filter` on variable `i`: the values of its domain
     * in increasing order; a value whose node lies in another component
     * than `i` is removed, or, when it is the mate, instantiated, which ends
     * the loop. The mate is never removed, so neither step can fail.
     */
    method FilterVariable(i: int, dom: set<int>) returns (r: set<int>, changed: bool)
      requires Valid() && 0 <= i < n && IsDomain(dom) && dom <= matcher.ids.Keys && |nodeSCC| == n2 + 1
      requires matcher.matching[i] in matcher.vals && matcher.vals[matcher.matching[i]] in dom
      ensures Pruned(i, dom, r) && matcher.vals[matcher.matching[i]] in r
      ensures changed <==> r != dom
    {
      var mate := matcher.matching[i];
      ghost var m := matcher.vals[mate];
      assert matcher.ids[m] == mate;
      r, changed := dom, false;
      var ub := UB(dom);
      var k := LB(dom);
      while k <= ub
        invariant k in r || k == MAX_VALUE
        invariant m in r && r <= dom
        invariant forall x :: x in r <==> x in dom && (k <= x || SameSCC(i, matcher.ids[x]) || x == m)
                                          && (!SameSCC(i, mate) && m < k ==> x == m)
        invariant changed <==> r != dom
        decreases ub - k
      {
        var j := matcher.ids[k];
        if nodeSCC[i] != nodeSCC[j] {
          if mate == j {
            var o := InstantiateTo(r, k);
            assert o.Done?;
            assert changed || o.value.1 <==> {k} != dom by {
              if {k} == dom { assert r == dom; }
            }
            r, changed := o.value.0, changed || o.value.1;
          } else {
            assert k != m;
            var o := RemoveValue(r, k);
            assert o.Done? by {
              assert m in r && m != k;
            }
            assert k !in o.value.0;
            r, changed := o.value.0, changed || o.value.1;
          }
        }
        k := NextValue(r, k);
      }
      assert forall x | x in dom :: x < k;
    }
  }
}

/**
 * choco's `DirectedGraph` as a value: a node set and an arc set. Adding an
 * arc also adds its two endpoints as nodes; removing a node removes the
 * arcs that touch it; clearing a node's successors and predecessors keeps
 * the node.
 */
module Digraphs {
  import opened IntSets

  datatype Digraph = Digraph(nodes: set<int>, arcs: set<(int, int)>)

  /** Every arc joins two nodes of the graph. */
  predicate WellFormed(g: Digraph)
  {
    forall a | a in g.arcs :: a.0 in g.nodes && a.1 in g.nodes
  }

  /** `getSuccOf(x)`. */
  function Succ(g: Digraph, x: int): (r: set<int>)
    ensures forall y :: y in r <==> (x, y) in g.arcs
  {
    set a | a in g.arcs && a.0 == x :: a.1
  }

  /** `getPredOf(y)`. */
  function Pred(g: Digraph, y: int): (r: set<int>)
    ensures forall x :: x in r <==> (x, y) in g.arcs
  {
    set a | a in g.arcs && a.1 == y :: a.0
  }

  /** `addArc(x, y)`. */
  function AddArc(g: Digraph, x: int, y: int): Digraph
  {
    Digraph(g.nodes + {x, y}, g.arcs + {(x, y)})
  }

  /** `removeArc(x, y)`. */
  function RemoveArc(g: Digraph, x: int, y: int): Digraph
  {
    Digraph(g.nodes, g.arcs - {(x, y)})
  }

  /** `addNode(x)`. */
  function AddNode(g: Digraph, x: int): Digraph
  {
    Digraph(g.nodes + {x}, g.arcs)
  }

  /** `removeNode(x)`: the node and every arc that touches it. */
  function RemoveNode(g: Digraph, x: int): Digraph
  {
    Digraph(g.nodes - {x}, set a | a in g.arcs && a.0 != x && a.1 != x)
  }

  /** `getSuccOf(x).clear()` followed by `getPredOf(x).clear()`. */
  function ClearArcsOf(g: Digraph, x: int): Digraph
  {
    Digraph(g.nodes, set a | a in g.arcs && a.0 != x && a.1 != x)
  }

  /** Removing an arc and adding it back reversed keeps the nodes and the well-formedness. */
  lemma ReverseArc(g: Digraph, x: int, y: int)
    requires WellFormed(g) && (x, y) in g.arcs
    ensures AddArc(RemoveArc(g, x, y), y, x) == Digraph(g.nodes, (g.arcs - {(x, y)}) + {(y, x)})
    ensures WellFormed(AddArc(RemoveArc(g, x, y), y, x))
  {
    assert g.nodes + {y, x} == g.nodes;
  }

  /** A path whose nodes all lie in `R` and whose consecutive nodes are joined by arcs. */
  ghost predicate IsPath(g: Digraph, R: set<int>, p: seq<int>)
  {
    |p| > 0
    && (forall t | 0 <= t < |p| :: p[t] in R)
    && (forall t | 0 <= t < |p| - 1 :: (p[t], p[t + 1]) in g.arcs)
  }

  /** `y` can be reached from `x` without leaving `R`. */
  ghost predicate Reaches(g: Digraph, R: set<int>, x: int, y: int)
  {
    exists p {:trigger IsPath(g, R, p)} :: IsPath(g, R, p) && p[0] == x && p[|p| - 1] == y
  }

  /** `x` and `y` reach each other inside `R`: they lie in one strongly connected component of the subgraph on `R`. */
  ghost predicate MutuallyReach(g: Digraph, R: set<int>, x: int, y: int)
  {
    Reaches(g, R, x, y) && Reaches(g, R, y, x)
  }

  /** Every node of `R` reaches itself. */
  lemma ReachSelf(g: Digraph, R: set<int>, x: int)
    requires x in R
    ensures Reaches(g, R, x, x)
  {
    assert IsPath(g, R, [x]);
  }

  /** An arc between two nodes of `R` is a path. */
  lemma ReachArc(g: Digraph, R: set<int>, x: int, y: int)
    requires x in R && y in R && (x, y) in g.arcs
    ensures Reaches(g, R, x, y)
  {
    var p := [x, y];
    assert IsPath(g, R, p) && p[0] == x && p[|p| - 1] == y;
  }

  /** Two paths that meet make one. */
  lemma ReachTrans(g: Digraph, R: set<int>, x: int, y: int, z: int)
    requires Reaches(g, R, x, y) && Reaches(g, R, y, z)
    ensures Reaches(g, R, x, z)
  {
    var p :| IsPath(g, R, p) && p[0] == x && p[|p| - 1] == y;
    var q :| IsPath(g, R, q) && q[0] == y && q[|q| - 1] == z;
    var r := p + q[1..];
    forall t | 0 <= t < |r| - 1 ensures (r[t], r[t + 1]) in g.arcs {
      if t + 1 < |p| {
        assert r[t] == p[t] && r[t + 1] == p[t + 1];
      } else {
        assert r[t] == q[t + 1 - |p|] && r[t + 1] == q[t + 2 - |p|];
      }
    }
    assert IsPath(g, R, r) && r[0] == x && r[|r| - 1] == z;
  }

  /** A path followed by an arc into `R` is a path. */
  lemma ReachStep(g: Digraph, R: set<int>, x: int, y: int, z: int)
    requires Reaches(g, R, x, y) && z in R && (y, z) in g.arcs
    ensures Reaches(g, R, x, z)
  {
    var p :| IsPath(g, R, p) && p[0] == x && p[|p| - 1] == y;
    ReachArc(g, R, y, z);
    ReachTrans(g, R, x, y, z);
  }

  /**
   * A path from inside the set `S` to outside it takes an arc `(u, v)` from
   * `S` to a node `v` outside it, from which the end is still reached.
   */
  lemma LeaveSet(g: Digraph, R: set<int>, S: set<int>, x: int, y: int) returns (u: int, v: int)
    requires Reaches(g, R, x, y) && x in S && y !in S
    ensures u in S && u in R && v !in S && v in R && (u, v) in g.arcs && Reaches(g, R, v, y)
  {
    var p :| IsPath(g, R, p) && p[0] == x && p[|p| - 1] == y;
    u, v := LeavePath(g, R, S, p);
  }

  /** `LeaveSet` along the path `p`, by induction on its length. */
  lemma {:induction false} LeavePath(g: Digraph, R: set<int>, S: set<int>, p: seq<int>) returns (u: int, v: int)
    requires IsPath(g, R, p) && p[0] in S && p[|p| - 1] !in S
    ensures u in S && u in R && v !in S && v in R && (u, v) in g.arcs && Reaches(g, R, v, p[|p| - 1])
    decreases |p|
  {
    if p[1] !in S {
      u, v := p[0], p[1];
      var q := p[1..];
      assert IsPath(g, R, q) && q[0] == v && q[|q| - 1] == p[|p| - 1];
    } else {
      var q := p[1..];
      assert IsPath(g, R, q);
      u, v := LeavePath(g, R, S, q);
    }
  }

  /**
   * A node without predecessors or without successors shares a strongly
   * connected component with no other node.
   */
  lemma AloneWithoutArcs(g: Digraph, R: set<int>, x: int, y: int)
    requires Pred(g, x) == {} || Succ(g, x) == {}
    requires x != y
    ensures !MutuallyReach(g, R, x, y)
  {
    if Reaches(g, R, x, y) {
      LeavesBySucc(g, R, x, y);
    }
    if Reaches(g, R, y, x) {
      EntersByPred(g, R, y, x);
    }
  }

  /** A path from `x` to another node leaves `x` by one of its successors. */
  lemma LeavesBySucc(g: Digraph, R: set<int>, x: int, y: int)
    requires Reaches(g, R, x, y) && x != y
    ensures Succ(g, x) != {}
  {
    var p :| IsPath(g, R, p) && p[0] == x && p[|p| - 1] == y;
    assert p[1] in Succ(g, x);
  }

  /** A path from another node to `x` enters `x` from one of its predecessors. */
  lemma EntersByPred(g: Digraph, R: set<int>, y: int, x: int)
    requires Reaches(g, R, y, x) && x != y
    ensures Pred(g, x) != {}
  {
    var q :| IsPath(g, R, q) && q[0] == y && q[|q| - 1] == x;
    assert q[|q| - 2] in Pred(g, x);
  }
}

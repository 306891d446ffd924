/**
 * The edge numbering of the bit-parallel filter (`AlgoAllDiffAC_Fastbit`):
 * the edge between variable `i` and value node `j` is bit
 * `i * numValue + (j - n)` of flat bit sets. The module builds, as the
 * constructor and `findMaximumMatching` do, the per-variable and per-value
 * edge tables, the bit set of the edges of the current domains and the
 * matched edges.
 */
module FastbitEdges {
  import opened IntSets
  import opened Domains
  import opened ValueIds

  /** The edge between variable `i` and value node `j` when there are `nv` value nodes from `n` on. */
  function EdgeOf(i: int, j: int, n: int, nv: int): int
  {
    i * nv + (j - n)
  }

  /** The variable of edge `e`: its quotient by `nv`, counted without division. */
  ghost function EVar(e: int, nv: int): (q: int)
    requires 0 <= e && 0 < nv
    ensures 0 <= q
    decreases e
  {
    if e < nv then 0 else 1 + EVar(e - nv, nv)
  }

  /** The value index of edge `e`: its remainder by `nv`. */
  ghost function EVal(e: int, nv: int): (r: int)
    requires 0 <= e && 0 < nv
    ensures 0 <= r < nv
    decreases e
  {
    if e < nv then e else EVal(e - nv, nv)
  }

  /** An edge index is its variable times `nv` plus its value index. */
  lemma {:induction false} EdgeSplit(e: int, nv: int)
    requires 0 <= e && 0 < nv
    ensures e == EVar(e, nv) * nv + EVal(e, nv) && 0 <= EVal(e, nv) < nv && 0 <= EVar(e, nv)
    decreases e
  {
    if e >= nv {
      EdgeSplit(e - nv, nv);
      assert (EVar(e - nv, nv) + 1) * nv == EVar(e - nv, nv) * nv + nv;
    }
  }

  /** The edge of variable `i` and value node `j` splits back into `i` and `j - n`. */
  lemma {:induction false} EdgeParts(i: int, j: int, n: int, nv: int)
    requires 0 <= i && n <= j < n + nv
    ensures 0 <= EdgeOf(i, j, n, nv) && EVar(EdgeOf(i, j, n, nv), nv) == i && EVal(EdgeOf(i, j, n, nv), nv) == j - n
    decreases i
  {
    if i > 0 {
      EdgeParts(i - 1, j, n, nv);
      assert EdgeOf(i, j, n, nv) - nv == EdgeOf(i - 1, j, n, nv);
    }
  }

  /** Every edge index is the edge of its variable and its value node. */
  lemma EdgeWhole(e: int, n: int, nv: int)
    requires 0 <= e && 0 < nv
    ensures EdgeOf(EVar(e, nv), n + EVal(e, nv), n, nv) == e
  {
    EdgeSplit(e, nv);
  }

  /** A non-zero multiple of `nv` is at least `nv` away from zero. */
  lemma MulAway(t: int, nv: int)
    requires 0 < nv
    ensures t >= 1 ==> t * nv >= nv
    ensures t <= -1 ==> t * nv <= -nv
  {
  }

  /** Quotient and remainder by `nv` are unique. */
  lemma UniqueDiv(a: int, b: int, q: int, r: int, nv: int)
    requires 0 < nv && 0 <= b < nv && 0 <= r < nv && a * nv + b == q * nv + r
    ensures a == q && b == r
  {
    MulAway(a - q, nv);
    assert (a - q) * nv == r - b;
  }

  /** An edge index is determined by its variable and its value index. */
  lemma EdgeUnique(e: int, i: int, j: int, n: int, nv: int)
    requires 0 <= e && 0 < nv && EVar(e, nv) == i && n + EVal(e, nv) == j
    ensures e == EdgeOf(i, j, n, nv)
  {
    EdgeWhole(e, n, nv);
  }

  /** Java's `/` and `%` on a non-negative index give its variable and its value index. */
  lemma DivMod(e: int, nv: int)
    requires 0 <= e && 0 < nv
    ensures e / nv == EVar(e, nv) && e % nv == EVal(e, nv)
  {
    EdgeSplit(e, nv);
    UniqueDiv(e / nv, e % nv, EVar(e, nv), EVal(e, nv), nv);
  }

  /** The edges of the first `m` variables lie below `m * nv`. */
  lemma {:induction false} EdgeBound(e: int, nv: int, m: int)
    requires 0 <= e && 0 < nv && EVar(e, nv) < m
    ensures e < m * nv
    decreases e
  {
    if e < nv {
      assert m * nv == (m - 1) * nv + nv;
      assert (m - 1) * nv >= 0;
    } else {
      EdgeBound(e - nv, nv, m - 1);
      assert (m - 1) * nv + nv == m * nv;
    }
  }

  /** Bit `e` stands for an edge of the domains `d`: its value node names a value of its variable's domain. */
  ghost predicate EdgeIn(d: seq<set<int>>, vals: map<int, int>, n: int, nv: int, e: int)
  {
    0 < nv && 0 <= e && EVar(e, nv) < |d| && n + EVal(e, nv) in vals && vals[n + EVal(e, nv)] in d[EVar(e, nv)]
  }

  /** The value ids of the constructor: a bijection between the values and `n .. n+nv-1`. */
  ghost predicate IdMaps(ids: map<int, int>, vals: map<int, int>, n: int, nv: int)
  {
    (forall k | k in ids :: n <= ids[k] < n + nv && ids[k] in vals && vals[ids[k]] == k)
    && (forall j | j in vals :: n <= j < n + nv && vals[j] in ids && ids[vals[j]] == j)
    && (forall j | n <= j < n + nv :: j in vals)
  }

  /**
   * The step of the loops over a domain in increasing order: the edges of
   * variable `i` below the value after `k` are those below `k` and the edge
   * of `k` itself.
   */
  lemma NextEdge(d: seq<set<int>>, ids: map<int, int>, vals: map<int, int>, n: int, nv: int, i: int, k: int)
    requires IdMaps(ids, vals, n, nv) && 0 <= i < |d| && IsDomain(d[i]) && d[i] <= ids.Keys && k in d[i]
    ensures var e0 := EdgeOf(i, ids[k], n, nv);
            EdgeIn(d, vals, n, nv, e0) && EVar(e0, nv) == i && vals[n + EVal(e0, nv)] == k
    ensures forall e | EdgeIn(d, vals, n, nv, e) && EVar(e, nv) == i ::
              vals[n + EVal(e, nv)] < NextValue(d[i], k) <==> vals[n + EVal(e, nv)] < k || e == EdgeOf(i, ids[k], n, nv)
  {
    EdgeParts(i, ids[k], n, nv);
    forall e | EdgeIn(d, vals, n, nv, e) && EVar(e, nv) == i
      ensures vals[n + EVal(e, nv)] < NextValue(d[i], k) <==> vals[n + EVal(e, nv)] < k || e == EdgeOf(i, ids[k], n, nv)
    {
      EdgeWhole(e, n, nv);
      if vals[n + EVal(e, nv)] == k {
        assert ids[vals[n + EVal(e, nv)]] == n + EVal(e, nv);
      }
    }
  }

  /** `varEdge[i]` and `valEdge[v]` hold exactly the edges of variable `i` and of value index `v` in the domains `d`. */
  ghost predicate EdgeTables(d: seq<set<int>>, vals: map<int, int>, n: int, nv: int, varEdge: seq<set<int>>, valEdge: seq<set<int>>)
  {
    |varEdge| == n && |valEdge| == nv
    && (forall i, e | 0 <= i < n :: e in varEdge[i] <==> EdgeIn(d, vals, n, nv, e) && EVar(e, nv) == i)
    && (forall v, e | 0 <= v < nv :: e in valEdge[v] <==> EdgeIn(d, vals, n, nv, e) && EVal(e, nv) == v)
  }

  /**
   * The loop of the constructor that records, for every variable and every
   * value of its initial domain, the edge in `varEdge` of the variable and
   * in `valEdge` of the value.
   */
  method BuildEdges(d0: seq<set<int>>, ids: map<int, int>, ghost vals: map<int, int>, n: nat, nv: nat)
    returns (varEdge: seq<set<int>>, valEdge: seq<set<int>>)
    requires |d0| == n && AllDomains(d0) && (forall i | 0 <= i < n :: d0[i] <= ids.Keys) && IdMaps(ids, vals, n, nv)
    ensures EdgeTables(d0, vals, n, nv, varEdge, valEdge)
  {
    varEdge := seq(n, _ => {});
    valEdge := seq(nv, _ => {});
    var i := 0;
    while i < n
      invariant 0 <= i <= n && EdgesBefore(d0, vals, n, nv, i, varEdge, valEdge)
    {
      varEdge, valEdge := AddVarEdges(d0, ids, vals, n, nv, i, varEdge, valEdge);
      i := i + 1;
    }
  }

  /** The edge tables hold exactly the edges of the variables before `i`. */
  ghost predicate EdgesBefore(d: seq<set<int>>, vals: map<int, int>, n: int, nv: int, i: int,
                              varEdge: seq<set<int>>, valEdge: seq<set<int>>)
  {
    |varEdge| == n && |valEdge| == nv
    && (forall x, e | 0 <= x < n :: e in varEdge[x] <==> EdgeIn(d, vals, n, nv, e) && EVar(e, nv) == x && x < i)
    && (forall v, e | 0 <= v < nv :: e in valEdge[v] <==> EdgeIn(d, vals, n, nv, e) && EVal(e, nv) == v && EVar(e, nv) < i)
  }

  /**
   * The edge tables hold the edges of the variables before `i` and those
   * of variable `i` whose value is below `k`.
   */
  ghost predicate EdgesBelow(d: seq<set<int>>, vals: map<int, int>, n: int, nv: int, i: int, k: int,
                             varEdge: seq<set<int>>, valEdge: seq<set<int>>)
  {
    |varEdge| == n && |valEdge| == nv
    && (forall x, e | 0 <= x < n ::
          e in varEdge[x] <==> EdgeIn(d, vals, n, nv, e) && EVar(e, nv) == x && (x < i || (x == i && vals[n + EVal(e, nv)] < k)))
    && (forall v, e | 0 <= v < nv ::
          e in valEdge[v] <==> EdgeIn(d, vals, n, nv, e) && EVal(e, nv) == v && (EVar(e, nv) < i || (EVar(e, nv) == i && vals[n + EVal(e, nv)] < k)))
  }

  /** Adding the edge of value `k` of variable `i` moves the bound past `k`. */
  lemma EdgesStep(d: seq<set<int>>, ids: map<int, int>, vals: map<int, int>, n: int, nv: int, i: int, k: int,
                  varEdge: seq<set<int>>, valEdge: seq<set<int>>)
    requires IdMaps(ids, vals, n, nv) && 0 <= i < |d| == n && IsDomain(d[i]) && d[i] <= ids.Keys && k in d[i]
    requires EdgesBelow(d, vals, n, nv, i, k, varEdge, valEdge)
    ensures ids[k] - n < |valEdge|
    ensures EdgesBelow(d, vals, n, nv, i, NextValue(d[i], k),
                       varEdge[i := varEdge[i] + {EdgeOf(i, ids[k], n, nv)}],
                       valEdge[ids[k] - n := valEdge[ids[k] - n] + {EdgeOf(i, ids[k], n, nv)}])
  {
    NextEdge(d, ids, vals, n, nv, i, k);
  }

  /** Before the first value of variable `i`, no edge of `i` is in the tables. */
  lemma EdgesFirst(d: seq<set<int>>, vals: map<int, int>, n: int, nv: int, i: int,
                   varEdge: seq<set<int>>, valEdge: seq<set<int>>)
    requires 0 <= i < |d| == n && IsDomain(d[i])
    requires EdgesBefore(d, vals, n, nv, i, varEdge, valEdge)
    ensures EdgesBelow(d, vals, n, nv, i, LB(d[i]), varEdge, valEdge)
  {
  }

  /** Past the last value of variable `i`, all its edges are in the tables. */
  lemma EdgesLast(d: seq<set<int>>, vals: map<int, int>, n: int, nv: int, i: int, k: int,
                  varEdge: seq<set<int>>, valEdge: seq<set<int>>)
    requires 0 <= i < |d| == n && IsDomain(d[i]) && UB(d[i]) < k
    requires EdgesBelow(d, vals, n, nv, i, k, varEdge, valEdge)
    ensures EdgesBefore(d, vals, n, nv, i + 1, varEdge, valEdge)
  {
  }

  /** The inner loop of `BuildEdges`: the values of variable `i` in increasing order. */
  method AddVarEdges(d0: seq<set<int>>, ids: map<int, int>, ghost vals: map<int, int>, n: nat, nv: nat, i: nat,
                     varEdge0: seq<set<int>>, valEdge0: seq<set<int>>)
    returns (varEdge: seq<set<int>>, valEdge: seq<set<int>>)
    requires |d0| == n && i < n && IsDomain(d0[i]) && d0[i] <= ids.Keys && IdMaps(ids, vals, n, nv)
    requires EdgesBefore(d0, vals, n, nv, i, varEdge0, valEdge0)
    ensures EdgesBefore(d0, vals, n, nv, i + 1, varEdge, valEdge)
  {
    varEdge, valEdge := varEdge0, valEdge0;
    var ub := UB(d0[i]);
    var k := LB(d0[i]);
    EdgesFirst(d0, vals, n, nv, i, varEdge, valEdge);
    while k <= ub
      invariant k in d0[i] || k == MAX_VALUE
      invariant EdgesBelow(d0, vals, n, nv, i, k, varEdge, valEdge)
      decreases ub - k
    {
      var j := ids[k];
      var e0 := i * nv + (j - n);
      EdgesStep(d0, ids, vals, n, nv, i, k, varEdge, valEdge);
      varEdge := varEdge[i := varEdge[i] + {e0}];
      valEdge := valEdge[j - n := valEdge[j - n] + {e0}];
      k := NextValue(d0[i], k);
    }
    EdgesLast(d0, vals, n, nv, i, k, varEdge, valEdge);
  }

  /**
   * The bit set `leftEdge` as the matching phase sets it: the loops over
   * the variables and, for each, over its domain in increasing order set
   * the edge of every value of the current domains `d`.
   */
  method LeftEdges(d: seq<set<int>>, ids: map<int, int>, ghost vals: map<int, int>, n: nat, nv: nat) returns (left: set<int>)
    requires |d| == n && AllDomains(d) && (forall i | 0 <= i < n :: d[i] <= ids.Keys) && IdMaps(ids, vals, n, nv)
    ensures forall e :: e in left <==> EdgeIn(d, vals, n, nv, e)
  {
    left := {};
    var i := 0;
    while i < n
      invariant 0 <= i <= n
      invariant forall e :: e in left <==> EdgeIn(d, vals, n, nv, e) && EVar(e, nv) < i
    {
      left := AddLeftEdges(d, ids, vals, n, nv, i, left);
      i := i + 1;
    }
  }

  /** The inner loop of `LeftEdges`: the values of variable `i` in increasing order. */
  method AddLeftEdges(d: seq<set<int>>, ids: map<int, int>, ghost vals: map<int, int>, n: nat, nv: nat, i: nat, left0: set<int>)
    returns (left: set<int>)
    requires |d| == n && i < n && IsDomain(d[i]) && d[i] <= ids.Keys && IdMaps(ids, vals, n, nv)
    requires forall e :: e in left0 <==> EdgeIn(d, vals, n, nv, e) && EVar(e, nv) < i
    ensures forall e :: e in left <==> EdgeIn(d, vals, n, nv, e) && EVar(e, nv) <= i
  {
    left := left0;
    var ub := UB(d[i]);
    var k := LB(d[i]);
    while k <= ub
      invariant k in d[i] || k == MAX_VALUE
      invariant forall e :: e in left <==> EdgeIn(d, vals, n, nv, e) && (EVar(e, nv) < i || (EVar(e, nv) == i && vals[n + EVal(e, nv)] < k))
      decreases ub - k
    {
      var j := ids[k];
      NextEdge(d, ids, vals, n, nv, i, k);
      left := left + {i * nv + (j - n)};
      k := NextValue(d[i], k);
    }
  }

  /**
   * `matched` holds exactly the matched edges of the mates `m`, and `ve`
   * and `va` give the matched edge of each variable and of each matched value.
   */
  ghost predicate MatchedEdgesOf(m: seq<int>, n: int, nv: int, matched: set<int>, ve: seq<int>, va: seq<int>)
  {
    |m| == n == |ve| && |va| == nv
    && (forall e :: e in matched <==> 0 <= e && nv > 0 && EVar(e, nv) < n && n + EVal(e, nv) == m[EVar(e, nv)])
    && (forall i | 0 <= i < n :: ve[i] == EdgeOf(i, m[i], n, nv))
    && (forall i | 0 <= i < n && n <= m[i] < n + nv :: va[m[i] - n] == EdgeOf(i, m[i], n, nv))
  }

  /** One more variable's matched edge joins the set of matched edges. */
  lemma MatchedStep(m: seq<int>, n: int, nv: int, matched: set<int>, i: int)
    requires 0 <= i < |m| && n <= m[i] < n + nv
    requires forall e :: e in matched <==> 0 <= e && nv > 0 && EVar(e, nv) < i && n + EVal(e, nv) == m[EVar(e, nv)]
    ensures forall e :: e in matched + {EdgeOf(i, m[i], n, nv)} <==>
                        0 <= e && nv > 0 && EVar(e, nv) < i + 1 && n + EVal(e, nv) == m[EVar(e, nv)]
  {
    EdgeParts(i, m[i], n, nv);
    forall e | 0 <= e && nv > 0 && EVar(e, nv) == i && n + EVal(e, nv) == m[i] ensures e == EdgeOf(i, m[i], n, nv) {
      EdgeUnique(e, i, m[i], n, nv);
    }
  }

  /**
   * The loop of `RecordMatchedEdges` over the mates `m` (value nodes in
   * `n .. n+nv-1`, pairwise different): returns the matched edges and
   * writes each into `ve` and `va`.
   */
  method RecordEdges(m: seq<int>, n: nat, nv: nat, ve: array<int>, va: array<int>) returns (matched: set<int>)
    requires |m| == n == ve.Length && va.Length == nv && ve != va
    requires forall i | 0 <= i < n :: n <= m[i] < n + nv
    requires forall i, i' | 0 <= i < n && 0 <= i' < n && i != i' :: m[i] != m[i']
    modifies ve, va
    ensures MatchedEdgesOf(m, n, nv, matched, ve[..], va[..])
  {
    matched := {};
    var i := 0;
    while i < n
      invariant 0 <= i <= n
      invariant forall e :: e in matched <==> 0 <= e && nv > 0 && EVar(e, nv) < i && n + EVal(e, nv) == m[EVar(e, nv)]
      invariant forall x | 0 <= x < i :: ve[x] == EdgeOf(x, m[x], n, nv)
      invariant forall x | 0 <= x < i :: va[m[x] - n] == EdgeOf(x, m[x], n, nv)
    {
      var e := EdgeOf(i, m[i], n, nv);
      MatchedStep(m, n, nv, matched, i);
      matched := matched + {e};
      ve[i] := e;
      va[m[i] - n] := e;
      i := i + 1;
    }
  }

  /**
   * What the constructor builds from the initial domains `d0`: value ids
   * `ids` in `n .. n2-1` with inverse `vals`, and the edge tables.
   */
  ghost predicate Layout(d0: seq<set<int>>, ids: map<int, int>, vals: map<int, int>, n: int, n2: int, nv: int,
                         varEdge: seq<set<int>>, valEdge: seq<set<int>>)
  {
    |d0| == n && AllDomains(d0) && nv == n2 - n && n <= n2
    && IdMaps(ids, vals, n, nv) && ids.Keys == AllValues(d0)
    && EdgeTables(d0, vals, n, nv, varEdge, valEdge)
  }

  /** The numbering loop shared with the other filters, then the edge tables (`AlgoAllDiffAC_Fastbit` constructor). */
  method MakeLayout(d0: seq<set<int>>) returns (ids: map<int, int>, vals: map<int, int>, n2: nat, varEdge: seq<set<int>>, valEdge: seq<set<int>>)
    requires AllDomains(d0)
    ensures Layout(d0, ids, vals, |d0|, n2, n2 - |d0|, varEdge, valEdge)
    ensures n2 == |d0| + |ids.Keys|
    ensures forall v, w | v in ids && w in ids :: ids[v] < ids[w] <==> MetBefore(d0, v, w)
  {
    var top;
    ids, vals, top := AssignValueIds(d0);
    n2 := top;
    assert IdMaps(ids, vals, |d0|, n2 - |d0|);
    assert forall i | 0 <= i < |d0| :: d0[i] <= ids.Keys by {
      DomainsInValues(d0);
    }
    varEdge, valEdge := BuildEdges(d0, ids, vals, |d0|, n2 - |d0|);
  }

  /** Every variable `x` of `d` keeps, in `D`, exactly the value of its mate `m[x]`. */
  ghost predicate OnlyMates(d: seq<set<int>>, D: seq<set<int>>, vals: map<int, int>, m: seq<int>)
  {
    |D| == |d| == |m| && forall x | 0 <= x < |d| :: m[x] in vals && D[x] == {vals[m[x]]} && D[x] <= d[x]
  }

  /** The value indices of `a` whose value node `n + v` is not among the nodes `free`. */
  function DropFree(a: set<int>, n: int, free: set<int>): set<int>
  {
    set v | v in a && n + v !in free
  }
}

/**
 * The bit-parallel variant of the fast filter (`AlgoAllDiffAC_Fastbit`).
 * The edge between variable `i` and value node `j` is bit
 * `i * numValue + (j - n)` of flat bit sets: `leftEdge` (the edges still
 * present), `matchedEdge` (the matched ones), `searchEdge` (the edges met by
 * the search from the free values) and `sccEdge`; `varEdge[i]` and
 * `valEdge[j - n]` hold the edges of variable `i` and of value `j` in the
 * initial domains. Two sparse sets with a recorded snapshot, `notGamma` (the
 * variables not reached) and `notA` (the value indices not reached), follow
 * the search.
 *
 * The expansion steps of `distinguish` and `checkSCC` are commented out in
 * this version, so the search never leaves the free values and `checkSCC`
 * always answers false. What the code then does, and what is proved about
 * it, is: every variable that still has two values or more is instantiated
 * to its mate.
 */
module AllDiffFastbitFilter {
  import opened IntSets
  import opened Domains
  import opened ValueIds
  import opened ValueGraphs
  import opened Matchers
  import opened FastbitEdges

  /** `SparseSet` with `record`/`restore`: the current members and the snapshot the last `record` took. */
  datatype SparseSet = SparseSet(members: set<int>, saved: set<int>)

  /**
   * The first loop of `distinguish`: for every free value node `i` from
   * `n` on, in increasing order, its index leaves `A` and its edges of the
   * initial domains `d0` join `S`.
   */
  method FreeValueEdges(free: set<int>, valEdge: seq<set<int>>, n: int, nv: int, A0: set<int>,
                        ghost d0: seq<set<int>>, ghost vals: map<int, int>)
    returns (S: set<int>, A: set<int>)
    requires (forall x | x in free :: 0 <= x) && 0 <= n && 0 <= nv && |valEdge| == nv
    requires forall v, e | 0 <= v < nv :: e in valEdge[v] <==> EdgeIn(d0, vals, n, nv, e) && EVal(e, nv) == v
    requires forall v | v in A0 :: 0 <= v < nv
    ensures forall v :: v in A <==> v in A0 && n + v !in free
    ensures forall e :: e in S <==> EdgeIn(d0, vals, n, nv, e) && n + EVal(e, nv) in free
  {
    S, A := {}, A0;
    var i := NextSetBit(free, n);
    ghost var lo := n;
    while n <= i < n + nv
      invariant n <= lo <= n + nv && i == NextSetBit(free, lo)
      invariant forall v :: v in A <==> v in A0 && !(n + v < lo && n + v in free)
      invariant forall e :: e in S <==> EdgeIn(d0, vals, n, nv, e) && n + EVal(e, nv) in free && n + EVal(e, nv) < lo
      decreases n + nv - lo
    {
      A := A - {i - n};
      S := S + valEdge[i - n];
      lo := i + 1;
      i := NextSetBit(free, i + 1);
    }
  }

  /** Value `k` is struck off by the value indices of `A` below `lo`: its value node is one of theirs. */
  ghost predicate Struck(ids: map<int, int>, n: int, A: set<int>, lo: int, k: int)
  {
    k in ids && ids[k] - n in A && ids[k] - n < lo
  }

  /**
   * The domains `D` after the first pass has struck, from the domain of
   * every variable of `X`, the values of the value indices of `A` below `lo`.
   */
  ghost predicate FirstCut(d: seq<set<int>>, ids: map<int, int>, n: int, X: set<int>, A: set<int>, lo: int, D: seq<set<int>>)
  {
    |D| == |d| && AllDomains(D)
    && forall x, k | 0 <= x < |d| :: k in D[x] <==> Survives(d, ids, n, X, A, lo, x, k)
  }

  /** Value `k` of variable `x` survives the first pass up to value index `lo`. */
  ghost predicate Survives(d: seq<set<int>>, ids: map<int, int>, n: int, X: set<int>, A: set<int>, lo: int, x: int, k: int)
    requires 0 <= x < |d|
  {
    k in d[x] && (x in X ==> !Struck(ids, n, A, lo, k))
  }

  /** Value `k` of variable `x` survives the first pass up to value index `a` and, below `xlo`, value index `a` too. */
  ghost predicate PartSurvives(d: seq<set<int>>, ids: map<int, int>, n: int, X: set<int>, A: set<int>, a: int, xlo: int, x: int, k: int)
    requires 0 <= x < |d|
  {
    Survives(d, ids, n, X, A, a, x, k) && (x in X && x < xlo ==> !ValueOf(ids, n, a, k))
  }

  /** `FirstCut` in the middle of value index `a`: the variables of `X` below `xlo` have also lost the value of `a`. */
  ghost predicate PartCut(d: seq<set<int>>, ids: map<int, int>, n: int, X: set<int>, A: set<int>, a: int, xlo: int, D: seq<set<int>>)
  {
    |D| == |d| && AllDomains(D)
    && forall x, k | 0 <= x < |d| :: k in D[x] <==> PartSurvives(d, ids, n, X, A, a, xlo, x, k)
  }

  /** Value `k` is the value of value index `a`. */
  ghost predicate ValueOf(ids: map<int, int>, n: int, a: int, k: int)
  {
    k in ids && ids[k] == n + a
  }

  /** Bit `e` joins variable `x` of `X` below `xlo` and value index `a`. */
  ghost predicate ClearedAt(nv: int, X: set<int>, a: int, xlo: int, e: int)
  {
    0 < nv && 0 <= e && EVar(e, nv) in X && EVar(e, nv) < xlo && EVal(e, nv) == a
  }

  /** Bit `e` is cleared by the first pass up to value index `lo`: its variable is in `X`, its value index in `A` below `lo`. */
  ghost predicate Cleared(nv: int, X: set<int>, A: set<int>, lo: int, e: int)
  {
    0 < nv && 0 <= e && EVar(e, nv) in X && EVal(e, nv) in A && EVal(e, nv) < lo
  }

  /** Some variable of `X` has all its values among those of the value indices `A`. */
  ghost predicate Wiped(d: seq<set<int>>, ids: map<int, int>, n: int, X: set<int>, A: set<int>)
  {
    exists x | x in X && 0 <= x < |d| :: forall k | k in d[x] :: k in ids && ids[k] - n in A
  }

  /** The value indices of `A` skip `lo .. hi-1`, so striking up to `lo` is striking up to `hi`. */
  lemma CutSkip(d: seq<set<int>>, ids: map<int, int>, n: int, nv: int, X: set<int>, A: set<int>, lo: int, hi: int,
                D: seq<set<int>>, L0: set<int>, L: set<int>)
    requires lo <= hi && forall a | a in A :: a < lo || hi <= a
    requires FirstCut(d, ids, n, X, A, lo, D)
    requires forall e :: e in L <==> e in L0 && !Cleared(nv, X, A, lo, e)
    ensures FirstCut(d, ids, n, X, A, hi, D)
    ensures forall e :: e in L <==> e in L0 && !Cleared(nv, X, A, hi, e)
  {
    forall x, k | 0 <= x < |d| ensures k in D[x] <==> Survives(d, ids, n, X, A, hi, x, k) {
      assert Struck(ids, n, A, lo, k) <==> Struck(ids, n, A, hi, k);
    }
  }

  /** At the end of the first pass, a variable of `X` whose values were all struck would have an empty domain. */
  lemma NotWiped(d: seq<set<int>>, ids: map<int, int>, vals: map<int, int>, n: int, nv: int, X: set<int>, A: set<int>, D: seq<set<int>>)
    requires IdMaps(ids, vals, n, nv) && FirstCut(d, ids, n, X, A, nv, D)
    ensures !Wiped(d, ids, n, X, A)
  {
    if x :| x in X && 0 <= x < |d| && forall k | k in d[x] :: k in ids && ids[k] - n in A {
      Inhabited(D[x]);
      assert false;
    }
  }

  /** Striking the value `k` of index `a` from variable `x`, the next variable of `X`, moves `PartCut` past `x`. */
  lemma StrikeStep(d: seq<set<int>>, ids: map<int, int>, vals: map<int, int>, n: int, nv: int, X: set<int>, A: set<int>,
                   a: int, xlo: int, x: int, D: seq<set<int>>, k: int)
    requires IdMaps(ids, vals, n, nv) && n + a in vals && k == vals[n + a]
    requires PartCut(d, ids, n, X, A, a, xlo, D)
    requires x in X && 0 <= xlo <= x < |d| && forall y | y in X && xlo <= y :: x <= y
    requires D[x] != {k}
    ensures PartCut(d, ids, n, X, A, a, x + 1, D[x := D[x] - {k}])
    ensures D[x := D[x] - {k}] != d <==> D != d || k in D[x]
  {
    var D' := D[x := D[x] - {k}];
    Inhabited(D[x]);
    var y :| y in D[x];
    if y == k {
      Inhabited(D[x] - {k});
      if D[x] - {k} == {} {
        assert false;
      }
    }
    assert D'[x] != {};
    forall x', k' | 0 <= x' < |d|
      ensures k' in D'[x'] <==> PartSurvives(d, ids, n, X, A, a, x + 1, x', k')
    {
      assert ValueOf(ids, n, a, k') <==> k' == k;
    }
    if k !in D[x] {
      assert D'[x] == D[x] by {
        assert forall z :: z in D'[x] <==> z in D[x];
      }
      assert D' == D;
    } else {
      assert k in d[x];
      assert k !in D'[x];
    }
  }

  /** Clearing the bit of `x` and `a` moves the picture of `leftEdge` past `x`. */
  lemma ClearStep(n: int, nv: int, X: set<int>, A: set<int>, a: int, xlo: int, x: int, L0: set<int>, L: set<int>)
    requires 0 <= a < nv && x in X && 0 <= xlo <= x && forall y | y in X && xlo <= y :: x <= y
    requires forall e :: e in L <==> e in L0 && !Cleared(nv, X, A, a, e) && !ClearedAt(nv, X, a, xlo, e)
    ensures forall e :: e in L - {x * nv + a} <==> e in L0 && !Cleared(nv, X, A, a, e) && !ClearedAt(nv, X, a, x + 1, e)
  {
    EdgeParts(x, n + a, n, nv);
    assert x * nv + a == EdgeOf(x, n + a, n, nv);
    forall e | 0 <= e && EVar(e, nv) == x && EVal(e, nv) == a ensures e == x * nv + a {
      EdgeUnique(e, x, n + a, n, nv);
    }
  }

  /** With every variable of `X` behind `xlo`, `PartCut` at `a` is `FirstCut` past `a`. */
  lemma StrikeDone(d: seq<set<int>>, ids: map<int, int>, n: int, nv: int, X: set<int>, A: set<int>, a: int, xlo: int,
                   D: seq<set<int>>, L0: set<int>, L: set<int>)
    requires a in A && 0 < nv && forall y | y in X :: y < xlo
    requires PartCut(d, ids, n, X, A, a, xlo, D)
    requires forall e :: e in L <==> e in L0 && !Cleared(nv, X, A, a, e) && !ClearedAt(nv, X, a, xlo, e)
    ensures FirstCut(d, ids, n, X, A, a + 1, D)
    ensures forall e :: e in L <==> e in L0 && !Cleared(nv, X, A, a + 1, e)
  {
    forall x, k | 0 <= x < |d| ensures k in D[x] <==> Survives(d, ids, n, X, A, a + 1, x, k) {
      assert Struck(ids, n, A, a + 1, k) <==> Struck(ids, n, A, a, k) || ValueOf(ids, n, a, k);
    }
  }

  /** Value `k` was the last one variable `x` had left: all of its initial values are struck. */
  lemma WipedAt(d: seq<set<int>>, ids: map<int, int>, vals: map<int, int>, n: int, nv: int, X: set<int>, A: set<int>,
                a: int, xlo: int, x: int, D: seq<set<int>>, k: int)
    requires IdMaps(ids, vals, n, nv) && a in A && n + a in vals && k == vals[n + a]
    requires PartCut(d, ids, n, X, A, a, xlo, D)
    requires x in X && 0 <= xlo <= x < |d| && D[x] == {k}
    ensures Wiped(d, ids, n, X, A)
  {
    forall k' | k' in d[x] ensures k' in ids && ids[k'] - n in A {
      if k' !in D[x] {
        assert Struck(ids, n, A, a, k');
      }
    }
  }

  /**
   * The inner loop of `filterFirstPart` for value index `a`: the value of
   * `a` leaves the domain of every variable of `X`, in increasing order,
   * and the bit of each pair is cleared; a variable losing its last value
   * is a contradiction.
   */
  method StrikeValue(d: seq<set<int>>, X: set<int>, A: set<int>, ghost ids: map<int, int>, vals: map<int, int>,
                     n: nat, nv: nat, a: int, D0: seq<set<int>>, changed0: bool, ghost L0: set<int>, L1: set<int>)
    returns (ok: bool, D: seq<set<int>>, changed: bool, L: set<int>)
    requires |d| == n && IdMaps(ids, vals, n, nv)
    requires forall x | x in X :: 0 <= x < n
    requires a in A && 0 <= a < nv
    requires FirstCut(d, ids, n, X, A, a, D0) && (changed0 <==> D0 != d)
    requires forall e :: e in L1 <==> e in L0 && !Cleared(nv, X, A, a, e)
    ensures ok ==> FirstCut(d, ids, n, X, A, a + 1, D) && (changed <==> D != d)
    ensures ok ==> forall e :: e in L <==> e in L0 && !Cleared(nv, X, A, a + 1, e)
    ensures !ok ==> Wiped(d, ids, n, X, A)
  {
    D, changed, L := D0, changed0, L1;
    var x := NextSetBit(X, 0);
    ghost var xlo := 0;
    while x != -1
      invariant 0 <= xlo <= n && x == NextSetBit(X, xlo)
      invariant PartCut(d, ids, n, X, A, a, xlo, D) && (changed <==> D != d)
      invariant forall e :: e in L <==> e in L0 && !Cleared(nv, X, A, a, e) && !ClearedAt(nv, X, a, xlo, e)
      decreases n - xlo
    {
      var k := vals[a + n];
      var res := RemoveValue(D[x], k);
      if res == Contradiction {
        WipedAt(d, ids, vals, n, nv, X, A, a, xlo, x, D, k);
        return false, D, changed, L;
      }
      StrikeStep(d, ids, vals, n, nv, X, A, a, xlo, x, D, k);
      ClearStep(n, nv, X, A, a, xlo, x, L0, L);
      D := D[x := res.value.0];
      changed := changed || res.value.1;
      L := L - {x * nv + a};
      xlo := x + 1;
      x := NextSetBit(X, x + 1);
    }
    StrikeDone(d, ids, n, nv, X, A, a, xlo, D, L0, L);
    ok := true;
  }

  /**
   * `filterFirstPart`: for every value index `a` of `A` (the values not
   * reached) and every variable of `X` (the variables reached, outside
   * `notGamma`), the value of `a` is removed from the variable and the bit
   * of the pair is cleared from `leftEdge`. It fails exactly when some
   * variable of `X` has only such values; otherwise every domain of `X`
   * loses exactly those values, the others are untouched, and the flag
   * tells whether a domain changed.
   */
  method FirstPass(d: seq<set<int>>, X: set<int>, A: set<int>, ghost ids: map<int, int>, vals: map<int, int>,
                   n: nat, nv: nat, L0: set<int>)
    returns (r: Outcome<(seq<set<int>>, bool)>, L: set<int>)
    requires |d| == n && AllDomains(d) && IdMaps(ids, vals, n, nv)
    requires forall x | x in X :: 0 <= x < n
    requires forall a | a in A :: 0 <= a < nv
    ensures r == Contradiction <==> Wiped(d, ids, n, X, A)
    ensures r.Done? ==> FirstCut(d, ids, n, X, A, nv, r.value.0) && (r.value.1 <==> r.value.0 != d)
    ensures r.Done? ==> forall e :: e in L <==> e in L0 && !Cleared(nv, X, A, nv, e)
  {
    var D, changed := d, false;
    L := L0;
    var a := NextSetBit(A, 0);
    ghost var lo := 0;
    while a != -1
      invariant 0 <= lo <= nv && a == NextSetBit(A, lo)
      invariant FirstCut(d, ids, n, X, A, lo, D) && (changed <==> D != d)
      invariant forall e :: e in L <==> e in L0 && !Cleared(nv, X, A, lo, e)
      decreases nv - lo
    {
      CutSkip(d, ids, n, nv, X, A, lo, a, D, L0, L);
      var ok;
      ok, D, changed, L := StrikeValue(d, X, A, ids, vals, n, nv, a, D, changed, L0, L);
      if !ok {
        return Contradiction, L;
      }
      lo := a + 1;
      a := NextSetBit(A, a + 1);
    }
    CutSkip(d, ids, n, nv, X, A, lo, nv, D, L0, L);
    NotWiped(d, ids, vals, n, nv, X, A, D);
    r := Done((D, changed));
  }

  /**
   * `checkSCC(e)`: `searchEdge` restarts from edge `e` when it is not
   * matched (from nothing when it is) and `notGamma` is restored to its
   * snapshot. The expansion loop is commented out, so the answer is false.
   */
  function CheckSCC(e: int, matched: set<int>, G: SparseSet): (r: (bool, set<int>, SparseSet))
    ensures !r.0
    ensures forall e' :: e' in r.1 <==> e' == e && e !in matched
    ensures r.2.members == G.saved && r.2.saved == G.saved
  {
    (false, if e in matched then {} else {e}, SparseSet(G.saved, G.saved))
  }

  /**
   * The first loop of `filterSecondPart`: the variables of `notGamma` whose
   * domain in `D` has a single value leave it; then `record`.
   */
  method DropInstantiated(D: seq<set<int>>, G0: SparseSet) returns (G: SparseSet)
    requires forall x | x in G0.members :: 0 <= x < |D|
    ensures forall x :: x in G.members <==> x in G0.members && |D[x]| != 1
    ensures G.saved == G.members
  {
    var members := G0.members;
    var x := NextSetBit(G0.members, 0);
    ghost var lo := 0;
    while x != -1
      invariant 0 <= lo && x == NextSetBit(G0.members, lo)
      invariant forall y :: y in members <==> y in G0.members && (y < lo ==> |D[y]| != 1)
      invariant forall y | y in G0.members :: y < |D|
      decreases |D| - lo
    {
      if |D[x]| == 1 {
        members := members - {x};
      }
      lo := x + 1;
      x := NextSetBit(G0.members, x + 1);
    }
    G := SparseSet(members, members);
  }

  /**
   * What the second pass works on: domains `d` whose values have ids `ids`
   * with inverse `vals`, the mates `m` (value nodes) of the `n` variables,
   * `nv` value nodes, and `L1`, the bits of `leftEdge` outside `searchEdge`.
   */
  datatype Pass = Pass(d: seq<set<int>>, ids: map<int, int>, vals: map<int, int>, m: seq<int>, n: int, nv: int, L1: set<int>)

  /** The shape of a `Pass`: lengths, mates among the value nodes, and the value ids. */
  ghost predicate PassBase(c: Pass)
  {
    |c.d| == c.n == |c.m| && IdMaps(c.ids, c.vals, c.n, c.nv)
    && forall x | 0 <= x < c.n :: c.n <= c.m[x] < c.n + c.nv
  }

  /** The shape of a `Pass` with at least one value node, as there is once a bit is set. */
  ghost predicate PassShape(c: Pass)
  {
    PassBase(c) && 0 < c.nv
  }

  /**
   * The situation in which `filterSecondPart` runs after a successful
   * matching: every bit of `L1` is an edge of the domains, and the matched
   * edge of every variable is one of them.
   */
  ghost predicate PassReady(c: Pass)
  {
    PassBase(c) && AllDomains(c.d)
    && (forall x | 0 <= x < c.n :: c.d[x] <= c.ids.Keys && c.vals[c.m[x]] in c.d[x])
    && (forall e | e in c.L1 :: EdgeIn(c.d, c.vals, c.n, c.nv, e))
    && MatesIn(c)
  }

  /** The matched edge of every variable is a bit of `L1`. */
  ghost predicate MatesIn(c: Pass)
    requires |c.m| == c.n
  {
    forall x | 0 <= x < c.n :: MateEdge(c, x) in c.L1
  }

  /** The matched edge of variable `x`. */
  function MateEdge(c: Pass, x: int): int
    requires 0 <= x < |c.m|
  {
    EdgeOf(x, c.m[x], c.n, c.nv)
  }

  /** Bit `e` is a matched edge: its value node is the mate of its variable. */
  ghost predicate IsMateBit(c: Pass, e: int)
  {
    0 <= e && c.nv > 0 && EVar(e, c.nv) < c.n == |c.m| && c.n + EVal(e, c.nv) == c.m[EVar(e, c.nv)]
  }

  /**
   * Value `k` is still in the domain of variable `x` once the pass has
   * examined the bits below `pos`: it is the mate, or the matched edge of
   * `x` is not yet reached and the edge of `k` is not a bit of `L1` already
   * passed.
   */
  ghost predicate DomAt(c: Pass, pos: int, x: int, k: int)
    requires 0 <= x < |c.d| && x < |c.m|
  {
    k in c.d[x] && k in c.ids
    && (c.ids[k] == c.m[x]
        || (pos <= MateEdge(c, x) && (EdgeOf(x, c.ids[k], c.n, c.nv) !in c.L1 || pos <= EdgeOf(x, c.ids[k], c.n, c.nv))))
  }

  /** Bit `e` from `pos` on is still set: a bit of `L1` whose variable's matched edge is not yet reached. */
  ghost predicate LeftAt(c: Pass, pos: int, e: int)
  {
    e in c.L1 && 0 <= e && 0 < c.nv && EVar(e, c.nv) < c.n == |c.m| && pos <= MateEdge(c, EVar(e, c.nv))
  }

  /** The domains `D` before bit `pos`. */
  ghost predicate DomsAt(c: Pass, pos: int, D: seq<set<int>>)
  {
    |D| == |c.d| == c.n == |c.m|
    && forall x, k | 0 <= x < c.n :: k in D[x] <==> DomAt(c, pos, x, k)
  }

  /** The bits of `L` from `pos` on. */
  ghost predicate LeftsAt(c: Pass, pos: int, L: set<int>)
  {
    forall e | pos <= e :: e in L <==> LeftAt(c, pos, e)
  }

  /** The bits of `L` come from `L1`, and those below `pos` are matched edges. */
  ghost predicate PastAt(c: Pass, pos: int, L: set<int>)
  {
    forall e | e in L :: e in c.L1 && (e < pos ==> IsMateBit(c, e))
  }

  /** Bit `e` is the least bit of `L` from `pos` on. */
  ghost predicate NextIn(L: set<int>, pos: int, e: int)
  {
    e in L && pos <= e && forall e' | e' in L && pos <= e' :: e <= e'
  }

  /** The facts about the next set bit `e` at `pos` that the loop body needs. */
  lemma NextBit(c: Pass, pos: int, D: seq<set<int>>, L: set<int>, e: int)
    requires PassReady(c) && DomsAt(c, pos, D) && LeftsAt(c, pos, L) && NextIn(L, pos, e)
    ensures 0 < c.nv && 0 <= e && 0 <= EVar(e, c.nv) < c.n && e / c.nv == EVar(e, c.nv) && e % c.nv == EVal(e, c.nv)
    ensures e in c.L1 && e < c.n * c.nv
    ensures c.n + EVal(e, c.nv) in c.vals && c.vals[c.n + EVal(e, c.nv)] in D[EVar(e, c.nv)]
    ensures c.vals[c.m[EVar(e, c.nv)]] in D[EVar(e, c.nv)]
    ensures !IsMateBit(c, e) ==> |D[EVar(e, c.nv)]| > 1
  {
    assert LeftAt(c, pos, e);
    var x, j := EVar(e, c.nv), c.n + EVal(e, c.nv);
    DivMod(e, c.nv);
    EdgeBound(e, c.nv, c.n);
    EdgeWhole(e, c.n, c.nv);
    var k := c.vals[j];
    assert c.ids[k] == j;
    assert DomAt(c, pos, x, k);
    var mate := c.vals[c.m[x]];
    assert c.ids[mate] == c.m[x];
    assert DomAt(c, pos, x, mate);
    if !IsMateBit(c, e) {
      assert k != mate;
      SubsetCard({k, mate}, D[x]);
    }
  }

  /**
   * Moving from `pos` past the next set bit `e` leaves the domain of `y`
   * unchanged when neither its matched edge nor the edge of `k` is `e`.
   */
  lemma DomStep(c: Pass, pos: int, L: set<int>, e: int, y: int, k: int)
    requires PassShape(c) && LeftsAt(c, pos, L) && NextIn(L, pos, e)
    requires 0 <= y < c.n && MateEdge(c, y) in c.L1
    requires MateEdge(c, y) != e && (k in c.ids ==> EdgeOf(y, c.ids[k], c.n, c.nv) != e)
    ensures DomAt(c, pos, y, k) <==> DomAt(c, e + 1, y, k)
  {
    EdgeParts(y, c.m[y], c.n, c.nv);
    if pos <= MateEdge(c, y) {
      assert LeftAt(c, pos, MateEdge(c, y)) ==> MateEdge(c, y) in L;
    }
    if k in c.ids {
      EdgeParts(y, c.ids[k], c.n, c.nv);
      var E := EdgeOf(y, c.ids[k], c.n, c.nv);
      if pos <= E && pos <= MateEdge(c, y) {
        assert E in c.L1 ==> LeftAt(c, pos, E);
      }
    }
  }

  /**
   * Moving from `pos` past the next set bit `e` leaves bit `e'` beyond it
   * as it was when its variable's matched edge is not `e`.
   */
  lemma LeftStep(c: Pass, pos: int, L: set<int>, e: int, e': int)
    requires PassShape(c) && LeftsAt(c, pos, L) && NextIn(L, pos, e) && e < e'
    requires 0 <= e' && EVar(e', c.nv) < c.n
    requires MateEdge(c, EVar(e', c.nv)) in c.L1 && MateEdge(c, EVar(e', c.nv)) != e
    ensures e' in L <==> LeftAt(c, e + 1, e')
  {
    var y := EVar(e', c.nv);
    EdgeParts(y, c.m[y], c.n, c.nv);
    if pos <= MateEdge(c, y) {
      assert LeftAt(c, pos, MateEdge(c, y));
    }
  }

  /** The edges of variable `y` other than bit `e` of variable `x`: not `e` when `y` differs from `x` or the value node does. */
  lemma OtherEdge(c: Pass, e: int, y: int, j: int)
    requires PassShape(c) && 0 <= e && 0 <= y && c.n <= j < c.n + c.nv
    requires y != EVar(e, c.nv) || j != c.n + EVal(e, c.nv)
    ensures EdgeOf(y, j, c.n, c.nv) != e
  {
    EdgeParts(y, j, c.n, c.nv);
  }

  /** An unmatched bit `e` removes its value from its variable's domain. */
  lemma DomsRemove(c: Pass, pos: int, D: seq<set<int>>, L: set<int>, e: int)
    requires PassShape(c) && DomsAt(c, pos, D) && LeftsAt(c, pos, L) && NextIn(L, pos, e)
    requires 0 <= e && EVar(e, c.nv) < c.n && !IsMateBit(c, e) && MatesIn(c)
    ensures DomsAt(c, e + 1, D[EVar(e, c.nv) := D[EVar(e, c.nv)] - {c.vals[c.n + EVal(e, c.nv)]}])
  {
    var x, j := EVar(e, c.nv), c.n + EVal(e, c.nv);
    var k := c.vals[j];
    var D' := D[x := D[x] - {k}];
    assert LeftAt(c, pos, e);
    EdgeWhole(e, c.n, c.nv);
    forall y, k' | 0 <= y < c.n ensures k' in D'[y] <==> DomAt(c, e + 1, y, k') {
      if y == x && k' == k {
        assert c.ids[k] == j;
      } else {
        OtherEdge(c, e, y, c.m[y]);
        if k' in c.ids {
          OtherEdge(c, e, y, c.ids[k']);
        }
        DomStep(c, pos, L, e, y, k');
      }
    }
  }

  /** An unmatched bit `e` is cleared. */
  lemma LeftsRemove(c: Pass, pos: int, L: set<int>, e: int)
    requires PassShape(c) && MatesIn(c)
    requires LeftsAt(c, pos, L) && PastAt(c, pos, L) && NextIn(L, pos, e) && !IsMateBit(c, e)
    ensures LeftsAt(c, e + 1, L - {e}) && PastAt(c, e + 1, L - {e})
  {
    forall e' | e + 1 <= e' ensures e' in L - {e} <==> LeftAt(c, e + 1, e') {
      if 0 <= e' && EVar(e', c.nv) < c.n {
        var y := EVar(e', c.nv);
        EdgeParts(y, c.m[y], c.n, c.nv);
        LeftStep(c, pos, L, e, e');
      }
    }
  }

  /** A matched bit `e` whose variable has two values or more instantiates it. */
  lemma DomsInstantiate(c: Pass, pos: int, D: seq<set<int>>, L: set<int>, e: int)
    requires PassShape(c) && DomsAt(c, pos, D) && LeftsAt(c, pos, L) && NextIn(L, pos, e)
    requires IsMateBit(c, e) && 0 <= EVar(e, c.nv) < c.n && c.vals[c.m[EVar(e, c.nv)]] in c.d[EVar(e, c.nv)] && MatesIn(c)
    ensures DomsAt(c, e + 1, D[EVar(e, c.nv) := {c.vals[c.n + EVal(e, c.nv)]}])
  {
    var x, j := EVar(e, c.nv), c.n + EVal(e, c.nv);
    var k := c.vals[j];
    var D' := D[x := {k}];
    EdgeUnique(e, x, c.m[x], c.n, c.nv);
    forall y, k' | 0 <= y < c.n ensures k' in D'[y] <==> DomAt(c, e + 1, y, k') {
      if y == x {
        assert k' in c.ids && c.ids[k'] == c.m[x] ==> k' == k;
        assert c.ids[k] == c.m[x];
      } else {
        OtherEdge(c, e, y, c.m[y]);
        if k' in c.ids {
          OtherEdge(c, e, y, c.ids[k']);
        }
        DomStep(c, pos, L, e, y, k');
      }
    }
  }

  /** Instantiating clears the edges `V` of the variable of the matched bit `e`. */
  lemma LeftsInstantiate(c: Pass, pos: int, L: set<int>, e: int, V: set<int>)
    requires PassShape(c) && MatesIn(c)
    requires LeftsAt(c, pos, L) && PastAt(c, pos, L) && NextIn(L, pos, e) && IsMateBit(c, e)
    requires forall e' | e' in c.L1 && 0 <= e' && EVar(e', c.nv) == EVar(e, c.nv) :: e' in V
    requires forall e' | e' in V :: 0 <= e' && EVar(e', c.nv) == EVar(e, c.nv)
    ensures LeftsAt(c, e + 1, L - V) && PastAt(c, e + 1, L - V)
  {
    var x := EVar(e, c.nv);
    EdgeUnique(e, x, c.m[x], c.n, c.nv);
    forall e' | e + 1 <= e' ensures e' in L - V <==> LeftAt(c, e + 1, e') {
      if 0 <= e' && EVar(e', c.nv) < c.n && EVar(e', c.nv) != x {
        var y := EVar(e', c.nv);
        OtherEdge(c, e, y, c.m[y]);
        LeftStep(c, pos, L, e, e');
      }
    }
    assert e in V by {
      assert LeftAt(c, pos, e);
    }
  }

  /** Once the domain of `x` is down to its mate, the only pending bit of `x` is its matched edge. */
  lemma SingleLeft(c: Pass, pos: int, D: seq<set<int>>, L: set<int>, x: int, e: int)
    requires PassReady(c) && DomsAt(c, pos, D) && LeftsAt(c, pos, L)
    requires 0 <= x < c.n && D[x] == {c.vals[c.m[x]]}
    requires e in L && pos <= e && 0 <= e && EVar(e, c.nv) == x
    ensures e == MateEdge(c, x)
  {
    assert LeftAt(c, pos, e);
    EdgeWhole(e, c.n, c.nv);
    var k := c.vals[c.n + EVal(e, c.nv)];
    assert c.ids[k] == c.n + EVal(e, c.nv);
    assert DomAt(c, pos, x, k);
    assert c.ids[c.vals[c.m[x]]] == c.m[x];
  }

  /** A matched bit `e` whose variable has a single value left leaves the domains as they are. */
  lemma DomsSkip(c: Pass, pos: int, D: seq<set<int>>, L: set<int>, e: int)
    requires PassShape(c) && MatesIn(c) && DomsAt(c, pos, D) && LeftsAt(c, pos, L) && NextIn(L, pos, e)
    requires IsMateBit(c, e) && 0 <= EVar(e, c.nv) < c.n
    requires c.vals[c.m[EVar(e, c.nv)]] in c.d[EVar(e, c.nv)] && D[EVar(e, c.nv)] == {c.vals[c.m[EVar(e, c.nv)]]}
    ensures DomsAt(c, e + 1, D)
  {
    var x := EVar(e, c.nv);
    EdgeUnique(e, x, c.m[x], c.n, c.nv);
    forall y, k' | 0 <= y < c.n ensures k' in D[y] <==> DomAt(c, e + 1, y, k') {
      if y != x {
        OtherEdge(c, e, y, c.m[y]);
        if k' in c.ids {
          OtherEdge(c, e, y, c.ids[k']);
        }
        DomStep(c, pos, L, e, y, k');
      } else {
        assert c.ids[c.vals[c.m[x]]] == c.m[x];
      }
    }
  }

  /** A matched bit `e` whose variable has a single value left is passed over, and stays set. */
  lemma LeftsSkip(c: Pass, pos: int, D: seq<set<int>>, L: set<int>, e: int)
    requires PassReady(c) && DomsAt(c, pos, D) && LeftsAt(c, pos, L) && PastAt(c, pos, L) && NextIn(L, pos, e)
    requires IsMateBit(c, e) && 0 <= EVar(e, c.nv) < c.n && D[EVar(e, c.nv)] == {c.vals[c.m[EVar(e, c.nv)]]}
    ensures LeftsAt(c, e + 1, L) && PastAt(c, e + 1, L)
  {
    var x := EVar(e, c.nv);
    EdgeUnique(e, x, c.m[x], c.n, c.nv);
    forall e' | e + 1 <= e' ensures e' in L <==> LeftAt(c, e + 1, e') {
      if 0 <= e' && EVar(e', c.nv) < c.n {
        var y := EVar(e', c.nv);
        if y == x {
          if e' in L {
            SingleLeft(c, pos, D, L, x, e');
            assert false;
          }
        } else {
          OtherEdge(c, e, y, c.m[y]);
          LeftStep(c, pos, L, e, e');
        }
      }
    }
  }

  /** With no set bit left from `pos` on, every variable is down to its mate. */
  lemma SecondEnd(c: Pass, pos: int, D: seq<set<int>>, L: set<int>)
    requires PassReady(c) && DomsAt(c, pos, D) && LeftsAt(c, pos, L)
    requires forall e | e in L :: e < pos
    ensures AllDomains(D)
    ensures forall x | 0 <= x < c.n :: D[x] == {c.vals[c.m[x]]}
  {
    forall x | 0 <= x < c.n ensures D[x] == {c.vals[c.m[x]]} {
      EdgeParts(x, c.m[x], c.n, c.nv);
      if pos <= MateEdge(c, x) {
        assert LeftAt(c, pos, MateEdge(c, x));
        assert false;
      }
      assert forall k :: k in D[x] <==> k == c.vals[c.m[x]];
    }
  }

  /** Before the first bit, the domains are `d` and every bit of `L1` is pending. */
  lemma SecondStart(c: Pass)
    requires PassReady(c)
    ensures DomsAt(c, 0, c.d) && LeftsAt(c, 0, c.L1) && PastAt(c, 0, c.L1)
  {
    forall x, k | 0 <= x < c.n ensures k in c.d[x] <==> DomAt(c, 0, x, k) {
      EdgeParts(x, c.m[x], c.n, c.nv);
      if k in c.d[x] {
        EdgeParts(x, c.ids[k], c.n, c.nv);
      }
    }
    forall e | 0 <= e ensures e in c.L1 <==> LeftAt(c, 0, e) {
      if e in c.L1 {
        var x := EVar(e, c.nv);
        EdgeParts(x, c.m[x], c.n, c.nv);
      }
    }
  }

  /** The state of the scan of `filterSecondPart`: domains, change flag, `leftEdge`, `searchEdge` and `notGamma`. */
  datatype Scan = Scan(D: seq<set<int>>, changed: bool, L: set<int>, S: set<int>, G: SparseSet)

  /** What the scan keeps once it has examined the bits below `pos`. */
  ghost predicate ScanInv(c: Pass, matched: set<int>, G0: SparseSet, S0: set<int>, pos: int, st: Scan)
  {
    0 <= pos <= c.n * c.nv && (forall e | e in st.L :: 0 <= e)
    && DomsAt(c, pos, st.D) && LeftsAt(c, pos, st.L) && PastAt(c, pos, st.L)
    && (forall x | 0 <= x < c.n :: st.D[x] <= c.d[x]) && (st.changed <==> st.D != c.d)
    && st.G.members == st.G.saved
    && (forall x :: x in st.G.members <==> x in G0.members && 0 <= x < |st.D| && |st.D[x]| != 1)
    && (st.S == S0 || (st.S <= c.L1 - matched && |st.S| <= 1))
  }

  /** What the scan is given: the pass, its matched edges, the edges of each variable and the trimmed `notGamma`. */
  ghost predicate ScanReady(c: Pass, matched: set<int>, V: seq<set<int>>, G0: SparseSet)
  {
    PassReady(c)
    && (forall e :: e in matched <==> IsMateBit(c, e))
    && |V| == c.n && (forall x, e | 0 <= x < c.n && e in V[x] :: EdgeOfVar(c.nv, x, e))
    && (forall e | e in c.L1 :: 0 <= e && 0 < c.nv && EVar(e, c.nv) < c.n && e in V[EVar(e, c.nv)])
    && G0.members == G0.saved && (forall x | x in G0.members :: 0 <= x < c.n && |c.d[x]| != 1)
  }

  /** Edge `e` belongs to variable `x`. */
  ghost predicate EdgeOfVar(nv: int, x: int, e: int)
  {
    0 <= e && 0 < nv && EVar(e, nv) == x
  }

  /**
   * One round of the scan of `filterSecondPart`, at the next set bit `e`:
   * when the variable of `e` still has two values or more, `checkSCC` runs
   * and answers no; a matched bit then instantiates the variable to its
   * mate, an unmatched one removes its value. A variable with a single value
   * is passed over.
   */
  method ScanBit(ghost c: Pass, vals: map<int, int>, n: int, nv: int, matched: set<int>, V: seq<set<int>>, G0: SparseSet, S0: set<int>,
                 ghost pos: int, st: Scan, e: int)
    returns (st': Scan)
    requires c.vals == vals && c.n == n && c.nv == nv && ScanReady(c, matched, V, G0)
    requires ScanInv(c, matched, G0, S0, pos, st) && NextIn(st.L, pos, e)
    ensures ScanInv(c, matched, G0, S0, e + 1, st')
  {
    NextBit(c, pos, st.D, st.L, e);
    var x := e / nv;
    if |st.D[x]| > 1 {
      if e in matched {
        st' := ScanInstantiate(c, vals, n, nv, matched, V, G0, S0, pos, st, e);
      } else {
        st' := ScanRemove(c, vals, n, nv, matched, V, G0, S0, pos, st, e);
      }
    } else {
      ScanSkip(c, matched, V, G0, S0, pos, st, e);
      st' := st;
    }
  }

  /** The domains after an unmatched bit `e` of variable `x` removes its value `k`, with the change flag. */
  lemma RemoveDoms(c: Pass, matched: set<int>, V: seq<set<int>>, G0: SparseSet, S0: set<int>, pos: int, st: Scan, e: int, x: int, k: int)
    requires ScanReady(c, matched, V, G0) && ScanInv(c, matched, G0, S0, pos, st) && NextIn(st.L, pos, e) && e !in matched
    requires x == e / c.nv && k == c.vals[e % c.nv + c.n]
    ensures 0 <= e < c.n * c.nv && 0 <= x < c.n && |st.D[x]| > 1
    ensures DomsAt(c, e + 1, st.D[x := st.D[x] - {k}])
    ensures forall y | 0 <= y < c.n :: st.D[x := st.D[x] - {k}][y] <= c.d[y]
    ensures st.D[x := st.D[x] - {k}] != c.d <==> st.D != c.d || k in st.D[x]
  {
    NextBit(c, pos, st.D, st.L, e);
    DomsRemove(c, pos, st.D, st.L, e);
    ChangedStep(c.d, st.D, x, st.D[x] - {k});
  }

  /** The domains after a matched bit `e` of variable `x` instantiates it to its mate `k`, with the change flag. */
  lemma InstantiateDoms(c: Pass, matched: set<int>, V: seq<set<int>>, G0: SparseSet, S0: set<int>, pos: int, st: Scan, e: int, x: int, k: int)
    requires ScanReady(c, matched, V, G0) && ScanInv(c, matched, G0, S0, pos, st) && NextIn(st.L, pos, e) && e in matched
    requires x == e / c.nv && k == c.vals[e % c.nv + c.n]
    ensures 0 <= e < c.n * c.nv && 0 <= x < c.n && x == EVar(e, c.nv) && k in st.D[x]
    ensures DomsAt(c, e + 1, st.D[x := {k}])
    ensures forall y | 0 <= y < c.n :: st.D[x := {k}][y] <= c.d[y]
    ensures st.D[x := {k}] != c.d <==> st.D != c.d || {k} != st.D[x]
  {
    NextBit(c, pos, st.D, st.L, e);
    DomsInstantiate(c, pos, st.D, st.L, e);
    ChangedStep(c.d, st.D, x, {k});
  }

  /** The bits after a matched bit `e` clears the edges of its variable. */
  lemma InstantiateLefts(c: Pass, matched: set<int>, V: seq<set<int>>, G0: SparseSet, S0: set<int>, pos: int, st: Scan, e: int)
    requires ScanReady(c, matched, V, G0) && ScanInv(c, matched, G0, S0, pos, st) && NextIn(st.L, pos, e) && e in matched
    requires 0 <= e && 0 <= EVar(e, c.nv) < c.n
    ensures LeftsAt(c, e + 1, st.L - V[EVar(e, c.nv)]) && PastAt(c, e + 1, st.L - V[EVar(e, c.nv)])
  {
    LeftsInstantiate(c, pos, st.L, e, V[EVar(e, c.nv)]);
  }

  /** The bits after an unmatched bit `e` clears itself. */
  lemma RemoveLefts(c: Pass, matched: set<int>, V: seq<set<int>>, G0: SparseSet, S0: set<int>, pos: int, st: Scan, e: int)
    requires ScanReady(c, matched, V, G0) && ScanInv(c, matched, G0, S0, pos, st) && NextIn(st.L, pos, e) && e !in matched
    ensures LeftsAt(c, e + 1, st.L - {e}) && PastAt(c, e + 1, st.L - {e})
  {
    LeftsRemove(c, pos, st.L, e);
  }

  /**
   * `checkSCC` at bit `e` of variable `x`, whose domain has two values or
   * more, then the matched edge `e` instantiates `x` to its mate and clears
   * all of `x`'s edges (`varEdge[x]`, here `V[x]`); `x` leaves `notGamma`.
   */
  method ScanInstantiate(ghost c: Pass, vals: map<int, int>, n: int, nv: int, matched: set<int>, V: seq<set<int>>,
                         G0: SparseSet, S0: set<int>, ghost pos: int, st: Scan, e: int)
    returns (st': Scan)
    requires c.vals == vals && c.n == n && c.nv == nv && ScanReady(c, matched, V, G0)
    requires ScanInv(c, matched, G0, S0, pos, st) && NextIn(st.L, pos, e) && e in matched
    ensures ScanInv(c, matched, G0, S0, e + 1, st')
  {
    var x := e / nv;
    var k := vals[e % nv + n];
    InstantiateDoms(c, matched, V, G0, S0, pos, st, e, x, k);
    InstantiateLefts(c, matched, V, G0, S0, pos, st, e);
    var scc := CheckSCC(e, matched, st.G);
    var res := InstantiateTo(st.D[x], k);
    if res.Contradiction? {
      assert false;
    }
    var G := scc.2;
    G := SparseSet(G.saved - {x}, G.saved - {x});
    st' := Scan(st.D[x := res.value.0], st.changed || res.value.1, st.L - V[x], scc.1, G);
  }

  /**
   * `checkSCC` at bit `e` of variable `x`, whose domain has two values or
   * more, then the unmatched edge `e` removes its value from `x` and clears
   * itself; `x` leaves `notGamma` if it is left with one value.
   */
  method ScanRemove(ghost c: Pass, vals: map<int, int>, n: int, nv: int, matched: set<int>, V: seq<set<int>>,
                    G0: SparseSet, S0: set<int>, ghost pos: int, st: Scan, e: int)
    returns (st': Scan)
    requires c.vals == vals && c.n == n && c.nv == nv && ScanReady(c, matched, V, G0)
    requires ScanInv(c, matched, G0, S0, pos, st) && NextIn(st.L, pos, e) && e !in matched
    ensures ScanInv(c, matched, G0, S0, e + 1, st')
  {
    var x := e / nv;
    var k := vals[e % nv + n];
    RemoveDoms(c, matched, V, G0, S0, pos, st, e, x, k);
    RemoveLefts(c, matched, V, G0, S0, pos, st, e);
    var scc := CheckSCC(e, matched, st.G);
    var res := RemoveValue(st.D[x], k);
    if res.Contradiction? {
      assert false;
    }
    var G := scc.2;
    if |res.value.0| == 1 {
      G := SparseSet(G.saved - {x}, G.saved - {x});
    }
    st' := Scan(st.D[x := res.value.0], st.changed || res.value.1, st.L - {e}, scc.1, G);
  }

  /** A matched bit `e` whose variable has a single value left changes nothing. */
  lemma ScanSkip(c: Pass, matched: set<int>, V: seq<set<int>>, G0: SparseSet, S0: set<int>, pos: int, st: Scan, e: int)
    requires ScanReady(c, matched, V, G0)
    requires ScanInv(c, matched, G0, S0, pos, st) && NextIn(st.L, pos, e)
    requires 0 <= e && 0 < c.nv && 0 <= EVar(e, c.nv) < c.n && |st.D[EVar(e, c.nv)]| <= 1
    ensures ScanInv(c, matched, G0, S0, e + 1, st)
  {
    NextBit(c, pos, st.D, st.L, e);
    var x := EVar(e, c.nv);
    var mate := c.vals[c.m[x]];
    SubsetCard({mate}, st.D[x]);
    SingletonCard(st.D[x], mate);
    DomsSkip(c, pos, st.D, st.L, e);
    LeftsSkip(c, pos, st.D, st.L, e);
  }

  /** Before the first bit the scan holds `d`, no change, `L1`, the given `searchEdge` and `G0`. */
  lemma ScanStart(c: Pass, matched: set<int>, V: seq<set<int>>, G0: SparseSet, S0: set<int>)
    requires ScanReady(c, matched, V, G0)
    ensures ScanInv(c, matched, G0, S0, 0, Scan(c.d, false, c.L1, S0, G0))
  {
    SecondStart(c);
    if 0 < c.n {
      assert 0 < c.nv by {
        assert c.n <= c.m[0] < c.n + c.nv;
      }
    }
  }

  /** With no set bit left from `pos` on, every variable is instantiated to its mate and `notGamma` is empty. */
  lemma ScanEnd(c: Pass, matched: set<int>, V: seq<set<int>>, G0: SparseSet, S0: set<int>, pos: int, st: Scan)
    requires ScanReady(c, matched, V, G0) && ScanInv(c, matched, G0, S0, pos, st)
    requires forall e | e in st.L :: e < pos
    ensures |st.D| == c.n && AllDomains(st.D) && forall x | 0 <= x < c.n :: st.D[x] == {c.vals[c.m[x]]}
    ensures st.changed <==> st.D != c.d
    ensures st.L <= c.L1 && st.L <= matched
    ensures st.G == SparseSet({}, {})
    ensures st.S == S0 || (st.S <= c.L1 - matched && |st.S| <= 1)
  {
    SecondEnd(c, pos, st.D, st.L);
    assert forall x :: x !in st.G.members;
  }

  /**
   * The scan of `filterSecondPart` over `leftEdge` once `searchEdge` is
   * taken out of it (`L1`) and `notGamma` has dropped the instantiated
   * variables (`G0`): every set bit in increasing order goes through
   * `ScanBit`. In the end every variable is instantiated to its mate.
   */
  method SecondPass(d: seq<set<int>>, ghost ids: map<int, int>, vals: map<int, int>, ghost m: seq<int>, n: nat, nv: nat,
                    matched: set<int>, V: seq<set<int>>, L1: set<int>, G0: SparseSet, S0: set<int>)
    returns (st: Scan)
    requires ScanReady(Pass(d, ids, vals, m, n, nv, L1), matched, V, G0)
    ensures |st.D| == n && AllDomains(st.D) && forall x | 0 <= x < n :: st.D[x] == {vals[m[x]]}
    ensures st.changed <==> st.D != d
    ensures st.L <= L1 && st.L <= matched
    ensures st.G == SparseSet({}, {})
    ensures st.S == S0 || (st.S <= L1 - matched && |st.S| <= 1)
  {
    ghost var c := Pass(d, ids, vals, m, n, nv, L1);
    st := Scan(d, false, L1, S0, G0);
    ScanStart(c, matched, V, G0, S0);
    ghost var pos := 0;
    var e := NextSetBit(st.L, 0);
    while e != -1
      invariant ScanInv(c, matched, G0, S0, pos, st)
      invariant e == -1 || NextIn(st.L, pos, e)
      invariant e == -1 ==> forall e' | e' in st.L :: e' < pos
      decreases n * nv - pos
    {
      st := ScanBit(c, vals, n, nv, matched, V, G0, S0, pos, st, e);
      pos := e + 1;
      e := NextSetBit(st.L, e + 1);
    }
    ScanEnd(c, matched, V, G0, S0, pos, st);
  }

  /** With no variable outside `notGamma`, the first pass leaves the domains as they are. */
  lemma NoCut(d: seq<set<int>>, ids: map<int, int>, n: int, A: set<int>, nv: int, D: seq<set<int>>)
    requires FirstCut(d, ids, n, {}, A, nv, D)
    ensures D == d
  {
    forall x | 0 <= x < |d| ensures D[x] == d[x] {
      forall k ensures k in D[x] <==> k in d[x] {
        assert k in D[x] <==> Survives(d, ids, n, {}, A, nv, x, k);
      }
    }
  }

  /** The edge of a variable and its mate, a value of its domain, is an edge of the domains. */
  lemma MateEdgeIn(d: seq<set<int>>, vals: map<int, int>, j: int, n: int, nv: int, x: int)
    requires 0 <= x < |d| && n <= j < n + nv && j in vals && vals[j] in d[x]
    ensures EdgeIn(d, vals, n, nv, EdgeOf(x, j, n, nv))
  {
    EdgeParts(x, j, n, nv);
  }

  /**
   * The pass `filterSecondPart` runs after a successful matching: the
   * domains `d` within the initial domains `d0` of the value ids, the mates
   * `m` in `d`, and the bits `L1` of `leftEdge` (edges of `d`, `left`) not
   * in `searchEdge` (`search`), which hold no matched edge.
   */
  lemma PassFrom(d0: seq<set<int>>, d: seq<set<int>>, ids: map<int, int>, vals: map<int, int>, m: seq<int>,
                 n: int, nv: int, left: set<int>, search: set<int>)
    requires |d0| == n && AllDomains(d0) && IdMaps(ids, vals, n, nv) && ids.Keys == AllValues(d0)
    requires |d| == n == |m| && AllDomains(d) && forall i | 0 <= i < n :: d[i] <= d0[i]
    requires forall i | 0 <= i < n :: m[i] in vals && vals[m[i]] in d[i]
    requires forall e :: e in left <==> EdgeIn(d, vals, n, nv, e)
    requires forall i | 0 <= i < n :: EdgeOf(i, m[i], n, nv) !in search
    ensures PassReady(Pass(d, ids, vals, m, n, nv, left - search))
  {
    var c := Pass(d, ids, vals, m, n, nv, left - search);
    forall x | 0 <= x < n ensures n <= m[x] < n + nv {
      assert m[x] in vals;
    }
    assert PassBase(c);
    DomainsInValues(d0);
    forall x | 0 <= x < n ensures d[x] <= ids.Keys {
      assert d[x] <= d0[x] <= AllValues(d0);
    }
    forall e | e in c.L1 ensures EdgeIn(d, vals, n, nv, e) {
      assert e in left;
    }
    forall x | 0 <= x < n ensures MateEdge(c, x) in c.L1 {
      MateEdgeIn(d, vals, m[x], n, nv, x);
      assert EdgeOf(x, m[x], n, nv) in left;
    }
    assert MatesIn(c);
  }

  /** The bits of `L1`, edges of domains `d` within `d0`, are in the table `V` of the edges of each variable of `d0`. */
  lemma VarEdgesFrom(d0: seq<set<int>>, d: seq<set<int>>, vals: map<int, int>, n: int, nv: int,
                     V: seq<set<int>>, valEdge: seq<set<int>>, L1: set<int>)
    requires EdgeTables(d0, vals, n, nv, V, valEdge) && |d0| == |d| == n && forall i | 0 <= i < n :: d[i] <= d0[i]
    requires forall e | e in L1 :: EdgeIn(d, vals, n, nv, e)
    ensures |V| == n && forall x, e | 0 <= x < n && e in V[x] :: EdgeOfVar(nv, x, e)
    ensures forall e | e in L1 :: 0 <= e && 0 < nv && EVar(e, nv) < n && e in V[EVar(e, nv)]
  {
    forall x, e | 0 <= x < n && e in V[x] ensures EdgeOfVar(nv, x, e) {
      assert EdgeIn(d0, vals, n, nv, e) && EVar(e, nv) == x;
    }
    forall e | e in L1 ensures 0 <= e && 0 < nv && EVar(e, nv) < n && e in V[EVar(e, nv)] {
      assert EdgeIn(d0, vals, n, nv, e);
    }
  }

  /**
   * The state `filterSecondPart` finds after a successful matching makes
   * the scan ready to run: `V` and `valEdge` are the edge tables of the
   * initial domains `d0`, and `matched` holds the matched edges of `m`.
   */
  lemma ScanReadyFrom(d0: seq<set<int>>, d: seq<set<int>>, ids: map<int, int>, vals: map<int, int>, m: seq<int>,
                      n: int, nv: int, V: seq<set<int>>, valEdge: seq<set<int>>, matched: set<int>, ve: seq<int>, va: seq<int>,
                      left: set<int>, search: set<int>, G0: SparseSet)
    requires Layout(d0, ids, vals, n, n + nv, nv, V, valEdge)
    requires |d| == n && AllDomains(d) && forall i | 0 <= i < n :: d[i] <= d0[i]
    requires MatchedEdgesOf(m, n, nv, matched, ve, va)
    requires forall i | 0 <= i < n :: m[i] in vals && vals[m[i]] in d[i]
    requires forall e :: e in left <==> EdgeIn(d, vals, n, nv, e)
    requires forall i | 0 <= i < n :: EdgeOf(i, m[i], n, nv) !in search
    requires G0.members == G0.saved && forall x | x in G0.members :: 0 <= x < n && |d[x]| != 1
    ensures ScanReady(Pass(d, ids, vals, m, n, nv, left - search), matched, V, G0)
  {
    var c := Pass(d, ids, vals, m, n, nv, left - search);
    PassFrom(d0, d, ids, vals, m, n, nv, left, search);
    VarEdgesFrom(d0, d, vals, n, nv, V, valEdge, left - search);
    MatchedBits(m, n, nv, matched, ve, va, c);
    ReadyParts(c, matched, V, G0);
  }

  /** The matched edges of `MatchedEdgesOf` are the mate bits of a pass with the same mates. */
  lemma MatchedBits(m: seq<int>, n: int, nv: int, matched: set<int>, ve: seq<int>, va: seq<int>, c: Pass)
    requires MatchedEdgesOf(m, n, nv, matched, ve, va) && c.m == m && c.n == n && c.nv == nv
    ensures forall e :: e in matched <==> IsMateBit(c, e)
  {
  }

  /** `ScanReady` gathered from its parts. */
  lemma ReadyParts(c: Pass, matched: set<int>, V: seq<set<int>>, G0: SparseSet)
    requires PassReady(c)
    requires forall e :: e in matched <==> IsMateBit(c, e)
    requires |V| == c.n && (forall x, e | 0 <= x < c.n && e in V[x] :: EdgeOfVar(c.nv, x, e))
    requires forall e | e in c.L1 :: 0 <= e && 0 < c.nv && EVar(e, c.nv) < c.n && e in V[EVar(e, c.nv)]
    requires G0.members == G0.saved && (forall x | x in G0.members :: 0 <= x < c.n && |c.d[x]| != 1)
    ensures ScanReady(c, matched, V, G0)
  {
  }


  /**
   * `filterSecondPart` on the values it reads: the instantiated variables
   * leave `notGamma` (`G0`), then the scan runs over the bits of `leftEdge`
   * (`left`) outside `searchEdge` (`search`). As no cycle is ever found,
   * every variable ends instantiated to its mate.
   */
  method SecondPart(ghost d0: seq<set<int>>, d: seq<set<int>>, ghost ids: map<int, int>, vals: map<int, int>, ghost m: seq<int>,
                    n: nat, nv: nat, V: seq<set<int>>, ghost valEdge: seq<set<int>>, matched: set<int>, ghost ve: seq<int>, ghost va: seq<int>,
                    left: set<int>, search: set<int>, G0: SparseSet) returns (st: Scan)
    requires Layout(d0, ids, vals, n, n + nv, nv, V, valEdge)
    requires |d| == n && AllDomains(d) && forall i | 0 <= i < n :: d[i] <= d0[i]
    requires MatchedEdgesOf(m, n, nv, matched, ve, va)
    requires forall i | 0 <= i < n :: m[i] in vals && vals[m[i]] in d[i]
    requires forall e :: e in left <==> EdgeIn(d, vals, n, nv, e)
    requires forall i | 0 <= i < n :: EdgeOf(i, m[i], n, nv) !in search
    requires forall x | x in G0.members :: 0 <= x < n
    ensures |st.D| == n && AllDomains(st.D) && forall x | 0 <= x < n :: st.D[x] == {vals[m[x]]}
    ensures st.changed <==> st.D != d
    ensures st.L <= left - search && st.L <= matched
    ensures st.G == SparseSet({}, {})
    ensures st.S == search || (st.S <= left - search - matched && |st.S| <= 1)
  {
    var G := DropInstantiated(d, G0);
    ScanReadyFrom(d0, d, ids, vals, m, n, nv, V, valEdge, matched, ve, va, left, search, G);
    st := SecondPass(d, ids, vals, m, n, nv, matched, V, left - search, G, search);
  }

  /**
   * `filter()` on the bit sets a successful `findMaximumMatching` over the
   * domains `d` leaves: `left` holds the edges of `d`, the mates `m` are
   * none of them free, and `notGamma` (`G0`) is full.
   *  - `distinguish`: the free values leave `notA` (`A0`), and the search
   *    set becomes the bits of `left` that lead to a free value (the
   *    expansion loop that follows has its body commented out);
   *  - `filterFirstPart`: the values of `notA` leave the variables outside
   *    `notGamma`; as `notGamma` is full, this removes nothing;
   *  - `filterSecondPart`: the scan, which leaves every variable
   *    instantiated to its mate.
   */
  method FilterPasses(ghost d0: seq<set<int>>, d: seq<set<int>>, ghost ids: map<int, int>, vals: map<int, int>, ghost m: seq<int>,
                      n: nat, nv: nat, V: seq<set<int>>, valEdge: seq<set<int>>, matched: set<int>, ghost ve: seq<int>, ghost va: seq<int>,
                      free: set<int>, left: set<int>, G0: SparseSet, A0: set<int>)
    returns (D: seq<set<int>>, changed: bool, L: set<int>, S: set<int>, G: SparseSet, A: set<int>)
    requires Layout(d0, ids, vals, n, n + nv, nv, V, valEdge)
    requires |d| == n && AllDomains(d) && forall i | 0 <= i < n :: d[i] <= d0[i]
    requires MatchedEdgesOf(m, n, nv, matched, ve, va)
    requires forall i | 0 <= i < n :: m[i] in vals && vals[m[i]] in d[i] && m[i] !in free
    requires forall x | x in free :: 0 <= x
    requires forall e :: e in left <==> EdgeIn(d, vals, n, nv, e)
    requires G0.members == Range(0, n)
    requires forall v | v in A0 :: 0 <= v < nv
    ensures |D| == n && AllDomains(D) && forall x | 0 <= x < n :: D[x] == {vals[m[x]]}
    ensures changed <==> D != d
    ensures A == DropFree(A0, n, free)
    ensures L <= left && L <= matched && S <= left
    ensures G == SparseSet({}, {})
  {
    // distinguish
    var S0;
    S0, A := FreeValueEdges(free, valEdge, n, nv, A0, d0, vals);
    var search := S0 * left;
    assert forall i | 0 <= i < n :: n <= m[i] < n + nv;
    MatesNotSearched(search, left, d0, vals, n, nv, free, m);
    // filterFirstPart
    var X := Range(0, n) - G0.members;
    assert X == {};
    NothingCleared(d, ids, n, A, nv);
    var first, L1 := FirstPass(d, X, A, ids, vals, n, nv, left);
    if first.Contradiction? {
      assert false;
    }
    NoCut(d, ids, n, A, nv, first.value.0);
    LeftKept(left, L1, nv, A);
    // filterSecondPart
    var st := SecondPart(d0, first.value.0, ids, vals, m, n, nv, V, valEdge, matched, ve, va, L1, search, G0);
    D, changed := st.D, first.value.1 || st.changed;
    L, S, G := st.L, st.S, st.G;
  }

  /**
   * `FilterPasses` from a complete matching `M` of `d` whose mates are `m`
   * and whose free nodes are `free`: every variable keeps only its mate, and
   * the matching is a solution of the result.
   */
  method FilterMatched(ghost d0: seq<set<int>>, d: seq<set<int>>, ghost ids: map<int, int>, vals: map<int, int>, ghost m: seq<int>,
                       n: nat, nv: nat, V: seq<set<int>>, valEdge: seq<set<int>>, matched: set<int>, ghost ve: seq<int>, ghost va: seq<int>,
                       ghost M: map<int, int>, free: set<int>, left: set<int>, G0: SparseSet, A0: set<int>)
    returns (D: seq<set<int>>, changed: bool, L: set<int>, S: set<int>, G: SparseSet, A: set<int>)
    requires Layout(d0, ids, vals, n, n + nv, nv, V, valEdge)
    requires |d| == n && AllDomains(d) && forall i | 0 <= i < n :: d[i] <= d0[i]
    requires MatchedEdgesOf(m, n, nv, matched, ve, va)
    requires IsMatching(d, vals, M) && forall i | 0 <= i < n :: i in M && M[i] == m[i] && m[i] in vals && vals[m[i]] in d[i]
    requires forall x :: x in free <==> 0 <= x < n + nv && Free(M, x)
    requires forall e :: e in left <==> EdgeIn(d, vals, n, nv, e)
    requires G0.members == Range(0, n)
    requires forall v | v in A0 :: 0 <= v < nv
    ensures OnlyMates(d, D, vals, m) && HasSolution(D)
    ensures changed <==> D != d
    ensures A == DropFree(A0, n, free)
    ensures L <= left && L <= matched && S <= left
    ensures G == SparseSet({}, {})
  {
    MatesTaken(M, free, n + nv, m);
    D, changed, L, S, G, A := FilterPasses(d0, d, ids, vals, m, n, nv, V, valEdge, matched, ve, va, free, left, G0, A0);
    MatesSolution(d, D, ids, vals, n, nv, M, m);
  }

  /** Domains that keep, of each variable, the value of its mate in a complete matching `M` still have a solution. */
  lemma MatesSolution(d: seq<set<int>>, D: seq<set<int>>, ids: map<int, int>, vals: map<int, int>, n: int, nv: int,
                      M: map<int, int>, m: seq<int>)
    requires IdMaps(ids, vals, n, nv) && |d| == n == |m| && IsMatching(d, vals, M)
    requires forall i | 0 <= i < n :: i in M && M[i] == m[i]
    requires |D| == n && forall x | 0 <= x < n :: m[x] in vals && D[x] == {vals[m[x]]}
    ensures HasSolution(D)
  {
    forall a, b | a in vals && b in vals && a != b ensures vals[a] != vals[b] {
      assert ids[vals[a]] == a && ids[vals[b]] == b;
    }
    forall i | 0 <= i < n ensures vals[M[i]] in D[i] {
      assert M[i] == m[i];
    }
    KeepsMatching(d, D, vals, M);
  }

  /**
   * Keeping only the mates is stronger than arc consistency: on two
   * variables with domains `{1, 2}`, whichever mates the matching chose,
   * some assignment of different values gives a variable a value it loses.
   */
  lemma MatesOnlyOverPrune(D: seq<set<int>>, vals: map<int, int>, m: seq<int>)
    requires OnlyMates([{1, 2}, {1, 2}], D, vals, m)
    ensures exists s, i | IsSolution([{1, 2}, {1, 2}], s) && 0 <= i < 2 :: s[i] !in D[i]
  {
    var d := [{1, 2}, {1, 2}];
    var s := if vals[m[0]] == 1 then [2, 1] else [1, 2];
    assert IsSolution(d, s) && s[0] !in D[0];
  }

  /** The edges `distinguish` puts in `searchEdge` lead to free values, so no matched edge is among them. */
  lemma MatesNotSearched(search: set<int>, left: set<int>, d0: seq<set<int>>, vals: map<int, int>, n: int, nv: int,
                         free: set<int>, m: seq<int>)
    requires forall e :: e in search <==> e in left && EdgeIn(d0, vals, n, nv, e) && n + EVal(e, nv) in free
    requires |m| == n && forall i | 0 <= i < n :: n <= m[i] < n + nv && m[i] !in free
    ensures forall i | 0 <= i < n :: EdgeOf(i, m[i], n, nv) !in search
  {
    forall i | 0 <= i < n ensures EdgeOf(i, m[i], n, nv) !in search {
      EdgeParts(i, m[i], n, nv);
    }
  }

  /** The free nodes of a matching `M` are node indices, and no mate of `m`, the values of `M`, is free. */
  lemma MatesTaken(M: map<int, int>, free: set<int>, n2: int, m: seq<int>)
    requires forall x :: x in free <==> 0 <= x < n2 && Free(M, x)
    requires forall i | 0 <= i < |m| :: i in M && M[i] == m[i]
    ensures (forall x | x in free :: 0 <= x) && forall i | 0 <= i < |m| :: m[i] !in free
  {
    forall i | 0 <= i < |m| ensures m[i] !in free {
      assert Taken(M, M[i]);
    }
  }

  /** With no variable outside `notGamma`, nothing is wiped out and no bit is cleared. */
  lemma NothingCleared(d: seq<set<int>>, ids: map<int, int>, n: int, A: set<int>, nv: int)
    ensures !Wiped(d, ids, n, {}, A) && forall e :: !Cleared(nv, {}, A, nv, e)
  {
  }

  /** A first pass that clears nothing leaves `leftEdge` as it was. */
  lemma LeftKept(L0: set<int>, L: set<int>, nv: int, A: set<int>)
    requires forall e :: e in L <==> e in L0 && !Cleared(nv, {}, A, nv, e)
    ensures L == L0
  {
    forall e ensures e in L <==> e in L0 {
      assert !Cleared(nv, {}, A, nv, e);
    }
  }

  /** Shrinking one domain of `D`, which lies inside `d`, keeps "differs from `d`" in step with the change flag. */
  lemma ChangedStep(d: seq<set<int>>, D: seq<set<int>>, x: int, s: set<int>)
    requires |D| == |d| && 0 <= x < |d| && s <= D[x] && forall y | 0 <= y < |d| :: D[y] <= d[y]
    ensures D[x := s] != d <==> D != d || s != D[x]
  {
    if D[x := s] == d {
      assert D[x] == d[x];
      assert D == d;
    }
  }

  /** `SparseSet` holding the integers of `0 .. size-1`, as `fill` leaves it; the snapshot is kept. */
  function Fill(s: SparseSet, size: int): (r: SparseSet)
    ensures forall x :: x in r.members <==> 0 <= x < size
    ensures r.saved == s.saved
  {
    SparseSet(Range(0, size), s.saved)
  }

  class AllDiffACFastbit {
    const n: nat
    const n2: nat
    /** `numValue`: the number of value nodes. */
    const nv: nat
    const matcher: Matcher
    /** Value node -> value, the inverse of the matcher's `ids`. */
    const idToVal: map<int, int>
    /** The domains the constructor saw; `varEdge` and `valEdge` describe them. */
    ghost const init: seq<set<int>>
    /** `varEdge[i]`: the edges of variable `i` in the initial domains. */
    const varEdge: seq<set<int>>
    /** `valEdge[v]`: the edges of value node `n + v` in the initial domains. */
    const valEdge: seq<set<int>>
    /** `varMatchedEdge[i]`: the matched edge of variable `i`. */
    const varMatchedEdge: array<int>
    /** `valMatchedEdge[v]`: the matched edge of value node `n + v`. */
    const valMatchedEdge: array<int>
    var leftEdge: set<int>
    var matchedEdge: set<int>
    var searchEdge: set<int>
    var sccEdge: set<int>
    /** The variables the search has not reached. */
    var notGamma: SparseSet
    /** The value indices the search has not reached. */
    var notA: SparseSet

    /** The edge tables, which the constructor fills and nothing changes afterwards. */
    ghost predicate Tables()
    {
      Layout(init, matcher.ids, idToVal, n, n2, nv, varEdge, valEdge)
      && varMatchedEdge.Length == n && valMatchedEdge.Length == nv
      && varMatchedEdge != valMatchedEdge
      && varMatchedEdge != matcher.matching && valMatchedEdge != matcher.matching
    }

    /** The matcher over the `n` variables and the value nodes `n .. n2-1`, and the edge tables. */
    ghost predicate Valid()
      reads matcher`digraph, matcher.matching
    {
      matcher.Valid() && matcher.n == n && matcher.n2 == n2 && matcher.vals == idToVal && Tables()
    }

    /** `notGamma` holds variables and `notA` value indices. */
    ghost predicate Marks()
      reads this`notGamma, this`notA
    {
      (forall x | x in notGamma.members :: 0 <= x < n) && (forall v | v in notA.members :: 0 <= v < nv)
    }

    /**
     * The constructor: the value ids, as in the other two filters, then
     * the edge tables of the initial domains `d0`.
     */
    constructor (d0: seq<set<int>>)
      requires AllDomains(d0)
      ensures Valid() && Marks() && n == |d0| && init == d0
      ensures matcher.ids.Keys == AllValues(d0) && n2 == n + |matcher.ids.Keys| && nv == n2 - n
      ensures forall v, w | v in matcher.ids && w in matcher.ids :: matcher.ids[v] < matcher.ids[w] <==> MetBefore(d0, v, w)
      ensures forall i | 0 <= i < n :: matcher.matching[i] == -1
      ensures leftEdge == {} && matchedEdge == {} && searchEdge == {} && sccEdge == {}
      ensures notGamma == SparseSet(Range(0, n), Range(0, n)) && notA == SparseSet(Range(0, nv), Range(0, nv))
    {
      var ids, vals, top, ve, ae := MakeLayout(d0);
      varMatchedEdge := new int[|d0|];
      valMatchedEdge := new int[top - |d0|];
      n := |d0|;
      n2 := top;
      nv := top - |d0|;
      idToVal := vals;
      init := d0;
      varEdge, valEdge := ve, ae;
      leftEdge, matchedEdge, searchEdge, sccEdge := {}, {}, {}, {};
      notGamma := SparseSet(Range(0, |d0|), Range(0, |d0|));
      notA := SparseSet(Range(0, top - |d0|), Range(0, top - |d0|));
      matcher := new Matcher(|d0|, top, ids, vals);
    }

    /** The matched edge of every variable, as the last loop of `findMaximumMatching` records it. */
    ghost predicate MatchedEdges()
      reads this`matchedEdge, matcher.matching, varMatchedEdge, valMatchedEdge
    {
      MatchedEdgesOf(matcher.matching[..], n, nv, matchedEdge, varMatchedEdge[..], valMatchedEdge[..])
    }

    /**
     * The last loop of `findMaximumMatching`: each variable's matched edge
     * goes into `matchedEdge`, `varMatchedEdge` and `valMatchedEdge`.
     */
    method RecordMatchedEdges()
      requires Valid()
      requires forall i | 0 <= i < n :: n <= matcher.matching[i] < n2
      modifies this`matchedEdge, varMatchedEdge, valMatchedEdge
      ensures Valid() && MatchedEdges()
    {
      assert Tables();
      matchedEdge := RecordEdges(matcher.matching[..], n, nv, varMatchedEdge, valMatchedEdge);
    }
  
    /**
     * `findMaximumMatching()` with the bit-set bookkeeping: `leftEdge`
     * receives the edges of the current domains `d`, `notGamma` and `notA`
     * are filled, then the matching phase of the other filters runs and, when
     * it succeeds, the matched edges are recorded. It fails exactly when the
     * domains admit no assignment of pairwise different values.
     */
    method FindMaximumMatching(d: seq<set<int>>) returns (ok: bool, ghost M: map<int, int>)
      requires Valid() && |d| == n && AllDomains(d) && forall i | 0 <= i < n :: d[i] <= init[i]
      modifies this`leftEdge, this`matchedEdge, this`notGamma, this`notA
      modifies matcher, matcher.matching, matcher.father, matcher.fifo, varMatchedEdge, valMatchedEdge
      ensures Valid()
      ensures ok <==> HasSolution(d)
      ensures forall e :: e in leftEdge <==> EdgeIn(d, idToVal, n, nv, e)
      ensures notGamma == Fill(old(notGamma), n) && notA == Fill(old(notA), nv) && Marks()
      ensures ok ==> matcher.State(d, M)
      ensures ok ==> forall i | 0 <= i < n :: i in M && M[i] == matcher.matching[i]
                                             && matcher.matching[i] in idToVal && idToVal[matcher.matching[i]] in d[i]
      ensures ok ==> MatchedEdges()
      ensures !ok ==> matchedEdge == {}
    {
      assert Tables();
      assert forall i | 0 <= i < n :: d[i] <= matcher.ids.Keys by {
        DomainsInValues(init);
      }
      matchedEdge := {};
      notGamma := Fill(notGamma, n);
      notA := Fill(notA, nv);
      leftEdge := LeftEdges(d, matcher.ids, idToVal, n, nv);
      ok, M := matcher.FindMaximumMatching(d);
      if ok {
        RecordMatchedEdges();
      }
    }

    /**
     * The body of `filter()` on the bit sets, from the state a successful
     * `findMaximumMatching` over `d` leaves with the complete matching `M`:
     * the passes of `FilterPasses`, whose results replace `notA`,
     * `leftEdge`, `searchEdge` and `notGamma`; `sccEdge` is cleared.
     */
    method RunPasses(d: seq<set<int>>, ghost M: map<int, int>) returns (D: seq<set<int>>, changed: bool)
      requires Tables() && Marks() && |d| == n && AllDomains(d) && (forall i | 0 <= i < n :: d[i] <= init[i])
      requires IsMatching(d, idToVal, M) && MatchedEdges()
      requires forall i | 0 <= i < n :: i in M && M[i] == matcher.matching[i]
                                        && matcher.matching[i] in idToVal && idToVal[matcher.matching[i]] in d[i]
      requires forall x :: x in matcher.free <==> 0 <= x < n2 && Free(M, x)
      requires forall e :: e in leftEdge <==> EdgeIn(d, idToVal, n, nv, e)
      requires notGamma.members == Range(0, n)
      modifies this`leftEdge, this`sccEdge, this`notGamma, this`searchEdge, this`notA
      ensures OnlyMates(d, D, idToVal, matcher.matching[..]) && HasSolution(D)
      ensures changed <==> D != d
      ensures notA == SparseSet(DropFree(old(notA.members), n, matcher.free), old(notA.saved))
      ensures notGamma == SparseSet({}, {}) && sccEdge == {}
      ensures leftEdge <= old(leftEdge) && leftEdge <= matchedEdge && searchEdge <= old(leftEdge)
    {
      assert Tables();
      var L, S, G, A;
      D, changed, L, S, G, A := FilterMatched(init, d, matcher.ids, idToVal, matcher.matching[..], n, nv, varEdge, valEdge, matchedEdge,
                                             varMatchedEdge[..], valMatchedEdge[..], M, matcher.free, leftEdge, notGamma, notA.members);
      notA := SparseSet(A, notA.saved);
      leftEdge, searchEdge, notGamma, sccEdge := L, S, G, {};
    }

    /**
     * `filter()` on the state a successful `findMaximumMatching` over `d`
     * leaves, with the complete matching `M`:
     *  - `distinguish`: the free values leave `notA`, and `searchEdge`
     *    becomes the bits of `leftEdge` that lead to a free value (the
     *    expansion loop that follows has its body commented out);
     *  - `filterFirstPart`: the values of `notA` leave the variables outside
     *    `notGamma`; as `notGamma` is full, this removes nothing;
     *  - `filterSecondPart`: the scan, which leaves every variable
     *    instantiated to its mate.
     * The result still has a solution: the matching.
     */
    method Filter(d: seq<set<int>>, ghost M: map<int, int>) returns (D: seq<set<int>>, changed: bool)
      requires Valid() && Marks() && |d| == n && AllDomains(d) && (forall i | 0 <= i < n :: d[i] <= init[i])
      requires IsMatching(d, idToVal, M) && MatchedEdges()
      requires forall i | 0 <= i < n :: i in M && M[i] == matcher.matching[i]
                                        && matcher.matching[i] in idToVal && idToVal[matcher.matching[i]] in d[i]
      requires forall x :: x in matcher.free <==> 0 <= x < n2 && Free(M, x)
      requires forall e :: e in leftEdge <==> EdgeIn(d, idToVal, n, nv, e)
      requires notGamma.members == Range(0, n)
      modifies this`leftEdge, this`sccEdge, this`notGamma, this`searchEdge, this`notA
      ensures Valid()
      ensures OnlyMates(d, D, idToVal, matcher.matching[..]) && HasSolution(D)
      ensures changed <==> D != d
      ensures notA == SparseSet(DropFree(old(notA.members), n, matcher.free), old(notA.saved))
      ensures notGamma == SparseSet({}, {}) && sccEdge == {}
      ensures leftEdge <= old(leftEdge) && leftEdge <= matchedEdge && searchEdge <= old(leftEdge)
    {
      D, changed := RunPasses(d, M);
    }

    /**
     * `propagate()`: `findMaximumMatching`, which fails exactly when the
     * domains admit no assignment of pairwise different values, then
     * `filter`, which leaves each variable with its mate only; the matching
     * is a solution of the result.
     */
    method Propagate(d: seq<set<int>>) returns (r: Outcome<(seq<set<int>>, bool)>)
      requires Valid() && |d| == n && AllDomains(d) && forall i | 0 <= i < n :: d[i] <= init[i]
      modifies this`leftEdge, this`matchedEdge, this`searchEdge, this`sccEdge, this`notGamma, this`notA
      modifies matcher, matcher.matching, matcher.father, matcher.fifo, varMatchedEdge, valMatchedEdge
      ensures Valid()
      ensures r == Contradiction <==> !HasSolution(d)
      ensures r.Done? ==> OnlyMates(d, r.value.0, idToVal, matcher.matching[..])
      ensures r.Done? ==> (r.value.1 <==> r.value.0 != d)
      ensures r.Done? ==> HasSolution(r.value.0)
    {
      var ok;
      ghost var M;
      ok, M := FindMaximumMatching(d);
      if !ok {
        return Contradiction;
      }
      var D, changed := Filter(d, M);
      r := Done((D, changed));
    }
  }
}

/**
 * The value numbering built by the constructors of the three AllDifferent
 * filters: variables are the nodes `0 .. n-1` of the value graph, and every
 * distinct value of the initial domains gets a node id in `n .. n2-1`, in
 * the order in which the values are first met when the variables are
 * scanned in turn, each domain in increasing order.
 */
module ValueIds {
  import opened IntSets
  import opened Domains

  /** Every value that occurs in some domain. */
  ghost function AllValues(d: seq<set<int>>): set<int>
  {
    set i, x | 0 <= i < |d| && x in d[i] :: x
  }

  /** Every domain is part of `AllValues`. */
  lemma DomainsInValues(d: seq<set<int>>)
    ensures forall i | 0 <= i < |d| :: d[i] <= AllValues(d)
  {
    forall i, x | 0 <= i < |d| && x in d[i] ensures x in AllValues(d) {
    }
  }

  /** The values met before variable `i` is scanned. */
  ghost function SeenBefore(d: seq<set<int>>, i: int): set<int>
  {
    set i', x | 0 <= i' < i && i' < |d| && x in d[i'] :: x
  }

  /** The values of `s` below `k`. */
  ghost function Below(s: set<int>, k: int): set<int>
  {
    set x | x in s && x < k
  }

  /** The values met before value `k` of variable `i` is looked at. */
  ghost function SeenUpTo(d: seq<set<int>>, i: int, k: int): set<int>
    requires 0 <= i < |d|
  {
    SeenBefore(d, i) + Below(d[i], k)
  }

  /** The index of the first domain at or after `j` that holds `v`, or `|d|` when none does. */
  ghost function FirstFrom(d: seq<set<int>>, v: int, j: nat): nat
    decreases |d| - j
  {
    if j >= |d| then |d| else if v in d[j] then j else FirstFrom(d, v, j + 1)
  }

  /** The index of the first domain that holds `v` (its properties are stated by `FirstVarIs`). */
  ghost function FirstVar(d: seq<set<int>>, v: int): nat
  {
    FirstFrom(d, v, 0)
  }

  /** `FirstFrom` finds the first holder at or after `j`. */
  lemma {:induction false} FirstFromIs(d: seq<set<int>>, v: int, j: nat, h: nat)
    requires j <= h < |d| && v in d[h]
    ensures FirstFrom(d, v, j) <= h && v in d[FirstFrom(d, v, j)]
    ensures forall j' | j <= j' < FirstFrom(d, v, j) :: v !in d[j']
    decreases h - j
  {
    if v !in d[j] {
      FirstFromIs(d, v, j + 1, h);
    }
  }

  /** `FirstVar(d, v)` is the least index of a domain holding `v`. */
  lemma FirstVarIs(d: seq<set<int>>, v: int)
    requires v in AllValues(d)
    ensures FirstVar(d, v) < |d| && v in d[FirstVar(d, v)]
    ensures forall j | 0 <= j < FirstVar(d, v) :: v !in d[j]
  {
    var h, x :| 0 <= h < |d| && x in d[h] && x == v;
    FirstFromIs(d, v, 0, h);
  }

  /** `v` is met before `w`: in an earlier domain, or earlier in the same domain. */
  ghost predicate MetBefore(d: seq<set<int>>, v: int, w: int)
    requires v in AllValues(d) && w in AllValues(d)
  {
    FirstVar(d, v) < FirstVar(d, w) || (FirstVar(d, v) == FirstVar(d, w) && v < w)
  }

  /** `idToVal` is the inverse of `ids`, and the ids are exactly `n .. n2-1`. */
  ghost predicate Inverse(ids: map<int, int>, idToVal: map<int, int>, n: int, n2: int)
  {
    (forall j :: j in idToVal <==> n <= j < n2)
    && (forall v | v in ids :: ids[v] in idToVal && idToVal[ids[v]] == v)
    && (forall j | j in idToVal :: idToVal[j] in ids && ids[idToVal[j]] == j)
  }

  /** Ids follow the order in which values are first met. */
  ghost predicate Ordered(d: seq<set<int>>, ids: map<int, int>)
  {
    ids.Keys <= AllValues(d)
    && forall v, w | v in ids && w in ids :: ids[v] < ids[w] <==> MetBefore(d, v, w)
  }

  /** The state of the numbering loop once the values `seen` have been met. */
  ghost predicate Numbering(d: seq<set<int>>, ids: map<int, int>, idToVal: map<int, int>, n2: int, seen: set<int>)
  {
    ids.Keys == seen
    && Inverse(ids, idToVal, |d|, n2)
    && Ordered(d, ids)
  }

  /** A value met for the first time at variable `i` comes after every value met so far. */
  lemma MetLast(d: seq<set<int>>, ids: map<int, int>, i: int, k: int)
    requires 0 <= i < |d| && k in d[i] && k !in ids
    requires ids.Keys == SeenUpTo(d, i, k)
    ensures k in AllValues(d) && ids.Keys <= AllValues(d)
    ensures forall v | v in ids :: MetBefore(d, v, k)
  {
    assert k in AllValues(d);
    forall v | v in ids ensures v in AllValues(d) {
      if v in SeenBefore(d, i) {
        var i', x :| 0 <= i' < i && i' < |d| && x in d[i'] && x == v;
      }
    }
    assert k !in SeenBefore(d, i);
    FirstVarIs(d, k);
    assert FirstVar(d, k) == i;
    forall v | v in ids ensures MetBefore(d, v, k) {
      if v in SeenBefore(d, i) {
        var i', x :| 0 <= i' < i && i' < |d| && x in d[i'] && x == v;
        FirstVarIs(d, v);
        assert FirstVar(d, v) <= i';
      } else {
        assert v in Below(d[i], k);
        FirstVarIs(d, v);
      }
    }
  }

  /** Giving a fresh, largest id to a value met after all others keeps the ids ordered. */
  lemma OrderedExtend(d: seq<set<int>>, ids: map<int, int>, k: int, id: int)
    requires Ordered(d, ids) && k !in ids && k in AllValues(d)
    requires forall v | v in ids :: ids[v] < id && MetBefore(d, v, k)
    ensures Ordered(d, ids[k := id])
  {
  }

  /** One step of the numbering loop on a value not met yet. */
  lemma NumberNewValue(d: seq<set<int>>, ids: map<int, int>, idToVal: map<int, int>, n2: int,
                       i: int, k: int)
    requires 0 <= i < |d| && k in d[i] && k !in ids && |d| <= n2
    requires Numbering(d, ids, idToVal, n2, SeenUpTo(d, i, k))
    ensures Numbering(d, ids[k := n2], idToVal[n2 := k], n2 + 1, SeenUpTo(d, i, k) + {k})
  {
    MetLast(d, ids, i, k);
    assert forall v | v in ids :: ids[v] < n2;
    OrderedExtend(d, ids, k, n2);
    InverseExtend(ids, idToVal, |d|, n2, k);
  }

  /** Giving the next id `n2` to a new value keeps `idToVal` the inverse of `ids`. */
  lemma InverseExtend(ids: map<int, int>, idToVal: map<int, int>, n: int, n2: int, k: int)
    requires Inverse(ids, idToVal, n, n2) && k !in ids && n <= n2
    ensures Inverse(ids[k := n2], idToVal[n2 := k], n, n2 + 1)
  {
    assert n2 !in idToVal;
  }

  /** One turn of the inner numbering loop, on value `k` of domain `i`. */
  lemma NumberStep(d: seq<set<int>>, i: int, k: int, ids: map<int, int>, idToVal: map<int, int>, idx: int)
    requires AllDomains(d) && 0 <= i < |d| && k in d[i] && |d| <= idx
    requires Numbering(d, ids, idToVal, idx, SeenUpTo(d, i, k))
    ensures k !in ids ==> Numbering(d, ids[k := idx], idToVal[idx := k], idx + 1, SeenUpTo(d, i, NextValue(d[i], k)))
    ensures k in ids ==> Numbering(d, ids, idToVal, idx, SeenUpTo(d, i, NextValue(d[i], k)))
  {
    SeenStep(d, i, k);
    if k !in ids {
      NumberNewValue(d, ids, idToVal, idx, i, k);
    } else {
      assert SeenUpTo(d, i, k) + {k} == SeenUpTo(d, i, k);
    }
  }

  /** Moving from `k` to `nextValue(k)` after `k` has been numbered. */
  lemma SeenStep(d: seq<set<int>>, i: int, k: int)
    requires AllDomains(d) && 0 <= i < |d| && k in d[i]
    ensures SeenUpTo(d, i, k) + {k} == SeenUpTo(d, i, NextValue(d[i], k))
  {
    var next := NextValue(d[i], k);
    assert forall x :: x in Below(d[i], k) + {k} <==> x in Below(d[i], next);
    assert Below(d[i], k) + {k} == Below(d[i], next);
  }

  /** Before the first value of a domain nothing of it is met; after the last, all of it. */
  lemma SeenEnds(d: seq<set<int>>, i: int, k: int)
    requires 0 <= i < |d|
    ensures d[i] != {} && k == LB(d[i]) ==> SeenUpTo(d, i, k) == SeenBefore(d, i)
    ensures (forall x | x in d[i] :: x < k) ==> SeenUpTo(d, i, k) == SeenBefore(d, i + 1)
  {
    if d[i] != {} && k == LB(d[i]) {
      assert forall x :: x !in Below(d[i], k);
      assert Below(d[i], k) == {};
    }
    if forall x | x in d[i] :: x < k {
      assert forall x :: x in Below(d[i], k) <==> x in d[i];
      forall x ensures x in SeenUpTo(d, i, k) <==> x in SeenBefore(d, i + 1) {
        if x in SeenBefore(d, i + 1) {
          var i', y :| 0 <= i' < i + 1 && i' < |d| && y in d[i'] && y == x;
          if i' < i { assert x in SeenBefore(d, i); }
        }
        if x in SeenBefore(d, i) {
          var i', y :| 0 <= i' < i && i' < |d| && y in d[i'] && y == x;
        }
      }
    }
  }

  /**
   * The constructors' numbering loop: scans every domain from its lower
   * bound with `nextValue` and numbers each value the first time it is met.
   */
  method AssignValueIds(d: seq<set<int>>) returns (ids: map<int, int>, idToVal: map<int, int>, n2: int)
    requires AllDomains(d)
    ensures ids.Keys == AllValues(d)
    ensures n2 == |d| + |ids.Keys|
    ensures forall v | v in ids :: |d| <= ids[v] < n2
    ensures forall v, w | v in ids && w in ids && v != w :: ids[v] != ids[w]
    ensures forall j :: j in idToVal <==> |d| <= j < n2
    ensures forall v | v in ids :: idToVal[ids[v]] == v
    ensures forall j | j in idToVal :: idToVal[j] in ids && ids[idToVal[j]] == j
    ensures forall v, w | v in ids && w in ids :: ids[v] < ids[w] <==> MetBefore(d, v, w)
  {
    var n := |d|;
    ids, idToVal := map[], map[];
    n2 := n;
    assert SeenBefore(d, 0) == {} by {
      assert forall x :: x !in SeenBefore(d, 0);
    }
    var i := 0;
    while i < n
      invariant 0 <= i <= n && n <= n2
      invariant Numbering(d, ids, idToVal, n2, SeenBefore(d, i))
    {
      ids, idToVal, n2 := NumberDomain(d, i, ids, idToVal, n2);
      i := i + 1;
    }
    assert SeenBefore(d, n) == AllValues(d) by {
      assert forall x :: x in SeenBefore(d, n) <==> x in AllValues(d);
    }
    NumberingDone(d, ids, idToVal, n2);
  }

  /** The inner loop of the numbering: the values of domain `i`, in increasing order. */
  method NumberDomain(d: seq<set<int>>, i: int, ids0: map<int, int>, idToVal0: map<int, int>, idx0: int)
    returns (ids: map<int, int>, idToVal: map<int, int>, idx: int)
    requires AllDomains(d) && 0 <= i < |d|
    requires Numbering(d, ids0, idToVal0, idx0, SeenBefore(d, i)) && |d| <= idx0
    ensures Numbering(d, ids, idToVal, idx, SeenBefore(d, i + 1)) && idx0 <= idx
  {
    ids, idToVal, idx := ids0, idToVal0, idx0;
    var ub := UB(d[i]);
    var k := LB(d[i]);
    SeenEnds(d, i, k);
    while k <= ub
      invariant k in d[i] || k == MAX_VALUE
      invariant Numbering(d, ids, idToVal, idx, SeenUpTo(d, i, k)) && idx0 <= idx
      decreases ub - k
    {
      NumberStep(d, i, k, ids, idToVal, idx);
      if k !in ids {
        ids, idToVal := ids[k := idx], idToVal[idx := k];
        idx := idx + 1;
      }
      k := NextValue(d[i], k);
    }
    SeenEnds(d, i, k);
  }

  /** What a complete numbering guarantees. */
  lemma NumberingDone(d: seq<set<int>>, ids: map<int, int>, idToVal: map<int, int>, n2: int)
    requires Numbering(d, ids, idToVal, n2, AllValues(d)) && |d| <= n2
    ensures n2 == |d| + |ids.Keys|
    ensures forall v | v in ids :: |d| <= ids[v] < n2
    ensures forall v, w | v in ids && w in ids && v != w :: ids[v] != ids[w]
  {
    assert idToVal.Keys == Range(|d|, n2) by {
      assert forall j :: j in idToVal.Keys <==> j in Range(|d|, n2);
    }
    Pigeonhole(ids.Keys, idToVal.Keys, v => if v in ids then ids[v] else 0);
    Pigeonhole(idToVal.Keys, ids.Keys, j => if j in idToVal then idToVal[j] else 0);
  }
}

/**
 * The output of `StrongConnectivityFinder` as plain values: `nodeSCC` gives
 * each node its component id (-1 when it has none), and each component `c`
 * is a linked list that starts at `sccFirstNode[c]`, follows `nextNode`, and
 * ends in -1. `sccAdd` pushes a node onto the front of the component being
 * built.
 */
module SCCLists {
  import opened IntSets

  /** The head `h` and the links `nx` spell the list `s`, which ends in -1. */
  ghost predicate ChainAt(h: int, nx: seq<int>, s: seq<int>)
  {
    (forall t | 0 <= t < |s| :: 0 <= s[t] < |nx|)
    && (if |s| == 0 then h == -1 else h == s[0] && nx[s[|s| - 1]] == -1)
    && (forall t {:trigger nx[s[t]]} | 0 <= t < |s| - 1 :: nx[s[t]] == s[t + 1])
  }

  /** A list that ends in -1 holds no node twice: a repeated node would repeat all that follows it. */
  lemma ChainDistinct(h: int, nx: seq<int>, s: seq<int>)
    requires ChainAt(h, nx, s)
    ensures forall a, b | 0 <= a < b < |s| :: s[a] != s[b]
  {
    forall a, b | 0 <= a < b < |s| ensures s[a] != s[b] {
      if s[a] == s[b] {
        var j := |s| - 1 - b;
        ChainShift(h, nx, s, a, b, j);
        assert false;
      }
    }
  }

  /** If the nodes at `a` and `b` agree, so do the nodes `j` further on. */
  lemma {:induction false} ChainShift(h: int, nx: seq<int>, s: seq<int>, a: int, b: int, j: nat)
    requires ChainAt(h, nx, s) && 0 <= a < b && b + j < |s| && s[a] == s[b]
    ensures s[a + j] == s[b + j]
  {
    if j > 0 {
      ChainShift(h, nx, s, a, b, j - 1);
      assert nx[s[a + j - 1]] == s[a + j] && nx[s[b + j - 1]] == s[b + j];
    }
  }

  /**
   * The first `m` components: `chains[c]` is the list of component `c`, and
   * its nodes are exactly those whose id is `c`;
   * `A` is the set of nodes with an id; heads from `m` on are -1, and a node
   * without an id has no successor in any list.
   */
  ghost predicate ListsUpTo(ns: seq<int>, fst: seq<int>, nx: seq<int>, m: int, chains: seq<seq<int>>, A: set<int>)
  {
    |fst| == |ns| && |nx| == |ns| && 0 <= m <= |ns| && |chains| == m
    && (forall x :: x in A <==> 0 <= x < |ns| && ns[x] != -1)
    && (forall x | 0 <= x < |ns| :: -1 <= ns[x] < m)
    && (forall x | 0 <= x < |ns| && ns[x] == -1 :: nx[x] == -1)
    && (forall c | 0 <= c < m :: ChainAt(fst[c], nx, chains[c]))
    && (forall c, t | 0 <= c < m && 0 <= t < |chains[c]| :: ns[chains[c][t]] == c)
    && (forall x | 0 <= x < |ns| && ns[x] != -1 :: x in chains[ns[x]])
    && (forall c | m <= c < |fst| :: fst[c] == -1)
  }

  /** The `nb` closed components, each non-empty. */
  ghost predicate Lists(ns: seq<int>, fst: seq<int>, nx: seq<int>, nb: int, chains: seq<seq<int>>, A: set<int>)
  {
    ListsUpTo(ns, fst, nx, nb, chains, A) && nb <= |A|
    && forall c | 0 <= c < nb :: |chains[c]| > 0
  }

  /** After the reset of `findAllSCCOf`, there are no components. */
  lemma ListsEmpty(ns: seq<int>, fst: seq<int>, nx: seq<int>)
    requires |fst| == |ns| && |nx| == |ns|
    requires forall x | 0 <= x < |ns| :: ns[x] == -1 && fst[x] == -1 && nx[x] == -1
    ensures Lists(ns, fst, nx, 0, [], {})
  {
  }

  /** While some node has no id, there are fewer components than nodes. */
  lemma RoomForComponent(ns: seq<int>, fst: seq<int>, nx: seq<int>, nb: int, chains: seq<seq<int>>, A: set<int>, y: int)
    requires Lists(ns, fst, nx, nb, chains, A) && 0 <= y < |ns| && ns[y] == -1
    ensures nb < |ns|
  {
    BoundedCard(A + {y}, |ns|);
  }

  /** While some node has no id, a new component can be opened: its head is still -1. */
  lemma OpenComponent(ns: seq<int>, fst: seq<int>, nx: seq<int>, nb: int, chains: seq<seq<int>>, A: set<int>, y: int)
    requires Lists(ns, fst, nx, nb, chains, A) && 0 <= y < |ns| && ns[y] == -1
    ensures nb < |ns| && ListsUpTo(ns, fst, nx, nb + 1, chains + [[]], A)
  {
    RoomForComponent(ns, fst, nx, nb, chains, A, y);
    var chains' := chains + [[]];
    assert forall c | 0 <= c < nb :: chains'[c] == chains[c];
  }

  /** `sccAdd(y)`: the node `y`, which had no id, joins the front of the open component `nb`. */
  lemma SccAddStep(ns: seq<int>, fst: seq<int>, nx: seq<int>, nb: int, chains: seq<seq<int>>, A: set<int>,
                   cur: seq<int>, y: int)
    requires ListsUpTo(ns, fst, nx, nb + 1, chains + [cur], A) && 0 <= y < |ns| && ns[y] == -1
    ensures ListsUpTo(ns[y := nb], fst[nb := y], nx[y := fst[nb]], nb + 1, chains + [[y] + cur], A + {y})
  {
    SccAddChains(ns, fst, nx, nb, chains, A, cur, y);
    SccAddIds(ns, fst, nx, nb, chains, A, cur, y);
  }

  /** The lists after `sccAdd(y)`: `y` is new to every list, so each stays a list. */
  lemma SccAddChains(ns: seq<int>, fst: seq<int>, nx: seq<int>, nb: int, chains: seq<seq<int>>, A: set<int>,
                     cur: seq<int>, y: int)
    requires ListsUpTo(ns, fst, nx, nb + 1, chains + [cur], A) && 0 <= y < |ns| && ns[y] == -1
    ensures var new' := chains + [[y] + cur];
            forall c | 0 <= c < nb + 1 :: ChainAt(fst[nb := y][c], nx[y := fst[nb]], new'[c])
  {
    var fst', nx' := fst[nb := y], nx[y := fst[nb]];
    var old', new' := chains + [cur], chains + [[y] + cur];
    forall c | 0 <= c < nb + 1 ensures ChainAt(fst'[c], nx', new'[c]) {
      assert ChainAt(fst[c], nx, old'[c]);
      forall t | 0 <= t < |old'[c]| ensures old'[c][t] != y {
        assert ns[old'[c][t]] == c;
      }
      if c < nb {
        assert new'[c] == old'[c];
      } else {
        assert old'[c] == cur && new'[c] == [y] + cur;
      }
    }
  }

  /** The ids after `sccAdd(y)` agree with the lists. */
  lemma SccAddIds(ns: seq<int>, fst: seq<int>, nx: seq<int>, nb: int, chains: seq<seq<int>>, A: set<int>,
                  cur: seq<int>, y: int)
    requires ListsUpTo(ns, fst, nx, nb + 1, chains + [cur], A) && 0 <= y < |ns| && ns[y] == -1
    ensures var ns', new' := ns[y := nb], chains + [[y] + cur];
            (forall c, t | 0 <= c < nb + 1 && 0 <= t < |new'[c]| :: 0 <= new'[c][t] < |ns| && ns'[new'[c][t]] == c)
            && (forall x | 0 <= x < |ns'| && ns'[x] != -1 :: x in new'[ns'[x]])
  {
    var ns' := ns[y := nb];
    var old', new' := chains + [cur], chains + [[y] + cur];
    forall c, t | 0 <= c < nb + 1 && 0 <= t < |new'[c]| ensures 0 <= new'[c][t] < |ns| && ns'[new'[c][t]] == c {
      assert ChainAt(fst[c], nx, old'[c]);
      if c == nb && t > 0 {
        assert new'[c][t] == old'[nb][t - 1];
      } else if c < nb {
        assert new'[c][t] == old'[c][t];
      }
    }
    forall x | 0 <= x < |ns'| && ns'[x] != -1 ensures x in new'[ns'[x]] {
      if x != y {
        assert x in old'[ns[x]];
        if ns[x] == nb {
          assert x in [y] + cur;
        } else {
          assert new'[ns[x]] == old'[ns[x]];
        }
      }
    }
  }

  /** Closing the open component, which received at least one node, adds one non-empty component. */
  lemma CloseComponent(ns: seq<int>, fst: seq<int>, nx: seq<int>, nb: int, chains: seq<seq<int>>, A: set<int>,
                       cur: seq<int>)
    requires ListsUpTo(ns, fst, nx, nb + 1, chains + [cur], A) && |cur| > 0 && nb + 1 <= |A|
    requires forall c | 0 <= c < nb :: |chains[c]| > 0
    ensures Lists(ns, fst, nx, nb + 1, chains + [cur], A)
  {
  }

  /** A singleton component `{y}`, as `findSingletons` and the trivial case of `findSCC` record it. */
  lemma SingletonStep(ns: seq<int>, fst: seq<int>, nx: seq<int>, nb: int, chains: seq<seq<int>>, A: set<int>, y: int)
    requires Lists(ns, fst, nx, nb, chains, A) && 0 <= y < |ns| && ns[y] == -1
    ensures nb < |ns| && Lists(ns[y := nb], fst[nb := y], nx, nb + 1, chains + [[y]], A + {y})
  {
    OpenComponent(ns, fst, nx, nb, chains, A, y);
    SccAddStep(ns, fst, nx, nb, chains, A, [], y);
    assert fst[nb] == -1 && [y] + [] == [y];
    assert nx[y := fst[nb]] == nx;
    CloseComponent(ns[y := nb], fst[nb := y], nx, nb, chains, A + {y}, [y]);
  }

  /**
   * Adding component `nb` to the lists keeps every id already given, and
   * a node that gets an id gets `nb`.
   */
  lemma ListsKeep(ns: seq<int>, fst: seq<int>, nx: seq<int>, nb: int, chains: seq<seq<int>>, A: set<int>,
                  ns': seq<int>, fst': seq<int>, nx': seq<int>, chains': seq<seq<int>>, A': set<int>)
    requires Lists(ns, fst, nx, nb, chains, A) && ListsUpTo(ns', fst', nx', nb + 1, chains', A') && |ns'| == |ns|
    requires forall c | 0 <= c < nb :: chains'[c] == chains[c]
    ensures forall x | 0 <= x < |ns| && ns[x] != -1 :: ns'[x] == ns[x]
    ensures forall x | 0 <= x < |ns| && ns[x] == -1 && ns'[x] != -1 :: ns'[x] == nb
  {
    forall x | 0 <= x < |ns| && ns[x] != -1 ensures ns'[x] == ns[x] {
      var c := ns[x];
      var t :| 0 <= t < |chains[c]| && chains[c][t] == x;
      assert chains'[c][t] == x;
    }
    forall x | 0 <= x < |ns| && ns[x] == -1 && ns'[x] != -1 ensures ns'[x] == nb {
      assert x in chains'[ns'[x]];
    }
  }
}

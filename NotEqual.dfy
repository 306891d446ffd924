/**
 * `PropNotEqualX_YC`: the propagator of `x != y + c` for two integer
 * variables `x`, `y` and a constant `c`.
 *
 * A variable is seen through its domain and its kind: an enumerated domain
 * can hold holes, a bounded domain is always the interval between its
 * bounds, so `removeValue` on it takes effect only at a bound. Domains are
 * values here, as in the filters of `allDifferent`; the propagator's own
 * state is whether it is passive.
 */
module NotEquals {
  import opened IntSets
  import opened Domains

  /** An `IntVar` as the propagator sees it: its domain, and whether that domain is enumerated. */
  datatype IntVar = IntVar(dom: set<int>, enumerated: bool)

  /** `a` lies between the bounds of `d`. */
  predicate InHull(d: set<int>, a: int)
    requires d != {}
  {
    LB(d) <= a <= UB(d)
  }

  /** Every value between the bounds of `d` is in `d`. */
  ghost predicate IsInterval(d: set<int>)
    requires d != {}
  {
    forall a | InHull(d, a) :: a in d
  }

  /** A variable's domain: a domain, and an interval unless it is enumerated. */
  ghost predicate WellFormed(v: IntVar)
  {
    IsDomain(v.dom) && (!v.enumerated ==> IsInterval(v.dom))
  }

  /** Every pair of values of `x` and `y` satisfies `a != b + c`: the constraint holds whatever happens next. */
  ghost predicate Satisfied(x: set<int>, y: set<int>, c: int)
  {
    forall a, b | a in x && b in y :: a != b + c
  }

  /** Some pair of values of `x` and `y` satisfies `a != b + c`. */
  ghost predicate Satisfiable(x: set<int>, y: set<int>, c: int)
  {
    exists a, b | a in x && b in y :: a != b + c
  }

  /** Even the intervals spanned by `x` and by `y` hold no pair with `a == b + c`. */
  ghost predicate HullsApart(x: set<int>, y: set<int>, c: int)
    requires x != {} && y != {}
  {
    forall a, b | InHull(x, a) && InHull(y, b) :: a != b + c
  }

  /** An interval that loses one of its bounds, and is not used up, is still an interval. */
  lemma BoundRemoved(d: set<int>, k: int)
    requires d != {} && IsInterval(d) && d != {k} && (k == LB(d) || k == UB(d))
    ensures d - {k} != {} && IsInterval(d - {k})
  {
    var d' := d - {k};
    assert LB(d') in d && LB(d') != k && UB(d') in d && UB(d') != k;
    forall a | InHull(d', a) ensures a in d' {
      assert InHull(d, a);
    }
  }

  /**
   * `removeValue(k)`: removing the last value is a contradiction; an
   * enumerated domain loses `k`, a bounded one loses it only when `k` is one
   * of its bounds. The flag tells whether the domain changed.
   */
  function RemoveVal(v: IntVar, k: int): (r: Outcome<(IntVar, bool)>)
    requires WellFormed(v)
    ensures r == Contradiction <==> v.dom == {k}
    ensures r.Done? ==> WellFormed(r.value.0) && r.value.0.enumerated == v.enumerated
    ensures r.Done? ==> r.value.0.dom == (if r.value.1 then v.dom - {k} else v.dom)
    ensures r.Done? ==> (r.value.1 <==> k in v.dom && (v.enumerated || k == LB(v.dom) || k == UB(v.dom)))
  {
    if v.dom == {k} then Contradiction
    else if k in v.dom && (v.enumerated || k == LB(v.dom) || k == UB(v.dom)) then
      if !v.enumerated then BoundRemoved(v.dom, k); Done((IntVar(v.dom - {k}, v.enumerated), true))
      else Done((IntVar(v.dom - {k}, v.enumerated), true))
    else Done((v, false))
  }

  /** What `propagate` leaves: the domains of `x` and `y`, and whether the propagator became passive. */
  datatype Pruned = Pruned(x: IntVar, y: IntVar, passive: bool)

  /**
   * The domain part of `propagate()`: with `x` instantiated, `x - c` leaves
   * `y`; else with `y` instantiated, `y + c` leaves `x`; in both cases the
   * propagator turns passive when the removal changed the domain or the
   * value was already absent (`contains` on a bounded domain is the bounds
   * test, which is membership in the interval). With neither instantiated,
   * nothing is removed, and it turns passive when the bounds already keep
   * `x` and `y + c` apart.
   */
  function Propagation(x: IntVar, y: IntVar, c: int): (r: Outcome<Pruned>)
    requires WellFormed(x) && WellFormed(y)
    ensures r.Done? ==> WellFormed(r.value.x) && WellFormed(r.value.y)
  {
    if IsInstantiated(x.dom) then
      var k := LB(x.dom) - c;
      match RemoveVal(y, k)
      case Contradiction => Contradiction
      case Done((y', changed)) => Done(Pruned(x, y', changed || k !in y'.dom))
    else if IsInstantiated(y.dom) then
      var k := LB(y.dom) + c;
      match RemoveVal(x, k)
      case Contradiction => Contradiction
      case Done((x', changed)) => Done(Pruned(x', y, changed || k !in x'.dom))
    else
      Done(Pruned(x, y, UB(x.dom) < LB(y.dom) + c || UB(y.dom) + c < LB(x.dom)))
  }

  /** Some pair satisfies the constraint exactly unless `x` and `y` are the singletons `{b + c}` and `{b}`. */
  lemma UnsatisfiableShape(x: set<int>, y: set<int>, c: int)
    requires x != {} && y != {}
    ensures !Satisfiable(x, y, c) <==> x == {LB(y) + c} && y == {LB(y)}
    ensures !Satisfiable(x, y, c) ==> IsInstantiated(x) && IsInstantiated(y)
  {
    if Satisfiable(x, y, c) {
      var a, b :| a in x && b in y && a != b + c;
      return;
    }
    var b := LB(y);
    assert forall a | a in x :: a == b + c;
    assert forall b' | b' in y :: b' == LB(x) - c;
    assert forall a :: a in x <==> a in {b + c};
    assert forall b' :: b' in y <==> b' in {b};
    assert x == {b + c} && y == {b};
    SingletonIsInstantiated(b + c);
    SingletonIsInstantiated(b);
  }

  /** `propagate()` fails exactly when no pair of values satisfies `x != y + c`. */
  lemma PropagationFails(x: IntVar, y: IntVar, c: int)
    requires WellFormed(x) && WellFormed(y)
    ensures Propagation(x, y, c) == Contradiction <==> !Satisfiable(x.dom, y.dom, c)
  {
    if !Satisfiable(x.dom, y.dom, c) {
      UnsatisfiableShape(x.dom, y.dom, c);
    } else if IsInstantiated(x.dom) {
      InstantiatedIsSingleton(x.dom);
      var a, b :| a in x.dom && b in y.dom && a != b + c;
      assert y.dom != {LB(x.dom) - c};
    } else if IsInstantiated(y.dom) {
      InstantiatedIsSingleton(y.dom);
      var a, b :| a in x.dom && b in y.dom && a != b + c;
      assert x.dom != {LB(y.dom) + c};
    }
  }

  /**
   * `propagate()` only narrows the domains, keeps their kinds, and removes
   * no value that some pair satisfying the constraint uses.
   */
  lemma PropagationSound(x: IntVar, y: IntVar, c: int)
    requires WellFormed(x) && WellFormed(y) && Propagation(x, y, c).Done?
    ensures var p := Propagation(x, y, c).value;
            p.x.dom <= x.dom && p.y.dom <= y.dom
            && p.x.enumerated == x.enumerated && p.y.enumerated == y.enumerated
            && forall a, b | a in x.dom && b in y.dom && a != b + c :: a in p.x.dom && b in p.y.dom
  {
    if IsInstantiated(x.dom) {
      InstantiatedIsSingleton(x.dom);
    } else if IsInstantiated(y.dom) {
      InstantiatedIsSingleton(y.dom);
    }
  }

  /**
   * When one variable is instantiated, `propagate()` turns passive exactly
   * when the constraint holds for every pair of the remaining values;
   * otherwise it removes nothing, and turns passive exactly when the bounds
   * keep the two apart. A passive propagator has nothing left to prune.
   */
  lemma PropagationPassive(x: IntVar, y: IntVar, c: int)
    requires WellFormed(x) && WellFormed(y) && Propagation(x, y, c).Done?
    ensures var p := Propagation(x, y, c).value;
            (IsInstantiated(x.dom) || IsInstantiated(y.dom) ==> (p.passive <==> Satisfied(p.x.dom, p.y.dom, c)))
            && (!IsInstantiated(x.dom) && !IsInstantiated(y.dom) ==> p.x == x && p.y == y && (p.passive <==> HullsApart(x.dom, y.dom, c)))
            && (p.passive ==> Satisfied(p.x.dom, p.y.dom, c))
  {
    var p := Propagation(x, y, c).value;
    if IsInstantiated(x.dom) {
      InstantiatedIsSingleton(x.dom);
      var k := LB(x.dom) - c;
      if !Satisfied(p.x.dom, p.y.dom, c) {
        var a, b :| a in p.x.dom && b in p.y.dom && a == b + c;
        assert b == k;
      }
    } else if IsInstantiated(y.dom) {
      InstantiatedIsSingleton(y.dom);
      var k := LB(y.dom) + c;
      if !Satisfied(p.x.dom, p.y.dom, c) {
        var a, b :| a in p.x.dom && b in p.y.dom && a == b + c;
        assert a == k;
      }
    } else {
      BoundsApart(x.dom, y.dom, c);
      if HullsApart(x.dom, y.dom, c) {
        forall a, b | a in x.dom && b in y.dom ensures a != b + c {
          assert InHull(x.dom, a) && InHull(y.dom, b);
        }
      }
    }
  }

  /** A second `propagate()` on the domains the first one left removes nothing more. */
  lemma PropagationIdempotent(x: IntVar, y: IntVar, c: int)
    requires WellFormed(x) && WellFormed(y) && Propagation(x, y, c).Done?
    ensures var p := Propagation(x, y, c).value;
            Propagation(p.x, p.y, c).Done?
            && Propagation(p.x, p.y, c).value.x == p.x && Propagation(p.x, p.y, c).value.y == p.y
  {
    var p := Propagation(x, y, c).value;
    if !IsInstantiated(x.dom) && IsInstantiated(y.dom) && IsInstantiated(p.x.dom) {
      InstantiatedIsSingleton(y.dom);
      InstantiatedIsSingleton(p.x.dom);
      assert LB(p.x.dom) != LB(y.dom) + c by {
        assert LB(p.x.dom) in p.x.dom;
      }
    }
  }

  /** The intervals spanned by `x` and `y + c` are disjoint exactly when one ends before the other starts. */
  lemma BoundsApart(x: set<int>, y: set<int>, c: int)
    requires x != {} && y != {}
    ensures HullsApart(x, y, c) <==> UB(x) < LB(y) + c || UB(y) + c < LB(x)
  {
    if !(UB(x) < LB(y) + c || UB(y) + c < LB(x)) {
      var a := if LB(x) < LB(y) + c then LB(y) + c else LB(x);
      assert InHull(x, a) && InHull(y, a - c);
    }
  }

  /**
   * Why instantiation events are enough for an enumerated `y`: once `x` is
   * instantiated, `propagate()` removes `x - c` from `y` outright and the
   * propagator turns passive, so no later event on `y` can call for more.
   */
  lemma EnumeratedSettles(x: IntVar, y: IntVar, c: int)
    requires WellFormed(x) && WellFormed(y) && IsInstantiated(x.dom) && y.enumerated
    requires Propagation(x, y, c).Done?
    ensures Propagation(x, y, c).value.y.dom == y.dom - {LB(x.dom) - c}
    ensures Propagation(x, y, c).value.passive
  {
  }

  /**
   * Why a bounded `y` also needs bound events: with `x = 3` and `y` the
   * interval `[1, 4]`, `propagate()` cannot remove `3` from `y` and stays
   * active; once the upper bound of `y` drops to `3`, it removes `3`.
   */
  lemma BoundEventMatters()
    ensures Propagation(IntVar({3}, false), IntVar({1, 2, 3, 4}, false), 0)
         == Done(Pruned(IntVar({3}, false), IntVar({1, 2, 3, 4}, false), false))
    ensures Propagation(IntVar({3}, false), IntVar({1, 2, 3}, false), 0)
         == Done(Pruned(IntVar({3}, false), IntVar({1, 2}, false), true))
  {
    SingletonIsInstantiated(3);
    var y, y' := {1, 2, 3, 4}, {1, 2, 3};
    assert LB(y) == 1 && UB(y) == 4 && LB(y') == 1 && UB(y') == 3;
    forall a | InHull(y, a) ensures a in y {
      assert a == 1 || a == 2 || a == 3 || a == 4;
    }
    forall a | InHull(y', a) ensures a in y' {
      assert a == 1 || a == 2 || a == 3;
    }
    assert {3} != y && {3} != y';
    assert {1, 2, 3} - {3} == {1, 2};
  }

  /** `ESat`: the answers of `isEntailed`. */
  datatype ESat = TRUE | FALSE | UNDEFINED

  /**
   * `isEntailed()`: TRUE when the bounds already keep `x` and `y + c`
   * apart, FALSE when both are instantiated with `x = y + c`, UNDEFINED
   * otherwise.
   */
  function IsEntailed(x: IntVar, y: IntVar, c: int): (r: ESat)
    requires WellFormed(x) && WellFormed(y)
    ensures r == TRUE <==> HullsApart(x.dom, y.dom, c)
    ensures r == FALSE <==> !Satisfiable(x.dom, y.dom, c)
  {
    BoundsApart(x.dom, y.dom, c);
    EntailmentFalse(x, y, c);
    if UB(x.dom) < LB(y.dom) + c || UB(y.dom) < LB(x.dom) - c then TRUE
    else if IsInstantiated(x.dom) && IsInstantiated(y.dom) && LB(x.dom) == LB(y.dom) + c then FALSE
    else UNDEFINED
  }

  /** Two instantiated variables with `x = y + c`, and only those, admit no pair satisfying the constraint. */
  lemma EntailmentFalse(x: IntVar, y: IntVar, c: int)
    requires WellFormed(x) && WellFormed(y)
    ensures !Satisfiable(x.dom, y.dom, c)
        <==> !HullsApart(x.dom, y.dom, c) && IsInstantiated(x.dom) && IsInstantiated(y.dom) && LB(x.dom) == LB(y.dom) + c
  {
    if !Satisfiable(x.dom, y.dom, c) {
      UnsatisfiableShape(x.dom, y.dom, c);
      assert InHull(x.dom, LB(x.dom)) && InHull(y.dom, LB(y.dom));
    } else if IsInstantiated(x.dom) && IsInstantiated(y.dom) {
      InstantiatedIsSingleton(x.dom);
      InstantiatedIsSingleton(y.dom);
    }
  }

  /** A TRUE answer is sound: every pair of values satisfies the constraint. */
  lemma EntailedSound(x: IntVar, y: IntVar, c: int)
    requires WellFormed(x) && WellFormed(y) && IsEntailed(x, y, c) == TRUE
    ensures Satisfied(x.dom, y.dom, c)
  {
    forall a, b | a in x.dom && b in y.dom ensures a != b + c {
      assert InHull(x.dom, a) && InHull(y.dom, b);
    }
  }

  /** On two bounded variables the answer TRUE is also complete. */
  lemma EntailedOnIntervals(x: IntVar, y: IntVar, c: int)
    requires WellFormed(x) && WellFormed(y) && !x.enumerated && !y.enumerated
    ensures IsEntailed(x, y, c) == TRUE <==> Satisfied(x.dom, y.dom, c)
  {
    if IsEntailed(x, y, c) == TRUE {
      EntailedSound(x, y, c);
    }
  }

  /** On enumerated domains with holes the answer can be UNDEFINED although every pair satisfies the constraint. */
  lemma EntailedMissesHoles()
    ensures IsEntailed(IntVar({1, 3}, true), IntVar({2}, true), 0) == UNDEFINED
    ensures Satisfied({1, 3}, {2}, 0)
  {
    assert LB({1, 3}) == 1 && UB({1, 3}) == 3 && LB({2}) == 2 && UB({2}) == 2;
    assert InHull({1, 3}, 2) && InHull({2}, 2);
  }

  /** `IntEventType` masks: instantiation only, or bound changes and instantiation. */
  datatype EventMask = Instantiation | BoundAndInst

  /** The events of one variable: instantiation, a raised lower bound, a lowered upper bound, a removed value. */
  datatype Event = Instantiate | IncLow | DecUpp | Remove

  /** The events a mask reacts to. */
  predicate Wakes(m: EventMask, e: Event)
  {
    e == Instantiate || (m == BoundAndInst && (e == IncLow || e == DecUpp))
  }

  /**
   * `getPropagationConditions(vIdx)`: a variable with an enumerated domain
   * wakes the propagator on instantiation only, a bounded one also on
   * bound changes; removals of inner values never wake it.
   */
  function PropagationConditions(v: IntVar): (r: EventMask)
    ensures forall e :: Wakes(r, e) <==> e == Instantiate || (!v.enumerated && (e == IncLow || e == DecUpp))
  {
    if v.enumerated then Instantiation else BoundAndInst
  }

  /** The propagator: the constant `c` and its passive state. */
  class PropNotEqualXYC {
    const cste: int
    var passive: bool

    /** A new propagator is active. */
    constructor (c: int)
      ensures cste == c && !passive
    {
      cste := c;
      passive := false;
    }

    /**
     * `propagate()`: the domains become those of `Propagation`, a failure
     * is the `ContradictionException`, and `setPassive` is the passive flag.
     */
    method Propagate(x: IntVar, y: IntVar) returns (r: Outcome<(IntVar, IntVar)>)
      requires WellFormed(x) && WellFormed(y)
      modifies this`passive
      ensures r == Contradiction <==> Propagation(x, y, cste) == Contradiction
      ensures r.Done? ==> r.value.0 == Propagation(x, y, cste).value.x && r.value.1 == Propagation(x, y, cste).value.y
      ensures passive <==> old(passive) || (r.Done? && Propagation(x, y, cste).value.passive)
    {
      var o := Propagation(x, y, cste);
      if o.Contradiction? {
        return Contradiction;
      }
      if o.value.passive {
        passive := true;
      }
      r := Done((o.value.x, o.value.y));
    }
  }
}

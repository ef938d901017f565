/** Reachability in a finite directed graph given as its set of arrows.

    Every walk of the directory (down child edges, up parent edges, through nested
    groups) is stated against these definitions, so that one notion of "reachable"
    serves the whole project. `Steps` counts arrows, because nested groups are explored to a
    depth and because walks are compared by length; `Reach`, `Beyond` and `Within` forget the count.
    Acyclic means that no arrow leads back to where it started from.
  */
module Graph {

  /** There is a walk of exactly `n` arrows from `x` to `y`. */
  ghost predicate Steps<T(!new)>(r: set<(T, T)>, n: nat, x: T, y: T)
  {
    if n == 0 then x == y else exists z :: (x, z) in r && Steps(r, n - 1, z, y)
  }

  /** `y` is `x` itself or lies somewhere beyond it. */
  ghost predicate Reach<T(!new)>(r: set<(T, T)>, x: T, y: T)
  {
    exists n: nat :: Steps(r, n, x, y)
  }

  /** `y` lies beyond `x` by at least one arrow. */
  ghost predicate Beyond<T(!new)>(r: set<(T, T)>, x: T, y: T)
  {
    exists z :: (x, z) in r && Reach(r, z, y)
  }

  ghost predicate Within<T(!new)>(r: set<(T, T)>, cap: nat, x: T, y: T)
  {
    exists n: nat :: n <= cap && Steps(r, n, x, y)
  }

  ghost predicate Acyclic<T(!new)>(r: set<(T, T)>)
  {
    forall x, y :: (x, y) in r ==> !Reach(r, y, x)
  }

  ghost predicate Closed<T(!new)>(r: set<(T, T)>, s: set<T>)
  {
    forall x, y :: (x, y) in r && x in s ==> y in s
  }

  function Reverse<T(==)>(r: set<(T, T)>): set<(T, T)>
  {
    set a | a in r :: (a.1, a.0)
  }

  lemma ReachRefl<T(!new)>(r: set<(T, T)>, x: T)
    ensures Reach(r, x, x)
  {
    assert Steps(r, 0, x, x);
  }

  lemma ReachCons<T(!new)>(r: set<(T, T)>, x: T, z: T, y: T)
    requires (x, z) in r && Reach(r, z, y)
    ensures Reach(r, x, y)
  {
    var n: nat :| Steps(r, n, z, y);
    assert Steps(r, n + 1, x, y);
  }

  lemma {:induction false} StepsConcat<T(!new)>(r: set<(T, T)>, m: nat, n: nat, x: T, y: T, z: T)
    requires Steps(r, m, x, y) && Steps(r, n, y, z)
    ensures Steps(r, m + n, x, z)
    decreases m
  {
    if m > 0 {
      var w :| (x, w) in r && Steps(r, m - 1, w, y);
      StepsConcat(r, m - 1, n, w, y, z);
    }
  }

  lemma ReachTrans<T(!new)>(r: set<(T, T)>, x: T, y: T, z: T)
    requires Reach(r, x, y) && Reach(r, y, z)
    ensures Reach(r, x, z)
  {
    var m: nat :| Steps(r, m, x, y);
    var n: nat :| Steps(r, n, y, z);
    StepsConcat(r, m, n, x, y, z);
  }

  lemma ReachSnoc<T(!new)>(r: set<(T, T)>, x: T, y: T, z: T)
    requires Reach(r, x, y) && (y, z) in r
    ensures Reach(r, x, z)
  {
    ReachRefl(r, z);
    ReachCons(r, y, z, z);
    ReachTrans(r, x, y, z);
  }

  lemma StepsSnoc<T(!new)>(r: set<(T, T)>, n: nat, x: T, y: T, z: T)
    requires Steps(r, n, x, y) && (y, z) in r
    ensures Steps(r, n + 1, x, z)
  {
    assert Steps(r, 0, z, z);
    assert Steps(r, 1, y, z);
    StepsConcat(r, n, 1, x, y, z);
  }

  /** The last arrow of a walk. */
  lemma {:induction false} StepsUnsnoc<T(!new)>(r: set<(T, T)>, n: nat, x: T, z: T) returns (y: T)
    requires n > 0 && Steps(r, n, x, z)
    ensures Steps(r, n - 1, x, y) && (y, z) in r
    decreases n
  {
    var w :| (x, w) in r && Steps(r, n - 1, w, z);
    if n == 1 {
      y := x;
    } else {
      y := StepsUnsnoc(r, n - 1, w, z);
    }
  }

  lemma BeyondUnsnoc<T(!new)>(r: set<(T, T)>, x: T, z: T) returns (y: T)
    requires Beyond(r, x, z)
    ensures Reach(r, x, y) && (y, z) in r
  {
    var w :| (x, w) in r && Reach(r, w, z);
    var n: nat :| Steps(r, n, w, z);
    assert Steps(r, n + 1, x, z);
    y := StepsUnsnoc(r, n + 1, x, z);
  }

  lemma ReachSplit<T(!new)>(r: set<(T, T)>, x: T, y: T)
    ensures Reach(r, x, y) <==> x == y || Beyond(r, x, y)
  {
    if Reach(r, x, y) && x != y {
      var n: nat :| Steps(r, n, x, y);
      var z :| (x, z) in r && Steps(r, n - 1, z, y);
      assert Reach(r, z, y);
    }
    if x == y {
      ReachRefl(r, x);
    } else if Beyond(r, x, y) {
      var z :| (x, z) in r && Reach(r, z, y);
      ReachCons(r, x, z, y);
    }
  }

  lemma {:induction false} ClosedSteps<T(!new)>(r: set<(T, T)>, s: set<T>, n: nat, x: T, y: T)
    requires Closed(r, s) && x in s && Steps(r, n, x, y)
    ensures y in s
    decreases n
  {
    if n > 0 {
      var z :| (x, z) in r && Steps(r, n - 1, z, y);
      ClosedSteps(r, s, n - 1, z, y);
    }
  }

  /** Nothing outside a closed set is reachable from inside it. */
  lemma ClosedReach<T(!new)>(r: set<(T, T)>, s: set<T>, x: T, y: T)
    requires Closed(r, s) && x in s && Reach(r, x, y)
    ensures y in s
  {
    var n: nat :| Steps(r, n, x, y);
    ClosedSteps(r, s, n, x, y);
  }

  /** A walk that leaves `s` leaves it through one particular arrow. */
  lemma {:induction false} ExitStep<T(!new)>(r: set<(T, T)>, s: set<T>, n: nat, x: T, y: T) returns (a: T, b: T)
    requires x in s && y !in s && Steps(r, n, x, y)
    ensures a in s && b !in s && (a, b) in r && Reach(r, x, a) && Reach(r, b, y)
    decreases n
  {
    var z :| (x, z) in r && Steps(r, n - 1, z, y);
    if z in s {
      a, b := ExitStep(r, s, n - 1, z, y);
      ReachCons(r, x, z, a);
    } else {
      a, b := x, z;
      ReachRefl(r, x);
      assert Reach(r, z, y);
    }
  }

  lemma Exit<T(!new)>(r: set<(T, T)>, s: set<T>, x: T, y: T) returns (a: T, b: T)
    requires x in s && y !in s && Reach(r, x, y)
    ensures a in s && b !in s && (a, b) in r && Reach(r, x, a) && Reach(r, b, y)
  {
    var n: nat :| Steps(r, n, x, y);
    a, b := ExitStep(r, s, n, x, y);
  }

  lemma {:induction false} StepsMono<T(!new)>(r: set<(T, T)>, r': set<(T, T)>, n: nat, x: T, y: T)
    requires r <= r' && Steps(r, n, x, y)
    ensures Steps(r', n, x, y)
    decreases n
  {
    if n > 0 {
      var z :| (x, z) in r && Steps(r, n - 1, z, y);
      StepsMono(r, r', n - 1, z, y);
    }
  }

  lemma ReachMono<T(!new)>(r: set<(T, T)>, r': set<(T, T)>, x: T, y: T)
    requires r <= r' && Reach(r, x, y)
    ensures Reach(r', x, y)
  {
    var n: nat :| Steps(r, n, x, y);
    StepsMono(r, r', n, x, y);
  }

  lemma AcyclicMono<T(!new)>(r: set<(T, T)>, r': set<(T, T)>)
    requires r <= r' && Acyclic(r')
    ensures Acyclic(r)
  {
    forall x, y | (x, y) in r
      ensures !Reach(r, y, x)
    {
      if Reach(r, y, x) {
        ReachMono(r, r', y, x);
      }
    }
  }

  lemma {:induction false} StepsReverse<T(!new)>(r: set<(T, T)>, n: nat, x: T, y: T)
    requires Steps(r, n, x, y)
    ensures Steps(Reverse(r), n, y, x)
    decreases n
  {
    if n > 0 {
      var z :| (x, z) in r && Steps(r, n - 1, z, y);
      StepsReverse(r, n - 1, z, y);
      assert (z, x) in Reverse(r);
      StepsSnoc(Reverse(r), n - 1, y, z, x);
    }
  }

  /** A walk that may use the extra arrow `p -> c` either avoids it or factors through it. */
  lemma {:induction false} StepsThroughNew<T(!new)>(r: set<(T, T)>, p: T, c: T, n: nat, x: T, y: T)
    requires Steps(r + {(p, c)}, n, x, y)
    ensures Reach(r, x, y) || (Reach(r, x, p) && Reach(r, c, y))
    decreases n
  {
    if n == 0 {
      ReachRefl(r, x);
    } else {
      var z :| (x, z) in r + {(p, c)} && Steps(r + {(p, c)}, n - 1, z, y);
      StepsThroughNew(r, p, c, n - 1, z, y);
      if (x, z) in r {
        if Reach(r, z, y) {
          ReachCons(r, x, z, y);
        } else {
          ReachCons(r, x, z, p);
        }
      } else {
        ReachRefl(r, x);
      }
    }
  }

  /** Adding `p -> c` to an acyclic graph keeps it acyclic exactly when `p` is not at or below `c`. */
  lemma AddArrowAcyclic<T(!new)>(r: set<(T, T)>, p: T, c: T)
    requires Acyclic(r)
    ensures Acyclic(r + {(p, c)}) <==> !Reach(r, c, p)
  {
    var r' := r + {(p, c)};
    if Reach(r, c, p) {
      ReachMono(r, r', c, p);
      assert (p, c) in r';
    } else {
      forall x, y | (x, y) in r'
        ensures !Reach(r', y, x)
      {
        if Reach(r', y, x) {
          var n: nat :| Steps(r', n, y, x);
          StepsThroughNew(r, p, c, n, y, x);
          if (x, y) in r {
            assert !Reach(r, y, x);
            ReachCons(r, x, y, p);
            ReachTrans(r, c, x, p);
          }
        }
      }
    }
  }

  /** If some number strictly grows along every arrow, walks are no longer than its range and no cycle exists. */
  lemma {:induction false} RankedSteps<T(!new)>(r: set<(T, T)>, rank: T -> int, n: nat, x: T, y: T)
    requires forall a, b :: (a, b) in r ==> rank(a) < rank(b)
    requires Steps(r, n, x, y)
    ensures rank(x) + n <= rank(y)
    decreases n
  {
    if n > 0 {
      var z :| (x, z) in r && Steps(r, n - 1, z, y);
      RankedSteps(r, rank, n - 1, z, y);
    }
  }

  /** A quantity that falls by `drop` at most along every arrow falls by `n * drop` at most over `n`. */
  lemma {:induction false} BoundedSteps<T(!new)>(r: set<(T, T)>, f: T -> int, drop: nat, n: nat, x: T, y: T)
    requires forall a, b :: (a, b) in r ==> f(b) >= f(a) - drop
    requires Steps(r, n, x, y)
    ensures f(y) >= f(x) - n * drop
    decreases n
  {
    if n > 0 {
      var z :| (x, z) in r && Steps(r, n - 1, z, y);
      BoundedSteps(r, f, drop, n - 1, z, y);
      assert (n - 1) * drop == n * drop - drop;
    }
  }

  lemma StepBefore<T(!new)>(r: set<(T, T)>, r': set<(T, T)>, n: nat, x: T, y: T, z: T)
    requires r <= r' && (x, y) in r' && Steps(r, n, y, z)
    ensures Steps(r', n + 1, x, z)
  {
    StepsMono(r, r', n, y, z);
  }

  /** Graphs that only grow, each with an arrow from a new point to the one before: the points form a chain. */
  lemma {:induction false} GrowingChain<T(!new)>(r: nat -> set<(T, T)>, at: nat -> T, n: nat)
    requires forall k: nat :: r(k) <= r(k + 1) && (at(k + 1), at(k)) in r(k + 1)
    ensures Steps(r(n), n, at(n), at(0))
    decreases n
  {
    if n > 0 {
      GrowingChain(r, at, n - 1);
      StepBefore(r(n - 1), r(n), n - 1, at(n), at(n - 1), at(0));
    }
  }

  lemma RankedAcyclic<T(!new)>(r: set<(T, T)>, rank: T -> int)
    requires forall a, b :: (a, b) in r ==> rank(a) < rank(b)
    ensures Acyclic(r)
  {
    forall x, y | (x, y) in r
      ensures !Reach(r, y, x)
    {
      if Reach(r, y, x) {
        var n: nat :| Steps(r, n, y, x);
        RankedSteps(r, rank, n, y, x);
      }
    }
  }
}

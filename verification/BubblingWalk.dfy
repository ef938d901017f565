/** The memoised walk without a `truncated` flag, as `getTags` and the scheduler's
    `bubbledEnvironment` have it: every finished visit is cached, whatever the cycle guard cut off.

    What it computes is a fold. `has` says what a folded value carries, so that one account
    of the walk serves sets of tags and strongest-environment strings alike.
  */
module BubblingWalk {
  import opened Graph
  import opened Directory
  import opened ResourceGraph

  ghost predicate NoTwoCycle<T(!new)>(r: set<(T, T)>)
  {
    forall a, b :: Reach(r, a, b) && Reach(r, b, a) ==> a == b
  }

  lemma AcyclicHasNoTwoCycle<T(!new)>(r: set<(T, T)>)
    requires Acyclic(r)
    ensures NoTwoCycle(r)
  {
    forall a, b | Reach(r, a, b) && Reach(r, b, a)
      ensures a == b
    {
      if a != b {
        ReachSplit(r, a, b);
        var z :| (a, z) in r && Reach(r, z, b);
        ReachTrans(r, z, b, a);
      }
    }
  }

  /** A walk from `x` can be cut short so that it leaves `x` for good with its first arrow. */
  lemma {:induction false} LeaveOnce<T(!new)>(r: set<(T, T)>, n: nat, x: T, y: T) returns (c: T)
    requires Steps(r, n, x, y) && x != y
    ensures c != x && (x, c) in r && Reach(r, c, y)
    decreases n
  {
    var z :| (x, z) in r && Steps(r, n - 1, z, y);
    if z == x {
      c := LeaveOnce(r, n - 1, x, y);
    } else {
      c := z;
      assert Reach(r, z, y);
    }
  }

  datatype Fold<!T(!new), !I(!new)> = Fold(
    resources: seq<Resource>,
    edges: seq<Edge>,
    own: Resource -> T,
    none: T,
    join: (T, T) -> T,
    has: (T, I) -> bool)
  {
    ghost predicate Lawful()
    {
      && (forall i :: !has(none, i))
      && (forall a, b, i :: has(join(a, b), i) <==> has(a, i) || has(b, i))
    }

    ghost function Below(): set<(Id, Id)>
    {
      Live(resources, edges)
    }

    predicate OwnHas(id: Id, i: I)
    {
      match Find(resources, id)
      case None => false
      case Some(r) => has(own(r), i)
    }

    /** Whatever `v` carries, some row of `within` at or below `id` carries itself. */
    ghost predicate Sound(v: T, id: Id, within: set<Id>)
    {
      forall i :: has(v, i) ==> exists y :: y in within && Reach(Below(), id, y) && OwnHas(y, i)
    }

    /** `v` carries whatever any row at or below `id` carries. */
    ghost predicate Complete(v: T, id: Id)
    {
      forall y, i :: Reach(Below(), id, y) && OwnHas(y, i) ==> has(v, i)
    }

    ghost predicate AllSound(cache: map<Id, T>, within: set<Id>)
    {
      forall x :: x in cache ==> x in Ids(resources) && Sound(cache[x], x, within)
    }

    ghost predicate AllComplete(cache: map<Id, T>)
    {
      forall x :: x in cache ==> Complete(cache[x], x)
    }

    /** The rows being visited right now: seen by the traversal but not finished. */
    ghost function Open(visited: set<Id>, cache: map<Id, T>): set<Id>
    {
      visited * Ids(resources) - cache.Keys
    }

    ghost predicate ChildrenCached(cache: map<Id, T>, open: set<Id>)
    {
      forall x, c :: x in cache && (x, c) in Below() && c in Ids(resources) ==> c in cache || c in open
    }

    lemma SoundStep(v: T, w: T, id: Id, c: Id, within: set<Id>, within': set<Id>)
      requires Lawful() && (id, c) in Below() && within <= within'
      requires Sound(v, id, within) && Sound(w, c, within')
      ensures Sound(join(v, w), id, within')
    {
      forall i | has(join(v, w), i)
        ensures exists y :: y in within' && Reach(Below(), id, y) && OwnHas(y, i)
      {
        if has(w, i) {
          var y :| y in within' && Reach(Below(), c, y) && OwnHas(y, i);
          ReachCons(Below(), id, c, y);
        }
      }
    }

    lemma SoundMono(v: T, id: Id, within: set<Id>, within': set<Id>)
      requires Sound(v, id, within) && within <= within'
      ensures Sound(v, id, within')
    {
    }

    ghost predicate SoundUpTo(out: seq<T>, rows: seq<Resource>, n: nat)
      requires n == |out| <= |rows|
    {
      forall k :: 0 <= k < n ==> Sound(out[k], rows[k].id, Ids(resources))
    }

    ghost predicate CompleteRows(out: seq<T>, rows: seq<Resource>, n: nat)
      requires n == |out| <= |rows|
    {
      forall k :: 0 <= k < n ==> Complete(out[k], rows[k].id)
    }

    lemma RowsStep(out: seq<T>, rows: seq<Resource>, n: nat, v: T, within: set<Id>)
      requires n == |out| < |rows| && within <= Ids(resources)
      requires SoundUpTo(out, rows, n) && Sound(v, rows[n].id, within)
      ensures SoundUpTo(out + [v], rows, n + 1)
      ensures CompleteRows(out, rows, n) && Complete(v, rows[n].id) ==> CompleteRows(out + [v], rows, n + 1)
    {
      SoundMono(v, rows[n].id, within, Ids(resources));
    }

    ghost predicate OwnIn(v: T, id: Id)
    {
      forall i :: OwnHas(id, i) ==> has(v, i)
    }

    ghost predicate CompleteUpTo(v: T, id: Id, children: seq<Id>, n: nat)
      requires n <= |children|
    {
      forall j :: 0 <= j < n && children[j] != id ==> Complete(v, children[j])
    }

    lemma CompleteJoin(v: T, w: T, id: Id)
      requires Lawful() && (Complete(v, id) || Complete(w, id))
      ensures Complete(join(v, w), id)
    {
    }

    lemma CompleteStep(v: T, w: T, id: Id, children: seq<Id>, n: nat)
      requires Lawful() && n < |children| && CompleteUpTo(v, id, children, n)
      requires children[n] == id || Complete(w, children[n])
      ensures CompleteUpTo(join(v, w), id, children, n + 1)
    {
      forall j | 0 <= j <= n && children[j] != id
        ensures Complete(join(v, w), children[j])
      {
        CompleteJoin(v, w, children[j]);
      }
    }

    lemma CompleteDone(v: T, id: Id, children: seq<Id>)
      requires OwnIn(v, id) && CompleteUpTo(v, id, children, |children|)
      requires forall c :: (id, c) in Below() ==> c in children
      ensures Complete(v, id)
    {
      forall y, i | Reach(Below(), id, y) && OwnHas(y, i)
        ensures has(v, i)
      {
        if y != id {
          var n: nat :| Steps(Below(), n, id, y);
          var c := LeaveOnce(Below(), n, id, y);
          var j :| 0 <= j < |children| && children[j] == c;
        }
      }
    }

    /** How far a visit of `id` has come after `n` children, having folded them into `value`. */
    ghost predicate Progress(id: Id, children: seq<Id>, n: nat, open: set<Id>, cache: map<Id, T>, value: T)
    {
      && n <= |children|
      && id !in cache && id in open
      && AllSound(cache, cache.Keys)
      && ChildrenCached(cache, open)
      && (forall j :: 0 <= j < n && children[j] in Ids(resources) ==> children[j] in cache || children[j] in open)
      && Sound(value, id, cache.Keys + {id})
      && OwnIn(value, id)
    }

    lemma ProgressStep(id: Id, children: seq<Id>, n: nat, open: set<Id>, cache: map<Id, T>, value: T,
                       child: T, cache': map<Id, T>)
      requires Lawful() && n < |children| && (id, children[n]) in Below()
      requires Progress(id, children, n, open, cache, value)
      requires Extends(cache', cache) && id !in cache' && AllSound(cache', cache'.Keys) && ChildrenCached(cache', open)
      requires children[n] in Ids(resources) ==> children[n] in cache' || children[n] in open
      requires Sound(child, children[n], cache'.Keys)
      ensures Progress(id, children, n + 1, open, cache', join(value, child))
    {
      assert cache.Keys <= cache'.Keys;
      assert forall y :: y in cache'.Keys ==> y in cache'.Keys + {id};
      SoundStep(value, child, id, children[n], cache.Keys + {id}, cache'.Keys + {id});
    }

    lemma ProgressDone(id: Id, children: seq<Id>, open: set<Id>, cache: map<Id, T>, value: T)
      requires Progress(id, children, |children|, open, cache, value) && id in Ids(resources)
      requires forall c :: (id, c) in Below() ==> c in children
      ensures AllSound(cache[id := value], cache.Keys + {id})
      ensures ChildrenCached(cache[id := value], open - {id})
      ensures AllSound(cache, (cache.Keys + {id}) - {id})
    {
      assert (cache.Keys + {id}) - {id} == cache.Keys;
    }

    /** May a visit of `id` count on being exact? */
    ghost predicate Hopeful(id: Id, open: set<Id>, cache: map<Id, T>)
    {
      NoTwoCycle(Below()) && AllComplete(cache) && forall s :: s in open ==> Reach(Below(), s, id)
    }

    /** What one visit of `id` does to the traversal and the cache, and what it returns. */
    ghost predicate Visits(id: Id, visited0: set<Id>, cache0: map<Id, T>, value: T, visited: set<Id>, cache: map<Id, T>)
    {
      var open := Open(visited0, cache0);
      && visited0 <= visited && Extends(cache, cache0)
      && Open(visited, cache) == open
      && AllSound(cache, cache.Keys)
      && ChildrenCached(cache, open)
      && (id in Ids(resources) ==> id in cache || id in visited0)
      && Sound(value, id, cache.Keys)
      && (id in cache0 ==> value == cache0[id] && cache == cache0)
      && (id in cache0 || id in visited0 || AllSound(cache - {id}, cache.Keys - {id}))
      && (Hopeful(id, open, cache0) ==> AllComplete(cache) && (id in open || Complete(value, id)))
    }

    /** A visit of `id` after `n` of its children. */
    ghost predicate Underway(id: Id, children: seq<Id>, n: nat, visited0: set<Id>, cache0: map<Id, T>,
                             visited: set<Id>, cache: map<Id, T>, value: T)
    {
      var open := Open(visited0, cache0);
      && visited0 + {id} <= visited && Extends(cache, cache0)
      && Open(visited, cache) == open + {id}
      && Progress(id, children, n, open + {id}, cache, value)
      && (Hopeful(id, open, cache0) ==> AllComplete(cache) && CompleteUpTo(value, id, children, n))
    }

    lemma UnderwayStep(id: Id, children: seq<Id>, n: nat, visited0: set<Id>, cache0: map<Id, T>,
                       visited: set<Id>, cache: map<Id, T>, value: T, child: T, visited': set<Id>, cache': map<Id, T>)
      requires Lawful() && n < |children| && (id, children[n]) in Below()
      requires Underway(id, children, n, visited0, cache0, visited, cache, value)
      requires Visits(children[n], visited, cache, child, visited', cache')
      ensures Underway(id, children, n + 1, visited0, cache0, visited', cache', join(value, child))
    {
      var open := Open(visited0, cache0);
      assert id in Open(visited', cache');
      ProgressStep(id, children, n, open + {id}, cache, value, child, cache');
      if Hopeful(id, open, cache0) {
        ReachRefl(Below(), id);
        OpenReachesChild(open + {id}, id, children[n]);
        CompleteStep(value, child, id, children, n);
      }
    }

    lemma UnderwayDone(id: Id, children: seq<Id>, visited0: set<Id>, cache0: map<Id, T>,
                       visited: set<Id>, cache: map<Id, T>, value: T)
      requires Underway(id, children, |children|, visited0, cache0, visited, cache, value)
      requires id in Ids(resources) && id !in visited0 && forall c :: (id, c) in Below() ==> c in children
      ensures Visits(id, visited0, cache0, value, visited, cache[id := value])
    {
      var open := Open(visited0, cache0);
      ProgressDone(id, children, open + {id}, cache, value);
      assert open + {id} - {id} == open;
      assert cache[id := value] - {id} == cache;
      assert cache[id := value].Keys == cache.Keys + {id};
      if Hopeful(id, open, cache0) {
        CompleteDone(value, id, children);
      }
    }

    lemma OpenReachesChild(open: set<Id>, id: Id, child: Id)
      requires NoTwoCycle(Below()) && (id, child) in Below()
      requires forall s :: s in open ==> Reach(Below(), s, id)
      ensures forall s :: s in open ==> Reach(Below(), s, child)
      ensures child in open ==> child == id
    {
      forall s | s in open
        ensures Reach(Below(), s, child)
      {
        ReachSnoc(Below(), s, id, child);
      }
      ReachRefl(Below(), child);
      ReachCons(Below(), id, child, child);
    }

    lemma VisitsAtOnce(id: Id, visited0: set<Id>, cache: map<Id, T>)
      requires Lawful() && AllSound(cache, cache.Keys) && ChildrenCached(cache, Open(visited0, cache))
      ensures id in cache ==> Visits(id, visited0, cache, cache[id], visited0, cache)
      ensures id !in cache && id in visited0 ==> Visits(id, visited0, cache, none, visited0, cache)
      ensures id !in cache && id !in visited0 && id !in Ids(resources)
          ==> Visits(id, visited0, cache, none, visited0 + {id}, cache)
    {
      assert cache - {id} == cache || id in cache;
      if id !in Ids(resources) {
        MissingIsComplete(id);
        assert Open(visited0 + {id}, cache) == Open(visited0, cache);
      }
    }

    lemma MissingIsComplete(id: Id)
      requires id !in Ids(resources)
      ensures Complete(none, id)
    {
      FoundIffKnown(resources, id);
      forall y | Reach(Below(), id, y)
        ensures y == id
      {
        ReachSplit(Below(), id, y);
      }
    }

    /** What `b` was cached with while `a` was being visited lacks what only `a` carries. */
    lemma LateMisses(cache: map<Id, T>, a: Id, b: Id, i: I)
      requires Lawful() && a in cache && a != b && Reach(Below(), a, b) && b in Ids(resources)
      requires ChildrenCached(cache, {}) && AllSound(cache - {a}, cache.Keys - {a})
      requires forall y :: OwnHas(y, i) <==> y == a
      ensures b in cache && !has(cache[b], i)
    {
      var n: nat :| Steps(Below(), n, a, b);
      BelowCached(cache, n, a, b);
      assert b in cache - {a};
      assert Sound((cache - {a})[b], b, cache.Keys - {a});
    }

    lemma MissingIsIncomplete(v: T, a: Id, b: Id, i: I)
      requires Reach(Below(), b, a) && OwnHas(a, i) && !has(v, i)
      ensures !Complete(v, b)
    {
    }

    /** From a finished row, every existing row below it is finished. */
    lemma {:induction false} BelowCached(cache: map<Id, T>, n: nat, x: Id, y: Id)
      requires ChildrenCached(cache, {}) && x in cache && y in Ids(resources) && Steps(Below(), n, x, y)
      ensures y in cache
      decreases n
    {
      if n > 0 {
        var z :| (x, z) in Below() && Steps(Below(), n - 1, z, y);
        if n > 1 {
          var w :| (z, w) in Below() && Steps(Below(), n - 2, w, y);
        }
        BelowCached(cache, n - 1, z, y);
      }
    }
  }

  class Bubbler<T(!new), I(!new)> {
    const fold: Fold<T, I>
    const childIndex: map<Id, seq<Id>>
    var cache: map<Id, T>

    constructor (fold: Fold<T, I>, childIndex: map<Id, seq<Id>>)
      requires fold.Lawful() && Indexes(childIndex, fold.edges, ToChildren)
      ensures Settled() && this.fold == fold && cache == map[]
    {
      this.fold, this.childIndex, this.cache := fold, childIndex, map[];
    }

    /** What holds at any moment, also in the middle of a traversal. */
    ghost predicate Valid()
      reads this
    {
      && fold.Lawful() && Indexes(childIndex, fold.edges, ToChildren)
      && fold.AllSound(cache, cache.Keys)
    }

    /** What holds between traversals: nothing cached was made up, the cache is closed under children,
        and if no two rows are below each other it is exact. */
    ghost predicate Settled()
      reads this
    {
      && Valid()
      && fold.ChildrenCached(cache, {})
      && (NoTwoCycle(fold.Below()) ==> fold.AllComplete(cache))
    }

    /** One call of the recursive walk, `visited` being the set shared by the whole traversal. */
    method Visit(id: Id, visited0: set<Id>) returns (value: T, visited: set<Id>)
      requires Valid() && fold.ChildrenCached(cache, fold.Open(visited0, cache))
      modifies this
      ensures Valid() && fold.Visits(id, visited0, old(cache), value, visited, cache)
      decreases Ids(fold.resources) - visited0
    {
      visited := visited0;
      FoundIffKnown(fold.resources, id);
      fold.VisitsAtOnce(id, visited0, cache);
      if id in cache { return cache[id], visited; }
      if id in visited { return fold.none, visited; }
      visited := visited + {id};
      var row := Find(fold.resources, id);
      if row == None { return fold.none, visited; }
      IndexedArrows(childIndex, fold.edges, ToChildren, id);
      ReachRefl(fold.Below(), id);
      value := fold.own(row.value);
      var children := Lookup(childIndex, id);
      var n := 0;
      assert fold.Open(visited, cache) == fold.Open(visited0, cache) + {id};
      while n < |children|
        invariant fold.Underway(id, children, n, visited0, old(cache), visited, cache, value)
      {
        ghost var seen, known := visited, cache;
        assert (id, children[n]) in fold.Below();
        var child;
        child, visited := Visit(children[n], visited);
        fold.UnderwayStep(id, children, n, visited0, old(cache), seen, known, value, child, visited, cache);
        value := fold.join(value, child);
        n := n + 1;
      }
      fold.UnderwayDone(id, children, visited0, old(cache), visited, cache, value);
      cache := cache[id := value];
    }

    /** A top-level walk, in whatever order rows are asked for. */
    method Get(id: Id) returns (value: T)
      requires Settled()
      modifies this
      ensures Settled() && Extends(cache, old(cache))
      ensures fold.Sound(value, id, cache.Keys)
      ensures NoTwoCycle(fold.Below()) ==> fold.Complete(value, id)
      ensures id in Ids(fold.resources) ==> id in cache
      ensures id !in old(cache) ==> fold.AllSound(cache - {id}, cache.Keys - {id})
    {
      assert fold.Open({}, cache) == {};
      var visited;
      value, visited := Visit(id, {});
    }

    /** The walk asked for every row in turn. */
    method GetAll(resources: seq<Resource>) returns (out: seq<T>)
      requires Settled()
      modifies this
      ensures Settled() && |out| == |resources|
      ensures forall k :: 0 <= k < |out| ==> fold.Sound(out[k], resources[k].id, Ids(fold.resources))
      ensures NoTwoCycle(fold.Below()) ==> forall k :: 0 <= k < |out| ==> fold.Complete(out[k], resources[k].id)
    {
      out := [];
      ghost var hopeful := NoTwoCycle(fold.Below());
      for n := 0 to |resources|
        invariant Settled() && |out| == n
        invariant fold.SoundUpTo(out, resources, n) && (hopeful ==> fold.CompleteRows(out, resources, n))
      {
        var value := Get(resources[n].id);
        fold.RowsStep(out, resources, n, value, cache.Keys);
        out := out + [value];
      }
    }

    /** Two rows below each other: the one asked for second misses what only the first one carries. */
    method AskBoth(a: Id, b: Id, ghost i: I) returns (first: T, second: T)
      requires Settled() && cache == map[]
      requires a != b && Reach(fold.Below(), a, b) && Reach(fold.Below(), b, a)
      requires forall y :: fold.OwnHas(y, i) <==> y == a
      modifies this
      ensures !fold.has(second, i) && !fold.Complete(second, b)
    {
      ReachSplit(fold.Below(), a, b);
      ReachSplit(fold.Below(), b, a);
      first := Get(a);
      fold.LateMisses(cache, a, b, i);
      var visited;
      second, visited := Visit(b, {});
      assert second == cache[b];
      fold.MissingIsIncomplete(second, a, b, i);
    }
  }
}

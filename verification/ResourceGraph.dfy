/** Values that bubble up the resource graph: the memoised depth-first walks behind
    `bubbled_environment` and `bubbled_status`, which carry a `truncated` flag so that a result cut
    short by the cycle guard is not cached.

    The graph may be cyclic and its edges may name rows that do not exist. A walk goes on
    only through rows that exist, so "below" means reachable through those.
  */
module ResourceGraph {
  import opened Graph
  import opened Directory

  /** The child edges a downward walk follows: those that leave an existing row. */
  ghost function Live(resources: seq<Resource>, edges: seq<Edge>): set<(Id, Id)>
  {
    set a | a in Arrows(edges, ToChildren) && a.0 in Ids(resources)
  }

  const ENV_RANK: map<string, nat> := map["prod" := 3, "testing" := 2, "dev" := 1]

  const STATUS_RANK: map<string, nat> :=
    map["critical" := 4, "error" := 4, "warning" := 3, "unknown" := 2, "ok" := 1]

  /** What a rolled-up value is and which row is responsible for it. */
  datatype Rolled = Rolled(value: string, from: Option<Resource>, truncated: bool)

  type Cache = map<Id, Rolled>

  /** A graph, the value each row holds on its own account, and how strong each value is. */
  datatype View = View(resources: seq<Resource>, edges: seq<Edge>, own: Resource -> string, ranks: map<string, nat>) {

    function Rank(value: string): nat
    {
      if value in ranks then ranks[value] else 0
    }

    /** The rank a row contributes; a missing row contributes nothing. */
    function OwnRank(id: Id): nat
    {
      match Find(resources, id)
      case None => 0
      case Some(r) => Rank(own(r))
    }

    ghost function Below(): set<(Id, Id)>
    {
      Live(resources, edges)
    }

    /** Nothing at or below `id` outranks `k`. */
    ghost predicate Bounds(id: Id, k: nat)
    {
      forall y :: Reach(Below(), id, y) ==> OwnRank(y) <= k
    }

    /** `r` names a row at or below `id` that holds the value itself, or no value at all. */
    ghost predicate Witnessed(id: Id, value: string, from: Option<Resource>)
    {
      if Rank(value) == 0 then value == "" && from == None
      else
        && from.Some?
        && Reach(Below(), id, from.value.id)
        && Find(resources, from.value.id) == from
        && own(from.value) == value
    }

    /** `r` carries the strongest value at or below `id`, and a row that holds it. */
    ghost predicate Exact(id: Id, r: Rolled)
    {
      Bounds(id, Rank(r.value)) && Witnessed(id, r.value, r.from)
    }

    ghost predicate Sound(cache: Cache)
    {
      forall id :: id in cache ==> Exact(id, cache[id]) && !cache[id].truncated
    }

    /** Is `id` accounted for by a walk that has visited `visited` and so far found rank `k`? */
    ghost predicate Accounted(id: Id, visited: set<Id>, k: nat, cache: Cache)
    {
      id in visited || (id in cache && Rank(cache[id].value) <= k)
    }

    /** Every row in `done` ranks at most `k`, and all rows just below it are accounted for. */
    ghost predicate Covered(done: set<Id>, visited: set<Id>, k: nat, cache: Cache)
    {
      && (forall x :: x in done ==> OwnRank(x) <= k)
      && (forall x, c :: x in done && (x, c) in Below() ==> Accounted(c, visited, k, cache))
    }

    lemma CoveredMono(done: set<Id>, visited: set<Id>, k: nat, cache: Cache, visited': set<Id>, k': nat, cache': Cache)
      requires Covered(done, visited, k, cache) && visited <= visited' && k <= k' && Extends(cache', cache)
      ensures Covered(done, visited', k', cache')
    {
    }

    lemma CoveredSplit(a: set<Id>, b: set<Id>, visited: set<Id>, k: nat, cache: Cache)
      requires Covered(a, visited, k, cache) && Covered(b, visited, k, cache)
      ensures Covered(a + b, visited, k, cache)
    {
    }

    /** How far a visit of `id` has come after `n` children, having found `value` with rank `k` so far. */
    ghost predicate Progress(id: Id, children: seq<Id>, n: nat, done: set<Id>, visited: set<Id>, value: string,
                             from: Option<Resource>, cache: Cache)
    {
      && n <= |children|
      && Witnessed(id, value, from)
      && OwnRank(id) <= Rank(value)
      && (forall j :: 0 <= j < n ==> Accounted(children[j], visited, Rank(value), cache))
      && Covered(done, visited, Rank(value), cache)
    }

    lemma ProgressStep(id: Id, children: seq<Id>, n: nat, done: set<Id>, visited: set<Id>, value: string,
                       from: Option<Resource>, cache: Cache,
                       child: Rolled, visited': set<Id>, cache': Cache, value': string, from': Option<Resource>)
      requires n < |children| && (id, children[n]) in Below() && "" !in ranks
      requires Progress(id, children, n, done, visited, value, from, cache)
      requires visited <= visited' && Extends(cache', cache)
      requires Witnessed(children[n], child.value, child.from)
      requires Accounted(children[n], visited', Rank(child.value), cache')
      requires Covered(visited' - visited, visited', Rank(child.value), cache')
      requires if Rank(child.value) > Rank(value) then value' == child.value && from' == child.from
               else value' == value && from' == from
      ensures Progress(id, children, n + 1, done + (visited' - visited), visited', value', from', cache')
    {
      var k := Rank(value');
      WitnessBelow(id, children[n], child.value, child.from);
      CoveredMono(done, visited, Rank(value), cache, visited', k, cache');
      CoveredMono(visited' - visited, visited', Rank(child.value), cache', visited', k, cache');
      CoveredSplit(done, visited' - visited, visited', k, cache');
    }

    lemma ProgressDone(id: Id, children: seq<Id>, done: set<Id>, visited: set<Id>, value: string,
                       from: Option<Resource>, cache: Cache)
      requires Progress(id, children, |children|, done, visited, value, from, cache)
      requires forall c :: (id, c) in Below() ==> c in children
      ensures Covered(done + {id}, visited, Rank(value), cache)
    {
      forall c | (id, c) in Below()
        ensures Accounted(c, visited, Rank(value), cache)
      {
        var j :| 0 <= j < |children| && children[j] == c;
      }
    }

    ghost predicate AllBound(children: seq<Id>, n: nat, k: nat)
      requires n <= |children|
    {
      forall j :: 0 <= j < n ==> Bounds(children[j], k)
    }

    lemma AllBoundStep(children: seq<Id>, n: nat, k: nat, c: nat, k': nat)
      requires n < |children| && AllBound(children, n, k) && Bounds(children[n], c) && k <= k' && c <= k'
      ensures AllBound(children, n + 1, k')
    {
      forall j | 0 <= j <= n
        ensures Bounds(children[j], k')
      {
        assert Bounds(children[j], k) || Bounds(children[j], c);
      }
    }

    lemma AllBoundDone(id: Id, children: seq<Id>, k: nat)
      requires AllBound(children, |children|, k) && OwnRank(id) <= k
      requires forall c :: (id, c) in Below() ==> c in children
      ensures Bounds(id, k)
    {
      forall c | (id, c) in Below()
        ensures Bounds(c, k)
      {
        var j :| 0 <= j < |children| && children[j] == c;
      }
      BoundsFromChildren(id, k);
    }

    /** What one visit of `id` does to the traversal and the cache, and what it returns. */
    ghost predicate Visits(id: Id, visited0: set<Id>, cache0: Cache, result: Rolled, visited: set<Id>, cache: Cache)
    {
      && visited0 <= visited && Extends(cache, cache0) && Sound(cache)
      && Witnessed(id, result.value, result.from)
      && (!result.truncated ==> Bounds(id, Rank(result.value)))
      && Accounted(id, visited, Rank(result.value), cache)
      && Covered(visited - visited0, visited, Rank(result.value), cache)
    }

    lemma VisitsAtOnce(id: Id, visited0: set<Id>, cache: Cache)
      requires Sound(cache) && "" !in ranks
      ensures id in cache ==> Visits(id, visited0, cache, cache[id], visited0, cache)
      ensures id in visited0 ==> Visits(id, visited0, cache, Rolled("", None, true), visited0, cache)
      ensures id !in Ids(resources) ==> Visits(id, visited0, cache, Rolled("", None, false), visited0 + {id}, cache)
    {
      if id !in Ids(resources) {
        FoundIffKnown(resources, id);
        BoundsFromChildren(id, 0);
      }
    }

    /** A visit of `id` after `n` of its children. */
    ghost predicate Underway(id: Id, children: seq<Id>, n: nat, visited0: set<Id>, cache0: Cache,
                             visited: set<Id>, cache: Cache, found: Rolled)
    {
      && n <= |children|
      && visited0 + {id} <= visited && Extends(cache, cache0) && Sound(cache)
      && Progress(id, children, n, visited - visited0 - {id}, visited, found.value, found.from, cache)
      && (!found.truncated ==> AllBound(children, n, Rank(found.value)))
    }

    lemma UnderwayStep(id: Id, children: seq<Id>, n: nat, visited0: set<Id>, cache0: Cache,
                       visited: set<Id>, cache: Cache, found: Rolled,
                       child: Rolled, visited': set<Id>, cache': Cache, found': Rolled)
      requires n < |children| && (id, children[n]) in Below() && "" !in ranks
      requires Underway(id, children, n, visited0, cache0, visited, cache, found)
      requires Visits(children[n], visited, cache, child, visited', cache')
      requires found'.truncated == (found.truncated || child.truncated)
      requires if Rank(child.value) > Rank(found.value) then found'.value == child.value && found'.from == child.from
               else found'.value == found.value && found'.from == found.from
      ensures Underway(id, children, n + 1, visited0, cache0, visited', cache', found')
    {
      ProgressStep(id, children, n, visited - visited0 - {id}, visited, found.value, found.from, cache,
                   child, visited', cache', found'.value, found'.from);
      assert visited' - visited0 - {id} == (visited - visited0 - {id}) + (visited' - visited);
      if !found'.truncated {
        AllBoundStep(children, n, Rank(found.value), Rank(child.value), Rank(found'.value));
      }
    }

    lemma UnderwayDone(id: Id, children: seq<Id>, visited0: set<Id>, cache0: Cache,
                       visited: set<Id>, cache: Cache, found: Rolled)
      requires Underway(id, children, |children|, visited0, cache0, visited, cache, found)
      requires id !in visited0 && id !in cache0 && forall c :: (id, c) in Below() ==> c in children
      ensures Visits(id, visited0, cache0, found, visited, if found.truncated then cache else cache[id := found])
    {
      ProgressDone(id, children, visited - visited0 - {id}, visited, found.value, found.from, cache);
      assert visited - visited0 == visited - visited0 - {id} + {id};
      if !found.truncated {
        AllBoundDone(id, children, Rank(found.value));
      }
    }

    lemma WitnessBelow(id: Id, c: Id, value: string, from: Option<Resource>)
      requires (id, c) in Below() && Witnessed(c, value, from)
      ensures Witnessed(id, value, from)
    {
      if Rank(value) != 0 {
        ReachCons(Below(), id, c, from.value.id);
      }
    }

    lemma BoundsFromChildren(id: Id, k: nat)
      requires OwnRank(id) <= k && forall c :: (id, c) in Below() ==> Bounds(c, k)
      ensures Bounds(id, k)
    {
      forall y | Reach(Below(), id, y)
        ensures OwnRank(y) <= k
      {
        ReachSplit(Below(), id, y);
      }
    }

    /** A walk that accounts for its root and covers all it visited has bounded the root. */
    lemma CoveredBounds(id: Id, visited: set<Id>, k: nat, cache: Cache)
      requires Sound(cache) && Accounted(id, visited, k, cache) && Covered(visited, visited, k, cache)
      ensures Bounds(id, k)
    {
      forall y | Reach(Below(), id, y)
        ensures OwnRank(y) <= k
      {
        if id in visited && y !in visited {
          var a, b := Exit(Below(), visited, id, y);
        }
      }
    }
  }

  /** The walk with the `truncated` flag: `getEnvironment` and `getStatus` are this walk over
      two rank tables. Only results that no cycle cut short are cached. */
  class RollUp {
    const view: View
    const childIndex: map<Id, seq<Id>>
    var cache: Cache

    constructor (view: View, childIndex: map<Id, seq<Id>>)
      requires Indexes(childIndex, view.edges, ToChildren)
      requires "" !in view.ranks
      ensures Valid() && this.view == view
    {
      this.view, this.childIndex := view, childIndex;
      cache := map[];
    }

    ghost predicate Valid()
      reads this
    {
      && "" !in view.ranks
      && Indexes(childIndex, view.edges, ToChildren)
      && view.Sound(cache)
    }

    /** One call of the recursive walk, `visited` being the set shared by the whole traversal. */
    method Visit(id: Id, visited0: set<Id>) returns (result: Rolled, visited: set<Id>)
      requires Valid()
      modifies this
      ensures Valid() && view.Visits(id, visited0, old(cache), result, visited, cache)
      decreases Ids(view.resources) - visited0
    {
      visited := visited0;
      view.VisitsAtOnce(id, visited0, cache);
      FoundIffKnown(view.resources, id);
      if id in cache { return cache[id], visited; }
      if id in visited { return Rolled("", None, true), visited; }
      visited := visited + {id};
      var row := Find(view.resources, id);
      if row == None { return Rolled("", None, false), visited; }
      IndexedArrows(childIndex, view.edges, ToChildren, id);
      ReachRefl(view.Below(), id);
      var best, from, truncated := "", None, false;
      if view.Rank(view.own(row.value)) > 0 {
        best, from := view.own(row.value), row;
      }
      var children := Lookup(childIndex, id);
      var n := 0;
      while n < |children|
        invariant view.Underway(id, children, n, visited0, old(cache), visited, cache, Rolled(best, from, truncated))
      {
        ghost var seen, known, found := visited, cache, Rolled(best, from, truncated);
        var child;
        child, visited := Visit(children[n], visited);
        if child.truncated { truncated := true; }
        if view.Rank(child.value) > 0 && (best == "" || view.Rank(child.value) > view.Rank(best)) {
          best, from := child.value, child.from;
        }
        view.UnderwayStep(id, children, n, visited0, old(cache), seen, known, found,
                          child, visited, cache, Rolled(best, from, truncated));
        n := n + 1;
      }
      result := Rolled(best, from, truncated);
      view.UnderwayDone(id, children, visited0, old(cache), visited, cache, result);
      if !truncated {
        cache := cache[id := result];
      }
    }

    /** A top-level walk is exact whatever was cached before, even when it was truncated. */
    method Get(id: Id) returns (result: Rolled)
      requires Valid()
      modifies this
      ensures Valid() && view.Exact(id, result)
    {
      var visited;
      result, visited := Visit(id, {});
      assert visited - {} == visited;
      view.CoveredBounds(id, visited, view.Rank(result.value), cache);
    }

    /** The walk asked for every row in turn. */
    method GetAll(resources: seq<Resource>) returns (out: seq<Rolled>)
      requires Valid()
      modifies this
      ensures Valid() && |out| == |resources|
      ensures forall k :: 0 <= k < |out| ==> view.Exact(resources[k].id, out[k])
    {
      out := [];
      for n := 0 to |resources|
        invariant Valid() && |out| == n
        invariant forall k :: 0 <= k < n ==> view.Exact(resources[k].id, out[k])
      {
        var result := Get(resources[n].id);
        out := out + [result];
      }
    }
  }
}

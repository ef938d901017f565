/** Searches up the parent edges: the site a resource belongs to, the address it is reached at, and
    the slug of the site above it. Each is a depth-first search with one shared visited set, and each
    finds something exactly when there is something to find, cycles or not.
  */
module UpwardWalks {
  import opened Graph
  import opened Directory

  ghost function Up(edges: seq<Edge>): set<(Id, Id)>
  {
    Arrows(edges, ToParents)
  }

  ghost function Tails(r: set<(Id, Id)>): set<Id>
  {
    set a | a in r :: a.0
  }

  ghost predicate Leads(r: set<(Id, Id)>, hits: set<Id>, id: Id)
  {
    exists y :: y in hits && Reach(r, id, y)
  }

  // ----- computeSiteOf -----

  ghost function Sites(resources: seq<Resource>): set<Id>
  {
    set r | r in resources && Find(resources, r.id) == Some(r) && r.kind == "site" :: r.id
  }

  predicate IsSite(resources: seq<Resource>, id: Id)
  {
    var r := Find(resources, id);
    r.Some? && r.value.kind == "site"
  }

  lemma SitesAre(resources: seq<Resource>, id: Id)
    ensures id in Sites(resources) <==> IsSite(resources, id)
  {
    var r := Find(resources, id);
    if r.Some? && r.value.kind == "site" {
      assert r.value in resources && r.value.id == id;
    }
  }

  /** Answers remembered so far: the site above a row, or that there is none. */
  type SiteCache = map<Id, Option<Id>>

  datatype SiteView = SiteView(resources: seq<Resource>, edges: seq<Edge>) {

    ghost predicate RightAnswer(id: Id, answer: Option<Id>)
    {
      match answer
      case Some(site) =>
        site in Sites(resources) && Reach(Up(edges), id, site) && (id in Sites(resources) ==> site == id)
      case None => !Leads(Up(edges), Sites(resources), id)
    }

    /** Every cached answer is right, the cached "no site" included. */
    ghost predicate Right(siteOf: SiteCache)
    {
      forall x :: x in siteOf ==> RightAnswer(x, siteOf[x])
    }

    /** `y` needs no further search: it was seen, or is known to lead to no site. */
    ghost predicate Settled(y: Id, visited: set<Id>, siteOf: SiteCache)
    {
      y in visited || (y in siteOf && siteOf[y] == None)
    }

    ghost predicate DeadEnds(done: set<Id>, visited: set<Id>, siteOf: SiteCache)
    {
      && (forall x :: x in done ==> x !in Sites(resources))
      && (forall x, y :: x in done && (x, y) in Up(edges) ==> Settled(y, visited, siteOf))
    }

    lemma DeadEndsLeadNowhere(id: Id, visited: set<Id>, siteOf: SiteCache)
      requires Right(siteOf) && Settled(id, visited, siteOf) && DeadEnds(visited, visited, siteOf)
      ensures !Leads(Up(edges), Sites(resources), id)
    {
      forall y | Reach(Up(edges), id, y)
        ensures y !in Sites(resources)
      {
        if id in visited && y !in visited {
          var a, b := Exit(Up(edges), visited, id, y);
        }
      }
    }

    /** What one search from `id` does to the traversal and the cache, and what it returns. */
    ghost predicate Searches(id: Id, visited0: set<Id>, siteOf0: SiteCache,
                             found: Option<Id>, visited: set<Id>, siteOf: SiteCache)
    {
      && visited0 <= visited && Extends(siteOf, siteOf0) && Right(siteOf)
      && (found.Some? ==> RightAnswer(id, found) && id in siteOf && siteOf[id].Some?)
      && (found.None? ==> Settled(id, visited, siteOf) && DeadEnds(visited - visited0, visited, siteOf))
    }

    /** A search of `id` that found nothing behind its first `n` parents. */
    ghost predicate Underway(id: Id, parents: seq<Id>, n: nat, visited0: set<Id>, siteOf0: SiteCache,
                             visited: set<Id>, siteOf: SiteCache)
    {
      && n <= |parents|
      && visited0 + {id} <= visited && Extends(siteOf, siteOf0) && Right(siteOf)
      && (forall j :: 0 <= j < n ==> Settled(parents[j], visited, siteOf))
      && DeadEnds(visited - visited0 - {id}, visited, siteOf)
    }

    lemma UnderwayStep(id: Id, parents: seq<Id>, n: nat, visited0: set<Id>, siteOf0: SiteCache,
                       visited: set<Id>, siteOf: SiteCache, visited': set<Id>, siteOf': SiteCache)
      requires n < |parents| && Underway(id, parents, n, visited0, siteOf0, visited, siteOf)
      requires Searches(parents[n], visited, siteOf, None, visited', siteOf')
      ensures Underway(id, parents, n + 1, visited0, siteOf0, visited', siteOf')
    {
      assert visited' - visited0 - {id} <= (visited - visited0 - {id}) + (visited' - visited);
    }

    lemma UnderwayDone(id: Id, parents: seq<Id>, visited0: set<Id>, siteOf0: SiteCache,
                       visited: set<Id>, siteOf: SiteCache)
      requires Underway(id, parents, |parents|, visited0, siteOf0, visited, siteOf)
      requires id !in Sites(resources) && forall y :: (id, y) in Up(edges) ==> y in parents
      ensures Searches(id, visited0, siteOf0, None, visited, siteOf)
    {
      forall y | (id, y) in Up(edges)
        ensures Settled(y, visited, siteOf)
      {
        var j :| 0 <= j < |parents| && parents[j] == y;
      }
    }
  }

  class SiteIndex {
    const view: SiteView
    const parentIndex: map<Id, seq<Id>>
    var siteOf: SiteCache

    constructor (view: SiteView, parentIndex: map<Id, seq<Id>>)
      requires Indexes(parentIndex, view.edges, ToParents)
      ensures Valid() && this.view == view
    {
      this.view, this.parentIndex, this.siteOf := view, parentIndex, map[];
    }

    ghost predicate Valid()
      reads this
    {
      Indexes(parentIndex, view.edges, ToParents) && view.Right(siteOf)
    }

    /** One call of the recursive search, `visited` being the set shared by the whole traversal. */
    method Compute(id: Id, visited0: set<Id>) returns (found: Option<Id>, visited: set<Id>)
      requires Valid()
      modifies this
      ensures Valid() && view.Searches(id, visited0, old(siteOf), found, visited, siteOf)
      decreases Tails(Up(view.edges)) - visited0
    {
      visited := visited0;
      if id in siteOf { return siteOf[id], visited; }
      if id in visited { return None, visited; }
      visited := visited + {id};
      SitesAre(view.resources, id);
      ReachRefl(Up(view.edges), id);
      if IsSite(view.resources, id) {
        siteOf := siteOf[id := Some(id)];
        return Some(id), visited;
      }
      found := None;
      IndexedArrows(parentIndex, view.edges, ToParents, id);
      var parents := Lookup(parentIndex, id);
      var n := 0;
      while n < |parents|
        invariant view.Underway(id, parents, n, visited0, old(siteOf), visited, siteOf)
      {
        ghost var seen, known := visited, siteOf;
        assert (id, parents[n]) in Up(view.edges);
        found, visited := Compute(parents[n], visited);
        if found.Some? {
          ReachCons(Up(view.edges), id, parents[n], found.value);
          siteOf := siteOf[id := found];
          return found, visited;
        }
        view.UnderwayStep(id, parents, n, visited0, old(siteOf), seen, known, visited, siteOf);
        n := n + 1;
      }
      view.UnderwayDone(id, parents, visited0, old(siteOf), visited, siteOf);
      if |visited| == 1 {
        OnlyMember(visited, id);
        assert visited - visited0 == visited;
        view.DeadEndsLeadNowhere(id, visited, siteOf);
        siteOf := siteOf[id := None];
      }
      return None, visited;
    }

    lemma OnlyMember(s: set<Id>, x: Id)
      requires |s| == 1 && x in s
      ensures s == {x}
    {
      assert |s - {x}| == 0;
    }

    /** A top-level search finds a site exactly when one is at or above `id`, and then remembers it. */
    method Get(id: Id) returns (found: Option<Id>)
      requires Valid()
      modifies this
      ensures Valid() && view.RightAnswer(id, found) && Extends(siteOf, old(siteOf))
      ensures found.Some? ==> id in siteOf && siteOf[id].Some?
    {
      var visited;
      found, visited := Compute(id, {});
      if found.None? {
        assert visited - {} == visited;
        view.DeadEndsLeadNowhere(id, visited, siteOf);
      }
    }

    /** After the opening sweep over all rows, looking a row up answers non-null exactly when some
        site is at or above it. */
    method Sweep()
      requires Valid()
      modifies this
      ensures Valid()
      ensures forall r :: r in view.resources ==>
        ((r.id in siteOf && siteOf[r.id].Some?) <==> Leads(Up(view.edges), Sites(view.resources), r.id))
    {
      for n := 0 to |view.resources|
        invariant Valid()
        invariant forall k :: 0 <= k < n ==>
          (Leads(Up(view.edges), Sites(view.resources), view.resources[k].id) ==>
            view.resources[k].id in siteOf && siteOf[view.resources[k].id].Some?)
      {
        var found := Get(view.resources[n].id);
      }
    }
  }

  // ----- withResolvedAddress -----

  /** The address a row itself is reached at; a missing row has none. */
  function OwnAddress(resources: seq<Resource>, id: Id): string
  {
    match Find(resources, id)
    case None => ""
    case Some(r) => if r.address != "" then r.address else r.ip
  }

  /** The parent edges the search follows: those of existing rows. */
  ghost function LiveUp(resources: seq<Resource>, edges: seq<Edge>): set<(Id, Id)>
  {
    set a | a in Up(edges) && a.0 in Ids(resources)
  }

  ghost predicate Addressless(resources: seq<Resource>, edges: seq<Edge>, done: set<Id>, seen: set<Id>)
  {
    forall x :: x in done ==>
      OwnAddress(resources, x) == "" && forall y :: (x, y) in LiveUp(resources, edges) ==> y in seen
  }

  /** From row to first parent, and on, without coming back: `line` goes up to the first row that has an address, and
      meets no row in `visited`. */
  ghost predicate AddressLine(resources: seq<Resource>, edges: seq<Edge>, line: seq<Id>, visited: set<Id>)
  {
    && line != [] && (forall i, j :: 0 <= i < j < |line| ==> line[i] != line[j])
    && (forall x :: x in line ==> x !in visited)
    && (forall i :: 0 < i < |line| ==> IsFirstParent(edges, line[i - 1], line[i]))
    && (forall i :: 0 <= i < |line| - 1 ==> Find(resources, line[i]).Some? && OwnAddress(resources, line[i]) == "")
    && OwnAddress(resources, line[|line| - 1]) != ""
  }

  predicate IsFirstParent(edges: seq<Edge>, id: Id, parent: Id)
  {
    var parents := Neighbours(edges, ToParents, id); parents != [] && parents[0] == parent
  }

  /** The answer is the address such a line from `id` leads to. */
  ghost predicate FollowsLine(resources: seq<Resource>, edges: seq<Edge>, id: Id, visited: set<Id>, found: string)
  {
    forall line :: AddressLine(resources, edges, line, visited) && line[0] == id ==>
      found == OwnAddress(resources, line[|line| - 1])
  }

  lemma LineGoesOn(resources: seq<Resource>, edges: seq<Edge>, id: Id, visited: set<Id>, parent: Id, found: string)
    requires id !in visited && OwnAddress(resources, id) == "" && IsFirstParent(edges, id, parent)
    requires FollowsLine(resources, edges, parent, visited + {id}, found)
    ensures FollowsLine(resources, edges, id, visited, found)
  {
    forall line | AddressLine(resources, edges, line, visited) && line[0] == id
      ensures found == OwnAddress(resources, line[|line| - 1])
    {
      assert |line| > 1;
      assert IsFirstParent(edges, line[1 - 1], line[1]);
      AddressLineTail(resources, edges, line, visited);
      assert line[1..][0] == parent;
    }
  }

  lemma AddressLineTail(resources: seq<Resource>, edges: seq<Edge>, line: seq<Id>, visited: set<Id>)
    requires AddressLine(resources, edges, line, visited) && |line| > 1
    ensures AddressLine(resources, edges, line[1..], visited + {line[0]})
  {
    var rest := line[1..];
    forall i | 0 < i < |rest|
      ensures IsFirstParent(edges, rest[i - 1], rest[i])
    {
      assert IsFirstParent(edges, line[i + 1 - 1], line[i + 1]);
    }
    forall x | x in rest
      ensures x !in visited + {line[0]}
    {
      var i :| 0 <= i < |rest| && rest[i] == x;
      assert x in line && line[0] != line[i + 1];
    }
  }

  /** An answer of nothing means that there is no such line, and then any answer will do. */
  lemma NoLine(resources: seq<Resource>, edges: seq<Edge>, id: Id, visited: set<Id>, found: string)
    requires FollowsLine(resources, edges, id, visited, "")
    ensures FollowsLine(resources, edges, id, visited, found)
  {
  }

  lemma LineEnds(resources: seq<Resource>, edges: seq<Edge>, id: Id, visited: set<Id>)
    ensures OwnAddress(resources, id) != "" ==> FollowsLine(resources, edges, id, visited, OwnAddress(resources, id))
    ensures id in visited || (Find(resources, id) == None) ==> FollowsLine(resources, edges, id, visited, "")
    ensures OwnAddress(resources, id) == "" && Neighbours(edges, ToParents, id) == [] ==>
      FollowsLine(resources, edges, id, visited, "")
  {
    forall line | AddressLine(resources, edges, line, visited) && line[0] == id
      ensures id !in visited && Find(resources, id).Some?
      ensures |line| > 1 ==> OwnAddress(resources, id) == "" && Neighbours(edges, ToParents, id) != []
    {
      assert line[0] in line;
      if |line| > 1 {
        assert IsFirstParent(edges, line[1 - 1], line[1]);
      }
    }
  }

  /** What one call of the search does. */
  ghost predicate Climbs(resources: seq<Resource>, edges: seq<Edge>, id: Id, visited0: set<Id>, found: string,
                         visited: set<Id>)
  {
    && visited0 <= visited && FollowsLine(resources, edges, id, visited0, found)
    && (found != "" ==> exists y :: Reach(LiveUp(resources, edges), id, y) && OwnAddress(resources, y) == found)
    && (found == "" ==> id in visited && Addressless(resources, edges, visited - visited0, visited))
  }

  /** A call for a row without an address that found nothing behind the first `n` parents. */
  ghost predicate Climbing(resources: seq<Resource>, edges: seq<Edge>, id: Id, n: nat, visited0: set<Id>,
                           visited: set<Id>)
  {
    var parents := Neighbours(edges, ToParents, id);
    && n <= |parents| && visited0 + {id} <= visited && (forall j :: 0 <= j < n ==> parents[j] in visited)
    && Addressless(resources, edges, visited - visited0 - {id}, visited)
    && (if n == 0 then visited == visited0 + {id} else FollowsLine(resources, edges, id, visited0, ""))
  }

  lemma ClimbStep(resources: seq<Resource>, edges: seq<Edge>, id: Id, n: nat, visited0: set<Id>, visited: set<Id>,
                  up: string, visited': set<Id>)
    requires id !in visited0 && id in Ids(resources) && OwnAddress(resources, id) == ""
    requires n < |Neighbours(edges, ToParents, id)| && Climbing(resources, edges, id, n, visited0, visited)
    requires Climbs(resources, edges, Neighbours(edges, ToParents, id)[n], visited, up, visited')
    ensures up == "" ==> Climbing(resources, edges, id, n + 1, visited0, visited')
    ensures up != "" ==> Climbs(resources, edges, id, visited0, up, visited')
  {
    var parent := Neighbours(edges, ToParents, id)[n];
    if n == 0 {
      LineGoesOn(resources, edges, id, visited0, parent, up);
    } else {
      NoLine(resources, edges, id, visited0, up);
    }
    if up == "" {
      assert visited' - visited0 - {id} <= (visited - visited0 - {id}) + (visited' - visited);
    } else {
      NeighboursAre(edges, ToParents, id);
      var y :| Reach(LiveUp(resources, edges), parent, y) && OwnAddress(resources, y) == up;
      ReachCons(LiveUp(resources, edges), id, parent, y);
    }
  }

  lemma ClimbDone(resources: seq<Resource>, edges: seq<Edge>, id: Id, visited0: set<Id>, visited: set<Id>)
    requires Climbing(resources, edges, id, |Neighbours(edges, ToParents, id)|, visited0, visited)
    requires OwnAddress(resources, id) == ""
    ensures Climbs(resources, edges, id, visited0, "", visited)
  {
    NeighboursAre(edges, ToParents, id);
    LineEnds(resources, edges, id, visited0);
    forall y | (id, y) in LiveUp(resources, edges)
      ensures y in visited
    {
      var j :| 0 <= j < |Neighbours(edges, ToParents, id)| && Neighbours(edges, ToParents, id)[j] == y;
    }
  }

  method Resolve(resources: seq<Resource>, edges: seq<Edge>, id: Id, visited0: set<Id>)
    returns (found: string, visited: set<Id>)
    ensures Climbs(resources, edges, id, visited0, found, visited)
    decreases Ids(resources) - visited0
  {
    visited := visited0;
    LineEnds(resources, edges, id, visited0);
    if id in visited { return "", visited; }
    visited := visited + {id};
    FoundIffKnown(resources, id);
    ReachRefl(LiveUp(resources, edges), id);
    var res := Find(resources, id);
    if res == None { return "", visited; }
    if res.value.address != "" { return res.value.address, visited; }
    if res.value.ip != "" { return res.value.ip, visited; }
    var parents := Neighbours(edges, ToParents, id);
    for n := 0 to |parents|
      invariant Climbing(resources, edges, id, n, visited0, visited)
    {
      var up, seen := Resolve(resources, edges, parents[n], visited);
      ClimbStep(resources, edges, id, n, visited0, visited, up, seen);
      visited := seen;
      if up != "" { return up, visited; }
    }
    ClimbDone(resources, edges, id, visited0, visited);
    return "", visited;
  }

  /** An address is found exactly when the row, or a row above it through existing rows, has one. */
  method ResolvedAddress(resources: seq<Resource>, edges: seq<Edge>, id: Id) returns (found: string)
    ensures found != "" <==> exists y :: Reach(LiveUp(resources, edges), id, y) && OwnAddress(resources, y) != ""
    ensures found != "" ==> exists y :: Reach(LiveUp(resources, edges), id, y) && OwnAddress(resources, y) == found
    ensures FollowsLine(resources, edges, id, {}, found)
    ensures forall r: Resource :: Find(resources, id) == Some(r) && (r.address != "" || r.ip != "") ==>
      found == if r.address != "" then r.address else r.ip
  {
    var visited;
    found, visited := Resolve(resources, edges, id, {});
    assert OwnAddress(resources, id) != "" ==> AddressLine(resources, edges, [id], {}) && [id][0] == id;
    if found == "" {
      forall y | Reach(LiveUp(resources, edges), id, y)
        ensures OwnAddress(resources, y) == ""
      {
        assert visited - {} == visited;
        ClosedReach(LiveUp(resources, edges), visited, id, y);
      }
    }
  }

  // ----- findAncestorSiteSlug -----

  /** The slug of a site row, and blank for anything else. */
  function SiteSlug(resources: seq<Resource>, id: Id): string
  {
    match Find(resources, id)
    case None => ""
    case Some(r) => if r.kind == "site" then r.slug else ""
  }

  /** A site whose slug is blank; rows get a slug when they are created. */
  predicate IsBlankSite(resources: seq<Resource>, id: Id)
  {
    IsSite(resources, id) && SiteSlug(resources, id) == ""
  }

  /** The search goes from a row to a parent unless that is a blank site, or one comes before it: a blank site ends
      the search among the parents of its child. */
  ghost predicate GoesOn(resources: seq<Resource>, edges: seq<Edge>, x: Id, y: Id)
  {
    var parents := Neighbours(edges, ToParents, x);
    exists n :: 0 <= n < |parents| && parents[n] == y && forall j :: 0 <= j <= n ==> !IsBlankSite(resources, parents[j])
  }

  ghost function Tried(resources: seq<Resource>, edges: seq<Edge>): set<(Id, Id)>
  {
    set a | a in Up(edges) && GoesOn(resources, edges, a.0, a.1)
  }

  ghost predicate Siteless(resources: seq<Resource>, edges: seq<Edge>, done: set<Id>, seen: set<Id>)
  {
    forall x, y :: x in done && (x, y) in Tried(resources, edges) ==> SiteSlug(resources, y) == "" && y in seen
  }

  /** From row to first parent, and on, without coming back: `line` goes up to the first site above, which has a
      slug. */
  ghost predicate SiteLine(resources: seq<Resource>, edges: seq<Edge>, line: seq<Id>, visited: set<Id>)
  {
    && |line| > 1 && (forall i, j :: 0 <= i < j < |line| - 1 ==> line[i] != line[j])
    && (forall i :: 0 <= i < |line| - 1 ==> line[i] !in visited)
    && (forall i :: 0 < i < |line| ==> IsFirstParent(edges, line[i - 1], line[i]))
    && (forall i :: 0 < i < |line| - 1 ==> !IsSite(resources, line[i]))
    && IsSite(resources, line[|line| - 1]) && SiteSlug(resources, line[|line| - 1]) != ""
  }

  ghost predicate FollowsSite(resources: seq<Resource>, edges: seq<Edge>, id: Id, visited: set<Id>, found: string)
  {
    forall line :: SiteLine(resources, edges, line, visited) && line[0] == id ==>
      found == SiteSlug(resources, line[|line| - 1])
  }

  lemma SiteLineTail(resources: seq<Resource>, edges: seq<Edge>, line: seq<Id>, visited: set<Id>)
    requires SiteLine(resources, edges, line, visited) && |line| > 2
    ensures SiteLine(resources, edges, line[1..], visited + {line[0]})
  {
    var rest := line[1..];
    forall i | 0 < i < |rest|
      ensures IsFirstParent(edges, rest[i - 1], rest[i])
    {
      assert IsFirstParent(edges, line[i + 1 - 1], line[i + 1]);
    }
    forall i | 0 <= i < |rest| - 1
      ensures rest[i] !in visited + {line[0]}
    {
      assert line[0] != line[i + 1];
    }
  }

  /** What the first parent says is what the line says. */
  lemma SiteLineGoesOn(resources: seq<Resource>, edges: seq<Edge>, id: Id, visited: set<Id>, parent: Id, found: string)
    requires id !in visited && IsFirstParent(edges, id, parent)
    requires if IsSite(resources, parent) then found == SiteSlug(resources, parent)
             else FollowsSite(resources, edges, parent, visited + {id}, found)
    ensures FollowsSite(resources, edges, id, visited, found)
  {
    forall line | SiteLine(resources, edges, line, visited) && line[0] == id
      ensures found == SiteSlug(resources, line[|line| - 1])
    {
      assert IsFirstParent(edges, line[1 - 1], line[1]);
      if |line| > 2 {
        SiteLineTail(resources, edges, line, visited);
        assert line[1..][0] == parent;
      }
    }
  }

  lemma NoSiteLine(resources: seq<Resource>, edges: seq<Edge>, id: Id, visited: set<Id>, found: string)
    requires FollowsSite(resources, edges, id, visited, "")
    ensures FollowsSite(resources, edges, id, visited, found)
  {
  }

  lemma SiteLineEnds(resources: seq<Resource>, edges: seq<Edge>, id: Id, visited: set<Id>)
    ensures id in visited || Neighbours(edges, ToParents, id) == [] ==> FollowsSite(resources, edges, id, visited, "")
  {
    forall line | SiteLine(resources, edges, line, visited) && line[0] == id
      ensures id !in visited && Neighbours(edges, ToParents, id) != []
    {
      assert IsFirstParent(edges, line[1 - 1], line[1]);
    }
  }

  /** What one call of the search does. */
  ghost predicate Asks(resources: seq<Resource>, edges: seq<Edge>, id: Id, visited0: set<Id>, found: string,
                       visited: set<Id>)
  {
    && visited0 <= visited && FollowsSite(resources, edges, id, visited0, found)
    && (found != "" ==> exists y :: Beyond(Tried(resources, edges), id, y) && SiteSlug(resources, y) == found)
    && (found == "" ==> id in visited && Siteless(resources, edges, visited - visited0, visited))
  }

  /** A call that found nothing at or behind the first `n` parents, none of which is a site. */
  ghost predicate Asking(resources: seq<Resource>, edges: seq<Edge>, id: Id, n: nat, visited0: set<Id>,
                         visited: set<Id>)
  {
    var parents := Neighbours(edges, ToParents, id);
    && n <= |parents| && visited0 + {id} <= visited && ParentsTried(resources, parents, n, visited)
    && Siteless(resources, edges, visited - visited0 - {id}, visited)
    && (if n == 0 then visited == visited0 + {id} else FollowsSite(resources, edges, id, visited0, ""))
  }

  lemma SiteAnswers(resources: seq<Resource>, edges: seq<Edge>, id: Id, n: nat, visited0: set<Id>, visited: set<Id>)
    requires id !in visited0 && Asking(resources, edges, id, n, visited0, visited)
    requires n < |Neighbours(edges, ToParents, id)| && IsSite(resources, Neighbours(edges, ToParents, id)[n])
    ensures Asks(resources, edges, id, visited0, SiteSlug(resources, Neighbours(edges, ToParents, id)[n]), visited)
  {
    var parent := Neighbours(edges, ToParents, id)[n];
    NeighboursAre(edges, ToParents, id);
    if n == 0 {
      SiteLineGoesOn(resources, edges, id, visited0, parent, SiteSlug(resources, parent));
    } else {
      NoSiteLine(resources, edges, id, visited0, SiteSlug(resources, parent));
    }
    if SiteSlug(resources, parent) == "" {
      BlankEndsTheSearch(resources, edges, id, n, visited);
    } else {
      ArrowTried(resources, edges, id, n, visited);
      ReachRefl(Tried(resources, edges), parent);
      assert Beyond(Tried(resources, edges), id, parent);
    }
  }

  lemma AskStep(resources: seq<Resource>, edges: seq<Edge>, id: Id, n: nat, visited0: set<Id>, visited: set<Id>,
                upstream: string, visited': set<Id>)
    requires id !in visited0 && Asking(resources, edges, id, n, visited0, visited)
    requires n < |Neighbours(edges, ToParents, id)| && !IsSite(resources, Neighbours(edges, ToParents, id)[n])
    requires Asks(resources, edges, Neighbours(edges, ToParents, id)[n], visited, upstream, visited')
    ensures upstream == "" ==> Asking(resources, edges, id, n + 1, visited0, visited')
    ensures upstream != "" ==> Asks(resources, edges, id, visited0, upstream, visited')
  {
    var parent := Neighbours(edges, ToParents, id)[n];
    AskLine(resources, edges, id, n, visited0, visited, upstream);
    if upstream == "" {
      assert visited' - visited0 - {id} <= (visited - visited0 - {id}) + (visited' - visited);
    } else {
      NeighboursAre(edges, ToParents, id);
      ArrowTried(resources, edges, id, n, visited);
      TriedFurther(resources, edges, id, parent, upstream);
    }
  }

  lemma AskLine(resources: seq<Resource>, edges: seq<Edge>, id: Id, n: nat, visited0: set<Id>, visited: set<Id>,
                upstream: string)
    requires id !in visited0 && Asking(resources, edges, id, n, visited0, visited)
    requires n < |Neighbours(edges, ToParents, id)| && !IsSite(resources, Neighbours(edges, ToParents, id)[n])
    requires FollowsSite(resources, edges, Neighbours(edges, ToParents, id)[n], visited, upstream)
    ensures FollowsSite(resources, edges, id, visited0, upstream)
  {
    if n == 0 {
      SiteLineGoesOn(resources, edges, id, visited0, Neighbours(edges, ToParents, id)[0], upstream);
    } else {
      NoSiteLine(resources, edges, id, visited0, upstream);
    }
  }

  lemma TriedFurther(resources: seq<Resource>, edges: seq<Edge>, id: Id, parent: Id, slug: string)
    requires (id, parent) in Tried(resources, edges)
    requires exists y :: Beyond(Tried(resources, edges), parent, y) && SiteSlug(resources, y) == slug
    ensures exists y :: Beyond(Tried(resources, edges), id, y) && SiteSlug(resources, y) == slug
  {
    var y :| Beyond(Tried(resources, edges), parent, y) && SiteSlug(resources, y) == slug;
    ReachSplit(Tried(resources, edges), parent, y);
  }

  lemma AskDone(resources: seq<Resource>, edges: seq<Edge>, id: Id, visited0: set<Id>, visited: set<Id>)
    requires Asking(resources, edges, id, |Neighbours(edges, ToParents, id)|, visited0, visited)
    ensures Asks(resources, edges, id, visited0, "", visited)
  {
    NeighboursAre(edges, ToParents, id);
    SiteLineEnds(resources, edges, id, visited0);
    forall y | (id, y) in Tried(resources, edges)
      ensures SiteSlug(resources, y) == "" && y in visited
    {
      assert y in Neighbours(edges, ToParents, id);
    }
  }

  method AncestorSiteSlug(resources: seq<Resource>, edges: seq<Edge>, id: Id, visited0: set<Id>)
    returns (found: string, visited: set<Id>)
    ensures Asks(resources, edges, id, visited0, found, visited)
    decreases Tails(Up(edges)) - visited0
  {
    visited := visited0;
    SiteLineEnds(resources, edges, id, visited0);
    if id in visited { return "", visited; }
    visited := visited + {id};
    NeighboursAre(edges, ToParents, id);
    var parents := Neighbours(edges, ToParents, id);
    for n := 0 to |parents|
      invariant Asking(resources, edges, id, n, visited0, visited)
    {
      assert (id, parents[n]) in Up(edges);
      var parent := Find(resources, parents[n]);
      if parent.Some? && parent.value.kind == "site" {
        SiteAnswers(resources, edges, id, n, visited0, visited);
        return parent.value.slug, visited;
      }
      var upstream, seen := AncestorSiteSlug(resources, edges, parents[n], visited);
      AskStep(resources, edges, id, n, visited0, visited, upstream, seen);
      visited := seen;
      if upstream != "" { return upstream, visited; }
    }
    AskDone(resources, edges, id, visited0, visited);
    return "", visited;
  }

  /** The first `n` parents were no sites, and were searched. */
  ghost predicate ParentsTried(resources: seq<Resource>, parents: seq<Id>, n: nat, visited: set<Id>)
    requires n <= |parents|
  {
    forall j :: 0 <= j < n ==>
      parents[j] in visited && SiteSlug(resources, parents[j]) == "" && !IsBlankSite(resources, parents[j])
  }

  lemma ArrowTried(resources: seq<Resource>, edges: seq<Edge>, id: Id, n: nat, visited: set<Id>)
    requires n < |Neighbours(edges, ToParents, id)| && (id, Neighbours(edges, ToParents, id)[n]) in Up(edges)
    requires ParentsTried(resources, Neighbours(edges, ToParents, id), n, visited)
    requires !IsBlankSite(resources, Neighbours(edges, ToParents, id)[n])
    ensures (id, Neighbours(edges, ToParents, id)[n]) in Tried(resources, edges)
  {
    assert GoesOn(resources, edges, id, Neighbours(edges, ToParents, id)[n]);
  }

  lemma BlankEndsTheSearch(resources: seq<Resource>, edges: seq<Edge>, id: Id, n: nat, visited: set<Id>)
    requires n < |Neighbours(edges, ToParents, id)|
    requires ParentsTried(resources, Neighbours(edges, ToParents, id), n, visited)
    requires IsBlankSite(resources, Neighbours(edges, ToParents, id)[n])
    ensures forall y :: (id, y) in Tried(resources, edges) ==> SiteSlug(resources, y) == "" && y in visited
  {
  }

  predicate IsSluggedSite(resources: seq<Resource>, r: Resource)
  {
    r.kind == "site" && r.slug != "" && Find(resources, r.id) == Some(r)
  }

  /** A slug is found exactly when a site with a slug is above this row through parents the search goes on to; and it
      is such a site's. */
  method FindAncestorSiteSlug(resources: seq<Resource>, edges: seq<Edge>, id: Id) returns (found: string)
    ensures found != "" <==> exists y :: Beyond(Tried(resources, edges), id, y) && SiteSlug(resources, y) != ""
    ensures found != "" ==>
      exists y :: Beyond(Up(edges), id, y) && IsSite(resources, y) && SiteSlug(resources, y) == found
    ensures FollowsSite(resources, edges, id, {}, found)
    ensures forall r: Resource :: IsSluggedSite(resources, r) && IsFirstParent(edges, id, r.id) ==> found == r.slug
    ensures SitesHaveSlugs(resources, edges, id) ==>
      (found != "" <==> exists y :: Beyond(Up(edges), id, y) && IsSite(resources, y))
  {
    var visited;
    found, visited := AncestorSiteSlug(resources, edges, id, {});
    forall r: Resource | IsSluggedSite(resources, r) && IsFirstParent(edges, id, r.id)
      ensures found == r.slug
    {
      var line := [id, r.id];
      assert SiteLine(resources, edges, line, {}) && line[0] == id;
    }
    if found == "" {
      forall y | Beyond(Tried(resources, edges), id, y)
        ensures SiteSlug(resources, y) == ""
      {
        var x := BeyondUnsnoc(Tried(resources, edges), id, y);
        assert visited - {} == visited;
        ClosedReach(Tried(resources, edges), visited, id, x);
      }
    }
    forall y | Beyond(Tried(resources, edges), id, y)
      ensures Beyond(Up(edges), id, y)
    {
      TriedIsUp(resources, edges, id, y);
    }
    if SitesHaveSlugs(resources, edges, id) {
      forall y | Beyond(Up(edges), id, y)
        ensures Beyond(Tried(resources, edges), id, y)
      {
        UpIsTried(resources, edges, id, y);
      }
    }
  }

  /** No site properly above this row has a blank slug. */
  ghost predicate SitesHaveSlugs(resources: seq<Resource>, edges: seq<Edge>, id: Id)
  {
    forall y :: Beyond(Up(edges), id, y) ==> !IsBlankSite(resources, y)
  }

  lemma TriedIsUp(resources: seq<Resource>, edges: seq<Edge>, id: Id, y: Id)
    requires Beyond(Tried(resources, edges), id, y)
    ensures Beyond(Up(edges), id, y)
  {
    var z :| (id, z) in Tried(resources, edges) && Reach(Tried(resources, edges), z, y);
    ReachMono(Tried(resources, edges), Up(edges), z, y);
  }

  lemma UpIsTried(resources: seq<Resource>, edges: seq<Edge>, id: Id, y: Id)
    requires SitesHaveSlugs(resources, edges, id) && Beyond(Up(edges), id, y)
    ensures Beyond(Tried(resources, edges), id, y)
  {
    var z :| (id, z) in Up(edges) && Reach(Up(edges), z, y);
    var n: nat :| Steps(Up(edges), n, z, y);
    ReachRefl(Up(edges), z);
    ArrowGoesOn(resources, edges, id, id, z);
    StepsAreTried(resources, edges, id, n, z, y);
  }

  lemma {:induction false} StepsAreTried(resources: seq<Resource>, edges: seq<Edge>, id: Id, n: nat, x: Id, y: Id)
    requires SitesHaveSlugs(resources, edges, id) && Beyond(Up(edges), id, x) && Steps(Up(edges), n, x, y)
    ensures Reach(Tried(resources, edges), x, y)
    decreases n
  {
    if n == 0 {
      ReachRefl(Tried(resources, edges), x);
    } else {
      var z :| (x, z) in Up(edges) && Steps(Up(edges), n - 1, z, y);
      FurtherBeyond(Up(edges), id, x, z);
      ArrowGoesOn(resources, edges, id, x, z);
      StepsAreTried(resources, edges, id, n - 1, z, y);
      ReachCons(Tried(resources, edges), x, z, y);
    }
  }

  lemma FurtherBeyond(r: set<(Id, Id)>, id: Id, x: Id, z: Id)
    requires Beyond(r, id, x) && (x, z) in r
    ensures Beyond(r, id, z)
  {
    var w :| (id, w) in r && Reach(r, w, x);
    ReachSnoc(r, w, x, z);
  }

  lemma ArrowGoesOn(resources: seq<Resource>, edges: seq<Edge>, id: Id, x: Id, z: Id)
    requires SitesHaveSlugs(resources, edges, id) && (x == id || Beyond(Up(edges), id, x)) && (x, z) in Up(edges)
    ensures (x, z) in Tried(resources, edges)
  {
    NeighboursAre(edges, ToParents, x);
    var parents := Neighbours(edges, ToParents, x);
    var n :| 0 <= n < |parents| && parents[n] == z;
    forall j | 0 <= j <= n
      ensures !IsBlankSite(resources, parents[j])
    {
      assert parents[j] in parents && (x, parents[j]) in Up(edges);
      ReachRefl(Up(edges), parents[j]);
      if x != id {
        FurtherBeyond(Up(edges), id, x, parents[j]);
      }
    }
    assert GoesOn(resources, edges, x, z);
  }

  /** It happens that a site is missed: one with a blank slug comes before it among the parents. */
  method BlankSiteHidesSite(blank: Resource, site: Resource, child: Id, e: Edge, f: Edge) returns (found: string)
    requires blank.kind == site.kind == "site" && blank.slug == "" && site.slug != "" && blank.id != site.id
    requires e.Usable() && f.Usable() && e.childId == f.childId == child && e.parentId == blank.id
    requires f.parentId == site.id
    ensures found == ""
    ensures var resources := [blank, site]; var edges := [e, f];
      Beyond(Up(edges), child, site.id) && SiteSlug(resources, site.id) == site.slug
  {
    var resources, edges := [blank, site], [e, f];
    TwoParents(e, f, child);
    found := FindAncestorSiteSlug(resources, edges, child);
    assert resources[0] == blank && resources[1] == site;
    assert edges[1] in edges && (child, site.id) in Up(edges);
    ReachRefl(Up(edges), site.id);
    assert Neighbours(edges, ToParents, child)[0] == blank.id && IsBlankSite(resources, blank.id);
    BlankFirstParent(resources, edges, child);
  }

  lemma BlankFirstParent(resources: seq<Resource>, edges: seq<Edge>, x: Id)
    requires Neighbours(edges, ToParents, x) != [] && IsBlankSite(resources, Neighbours(edges, ToParents, x)[0])
    ensures forall y :: !Beyond(Tried(resources, edges), x, y)
  {
    forall y
      ensures !GoesOn(resources, edges, x, y)
    {
    }
  }

  lemma TwoParents(e: Edge, f: Edge, child: Id)
    requires e.Usable() && f.Usable() && e.childId == f.childId == child
    ensures Neighbours([e, f], ToParents, child) == [e.parentId, f.parentId]
  {
    var edges := [e, f];
    assert NeighboursUpTo(edges, ToParents, child, 1) == [e.parentId];
    assert NeighboursUpTo(edges, ToParents, child, 2) == [e.parentId, f.parentId];
  }
}

/** What one reported edge, one edge made by hand and a whole list of reported edges do to the stored ones. */
module EdgeAnswer {
  import opened Graph
  import opened Directory
  import opened ResourceMatcher
  import opened DiscoveryMerge
  import opened DiscoveryEdges
  import opened DiscoveryReconciler

  // ----- one edge -----

  /** A row stored under this id is a site. */
  predicate SiteRow(rows: seq<Row>, id: Id)
  {
    exists r :: r in rows && r.id == id && r.kind == "site"
  }

  lemma SiteRowIff(rows: seq<Row>, id: Id)
    requires DistinctRows(rows)
    ensures SiteRow(rows, id) <==> DiscoveryEdges.IsSite(rows, id)
  {
    FirstRowIs(rows, (r: Row) => r.id == id);
  }

  predicate SameEnds(e: Edge, added: Edge)
  {
    e.parentId == added.parentId && e.childId == added.childId && e.relation == added.relation
  }

  /** The first edge that some source made for the same child and relation. */
  predicate IsPrior(edges: seq<Edge>, added: Edge, e: Edge)
  {
    exists k :: (
      && 0 <= k < |edges| && edges[k] == e && FromSource(e, added)
      && forall j :: 0 <= j < k ==> !FromSource(edges[j], added))
  }

  predicate FromSource(e: Edge, added: Edge)
  {
    e.source != "" && e.childId == added.childId && e.relation == added.relation
  }

  /** An edge from another site to the same child. */
  predicate FromAnotherSite(rows: seq<Row>, e: Edge, added: Edge)
  {
    && added.relation == "hosts" && e.relation == "hosts" && e.childId == added.childId
    && e.parentId != added.parentId && SiteRow(rows, e.parentId)
  }

  lemma PriorIs(edges: seq<Edge>, added: Edge)
    ensures match Prior(edges, added.childId, added.relation)
      case Some(p) => IsPrior(edges, added, p) && forall e :: IsPrior(edges, added, e) ==> e == p
      case None => forall e :: !IsPrior(edges, added, e)
  {
    var f := (e: Edge) => e.childId == added.childId && e.relation == added.relation && e.source != "";
    if First(edges, f).Some? {
      var k := FirstFromIsFirst(edges, f, 0);
    }
  }

  /** An accepted edge is there, unless one with the same ends and relation was; then nothing is replaced. Otherwise it
      takes the place of the first one a source made for that child and relation. Edges to the child from other sites go
      either way. All others stay. */
  lemma AttachedIff(rows: seq<Row>, edges: seq<Edge>, added: Edge, e: Edge)
    requires DistinctRows(rows) && forall f, g :: f in edges && g in edges && f.id == g.id ==> f == g
    requires forall f :: f in edges ==> f.id != added.id
    ensures var there := exists f :: f in edges && SameEnds(f, added);
      e in Attached(rows, edges, added)
      <==> ((e in edges && (there || !IsPrior(edges, added, e))) || (e == added && !there))
           && !FromAnotherSite(rows, e, added)
  {
    PriorIs(edges, added);
    SiteRowIff(rows, e.parentId);
    CreatedIff(edges, added, e);
  }

  lemma CreatedIff(edges: seq<Edge>, added: Edge, e: Edge)
    requires forall f, g :: f in edges && g in edges && f.id == g.id ==> f == g
    requires forall f :: f in edges ==> f.id != added.id
    ensures var there := exists f :: f in edges && SameEnds(f, added);
      e in Created(edges, added)
      <==> (e in edges && (there || !IsPrior(edges, added, e))) || (e == added && !there)
  {
    PriorIs(edges, added);
    var there := exists f :: f in edges && SameEnds(f, added);
    assert there <==> Exists(edges, added.parentId, added.childId, added.relation) by {
      if f :| f in edges && SameEnds(f, added) {
        assert f.parentId == added.parentId && f.childId == added.childId && f.relation == added.relation;
      }
      if f :| f in edges && f.parentId == added.parentId && f.childId == added.childId && f.relation == added.relation {
        assert SameEnds(f, added);
      }
    }
  }

  /** A way along edges, from parent to child, whatever their relation. */
  ghost predicate IsWay(edges: seq<Edge>, way: seq<Id>)
  {
    way != [] && forall i :: 0 < i < |way| ==> IsEdge(edges, way[i - 1], way[i])
  }

  predicate IsEdge(edges: seq<Edge>, parent: Id, child: Id)
  {
    exists e :: e in edges && e.parentId == parent && e.childId == child
  }

  lemma EdgeIsLink(edges: seq<Edge>, parent: Id, child: Id)
    ensures IsEdge(edges, parent, child) <==> (parent, child) in Links(edges)
  {
    if (parent, child) in Links(edges) {
      var e :| e in edges && (e.parentId, e.childId) == (parent, child);
    }
    if e :| e in edges && e.parentId == parent && e.childId == child {
      assert (e.parentId, e.childId) == (parent, child);
    }
  }

  lemma {:induction false} StepsHaveWay(edges: seq<Edge>, n: nat, x: Id, y: Id) returns (way: seq<Id>)
    requires Steps(Links(edges), n, x, y)
    ensures IsWay(edges, way) && way[0] == x && way[|way| - 1] == y
    decreases n
  {
    if n == 0 {
      way := [x];
    } else {
      var z :| (x, z) in Links(edges) && Steps(Links(edges), n - 1, z, y);
      var rest := StepsHaveWay(edges, n - 1, z, y);
      EdgeIsLink(edges, x, z);
      way := [x] + rest;
      forall i | 0 < i < |way|
        ensures IsEdge(edges, way[i - 1], way[i])
      {
        assert way[i] == rest[i - 1] && (i > 1 ==> way[i - 1] == rest[i - 2]);
      }
    }
  }

  lemma {:induction false} WayReaches(edges: seq<Edge>, way: seq<Id>)
    requires IsWay(edges, way)
    ensures Reach(Links(edges), way[0], way[|way| - 1])
    decreases |way|
  {
    if |way| == 1 {
      ReachRefl(Links(edges), way[0]);
    } else {
      var rest := way[1..];
      forall i | 0 < i < |rest|
        ensures IsEdge(edges, rest[i - 1], rest[i])
      {
        assert IsEdge(edges, way[i + 1 - 1], way[i + 1]);
      }
      WayReaches(edges, rest);
      assert IsEdge(edges, way[1 - 1], way[1]);
      EdgeIsLink(edges, way[0], way[1]);
      ReachCons(Links(edges), way[0], way[1], way[|way| - 1]);
    }
  }

  /** The new edge would close a cycle: a way leads from its child to its parent. */
  ghost predicate Closes(edges: seq<Edge>, parent: Id, child: Id)
  {
    exists way :: IsWay(edges, way) && way[0] == child && way[|way| - 1] == parent
  }

  lemma RefusedIff(edges: seq<Edge>, added: Edge)
    ensures Refused(edges, added) <==> Closes(edges, added.parentId, added.childId)
  {
    if Refused(edges, added) {
      var n: nat :| Steps(Links(edges), n, added.childId, added.parentId);
      var way := StepsHaveWay(edges, n, added.childId, added.parentId);
    }
    if way :| IsWay(edges, way) && way[0] == added.childId && way[|way| - 1] == added.parentId {
      WayReaches(edges, way);
    }
  }

  /** A hand-made edge is accepted exactly when both its rows are stored and it closes no cycle. */
  lemma PostedIff(rows: seq<Row>, edges: seq<Edge>, added: Edge)
    ensures PostAllowed(rows, edges, added)
       <==> && added.parentId != "" && added.childId != "" && HasId(rows, added.parentId) && HasId(rows, added.childId)
            && !Closes(edges, added.parentId, added.childId)
    ensures Posted(rows, edges, added) == if PostAllowed(rows, edges, added) then edges + [added] else edges
  {
    RefusedIff(edges, added);
    FirstRowIs(rows, (r: Row) => r.id == added.parentId);
    FirstRowIs(rows, (r: Row) => r.id == added.childId);
  }

  // ----- the edges of a report -----

  /** The first device reported under the slug went into the row; or no device was, and it is the first stored row of
      that slug. */
  ghost predicate Names(rep: Report, slug: string, id: Id)
    requires |rep.devices| == |rep.actual|
  {
    if exists k :: 0 <= k < |rep.devices| && rep.devices[k].slug == slug then
      exists k :: FirstUnder(rep, slug, k) && rep.actual[k] == id
    else
      exists k :: FirstStored(rep.rows, slug, k) && rep.rows[k].id == id
  }

  ghost predicate FirstUnder(rep: Report, slug: string, k: int)
  {
    0 <= k < |rep.devices| && rep.devices[k].slug == slug && forall j :: 0 <= j < k ==> rep.devices[j].slug != slug
  }

  ghost predicate FirstStored(rows: seq<Row>, slug: string, k: int)
  {
    0 <= k < |rows| && rows[k].slug == slug && forall j :: 0 <= j < k ==> rows[j].slug != slug
  }

  lemma {:induction false} ReportedIs(rep: Report, slug: string, n: nat)
    requires |rep.devices| == |rep.actual| && n <= |rep.devices|
    requires forall j :: 0 <= j < n ==> rep.devices[j].slug != slug
    ensures match ReportedRow(rep, slug, n)
      case Some(id) => exists k :: FirstUnder(rep, slug, k) && rep.actual[k] == id
      case None => forall k :: 0 <= k < |rep.devices| ==> rep.devices[k].slug != slug
    decreases |rep.devices| - n
  {
    if n < |rep.devices| {
      if rep.devices[n].slug == slug {
        assert FirstUnder(rep, slug, n);
      } else {
        ReportedIs(rep, slug, n + 1);
      }
    }
  }

  /** What a slug names. */
  lemma ResolveIs(rep: Report, slug: string, id: Id)
    requires |rep.devices| == |rep.actual|
    ensures Resolve(rep, slug) == Some(id) <==> Names(rep, slug, id)
  {
    ReportedIs(rep, slug, 0);
    var f := (r: Row) => r.slug == slug;
    if First(rep.rows, f).Some? {
      var k := FirstFromIsFirst(rep.rows, f, 0);
      assert FirstStored(rep.rows, slug, k);
    }
    if k :| FirstUnder(rep, slug, k) && rep.actual[k] == id {
      assert forall j :: FirstUnder(rep, slug, j) ==> j == k;
    }
    if k :| FirstStored(rep.rows, slug, k) && rep.rows[k].id == id {
      assert First(rep.rows, f).Some?;
      assert forall j :: FirstStored(rep.rows, slug, j) ==> j == k;
    }
  }

  /** The `i`th reported edge was accepted, between these rows: both slugs name one, and no way led back. */
  ghost predicate Accepted(rep: Report, trace: seq<Progress>, wanted: seq<Wanted>, i: int, parent: Id, child: Id)
    requires |rep.devices| == |rep.actual|
  {
    && 0 <= i < |wanted| && i < |trace| && Names(rep, wanted[i].parentSlug, parent)
    && Names(rep, wanted[i].childSlug, child) && !Closes(trace[i].edges, parent, child)
  }

  lemma TakeIs(rep: Report, st: Progress, w: Wanted, parent: Id, child: Id)
    requires |rep.devices| == |rep.actual| && Names(rep, w.parentSlug, parent) && Names(rep, w.childSlug, child)
    ensures var added := Edge(rep.edgeId(st.minted), parent, child, w.relation, rep.source);
      TakeEdge(rep, st, w) ==
        if Closes(st.edges, parent, child) then st
        else Progress(Attached(rep.rows, st.edges, added), st.parented + {w.childSlug},
                      st.confirmed + {(parent, child, w.relation)}, st.minted + 1)
  {
    ResolveIs(rep, w.parentSlug, parent);
    ResolveIs(rep, w.childSlug, child);
    RefusedIff(st.edges, Edge(rep.edgeId(st.minted), parent, child, w.relation, rep.source));
  }

  lemma UnnamedIsSkipped(rep: Report, st: Progress, w: Wanted)
    requires |rep.devices| == |rep.actual|
    requires (forall id :: !Names(rep, w.parentSlug, id)) || forall id :: !Names(rep, w.childSlug, id)
    ensures TakeEdge(rep, st, w) == st
  {
    if Resolve(rep, w.parentSlug).Some? {
      ResolveIs(rep, w.parentSlug, Resolve(rep, w.parentSlug).value);
    }
    if Resolve(rep, w.childSlug).Some? {
      ResolveIs(rep, w.childSlug, Resolve(rep, w.childSlug).value);
    }
  }

  lemma NamesOne(rep: Report, slug: string, a: Id, b: Id)
    requires |rep.devices| == |rep.actual| && Names(rep, slug, a) && Names(rep, slug, b)
    ensures a == b
  {
    ResolveIs(rep, slug, a);
    ResolveIs(rep, slug, b);
  }

  /** One of the first `n` reported edges was accepted with this parent, child and relation. */
  ghost predicate ConfirmedBy(rep: Report, trace: seq<Progress>, wanted: seq<Wanted>, n: nat, key: Key)
    requires |rep.devices| == |rep.actual|
  {
    exists i: nat :: i < n && Confirms(rep, trace, wanted, i, key)
  }

  ghost predicate Confirms(rep: Report, trace: seq<Progress>, wanted: seq<Wanted>, i: nat, key: Key)
    requires |rep.devices| == |rep.actual|
  {
    Accepted(rep, trace, wanted, i, key.0, key.1) && wanted[i].relation == key.2
  }

  /** One of them was accepted for a child reported under this slug. */
  ghost predicate ParentedBy(rep: Report, trace: seq<Progress>, wanted: seq<Wanted>, n: nat, slug: string)
    requires |rep.devices| == |rep.actual|
  {
    exists i: nat :: i < n && Parents(rep, trace, wanted, i, slug)
  }

  ghost predicate Parents(rep: Report, trace: seq<Progress>, wanted: seq<Wanted>, i: nat, slug: string)
    requires |rep.devices| == |rep.actual|
  {
    (exists parent, child :: Accepted(rep, trace, wanted, i, parent, child)) && wanted[i].childSlug == slug
  }

  /** After the first `n` reported edges: confirmed are the accepted ones, and their child slugs have a parent. */
  lemma {:induction false} ConfirmedAre(rep: Report, trace: seq<Progress>, wanted: seq<Wanted>, n: nat)
    requires |rep.devices| == |rep.actual| && IsEdgeTrace(rep, trace, wanted) && n <= |wanted|
    requires trace[0].confirmed == {} && trace[0].parented == {}
    ensures forall key :: key in trace[n].confirmed <==> ConfirmedBy(rep, trace, wanted, n, key)
    ensures forall slug :: slug in trace[n].parented <==> ParentedBy(rep, trace, wanted, n, slug)
    decreases n
  {
    if n > 0 {
      ConfirmedAre(rep, trace, wanted, n - 1);
      ConfirmedStep(rep, trace, wanted, n - 1);
      OneMoreConfirmed(rep, trace, wanted, n);
    }
  }

  lemma OneMoreConfirmed(rep: Report, trace: seq<Progress>, wanted: seq<Wanted>, n: nat)
    requires |rep.devices| == |rep.actual| && n > 0
    ensures forall key :: ConfirmedBy(rep, trace, wanted, n, key)
                     <==> ConfirmedBy(rep, trace, wanted, n - 1, key) || Confirms(rep, trace, wanted, n - 1, key)
    ensures forall slug :: ParentedBy(rep, trace, wanted, n, slug)
                      <==> ParentedBy(rep, trace, wanted, n - 1, slug) || Parents(rep, trace, wanted, n - 1, slug)
  {
  }

  lemma ConfirmedStep(rep: Report, trace: seq<Progress>, wanted: seq<Wanted>, n: nat)
    requires |rep.devices| == |rep.actual| && IsEdgeTrace(rep, trace, wanted) && n < |wanted|
    ensures forall key :: key in trace[n + 1].confirmed
                     <==> key in trace[n].confirmed || Confirms(rep, trace, wanted, n, key)
    ensures forall slug :: slug in trace[n + 1].parented
                      <==> slug in trace[n].parented || Parents(rep, trace, wanted, n, slug)
  {
    var w, st := wanted[n], trace[n];
    assert TakeEdge(rep, st, w) == trace[n + 1];
    if parent, child :| Names(rep, w.parentSlug, parent) && Names(rep, w.childSlug, child) {
      TakeIs(rep, st, w, parent, child);
      forall p, c | Accepted(rep, trace, wanted, n, p, c)
        ensures p == parent && c == child
      {
        NamesOne(rep, w.parentSlug, p, parent);
        NamesOne(rep, w.childSlug, c, child);
      }
      assert Accepted(rep, trace, wanted, n, parent, child) <==> !Closes(st.edges, parent, child);
    } else {
      UnnamedIsSkipped(rep, st, w);
    }
  }

  // ----- the devices that no reported edge placed -----

  /** The `k`th device went into a row other than the site's, and no edge was accepted for its slug. */
  ghost predicate Unplaced(rep: Report, trace: seq<Progress>, wanted: seq<Wanted>, site: Id, k: int)
    requires |rep.devices| == |rep.actual|
  {
    0 <= k < |rep.devices| && rep.actual[k] != site && !ParentedBy(rep, trace, wanted, |wanted|, rep.devices[k].slug)
  }

  /** The site keeps its edges to exactly the unplaced devices, besides what the report confirmed; and of these, exactly
      the ones without any parent get one. */
  lemma SitePhaseIs(rep: Report, trace: seq<Progress>, wanted: seq<Wanted>, site: Id, parented: seq<Edge>,
                    confirmed: set<Key>)
    requires |rep.devices| == |rep.actual| && IsEdgeTrace(rep, trace, wanted)
    requires trace[0].confirmed == {} && trace[0].parented == {}
    requires SitePhase(rep, trace[|wanted|], site, parented, confirmed)
    ensures forall key :: key in confirmed
                     <==> ConfirmedBy(rep, trace, wanted, |wanted|, key)
                          || exists k :: Unplaced(rep, trace, wanted, site, k) && key == (site, rep.actual[k], "hosts")
    ensures forall e :: e in trace[|wanted|].edges ==> e in parented
    ensures forall id :: HasParent(parented, id)
                    <==> HasParent(trace[|wanted|].edges, id)
                         || exists k :: Unplaced(rep, trace, wanted, site, k) && rep.actual[k] == id
    ensures forall e :: e in parented && e !in trace[|wanted|].edges ==>
      && e.parentId == site && e.relation == "hosts" && e.source == rep.source
      && !HasParent(trace[|wanted|].edges, e.childId)
  {
    var linked, reported := trace[|wanted|], Devices(rep);
    ConfirmedAre(rep, trace, wanted, |wanted|);
    ParentedAre(linked.edges, linked.parented, site, rep.source, reported,
                FreshIds(rep.edgeId, linked.minted, |rep.devices|), |reported|);
    assert reported[..|reported|] == reported;
    forall d | d in reported && Loose(linked.parented, site, d)
      ensures exists k :: Unplaced(rep, trace, wanted, site, k) && rep.actual[k] == d.id
    {
      var k :| 0 <= k < |reported| && reported[k] == d;
      assert Unplaced(rep, trace, wanted, site, k);
    }
    forall k | Unplaced(rep, trace, wanted, site, k)
      ensures reported[k] in reported && Loose(linked.parented, site, reported[k]) && reported[k].id == rep.actual[k]
    {
    }
  }
}

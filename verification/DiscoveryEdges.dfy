/** How edges get into the resource graph: the reconciler's edge loop, the hand-made edge, and the parenting of
    loose devices to a site; and what keeps the graph free of cycles.
  */
module DiscoveryEdges {
  import opened Graph
  import opened Directory
  import opened ResourceMatcher

  /** The stored edges as arrows from parent to child. */
  ghost function Links(edges: seq<Edge>): set<(Id, Id)>
  {
    set e | e in edges :: (e.parentId, e.childId)
  }

  // ----- isDescendant -----

  ghost function Children(edges: seq<Edge>): set<Id>
  {
    set e | e in edges :: e.childId
  }

  /** What the search has established: it only meets rows below `root`, and everything below a row it is done
      with is done or on the stack. */
  ghost predicate Searching(r: set<(Id, Id)>, root: Id, candidate: Id, seen: set<Id>, stack: seq<Id>)
  {
    && (forall x :: x in stack || x in seen ==> Reach(r, root, x))
    && (forall x, y :: x in seen && (x, y) in r ==> y in seen || y in stack)
    && (root in seen || root in stack)
    && candidate !in seen
  }

  lemma SearchStops(r: set<(Id, Id)>, root: Id, candidate: Id, seen: set<Id>)
    requires Searching(r, root, candidate, seen, [])
    ensures !Reach(r, root, candidate)
  {
    if Reach(r, root, candidate) {
      ClosedReach(r, seen, root, candidate);
    }
  }

  /** Is `candidate` at or below `root`? Terminates on a store that already holds a cycle. */
  method IsDescendant(candidate: Id, root: Id, edges: seq<Edge>) returns (found: bool)
    ensures found <==> Reach(Links(edges), root, candidate)
  {
    var seen: set<Id> := {};
    var stack := [root];
    ReachRefl(Links(edges), root);
    while |stack| > 0
      invariant Searching(Links(edges), root, candidate, seen, stack)
      invariant forall x :: x in stack ==> x == root || x in Children(edges)
      decreases Children(edges) + {root} - seen, |stack|
    {
      var id := stack[|stack| - 1];
      assert id in stack;
      ghost var before := stack;
      stack := stack[..|stack| - 1];
      assert before == stack + [id];
      if id == candidate { return true; }
      if id in seen { continue; }
      seen := seen + {id};
      stack := PushChildren(edges, id, stack);
      SearchGoesOn(edges, root, candidate, seen - {id}, before, id, stack);
    }
    SearchStops(Links(edges), root, candidate, seen);
    return false;
  }

  method PushChildren(edges: seq<Edge>, id: Id, stack0: seq<Id>) returns (stack: seq<Id>)
    ensures forall x :: x in stack <==> x in stack0 || (id, x) in Links(edges)
  {
    stack := stack0;
    for n := 0 to |edges|
      invariant forall x :: x in stack <==>
        x in stack0 || exists k :: 0 <= k < n && edges[k].parentId == id && edges[k].childId == x
    {
      if edges[n].parentId == id { stack := stack + [edges[n].childId]; }
    }
    forall x
      ensures x in stack <==> x in stack0 || (id, x) in Links(edges)
    {
      if (id, x) in Links(edges) {
        var e :| e in edges && (e.parentId, e.childId) == (id, x);
        var k :| 0 <= k < |edges| && edges[k] == e;
      }
    }
  }

  lemma SearchGoesOn(edges: seq<Edge>, root: Id, candidate: Id, seen: set<Id>, before: seq<Id>, id: Id, stack: seq<Id>)
    requires Searching(Links(edges), root, candidate, seen, before) && id in before && id != candidate
    requires forall x :: x in before ==> x == id || x in stack
    requires forall x :: x in stack ==> x in before || (id, x) in Links(edges)
    requires forall x :: (id, x) in Links(edges) ==> x in stack
    ensures Searching(Links(edges), root, candidate, seen + {id}, stack)
  {
    forall x | x in stack
      ensures Reach(Links(edges), root, x)
    {
      if (id, x) in Links(edges) {
        ReachSnoc(Links(edges), root, id, x);
      }
    }
  }

  // ----- one edge of the edge loop -----

  predicate IsSite(rows: seq<Row>, id: Id)
  {
    var r := First(rows, (r: Row) => r.id == id);
    r.Some? && r.value.kind == "site"
  }

  /** The edge of the same child and relation that a source made earlier, which the new one takes the place of. */
  function Prior(edges: seq<Edge>, child: Id, relation: string): Option<Edge>
  {
    First(edges, (e: Edge) => e.childId == child && e.relation == relation && e.source != "")
  }

  predicate Exists(edges: seq<Edge>, parent: Id, child: Id, relation: string)
  {
    exists e :: e in edges && e.parentId == parent && e.childId == child && e.relation == relation
  }

  predicate KeyMatches(e: Edge, added: Edge)
  {
    e.parentId == added.parentId && e.childId == added.childId && e.relation == added.relation
  }

  function Created(edges: seq<Edge>, added: Edge): seq<Edge>
  {
    if Exists(edges, added.parentId, added.childId, added.relation) then edges
    else
      var prior := Prior(edges, added.childId, added.relation);
      (if prior.Some? then Keeping(edges, (e: Edge) => e.id != prior.value.id) else edges) + [added]
  }

  /** A direct edge from a site, made redundant by a closer parent. */
  predicate Redundant(rows: seq<Row>, e: Edge, parent: Id, child: Id)
  {
    e.childId == child && e.relation == "hosts" && e.parentId != parent && IsSite(rows, e.parentId)
  }

  function Attached(rows: seq<Row>, edges: seq<Edge>, added: Edge): seq<Edge>
  {
    var created := Created(edges, added);
    if added.relation != "hosts" then created
    else Keeping(created, (e: Edge) => !Redundant(rows, e, added.parentId, added.childId))
  }

  /** The edge is attached unless that would close a cycle; an edge from a row to itself always would. */
  ghost predicate Refused(edges: seq<Edge>, added: Edge)
  {
    Reach(Links(edges), added.childId, added.parentId)
  }

  ghost function LinkOne(rows: seq<Row>, edges: seq<Edge>, added: Edge): seq<Edge>
  {
    if Refused(edges, added) then edges else Attached(rows, edges, added)
  }

  method AttachEdge(rows: seq<Row>, edges: seq<Edge>, added: Edge) returns (edges': seq<Edge>, refused: bool)
    ensures edges' == LinkOne(rows, edges, added) && (refused <==> Refused(edges, added))
  {
    edges', refused := edges, true;
    ReachRefl(Links(edges), added.childId);
    if added.parentId == added.childId { return; }
    refused := IsDescendant(added.parentId, added.childId, edges);
    if refused { return; }
    if !Exists(edges', added.parentId, added.childId, added.relation) {
      var prior := Prior(edges', added.childId, added.relation);
      if prior.Some? {
        edges' := Keeping(edges', (e: Edge) => e.id != prior.value.id);
      }
      edges' := edges' + [added];
    }
    if added.relation == "hosts" {
      edges' := Keeping(edges', (e: Edge) => !Redundant(rows, e, added.parentId, added.childId));
    }
  }

  lemma AttachedAre(rows: seq<Row>, edges: seq<Edge>, added: Edge, e: Edge)
    requires forall f, g :: f in edges && g in edges && f.id == g.id ==> f == g
    ensures e in Attached(rows, edges, added) ==> e in edges || e == added
    ensures e in edges && e !in Attached(rows, edges, added) ==>
      && e.childId == added.childId && e.relation == added.relation && e.parentId != added.parentId
      && (e.source != "" || (e.relation == "hosts" && IsSite(rows, e.parentId)))
  {
    var created := Created(edges, added);
    if e in edges && e !in created {
      var prior := Prior(edges, added.childId, added.relation);
      assert prior.Some? && e == prior.value;
    }
  }

  /** An edge that is not refused is there afterwards, whatever it displaces; a child then has no other parent
      among the sites, and an edge is lost only to one with the same child and relation. */
  lemma AcceptedIsThere(rows: seq<Row>, edges: seq<Edge>, added: Edge)
    requires forall f, g :: f in edges && g in edges && f.id == g.id ==> f == g
    requires !Refused(edges, added)
    ensures var linked := LinkOne(rows, edges, added);
      && Exists(linked, added.parentId, added.childId, added.relation)
      && (forall e :: e in linked && added.relation == "hosts" ==> !Redundant(rows, e, added.parentId, added.childId))
      && (forall e :: e in linked && e !in edges ==> e == added)
      && (forall e :: e in edges && e !in linked ==>
            e.childId == added.childId && e.relation == added.relation && e.parentId != added.parentId)
  {
    var created := Created(edges, added);
    var kept := added;
    if Exists(edges, added.parentId, added.childId, added.relation) {
      kept :| kept in edges && KeyMatches(kept, added);
    }
    assert KeyMatches(kept, added) && kept in created;
    assert !Redundant(rows, kept, added.parentId, added.childId);
    assert kept in LinkOne(rows, edges, added) && KeyMatches(kept, added);
    forall e
      ensures e in LinkOne(rows, edges, added) ==> e in edges || e == added
      ensures e in edges && e !in LinkOne(rows, edges, added) ==>
        e.childId == added.childId && e.relation == added.relation && e.parentId != added.parentId
    {
      AttachedAre(rows, edges, added, e);
    }
  }

  lemma AttachedIsFew(rows: seq<Row>, edges: seq<Edge>, added: Edge)
    ensures Links(Attached(rows, edges, added)) <= Links(edges) + {(added.parentId, added.childId)}
  {
    forall e | e in Attached(rows, edges, added)
      ensures e in edges || e == added
    {
      assert e in Created(edges, added);
    }
  }

  /** Whatever is asked for, the edge loop keeps an acyclic graph acyclic. */
  lemma LinkOneStaysAcyclic(rows: seq<Row>, edges: seq<Edge>, added: Edge)
    requires Acyclic(Links(edges))
    ensures Acyclic(Links(LinkOne(rows, edges, added)))
  {
    if !Refused(edges, added) {
      AddArrowAcyclic(Links(edges), added.parentId, added.childId);
      AttachedIsFew(rows, edges, added);
      AcyclicMono(Links(Attached(rows, edges, added)), Links(edges) + {(added.parentId, added.childId)});
    }
  }

  // ----- the hand-made edge -----

  /** POST `/edges`: refused if an end is missing or a cycle would close. */
  ghost function Posted(rows: seq<Row>, edges: seq<Edge>, added: Edge): seq<Edge>
  {
    if !PostAllowed(rows, edges, added) then edges else edges + [added]
  }

  ghost predicate PostAllowed(rows: seq<Row>, edges: seq<Edge>, added: Edge)
  {
    && added.Usable() && !Refused(edges, added)
    && First(rows, (r: Row) => r.id == added.parentId).Some? && First(rows, (r: Row) => r.id == added.childId).Some?
  }

  method PostEdge(rows: seq<Row>, edges: seq<Edge>, parentId: Id, childId: Id, relation: string, newId: Id)
    returns (edges': seq<Edge>, accepted: bool)
    ensures var added := Edge(newId, parentId, childId, if relation == "" then "hosts" else relation, "");
      edges' == Posted(rows, edges, added) && (accepted <==> PostAllowed(rows, edges, added))
  {
    ReachRefl(Links(edges), childId);
    if parentId == "" || childId == "" { return edges, false; }
    if parentId == childId { return edges, false; }
    var parent := First(rows, (r: Row) => r.id == parentId);
    if parent == None { return edges, false; }
    var child := First(rows, (r: Row) => r.id == childId);
    if child == None { return edges, false; }
    var cycle := IsDescendant(parentId, childId, edges);
    if cycle { return edges, false; }
    return edges + [Edge(newId, parentId, childId, if relation == "" then "hosts" else relation, "")], true;
  }

  // ----- any run of these -----

  datatype EdgeStep =
    | Report(rows: seq<Row>, added: Edge)
    | Post(rows: seq<Row>, added: Edge)
    | Delete(gone: set<Id>)

  ghost function Take(edges: seq<Edge>, step: EdgeStep): seq<Edge>
  {
    match step
    case Report(rows, added) => LinkOne(rows, edges, added)
    case Post(rows, added) => Posted(rows, edges, added)
    case Delete(gone) => Keeping(edges, (e: Edge) => e.id !in gone)
  }

  ghost function TakeAll(edges: seq<Edge>, steps: seq<EdgeStep>): seq<Edge>
    decreases |steps|
  {
    if steps == [] then edges else Take(TakeAll(edges, steps[..|steps| - 1]), steps[|steps| - 1])
  }

  lemma TakeStaysAcyclic(edges: seq<Edge>, step: EdgeStep)
    requires Acyclic(Links(edges))
    ensures Acyclic(Links(Take(edges, step)))
  {
    match step
    case Report(rows, added) => LinkOneStaysAcyclic(rows, edges, added);
    case Post(rows, added) =>
      if PostAllowed(rows, edges, added) {
        AddArrowAcyclic(Links(edges), added.parentId, added.childId);
        AcyclicMono(Links(edges + [added]), Links(edges) + {(added.parentId, added.childId)});
      }
    case Delete(gone) => AcyclicMono(Links(Keeping(edges, (e: Edge) => e.id !in gone)), Links(edges));
  }

  /** Any run of reported edges, hand-made edges and deletions, from an acyclic start: acyclic, and no row is
      its own parent. */
  lemma {:induction false} RunsStayAcyclic(edges: seq<Edge>, steps: seq<EdgeStep>)
    requires Acyclic(Links(edges))
    ensures Acyclic(Links(TakeAll(edges, steps)))
    ensures forall e :: e in TakeAll(edges, steps) ==> e.parentId != e.childId
    decreases |steps|
  {
    if steps != [] {
      RunsStayAcyclic(edges, steps[..|steps| - 1]);
      TakeStaysAcyclic(TakeAll(edges, steps[..|steps| - 1]), steps[|steps| - 1]);
    }
    NoSelfEdges(TakeAll(edges, steps));
  }

  lemma NoSelfEdges(edges: seq<Edge>)
    requires Acyclic(Links(edges))
    ensures forall e :: e in edges ==> e.parentId != e.childId
  {
    forall e | e in edges
      ensures e.parentId != e.childId
    {
      assert (e.parentId, e.childId) in Links(edges);
      ReachRefl(Links(edges), e.childId);
    }
  }

  // ----- parenting loose devices to the site -----

  ghost function Star<T(!new)>(center: T, leaves: set<T>): set<(T, T)>
  {
    set c | c in leaves :: (center, c)
  }

  lemma {:induction false} StarAddsNoWayBack<T(!new)>(r: set<(T, T)>, center: T, leaves: set<T>, n: nat, x: T)
    requires Steps(r + Star(center, leaves), n, x, center)
    ensures Reach(r, x, center)
    decreases n
  {
    ReachRefl(r, center);
    if n > 0 && x != center {
      var z :| (x, z) in r + Star(center, leaves) && Steps(r + Star(center, leaves), n - 1, z, center);
      StarAddsNoWayBack(r, center, leaves, n - 1, z);
      ReachCons(r, x, z, center);
    }
  }

  /** Giving one row several new children keeps a graph acyclic exactly when none of them was above it. */
  lemma {:induction false} AddStarAcyclic<T(!new)>(r: set<(T, T)>, center: T, leaves: set<T>)
    requires Acyclic(r)
    ensures Acyclic(r + Star(center, leaves)) <==> forall c :: c in leaves ==> !Reach(r, c, center)
    decreases leaves
  {
    var r' := r + Star(center, leaves);
    if c :| c in leaves && Reach(r, c, center) {
      ReachMono(r, r', c, center);
      assert (center, c) in r';
    } else if c :| c in leaves {
      var fewer := leaves - {c};
      AddStarAcyclic(r, center, fewer);
      var r1 := r + Star(center, fewer);
      if Reach(r1, c, center) {
        var n: nat :| Steps(r1, n, c, center);
        StarAddsNoWayBack(r, center, fewer, n, c);
      }
      AddArrowAcyclic(r1, center, c);
      assert r' == r1 + {(center, c)};
    } else {
      assert r' == r;
    }
  }

  /** A reported device, as the row it went into and the slug it was reported under. */
  datatype Reported = Reported(slug: string, id: Id)

  predicate HasParent(edges: seq<Edge>, id: Id)
  {
    exists e :: e in edges && e.childId == id
  }

  /** A device that no reported edge gave a parent. */
  predicate Loose(parented: set<string>, site: Id, d: Reported)
  {
    d.id != site && d.slug !in parented
  }

  /** The edges after the first `n` devices; `newIds` are the ids minted for new edges. */
  function Parented(edges: seq<Edge>, parented: set<string>, site: Id, source: string, devices: seq<Reported>,
                    newIds: seq<Id>, n: nat): seq<Edge>
    requires n <= |devices| <= |newIds|
  {
    if n == 0 then edges
    else
      var before := Parented(edges, parented, site, source, devices, newIds, n - 1);
      var d := devices[n - 1];
      if Loose(parented, site, d) && !HasParent(before, d.id) then
        before + [Edge(newIds[n - 1], site, d.id, "hosts", source)]
      else before
  }

  method ParentToSite(edges0: seq<Edge>, parented: set<string>, site: Id, source: string, devices: seq<Reported>,
                      newIds: seq<Id>)
    returns (edges: seq<Edge>, keys: set<(Id, Id, string)>)
    requires |devices| <= |newIds|
    ensures edges == Parented(edges0, parented, site, source, devices, newIds, |devices|)
    ensures keys == set d | d in devices && Loose(parented, site, d) :: (site, d.id, "hosts")
  {
    edges, keys := edges0, {};
    for n := 0 to |devices|
      invariant edges == Parented(edges0, parented, site, source, devices, newIds, n)
      invariant keys == set d | d in devices[..n] && Loose(parented, site, d) :: (site, d.id, "hosts")
    {
      var d := devices[n];
      assert devices[..n + 1] == devices[..n] + [d];
      if Loose(parented, site, d) {
        if !HasParent(edges, d.id) {
          edges := edges + [Edge(newIds[n], site, d.id, "hosts", source)];
        }
        keys := keys + {(site, d.id, "hosts")};
      }
    }
    assert devices[..|devices|] == devices;
  }

  /** The rows the phase adopts: loose, and without any parent when it starts. */
  ghost function Adopted(edges: seq<Edge>, parented: set<string>, site: Id, devices: seq<Reported>): set<Id>
  {
    set d | d in devices && Loose(parented, site, d) && !HasParent(edges, d.id) :: d.id
  }

  /** `after` is `edges` and one site edge for each adopted row. */
  ghost predicate IsParented(edges: seq<Edge>, site: Id, source: string, newIds: seq<Id>, adopted: set<Id>,
                             after: seq<Edge>)
  {
    && Links(after) == Links(edges) + Star(site, adopted)
    && (forall e :: e in edges ==> e in after)
    && (forall e :: e in after && e !in edges ==>
          e.parentId == site && e.childId in adopted && e.relation == "hosts" && e.source == source && e.id in newIds)
    && (forall id :: HasParent(after, id) <==> HasParent(edges, id) || id in adopted)
  }

  lemma {:induction false} ParentedAre(edges: seq<Edge>, parented: set<string>, site: Id, source: string,
                                       devices: seq<Reported>, newIds: seq<Id>, n: nat)
    requires n <= |devices| <= |newIds|
    ensures IsParented(edges, site, source, newIds, Adopted(edges, parented, site, devices[..n]),
                       Parented(edges, parented, site, source, devices, newIds, n))
    decreases n
  {
    var adopted := Adopted(edges, parented, site, devices[..n]);
    if n > 0 {
      var d := devices[n - 1];
      var before := Adopted(edges, parented, site, devices[..n - 1]);
      ParentedAre(edges, parented, site, source, devices, newIds, n - 1);
      assert devices[..n] == devices[..n - 1] + [d];
      assert adopted == if Loose(parented, site, d) && !HasParent(edges, d.id) then before + {d.id} else before;
      if Loose(parented, site, d) {
        AdoptOne(edges, parented, site, source, newIds, before,
                 Parented(edges, parented, site, source, devices, newIds, n - 1), d, newIds[n - 1]);
        assert before + {d.id} == before <==> d.id in before;
      }
    } else {
      assert adopted == {} && Star(site, adopted) == {};
    }
  }

  lemma AdoptOne(edges: seq<Edge>, parented: set<string>, site: Id, source: string, newIds: seq<Id>,
                 adopted: set<Id>, before: seq<Edge>, d: Reported, newId: Id)
    requires newId in newIds && IsParented(edges, site, source, newIds, adopted, before) && Loose(parented, site, d)
    ensures !HasParent(before, d.id) ==>
      IsParented(edges, site, source, newIds, adopted + {d.id}, before + [Edge(newId, site, d.id, "hosts", source)])
    ensures HasParent(before, d.id) && !HasParent(edges, d.id) ==> d.id in adopted
  {
    var after := before + [Edge(newId, site, d.id, "hosts", source)];
    assert Links(after) == Links(before) + {(site, d.id)};
    assert Star(site, adopted + {d.id}) == Star(site, adopted) + {(site, d.id)};
    forall id
      ensures HasParent(after, id) <==> HasParent(before, id) || id == d.id
    {
      assert after[|before|] in after;
    }
  }

  /** Parenting to the site keeps the graph acyclic exactly when no adopted row is above the site. */
  lemma ParentingAcyclicIff(edges: seq<Edge>, parented: set<string>, site: Id, source: string, devices: seq<Reported>,
                            newIds: seq<Id>)
    requires Acyclic(Links(edges)) && |devices| <= |newIds|
    ensures Acyclic(Links(Parented(edges, parented, site, source, devices, newIds, |devices|)))
       <==> forall c :: c in Adopted(edges, parented, site, devices) ==> !Reach(Links(edges), c, site)
  {
    ParentedAre(edges, parented, site, source, devices, newIds, |devices|);
    assert devices[..|devices|] == devices;
    AddStarAcyclic(Links(edges), site, Adopted(edges, parented, site, devices));
  }

  /** Why that needs a condition: a loose device without a parent that the site hangs below is adopted all the same. */
  lemma ParentingCanCloseACycle(device: Reported, site: Id, source: string, edgeId: Id, newId: Id)
    requires device.id != site
    ensures var edges := [Edge(edgeId, device.id, site, "hosts", "")];
      && Acyclic(Links(edges))
      && !Acyclic(Links(Parented(edges, {}, site, source, [device], [newId], 1)))
  {
    var edges := [Edge(edgeId, device.id, site, "hosts", "")];
    assert edges[0] in edges && (device.id, site) in Links(edges);
    RankedAcyclic(Links(edges), (id: Id) => if id == device.id then 0 else 1);
    ParentingAcyclicIff(edges, {}, site, source, [device], [newId]);
    assert device in [device] && device.id in Adopted(edges, {}, site, [device]);
    ReachRefl(Links(edges), site);
    ReachCons(Links(edges), device.id, site, site);
  }

  /** In particular, a site with no parent of its own is safe. */
  lemma TopSiteIsSafe(edges: seq<Edge>, parented: set<string>, site: Id, source: string, devices: seq<Reported>,
                      newIds: seq<Id>)
    requires Acyclic(Links(edges)) && |devices| <= |newIds| && !HasParent(edges, site)
    ensures Acyclic(Links(Parented(edges, parented, site, source, devices, newIds, |devices|)))
  {
    ParentingAcyclicIff(edges, parented, site, source, devices, newIds);
    forall c | c in Adopted(edges, parented, site, devices)
      ensures !Reach(Links(edges), c, site)
    {
      if Reach(Links(edges), c, site) {
        ReachSplit(Links(edges), c, site);
        var p := BeyondUnsnoc(Links(edges), c, site);
      }
    }
  }
}

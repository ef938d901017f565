/** The reconciler: a discovery report folded into the stored rows and edges phase by phase, and the two ways
    discovery output is retired again.
  */
module DiscoveryReconciler {
  import opened Graph
  import opened Directory
  import opened AccessLevels
  import opened ResourceMatcher
  import opened DiscoveryMerge
  import opened DiscoveryEdges
  import opened DiscoveryRetention

  /** An edge as a source reports it, by slug. */
  datatype Wanted = Wanted(parentSlug: string, childSlug: string, relation: string)

  type Key = (Id, Id, string)

  function KeyOf(e: Edge): Key { (e.parentId, e.childId, e.relation) }

  // ----- what the store must look like -----

  /** Edges are told apart by id, and `edgeId` mints new ones from `minted` on. */
  ghost predicate GoodEdges(edges: seq<Edge>, edgeId: nat -> Id, minted: nat)
  {
    && (forall e, f :: e in edges && f in edges && e.id == f.id ==> e == f)
    && (forall m, n :: edgeId(m) == edgeId(n) ==> m == n)
    && (forall e, n :: e in edges && n >= minted ==> e.id != edgeId(n))
  }

  // ----- the edge loop -----

  /** The merged report: where its devices went, and the rows as they are now. */
  datatype Report = Report(source: string, devices: seq<Device>, actual: seq<Id>, rows: seq<Row>, edgeId: nat -> Id)

  ghost predicate GoodReport(rep: Report)
  {
    |rep.actual| == |rep.devices| && forall k :: 0 <= k < |rep.actual| ==> HasId(rep.rows, rep.actual[k])
  }

  function ReportedRow(rep: Report, slug: string, n: nat): Option<Id>
    requires n <= |rep.devices| == |rep.actual|
    decreases |rep.devices| - n
  {
    if n == |rep.devices| then None
    else if rep.devices[n].slug == slug then Some(rep.actual[n])
    else ReportedRow(rep, slug, n + 1)
  }

  /** The row a slug names: a device of this report, else a stored row. */
  function Resolve(rep: Report, slug: string): Option<Id>
    requires |rep.devices| == |rep.actual|
  {
    var reported := ReportedRow(rep, slug, 0);
    if reported.Some? then reported
    else
      match First(rep.rows, (r: Row) => r.slug == slug)
      case None => None
      case Some(r) => Some(r.id)
  }

  lemma {:induction false} ReportedRowIsStored(rep: Report, slug: string, n: nat)
    requires GoodReport(rep) && n <= |rep.devices|
    ensures ReportedRow(rep, slug, n).Some? ==> HasId(rep.rows, ReportedRow(rep, slug, n).value)
    decreases |rep.devices| - n
  {
    if n < |rep.devices| {
      ReportedRowIsStored(rep, slug, n + 1);
    }
  }

  lemma ResolvedIsStored(rep: Report, slug: string)
    requires GoodReport(rep)
    ensures Resolve(rep, slug).Some? ==> HasId(rep.rows, Resolve(rep, slug).value)
  {
    ReportedRowIsStored(rep, slug, 0);
    FirstRowIs(rep.rows, (r: Row) => r.slug == slug);
  }

  /** The loop so far: the edges, the reported slugs that got a parent, the edges confirmed, the ids minted. */
  datatype Progress = Progress(edges: seq<Edge>, parented: set<string>, confirmed: set<Key>, minted: nat)

  ghost function TakeEdge(rep: Report, st: Progress, w: Wanted): Progress
    requires |rep.devices| == |rep.actual|
  {
    var parent, child := Resolve(rep, w.parentSlug), Resolve(rep, w.childSlug);
    if parent.None? || child.None? then st
    else
      var added := Edge(rep.edgeId(st.minted), parent.value, child.value, w.relation, rep.source);
      if Refused(st.edges, added) then st
      else
        Progress(LinkOne(rep.rows, st.edges, added), st.parented + {w.childSlug}, st.confirmed + {KeyOf(added)},
                 st.minted + 1)
  }

  /** The states of the edge loop. */
  ghost predicate IsEdgeTrace(rep: Report, trace: seq<Progress>, wanted: seq<Wanted>)
    requires |rep.devices| == |rep.actual|
  {
    && |trace| == |wanted| + 1
    && forall i {:trigger TakeEdge(rep, trace[i], wanted[i])} ::
         0 <= i < |wanted| ==> TakeEdge(rep, trace[i], wanted[i]) == trace[i + 1]
  }

  method TakeReportedEdge(rep: Report, st: Progress, w: Wanted) returns (st': Progress)
    requires |rep.devices| == |rep.actual|
    ensures st' == TakeEdge(rep, st, w)
  {
    var parent := Resolve(rep, w.parentSlug);
    var child := Resolve(rep, w.childSlug);
    if parent == None || child == None { return st; }
    var added := Edge(rep.edgeId(st.minted), parent.value, child.value, w.relation, rep.source);
    var edges, refused := AttachEdge(rep.rows, st.edges, added);
    if refused { return st; }
    return Progress(edges, st.parented + {w.childSlug}, st.confirmed + {KeyOf(added)}, st.minted + 1);
  }

  method LinkReported(rep: Report, edges: seq<Edge>, minted: nat, wanted: seq<Wanted>)
    returns (st: Progress, ghost trace: seq<Progress>)
    requires |rep.devices| == |rep.actual|
    ensures IsEdgeTrace(rep, trace, wanted)
    ensures trace[0] == Progress(edges, {}, {}, minted) && st == trace[|wanted|]
  {
    st := Progress(edges, {}, {}, minted);
    trace := [st];
    for n := 0 to |wanted|
      invariant |trace| == n + 1 && trace[n] == st && trace[0] == Progress(edges, {}, {}, minted)
      invariant IsEdgeTrace(rep, trace, wanted[..n])
    {
      var next := TakeReportedEdge(rep, st, wanted[n]);
      EdgeTraceSnoc(rep, trace, wanted, n, next);
      st, trace := next, trace + [next];
    }
    assert wanted[..|wanted|] == wanted;
  }

  lemma EdgeTraceSnoc(rep: Report, trace: seq<Progress>, wanted: seq<Wanted>, n: nat, next: Progress)
    requires |rep.devices| == |rep.actual| && n < |wanted| && IsEdgeTrace(rep, trace, wanted[..n])
    requires TakeEdge(rep, trace[n], wanted[n]) == next
    ensures IsEdgeTrace(rep, trace + [next], wanted[..n + 1])
  {
    var longer := trace + [next];
    forall i | 0 <= i < n + 1
      ensures TakeEdge(rep, longer[i], wanted[..n + 1][i]) == longer[i + 1]
    {
      assert longer[i] == trace[i] && wanted[..n + 1][i] == wanted[i];
      if i < n {
        assert wanted[..n][i] == wanted[i] && TakeEdge(rep, trace[i], wanted[..n][i]) == trace[i + 1];
      }
    }
  }

  /** A confirmed edge took the place of `e`: a source's earlier parent for that child and relation, or a
      direct edge from a site. */
  ghost predicate Superseded(rep: Report, confirmed: set<Key>, e: Edge)
  {
    exists k :: k in confirmed && k.1 == e.childId && k.2 == e.relation && k.0 != e.parentId
      && (e.source != "" || (e.relation == "hosts" && IsSite(rep.rows, e.parentId)))
  }

  /** What the loop keeps. */
  ghost predicate LinkInv(rep: Report, edges0: seq<Edge>, st: Progress)
  {
    && GoodEdges(st.edges, rep.edgeId, st.minted)
    && NoDanglingEdge(rep.rows, st.edges)
    && (forall k :: k in st.confirmed ==> HasId(rep.rows, k.0) && HasId(rep.rows, k.1) && k.0 != k.1)
    && (forall e :: e in st.edges && e !in edges0 ==> e.source == rep.source && KeyOf(e) in st.confirmed)
    && (forall e :: e in edges0 && e !in st.edges ==> Superseded(rep, st.confirmed, e))
    && (Acyclic(Links(edges0)) ==> Acyclic(Links(st.edges)))
  }

  lemma TakeEdgeKeeps(rep: Report, edges0: seq<Edge>, st: Progress, w: Wanted)
    requires GoodReport(rep) && LinkInv(rep, edges0, st)
    ensures LinkInv(rep, edges0, TakeEdge(rep, st, w))
  {
    ResolvedIsStored(rep, w.parentSlug);
    ResolvedIsStored(rep, w.childSlug);
    var parent, child := Resolve(rep, w.parentSlug), Resolve(rep, w.childSlug);
    if parent.Some? && child.Some? {
      var added := Edge(rep.edgeId(st.minted), parent.value, child.value, w.relation, rep.source);
      if !Refused(st.edges, added) {
        ReachRefl(Links(st.edges), added.childId);
        if Acyclic(Links(st.edges)) {
          LinkOneStaysAcyclic(rep.rows, st.edges, added);
        }
        AttachKeeps(rep, edges0, st, added, w.childSlug);
      }
    }
  }

  lemma AttachKeepsGood(rows: seq<Row>, edges: seq<Edge>, edgeId: nat -> Id, minted: nat, added: Edge)
    requires GoodEdges(edges, edgeId, minted) && added.id == edgeId(minted)
    ensures GoodEdges(Attached(rows, edges, added), edgeId, minted + 1)
  {
    forall e | e in Attached(rows, edges, added)
      ensures e in edges || e == added
    {
      AttachedAre(rows, edges, added, e);
    }
  }

  lemma AttachSupersedes(rep: Report, edges0: seq<Edge>, st: Progress, added: Edge)
    requires LinkInv(rep, edges0, st)
    ensures forall e :: e in edges0 && e !in Attached(rep.rows, st.edges, added) ==>
      Superseded(rep, st.confirmed + {KeyOf(added)}, e)
  {
    forall e | e in edges0 && e !in Attached(rep.rows, st.edges, added)
      ensures Superseded(rep, st.confirmed + {KeyOf(added)}, e)
    {
      if e in st.edges {
        AttachedAre(rep.rows, st.edges, added, e);
        assert KeyOf(added) in st.confirmed + {KeyOf(added)};
      } else {
        assert Superseded(rep, st.confirmed, e);
      }
    }
  }

  lemma AttachKeeps(rep: Report, edges0: seq<Edge>, st: Progress, added: Edge, slug: string)
    requires LinkInv(rep, edges0, st) && added.id == rep.edgeId(st.minted) && added.source == rep.source
    requires HasId(rep.rows, added.parentId) && HasId(rep.rows, added.childId) && added.parentId != added.childId
    requires Acyclic(Links(st.edges)) ==> Acyclic(Links(Attached(rep.rows, st.edges, added)))
    ensures LinkInv(rep, edges0, Progress(Attached(rep.rows, st.edges, added), st.parented + {slug},
                                          st.confirmed + {KeyOf(added)}, st.minted + 1))
  {
    AttachKeepsGood(rep.rows, st.edges, rep.edgeId, st.minted, added);
    AttachSupersedes(rep, edges0, st, added);
    forall e | e in Attached(rep.rows, st.edges, added)
      ensures e in st.edges || e == added
    {
      AttachedAre(rep.rows, st.edges, added, e);
    }
    InvAfter(rep, edges0, st, added, slug, Attached(rep.rows, st.edges, added));
  }

  lemma InvAfter(rep: Report, edges0: seq<Edge>, st: Progress, added: Edge, slug: string, after: seq<Edge>)
    requires LinkInv(rep, edges0, st) && added.source == rep.source
    requires HasId(rep.rows, added.parentId) && HasId(rep.rows, added.childId) && added.parentId != added.childId
    requires Acyclic(Links(st.edges)) ==> Acyclic(Links(after))
    requires GoodEdges(after, rep.edgeId, st.minted + 1)
    requires forall e :: e in after ==> e in st.edges || e == added
    requires forall e :: e in edges0 && e !in after ==> Superseded(rep, st.confirmed + {KeyOf(added)}, e)
    ensures LinkInv(rep, edges0, Progress(after, st.parented + {slug}, st.confirmed + {KeyOf(added)}, st.minted + 1))
  {
  }

  lemma {:induction false} EdgeTraceKeeps(rep: Report, trace: seq<Progress>, wanted: seq<Wanted>, n: nat)
    requires GoodReport(rep) && IsEdgeTrace(rep, trace, wanted) && n <= |wanted|
    requires LinkInv(rep, trace[0].edges, trace[0])
    ensures LinkInv(rep, trace[0].edges, trace[n])
    decreases n
  {
    if n > 0 {
      EdgeTraceKeeps(rep, trace, wanted, n - 1);
      assert TakeEdge(rep, trace[n - 1], wanted[n - 1]) == trace[n];
      TakeEdgeKeeps(rep, trace[0].edges, trace[n - 1], wanted[n - 1]);
    }
  }

  // ----- a whole run -----

  function Devices(rep: Report): seq<Reported>
    requires |rep.devices| == |rep.actual|
  {
    seq(|rep.devices|, k requires 0 <= k < |rep.devices| => Reported(rep.devices[k].slug, rep.actual[k]))
  }

  function FreshIds(edgeId: nat -> Id, minted: nat, n: nat): (ids: seq<Id>)
    ensures |ids| == n
  {
    seq(n, k requires 0 <= k < n => edgeId(minted + k))
  }

  /** A source that reports topology may only prune edges of its own that it did not confirm. */
  predicate Unconfirmed(e: Edge, source: string, confirmed: set<Key>)
  {
    e.source == source && KeyOf(e) !in confirmed
  }

  /** The phases of a run, for the record. */
  datatype Audit = Audit(merge: seq<Inventory>, link: seq<Progress>, parented: seq<Edge>, confirmed: set<Key>)

  ghost function ReportOf(run: Run, devices: seq<Device>, edgeId: nat -> Id, audit: Audit): Report
    requires audit.merge != []
  {
    var merged := audit.merge[|audit.merge| - 1];
    Report.Report(run.source, devices, merged.actual, merged.rows, edgeId)
  }

  /** The store, its site index and what it has minted, as a run finds them. */
  datatype Start = Start(store: Store, siteOf: map<Id, Option<Id>>, rowsMinted: nat, edgesMinted: nat,
                         edgeId: nat -> Id)

  function VanishedFrom(rep: Report, wanted: seq<Wanted>): Judge
  {
    Vanished(rep.source, (set id | id in rep.actual), wanted != [])
  }

  // ----- what a run does, phase by phase -----

  ghost predicate MergePhase(run: Run, start: Start, devices: seq<Device>, audit: Audit)
  {
    && IsTrace(run, audit.merge, devices) && |audit.merge| == |devices| + 1
    && audit.merge[0] == Inventory(start.store.rows, start.siteOf, start.rowsMinted, [])
    && |ReportOf(run, devices, start.edgeId, audit).actual| == |devices|
  }

  ghost predicate LinkPhase(rep: Report, start: Start, wanted: seq<Wanted>, link: seq<Progress>)
    requires |rep.devices| == |rep.actual|
  {
    IsEdgeTrace(rep, link, wanted) && link[0] == Progress(start.store.edges, {}, {}, start.edgesMinted)
  }

  ghost predicate SitePhase(rep: Report, linked: Progress, site: Id, parented: seq<Edge>, confirmed: set<Key>)
    requires |rep.devices| == |rep.actual|
  {
    && parented == Parented(linked.edges, linked.parented, site, rep.source, Devices(rep),
                            FreshIds(rep.edgeId, linked.minted, |rep.devices|), |rep.devices|)
    && confirmed == linked.confirmed
         + (set d | d in Devices(rep) && Loose(linked.parented, site, d) :: (site, d.id, "hosts"))
  }

  function Pruned(rep: Report, wanted: seq<Wanted>, parented: seq<Edge>, confirmed: set<Key>): (edges: seq<Edge>)
    ensures forall e :: e in edges <==> e in parented && (wanted == [] || !Unconfirmed(e, rep.source, confirmed))
  {
    if wanted == [] then parented else Keeping(parented, (e: Edge) => !Unconfirmed(e, rep.source, confirmed))
  }

  /** The store when rows are retired: merged rows, and the edges that are left. */
  function Unretired(rep: Report, wanted: seq<Wanted>, parented: seq<Edge>, confirmed: set<Key>,
                     links: seq<Link>): Store
  {
    Store(rep.rows, Pruned(rep, wanted, parented, confirmed), links)
  }

  ghost predicate RetirePhase(rep: Report, wanted: seq<Wanted>, before: Store, store: Store)
  {
    if rep.devices == [] then store == before else Swept(VanishedFrom(rep, wanted), before, store)
  }

  ghost predicate Phases(run: Run, start: Start, devices: seq<Device>, wanted: seq<Wanted>, site: Id, audit: Audit,
                         store: Store)
  {
    && MergePhase(run, start, devices, audit)
    && var rep := ReportOf(run, devices, start.edgeId, audit);
       && LinkPhase(rep, start, wanted, audit.link)
       && SitePhase(rep, audit.link[|wanted|], site, audit.parented, audit.confirmed)
       && RetirePhase(rep, wanted, Unretired(rep, wanted, audit.parented, audit.confirmed, start.store.links), store)
  }

  ghost predicate GoodStart(start: Start, site: Id)
  {
    && DistinctRows(start.store.rows) && HasId(start.store.rows, site)
    && NoDanglingEdge(start.store.rows, start.store.edges) && NoDanglingLink(start.store.rows, start.store.links)
    && GoodEdges(start.store.edges, start.edgeId, start.edgesMinted)
  }

  // ----- what each phase hands to the next -----

  /** The merged rows: distinct, all stored ids still there, and the reported ones known as reported. */
  ghost predicate Merged(rows0: seq<Row>, rep: Report)
  {
    && GoodReport(rep) && DistinctRows(rep.rows)
    && (forall id :: HasId(rows0, id) ==> HasId(rep.rows, id))
    && (forall r :: r in rep.rows && r.id in rep.actual ==> rep.source in r.sources)
    && (forall r :: r in rep.rows && r.id !in rep.actual ==> r in rows0)
    && (forall r, r0 :: r in rep.rows && r0 in rows0 && r.id == r0.id ==> r.archived == r0.archived)
  }

  lemma MergePhaseMerges(run: Run, start: Start, devices: seq<Device>, audit: Audit)
    requires MergePhase(run, start, devices, audit) && DistinctRows(start.store.rows)
    ensures Merged(start.store.rows, ReportOf(run, devices, start.edgeId, audit))
  {
    TraceKeeps(run, audit.merge, devices, |devices|);
    var rep := ReportOf(run, devices, start.edgeId, audit);
    var merged := audit.merge[|devices|];
    forall id | HasId(start.store.rows, id)
      ensures HasId(rep.rows, id)
    {
      var r :| r in start.store.rows && r.id == id;
    }
    forall r | r in rep.rows
      ensures r.id in rep.actual ==> run.source in r.sources
      ensures r.id !in rep.actual ==> r in start.store.rows
      ensures forall r0 :: r0 in start.store.rows && r.id == r0.id ==> r.archived == r0.archived
    {
      assert Accounted(run, start.store.rows, devices, merged, r);
      if r.id in rep.actual {
        var j :| 0 <= j < |rep.actual| && rep.actual[j] == r.id;
        assert WentTo(merged, j, r.id);
      }
    }
  }

  lemma LinkPhaseKeeps(rep: Report, start: Start, wanted: seq<Wanted>, link: seq<Progress>, site: Id)
    requires Merged(start.store.rows, rep) && GoodStart(start, site) && rep.edgeId == start.edgeId
    requires LinkPhase(rep, start, wanted, link)
    ensures LinkInv(rep, start.store.edges, link[|wanted|])
  {
    EdgeTraceKeeps(rep, link, wanted, |wanted|);
  }

  lemma SitePhaseKeeps(rep: Report, edges0: seq<Edge>, linked: Progress, site: Id, parented: seq<Edge>,
                       confirmed: set<Key>)
    requires GoodReport(rep) && HasId(rep.rows, site) && LinkInv(rep, edges0, linked)
    requires SitePhase(rep, linked, site, parented, confirmed)
    ensures NoDanglingEdge(rep.rows, parented) && forall e :: e in linked.edges ==> e in parented
    ensures Links(parented)
         == Links(linked.edges) + Star(site, Adopted(linked.edges, linked.parented, site, Devices(rep)))
  {
    var reported := Devices(rep);
    ParentedAre(linked.edges, linked.parented, site, rep.source, reported,
                FreshIds(rep.edgeId, linked.minted, |rep.devices|), |reported|);
    assert reported[..|reported|] == reported;
    forall d | d in reported
      ensures HasId(rep.rows, d.id)
    {
      var k :| 0 <= k < |reported| && reported[k] == d;
      assert HasId(rep.rows, rep.actual[k]);
    }
  }

  // ----- what holds after a run -----

  lemma RetireKeepsReported(rep: Report, rows0: seq<Row>, wanted: seq<Wanted>, before: Store, store: Store)
    requires Merged(rows0, rep) && before.rows == rep.rows && Swept(VanishedFrom(rep, wanted), before, store)
    requires wanted != []
    ensures forall r :: r in store.rows ==> (rep.source in r.sources <==> r.id in rep.actual)
    ensures forall id :: id in rep.actual ==> HasId(store.rows, id)
  {
    var judge := VanishedFrom(rep, wanted);
    forall r | r in store.rows
      ensures rep.source in r.sources <==> r.id in rep.actual
    {
      var r0 :| r0 in rep.rows && Survives(judge, r0, r);
    }
    forall id | id in rep.actual
      ensures HasId(store.rows, id)
    {
      var k :| 0 <= k < |rep.actual| && rep.actual[k] == id;
      assert HasId(rep.rows, rep.actual[k]);
      WhoRemains(judge, before, store, id);
    }
  }

  /** After a run that reported devices and topology, the rows listing the source are exactly those reported. */
  lemma SourceRowsAreReported(run: Run, start: Start, devices: seq<Device>, wanted: seq<Wanted>, site: Id, audit: Audit,
                              store: Store)
    requires Phases(run, start, devices, wanted, site, audit, store) && DistinctRows(start.store.rows)
    requires devices != [] && wanted != []
    ensures var rep := ReportOf(run, devices, start.edgeId, audit);
      && (forall r :: r in store.rows ==> (run.source in r.sources <==> r.id in rep.actual))
      && (forall id :: id in rep.actual ==> HasId(store.rows, id))
  {
    MergePhaseMerges(run, start, devices, audit);
    var rep := ReportOf(run, devices, start.edgeId, audit);
    RetireKeepsReported(rep, start.store.rows, wanted,
                        Unretired(rep, wanted, audit.parented, audit.confirmed, start.store.links), store);
  }

  /** What is gone after the last phase was condemned by the rule for vanished rows. */
  lemma RetiredWasCondemned(rep: Report, wanted: seq<Wanted>, before: Store, store: Store, id: Id)
    requires DistinctRows(before.rows) && RetirePhase(rep, wanted, before, store) && HasId(before.rows, id)
    requires !HasId(store.rows, id)
    ensures rep.devices != [] && Leaves(VanishedFrom(rep, wanted), before.rows, id)
  {
    if rep.devices != [] {
      WhoRemains(VanishedFrom(rep, wanted), before, store, id);
    }
  }

  /** A row that disappears was found by this source alone, was not reported, and nobody vouched for it. */
  lemma OnlyVanishedRowsGo(run: Run, start: Start, devices: seq<Device>, wanted: seq<Wanted>, site: Id, audit: Audit,
                           store: Store, r0: Row)
    requires Phases(run, start, devices, wanted, site, audit, store) && DistinctRows(start.store.rows)
    requires r0 in start.store.rows && !HasId(store.rows, r0.id)
    ensures r0.sources == {run.source} && run.source != "manual" && !r0.createdByHand && r0.kind != "site"
    ensures devices != [] && wanted != [] && r0.id !in ReportOf(run, devices, start.edgeId, audit).actual
  {
    MergePhaseMerges(run, start, devices, audit);
    var rep := ReportOf(run, devices, start.edgeId, audit);
    assert HasId(start.store.rows, r0.id);
    RetiredWasCondemned(rep, wanted, Unretired(rep, wanted, audit.parented, audit.confirmed, start.store.links),
                        store, r0.id);
    var r :| r in rep.rows && r.id == r0.id && VanishedFrom(rep, wanted)(r).Leave?;
    assert r in start.store.rows && r == r0;
  }

  /** A run leaves no edge and no group link without its row. */
  lemma NothingDangles(run: Run, start: Start, devices: seq<Device>, wanted: seq<Wanted>, site: Id, audit: Audit,
                       store: Store)
    requires Phases(run, start, devices, wanted, site, audit, store) && GoodStart(start, site)
    ensures DistinctRows(store.rows) && NoDanglingEdge(store.rows, store.edges)
    ensures NoDanglingLink(store.rows, store.links)
  {
    MergePhaseMerges(run, start, devices, audit);
    var rep := ReportOf(run, devices, start.edgeId, audit);
    LinkPhaseKeeps(rep, start, wanted, audit.link, site);
    SitePhaseKeeps(rep, start.store.edges, audit.link[|wanted|], site, audit.parented, audit.confirmed);
    RetireLeavesNothingDangling(rep, wanted, start.store.rows, audit.parented,
                                Unretired(rep, wanted, audit.parented, audit.confirmed, start.store.links), store);
  }

  lemma RetireLeavesNothingDangling(rep: Report, wanted: seq<Wanted>, rows0: seq<Row>, parented: seq<Edge>,
                                    before: Store, store: Store)
    requires Merged(rows0, rep) && before.rows == rep.rows && RetirePhase(rep, wanted, before, store)
    requires NoDanglingEdge(rep.rows, parented) && (forall e :: e in before.edges ==> e in parented)
    requires NoDanglingLink(rows0, before.links)
    ensures DistinctRows(store.rows) && NoDanglingEdge(store.rows, store.edges)
    ensures NoDanglingLink(store.rows, store.links)
  {
    if rep.devices != [] {
      SweepLeavesNothingDangling(VanishedFrom(rep, wanted), before, store);
    }
  }

  /** After a run that reported topology, every edge of the source was confirmed by it. */
  lemma OwnEdgesAreConfirmed(run: Run, start: Start, devices: seq<Device>, wanted: seq<Wanted>, site: Id, audit: Audit,
                             store: Store)
    requires Phases(run, start, devices, wanted, site, audit, store) && wanted != []
    ensures forall e :: e in store.edges && e.source == run.source ==> KeyOf(e) in audit.confirmed
  {
    var rep := ReportOf(run, devices, start.edgeId, audit);
    assert forall e :: e in store.edges ==> e in Pruned(rep, wanted, audit.parented, audit.confirmed);
  }

  /** Why an edge that was stored is gone: this source no longer confirms it, a confirmed edge superseded it, or
      one of its rows was removed. */
  lemma DeletedEdgesHaveAReason(run: Run, start: Start, devices: seq<Device>, wanted: seq<Wanted>, site: Id,
                                audit: Audit, store: Store, e: Edge)
    requires Phases(run, start, devices, wanted, site, audit, store) && GoodStart(start, site)
    requires e in start.store.edges && e !in store.edges
    ensures
      || (wanted != [] && Unconfirmed(e, run.source, audit.confirmed))
      || Superseded(ReportOf(run, devices, start.edgeId, audit), audit.confirmed, e)
      || !HasId(store.rows, e.parentId) || !HasId(store.rows, e.childId)
  {
    MergePhaseMerges(run, start, devices, audit);
    var rep := ReportOf(run, devices, start.edgeId, audit);
    LinkPhaseKeeps(rep, start, wanted, audit.link, site);
    SitePhaseKeeps(rep, start.store.edges, audit.link[|wanted|], site, audit.parented, audit.confirmed);
    var pruned := Pruned(rep, wanted, audit.parented, audit.confirmed);
    if e in pruned {
      SweptEdgeLostARow(rep, wanted, Store(rep.rows, pruned, start.store.links), store, e);
    } else if e !in audit.link[|wanted|].edges {
      assert Superseded(rep, audit.link[|wanted|].confirmed, e);
    }
  }

  lemma SweptEdgeLostARow(rep: Report, wanted: seq<Wanted>, before: Store, store: Store, e: Edge)
    requires DistinctRows(before.rows) && RetirePhase(rep, wanted, before, store) && e in before.edges
    requires e !in store.edges
    ensures !HasId(store.rows, e.parentId) || !HasId(store.rows, e.childId)
  {
    WhoRemains(VanishedFrom(rep, wanted), before, store, e.parentId);
    WhoRemains(VanishedFrom(rep, wanted), before, store, e.childId);
  }

  /** The site phase of a run leaves an acyclic graph exactly when no row the site adopts was above the site; and the
      phases after it only remove edges. */
  lemma RunStaysAcyclic(run: Run, start: Start, devices: seq<Device>, wanted: seq<Wanted>, site: Id, audit: Audit,
                        store: Store)
    requires Phases(run, start, devices, wanted, site, audit, store) && GoodStart(start, site)
    requires Acyclic(Links(start.store.edges))
    ensures Acyclic(Links(audit.parented)) <==> AdoptsNothingAbove(run, start, devices, wanted, site, audit)
    ensures Links(store.edges) <= Links(audit.parented)
    ensures AdoptsNothingAbove(run, start, devices, wanted, site, audit) ==> Acyclic(Links(store.edges))
  {
    MergePhaseMerges(run, start, devices, audit);
    var rep := ReportOf(run, devices, start.edgeId, audit);
    var linked := audit.link[|wanted|];
    LinkPhaseKeeps(rep, start, wanted, audit.link, site);
    SitePhaseKeeps(rep, start.store.edges, linked, site, audit.parented, audit.confirmed);
    AddStarAcyclic(Links(linked.edges), site, Adopted(linked.edges, linked.parented, site, Devices(rep)));
    assert Links(store.edges) <= Links(audit.parented);
    if Acyclic(Links(audit.parented)) {
      AcyclicMono(Links(store.edges), Links(audit.parented));
    }
  }

  ghost predicate AdoptsNothingAbove(run: Run, start: Start, devices: seq<Device>, wanted: seq<Wanted>, site: Id,
                                     audit: Audit)
    requires MergePhase(run, start, devices, audit) && |audit.link| == |wanted| + 1
  {
    var linked := audit.link[|wanted|];
    forall c :: c in Adopted(linked.edges, linked.parented, site, Devices(ReportOf(run, devices, start.edgeId, audit)))
      ==> !Reach(Links(linked.edges), c, site)
  }

  lemma {:induction false} SiteStaysOnTop(rep: Report, trace: seq<Progress>, wanted: seq<Wanted>, site: Id, n: nat)
    requires |rep.devices| == |rep.actual| && IsEdgeTrace(rep, trace, wanted) && n <= |wanted|
    requires !HasParent(trace[0].edges, site) && forall w :: w in wanted ==> Resolve(rep, w.childSlug) != Some(site)
    ensures !HasParent(trace[n].edges, site)
    decreases n
  {
    if n > 0 {
      SiteStaysOnTop(rep, trace, wanted, site, n - 1);
      var w, st := wanted[n - 1], trace[n - 1];
      assert w in wanted && TakeEdge(rep, st, w) == trace[n];
      var parent, child := Resolve(rep, w.parentSlug), Resolve(rep, w.childSlug);
      if parent.Some? && child.Some? {
        var added := Edge(rep.edgeId(st.minted), parent.value, child.value, w.relation, rep.source);
        forall e | e in LinkOne(rep.rows, st.edges, added)
          ensures e in st.edges || e == added
        {
          assert e in Attached(rep.rows, st.edges, added) ==> e in Created(st.edges, added);
        }
      }
    }
  }

  /** In particular if nothing is above the site when the run starts, and no reported edge puts anything there. */
  lemma TopSiteRunStaysAcyclic(run: Run, start: Start, devices: seq<Device>, wanted: seq<Wanted>, site: Id,
                               audit: Audit, store: Store)
    requires Phases(run, start, devices, wanted, site, audit, store) && GoodStart(start, site)
    requires Acyclic(Links(start.store.edges)) && !HasParent(start.store.edges, site)
    requires forall w :: w in wanted ==> Resolve(ReportOf(run, devices, start.edgeId, audit), w.childSlug) != Some(site)
    ensures Acyclic(Links(store.edges))
  {
    var rep, linked := ReportOf(run, devices, start.edgeId, audit), audit.link[|wanted|];
    SiteStaysOnTop(rep, audit.link, wanted, site, |wanted|);
    forall c | c in Adopted(linked.edges, linked.parented, site, Devices(rep))
      ensures !Reach(Links(linked.edges), c, site)
    {
      if Reach(Links(linked.edges), c, site) {
        NoWayToTheTop(linked.edges, c, site);
      }
    }
    RunStaysAcyclic(run, start, devices, wanted, site, audit, store);
  }

  lemma NoWayToTheTop(edges: seq<Edge>, c: Id, site: Id)
    requires Reach(Links(edges), c, site) && !HasParent(edges, site)
    ensures c == site
  {
    ReachSplit(Links(edges), c, site);
    if c != site {
      var p := BeyondUnsnoc(Links(edges), c, site);
    }
  }

  /** A condition on what the run is given: the site has no parent, no reported edge names it as a child, and no
      reported device is of a class that merges with it. */
  ghost predicate SiteIsApart(run: Run, start: Start, devices: seq<Device>, wanted: seq<Wanted>, siteRow: Row)
  {
    && siteRow in start.store.rows && !HasParent(start.store.edges, siteRow.id)
    && (forall w :: w in wanted ==> w.childSlug != siteRow.slug)
    && (forall d :: d in devices ==> !Compatible(run, d, siteRow))
  }

  lemma SiteApartStaysAcyclic(run: Run, start: Start, devices: seq<Device>, wanted: seq<Wanted>, siteRow: Row,
                              audit: Audit, store: Store)
    requires Phases(run, start, devices, wanted, siteRow.id, audit, store) && GoodStart(start, siteRow.id)
    requires Acyclic(Links(start.store.edges)) && SiteIsApart(run, start, devices, wanted, siteRow)
    ensures Acyclic(Links(store.edges))
  {
    var rep := ReportOf(run, devices, start.edgeId, audit);
    NobodyJoins(run, audit.merge, devices, siteRow, |devices|);
    MergePhaseMerges(run, start, devices, audit);
    forall w | w in wanted
      ensures Resolve(rep, w.childSlug) != Some(siteRow.id)
    {
      ReportedRowWent(rep, w.childSlug, 0);
    }
    TopSiteRunStaysAcyclic(run, start, devices, wanted, siteRow.id, audit, store);
  }

  lemma {:induction false} ReportedRowWent(rep: Report, slug: string, n: nat)
    requires n <= |rep.devices| == |rep.actual|
    ensures ReportedRow(rep, slug, n).Some? ==> ReportedRow(rep, slug, n).value in rep.actual
    decreases |rep.devices| - n
  {
    if n < |rep.devices| {
      ReportedRowWent(rep, slug, n + 1);
    }
  }

  /** A row that no reported device is compatible with is left alone. */
  lemma {:induction false} NobodyJoins(run: Run, trace: seq<Inventory>, devices: seq<Device>, r: Row, n: nat)
    requires IsTrace(run, trace, devices) && n < |trace| && DistinctRows(trace[0].rows) && trace[0].actual == []
    requires r in trace[0].rows && forall d :: d in devices ==> !Compatible(run, d, r)
    ensures r in trace[n].rows && r.id !in trace[n].actual
    decreases n
  {
    if n > 0 {
      NobodyJoins(run, trace, devices, r, n - 1);
      TraceKeeps(run, trace, devices, n - 1);
      assert MergeOne(run, trace[n - 1], devices[n - 1]) == Some(trace[n]) && devices[n - 1] in devices;
      OneDoesNotJoin(run, trace[n - 1], devices[n - 1], r);
    }
  }

  lemma OneDoesNotJoin(run: Run, inv: Inventory, d: Device, r: Row)
    requires DistinctRows(inv.rows) && r in inv.rows && r.id !in inv.actual
    requires !Compatible(run, d, r) && MergeOne(run, inv, d).Some?
    ensures var inv' := MergeOne(run, inv, d).value; r in inv'.rows && r.id !in inv'.actual
  {
    NotInPool(run, inv.rows, d, r, |inv.rows|);
    MatchIsFromPool(run, inv, d);
    var row := NewRow(run, d, inv.minted);
    match ScopeOf(run, inv.siteOf).Match(d, Pool(run, inv.rows, d, |inv.rows|))
    case Some(m) =>
      ReplacedAre(inv.rows, m.id, Updated(run, m, d));
    case None =>
      assert r.id == row.id ==> Taken(inv.rows, row);
  }

  lemma {:induction false} NotInPool(run: Run, rows: seq<Row>, d: Device, r: Row, n: nat)
    requires n <= |rows| && !Compatible(run, d, r)
    ensures r !in Pool(run, rows, d, n)
    decreases n
  {
    if n > 0 {
      NotInPool(run, rows, d, r, n - 1);
    }
  }

  lemma MatchIsFromPool(run: Run, inv: Inventory, d: Device)
    ensures var pool := Pool(run, inv.rows, d, |inv.rows|);
      var m := ScopeOf(run, inv.siteOf).Match(d, pool); m.Some? ==> m.value in pool
  {
    var scope, pool := ScopeOf(run, inv.siteOf), Pool(run, inv.rows, d, |inv.rows|);
    scope.MatchIff(d, pool, scope.Match(d, pool));
  }

  /** A reported row other than the site, without a parent. */
  predicate IsTopDevice(rep: Report, edges: seq<Edge>, site: Id, id: Id)
  {
    id in rep.actual && id != site && !HasParent(edges, id)
  }

  /** A run that reports no edges keeps the graph acyclic exactly when no device without a parent is above the site. */
  lemma RunWithoutEdgesAcyclicIff(run: Run, start: Start, devices: seq<Device>, site: Id, audit: Audit, store: Store)
    requires Phases(run, start, devices, [], site, audit, store) && GoodStart(start, site)
    requires Acyclic(Links(start.store.edges))
    ensures Acyclic(Links(store.edges))
       <==> forall id | IsTopDevice(ReportOf(run, devices, start.edgeId, audit), start.store.edges, site, id) ::
              !Reach(Links(start.store.edges), id, site)
  {
    var rep := ReportOf(run, devices, start.edgeId, audit);
    MergePhaseMerges(run, start, devices, audit);
    LinkPhaseKeeps(rep, start, [], audit.link, site);
    SitePhaseKeeps(rep, start.store.edges, audit.link[0], site, audit.parented, audit.confirmed);
    NothingLeaves(rep, Store(rep.rows, audit.parented, start.store.links), store);
    AddStarAcyclic(Links(start.store.edges), site, Adopted(start.store.edges, {}, site, Devices(rep)));
    AdoptedWithoutEdges(rep, start.store.edges, site);
  }

  lemma AdoptedWithoutEdges(rep: Report, edges: seq<Edge>, site: Id)
    requires |rep.devices| == |rep.actual|
    ensures forall id :: id in Adopted(edges, {}, site, Devices(rep)) <==> IsTopDevice(rep, edges, site, id)
  {
    forall id | id in rep.actual
      ensures exists d :: d in Devices(rep) && d.id == id
    {
      var k :| 0 <= k < |rep.actual| && rep.actual[k] == id;
      assert Devices(rep)[k] in Devices(rep);
    }
  }

  /** Without reported edges no row is condemned. */
  lemma NothingLeaves(rep: Report, before: Store, store: Store)
    requires RetirePhase(rep, [], before, store)
    ensures Links(store.edges) == Links(before.edges)
  {
    if rep.devices != [] {
      assert forall id :: !Leaves(VanishedFrom(rep, []), before.rows, id);
      assert forall e :: e in store.edges <==> e in before.edges;
    }
  }

  /** A row that was archived is still archived after it has been discovered again. */
  lemma RediscoveryKeepsArchived(run: Run, start: Start, devices: seq<Device>, wanted: seq<Wanted>, site: Id,
                                 audit: Audit, store: Store, r0: Row)
    requires Phases(run, start, devices, wanted, site, audit, store) && DistinctRows(start.store.rows)
    requires r0 in start.store.rows && r0.archived
    ensures forall r :: r in store.rows && r.id == r0.id ==> r.archived
  {
    MergePhaseMerges(run, start, devices, audit);
    var rep := ReportOf(run, devices, start.edgeId, audit);
    RetireKeepsArchived(rep, wanted, Unretired(rep, wanted, audit.parented, audit.confirmed, start.store.links), store);
  }

  lemma RetireKeepsArchived(rep: Report, wanted: seq<Wanted>, before: Store, store: Store)
    requires RetirePhase(rep, wanted, before, store)
    ensures forall r :: r in store.rows ==> exists r1 :: r1 in before.rows && r1.id == r.id && r1.archived == r.archived
  {
    if rep.devices != [] {
      forall r | r in store.rows
        ensures exists r1 :: r1 in before.rows && r1.id == r.id && r1.archived == r.archived
      {
        var r1 :| r1 in before.rows && Survives(VanishedFrom(rep, wanted), r1, r);
        assert r1.id == r.id && r1.archived == r.archived;
      }
    }
  }

  // ----- the reconciler -----

  class Reconciler {
    var rows: seq<Row>
    var edges: seq<Edge>
    var links: seq<Link>
    var rowsMinted: nat
    var edgesMinted: nat
    const edgeId: nat -> Id

    constructor (store: Store, edgeId: nat -> Id)
      ensures Stored() == store && this.edgeId == edgeId && rowsMinted == edgesMinted == 0
    {
      rows, edges, links := store.rows, store.edges, store.links;
      rowsMinted, edgesMinted := 0, 0;
      this.edgeId := edgeId;
    }

    ghost function Stored(): Store
      reads this
    {
      Store(rows, edges, links)
    }

    /** `reconcile`, once the target site and the site of every stored row are known. Not ok: the store refused
        a new row, and the rows merged so far are all that changed. */
    method Reconcile(run: Run, siteOf: map<Id, Option<Id>>, devices: seq<Device>, wanted: seq<Wanted>, site: Id)
      returns (ok: bool, ghost audit: Audit)
      requires DistinctRows(rows)
      modifies this
      ensures var start := Start(old(Stored()), siteOf, old(rowsMinted), old(edgesMinted), edgeId);
        ok ==> Phases(run, start, devices, wanted, site, audit, Stored())
      ensures !ok ==> edges == old(edges) && links == old(links)
      ensures !ok ==> IsTrace(run, audit.merge, devices) && rows == audit.merge[|audit.merge| - 1].rows
    {
      var rep;
      ghost var merge, link, parented, confirmed;
      ok, rep, merge := Absorb(run, siteOf, devices);
      audit := Audit(merge, [], [], {});
      if !ok { return; }
      link, parented, confirmed := Relink(rep, wanted, site);
      audit := Audit(merge, link, parented, confirmed);
    }

    /** The merge loop: rows are updated and added. */
    method Absorb(run: Run, siteOf: map<Id, Option<Id>>, devices: seq<Device>)
      returns (ok: bool, rep: Report, ghost merge: seq<Inventory>)
      requires DistinctRows(rows)
      modifies this`rows, this`rowsMinted
      ensures IsTrace(run, merge, devices) && rows == merge[|merge| - 1].rows
      ensures ok ==> |merge| == |devices| + 1 && merge[0] == Inventory(old(rows), siteOf, old(rowsMinted), [])
      ensures ok ==> rep == Report.Report(run.source, devices, merge[|devices|].actual, rows, edgeId)
      ensures ok ==> |rep.actual| == |devices| && DistinctRows(rows)
    {
      var merged;
      ok, merged, merge := MergeDevices(run, Inventory(rows, siteOf, rowsMinted, []), devices);
      rows, rowsMinted := merged.rows, merged.minted;
      rep := Report.Report(run.source, devices, merged.actual, rows, edgeId);
      if ok {
        TraceKeeps(run, merge, devices, |devices|);
      }
    }

    /** The phases after the merge loop, over the merged rows. */
    method Relink(rep: Report, wanted: seq<Wanted>, site: Id)
      returns (ghost link: seq<Progress>, ghost parented: seq<Edge>, ghost confirmed: set<Key>)
      requires |rep.devices| == |rep.actual| && rows == rep.rows && DistinctRows(rows) && edgeId == rep.edgeId
      modifies this`rows, this`edges, this`links, this`edgesMinted
      ensures IsEdgeTrace(rep, link, wanted) && link[0] == Progress(old(edges), {}, {}, old(edgesMinted))
      ensures SitePhase(rep, link[|wanted|], site, parented, confirmed)
      ensures RetirePhase(rep, wanted, Unretired(rep, wanted, parented, confirmed, old(links)), Stored())
    {
      var linked;
      linked, link := LinkReported(rep, edges, edgesMinted, wanted);
      edges, edgesMinted := linked.edges, linked.minted;
      confirmed, parented := Settle(rep, linked, wanted, site);
    }

    /** The phases after the edge loop: loose devices go to the site, unconfirmed edges and vanished rows go. */
    method Settle(rep: Report, link: Progress, wanted: seq<Wanted>, site: Id)
      returns (confirmed: set<Key>, ghost parented: seq<Edge>)
      requires |rep.devices| == |rep.actual| && rows == rep.rows && edges == link.edges && edgesMinted == link.minted
      requires DistinctRows(rows) && edgeId == rep.edgeId
      modifies this`rows, this`edges, this`links, this`edgesMinted
      ensures SitePhase(rep, link, site, parented, confirmed)
      ensures RetirePhase(rep, wanted, Unretired(rep, wanted, parented, confirmed, old(links)), Stored())
    {
      var keys;
      edges, keys := ParentToSite(edges, link.parented, site, rep.source, Devices(rep),
                                  FreshIds(edgeId, edgesMinted, |rep.devices|));
      edgesMinted := edgesMinted + |rep.devices|;
      confirmed, parented := link.confirmed + keys, edges;
      edges := Pruned(rep, wanted, edges, confirmed);
      if |rep.devices| > 0 {
        var updated, removed, cut := Sweep(VanishedFrom(rep, wanted));
      }
    }

    method Sweep(judge: Judge) returns (updated: nat, removed: nat, cut: nat)
      requires DistinctRows(rows) && KeepsIds(judge, rows)
      modifies this`rows, this`edges, this`links
      ensures Swept(judge, old(Stored()), Stored())
      ensures (updated, removed) == Tally(judge, old(rows), |old(rows)|)
      ensures cut == Weight(old(edges)) - Weight(edges)
    {
      var store := Store(rows, edges, links);
      store, updated, removed, cut := SweepStore(judge, store);
      rows, edges, links := store.rows, store.edges, store.links;
      assert Stored() == store;
    }

    /** The edges of a removed row are counted by child and by parent, so that a self-edge counts twice. */
    method ForgetSource(source: string, keepPromoted: bool)
      returns (removed: nat, kept: nat, edgesRemoved: nat, ghost swept: Store)
      requires DistinctRows(rows)
      modifies this`rows, this`edges, this`links
      ensures source == "" ==> Stored() == old(Stored()) && removed == kept == edgesRemoved == 0
      ensures source != "" ==> (kept, removed) == Tally(Forgotten(source, keepPromoted), old(rows), |old(rows)|)
      ensures source != "" ==> Swept(Forgotten(source, keepPromoted), old(Stored()), swept)
      ensures source != "" ==> Stored() == swept.(edges := EdgesNotFrom(swept.edges, source))
      ensures source != "" ==> edgesRemoved == Weight(old(edges)) - Weight(swept.edges) + |swept.edges| - |edges|
    {
      swept := Store(rows, edges, links);
      if source == "" { return 0, 0, 0, swept; }
      kept, removed, edgesRemoved := Sweep(Forgotten(source, keepPromoted));
      swept := Store(rows, edges, links);
      FromOrNot(edges, source);
      edgesRemoved := edgesRemoved + |EdgesFrom(edges, source)|;
      edges := EdgesNotFrom(edges, source);
    }

    method GarbageCollect(now: int, staleMs: int, purgeMs: int) returns (archived: nat, purged: nat)
      requires DistinctRows(rows)
      modifies this`rows, this`edges, this`links
      ensures Swept(Stale(now - staleMs, now - purgeMs), old(Stored()), Stored())
      ensures (archived, purged) == Tally(Stale(now - staleMs, now - purgeMs), old(rows), |old(rows)|)
    {
      var cut;
      archived, purged, cut := Sweep(Stale(now - staleMs, now - purgeMs));
    }

    /** POST `/edges`. */
    method AddEdge(parentId: Id, childId: Id, relation: string) returns (accepted: bool)
      modifies this`edges, this`edgesMinted
      ensures var kind := if relation == "" then "hosts" else relation;
        var added := Edge(edgeId(old(edgesMinted)), parentId, childId, kind, "");
        edges == Posted(rows, old(edges), added) && (accepted <==> PostAllowed(rows, old(edges), added))
    {
      edges, accepted := PostEdge(rows, edges, parentId, childId, relation, edgeId(edgesMinted));
      edgesMinted := edgesMinted + 1;
    }
  }
}

/** What a run, forgetting a source and garbage collection leave of a row, in the terms of the row itself. */
module DiscoveryOutcome {
  import opened Directory
  import opened AccessLevels
  import opened ResourceMatcher
  import opened DiscoveryMerge
  import opened DiscoveryRetention
  import opened DiscoveryReconciler
  import opened DiscoveryFacts

  // ----- after a run -----

  /** Nobody but the source ever vouched for the row. */
  predicate OnlyFrom(source: string, r: Row)
  {
    r.sources == {source} && source != "manual" && !r.createdByHand && r.kind != "site"
  }

  /** What is left of a stored row after a run that reported devices, none of which went into it. */
  ghost predicate LeftUnreported(run: Run, wanted: seq<Wanted>, r0: Row, store: Store)
  {
    if run.source in r0.sources && !OnlyFrom(run.source, r0) then
      r0.(sources := r0.sources - {run.source}) in store.rows
    else if run.source in r0.sources && wanted != [] then
      !HasId(store.rows, r0.id)
    else
      r0 in store.rows
  }

  ghost predicate NothingRefersTo(store: Store, id: Id)
  {
    && (forall e :: e in store.edges ==> e.parentId != id && e.childId != id)
    && (forall l :: l in store.links ==> l.resourceId != id)
  }

  lemma UnreportedIsJudged(rep: Report, wanted: seq<Wanted>, before: Store, store: Store, run: Run, r0: Row)
    requires DistinctRows(before.rows) && rep.devices != [] && RetirePhase(rep, wanted, before, store)
    requires r0 in before.rows && r0.id !in rep.actual && rep.source == run.source
    ensures LeftUnreported(run, wanted, r0, store)
    ensures HasId(store.rows, r0.id) || NothingRefersTo(store, r0.id)
  {
    var judge := VanishedFrom(rep, wanted);
    WhoRemains(judge, before, store, r0.id);
    var after := if judge(r0).Become? then judge(r0).row else r0;
    assert !judge(r0).Leave? ==> Survives(judge, r0, after);
    assert OnlyFrom(run.source, r0) <==>
      run.source in r0.sources && !(r0.sources - {run.source} != {} || r0.createdByHand || "manual" in r0.sources
                                    || r0.kind == "site") by {
      if run.source in r0.sources && r0.sources - {run.source} == {} {
        OnlySource(run.source, r0.sources);
      }
    }
  }

  lemma OnlySource(source: string, sources: set<string>)
    requires source in sources && sources - {source} == {}
    ensures sources == {source}
  {
    forall x | x in sources
      ensures x == source
    {
      assert x != source ==> x in sources - {source};
    }
  }

  /** What becomes of every stored row in a run that reports devices: a reported one is there, seen now; of the others,
      those that this source alone vouched for go, with their edges and group links, if it reports topology. */
  lemma WhatBecomesOfARow(run: Run, start: Start, devices: seq<Device>, wanted: seq<Wanted>, site: Id, audit: Audit,
                          store: Store, r0: Row)
    requires Phases(run, start, devices, wanted, site, audit, store) && DistinctRows(start.store.rows)
    requires devices != [] && r0 in start.store.rows
    ensures var actual := audit.merge[|devices|].actual;
      if r0.id in actual then
        (exists r :: (
           && r in store.rows && r.id == r0.id && r.sources == r0.sources + {run.source}
           && r.lastSeen == Some(run.now) && (r.managed <==> r0.managed || run.autoPromote)))
      else
        LeftUnreported(run, wanted, r0, store) && (HasId(store.rows, r0.id) || NothingRefersTo(store, r0.id))
  {
    MergePhaseMerges(run, start, devices, audit);
    var rep := ReportOf(run, devices, start.edgeId, audit);
    var before := Unretired(rep, wanted, audit.parented, audit.confirmed, start.store.links);
    assert HasId(start.store.rows, r0.id);
    if r0.id in rep.actual {
      var k :| 0 <= k < |rep.actual| && rep.actual[k] == r0.id;
      assert HasId(rep.rows, rep.actual[k]);
      var r :| r in rep.rows && r.id == r0.id;
      ReportedStays(rep, wanted, before, store, r);
      ReportedIsSeen(run, start, devices, audit, r, r0);
    } else {
      var r :| r in rep.rows && r.id == r0.id;
      assert r == r0;
      UnreportedIsJudged(rep, wanted, before, store, run, r0);
    }
  }

  lemma ReportedStays(rep: Report, wanted: seq<Wanted>, before: Store, store: Store, r: Row)
    requires RetirePhase(rep, wanted, before, store) && r in before.rows && r.id in rep.actual
    ensures r in store.rows
  {
    if rep.devices != [] {
      assert Survives(VanishedFrom(rep, wanted), r, r);
      assert Leftover(VanishedFrom(rep, wanted), before.rows, r);
    }
  }

  lemma ReportedIsSeen(run: Run, start: Start, devices: seq<Device>, audit: Audit, r: Row, r0: Row)
    requires MergePhase(run, start, devices, audit) && DistinctRows(start.store.rows)
    requires var last := audit.merge[|devices|]; r in last.rows && r.id in last.actual
    requires r0 in start.store.rows && r0.id == r.id
    ensures r.lastSeen == Some(run.now) && (r.managed <==> r0.managed || run.autoPromote)
    ensures r.sources == r0.sources + {run.source}
  {
    var last := audit.merge[|devices|];
    TraceTells(run, audit.merge, devices, |devices|);
    TraceKeeps(run, audit.merge, devices, |devices|);
    assert Told(run, start.store.rows, devices, last, r);
    assert Accounted(run, start.store.rows, devices, last, r);
    var j :| 0 <= j < |last.actual| && last.actual[j] == r.id;
    assert WentTo(last, j, r.id);
  }

  /** A row disappears exactly when the source alone vouched for it, reports devices and topology, and not the row. */
  lemma VanishedIff(run: Run, start: Start, devices: seq<Device>, wanted: seq<Wanted>, site: Id, audit: Audit,
                    store: Store, r0: Row)
    requires Phases(run, start, devices, wanted, site, audit, store) && DistinctRows(start.store.rows)
    requires r0 in start.store.rows
    ensures !HasId(store.rows, r0.id)
       <==> && devices != [] && wanted != [] && r0.id !in audit.merge[|devices|].actual
            && OnlyFrom(run.source, r0)
  {
    if devices != [] {
      WhatBecomesOfARow(run, start, devices, wanted, site, audit, store, r0);
    } else {
      MergePhaseMerges(run, start, devices, audit);
      assert HasId(start.store.rows, r0.id);
    }
  }

  /** The rows of a report, as the merge loop left them, are in the store after the run. */
  lemma ReportedRowsStay(run: Run, start: Start, devices: seq<Device>, wanted: seq<Wanted>, site: Id, audit: Audit,
                         store: Store, r: Row)
    requires Phases(run, start, devices, wanted, site, audit, store) && DistinctRows(start.store.rows)
    requires r.id in audit.merge[|devices|].actual
    ensures r in store.rows <==> r in audit.merge[|devices|].rows
  {
    var rep := ReportOf(run, devices, start.edgeId, audit);
    var before := Unretired(rep, wanted, audit.parented, audit.confirmed, start.store.links);
    if r in rep.rows {
      ReportedStays(rep, wanted, before, store, r);
    }
    if r in store.rows && devices != [] {
      assert Leftover(VanishedFrom(rep, wanted), before.rows, r);
      var r1 :| r1 in before.rows && Survives(VanishedFrom(rep, wanted), r1, r);
      assert r1.id == r.id;
    }
  }

  /** What was reported is not collected while the cutoffs lie before the run. */
  lemma SeenIsNotCollected(run: Run, start: Start, devices: seq<Device>, wanted: seq<Wanted>, site: Id, audit: Audit,
                           store: Store, staleCutoff: int, purgeCutoff: int, collected: Store)
    requires Phases(run, start, devices, wanted, site, audit, store) && GoodStart(start, site)
    requires Swept(Stale(staleCutoff, purgeCutoff), store, collected)
    requires staleCutoff <= run.now && purgeCutoff <= run.now
    ensures forall r :: r in store.rows && r.id in audit.merge[|devices|].actual ==> r in collected.rows
  {
    NothingDangles(run, start, devices, wanted, site, audit, store);
    var last := audit.merge[|devices|];
    TraceTells(run, audit.merge, devices, |devices|);
    forall r | r in store.rows && r.id in last.actual
      ensures r in collected.rows
    {
      ReportedRowsStay(run, start, devices, wanted, site, audit, store, r);
      assert Told(run, start.store.rows, devices, last, r);
      var j :| 0 <= j < |last.actual| && last.actual[j] == r.id;
      assert WentTo(last, j, r.id);
      Collected(staleCutoff, purgeCutoff, store, collected, r);
    }
  }

  // ----- after garbage collection -----

  /** Row by row: purged, archived or left alone. */
  lemma Collected(staleCutoff: int, purgeCutoff: int, store0: Store, store: Store, r0: Row)
    requires DistinctRows(store0.rows) && Swept(Stale(staleCutoff, purgeCutoff), store0, store) && r0 in store0.rows
    ensures var found := !r0.managed && r0.sources != {} && "manual" !in r0.sources;
      var at := if r0.lastSeen == None then 0 else r0.lastSeen.value;
      if !found || at == 0 then r0 in store.rows
      else if at < purgeCutoff then !HasId(store.rows, r0.id)
      else if at < staleCutoff then r0.(archived := true) in store.rows
      else r0 in store.rows
  {
    CollectionIsStrict(staleCutoff, purgeCutoff, store0, store, r0);
    assert r0.archived ==> r0.(archived := true) == r0;
  }

  // ----- after forgetting a source -----

  /** Row by row: not found by the source, found by it alone and not kept, or only losing the attribution. */
  lemma ForgottenIs(source: string, keepPromoted: bool, store0: Store, store: Store, r0: Row)
    requires DistinctRows(store0.rows) && Swept(Forgotten(source, keepPromoted), store0, store) && r0 in store0.rows
    ensures if source !in r0.sources then r0 in store.rows
      else if r0.sources == {source} && !(keepPromoted && (r0.managed || source == "manual")) then
        !HasId(store.rows, r0.id)
      else r0.(sources := r0.sources - {source}) in store.rows
  {
    var judge := Forgotten(source, keepPromoted);
    WhoRemains(judge, store0, store, r0.id);
    var after := if judge(r0).Become? then judge(r0).row else r0;
    assert !judge(r0).Leave? ==> Survives(judge, r0, after) && Leftover(judge, store0.rows, after);
    if source in r0.sources && r0.sources - {source} == {} {
      OnlySource(source, r0.sources);
    }
  }

  // ----- the counts -----

  /** A sweep counts the rows it removes, and those of which the store has another version afterwards. */
  lemma {:induction false} TallyIs(judge: Judge, rows: seq<Row>, n: nat)
    requires n <= |rows|
    ensures var (updated, removed) := Tally(judge, rows, n);
      && updated == |Keeping(rows[..n], (r: Row) => judge(r).Become?)|
      && removed == |Keeping(rows[..n], (r: Row) => judge(r).Leave?)|
    decreases n
  {
    if n > 0 {
      TallyIs(judge, rows, n - 1);
      assert rows[..n] == rows[..n - 1] + [rows[n - 1]];
      KeepingLast(rows[..n - 1], (r: Row) => judge(r).Become?, rows[n - 1]);
      KeepingLast(rows[..n - 1], (r: Row) => judge(r).Leave?, rows[n - 1]);
    }
  }

  /** `garbageCollect` counts the rows it archives, those that were archived already aside, and the rows it purges. */
  lemma CollectedCounts(staleCutoff: int, purgeCutoff: int, rows: seq<Row>)
    ensures var found := (r: Row) =>
        !r.managed && r.sources != {} && "manual" !in r.sources && r.lastSeen.Some? && r.lastSeen.value != 0;
      Tally(Stale(staleCutoff, purgeCutoff), rows, |rows|) == (
        |Keeping(rows, (r: Row) => found(r) && purgeCutoff <= r.lastSeen.value < staleCutoff && !r.archived)|,
        |Keeping(rows, (r: Row) => found(r) && r.lastSeen.value < purgeCutoff)|)
  {
    var judge := Stale(staleCutoff, purgeCutoff);
    var found := (r: Row) =>
      !r.managed && r.sources != {} && "manual" !in r.sources && r.lastSeen.Some? && r.lastSeen.value != 0;
    TallyIs(judge, rows, |rows|);
    assert rows[..|rows|] == rows;
    KeepingAgree(rows, (r: Row) => judge(r).Become?,
                 (r: Row) => found(r) && purgeCutoff <= r.lastSeen.value < staleCutoff && !r.archived);
    KeepingAgree(rows, (r: Row) => judge(r).Leave?, (r: Row) => found(r) && r.lastSeen.value < purgeCutoff);
  }

  /** `forgetSource` counts the rows that only lose the source, and the rows it removes. */
  lemma ForgottenCounts(source: string, keepPromoted: bool, rows: seq<Row>)
    ensures var goes := (r: Row) => r.sources == {source} && !(keepPromoted && (r.managed || source == "manual"));
      Tally(Forgotten(source, keepPromoted), rows, |rows|) == (
        |Keeping(rows, (r: Row) => source in r.sources && !goes(r))|, |Keeping(rows, (r: Row) => goes(r))|)
  {
    var judge := Forgotten(source, keepPromoted);
    var goes := (r: Row) => r.sources == {source} && !(keepPromoted && (r.managed || source == "manual"));
    TallyIs(judge, rows, |rows|);
    assert rows[..|rows|] == rows;
    forall r | r in rows
      ensures judge(r).Become? == (source in r.sources && !goes(r)) && judge(r).Leave? == goes(r)
    {
      if source in r.sources && r.sources - {source} == {} {
        OnlySource(source, r.sources);
      }
    }
    KeepingAgree(rows, (r: Row) => judge(r).Become?, (r: Row) => source in r.sources && !goes(r));
    KeepingAgree(rows, (r: Row) => judge(r).Leave?, (r: Row) => goes(r));
  }

  // ----- the edges a run leaves -----

  /** Another source made the edge or this report confirmed it, if it has edges at all; and both its rows are left. */
  ghost predicate EdgeStays(run: Run, wanted: seq<Wanted>, audit: Audit, store: Store, e: Edge)
  {
    && e in audit.parented && HasId(store.rows, e.parentId) && HasId(store.rows, e.childId)
    && (wanted == [] || e.source != run.source || (e.parentId, e.childId, e.relation) in audit.confirmed)
  }

  /** Which of the edges after the site phase are left. */
  lemma EdgesLeft(run: Run, start: Start, devices: seq<Device>, wanted: seq<Wanted>, site: Id, audit: Audit,
                  store: Store)
    requires Phases(run, start, devices, wanted, site, audit, store) && GoodStart(start, site)
    ensures forall e :: e in store.edges <==> EdgeStays(run, wanted, audit, store, e)
  {
    MergePhaseMerges(run, start, devices, audit);
    var rep := ReportOf(run, devices, start.edgeId, audit);
    LinkPhaseKeeps(rep, start, wanted, audit.link, site);
    SitePhaseKeeps(rep, start.store.edges, audit.link[|wanted|], site, audit.parented, audit.confirmed);
    var before := Unretired(rep, wanted, audit.parented, audit.confirmed, start.store.links);
    forall e
      ensures e in store.edges <==> e in before.edges && HasId(store.rows, e.parentId) && HasId(store.rows, e.childId)
    {
      RetiredEdge(rep, wanted, before, store, e);
    }
  }

  lemma RetiredEdge(rep: Report, wanted: seq<Wanted>, before: Store, store: Store, e: Edge)
    requires DistinctRows(before.rows) && NoDanglingEdge(before.rows, before.edges)
    requires RetirePhase(rep, wanted, before, store)
    ensures e in store.edges <==> e in before.edges && HasId(store.rows, e.parentId) && HasId(store.rows, e.childId)
  {
    if rep.devices != [] {
      WhoRemains(VanishedFrom(rep, wanted), before, store, e.parentId);
      WhoRemains(VanishedFrom(rep, wanted), before, store, e.childId);
    }
  }
}

/** Retiring rows: one sweep over the store in which every row stays, is updated, or leaves together with the
    edges and group links that refer to it; and the three rules by which discovery output is retired: a run
    that no longer reports a row, a source that is forgotten, and collection by age.
  */
module DiscoveryRetention {
  import opened Directory
  import opened AccessLevels
  import opened ResourceMatcher
  import opened DiscoveryMerge

  ghost predicate NoDanglingEdge(rows: seq<Row>, edges: seq<Edge>)
  {
    forall e :: e in edges ==> HasId(rows, e.parentId) && HasId(rows, e.childId)
  }

  ghost predicate NoDanglingLink(rows: seq<Row>, links: seq<Link>)
  {
    forall l :: l in links ==> HasId(rows, l.resourceId)
  }

  /** What a sweep does with a row: nothing, an update, or removal with everything that refers to it. */
  datatype Verdict = Stay | Become(row: Row) | Leave

  type Judge = Row -> Verdict

  ghost predicate KeepsIds(judge: Judge, rows: seq<Row>)
  {
    forall r :: r in rows && judge(r).Become? ==> judge(r).row.id == r.id
  }

  /** Row `r` is what is left of the stored row `r0`. */
  predicate Survives(judge: Judge, r0: Row, r: Row)
  {
    match judge(r0)
    case Stay => r == r0
    case Become(row) => r == row
    case Leave => false
  }

  /** `r` is what is left of some stored row. */
  ghost predicate Leftover(judge: Judge, rows0: seq<Row>, r: Row)
  {
    exists r0 :: r0 in rows0 && Survives(judge, r0, r)
  }

  predicate Leaves(judge: Judge, rows: seq<Row>, id: Id)
  {
    exists r :: r in rows && r.id == id && judge(r).Leave?
  }

  function KeepingRows(rows: seq<Row>, id: Id): seq<Row> { Keeping(rows, (r: Row) => r.id != id) }

  function KeepingLinks(links: seq<Link>, id: Id): seq<Link> { Keeping(links, (l: Link) => l.resourceId != id) }

  /** Everything that is stored. */
  datatype Store = Store(rows: seq<Row>, edges: seq<Edge>, links: seq<Link>)

  /** The store after a sweep. */
  ghost predicate Swept(judge: Judge, store0: Store, store: Store)
  {
    && (forall r :: r in store.rows <==> Leftover(judge, store0.rows, r))
    && (forall e :: e in store.edges <==>
          e in store0.edges && !Leaves(judge, store0.rows, e.parentId) && !Leaves(judge, store0.rows, e.childId))
    && (forall l :: l in store.links <==> l in store0.links && !Leaves(judge, store0.rows, l.resourceId))
  }

  lemma WhoRemains(judge: Judge, store0: Store, store: Store, id: Id)
    requires DistinctRows(store0.rows) && KeepsIds(judge, store0.rows) && Swept(judge, store0, store)
    ensures HasId(store.rows, id) <==> HasId(store0.rows, id) && !Leaves(judge, store0.rows, id)
  {
    if HasId(store.rows, id) {
      var r :| r in store.rows && r.id == id;
      var r0 :| r0 in store0.rows && Survives(judge, r0, r);
      assert r0.id == id;
    }
    if r0 :| r0 in store0.rows && r0.id == id && !Leaves(judge, store0.rows, id) {
      var r := if judge(r0).Become? then judge(r0).row else r0;
      assert Survives(judge, r0, r);
    }
  }

  /** A sweep leaves nothing dangling. */
  lemma SweepLeavesNothingDangling(judge: Judge, store0: Store, store: Store)
    requires DistinctRows(store0.rows) && KeepsIds(judge, store0.rows) && Swept(judge, store0, store)
    ensures DistinctRows(store.rows)
    ensures NoDanglingEdge(store0.rows, store0.edges) ==> NoDanglingEdge(store.rows, store.edges)
    ensures NoDanglingLink(store0.rows, store0.links) ==> NoDanglingLink(store.rows, store.links)
  {
    forall id
      ensures HasId(store.rows, id) <==> HasId(store0.rows, id) && !Leaves(judge, store0.rows, id)
    {
      WhoRemains(judge, store0, store, id);
    }
    forall r, s | r in store.rows && s in store.rows && r.id == s.id
      ensures r == s
    {
      var r0 :| r0 in store0.rows && Survives(judge, r0, r);
      var s0 :| s0 in store0.rows && Survives(judge, s0, s);
    }
  }

  /** The sweep after the rows in `done`. */
  ghost predicate Sweeping(judge: Judge, store0: Store, done: set<Id>, store: Store)
  {
    && (forall r :: r in store.rows <==> SweptSoFar(judge, store0.rows, done, r))
    && (forall e :: e in store.edges <==>
          e in store0.edges && !Left(judge, store0, done, e.parentId) && !Left(judge, store0, done, e.childId))
    && (forall l :: l in store.links <==> l in store0.links && !Left(judge, store0, done, l.resourceId))
  }

  ghost predicate SweptSoFar(judge: Judge, rows0: seq<Row>, done: set<Id>, r: Row)
  {
    exists r0 :: r0 in rows0 && if r0.id in done then Survives(judge, r0, r) else r == r0
  }

  ghost predicate Left(judge: Judge, store0: Store, done: set<Id>, id: Id)
  {
    id in done && Leaves(judge, store0.rows, id)
  }

  function KeepingEdges(edges: seq<Edge>, id: Id): seq<Edge>
  {
    Keeping(edges, (e: Edge) => e.parentId != id && e.childId != id)
  }

  function Carried(judge: Judge, r: Row, store: Store): Store
  {
    match judge(r)
    case Stay => store
    case Become(row) => store.(rows := Replaced(store.rows, r.id, row))
    case Leave => Store(KeepingRows(store.rows, r.id), KeepingEdges(store.edges, r.id), KeepingLinks(store.links, r.id))
  }

  lemma SweepStep(judge: Judge, store0: Store, done: set<Id>, store: Store, r: Row)
    requires DistinctRows(store0.rows) && KeepsIds(judge, store0.rows) && r in store0.rows
    requires Sweeping(judge, store0, done, store)
    ensures Sweeping(judge, store0, done + {r.id}, Carried(judge, r, store))
  {
    SweepRow(judge, store0.rows, done, store.rows, r);
    var done' := done + {r.id};
    forall id
      ensures Left(judge, store0, done', id) <==> Left(judge, store0, done, id) || (id == r.id && judge(r).Leave?)
    {
    }
  }

  lemma SweepRow(judge: Judge, rows0: seq<Row>, done: set<Id>, rows: seq<Row>, r: Row)
    requires DistinctRows(rows0) && KeepsIds(judge, rows0) && r in rows0
    requires forall s :: s in rows <==> SweptSoFar(judge, rows0, done, s)
    ensures var rows' := Carried(judge, r, Store(rows, [], [])).rows;
      forall s :: s in rows' <==> SweptSoFar(judge, rows0, done + {r.id}, s)
  {
    if judge(r).Become? {
      ReplacedAre(rows, r.id, judge(r).row);
    }
    var rows' := Carried(judge, r, Store(rows, [], [])).rows;
    forall s
      ensures s in rows' <==> SweptSoFar(judge, rows0, done + {r.id}, s)
    {
      if SweptSoFar(judge, rows0, done + {r.id}, s) {
        var r0 :| r0 in rows0 && if r0.id in done + {r.id} then Survives(judge, r0, s) else s == r0;
        if r0.id == r.id {
          assert r0 == r;
          OwnRowIsThere(judge, rows0, done, rows, r);
        }
      }
    }
  }

  /** Unless `r` was removed, there is a row with its id. */
  lemma OwnRowIsThere(judge: Judge, rows0: seq<Row>, done: set<Id>, rows: seq<Row>, r: Row)
    requires KeepsIds(judge, rows0) && r in rows0
    requires forall s :: s in rows <==> SweptSoFar(judge, rows0, done, s)
    ensures !judge(r).Leave? ==> HasId(rows, r.id)
  {
    var s := if r.id in done && judge(r).Become? then judge(r).row else r;
    if !judge(r).Leave? {
      assert SweptSoFar(judge, rows0, done, s);
    }
  }

  /** How many of the first `n` rows are updated, and how many are removed. */
  function Tally(judge: Judge, rows: seq<Row>, n: nat): (nat, nat)
    requires n <= |rows|
  {
    if n == 0 then (0, 0)
    else
      var (updated, removed) := Tally(judge, rows, n - 1);
      match judge(rows[n - 1])
      case Stay => (updated, removed)
      case Become(_) => (updated + 1, removed)
      case Leave => (updated, removed + 1)
  }

  /** How often the edges are counted when they are found by their child and then by their parent. */
  function Weight(edges: seq<Edge>): nat
  {
    |edges| + |Keeping(edges, (e: Edge) => e.parentId == e.childId)|
  }

  lemma {:induction false} CutWeighs(edges: seq<Edge>, id: Id)
    ensures |Keeping(edges, (e: Edge) => e.childId == id)| + |Keeping(edges, (e: Edge) => e.parentId == id)|
         == Weight(edges) - Weight(KeepingEdges(edges, id))
    decreases |edges|
  {
    if edges != [] {
      var init, last := edges[..|edges| - 1], edges[|edges| - 1];
      CutWeighs(init, id);
      WeightSnoc(KeepingEdges(init, id), last);
      assert edges == init + [last];
    }
  }

  lemma WeightSnoc(edges: seq<Edge>, e: Edge)
    ensures Weight(edges + [e]) == Weight(edges) + if e.parentId == e.childId then 2 else 1
  {
    assert (edges + [e])[..|edges|] == edges;
  }

  method SweepStore(judge: Judge, store0: Store) returns (store: Store, updated: nat, removed: nat, cut: nat)
    requires DistinctRows(store0.rows) && KeepsIds(judge, store0.rows)
    ensures Swept(judge, store0, store)
    ensures (updated, removed) == Tally(judge, store0.rows, |store0.rows|)
    ensures cut == Weight(store0.edges) - Weight(store.edges)
  {
    store, updated, removed, cut := SweepAll(judge, store0);
    SweptFirstIsSwept(judge, store0);
  }

  method SweepAll(judge: Judge, store0: Store) returns (store: Store, updated: nat, removed: nat, cut: nat)
    ensures SweptTo(judge, store0, |store0.rows|, store, updated, removed, cut)
  {
    store, updated, removed, cut := store0, 0, 0, 0;
    for n := 0 to |store0.rows|
      invariant SweptTo(judge, store0, n, store, updated, removed, cut)
    {
      store, updated, removed, cut := CarryOut(judge, store0, n, store, updated, removed, cut);
    }
  }

  /** The store after the first `n` rows have been judged. */
  function SweptFirst(judge: Judge, store0: Store, n: nat): Store
    requires n <= |store0.rows|
  {
    if n == 0 then store0 else Carried(judge, store0.rows[n - 1], SweptFirst(judge, store0, n - 1))
  }

  lemma {:induction false} SweepsFirst(judge: Judge, store0: Store, n: nat)
    requires DistinctRows(store0.rows) && KeepsIds(judge, store0.rows) && n <= |store0.rows|
    ensures Sweeping(judge, store0, FirstIds(store0.rows, n), SweptFirst(judge, store0, n))
    decreases n
  {
    if n > 0 {
      SweepsFirst(judge, store0, n - 1);
      SweepStep(judge, store0, FirstIds(store0.rows, n - 1), SweptFirst(judge, store0, n - 1), store0.rows[n - 1]);
    }
  }

  lemma SweptFirstIsSwept(judge: Judge, store0: Store)
    requires DistinctRows(store0.rows) && KeepsIds(judge, store0.rows)
    ensures Swept(judge, store0, SweptFirst(judge, store0, |store0.rows|))
  {
    AllDone(store0.rows);
    SweepsFirst(judge, store0, |store0.rows|);
    SweepEnds(judge, store0, FirstIds(store0.rows, |store0.rows|), SweptFirst(judge, store0, |store0.rows|));
  }

  ghost function FirstIds(rows: seq<Row>, n: nat): set<Id>
    requires n <= |rows|
  {
    if n == 0 then {} else FirstIds(rows, n - 1) + {rows[n - 1].id}
  }

  /** The sweep has judged the first `n` rows; `updated`, `removed` and `cut` count what it did. */
  predicate SweptTo(judge: Judge, store0: Store, n: nat, store: Store, updated: nat, removed: nat, cut: nat)
    requires n <= |store0.rows|
  {
    && store == SweptFirst(judge, store0, n)
    && (updated, removed) == Tally(judge, store0.rows, n)
    && cut == Weight(store0.edges) - Weight(store.edges)
  }

  /** One row of the sweep: a removed row takes its edges and group links along. */
  method CarryOut(judge: Judge, store0: Store, n: nat, store1: Store, updated1: nat, removed1: nat, cut1: nat)
    returns (store: Store, updated: nat, removed: nat, cut: nat)
    requires n < |store0.rows| && SweptTo(judge, store0, n, store1, updated1, removed1, cut1)
    ensures SweptTo(judge, store0, n + 1, store, updated, removed, cut)
  {
    store, updated, removed, cut := store1, updated1, removed1, cut1;
    var r := store0.rows[n];
    match judge(r) {
      case Stay =>
      case Become(row) =>
        store := store.(rows := Replaced(store.rows, r.id, row));
        updated := updated + 1;
      case Leave =>
        CutWeighs(store.edges, r.id);
        var asChild := Keeping(store.edges, (e: Edge) => e.childId == r.id);
        var asParent := Keeping(store.edges, (e: Edge) => e.parentId == r.id);
        cut := cut + |asChild| + |asParent|;
        store := store.(edges := KeepingEdges(store.edges, r.id), links := KeepingLinks(store.links, r.id));
        store := store.(rows := KeepingRows(store.rows, r.id));
        removed := removed + 1;
    }
  }

  lemma AllDone(rows: seq<Row>)
    ensures forall r :: r in rows ==> r.id in FirstIds(rows, |rows|)
  {
    forall r | r in rows
      ensures r.id in FirstIds(rows, |rows|)
    {
      var k :| 0 <= k < |rows| && rows[k] == r;
      IdIsAmongFirst(rows, k, |rows|);
    }
  }

  lemma {:induction false} IdIsAmongFirst(rows: seq<Row>, k: nat, n: nat)
    requires k < n <= |rows|
    ensures rows[k].id in FirstIds(rows, n)
    decreases n
  {
    if k < n - 1 {
      IdIsAmongFirst(rows, k, n - 1);
    }
  }

  lemma SweepEnds(judge: Judge, store0: Store, done: set<Id>, store: Store)
    requires Sweeping(judge, store0, done, store) && forall r :: r in store0.rows ==> r.id in done
    ensures Swept(judge, store0, store)
  {
    forall r
      ensures r in store.rows <==> Leftover(judge, store0.rows, r)
    {
      assert r in store.rows <==> SweptSoFar(judge, store0.rows, done, r);
    }
  }

  // ----- the three rules -----

  /** After a run: a row that the source no longer reports loses the attribution, or goes if nothing else vouches
      for it and the source reports topology. */
  function Vanished(source: string, reported: set<Id>, topology: bool): Judge
  {
    (r: Row) =>
      if source !in r.sources || r.id in reported then Stay
      else if r.sources - {source} != {} || r.createdByHand || "manual" in r.sources || r.kind == "site" then
        Become(r.(sources := r.sources - {source}))
      else if topology then Leave
      else Stay
  }

  /** `forgetSource`: what the source alone found goes, unless it was promoted and promotions are kept. */
  function Forgotten(source: string, keepPromoted: bool): Judge
  {
    (r: Row) =>
      if source !in r.sources then Stay
      else if r.sources - {source} != {} || (keepPromoted && (r.managed || "manual" in r.sources)) then
        Become(r.(sources := r.sources - {source}))
      else Leave
  }

  predicate Collectable(r: Row)
  {
    !r.managed && r.sources != {} && "manual" !in r.sources
  }

  /** `garbageCollect`: discovered, never promoted, and not seen since the cutoffs. */
  function Stale(staleCutoff: int, purgeCutoff: int): Judge
  {
    (r: Row) =>
      if !Collectable(r) || r.lastSeen == None || r.lastSeen == Some(0) then Stay
      else if r.lastSeen.value < purgeCutoff then Leave
      else if r.lastSeen.value < staleCutoff && !r.archived then Become(r.(archived := true))
      else Stay
  }

  function EdgesNotFrom(edges: seq<Edge>, source: string): seq<Edge> { Keeping(edges, (e: Edge) => e.source != source) }

  function EdgesFrom(edges: seq<Edge>, source: string): seq<Edge> { Keeping(edges, (e: Edge) => e.source == source) }

  lemma {:induction false} FromOrNot(edges: seq<Edge>, source: string)
    ensures |EdgesFrom(edges, source)| == |edges| - |EdgesNotFrom(edges, source)|
    decreases |edges|
  {
    if edges != [] {
      FromOrNot(edges[..|edges| - 1], source);
    }
  }

  /** What forgetting a source leaves of the rows. */
  lemma ForgettingRows(source: string, keepPromoted: bool, store0: Store, store: Store)
    requires DistinctRows(store0.rows) && Swept(Forgotten(source, keepPromoted), store0, store)
    ensures forall r :: r in store.rows ==> source !in r.sources
    ensures forall r :: r in store.rows ==> exists r0 :: r0 in store0.rows && r == r0.(sources := r0.sources - {source})
    ensures forall r0 :: r0 in store0.rows && source !in r0.sources ==> r0 in store.rows
    ensures forall r0 :: r0 in store0.rows && !HasId(store.rows, r0.id) ==>
      r0.sources == {source} && (keepPromoted ==> !r0.managed && source != "manual")
  {
    var judge := Forgotten(source, keepPromoted);
    forall r | r in store.rows
      ensures source !in r.sources && exists r0 :: r0 in store0.rows && r == r0.(sources := r0.sources - {source})
    {
      var r0 :| r0 in store0.rows && Survives(judge, r0, r);
      assert r == r0.(sources := r0.sources - {source});
    }
    forall r0 | r0 in store0.rows
      ensures !HasId(store.rows, r0.id) ==> judge(r0).Leave?
      ensures source !in r0.sources ==> r0 in store.rows
    {
      WhoRemains(judge, store0, store, r0.id);
      assert source !in r0.sources ==> Survives(judge, r0, r0);
    }
  }

  /** What forgetting a source leaves of the edges and group links. */
  lemma ForgettingEdges(source: string, keepPromoted: bool, store0: Store, swept: Store, store: Store)
    requires DistinctRows(store0.rows) && Swept(Forgotten(source, keepPromoted), store0, swept)
    requires store == swept.(edges := EdgesNotFrom(swept.edges, source))
    requires NoDanglingEdge(store0.rows, store0.edges) && NoDanglingLink(store0.rows, store0.links)
    ensures NoDanglingEdge(store.rows, store.edges) && NoDanglingLink(store.rows, store.links)
    ensures forall e :: e in store.edges <==>
      e in store0.edges && e.source != source && HasId(store.rows, e.parentId) && HasId(store.rows, e.childId)
    ensures forall l :: l in store.links <==> l in store0.links && HasId(store.rows, l.resourceId)
  {
    var judge := Forgotten(source, keepPromoted);
    SweepLeavesNothingDangling(judge, store0, swept);
    forall id
      ensures HasId(swept.rows, id) <==> HasId(store0.rows, id) && !Leaves(judge, store0.rows, id)
    {
      WhoRemains(judge, store0, swept, id);
    }
  }

  /** What garbage collection does, row by row. */
  lemma CollectionIsStrict(staleCutoff: int, purgeCutoff: int, store0: Store, store: Store, r0: Row)
    requires DistinctRows(store0.rows) && Swept(Stale(staleCutoff, purgeCutoff), store0, store) && r0 in store0.rows
    ensures var seen := Collectable(r0) && r0.lastSeen.Some? && r0.lastSeen != Some(0);
      && (HasId(store.rows, r0.id) <==> !(seen && r0.lastSeen.value < purgeCutoff))
      && (r0.(archived := true) in store.rows <==>
            !(seen && r0.lastSeen.value < purgeCutoff) && (r0.archived || (seen && r0.lastSeen.value < staleCutoff)))
      && (r0 in store.rows <==>
            !(seen && r0.lastSeen.value < purgeCutoff) && (r0.archived || !(seen && r0.lastSeen.value < staleCutoff)))
      && (r0.managed || "manual" in r0.sources || r0.sources == {} ==> r0 in store.rows)
  {
    var judge := Stale(staleCutoff, purgeCutoff);
    WhoRemains(judge, store0, store, r0.id);
    var archived := r0.(archived := true);
    assert r0 in store.rows <==> Leftover(judge, store0.rows, r0);
    assert archived in store.rows <==> Leftover(judge, store0.rows, archived);
    forall s, t | s in store0.rows && Survives(judge, s, t) && t.id == r0.id
      ensures s == r0
    {
    }
    assert judge(r0).Stay? ==> Survives(judge, r0, r0);
    assert judge(r0).Become? ==> Survives(judge, r0, archived);
  }
}

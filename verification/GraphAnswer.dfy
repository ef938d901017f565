/** What the graph view shows of each row, in the names of the environments and statuses themselves. */
module GraphAnswer {
  import opened Graph
  import opened Directory
  import opened ResourceGraph
  import opened BubblingWalk
  import opened GraphViews

  /** A way down the directory: each row on it but the last is stored, and an edge with both its ends leads on. */
  ghost predicate IsWayDown(resources: seq<Resource>, edges: seq<Edge>, way: seq<Id>)
  {
    way != [] && forall i :: 0 < i < |way| ==> IsChildOf(resources, edges, way[i - 1], way[i])
  }

  ghost predicate IsChildOf(resources: seq<Resource>, edges: seq<Edge>, parent: Id, child: Id)
  {
    && (exists r :: r in resources && r.id == parent)
    && exists e :: e in edges && e.parentId == parent && e.childId == child && parent != "" && child != ""
  }

  /** The row is at `id` or below it. */
  ghost predicate IsUnder(resources: seq<Resource>, edges: seq<Edge>, id: Id, r: Resource)
  {
    && Find(resources, r.id) == Some(r)
    && exists way :: IsWayDown(resources, edges, way) && way[0] == id && way[|way| - 1] == r.id
  }

  lemma ChildIsLive(resources: seq<Resource>, edges: seq<Edge>, parent: Id, child: Id)
    ensures IsChildOf(resources, edges, parent, child) <==> (parent, child) in Live(resources, edges)
  {
    if (parent, child) in Live(resources, edges) {
      var e :| e in edges && e.Usable() && (Tail(e, ToChildren), Head(e, ToChildren)) == (parent, child);
    }
    if e :| e in edges && e.parentId == parent && e.childId == child && parent != "" && child != "" {
      assert e.Usable() && (Tail(e, ToChildren), Head(e, ToChildren)) == (parent, child);
    }
  }

  lemma {:induction false} StepsHaveWay(resources: seq<Resource>, edges: seq<Edge>, n: nat, x: Id, y: Id)
    returns (way: seq<Id>)
    requires Steps(Live(resources, edges), n, x, y)
    ensures IsWayDown(resources, edges, way) && way[0] == x && way[|way| - 1] == y
    decreases n
  {
    if n == 0 {
      way := [x];
    } else {
      var z :| (x, z) in Live(resources, edges) && Steps(Live(resources, edges), n - 1, z, y);
      var rest := StepsHaveWay(resources, edges, n - 1, z, y);
      ChildIsLive(resources, edges, x, z);
      way := [x] + rest;
      forall i | 0 < i < |way|
        ensures IsChildOf(resources, edges, way[i - 1], way[i])
      {
        assert way[i] == rest[i - 1] && (i > 1 ==> way[i - 1] == rest[i - 2]);
      }
    }
  }

  lemma {:induction false} WayReaches(resources: seq<Resource>, edges: seq<Edge>, way: seq<Id>)
    requires IsWayDown(resources, edges, way)
    ensures Reach(Live(resources, edges), way[0], way[|way| - 1])
    decreases |way|
  {
    if |way| == 1 {
      ReachRefl(Live(resources, edges), way[0]);
    } else {
      var rest := way[1..];
      forall i | 0 < i < |rest|
        ensures IsChildOf(resources, edges, rest[i - 1], rest[i])
      {
        assert IsChildOf(resources, edges, way[i + 1 - 1], way[i + 1]);
      }
      WayReaches(resources, edges, rest);
      assert IsChildOf(resources, edges, way[1 - 1], way[1]);
      ChildIsLive(resources, edges, way[0], way[1]);
      ReachCons(Live(resources, edges), way[0], way[1], way[|way| - 1]);
    }
  }

  lemma UnderIff(resources: seq<Resource>, edges: seq<Edge>, id: Id, r: Resource)
    ensures IsUnder(resources, edges, id, r)
       <==> Find(resources, r.id) == Some(r) && Reach(Live(resources, edges), id, r.id)
  {
    if Reach(Live(resources, edges), id, r.id) {
      var n: nat :| Steps(Live(resources, edges), n, id, r.id);
      var way := StepsHaveWay(resources, edges, n, id, r.id);
    }
    if way :| IsWayDown(resources, edges, way) && way[0] == id && way[|way| - 1] == r.id {
      WayReaches(resources, edges, way);
    }
  }

  // ----- one value after the other -----

  ghost predicate EnvUnder(resources: seq<Resource>, edges: seq<Edge>, id: Id, env: string)
  {
    exists r :: IsUnder(resources, edges, id, r) && r.environment == env
  }

  ghost predicate StatusUnder(resources: seq<Resource>, edges: seq<Edge>, id: Id, status: string)
  {
    exists r :: IsUnder(resources, edges, id, r) && r.status == status
  }

  ghost predicate TagUnder(resources: seq<Resource>, edges: seq<Edge>, id: Id, tag: string)
  {
    exists r :: IsUnder(resources, edges, id, r) && tag in r.tags
  }

  lemma RankUnder(view: View, id: Id, rolled: Rolled, r: Resource)
    requires view.Exact(id, rolled) && IsUnder(view.resources, view.edges, id, r)
    ensures view.Rank(view.own(r)) <= view.Rank(rolled.value)
  {
    UnderIff(view.resources, view.edges, id, r);
    assert view.OwnRank(r.id) == view.Rank(view.own(r));
  }

  lemma ShownIsUnder(view: View, id: Id, rolled: Rolled)
    requires view.Exact(id, rolled) && view.Rank(rolled.value) > 0
    ensures rolled.from.Some? && IsUnder(view.resources, view.edges, id, rolled.from.value)
    ensures view.own(rolled.from.value) == rolled.value
  {
    UnderIff(view.resources, view.edges, id, rolled.from.value);
  }

  /** `prod` if anything at or below the row is, else `testing` if anything is, else `dev`, else nothing. */
  lemma EnvironmentIs(resources: seq<Resource>, edges: seq<Edge>, id: Id, rolled: Rolled)
    requires EnvView(resources, edges).Exact(id, rolled)
    ensures rolled.value ==
      if EnvUnder(resources, edges, id, "prod") then "prod"
      else if EnvUnder(resources, edges, id, "testing") then "testing"
      else if EnvUnder(resources, edges, id, "dev") then "dev"
      else ""
  {
    var view := EnvView(resources, edges);
    forall r | IsUnder(resources, edges, id, r)
      ensures view.Rank(r.environment) <= view.Rank(rolled.value)
    {
      RankUnder(view, id, rolled, r);
    }
    if view.Rank(rolled.value) > 0 {
      ShownIsUnder(view, id, rolled);
    }
  }

  ghost predicate Alarm(resources: seq<Resource>, edges: seq<Edge>, id: Id)
  {
    StatusUnder(resources, edges, id, "critical") || StatusUnder(resources, edges, id, "error")
  }

  /** The worst status at or below the row, alarms aside. */
  ghost function Calm(resources: seq<Resource>, edges: seq<Edge>, id: Id): string
  {
    if StatusUnder(resources, edges, id, "warning") then "warning"
    else if StatusUnder(resources, edges, id, "unknown") then "unknown"
    else if StatusUnder(resources, edges, id, "ok") then "ok"
    else ""
  }

  lemma StatusRanks(view: View, s: string)
    requires view.ranks == STATUS_RANK
    ensures view.Rank(s) <= 4 && (view.Rank(s) == 4 <==> s in {"critical", "error"})
    ensures (view.Rank(s) == 3 <==> s == "warning") && (view.Rank(s) == 2 <==> s == "unknown")
    ensures view.Rank(s) == 1 <==> s == "ok"
  {
  }

  lemma AllUnder(view: View, id: Id, rolled: Rolled)
    requires view.Exact(id, rolled) && view.own == StatusOf
    ensures forall r :: IsUnder(view.resources, view.edges, id, r) ==> view.Rank(r.status) <= view.Rank(rolled.value)
  {
    forall r | IsUnder(view.resources, view.edges, id, r)
      ensures view.Rank(r.status) <= view.Rank(rolled.value)
    {
      RankUnder(view, id, rolled, r);
    }
  }

  /** The worst status at or below the row: critical and error alike, then warning, then unknown, then ok. */
  lemma StatusIs(resources: seq<Resource>, edges: seq<Edge>, id: Id, rolled: Rolled)
    requires StatusView(resources, edges).Exact(id, rolled)
    ensures if Alarm(resources, edges, id) then rolled.value in {"critical", "error"}
            else rolled.value == Calm(resources, edges, id)
    ensures rolled.value != "" ==> StatusUnder(resources, edges, id, rolled.value)
  {
    var view := StatusView(resources, edges);
    AllUnder(view, id, rolled);
    StatusRanks(view, rolled.value);
    StatusRanks(view, "critical");
    StatusRanks(view, "error");
    StatusRanks(view, "warning");
    StatusRanks(view, "unknown");
    StatusRanks(view, "ok");
    if view.Rank(rolled.value) > 0 {
      ShownIsUnder(view, id, rolled);
    }
  }

  /** Tags are those of the rows at or below; all of them, unless two rows are below each other. */
  lemma TagsAre(resources: seq<Resource>, edges: seq<Edge>, id: Id, tags: set<string>)
    requires TagFold(resources, edges).Sound(tags, id, Ids(resources))
    ensures forall tag :: tag in tags ==> TagUnder(resources, edges, id, tag)
    ensures TagFold(resources, edges).Complete(tags, id) ==>
      forall tag :: TagUnder(resources, edges, id, tag) ==> tag in tags
  {
    var fold := TagFold(resources, edges);
    forall tag | tag in tags
      ensures TagUnder(resources, edges, id, tag)
    {
      assert fold.has(tags, tag);
      var y :| y in Ids(resources) && Reach(fold.Below(), id, y) && fold.OwnHas(y, tag);
      var r := Find(resources, y).value;
      UnderIff(resources, edges, id, r);
    }
    forall tag | fold.Complete(tags, id) && TagUnder(resources, edges, id, tag)
      ensures tag in tags
    {
      var r :| IsUnder(resources, edges, id, r) && tag in r.tags;
      UnderIff(resources, edges, id, r);
      assert fold.OwnHas(r.id, tag) && fold.has(tags, tag);
    }
  }

  /** Whom a status is blamed on: a row below that has it, and nobody if the row itself is shown to have it. */
  ghost predicate Blames(resources: seq<Resource>, edges: seq<Edge>, row: Resource, status: string, blamed: string)
  {
    if status == "" then blamed == ""
    else exists r :: (
      && IsUnder(resources, edges, row.id, r) && r.status == status
      && blamed == if r.id == row.id then "" else if r.name != "" then r.name else r.slug)
  }

  lemma StatusIsBlamed(resources: seq<Resource>, edges: seq<Edge>, row: Resource, rolled: Rolled)
    requires StatusView(resources, edges).Exact(row.id, rolled)
    ensures Blames(resources, edges, row, rolled.value, Blame(row, rolled))
  {
    if rolled.value != "" {
      ShownIsUnder(StatusView(resources, edges), row.id, rolled);
    }
  }
}

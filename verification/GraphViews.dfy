/** What the directory shows of its graph: `Resource.getGraph` with its three bubbled values, and the
    scheduler's own copy of the environment walk.
  */
module GraphViews {
  import opened Graph
  import opened Directory
  import opened ResourceGraph
  import opened BubblingWalk

  // ----- environments: the flagged walk and the unflagged one -----

  function EnvRank(name: string): nat
  {
    if name in ENV_RANK then ENV_RANK[name] else 0
  }

  /** A ranked environment, or none. */
  type Environment = s: string | s == "" || s in ENV_RANK

  function OwnEnvironment(r: Resource): Environment
  {
    if EnvRank(r.environment) > 0 then r.environment else ""
  }

  function Stronger(best: Environment, child: Environment): Environment
  {
    if EnvRank(child) > 0 && (best == "" || EnvRank(child) > EnvRank(best)) then child else best
  }

  predicate HasRank(e: Environment, k: nat)
  {
    0 < k <= EnvRank(e)
  }

  function EnvironmentOf(r: Resource): string { r.environment }

  function StatusOf(r: Resource): string { r.status }

  function TagsOf(r: Resource): set<string> { r.tags }

  function Union(a: set<string>, b: set<string>): set<string> { a + b }

  predicate Tagged(s: set<string>, tag: string) { tag in s }

  /** `getGraph`'s view of environments. */
  function EnvView(resources: seq<Resource>, edges: seq<Edge>): View
  {
    View(resources, edges, EnvironmentOf, ENV_RANK)
  }

  function StatusView(resources: seq<Resource>, edges: seq<Edge>): View
  {
    View(resources, edges, StatusOf, STATUS_RANK)
  }

  /** The scheduler's fold: an environment carries the ranks up to its own. */
  function EnvFold(resources: seq<Resource>, edges: seq<Edge>): Fold<Environment, nat>
  {
    Fold<Environment, nat>.Fold(resources, edges, OwnEnvironment, "", Stronger, HasRank)
  }

  function TagFold(resources: seq<Resource>, edges: seq<Edge>): Fold<set<string>, string>
  {
    Fold(resources, edges, TagsOf, {}, Union, Tagged)
  }

  lemma FoldsAreLawful(resources: seq<Resource>, edges: seq<Edge>)
    ensures EnvFold(resources, edges).Lawful()
    ensures TagFold(resources, edges).Lawful()
  {
  }

  lemma EnvRankInjective(a: Environment, b: Environment)
    requires EnvRank(a) == EnvRank(b)
    ensures a == b
  {
  }

  /** Where both walks are exact they name the same environment. */
  lemma WalksAgree(resources: seq<Resource>, edges: seq<Edge>, id: Id, rolled: Rolled, value: Environment,
                   known: set<Id>)
    requires EnvView(resources, edges).Exact(id, rolled)
    requires EnvFold(resources, edges).Sound(value, id, known) && EnvFold(resources, edges).Complete(value, id)
    ensures rolled.value == value
  {
    var view, fold := EnvView(resources, edges), EnvFold(resources, edges);
    var k := EnvRank(value);
    if k > 0 {
      assert fold.has(value, k);
      var y :| y in known && Reach(fold.Below(), id, y) && fold.OwnHas(y, k);
      assert view.OwnRank(y) >= k;
    }
    var j := view.Rank(rolled.value);
    if j > 0 {
      assert fold.OwnHas(rolled.from.value.id, j);
    }
    EnvRankInjective(rolled.value, value);
  }

  /** The scheduler's `bubbled_environment` of the resources that have rules, asked for in list order. On a graph
      without two rows below each other it is the value the graph API shows. */
  method BubbledEnvironments(resources: seq<Resource>, edges: seq<Edge>, ruled: Resource -> bool)
    returns (asked: seq<Resource>, out: seq<Environment>)
    ensures asked == Keeping(resources, ruled) && |out| == |asked|
    ensures forall k :: 0 <= k < |out| ==>
      EnvFold(resources, edges).Sound(out[k], asked[k].id, Ids(resources))
    ensures forall k, rolled | 0 <= k < |out| && EnvView(resources, edges).Exact(asked[k].id, rolled) ::
      NoTwoCycle(Live(resources, edges)) ==> rolled.value == out[k]
  {
    var fold := EnvFold(resources, edges);
    FoldsAreLawful(resources, edges);
    var index := BuildIndex(edges, ToChildren);
    var walk := new Bubbler(fold, index);
    asked := Keeping(resources, ruled);
    out := walk.GetAll(asked);
    forall k, rolled | 0 <= k < |out| && NoTwoCycle(fold.Below())
      && EnvView(resources, edges).Exact(asked[k].id, rolled)
      ensures rolled.value == out[k]
    {
      WalksAgree(resources, edges, asked[k].id, rolled, out[k], Ids(resources));
    }
  }

  /** The same rows, of which only `a` has an environment. */
  function Staged(resources: seq<Resource>, a: Id): seq<Resource>
  {
    seq(|resources|, k requires 0 <= k < |resources| =>
      resources[k].(environment := if resources[k].id == a then "dev" else ""))
  }

  lemma StagedIsSameGraph(resources: seq<Resource>, edges: seq<Edge>, a: Id)
    ensures Ids(Staged(resources, a)) == Ids(resources) && Live(Staged(resources, a), edges) == Live(resources, edges)
    ensures forall r :: r in Staged(resources, a) ==> r.environment == if r.id == a then "dev" else ""
  {
    var staged := Staged(resources, a);
    assert forall k :: 0 <= k < |resources| ==> staged[k] in staged && staged[k].id == resources[k].id;
    forall id
      ensures id in Ids(staged) <==> id in Ids(resources)
    {
      if id in Ids(resources) {
        var k :| 0 <= k < |resources| && resources[k].id == id;
        assert staged[k].id == id;
      }
    }
  }

  /** Why the scheduler's walk needs the condition: on any graph with two rows below each other, some
      environments and some order of requests make it answer nothing where the graph API shows `dev`. */
  method TwoCycleLosesEnvironment(resources: seq<Resource>, edges: seq<Edge>, a: Id, b: Id)
    returns (shown: Rolled, late: Environment)
    requires a != b && Reach(Live(resources, edges), a, b) && Reach(Live(resources, edges), b, a)
    ensures EnvView(Staged(resources, a), edges).Exact(b, shown) && shown.value == "dev"
    ensures late == "" && !EnvFold(Staged(resources, a), edges).Complete(late, b)
  {
    var staged := Staged(resources, a);
    StagedIsSameGraph(resources, edges, a);
    ReachSplit(Live(resources, edges), a, b);
    StagedCarries(resources, edges, a);
    var index := BuildIndex(edges, ToChildren);
    late := AskLate(staged, edges, index, a, b);
    var graph := new RollUp(EnvView(staged, edges), index);
    shown := graph.Get(b);
    StagedShows(resources, edges, a, b, shown);
  }

  method AskLate(resources: seq<Resource>, edges: seq<Edge>, index: map<Id, seq<Id>>, a: Id, b: Id)
    returns (late: Environment)
    requires Indexes(index, edges, ToChildren)
    requires a != b && Reach(Live(resources, edges), a, b) && Reach(Live(resources, edges), b, a)
    requires forall y :: EnvFold(resources, edges).OwnHas(y, 1) <==> y == a
    ensures late == "" && !EnvFold(resources, edges).Complete(late, b)
  {
    FoldsAreLawful(resources, edges);
    var walk := new Bubbler(EnvFold(resources, edges), index);
    var first;
    first, late := walk.AskBoth(a, b, 1);
  }

  lemma StagedCarries(resources: seq<Resource>, edges: seq<Edge>, a: Id)
    requires a in Ids(resources)
    ensures forall y :: EnvFold(Staged(resources, a), edges).OwnHas(y, 1) <==> y == a
  {
    StagedIsSameGraph(resources, edges, a);
    FoundIffKnown(Staged(resources, a), a);
  }

  lemma StagedShows(resources: seq<Resource>, edges: seq<Edge>, a: Id, b: Id, shown: Rolled)
    requires a in Ids(resources) && Reach(Live(resources, edges), b, a)
    requires EnvView(Staged(resources, a), edges).Exact(b, shown)
    ensures shown.value == "dev"
  {
    var staged := Staged(resources, a);
    StagedIsSameGraph(resources, edges, a);
    FoundIffKnown(staged, a);
    assert EnvView(staged, edges).OwnRank(a) == 1;
  }

  // ----- the graph API -----

  datatype Bubbled = Bubbled(tags: set<string>, environment: string, status: string, statusFrom: string)

  /** Who a rolled-up status is blamed on: nobody, unless it comes from another row. */
  function Blame(r: Resource, rolled: Rolled): string
  {
    if rolled.value != "" && rolled.from.Some? && rolled.from.value.id != r.id then
      if rolled.from.value.name != "" then rolled.from.value.name else rolled.from.value.slug
    else ""
  }

  method BubbledTags(resources: seq<Resource>, edges: seq<Edge>, index: map<Id, seq<Id>>)
    returns (tags: seq<set<string>>)
    requires Indexes(index, edges, ToChildren)
    ensures |tags| == |resources|
    ensures forall k :: 0 <= k < |tags| ==>
      TagFold(resources, edges).Sound(tags[k], resources[k].id, Ids(resources))
    ensures NoTwoCycle(Live(resources, edges)) ==> forall k :: 0 <= k < |tags| ==>
      TagFold(resources, edges).Complete(tags[k], resources[k].id)
  {
    FoldsAreLawful(resources, edges);
    var walk := new Bubbler(TagFold(resources, edges), index);
    tags := walk.GetAll(resources);
  }

  /** `getGraph`: environment and status are exact on every graph, cyclic or not; tags are never
      made up, and are complete unless two rows are below each other. The three walks share no
      cache, so asking them one after the other is asking them row by row. */
  method GetGraph(resources: seq<Resource>, edges: seq<Edge>)
    returns (out: seq<Bubbled>, envs: seq<Rolled>, statuses: seq<Rolled>)
    ensures |out| == |envs| == |statuses| == |resources|
    ensures forall k :: 0 <= k < |out| ==> EnvView(resources, edges).Exact(resources[k].id, envs[k])
    ensures forall k :: 0 <= k < |out| ==> StatusView(resources, edges).Exact(resources[k].id, statuses[k])
    ensures forall k :: 0 <= k < |out| ==> out[k].environment == envs[k].value && out[k].status == statuses[k].value
    ensures forall k :: 0 <= k < |out| ==> out[k].statusFrom == Blame(resources[k], statuses[k])
    ensures forall k :: 0 <= k < |out| ==>
      TagFold(resources, edges).Sound(out[k].tags, resources[k].id, Ids(resources))
    ensures NoTwoCycle(Live(resources, edges)) ==> forall k :: 0 <= k < |out| ==>
      TagFold(resources, edges).Complete(out[k].tags, resources[k].id)
  {
    var index := BuildIndex(edges, ToChildren);
    var tags := BubbledTags(resources, edges, index);
    var envWalk := new RollUp(EnvView(resources, edges), index);
    envs := envWalk.GetAll(resources);
    var statusWalk := new RollUp(StatusView(resources, edges), index);
    statuses := statusWalk.GetAll(resources);
    out := seq(|resources|, k requires 0 <= k < |resources| =>
      Bubbled(tags[k], envs[k].value, statuses[k].value, Blame(resources[k], statuses[k])));
  }

  /** Why completeness of the tags needs the condition: on any graph with two rows below each other,
      some tagging and some order of requests loses a tag. */
  method TwoCycleLosesTag(resources: seq<Resource>, edges: seq<Edge>, a: Id, b: Id, tag: string)
    returns (tagging: Resource -> set<string>, late: set<string>)
    requires a != b && Reach(Live(resources, edges), a, b) && Reach(Live(resources, edges), b, a)
    ensures !TagFold(resources, edges).(own := tagging).Complete(late, b)
    ensures tag !in late
  {
    tagging := (r: Resource) => if r.id == a then {tag} else {};
    var fold := TagFold(resources, edges).(own := tagging);
    ReachSplit(fold.Below(), a, b);
    FoundIffKnown(resources, a);
    var index := BuildIndex(edges, ToChildren);
    var walk := new Bubbler(fold, index);
    var first;
    first, late := walk.AskBoth(a, b, tag);
  }
}

/** The list of accessible resources, said in the fields of the rows and what the caller holds. */
module AccessAnswer {
  import opened Graph
  import opened Directory
  import opened AccessInheritance
  import opened AccessProjection

  /** What the caller holds and the call is given besides the rows. */
  datatype Call<!L(!new)> = Call(
    scale: Scale<L>,
    edges: seq<Edge>,
    grants: map<Id, L>,
    nonInheriting: map<Id, L>,
    memberOf: set<string>,
    names: GroupNames,
    enrolled: set<Id>)

  /** Promoted rows, and rows made by hand that were not retired. */
  predicate Listed(r: Entry)
  {
    r.managed || (!r.archived && (r.sources == {} || "manual" in r.sources))
  }

  /** Granted at the row, or at a row above it with a level that counts. */
  ghost predicate IsGranted<L(!new)>(c: Call<L>, id: Id)
  {
    || id in c.grants || id in c.nonInheriting
    || exists a :: a in c.grants && Reach(Down(c.edges), a, id) && c.scale.rank(c.grants[a]) > 0
  }

  ghost predicate IsFirstEdge(edges: seq<Edge>, id: Id, k: int)
  {
    0 <= k < |edges| && edges[k].childId == id && forall j :: 0 <= j < k ==> edges[j].childId != id
  }

  /** The first edge above the row names this parent. */
  ghost predicate ParentIs(edges: seq<Edge>, id: Id, parent: Id)
  {
    exists k :: IsFirstEdge(edges, id, k) && edges[k].parentId == parent
  }

  /** The row and the rows above it, parent by parent. */
  ghost predicate IsLine(all: seq<Entry>, edges: seq<Edge>, path: seq<Entry>)
  {
    path != [] && forall i :: 0 < i < |path| ==> path[i] in all && ParentIs(edges, path[i - 1].id, path[i].id)
  }

  /** The line ends at a site and meets none before. */
  predicate EndsAtSite(path: seq<Entry>)
  {
    path != [] && path[|path| - 1].kind == "site" && forall i :: 0 <= i < |path| - 1 ==> path[i].kind != "site"
  }

  /** The site a row belongs to: the nearest among the first `n` rows of its line. */
  ghost predicate SiteIs(all: seq<Entry>, edges: seq<Edge>, r: Entry, n: nat, site: Option<string>)
  {
    match site
    case Some(slug) =>
      exists path: seq<Entry> :: IsLine(all, edges, path) && path[0] == r && |path| <= n && EndsAtSite(path)
        && path[|path| - 1].slug == slug
    case None =>
      forall path: seq<Entry> :: IsLine(all, edges, path) && path[0] == r && |path| <= n ==> !EndsAtSite(path)
  }

  /** Has the host a service that is an agent still enrolled? */
  ghost predicate AgentRuns(all: seq<Entry>, edges: seq<Edge>, enrolled: set<Id>, r: Entry)
  {
    exists e, s :: e in edges && s in all && e.parentId == r.id && e.childId == s.id
      && s.kind == "service" && s.subType == "theta-agent" && s.id in enrolled
  }

  /** The name without `site_`, `host_` or `app_` before it. */
  predicate IsBareName(slug: string, name: string)
  {
    || slug in {"site_" + name, "host_" + name, "app_" + name}
    || (slug == name && !("site_" <= slug) && !("host_" <= slug) && !("app_" <= slug))
  }

  /** A group that lets its members into the host of this name at this site. */
  ghost predicate OpensHost(names: GroupNames, site: Option<string>, slug: string, group: string)
  {
    || group == "god_admin" || group == names.superAdmin(site)
    || group == names.aggregate(site, "access") || group == names.aggregate(site, "admin")
    || exists name ::
         IsBareName(slug, name) && group in {names.own(site, name, "access"), names.own(site, name, "admin")}
  }

  /** A host open to machines' users: an agent runs on it, and the caller is in a group that opens it. */
  ghost predicate IsOpenHost<L(!new)>(c: Call<L>, all: seq<Entry>, r: Entry)
  {
    && r.kind == "host" && r.sshCapable && AgentRuns(all, c.edges, c.enrolled, r)
    && exists site, group ::
         SiteIs(all, c.edges, r, 32, site) && group in c.memberOf && OpensHost(c.names, site, r.slug, group)
  }

  ghost predicate FirstHand<L(!new)>(c: Call<L>, all: seq<Entry>, r: Entry)
  {
    Listed(r) && (IsGranted(c, r.id) || r.isPublic || IsOpenHost(c, all, r))
  }

  /** The row follows the row `host`: the one named in it, or else its parent. */
  ghost predicate FollowsRow(edges: seq<Edge>, r: Entry, host: Id)
  {
    && Listed(r) && r.inheritsHost && host != ""
    && if r.hostId != "" then host == r.hostId else ParentIs(edges, r.id, host)
  }

  /** Rows that come one after the other in the list, the first following a row in `start`, each other the one
      before. */
  ghost predicate IsChain(edges: seq<Edge>, all: seq<Entry>, start: set<Id>, ks: seq<nat>)
  {
    && ks != [] && (forall i :: 0 <= i < |ks| ==> ks[i] < |all|)
    && (forall i :: 0 < i < |ks| ==> ks[i - 1] < ks[i] && FollowsRow(edges, all[ks[i]], all[ks[i - 1]].id))
    && exists host :: host in start && FollowsRow(edges, all[ks[0]], host)
  }

  // ----- the view says the same -----

  lemma ListedIff(r: Entry)
    ensures Listed(r) <==> InCatalog(r)
  {
  }

  lemma GrantedIff<L(!new)>(c: Call<L>, inherited: map<Id, L>, id: Id)
    requires c.scale.Propagated(c.grants, Down(c.edges), inherited) && c.scale.Valid()
    ensures IsGranted(c, id) <==> id in inherited.Keys + c.nonInheriting.Keys
  {
    var k := c.scale.RankAt(inherited, id);
    assert c.scale.IsBest(c.grants, Down(c.edges), id, k);
    if a :| a in c.grants && Reach(Down(c.edges), a, id) && c.scale.rank(c.grants[a]) > 0 {
      assert c.scale.Grants(c.grants, Down(c.edges), a, id);
    }
    if k > 0 {
      var a :| c.scale.Grants(c.grants, Down(c.edges), a, id) && c.scale.rank(c.grants[a]) == k;
    }
  }

  lemma {:induction false} FirstParentIff(edges: seq<Edge>, n: nat, id: Id)
    requires n <= |edges|
    ensures match FirstParent(edges, n, id)
      case Some(p) => ParentIs(edges[..n], id, p) && forall q :: ParentIs(edges[..n], id, q) ==> q == p
      case None => forall k :: 0 <= k < n ==> edges[k].childId != id
    decreases n
  {
    if n > 0 {
      FirstParentIff(edges, n - 1, id);
      match FirstParent(edges, n - 1, id)
      case Some(p) =>
        var k :| IsFirstEdge(edges[..n - 1], id, k) && edges[..n - 1][k].parentId == p;
        assert forall j :: 0 <= j < n - 1 ==> edges[..n - 1][j] == edges[j] == edges[..n][j];
        FirstEdgeDecides(edges[..n], id, k);
      case None =>
        if edges[n - 1].childId == id {
          FirstEdgeDecides(edges[..n], id, n - 1);
        }
    }
  }

  lemma FirstEdgeDecides(edges: seq<Edge>, id: Id, k: nat)
    requires IsFirstEdge(edges, id, k)
    ensures ParentIs(edges, id, edges[k].parentId) && forall q :: ParentIs(edges, id, q) ==> q == edges[k].parentId
  {
  }

  lemma ParentOfIff(edges: seq<Edge>, parentOf: map<Id, Id>, id: Id, p: Id)
    requires IsParentOf(parentOf, edges, |edges|)
    ensures ParentIs(edges, id, p) <==> id in parentOf && parentOf[id] == p
  {
    FirstParentIff(edges, |edges|, id);
    assert edges[..|edges|] == edges;
    assert FirstParent(edges, |edges|, id) == if id in parentOf then Some(parentOf[id]) else None;
  }

  /** The parent row is the row next in line. */
  lemma ParentRowIff(all: seq<Entry>, edges: seq<Edge>, view: View, id: Id, p: Entry)
    requires DistinctIds(all) && IsById(view.byId, all) && IsParentOf(view.parentOf, edges, |edges|)
    ensures view.ParentRow(id) == Some(p) <==> p in all && ParentIs(edges, id, p.id)
  {
    ParentOfIff(edges, view.parentOf, id, p.id);
    if p in all {
      assert view.byId[p.id] in all && view.byId[p.id].id == p.id;
      SameEntry(all, view.byId[p.id], p);
    }
    if view.ParentRow(id) == Some(p) {
      assert view.byId[view.parentOf[id]] == p;
    }
  }

  lemma SameEntry(all: seq<Entry>, r: Entry, s: Entry)
    requires DistinctIds(all) && r in all && s in all && r.id == s.id
    ensures r == s
  {
    var i :| 0 <= i < |all| && all[i] == r;
    var j :| 0 <= j < |all| && all[j] == s;
  }

  lemma {:induction false} SiteHasLine(all: seq<Entry>, edges: seq<Edge>, view: View, r: Entry, n: nat)
    returns (path: seq<Entry>)
    requires DistinctIds(all) && IsById(view.byId, all) && IsParentOf(view.parentOf, edges, |edges|)
    requires view.SiteWithin(Some(r), n).Some?
    ensures IsLine(all, edges, path) && path[0] == r && |path| <= n && EndsAtSite(path)
    ensures view.SiteWithin(Some(r), n) == Some(path[|path| - 1].slug)
    decreases n
  {
    if r.kind == "site" {
      path := [r];
    } else {
      var up := view.ParentRow(r.id);
      assert view.SiteWithin(Some(r), n) == view.SiteWithin(up, n - 1);
      var above := SiteHasLine(all, edges, view, up.value, n - 1);
      ParentRowIff(all, edges, view, r.id, up.value);
      path := [r] + above;
      LineGrows(all, edges, r, above);
    }
  }

  lemma LineGrows(all: seq<Entry>, edges: seq<Edge>, r: Entry, above: seq<Entry>)
    requires IsLine(all, edges, above) && above[0] in all && ParentIs(edges, r.id, above[0].id)
    requires EndsAtSite(above) && r.kind != "site"
    ensures IsLine(all, edges, [r] + above) && EndsAtSite([r] + above)
  {
    var path := [r] + above;
    forall i | 0 < i < |path|
      ensures path[i] in all && ParentIs(edges, path[i - 1].id, path[i].id)
    {
      assert path[i] == above[i - 1] && (i > 1 ==> path[i - 1] == above[i - 2]);
    }
    forall i | 0 <= i < |path| - 1
      ensures path[i].kind != "site"
    {
      assert i > 0 ==> path[i] == above[i - 1];
    }
  }

  lemma {:induction false} LineHasSite(all: seq<Entry>, edges: seq<Edge>, view: View, path: seq<Entry>, n: nat)
    requires DistinctIds(all) && IsById(view.byId, all) && IsParentOf(view.parentOf, edges, |edges|)
    requires IsLine(all, edges, path) && |path| <= n && EndsAtSite(path)
    ensures view.SiteWithin(Some(path[0]), n) == Some(path[|path| - 1].slug)
    decreases |path|
  {
    if |path| > 1 {
      ParentRowIff(all, edges, view, path[0].id, path[1]);
      assert path[1] in all && ParentIs(edges, path[1 - 1].id, path[1].id);
      TailOfLine(all, edges, path);
      LineHasSite(all, edges, view, path[1..], n - 1);
    }
  }

  lemma TailOfLine(all: seq<Entry>, edges: seq<Edge>, path: seq<Entry>)
    requires IsLine(all, edges, path) && |path| > 1 && EndsAtSite(path)
    ensures IsLine(all, edges, path[1..]) && EndsAtSite(path[1..]) && path[0].kind != "site"
  {
    forall i | 0 < i < |path[1..]|
      ensures path[1..][i] in all && ParentIs(edges, path[1..][i - 1].id, path[1..][i].id)
    {
      assert path[i + 1] in all && ParentIs(edges, path[i + 1 - 1].id, path[i + 1].id);
    }
  }

  lemma SiteIff(all: seq<Entry>, edges: seq<Edge>, view: View, r: Entry, n: nat, site: Option<string>)
    requires DistinctIds(all) && IsById(view.byId, all) && IsParentOf(view.parentOf, edges, |edges|)
    ensures SiteIs(all, edges, r, n, site) <==> view.SiteWithin(Some(r), n) == site
  {
    forall path: seq<Entry> | IsLine(all, edges, path) && path[0] == r && |path| <= n && EndsAtSite(path)
      ensures view.SiteWithin(Some(r), n) == Some(path[|path| - 1].slug)
    {
      LineHasSite(all, edges, view, path, n);
    }
    if view.SiteWithin(Some(r), n).Some? {
      var path := SiteHasLine(all, edges, view, r, n);
    }
  }

  lemma BareNameIff(slug: string, name: string)
    ensures IsBareName(slug, name) <==> name == StripKind(slug)
  {
    PrefixIff("site_", slug, name);
    PrefixIff("host_", slug, name);
    PrefixIff("app_", slug, name);
    assert "site_"[0] == 's' && "host_"[0] == 'h' && "app_"[0] == 'a';
  }

  lemma PrefixIff(prefix: string, slug: string, name: string)
    ensures prefix <= slug <==> |slug| >= |prefix| && slug[..|prefix|] == prefix
    ensures slug == prefix + name <==> prefix <= slug && name == slug[|prefix|..]
    ensures prefix <= slug && prefix != "" ==> slug[0] == prefix[0]
  {
  }

  lemma LevelIff(names: GroupNames, memberOf: set<string>, site: Option<string>, slug: string)
    ensures names.HasHostLevel(memberOf, site, slug, "access")
       <==> exists group :: group in memberOf && OpensHost(names, site, slug, group)
  {
    BareNameIff(slug, StripKind(slug));
    forall name | IsBareName(slug, name)
      ensures name == StripKind(slug)
    {
      BareNameIff(slug, name);
    }
    if names.HasHostLevel(memberOf, site, slug, "access") {
      var group :| group in memberOf && group in {
        "god_admin", names.superAdmin(site), names.aggregate(site, "access"), names.aggregate(site, "admin"),
        names.own(site, StripKind(slug), "access"), names.own(site, StripKind(slug), "admin")};
      assert OpensHost(names, site, slug, group);
    }
  }

  /** `view` is what the call looks at, over these inherited grants. */
  ghost predicate Looks<L(!new)>(c: Call<L>, all: seq<Entry>, inherited: map<Id, L>, view: View)
  {
    && c.scale.Valid() && c.scale.Propagated(c.grants, Down(c.edges), inherited) && DistinctIds(all)
    && Projects(all, c.edges, inherited.Keys + c.nonInheriting.Keys, c.memberOf, c.names, c.enrolled, view)
  }

  lemma AgentIff<L(!new)>(c: Call<L>, all: seq<Entry>, inherited: map<Id, L>, view: View, r: Entry)
    requires Looks(c, all, inherited, view) && r.kind == "host"
    ensures view.HasLiveAgent(r) <==> AgentRuns(all, c.edges, c.enrolled, r)
  {
    if view.HasLiveAgent(r) {
      var e :| e in c.edges && e.parentId == r.id && e.childId in view.agentServices;
      var s :| s in all && IsAgentService(s, c.enrolled) && s.id == e.childId;
    }
    if AgentRuns(all, c.edges, c.enrolled, r) {
      var e, s :| e in c.edges && s in all && e.parentId == r.id && e.childId == s.id && IsAgentService(s, c.enrolled);
      assert s.id in view.agentServices;
    }
  }

  lemma OpenHostIff<L(!new)>(c: Call<L>, all: seq<Entry>, inherited: map<Id, L>, view: View, r: Entry)
    requires Looks(c, all, inherited, view)
    ensures IsOpenHost(c, all, r)
       <==> r.kind == "host" && view.HasLiveAgent(r) && r.sshCapable
            && c.names.HasHostLevel(c.memberOf, view.SiteWithin(Some(r), 32), r.slug, "access")
  {
    var site := view.SiteWithin(Some(r), 32);
    if r.kind == "host" {
      AgentIff(c, all, inherited, view, r);
    }
    LevelIff(c.names, c.memberOf, site, r.slug);
    forall x
      ensures SiteIs(all, c.edges, r, 32, x) <==> x == site
    {
      SiteIff(all, c.edges, view, r, 32, x);
    }
  }

  /** What the first pass admits. */
  lemma FirstHandIff<L(!new)>(c: Call<L>, all: seq<Entry>, inherited: map<Id, L>, view: View, r: Entry)
    requires Looks(c, all, inherited, view)
    ensures FirstHand(c, all, r) <==> view.Direct(r)
  {
    GrantedIff(c, inherited, r.id);
    OpenHostIff(c, all, inherited, view, r);
  }

  lemma FollowsIff(all: seq<Entry>, edges: seq<Edge>, view: View, r: Entry, host: Id)
    requires IsParentOf(view.parentOf, edges, |edges|)
    ensures FollowsRow(edges, r, host) <==> view.Follows(r) && view.HostOf(r) == host
  {
    ParentOfIff(edges, view.parentOf, r.id, host);
  }

  /** A chain that ends at row `k`. */
  ghost predicate Leads(edges: seq<Edge>, all: seq<Entry>, start: set<Id>, ks: seq<nat>, k: int)
  {
    IsChain(edges, all, start, ks) && ks[|ks| - 1] == k
  }

  lemma ChainGrows(edges: seq<Edge>, all: seq<Entry>, start: set<Id>, ks: seq<nat>, k: nat)
    requires IsChain(edges, all, start, ks) && ks[|ks| - 1] < k < |all|
    requires FollowsRow(edges, all[k], all[ks[|ks| - 1]].id)
    ensures Leads(edges, all, start, ks + [k], k)
  {
  }

  /** What the second pass has reached after `n` rows: the start, and the ends of chains among them. */
  lemma {:induction false} ReachedHasChain(all: seq<Entry>, edges: seq<Edge>, view: View, n: nat, start: set<Id>,
                                           id: Id)
    returns (ks: seq<nat>)
    requires IsParentOf(view.parentOf, edges, |edges|) && n <= |all|
    requires id in view.Reached(all, n, start) && id !in start
    ensures IsChain(edges, all, start, ks) && ks[|ks| - 1] < n && all[ks[|ks| - 1]].id == id
    decreases n
  {
    var before, r := view.Reached(all, n - 1, start), all[n - 1];
    if id in before {
      ks := ReachedHasChain(all, edges, view, n - 1, start, id);
    } else {
      var host := view.HostOf(r);
      FollowsIff(all, edges, view, r, host);
      if host in start {
        ks := [n - 1];
      } else {
        ks := ReachedHasChain(all, edges, view, n - 1, start, host);
        ChainGrows(edges, all, start, ks, n - 1);
        ks := ks + [n - 1];
      }
    }
  }

  lemma {:induction false} ChainIsReached(all: seq<Entry>, edges: seq<Edge>, view: View, start: set<Id>, ks: seq<nat>)
    requires IsParentOf(view.parentOf, edges, |edges|) && IsChain(edges, all, start, ks)
    ensures all[ks[|ks| - 1]].id in view.Reached(all, ks[|ks| - 1] + 1, start)
    decreases |ks|
  {
    var k := ks[|ks| - 1];
    var r := all[k];
    if |ks| == 1 {
      var host :| host in start && FollowsRow(edges, r, host);
      FollowsIff(all, edges, view, r, host);
      view.ReachedAdds(all, k, start);
    } else {
      var init := ks[..|ks| - 1];
      var j := init[|init| - 1];
      assert FollowsRow(edges, all[ks[|ks| - 1]], all[ks[|ks| - 1 - 1]].id);
      FollowsIff(all, edges, view, r, all[j].id);
      ChainIsReached(all, edges, view, start, init);
      view.ReachedGrows(all, j + 1, k, start);
    }
  }

  ghost function FirstHandIds<L(!new)>(c: Call<L>, all: seq<Entry>): set<Id>
  {
    set r | r in all && FirstHand(c, all, r) :: r.id
  }

  lemma StartIsFirstHand<L(!new)>(c: Call<L>, all: seq<Entry>, inherited: map<Id, L>, view: View)
    requires Looks(c, all, inherited, view)
    ensures FirstHandIds(c, all) == view.DirectIds(all)
  {
    forall r
      ensures FirstHand(c, all, r) <==> view.Direct(r)
    {
      FirstHandIff(c, all, inherited, view, r);
    }
  }

  /** The answer of a call: the rows that are accessible first hand, and those at the end of a chain of followers, each
      listed after the row it follows. No other row is returned. */
  lemma AnswerIs<L(!new)>(c: Call<L>, all: seq<Entry>, inherited: map<Id, L>, view: View, out: seq<Entry>)
    requires Looks(c, all, inherited, view) && out == Kept(all, view.Accessible(all))
    ensures forall r :: r in out ==> r in all
    ensures forall k :: 0 <= k < |all| ==>
      (all[k] in out <==>
         FirstHand(c, all, all[k]) || exists ks :: Leads(c.edges, all, FirstHandIds(c, all), ks, k))
  {
    StartIsFirstHand(c, all, inherited, view);
    forall k | 0 <= k < |all|
      ensures all[k] in out <==>
        FirstHand(c, all, all[k]) || exists ks :: Leads(c.edges, all, FirstHandIds(c, all), ks, k)
    {
      OneRowIs(c, all, inherited, view, k);
    }
  }

  lemma OneRowIs<L(!new)>(c: Call<L>, all: seq<Entry>, inherited: map<Id, L>, view: View, k: nat)
    requires Looks(c, all, inherited, view) && FirstHandIds(c, all) == view.DirectIds(all) && k < |all|
    ensures all[k].id in view.Accessible(all)
       <==> FirstHand(c, all, all[k]) || exists ks :: Leads(c.edges, all, FirstHandIds(c, all), ks, k)
  {
    if all[k].id in view.Accessible(all) {
      ReturnedHasReason(c, all, inherited, view, k);
    }
    if FirstHand(c, all, all[k]) {
      assert all[k].id in FirstHandIds(c, all);
      view.ReachedAdds(all, |all|, view.DirectIds(all));
    }
    if ks :| Leads(c.edges, all, view.DirectIds(all), ks, k) {
      ChainIsReached(all, c.edges, view, view.DirectIds(all), ks);
      view.ReachedGrows(all, k + 1, |all|, view.DirectIds(all));
    }
  }

  lemma ReturnedHasReason<L(!new)>(c: Call<L>, all: seq<Entry>, inherited: map<Id, L>, view: View, k: nat)
    requires Looks(c, all, inherited, view) && FirstHandIds(c, all) == view.DirectIds(all) && k < |all|
    requires all[k].id in view.Accessible(all)
    ensures FirstHand(c, all, all[k]) || exists ks :: Leads(c.edges, all, FirstHandIds(c, all), ks, k)
  {
    var start := view.DirectIds(all);
    if all[k].id in start {
      var r :| r in all && FirstHand(c, all, r) && r.id == all[k].id;
      SameEntry(all, r, all[k]);
    } else {
      var ks := ReachedHasChain(all, c.edges, view, |all|, start, all[k].id);
      SameIndex(all, ks[|ks| - 1], k);
      assert Leads(c.edges, all, start, ks, k);
    }
  }

  lemma SameIndex(all: seq<Entry>, i: nat, j: nat)
    requires DistinctIds(all) && i < |all| && j < |all| && all[i].id == all[j].id
    ensures i == j
  {
  }

  /** In short: what is never promoted discovery output or retired is returned to nobody, and what is granted or public,
      and listed, always is. */
  lemma WhatIsNeverReturned<L(!new)>(c: Call<L>, all: seq<Entry>, inherited: map<Id, L>, view: View, out: seq<Entry>)
    requires Looks(c, all, inherited, view) && out == Kept(all, view.Accessible(all))
    ensures forall r :: r in out ==> r.managed || (!r.archived && (r.sources == {} || "manual" in r.sources))
    ensures forall r :: r in all && Listed(r) && (IsGranted(c, r.id) || r.isPublic) ==> r in out
  {
    forall r | r in out
      ensures Listed(r)
    {
      view.OnlyCatalogRows(all, r.id);
      var l :| l in all && l.id == r.id && InCatalog(l);
      SameEntry(all, l, r);
    }
    forall r | r in all && Listed(r) && (IsGranted(c, r.id) || r.isPublic)
      ensures r in out
    {
      FirstHandIff(c, all, inherited, view, r);
      assert r.id in view.DirectIds(all);
      view.ReachedAdds(all, |all|, view.DirectIds(all));
    }
  }
}

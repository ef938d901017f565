/** Which resources a caller can reach: granted ones, managed hosts the group model opens, and the
    services that follow their host.
  */
module AccessProjection {
  import opened Directory
  import opened AccessInheritance

  datatype Entry = Entry(
    id: Id,
    kind: string,
    slug: string,
    isPublic: bool,
    managed: bool,
    archived: bool,
    sources: set<string>,
    subType: string,
    hostId: Id,
    sshCapable: bool,
    inheritsHost: bool)

  predicate InCatalog(r: Entry)
  {
    && !(r.archived && !r.managed)
    && !(r.sources != {} && "manual" !in r.sources && !r.managed)
  }

  ghost predicate DistinctIds(all: seq<Entry>)
  {
    forall i, j :: 0 <= i < j < |all| ==> all[i].id != all[j].id
  }

  // ----- utils/groups.js: the group model's own answer -----

  function StripKind(slug: string): string
  {
    if |slug| >= 5 && (slug[..5] == "site_" || slug[..5] == "host_") then slug[5..]
    else if |slug| >= 4 && slug[..4] == "app_" then slug[4..]
    else slug
  }

  /** `hasPermission(memberOf, { site, kind: 'host', slug }, 'access')`, for given group-name builders:
      the site's super-admin group, its host aggregates by level, and the host's own groups by level. */
  datatype GroupNames = GroupNames(
    superAdmin: Option<string> -> string,
    aggregate: (Option<string>, string) -> string,
    own: (Option<string>, string, string) -> string)
  {
    predicate HasHostLevel(memberOf: set<string>, site: Option<string>, slug: string, level: string)
    {
      || "god_admin" in memberOf
      || superAdmin(site) in memberOf
      || aggregate(site, level) in memberOf
      || own(site, StripKind(slug), level) in memberOf
      || (level == "access"
          && (aggregate(site, "admin") in memberOf || own(site, StripKind(slug), "admin") in memberOf))
    }
  }

  // ----- the rows the projection starts from -----

  /** Everything the first pass looks at besides the row itself. */
  datatype View = View(
    granted: set<Id>,
    memberOf: set<string>,
    names: GroupNames,
    edges: seq<Edge>,
    agentServices: set<Id>,
    byId: map<Id, Entry>,
    parentOf: map<Id, Id>)
  {
    predicate HasLiveAgent(r: Entry)
    {
      r.kind == "host" && exists e | e in edges :: e.parentId == r.id && e.childId in agentServices
    }

    /** The site above `id` along first parents, looking at no more than `hops` rows. */
    function SiteWithin(cur: Option<Entry>, hops: nat): Option<string>
      decreases hops
    {
      if hops == 0 || cur == None then None
      else if cur.value.kind == "site" then Some(cur.value.slug)
      else SiteWithin(ParentRow(cur.value.id), hops - 1)
    }

    /** The row `n` first parents above, if there is one. */
    function Above(cur: Option<Entry>, n: nat): Option<Entry>
      decreases n
    {
      if n == 0 || cur == None then cur else Above(ParentRow(cur.value.id), n - 1)
    }

    predicate SiteAt(r: Entry, n: nat)
    {
      var up := Above(Some(r), n);
      up.Some? && up.value.kind == "site"
    }

    /** `n` first parents above `r` is its nearest site, and it is called `slug`. */
    predicate NearestSite(r: Entry, n: nat, slug: string)
    {
      SiteAt(r, n) && Above(Some(r), n).value.slug == slug && forall m: nat :: m < n ==> !SiteAt(r, m)
    }

    /** The site is the nearest one up to 31 first parents above the row, the row itself included. */
    lemma {:induction false} SiteWithinIsNearest(r: Entry, hops: nat)
      ensures var site := SiteWithin(Some(r), hops);
        && (site.Some? ==> exists n: nat :: n < hops && NearestSite(r, n, site.value))
        && (site == None ==> forall n: nat :: n < hops ==> !SiteAt(r, n))
      decreases hops
    {
      if hops > 0 {
        AboveParent(r);
        var up := ParentRow(r.id);
        assert r.kind != "site" ==> SiteWithin(Some(r), hops) == SiteWithin(up, hops - 1);
        if r.kind == "site" {
          assert NearestSite(r, 0, r.slug) && SiteWithin(Some(r), hops) == Some(r.slug);
        } else if up.Some? {
          SiteWithinIsNearest(up.value, hops - 1);
          match SiteWithin(up, hops - 1)
          case Some(slug) =>
            var n: nat :| n < hops - 1 && NearestSite(up.value, n, slug);
            NextIsNearest(r, n, slug);
          case None =>
        } else {
          assert SiteWithin(up, hops - 1) == None;
        }
      }
    }

    lemma AboveParent(r: Entry)
      ensures SiteAt(r, 0) <==> r.kind == "site"
      ensures forall n: nat :: n > 0 ==>
        (SiteAt(r, n) <==> ParentRow(r.id).Some? && SiteAt(ParentRow(r.id).value, n - 1))
      ensures forall n: nat :: n > 0 ==> Above(Some(r), n) == Above(ParentRow(r.id), n - 1)
    {
      forall n: nat | n > 0
        ensures Above(Some(r), n) == Above(ParentRow(r.id), n - 1)
        ensures ParentRow(r.id) == None ==> Above(Some(r), n) == None
      {
        var up := ParentRow(r.id);
        if up == None {
          assert Above(up, n - 1) == None;
        }
      }
    }

    lemma NextIsNearest(r: Entry, n: nat, slug: string)
      requires r.kind != "site" && ParentRow(r.id).Some? && NearestSite(ParentRow(r.id).value, n, slug)
      ensures NearestSite(r, n + 1, slug)
    {
      AboveParent(r);
    }

    function ParentRow(id: Id): Option<Entry>
    {
      if id in parentOf && parentOf[id] in byId then Some(byId[parentOf[id]]) else None
    }

    predicate Direct(r: Entry)
    {
      && InCatalog(r)
      && (|| r.id in granted || r.isPublic
          || (r.kind == "host" && HasLiveAgent(r) && r.sshCapable
              && names.HasHostLevel(memberOf, SiteWithin(Some(r), 32), r.slug, "access")))
    }

    predicate Follows(r: Entry)
    {
      InCatalog(r) && r.inheritsHost && HostOf(r) != ""
    }

    function HostOf(r: Entry): Id
    {
      if r.hostId != "" then r.hostId else if r.id in parentOf then parentOf[r.id] else ""
    }

    // ----- the two passes -----

    ghost function DirectIds(all: seq<Entry>): set<Id>
    {
      set r | r in all && Direct(r) :: r.id
    }

    /** What the second pass has reached after the first `n` rows. */
    function Reached(all: seq<Entry>, n: nat, start: set<Id>): set<Id>
      requires n <= |all|
    {
      if n == 0 then start
      else
        var before := Reached(all, n - 1, start);
        var r := all[n - 1];
        if Follows(r) && HostOf(r) in before then before + {r.id} else before
    }

    ghost function Accessible(all: seq<Entry>): set<Id>
    {
      Reached(all, |all|, DirectIds(all))
    }

    lemma {:induction false} ReachedAdds(all: seq<Entry>, n: nat, start: set<Id>)
      requires n <= |all|
      ensures start <= Reached(all, n, start)
      ensures forall id :: id in Reached(all, n, start) && id !in start ==>
        exists k :: 0 <= k < n && all[k].id == id && Follows(all[k])
      decreases n
    {
      if n > 0 {
        ReachedAdds(all, n - 1, start);
        var before := Reached(all, n - 1, start);
        forall id | id in Reached(all, n, start) && id !in start
          ensures exists k :: 0 <= k < n && all[k].id == id && Follows(all[k])
        {
          if id in before {
            var k :| 0 <= k < n - 1 && all[k].id == id && Follows(all[k]);
          } else {
            assert all[n - 1].id == id;
          }
        }
      }
    }

    /** Every id reached belongs to a catalog row of the list. */
    lemma OnlyCatalogRows(all: seq<Entry>, id: Id)
      requires id in Accessible(all)
      ensures exists r :: r in all && r.id == id && InCatalog(r)
    {
      ReachedAdds(all, |all|, DirectIds(all));
      if id !in DirectIds(all) {
        var k :| 0 <= k < |all| && all[k].id == id && Follows(all[k]);
        assert all[k] in all;
      }
    }

    // ----- does the order of the list matter? -----

    /** A row that could only be reached through a row that is itself only reached through its host. */
    ghost predicate SecondHand(all: seq<Entry>, r: Entry, h: Entry)
    {
      && r in all && h in all && Follows(r) && Follows(h)
      && r.id !in DirectIds(all) && h.id !in DirectIds(all)
      && HostOf(r) == h.id && HostOf(h) in DirectIds(all)
    }

    ghost function OneStep(all: seq<Entry>): set<Id>
    {
      DirectIds(all) + set r | r in all && Follows(r) && HostOf(r) in DirectIds(all) :: r.id
    }

    lemma {:induction false} ReachedIsOneStep(all: seq<Entry>, n: nat)
      requires n <= |all| && !exists r, h :: SecondHand(all, r, h)
      ensures Reached(all, n, DirectIds(all)) <= OneStep(all)
      decreases n
    {
      if n > 0 {
        ReachedIsOneStep(all, n - 1);
        OneMore(all, all[n - 1], Reached(all, n - 1, DirectIds(all)));
      }
    }

    /** A row whose host was reachable from the start is reached when its turn comes. */
    lemma {:induction false} ReachedCatches(all: seq<Entry>, n: nat, k: nat, start: set<Id>)
      requires k < n <= |all| && Follows(all[k]) && HostOf(all[k]) in start
      ensures all[k].id in Reached(all, n, start)
      decreases n
    {
      if k < n - 1 {
        ReachedCatches(all, n - 1, k, start);
      } else {
        ReachedAdds(all, n - 1, start);
      }
    }

    lemma OneMore(all: seq<Entry>, r: Entry, before: set<Id>)
      requires r in all && before <= OneStep(all) && !exists r, h :: SecondHand(all, r, h)
      ensures Follows(r) && HostOf(r) in before ==> r.id in OneStep(all)
    {
      if Follows(r) && HostOf(r) in before && HostOf(r) !in DirectIds(all) && r.id !in DirectIds(all) {
        var h :| h in all && Follows(h) && HostOf(h) in DirectIds(all) && h.id == HostOf(r);
        assert SecondHand(all, r, h);
      }
    }

    lemma NoSecondHandIsOneStep(all: seq<Entry>)
      requires !exists r, h :: SecondHand(all, r, h)
      ensures Accessible(all) == OneStep(all)
    {
      ReachedIsOneStep(all, |all|);
      ReachedAdds(all, |all|, DirectIds(all));
      forall id | id in OneStep(all)
        ensures id in Accessible(all)
      {
        if id !in DirectIds(all) {
          var r :| r in all && Follows(r) && HostOf(r) in DirectIds(all) && r.id == id;
          var k :| 0 <= k < |all| && all[k] == r;
          ReachedCatches(all, |all|, k, DirectIds(all));
        }
      }
    }

    lemma {:induction false} ReachedGrows(all: seq<Entry>, m: nat, n: nat, start: set<Id>)
      requires m <= n <= |all|
      ensures Reached(all, m, start) <= Reached(all, n, start)
      decreases n - m
    {
      if m < n {
        ReachedGrows(all, m, n - 1, start);
      }
    }

    /** A row passed over when it comes first is not reached later. */
    lemma {:induction false} PassedOver(all: seq<Entry>, n: nat, start: set<Id>)
      requires 0 < n <= |all| && DistinctIds(all) && all[0].id !in start && HostOf(all[0]) !in start
      ensures all[0].id !in Reached(all, n, start)
      decreases n
    {
      if n > 1 {
        PassedOver(all, n - 1, start);
      } else {
        assert Reached(all, 0, start) == start;
      }
    }

    lemma SameRows(p: seq<Entry>, q: seq<Entry>)
      requires multiset(p) == multiset(q)
      ensures DirectIds(p) == DirectIds(q) && OneStep(p) == OneStep(q)
      ensures forall r, h :: SecondHand(p, r, h) <==> SecondHand(q, r, h)
    {
      forall r
        ensures r in p <==> r in q
      {
        assert r in p <==> r in multiset(p);
        assert r in q <==> r in multiset(q);
      }
    }

    /** The answer is the same for every order of the list exactly when no row is only reachable second hand. */
    lemma OrderMattersIff(all: seq<Entry>)
      requires DistinctIds(all)
      ensures (forall p, q :: multiset(p) == multiset(q) == multiset(all) ==> Accessible(p) == Accessible(q))
         <==> !exists r, h :: SecondHand(all, r, h)
    {
      if r, h :| SecondHand(all, r, h) {
        var p, q := TwoOrders(all, r, h);
      } else {
        forall p, q | multiset(p) == multiset(q) == multiset(all)
          ensures Accessible(p) == Accessible(q)
        {
          SameRows(p, all);
          SameRows(q, all);
          NoSecondHandIsOneStep(p);
          NoSecondHandIsOneStep(q);
        }
      }
    }

    lemma TwoOrders(all: seq<Entry>, r: Entry, h: Entry) returns (p: seq<Entry>, q: seq<Entry>)
      requires DistinctIds(all) && SecondHand(all, r, h)
      ensures multiset(p) == multiset(q) == multiset(all)
      ensures r.id !in Accessible(p) && r.id in Accessible(q)
    {
      var i :| 0 <= i < |all| && all[i] == r;
      p := ToFront(all, i);
      SameRows(p, all);
      PassedOver(p, |p|, DirectIds(p));
      q := HostFirst(p, r, h);
    }

    lemma HostFirst(p: seq<Entry>, r: Entry, h: Entry) returns (q: seq<Entry>)
      requires DistinctIds(p) && SecondHand(p, r, h) && p[0] == r
      ensures multiset(q) == multiset(p) && r.id in Accessible(q)
    {
      var j :| 0 <= j < |p| && p[j] == h;
      q := ToFront(p, j);
      SameRows(q, p);
      var start := DirectIds(q);
      assert q[0] == h && q[1] == r;
      assert h.id in Reached(q, 1, start);
      assert r.id in Reached(q, 2, start);
      ReachedGrows(q, 2, |q|, start);
    }

    lemma ToFront(s: seq<Entry>, i: nat) returns (t: seq<Entry>)
      requires i < |s| && DistinctIds(s)
      ensures multiset(t) == multiset(s) && DistinctIds(t) && |t| == |s| && t[0] == s[i]
      ensures i > 0 ==> t[1] == s[0]
    {
      t := [s[i]] + s[..i] + s[i + 1..];
      assert s == s[..i] + [s[i]] + s[i + 1..];
      MovedStayDistinct(s, i, t);
    }

    lemma MovedStayDistinct(s: seq<Entry>, i: nat, t: seq<Entry>)
      requires i < |s| && DistinctIds(s) && t == [s[i]] + s[..i] + s[i + 1..]
      ensures DistinctIds(t)
    {
      forall a, b | 0 <= a < b < |t|
        ensures t[a].id != t[b].id
      {
        assert t[a] == s[if a == 0 then i else if a <= i then a - 1 else a];
        assert t[b] == s[if b <= i then b - 1 else b];
      }
    }

    // ----- more grants, more access -----

    /** Nothing that was reachable becomes unreachable when grants or memberships are added. */
    lemma {:induction false} ReachedMono(all: seq<Entry>, n: nat, start: set<Id>, start': set<Id>)
      requires n <= |all| && start <= start'
      ensures Reached(all, n, start) <= Reached(all, n, start')
      decreases n
    {
      if n > 0 {
        ReachedMono(all, n - 1, start, start');
      }
    }

    lemma AccessIsMonotone(all: seq<Entry>, granted': set<Id>, memberOf': set<string>)
      requires granted <= granted' && memberOf <= memberOf'
      ensures Accessible(all) <= this.(granted := granted', memberOf := memberOf').Accessible(all)
    {
      var view' := this.(granted := granted', memberOf := memberOf');
      forall r | r in all && Direct(r)
        ensures view'.Direct(r)
      {
        SameSite(granted', memberOf', Some(r), 32);
      }
      assert DirectIds(all) <= view'.DirectIds(all);
      ReachedMono(all, |all|, DirectIds(all), view'.DirectIds(all));
      SameSecondPass(granted', memberOf', all, |all|, view'.DirectIds(all));
    }

    lemma {:induction false} SameSite(granted': set<Id>, memberOf': set<string>, cur: Option<Entry>, hops: nat)
      ensures this.(granted := granted', memberOf := memberOf').SiteWithin(cur, hops) == SiteWithin(cur, hops)
      decreases hops
    {
      if hops > 0 && cur.Some? && cur.value.kind != "site" {
        SameSite(granted', memberOf', ParentRow(cur.value.id), hops - 1);
      }
    }

    lemma {:induction false} SameSecondPass(granted': set<Id>, memberOf': set<string>, all: seq<Entry>, n: nat,
                                            start: set<Id>)
      requires n <= |all|
      ensures this.(granted := granted', memberOf := memberOf').Reached(all, n, start) == Reached(all, n, start)
      decreases n
    {
      if n > 0 {
        SameSecondPass(granted', memberOf', all, n - 1, start);
      }
    }
  }

  /** Stronger grants reach no fewer rows: raising ranks or adding rows keeps everything inherited. */
  lemma StrongerGrantsReachMore<L(!new)>(scale: Scale<L>, r: set<(Id, Id)>, direct: map<Id, L>, direct': map<Id, L>,
                                         inherited: map<Id, L>, inherited': map<Id, L>)
    requires scale.Propagated(direct, r, inherited) && scale.Propagated(direct', r, inherited')
    requires forall a :: a in direct ==> a in direct' && scale.rank(direct[a]) <= scale.rank(direct'[a])
    ensures inherited.Keys <= inherited'.Keys
  {
    forall id | id in inherited
      ensures id in inherited'
    {
      if id !in direct {
        var k := scale.RankAt(inherited, id);
        assert scale.IsBest(direct, r, id, k) && scale.IsBest(direct', r, id, scale.RankAt(inherited', id));
        var a :| scale.Grants(direct, r, a, id) && scale.rank(direct[a]) == k;
        assert scale.Grants(direct', r, a, id);
      }
    }
  }

  // ----- the projection as the loops it is -----

  ghost predicate IsById(byId: map<Id, Entry>, all: seq<Entry>)
  {
    && (forall r :: r in all ==> r.id in byId)
    && (forall id :: id in byId ==> byId[id] in all && byId[id].id == id)
  }

  /** The parent named by the first edge above each row. */
  function FirstParent(edges: seq<Edge>, n: nat, id: Id): Option<Id>
    requires n <= |edges|
  {
    if n == 0 then None
    else
      match FirstParent(edges, n - 1, id)
      case Some(p) => Some(p)
      case None => if edges[n - 1].childId == id then Some(edges[n - 1].parentId) else None
  }

  ghost predicate IsParentOf(parentOf: map<Id, Id>, edges: seq<Edge>, n: nat)
    requires n <= |edges|
  {
    forall id :: FirstParent(edges, n, id) == if id in parentOf then Some(parentOf[id]) else None
  }

  method SiteSlugOf(view: View, r: Entry) returns (site: Option<string>)
    ensures site == view.SiteWithin(Some(r), 32)
    ensures site.Some? <==> exists n: nat :: n < 32 && view.SiteAt(r, n)
    ensures site.Some? ==> exists n: nat :: n < 32 && view.NearestSite(r, n, site.value)
  {
    view.SiteWithinIsNearest(r, 32);
    var cur := Some(r);
    var hops := 0;
    while cur.Some? && hops < 32
      invariant hops <= 32
      invariant view.SiteWithin(Some(r), 32) == view.SiteWithin(cur, 32 - hops)
      decreases 32 - hops
    {
      if cur.value.kind == "site" { return Some(cur.value.slug); }
      cur := view.ParentRow(cur.value.id);
      hops := hops + 1;
    }
    return None;
  }

  method AccessibleResources<L(!new)>(scale: Scale<L>, all: seq<Entry>, edges: seq<Edge>, grants: map<Id, L>,
                                      nonInheriting: map<Id, L>, memberOf: set<string>, names: GroupNames,
                                      enrolled: set<Id>)
    returns (out: seq<Entry>, view: View, ghost inherited: map<Id, L>)
    requires scale.Valid()
    ensures scale.Propagated(grants, Down(edges), inherited)
    ensures Projects(all, edges, inherited.Keys + nonInheriting.Keys, memberOf, names, enrolled, view)
    ensures out == Kept(all, view.Accessible(all))
    ensures forall r :: r in out ==> exists c :: c in all && c.id == r.id && InCatalog(c)
  {
    var effective;
    effective, inherited := EffectiveGrants(scale, grants, edges, nonInheriting);
    view := BuildView(all, edges, effective.Keys, memberOf, names, enrolled);
    var reachable := FirstPass(view, all);
    for n := 0 to |all|
      invariant reachable == view.Reached(all, n, view.DirectIds(all))
    {
      var r := all[n];
      if r.id in reachable || !InCatalog(r) || !r.inheritsHost { continue; }
      var hostId := view.HostOf(r);
      if hostId != "" && hostId in reachable { reachable := reachable + {r.id}; }
    }
    out := KeepReachable(all, reachable);
    forall r | r in out
      ensures exists c :: c in all && c.id == r.id && InCatalog(c)
    {
      view.OnlyCatalogRows(all, r.id);
    }
  }

  predicate IsAgentService(r: Entry, enrolled: set<Id>)
  {
    r.kind == "service" && r.subType == "theta-agent" && r.id in enrolled
  }

  ghost function AgentServices(all: seq<Entry>, enrolled: set<Id>): set<Id>
  {
    set r | r in all && IsAgentService(r, enrolled) :: r.id
  }

  /** `view` is what the projection looks at for these inputs. */
  ghost predicate Projects(all: seq<Entry>, edges: seq<Edge>, granted: set<Id>, memberOf: set<string>,
                           names: GroupNames, enrolled: set<Id>, view: View)
  {
    && view.granted == granted && view.memberOf == memberOf && view.names == names && view.edges == edges
    && view.agentServices == AgentServices(all, enrolled)
    && IsById(view.byId, all) && IsParentOf(view.parentOf, edges, |edges|)
  }

  method BuildView(all: seq<Entry>, edges: seq<Edge>, granted: set<Id>, memberOf: set<string>, names: GroupNames,
                   enrolled: set<Id>)
    returns (view: View)
    ensures Projects(all, edges, granted, memberOf, names, enrolled, view)
  {
    var agentServices: set<Id>, byId: map<Id, Entry>, parentOf: map<Id, Id> := {}, map[], map[];
    for n := 0 to |all|
      invariant agentServices == AgentServices(all[..n], enrolled)
      invariant IsById(byId, all[..n])
    {
      var r := all[n];
      assert all[..n + 1] == all[..n] + [r];
      if IsAgentService(r, enrolled) { agentServices := agentServices + {r.id}; }
      byId := byId[r.id := r];
    }
    assert all[..|all|] == all;
    for n := 0 to |edges|
      invariant IsParentOf(parentOf, edges, n)
    {
      var e := edges[n];
      if e.childId !in parentOf { parentOf := parentOf[e.childId := e.parentId]; }
    }
    view := View(granted, memberOf, names, edges, agentServices, byId, parentOf);
  }

  method FirstPass(view: View, all: seq<Entry>) returns (reachable: set<Id>)
    ensures reachable == view.DirectIds(all)
  {
    reachable := {};
    for n := 0 to |all|
      invariant reachable == view.DirectIds(all[..n])
    {
      var r := all[n];
      assert all[..n + 1] == all[..n] + [r];
      if !InCatalog(r) { continue; }
      if r.id in view.granted || r.isPublic { reachable := reachable + {r.id}; continue; }
      if r.kind != "host" || !view.HasLiveAgent(r) || !r.sshCapable { continue; }
      var site := SiteSlugOf(view, r);
      if view.names.HasHostLevel(view.memberOf, site, r.slug, "access") { reachable := reachable + {r.id}; }
    }
    assert all[..|all|] == all;
  }

  // ----- two calls compared -----

  /** For rows told apart by id, the inputs determine the view, in whatever order the rows are listed. */
  lemma SameRowsSameView(p: seq<Entry>, q: seq<Entry>, edges: seq<Edge>, granted: set<Id>, memberOf: set<string>,
                         names: GroupNames, enrolled: set<Id>, view: View, view': View)
    requires multiset(p) == multiset(q) && DistinctIds(p)
    requires Projects(p, edges, granted, memberOf, names, enrolled, view)
    requires Projects(q, edges, granted, memberOf, names, enrolled, view')
    ensures view == view'
  {
    SameMembers(p, q);
    SameById(p, q, view.byId, view'.byId);
    SameParents(edges, view.parentOf, view'.parentOf);
  }

  lemma SameById(p: seq<Entry>, q: seq<Entry>, m: map<Id, Entry>, m': map<Id, Entry>)
    requires DistinctIds(p) && (forall r :: r in p <==> r in q) && IsById(m, p) && IsById(m', q)
    ensures m == m'
  {
    forall id | id in m
      ensures id in m' && m'[id] == m[id]
    {
      assert m[id] in q;
    }
    forall id | id in m'
      ensures id in m
    {
      assert m'[id] in p;
    }
  }

  lemma SameMembers(p: seq<Entry>, q: seq<Entry>)
    requires multiset(p) == multiset(q)
    ensures forall r :: r in p <==> r in q
  {
    forall r
      ensures r in p <==> r in q
    {
      assert r in p <==> r in multiset(p);
      assert r in q <==> r in multiset(q);
    }
  }

  lemma SameParents(edges: seq<Edge>, m: map<Id, Id>, m': map<Id, Id>)
    requires IsParentOf(m, edges, |edges|) && IsParentOf(m', edges, |edges|)
    ensures m == m'
  {
    forall id
      ensures id in m <==> id in m'
      ensures id in m ==> m[id] == m'[id]
    {
      assert FirstParent(edges, |edges|, id) == if id in m then Some(m[id]) else None;
    }
  }

  /** `v` is what the projection looks at when the rows are listed as `p`. */
  ghost predicate Permuted(all: seq<Entry>, p: seq<Entry>, edges: seq<Edge>, granted: set<Id>, memberOf: set<string>,
                           names: GroupNames, enrolled: set<Id>, v: View)
  {
    multiset(p) == multiset(all) && Projects(p, edges, granted, memberOf, names, enrolled, v)
  }

  /** Two calls that differ in the order of the list alone answer with the same rows, whatever the two orders are,
      exactly when no row is reachable only second hand. */
  lemma CallOrderMattersIff(all: seq<Entry>, edges: seq<Edge>, granted: set<Id>, memberOf: set<string>,
                            names: GroupNames, enrolled: set<Id>, view: View)
    requires DistinctIds(all) && Projects(all, edges, granted, memberOf, names, enrolled, view)
    ensures (forall p, q, v, w ::
               Permuted(all, p, edges, granted, memberOf, names, enrolled, v)
               && Permuted(all, q, edges, granted, memberOf, names, enrolled, w) ==>
                 SameAnswer(Kept(p, v.Accessible(p)), Kept(q, w.Accessible(q))))
       <==> !exists r, h :: view.SecondHand(all, r, h)
  {
    if r, h :| view.SecondHand(all, r, h) {
      var p, q := OrdersDiffer(all, view, r, h);
      SamePermuted(all, p, edges, granted, memberOf, names, enrolled, view);
      SamePermuted(all, q, edges, granted, memberOf, names, enrolled, view);
    } else {
      forall p, q, v, w | Permuted(all, p, edges, granted, memberOf, names, enrolled, v)
          && Permuted(all, q, edges, granted, memberOf, names, enrolled, w)
        ensures SameAnswer(Kept(p, v.Accessible(p)), Kept(q, w.Accessible(q)))
      {
        SameRowsSameView(all, p, edges, granted, memberOf, names, enrolled, view, v);
        SameRowsSameView(all, q, edges, granted, memberOf, names, enrolled, view, w);
        OrdersAgree(all, view, p, q);
      }
    }
  }

  lemma OrdersDiffer(all: seq<Entry>, view: View, r: Entry, h: Entry) returns (p: seq<Entry>, q: seq<Entry>)
    requires DistinctIds(all) && view.SecondHand(all, r, h)
    ensures multiset(p) == multiset(q) == multiset(all)
    ensures !SameAnswer(Kept(p, view.Accessible(p)), Kept(q, view.Accessible(q)))
  {
    p, q := view.TwoOrders(all, r, h);
    SameMembers(q, all);
    assert r in Kept(q, view.Accessible(q)) && r !in Kept(p, view.Accessible(p));
  }

  lemma OrdersAgree(all: seq<Entry>, view: View, p: seq<Entry>, q: seq<Entry>)
    requires DistinctIds(all) && multiset(p) == multiset(q) == multiset(all)
    requires !exists r, h :: view.SecondHand(all, r, h)
    ensures SameAnswer(Kept(p, view.Accessible(p)), Kept(q, view.Accessible(q)))
  {
    view.OrderMattersIff(all);
    SameMembers(p, q);
  }

  lemma SamePermuted(all: seq<Entry>, p: seq<Entry>, edges: seq<Edge>, granted: set<Id>, memberOf: set<string>,
                     names: GroupNames, enrolled: set<Id>, view: View)
    requires multiset(p) == multiset(all) && Projects(all, edges, granted, memberOf, names, enrolled, view)
    ensures Projects(p, edges, granted, memberOf, names, enrolled, view)
  {
    SameMembers(p, all);
  }

  ghost predicate SameAnswer(a: seq<Entry>, b: seq<Entry>) { forall r :: r in a <==> r in b }

  /** A call with stronger or more grants and more memberships answers with no fewer rows. */
  lemma StrongerCallReachesMore<L(!new)>(scale: Scale<L>, all: seq<Entry>, edges: seq<Edge>, grants: map<Id, L>,
                                         grants': map<Id, L>,
                                         extra: set<Id>, extra': set<Id>, memberOf: set<string>, memberOf': set<string>,
                                         names: GroupNames, enrolled: set<Id>, inherited: map<Id, L>,
                                         inherited': map<Id, L>, view: View, view': View)
    requires DistinctIds(all)
    requires scale.Propagated(grants, Down(edges), inherited) && scale.Propagated(grants', Down(edges), inherited')
    requires forall a :: a in grants ==> a in grants' && scale.rank(grants[a]) <= scale.rank(grants'[a])
    requires extra <= extra' && memberOf <= memberOf'
    requires Projects(all, edges, inherited.Keys + extra, memberOf, names, enrolled, view)
    requires Projects(all, edges, inherited'.Keys + extra', memberOf', names, enrolled, view')
    ensures forall r :: r in Kept(all, view.Accessible(all)) ==> r in Kept(all, view'.Accessible(all))
  {
    StrongerGrantsReachMore(scale, Down(edges), grants, grants', inherited, inherited');
    var granted', more := inherited'.Keys + extra', view.(granted := inherited'.Keys + extra', memberOf := memberOf');
    SameRowsSameView(all, all, edges, granted', memberOf', names, enrolled, more, view');
    view.AccessIsMonotone(all, granted', memberOf');
  }

  /** The rows that were reached, in list order. */
  function Kept(all: seq<Entry>, reachable: set<Id>): seq<Entry> { Keeping(all, (r: Entry) => r.id in reachable) }

  method KeepReachable(all: seq<Entry>, reachable: set<Id>) returns (out: seq<Entry>)
    ensures out == Kept(all, reachable)
  {
    out := [];
    for n := 0 to |all|
      invariant out == Kept(all[..n], reachable)
    {
      assert all[..n + 1][..n] == all[..n];
      if all[n].id in reachable { out := out + [all[n]]; }
    }
    assert all[..|all|] == all;
  }
}

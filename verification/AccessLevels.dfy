/** The access levels, and how the grants of several groups are put together: merged into one map for a
    caller's own view, or kept apart per group for a host's login list.
  */
module AccessLevels {
  import opened Graph
  import opened Directory
  import opened AccessInheritance

  /** A stored level; a row may carry none. */
  type Level = Option<string>

  const LEVEL_RANK: map<string, nat> := map["viewer" := 1, "member" := 1, "access" := 2, "admin" := 3, "owner" := 4]

  /** The rank that means "may log in to the machine". */
  const LOGIN_RANK: nat := 2

  function LowerChar(c: char): char
  {
    if 'A' <= c <= 'Z' then c - 'A' + 'a' else c
  }

  function Lower(s: string): string
  {
    seq(|s|, k requires 0 <= k < |s| => LowerChar(s[k]))
  }

  /** Equal but for the case of ASCII letters. */
  ghost predicate SameLetters(a: string, b: string)
  {
    |a| == |b| && forall k :: 0 <= k < |a| ==>
      a[k] == b[k] || (a[k] as int - b[k] as int == 32 && 65 <= b[k] as int <= 90)
      || (b[k] as int - a[k] as int == 32 && 65 <= a[k] as int <= 90)
  }

  lemma SameLettersIff(a: string, b: string)
    ensures SameLetters(a, b) <==> Lower(a) == Lower(b)
  {
    if Lower(a) == Lower(b) {
      forall k | 0 <= k < |a|
        ensures LowerChar(a[k]) == LowerChar(b[k])
      {
        assert Lower(a)[k] == Lower(b)[k];
      }
    }
  }

  function RankOf(level: Level): nat
  {
    if level.Some? && Lower(level.value) in LEVEL_RANK then LEVEL_RANK[Lower(level.value)] else 0
  }

  function AccessScale(): Scale<Level>
  {
    Scale(RankOf, None, 4)
  }

  lemma AccessScaleIsValid()
    ensures AccessScale().Valid()
  {
    assert forall s | s in LEVEL_RANK :: LEVEL_RANK[s] <= 4;
  }

  /** A grant: the members of a group hold a level on a resource. */
  datatype Link = Link(resourceId: Id, groupCn: string, level: Level)

  predicate EndsWith(s: string, suffix: string)
  {
    |suffix| <= |s| && s[|s| - |suffix|..] == suffix
  }

  /** Roster groups, which everyone at a site is in; they grant nothing below the row they are linked to. */
  predicate IsMetaGroup(cn: string)
  {
    cn == "everyone" || EndsWith(cn, "_everyone")
  }

  /** A row stored without a level counts as `access` in a caller's own view. */
  function LevelOrAccess(level: Level): Level
  {
    if level == None || level == Some("") then Some("access") else level
  }

  /** Both columns are required ones. */
  predicate NoBlanks(links: seq<Link>)
  {
    forall i :: 0 <= i < |links| ==> links[i].groupCn != "" && links[i].resourceId != ""
  }

  /** The rows that name both a group and a resource. */
  function Complete(links: seq<Link>): seq<Link>
  {
    Keeping(links, (l: Link) => l.groupCn != "" && l.resourceId != "")
  }

  // ----- one caller: the grants of all groups held, merged -----

  predicate Counts(l: Link, held: set<string>, meta: bool)
  {
    l.groupCn in held && IsMetaGroup(l.groupCn) == meta
  }

  /** `m` ranks, for exactly the resources the counting rows among the first `n` name, as the strongest of them. */
  ghost predicate IsMerge(scale: Scale<Level>, links: seq<Link>, n: nat, held: set<string>, meta: bool,
                          m: map<Id, Level>)
    requires n <= |links|
  {
    && (forall i :: 0 <= i < n && Counts(links[i], held, meta) ==>
          links[i].resourceId in m && scale.rank(LevelOrAccess(links[i].level)) <= scale.rank(m[links[i].resourceId]))
    && (forall id {:trigger MergedFrom(scale, links, n, held, meta, id, m[id])} ::
          id in m ==> MergedFrom(scale, links, n, held, meta, id, m[id]))
  }

  /** Some counting row names `id` with a level of the same rank. */
  ghost predicate MergedFrom(scale: Scale<Level>, links: seq<Link>, n: nat, held: set<string>, meta: bool, id: Id,
                             l: Level)
    requires n <= |links|
  {
    exists i :: 0 <= i < n && Counts(links[i], held, meta) && links[i].resourceId == id
      && scale.rank(LevelOrAccess(links[i].level)) == scale.rank(l)
  }

  lemma MergeStep(scale: Scale<Level>, links: seq<Link>, n: nat, held: set<string>, meta: bool, m: map<Id, Level>)
    requires scale.Valid() && n < |links| && IsMerge(scale, links, n, held, meta, m)
    ensures var rg := links[n];
      IsMerge(scale, links, n + 1, held, meta,
              if Counts(rg, held, meta)
              then m[rg.resourceId := scale.Strongest(scale.At(m, rg.resourceId), LevelOrAccess(rg.level))] else m)
  {
    var rg := links[n];
    var m' := if Counts(rg, held, meta)
      then m[rg.resourceId := scale.Strongest(scale.At(m, rg.resourceId), LevelOrAccess(rg.level))] else m;
    forall id | id in m'
      ensures MergedFrom(scale, links, n + 1, held, meta, id, m'[id])
    {
      if id in m && scale.rank(m'[id]) == scale.rank(m[id]) {
        assert MergedFrom(scale, links, n, held, meta, id, m[id]);
      } else {
        assert Counts(links[n], held, meta) && links[n].resourceId == id;
      }
    }
  }

  /** `grantsFor`: what the groups held by one caller grant, propagating and not. */
  method GrantsFor(links: seq<Link>, held: set<string>) returns (grants: map<Id, Level>, nonInheriting: map<Id, Level>)
    ensures IsMerge(AccessScale(), links, |links|, held, false, grants)
    ensures IsMerge(AccessScale(), links, |links|, held, true, nonInheriting)
  {
    AccessScaleIsValid();
    grants, nonInheriting := MergeAll(AccessScale(), links, held);
  }

  method MergeAll(scale: Scale<Level>, links: seq<Link>, held: set<string>)
    returns (grants: map<Id, Level>, nonInheriting: map<Id, Level>)
    requires scale.Valid()
    ensures IsMerge(scale, links, |links|, held, false, grants)
    ensures IsMerge(scale, links, |links|, held, true, nonInheriting)
  {
    grants, nonInheriting := map[], map[];
    for n := 0 to |links|
      invariant IsMerge(scale, links, n, held, false, grants)
      invariant IsMerge(scale, links, n, held, true, nonInheriting)
    {
      var rg := links[n];
      MergeStep(scale, links, n, held, false, grants);
      MergeStep(scale, links, n, held, true, nonInheriting);
      if rg.groupCn in held {
        if IsMetaGroup(rg.groupCn) {
          nonInheriting := nonInheriting[rg.resourceId :=
            scale.Strongest(scale.At(nonInheriting, rg.resourceId), LevelOrAccess(rg.level))];
        } else {
          grants := grants[rg.resourceId := scale.Strongest(scale.At(grants, rg.resourceId), LevelOrAccess(rg.level))];
        }
      }
    }
  }

  // ----- a host: the grants of each group, kept apart -----

  /** The level of the last of the first `n` rows that links `cn` to `id`. */
  function LastLevel(links: seq<Link>, n: nat, cn: string, id: Id): Option<Level>
    requires n <= |links|
  {
    if n == 0 then None
    else if links[n - 1].groupCn == cn && links[n - 1].resourceId == id then Some(links[n - 1].level)
    else LastLevel(links, n - 1, cn, id)
  }

  /** One group's direct grants, a later row for the same resource replacing an earlier one. */
  ghost predicate IsGroupMap(links: seq<Link>, n: nat, cn: string, m: map<Id, Level>)
    requires n <= |links|
  {
    forall id :: if id in m then LastLevel(links, n, cn, id) == Some(m[id]) else LastLevel(links, n, cn, id) == None
  }

  function GroupMap(byGroup: map<string, map<Id, Level>>, cn: string): map<Id, Level>
  {
    if cn in byGroup then byGroup[cn] else map[]
  }

  /** The grants of every group, as `buildNodeIAM` collects them (with roster groups) and the access summary
      (without). */
  method ByGroup(links: seq<Link>, rosters: bool) returns (byGroup: map<string, map<Id, Level>>)
    ensures forall cn :: rosters || !IsMetaGroup(cn) ==> IsGroupMap(links, |links|, cn, GroupMap(byGroup, cn))
    ensures !rosters ==> forall cn :: cn in byGroup ==> !IsMetaGroup(cn)
  {
    byGroup := map[];
    for n := 0 to |links|
      invariant forall cn :: rosters || !IsMetaGroup(cn) ==> IsGroupMap(links, n, cn, GroupMap(byGroup, cn))
      invariant !rosters ==> forall cn :: cn in byGroup ==> !IsMetaGroup(cn)
    {
      var g := links[n];
      ghost var before := byGroup;
      if rosters || !IsMetaGroup(g.groupCn) {
        byGroup := byGroup[g.groupCn := GroupMap(byGroup, g.groupCn)[g.resourceId := g.level]];
      }
      forall cn | rosters || !IsMetaGroup(cn)
        ensures IsGroupMap(links, n + 1, cn, GroupMap(byGroup, cn))
      {
        assert IsGroupMap(links, n, cn, GroupMap(before, cn));
      }
    }
  }

  /** Some row granted at rank `k` or more is at or above `id`. */
  ghost predicate Reaches(scale: Scale<Level>, direct: map<Id, Level>, r: set<(Id, Id)>, id: Id, k: nat)
  {
    exists a :: scale.Grants(direct, r, a, id) && scale.rank(direct[a]) >= k
  }

  lemma BestReaches(scale: Scale<Level>, direct: map<Id, Level>, r: set<(Id, Id)>, inherited: map<Id, Level>, id: Id,
                    k: nat)
    requires scale.Propagated(direct, r, inherited) && k > 0
    ensures Reaches(scale, direct, r, id, k) <==> scale.RankAt(inherited, id) >= k
  {
    assert scale.IsBest(direct, r, id, scale.RankAt(inherited, id));
  }

  /** `buildNodeIAM`'s loop over the groups: those whose own grants let their members log in to `host`. */
  method LoginGroups(allGrants: seq<Link>, edges: seq<Edge>, host: Id) returns (cns: set<string>)
    ensures var links := Complete(allGrants);
      forall cn, m | IsGroupMap(links, |links|, cn, m) ::
        cn in cns <==> !IsMetaGroup(cn) && Reaches(AccessScale(), m, Down(edges), host, LOGIN_RANK)
  {
    AccessScaleIsValid();
    var links := Complete(allGrants);
    var byGroup := ByGroup(links, true);
    cns := AllowedGroups(AccessScale(), byGroup, edges, host, LOGIN_RANK);
    forall cn, m | IsGroupMap(links, |links|, cn, m)
      ensures cn in cns <==> !IsMetaGroup(cn) && Reaches(AccessScale(), m, Down(edges), host, LOGIN_RANK)
    {
      GroupMapIsUnique(links, |links|, cn, m, GroupMap(byGroup, cn));
    }
  }

  lemma GroupMapIsUnique(links: seq<Link>, n: nat, cn: string, m: map<Id, Level>, m': map<Id, Level>)
    requires n <= |links| && IsGroupMap(links, n, cn, m) && IsGroupMap(links, n, cn, m')
    ensures m == m'
  {
    assert forall id :: id in m <==> id in m';
  }

  method AllowedGroups(scale: Scale<Level>, byGroup: map<string, map<Id, Level>>, edges: seq<Edge>, host: Id,
                       login: nat)
    returns (cns: set<string>)
    requires scale.Valid() && login > 0
    ensures forall cn ::
      cn in cns <==> !IsMetaGroup(cn) && Reaches(scale, GroupMap(byGroup, cn), Down(edges), host, login)
  {
    cns := {};
    var rest := byGroup.Keys;
    while rest != {}
      invariant rest <= byGroup.Keys
      invariant forall cn :: cn in cns <==>
        cn in byGroup && cn !in rest && !IsMetaGroup(cn) && Reaches(scale, byGroup[cn], Down(edges), host, login)
      decreases rest
    {
      var cn :| cn in rest;
      rest := rest - {cn};
      if IsMetaGroup(cn) { continue; }
      var effective, inherited := EffectiveGrants(scale, byGroup[cn], edges, map[]);
      BestReaches(scale, byGroup[cn], Down(edges), inherited, host, login);
      if host in effective && scale.rank(effective[host]) >= login {
        cns := cns + {cn};
      }
    }
  }

  // ----- the access summary: what each group inherits -----

  /** What `inherited` says of one group with the direct grants `m`: exactly the rows it is not linked to and that its
      grants reach with a ranked level, at the strongest rank that reaches them. */
  ghost predicate IsInherited(scale: Scale<Level>, m: map<Id, Level>, r: set<(Id, Id)>, inherited: map<Id, Level>)
  {
    && (forall id :: id in inherited <==> id !in m && Reaches(scale, m, r, id, 1))
    && (forall id, k: nat :: id in inherited && k > 0 ==>
          (scale.rank(inherited[id]) >= k <==> Reaches(scale, m, r, id, k)))
  }

  method InheritedBy(scale: Scale<Level>, direct: map<Id, Level>, edges: seq<Edge>) returns (inherited: map<Id, Level>)
    requires scale.Valid()
    ensures IsInherited(scale, direct, Down(edges), inherited)
  {
    var effective, propagated := EffectiveGrants(scale, direct, edges, map[]);
    inherited := map id | id in effective && id !in direct :: effective[id];
    forall id, k: nat | k > 0
      ensures Reaches(scale, direct, Down(edges), id, k) <==> scale.RankAt(effective, id) >= k
    {
      BestReaches(scale, direct, Down(edges), propagated, id, k);
    }
  }

  /** GET `/access-summary`, the part that is not a lookup: for every group the rows it reaches by inheritance. */
  method InheritedAccess(links: seq<Link>, edges: seq<Edge>) returns (summary: map<string, map<Id, Level>>)
    ensures forall cn, m | IsGroupMap(links, |links|, cn, m) ::
      if IsMetaGroup(cn) then cn !in summary else IsInherited(AccessScale(), m, Down(edges), GroupMap(summary, cn))
  {
    AccessScaleIsValid();
    var byGroup := ByGroup(links, false);
    summary := map[];
    var rest := byGroup.Keys;
    while rest != {}
      invariant rest <= byGroup.Keys && summary.Keys == byGroup.Keys - rest
      invariant forall cn :: cn in summary ==> IsInherited(AccessScale(), byGroup[cn], Down(edges), summary[cn])
      decreases rest
    {
      var cn :| cn in rest;
      rest := rest - {cn};
      var inherited := InheritedBy(AccessScale(), byGroup[cn], edges);
      summary := summary[cn := inherited];
    }
    forall cn, m | IsGroupMap(links, |links|, cn, m) && !IsMetaGroup(cn)
      ensures IsInherited(AccessScale(), m, Down(edges), GroupMap(summary, cn))
    {
      GroupMapIsUnique(links, |links|, cn, m, GroupMap(byGroup, cn));
    }
  }

  // ----- do the two agree? -----

  /** Some row of a group held lets its members log in to `host`. */
  ghost predicate RowReaches(scale: Scale<Level>, links: seq<Link>, held: set<string>, r: set<(Id, Id)>, host: Id,
                             login: nat)
  {
    exists i :: 0 <= i < |links| && Counts(links[i], held, false)
      && scale.rank(LevelOrAccess(links[i].level)) >= login && Reach(r, links[i].resourceId, host)
  }

  /** Merging commutes with propagation: the merged grants reach a row at a rank exactly when
      some single row of some group held does. */
  lemma MergeCommutes(scale: Scale<Level>, links: seq<Link>, held: set<string>, grants: map<Id, Level>,
                      r: set<(Id, Id)>, host: Id, login: nat)
    requires IsMerge(scale, links, |links|, held, false, grants)
    ensures Reaches(scale, grants, r, host, login) <==> RowReaches(scale, links, held, r, host, login)
  {
    if Reaches(scale, grants, r, host, login) {
      var a :| scale.Grants(grants, r, a, host) && scale.rank(grants[a]) >= login;
      assert MergedFrom(scale, links, |links|, held, false, a, grants[a]);
    }
    if RowReaches(scale, links, held, r, host, login) {
      var i :| 0 <= i < |links| && Counts(links[i], held, false)
        && scale.rank(LevelOrAccess(links[i].level)) >= login && Reach(r, links[i].resourceId, host);
      assert scale.Grants(grants, r, links[i].resourceId, host);
    }
  }

  /** Some group held lets its members log in to `host` on the strength of its own grants. */
  ghost predicate GroupReaches(scale: Scale<Level>, links: seq<Link>, held: set<string>, r: set<(Id, Id)>, host: Id,
                               login: nat)
  {
    exists cn, a :: cn in held && !IsMetaGroup(cn) && GroupGrants(scale, links, cn, a, login) && Reach(r, a, host)
  }

  /** The row that counts for `cn` and `a`, the last one, grants rank `login`. */
  predicate GroupGrants(scale: Scale<Level>, links: seq<Link>, cn: string, a: Id, login: nat)
  {
    var last := LastLevel(links, |links|, cn, a);
    last.Some? && scale.rank(last.value) >= login
  }

  lemma GroupMapReaches(scale: Scale<Level>, links: seq<Link>, cn: string, m: map<Id, Level>, r: set<(Id, Id)>,
                        host: Id, login: nat)
    requires IsGroupMap(links, |links|, cn, m)
    ensures Reaches(scale, m, r, host, login)
       <==> exists a :: GroupGrants(scale, links, cn, a, login) && Reach(r, a, host)
  {
    if Reaches(scale, m, r, host, login) {
      var a :| scale.Grants(m, r, a, host) && scale.rank(m[a]) >= login;
      assert GroupGrants(scale, links, cn, a, login) && Reach(r, a, host);
    }
    if a :| GroupGrants(scale, links, cn, a, login) && Reach(r, a, host) {
      assert a in m && scale.Grants(m, r, a, host);
    }
  }

  /** No row that lets its group log in is followed by a row for the same group and resource that does not,
      or is stored without a level of its own. */
  ghost predicate LastDecides(scale: Scale<Level>, links: seq<Link>, login: nat)
  {
    forall i :: 0 <= i < |links| && !IsMetaGroup(links[i].groupCn) && scale.rank(LevelOrAccess(links[i].level)) >= login
      ==> GroupGrants(scale, links, links[i].groupCn, links[i].resourceId, login)
  }

  lemma {:induction false} LastIsARow(links: seq<Link>, n: nat, cn: string, id: Id) returns (i: nat)
    requires n <= |links| && LastLevel(links, n, cn, id).Some?
    ensures i < n && links[i].groupCn == cn && links[i].resourceId == id
    ensures LastLevel(links, n, cn, id) == Some(links[i].level)
    decreases n
  {
    if links[n - 1].groupCn == cn && links[n - 1].resourceId == id {
      i := n - 1;
    } else {
      i := LastIsARow(links, n - 1, cn, id);
    }
  }

  /** A caller's merged view and the hosts' login lists agree on who may log in where, on every graph and
      for every caller, exactly when the last row for each group and resource decides like the strongest. */
  lemma LoginAgreesIff(scale: Scale<Level>, links: seq<Link>, login: nat)
    requires scale.Valid() && login > 0 && scale.rank(None) == scale.rank(Some("")) == 0
    ensures LastDecides(scale, links, login) <==>
      forall held, r, host ::
        RowReaches(scale, links, held, r, host, login) <==> GroupReaches(scale, links, held, r, host, login)
  {
    forall held, r, host | LastDecides(scale, links, login)
      ensures RowReaches(scale, links, held, r, host, login) <==> GroupReaches(scale, links, held, r, host, login)
    {
      LastDecidesAgrees(scale, links, held, r, host, login);
    }
    forall i | 0 <= i < |links| && !IsMetaGroup(links[i].groupCn) && scale.rank(LevelOrAccess(links[i].level)) >= login
      && !GroupGrants(scale, links, links[i].groupCn, links[i].resourceId, login)
      ensures exists held, r, host ::
        RowReaches(scale, links, held, r, host, login) && !GroupReaches(scale, links, held, r, host, login)
    {
      var held, r, host := {links[i].groupCn}, {}, links[i].resourceId;
      ReachRefl(r, host);
      assert RowReaches(scale, links, held, r, host, login);
      forall a | Reach(r, a, host)
        ensures a == host
      {
        ReachSplit(r, a, host);
      }
      assert !GroupReaches(scale, links, held, r, host, login);
    }
  }

  lemma LastDecidesAgrees(scale: Scale<Level>, links: seq<Link>, held: set<string>, r: set<(Id, Id)>, host: Id,
                          login: nat)
    requires LastDecides(scale, links, login) && login > 0 && scale.rank(None) == scale.rank(Some("")) == 0
    ensures RowReaches(scale, links, held, r, host, login) <==> GroupReaches(scale, links, held, r, host, login)
  {
    if RowReaches(scale, links, held, r, host, login) {
      var i :| 0 <= i < |links| && Counts(links[i], held, false)
        && scale.rank(LevelOrAccess(links[i].level)) >= login && Reach(r, links[i].resourceId, host);
      assert GroupGrants(scale, links, links[i].groupCn, links[i].resourceId, login);
    }
    if cn, a :| cn in held && !IsMetaGroup(cn) && GroupGrants(scale, links, cn, a, login) && Reach(r, a, host) {
      var i := LastIsARow(links, |links|, cn, a);
      assert Counts(links[i], held, false) && LevelOrAccess(links[i].level) == links[i].level;
    }
  }

  lemma BlankLevelsRankNothing()
    ensures RankOf(None) == RankOf(Some("")) == 0
  {
    assert Lower("") == "";
  }

  /** May a caller holding `held` log in to `host`: by the caller's own view (roster groups aside), and by
      the host's login list. */
  method WhoMayLogIn(links: seq<Link>, edges: seq<Edge>, held: set<string>, host: Id)
    returns (viewed: bool, listed: bool)
    ensures NoBlanks(links) && LastDecides(AccessScale(), links, LOGIN_RANK) ==> viewed == listed
    ensures viewed <==> RowReaches(AccessScale(), links, held, Down(edges), host, LOGIN_RANK)
    ensures listed <==> GroupReaches(AccessScale(), Complete(links), held, Down(edges), host, LOGIN_RANK)
  {
    AccessScaleIsValid();
    var grants, nonInheriting := GrantsFor(links, held);
    var effective, inherited := EffectiveGrants(AccessScale(), grants, edges, map[]);
    viewed := RankOf(AccessScale().At(effective, host)) >= LOGIN_RANK;
    BestReaches(AccessScale(), grants, Down(edges), inherited, host, LOGIN_RANK);
    MergeCommutes(AccessScale(), links, held, grants, Down(edges), host, LOGIN_RANK);
    var cns := LoginGroups(links, edges, host);
    listed := cns * held != {};
    ListedIff(AccessScale(), Complete(links), held, Down(edges), host, LOGIN_RANK, cns);
    BlankLevelsRankNothing();
    if NoBlanks(links) && LastDecides(AccessScale(), links, LOGIN_RANK) {
      KeepingAll(links, (l: Link) => l.groupCn != "" && l.resourceId != "");
      LastDecidesAgrees(AccessScale(), links, held, Down(edges), host, LOGIN_RANK);
    }
  }

  /** A group is listed exactly when it is no roster and a row that counts for it grants login at or above the host. */
  lemma ListedGroup(scale: Scale<Level>, links: seq<Link>, r: set<(Id, Id)>, host: Id, login: nat, cns: set<string>,
                    cn: string)
    requires forall cn, m | IsGroupMap(links, |links|, cn, m) ::
      cn in cns <==> !IsMetaGroup(cn) && Reaches(scale, m, r, host, login)
    ensures cn in cns
       <==> !IsMetaGroup(cn) && exists a :: GroupGrants(scale, links, cn, a, login) && Reach(r, a, host)
  {
    var m := map id | id in (set l | l in links :: l.resourceId) && LastLevel(links, |links|, cn, id).Some?
      :: LastLevel(links, |links|, cn, id).value;
    forall id
      ensures LastLevel(links, |links|, cn, id) == if id in m then Some(m[id]) else None
    {
      if LastLevel(links, |links|, cn, id).Some? {
        var i := LastIsARow(links, |links|, cn, id);
        assert links[i] in links;
      }
    }
    assert IsGroupMap(links, |links|, cn, m);
    GroupMapReaches(scale, links, cn, m, r, host, login);
  }

  lemma ListedIff(scale: Scale<Level>, links: seq<Link>, held: set<string>, r: set<(Id, Id)>, host: Id, login: nat,
                  cns: set<string>)
    requires forall cn, m | IsGroupMap(links, |links|, cn, m) ::
      cn in cns <==> !IsMetaGroup(cn) && Reaches(scale, m, r, host, login)
    ensures cns * held != {} <==> GroupReaches(scale, links, held, r, host, login)
  {
    forall cn
      ensures cn in cns
         <==> !IsMetaGroup(cn) && exists a :: GroupGrants(scale, links, cn, a, login) && Reach(r, a, host)
    {
      ListedGroup(scale, links, r, host, login, cns, cn);
    }
    if cn :| cn in cns * held {
      var a :| GroupGrants(scale, links, cn, a, login) && Reach(r, a, host);
    }
    if GroupReaches(scale, links, held, r, host, login) {
      var cn, a :| cn in held && !IsMetaGroup(cn) && GroupGrants(scale, links, cn, a, login) && Reach(r, a, host);
      assert cn in cns * held;
    }
  }

  /** Nothing keeps a group from being linked to a resource twice; then the two can disagree. */
  lemma TwoRowsDisagree(id: Id)
    ensures var links := [Link(id, "ops", Some("admin")), Link(id, "ops", Some("viewer"))];
      && RowReaches(AccessScale(), links, {"ops"}, {}, id, LOGIN_RANK)
      && !GroupReaches(AccessScale(), links, {"ops"}, {}, id, LOGIN_RANK)
  {
    var links := [Link(id, "ops", Some("admin")), Link(id, "ops", Some("viewer"))];
    assert Lower("admin") == "admin" && Lower("viewer") == "viewer";
    ReachRefl({}, id);
    assert Counts(links[0], {"ops"}, false);
    assert RankOf(LevelOrAccess(links[0].level)) == 3;
    forall a
      ensures !GroupGrants(AccessScale(), links, "ops", a, LOGIN_RANK)
    {
      assert LastLevel(links, 2, "ops", a) == if a == id then Some(Some("viewer")) else LastLevel(links, 1, "ops", a);
      assert a != id ==> LastLevel(links, 1, "ops", a) == LastLevel(links, 0, "ops", a);
    }
  }
}

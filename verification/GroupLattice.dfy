/** The groups of sites and resources by name: which are there after any provisionings, who is in them, and which is
    nested in which.
  */
module GroupLattice {
  import opened Graph
  import opened Directory
  import opened NestedGroups
  import opened GroupNaming
  import opened ResourceGroups
  import AccessLevels
  import AccessProjection

  // ----- slugs -----

  /** The character as it stands in a slug: digits, letters in lower case, and nothing for any other. */
  function Letter(c: char): string
  {
    var n := c as int;
    if 48 <= n <= 57 || 97 <= n <= 122 then [c] else if 65 <= n <= 90 then [(n + 32) as char] else ""
  }

  /** The words of a name: its longest runs of such characters. */
  function Runs(s: string): (runs: seq<string>)
  {
    if s == "" then []
    else
      var init, l := Runs(s[..|s| - 1]), Letter(s[|s| - 1]);
      if l == "" then init
      else if init != [] && |s| > 1 && Letter(s[|s| - 2]) != "" then
        init[..|init| - 1] + [init[|init| - 1] + l]
      else init + [l]
  }

  function JoinDash(words: seq<string>): string
  {
    if words == [] then ""
    else if |words| == 1 then words[0]
    else JoinDash(words[..|words| - 1]) + "-" + words[|words| - 1]
  }

  predicate Plainly(s: string) { s != "" && forall k :: 0 <= k < |s| ==> IsSlugChar(s[k]) }

  /** A slug's text between the dashes for what stands before the first word and after the last. */
  function WithDashes(s: string): string
  {
    (if s != "" && Letter(s[0]) == "" then "-" else "") + JoinDash(Runs(s))
    + if s != "" && Letter(s[|s| - 1]) == "" && Runs(s) != [] then "-" else ""
  }

  lemma LetterIs(c: char)
    ensures var l := AccessLevels.LowerChar(c); if IsSlugChar(l) then Letter(c) == [l] else Letter(c) == ""
  {
  }

  lemma {:induction false} RunsAreWords(s: string)
    ensures forall k :: 0 <= k < |Runs(s)| ==> Plainly(Runs(s)[k])
    ensures s != "" && Letter(s[|s| - 1]) != "" ==> Runs(s) != []
    ensures s != "" && Letter(s[0]) != "" ==> Runs(s) != []
    decreases |s|
  {
    if s != "" {
      RunsAreWords(s[..|s| - 1]);
      LetterIs(s[|s| - 1]);
    }
  }

  lemma JoinSnoc(words: seq<string>, w: string)
    ensures JoinDash(words + [w]) == if words == [] then w else JoinDash(words) + "-" + w
  {
    assert (words + [w])[..|words|] == words;
  }

  lemma Assoc(a: string, b: string, c: string)
    ensures a + (b + c) == a + b + c
  {
  }

  lemma JoinGrows(init: seq<string>, last: string, l: string)
    ensures JoinDash(init + [last + l]) == JoinDash(init + [last]) + l
  {
    JoinSnoc(init, last);
    JoinSnoc(init, last + l);
    Assoc(JoinDash(init) + "-", last, l);
  }

  lemma {:induction false} DashedIs(s: string)
    ensures Dashed(AccessLevels.Lower(s)) == WithDashes(s)
    decreases |s|
  {
    if s != "" {
      var init, c := s[..|s| - 1], s[|s| - 1];
      var low := AccessLevels.Lower(s);
      assert low[..|low| - 1] == AccessLevels.Lower(init) && low[|low| - 1] == AccessLevels.LowerChar(c);
      DashedIs(init);
      LetterIs(c);
      RunsAreWords(init);
      RunsAreWords(s);
      DashedStep(s);
    }
  }

  lemma DashedStep(s: string)
    requires s != ""
    ensures var before, l := WithDashes(s[..|s| - 1]), Letter(s[|s| - 1]);
      WithDashes(s) ==
        if l != "" then before + l
        else if before != "" && before[|before| - 1] == '-' then before
        else before + "-"
  {
    var init, l := s[..|s| - 1], Letter(s[|s| - 1]);
    RunsAreWords(init);
    if init == "" {
      assert Runs(init) == [] && JoinDash([]) == "" && JoinDash([l]) == l;
    } else {
      assert s[0] == init[0] && s[|s| - 2] == init[|init| - 1];
      JoinEndsPlainly(Runs(init));
      if l != "" {
        LetterStep(s);
      } else {
        assert Runs(s) == Runs(init);
      }
    }
  }

  lemma LetterStep(s: string)
    requires |s| > 1 && Letter(s[|s| - 1]) != ""
    ensures WithDashes(s) == WithDashes(s[..|s| - 1]) + Letter(s[|s| - 1])
  {
    var init, l := s[..|s| - 1], Letter(s[|s| - 1]);
    var runs := Runs(init);
    var lead := if Letter(s[0]) == "" then "-" else "";
    RunsAreWords(init);
    RunsAreWords(s);
    assert s[0] == init[0] && s[|s| - 2] == init[|init| - 1];
    assert WithDashes(s) == lead + JoinDash(Runs(s));
    if Letter(s[|s| - 2]) != "" {
      JoinGrows(runs[..|runs| - 1], runs[|runs| - 1], l);
      assert runs == runs[..|runs| - 1] + [runs[|runs| - 1]];
      assert WithDashes(init) == lead + JoinDash(runs);
      Assoc(lead, JoinDash(runs), l);
    } else {
      JoinSnoc(runs, l);
      if runs == [] {
        assert WithDashes(init) == "-" && lead == "-";
      } else {
        assert WithDashes(init) == lead + JoinDash(runs) + "-";
        Assoc(lead, JoinDash(runs) + "-", l);
        Assoc(lead, JoinDash(runs), "-");
      }
    }
  }

  lemma {:induction false} JoinEndsPlainly(words: seq<string>)
    requires forall k :: 0 <= k < |words| ==> Plainly(words[k])
    ensures var j := JoinDash(words);
      if words == [] then j == "" else j != "" && IsSlugChar(j[0]) && IsSlugChar(j[|j| - 1])
    decreases |words|
  {
    if |words| > 1 {
      JoinEndsPlainly(words[..|words| - 1]);
    }
  }

  lemma TrimmedIs(lead: string, word: string, trail: string)
    requires lead in {"", "-"} && trail in {"", "-"} && (word == "" ==> trail == "")
    requires word != "" ==> IsSlugChar(word[0]) && IsSlugChar(word[|word| - 1])
    ensures Trimmed(lead + word + trail) == word
  {
    var s := lead + word + trail;
    var front := if s != "" && s[0] == '-' then s[1..] else s;
    assert front == word + trail;
    assert trail != "" ==> (word + trail)[..|word|] == word;
  }

  /** A slug is the words of the name, in lower case, joined by single dashes. */
  lemma SlugIsWords(name: string)
    ensures Slugify(name) == JoinDash(Runs(name))
  {
    DashedIs(name);
    RunsAreWords(name);
    JoinEndsPlainly(Runs(name));
    TrimmedIs(if name != "" && Letter(name[0]) == "" then "-" else "", JoinDash(Runs(name)),
              if name != "" && Letter(name[|name| - 1]) == "" && Runs(name) != [] then "-" else "");
  }

  // ----- what each request asks for, by name -----

  function KindWord(kind: Kind): string { if kind == HostKind then "host" else "app" }

  /** The name of a resource's groups, up to the level. */
  function OwnPrefix(site: string, kind: Kind, slug: string): string
  {
    site + "_" + KindWord(kind) + "_" + JoinDash(Runs(AccessProjection.StripKind(slug))) + "_"
  }

  /** The groups a request makes. */
  function GroupsOf(q: Request): set<string>
  {
    match q
    case Site(site, _) =>
      if site == "" then {}
      else
        {site + "_super_admin", site + "_everyone", site + "_hosts_admin", site + "_hosts_access",
         site + "_apps_admin", site + "_apps_access"}
    case Resource(site, kind, slug, _) =>
      {OwnPrefix(site, kind, slug) + "access", OwnPrefix(site, kind, slug) + "admin"}
  }

  /** The nestings it asks for: the members of the first group are to be members of the second. */
  function NestingsOf(q: Request): set<(string, string)>
  {
    match q
    case Site(site, _) =>
      if site == "" then {}
      else
        {("god_admin", site + "_super_admin"),
         (site + "_super_admin", site + "_hosts_admin"), (site + "_hosts_admin", site + "_hosts_access"),
         (site + "_super_admin", site + "_apps_admin"), (site + "_apps_admin", site + "_apps_access")}
    case Resource(site, kind, slug, _) =>
      var own, all := OwnPrefix(site, kind, slug), site + "_" + KindWord(kind) + "s_";
      {(own + "admin", own + "access"), (own + "admin", all + "admin"), (own + "access", all + "access"),
       ("god_admin", own + "admin")}
  }

  lemma AggregateNames(site: string, kind: Kind)
    ensures var all := site + "_" + KindWord(kind) + "s_";
      Name(Aggregate(site, kind, Admin)) == all + "admin" && Name(Aggregate(site, kind, Access)) == all + "access"
    ensures kind == HostKind ==> site + "_" + KindWord(kind) + "s_" == site + "_hosts_"
    ensures kind == AppKind ==> site + "_" + KindWord(kind) + "s_" == site + "_apps_"
  {
  }

  lemma LevelNames(site: string)
    ensures site + "_hosts_" + "admin" == site + "_hosts_admin" && site + "_hosts_" + "access" == site + "_hosts_access"
    ensures site + "_apps_" + "admin" == site + "_apps_admin" && site + "_apps_" + "access" == site + "_apps_access"
  {
  }

  lemma OwnNames(site: string, kind: Kind, slug: string)
    ensures Name(Own(site, kind, NameSlug(slug), Admin)) == OwnPrefix(site, kind, slug) + "admin"
    ensures Name(Own(site, kind, NameSlug(slug), Access)) == OwnPrefix(site, kind, slug) + "access"
  {
    SlugIsWords(AccessProjection.StripKind(slug));
  }

  ghost predicate Makes(calls: seq<Call>, cn: string)
  {
    exists c :: c in calls && c.Ensure? && Name(c.role) == cn
  }

  /** What a list of calls asks for. */
  ghost predicate AsksExactly(calls: seq<Call>, groups: set<string>, nestings: set<(string, string)>)
  {
    && (forall cn :: Makes(calls, cn) <==> cn in groups)
    && (forall c, p :: AsksFor(calls, c, p) <==> (c, p) in nestings)
  }

  lemma AsksConcat(a: seq<Call>, ga: set<string>, na: set<(string, string)>, b: seq<Call>, gb: set<string>,
                   nb: set<(string, string)>, groups: set<string>, nestings: set<(string, string)>)
    requires AsksExactly(a, ga, na) && AsksExactly(b, gb, nb) && groups == ga + gb && nestings == na + nb
    ensures AsksExactly(a + b, groups, nestings)
  {
    forall cn
      ensures Makes(a + b, cn) <==> Makes(a, cn) || Makes(b, cn)
    {
    }
    forall c, p
      ensures AsksFor(a + b, c, p) <==> AsksFor(a, c, p) || AsksFor(b, c, p)
    {
    }
  }

  lemma OneMakes(role: Role, owner: string)
    ensures AsksExactly([Ensure(role, owner)], {Name(role)}, {})
  {
    assert [Ensure(role, owner)][0] in [Ensure(role, owner)];
  }

  lemma OneNests(child: Role, parent: Role)
    ensures AsksExactly([Nest(child, parent)], {}, {(Name(child), Name(parent))})
  {
    assert [Nest(child, parent)][0] in [Nest(child, parent)];
  }

  lemma TwoMake(a: Role, b: Role, owner: string)
    ensures AsksExactly([Ensure(a, owner), Ensure(b, owner)], {Name(a), Name(b)}, {})
  {
    OneMakes(a, owner);
    OneMakes(b, owner);
    AsksConcat([Ensure(a, owner)], {Name(a)}, {}, [Ensure(b, owner)], {Name(b)}, {}, {Name(a), Name(b)}, {});
    assert [Ensure(a, owner)] + [Ensure(b, owner)] == [Ensure(a, owner), Ensure(b, owner)];
  }

  lemma TwoNest(a: Role, b: Role, c: Role, d: Role)
    ensures AsksExactly([Nest(a, b), Nest(c, d)], {}, {(Name(a), Name(b)), (Name(c), Name(d))})
  {
    OneNests(a, b);
    OneNests(c, d);
    AsksConcat([Nest(a, b)], {}, {(Name(a), Name(b))}, [Nest(c, d)], {}, {(Name(c), Name(d))},
               {}, {(Name(a), Name(b)), (Name(c), Name(d))});
    assert [Nest(a, b)] + [Nest(c, d)] == [Nest(a, b), Nest(c, d)];
  }

  lemma FourNest(a: Call, b: Call, c: Call, d: Call, nestings: set<(string, string)>)
    requires a.Nest? && b.Nest? && c.Nest? && d.Nest?
    requires nestings == {(Name(a.child), Name(a.parent)), (Name(b.child), Name(b.parent)),
                          (Name(c.child), Name(c.parent)), (Name(d.child), Name(d.parent))}
    ensures AsksExactly([a, b, c, d], {}, nestings)
  {
    TwoNest(a.child, a.parent, b.child, b.parent);
    TwoNest(c.child, c.parent, d.child, d.parent);
    AsksConcat([a, b], {}, {(Name(a.child), Name(a.parent)), (Name(b.child), Name(b.parent))},
               [c, d], {}, {(Name(c.child), Name(c.parent)), (Name(d.child), Name(d.parent))}, {}, nestings);
    assert [a, b] + [c, d] == [a, b, c, d];
  }

  lemma TwoThenFour(x: Call, y: Call, a: Call, b: Call, c: Call, d: Call)
    ensures [x, y] + [a, b, c, d] == [x, y, a, b, c, d]
  {
  }

  lemma ResourceAsks(q: Request)
    requires q.Resource?
    ensures AsksExactly(CallsOf(q), GroupsOf(q), NestingsOf(q))
  {
    var own, admin := Own(q.site, q.kind, NameSlug(q.slug), Access), Own(q.site, q.kind, NameSlug(q.slug), Admin);
    var a, b := Nest(admin, own), Nest(admin, Aggregate(q.site, q.kind, Admin));
    var c, d := Nest(own, Aggregate(q.site, q.kind, Access)), Nest(GodAdmin, admin);
    OwnNames(q.site, q.kind, q.slug);
    AggregateNames(q.site, q.kind);
    TwoMake(own, admin, q.owner);
    FourNest(a, b, c, d, NestingsOf(q));
    AsksConcat([Ensure(own, q.owner), Ensure(admin, q.owner)], GroupsOf(q), {}, [a, b, c, d], {}, NestingsOf(q),
               GroupsOf(q), NestingsOf(q));
    TwoThenFour(Ensure(own, q.owner), Ensure(admin, q.owner), a, b, c, d);
  }

  lemma SiteMakes(site: string, owner: string)
    ensures AsksExactly(CreateSite(site, owner), GroupsOf(Site(site, owner)), {}) || site == ""
  {
    var hosts, apps := CreateAggregates(site, HostKind, owner), CreateAggregates(site, AppKind, owner);
    var top, last := [Ensure(SiteAdmin(site), owner)], [Ensure(Everyone(site), owner)];
    OneMakes(SiteAdmin(site), owner);
    TwoMake(Aggregate(site, HostKind, Admin), Aggregate(site, HostKind, Access), owner);
    TwoMake(Aggregate(site, AppKind, Admin), Aggregate(site, AppKind, Access), owner);
    OneMakes(Everyone(site), owner);
    var h := {Name(Aggregate(site, HostKind, Admin)), Name(Aggregate(site, HostKind, Access))};
    var a := {Name(Aggregate(site, AppKind, Admin)), Name(Aggregate(site, AppKind, Access))};
    SiteNames(site);
    var t := {Name(SiteAdmin(site))};
    AsksConcat(top, t, {}, hosts, h, {}, t + h, {});
    AsksConcat(top + hosts, t + h, {}, apps, a, {}, t + h + a, {});
    if site != "" {
      AsksConcat(top + hosts + apps, t + h + a, {}, last, {Name(Everyone(site))}, {}, GroupsOf(Site(site, owner)), {});
    }
  }

  lemma SiteNames(site: string)
    ensures Name(SiteAdmin(site)) == site + "_super_admin" && Name(Everyone(site)) == site + "_everyone"
    ensures Name(Aggregate(site, HostKind, Admin)) == site + "_hosts_admin"
    ensures Name(Aggregate(site, HostKind, Access)) == site + "_hosts_access"
    ensures Name(Aggregate(site, AppKind, Admin)) == site + "_apps_admin"
    ensures Name(Aggregate(site, AppKind, Access)) == site + "_apps_access"
  {
    AggregateNames(site, HostKind);
    AggregateNames(site, AppKind);
    LevelNames(site);
  }

  lemma SiteNests(site: string, owner: string)
    ensures AsksExactly(WireSite(site), {}, NestingsOf(Site(site, owner))) || site == ""
  {
    var admin := SiteAdmin(site);
    OneNests(GodAdmin, admin);
    var hosts, apps := Aggregate(site, HostKind, Admin), Aggregate(site, AppKind, Admin);
    TwoNest(admin, hosts, hosts, Aggregate(site, HostKind, Access));
    TwoNest(admin, apps, apps, Aggregate(site, AppKind, Access));
    SiteNames(site);
    var t := {("god_admin", site + "_super_admin")};
    var h := {(site + "_super_admin", site + "_hosts_admin"), (site + "_hosts_admin", site + "_hosts_access")};
    var a := {(site + "_super_admin", site + "_apps_admin"), (site + "_apps_admin", site + "_apps_access")};
    AsksConcat([Nest(GodAdmin, admin)], {}, t, WireKind(site, HostKind), {}, h, {}, t + h);
    if site != "" {
      AsksConcat([Nest(GodAdmin, admin)] + WireKind(site, HostKind), {}, t + h, WireKind(site, AppKind), {}, a,
                 {}, NestingsOf(Site(site, owner)));
    }
  }

  lemma SiteAsks(site: string, owner: string)
    requires site != ""
    ensures AsksExactly(SiteCalls(site, owner), GroupsOf(Site(site, owner)), NestingsOf(Site(site, owner)))
  {
    var groups, nestings := GroupsOf(Site(site, owner)), NestingsOf(Site(site, owner));
    SiteMakes(site, owner);
    SiteNests(site, owner);
    AsksConcat(CreateSite(site, owner), groups, {}, WireSite(site), {}, nestings, groups, nestings);
  }

  /** The calls of a request make these groups and ask for these nestings, and no others. */
  lemma RequestAsks(q: Request)
    ensures AsksExactly(CallsOf(q), GroupsOf(q), NestingsOf(q))
  {
    if q.Resource? {
      ResourceAsks(q);
    } else if q.site != "" {
      SiteAsks(q.site, q.owner);
    }
  }

  // ----- what any provisionings leave behind -----

  /** The group is there at the start, or one of the first `n` requests makes it. */
  ghost predicate Present(groups: seq<Entry>, requests: seq<Request>, n: nat, cn: string)
    requires n <= |requests|
  {
    Has(groups, cn) || exists j :: 0 <= j < n && cn in GroupsOf(requests[j])
  }

  lemma MakesConcat(a: seq<Call>, b: seq<Call>, cn: string)
    ensures Makes(a + b, cn) <==> Makes(a, cn) || Makes(b, cn)
  {
  }

  lemma {:induction false} PresentIff(groups: seq<Entry>, requests: seq<Request>, cn: string)
    ensures Has(groups, cn) || Makes(AllCalls(requests), cn) <==> Present(groups, requests, |requests|, cn)
    decreases |requests|
  {
    if requests != [] {
      var init, q := requests[..|requests| - 1], requests[|requests| - 1];
      PresentIff(groups, init, cn);
      RequestAsks(q);
      MakesConcat(AllCalls(init), CallsOf(q), cn);
      PresentSnoc(groups, requests, cn);
    }
  }

  lemma PresentSnoc(groups: seq<Entry>, requests: seq<Request>, cn: string)
    requires requests != []
    ensures var n := |requests| - 1;
      Present(groups, requests, n + 1, cn) <==> Present(groups, requests[..n], n, cn) || cn in GroupsOf(requests[n])
  {
  }

  lemma KnownIff(groups: seq<Entry>, calls: seq<Call>, cn: string)
    ensures Known(groups, calls, cn) <==> Has(groups, cn) || Makes(calls, cn)
  {
  }

  /** In a request, all groups are made before anything is nested. */
  lemma MadeByThen(q: Request, j: nat, cn: string)
    requires j < |CallsOf(q)| && CallsOf(q)[j].Nest?
    ensures Makes(CallsOf(q)[..j], cn) <==> Makes(CallsOf(q), cn)
  {
    RequestsEnsureFirst(q);
    var calls := CallsOf(q);
    if Makes(calls, cn) {
      var c :| c in calls && c.Ensure? && Name(c.role) == cn;
      var i :| 0 <= i < |calls| && calls[i] == c;
      assert i < j;
      assert calls[..j][i] == c;
    }
  }

  /** Of the calls in `own`, made after those in `before`, the `j`th takes effect. */
  ghost predicate TakesAt(groups: seq<Entry>, before: seq<Call>, own: seq<Call>, j: int, c: string, p: string)
  {
    0 <= j < |own| && TakesEffect(groups, before + own, |before| + j, c, p)
  }

  lemma TakenSplits(groups: seq<Entry>, before: seq<Call>, own: seq<Call>, c: string, p: string)
    ensures Taken(groups, before + own, c, p)
       <==> Taken(groups, before, c, p) || exists j :: TakesAt(groups, before, own, j, c, p)
  {
    forall i | 0 <= i < |before|
      ensures TakesEffect(groups, before + own, i, c, p) <==> TakesEffect(groups, before, i, c, p)
    {
      assert (before + own)[..i] == before[..i];
    }
    if Taken(groups, before + own, c, p) {
      var i :| 0 <= i < |before + own| && TakesEffect(groups, before + own, i, c, p);
      assert i >= |before| ==> TakesAt(groups, before, own, i - |before|, c, p);
    }
    if Taken(groups, before, c, p) {
      var i :| 0 <= i < |before| && TakesEffect(groups, before, i, c, p);
      assert TakesEffect(groups, before + own, i, c, p);
    }
  }

  lemma TakesAtIs(groups: seq<Entry>, before: seq<Call>, own: seq<Call>, j: nat, c: string, p: string)
    requires j < |own|
    ensures TakesAt(groups, before, own, j, c, p)
       <==> own[j].Nest? && Name(own[j].child) == c && Name(own[j].parent) == p
            && Known(groups, before + own[..j], c) && Known(groups, before + own[..j], p)
  {
    assert (before + own)[..|before| + j] == before + own[..j];
  }

  /** Whatever a request nests, the groups it makes are there by then. */
  lemma KnownByThen(groups: seq<Entry>, requests: seq<Request>, j: nat, cn: string)
    requires requests != []
    requires j < |CallsOf(requests[|requests| - 1])| && CallsOf(requests[|requests| - 1])[j].Nest?
    ensures var before, own := AllCalls(requests[..|requests| - 1]), CallsOf(requests[|requests| - 1]);
      Known(groups, before + own[..j], cn) <==> Present(groups, requests, |requests|, cn)
  {
    var before, own := AllCalls(requests[..|requests| - 1]), CallsOf(requests[|requests| - 1]);
    MadeByThen(requests[|requests| - 1], j, cn);
    MakesConcat(before, own[..j], cn);
    MakesConcat(before, own, cn);
    KnownIff(groups, before + own[..j], cn);
    PresentIff(groups, requests, cn);
  }

  lemma LastAsks(groups: seq<Entry>, requests: seq<Request>, c: string, p: string)
    requires requests != []
    ensures var before, q := AllCalls(requests[..|requests| - 1]), requests[|requests| - 1];
      (exists j :: TakesAt(groups, before, CallsOf(q), j, c, p))
      <==> (c, p) in NestingsOf(q)
           && Present(groups, requests, |requests|, c) && Present(groups, requests, |requests|, p)
  {
    var before, q := AllCalls(requests[..|requests| - 1]), requests[|requests| - 1];
    var own := CallsOf(q);
    RequestAsks(q);
    if j :| TakesAt(groups, before, own, j, c, p) {
      TakesAtIs(groups, before, own, j, c, p);
      KnownByThen(groups, requests, j, c);
      KnownByThen(groups, requests, j, p);
      assert own[j] in own && AsksFor(own, c, p);
    }
    if (c, p) in NestingsOf(q) && Present(groups, requests, |requests|, c) && Present(groups, requests, |requests|, p) {
      assert AsksFor(own, c, p);
      var j := AskedAt(own, c, p);
      KnownByThen(groups, requests, j, c);
      KnownByThen(groups, requests, j, p);
      TakesAtIs(groups, before, own, j, c, p);
    }
  }

  lemma AskedAt(calls: seq<Call>, c: string, p: string) returns (j: nat)
    requires AsksFor(calls, c, p)
    ensures j < |calls| && calls[j].Nest? && Name(calls[j].child) == c && Name(calls[j].parent) == p
  {
    var x :| x in calls && x.Nest? && Name(x.child) == c && Name(x.parent) == p;
    j :| 0 <= j < |calls| && calls[j] == x;
  }

  /** The `k`th request asks for the nesting, and both groups are there once it has made its own. */
  ghost predicate Asked(groups: seq<Entry>, requests: seq<Request>, k: nat, c: string, p: string)
  {
    k < |requests| && (c, p) in NestingsOf(requests[k])
    && Present(groups, requests, k + 1, c) && Present(groups, requests, k + 1, p)
  }

  lemma {:induction false} TakenIff(groups: seq<Entry>, requests: seq<Request>, c: string, p: string)
    ensures Taken(groups, AllCalls(requests), c, p) <==> exists k: nat :: Asked(groups, requests, k, c, p)
    decreases |requests|
  {
    if requests != [] {
      var n := |requests| - 1;
      TakenIff(groups, requests[..n], c, p);
      TakenSplits(groups, AllCalls(requests[..n]), CallsOf(requests[n]), c, p);
      LastAsks(groups, requests, c, p);
      AskedSnoc(groups, requests, c, p);
    }
  }

  lemma AskedSnoc(groups: seq<Entry>, requests: seq<Request>, c: string, p: string)
    requires requests != []
    ensures var n := |requests| - 1;
      (exists k: nat :: Asked(groups, requests, k, c, p))
      <==> (exists k: nat :: Asked(groups, requests[..n], k, c, p))
           || ((c, p) in NestingsOf(requests[n])
               && Present(groups, requests, n + 1, c) && Present(groups, requests, n + 1, p))
  {
    var n := |requests| - 1;
    forall k: nat | k < n
      ensures Asked(groups, requests, k, c, p) <==> Asked(groups, requests[..n], k, c, p)
    {
      PresentPrefix(groups, requests, k + 1, n, c);
      PresentPrefix(groups, requests, k + 1, n, p);
    }
    LastAsked(groups, requests, c, p);
  }

  lemma LastAsked(groups: seq<Entry>, requests: seq<Request>, c: string, p: string)
    requires requests != []
    ensures var n := |requests| - 1;
      Asked(groups, requests, n, c, p)
      <==> (c, p) in NestingsOf(requests[n])
           && Present(groups, requests, n + 1, c) && Present(groups, requests, n + 1, p)
  {
  }

  lemma PresentPrefix(groups: seq<Entry>, requests: seq<Request>, m: nat, n: nat, cn: string)
    requires m <= n <= |requests|
    ensures Present(groups, requests[..n], m, cn) <==> Present(groups, requests, m, cn)
  {
  }

  // ----- who is in the groups -----

  predicate HasUser(groups: seq<Entry>, cn: string, uid: string)
  {
    exists g :: g in groups && g.cn == cn && UserDn(uid) in g.members
  }

  lemma UsersAfterAdding(groups: seq<Entry>, parent: string, child: string, cn: string, uid: string)
    requires ValidDirectory(groups)
    ensures HasUser(AddMember(groups, parent, GroupDn(child)), cn, uid) <==> HasUser(groups, cn, uid)
  {
    var m := GroupDn(child);
    var after := AddMember(groups, parent, m);
    if g :| g in after && g.cn == cn && UserDn(uid) in g.members {
      JoinedKeeps(groups, parent, m, g);
    }
    if g :| g in groups && g.cn == cn && UserDn(uid) in g.members {
      JoinedKeeps(groups, parent, m, Joined(g, parent, m));
      assert Joined(g, parent, m) in after && UserDn(uid) in Joined(g, parent, m).members;
    }
  }

  lemma UsersAfter(groups: seq<Entry>, call: Call, cap: nat, cn: string, uid: string)
    requires ValidDirectory(groups)
    ensures HasUser(Do(groups, call, cap), cn, uid)
       <==> HasUser(groups, cn, uid)
            || (call.Ensure? && Name(call.role) == cn && !Has(groups, cn) && uid == call.owner)
  {
    match call
    case Nest(child, parent) => UsersAfterAdding(groups, Name(parent), Name(child), cn, uid);
    case Ensure(role, owner) => UsersAfterMaking(groups, Name(role), owner, cn, uid);
  }

  lemma UsersAfterMaking(groups: seq<Entry>, made: string, owner: string, cn: string, uid: string)
    requires ValidDirectory(groups)
    ensures HasUser(Ensured(groups, made, owner), cn, uid)
       <==> HasUser(groups, cn, uid) || (made == cn && !Has(groups, cn) && uid == owner)
  {
    var after := Ensured(groups, made, owner);
    if after != groups {
      assert forall g :: g in after <==> g in groups || g == after[|groups|];
    }
  }

  /** Calls that all make their groups for one owner. */
  lemma {:induction false} OneOwner(groups: seq<Entry>, calls: seq<Call>, owner: string, cap: nat, cn: string,
                                    uid: string)
    requires ValidDirectory(groups) && forall c :: c in calls && c.Ensure? ==> c.owner == owner
    ensures HasUser(DoAll(groups, calls, cap), cn, uid)
       <==> HasUser(groups, cn, uid) || (!Has(groups, cn) && Makes(calls, cn) && uid == owner)
    decreases |calls|
  {
    if calls != [] {
      var init, call := calls[..|calls| - 1], calls[|calls| - 1];
      assert calls == init + [call] && call in calls;
      OneOwner(groups, init, owner, cap, cn, uid);
      DoAllGrows(groups, init, cap);
      DoAllSnoc(groups, init, call, cap);
      OneOwnerStep(groups, init, call, owner, DoAll(groups, init, cap), cap, cn, uid);
    }
  }

  lemma OneOwnerStep(groups: seq<Entry>, init: seq<Call>, call: Call, owner: string, before: seq<Entry>, cap: nat,
                     cn: string, uid: string)
    requires Grown(groups, init, before) && (call.Ensure? ==> call.owner == owner)
    requires HasUser(before, cn, uid)
       <==> HasUser(groups, cn, uid) || (!Has(groups, cn) && Makes(init, cn) && uid == owner)
    ensures HasUser(Do(before, call, cap), cn, uid)
       <==> HasUser(groups, cn, uid) || (!Has(groups, cn) && Makes(init + [call], cn) && uid == owner)
  {
    KnownIff(groups, init, cn);
    UsersAfter(before, call, cap, cn, uid);
    MakesSnoc(init, call, cn);
  }

  lemma MakesSnoc(calls: seq<Call>, call: Call, cn: string)
    ensures Makes(calls + [call], cn) <==> Makes(calls, cn) || (call.Ensure? && Name(call.role) == cn)
  {
    assert [call][0] in [call];
    MakesConcat(calls, [call], cn);
  }

  lemma OwnersAre(q: Request)
    ensures forall c :: c in CallsOf(q) && c.Ensure? ==> c.owner == q.owner
  {
  }

  /** The first of the requests to make the group, which was not there, has this owner. */
  ghost predicate OwnedFirst(groups: seq<Entry>, requests: seq<Request>, k: nat, cn: string, uid: string)
  {
    && k < |requests| && cn in GroupsOf(requests[k]) && uid == requests[k].owner
    && !Present(groups, requests, k, cn)
  }

  lemma {:induction false} UsersAre(groups: seq<Entry>, requests: seq<Request>, cap: nat, cn: string, uid: string)
    requires ValidDirectory(groups)
    ensures HasUser(DoAll(groups, AllCalls(requests), cap), cn, uid)
       <==> HasUser(groups, cn, uid) || exists k: nat :: OwnedFirst(groups, requests, k, cn, uid)
    decreases |requests|
  {
    if requests != [] {
      var n := |requests| - 1;
      var init, q := requests[..n], requests[n];
      var before := DoAll(groups, AllCalls(init), cap);
      UsersAre(groups, init, cap, cn, uid);
      DoAllGrows(groups, AllCalls(init), cap);
      KnownIff(groups, AllCalls(init), cn);
      PresentIff(groups, init, cn);
      DoAllConcat(groups, AllCalls(init), CallsOf(q), cap);
      OwnersAre(q);
      OneOwner(before, CallsOf(q), q.owner, cap, cn, uid);
      RequestAsks(q);
      OwnedSnoc(groups, requests, cn, uid);
    }
  }

  lemma OwnedSnoc(groups: seq<Entry>, requests: seq<Request>, cn: string, uid: string)
    requires requests != []
    ensures var n := |requests| - 1;
      (exists k: nat :: OwnedFirst(groups, requests, k, cn, uid))
      <==> (exists k: nat :: OwnedFirst(groups, requests[..n], k, cn, uid))
           || (cn in GroupsOf(requests[n]) && uid == requests[n].owner && !Present(groups, requests[..n], n, cn))
  {
    var n := |requests| - 1;
    forall k: nat | k < n
      ensures OwnedFirst(groups, requests, k, cn, uid) <==> OwnedFirst(groups, requests[..n], k, cn, uid)
    {
    }
    assert OwnedFirst(groups, requests, n, cn, uid)
      <==> cn in GroupsOf(requests[n]) && uid == requests[n].owner && !Present(groups, requests[..n], n, cn);
  }

  /** Any provisionings of a directory without nesting: the groups that are there, the users in them, and the nestings,
      all by name. */
  lemma DirectoryAfter(groups: seq<Entry>, requests: seq<Request>, cap: nat)
    requires ValidDirectory(groups) && Unnested(groups)
    ensures var after := DoAll(groups, AllCalls(requests), cap);
      && (forall cn :: Has(after, cn) <==> Present(groups, requests, |requests|, cn))
      && (forall cn, uid ::
            HasUser(after, cn, uid) <==>
            HasUser(groups, cn, uid) || exists k: nat :: OwnedFirst(groups, requests, k, cn, uid))
      && (forall c, p :: NestedIn(after, c, p) <==> exists k: nat :: Asked(groups, requests, k, c, p))
  {
    var after := DoAll(groups, AllCalls(requests), cap);
    DoAllGrows(groups, AllCalls(requests), cap);
    forall cn
      ensures Has(after, cn) <==> Present(groups, requests, |requests|, cn)
    {
      KnownIff(groups, AllCalls(requests), cn);
      PresentIff(groups, requests, cn);
    }
    forall cn, uid
      ensures HasUser(after, cn, uid)
         <==> HasUser(groups, cn, uid) || exists k: nat :: OwnedFirst(groups, requests, k, cn, uid)
    {
      UsersAre(groups, requests, cap, cn, uid);
    }
    ProvisioningIsExact(groups, requests, cap);
    forall c, p
      ensures NestedIn(after, c, p) <==> exists k: nat :: Asked(groups, requests, k, c, p)
    {
      TakenIff(groups, requests, c, p);
      assert NestedIn(after, c, p) <==> Taken(groups, AllCalls(requests), c, p);
    }
  }

  /** Which way access flows: who is in a resource's admin group is in the aggregate's, and nobody is in the resource's
      group through the aggregate's. */
  lemma AggregateIsAbove(groups: seq<Entry>, requests: seq<Request>, k: nat, cap: nat)
    requires ValidDirectory(groups) && Unnested(groups) && k < |requests| && requests[k].Resource?
    requires var q := requests[k]; Present(groups, requests, k + 1, q.site + "_" + KindWord(q.kind) + "s_" + "admin")
    ensures var q, after := requests[k], DoAll(groups, AllCalls(requests), cap);
      var own := GroupDn(OwnPrefix(q.site, q.kind, q.slug) + "admin");
      var all := GroupDn(q.site + "_" + KindWord(q.kind) + "s_" + "admin");
      (own, all) in Up(after) && !Reach(Up(after), all, own)
  {
    var q, after := requests[k], DoAll(groups, AllCalls(requests), cap);
    var own, all := OwnPrefix(q.site, q.kind, q.slug) + "admin", q.site + "_" + KindWord(q.kind) + "s_" + "admin";
    assert own in GroupsOf(q) && (own, all) in NestingsOf(q);
    assert Asked(groups, requests, k, own, all);
    TakenIff(groups, requests, own, all);
    TakenIsThere(groups, requests, own, all, cap);
    ProvisioningIsExact(groups, requests, cap);
  }
}

/** The groups the directory creates for its sites and resources, and how it nests them: the calls that
    build the lattice, and what any run of them leaves behind.
  */
module ResourceGroups {
  import opened Graph
  import opened Directory
  import opened NestedGroups
  import opened GroupNaming
  import AccessLevels
  import AccessProjection

  datatype Dn = GroupDn(cn: string) | UserDn(uid: string)

  type Entry = Group<Dn, string>

  /** Membership only ever flows to a higher rank. */
  function Rank(role: Role): (k: nat)
    ensures k <= 3
  {
    match role
    case GodAdmin => 0
    case SiteAdmin(_) => 1
    case Aggregate(_, _, level) => if level.Admin? then 2 else 3
    case Own(_, _, _, level) => if level.Admin? then 1 else 2
    case Everyone(_) => 3
  }

  // ----- the directory and the two calls that change it -----

  predicate Has(groups: seq<Entry>, cn: string)
  {
    exists g :: g in groups && g.cn == cn
  }

  /** A group's distinguished name is built from its common name, which identifies it. */
  ghost predicate ValidDirectory(groups: seq<Entry>)
  {
    && (forall g :: g in groups ==> g.dn == GroupDn(g.cn))
    && (forall g, h :: g in groups && h in groups && g.cn == h.cn ==> g == h)
  }

  /** The group named `child` is listed by the one named `parent`. */
  predicate NestedIn(groups: seq<Entry>, child: string, parent: string)
  {
    exists g :: g in groups && g.cn == parent && GroupDn(child) in g.members
  }

  predicate Unnested(groups: seq<Entry>)
  {
    forall g, m :: g in groups && m in g.members ==> m.UserDn?
  }

  datatype Call = Ensure(role: Role, owner: string) | Nest(child: Role, parent: Role)

  function Joined(g: Entry, cn: string, m: Dn): Entry
  {
    if g.cn == cn && m !in g.members then g.(members := g.members + [m]) else g
  }

  function AddMember(groups: seq<Entry>, cn: string, m: Dn): seq<Entry>
  {
    seq(|groups|, k requires 0 <= k < |groups| => Joined(groups[k], cn, m))
  }

  /** `wouldCycle` for two groups of the directory. */
  ghost predicate Refused(groups: seq<Entry>, child: string, parent: string, cap: nat)
  {
    child == parent || Within(Up(groups), cap, GroupDn(parent), GroupDn(child))
  }

  function Ensured(groups: seq<Entry>, cn: string, owner: string): seq<Entry>
  {
    if Has(groups, cn) then groups else groups + [Group(GroupDn(cn), cn, [UserDn(owner)])]
  }

  ghost function Nested(groups: seq<Entry>, child: string, parent: string, cap: nat): seq<Entry>
  {
    if !Has(groups, child) || !Has(groups, parent) || Refused(groups, child, parent, cap) then groups
    else AddMember(groups, parent, GroupDn(child))
  }

  ghost function Do(groups: seq<Entry>, call: Call, cap: nat): seq<Entry>
  {
    match call
    case Ensure(role, owner) => Ensured(groups, Name(role), owner)
    case Nest(child, parent) => Nested(groups, Name(child), Name(parent), cap)
  }

  ghost function DoAll(groups: seq<Entry>, calls: seq<Call>, cap: nat): seq<Entry>
    decreases |calls|
  {
    if calls == [] then groups
    else Do(DoAll(groups, calls[..|calls| - 1], cap), calls[|calls| - 1], cap)
  }

  lemma DoAllSnoc(groups: seq<Entry>, calls: seq<Call>, call: Call, cap: nat)
    ensures DoAll(groups, calls + [call], cap) == Do(DoAll(groups, calls, cap), call, cap)
  {
    assert (calls + [call])[..|calls|] == calls;
  }

  lemma {:induction false} DoAllConcat(groups: seq<Entry>, a: seq<Call>, b: seq<Call>, cap: nat)
    ensures DoAll(groups, a + b, cap) == DoAll(DoAll(groups, a, cap), b, cap)
    decreases |b|
  {
    if b == [] {
      assert a + b == a;
    } else {
      var init := b[..|b| - 1];
      assert a + b == (a + init) + [b[|b| - 1]];
      DoAllSnoc(groups, a + init, b[|b| - 1], cap);
      DoAllConcat(groups, a, init, cap);
    }
  }

  /** Replaying `calls` turns `initial` into `groups`. The quantifier keeps the replay folded until it is asked
      about. */
  ghost predicate Replays(initial: seq<Entry>, calls: seq<Call>, groups: seq<Entry>, cap: nat)
  {
    forall n: nat {:trigger DoAll(initial, calls, n)} :: n == cap ==> groups == DoAll(initial, calls, n)
  }

  lemma ReplaysSnoc(initial: seq<Entry>, calls: seq<Call>, groups: seq<Entry>, cap: nat, call: Call)
    requires ValidDirectory(groups) && Replays(initial, calls, groups, cap)
    ensures ValidDirectory(Do(groups, call, cap)) && Replays(initial, calls + [call], Do(groups, call, cap), cap)
  {
    StaysValid(groups, call, cap);
    DoAllSnoc(initial, calls, call, cap);
  }

  // ----- the calls each provisioning makes -----

  function CreateAggregates(site: string, kind: Kind, owner: string): seq<Call>
  {
    [Ensure(Aggregate(site, kind, Admin), owner), Ensure(Aggregate(site, kind, Access), owner)]
  }

  function WireKind(site: string, kind: Kind): seq<Call>
  {
    [Nest(SiteAdmin(site), Aggregate(site, kind, Admin)),
     Nest(Aggregate(site, kind, Admin), Aggregate(site, kind, Access))]
  }

  function CreateSite(site: string, owner: string): seq<Call>
  {
    [Ensure(SiteAdmin(site), owner)]
    + CreateAggregates(site, HostKind, owner) + CreateAggregates(site, AppKind, owner)
    + [Ensure(Everyone(site), owner)]
  }

  function WireSite(site: string): seq<Call>
  {
    [Nest(GodAdmin, SiteAdmin(site))] + WireKind(site, HostKind) + WireKind(site, AppKind)
  }

  function SiteCalls(site: string, owner: string): seq<Call>
  {
    CreateSite(site, owner) + WireSite(site)
  }

  function ResourceCalls(site: string, kind: Kind, slug: string, owner: string): seq<Call>
  {
    var own, admin := Own(site, kind, slug, Access), Own(site, kind, slug, Admin);
    [Ensure(own, owner), Ensure(admin, owner),
     Nest(admin, own),
     Nest(admin, Aggregate(site, kind, Admin)),
     Nest(own, Aggregate(site, kind, Access)),
     Nest(GodAdmin, admin)]
  }

  /** One provisioning: of a site's groups, or of a host's or an app's. */
  datatype Request =
    | Site(site: string, owner: string)
    | Resource(site: string, kind: Kind, slug: string, owner: string)

  function CallsOf(r: Request): seq<Call>
  {
    match r
    case Site(site, owner) => if site == "" then [] else SiteCalls(site, owner)
    case Resource(site, kind, slug, owner) => ResourceCalls(site, kind, NameSlug(slug), owner)
  }

  function AllCalls(requests: seq<Request>): seq<Call>
  {
    if requests == [] then [] else AllCalls(requests[..|requests| - 1]) + CallsOf(requests[|requests| - 1])
  }

  /** The stored groups; `log` is every call made so far, and determines them. */
  class GroupDirectory {
    var groups: seq<Entry>
    const cap: nat
    ghost const initial: seq<Entry>
    ghost var log: seq<Call>

    constructor (groups: seq<Entry>, cap: nat)
      requires ValidDirectory(groups)
      ensures Valid() && log == [] && initial == groups && this.cap == cap
    {
      this.groups, this.cap, this.initial, this.log := groups, cap, groups, [];
    }

    ghost predicate Valid()
      reads this
    {
      ValidDirectory(groups) && Replays(initial, log, groups, cap)
    }

    method EnsureGroup(role: Role, owner: string)
      requires Valid()
      modifies this
      ensures Valid() && log == old(log) + [Ensure(role, owner)]
    {
      ReplaysSnoc(initial, log, groups, cap, Ensure(role, owner));
      log := log + [Ensure(role, owner)];
      groups := AddGroup(groups, Name(role), owner);
    }

    method NestGroup(child: Role, parent: Role)
      requires Valid()
      modifies this
      ensures Valid() && log == old(log) + [Nest(child, parent)]
    {
      ReplaysSnoc(initial, log, groups, cap, Nest(child, parent));
      log := log + [Nest(child, parent)];
      groups := AddNesting(groups, Name(child), Name(parent), cap);
    }

    method EnsureSiteGroups(siteSlug: string, owner: string)
      requires Valid()
      modifies this
      ensures Valid() && log == old(log) + CallsOf(Site(siteSlug, owner))
    {
      if siteSlug == "" { return; }
      MakeSiteGroups(siteSlug, owner);
      WireSiteGroups(siteSlug);
    }

    method MakeSiteGroups(siteSlug: string, owner: string)
      requires Valid()
      modifies this
      ensures Valid() && log == old(log) + CreateSite(siteSlug, owner)
    {
      EnsureGroup(SiteAdmin(siteSlug), owner);
      MakeAggregates(siteSlug, HostKind, owner);
      MakeAggregates(siteSlug, AppKind, owner);
      EnsureGroup(Everyone(siteSlug), owner);
      Regroup(old(log), [Ensure(SiteAdmin(siteSlug), owner)], CreateAggregates(siteSlug, HostKind, owner),
              CreateAggregates(siteSlug, AppKind, owner), [Ensure(Everyone(siteSlug), owner)]);
    }

    method WireSiteGroups(siteSlug: string)
      requires Valid()
      modifies this
      ensures Valid() && log == old(log) + WireSite(siteSlug)
    {
      NestGroup(GodAdmin, SiteAdmin(siteSlug));
      Wire(siteSlug, HostKind);
      Wire(siteSlug, AppKind);
      Regroup(old(log), [Nest(GodAdmin, SiteAdmin(siteSlug))], WireKind(siteSlug, HostKind),
              WireKind(siteSlug, AppKind), []);
    }

    method MakeAggregates(siteSlug: string, kind: Kind, owner: string)
      requires Valid()
      modifies this
      ensures Valid() && log == old(log) + CreateAggregates(siteSlug, kind, owner)
    {
      EnsureGroup(Aggregate(siteSlug, kind, Admin), owner);
      EnsureGroup(Aggregate(siteSlug, kind, Access), owner);
    }

    method Wire(siteSlug: string, kind: Kind)
      requires Valid()
      modifies this
      ensures Valid() && log == old(log) + WireKind(siteSlug, kind)
    {
      var aggAdmin, aggAccess := Aggregate(siteSlug, kind, Admin), Aggregate(siteSlug, kind, Access);
      NestGroup(SiteAdmin(siteSlug), aggAdmin);
      NestGroup(aggAdmin, aggAccess);
    }

    method ProvisionResourceGroups(slug: string, kind: Kind, siteSlug: string, owner: string)
      requires Valid()
      modifies this
      ensures Valid() && log == old(log) + CallsOf(Request.Resource(siteSlug, kind, slug, owner))
    {
      var nameSlug := NameSlug(slug);
      var own, admin := Own(siteSlug, kind, nameSlug, Access), Own(siteSlug, kind, nameSlug, Admin);
      EnsureGroup(own, owner);
      EnsureGroup(admin, owner);
      NestGroup(admin, own);
      NestGroup(admin, Aggregate(siteSlug, kind, Admin));
      NestGroup(own, Aggregate(siteSlug, kind, Access));
      NestGroup(GodAdmin, admin);
    }
  }

  lemma Regroup(log: seq<Call>, a: seq<Call>, b: seq<Call>, c: seq<Call>, d: seq<Call>)
    ensures log + a + b + c + d == log + (a + b + c + d)
    ensures d == [] ==> log + a + b + c == log + (a + b + c)
  {
  }

  method AddGroup(groups: seq<Entry>, cn: string, owner: string) returns (groups': seq<Entry>)
    ensures groups' == Ensured(groups, cn, owner)
  {
    var existing := FindGroup(groups, (g: Entry) => g.cn == cn);
    if existing.Some? { return groups; }
    return groups + [Group(GroupDn(cn), cn, [UserDn(owner)])];
  }

  /** `nestGroup`: a missing group or a cycle is a reason to skip. */
  method AddNesting(groups: seq<Entry>, childCn: string, parentCn: string, cap: nat) returns (groups': seq<Entry>)
    requires ValidDirectory(groups)
    ensures groups' == Nested(groups, childCn, parentCn, cap)
  {
    var parent := FindGroup(groups, (g: Entry) => g.cn == parentCn);
    var child := FindGroup(groups, (g: Entry) => g.cn == childCn);
    if parent == None || child == None { return groups; }
    var cycle := WouldCycle(parentCn, child.value.dn, groups, cap);
    assert GroupDn(childCn) in Dns(groups);
    if cycle { return groups; }
    return AddMember(groups, parentCn, child.value.dn);
  }

  lemma JoinedKeeps(groups: seq<Entry>, cn: string, m: Dn, g: Entry)
    requires ValidDirectory(groups)
    ensures g in AddMember(groups, cn, m) <==> exists h :: h in groups && g == Joined(h, cn, m)
  {
    var groups' := AddMember(groups, cn, m);
    if h :| h in groups && g == Joined(h, cn, m) {
      var k :| 0 <= k < |groups| && groups[k] == h;
      assert groups'[k] == g;
    }
    if g in groups' {
      var k :| 0 <= k < |groups'| && groups'[k] == g;
      assert groups[k] in groups;
    }
  }

  lemma StaysValid(groups: seq<Entry>, call: Call, cap: nat)
    requires ValidDirectory(groups)
    ensures ValidDirectory(Do(groups, call, cap)) && Distinct(groups)
  {
    if call.Nest? && Do(groups, call, cap) != groups {
      forall g
        ensures g in AddMember(groups, Name(call.parent), GroupDn(Name(call.child)))
          <==> exists h :: h in groups && g == Joined(h, Name(call.parent), GroupDn(Name(call.child)))
      {
        JoinedKeeps(groups, Name(call.parent), GroupDn(Name(call.child)), g);
      }
    }
  }

  // ----- what one call does -----

  /** Did `call`, made in this directory, nest `child` in `parent`? */
  ghost predicate Nests(groups: seq<Entry>, call: Call, cap: nat, child: string, parent: string)
  {
    && call.Nest? && Name(call.child) == child && Name(call.parent) == parent
    && Has(groups, child) && Has(groups, parent) && !Refused(groups, child, parent, cap)
  }

  lemma NestedAfter(groups: seq<Entry>, call: Call, cap: nat, child: string, parent: string)
    requires ValidDirectory(groups)
    ensures NestedIn(Do(groups, call, cap), child, parent)
       <==> NestedIn(groups, child, parent) || Nests(groups, call, cap, child, parent)
  {
    var after := Do(groups, call, cap);
    if call.Nest? && Nests(groups, call, cap, Name(call.child), Name(call.parent)) {
      NestedAfterAdding(groups, Name(call.parent), GroupDn(Name(call.child)), child, parent);
    } else if call.Ensure? && after != groups {
      assert forall g :: g in after <==> g in groups || g == after[|groups|];
    }
  }

  lemma NestedAfterAdding(groups: seq<Entry>, cn: string, m: Dn, child: string, parent: string)
    requires ValidDirectory(groups) && Has(groups, cn)
    ensures NestedIn(AddMember(groups, cn, m), child, parent)
       <==> NestedIn(groups, child, parent) || (m == GroupDn(child) && cn == parent)
  {
    var after := AddMember(groups, cn, m);
    forall g, h | g in groups && h == Joined(g, cn, m)
      ensures h in after
    {
      JoinedKeeps(groups, cn, m, h);
    }
    if g :| g in after && g.cn == parent && GroupDn(child) in g.members {
      JoinedKeeps(groups, cn, m, g);
    }
    if g :| g in groups && g.cn == parent && GroupDn(child) in g.members {
      assert Joined(g, cn, m) in after;
    }
    if m == GroupDn(child) && cn == parent {
      var g :| g in groups && g.cn == cn;
      assert Joined(g, cn, m) in after;
    }
  }

  lemma HasAfter(groups: seq<Entry>, call: Call, cap: nat, cn: string)
    requires ValidDirectory(groups)
    ensures Has(Do(groups, call, cap), cn) <==> Has(groups, cn) || (call.Ensure? && Name(call.role) == cn)
  {
    var after := Do(groups, call, cap);
    if call.Nest? {
      forall k | 0 <= k < |groups|
        ensures after[k].cn == groups[k].cn && after[k] in after && groups[k] in groups
      {
      }
    } else if after != groups {
      assert after[|groups|].cn == Name(call.role);
    }
  }

  lemma AlreadyNested(groups: seq<Entry>, child: string, parent: string)
    requires ValidDirectory(groups) && NestedIn(groups, child, parent)
    ensures AddMember(groups, parent, GroupDn(child)) == groups
  {
    forall k | 0 <= k < |groups|
      ensures Joined(groups[k], parent, GroupDn(child)) == groups[k]
    {
      assert groups[k] in groups;
    }
  }

  lemma UpGrows(groups: seq<Entry>, call: Call, cap: nat)
    requires ValidDirectory(groups)
    ensures Up(groups) <= Up(Do(groups, call, cap))
  {
    var after := Do(groups, call, cap);
    forall k | 0 <= k < |groups|
      ensures after[k] in after && after[k].dn == groups[k].dn
      ensures forall m :: m in groups[k].members ==> m in after[k].members
    {
      GrowsInPlace(groups, call, cap, k);
    }
    forall a | a in Up(groups)
      ensures a in Up(after)
    {
      var g, m :| g in groups && m in g.members && (m, g.dn) == a;
      var k :| 0 <= k < |groups| && groups[k] == g;
    }
  }

  lemma GrowsInPlace(groups: seq<Entry>, call: Call, cap: nat, k: nat)
    requires k < |groups|
    ensures |Do(groups, call, cap)| >= |groups|
    ensures Do(groups, call, cap)[k].dn == groups[k].dn
    ensures forall m :: m in groups[k].members ==> m in Do(groups, call, cap)[k].members
  {
  }

  // ----- what a run of calls does -----

  lemma {:induction false} DoAllGrows(groups: seq<Entry>, calls: seq<Call>, cap: nat)
    requires ValidDirectory(groups)
    ensures Grown(groups, calls, DoAll(groups, calls, cap))
    decreases |calls|
  {
    if calls == [] {
      NothingGrows(groups);
    } else {
      var init, last := calls[..|calls| - 1], calls[|calls| - 1];
      DoAllGrows(groups, init, cap);
      GrowsOnce(groups, calls, DoAll(groups, init, cap), cap);
    }
  }

  lemma NothingGrows(groups: seq<Entry>)
    requires ValidDirectory(groups)
    ensures Grown(groups, [], groups)
  {
  }

  /** Nothing is ever removed, and the groups created are the ones asked for. */
  ghost predicate Grown(groups: seq<Entry>, calls: seq<Call>, after: seq<Entry>)
  {
    && ValidDirectory(after)
    && (forall cn :: Has(after, cn) <==> Known(groups, calls, cn))
    && (forall c, p :: NestedIn(groups, c, p) ==> NestedIn(after, c, p))
  }

  lemma GrowsOnce(groups: seq<Entry>, calls: seq<Call>, before: seq<Entry>, cap: nat)
    requires ValidDirectory(groups) && calls != [] && Grown(groups, calls[..|calls| - 1], before)
    ensures Grown(groups, calls, Do(before, calls[|calls| - 1], cap))
  {
    var init, call := calls[..|calls| - 1], calls[|calls| - 1];
    StaysValid(before, call, cap);
    assert calls == init + [call];
    forall cn
      ensures Has(Do(before, call, cap), cn) <==> Known(groups, calls, cn)
    {
      HasAfter(before, call, cap, cn);
      KnownSnoc(groups, init, call, cn);
    }
    forall c, p | NestedIn(groups, c, p)
      ensures NestedIn(Do(before, call, cap), c, p)
    {
      NestedAfter(before, call, cap, c, p);
    }
  }

  lemma KnownSnoc(groups: seq<Entry>, calls: seq<Call>, call: Call, cn: string)
    ensures Known(groups, calls + [call], cn) <==> Known(groups, calls, cn) || (call.Ensure? && Name(call.role) == cn)
  {
    assert call in calls + [call] && forall c :: c in calls ==> c in calls + [call];
  }

  /** A group named `cn` is there at the start, or one of `calls` creates it. */
  ghost predicate Known(groups: seq<Entry>, calls: seq<Call>, cn: string)
  {
    Has(groups, cn) || exists c :: c in calls && c.Ensure? && Name(c.role) == cn
  }

  // ----- the lattice: acyclic, shallow, and never refused -----

  ghost function Roles(calls: seq<Call>): set<Role>
  {
    (set c | c in calls && c.Nest? :: c.child) + (set c | c in calls && c.Nest? :: c.parent)
  }

  /** `h` rises with every nesting asked for and depends on the name only; it lies between `low` and 3. */
  ghost predicate Orders(h: Role -> int, low: int, calls: seq<Call>)
  {
    && low <= 3
    && (forall r :: r in Roles(calls) ==> low <= h(r) <= 3)
    && (forall c :: c in calls && c.Nest? ==> h(c.child) < h(c.parent))
    && (forall a, b :: a in Roles(calls) && b in Roles(calls) && Name(a) == Name(b) ==> h(a) == h(b))
  }

  /** Every nesting is one that `calls` asks for. */
  ghost predicate InLattice(groups: seq<Entry>, calls: seq<Call>)
  {
    forall c, p :: NestedIn(groups, c, p) ==> AsksFor(calls, c, p)
  }

  ghost predicate AsksFor(calls: seq<Call>, child: string, parent: string)
  {
    exists c :: c in calls && c.Nest? && Name(c.child) == child && Name(c.parent) == parent
  }

  ghost function NameHeight(h: Role -> int, roles: set<Role>, cn: string): (k: int)
    ensures k == 3 || exists r :: r in roles && Name(r) == cn && k == h(r)
    ensures (exists r :: r in roles && Name(r) == cn) ==> exists r :: r in roles && Name(r) == cn && k == h(r)
  {
    if r :| r in roles && Name(r) == cn then h(r) else 3
  }

  ghost function DnHeight(h: Role -> int, low: int, calls: seq<Call>, d: Dn): int
  {
    match d
    case UserDn(_) => low - 1
    case GroupDn(cn) => NameHeight(h, Roles(calls), cn)
  }

  lemma NameHeightIs(h: Role -> int, low: int, calls: seq<Call>, r: Role)
    requires Orders(h, low, calls) && r in Roles(calls)
    ensures NameHeight(h, Roles(calls), Name(r)) == h(r)
  {
  }

  lemma NameHeightInRange(h: Role -> int, low: int, calls: seq<Call>, cn: string)
    requires Orders(h, low, calls)
    ensures low <= NameHeight(h, Roles(calls), cn) <= 3
  {
  }

  lemma ArrowsClimb(groups: seq<Entry>, calls: seq<Call>, h: Role -> int, low: int, x: Dn, y: Dn)
    requires ValidDirectory(groups) && InLattice(groups, calls) && Orders(h, low, calls)
    requires (x, y) in Up(groups)
    ensures DnHeight(h, low, calls, x) < DnHeight(h, low, calls, y)
  {
    var g, m :| g in groups && m in g.members && (m, g.dn) == (x, y);
    NameHeightInRange(h, low, calls, g.cn);
    if m.GroupDn? {
      assert NestedIn(groups, m.cn, g.cn);
      var c :| c in calls && c.Nest? && Name(c.child) == m.cn && Name(c.parent) == g.cn;
      NameHeightIs(h, low, calls, c.child);
      NameHeightIs(h, low, calls, c.parent);
    }
  }

  lemma AllArrowsClimb(groups: seq<Entry>, calls: seq<Call>, h: Role -> int, low: int)
    requires ValidDirectory(groups) && InLattice(groups, calls) && Orders(h, low, calls)
    ensures forall x, y :: (x, y) in Up(groups) ==> DnHeight(h, low, calls, x) < DnHeight(h, low, calls, y)
  {
    forall x, y | (x, y) in Up(groups)
      ensures DnHeight(h, low, calls, x) < DnHeight(h, low, calls, y)
    {
      ArrowsClimb(groups, calls, h, low, x, y);
    }
  }

  lemma ChainsClimb(groups: seq<Entry>, calls: seq<Call>, h: Role -> int, low: int, n: nat, x: Dn, y: Dn)
    requires ValidDirectory(groups) && InLattice(groups, calls) && Orders(h, low, calls)
    requires Steps(Up(groups), n, x, y)
    ensures DnHeight(h, low, calls, x) + n <= DnHeight(h, low, calls, y)
  {
    AllArrowsClimb(groups, calls, h, low);
    RankedSteps(Up(groups), (d: Dn) => DnHeight(h, low, calls, d), n, x, y);
  }

  /** No chain of group memberships has more than `links` links, a user's own one aside. */
  ghost predicate Shallow(groups: seq<Entry>, links: int)
  {
    forall n: nat, x, y :: Steps(Up(groups), n, x, y) ==> n <= if x.UserDn? then links + 1 else links
  }

  /** Groups nested as the lattice asks never form a cycle, and no chain of them is longer than the order is high. */
  lemma LatticeIsShallow(groups: seq<Entry>, calls: seq<Call>, h: Role -> int, low: int)
    requires ValidDirectory(groups) && InLattice(groups, calls) && Orders(h, low, calls)
    ensures Acyclic(Up(groups)) && Shallow(groups, 3 - low)
  {
    AllArrowsClimb(groups, calls, h, low);
    RankedAcyclic(Up(groups), (d: Dn) => DnHeight(h, low, calls, d));
    forall n: nat, x, y | Steps(Up(groups), n, x, y)
      ensures n <= if x.UserDn? then 3 - low + 1 else 3 - low
    {
      ChainsClimb(groups, calls, h, low, n, x, y);
      if x.GroupDn? { NameHeightInRange(h, low, calls, x.cn); }
      if y.GroupDn? { NameHeightInRange(h, low, calls, y.cn); }
    }
  }

  /** The cycle test lets every nesting of the lattice through, whatever the depth cap. */
  lemma NeverRefused(groups: seq<Entry>, calls: seq<Call>, h: Role -> int, low: int, call: Call, cap: nat)
    requires ValidDirectory(groups) && InLattice(groups, calls) && Orders(h, low, calls)
    requires call in calls && call.Nest?
    ensures !Refused(groups, Name(call.child), Name(call.parent), cap)
  {
    var child, parent := GroupDn(Name(call.child)), GroupDn(Name(call.parent));
    NameHeightIs(h, low, calls, call.child);
    NameHeightIs(h, low, calls, call.parent);
    if n: nat :| n <= cap && Steps(Up(groups), n, parent, child) {
      ChainsClimb(groups, calls, h, low, n, parent, child);
    }
  }

  /** `calls[i]` nests `child` in `parent`, and both exist by then. */
  ghost predicate TakesEffect(groups: seq<Entry>, calls: seq<Call>, i: nat, child: string, parent: string)
    requires i < |calls|
  {
    && calls[i].Nest? && Name(calls[i].child) == child && Name(calls[i].parent) == parent
    && Known(groups, calls[..i], child) && Known(groups, calls[..i], parent)
  }

  /** From a directory without nesting, a run leaves exactly the nestings it asked for at a time when both
      groups existed: nothing is refused, and the result is acyclic and shallow. */
  lemma {:induction false} RunNestsExactly(groups: seq<Entry>, calls: seq<Call>, h: Role -> int, low: int, n: nat,
                                           cap: nat)
    requires ValidDirectory(groups) && Unnested(groups) && Orders(h, low, calls) && n <= |calls|
    ensures var after := DoAll(groups, calls[..n], cap);
      && ValidDirectory(after) && InLattice(after, calls)
      && forall c, p :: NestedIn(after, c, p) <==> exists i :: 0 <= i < n && TakesEffect(groups, calls, i, c, p)
    decreases n
  {
    if n == 0 {
      assert calls[..0] == [];
      forall c, p
        ensures !NestedIn(groups, c, p)
      {
        assert !GroupDn(c).UserDn?;
      }
    } else {
      RunNestsExactly(groups, calls, h, low, n - 1, cap);
      DoAllGrows(groups, calls[..n - 1], cap);
      DoAllSnoc(groups, calls[..n - 1], calls[n - 1], cap);
      assert calls[..n] == calls[..n - 1] + [calls[n - 1]];
      OneMoreCall(groups, calls, h, low, n - 1, cap, DoAll(groups, calls[..n - 1], cap));
    }
  }

  lemma OneMoreCall(groups: seq<Entry>, calls: seq<Call>, h: Role -> int, low: int, n: nat, cap: nat,
                    before: seq<Entry>)
    requires n < |calls| && Orders(h, low, calls)
    requires ValidDirectory(before) && InLattice(before, calls)
    requires forall cn :: Has(before, cn) <==> Known(groups, calls[..n], cn)
    requires forall c, p :: NestedIn(before, c, p) <==> exists i :: 0 <= i < n && TakesEffect(groups, calls, i, c, p)
    ensures var after := Do(before, calls[n], cap);
      && ValidDirectory(after) && InLattice(after, calls)
      && forall c, p :: NestedIn(after, c, p) <==> exists i :: 0 <= i < n + 1 && TakesEffect(groups, calls, i, c, p)
  {
    var after := Do(before, calls[n], cap);
    StaysValid(before, calls[n], cap);
    if calls[n].Nest? {
      NeverRefused(before, calls, h, low, calls[n], cap);
    }
    forall c, p
      ensures NestedIn(after, c, p) <==> NestedIn(before, c, p) || TakesEffect(groups, calls, n, c, p)
    {
      NestedAfter(before, calls[n], cap, c, p);
    }
    forall c, p | NestedIn(after, c, p)
      ensures AsksFor(calls, c, p)
    {
      if !NestedIn(before, c, p) {
        assert calls[n] in calls;
      }
    }
  }

  // ----- two orders of the roles -----

  /** The roles a request nests. */
  function RolesOf(r: Request): set<Role>
  {
    match r
    case Site(site, _) =>
      if site == "" then {}
      else {GodAdmin, SiteAdmin(site)} + AggregatesOf(site, HostKind) + AggregatesOf(site, AppKind)
    case Resource(site, kind, slug, _) =>
      {GodAdmin, Own(site, kind, NameSlug(slug), Access), Own(site, kind, NameSlug(slug), Admin)}
      + AggregatesOf(site, kind)
  }

  function AggregatesOf(site: string, kind: Kind): set<Role>
  {
    {Aggregate(site, kind, Access), Aggregate(site, kind, Admin)}
  }

  lemma RolesConcat(a: seq<Call>, b: seq<Call>)
    ensures Roles(a + b) == Roles(a) + Roles(b)
  {
    forall r
      ensures r in Roles(a + b) <==> r in Roles(a) || r in Roles(b)
    {
      assert forall c :: c in a + b <==> c in a || c in b;
    }
  }

  lemma RolesOfEnsures(calls: seq<Call>)
    requires forall c :: c in calls ==> c.Ensure?
    ensures Roles(calls) == {}
  {
  }

  lemma RolesOfTwoNests(c: Call, d: Call)
    requires c.Nest? && d.Nest?
    ensures Roles([c, d]) == {c.child, c.parent, d.child, d.parent}
  {
    assert forall e :: e in [c, d] <==> e == c || e == d;
  }

  lemma RolesOfRequest(q: Request)
    ensures Roles(CallsOf(q)) == RolesOf(q)
  {
    if q.Site? && q.site != "" {
      RolesOfEnsures(CreateSite(q.site, q.owner));
      RolesConcat(CreateSite(q.site, q.owner), WireSite(q.site));
      RolesOfWiring(q.site);
    } else if q.Resource? {
      RolesOfResource(q.site, q.kind, NameSlug(q.slug), q.owner);
    }
  }

  lemma RolesOfResource(site: string, kind: Kind, slug: string, owner: string)
    ensures Roles(ResourceCalls(site, kind, slug, owner))
         == {GodAdmin, Own(site, kind, slug, Access), Own(site, kind, slug, Admin)} + AggregatesOf(site, kind)
  {
    var own, admin := Own(site, kind, slug, Access), Own(site, kind, slug, Admin);
    var made := [Ensure(own, owner), Ensure(admin, owner)];
    var first := [Nest(admin, own), Nest(admin, Aggregate(site, kind, Admin))];
    var second := [Nest(own, Aggregate(site, kind, Access)), Nest(GodAdmin, admin)];
    assert ResourceCalls(site, kind, slug, owner) == made + (first + second);
    RolesOfEnsures(made);
    RolesOfTwoNests(first[0], first[1]);
    RolesOfTwoNests(second[0], second[1]);
    RolesConcat(first, second);
    RolesConcat(made, first + second);
  }

  lemma RolesOfWiring(site: string)
    ensures Roles(WireSite(site))
         == {GodAdmin, SiteAdmin(site)} + AggregatesOf(site, HostKind) + AggregatesOf(site, AppKind)
  {
    var top := [Nest(GodAdmin, SiteAdmin(site))];
    assert Roles(top) == {GodAdmin, SiteAdmin(site)} by {
      assert forall c :: c in top <==> c == top[0];
    }
    RolesOfTwoNests(WireKind(site, HostKind)[0], WireKind(site, HostKind)[1]);
    RolesOfTwoNests(WireKind(site, AppKind)[0], WireKind(site, AppKind)[1]);
    RolesConcat(top, WireKind(site, HostKind));
    RolesConcat(top + WireKind(site, HostKind), WireKind(site, AppKind));
  }

  ghost predicate SomeHas(requests: seq<Request>, r: Role)
  {
    exists q :: q in requests && r in RolesOf(q)
  }

  lemma SomeHasLast(requests: seq<Request>, r: Role)
    requires requests != []
    ensures SomeHas(requests, r)
       <==> SomeHas(requests[..|requests| - 1], r) || r in RolesOf(requests[|requests| - 1])
  {
    var init, last := requests[..|requests| - 1], requests[|requests| - 1];
    assert forall q :: q in requests <==> q in init || q == last;
  }

  lemma RolesOfLast(requests: seq<Request>, r: Role)
    requires requests != []
    ensures r in Roles(AllCalls(requests))
       <==> r in Roles(AllCalls(requests[..|requests| - 1])) || r in RolesOf(requests[|requests| - 1])
  {
    RolesConcat(AllCalls(requests[..|requests| - 1]), CallsOf(requests[|requests| - 1]));
    RolesOfRequest(requests[|requests| - 1]);
  }

  lemma NoRequestNoRole(r: Role)
    ensures r !in Roles(AllCalls([])) && !SomeHas([], r)
  {
  }

  lemma {:induction false} RolesOfAll(requests: seq<Request>, r: Role)
    ensures r in Roles(AllCalls(requests)) <==> SomeHas(requests, r)
    decreases |requests|
  {
    if requests == [] {
      NoRequestNoRole(r);
    } else {
      RolesOfAll(requests[..|requests| - 1], r);
      RolesOfLast(requests, r);
      SomeHasLast(requests, r);
    }
  }

  lemma {:induction false} AllRequestsRise(requests: seq<Request>, h: Role -> int)
    requires forall q :: q in requests ==> Rises(CallsOf(q), h)
    ensures Rises(AllCalls(requests), h)
    decreases |requests|
  {
    if requests != [] {
      var init, last := requests[..|requests| - 1], requests[|requests| - 1];
      assert last in requests && forall q :: q in init ==> q in requests;
      AllRequestsRise(init, h);
    }
  }

  ghost predicate Rises(calls: seq<Call>, h: Role -> int)
  {
    forall c :: c in calls && c.Nest? ==> h(c.child) < h(c.parent)
  }

  // ----- by rank: unless two roles of different rank share a name -----

  ghost function ByRank(): Role -> int { (r: Role) => Rank(r) }

  /** Some request makes the groups of a resource slugged `hosts` or `apps`, and some request those of a
      site whose name is that resource's site and kind, or of a host or an app there. */
  ghost predicate Clashes(requests: seq<Request>)
  {
    exists q, p, kind :: Clash(requests, q, p, kind)
  }

  predicate Clash(requests: seq<Request>, q: Request, p: Request, kind: Kind)
  {
    && q in requests && p in requests && q.Resource? && NameSlug(q.slug) == KindName(kind) + "s"
    && p.site == Beside(q.site, q.kind) && (p.Resource? ==> p.kind == kind)
  }

  lemma RolesAreWellFormed(q: Request, r: Role)
    requires r in RolesOf(q)
    ensures WellFormed(r)
  {
    if q.Resource? {
      SlugIsAWord(AccessProjection.StripKind(q.slug));
    }
  }

  ghost predicate RanksAgree(roles: set<Role>)
  {
    forall a, b :: a in roles && b in roles && Name(a) == Name(b) ==> Rank(a) == Rank(b)
  }

  /** Roles that share a name share a rank exactly when no two requests clash. */
  lemma RanksAgreeIff(requests: seq<Request>)
    ensures RanksAgree(Roles(AllCalls(requests))) <==> !Clashes(requests)
  {
    var roles := Roles(AllCalls(requests));
    forall r
      ensures r in roles <==> exists q :: q in requests && r in RolesOf(q)
    {
      RolesOfAll(requests, r);
    }
    if q, p, kind :| Clash(requests, q, p, kind) {
      ClashIsShared(q, p, kind);
      assert Own(q.site, q.kind, NameSlug(q.slug), Admin) in roles && Aggregate(p.site, kind, Admin) in roles;
    }
    forall a, b | a in roles && b in roles && Name(a) == Name(b) && Rank(a) != Rank(b)
      ensures Clashes(requests)
    {
      var q :| q in requests && a in RolesOf(q);
      var p :| p in requests && b in RolesOf(p);
      SharedIsClash(requests, q, p, a, b);
    }
  }

  lemma ClashIsShared(q: Request, p: Request, kind: Kind)
    requires q.Resource? && NameSlug(q.slug) == KindName(kind) + "s"
    requires p.site == Beside(q.site, q.kind) && (p.Resource? ==> p.kind == kind)
    ensures forall l ::
      var own, other := Own(q.site, q.kind, NameSlug(q.slug), l), Aggregate(p.site, kind, l);
      own in RolesOf(q) && other in RolesOf(p) && Name(own) == Name(other) && Rank(own) != Rank(other)
  {
    forall l
      ensures var own, other := Own(q.site, q.kind, NameSlug(q.slug), l), Aggregate(p.site, kind, l);
        own in RolesOf(q) && other in RolesOf(p) && Name(own) == Name(other) && Rank(own) != Rank(other)
    {
      var own, other := Own(q.site, q.kind, NameSlug(q.slug), l), Aggregate(p.site, kind, l);
      assert l == Access || l == Admin;
      assert own in RolesOf(q) && LikeAggregate(own, other);
      RolesAreWellFormed(q, own);
      NameIsSharedIff(own, other);
    }
  }

  lemma SharedIsClash(requests: seq<Request>, q: Request, p: Request, a: Role, b: Role)
    requires q in requests && p in requests && a in RolesOf(q) && b in RolesOf(p)
    requires Name(a) == Name(b) && Rank(a) != Rank(b)
    ensures Clashes(requests)
  {
    RolesAreWellFormed(q, a);
    RolesAreWellFormed(p, b);
    NameIsSharedIff(a, b);
    if LikeAggregate(a, b) {
      LikenessIsClash(requests, q, p, a, b);
    } else {
      LikenessIsClash(requests, p, q, b, a);
    }
  }

  lemma LikenessIsClash(requests: seq<Request>, q: Request, p: Request, a: Role, b: Role)
    requires q in requests && p in requests && a in RolesOf(q) && b in RolesOf(p) && LikeAggregate(a, b)
    ensures Clashes(requests)
  {
    OwnOfRequest(q, a);
    AggregateOfRequest(p, b);
    assert Clash(requests, q, p, b.kind);
  }

  lemma OwnOfRequest(q: Request, r: Role)
    requires r in RolesOf(q) && r.Own?
    ensures q.Resource? && r.site == q.site && r.kind == q.kind && r.slug == NameSlug(q.slug)
  {
  }

  lemma AggregateOfRequest(q: Request, r: Role)
    requires r in RolesOf(q) && r.Aggregate?
    ensures r.site == q.site && (q.Resource? ==> r.kind == q.kind)
  {
  }

  lemma RankOrders(requests: seq<Request>)
    requires !Clashes(requests)
    ensures Orders(ByRank(), 0, AllCalls(requests))
  {
    RanksAgreeIff(requests);
    forall q | q in requests
      ensures Rises(CallsOf(q), ByRank())
    {
      RisesByRank(q);
    }
    AllRequestsRise(requests, ByRank());
  }

  lemma RisesByRank(q: Request)
    ensures Rises(CallsOf(q), ByRank())
  {
    forall c | c in CallsOf(q) && c.Nest?
      ensures Rank(c.child) < Rank(c.parent)
    {
      NestIsOneOf(q, c);
    }
  }

  predicate IsNestOf(q: Request, c: Call)
  {
    match q
    case Site(site, _) =>
      || c == Nest(GodAdmin, SiteAdmin(site))
      || exists kind :: c in WireKind(site, kind)
    case Resource(site, kind, slug, _) =>
      var own, admin := Own(site, kind, NameSlug(slug), Access), Own(site, kind, NameSlug(slug), Admin);
      || c == Nest(admin, own) || c == Nest(admin, Aggregate(site, kind, Admin))
      || c == Nest(own, Aggregate(site, kind, Access)) || c == Nest(GodAdmin, admin)
  }

  lemma NestIsOneOf(q: Request, c: Call)
    requires c in CallsOf(q) && c.Nest?
    ensures IsNestOf(q, c)
  {
    if q.Site? && q.site != "" {
      assert c !in CreateSite(q.site, q.owner);
      assert c in WireSite(q.site);
    }
  }

  // ----- by site: always -----

  /** A role's rank among those of its site, the longer site's roles coming first. */
  ghost function Height(r: Role, longest: nat): int
  {
    var c := Canonical(r);
    match c
    case GodAdmin => -4 * longest
    case _ => Rank(c) - 4 * |c.site|
  }

  ghost function BySite(longest: nat): Role -> int { (r: Role) => Height(r, longest) }

  /** Longer than any site of `requests`, with a kind behind it. */
  function Longest(requests: seq<Request>): nat
  {
    if requests == [] then 0
    else
      var rest, last := Longest(requests[..|requests| - 1]), |requests[|requests| - 1].site| + 5;
      if last > rest then last else rest
  }

  lemma {:induction false} LongestIs(requests: seq<Request>, q: Request)
    requires q in requests
    ensures |q.site| + 5 <= Longest(requests)
    decreases |requests|
  {
    if q != requests[|requests| - 1] {
      assert q in requests[..|requests| - 1];
      LongestIs(requests[..|requests| - 1], q);
    }
  }

  lemma AggregateHeights(site: string, kind: Kind, longest: nat)
    ensures var admin := Height(Aggregate(site, kind, Admin), longest);
      var access := Height(Aggregate(site, kind, Access), longest);
      2 - 4 * |site| <= admin < access <= 3 && 3 - 4 * |site| <= access
  {
    forall l
      ensures var a := Aggregate(site, kind, l); var c := Canonical(a);
        c == a || exists s, k :: Splits(site, s, k) && c == Own(s, k, KindName(kind) + "s", l)
    {
    }
    var admin, access := Canonical(Aggregate(site, kind, Admin)), Canonical(Aggregate(site, kind, Access));
    if admin.Own? && access.Own? {
      SplitIsUnique(site, admin.site, admin.kind, access.site, access.kind);
    }
  }

  lemma OwnHeights(site: string, kind: Kind, slug: string, longest: nat)
    ensures var admin := Height(Own(site, kind, slug, Admin), longest);
      var access := Height(Own(site, kind, slug, Access), longest);
      -4 * |site| - 19 <= admin <= 1 - 4 * |site| && access == 2 - 4 * |site|
  {
  }

  lemma RequestRises(q: Request, longest: nat)
    requires |q.site| + 5 <= longest
    ensures Rises(CallsOf(q), BySite(longest))
  {
    AggregateHeights(q.site, HostKind, longest);
    AggregateHeights(q.site, AppKind, longest);
    if q.Resource? {
      OwnHeights(q.site, q.kind, NameSlug(q.slug), longest);
    }
    forall c | c in CallsOf(q) && c.Nest?
      ensures Height(c.child, longest) < Height(c.parent, longest)
    {
      NestIsOneOf(q, c);
    }
  }

  lemma HeightInRange(q: Request, r: Role, longest: nat)
    requires |q.site| + 5 <= longest && r in RolesOf(q)
    ensures -4 * longest <= Height(r, longest) <= 3
  {
    match r
    case Aggregate(site, kind, level) => AggregateHeights(site, kind, longest);
    case Own(site, kind, slug, _) => OwnHeights(site, kind, slug, longest);
    case _ =>
  }

  lemma SiteOrders(requests: seq<Request>)
    ensures var m := Longest(requests); Orders(BySite(m), -4 * m, AllCalls(requests))
  {
    var m, roles := Longest(requests), Roles(AllCalls(requests));
    forall q | q in requests
      ensures Rises(CallsOf(q), BySite(m))
    {
      LongestIs(requests, q);
      RequestRises(q, m);
    }
    AllRequestsRise(requests, BySite(m));
    forall r | r in roles
      ensures -4 * m <= Height(r, m) <= 3 && WellFormed(r)
    {
      RolesOfAll(requests, r);
      var q :| q in requests && r in RolesOf(q);
      RolesAreWellFormed(q, r);
      LongestIs(requests, q);
      HeightInRange(q, r, m);
    }
    forall a, b | a in roles && b in roles && Name(a) == Name(b)
      ensures Height(a, m) == Height(b, m)
    {
      SharedNameIsOneRole(a, b);
    }
  }

  // ----- what provisioning leaves behind -----

  /** Any sequence of provisionings of an un-nested directory, whatever the sites and resources are called:
      the groups are nested exactly as asked, nothing is refused, and no cycle closes. */
  lemma ProvisioningIsExact(groups: seq<Entry>, requests: seq<Request>, cap: nat)
    requires ValidDirectory(groups) && Unnested(groups)
    ensures var calls := AllCalls(requests); var after := DoAll(groups, calls, cap);
      && ValidDirectory(after) && Acyclic(Up(after)) && Shallow(after, 3 + 4 * Longest(requests))
      && (forall c, p :: NestedIn(after, c, p) <==> exists i :: 0 <= i < |calls| && TakesEffect(groups, calls, i, c, p))
  {
    SiteOrders(requests);
    RunIsExact(groups, AllCalls(requests), BySite(Longest(requests)), -4 * Longest(requests), cap);
  }

  lemma RunIsExact(groups: seq<Entry>, calls: seq<Call>, h: Role -> int, low: int, cap: nat)
    requires ValidDirectory(groups) && Unnested(groups) && Orders(h, low, calls)
    ensures var after := DoAll(groups, calls, cap);
      && ValidDirectory(after) && InLattice(after, calls) && Acyclic(Up(after)) && Shallow(after, 3 - low)
      && (forall c, p :: NestedIn(after, c, p) <==> exists i :: 0 <= i < |calls| && TakesEffect(groups, calls, i, c, p))
  {
    RunNestsExactly(groups, calls, h, low, |calls|, cap);
    assert calls[..|calls|] == calls;
    LatticeIsShallow(DoAll(groups, calls, cap), calls, h, low);
  }

  /** Unless two requests clash, no chain of groups has more than three links. */
  lemma ShallowUnlessClash(groups: seq<Entry>, requests: seq<Request>, cap: nat)
    requires ValidDirectory(groups) && Unnested(groups) && !Clashes(requests)
    ensures Shallow(DoAll(groups, AllCalls(requests), cap), 3)
  {
    RankOrders(requests);
    RunIsExact(groups, AllCalls(requests), ByRank(), 0, cap);
  }

  lemma FewerCallsOrder(h: Role -> int, low: int, all: seq<Call>, calls: seq<Call>)
    requires Orders(h, low, all) && forall c :: c in calls ==> c in all
    ensures Orders(h, low, calls)
  {
  }

  /** The calls of any requests, one after the other, in any order, each made any number of times: requests that are
      worked on side by side, their calls interleaved, leave exactly what is asked for in the order that came about. */
  lemma InterleavedIsExact(groups: seq<Entry>, requests: seq<Request>, calls: seq<Call>, cap: nat)
    requires ValidDirectory(groups) && Unnested(groups) && forall c :: c in calls ==> c in AllCalls(requests)
    ensures var after := DoAll(groups, calls, cap);
      && ValidDirectory(after) && Acyclic(Up(after)) && Shallow(after, 3 + 4 * Longest(requests))
      && (forall c, p :: NestedIn(after, c, p) <==> exists i :: 0 <= i < |calls| && TakesEffect(groups, calls, i, c, p))
  {
    SiteOrders(requests);
    FewerCallsOrder(BySite(Longest(requests)), -4 * Longest(requests), AllCalls(requests), calls);
    RunIsExact(groups, calls, BySite(Longest(requests)), -4 * Longest(requests), cap);
  }

  lemma InterleavedIsShallow(groups: seq<Entry>, requests: seq<Request>, calls: seq<Call>, cap: nat)
    requires ValidDirectory(groups) && Unnested(groups) && forall c :: c in calls ==> c in AllCalls(requests)
    requires !Clashes(requests)
    ensures Shallow(DoAll(groups, calls, cap), 3)
  {
    RankOrders(requests);
    FewerCallsOrder(ByRank(), 0, AllCalls(requests), calls);
    RunIsExact(groups, calls, ByRank(), 0, cap);
  }

  /** A group without group members. */
  function Plain(cn: string): Entry { Group(GroupDn(cn), cn, []) }

  function Arrow(c: Call): (Dn, Dn)
    requires c.Nest?
  {
    (GroupDn(Name(c.child)), GroupDn(Name(c.parent)))
  }

  lemma {:induction false} RequestIsAsked(requests: seq<Request>, q: Request, c: Call)
    requires q in requests && c in CallsOf(q)
    ensures c in AllCalls(requests)
    decreases |requests|
  {
    if q != requests[|requests| - 1] {
      assert q in requests[..|requests| - 1];
      RequestIsAsked(requests[..|requests| - 1], q, c);
    }
  }

  /** One of the calls nests `child` in `parent` when both are there. */
  ghost predicate Taken(groups: seq<Entry>, calls: seq<Call>, child: string, parent: string)
  {
    exists i :: 0 <= i < |calls| && TakesEffect(groups, calls, i, child, parent)
  }

  /** A nesting asked for while both groups exist is there in the end. */
  lemma TakenIsThere(groups: seq<Entry>, requests: seq<Request>, child: string, parent: string, cap: nat)
    requires ValidDirectory(groups) && Unnested(groups) && Taken(groups, AllCalls(requests), child, parent)
    ensures (GroupDn(child), GroupDn(parent)) in Up(DoAll(groups, AllCalls(requests), cap))
  {
    ProvisioningIsExact(groups, requests, cap);
    var after := DoAll(groups, AllCalls(requests), cap);
    assert NestedIn(after, child, parent);
    var g :| g in after && g.cn == parent && GroupDn(child) in g.members;
  }

  lemma AskedIsThere(groups: seq<Entry>, requests: seq<Request>, q: Request, c: Call, cap: nat)
    requires ValidDirectory(groups) && Unnested(groups) && q in requests && c in CallsOf(q) && c.Nest?
    requires Has(groups, Name(c.child)) && Has(groups, Name(c.parent))
    ensures Arrow(c) in Up(DoAll(groups, AllCalls(requests), cap))
  {
    RequestIsAsked(requests, q, c);
    var calls := AllCalls(requests);
    var i :| 0 <= i < |calls| && calls[i] == c;
    assert TakesEffect(groups, calls, i, Name(c.child), Name(c.parent));
    TakenIsThere(groups, requests, Name(c.child), Name(c.parent), cap);
  }

  lemma FourArrowsAreDeep(groups: seq<Entry>, a: Call, b: Call, c: Call, d: Call)
    requires a.Nest? && b.Nest? && c.Nest? && d.Nest?
    requires Arrow(a).1 == Arrow(b).0 && Arrow(b).1 == Arrow(c).0 && Arrow(c).1 == Arrow(d).0
    requires Arrow(a) in Up(groups) && Arrow(b) in Up(groups) && Arrow(c) in Up(groups) && Arrow(d) in Up(groups)
    ensures Steps(Up(groups), 4, Arrow(a).0, Arrow(d).1) && !Shallow(groups, 3)
  {
    var r, end := Up(groups), Arrow(d).1;
    assert Steps(r, 0, end, end);
    assert Steps(r, 1, Arrow(d).0, end);
    assert Steps(r, 2, Arrow(c).0, end);
    assert Steps(r, 3, Arrow(b).0, end);
    assert Steps(r, 4, Arrow(a).0, end) && Arrow(a).0.GroupDn?;
  }

  /** The topmost group above the aggregates of `p`'s site, `god_admin` aside. */
  function Top(p: Request): Role
  {
    match p
    case Site(site, _) => SiteAdmin(site)
    case Resource(site, kind, slug, _) => Own(site, kind, NameSlug(slug), Admin)
  }

  lemma TopIsNested(p: Request, kind: Kind)
    requires p.site != "" && (p.Resource? ==> p.kind == kind)
    ensures Nest(GodAdmin, Top(p)) in CallsOf(p)
    ensures Nest(Top(p), Aggregate(p.site, kind, Admin)) in CallsOf(p)
  {
    if p.Site? {
      assert Nest(GodAdmin, Top(p)) in WireSite(p.site);
      assert Nest(Top(p), Aggregate(p.site, kind, Admin)) in WireKind(p.site, kind);
    } else {
      var calls := CallsOf(p);
      assert calls[3] in calls && calls[5] in calls;
    }
  }

  /** A directory of groups with these names, all of them empty. */
  function Plains(names: seq<string>): seq<Entry>
  {
    seq(|names|, k requires 0 <= k < |names| => Plain(names[k]))
  }

  lemma PlainsHave(names: seq<string>)
    ensures ValidDirectory(Plains(names)) && Unnested(Plains(names))
    ensures forall cn :: cn in names ==> Has(Plains(names), cn)
  {
    forall cn | cn in names
      ensures Has(Plains(names), cn)
    {
      var k :| 0 <= k < |names| && names[k] == cn;
      assert Plains(names)[k].cn == cn;
    }
  }

  /** The nestings two clashing requests ask for: a chain of four. */
  function ChainOf(q: Request, p: Request, kind: Kind): seq<Call>
    requires q.Resource?
  {
    var own, admin := Own(q.site, q.kind, NameSlug(q.slug), Access), Own(q.site, q.kind, NameSlug(q.slug), Admin);
    [Nest(GodAdmin, Top(p)), Nest(Top(p), Aggregate(p.site, kind, Admin)),
     Nest(admin, own), Nest(own, Aggregate(q.site, q.kind, Access))]
  }

  lemma ChainIsAsked(requests: seq<Request>, q: Request, p: Request, kind: Kind)
    requires Clash(requests, q, p, kind)
    ensures var chain := ChainOf(q, p, kind);
      && chain[0] in CallsOf(p) && chain[1] in CallsOf(p) && chain[2] in CallsOf(q) && chain[3] in CallsOf(q)
      && Name(chain[1].parent) == Name(chain[2].child)
  {
    ClashIsShared(q, p, kind);
    assert p.site[|q.site|] == '_';
    TopIsNested(p, kind);
    var calls := CallsOf(q);
    assert calls[2] in calls && calls[4] in calls;
  }

  /** Two requests that clash make a chain of four links in a directory that already has the groups. */
  lemma ClashIsDeep(requests: seq<Request>, q: Request, p: Request, kind: Kind, cap: nat) returns (groups: seq<Entry>)
    requires Clash(requests, q, p, kind)
    ensures ValidDirectory(groups) && Unnested(groups)
    ensures !Shallow(DoAll(groups, AllCalls(requests), cap), 3)
  {
    var chain := ChainOf(q, p, kind);
    ChainIsAsked(requests, q, p, kind);
    var names := [Name(chain[0].child), Name(chain[1].child), Name(chain[2].child), Name(chain[3].child),
                  Name(chain[3].parent)];
    groups := Plains(names);
    PlainsHave(names);
    assert names[0] in names && names[1] in names && names[2] in names && names[3] in names && names[4] in names;
    AskedIsThere(groups, requests, p, chain[0], cap);
    AskedIsThere(groups, requests, p, chain[1], cap);
    AskedIsThere(groups, requests, q, chain[2], cap);
    AskedIsThere(groups, requests, q, chain[3], cap);
    FourArrowsAreDeep(DoAll(groups, AllCalls(requests), cap), chain[0], chain[1], chain[2], chain[3]);
  }

  /** The exact condition under which chains of groups stay within three links, in every un-nested directory. */
  lemma ShallowIff(requests: seq<Request>, cap: nat)
    ensures (forall groups :: ValidDirectory(groups) && Unnested(groups) ==>
               Shallow(DoAll(groups, AllCalls(requests), cap), 3))
       <==> !Clashes(requests)
  {
    if q, p, kind :| Clash(requests, q, p, kind) {
      var groups := ClashIsDeep(requests, q, p, kind, cap);
    } else {
      forall groups | ValidDirectory(groups) && Unnested(groups)
        ensures Shallow(DoAll(groups, AllCalls(requests), cap), 3)
      {
        ShallowUnlessClash(groups, requests, cap);
      }
    }
  }

  /** Sites `a` and `a_host`, and a host `hosts` at `a`. */
  function Tower(owner: string): seq<Request>
  {
    [Site("a", owner), Site("a_host", owner), Request.Resource("a", HostKind, "hosts", owner)]
  }

  lemma HostsIsASlug()
    ensures NameSlug("hosts") == "hosts"
  {
    assert "hosts"[..5] == "hosts" && "hosts"[..4] == "host";
    assert "hosts"[0] != "site_"[0] && "hosts"[4] != "host_"[4] && "host"[0] != "app_"[0];
    assert AccessProjection.StripKind("hosts") == "hosts";
    assert AccessLevels.Lower("hosts") == "hosts";
    HostsIsDashed();
  }

  lemma HostsIsDashed()
    ensures Dashed("hosts") == "hosts"
  {
    assert "hosts"[..4] == "host" && "host"[..3] == "hos" && "hos"[..2] == "ho" && "ho"[..1] == "h" && "h"[..0] == "";
    assert Dashed("h") == "h";
    assert Dashed("ho") == "ho";
    assert Dashed("hos") == "hos";
    assert Dashed("host") == "host";
  }

  /** Run from a directory that only has `god_admin`, the tower's chain of four is there: god_admin,
      a_host_super_admin, a_host_hosts_admin, a_hosts_admin, a_hosts_access. */
  lemma TowerIsDeep(owner: string, cap: nat)
    ensures !Shallow(DoAll([Plain("god_admin")], AllCalls(Tower(owner)), cap), 3)
  {
    var groups, requests, calls := [Plain("god_admin")], Tower(owner), AllCalls(Tower(owner));
    TowerCalls(owner);
    TowerNames();
    assert Has(groups, Name(GodAdmin)) by { assert groups[0].cn == "god_admin"; }
    TopArrow(groups, requests, 17, 11, cap);
    MadeArrow(groups, requests, 18, 11, 12, cap);
    MadeArrow(groups, requests, 25, 12, 1, cap);
    MadeArrow(groups, requests, 8, 1, 2, cap);
    FourArrowsAreDeep(DoAll(groups, calls, cap), calls[17], calls[18], calls[25], calls[8]);
  }

  lemma TowerNames()
    ensures Name(Aggregate("a_host", HostKind, Admin)) == Name(Own("a", HostKind, "hosts", Admin))
  {
    assert Beside("a", HostKind) == "a_host" && KindName(HostKind) + "s" == "hosts";
    NameIsSharedIff(Own("a", HostKind, "hosts", Admin), Aggregate("a_host", HostKind, Admin));
  }

  lemma TowerCalls(owner: string)
    ensures var calls := AllCalls(Tower(owner));
      && |calls| == 28
      && calls[1] == Ensure(Aggregate("a", HostKind, Admin), owner)
      && calls[2] == Ensure(Aggregate("a", HostKind, Access), owner)
      && calls[8] == Nest(Aggregate("a", HostKind, Admin), Aggregate("a", HostKind, Access))
      && calls[11] == Ensure(SiteAdmin("a_host"), owner)
      && calls[12] == Ensure(Aggregate("a_host", HostKind, Admin), owner)
      && calls[17] == Nest(GodAdmin, SiteAdmin("a_host"))
      && calls[18] == Nest(SiteAdmin("a_host"), Aggregate("a_host", HostKind, Admin))
      && calls[25] == Nest(Own("a", HostKind, "hosts", Admin), Aggregate("a", HostKind, Admin))
  {
    HostsIsASlug();
    ThreeRequests(Site("a", owner), Site("a_host", owner), Request.Resource("a", HostKind, "hosts", owner));
    SiteHasEleven("a", owner);
    SiteHasEleven("a_host", owner);
    assert CallsOf(Request.Resource("a", HostKind, "hosts", owner)) == ResourceCalls("a", HostKind, "hosts", owner);
  }

  lemma AllCallsSnoc(requests: seq<Request>, r: Request)
    ensures AllCalls(requests + [r]) == AllCalls(requests) + CallsOf(r)
  {
    assert (requests + [r])[..|requests|] == requests;
  }

  lemma OneRequest(a: Request)
    ensures AllCalls([a]) == CallsOf(a)
  {
    AllCallsSnoc([], a);
    assert [] + [a] == [a];
  }

  lemma TwoRequests(a: Request, b: Request)
    ensures AllCalls([a, b]) == CallsOf(a) + CallsOf(b)
  {
    OneRequest(a);
    AllCallsSnoc([a], b);
    assert [a] + [b] == [a, b];
  }

  lemma ThreeRequests(a: Request, b: Request, c: Request)
    ensures AllCalls([a, b, c]) == CallsOf(a) + CallsOf(b) + CallsOf(c)
  {
    TwoRequests(a, b);
    AllCallsSnoc([a, b], c);
    assert [a, b] + [c] == [a, b, c];
  }

  lemma SiteHasEleven(site: string, owner: string)
    requires site != ""
    ensures var calls := CallsOf(Site(site, owner));
      && |calls| == 11
      && calls[0] == Ensure(SiteAdmin(site), owner)
      && calls[1] == Ensure(Aggregate(site, HostKind, Admin), owner)
      && calls[2] == Ensure(Aggregate(site, HostKind, Access), owner)
      && calls[6] == Nest(GodAdmin, SiteAdmin(site))
      && calls[7] == Nest(SiteAdmin(site), Aggregate(site, HostKind, Admin))
      && calls[8] == Nest(Aggregate(site, HostKind, Admin), Aggregate(site, HostKind, Access))
  {
  }

  /** Call `i` nests a group that is there in one that call `j` made. */
  lemma TopArrow(groups: seq<Entry>, requests: seq<Request>, i: nat, j: nat, cap: nat)
    requires ValidDirectory(groups) && Unnested(groups) && j < i < |AllCalls(requests)|
    requires var calls := AllCalls(requests);
      && calls[i].Nest? && calls[j].Ensure?
      && Name(calls[j].role) == Name(calls[i].parent) && Has(groups, Name(calls[i].child))
    ensures Arrow(AllCalls(requests)[i]) in Up(DoAll(groups, AllCalls(requests), cap))
  {
    assert AllCalls(requests)[..i][j] in AllCalls(requests)[..i];
    var c := AllCalls(requests)[i];
    assert TakesEffect(groups, AllCalls(requests), i, Name(c.child), Name(c.parent));
    TakenIsThere(groups, requests, Name(c.child), Name(c.parent), cap);
  }

  /** Call `i` nests the group that call `j` made in the one that call `k` made. */
  lemma MadeArrow(groups: seq<Entry>, requests: seq<Request>, i: nat, j: nat, k: nat, cap: nat)
    requires ValidDirectory(groups) && Unnested(groups) && j < i && k < i < |AllCalls(requests)|
    requires var calls := AllCalls(requests);
      && calls[i].Nest? && calls[j].Ensure? && calls[k].Ensure?
      && Name(calls[j].role) == Name(calls[i].child) && Name(calls[k].role) == Name(calls[i].parent)
    ensures Arrow(AllCalls(requests)[i]) in Up(DoAll(groups, AllCalls(requests), cap))
  {
    assert AllCalls(requests)[..i][j] in AllCalls(requests)[..i];
    assert AllCalls(requests)[..i][k] in AllCalls(requests)[..i];
    var c := AllCalls(requests)[i];
    assert TakesEffect(groups, AllCalls(requests), i, Name(c.child), Name(c.parent));
    TakenIsThere(groups, requests, Name(c.child), Name(c.parent), cap);
  }

  /** A depth cap cuts nothing off that is longer than any chain: four will do unless two requests clash. What
      a user is in at all is then found within the cap. */
  lemma CapCutsNothing(groups: seq<Entry>, requests: seq<Request>, cap: nat, x: Dn, y: Dn)
    requires ValidDirectory(groups) && Unnested(groups)
    requires cap >= if Clashes(requests) then 4 + 4 * Longest(requests) else 4
    ensures var up := Up(DoAll(groups, AllCalls(requests), cap)); Reach(up, x, y) <==> Within(up, cap, x, y)
  {
    ProvisioningIsExact(groups, requests, cap);
    if !Clashes(requests) {
      ShallowUnlessClash(groups, requests, cap);
    }
    var up := Up(DoAll(groups, AllCalls(requests), cap));
    if Reach(up, x, y) {
      var n: nat :| Steps(up, n, x, y);
      assert n <= cap;
    }
  }

  // ----- a run whose chains no cap reaches -----

  /** Sites named like the site before and a kind, over and over. */
  function TowerSite(n: nat): string
  {
    if n == 0 then "s" else Beside(TowerSite(n - 1), HostKind)
  }

  function TowerAdmin(n: nat): Role { Own(TowerSite(n), HostKind, "hosts", Admin) }

  function TowerRequest(n: nat, owner: string): Request { Request.Resource(TowerSite(n), HostKind, "hosts", owner) }

  /** A host `hosts` at each of the sites up to the `n`th. */
  function TowerOf(n: nat, owner: string): seq<Request>
  {
    if n == 0 then [TowerRequest(0, owner)] else TowerOf(n - 1, owner) + [TowerRequest(n, owner)]
  }

  lemma TowerNamesAgree(n: nat)
    ensures Name(Aggregate(TowerSite(n + 1), HostKind, Admin)) == Name(TowerAdmin(n))
  {
    assert KindName(HostKind) + "s" == "hosts";
    NameIsSharedIff(TowerAdmin(n), Aggregate(TowerSite(n + 1), HostKind, Admin));
  }

  lemma {:induction false} DoAllUpGrows(groups: seq<Entry>, calls: seq<Call>, cap: nat)
    requires ValidDirectory(groups)
    ensures Up(groups) <= Up(DoAll(groups, calls, cap))
    decreases |calls|
  {
    if calls != [] {
      var init := calls[..|calls| - 1];
      DoAllUpGrows(groups, init, cap);
      DoAllGrows(groups, init, cap);
      UpGrows(DoAll(groups, init, cap), calls[|calls| - 1], cap);
    }
  }

  /** A nesting of a group made just before, in one made earlier, takes effect. */
  lemma TakesEffectAfter(before: seq<Call>, own: seq<Call>, j: nat, k: nat, made: Call)
    requires j < k < |own| && own[j].Ensure? && own[k].Nest? && Name(own[j].role) == Name(own[k].child)
    requires made in before && made.Ensure? && Name(made.role) == Name(own[k].parent)
    ensures Taken([], before + own, Name(own[k].child), Name(own[k].parent))
  {
    var calls, i := before + own, |before| + k;
    assert calls[i] == own[k] && calls[..i] == before + own[..k] && own[..k][j] == own[j];
    assert own[j] in calls[..i] && made in calls[..i];
    assert TakesEffect([], calls, i, Name(own[k].child), Name(own[k].parent));
  }

  /** The last request, which calls for `own`, nests a group it makes itself in one that was made before. */
  lemma LastRequestNests(requests: seq<Request>, before: seq<Call>, own: seq<Call>, j: nat, k: nat, made: Call,
                         cap: nat)
    requires AllCalls(requests) == before + own
    requires j < k < |own| && own[j].Ensure? && own[k].Nest? && Name(own[j].role) == Name(own[k].child)
    requires made in before && made.Ensure? && Name(made.role) == Name(own[k].parent)
    ensures Arrow(own[k]) in Up(DoAll([], AllCalls(requests), cap))
  {
    TakesEffectAfter(before, own, j, k, made);
    TakenIsThere([], requests, Name(own[k].child), Name(own[k].parent), cap);
  }

  lemma TowerCallsAre(n: nat, owner: string)
    ensures var calls := CallsOf(TowerRequest(n, owner));
      && |calls| == 6 && calls[1] == Ensure(TowerAdmin(n), owner)
      && calls[3] == Nest(TowerAdmin(n), Aggregate(TowerSite(n), HostKind, Admin))
  {
    HostsIsASlug();
  }

  lemma TowerMade(n: nat, owner: string)
    ensures Ensure(TowerAdmin(n), owner) in AllCalls(TowerOf(n, owner))
  {
    TowerCallsAre(n, owner);
    TowerHas(n, n, owner);
    var calls := CallsOf(TowerRequest(n, owner));
    assert calls[1] in calls;
    RequestIsAsked(TowerOf(n, owner), TowerRequest(n, owner), calls[1]);
  }

  function TowerDn(n: nat): Dn { GroupDn(Name(TowerAdmin(n))) }

  ghost function TowerUp(n: nat, owner: string, cap: nat): set<(Dn, Dn)>
  {
    Up(DoAll([], AllCalls(TowerOf(n, owner)), cap))
  }

  lemma TowerArrow(n: nat, owner: string, cap: nat)
    ensures (TowerDn(n + 1), TowerDn(n)) in TowerUp(n + 1, owner, cap)
  {
    TowerNamesAgree(n);
    TowerMade(n, owner);
    TowerCallsAre(n + 1, owner);
    var own := CallsOf(TowerRequest(n + 1, owner));
    AllCallsSnoc(TowerOf(n, owner), TowerRequest(n + 1, owner));
    LastRequestNests(TowerOf(n + 1, owner), AllCalls(TowerOf(n, owner)), own, 1, 3, Ensure(TowerAdmin(n), owner), cap);
  }

  lemma TowerClimbs(n: nat, owner: string, cap: nat)
    ensures Steps(TowerUp(n, owner, cap), n, TowerDn(n), TowerDn(0))
  {
    forall k: nat
      ensures TowerUp(k, owner, cap) <= TowerUp(k + 1, owner, cap)
      ensures (TowerDn(k + 1), TowerDn(k)) in TowerUp(k + 1, owner, cap)
    {
      TowerGrows(k, owner, cap);
      TowerArrow(k, owner, cap);
    }
    var r, at := (k: nat) => TowerUp(k, owner, cap), (k: nat) => TowerDn(k);
    assert forall k: nat :: r(k) == TowerUp(k, owner, cap) && at(k) == TowerDn(k);
    GrowingChain(r, at, n);
  }

  lemma TowerGrows(n: nat, owner: string, cap: nat)
    ensures TowerUp(n, owner, cap) <= TowerUp(n + 1, owner, cap)
  {
    var calls, p := AllCalls(TowerOf(n, owner)), TowerRequest(n + 1, owner);
    AllCallsSnoc(TowerOf(n, owner), p);
    DoAllConcat([], calls, CallsOf(p), cap);
    DoAllGrows([], calls, cap);
    DoAllUpGrows(DoAll([], calls, cap), CallsOf(p), cap);
  }

  /** How long the name of a role's site is; nesting shortens it by ten characters at most. */
  ghost function SiteLength(r: Role): nat
  {
    var c := Canonical(r);
    match c
    case GodAdmin => 0
    case _ => |c.site|
  }

  ghost function BySiteLength(): Role -> int { (r: Role) => SiteLength(r) }

  lemma AggregateLength(site: string, kind: Kind, level: Level)
    ensures |site| - 5 <= SiteLength(Aggregate(site, kind, level)) <= |site|
  {
    var a := Aggregate(site, kind, level);
    if Canonical(a) != a {
      var s, k :| Splits(site, s, k) && Canonical(a) == Own(s, k, KindName(kind) + "s", level);
    }
  }

  lemma NestingShortens(q: Request, c: Call)
    requires c in CallsOf(q) && c.Nest?
    ensures SiteLength(c.parent) >= SiteLength(c.child) - 10
  {
    NestIsOneOf(q, c);
    forall kind, level
      ensures |q.site| - 5 <= SiteLength(Aggregate(q.site, kind, level)) <= |q.site|
    {
      AggregateLength(q.site, kind, level);
    }
  }

  lemma {:induction false} CallOfSome(requests: seq<Request>, c: Call) returns (q: Request)
    requires c in AllCalls(requests)
    ensures q in requests && c in CallsOf(q)
    decreases |requests|
  {
    q := requests[|requests| - 1];
    if c !in CallsOf(q) {
      q := CallOfSome(requests[..|requests| - 1], c);
    }
  }

  lemma NameLengthIs(requests: seq<Request>, r: Role)
    requires r in Roles(AllCalls(requests))
    ensures NameHeight(BySiteLength(), Roles(AllCalls(requests)), Name(r)) == SiteLength(r)
  {
    var roles := Roles(AllCalls(requests));
    var s :| s in roles && Name(s) == Name(r) && NameHeight(BySiteLength(), roles, Name(r)) == SiteLength(s);
    RolesOfAll(requests, r);
    RolesOfAll(requests, s);
    var q, p :| q in requests && r in RolesOf(q) && p in requests && s in RolesOf(p);
    RolesAreWellFormed(q, r);
    RolesAreWellFormed(p, s);
    SharedNameIsOneRole(r, s);
  }

  ghost function DnLength(requests: seq<Request>, d: Dn): int
  {
    match d
    case UserDn(_) => 0
    case GroupDn(cn) => NameHeight(BySiteLength(), Roles(AllCalls(requests)), cn)
  }

  lemma ArrowShortens(requests: seq<Request>, cap: nat, x: Dn, y: Dn)
    requires (x, y) in Up(DoAll([], AllCalls(requests), cap))
    ensures DnLength(requests, y) >= DnLength(requests, x) - 10
  {
    var calls := AllCalls(requests);
    var after := DoAll([], calls, cap);
    ProvisioningIsExact([], requests, cap);
    var g, m :| g in after && m in g.members && (m, g.dn) == (x, y);
    if m.GroupDn? {
      assert NestedIn(after, m.cn, g.cn);
      var i :| 0 <= i < |calls| && TakesEffect([], calls, i, m.cn, g.cn);
      var q := CallOfSome(requests, calls[i]);
      NestingShortens(q, calls[i]);
      NameLengthIs(requests, calls[i].child);
      NameLengthIs(requests, calls[i].parent);
    }
  }

  lemma StepsShorten(requests: seq<Request>, cap: nat, n: nat, x: Dn, y: Dn)
    requires Steps(Up(DoAll([], AllCalls(requests), cap)), n, x, y)
    ensures DnLength(requests, y) >= DnLength(requests, x) - n * 10
  {
    var up := Up(DoAll([], AllCalls(requests), cap));
    forall a, b | (a, b) in up
      ensures DnLength(requests, b) >= DnLength(requests, a) - 10
    {
      ArrowShortens(requests, cap, a, b);
    }
    BoundedSteps(up, (d: Dn) => DnLength(requests, d), 10, n, x, y);
  }

  lemma {:induction false} TowerLength(n: nat)
    ensures |TowerSite(n)| == 1 + 5 * n
    decreases n
  {
    if n > 0 {
      TowerLength(n - 1);
    }
  }

  lemma TowerRole(n: nat, k: nat, owner: string)
    requires k <= n
    ensures TowerAdmin(k) in Roles(AllCalls(TowerOf(n, owner))) && DnLength(TowerOf(n, owner), TowerDn(k)) == 1 + 5 * k
  {
    TowerHas(n, k, owner);
    TowerRoleOf(k, owner);
    RolesOfAll(TowerOf(n, owner), TowerAdmin(k));
    NameLengthIs(TowerOf(n, owner), TowerAdmin(k));
  }

  lemma TowerRoleOf(k: nat, owner: string)
    ensures TowerAdmin(k) in RolesOf(TowerRequest(k, owner)) && SiteLength(TowerAdmin(k)) == 1 + 5 * k
  {
    HostsIsASlug();
    TowerLength(k);
    assert "hosts"[0] != "super"[0];
  }

  lemma {:induction false} TowerHas(n: nat, k: nat, owner: string)
    requires k <= n
    ensures TowerRequest(k, owner) in TowerOf(n, owner)
    decreases n
  {
    if k < n {
      TowerHas(n - 1, k, owner);
    }
  }

  /** Whatever the cap, a run of provisionings from an empty directory after which a group is in another, but not within
      the cap: clashing names make chains as long as one likes. */
  lemma CapCutsTower(cap: nat, owner: string)
    ensures var n := 2 * cap + 2;
      var up := Up(DoAll([], AllCalls(TowerOf(n, owner)), cap));
      Reach(up, TowerDn(n), TowerDn(0)) && !Within(up, cap, TowerDn(n), TowerDn(0))
  {
    var n := 2 * cap + 2;
    TowerClimbs(n, owner, cap);
    TowerRole(n, n, owner);
    TowerRole(n, 0, owner);
    if m: nat :| m <= cap && Steps(TowerUp(n, owner, cap), m, TowerDn(n), TowerDn(0)) {
      StepsShorten(TowerOf(n, owner), cap, m, TowerDn(n), TowerDn(0));
    }
  }

  // ----- nestings by hand -----

  lemma AddMemberUp(groups: seq<Entry>, cn: string, m: Dn)
    requires ValidDirectory(groups) && Has(groups, cn)
    ensures Up(AddMember(groups, cn, m)) == Up(groups) + {(m, GroupDn(cn))}
  {
    var after := AddMember(groups, cn, m);
    forall a | a in Up(after)
      ensures a in Up(groups) + {(m, GroupDn(cn))}
    {
      var g, x :| g in after && x in g.members && (x, g.dn) == a;
      JoinedKeeps(groups, cn, m, g);
    }
    forall a | a in Up(groups) + {(m, GroupDn(cn))}
      ensures a in Up(after)
    {
      var g, x :| g in groups && (x in g.members || (x == m && g.cn == cn)) && (x, g.dn) == a;
      JoinedKeeps(groups, cn, m, Joined(g, cn, m));
    }
  }

  lemma NestedUp(groups: seq<Entry>, child: string, parent: string, cap: nat)
    requires ValidDirectory(groups)
    ensures ValidDirectory(Nested(groups, child, parent, cap))
    ensures Up(Nested(groups, child, parent, cap)) ==
      if Has(groups, child) && Has(groups, parent) && !Refused(groups, child, parent, cap)
      then Up(groups) + {(GroupDn(child), GroupDn(parent))} else Up(groups)
  {
    if Has(groups, parent) {
      AddMemberUp(groups, parent, GroupDn(child));
      forall g
        ensures g in AddMember(groups, parent, GroupDn(child))
           <==> exists h :: h in groups && g == Joined(h, parent, GroupDn(child))
      {
        JoinedKeeps(groups, parent, GroupDn(child), g);
      }
    }
  }

  /** Nestings of any groups whatever, one after the other, each let through or refused by the cycle test. */
  ghost function NestAll(groups: seq<Entry>, nestings: seq<(string, string)>, cap: nat): seq<Entry>
    decreases |nestings|
  {
    if nestings == [] then groups
    else
      var n := |nestings| - 1;
      Nested(NestAll(groups, nestings[..n], cap), nestings[n].0, nestings[n].1, cap)
  }

  /** If the parent is a member of the child, the depth cap lets the cycle test see it. */
  ghost predicate InSight(groups: seq<Entry>, nesting: (string, string), cap: nat)
  {
    Has(groups, nesting.0) && Has(groups, nesting.1) && Reach(Up(groups), GroupDn(nesting.1), GroupDn(nesting.0)) ==>
      Within(Up(groups), cap, GroupDn(nesting.1), GroupDn(nesting.0))
  }

  /** The cap hid no membership from the first `n` cycle tests. */
  ghost predicate NoneHidden(groups: seq<Entry>, nestings: seq<(string, string)>, n: nat, cap: nat)
    requires n <= |nestings|
  {
    forall i :: 0 <= i < n ==> InSight(NestAll(groups, nestings[..i], cap), nestings[i], cap)
  }

  lemma NestOneMore(groups: seq<Entry>, nestings: seq<(string, string)>, n: nat, cap: nat)
    requires n < |nestings|
    ensures NestAll(groups, nestings[..n + 1], cap)
         == Nested(NestAll(groups, nestings[..n], cap), nestings[n].0, nestings[n].1, cap)
  {
    assert nestings[..n + 1][..n] == nestings[..n];
  }

  ghost predicate RightAfter(groups: seq<Entry>, nestings: seq<(string, string)>, n: nat, cap: nat)
    requires n <= |nestings|
  {
    var after := NestAll(groups, nestings[..n], cap);
    ValidDirectory(after) && (Acyclic(Up(after)) <==> NoneHidden(groups, nestings, n, cap))
  }

  lemma RightBefore(groups: seq<Entry>, nestings: seq<(string, string)>, cap: nat)
    requires ValidDirectory(groups) && Acyclic(Up(groups))
    ensures RightAfter(groups, nestings, 0, cap)
  {
    NoNesting(groups, cap);
    assert nestings[..0] == [];
  }

  lemma RightStep(groups: seq<Entry>, nestings: seq<(string, string)>, n: nat, cap: nat)
    requires 0 < n <= |nestings| && RightAfter(groups, nestings, n - 1, cap)
    ensures RightAfter(groups, nestings, n, cap)
  {
    NextNesting(groups, nestings, n - 1, cap);
  }

  lemma {:induction false} FirstNestings(groups: seq<Entry>, nestings: seq<(string, string)>, n: nat, cap: nat)
    requires ValidDirectory(groups) && Acyclic(Up(groups)) && n <= |nestings|
    ensures RightAfter(groups, nestings, n, cap)
    decreases n
  {
    if n == 0 {
      RightBefore(groups, nestings, cap);
    } else {
      FirstNestings(groups, nestings, n - 1, cap);
      RightStep(groups, nestings, n, cap);
    }
  }

  lemma NoNesting(groups: seq<Entry>, cap: nat)
    ensures NestAll(groups, [], cap) == groups
  {
  }

  lemma NextNesting(groups: seq<Entry>, nestings: seq<(string, string)>, n: nat, cap: nat)
    requires n < |nestings| && ValidDirectory(NestAll(groups, nestings[..n], cap))
    ensures ValidDirectory(NestAll(groups, nestings[..n + 1], cap))
    ensures Acyclic(Up(NestAll(groups, nestings[..n + 1], cap)))
       <==> Acyclic(Up(NestAll(groups, nestings[..n], cap)))
              && InSight(NestAll(groups, nestings[..n], cap), nestings[n], cap)
    ensures NoneHidden(groups, nestings, n + 1, cap)
       <==> NoneHidden(groups, nestings, n, cap) && InSight(NestAll(groups, nestings[..n], cap), nestings[n], cap)
  {
    NestOneMore(groups, nestings, n, cap);
    OneNesting(NestAll(groups, nestings[..n], cap), nestings[n], cap);
  }

  /** From an acyclic directory, any run of nestings leaves an acyclic one exactly when the cap never hid a
      membership. */
  lemma NestingsStayAcyclicIff(groups: seq<Entry>, nestings: seq<(string, string)>, cap: nat)
    requires ValidDirectory(groups) && Acyclic(Up(groups))
    ensures Acyclic(Up(NestAll(groups, nestings, cap))) <==> NoneHidden(groups, nestings, |nestings|, cap)
  {
    FirstNestings(groups, nestings, |nestings|, cap);
    assert nestings[..|nestings|] == nestings;
  }

  lemma OneNesting(before: seq<Entry>, nesting: (string, string), cap: nat)
    requires ValidDirectory(before)
    ensures var after := Nested(before, nesting.0, nesting.1, cap);
      ValidDirectory(after) && (Acyclic(Up(after)) <==> Acyclic(Up(before)) && InSight(before, nesting, cap))
  {
    var child, parent := GroupDn(nesting.0), GroupDn(nesting.1);
    var after := Nested(before, nesting.0, nesting.1, cap);
    NestedUp(before, nesting.0, nesting.1, cap);
    assert Steps(Up(before), 0, parent, parent);
    if Acyclic(Up(before)) {
      AddArrowAcyclic(Up(before), child, parent);
    } else if Acyclic(Up(after)) {
      AcyclicMono(Up(before), Up(after));
    }
  }

  /** In particular while no chain of memberships is longer than the cap. */
  lemma NestingsStayAcyclic(groups: seq<Entry>, nestings: seq<(string, string)>, cap: nat)
    requires ValidDirectory(groups) && Acyclic(Up(groups))
    requires forall i :: 0 <= i < |nestings| ==> Shallow(NestAll(groups, nestings[..i], cap), cap)
    ensures Acyclic(Up(NestAll(groups, nestings, cap)))
  {
    NestingsStayAcyclicIff(groups, nestings, cap);
    forall i | 0 <= i < |nestings|
      ensures InSight(NestAll(groups, nestings[..i], cap), nestings[i], cap)
    {
      var up := Up(NestAll(groups, nestings[..i], cap));
      var parent, child := GroupDn(nestings[i].1), GroupDn(nestings[i].0);
      if Reach(up, parent, child) {
        var n: nat :| Steps(up, n, parent, child);
        assert n <= cap;
      }
    }
  }

  // ----- doing it again -----

  predicate EnsuresFirst(calls: seq<Call>)
  {
    forall i, j :: 0 <= i < j < |calls| && calls[j].Ensure? ==> calls[i].Ensure?
  }

  lemma RequestsEnsureFirst(r: Request)
    ensures EnsuresFirst(CallsOf(r))
  {
  }

  /** In `groups`, the call changes nothing, nor will it once more nestings are added. */
  ghost predicate Settled(groups: seq<Entry>, call: Call, cap: nat)
  {
    match call
    case Ensure(role, _) => Has(groups, Name(role))
    case Nest(child, parent) =>
      || !Has(groups, Name(child)) || !Has(groups, Name(parent))
      || Refused(groups, Name(child), Name(parent), cap) || NestedIn(groups, Name(child), Name(parent))
  }

  lemma SettledIsNoOp(groups: seq<Entry>, call: Call, cap: nat)
    requires ValidDirectory(groups) && Settled(groups, call, cap)
    ensures Do(groups, call, cap) == groups
  {
    if call.Nest? && NestedIn(groups, Name(call.child), Name(call.parent)) {
      AlreadyNested(groups, Name(call.child), Name(call.parent));
    }
  }

  lemma DoSettles(groups: seq<Entry>, call: Call, cap: nat)
    requires ValidDirectory(groups)
    ensures Settled(Do(groups, call, cap), call, cap)
  {
    match call
    case Ensure(role, _) => HasAfter(groups, call, cap, Name(role));
    case Nest(child, parent) => NestedAfter(groups, call, cap, Name(child), Name(parent));
  }

  /** Nestings never unsettle a call. */
  lemma NestKeepsSettled(groups: seq<Entry>, call: Call, nest: Call, cap: nat)
    requires ValidDirectory(groups) && Settled(groups, call, cap) && nest.Nest?
    ensures Settled(Do(groups, nest, cap), call, cap)
  {
    var after := Do(groups, nest, cap);
    match call
    case Ensure(role, _) => HasAfter(groups, nest, cap, Name(role));
    case Nest(child, parent) =>
      HasAfter(groups, nest, cap, Name(child));
      HasAfter(groups, nest, cap, Name(parent));
      NestedAfter(groups, nest, cap, Name(child), Name(parent));
      UpGrows(groups, nest, cap);
      if n: nat :| n <= cap && Steps(Up(groups), n, GroupDn(Name(parent)), GroupDn(Name(child))) {
        StepsMono(Up(groups), Up(after), n, GroupDn(Name(parent)), GroupDn(Name(child)));
      }
  }

  lemma KeepsSettled(groups: seq<Entry>, call: Call, next: Call, cap: nat)
    requires ValidDirectory(groups) && Settled(groups, call, cap) && (next.Ensure? ==> call.Ensure?)
    ensures Settled(Do(groups, next, cap), call, cap)
  {
    if next.Nest? {
      NestKeepsSettled(groups, call, next, cap);
    } else {
      HasAfter(groups, next, cap, Name(call.role));
    }
  }

  lemma {:induction false} RunSettles(groups: seq<Entry>, calls: seq<Call>, n: nat, cap: nat)
    requires ValidDirectory(groups) && EnsuresFirst(calls) && n <= |calls|
    ensures ValidDirectory(DoAll(groups, calls[..n], cap))
    ensures forall i :: 0 <= i < n ==> Settled(DoAll(groups, calls[..n], cap), calls[i], cap)
    decreases n
  {
    DoAllGrows(groups, calls[..n], cap);
    if n > 0 {
      RunSettles(groups, calls, n - 1, cap);
      var before := DoAll(groups, calls[..n - 1], cap);
      DoAllSnoc(groups, calls[..n - 1], calls[n - 1], cap);
      assert calls[..n] == calls[..n - 1] + [calls[n - 1]];
      OneMoreSettles(before, calls, n - 1, cap);
    }
  }

  lemma OneMoreSettles(before: seq<Entry>, calls: seq<Call>, n: nat, cap: nat)
    requires ValidDirectory(before) && EnsuresFirst(calls) && n < |calls|
    requires forall i :: 0 <= i < n ==> Settled(before, calls[i], cap)
    ensures forall i :: 0 <= i < n + 1 ==> Settled(Do(before, calls[n], cap), calls[i], cap)
  {
    DoSettles(before, calls[n], cap);
    forall i | 0 <= i < n
      ensures Settled(Do(before, calls[n], cap), calls[i], cap)
    {
      KeepsSettled(before, calls[i], calls[n], cap);
    }
  }

  lemma {:induction false} SettledRunIsNoOp(groups: seq<Entry>, calls: seq<Call>, cap: nat)
    requires ValidDirectory(groups) && forall c :: c in calls ==> Settled(groups, c, cap)
    ensures DoAll(groups, calls, cap) == groups
    decreases |calls|
  {
    if calls != [] {
      SettledRunIsNoOp(groups, calls[..|calls| - 1], cap);
      SettledIsNoOp(groups, calls[|calls| - 1], cap);
    }
  }

  /** Provisioning again changes nothing, whatever the directory looked like. */
  lemma ProvisioningTwice(groups: seq<Entry>, r: Request, cap: nat)
    requires ValidDirectory(groups)
    ensures var once := DoAll(groups, CallsOf(r), cap); DoAll(once, CallsOf(r), cap) == once
  {
    var calls := CallsOf(r);
    RequestsEnsureFirst(r);
    RunSettles(groups, calls, |calls|, cap);
    assert calls[..|calls|] == calls;
    SettledRunIsNoOp(DoAll(groups, calls, cap), calls, cap);
  }
}

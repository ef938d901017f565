/** Groups inside groups (`groupOfNames`, section 3.5 of RFC 4519), and their transitive closures,
    computed breadth first to a fixed depth. Names are already normalized for case.
  */
module NestedGroups {
  import opened Graph
  import opened Directory

  datatype Group<D, C> = Group(dn: D, cn: C, members: seq<D>)

  /** Membership as arrows: from a member to each group that lists it. */
  ghost function Up<D(!new), C(!new)>(groups: seq<Group<D, C>>): set<(D, D)>
  {
    set g, m | g in groups && m in g.members :: (m, g.dn)
  }

  ghost function Dns<D(!new), C(!new)>(groups: seq<Group<D, C>>): set<D>
  {
    set g | g in groups :: g.dn
  }

  /** A directory entry is identified by its name, and these groups by their common name too. */
  ghost predicate Distinct<D(!new), C(!new)>(groups: seq<Group<D, C>>)
  {
    forall g, h :: g in groups && h in groups && (g.dn == h.dn || g.cn == h.cn) ==> g == h
  }

  // ----- closureUp -----

  ghost predicate IsParentIndex<D(!new), C(!new)>(parents: map<D, seq<Group<D, C>>>, groups: seq<Group<D, C>>)
  {
    forall m, g {:trigger g in ParentsOf(parents, m)} :: g in ParentsOf(parents, m) <==> g in groups && m in g.members
  }

  function ParentsOf<D(==), C>(parents: map<D, seq<Group<D, C>>>, m: D): seq<Group<D, C>>
  {
    if m in parents then parents[m] else []
  }

  method BuildParentIndex<D(==, !new), C(!new)>(groups: seq<Group<D, C>>) returns (parents: map<D, seq<Group<D, C>>>)
    ensures IsParentIndex(parents, groups)
  {
    parents := map[];
    for n := 0 to |groups|
      invariant IndexedUpTo(parents, groups, n, 0)
    {
      var group := groups[n];
      for k := 0 to |group.members|
        invariant IndexedUpTo(parents, groups, n, k)
      {
        var key := group.members[k];
        ghost var before := parents;
        parents := parents[key := ParentsOf(parents, key) + [group]];
        forall m, g
          ensures g in ParentsOf(parents, m) <==> ListedUpTo(groups, n, k + 1, m, g)
        {
          assert g in ParentsOf(before, m) <==> ListedUpTo(groups, n, k, m, g);
          if m == key {
            assert g in ParentsOf(before, m) + [group] <==> g in ParentsOf(before, m) || g == group;
          }
        }
      }
      forall m, g
        ensures ListedUpTo(groups, n, |group.members|, m, g) <==> ListedUpTo(groups, n + 1, 0, m, g)
      {
      }
    }
  }

  /** `g` lists `m`, as far as the first `n` groups and the first `k` members of the next one go. */
  ghost predicate ListedUpTo<D(!new), C(!new)>(groups: seq<Group<D, C>>, n: nat, k: nat, m: D, g: Group<D, C>)
    requires n <= |groups|
  {
    || (exists i :: 0 <= i < n && groups[i] == g && m in g.members)
    || (n < |groups| && g == groups[n] && exists j :: 0 <= j < k && j < |g.members| && g.members[j] == m)
  }

  ghost predicate IndexedUpTo<D(!new), C(!new)>(parents: map<D, seq<Group<D, C>>>, groups: seq<Group<D, C>>, n: nat,
                                                k: nat)
    requires n <= |groups|
  {
    forall m, g {:trigger g in ParentsOf(parents, m)} :: g in ParentsOf(parents, m) <==> ListedUpTo(groups, n, k, m, g)
  }

  /** The walk has taken `depth` rounds: `seen` is everything within that distance, and whatever is
      not on the frontier has been expanded. */
  ghost predicate Round<D(!new)>(r: set<(D, D)>, x: D, depth: nat, seen: set<D>, frontier: set<D>)
  {
    && (forall y :: y in seen <==> Within(r, depth, x, y))
    && frontier <= seen
    && (forall y, z :: y in seen && y !in frontier && (y, z) in r ==> z in seen)
  }

  lemma RoundStarts<D(!new)>(r: set<(D, D)>, x: D)
    ensures Round(r, x, 0, {x}, {x})
  {
    assert Steps(r, 0, x, x);
    forall y | Within(r, 0, x, y)
      ensures y == x
    {
      var n: nat :| n <= 0 && Steps(r, n, x, y);
    }
  }

  ghost predicate Expanded<D(!new)>(r: set<(D, D)>, seen: set<D>, frontier: set<D>, seen': set<D>)
  {
    && seen <= seen'
    && (forall y, z :: y in frontier && (y, z) in r ==> z in seen')
    && (forall z :: z in seen' && z !in seen ==> exists y :: y in frontier && (y, z) in r)
  }

  lemma RoundGoesOn<D(!new)>(r: set<(D, D)>, x: D, depth: nat, seen: set<D>, frontier: set<D>, seen': set<D>)
    requires Round(r, x, depth, seen, frontier) && Expanded(r, seen, frontier, seen')
    ensures Round(r, x, depth + 1, seen', seen' - seen)
  {
    forall y | y in seen'
      ensures Within(r, depth + 1, x, y)
    {
      if y in seen {
        assert Within(r, depth, x, y);
      } else {
        var w :| w in frontier && (w, y) in r;
        assert Within(r, depth, x, w);
        var n: nat :| n <= depth && Steps(r, n, x, w);
        StepsSnoc(r, n, x, w, y);
      }
    }
    forall y | Within(r, depth + 1, x, y)
      ensures y in seen'
    {
      var n: nat :| n <= depth + 1 && Steps(r, n, x, y);
      if n <= depth {
        assert Within(r, depth, x, y);
      } else {
        var w := StepsUnsnoc(r, n, x, y);
        assert Within(r, depth, x, w);
      }
    }
  }

  /** When the depth is used up, or nothing is left to expand, `seen` is everything within the cap. */
  lemma RoundEnds<D(!new)>(r: set<(D, D)>, x: D, depth: nat, cap: nat, seen: set<D>, frontier: set<D>)
    requires Round(r, x, depth, seen, frontier) && depth <= cap && (depth == cap || frontier == {})
    ensures forall y :: y in seen <==> Within(r, cap, x, y)
  {
    forall y
      ensures y in seen <==> Within(r, cap, x, y)
    {
      if y in seen {
        assert Within(r, depth, x, y);
      }
      if Within(r, cap, x, y) && depth < cap {
        var n: nat :| n <= cap && Steps(r, n, x, y);
        assert Steps(r, 0, x, x) && Within(r, depth, x, x);
        ClosedSteps(r, seen, n, x, y);
      }
    }
  }

  ghost predicate Collected<D(!new), C(!new)>(groups: seq<Group<D, C>>, x: D, seen: set<D>, found: map<C, Group<D, C>>)
  {
    && (forall g :: g in groups && g.dn in seen && g.dn != x ==> g.cn in found && found[g.cn] == g)
    && (forall c :: c in found ==> found[c] in groups && found[c].cn == c && found[c].dn in seen && found[c].dn != x)
  }

  /** `closureUp`: every group within `cap` memberships of `dn`, other than `dn` itself. */
  method ClosureUp<D(==, !new), C(==, !new)>(dn: D, groups: seq<Group<D, C>>, cap: nat)
    returns (found: map<C, Group<D, C>>)
    requires Distinct(groups)
    ensures forall g | g in groups ::
      (g.cn in found && found[g.cn] == g) <==> g.dn != dn && Within(Up(groups), cap, dn, g.dn)
    ensures forall c | c in found :: found[c] in groups && found[c].cn == c
  {
    var parents := BuildParentIndex(groups);
    found := map[];
    var seen, frontier := {dn}, [dn];
    var depth := 0;
    RoundStarts(Up(groups), dn);
    assert Elements(frontier) == {dn};
    while depth < cap && |frontier| > 0
      invariant depth <= cap
      invariant Round(Up(groups), dn, depth, seen, Elements(frontier))
      invariant Collected(groups, dn, seen, found) && dn in seen
    {
      ghost var before := seen;
      var next: seq<D>;
      seen, found, next := ExpandUp(groups, parents, dn, frontier, seen, found);
      RoundGoesOn(Up(groups), dn, depth, before, Elements(frontier), seen);
      frontier := next;
      depth := depth + 1;
    }
    RoundEnds(Up(groups), dn, depth, cap, seen, Elements(frontier));
  }

  ghost function Elements<T(!new)>(s: seq<T>): set<T>
  {
    set x | x in s
  }

  lemma ElementsSnoc<T(!new)>(s: seq<T>, x: T)
    ensures Elements(s + [x]) == Elements(s) + {x}
  {
  }

  lemma ElementsUpTo<T(!new)>(s: seq<T>, n: nat)
    requires n < |s|
    ensures Elements(s[..n + 1]) == Elements(s[..n]) + {s[n]}
  {
    assert s[..n + 1] == s[..n] + [s[n]];
  }

  /** One round: every group listing something on the frontier that was not seen before. */
  method ExpandUp<D(==, !new), C(==, !new)>(ghost groups: seq<Group<D, C>>, parents: map<D, seq<Group<D, C>>>,
                                            ghost dn: D,
                                     frontier: seq<D>, seen0: set<D>, found0: map<C, Group<D, C>>)
    returns (seen: set<D>, found: map<C, Group<D, C>>, next: seq<D>)
    requires Distinct(groups) && IsParentIndex(parents, groups)
    requires Collected(groups, dn, seen0, found0) && dn in seen0
    ensures Expanded(Up(groups), seen0, Elements(frontier), seen)
    ensures Collected(groups, dn, seen, found) && Elements(next) == seen - seen0
  {
    seen, found, next := seen0, found0, [];
    for n := 0 to |frontier|
      invariant Expanded(Up(groups), seen0, Elements(frontier[..n]), seen)
      invariant Collected(groups, dn, seen, found) && Elements(next) == seen - seen0
    {
      ElementsUpTo(frontier, n);
      seen, found, next :=
        ExpandOne(groups, parents, dn, Elements(frontier[..n]), frontier[n], seen0, seen, found, next);
    }
    assert frontier[..|frontier|] == frontier;
  }

  method ExpandOne<D(==, !new), C(==, !new)>(ghost groups: seq<Group<D, C>>, parents: map<D, seq<Group<D, C>>>,
                                             ghost dn: D,
                                     ghost done: set<D>, current: D,
                                     ghost seen0: set<D>, seen1: set<D>, found1: map<C, Group<D, C>>, next1: seq<D>)
    returns (seen: set<D>, found: map<C, Group<D, C>>, next: seq<D>)
    requires Distinct(groups) && IsParentIndex(parents, groups) && dn in seen0
    requires Expanded(Up(groups), seen0, done, seen1)
    requires Collected(groups, dn, seen1, found1) && Elements(next1) == seen1 - seen0
    ensures Expanded(Up(groups), seen0, done + {current}, seen)
    ensures Collected(groups, dn, seen, found) && Elements(next) == seen - seen0
  {
    seen, found, next := seen1, found1, next1;
    var above := ParentsOf(parents, current);
    for k := 0 to |above|
      invariant seen1 <= seen && forall j :: 0 <= j < k ==> above[j].dn in seen
      invariant forall z :: z in seen && z !in seen1 ==> (current, z) in Up(groups)
      invariant Collected(groups, dn, seen, found) && Elements(next) == seen - seen0
    {
      var group := above[k];
      assert group in above && group in groups && current in group.members;
      if group.dn in seen { continue; }
      ElementsSnoc(next, group.dn);
      CollectOne(groups, dn, seen, found, group);
      seen := seen + {group.dn};
      found := found[group.cn := group];
      next := next + [group.dn];
    }
    forall z | (current, z) in Up(groups)
      ensures z in seen
    {
      var g :| g in groups && current in g.members && g.dn == z;
      assert g in ParentsOf(parents, current);
      var j :| 0 <= j < |above| && above[j] == g;
    }
  }

  lemma CollectOne<D(!new), C(!new)>(groups: seq<Group<D, C>>, dn: D, seen: set<D>, found: map<C, Group<D, C>>,
                                     g: Group<D, C>)
    requires Distinct(groups) && g in groups && g.dn !in seen && dn in seen && Collected(groups, dn, seen, found)
    ensures Collected(groups, dn, seen + {g.dn}, found[g.cn := g])
  {
  }

  // ----- closureDown -----

  /** Membership downward: from a group to each of its members. */
  ghost function Down<D(!new), C(!new)>(groups: seq<Group<D, C>>): set<(D, D)>
  {
    Reverse(Up(groups))
  }

  /** The arrows that lead from a group to a group. */
  ghost function Nesting<D(!new), C(!new)>(groups: seq<Group<D, C>>): set<(D, D)>
  {
    set a | a in Down(groups) && a.1 in Dns(groups)
  }

  lemma DownArrow<D(!new), C(!new)>(groups: seq<Group<D, C>>, g: Group<D, C>, m: D)
    requires Distinct(groups) && g in groups
    ensures (g.dn, m) in Down(groups) <==> m in g.members
  {
    if m in g.members {
      assert (m, g.dn) in Up(groups);
      assert ((m, g.dn).1, (m, g.dn).0) in Down(groups);
    }
    if (g.dn, m) in Down(groups) {
      var a :| a in Up(groups) && (a.1, a.0) == (g.dn, m);
    }
  }

  lemma OnlyGroupsHaveMembers<D(!new), C(!new)>(groups: seq<Group<D, C>>, x: D, y: D)
    requires (x, y) in Down(groups)
    ensures x in Dns(groups)
  {
    var a :| a in Up(groups) && (a.1, a.0) == (x, y);
  }

  lemma {:induction false} StepsAreNesting<D(!new), C(!new)>(groups: seq<Group<D, C>>, n: nat, x: D, y: D)
    requires y in Dns(groups)
    ensures Steps(Down(groups), n, x, y) <==> Steps(Nesting(groups), n, x, y)
    decreases n
  {
    if n > 0 {
      if z :| (x, z) in Down(groups) && Steps(Down(groups), n - 1, z, y) {
        StepsAreNesting(groups, n - 1, z, y);
        if n > 1 {
          var w :| (z, w) in Down(groups) && Steps(Down(groups), n - 2, w, y);
          OnlyGroupsHaveMembers(groups, z, w);
        }
        assert (x, z) in Nesting(groups);
      }
      if z :| (x, z) in Nesting(groups) && Steps(Nesting(groups), n - 1, z, y) {
        StepsAreNesting(groups, n - 1, z, y);
      }
    }
  }

  lemma WithinIsNesting<D(!new), C(!new)>(groups: seq<Group<D, C>>, cap: nat, x: D, y: D)
    requires y in Dns(groups)
    ensures Within(Down(groups), cap, x, y) <==> Within(Nesting(groups), cap, x, y)
  {
    if n: nat :| n <= cap && Steps(Down(groups), n, x, y) {
      StepsAreNesting(groups, n, x, y);
    }
    if n: nat :| n <= cap && Steps(Nesting(groups), n, x, y) {
      StepsAreNesting(groups, n, x, y);
    }
  }

  /** The members that are not groups, of the groups in `expanded`. */
  ghost predicate AreUsersOf<D(!new), C(!new)>(groups: seq<Group<D, C>>, expanded: set<D>, users: set<D>)
  {
    forall m :: m in users <==> m !in Dns(groups) && exists y :: y in expanded && (y, m) in Down(groups)
  }

  /** Once the walk has ended, the users collected are those within the cap. */
  lemma UsersWithin<D(!new), C(!new)>(groups: seq<Group<D, C>>, g: D, depth: nat, cap: nat, expanded: set<D>,
                                      users: set<D>)
    requires g in Dns(groups) && AreUsersOf(groups, expanded, users) && depth <= cap
    requires depth == 0 ==> expanded == {}
    requires depth > 0 ==> forall y :: y in expanded <==> Within(Nesting(groups), depth - 1, g, y)
    requires depth == cap || (depth > 0 && Closed(Nesting(groups), expanded))
    ensures forall m :: m in users <==> m !in Dns(groups) && Within(Down(groups), cap, g, m)
  {
    forall m
      ensures m in users <==> m !in Dns(groups) && Within(Down(groups), cap, g, m)
    {
      if m in users {
        var y :| y in expanded && (y, m) in Down(groups);
        MemberWithin(groups, g, depth, y, m);
        var n: nat :| n <= depth && Steps(Down(groups), n, g, m);
        assert n <= cap;
      }
      if m !in Dns(groups) && Within(Down(groups), cap, g, m) {
        var y, n := LastGroup(groups, g, cap, m);
        if depth == cap {
          assert Within(Nesting(groups), depth - 1, g, y);
        } else {
          assert Steps(Nesting(groups), 0, g, g) && Within(Nesting(groups), depth - 1, g, g);
          ClosedSteps(Nesting(groups), expanded, n, g, y);
        }
      }
    }
  }

  lemma MemberWithin<D(!new), C(!new)>(groups: seq<Group<D, C>>, g: D, depth: nat, y: D, m: D)
    requires depth > 0 && Within(Nesting(groups), depth - 1, g, y) && (y, m) in Down(groups)
    ensures Within(Down(groups), depth, g, m)
  {
    var n: nat :| n <= depth - 1 && Steps(Nesting(groups), n, g, y);
    OnlyGroupsHaveMembers(groups, y, m);
    StepsAreNesting(groups, n, g, y);
    StepsSnoc(Down(groups), n, g, y, m);
  }

  lemma LastGroup<D(!new), C(!new)>(groups: seq<Group<D, C>>, g: D, cap: nat, m: D) returns (y: D, n: nat)
    requires g in Dns(groups) && m !in Dns(groups) && Within(Down(groups), cap, g, m)
    ensures n < cap && Steps(Nesting(groups), n, g, y) && (y, m) in Down(groups)
  {
    var k: nat :| k <= cap && Steps(Down(groups), k, g, m);
    y := StepsUnsnoc(Down(groups), k, g, m);
    n := k - 1;
    OnlyGroupsHaveMembers(groups, y, m);
    StepsAreNesting(groups, n, g, y);
  }

  ghost predicate IsByDn<D(!new), C(!new)>(byDn: map<D, Group<D, C>>, groups: seq<Group<D, C>>)
  {
    && byDn.Keys == Dns(groups)
    && forall d :: d in byDn ==> byDn[d] in groups && byDn[d].dn == d
  }

  method BuildByDn<D(==, !new), C(!new)>(groups: seq<Group<D, C>>) returns (byDn: map<D, Group<D, C>>)
    ensures IsByDn(byDn, groups)
  {
    byDn := map[];
    for n := 0 to |groups|
      invariant IsByDn(byDn, groups[..n])
    {
      assert groups[..n + 1] == groups[..n] + [groups[n]];
      byDn := byDn[groups[n].dn := groups[n]];
    }
    assert groups[..|groups|] == groups;
  }

  /** `closureDown`: the users and the groups within `cap` memberships below `group`. */
  method ClosureDown<D(==, !new), C(==, !new)>(group: Group<D, C>, groups: seq<Group<D, C>>, cap: nat)
    returns (users: set<D>, nested: map<C, Group<D, C>>)
    requires Distinct(groups) && group in groups
    ensures forall m :: m in users <==> m !in Dns(groups) && Within(Down(groups), cap, group.dn, m)
    ensures forall h | h in groups ::
      (h.cn in nested && nested[h.cn] == h) <==> h.dn != group.dn && Within(Down(groups), cap, group.dn, h.dn)
    ensures forall c | c in nested :: nested[c] in groups && nested[c].cn == c
  {
    var byDn := BuildByDn(groups);
    users, nested := {}, map[];
    var seen, frontier := {group.dn}, [group];
    ghost var expanded: set<D> := {};
    var depth := 0;
    RoundStarts(Nesting(groups), group.dn);
    assert DnsOf(frontier) == {group.dn};
    while depth < cap && |frontier| > 0
      invariant depth <= cap && group.dn in seen
      invariant Round(Nesting(groups), group.dn, depth, seen, DnsOf(frontier)) && DnsOf(frontier) == seen - expanded
      invariant forall g :: g in frontier ==> g in groups
      invariant Collected(groups, group.dn, seen, nested) && AreUsersOf(groups, expanded, users) && expanded <= seen
      invariant depth == 0 ==> expanded == {}
      invariant depth > 0 ==> forall y :: y in expanded <==> Within(Nesting(groups), depth - 1, group.dn, y)
    {
      ghost var before := seen;
      var next: seq<Group<D, C>>;
      seen, users, nested, next := ExpandDown(groups, byDn, group.dn, expanded, frontier, seen, users, nested);
      RoundGoesOn(Nesting(groups), group.dn, depth, before, DnsOf(frontier), seen);
      expanded := before;
      frontier := next;
      depth := depth + 1;
    }
    if |frontier| == 0 {
      assert DnsOf(frontier) == {};
    }
    RoundEnds(Nesting(groups), group.dn, depth, cap, seen, DnsOf(frontier));
    UsersWithin(groups, group.dn, depth, cap, expanded, users);
    forall h | h in groups
      ensures (h.cn in nested && nested[h.cn] == h) <==> h.dn != group.dn && Within(Down(groups), cap, group.dn, h.dn)
    {
      WithinIsNesting(groups, cap, group.dn, h.dn);
    }
  }

  ghost function DnsOf<D(!new), C(!new)>(s: seq<Group<D, C>>): set<D>
  {
    set g | g in s :: g.dn
  }

  lemma DnsOfSnoc<D(!new), C(!new)>(s: seq<Group<D, C>>, g: Group<D, C>)
    ensures DnsOf(s + [g]) == DnsOf(s) + {g.dn}
  {
  }

  lemma DnsOfUpTo<D(!new), C(!new)>(s: seq<Group<D, C>>, n: nat)
    requires n < |s|
    ensures DnsOf(s[..n + 1]) == DnsOf(s[..n]) + {s[n].dn}
  {
    assert s[..n + 1] == s[..n] + [s[n]];
  }

  /** One round: the members of every group on the frontier, groups not seen before apart from users. */
  method ExpandDown<D(==, !new), C(==, !new)>(ghost groups: seq<Group<D, C>>, byDn: map<D, Group<D, C>>, ghost dn: D,
                                       ghost expanded: set<D>, frontier: seq<Group<D, C>>,
                                       seen0: set<D>, users0: set<D>, nested0: map<C, Group<D, C>>)
    returns (seen: set<D>, users: set<D>, nested: map<C, Group<D, C>>, next: seq<Group<D, C>>)
    requires Distinct(groups) && IsByDn(byDn, groups) && dn in seen0
    requires forall g :: g in frontier ==> g in groups
    requires Collected(groups, dn, seen0, nested0) && AreUsersOf(groups, expanded, users0)
    ensures Expanded(Nesting(groups), seen0, DnsOf(frontier), seen)
    ensures Collected(groups, dn, seen, nested) && AreUsersOf(groups, expanded + DnsOf(frontier), users)
    ensures DnsOf(next) == seen - seen0 && forall g :: g in next ==> g in groups
  {
    seen, users, nested, next := seen0, users0, nested0, [];
    assert expanded + DnsOf(frontier[..0]) == expanded;
    for n := 0 to |frontier|
      invariant Expanded(Nesting(groups), seen0, DnsOf(frontier[..n]), seen)
      invariant Collected(groups, dn, seen, nested) && AreUsersOf(groups, expanded + DnsOf(frontier[..n]), users)
      invariant DnsOf(next) == seen - seen0 && forall g :: g in next ==> g in groups
    {
      DnsOfUpTo(frontier, n);
      ghost var done := DnsOf(frontier[..n]);
      seen, users, nested, next :=
        ExpandMembers(groups, byDn, dn, expanded, done, frontier[n], seen0, seen, users, nested, next);
      assert expanded + (done + {frontier[n].dn}) == expanded + done + {frontier[n].dn};
    }
    assert frontier[..|frontier|] == frontier;
  }

  method ExpandMembers<D(==, !new), C(==, !new)>(
      ghost groups: seq<Group<D, C>>, byDn: map<D, Group<D, C>>, ghost dn: D, ghost expanded: set<D>,
      ghost done: set<D>, current: Group<D, C>, ghost seen0: set<D>, seen1: set<D>, users1: set<D>,
      nested1: map<C, Group<D, C>>, next1: seq<Group<D, C>>)
    returns (seen: set<D>, users: set<D>, nested: map<C, Group<D, C>>, next: seq<Group<D, C>>)
    requires Distinct(groups) && IsByDn(byDn, groups) && dn in seen0 && current in groups
    requires Expanded(Nesting(groups), seen0, done, seen1) && AreUsersOf(groups, expanded + done, users1)
    requires Collected(groups, dn, seen1, nested1)
    requires DnsOf(next1) == seen1 - seen0 && forall g :: g in next1 ==> g in groups
    ensures Expanded(Nesting(groups), seen0, done + {current.dn}, seen)
    ensures Collected(groups, dn, seen, nested) && AreUsersOf(groups, expanded + done + {current.dn}, users)
    ensures DnsOf(next) == seen - seen0 && forall g :: g in next ==> g in groups
  {
    seen, users, nested, next := seen1, users1, nested1, next1;
    for k := 0 to |current.members|
      invariant seen1 <= seen && users1 <= users
      invariant forall j :: 0 <= j < k ==>
        var m := current.members[j]; if m in Dns(groups) then m in seen else m in users
      invariant forall z :: z in seen && z !in seen1 ==> (current.dn, z) in Nesting(groups)
      invariant forall m :: m in users && m !in users1 ==> m in current.members && m !in Dns(groups)
      invariant Collected(groups, dn, seen, nested)
      invariant DnsOf(next) == seen - seen0 && forall g :: g in next ==> g in groups
    {
      var key := current.members[k];
      DownArrow(groups, current, key);
      if key in byDn {
        if key in seen { continue; }
        var asGroup := byDn[key];
        DnsOfSnoc(next, asGroup);
        CollectOne(groups, dn, seen, nested, asGroup);
        seen := seen + {key};
        nested := nested[asGroup.cn := asGroup];
        next := next + [asGroup];
      } else {
        users := users + {key};
      }
    }
    MembersDone(groups, expanded + done, current, users1, users);
    MembersSeen(groups, current, seen);
  }

  lemma MembersSeen<D(!new), C(!new)>(groups: seq<Group<D, C>>, current: Group<D, C>, seen: set<D>)
    requires Distinct(groups) && current in groups
    requires forall m :: m in current.members && m in Dns(groups) ==> m in seen
    ensures forall z :: (current.dn, z) in Nesting(groups) ==> z in seen
  {
    forall z | (current.dn, z) in Nesting(groups)
      ensures z in seen
    {
      DownArrow(groups, current, z);
    }
  }

  lemma MembersDone<D(!new), C(!new)>(groups: seq<Group<D, C>>, expanded: set<D>, current: Group<D, C>, users1: set<D>,
                                      users: set<D>)
    requires Distinct(groups) && current in groups && AreUsersOf(groups, expanded, users1) && users1 <= users
    requires forall m :: m in current.members && m !in Dns(groups) ==> m in users
    requires forall m :: m in users && m !in users1 ==> m in current.members && m !in Dns(groups)
    ensures AreUsersOf(groups, expanded + {current.dn}, users)
  {
    forall m
      ensures m in users <==> m !in Dns(groups) && exists y :: y in expanded + {current.dn} && (y, m) in Down(groups)
    {
      DownArrow(groups, current, m);
      if m in users1 {
        var y :| y in expanded && (y, m) in Down(groups);
        assert y in expanded + {current.dn};
      } else if m in users {
        assert current.dn in expanded + {current.dn} && (current.dn, m) in Down(groups);
      }
    }
  }

  // ----- duality, cycles and the cap -----

  lemma WithinReverse<D(!new), C(!new)>(groups: seq<Group<D, C>>, cap: nat, x: D, y: D)
    ensures Within(Up(groups), cap, x, y) <==> Within(Down(groups), cap, y, x)
  {
    if n: nat :| n <= cap && Steps(Up(groups), n, x, y) {
      StepsReverse(Up(groups), n, x, y);
    }
    if n: nat :| n <= cap && Steps(Down(groups), n, y, x) {
      StepsReverse(Down(groups), n, y, x);
      ReverseTwice(Up(groups));
    }
  }

  lemma ReverseTwice<T(!new)>(r: set<(T, T)>)
    ensures Reverse(Reverse(r)) == r
  {
    forall a
      ensures a in r <==> a in Reverse(Reverse(r))
    {
      if a in r {
        assert (a.1, a.0) in Reverse(r);
        assert ((a.1, a.0).1, (a.1, a.0).0) in Reverse(Reverse(r));
      }
      if a in Reverse(Reverse(r)) {
        var b :| b in Reverse(r) && (b.1, b.0) == a;
        var c :| c in r && (c.1, c.0) == b;
      }
    }
  }

  /** The two closures answer the same question from its two ends: who is effectively in `g`, and what
      `u` is effectively in. */
  method Dual<D(==, !new), C(==, !new)>(groups: seq<Group<D, C>>, g: Group<D, C>, u: D, cap: nat)
    returns (down: bool, up: bool)
    requires Distinct(groups) && g in groups && u != g.dn
    ensures down == up == Within(Up(groups), cap, u, g.dn)
  {
    var users, nested := ClosureDown(g, groups, cap);
    var found := ClosureUp(u, groups, cap);
    down := u in users || exists c | c in nested :: nested[c].dn == u;
    up := g.cn in found && found[g.cn] == g;
    WithinReverse(groups, cap, u, g.dn);
    if u in Dns(groups) {
      var h :| h in groups && h.dn == u;
      assert h.cn in nested && nested[h.cn] == h ==> exists c :: c in nested && nested[c].dn == u;
    }
  }

  /** `Group.wouldCycle`, for a parent looked up by common name and a child by distinguished name. */
  method WouldCycle<D(==, !new), C(==, !new)>(parentCn: C, childDn: D, groups: seq<Group<D, C>>, cap: nat)
    returns (r: bool)
    requires Distinct(groups)
    ensures forall p | p in groups && p.cn == parentCn ::
      r <==> p.dn == childDn || (childDn in Dns(groups) && Within(Up(groups), cap, p.dn, childDn))
    ensures (forall p | p in groups :: p.cn != parentCn) ==> !r
  {
    var parent := FindGroup(groups, (g: Group<D, C>) => g.cn == parentCn);
    if parent == None { return false; }
    if parent.value.dn == childDn { return true; }
    var child := FindGroup(groups, (g: Group<D, C>) => g.dn == childDn);
    if child == None { return false; }
    var users, nested := ClosureDown(child.value, groups, cap);
    WithinReverse(groups, cap, parent.value.dn, childDn);
    r := exists c | c in nested :: nested[c].dn == parent.value.dn;
    var p := parent.value;
    assert p.cn in nested && nested[p.cn] == p ==> exists c :: c in nested && nested[c].dn == p.dn;
  }

  method FindGroup<D, C>(groups: seq<Group<D, C>>, f: Group<D, C> -> bool) returns (g: Option<Group<D, C>>)
    ensures g.Some? ==> g.value in groups && f(g.value)
    ensures g.None? ==> forall h :: h in groups ==> !f(h)
  {
    for n := 0 to |groups|
      invariant forall k :: 0 <= k < n ==> !f(groups[k])
    {
      if f(groups[n]) { return Some(groups[n]); }
    }
    return None;
  }

  /** On an acyclic directory the answer of `wouldCycle` for two groups is the right one exactly when the
      parent, if it is a member of the child at all, is one within the depth cap. */
  lemma CycleTestIff<D(!new), C(!new)>(groups: seq<Group<D, C>>, cap: nat, parent: D, child: D)
    requires Acyclic(Up(groups))
    ensures (Within(Up(groups), cap, parent, child) <==> !Acyclic(Up(groups) + {(child, parent)}))
       <==> (Reach(Up(groups), parent, child) ==> Within(Up(groups), cap, parent, child))
  {
    AddArrowAcyclic(Up(groups), child, parent);
    if n: nat :| n <= cap && Steps(Up(groups), n, parent, child) {
      assert Reach(Up(groups), parent, child);
    }
  }

  /** Groups 0 to `n`, each listing the one before it. */
  function Chain(n: nat): seq<Group<int, int>>
  {
    seq(n + 1, k requires 0 <= k <= n => Group(k, k, if k == 0 then [] else [k - 1]))
  }

  lemma ChainArrows(n: nat, x: int, y: int)
    ensures (x, y) in Up(Chain(n)) <==> y == x + 1 && 0 < y <= n
  {
    if y == x + 1 && 0 < y <= n {
      var g := Chain(n)[y];
      assert g in Chain(n) && x in g.members;
    }
  }

  lemma {:induction false} ChainSteps(n: nat, k: nat, x: int)
    requires 0 <= x && x + k <= n
    ensures Steps(Up(Chain(n)), k, x, x + k)
    decreases k
  {
    if k > 0 {
      ChainArrows(n, x, x + 1);
      ChainSteps(n, k - 1, x + 1);
    }
  }

  lemma {:induction false} ChainReach(n: nat, k: nat, x: int, y: int)
    requires Steps(Up(Chain(n)), k, x, y)
    ensures y == x + k
    decreases k
  {
    if k > 0 {
      var z :| (x, z) in Up(Chain(n)) && Steps(Up(Chain(n)), k - 1, z, y);
      ChainArrows(n, x, z);
      ChainReach(n, k - 1, z, y);
    }
  }

  /** Whatever the cap, a chain of nestings one longer is enough for `wouldCycle` to let a cycle close:
      the groups are acyclic, the top one is out of the bottom one's reach, and nesting it there closes
      a cycle. */
  lemma BeyondTheCap(cap: nat)
    ensures var groups := Chain(cap + 1);
      && Distinct(groups) && 0 in Dns(groups) && cap + 1 in Dns(groups) && Acyclic(Up(groups))
      && !Within(Up(groups), cap, 0, cap + 1)
      && !Acyclic(Up(groups) + {(cap + 1, 0)})
  {
    var groups := Chain(cap + 1);
    ChainIsDistinct(cap + 1);
    ChainAcyclic(cap + 1);
    if Within(Up(groups), cap, 0, cap + 1) {
      var n: nat :| n <= cap && Steps(Up(groups), n, 0, cap + 1);
      ChainReach(cap + 1, n, 0, cap + 1);
    }
    ChainSteps(cap + 1, cap + 1, 0);
    AddArrowAcyclic(Up(groups), cap + 1, 0);
  }

  lemma ChainIsDistinct(n: nat)
    ensures Distinct(Chain(n)) && 0 in Dns(Chain(n)) && n in Dns(Chain(n))
  {
    assert Chain(n)[0] in Chain(n) && Chain(n)[n] in Chain(n);
  }

  lemma ChainAcyclic(n: nat)
    ensures Acyclic(Up(Chain(n)))
  {
    forall a, b | (a, b) in Up(Chain(n))
      ensures a < b
    {
      ChainArrows(n, a, b);
    }
    RankedAcyclic(Up(Chain(n)), (k: int) => k);
  }
}

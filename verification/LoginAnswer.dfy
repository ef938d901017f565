/** Who may log in to a host, in the levels, names and rows themselves. */
module LoginAnswer {
  import opened Graph
  import opened Directory
  import opened AccessInheritance
  import opened AccessLevels

  /** `level` is one of these, however its ASCII letters are cased. */
  ghost predicate IsLevel(level: Level, names: set<string>)
  {
    level.Some? && exists name :: name in names && SameLetters(level.value, name)
  }

  lemma NamesAreLower()
    ensures Lower("access") == "access" && Lower("admin") == "admin" && Lower("owner") == "owner"
    ensures Lower("viewer") == "viewer" && Lower("member") == "member"
  {
  }

  /** The ranks: from viewer and member over access and admin to owner. */
  lemma RankIs(level: Level)
    ensures RankOf(level) >= 4 <==> IsLevel(level, {"owner"})
    ensures RankOf(level) >= 3 <==> IsLevel(level, {"owner", "admin"})
    ensures RankOf(level) >= 2 <==> IsLevel(level, {"owner", "admin", "access"})
    ensures RankOf(level) >= 1 <==> IsLevel(level, {"owner", "admin", "access", "member", "viewer"})
  {
    NamesAreLower();
    if level.Some? {
      forall name: string
        ensures SameLetters(level.value, name) <==> Lower(level.value) == Lower(name)
      {
        SameLettersIff(level.value, name);
      }
      assert RankOf(level) == if Lower(level.value) in LEVEL_RANK then LEVEL_RANK[Lower(level.value)] else 0;
    }
  }

  /** `everyone`, of the directory or of a site. */
  ghost predicate IsRoster(cn: string)
  {
    cn == "everyone" || exists site: string :: cn == site + "_everyone"
  }

  lemma RosterIff(cn: string)
    ensures IsRoster(cn) <==> IsMetaGroup(cn)
  {
    if EndsWith(cn, "_everyone") {
      assert cn == cn[..|cn| - 9] + "_everyone";
    }
  }

  /** Among the first `n`, the row is the last to link its group to its resource, and names both. */
  predicate IsLastRow(links: seq<Link>, n: nat, i: int)
    requires n <= |links|
  {
    && 0 <= i < n && links[i].groupCn != "" && links[i].resourceId != ""
    && forall j :: i < j < n ==> links[j].groupCn != links[i].groupCn || links[j].resourceId != links[i].resourceId
  }

  ghost predicate LetsInBy(links: seq<Link>, edges: seq<Edge>, cn: string, host: Id, i: int)
  {
    && IsLastRow(links, |links|, i) && links[i].groupCn == cn
    && IsLevel(links[i].level, {"owner", "admin", "access"}) && Reach(Down(edges), links[i].resourceId, host)
  }

  /** The group's members may log in to the host: the last row that links it to some row at or above the host gives
      access, admin or owner. */
  ghost predicate LetsIn(links: seq<Link>, edges: seq<Edge>, cn: string, host: Id)
  {
    !IsRoster(cn) && exists i :: LetsInBy(links, edges, cn, host, i)
  }

  lemma {:induction false} LastLevelIs(links: seq<Link>, n: nat, cn: string, id: Id, i: nat)
    requires i < n <= |links| && IsLastRow(links, n, i) && links[i].groupCn == cn && links[i].resourceId == id
    ensures LastLevel(links, n, cn, id) == Some(links[i].level)
    decreases n
  {
    if i < n - 1 {
      LastLevelIs(links, n - 1, cn, id, i);
    }
  }

  lemma {:induction false} LastLevelHasRow(links: seq<Link>, n: nat, cn: string, id: Id) returns (i: nat)
    requires n <= |links| && cn != "" && id != "" && LastLevel(links, n, cn, id).Some?
    ensures i < n && IsLastRow(links, n, i) && links[i].groupCn == cn && links[i].resourceId == id
    ensures LastLevel(links, n, cn, id) == Some(links[i].level)
    decreases n
  {
    if links[n - 1].groupCn == cn && links[n - 1].resourceId == id {
      i := n - 1;
    } else {
      i := LastLevelHasRow(links, n - 1, cn, id);
    }
  }

  /** Rows without a group or a resource answer for none. */
  lemma {:induction false} CompleteAnswers(links: seq<Link>, n: nat, cn: string, id: Id)
    requires n <= |links| && cn != "" && id != ""
    ensures LastLevel(Complete(links[..n]), |Complete(links[..n])|, cn, id) == LastLevel(links, n, cn, id)
    decreases n
  {
    if n > 0 {
      CompleteAnswers(links, n - 1, cn, id);
      var l, before := links[n - 1], Complete(links[..n - 1]);
      CompleteSnoc(links, n);
      LastLevelPrefix(before, l, |before|, cn, id);
    }
  }

  lemma CompleteSnoc(links: seq<Link>, n: nat)
    requires 0 < n <= |links|
    ensures var l, before := links[n - 1], Complete(links[..n - 1]);
      Complete(links[..n]) == if l.groupCn != "" && l.resourceId != "" then before + [l] else before
  {
    assert (links[..n])[..n - 1] == links[..n - 1];
  }

  lemma {:induction false} LastLevelPrefix(links: seq<Link>, l: Link, n: nat, cn: string, id: Id)
    requires n <= |links|
    ensures LastLevel(links + [l], n, cn, id) == LastLevel(links, n, cn, id)
    decreases n
  {
    if n > 0 {
      LastLevelPrefix(links, l, n - 1, cn, id);
    }
  }

  lemma {:induction false} BlankIsNowhere(links: seq<Link>, n: nat, cn: string, id: Id)
    requires n <= |links| && (cn == "" || id == "") && forall l :: l in links ==> l.groupCn != "" && l.resourceId != ""
    ensures LastLevel(links, n, cn, id) == None
    decreases n
  {
    if n > 0 {
      assert links[n - 1] in links;
      BlankIsNowhere(links, n - 1, cn, id);
    }
  }

  /** The row that counts for a group and a resource grants login exactly when it is the last for them, names both and
      gives one of the three levels. */
  lemma GrantsIff(links: seq<Link>, cn: string, id: Id)
    ensures GroupGrants(AccessScale(), Complete(links), cn, id, LOGIN_RANK)
       <==> exists i :: IsLastRow(links, |links|, i) && links[i].groupCn == cn && links[i].resourceId == id
              && IsLevel(links[i].level, {"owner", "admin", "access"})
  {
    var complete := Complete(links);
    assert links[..|links|] == links;
    if cn == "" || id == "" {
      BlankIsNowhere(complete, |complete|, cn, id);
    } else {
      CompleteAnswers(links, |links|, cn, id);
      var last := LastLevel(links, |links|, cn, id);
      if last.Some? {
        var i := LastLevelHasRow(links, |links|, cn, id);
        RankIs(last.value);
      }
      forall i | IsLastRow(links, |links|, i) && links[i].groupCn == cn && links[i].resourceId == id
        ensures last == Some(links[i].level)
      {
        LastLevelIs(links, |links|, cn, id, i);
      }
    }
  }

  /** The groups `buildNodeIAM` lists for a host are those that let their members in. */
  lemma LoginGroupsAre(links: seq<Link>, edges: seq<Edge>, host: Id, cns: set<string>)
    requires forall cn, m | IsGroupMap(Complete(links), |Complete(links)|, cn, m) ::
      cn in cns <==> !IsMetaGroup(cn) && Reaches(AccessScale(), m, Down(edges), host, LOGIN_RANK)
    ensures forall cn :: cn in cns <==> LetsIn(links, edges, cn, host)
  {
    forall cn
      ensures cn in cns <==> LetsIn(links, edges, cn, host)
    {
      RosterIff(cn);
      ListedGroup(AccessScale(), Complete(links), Down(edges), host, LOGIN_RANK, cns, cn);
      GroupLetsIn(links, edges, cn, host);
    }
  }

  lemma GroupLetsIn(links: seq<Link>, edges: seq<Edge>, cn: string, host: Id)
    ensures (exists a :: GroupGrants(AccessScale(), Complete(links), cn, a, LOGIN_RANK) && Reach(Down(edges), a, host))
       <==> exists i :: LetsInBy(links, edges, cn, host, i)
  {
    forall a
      ensures GroupGrants(AccessScale(), Complete(links), cn, a, LOGIN_RANK)
         <==> exists i :: IsLastRow(links, |links|, i) && links[i].groupCn == cn && links[i].resourceId == a
                && IsLevel(links[i].level, {"owner", "admin", "access"})
    {
      GrantsIff(links, cn, a);
    }
    if a :| GroupGrants(AccessScale(), Complete(links), cn, a, LOGIN_RANK) && Reach(Down(edges), a, host) {
      var i :| IsLastRow(links, |links|, i) && links[i].groupCn == cn && links[i].resourceId == a
        && IsLevel(links[i].level, {"owner", "admin", "access"});
      assert LetsInBy(links, edges, cn, host, i);
    }
    if i :| LetsInBy(links, edges, cn, host, i) {
      assert GroupGrants(AccessScale(), Complete(links), cn, links[i].resourceId, LOGIN_RANK);
    }
  }

  // ----- the caller's own view -----

  /** A row of a group held, no roster, that gives the caller access, admin, owner or, blank, access. */
  ghost predicate HeldRow(links: seq<Link>, held: set<string>, i: int)
  {
    && 0 <= i < |links| && links[i].groupCn in held && !IsRoster(links[i].groupCn)
    && (links[i].level in {None, Some("")} || IsLevel(links[i].level, {"owner", "admin", "access"}))
  }

  /** What a caller is shown: login to the hosts at or below a row that some group held gives access to. */
  lemma ViewedIs(links: seq<Link>, edges: seq<Edge>, held: set<string>, host: Id)
    ensures RowReaches(AccessScale(), links, held, Down(edges), host, LOGIN_RANK)
       <==> exists i :: HeldRow(links, held, i) && Reach(Down(edges), links[i].resourceId, host)
  {
    NamesAreLower();
    forall i | 0 <= i < |links|
      ensures HeldRow(links, held, i)
         <==> Counts(links[i], held, false) && RankOf(LevelOrAccess(links[i].level)) >= LOGIN_RANK
    {
      RosterIff(links[i].groupCn);
      RankIs(links[i].level);
    }
  }
}

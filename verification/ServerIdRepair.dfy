/** Repairing a registry in which several spokes hold one LDAP ServerID, as a database written before ids
    had to be unique may have it: the oldest row of each id keeps it, and the rest are moved to free ids, one
    after the other. Rows without an id are left alone, and no id of the master's is handed out.
  */
module ServerIdRepair {
  import opened Directory
  import opened SpokeRegistry

  /** Rows are compared by age, then by id; `place` is where an id stands in collation order. */
  predicate Older(a: Spoke, b: Spoke, place: Id -> int)
  {
    a.createdOn < b.createdOn || (a.createdOn == b.createdOn && place(a.id) < place(b.id))
  }

  /** Different rows are never equally old. */
  ghost predicate Ordered(rows: seq<Spoke>, place: Id -> int)
  {
    forall i, j :: 0 <= i < j < |rows| ==> place(rows[i].id) != place(rows[j].id)
  }

  predicate Holds(rows: seq<Spoke>, i: int, id: int)
  {
    0 <= i < |rows| && rows[i].serverId == Some(id)
  }

  /** No older row holds the same ServerID. */
  ghost predicate KeepsId(rows: seq<Spoke>, i: int, place: Id -> int)
    requires 0 <= i < |rows|
  {
    rows[i].serverId.Some? ==>
      forall j :: 0 <= j < |rows| && rows[j].serverId == rows[i].serverId ==> !Older(rows[j], rows[i], place)
  }

  ghost predicate DistinctIds(rows: seq<Spoke>)
  {
    forall i, j :: 0 <= i < j < |rows| && rows[i].serverId.Some? ==> rows[i].serverId != rows[j].serverId
  }

  /** Only ServerIDs differ. */
  ghost predicate SameButIds(rows: seq<Spoke>, rows': seq<Spoke>)
  {
    |rows'| == |rows| && forall i :: 0 <= i < |rows| ==> rows'[i] == rows[i].(serverId := rows'[i].serverId)
  }

  /** What the repair promises. */
  ghost predicate Repaired(rows: seq<Spoke>, rows': seq<Spoke>, place: Id -> int)
  {
    && SameButIds(rows, rows')
    && DistinctIds(rows')
    && (forall i :: 0 <= i < |rows| ==> (KeepsId(rows, i, place) <==> rows'[i].serverId == rows[i].serverId))
    && (forall i :: 0 <= i < |rows| && !KeepsId(rows, i, place) ==> LeastFree(rows, rows', i))
  }

  /** Row `i` was given an id above the master's that nobody held, and every smaller one is taken. */
  ghost predicate LeastFree(rows: seq<Spoke>, rows': seq<Spoke>, i: int)
    requires |rows'| == |rows| && 0 <= i < |rows|
  {
    && rows'[i].serverId.Some? && rows'[i].serverId.value >= 2 && rows'[i].serverId.value !in UsedIds(rows)
    && forall m :: 2 <= m < rows'[i].serverId.value ==> m in UsedIds(rows) || m in UsedIds(rows')
  }

  /** Of the rows that shared an id and were moved, an older one has the smaller new id. */
  ghost predicate InAgeOrder(rows: seq<Spoke>, now: seq<Spoke>, moved: set<nat>, place: Id -> int)
    requires |now| == |rows|
  {
    forall i, j :: i in moved && j in moved && OlderTwin(rows, i, j, place)
                   && now[i].serverId.Some? && now[j].serverId.Some? ==>
      now[i].serverId.value < now[j].serverId.value
  }

  predicate OlderTwin(rows: seq<Spoke>, i: nat, j: nat, place: Id -> int)
  {
    i < |rows| && j < |rows| && rows[i].serverId == rows[j].serverId && Older(rows[i], rows[j], place)
  }

  lemma MovedInAgeOrder(rows: seq<Spoke>, now: seq<Spoke>, used: set<int>, moved: set<nat>, i: nat, next: int,
                        place: Id -> int)
    requires Moving(rows, now, used, moved) && i < |rows| && i !in moved && InAgeOrder(rows, now, moved, place)
    requires next >= 2 && next !in used && forall m :: 2 <= m < next ==> m in used
    requires forall j :: j in moved ==> !OlderTwin(rows, i, j, place)
    ensures InAgeOrder(rows, now[i := now[i].(serverId := Some(next))], moved + {i}, place)
  {
    forall j | j in moved
      ensures now[j].serverId.value < next
    {
      assert NewId(rows, used, now[j].serverId.value);
    }
  }

  /** Row `i` was registered before row `j`, or together with it and comes before it by its id. */
  predicate CameBefore(rows: seq<Spoke>, i: nat, j: nat, place: Id -> int)
    requires i < |rows| && j < |rows|
  {
    if rows[i].createdOn == rows[j].createdOn then place(rows[i].id) < place(rows[j].id)
    else rows[i].createdOn < rows[j].createdOn
  }

  /** Who keeps an id: the row that came before all others that hold it; rows without an id stay without. */
  lemma OldestKeeps(rows: seq<Spoke>, rows': seq<Spoke>, place: Id -> int, i: nat)
    requires Ordered(rows, place) && Repaired(rows, rows', place) && i < |rows|
    ensures rows'[i].serverId == rows[i].serverId <==>
      rows[i].serverId == None
      || forall j: nat :: j < |rows| && j != i && rows[j].serverId == rows[i].serverId ==> CameBefore(rows, i, j, place)
  {
    assert KeepsId(rows, i, place) <==> rows'[i].serverId == rows[i].serverId;
    forall j: nat | j < |rows| && j != i
      ensures CameBefore(rows, i, j, place) <==> !Older(rows[j], rows[i], place)
    {
      assert place(rows[i].id) != place(rows[j].id);
    }
  }

  /** Repairing what is already repaired changes nothing. */
  lemma RepairIsIdempotent(rows: seq<Spoke>, once: seq<Spoke>, twice: seq<Spoke>, place: Id -> int)
    requires Repaired(rows, once, place) && Repaired(once, twice, place)
    ensures twice == once
  {
    forall i | 0 <= i < |once|
      ensures twice[i] == once[i]
    {
      DistinctKeepsId(once, i, place);
    }
  }

  lemma DistinctKeepsId(rows: seq<Spoke>, i: nat, place: Id -> int)
    requires DistinctIds(rows) && i < |rows|
    ensures KeepsId(rows, i, place)
  {
    forall j | 0 <= j < |rows| && rows[i].serverId.Some? && rows[j].serverId == rows[i].serverId
      ensures j == i
    {
      if j != i {
        assert false;
      }
    }
  }

  // ----- grouping rows by id -----

  type Groups = map<int, seq<nat>>

  ghost predicate IsGrouping(rows: seq<Spoke>, n: nat, byId: Groups, order: seq<int>)
    requires n <= |rows|
  {
    && (forall id :: id in byId <==> id in order)
    && (forall a, b :: 0 <= a < b < |order| ==> order[a] != order[b])
    && (forall id :: id in byId ==> IsGroup(rows, n, id, byId[id]))
    && (forall i :: 0 <= i < n && rows[i].serverId.Some? ==> rows[i].serverId.value in byId)
  }

  /** `group` lists the holders of `id` among the first `n` rows, each once. */
  ghost predicate IsGroup(rows: seq<Spoke>, n: nat, id: int, group: seq<nat>)
    requires n <= |rows|
  {
    && (forall i :: i in group <==> 0 <= i < n && Holds(rows, i, id))
    && (forall a, b :: 0 <= a < b < |group| ==> group[a] != group[b])
    && group != []
  }

  lemma GroupGrows(rows: seq<Spoke>, n: nat, id: int, group: seq<nat>)
    requires n < |rows|
    ensures IsGroup(rows, n, id, group) ==> IsGroup(rows, n + 1, id, if Holds(rows, n, id) then group + [n] else group)
  {
  }

  lemma GroupingStep(rows: seq<Spoke>, n: nat, byId: Groups, order: seq<int>)
    requires n < |rows| && IsGrouping(rows, n, byId, order)
    ensures rows[n].serverId == None ==> IsGrouping(rows, n + 1, byId, order)
    ensures rows[n].serverId.Some? ==> var id := rows[n].serverId.value;
      if id in byId then IsGrouping(rows, n + 1, byId[id := byId[id] + [n]], order)
      else IsGrouping(rows, n + 1, byId[id := [n]], order + [id])
  {
    forall id | id in byId
      ensures IsGroup(rows, n + 1, id, if Holds(rows, n, id) then byId[id] + [n] else byId[id])
    {
      GroupGrows(rows, n, id, byId[id]);
    }
    if rows[n].serverId.Some? {
      var id := rows[n].serverId.value;
      if id in byId {
        KnownIdStep(rows, n, byId, order, id);
      } else {
        NewIdStep(rows, n, byId, order, id);
      }
    }
  }

  lemma KnownIdStep(rows: seq<Spoke>, n: nat, byId: Groups, order: seq<int>, id: int)
    requires n < |rows| && IsGrouping(rows, n, byId, order) && Holds(rows, n, id) && id in byId
    ensures IsGrouping(rows, n + 1, byId[id := byId[id] + [n]], order)
  {
    forall k | k in byId
      ensures IsGroup(rows, n + 1, k, if k == id then byId[id] + [n] else byId[k])
    {
      GroupGrows(rows, n, k, byId[k]);
    }
  }

  lemma NewIdStep(rows: seq<Spoke>, n: nat, byId: Groups, order: seq<int>, id: int)
    requires n < |rows| && IsGrouping(rows, n, byId, order) && Holds(rows, n, id) && id !in byId
    ensures IsGrouping(rows, n + 1, byId[id := [n]], order + [id])
  {
    forall k | k in byId
      ensures IsGroup(rows, n + 1, k, byId[k])
    {
      GroupGrows(rows, n, k, byId[k]);
    }
    assert IsGroup(rows, n + 1, id, [n]);
  }

  method GroupById(rows: seq<Spoke>) returns (byId: Groups, order: seq<int>)
    ensures IsGrouping(rows, |rows|, byId, order)
  {
    byId, order := map[], [];
    for n := 0 to |rows|
      invariant IsGrouping(rows, n, byId, order)
    {
      GroupingStep(rows, n, byId, order);
      if rows[n].serverId == None { continue; }
      var id := rows[n].serverId.value;
      if id !in byId {
        order := order + [id];
        byId := byId[id := [n]];
      } else {
        byId := byId[id := byId[id] + [n]];
      }
    }
  }

  // ----- sorting a group by age -----

  ghost predicate SortedByAge(rows: seq<Spoke>, group: seq<nat>, place: Id -> int)
  {
    && (forall a :: 0 <= a < |group| ==> group[a] < |rows|)
    && forall a, b :: 0 <= a < b < |group| ==> Older(rows[group[a]], rows[group[b]], place)
  }

  method SortByAge(rows: seq<Spoke>, group: seq<nat>, place: Id -> int) returns (sorted: seq<nat>)
    requires Ordered(rows, place) && forall i :: i in group ==> i < |rows|
    requires forall a, b :: 0 <= a < b < |group| ==> group[a] != group[b]
    ensures SortedByAge(rows, sorted, place) && |sorted| == |group|
    ensures forall i :: i in sorted <==> i in group
  {
    sorted := [];
    for n := 0 to |group|
      invariant SortedByAge(rows, sorted, place) && |sorted| == n
      invariant forall i :: i in sorted <==> i in group[..n]
    {
      assert group[..n + 1] == group[..n] + [group[n]];
      assert group[n] in group && group[n] !in group[..n];
      sorted := InsertByAge(rows, sorted, group[n], place);
    }
    assert group[..|group|] == group;
  }

  method InsertByAge(rows: seq<Spoke>, sorted: seq<nat>, i: nat, place: Id -> int) returns (out: seq<nat>)
    requires Ordered(rows, place) && SortedByAge(rows, sorted, place) && i < |rows| && i !in sorted
    ensures SortedByAge(rows, out, place) && |out| == |sorted| + 1
    ensures forall k :: k in out <==> k in sorted || k == i
  {
    var at := 0;
    while at < |sorted| && Older(rows[sorted[at]], rows[i], place)
      invariant at <= |sorted| && forall a :: 0 <= a < at ==> Older(rows[sorted[a]], rows[i], place)
    {
      at := at + 1;
    }
    out := sorted[..at] + [i] + sorted[at..];
    InsertedIsSorted(rows, sorted, at, i, place);
    assert sorted == sorted[..at] + sorted[at..];
  }

  lemma InsertedIsSorted(rows: seq<Spoke>, sorted: seq<nat>, at: nat, i: nat, place: Id -> int)
    requires Ordered(rows, place) && SortedByAge(rows, sorted, place) && i < |rows| && i !in sorted && at <= |sorted|
    requires forall a :: 0 <= a < at ==> Older(rows[sorted[a]], rows[i], place)
    requires at < |sorted| ==> !Older(rows[sorted[at]], rows[i], place)
    ensures SortedByAge(rows, sorted[..at] + [i] + sorted[at..], place)
  {
    if at < |sorted| {
      assert sorted[at] in sorted;
      assert place(rows[i].id) != place(rows[sorted[at]].id);
    }
  }

  // ----- handing out free ids -----

  /** Somewhere above every member of a finite set. */
  ghost function Above(s: set<int>): (b: int)
    ensures b >= 2 && forall x :: x in s ==> x < b
  {
    if x :| x in s then
      var b := Above(s - {x});
      assert s == (s - {x}) + {x};
      if x >= b then x + 1 else b
    else 2
  }

  method LeastUnused(used: set<int>) returns (next: int)
    ensures next >= 2 && next !in used && forall m :: 2 <= m < next ==> m in used
  {
    next := 2;
    while next in used
      invariant next >= 2 && forall m :: 2 <= m < next ==> m in used
      decreases Above(used) - next
    {
      next := next + 1;
    }
  }

  /** The repair under way: the rows in `moved` have been given ids of their own, each the least free in its turn. */
  ghost predicate Moving(rows: seq<Spoke>, now: seq<Spoke>, used: set<int>, moved: set<nat>)
  {
    && SameButIds(rows, now)
    && (forall i :: i in moved ==> i < |rows| && now[i].serverId.Some?)
    && (forall i :: 0 <= i < |rows| && i !in moved ==> now[i] == rows[i])
    && UsedIds(rows) + {1} <= used
    && (forall i :: i in moved ==> NewId(rows, used, now[i].serverId.value))
    && (forall i, j :: i in moved && j in moved && i != j ==> now[i].serverId != now[j].serverId)
    && (forall m :: m in used ==> m == 1 || m in UsedIds(rows) || HandedOut(now, moved, m))
  }

  ghost predicate NewId(rows: seq<Spoke>, used: set<int>, id: int)
  {
    id >= 2 && id !in UsedIds(rows) && id in used && forall m :: 2 <= m < id ==> m in used
  }

  ghost predicate HandedOut(now: seq<Spoke>, moved: set<nat>, m: int)
  {
    exists i :: i in moved && Holds(now, i, m)
  }

  lemma MoveOne(rows: seq<Spoke>, now: seq<Spoke>, used: set<int>, moved: set<nat>, i: nat, next: int)
    requires Moving(rows, now, used, moved) && i < |rows| && i !in moved
    requires next >= 2 && next !in used && forall m :: 2 <= m < next ==> m in used
    ensures Moving(rows, now[i := now[i].(serverId := Some(next))], used + {next}, moved + {i})
  {
    var now', moved' := now[i := now[i].(serverId := Some(next))], moved + {i};
    forall m | m in used + {next}
      ensures m == 1 || m in UsedIds(rows) || HandedOut(now', moved', m)
    {
      if m == next {
        assert Holds(now', i, m);
      } else if HandedOut(now, moved, m) {
        var k :| k in moved && Holds(now, k, m);
        assert Holds(now', k, m);
      }
    }
  }

  /** Once exactly the rows that do not keep their id have been moved, the registry is repaired. */
  lemma MovedIsRepaired(rows: seq<Spoke>, now: seq<Spoke>, used: set<int>, moved: set<nat>, place: Id -> int)
    requires Ordered(rows, place) && Moving(rows, now, used, moved)
    requires forall i :: 0 <= i < |rows| ==> (i in moved <==> !KeepsId(rows, i, place))
    ensures Repaired(rows, now, place)
  {
    forall i | 0 <= i < |rows| && rows[i].serverId.Some?
      ensures rows[i].serverId.value in UsedIds(rows)
    {
      assert rows[i] in rows;
    }
    forall i, j | 0 <= i < j < |now| && now[i].serverId.Some?
      ensures now[i].serverId != now[j].serverId
    {
    }
    forall i | i in moved
      ensures LeastFree(rows, now, i)
    {
      forall m | 2 <= m < now[i].serverId.value && m !in UsedIds(rows)
        ensures m in UsedIds(now)
      {
        assert NewId(rows, used, now[i].serverId.value);
        var k :| k in moved && Holds(now, k, m);
        assert now[k] in now;
      }
    }
  }

  /** In a group sorted by age, only the first keeps its id. */
  lemma FirstKeeps(rows: seq<Spoke>, id: int, group: seq<nat>, sorted: seq<nat>, place: Id -> int)
    requires IsGroup(rows, |rows|, id, group) && SortedByAge(rows, sorted, place)
    requires forall i :: i in sorted <==> i in group
    requires sorted != []
    ensures forall k :: 0 <= k < |sorted| ==> Holds(rows, sorted[k], id)
    ensures forall k :: 0 <= k < |sorted| ==> (KeepsId(rows, sorted[k], place) <==> k == 0)
  {
    forall k | 0 <= k < |sorted|
      ensures Holds(rows, sorted[k], id)
    {
      assert sorted[k] in sorted;
    }
    forall k | 0 <= k < |sorted|
      ensures KeepsId(rows, sorted[k], place) <==> k == 0
    {
      if k > 0 {
        assert Older(rows[sorted[0]], rows[sorted[k]], place);
      } else {
        forall j | 0 <= j < |rows| && rows[j].serverId == rows[sorted[0]].serverId
          ensures !Older(rows[j], rows[sorted[0]], place)
        {
          assert Holds(rows, j, id) && j in sorted;
          var a :| 0 <= a < |sorted| && sorted[a] == j;
        }
      }
    }
  }

  /** The groups of the first `n` ids have been dealt with. */
  ghost predicate DoneUpTo(rows: seq<Spoke>, order: seq<int>, n: nat, moved: set<nat>, place: Id -> int)
    requires n <= |order|
  {
    forall i :: 0 <= i < |rows| ==>
      (i in moved <==> rows[i].serverId.Some? && rows[i].serverId.value in order[..n] && !KeepsId(rows, i, place))
  }

  lemma GroupDone(rows: seq<Spoke>, order: seq<int>, n: nat, group: seq<nat>, sorted: seq<nat>, moved: set<nat>,
                  moved': set<nat>, place: Id -> int)
    requires n < |order| && DoneUpTo(rows, order, n, moved, place)
    requires IsGroup(rows, |rows|, order[n], group) && SortedByAge(rows, sorted, place)
    requires sorted != [] && forall i :: i in sorted <==> i in group
    requires forall i :: i in moved' <==> i in moved || i in sorted[1..]
    ensures DoneUpTo(rows, order, n + 1, moved', place)
  {
    FirstKeeps(rows, order[n], group, sorted, place);
    assert order[..n + 1] == order[..n] + [order[n]];
    forall i | 0 <= i < |rows|
      ensures i in moved'
         <==> rows[i].serverId.Some? && rows[i].serverId.value in order[..n + 1] && !KeepsId(rows, i, place)
    {
      if i in sorted[1..] {
        var k :| 0 <= k < |sorted[1..]| && sorted[1..][k] == i;
        assert Holds(rows, sorted[k + 1], order[n]) && !KeepsId(rows, sorted[k + 1], place);
      }
      if rows[i].serverId == Some(order[n]) && !KeepsId(rows, i, place) {
        assert Holds(rows, i, order[n]) && i in sorted;
        var k :| 0 <= k < |sorted| && sorted[k] == i;
        assert sorted[1..][k - 1] == i;
      }
    }
  }

  ghost function MovedRows(rows: seq<Spoke>, place: Id -> int): set<nat>
  {
    set i: nat | i < |rows| && !KeepsId(rows, i, place)
  }

  lemma UsedAreGroups(rows: seq<Spoke>, byId: Groups, order: seq<int>)
    requires IsGrouping(rows, |rows|, byId, order)
    ensures UsedIds(rows) == set id | id in byId
  {
    forall id | id in byId
      ensures id in UsedIds(rows)
    {
      var i := byId[id][0];
      assert i in byId[id] && Holds(rows, i, id) && rows[i] in rows;
    }
  }

  class Repairer {
    const place: Id -> int
    var rows: seq<Spoke>

    constructor (rows: seq<Spoke>, place: Id -> int)
      ensures this.rows == rows && this.place == place
    {
      this.rows, this.place := rows, place;
    }

    /** `repairDuplicateServerIds`, over rows that were stored before ids had to be unique. */
    method RepairDuplicateServerIds()
      requires Ordered(rows, place)
      modifies this
      ensures Repaired(old(rows), rows, place)
      ensures InAgeOrder(old(rows), rows, MovedRows(old(rows), place), place)
    {
      var was := rows;
      var byId, order := GroupById(was);
      var used := (set id | id in byId) + {1};
      ghost var moved: set<nat> := {};
      UsedAreGroups(was, byId, order);
      for n := 0 to |order|
        invariant Moving(was, rows, used, moved)
        invariant DoneUpTo(was, order, n, moved, place) && InAgeOrder(was, rows, moved, place)
      {
        assert order[n] in order;
        used, moved := RepairGroup(was, order, n, byId[order[n]], used, moved);
      }
      AllGroupsDone(was, byId, order, moved);
      MovedIsRepaired(was, rows, used, moved, place);
      assert moved == MovedRows(was, place);
    }

    lemma AllGroupsDone(was: seq<Spoke>, byId: Groups, order: seq<int>, moved: set<nat>)
      requires IsGrouping(was, |was|, byId, order) && DoneUpTo(was, order, |order|, moved, place)
      ensures forall i :: 0 <= i < |was| ==> (i in moved <==> !KeepsId(was, i, place))
    {
      assert order[..|order|] == order;
      forall i | 0 <= i < |was|
        ensures i in moved <==> !KeepsId(was, i, place)
      {
        if was[i].serverId.Some? {
          var id := was[i].serverId.value;
          assert id in byId;
          assert id in order;
          assert id in order[..|order|];
        }
      }
    }

    /** All but the oldest of one group are moved to free ids. */
    method RepairGroup(was: seq<Spoke>, ghost order: seq<int>, ghost n: nat, group: seq<nat>, used0: set<int>,
                       ghost moved0: set<nat>)
      returns (used: set<int>, ghost moved: set<nat>)
      requires Ordered(was, place) && n < |order| && order[n] !in order[..n]
      requires IsGroup(was, |was|, order[n], group)
      requires Moving(was, rows, used0, moved0) && DoneUpTo(was, order, n, moved0, place)
      requires InAgeOrder(was, rows, moved0, place)
      modifies this
      ensures Moving(was, rows, used, moved) && DoneUpTo(was, order, n + 1, moved, place)
      ensures InAgeOrder(was, rows, moved, place)
    {
      used, moved := used0, moved0;
      if |group| < 2 {
        assert group[1..] == [];
        forall a | 0 <= a < |group|
          ensures group[a] < |was|
        {
          assert group[a] in group;
        }
        GroupDone(was, order, n, group, group, moved, moved, place);
        return;
      }
      var sorted := SortByAge(was, group, place);
      GroupIsNew(was, order, n, sorted, group, moved0);
      for k := 1 to |sorted|
        invariant Halfway(was, rows, used, moved0, moved, sorted, k)
      {
        var next := LeastUnused(used);
        HalfwayStep(was, rows, used, moved0, moved, sorted, k, next);
        used, moved := used + {next}, moved + {sorted[k]};
        rows := rows[sorted[k] := rows[sorted[k]].(serverId := Some(next))];
      }
      assert sorted[1..|sorted|] == sorted[1..];
      GroupDone(was, order, n, group, sorted, moved0, moved, place);
    }

    /** The rows of `sorted` from the second up to the `k`th have been moved. */
    ghost predicate Halfway(was: seq<Spoke>, now: seq<Spoke>, used: set<int>, moved0: set<nat>, moved: set<nat>,
                            sorted: seq<nat>, k: nat)
      requires 1 <= k <= |sorted|
    {
      && Moving(was, now, used, moved) && InAgeOrder(was, now, moved, place)
      && forall i :: i in moved <==> i in moved0 || i in sorted[1..k]
    }

    lemma HalfwayStep(was: seq<Spoke>, now: seq<Spoke>, used: set<int>, moved0: set<nat>, moved: set<nat>,
                      sorted: seq<nat>, k: nat, next: int)
      requires 1 <= k < |sorted| && Halfway(was, now, used, moved0, moved, sorted, k)
      requires SortedByAge(was, sorted, place) && forall i :: i in sorted ==> i < |was| && i !in moved0
      requires forall i: nat :: i < |was| && was[i].serverId == was[sorted[k]].serverId ==> i in sorted
      requires next >= 2 && next !in used && forall m :: 2 <= m < next ==> m in used
      ensures sorted[k] < |now|
      ensures Halfway(was, now[sorted[k] := now[sorted[k]].(serverId := Some(next))], used + {next}, moved0,
                      moved + {sorted[k]}, sorted, k + 1)
    {
      assert sorted[k] in sorted && sorted[k] !in sorted[1..k];
      assert sorted[1..k + 1] == sorted[1..k] + [sorted[k]];
      forall j | j in moved
        ensures !OlderTwin(was, sorted[k], j, place)
      {
        if j in sorted[1..k] {
          var a :| 0 <= a < |sorted[1..k]| && sorted[1..k][a] == j;
          assert Older(was[sorted[a + 1]], was[sorted[k]], place);
        }
      }
      MovedInAgeOrder(was, now, used, moved, sorted[k], next, place);
      MoveOne(was, now, used, moved, sorted[k], next);
    }

    lemma GroupIsNew(was: seq<Spoke>, order: seq<int>, n: nat, sorted: seq<nat>, group: seq<nat>, moved: set<nat>)
      requires n < |order| && order[n] !in order[..n] && IsGroup(was, |was|, order[n], group)
      requires DoneUpTo(was, order, n, moved, place) && forall i :: i in sorted <==> i in group
      ensures forall i :: i in sorted ==> i < |was| && i !in moved
      ensures forall h, i: nat :: h in sorted && i < |was| && was[i].serverId == was[h].serverId ==> i in sorted
    {
      forall i | i in sorted
        ensures i < |was| && i !in moved && Holds(was, i, order[n])
      {
        assert Holds(was, i, order[n]);
      }
      forall h, i: nat | h in sorted && i < |was| && was[i].serverId == was[h].serverId
        ensures i in sorted
      {
        assert Holds(was, i, order[n]);
      }
    }
  }
}

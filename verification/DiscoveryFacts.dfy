/** What a report leaves in the rows: the last word on every field, and who was seen. */
module DiscoveryFacts {
  import opened Directory
  import opened AccessLevels
  import opened ResourceMatcher
  import opened DiscoveryMerge

  // ----- what a row says after the first devices of a report -----

  ghost predicate Entered(inv: Inventory, id: Id)
  {
    exists j :: WentTo(inv, j, id)
  }

  /** A row that a device went into was seen now, and is managed if it was or the source promotes what it finds. */
  ghost predicate SeenNow(run: Run, rows0: seq<Row>, inv: Inventory, r: Row)
  {
    Entered(inv, r.id) ==>
      && r.lastSeen == Some(run.now)
      && (r.managed <==> run.autoPromote || exists r0 :: r0 in rows0 && r0.id == r.id && r0.managed)
  }

  /** The first device that went into the row. */
  ghost predicate CameFirst(inv: Inventory, j: int, id: Id)
  {
    WentTo(inv, j, id) && forall i :: 0 <= i < j ==> !WentTo(inv, i, id)
  }

  /** A row that was not stored is what the first device to enter it says it is. */
  ghost predicate Introduced(run: Run, rows0: seq<Row>, devices: seq<Device>, inv: Inventory, r: Row)
    requires |inv.actual| <= |devices|
  {
    HasId(rows0, r.id) ||
      (&& r.sources == {run.source} && !r.createdByHand && !r.archived
       && exists j :: CameFirst(inv, j, r.id) && Describes(devices[j], r))
  }

  predicate Describes(d: Device, r: Row)
  {
    && r.kind == (if d.kind == "" then "unmanaged_device" else d.kind)
    && (d.slug == "" || r.slug == d.slug) && (d.id.Some? ==> d.id == Some(r.id))
  }

  /** The name after the first `n` devices: the better one wins each time. */
  function NameAfter(run: Run, devices: seq<Device>, actual: seq<Id>, r: Row, stored: Option<string>, n: nat)
    : Option<string>
    requires n <= |actual| <= |devices|
  {
    if n == 0 then stored
    else
      var before := NameAfter(run, devices, actual, r, stored, n - 1);
      if actual[n - 1] != r.id then before
      else
        var name := devices[n - 1].name;
        Some(if before.Some? then run.betterName(before.value, name) else if name == "" then r.slug else name)
  }

  ghost predicate Named(run: Run, rows0: seq<Row>, devices: seq<Device>, inv: Inventory, r: Row)
    requires |inv.actual| <= |devices|
  {
    && (forall r0 :: r0 in rows0 && r0.id == r.id ==>
          NameAfter(run, devices, inv.actual, r, Some(r0.name), |inv.actual|) == Some(r.name))
    && (!HasId(rows0, r.id) ==> NameAfter(run, devices, inv.actual, r, None, |inv.actual|) == Some(r.name))
  }

  /** The last device to report the field decides it; if none did it is as it was stored. */
  ghost predicate LastWord<T(!new)>(rows0: seq<Row>, devices: seq<Device>, inv: Inventory, r: Row,
                                    field: Meta -> Field<T>)
    requires |inv.actual| <= |devices|
  {
    && (forall j :: SaysLast(devices, inv, j, r.id, field) ==> field(r.meta) == field(devices[j].meta))
    && ((forall j :: WentTo(inv, j, r.id) ==> field(devices[j].meta) == Absent) ==>
          && (forall r0 :: r0 in rows0 && r0.id == r.id ==> field(r.meta) == field(r0.meta))
          && (!HasId(rows0, r.id) ==> field(r.meta) == Absent))
  }

  ghost predicate SaysLast<T(!new)>(devices: seq<Device>, inv: Inventory, j: int, id: Id, field: Meta -> Field<T>)
    requires |inv.actual| <= |devices|
  {
    && WentTo(inv, j, id) && field(devices[j].meta) != Absent
    && forall k :: k > j && WentTo(inv, k, id) ==> field(devices[k].meta) == Absent
  }

  /** A field that merging overrides where it is reported. */
  ghost predicate Overrides<T(!new)>(field: Meta -> Field<T>)
  {
    forall s, m :: field(MergedMeta(s, m)) == if field(m) == Absent then field(s) else field(m)
  }

  function Mac(): Meta -> Field<string> { (m: Meta) => m.mac }

  function Ip(): Meta -> Field<string> { (m: Meta) => m.ip }

  function Address(): Meta -> Field<seq<string>> { (m: Meta) => m.address }

  /** A field of the rest, empty or not. */
  function Other(key: string): Meta -> Field<string>
  {
    (m: Meta) => if key in m.rest then Held(m.rest[key]) else Absent
  }

  lemma FieldsOverride()
    ensures Overrides(Mac()) && Overrides(Ip()) && Overrides(Address()) && forall key :: Overrides(Other(key))
  {
  }

  // ----- one merge -----

  /** All that is claimed of a row. */
  ghost predicate Told(run: Run, rows0: seq<Row>, devices: seq<Device>, inv: Inventory, r: Row)
    requires |inv.actual| <= |devices|
  {
    && SeenNow(run, rows0, inv, r) && Introduced(run, rows0, devices, inv, r) && Named(run, rows0, devices, inv, r)
  }

  lemma {:induction false} NameSnoc(run: Run, devices: seq<Device>, actual: seq<Id>, r: Row, s: Row, id: Id,
                                    stored: Option<string>, n: nat)
    requires n <= |actual| < |devices| && r.id == s.id && r.slug == s.slug
    ensures NameAfter(run, devices, actual + [id], r, stored, n) == NameAfter(run, devices, actual, s, stored, n)
    decreases n
  {
    if n > 0 {
      NameSnoc(run, devices, actual, r, s, id, stored, n - 1);
    }
  }

  lemma NameStep(run: Run, devices: seq<Device>, actual: seq<Id>, r: Row, s: Row, id: Id, stored: Option<string>)
    requires |actual| < |devices| && r.id == s.id && r.slug == s.slug
    ensures var before, name := NameAfter(run, devices, actual, s, stored, |actual|), devices[|actual|].name;
      NameAfter(run, devices, actual + [id], r, stored, |actual| + 1)
        == if id != r.id then before
           else Some(if before.Some? then run.betterName(before.value, name) else if name == "" then r.slug else name)
  {
    NameSnoc(run, devices, actual, r, s, id, stored, |actual|);
  }

  lemma {:induction false} NeverNamed(run: Run, devices: seq<Device>, actual: seq<Id>, r: Row, n: nat)
    requires n <= |actual| <= |devices| && forall j :: 0 <= j < |actual| ==> actual[j] != r.id
    ensures NameAfter(run, devices, actual, r, None, n) == None
    decreases n
  {
    if n > 0 {
      NeverNamed(run, devices, actual, r, n - 1);
    }
  }

  lemma OthersAreTold(run: Run, rows0: seq<Row>, devices: seq<Device>, inv: Inventory, inv': Inventory, id: Id, s: Row)
    requires |inv.actual| < |devices| && inv'.actual == inv.actual + [id] && s.id != id
    requires Told(run, rows0, devices, inv, s)
    ensures Told(run, rows0, devices, inv', s)
  {
    WentToSnoc(inv, inv', id);
    if !HasId(rows0, s.id) {
      var j :| CameFirst(inv, j, s.id) && Describes(devices[j], s);
      assert CameFirst(inv', j, s.id);
      NameStep(run, devices, inv.actual, s, s, id, None);
    }
    forall r0 | r0 in rows0 && r0.id == s.id
      ensures NameAfter(run, devices, inv'.actual, s, Some(r0.name), |inv'.actual|) == Some(s.name)
    {
      NameStep(run, devices, inv.actual, s, s, id, Some(r0.name));
    }
  }

  lemma UpdatedIsTold(run: Run, rows0: seq<Row>, devices: seq<Device>, inv: Inventory, inv': Inventory, r: Row)
    requires |inv.actual| < |devices| && inv'.actual == inv.actual + [r.id] && DistinctRows(rows0)
    requires Told(run, rows0, devices, inv, r) && (Entered(inv, r.id) || r in rows0)
    ensures Told(run, rows0, devices, inv', Updated(run, r, devices[|inv.actual|]))
  {
    var row := Updated(run, r, devices[|inv.actual|]);
    WentToSnoc(inv, inv', r.id);
    assert WentTo(inv', |inv.actual|, row.id);
    if !HasId(rows0, r.id) {
      var j :| CameFirst(inv, j, r.id) && Describes(devices[j], r);
      assert CameFirst(inv', j, row.id) && Describes(devices[j], row);
      NameStep(run, devices, inv.actual, row, r, r.id, None);
    }
    forall r0 | r0 in rows0 && r0.id == r.id
      ensures NameAfter(run, devices, inv'.actual, row, Some(r0.name), |inv'.actual|) == Some(row.name)
    {
      NameStep(run, devices, inv.actual, row, r, r.id, Some(r0.name));
    }
  }

  lemma NewIsTold(run: Run, rows0: seq<Row>, devices: seq<Device>, inv: Inventory, inv': Inventory, minted: nat)
    requires |inv.actual| < |devices|
    requires var row := NewRow(run, devices[|inv.actual|], minted);
      inv'.actual == inv.actual + [row.id] && !HasId(rows0, row.id) && forall j :: !WentTo(inv, j, row.id)
    ensures Told(run, rows0, devices, inv', NewRow(run, devices[|inv.actual|], minted))
  {
    var n := |inv.actual|;
    var row := NewRow(run, devices[n], minted);
    WentToSnoc(inv, inv', row.id);
    assert CameFirst(inv', n, row.id) && Describes(devices[n], row);
    forall j | 0 <= j < n
      ensures inv.actual[j] != row.id
    {
      assert !WentTo(inv, j, row.id);
    }
    NeverNamed(run, devices, inv.actual, row, n);
    NameStep(run, devices, inv.actual, row, row, row.id, None);
  }

  lemma OthersKeepWord<T(!new)>(rows0: seq<Row>, devices: seq<Device>, inv: Inventory, inv': Inventory, id: Id, s: Row,
                                field: Meta -> Field<T>)
    requires |inv.actual| < |devices| && inv'.actual == inv.actual + [id] && s.id != id
    requires LastWord(rows0, devices, inv, s, field)
    ensures LastWord(rows0, devices, inv', s, field)
  {
    WentToSnoc(inv, inv', id);
    forall j | SaysLast(devices, inv', j, s.id, field)
      ensures SaysLast(devices, inv, j, s.id, field)
    {
    }
  }

  lemma UpdatedHasWord<T(!new)>(run: Run, rows0: seq<Row>, devices: seq<Device>, inv: Inventory, inv': Inventory,
                                r: Row,
                                field: Meta -> Field<T>)
    requires |inv.actual| < |devices| && inv'.actual == inv.actual + [r.id] && Overrides(field)
    requires LastWord(rows0, devices, inv, r, field)
    ensures LastWord(rows0, devices, inv', Updated(run, r, devices[|inv.actual|]), field)
  {
    var n := |inv.actual|;
    var row := Updated(run, r, devices[n]);
    WentToSnoc(inv, inv', r.id);
    assert WentTo(inv', n, r.id);
    assert field(row.meta) == if field(devices[n].meta) == Absent then field(r.meta) else field(devices[n].meta);
    forall j | SaysLast(devices, inv', j, row.id, field)
      ensures field(row.meta) == field(devices[j].meta)
    {
      if j != n {
        assert SaysLast(devices, inv, j, r.id, field);
      }
    }
  }

  lemma NewHasWord<T(!new)>(run: Run, rows0: seq<Row>, devices: seq<Device>, inv: Inventory, inv': Inventory,
                            minted: nat,
                            field: Meta -> Field<T>)
    requires |inv.actual| < |devices|
    requires var row := NewRow(run, devices[|inv.actual|], minted);
      inv'.actual == inv.actual + [row.id] && !HasId(rows0, row.id) && forall j :: !WentTo(inv, j, row.id)
    ensures LastWord(rows0, devices, inv', NewRow(run, devices[|inv.actual|], minted), field)
  {
    var row := NewRow(run, devices[|inv.actual|], minted);
    WentToSnoc(inv, inv', row.id);
    assert WentTo(inv', |inv.actual|, row.id);
  }

  // ----- the whole loop -----

  ghost predicate AllTold(run: Run, rows0: seq<Row>, devices: seq<Device>, inv: Inventory)
    requires |inv.actual| <= |devices|
  {
    forall r :: r in inv.rows ==> Told(run, rows0, devices, inv, r)
  }

  ghost predicate AllHaveWord<T(!new)>(rows0: seq<Row>, devices: seq<Device>, inv: Inventory, field: Meta -> Field<T>)
    requires |inv.actual| <= |devices|
  {
    forall r :: r in inv.rows ==> LastWord(rows0, devices, inv, r, field)
  }

  /** The two ways a device is merged. */
  ghost predicate Took(run: Run, inv: Inventory, inv': Inventory, d: Device, r: Row)
  {
    && r in inv.rows && inv'.rows == Replaced(inv.rows, r.id, Updated(run, r, d)) && inv'.siteOf == inv.siteOf
    && inv'.actual == inv.actual + [r.id]
  }

  ghost predicate Added(run: Run, inv: Inventory, inv': Inventory, d: Device)
  {
    var row := NewRow(run, d, inv.minted);
    && !HasId(inv.rows, row.id) && inv'.rows == inv.rows + [row] && inv'.actual == inv.actual + [row.id]
    && inv'.siteOf == inv.siteOf[row.id := run.site]
  }

  lemma TookOrAdded(run: Run, inv: Inventory, d: Device)
    requires MergeOne(run, inv, d).Some?
    ensures var inv' := MergeOne(run, inv, d).value;
      (exists r :: Took(run, inv, inv', d, r)) || Added(run, inv, inv', d)
  {
    var pool := Pool(run, inv.rows, d, |inv.rows|);
    var scope := ScopeOf(run, inv.siteOf);
    var inv' := MergeOne(run, inv, d).value;
    scope.MatchIff(d, pool, scope.Match(d, pool));
    match scope.Match(d, pool)
    case Some(r) => assert Took(run, inv, inv', d, r);
    case None => assert Added(run, inv, inv', d);
  }

  lemma MergeOneTells(run: Run, rows0: seq<Row>, devices: seq<Device>, inv: Inventory)
    requires MergeInv(run, rows0, devices, inv) && |inv.actual| < |devices| && AllTold(run, rows0, devices, inv)
    requires MergeOne(run, inv, devices[|inv.actual|]).Some?
    ensures var inv' := MergeOne(run, inv, devices[|inv.actual|]).value;
      |inv'.actual| == |inv.actual| + 1 && AllTold(run, rows0, devices, inv')
  {
    var d := devices[|inv.actual|];
    var inv' := MergeOne(run, inv, d).value;
    TookOrAdded(run, inv, d);
    if r :| Took(run, inv, inv', d, r) {
      assert Accounted(run, rows0, devices, inv, r);
      ReplacedAre(inv.rows, r.id, Updated(run, r, d));
      UpdatedIsTold(run, rows0, devices, inv, inv', r);
      OthersToldAfter(run, rows0, devices, inv, inv', r.id);
    } else {
      var row := NewRow(run, d, inv.minted);
      NewIsUnknown(run, rows0, devices, inv, row.id);
      NewIsTold(run, rows0, devices, inv, inv', inv.minted);
      OthersToldAfter(run, rows0, devices, inv, inv', row.id);
    }
  }

  lemma NewIsUnknown(run: Run, rows0: seq<Row>, devices: seq<Device>, inv: Inventory, id: Id)
    requires MergeInv(run, rows0, devices, inv) && !HasId(inv.rows, id)
    ensures !HasId(rows0, id) && forall j :: !WentTo(inv, j, id)
  {
  }

  lemma OthersToldAfter(run: Run, rows0: seq<Row>, devices: seq<Device>, inv: Inventory, inv': Inventory, id: Id)
    requires |inv.actual| < |devices| && inv'.actual == inv.actual + [id] && AllTold(run, rows0, devices, inv)
    ensures forall s :: s in inv.rows && s.id != id ==> Told(run, rows0, devices, inv', s)
  {
    forall s | s in inv.rows && s.id != id
      ensures Told(run, rows0, devices, inv', s)
    {
      OthersAreTold(run, rows0, devices, inv, inv', id, s);
    }
  }

  lemma MergeOneKeepsWord<T(!new)>(run: Run, rows0: seq<Row>, devices: seq<Device>, inv: Inventory,
                                   field: Meta -> Field<T>)
    requires MergeInv(run, rows0, devices, inv) && |inv.actual| < |devices| && Overrides(field)
    requires AllHaveWord(rows0, devices, inv, field) && MergeOne(run, inv, devices[|inv.actual|]).Some?
    ensures var inv' := MergeOne(run, inv, devices[|inv.actual|]).value;
      |inv'.actual| == |inv.actual| + 1 && AllHaveWord(rows0, devices, inv', field)
  {
    var d := devices[|inv.actual|];
    var inv' := MergeOne(run, inv, d).value;
    TookOrAdded(run, inv, d);
    if r :| Took(run, inv, inv', d, r) {
      ReplacedAre(inv.rows, r.id, Updated(run, r, d));
      UpdatedHasWord(run, rows0, devices, inv, inv', r, field);
      OthersHaveWordAfter(rows0, devices, inv, inv', r.id, field);
    } else {
      var row := NewRow(run, d, inv.minted);
      NewIsUnknown(run, rows0, devices, inv, row.id);
      NewHasWord(run, rows0, devices, inv, inv', inv.minted, field);
      OthersHaveWordAfter(rows0, devices, inv, inv', row.id, field);
    }
  }

  lemma OthersHaveWordAfter<T(!new)>(rows0: seq<Row>, devices: seq<Device>, inv: Inventory, inv': Inventory, id: Id,
                                     field: Meta -> Field<T>)
    requires |inv.actual| < |devices| && inv'.actual == inv.actual + [id] && AllHaveWord(rows0, devices, inv, field)
    ensures forall s :: s in inv.rows && s.id != id ==> LastWord(rows0, devices, inv', s, field)
  {
    forall s | s in inv.rows && s.id != id
      ensures LastWord(rows0, devices, inv', s, field)
    {
      OthersKeepWord(rows0, devices, inv, inv', id, s, field);
    }
  }

  /** After every prefix of a report: who was seen and is managed, what new rows are, and how rows are named. */
  lemma {:induction false} TraceTells(run: Run, trace: seq<Inventory>, devices: seq<Device>, n: nat)
    requires IsTrace(run, trace, devices) && DistinctRows(trace[0].rows) && trace[0].actual == [] && n < |trace|
    ensures |trace[n].actual| == n && AllTold(run, trace[0].rows, devices, trace[n])
    decreases n
  {
    TraceKeeps(run, trace, devices, n);
    if n > 0 {
      TraceTells(run, trace, devices, n - 1);
      TraceKeeps(run, trace, devices, n - 1);
      assert MergeOne(run, trace[n - 1], devices[n - 1]) == Some(trace[n]);
      MergeOneTells(run, trace[0].rows, devices, trace[n - 1]);
    } else {
      StartIsTold(run, trace[0], devices);
    }
  }

  lemma StartIsTold(run: Run, inv: Inventory, devices: seq<Device>)
    requires DistinctRows(inv.rows) && inv.actual == []
    ensures AllTold(run, inv.rows, devices, inv)
  {
  }

  /** After every prefix, the last device to report a field decides it. */
  lemma {:induction false} TraceKeepsWord<T(!new)>(run: Run, trace: seq<Inventory>, devices: seq<Device>, n: nat,
                                                   field: Meta -> Field<T>)
    requires IsTrace(run, trace, devices) && DistinctRows(trace[0].rows) && trace[0].actual == [] && n < |trace|
    requires Overrides(field)
    ensures |trace[n].actual| == n && AllHaveWord(trace[0].rows, devices, trace[n], field)
    decreases n
  {
    TraceKeeps(run, trace, devices, n);
    if n > 0 {
      TraceKeepsWord(run, trace, devices, n - 1, field);
      TraceKeeps(run, trace, devices, n - 1);
      assert MergeOne(run, trace[n - 1], devices[n - 1]) == Some(trace[n]);
      MergeOneKeepsWord(run, trace[0].rows, devices, trace[n - 1], field);
    } else {
      StartHasWord(trace[0], devices, field);
    }
  }

  lemma StartHasWord<T(!new)>(inv: Inventory, devices: seq<Device>, field: Meta -> Field<T>)
    requires DistinctRows(inv.rows) && inv.actual == []
    ensures AllHaveWord(inv.rows, devices, inv, field)
  {
  }

  /** The same for every field of the metadata but the interfaces, which are united. */
  lemma FieldsAreLastReported(run: Run, trace: seq<Inventory>, devices: seq<Device>, n: nat, r: Row)
    requires IsTrace(run, trace, devices) && DistinctRows(trace[0].rows) && trace[0].actual == [] && n < |trace|
    requires r in trace[n].rows
    ensures |trace[n].actual| == n
    ensures LastWord(trace[0].rows, devices, trace[n], r, Mac()) && LastWord(trace[0].rows, devices, trace[n], r, Ip())
    ensures LastWord(trace[0].rows, devices, trace[n], r, Address())
    ensures forall key :: LastWord(trace[0].rows, devices, trace[n], r, Other(key))
  {
    FieldsOverride();
    TraceKeepsWord(run, trace, devices, n, Mac());
    TraceKeepsWord(run, trace, devices, n, Ip());
    TraceKeepsWord(run, trace, devices, n, Address());
    forall key
      ensures LastWord(trace[0].rows, devices, trace[n], r, Other(key))
    {
      TraceKeepsWord(run, trace, devices, n, Other(key));
    }
  }

  /** New rows belong to the site of the run, and the others to the site they had. */
  ghost predicate SiteStands(run: Run, start: Inventory, inv: Inventory, id: Id)
  {
    if Entered(inv, id) && !HasId(start.rows, id) then id in inv.siteOf && inv.siteOf[id] == run.site
    else (id in inv.siteOf <==> id in start.siteOf) && (id in inv.siteOf ==> inv.siteOf[id] == start.siteOf[id])
  }

  lemma MergeOneKeepsSite(run: Run, start: Inventory, devices: seq<Device>, inv: Inventory, id: Id)
    requires MergeInv(run, start.rows, devices, inv) && |inv.actual| < |devices| && SiteStands(run, start, inv, id)
    requires MergeOne(run, inv, devices[|inv.actual|]).Some?
    ensures SiteStands(run, start, MergeOne(run, inv, devices[|inv.actual|]).value, id)
  {
    var d := devices[|inv.actual|];
    var inv' := MergeOne(run, inv, d).value;
    TookOrAdded(run, inv, d);
    if r :| Took(run, inv, inv', d, r) {
      WentToSnoc(inv, inv', r.id);
      assert Accounted(run, start.rows, devices, inv, r);
      assert r in start.rows ==> HasId(start.rows, r.id);
    } else {
      var row := NewRow(run, d, inv.minted);
      NewIsUnknown(run, start.rows, devices, inv, row.id);
      WentToSnoc(inv, inv', row.id);
      assert WentTo(inv', |inv.actual|, row.id);
    }
  }

  lemma {:induction false} TraceKeepsSites(run: Run, trace: seq<Inventory>, devices: seq<Device>, n: nat, id: Id)
    requires IsTrace(run, trace, devices) && DistinctRows(trace[0].rows) && trace[0].actual == [] && n < |trace|
    ensures SiteStands(run, trace[0], trace[n], id)
    decreases n
  {
    if n > 0 {
      TraceKeepsSites(run, trace, devices, n - 1, id);
      TraceKeeps(run, trace, devices, n - 1);
      assert MergeOne(run, trace[n - 1], devices[n - 1]) == Some(trace[n]);
      MergeOneKeepsSite(run, trace[0], devices, trace[n - 1], id);
    }
  }

  // ----- interfaces -----

  /** Both report the same MAC, whatever its case, or the same IP. */
  ghost predicate Meet(a: Interface, b: Interface)
  {
    || (a.mac.Held? && b.mac.Held? && SameLetters(a.mac.value, b.mac.value))
    || (a.ip.Held? && b.ip.Held? && a.ip.value == b.ip.value)
  }

  /** One reported interface: the first entry that meets it takes over what it says, the others stay; if none does
      it is added at the end. */
  lemma InterfaceIsTaken(list: seq<Interface>, ni: Interface)
    ensures var out := AddInterface(list, ni);
      if forall k :: 0 <= k < |list| ==> !Meet(ni, list[k]) then out == list + [ni]
      else exists k :: (
        && 0 <= k < |list| && Meet(ni, list[k]) && (forall j :: 0 <= j < k ==> !Meet(ni, list[j]))
        && |out| == |list| && (forall j :: 0 <= j < |list| && j != k ==> out[j] == list[j])
        && out[k].mac == (if ni.mac == Absent then list[k].mac else ni.mac)
        && out[k].ip == (if ni.ip == Absent then list[k].ip else ni.ip))
  {
    forall a: Interface, b: Interface
      ensures Meet(a, b) <==> SameInterface(a, b)
    {
      if a.mac.Held? && b.mac.Held? {
        SameLettersIff(a.mac.value, b.mac.value);
      }
    }
    var k := FindInterface(list, ni, 0);
    assert k < |list| ==> Meet(ni, list[k]);
  }
}

/** What identity classes are for: a controller is never folded into the server it manages.
  */
module DiscoveryClasses {
  import opened Directory
  import opened AccessLevels
  import opened ResourceMatcher
  import opened DiscoveryMerge

  /** The subtype decides the class, whatever the kind. */
  predicate Decided(run: Run, m: Meta)
  {
    run.templateClass(SubType(m)) != "" || SubType(m) in BMC_SUBTYPES
  }

  /** The device brings a subtype that leaves the class to the kind. */
  predicate Vague(run: Run, d: Device)
  {
    "subType" in d.meta.rest && !Decided(run, d.meta)
  }

  function ClassOfRow(run: Run, r: Row): string { IdentityClass(run, r.kind, r.meta) }

  function ClassOfDevice(run: Run, d: Device): string { IdentityClass(run, d.kind, d.meta) }

  /** A row is entered only by devices of its class, so the question is when rows keep theirs: exactly when a row does
      as such a device is merged into it. */
  lemma ClassKeptIff(run: Run, r: Row, d: Device)
    requires ClassOfDevice(run, d) == ClassOfRow(run, r)
    ensures ClassOfRow(run, Updated(run, r, d)) == ClassOfRow(run, r)
       <==> (Vague(run, d) ==> ClassOfKind(r.kind) == ClassOfRow(run, r))
  {
    var merged := Updated(run, r, d).meta;
    assert SubType(merged) == if "subType" in d.meta.rest then SubType(d.meta) else SubType(r.meta);
  }

  /** Exactly when a new row has the class of the device it was made from. */
  lemma NewClassIff(run: Run, d: Device, minted: nat)
    ensures ClassOfRow(run, NewRow(run, d, minted)) == ClassOfDevice(run, d) <==> d.kind != "" || Decided(run, d.meta)
  {
  }

  /** The row keeps its class, whichever of the devices of that class goes into it. */
  ghost predicate Settled(run: Run, devices: seq<Device>, r: Row)
  {
    && ClassOfRow(run, r) != PLACEHOLDER
    && ((exists d :: d in devices && Vague(run, d) && ClassOfDevice(run, d) == ClassOfRow(run, r)) ==>
          ClassOfKind(r.kind) == ClassOfRow(run, r))
  }

  /** A condition on what the run is given: no row is a placeholder, and no row or device that has its class from its
      subtype shares the class with a device that brings a vague one. */
  ghost predicate KeepsClasses(run: Run, rows: seq<Row>, devices: seq<Device>)
  {
    && (forall r :: r in rows ==> Settled(run, devices, r))
    && (forall d :: d in devices ==> ClassOfDevice(run, d) != PLACEHOLDER && (d.kind != "" || Decided(run, d.meta)))
    && (forall d :: d in devices ==> Settled(run, devices, NewRow(run, d, 0)))
  }

  /** The row has the class it was stored with and that of every device that went into it. */
  ghost predicate ClassStands(run: Run, rows0: seq<Row>, devices: seq<Device>, inv: Inventory, r: Row)
    requires |inv.actual| <= |devices|
  {
    && Settled(run, devices, r)
    && (forall r0 :: r0 in rows0 && r0.id == r.id ==> ClassOfRow(run, r0) == ClassOfRow(run, r))
    && (forall j :: WentTo(inv, j, r.id) ==> ClassOfDevice(run, devices[j]) == ClassOfRow(run, r))
  }

  ghost predicate ClassesStand(run: Run, rows0: seq<Row>, devices: seq<Device>, inv: Inventory)
    requires |inv.actual| <= |devices|
  {
    forall r :: r in inv.rows ==> ClassStands(run, rows0, devices, inv, r)
  }

  lemma EntrantStands(run: Run, rows0: seq<Row>, devices: seq<Device>, inv: Inventory, inv': Inventory, r: Row)
    requires |inv.actual| < |devices| && inv'.actual == inv.actual + [r.id]
    requires ClassStands(run, rows0, devices, inv, r)
    requires ClassOfDevice(run, devices[|inv.actual|]) == ClassOfRow(run, r)
    ensures ClassStands(run, rows0, devices, inv', Updated(run, r, devices[|inv.actual|]))
  {
    var d := devices[|inv.actual|];
    WentToSnoc(inv, inv', r.id);
    assert d in devices;
    ClassKeptIff(run, r, d);
  }

  lemma NewStands(run: Run, rows0: seq<Row>, devices: seq<Device>, inv: Inventory, inv': Inventory, minted: nat)
    requires |inv.actual| < |devices| && KeepsClasses(run, rows0, devices)
    requires var row := NewRow(run, devices[|inv.actual|], minted);
      inv'.actual == inv.actual + [row.id] && !HasId(rows0, row.id) && forall j :: !WentTo(inv, j, row.id)
    ensures ClassStands(run, rows0, devices, inv', NewRow(run, devices[|inv.actual|], minted))
  {
    var d := devices[|inv.actual|];
    var row, other := NewRow(run, d, minted), NewRow(run, d, 0);
    WentToSnoc(inv, inv', row.id);
    assert d in devices && row.kind == other.kind && row.meta == other.meta;
    NewClassIff(run, d, minted);
  }

  lemma OthersStand(run: Run, rows0: seq<Row>, devices: seq<Device>, inv: Inventory, inv': Inventory, id: Id, s: Row)
    requires |inv.actual| < |devices| && inv'.actual == inv.actual + [id] && s.id != id
    requires ClassStands(run, rows0, devices, inv, s)
    ensures ClassStands(run, rows0, devices, inv', s)
  {
    WentToSnoc(inv, inv', id);
  }

  lemma MergeOneStands(run: Run, rows0: seq<Row>, devices: seq<Device>, inv: Inventory)
    requires MergeInv(run, rows0, devices, inv) && |inv.actual| < |devices|
    requires KeepsClasses(run, rows0, devices) && ClassesStand(run, rows0, devices, inv)
    requires MergeOne(run, inv, devices[|inv.actual|]).Some?
    ensures var inv' := MergeOne(run, inv, devices[|inv.actual|]).value;
      |inv'.actual| == |inv.actual| + 1 && ClassesStand(run, rows0, devices, inv')
  {
    var d := devices[|inv.actual|];
    var inv' := MergeOne(run, inv, d).value;
    var scope, pool := ScopeOf(run, inv.siteOf), Pool(run, inv.rows, d, |inv.rows|);
    scope.MatchIff(d, pool, scope.Match(d, pool));
    match scope.Match(d, pool)
    case Some(r) =>
      PoolIsCompatible(run, inv.rows, d, |inv.rows|);
      EnteredStands(run, rows0, devices, inv, inv', r);
    case None =>
      AddedStands(run, rows0, devices, inv, inv');
  }

  lemma EnteredStands(run: Run, rows0: seq<Row>, devices: seq<Device>, inv: Inventory, inv': Inventory, r: Row)
    requires |inv.actual| < |devices| && r in inv.rows && Compatible(run, devices[|inv.actual|], r)
    requires KeepsClasses(run, rows0, devices) && ClassesStand(run, rows0, devices, inv)
    requires var row := Updated(run, r, devices[|inv.actual|]);
      inv'.rows == Replaced(inv.rows, r.id, row) && inv'.actual == inv.actual + [r.id]
    ensures ClassesStand(run, rows0, devices, inv')
  {
    assert devices[|inv.actual|] in devices && ClassStands(run, rows0, devices, inv, r);
    var row := Updated(run, r, devices[|inv.actual|]);
    ReplacedAre(inv.rows, r.id, row);
    EntrantStands(run, rows0, devices, inv, inv', r);
    forall s | s in inv'.rows
      ensures ClassStands(run, rows0, devices, inv', s)
    {
      if s.id != r.id {
        OthersStand(run, rows0, devices, inv, inv', r.id, s);
      }
    }
  }

  lemma AddedStands(run: Run, rows0: seq<Row>, devices: seq<Device>, inv: Inventory, inv': Inventory)
    requires MergeInv(run, rows0, devices, inv) && |inv.actual| < |devices|
    requires KeepsClasses(run, rows0, devices) && ClassesStand(run, rows0, devices, inv)
    requires var row := NewRow(run, devices[|inv.actual|], inv.minted);
      !Taken(inv.rows, row) && inv'.rows == inv.rows + [row] && inv'.actual == inv.actual + [row.id]
    ensures ClassesStand(run, rows0, devices, inv')
  {
    var row := NewRow(run, devices[|inv.actual|], inv.minted);
    assert !HasId(inv.rows, row.id);
    NewStands(run, rows0, devices, inv, inv', inv.minted);
    forall s | s in inv'.rows
      ensures ClassStands(run, rows0, devices, inv', s)
    {
      if s != row {
        OthersStand(run, rows0, devices, inv, inv', row.id, s);
      }
    }
  }

  /** After every prefix of the report, every row has its old class and that of the devices that went into it. */
  lemma {:induction false} TraceKeepsClasses(run: Run, trace: seq<Inventory>, devices: seq<Device>, n: nat)
    requires IsTrace(run, trace, devices) && DistinctRows(trace[0].rows) && trace[0].actual == [] && n < |trace|
    requires KeepsClasses(run, trace[0].rows, devices)
    ensures |trace[n].actual| == n && ClassesStand(run, trace[0].rows, devices, trace[n])
    decreases n
  {
    TraceKeeps(run, trace, devices, n);
    if n > 0 {
      TraceKeepsClasses(run, trace, devices, n - 1);
      TraceKeeps(run, trace, devices, n - 1);
      assert MergeOne(run, trace[n - 1], devices[n - 1]) == Some(trace[n]);
      MergeOneStands(run, trace[0].rows, devices, trace[n - 1]);
    } else {
      StartStands(run, trace[0], devices);
    }
  }

  lemma StartStands(run: Run, inv: Inventory, devices: seq<Device>)
    requires DistinctRows(inv.rows) && inv.actual == [] && KeepsClasses(run, inv.rows, devices)
    ensures ClassesStand(run, inv.rows, devices, inv)
  {
  }

  /** No device is folded into a stored row of another class, and no two devices of different classes end in one
      row, whatever addresses and names they report. */
  lemma ClassesStayApart(run: Run, trace: seq<Inventory>, devices: seq<Device>, j: nat, k: nat)
    requires IsTrace(run, trace, devices) && |trace| == |devices| + 1
    requires DistinctRows(trace[0].rows) && trace[0].actual == []
    requires KeepsClasses(run, trace[0].rows, devices) && j < |devices| && k < |devices|
    ensures var actual := trace[|devices|].actual;
      && |actual| == |devices|
      && (forall r :: r in trace[0].rows && r.id == actual[j] ==> ClassOfRow(run, r) == ClassOfDevice(run, devices[j]))
      && (actual[j] == actual[k] ==> ClassOfDevice(run, devices[j]) == ClassOfDevice(run, devices[k]))
  {
    TraceKeeps(run, trace, devices, |devices|);
    TraceKeepsClasses(run, trace, devices, |devices|);
    var last := trace[|devices|];
    assert HasId(last.rows, last.actual[j]);
    var r :| r in last.rows && r.id == last.actual[j];
    assert ClassStands(run, trace[0].rows, devices, last, r) && WentTo(last, j, r.id);
    assert last.actual[j] == last.actual[k] ==> WentTo(last, k, r.id);
  }

  // ----- the candidates -----

  /** Which rows a device may be merged into: those of its class, in their order, and placeholders; a placeholder may
      be merged into any. */
  lemma {:induction false} CandidatesAre(run: Run, rows: seq<Row>, d: Device, n: nat)
    requires n <= |rows|
    ensures Pool(run, rows, d, n) == Keeping(rows[..n], (r: Row) =>
      || ClassOfRow(run, r) == ClassOfDevice(run, d)
      || "unmanaged_device" in {ClassOfRow(run, r), ClassOfDevice(run, d)})
    decreases n
  {
    if n > 0 {
      CandidatesAre(run, rows, d, n - 1);
      assert rows[..n][..n - 1] == rows[..n - 1];
    }
  }

  /** A template of the subtype decides. Without one a controller is told by its subtype or the old kind, the old kinds
      count as hosts or services, and every other kind stands for itself. */
  lemma ClassIs(run: Run, kind: string, rest: map<string, string>, list: seq<Interface>)
    ensures var c := IdentityClass(run, kind, MetaOf(list, rest));
      var subType := if "subType" in rest then Lower(rest["subType"]) else "";
      if run.templateClass(subType) != "" then c == run.templateClass(subType)
      else if subType in ["bmc", "ilo", "idrac"] || kind == "bmc" then c == "bmc"
      else
        && (kind in ["", "host", "template", "network_device"] ==> c == "host")
        && (kind in ["service", "container"] ==> c == "service")
        && (kind !in ["", "host", "template", "network_device", "service", "container"] ==> c == kind)
  {
  }

  // ----- why subtypes have to say what they are -----

  /** A device known by one IP. */
  function AtAddress(kind: string, rest: map<string, string>, ip: string): Device
  {
    DeviceOf(kind, rest, [Interface(Absent, Held(ip))])
  }

  /** The row, known by its IP alone, has its class from its subtype, as the first device has from its kind; the
      second has the class that the kind of the row stands for. No other row lies open at the IP. */
  ghost predicate Misled(run: Run, inv: Inventory, r: Row, d: Device, e: Device, ip: string)
  {
    && d == AtAddress(d.kind, d.meta.rest, ip) && e == AtAddress(e.kind, e.meta.rest, ip) && ip != ""
    && r.meta == AtAddress(r.kind, r.meta.rest, ip).meta
    && DistinctRows(inv.rows) && inv.actual == [] && r in inv.rows && ScopeOf(run, inv.siteOf).AtSite(r)
    && (forall s :: s in inv.rows && s != r ==> !Exposed(run, inv.siteOf, s, ip))
    && Vague(run, d) && ClassOfDevice(run, d) == ClassOfRow(run, r) != ClassOfKind(r.kind) == ClassOfDevice(run, e)
  }

  lemma AddressOnly(kind: string, rest: map<string, string>, ip: string)
    requires ip != ""
    ensures var m := AtAddress(kind, rest, ip).meta; Macs(m) == {} && Ips(m) == {ip} && !Strong(m)
  {
    OneInterface(Absent, ip, rest);
  }

  lemma AddressStays(run: Run, r: Row, d: Device, ip: string)
    requires ip != "" && d == AtAddress(d.kind, d.meta.rest, ip) && r.meta == AtAddress(r.kind, r.meta.rest, ip).meta
    ensures Updated(run, r, d).meta == AtAddress(r.kind, r.meta.rest + d.meta.rest, ip).meta
  {
    var i := Interface(Absent, Held(ip));
    assert AddInterface([i], i) == [i];
    assert AddInterfaces([i], [i], 0) == [i] && AddInterfaces([i], [i], 1) == [i];
  }

  /** A device known by its IP is merged into the only row that lies open there. */
  lemma GoesByAddress(run: Run, inv: Inventory, r: Row, d: Device, ip: string)
    requires ip != "" && d == AtAddress(d.kind, d.meta.rest, ip) && r in inv.rows && Compatible(run, d, r)
    requires Exposed(run, inv.siteOf, r, ip) && forall s :: s in inv.rows && s != r ==> !Exposed(run, inv.siteOf, s, ip)
    ensures MergeOne(run, inv, d) == Some(Folded(run, inv, r, d))
  {
    AddressOnly(d.kind, d.meta.rest, ip);
    assert ip in Ips(d.meta) * Ips(r.meta);
    MergesIntoOnly(run, inv, r, d);
  }

  /** The row loses its class to a subtype that says nothing, and a device of another class is folded into it. */
  lemma VagueSubtypeMixesClasses(run: Run, inv: Inventory, r: Row, d: Device, e: Device, ip: string)
      returns (trace: seq<Inventory>)
    requires Misled(run, inv, r, d, e, ip)
    ensures IsTrace(run, trace, [d, e]) && |trace| == 3 && trace[0] == inv && trace[2].actual == [r.id, r.id]
    ensures ClassOfRow(run, r) == ClassOfDevice(run, d) != ClassOfDevice(run, e)
  {
    MisledFirst(run, inv, r, d, e, ip);
    MisledSecond(run, inv, r, d, e, ip);
    trace := TwoFolded(run, inv, r, d, e);
  }

  lemma MisledFirst(run: Run, inv: Inventory, r: Row, d: Device, e: Device, ip: string)
    requires Misled(run, inv, r, d, e, ip)
    ensures MergeOne(run, inv, d) == Some(Folded(run, inv, r, d))
  {
    AddressOnly(r.kind, r.meta.rest, ip);
    GoesByAddress(run, inv, r, d, ip);
  }

  lemma MisledSecond(run: Run, inv: Inventory, r: Row, d: Device, e: Device, ip: string)
    requires Misled(run, inv, r, d, e, ip)
    ensures var next, row := Folded(run, inv, r, d), Updated(run, r, d);
      MergeOne(run, next, e) == Some(Folded(run, next, row, e))
  {
    var row := Updated(run, r, d);
    AddressStays(run, r, d, ip);
    AddressOnly(r.kind, r.meta.rest + d.meta.rest, ip);
    ReplacedAre(inv.rows, r.id, row);
    VagueClass(run, r, d);
    GoesByAddress(run, Folded(run, inv, r, d), row, e, ip);
  }

  /** A vague subtype leaves the row with the class of its kind. */
  lemma VagueClass(run: Run, r: Row, d: Device)
    requires Vague(run, d)
    ensures ClassOfRow(run, Updated(run, r, d)) == ClassOfKind(r.kind)
  {
    assert SubType(Updated(run, r, d).meta) == SubType(d.meta);
  }

  /** A controller stored as a host of a controller's subtype, a later report of it by an older kind and a subtype that
      has no template, and a server that has come to its address. */
  lemma ControllerTakesServer(run: Run, siteOf: map<Id, Option<Id>>, r: Row, subType: string, ip: string)
    requires run.templateClass("ilo") == run.templateClass(Lower(subType)) == run.templateClass("") == ""
    requires Lower(subType) !in BMC_SUBTYPES && r.kind == "host" && ip != "" && ScopeOf(run, siteOf).AtSite(r)
    requires r.meta == AtAddress("host", map["subType" := "ilo"], ip).meta
    ensures Misled(run, Inventory([r], siteOf, 0, []), r, AtAddress("bmc", map["subType" := subType], ip),
                   AtAddress("host", map[], ip), ip)
  {
    assert SubType(r.meta) == "ilo" by { assert Lower("ilo") == "ilo"; }
    assert forall s :: s in [r] ==> s == r;
  }
}

/** Folding a discovery report into the stored rows: each device is matched to a row and merged into it, or
    becomes a row of its own.
  */
module DiscoveryMerge {
  import opened Directory
  import opened AccessLevels
  import opened ResourceMatcher

  // ----- merging metadata -----

  /** A field that is there overrides, even when it is empty. */
  function Over<T>(stored: Field<T>, reported: Field<T>): Field<T>
  {
    if reported.Absent? then stored else reported
  }

  predicate SameInterface(a: Interface, b: Interface)
  {
    || (a.mac.Held? && b.mac.Held? && Lower(a.mac.value) == Lower(b.mac.value))
    || (a.ip.Held? && b.ip.Held? && a.ip == b.ip)
  }

  function FindInterface(list: seq<Interface>, ni: Interface, n: nat): (k: nat)
    requires n <= |list|
    ensures n <= k <= |list| && (k < |list| ==> SameInterface(ni, list[k]))
    ensures forall j :: n <= j < k ==> !SameInterface(ni, list[j])
    decreases |list| - n
  {
    if n == |list| || SameInterface(ni, list[n]) then n else FindInterface(list, ni, n + 1)
  }

  function AddInterface(list: seq<Interface>, ni: Interface): seq<Interface>
  {
    var k := FindInterface(list, ni, 0);
    if k < |list| then list[k := Interface(Over(list[k].mac, ni.mac), Over(list[k].ip, ni.ip))] else list + [ni]
  }

  /** The union of `list` and the first `n` of `news`. */
  function AddInterfaces(list: seq<Interface>, news: seq<Interface>, n: nat): seq<Interface>
    requires n <= |news|
  {
    if n == 0 then list else AddInterface(AddInterfaces(list, news, n - 1), news[n - 1])
  }

  function MergedMeta(stored: Meta, reported: Meta): Meta
  {
    Meta(
      Over(stored.mac, reported.mac), Over(stored.ip, reported.ip), Over(stored.address, reported.address),
      if reported.interfaces.Held? then
        Held(AddInterfaces(Interfaces(stored), reported.interfaces.value, |reported.interfaces.value|))
      else Over(stored.interfaces, reported.interfaces),
      stored.rest + reported.rest)
  }

  method MergeInterfaces(list: seq<Interface>, news: seq<Interface>) returns (merged: seq<Interface>)
    ensures merged == AddInterfaces(list, news, |news|)
  {
    merged := list;
    for n := 0 to |news|
      invariant merged == AddInterfaces(list, news, n)
    {
      var ni := news[n];
      var k := FindInterface(merged, ni, 0);
      if k < |merged| {
        merged := merged[k := Interface(Over(merged[k].mac, ni.mac), Over(merged[k].ip, ni.ip))];
      } else {
        merged := merged + [ni];
      }
    }
  }

  // ----- identity classes -----

  const BMC_SUBTYPES: set<string> := {"bmc", "ilo", "idrac"}

  function SubType(m: Meta): string
  {
    if "subType" in m.rest then Lower(m.rest["subType"]) else ""
  }

  /** What the kind says, with older kinds read as the one used today. */
  function ClassOfKind(kind: string): string
  {
    if kind == "container" then "service"
    else if kind == "template" || kind == "network_device" || kind == "" then "host"
    else kind
  }

  // ----- merging devices -----

  /** A run of one source, and what the run cannot decide itself: which identity class the template of a subtype
      names (blank for none), how rows are named, and what ids and slugs would be minted. */
  datatype Run = Run(
    source: string,
    autoPromote: bool,
    site: Option<Id>,
    now: int,
    lower: string -> string,
    host: string -> string,
    templateClass: string -> string,
    betterName: (string, string) -> string,
    uuid: nat -> Id,
    newSlug: nat -> string)

  /** A template of the subtype decides, then the subtypes of controllers, then the kind. */
  function IdentityClass(run: Run, kind: string, m: Meta): string
  {
    var subType := SubType(m);
    if run.templateClass(subType) != "" then run.templateClass(subType)
    else if subType in BMC_SUBTYPES then "bmc"
    else ClassOfKind(kind)
  }

  /** The class of rows from an earlier discovery that could not tell what they are. */
  const PLACEHOLDER: string := "unmanaged_device"

  datatype Inventory = Inventory(rows: seq<Row>, siteOf: map<Id, Option<Id>>, minted: nat, actual: seq<Id>)

  predicate Compatible(run: Run, d: Device, r: Row)
  {
    var c, k := IdentityClass(run, d.kind, d.meta), IdentityClass(run, r.kind, r.meta);
    c == PLACEHOLDER || k == PLACEHOLDER || c == k
  }

  /** The candidates, in row order. */
  function Pool(run: Run, rows: seq<Row>, d: Device, n: nat): (pool: seq<Row>)
    requires n <= |rows|
    ensures forall r :: r in pool ==> r in rows
  {
    if n == 0 then []
    else if Compatible(run, d, rows[n - 1]) then Pool(run, rows, d, n - 1) + [rows[n - 1]]
    else Pool(run, rows, d, n - 1)
  }

  function ScopeOf(run: Run, siteOf: map<Id, Option<Id>>): Scope
  {
    Scope(siteOf, run.site, run.lower, run.host)
  }

  function Updated(run: Run, r: Row, d: Device): Row
  {
    r.(name := run.betterName(r.name, d.name),
       meta := MergedMeta(r.meta, d.meta),
       sources := r.sources + {run.source},
       managed := r.managed || run.autoPromote,
       lastSeen := Some(run.now))
  }

  function NewRow(run: Run, d: Device, minted: nat): Row
  {
    var slug := if d.slug != "" then d.slug else run.newSlug(minted);
    Row(if d.id.Some? then d.id.value else run.uuid(minted),
        if d.kind != "" then d.kind else PLACEHOLDER,
        if d.name != "" then d.name else slug,
        slug, d.meta, {run.source}, run.autoPromote, false, Some(run.now), false)
  }

  function Replaced(rows: seq<Row>, id: Id, row: Row): seq<Row>
  {
    seq(|rows|, k requires 0 <= k < |rows| => if rows[k].id == id then row else rows[k])
  }

  /** The store takes no second row with the same id or slug. */
  predicate Taken(rows: seq<Row>, row: Row)
  {
    exists r :: r in rows && (r.id == row.id || r.slug == row.slug)
  }

  /** One device. No result: the store refused the new row, which ends the run. */
  ghost function MergeOne(run: Run, inv: Inventory, d: Device): Option<Inventory>
  {
    match ScopeOf(run, inv.siteOf).Match(d, Pool(run, inv.rows, d, |inv.rows|))
    case Some(r) =>
      Some(inv.(rows := Replaced(inv.rows, r.id, Updated(run, r, d)), actual := inv.actual + [r.id]))
    case None =>
      var row := NewRow(run, d, inv.minted);
      if Taken(inv.rows, row) then None
      else Some(Inventory(inv.rows + [row], inv.siteOf[row.id := run.site], inv.minted + 1, inv.actual + [row.id]))
  }

  /** The states of the merge loop, one more than the devices dealt with. */
  ghost predicate IsTrace(run: Run, trace: seq<Inventory>, devices: seq<Device>)
  {
    && 0 < |trace| <= |devices| + 1
    && forall i {:trigger MergeOne(run, trace[i], devices[i])} ::
         0 <= i < |trace| - 1 ==> MergeOne(run, trace[i], devices[i]) == Some(trace[i + 1])
  }

  method MergeDevice(run: Run, inv: Inventory, d: Device) returns (out: Option<Inventory>)
    ensures out == MergeOne(run, inv, d)
  {
    var pool := Pool(run, inv.rows, d, |inv.rows|);
    var existing := ScopeOf(run, inv.siteOf).FindExistingMatch(d, pool);
    if existing.Some? {
      var r := existing.value;
      var meta := r.meta.(mac := Over(r.meta.mac, d.meta.mac), ip := Over(r.meta.ip, d.meta.ip),
                          address := Over(r.meta.address, d.meta.address),
                          interfaces := Over(r.meta.interfaces, d.meta.interfaces), rest := r.meta.rest + d.meta.rest);
      if d.meta.interfaces.Held? {
        var interfaces := MergeInterfaces(Interfaces(r.meta), d.meta.interfaces.value);
        meta := meta.(interfaces := Held(interfaces));
      }
      var updated := r.(name := run.betterName(r.name, d.name), meta := meta, sources := r.sources + {run.source},
                        managed := r.managed || run.autoPromote, lastSeen := Some(run.now));
      return Some(inv.(rows := Replaced(inv.rows, r.id, updated), actual := inv.actual + [r.id]));
    }
    var row := NewRow(run, d, inv.minted);
    if Taken(inv.rows, row) { return None; }
    return Some(Inventory(inv.rows + [row], inv.siteOf[row.id := run.site], inv.minted + 1, inv.actual + [row.id]));
  }

  /** The merge loop of `reconcile`: through all devices, or up to the first new row the store refuses. */
  method MergeDevices(run: Run, inv: Inventory, devices: seq<Device>)
    returns (ok: bool, out: Inventory, ghost trace: seq<Inventory>)
    ensures IsTrace(run, trace, devices) && trace[0] == inv && out == trace[|trace| - 1]
    ensures ok ==> |trace| == |devices| + 1 && |out.actual| == |inv.actual| + |devices|
    ensures !ok ==> |trace| <= |devices| && MergeOne(run, out, devices[|trace| - 1]) == None
  {
    out, trace := inv, [inv];
    for n := 0 to |devices|
      invariant |trace| == n + 1 && trace[n] == out && trace[0] == inv && IsTrace(run, trace, devices)
      invariant |out.actual| == |inv.actual| + n
    {
      var next := MergeDevice(run, out, devices[n]);
      if next == None { return false, out, trace; }
      TraceSnoc(run, trace, devices, next.value);
      out, trace := next.value, trace + [next.value];
    }
    ok := true;
  }

  lemma TraceSnoc(run: Run, trace: seq<Inventory>, devices: seq<Device>, next: Inventory)
    requires IsTrace(run, trace, devices) && |trace| <= |devices|
    requires MergeOne(run, trace[|trace| - 1], devices[|trace| - 1]) == Some(next)
    ensures IsTrace(run, trace + [next], devices)
  {
    var longer := trace + [next];
    forall i | 0 <= i < |longer| - 1
      ensures MergeOne(run, longer[i], devices[i]) == Some(longer[i + 1])
    {
      assert longer[i] == trace[i];
      if i < |trace| - 1 {
        assert longer[i + 1] == trace[i + 1] && MergeOne(run, trace[i], devices[i]) == Some(trace[i + 1]);
      }
    }
  }

  // ----- what merging does to identities -----

  /** An interface reported by its IP with an empty MAC: it may empty the MAC stored for that IP. */
  predicate Wipes(i: Interface) { i.mac.Blank? && i.ip.Held? }

  /** None of `list` from position `n` on wipes. */
  predicate NoneWipes(list: seq<Interface>, n: nat)
  {
    forall j :: n <= j < |list| ==> !Wipes(list[j])
  }

  /** Merged into any row, the report leaves the MACs there. */
  predicate WipesNothing(m: Meta)
  {
    !m.mac.Blank? && !m.interfaces.Blank? && NoneWipes(Interfaces(m), 0)
  }

  /** What is stored for the interface `i` may be taken for `j`, reported later: they share a MAC, or the IP of
      `j` is that of `i`, which is any if `i` was reported without one. */
  predicate MayMeet(i: Interface, j: Interface)
  {
    || (i.mac.Held? && j.mac.Held? && Lower(i.mac.value) == Lower(j.mac.value))
    || (j.ip.Held? && (i.ip.Absent? || i.ip == j.ip))
  }

  /** Merged into what is stored for `i`, the interface `j` leaves the MAC there, and the IP if `i` has one. */
  predicate Renews(i: Interface, j: Interface)
  {
    && i.mac.Held? && j.mac.Held? && Lower(i.mac.value) == Lower(j.mac.value)
    && (i.ip.Absent? || j.ip.Absent? || i.ip == j.ip)
  }

  /** The `i`th interface has a MAC, and none between it and the `n`th that may meet it replaces or empties that. */
  predicate Untouched(list: seq<Interface>, i: nat, n: nat)
    requires i < n <= |list|
  {
    && list[i].mac.Held?
    && forall j :: i < j < n && MayMeet(list[i], list[j]) ==> list[j].mac.Absent? || Renews(list[i], list[j])
  }

  /** The MACs that are stored, one to an entry, once the first `n` interfaces have been merged into any list. */
  function StoredMacs(list: seq<Interface>, n: nat): set<string>
    requires n <= |list|
  {
    set i | 0 <= i < n && Untouched(list, i, n) :: Lower(list[i].mac.value)
  }

  /** The IPs at which the first `n` interfaces have left no MAC: emptied, and none with a MAC has come there since. */
  function Emptied(list: seq<Interface>, n: nat): set<string>
    requires n <= |list|
  {
    if n == 0 then {}
    else
      var before, i := Emptied(list, n - 1), list[n - 1];
      if Wipes(i) then before + {i.ip.value}
      else if i.mac.Held? && i.ip.Held? then before - {i.ip.value}
      else before
  }

  /** How many entries the interfaces from the `n`th on may empty. */
  function Losses(list: seq<Interface>, n: nat): nat
    requires n <= |list|
    decreases |list| - n
  {
    if n == |list| then 0
    else (if Wipes(list[n]) && list[n].ip.value !in Emptied(list, n) then 1 else 0) + Losses(list, n + 1)
  }

  /** Merged into any row, the report leaves a MAC there: at some point it has stored more than it empties later. */
  predicate BringsMac(m: Meta)
  {
    m.mac.Held?
    || exists n :: 0 <= n <= |Interfaces(m)| && |StoredMacs(Interfaces(m), n)| > Losses(Interfaces(m), n)
  }

  /** A device that can only be merged into a row by MAC or id leaves that row with an identity. */
  ghost predicate Careful(d: Device)
  {
    BringsMac(d.meta) || (Macs(d.meta) == {} && (d.id == None || WipesNothing(d.meta)))
  }

  predicate AnyMac(list: seq<Interface>)
  {
    exists i :: i in list && i.mac.Held?
  }

  ghost function MacsIn(list: seq<Interface>): set<string>
  {
    set i | i in list && IsMac(NormalMac(i.mac)) :: NormalMac(i.mac)
  }

  lemma AddInterfaceKeeps(list: seq<Interface>, ni: Interface)
    ensures MacsIn(AddInterface(list, ni)) <= MacsIn(list) + MacsIn([ni])
    ensures (AnyMac(list) && !Wipes(ni)) || ni.mac.Held? ==> AnyMac(AddInterface(list, ni))
  {
    var k := FindInterface(list, ni, 0);
    var list' := AddInterface(list, ni);
    forall x | x in MacsIn(list')
      ensures x in MacsIn(list) + MacsIn([ni])
    {
      var i :| i in list' && IsMac(NormalMac(i.mac)) && NormalMac(i.mac) == x;
      var j :| 0 <= j < |list'| && list'[j] == i;
      if j < |list| && i.mac == list[j].mac {
        assert list[j] in list;
      } else {
        assert i.mac == ni.mac && ni in [ni];
      }
    }
    if ni.mac.Held? {
      assert list'[k].mac.Held? && list'[k] in list';
    } else if !Wipes(ni) && AnyMac(list) {
      var i :| i in list && i.mac.Held?;
      var j :| 0 <= j < |list| && list[j] == i;
      assert list'[j].mac.Held? && list'[j] in list';
    }
  }

  lemma {:induction false} AddInterfacesKeep(list: seq<Interface>, news: seq<Interface>, n: nat)
    requires n <= |news|
    ensures MacsIn(AddInterfaces(list, news, n)) <= MacsIn(list) + MacsIn(news)
    ensures AnyMac(list) && NoneWipes(news, 0) ==> AnyMac(AddInterfaces(list, news, n))
    decreases n
  {
    if n > 0 {
      AddInterfacesKeep(list, news, n - 1);
      AddInterfaceKeeps(AddInterfaces(list, news, n - 1), news[n - 1]);
      assert MacsIn([news[n - 1]]) <= MacsIn(news) by { assert news[n - 1] in news; }
    }
  }

  /** `e` is what is stored for `i`. */
  predicate StoredFrom(e: Interface, i: Interface)
  {
    && e.mac.Held? && i.mac.Held? && Lower(e.mac.value) == Lower(i.mac.value)
    && (i.ip.Absent? || e.ip == i.ip)
  }

  lemma {:induction false} UntouchedIsStored(list: seq<Interface>, news: seq<Interface>, i: nat, n: nat)
    requires i < n <= |news| && Untouched(news, i, n)
    ensures exists e :: e in AddInterfaces(list, news, n) && StoredFrom(e, news[i])
    decreases n
  {
    var before := AddInterfaces(list, news, n - 1);
    if i < n - 1 {
      UntouchedIsStored(list, news, i, n - 1);
    }
    StoredStays(before, news[i], news[n - 1], i == n - 1);
  }

  /** What is stored for `i` stays so when `ni` comes, and `i` itself is stored. */
  lemma StoredStays(list: seq<Interface>, i: Interface, ni: Interface, same: bool)
    requires i.mac.Held? && if same then i == ni else exists e :: e in list && StoredFrom(e, i)
    requires !same && MayMeet(i, ni) ==> ni.mac.Absent? || Renews(i, ni)
    ensures exists e :: e in AddInterface(list, ni) && StoredFrom(e, i)
  {
    var list', k := AddInterface(list, ni), FindInterface(list, ni, 0);
    if same {
      assert list'[k] in list' && StoredFrom(list'[k], i);
    } else {
      var e :| e in list && StoredFrom(e, i);
      var m :| 0 <= m < |list| && list[m] == e;
      assert m == k ==> MayMeet(i, ni);
      assert list'[m] in list' && StoredFrom(list'[m], i);
    }
  }

  // ----- counting the entries that have a MAC -----

  predicate HasMac(i: Interface) { i.mac.Held? }

  function MacEntries(list: seq<Interface>): nat { |Keeping(list, HasMac)| }

  /** The entry found at an IP has no MAC. */
  predicate EmptyAt(list: seq<Interface>, ip: string)
  {
    var k := FindInterface(list, Interface(Absent, Held(ip)), 0);
    k < |list| && !list[k].mac.Held?
  }

  lemma {:induction false} FoundByIp(list: seq<Interface>, ni: Interface, n: nat)
    requires !ni.mac.Held? && n <= |list|
    ensures FindInterface(list, ni, n) == FindInterface(list, Interface(Absent, ni.ip), n)
    decreases |list| - n
  {
    if n < |list| {
      FoundByIp(list, ni, n + 1);
    }
  }

  lemma {:induction false} FoundAtSameIp(list: seq<Interface>, list': seq<Interface>, ip: string, n: nat)
    requires n <= |list| <= |list'| && FindInterface(list, Interface(Absent, Held(ip)), n) < |list|
    requires forall j :: n <= j <= FindInterface(list, Interface(Absent, Held(ip)), n) ==>
      (list'[j].ip == Held(ip) <==> list[j].ip == Held(ip))
    ensures FindInterface(list', Interface(Absent, Held(ip)), n) == FindInterface(list, Interface(Absent, Held(ip)), n)
    decreases |list| - n
  {
    if list[n].ip != Held(ip) {
      FoundAtSameIp(list, list', ip, n + 1);
    }
  }

  lemma MacEntriesStep(list: seq<Interface>, ni: Interface)
    ensures ni.mac.Held? || ni.mac.Absent? || !ni.ip.Held? ==> MacEntries(AddInterface(list, ni)) >= MacEntries(list)
    ensures MacEntries(AddInterface(list, ni)) >= MacEntries(list) - 1
    ensures Wipes(ni) && EmptyAt(list, ni.ip.value) ==> MacEntries(AddInterface(list, ni)) >= MacEntries(list)
  {
    var k := FindInterface(list, ni, 0);
    if k < |list| {
      KeepingUpdated(list, HasMac, k, AddInterface(list, ni)[k]);
      if !ni.mac.Held? {
        FoundByIp(list, ni, 0);
      }
    } else {
      assert (list + [ni])[..|list|] == list;
    }
  }

  /** What is empty at an IP stays so until an interface with a MAC comes there. */
  lemma EmptyStays(list: seq<Interface>, ni: Interface, ip: string)
    requires EmptyAt(list, ip) && !(ni.mac.Held? && ni.ip == Held(ip))
    ensures EmptyAt(AddInterface(list, ni), ip)
  {
    FoundAtSameIp(list, AddInterface(list, ni), ip, 0);
  }

  /** A wiper empties what it finds, or is put there empty. */
  lemma WipedIsEmpty(list: seq<Interface>, ni: Interface)
    requires Wipes(ni)
    ensures EmptyAt(AddInterface(list, ni), ni.ip.value)
  {
    FoundByIp(list, ni, 0);
    if FindInterface(list, ni, 0) < |list| {
      FoundAtSameIp(list, AddInterface(list, ni), ni.ip.value, 0);
    } else {
      NewIsFound(list, ni, 0);
    }
  }

  lemma {:induction false} EmptiedAreEmpty(list: seq<Interface>, news: seq<Interface>, n: nat, ip: string)
    requires n <= |news| && ip in Emptied(news, n)
    ensures EmptyAt(AddInterfaces(list, news, n), ip)
    decreases n
  {
    var before, ni := AddInterfaces(list, news, n - 1), news[n - 1];
    if Wipes(ni) && ni.ip.value == ip {
      WipedIsEmpty(before, ni);
    } else {
      EmptiedAreEmpty(list, news, n - 1, ip);
      EmptyStays(before, ni, ip);
    }
  }

  /** An entry put at the end, because there was none at its IP, is the one found there. */
  lemma {:induction false} NewIsFound(list: seq<Interface>, ni: Interface, n: nat)
    requires n <= |list| && ni.ip.Held? && FindInterface(list, Interface(Absent, ni.ip), n) == |list|
    ensures FindInterface(list + [ni], Interface(Absent, ni.ip), n) == |list|
    decreases |list| - n
  {
    if n < |list| {
      NewIsFound(list, ni, n + 1);
    }
  }

  lemma {:induction false} LossesBound(list: seq<Interface>, news: seq<Interface>, n: nat)
    requires n <= |news|
    ensures MacEntries(AddInterfaces(list, news, |news|)) >= MacEntries(AddInterfaces(list, news, n)) - Losses(news, n)
    decreases |news| - n
  {
    if n < |news| {
      MacEntriesStep(AddInterfaces(list, news, n), news[n]);
      if Wipes(news[n]) && news[n].ip.value in Emptied(news, n) {
        EmptiedAreEmpty(list, news, n, news[n].ip.value);
      }
      LossesBound(list, news, n + 1);
    }
  }

  lemma {:induction false} MacsNeedEntries(list: seq<Interface>, macs: set<string>)
    requires forall x :: x in macs ==> exists e :: e in list && e.mac.Held? && Lower(e.mac.value) == x
    ensures |macs| <= MacEntries(list)
    decreases |list|
  {
    if list == [] {
      assert macs == {};
    } else {
      var init, last := list[..|list| - 1], list[|list| - 1];
      var fewer := if last.mac.Held? then macs - {Lower(last.mac.value)} else macs;
      forall x | x in fewer
        ensures exists e :: e in init && e.mac.Held? && Lower(e.mac.value) == x
      {
        var e :| e in list && e.mac.Held? && Lower(e.mac.value) == x;
        assert e in init;
      }
      MacsNeedEntries(init, fewer);
    }
  }

  lemma StoredMoreThanLost(list: seq<Interface>, news: seq<Interface>, n: nat)
    requires n <= |news| && |StoredMacs(news, n)| > Losses(news, n)
    ensures AnyMac(AddInterfaces(list, news, |news|))
  {
    forall x | x in StoredMacs(news, n)
      ensures exists e :: e in AddInterfaces(list, news, n) && e.mac.Held? && Lower(e.mac.value) == x
    {
      var i :| 0 <= i < n && Untouched(news, i, n) && Lower(news[i].mac.value) == x;
      UntouchedIsStored(list, news, i, n);
    }
    MacsNeedEntries(AddInterfaces(list, news, n), StoredMacs(news, n));
    LossesBound(list, news, n);
    var merged := AddInterfaces(list, news, |news|);
    var left := Keeping(merged, HasMac);
    assert left[0] in left && left[0] in merged;
  }

  lemma MacsAre(m: Meta)
    ensures Macs(m) == MacsIn(Interfaces(m)) + if IsMac(NormalMac(m.mac)) then {NormalMac(m.mac)} else {}
    ensures Strong(m) <==> m.mac.Held? || AnyMac(Interfaces(m))
    ensures Macs(m) != {} ==> Strong(m)
  {
    if x :| x in Macs(m) {
      if i :| i in Interfaces(m) && NormalMac(i.mac) == x {
        assert i.mac.Held? || x == "";
      }
    }
  }

  /** Merging brings in no MAC that neither side had, and a careful report never loses the fact that there was one. */
  lemma MergedIdentity(stored: Meta, reported: Meta)
    ensures Macs(MergedMeta(stored, reported)) <= Macs(stored) + Macs(reported)
    ensures BringsMac(reported) ==> Strong(MergedMeta(stored, reported))
    ensures WipesNothing(reported) && Strong(stored) ==> Strong(MergedMeta(stored, reported))
  {
    var m := MergedMeta(stored, reported);
    MacsAre(stored);
    MacsAre(reported);
    MacsAre(m);
    if reported.interfaces.Held? {
      var news := reported.interfaces.value;
      AddInterfacesKeep(Interfaces(stored), news, |news|);
      if n :| 0 <= n <= |news| && |StoredMacs(news, n)| > Losses(news, n) {
        StoredMoreThanLost(Interfaces(stored), news, n);
      }
    }
  }

  // ----- what the loop keeps -----

  ghost predicate DistinctRows(rows: seq<Row>)
  {
    forall r, s :: r in rows && s in rows && r.id == s.id ==> r == s
  }

  ghost predicate HasId(rows: seq<Row>, id: Id)
  {
    exists r :: r in rows && r.id == id
  }

  /** Device `j` of the first `n` went into the row `id`. */
  ghost predicate WentTo(inv: Inventory, j: int, id: Id)
  {
    0 <= j < |inv.actual| && inv.actual[j] == id
  }

  /** Where row `r` comes from: untouched, or merged from devices on top of what was stored. */
  ghost predicate Accounted(run: Run, rows0: seq<Row>, devices: seq<Device>, inv: Inventory, r: Row)
    requires |inv.actual| <= |devices|
  {
    && (r in rows0 || exists j :: WentTo(inv, j, r.id))
    && ((exists j :: WentTo(inv, j, r.id)) ==> run.source in r.sources)
    && (forall r0 :: r0 in rows0 && r0.id == r.id ==>
          && r.kind == r0.kind && r.slug == r0.slug && r.createdByHand == r0.createdByHand && r.archived == r0.archived
          && r0.sources <= r.sources <= r0.sources + {run.source})
    && (forall x :: x in Macs(r.meta) ==> MacFrom(rows0, devices, inv, r.id, x))
    && (AllCareful(devices) && IdentityKnown(rows0, devices, inv, r.id) ==> Strong(r.meta))
  }

  ghost predicate AllCareful(devices: seq<Device>)
  {
    forall d :: d in devices ==> Careful(d)
  }

  /** The MAC `x` of row `id` was there at the start, or a device that went into the row brought it. */
  ghost predicate MacFrom(rows0: seq<Row>, devices: seq<Device>, inv: Inventory, id: Id, x: string)
    requires |inv.actual| <= |devices|
  {
    || (exists r :: r in rows0 && r.id == id && x in Macs(r.meta))
    || (exists j :: WentTo(inv, j, id) && x in Macs(devices[j].meta))
  }

  /** The row `id` had a MAC at the start, or a device with one went into it. */
  ghost predicate IdentityKnown(rows0: seq<Row>, devices: seq<Device>, inv: Inventory, id: Id)
    requires |inv.actual| <= |devices|
  {
    || (exists r :: r in rows0 && r.id == id && Strong(r.meta))
    || (exists j :: WentTo(inv, j, id) && Macs(devices[j].meta) != {})
  }

  ghost predicate MergeInv(run: Run, rows0: seq<Row>, devices: seq<Device>, inv: Inventory)
  {
    && |inv.actual| <= |devices|
    && DistinctRows(rows0) && DistinctRows(inv.rows)
    && (forall r :: r in rows0 ==> HasId(inv.rows, r.id))
    && (forall j :: 0 <= j < |inv.actual| ==> HasId(inv.rows, inv.actual[j]))
    && (forall r :: r in inv.rows ==> Accounted(run, rows0, devices, inv, r))
  }

  lemma ReplacedAre(rows: seq<Row>, id: Id, row: Row)
    ensures forall s :: s in Replaced(rows, id, row) <==> (s in rows && s.id != id) || (s == row && HasId(rows, id))
  {
    var rows' := Replaced(rows, id, row);
    forall s
      ensures s in rows' <==> (s in rows && s.id != id) || (s == row && HasId(rows, id))
    {
      if s in rows' {
        var k :| 0 <= k < |rows'| && rows'[k] == s;
        assert rows[k] in rows;
      }
      if s in rows && s.id != id {
        var k :| 0 <= k < |rows| && rows[k] == s;
        assert rows'[k] == s;
      }
      if HasId(rows, id) {
        var t :| t in rows && t.id == id;
        var k :| 0 <= k < |rows| && rows[k] == t;
        assert rows'[k] == row;
      }
    }
  }

  lemma WentToSnoc(inv: Inventory, inv': Inventory, id: Id)
    requires inv'.actual == inv.actual + [id]
    ensures forall j, x :: WentTo(inv', j, x) <==> WentTo(inv, j, x) || (j == |inv.actual| && x == id)
  {
  }

  /** Rows the device did not go into stay accounted for. */
  lemma OthersStayAccounted(run: Run, rows0: seq<Row>, devices: seq<Device>, inv: Inventory, inv': Inventory, id: Id,
                            s: Row)
    requires |inv.actual| < |devices| && inv'.actual == inv.actual + [id] && s.id != id
    requires Accounted(run, rows0, devices, inv, s)
    ensures Accounted(run, rows0, devices, inv', s)
  {
    WentToSnoc(inv, inv', id);
    forall x | x in Macs(s.meta)
      ensures MacFrom(rows0, devices, inv', s.id, x)
    {
      assert MacFrom(rows0, devices, inv, s.id, x);
      if j :| WentTo(inv, j, s.id) && x in Macs(devices[j].meta) {
        assert WentTo(inv', j, s.id);
      }
    }
    if j :| WentTo(inv, j, s.id) {
      assert WentTo(inv', j, s.id);
    }
  }

  /** A row with an identity takes in a device only by id or MAC. */
  ghost predicate Entitled(d: Device, r: Row)
  {
    Strong(r.meta) ==> d.id.Some? || Macs(d.meta) != {}
  }

  lemma UpdatedIsAccounted(run: Run, rows0: seq<Row>, devices: seq<Device>, inv: Inventory, inv': Inventory, r: Row)
    requires |inv.actual| < |devices| && inv'.actual == inv.actual + [r.id]
    requires Accounted(run, rows0, devices, inv, r) && Entitled(devices[|inv.actual|], r)
    ensures Accounted(run, rows0, devices, inv', Updated(run, r, devices[|inv.actual|]))
  {
    var n := |inv.actual|;
    WentToSnoc(inv, inv', r.id);
    assert WentTo(inv', n, r.id);
    MergedIdentity(r.meta, devices[n].meta);
    forall x | x in Macs(MergedMeta(r.meta, devices[n].meta))
      ensures MacFrom(rows0, devices, inv', r.id, x)
    {
      if x in Macs(r.meta) {
        assert MacFrom(rows0, devices, inv, r.id, x);
        if j :| WentTo(inv, j, r.id) && x in Macs(devices[j].meta) {
          assert WentTo(inv', j, r.id);
        }
      }
    }
    if AllCareful(devices) && IdentityKnown(rows0, devices, inv', r.id) {
      assert Careful(devices[n]) by { assert devices[n] in devices; }
      if j :| WentTo(inv', j, r.id) && Macs(devices[j].meta) != {} {
        assert j == n || WentTo(inv, j, r.id);
      }
    }
  }

  lemma NewIsAccounted(run: Run, rows0: seq<Row>, devices: seq<Device>, inv: Inventory, inv': Inventory, minted: nat)
    requires |inv.actual| < |devices|
    requires var row := NewRow(run, devices[|inv.actual|], minted);
      inv'.actual == inv.actual + [row.id] && !HasId(rows0, row.id) && forall j :: !WentTo(inv, j, row.id)
    ensures Accounted(run, rows0, devices, inv', NewRow(run, devices[|inv.actual|], minted))
  {
    var n := |inv.actual|;
    var row := NewRow(run, devices[n], minted);
    WentToSnoc(inv, inv', row.id);
    assert WentTo(inv', n, row.id);
    MacsAre(row.meta);
  }

  lemma MergeOneKeeps(run: Run, rows0: seq<Row>, devices: seq<Device>, inv: Inventory)
    requires MergeInv(run, rows0, devices, inv) && |inv.actual| < |devices|
    requires MergeOne(run, inv, devices[|inv.actual|]).Some?
    ensures var inv' := MergeOne(run, inv, devices[|inv.actual|]).value;
      MergeInv(run, rows0, devices, inv') && |inv'.actual| == |inv.actual| + 1
  {
    var d := devices[|inv.actual|];
    var inv' := MergeOne(run, inv, d).value;
    var pool := Pool(run, inv.rows, d, |inv.rows|);
    var scope := ScopeOf(run, inv.siteOf);
    scope.MatchIff(d, pool, scope.Match(d, pool));
    match scope.Match(d, pool)
    case Some(r) => UpdateKeeps(run, rows0, devices, inv, inv', r);
    case None => CreateKeeps(run, rows0, devices, inv, inv');
  }

  lemma UpdateKeeps(run: Run, rows0: seq<Row>, devices: seq<Device>, inv: Inventory, inv': Inventory, r: Row)
    requires MergeInv(run, rows0, devices, inv) && |inv.actual| < |devices| && r in inv.rows
    requires Entitled(devices[|inv.actual|], r)
    requires var row := Updated(run, r, devices[|inv.actual|]);
      inv'.rows == Replaced(inv.rows, r.id, row) && inv'.actual == inv.actual + [r.id]
    ensures MergeInv(run, rows0, devices, inv')
  {
    var row := Updated(run, r, devices[|inv.actual|]);
    ReplacedAre(inv.rows, r.id, row);
    UpdatedIsAccounted(run, rows0, devices, inv, inv', r);
    forall s | s in inv'.rows
      ensures Accounted(run, rows0, devices, inv', s)
    {
      if s.id != r.id {
        OthersStayAccounted(run, rows0, devices, inv, inv', r.id, s);
      }
    }
    forall id | HasId(inv.rows, id)
      ensures HasId(inv'.rows, id)
    {
      var s :| s in inv.rows && s.id == id;
      assert (if id == r.id then row else s) in inv'.rows;
    }
  }

  lemma CreateKeeps(run: Run, rows0: seq<Row>, devices: seq<Device>, inv: Inventory, inv': Inventory)
    requires MergeInv(run, rows0, devices, inv) && |inv.actual| < |devices|
    requires var row := NewRow(run, devices[|inv.actual|], inv.minted);
      !Taken(inv.rows, row) && inv'.rows == inv.rows + [row] && inv'.actual == inv.actual + [row.id]
    ensures MergeInv(run, rows0, devices, inv')
  {
    var row := NewRow(run, devices[|inv.actual|], inv.minted);
    assert !HasId(inv.rows, row.id);
    NewIsAccounted(run, rows0, devices, inv, inv', inv.minted);
    forall s | s in inv'.rows
      ensures Accounted(run, rows0, devices, inv', s)
    {
      if s != row {
        OthersStayAccounted(run, rows0, devices, inv, inv', row.id, s);
      }
    }
    forall id | HasId(inv.rows, id)
      ensures HasId(inv'.rows, id)
    {
      var s :| s in inv.rows && s.id == id;
      assert s in inv'.rows;
    }
    assert row in inv'.rows;
  }

  lemma MergeOneExtends(run: Run, inv: Inventory, d: Device) returns (id: Id)
    requires MergeOne(run, inv, d).Some?
    ensures MergeOne(run, inv, d).value.actual == inv.actual + [id]
  {
    match ScopeOf(run, inv.siteOf).Match(d, Pool(run, inv.rows, d, |inv.rows|))
    case Some(r) => id := r.id;
    case None => id := NewRow(run, d, inv.minted).id;
  }

  lemma {:induction false} TraceKeeps(run: Run, trace: seq<Inventory>, devices: seq<Device>, n: nat)
    requires IsTrace(run, trace, devices) && DistinctRows(trace[0].rows) && trace[0].actual == [] && n < |trace|
    ensures MergeInv(run, trace[0].rows, devices, trace[n]) && |trace[n].actual| == n
    decreases n
  {
    if n > 0 {
      TraceKeeps(run, trace, devices, n - 1);
      assert MergeOne(run, trace[n - 1], devices[n - 1]) == Some(trace[n]);
      MergeOneKeeps(run, trace[0].rows, devices, trace[n - 1]);
    }
  }

  lemma {:induction false} ActualGrows(run: Run, trace: seq<Inventory>, devices: seq<Device>, m: nat, n: nat)
    requires IsTrace(run, trace, devices) && m <= n < |trace|
    ensures trace[m].actual <= trace[n].actual
    decreases n - m
  {
    if m < n {
      ActualGrows(run, trace, devices, m, n - 1);
      assert MergeOne(run, trace[n - 1], devices[n - 1]) == Some(trace[n]);
      var id := MergeOneExtends(run, trace[n - 1], devices[n - 1]);
    }
  }

  // ----- two devices never end in one row -----

  /** The report tells its devices apart by MAC. */
  ghost predicate ToldApart(devices: seq<Device>)
  {
    forall j, k :: 0 <= j < k < |devices| ==> Macs(devices[j].meta) !! Macs(devices[k].meta)
  }

  /** The stored row `id` shares a MAC with the device. */
  ghost predicate Meets(rows0: seq<Row>, id: Id, d: Device)
  {
    exists r :: r in rows0 && r.id == id && Macs(r.meta) * Macs(d.meta) != {}
  }

  /** A device that goes into a strong row goes there because a stored row's MAC, of the same id, is its own. */
  lemma StrongRowIsMetByMac(run: Run, rows0: seq<Row>, devices: seq<Device>, inv: Inventory, id: Id)
    requires ToldApart(devices) && GoesTo(run, rows0, devices, inv, id)
    requires HasId(inv.rows, id) && forall r :: r in inv.rows && r.id == id ==> Strong(r.meta)
    ensures Meets(rows0, id, devices[|inv.actual|])
  {
    var n := |inv.actual|;
    var r := MetByMac(run, inv, devices[n], id);
    var x :| x in Macs(devices[n].meta) * Macs(r.meta);
    assert Accounted(run, rows0, devices, inv, r) && MacFrom(rows0, devices, inv, id, x);
    var r0 :| r0 in rows0 && r0.id == id && x in Macs(r0.meta);
    assert x in Macs(r0.meta) * Macs(devices[n].meta);
  }

  lemma MetByMac(run: Run, inv: Inventory, d: Device, id: Id) returns (r: Row)
    requires d.id == None && MergesInto(run, inv, d, id)
    requires HasId(inv.rows, id) && forall r :: r in inv.rows && r.id == id ==> Strong(r.meta)
    ensures r in inv.rows && r.id == id && Macs(d.meta) * Macs(r.meta) != {}
  {
    var pool := Pool(run, inv.rows, d, |inv.rows|);
    var scope := ScopeOf(run, inv.siteOf);
    scope.MatchIff(d, pool, scope.Match(d, pool));
    var out := MergeOne(run, inv, d).value;
    assert out.actual[|inv.actual|] == id;
    r :| r in inv.rows && r.id == id;
    var m := scope.Match(d, pool);
    if m.Some? {
      r := m.value;
    }
  }

  /** Two reported devices that carry MACs and no ids never end in the same row, unless that row was stored
      with a MAC of each. */
  lemma TwoDevicesStayApart(run: Run, trace: seq<Inventory>, devices: seq<Device>, j: nat, k: nat)
    requires IsTrace(run, trace, devices) && |trace| == |devices| + 1
    requires DistinctRows(trace[0].rows) && trace[0].actual == []
    requires AllCareful(devices) && ToldApart(devices)
    requires j < k < |devices| && devices[j].id == devices[k].id == None
    requires Macs(devices[j].meta) != {} && Macs(devices[k].meta) != {}
    ensures var actual := trace[|devices|].actual;
      && |actual| == |devices|
      && (actual[j] == actual[k] ==>
            exists r :: r in trace[0].rows && r.id == actual[k]
              && Macs(r.meta) * Macs(devices[j].meta) != {} && Macs(r.meta) * Macs(devices[k].meta) != {})
  {
    TraceKeeps(run, trace, devices, |devices|);
    var actual := trace[|devices|].actual;
    StateBefore(run, trace, devices, j);
    StateBefore(run, trace, devices, k);
    if actual[j] == actual[k] {
      SameRowMeansSharedMac(run, trace[0].rows, devices, trace[j], trace[k], actual[k]);
    }
  }

  /** If device `k` went where the earlier device `j` had gone, a stored row shares a MAC with each. */
  lemma SameRowMeansSharedMac(run: Run, rows0: seq<Row>, devices: seq<Device>, beforeJ: Inventory, beforeK: Inventory,
                              id: Id)
    requires DistinctRows(rows0) && ToldApart(devices) && AllCareful(devices)
    requires GoesTo(run, rows0, devices, beforeJ, id) && GoesTo(run, rows0, devices, beforeK, id)
    requires WentTo(beforeK, |beforeJ.actual|, id)
    requires Macs(devices[|beforeJ.actual|].meta) != {}
    ensures Meets(rows0, id, devices[|beforeJ.actual|]) && Meets(rows0, id, devices[|beforeK.actual|])
  {
    AnIdentityIsStrong(run, rows0, devices, beforeK, id, |beforeJ.actual|);
    StrongRowIsMetByMac(run, rows0, devices, beforeK, id);
    var r :| r in rows0 && r.id == id && Macs(r.meta) * Macs(devices[|beforeK.actual|].meta) != {};
    MacsAre(r.meta);
    StoredIdentityIsStrong(run, rows0, devices, beforeJ, r);
    StrongRowIsMetByMac(run, rows0, devices, beforeJ, id);
  }

  /** In this state of the loop, the next device, which has no id, goes into row `id`. */
  ghost predicate GoesTo(run: Run, rows0: seq<Row>, devices: seq<Device>, inv: Inventory, id: Id)
  {
    && MergeInv(run, rows0, devices, inv) && |inv.actual| < |devices| && devices[|inv.actual|].id == None
    && MergesInto(run, inv, devices[|inv.actual|], id)
  }

  ghost predicate MergesInto(run: Run, inv: Inventory, device: Device, id: Id)
  {
    forall d {:trigger MergeOne(run, inv, d)} :: d == device ==>
      MergeOne(run, inv, d).Some? && MergeOne(run, inv, d).value.actual == inv.actual + [id]
  }

  lemma StateBefore(run: Run, trace: seq<Inventory>, devices: seq<Device>, k: nat)
    requires IsTrace(run, trace, devices) && |trace| == |devices| + 1 && k < |devices| && devices[k].id == None
    requires DistinctRows(trace[0].rows) && trace[0].actual == []
    ensures var actual := trace[|devices|].actual;
      && |actual| == |devices| && trace[k].actual == actual[..k]
      && GoesTo(run, trace[0].rows, devices, trace[k], actual[k])
  {
    TraceKeeps(run, trace, devices, k);
    TraceKeeps(run, trace, devices, k + 1);
    TraceKeeps(run, trace, devices, |devices|);
    ActualGrows(run, trace, devices, k, |devices|);
    ActualGrows(run, trace, devices, k + 1, |devices|);
    assert MergeOne(run, trace[k], devices[k]) == Some(trace[k + 1]);
    var id := MergeOneExtends(run, trace[k], devices[k]);
    assert trace[k + 1].actual[k] == id;
  }

  lemma AnIdentityIsStrong(run: Run, rows0: seq<Row>, devices: seq<Device>, inv: Inventory, id: Id, j: nat)
    requires MergeInv(run, rows0, devices, inv) && AllCareful(devices) && WentTo(inv, j, id)
    requires Macs(devices[j].meta) != {}
    ensures HasId(inv.rows, id) && forall r :: r in inv.rows && r.id == id ==> Strong(r.meta)
  {
    assert IdentityKnown(rows0, devices, inv, id);
  }

  lemma StoredIdentityIsStrong(run: Run, rows0: seq<Row>, devices: seq<Device>, inv: Inventory, r: Row)
    requires MergeInv(run, rows0, devices, inv) && AllCareful(devices) && r in rows0 && Strong(r.meta)
    ensures HasId(inv.rows, r.id) && forall s :: s in inv.rows && s.id == r.id ==> Strong(s.meta)
  {
    assert IdentityKnown(rows0, devices, inv, r.id);
  }

  // ----- why devices have to be careful -----

  lemma BlankOverridesMac(mac: string, ip: string)
    ensures var i0, i1 := Interface(Held(mac), Held(ip)), Interface(Blank, Held(ip));
      AddInterfaces([i0], [i0, i1], 2) == [i1]
  {
    var i0, i1 := Interface(Held(mac), Held(ip)), Interface(Blank, Held(ip));
    assert AddInterface([i0], i0) == [i0] && AddInterface([i0], i1) == [i1];
    assert AddInterfaces([i0], [i0, i1], 0) == [i0];
    assert AddInterfaces([i0], [i0, i1], 1) == [i0];
  }

  function MetaOf(list: seq<Interface>, rest: map<string, string>): Meta
  {
    Meta(Absent, Absent, Absent, Held(list), rest)
  }

  function DeviceOf(kind: string, rest: map<string, string>, list: seq<Interface>): Device
  {
    Device(None, kind, "", "", MetaOf(list, rest))
  }

  /** A device that reports its MAC and IP, and then the same IP with an empty MAC. */
  function Careless(kind: string, rest: map<string, string>, mac: string, ip: string): Device
  {
    DeviceOf(kind, rest, [Interface(Held(mac), Held(ip)), Interface(Blank, Held(ip))])
  }

  /** A second device, with a MAC of its own, at the same IP. */
  function Neighbour(kind: string, rest: map<string, string>, other: string, ip: string): Device
  {
    DeviceOf(kind, rest, [Interface(Held(other), Held(ip))])
  }

  lemma OneInterface(f: Field<string>, ip: string, rest: map<string, string>)
    requires ip != ""
    ensures var m := MetaOf([Interface(f, Held(ip))], rest);
      Macs(m) == (if IsMac(NormalMac(f)) then {NormalMac(f)} else {}) && Ips(m) == {ip} && (Strong(m) <==> f.Held?)
  {
    var m := MetaOf([Interface(f, Held(ip))], rest);
    assert Interfaces(m)[0] in Interfaces(m);
    assert forall i :: i in Interfaces(m) <==> i == Interface(f, Held(ip));
  }

  /** What it stores it loses again. */
  lemma CarelessCounts(list: seq<Interface>, mac: string, ip: string, n: nat)
    requires list == [Interface(Held(mac), Held(ip)), Interface(Blank, Held(ip))] && n <= 2
    ensures |StoredMacs(list, n)| <= Losses(list, n)
  {
    if n == 1 {
      assert StoredMacs(list, 1) <= {Lower(mac)};
      SubsetCardinality(StoredMacs(list, 1), {Lower(mac)});
      assert Losses(list, 2) == 0 && Emptied(list, 1) == {};
    } else {
      assert MayMeet(list[0], list[1]);
      assert StoredMacs(list, n) == {};
    }
  }

  lemma {:induction false} SubsetCardinality(a: set<string>, b: set<string>)
    requires a <= b
    ensures |a| <= |b|
    decreases b
  {
    if x :| x in b {
      SubsetCardinality(a - {x}, b - {x});
    }
  }

  lemma CarelessMacs(kind: string, rest: map<string, string>, mac: string, ip: string)
    requires IsMac(NormalMac(Held(mac)))
    ensures var d := Careless(kind, rest, mac, ip);
      Macs(d.meta) == {NormalMac(Held(mac))} && Ips(d.meta) <= {ip} && !Careful(d)
  {
    var m := Careless(kind, rest, mac, ip).meta;
    assert Interfaces(m)[0] in Interfaces(m);
    assert forall i :: i in Interfaces(m) <==> i == Interfaces(m)[0] || i == Interfaces(m)[1];
    forall n | 0 <= n <= 2
      ensures |StoredMacs(Interfaces(m), n)| <= Losses(Interfaces(m), n)
    {
      CarelessCounts(Interfaces(m), mac, ip, n);
    }
  }

  /** The row goes on to hold what the device was merged into, and the others stay. */
  function Folded(run: Run, inv: Inventory, r: Row, d: Device): Inventory
  {
    inv.(rows := Replaced(inv.rows, r.id, Updated(run, r, d)), actual := inv.actual + [r.id])
  }

  /** A device that has no id, and is like this row alone among the candidates, is merged into it. */
  lemma MergesIntoOnly(run: Run, inv: Inventory, r: Row, d: Device)
    requires d.id == None && Compatible(run, d, r) && r in inv.rows
    requires ScopeOf(run, inv.siteOf).SameMac(d, r) || ScopeOf(run, inv.siteOf).SameIp(d, r)
    requires forall s :: s in inv.rows && s != r && Compatible(run, d, s) ==>
      !ScopeOf(run, inv.siteOf).SameMac(d, s) && !ScopeOf(run, inv.siteOf).SameIp(d, s)
    ensures MergeOne(run, inv, d) == Some(Folded(run, inv, r, d))
  {
    var scope, pool := ScopeOf(run, inv.siteOf), Pool(run, inv.rows, d, |inv.rows|);
    InPool(run, inv.rows, d, r, |inv.rows|);
    PoolIsCompatible(run, inv.rows, d, |inv.rows|);
    scope.MatchIff(d, pool, scope.Match(d, pool));
    assert scope.Match(d, pool) == Some(r);
  }

  lemma {:induction false} PoolIsCompatible(run: Run, rows: seq<Row>, d: Device, n: nat)
    requires n <= |rows|
    ensures forall r :: r in Pool(run, rows, d, n) ==> Compatible(run, d, r)
    decreases n
  {
    if n > 0 {
      PoolIsCompatible(run, rows, d, n - 1);
    }
  }

  lemma {:induction false} InPool(run: Run, rows: seq<Row>, d: Device, r: Row, n: nat)
    requires n <= |rows| && Compatible(run, d, r) && r in rows[..n]
    ensures r in Pool(run, rows, d, n)
    decreases n
  {
    if r != rows[n - 1] {
      assert r in rows[..n - 1];
      InPool(run, rows, d, r, n - 1);
    }
  }

  lemma TwoStepTrace(run: Run, a: Inventory, b: Inventory, c: Inventory, d: Device, e: Device)
    requires MergeOne(run, a, d) == Some(b) && MergeOne(run, b, e) == Some(c)
    ensures IsTrace(run, [a, b, c], [d, e])
  {
    var trace, devices := [a, b, c], [d, e];
    forall i | 0 <= i < 2
      ensures MergeOne(run, trace[i], devices[i]) == Some(trace[i + 1])
    {
    }
  }

  lemma CarelessWipes(run: Run, r: Row, mac: string, ip: string)
    requires IsMac(NormalMac(Held(mac))) && ip != "" && r.meta == MetaOf([Interface(Held(mac), Held(ip))], r.meta.rest)
    ensures var d := Careless(r.kind, r.meta.rest, mac, ip);
      var wiped := Updated(run, r, d);
      && wiped.id == r.id && wiped.kind == r.kind && wiped.meta == MetaOf([Interface(Blank, Held(ip))], r.meta.rest)
      && Macs(r.meta) == Macs(d.meta) == {NormalMac(Held(mac))} && Macs(wiped.meta) == {}
      && !Strong(wiped.meta) && Strong(r.meta) && Ips(wiped.meta) == {ip}
  {
    OneInterface(Held(mac), ip, r.meta.rest);
    OneInterface(Blank, ip, r.meta.rest);
    CarelessMacs(r.kind, r.meta.rest, mac, ip);
    BlankOverridesMac(mac, ip);
    assert r.meta.rest + r.meta.rest == r.meta.rest;
    assert Updated(run, r, Careless(r.kind, r.meta.rest, mac, ip)).meta
        == MetaOf([Interface(Blank, Held(ip))], r.meta.rest);
  }

  lemma TwoToldApart(a: Device, b: Device)
    requires Macs(a.meta) !! Macs(b.meta)
    ensures ToldApart([a, b])
  {
  }

  /** The row and the two MACs: different ones, of which the row has the first. */
  ghost predicate AtRisk(run: Run, inv: Inventory, r: Row, mac: string, other: string, ip: string)
  {
    && IsMac(NormalMac(Held(mac))) && IsMac(NormalMac(Held(other))) && NormalMac(Held(mac)) != NormalMac(Held(other))
    && ip != "" && r.meta == MetaOf([Interface(Held(mac), Held(ip))], r.meta.rest)
    && DistinctRows(inv.rows) && inv.actual == [] && r in inv.rows && ScopeOf(run, inv.siteOf).AtSite(r)
    && forall s :: s in inv.rows && s != r ==> Elsewhere(run, inv.siteOf, r, s, mac, other, ip)
  }

  /** Row `s` has nothing that a device of the kind of `r` could be known by. */
  ghost predicate Elsewhere(run: Run, siteOf: map<Id, Option<Id>>, r: Row, s: Row, mac: string, other: string,
                            ip: string)
  {
    || !Compatible(run, Like(r.kind, r.meta.rest), s)
    || (Macs(s.meta) !! {NormalMac(Held(mac)), NormalMac(Held(other))} && !Exposed(run, siteOf, s, ip))
  }

  function Like(kind: string, rest: map<string, string>): Device { DeviceOf(kind, rest, []) }

  /** The row lies open to any device that has this IP. */
  ghost predicate Exposed(run: Run, siteOf: map<Id, Option<Id>>, r: Row, ip: string)
  {
    !Strong(r.meta) && ScopeOf(run, siteOf).AtSite(r) && ip in Ips(r.meta)
  }

  lemma RiskIsApart(run: Run, inv: Inventory, r: Row, mac: string, other: string, ip: string)
    requires AtRisk(run, inv, r, mac, other, ip)
    ensures var first, second := Careless(r.kind, r.meta.rest, mac, ip), Neighbour(r.kind, r.meta.rest, other, ip);
      && ToldApart([first, second]) && Macs(first.meta) != {} && Macs(second.meta) != {}
      && !Meets(inv.rows, r.id, second)
  {
    CarelessWipes(run, r, mac, ip);
    OneInterface(Held(other), ip, r.meta.rest);
    TwoToldApart(Careless(r.kind, r.meta.rest, mac, ip), Neighbour(r.kind, r.meta.rest, other, ip));
  }

  lemma RiskFirst(run: Run, inv: Inventory, r: Row, mac: string, other: string, ip: string)
    requires AtRisk(run, inv, r, mac, other, ip)
    ensures var first := Careless(r.kind, r.meta.rest, mac, ip);
      MergeOne(run, inv, first) == Some(Folded(run, inv, r, first))
  {
    var first := Careless(r.kind, r.meta.rest, mac, ip);
    CarelessWipes(run, r, mac, ip);
    assert NormalMac(Held(mac)) in Macs(first.meta) * Macs(r.meta);
    forall s | s in inv.rows && s != r && Compatible(run, first, s)
      ensures !ScopeOf(run, inv.siteOf).SameMac(first, s) && !ScopeOf(run, inv.siteOf).SameIp(first, s)
    {
      NotTheCareless(run, inv, r, s, mac, other, ip);
    }
    MergesIntoOnly(run, inv, r, first);
  }

  lemma NotTheCareless(run: Run, inv: Inventory, r: Row, s: Row, mac: string, other: string, ip: string)
    requires AtRisk(run, inv, r, mac, other, ip) && s in inv.rows && s != r
    requires Compatible(run, Careless(r.kind, r.meta.rest, mac, ip), s)
    ensures var first := Careless(r.kind, r.meta.rest, mac, ip);
      !ScopeOf(run, inv.siteOf).SameMac(first, s) && !ScopeOf(run, inv.siteOf).SameIp(first, s)
  {
    CarelessMacs(r.kind, r.meta.rest, mac, ip);
    assert Elsewhere(run, inv.siteOf, r, s, mac, other, ip);
  }

  lemma RiskSecond(run: Run, inv: Inventory, r: Row, mac: string, other: string, ip: string)
    requires AtRisk(run, inv, r, mac, other, ip)
    ensures var first, second := Careless(r.kind, r.meta.rest, mac, ip), Neighbour(r.kind, r.meta.rest, other, ip);
      var next, wiped := Folded(run, inv, r, first), Updated(run, r, first);
      MergeOne(run, next, second) == Some(Folded(run, next, wiped, second))
  {
    var first, second := Careless(r.kind, r.meta.rest, mac, ip), Neighbour(r.kind, r.meta.rest, other, ip);
    var next, wiped := Folded(run, inv, r, first), Updated(run, r, first);
    WipedIsMet(run, inv, r, mac, other, ip);
    ReplacedAre(inv.rows, r.id, wiped);
    forall s | s in next.rows && s != wiped && Compatible(run, second, s)
      ensures !ScopeOf(run, inv.siteOf).SameMac(second, s) && !ScopeOf(run, inv.siteOf).SameIp(second, s)
    {
      assert s in inv.rows && s != r;
      NotTheNeighbour(run, inv, r, s, mac, other, ip);
    }
    MergesIntoOnly(run, next, wiped, second);
  }

  lemma WipedIsMet(run: Run, inv: Inventory, r: Row, mac: string, other: string, ip: string)
    requires AtRisk(run, inv, r, mac, other, ip)
    ensures var second := Neighbour(r.kind, r.meta.rest, other, ip);
      var wiped := Updated(run, r, Careless(r.kind, r.meta.rest, mac, ip));
      Compatible(run, second, wiped) && ScopeOf(run, inv.siteOf).SameIp(second, wiped)
  {
    CarelessWipes(run, r, mac, ip);
    OneInterface(Held(other), ip, r.meta.rest);
    assert ip in Ips(Neighbour(r.kind, r.meta.rest, other, ip).meta);
  }

  lemma NotTheNeighbour(run: Run, inv: Inventory, r: Row, s: Row, mac: string, other: string, ip: string)
    requires AtRisk(run, inv, r, mac, other, ip) && s in inv.rows && s != r
    requires Compatible(run, Neighbour(r.kind, r.meta.rest, other, ip), s)
    ensures var second := Neighbour(r.kind, r.meta.rest, other, ip);
      !ScopeOf(run, inv.siteOf).SameMac(second, s) && !ScopeOf(run, inv.siteOf).SameIp(second, s)
  {
    OneInterface(Held(other), ip, r.meta.rest);
    assert Elsewhere(run, inv.siteOf, r, s, mac, other, ip);
  }

  /** A run on which two devices with a MAC each, told apart, end in one row, though no row stored has a MAC of each:
      the first report wipes the MAC by which it was matched, and the second device has its IP. */
  lemma BlankMacLosesIdentity(run: Run, inv: Inventory, r: Row, mac: string, other: string, ip: string)
      returns (trace: seq<Inventory>)
    requires AtRisk(run, inv, r, mac, other, ip)
    ensures var devices := [Careless(r.kind, r.meta.rest, mac, ip), Neighbour(r.kind, r.meta.rest, other, ip)];
      && IsTrace(run, trace, devices) && |trace| == |devices| + 1 && trace[0] == inv
      && ToldApart(devices) && devices[0].id == devices[1].id == None
      && Macs(devices[0].meta) != {} && Macs(devices[1].meta) != {}
      && trace[2].actual == [r.id, r.id]
      && !Meets(trace[0].rows, r.id, devices[1])
  {
    var first, second := Careless(r.kind, r.meta.rest, mac, ip), Neighbour(r.kind, r.meta.rest, other, ip);
    RiskIsApart(run, inv, r, mac, other, ip);
    RiskFirst(run, inv, r, mac, other, ip);
    RiskSecond(run, inv, r, mac, other, ip);
    trace := TwoFolded(run, inv, r, first, second);
  }

  lemma TwoFolded(run: Run, inv: Inventory, r: Row, d: Device, e: Device) returns (trace: seq<Inventory>)
    requires inv.actual == [] && MergeOne(run, inv, d) == Some(Folded(run, inv, r, d))
    requires var next, row := Folded(run, inv, r, d), Updated(run, r, d);
      MergeOne(run, next, e) == Some(Folded(run, next, row, e))
    ensures IsTrace(run, trace, [d, e]) && |trace| == 3 && trace[0] == inv && trace[2].actual == [r.id, r.id]
  {
    var next := Folded(run, inv, r, d);
    var last := Folded(run, next, Updated(run, r, d), e);
    TwoStepTrace(run, inv, next, last, d, e);
    assert last.actual == [] + [r.id] + [r.id] == [r.id, r.id];
    trace := [inv, next, last];
  }

  // ----- exactly when a newcomer is taken for a row that is there -----

  /** A device without an id and with MACs that none of the rows has. */
  ghost predicate Stranger(rows: seq<Row>, e: Device)
  {
    e.id == None && Macs(e.meta) != {} && forall r :: r in rows ==> Macs(e.meta) !! Macs(r.meta)
  }

  /** Reported next, the device goes into a row that is there already. */
  ghost predicate Joins(run: Run, inv: Inventory, e: Device)
  {
    exists id :: HasId(inv.rows, id) && MergesInto(run, inv, e, id)
  }

  /** In any state of the loop, a stranger joins a row exactly when a candidate lies open at one of its IPs. */
  lemma StrangerJoinsIff(run: Run, inv: Inventory, e: Device)
    requires Stranger(inv.rows, e)
    ensures Joins(run, inv, e)
       <==> exists r, ip ::
              r in Pool(run, inv.rows, e, |inv.rows|) && Exposed(run, inv.siteOf, r, ip) && ip in Ips(e.meta)
  {
    var pool := Pool(run, inv.rows, e, |inv.rows|);
    var scope := ScopeOf(run, inv.siteOf);
    var m := scope.Match(e, pool);
    scope.MatchIff(e, pool, m);
    MatchDecides(run, inv, e);
    if m.Some? {
      assert m.value in pool && scope.SameIp(e, m.value);
      var ip :| ip in Ips(e.meta) * Ips(m.value.meta);
      assert Exposed(run, inv.siteOf, m.value, ip);
    } else if r, ip :| r in pool && Exposed(run, inv.siteOf, r, ip) && ip in Ips(e.meta) {
      assert ip in Ips(e.meta) * Ips(r.meta);
      assert scope.SameIp(e, r);
    }
  }

  /** A device goes into a row that is there exactly when it is matched to one. */
  lemma MatchDecides(run: Run, inv: Inventory, e: Device)
    ensures Joins(run, inv, e) <==> ScopeOf(run, inv.siteOf).Match(e, Pool(run, inv.rows, e, |inv.rows|)).Some?
  {
    var pool := Pool(run, inv.rows, e, |inv.rows|);
    var scope := ScopeOf(run, inv.siteOf);
    var m := scope.Match(e, pool);
    scope.MatchIff(e, pool, m);
    if m.Some? {
      assert m.value in pool;
      assert HasId(inv.rows, m.value.id) && MergesInto(run, inv, e, m.value.id);
    } else {
      forall id | MergesInto(run, inv, e, id)
        ensures !HasId(inv.rows, id)
      {
        var row := NewRow(run, e, inv.minted);
        assert MergeOne(run, inv, e).value.actual == inv.actual + [row.id];
        assert (inv.actual + [id])[|inv.actual|] == row.id;
      }
    }
  }

  ghost predicate Unknown(rows: seq<Row>, mac: string)
  {
    IsMac(NormalMac(Held(mac))) && forall r :: r in rows ==> NormalMac(Held(mac)) !in Macs(r.meta)
  }

  /** After any report, of any length: some stranger joins a row exactly when some row lies open. */
  lemma SomeStrangerJoinsIff(run: Run, inv: Inventory, other: string)
    requires Unknown(inv.rows, other)
    ensures (exists e :: Stranger(inv.rows, e) && Joins(run, inv, e))
       <==> exists r, ip :: r in inv.rows && Exposed(run, inv.siteOf, r, ip)
  {
    forall e | Stranger(inv.rows, e) && Joins(run, inv, e)
      ensures exists r, ip :: r in inv.rows && Exposed(run, inv.siteOf, r, ip)
    {
      StrangerJoinsIff(run, inv, e);
      var r, ip :| r in Pool(run, inv.rows, e, |inv.rows|) && Exposed(run, inv.siteOf, r, ip) && ip in Ips(e.meta);
    }
    if r, ip :| r in inv.rows && Exposed(run, inv.siteOf, r, ip) {
      NeighbourJoins(run, inv, other, r, ip);
    }
  }

  lemma NeighbourJoins(run: Run, inv: Inventory, other: string, r: Row, ip: string)
    requires Unknown(inv.rows, other) && r in inv.rows && Exposed(run, inv.siteOf, r, ip)
    ensures var e := Neighbour(r.kind, r.meta.rest, other, ip); Stranger(inv.rows, e) && Joins(run, inv, e)
  {
    var e := Neighbour(r.kind, r.meta.rest, other, ip);
    OneInterface(Held(other), ip, r.meta.rest);
    InPool(run, inv.rows, e, r, |inv.rows|);
    StrangerJoinsIff(run, inv, e);
  }

  // ----- exactly when two devices share a row -----

  /** Of the candidates for a device of this kind, the row is the first that lies open at the IP. */
  ghost predicate OpensFirst(run: Run, inv: Inventory, kind: string, rest: map<string, string>, r: Row, ip: string)
  {
    IsFirst(Pool(run, inv.rows, Like(kind, rest), |inv.rows|), s => Exposed(run, inv.siteOf, s, ip), r)
  }

  /** Which rows are candidates is decided by the kind and the metadata other than addresses. */
  lemma {:induction false} PoolSame(run: Run, rows: seq<Row>, d: Device, e: Device, n: nat)
    requires n <= |rows| && d.kind == e.kind && d.meta.rest == e.meta.rest
    ensures Pool(run, rows, d, n) == Pool(run, rows, e, n)
    decreases n
  {
    if n > 0 {
      PoolSame(run, rows, d, e, n - 1);
    }
  }

  /** A stranger goes into the first candidate that has one of its IPs. */
  lemma StrangerEnters(run: Run, inv: Inventory, e: Device, r: Row)
    requires DistinctRows(inv.rows) && r in inv.rows && Stranger(inv.rows, e)
    ensures MergesInto(run, inv, e, r.id)
       <==> IsFirst(Pool(run, inv.rows, e, |inv.rows|), s => ScopeOf(run, inv.siteOf).SameIp(e, s), r)
  {
    var scope, pool := ScopeOf(run, inv.siteOf), Pool(run, inv.rows, e, |inv.rows|);
    var m := scope.Match(e, pool);
    scope.MatchIff(e, pool, m);
    scope.MatchIff(e, pool, Some(r));
    MatchDecides(run, inv, e);
    assert HasId(inv.rows, r.id);
    if m.Some? {
      assert MergeOne(run, inv, e).value.actual == inv.actual + [m.value.id];
      assert (inv.actual + [m.value.id])[|inv.actual|] == m.value.id;
      assert (inv.actual + [r.id])[|inv.actual|] == r.id;
    }
  }

  /** Some stranger goes into this row exactly when it opens first to some kind of device, at some IP. */
  lemma SomeStrangerEntersIff(run: Run, inv: Inventory, other: string, r: Row)
    requires DistinctRows(inv.rows) && r in inv.rows && Unknown(inv.rows, other)
    ensures (exists e :: Stranger(inv.rows, e) && MergesInto(run, inv, e, r.id))
       <==> exists kind, rest, ip :: OpensFirst(run, inv, kind, rest, r, ip)
  {
    if e :| Stranger(inv.rows, e) && MergesInto(run, inv, e, r.id) {
      var ip := EnteredOpensFirst(run, inv, e, r);
    }
    if kind, rest, ip :| OpensFirst(run, inv, kind, rest, r, ip) {
      NeighbourEnters(run, inv, other, kind, rest, r, ip);
    }
  }

  lemma EnteredOpensFirst(run: Run, inv: Inventory, e: Device, r: Row) returns (ip: string)
    requires DistinctRows(inv.rows) && r in inv.rows && Stranger(inv.rows, e) && MergesInto(run, inv, e, r.id)
    ensures OpensFirst(run, inv, e.kind, e.meta.rest, r, ip) && Exposed(run, inv.siteOf, r, ip)
  {
    var scope, pool := ScopeOf(run, inv.siteOf), Pool(run, inv.rows, e, |inv.rows|);
    StrangerEnters(run, inv, e, r);
    PoolSame(run, inv.rows, e, Like(e.kind, e.meta.rest), |inv.rows|);
    ip :| ip in Ips(e.meta) * Ips(r.meta);
    forall s | Exposed(run, inv.siteOf, s, ip)
      ensures scope.SameIp(e, s)
    {
      assert ip in Ips(e.meta) * Ips(s.meta);
    }
  }

  lemma NeighbourEnters(run: Run, inv: Inventory, other: string, kind: string, rest: map<string, string>, r: Row,
                        ip: string)
    requires DistinctRows(inv.rows) && r in inv.rows && Unknown(inv.rows, other)
    requires OpensFirst(run, inv, kind, rest, r, ip)
    ensures var e := Neighbour(kind, rest, other, ip);
      ip != "" && Stranger(inv.rows, e) && MergesInto(run, inv, e, r.id)
  {
    var e := Neighbour(kind, rest, other, ip);
    OneInterface(Held(other), ip, rest);
    PoolSame(run, inv.rows, e, Like(kind, rest), |inv.rows|);
    OpenToNeighbour(run, inv.siteOf, e, ip, Pool(run, inv.rows, e, |inv.rows|), r);
    StrangerEnters(run, inv, e, r);
  }

  /** To a device with one IP, the rows open at it are the ones that share an IP with it. */
  lemma OpenToNeighbour(run: Run, siteOf: map<Id, Option<Id>>, e: Device, ip: string, pool: seq<Row>, r: Row)
    requires Ips(e.meta) == {ip} && IsFirst(pool, s => Exposed(run, siteOf, s, ip), r)
    ensures IsFirst(pool, s => ScopeOf(run, siteOf).SameIp(e, s), r)
  {
    forall s
      ensures Exposed(run, siteOf, s, ip) <==> ScopeOf(run, siteOf).SameIp(e, s)
    {
      if ip in Ips(s.meta) {
        assert ip in Ips(e.meta) * Ips(s.meta);
      }
      if x :| x in Ips(e.meta) * Ips(s.meta) {
        assert x == ip;
      }
    }
  }

  /** Two devices, of which the second has no id and MACs that neither a row nor the first has, end in one row. */
  ghost predicate EndTogether(run: Run, start: Inventory, r: Row, d: Device, e: Device)
  {
    && Stranger(start.rows, e) && Macs(e.meta) !! Macs(d.meta)
    && exists trace: seq<Inventory> ::
         IsTrace(run, trace, [d, e]) && |trace| == 3 && trace[0] == start && trace[2].actual == [r.id, r.id]
  }

  /** The first device reported goes into row `r`, and `other` is a MAC new to it and to the rows. */
  ghost predicate GoesInto(run: Run, start: Inventory, r: Row, d: Device, other: string)
  {
    && DistinctRows(start.rows) && start.actual == [] && r in start.rows && MergesInto(run, start, d, r.id)
    && Unknown(start.rows, other) && NormalMac(Held(other)) !in Macs(d.meta)
  }

  /** The exact condition under which a report lets a second device with new MACs end in the row it went into:
      merged, that row opens first to some kind of device. */
  lemma TwoDevicesShareIff(run: Run, start: Inventory, r: Row, d: Device, other: string)
    requires GoesInto(run, start, r, d, other)
    ensures (exists e :: EndTogether(run, start, r, d, e))
       <==> exists kind, rest, ip :: OpensFirst(run, Folded(run, start, r, d), kind, rest, Updated(run, r, d), ip)
  {
    if e :| EndTogether(run, start, r, d, e) {
      var ip := SharedOpensFirst(run, start, r, d, other, e);
    }
    if kind, rest, ip :| OpensFirst(run, Folded(run, start, r, d), kind, rest, Updated(run, r, d), ip) {
      FirstIsShared(run, start, r, d, other, kind, rest, ip);
    }
  }

  lemma SharedOpensFirst(run: Run, start: Inventory, r: Row, d: Device, other: string, e: Device) returns (ip: string)
    requires GoesInto(run, start, r, d, other) && EndTogether(run, start, r, d, e)
    ensures OpensFirst(run, Folded(run, start, r, d), e.kind, e.meta.rest, Updated(run, r, d), ip)
    ensures Exposed(run, start.siteOf, Updated(run, r, d), ip)
  {
    var next := Folded(run, start, r, d);
    GoneInto(run, start, r, d, other);
    TogetherEnters(run, start, next, r, d, e);
    StaysStranger(run, start, r, d, e);
    ip := EnteredOpensFirst(run, next, e, Updated(run, r, d));
  }

  lemma FirstIsShared(run: Run, start: Inventory, r: Row, d: Device, other: string, kind: string,
                      rest: map<string, string>, ip: string)
    requires GoesInto(run, start, r, d, other)
    requires OpensFirst(run, Folded(run, start, r, d), kind, rest, Updated(run, r, d), ip)
    ensures EndTogether(run, start, r, d, Neighbour(kind, rest, other, ip))
  {
    var next := Folded(run, start, r, d);
    GoneInto(run, start, r, d, other);
    NeighbourEnters(run, next, other, kind, rest, Updated(run, r, d), ip);
    NeighbourIsNew(run, start, r, d, kind, rest, other, ip);
    EnteringIsTogether(run, start, next, r, d, Neighbour(kind, rest, other, ip));
  }

  /** What the row has to have for that; and it is enough if no other candidate for its kind of device lies open. */
  lemma OpenRowIsShared(run: Run, start: Inventory, r: Row, d: Device, other: string)
    requires GoesInto(run, start, r, d, other)
    ensures var merged := MergedMeta(r.meta, d.meta);
      var open := !Strong(merged) && ScopeOf(run, start.siteOf).AtSite(r) && Ips(merged) != {};
      && ((exists e :: EndTogether(run, start, r, d, e)) ==> open)
      && (open && NoOtherOpens(run, start, r, merged) ==> exists e :: EndTogether(run, start, r, d, e))
  {
    var merged := MergedMeta(r.meta, d.meta);
    if e :| EndTogether(run, start, r, d, e) {
      var ip := SharedOpensFirst(run, start, r, d, other, e);
    }
    if !Strong(merged) && ScopeOf(run, start.siteOf).AtSite(r) && Ips(merged) != {}
       && NoOtherOpens(run, start, r, merged)
    {
      var ip :| ip in Ips(merged);
      OnlyOpenIsShared(run, start, r, d, other, ip);
    }
  }

  lemma OnlyOpenIsShared(run: Run, start: Inventory, r: Row, d: Device, other: string, ip: string)
    requires GoesInto(run, start, r, d, other) && NoOtherOpens(run, start, r, MergedMeta(r.meta, d.meta))
    requires Exposed(run, start.siteOf, Updated(run, r, d), ip)
    ensures EndTogether(run, start, r, d, Neighbour(r.kind, MergedMeta(r.meta, d.meta).rest, other, ip))
  {
    var next, row := Folded(run, start, r, d), Updated(run, r, d);
    GoneInto(run, start, r, d, other);
    OnlyOpenIsFirst(run, next, row, ip);
    FirstIsShared(run, start, r, d, other, row.kind, row.meta.rest, ip);
  }

  /** No other row that a device of the kind of `r`, with the metadata `m`, may be merged into lies open at its IPs. */
  ghost predicate NoOtherOpens(run: Run, inv: Inventory, r: Row, m: Meta)
  {
    forall s, ip :: s in inv.rows && s != r && Compatible(run, Like(r.kind, m.rest), s) && ip in Ips(m) ==>
      !Exposed(run, inv.siteOf, s, ip)
  }

  lemma OnlyOpenIsFirst(run: Run, inv: Inventory, r: Row, ip: string)
    requires r in inv.rows && Exposed(run, inv.siteOf, r, ip) && NoOtherOpens(run, inv, r, r.meta)
    ensures OpensFirst(run, inv, r.kind, r.meta.rest, r, ip)
  {
    var like := Like(r.kind, r.meta.rest);
    var pool := Pool(run, inv.rows, like, |inv.rows|);
    InPool(run, inv.rows, like, r, |inv.rows|);
    PoolIsCompatible(run, inv.rows, like, |inv.rows|);
    FirstRowIs(pool, s => Exposed(run, inv.siteOf, s, ip));
  }

  lemma GoneInto(run: Run, start: Inventory, r: Row, d: Device, other: string)
    requires GoesInto(run, start, r, d, other)
    ensures MergeOne(run, start, d) == Some(Folded(run, start, r, d)) && Folded(run, start, r, d).actual == [r.id]
    ensures After(run, start, r, d, other)
  {
    MatchedTo(run, start, r, d);
    var row := Updated(run, r, d);
    ReplacedAre(start.rows, r.id, row);
    MergedIdentity(r.meta, d.meta);
    assert NormalMac(Held(other)) !in Macs(row.meta);
  }

  /** The rows once the device has gone into `r`. */
  ghost predicate After(run: Run, start: Inventory, r: Row, d: Device, other: string)
  {
    var rows, row := Folded(run, start, r, d).rows, Updated(run, r, d);
    && row in rows && DistinctRows(rows) && Unknown(rows, other)
    && forall s :: s in rows <==> s == row || (s in start.rows && s != r)
  }

  lemma MatchedTo(run: Run, start: Inventory, r: Row, d: Device)
    requires DistinctRows(start.rows) && r in start.rows && MergesInto(run, start, d, r.id)
    ensures MergeOne(run, start, d) == Some(Folded(run, start, r, d))
  {
    var scope, pool := ScopeOf(run, start.siteOf), Pool(run, start.rows, d, |start.rows|);
    var m := scope.Match(d, pool);
    scope.MatchIff(d, pool, m);
    MatchDecides(run, start, d);
    assert HasId(start.rows, r.id) && m.Some?;
    assert MergeOne(run, start, d).value.actual == start.actual + [m.value.id];
    assert (start.actual + [m.value.id])[|start.actual|] == (start.actual + [r.id])[|start.actual|];
    assert m.value in start.rows && m.value == r;
  }

  lemma StaysStranger(run: Run, start: Inventory, r: Row, d: Device, e: Device)
    requires r in start.rows && EndTogether(run, start, r, d, e)
    ensures Stranger(Folded(run, start, r, d).rows, e)
  {
    ReplacedAre(start.rows, r.id, Updated(run, r, d));
    MergedIdentity(r.meta, d.meta);
    assert Macs(MergedMeta(r.meta, d.meta)) !! Macs(e.meta);
  }

  lemma NeighbourIsNew(run: Run, start: Inventory, r: Row, d: Device, kind: string, rest: map<string, string>,
                       other: string, ip: string)
    requires Unknown(start.rows, other) && NormalMac(Held(other)) !in Macs(d.meta) && ip != ""
    ensures var e := Neighbour(kind, rest, other, ip); Stranger(start.rows, e) && Macs(e.meta) !! Macs(d.meta)
  {
    OneInterface(Held(other), ip, rest);
  }

  lemma TogetherEnters(run: Run, start: Inventory, next: Inventory, r: Row, d: Device, e: Device)
    requires MergeOne(run, start, d) == Some(next) && next.actual == [r.id] && EndTogether(run, start, r, d, e)
    ensures MergesInto(run, next, e, r.id)
  {
    var trace: seq<Inventory> :| IsTrace(run, trace, [d, e]) && |trace| == 3 && trace[0] == start
      && trace[2].actual == [r.id, r.id];
    var devices := [d, e];
    assert MergeOne(run, trace[0], devices[0]) == Some(trace[1]);
    assert MergeOne(run, trace[1], devices[1]) == Some(trace[2]);
    assert [r.id] + [r.id] == [r.id, r.id];
  }

  lemma EnteringIsTogether(run: Run, start: Inventory, next: Inventory, r: Row, d: Device, e: Device)
    requires MergeOne(run, start, d) == Some(next) && next.actual == [r.id] && MergesInto(run, next, e, r.id)
    requires Stranger(start.rows, e) && Macs(e.meta) !! Macs(d.meta)
    ensures EndTogether(run, start, r, d, e)
  {
    assert MergeOne(run, next, e).Some?;
    var last := MergeOne(run, next, e).value;
    TwoStepTrace(run, start, next, last, d, e);
    var trace := [start, next, last];
    assert trace[2].actual == [r.id] + [r.id] == [r.id, r.id];
    assert IsTrace(run, trace, [d, e]) && |trace| == 3 && trace[0] == start;
  }
}

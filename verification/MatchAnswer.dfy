/** When a stored row is taken for a reported device, in the addresses and names they carry. */
module MatchAnswer {
  import opened Directory
  import opened AccessLevels
  import opened ResourceMatcher
  import opened DiscoveryMerge
  import opened DiscoveryClasses

  /** The hexadecimal digits of a text, in lower case; everything else is left out. */
  function HexDigits(s: string): string
  {
    if s == "" then ""
    else
      var n := s[|s| - 1] as int;
      HexDigits(s[..|s| - 1]) +
        if 48 <= n <= 57 || 97 <= n <= 102 then [s[|s| - 1]] else if 65 <= n <= 70 then [(n + 32) as char] else ""
  }

  lemma {:induction false} OnlyHexIs(s: string)
    ensures OnlyHex(Lower(s)) == HexDigits(s)
    decreases |s|
  {
    if s != "" {
      OnlyHexIs(s[..|s| - 1]);
      assert Lower(s)[..|s| - 1] == Lower(s[..|s| - 1]);
    }
  }

  /** The MAC address, twelve digits of it, stands at the row or device or at one of its interfaces. */
  ghost predicate CarriesMac(m: Meta, x: string)
  {
    |x| == 12 && (IsMacAs(m.mac, x) || exists i :: i in Interfaces(m) && IsMacAs(i.mac, x))
  }

  predicate IsMacAs(f: Field<string>, x: string)
  {
    f.Held? && HexDigits(f.value) == x
  }

  /** The IP address stands there, at an interface or in the list of addresses. */
  ghost predicate CarriesIp(m: Meta, a: string)
  {
    && a != ""
    && (|| m.ip == Held(a) || (m.address.Held? && a in m.address.value)
        || exists i :: i in Interfaces(m) && i.ip == Held(a))
  }

  lemma MacsCarried(m: Meta, x: string)
    ensures x in Macs(m) <==> CarriesMac(m, x)
  {
    forall f: Field<string>
      ensures IsMac(NormalMac(f)) && NormalMac(f) == x <==> |x| == 12 && IsMacAs(f, x)
    {
      if f.Held? {
        OnlyHexIs(f.value);
      }
    }
  }

  lemma IpsCarried(m: Meta, a: string)
    ensures a in Ips(m) <==> CarriesIp(m, a)
  {
  }

  /** No MAC of any shape stands at the row. */
  ghost predicate HasNoMac(r: Row)
  {
    !r.meta.mac.Held? && forall i :: i in Interfaces(r.meta) ==> !i.mac.Held?
  }

  /** The row is known to belong to the site the report is for, if that is known. */
  predicate IsHere(scope: Scope, r: Row)
  {
    scope.incomingSite == None || (r.id in scope.siteOf && scope.siteOf[r.id] == scope.incomingSite)
  }

  /** The same slug; the same name in lower case; or the host part of the device's name, else of its slug, is that of
      the row's name or slug. */
  predicate SoundsLike(scope: Scope, d: Device, r: Row)
  {
    || (d.slug != "" && d.slug == r.slug)
    || (d.name != "" && r.name != "" && scope.lower(d.name) == scope.lower(r.name))
    || (d.name != "" && SameHost(scope, d.name, r))
    || (d.name == "" && d.slug != "" && SameHost(scope, d.slug, r))
  }

  predicate SameHost(scope: Scope, name: string, r: Row)
  {
    && scope.host(name) != ""
    && (|| (r.name != "" && scope.host(r.name) == scope.host(name))
        || (r.slug != "" && scope.host(r.slug) == scope.host(name)))
  }

  /** How a row is found for a device: by id; by a MAC; if it has no MAC and is here, by an IP; or by name, for a device
      that carries neither MAC nor IP. */
  ghost predicate ById(d: Device, r: Row) { d.id == Some(r.id) }

  ghost predicate ByMac(d: Device, r: Row) { exists x :: CarriesMac(d.meta, x) && CarriesMac(r.meta, x) }

  ghost predicate ByIp(scope: Scope, d: Device, r: Row)
  {
    HasNoMac(r) && IsHere(scope, r) && exists a :: CarriesIp(d.meta, a) && CarriesIp(r.meta, a)
  }

  ghost predicate ByName(scope: Scope, d: Device, r: Row)
  {
    && (forall x :: !CarriesMac(d.meta, x)) && (forall a :: !CarriesIp(d.meta, a))
    && HasNoMac(r) && IsHere(scope, r) && SoundsLike(scope, d, r)
  }

  lemma TiersAre(scope: Scope, d: Device, r: Row)
    ensures ById(d, r) <==> scope.SameId(d, r)
    ensures ByMac(d, r) <==> scope.SameMac(d, r)
    ensures ByIp(scope, d, r) <==> scope.SameIp(d, r)
    ensures ByName(scope, d, r) <==> scope.Anonymous(d) && scope.SameName(d, r)
  {
    forall x
      ensures x in Macs(d.meta) <==> CarriesMac(d.meta, x)
      ensures x in Macs(r.meta) <==> CarriesMac(r.meta, x)
      ensures x in Ips(d.meta) <==> CarriesIp(d.meta, x)
      ensures x in Ips(r.meta) <==> CarriesIp(r.meta, x)
    {
      MacsCarried(d.meta, x);
      MacsCarried(r.meta, x);
      IpsCarried(d.meta, x);
      IpsCarried(r.meta, x);
    }
    assert scope.SameMac(d, r) <==> exists x :: x in Macs(d.meta) && x in Macs(r.meta) by {
      if x :| x in Macs(d.meta) && x in Macs(r.meta) {
        assert x in Macs(d.meta) * Macs(r.meta);
      }
    }
    assert Ips(d.meta) * Ips(r.meta) != {} <==> exists a :: a in Ips(d.meta) && a in Ips(r.meta) by {
      if a :| a in Ips(d.meta) && a in Ips(r.meta) {
        assert a in Ips(d.meta) * Ips(r.meta);
      }
    }
  }

  /** The first row of the pool found in the strongest way in which any is found. */
  ghost predicate Found(scope: Scope, d: Device, pool: seq<Row>, k: int)
  {
    && 0 <= k < |pool|
    && if exists r :: r in pool && ById(d, r) then
         ById(d, pool[k]) && forall j :: 0 <= j < k ==> !ById(d, pool[j])
       else if exists r :: r in pool && ByMac(d, r) then
         ByMac(d, pool[k]) && forall j :: 0 <= j < k ==> !ByMac(d, pool[j])
       else if exists r :: r in pool && ByIp(scope, d, r) then
         ByIp(scope, d, pool[k]) && forall j :: 0 <= j < k ==> !ByIp(scope, d, pool[j])
       else
         ByName(scope, d, pool[k]) && forall j :: 0 <= j < k ==> !ByName(scope, d, pool[j])
  }

  ghost predicate Agree(scope: Scope, d: Device)
  {
    forall r ::
      && (ById(d, r) <==> scope.SameId(d, r)) && (ByMac(d, r) <==> scope.SameMac(d, r))
      && (ByIp(scope, d, r) <==> scope.SameIp(d, r))
      && (ByName(scope, d, r) <==> scope.Anonymous(d) && scope.SameName(d, r))
  }

  lemma TiersAgree(scope: Scope, d: Device)
    ensures Agree(scope, d)
  {
    forall r
      ensures ById(d, r) <==> scope.SameId(d, r)
      ensures ByMac(d, r) <==> scope.SameMac(d, r)
      ensures ByIp(scope, d, r) <==> scope.SameIp(d, r)
      ensures ByName(scope, d, r) <==> scope.Anonymous(d) && scope.SameName(d, r)
    {
      TiersAre(scope, d, r);
    }
  }

  /** The match is the row found so, and there is none exactly when no row is found in any way. */
  lemma MatchIsFound(scope: Scope, d: Device, pool: seq<Row>)
    ensures match scope.Match(d, pool)
      case Some(r) => exists k :: Found(scope, d, pool, k) && pool[k] == r
      case None => forall r :: r in pool ==> !ById(d, r) && !ByMac(d, r) && !ByIp(scope, d, r) && !ByName(scope, d, r)
  {
    TiersAgree(scope, d);
    var m := scope.Match(d, pool);
    scope.MatchIff(d, pool, m);
    if m.Some? {
      if exists r :: r in pool && ById(d, r) {
        var k := FoundById(scope, d, pool);
      } else if exists r :: r in pool && ByMac(d, r) {
        var k := FoundByMac(scope, d, pool);
      } else {
        var k := FoundWeakly(scope, d, pool);
      }
    }
  }

  lemma FoundById(scope: Scope, d: Device, pool: seq<Row>) returns (k: nat)
    requires Agree(scope, d) && exists r :: r in pool && ById(d, r)
    ensures Found(scope, d, pool, k) && scope.Match(d, pool) == Some(pool[k])
  {
    var f := (r: Row) => scope.SameId(d, r);
    FirstRowIs(pool, f);
    k := FirstFromIsFirst(pool, f, 0);
  }

  lemma FoundByMac(scope: Scope, d: Device, pool: seq<Row>) returns (k: nat)
    requires Agree(scope, d) && (forall r :: r in pool ==> !ById(d, r)) && exists r :: r in pool && ByMac(d, r)
    ensures Found(scope, d, pool, k) && scope.Match(d, pool) == Some(pool[k])
  {
    var f := (r: Row) => scope.SameMac(d, r);
    FirstRowIs(pool, (r: Row) => scope.SameId(d, r));
    assert First(pool, (r: Row) => scope.SameId(d, r)) == None;
    FirstRowIs(pool, f);
    k := FirstFromIsFirst(pool, f, 0);
    assert scope.Match(d, pool) == First(pool, f);
  }

  lemma FoundWeakly(scope: Scope, d: Device, pool: seq<Row>) returns (k: nat)
    requires Agree(scope, d) && scope.Match(d, pool).Some?
    requires forall r :: r in pool ==> !ById(d, r) && !ByMac(d, r)
    ensures Found(scope, d, pool, k) && scope.Match(d, pool) == Some(pool[k])
  {
    FirstRowIs(pool, (r: Row) => scope.SameId(d, r));
    FirstRowIs(pool, (r: Row) => scope.SameMac(d, r));
    var ip, name := (r: Row) => scope.SameIp(d, r), (r: Row) => scope.SameName(d, r);
    FirstRowIs(pool, ip);
    if First(pool, ip).Some? {
      k := FirstFromIsFirst(pool, ip, 0);
    } else {
      k := FirstFromIsFirst(pool, name, 0);
    }
  }

  // ----- where the merge loop takes a device -----

  ghost function Candidates(run: Run, rows: seq<Row>, d: Device): seq<Row>
  {
    Keeping(rows, (r: Row) =>
      || ClassOfRow(run, r) == ClassOfDevice(run, d)
      || "unmanaged_device" in {ClassOfRow(run, r), ClassOfDevice(run, d)})
  }

  /** The device goes into the row found among the candidates, for the site of the run; if there is none a row is added,
      with the device's id and slug if it has them, and the store refuses it if that id or slug is taken. */
  lemma DeviceGoes(run: Run, inv: Inventory, d: Device)
    ensures var pool, scope := Candidates(run, inv.rows, d), Scope(inv.siteOf, run.site, run.lower, run.host);
      var id := if d.id.Some? then d.id.value else run.uuid(inv.minted);
      var slug := if d.slug == "" then run.newSlug(inv.minted) else d.slug;
      var out := MergeOne(run, inv, d);
      if exists k :: Found(scope, d, pool, k) then
        out.Some? && exists k :: Found(scope, d, pool, k) && out.value.actual == inv.actual + [pool[k].id]
      else if exists r :: r in inv.rows && (r.id == id || r.slug == slug) then
        out == None
      else
        out.Some? && out.value.actual == inv.actual + [id] && |out.value.rows| == |inv.rows| + 1
        && out.value.rows[..|inv.rows|] == inv.rows && out.value.rows[|inv.rows|].slug == slug
  {
    var pool, scope := Candidates(run, inv.rows, d), Scope(inv.siteOf, run.site, run.lower, run.host);
    CandidatesAre(run, inv.rows, d, |inv.rows|);
    assert inv.rows[..|inv.rows|] == inv.rows;
    MatchIsFound(scope, d, pool);
    if k :| Found(scope, d, pool, k) {
      assert pool[k] in pool;
      assert scope.Match(d, pool).Some?;
    }
  }
}

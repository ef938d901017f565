/** Deciding which stored row a reported device is: four tiers, by id, MAC, IP and name, each tried only if
    the one before it did not decide.
  */
module ResourceMatcher {
  import opened Directory
  import opened AccessLevels

  /** A field of a metadata object: not there, there but empty, or holding something. */
  datatype Field<+T> = Absent | Blank | Held(value: T)

  datatype Interface = Interface(mac: Field<string>, ip: Field<string>)

  /** The identifying metadata of a row or of a report; `address` is its comma-separated list, split and
      trimmed, and `rest` is everything else. */
  datatype Meta = Meta(
    mac: Field<string>,
    ip: Field<string>,
    address: Field<seq<string>>,
    interfaces: Field<seq<Interface>>,
    rest: map<string, string>)

  datatype Row = Row(
    id: Id,
    kind: string,
    name: string,
    slug: string,
    meta: Meta,
    sources: set<string>,
    managed: bool,
    createdByHand: bool,
    lastSeen: Option<int>,
    archived: bool)

  /** A device as a discovery source reports it. */
  datatype Device = Device(id: Option<Id>, kind: string, name: string, slug: string, meta: Meta)

  function Interfaces(m: Meta): seq<Interface>
  {
    if m.interfaces.Held? then m.interfaces.value else []
  }

  // ----- MAC and IP addresses -----

  predicate IsHex(c: char) { '0' <= c <= '9' || 'a' <= c <= 'f' }

  function OnlyHex(s: string): string
  {
    if s == "" then ""
    else if IsHex(s[|s| - 1]) then OnlyHex(s[..|s| - 1]) + [s[|s| - 1]]
    else OnlyHex(s[..|s| - 1])
  }

  function NormalMac(f: Field<string>): string
  {
    if f.Held? then OnlyHex(Lower(f.value)) else ""
  }

  predicate IsMac(s: string) { |s| == 12 }

  /** The MAC addresses a row or a report carries. */
  ghost function Macs(m: Meta): set<string>
  {
    (set i | i in Interfaces(m) && IsMac(NormalMac(i.mac)) :: NormalMac(i.mac))
    + if IsMac(NormalMac(m.mac)) then {NormalMac(m.mac)} else {}
  }

  function AddressList(m: Meta): seq<string>
  {
    if m.address.Held? then m.address.value else []
  }

  ghost function Ips(m: Meta): set<string>
  {
    (set i | i in Interfaces(m) && i.ip.Held? && i.ip.value != "" :: i.ip.value)
    + (set a | a in AddressList(m) && a != "")
    + if m.ip.Held? && m.ip.value != "" then {m.ip.value} else {}
  }

  /** `macsOf`: each MAC once, in the order met. */
  method MacsOf(m: Meta) returns (macs: seq<string>)
    ensures forall x :: x in macs <==> x in Macs(m)
    ensures forall a, b :: 0 <= a < b < |macs| ==> macs[a] != macs[b]
  {
    macs := [];
    if IsMac(NormalMac(m.mac)) { macs := [NormalMac(m.mac)]; }
    var interfaces := Interfaces(m);
    for n := 0 to |interfaces|
      invariant forall x :: x in macs <==> x in Macs(m.(interfaces := Held(interfaces[..n])))
      invariant forall a, b :: 0 <= a < b < |macs| ==> macs[a] != macs[b]
    {
      var mac := NormalMac(interfaces[n].mac);
      assert interfaces[..n + 1] == interfaces[..n] + [interfaces[n]];
      if IsMac(mac) && mac !in macs { macs := macs + [mac]; }
    }
    assert interfaces[..|interfaces|] == interfaces;
  }

  method IpsOf(m: Meta) returns (ips: seq<string>)
    ensures forall x :: x in ips <==> x in Ips(m)
    ensures forall a, b :: 0 <= a < b < |ips| ==> ips[a] != ips[b]
  {
    ips := [];
    var interfaces := Interfaces(m);
    for n := 0 to |interfaces|
      invariant forall x :: x in ips <==> exists k :: 0 <= k < n && interfaces[k].ip == Held(x) && x != ""
      invariant forall a, b :: 0 <= a < b < |ips| ==> ips[a] != ips[b]
    {
      var ip := interfaces[n].ip;
      if ip.Held? { ips := AddNew(ips, ip.value); }
    }
    if m.ip.Held? { ips := AddNew(ips, m.ip.value); }
    var addresses := AddressList(m);
    ghost var before := ips;
    for n := 0 to |addresses|
      invariant forall x :: x in ips <==> x in before || (x in addresses[..n] && x != "")
      invariant forall a, b :: 0 <= a < b < |ips| ==> ips[a] != ips[b]
    {
      assert addresses[..n + 1] == addresses[..n] + [addresses[n]];
      ips := AddNew(ips, addresses[n]);
    }
    assert addresses[..|addresses|] == addresses;
  }

  function AddNew(s: seq<string>, x: string): (r: seq<string>)
    requires forall a, b :: 0 <= a < b < |s| ==> s[a] != s[b]
    ensures forall a, b :: 0 <= a < b < |r| ==> r[a] != r[b]
    ensures forall y :: y in r <==> y in s || (y == x && x != "")
  {
    if x == "" || x in s then s else s + [x]
  }

  // ----- the tiers -----

  /** A row with a MAC of its own, whatever it looks like, is never claimed by a weaker guess. */
  predicate Strong(m: Meta)
  {
    m.mac.Held? || exists i :: i in Interfaces(m) && i.mac.Held?
  }

  lemma {:induction false} FirstRowSame(pool: seq<Row>, f: Row -> bool, g: Row -> bool, n: nat)
    requires n <= |pool| && forall k :: n <= k < |pool| ==> f(pool[k]) == g(pool[k])
    ensures FirstFrom(pool, f, n) == FirstFrom(pool, g, n)
    decreases |pool| - n
  {
    if n < |pool| {
      FirstRowSame(pool, f, g, n + 1);
    }
  }

  /** `r` is the first row of the pool that satisfies `f`. */
  ghost predicate IsFirst(pool: seq<Row>, f: Row -> bool, r: Row)
  {
    exists k :: 0 <= k < |pool| && pool[k] == r && f(r) && forall j :: 0 <= j < k ==> !f(pool[j])
  }

  ghost predicate Nobody(pool: seq<Row>, f: Row -> bool)
  {
    forall r :: r in pool ==> !f(r)
  }

  lemma FirstRowIs(pool: seq<Row>, f: Row -> bool)
    ensures match First(pool, f) case Some(r) => IsFirst(pool, f, r) && !Nobody(pool, f) case None => Nobody(pool, f)
  {
    if First(pool, f).Some? {
      var k := FirstFromIsFirst(pool, f, 0);
    } else {
      forall r | r in pool
        ensures !f(r)
      {
        var k :| 0 <= k < |pool| && pool[k] == r;
      }
    }
  }

  /** What the weaker tiers are scoped to, and how names are compared: in lower case, or by host label. */
  datatype Scope = Scope(
    siteOf: map<Id, Option<Id>>,
    incomingSite: Option<Id>,
    lower: string -> string,
    host: string -> string)
  {
    predicate AtSite(r: Row)
    {
      incomingSite == None || (r.id in siteOf && siteOf[r.id] == incomingSite)
    }

    predicate SameId(d: Device, r: Row) { d.id == Some(r.id) }

    /** They share a MAC. */
    ghost predicate SameMac(d: Device, r: Row) { Macs(d.meta) * Macs(r.meta) != {} }

    /** They share an IP address, at the right site, and the row has no MAC to contradict it. */
    ghost predicate SameIp(d: Device, r: Row)
    {
      !Strong(r.meta) && AtSite(r) && Ips(d.meta) * Ips(r.meta) != {}
    }

    predicate SameName(d: Device, r: Row)
    {
      var key := host(if d.name != "" then d.name else d.slug);
      && (d.name != "" || d.slug != "")
      && !Strong(r.meta) && AtSite(r)
      && (|| (d.slug != "" && r.slug == d.slug)
          || (d.name != "" && r.name != "" && lower(r.name) == lower(d.name))
          || (key != "" && r.name != "" && host(r.name) == key)
          || (key != "" && r.slug != "" && host(r.slug) == key))
    }

    ghost predicate Anonymous(d: Device) { Macs(d.meta) == {} && Ips(d.meta) == {} }

    ghost function Match(d: Device, pool: seq<Row>): Option<Row>
    {
      var byId := First(pool, r => SameId(d, r));
      if byId.Some? then byId else
      var byMac := First(pool, r => SameMac(d, r));
      if byMac.Some? then byMac else
      var byIp := First(pool, r => SameIp(d, r));
      if byIp.Some? then byIp else
      if Anonymous(d) then First(pool, r => SameName(d, r)) else None
    }

    /** The tiers, declaratively: the first row of the strongest tier that has any; names only count for
        a device that reported neither MAC nor IP. */
    lemma MatchIff(d: Device, pool: seq<Row>, m: Option<Row>)
      ensures var id, mac := (r: Row) => SameId(d, r), (r: Row) => SameMac(d, r);
        var ip, name := (r: Row) => SameIp(d, r), (r: Row) => SameName(d, r);
        m == Match(d, pool) <==>
          match m
          case None =>
            Nobody(pool, id) && Nobody(pool, mac) && Nobody(pool, ip) && (Anonymous(d) ==> Nobody(pool, name))
          case Some(r) =>
            || IsFirst(pool, id, r)
            || (Nobody(pool, id) && IsFirst(pool, mac, r))
            || (Nobody(pool, id) && Nobody(pool, mac) && IsFirst(pool, ip, r))
            || (Nobody(pool, id) && Nobody(pool, mac) && Nobody(pool, ip) && Anonymous(d) && IsFirst(pool, name, r))
    {
      var id, mac := (r: Row) => SameId(d, r), (r: Row) => SameMac(d, r);
      var ip, name := (r: Row) => SameIp(d, r), (r: Row) => SameName(d, r);
      FirstRowIs(pool, id);
      FirstRowIs(pool, mac);
      FirstRowIs(pool, ip);
      FirstRowIs(pool, name);
      if m.Some? {
        OneFirst(pool, id, m.value);
        OneFirst(pool, mac, m.value);
        OneFirst(pool, ip, m.value);
        OneFirst(pool, name, m.value);
      }
    }

    lemma OneFirst(pool: seq<Row>, f: Row -> bool, r: Row)
      ensures IsFirst(pool, f, r) <==> First(pool, f) == Some(r)
    {
      FirstRowIs(pool, f);
      if IsFirst(pool, f, r) {
        var k :| 0 <= k < |pool| && pool[k] == r && f(r) && forall j :: 0 <= j < k ==> !f(pool[j]);
        assert r in pool;
        var k' := FirstFromIsFirst(pool, f, 0);
        assert k == k';
      }
    }

    // ----- the code's tests against what they mean -----

    predicate HasMac(macs: seq<string>, r: Row)
    {
      || (r.meta.mac.Held? && NormalMac(r.meta.mac) in macs)
      || exists i :: i in Interfaces(r.meta) && NormalMac(i.mac) in macs
    }

    predicate HasIp(ips: seq<string>, r: Row)
    {
      && !Strong(r.meta) && AtSite(r)
      && (|| (r.meta.ip.Held? && r.meta.ip.value in ips)
          || (exists a :: a in AddressList(r.meta) && a in ips)
          || exists i :: i in Interfaces(r.meta) && i.ip.Held? && i.ip.value in ips)
    }

    lemma HasMacIsSameMac(macs: seq<string>, d: Device, r: Row)
      requires forall x :: x in macs <==> x in Macs(d.meta)
      ensures HasMac(macs, r) <==> SameMac(d, r)
    {
      if x :| x in Macs(d.meta) * Macs(r.meta) {
        assert x in macs;
      }
      if r.meta.mac.Held? && NormalMac(r.meta.mac) in macs {
        assert NormalMac(r.meta.mac) in Macs(d.meta) * Macs(r.meta);
      }
      if i :| i in Interfaces(r.meta) && NormalMac(i.mac) in macs {
        assert NormalMac(i.mac) in Macs(d.meta) * Macs(r.meta);
      }
    }

    lemma HasIpIsSameIp(ips: seq<string>, d: Device, r: Row)
      requires forall x :: x in ips <==> x in Ips(d.meta)
      ensures HasIp(ips, r) <==> SameIp(d, r)
    {
      if x :| x in Ips(d.meta) * Ips(r.meta) {
        assert x in ips;
      }
      if r.meta.ip.Held? && r.meta.ip.value in ips {
        assert r.meta.ip.value in Ips(d.meta) * Ips(r.meta);
      }
      if a :| a in AddressList(r.meta) && a in ips {
        assert a in Ips(d.meta) * Ips(r.meta);
      }
      if i :| i in Interfaces(r.meta) && i.ip.Held? && i.ip.value in ips {
        assert i.ip.value in Ips(d.meta) * Ips(r.meta);
      }
    }

    /** `findExistingMatch`. */
    method FindExistingMatch(d: Device, pool: seq<Row>) returns (row: Option<Row>)
      ensures row == Match(d, pool)
    {
      var byId := First(pool, r => SameId(d, r));
      if byId.Some? { return byId; }
      var macs := MacsOf(d.meta);
      var ips := IpsOf(d.meta);
      CodeIsTiers(d, pool, macs, ips);
      if |macs| > 0 {
        var byMac := First(pool, r => HasMac(macs, r));
        if byMac.Some? { return byMac; }
      }
      if |ips| > 0 {
        var byIp := First(pool, r => HasIp(ips, r));
        if byIp.Some? { return byIp; }
      }
      if |macs| > 0 || |ips| > 0 { return None; }
      return First(pool, r => SameName(d, r));
    }

    lemma CodeIsTiers(d: Device, pool: seq<Row>, macs: seq<string>, ips: seq<string>)
      requires forall x :: x in macs <==> x in Macs(d.meta)
      requires forall x :: x in ips <==> x in Ips(d.meta)
      ensures First(pool, r => HasMac(macs, r)) == First(pool, r => SameMac(d, r))
      ensures First(pool, r => HasIp(ips, r)) == First(pool, r => SameIp(d, r))
      ensures |macs| == 0 <==> Macs(d.meta) == {}
      ensures |ips| == 0 <==> Ips(d.meta) == {}
      ensures |macs| == 0 ==> First(pool, r => SameMac(d, r)) == None
      ensures |ips| == 0 ==> First(pool, r => SameIp(d, r)) == None
    {
      forall k | 0 <= k < |pool|
        ensures HasMac(macs, pool[k]) == SameMac(d, pool[k]) && HasIp(ips, pool[k]) == SameIp(d, pool[k])
      {
        HasMacIsSameMac(macs, d, pool[k]);
        HasIpIsSameIp(ips, d, pool[k]);
      }
      FirstRowSame(pool, r => HasMac(macs, r), r => SameMac(d, r), 0);
      FirstRowSame(pool, r => HasIp(ips, r), r => SameIp(d, r), 0);
      if |macs| > 0 {
        assert macs[0] in macs;
      }
      if |ips| > 0 {
        assert ips[0] in ips;
      }
      FirstRowIs(pool, r => SameMac(d, r));
      FirstRowIs(pool, r => SameIp(d, r));
    }
  }
}

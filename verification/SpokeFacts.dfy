/** What a registration leaves in the registry, field by field, and what any run of registrations does. */
module SpokeFacts {
  import opened Directory
  import opened SpokeRegistry

  // ----- one registration -----

  /** The registration is that of this row: it is at the endpoint, or nobody is and it is the first of the site. */
  ghost predicate IsRowOf(rows: seq<Spoke>, req: Request, row: Spoke)
  {
    row in rows &&
      (row.endpoint == req.endpoint
       || (NobodyAt(rows, req.endpoint) && req.siteSlug != "" && IsFirstOfSite(rows, row, req.siteSlug)))
  }

  function OrElse<T>(sent: Option<T>, kept: T): T
  {
    match sent
    case Some(v) => v
    case None => kept
  }

  /** The row carries what the spoke sent, and keeps what it did not send. */
  predicate Carries(row: Spoke, req: Request, out: Spoke)
  {
    && out.id == row.id && out.serverId == row.serverId && out.createdOn == row.createdOn
    && out.endpoint == req.endpoint && out.lastSeenOn == req.now
    && out.siteSlug == (if req.siteSlug == "" then row.siteSlug else req.siteSlug)
    && out.noInbound == OrElse(req.noInbound, row.noInbound) && out.meshIp == OrElse(req.meshIp, row.meshIp)
    && out.publicHost == OrElse(req.publicHost, row.publicHost)
    && out.pushToken == Some(OrElse(row.pushToken, req.freshToken))
  }

  /** The id is the least one above the master's that no row has. */
  predicate IsLeastFree(rows: seq<Spoke>, id: int)
  {
    && 2 <= id <= 4094 && (forall r :: r in rows ==> r.serverId != Some(id))
    && forall m :: 2 <= m < id ==> exists r :: r in rows && r.serverId == Some(m)
  }

  /** A new row has what was sent, or the defaults. */
  predicate Introduces(req: Request, out: Spoke)
  {
    && out.id == req.freshId && out.endpoint == req.endpoint && out.siteSlug == req.siteSlug
    && out.createdOn == out.lastSeenOn == req.now && out.pushToken == Some(req.freshToken)
    && out.noInbound == OrElse(req.noInbound, false)
    && out.meshIp == OrElse(req.meshIp, "") && out.publicHost == OrElse(req.publicHost, "")
  }

  lemma RowForIs(rows: seq<Spoke>, req: Request)
    requires Distinct(rows)
    ensures match RowFor(rows, req)
      case Some(row) => IsRowOf(rows, req, row) && forall other :: IsRowOf(rows, req, other) ==> other == row
      case None => forall row :: !IsRowOf(rows, req, row)
  {
    var at := ByEndpoint(rows, req.endpoint);
    if at == None {
      forall r | r in rows
        ensures r.endpoint != req.endpoint
      {
        var k :| 0 <= k < |rows| && rows[k] == r;
      }
      if req.siteSlug != "" {
        BySlugIs(rows, req.siteSlug);
      }
    }
  }

  lemma BySlugIs(rows: seq<Spoke>, siteSlug: string)
    requires siteSlug != ""
    ensures match BySlug(rows, siteSlug)
      case Some(row) =>
        IsFirstOfSite(rows, row, siteSlug) && forall other | IsFirstOfSite(rows, other, siteSlug) :: other == row
      case None => forall row :: !IsFirstOfSite(rows, row, siteSlug)
  {
    var f := (s: Spoke) => s.siteSlug == siteSlug;
    if BySlug(rows, siteSlug).Some? {
      var k := FirstFromIsFirst(rows, f, 0);
    }
    forall row | IsFirstOfSite(rows, row, siteSlug)
      ensures BySlug(rows, siteSlug) == Some(row)
    {
      FirstOfSite(rows, row, siteSlug);
    }
  }

  lemma NextFreeIs(rows: seq<Spoke>)
    ensures match NextFree(rows)
      case Some(id) => IsLeastFree(rows, id)
      case None => forall m :: 2 <= m <= 4094 ==> exists r :: r in rows && r.serverId == Some(m)
  {
    assert forall m :: m in UsedIds(rows) <==> exists r :: r in rows && r.serverId == Some(m);
  }

  /** A registration that finds a row writes that row alone. */
  lemma FoundIsUpdated(rows: seq<Spoke>, req: Request, row: Spoke)
    requires Distinct(rows) && IsRowOf(rows, req, row)
    ensures var (rows', out) := Registered(rows, req);
      && out.Some? && Carries(row, req, out.value) && |rows'| == |rows|
      && forall k :: 0 <= k < |rows| ==> rows'[k] == if rows[k] == row then out.value else rows[k]
  {
    RowForIs(rows, req);
    forall k | 0 <= k < |rows|
      ensures rows[k].id == row.id <==> rows[k] == row
    {
      assert rows[k] in rows;
    }
  }

  /** One that finds none adds a row with the least free ServerID, if there is one left. */
  lemma UnknownIsAdded(rows: seq<Spoke>, req: Request)
    requires Distinct(rows) && forall row :: !IsRowOf(rows, req, row)
    ensures var (rows', out) := Registered(rows, req);
      match out
      case Some(spoke) =>
        && rows' == rows + [spoke] && Introduces(req, spoke)
        && spoke.serverId.Some? && IsLeastFree(rows, spoke.serverId.value)
      case None =>
        rows' == rows && forall m :: 2 <= m <= 4094 ==> exists r :: r in rows && r.serverId == Some(m)
  {
    RowForIs(rows, req);
    NextFreeIs(rows);
  }

  // ----- interleaved runs -----

  /** The step is the update of row `id`, while it is there. */
  ghost predicate Updates(s: State, step: Step, id: Id)
    requires Enabled(s, step)
  {
    step.Update? && s.processes[step.p].phase.row.value.id == id
  }

  /** What the run last sent for a field of row `id`. */
  ghost function LastSent<T>(s: State, steps: seq<Step>, id: Id, sent: Request -> Option<T>): Option<T>
    requires IsRun(s, steps)
    decreases |steps|
  {
    if steps == [] then None
    else
      var later := LastSent(Apply(s, steps[0]), steps[1..], id, sent);
      if later.Some? then later
      else if Updates(s, steps[0], id) then sent(s.processes[steps[0].p].req)
      else None
  }

  /** Updating writes the field where it is sent, and leaves it where it is not. */
  ghost predicate Writes<T(!new)>(field: Spoke -> T, sent: Request -> Option<T>)
  {
    forall row, req :: field(Patched(row, req)) == OrElse(sent(req), field(row))
  }

  lemma StepWrites<T(!new)>(s: State, step: Step, r: Spoke, t: Spoke, field: Spoke -> T, sent: Request -> Option<T>)
    requires Inv(s) && Enabled(s, step) && Writes(field, sent)
    requires r in s.rows && t in Apply(s, step).rows && r.id == t.id
    ensures field(t) == OrElse(if Updates(s, step, r.id) then sent(s.processes[step.p].req) else None, field(r))
  {
    if step.Update? {
      var row, req := s.processes[step.p].phase.row.value, s.processes[step.p].req;
      RewrittenAre(s.rows, row.id, Patched(row, req));
      assert Target(s.rows, req, row);
    } else if step.Create? {
      assert Unclaimed(s, step.p);
    }
  }

  /** Over any run, a row that is there at both ends has in each field what was last sent, or else what it had. */
  lemma {:induction false} RunsWriteLastSent<T(!new)>(s: State, steps: seq<Step>, r: Spoke, t: Spoke, field: Spoke -> T,
                                                      sent: Request -> Option<T>)
    requires Inv(s) && IsRun(s, steps) && Writes(field, sent)
    requires r in s.rows && t in After(s, steps).rows && r.id == t.id
    ensures field(t) == OrElse(LastSent(s, steps, r.id, sent), field(r))
    decreases |steps|
  {
    if steps != [] {
      var s' := Apply(s, steps[0]);
      StepKeepsInv(s, steps[0]);
      var m := StillThere(s, steps, r, t);
      StepWrites(s, steps[0], r, m, field, sent);
      RunsWriteLastSent(s', steps[1..], m, t, field, sent);
    }
  }

  /** A row that is there at both ends was there after the first step. */
  lemma StillThere(s: State, steps: seq<Step>, r: Spoke, t: Spoke) returns (m: Spoke)
    requires Inv(s) && IsRun(s, steps) && steps != []
    requires r in s.rows && t in After(s, steps).rows && r.id == t.id
    ensures m in Apply(s, steps[0]).rows && m.id == r.id
  {
    var s' := Apply(s, steps[0]);
    StepKeepsInv(s, steps[0]);
    if forall m :: m in s'.rows ==> m.id != r.id {
      LeavingIsGone(s, steps[0], r);
      RunsStayGone(s', steps[1..], r.id);
    }
    m :| m in s'.rows && m.id == r.id;
  }

  function NoInboundIn(q: Request): Option<bool> { q.noInbound }

  function MeshIpIn(q: Request): Option<string> { q.meshIp }

  function PublicHostIn(q: Request): Option<string> { q.publicHost }

  function EndpointIn(q: Request): Option<string> { Some(q.endpoint) }

  function SiteIn(q: Request): Option<string> { if q.siteSlug == "" then None else Some(q.siteSlug) }

  function TimeIn(q: Request): Option<int> { Some(q.now) }

  function NoTime(q: Request): Option<int> { None }

  /** The fields, by name: what spokes send about their reachability. */
  lemma RunsKeepReachability(s: State, steps: seq<Step>, r: Spoke, t: Spoke)
    requires Inv(s) && IsRun(s, steps) && r in s.rows && t in After(s, steps).rows && r.id == t.id
    ensures t.noInbound == OrElse(LastSent(s, steps, r.id, NoInboundIn), r.noInbound)
    ensures t.meshIp == OrElse(LastSent(s, steps, r.id, MeshIpIn), r.meshIp)
    ensures t.publicHost == OrElse(LastSent(s, steps, r.id, PublicHostIn), r.publicHost)
  {
    RunsWriteLastSent(s, steps, r, t, (x: Spoke) => x.noInbound, NoInboundIn);
    RunsWriteLastSent(s, steps, r, t, (x: Spoke) => x.meshIp, MeshIpIn);
    RunsWriteLastSent(s, steps, r, t, (x: Spoke) => x.publicHost, PublicHostIn);
  }

  /** And where and when it was last heard of. */
  lemma RunsKeepContact(s: State, steps: seq<Step>, r: Spoke, t: Spoke)
    requires Inv(s) && IsRun(s, steps) && r in s.rows && t in After(s, steps).rows && r.id == t.id
    ensures t.endpoint == OrElse(LastSent(s, steps, r.id, EndpointIn), r.endpoint)
    ensures t.siteSlug == OrElse(LastSent(s, steps, r.id, SiteIn), r.siteSlug)
    ensures t.lastSeenOn == OrElse(LastSent(s, steps, r.id, TimeIn), r.lastSeenOn)
    ensures t.createdOn == r.createdOn
  {
    RunsWriteLastSent(s, steps, r, t, (x: Spoke) => x.endpoint, EndpointIn);
    RunsWriteLastSent(s, steps, r, t, (x: Spoke) => x.siteSlug, SiteIn);
    RunsWriteLastSent(s, steps, r, t, (x: Spoke) => x.lastSeenOn, TimeIn);
    NeverSent(s, steps, r.id);
    RunsWriteLastSent(s, steps, r, t, (x: Spoke) => x.createdOn, NoTime);
  }

  lemma {:induction false} NeverSent(s: State, steps: seq<Step>, id: Id)
    requires IsRun(s, steps)
    ensures LastSent(s, steps, id, NoTime) == None
    decreases |steps|
  {
    if steps != [] {
      NeverSent(Apply(s, steps[0]), steps[1..], id);
    }
  }

  /** And a row a run adds has, when it comes, what was sent or the defaults. */
  lemma CreatedIsIntroduced(s: State, p: nat)
    requires Enabled(s, Create(p))
    ensures var rows := Apply(s, Create(p)).rows;
      && rows == s.rows + [rows[|s.rows|]] && Introduces(s.processes[p].req, rows[|s.rows|])
      && rows[|s.rows|].serverId == Some(s.processes[p].phase.serverId)
  {
  }
}

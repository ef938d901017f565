/** The master's registry of spokes: what one registration writes, and what every interleaved run of
    locked registrations and unlocked removals keeps. A spoke's LDAP ServerID is how replication tells
    originators apart, so two rows must never share one.
  */
module SpokeRegistry {
  import opened Directory

  /** A registry row. `serverId` and `pushToken` may be missing on rows of older releases. */
  datatype Spoke = Spoke(
    id: Id,
    endpoint: string,
    siteSlug: string,
    pushToken: Option<string>,
    serverId: Option<int>,
    createdOn: int,
    lastSeenOn: int,
    noInbound: bool,
    meshIp: string,
    publicHost: string)

  /** What a spoke sends (`None`: not sent), and what the master would mint for it. */
  datatype Request = Request(
    endpoint: string,
    siteSlug: string,
    noInbound: Option<bool>,
    meshIp: Option<string>,
    publicHost: Option<string>,
    now: int,
    freshId: Id,
    freshToken: string)

  const MAX_LDAP_SERVER_ID: int := 4094

  // ----- what one registration does -----

  function ByEndpoint(rows: seq<Spoke>, endpoint: string): Option<Spoke>
  {
    First(rows, (s: Spoke) => s.endpoint == endpoint)
  }

  function BySlug(rows: seq<Spoke>, siteSlug: string): Option<Spoke>
  {
    if siteSlug == "" then None else First(rows, (s: Spoke) => s.siteSlug == siteSlug)
  }

  /** The row a registration updates: the one at its endpoint, else the one of its site. */
  function RowFor(rows: seq<Spoke>, req: Request): Option<Spoke>
  {
    var row := ByEndpoint(rows, req.endpoint);
    if row.Some? then row else BySlug(rows, req.siteSlug)
  }

  function UsedIds(rows: seq<Spoke>): set<int>
  {
    set s | s in rows && s.serverId.Some? :: s.serverId.value
  }

  function FreeFrom(used: set<int>, n: int): (r: Option<int>)
    ensures r.Some? ==> n <= r.value <= MAX_LDAP_SERVER_ID && r.value !in used
    ensures r.Some? ==> forall m :: n <= m < r.value ==> m in used
    ensures r.None? ==> forall m :: n <= m <= MAX_LDAP_SERVER_ID ==> m in used
    decreases MAX_LDAP_SERVER_ID - n
  {
    if n > MAX_LDAP_SERVER_ID then None else if n !in used then Some(n) else FreeFrom(used, n + 1)
  }

  /** `nextFreeLdapServerId`: the least free id from 2 up; 1 is the master's own. */
  function NextFree(rows: seq<Spoke>): Option<int>
  {
    FreeFrom(UsedIds(rows), 2)
  }

  /** Only what the caller actually sent is written. */
  function Patched(row: Spoke, req: Request): Spoke
  {
    row.(siteSlug := if req.siteSlug != "" then req.siteSlug else row.siteSlug,
         lastSeenOn := req.now,
         noInbound := if req.noInbound.Some? then req.noInbound.value else row.noInbound,
         meshIp := if req.meshIp.Some? then req.meshIp.value else row.meshIp,
         publicHost := if req.publicHost.Some? then req.publicHost.value else row.publicHost,
         endpoint := req.endpoint,
         pushToken := if row.pushToken.Some? then row.pushToken else Some(req.freshToken))
  }

  function Created(req: Request, serverId: int): Spoke
  {
    Spoke(req.freshId, req.endpoint, req.siteSlug, Some(req.freshToken), Some(serverId), req.now, req.now,
          req.noInbound == Some(true),
          if req.meshIp.Some? then req.meshIp.value else "",
          if req.publicHost.Some? then req.publicHost.value else "")
  }

  /** The update reaches the row with `id`, if it is still there. */
  function Rewritten(rows: seq<Spoke>, id: Id, row: Spoke): seq<Spoke>
  {
    seq(|rows|, k requires 0 <= k < |rows| => if rows[k].id == id then row else rows[k])
  }

  /** The registry after a registration, and the row it answers with (none: the ids are exhausted). */
  function Registered(rows: seq<Spoke>, req: Request): (seq<Spoke>, Option<Spoke>)
  {
    match RowFor(rows, req)
    case Some(row) => (Rewritten(rows, row.id, Patched(row, req)), Some(Patched(row, req)))
    case None =>
      match NextFree(rows)
      case None => (rows, None)
      case Some(serverId) => (rows + [Created(req, serverId)], Some(Created(req, serverId)))
  }

  function Without(rows: seq<Spoke>, id: Id): seq<Spoke> { Keeping(rows, (s: Spoke) => s.id != id) }

  class SpokeTable {
    var rows: seq<Spoke>

    constructor (rows: seq<Spoke>)
      ensures this.rows == rows
    {
      this.rows := rows;
    }

    /** The locked section of a registration, run without interruption. */
    method Register(req: Request) returns (spoke: Option<Spoke>)
      modifies this
      ensures (rows, spoke) == Registered(old(rows), req)
    {
      var row := ByEndpoint(rows, req.endpoint);
      if row == None && req.siteSlug != "" {
        row := BySlug(rows, req.siteSlug);
      }
      if row.Some? {
        var patch := row.value;
        if req.siteSlug != "" { patch := patch.(siteSlug := req.siteSlug); }
        patch := patch.(lastSeenOn := req.now);
        if req.noInbound.Some? { patch := patch.(noInbound := req.noInbound.value); }
        if req.meshIp.Some? { patch := patch.(meshIp := req.meshIp.value); }
        if req.publicHost.Some? { patch := patch.(publicHost := req.publicHost.value); }
        patch := patch.(endpoint := req.endpoint);
        if row.value.pushToken == None { patch := patch.(pushToken := Some(req.freshToken)); }
        rows := Rewritten(rows, row.value.id, patch);
        return Some(patch);
      }
      var serverId := NextFree(rows);
      if serverId == None { return None; }
      var created := Created(req, serverId.value);
      rows := rows + [created];
      return Some(created);
    }

    /** DELETE: exactly the rows with that id go, and the others stay in their order. */
    method Remove(id: Id) returns (ghost at: seq<nat>)
      modifies this
      ensures forall s :: s in rows <==> s in old(rows) && s.id != id
      ensures IsSelection(old(rows), (s: Spoke) => s.id != id, rows, at)
    {
      at := KeepingSelects(rows, (s: Spoke) => s.id != id);
      rows := Without(rows, id);
    }
  }

  // ----- the invariant -----

  /** Rows, endpoints and assigned ServerIDs are told apart, and no spoke has the master's id. */
  ghost predicate Distinct(rows: seq<Spoke>)
  {
    forall s, t :: s in rows && t in rows ==>
      && (s.id == t.id || s.endpoint == t.endpoint || (s.serverId == t.serverId && s.serverId.Some?) ==> s == t)
      && (s.serverId.Some? ==> s.serverId.value >= 2)
  }

  lemma RewrittenAre(rows: seq<Spoke>, id: Id, row: Spoke)
    ensures forall s :: s in Rewritten(rows, id, row) <==>
      (s in rows && s.id != id) || (s == row && exists t :: t in rows && t.id == id)
  {
    var rows' := Rewritten(rows, id, row);
    forall s
      ensures s in rows' <==> (s in rows && s.id != id) || (s == row && exists t :: t in rows && t.id == id)
    {
      if s in rows' {
        var k :| 0 <= k < |rows'| && rows'[k] == s;
        assert rows[k] in rows;
      }
      if s in rows && s.id != id {
        var k :| 0 <= k < |rows| && rows[k] == s;
        assert rows'[k] == s;
      }
      if t :| t in rows && t.id == id {
        var k :| 0 <= k < |rows| && rows[k] == t;
        assert rows'[k] == row;
      }
    }
  }

  /** What an update keeps: told-apart rows, provided no other row is at the new endpoint. */
  lemma UpdateKeeps(rows: seq<Spoke>, row: Spoke, req: Request)
    requires Distinct(rows)
    requires forall s :: s in rows && s.id == row.id ==> s == row
    requires forall s :: s in rows && s.endpoint == req.endpoint ==> s.id == row.id
    ensures Distinct(Rewritten(rows, row.id, Patched(row, req)))
  {
    RewrittenAre(rows, row.id, Patched(row, req));
  }

  lemma CreateKeeps(rows: seq<Spoke>, req: Request, serverId: int)
    requires Distinct(rows) && serverId >= 2 && serverId !in UsedIds(rows)
    requires forall s :: s in rows ==> s.id != req.freshId && s.endpoint != req.endpoint
    ensures Distinct(rows + [Created(req, serverId)])
  {
    assert forall s :: s in rows && s.serverId.Some? ==> s.serverId.value in UsedIds(rows);
  }

  // ----- the protocol -----

  /** How far a registration has come. It holds the lock from `Holding` up to `Done`; between any two
      steps, other requests take theirs. */
  datatype Phase =
    | Waiting
    | Holding
    | Looked(row: Option<Spoke>)
    | Decided(row: Option<Spoke>)
    | Chosen(serverId: int)
    | Done(row: Option<Spoke>)

  predicate InSection(p: Phase) { !p.Waiting? && !p.Done? }

  datatype Process = Process(req: Request, phase: Phase)

  datatype State = State(rows: seq<Spoke>, holder: Option<nat>, processes: map<nat, Process>, issued: set<Id>)

  datatype Step =
    | Arrive(p: nat, req: Request)
    | Acquire(p: nat)
    | GiveUp(p: nat)
    | LookEndpoint(p: nat)
    | LookSlug(p: nat)
    | Update(p: nat)
    | Choose(p: nat)
    | Create(p: nat)
    | Remove(id: Id)

  predicate At(s: State, p: nat, f: Phase -> bool)
  {
    p in s.processes && f(s.processes[p].phase)
  }

  predicate Enabled(s: State, step: Step)
  {
    match step
    case Arrive(p, req) => p !in s.processes && req.freshId !in s.issued
    case Acquire(p) => At(s, p, (f: Phase) => f.Waiting?) && s.holder == None
    case GiveUp(p) => At(s, p, (f: Phase) => f.Waiting?)
    case LookEndpoint(p) => At(s, p, (f: Phase) => f.Holding?)
    case LookSlug(p) => At(s, p, (f: Phase) => f.Looked?)
    case Update(p) => At(s, p, (f: Phase) => f.Decided? && f.row.Some?)
    case Choose(p) => At(s, p, (f: Phase) => f.Decided? && f.row.None?)
    case Create(p) => At(s, p, (f: Phase) => f.Chosen?)
    case Remove(_) => true
  }

  function Moved(s: State, p: nat, phase: Phase): State
    requires p in s.processes
  {
    s.(processes := s.processes[p := s.processes[p].(phase := phase)])
  }

  function Finished(s: State, p: nat, rows: seq<Spoke>, row: Option<Spoke>): State
    requires p in s.processes
  {
    Moved(s.(rows := rows, holder := None), p, Done(row))
  }

  function Apply(s: State, step: Step): State
    requires Enabled(s, step)
  {
    match step
    case Arrive(p, req) =>
      s.(processes := s.processes[p := Process(req, Waiting)], issued := s.issued + {req.freshId})
    case Acquire(p) => Moved(s.(holder := Some(p)), p, Holding)
    case GiveUp(p) => Moved(s, p, Done(None))
    case LookEndpoint(p) => Moved(s, p, Looked(ByEndpoint(s.rows, s.processes[p].req.endpoint)))
    case LookSlug(p) =>
      var row := s.processes[p].phase.row;
      Moved(s, p, Decided(if row.Some? then row else BySlug(s.rows, s.processes[p].req.siteSlug)))
    case Update(p) =>
      var row := s.processes[p].phase.row.value;
      var patched := Patched(row, s.processes[p].req);
      Finished(s, p, Rewritten(s.rows, row.id, patched), Some(patched))
    case Choose(p) =>
      (match NextFree(s.rows)
       case None => Finished(s, p, s.rows, None)
       case Some(serverId) => Moved(s, p, Chosen(serverId)))
    case Create(p) =>
      var created := Created(s.processes[p].req, s.processes[p].phase.serverId);
      Finished(s, p, s.rows + [created], Some(created))
    case Remove(id) => s.(rows := Without(s.rows, id))
  }

  /** What the process inside the section knows stays true whatever the others do. */
  ghost predicate Knows(rows: seq<Spoke>, req: Request, phase: Phase)
  {
    match phase
    case Looked(Some(row)) => Target(rows, req, row)
    case Looked(None) => NobodyAt(rows, req.endpoint)
    case Decided(Some(row)) => Target(rows, req, row)
    case Decided(None) => NobodyAt(rows, req.endpoint)
    case Chosen(serverId) => NobodyAt(rows, req.endpoint) && serverId >= 2 && serverId !in UsedIds(rows)
    case _ => true
  }

  ghost predicate NobodyAt(rows: seq<Spoke>, endpoint: string)
  {
    forall s :: s in rows ==> s.endpoint != endpoint
  }

  /** The row read is the row stored, if it still is, and nobody else is at the endpoint. */
  ghost predicate Target(rows: seq<Spoke>, req: Request, row: Spoke)
  {
    && (forall s :: s in rows && s.id == row.id ==> s == row)
    && (forall s :: s in rows && s.endpoint == req.endpoint ==> s.id == row.id)
  }

  ghost predicate Inv(s: State)
  {
    && Distinct(s.rows)
    && (forall r :: r in s.rows ==> r.id in s.issued)
    && (forall p :: p in s.processes && InSection(s.processes[p].phase) ==> s.holder == Some(p))
    && (s.holder.Some? ==> s.holder.value in s.processes && InSection(s.processes[s.holder.value].phase))
    && (forall p :: p in s.processes ==> Knows(s.rows, s.processes[p].req, s.processes[p].phase))
    && FreshIdsAreFresh(s)
  }

  ghost predicate FreshIdsAreFresh(s: State)
  {
    forall p :: p in s.processes ==>
      s.processes[p].req.freshId in s.issued && (!s.processes[p].phase.Done? ==> Unclaimed(s, p))
  }

  /** The id minted for `p` is in no row and minted for nobody else. */
  ghost predicate Unclaimed(s: State, p: nat)
    requires p in s.processes
  {
    var id := s.processes[p].req.freshId;
    && (forall r :: r in s.rows ==> r.id != id)
    && (forall q :: q in s.processes && q != p ==> s.processes[q].req.freshId != id)
  }

  ghost predicate Initial(s: State)
  {
    Distinct(s.rows) && s.holder == None && s.processes == map[] && forall r :: r in s.rows ==> r.id in s.issued
  }

  // ----- every step keeps the invariant -----

  lemma KnowsSurvivesRemoval(rows: seq<Spoke>, id: Id, req: Request, phase: Phase)
    requires Knows(rows, req, phase)
    ensures Knows(Without(rows, id), req, phase)
  {
  }

  lemma RemoveKeepsInv(s: State, id: Id)
    requires Inv(s)
    ensures Inv(Apply(s, Remove(id)))
  {
    forall p | p in s.processes
      ensures Knows(Without(s.rows, id), s.processes[p].req, s.processes[p].phase)
    {
      KnowsSurvivesRemoval(s.rows, id, s.processes[p].req, s.processes[p].phase);
    }
  }

  /** A step that only moves `p` along. */
  lemma MoveKeepsInv(s: State, p: nat, holder: Option<nat>, phase: Phase)
    requires Inv(s) && p in s.processes && !s.processes[p].phase.Done?
    requires Knows(s.rows, s.processes[p].req, phase)
    requires holder == s.holder || (s.holder == None && holder == Some(p)) || (s.holder == Some(p) && holder == None)
    requires InSection(phase) <==> holder == Some(p)
    ensures Inv(Moved(s.(holder := holder), p, phase))
  {
    MoveKeepsFresh(s, p, holder, phase);
  }

  lemma MoveKeepsFresh(s: State, p: nat, holder: Option<nat>, phase: Phase)
    requires FreshIdsAreFresh(s) && p in s.processes && !s.processes[p].phase.Done?
    ensures FreshIdsAreFresh(Moved(s.(holder := holder), p, phase))
  {
    forall q | q in s.processes && !s.processes[q].phase.Done?
      ensures Unclaimed(Moved(s.(holder := holder), p, phase), q)
    {
      assert Unclaimed(s, q);
    }
  }

  /** A step in which `p`, the holder of the lock, writes the rows and leaves. */
  lemma WriteKeepsInv(s: State, p: nat, rows: seq<Spoke>, row: Option<Spoke>)
    requires Inv(s) && p in s.processes && InSection(s.processes[p].phase)
    requires Distinct(rows)
    requires forall r :: r in rows ==> r.id == s.processes[p].req.freshId || exists t :: t in s.rows && t.id == r.id
    ensures Inv(Finished(s, p, rows, row))
  {
    var s' := Finished(s, p, rows, row);
    forall q | q in s'.processes && !s'.processes[q].phase.Done?
      ensures Unclaimed(s', q) && Knows(rows, s'.processes[q].req, s'.processes[q].phase)
    {
      assert q != p && Unclaimed(s, q);
    }
  }

  lemma StepKeepsInv(s: State, step: Step)
    requires Inv(s) && Enabled(s, step)
    ensures Inv(Apply(s, step))
  {
    match step
    case Arrive(p, req) => ArriveKeepsInv(s, p, req);
    case Acquire(p) => MoveKeepsInv(s, p, Some(p), Holding);
    case GiveUp(p) => MoveKeepsInv(s, p, s.holder, Done(None));
    case LookEndpoint(p) =>
      LookKnows(s, p);
      MoveKeepsInv(s, p, s.holder, Looked(ByEndpoint(s.rows, s.processes[p].req.endpoint)));
    case LookSlug(p) => LookSlugKeepsInv(s, p);
    case Update(p) => UpdateKeepsInv(s, p);
    case Choose(p) =>
      if NextFree(s.rows).None? {
        WriteKeepsInv(s, p, s.rows, None);
      } else {
        MoveKeepsInv(s, p, s.holder, Chosen(NextFree(s.rows).value));
      }
    case Create(p) => CreateKeepsInv(s, p);
    case Remove(id) => RemoveKeepsInv(s, id);
  }

  lemma LookSlugKeepsInv(s: State, p: nat)
    requires Inv(s) && Enabled(s, LookSlug(p))
    ensures Inv(Apply(s, LookSlug(p)))
  {
    var row := s.processes[p].phase.row;
    MoveKeepsInv(s, p, s.holder, Decided(if row.Some? then row else BySlug(s.rows, s.processes[p].req.siteSlug)));
  }

  lemma UpdateKeepsInv(s: State, p: nat)
    requires Inv(s) && Enabled(s, Update(p))
    ensures Inv(Apply(s, Update(p)))
  {
    var row := s.processes[p].phase.row.value;
    var patched := Patched(row, s.processes[p].req);
    UpdateKeeps(s.rows, row, s.processes[p].req);
    RewrittenAre(s.rows, row.id, patched);
    WriteKeepsInv(s, p, Rewritten(s.rows, row.id, patched), Some(patched));
  }

  lemma CreateKeepsInv(s: State, p: nat)
    requires Inv(s) && Enabled(s, Create(p))
    ensures Inv(Apply(s, Create(p)))
  {
    var created := Created(s.processes[p].req, s.processes[p].phase.serverId);
    assert Unclaimed(s, p);
    CreateKeeps(s.rows, s.processes[p].req, s.processes[p].phase.serverId);
    WriteKeepsInv(s, p, s.rows + [created], Some(created));
  }

  lemma LookKnows(s: State, p: nat)
    requires Inv(s) && p in s.processes
    ensures Knows(s.rows, s.processes[p].req, Looked(ByEndpoint(s.rows, s.processes[p].req.endpoint)))
  {
    var row := ByEndpoint(s.rows, s.processes[p].req.endpoint);
    if row == None {
      forall r | r in s.rows
        ensures r.endpoint != s.processes[p].req.endpoint
      {
        var k :| 0 <= k < |s.rows| && s.rows[k] == r;
      }
    }
  }

  lemma ArriveKeepsInv(s: State, p: nat, req: Request)
    requires Inv(s) && Enabled(s, Arrive(p, req))
    ensures Inv(Apply(s, Arrive(p, req)))
  {
    var s' := Apply(s, Arrive(p, req));
    forall q | q in s'.processes && !s'.processes[q].phase.Done?
      ensures Unclaimed(s', q)
    {
      if q != p {
        assert Unclaimed(s, q);
      }
    }
  }

  // ----- whole runs -----

  predicate IsRun(s: State, steps: seq<Step>)
    decreases |steps|
  {
    steps == [] || (Enabled(s, steps[0]) && IsRun(Apply(s, steps[0]), steps[1..]))
  }

  function After(s: State, steps: seq<Step>): State
    requires IsRun(s, steps)
    decreases |steps|
  {
    if steps == [] then s else After(Apply(s, steps[0]), steps[1..])
  }

  /** Every interleaved run keeps endpoints told apart, and assigned ServerIDs told apart and above the master's. */
  lemma {:induction false} RunsKeepDistinct(s: State, steps: seq<Step>)
    requires Inv(s) && IsRun(s, steps)
    ensures Inv(After(s, steps)) && Distinct(After(s, steps).rows)
    decreases |steps|
  {
    if steps != [] {
      StepKeepsInv(s, steps[0]);
      RunsKeepDistinct(Apply(s, steps[0]), steps[1..]);
    }
  }

  lemma InitialIsInv(s: State)
    requires Initial(s)
    ensures Inv(s)
  {
  }

  /** `rows'` still knows every row it has in common with `rows` by the same ServerID and push token. */
  ghost predicate KeepsIdentities(rows: seq<Spoke>, rows': seq<Spoke>)
  {
    forall r, r' :: r in rows && r' in rows' && r.id == r'.id ==>
      r'.serverId == r.serverId && (r.pushToken.Some? ==> r'.pushToken == r.pushToken)
  }

  lemma StepKeepsIdentities(s: State, step: Step)
    requires Inv(s) && Enabled(s, step)
    ensures KeepsIdentities(s.rows, Apply(s, step).rows)
  {
    if step.Update? {
      var row := s.processes[step.p].phase.row.value;
      RewrittenAre(s.rows, row.id, Patched(row, s.processes[step.p].req));
    } else if step.Create? {
      assert Unclaimed(s, step.p);
    }
  }

  /** No row, and no registration under way, can bring `id` back. */
  ghost predicate Gone(s: State, id: Id)
  {
    && id in s.issued && (forall r :: r in s.rows ==> r.id != id)
    && forall p :: p in s.processes && s.processes[p].req.freshId == id ==> s.processes[p].phase.Done?
  }

  lemma GoneStaysGone(s: State, step: Step, id: Id)
    requires Inv(s) && Enabled(s, step) && Gone(s, id)
    ensures Gone(Apply(s, step), id)
  {
    if step.Update? {
      var row := s.processes[step.p].phase.row.value;
      RewrittenAre(s.rows, row.id, Patched(row, s.processes[step.p].req));
    }
  }

  lemma {:induction false} RunsStayGone(s: State, steps: seq<Step>, id: Id)
    requires Inv(s) && IsRun(s, steps) && Gone(s, id)
    ensures Gone(After(s, steps), id)
    decreases |steps|
  {
    if steps != [] {
      StepKeepsInv(s, steps[0]);
      GoneStaysGone(s, steps[0], id);
      RunsStayGone(Apply(s, steps[0]), steps[1..], id);
    }
  }

  lemma LeavingIsGone(s: State, step: Step, r: Spoke)
    requires Inv(s) && Enabled(s, step) && r in s.rows && forall t :: t in Apply(s, step).rows ==> t.id != r.id
    ensures Gone(Apply(s, step), r.id)
  {
    var s' := Apply(s, step);
    forall p | p in s'.processes && s'.processes[p].req.freshId == r.id
      ensures s'.processes[p].phase.Done?
    {
      if p in s.processes && !s.processes[p].phase.Done? {
        assert Unclaimed(s, p);
      }
    }
  }

  /** Over any run, a row that is there at both ends has kept its ServerID and any push token it had. */
  lemma {:induction false} RunsKeepIdentities(s: State, steps: seq<Step>)
    requires Inv(s) && IsRun(s, steps)
    ensures KeepsIdentities(s.rows, After(s, steps).rows)
    decreases |steps|
  {
    if steps != [] {
      var s' := Apply(s, steps[0]);
      StepKeepsInv(s, steps[0]);
      StepKeepsIdentities(s, steps[0]);
      RunsKeepIdentities(s', steps[1..]);
      var end := After(s', steps[1..]);
      forall r, t | r in s.rows && t in end.rows && r.id == t.id
        ensures t.serverId == r.serverId && (r.pushToken.Some? ==> t.pushToken == r.pushToken)
      {
        if forall m :: m in s'.rows ==> m.id != r.id {
          LeavingIsGone(s, steps[0], r);
          RunsStayGone(s', steps[1..], r.id);
        } else {
          var m :| m in s'.rows && m.id == r.id;
        }
      }
    }
  }

  // ----- what the lock is for -----

  /** Two registrations of new spokes both past the lookup, as no reachable state has them, are given the
      same ServerID. */
  lemma WithoutTheLockIdsCollide(s: State, p: nat, q: nat)
    requires p != q && Enabled(s, Choose(p)) && Enabled(s, Choose(q)) && NextFree(s.rows).Some?
    ensures var steps := [Choose(p), Choose(q), Create(p), Create(q)];
      && IsRun(s, steps)
      && var rows := After(s, steps).rows;
         |rows| == |s.rows| + 2 && rows[|s.rows|].serverId == rows[|s.rows| + 1].serverId == NextFree(s.rows)
    ensures !Inv(s)
  {
    var s1 := Apply(s, Choose(p));
    var s2 := Apply(s1, Choose(q));
    var s3 := Apply(s2, Create(p));
    RunCons(s3, Create(q), []);
    RunCons(s2, Create(p), [Create(q)]);
    RunCons(s1, Choose(q), [Create(p), Create(q)]);
    RunCons(s, Choose(p), [Choose(q), Create(p), Create(q)]);
    assert [Create(p)] + [Create(q)] == [Create(p), Create(q)];
    assert [Choose(q)] + [Create(p), Create(q)] == [Choose(q), Create(p), Create(q)];
    assert [Choose(p)] + [Choose(q), Create(p), Create(q)] == [Choose(p), Choose(q), Create(p), Create(q)];
  }

  lemma RunCons(s: State, step: Step, rest: seq<Step>)
    requires Enabled(s, step) && IsRun(Apply(s, step), rest)
    ensures IsRun(s, [step] + rest) && After(s, [step] + rest) == After(Apply(s, step), rest)
  {
    assert ([step] + rest)[1..] == rest;
  }

  // ----- one registration, undisturbed -----

  /** The steps a registration takes when nothing comes between them. */
  function Undisturbed(rows: seq<Spoke>, p: nat, req: Request): seq<Step>
  {
    [Acquire(p), LookEndpoint(p), LookSlug(p)]
    + if RowFor(rows, req).Some? then [Update(p)]
      else if NextFree(rows).None? then [Choose(p)]
      else [Choose(p), Create(p)]
  }

  /** Uninterrupted, the protocol does what `Register` does. */
  lemma UndisturbedIsRegistered(s: State, p: nat)
    requires Enabled(s, Acquire(p))
    ensures var req := s.processes[p].req; var steps := Undisturbed(s.rows, p, req);
      IsRun(s, steps) && Ends(After(s, steps), p, Registered(s.rows, req))
  {
    var req := s.processes[p].req;
    var s1 := Apply(s, Acquire(p));
    var s2 := Apply(s1, LookEndpoint(p));
    var s3 := Apply(s2, LookSlug(p));
    var rest := Undisturbed(s.rows, p, req)[3..];
    DecidedGoesOn(s3, p, rest);
    RunCons(s2, LookSlug(p), rest);
    RunCons(s1, LookEndpoint(p), [LookSlug(p)] + rest);
    RunCons(s, Acquire(p), [LookEndpoint(p)] + ([LookSlug(p)] + rest));
    assert Undisturbed(s.rows, p, req) == [Acquire(p)] + ([LookEndpoint(p)] + ([LookSlug(p)] + rest));
  }

  lemma DecidedGoesOn(s: State, p: nat, steps: seq<Step>)
    requires p in s.processes && s.processes[p].phase == Decided(RowFor(s.rows, s.processes[p].req))
    requires steps == Undisturbed(s.rows, p, s.processes[p].req)[3..]
    ensures IsRun(s, steps) && Ends(After(s, steps), p, Registered(s.rows, s.processes[p].req))
  {
    var row := RowFor(s.rows, s.processes[p].req);
    if row.Some? {
      RunCons(s, Update(p), []);
      assert steps == [Update(p)] + [];
    } else if NextFree(s.rows).None? {
      RunCons(s, Choose(p), []);
      assert steps == [Choose(p)] + [];
    } else {
      RunCons(Apply(s, Choose(p)), Create(p), []);
      RunCons(s, Choose(p), [Create(p)]);
      assert [Create(p)] + [] == [Create(p)];
      assert steps == [Choose(p)] + [Create(p)];
    }
  }

  predicate Ends(s: State, p: nat, out: (seq<Spoke>, Option<Spoke>))
  {
    s.rows == out.0 && s.holder == None && p in s.processes && s.processes[p].phase == Done(out.1)
  }

  /** A spoke that registers again, from the same endpoint, is recognized: no row is added, and the row it
      gets has the id, ServerID and push token it was first given. The same request twice is the request once. */
  lemma RegisteringAgain(rows: seq<Spoke>, req: Request, again: Request)
    requires Distinct(rows) && again.endpoint == req.endpoint
    requires forall r :: r in rows ==> r.id != req.freshId
    requires Registered(rows, req).1.Some?
    ensures var (rows1, first) := Registered(rows, req);
      var (rows2, second) := Registered(rows1, again);
      && |rows2| == |rows1| && second.Some?
      && second.value.id == first.value.id && second.value.serverId == first.value.serverId
      && second.value.pushToken == first.value.pushToken
      && (again == req ==> rows2 == rows1 && second == first)
  {
    var (rows1, first) := Registered(rows, req);
    RegisteredHasRow(rows, req);
    var row := ByEndpoint(rows1, again.endpoint);
    if row == None {
      assert false;
    }
    if again == req {
      PatchedAgain(rows, req);
      var rows2 := Rewritten(rows1, first.value.id, first.value);
      forall k | 0 <= k < |rows1|
        ensures rows2[k] == rows1[k]
      {
        assert rows1[k] in rows1;
      }
    }
  }

  lemma PatchedAgain(rows: seq<Spoke>, req: Request)
    requires Registered(rows, req).1.Some?
    ensures Patched(Registered(rows, req).1.value, req) == Registered(rows, req).1.value
  {
  }

  ghost predicate IsFirstOfSite(rows: seq<Spoke>, row: Spoke, siteSlug: string)
  {
    row.siteSlug == siteSlug
    && exists k :: 0 <= k < |rows| && rows[k] == row && forall j :: 0 <= j < k ==> rows[j].siteSlug != siteSlug
  }

  /** A spoke that has moved to a new endpoint is recognized by its site, by the first row of that site, and keeps its
      identity. */
  lemma MovedSpokeIsRecognized(rows: seq<Spoke>, row: Spoke, req: Request)
    requires Distinct(rows) && req.siteSlug != "" && NobodyAt(rows, req.endpoint)
    requires IsFirstOfSite(rows, row, req.siteSlug)
    ensures var (rows', out) := Registered(rows, req);
      && |rows'| == |rows| && out.Some? && out.value in rows' && Distinct(rows')
      && out.value.endpoint == req.endpoint && out.value.id == row.id && out.value.serverId == row.serverId
      && (row.pushToken.Some? ==> out.value.pushToken == row.pushToken)
      && forall r :: r in rows && r != row ==> r in rows'
  {
    FirstOfSite(rows, row, req.siteSlug);
    RewrittenAre(rows, row.id, Patched(row, req));
    UpdateKeeps(rows, row, req);
  }

  lemma FirstOfSite(rows: seq<Spoke>, row: Spoke, siteSlug: string)
    requires siteSlug != "" && IsFirstOfSite(rows, row, siteSlug)
    ensures row in rows && BySlug(rows, siteSlug) == Some(row)
  {
    var k :| 0 <= k < |rows| && rows[k] == row && forall j :: 0 <= j < k ==> rows[j].siteSlug != siteSlug;
    var f := (s: Spoke) => s.siteSlug == siteSlug;
    if FirstFrom(rows, f, 0).Some? {
      var first := FirstFromIsFirst(rows, f, 0);
      assert first == k;
    }
  }

  // ----- one row per site -----

  /** No site that is named has two rows. */
  ghost predicate OnePerSite(rows: seq<Spoke>)
  {
    forall s, t :: s in rows && t in rows && s.siteSlug != "" && s.siteSlug == t.siteSlug ==> s == t
  }

  /** The spoke found by its endpoint says it is at the site of another row. */
  ghost predicate ClaimsAnotherSite(rows: seq<Spoke>, req: Request)
  {
    req.siteSlug != "" && exists row, t ::
      ByEndpoint(rows, req.endpoint) == Some(row) && t in rows && t != row && t.siteSlug == req.siteSlug
  }

  /** A registration keeps one row per site exactly when the row found by endpoint claims no other row's site. */
  lemma RegistrationKeepsSitesIff(rows: seq<Spoke>, req: Request)
    requires Distinct(rows) && OnePerSite(rows)
    ensures OnePerSite(Registered(rows, req).0) <==> !ClaimsAnotherSite(rows, req)
  {
    match RowFor(rows, req)
    case Some(row) =>
      var rows', patched := Rewritten(rows, row.id, Patched(row, req)), Patched(row, req);
      RewrittenAre(rows, row.id, patched);
      if ClaimsAnotherSite(rows, req) {
        var t :| t in rows && t != row && t.siteSlug == req.siteSlug;
        assert t in rows' && patched in rows' && t != patched;
      } else {
        OthersKeepSites(rows, req, row);
      }
    case None =>
      if NextFree(rows).Some? {
        NewSiteIsItsOwn(rows, req);
      }
  }

  lemma OthersKeepSites(rows: seq<Spoke>, req: Request, row: Spoke)
    requires Distinct(rows) && OnePerSite(rows) && RowFor(rows, req) == Some(row) && !ClaimsAnotherSite(rows, req)
    ensures OnePerSite(Rewritten(rows, row.id, Patched(row, req)))
  {
    var patched := Patched(row, req);
    RewrittenAre(rows, row.id, patched);
    forall t | t in rows && t.id != row.id
      ensures patched.siteSlug == "" || t.siteSlug != patched.siteSlug
    {
      if req.siteSlug != "" && ByEndpoint(rows, req.endpoint) == None {
        assert row.siteSlug == req.siteSlug;
      }
    }
  }

  lemma NewSiteIsItsOwn(rows: seq<Spoke>, req: Request)
    requires OnePerSite(rows) && RowFor(rows, req) == None && NextFree(rows).Some?
    ensures OnePerSite(rows + [Created(req, NextFree(rows).value)])
  {
    forall t | t in rows && req.siteSlug != ""
      ensures t.siteSlug != req.siteSlug
    {
      var k :| 0 <= k < |rows| && rows[k] == t;
    }
  }

  // ----- one row per site, over interleaved runs -----

  ghost predicate NobodyOf(rows: seq<Spoke>, siteSlug: string)
  {
    siteSlug != "" ==> forall r :: r in rows ==> r.siteSlug != siteSlug
  }

  /** A process that found no row knows that nobody is at its site, whatever the others do. */
  ghost predicate SitesKnown(s: State)
  {
    forall p :: p in s.processes ==> SiteKnown(s.rows, s.processes[p])
  }

  ghost predicate SiteKnown(rows: seq<Spoke>, process: Process)
  {
    process.phase == Decided(None) || process.phase.Chosen? ==> NobodyOf(rows, process.req.siteSlug)
  }

  /** The step writes to a row, still there, the site of another row. */
  ghost predicate Doubles(s: State, step: Step)
    requires Enabled(s, step)
  {
    step.Update? &&
    var row, slug := s.processes[step.p].phase.row.value, s.processes[step.p].req.siteSlug;
    row in s.rows && slug != "" && exists t :: t in s.rows && t.id != row.id && t.siteSlug == slug
  }

  lemma UpdateSites(s: State, p: nat)
    requires Inv(s) && OnePerSite(s.rows) && Enabled(s, Update(p))
    ensures OnePerSite(Apply(s, Update(p)).rows) <==> !Doubles(s, Update(p))
  {
    var row, req := s.processes[p].phase.row.value, s.processes[p].req;
    var patched := Patched(row, req);
    var rows' := Rewritten(s.rows, row.id, patched);
    assert Target(s.rows, req, row);
    RewrittenAre(s.rows, row.id, patched);
    if Doubles(s, Update(p)) {
      var t :| t in s.rows && t.id != row.id && t.siteSlug == req.siteSlug;
      assert t in rows' && patched in rows' && t != patched;
    } else {
      forall t | t in s.rows && t.id != row.id && row in s.rows
        ensures patched.siteSlug == "" || t.siteSlug != patched.siteSlug
      {
      }
    }
  }

  lemma StepSites(s: State, step: Step)
    requires Inv(s) && SitesKnown(s) && OnePerSite(s.rows) && Enabled(s, step)
    ensures SitesKnown(Apply(s, step))
    ensures OnePerSite(Apply(s, step).rows) <==> !Doubles(s, step)
  {
    match step
    case Update(p) =>
      UpdateSites(s, p);
      WriteKeepsSites(s, step, p);
    case Create(p) =>
      CreateSites(s, p);
      WriteKeepsSites(s, step, p);
    case LookSlug(p) => LookSlugKeepsSites(s, p);
    case Remove(id) => RemoveKeepsSites(s, id);
    case _ => OtherStepKeepsSites(s, step);
  }

  lemma CreateSites(s: State, p: nat)
    requires SitesKnown(s) && OnePerSite(s.rows) && Enabled(s, Create(p))
    ensures OnePerSite(Apply(s, Create(p)).rows)
  {
    assert SiteKnown(s.rows, s.processes[p]);
  }

  lemma OtherStepKeepsSites(s: State, step: Step)
    requires SitesKnown(s) && Enabled(s, step)
    requires step.Arrive? || step.Acquire? || step.GiveUp? || step.LookEndpoint? || step.Choose?
    ensures Apply(s, step).rows == s.rows && SitesKnown(Apply(s, step))
  {
    forall q | q in s.processes
      ensures SiteKnown(s.rows, s.processes[q])
    {
    }
  }

  /** Only the holder of the lock writes, and it has left the section afterwards. */
  lemma WriteKeepsSites(s: State, step: Step, p: nat)
    requires Inv(s) && SitesKnown(s) && Enabled(s, step) && (step == Update(p) || step == Create(p))
    ensures SitesKnown(Apply(s, step))
  {
    var s' := Apply(s, step);
    forall q | q in s'.processes
      ensures SiteKnown(s'.rows, s'.processes[q])
    {
      assert q != p ==> !InSection(s.processes[q].phase);
    }
  }

  lemma LookSlugKeepsSites(s: State, p: nat)
    requires Inv(s) && SitesKnown(s) && Enabled(s, LookSlug(p))
    ensures SitesKnown(Apply(s, LookSlug(p)))
  {
    var slug := s.processes[p].req.siteSlug;
    if BySlug(s.rows, slug) == None {
      forall r | r in s.rows && slug != ""
        ensures r.siteSlug != slug
      {
        var k :| 0 <= k < |s.rows| && s.rows[k] == r;
      }
    }
    forall q | q in s.processes && q != p
      ensures SiteKnown(s.rows, s.processes[q])
    {
    }
  }

  lemma RemoveKeepsSites(s: State, id: Id)
    requires SitesKnown(s)
    ensures SitesKnown(Apply(s, Remove(id)))
  {
    forall p | p in s.processes
      ensures SiteKnown(Without(s.rows, id), s.processes[p])
    {
      assert SiteKnown(s.rows, s.processes[p]);
    }
  }

  /** At every moment of the run, no site that is named has two rows. */
  ghost predicate AlwaysOnePerSite(s: State, steps: seq<Step>)
    requires IsRun(s, steps)
    decreases |steps|
  {
    OnePerSite(s.rows) && (steps == [] || AlwaysOnePerSite(Apply(s, steps[0]), steps[1..]))
  }

  ghost predicate NoStepDoubles(s: State, steps: seq<Step>)
    requires IsRun(s, steps)
    decreases |steps|
  {
    steps == [] || (!Doubles(s, steps[0]) && NoStepDoubles(Apply(s, steps[0]), steps[1..]))
  }

  /** Every interleaved run that starts with one row per site has one per site throughout exactly when no update
      writes another row's site. */
  lemma {:induction false} RunsKeepSitesIff(s: State, steps: seq<Step>)
    requires Inv(s) && SitesKnown(s) && OnePerSite(s.rows) && IsRun(s, steps)
    ensures AlwaysOnePerSite(s, steps) <==> NoStepDoubles(s, steps)
    decreases |steps|
  {
    if steps != [] {
      var next := Apply(s, steps[0]);
      StepKeepsInv(s, steps[0]);
      StepSites(s, steps[0]);
      if OnePerSite(next.rows) {
        RunsKeepSitesIff(next, steps[1..]);
      } else {
        SitesStartWrong(next, steps[1..]);
      }
    }
  }

  lemma SitesStartWrong(s: State, steps: seq<Step>)
    requires IsRun(s, steps) && !OnePerSite(s.rows)
    ensures !AlwaysOnePerSite(s, steps)
  {
  }

  /** It happens: a spoke registered at one site says it is at another spoke's. */
  lemma SitesCanBeDoubled(x: Spoke, y: Spoke, req: Request)
    requires Distinct([x, y]) && x != y && x.siteSlug != y.siteSlug && y.siteSlug != ""
    requires req.endpoint == x.endpoint && req.siteSlug == y.siteSlug
    ensures OnePerSite([x, y]) && !OnePerSite(Registered([x, y], req).0)
  {
    assert x in [x, y] && y in [x, y];
    assert ByEndpoint([x, y], req.endpoint) == Some(x) by {
      assert [x, y][0] == x;
    }
    RegistrationKeepsSitesIff([x, y], req);
  }

  /** A registration leaves one row at its endpoint, the one it answers with. */
  lemma RegisteredHasRow(rows: seq<Spoke>, req: Request)
    requires Distinct(rows) && Registered(rows, req).1.Some?
    requires forall r :: r in rows ==> r.id != req.freshId
    ensures var (rows', out) := Registered(rows, req);
      && Distinct(rows') && out.value in rows' && out.value.endpoint == req.endpoint && out.value.pushToken.Some?
      && forall r :: r in rows' && r.endpoint == req.endpoint ==> r == out.value
  {
    if ByEndpoint(rows, req.endpoint) == None {
      forall r | r in rows
        ensures r.endpoint != req.endpoint
      {
        var k :| 0 <= k < |rows| && rows[k] == r;
      }
    }
    match RowFor(rows, req)
    case Some(row) =>
      RewrittenAre(rows, row.id, Patched(row, req));
      UpdateKeeps(rows, row, req);
    case None =>
      if NextFree(rows).Some? {
        CreateKeeps(rows, req, NextFree(rows).value);
      }
  }
}

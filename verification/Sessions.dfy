/** The table of login sessions over time.

    A session lives for two hours from its last touch.  Every request first checks its session
    in one database call and, if it is live, renews it in a second and asks for its user in a
    third; requests interleave at these calls while the clock runs on. */
module Sessions {
  import opened Base

  type SessionId = string

  const TWO_HOURS := 7200 * SECOND

  datatype SessionRow = SessionRow(user: UserId, endDate: Time)
  type Rows = map<SessionId, SessionRow>

  predicate LiveIn(rows: Rows, id: SessionId, now: Time) {
    id in rows && rows[id].endDate > now
  }

  predicate Creatable(rows: Rows, users: set<UserId>, id: SessionId, user: UserId) {
    id !in rows && user in users
  }

  function Touch(rows: Rows, id: SessionId, endDate: Time): Rows {
    if id in rows then rows[id := rows[id].(endDate := endDate)] else rows
  }

  // ---------------------------------------------------------------- requests and calls

  datatype Kind = Login(newId: SessionId, user: UserId) | Logout | Other
  datatype Phase =
    | Checking
    | Renewing(checkedAt: Time)
    | Naming
    | Body
    | Finished

  /** A request that carries session `session` and a user id of the sender's own, `claimed`;
      `named` is the user of the session, if it was found live. */
  datatype Flight = Flight(session: SessionId, claimed: UserId, kind: Kind, phase: Phase, named: Option<UserId>) {
    /** The user id in the request when it is dispatched. */
    function RunsAs(): UserId { if named.Some? then named.value else claimed }
  }

  /** What the table has committed, in order. */
  datatype Commit =
    | Created(id: SessionId, user: UserId, at: Time)
    | Renewed(id: SessionId, checkedAt: Time, at: Time)
    | Closed(id: SessionId, at: Time)

  datatype Server = Server(rows: Rows, users: set<UserId>, flights: map<RequestId, Flight>, log: seq<Commit>,
                           clock: Time)

  /** The next database call: whose it is, whether it commits, and how long after the last; or
      a registration that has stored a new user. */
  datatype Event =
    | Event(id: RequestId, ok: bool, elapsed: nat)
    | Joined(user: UserId, elapsed: nat)

  /** RRManager::checkSession, then the part of the body that touches sessions. */
  function Advance(s: Server, f: Flight, ok: bool): (Rows, seq<Commit>, Flight) {
    match f.phase
    case Checking =>
      if !ok then (s.rows, [], f.(phase := Finished))
      else if LiveIn(s.rows, f.session, s.clock) then (s.rows, [], f.(phase := Renewing(s.clock)))
      else (s.rows, [], f.(phase := Body))
    case Renewing(checkedAt) =>
      if !ok then (s.rows, [], f.(phase := Finished))
      else
        (Touch(s.rows, f.session, s.clock + TWO_HOURS),
         if f.session in s.rows then [Renewed(f.session, checkedAt, s.clock)] else [],
         f.(phase := Naming))
    case Naming =>
      if !ok || f.session !in s.rows then (s.rows, [], f.(phase := Finished))
      else (s.rows, [], f.(phase := Body, named := Some(s.rows[f.session].user)))
    case Body =>
      (match f.kind
       case Logout =>
         if ok && f.session in s.rows
         then (Touch(s.rows, f.session, s.clock), [Closed(f.session, s.clock)], f.(phase := Finished))
         else (s.rows, [], f.(phase := Finished))
       case Login(newId, user) =>
         if ok && Creatable(s.rows, s.users, newId, user)
         then
           (s.rows[newId := SessionRow(user, s.clock + TWO_HOURS)], [Created(newId, user, s.clock)],
            f.(phase := Finished))
         else (s.rows, [], f.(phase := Finished))
       case Other => (s.rows, [], f.(phase := Finished)))
    case Finished => (s.rows, [], f)
  }

  function Wait(s: Server, elapsed: nat): Server { s.(clock := s.clock + elapsed) }

  function Call(s: Server, id: RequestId, ok: bool): Server
    requires id in s.flights
  {
    var (rows, commits, f) := Advance(s, s.flights[id], ok);
    s.(rows := rows, log := s.log + commits, flights := s.flights[id := f])
  }

  function Join(s: Server, user: UserId): Server { s.(users := s.users + {user}) }

  function Step(s: Server, e: Event): Server {
    var s1 := Wait(s, e.elapsed);
    match e
    case Joined(user, _) => Join(s1, user)
    case Event(id, ok, _) => if id in s1.flights then Call(s1, id, ok) else s1
  }

  function Run(s: Server, trace: seq<Event>): Server
    decreases |trace|
  {
    if trace == [] then s else Run(Step(s, trace[0]), trace[1..])
  }

  predicate Live(s: Server, id: SessionId, now: Time) { LiveIn(s.rows, id, now) }

  // ---------------------------------------------------------------- once dead, always dead

  /** Some request on the session has passed its check and not renewed yet. */
  ghost predicate PastCheck(s: Server, id: SessionId) {
    exists r :: r in s.flights && s.flights[r].session == id && s.flights[r].phase.Renewing?
  }

  ghost predicate Expired(s: Server, id: SessionId) {
    id in s.rows && s.rows[id].endDate <= s.clock
  }

  lemma ExpiredStep(s: Server, e: Event, id: SessionId)
    requires Expired(s, id) && !PastCheck(s, id)
    ensures Expired(Step(s, e), id) && !PastCheck(Step(s, e), id)
  {}

  lemma {:induction false} ExpiredRun(s: Server, trace: seq<Event>, id: SessionId)
    requires Expired(s, id) && !PastCheck(s, id)
    ensures Expired(Run(s, trace), id)
    decreases |trace|
  {
    if trace != [] {
      ExpiredStep(s, trace[0], id);
      ExpiredRun(Step(s, trace[0]), trace[1..], id);
    }
  }

  /** A dead session can come back to life, whatever requests follow and however they overlap,
      if and only if some request on it had passed its check before and has yet to renew. */
  lemma RevivalNeedsAPassedCheck(s: Server, id: SessionId)
    requires Expired(s, id)
    ensures PastCheck(s, id) <==> exists trace: seq<Event> :: Live(Run(s, trace), id, Run(s, trace).clock)
  {
    if r :| r in s.flights && s.flights[r].session == id && s.flights[r].phase.Renewing? {
      var trace := [Event(r, true, 0)];
      assert Run(s, trace) == Run(Step(s, trace[0]), []);
      assert Live(Run(s, trace), id, Run(s, trace).clock);
    } else {
      forall trace: seq<Event> ensures !Live(Run(s, trace), id, Run(s, trace).clock) {
        ExpiredRun(s, trace, id);
      }
    }
  }

  /** A call that commits at once. */
  function AtOnce(id: RequestId): Event { Event(id, true, 0) }

  /** A login that will create `id`, and two requests on `id`, of which the second logs out. */
  function Scene(id: SessionId, other: SessionId, user: UserId): Server {
    Server(map[], {user},
           map[0 := Flight(other, user, Login(id, user), Checking, None),
               1 := Flight(id, user, Other, Checking, None),
               2 := Flight(id, user, Logout, Checking, None)], [], 0)
  }

  /** The login has created the session, and both requests have found it live. */
  lemma BothChecked(id: SessionId, other: SessionId, user: UserId)
    requires id != other
    ensures var s := Run(Scene(id, other, user), [AtOnce(0), AtOnce(0), AtOnce(1), AtOnce(2)]);
            && id in s.rows && 1 in s.flights && 2 in s.flights
            && s.flights[1] == Flight(id, user, Other, Renewing(0), None)
            && s.flights[2] == Flight(id, user, Logout, Renewing(0), None)
  {
    var s2 := Step(Step(Scene(id, other, user), AtOnce(0)), AtOnce(0));
    assert Run(Scene(id, other, user), [AtOnce(0), AtOnce(0), AtOnce(1), AtOnce(2)]) ==
           Step(Step(s2, AtOnce(1)), AtOnce(2));
  }

  /** The second request renews, is named and closes the session, behind the back of the first. */
  lemma ClosedMeanwhile(s: Server, id: SessionId)
    requires id in s.rows && 1 in s.flights && 2 in s.flights
    requires s.flights[2].session == id && s.flights[2].phase.Renewing? && s.flights[2].kind.Logout?
    ensures var s' := Run(s, [AtOnce(2), AtOnce(2), AtOnce(2)]);
            Expired(s', id) && 1 in s'.flights && s'.flights[1] == s.flights[1]
  {
    var s1 := Step(s, AtOnce(2));
    var s2 := Step(s1, AtOnce(2));
    assert Run(s, [AtOnce(2), AtOnce(2), AtOnce(2)]) == Step(s2, AtOnce(2));
    assert s1.flights[2].phase.Naming? && s2.flights[2].phase.Body? && s2.flights[2].session == id;
  }

  lemma {:induction false} RunAppend(s: Server, before: seq<Event>, after: seq<Event>)
    ensures Run(s, before + after) == Run(Run(s, before), after)
    decreases |before|
  {
    if before == [] {
      assert before + after == after;
    } else {
      assert (before + after)[1..] == before[1..] + after;
      RunAppend(Step(s, before[0]), before[1..], after);
    }
  }

  /** Such a state is reached from an empty table: two requests on a session pass their checks,
      the second of them renews and closes it, and the first has yet to renew it again. */
  lemma RevivalHappens(id: SessionId, other: SessionId, user: UserId)
    requires id != other
    ensures exists s: Server, trace: seq<Event> ::
              Fresh(s) && Expired(Run(s, trace), id) && PastCheck(Run(s, trace), id)
  {
    var s := Scene(id, other, user);
    var checks, logout := [AtOnce(0), AtOnce(0), AtOnce(1), AtOnce(2)], [AtOnce(2), AtOnce(2), AtOnce(2)];
    BothChecked(id, other, user);
    ClosedMeanwhile(Run(s, checks), id);
    RunAppend(s, checks, logout);
    assert Fresh(s) && Expired(Run(s, checks + logout), id) && PastCheck(Run(s, checks + logout), id);
  }

  // ---------------------------------------------------------------- liveness is history

  /** The commits on one session. */
  function History(log: seq<Commit>, id: SessionId): seq<Commit>
    decreases |log|
  {
    if log == [] then []
    else
      var n := |log| - 1;
      History(log[..n], id) + (if log[n].id == id then [log[n]] else [])
  }

  /** Created, never closed, and every renewal, and `now` itself, less than two hours after the
      touch before it. */
  ghost predicate Unbroken(history: seq<Commit>, now: Time) {
    && history != [] && history[0].Created?
    && (forall k :: 1 <= k < |history| ==>
          history[k].Renewed? && history[k].checkedAt < history[k - 1].at + TWO_HOURS)
    && now < history[|history| - 1].at + TWO_HOURS
  }

  /** No two requests on the session are between their first call and their answer. */
  ghost predicate NoOverlap(s: Server, id: SessionId) {
    forall i, j :: i in s.flights && j in s.flights && i != j &&
                   s.flights[i].session == id && s.flights[j].session == id
      ==> !(Busy(s.flights[i]) && Busy(s.flights[j]))
  }

  predicate Busy(f: Flight) { !f.phase.Checking? && !f.phase.Finished? }

  ghost predicate Calm(s: Server, trace: seq<Event>, id: SessionId)
    decreases |trace|
  {
    NoOverlap(s, id) && (trace == [] || Calm(Step(s, trace[0]), trace[1..], id))
  }

  /** Every link of the chain holds, up to the last commit. */
  ghost predicate Linked(history: seq<Commit>) {
    && history != [] && history[0].Created?
    && forall k :: 1 <= k < |history| ==>
         history[k].Renewed? && history[k].checkedAt < history[k - 1].at + TWO_HOURS
  }

  ghost predicate Recorded(s: Server, id: SessionId) {
    var h := History(s.log, id);
    if h == [] then id !in s.rows && !PastCheck(s, id)
    else
      var last := h[|h| - 1];
      && id in s.rows
      && s.rows[id].endDate == (if last.Closed? then last.at else last.at + TWO_HOURS)
      && (if Linked(h) then
            forall r :: r in s.flights && s.flights[r].session == id && s.flights[r].phase.Renewing?
              ==> s.flights[r].phase.checkedAt < last.at + TWO_HOURS
          else Expired(s, id) && !PastCheck(s, id))
  }

  lemma HistoryAppend(log: seq<Commit>, c: Commit, id: SessionId)
    ensures History(log + [c], id) == History(log, id) + if c.id == id then [c] else []
  {}

  lemma WaitRecorded(s: Server, elapsed: nat, id: SessionId)
    requires Recorded(s, id)
    ensures Recorded(Wait(s, elapsed), id)
  {}

  lemma QuietAdvance(s: Server, f: Flight, ok: bool, id: SessionId)
    requires forall c :: c in Advance(s, f, ok).1 ==> c.id != id
    ensures var (rows, commits, f') := Advance(s, f, ok);
            && |commits| <= 1 && (forall k :: 0 <= k < |commits| ==> commits[k].id != id)
            && (id in rows <==> id in s.rows) && (id in rows ==> rows[id] == s.rows[id])
            && f'.session == f.session
            && (f'.phase.Renewing? && f'.phase != f.phase ==>
                  f'.phase.checkedAt == s.clock && LiveIn(s.rows, f.session, s.clock))
  {}

  lemma QuietAfter(s: Server, s': Server, r: RequestId, f': Flight, id: SessionId)
    requires Recorded(s, id) && r in s.flights && f'.session == s.flights[r].session
    requires s'.flights == s.flights[r := f'] && s'.clock == s.clock && History(s'.log, id) == History(s.log, id)
    requires (id in s'.rows <==> id in s.rows) && (id in s.rows ==> s'.rows[id] == s.rows[id])
    requires f'.phase.Renewing? && f'.phase != s.flights[r].phase ==>
               f'.phase.checkedAt == s.clock && LiveIn(s.rows, f'.session, s.clock)
    ensures Recorded(s', id)
  {}

  /** A call that commits nothing on the session. */
  lemma QuietCall(s: Server, r: RequestId, ok: bool, id: SessionId)
    requires Recorded(s, id) && r in s.flights
    requires forall c :: c in Advance(s, s.flights[r], ok).1 ==> c.id != id
    ensures Recorded(Call(s, r, ok), id)
  {
    var (rows, commits, f') := Advance(s, s.flights[r], ok);
    QuietAdvance(s, s.flights[r], ok, id);
    if commits == [] {
      assert s.log + commits == s.log;
    } else {
      assert commits == [commits[0]];
      HistoryAppend(s.log, commits[0], id);
    }
    QuietAfter(s, Call(s, r, ok), r, f', id);
  }

  lemma RenewingCall(s: Server, r: RequestId, id: SessionId)
    requires Recorded(s, id) && NoOverlap(s, id) && r in s.flights
    requires s.flights[r].session == id && s.flights[r].phase.Renewing?
    ensures Recorded(Call(s, r, true), id)
  {}

  lemma ClosingCall(s: Server, r: RequestId, id: SessionId)
    requires Recorded(s, id) && NoOverlap(s, id) && r in s.flights && id in s.rows
    requires s.flights[r].session == id && s.flights[r].phase.Body? && s.flights[r].kind.Logout?
    ensures Recorded(Call(s, r, true), id)
  {}

  lemma CreatingCall(s: Server, r: RequestId, id: SessionId)
    requires Recorded(s, id) && r in s.flights
    requires s.flights[r].phase.Body? && s.flights[r].kind.Login? && s.flights[r].kind.newId == id
    requires Creatable(s.rows, s.users, id, s.flights[r].kind.user)
    ensures Recorded(Call(s, r, true), id)
  {}

  /** A commit on the session, by the only request on it that is in progress. */
  lemma CommittingCall(s: Server, r: RequestId, ok: bool, id: SessionId)
    requires Recorded(s, id) && NoOverlap(s, id) && r in s.flights
    requires exists c :: c in Advance(s, s.flights[r], ok).1 && c.id == id
    ensures Recorded(Call(s, r, ok), id)
  {
    var f := s.flights[r];
    if f.phase.Renewing? {
      RenewingCall(s, r, id);
    } else if f.kind.Logout? {
      ClosingCall(s, r, id);
    } else {
      CreatingCall(s, r, id);
    }
  }

  lemma {:induction false} RecordedRun(s: Server, trace: seq<Event>, id: SessionId)
    requires Recorded(s, id) && Calm(s, trace, id)
    ensures Recorded(Run(s, trace), id)
    decreases |trace|
  {
    if trace != [] {
      var e := trace[0];
      var s1 := Wait(s, e.elapsed);
      WaitRecorded(s, e.elapsed, id);
      if e.Event? && e.id in s.flights {
        if c :| c in Advance(s1, s.flights[e.id], e.ok).1 && c.id == id {
          CommittingCall(s1, e.id, e.ok, id);
        } else {
          QuietCall(s1, e.id, e.ok, id);
        }
      }
      RecordedRun(Step(s, e), trace[1..], id);
    }
  }

  /** An empty table and requests that have not begun. */
  ghost predicate Fresh(s: Server) {
    && s.rows == map[] && s.log == []
    && forall r :: r in s.flights ==> s.flights[r].phase.Checking? && s.flights[r].named.None?
  }

  /** Main result: if requests on a session do not overlap, then from now on the session is live
      at a time exactly when its history is unbroken up to that time. */
  lemma LivenessIsHistory(s: Server, trace: seq<Event>, id: SessionId, now: Time)
    requires Fresh(s) && Calm(s, trace, id) && Run(s, trace).clock <= now
    ensures Live(Run(s, trace), id, now) <==> Unbroken(History(Run(s, trace).log, id), now)
  {
    RecordedRun(s, trace, id);
    var s' := Run(s, trace);
    var h := History(s'.log, id);
    if h != [] {
      assert Unbroken(h, now) <==> (Linked(h) && now < h[|h| - 1].at + TWO_HOURS);
    }
  }

  // ---------------------------------------------------------------- whose session it is

  ghost predicate CreatedFor(log: seq<Commit>, id: SessionId, user: UserId) {
    exists k :: 0 <= k < |log| && log[k].Created? && log[k].id == id && log[k].user == user
  }

  lemma CreatedForGrows(log: seq<Commit>, more: seq<Commit>, id: SessionId, user: UserId)
    requires CreatedFor(log, id, user)
    ensures CreatedFor(log + more, id, user)
  {
    var k :| 0 <= k < |log| && log[k].Created? && log[k].id == id && log[k].user == user;
    assert (log + more)[k] == log[k];
  }

  ghost predicate CreatedOnce(log: seq<Commit>) {
    forall j, k :: 0 <= j < k < |log| && log[j].Created? && log[k].Created? ==> log[j].id != log[k].id
  }

  /** The table agrees with its creations. */
  ghost predicate Owned(rows: Rows, log: seq<Commit>) {
    && (forall id :: id in rows ==> CreatedFor(log, id, rows[id].user))
    && (forall k :: 0 <= k < |log| && log[k].Created? ==> log[k].id in rows)
    && CreatedOnce(log)
  }

  ghost predicate Identified(s: Server) {
    Owned(s.rows, s.log) && NamesKnown(s.flights, s.log)
  }

  ghost predicate NamesKnown(flights: map<RequestId, Flight>, log: seq<Commit>) {
    forall r :: r in flights && flights[r].named.Some? ==> CreatedFor(log, flights[r].session, flights[r].named.value)
  }

  /** A call creates a new session, or leaves every session its user. */
  ghost predicate OwnershipEffect(rows: Rows, rows': Rows, commits: seq<Commit>) {
    if |commits| == 1 && commits[0].Created?
    then commits[0].id !in rows && commits[0].id in rows' && rows'.Keys == rows.Keys + {commits[0].id} &&
         rows'[commits[0].id].user == commits[0].user && (forall id :: id in rows ==> rows'[id] == rows[id])
    else (forall k :: 0 <= k < |commits| ==> !commits[k].Created?) && rows'.Keys == rows.Keys &&
         (forall id :: id in rows ==> rows'[id].user == rows[id].user)
  }

  lemma AdvanceOwnership(s: Server, f: Flight, ok: bool)
    ensures var (rows, commits, f') := Advance(s, f, ok);
            && OwnershipEffect(s.rows, rows, commits) && f'.session == f.session
            && (f'.named.Some? ==>
                  f'.named == f.named || (f.session in s.rows && f'.named.value == s.rows[f.session].user))
  {}

  lemma OwnedAfter(rows: Rows, log: seq<Commit>, rows': Rows, commits: seq<Commit>)
    requires Owned(rows, log) && OwnershipEffect(rows, rows', commits)
    ensures Owned(rows', log + commits)
  {
    forall id | id in rows' ensures CreatedFor(log + commits, id, rows'[id].user) {
      if id in rows {
        CreatedForGrows(log, commits, id, rows[id].user);
      } else {
        assert (log + commits)[|log|] == commits[0];
      }
    }
  }

  lemma CallIdentified(s: Server, r: RequestId, ok: bool)
    requires Identified(s) && r in s.flights
    ensures Identified(Call(s, r, ok))
  {
    var (rows, commits, f') := Advance(s, s.flights[r], ok);
    AdvanceOwnership(s, s.flights[r], ok);
    OwnedAfter(s.rows, s.log, rows, commits);
    NamesAfter(s, rows, commits, r, f');
  }

  lemma NamesAfter(s: Server, rows: Rows, commits: seq<Commit>, r: RequestId, f': Flight)
    requires Identified(s) && r in s.flights && f'.session == s.flights[r].session
    requires f'.named.Some? ==>
               || f'.named == s.flights[r].named
               || (f'.session in s.rows && f'.named.value == s.rows[f'.session].user)
    ensures NamesKnown(s.flights[r := f'], s.log + commits)
  {
    var flights := s.flights[r := f'];
    forall q | q in flights && flights[q].named.Some?
      ensures CreatedFor(s.log + commits, flights[q].session, flights[q].named.value)
    {
      assert CreatedFor(s.log, flights[q].session, flights[q].named.value);
      CreatedForGrows(s.log, commits, flights[q].session, flights[q].named.value);
    }
  }

  lemma {:induction false} IdentifiedRun(s: Server, trace: seq<Event>)
    requires Identified(s)
    ensures Identified(Run(s, trace))
    decreases |trace|
  {
    if trace != [] {
      var s1 := Wait(s, trace[0].elapsed);
      if trace[0].Event? && trace[0].id in s.flights {
        CallIdentified(s1, trace[0].id, trace[0].ok);
      }
      IdentifiedRun(Step(s, trace[0]), trace[1..]);
    }
  }

  /** The same server, had request `r` claimed another user id. */
  function WithClaim(s: Server, r: RequestId, claimed: UserId): Server
    requires r in s.flights
  {
    s.(flights := s.flights[r := s.flights[r].(claimed := claimed)])
  }

  lemma AdvanceIgnoresClaim(s: Server, s': Server, f: Flight, ok: bool, claimed: UserId)
    requires s' == s.(flights := s'.flights)
    ensures var (rows, commits, f') := Advance(s, f, ok);
            Advance(s', f, ok) == (rows, commits, f')
            && Advance(s', f.(claimed := claimed), ok) == (rows, commits, f'.(claimed := claimed))
  {}

  lemma StepIgnoresClaim(s: Server, e: Event, r: RequestId, claimed: UserId)
    requires r in s.flights
    ensures r in Step(s, e).flights
    ensures Step(WithClaim(s, r, claimed), e) == WithClaim(Step(s, e), r, claimed)
  {
    if e.Event? && e.id in s.flights {
      var s1 := Wait(s, e.elapsed);
      AdvanceIgnoresClaim(s1, WithClaim(s1, r, claimed), s.flights[e.id], e.ok, claimed);
      assert Step(WithClaim(s, r, claimed), e).flights == WithClaim(Step(s, e), r, claimed).flights;
    }
  }

  /** What a request claims decides nothing about sessions. */
  lemma {:induction false} RunIgnoresClaim(s: Server, trace: seq<Event>, r: RequestId, claimed: UserId)
    requires r in s.flights
    ensures r in Run(s, trace).flights
    ensures Run(WithClaim(s, r, claimed), trace) == WithClaim(Run(s, trace), r, claimed)
    decreases |trace|
  {
    if trace != [] {
      StepIgnoresClaim(s, trace[0], r, claimed);
      RunIgnoresClaim(Step(s, trace[0]), trace[1..], r, claimed);
    }
  }

  /** How far a request has got whose session was live at its check, or was not. */
  predicate Proceeds(f: Flight, live: bool) {
    match f.phase
    case Checking => f.named.None?
    case Renewing(_) => live && f.named.None?
    case Naming => live && f.named.None?
    case Body => f.named.Some? <==> live
    case Finished => true
  }

  lemma {:induction false} ProceedsRun(s: Server, trace: seq<Event>, r: RequestId, live: bool)
    requires r in s.flights && !s.flights[r].phase.Checking? && Proceeds(s.flights[r], live)
    ensures r in Run(s, trace).flights
    ensures var f := Run(s, trace).flights[r];
            && !f.phase.Checking? && Proceeds(f, live)
            && f.session == s.flights[r].session && f.claimed == s.flights[r].claimed
    decreases |trace|
  {
    if trace != [] {
      ProceedsRun(Step(s, trace[0]), trace[1..], r, live);
    }
  }

  lemma {:induction false} UncheckedRun(s: Server, trace: seq<Event>, r: RequestId)
    requires r in s.flights && (s.flights[r].phase.Checking? ==> s.flights[r].named.None?)
    ensures r in Run(s, trace).flights
    ensures var f := Run(s, trace).flights[r];
            && f.session == s.flights[r].session && f.claimed == s.flights[r].claimed
            && (f.phase.Checking? ==> f.named.None?)
    decreases |trace|
  {
    if trace != [] {
      UncheckedRun(Step(s, trace[0]), trace[1..], r);
    }
  }

  lemma SomeoneElse(log: seq<Commit>, id: SessionId) returns (user: UserId)
    requires CreatedOnce(log)
    ensures !CreatedFor(log, id, user)
  {
    user := 0;
    if CreatedFor(log, id, 0) {
      user := 1;
    }
  }

  /** Session identity, over every run with every overlap: a request that has a name has that of
      the user for whom its session was created, and no session is created twice. */
  lemma NamesAreCreators(s: Server, trace: seq<Event>, r: RequestId)
    requires Fresh(s)
    requires r in Run(s, trace).flights && Run(s, trace).flights[r].named.Some?
    ensures var s' := Run(s, trace);
            CreatedFor(s'.log, s'.flights[r].session, s'.flights[r].named.value) && CreatedOnce(s'.log)
  {
    IdentifiedRun(s, trace);
  }

  /** Any run, then the committed check of request `r`, then any run. */
  function CheckedRun(s: Server, before: seq<Event>, r: RequestId, elapsed: nat, after: seq<Event>): Server {
    Run(Step(Run(s, before), Event(r, true, elapsed)), after)
  }

  ghost predicate RunsAsCreator(s: Server, r: RequestId, id: SessionId) {
    r in s.flights && CreatedFor(s.log, id, s.flights[r].RunsAs()) && CreatedOnce(s.log)
  }

  /** A check that commits never ends a request.  On a session that is not live, be it expired or
      unknown, the request is in its body at once and has no name; on a live one it is there
      after two more calls of its own that commit, and has the session's user for its name; a
      check or either of those calls that fails ends it. */
  lemma CheckLeadsToTheBody(s: Server, r: RequestId, ok: (bool, bool, bool), elapsed: (nat, nat, nat))
    requires r in s.flights && s.flights[r].phase.Checking? && s.flights[r].named.None?
    ensures var id, checked := s.flights[r].session, Wait(s, elapsed.0);
            var live := id in s.rows && s.rows[id].endDate > s.clock + elapsed.0;
            var s1 := Step(s, Event(r, ok.0, elapsed.0));
            var s2 := Step(s1, Event(r, ok.1, elapsed.1));
            var s3 := Step(s2, Event(r, ok.2, elapsed.2));
            && (!ok.0 ==> s1.flights[r].phase.Finished?)
            && (ok.0 && !live ==> s1.flights[r] == s.flights[r].(phase := Body) && s1.rows == s.rows)
            && (ok.0 && live && !ok.1 ==> s2.flights[r].phase.Finished? && s2.rows == s.rows)
            && (ok.0 && live && ok.1 ==>
                  s2.rows == s.rows[id := s.rows[id].(endDate := s2.clock + 7_200_000_000)])
            && (ok.0 && live && ok.1 && !ok.2 ==> s3.flights[r].phase.Finished?)
            && (ok.0 && live && ok.1 && ok.2 ==>
                  s3.flights[r] == s.flights[r].(phase := Body, named := Some(s.rows[id].user)))
  {}

  /** A user who has joined can open a session under any new id. */
  lemma JoinedUserOpensASession(s: Server, r: RequestId, user: UserId, id: SessionId, elapsed: (nat, nat))
    requires r in s.flights && s.flights[r].phase.Body? && s.flights[r].kind == Login(id, user) && id !in s.rows
    ensures var s' := Step(Step(s, Joined(user, elapsed.0)), Event(r, true, elapsed.1));
            s'.rows == s.rows[id := SessionRow(user, s'.clock + 7_200_000_000)] && Live(s', id, s'.clock)
  {}

  /** What the check found stays with the request. */
  lemma CheckedRequest(s: Server, before: seq<Event>, r: RequestId, elapsed: nat, after: seq<Event>)
    requires Fresh(s) && r in s.flights
    requires r in Run(s, before).flights && Run(s, before).flights[r].phase.Checking?
    ensures var checked, s' := Wait(Run(s, before), elapsed), CheckedRun(s, before, r, elapsed, after);
            && r in s'.flights && s'.flights[r].session == s.flights[r].session
            && s'.flights[r].claimed == s.flights[r].claimed
            && Proceeds(s'.flights[r], Live(checked, s.flights[r].session, checked.clock))
  {
    var checked := Wait(Run(s, before), elapsed);
    UncheckedRun(s, before, r);
    ProceedsRun(Step(Run(s, before), Event(r, true, elapsed)), after, r,
                Live(checked, s.flights[r].session, checked.clock));
  }

  lemma CheckedRunIdentified(s: Server, before: seq<Event>, r: RequestId, elapsed: nat, after: seq<Event>)
    requires Fresh(s)
    ensures Identified(CheckedRun(s, before, r, elapsed, after))
  {
    IdentifiedRun(s, before);
    assert Run(Run(s, before), [Event(r, true, elapsed)]) == Step(Run(s, before), Event(r, true, elapsed));
    IdentifiedRun(Run(s, before), [Event(r, true, elapsed)]);
    IdentifiedRun(Step(Run(s, before), Event(r, true, elapsed)), after);
  }

  lemma CheckedRunIgnoresClaim(s: Server, before: seq<Event>, r: RequestId, elapsed: nat, after: seq<Event>,
                               claimed: UserId)
    requires r in s.flights
    ensures r in CheckedRun(s, before, r, elapsed, after).flights
    ensures CheckedRun(WithClaim(s, r, claimed), before, r, elapsed, after) ==
            WithClaim(CheckedRun(s, before, r, elapsed, after), r, claimed)
  {
    RunIgnoresClaim(s, before, r, claimed);
    StepIgnoresClaim(Run(s, before), Event(r, true, elapsed), r, claimed);
    RunIgnoresClaim(Step(Run(s, before), Event(r, true, elapsed)), after, r, claimed);
  }

  /** Main result on identity.  Let a request be checked after any run, and reach its body in any
      continuation.  Whatever user id it claims, it is dispatched as the user its session was
      created for, if and only if the session was live at the check.  On a session that was not
      live the check succeeds too, and the request is dispatched as the user it claims. */
  lemma RequestsRunAsTheCreator(s: Server, before: seq<Event>, r: RequestId, elapsed: nat, after: seq<Event>)
    requires Fresh(s) && r in s.flights
    requires r in Run(s, before).flights && Run(s, before).flights[r].phase.Checking?
    requires r in CheckedRun(s, before, r, elapsed, after).flights
    requires CheckedRun(s, before, r, elapsed, after).flights[r].phase.Body?
    ensures var id, checked := s.flights[r].session, Wait(Run(s, before), elapsed);
            Live(checked, id, checked.clock) <==>
            forall claimed :: RunsAsCreator(CheckedRun(WithClaim(s, r, claimed), before, r, elapsed, after), r, id)
    ensures var id, checked := s.flights[r].session, Wait(Run(s, before), elapsed);
            !Live(checked, id, checked.clock) ==>
              CheckedRun(s, before, r, elapsed, after).flights[r].RunsAs() == s.flights[r].claimed
  {
    var id, checked := s.flights[r].session, Wait(Run(s, before), elapsed);
    var s' := CheckedRun(s, before, r, elapsed, after);
    CheckedRequest(s, before, r, elapsed, after);
    CheckedRunIdentified(s, before, r, elapsed, after);
    if Live(checked, id, checked.clock) {
      forall claimed ensures RunsAsCreator(CheckedRun(WithClaim(s, r, claimed), before, r, elapsed, after), r, id) {
        CheckedRunIgnoresClaim(s, before, r, elapsed, after, claimed);
        assert WithClaim(s', r, claimed).flights[r].RunsAs() == s'.flights[r].named.value;
      }
    } else {
      var claimed := SomeoneElse(s'.log, id);
      CheckedRunIgnoresClaim(s, before, r, elapsed, after, claimed);
      assert !RunsAsCreator(CheckedRun(WithClaim(s, r, claimed), before, r, elapsed, after), r, id);
    }
  }

  /** A login hands out its new id whether or not the insert commits, and two ids generated in
      one second can coincide.  The id names the user who logged in if and only if the insert
      commits or the id was that user's already. */
  lemma IssuedIdNamesUser(s: Server, r: RequestId, ok: bool)
    requires r in s.flights && s.flights[r].phase.Body? && s.flights[r].kind.Login?
    ensures var id, user := s.flights[r].kind.newId, s.flights[r].kind.user;
            var rows := Call(s, r, ok).rows;
            (id in rows && rows[id].user == user) <==>
              (ok && Creatable(s.rows, s.users, id, user)) || (id in s.rows && s.rows[id].user == user)
  {}
}

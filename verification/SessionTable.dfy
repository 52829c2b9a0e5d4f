/** The session functions as they run: SessionPostgresInfo on its table, and
    RRManager::checkSession calling it. */
module SessionTable {
  import opened Base
  import opened Sessions

  class SessionPostgresInfo {
    var users: set<UserId>
    var rows: Rows

    constructor (users: set<UserId>)
      ensures this.users == users && rows == map[]
    {
      this.users := users;
      rows := map[];
    }

    /** A registration has stored a user that sessions may refer to. */
    method Join(user: UserId)
      modifies this
      ensures users == old(users) + {user} && rows == old(rows)
    {
      users := users + {user};
    }

    method CreateSession(user: UserId, id: SessionId, ok: bool, now: Time) returns (code: Code)
      modifies this
      ensures users == old(users)
      ensures code == if ok && Creatable(old(rows), users, id, user) then Success else InternalError
      ensures rows == if code == Success then old(rows)[id := SessionRow(user, now + TWO_HOURS)] else old(rows)
    {
      code := InternalError;
      if ok && id !in rows && user in users {
        rows := rows[id := SessionRow(user, now + TWO_HOURS)];
        code := Success;
      }
    }

    method CheckSession(id: SessionId, ok: bool, now: Time) returns (code: Code, check: bool)
      ensures code == if ok then Success else InternalError
      ensures ok ==> check == LiveIn(rows, id, now)
    {
      code, check := InternalError, false;
      if ok {
        check := id in rows && rows[id].endDate > now;
        code := Success;
      }
    }

    method UpdateSession(id: SessionId, ok: bool, now: Time) returns (code: Code)
      modifies this
      ensures users == old(users)
      ensures code == if ok then Success else InternalError
      ensures rows == if ok then Touch(old(rows), id, now + TWO_HOURS) else old(rows)
    {
      code := InternalError;
      if ok {
        if id in rows {
          rows := rows[id := rows[id].(endDate := now + TWO_HOURS)];
        }
        code := Success;
      }
    }

    /** Logging out ends the session now. */
    method UpdateSessionToNow(id: SessionId, ok: bool, now: Time) returns (code: Code)
      modifies this
      ensures users == old(users)
      ensures code == if ok then Success else InternalError
      ensures rows == if ok then Touch(old(rows), id, now) else old(rows)
      ensures ok ==> forall later :: now <= later ==> !LiveIn(rows, id, later)
    {
      code := InternalError;
      if ok {
        if id in rows {
          rows := rows[id := rows[id].(endDate := now)];
        }
        code := Success;
      }
    }

    method GetUserBySession(id: SessionId, ok: bool) returns (code: Code, user: UserId)
      ensures code == if !ok then InternalError else if id in rows then Success else DoesNotExist
      ensures code == Success ==> user == rows[id].user
    {
      code, user := InternalError, 0;
      if ok {
        if id in rows {
          code, user := Success, rows[id].user;
        } else {
          code := DoesNotExist;
        }
      }
    }
  }

  /** RRManager::checkSession.  The three calls are the steps Checking, Renewing and Naming of
      `Sessions.Advance`, and the user id in the request afterwards is that of the run of the
      three calls.  A success code means that the run has reached the body.  It says nothing
      about the session being live: on a dead session the check succeeds too and leaves the id
      the sender claimed (see `Sessions.RequestsRunAsTheCreator`). */
  method CheckSession(table: SessionPostgresInfo, session: SessionId, claimed: UserId, ok: (bool, bool, bool),
                      now: Time, elapsed: (nat, nat), ghost s: Server, ghost r: RequestId)
    returns (code: Code, user: UserId)
    requires s.rows == table.rows && s.clock == now
    requires r in s.flights && s.flights[r].session == session && s.flights[r].claimed == claimed
    requires s.flights[r].phase.Checking? && s.flights[r].named.None?
    modifies table
    ensures var s1 := Step(s, Event(r, ok.0, 0));
            var s2 := if s1.flights[r].phase.Renewing? then Step(s1, Event(r, ok.1, elapsed.0)) else s1;
            var s3 := if s2.flights[r].phase.Naming? then Step(s2, Event(r, ok.2, elapsed.1)) else s2;
            && table.rows == s3.rows && table.users == old(table.users)
            && user == s3.flights[r].RunsAs()
            && (code == Success <==> s3.flights[r].phase.Body?)
    ensures code == Success <==> ok.0 && (LiveIn(old(table.rows), session, now) ==> ok.1 && ok.2)
    ensures code == Success || code == InternalError
    ensures table.rows == if ok.0 && LiveIn(old(table.rows), session, now) && ok.1
                          then old(table.rows)[session := SessionRow(old(table.rows)[session].user,
                                                                     now + elapsed.0 + 7_200_000_000)]
                          else old(table.rows)
    ensures code == Success ==>
              user == if LiveIn(old(table.rows), session, now) then old(table.rows)[session].user else claimed
  {
    user := claimed;
    var isGood;
    code, isGood := table.CheckSession(session, ok.0, now);
    ghost var s1 := Step(s, Event(r, ok.0, 0));
    if code != Success {
      return;
    }
    if isGood {
      code := table.UpdateSession(session, ok.1, now + elapsed.0);
      ghost var s2 := Step(s1, Event(r, ok.1, elapsed.0));
      if code != Success {
        return;
      }
      var owner;
      code, owner := table.GetUserBySession(session, ok.2);
      ghost var s3 := Step(s2, Event(r, ok.2, elapsed.1));
      if code != Success {
        return;
      }
      user := owner;
    }
  }

  /** AuthLogic::logout: the body of a logout request. */
  method Logout(table: SessionPostgresInfo, session: SessionId, ok: bool, now: Time,
                ghost s: Server, ghost r: RequestId)
    returns (code: Code)
    requires s.rows == table.rows && s.clock == now
    requires r in s.flights && s.flights[r].session == session
    requires s.flights[r].phase.Body? && s.flights[r].kind.Logout?
    modifies table
    ensures table.rows == Step(s, Event(r, ok, 0)).rows && table.users == old(table.users)
    ensures code == if ok then Success else InternalError
    ensures table.rows.Keys == old(table.rows).Keys
    ensures forall id :: id in old(table.rows) ==>
              table.rows[id] == if ok && id == session then SessionRow(old(table.rows)[id].user, now)
                                else old(table.rows)[id]
  {
    code := table.UpdateSessionToNow(session, ok, now);
  }

  /** The end of AuthLogic::authUser after a correct password: the result of the insert is
      ignored, and the new id is handed out in any case (see `Sessions.IssuedIdNamesUser`). */
  method OpenSession(table: SessionPostgresInfo, user: UserId, newId: SessionId, ok: bool, now: Time,
                     ghost s: Server, ghost r: RequestId)
    returns (id: SessionId)
    requires s.rows == table.rows && s.users == table.users && s.clock == now
    requires r in s.flights && s.flights[r].phase.Body? && s.flights[r].kind == Login(newId, user)
    modifies table
    ensures table.rows == Step(s, Event(r, ok, 0)).rows && table.users == old(table.users)
    ensures id == newId
    ensures table.rows == if ok && newId !in old(table.rows) && user in table.users
                          then old(table.rows)[newId := SessionRow(user, now + 7_200_000_000)]
                          else old(table.rows)
  {
    var _ := table.CreateSession(user, newId, ok, now);
    id := newId;
  }
}

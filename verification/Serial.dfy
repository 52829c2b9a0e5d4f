/** Requests of different users do not interfere.

    A call of a request reads and writes only what belongs to the request's own user, so a run
    is determined by what each user's requests did, in that user's order.  Hence a run in which
    the requests of every user follow one another, however they interleave with those of other
    users, ends exactly where running all requests one after another ends. */
module Serial {
  import opened Base
  import opened Operator

  function Users(s: System): map<RequestId, UserId> {
    map id | id in s.flights :: s.flights[id].request.user
  }

  /** The calls of one user's requests. */
  function Of(users: map<RequestId, UserId>, trace: seq<Event>, user: UserId): seq<Event> {
    if trace == [] then []
    else
      var rest := Of(users, trace[1..], user);
      if trace[0].id in users && users[trace[0].id] == user then [trace[0]] + rest else rest
  }

  /** Every overwrite names a stored user and will write that user's score. */
  ghost predicate OwnTargets(s: System) {
    forall id :: id in s.flights && s.flights[id].request.Overwrite? ==>
      && s.flights[id].request.user in s.tables.scores
      && (s.flights[id].phase.SetScore? ==> s.flights[id].phase.target == s.flights[id].request.user)
  }

  ghost predicate TablesAlike(t: Tables, t': Tables, user: UserId) {
    && (user in t.scores <==> user in t'.scores) && (user in t.scores ==> t.scores[user] == t'.scores[user])
    && (user in t.packages <==> user in t'.packages) && (user in t.packages ==> t.packages[user] == t'.packages[user])
    && (forall row: Row :: row.user == user ==> (row in t.rows <==> row in t'.rows))
  }

  /** Two systems look alike to `user`. */
  ghost predicate SameFor(s: System, s': System, user: UserId) {
    && TablesAlike(s.tables, s'.tables, user)
    && (forall id :: id in s.flights && id in s'.flights && s.flights[id].request.user == user ==>
          s.flights[id] == s'.flights[id])
  }

  /** A call sees and touches only its own user's part of the tables. */
  lemma AdvanceOwn(cat: Catalogue, t: Tables, f: Flight, c: Call)
    requires f.request.Overwrite? ==>
               f.request.user in t.scores && (f.phase.SetScore? ==> f.phase.target == f.request.user)
    ensures var (t', f') := Advance(cat, t, f, c);
            var u := f.request.user;
            && f'.request == f.request
            && t'.scores.Keys == t.scores.Keys && t'.packages.Keys == t.packages.Keys
            && (forall v :: v in t.scores && v != u ==> t'.scores[v] == t.scores[v])
            && (forall v :: v in t.packages && v != u ==> t'.packages[v] == t.packages[v])
            && (forall row: Row :: row.user != u ==> (row in t'.rows <==> row in t.rows))
            && (f'.request.Overwrite? && f'.phase.SetScore? ==> f'.phase.target == u)
  {}

  lemma AdvancePaymentAlike(cat: Catalogue, t: Tables, t': Tables, f: Flight, c: Call)
    requires !f.request.Overwrite? && TablesAlike(t, t', f.request.user)
    ensures var (t1, f1), (t2, f2) := AdvancePayment(cat, t, f, c), AdvancePayment(cat, t', f, c);
            f1 == f2 && TablesAlike(t1, t2, f.request.user)
  {
    if f.phase.InsertRow? {
      var row := Row(f.request.user, f.request.item, c.now);
      assert row in t.rows <==> row in t'.rows;
    }
  }

  lemma AdvanceOverwriteAlike(t: Tables, t': Tables, f: Flight, c: Call)
    requires f.request.Overwrite? && TablesAlike(t, t', f.request.user)
    requires f.request.user in t.scores && (f.phase.SetScore? ==> f.phase.target == f.request.user)
    ensures var (t1, f1), (t2, f2) := AdvanceOverwrite(t, f, c), AdvanceOverwrite(t', f, c);
            f1 == f2 && TablesAlike(t1, t2, f.request.user)
  {}

  lemma StepKeeps(cat: Catalogue, s: System, e: Event)
    requires OwnTargets(s)
    ensures OwnTargets(Step(cat, s, e)) && Users(Step(cat, s, e)) == Users(s)
  {
    if e.id in s.flights {
      AdvanceOwn(cat, s.tables, s.flights[e.id], e.call);
    }
  }

  lemma OtherStep(cat: Catalogue, s: System, s': System, e: Event, user: UserId)
    requires OwnTargets(s) && SameFor(s, s', user) && Users(s) == Users(s')
    requires !(e.id in Users(s) && Users(s)[e.id] == user)
    ensures SameFor(Step(cat, s, e), s', user)
  {
    if e.id in s.flights {
      assert e.id in Users(s);
      AdvanceOwn(cat, s.tables, s.flights[e.id], e.call);
    }
  }

  lemma OwnStep(cat: Catalogue, s: System, s': System, e: Event, user: UserId)
    requires OwnTargets(s) && OwnTargets(s') && SameFor(s, s', user) && Users(s) == Users(s')
    requires e.id in Users(s) && Users(s)[e.id] == user
    ensures SameFor(Step(cat, s, e), Step(cat, s', e), user)
  {
    assert e.id in Users(s');
    if s.flights[e.id].request.Overwrite? {
      AdvanceOverwriteAlike(s.tables, s'.tables, s.flights[e.id], e.call);
    } else {
      AdvancePaymentAlike(cat, s.tables, s'.tables, s.flights[e.id], e.call);
    }
  }

  lemma SameForSymmetric(s: System, s': System, user: UserId)
    requires SameFor(s, s', user) && Users(s) == Users(s')
    ensures SameFor(s', s, user)
  {
    forall id | id in s'.flights && id in s.flights && s'.flights[id].request.user == user
      ensures s'.flights[id] == s.flights[id]
    {
      assert Users(s)[id] == Users(s')[id];
    }
  }

  /** What `user` sees depends only on the calls of `user`'s requests. */
  lemma {:induction false} SameCallsSameView(cat: Catalogue, s: System, trace: seq<Event>, s': System,
                                             trace': seq<Event>, user: UserId)
    requires OwnTargets(s) && OwnTargets(s') && SameFor(s, s', user) && Users(s) == Users(s')
    requires Of(Users(s), trace, user) == Of(Users(s), trace', user)
    ensures SameFor(Run(cat, s, trace), Run(cat, s', trace'), user)
    decreases |trace| + |trace'|
  {
    var users := Users(s);
    if trace != [] && !(trace[0].id in users && users[trace[0].id] == user) {
      StepKeeps(cat, s, trace[0]);
      OtherStep(cat, s, s', trace[0], user);
      SameCallsSameView(cat, Step(cat, s, trace[0]), trace[1..], s', trace', user);
    } else if trace' != [] && !(trace'[0].id in users && users[trace'[0].id] == user) {
      StepKeeps(cat, s', trace'[0]);
      SameForSymmetric(s, s', user);
      OtherStep(cat, s', s, trace'[0], user);
      SameForSymmetric(Step(cat, s', trace'[0]), s, user);
      SameCallsSameView(cat, s, trace, Step(cat, s', trace'[0]), trace'[1..], user);
    } else if trace != [] && trace' != [] {
      var calls, calls' := Of(users, trace, user), Of(users, trace', user);
      assert trace[0] == calls[0] && trace'[0] == calls'[0];
      assert Of(users, trace[1..], user) == calls[1..] && Of(users, trace'[1..], user) == calls'[1..];
      StepKeeps(cat, s, trace[0]);
      StepKeeps(cat, s', trace'[0]);
      OwnStep(cat, s, s', trace[0], user);
      SameCallsSameView(cat, Step(cat, s, trace[0]), trace[1..], Step(cat, s', trace'[0]), trace'[1..], user);
    }
  }

  lemma {:induction false} RunKeeps(cat: Catalogue, s: System, trace: seq<Event>)
    requires OwnTargets(s)
    ensures OwnTargets(Run(cat, s, trace)) && Users(Run(cat, s, trace)) == Users(s)
    decreases |trace|
  {
    if trace != [] {
      StepKeeps(cat, s, trace[0]);
      RunKeeps(cat, Step(cat, s, trace[0]), trace[1..]);
    }
  }

  lemma AlikeToAllIsEqual(s: System, s': System)
    requires Users(s) == Users(s')
    requires forall user :: SameFor(s, s', user)
    ensures s == s'
  {
    forall u: UserId
      ensures u in s.tables.scores <==> u in s'.tables.scores
      ensures u in s.tables.packages <==> u in s'.tables.packages
      ensures u in s.tables.scores ==> s.tables.scores[u] == s'.tables.scores[u]
      ensures u in s.tables.packages ==> s.tables.packages[u] == s'.tables.packages[u]
    {
      assert SameFor(s, s', u);
    }
    assert s.tables.scores == s'.tables.scores;
    assert s.tables.packages == s'.tables.packages;
    forall row: Row ensures row in s.tables.rows <==> row in s'.tables.rows {
      assert SameFor(s, s', row.user);
    }
    assert s.tables.rows == s'.tables.rows;
    assert s.flights.Keys == Users(s).Keys == Users(s').Keys == s'.flights.Keys;
    forall id | id in s.flights ensures s.flights[id] == s'.flights[id] {
      assert SameFor(s, s', s.flights[id].request.user);
    }
    assert s.flights == s'.flights;
  }

  /** Main result: two interleavings in which every user's requests made the same calls in the
      same order end in the same system, whatever the order across users. */
  lemma OrderAcrossUsersIsIrrelevant(cat: Catalogue, s: System, trace: seq<Event>, trace': seq<Event>)
    requires OwnTargets(s)
    requires forall user :: Of(Users(s), trace, user) == Of(Users(s), trace', user)
    ensures Run(cat, s, trace) == Run(cat, s, trace')
  {
    forall user ensures SameFor(Run(cat, s, trace), Run(cat, s, trace'), user) {
      SameCallsSameView(cat, s, trace, s, trace', user);
    }
    RunKeeps(cat, s, trace);
    RunKeeps(cat, s, trace');
    AlikeToAllIsEqual(Run(cat, s, trace), Run(cat, s, trace'));
  }

  // ---------------------------------------------------------------- running one after another

  function Only(trace: seq<Event>, id: RequestId): seq<Event> {
    if trace == [] then []
    else if trace[0].id == id then [trace[0]] + Only(trace[1..], id)
    else Only(trace[1..], id)
  }

  function Without(trace: seq<Event>, id: RequestId): seq<Event> {
    if trace == [] then []
    else if trace[0].id == id then Without(trace[1..], id)
    else [trace[0]] + Without(trace[1..], id)
  }

  /** All calls of the first request, then all of the second, and so on. */
  function OneByOne(trace: seq<Event>, order: seq<RequestId>): seq<Event> {
    if order == [] then [] else Only(trace, order[0]) + OneByOne(trace, order[1..])
  }

  /** Request `a` made its last call before `b` made its first. */
  ghost predicate Before(trace: seq<Event>, a: RequestId, b: RequestId) {
    forall i, j :: 0 <= i < j < |trace| && trace[i].id == b ==> trace[j].id != a
  }

  /** `order` lists the requests of the trace, each once, keeping every user's own order; the
      requests of one user do not overlap. */
  ghost predicate Serialises(users: map<RequestId, UserId>, trace: seq<Event>, order: seq<RequestId>) {
    && (forall i, j :: 0 <= i < j < |order| ==> order[i] != order[j])
    && (forall id :: id in order ==> id in users)
    && (forall k :: 0 <= k < |trace| ==> trace[k].id in order)
    && (forall i, j :: 0 <= i < j < |order| && order[i] in users && order[j] in users &&
                       users[order[i]] == users[order[j]]
          ==> Before(trace, order[i], order[j]))
  }

  lemma {:induction false} WithoutMembers(trace: seq<Event>, id: RequestId)
    ensures forall e :: e in Without(trace, id) <==> e in trace && e.id != id
  {
    if trace != [] {
      WithoutMembers(trace[1..], id);
      assert trace == [trace[0]] + trace[1..];
    }
  }

  lemma {:induction false} WithoutBefore(trace: seq<Event>, id: RequestId, a: RequestId, b: RequestId)
    requires Before(trace, a, b)
    ensures Before(Without(trace, id), a, b)
  {
    if trace != [] {
      WithoutBefore(trace[1..], id, a, b);
      WithoutMembers(trace[1..], id);
      var rest := Without(trace[1..], id);
      if trace[0].id == b {
        forall k | 0 <= k < |rest| ensures rest[k].id != a {
          assert rest[k] in trace[1..];
        }
      }
    }
  }

  lemma {:induction false} OnlyWithout(trace: seq<Event>, id: RequestId, other: RequestId)
    requires id != other
    ensures Only(Without(trace, id), other) == Only(trace, other)
  {
    if trace != [] {
      OnlyWithout(trace[1..], id, other);
      var rest := Without(trace[1..], id);
      if trace[0].id != id {
        assert ([trace[0]] + rest)[1..] == rest;
      }
    }
  }

  lemma {:induction false} OneByOneWithout(trace: seq<Event>, id: RequestId, order: seq<RequestId>)
    requires id !in order
    ensures OneByOne(Without(trace, id), order) == OneByOne(trace, order)
  {
    if order != [] {
      OnlyWithout(trace, id, order[0]);
      OneByOneWithout(trace, id, order[1..]);
    }
  }

  lemma {:induction false} OfAppend(users: map<RequestId, UserId>, a: seq<Event>, b: seq<Event>, user: UserId)
    ensures Of(users, a + b, user) == Of(users, a, user) + Of(users, b, user)
  {
    if a == [] {
      assert a + b == b;
    } else {
      OfAppend(users, a[1..], b, user);
      assert (a + b)[1..] == a[1..] + b;
    }
  }

  lemma {:induction false} OfOnly(users: map<RequestId, UserId>, trace: seq<Event>, id: RequestId, user: UserId)
    requires id in users
    ensures Of(users, Only(trace, id), user) == if users[id] == user then Only(trace, id) else []
  {
    if trace != [] {
      OfOnly(users, trace[1..], id, user);
      var rest := Only(trace[1..], id);
      if trace[0].id == id {
        assert ([trace[0]] + rest)[1..] == rest;
      }
    }
  }

  lemma {:induction false} NoneToRemove(trace: seq<Event>, id: RequestId)
    requires forall e :: e in trace ==> e.id != id
    ensures Only(trace, id) == [] && Without(trace, id) == trace
  {
    if trace != [] {
      NoneToRemove(trace[1..], id);
    }
  }

  /** Every call of `id` comes before every call of another request of the same user. */
  ghost predicate First(users: map<RequestId, UserId>, trace: seq<Event>, id: RequestId)
    requires id in users
  {
    forall i, j :: 0 <= i < j < |trace| && trace[i].id != id && trace[i].id in users && users[trace[i].id] == users[id]
      ==> trace[j].id != id
  }

  /** Moving the request that comes first for its user to the front changes no user's calls. */
  lemma {:induction false} MoveToFront(users: map<RequestId, UserId>, trace: seq<Event>, id: RequestId, user: UserId)
    requires id in users && First(users, trace, id)
    ensures Of(users, trace, user) ==
            (if users[id] == user then Only(trace, id) else []) + Of(users, Without(trace, id), user)
  {
    if trace != [] {
      var first, rest := trace[0], trace[1..];
      if first.id != id && first.id in users && users[first.id] == users[id] {
        NoneToRemove(trace, id);
      } else {
        MoveToFront(users, rest, id, user);
        if first.id != id {
          OfAppend(users, [first], Without(rest, id), user);
        }
      }
    }
  }

  lemma SerialisesRest(users: map<RequestId, UserId>, trace: seq<Event>, order: seq<RequestId>)
    requires Serialises(users, trace, order) && order != []
    ensures Serialises(users, Without(trace, order[0]), order[1..])
  {
    var trace', order' := Without(trace, order[0]), order[1..];
    WithoutMembers(trace, order[0]);
    forall k | 0 <= k < |trace'| ensures trace'[k].id in order' {
      assert trace'[k] in trace && trace'[k].id in order;
    }
    forall i, j | 0 <= i < j < |order'| && users[order'[i]] == users[order'[j]]
      ensures Before(trace', order'[i], order'[j])
    {
      WithoutBefore(trace, order[0], order[i + 1], order[j + 1]);
    }
  }

  lemma HeadIsFirst(users: map<RequestId, UserId>, trace: seq<Event>, order: seq<RequestId>)
    requires Serialises(users, trace, order) && order != []
    ensures order[0] in users && First(users, trace, order[0])
  {}

  lemma {:induction false} OneByOneKeepsCalls(users: map<RequestId, UserId>, trace: seq<Event>,
                                              order: seq<RequestId>, user: UserId)
    requires Serialises(users, trace, order)
    ensures Of(users, OneByOne(trace, order), user) == Of(users, trace, user)
    decreases |order|
  {
    if order != [] {
      var id := order[0];
      SerialisesRest(users, trace, order);
      OneByOneKeepsCalls(users, Without(trace, id), order[1..], user);
      OneByOneWithout(trace, id, order[1..]);
      OfAppend(users, Only(trace, id), OneByOne(trace, order[1..]), user);
      OfOnly(users, trace, id, user);
      HeadIsFirst(users, trace, order);
      MoveToFront(users, trace, id, user);
    }
  }

  /** Main result: a run in which no two requests of one user overlap ends exactly as running
      its requests one after another does, in any order that keeps each user's own order, with
      every call meeting what it met in the run. */
  lemma EquivalentToSerial(cat: Catalogue, s: System, trace: seq<Event>, order: seq<RequestId>)
    requires OwnTargets(s) && Serialises(Users(s), trace, order)
    ensures Run(cat, s, trace) == Run(cat, s, OneByOne(trace, order))
  {
    forall user ensures Of(Users(s), trace, user) == Of(Users(s), OneByOne(trace, order), user) {
      OneByOneKeepsCalls(Users(s), trace, order, user);
    }
    OrderAcrossUsersIsIrrelevant(cat, s, trace, OneByOne(trace, order));
  }

  // ---------------------------------------------------------------- there is such an order

  /** The requests of a trace in the order of their first calls. */
  function FirstSeen(trace: seq<Event>): seq<RequestId>
    decreases |trace|
  {
    if trace == [] then []
    else
      var n := |trace| - 1;
      var seen := FirstSeen(trace[..n]);
      if trace[n].id in seen then seen else seen + [trace[n].id]
  }

  /** Some call of `a` comes before every call of `b`. */
  ghost predicate StartsBefore(trace: seq<Event>, a: RequestId, b: RequestId) {
    exists k :: 0 <= k < |trace| && trace[k].id == a && forall l :: 0 <= l <= k ==> trace[l].id != b
  }

  lemma StartsBeforeGrows(trace: seq<Event>, n: nat, a: RequestId, b: RequestId)
    requires n <= |trace| && StartsBefore(trace[..n], a, b)
    ensures StartsBefore(trace, a, b)
  {
    var k :| 0 <= k < n && trace[..n][k].id == a && forall l :: 0 <= l <= k ==> trace[..n][l].id != b;
    assert trace[k].id == a;
    forall l | 0 <= l <= k ensures trace[l].id != b {
      assert trace[l] == trace[..n][l];
    }
  }

  lemma {:induction false} FirstSeenInOrder(trace: seq<Event>)
    ensures forall id :: id in FirstSeen(trace) <==> exists k :: 0 <= k < |trace| && trace[k].id == id
    ensures forall i, j :: 0 <= i < j < |FirstSeen(trace)| ==>
              FirstSeen(trace)[i] != FirstSeen(trace)[j] &&
              StartsBefore(trace, FirstSeen(trace)[i], FirstSeen(trace)[j])
    decreases |trace|
  {
    if trace != [] {
      var n := |trace| - 1;
      var rest, order := trace[..n], FirstSeen(trace);
      FirstSeenInOrder(rest);
      forall id ensures id in order <==> exists k :: 0 <= k < |trace| && trace[k].id == id {
        if id in FirstSeen(rest) {
          var k :| 0 <= k < |rest| && rest[k].id == id;
          assert trace[k].id == id;
        }
        if k :| 0 <= k < |trace| && trace[k].id == id {
          assert k < n ==> rest[k].id == id;
        }
      }
      forall i, j | 0 <= i < j < |order|
        ensures order[i] != order[j] && StartsBefore(trace, order[i], order[j])
      {
        if j < |FirstSeen(rest)| {
          StartsBeforeGrows(trace, n, order[i], order[j]);
        } else {
          assert order[i] in FirstSeen(rest);
          var k :| 0 <= k < n && rest[k].id == order[i];
          assert trace[k].id == order[i];
          forall l | 0 <= l <= k ensures trace[l].id != order[j] {
            assert rest[l] == trace[l];
          }
        }
      }
    }
  }

  /** Of any two requests of one user, one made its last call before the other made its first. */
  ghost predicate NoUserOverlaps(users: map<RequestId, UserId>, trace: seq<Event>) {
    forall a, b :: a in users && b in users && a != b && users[a] == users[b]
      ==> Before(trace, a, b) || Before(trace, b, a)
  }

  lemma StartingBeforeIsBefore(trace: seq<Event>, a: RequestId, b: RequestId)
    requires StartsBefore(trace, a, b) && Before(trace, b, a)
    ensures forall m :: 0 <= m < |trace| ==> trace[m].id != b
  {
    var k :| 0 <= k < |trace| && trace[k].id == a && forall l :: 0 <= l <= k ==> trace[l].id != b;
    forall m | 0 <= m < |trace| ensures trace[m].id != b {
      assert m <= k || trace[m].id != b;
    }
  }

  lemma FirstSeenSerialises(users: map<RequestId, UserId>, trace: seq<Event>)
    requires NoUserOverlaps(users, trace) && forall k :: 0 <= k < |trace| ==> trace[k].id in users
    ensures Serialises(users, trace, FirstSeen(trace))
  {
    var order := FirstSeen(trace);
    FirstSeenInOrder(trace);
    forall i, j | 0 <= i < j < |order| && order[i] in users && order[j] in users && users[order[i]] == users[order[j]]
      ensures Before(trace, order[i], order[j])
    {
      if Before(trace, order[j], order[i]) {
        StartingBeforeIsBefore(trace, order[i], order[j]);
      }
    }
  }

  /** Every run in which no two requests of one user overlap ends as the run of its requests one
      after another, in the order of their first calls. */
  lemma RunsAreSerial(cat: Catalogue, s: System, trace: seq<Event>)
    requires OwnTargets(s) && NoUserOverlaps(Users(s), trace)
    requires forall k :: 0 <= k < |trace| ==> trace[k].id in s.flights
    ensures Run(cat, s, trace) == Run(cat, s, OneByOne(trace, FirstSeen(trace)))
    ensures forall id :: id in FirstSeen(trace) <==> exists k :: 0 <= k < |trace| && trace[k].id == id
  {
    FirstSeenInOrder(trace);
    FirstSeenSerialises(Users(s), trace);
    EquivalentToSerial(cat, s, trace, FirstSeen(trace));
  }
}

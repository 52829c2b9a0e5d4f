/** One request on its own: which tables change for every choice of failing calls, and what
    its answer says about them. */
module Atomicity {
  import opened Base
  import opened Operator
  import opened Packages

  /** What each database call of one request meets. */
  datatype Calls = Calls(find: Call, user: Call, insert: Call, score: Call, read: Call, write: Call)

  function CallFor(phase: Phase, calls: Calls): Call {
    match phase
    case FindOffer => calls.find
    case ReadUser(_) => calls.user
    case InsertRow(_, _) => calls.insert
    case WriteScore(_, _) => calls.score
    case ReadPackage(_) => calls.read
    case WritePackage(_, _) => calls.write
    case FindUser => calls.user
    case SetScore(_) => calls.score
    case SetPackage => calls.write
    case Done(_) => calls.find
  }

  function Rank(phase: Phase): nat {
    match phase
    case FindOffer => 6
    case ReadUser(_) => 5
    case InsertRow(_, _) => 4
    case WriteScore(_, _) => 3
    case ReadPackage(_) => 2
    case WritePackage(_, _) => 1
    case FindUser => 3
    case SetScore(_) => 2
    case SetPackage => 1
    case Done(_) => 0
  }

  /** The program counter belongs to the kind of request. */
  predicate Proper(f: Flight) {
    f.phase.Done? || (f.request.Overwrite? <==> f.phase.FindUser? || f.phase.SetScore? || f.phase.SetPackage?)
  }

  lemma AdvanceProceeds(cat: Catalogue, t: Tables, f: Flight, c: Call)
    requires Proper(f) && !f.phase.Done?
    ensures Proper(Advance(cat, t, f, c).1) && Rank(Advance(cat, t, f, c).1.phase) < Rank(f.phase)
  {}

  /** Running one request to its answer, with nothing in between. */
  function Solo(cat: Catalogue, t: Tables, f: Flight, calls: Calls): (r: (Tables, Flight))
    requires Proper(f)
    ensures r.1.phase.Done?
    decreases Rank(f.phase)
  {
    if f.phase.Done? then (t, f)
    else
      AdvanceProceeds(cat, t, f, CallFor(f.phase, calls));
      var (t', f') := Advance(cat, t, f, CallFor(f.phase, calls));
      Solo(cat, t', f', calls)
  }

  /** The calls of a solo request as events of the whole server. */
  function SoloTrace(cat: Catalogue, t: Tables, f: Flight, calls: Calls, id: RequestId): seq<Event>
    requires Proper(f)
    decreases Rank(f.phase)
  {
    if f.phase.Done? then []
    else
      AdvanceProceeds(cat, t, f, CallFor(f.phase, calls));
      var (t', f') := Advance(cat, t, f, CallFor(f.phase, calls));
      [Event(id, CallFor(f.phase, calls))] + SoloTrace(cat, t', f', calls, id)
  }

  /** A solo request is a run of the server in which the scheduler picks nothing else. */
  lemma {:induction false} SoloIsARun(cat: Catalogue, s: System, id: RequestId, calls: Calls)
    requires id in s.flights && Proper(s.flights[id])
    ensures var (t', f') := Solo(cat, s.tables, s.flights[id], calls);
            Run(cat, s, SoloTrace(cat, s.tables, s.flights[id], calls, id)) == System(t', s.flights[id := f'])
    decreases Rank(s.flights[id].phase)
  {
    var f := s.flights[id];
    if f.phase.Done? {
      assert s.flights[id := f] == s.flights;
    } else {
      var c := CallFor(f.phase, calls);
      AdvanceProceeds(cat, s.tables, f, c);
      var (t', f') := Advance(cat, s.tables, f, c);
      var s' := System(t', s.flights[id := f']);
      SoloIsARun(cat, s', id, calls);
      var (t'', f'') := Solo(cat, t', f', calls);
      assert s'.flights[id := f''] == s.flights[id := f''];
      var rest := SoloTrace(cat, t', f', calls, id);
      assert ([Event(id, c)] + rest)[1..] == rest;
    }
  }

  // ---------------------------------------------------------------- from each phase on

  lemma FromReadPackage(cat: Catalogue, t: Tables, f: Flight, calls: Calls)
    requires !f.request.Overwrite? && f.phase.ReadPackage?
    ensures var user := f.request.user;
            var read := calls.read.ok && PackageReadable(t, user);
            var counters := if read then t.packages[user] else calls.read.junkCounters;
            var sum := counters.PlusUnsigned(f.phase.offer.credit);
            Solo(cat, t, f, calls) ==
              if calls.write.ok && sum.FitsColumn()
              then (UpdatePackage(t, user, sum), f.(packageWritten := true, phase := Done(Success)))
              else (t, f.(phase := Done(InternalError)))
  {
    var (t1, f1) := Advance(cat, t, f, calls.read);
    var (t2, f2) := Advance(cat, t1, f1, calls.write);
    assert Solo(cat, t1, f1, calls) == Solo(cat, t2, f2, calls);
  }

  lemma FromInsertRow(cat: Catalogue, t: Tables, f: Flight, calls: Calls)
    requires f.request.Purchase? && f.phase.InsertRow?
    ensures var row := Row(f.request.user, f.request.item, calls.insert.now);
            var t1 := t.(rows := t.rows + {row});
            var left := f.phase.score - f.phase.offer.cost;
            var t2 := if calls.score.ok then UpdateScore(t1, f.request.user, left) else t1;
            var g := f.(row := Some(row), scoreWritten := calls.score.ok || f.scoreWritten,
                        phase := ReadPackage(f.phase.offer));
            Solo(cat, t, f, calls) ==
              if calls.insert.ok && Insertable(cat, t, row) then Solo(cat, t2, g, calls)
              else (t, f.(phase := Done(InternalError)))
  {}

  // ---------------------------------------------------------------- what an answer means

  /** The purchase has left its row and its whole credit behind. */
  ghost predicate Stored(t: Tables, t': Tables, row: Row, credit: Credit) {
    && row !in t.rows && t'.rows == t.rows + {row}
    && row.user in t.packages && row.user in t'.packages
    && t'.packages[row.user] == t.packages[row.user].Plus(credit)
  }

  /** The package read of the request returns the stored counters, and adding to them is exact
      when it fits. */
  ghost predicate ReadIsExact(cat: Catalogue, t: Tables, user: UserId, item: Item, calls: Calls) {
    && calls.read.ok && PackageReadable(t, user) && t.packages[user].FitsColumn()
    && (Find(cat, item).Found? ==> Find(cat, item).offer.credit.FitsColumn())
  }

  /** What becomes of the packages: nothing unless the answer is a success, never anything but
      the user's own, and exactly the credit if the read was exact. */
  ghost predicate CreditedBy(cat: Catalogue, t: Tables, user: UserId, item: Item, calls: Calls, t': Tables,
                             f': Flight) {
    && (f'.phase != Done(Success) || user !in t.packages ==> t'.packages == t.packages)
    && t'.packages.Keys == t.packages.Keys
    && (forall other :: other in t.packages && other != user ==> t'.packages[other] == t.packages[other])
    && (ReadIsExact(cat, t, user, item, calls) && f'.phase == Done(Success) ==>
          Find(cat, item).Found? &&
          t'.packages == t.packages[user := t.packages[user].Plus(Find(cat, item).offer.credit)])
  }

  lemma CreditFromRead(cat: Catalogue, t: Tables, f: Flight, calls: Calls)
    requires !f.request.Overwrite? && f.phase.ReadPackage? && Find(cat, f.request.item) == Found(f.phase.offer)
    ensures var (t', f') := Solo(cat, t, f, calls);
            && t'.scores == t.scores && t'.rows == t.rows && f'.row == f.row
            && CreditedBy(cat, t, f.request.user, f.request.item, calls, t', f')
  {
    FromReadPackage(cat, t, f, calls);
    var user, credit := f.request.user, f.phase.offer.credit;
    if ReadIsExact(cat, t, user, f.request.item, calls) && t.packages[user].PlusUnsigned(credit).FitsColumn() {
      CommittedSumIsExact(t.packages[user], credit);
    }
  }

  /** Failure atomicity, for every choice of failing calls.  A purchase that stops before or at
      its row insert changes nothing.  Past the insert, the debit is missing exactly if its own
      write failed, and the credit if the answer is an error. */
  lemma PurchaseChanges(cat: Catalogue, t: Tables, user: UserId, item: Item, calls: Calls)
    ensures var (t', f') := Solo(cat, t, Launch(Purchase(user, item)), calls);
            var row := Row(user, item, calls.insert.now);
            var offer := Worth(cat, row);
            if f'.row.None? then t' == t
            else
              && f'.row == Some(row) && row !in t.rows && t'.rows == t.rows + {row}
              && user in t.scores && offer.cost <= t.scores[user]
              && t'.scores == (if calls.score.ok then t.scores[user := t.scores[user] - offer.cost] else t.scores)
              && CreditedBy(cat, t, user, item, calls, t', f')
  {
    var f := Launch(Purchase(user, item));
    var (t1, f1) := Advance(cat, t, f, calls.find);
    if f1.phase.ReadUser? {
      var (t2, f2) := Advance(cat, t1, f1, calls.user);
      assert Solo(cat, t1, f1, calls) == Solo(cat, t2, f2, calls);
      if f2.phase.InsertRow? {
        FromInsertRow(cat, t2, f2, calls);
        var row := Row(user, item, calls.insert.now);
        if calls.insert.ok && Insertable(cat, t, row) {
          var t3 := t.(rows := t.rows + {row});
          var t4 := if calls.score.ok then UpdateScore(t3, user, f2.phase.score - f2.phase.offer.cost) else t3;
          var g := f2.(row := Some(row), scoreWritten := calls.score.ok, phase := ReadPackage(f2.phase.offer));
          CreditFromRead(cat, t4, g, calls);
        }
      }
    }
  }

  /** A purchase the user cannot afford answers success and changes nothing. */
  lemma UnaffordableAnswersSuccess(cat: Catalogue, t: Tables, user: UserId, item: Item, calls: Calls)
    requires calls.find.ok && calls.user.ok && Find(cat, item).Found?
    requires user in t.scores && t.scores[user] < Find(cat, item).offer.cost
    ensures var (t', f') := Solo(cat, t, Launch(Purchase(user, item)), calls);
            t' == t && f'.phase == Done(Success) && f'.row.None?
  {
    var f := Launch(Purchase(user, item));
    var (t1, f1) := Advance(cat, t, f, calls.find);
    var (t2, f2) := Advance(cat, t1, f1, calls.user);
    assert Solo(cat, t1, f1, calls) == Solo(cat, t2, f2, calls);
  }

  /** Without a row, success can only be that answer. */
  lemma SuccessWithoutRow(cat: Catalogue, t: Tables, user: UserId, item: Item, calls: Calls)
    requires user in t.scores
    ensures var (t', f') := Solo(cat, t, Launch(Purchase(user, item)), calls);
            f'.phase == Done(Success) ==>
              Find(cat, item).Found? && (f'.row.None? ==> t.scores[user] < Find(cat, item).offer.cost)
  {
    var f := Launch(Purchase(user, item));
    var (t1, f1) := Advance(cat, t, f, calls.find);
    if f1.phase.ReadUser? {
      var (t2, f2) := Advance(cat, t1, f1, calls.user);
      assert Solo(cat, t1, f1, calls) == Solo(cat, t2, f2, calls);
      if f2.phase.InsertRow? {
        FromInsertRow(cat, t2, f2, calls);
        var row := Row(user, item, calls.insert.now);
        if calls.insert.ok && Insertable(cat, t, row) {
          var t3 := t.(rows := t.rows + {row});
          var t4 := if calls.score.ok then UpdateScore(t3, user, f2.phase.score - f2.phase.offer.cost) else t3;
          var g := f2.(row := Some(row), scoreWritten := calls.score.ok, phase := ReadPackage(f2.phase.offer));
          FromReadPackage(cat, t4, g, calls);
        }
      }
    }
  }

  /** A success answer means that the row is stored if and only if the user could afford the
      item.  The same holds of the row together with the whole credit if the package read was
      exact; without a package row the credit is lost.  The debit may still be missing
      (`PurchaseChanges`). */
  lemma SuccessMeansStored(cat: Catalogue, t: Tables, user: UserId, item: Item, calls: Calls)
    requires user in t.scores
    ensures var (t', f') := Solo(cat, t, Launch(Purchase(user, item)), calls);
            var row := Row(user, item, calls.insert.now);
            f'.phase == Done(Success) ==>
              && Find(cat, item).Found?
              && (row !in t.rows && row in t'.rows <==> Find(cat, item).offer.cost <= t.scores[user])
              && (ReadIsExact(cat, t, user, item, calls) ==>
                    (Stored(t, t', row, Worth(cat, row).credit) <==> Find(cat, item).offer.cost <= t.scores[user]))
              && (user !in t.packages ==> t'.packages == t.packages)
  {
    PurchaseChanges(cat, t, user, item, calls);
    SuccessWithoutRow(cat, t, user, item, calls);
  }

  /** A grant never changes a score; for every choice of failing calls it leaves nothing behind
      unless it inserted its row, and then the credit is missing if the answer is an error. */
  lemma GrantChanges(cat: Catalogue, t: Tables, user: UserId, item: Item, calls: Calls)
    ensures var (t', f') := Solo(cat, t, Launch(Grant(user, item)), calls);
            GrantResult(cat, t, user, item, calls, t', f')
  {
    var f := Launch(Grant(user, item));
    var (t1, f1) := Advance(cat, t, f, calls.find);
    if f1.phase.ReadUser? {
      var (t2, f2) := Advance(cat, t1, f1, calls.user);
      assert Solo(cat, t1, f1, calls) == Solo(cat, t2, f2, calls);
      if f2.phase.InsertRow? { GrantFromInsert(cat, t, f2, calls); }
    } else if f1.phase.InsertRow? {
      GrantFromInsert(cat, t, f1, calls);
    }
  }

  ghost predicate GrantResult(cat: Catalogue, t: Tables, user: UserId, item: Item, calls: Calls, t': Tables,
                              f': Flight) {
    var row := Row(user, item, calls.insert.now);
    if f'.row.None? then t' == t && f'.phase != Done(Success)
    else
      && f'.row == Some(row) && row !in t.rows && t'.rows == t.rows + {row} && t'.scores == t.scores
      && CreditedBy(cat, t, user, item, calls, t', f')
  }

  lemma GrantFromInsert(cat: Catalogue, t: Tables, f: Flight, calls: Calls)
    requires f.request.Grant? && f.phase.InsertRow? && f.row.None? && Find(cat, f.request.item) == Found(f.phase.offer)
    ensures var (t', f') := Solo(cat, t, f, calls);
            GrantResult(cat, t, f.request.user, f.request.item, calls, t', f')
  {
    var (t1, f1) := Advance(cat, t, f, calls.insert);
    if f1.phase.ReadPackage? {
      CreditFromRead(cat, t1, f1, calls);
    }
  }

  function WithJunk(calls: Calls, junk: Credit): Calls {
    calls.(read := calls.read.(junkCounters := junk))
  }

  /** The count that makes an unsigned sum with `count` come out as `sum`. */
  function Complement(count: int, sum: int): (junk: int)
    requires 0 <= sum < UINT_RANGE
    ensures 0 <= junk < UINT_RANGE && (junk + count) % UINT_RANGE == sum
  {
    (sum - count) % UINT_RANGE
  }

  /** The result of a failed package read is overwritten before anyone looks at it, and the
      credit goes on top of whatever the uninitialised `uint32_t` counters held.  From the read
      on, a request whose write commits stores the right package for all contents of those
      counters if and only if the read found the row. */
  lemma CreditNeedsTheRead(cat: Catalogue, t: Tables, f: Flight, calls: Calls)
    requires !f.request.Overwrite? && f.phase.ReadPackage? && calls.write.ok
    requires PackageReadable(t, f.request.user)
    requires t.packages[f.request.user].Plus(f.phase.offer.credit).AtLeast(0)
    requires t.packages[f.request.user].Plus(f.phase.offer.credit).FitsColumn()
    ensures calls.read.ok <==>
            forall junk: Credit :: junk.Unsigned() ==>
              Solo(cat, t, f, WithJunk(calls, junk)).0 ==
              UpdatePackage(t, f.request.user, t.packages[f.request.user].Plus(f.phase.offer.credit))
  {
    var user, credit := f.request.user, f.phase.offer.credit;
    var right := t.packages[user].Plus(credit);
    if calls.read.ok {
      forall junk: Credit ensures Solo(cat, t, f, WithJunk(calls, junk)).0 == UpdatePackage(t, user, right) {
        FromReadPackage(cat, t, f, WithJunk(calls, junk));
      }
    } else {
      var wrong := Credit(0, 0, 0, if right.mb == 0 then 1 else 0);
      var junk := Credit(Complement(credit.intoNet, 0), Complement(credit.outNet, 0), Complement(credit.sms, 0),
                         Complement(credit.mb, wrong.mb));
      FromReadPackage(cat, t, f, WithJunk(calls, junk));
      assert junk.PlusUnsigned(credit) == wrong;
      assert Solo(cat, t, f, WithJunk(calls, junk)).0.packages[user] == wrong;
    }
  }
}

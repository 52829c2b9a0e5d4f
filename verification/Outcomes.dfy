/** What each billing request does, for every choice of failing calls, said in terms of the
    catalogue records, the columns and plain numbers alone.  `Atomicity.Solo` steps through the
    calls of a request; the lemmas here tell where it arrives without naming any step. */
module Outcomes {
  import opened Base
  import opened Operator
  import opened Atomicity

  /** Largest value of an `integer` column. */
  const COLUMN_MAX := 2_147_483_647
  /** A `uint32_t` counts up to just below this. */
  const WRAP := 4_294_967_296

  /** Four counters of a stored package, none of them negative. */
  predicate Countable(t: Tables, user: UserId) {
    && user in t.packages
    && 0 <= t.packages[user].intoNet && 0 <= t.packages[user].outNet
    && 0 <= t.packages[user].sms && 0 <= t.packages[user].mb
  }

  // ---------------------------------------------------------------- the common tail

  /** Adding the four counts of a tariff to a package.  The sums are unsigned; the write fails if
      one of them is too large for its column, and does nothing if there is no package. */
  ghost predicate CountsAdded(t: Tables, user: UserId, intoNet: int, outNet: int, sms: int, mb: int, calls: Calls,
                              packages: map<UserId, Credit>, code: Code) {
    var base := if calls.read.ok && Countable(t, user) then t.packages[user] else calls.read.junkCounters;
    var a, b := (base.intoNet + intoNet) % WRAP, (base.outNet + outNet) % WRAP;
    var c, d := (base.sms + sms) % WRAP, (base.mb + mb) % WRAP;
    if calls.write.ok && a <= COLUMN_MAX && b <= COLUMN_MAX && c <= COLUMN_MAX && d <= COLUMN_MAX then
      && code == Success
      && packages == if user in t.packages then t.packages[user := Credit(a, b, c, d)] else t.packages
    else
      code == InternalError && packages == t.packages
  }

  lemma TailAdds(cat: Catalogue, t: Tables, f: Flight, calls: Calls)
    requires !f.request.Overwrite? && f.phase.ReadPackage?
    ensures var (t', f') := Solo(cat, t, f, calls);
            var credit := f.phase.offer.credit;
            && t'.scores == t.scores && t'.rows == t.rows && f'.row == f.row
            && f'.phase.Done?
            && CountsAdded(t, f.request.user, credit.intoNet, credit.outNet, credit.sms, credit.mb, calls,
                           t'.packages, f'.phase.code)
  {
    FromReadPackage(cat, t, f, calls);
  }

  // ---------------------------------------------------------------- purchases

  /** A purchase from the user read on, at a known price and known counts. */
  ghost predicate Bought(t: Tables, user: UserId, item: Item, cost: real, intoNet: int, outNet: int, sms: int, mb: int,
                         calls: Calls, t': Tables, code: Code) {
    var score := if user in t.scores then t.scores[user] else calls.user.junkScore;
    var row := Row(user, item, calls.insert.now);
    if !calls.user.ok then t' == t && code == InternalError
    else if score < cost then t' == t && code == Success
    else if !calls.insert.ok || user !in t.scores || row in t.rows then t' == t && code == InternalError
    else
      && t'.rows == t.rows + {row}
      && t'.scores == (if calls.score.ok then t.scores[user := score - cost] else t.scores)
      && CountsAdded(t, user, intoNet, outNet, sms, mb, calls, t'.packages, code)
  }

  /** ratePayment: the price and the four counts are those of the stored rate, name by name. */
  ghost predicate RateBought(cat: Catalogue, t: Tables, user: UserId, rate: nat, calls: Calls, t': Tables, code: Code) {
    if !calls.find.ok then t' == t && code == InternalError
    else if rate !in cat.rates then t' == t && code == DoesNotExist
    else
      var r := cat.rates[rate];
      Bought(t, user, Rate(rate), r.cost, r.credit.intoNet, r.credit.outNet, r.credit.sms, r.credit.mb, calls, t', code)
  }

  /** A service row whose numbers can be decoded. */
  predicate Decodable(s: ServiceRecord) {
    0 <= s.credit.intoNet && 0 <= s.credit.outNet && 0 <= s.credit.mb && 0 <= s.liveTime
  }

  /** servicePayment: the same of the stored service, except that sms stand still. */
  ghost predicate ServiceBought(cat: Catalogue, t: Tables, user: UserId, id: nat, calls: Calls, t': Tables,
                                code: Code) {
    if !calls.find.ok then t' == t && code == InternalError
    else if id !in cat.services then t' == t && code == DoesNotExist
    else if !Decodable(cat.services[id]) then t' == t && code == InternalError
    else
      var s := cat.services[id];
      Bought(t, user, Service(id), s.cost, s.credit.intoNet, s.credit.outNet, 0, s.credit.mb, calls, t', code)
  }

  lemma BoughtFromInsert(cat: Catalogue, t: Tables, f: Flight, calls: Calls)
    requires f.request.Purchase? && f.phase.InsertRow? && Find(cat, f.request.item) == Found(f.phase.offer)
    requires calls.user.ok && f.phase.offer.cost <= f.phase.score
    requires f.phase.score == if f.request.user in t.scores then t.scores[f.request.user] else calls.user.junkScore
    ensures var (t', f') := Solo(cat, t, f, calls);
            var offer := f.phase.offer;
            && f'.phase.Done?
            && Bought(t, f.request.user, f.request.item, offer.cost, offer.credit.intoNet, offer.credit.outNet,
                      offer.credit.sms, offer.credit.mb, calls, t', f'.phase.code)
  {
    FromInsertRow(cat, t, f, calls);
    var row := Row(f.request.user, f.request.item, calls.insert.now);
    if calls.insert.ok && Insertable(cat, t, row) {
      var t1 := t.(rows := t.rows + {row});
      var left := f.phase.score - f.phase.offer.cost;
      var t2 := if calls.score.ok then UpdateScore(t1, f.request.user, left) else t1;
      TailAdds(cat, t2, f.(row := Some(row), scoreWritten := calls.score.ok || f.scoreWritten,
                           phase := ReadPackage(f.phase.offer)), calls);
    }
  }

  lemma BoughtFromUser(cat: Catalogue, t: Tables, f: Flight, calls: Calls)
    requires f.request.Purchase? && f.phase.ReadUser? && Find(cat, f.request.item) == Found(f.phase.offer)
    ensures var (t', f') := Solo(cat, t, f, calls);
            var offer := f.phase.offer;
            && f'.phase.Done?
            && Bought(t, f.request.user, f.request.item, offer.cost, offer.credit.intoNet, offer.credit.outNet,
                      offer.credit.sms, offer.credit.mb, calls, t', f'.phase.code)
  {
    var (t1, f1) := Advance(cat, t, f, calls.user);
    assert Solo(cat, t, f, calls) == Solo(cat, t1, f1, calls);
    if f1.phase.InsertRow? {
      BoughtFromInsert(cat, t, f1, calls);
    }
  }

  lemma RatePurchase(cat: Catalogue, t: Tables, user: UserId, rate: nat, calls: Calls)
    ensures var (t', f') := Solo(cat, t, Launch(Purchase(user, Rate(rate))), calls);
            f'.phase.Done? && RateBought(cat, t, user, rate, calls, t', f'.phase.code)
  {
    var f := Launch(Purchase(user, Rate(rate)));
    var (t1, f1) := Advance(cat, t, f, calls.find);
    assert Solo(cat, t, f, calls) == Solo(cat, t1, f1, calls);
    if f1.phase.ReadUser? {
      BoughtFromUser(cat, t, f1, calls);
    }
  }

  lemma ServicePurchase(cat: Catalogue, t: Tables, user: UserId, id: nat, calls: Calls)
    ensures var (t', f') := Solo(cat, t, Launch(Purchase(user, Service(id))), calls);
            f'.phase.Done? && ServiceBought(cat, t, user, id, calls, t', f'.phase.code)
  {
    var f := Launch(Purchase(user, Service(id)));
    var (t1, f1) := Advance(cat, t, f, calls.find);
    assert Solo(cat, t, f, calls) == Solo(cat, t1, f1, calls);
    if f1.phase.ReadUser? {
      BoughtFromUser(cat, t, f1, calls);
    }
  }

  predicate AllCommit(calls: Calls) {
    calls.find.ok && calls.user.ok && calls.insert.ok && calls.score.ok && calls.read.ok && calls.write.ok
  }

  /** Each counter has risen by its own count, without wrapping around. */
  predicate Risen(before: Credit, intoNet: int, outNet: int, sms: int, mb: int, after: Credit) {
    && after.intoNet == before.intoNet + intoNet && after.outNet == before.outNet + outNet
    && after.sms == before.sms + sms && after.mb == before.mb + mb
  }

  predicate Fits(before: Credit, intoNet: int, outNet: int, sms: int, mb: int) {
    && 0 <= before.intoNet + intoNet <= COLUMN_MAX && 0 <= before.outNet + outNet <= COLUMN_MAX
    && 0 <= before.sms + sms <= COLUMN_MAX && 0 <= before.mb + mb <= COLUMN_MAX
  }

  /** When nothing fails, an affordable rate takes its price from the score, and every counter of
      the package rises by the count of the same name. */
  lemma PaidRateIsDelivered(cat: Catalogue, t: Tables, user: UserId, rate: nat, calls: Calls)
    requires AllCommit(calls) && rate in cat.rates && user in t.scores && cat.rates[rate].cost <= t.scores[user]
    requires Row(user, Rate(rate), calls.insert.now) !in t.rows && Countable(t, user)
    requires var c := cat.rates[rate].credit; Fits(t.packages[user], c.intoNet, c.outNet, c.sms, c.mb)
    ensures var (t', f') := Solo(cat, t, Launch(Purchase(user, Rate(rate))), calls);
            var c := cat.rates[rate].credit;
            && f'.phase == Done(Success) && user in t'.scores && user in t'.packages
            && t'.scores[user] == t.scores[user] - cat.rates[rate].cost
            && Risen(t.packages[user], c.intoNet, c.outNet, c.sms, c.mb, t'.packages[user])
  {
    RatePurchase(cat, t, user, rate, calls);
  }

  /** The same for a service, whose sms count is never delivered. */
  lemma PaidServiceIsDelivered(cat: Catalogue, t: Tables, user: UserId, id: nat, calls: Calls)
    requires AllCommit(calls) && id in cat.services && Decodable(cat.services[id])
    requires user in t.scores && cat.services[id].cost <= t.scores[user]
    requires Row(user, Service(id), calls.insert.now) !in t.rows && Countable(t, user)
    requires var c := cat.services[id].credit; Fits(t.packages[user], c.intoNet, c.outNet, 0, c.mb)
    ensures var (t', f') := Solo(cat, t, Launch(Purchase(user, Service(id))), calls);
            var c := cat.services[id].credit;
            && f'.phase == Done(Success) && user in t'.scores && user in t'.packages
            && t'.scores[user] == t.scores[user] - cat.services[id].cost
            && Risen(t.packages[user], c.intoNet, c.outNet, 0, c.mb, t'.packages[user])
  {
    ServicePurchase(cat, t, user, id, calls);
  }

  // ---------------------------------------------------------------- grants

  /** A grant from its insert on. */
  ghost predicate Granted(t: Tables, user: UserId, item: Item, intoNet: int, outNet: int, sms: int, mb: int,
                          calls: Calls, t': Tables, code: Code) {
    var row := Row(user, item, calls.insert.now);
    if !calls.insert.ok || user !in t.scores || row in t.rows then t' == t && code == InternalError
    else
      && t'.rows == t.rows + {row} && t'.scores == t.scores
      && CountsAdded(t, user, intoNet, outNet, sms, mb, calls, t'.packages, code)
  }

  /** adminUserRateChange. */
  ghost predicate RateGranted(cat: Catalogue, t: Tables, user: UserId, rate: nat, calls: Calls, t': Tables,
                              code: Code) {
    if !calls.find.ok then t' == t && code == InternalError
    else if rate !in cat.rates then t' == t && code == DoesNotExist
    else if !calls.user.ok then t' == t && code == InternalError
    else
      var c := cat.rates[rate].credit;
      Granted(t, user, Rate(rate), c.intoNet, c.outNet, c.sms, c.mb, calls, t', code)
  }

  /** adminUserServiceChange, which does not read the user. */
  ghost predicate ServiceGranted(cat: Catalogue, t: Tables, user: UserId, id: nat, calls: Calls, t': Tables,
                                 code: Code) {
    if !calls.find.ok then t' == t && code == InternalError
    else if id !in cat.services then t' == t && code == DoesNotExist
    else if !Decodable(cat.services[id]) then t' == t && code == InternalError
    else
      var c := cat.services[id].credit;
      Granted(t, user, Service(id), c.intoNet, c.outNet, 0, c.mb, calls, t', code)
  }

  lemma GrantedFromInsert(cat: Catalogue, t: Tables, f: Flight, calls: Calls)
    requires f.request.Grant? && f.phase.InsertRow? && Find(cat, f.request.item) == Found(f.phase.offer)
    ensures var (t', f') := Solo(cat, t, f, calls);
            var credit := f.phase.offer.credit;
            && f'.phase.Done?
            && Granted(t, f.request.user, f.request.item, credit.intoNet, credit.outNet, credit.sms, credit.mb,
                       calls, t', f'.phase.code)
  {
    var (t1, f1) := Advance(cat, t, f, calls.insert);
    assert Solo(cat, t, f, calls) == Solo(cat, t1, f1, calls);
    if f1.phase.ReadPackage? {
      TailAdds(cat, t1, f1, calls);
    }
  }

  lemma RateGrant(cat: Catalogue, t: Tables, user: UserId, rate: nat, calls: Calls)
    ensures var (t', f') := Solo(cat, t, Launch(Grant(user, Rate(rate))), calls);
            f'.phase.Done? && RateGranted(cat, t, user, rate, calls, t', f'.phase.code)
  {
    var f := Launch(Grant(user, Rate(rate)));
    var (t1, f1) := Advance(cat, t, f, calls.find);
    assert Solo(cat, t, f, calls) == Solo(cat, t1, f1, calls);
    if f1.phase.ReadUser? {
      var (t2, f2) := Advance(cat, t1, f1, calls.user);
      assert Solo(cat, t1, f1, calls) == Solo(cat, t2, f2, calls);
      if f2.phase.InsertRow? {
        GrantedFromInsert(cat, t, f2, calls);
      }
    }
  }

  lemma ServiceGrant(cat: Catalogue, t: Tables, user: UserId, id: nat, calls: Calls)
    ensures var (t', f') := Solo(cat, t, Launch(Grant(user, Service(id))), calls);
            f'.phase.Done? && ServiceGranted(cat, t, user, id, calls, t', f'.phase.code)
  {
    var f := Launch(Grant(user, Service(id)));
    var (t1, f1) := Advance(cat, t, f, calls.find);
    assert Solo(cat, t, f, calls) == Solo(cat, t1, f1, calls);
    if f1.phase.InsertRow? {
      GrantedFromInsert(cat, t, f1, calls);
    }
  }

  /** A grant of a stored rate leaves its row if and only if its tariff read, its user read and
      its insert commit, the user exists and the row is new.  It answers success if and only if,
      besides, the package write commits and the sums fit; if the package could be read, it has
      then risen by the counts of the rate. */
  lemma RateGrantSucceedsExactlyWhen(cat: Catalogue, t: Tables, user: UserId, rate: nat, calls: Calls)
    requires rate in cat.rates && Countable(t, user) && calls.read.ok
    requires var c := cat.rates[rate].credit; c.FitsColumn() && t.packages[user].FitsColumn()
    ensures var (t', f') := Solo(cat, t, Launch(Grant(user, Rate(rate))), calls);
            var row, c := Row(user, Rate(rate), calls.insert.now), cat.rates[rate].credit;
            var inserts := calls.find.ok && calls.user.ok && calls.insert.ok && user in t.scores && row !in t.rows;
            && (row !in t.rows && row in t'.rows <==> inserts)
            && (f'.phase == Done(Success) <==>
                  inserts && calls.write.ok && Fits(t.packages[user], c.intoNet, c.outNet, c.sms, c.mb))
            && (f'.phase == Done(Success) ==>
                  user in t'.packages &&
                  Risen(t.packages[user], c.intoNet, c.outNet, c.sms, c.mb, t'.packages[user]))
  {
    RateGrant(cat, t, user, rate, calls);
  }

  /** The same for a service, without the user read. */
  lemma ServiceGrantSucceedsExactlyWhen(cat: Catalogue, t: Tables, user: UserId, id: nat, calls: Calls)
    requires id in cat.services && Decodable(cat.services[id]) && Countable(t, user) && calls.read.ok
    requires var c := cat.services[id].credit; c.FitsColumn() && t.packages[user].FitsColumn()
    ensures var (t', f') := Solo(cat, t, Launch(Grant(user, Service(id))), calls);
            var row, c := Row(user, Service(id), calls.insert.now), cat.services[id].credit;
            var inserts := calls.find.ok && calls.insert.ok && user in t.scores && row !in t.rows;
            && (row !in t.rows && row in t'.rows <==> inserts)
            && (f'.phase == Done(Success) <==>
                  inserts && calls.write.ok && Fits(t.packages[user], c.intoNet, c.outNet, 0, c.mb))
            && (f'.phase == Done(Success) ==>
                  user in t'.packages &&
                  Risen(t.packages[user], c.intoNet, c.outNet, 0, c.mb, t'.packages[user]))
  {
    ServiceGrant(cat, t, user, id, calls);
  }

  // ---------------------------------------------------------------- overwrites

  /** adminUpdateUserPackage.  The score goes to the user that was read, or to whatever id the
      caller's variable held if there is none; the counters go to the user that was named. */
  ghost predicate Overwritten(t: Tables, user: UserId, score: real, counters: Credit, calls: Calls, t': Tables,
                              code: Code) {
    var target := if user in t.scores then user else calls.user.junkUser;
    if !calls.user.ok || !calls.score.ok then t' == t && code == InternalError
    else
      && t'.rows == t.rows
      && t'.scores == (if target in t.scores then t.scores[target := score] else t.scores)
      && if calls.write.ok && InColumn(counters.intoNet) && InColumn(counters.outNet) && InColumn(counters.sms) &&
            InColumn(counters.mb)
         then code == Success &&
              t'.packages == if user in t.packages then t.packages[user := counters] else t.packages
         else code == InternalError && t'.packages == t.packages
  }

  predicate InColumn(n: int) { -COLUMN_MAX - 1 <= n <= COLUMN_MAX }

  lemma Overwriting(cat: Catalogue, t: Tables, user: UserId, score: real, counters: Credit, calls: Calls)
    ensures var (t', f') := Solo(cat, t, Launch(Overwrite(user, score, counters)), calls);
            f'.phase.Done? && Overwritten(t, user, score, counters, calls, t', f'.phase.code)
  {
    var f := Launch(Overwrite(user, score, counters));
    var (t1, f1) := Advance(cat, t, f, calls.user);
    assert Solo(cat, t, f, calls) == Solo(cat, t1, f1, calls);
    if f1.phase.SetScore? {
      var (t2, f2) := Advance(cat, t1, f1, calls.score);
      assert Solo(cat, t1, f1, calls) == Solo(cat, t2, f2, calls);
      if f2.phase.SetPackage? {
        var (t3, f3) := Advance(cat, t2, f2, calls.write);
        assert Solo(cat, t2, f2, calls) == Solo(cat, t3, f3, calls);
      }
    }
  }

  /** For a user with a package: if the user read or the score write fails, nothing changes.
      Otherwise the score is the one sent, and the package is the counters sent if that write
      commits and fits, and unchanged if not.  Success means that both are stored. */
  lemma OverwriteStoresBoth(cat: Catalogue, t: Tables, user: UserId, score: real, counters: Credit, calls: Calls)
    requires user in t.scores && user in t.packages
    ensures var (t', f') := Solo(cat, t, Launch(Overwrite(user, score, counters)), calls);
            && (!calls.user.ok || !calls.score.ok ==> t' == t && f'.phase == Done(InternalError))
            && user in t'.scores && user in t'.packages
            && t'.scores[user] == (if calls.user.ok && calls.score.ok then score else t.scores[user])
            && t'.packages[user] == (if f'.phase == Done(Success) then counters else t.packages[user])
            && (f'.phase == Done(Success) <==>
                  calls.user.ok && calls.score.ok && calls.write.ok && counters.FitsColumn())
            && (f'.phase == Done(Success) ==> t'.scores[user] == score)
  {
    Overwriting(cat, t, user, score, counters, calls);
  }
}

/** The operator database as the server changes it in place, and the five billing functions of
    AuthLogic as they are written.  Each is proved to do exactly what the request does when the
    scheduler runs nothing in between (`Atomicity.Solo`), so every result about single requests
    holds of the method, and `Atomicity.SoloIsARun` makes it a run of the interleaving model. */
module AuthLogic {
  import opened Base
  import opened Operator
  import opened Atomicity
  import Outcomes

  class OperatorDb {
    const cat: Catalogue
    var scores: map<UserId, real>
    var packages: map<UserId, Credit>
    var rows: set<Row>

    ghost function Contents(): Tables
      reads this
    {
      Tables(scores, packages, rows)
    }

    constructor (cat: Catalogue, scores: map<UserId, real>, packages: map<UserId, Credit>, rows: set<Row>)
      ensures this.cat == cat && Contents() == Tables(scores, packages, rows)
    {
      this.cat := cat;
      this.scores, this.packages, this.rows := scores, packages, rows;
    }

    /** RatePostgresManager::getRateInfo and ServiceManagerPostgres::getServiceInfo. */
    method GetOffer(item: Item, c: Call) returns (code: Code, offer: Offer)
      ensures code == Success <==> c.ok && Find(cat, item).Found?
      ensures code == DoesNotExist <==> c.ok && Find(cat, item).Missing?
      ensures code == Success ==> Find(cat, item) == Found(offer)
      ensures code == DoesNotExist <==>
                c.ok && (if item.Rate? then item.id !in cat.rates else item.id !in cat.services)
      ensures item.Service? && item.id in cat.services ==>
                (code == Success <==> c.ok && Outcomes.Decodable(cat.services[item.id]))
      ensures code == Success && item.Rate? ==>
                var r := cat.rates[item.id];
                && offer.cost == r.cost
                && offer.credit.intoNet == r.credit.intoNet && offer.credit.outNet == r.credit.outNet
                && offer.credit.sms == r.credit.sms && offer.credit.mb == r.credit.mb
      ensures code == Success && item.Service? ==>
                var s := cat.services[item.id];
                && offer.cost == s.cost
                && offer.credit.intoNet == s.credit.intoNet && offer.credit.outNet == s.credit.outNet
                && offer.credit.sms == 0 && offer.credit.mb == s.credit.mb
    {
      code, offer := InternalError, Offer(0.0, NO_CREDIT);
      if c.ok {
        var l := Find(cat, item);
        if l.Missing? {
          code := DoesNotExist;
        } else if l.Found? {
          code, offer := Success, l.offer;
        }
      }
    }

    /** ClientPostgresManager::getUserInfo: success even when no row was found. */
    method GetUserInfo(user: UserId, c: Call) returns (code: Code, id: UserId, score: real)
      ensures code == if c.ok then Success else InternalError
      ensures c.ok && user in scores ==> id == user && score == scores[user]
      ensures c.ok && user !in scores ==> id == c.junkUser && score == c.junkScore
    {
      code, id, score := InternalError, c.junkUser, c.junkScore;
      if c.ok {
        if user in scores {
          id, score := user, scores[user];
        }
        code := Success;
      }
    }

    /** ClientPostgresManager::updateUser. */
    method UpdateUser(id: UserId, score: real, c: Call) returns (code: Code)
      modifies this
      ensures code == if c.ok then Success else InternalError
      ensures Contents() == if c.ok then UpdateScore(old(Contents()), id, score) else old(Contents())
    {
      code := InternalError;
      if c.ok {
        if id in scores {
          scores := scores[id := score];
        }
        code := Success;
      }
    }

    /** RatePostgresManager::createUserRate and ServiceManagerPostgres::createUserService. */
    method CreateConnection(user: UserId, item: Item, c: Call) returns (code: Code)
      modifies this
      ensures code == Success <==> c.ok && Insertable(cat, old(Contents()), Row(user, item, c.now))
      ensures code == Success || code == InternalError
      ensures Contents() == if code == Success then old(Contents()).(rows := old(rows) + {Row(user, item, c.now)})
                            else old(Contents())
    {
      code := InternalError;
      var row := Row(user, item, c.now);
      if c.ok && Insertable(cat, Tables(scores, packages, rows), row) {
        rows := rows + {row};
        code := Success;
      }
    }

    /** UserPackagePostgresManager::getPackage. */
    method GetPackage(user: UserId, c: Call) returns (code: Code, counters: Credit)
      ensures code == Success <==> c.ok && PackageReadable(Contents(), user)
      ensures code == DoesNotExist <==> c.ok && user !in packages
      ensures counters == if code == Success then packages[user] else c.junkCounters
    {
      code, counters := InternalError, c.junkCounters;
      if c.ok {
        if user !in packages {
          code := DoesNotExist;
        } else if packages[user].AtLeast(0) {
          code, counters := Success, packages[user];
        }
      }
    }

    /** UserPackagePostgresManager::updatePackage and updatePackageAdmin. */
    method UpdateCounters(user: UserId, counters: Credit, c: Call) returns (code: Code)
      modifies this
      ensures code == if c.ok && counters.FitsColumn() then Success else InternalError
      ensures Contents() == if code == Success then UpdatePackage(old(Contents()), user, counters) else old(Contents())
    {
      code := InternalError;
      if c.ok && counters.FitsColumn() {
        if user in packages {
          packages := packages[user := counters];
        }
        code := Success;
      }
    }

    /** ClientPostgresManager::createUser: the phone column holds twelve characters, and blanks
        beyond them are cut off without an error. */
    method CreateUser(id: UserId, phone: string, c: Call) returns (code: Code)
      modifies this
      ensures code == if c.ok && FitsPhone(phone) && id !in old(scores) then Success else InternalError
      ensures Contents() == if code == Success then old(Contents()).(scores := old(scores)[id := 0.0])
                            else old(Contents())
    {
      code := InternalError;
      if c.ok && FitsPhone(phone) && id !in scores {
        scores := scores[id := 0.0];
        code := Success;
      }
    }

    /** UserPackagePostgresManager::createEmptyPackage. */
    method CreateEmptyPackage(id: UserId, c: Call) returns (code: Code)
      modifies this
      ensures code == if c.ok && id in scores && id !in old(packages) then Success else InternalError
      ensures Contents() == if code == Success then old(Contents()).(packages := old(packages)[id := NO_CREDIT])
                            else old(Contents())
    {
      code := InternalError;
      if c.ok && id in scores && id !in packages {
        packages := packages[id := NO_CREDIT];
        code := Success;
      }
    }
  }

  /** The common tail of all four payments: read the package, add, write it back. */
  method AddCredit(db: OperatorDb, ghost f: Flight, user: UserId, credit: Credit, calls: Calls) returns (code: Code)
    requires !f.request.Overwrite? && f.phase.ReadPackage? && f.request.user == user && f.phase.offer.credit == credit
    modifies db
    ensures var (t', f') := Solo(db.cat, old(db.Contents()), f, calls);
            db.Contents() == t' && f'.phase == Done(code)
  {
    var _, pInfo := db.GetPackage(user, calls.read);
    pInfo := pInfo.PlusUnsigned(credit);
    code := db.UpdateCounters(user, pInfo, calls.write);
    FromReadPackage(db.cat, old(db.Contents()), f, calls);
  }

  /** ratePayment and servicePayment differ only in the tables they name. */
  method Payment(db: OperatorDb, user: UserId, item: Item, calls: Calls) returns (code: Code)
    modifies db
    ensures var (t', f') := Solo(db.cat, old(db.Contents()), Launch(Purchase(user, item)), calls);
            db.Contents() == t' && f'.phase == Done(code)
  {
    ghost var t := db.Contents();
    ghost var (_, f1) := Advance(db.cat, t, Launch(Purchase(user, item)), calls.find);
    var offer;
    code, offer := db.GetOffer(item, calls.find);
    if code != Success {
      return;
    }
    var id, score;
    code, id, score := db.GetUserInfo(user, calls.user);
    ghost var (_, f2) := Advance(db.cat, t, f1, calls.user);
    assert Solo(db.cat, t, f1, calls) == Solo(db.cat, t, f2, calls);
    if code != Success {
      return;
    }
    if score < offer.cost {
      return;
    }
    FromInsertRow(db.cat, t, f2, calls);
    code := db.CreateConnection(user, item, calls.insert);
    if code != Success {
      return;
    }
    score := score - offer.cost;
    var _ := db.UpdateUser(id, score, calls.score);
    ghost var g := f2.(row := Some(Row(user, item, calls.insert.now)), scoreWritten := calls.score.ok,
                       phase := ReadPackage(offer));
    code := AddCredit(db, g, user, offer.credit, calls);
  }

  method RatePayment(db: OperatorDb, user: UserId, rateId: nat, calls: Calls) returns (code: Code)
    modifies db
    ensures var (t', f') := Solo(db.cat, old(db.Contents()), Launch(Purchase(user, Rate(rateId))), calls);
            db.Contents() == t' && f'.phase == Done(code)
    ensures Outcomes.RateBought(db.cat, old(db.Contents()), user, rateId, calls, db.Contents(), code)
  {
    Outcomes.RatePurchase(db.cat, db.Contents(), user, rateId, calls);
    code := Payment(db, user, Rate(rateId), calls);
  }

  method ServicePayment(db: OperatorDb, user: UserId, serviceId: nat, calls: Calls) returns (code: Code)
    modifies db
    ensures var (t', f') := Solo(db.cat, old(db.Contents()), Launch(Purchase(user, Service(serviceId))), calls);
            db.Contents() == t' && f'.phase == Done(code)
    ensures Outcomes.ServiceBought(db.cat, old(db.Contents()), user, serviceId, calls, db.Contents(), code)
  {
    Outcomes.ServicePurchase(db.cat, db.Contents(), user, serviceId, calls);
    code := Payment(db, user, Service(serviceId), calls);
  }

  method AdminUserRateChange(db: OperatorDb, user: UserId, rateId: nat, calls: Calls) returns (code: Code)
    modifies db
    ensures var (t', f') := Solo(db.cat, old(db.Contents()), Launch(Grant(user, Rate(rateId))), calls);
            db.Contents() == t' && f'.phase == Done(code)
    ensures Outcomes.RateGranted(db.cat, old(db.Contents()), user, rateId, calls, db.Contents(), code)
  {
    Outcomes.RateGrant(db.cat, db.Contents(), user, rateId, calls);
    ghost var t := db.Contents();
    ghost var (_, f1) := Advance(db.cat, t, Launch(Grant(user, Rate(rateId))), calls.find);
    var offer;
    code, offer := db.GetOffer(Rate(rateId), calls.find);
    if code != Success {
      return;
    }
    var id, score;
    code, id, score := db.GetUserInfo(user, calls.user);
    ghost var (_, f2) := Advance(db.cat, t, f1, calls.user);
    assert Solo(db.cat, t, f1, calls) == Solo(db.cat, t, f2, calls);
    if code != Success {
      return;
    }
    code := db.CreateConnection(user, Rate(rateId), calls.insert);
    ghost var (t3, f3) := Advance(db.cat, t, f2, calls.insert);
    assert Solo(db.cat, t, f2, calls) == Solo(db.cat, t3, f3, calls);
    if code != Success {
      return;
    }
    code := AddCredit(db, f3, user, offer.credit, calls);
  }

  method AdminUserServiceChange(db: OperatorDb, user: UserId, serviceId: nat, calls: Calls) returns (code: Code)
    modifies db
    ensures var (t', f') := Solo(db.cat, old(db.Contents()), Launch(Grant(user, Service(serviceId))), calls);
            db.Contents() == t' && f'.phase == Done(code)
    ensures Outcomes.ServiceGranted(db.cat, old(db.Contents()), user, serviceId, calls, db.Contents(), code)
  {
    Outcomes.ServiceGrant(db.cat, db.Contents(), user, serviceId, calls);
    ghost var t := db.Contents();
    ghost var (_, f1) := Advance(db.cat, t, Launch(Grant(user, Service(serviceId))), calls.find);
    var offer;
    code, offer := db.GetOffer(Service(serviceId), calls.find);
    if code != Success {
      return;
    }
    code := db.CreateConnection(user, Service(serviceId), calls.insert);
    ghost var (t2, f2) := Advance(db.cat, t, f1, calls.insert);
    assert Solo(db.cat, t, f1, calls) == Solo(db.cat, t2, f2, calls);
    if code != Success {
      return;
    }
    code := AddCredit(db, f2, user, offer.credit, calls);
  }

  method AdminUpdateUserPackage(db: OperatorDb, user: UserId, score: real, counters: Credit,
                                calls: Calls) returns (code: Code)
    modifies db
    ensures var (t', f') := Solo(db.cat, old(db.Contents()), Launch(Overwrite(user, score, counters)), calls);
            db.Contents() == t' && f'.phase == Done(code)
    ensures Outcomes.Overwritten(old(db.Contents()), user, score, counters, calls, db.Contents(), code)
  {
    Outcomes.Overwriting(db.cat, db.Contents(), user, score, counters, calls);
    ghost var t := db.Contents();
    ghost var (_, f1) := Advance(db.cat, t, Launch(Overwrite(user, score, counters)), calls.user);
    var id, current;
    code, id, current := db.GetUserInfo(user, calls.user);
    if code != Success {
      return;
    }
    code := db.UpdateUser(id, score, calls.score);
    ghost var (t2, f2) := Advance(db.cat, t, f1, calls.score);
    assert Solo(db.cat, t, f1, calls) == Solo(db.cat, t2, f2, calls);
    if code != Success {
      return;
    }
    code := db.UpdateCounters(user, counters, calls.write);
    ghost var (t3, f3) := Advance(db.cat, t2, f2, calls.write);
    assert Solo(db.cat, t2, f2, calls) == Solo(db.cat, t3, f3, calls);
  }
}

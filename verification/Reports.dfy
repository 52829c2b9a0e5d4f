/** The functions that read the views: getUserRate, getPackageState and the statistics.  The
    answer of each SELECT is whatever the database picked among those its text allows. */
module Reports {
  import opened Base
  import opened Operator
  import opened AuthLogic
  import opened Views
  import Atomicity
  import Billing
  import Packages
  import Registration

  /** RatePostgresManager::getUserRate takes the first row of its answer. */
  method GetUserRate(db: OperatorDb, user: UserId, answer: seq<RateDate>, c: Call)
    returns (code: Code, rate: nat, date: Time)
    requires UserRateAnswer(db.rows, user, answer)
    ensures code == InternalError <==> !c.ok
    ensures code == Success <==> c.ok && exists row :: row in db.rows && RateRowOf(row, user)
    ensures code == Success ==> Latest(db.rows, user, RateDate(rate, date))
  {
    code, rate, date := InternalError, 0, 0;
    FirstIsLatest(db.rows, user, answer);
    if c.ok {
      if answer == [] {
        code := DoesNotExist;
      } else {
        rate, date := answer[0].rate, answer[0].date;
        code := Success;
      }
    }
  }

  /** A service line of the state; the tariff is missing if it could not be read. */
  datatype ServiceLine = ServiceLine(service: nat, tariff: Option<Offer>, date: Time)
  datatype State = State(package: Credit, score: real, rate: nat, connected: Time, tariff: Offer,
                         services: seq<ServiceLine>)

  /** The calls getPackageState makes, in order; one more for every active service. */
  datatype StateCalls = StateCalls(package: Call, user: Call, rate: Call, tariff: Call, services: Call,
                                   lines: seq<Call>)

  predicate AllOk(calls: StateCalls) {
    calls.package.ok && calls.user.ok && calls.rate.ok && calls.tariff.ok && calls.services.ok
  }

  /** The tables hold what a state is made of: a package and a connected rate. */
  ghost predicate HasState(t: Tables, user: UserId) {
    PackageReadable(t, user) && exists row :: row in t.rows && RateRowOf(row, user)
  }

  /** The state says what the tables hold at `now`: the package, the score, the rate connected
      last, and one line for every active service, with that service's tariff unless it could
      not be read. */
  ghost predicate Describes(cat: Catalogue, t: Tables, user: UserId, now: Time, s: State) {
    && user in t.packages && s.package == t.packages[user]
    && (user in t.scores ==> s.score == t.scores[user])
    && Latest(t.rows, user, RateDate(s.rate, s.connected))
    && Find(cat, Rate(s.rate)) == Found(s.tariff)
    && |s.services| == |ActiveRows(cat, t.rows, user, now)|
    && (forall k :: 0 <= k < |s.services| ==> LineRow(user, s.services[k]) in ActiveRows(cat, t.rows, user, now))
    && (forall i, j :: 0 <= i < j < |s.services| ==> LineRow(user, s.services[i]) != LineRow(user, s.services[j]))
    && (forall k :: 0 <= k < |s.services| && s.services[k].tariff.Some? ==>
          Find(cat, Service(s.services[k].service)) == Found(s.services[k].tariff.value))
  }

  /** The connection a line is about. */
  function LineRow(user: UserId, line: ServiceLine): Row { Row(user, Service(line.service), line.date) }

  /** The first thing that goes wrong decides the answer; a missing package or rate is told apart
      from a failure.  Rates of the user's connections are stored, so their tariff is found. */
  ghost function StateCode(t: Tables, user: UserId, calls: StateCalls): Code {
    if !calls.package.ok then InternalError
    else if user !in t.packages then DoesNotExist
    else if !PackageReadable(t, user) || !calls.user.ok || !calls.rate.ok then InternalError
    else if !HasState(t, user) then DoesNotExist
    else if !calls.tariff.ok || !calls.services.ok then InternalError
    else Success
  }

  /** AuthLogic::getPackageState.  It succeeds exactly if its calls commit and the user has a
      state (see `RegisteredUsersHaveAState`), and then describes it. */
  method GetPackageState(db: OperatorDb, user: UserId, rates: seq<RateDate>, services: seq<Joined>,
                         calls: StateCalls, now: Time)
    returns (code: Code, state: Option<State>)
    requires UserRateAnswer(db.rows, user, rates) && Billing.KeysKnown(db.cat, db.Contents())
    requires UserServicesAnswer(db.cat, db.rows, user, now, services) && Printable(db.cat)
    requires |calls.lines| == |services|
    ensures code == Success <==> AllOk(calls) && HasState(db.Contents(), user)
    ensures code == StateCode(db.Contents(), user, calls)
    ensures code == Success <==> state.Some?
    ensures state.Some? ==>
              && Describes(db.cat, db.Contents(), user, now, state.value)
              && |state.value.services| == |calls.lines|
              && forall k :: 0 <= k < |calls.lines| ==>
                   (state.value.services[k].tariff.Some? <==>
                    calls.lines[k].ok && Find(db.cat, Service(state.value.services[k].service)).Found?)
  {
    state := None;
    OneEntryPerActiveRow(db.cat, db.rows, user, now, services);
    var package;
    code, package := db.GetPackage(user, calls.package);
    if code != Success {
      return;
    }
    var id, score;
    code, id, score := db.GetUserInfo(user, calls.user);
    if code != Success {
      return;
    }
    var rate, connected;
    code, rate, connected := GetUserRate(db, user, rates, calls.rate);
    if code != Success {
      return;
    }
    var tariff;
    code, tariff := db.GetOffer(Rate(rate), calls.tariff);
    if code != Success {
      return;
    }
    if !calls.services.ok {
      code := InternalError;
      return;
    }
    var lines := GetServiceLines(db, services, calls.lines);
    state := Some(State(package, score, rate, connected, tariff, lines));
  }

  /** The loop that looks up each active service and ignores whether that worked. */
  method GetServiceLines(db: OperatorDb, services: seq<Joined>, calls: seq<Call>) returns (lines: seq<ServiceLine>)
    requires |calls| == |services|
    ensures |lines| == |services|
    ensures forall k :: 0 <= k < |services| ==>
              lines[k] == ServiceLine(services[k].service,
                                      if calls[k].ok && Find(db.cat, Service(services[k].service)).Found?
                                      then Some(Find(db.cat, Service(services[k].service)).offer) else None,
                                      services[k].row.date)
  {
    lines := [];
    for i := 0 to |services|
      invariant |lines| == i
      invariant forall k :: 0 <= k < i ==>
                  lines[k] == ServiceLine(services[k].service,
                                          if calls[k].ok && Find(db.cat, Service(services[k].service)).Found?
                                          then Some(Find(db.cat, Service(services[k].service)).offer) else None,
                                          services[k].row.date)
    {
      var code, tariff := db.GetOffer(Service(services[i].service), calls[i]);
      var shown := if code == Success then Some(tariff) else None;
      lines := lines + [ServiceLine(services[i].service, shown, services[i].row.date)];
    }
  }

  /** Once a registration has answered, getPackageState has a state to report to that user, then
      and in every later state, while other users register and whatever billing calls fail. */
  lemma RegisteredUsersHaveAState(scheme: Registration.Scheme, cat: Catalogue, s: Registration.Registrar,
                                  before: seq<Registration.Turn>, after: seq<Registration.Turn>, login: string)
    requires Registration.Fresh(s) && Registration.AllAcceptable(cat, s) && Registration.PaymentsUnsigned(s)
    requires Registration.SignupsCommit(before) && Registration.SignupsCommit(after)
    requires var s1 := Registration.Run(scheme, cat, s, before);
             login in s1.store.accounts && !Registration.InProgress(s1, login)
    ensures var id := Registration.Run(scheme, cat, s, before).store.accounts[login].id;
            var t := Registration.Run(scheme, cat, s, before + after).store.tables;
            Billing.KeysKnown(cat, t) && HasState(t, id)
  {
    var s2 := Registration.Run(scheme, cat, s, before + after);
    Registration.AnsweredForGood(scheme, cat, s, before, after, login);
    Registration.RegisteredUsersAreComplete(scheme, cat, s, before + after);
    var id := s2.store.accounts[login].id;
    assert Registration.Complete(s2.store.tables, id);
    var row :| row in s2.store.tables.rows && row.user == id && row.item == Rate(Registration.FIRST_RATE);
    assert RateRowOf(row, id);
  }

  /** After a rate purchase that stored its row later than all earlier connections of the user,
      whichever calls failed afterwards, getPackageState has a state to report, and every state
      it reports names the purchased rate and shows the score debited if that call committed. */
  lemma PurchasedRateIsReported(cat: Catalogue, t: Tables, user: UserId, rate: nat, calls: Atomicity.Calls, now: Time)
    requires forall row :: row in t.rows && RateRowOf(row, user) ==> row.date < calls.insert.now
    requires Atomicity.Solo(cat, t, Launch(Purchase(user, Rate(rate))), calls).1.row.Some?
    ensures var t' := Atomicity.Solo(cat, t, Launch(Purchase(user, Rate(rate))), calls).0;
            && (Billing.KeysKnown(cat, t) && PackageReadable(t, user) ==>
                  Billing.KeysKnown(cat, t') && HasState(t', user))
            && forall state :: Describes(cat, t', user, now, state) ==>
                 && state.rate == rate && state.connected == calls.insert.now
                 && user in t.scores
                 && state.score == t.scores[user] - (if calls.score.ok then state.tariff.cost else 0.0)
  {
    var f := Launch(Purchase(user, Rate(rate)));
    var t' := Atomicity.Solo(cat, t, f, calls).0;
    var row := Row(user, Rate(rate), calls.insert.now);
    Atomicity.PurchaseChanges(cat, t, user, Rate(rate), calls);
    assert row in t'.rows && RateRowOf(row, user);
    if Billing.KeysKnown(cat, t) && PackageReadable(t, user) {
      var server := System(t, map[0 := f]);
      var trace := Atomicity.SoloTrace(cat, t, f, calls, 0);
      Atomicity.SoloIsARun(cat, server, 0, calls);
      Packages.PackageStaysReadable(cat, server, trace, user);
      Billing.KeysStayKnown(cat, server, trace);
    }
  }

  // ---------------------------------------------------------------- statistics

  /** A line of the statistics: how often a tariff was connected in a month, and that tariff. */
  datatype Statistic = Statistic(group: Group, tariff: Offer)

  function Groups(stat: seq<Statistic>): (groups: seq<Group>)
    ensures |groups| == |stat|
    ensures forall k :: 0 <= k < |stat| ==> groups[k] == stat[k].group
  {
    if stat == [] then [] else [stat[0].group] + Groups(stat[1..])
  }

  /** Every line shows the tariff of its own group. */
  ghost predicate TariffsShown(cat: Catalogue, stat: seq<Statistic>) {
    forall k :: 0 <= k < |stat| ==> Find(cat, stat[k].group.item) == Found(stat[k].tariff)
  }

  /** RatePostgresManager::getRateStatistics and ServiceManagerPostgres::getServiceStatistics:
      each group's tariff is read in the same transaction, and one that cannot be read fails
      the whole call. */
  method GetStatistics(db: OperatorDb, answer: seq<Group>, c: Call) returns (code: Code, stat: seq<Statistic>)
    ensures code == Success <==> c.ok && forall k :: 0 <= k < |answer| ==> Find(db.cat, answer[k].item).Found?
    ensures code == Success || code == InternalError
    ensures code == Success ==> Groups(stat) == answer && TariffsShown(db.cat, stat)
  {
    code, stat := InternalError, [];
    if !c.ok {
      return;
    }
    for i := 0 to |answer|
      invariant |stat| == i && TariffsShown(db.cat, stat)
      invariant forall k :: 0 <= k < i ==> stat[k].group == answer[k]
    {
      var l := Find(db.cat, answer[i].item);
      if !l.Found? {
        return;
      }
      stat := stat + [Statistic(answer[i], l.offer)];
    }
    code := Success;
  }

  /** AuthLogic::rateStatistics and servicetatistics.  The response keeps every group with its
      tariff: no two lines are about the same month and tariff, each counts exactly the matching
      connections, and the counts add up to all connections of the current year. */
  method Statistics(db: OperatorDb, table: Table, cal: Calendar, now: Time, answer: seq<Group>, c: Call)
    returns (code: Code, res: seq<Statistic>)
    requires StatisticsAnswer(db.rows, table, cal, now, answer)
    ensures code == Success <==> c.ok && forall k :: 0 <= k < |answer| ==> Find(db.cat, answer[k].item).Found?
    ensures code != Success ==> code == InternalError && res == []
    ensures code == Success ==>
              var year := ThisYear(db.rows, table, cal, now);
              && TariffsShown(db.cat, res)
              && (forall i, j :: 0 <= i < j < |res| ==>
                    res[i].group.month != res[j].group.month || res[i].group.item != res[j].group.item)
              && (forall k :: 0 <= k < |res| ==>
                    res[k].group.count == |Members(year, cal, res[k].group.month, res[k].group.item)|)
              && SumCounts(Groups(res)) == |year|
  {
    res := [];
    var stat;
    code, stat := GetStatistics(db, answer, c);
    if code != Success {
      return;
    }
    for i := 0 to |stat|
      invariant res == stat[..i]
    {
      res := res + [stat[i]];
    }
    assert res == stat;
    CountsAddUp(ThisYear(db.rows, table, cal, now), cal, answer);
  }
}

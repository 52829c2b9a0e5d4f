/** Exact accounts: when money leaves a score exactly with committed debits and enters a package
    exactly with committed credits.

    A write is stale if the value it was computed from is no longer the stored one.  Accounts
    are exact if and only if no write was stale, whatever fails and however requests overlap.
    In particular they are if a user's requests follow one another. */
module Conservation {
  import opened Base
  import opened Operator
  import opened Billing
  import opened Packages

  /** A score write of a purchase that commits. */
  predicate Debits(f: Flight, c: Call) { f.phase.WriteScore? && c.ok }

  /** The call debits `user` from a score that is no longer the stored one. */
  predicate StaleDebit(s: System, e: Event, user: UserId) {
    && e.id in s.flights && s.flights[e.id].request.user == user && Debits(s.flights[e.id], e.call)
    && user in s.tables.scores && s.flights[e.id].phase.score != s.tables.scores[user]
  }

  predicate NoStaleDebit(cat: Catalogue, s: System, trace: seq<Event>, user: UserId)
    decreases |trace|
  {
    trace == [] || (!StaleDebit(s, trace[0], user) && NoStaleDebit(cat, Step(cat, s, trace[0]), trace[1..], user))
  }

  /** The call credits `user` on top of counters that are no longer the stored ones. */
  predicate StaleCredit(s: System, e: Event, user: UserId) {
    && e.id in s.flights && s.flights[e.id].request.user == user && Credits(s.flights[e.id], e.call)
    && user in s.tables.packages && s.flights[e.id].phase.counters != s.tables.packages[user]
  }

  predicate NoStaleCredit(cat: Catalogue, s: System, trace: seq<Event>, user: UserId)
    decreases |trace|
  {
    trace == [] || (!StaleCredit(s, trace[0], user) && NoStaleCredit(cat, Step(cat, s, trace[0]), trace[1..], user))
  }

  /** The books are in order before and after the call. */
  ghost predicate Booked(cat: Catalogue, start: Tables, s: System, e: Event) {
    Ledger(cat, start, s) && Ledger(cat, start, Step(cat, s, e)) && Extends(s, Step(cat, s, e))
  }

  // ---------------------------------------------------------------- scores

  /** How far `score` lies above what the committed debits leave of the starting score. */
  ghost function Surplus(cat: Catalogue, start: Tables, s: System, user: UserId, score: real): real
    requires user in start.scores
  {
    score - (start.scores[user] - Total(cat, DebitedRows(s, user)).cost)
  }

  /** How one call changes the score of `user` and what a request of that user holds of it. */
  ghost predicate DebitEffect(cat: Catalogue, t: Tables, f: Flight, c: Call, t': Tables, f': Flight, user: UserId)
    requires user in t.scores
  {
    var own := f.request.user == user;
    && user in t'.scores && f'.request == f.request
    && (if own && Debits(f, c) then
          && f.request.Purchase? && f.row.Some? && f'.row == f.row && !f.scoreWritten && f'.scoreWritten
          && f.phase.offer == Worth(cat, f.row.value)
          && t'.scores[user] == f.phase.score - f.phase.offer.cost
        else t'.scores[user] == t.scores[user] && (own ==> f'.scoreWritten == f.scoreWritten))
    && (own && HoldsScore(f') ==>
          || (HoldsScore(f) && f'.phase.score == f.phase.score && !Debits(f, c))
          || (f'.phase.score == t.scores[user] && !Debits(f, c)))
  }

  lemma AdvanceDebits(cat: Catalogue, t: Tables, f: Flight, c: Call, user: UserId)
    requires Coherent(cat, f) && user in t.scores
    requires f.request.Overwrite? ==> f.request.user != user && (f.phase.SetScore? ==> f.phase.target == f.request.user)
    ensures var (t', f') := Advance(cat, t, f, c); DebitEffect(cat, t, f, c, t', f', user)
  {}

  /** A call adds the row of its own debit to the debited rows, and no other. */
  lemma DebitedAfter(cat: Catalogue, start: Tables, s: System, e: Event, user: UserId)
    requires Booked(cat, start, s, e) && user in s.tables.scores && e.id in s.flights
    requires var (t', f') := Advance(cat, s.tables, s.flights[e.id], e.call);
             DebitEffect(cat, s.tables, s.flights[e.id], e.call, t', f', user)
    ensures var f, before, after := s.flights[e.id], DebitedRows(s, user), DebitedRows(Step(cat, s, e), user);
            if f.request.user == user && Debits(f, e.call)
            then f.row.Some? && f.row.value !in before && after == before + {f.row.value}
            else after == before
  {
    var f, s' := s.flights[e.id], Step(cat, s, e);
    RowSetsGrow(s, s', user);
    if f.request.user == user && Debits(f, e.call) {
      DebitedByItself(cat, start, s, e.id);
      DebitedByItself(cat, start, s', e.id);
    }
  }

  lemma DebitStep(cat: Catalogue, start: Tables, s: System, e: Event, user: UserId)
    requires Accounted(cat, start, s) && NotOverwritten(s, user) && user in s.tables.scores && e.id in s.flights
    ensures var (t', f') := Advance(cat, s.tables, s.flights[e.id], e.call);
            DebitEffect(cat, s.tables, s.flights[e.id], e.call, t', f', user)
    ensures var f := s.flights[e.id];
            Total(cat, DebitedRows(Step(cat, s, e), user)).cost ==
            Total(cat, DebitedRows(s, user)).cost +
            (if f.request.user == user && Debits(f, e.call) then f.phase.offer.cost else 0.0)
  {
    assert FlightScore(cat, start, s, s.flights[e.id]);
    AdvanceDebits(cat, s.tables, s.flights[e.id], e.call, user);
    AccountedStep(cat, start, s, e);
    DebitedAfter(cat, start, s, e, user);
    if s.flights[e.id].request.user == user && Debits(s.flights[e.id], e.call) {
      TotalAdd(cat, DebitedRows(s, user), s.flights[e.id].row.value);
    }
  }

  /** Every purchase of `user` costs something. */
  ghost predicate PricesPositive(cat: Catalogue, s: System, user: UserId) {
    forall id :: id in s.flights && s.flights[id].request.Purchase? && s.flights[id].request.user == user
      ==> CostsSomething(cat, s.flights[id].request.item)
  }

  predicate CostsSomething(cat: Catalogue, item: Item) {
    Find(cat, item).Found? ==> Find(cat, item).offer.cost > 0.0
  }

  /** Until a debit has been lost the stored score is exact and no held score is below it; from
      then on every score of `user`, stored or held, is too high for good. */
  ghost predicate ScoreMargins(cat: Catalogue, start: Tables, s: System, user: UserId, lost: bool)
    requires user in start.scores
  {
    && user in s.tables.scores && StoredScoreMargin(Surplus(cat, start, s, user, s.tables.scores[user]), lost)
    && (forall id :: id in s.flights && s.flights[id].request.user == user && HoldsScore(s.flights[id]) ==>
          HeldScoreMargin(Surplus(cat, start, s, user, s.flights[id].phase.score), lost))
  }

  predicate StoredScoreMargin(surplus: real, lost: bool) { if lost then surplus > 0.0 else surplus == 0.0 }

  predicate HeldScoreMargin(surplus: real, lost: bool) { if lost then surplus > 0.0 else surplus >= 0.0 }

  /** The score a request of `user` held before the call, or has just read, keeps its margin. */
  lemma HeldScoreStep(cat: Catalogue, start: Tables, s: System, e: Event, user: UserId, lost: bool, id: RequestId)
    requires Accounted(cat, start, s) && NotOverwritten(s, user) && PricesPositive(cat, s, user)
    requires user in start.scores && ScoreMargins(cat, start, s, user, lost) && e.id in s.flights && id in s.flights
    requires Step(cat, s, e).flights[id].request.user == user && HoldsScore(Step(cat, s, e).flights[id])
    ensures HeldScoreMargin(Surplus(cat, start, Step(cat, s, e), user, Step(cat, s, e).flights[id].phase.score),
                            lost || StaleDebit(s, e, user))
  {
    DebitStep(cat, start, s, e, user);
    assert Coherent(cat, s.flights[e.id]);
  }

  lemma ScoreMarginsStep(cat: Catalogue, start: Tables, s: System, e: Event, user: UserId, lost: bool)
    requires Accounted(cat, start, s) && NotOverwritten(s, user) && PricesPositive(cat, s, user)
    requires user in start.scores && ScoreMargins(cat, start, s, user, lost)
    ensures ScoreMargins(cat, start, Step(cat, s, e), user, lost || StaleDebit(s, e, user))
  {
    if e.id in s.flights {
      var s' := Step(cat, s, e);
      DebitStep(cat, start, s, e, user);
      forall id | id in s'.flights && s'.flights[id].request.user == user && HoldsScore(s'.flights[id])
        ensures HeldScoreMargin(Surplus(cat, start, s', user, s'.flights[id].phase.score),
                                lost || StaleDebit(s, e, user))
      {
        HeldScoreStep(cat, start, s, e, user, lost, id);
      }
    }
  }

  lemma {:induction false} ScoreMarginsRun(cat: Catalogue, start: Tables, s: System, trace: seq<Event>, user: UserId,
                                           lost: bool)
    requires Accounted(cat, start, s) && NotOverwritten(s, user) && PricesPositive(cat, s, user)
    requires user in start.scores && ScoreMargins(cat, start, s, user, lost)
    ensures ScoreMargins(cat, start, Run(cat, s, trace), user, lost || !NoStaleDebit(cat, s, trace, user))
    decreases |trace|
  {
    if trace != [] {
      AccountedStep(cat, start, s, trace[0]);
      ScoreMarginsStep(cat, start, s, trace[0], user, lost);
      ScoreMarginsRun(cat, start, Step(cat, s, trace[0]), trace[1..], user, lost || StaleDebit(s, trace[0], user));
    }
  }

  lemma {:induction false} FreshDebitsRun(cat: Catalogue, start: Tables, s: System, trace: seq<Event>, user: UserId)
    requires Accounted(cat, start, s) && NotOverwritten(s, user) && user in start.scores && user in s.tables.scores
    requires NoStaleDebit(cat, s, trace, user)
    ensures var s' := Run(cat, s, trace);
            && user in s'.tables.scores
            && Surplus(cat, start, s', user, s'.tables.scores[user]) ==
               Surplus(cat, start, s, user, s.tables.scores[user])
    decreases |trace|
  {
    if trace != [] {
      AccountedStep(cat, start, s, trace[0]);
      if trace[0].id in s.flights {
        DebitStep(cat, start, s, trace[0], user);
      }
      FreshDebitsRun(cat, start, Step(cat, s, trace[0]), trace[1..], user);
    }
  }

  /** Main result on exact scores.  In every interleaving with every failure, the score of a user
      no administrator overwrites plus the prices of the rows whose debits committed is the
      starting score if no debit was stale; and if prices are positive, only then: after one
      stale debit the user keeps too much for ever. */
  lemma ScoreExactExactlyWhen(cat: Catalogue, s: System, trace: seq<Event>, user: UserId)
    requires Initial(s) && OverwritesKnownUsers(s) && NotOverwritten(s, user) && user in s.tables.scores
    ensures user in Run(cat, s, trace).tables.scores
    ensures var s' := Run(cat, s, trace);
            var score, debited := s'.tables.scores[user], Total(cat, DebitedRows(s', user)).cost;
            && (NoStaleDebit(cat, s, trace, user) ==> score + debited == s.tables.scores[user])
            && (PricesPositive(cat, s, user) ==>
                  && (score + debited == s.tables.scores[user] <==> NoStaleDebit(cat, s, trace, user))
                  && score + debited >= s.tables.scores[user])
  {
    AccountedInitially(cat, s);
    AccountedRun(cat, s.tables, s, trace);
    assert DebitedRows(s, user) == {};
    if NoStaleDebit(cat, s, trace, user) {
      FreshDebitsRun(cat, s.tables, s, trace, user);
    } else if PricesPositive(cat, s, user) {
      ScoreMarginsRun(cat, s.tables, s, trace, user, false);
    }
  }

  // ---------------------------------------------------------------- packages

  /** What `counters` lack of the starting package and the committed credits. */
  ghost function Shortfall(cat: Catalogue, start: Tables, s: System, user: UserId, counters: Credit): Credit
    requires user in start.packages
  {
    start.packages[user].Plus(Total(cat, CreditedRows(s, user)).credit).Minus(counters)
  }

  /** A call adds the row of its own credit to the credited rows, and no other. */
  lemma CreditedAfter(cat: Catalogue, start: Tables, s: System, e: Event, user: UserId)
    requires Booked(cat, start, s, e) && NotOverwritten(s, user) && user in s.tables.packages && e.id in s.flights
    ensures var f, before, after := s.flights[e.id], CreditedRows(s, user), CreditedRows(Step(cat, s, e), user);
            if f.request.user == user && Credits(f, e.call)
            then && f.row.Some? && f.row.value !in before && after == before + {f.row.value}
                 && Worth(cat, f.row.value) == f.phase.offer
            else after == before
  {
    var f, s' := s.flights[e.id], Step(cat, s, e);
    AdvancePackages(cat, s.tables, f, e.call, user);
    RowSetsGrow(s, s', user);
    if f.request.user == user && Credits(f, e.call) {
      CreditedByItself(cat, start, s, e.id);
      CreditedByItself(cat, start, s', e.id);
    }
  }

  /** Where a call leaves the package of `user`. */
  lemma CreditStep(cat: Catalogue, start: Tables, s: System, e: Event, user: UserId)
    requires Booked(cat, start, s, e) && PackageSound(cat, start, s, user) && NotOverwritten(s, user)
    requires CreditsFit(cat) && e.id in s.flights
    ensures var f, t' := s.flights[e.id], Step(cat, s, e).tables;
            && user in t'.packages
            && t'.packages[user] == if f.request.user == user && Credits(f, e.call)
                                    then f.phase.counters.Plus(f.phase.offer.credit) else s.tables.packages[user]
  {
    var f := s.flights[e.id];
    AdvancePackages(cat, s.tables, f, e.call, user);
    if f.request.user == user && Credits(f, e.call) {
      CommittedSumIsExact(f.phase.counters, Worth(cat, f.row.value).credit);
    }
  }

  /** Every tariff requested for `user` credits something and takes nothing away. */
  ghost predicate CreditsPositive(cat: Catalogue, s: System, user: UserId) {
    forall id :: id in s.flights && !s.flights[id].request.Overwrite? && s.flights[id].request.user == user
      ==> CreditsSomething(cat, s.flights[id].request.item)
  }

  predicate CreditsSomething(cat: Catalogue, item: Item) {
    Find(cat, item).Found? ==> Find(cat, item).offer.credit.Positive()
  }

  ghost predicate PackageMargins(cat: Catalogue, start: Tables, s: System, user: UserId, lost: bool)
    requires user in start.packages
  {
    && user in s.tables.packages
    && StoredCountersMargin(Shortfall(cat, start, s, user, s.tables.packages[user]), lost)
    && (forall id :: id in s.flights && HoldsCounters(s.flights[id], user) ==>
          HeldCountersMargin(Shortfall(cat, start, s, user, s.flights[id].phase.counters), lost))
  }

  predicate StoredCountersMargin(shortfall: Credit, lost: bool) {
    if lost then shortfall.Positive() else shortfall == NO_CREDIT
  }

  predicate HeldCountersMargin(shortfall: Credit, lost: bool) {
    if lost then shortfall.Positive() else shortfall.AtLeast(0)
  }

  lemma ShortfallAfter(cat: Catalogue, start: Tables, s: System, e: Event, user: UserId, counters: Credit)
    requires Booked(cat, start, s, e) && NotOverwritten(s, user) && user in s.tables.packages && e.id in s.flights
    requires user in start.packages
    ensures var f, before := s.flights[e.id], Shortfall(cat, start, s, user, counters);
            Shortfall(cat, start, Step(cat, s, e), user, counters) ==
            if f.request.user == user && Credits(f, e.call) then before.Plus(f.phase.offer.credit) else before
  {
    CreditedAfter(cat, start, s, e, user);
    if s.flights[e.id].request.user == user && Credits(s.flights[e.id], e.call) {
      TotalAdd(cat, CreditedRows(s, user), s.flights[e.id].row.value);
    }
  }

  lemma ShortfallGrows(shortfall: Credit, credit: Credit, lost: bool)
    requires HeldCountersMargin(shortfall, lost) && credit.Positive()
    ensures HeldCountersMargin(shortfall.Plus(credit), true) && HeldCountersMargin(shortfall.Plus(credit), false)
  {}

  lemma RequestedCreditPositive(cat: Catalogue, s: System, id: RequestId, user: UserId)
    requires id in s.flights && s.flights[id].request.user == user && s.flights[id].phase.WritePackage?
    requires Coherent(cat, s.flights[id]) && CreditsPositive(cat, s, user)
    ensures s.flights[id].phase.offer.credit.Positive()
  {
    assert CreditsSomething(cat, s.flights[id].request.item);
  }

  lemma HeldOrStored(cat: Catalogue, start: Tables, s: System, e: Event, user: UserId, lost: bool, id: RequestId)
    requires Booked(cat, start, s, e) && PackageReadable(s.tables, user) && (ReadsPackage(s, e, user) ==> e.call.ok)
    requires user in start.packages && PackageMargins(cat, start, s, user, lost)
    requires e.id in s.flights && id in s.flights && HoldsCounters(Step(cat, s, e).flights[id], user)
    ensures HeldCountersMargin(Shortfall(cat, start, s, user, Step(cat, s, e).flights[id].phase.counters), lost)
  {
    AdvancePackages(cat, s.tables, s.flights[e.id], e.call, user);
  }

  /** What a request held before the call, or has just read, keeps its margin. */
  lemma HeldCountersStep(cat: Catalogue, start: Tables, s: System, e: Event, user: UserId, lost: bool, id: RequestId)
    requires Booked(cat, start, s, e) && PackageSound(cat, start, s, user) && NotOverwritten(s, user)
    requires CreditsPositive(cat, s, user) && (ReadsPackage(s, e, user) ==> e.call.ok)
    requires user in start.packages && PackageMargins(cat, start, s, user, lost)
    requires e.id in s.flights && id in s.flights && HoldsCounters(Step(cat, s, e).flights[id], user)
    ensures HeldCountersMargin(Shortfall(cat, start, Step(cat, s, e), user, Step(cat, s, e).flights[id].phase.counters),
                               lost || StaleCredit(s, e, user))
  {
    var f, counters := s.flights[e.id], Step(cat, s, e).flights[id].phase.counters;
    HeldOrStored(cat, start, s, e, user, lost, id);
    ShortfallAfter(cat, start, s, e, user, counters);
    if f.request.user == user && Credits(f, e.call) {
      RequestedCreditPositive(cat, s, e.id, user);
      ShortfallGrows(Shortfall(cat, start, s, user, counters), f.phase.offer.credit, lost);
    }
  }

  /** A credit makes what the stored counters lack what its own counters lacked. */
  lemma StoredShortfall(cat: Catalogue, start: Tables, s: System, e: Event, user: UserId)
    requires Booked(cat, start, s, e) && PackageSound(cat, start, s, user) && NotOverwritten(s, user)
    requires CreditsFit(cat) && user in start.packages && e.id in s.flights
    ensures user in Step(cat, s, e).tables.packages
    ensures var f := s.flights[e.id];
            Shortfall(cat, start, Step(cat, s, e), user, Step(cat, s, e).tables.packages[user]) ==
            if f.request.user == user && Credits(f, e.call) then Shortfall(cat, start, s, user, f.phase.counters)
            else Shortfall(cat, start, s, user, s.tables.packages[user])
  {
    CreditStep(cat, start, s, e, user);
    ShortfallAfter(cat, start, s, e, user, Step(cat, s, e).tables.packages[user]);
  }

  lemma StoredCountersStep(cat: Catalogue, start: Tables, s: System, e: Event, user: UserId, lost: bool)
    requires Booked(cat, start, s, e) && PackageSound(cat, start, s, user) && NotOverwritten(s, user)
    requires CreditsFit(cat) && user in start.packages && PackageMargins(cat, start, s, user, lost)
    requires e.id in s.flights
    ensures user in Step(cat, s, e).tables.packages
    ensures StoredCountersMargin(Shortfall(cat, start, Step(cat, s, e), user, Step(cat, s, e).tables.packages[user]),
                                 lost || StaleCredit(s, e, user))
  {
    StoredShortfall(cat, start, s, e, user);
  }

  lemma PackageMarginsStep(cat: Catalogue, start: Tables, s: System, e: Event, user: UserId, lost: bool)
    requires Booked(cat, start, s, e) && PackageSound(cat, start, s, user) && NotOverwritten(s, user)
    requires CreditsFit(cat) && CreditsPositive(cat, s, user) && (ReadsPackage(s, e, user) ==> e.call.ok)
    requires user in start.packages && PackageMargins(cat, start, s, user, lost)
    ensures PackageMargins(cat, start, Step(cat, s, e), user, lost || StaleCredit(s, e, user))
  {
    if e.id in s.flights {
      var s' := Step(cat, s, e);
      StoredCountersStep(cat, start, s, e, user, lost);
      forall id | id in s'.flights && HoldsCounters(s'.flights[id], user)
        ensures HeldCountersMargin(Shortfall(cat, start, s', user, s'.flights[id].phase.counters),
                                   lost || StaleCredit(s, e, user))
      {
        HeldCountersStep(cat, start, s, e, user, lost, id);
      }
    }
  }

  lemma {:induction false} PackageMarginsRun(cat: Catalogue, start: Tables, s: System, trace: seq<Event>,
                                             user: UserId, lost: bool)
    requires Accounted(cat, start, s) && PackageSound(cat, start, s, user) && NotOverwritten(s, user)
    requires CreditsFit(cat) && CreditsPositive(cat, s, user) && ReadsCommit(cat, s, trace, user)
    requires user in start.packages && PackageMargins(cat, start, s, user, lost)
    ensures PackageMargins(cat, start, Run(cat, s, trace), user, lost || !NoStaleCredit(cat, s, trace, user))
    decreases |trace|
  {
    if trace != [] {
      AccountedStep(cat, start, s, trace[0]);
      PackageSoundStep(cat, start, s, trace[0], user);
      PackageMarginsStep(cat, start, s, trace[0], user, lost);
      PackageMarginsRun(cat, start, Step(cat, s, trace[0]), trace[1..], user, lost || StaleCredit(s, trace[0], user));
    }
  }

  lemma FreshCreditStep(cat: Catalogue, start: Tables, s: System, e: Event, user: UserId)
    requires Booked(cat, start, s, e) && PackageSound(cat, start, s, user) && NotOverwritten(s, user)
    requires CreditsFit(cat) && user in start.packages && !StaleCredit(s, e, user)
    ensures var s' := Step(cat, s, e);
            && user in s'.tables.packages
            && Shortfall(cat, start, s', user, s'.tables.packages[user]) ==
               Shortfall(cat, start, s, user, s.tables.packages[user])
  {
    if e.id in s.flights {
      StoredShortfall(cat, start, s, e, user);
    }
  }

  lemma {:induction false} FreshCreditsRun(cat: Catalogue, start: Tables, s: System, trace: seq<Event>, user: UserId)
    requires Accounted(cat, start, s) && PackageSound(cat, start, s, user) && NotOverwritten(s, user)
    requires CreditsFit(cat) && ReadsCommit(cat, s, trace, user) && user in start.packages
    requires NoStaleCredit(cat, s, trace, user)
    ensures var s' := Run(cat, s, trace);
            && user in s'.tables.packages
            && Shortfall(cat, start, s', user, s'.tables.packages[user]) ==
               Shortfall(cat, start, s, user, s.tables.packages[user])
    decreases |trace|
  {
    if trace != [] {
      AccountedStep(cat, start, s, trace[0]);
      PackageSoundStep(cat, start, s, trace[0], user);
      FreshCreditStep(cat, start, s, trace[0], user);
      FreshCreditsRun(cat, start, Step(cat, s, trace[0]), trace[1..], user);
    }
  }

  lemma NothingLacksInitially(cat: Catalogue, s: System, user: UserId)
    requires Opened(s, user)
    ensures Accounted(cat, s.tables, s) && PackageSound(cat, s.tables, s, user)
    ensures PackageMargins(cat, s.tables, s, user, false)
  {
    AccountedInitially(cat, s);
    PackageSoundInitially(cat, s, user);
    assert CreditedRows(s, user) == {};
  }

  /** No shortfall means that the package is the start plus the credits. */
  lemma ShortfallMeaning(cat: Catalogue, start: Tables, s: System, user: UserId, counters: Credit)
    requires user in start.packages
    ensures var exact := start.packages[user].Plus(Total(cat, CreditedRows(s, user)).credit);
            && (Shortfall(cat, start, s, user, counters) == NO_CREDIT <==> counters == exact)
            && (Shortfall(cat, start, s, user, counters).AtLeast(0) <==> counters.AtMost(exact))
  {}

  /** Main result on exact packages, for runs in which the user's package reads commit: the
      package is the starting one plus the credits of the rows whose package writes committed
      if no credit was stale; and if tariffs credit something, only then. */
  lemma PackageExactExactlyWhen(cat: Catalogue, s: System, trace: seq<Event>, user: UserId)
    requires Opened(s, user) && NotOverwritten(s, user) && CreditsFit(cat) && ReadsCommit(cat, s, trace, user)
    ensures user in Run(cat, s, trace).tables.packages
    ensures var package := Run(cat, s, trace).tables.packages[user];
            var exact := s.tables.packages[user].Plus(Total(cat, CreditedRows(Run(cat, s, trace), user)).credit);
            && (NoStaleCredit(cat, s, trace, user) ==> package == exact)
            && (CreditsPositive(cat, s, user) ==>
                  && (package == exact <==> NoStaleCredit(cat, s, trace, user))
                  && package.AtMost(exact))
  {
    NothingLacksInitially(cat, s, user);
    PackageSoundRun(cat, s.tables, s, trace, user);
    var s' := Run(cat, s, trace);
    ShortfallMeaning(cat, s.tables, s', user, s'.tables.packages[user]);
    if NoStaleCredit(cat, s, trace, user) {
      FreshCreditsRun(cat, s.tables, s, trace, user);
    } else if CreditsPositive(cat, s, user) {
      PackageMarginsRun(cat, s.tables, s, trace, user, false);
    }
  }

  // ---------------------------------------------------------------- requests that do not overlap

  /** The request has started and has not answered yet. */
  predicate Active(f: Flight) {
    !f.phase.FindOffer? && !f.phase.FindUser? && !f.phase.Done?
  }

  ghost predicate OneInFlight(s: System, user: UserId) {
    forall i, j :: i in s.flights && j in s.flights && i != j &&
                   s.flights[i].request.user == s.flights[j].request.user == user
      ==> !(Active(s.flights[i]) && Active(s.flights[j]))
  }

  /** No two requests of `user` are ever active together; those of others may overlap anyhow. */
  ghost predicate Calm(cat: Catalogue, s: System, trace: seq<Event>, user: UserId)
    decreases |trace|
  {
    OneInFlight(s, user) && (trace == [] || Calm(cat, Step(cat, s, trace[0]), trace[1..], user))
  }

  ghost predicate HeldScoresCurrent(s: System, user: UserId) {
    && user in s.tables.scores
    && forall id :: id in s.flights && s.flights[id].request.user == user && HoldsScore(s.flights[id]) ==>
         s.flights[id].phase.score == s.tables.scores[user]
  }

  ghost predicate HeldCountersCurrent(s: System, user: UserId) {
    && PackageReadable(s.tables, user)
    && forall id :: id in s.flights && HoldsCounters(s.flights[id], user) ==>
         s.flights[id].phase.counters == s.tables.packages[user]
  }

  /** A debit is made by an active request, so no other one of the user holds a score. */
  lemma CalmDebitStep(cat: Catalogue, start: Tables, s: System, e: Event, user: UserId)
    requires Accounted(cat, start, s) && NotOverwritten(s, user) && HeldScoresCurrent(s, user)
    requires OneInFlight(s, user)
    ensures !StaleDebit(s, e, user) && HeldScoresCurrent(Step(cat, s, e), user)
  {
    if e.id in s.flights {
      DebitStep(cat, start, s, e, user);
    }
  }

  lemma {:induction false} CalmDebitsAreFresh(cat: Catalogue, start: Tables, s: System, trace: seq<Event>, user: UserId)
    requires Accounted(cat, start, s) && NotOverwritten(s, user) && HeldScoresCurrent(s, user)
    requires Calm(cat, s, trace, user)
    ensures NoStaleDebit(cat, s, trace, user)
    decreases |trace|
  {
    if trace != [] {
      AccountedStep(cat, start, s, trace[0]);
      CalmDebitStep(cat, start, s, trace[0], user);
      CalmDebitsAreFresh(cat, start, Step(cat, s, trace[0]), trace[1..], user);
    }
  }

  lemma CalmCreditStep(cat: Catalogue, start: Tables, s: System, e: Event, user: UserId)
    requires Accounted(cat, start, s) && NotOverwritten(s, user) && HeldCountersCurrent(s, user)
    requires OneInFlight(s, user) && (ReadsPackage(s, e, user) ==> e.call.ok)
    ensures !StaleCredit(s, e, user) && HeldCountersCurrent(Step(cat, s, e), user)
  {
    if e.id in s.flights {
      AdvancePackages(cat, s.tables, s.flights[e.id], e.call, user);
      AdvanceReadable(cat, s.tables, s.flights[e.id], e.call, user);
    }
  }

  lemma {:induction false} CalmCreditsAreFresh(cat: Catalogue, start: Tables, s: System, trace: seq<Event>,
                                               user: UserId)
    requires Accounted(cat, start, s) && NotOverwritten(s, user) && HeldCountersCurrent(s, user)
    requires Calm(cat, s, trace, user) && ReadsCommit(cat, s, trace, user)
    ensures NoStaleCredit(cat, s, trace, user)
    decreases |trace|
  {
    if trace != [] {
      AccountedStep(cat, start, s, trace[0]);
      CalmCreditStep(cat, start, s, trace[0], user);
      CalmCreditsAreFresh(cat, start, Step(cat, s, trace[0]), trace[1..], user);
    }
  }

  /** If the requests of a user never overlap, that user's score is exact, whatever fails; and
      so is the package, unless a package read of the user's fails. */
  lemma CalmRunsAreExact(cat: Catalogue, s: System, trace: seq<Event>, user: UserId)
    requires Initial(s) && OverwritesKnownUsers(s) && NotOverwritten(s, user) && user in s.tables.scores
    requires Calm(cat, s, trace, user)
    ensures var s' := Run(cat, s, trace);
            && user in s'.tables.scores
            && s'.tables.scores[user] + Total(cat, DebitedRows(s', user)).cost == s.tables.scores[user]
    ensures Opened(s, user) && CreditsFit(cat) && ReadsCommit(cat, s, trace, user) ==>
              var s' := Run(cat, s, trace);
              && user in s'.tables.packages
              && s'.tables.packages[user] == s.tables.packages[user].Plus(Total(cat, CreditedRows(s', user)).credit)
  {
    AccountedInitially(cat, s);
    CalmDebitsAreFresh(cat, s.tables, s, trace, user);
    ScoreExactExactlyWhen(cat, s, trace, user);
    if Opened(s, user) && CreditsFit(cat) && ReadsCommit(cat, s, trace, user) {
      CalmCreditsAreFresh(cat, s.tables, s, trace, user);
      PackageExactExactlyWhen(cat, s, trace, user);
    }
  }

  // ---------------------------------------------------------------- runs without failures

  predicate AllCommit(trace: seq<Event>) {
    forall k :: 0 <= k < |trace| ==> trace[k].call.ok
  }

  /** Rows `user` paid for: every row a purchase inserted. */
  ghost function PaidRows(s: System, user: UserId): set<Row> {
    set id | id in s.flights && s.flights[id].request.Purchase? && s.flights[id].request.user == user &&
             s.flights[id].row.Some? :: s.flights[id].row.value
  }

  /** Rows of `user` whose request answered success. */
  ghost function AnsweredRows(s: System, user: UserId): set<Row> {
    set id | id in s.flights && !s.flights[id].request.Overwrite? && s.flights[id].request.user == user &&
             s.flights[id].row.Some? && s.flights[id].phase == Done(Success) :: s.flights[id].row.value
  }

  ghost predicate Settled(f: Flight) {
    && (f.request.Purchase? && f.row.Some? && !f.phase.WriteScore? ==> f.scoreWritten)
    && (f.row.Some? && f.phase.Done? ==> (f.packageWritten <==> f.phase == Done(Success)))
  }

  lemma AdvanceSettles(cat: Catalogue, t: Tables, f: Flight, c: Call)
    requires Coherent(cat, f) && Settled(f) && c.ok
    ensures Settled(Advance(cat, t, f, c).1)
  {}

  lemma {:induction false} SettledRun(cat: Catalogue, start: Tables, s: System, trace: seq<Event>)
    requires Accounted(cat, start, s) && AllCommit(trace)
    requires forall id :: id in s.flights ==> Settled(s.flights[id])
    ensures forall id :: id in Run(cat, s, trace).flights ==> Settled(Run(cat, s, trace).flights[id])
    decreases |trace|
  {
    if trace != [] {
      var e := trace[0];
      AccountedStep(cat, start, s, e);
      if e.id in s.flights {
        AdvanceSettles(cat, s.tables, s.flights[e.id], e.call);
      }
      SettledRun(cat, start, Step(cat, s, e), trace[1..]);
    }
  }

  lemma SettledRows(cat: Catalogue, s: System, user: UserId)
    requires forall id :: id in s.flights ==> Coherent(cat, s.flights[id]) && Settled(s.flights[id])
    requires forall id :: id in s.flights && s.flights[id].request.user == user ==> !Active(s.flights[id])
    ensures DebitedRows(s, user) == PaidRows(s, user) && CreditedRows(s, user) == AnsweredRows(s, user)
  {}

  lemma {:induction false} CommittedReads(cat: Catalogue, s: System, trace: seq<Event>, user: UserId)
    requires AllCommit(trace)
    ensures ReadsCommit(cat, s, trace, user)
    decreases |trace|
  {
    if trace != [] {
      CommittedReads(cat, Step(cat, s, trace[0]), trace[1..], user);
    }
  }

  /** Conservation without failures: once a user's requests have answered, the score plus the
      prices of all rows the user paid for is the starting score, and the package is the
      starting one plus the credits of all rows, paid or granted, that answered success.
      Grants leave the score alone, since only purchases are in `PaidRows`. */
  lemma FailureFreeConservation(cat: Catalogue, s: System, trace: seq<Event>, user: UserId)
    requires Opened(s, user) && NotOverwritten(s, user) && user in s.tables.scores && CreditsFit(cat)
    requires Calm(cat, s, trace, user) && AllCommit(trace)
    requires var s' := Run(cat, s, trace);
             forall id :: id in s'.flights && s'.flights[id].request.user == user ==> !Active(s'.flights[id])
    ensures var s' := Run(cat, s, trace);
            && user in s'.tables.scores && user in s'.tables.packages
            && s'.tables.scores[user] + Total(cat, PaidRows(s', user)).cost == s.tables.scores[user]
            && s'.tables.packages[user] == s.tables.packages[user].Plus(Total(cat, AnsweredRows(s', user)).credit)
  {
    CommittedReads(cat, s, trace, user);
    CalmRunsAreExact(cat, s, trace, user);
    AccountedInitially(cat, s);
    AccountedRun(cat, s.tables, s, trace);
    SettledRun(cat, s.tables, s, trace);
    SettledRows(cat, Run(cat, s, trace), user);
  }

  // ---------------------------------------------------------------- calmness is needed

  function Both(t: Tables, f: Flight, g: Flight): System { System(t, map[0 := f, 1 := g]) }

  /** One call of each of two requests. */
  function BothAdvance(cat: Catalogue, t: Tables, f: Flight, g: Flight, c: Call, d: Call): System {
    var (t1, f1) := Advance(cat, t, f, c);
    var (t2, g1) := Advance(cat, t1, g, d);
    Both(t2, f1, g1)
  }

  function Lockstep(c: Call, d: Call, n: nat): seq<Event> {
    if n == 0 then [] else [Event(0, c), Event(1, d)] + Lockstep(c, d, n - 1)
  }

  lemma RunBoth(cat: Catalogue, t: Tables, f: Flight, g: Flight, c: Call, d: Call, n: nat)
    requires n > 0
    ensures Run(cat, Both(t, f, g), Lockstep(c, d, n)) ==
            Run(cat, BothAdvance(cat, t, f, g, c, d), Lockstep(c, d, n - 1))
  {
    var s, rest := Both(t, f, g), Lockstep(c, d, n - 1);
    var trace := [Event(0, c), Event(1, d)] + rest;
    var s1 := Step(cat, s, Event(0, c));
    assert trace[1..] == [Event(1, d)] + rest && ([Event(1, d)] + rest)[1..] == rest;
    assert Run(cat, s, trace) == Run(cat, s1, [Event(1, d)] + rest) == Run(cat, Step(cat, s1, Event(1, d)), rest);
    var (t1, f1) := Advance(cat, t, f, c);
    var (t2, g1) := Advance(cat, t1, g, d);
    assert s.flights[0 := f1][1 := g1] == map[0 := f1, 1 := g1];
  }

  /** Two purchases of the same item by the same user, phase by phase. */
  lemma TwoPurchases(cat: Catalogue, t: Tables, f: Flight, c: Call, d: Call)
    requires f.request.Purchase? && Find(cat, f.request.item).Found? && c.ok && d.ok && c.now != d.now
    requires f.request.user in t.scores && Find(cat, f.request.item).offer.cost <= t.scores[f.request.user]
    requires Row(f.request.user, f.request.item, c.now) !in t.rows
    requires Row(f.request.user, f.request.item, d.now) !in t.rows
    ensures var (user, item) := (f.request.user, f.request.item);
            var offer, score := Find(cat, item).offer, t.scores[user];
            var r0, r1 := Row(user, item, c.now), Row(user, item, d.now);
            var read, insert := f.(phase := ReadUser(offer)), f.(phase := InsertRow(offer, score));
            var write := f.(phase := WriteScore(offer, score));
            var t2 := t.(rows := t.rows + {r0} + {r1});
            && (f.phase.FindOffer? ==> BothAdvance(cat, t, f, f, c, d) == Both(t, read, read))
            && BothAdvance(cat, t, read, read, c, d) == Both(t, insert, insert)
            && BothAdvance(cat, t, insert, insert, c, d) == Both(t2, write.(row := Some(r0)), write.(row := Some(r1)))
            && BothAdvance(cat, t2, write.(row := Some(r0)), write.(row := Some(r1)), c, d).tables ==
               t2.(scores := t.scores[user := score - offer.cost])
  {}

  lemma TotalOfTwo(cat: Catalogue, none: set<Row>, one: set<Row>, two: set<Row>, r0: Row, r1: Row)
    requires none == {} && r0 !in none && one == none + {r0} && r1 !in one && two == one + {r1}
    ensures Total(cat, two).cost == Worth(cat, r0).cost + Worth(cat, r1).cost
  {
    TotalAdd(cat, none, r0);
    TotalAdd(cat, one, r1);
  }

  /** Where two purchases in lockstep leave the tables. */
  lemma OverlapRun(cat: Catalogue, t: Tables, user: UserId, item: Item, c: Call, d: Call)
    requires Find(cat, item).Found? && c.ok && d.ok && c.now != d.now
    requires user in t.scores && Find(cat, item).offer.cost <= t.scores[user]
    requires Row(user, item, c.now) !in t.rows && Row(user, item, d.now) !in t.rows
    ensures var f := Launch(Purchase(user, item));
            var t' := Run(cat, Both(t, f, f), Lockstep(c, d, 4)).tables;
            && t'.rows == t.rows + {Row(user, item, c.now)} + {Row(user, item, d.now)}
            && t'.scores == t.scores[user := t.scores[user] - Find(cat, item).offer.cost]
  {
    var f := Launch(Purchase(user, item));
    var offer, score := Find(cat, item).offer, t.scores[user];
    var r0, r1 := Row(user, item, c.now), Row(user, item, d.now);
    var read, insert := f.(phase := ReadUser(offer)), f.(phase := InsertRow(offer, score));
    var write := f.(phase := WriteScore(offer, score));
    var t2 := t.(rows := t.rows + {r0} + {r1});
    TwoPurchases(cat, t, f, c, d);
    RunBoth(cat, t, f, f, c, d, 4);
    RunBoth(cat, t, read, read, c, d, 3);
    RunBoth(cat, t, insert, insert, c, d, 2);
    RunBoth(cat, t2, write.(row := Some(r0)), write.(row := Some(r1)), c, d, 1);
    assert Run(cat, Both(t, f, f), Lockstep(c, d, 4)) ==
           BothAdvance(cat, t2, write.(row := Some(r0)), write.(row := Some(r1)), c, d);
  }

  /** Two overlapping purchases of one user can read the same score.  Although every call
      commits, the user then owns two new rows and has paid for one.  There is such a run for
      every affordable item of positive price, so `FailureFreeConservation` needs calm runs. */
  lemma OverlapLosesADebit(cat: Catalogue, t: Tables, user: UserId, item: Item, c: Call, d: Call)
    requires Find(cat, item).Found? && Find(cat, item).offer.cost > 0.0 && c.ok && d.ok && c.now != d.now
    requires user in t.scores && Find(cat, item).offer.cost <= t.scores[user]
    requires Row(user, item, c.now) !in t.rows && Row(user, item, d.now) !in t.rows
    ensures var f := Launch(Purchase(user, item));
            var t' := Run(cat, Both(t, f, f), Lockstep(c, d, 4)).tables;
            && t'.rows == t.rows + {Row(user, item, c.now), Row(user, item, d.now)}
            && t'.scores == t.scores[user := t.scores[user] - Find(cat, item).offer.cost]
            && t'.scores[user] + Total(cat, t'.rows - t.rows).cost > t.scores[user]
  {
    var r0, r1 := Row(user, item, c.now), Row(user, item, d.now);
    var rows := t.rows + {r0} + {r1};
    OverlapRun(cat, t, user, item, c, d);
    assert rows == t.rows + {r0, r1} && rows - t.rows == {r0, r1};
    TotalOfTwo(cat, {}, {r0}, rows - t.rows, r0, r1);
  }
}

/** What every interleaving of billing requests keeps.

    Requests lose each other's updates: two purchases of one user may read the same score,
    and the later write wins.  What survives is provenance.  Every stored score is a starting
    score (or one set by an administrator) less the prices of a set of that user's own,
    distinct, inserted rows; every stored package is a starting package (or one set by an
    administrator) plus the credits of such a set. */
module Billing {
  import opened Base
  import opened Operator

  /** Rows of purchases of `user` whose debit has committed. */
  ghost function DebitedRows(s: System, user: UserId): set<Row> {
    set id | id in s.flights && s.flights[id].request.Purchase? && s.flights[id].request.user == user &&
             s.flights[id].scoreWritten && s.flights[id].row.Some? :: s.flights[id].row.value
  }

  /** Rows of purchases and grants of `user` whose package write has committed. */
  ghost function CreditedRows(s: System, user: UserId): set<Row> {
    set id | id in s.flights && !s.flights[id].request.Overwrite? && s.flights[id].request.user == user &&
             s.flights[id].packageWritten && s.flights[id].row.Some? :: s.flights[id].row.value
  }

  /** Rows that requests of the run have inserted. */
  ghost function InsertedRows(s: System): set<Row> {
    set id | id in s.flights && s.flights[id].row.Some? :: s.flights[id].row.value
  }

  // ---------------------------------------------------------------- rows and requests

  /** The program counter, the request and what it has committed fit together. */
  ghost predicate Coherent(cat: Catalogue, f: Flight) {
    && (f.request.Overwrite? ==> f.row.None?)
    && (f.row.Some? ==> f.row.value.user == f.request.user && f.row.value.item == f.request.item)
    && match f.phase
       case FindOffer => Unwritten(f)
       case ReadUser(offer) => Unwritten(f) && Find(cat, f.request.item) == Found(offer)
       case InsertRow(offer, score) =>
         && Unwritten(f) && Find(cat, f.request.item) == Found(offer)
         && (f.request.Purchase? ==> offer.cost <= score)
       case WriteScore(offer, score) =>
         && f.request.Purchase? && f.row.Some? && !f.scoreWritten && !f.packageWritten
         && Find(cat, f.request.item) == Found(offer) && offer.cost <= score
       case ReadPackage(offer) => Connected(f) && Find(cat, f.request.item) == Found(offer)
       case WritePackage(offer, _) => Connected(f) && Find(cat, f.request.item) == Found(offer)
       case FindUser => f.request.Overwrite? && !f.scoreWritten && !f.packageWritten
       case SetScore(target) => f.request.Overwrite? && !f.scoreWritten && !f.packageWritten
       case SetPackage => f.request.Overwrite? && f.scoreWritten && !f.packageWritten
       case Done(_) => !f.request.Overwrite? && (f.scoreWritten || f.packageWritten) ==> f.row.Some?
  }

  ghost predicate Unwritten(f: Flight) {
    !f.request.Overwrite? && f.row.None? && !f.scoreWritten && !f.packageWritten
  }

  ghost predicate Connected(f: Flight) {
    !f.request.Overwrite? && f.row.Some? && !f.packageWritten
  }

  /** The connection tables hold the starting rows and one row for every request that
      inserted; no two requests share a row. */
  ghost predicate Ledger(cat: Catalogue, start: Tables, s: System) {
    && (forall id :: id in s.flights ==> Coherent(cat, s.flights[id]))
    && s.tables.rows == start.rows + InsertedRows(s)
    && start.rows !! InsertedRows(s)
    && (forall i, j :: i in s.flights && j in s.flights && i != j && s.flights[i].row.Some? && s.flights[j].row.Some?
          ==> s.flights[i].row != s.flights[j].row)
    && s.tables.scores.Keys == start.scores.Keys
    && s.tables.packages.Keys == start.packages.Keys
  }

  lemma AdvanceCoherent(cat: Catalogue, t: Tables, f: Flight, c: Call)
    requires Coherent(cat, f)
    ensures Coherent(cat, Advance(cat, t, f, c).1)
  {}

  /** How one call changes the rows, whatever the phase. */
  ghost predicate RowEffect(t: Tables, f: Flight, t': Tables, f': Flight) {
    && f'.request == f.request
    && t'.scores.Keys == t.scores.Keys && t'.packages.Keys == t.packages.Keys
    && (f.scoreWritten ==> f'.scoreWritten) && (f.packageWritten ==> f'.packageWritten)
    && if f'.row == f.row then t'.rows == t.rows
       else f.row.None? && f'.row.Some? && f'.row.value !in t.rows && t'.rows == t.rows + {f'.row.value}
  }

  lemma AdvanceRows(cat: Catalogue, t: Tables, f: Flight, c: Call)
    requires Coherent(cat, f)
    ensures var (t', f') := Advance(cat, t, f, c); RowEffect(t, f, t', f')
  {}

  lemma InsertedAfter(s: System, id: RequestId, t': Tables, f': Flight)
    requires id in s.flights && (f'.row == s.flights[id].row || s.flights[id].row.None?)
    ensures InsertedRows(System(t', s.flights[id := f'])) ==
            InsertedRows(s) + (if f'.row.Some? then {f'.row.value} else {})
  {
    var s' := System(t', s.flights[id := f']);
    forall row | row in InsertedRows(s) ensures row in InsertedRows(s') {
      var i :| i in s.flights && s.flights[i].row.Some? && row == s.flights[i].row.value;
      assert s'.flights[i].row == s.flights[i].row;
    }
    if f'.row.Some? {
      assert s'.flights[id].row == f'.row;
    }
  }

  lemma LedgerAfter(cat: Catalogue, start: Tables, s: System, id: RequestId, t': Tables, f': Flight)
    requires Ledger(cat, start, s) && id in s.flights
    requires RowEffect(s.tables, s.flights[id], t', f') && Coherent(cat, f')
    ensures Ledger(cat, start, System(t', s.flights[id := f']))
  {
    var f := s.flights[id];
    InsertedAfter(s, id, t', f');
    forall i | i in s.flights && s.flights[i].row.Some? ensures s.flights[i].row.value in s.tables.rows {
      assert s.flights[i].row.value in InsertedRows(s);
    }
  }

  lemma LedgerInitially(cat: Catalogue, s: System)
    requires Initial(s)
    ensures Ledger(cat, s.tables, s)
  {}

  /** No request disappears, and nothing one has committed is forgotten. */
  ghost predicate Extends(s: System, s': System) {
    && s.flights.Keys == s'.flights.Keys
    && forall id :: id in s.flights ==>
      && s'.flights[id].request == s.flights[id].request
      && (s.flights[id].row.Some? ==> s'.flights[id].row == s.flights[id].row)
      && (s.flights[id].scoreWritten ==> s'.flights[id].scoreWritten)
      && (s.flights[id].packageWritten ==> s'.flights[id].packageWritten)
  }

  lemma RowSetsGrow(s: System, s': System, user: UserId)
    requires Extends(s, s')
    ensures DebitedRows(s, user) <= DebitedRows(s', user)
    ensures CreditedRows(s, user) <= CreditedRows(s', user)
  {}

  // ---------------------------------------------------------------- scores

  /** A score `user` had at the start, or one an administrator has stored since. */
  ghost predicate BaseScore(start: Tables, s: System, user: UserId, base: real) {
    || (user in start.scores && start.scores[user] == base)
    || exists id :: id in s.flights && StoresScore(s.flights[id], user, base)
  }

  ghost predicate StoresScore(f: Flight, user: UserId, base: real) {
    f.request.Overwrite? && f.request.user == user && f.request.score == base && f.scoreWritten
  }

  ghost predicate ScoreFrom(cat: Catalogue, start: Tables, s: System, user: UserId, score: real, base: real,
                            charged: set<Row>) {
    && BaseScore(start, s, user, base)
    && charged <= DebitedRows(s, user)
    && score == base - Total(cat, charged).cost
  }

  ghost predicate ScoreExplained(cat: Catalogue, start: Tables, s: System, user: UserId, score: real) {
    exists base: real, charged: set<Row> :: ScoreFrom(cat, start, s, user, score, base, charged)
  }

  ghost predicate OverwritesKnownUsers(s: System) {
    forall id :: id in s.flights && s.flights[id].request.Overwrite? ==>
      s.flights[id].request.user in s.tables.scores
  }

  /** The score a purchase holds between reading it and writing it back. */
  ghost predicate HoldsScore(f: Flight) {
    f.request.Purchase? && (f.phase.InsertRow? || f.phase.WriteScore?)
  }

  ghost predicate FlightScore(cat: Catalogue, start: Tables, s: System, f: Flight) {
    && (HoldsScore(f) && f.request.user in s.tables.scores ==>
          ScoreExplained(cat, start, s, f.request.user, f.phase.score))
    && (f.phase.SetScore? ==> f.phase.target == f.request.user)
  }

  ghost predicate ScoresExplained(cat: Catalogue, start: Tables, s: System) {
    && (forall u :: u in s.tables.scores ==> ScoreExplained(cat, start, s, u, s.tables.scores[u]))
    && (forall id :: id in s.flights ==> FlightScore(cat, start, s, s.flights[id]))
  }

  /** How one call changes scores: not at all, by a debit from the held score, or by an
      administrator; and a newly held score is the stored one. */
  ghost predicate ScoreEffect(cat: Catalogue, t: Tables, f: Flight, t': Tables, f': Flight) {
    var user := f.request.user;
    && (|| t'.scores == t.scores
        || (&& f.phase.WriteScore? && f.request.Purchase? && f'.scoreWritten && !f.scoreWritten
            && f.row.Some? && f'.row == f.row && Worth(cat, f.row.value) == f.phase.offer
            && user in t.scores && t'.scores == t.scores[user := f.phase.score - f.phase.offer.cost])
        || (&& f.phase.SetScore? && f.request.Overwrite? && f'.scoreWritten
            && f.phase.target in t.scores && t'.scores == t.scores[f.phase.target := f.request.score]))
    && (HoldsScore(f') && user in t.scores ==>
          || (HoldsScore(f) && f'.phase.score == f.phase.score)
          || f'.phase.score == t.scores[user])
    && (f'.phase.SetScore? && !f.phase.SetScore? && f.request.Overwrite? && user in t.scores ==>
          f'.phase.target == user)
    && (f'.phase.SetScore? && f.phase.SetScore? ==> f'.phase == f.phase)
    && (f'.phase.SetScore? ==> f.request.Overwrite? || f.phase.SetScore?)
  }

  lemma AdvanceScores(cat: Catalogue, t: Tables, f: Flight, c: Call)
    requires Coherent(cat, f)
    ensures var (t', f') := Advance(cat, t, f, c); ScoreEffect(cat, t, f, t', f')
  {}

  lemma BaseScoreStays(start: Tables, s: System, s': System, user: UserId, base: real)
    requires Extends(s, s') && BaseScore(start, s, user, base)
    ensures BaseScore(start, s', user, base)
  {}

  lemma ScoreStaysExplained(cat: Catalogue, start: Tables, s: System, s': System, user: UserId, score: real)
    requires Extends(s, s') && ScoreExplained(cat, start, s, user, score)
    ensures ScoreExplained(cat, start, s', user, score)
  {
    var base, charged :| ScoreFrom(cat, start, s, user, score, base, charged);
    RowSetsGrow(s, s', user);
    BaseScoreStays(start, s, s', user, base);
    assert ScoreFrom(cat, start, s', user, score, base, charged);
  }

  /** The row of a purchase counts as debited exactly from its own debit on. */
  lemma DebitedByItself(cat: Catalogue, start: Tables, s: System, id: RequestId)
    requires Ledger(cat, start, s)
    requires id in s.flights && s.flights[id].row.Some? && s.flights[id].request.Purchase?
    ensures s.flights[id].row.value in DebitedRows(s, s.flights[id].request.user) <==> s.flights[id].scoreWritten
  {}

  /** A debit charges one more row, which was not charged before. */
  lemma DebitExplained(cat: Catalogue, start: Tables, s: System, s': System, user: UserId, row: Row, score: real)
    requires Extends(s, s') && row !in DebitedRows(s, user) && row in DebitedRows(s', user)
    requires ScoreExplained(cat, start, s, user, score)
    ensures ScoreExplained(cat, start, s', user, score - Worth(cat, row).cost)
  {
    var base, charged :| ScoreFrom(cat, start, s, user, score, base, charged);
    RowSetsGrow(s, s', user);
    TotalAdd(cat, charged, row);
    BaseScoreStays(start, s, s', user, base);
    assert ScoreFrom(cat, start, s', user, score - Worth(cat, row).cost, base, charged + {row});
  }

  lemma OverwriteExplained(cat: Catalogue, start: Tables, s: System, id: RequestId)
    requires id in s.flights && s.flights[id].request.Overwrite? && s.flights[id].scoreWritten
    ensures ScoreExplained(cat, start, s, s.flights[id].request.user, s.flights[id].request.score)
  {
    var r := s.flights[id].request;
    assert StoresScore(s.flights[id], r.user, r.score);
    assert ScoreFrom(cat, start, s, r.user, r.score, r.score, {});
  }

  lemma StoredScoresAfter(cat: Catalogue, start: Tables, s: System, id: RequestId, t': Tables, f': Flight, u: UserId)
    requires Ledger(cat, start, s) && ScoresExplained(cat, start, s) && id in s.flights
    requires ScoreEffect(cat, s.tables, s.flights[id], t', f')
    requires Extends(s, System(t', s.flights[id := f']))
    requires u in t'.scores && t'.scores.Keys == s.tables.scores.Keys
    ensures ScoreExplained(cat, start, System(t', s.flights[id := f']), u, t'.scores[u])
  {
    var s' := System(t', s.flights[id := f']);
    var f := s.flights[id];
    assert FlightScore(cat, start, s, f);
    if t'.scores[u] == s.tables.scores[u] {
      ScoreStaysExplained(cat, start, s, s', u, s.tables.scores[u]);
    } else if f.phase.WriteScore? {
      DebitedByItself(cat, start, s, id);
      assert s'.flights[id].row.value in DebitedRows(s', u);
      DebitExplained(cat, start, s, s', u, f.row.value, f.phase.score);
    } else {
      OverwriteExplained(cat, start, s', id);
    }
  }

  lemma ScoresAfter(cat: Catalogue, start: Tables, s: System, id: RequestId, t': Tables, f': Flight)
    requires Ledger(cat, start, s) && ScoresExplained(cat, start, s) && OverwritesKnownUsers(s) && id in s.flights
    requires ScoreEffect(cat, s.tables, s.flights[id], t', f')
    requires Extends(s, System(t', s.flights[id := f'])) && t'.scores.Keys == s.tables.scores.Keys
    ensures ScoresExplained(cat, start, System(t', s.flights[id := f']))
  {
    var s' := System(t', s.flights[id := f']);
    forall u | u in t'.scores ensures ScoreExplained(cat, start, s', u, t'.scores[u]) {
      StoredScoresAfter(cat, start, s, id, t', f', u);
    }
    forall i | i in s'.flights ensures FlightScore(cat, start, s', s'.flights[i]) {
      var g := s'.flights[i];
      assert FlightScore(cat, start, s, s.flights[i]);
      if HoldsScore(g) && g.request.user in t'.scores {
        ScoreStaysExplained(cat, start, s, s', g.request.user, g.phase.score);
      }
    }
  }

  /** Everything about rows and scores that one call keeps. */
  ghost predicate Accounted(cat: Catalogue, start: Tables, s: System) {
    Ledger(cat, start, s) && OverwritesKnownUsers(s) && ScoresExplained(cat, start, s)
  }

  lemma AccountedStep(cat: Catalogue, start: Tables, s: System, e: Event)
    requires Accounted(cat, start, s)
    ensures Accounted(cat, start, Step(cat, s, e)) && Extends(s, Step(cat, s, e))
  {
    if e.id in s.flights {
      var f := s.flights[e.id];
      var (t', f') := Advance(cat, s.tables, f, e.call);
      AdvanceCoherent(cat, s.tables, f, e.call);
      AdvanceRows(cat, s.tables, f, e.call);
      AdvanceScores(cat, s.tables, f, e.call);
      LedgerAfter(cat, start, s, e.id, t', f');
      ScoresAfter(cat, start, s, e.id, t', f');
    }
  }

  lemma {:induction false} AccountedRun(cat: Catalogue, start: Tables, s: System, trace: seq<Event>)
    requires Accounted(cat, start, s)
    ensures Accounted(cat, start, Run(cat, s, trace)) && Extends(s, Run(cat, s, trace))
    decreases |trace|
  {
    if trace != [] {
      AccountedStep(cat, start, s, trace[0]);
      AccountedRun(cat, start, Step(cat, s, trace[0]), trace[1..]);
    }
  }

  lemma AccountedInitially(cat: Catalogue, s: System)
    requires Initial(s) && OverwritesKnownUsers(s)
    ensures Accounted(cat, s.tables, s)
  {
    LedgerInitially(cat, s);
    forall u | u in s.tables.scores ensures ScoreExplained(cat, s.tables, s, u, s.tables.scores[u]) {
      assert ScoreFrom(cat, s.tables, s, u, s.tables.scores[u], s.tables.scores[u], {});
    }
  }

  /** Rows of `user` that the run has added to the connection tables. */
  ghost function NewRows(start: Tables, s: System, user: UserId): set<Row> {
    set row | row in s.tables.rows && row !in start.rows && row.user == user
  }

  lemma DebitedRowsAreNew(cat: Catalogue, start: Tables, s: System, user: UserId)
    requires Ledger(cat, start, s)
    ensures DebitedRows(s, user) <= NewRows(start, s, user)
    ensures CreditedRows(s, user) <= NewRows(start, s, user)
  {}

  /** Main result on scores.  After any interleaving with any failures, each stored score is
      a starting or administrator-set score less the prices of a set of new rows of that very
      user whose debits committed: nobody pays for another user's row, none is charged twice,
      and no amount has another origin. */
  lemma EveryScoreExplained(cat: Catalogue, s: System, trace: seq<Event>, user: UserId)
    requires Initial(s) && OverwritesKnownUsers(s) && user in s.tables.scores
    ensures var s' := Run(cat, s, trace);
            && user in s'.tables.scores
            && ScoreExplained(cat, s.tables, s', user, s'.tables.scores[user])
            && DebitedRows(s', user) <= NewRows(s.tables, s', user)
  {
    AccountedInitially(cat, s);
    AccountedRun(cat, s.tables, s, trace);
    DebitedRowsAreNew(cat, s.tables, Run(cat, s, trace), user);
  }

  lemma NoOverchargeFrom(cat: Catalogue, start: Tables, s: System, user: UserId)
    requires Ledger(cat, start, s) && NotOverwritten(s, user) && CostsNonNegative(cat)
    requires user in s.tables.scores && ScoreExplained(cat, start, s, user, s.tables.scores[user])
    ensures start.scores[user] - Total(cat, NewRows(start, s, user)).cost
            <= start.scores[user] - Total(cat, DebitedRows(s, user)).cost
            <= s.tables.scores[user] <= start.scores[user]
  {
    var base, charged :| ScoreFrom(cat, start, s, user, s.tables.scores[user], base, charged);
    DebitedRowsAreNew(cat, start, s, user);
    TotalCostMonotone(cat, DebitedRows(s, user), NewRows(start, s, user));
    TotalCostMonotone(cat, charged, DebitedRows(s, user));
    TotalCostMonotone(cat, {}, charged);
  }

  /** No overcharge: a user no administrator overwrites loses at most the prices of the rows
      that were added, in fact of those whose debit committed, and never gains. */
  lemma NoOvercharge(cat: Catalogue, s: System, trace: seq<Event>, user: UserId)
    requires Initial(s) && OverwritesKnownUsers(s) && NotOverwritten(s, user) && CostsNonNegative(cat)
    requires user in s.tables.scores
    ensures var s' := Run(cat, s, trace);
            && user in s'.tables.scores
            && s.tables.scores[user] - Total(cat, NewRows(s.tables, s', user)).cost
               <= s.tables.scores[user] - Total(cat, DebitedRows(s', user)).cost
               <= s'.tables.scores[user] <= s.tables.scores[user]
  {
    AccountedInitially(cat, s);
    AccountedRun(cat, s.tables, s, trace);
    EveryScoreExplained(cat, s, trace, user);
    NoOverchargeFrom(cat, s.tables, Run(cat, s, trace), user);
  }

  // ---------------------------------------------------------------- foreign keys

  /** Every connection row names a stored user and a tariff of the catalogue. */
  ghost predicate KeysKnown(cat: Catalogue, t: Tables) {
    forall row :: row in t.rows ==>
      row.user in t.scores && (if row.item.Rate? then row.item.id in cat.rates else row.item.id in cat.services)
  }

  lemma AdvanceKeys(cat: Catalogue, t: Tables, f: Flight, c: Call)
    requires KeysKnown(cat, t)
    ensures KeysKnown(cat, Advance(cat, t, f, c).0)
  {}

  /** No run makes a connection row dangle. */
  lemma {:induction false} KeysStayKnown(cat: Catalogue, s: System, trace: seq<Event>)
    requires KeysKnown(cat, s.tables)
    ensures KeysKnown(cat, Run(cat, s, trace).tables)
    decreases |trace|
  {
    if trace != [] {
      if trace[0].id in s.flights {
        AdvanceKeys(cat, s.tables, s.flights[trace[0].id], trace[0].call);
      }
      KeysStayKnown(cat, Step(cat, s, trace[0]), trace[1..]);
    }
  }

  /** No connection row is ever removed. */
  lemma {:induction false} RowsStay(cat: Catalogue, s: System, trace: seq<Event>)
    ensures s.tables.rows <= Run(cat, s, trace).tables.rows
    decreases |trace|
  {
    if trace != [] {
      RowsStay(cat, Step(cat, s, trace[0]), trace[1..]);
    }
  }

  // ---------------------------------------------------------------- scores stay non-negative

  ghost predicate Solvent(cat: Catalogue, s: System) {
    && (forall u :: u in s.tables.scores ==> s.tables.scores[u] >= 0.0)
    && (forall id :: id in s.flights ==> Coherent(cat, s.flights[id]))
    && (forall id :: id in s.flights && s.flights[id].request.Overwrite? ==> s.flights[id].request.score >= 0.0)
  }

  lemma AdvanceSolvent(cat: Catalogue, t: Tables, f: Flight, c: Call)
    requires Coherent(cat, f) && (f.request.Overwrite? ==> f.request.score >= 0.0)
    requires forall u :: u in t.scores ==> t.scores[u] >= 0.0
    ensures forall u :: u in Advance(cat, t, f, c).0.scores ==> Advance(cat, t, f, c).0.scores[u] >= 0.0
    ensures Coherent(cat, Advance(cat, t, f, c).1) && Advance(cat, t, f, c).1.request == f.request
  {}

  lemma {:induction false} SolventRun(cat: Catalogue, s: System, trace: seq<Event>)
    requires Solvent(cat, s)
    ensures Solvent(cat, Run(cat, s, trace))
    decreases |trace|
  {
    if trace != [] {
      if trace[0].id in s.flights {
        AdvanceSolvent(cat, s.tables, s.flights[trace[0].id], trace[0].call);
      }
      SolventRun(cat, Step(cat, s, trace[0]), trace[1..]);
    }
  }

  /** A score is never negative if it starts so and administrators store no negative one:
      every debit is checked against the same reading it is taken from.  Prices may even be
      negative, and users named by requests need not exist. */
  lemma ScoreNeverNegative(cat: Catalogue, s: System, trace: seq<Event>)
    requires Initial(s) && (forall u :: u in s.tables.scores ==> s.tables.scores[u] >= 0.0)
    requires forall id :: id in s.flights && s.flights[id].request.Overwrite? ==> s.flights[id].request.score >= 0.0
    ensures var t := Run(cat, s, trace).tables; forall u :: u in t.scores ==> t.scores[u] >= 0.0
  {
    SolventRun(cat, s, trace);
  }
}

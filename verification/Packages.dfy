/** What every interleaving keeps of a user's package counters, provided the package reads of
    that user's requests commit.  (A failed read is ignored by the server, which then adds to
    uninitialised counters; `Atomicity.CreditNeedsTheRead` shows that the proviso cannot be
    dropped.)  What happens to the requests of other users does not matter. */
module Packages {
  import opened Base
  import opened Operator
  import opened Billing

  predicate ReadsPackage(s: System, e: Event, user: UserId) {
    e.id in s.flights && s.flights[e.id].request.user == user && s.flights[e.id].phase.ReadPackage?
  }

  /** Every package read of a request of `user` commits. */
  predicate ReadsCommit(cat: Catalogue, s: System, trace: seq<Event>, user: UserId)
    decreases |trace|
  {
    trace == [] ||
    ((ReadsPackage(s, trace[0], user) ==> trace[0].call.ok) &&
     ReadsCommit(cat, Step(cat, s, trace[0]), trace[1..], user))
  }

  /** Counts of a tariff are `integer` columns. */
  ghost predicate CreditsFit(cat: Catalogue) {
    forall row: Row :: Worth(cat, row).credit.FitsColumn()
  }

  /** Administrators send unsigned counters. */
  ghost predicate OverwritesUnsigned(s: System, user: UserId) {
    forall id :: id in s.flights && s.flights[id].request.Overwrite? && s.flights[id].request.user == user
      ==> s.flights[id].request.counters.AtLeast(0)
  }

  // ---------------------------------------------------------------- counters stay readable

  lemma AdvanceReadable(cat: Catalogue, t: Tables, f: Flight, c: Call, user: UserId)
    requires PackageReadable(t, user)
    requires f.request.Overwrite? && f.request.user == user ==> f.request.counters.AtLeast(0)
    ensures PackageReadable(Advance(cat, t, f, c).0, user) && Advance(cat, t, f, c).1.request == f.request
  {}

  /** A package that can be read can be read for ever, whatever fails: no counter is ever
      negative, whether it is a sum of uninitialised counters or set by an administrator. */
  lemma {:induction false} PackageStaysReadable(cat: Catalogue, s: System, trace: seq<Event>, user: UserId)
    requires PackageReadable(s.tables, user) && OverwritesUnsigned(s, user)
    ensures PackageReadable(Run(cat, s, trace).tables, user) && OverwritesUnsigned(Run(cat, s, trace), user)
    decreases |trace|
  {
    if trace != [] {
      if trace[0].id in s.flights {
        AdvanceReadable(cat, s.tables, s.flights[trace[0].id], trace[0].call, user);
      }
      PackageStaysReadable(cat, Step(cat, s, trace[0]), trace[1..], user);
    }
  }

  // ---------------------------------------------------------------- where counters come from

  /** A package `user` had at the start, or one an administrator has stored since. */
  ghost predicate BasePackage(start: Tables, s: System, user: UserId, base: Credit) {
    || (user in start.packages && start.packages[user] == base)
    || exists id :: id in s.flights && StoresPackage(s.flights[id], user, base)
  }

  ghost predicate StoresPackage(f: Flight, user: UserId, base: Credit) {
    f.request.Overwrite? && f.request.user == user && f.request.counters == base && f.packageWritten
  }

  ghost predicate PackageFrom(cat: Catalogue, start: Tables, s: System, user: UserId, counters: Credit,
                              base: Credit, credited: set<Row>) {
    && BasePackage(start, s, user, base)
    && credited <= CreditedRows(s, user)
    && counters == base.Plus(Total(cat, credited).credit)
  }

  ghost predicate PackageExplained(cat: Catalogue, start: Tables, s: System, user: UserId, counters: Credit) {
    exists base: Credit, credited: set<Row> :: PackageFrom(cat, start, s, user, counters, base, credited)
  }

  /** Counters that are explained, readable and fit their columns. */
  ghost predicate Sound(cat: Catalogue, start: Tables, s: System, user: UserId, counters: Credit) {
    counters.AtLeast(0) && counters.FitsColumn() && PackageExplained(cat, start, s, user, counters)
  }

  ghost predicate HoldsCounters(f: Flight, user: UserId) {
    f.request.user == user && f.phase.WritePackage?
  }

  /** Stored and held counters of `user` are sound. */
  ghost predicate PackageSound(cat: Catalogue, start: Tables, s: System, user: UserId) {
    && user in s.tables.packages && Sound(cat, start, s, user, s.tables.packages[user])
    && (forall id :: id in s.flights && HoldsCounters(s.flights[id], user)
          ==> Sound(cat, start, s, user, s.flights[id].phase.counters))
    && OverwritesUnsigned(s, user)
  }

  /** A write that commits has not wrapped around: an unsigned sum of a stored counter and an
      `integer` count either equals the exact sum or is too large for the column. */
  lemma CommittedSumIsExact(counters: Credit, credit: Credit)
    requires counters.AtLeast(0) && counters.FitsColumn() && credit.FitsColumn()
    requires counters.PlusUnsigned(credit).FitsColumn()
    ensures counters.PlusUnsigned(credit) == counters.Plus(credit)
  {}

  /** A package write of a payment that commits. */
  predicate Credits(f: Flight, c: Call) {
    && f.phase.WritePackage? && c.ok && !f.request.Overwrite?
    && f.phase.counters.PlusUnsigned(f.phase.offer.credit).FitsColumn()
  }

  /** How one call changes the package of `user`: by a credit to the held counters, by an
      administrator, or not at all; and newly held counters are the stored ones. */
  ghost predicate PackageEffect(cat: Catalogue, t: Tables, f: Flight, c: Call, t': Tables, f': Flight, user: UserId)
    requires user in t.packages
  {
    var own := f.request.user == user;
    && user in t'.packages && f'.request == f.request
    && (if own && Credits(f, c) then
          && f.row.Some? && f'.row == f.row && !f.packageWritten && f'.packageWritten
          && f.phase.offer == Worth(cat, f.row.value)
          && t'.packages[user] == f.phase.counters.PlusUnsigned(f.phase.offer.credit)
        else if own && f.request.Overwrite? && f'.packageWritten && !f.packageWritten then
          f.request.counters.FitsColumn() && t'.packages[user] == f.request.counters
        else t'.packages[user] == t.packages[user] && (own ==> f'.packageWritten == f.packageWritten))
    && (own && f'.phase.WritePackage? ==>
          || f' == f
          || (f.phase.ReadPackage? && (c.ok && PackageReadable(t, user) ==> f'.phase.counters == t.packages[user])))
  }

  lemma AdvancePackages(cat: Catalogue, t: Tables, f: Flight, c: Call, user: UserId)
    requires Coherent(cat, f) && user in t.packages
    ensures var (t', f') := Advance(cat, t, f, c); PackageEffect(cat, t, f, c, t', f', user)
  {}

  lemma BasePackageStays(start: Tables, s: System, s': System, user: UserId, base: Credit)
    requires Extends(s, s') && BasePackage(start, s, user, base)
    ensures BasePackage(start, s', user, base)
  {}

  lemma PackageStaysExplained(cat: Catalogue, start: Tables, s: System, s': System, user: UserId, counters: Credit)
    requires Extends(s, s') && PackageExplained(cat, start, s, user, counters)
    ensures PackageExplained(cat, start, s', user, counters)
  {
    var base, credited :| PackageFrom(cat, start, s, user, counters, base, credited);
    RowSetsGrow(s, s', user);
    BasePackageStays(start, s, s', user, base);
    assert PackageFrom(cat, start, s', user, counters, base, credited);
  }

  lemma CreditedByItself(cat: Catalogue, start: Tables, s: System, id: RequestId)
    requires Ledger(cat, start, s)
    requires id in s.flights && s.flights[id].row.Some? && !s.flights[id].request.Overwrite?
    ensures s.flights[id].row.value in CreditedRows(s, s.flights[id].request.user) <==> s.flights[id].packageWritten
  {}

  /** A package write credits one more row, which was not credited before. */
  lemma CreditExplained(cat: Catalogue, start: Tables, s: System, s': System, user: UserId, row: Row, counters: Credit)
    requires Extends(s, s') && row !in CreditedRows(s, user) && row in CreditedRows(s', user)
    requires PackageExplained(cat, start, s, user, counters)
    ensures PackageExplained(cat, start, s', user, counters.Plus(Worth(cat, row).credit))
  {
    var base, credited :| PackageFrom(cat, start, s, user, counters, base, credited);
    RowSetsGrow(s, s', user);
    TotalAdd(cat, credited, row);
    BasePackageStays(start, s, s', user, base);
    assert PackageFrom(cat, start, s', user, counters.Plus(Worth(cat, row).credit), base, credited + {row});
  }

  lemma AdminPackageExplained(cat: Catalogue, start: Tables, s: System, id: RequestId)
    requires id in s.flights && s.flights[id].request.Overwrite? && s.flights[id].packageWritten
    ensures PackageExplained(cat, start, s, s.flights[id].request.user, s.flights[id].request.counters)
  {
    var r := s.flights[id].request;
    assert StoresPackage(s.flights[id], r.user, r.counters);
    assert PackageFrom(cat, start, s, r.user, r.counters, r.counters, {});
  }

  lemma StoredPackageAfter(cat: Catalogue, start: Tables, s: System, e: Event, user: UserId)
    requires Accounted(cat, start, s) && PackageSound(cat, start, s, user) && CreditsFit(cat) && e.id in s.flights
    ensures var t' := Step(cat, s, e).tables;
            user in t'.packages && Sound(cat, start, Step(cat, s, e), user, t'.packages[user])
  {
    var f, s' := s.flights[e.id], Step(cat, s, e);
    AccountedStep(cat, start, s, e);
    AdvancePackages(cat, s.tables, f, e.call, user);
    if f.request.user == user && Credits(f, e.call) {
      CommittedSumIsExact(f.phase.counters, Worth(cat, f.row.value).credit);
      CreditedByItself(cat, start, s, e.id);
      CreditedByItself(cat, start, s', e.id);
      CreditExplained(cat, start, s, s', user, f.row.value, f.phase.counters);
    } else if s'.tables.packages[user] == s.tables.packages[user] {
      PackageStaysExplained(cat, start, s, s', user, s.tables.packages[user]);
    } else {
      AdminPackageExplained(cat, start, s', e.id);
    }
  }

  lemma PackageSoundStep(cat: Catalogue, start: Tables, s: System, e: Event, user: UserId)
    requires Accounted(cat, start, s) && PackageSound(cat, start, s, user) && CreditsFit(cat)
    requires ReadsPackage(s, e, user) ==> e.call.ok
    ensures PackageSound(cat, start, Step(cat, s, e), user)
  {
    if e.id in s.flights {
      var s' := Step(cat, s, e);
      AccountedStep(cat, start, s, e);
      AdvancePackages(cat, s.tables, s.flights[e.id], e.call, user);
      StoredPackageAfter(cat, start, s, e, user);
      forall id | id in s'.flights && HoldsCounters(s'.flights[id], user)
        ensures Sound(cat, start, s', user, s'.flights[id].phase.counters)
      {
        var counters := s'.flights[id].phase.counters;
        assert Sound(cat, start, s, user, counters);
        PackageStaysExplained(cat, start, s, s', user, counters);
      }
    }
  }

  lemma {:induction false} PackageSoundRun(cat: Catalogue, start: Tables, s: System, trace: seq<Event>, user: UserId)
    requires Accounted(cat, start, s) && PackageSound(cat, start, s, user) && CreditsFit(cat)
    requires ReadsCommit(cat, s, trace, user)
    ensures PackageSound(cat, start, Run(cat, s, trace), user)
    decreases |trace|
  {
    if trace != [] {
      AccountedStep(cat, start, s, trace[0]);
      PackageSoundStep(cat, start, s, trace[0], user);
      PackageSoundRun(cat, start, Step(cat, s, trace[0]), trace[1..], user);
    }
  }

  /** Before the first call, `user` has a package of counters that fit their columns, as every
      package a registration creates does. */
  ghost predicate Opened(s: System, user: UserId) {
    && Initial(s) && OverwritesKnownUsers(s) && OverwritesUnsigned(s, user)
    && PackageReadable(s.tables, user) && s.tables.packages[user].FitsColumn()
  }

  lemma PackageSoundInitially(cat: Catalogue, s: System, user: UserId)
    requires Opened(s, user)
    ensures PackageSound(cat, s.tables, s, user)
  {
    var counters := s.tables.packages[user];
    assert PackageFrom(cat, s.tables, s, user, counters, counters, {});
  }

  /** Main result on packages, the counterpart of `Billing.EveryScoreExplained`: each stored
      package is a starting or administrator-set one plus the credits of a set of new rows of
      that very user whose package writes committed. */
  lemma EveryPackageExplained(cat: Catalogue, s: System, trace: seq<Event>, user: UserId)
    requires Opened(s, user) && CreditsFit(cat) && ReadsCommit(cat, s, trace, user)
    ensures var s' := Run(cat, s, trace);
            && user in s'.tables.packages
            && PackageExplained(cat, s.tables, s', user, s'.tables.packages[user])
            && CreditedRows(s', user) <= NewRows(s.tables, s', user)
  {
    AccountedInitially(cat, s);
    PackageSoundInitially(cat, s, user);
    AccountedRun(cat, s.tables, s, trace);
    PackageSoundRun(cat, s.tables, s, trace, user);
    DebitedRowsAreNew(cat, s.tables, Run(cat, s, trace), user);
  }

  /** No over-credit: for a user no administrator overwrites, each counter lies between its
      start and its start plus the credits of the rows whose package write committed. */
  lemma NoOvercredit(cat: Catalogue, s: System, trace: seq<Event>, user: UserId)
    requires Opened(s, user) && NotOverwritten(s, user) && CreditsFit(cat) && CreditsNonNegative(cat)
    requires ReadsCommit(cat, s, trace, user)
    ensures var s' := Run(cat, s, trace);
            && user in s'.tables.packages
            && s.tables.packages[user].AtMost(s'.tables.packages[user])
            && s'.tables.packages[user].AtMost(s.tables.packages[user].Plus(Total(cat, CreditedRows(s', user)).credit))
  {
    var s' := Run(cat, s, trace);
    AccountedInitially(cat, s);
    AccountedRun(cat, s.tables, s, trace);
    EveryPackageExplained(cat, s, trace, user);
    var base, credited :| PackageFrom(cat, s.tables, s', user, s'.tables.packages[user], base, credited);
    TotalCreditMonotone(cat, credited, CreditedRows(s', user));
    TotalCreditMonotone(cat, {}, credited);
  }

  // ---------------------------------------------------------------- services and sms

  /** Adding services to a set of rows adds nothing to its sms. */
  lemma {:induction false} ServicesAddNoSms(cat: Catalogue, part: set<Row>, rows: set<Row>)
    requires part <= rows && forall row :: row in rows - part ==> row.item.Service?
    ensures Total(cat, part).credit.sms == Total(cat, rows).credit.sms
    decreases |rows - part|
  {
    if rows - part == {} {
      assert part == rows;
    } else {
      var row :| row in rows - part;
      assert rows - (part + {row}) < rows - part;
      ServicesAddNoSms(cat, part + {row}, rows);
      TotalAdd(cat, part, row);
    }
  }

  /** Whatever sms count a service is stored with, no run in which a user only gets services
      moves that user's sms counter, lost updates and failed writes included. */
  lemma ServicesNeverMoveSms(cat: Catalogue, s: System, trace: seq<Event>, user: UserId)
    requires Opened(s, user) && CreditsFit(cat) && ReadsCommit(cat, s, trace, user)
    requires forall id :: id in s.flights && s.flights[id].request.user == user ==>
               !s.flights[id].request.Overwrite? && s.flights[id].request.item.Service?
    ensures var s' := Run(cat, s, trace);
            user in s'.tables.packages && s'.tables.packages[user].sms == s.tables.packages[user].sms
  {
    var s' := Run(cat, s, trace);
    AccountedInitially(cat, s);
    AccountedRun(cat, s.tables, s, trace);
    EveryPackageExplained(cat, s, trace, user);
    var base, credited :| PackageFrom(cat, s.tables, s', user, s'.tables.packages[user], base, credited);
    ServicesAddNoSms(cat, {}, credited);
  }
}

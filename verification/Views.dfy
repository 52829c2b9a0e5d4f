/** The aggregate queries over the connection history.

    A SELECT promises a set of answer rows, and an order only where it says ORDER BY.  Each
    query is therefore a predicate on answers, taken clause by clause from its text; whatever
    answer the database picks, the code that reads it must be right. */
module Views {
  import opened Base
  import opened Operator

  const DAY := 86400 * SECOND
  /** Life times are printed with three digits before they become an interval. */
  const MAX_DAYS := 999

  // ---------------------------------------------------------------- the current rate

  datatype RateDate = RateDate(rate: nat, date: Time)

  predicate RateRowOf(row: Row, user: UserId) { row.user == user && row.item.Rate? }

  /** SELECT MAX(date), rate_id WHERE user_id GROUP BY rate_id ORDER BY the maximum, descending. */
  ghost predicate UserRateAnswer(rows: set<Row>, user: UserId, answer: seq<RateDate>) {
    && (forall i, j :: 0 <= i < j < |answer| ==> answer[i].rate != answer[j].rate && answer[i].date >= answer[j].date)
    && (forall k :: 0 <= k < |answer| ==> GroupMaximum(rows, user, answer[k]))
    && (forall row :: row in rows && RateRowOf(row, user) ==> Listed(answer, row.item.id))
  }

  ghost predicate GroupMaximum(rows: set<Row>, user: UserId, group: RateDate) {
    && Row(user, Rate(group.rate), group.date) in rows
    && forall row :: row in rows && row.user == user && row.item == Rate(group.rate) ==> row.date <= group.date
  }

  ghost predicate Listed(answer: seq<RateDate>, rate: nat) {
    exists k :: 0 <= k < |answer| && answer[k].rate == rate
  }

  /** The last connection of a user to any rate. */
  ghost predicate Latest(rows: set<Row>, user: UserId, last: RateDate) {
    && Row(user, Rate(last.rate), last.date) in rows
    && forall row :: row in rows && RateRowOf(row, user) ==> row.date <= last.date
  }

  /** The first answer row is the user's latest connection; there is none exactly if the user
      has no connections. */
  lemma FirstIsLatest(rows: set<Row>, user: UserId, answer: seq<RateDate>)
    requires UserRateAnswer(rows, user, answer)
    ensures answer == [] <==> forall row :: row in rows ==> !RateRowOf(row, user)
    ensures answer != [] ==> Latest(rows, user, answer[0])
  {}

  /** After a connection later than all others of the user, that rate is reported. */
  lemma NewestRateIsReported(rows: set<Row>, user: UserId, rate: nat, now: Time, answer: seq<RateDate>)
    requires forall row :: row in rows && RateRowOf(row, user) ==> row.date < now
    requires UserRateAnswer(rows + {Row(user, Rate(rate), now)}, user, answer)
    ensures answer != [] && answer[0] == RateDate(rate, now)
  {}

  lemma {:induction false} LatestRowExists(rows: set<Row>) returns (last: Row)
    requires rows != {}
    ensures last in rows && forall row :: row in rows ==> row.date <= last.date
    decreases |rows|
  {
    var row :| row in rows;
    if rows == {row} {
      last := row;
    } else {
      assert rows - {row} != {};
      last := LatestRowExists(rows - {row});
      last := if last.date < row.date then row else last;
    }
  }

  /** The group of the latest connection goes in front of the answer for the other rates. */
  lemma AnswerInFront(rows: set<Row>, user: UserId, last: Row, group: set<Row>, others: seq<RateDate>)
    requires last in rows && RateRowOf(last, user)
    requires forall row :: row in rows && RateRowOf(row, user) ==> row.date <= last.date
    requires group == set row | row in rows && row.user == user && row.item == last.item
    requires UserRateAnswer(rows - group, user, others)
    ensures UserRateAnswer(rows, user, [RateDate(last.item.id, last.date)] + others)
  {
    var answer := [RateDate(last.item.id, last.date)] + others;
    assert GroupMaximum(rows, user, answer[0]);
    forall k | 0 <= k < |others|
      ensures GroupMaximum(rows, user, others[k]) && others[k].date <= last.date && others[k].rate != last.item.id
    {
      assert GroupMaximum(rows - group, user, others[k]);
      var top := Row(user, Rate(others[k].rate), others[k].date);
      assert top in rows && RateRowOf(top, user);
    }
    forall row | row in rows && RateRowOf(row, user) ensures Listed(answer, row.item.id) {
      if row.item == last.item {
        assert answer[0].rate == row.item.id;
      } else {
        assert Listed(others, row.item.id);
        var k :| 0 <= k < |others| && others[k].rate == row.item.id;
        assert answer[k + 1].rate == row.item.id;
      }
    }
  }

  /** The query has an answer for every history. */
  lemma {:induction false} UserRateAnswerExists(rows: set<Row>, user: UserId) returns (answer: seq<RateDate>)
    ensures UserRateAnswer(rows, user, answer)
    decreases |rows|
  {
    var mine := set row | row in rows && RateRowOf(row, user);
    if mine == {} {
      answer := [];
      forall row | row in rows ensures !RateRowOf(row, user) {
        assert row !in mine;
      }
    } else {
      var last := LatestRowExists(mine);
      var group := set row | row in rows && row.user == user && row.item == last.item;
      assert last in group && rows - group < rows;
      answer := UserRateAnswerExists(rows - group, user);
      AnswerInFront(rows, user, last, group, answer);
      answer := [RateDate(last.item.id, last.date)] + answer;
    }
  }

  // ---------------------------------------------------------------- active services

  /** NOW() BETWEEN the connection and its end, for the row's own service. */
  predicate ActiveAt(cat: Catalogue, row: Row, now: Time) {
    row.item.Service? && row.item.id in cat.services &&
    row.date <= now <= row.date + DAY * cat.services[row.item.id].liveTime
  }

  predicate Printable(cat: Catalogue) {
    forall id :: id in cat.services ==> 0 <= cat.services[id].liveTime <= MAX_DAYS
  }

  datatype Joined = Joined(service: nat, row: Row)

  /** services INNER JOIN user_connected_service ON the id, WHERE user and window: every
      matching pair of a service and a connection, each once. */
  ghost predicate UserServicesAnswer(cat: Catalogue, rows: set<Row>, user: UserId, now: Time, answer: seq<Joined>) {
    && (forall i, j :: 0 <= i < j < |answer| ==> answer[i] != answer[j])
    && (forall p :: p in answer <==>
          p.service in cat.services && p.row in rows && p.row.item == Service(p.service) && p.row.user == user &&
          p.row.date <= now <= p.row.date + DAY * cat.services[p.service].liveTime)
  }

  ghost function ActiveRows(cat: Catalogue, rows: set<Row>, user: UserId, now: Time): set<Row> {
    set row | row in rows && row.user == user && ActiveAt(cat, row, now)
  }

  lemma {:induction false} DistinctRows(answer: seq<Joined>, rows: set<Row>)
    requires forall i, j :: 0 <= i < j < |answer| ==> answer[i].row != answer[j].row
    requires forall row :: row in rows <==> exists k :: 0 <= k < |answer| && answer[k].row == row
    ensures |answer| == |rows|
    decreases |answer|
  {
    if answer == [] {
      assert rows == {};
    } else {
      var n := |answer| - 1;
      var rest := rows - {answer[n].row};
      forall row ensures row in rest <==> exists k :: 0 <= k < |answer[..n]| && answer[..n][k].row == row {
        if row in rest {
          var k :| 0 <= k < |answer| && answer[k].row == row;
          assert answer[..n][k].row == row;
        }
      }
      DistinctRows(answer[..n], rest);
    }
  }

  /** The join yields exactly one entry for every connection that has not expired. */
  lemma OneEntryPerActiveRow(cat: Catalogue, rows: set<Row>, user: UserId, now: Time, answer: seq<Joined>)
    requires UserServicesAnswer(cat, rows, user, now, answer)
    ensures |answer| == |ActiveRows(cat, rows, user, now)|
    ensures forall row :: row in ActiveRows(cat, rows, user, now) <==>
                          exists k :: 0 <= k < |answer| && answer[k].row == row
    ensures forall i, j :: 0 <= i < j < |answer| ==> answer[i].row != answer[j].row
  {
    var active := ActiveRows(cat, rows, user, now);
    forall k | 0 <= k < |answer| ensures answer[k].row in active && answer[k].row.item == Service(answer[k].service) {
      assert answer[k] in answer;
    }
    forall row | row in active ensures exists k :: 0 <= k < |answer| && answer[k].row == row {
      assert Joined(row.item.id, row) in answer;
    }
    DistinctRows(answer, active);
  }

  /** An expired service never comes back: what a later query lists was listed before or has
      been bought since. */
  lemma ExpiredStaysOut(cat: Catalogue, rows: set<Row>, rows': set<Row>, user: UserId, now: Time, later: Time,
                        answer: seq<Joined>, answer': seq<Joined>)
    requires rows <= rows' && now <= later && forall row :: row in rows ==> row.date <= now
    requires UserServicesAnswer(cat, rows, user, now, answer) && UserServicesAnswer(cat, rows', user, later, answer')
    ensures forall p :: p in answer' ==> p in answer || p.row in rows' - rows
  {}

  /** A service bought now is listed from now on for its life time of days, to the microsecond. */
  lemma BoughtServiceIsListed(cat: Catalogue, rows: set<Row>, user: UserId, id: nat, now: Time, later: Time,
                              answer: seq<Joined>)
    requires id in cat.services
    requires UserServicesAnswer(cat, rows + {Row(user, Service(id), now)}, user, later, answer)
    ensures (exists k :: 0 <= k < |answer| && answer[k] == Joined(id, Row(user, Service(id), now))) <==>
            0 <= later - now <= 86_400_000_000 * cat.services[id].liveTime
  {
    var bought := Joined(id, Row(user, Service(id), now));
    assert bought in answer <==> exists k :: 0 <= k < |answer| && answer[k] == bought;
  }

  // ---------------------------------------------------------------- statistics

  datatype Group = Group(count: nat, month: int, item: Item)
  datatype Calendar = Calendar(month: Time -> int, year: Time -> int)
  datatype Table = RateTable | ServiceTable

  predicate InTable(row: Row, table: Table) { row.item.Rate? <==> table.RateTable? }

  /** WHERE date_part('year', date) = date_part('year', NOW()). */
  ghost function ThisYear(rows: set<Row>, table: Table, cal: Calendar, now: Time): set<Row> {
    set row | row in rows && InTable(row, table) && cal.year(row.date) == cal.year(now)
  }

  ghost function Members(rows: set<Row>, cal: Calendar, month: int, item: Item): set<Row> {
    set row | row in rows && cal.month(row.date) == month && row.item == item
  }

  /** COUNT ... GROUP BY month, item over the given rows. */
  ghost predicate GroupCounts(rows: set<Row>, cal: Calendar, answer: seq<Group>) {
    && (forall i, j :: 0 <= i < j < |answer| ==> answer[i].month != answer[j].month || answer[i].item != answer[j].item)
    && (forall k :: 0 <= k < |answer| ==> answer[k].count == |Members(rows, cal, answer[k].month, answer[k].item)| > 0)
    && (forall row :: row in rows ==> Grouped(answer, cal.month(row.date), row.item))
  }

  ghost predicate Grouped(answer: seq<Group>, month: int, item: Item) {
    exists k :: 0 <= k < |answer| && answer[k].month == month && answer[k].item == item
  }

  /** The answer the statistics query may give. */
  ghost predicate StatisticsAnswer(rows: set<Row>, table: Table, cal: Calendar, now: Time, answer: seq<Group>) {
    GroupCounts(ThisYear(rows, table, cal, now), cal, answer)
  }

  function SumCounts(answer: seq<Group>): nat {
    if answer == [] then 0 else answer[0].count + SumCounts(answer[1..])
  }

  lemma RemainingGroups(rows: set<Row>, cal: Calendar, answer: seq<Group>)
    requires GroupCounts(rows, cal, answer) && answer != []
    ensures GroupCounts(rows - Members(rows, cal, answer[0].month, answer[0].item), cal, answer[1..])
  {
    var first, rest := answer[0], answer[1..];
    var left := rows - Members(rows, cal, first.month, first.item);
    forall k | 0 <= k < |rest| ensures rest[k].count == |Members(left, cal, rest[k].month, rest[k].item)| > 0 {
      assert rest[k] == answer[k + 1];
      assert Members(left, cal, rest[k].month, rest[k].item) == Members(rows, cal, rest[k].month, rest[k].item);
    }
    forall row | row in left ensures Grouped(rest, cal.month(row.date), row.item) {
      var k :| 0 <= k < |answer| && answer[k].month == cal.month(row.date) && answer[k].item == row.item;
      assert k != 0 && rest[k - 1] == answer[k];
    }
  }

  /** Grouping loses and duplicates nothing: the counts add up to the rows. */
  lemma {:induction false} CountsAddUp(rows: set<Row>, cal: Calendar, answer: seq<Group>)
    requires GroupCounts(rows, cal, answer)
    ensures SumCounts(answer) == |rows|
    decreases |answer|
  {
    if answer == [] {
      assert forall row :: row in rows ==> Grouped(answer, cal.month(row.date), row.item);
      assert rows == {};
    } else {
      var members := Members(rows, cal, answer[0].month, answer[0].item);
      RemainingGroups(rows, cal, answer);
      CountsAddUp(rows - members, cal, answer[1..]);
      assert members <= rows && |rows - members| == |rows| - |members|;
    }
  }

  /** The query has an answer for every history. */
  lemma {:induction false} GroupCountsExist(rows: set<Row>, cal: Calendar) returns (answer: seq<Group>)
    ensures GroupCounts(rows, cal, answer)
    decreases |rows|
  {
    if rows == {} {
      answer := [];
    } else {
      var row :| row in rows;
      var month, item := cal.month(row.date), row.item;
      var members := Members(rows, cal, month, item);
      assert row in members && rows - members < rows;
      var others := GroupCountsExist(rows - members, cal);
      answer := [Group(|members|, month, item)] + others;
      forall k | 0 <= k < |others|
        ensures others[k].month != month || others[k].item != item
        ensures others[k].count == |Members(rows, cal, others[k].month, others[k].item)|
      {
        var inner := Members(rows - members, cal, others[k].month, others[k].item);
        var some :| some in inner;
        assert some !in members;
        assert inner == Members(rows, cal, others[k].month, others[k].item);
      }
      forall r | r in rows ensures Grouped(answer, cal.month(r.date), r.item) {
        if r in members {
          assert answer[0].month == cal.month(r.date) && answer[0].item == r.item;
        } else {
          assert Grouped(others, cal.month(r.date), r.item);
          var k :| 0 <= k < |others| && others[k].month == cal.month(r.date) && others[k].item == r.item;
          assert answer[k + 1] == others[k];
        }
      }
    }
  }

  /** The answer gives `n` connections of the tariff in the month, none meaning no group. */
  ghost predicate Counts(answer: seq<Group>, month: int, item: Item, n: nat) {
    if n == 0 then !Grouped(answer, month, item)
    else exists k :: 0 <= k < |answer| && answer[k] == Group(n, month, item)
  }

  lemma CountsMembers(rows: set<Row>, cal: Calendar, answer: seq<Group>, month: int, item: Item, n: nat)
    requires GroupCounts(rows, cal, answer)
    ensures Counts(answer, month, item, n) <==> n == |Members(rows, cal, month, item)|
  {
    var members := Members(rows, cal, month, item);
    if k :| 0 <= k < |answer| && answer[k].month == month && answer[k].item == item {
      assert answer[k] == Group(|members|, month, item);
    } else {
      forall row | row in rows ensures cal.month(row.date) != month || row.item != item {
        assert Grouped(answer, cal.month(row.date), row.item);
      }
      assert members == {};
    }
  }

  /** A connection of another year, or in the other table, leaves the statistics as they are. */
  lemma OtherConnectionsDoNotCount(rows: set<Row>, row: Row, table: Table, cal: Calendar, now: Time, answer: seq<Group>)
    requires cal.year(row.date) != cal.year(now) || (row.item.Rate? && table.ServiceTable?) ||
             (row.item.Service? && table.RateTable?)
    ensures StatisticsAnswer(rows + {row}, table, cal, now, answer) <==> StatisticsAnswer(rows, table, cal, now, answer)
  {
    assert ThisYear(rows + {row}, table, cal, now) == ThisYear(rows, table, cal, now);
  }

  lemma MembersAfter(year: set<Row>, row: Row, cal: Calendar, month: int, item: Item)
    requires row !in year
    ensures |Members(year + {row}, cal, month, item)| ==
            |Members(year, cal, month, item)| + if month == cal.month(row.date) && item == row.item then 1 else 0
  {
    var members := Members(year, cal, month, item);
    if month == cal.month(row.date) && item == row.item {
      assert Members(year + {row}, cal, month, item) == members + {row};
    } else {
      assert Members(year + {row}, cal, month, item) == members;
    }
  }

  /** A new connection of this year raises exactly its own group, its tariff in its month, by one. */
  lemma NewConnectionCountsOnce(rows: set<Row>, row: Row, table: Table, cal: Calendar, now: Time,
                                before: seq<Group>, after: seq<Group>, month: int, item: Item, n: nat)
    requires row !in rows && cal.year(row.date) == cal.year(now)
    requires if table.RateTable? then row.item.Rate? else row.item.Service?
    requires StatisticsAnswer(rows, table, cal, now, before) && StatisticsAnswer(rows + {row}, table, cal, now, after)
    requires Counts(before, month, item, n)
    ensures Counts(after, month, item, if month == cal.month(row.date) && item == row.item then n + 1 else n)
  {
    var year, year' := ThisYear(rows, table, cal, now), ThisYear(rows + {row}, table, cal, now);
    assert year' == year + {row};
    CountsMembers(year, cal, before, month, item, n);
    MembersAfter(year, row, cal, month, item);
    CountsMembers(year', cal, after, month, item, |Members(year', cal, month, item)|);
  }
}

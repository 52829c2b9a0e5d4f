/** The operator database and the requests of AuthLogic that change it.

    Every database function of the server opens its own connection and commits its own
    transaction, so a request is a chain of separately committed calls.  A request in
    flight is a program counter (`Phase`) together with what it has read so far, and one
    step of it is exactly one database call.  Four worker threads interleave such steps. */
module Operator {
  import opened Base

  /** Largest value of a PostgreSQL `integer` column. */
  const INT_MAX := 0x7fff_ffff
  /** Number of values of a C++ `uint32_t`. */
  const UINT_RANGE := 0x1_0000_0000
  /** Length of the `phone` column of `users`. */
  const PHONE_LENGTH := 12
  /** What `count_sms` of a service message holds when nothing sets it. */
  const UNSET_SMS := 0

  /** The four counters of a package, and the four counts a tariff adds to it. */
  datatype Credit = Credit(intoNet: int, outNet: int, sms: int, mb: int) {
    function Plus(c: Credit): Credit {
      Credit(intoNet + c.intoNet, outNet + c.outNet, sms + c.sms, mb + c.mb)
    }

    function Minus(c: Credit): Credit {
      Credit(intoNet - c.intoNet, outNet - c.outNet, sms - c.sms, mb - c.mb)
    }

    /** Addition in `uint32_t`, as `pInfo.count_mb += rInfo.count_mb` computes it. */
    function PlusUnsigned(c: Credit): Credit {
      Credit((intoNet + c.intoNet) % UINT_RANGE, (outNet + c.outNet) % UINT_RANGE,
             (sms + c.sms) % UINT_RANGE, (mb + c.mb) % UINT_RANGE)
    }

    predicate AtMost(c: Credit) {
      intoNet <= c.intoNet && outNet <= c.outNet && sms <= c.sms && mb <= c.mb
    }

    predicate AtLeast(n: int) { n <= intoNet && n <= outNet && n <= sms && n <= mb }

    /** Something is credited and nothing taken away. */
    predicate Positive() { AtLeast(0) && this != Credit(0, 0, 0, 0) }

    /** The values a `uint32_t` holds. */
    predicate Unsigned() {
      AtLeast(0) && AtMost(Credit(UINT_RANGE - 1, UINT_RANGE - 1, UINT_RANGE - 1, UINT_RANGE - 1))
    }

    /** The values an `integer` column accepts. */
    predicate FitsColumn() {
      AtLeast(-INT_MAX - 1) && AtMost(Credit(INT_MAX, INT_MAX, INT_MAX, INT_MAX))
    }
  }

  const NO_CREDIT := Credit(0, 0, 0, 0)

  /** A tariff as the logic sees it after decoding: its price and what it credits. */
  datatype Offer = Offer(cost: real, credit: Credit) {
    function Plus(o: Offer): Offer { Offer(cost + o.cost, credit.Plus(o.credit)) }
  }

  datatype RateRecord = RateRecord(cost: real, credit: Credit)
  datatype ServiceRecord = ServiceRecord(cost: real, credit: Credit, liveTime: int)
  datatype Catalogue = Catalogue(rates: map<nat, RateRecord>, services: map<nat, ServiceRecord>)
  datatype Item = Rate(id: nat) | Service(id: nat)
  datatype Lookup = Found(offer: Offer) | Missing | Unreadable

  /** Reading a tariff row.  A service never copies `count_sms`, and its counts are read as
      unsigned numbers, so a negative count or life time makes the row unreadable. */
  function Find(cat: Catalogue, item: Item): Lookup {
    match item
    case Rate(id) =>
      if id in cat.rates then Found(Offer(cat.rates[id].cost, cat.rates[id].credit)) else Missing
    case Service(id) =>
      if id !in cat.services then Missing
      else
        var s := cat.services[id];
        if s.credit.intoNet < 0 || s.credit.outNet < 0 || s.credit.mb < 0 || s.liveTime < 0 then Unreadable
        else Found(Offer(s.cost, s.credit.(sms := UNSET_SMS)))
  }

  /** A row of `user_connected_rate` or `user_connected_service`.  All three columns together
      are the primary key, so each table is a set of rows. */
  datatype Row = Row(user: UserId, item: Item, date: Time)

  datatype Tables = Tables(scores: map<UserId, real>, packages: map<UserId, Credit>, rows: set<Row>)

  datatype Request =
    | Purchase(user: UserId, item: Item)
    | Grant(user: UserId, item: Item)
    | Overwrite(user: UserId, score: real, counters: Credit)

  datatype Phase =
    | FindOffer
    | ReadUser(offer: Offer)
    | InsertRow(offer: Offer, score: real)
    | WriteScore(offer: Offer, score: real)
    | ReadPackage(offer: Offer)
    | WritePackage(offer: Offer, counters: Credit)
    | FindUser
    | SetScore(target: UserId)
    | SetPackage
    | Done(code: Code)

  /** A request in flight.  The last three fields record what it has committed; no step
      reads them. */
  datatype Flight = Flight(request: Request, phase: Phase,
                           row: Option<Row>, scoreWritten: bool, packageWritten: bool)

  /** What one database call meets: whether it commits, the clock of the server, and the
      contents of variables the caller left uninitialised. */
  datatype Call = Call(ok: bool, now: Time, junkUser: UserId, junkScore: real, junkCounters: Credit)

  function Launch(request: Request): Flight {
    Flight(request, if request.Overwrite? then FindUser else FindOffer, None, false, false)
  }

  /** Foreign keys and primary key of the connection tables. */
  predicate Insertable(cat: Catalogue, t: Tables, row: Row) {
    && row.user in t.scores
    && (match row.item case Rate(id) => id in cat.rates case Service(id) => id in cat.services)
    && row !in t.rows
  }

  /** What the `phone` column of `users` takes: blanks beyond its length are cut off, anything
      else there is an error. */
  predicate FitsPhone(phone: string) {
    forall k :: PHONE_LENGTH <= k < |phone| ==> phone[k] == ' '
  }

  predicate PackageReadable(t: Tables, user: UserId) {
    user in t.packages && t.packages[user].AtLeast(0)
  }

  function UpdateScore(t: Tables, user: UserId, score: real): Tables {
    if user in t.scores then t.(scores := t.scores[user := score]) else t
  }

  function UpdatePackage(t: Tables, user: UserId, counters: Credit): Tables {
    if user in t.packages then t.(packages := t.packages[user := counters]) else t
  }

  /** One database call of a purchase or a grant. */
  function AdvancePayment(cat: Catalogue, t: Tables, f: Flight, c: Call): (Tables, Flight)
    requires !f.request.Overwrite?
  {
    var user := f.request.user;
    match f.phase
    case FindOffer =>
      if !c.ok then (t, f.(phase := Done(InternalError)))
      else (match Find(cat, f.request.item)
            case Missing => (t, f.(phase := Done(DoesNotExist)))
            case Unreadable => (t, f.(phase := Done(InternalError)))
            case Found(offer) =>
              if f.request.Grant? && f.request.item.Service? then (t, f.(phase := InsertRow(offer, 0.0)))
              else (t, f.(phase := ReadUser(offer))))
    case ReadUser(offer) =>
      if !c.ok then (t, f.(phase := Done(InternalError)))
      else
        var score := if user in t.scores then t.scores[user] else c.junkScore;
        if f.request.Purchase? && score < offer.cost then (t, f.(phase := Done(Success)))
        else (t, f.(phase := InsertRow(offer, score)))
    case InsertRow(offer, score) =>
      var row := Row(user, f.request.item, c.now);
      if !c.ok || !Insertable(cat, t, row) then (t, f.(phase := Done(InternalError)))
      else
        (t.(rows := t.rows + {row}),
         f.(row := Some(row), phase := if f.request.Purchase? then WriteScore(offer, score) else ReadPackage(offer)))
    case WriteScore(offer, score) =>
      if !c.ok then (t, f.(phase := ReadPackage(offer)))
      else (UpdateScore(t, user, score - offer.cost), f.(scoreWritten := true, phase := ReadPackage(offer)))
    case ReadPackage(offer) =>
      var counters := if c.ok && PackageReadable(t, user) then t.packages[user] else c.junkCounters;
      (t, f.(phase := WritePackage(offer, counters)))
    case WritePackage(offer, counters) =>
      var sum := counters.PlusUnsigned(offer.credit);
      if !c.ok || !sum.FitsColumn() then (t, f.(phase := Done(InternalError)))
      else (UpdatePackage(t, user, sum), f.(packageWritten := true, phase := Done(Success)))
    case _ => (t, f)
  }

  /** One database call of adminUpdateUserPackage. */
  function AdvanceOverwrite(t: Tables, f: Flight, c: Call): (Tables, Flight)
    requires f.request.Overwrite?
  {
    match f.phase
    case FindUser =>
      if !c.ok then (t, f.(phase := Done(InternalError)))
      else (t, f.(phase := SetScore(if f.request.user in t.scores then f.request.user else c.junkUser)))
    case SetScore(target) =>
      if !c.ok then (t, f.(phase := Done(InternalError)))
      else (UpdateScore(t, target, f.request.score), f.(scoreWritten := true, phase := SetPackage))
    case SetPackage =>
      if !c.ok || !f.request.counters.FitsColumn() then (t, f.(phase := Done(InternalError)))
      else (UpdatePackage(t, f.request.user, f.request.counters),
            f.(packageWritten := true, phase := Done(Success)))
    case _ => (t, f)
  }

  function Advance(cat: Catalogue, t: Tables, f: Flight, c: Call): (Tables, Flight) {
    if f.request.Overwrite? then AdvanceOverwrite(t, f, c) else AdvancePayment(cat, t, f, c)
  }

  /** The whole server: the tables and every request that has been received. */
  datatype System = System(tables: Tables, flights: map<RequestId, Flight>)
  datatype Event = Event(id: RequestId, call: Call)

  function Step(cat: Catalogue, s: System, e: Event): System {
    if e.id !in s.flights then s
    else
      var (t, f) := Advance(cat, s.tables, s.flights[e.id], e.call);
      System(t, s.flights[e.id := f])
  }

  /** Any interleaving: the scheduler picks a request for every next call. */
  function Run(cat: Catalogue, s: System, trace: seq<Event>): System
    decreases |trace|
  {
    if trace == [] then s else Run(cat, Step(cat, s, trace[0]), trace[1..])
  }

  /** Nothing has been executed yet. */
  ghost predicate Initial(s: System) {
    forall id :: id in s.flights ==> s.flights[id] == Launch(s.flights[id].request)
  }

  /** No administrator overwrites what `user` has. */
  ghost predicate NotOverwritten(s: System, user: UserId) {
    forall id :: id in s.flights && s.flights[id].request.Overwrite? ==> s.flights[id].request.user != user
  }

  /** What a stored row is worth. */
  function Worth(cat: Catalogue, row: Row): Offer {
    var l := Find(cat, row.item);
    if l.Found? then l.offer else Offer(0.0, NO_CREDIT)
  }

  /** Prices and credits of a set of rows, summed. */
  ghost function Total(cat: Catalogue, rows: set<Row>): Offer {
    if rows == {} then Offer(0.0, NO_CREDIT)
    else
      var row :| row in rows;
      Worth(cat, row).Plus(Total(cat, rows - {row}))
  }

  lemma PlusCommutes(a: Offer, b: Offer, c: Offer)
    ensures a.Plus(b.Plus(c)) == b.Plus(a.Plus(c))
  {}

  lemma {:induction false} TotalAdd(cat: Catalogue, rows: set<Row>, row: Row)
    requires row !in rows
    ensures Total(cat, rows + {row}) == Worth(cat, row).Plus(Total(cat, rows))
    decreases |rows|
  {
    var all := rows + {row};
    var pick :| pick in all && Total(cat, all) == Worth(cat, pick).Plus(Total(cat, all - {pick}));
    if pick == row {
      assert all - {pick} == rows;
    } else {
      var rest := rows - {pick};
      assert all - {pick} == rest + {row} && rest + {pick} == rows;
      TotalAdd(cat, rest, row);
      TotalAdd(cat, rest, pick);
      PlusCommutes(Worth(cat, pick), Worth(cat, row), Total(cat, rest));
    }
  }

  ghost predicate CostsNonNegative(cat: Catalogue) {
    forall row: Row :: Worth(cat, row).cost >= 0.0
  }

  ghost predicate CreditsNonNegative(cat: Catalogue) {
    forall row: Row :: Worth(cat, row).credit.AtLeast(0)
  }

  /** A larger set of rows costs no less. */
  lemma {:induction false} TotalCostMonotone(cat: Catalogue, part: set<Row>, rows: set<Row>)
    requires CostsNonNegative(cat) && part <= rows
    ensures Total(cat, part).cost <= Total(cat, rows).cost
    decreases |rows - part|
  {
    if rows - part == {} {
      assert part == rows;
    } else {
      var row :| row in rows - part;
      assert rows - (part + {row}) < rows - part;
      TotalCostMonotone(cat, part + {row}, rows);
      TotalAdd(cat, part, row);
    }
  }

  /** A larger set of rows credits no less. */
  lemma {:induction false} TotalCreditMonotone(cat: Catalogue, part: set<Row>, rows: set<Row>)
    requires CreditsNonNegative(cat) && part <= rows
    ensures Total(cat, part).credit.AtMost(Total(cat, rows).credit)
    decreases |rows - part|
  {
    if rows - part == {} {
      assert part == rows;
    } else {
      var row :| row in rows - part;
      assert rows - (part + {row}) < rows - part;
      TotalCreditMonotone(cat, part + {row}, rows);
      TotalAdd(cat, part, row);
    }
  }
}

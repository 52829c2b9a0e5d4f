/** Registering and logging in.

    A registration writes two databases in six separately committed calls: it looks the login
    up, stores the account, reads the account's id back, and then stores the user, an empty
    package and the first rate.  Any number of registrations interleave, with each other and
    with the calls of any number of billing requests. */
module Registration {
  import opened Base
  import opened Operator
  import opened Framing
  import Billing
  import Packages

  /** The database role a request runs under; only the first two name the operator database. */
  datatype Role = CLIENT | ADMIN | AUTH

  const FIRST_RATE := 3

  datatype Account = Account(id: UserId, hash: Bytes, salt: Bytes)

  /** `server_users` with its id sequence, and the operator tables. */
  datatype Store = Store(accounts: map<string, Account>, nextId: nat, tables: Tables)

  /** How passwords are hashed: a digest in hex, and the salt all passwords share. */
  datatype Scheme = Scheme(md5: Bytes -> Bytes, defaultSalt: Bytes) {
    function PassHash(pass: Bytes, salt: Bytes): Bytes { md5(pass + defaultSalt + salt) }
  }

  /** Two different words with one digest. */
  predicate Collision(md5: Bytes -> Bytes, a: Bytes, b: Bytes) { a != b && md5(a) == md5(b) }

  ghost predicate Injective(md5: Bytes -> Bytes) {
    forall a, b :: md5(a) == md5(b) ==> a == b
  }

  /** Under one salt, two passwords have the same hash if and only if they are the same or their
      salted words collide; for one password and salts of one length, the same of the salts. */
  lemma HashTellsApart(scheme: Scheme, a: Bytes, b: Bytes, salt: Bytes, other: Bytes)
    ensures scheme.PassHash(a, salt) == scheme.PassHash(b, salt) <==>
            a == b || Collision(scheme.md5, a + scheme.defaultSalt + salt, b + scheme.defaultSalt + salt)
    ensures |salt| == |other| ==>
              (scheme.PassHash(a, salt) == scheme.PassHash(a, other) <==>
               salt == other || Collision(scheme.md5, a + scheme.defaultSalt + salt, a + scheme.defaultSalt + other))
  {
    var end, end' := scheme.defaultSalt + salt, scheme.defaultSalt + other;
    assert a + scheme.defaultSalt + salt == a + end && b + scheme.defaultSalt + salt == b + end;
    assert a + scheme.defaultSalt + other == a + end';
    if a + end == b + end {
      SameEnd(a, b, end);
    }
    if |salt| == |other| && a + end == a + end' {
      var n := |a| + |scheme.defaultSalt|;
      assert salt == (a + end)[n..] && other == (a + end')[n..];
    }
  }

  lemma SameEnd(a: Bytes, b: Bytes, end: Bytes)
    requires a + end == b + end
    ensures a == b
  {
    assert |a + end| == |a| + |end| && |b + end| == |b| + |end|;
    assert a == (a + end)[..|a|] && b == (b + end)[..|b|];
  }

  /** The answer of authUser. */
  predicate Accepts(scheme: Scheme, accounts: map<string, Account>, login: string, pass: Bytes) {
    login in accounts && scheme.PassHash(pass, accounts[login].salt) == accounts[login].hash
  }

  datatype Stage =
    | LookUp
    | StoreAccount
    | ReadBack
    | StoreUser(id: UserId, phone: string)
    | StorePackage(id: UserId)
    | StoreRate(id: UserId)
    | Answered(code: Code, registered: bool)

  datatype Signup = Signup(login: string, pass: Bytes, role: Role, stage: Stage)

  function Launch(login: string, pass: Bytes, role: Role): Signup { Signup(login, pass, role, LookUp) }

  /** What one call meets; `salt` is the random string a new account gets. */
  datatype Circumstance = Circumstance(call: Call, salt: Bytes)

  predicate OperatorCall(f: Signup, c: Call) { c.ok && !f.role.AUTH? }

  function Advance(scheme: Scheme, cat: Catalogue, s: Store, f: Signup, x: Circumstance): (Store, Signup) {
    var c := x.call;
    match f.stage
    case LookUp =>
      if !c.ok then (s, f.(stage := Answered(InternalError, false)))
      else if f.login in s.accounts then (s, f.(stage := Answered(Success, false)))
      else (s, f.(stage := StoreAccount))
    case StoreAccount =>
      if !c.ok then (s, f.(stage := Answered(Success, false)))
      else if f.login in s.accounts then (s.(nextId := s.nextId + 1), f.(stage := Answered(Success, false)))
      else
        (s.(accounts := s.accounts[f.login := Account(s.nextId, scheme.PassHash(f.pass, x.salt), x.salt)],
            nextId := s.nextId + 1),
         f.(stage := ReadBack))
    case ReadBack =>
      if c.ok && f.login in s.accounts then (s, f.(stage := StoreUser(s.accounts[f.login].id, f.login)))
      else (s, f.(stage := StoreUser(c.junkUser, "")))
    case StoreUser(id, phone) =>
      if OperatorCall(f, c) && FitsPhone(phone) && id !in s.tables.scores
      then (s.(tables := s.tables.(scores := s.tables.scores[id := 0.0])), f.(stage := StorePackage(id)))
      else (s, f.(stage := StorePackage(id)))
    case StorePackage(id) =>
      if OperatorCall(f, c) && id in s.tables.scores && id !in s.tables.packages
      then (s.(tables := s.tables.(packages := s.tables.packages[id := NO_CREDIT])), f.(stage := StoreRate(id)))
      else (s, f.(stage := StoreRate(id)))
    case StoreRate(id) =>
      var row := Row(id, Rate(FIRST_RATE), c.now);
      if OperatorCall(f, c) && Insertable(cat, s.tables, row)
      then (s.(tables := s.tables.(rows := s.tables.rows + {row})), f.(stage := Answered(Success, true)))
      else (s, f.(stage := Answered(InternalError, true)))
    case Answered(_, _) => (s, f)
  }

  /** The whole server: the tables, every registration and every billing request. */
  datatype Registrar = Registrar(store: Store, flights: map<RequestId, Signup>, payments: map<RequestId, Flight>)

  /** The next database call, of a registration or of a billing request. */
  datatype Turn =
    | SignupCall(id: RequestId, x: Circumstance)
    | PaymentCall(id: RequestId, call: Call)

  function Step(scheme: Scheme, cat: Catalogue, s: Registrar, e: Turn): Registrar {
    match e
    case SignupCall(id, x) =>
      if id !in s.flights then s
      else
        var (store, f) := Advance(scheme, cat, s.store, s.flights[id], x);
        s.(store := store, flights := s.flights[id := f])
    case PaymentCall(id, call) =>
      if id !in s.payments then s
      else
        var (t, f) := Operator.Advance(cat, s.store.tables, s.payments[id], call);
        s.(store := s.store.(tables := t), payments := s.payments[id := f])
  }

  function Run(scheme: Scheme, cat: Catalogue, s: Registrar, trace: seq<Turn>): Registrar
    decreases |trace|
  {
    if trace == [] then s else Run(scheme, cat, Step(scheme, cat, s, trace[0]), trace[1..])
  }

  /** The request has stored its account. */
  predicate Stored(f: Signup) {
    !f.stage.LookUp? && !f.stage.StoreAccount? && (f.stage.Answered? ==> f.stage.registered)
  }

  // ---------------------------------------------------------------- passwords, in every run

  ghost predicate PasswordsKept(scheme: Scheme, s: Registrar) {
    forall r :: r in s.flights && Stored(s.flights[r]) ==>
      && s.flights[r].login in s.store.accounts
      && s.store.accounts[s.flights[r].login].hash ==
         scheme.PassHash(s.flights[r].pass, s.store.accounts[s.flights[r].login].salt)
  }

  lemma AdvanceAccounts(scheme: Scheme, cat: Catalogue, s: Store, f: Signup, x: Circumstance)
    ensures var (s', f') := Advance(scheme, cat, s, f, x);
            && f'.login == f.login && f'.pass == f.pass && f'.role == f.role
            && (forall l :: l in s.accounts ==> l in s'.accounts && s'.accounts[l] == s.accounts[l])
            && (Stored(f') && !Stored(f) ==>
                  f.login in s'.accounts &&
                  s'.accounts[f.login].hash == scheme.PassHash(f.pass, s'.accounts[f.login].salt))
            && (Stored(f) ==> Stored(f'))
  {}

  /** The same request, later. */
  predicate Follows(f: Signup, f': Signup) {
    f'.login == f.login && f'.pass == f.pass && (Stored(f) ==> Stored(f'))
  }

  lemma {:induction false} PasswordsRun(scheme: Scheme, cat: Catalogue, s: Registrar, trace: seq<Turn>)
    requires PasswordsKept(scheme, s)
    ensures var s' := Run(scheme, cat, s, trace);
            && PasswordsKept(scheme, s') && s'.flights.Keys == s.flights.Keys
            && (forall l :: l in s.store.accounts ==>
                  l in s'.store.accounts && s'.store.accounts[l] == s.store.accounts[l])
            && (forall r :: r in s.flights ==> Follows(s.flights[r], s'.flights[r]))
    decreases |trace|
  {
    if trace != [] {
      if trace[0].SignupCall? && trace[0].id in s.flights {
        AdvanceAccounts(scheme, cat, s.store, s.flights[trace[0].id], trace[0].x);
      }
      PasswordsRun(scheme, cat, Step(scheme, cat, s, trace[0]), trace[1..]);
    }
  }

  /** Register, then log in.  From any state in which none of these registrations has stored
      its account: once registration `r` has, in every later state of every interleaving with
      every failure a password is accepted exactly if it hashes with the stored salt to what
      the registering password hashes to.  So that one is, and another one only if the two salted
      words are different words of one digest. */
  lemma RegisteredPasswordLogsIn(scheme: Scheme, cat: Catalogue, s: Registrar, before: seq<Turn>, after: seq<Turn>,
                                 r: RequestId, pass: Bytes)
    requires forall q :: q in s.flights ==> !Stored(s.flights[q])
    requires var s1 := Run(scheme, cat, s, before); r in s1.flights && Stored(s1.flights[r])
    ensures r in s.flights
    ensures var f, s1 := s.flights[r], Run(scheme, cat, s, before);
            var accounts := Run(scheme, cat, s1, after).store.accounts;
            && f.login in s1.store.accounts && f.login in accounts
            && accounts[f.login] == s1.store.accounts[f.login]
            && Accepts(scheme, accounts, f.login, f.pass)
            && (Accepts(scheme, accounts, f.login, pass) <==>
                  scheme.PassHash(pass, accounts[f.login].salt) == scheme.PassHash(f.pass, accounts[f.login].salt))
            && (Accepts(scheme, accounts, f.login, pass) <==>
                  || pass == f.pass
                  || Collision(scheme.md5, pass + scheme.defaultSalt + accounts[f.login].salt,
                               f.pass + scheme.defaultSalt + accounts[f.login].salt))
            && (Injective(scheme.md5) ==> (Accepts(scheme, accounts, f.login, pass) <==> pass == f.pass))
  {
    var accounts := Run(scheme, cat, Run(scheme, cat, s, before), after).store.accounts;
    PasswordsRun(scheme, cat, s, before);
    PasswordsRun(scheme, cat, Run(scheme, cat, s, before), after);
    HashTellsApart(scheme, pass, s.flights[r].pass, accounts[s.flights[r].login].salt, []);
  }

  // ---------------------------------------------------------------- registered users are complete

  /** Nothing that needs the user exists without it, and the user is whole. */
  ghost predicate Complete(t: Tables, id: UserId) {
    id in t.scores && id in t.packages && HasFirstRate(t, id)
  }

  ghost predicate HasFirstRate(t: Tables, id: UserId) {
    exists row :: row in t.rows && row.user == id && row.item == Rate(FIRST_RATE)
  }

  /** How far the operator tables have got for a stored account. */
  ghost predicate Underway(s: Store, f: Signup) {
    Stored(f) ==>
      && f.login in s.accounts
      && var id := s.accounts[f.login].id;
         match f.stage
         case ReadBack => id !in s.tables.scores && id !in s.tables.packages
         case StoreUser(i, phone) =>
           i == id && phone == f.login && id !in s.tables.scores && id !in s.tables.packages
         case StorePackage(i) => i == id && id in s.tables.scores && id !in s.tables.packages
         case StoreRate(i) => i == id && id in s.tables.scores && id in s.tables.packages
         case Answered(_, _) => Complete(s.tables, id)
         case _ => true
  }

  ghost predicate IdsDistinct(s: Store) {
    && (forall l :: l in s.accounts ==> s.accounts[l].id < s.nextId)
    && (forall l, m :: l in s.accounts && m in s.accounts && l != m ==> s.accounts[l].id != s.accounts[m].id)
    && (forall id :: id in s.tables.scores || id in s.tables.packages ==> id < s.nextId)
    && (forall row :: row in s.tables.rows ==> row.user < s.nextId)
  }

  /** Every stored row belongs to an account. */
  ghost predicate Owned(s: Store) {
    && (forall id :: id in s.tables.scores ==> HasAccount(s, id))
    && s.tables.packages.Keys <= s.tables.scores.Keys
  }

  ghost predicate HasAccount(s: Store, id: UserId) { exists l :: l in s.accounts && s.accounts[l].id == id }

  ghost predicate Orderly(s: Registrar) {
    && IdsDistinct(s.store) && Owned(s.store)
    && (forall r :: r in s.flights ==> Underway(s.store, s.flights[r]))
    && (forall q, r :: q in s.flights && r in s.flights && q != r && Stored(s.flights[q]) && Stored(s.flights[r])
          ==> s.flights[q].login != s.flights[r].login)
    && (forall l :: l in s.store.accounts ==> HasFlight(s, l))
  }

  ghost predicate HasFlight(s: Registrar, login: string) {
    exists r :: r in s.flights && s.flights[r].login == login && Stored(s.flights[r])
  }

  /** What the operator's set-up promises. */
  predicate Acceptable(cat: Catalogue, f: Signup) {
    FitsPhone(f.login) && !f.role.AUTH? && FIRST_RATE in cat.rates
  }

  /** What a committed call of an acceptable registration does to the store. */
  ghost predicate Effect(s: Store, f: Signup, s': Store, f': Signup) {
    && f'.login == f.login && s.nextId <= s'.nextId
    && (if s'.accounts == s.accounts then Stored(f') == Stored(f) || !Stored(f')
        else && !Stored(f) && f'.stage.ReadBack? && f.login !in s.accounts && f.login in s'.accounts
             && s'.accounts == s.accounts[f.login := s'.accounts[f.login]]
             && s'.accounts[f.login].id == s.nextId < s'.nextId && s'.tables == s.tables)
    && (s'.tables != s.tables ==> Stored(f) && f.login in s.accounts)
    && (forall id :: (f.login in s.accounts ==> id != s.accounts[f.login].id) ==>
          && (id in s'.tables.scores <==> id in s.tables.scores)
          && (id in s'.tables.packages <==> id in s.tables.packages)
          && (forall row :: row in s'.tables.rows && row.user == id ==> row in s.tables.rows))
    && (forall row :: row in s.tables.rows ==> row in s'.tables.rows)
    && (forall row :: row in s'.tables.rows && row !in s.tables.rows ==>
          f.login in s.accounts && row.user == s.accounts[f.login].id)
    && s'.tables.packages.Keys <= s.tables.packages.Keys + s'.tables.scores.Keys
    && s.tables.scores.Keys <= s'.tables.scores.Keys
  }

  lemma AdvanceEffect(scheme: Scheme, cat: Catalogue, s: Store, f: Signup, x: Circumstance)
    requires Underway(s, f) && IdsDistinct(s) && x.call.ok && Acceptable(cat, f)
    ensures var (s', f') := Advance(scheme, cat, s, f, x); Effect(s, f, s', f')
  {}

  lemma AdvanceUnderway(scheme: Scheme, cat: Catalogue, s: Store, f: Signup, x: Circumstance)
    requires Underway(s, f) && IdsDistinct(s) && x.call.ok && Acceptable(cat, f)
    ensures var (s', f') := Advance(scheme, cat, s, f, x); Underway(s', f')
  {}

  lemma OtherUnderway(s: Store, f: Signup, s': Store, f': Signup, g: Signup)
    requires Effect(s, f, s', f') && IdsDistinct(s) && Underway(s, g)
    requires Stored(g) ==> g.login != f.login || !Stored(f)
    requires Stored(g) && Stored(f') ==> g.login != f.login
    ensures Underway(s', g)
  {}

  lemma StoreStaysOrderly(s: Store, f: Signup, s': Store, f': Signup)
    requires Effect(s, f, s', f') && IdsDistinct(s) && Owned(s)
    ensures IdsDistinct(s') && Owned(s')
  {
    forall id | id in s'.tables.scores ensures HasAccount(s', id) {
      if id in s.tables.scores {
        var l :| l in s.accounts && s.accounts[l].id == id;
        assert l in s'.accounts && s'.accounts[l] == s.accounts[l];
      } else {
        assert f.login in s.accounts && id == s.accounts[f.login].id;
        assert f.login in s'.accounts && s'.accounts[f.login] == s.accounts[f.login];
      }
    }
  }

  lemma RequestUnderway(s: Registrar, id: RequestId, store: Store, f': Signup, r: RequestId)
    requires Orderly(s) && id in s.flights && r in s.flights
    requires Effect(s.store, s.flights[id], store, f') && Underway(store, f')
    requires Stored(s.flights[id]) ==> Stored(f')
    ensures Underway(store, if r == id then f' else s.flights[r])
  {
    if r != id {
      var s' := s.(store := store, flights := s.flights[id := f']);
      LoginsStayDistinct(s, id, store, f');
      assert s'.flights[r] == s.flights[r] && s'.flights[id] == f';
      OtherUnderway(s.store, s.flights[id], store, f', s.flights[r]);
    }
  }

  lemma EveryAccountHasAFlight(s: Registrar, id: RequestId, store: Store, f': Signup)
    requires id in s.flights && Effect(s.store, s.flights[id], store, f')
    requires forall l :: l in s.store.accounts ==> HasFlight(s, l)
    requires Stored(s.flights[id]) ==> Stored(f')
    ensures forall l :: l in store.accounts ==> HasFlight(s.(store := store, flights := s.flights[id := f']), l)
  {
    var s' := s.(store := store, flights := s.flights[id := f']);
    forall l | l in store.accounts ensures HasFlight(s', l) {
      if l in s.store.accounts {
        assert HasFlight(s, l);
        var r :| r in s.flights && s.flights[r].login == l && Stored(s.flights[r]);
        assert s'.flights[r].login == l && Stored(s'.flights[r]);
      } else {
        assert s'.flights[id].login == l && Stored(s'.flights[id]);
      }
    }
  }

  lemma OrderlyAfter(s: Registrar, id: RequestId, store: Store, f': Signup)
    requires Orderly(s) && id in s.flights && Effect(s.store, s.flights[id], store, f') && Underway(store, f')
    requires Stored(s.flights[id]) ==> Stored(f')
    ensures Orderly(s.(store := store, flights := s.flights[id := f']))
  {
    var f, s' := s.flights[id], s.(store := store, flights := s.flights[id := f']);
    StoreStaysOrderly(s.store, f, store, f');
    LoginsStayDistinct(s, id, store, f');
    forall r | r in s'.flights ensures Underway(store, s'.flights[r]) {
      RequestUnderway(s, id, store, f', r);
    }
    EveryAccountHasAFlight(s, id, store, f');
  }

  lemma LoginsStayDistinct(s: Registrar, id: RequestId, store: Store, f': Signup)
    requires Orderly(s) && id in s.flights && Effect(s.store, s.flights[id], store, f')
    ensures var s' := s.(store := store, flights := s.flights[id := f']);
            forall q, r :: q in s'.flights && r in s'.flights && q != r &&
                           Stored(s'.flights[q]) && Stored(s'.flights[r])
              ==> s'.flights[q].login != s'.flights[r].login
  {}

  // ---------------------------------------------------------------- billing in between

  /** What a call of a billing request leaves alone: no user or package comes or goes, no
      connection goes, and a new one belongs to a stored user. */
  ghost predicate PaymentEffect(t: Tables, t': Tables) {
    && t'.scores.Keys == t.scores.Keys && t'.packages.Keys == t.packages.Keys
    && (forall row :: row in t.rows ==> row in t'.rows)
    && (forall row :: row in t'.rows && row !in t.rows ==> row.user in t.scores)
  }

  lemma AdvancePaymentEffect(cat: Catalogue, t: Tables, f: Flight, c: Call)
    ensures PaymentEffect(t, Operator.Advance(cat, t, f, c).0)
  {}

  lemma StillUnderway(s: Store, t': Tables, f: Signup)
    requires Underway(s, f) && PaymentEffect(s.tables, t')
    ensures Underway(s.(tables := t'), f)
  {
    if Stored(f) && f.stage.Answered? {
      var id := s.accounts[f.login].id;
      var row :| row in s.tables.rows && row.user == id && row.item == Rate(FIRST_RATE);
      assert row in t'.rows;
    }
  }

  lemma OrderlyAfterPayment(s: Registrar, t': Tables, payments: map<RequestId, Flight>)
    requires Orderly(s) && PaymentEffect(s.store.tables, t')
    ensures Orderly(s.(store := s.store.(tables := t'), payments := payments))
  {
    var s' := s.(store := s.store.(tables := t'), payments := payments);
    forall r | r in s'.flights ensures Underway(s'.store, s'.flights[r]) {
      StillUnderway(s.store, t', s.flights[r]);
    }
    forall id | id in t'.scores ensures HasAccount(s'.store, id) {
      var l :| l in s.store.accounts && s.store.accounts[l].id == id;
      assert s'.store.accounts[l].id == id;
    }
    forall l | l in s'.store.accounts ensures HasFlight(s', l) {
      var r :| r in s.flights && s.flights[r].login == l && Stored(s.flights[r]);
      assert s'.flights[r].login == l && Stored(s'.flights[r]);
    }
  }

  ghost predicate AllAcceptable(cat: Catalogue, s: Registrar) {
    forall r :: r in s.flights ==> Acceptable(cat, s.flights[r])
  }

  /** Every call of a registration commits; billing calls may fail. */
  predicate SignupsCommit(trace: seq<Turn>) {
    forall k :: 0 <= k < |trace| && trace[k].SignupCall? ==> trace[k].x.call.ok
  }

  lemma OrderlyStep(scheme: Scheme, cat: Catalogue, s: Registrar, e: Turn)
    requires Orderly(s) && AllAcceptable(cat, s) && (e.SignupCall? ==> e.x.call.ok)
    ensures Orderly(Step(scheme, cat, s, e)) && AllAcceptable(cat, Step(scheme, cat, s, e))
  {
    if e.SignupCall? && e.id in s.flights {
      var f := s.flights[e.id];
      var (store, f') := Advance(scheme, cat, s.store, f, e.x);
      AdvanceEffect(scheme, cat, s.store, f, e.x);
      AdvanceUnderway(scheme, cat, s.store, f, e.x);
      AdvanceAccounts(scheme, cat, s.store, f, e.x);
      OrderlyAfter(s, e.id, store, f');
    } else if e.PaymentCall? && e.id in s.payments {
      var (t, f) := Operator.Advance(cat, s.store.tables, s.payments[e.id], e.call);
      AdvancePaymentEffect(cat, s.store.tables, s.payments[e.id], e.call);
      OrderlyAfterPayment(s, t, s.payments[e.id := f]);
    }
  }

  lemma {:induction false} OrderlyRun(scheme: Scheme, cat: Catalogue, s: Registrar, trace: seq<Turn>)
    requires Orderly(s) && AllAcceptable(cat, s) && SignupsCommit(trace)
    ensures Orderly(Run(scheme, cat, s, trace))
    decreases |trace|
  {
    if trace != [] {
      OrderlyStep(scheme, cat, s, trace[0]);
      OrderlyRun(scheme, cat, Step(scheme, cat, s, trace[0]), trace[1..]);
    }
  }

  // ---------------------------------------------------------------- packages and keys

  /** Administrators send unsigned counters. */
  ghost predicate PaymentsUnsigned(s: Registrar) {
    forall p :: p in s.payments && s.payments[p].request.Overwrite? ==> s.payments[p].request.counters.AtLeast(0)
  }

  /** No billing request is about this user. */
  ghost predicate Unbilled(s: Registrar, id: UserId) {
    forall p :: p in s.payments ==> s.payments[p].request.user != id
  }

  /** Packages can be read, those nobody bills are as createEmptyPackage leaves them, and no
      connection dangles. */
  ghost predicate Consistent(cat: Catalogue, s: Registrar) {
    var t := s.store.tables;
    && Billing.KeysKnown(cat, t)
    && forall id :: id in t.packages ==>
         t.packages[id].AtLeast(0) && (Unbilled(s, id) ==> t.packages[id] == NO_CREDIT)
  }

  lemma SignupConsistent(scheme: Scheme, cat: Catalogue, s: Registrar, id: RequestId, x: Circumstance)
    requires Consistent(cat, s)
    ensures Consistent(cat, Step(scheme, cat, s, SignupCall(id, x)))
  {
    forall u ensures Unbilled(Step(scheme, cat, s, SignupCall(id, x)), u) <==> Unbilled(s, u) {}
  }

  lemma PaymentConsistent(scheme: Scheme, cat: Catalogue, s: Registrar, id: RequestId, call: Call)
    requires Consistent(cat, s) && PaymentsUnsigned(s)
    ensures var s' := Step(scheme, cat, s, PaymentCall(id, call)); Consistent(cat, s') && PaymentsUnsigned(s')
  {
    if id in s.payments {
      var t, f := s.store.tables, s.payments[id];
      var s' := Step(scheme, cat, s, PaymentCall(id, call));
      Billing.AdvanceKeys(cat, t, f, call);
      AdvancePaymentEffect(cat, t, f, call);
      forall u | u in t.packages
        ensures s'.store.tables.packages[u].AtLeast(0)
        ensures Unbilled(s', u) ==> s'.store.tables.packages[u] == NO_CREDIT
      {
        Packages.AdvanceReadable(cat, t, f, call, u);
        PackageOfOthers(cat, t, f, call, u);
        if Unbilled(s', u) {
          assert s'.payments[id].request.user != u;
          assert forall p :: p in s.payments ==> s'.payments[p].request == s.payments[p].request;
        }
      }
    }
  }

  lemma PackageOfOthers(cat: Catalogue, t: Tables, f: Flight, c: Call, user: UserId)
    requires user in t.packages
    ensures var (t', f') := Operator.Advance(cat, t, f, c);
            && f'.request == f.request && user in t'.packages
            && (f.request.user != user ==> t'.packages[user] == t.packages[user])
  {}

  lemma {:induction false} ConsistentRun(scheme: Scheme, cat: Catalogue, s: Registrar, trace: seq<Turn>)
    requires Consistent(cat, s) && PaymentsUnsigned(s)
    ensures Consistent(cat, Run(scheme, cat, s, trace))
    decreases |trace|
  {
    if trace != [] {
      match trace[0] {
        case SignupCall(id, x) => SignupConsistent(scheme, cat, s, id, x);
        case PaymentCall(id, call) => PaymentConsistent(scheme, cat, s, id, call);
      }
      ConsistentRun(scheme, cat, Step(scheme, cat, s, trace[0]), trace[1..]);
    }
  }

  /** Empty tables, registrations that have not begun, and any billing requests. */
  ghost predicate Fresh(s: Registrar) {
    && s.store.accounts == map[] && s.store.tables == Tables(map[], map[], {})
    && forall r :: r in s.flights ==> s.flights[r].stage.LookUp?
  }

  /** A registration on this login is between its account and its answer. */
  ghost predicate InProgress(s: Registrar, login: string) {
    exists r :: r in s.flights && s.flights[r].login == login && Stored(s.flights[r]) && !s.flights[r].stage.Answered?
  }

  /** Main result: in every interleaving of acceptable registrations whose calls commit with
      billing requests whose calls may fail, each account whose registration has answered is
      complete, and its package can be read; ids are distinct; every user has an account; once
      all have answered, accounts, users and packages match one to one by id; packages nobody
      bills are empty, and every connection names a stored user and tariff. */
  lemma RegisteredUsersAreComplete(scheme: Scheme, cat: Catalogue, s: Registrar, trace: seq<Turn>)
    requires Fresh(s) && AllAcceptable(cat, s) && PaymentsUnsigned(s) && SignupsCommit(trace)
    ensures var s' := Run(scheme, cat, s, trace);
            var accounts, t := s'.store.accounts, s'.store.tables;
            && (forall l :: l in accounts && !InProgress(s', l) ==>
                  Complete(t, accounts[l].id) && PackageReadable(t, accounts[l].id))
            && (forall l, m :: l in accounts && m in accounts && l != m ==> accounts[l].id != accounts[m].id)
            && (forall id :: id in t.scores ==> HasAccount(s'.store, id))
            && ((forall l :: l in accounts ==> !InProgress(s', l)) ==>
                  t.scores.Keys == t.packages.Keys == set l | l in accounts :: accounts[l].id)
            && Consistent(cat, s')
  {
    ConsistentRun(scheme, cat, s, trace);
    OrderlyRun(scheme, cat, s, trace);
    var s' := Run(scheme, cat, s, trace);
    forall l | l in s'.store.accounts && !InProgress(s', l) ensures Complete(s'.store.tables, s'.store.accounts[l].id) {
      var r :| r in s'.flights && s'.flights[r].login == l && Stored(s'.flights[r]);
      assert Underway(s'.store, s'.flights[r]);
    }
  }

  lemma {:induction false} RunAppend(scheme: Scheme, cat: Catalogue, s: Registrar, before: seq<Turn>, after: seq<Turn>)
    ensures Run(scheme, cat, s, before + after) == Run(scheme, cat, Run(scheme, cat, s, before), after)
    decreases |before|
  {
    if before == [] {
      assert before + after == after;
    } else {
      assert (before + after)[1..] == before[1..] + after;
      RunAppend(scheme, cat, Step(scheme, cat, s, before[0]), before[1..], after);
    }
  }

  lemma {:induction false} AnsweredRun(scheme: Scheme, cat: Catalogue, s: Registrar, trace: seq<Turn>, r: RequestId)
    requires r in s.flights && s.flights[r].stage.Answered?
    ensures r in Run(scheme, cat, s, trace).flights && Run(scheme, cat, s, trace).flights[r] == s.flights[r]
    decreases |trace|
  {
    if trace != [] {
      AnsweredRun(scheme, cat, Step(scheme, cat, s, trace[0]), trace[1..], r);
    }
  }

  /** An account whose registration has answered keeps its id and is never in progress again. */
  lemma AnsweredForGood(scheme: Scheme, cat: Catalogue, s: Registrar, before: seq<Turn>, after: seq<Turn>,
                        login: string)
    requires Fresh(s) && AllAcceptable(cat, s) && SignupsCommit(before) && SignupsCommit(after)
    requires var s1 := Run(scheme, cat, s, before); login in s1.store.accounts && !InProgress(s1, login)
    ensures var s1, s2 := Run(scheme, cat, s, before), Run(scheme, cat, s, before + after);
            && login in s2.store.accounts && s2.store.accounts[login] == s1.store.accounts[login]
            && !InProgress(s2, login)
  {
    var s1 := Run(scheme, cat, s, before);
    OrderlyRun(scheme, cat, s, before);
    OrderlyRun(scheme, cat, s, before + after);
    RunAppend(scheme, cat, s, before, after);
    PasswordsRun(scheme, cat, s, before);
    PasswordsRun(scheme, cat, s1, after);
    assert HasFlight(s1, login);
    var r :| r in s1.flights && s1.flights[r].login == login && Stored(s1.flights[r]);
    AnsweredRun(scheme, cat, s1, after, r);
  }

  // ---------------------------------------------------------------- exactly when it works

  /** One registration alone: its six calls, whatever each of them meets. */
  function Solo(scheme: Scheme, cat: Catalogue, s: Store, f: Signup, xs: seq<Circumstance>): (Store, Signup)
    requires |xs| == 6
  {
    var (s1, f1) := Advance(scheme, cat, s, f, xs[0]);
    var (s2, f2) := Advance(scheme, cat, s1, f1, xs[1]);
    var (s3, f3) := Advance(scheme, cat, s2, f2, xs[2]);
    OperatorPart(scheme, cat, s3, f3, xs)
  }

  /** Its last three calls, which write the operator database. */
  function OperatorPart(scheme: Scheme, cat: Catalogue, s: Store, f: Signup, xs: seq<Circumstance>): (Store, Signup)
    requires |xs| == 6
  {
    var (s4, f4) := Advance(scheme, cat, s, f, xs[3]);
    var (s5, f5) := Advance(scheme, cat, s4, f4, xs[4]);
    Advance(scheme, cat, s5, f5, xs[5])
  }

  /** Any calls of one registration, with nothing in between. */
  function Advances(scheme: Scheme, cat: Catalogue, s: Store, f: Signup, xs: seq<Circumstance>): (Store, Signup)
    decreases |xs|
  {
    if xs == [] then (s, f)
    else
      var (s', f') := Advance(scheme, cat, s, f, xs[0]);
      Advances(scheme, cat, s', f', xs[1..])
  }

  function SignupCalls(r: RequestId, xs: seq<Circumstance>): seq<Turn> {
    if xs == [] then [] else [SignupCall(r, xs[0])] + SignupCalls(r, xs[1..])
  }

  lemma {:induction false} AdvancesAreARun(scheme: Scheme, cat: Catalogue, s: Registrar, r: RequestId,
                                           xs: seq<Circumstance>)
    requires r in s.flights
    ensures var (store, f) := Advances(scheme, cat, s.store, s.flights[r], xs);
            Run(scheme, cat, s, SignupCalls(r, xs)) == s.(store := store, flights := s.flights[r := f])
    decreases |xs|
  {
    if xs == [] {
      assert s.flights[r := s.flights[r]] == s.flights;
    } else {
      var s' := Step(scheme, cat, s, SignupCall(r, xs[0]));
      AdvancesAreARun(scheme, cat, s', r, xs[1..]);
      var f := Advances(scheme, cat, s'.store, s'.flights[r], xs[1..]).1;
      assert s'.flights[r := f] == s.flights[r := f];
      assert SignupCalls(r, xs)[1..] == SignupCalls(r, xs[1..]);
    }
  }

  /** A registration on its own is a run of the server in which the scheduler picks nothing else. */
  lemma SoloSignupIsARun(scheme: Scheme, cat: Catalogue, s: Registrar, r: RequestId, xs: seq<Circumstance>)
    requires r in s.flights && |xs| == 6
    ensures var (store, f) := Solo(scheme, cat, s.store, s.flights[r], xs);
            Run(scheme, cat, s, SignupCalls(r, xs)) == s.(store := store, flights := s.flights[r := f])
  {
    AdvancesAreARun(scheme, cat, s, r, xs);
    AdvancesInHalves(scheme, cat, s.store, s.flights[r], xs);
  }

  lemma AdvancesInHalves(scheme: Scheme, cat: Catalogue, s: Store, f: Signup, xs: seq<Circumstance>)
    requires |xs| == 6
    ensures Advances(scheme, cat, s, f, xs) == Solo(scheme, cat, s, f, xs)
  {
    var (s1, f1) := Advance(scheme, cat, s, f, xs[0]);
    var (s2, f2) := Advance(scheme, cat, s1, f1, xs[1]);
    var (s3, f3) := Advance(scheme, cat, s2, f2, xs[2]);
    ThreeAdvances(scheme, cat, s, f, xs);
    ThreeAdvances(scheme, cat, s3, f3, xs[3..]);
    assert xs[3..][3..] == [];
  }

  lemma ThreeAdvances(scheme: Scheme, cat: Catalogue, s: Store, f: Signup, xs: seq<Circumstance>)
    requires |xs| >= 3
    ensures var (s1, f1) := Advance(scheme, cat, s, f, xs[0]);
            var (s2, f2) := Advance(scheme, cat, s1, f1, xs[1]);
            var (s3, f3) := Advance(scheme, cat, s2, f2, xs[2]);
            Advances(scheme, cat, s, f, xs) == Advances(scheme, cat, s3, f3, xs[3..])
  {
    var (s1, f1) := Advance(scheme, cat, s, f, xs[0]);
    var (s2, f2) := Advance(scheme, cat, s1, f1, xs[1]);
    assert xs[1..][1..] == xs[2..] && xs[2..][1..] == xs[3..];
    assert Advances(scheme, cat, s, f, xs) == Advances(scheme, cat, s1, f1, xs[1..])
        == Advances(scheme, cat, s2, f2, xs[2..]);
  }

  function PaymentCalls(events: seq<Event>): seq<Turn> {
    if events == [] then [] else [PaymentCall(events[0].id, events[0].call)] + PaymentCalls(events[1..])
  }

  /** While no registration makes a call, the server is the billing server of `Operator`. */
  lemma {:induction false} PaymentsAreARun(scheme: Scheme, cat: Catalogue, s: Registrar, events: seq<Event>)
    ensures var billed := Operator.Run(cat, System(s.store.tables, s.payments), events);
            Run(scheme, cat, s, PaymentCalls(events)) ==
            s.(store := s.store.(tables := billed.tables), payments := billed.flights)
    decreases |events|
  {
    if events != [] {
      PaymentsAreARun(scheme, cat, Step(scheme, cat, s, PaymentCall(events[0].id, events[0].call)), events[1..]);
      assert PaymentCalls(events)[1..] == PaymentCalls(events[1..]);
    }
  }

  /** What a registration on its own does, for every choice of failing calls, in terms of the
      columns and plain numbers; `hash` is what is stored for the password. */
  ghost predicate SignedUp(cat: Catalogue, s: Store, login: string, hash: Bytes, role: Role, xs: seq<Circumstance>,
                           s': Store, code: Code, registered: bool)
    requires |xs| == 6
  {
    if !xs[0].call.ok then s' == s && code == InternalError && !registered
    else if login in s.accounts || !xs[1].call.ok then s' == s && code == Success && !registered
    else
      var t := s.tables;
      var id := if xs[2].call.ok then s.nextId else xs[2].call.junkUser;
      var phone := if xs[2].call.ok then login else "";
      var opens := !role.AUTH?;
      var user := xs[3].call.ok && opens && id !in t.scores && forall k :: 12 <= k < |phone| ==> phone[k] == ' ';
      var package := xs[4].call.ok && opens && (user || id in t.scores) && id !in t.packages;
      var row := Row(id, Rate(3), xs[5].call.now);
      var rate := xs[5].call.ok && opens && (user || id in t.scores) && 3 in cat.rates && row !in t.rows;
      && s'.accounts == s.accounts[login := Account(s.nextId, hash, xs[1].salt)] && s'.nextId == s.nextId + 1
      && s'.tables.scores == (if user then t.scores[id := 0.0] else t.scores)
      && s'.tables.packages == (if package then t.packages[id := Credit(0, 0, 0, 0)] else t.packages)
      && s'.tables.rows == (if rate then t.rows + {row} else t.rows)
      && registered && code == if rate then Success else InternalError
  }

  lemma SignupOutcome(scheme: Scheme, cat: Catalogue, s: Store, login: string, pass: Bytes, role: Role,
                      xs: seq<Circumstance>)
    requires |xs| == 6
    ensures var (s', f') := Solo(scheme, cat, s, Launch(login, pass, role), xs);
            && f'.stage.Answered?
            && SignedUp(cat, s, login, scheme.md5(pass + scheme.defaultSalt + xs[1].salt), role, xs,
                        s', f'.stage.code, f'.stage.registered)
  {
    var (s1, f1) := Advance(scheme, cat, s, Launch(login, pass, role), xs[0]);
    var (s2, f2) := Advance(scheme, cat, s1, f1, xs[1]);
    var (s3, f3) := Advance(scheme, cat, s2, f2, xs[2]);
    if f3.stage.StoreUser? {
      OperatorPartOutcome(scheme, cat, s3, f3, xs);
    }
  }

  lemma OperatorPartOutcome(scheme: Scheme, cat: Catalogue, s: Store, f: Signup, xs: seq<Circumstance>)
    requires |xs| == 6 && f.stage.StoreUser?
    ensures var (s', f') := OperatorPart(scheme, cat, s, f, xs);
            var id, phone, t, opens := f.stage.id, f.stage.phone, s.tables, !f.role.AUTH?;
            var user := xs[3].call.ok && opens && id !in t.scores && forall k :: 12 <= k < |phone| ==> phone[k] == ' ';
            var package := xs[4].call.ok && opens && (user || id in t.scores) && id !in t.packages;
            var row := Row(id, Rate(3), xs[5].call.now);
            var rate := xs[5].call.ok && opens && (user || id in t.scores) && 3 in cat.rates && row !in t.rows;
            && s'.accounts == s.accounts && s'.nextId == s.nextId
            && s'.tables.scores == (if user then t.scores[id := 0.0] else t.scores)
            && s'.tables.packages == (if package then t.packages[id := Credit(0, 0, 0, 0)] else t.packages)
            && s'.tables.rows == (if rate then t.rows + {row} else t.rows)
            && f'.stage == Answered(if rate then Success else InternalError, true)
  {
    var (s4, f4) := Advance(scheme, cat, s, f, xs[3]);
    var (s5, f5) := Advance(scheme, cat, s4, f4, xs[4]);
    assert FitsPhone(f.stage.phone) <==> forall k :: 12 <= k < |f.stage.phone| ==> f.stage.phone[k] == ' ';
  }

  /** A registration that finds its login free and then loses the race for it uses up an id and
      changes nothing else; its answer is a success code with a negative status. */
  lemma LostRace(scheme: Scheme, cat: Catalogue, s: Store, f: Signup, x: Circumstance)
    requires f.stage.StoreAccount? && x.call.ok && f.login in s.accounts
    ensures var (s', f') := Advance(scheme, cat, s, f, x);
            s' == s.(nextId := s.nextId + 1) && f'.stage == Answered(Success, false)
  {}

  /** Even with every call committing, registering a new login leaves a complete user behind if
      and only if the login fits the phone column (`FitsPhone`), the role names the operator
      database and the first rate is in the catalogue.  The account is stored in any case, so a
      failed registration cannot be repeated. */
  lemma RegistrationCompletesExactlyWhen(scheme: Scheme, cat: Catalogue, s: Store, f: Signup, xs: seq<Circumstance>)
    requires f.stage.LookUp? && f.login !in s.accounts && IdsDistinct(s)
    requires |xs| == 6 && forall k :: 0 <= k < 6 ==> xs[k].call.ok
    ensures var (s', f') := Solo(scheme, cat, s, f, xs);
            && f.login in s'.accounts && s'.accounts[f.login].id == s.nextId
            && f'.stage == Answered(if Acceptable(cat, f) then Success else InternalError, true)
            && (Complete(s'.tables, s.nextId) <==> Acceptable(cat, f))
  {
    var (s1, f1) := Advance(scheme, cat, s, f, xs[0]);
    var (s2, f2) := Advance(scheme, cat, s1, f1, xs[1]);
    var (s3, f3) := Advance(scheme, cat, s2, f2, xs[2]);
    var (s4, f4) := Advance(scheme, cat, s3, f3, xs[3]);
    var (s5, f5) := Advance(scheme, cat, s4, f4, xs[4]);
    var row := Row(s.nextId, Rate(FIRST_RATE), xs[5].call.now);
    assert f5 == f.(stage := StoreRate(s.nextId));
    if Acceptable(cat, f) {
      assert row in Solo(scheme, cat, s, f, xs).0.tables.rows;
    } else if FIRST_RATE !in cat.rates {
      assert !HasFirstRate(Solo(scheme, cat, s, f, xs).0.tables, s.nextId);
    }
  }
}

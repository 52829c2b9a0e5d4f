/** The login database as the server changes it in place, and AuthLogic's createUser and
    authUser as they are written, hashing with the block loop of CryptoHelper. */
module Accounts {
  import opened Base
  import opened Operator
  import opened Framing
  import opened Crypto
  import opened AuthLogic
  import opened Registration

  class AuthDb {
    var accounts: map<string, Account>
    var nextId: nat

    constructor ()
      ensures accounts == map[] && nextId == 1
    {
      accounts, nextId := map[], 1;
    }

    method IsUserExist(login: string, c: Call) returns (code: Code, exist: bool)
      ensures code == if c.ok then Success else InternalError
      ensures c.ok ==> exist == (login in accounts)
    {
      code, exist := InternalError, false;
      if c.ok {
        code, exist := Success, login in accounts;
      }
    }

    /** The id comes from a sequence, which moves on even when the login is taken. */
    method CreateUser(login: string, pass: Bytes, salt: Bytes, c: Call) returns (code: Code)
      modifies this
      ensures code == if c.ok && login !in old(accounts) then Success else InternalError
      ensures accounts == if code == Success then old(accounts)[login := Account(old(nextId), pass, salt)]
                          else old(accounts)
      ensures nextId == if c.ok then old(nextId) + 1 else old(nextId)
    {
      code := InternalError;
      if c.ok {
        if login !in accounts {
          accounts := accounts[login := Account(nextId, pass, salt)];
          code := Success;
        }
        nextId := nextId + 1;
      }
    }

    /** Success even when no row was found; then the output keeps what the caller had. */
    method GetUserByLogin(login: string, c: Call) returns (code: Code, id: UserId, found: Option<Account>)
      ensures code == if c.ok then Success else InternalError
      ensures found == if c.ok && login in accounts then Some(accounts[login]) else None
      ensures id == if found.Some? then found.value.id else c.junkUser
    {
      code, id, found := InternalError, c.junkUser, None;
      if c.ok {
        if login in accounts {
          id, found := accounts[login].id, Some(accounts[login]);
        }
        code := Success;
      }
    }
  }

  /** Passwords hashed with a streaming hash and printed in hex. */
  function SchemeOf<Ctx>(h: Hash<Ctx>, defaultSalt: Bytes): Scheme {
    Scheme((word: Bytes) => Hex(Digest(h, word)), defaultSalt)
  }

  ghost predicate Usable<Ctx(!new)>(h: Hash<Ctx>) {
    AppendLaw(h) && forall word :: |Digest(h, word)| == BLOCK
  }

  ghost function StoreOf(auth: AuthDb, db: OperatorDb): Store
    reads auth, db
  {
    Store(auth.accounts, auth.nextId, db.Contents())
  }

  /** Under the login role the operator tables do not exist, so the call fails. */
  function OperatorCallOf(role: Role, c: Call): Call { c.(ok := c.ok && !role.AUTH?) }

  /** The last part of createUser: each result overwrites the one before. */
  method OpenUser(auth: AuthDb, db: OperatorDb, ghost scheme: Scheme, ghost f: Signup, id: UserId, phone: string,
                  role: Role,
                  xs: seq<Circumstance>)
    returns (code: Code)
    requires |xs| == 6 && f.role == role && f.stage == StoreUser(id, phone)
    modifies db
    ensures var (s', f') := OperatorPart(scheme, db.cat, old(StoreOf(auth, db)), f, xs);
            StoreOf(auth, db) == s' && f'.stage == Answered(code, true)
  {
    code := db.CreateUser(id, phone, OperatorCallOf(role, xs[3].call));
    code := db.CreateEmptyPackage(id, OperatorCallOf(role, xs[4].call));
    code := db.CreateConnection(id, Rate(FIRST_RATE), OperatorCallOf(role, xs[5].call));
  }

  /** What a registration does up to the operator database. */
  ghost predicate AuthPart(scheme: Scheme, s: Store, f: Signup, xs: seq<Circumstance>, s': Store, f': Signup)
    requires |xs| == 6
  {
    var account := Account(s.nextId, scheme.PassHash(f.pass, xs[1].salt), xs[1].salt);
    if !xs[0].call.ok then s' == s && f' == f.(stage := Answered(InternalError, false))
    else if f.login in s.accounts || !xs[1].call.ok then s' == s && f' == f.(stage := Answered(Success, false))
    else
      && s' == s.(accounts := s.accounts[f.login := account], nextId := s.nextId + 1)
      && f' == f.(stage := if xs[2].call.ok then StoreUser(account.id, f.login) else StoreUser(xs[2].call.junkUser, ""))
  }

  lemma SoloInTwoParts(scheme: Scheme, cat: Catalogue, s: Store, f: Signup, xs: seq<Circumstance>, s3: Store,
                       f3: Signup)
    requires |xs| == 6 && f.stage.LookUp? && AuthPart(scheme, s, f, xs, s3, f3)
    ensures Registration.Solo(scheme, cat, s, f, xs) ==
            if f3.stage.Answered? then (s3, f3) else OperatorPart(scheme, cat, s3, f3, xs)
  {}

  /** How both functions hash: the password, the common salt and the account's own. */
  method HashPassword<Ctx(!new)>(h: Hash<Ctx>, defaultSalt: Bytes, pass: Bytes, salt: Bytes) returns (hash: Bytes)
    requires Usable(h)
    ensures hash == SchemeOf(h, defaultSalt).PassHash(pass, salt)
    ensures hash == Hex(Digest(h, pass + defaultSalt + salt))
  {
    var passWithSalt := pass + defaultSalt;
    var blocks;
    hash, blocks := Md5Hash(h, passWithSalt + salt);
  }

  method StoreAccountAndReadBack<Ctx(!new)>(auth: AuthDb, h: Hash<Ctx>, defaultSalt: Bytes, ghost t: Tables,
                                            ghost role: Role,
                                            login: string, pass: Bytes, xs: seq<Circumstance>)
    returns (code: Code, stored: bool, id: UserId, phone: string)
    requires Usable(h) && |xs| == 6
    modifies auth
    ensures AuthPart(SchemeOf(h, defaultSalt), Store(old(auth.accounts), old(auth.nextId), t),
                     Registration.Launch(login, pass, role), xs,
                     Store(auth.accounts, auth.nextId, t),
                     Signup(login, pass, role, if stored then StoreUser(id, phone) else Answered(code, false)))
  {
    stored, id, phone := false, 0, "";
    var exist;
    code, exist := auth.IsUserExist(login, xs[0].call);
    if code != Success || exist {
      return;
    }
    var salt := xs[1].salt;
    var hashedPass := HashPassword(h, defaultSalt, pass, salt);
    var created := auth.CreateUser(login, hashedPass, salt, xs[1].call);
    if created == Success {
      var read, found;
      read, id, found := auth.GetUserByLogin(login, xs[2].call);
      phone := if found.Some? then login else "";
      stored := true;
    }
  }

  /** AuthLogic::createUser; `status` is what the response message says. */
  method CreateUser<Ctx(!new)>(auth: AuthDb, db: OperatorDb, h: Hash<Ctx>, defaultSalt: Bytes,
                               login: string, pass: Bytes, role: Role, xs: seq<Circumstance>)
    returns (code: Code, status: bool)
    requires Usable(h) && |xs| == 6
    modifies auth, db
    ensures var (s', f') := Registration.Solo(SchemeOf(h, defaultSalt), db.cat, old(StoreOf(auth, db)),
                                              Registration.Launch(login, pass, role), xs);
            StoreOf(auth, db) == s' && f'.stage == Answered(code, status)
    ensures SignedUp(db.cat, old(StoreOf(auth, db)), login, Hex(Digest(h, pass + defaultSalt + xs[1].salt)), role, xs,
                     StoreOf(auth, db), code, status)
  {
    SignupOutcome(SchemeOf(h, defaultSalt), db.cat, StoreOf(auth, db), login, pass, role, xs);
    ghost var scheme, s, f := SchemeOf(h, defaultSalt), StoreOf(auth, db), Registration.Launch(login, pass, role);
    var id, phone;
    code, status, id, phone := StoreAccountAndReadBack(auth, h, defaultSalt, db.Contents(), role, login, pass, xs);
    ghost var f3 := Signup(login, pass, role, if status then StoreUser(id, phone) else Answered(code, false));
    SoloInTwoParts(scheme, db.cat, s, f, xs, StoreOf(auth, db), f3);
    if status {
      code := OpenUser(auth, db, scheme, f3, id, phone, role, xs);
    }
  }

  /** AuthLogic::authUser up to its answer. */
  method AuthUser<Ctx(!new)>(auth: AuthDb, h: Hash<Ctx>, defaultSalt: Bytes, login: string, pass: Bytes,
                             lookUp: Call, read: Call)
    returns (code: Code, status: bool, id: UserId)
    requires Usable(h)
    ensures status <==> lookUp.ok && read.ok && Accepts(SchemeOf(h, defaultSalt), auth.accounts, login, pass)
    ensures status <==>
              lookUp.ok && read.ok && login in auth.accounts &&
              auth.accounts[login].hash == Hex(Digest(h, pass + defaultSalt + auth.accounts[login].salt))
    ensures status ==> id == auth.accounts[login].id
    ensures code == if !lookUp.ok || (login in auth.accounts && !read.ok) then InternalError else Success
  {
    status, id := false, 0;
    var exist;
    code, exist := auth.IsUserExist(login, lookUp);
    if code != Success || !exist {
      return;
    }
    var found;
    code, id, found := auth.GetUserByLogin(login, read);
    if code != Success {
      return;
    }
    var hashedPass := HashPassword(h, defaultSalt, pass, found.value.salt);
    status := hashedPass == found.value.hash;
  }
}

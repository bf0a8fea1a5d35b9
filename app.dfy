/**
 * The account and authentication service: the user table, registration,
 * lookup by id, the signed-token service, the authentication gate that every
 * protected endpoint goes through, and the token endpoint.
 *
 * The clock (`now`, whole seconds) and the hasher's random salt are
 * parameters. The user table is the sequence of its rows in id order, with
 * the next id the store will hand out.
 */
module App {
  import opened Wrappers
  import PasswordContext
  import Serializer

  /** The key every token is signed with. */
  const SecretKey: string := "the quick brown fox jumps over the lazy dog"

  /** Lifetime, in seconds, of the tokens the token endpoint issues. */
  const TokenDuration: nat := 600

  /** Lifetime, in seconds, of a token issued without an explicit expiration. */
  const DefaultExpiration: nat := 600

  /** A row of the user table; the hash is None until one is set. */
  datatype User = User(id: nat, username: string, passwordHash: Option<PasswordContext.PasswordHash>)
  {
    /** This user with its stored hash replaced by a fresh hash of password. */
    function HashPassword(password: string, salt: PasswordContext.Salt): (u: User)
      ensures u.id == id && u.username == username
      ensures u.VerifyPassword(password)
      ensures forall other :: u.VerifyPassword(other) ==> other == password
    {
      this.(passwordHash := Some(PasswordContext.Encrypt(password, salt)))
    }

    /** Whether password is the one whose hash is stored; false when none is. */
    function VerifyPassword(password: string): (ok: bool)
      ensures ok <==> exists salt :: passwordHash == Some(PasswordContext.Encrypt(password, salt))
    {
      match passwordHash
      case None => false
      case Some(h) =>
        var ok := PasswordContext.Verify(password, h);
        assert ok ==> h == PasswordContext.Encrypt(password, h.salt);
        ok
    }

    /** A token for this user, issued at now and valid for expiration seconds. */
    function GenerateAuthToken(now: nat, expiration: nat := DefaultExpiration): (token: string)
      ensures Serializer.Loads(SecretKey, token, now) == Serializer.Valid(Serializer.Claims(now, now + expiration, id))
    {
      var claims := Serializer.Claims(now, now + expiration, id);
      Serializer.LoadsDumps(SecretKey, claims, now);
      Serializer.Dumps(SecretKey, claims)
    }
  }

  /** The body of a JSON reply. */
  datatype Body = UserBody(username: string) | TokenBody(token: string, duration: nat)

  /**
   * A reply: JSON with a status and, for a created user, the id its Location
   * header points to; or an abort with an error status.
   */
  datatype Reply = Json(status: nat, body: Body, location: Option<nat>) | Abort(status: nat)

  datatype Table = Table(rows: seq<User>, nextId: nat)

  /** The table before anyone registers. */
  const EmptyTable: Table := Table([], 1)

  predicate UniqueUsernames(rows: seq<User>) {
    forall i, j :: 0 <= i < j < |rows| ==> rows[i].username != rows[j].username
  }

  predicate UniqueIds(rows: seq<User>) {
    forall i, j :: 0 <= i < j < |rows| ==> rows[i].id != rows[j].id
  }

  /**
   * What the store keeps true: ids are distinct and below the next id, every
   * row carries a hash, and no two rows share a username.
   */
  predicate WellFormed(t: Table) {
    && (forall i :: 0 <= i < |t.rows| ==> t.rows[i].id < t.nextId && t.rows[i].passwordHash.Some?)
    && UniqueIds(t.rows)
    && UniqueUsernames(t.rows)
  }

  /** The row with the given id, if any. */
  function FindById(rows: seq<User>, id: nat): (r: Option<User>)
    ensures r.Some? ==> r.value in rows && r.value.id == id
    ensures r.None? <==> forall u :: u in rows ==> u.id != id
  {
    if rows == [] then None
    else if rows[0].id == id then Some(rows[0])
    else FindById(rows[1..], id)
  }

  /** The first row with the given username, if any. */
  function FindByUsername(rows: seq<User>, name: string): (r: Option<User>)
    ensures r.Some? ==> r.value in rows && r.value.username == name
    ensures r.None? <==> forall u :: u in rows ==> u.username != name
  {
    if rows == [] then None
    else if rows[0].username == name then Some(rows[0])
    else FindByUsername(rows[1..], name)
  }

  /**
   * Registration: the new table and the reply. Rejected with 400, leaving the
   * table as it is, when a field is missing or the username is taken.
   */
  function Register(t: Table, username: Option<string>, password: Option<string>,
                    salt: PasswordContext.Salt): (r: (Table, Reply))
    ensures username.None? || password.None? ==> r == (t, Abort(400))
    ensures username.Some? && FindByUsername(t.rows, username.value).Some? ==> r == (t, Abort(400))
    ensures username.Some? && password.Some? && FindByUsername(t.rows, username.value).None? ==>
      && |r.0.rows| == |t.rows| + 1
      && r.0.rows[..|t.rows|] == t.rows
      && r.0.rows[|t.rows|].username == username.value
      && r.0.rows[|t.rows|].VerifyPassword(password.value)
      && r.1 == Json(201, UserBody(username.value), Some(r.0.rows[|t.rows|].id))
      && (WellFormed(t) ==> forall u :: u in t.rows ==> u.id != r.0.rows[|t.rows|].id)
    ensures WellFormed(t) ==> WellFormed(r.0)
  {
    if username.None? || password.None? then (t, Abort(400))
    else if FindByUsername(t.rows, username.value).Some? then (t, Abort(400))
    else
      var user := User(t.nextId, username.value, None).HashPassword(password.value, salt);
      (Table(t.rows + [user], t.nextId + 1), Json(201, UserBody(user.username), Some(user.id)))
  }

  /** One registration request: the JSON fields and the salt the hasher draws. */
  datatype Registration = Registration(username: Option<string>, password: Option<string>, salt: PasswordContext.Salt)

  /** The table after the given registrations, in order. */
  function Replay(t: Table, regs: seq<Registration>): Table
    decreases |regs|
  {
    if regs == [] then t
    else Replay(Register(t, regs[0].username, regs[0].password, regs[0].salt).0, regs[1..])
  }

  lemma {:induction false} ReplayKeepsWellFormed(t: Table, regs: seq<Registration>)
    requires WellFormed(t)
    ensures WellFormed(Replay(t, regs))
    decreases |regs|
  {
    if regs != [] {
      ReplayKeepsWellFormed(Register(t, regs[0].username, regs[0].password, regs[0].salt).0, regs[1..]);
    }
  }

  /** Starting from the empty table, no sequence of registrations yields two rows with one username. */
  lemma UsernamesStayUnique(regs: seq<Registration>)
    ensures UniqueUsernames(Replay(EmptyTable, regs).rows)
  {
    ReplayKeepsWellFormed(EmptyTable, regs);
  }

  /** In a well-formed table, a stored row is found by its id. */
  lemma {:induction false} FindByIdOfStored(rows: seq<User>, u: User)
    requires UniqueIds(rows) && u in rows
    ensures FindById(rows, u.id) == Some(u)
  {
    if rows[0] != u {
      assert UniqueIds(rows[1..]) by {
        forall i, j | 0 <= i < j < |rows[1..]| ensures rows[1..][i].id != rows[1..][j].id {
          assert rows[1..][i] == rows[i + 1] && rows[1..][j] == rows[j + 1];
        }
      }
      FindByIdOfStored(rows[1..], u);
    }
  }

  /** In a table without duplicate usernames, a stored row is found by its username. */
  lemma {:induction false} FindByUsernameOfStored(rows: seq<User>, u: User)
    requires UniqueUsernames(rows) && u in rows
    ensures FindByUsername(rows, u.username) == Some(u)
  {
    if rows[0] != u {
      assert UniqueUsernames(rows[1..]) by {
        forall i, j | 0 <= i < j < |rows[1..]| ensures rows[1..][i].username != rows[1..][j].username {
          assert rows[1..][i] == rows[i + 1] && rows[1..][j] == rows[j + 1];
        }
      }
      FindByUsernameOfStored(rows[1..], u);
    }
  }

  /** The user endpoint: 400 exactly when no row has the id, otherwise 200 and its username. */
  function GetUser(rows: seq<User>, id: nat): (r: Reply)
    ensures r.Abort? <==> forall u :: u in rows ==> u.id != id
    ensures r.Abort? ==> r.status == 400
    ensures r.Json? ==> r.status == 200 && exists u :: u in rows && u.id == id && r.body == UserBody(u.username)
  {
    match FindById(rows, id)
    case None => Abort(400)
    case Some(user) => Json(200, UserBody(user.username), None)
  }

  lemma GetUserOfStored(t: Table, u: User)
    requires WellFormed(t) && u in t.rows
    ensures GetUser(t.rows, u.id) == Json(200, UserBody(u.username), None)
  {
    FindByIdOfStored(t.rows, u);
  }

  /** The user a token stands for at time now: None when it is expired or badly signed. */
  function VerifyAuthToken(rows: seq<User>, token: string, now: nat): (r: Option<User>)
    ensures r.Some? ==> r.value in rows
  {
    match Serializer.Loads(SecretKey, token, now)
    case Expired(_) => None
    case BadSignature => None
    case Valid(data) => FindById(rows, data.id)
  }

  /**
   * A correctly signed, unexpired token yields the row under the id it
   * carries, or None when there is no such row.
   */
  lemma VerifyWellSignedToken(rows: seq<User>, c: Serializer.Claims, now: nat)
    requires now <= c.exp
    ensures VerifyAuthToken(rows, Serializer.Dumps(SecretKey, c), now) == FindById(rows, c.id)
  {
    Serializer.LoadsDumps(SecretKey, c, now);
  }

  /** An accepted token is the signature of claims that are unexpired and name the user's id. */
  lemma VerifiedTokenWasSigned(rows: seq<User>, token: string, now: nat) returns (c: Serializer.Claims)
    requires VerifyAuthToken(rows, token, now).Some?
    ensures token == Serializer.Dumps(SecretKey, c) && now <= c.exp
    ensures VerifyAuthToken(rows, token, now).value.id == c.id
  {
    c := Serializer.Loads(SecretKey, token, now).claims;
    Serializer.LoadsValidIff(SecretKey, token, now, c);
  }

  /** Once its expiry time is past, a token yields no user. */
  lemma VerifyExpiredToken(rows: seq<User>, c: Serializer.Claims, now: nat)
    requires c.exp < now
    ensures VerifyAuthToken(rows, Serializer.Dumps(SecretKey, c), now) == None
  {
    Serializer.LoadsDumps(SecretKey, c, now);
  }

  /** A signed text carrying any signature but its own yields no user. */
  lemma VerifyForgedToken(rows: seq<User>, signed: string, forged: string, now: nat)
    requires '.' !in forged && forged != Serializer.Sign(SecretKey, signed)
    ensures VerifyAuthToken(rows, signed + "." + forged, now) == None
  {
    Serializer.LoadsRejectsForgedSignature(SecretKey, signed, forged, now);
  }

  /**
   * A token issued to a stored user at time issued with lifetime e yields that
   * user at every time up to issued + e, and no user after it.
   */
  lemma IssuedTokenRoundTrip(t: Table, u: User, issued: nat, e: nat, now: nat)
    requires WellFormed(t) && u in t.rows
    ensures now <= issued + e ==> VerifyAuthToken(t.rows, u.GenerateAuthToken(issued, e), now) == Some(u)
    ensures issued + e < now ==> VerifyAuthToken(t.rows, u.GenerateAuthToken(issued, e), now) == None
  {
    Serializer.LoadsDumps(SecretKey, Serializer.Claims(issued, issued + e, u.id), now);
    FindByIdOfStored(t.rows, u);
  }

  /**
   * The gate: the identifier as a token first; failing that, the identifier as
   * a username whose stored hash must verify the password.
   */
  function Authenticate(rows: seq<User>, usernameOrToken: string, password: string, now: nat): (r: Option<User>)
    ensures r.Some? ==> r.value in rows
    ensures VerifyAuthToken(rows, usernameOrToken, now).Some? ==> r == VerifyAuthToken(rows, usernameOrToken, now)
  {
    match VerifyAuthToken(rows, usernameOrToken, now)
    case Some(user) => Some(user)
    case None =>
      match FindByUsername(rows, usernameOrToken)
      case None => None
      case Some(user) => if user.VerifyPassword(password) then Some(user) else None
  }

  /** A live token authenticates its user whatever password comes with it. */
  lemma GateAcceptsLiveToken(t: Table, u: User, issued: nat, e: nat, now: nat, password: string)
    requires WellFormed(t) && u in t.rows && now <= issued + e
    ensures Authenticate(t.rows, u.GenerateAuthToken(issued, e), password, now) == Some(u)
  {
    IssuedTokenRoundTrip(t, u, issued, e, now);
  }

  /**
   * When the identifier is not a live token, the gate admits exactly the
   * stored user with that username whose hash verifies the password.
   */
  lemma GateFallbackIff(t: Table, name: string, password: string, now: nat, u: User)
    requires WellFormed(t) && VerifyAuthToken(t.rows, name, now).None?
    ensures Authenticate(t.rows, name, password, now) == Some(u) <==>
              u in t.rows && u.username == name && u.VerifyPassword(password)
  {
    if u in t.rows && u.username == name {
      FindByUsernameOfStored(t.rows, u);
    }
  }

  /** Without a live token and a matching row whose hash verifies the password, the gate refuses. */
  lemma GateRefusesBadCredentials(t: Table, name: string, password: string, now: nat)
    requires WellFormed(t) && VerifyAuthToken(t.rows, name, now).None?
    requires forall u :: u in t.rows && u.username == name ==> !u.VerifyPassword(password)
    ensures Authenticate(t.rows, name, password, now) == None
  {
  }

  /**
   * After a successful registration the new user logs in with its username
   * and password (unless the username is itself a live token), and with no
   * other password.
   */
  lemma GateAdmitsRegisteredUser(t: Table, name: string, password: string, salt: PasswordContext.Salt,
                                 now: nat, attempt: string)
    requires WellFormed(t) && FindByUsername(t.rows, name).None?
    requires VerifyAuthToken(Register(t, Some(name), Some(password), salt).0.rows, name, now).None?
    ensures var t' := Register(t, Some(name), Some(password), salt).0;
            Authenticate(t'.rows, name, attempt, now) ==
              if attempt == password then Some(t'.rows[|t.rows|]) else None
  {
    var t' := Register(t, Some(name), Some(password), salt).0;
    var u := t'.rows[|t.rows|];
    assert u in t'.rows;
    FindByUsernameOfStored(t'.rows, u);
  }

  /** The reply of the token endpoint: 401 when the gate refuses, else a fresh token and its lifetime. */
  function TokenReply(rows: seq<User>, usernameOrToken: string, password: string, now: nat): (r: Reply)
    ensures r.Abort? <==> Authenticate(rows, usernameOrToken, password, now).None?
    ensures r.Abort? ==> r.status == 401
    ensures r.Json? ==> r.status == 200 && r.body.TokenBody? && r.body.duration == TokenDuration
  {
    match Authenticate(rows, usernameOrToken, password, now)
    case None => Abort(401)
    case Some(user) => Json(200, TokenBody(user.GenerateAuthToken(now, TokenDuration), TokenDuration), None)
  }

  /**
   * The token endpoint answers 401 exactly when the gate refuses; otherwise
   * it reports a lifetime of 600 seconds and a token that authenticates the
   * same user, with any password, at every time up to now + 600.
   */
  lemma TokenReplyRoundTrip(t: Table, usernameOrToken: string, password: string, now: nat,
                            later: nat, anyPassword: string)
    requires WellFormed(t)
    ensures TokenReply(t.rows, usernameOrToken, password, now) == Abort(401) <==>
              Authenticate(t.rows, usernameOrToken, password, now).None?
    ensures var r := TokenReply(t.rows, usernameOrToken, password, now);
            r.Json? && later <= now + 600 ==>
              && r.status == 200 && r.body.duration == 600
              && Authenticate(t.rows, r.body.token, anyPassword, later) == Authenticate(t.rows, usernameOrToken, password, now)
  {
    var user := Authenticate(t.rows, usernameOrToken, password, now);
    if user.Some? && later <= now + 600 {
      GateAcceptsLiveToken(t, user.value, now, TokenDuration, later, anyPassword);
    }
  }

  /** The user store: the table's rows and the next id it hands out. */
  class UserStore {
    var rows: seq<User>
    var nextId: nat

    ghost predicate Valid()
      reads this
    {
      WellFormed(Table(rows, nextId))
    }

    constructor ()
      ensures Valid() && Table(rows, nextId) == EmptyTable
    {
      rows := [];
      nextId := 1;
    }

    /** The registration endpoint. */
    method NewUser(username: Option<string>, password: Option<string>, salt: PasswordContext.Salt)
      returns (reply: Reply)
      requires Valid()
      modifies this
      ensures Valid()
      ensures (Table(rows, nextId), reply) == Register(old(Table(rows, nextId)), username, password, salt)
    {
      if username.None? || password.None? {
        return Abort(400);
      }
      if FindByUsername(rows, username.value).Some? {
        return Abort(400);
      }
      var user := User(nextId, username.value, None);
      user := user.HashPassword(password.value, salt);
      rows := rows + [user];
      nextId := nextId + 1;
      reply := Json(201, UserBody(user.username), Some(user.id));
    }
  }

  /** The request-scoped globals; `user` is the identity bound by the gate. */
  class RequestGlobals {
    var user: Option<User>

    constructor ()
      ensures user == None
    {
      user := None;
    }
  }

  /** The authentication gate: binds the authenticated user to g on success; g is untouched on failure. */
  method VerifyPassword(store: UserStore, g: RequestGlobals, usernameOrToken: string, password: string, now: nat)
    returns (ok: bool)
    modifies g
    ensures ok <==> Authenticate(store.rows, usernameOrToken, password, now).Some?
    ensures g.user == if ok then Authenticate(store.rows, usernameOrToken, password, now) else old(g.user)
  {
    var user := VerifyAuthToken(store.rows, usernameOrToken, now);
    if user.None? {
      user := FindByUsername(store.rows, usernameOrToken);
      if user.None? || !user.value.VerifyPassword(password) {
        return false;
      }
    }
    g.user := user;
    return true;
  }

  /** The token endpoint behind the gate: 401 on refusal, else a 600-second token for the bound user. */
  method GetAuthToken(store: UserStore, g: RequestGlobals, usernameOrToken: string, password: string, now: nat)
    returns (reply: Reply)
    modifies g
    ensures reply == TokenReply(store.rows, usernameOrToken, password, now)
    ensures reply.Json? ==> g.user == Authenticate(store.rows, usernameOrToken, password, now)
    ensures reply.Abort? ==> g.user == old(g.user)
  {
    var ok := VerifyPassword(store, g, usernameOrToken, password, now);
    if !ok {
      return Abort(401);
    }
    var token := g.user.value.GenerateAuthToken(now, TokenDuration);
    reply := Json(200, TokenBody(token, TokenDuration), None);
  }
}

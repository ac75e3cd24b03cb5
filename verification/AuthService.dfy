/** The user table and token service of src/auth/AuthService.cpp. */
module AuthService {
  import opened Options
  import opened Octets
  import opened FindIf
  import opened Jwt
  import Decimal
  import Radix
  import Fips180
  import StreamingHash

  datatype User = User(
    id: Bytes, username: Bytes, email: Bytes, role: Bytes, passwordHash: Bytes, enabled: bool, createdAt: int)

  datatype Response =
    | Granted(token: Bytes, userId: Bytes, username: Bytes, role: Bytes, expiresAt: int)
    | Refused(error: string)
    | Threw  // token creation threw

  datatype Lookup = Found(user: User) | Nobody | BadPayload  // BadPayload: reading sub threw

  const ISSUER: Bytes := Ascii("freebuff")
  const LIFETIME: int := 86400
  const SUB: Bytes := Ascii("sub")

  // ----- the table as a value

  datatype Table = Table(users: seq<User>, next: nat)

  function HashPassword(password: Bytes): Bytes {
    StreamingHash.Hex(Fips180.Sha256Of(password + Ascii(":freebuff:salt")))
  }

  /** The position of the first user with the id, or the number of users. */
  function IndexOfId(users: seq<User>, id: Bytes): nat {
    FirstIndex(users, (u: User) => u.id == id)
  }

  function IndexOfName(users: seq<User>, username: Bytes): nat {
    FirstIndex(users, (u: User) => u.username == username)
  }

  function ById(users: seq<User>, id: Bytes): Option<User> {
    var i := IndexOfId(users, id);
    if i < |users| then Some(users[i]) else None
  }

  function ByName(users: seq<User>, username: Bytes): Option<User> {
    var i := IndexOfName(users, username);
    if i < |users| then Some(users[i]) else None
  }

  /** "user-" and the number with at least three digits. */
  function UserId(n: nat): Bytes {
    Ascii("user-") + Decimal.DigitText(Decimal.Padded(n, 3))
  }

  function Seeded(now: int): Table {
    Table([
      User(Ascii("user-001"), Ascii("admin"), Ascii("admin@freebuff.com"), Ascii("admin"),
           HashPassword(Ascii("admin123")), true, now),
      User(Ascii("user-002"), Ascii("merchant1"), Ascii("merchant1@freebuff.com"), Ascii("merchant"),
           HashPassword(Ascii("merchant123")), true, now),
      User(Ascii("user-003"), Ascii("demo"), Ascii("demo@freebuff.com"), Ascii("merchant"),
           HashPassword(Ascii("demo123")), true, now)
    ], 4)
  }

  /** The payload of a user's token. */
  function Payload(u: User): Json {
    Obj(map[SUB := Str(u.id), Ascii("username") := Str(u.username),
            Ascii("role") := Str(u.role), Ascii("email") := Str(u.email)])
  }

  /** A token issued to u when the clock shows `now`. */
  function TokenFor(lib: Library, secret: Bytes, u: User, now: int): Option<Bytes> {
    Created(lib, Payload(u), secret, ISSUER, LIFETIME, now)
  }

  /** The answer to a user who may have a token; `now` and `tokenNow` are the two clock readings. */
  function Grant(lib: Library, secret: Bytes, u: User, now: int, tokenNow: int): Response {
    var token := TokenFor(lib, secret, u, tokenNow);
    if token.None? then Threw else Granted(token.value, u.id, u.username, u.role, now + LIFETIME)
  }

  /** Why a registration is refused, if it is. */
  function Objection(t: Table, username: Bytes, email: Bytes, password: Bytes): Option<string> {
    if username == [] || email == [] || password == [] then Some("Username, email and password are required")
    else if |password| < 6 then Some("Password must be at least 6 characters")
    else if ByName(t.users, username).Some? then Some("Username already exists")
    else None
  }

  function NewUser(t: Table, username: Bytes, email: Bytes, password: Bytes, role: Bytes, now: int): User {
    User(UserId(t.next), username, email, role, HashPassword(password), true, now)
  }

  // ----- runs

  datatype Op =
    | Register(username: Bytes, email: Bytes, password: Bytes, role: Bytes, now: int)
    | Login(username: Bytes, password: Bytes)
    | Delete(id: Bytes)

  function After(t: Table, op: Op): Table {
    match op
    case Register(username, email, password, role, now) =>
      if Objection(t, username, email, password).Some? then t
      else Table(t.users + [NewUser(t, username, email, password, role, now)], t.next + 1)
    case Login(_, _) => t
    case Delete(id) =>
      var i := IndexOfId(t.users, id);
      if i < |t.users| then t.(users := t.users[..i] + t.users[i + 1..]) else t
  }

  function Run(t: Table, ops: seq<Op>): Table
    decreases ops
  {
    if ops == [] then t else Run(After(t, ops[0]), ops[1..])
  }

  /** Ids and usernames are pairwise distinct, and every id was made from a spent number. */
  ghost predicate Sound(t: Table) {
    && (forall i, j :: 0 <= i < j < |t.users| ==> t.users[i].id != t.users[j].id)
    && (forall i, j :: 0 <= i < j < |t.users| ==> t.users[i].username != t.users[j].username)
    && (forall i :: 0 <= i < |t.users| ==> Spent(t.users[i].id, t.next))
  }

  /** The id of a number the counter has passed. */
  ghost predicate Spent(id: Bytes, next: nat) {
    exists n: nat :: n < next && id == UserId(n)
  }

  lemma UserIdInjective(m: nat, n: nat)
    requires UserId(m) == UserId(n)
    ensures m == n
  {
    var d, e := Decimal.Padded(m, 3), Decimal.Padded(n, 3);
    assert UserId(m)[5..] == Decimal.DigitText(d) && UserId(n)[5..] == Decimal.DigitText(e);
    Decimal.TextOfDigits(d);
    Decimal.TextOfDigits(e);
  }

  lemma SeededSound(now: int)
    ensures Sound(Seeded(now))
  {
    hide HashPassword, Ascii, UserId;
    var users := Seeded(now).users;
    SeedId(1);
    SeedId(2);
    SeedId(3);
    assert users[0].id == UserId(1) && users[1].id == UserId(2) && users[2].id == UserId(3);
    if UserId(1) == UserId(2) { UserIdInjective(1, 2); }
    if UserId(1) == UserId(3) { UserIdInjective(1, 3); }
    if UserId(2) == UserId(3) { UserIdInjective(2, 3); }
    assert |users[0].username| == 5 && |users[1].username| == 9 && |users[2].username| == 4;
    assert Spent(users[0].id, 4) && Spent(users[1].id, 4) && Spent(users[2].id, 4);
  }

  lemma SeedId(n: nat)
    requires 1 <= n <= 3
    ensures UserId(n) == Ascii(["user-001", "user-002", "user-003"][n - 1])
  {
    assert Decimal.DigitsOf(n) == [n];
    assert Decimal.Padded(n, 3) == [0, 0, n];
    hide Decimal.DigitsOf, Decimal.Padded;
    var text := ["user-001", "user-002", "user-003"][n - 1];
    assert text == "user-" + text[5..];
    assert Decimal.DigitText([0, 0, n]) == Ascii(text[5..]);
    AsciiConcat("user-", text[5..]);
  }

  lemma AsciiConcat(a: string, b: string)
    ensures Ascii(a + b) == Ascii(a) + Ascii(b)
  {
  }

  /** An id the counter has not reached belongs to no user. */
  lemma NextIdIsFree(t: Table)
    requires Sound(t)
    ensures !Spent(UserId(t.next), t.next)
    ensures IndexOfId(t.users, UserId(t.next)) == |t.users|
  {
    hide UserId;
    if Spent(UserId(t.next), t.next) {
      var n: nat :| n < t.next && UserId(t.next) == UserId(n);
      UserIdInjective(t.next, n);
    }
  }

  lemma SpentGrows(id: Bytes, next: nat)
    requires Spent(id, next)
    ensures Spent(id, next + 1)
  {
  }

  /** A user with a free name behind the others, and the number of its id used up. */
  lemma RegisteredSound(t: Table, u: User)
    requires Sound(t) && u.id == UserId(t.next) && IndexOfName(t.users, u.username) == |t.users|
    ensures Sound(Table(t.users + [u], t.next + 1))
  {
    hide UserId;
    var users := t.users + [u];
    NextIdIsFree(t);
    assert Spent(u.id, t.next + 1);
    forall i | 0 <= i < |users| ensures Spent(users[i].id, t.next + 1) {
      if i < |t.users| {
        SpentGrows(t.users[i].id, t.next);
      }
    }
    forall i, j | 0 <= i < j < |users| ensures users[i].id != users[j].id && users[i].username != users[j].username {
      assert users[i] == t.users[i];
    }
  }

  lemma ErasedSound(t: Table, k: nat)
    requires Sound(t) && k < |t.users|
    ensures Sound(t.(users := t.users[..k] + t.users[k + 1..]))
  {
    hide Spent;
  }

  lemma AfterSound(t: Table, op: Op)
    requires Sound(t)
    ensures Sound(After(t, op)) && t.next <= After(t, op).next <= t.next + 1
  {
    hide UserId, HashPassword, Sound;
    match op
    case Register(username, email, password, role, now) =>
      if Objection(t, username, email, password).None? {
        RegisteredSound(t, NewUser(t, username, email, password, role, now));
      }
    case Login(_, _) =>
    case Delete(id) =>
      if IndexOfId(t.users, id) < |t.users| {
        ErasedSound(t, IndexOfId(t.users, id));
      }
  }

  /** Every run keeps ids and usernames pairwise distinct and the counter ahead of the ids. */
  lemma {:induction false} RunSound(t: Table, ops: seq<Op>)
    requires Sound(t)
    ensures Sound(Run(t, ops)) && t.next <= Run(t, ops).next
    decreases ops
  {
    if ops != [] {
      AfterSound(t, ops[0]);
      RunSound(After(t, ops[0]), ops[1..]);
    }
  }

  // ----- where an id leads

  lemma IdAfterRegister(t: Table, op: Op, id: Bytes)
    requires Sound(t) && Spent(id, t.next) && op.Register?
    ensures ById(After(t, op).users, id) == ById(t.users, id)
  {
    hide UserId, HashPassword;
    var i, t' := IndexOfId(t.users, id), After(t, op);
    NextIdIsFree(t);
    assert UserId(t.next) != id;
    IndexIs(t'.users, id, if i < |t.users| then i else |t'.users|);
  }

  /** Where ids differ, erasing one user leaves every other id where it led. */
  lemma ByIdAfterErase(users: seq<User>, k: nat, id: Bytes)
    requires forall i, j :: 0 <= i < j < |users| ==> users[i].id != users[j].id
    requires k < |users|
    ensures ById(users[..k] + users[k + 1..], id) == if id == users[k].id then None else ById(users, id)
  {
    hide FirstIndex;
    var i, left := IndexOfId(users, id), users[..k] + users[k + 1..];
    if i < k {
      IndexIs(left, id, i);
    } else if i == k || i == |users| {
      IndexIs(left, id, |left|);
    } else {
      IndexIs(left, id, i - 1);
    }
  }

  lemma IdAfterDelete(t: Table, gone: Bytes, id: Bytes)
    requires Sound(t)
    ensures ById(After(t, Delete(gone)).users, id) == if id == gone then None else ById(t.users, id)
  {
    var k := IndexOfId(t.users, gone);
    hide Spent, FirstIndex, Objection, NewUser;
    if k < |t.users| {
      ByIdAfterErase(t.users, k, id);
    }
  }

  lemma SpentAfter(t: Table, op: Op, id: Bytes)
    requires Spent(id, t.next)
    ensures Spent(id, After(t, op).next)
  {
    hide Spent, NewUser;
    SpentGrows(id, t.next);
  }

  /** One operation leaves the user an id leads to as it was, unless it deletes that id. */
  lemma IdAfter(t: Table, op: Op, id: Bytes)
    requires Sound(t) && Spent(id, t.next)
    ensures Spent(id, After(t, op).next)
    ensures ById(After(t, op).users, id) == if op == Delete(id) then None else ById(t.users, id)
  {
    SpentAfter(t, op, id);
    if op.Register? {
      hide *;
      IdAfterRegister(t, op, id);
    } else if op.Delete? {
      hide *;
      IdAfterDelete(t, op.id, id);
    }
  }

  lemma IndexIs(users: seq<User>, id: Bytes, i: nat)
    requires i <= |users|
    requires i < |users| ==> users[i].id == id
    requires forall j :: 0 <= j < i ==> users[j].id != id
    ensures IndexOfId(users, id) == i
  {
  }

  /** Over every run an id leads to the same user until it is deleted, and from then on to nobody. */
  lemma {:induction false} IdOverRun(t: Table, ops: seq<Op>, id: Bytes)
    requires Sound(t) && Spent(id, t.next)
    ensures ById(Run(t, ops).users, id) == if Delete(id) in ops then None else ById(t.users, id)
    decreases ops
  {
    hide ById, Sound, Spent, After;
    if ops == [] {
    } else {
      AfterSound(t, ops[0]);
      IdAfter(t, ops[0], id);
      IdOverRun(After(t, ops[0]), ops[1..], id);
      assert ops == [ops[0]] + ops[1..];
    }
  }

  // ----- tokens

  function Resolved(lib: Library, t: Table, secret: Bytes, token: Bytes, now: int): Lookup {
    var payload := Verified(lib, token, secret, ISSUER, now);
    if payload.None? then Nobody
    else if !Has(payload.value, SUB) || !payload.value.members[SUB].Str? then BadPayload
    else
      var user := ById(t.users, payload.value.members[SUB].s);
      if user.None? then Nobody else Found(user.value)
  }

  /**
   A token resolves to the very user it was issued for, while it has not expired and that user
   has not been deleted, and otherwise to nobody, whatever else happened to the table.
   */
  lemma TokenOverRun(lib: Library, t: Table, secret: Bytes, u: User, now: int, ops: seq<Op>, later: int)
    requires Lossless(lib) && Sound(t) && ById(t.users, u.id) == Some(u)
    requires -0x8000_0000_0000_0000 <= now + LIFETIME < 0x8000_0000_0000_0000
    requires TokenFor(lib, secret, u, now).Some?
    ensures Resolved(lib, Run(t, ops), secret, TokenFor(lib, secret, u, now).value, later) ==
            if later <= now + LIFETIME && Delete(u.id) !in ops then Found(u) else Nobody
  {
    hide Verified, Created, Run, UserId;
    CreatedVerifies(lib, Payload(u), secret, ISSUER, LIFETIME, now, later);
    IdOverRun(t, ops, u.id);
    var claims := Claims(Payload(u), ISSUER, LIFETIME, now).value;
    assert Has(claims, SUB) && claims.members[SUB] == Str(u.id) by {
      assert SUB[0] == 115 && EXP[0] == 101 && ISS[0] == 105 && IAT[0] == 105;
      PayloadSub(u);
    }
  }

  lemma PayloadSub(u: User)
    ensures Payload(u).members[SUB] == Str(u.id)
  {
    assert |SUB| == 3 && |Ascii("username")| == 8 && |Ascii("role")| == 4 && |Ascii("email")| == 5;
  }

  // ----- the answers of login and registerUser

  function LoginAnswer(lib: Library, t: Table, secret: Bytes, username: Bytes, password: Bytes,
                       tokenNow: int, now: int): Response
  {
    var user := ByName(t.users, username);
    if user.None? then Refused("Invalid username or password")
    else if !user.value.enabled then Refused("Account is disabled")
    else if HashPassword(password) != user.value.passwordHash then Refused("Invalid username or password")
    else Grant(lib, secret, user.value, now, tokenNow)
  }

  function RegisterAnswer(lib: Library, t: Table, secret: Bytes, op: Op, tokenNow: int): Response
    requires op.Register?
  {
    var objection := Objection(t, op.username, op.email, op.password);
    if objection.Some? then Refused(objection.value)
    else Grant(lib, secret, NewUser(t, op.username, op.email, op.password, op.role, op.now), op.now, tokenNow)
  }

  /** A token handed out by login is one for the user who has the given name and password. */
  lemma LoginToken(lib: Library, t: Table, secret: Bytes, username: Bytes, password: Bytes, tokenNow: int, now: int)
    returns (u: User)
    requires Sound(t) && LoginAnswer(lib, t, secret, username, password, tokenNow, now).Granted?
    ensures var r := LoginAnswer(lib, t, secret, username, password, tokenNow, now);
            && u.username == username == r.username && u.id == r.userId && u.role == r.role
            && r.expiresAt == now + LIFETIME
            && u.passwordHash == HashPassword(password)
            && ById(t.users, u.id) == Some(u) && TokenFor(lib, secret, u, tokenNow) == Some(r.token)
  {
    hide HashPassword, TokenFor;
    var i := IndexOfName(t.users, username);
    u := t.users[i];
    IndexIs(t.users, u.id, i);
  }

  /** A token handed out by registerUser is one for the user it has just added. */
  lemma RegisterToken(lib: Library, t: Table, secret: Bytes, op: Op, tokenNow: int) returns (u: User)
    requires Sound(t) && op.Register? && RegisterAnswer(lib, t, secret, op, tokenNow).Granted?
    ensures var r := RegisterAnswer(lib, t, secret, op, tokenNow);
            && u.username == op.username == r.username && u.id == r.userId && u.role == op.role == r.role
            && r.expiresAt == op.now + LIFETIME
            && u.id == UserId(t.next)
            && ById(t.users, u.id) == None
            && ById(After(t, op).users, u.id) == Some(u) && TokenFor(lib, secret, u, tokenNow) == Some(r.token)
  {
    hide HashPassword, TokenFor, UserId;
    u := NewUser(t, op.username, op.email, op.password, op.role, op.now);
    NextIdIsFree(t);
    IndexIs(After(t, op).users, u.id, |t.users|);
  }

  /** Every table a run can produce from the seeded one. */
  ghost predicate Reachable(t: Table) {
    exists now: int, ops: seq<Op> :: t == Run(Seeded(now), ops)
  }

  lemma ReachableSound(t: Table)
    requires Reachable(t)
    ensures Sound(t)
  {
    hide Sound, Seeded, Run;
    var now: int, ops: seq<Op> :| t == Run(Seeded(now), ops);
    SeededSound(now);
    RunSound(Seeded(now), ops);
  }

  /** The seeded table is reachable, and its administrator can log in. */
  lemma SeededAdminLogsIn(lib: Library, secret: Bytes, seededAt: int, tokenNow: int, now: int)
    ensures Reachable(Seeded(seededAt))
    ensures LoginAnswer(lib, Seeded(seededAt), secret, Ascii("admin"), Ascii("admin123"), tokenNow, now) ==
            Grant(lib, secret, Seeded(seededAt).users[0], now, tokenNow)
  {
    hide HashPassword, Grant, Ascii;
    var t := Seeded(seededAt);
    assert t == Run(t, []);
    NameIs(t.users, Ascii("admin"), 0);
  }

  /** Tokens from login, followed over every run from every reachable table. */
  lemma LoginTokenOverRun(lib: Library, t: Table, secret: Bytes, username: Bytes, password: Bytes,
                          tokenNow: int, now: int, ops: seq<Op>, later: int)
    requires Lossless(lib) && Reachable(t)
    requires LoginAnswer(lib, t, secret, username, password, tokenNow, now).Granted?
    requires -0x8000_0000_0000_0000 <= tokenNow + LIFETIME < 0x8000_0000_0000_0000
    ensures var r := LoginAnswer(lib, t, secret, username, password, tokenNow, now);
            && ById(t.users, r.userId).Some?
            && Resolved(lib, Run(t, ops), secret, r.token, later) ==
               if later <= tokenNow + LIFETIME && Delete(r.userId) !in ops
               then Found(ById(t.users, r.userId).value) else Nobody
  {
    hide Sound, Lossless, Resolved, LoginAnswer, Reachable, Run, ById, TokenFor;
    ReachableSound(t);
    var u := LoginToken(lib, t, secret, username, password, tokenNow, now);
    TokenOverRun(lib, t, secret, u, tokenNow, ops, later);
  }

  /** Tokens from registerUser, followed over every run from every reachable table. */
  lemma RegisterTokenOverRun(lib: Library, t: Table, secret: Bytes, op: Op, tokenNow: int, ops: seq<Op>, later: int)
    requires Lossless(lib) && Reachable(t) && op.Register?
    requires RegisterAnswer(lib, t, secret, op, tokenNow).Granted?
    requires -0x8000_0000_0000_0000 <= tokenNow + LIFETIME < 0x8000_0000_0000_0000
    ensures var r := RegisterAnswer(lib, t, secret, op, tokenNow);
            && ById(t.users, r.userId).None? && ById(After(t, op).users, r.userId).Some?
            && Resolved(lib, Run(After(t, op), ops), secret, r.token, later) ==
               if later <= tokenNow + LIFETIME && Delete(r.userId) !in ops
               then Found(ById(After(t, op).users, r.userId).value) else Nobody
  {
    hide Sound, Lossless, Resolved, RegisterAnswer, Reachable, Run, ById, TokenFor, After;
    ReachableSound(t);
    AfterSound(t, op);
    var u := RegisterToken(lib, t, secret, op, tokenNow);
    TokenOverRun(lib, After(t, op), secret, u, tokenNow, ops, later);
  }

  /** Once deleted, an id is never issued again. */
  lemma DeletedIdStaysFree(t: Table, id: Bytes, ops: seq<Op>)
    requires Sound(t) && ById(t.users, id).Some?
    ensures ById(Run(After(t, Delete(id)), ops).users, id).None?
  {
    hide Run, UserId;
    var i := IndexOfId(t.users, id);
    assert Spent(id, t.next);
    IdAfter(t, Delete(id), id);
    AfterSound(t, Delete(id));
    IdOverRun(After(t, Delete(id)), ops, id);
  }

  /** Whoever registered can log in with the same name and password until deleted. */
  lemma RegisteredCanLogIn(lib: Library, t: Table, secret: Bytes, op: Op, ops: seq<Op>, tokenNow: int, now: int)
    requires Sound(t) && op.Register? && Objection(t, op.username, op.email, op.password).None?
    requires Delete(UserId(t.next)) !in ops
    ensures var r := LoginAnswer(lib, Run(After(t, op), ops), secret, op.username, op.password, tokenNow, now);
            !r.Refused? && (r.Granted? ==> r.userId == UserId(t.next))
  {
    hide HashPassword, UserId, TokenFor, Run;
    var u := NewUser(t, op.username, op.email, op.password, op.role, op.now);
    var t1 := After(t, op);
    AfterSound(t, op);
    NextIdIsFree(t);
    IndexIs(t1.users, u.id, |t.users|);
    IdOverRun(t1, ops, u.id);
    RunSound(t1, ops);
    var users := Run(t1, ops).users;
    var i := IndexOfId(users, u.id);
    assert users[i] == u;
    NameIs(users, u.username, i);
  }

  lemma NameIs(users: seq<User>, username: Bytes, i: nat)
    requires i < |users| && users[i].username == username
    requires forall j :: 0 <= j < i ==> users[j].username != username
    ensures IndexOfName(users, username) == i
  {
  }

  // ----- which password, which text, which claims

  lemma HashMeaning(password: Bytes)
    ensures HashPassword(password) == StreamingHash.Hex(Fips180.Sha256Of(password + Ascii(":freebuff:salt")))
  {
  }

  /** Two passwords pass for each other exactly when their salted digests are equal. */
  lemma SameHash(p: Bytes, q: Bytes)
    ensures HashPassword(p) == HashPassword(q) <==>
            Fips180.Sha256Of(p + Ascii(":freebuff:salt")) == Fips180.Sha256Of(q + Ascii(":freebuff:salt"))
  {
    hide StreamingHash.Hex, Fips180.Sha256Of, Ascii;
    HashMeaning(p);
    HashMeaning(q);
    if HashPassword(p) == HashPassword(q) {
      StreamingHash.HexInjective(Fips180.Sha256Of(p + Ascii(":freebuff:salt")),
                                 Fips180.Sha256Of(q + Ascii(":freebuff:salt")));
    }
  }

  /** A user who is not deleted is found under the same name after every run. */
  lemma UserStays(t: Table, u: User, ops: seq<Op>)
    requires Sound(t) && ById(t.users, u.id) == Some(u) && Delete(u.id) !in ops
    ensures ByName(Run(t, ops).users, u.username) == Some(u)
  {
    hide Run, UserId, FirstIndex;
    IdSpent(t, u);
    IdOverRun(t, ops, u.id);
    RunSound(t, ops);
    var users := Run(t, ops).users;
    NameIs(users, u.username, IndexOfId(users, u.id));
  }

  lemma IdSpent(t: Table, u: User)
    requires Sound(t) && ById(t.users, u.id) == Some(u)
    ensures Spent(u.id, t.next)
  {
    hide Spent;
    var i := IndexOfId(t.users, u.id);
    assert t.users[i] == u;
  }

  /**
   Over every run that does not delete an enabled user, login under that name is refused exactly for
   the passwords whose salted digest differs from the user's.
   */
  lemma PasswordDecides(lib: Library, t: Table, secret: Bytes, u: User, password: Bytes, ops: seq<Op>,
                        tried: Bytes, tokenNow: int, now: int)
    requires Sound(t) && ById(t.users, u.id) == Some(u) && u.enabled && u.passwordHash == HashPassword(password)
    requires Delete(u.id) !in ops
    ensures var r := LoginAnswer(lib, Run(t, ops), secret, u.username, tried, tokenNow, now);
            && (r.Refused? <==> Fips180.Sha256Of(tried + Ascii(":freebuff:salt")) !=
                                Fips180.Sha256Of(password + Ascii(":freebuff:salt")))
            && (r.Refused? ==> r.error == "Invalid username or password")
            && (r.Granted? ==> r.userId == u.id && r.username == u.username && r.role == u.role
                               && r.expiresAt == now + 86400)
  {
    hide HashPassword, Grant, Run, Ascii, ByName, Sound, ById, Fips180.Sha256Of;
    SameHash(tried, password);
    UserStays(t, u, ops);
    GrantMeans(lib, secret, u, now, tokenNow);
  }

  lemma GrantMeans(lib: Library, secret: Bytes, u: User, now: int, tokenNow: int)
    ensures var r := Grant(lib, secret, u, now, tokenNow);
            && !r.Refused?
            && (r.Granted? ==> r.userId == u.id && r.username == u.username && r.role == u.role
                               && r.expiresAt == now + 86400)
  {
    hide TokenFor;
  }

  predicate Taken(users: seq<User>, username: Bytes) {
    exists i :: 0 <= i < |users| && users[i].username == username
  }

  lemma NameTaken(users: seq<User>, username: Bytes)
    ensures ByName(users, username).Some? <==> Taken(users, username)
  {
    var i := IndexOfName(users, username);
    if i < |users| {
      assert users[i].username == username;
    }
  }

  /** The same for whoever registered, from then on. */
  lemma RegisteredPasswordDecides(lib: Library, t: Table, secret: Bytes, op: Op, ops: seq<Op>,
                                  tried: Bytes, tokenNow: int, now: int)
    requires Sound(t) && op.Register?
    requires op.username != [] && op.email != [] && |op.password| >= 6 && !Taken(t.users, op.username)
    requires Delete(UserId(t.next)) !in ops
    ensures var r := LoginAnswer(lib, Run(After(t, op), ops), secret, op.username, tried, tokenNow, now);
            r.Refused? <==> Fips180.Sha256Of(tried + Ascii(":freebuff:salt")) !=
                            Fips180.Sha256Of(op.password + Ascii(":freebuff:salt"))
  {
    hide HashPassword, UserId, TokenFor, Run, Ascii, LoginAnswer, FirstIndex, Taken;
    NameTaken(t.users, op.username);
    assert Objection(t, op.username, op.email, op.password).None?;
    var u := NewUser(t, op.username, op.email, op.password, op.role, op.now);
    AfterSound(t, op);
    NextIdIsFree(t);
    IndexIs(After(t, op).users, u.id, |t.users|);
    PasswordDecides(lib, After(t, op), secret, u, op.password, ops, tried, tokenNow, now);
  }

  datatype Seed = Seed(id: string, username: string, email: string, role: string, password: string)

  /** The three users every service starts with. */
  const SEEDS: seq<Seed> := [
    Seed("user-001", "admin", "admin@freebuff.com", "admin", "admin123"),
    Seed("user-002", "merchant1", "merchant1@freebuff.com", "merchant", "merchant123"),
    Seed("user-003", "demo", "demo@freebuff.com", "merchant", "demo123")]

  lemma SeededUser(now: int, k: nat)
    requires k < 3
    ensures var t, d := Seeded(now), SEEDS[k];
            && |t.users| == 3 && t.next == 4 && t.users[k].createdAt == now
            && t.users[k].email == Ascii(d.email)
            && t.users[k].id == Ascii(d.id) && t.users[k].username == Ascii(d.username)
            && t.users[k].role == Ascii(d.role) && t.users[k].enabled
            && t.users[k].passwordHash == HashPassword(Ascii(d.password))
            && ById(t.users, t.users[k].id) == Some(t.users[k])
  {
    hide HashPassword, Ascii;
    SeededSound(now);
    IndexIs(Seeded(now).users, Seeded(now).users[k].id, k);
  }

  /** A seeded user keeps name, role and password over every run that does not delete it. */
  lemma SeededPasswordDecides(lib: Library, secret: Bytes, seededAt: int, k: nat, ops: seq<Op>,
                              tried: Bytes, tokenNow: int, now: int)
    requires k < 3 && Delete(Ascii(SEEDS[k].id)) !in ops
    ensures var d := SEEDS[k];
            var r := LoginAnswer(lib, Run(Seeded(seededAt), ops), secret, Ascii(d.username), tried, tokenNow, now);
            && (r.Refused? <==> Fips180.Sha256Of(tried + Ascii(":freebuff:salt")) !=
                                Fips180.Sha256Of(Ascii(d.password) + Ascii(":freebuff:salt")))
            && (r.Granted? ==> r.userId == Ascii(d.id) && r.role == Ascii(d.role))
  {
    hide HashPassword, Ascii, Run, LoginAnswer, Seeded, Sound, ById;
    SeededSound(seededAt);
    SeededUser(seededAt, k);
    PasswordDecides(lib, Seeded(seededAt), secret, Seeded(seededAt).users[k], Ascii(SEEDS[k].password), ops,
                    tried, tokenNow, now);
  }

  /** Nobody logs in under a name that is not in the table, nor a disabled user. */
  lemma LoginRefused(lib: Library, t: Table, secret: Bytes, username: Bytes, password: Bytes, tokenNow: int, now: int)
    ensures (forall i :: 0 <= i < |t.users| ==> t.users[i].username != username) ==>
              LoginAnswer(lib, t, secret, username, password, tokenNow, now) == Refused("Invalid username or password")
    ensures ByName(t.users, username).Some? && !ByName(t.users, username).value.enabled ==>
              LoginAnswer(lib, t, secret, username, password, tokenNow, now) == Refused("Account is disabled")
  {
    hide HashPassword, Grant;
  }

  /** Which registrations are refused, and why: the first check that fails decides. */
  lemma RegistrationRefused(lib: Library, t: Table, secret: Bytes, op: Op, tokenNow: int)
    requires op.Register?
    ensures var r := RegisterAnswer(lib, t, secret, op, tokenNow);
            && (r.Refused? ==> After(t, op) == t)
            && if op.username == [] || op.email == [] || op.password == [] then
                 r == Refused("Username, email and password are required")
               else if |op.password| <= 5 then r == Refused("Password must be at least 6 characters")
               else if Taken(t.users, op.username) then r == Refused("Username already exists")
               else !r.Refused?
  {
    hide Grant, HashPassword, UserId, ByName, Taken;
    NameTaken(t.users, op.username);
    var u := NewUser(t, op.username, op.email, op.password, op.role, op.now);
    GrantMeans(lib, secret, u, op.now, tokenNow);
  }

  /** The user a registration adds, field by field. */
  lemma RegistrationAdds(lib: Library, t: Table, secret: Bytes, op: Op, tokenNow: int)
    requires op.Register? && !RegisterAnswer(lib, t, secret, op, tokenNow).Refused?
    ensures var after := After(t, op);
            && after.next == t.next + 1 && |after.users| == |t.users| + 1 && after.users[..|t.users|] == t.users
            && var u := after.users[|t.users|];
            && u.username == op.username && u.email == op.email && u.role == op.role && u.enabled
            && u.createdAt == op.now
            && u.passwordHash == StreamingHash.Hex(Fips180.Sha256Of(op.password + Ascii(":freebuff:salt")))
            && IdText(u.id, t.next)
            && RegisterAnswer(lib, t, secret, op, tokenNow) == Grant(lib, secret, u, op.now, tokenNow)
  {
    hide Grant, UserId, StreamingHash.Hex, Fips180.Sha256Of, Ascii;
    UserIdMeaning(t.next);
  }

  /** "user-" and a number: three digits at least, and no zero in front of more. */
  predicate IdText(id: Bytes, n: nat) {
    && |id| >= 8 && id[..5] == Ascii("user-")
    && (forall i :: 5 <= i < |id| ==> Decimal.IsDigit(id[i]))
    && Radix.Value(10, Decimal.TextDigits(id[5..])) == n
    && (|id| > 8 ==> id[5] != 48)
  }

  lemma UserIdMeaning(n: nat)
    ensures IdText(UserId(n), n)
  {
    var d := Decimal.Padded(n, 3);
    Decimal.TextOfDigits(d);
    Decimal.NoLeadingZero(n);
    assert UserId(n)[5..] == Decimal.DigitText(d) && UserId(n)[..5] == Ascii("user-");
    hide Radix.Value;
  }

  /** The claims of a token, which name the user's id, name, role and e-mail, for one day from its making. */
  lemma TokenClaims(lib: Library, secret: Bytes, u: User, now: int, later: int)
    requires Lossless(lib) && TokenFor(lib, secret, u, now).Some?
    requires -0x8000_0000_0000_0000 <= now + 86400 < 0x8000_0000_0000_0000
    ensures var p := Verified(lib, TokenFor(lib, secret, u, now).value, secret, Ascii("freebuff"), later);
            && (p.Some? <==> later <= now + 86400)
            && (p.Some? ==>
                  && p.value.Obj?
                  && p.value.members == map[
                       Ascii("sub") := Str(u.id), Ascii("username") := Str(u.username), Ascii("role") := Str(u.role),
                       Ascii("email") := Str(u.email), Ascii("iss") := Str(Ascii("freebuff")),
                       Ascii("iat") := Int(now), Ascii("exp") := Int(now + 86400)])
  {
    hide Verified, Created, Ascii;
    CreatedVerifies(lib, Payload(u), secret, ISSUER, LIFETIME, now, later);
    ClaimsOfUser(u, now);
  }

  lemma ClaimsOfUser(u: User, now: int)
    requires -0x8000_0000_0000_0000 <= now + 86400 < 0x8000_0000_0000_0000
    ensures Claims(Payload(u), ISSUER, LIFETIME, now) ==
            Some(Obj(map[
              Ascii("sub") := Str(u.id), Ascii("username") := Str(u.username), Ascii("role") := Str(u.role),
              Ascii("email") := Str(u.email), Ascii("iss") := Str(Ascii("freebuff")),
              Ascii("iat") := Int(now), Ascii("exp") := Int(now + 86400)]))
  {
    hide Ascii;
  }

  // ----- the object

  class AuthService {
    const lib: Library
    const jwtSecret: Bytes
    var users: seq<User>
    var nextUserId: nat

    function View(): Table
      reads this
    {
      Table(users, nextUserId)
    }

    constructor (lib: Library, jwtSecret: Bytes, now: int)
      ensures View() == Seeded(now) && this.lib == lib && this.jwtSecret == jwtSecret
    {
      this.lib, this.jwtSecret := lib, jwtSecret;
      users, nextUserId := [], 1;
      new;
      SeedDefaultUsers(now);
    }

    method SeedDefaultUsers(now: int)
      requires users == []
      modifies this
      ensures View() == Seeded(now)
    {
      hide HashPassword, Ascii;
      var hash := PasswordHash(Ascii("admin123"));
      users := users + [
        User(Ascii("user-001"), Ascii("admin"), Ascii("admin@freebuff.com"), Ascii("admin"), hash, true, now)];
      hash := PasswordHash(Ascii("merchant123"));
      users := users + [
        User(Ascii("user-002"), Ascii("merchant1"), Ascii("merchant1@freebuff.com"), Ascii("merchant"),
             hash, true, now)];
      hash := PasswordHash(Ascii("demo123"));
      users := users + [
        User(Ascii("user-003"), Ascii("demo"), Ascii("demo@freebuff.com"), Ascii("merchant"), hash, true, now)];
      nextUserId := 4;
    }

    method PasswordHash(password: Bytes) returns (hash: Bytes)
      ensures hash == HashPassword(password)
    {
      hash := StreamingHash.Hash(password + Ascii(":freebuff:salt"));
    }

    method Login(username: Bytes, password: Bytes, tokenNow: int, now: int) returns (r: Response)
      ensures r == LoginAnswer(lib, View(), jwtSecret, username, password, tokenNow, now)
    {
      hide HashPassword, Created;
      var user := ByName(users, username);
      if user.None? {
        return Refused("Invalid username or password");
      }
      var u := user.value;
      if !u.enabled {
        return Refused("Account is disabled");
      }
      var hash := PasswordHash(password);
      if hash != u.passwordHash {
        return Refused("Invalid username or password");
      }
      r := Answer(u, tokenNow, now);
    }

    method Answer(u: User, tokenNow: int, now: int) returns (r: Response)
      ensures r == Grant(lib, jwtSecret, u, now, tokenNow)
    {
      hide Created;
      var token := Jwt.Create(lib, Payload(u), jwtSecret, ISSUER, LIFETIME, tokenNow);
      if token.None? {
        return Threw;
      }
      r := Granted(token.value, u.id, u.username, u.role, now + LIFETIME);
    }

    method RegisterUser(username: Bytes, email: Bytes, password: Bytes, role: Bytes, now: int, tokenNow: int)
      returns (r: Response)
      modifies this
      ensures var op := Register(username, email, password, role, now);
              && View() == After(old(View()), op)
              && r == RegisterAnswer(lib, old(View()), jwtSecret, op, tokenNow)
    {
      hide HashPassword, UserId, Grant;
      if username == [] || email == [] || password == [] {
        return Refused("Username, email and password are required");
      }
      if |password| < 6 {
        return Refused("Password must be at least 6 characters");
      }
      if ByName(users, username).Some? {
        return Refused("Username already exists");
      }
      var id := UserId(nextUserId);
      nextUserId := nextUserId + 1;
      var hash := PasswordHash(password);
      var newUser := User(id, username, email, role, hash, true, now);
      users := users + [newUser];
      r := Answer(newUser, tokenNow, now);
    }

    method ValidateToken(token: Bytes, now: int) returns (ok: bool)
      ensures ok <==> Verified(lib, token, jwtSecret, ISSUER, now).Some?
    {
      var result := Jwt.Verify(lib, token, jwtSecret, ISSUER, now);
      ok := result.Some?;
    }

    method GetUserFromToken(token: Bytes, now: int) returns (r: Lookup)
      ensures r == Resolved(lib, View(), jwtSecret, token, now)
    {
      hide Verified;
      var payload := Jwt.Verify(lib, token, jwtSecret, ISSUER, now);
      if payload.None? {
        return Nobody;
      }
      if !Has(payload.value, SUB) || !payload.value.members[SUB].Str? {
        return BadPayload;
      }
      var userId := payload.value.members[SUB].s;
      var user := ById(users, userId);
      r := if user.None? then Nobody else Found(user.value);
    }

    method DeleteUser(id: Bytes) returns (ok: bool)
      modifies this
      ensures View() == After(old(View()), Delete(id))
      ensures ok <==> ById(old(View()).users, id).Some?
    {
      var i := IndexOfId(users, id);
      if i < |users| {
        users := users[..i] + users[i + 1..];
        return true;
      }
      return false;
    }
  }
}

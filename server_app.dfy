/** The server.js variant of the login service: no presence check on the
    fields, no registration date, one message for an unknown username and for
    a wrong password, and no `catch` around the awaited bcrypt calls. */
module ServerApp {
  import opened Js
  import opened Auth

  const UserExists := "Uživatel již existuje"
  const RegistrationOk := "Úspěšná registrace"
  const BadCredentials := "Nesprávné jméno nebo heslo"
  const LoginOk := "Přihlášení úspěšné"
  const TokenMissing := "Token chybí"
  const AccessGranted := "Přístup povolen"
  const InvalidToken := "Neplatný token"

  /** A stored record: the username and the bcrypt hash of the password. The
      username is `undefined` when it was registered without one (the JSON
      file then holds no `username` key, which reads back as `undefined`). */
  datatype User = User(username: Option<string>, password: string)

  /** Some record carries this username, compared with `===`, under which
      `undefined === undefined`. */
  predicate Registered(users: seq<User>, name: Option<string>)
  {
    exists i :: 0 <= i < |users| && users[i].username == name
  }

  /** No two records carry the same username. */
  predicate UniqueNames(users: seq<User>)
  {
    forall i, j :: 0 <= i < j < |users| ==> users[i].username != users[j].username
  }

  /** `users.find((user) => user.username === name)`. */
  function Lookup(users: seq<User>, name: Option<string>): (r: Option<User>)
    ensures r.None? <==> !Registered(users, name)
    ensures r.Some? ==> r.value in users && r.value.username == name
  {
    Find(users, (u: User) => u.username == name)
  }

  /** `Lookup` returns the first record with the name. */
  lemma LookupFirst(users: seq<User>, name: Option<string>, i: nat)
    requires i < |users| && users[i].username == name
    requires forall j :: 0 <= j < i ==> users[j].username != name
    ensures Lookup(users, name) == Some(users[i])
  {
    FindReturnsFirst(users, (u: User) => u.username == name, i);
  }

  /** The reply of the register handler and the user list it leaves behind. */
  datatype RegisterResult = RegisterResult(reply: Reply, users: seq<User>)

  /** The `/register` handler on the loaded list `users`. The lookup comes
      first; an absent password makes `bcrypt.hash` reject, and so does a
      failing hash, and with no `catch` nothing is sent and nothing is added. */
  function Registration(users: seq<User>, req: Credentials, crypto: Crypto): (o: RegisterResult)
    ensures Registered(users, req.username) ==>
      o == RegisterResult(Sent(400, Message(UserExists)), users)
    ensures !Registered(users, req.username) ==>
      if req.password.None? || crypto.hash(req.password.value).None? then
        o == RegisterResult(NoReply, users)
      else
        o == RegisterResult(Sent(201, Message(RegistrationOk)),
                            users + [User(req.username, crypto.hash(req.password.value).value)])
    ensures UniqueNames(users) ==> UniqueNames(o.users)
  {
    if Lookup(users, req.username).Some? then
      RegisterResult(Sent(400, Message(UserExists)), users)
    else
      match req.password
      case None => RegisterResult(NoReply, users)
      case Some(password) =>
        match crypto.hash(password)
        case None => RegisterResult(NoReply, users)
        case Some(hashed) =>
          RegisterResult(Sent(201, Message(RegistrationOk)), users + [User(req.username, hashed)])
  }

  /** The user list that `loadUsers()` hands to the register handler, which
      `push` changes in place. */
  class UserStore {
    var users: seq<User>

    constructor (loaded: seq<User>)
      ensures users == loaded
    {
      users := loaded;
    }

    /** `/register`: scan for the name, hash, `push`. */
    method Register(req: Credentials, crypto: Crypto) returns (reply: Reply)
      modifies this
      ensures RegisterResult(reply, users) == Registration(old(users), req, crypto)
      ensures users == old(users) || (reply == Sent(201, Message(RegistrationOk)) &&
                                      |users| == |old(users)| + 1 && users[..|old(users)|] == old(users))
      ensures UniqueNames(old(users)) ==> UniqueNames(users)
    {
      var existing := Lookup(users, req.username);
      if existing.Some? {
        return Sent(400, Message(UserExists));
      }
      if req.password.None? {
        return NoReply;
      }
      var hashed := crypto.hash(req.password.value);
      if hashed.None? {
        return NoReply;
      }
      users := users + [User(req.username, hashed.value)];
      reply := Sent(201, Message(RegistrationOk));
    }
  }

  /** No field is checked: an empty or absent username is registered like
      any other, once, and a second attempt with it is refused. */
  lemma RegisterWithoutName(users: seq<User>, name: Option<string>, password: string, crypto: Crypto)
    requires name == None || name == Some("")
    requires !Registered(users, name) && crypto.hash(password).Some?
    ensures var first := Registration(users, Credentials(name, Some(password)), crypto);
      && first.reply == Sent(201, Message(RegistrationOk))
      && first.users[|users|] == User(name, crypto.hash(password).value)
      && Registration(first.users, Credentials(name, None), crypto).reply == Sent(400, Message(UserExists))
  {
  }

  /** The stages of the login decision; the first failing stage decides.
      There is no validation stage. */
  datatype LoginOutcome = UnknownUser | BadPassword | CompareFailed | Success(token: string)

  /** Look the user up, compare the password, sign. */
  function Decide(users: seq<User>, req: Credentials, crypto: Crypto): (o: LoginOutcome)
    ensures o == UnknownUser <==> !Registered(users, req.username)
    ensures Registered(users, req.username) && req.password.None? ==> o == CompareFailed
    ensures o.Success? ==>
      o.token == crypto.sign(req.username) && Registered(users, req.username) && req.password.Some?
  {
    match Lookup(users, req.username)
    case None => UnknownUser
    case Some(user) =>
      match req.password
      case None => CompareFailed
      case Some(password) =>
        match crypto.matches(password, user.password)
        case None => CompareFailed
        case Some(valid) => if valid then Success(crypto.sign(req.username)) else BadPassword
  }

  /** The `/login` handler: an unknown username and a wrong password get the
      same reply; a rejected comparison sends nothing. */
  function Login(users: seq<User>, req: Credentials, crypto: Crypto): (r: Reply)
    ensures r.Sent? ==> r.status == 200 || r.status == 400
    ensures r.Sent? && r.status == 400 ==> r.body == Message(BadCredentials)
    ensures !Registered(users, req.username) ==> r == Sent(400, Message(BadCredentials))
    ensures r.Sent? && r.status == 200 ==>
      Registered(users, req.username) &&
      r.body == TokenIssued(LoginOk, crypto.sign(req.username))
  {
    match Decide(users, req, crypto)
    case UnknownUser => Sent(400, Message(BadCredentials))
    case BadPassword => Sent(400, Message(BadCredentials))
    case CompareFailed => NoReply
    case Success(token) => Sent(200, TokenIssued(LoginOk, token))
  }

  /** For a known username the password is compared with the hash of the
      first record carrying it, and that comparison alone decides; a
      mismatch reads exactly like an unknown username. */
  lemma LoginChecksFirstRecord(users: seq<User>, req: Credentials, crypto: Crypto, i: nat)
    requires req.password.Some?
    requires i < |users| && users[i].username == req.username
    requires forall j :: 0 <= j < i ==> users[j].username != req.username
    ensures Login(users, req, crypto) ==
      match crypto.matches(req.password.value, users[i].password)
      case Some(true) => Sent(200, TokenIssued(LoginOk, crypto.sign(req.username)))
      case Some(false) => Sent(400, Message(BadCredentials))
      case None => NoReply
  {
    LookupFirst(users, req.username, i);
  }

  /** The `/protected` handler: extract the token, then verify it. */
  function Protected(authorization: Option<string>, crypto: Crypto): (r: Reply)
    ensures r.Sent? && (r.status == 200 || r.status == 401)
    ensures r == Sent(401, Message(TokenMissing)) <==> !Present(TokenSegment(authorization))
    ensures r.Sent? && r.status == 200 ==>
      Present(TokenSegment(authorization)) &&
      crypto.verify(TokenSegment(authorization).value).Some? &&
      r.body == Access(AccessGranted, crypto.verify(TokenSegment(authorization).value).value)
    ensures Present(TokenSegment(authorization)) ==>
      var decoded := crypto.verify(TokenSegment(authorization).value);
      && (decoded.Some? ==> r == Sent(200, Access(AccessGranted, decoded.value)))
      && (decoded.None? <==> r == Sent(401, Message(InvalidToken)))
  {
    var token := TokenSegment(authorization);
    if !Present(token) then Sent(401, Message(TokenMissing))
    else
      match crypto.verify(token.value)
      case Some(decoded) => Sent(200, Access(AccessGranted, decoded))
      case None => Sent(401, Message(InvalidToken))
  }

  /** Any first word is accepted as the scheme, and whatever follows a
      further space is ignored; the outcome then rests on the verification
      of the word after the first space. */
  lemma ProtectedAnyScheme(scheme: string, token: string, rest: seq<string>, crypto: Crypto)
    requires ' ' !in scheme && ' ' !in token && token != ""
    requires forall k :: 0 <= k < |rest| ==> ' ' !in rest[k]
    ensures Protected(Some(Join([scheme, token] + rest, ' ')), crypto) ==
      match crypto.verify(token)
      case Some(decoded) => Sent(200, Access(AccessGranted, decoded))
      case None => Sent(401, Message(InvalidToken))
  {
    TokenSegmentOfHeader(scheme, token, rest);
  }

  /** Register a new user, log in with the same credentials and present the
      token: each step succeeds, given that bcrypt accepts the password it
      hashed, that tokens contain no space and that the token verifies. */
  lemma RegisterLoginAccess(users: seq<User>, name: Option<string>, password: string, crypto: Crypto)
    requires !Registered(users, name)
    requires crypto.hash(password).Some?
    requires crypto.matches(password, crypto.hash(password).value) == Some(true)
    requires ' ' !in crypto.sign(name) && crypto.sign(name) != ""
    requires crypto.verify(crypto.sign(name)).Some?
    ensures var req := Credentials(name, Some(password));
      var reg := Registration(users, req, crypto);
      var token := crypto.sign(name);
      && reg.reply == Sent(201, Message(RegistrationOk))
      && Login(reg.users, req, crypto) == Sent(200, TokenIssued(LoginOk, token))
      && Protected(Some("Bearer " + token), crypto) ==
           Sent(200, Access(AccessGranted, crypto.verify(token).value))
  {
    var req := Credentials(name, Some(password));
    var reg := Registration(users, req, crypto);
    var token := crypto.sign(name);
    assert reg.users == users + [User(name, crypto.hash(password).value)];
    forall j | 0 <= j < |users| ensures reg.users[j].username != name {
      assert reg.users[j] == users[j];
    }
    LoginChecksFirstRecord(reg.users, req, crypto, |users|);
    assert Login(reg.users, req, crypto) == Sent(200, TokenIssued(LoginOk, token));
    TokenSegmentOfBearer("Bearer", token);
    assert "Bearer" + " " + token == "Bearer " + token;
  }
}

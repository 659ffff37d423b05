/** The index.js variant of the login service: it checks that both fields
    are present, stores a registration date with each user and tells an
    unknown username apart from a wrong password. */
module IndexApp {
  import opened Js
  import opened Auth

  const Required := "Username and password are required"
  const UserExists := "User already exists"
  const RegistrationOk := "Registration successful"
  const InternalError := "Internal server error"
  const IncorrectUsername := "Incorrect username"
  const IncorrectPassword := "Incorrect password"
  const LoginOk := "Login successful"
  const TokenMissing := "Token missing"
  const AccessGranted := "Access granted"
  const InvalidToken := "Invalid token"

  /** A stored record: the username, the bcrypt hash of the password and the
      ISO-8601 time of registration. */
  datatype User = User(username: string, password: string, registrationDate: string)

  /** Some record carries this username (compared with `===`). */
  predicate Registered(users: seq<User>, name: string)
  {
    exists i :: 0 <= i < |users| && users[i].username == name
  }

  /** No two records carry the same username. */
  predicate UniqueNames(users: seq<User>)
  {
    forall i, j :: 0 <= i < j < |users| ==> users[i].username != users[j].username
  }

  /** `users.find((user) => user.username === name)`. */
  function Lookup(users: seq<User>, name: string): (r: Option<User>)
    ensures r.None? <==> !Registered(users, name)
    ensures r.Some? ==> r.value in users && r.value.username == name
  {
    Find(users, (u: User) => u.username == name)
  }

  /** `Lookup` returns the first record with the name. */
  lemma LookupFirst(users: seq<User>, name: string, i: nat)
    requires i < |users| && users[i].username == name
    requires forall j :: 0 <= j < i ==> users[j].username != name
    ensures Lookup(users, name) == Some(users[i])
  {
    FindReturnsFirst(users, (u: User) => u.username == name, i);
  }

  /** The reply of the register handler and the user list it leaves behind. */
  datatype RegisterResult = RegisterResult(reply: Reply, users: seq<User>)

  /** The `/register` handler on the loaded list `users`, with `now` the
      value of `new Date().toISOString()`. */
  function Registration(users: seq<User>, req: Credentials, crypto: Crypto, now: string): (o: RegisterResult)
    ensures !Present(req.username) || !Present(req.password) ==>
      o == RegisterResult(Sent(400, Message(Required)), users)
    ensures Present(req.username) && Present(req.password) && Registered(users, req.username.value) ==>
      o == RegisterResult(Sent(400, Message(UserExists)), users)
    ensures Present(req.username) && Present(req.password) && !Registered(users, req.username.value) ==>
      var hashed := crypto.hash(req.password.value);
      o == if hashed.None? then RegisterResult(Sent(500, Message(InternalError)), users)
           else RegisterResult(Sent(201, Message(RegistrationOk)),
                               users + [User(req.username.value, hashed.value, now)])
    ensures UniqueNames(users) ==> UniqueNames(o.users)
  {
    if !Present(req.username) || !Present(req.password) then
      RegisterResult(Sent(400, Message(Required)), users)
    else
      var username, password := req.username.value, req.password.value;
      if Lookup(users, username).Some? then
        RegisterResult(Sent(400, Message(UserExists)), users)
      else
        match crypto.hash(password)
        case None => RegisterResult(Sent(500, Message(InternalError)), users)
        case Some(hashed) =>
          RegisterResult(Sent(201, Message(RegistrationOk)), users + [User(username, hashed, now)])
  }

  /** The user list that `loadUsers()` hands to the register handler, which
      `push` changes in place. */
  class UserStore {
    var users: seq<User>

    constructor (loaded: seq<User>)
      ensures users == loaded
    {
      users := loaded;
    }

    /** `/register`: validate, scan for the name, hash, `push`. */
    method Register(req: Credentials, crypto: Crypto, now: string) returns (reply: Reply)
      modifies this
      ensures RegisterResult(reply, users) == Registration(old(users), req, crypto, now)
      ensures users == old(users) || (reply == Sent(201, Message(RegistrationOk)) &&
                                      |users| == |old(users)| + 1 && users[..|old(users)|] == old(users))
      ensures UniqueNames(old(users)) ==> UniqueNames(users)
    {
      if !Present(req.username) || !Present(req.password) {
        return Sent(400, Message(Required));
      }
      var username, password := req.username.value, req.password.value;
      var existing := Lookup(users, username);
      if existing.Some? {
        return Sent(400, Message(UserExists));
      }
      var hashed := crypto.hash(password);
      if hashed.None? {
        return Sent(500, Message(InternalError));
      }
      users := users + [User(username, hashed.value, now)];
      reply := Sent(201, Message(RegistrationOk));
    }
  }

  /** Registering a name a second time is refused and changes nothing, so
      the list keeps exactly one record for it. */
  lemma RegisterTwice(users: seq<User>, req: Credentials, again: Credentials, crypto: Crypto, now: string, later: string)
    requires Registration(users, req, crypto, now).reply == Sent(201, Message(RegistrationOk))
    requires again.username == req.username && Present(again.password)
    ensures var first := Registration(users, req, crypto, now);
      && Registration(first.users, again, crypto, later) == RegisterResult(Sent(400, Message(UserExists)), first.users)
      && |first.users| == |users| + 1 && first.users[|users|].username == req.username.value
      && (forall j :: 0 <= j < |first.users| && first.users[j].username == req.username.value ==> j == |users|)
      && (UniqueNames(users) ==> UniqueNames(first.users))
  {
    var first := Registration(users, req, crypto, now);
    assert first.users[|users|].username == req.username.value;
  }

  /** The stages of the login decision; the first failing stage decides. */
  datatype LoginOutcome = ValidationFail | UnknownUser | BadPassword | CompareFailed | Success(token: string)

  /** Validate, look the user up, compare the password, sign. */
  function Decide(users: seq<User>, req: Credentials, crypto: Crypto): (o: LoginOutcome)
    ensures o == ValidationFail <==> !Present(req.username) || !Present(req.password)
    ensures o == UnknownUser <==>
      Present(req.username) && Present(req.password) && !Registered(users, req.username.value)
    ensures o.Success? ==> o.token == crypto.sign(req.username) && Registered(users, req.username.value)
  {
    if !Present(req.username) || !Present(req.password) then ValidationFail
    else
      match Lookup(users, req.username.value)
      case None => UnknownUser
      case Some(user) =>
        match crypto.matches(req.password.value, user.password)
        case None => CompareFailed
        case Some(valid) => if valid then Success(crypto.sign(req.username)) else BadPassword
  }

  /** The `/login` handler: the reply sent for each stage of the decision. */
  function Login(users: seq<User>, req: Credentials, crypto: Crypto): (r: Reply)
    ensures r.Sent?
    ensures r == Sent(400, Message(Required)) <==> !Present(req.username) || !Present(req.password)
    ensures r == Sent(400, Message(IncorrectUsername)) <==>
      Present(req.username) && Present(req.password) && !Registered(users, req.username.value)
    ensures r.Sent? && r.body.TokenIssued? ==>
      req.username.Some? && Registered(users, req.username.value) &&
      r == Sent(200, TokenIssued(LoginOk, crypto.sign(req.username)))
    ensures r.Sent? && r.status == 200 ==> r.body.TokenIssued?
  {
    match Decide(users, req, crypto)
    case ValidationFail => Sent(400, Message(Required))
    case UnknownUser => Sent(400, Message(IncorrectUsername))
    case BadPassword => Sent(400, Message(IncorrectPassword))
    case CompareFailed => Sent(500, Message(InternalError))
    case Success(token) => Sent(200, TokenIssued(LoginOk, token))
  }

  /** For a known username the password is compared with the hash of the
      first record carrying it, and that comparison alone decides. */
  lemma LoginChecksFirstRecord(users: seq<User>, req: Credentials, crypto: Crypto, i: nat)
    requires Present(req.username) && Present(req.password)
    requires i < |users| && users[i].username == req.username.value
    requires forall j :: 0 <= j < i ==> users[j].username != req.username.value
    ensures Login(users, req, crypto) ==
      match crypto.matches(req.password.value, users[i].password)
      case Some(true) => Sent(200, TokenIssued(LoginOk, crypto.sign(req.username)))
      case Some(false) => Sent(400, Message(IncorrectPassword))
      case None => Sent(500, Message(InternalError))
  {
    LookupFirst(users, req.username.value, i);
  }

  /** The `/protected` handler: extract the token, then verify it. */
  function Protected(authorization: Option<string>, crypto: Crypto): (r: Reply)
    ensures r.Sent? && (r.status == 200 || r.status == 401)
    ensures r == Sent(401, Message(TokenMissing)) <==> !Present(TokenSegment(authorization))
    ensures r.Sent? && r.status == 200 ==>
      Present(TokenSegment(authorization)) &&
      crypto.verify(TokenSegment(authorization).value).Some? &&
      r.body == Access(AccessGranted, crypto.verify(TokenSegment(authorization).value).value)
    ensures Present(TokenSegment(authorization)) ==>
      var decoded := crypto.verify(TokenSegment(authorization).value);
      && (decoded.Some? ==> r == Sent(200, Access(AccessGranted, decoded.value)))
      && (decoded.None? <==> r == Sent(401, Message(InvalidToken)))
  {
    var token := TokenSegment(authorization);
    if !Present(token) then Sent(401, Message(TokenMissing))
    else
      match crypto.verify(token.value)
      case Some(decoded) => Sent(200, Access(AccessGranted, decoded))
      case None => Sent(401, Message(InvalidToken))
  }

  /** Any first word is accepted as the scheme, and whatever follows a
      further space is ignored; the outcome then rests on the verification
      of the word after the first space. */
  lemma ProtectedAnyScheme(scheme: string, token: string, rest: seq<string>, crypto: Crypto)
    requires ' ' !in scheme && ' ' !in token && token != ""
    requires forall k :: 0 <= k < |rest| ==> ' ' !in rest[k]
    ensures Protected(Some(Join([scheme, token] + rest, ' ')), crypto) ==
      match crypto.verify(token)
      case Some(decoded) => Sent(200, Access(AccessGranted, decoded))
      case None => Sent(401, Message(InvalidToken))
  {
    TokenSegmentOfHeader(scheme, token, rest);
  }

  /** A header without a space, or with two spaces after the scheme word,
      carries no token. */
  lemma ProtectedTokenMissing(scheme: string, token: string, crypto: Crypto)
    requires ' ' !in scheme && ' ' !in token
    ensures Protected(Some(scheme), crypto) == Sent(401, Message(TokenMissing))
    ensures Protected(Some(scheme + "  " + token), crypto) == Sent(401, Message(TokenMissing))
  {
    TokenSegmentNeedsSpace(scheme);
    TokenSegmentDoubleSpace(scheme, token);
  }

  /** Register a new user, log in with the same credentials and present the
      token: each step succeeds, given that bcrypt accepts the password it
      hashed, that tokens contain no space and that the token verifies. */
  lemma RegisterLoginAccess(users: seq<User>, name: string, password: string, crypto: Crypto, now: string)
    requires name != "" && password != "" && !Registered(users, name)
    requires crypto.hash(password).Some?
    requires crypto.matches(password, crypto.hash(password).value) == Some(true)
    requires ' ' !in crypto.sign(Some(name)) && crypto.sign(Some(name)) != ""
    requires crypto.verify(crypto.sign(Some(name))).Some?
    ensures var req := Credentials(Some(name), Some(password));
      var reg := Registration(users, req, crypto, now);
      var token := crypto.sign(Some(name));
      && reg.reply == Sent(201, Message(RegistrationOk))
      && Login(reg.users, req, crypto) == Sent(200, TokenIssued(LoginOk, token))
      && Protected(Some("Bearer " + token), crypto) ==
           Sent(200, Access(AccessGranted, crypto.verify(token).value))
  {
    var req := Credentials(Some(name), Some(password));
    var reg := Registration(users, req, crypto, now);
    var token := crypto.sign(Some(name));
    assert reg.users == users + [User(name, crypto.hash(password).value, now)];
    forall j | 0 <= j < |users| ensures reg.users[j].username != name {
      assert reg.users[j] == users[j];
    }
    LoginChecksFirstRecord(reg.users, req, crypto, |users|);
    assert Login(reg.users, req, crypto) == Sent(200, TokenIssued(LoginOk, token));
    TokenSegmentOfBearer("Bearer", token);
    assert "Bearer" + " " + token == "Bearer " + token;
  }
}

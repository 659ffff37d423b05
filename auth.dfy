/** What the two login services share: the request body, the libraries
    they call (bcrypt and jsonwebtoken, as opaque functions), the replies an
    Express handler sends, and the extraction of the token from the
    `Authorization` header. */
module Auth {
  import opened Js

  /** The destructured JSON body `{ username, password }` of a register or
      login request; an absent field is `undefined`. */
  datatype Credentials = Credentials(username: Option<string>, password: Option<string>)

  /** The decoded payload of a token: the username it was signed for (absent
      when the payload had none) and its issue and expiry times. */
  datatype Claims = Claims(username: Option<string>, issuedAt: int, expiresAt: int)

  /** The library calls, passed in as uninterpreted functions. Nothing is
      assumed about how they relate to each other: a property that needs, say,
      `matches(p, h) == Some(true)` for `Some(h) == hash(p)` states it as a
      hypothesis.
      - hash(p): `bcrypt.hash(p, 10)`, None when the library rejects;
      - matches(p, h): `bcrypt.compare(p, h)`, None when the library rejects;
      - sign(u): `jwt.sign({ username: u }, secret, { expiresIn: "1h" })`;
      - verify(t): `jwt.verify(t, secret)`, None when the signature is
        invalid or the token has expired (the clock and the secret are
        inside this function). */
  datatype Crypto = Crypto(
    hash: string -> Option<string>,
    matches: (string, string) -> Option<bool>,
    sign: Option<string> -> string,
    verify: string -> Option<Claims>)

  /** The JSON body of a reply. */
  datatype Body =
    | Message(text: string)
    | TokenIssued(text: string, token: string)
    | Access(text: string, user: Claims)

  /** What a handler does with the response: `res.status(status).json(body)`
      (status 200 when the handler calls `res.json` alone), or nothing at all,
      when an awaited library call rejects in a handler that has no `catch`. */
  datatype Reply = Sent(status: nat, body: Body) | NoReply

  /** `authorization?.split(" ")[1]`: the second space-separated segment of
      the header, `undefined` when the header is absent or has no space. */
  function TokenSegment(authorization: Option<string>): (t: Option<string>)
    ensures authorization.None? ==> t.None?
    ensures t.Some? ==> ' ' !in t.value
  {
    match authorization
    case None => None
    case Some(h) =>
      var parts := Split(h, ' ');
      if |parts| >= 2 then Some(parts[1]) else None
  }

  /** The scheme word is not checked: whatever space-free word comes first,
      the token is the space-free word after the first space, and whatever
      follows a further space is ignored. */
  lemma TokenSegmentOfHeader(scheme: string, token: string, rest: seq<string>)
    requires ' ' !in scheme && ' ' !in token
    requires forall k :: 0 <= k < |rest| ==> ' ' !in rest[k]
    ensures TokenSegment(Some(Join([scheme, token] + rest, ' '))) == Some(token)
  {
    var parts := [scheme, token] + rest;
    forall k | 0 <= k < |parts| ensures ' ' !in parts[k] {
      if k >= 2 { assert parts[k] == rest[k - 2]; }
    }
    SplitJoin(parts, ' ');
    assert |parts| >= 2 && parts[1] == token;
  }

  /** `"<scheme> <token>"` yields `<token>` for any space-free scheme word. */
  lemma TokenSegmentOfBearer(scheme: string, token: string)
    requires ' ' !in scheme && ' ' !in token
    ensures TokenSegment(Some(scheme + " " + token)) == Some(token)
  {
    TokenSegmentOfHeader(scheme, token, []);
    assert [scheme, token] + [] == [scheme, token];
    assert [scheme, token][1..] == [token];
  }

  /** Conversely, every token found in a header sits after a space-free first
      word and a single space, and is followed by nothing or by a space. */
  lemma TokenSegmentShape(h: string)
    requires TokenSegment(Some(h)).Some?
    ensures var t := TokenSegment(Some(h)).value;
      exists scheme: string, rest: seq<string> ::
        && ' ' !in scheme
        && (forall k :: 0 <= k < |rest| ==> ' ' !in rest[k])
        && h == Join([scheme, t] + rest, ' ')
  {
    var parts := Split(h, ' ');
    JoinSplit(h, ' ');
    var rest := parts[2..];
    assert parts == [parts[0], parts[1]] + rest;
    assert forall k :: 0 <= k < |rest| ==> ' ' !in rest[k] by {
      forall k | 0 <= k < |rest| ensures ' ' !in rest[k] {
        assert rest[k] == parts[k + 2];
      }
    }
  }

  /** A header has a token segment exactly when it contains a space. */
  lemma TokenSegmentNeedsSpace(h: string)
    ensures TokenSegment(Some(h)).None? <==> ' ' !in h
  {
    if ' ' !in h {
      SplitJoin([h], ' ');
    } else {
      JoinSplit(h, ' ');
    }
  }

  /** Two spaces after the scheme word leave an empty second segment, which
      the handlers treat as a missing token. */
  lemma TokenSegmentDoubleSpace(scheme: string, token: string)
    requires ' ' !in scheme && ' ' !in token
    ensures TokenSegment(Some(scheme + "  " + token)) == Some("")
  {
    TokenSegmentOfHeader(scheme, "", [token]);
    assert [scheme, ""] + [token] == [scheme, "", token];
    assert [scheme, "", token][1..] == ["", token];
    assert [scheme, "", token][1..][1..] == [token];
    assert scheme + [' '] + ("" + [' '] + token) == scheme + "  " + token;
  }
}

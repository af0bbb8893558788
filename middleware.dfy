/** The authorization gate put in front of the protected routes (delete and
    list). It reads the Authorization header, insists on the exact shape
    `Bearer <token>`, hands the token to the token validator and, on success,
    forwards the request once with the `username` claim attached. The token
    validator lives in a package that is not part of this model, so it is a
    parameter: a total function from the token text to the claims it accepts,
    or None when it rejects the token. */
module Middleware {
  import opened Wrappers
  import opened GoStrings

  /** The claims of an accepted token, by claim name. */
  type Claims = map<string, string>

  /** The three 401 answers, each with its own message. */
  datatype Reason =
    | MissingHeader   // "missing Authorization header"
    | BadFormat       // "invalid Authorization header format"
    | InvalidToken    // "invalid token"

  /** Either the request is answered with 401 and `next` is never called, or
      `next` is called exactly once with the request context carrying the
      value of the `username` claim (nil, here None, when the claim is absent). */
  datatype Decision = Reject(reason: Reason) | Forward(username: Option<string>)

  /** The only accepted scheme, compared case-sensitively. */
  const Scheme: string := "Bearer"

  /** An independent description of the accepted headers: the scheme, one
      space, and a token that holds no further space (possibly empty). */
  predicate BearerForm(header: string)
  {
    |header| >= |Scheme| + 1 && header[..|Scheme| + 1] == Scheme + " " && ' ' !in header[|Scheme| + 1..]
  }

  /** The token text of a header in bearer form. */
  function TokenOf(header: string): (token: string)
    requires BearerForm(header)
  {
    header[|Scheme| + 1..]
  }

  /** Splitting on single spaces yields exactly two parts, the first being
      "Bearer", exactly when the header is in bearer form; the second part
      is then the token text. */
  lemma BearerSplit(header: string)
    ensures (|Split(header, ' ')| == 2 && Split(header, ' ')[0] == Scheme) <==> BearerForm(header)
    ensures BearerForm(header) ==> Split(header, ' ')[1] == TokenOf(header)
  {
    var parts := Split(header, ' ');
    if BearerForm(header) {
      var token := TokenOf(header);
      assert header == Scheme + [' '] + token;
      SplitAtFirst(Scheme, ' ', token);
      SplitWithout(token, ' ');
    }
    if |parts| == 2 && parts[0] == Scheme {
      SplitJoin(header, ' ');
      SplitPiecesFree(header, ' ');
      assert parts[1..] == [parts[1]];
      assert header == Scheme + [' '] + parts[1];
      assert header[..|Scheme| + 1] == Scheme + " ";
      assert header[|Scheme| + 1..] == parts[1];
    }
  }

  /** The value the gate stores under "username" in the request context. */
  function UsernameClaim(claims: Claims): (username: Option<string>)
  {
    if "username" in claims then Some(claims["username"]) else None
  }

  /** The decision of AuthMiddleware for one request. */
  function AuthMiddleware(header: string, validateJWT: string -> Option<Claims>): (d: Decision)
    ensures header == "" ==> d == Reject(MissingHeader)
    ensures d == Reject(BadFormat) <==> header != "" && !BearerForm(header)
    ensures d == Reject(InvalidToken) <==> BearerForm(header) && validateJWT(TokenOf(header)).None?
    ensures d.Forward? <==> BearerForm(header) && validateJWT(TokenOf(header)).Some?
    ensures d.Forward? ==> d.username == UsernameClaim(validateJWT(TokenOf(header)).value)
  {
    if header == "" then Reject(MissingHeader)
    else
      var parts := Split(header, ' ');
      BearerSplit(header);
      if |parts| != 2 || parts[0] != Scheme then Reject(BadFormat)
      else
        var tokenString := parts[1];
        match validateJWT(tokenString)
        case None => Reject(InvalidToken)
        case Some(claims) => Forward(UsernameClaim(claims))
  }

  /** The shapes the gate turns away whatever the validator says: a doubled
      space, a lower-case scheme, and a scheme with no token part. */
  lemma RejectedShapes(token: string, validateJWT: string -> Option<Claims>)
    ensures AuthMiddleware("Bearer  " + token, validateJWT) == Reject(BadFormat)
    ensures AuthMiddleware("bearer " + token, validateJWT) == Reject(BadFormat)
    ensures AuthMiddleware("Bearer", validateJWT) == Reject(BadFormat)
  {
    assert ("Bearer  " + token)[7] == ' ';
    assert ("bearer " + token)[0] == 'b';
  }
}

/**
 * The authorisation guard every mutating resolver calls first: read the `authorization`
 * request header, take the text after `Bearer `, and have the token verified. It reads
 * nothing but the header it is given and touches no store.
 */
module Auth {
  import opened Outcomes
  import opened Domain
  import opened Text

  const BearerPrefix: string := "Bearer "

  /**
   * `header.split('Bearer ')[1]`, with None where JavaScript yields `undefined`: there is a
   * token exactly when `Bearer ` occurs, and the token never contains `Bearer ` itself.
   */
  function BearerToken(header: string): (r: Option<string>)
    ensures r.None? <==> !Occurs(header, BearerPrefix)
    ensures r.Some? ==> !Occurs(r.value, BearerPrefix)
  {
    var parts := Split(header, BearerPrefix);
    SplitPiecesFree(header, BearerPrefix);
    if |parts| >= 2 then Some(parts[1]) else None
  }

  /**
   * The guard. `verify` is `jwt.verify(token, SECRET_KEY)`, a partial function: None where it
   * throws (bad signature, expired). A missing header and an empty one are both falsy and
   * fail alike; a header without a non-empty bearer token fails before `verify` is consulted.
   */
  function CheckAuth(authorization: Option<string>, verify: string -> Option<Claims>): (r: Result<Claims, Error>)
    ensures r == Failure(MissingAuthHeader) <==> authorization == None || authorization == Some("")
    ensures r == Failure(MalformedAuthHeader) <==>
      authorization != None && authorization != Some("") && BearerToken(authorization.value) in {None, Some("")}
    ensures r == Failure(InvalidToken) <==>
      exists t :: authorization != None && authorization != Some("") && BearerToken(authorization.value) == Some(t)
                  && t != "" && verify(t) == None
    ensures r.Success? <==>
      exists t :: authorization != None && BearerToken(authorization.value) == Some(t) && t != "" && verify(t) != None
    ensures r.Success? ==> exists t :: BearerToken(authorization.value) == Some(t) && verify(t) == Some(r.value)
  {
    match authorization
    case None => Failure(MissingAuthHeader)
    case Some(header) =>
      if header == "" then Failure(MissingAuthHeader)
      else match BearerToken(header)
        case None => Failure(MalformedAuthHeader)
        case Some(token) =>
          if token == "" then Failure(MalformedAuthHeader)
          else match verify(token)
            case None => Failure(InvalidToken)
            case Some(claims) => Success(claims)
  }

  /**
   * The token is exactly the text after the FIRST `Bearer ` up to the next `Bearer ` or the
   * end of the header; `Bearer ` need not start the header, and without it there is no token.
   */
  lemma BearerTokenBetweenOccurrences(header: string)
    ensures IndexOf(header, BearerPrefix).Some? ==>
      var rest := header[IndexOf(header, BearerPrefix).value + |BearerPrefix|..];
      BearerToken(header) == Some(match IndexOf(rest, BearerPrefix)
                                  case None => rest
                                  case Some(j) => rest[..j])
  {
    SplitPiecesFree(header, BearerPrefix);
    match IndexOf(header, BearerPrefix)
    case None =>
    case Some(i) =>
      var rest := header[i + |BearerPrefix|..];
      SplitAtFirst(header, BearerPrefix, i);
      var parts := Split(rest, BearerPrefix);
      assert BearerToken(header) == Some(parts[0]);
      match IndexOf(rest, BearerPrefix)
      case None =>
      case Some(j) =>
        SplitAtFirst(rest, BearerPrefix, j);
  }

  /** A string without a space cannot contain `Bearer `. */
  lemma NoSpaceNoBearer(t: string)
    requires ' ' !in t
    ensures !Occurs(t, BearerPrefix)
  {
    forall k | 0 <= k && k + |BearerPrefix| <= |t|
      ensures !OccursAt(t, BearerPrefix, k)
    {
      assert t[k..k + |BearerPrefix|][6] == t[k + 6] != ' ';
    }
  }

  /** The conventional header `Bearer <token>` yields the token, for any token without a space. */
  lemma BearerHeaderYieldsToken(token: string)
    requires ' ' !in token
    ensures BearerToken(BearerPrefix + token) == Some(token)
  {
    var header := BearerPrefix + token;
    assert OccursAt(header, BearerPrefix, 0);
    IndexOfAt(header, BearerPrefix, 0);
    assert header[|BearerPrefix|..] == token;
    NoSpaceNoBearer(token);
    IndexOfIsFirst(token, BearerPrefix);
    BearerTokenBetweenOccurrences(header);
  }

  /** A well-formed header whose token verifies authenticates as exactly the verified payload. */
  lemma WellFormedHeaderAuthenticates(token: string, verify: string -> Option<Claims>, claims: Claims)
    requires token != "" && ' ' !in token
    requires verify(token) == Some(claims)
    ensures CheckAuth(Some(BearerPrefix + token), verify) == Success(claims)
  {
    BearerHeaderYieldsToken(token);
  }

  /** The header `Bearer ` alone has an empty token and is rejected as malformed. */
  lemma BareBearerIsMalformed(verify: string -> Option<Claims>)
    ensures CheckAuth(Some(BearerPrefix), verify) == Failure(MalformedAuthHeader)
  {
    assert OccursAt(BearerPrefix, BearerPrefix, 0);
    BearerTokenBetweenOccurrences(BearerPrefix);
    assert BearerPrefix[|BearerPrefix|..] == "";
  }

  /** A non-empty header that never mentions `Bearer ` is rejected as malformed. */
  lemma HeaderWithoutBearerIsMalformed(header: string, verify: string -> Option<Claims>)
    requires header != "" && !Occurs(header, BearerPrefix)
    ensures CheckAuth(Some(header), verify) == Failure(MalformedAuthHeader)
  {
    BearerTokenBetweenOccurrences(header);
  }

  /**
   * `Bearer ` need not open the header: whatever precedes its first occurrence is ignored, as
   * long as `Bearer ` does not already occur in that prefix or straddle its end.
   */
  lemma BearerNeedNotBePrefix(prefix: string, token: string)
    requires !Occurs(prefix + "Bearer", BearerPrefix) && !Occurs(token, BearerPrefix)
    ensures BearerToken(prefix + BearerPrefix + token) == Some(token)
  {
    var header := prefix + BearerPrefix + token;
    var head := prefix + "Bearer";
    var i := |prefix|;
    assert header[i..i + |BearerPrefix|] == BearerPrefix;
    forall k | 0 <= k < i
      ensures !OccursAt(header, BearerPrefix, k)
    {
      if k + |BearerPrefix| <= |header| {
        assert header[k..k + |BearerPrefix|] == head[k..k + |BearerPrefix|];
        assert !OccursAt(head, BearerPrefix, k);
      }
    }
    assert OccursAt(header, BearerPrefix, i);
    IndexOfAt(header, BearerPrefix, i);
    assert header[i + |BearerPrefix|..] == token;
    IndexOfIsFirst(token, BearerPrefix);
    BearerTokenBetweenOccurrences(header);
  }
}

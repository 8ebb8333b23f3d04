/** What the two edge functions share: the shape of a request and a
    response, the bearer-token extraction, and the gate that every request
    passes before its `action` is looked at (method check, then token, then
    the identity verifier). */
module Http {
  import opened Wrappers
  import opened Builtins

  /** An incoming request as the handlers see it: the HTTP method (`verb`), the
      `Authorization` header (None when absent), the `action` query
      parameter (None when absent) and the endpoint's other parameters. */
  datatype Request<P> = Request(verb: string, authorization: Option<string>, action: Option<string>, params: P)

  datatype Body<J> = Text(text: string) | Json(payload: J)

  datatype Response<J> = Response(status: int, body: Body<J>)

  /** The identity returned by the verifier; its contents never flow further. */
  datatype User = User(id: string)

  /** The verifier's reply to `getUser(token)`: a user, an error, or neither. */
  datatype AuthReply = AuthReply(user: Option<User>, error: Option<string>)

  /** The reply authenticates the request: no error and a user present. */
  predicate Accepts(reply: AuthReply) {
    reply.error.None? && reply.user.Some?
  }

  const BearerPrefix := "Bearer "

  /** The token handed to the verifier: the header (or "" when absent or
      empty) with its first occurrence of "Bearer " removed. */
  function BearerToken(authorization: Option<string>): (token: string)
    ensures var h := OrElse(authorization, "");
      (forall j: nat :: !OccursAt(h, BearerPrefix, j)) ==> token == h
    ensures var h := OrElse(authorization, "");
      forall i: nat :: OccursAt(h, BearerPrefix, i) && (forall j: nat :: j < i ==> !OccursAt(h, BearerPrefix, j)) ==>
        token == h[..i] + h[i + |BearerPrefix|..]
  {
    ReplaceFirst(OrElse(authorization, ""), BearerPrefix, "")
  }

  /** The well-formed header gives back exactly what follows the prefix. */
  lemma TokenOfBearerHeader(t: string)
    ensures BearerToken(Some(BearerPrefix + t)) == t
  {
    var h := BearerPrefix + t;
    assert h[0..|BearerPrefix|] == BearerPrefix;
    assert OccursAt(h, BearerPrefix, 0);
  }

  /** A header without "Bearer " anywhere reaches the verifier unchanged. */
  lemma TokenWithoutPrefix(h: string)
    requires forall j: nat :: !OccursAt(h, BearerPrefix, j)
    ensures BearerToken(Some(h)) == h
  {
  }

  /** An absent header and an empty header both give the empty token. */
  lemma TokenOfMissingHeader()
    ensures BearerToken(None) == ""
    ensures BearerToken(Some("")) == ""
  {
  }

  /** Removing an occurrence of a pattern shortens the string by the
      pattern's length, and putting the pattern back restores it. */
  lemma RemovalRestores(h: string, p: string, i: nat)
    requires OccursAt(h, p, i)
    ensures |h[..i] + h[i + |p|..]| == |h| - |p|
    ensures h == (h[..i] + h[i + |p|..])[..i] + p + (h[..i] + h[i + |p|..])[i..]
  {
    var t := h[..i] + h[i + |p|..];
    assert t[..i] == h[..i];
    assert t[i..] == h[i + |p|..];
    assert h == h[..i] + h[i..i + |p|] + h[i + |p|..];
  }

  /** When the header does contain "Bearer ", the token is the header with
      exactly one copy removed at its first occurrence (the index `IndexOf`
      finds): the token is seven characters shorter, and putting the prefix
      back at that index restores the header. */
  lemma TokenRemovesFirstOccurrence(h: string)
    requires exists j: nat :: OccursAt(h, BearerPrefix, j)
    ensures IndexOf(h, BearerPrefix, 0).Some?
    ensures |BearerToken(Some(h))| == |h| - |BearerPrefix|
    ensures var i := IndexOf(h, BearerPrefix, 0).value;
      i <= |BearerToken(Some(h))| && h == BearerToken(Some(h))[..i] + BearerPrefix + BearerToken(Some(h))[i..]
  {
    var j: nat :| OccursAt(h, BearerPrefix, j);
    var found := IndexOf(h, BearerPrefix, 0);
    assert found.Some?;
    var i := found.value;
    assert OrElse(Some(h), "") == h;
    assert ReplaceFirst(h, BearerPrefix, "") == h[..i] + "" + h[i + |BearerPrefix|..];
    assert h[..i] + "" + h[i + |BearerPrefix|..] == h[..i] + h[i + |BearerPrefix|..];
    RemovalRestores(h, BearerPrefix, i);
  }

  /** The prefix is removed wherever it first occurs, not only at the start. */
  lemma TokenStripsInnerPrefix()
    ensures BearerToken(Some("Token Bearer abc")) == "Token abc"
  {
    var h := "Token Bearer abc";
    assert h[..6] == "Token ";
    assert h[6..13] == BearerPrefix;
    assert OccursAt(h, BearerPrefix, 6);
    forall j: nat | j < 6 ensures !OccursAt(h, BearerPrefix, j) {
      assert h[j] != 'B';
      assert j + |BearerPrefix| <= |h| ==> h[j..j + |BearerPrefix|][0] == h[j];
    }
    assert h[..6] + h[13..] == "Token abc";
  }

  /** Only one occurrence is removed: a doubled prefix leaves one behind. */
  lemma TokenStripsOnlyOnce()
    ensures BearerToken(Some("Bearer Bearer abc")) == "Bearer abc"
  {
    assert "Bearer Bearer abc" == BearerPrefix + "Bearer abc";
    TokenOfBearerHeader("Bearer abc");
  }

  /** The gate's verdict: let the request through to action dispatch, or
      answer it with a status and a plain-text reason. */
  datatype Verdict = Admit | Reject(status: int, message: string)

  /** The request is authenticated: its token is non-empty and the verifier
      accepts it. */
  predicate Authenticated(authorization: Option<string>, getUser: string -> AuthReply) {
    BearerToken(authorization) != "" && Accepts(getUser(BearerToken(authorization)))
  }

  /** The gate both handlers run first: non-GET gives 405; an empty token
      gives 401 before the verifier is asked; a verifier error or a missing
      user gives 401; anything else is admitted. */
  function Gate(verb: string, authorization: Option<string>, getUser: string -> AuthReply): (v: Verdict)
    ensures v == Reject(405, "Method not allowed") <==> verb != "GET"
    ensures v == Reject(401, "Unauthorized") <==> verb == "GET" && !Authenticated(authorization, getUser)
    ensures v == Admit <==> verb == "GET" && Authenticated(authorization, getUser)
  {
    if verb != "GET" then Reject(405, "Method not allowed")
    else
      var token := BearerToken(authorization);
      if token == "" then Reject(401, "Unauthorized")
      else if !Accepts(getUser(token)) then Reject(401, "Unauthorized")
      else Admit
  }

  /** The verifier is not consulted before the method check, nor when the
      token is empty: the verdict is then the same whatever it would say. */
  lemma GateSkipsVerifier(verb: string, authorization: Option<string>, v1: string -> AuthReply, v2: string -> AuthReply)
    requires verb != "GET" || BearerToken(authorization) == ""
    ensures Gate(verb, authorization, v1) == Gate(verb, authorization, v2)
    ensures Gate(verb, authorization, v1).Reject?
  {
  }

  /** The verifier is asked about the extracted token and nothing else: two
      verifiers that agree on that token give the same verdict. */
  lemma GateAsksOnlyAboutToken(verb: string, authorization: Option<string>, v1: string -> AuthReply, v2: string -> AuthReply)
    requires v1(BearerToken(authorization)) == v2(BearerToken(authorization))
    ensures Gate(verb, authorization, v1) == Gate(verb, authorization, v2)
  {
  }
}

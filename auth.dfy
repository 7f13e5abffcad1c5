/**
 * The two middlewares in front of the protected routes: `authenticate`
 * reads `Authorization: Bearer <token>`, hands the token to the JWT
 * verifier (an uninterpreted function here) and stores the decoded claims
 * on the request; `isHrd` lets only the "hrd" role through.
 */
module Auth {
  import opened Outcomes
  import opened Errors
  import Text
  import Envelope

  /** The payload the verifier decodes from a token. */
  datatype Claims = Claims(id: nat, name: string, role: string, department: Option<string>)

  const BearerPrefix: string := "Bearer "

  /** `authHeader.split(" ")[1]`: for a header that starts with "Bearer ", the text up to the next space. */
  function BearerToken(header: string): (token: string)
    requires BearerPrefix <= header
    ensures ' ' !in token
    ensures token <= header[|BearerPrefix|..]
    ensures |BearerPrefix| + |token| < |header| ==> header[|BearerPrefix| + |token|] == ' '
  {
    var rest := header[|BearerPrefix|..];
    assert header == "Bearer" + [' '] + rest;
    Text.SplitWordThenSep("Bearer", rest, ' ');
    Text.SplitHead(rest, ' ');
    Text.Split(header, ' ')[1]
  }

  /** A token without spaces is exactly what the header carries after "Bearer ", whatever follows it. */
  lemma BearerTokenRoundTrip(token: string, trailer: string)
    requires ' ' !in token
    ensures BearerToken(BearerPrefix + token) == token
    ensures BearerToken(BearerPrefix + token + " " + trailer) == token
  {
    var h1, h2 := BearerPrefix + token, BearerPrefix + token + " " + trailer;
    assert h1[|BearerPrefix|..] == token;
    assert h2[|BearerPrefix|..] == token + " " + trailer;
    SpaceFreePrefix(BearerToken(h1), token, token);
    SpaceFreePrefix(BearerToken(h2), token, token + " " + trailer);
  }

  /** Two space-free prefixes of `s`, each ending at a space or at the end, are equal. */
  lemma SpaceFreePrefix(a: string, b: string, s: string)
    requires a <= s && b <= s && ' ' !in a && ' ' !in b
    requires |a| < |s| ==> s[|a|] == ' '
    requires |b| < |s| ==> s[|b|] == ' '
    ensures a == b
  {
  }

  /**
   * What `authenticate` decides: a missing header, or one that does not
   * start with "Bearer ", is "No token provided"; a token the verifier
   * rejects is "Invalid or expired token"; otherwise the decoded claims.
   */
  function CheckBearer(header: Option<string>, verify: string -> Option<Claims>): (r: Result<Claims, AppError>)
    ensures (header.None? || !(BearerPrefix <= header.value))
            <==> r == Err(AuthenticationError("No token provided"))
    ensures r.Ok? <==> header.Some? && BearerPrefix <= header.value && verify(BearerToken(header.value)).Some?
    ensures r.Ok? ==> Some(r.value) == verify(BearerToken(header.value))
    ensures r.Err? ==> r.error.AuthenticationError? && Status(r.error) == 401
    ensures r.Err? && header.Some? && BearerPrefix <= header.value
            ==> r.error.message == "Invalid or expired token"
  {
    if header.None? || !(BearerPrefix <= header.value) then
      Err(AuthenticationError("No token provided"))
    else
      match verify(BearerToken(header.value))
      case None => Err(AuthenticationError("Invalid or expired token"))
      case Some(claims) => Ok(claims)
  }

  /** What `isHrd` decides: None lets the request through, otherwise the 403 it writes. */
  function HrdGate(user: Claims): (reply: Option<Envelope.Reply>)
    ensures reply.None? <==> user.role == "hrd"
    ensures reply.Some? ==> (reply.value.status == 403
                             && !reply.value.body.success
                             && reply.value.body.message == Some("Access denied"))
  {
    if user.role != "hrd" then Some(Envelope.Reply(403, Envelope.Unauthorized(Some("Access denied"))))
    else None
  }

  /** The part of an Express request the middlewares read and write. */
  class Request {
    const authorization: Option<string>
    var user: Option<Claims>
    /** How many times the middleware has called `next()`. */
    var nextCalls: nat
    /** The response written so far, if any. */
    var reply: Option<Envelope.Reply>

    constructor (authorization: Option<string>)
      ensures this.authorization == authorization
      ensures user.None? && nextCalls == 0 && reply.None?
    {
      this.authorization := authorization;
      user := None;
      nextCalls := 0;
      reply := None;
    }

    /** `authenticate`: on success sets `req.user` and calls `next` once; otherwise throws and changes nothing. */
    method Authenticate(verify: string -> Option<Claims>) returns (thrown: Option<AppError>)
      modifies this
      ensures reply == old(reply)
      ensures match CheckBearer(authorization, verify)
              case Ok(claims) => thrown.None? && user == Some(claims) && nextCalls == old(nextCalls) + 1
              case Err(e) => thrown == Some(e) && user == old(user) && nextCalls == old(nextCalls)
    {
      if authorization.None? || !(BearerPrefix <= authorization.value) {
        return Some(AuthenticationError("No token provided"));
      }
      var token := BearerToken(authorization.value);
      var decoded := verify(token);
      if decoded.None? {
        return Some(AuthenticationError("Invalid or expired token"));
      }
      user := decoded;
      nextCalls := nextCalls + 1;
      thrown := None;
    }

    /** `isHrd`: writes 403 "Access denied" for any role but "hrd", otherwise calls `next` and writes nothing. */
    method IsHrd()
      requires user.Some?
      modifies this
      ensures user == old(user)
      ensures HrdGate(user.value).Some? ==> reply == HrdGate(user.value) && nextCalls == old(nextCalls)
      ensures HrdGate(user.value).None? ==> reply == old(reply) && nextCalls == old(nextCalls) + 1
    {
      if user.value.role != "hrd" {
        reply := Some(Envelope.Reply(403, Envelope.Unauthorized(Some("Access denied"))));
        return;
      }
      nextCalls := nextCalls + 1;
    }
  }
}

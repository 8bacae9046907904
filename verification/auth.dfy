/**
 * The `auth` middleware: reads the `x-auth-token` header, verifies it, and
 * either attaches the decoded user and calls `next`, or answers 401.
 */
module Auth {
  import opened Js
  import opened Crypto
  import opened Http

  const TokenHeader := "x-auth-token"

  /** The token as `req.header('x-auth-token')` returns it; "" stands for a missing header. */
  function TokenOf(headers: Headers): string {
    if TokenHeader in headers then headers[TokenHeader] else ""
  }

  /** Everything the middleware does: whether `next` ran, what `req.user` became, and any response sent. */
  datatype GuardEffects = GuardEffects(nextCalled: bool, reqUser: Option<Principal>, sent: Option<Response>)

  function Guard(headers: Headers, verify: string -> Option<Payload>): (g: GuardEffects)
    // exactly one outcome: next is called or a response is sent, never both, never neither
    ensures g.nextCalled <==> g.sent.None?
    ensures g.nextCalled <==> g.reqUser.Some?
    ensures g.nextCalled <==> TokenOf(headers) != "" && verify(TokenOf(headers)).Some?
    ensures g.nextCalled ==> g.reqUser == Some(verify(TokenOf(headers)).value.user)
    ensures TokenOf(headers) == "" ==> g.sent == Some(Response(401, Msg("No token, authorization denied")))
    ensures TokenOf(headers) != "" && verify(TokenOf(headers)).None? ==>
      g.sent == Some(Response(401, Msg("Token is not valid")))
  {
    var token := TokenOf(headers);
    if token == "" then
      GuardEffects(false, None, Some(Response(401, Msg("No token, authorization denied"))))
    else
      match verify(token)
      case None => GuardEffects(false, None, Some(Response(401, Msg("Token is not valid"))))
      case Some(decoded) => GuardEffects(true, Some(decoded.user), None)
  }

  /** Only the `x-auth-token` header is consulted: requests that agree on it are treated alike. */
  lemma OnlyTokenHeaderMatters(h1: Headers, h2: Headers, verify: string -> Option<Payload>)
    requires TokenHeader in h1 <==> TokenHeader in h2
    requires TokenHeader in h1 ==> h1[TokenHeader] == h2[TokenHeader]
    ensures Guard(h1, verify) == Guard(h2, verify)
  {
  }

  /**
   * Every verification failure, whatever the library's reason (a bad
   * signature, an expired token), reads the same to the client.
   */
  lemma FailuresIndistinguishable(h1: Headers, h2: Headers, verify: string -> Option<Payload>)
    requires TokenOf(h1) != "" && verify(TokenOf(h1)).None?
    requires TokenOf(h2) != "" && verify(TokenOf(h2)).None?
    ensures Guard(h1, verify) == Guard(h2, verify)
    ensures Guard(h1, verify).sent == Some(Response(401, Msg("Token is not valid")))
  {
  }

  /** A token signed by the server for a user is accepted and yields exactly that user. */
  lemma AcceptsSignedToken(c: Crypto, p: Payload)
    requires Sound(c)
    ensures var g := Guard(map[TokenHeader := c.sign(p)], c.verify);
      g.nextCalled && g.reqUser == Some(p.user)
  {
  }
}

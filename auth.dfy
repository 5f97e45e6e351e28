/** The admin gate of routes/auth.js: one configured credential pair, a login
    that issues a token for it, and the `authenticateToken` middleware that
    decides from the Authorization header and the outcome of token
    verification whether the request goes on. Signing and verifying tokens
    belong to the jsonwebtoken library: the outcome of verification is an input. */
module Auth {
  import Js

  const AdminEmail: string := "admin@example.com"
  const AdminPassword: string := "1111"
  /** The `expiresIn` option the token is signed with. */
  const TokenLifetime: string := "1h"

  /** What a signed token carries. */
  datatype Claims = Claims(email: string, expiresIn: string)

  /** 200 with a token, or 401 with the one failure message. */
  datatype LoginReply = Granted(token: Claims) | Denied {
    function Status(): int { if Granted? then 200 else 401 }
  }

  /** POST /login: strict equality with both configured constants. */
  function Login(email: Js.Value, password: Js.Value): (r: LoginReply)
    ensures r.Granted? <==> email == Js.Str(AdminEmail) && password == Js.Str(AdminPassword)
    ensures r.Granted? ==> r.token == Claims(email.s, TokenLifetime) && r.Status() == 200
    ensures r.Denied? ==> r.Status() == 401
  {
    if email == Js.Str(AdminEmail) && password == Js.Str(AdminPassword) then
      Granted(Claims(email.s, TokenLifetime))
    else
      Denied
  }

  /** A wrong email and a wrong password get the same answer. */
  lemma FailuresAlike(e1: Js.Value, p1: Js.Value, e2: Js.Value, p2: Js.Value)
    requires Login(e1, p1).Denied? && Login(e2, p2).Denied?
    ensures Login(e1, p1) == Login(e2, p2)
  {
  }

  // ------------------------------------------------------- bearer header

  /** The first position of `c` in `s`. */
  function IndexOfChar(s: string, c: char): (r: Js.Option<nat>)
    ensures r.Some? ==> r.value < |s| && s[r.value] == c && c !in s[..r.value]
    ensures r.None? ==> c !in s
  {
    if s == [] then Js.None
    else if s[0] == c then Js.Some(0)
    else
      match IndexOfChar(s[1..], c)
      case None => Js.None
      case Some(k) => assert s[..k + 1] == [s[0]] + s[1..][..k]; Js.Some(k + 1)
  }

  /** `header.split(" ")[1]`: the text between the first and the second
      space, or after the first space if there is no second; `None`
      (undefined) when the header has no space. */
  function SecondField(header: string): (r: Js.Option<string>)
    ensures r.None? <==> ' ' !in header
    ensures r.Some? ==> ' ' !in r.value
  {
    match IndexOfChar(header, ' ')
    case None => Js.None
    case Some(i) =>
      var rest := header[i + 1..];
      match IndexOfChar(rest, ' ')
      case None => Js.Some(rest)
      case Some(j) => Js.Some(rest[..j])
  }

  lemma {:induction false} IndexOfCharAfter(a: string, b: string, c: char)
    requires c !in a && b != [] && b[0] == c
    ensures IndexOfChar(a + b, c) == Js.Some(|a|)
  {
    if a != [] {
      assert (a + b)[1..] == a[1..] + b;
      IndexOfCharAfter(a[1..], b, c);
    } else {
      assert a + b == b;
    }
  }

  /** "Bearer <token>" yields the token, whatever follows a further space. */
  lemma BearerToken(scheme: string, token: string, rest: string)
    requires ' ' !in scheme && ' ' !in token
    requires rest == [] || rest[0] == ' '
    ensures SecondField(scheme + " " + token + rest) == Js.Some(token)
  {
    var h := scheme + " " + token + rest;
    assert h == scheme + (" " + token + rest);
    IndexOfCharAfter(scheme, " " + token + rest, ' ');
    assert h[|scheme| + 1..] == token + rest;
    if rest == [] {
      assert token + rest == token;
    } else {
      IndexOfCharAfter(token, rest, ' ');
      assert (token + rest)[..|token|] == token;
    }
  }

  // ------------------------------------------------------- the middleware

  /** What jwt.verify reports for a token. */
  datatype Verdict = Verified(user: Claims) | Expired | Invalid

  /** `next()` with the verified user attached, or an answer with this status. */
  datatype Decision = Next(user: Claims) | Refuse(status: int)

  /** authenticateToken. A missing (or empty) header is 401; a header without
      a second field gives jwt.verify no token, which it rejects as malformed
      (403); otherwise an expired token is 401, any other failure 403. */
  function Authenticate(header: Js.Option<string>, verify: string -> Verdict): (d: Decision)
    ensures (header.None? || header.value == "") ==> d == Refuse(401)
    ensures header.Some? && header.value != "" && SecondField(header.value).None? ==> d == Refuse(403)
    ensures header.Some? && header.value != "" && SecondField(header.value).Some? ==>
      var v := verify(SecondField(header.value).value);
      && (d.Next? <==> v.Verified?)
      && (d.Next? ==> d.user == v.user)
      && (v.Expired? ==> d == Refuse(401))
      && (v.Invalid? ==> d == Refuse(403))
  {
    if header.None? || header.value == "" then Refuse(401)
    else
      match SecondField(header.value)
      case None => Refuse(403)
      case Some(token) =>
        match verify(token)
        case Verified(user) => Next(user)
        case Expired => Refuse(401)
        case Invalid => Refuse(403)
  }

  /** The decision depends on the header only through its token. */
  lemma AuthenticateUsesToken(scheme: string, token: string, verify: string -> Verdict)
    requires ' ' !in scheme && ' ' !in token
    ensures Authenticate(Js.Some(scheme + " " + token), verify) ==
      match verify(token)
      case Verified(user) => Next(user)
      case Expired => Refuse(401)
      case Invalid => Refuse(403)
  {
    BearerToken(scheme, token, []);
    assert scheme + " " + token + [] == scheme + " " + token;
  }
}

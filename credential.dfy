/**
  `getAuthHeader` (auth.js:26-31): the Authorization header of section 2.1 of
  RFC 6750, whose bearer token is the Base64 form (RFC 4648) of the UTF-8
  bytes (RFC 3629) of the JSON text (RFC 8259) of `{login, role}`.
 */
module Credential {
  import opened Base
  import opened Session
  import Base64
  import Utf8
  import JsonText

  /** `JSON.stringify({ login: user.login, role: user.role })`: two members, in that order, no whitespace. */
  function Serialize(login: string, role: string): (text: string)
    ensures |text| >= |login| + |role| + 22
    ensures text[0] == '{' && text[|text| - 1] == '}'
    ensures forall i :: 0 <= i < |text| ==> text[i] as int >= 0x20
  {
    "{\"login\":" + (JsonText.Quote(login) + (",\"role\":" + (JsonText.Quote(role) + "}")))
  }

  /** `btoa(unescape(encodeURIComponent(...)))` of the serialized pair. */
  function Token(login: string, role: string): (t: string)
    ensures IsB64Token(t)
  {
    var text := Serialize(login, role);
    var bytes := Utf8.Encode(text);
    assert |bytes| >= |text| > 0;
    var t := Base64.Encode(bytes);
    CanonicalIsB64Token(t);
    t
  }

  /** Non-empty `btoa` output is a b64token. */
  lemma CanonicalIsB64Token(t: string)
    requires Base64.IsCanonicalText(t) && |t| > 0
    ensures IsB64Token(t)
  {
  }

  /**
    The b64token syntax of section 2.1 of RFC 6750: one or more characters
    of the Base64 alphabet (a subset of those it allows), then any number of '='.
   */
  predicate IsB64Token(t: string) {
    && |t| > 0 && Base64.IsDigit(t[0])
    && (forall i :: 0 <= i < |t| ==> Base64.IsDigit(t[i]) || t[i] == Base64.Pad)
    && (forall i, j :: 0 <= i < j < |t| && t[i] == Base64.Pad ==> t[j] == Base64.Pad)
  }

  /** The header name. */
  const AuthorizationKey := "Authorization"

  /** The authentication scheme, with the single space that separates it from the token. */
  const BearerPrefix := "Bearer "

  /**
    The headers `getAuthHeader` returns for a session: none without one,
    otherwise exactly one, `Authorization: Bearer <token>`.
   */
  function AuthHeader(session: Option<User>): (h: map<string, string>)
    ensures session.None? <==> h == map[]
    ensures session.Some? ==> h.Keys == {AuthorizationKey}
    ensures session.Some? ==> h[AuthorizationKey] == BearerPrefix + Token(session.value.login, session.value.role)
  {
    match session
    case None => map[]
    case Some(user) =>
      var h := map[AuthorizationKey := BearerPrefix + Token(user.login, user.role)];
      assert AuthorizationKey in h;
      h
  }

  /** `getAuthHeader` as it runs: the header for whatever session the store holds. */
  function GetAuthHeader(store: SessionStore): (h: map<string, string>)
    reads store
    ensures h == map[] <==> store.CurrentUser().None?
    ensures store.CurrentUser().Some? ==> h.Keys == {AuthorizationKey}
    ensures store.CurrentUser().Some? ==>
      h[AuthorizationKey] == BearerPrefix + Token(store.CurrentUser().value.login, store.CurrentUser().value.role)
  {
    AuthHeader(store.CurrentUser())
  }

  /** The text after `prefix`, when `text` starts with it. */
  function Expect(prefix: string, text: string): (r: Option<string>)
    ensures r.Some? ==> text == prefix + r.value
  {
    if |text| >= |prefix| && text[..|prefix|] == prefix then
      assert text == text[..|prefix|] + text[|prefix|..];
      Some(text[|prefix|..])
    else
      None
  }

  /** `Expect` removes exactly the prefix it is given. */
  lemma ExpectPrefix(prefix: string, rest: string)
    ensures Expect(prefix, prefix + rest) == Some(rest)
  {
    assert (prefix + rest)[..|prefix|] == prefix && (prefix + rest)[|prefix|..] == rest;
  }

  /** The text before the login's JSON string. */
  const LoginMember := "{\"login\":"

  /** The text between the login's JSON string and the role's. */
  const RoleMember := ",\"role\":"

  /** The text after the role's JSON string. */
  const Close := "}"

  /** Reads back a pair in the exact form `Serialize` writes. */
  function ParsePair(text: string): (r: Option<(string, string)>)
  {
    match Expect(LoginMember, text)
    case None => None
    case Some(t1) =>
      match JsonText.ReadQuoted(t1)
      case None => None
      case Some((login, t2)) =>
        match Expect(RoleMember, t2)
        case None => None
        case Some(t3) =>
          match JsonText.ReadQuoted(t3)
          case None => None
          case Some((role, t4)) => if t4 == Close then Some((login, role)) else None
  }

  /** What a holder of the token can read from it without any secret: Base64, then UTF-8, then JSON. */
  function DecodeToken(token: string): (r: Option<(string, string)>)
  {
    match Base64.Decode(token)
    case None => None
    case Some(bytes) =>
      match Utf8.Decode(bytes)
      case None => None
      case Some(text) => ParsePair(text)
  }

  /** The token carried by an Authorization header value of the Bearer scheme. */
  function BearerToken(value: string): (r: Option<string>)
    ensures r.Some? ==> value == BearerPrefix + r.value
  {
    if |value| >= |BearerPrefix| && value[..|BearerPrefix|] == BearerPrefix then
      assert value == value[..|BearerPrefix|] + value[|BearerPrefix|..];
      Some(value[|BearerPrefix|..])
    else
      None
  }

  /** The serialized pair reads back as the login and role it was made from. */
  lemma ParseSerialize(login: string, role: string)
    ensures ParsePair(Serialize(login, role)) == Some((login, role))
  {
    var afterRole := JsonText.Quote(role) + Close;
    var afterLogin := RoleMember + afterRole;
    ExpectPrefix(LoginMember, JsonText.Quote(login) + afterLogin);
    JsonText.ReadQuote(login, afterLogin);
    ExpectPrefix(RoleMember, afterRole);
    JsonText.ReadQuote(role, Close);
  }

  /**
    The token is not a secret: decoding it gives back exactly the login and
    the role, and nothing else of the user.
   */
  lemma TokenRoundTrip(login: string, role: string)
    ensures DecodeToken(Token(login, role)) == Some((login, role))
  {
    var bytes := Utf8.Encode(Serialize(login, role));
    Base64.DecodeEncode(bytes);
    Utf8.DecodeEncode(Serialize(login, role));
    ParseSerialize(login, role);
  }

  /** The header of a session carries its login and role, recoverable from the header value alone. */
  lemma HeaderRoundTrip(user: User)
    ensures BearerToken(AuthHeader(Some(user))[AuthorizationKey]).Some?
    ensures DecodeToken(BearerToken(AuthHeader(Some(user))[AuthorizationKey]).value) == Some((user.login, user.role))
  {
    var token := Token(user.login, user.role);
    var value := BearerPrefix + token;
    assert value[..|BearerPrefix|] == BearerPrefix && value[|BearerPrefix|..] == token;
    TokenRoundTrip(user.login, user.role);
  }

  /**
    Two sessions get the same header exactly when their logins and roles
    agree: the id plays no part, and no two distinct pairs share a token.
   */
  lemma HeaderDeterminedByLoginAndRole(u1: User, u2: User)
    ensures AuthHeader(Some(u1)) == AuthHeader(Some(u2)) <==> (u1.login == u2.login && u1.role == u2.role)
  {
    if AuthHeader(Some(u1)) == AuthHeader(Some(u2)) {
      var t1, t2 := Token(u1.login, u1.role), Token(u2.login, u2.role);
      assert BearerPrefix + t1 == BearerPrefix + t2;
      assert t1 == (BearerPrefix + t1)[|BearerPrefix|..];
      assert t2 == (BearerPrefix + t2)[|BearerPrefix|..];
      TokenRoundTrip(u1.login, u1.role);
      TokenRoundTrip(u2.login, u2.role);
    }
  }
}

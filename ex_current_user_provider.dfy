/**
 * The cross-domain login token of DiscourseCookieTokenDomain::ExCurrentUserProvider.
 *
 * On log-on, when the feature is enabled, the user's username, id, avatar
 * template and title are put in an ordered hash; the SHA-256 hex digest of
 * its JSON is signed with HMAC-SHA256 under the site secret; the signature
 * is added as a fifth member `hmac`; and the strict base64 of the extended
 * JSON is written to the `logged_in` cookie. On log-off that cookie is
 * deleted, whatever the setting.
 *
 * The digests and the JSON quoting of strings are foreign code: they are the
 * fields of a `Primitives` value the caller supplies. The site settings and
 * the production flag are parameters too.
 */
module ExCurrentUserProvider {
  import opened Wrappers
  import opened Bytes
  import Base64
  import Json
  import opened Cookies

  /** The name of the cookie that carries the token. */
  const TokenCookie: string := "logged_in"

  predicate IsLowerHex(s: string) {
    forall i :: 0 <= i < |s| ==> '0' <= s[i] <= '9' || 'a' <= s[i] <= 'f'
  }

  /** What a `hexdigest` of SHA-256 returns: 64 lower-case hexadecimal digits. */
  type HexDigest = s: string | |s| == 64 && IsLowerHex(s)
    witness seq(64, _ => '0')

  /** The library code the issuer calls, taken as given. */
  datatype Primitives = Primitives(
    /** Digest::SHA256.hexdigest of a byte string */
    sha256Hex: seq<Byte> -> HexDigest,
    /** OpenSSL::HMAC.hexdigest with SHA-256, given the key and the data */
    hmacSha256Hex: (string, string) -> HexDigest,
    /** String#to_json: the quoted and escaped literal, as UTF-8 bytes */
    quote: Json.Quote)

  /** The fields of the user record the token reads; `title` is nil for a user without one. */
  datatype User = User(id: int, username: string, avatarTemplate: string, title: Option<string>)

  /** SiteSetting.cookie_token_domain_enabled, SiteSetting.cookie_token_domain_key, Rails.env.production? */
  datatype Settings = Settings(enabled: bool, key: string, production: bool)

  /** The four-member payload; a missing title is kept as `"group":null`. */
  function Payload(user: User): (p: Json.Object)
    ensures Json.Keys(p) == ["username", "user_id", "avatar", "group"]
    ensures Json.Get(p, "username") == Some(Json.JString(user.username))
    ensures Json.Get(p, "user_id") == Some(Json.JInt(user.id))
    ensures Json.Get(p, "avatar") == Some(Json.JString(user.avatarTemplate))
    ensures Json.Get(p, "group") == Some(if user.title.Some? then Json.JString(user.title.value) else Json.JNull)
  {
    var group := match user.title case Some(t) => Json.JString(t) case None => Json.JNull;
    var last := [("group", group)];
    var fromAvatar := [("avatar", Json.JString(user.avatarTemplate))] + last;
    var fromId := [("user_id", Json.JInt(user.id))] + fromAvatar;
    var p := [("username", Json.JString(user.username))] + fromId;
    assert p[1..] == fromId && fromId[1..] == fromAvatar && fromAvatar[1..] == last && last[1..] == [];
    assert Json.Keys(fromAvatar) == ["avatar", "group"];
    assert Json.Keys(fromId) == ["user_id", "avatar", "group"];
    assert "group" != "avatar" && "group" != "user_id" && "group" != "username";
    assert "avatar" != "user_id" && "avatar" != "username";
    assert "user_id"[4] != "username"[4];
    assert Json.Get(fromId, "avatar") == Json.Get(fromAvatar, "avatar");
    assert Json.Get(fromId, "group") == Json.Get(fromAvatar, "group") == Json.Get(last, "group");
    p
  }

  /** The SHA-256 hex digest of an object's JSON text. */
  function Digest(o: Json.Object, prims: Primitives): (d: string)
    ensures |d| == 64 && IsLowerHex(d)
  {
    prims.sha256Hex(Json.Render(o, prims.quote))
  }

  /** The integrity code: HMAC-SHA256 under `key` of the 64-character digest text, not of the JSON itself. */
  function Signature(o: Json.Object, key: string, prims: Primitives): (s: string)
    ensures |s| == 64 && IsLowerHex(s)
  {
    prims.hmacSha256Hex(key, Digest(o, prims))
  }

  /**
   * The signature sees the object only through its digest text: two objects
   * whose JSON texts hash alike get the same signature under every key.
   */
  lemma SignatureOfDigest(o: Json.Object, o': Json.Object, key: string, prims: Primitives)
    requires Digest(o, prims) == Digest(o', prims)
    ensures Signature(o, key, prims) == Signature(o', key, prims)
  {
  }

  /**
   * The payload after `payload[:hmac] = hmac`: the four members unchanged and
   * in their places, then `hmac`, the signature of those four.
   */
  function SignedPayload(user: User, key: string, prims: Primitives): (s: Json.Object)
    ensures |s| == 5
    ensures s[..4] == Payload(user)
    ensures s[4] == ("hmac", Json.JString(Signature(Payload(user), key, prims)))
  {
    var payload := Payload(user);
    Json.Put(payload, "hmac", Json.JString(Signature(payload, key, prims)))
  }

  /**
   * The cookie value: strictly base64-encoded, so only the standard alphabet
   * and closing `=`, no line break, a length that is a multiple of 4, and
   * decoding it gives back exactly the JSON text of the signed payload.
   */
  function Token(user: User, key: string, prims: Primitives): (t: string)
    ensures Base64.IsStrict(t)
    ensures Base64.Decode(t) == Some(Json.Render(SignedPayload(user, key, prims), prims.quote))
  {
    var json := Json.Render(SignedPayload(user, key, prims), prims.quote);
    Base64.DecodeEncode(json);
    Base64.EncodeIsStrict(json);
    Base64.Encode(json)
  }

  /**
   * The JSON text inside the token is the JSON of the four-member payload
   * (the text the digest was taken of) with `,"hmac":"<signature>"` put
   * before its closing brace.
   */
  lemma TokenText(user: User, key: string, prims: Primitives)
    ensures (var digested := Json.Render(Payload(user), prims.quote);
             var member := ("hmac", Json.JString(Signature(Payload(user), key, prims)));
             Base64.Decode(Token(user, key, prims))
             == Some(digested[..|digested| - 1] + [Json.Comma] + Json.RenderMember(member, prims.quote) + [Json.CloseBrace]))
  {
    var s := SignedPayload(user, key, prims);
    assert s == s[..4] + [s[4]];
    Json.RenderAppend(Payload(user), s[4], prims.quote);
  }

  /**
   * The token's value is fixed by its JSON text: no other strictly decodable
   * text carries the same payload, so the same user, key and primitives
   * always give the same cookie value.
   */
  lemma TokenUnique(user: User, key: string, prims: Primitives, other: string)
    requires Base64.Decode(other) == Some(Json.Render(SignedPayload(user, key, prims), prims.quote))
    ensures other == Token(user, key, prims)
  {
    Base64.DecodeInjective(other, Token(user, key, prims));
  }

  /**
   * The check a consumer holding `key` makes on the decoded object: the last
   * member is `hmac`, and it is the signature of the members before it.
   */
  predicate Authentic(o: Json.Object, key: string, prims: Primitives) {
    |o| >= 1 && o[|o| - 1] == ("hmac", Json.JString(Signature(o[..|o| - 1], key, prims)))
  }

  /**
   * A consumer holding the issuing key accepts the token; one holding another
   * key accepts it exactly when HMAC gives the same code for both keys over
   * this digest.
   */
  lemma SignedPayloadAuthentic(user: User, key: string, other: string, prims: Primitives)
    ensures Authentic(SignedPayload(user, key, prims), key, prims)
    ensures (var digest := Digest(Payload(user), prims);
             Authentic(SignedPayload(user, key, prims), other, prims)
             <==> prims.hmacSha256Hex(other, digest) == prims.hmacSha256Hex(key, digest))
  {
    var s := SignedPayload(user, key, prims);
    assert s[..|s| - 1] == Payload(user);
  }

  /**
   * `log_on_user`, after the host's own log-on: nothing more when the feature
   * is off; otherwise exactly one cookie write, `logged_in`, holding the
   * token, readable by scripts, secure only in production, SameSite=None,
   * for all subdomains and permanent. Every other cookie is left as it was.
   */
  method LogOnUser(user: User, settings: Settings, prims: Primitives, jar: CookieJar)
    modifies jar
    ensures !settings.enabled ==> jar.cookies == old(jar.cookies) && jar.deleted == old(jar.deleted)
    ensures settings.enabled ==>
      && TokenCookie in jar.cookies
      && jar.cookies == old(jar.cookies)[TokenCookie := jar.cookies[TokenCookie]]
      && jar.deleted == old(jar.deleted) - {TokenCookie}
    ensures settings.enabled ==>
      var c := jar.cookies[TokenCookie];
      && c.value == Token(user, settings.key, prims)
      && !c.httpOnly
      && c.secure == settings.production
      && c.sameSite == SameSiteNone
      && c.domain == AllDomains
      && c.permanent
  {
    if !settings.enabled {
      return;
    }
    var token := Token(user, settings.key, prims);
    jar.Set(TokenCookie, Cookie(
      value := token,
      httpOnly := false,
      secure := settings.production,
      sameSite := SameSiteNone,
      domain := AllDomains,
      permanent := true));
  }

  /**
   * `log_off_user`, after the host's own log-off: the `logged_in` cookie is
   * deleted for all subdomains, with no reference to the settings and whether
   * or not it was there. Nothing else changes, so a second call changes nothing.
   */
  method LogOffUser(jar: CookieJar)
    modifies jar
    ensures TokenCookie !in jar.cookies
    ensures jar.cookies == old(jar.cookies) - {TokenCookie}
    ensures jar.deleted == old(jar.deleted)[TokenCookie := AllDomains]
  {
    jar.Delete(TokenCookie, AllDomains);
  }

  /** Logging off twice leaves the jar as logging off once does. */
  method LogOffUserIdempotent(jar: CookieJar)
    modifies jar
    ensures jar.cookies == old(jar.cookies) - {TokenCookie}
    ensures jar.deleted == old(jar.deleted)[TokenCookie := AllDomains]
  {
    LogOffUser(jar);
    ghost var once := jar.cookies;
    LogOffUser(jar);
    assert jar.cookies == once - {TokenCookie} == once;
  }
}

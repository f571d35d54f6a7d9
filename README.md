# discourse-cookie-token-domain, modelled in Dafny

The Discourse plugin installs `DiscourseCookieTokenDomain::ExCurrentUserProvider`
as the site's current-user provider. The provider adds a cross-domain login token
to the host's own log-on and log-off handling.

- **Log-on.** When `cookie_token_domain_enabled` is set, the provider builds an
  ordered hash of the user's `username`, `user_id`, `avatar` (the avatar template)
  and `group` (the title, possibly nil). It takes the SHA-256 hex digest of the
  hash's JSON text. It computes HMAC-SHA256 under `cookie_token_domain_key` over
  that 64-character digest text, not over the JSON. It stores the result under a
  fifth key `hmac`. Finally it writes the strict base64 of the extended JSON to
  the `logged_in` cookie: permanent, readable by scripts, `SameSite=None`, for
  all subdomains, and secure only in production.
- **Log-off.** The provider deletes `logged_in` for all subdomains,
  whatever the setting.

The model has these modules:

- `Base64`: strict encoding as in section 4 of RFC 4648 (what
  `Base64.strict_encode64` writes), and a strict decoder as its partner.
- `Json`: the flat, insertion-ordered object that a Ruby Hash is, `Hash#[]=`, and
  the `to_json` rendering of such an object with string, integer and null values.
  It also has an integer reader that partners the integer writer.
- `Cookies`: the response cookie jar, as a class whose fields are a map of the
  cookies to set and a map of the names to expire, with their domain scopes.
- `ExCurrentUserProvider`: the payload, digest, signature, signed payload and
  token as functions; `LogOnUser` and `LogOffUser` as methods that change the jar.
- `Wrappers` and `Bytes`: `Option`, the `Byte` type and ASCII bytes.

SHA-256, HMAC-SHA256 and the JSON quoting of strings are library code. They are
the fields of a `Primitives` value that the caller passes in. A digest has type
`HexDigest`: 64 lower-case hexadecimal characters. The site settings and
`Rails.env.production?` are a `Settings` parameter.

Two consequences of the source that the model keeps:

- The source never checks `cookie_token_domain_key`. Any string, the empty one
  included, signs the token, so `Settings.key` is unconstrained.
- A token signed under another key is rejected only as far as HMAC tells the two
  keys apart. `SignedPayloadAuthentic` states this as an if-and-only-if on the
  HMAC primitive.

## Model

| member | source | states |
|---|---|---|
| `ExCurrentUserProvider.Payload` | lib/discourse_cookie_token_domain/ex_current_user_provider.rb:12-17 | the payload's keys are exactly username, user_id, avatar, group, in that order; each key holds the matching user field; a nil title is stored as JSON null, not dropped |
| `ExCurrentUserProvider.Digest` | lib/discourse_cookie_token_domain/ex_current_user_provider.rb:19 | the SHA-256 hex digest of the payload's JSON text: 64 lower-case hexadecimal characters |
| `ExCurrentUserProvider.Signature` | lib/discourse_cookie_token_domain/ex_current_user_provider.rb:20-24 | HMAC-SHA256 under the key, as 64 lower-case hexadecimal characters, taken of the 64-character digest text and not of the JSON |
| `ExCurrentUserProvider.SignatureOfDigest` | lib/discourse_cookie_token_domain/ex_current_user_provider.rb:19-24 | the signature depends on the payload only through its digest text: payloads whose JSON hashes alike get the same signature under any key |
| `ExCurrentUserProvider.SignedPayload` | lib/discourse_cookie_token_domain/ex_current_user_provider.rb:19-26 | after `payload[:hmac] = hmac` the object has five members: the four payload members unchanged and in place, then `hmac`, equal to HMAC-SHA256(key, SHA256-hex(JSON of the four)) |
| `ExCurrentUserProvider.Token` | lib/discourse_cookie_token_domain/ex_current_user_provider.rb:27 | the token is strict base64 (alphabet and closing `=` only, no line break, length a multiple of 4), and decoding it gives back exactly the JSON bytes of the signed payload |
| `ExCurrentUserProvider.TokenText` | lib/discourse_cookie_token_domain/ex_current_user_provider.rb:19-27 | the JSON inside the token is the digested JSON of the four-member payload with `,"hmac":<signature>` put before its closing brace |
| `ExCurrentUserProvider.TokenUnique` | lib/discourse_cookie_token_domain/ex_current_user_provider.rb:12-27 | any strictly decodable text that carries the signed payload's JSON is the token itself, so one user, key and set of primitives always give one cookie value |
| `ExCurrentUserProvider.SignedPayloadAuthentic` | lib/discourse_cookie_token_domain/ex_current_user_provider.rb:19-26 | a consumer that recomputes the signature of the members before `hmac` with the issuing key accepts; with another key it accepts exactly when HMAC gives the same code for both keys over that digest |
| `ExCurrentUserProvider.LogOnUser` | lib/discourse_cookie_token_domain/ex_current_user_provider.rb:5-35 | with the feature off the jar is left exactly as it was; with it on, exactly the `logged_in` entry is written, holding the token, httponly false, secure iff production, same_site none, domain all, permanent, and every other cookie is unchanged |
| `ExCurrentUserProvider.LogOffUser` | lib/discourse_cookie_token_domain/ex_current_user_provider.rb:38-42 | whatever the settings and whether or not the cookie was there, `logged_in` is absent afterwards and is expired for all subdomains; no other cookie changes |
| `ExCurrentUserProvider.LogOffUserIdempotent` | lib/discourse_cookie_token_domain/ex_current_user_provider.rb:38-42 | logging off twice leaves the jar exactly as logging off once does |
| `Cookies.CookieJar.Set` | lib/discourse_cookie_token_domain/ex_current_user_provider.rb:29-35 | writing a cookie replaces the entry under its name only and cancels a pending deletion of that name |
| `Cookies.CookieJar.Delete` | lib/discourse_cookie_token_domain/ex_current_user_provider.rb:41 | deleting removes the entry under the name only and records its expiry with the given domain scope |
| `Json.Put` | lib/discourse_cookie_token_domain/ex_current_user_provider.rb:26 | `Hash#[]=`: afterwards the key holds the new value and every other key holds what it held; an existing key keeps its place; a new key is appended after all the others |
| `Json.Render` | lib/discourse_cookie_token_domain/ex_current_user_provider.rb:19 | an object's JSON text opens with `{` and closes with `}` |
| `Json.RenderAppend` | lib/discourse_cookie_token_domain/ex_current_user_provider.rb:26-27 | the JSON of an object with one member appended is the old text up to its closing brace, a comma when there were members, the new member, and `}`: the earlier members' text is unchanged |
| `Json.Digits` | lib/discourse_cookie_token_domain/ex_current_user_provider.rb:14 | the decimal digits of a user id are a non-empty digit string with no leading zero |
| `Json.ParseRenderInt` | lib/discourse_cookie_token_domain/ex_current_user_provider.rb:14 | a user id written into the JSON reads back as the same integer, negative ids included |
| `Json.RenderParseInt` | lib/discourse_cookie_token_domain/ex_current_user_provider.rb:14 | every integer text the reader accepts is exactly how the writer renders that integer |
| `Base64.Encode` | lib/discourse_cookie_token_domain/ex_current_user_provider.rb:27 | the encoding of n bytes is 4·⌈n/3⌉ characters long: every three bytes become one quartet, and a last one or two bytes are padded to a full quartet |
| `Base64.EncodeIsStrict` | lib/discourse_cookie_token_domain/ex_current_user_provider.rb:27 | strict encoding: only standard-alphabet characters appear, `=` appears only as one or two closing characters, and there is no line break |
| `Base64.DecodeEncode` | lib/discourse_cookie_token_domain/ex_current_user_provider.rb:27 | decoding the strict encoding of any bytes gives back those bytes |
| `Base64.EncodeDecode` | lib/discourse_cookie_token_domain/ex_current_user_provider.rb:27 | any text the strict decoder accepts is the encoding of the bytes it decodes to, so the decoder accepts only strict encodings |
| `Base64.DecodeInjective` | lib/discourse_cookie_token_domain/ex_current_user_provider.rb:27 | two decodable texts with the same bytes are the same text |

## Left out

- The `super` calls to the host's `Auth::DefaultCurrentUserProvider`
  (session handling) are not part of this model. The jar given to `LogOnUser` and
  `LogOffUser` is the jar as the host's own handling left it.
- The `session` and `opts` arguments are not modelled, because the provider never
  reads them.
- SHA-256 and HMAC-SHA256 are not modelled inside. They are opaque, deterministic
  functions whose results are 64 lower-case hex characters.
- The JSON quoting and escaping of strings (ActiveSupport's `to_json`, which
  escapes more than RFC 8259 requires) and the UTF-8 encoding of strings are one
  opaque function, `Primitives.quote`. The model therefore does not parse the
  token's JSON back. The consumer-side check `Authentic` works on the object.
- The expiry date of a permanent cookie and the `Set-Cookie` header are not
  modelled. They depend on the clock and the framework. Only the `permanent`
  flag is kept.
- The framework's `cookies.delete` does nothing for a name the request did not
  carry. `Cookies.CookieJar.Delete` records the expiry either way, as the
  provider's intent is to remove the cookie unconditionally.
- `ExCurrentUserProvider.SignedPayloadAuthentic`: "another key is rejected" is
  stated only up to HMAC collisions between the two keys, because the HMAC
  primitive is opaque.
- plugin.rb only registers the setting and installs the provider class. There is
  nothing in it to model.

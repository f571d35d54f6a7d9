/**
 * The response cookie jar of the host framework, reduced to what the token
 * issuer does with it: write one cookie under a name, or delete a name
 * within a domain scope.
 */
module Cookies {

  datatype SameSite = SameSiteNone | SameSiteLax | SameSiteStrict

  /** Which hosts a cookie is sent to: the issuing host, every subdomain of the site's domain, or a named domain. */
  datatype CookieDomain = HostOnly | AllDomains | Domain(name: string)

  /** A cookie to set: its value and attributes. `permanent` is a far-future expiry. */
  datatype Cookie = Cookie(
    value: string,
    httpOnly: bool,
    secure: bool,
    sameSite: SameSite,
    domain: CookieDomain,
    permanent: bool)

  class CookieJar {
    /** The cookies the response carries, by name. */
    var cookies: map<string, Cookie>
    /** The names the response expires at the client, with the domain scope of the expiry. */
    var deleted: map<string, CookieDomain>

    constructor (initial: map<string, Cookie>)
      ensures cookies == initial && deleted == map[]
    {
      cookies := initial;
      deleted := map[];
    }

    /** `cookies[name] = {...}`: set the cookie, cancelling an earlier deletion of the name. */
    method Set(name: string, cookie: Cookie)
      modifies this
      ensures cookies == old(cookies)[name := cookie]
      ensures deleted == old(deleted) - {name}
    {
      cookies := cookies[name := cookie];
      deleted := deleted - {name};
    }

    /** `cookies.delete(name, domain: ...)`: drop the cookie and expire it at the client. */
    method Delete(name: string, domain: CookieDomain)
      modifies this
      ensures cookies == old(cookies) - {name}
      ensures deleted == old(deleted)[name := domain]
    {
      cookies := cookies - {name};
      deleted := deleted[name := domain];
    }
  }
}

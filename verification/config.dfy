/** The default settings of the application (app/core/config.py), used as
    constants. */
module Config {
  import opened Http

  /** Token and cookie lifetime: seven days, in minutes. */
  const AccessTokenExpireMinutes: nat := 60 * 24 * 7

  const CookieName: string := "session"
  const CookieDomain: Option<string> := None
  const CookieSecure: bool := false
  const CookieSameSite: string := "lax"
}

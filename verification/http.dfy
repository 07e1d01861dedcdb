/** Values the web framework hands to and takes from the route handlers:
    optional values, handler outcomes (a value or an HTTP error), and the
    outgoing response's list of Set-Cookie directives. */
module Http {

  datatype Option<+T> = None | Some(value: T)

  /** What a route handler produces: a value for the body, or the status
      code and detail of the HTTPException it raises. */
  datatype Result<+T> = Ok(value: T) | Err(status: nat, detail: string)

  /** One Set-Cookie directive with the arguments of the framework's
      `set_cookie` (a deletion is a directive with an empty value and a
      zero lifetime). */
  datatype SetCookie = SetCookie(
    key: string,
    value: string,
    maxAge: Option<int>,
    expires: Option<int>,
    path: string,
    domain: Option<string>,
    secure: bool,
    httpOnly: bool,
    sameSite: string)

  /** The outgoing response object that the login and logout handlers
      mutate: every `set_cookie`/`delete_cookie` call appends a directive. */
  class Response {
    var cookies: seq<SetCookie>

    constructor()
      ensures cookies == []
    {
      cookies := [];
    }

    method AddCookie(c: SetCookie)
      modifies this
      ensures cookies == old(cookies) + [c]
    {
      cookies := cookies + [c];
    }
  }
}

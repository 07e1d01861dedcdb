/** The collaborators the routers call but whose code is not part of this
    model: token signing/decoding (python-jose through the security helper)
    and password hashing. They are carried as function values; the facts the
    routers rely on are stated by `Sound` and demanded where they are used.
    Also the decimal rendering of user ids that travels in the token's
    subject claim (`str(user.id)`), and its parse back into an id. */
module Security {
  import opened Http

  /** `encode(sub)` is the signed token for subject `sub`; `decode(token)`
      is the subject of a token that verifies and has not expired, None for
      every other string; `hash` and `verify` are the password hasher. */
  datatype Codec = Codec(
    encode: string -> string,
    decode: string -> Option<string>,
    hash: string -> string,
    verify: (string, string) -> bool)

  /** An issued token decodes to its own subject, and a password verifies
      against its own digest. The model has no clock, so under `Sound` an
      issued token never expires: facts proved from it describe a session
      cookie presented before its token's expiry time. Tokens that do not
      decode (tampered, foreign, or expired) are the strings `decode` maps
      to None. */
  ghost predicate Sound(c: Codec)
  {
    && (forall sub :: c.decode(c.encode(sub)) == Some(sub))
    && (forall p :: c.verify(p, c.hash(p)))
  }

  predicate IsDigit(ch: char)
  {
    '0' <= ch <= '9'
  }

  predicate AllDigits(s: string)
  {
    forall i :: 0 <= i < |s| ==> IsDigit(s[i])
  }

  function DigitChar(d: nat): (ch: char)
    requires d < 10
    ensures IsDigit(ch) && ch as int - '0' as int == d
  {
    ('0' as int + d) as char
  }

  /** `str(n)` for a non-negative integer: decimal digits, no sign, no
      leading zero. */
  function DecimalString(n: nat): (s: string)
    ensures 1 <= |s| && AllDigits(s)
    ensures |s| > 1 ==> s[0] != '0'
  {
    if n < 10 then [DigitChar(n)] else DecimalString(n / 10) + [DigitChar(n % 10)]
  }

  /** The value of a string of decimal digits. */
  function DigitsValue(s: string): (n: nat)
    requires AllDigits(s)
  {
    if s == [] then 0 else 10 * DigitsValue(s[..|s| - 1]) + (s[|s| - 1] as int - '0' as int)
  }

  /** The id a subject string denotes when the user table is queried by id:
      a non-empty run of decimal digits. */
  function ParseDecimal(s: string): (r: Option<nat>)
    ensures r.Some? <==> 1 <= |s| && AllDigits(s)
  {
    if 1 <= |s| && AllDigits(s) then Some(DigitsValue(s)) else None
  }

  lemma {:induction false} DigitsValueOfDecimal(n: nat)
    ensures DigitsValue(DecimalString(n)) == n
  {
    if n >= 10 {
      DigitsValueOfDecimal(n / 10);
      var s := DecimalString(n);
      assert s[..|s| - 1] == DecimalString(n / 10);
    }
  }

  /** The subject written into a token at login reads back as the same id. */
  lemma DecimalRoundTrip(n: nat)
    ensures ParseDecimal(DecimalString(n)) == Some(n)
  {
    DigitsValueOfDecimal(n);
  }
}

/** Bearer-header parsing and the claim set of an access token. Signing and
    verifying the token (HS256) are done by a JWT library and enter the model
    as opaque functions. */
module Auth {
  import opened Wrappers
  import opened Http
  import opened PyStr

  /** A JSON value of a token payload. Arrays and objects are `Composite`:
      the backend never looks inside them. */
  datatype Claim =
    | Str(s: string)
    | Num(n: int)
    | Float(x: real)
    | Bool(b: bool)
    | Null
    | Composite

  type Claims = map<string, Claim>

  const AccessTokenExpireMinutes := 60 * 24

  /** Default token lifetime in seconds (24 hours). */
  const DefaultTtl := AccessTokenExpireMinutes * 60

  const MissingHeader := HttpError(Unauthorized, "Authorization header missing")
  const MalformedHeader := HttpError(Unauthorized, "Invalid Authorization header format")

  /** `get_current_token`: a present, non-empty header must split on
      whitespace into exactly two words, the first being `bearer` in any
      letter case; the second word is the token. */
  function GetCurrentToken(header: Option<string>): (r: Result<string, Failure>)
    ensures header.None? || header.value == "" ==> r == Err(MissingHeader)
    ensures header.Some? && header.value != "" && r.Err? ==> r == Err(MalformedHeader)
    ensures r.Ok? <==> header.Some? && |Words(header.value)| == 2 && Lower(Words(header.value)[0]) == "bearer"
    ensures r.Ok? ==> r.value != [] && NoSpace(r.value)
    ensures r.Ok? ==> r.value == Words(header.value)[1]
  {
    if header.None? || header.value == "" then Err(MissingHeader)
    else
      var parts := Words(header.value);
      if |parts| != 2 || Lower(parts[0]) != "bearer" then Err(MalformedHeader)
      else Ok(parts[1])
  }

  /** `w` spells `bearer` with each letter in either case. */
  predicate SpellsBearer(w: string) {
    |w| == 6 && forall i :: 0 <= i < 6 ==> w[i] == "bearer"[i] || w[i] == "BEARER"[i]
  }

  /** Any header of the form: optional whitespace, `bearer` in any letter
      case, whitespace, the token, optional whitespace, yields the token. */
  lemma BearerHeaderAccepted(lead: string, scheme: string, sep: string, token: string, trail: string)
    requires AllIn(lead, Whitespace) && AllIn(sep, Whitespace) && AllIn(trail, Whitespace) && sep != []
    requires SpellsBearer(scheme)
    requires token != [] && NoSpace(token)
    ensures GetCurrentToken(Some(lead + scheme + sep + token + trail)) == Ok(token)
  {
    assert NoSpace(scheme);
    var h := lead + scheme + sep + token + trail;
    TwoWords(lead, scheme, sep, token, trail);
    assert Words(h) == [scheme, token];
    SpellsBearerLower(scheme);
    assert Lower(Words(h)[0]) == "bearer";
  }

  /** `w.lower() == "bearer"` exactly when `w` spells `bearer` in some mix of
      letter cases. */
  lemma SpellsBearerLower(w: string)
    ensures SpellsBearer(w) <==> Lower(w) == "bearer"
  {
    LowerMatches(w, "bearer", "BEARER");
  }

  /** A header whose first word is not `bearer` in some letter case is
      rejected, whatever follows it. */
  lemma OtherSchemeRejected(header: string)
    requires |Words(header)| >= 1
    requires !SpellsBearer(Words(header)[0])
    ensures GetCurrentToken(Some(header)) == Err(MalformedHeader)
  {
    SpellsBearerLower(Words(header)[0]);
  }

  /** `expires_delta or timedelta(minutes=...)`: a missing or zero delta
      (both falsy) falls back to the default lifetime. */
  function Lifetime(delta: Option<int>): (ttl: int)
    ensures delta.None? || delta.value == 0 ==> ttl == DefaultTtl
    ensures delta.Some? && delta.value != 0 ==> ttl == delta.value
  {
    if delta.Some? && delta.value != 0 then delta.value else DefaultTtl
  }

  /** The claims `create_access_token` signs: a copy of `data` with `exp`
      added or overwritten; the caller's map is a value and is not changed. */
  function AccessClaims(data: Claims, now: int, delta: Option<int>): (c: Claims)
    ensures c.Keys == data.Keys + {"exp"}
    ensures c["exp"] == Num(now + Lifetime(delta))
    ensures forall k :: k in data && k != "exp" ==> c[k] == data[k]
  {
    data["exp" := Num(now + Lifetime(delta))]
  }

  /** `create_access_token`: the signed encoding of the claims above. */
  function CreateAccessToken(data: Claims, now: int, delta: Option<int>, encode: Claims -> string): string
  {
    encode(AccessClaims(data, now, delta))
  }

  /** When the JWT library decodes whatever it encodes, the token of
      `create_access_token` decodes to the caller's claims plus `exp`. */
  lemma CreateAccessTokenDecodes(data: Claims, now: int, delta: Option<int>, encode: Claims -> string, decode: string -> JwtOutcome)
    requires forall c :: decode(encode(c)) == Decoded(c)
    ensures DecodeAccessToken(CreateAccessToken(data, now, delta, encode), decode) == Some(AccessClaims(data, now, delta))
  {
  }

  /** What the JWT library's decode does with a token: the payload, or a
      `JWTError` (bad signature, expired, malformed). */
  datatype JwtOutcome = Decoded(claims: Claims) | JwtError

  /** `decode_access_token`: never raises; any `JWTError` becomes `None`. */
  function DecodeAccessToken(token: string, decode: string -> JwtOutcome): (r: Option<Claims>)
    ensures r.None? <==> decode(token).JwtError?
    ensures r.Some? ==> r.value == decode(token).claims
  {
    match decode(token)
    case Decoded(c) => Some(c)
    case JwtError => None
  }
}

/** The token codec the application wraps around the jwt gem: `encode` adds an
    expiry claim and signs with HS256 (section 3.2 of RFC 7518) under the server
    secret, `decode` checks signature and expiry (RFC 7519) and yields nil on any
    failure. Signing and signature checking themselves are abstract: a `Signer`
    is the pair of functions the gem computes for one secret. */
module JsonWebToken {
  import opened Wrappers
  import opened Text

  /** A claim value; the application only ever puts integers in a payload. */
  datatype Claim = IntClaim(n: int) | TextClaim(s: string)

  /** A decoded payload. Its keys are strings: the decoder returns a hash with
      indifferent access, so the symbol `:user_id` and the string "user_id" name
      the same entry. */
  type Payload = map<string, Claim>

  const ExpKey: string := "exp"
  const UserIdKey: string := "user_id"

  /** The default lifetime of a token, `24.hours`, in seconds. */
  const DefaultLifetime: int := 24 * 60 * 60

  /** HS256 under one secret: `sign` yields the compact token for a payload,
      `verify` parses a token and checks its signature, None on a decode error. */
  datatype Signer = Signer(sign: Payload -> string, verify: string -> Option<Payload>)

  /** What the model relies on of the gem: verifying a token it signed gives back
      the signed payload, and a compact token is a non-empty run of base64url
      segments and dots, so it holds no whitespace. */
  ghost predicate Sound(signer: Signer) {
    forall p :: signer.verify(signer.sign(p)) == Some(p) && signer.sign(p) != [] && NoAsciiSpace(signer.sign(p))
  }

  /** `JsonWebToken.encode(payload, exp)`: sets the "exp" claim to `exp` (Unix seconds) and signs. */
  function Encode(signer: Signer, payload: Payload, exp: int): string {
    signer.sign(payload[ExpKey := IntClaim(exp)])
  }

  /** The gem's expiry check: a payload with an "exp" claim is expired once the
      clock has reached it; one without "exp" never expires. A non-integer "exp"
      is rejected. */
  predicate Expired(p: Payload, now: int) {
    ExpKey in p && (p[ExpKey].IntClaim? ==> p[ExpKey].n <= now)
  }

  /** `JsonWebToken.decode(token)` at time `now`: the payload of a token whose
      signature verifies and which has not expired, None otherwise. */
  function Decode(signer: Signer, token: string, now: int): Option<Payload> {
    match signer.verify(token)
    case None => None
    case Some(p) => if Expired(p, now) then None else Some(p)
  }

  /** A decoded payload is one the signer vouches for and one that has not expired. */
  lemma DecodeAcceptsOnlyLive(signer: Signer, token: string, now: int)
    ensures Decode(signer, token, now).Some? <==>
      signer.verify(token).Some? && !Expired(signer.verify(token).value, now)
    ensures Decode(signer, token, now).Some? ==> Decode(signer, token, now) == signer.verify(token)
  {
  }

  /** Round trip: a token decodes to the encoded payload plus its "exp" claim
      while `now` is before the expiry, and to None from the expiry on. */
  lemma DecodeEncode(signer: Signer, payload: Payload, exp: int, now: int)
    requires Sound(signer)
    ensures Decode(signer, Encode(signer, payload, exp), now)
      == if now < exp then Some(payload[ExpKey := IntClaim(exp)]) else None
  {
    var p := payload[ExpKey := IntClaim(exp)];
    assert signer.verify(signer.sign(p)) == Some(p);
  }

  /** The "user_id" claim of a payload, if it has one. */
  function UserIdClaim(p: Payload): Option<Claim> {
    if UserIdKey in p then Some(p[UserIdKey]) else None
  }

  /** The payload the application signs for a user: `{ user_id: id }`. */
  function UserPayload(id: int): Payload {
    map[UserIdKey := IntClaim(id)]
  }

  /** The token issued at login and signup, valid for the default lifetime. */
  function IssueFor(signer: Signer, id: int, now: int): string {
    Encode(signer, UserPayload(id), now + DefaultLifetime)
  }

  /** An issued token decodes, within its lifetime, to a payload whose "user_id" claim is the id. */
  lemma IssuedTokenCarriesId(signer: Signer, id: int, issuedAt: int, now: int)
    requires Sound(signer)
    requires now < issuedAt + DefaultLifetime
    ensures Decode(signer, IssueFor(signer, id, issuedAt), now).Some?
    ensures UserIdClaim(Decode(signer, IssueFor(signer, id, issuedAt), now).value) == Some(IntClaim(id))
  {
    DecodeEncode(signer, UserPayload(id), issuedAt + DefaultLifetime, now);
  }
}

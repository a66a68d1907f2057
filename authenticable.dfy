/** The authentication concern every controller includes: read the bearer token
    from the `Authorization` header, decode it, load the user it names into
    `current_user`, and refuse with 401 when that fails. */
module Authenticable {
  import opened Wrappers
  import opened Text
  import opened Users
  import opened JsonWebToken
  import Http

  const BearerPrefix: string := "Bearer "

  /** `extract_token_from_header`: nil unless the header starts with "Bearer ";
      otherwise the last of the header's whitespace-separated words
      (`header.split(" ").last`). */
  function ExtractToken(header: Option<string>): (t: Option<string>)
    ensures t.Some? <==> header.Some? && StartsWith(header.value, BearerPrefix)
    ensures t.Some? ==> t.value != [] && NoAsciiSpace(t.value)
    ensures t.Some? ==> t.value == LastField(header.value)
  {
    if header.None? || !StartsWith(header.value, BearerPrefix) then
      None
    else
      var h := header.value;
      assert h[0] == BearerPrefix[0];
      FieldsOfNonSpaceStart(h);
      LastOfFields(h);
      var words := Fields(h);
      Some(words[|words| - 1])
  }

  /** A well-formed header carries its token back unchanged. */
  lemma BearerTokenExtracted(token: string)
    requires token != [] && NoAsciiSpace(token)
    ensures ExtractToken(Some(BearerPrefix + token)) == Some(token)
  {
    var h := BearerPrefix + token;
    assert h[..|BearerPrefix|] == BearerPrefix;
    LastFieldAfterSpace(BearerPrefix, token);
  }

  /** The user `set_current_user` loads for a request with a token: decoding
      yields a payload or nil (indexing nil raises, which the rescue turns into
      nil), then `User.find_by(id: decoded[:user_id])`, nil when the claim is absent. */
  function UserForToken(token: string, signer: Signer, now: int, users: seq<User>): (u: Option<User>)
    ensures u.Some? ==> u.value in users
    ensures u.Some? <==>
      && Decode(signer, token, now).Some?
      && UserIdClaim(Decode(signer, token, now).value).Some?
      && UserIdClaim(Decode(signer, token, now).value).value.IntClaim?
      && FindById(users, UserIdClaim(Decode(signer, token, now).value).value.n).Some?
    ensures u.Some? ==> u.value.id == UserIdClaim(Decode(signer, token, now).value).value.n
  {
    match Decode(signer, token, now)
    case None => None
    case Some(payload) =>
      match UserIdClaim(payload)
      case Some(IntClaim(id)) => FindById(users, id)
      case _ => None
  }

  /** A token issued for a stored user authenticates that user until it
      expires, provided ids are distinct. */
  lemma IssuedTokenAuthenticates(signer: Signer, users: seq<User>, u: User, issuedAt: int, now: int)
    requires Sound(signer)
    requires u in users
    requires forall i, j :: 0 <= i < j < |users| ==> users[i].id != users[j].id
    requires now < issuedAt + DefaultLifetime
    ensures ExtractToken(Some(BearerPrefix + IssueFor(signer, u.id, issuedAt))) == Some(IssueFor(signer, u.id, issuedAt))
    ensures UserForToken(IssueFor(signer, u.id, issuedAt), signer, now, users) == Some(u)
  {
    var payload := UserPayload(u.id)[ExpKey := IntClaim(issuedAt + DefaultLifetime)];
    assert signer.sign(payload) != [] && NoAsciiSpace(signer.sign(payload));
    BearerTokenExtracted(IssueFor(signer, u.id, issuedAt));
    IssuedTokenCarriesId(signer, u.id, issuedAt, now);
    FindByIdUnique(users, u);
  }

  /** Once the expiry is reached, an issued token authenticates nobody. */
  lemma ExpiredTokenRejected(signer: Signer, users: seq<User>, id: int, issuedAt: int, now: int)
    requires Sound(signer)
    requires issuedAt + DefaultLifetime <= now
    ensures UserForToken(IssueFor(signer, id, issuedAt), signer, now, users).None?
  {
    DecodeEncode(signer, UserPayload(id), issuedAt + DefaultLifetime, now);
  }

  /** A token whose user no longer exists (destroyed after the token was
      issued) authenticates nobody, however long it still has to live. */
  lemma TokenOfMissingUserRejected(signer: Signer, users: seq<User>, id: int, issuedAt: int, now: int)
    requires Sound(signer)
    requires FindById(users, id).None?
    ensures UserForToken(IssueFor(signer, id, issuedAt), signer, now, users).None?
  {
    DecodeEncode(signer, UserPayload(id), issuedAt + DefaultLifetime, now);
  }

  /** With distinct ids, looking a stored user up by its id finds that user. */
  lemma {:induction false} FindByIdUnique(users: seq<User>, u: User)
    requires u in users
    requires forall i, j :: 0 <= i < j < |users| ==> users[i].id != users[j].id
    ensures FindById(users, u.id) == Some(u)
  {
    if users[0] != u {
      assert users[0].id != u.id by {
        var k :| 0 <= k < |users| && users[k] == u;
      }
      assert u in users[1..];
      FindByIdUnique(users[1..], u);
    }
  }

  /** The concern's per-request state: `attr_reader :current_user`. */
  class Concern {
    var currentUser: Option<User>

    /** A fresh controller instance: nobody is logged in yet. */
    constructor()
      ensures currentUser.None?
    {
      currentUser := None;
    }

    /** `set_current_user`, the first before-action: without a token the
        current user is left as it was; with one, it becomes the user the
        token names, or nil. */
    method SetCurrentUser(header: Option<string>, signer: Signer, now: int, users: seq<User>)
      modifies this
      ensures ExtractToken(header).None? ==> currentUser == old(currentUser)
      ensures ExtractToken(header).Some? ==> currentUser == UserForToken(ExtractToken(header).value, signer, now, users)
    {
      var token := ExtractToken(header);
      if token.None? {
        return;
      }
      var decoded := Decode(signer, token.value, now);
      if decoded.None? {
        currentUser := None;
        return;
      }
      var claim := UserIdClaim(decoded.value);
      if claim.Some? && claim.value.IntClaim? {
        currentUser := FindById(users, claim.value.n);
      } else {
        currentUser := None;
      }
    }

    /** `authenticate_user!`: renders 401 (which halts the action) iff nobody is logged in. */
    method AuthenticateUser() returns (halt: Option<Http.Response>)
      ensures halt.Some? <==> currentUser.None?
      ensures halt.Some? ==> halt.value == Http.UnauthorizedResponse
    {
      if currentUser.None? {
        return Some(Http.UnauthorizedResponse);
      }
      return None;
    }
  }

  /** The user a fresh request ends up with after `set_current_user`. */
  function CurrentUser(header: Option<string>, signer: Signer, now: int, users: seq<User>): (u: Option<User>)
    ensures ExtractToken(header).None? ==> u.None?
    ensures ExtractToken(header).Some? ==> u == UserForToken(ExtractToken(header).value, signer, now, users)
    ensures u.Some? ==> u.value in users
    ensures u.Some? ==>
      var payload := Decode(signer, ExtractToken(header).value, now);
      payload.Some? && UserIdClaim(payload.value).Some? && UserIdClaim(payload.value).value.IntClaim?
      && u.value.id == UserIdClaim(payload.value).value.n
  {
    if ExtractToken(header).None? then None else UserForToken(ExtractToken(header).value, signer, now, users)
  }

  /** A request carrying a live token issued for a stored user is authenticated as that user. */
  lemma LoggedInRequest(signer: Signer, users: seq<User>, u: User, issuedAt: int, now: int)
    requires Sound(signer)
    requires u in users
    requires forall i, j :: 0 <= i < j < |users| ==> users[i].id != users[j].id
    requires now < issuedAt + DefaultLifetime
    ensures CurrentUser(Some(BearerPrefix + IssueFor(signer, u.id, issuedAt)), signer, now, users) == Some(u)
  {
    IssuedTokenAuthenticates(signer, users, u, issuedAt, now);
  }

  /** One request through the concern: a fresh instance, `set_current_user`,
      then `authenticate_user!`. The request is refused iff its header names nobody. */
  method AuthenticateRequest(header: Option<string>, signer: Signer, now: int, users: seq<User>)
    returns (current: Option<User>, halt: Option<Http.Response>)
    ensures current == CurrentUser(header, signer, now, users)
    ensures halt.Some? <==> current.None?
    ensures halt.Some? ==> halt.value == Http.UnauthorizedResponse
  {
    var concern := new Concern();
    concern.SetCurrentUser(header, signer, now, users);
    halt := concern.AuthenticateUser();
    current := concern.currentUser;
  }
}

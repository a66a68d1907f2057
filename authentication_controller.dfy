/** `Api::V1::AuthenticationController`: sign up, log in, and show the logged-in
    user. Sign-up and log-in answer with a token issued for the user; `me` is the
    only action behind `authenticate_user!`. */
module AuthenticationController {
  import opened Wrappers
  import opened Text
  import opened Users
  import opened JsonWebToken
  import opened Store
  import opened Http
  import Roles
  import Authenticable

  /** `user_response`: id, name and email; the digest is never shown. */
  function UserResponse(u: User): (v: UserView)
    ensures v.id == u.id && v.name == u.name && v.email == u.email
  {
    UserView(u.id, u.name, u.email)
  }

  /** The value of a permitted key, if it was sent. */
  function Lookup(m: map<string, string>, key: string): Option<string> {
    if key in m then Some(m[key]) else None
  }

  /** `signup_params`: `params.require(:user).permit(:name, :email, :password,
      :password_confirmation)`. None where `require` raises (the parameter is
      missing or empty). An absent name or email reads as nil, which every
      validation treats as the empty string. */
  function SignupParamsOf(user: Option<map<string, string>>): (p: Option<SignupParams>)
    ensures p.None? <==> user.None? || user.value == map[]
    ensures p.Some? ==> p.value.password == Lookup(user.value, "password")
    ensures p.Some? ==> p.value.confirmation == Lookup(user.value, "password_confirmation")
    ensures p.Some? && "email" in user.value ==> p.value.email == user.value["email"]
    ensures p.Some? && "name" in user.value ==> p.value.name == user.value["name"]
  {
    if user.None? || user.value == map[] then
      None
    else
      var m := user.value;
      var name := if "name" in m then m["name"] else "";
      var email := if "email" in m then m["email"] else "";
      Some(SignupParams(name, email, Lookup(m, "password"), Lookup(m, "password_confirmation")))
  }

  /** The attributes sign-up accepts. */
  const SignupKeys: set<string> := {"name", "email", "password", "password_confirmation"}

  /** Strong parameters: anything else sent under `user` (a `password_digest`,
      an `id`, a role) is dropped and cannot reach the record. */
  lemma OnlySignupKeysPermitted(m: map<string, string>, key: string, value: string)
    requires m != map[] && key !in SignupKeys
    ensures SignupParamsOf(Some(m[key := value])) == SignupParamsOf(Some(m))
  {
    assert key != "name" && key != "email" && key != "password" && key != "password_confirmation";
    assert Lookup(m[key := value], "password") == Lookup(m, "password");
    assert Lookup(m[key := value], "password_confirmation") == Lookup(m, "password_confirmation");
  }

  /** `signup`: 400 when the `user` parameter is missing; otherwise build the
      user and save it. On success, 201 with a token for the new id and the
      stored user (email normalised); on failure, 422 with the validation
      errors and nothing written. */
  method Signup(db: Database, signer: Signer, bcrypt: Bcrypt, now: int, user: Option<map<string, string>>)
    returns (resp: Response)
    requires db.Valid()
    modifies db
    ensures db.Valid()
    ensures SignupParamsOf(user).None? ==> resp == MissingParameter("user") && db.Tables() == old(db.Tables())
    ensures SignupParamsOf(user).Some? ==>
      var p := SignupParamsOf(user).value;
      var errs := ErrorsAsWritten(old(db.users), NewDraft(p, bcrypt));
      && (errs != [] ==> resp == Response(UnprocessableEntity, UserErrorsBody(errs)) && db.Tables() == old(db.Tables()))
      && (errs == [] ==>
        var u := User(old(db.nextUserId), p.name, NormalizeEmail(p.email), bcrypt.create(p.password.value));
        && p.password.Some?
        && resp == Response(Created, AuthBody(IssueFor(signer, u.id, now), UserResponse(u)))
        && db.users == old(db.users) + [u]
        && db.roles == old(db.roles) + [Roles.Role(old(db.nextRoleId), Roles.Employee, u.id)]
        && db.nextUserId == old(db.nextUserId) + 1 && db.nextRoleId == old(db.nextRoleId) + 1)
    ensures resp.status == Created <==>
      SignupParamsOf(user).Some? && ErrorsAsWritten(old(db.users), NewDraft(SignupParamsOf(user).value, bcrypt)) == []
  {
    var p := SignupParamsOf(user);
    if p.None? {
      return MissingParameter("user");
    }
    var draft := NewDraft(p.value, bcrypt);
    var saved := db.Save(draft);
    if saved.Failure? {
      return Response(UnprocessableEntity, UserErrorsBody(saved.error));
    }
    ValidDraft(old(db.users), draft);
    var token := IssueFor(signer, saved.value.id, now);
    return Response(Created, AuthBody(token, UserResponse(saved.value)));
  }

  /** `login`: 400 unless email and password are both present; otherwise look
      the user up by email regardless of case and check the password: 200 with a
      token, or 401 with one message whichever of the two was wrong. */
  function Login(users: seq<User>, signer: Signer, bcrypt: Bcrypt, now: int, email: Option<string>, password: Option<string>)
    : (resp: Response)
    ensures !(email.Some? && Present(email.value) && password.Some? && Present(password.value)) ==>
      resp == Response(BadRequest, ErrorBody(CredentialsRequiredMessage))
    ensures resp.status == Ok <==>
      && email.Some? && Present(email.value) && password.Some? && Present(password.value)
      && FindByEmail(users, email.value).Some?
      && Authenticate(bcrypt, FindByEmail(users, email.value).value, password.value)
    ensures resp.status == Ok ==>
      var u := FindByEmail(users, email.value).value;
      && Downcase(u.email) == Downcase(email.value) && Authenticate(bcrypt, u, password.value)
      && resp.body == AuthBody(IssueFor(signer, u.id, now), UserResponse(u))
    ensures email.Some? && Present(email.value) && password.Some? && Present(password.value) && resp.status != Ok ==>
      resp == Response(Unauthorized, ErrorBody(InvalidCredentialsMessage))
  {
    if !(email.Some? && Present(email.value) && password.Some? && Present(password.value)) then
      Response(BadRequest, ErrorBody(CredentialsRequiredMessage))
    else
      var found := FindByEmail(users, email.value);
      if found.Some? && Authenticate(bcrypt, found.value, password.value) then
        Response(Ok, AuthBody(IssueFor(signer, found.value.id, now), UserResponse(found.value)))
      else
        Response(Unauthorized, ErrorBody(InvalidCredentialsMessage))
  }

  /** An unknown email and a wrong password get the same answer, so a failed
      login does not reveal whether the email is registered. */
  lemma LoginFailuresIndistinguishable(
    users: seq<User>, signer: Signer, bcrypt: Bcrypt, now: int,
    unknown: string, p1: string, known: string, wrong: string)
    requires Present(unknown) && Present(p1) && Present(known) && Present(wrong)
    requires !EmailTakenIn(users, unknown)
    requires FindByEmail(users, known).Some? && !Authenticate(bcrypt, FindByEmail(users, known).value, wrong)
    ensures Login(users, signer, bcrypt, now, Some(unknown), Some(p1))
         == Login(users, signer, bcrypt, now, Some(known), Some(wrong))
         == Response(Unauthorized, ErrorBody(InvalidCredentialsMessage))
  {
  }

  /** The email lookup only sees the lowered email. */
  lemma {:induction false} FindByEmailIgnoresCase(users: seq<User>, e1: string, e2: string)
    requires Downcase(e1) == Downcase(e2)
    ensures FindByEmail(users, e1) == FindByEmail(users, e2)
  {
    if users != [] {
      FindByEmailIgnoresCase(users[1..], e1, e2);
    }
  }

  /** Looking up a new user's email after appending it, when no earlier row
      had that email up to case, finds the new user. */
  lemma {:induction false} FindByEmailAppended(users: seq<User>, u: User, email: string)
    requires !EmailTakenIn(users, email) && Downcase(u.email) == Downcase(email)
    ensures FindByEmail(users + [u], email) == Some(u)
  {
    if users == [] {
      assert [u][1..] == [];
    } else {
      assert (users + [u])[1..] == users[1..] + [u];
      assert users[0] in users;
      assert forall v :: v in users[1..] ==> v in users;
      FindByEmailAppended(users[1..], u, email);
    }
  }

  /** Logging in is case-insensitive in the email: two spellings that differ
      only in the case of ASCII letters get the same answer. */
  lemma LoginIgnoresEmailCase(
    users: seq<User>, signer: Signer, bcrypt: Bcrypt, now: int, e1: string, e2: string, password: Option<string>)
    requires Present(e1) && Present(e2) && Downcase(e1) == Downcase(e2)
    ensures Login(users, signer, bcrypt, now, Some(e1), password) == Login(users, signer, bcrypt, now, Some(e2), password)
  {
    FindByEmailIgnoresCase(users, e1, e2);
  }

  /** bcrypt checks a password against the digest it made of it. */
  ghost predicate BcryptSound(bcrypt: Bcrypt) {
    forall pw :: bcrypt.matches(bcrypt.create(pw), pw)
  }

  /** A sign-up the application accepted is followed by a log-in with the same
      email, in any case, and the same password: it succeeds with the row
      sign-up appended when the password is present, and is refused with 400
      when it is whitespace only, which `password_required?` as written lets
      through sign-up. */
  lemma SignupThenLogin(
    users: seq<User>, nextUserId: int, p: SignupParams, bcrypt: Bcrypt, signer: Signer, now: int, email: string)
    requires BcryptSound(bcrypt)
    requires ErrorsAsWritten(users, NewDraft(p, bcrypt)) == []
    requires Downcase(email) == Downcase(p.email) && Present(email)
    ensures p.password.Some?
    ensures var u := User(nextUserId, p.name, NormalizeEmail(p.email), bcrypt.create(p.password.value));
      var resp := Login(users + [u], signer, bcrypt, now, Some(email), p.password);
      && (Present(p.password.value) ==> resp == Response(Ok, AuthBody(IssueFor(signer, nextUserId, now), UserResponse(u))))
      && (!Present(p.password.value) ==> resp == Response(BadRequest, ErrorBody(CredentialsRequiredMessage)))
  {
    SignupAccepted(users, p, bcrypt);
    var u := User(nextUserId, p.name, NormalizeEmail(p.email), bcrypt.create(p.password.value));
    if Present(p.password.value) {
      NewRowFoundByEmail(users, p.email, u, email);
      LoginAccepts(users + [u], signer, bcrypt, now, email, p.password.value, u);
    }
  }

  /** With the intended password rule, whoever signed up can always log in
      with the same email, in any case, and the same password. */
  lemma IntendedSignupThenLogin(
    users: seq<User>, nextUserId: int, p: SignupParams, bcrypt: Bcrypt, signer: Signer, now: int, email: string)
    requires BcryptSound(bcrypt)
    requires Errors(users, NewDraft(p, bcrypt)) == []
    requires Downcase(email) == Downcase(p.email) && Present(email)
    ensures p.password.Some?
    ensures var u := User(nextUserId, p.name, NormalizeEmail(p.email), bcrypt.create(p.password.value));
      Login(users + [u], signer, bcrypt, now, Some(email), p.password)
        == Response(Ok, AuthBody(IssueFor(signer, nextUserId, now), UserResponse(u)))
  {
    IntendedRuleStricter(users, NewDraft(p, bcrypt));
    CreatedUserHasStrongPassword(users, p, bcrypt);
    SignupThenLogin(users, nextUserId, p, bcrypt, signer, now, email);
  }

  /** What a sign-up that passed validation guarantees about its parameters. */
  lemma SignupAccepted(users: seq<User>, p: SignupParams, bcrypt: Bcrypt)
    requires ErrorsAsWritten(users, NewDraft(p, bcrypt)) == []
    ensures p.password.Some? && p.password.value != []
    ensures EmailFormat(p.email) && !EmailTakenIn(users, p.email)
  {
    ValidDraft(users, NewDraft(p, bcrypt));
  }

  /** The row stored for a well-formed, untaken email is what a lookup of that
      email, in any case, finds once the row is appended. */
  lemma NewRowFoundByEmail(users: seq<User>, signupEmail: string, u: User, email: string)
    requires EmailFormat(signupEmail) && !EmailTakenIn(users, signupEmail)
    requires u.email == NormalizeEmail(signupEmail) && Downcase(email) == Downcase(signupEmail)
    ensures FindByEmail(users + [u], email) == Some(u)
  {
    assert Downcase(u.email) == Downcase(signupEmail) by {
      NormalizeWellFormedEmail(signupEmail);
    }
    assert !EmailTakenIn(users, email);
    FindByEmailAppended(users, u, email);
  }

  /** A present email that finds a user whose digest matches a present password logs that user in. */
  lemma LoginAccepts(users: seq<User>, signer: Signer, bcrypt: Bcrypt, now: int, email: string, password: string, u: User)
    requires BcryptSound(bcrypt) && u.digest == bcrypt.create(password)
    requires Present(email) && Present(password) && FindByEmail(users, email) == Some(u)
    ensures Login(users, signer, bcrypt, now, Some(email), Some(password))
      == Response(Ok, AuthBody(IssueFor(signer, u.id, now), UserResponse(u)))
  {
    assert Authenticate(bcrypt, u, password);
  }

  /** `me`: behind `authenticate_user!`, 401 without a user, otherwise the user. */
  function Me(current: Option<User>): (resp: Response)
    ensures resp.status == Ok <==> current.Some?
    ensures current.None? ==> resp == UnauthorizedResponse
  {
    if current.None? then UnauthorizedResponse else Response(Ok, UserBody(UserResponse(current.value)))
  }

  /** `me`, sent a live token issued for a stored user (what sign-up and log-in
      return), answers with that user. */
  lemma MeWithIssuedToken(users: seq<User>, signer: Signer, u: User, issuedAt: int, now: int)
    requires Sound(signer)
    requires u in users
    requires forall i, j :: 0 <= i < j < |users| ==> users[i].id != users[j].id
    requires now < issuedAt + DefaultLifetime
    ensures Me(Authenticable.CurrentUser(Some(Authenticable.BearerPrefix + IssueFor(signer, u.id, issuedAt)), signer, now, users))
      == Response(Ok, UserBody(UserResponse(u)))
  {
    Authenticable.LoggedInRequest(signer, users, u, issuedAt, now);
  }

  /** The token a successful log-in returns, sent back as a bearer token before it
      expires, makes `me` answer with the user log-in returned. */
  lemma LoginThenMe(
    users: seq<User>, signer: Signer, bcrypt: Bcrypt, issuedAt: int, now: int, email: Option<string>, password: Option<string>)
    requires Sound(signer)
    requires forall i, j :: 0 <= i < j < |users| ==> users[i].id != users[j].id
    requires Login(users, signer, bcrypt, issuedAt, email, password).status == Ok
    requires now < issuedAt + DefaultLifetime
    ensures var body := Login(users, signer, bcrypt, issuedAt, email, password).body;
      Me(Authenticable.CurrentUser(Some(Authenticable.BearerPrefix + body.token), signer, now, users))
        == Response(Ok, UserBody(body.user))
  {
    MeWithIssuedToken(users, signer, FindByEmail(users, email.value).value, issuedAt, now);
  }
}

/** The `User` record: validations, email normalisation, the password rules of
    `has_secure_password`, and the role predicates it forwards to its role. */
module Users {
  import opened Wrappers
  import opened Text
  import Roles

  /** A row of the users table. `digest` is the stored bcrypt hash, never the password. */
  datatype User = User(id: int, name: string, email: string, digest: string)

  /** bcrypt as `has_secure_password` uses it: `create` hashes a password with a
      fresh salt, `matches` is `BCrypt::Password#is_password?`. Both abstract. */
  datatype Bcrypt = Bcrypt(create: string -> string, matches: (string, string) -> bool)

  /** `user.authenticate(password)`: true iff the password matches the stored digest. */
  predicate Authenticate(bcrypt: Bcrypt, u: User, password: string) {
    bcrypt.matches(u.digest, password)
  }

  // ------------------------------------------------------------ email format

  predicate IsAlnum(c: char) {
    ('a' <= c <= 'z') || ('A' <= c <= 'Z') || ('0' <= c <= '9')
  }

  /** The characters allowed before the '@'. */
  predicate IsLocalChar(c: char) {
    IsAlnum(c) || c in ".!#$%&'*+/=?^_`{|}~-"
  }

  /** One dot-free label of the domain: 1 to 63 letters, digits and hyphens,
      beginning and ending with a letter or digit. */
  predicate IsLabel(s: string) {
    && 1 <= |s| <= 63
    && IsAlnum(s[0]) && IsAlnum(s[|s| - 1])
    && forall i :: 0 < i < |s| - 1 ==> IsAlnum(s[i]) || s[i] == '-'
  }

  /** The first position of `c` in `s`. */
  function IndexOf(s: string, c: char): (k: nat)
    requires c in s
    ensures k < |s| && s[k] == c && c !in s[..k]
  {
    if s[0] == c then 0 else IndexOf(s[1..], c) + 1
  }

  /** One or more labels separated by dots. */
  predicate IsDomain(s: string)
    decreases |s|
  {
    if '.' in s then
      var k := IndexOf(s, '.');
      IsLabel(s[..k]) && IsDomain(s[k + 1..])
    else
      IsLabel(s)
  }

  /** `URI::MailTo::EMAIL_REGEXP`, the format `validates :email` checks:
      one or more local characters, an '@', then a domain. */
  predicate EmailFormat(e: string) {
    && '@' in e
    && var k := IndexOf(e, '@');
    && k >= 1
    && (forall i :: 0 <= i < k ==> IsLocalChar(e[i]))
    && IsDomain(e[k + 1..])
  }

  lemma {:induction false} DomainChars(s: string)
    requires IsDomain(s)
    ensures forall i :: 0 <= i < |s| ==> IsAlnum(s[i]) || s[i] == '-' || s[i] == '.'
    decreases |s|
  {
    if '.' in s {
      var k := IndexOf(s, '.');
      DomainChars(s[k + 1..]);
      forall i | 0 <= i < |s| ensures IsAlnum(s[i]) || s[i] == '-' || s[i] == '.' {
        if i < k {
          assert s[i] == s[..k][i];
        } else if i > k {
          assert s[i] == s[k + 1..][i - k - 1];
        }
      }
    }
  }

  lemma LocalCharNotSpace(c: char)
    requires IsLocalChar(c)
    ensures !IsStripSpace(c) && !IsBlankSpace(c)
  {
  }

  lemma DomainCharNotSpace(c: char)
    requires IsAlnum(c) || c == '-' || c == '.'
    ensures !IsStripSpace(c) && !IsBlankSpace(c)
  {
  }

  /** A well-formed email holds no whitespace and no NUL, and it is not blank. */
  lemma EmailFormatHasNoSpace(e: string)
    requires EmailFormat(e)
    ensures forall i :: 0 <= i < |e| ==> !IsStripSpace(e[i]) && !IsBlankSpace(e[i])
    ensures Present(e)
  {
    var k := IndexOf(e, '@');
    DomainChars(e[k + 1..]);
    forall i | 0 <= i < |e| ensures !IsStripSpace(e[i]) && !IsBlankSpace(e[i]) {
      if i < k {
        LocalCharNotSpace(e[i]);
      } else if i > k {
        assert e[i] == e[k + 1..][i - k - 1];
        DomainCharNotSpace(e[i]);
      }
    }
    assert !IsBlankSpace(e[k]);
  }

  // ---------------------------------------------------------- normalisation

  /** `normalize_email`: `email.to_s.downcase.strip`, run before every save. */
  function NormalizeEmail(email: string): (r: string)
    ensures IsLowercase(r)
    ensures r == [] || (!IsStripSpace(r[0]) && !IsStripSpace(r[|r| - 1]))
  {
    var d := Downcase(email);
    DowncaseIsLowercase(email);
    Strip(d)
  }

  /** Normalising twice is normalising once. */
  lemma NormalizeEmailIdempotent(email: string)
    ensures NormalizeEmail(NormalizeEmail(email)) == NormalizeEmail(email)
  {
    var n := NormalizeEmail(email);
    DowncaseOfLowercase(n);
    StripIdempotent(Downcase(email));
  }

  /** For a well-formed email, normalising only changes letter case, and the
      stored email compares case-insensitively equal to the one submitted. */
  lemma NormalizeWellFormedEmail(email: string)
    requires EmailFormat(email)
    ensures NormalizeEmail(email) == Downcase(email)
    ensures Downcase(NormalizeEmail(email)) == Downcase(email)
  {
    EmailFormatHasNoSpace(email);
    var d := Downcase(email);
    if d != [] {
      DowncaseCharKeepsStripSpace(email[0]);
      DowncaseCharKeepsStripSpace(email[|email| - 1]);
    }
    TrimStartNoop(d);
    TrimEndNoop(d);
    DowncaseIdempotent(email);
  }

  /** The email a valid signup is stored with is already normalised and, like
      the submitted one, differs up to case from every stored email. */
  lemma StoredEmailFresh(users: seq<User>, email: string)
    requires EmailFormat(email) && !EmailTakenIn(users, email)
    ensures NormalizeEmail(NormalizeEmail(email)) == NormalizeEmail(email)
    ensures Downcase(NormalizeEmail(email)) !in EmailKeys(users)
  {
    NormalizeWellFormedEmail(email);
    NormalizeEmailIdempotent(email);
  }

  // ------------------------------------------------------------ validations

  /** The arguments `User.new(signup_params)` receives. A missing name or email
      behaves as the empty string in every validation, so they are plain strings. */
  datatype SignupParams = SignupParams(
    name: string, email: string, password: Option<string>, confirmation: Option<string>)

  /** An unsaved user: `password` is what `has_secure_password` keeps in memory
      (None for nil, or when the empty string was assigned), `digest` the hash it
      computed for it. */
  datatype Draft = Draft(
    name: string, email: string, password: Option<string>,
    confirmation: Option<string>, digest: Option<string>)

  /** `User.new(params)`, including the `password=` writer of `has_secure_password`:
      nil clears password and digest, the empty string is ignored, anything else
      is kept and hashed. */
  function NewDraft(p: SignupParams, bcrypt: Bcrypt): (d: Draft)
    ensures d.password.Some? <==> p.password.Some? && p.password.value != []
    ensures d.digest.Some? <==> d.password.Some?
    ensures d.password.Some? ==> d.password == p.password && d.digest == Some(bcrypt.create(p.password.value))
  {
    var pw := if p.password.Some? && p.password.value != [] then p.password else None;
    var digest := if pw.Some? then Some(bcrypt.create(pw.value)) else None;
    Draft(p.name, p.email, pw, p.confirmation, digest)
  }

  /** The validation errors a user can carry, one per failed check. */
  datatype UserError =
    | DigestMissing        // has_secure_password: no digest
    | PasswordTooLong      // has_secure_password: more than 72 bytes
    | ConfirmationMismatch // has_secure_password: confirmation given and different
    | EmailBlank | EmailTaken | EmailInvalid
    | NameBlank | NameTooShort | NameTooLong
    | PasswordBlank | PasswordTooShort

  const MinNameLength: nat := 2
  const MaxNameLength: nat := 100
  const MinPasswordLength: nat := 6
  const MaxPasswordBytes: nat := 72

  predicate DigestBlank(d: Draft) {
    d.digest.None? || Blank(d.digest.value)
  }

  predicate PasswordPresent(d: Draft) {
    d.password.Some? && Present(d.password.value)
  }

  /** The checks `has_secure_password` adds (ActiveModel 7.1 and later): a digest
      must exist, a present password may not exceed bcrypt's input limit, and a
      given confirmation must match any assigned password, blank or not
      (`validates_confirmation_of ..., allow_nil: true`). */
  function SecurePasswordErrors(d: Draft): seq<UserError> {
    (if DigestBlank(d) then [DigestMissing] else [])
    + (if PasswordPresent(d) && |d.password.value| > MaxPasswordBytes then [PasswordTooLong] else [])
    + (if d.password.Some? && d.confirmation.Some? && d.confirmation.value != d.password.value
       then [ConfirmationMismatch] else [])
  }

  /** The stored emails, each lowered: what `LOWER(email)` ranges over. */
  function EmailKeys(users: seq<User>): set<string> {
    set u | u in users :: Downcase(u.email)
  }

  /** Some stored user has this email up to case: the query `LOWER(email) = LOWER(?)`. */
  predicate EmailTakenIn(users: seq<User>, email: string) {
    Downcase(email) in EmailKeys(users)
  }

  /** Presence, case-insensitive uniqueness and format of the email. */
  function EmailErrors(users: seq<User>, email: string): (errs: seq<UserError>)
    ensures errs == [] <==> EmailFormat(email) && !EmailTakenIn(users, email)
  {
    assert EmailFormat(email) ==> Present(email) by {
      if EmailFormat(email) {
        EmailFormatHasNoSpace(email);
      }
    }
    (if Blank(email) then [EmailBlank] else [])
    + (if EmailTakenIn(users, email) then [EmailTaken] else [])
    + (if !EmailFormat(email) then [EmailInvalid] else [])
  }

  /** Presence and length of the name. */
  function NameErrors(name: string): (errs: seq<UserError>)
    ensures errs == [] <==> Present(name) && MinNameLength <= |name| <= MaxNameLength
  {
    (if Blank(name) then [NameBlank] else [])
    + (if |name| < MinNameLength then [NameTooShort] else [])
    + (if |name| > MaxNameLength then [NameTooLong] else [])
  }

  /** `password_required?` as written: `password_digest.blank? || password.present?`. */
  predicate PasswordRequiredAsWritten(d: Draft) {
    DigestBlank(d) || PasswordPresent(d)
  }

  /** `password_required?` as intended: no digest yet, or a new password was assigned. */
  predicate PasswordRequired(d: Draft) {
    DigestBlank(d) || d.password.Some?
  }

  /** Presence and minimum length of the password, checked only when required;
      a nil password has length 0. */
  function PasswordErrors(d: Draft, required: bool): (errs: seq<UserError>)
    ensures errs == [] <==> !required || (PasswordPresent(d) && |d.password.value| >= MinPasswordLength)
  {
    if !required then
      []
    else
      var length := if d.password.Some? then |d.password.value| else 0;
      (if !PasswordPresent(d) then [PasswordBlank] else [])
      + (if length < MinPasswordLength then [PasswordTooShort] else [])
  }

  /** Every validation of a user, in declaration order, with the given answer of `password_required?`. */
  function ValidationErrors(users: seq<User>, d: Draft, required: bool): seq<UserError> {
    SecurePasswordErrors(d) + EmailErrors(users, d.email) + NameErrors(d.name) + PasswordErrors(d, required)
  }

  /** The validations as the application states them. */
  function ErrorsAsWritten(users: seq<User>, d: Draft): seq<UserError> {
    ValidationErrors(users, d, PasswordRequiredAsWritten(d))
  }

  /** The validations with `password_required?` as intended. */
  function Errors(users: seq<User>, d: Draft): seq<UserError> {
    ValidationErrors(users, d, PasswordRequired(d))
  }

  /** With `password_required?` as written, a new user passes validation iff its
      email is well formed and not taken up to case, its name is present with 2
      to 100 characters, and it was given a non-empty password, matching its
      confirmation if one was given, that is either whitespace only (no length
      check runs) or of 6 to 72 characters. */
  lemma SignupValidIff(users: seq<User>, p: SignupParams, bcrypt: Bcrypt)
    requires p.password.Some? ==> Present(bcrypt.create(p.password.value))
    ensures ErrorsAsWritten(users, NewDraft(p, bcrypt)) == [] <==>
      && EmailFormat(p.email) && !EmailTakenIn(users, p.email)
      && Present(p.name) && MinNameLength <= |p.name| <= MaxNameLength
      && p.password.Some? && p.password.value != []
      && (p.confirmation.Some? ==> p.confirmation == p.password)
      && (Present(p.password.value) ==> MinPasswordLength <= |p.password.value| <= MaxPasswordBytes)
  {
  }

  /** With the intended rule, a new user passes validation iff, besides the
      email and name checks, it was given a non-blank password of 6 to 72
      characters, matching its confirmation if one was given. */
  lemma IntendedSignupValidIff(users: seq<User>, p: SignupParams, bcrypt: Bcrypt)
    requires p.password.Some? ==> Present(bcrypt.create(p.password.value))
    ensures Errors(users, NewDraft(p, bcrypt)) == [] <==>
      && EmailFormat(p.email) && !EmailTakenIn(users, p.email)
      && Present(p.name) && MinNameLength <= |p.name| <= MaxNameLength
      && p.password.Some? && Present(p.password.value)
      && MinPasswordLength <= |p.password.value| <= MaxPasswordBytes
      && (p.confirmation.Some? ==> p.confirmation == p.password)
  {
    var d := NewDraft(p, bcrypt);
    if p.password.Some? && p.password.value == [] {
      assert Blank(p.password.value);
    }
  }

  /** The intended rule is the stricter one: what it accepts, the rule as
      written accepts too, with the same (empty) list of errors. */
  lemma IntendedRuleStricter(users: seq<User>, d: Draft)
    requires Errors(users, d) == []
    ensures ErrorsAsWritten(users, d) == []
  {
    assert PasswordErrors(d, PasswordRequired(d)) == [];
    assert PasswordRequired(d) ==> PasswordPresent(d);
    assert PasswordRequiredAsWritten(d) == PasswordRequired(d);
  }

  lemma SampleDomainWellFormed()
    ensures IsDomain("x.com")
  {
    assert IndexOf("x.com", '.') == 1;
    assert "x.com"[..1] == "x" && "x.com"[2..] == "com";
    assert '.' !in "com";
    assert IsLabel("x") && IsLabel("com");
  }

  /** The sample address used below is well formed. */
  lemma SampleEmailWellFormed()
    ensures EmailFormat("ana@x.com")
  {
    assert IndexOf("ana@x.com", '@') == 3;
    assert "ana@x.com"[4..] == "x.com";
    assert forall i :: 0 <= i < 3 ==> IsLocalChar("ana@x.com"[i]);
    SampleDomainWellFormed();
  }

  /** What a draft that passed validation, under either password rule,
      guarantees about the row saved from it. */
  lemma ValidDraft(users: seq<User>, d: Draft)
    requires ErrorsAsWritten(users, d) == [] || Errors(users, d) == []
    ensures d.digest.Some? && Present(d.digest.value)
    ensures EmailFormat(d.email) && !EmailTakenIn(users, d.email)
    ensures Present(d.name) && MinNameLength <= |d.name| <= MaxNameLength
  {
    assert SecurePasswordErrors(d) == [] && EmailErrors(users, d.email) == [] && NameErrors(d.name) == [];
  }

  /** The password rule as written lets a whitespace-only password through:
      `has_secure_password` hashes it, so the digest is not blank, and it is not
      `present?`, so the presence and length checks are skipped. The intended
      rule rejects the same signup as blank. */
  lemma BlankPasswordAcceptedAsWritten(users: seq<User>, p: SignupParams, bcrypt: Bcrypt)
    requires EmailFormat(p.email) && !EmailTakenIn(users, p.email)
    requires Present(p.name) && MinNameLength <= |p.name| <= MaxNameLength
    requires p.password.Some? && p.password.value != [] && Blank(p.password.value)
    requires p.confirmation.None? || p.confirmation == p.password
    requires Present(bcrypt.create(p.password.value))
    ensures ErrorsAsWritten(users, NewDraft(p, bcrypt)) == []
    ensures PasswordBlank in Errors(users, NewDraft(p, bcrypt))
  {
    var d := NewDraft(p, bcrypt);
    assert !PasswordRequiredAsWritten(d);
    assert SecurePasswordErrors(d) == [];
    assert ErrorsAsWritten(users, d) == [] + [] + [] + [];
    assert PasswordErrors(d, true)[0] == PasswordBlank;
  }

  /** Any assigned password, whitespace only included, must match a
      confirmation that was given. */
  lemma MismatchedConfirmationRejected(users: seq<User>, p: SignupParams, bcrypt: Bcrypt)
    requires p.password.Some? && p.password.value != []
    requires p.confirmation.Some? && p.confirmation != p.password
    ensures ConfirmationMismatch in ErrorsAsWritten(users, NewDraft(p, bcrypt))
    ensures ConfirmationMismatch in Errors(users, NewDraft(p, bcrypt))
  {
    var d := NewDraft(p, bcrypt);
    assert ConfirmationMismatch in SecurePasswordErrors(d);
  }

  /** The signup of the concrete instance below. */
  const OneSpaceSignup: SignupParams := SignupParams("Ana", "ana@x.com", Some(" "), Some(" "))

  lemma OneSpaceSignupEmail()
    ensures EmailFormat(OneSpaceSignup.email) && !EmailTakenIn([], OneSpaceSignup.email)
  {
    SampleEmailWellFormed();
  }

  lemma OneSpaceSignupName()
    ensures Present(OneSpaceSignup.name) && MinNameLength <= |OneSpaceSignup.name| <= MaxNameLength
  {
    assert !IsBlankSpace(OneSpaceSignup.name[0]);
  }

  lemma OneSpaceSignupPassword()
    ensures OneSpaceSignup.password == Some(" ") && Blank(" ")
    ensures OneSpaceSignup.confirmation == OneSpaceSignup.password
  {
  }

  /** A concrete instance: name "Ana", email "ana@x.com", password and
      confirmation " ", on an empty table. */
  lemma OneSpacePasswordAcceptedAsWritten(bcrypt: Bcrypt)
    requires Present(bcrypt.create(" "))
    ensures ErrorsAsWritten([], NewDraft(OneSpaceSignup, bcrypt)) == []
    ensures Errors([], NewDraft(OneSpaceSignup, bcrypt)) != []
  {
    OneSpaceSignupEmail();
    OneSpaceSignupName();
    OneSpaceSignupPassword();
    BlankPasswordAcceptedAsWritten([], OneSpaceSignup, bcrypt);
  }

  /** With the intended rule, a user created from parameters always has a
      non-blank password of at least six characters. */
  lemma CreatedUserHasStrongPassword(users: seq<User>, p: SignupParams, bcrypt: Bcrypt)
    requires Errors(users, NewDraft(p, bcrypt)) == []
    ensures p.password.Some? && Present(p.password.value) && |p.password.value| >= MinPasswordLength
  {
    var d := NewDraft(p, bcrypt);
    assert PasswordRequired(d);
  }

  // --------------------------------------------------------------- lookups

  /** `User.find_by(id: id)`: the first row with that id. */
  function FindById(users: seq<User>, id: int): (r: Option<User>)
    ensures r.Some? ==> r.value in users && r.value.id == id
    ensures r.None? <==> forall u :: u in users ==> u.id != id
  {
    First(users, (u: User) => u.id, id)
  }

  /** `User.find_by("LOWER(email) = ?", email.downcase)`: the first row whose
      email equals the given one up to case. */
  function FindByEmail(users: seq<User>, email: string): (r: Option<User>)
    ensures r.Some? ==> r.value in users && Downcase(r.value.email) == Downcase(email)
    ensures r.None? <==> !EmailTakenIn(users, email)
  {
    if users == [] then None
    else if Downcase(users[0].email) == Downcase(email) then Some(users[0])
    else FindByEmail(users[1..], email)
  }

  // ---------------------------------------------------- role association

  /** `role_name`: `role&.name`. */
  function RoleName(role: Option<Roles.Role>): Option<string> {
    if role.Some? then Some(role.value.name) else None
  }

  /** The delegated `admin?`, `hr?`, `manager?`, `employee?` with `allow_nil: true`:
      nil when the user has no role. */
  function AdminQ(role: Option<Roles.Role>): Option<bool> {
    if role.Some? then Some(Roles.IsAdmin(role.value)) else None
  }

  function HrQ(role: Option<Roles.Role>): Option<bool> {
    if role.Some? then Some(Roles.IsHr(role.value)) else None
  }

  function ManagerQ(role: Option<Roles.Role>): Option<bool> {
    if role.Some? then Some(Roles.IsManager(role.value)) else None
  }

  function EmployeeQ(role: Option<Roles.Role>): Option<bool> {
    if role.Some? then Some(Roles.IsEmployee(role.value)) else None
  }

  /** Ruby truthiness of a delegated answer: nil and false are both false. */
  predicate Truthy(b: Option<bool>) {
    b == Some(true)
  }

  /** Without a role, `role_name` and every delegated predicate are nil; with one,
      they report its name. */
  lemma DelegationNilTolerant(role: Option<Roles.Role>)
    ensures RoleName(role).None? <==> role.None?
    ensures role.None? ==> AdminQ(role).None? && HrQ(role).None? && ManagerQ(role).None? && EmployeeQ(role).None?
    ensures role.Some? ==> RoleName(role) == Some(role.value.name)
    ensures role.Some? ==> Truthy(AdminQ(role)) == (role.value.name == Roles.Admin)
    ensures role.Some? ==> Truthy(HrQ(role)) == (role.value.name == Roles.Hr)
    ensures role.Some? ==> Truthy(ManagerQ(role)) == (role.value.name == Roles.Manager)
    ensures role.Some? ==> Truthy(EmployeeQ(role)) == (role.value.name == Roles.Employee)
  {
  }
}

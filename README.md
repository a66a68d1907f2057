# core_people_api: authentication and role authorization, in Dafny

This project models the authentication and authorization core of
`core_people_api`, a Rails JSON API for people and their roles. It covers
the following parts:

- **Users** (`Users`). Sign-up validations, email normalisation, the
  password rules of `has_secure_password`, lookups, and the role
  predicates a user forwards to its role.
- **Roles** (`Roles`). The four role names, the role validations, the
  name scopes and the name predicates.
- **Store** (`Store.Database`). The users and roles tables as one object
  whose methods update them. A user's save runs its validations, then
  `before_save :normalize_email`, then `after_create :assign_default_role`.
  A role's update runs the role validations. Destroying a user takes its
  dependent role with it.
- **Role policy** (`RolePolicy`). Who may list, see and change roles, and
  the scope a listing is narrowed to.
- **Tokens** (`JsonWebToken`). The token codec: an expiry claim, HS256
  signing and the expiry check (RFC 7519). Signing itself is abstract, as a
  pair of functions.
- **Authentication concern** (`Authenticable`). Bearer-token extraction,
  `set_current_user` and `authenticate_user!`, as a `Concern` object
  holding `current_user`.
- **Controllers** (`RolesController`, `AuthenticationController`). The
  actions `index`, `show`, `update`, `signup`, `login` and `me`. Each yields
  a status and a body (`Http`), in the order the before-actions, the policy
  and the strong parameters impose.

The main results are these:

- **Tokens.** A token issued at sign-up or log-in authenticates its user
  until it expires, and `me` then answers with that user. After expiry, or
  once the user is gone, the same token authenticates nobody.
- **Login.** After a sign-up the application accepts, logging in with the
  same email, in any ASCII case, and the same password succeeds whenever the
  password is present. A whitespace-only password also passes sign-up, and
  that user is then refused with 400 at log-in (see Findings). A failed login
  gives one answer whether the email or the password was wrong.
- **Invariants.** The tables keep ids distinct, emails unique up to case,
  exactly one valid role per user, and no role without its user. This holds
  across sign-up, role update and user destruction.
- **Policy and scope.** The policy and its scope agree: the scope keeps
  exactly the roles `show?` allows. The listing's summary counts exactly
  the rows listed.
- **Strong parameters.** They drop every attribute the actions do not
  permit.

Two consequences of the code's order of checks are worth stating:

- **404 before 403.** `set_role` runs before the policy. An ordinary user
  therefore gets 404 for a role id that does not exist and 403 for another
  user's role, so the answer does reveal whether a role exists
  (`RolesController.Show`, `RolesController.ShowOwnOnly`).
- **Blank means missing at login.** `login` requires both `email` and
  `password` to be `present?`, so it answers 400 when either is blank, not
  only when it is missing.

## Model

| member | source | states |
|---|---|---|
| Text.Fields | app/controllers/concerns/authenticable.rb:45 | `split(" ")` yields non-empty words without whitespace, and none at all exactly when the string is all whitespace |
| Text.LastOfFields | app/controllers/concerns/authenticable.rb:45 | the last word of `split(" ")` is the last maximal run of non-whitespace in the string |
| Text.StripIsTrimmedSlice | app/models/user.rb:41 | `strip` returns the slice between the first and last character that is neither whitespace nor NUL, and everything dropped was whitespace or NUL |
| Text.StripIdempotent | app/models/user.rb:41 | stripping twice is stripping once |
| Text.DowncaseIdempotent | app/models/user.rb:41 | lowering twice is lowering once |
| Text.DowncaseStrip | app/models/user.rb:41 | lowering commutes with stripping |
| JsonWebToken.DecodeAcceptsOnlyLive | app/services/json_web_token.rb:13-21 | `decode` yields a payload iff the signature verifies and the token has not expired, and then it is the verified payload |
| JsonWebToken.DecodeEncode | app/services/json_web_token.rb:5-21 | decoding an encoded payload gives it back with its "exp" claim while the clock is before the expiry, and nil from the expiry on |
| JsonWebToken.IssuedTokenCarriesId | app/services/json_web_token.rb:5-10 | within 24 hours of issue, a token issued for `user_id: id` decodes to a payload whose "user_id" claim is `id` |
| Roles.ExactlyOneKind | app/models/role.rb:24-38 | a role with a valid name satisfies exactly one of `admin?`, `hr?`, `manager?`, `employee?`; any other name satisfies none |
| Roles.Where | app/models/role.rb:18-21 | `where` keeps exactly the rows satisfying the condition, each as many times as before |
| Roles.WhereConcat | app/models/role.rb:18-21 | filtering two consecutive parts of a relation gives the two filtered parts in the same order, so `where` never reorders rows |
| Roles.WhereSingleton | app/models/role.rb:18-21 | a single row is kept iff it satisfies the condition |
| Roles.NameScopesExact | app/models/role.rb:18-21 | each name scope holds exactly the rows with that name |
| Roles.ScopeCountsSum | app/models/role.rb:18-21 | over valid names, the four scopes' sizes add up to the number of rows |
| Roles.NameErrors | app/models/role.rb:14 | a role name passes presence and inclusion iff it is one of `VALID_ROLES` |
| Roles.ValidateIff | app/models/role.rb:3-15 | a role is valid iff its user exists, its name is valid and no other row has its `user_id` |
| Roles.SecondRoleRejected | app/models/role.rb:15 | a second role for a user who already has one fails the `user_id` uniqueness validation |
| Roles.InsertKeepsOneRolePerUser | app/models/role.rb:15 | inserting a role that passed validation keeps at most one role per user |
| Users.EmailFormatHasNoSpace | app/models/user.rb:13-19 | an email of the `URI::MailTo::EMAIL_REGEXP` shape holds no whitespace or NUL and is present |
| Users.NormalizeEmail | app/models/user.rb:40-42 | the normalised email has no upper-case ASCII letter and begins and ends with neither whitespace nor NUL |
| Users.NormalizeEmailIdempotent | app/models/user.rb:40-42 | normalising an already normalised email changes nothing |
| Users.NormalizeWellFormedEmail | app/models/user.rb:40-42 | for a well-formed email, normalising only lowers it, and its lowered form is unchanged |
| Users.StoredEmailFresh | app/models/user.rb:13-15 | an email that passed uniqueness is, once normalised, still unequal up to case to every stored email |
| Users.NewDraft | app/models/user.rb:3 | the `password=` writer ignores "", keeps and hashes any other password, and leaves no digest without a password |
| Users.EmailErrors | app/models/user.rb:13-19 | the email validations pass iff the email is well formed and not taken up to case |
| Users.NameErrors | app/models/user.rb:21-23 | the name validations pass iff the name is present with 2 to 100 characters |
| Users.PasswordErrors | app/models/user.rb:25-28 | when required, the password validations pass iff the password is present with at least 6 characters |
| Users.SignupValidIff | app/models/user.rb:3-47 | with `password_required?` as written, a sign-up is valid iff the email is well formed and untaken, the name is valid, and the password is non-empty, matches any confirmation given, and is either whitespace only or of 6 to 72 characters |
| Users.IntendedSignupValidIff | app/models/user.rb:3-28 | with the intended rule, a sign-up is valid iff the email is well formed and untaken, the name is valid, and the password is present with 6 to 72 characters and matches any confirmation given |
| Users.IntendedRuleStricter | app/models/user.rb:45-47 | every draft the intended rule accepts is accepted as written too |
| Users.ValidDraft | app/models/user.rb:12-28 | a user that passed validation, under either password rule, has a digest, a well-formed untaken email and a valid name |
| Users.MismatchedConfirmationRejected | app/models/user.rb:3 | a confirmation that was given and differs from the assigned password, even a whitespace-only one, is rejected under either password rule |
| Users.BlankPasswordAcceptedAsWritten | app/models/user.rb:45-47 | with `password_required?` as written, a whitespace-only password passes every validation; with the intended rule it is rejected as blank |
| Users.OneSpacePasswordAcceptedAsWritten | app/models/user.rb:45-47 | the sign-up ("Ana", "ana@x.com", " ", " ") passes as written and fails with the intended rule |
| Users.CreatedUserHasStrongPassword | app/models/user.rb:25-28 | with the intended rule, every user that passes validation was given a present password of at least 6 characters |
| Wrappers.First | app/controllers/concerns/authenticable.rb:32 | a single-column `find_by` yields a row of the table with that key, and nil iff no row has it |
| Users.FindById | app/controllers/concerns/authenticable.rb:32 | `find_by(id:)` yields a stored user with that id, and nil iff no user has it |
| Users.FindByEmail | app/controllers/api/v1/authentication_controller.rb:37 | the case-insensitive lookup yields a stored user whose lowered email is the lowered query, and nil iff the email is not taken |
| Users.DelegationNilTolerant | app/models/user.rb:31-35 | without a role, `role_name` and the delegated predicates are nil; with one, they report its name |
| Store.RoleOf | app/models/user.rb:6 | `user.role` yields a row owned by the user, and nil iff the user owns none |
| Store.FindRole | app/controllers/api/v1/roles_controller.rb:49 | `Role.find` yields the row with that id, and nothing iff no row has it |
| Store.RolesMatchUsers | app/models/user.rb:50-52 | in consistent tables there are exactly as many roles as users |
| Store.DefaultRoleCompletes | app/models/user.rb:50-52 | the default "employee" role passes the role validations and completes the tables |
| Store.WithoutUser | app/models/user.rb:6 | deleting a user keeps exactly the other rows |
| Store.WithoutRoleOf | app/models/user.rb:6 | destroying the dependent role keeps exactly the roles of other users |
| Store.DestroyKeepsConsistent | app/models/user.rb:6 | removing a user and its role keeps the tables consistent; the user's id leaves both the users and the owners |
| Store.Database.AssignDefaultRole | app/models/user.rb:50-52 | a user without a role gets one "employee" role under the next id; a user with one keeps it; the tables become consistent |
| Store.Database.Insert | app/models/user.rb:9-10 | the user is stored under the next id with its email normalised, then receives the default role |
| Store.Database.Save | app/models/user.rb:3-47 | with the validations as written, a draft with errors is refused with exactly those errors and nothing written; otherwise one user with a normalised email and one "employee" role are appended |
| Store.Database.UpdateRole | app/controllers/api/v1/roles_controller.rb:32 | `update` assigns the name, reports the role's validation errors, and writes the row iff the new name is valid |
| Store.Database.DestroyUser | app/models/user.rb:6 | destroying a user removes it and its role and nothing else; the tables stay consistent and one row shorter each |
| RolePolicy.AdminOrHrIff | app/policies/role_policy.rb:21-23 | `admin_or_hr?` holds iff the user's role is "admin" or "hr" |
| RolePolicy.NoRoleIsOrdinary | app/policies/role_policy.rb:5-23 | a user without a role is neither admin nor HR, may not list or change roles, and sees only its own |
| RolePolicy.ShowIff | app/policies/role_policy.rb:5-7 | `show?` holds iff the user is admin or HR or owns the role |
| RolePolicy.UpdateIff | app/policies/role_policy.rb:10-12 | `update?` holds iff the user's role is "admin", whatever the record |
| RolePolicy.UpdateImpliesIndexAndShow | app/policies/role_policy.rb:5-17 | whoever may update a role may also list roles and see it |
| RolePolicy.OrdinaryRolesRestricted | app/policies/role_policy.rb:5-17 | managers and employees may neither list nor change roles, and see exactly their own |
| RolePolicy.ResolveIsShowFilter | app/policies/role_policy.rb:29-33 | the scope keeps exactly the rows `show?` allows, and all rows for admin or HR |
| RolePolicy.ResolveOwnRole | app/policies/role_policy.rb:29-33 | with one role per user, an ordinary user's scope is its own role or nothing |
| RolePolicy.IndexSeesAll | app/policies/role_policy.rb:29-33 | whoever passes `index?` gets every row from the scope |
| Authenticable.ExtractToken | app/controllers/concerns/authenticable.rb:41-46 | a token is found iff the header starts with "Bearer "; it is then non-empty, free of whitespace, and the header's last word |
| Authenticable.BearerTokenExtracted | app/controllers/concerns/authenticable.rb:41-46 | "Bearer " followed by a whitespace-free token yields that token |
| Authenticable.UserForToken | app/controllers/concerns/authenticable.rb:27-37 | a token yields a user iff it decodes, carries an integer "user_id" claim and that user exists; the user is then the stored one whose id is that claim |
| Authenticable.IssuedTokenAuthenticates | app/controllers/concerns/authenticable.rb:23-38 | a live token issued for a stored user is extracted from its header and yields that user |
| Authenticable.ExpiredTokenRejected | app/controllers/concerns/authenticable.rb:27-37 | from its expiry on, an issued token yields nobody |
| Authenticable.TokenOfMissingUserRejected | app/controllers/concerns/authenticable.rb:32 | a token for a user who no longer exists yields nobody |
| Authenticable.Concern.SetCurrentUser | app/controllers/concerns/authenticable.rb:23-38 | without a token `current_user` is left as it was; with one it becomes the user the token yields, or nil |
| Authenticable.Concern.AuthenticateUser | app/controllers/concerns/authenticable.rb:13-18 | the action is halted with 401 "Token inválido ou expirado" iff there is no current user |
| Authenticable.CurrentUser | app/controllers/concerns/authenticable.rb:23-38 | a request without a bearer token has no user; with one, its user is the one the token yields: a stored user whose id is the token's "user_id" claim |
| Authenticable.LoggedInRequest | app/controllers/concerns/authenticable.rb:23-46 | a request bearing a live token issued for a stored user is authenticated as that user |
| Authenticable.AuthenticateRequest | app/controllers/concerns/authenticable.rb:4-18 | a request runs `set_current_user`, then `authenticate_user!`, and is refused with 401 iff its header names nobody |
| RolesController.SoundTablesOwnersExist | app/controllers/api/v1/roles_controller.rb:65-66 | in sound tables every role's user exists, so `role.user` is never nil |
| RolesController.RoleResponse | app/controllers/api/v1/roles_controller.rb:60-70 | the view carries the role's id, name and owner, and the name and email of a stored user with that id |
| RolesController.RoleResponses | app/controllers/api/v1/roles_controller.rb:14 | one view per listed role, in order, each carrying that role's id, name and owner id and its stored owner's name and email |
| RolesController.SummaryAddsUp | app/controllers/api/v1/roles_controller.rb:74-82 | the per-name counts of the summary add up to its total, and none exceeds it |
| RolesController.Index | app/controllers/api/v1/roles_controller.rb:8-17 | `index` gives 401 without a user, 403 unless `index?`, and 200 iff the user may list |
| RolesController.IndexListsAllRoles | app/controllers/api/v1/roles_controller.rb:8-17 | admin and HR get every role, and a summary whose total and per-name counts describe exactly those rows |
| RolesController.IndexRefusesOrdinaryUsers | app/controllers/api/v1/roles_controller.rb:8-9 | managers, employees and users without a role get 403 from `index` |
| RolesController.Show | app/controllers/api/v1/roles_controller.rb:20-26 | `show` gives 401 without a user, 404 "Role não encontrado" for an unknown id, 403 when `show?` fails, and 200 iff the role exists and `show?` holds, with that role's view as the body |
| RolesController.ShowOwnOnly | app/controllers/api/v1/roles_controller.rb:20-26 | every user sees its own role; an ordinary user gets 403 for another user's role |
| RolesController.RoleParams | app/controllers/api/v1/roles_controller.rb:54-56 | `require(:role)` fails iff the parameter is missing or empty; `permit(:name)` keeps the name iff one was sent |
| RolesController.OnlyNamePermitted | app/controllers/api/v1/roles_controller.rb:54-56 | adding any attribute other than `name` to the `role` parameter changes nothing |
| RolesController.Update | app/controllers/api/v1/roles_controller.rb:29-42 | `update` gives 401, then 404, then 403 (non-admin), then 400 (no `role`), then 422 with the updated row's validation errors when the new name is invalid; it gives 200 iff an admin sets a valid name, and only then is the role rewritten |
| AuthenticationController.UserResponse | app/controllers/api/v1/authentication_controller.rb:68-76 | the view shows id, name and email, and the digest is not part of it |
| AuthenticationController.SignupParamsOf | app/controllers/api/v1/authentication_controller.rb:63-65 | `require(:user)` fails iff the parameter is missing or empty; the four permitted attributes are taken as sent |
| AuthenticationController.OnlySignupKeysPermitted | app/controllers/api/v1/authentication_controller.rb:63-65 | adding any attribute outside the four permitted ones to the `user` parameter changes nothing |
| AuthenticationController.Signup | app/controllers/api/v1/authentication_controller.rb:9-27 | `signup` gives 400 without `user`; 422 with the validation errors, as written, and nothing written; or 201 with a token for the new id and the stored user, exactly that user and one "employee" role for it appended, both ids advanced by one, and the tables consistent |
| AuthenticationController.Login | app/controllers/api/v1/authentication_controller.rb:29-52 | `login` gives 400 unless both fields are present, 200 iff the email is known up to case and the password matches, with a token for, and the view of, exactly the user the lookup found, and, whenever both fields are present and log-in fails, 401 "Email ou senha inválidos" |
| AuthenticationController.LoginFailuresIndistinguishable | app/controllers/api/v1/authentication_controller.rb:37-51 | an unknown email and a wrong password get the identical 401 response |
| AuthenticationController.FindByEmailIgnoresCase | app/controllers/api/v1/authentication_controller.rb:37 | emails that differ only in ASCII case find the same user |
| AuthenticationController.LoginIgnoresEmailCase | app/controllers/api/v1/authentication_controller.rb:36-37 | log-in answers the same for emails that differ only in ASCII case |
| AuthenticationController.FindByEmailAppended | app/controllers/api/v1/authentication_controller.rb:37 | after appending a user with an untaken email, looking that email up finds the new user |
| AuthenticationController.SignupThenLogin | app/controllers/api/v1/authentication_controller.rb:9-52 | after a sign-up the code accepts, log-in with the same email (in any case) and password succeeds with a token for the new user when the password is present, and gives 400 when it is whitespace only |
| AuthenticationController.IntendedSignupThenLogin | app/controllers/api/v1/authentication_controller.rb:9-52 | with the intended password rule, log-in after a successful sign-up always succeeds with a token for the new user |
| AuthenticationController.Me | app/controllers/api/v1/authentication_controller.rb:55-59 | `me` gives 200 iff there is a current user, and 401 otherwise |
| AuthenticationController.MeWithIssuedToken | app/controllers/api/v1/authentication_controller.rb:55-59 | `me` with a live token issued for a stored user answers with that user |
| AuthenticationController.LoginThenMe | app/controllers/api/v1/authentication_controller.rb:29-59 | the token a successful log-in returns makes `me` show the user log-in returned, until it expires |

## Left out

- HS256 itself is not modelled: no HMAC, no base64url and no header checks. A `Signer` is a pair of abstract functions. The round-trip lemmas require that it verifies what it signed and that it produces whitespace-free tokens.
- bcrypt is abstract (a `Bcrypt` pair of functions), so salts, cost and constant-time comparison are not modelled.
- The server secret and the clock are parameters (`Signer`, `now`).
- JSON rendering, `created_at`/`updated_at` and the text of `errors.full_messages` are not modelled. Errors are kept as error kinds.
- Parameters are modelled as maps from strings to strings. Non-string JSON values and nested values are not modelled. Neither is a scalar `role` or `user` parameter: `permit` on a string raises, which gives 500.
- A "user_id" claim that is a string is not cast to an integer as ActiveRecord would. Such a token authenticates nobody in the model.
- Route ids are integers; a non-numeric id, which Rails also answers with 404, is not modelled.
- Text.Downcase: lowers ASCII letters only. Ruby's `String#downcase` and SQL `LOWER` also fold non-ASCII letters.
- Users.SecurePasswordErrors: counts characters, not UTF-8 bytes, against bcrypt's 72 limit. It follows `has_secure_password` as in ActiveModel 7.1 and later, the version the application's Rails 8.0 migrations imply: a given confirmation is checked against any assigned password, blank included.
- Store.Database.Valid: does not include "stored emails are normalised". That fact is stated on each `Save` instead, and idempotence is a lemma.
- Store.Database.DestroyUser: requires the user to exist, as `destroy` is called on a loaded record. No endpoint of the core calls it.
- Store.Database.UpdateRole: runs the `belongs_to :user` check as passing. Under the tables' invariant the owner always exists.
- Races between concurrent requests are not modelled. Neither is the database's unique index acting where the uniqueness validation lost a race.
- Logging in `set_current_user`, the health endpoint, routing and the Bullet initializer are not modelled.
- The defaults of `ApplicationPolicy` are not part of this model.

## Findings

| source | as written | input that shows it | evidently intended | confidence | as-written member | corrected member |
|---|---|---|---|---|---|---|
| app/models/user.rb:45-47 | `password_required?` is `password_digest.blank? \|\| password.present?`. A whitespace-only password is hashed, so the digest is not blank; the password is not `present?`, so the presence and minimum-length validations are skipped and the user is created | sign-up with name "Ana", email "ana@x.com", password " " and confirmation " " | a newly assigned password is always validated (`password_digest.blank? \|\| !password.nil?`), so a blank one is rejected | not executed | Users.OneSpacePasswordAcceptedAsWritten | Users.CreatedUserHasStrongPassword |

The store and the controllers follow `password_required?` as written
(`Users.ErrorsAsWritten`). The intended rule is `Users.Errors`.
`Users.IntendedSignupValidIff`, `Users.IntendedRuleStricter` and
`AuthenticationController.IntendedSignupThenLogin` state what sign-up and
log-in would then guarantee.

/** What an action renders: a status and a JSON body, with the messages the API
    answers with. Timestamps (`created_at`, `updated_at`) are not modelled. */
module Http {
  import Users
  import Roles

  /** The statuses the core renders: 200, 201, 400, 401, 403, 404 and 422. */
  datatype Status = Ok | Created | BadRequest | Unauthorized | Forbidden | NotFound | UnprocessableEntity

  const InvalidTokenMessage: string := "Token inválido ou expirado"
  const NotAuthorizedMessage: string := "Você não tem permissão para realizar esta ação"
  const RoleNotFoundMessage: string := "Role não encontrado"
  const RoleUpdatedMessage: string := "Role atualizado com sucesso"
  const CredentialsRequiredMessage: string := "Email e senha são obrigatórios"
  const InvalidCredentialsMessage: string := "Email ou senha inválidos"

  /** `user_response`: what the API shows of a user; never the password digest. */
  datatype UserView = UserView(id: int, name: string, email: string)

  /** `role_response`: a role with its owner's name and email. */
  datatype RoleView = RoleView(id: int, name: string, userId: int, userName: string, userEmail: string)

  /** `roles_summary`: how many roles the listing holds, in total and per name. */
  datatype Summary = Summary(total: nat, admins: nat, hrs: nat, managers: nat, employees: nat)

  /** The JSON bodies of the core's responses. */
  datatype Body =
    | ErrorBody(error: string)                             // { error: message }
    | UserErrorsBody(userErrors: seq<Users.UserError>)      // { errors: user.errors.full_messages }
    | RoleErrorsBody(roleErrors: seq<Roles.RoleError>)      // { errors: role.errors.full_messages }
    | ParameterMissingBody(param: string)                  // the framework's answer to a missing parameter
    | AuthBody(token: string, user: UserView)              // { token:, user: }
    | UserBody(user: UserView)                             // { user: }
    | RoleBody(role: RoleView)                             // { role: }
    | RoleUpdatedBody(role: RoleView, message: string)     // { role:, message: }
    | RoleListBody(roles: seq<RoleView>, summary: Summary) // { roles:, summary: }

  datatype Response = Response(status: Status, body: Body)

  /** What `authenticate_user!` renders when nobody is logged in. */
  const UnauthorizedResponse: Response := Response(Unauthorized, ErrorBody(InvalidTokenMessage))

  /** What `user_not_authorized` renders when a policy refuses (Pundit::NotAuthorizedError). */
  const ForbiddenResponse: Response := Response(Forbidden, ErrorBody(NotAuthorizedMessage))

  /** `params.require(name)` raising ActionController::ParameterMissing. */
  function MissingParameter(name: string): (r: Response)
    ensures r.status == BadRequest && r.body.ParameterMissingBody?
  {
    Response(BadRequest, ParameterMissingBody(name))
  }
}

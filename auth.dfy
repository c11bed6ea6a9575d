/** The auth service (src/auth/auth.service.ts): turning an identity-provider
    profile into a stored user, and pairing a user with a signed access token.
    Token signing is a parameter of `Login`. */
module Auth {
  import opened Wrappers
  import opened UserModel
  import opened Users

  /** What `login` returns. */
  datatype LoginResult = LoginResult(accessToken: string, user: UserProfile)

  /** The role a login carries: an explicit role wins and the groups are not
      consulted; otherwise the role is resolved from the groups, failing as that does. */
  function ChooseRole(roles: seq<RoleRow>, profile: OAuthProfile): (r: Result<Role, ServiceError>)
    ensures profile.role.Some? ==> r == Ok(profile.role.value)
    ensures profile.role.None? ==> r == GetRoleFromGroups(roles, profile.groups)
    ensures r.Err? ==> profile.role.None? && r.error == DefaultRoleMissing
  {
    if profile.role.Some? then Ok(profile.role.value) else GetRoleFromGroups(roles, profile.groups)
  }

  /** The record handed to the upsert: the profile's id, email and names verbatim,
      with the chosen role. */
  function UpsertData(profile: OAuthProfile, role: Role): (d: UserProfileData)
    ensures d.id == profile.id && d.email == profile.email
    ensures d.firstName == profile.firstName && d.lastName == profile.lastName
    ensures d.role == role
  {
    UserProfileData(profile.id, profile.email, profile.firstName, profile.lastName, role)
  }

  /** The access token is the signature of the very user it is returned with. */
  function Login(sign: UserProfile -> string, user: UserProfile): (r: LoginResult)
    ensures r.user == user && r.accessToken == sign(user)
  {
    LoginResult(sign(user), user)
  }

  class AuthService {
    const usersService: UsersService

    constructor (usersService: UsersService)
      ensures this.usersService == usersService
    {
      this.usersService := usersService;
    }

    /** Chooses the role for `profile` and upserts the user under `profile.id`;
        the result is what the upsert returns. */
    method ValidateOAuthUser(profile: OAuthProfile) returns (r: Result<UserProfile, ServiceError>)
      requires usersService.Valid()
      modifies usersService
      ensures usersService.Valid()
      ensures ChooseRole(usersService.roles, profile).Err? ==>
                r == Err(DefaultRoleMissing) && usersService.users == old(usersService.users)
      ensures ChooseRole(usersService.roles, profile).Ok? ==>
                var data := UpsertData(profile, ChooseRole(usersService.roles, profile).value);
                var email := StoredEmail(old(usersService.users), profile.id, profile.email);
                && (RoleById(usersService.roles, data.role.id).None? ==>
                      r == Err(UnknownRole(data.role.id)) && usersService.users == old(usersService.users))
                && (RoleById(usersService.roles, data.role.id).Some? && EmailHeldByOther(old(usersService.users), profile.id, email) ==>
                      r == Err(EmailTaken(email)) && usersService.users == old(usersService.users))
                && (RoleById(usersService.roles, data.role.id).Some? && !EmailHeldByOther(old(usersService.users), profile.id, email) ==>
                      && usersService.users == old(usersService.users)[profile.id := Upserted(old(usersService.users), profile.id, data)]
                      && r == Ok(usersService.ProfileOf(profile.id)))
      ensures r.Ok? ==> profile.id in usersService.users && r.value.id == profile.id
      ensures profile.role.None? ==>
                (r.Ok? <==> && GetRoleFromGroups(usersService.roles, profile.groups).Ok?
                            && !EmailHeldByOther(old(usersService.users), profile.id,
                                                 StoredEmail(old(usersService.users), profile.id, profile.email)))
    {
      var role := ChooseRole(usersService.roles, profile);
      if role.Err? {
        return Err(role.error);
      }
      if profile.role.None? {
        ResolvedRoleExists(usersService.roles, profile.groups);
      }
      r := usersService.CreateOrUpdateUser(profile.id, UpsertData(profile, role.value));
    }
  }
}

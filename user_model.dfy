/** The records of src/users/user.model.ts that the services exchange. */
module UserModel {
  import opened Wrappers

  /** A role as handed to callers: only its id and name. */
  datatype Role = Role(id: string, name: string)

  /** The canonical user profile returned by the users service. */
  datatype UserProfile = UserProfile(id: string, email: string, firstName: string, lastName: string, role: Role)

  /** A profile as it reaches `createOrUpdateUser` at run time: the text fields
      may be missing (`undefined`), which the upsert treats specially. */
  datatype UserProfileData = UserProfileData(
    id: string,
    email: Option<string>,
    firstName: Option<string>,
    lastName: Option<string>,
    role: Role)

  /** `UserProfileWithPotentiallyOAuthGroups`: a profile whose role may be
      absent and which may carry the identity provider's group claims. */
  datatype OAuthProfile = OAuthProfile(
    id: string,
    email: Option<string>,
    firstName: Option<string>,
    lastName: Option<string>,
    role: Option<Role>,
    groups: Option<seq<string>>)
}

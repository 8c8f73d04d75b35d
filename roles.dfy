/**
 * Role names shared by the ACL editor and the navigation, and the signed-in
 * user as the frontend sees it.
 *
 * The values of ADMIN and USER_ADMIN come from the frontend's role constants,
 * which are not part of this model; only their distinctness matters here.
 * ANONYMOUS and USER are the keys of the built-in group table.
 */
module Roles {
  type Role = string

  const ANONYMOUS: Role := "ROLE_ANONYMOUS"
  const USER: Role := "ROLE_USER"
  const ADMIN: Role := "ROLE_ADMIN"
  const USER_ADMIN: Role := "ROLE_USER_ADMIN"

  /** The signed-in user's data (only the fields the modelled code reads). */
  datatype User = User(
    username: string,
    roles: seq<Role>,
    canUpload: bool,
    canUseStudio: bool,
    canCreateUserRealm: bool)

  /** Nobody is signed in, the user data is still unknown, or a real user. */
  datatype UserState = NoUser | UnknownUser | RealUser(user: User)
}

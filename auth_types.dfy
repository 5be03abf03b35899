/** Users and profiles as the admin pages see them (`AuthUser`, `ProfileT`,
    `UserClassroomT`, `AuthUserWithProfileT`). */
module AuthTypes {
  import opened Wrappers

  /** A user–classroom link row of the backend. */
  datatype UserClassroomRow = UserClassroomRow(userId: string, classroomId: string)

  /** An entry of `profile.classrooms`: declared as a link row, but the
      insert handler stores bare classroom ids there, so both forms occur. */
  datatype Link = LinkRow(row: UserClassroomRow) | LinkId(id: string)

  /** A profile; every field may be missing (the `{}` stand-in for a missing
      profile has none). */
  datatype Profile = Profile(id: Option<string>, email: Option<string>, fullName: Option<string>,
                             classrooms: Option<seq<Link>>)

  const EmptyProfile := Profile(None, None, None, None)

  /** An authentication user: its id and creation time (an ISO timestamp
      string) are always present. */
  datatype AuthUser = AuthUser(id: string, email: Option<string>, createdAt: string)

  datatype UserWithProfile = UserWithProfile(user: AuthUser, profile: Profile)
}

/**
 * Users: the stored row, the public response body that leaves the password
 * hash out, the entity the service hands to the repository, the search
 * criteria, the create body, and the exceptions of the user path.
 */
module UserDto {
  import opened Wrappers

  /** A stored user row. */
  datatype UserModel = UserModel(id: int, username: string, email: string, hashedPassword: string)

  /** The response body: id, username and email, never the password hash. */
  datatype UserDTO = UserDTO(id: int, username: string, email: string)

  /** The domain entity handed to the repository; its id is `None` until the row is stored. */
  datatype User = User(id: Option<int>, username: string, email: string, hashedPassword: string)

  /** Search criteria: each field is a criterion when it is not `None`. */
  datatype UserFindDTO = UserFindDTO(id: Option<int>, username: Option<string>, email: Option<string>)

  /** The body from which the service creates a user. */
  datatype UserCreate = UserCreate(username: string, email: string, password: string)

  /** The exceptions raised on the user path. */
  datatype UserError =
    | UserAlreadyExists   // the username or the email is taken
    | UserNotFound        // no user matches, or (on login) the password is wrong
    | NoCriteria          // the `ValueError` of a search without any criterion
    | PaginationError     // a negative limit or offset

  /** The public projection of a stored row: everything but the password hash. */
  function ToDto(u: UserModel): (d: UserDTO)
    ensures d.id == u.id && d.username == u.username && d.email == u.email
  {
    UserDTO(u.id, u.username, u.email)
  }

  /** What a search returns: the public projection, or the full row when asked for. */
  datatype Found = FoundDto(dto: UserDTO) | FoundModel(model: UserModel) {
    function Id(): int {
      if FoundDto? then dto.id else model.id
    }
  }
}

/**
 * The user service: hashes the password before anything is stored, guards
 * pagination, and hands searches to the repository.
 */
module UserSvc {
  import opened Wrappers
  import opened UserDto
  import opened UserRepo
  import opened Security

  class UserService {
    const repo: UserRepository

    constructor (repo: UserRepository)
      ensures this.repo == repo
    {
      this.repo := repo;
    }

    /**
     * `create_user`: the repository receives a new entity (no id) whose
     * password field is the hash of the given password, never the password.
     */
    method CreateUser(dto: UserCreate, hasher: PasswordHasher) returns (r: Result<UserDTO, UserError>)
      requires repo.Valid()
      modifies repo
      ensures repo.Valid()
      ensures r.Failure? <==> Taken(old(repo.rows), dto.username, dto.email)
      ensures r.Failure? ==> r.error == UserAlreadyExists && repo.rows == old(repo.rows) && repo.nextId == old(repo.nextId)
      ensures r.Success? ==> r.value == UserDTO(old(repo.nextId), dto.username, dto.email) && r.value.id !in old(repo.rows)
      ensures r.Success? ==>
        repo.rows == old(repo.rows)[r.value.id := UserModel(r.value.id, dto.username, dto.email, hasher.hash(dto.password))]
      ensures r.Success? ==> repo.nextId == old(repo.nextId) + 1
    {
      var hashedPassword := hasher.hash(dto.password);
      var entity := User(None, dto.username, dto.email, hashedPassword);
      r := repo.Create(entity);
    }

    /**
     * `get_all_users`: a negative limit or offset raises `PaginationError`;
     * otherwise the result is the repository's page, which is given here as
     * the function `getList`.
     */
    function GetAllUsers(limit: int, offset: int, getList: (nat, nat) -> seq<UserDTO>): (r: Result<seq<UserDTO>, UserError>)
      ensures r.Failure? <==> limit < 0 || offset < 0
      ensures r.Failure? ==> r.error == PaginationError
      ensures r.Success? ==> r.value == getList(limit, offset)
    {
      if limit < 0 || offset < 0 then Failure(PaginationError)
      else Success(getList(limit, offset))
    }

    /** `find_user`: the repository's search, answered with the public projection. */
    function FindUser(dto: UserFindDTO): (r: Result<UserDTO, UserError>)
      reads repo
      requires repo.Valid()
      ensures r.Failure? <==> repo.Find(dto, false).Failure?
      ensures r.Failure? ==> r.error == repo.Find(dto, false).error
      ensures r.Success? ==>
        r.value.id in repo.rows && MatchesAll(repo.rows[r.value.id], dto) && r.value == ToDto(repo.rows[r.value.id])
    {
      var found := repo.Find(dto, false);
      if found.Failure? then Failure(found.error) else Success(found.value.dto)
    }
  }
}

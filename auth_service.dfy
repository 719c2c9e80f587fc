/**
 * Registration and login. Registration creates the user and signs that user
 * in at once; login finds the user by username, checks the password against
 * the stored hash and issues the same token pair. An unknown username and a
 * wrong password fail alike.
 */
module AuthSvc {
  import opened Wrappers
  import opened Security
  import opened UserDto
  import opened UserRepo
  import opened UserSvc
  import opened AuthDto
  import opened CurrentUser

  /** The stored user `id` has the login's username and the password matches its hash. */
  predicate Authenticates(rows: map<int, UserModel>, dto: LoginDTO, hasher: PasswordHasher, id: int) {
    id in rows && rows[id].username == dto.username && hasher.verify(dto.password, rows[id].hashedPassword)
  }

  /** How login fails in the code as written: a raised user error, or reading a missing attribute. */
  datatype LoginFailure = Raised(error: UserError) | AttributeError(name: string)

  class AuthService {
    const userService: UserService

    constructor (userService: UserService)
      ensures this.userService == userService
    {
      this.userService := userService;
    }

    /**
     * `register`: create the user, then issue both tokens for its new id.
     * A taken username or email propagates `UserAlreadyExists` and no token
     * is issued.
     */
    method Register(dto: RegistrationDTO, hasher: PasswordHasher, codec: TokenCodec) returns (r: Result<TokenDTO, UserError>)
      requires userService.repo.Valid()
      modifies userService.repo
      ensures userService.repo.Valid()
      ensures r.Failure? <==> Taken(old(userService.repo.rows), dto.username, dto.email)
      ensures r.Failure? ==>
        r.error == UserAlreadyExists && userService.repo.rows == old(userService.repo.rows)
      ensures r.Success? ==>
        var id := old(userService.repo.nextId);
        && id !in old(userService.repo.rows)
        && userService.repo.rows == old(userService.repo.rows)[id := UserModel(id, dto.username, dto.email, hasher.hash(dto.password))]
        && r.value == IssueTokens(codec, id)
    {
      var created := userService.CreateUser(UserCreate(dto.username, dto.email, dto.password), hasher);
      if created.Failure? {
        return Failure(created.error);
      }
      r := Success(IssueTokens(codec, created.value.id));
    }

    /**
     * `login`, reading the stored hash from the full row that the search
     * returns when asked for the model. It changes nothing; it fails with
     * `UserNotFound` exactly when no stored user has that username and that
     * password, and otherwise issues the tokens of that user.
     */
    function Login(dto: LoginDTO, hasher: PasswordHasher, codec: TokenCodec): (r: Result<TokenDTO, UserError>)
      reads userService.repo
      requires userService.repo.Valid()
      ensures r.Failure? ==> r.error == UserNotFound
      ensures r.Success? <==> exists id :: Authenticates(userService.repo.rows, dto, hasher, id)
      ensures forall id :: Authenticates(userService.repo.rows, dto, hasher, id) ==> r == Success(IssueTokens(codec, id))
    {
      var found := userService.repo.Find(UserFindDTO(None, Some(dto.username), None), true);
      if found.Failure? then Failure(found.error)
      else
        var user := found.value.model;
        if !hasher.verify(dto.password, user.hashedPassword) then Failure(UserNotFound)
        else
          assert Authenticates(userService.repo.rows, dto, hasher, user.id);
          Success(IssueTokens(codec, user.id))
    }

    /**
     * `login` as written: the search goes through `find_user`, whose answer
     * is the public projection, and reading `hashed_password` off it raises
     * `AttributeError`.
     */
    function LoginAsWritten(dto: LoginDTO, hasher: PasswordHasher, codec: TokenCodec): (r: Result<TokenDTO, LoginFailure>)
      reads userService.repo
      requires userService.repo.Valid()
      ensures r.Failure?
      ensures r.error.AttributeError? <==> exists id :: id in userService.repo.rows && userService.repo.rows[id].username == dto.username
    {
      match userService.FindUser(UserFindDTO(None, Some(dto.username), None))
      case Failure(e) => Failure(Raised(e))
      case Success(user) => Failure(AttributeError("hashed_password"))
    }

    /** A wrong password for a stored username fails exactly as an unknown username does. */
    lemma WrongPasswordLooksLikeUnknownUser(dto: LoginDTO, unknown: LoginDTO, hasher: PasswordHasher, codec: TokenCodec, id: int)
      requires userService.repo.Valid()
      requires id in userService.repo.rows && userService.repo.rows[id].username == dto.username
      requires !hasher.verify(dto.password, userService.repo.rows[id].hashedPassword)
      requires forall k :: k in userService.repo.rows ==> userService.repo.rows[k].username != unknown.username
      ensures Login(dto, hasher, codec) == Login(unknown, hasher, codec) == Failure(UserNotFound)
    {
    }

    /**
     * With a sound hasher, the password a user was stored with logs that
     * user in, and the as-written login fails for that same user.
     */
    lemma LoginOfStoredUser(username: string, email: string, password: string, hasher: PasswordHasher, codec: TokenCodec, id: int)
      requires userService.repo.Valid() && HasherSound(hasher)
      requires id in userService.repo.rows
      requires userService.repo.rows[id] == UserModel(id, username, email, hasher.hash(password))
      ensures Login(LoginDTO(username, password), hasher, codec) == Success(IssueTokens(codec, id))
      ensures LoginAsWritten(LoginDTO(username, password), hasher, codec) == Failure(AttributeError("hashed_password"))
    {
      assert Authenticates(userService.repo.rows, LoginDTO(username, password), hasher, id);
    }

    /** The access token a login returns authenticates, as the user whose username was given. */
    lemma LoginTokenAuthenticates(dto: LoginDTO, hasher: PasswordHasher, codec: TokenCodec)
      requires userService.repo.Valid() && CodecSound(codec)
      requires Login(dto, hasher, codec).Success?
      ensures var current := GetCurrentUser(Login(dto, hasher, codec).value.accessToken, codec, userService.repo);
        current.Success? && current.value.username == dto.username
    {
      var id :| Authenticates(userService.repo.rows, dto, hasher, id);
      IssuedAccessTokenAuthenticates(codec, userService.repo, id);
    }
  }
}

/**
 * The walk-through of the whole backend: alice registers and logs in, a wrong
 * password is refused, alice creates a task, and bob, a second registered
 * user, may not update it.
 */
module Scenario {
  import opened Wrappers
  import opened Security
  import opened UserDto
  import opened UserRepo
  import opened UserSvc
  import opened AuthDto
  import opened AuthSvc
  import opened TaskDto
  import opened TaskRepo
  import opened TaskSvc

  /**
   * The first user registers in an empty store, logs in with the registered
   * password, and is refused with a wrong one.
   */
  method SignUpAlice(auth: AuthService, hasher: PasswordHasher, codec: TokenCodec)
    returns (login: Result<TokenDTO, UserError>, wrongLogin: Result<TokenDTO, UserError>, aliceId: int)
    requires auth.userService.repo.Valid() && auth.userService.repo.rows == map[]
    requires HasherSound(hasher)
    requires !hasher.verify("wrongpass", hasher.hash("password123"))
    modifies auth.userService.repo
    ensures auth.userService.repo.Valid()
    ensures auth.userService.repo.rows == map[aliceId := UserModel(aliceId, "alice", "alice@x.com", hasher.hash("password123"))]
    ensures login == Success(IssueTokens(codec, aliceId))
    ensures wrongLogin == Failure(UserNotFound)
  {
    var users := auth.userService.repo;
    aliceId := users.nextId;
    var registered := auth.Register(RegistrationDTO("alice", "alice@x.com", "password123"), hasher, codec);
    assert registered.Success?;
    auth.LoginOfStoredUser("alice", "alice@x.com", "password123", hasher, codec, aliceId);
    login := auth.Login(LoginDTO("alice", "password123"), hasher, codec);
    assert !Authenticates(users.rows, LoginDTO("alice", "wrongpass"), hasher, aliceId);
    wrongLogin := auth.Login(LoginDTO("alice", "wrongpass"), hasher, codec);
  }

  /** Two users sign up, under different ids. */
  method SignUp(hasher: PasswordHasher, codec: TokenCodec)
    returns (login: Result<TokenDTO, UserError>, wrongLogin: Result<TokenDTO, UserError>, aliceId: int, bobId: int)
    requires HasherSound(hasher)
    requires !hasher.verify("wrongpass", hasher.hash("password123"))
    ensures login == Success(IssueTokens(codec, aliceId))
    ensures wrongLogin == Failure(UserNotFound)
    ensures aliceId != bobId
  {
    var users := new UserRepository();
    var userService := new UserService(users);
    var auth := new AuthService(userService);
    login, wrongLogin, aliceId := SignUpAlice(auth, hasher, codec);
    bobId := users.nextId;
    var bobRegistered := auth.Register(RegistrationDTO("bob", "bob@x.com", "password456"), hasher, codec);
    assert bobRegistered.Success?;
  }

  /** The walk-through: after signing up, the first user's new task cannot be updated by the second. */
  method AliceAndBob(hasher: PasswordHasher, codec: TokenCodec)
    returns (login: Result<TokenDTO, UserError>, wrongLogin: Result<TokenDTO, UserError>,
             task: TaskDTO, aliceId: int, bobUpdate: Result<TaskDTO, TaskError>)
    requires HasherSound(hasher)
    requires !hasher.verify("wrongpass", hasher.hash("password123"))
    ensures login == Success(IssueTokens(codec, aliceId))
    ensures wrongLogin == Failure(UserNotFound)
    ensures task.title == "Buy milk" && task.status == Pending && task.ownerId == aliceId
    ensures bobUpdate == Failure(TaskAccessForbidden)
  {
    var bobId;
    login, wrongLogin, aliceId, bobId := SignUp(hasher, codec);
    var taskRepo := new TaskRepository();
    var tasks := new TaskService(taskRepo);
    task := tasks.CreateTaskForUser(TaskCreate("Buy milk", None), aliceId);
    bobUpdate := tasks.UpdateTask(task.id, TaskUpdate(Present(Some("Buy bread")), Absent, Absent), bobId);
  }
}

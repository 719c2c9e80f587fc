/**
 * The user table and its repository. Usernames and emails are each unique
 * across the table; a create that would break that is rolled back and raises
 * `UserAlreadyExists`. A search filters on the conjunction of the criteria
 * given and needs at least one.
 */
module UserRepo {
  import opened Wrappers
  import opened UserDto

  predicate HasCriteria(c: UserFindDTO) {
    c.id.Some? || c.username.Some? || c.email.Some?
  }

  /** The user satisfies every criterion that is given. */
  predicate MatchesAll(u: UserModel, c: UserFindDTO) {
    && (c.id.None? || u.id == c.id.value)
    && (c.username.None? || u.username == c.username.value)
    && (c.email.None? || u.email == c.email.value)
  }

  /** The projection `find` returns: the full row only when asked for. */
  function Project(u: UserModel, returnModel: bool): (f: Found)
    ensures f.FoundModel? <==> returnModel
    ensures f.Id() == u.id
  {
    if returnModel then FoundModel(u) else FoundDto(ToDto(u))
  }

  /** Some stored user already has the username or the email. */
  predicate Taken(rows: map<int, UserModel>, username: string, email: string) {
    exists id | id in rows :: rows[id].username == username || rows[id].email == email
  }

  /** The unique constraints of the username and email columns, and ids as keys. */
  ghost predicate WellKeyed(rows: map<int, UserModel>) {
    && (forall id :: id in rows ==> rows[id].id == id)
    && (forall a, b :: a in rows && b in rows && rows[a].username == rows[b].username ==> a == b)
    && (forall a, b :: a in rows && b in rows && rows[a].email == rows[b].email ==> a == b)
  }

  /**
   * At most one user satisfies a search with at least one criterion, since
   * each criterion is on a unique column: the query's single-row fetch never
   * sees two rows.
   */
  lemma AtMostOneMatch(rows: map<int, UserModel>, c: UserFindDTO)
    requires WellKeyed(rows) && HasCriteria(c)
    ensures forall a, b :: a in rows && b in rows && MatchesAll(rows[a], c) && MatchesAll(rows[b], c) ==> a == b
  {
  }

  class UserRepository {
    var rows: map<int, UserModel>
    var nextId: int

    ghost predicate Valid()
      reads this
    {
      && nextId >= 1
      && (forall id :: id in rows ==> 1 <= id < nextId)
      && WellKeyed(rows)
    }

    constructor ()
      ensures Valid() && rows == map[] && nextId == 1
    {
      rows := map[];
      nextId := 1;
    }

    /**
     * `create`: store the entity under a fresh id and return its public
     * projection; if the username or the email is taken, roll back, change
     * nothing and raise `UserAlreadyExists`.
     */
    method Create(entity: User) returns (r: Result<UserDTO, UserError>)
      requires Valid() && entity.id.None?
      modifies this
      ensures Valid()
      ensures r.Failure? <==> Taken(old(rows), entity.username, entity.email)
      ensures r.Failure? ==> r.error == UserAlreadyExists && rows == old(rows) && nextId == old(nextId)
      ensures r.Success? ==> r.value == UserDTO(old(nextId), entity.username, entity.email)
      ensures r.Success? ==> r.value.id !in old(rows) && nextId == old(nextId) + 1
      ensures r.Success? ==>
        rows == old(rows)[r.value.id := UserModel(r.value.id, entity.username, entity.email, entity.hashedPassword)]
    {
      if exists id | id in rows :: rows[id].username == entity.username || rows[id].email == entity.email {
        return Failure(UserAlreadyExists);
      }
      var row := UserModel(nextId, entity.username, entity.email, entity.hashedPassword);
      rows := rows[nextId := row];
      nextId := nextId + 1;
      r := Success(ToDto(row));
    }

    /**
     * `find`: `NoCriteria` when no criterion is given, otherwise the user
     * matching every criterion (as the full row when `returnModel`, else as
     * its public projection), or `UserNotFound`.
     */
    function Find(c: UserFindDTO, returnModel: bool): (r: Result<Found, UserError>)
      reads this
      requires Valid()
      ensures !HasCriteria(c) ==> r == Failure(NoCriteria)
      ensures HasCriteria(c) && r.Failure? ==> r.error == UserNotFound
      ensures r.Failure? && HasCriteria(c) <==> HasCriteria(c) && forall id :: id in rows ==> !MatchesAll(rows[id], c)
      ensures r.Success? ==> var id := r.value.Id();
        id in rows && MatchesAll(rows[id], c) && r.value == Project(rows[id], returnModel)
    {
      if !HasCriteria(c) then Failure(NoCriteria)
      else if exists id | id in rows :: MatchesAll(rows[id], c) then
        AtMostOneMatch(rows, c);
        var id :| id in rows && MatchesAll(rows[id], c);
        Success(Project(rows[id], returnModel))
      else Failure(UserNotFound)
    }
  }

  /** A search by id alone finds exactly the row stored under that id. */
  lemma FindById(repo: UserRepository, id: int, returnModel: bool)
    requires repo.Valid()
    ensures id in repo.rows ==> repo.Find(UserFindDTO(Some(id), None, None), returnModel) == Success(Project(repo.rows[id], returnModel))
    ensures id !in repo.rows ==> repo.Find(UserFindDTO(Some(id), None, None), returnModel) == Failure(UserNotFound)
  {
    var c := UserFindDTO(Some(id), None, None);
    if id in repo.rows {
      assert MatchesAll(repo.rows[id], c);
    }
  }
}

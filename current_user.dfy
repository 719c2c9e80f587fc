/**
 * The bearer-token dependency of protected endpoints: verify the token, take
 * its subject, read it as an integer id and look that user up. Every way
 * this can fail ends in one and the same 401 response.
 */
module CurrentUser {
  import opened Wrappers
  import opened Decimal
  import opened Security
  import opened UserDto
  import opened UserRepo

  /** An HTTP error response: status, detail and the `WWW-Authenticate` header. */
  datatype HttpError = HttpError(status: int, detail: string, authenticate: string)

  const CredentialsError := HttpError(401, "Could not validate credentials", "Bearer")

  /** `get_current_user`. */
  function GetCurrentUser(token: string, codec: TokenCodec, repo: UserRepository): (r: Result<UserDTO, HttpError>)
    reads repo
    requires repo.Valid()
    ensures r.Failure? ==> r.error == CredentialsError
    ensures codec.verify(token).None? ==> r.Failure?
    ensures codec.verify(token).Some? && codec.verify(token).value.sub.None? ==> r.Failure?
    ensures (codec.verify(token).Some? && codec.verify(token).value.sub.Some? &&
             ParseInt(codec.verify(token).value.sub.value).None?) ==> r.Failure?
    ensures r.Success? <==>
      && codec.verify(token).Some?
      && codec.verify(token).value.sub.Some?
      && ParseInt(codec.verify(token).value.sub.value).Some?
      && ParseInt(codec.verify(token).value.sub.value).value in repo.rows
    ensures r.Success? ==>
      var id := ParseInt(codec.verify(token).value.sub.value).value;
      r.value.id == id && r.value == ToDto(repo.rows[id])
  {
    match codec.verify(token)
    case None => Failure(CredentialsError)
    case Some(payload) =>
      match payload.sub
      case None => Failure(CredentialsError)
      case Some(sub) =>
        match ParseInt(sub)
        case None => Failure(CredentialsError)
        case Some(userId) =>
          FindById(repo, userId, false);
          var found := repo.Find(UserFindDTO(Some(userId), None, None), false);
          if found.Success? && found.value.FoundDto? then Success(found.value.dto)
          else Failure(CredentialsError)
  }

  /** The access token issued for a stored user authenticates as that user. */
  lemma IssuedAccessTokenAuthenticates(codec: TokenCodec, repo: UserRepository, userId: int)
    requires CodecSound(codec) && repo.Valid() && userId in repo.rows
    ensures GetCurrentUser(IssueTokens(codec, userId).accessToken, codec, repo) == Success(ToDto(repo.rows[userId]))
  {
    IssuedSubjectNamesUser(codec, userId);
  }

  /**
   * Tokens carry no type claim and `verify_token` checks none, so the refresh
   * token is accepted wherever the access token is.
   */
  lemma RefreshTokenAlsoAuthenticates(codec: TokenCodec, repo: UserRepository, userId: int)
    requires CodecSound(codec) && repo.Valid()
    ensures GetCurrentUser(IssueTokens(codec, userId).refreshToken, codec, repo)
         == GetCurrentUser(IssueTokens(codec, userId).accessToken, codec, repo)
  {
    IssuedSubjectNamesUser(codec, userId);
  }

  /** For a user that is no longer stored, both tokens are refused with the credentials error. */
  lemma DeletedUserIsRefused(codec: TokenCodec, repo: UserRepository, userId: int)
    requires CodecSound(codec) && repo.Valid() && userId !in repo.rows
    ensures GetCurrentUser(IssueTokens(codec, userId).accessToken, codec, repo) == Failure(CredentialsError)
    ensures GetCurrentUser(IssueTokens(codec, userId).refreshToken, codec, repo) == Failure(CredentialsError)
  {
    IssuedSubjectNamesUser(codec, userId);
  }
}

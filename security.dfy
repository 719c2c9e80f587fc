/**
 * Password hashing and token issuing. The bcrypt context and the JWT library
 * are not modelled: a hasher and a token codec are records of functions that
 * the callers receive, and the properties the rest of the system relies on
 * are stated as predicates over them.
 */
module Security {
  import opened Wrappers
  import opened Decimal

  /** `get_password_hash` and `verify_password`. */
  datatype PasswordHasher = PasswordHasher(hash: string -> string, verify: (string, string) -> bool)

  /** The hash of a password verifies against that password. */
  ghost predicate HasherSound(h: PasswordHasher) {
    forall p :: h.verify(p, h.hash(p))
  }

  /** The claims a token carries: an optional subject. */
  datatype TokenPayload = TokenPayload(sub: Option<string>)

  /**
   * `create_access_token`, `create_refresh_token` (each given the subject
   * claim) and `verify_token`, which yields the payload or `None` when the
   * signature, the expiry or the format is bad.
   */
  datatype TokenCodec = TokenCodec(
    createAccess: string -> string,
    createRefresh: string -> string,
    verify: string -> Option<TokenPayload>)

  /** A token the codec issued verifies, with the subject it was issued for. */
  ghost predicate CodecSound(c: TokenCodec) {
    && (forall s :: c.verify(c.createAccess(s)) == Some(TokenPayload(Some(s))))
    && (forall s :: c.verify(c.createRefresh(s)) == Some(TokenPayload(Some(s))))
  }

  const Bearer: string := "bearer"

  /** The token pair returned by registration and login. */
  datatype TokenDTO = TokenDTO(accessToken: string, refreshToken: string, tokenType: string)

  /**
   * Both tokens for a user, each with subject `str(id)`; the token type is
   * the default "bearer".
   */
  function IssueTokens(codec: TokenCodec, userId: int): (t: TokenDTO)
    ensures t.tokenType == Bearer
    ensures CodecSound(codec) ==> codec.verify(t.accessToken) == Some(TokenPayload(Some(Text(userId))))
    ensures CodecSound(codec) ==> codec.verify(t.refreshToken) == Some(TokenPayload(Some(Text(userId))))
  {
    var subject := Text(userId);
    TokenDTO(codec.createAccess(subject), codec.createRefresh(subject), Bearer)
  }

  /** The subject of either issued token reads back, through `int()`, as the user's id. */
  lemma IssuedSubjectNamesUser(codec: TokenCodec, userId: int)
    requires CodecSound(codec)
    ensures codec.verify(IssueTokens(codec, userId).accessToken).value.sub.value == Text(userId)
    ensures ParseInt(codec.verify(IssueTokens(codec, userId).accessToken).value.sub.value) == Some(userId)
    ensures ParseInt(codec.verify(IssueTokens(codec, userId).refreshToken).value.sub.value) == Some(userId)
  {
    ParseIntOfText(userId);
  }
}

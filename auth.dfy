/**
 * The async server's per-connection identity (`AuthConnectionWrapper`): a
 * connection plus the user it has been authenticated as. Authentication
 * checks a token against the server's secret; the first valid token fixes
 * the identity for good, and later valid tokens change nothing.
 *
 * JWT decoding and checking is foreign code; it is a parameter of
 * `Authenticate` mapping a token and a key to the claims or an error.
 */
module Auth {
  import opened Wrappers
  import opened Bytes
  import Frames
  import Transport
  import Connection

  /** The key tokens are checked against: the ASCII bytes of `RUST_ACADEMY`. */
  const SECRET_KEY: seq<Byte> := [82, 85, 83, 84, 95, 65, 67, 65, 68, 69, 77, 89]

  /** The claims of a valid token. */
  datatype UserClaims = UserClaims(username: string, exp: nat)

  /** `AuthToken::validate_token`: the claims of a token under a key, or why it is rejected. */
  type TokenValidator = (string, seq<Byte>) -> Result<UserClaims, string>

  /**
   * One `authenticate` on the identity `user`, given what validation of the
   * token answered: the result and the new identity.
   */
  function AuthStep(user: Option<string>, validated: Result<UserClaims, string>): (res: (Result<(), string>, Option<string>))
    ensures validated.Err? ==> res == (Err(validated.error), user)
    ensures validated.Ok? ==> res.0 == Ok(())
    ensures validated.Ok? && user.None? ==> res.1 == Some(validated.value.username)
    ensures user.Some? ==> res.1 == user
  {
    match validated
    case Err(e) => (Err(e), user)
    case Ok(claims) => (Ok(()), if user.None? then Some(claims.username) else user)
  }

  /** The identity after a sequence of `authenticate` calls with these validation outcomes. */
  function AuthRun(user: Option<string>, outcomes: seq<Result<UserClaims, string>>): Option<string>
    decreases |outcomes|
  {
    if outcomes == [] then user else AuthRun(AuthStep(user, outcomes[0]).1, outcomes[1..])
  }

  /** The username of the first valid token, if any. */
  function FirstValid(outcomes: seq<Result<UserClaims, string>>): Option<string>
  {
    if outcomes == [] then None
    else if outcomes[0].Ok? then Some(outcomes[0].value.username)
    else FirstValid(outcomes[1..])
  }

  class AuthConnectionWrapper {
    const connection: Connection.Connection
    var authenticatedUser: Option<string>

    /** `AuthConnectionWrapper::new`: a fresh connection over the stream, nobody authenticated. */
    constructor(stream: seq<Transport.ReadEvent>, writes: seq<bool>, codec: Frames.FrameCodec)
      ensures authenticatedUser == None
      ensures fresh(connection) && connection.buffer == [] && connection.incoming == stream
    {
      connection := new Connection.Connection(stream, writes, codec);
      authenticatedUser := None;
    }

    /** `authenticate`: validate the token; a valid one sets the identity unless it is already set. */
    method Authenticate(token: string, validate: TokenValidator) returns (r: Result<(), string>)
      modifies this
      ensures (r, authenticatedUser) == AuthStep(old(authenticatedUser), validate(token, SECRET_KEY))
    {
      var claims := validate(token, SECRET_KEY);
      if claims.Err? {
        return Err(claims.error);
      }
      if authenticatedUser.None? {
        authenticatedUser := Some(claims.value.username);
      }
      r := Ok(());
    }
  }

  /**
   * Set once: starting unauthenticated, any sequence of calls leaves the
   * identity of the first valid token (or none if there was none); once
   * set, no sequence of calls changes it.
   */
  lemma {:induction false} AuthRunSetOnce(user: Option<string>, outcomes: seq<Result<UserClaims, string>>)
    ensures user.Some? ==> AuthRun(user, outcomes) == user
    ensures user.None? ==> AuthRun(user, outcomes) == FirstValid(outcomes)
    decreases |outcomes|
  {
    if outcomes != [] {
      AuthRunSetOnce(AuthStep(user, outcomes[0]).1, outcomes[1..]);
    }
  }

  /** Running a sequence of calls and then more is running them all. */
  lemma {:induction false} AuthRunAppend(user: Option<string>, xs: seq<Result<UserClaims, string>>, ys: seq<Result<UserClaims, string>>)
    ensures AuthRun(user, xs + ys) == AuthRun(AuthRun(user, xs), ys)
    decreases |xs|
  {
    if xs == [] {
      assert xs + ys == ys;
    } else {
      assert (xs + ys)[0] == xs[0] && (xs + ys)[1..] == xs[1..] + ys;
      AuthRunAppend(AuthStep(user, xs[0]).1, xs[1..], ys);
    }
  }
}

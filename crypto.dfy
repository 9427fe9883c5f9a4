/**
 * The foreign services the authentication code calls, kept abstract: the
 * bcrypt key derivation, JWT signing and verification, and the process
 * environment. They are gathered in one immutable configuration value.
 */
module Crypto {
  import opened Wrappers

  /** Identifier of a stored user (the document's `_id`). */
  type UserId = nat

  /** A bcrypt salt as produced by `bcrypt.genSalt`. */
  type Salt = string

  /** The issue time a JWT records (`iat`), in seconds. */
  type Time = nat

  /** `expiresIn: "7d"`: how long an issued token stays valid, in seconds. */
  const TOKEN_LIFETIME: nat := 7 * 24 * 60 * 60

  /** The cost factor passed to `bcrypt.genSalt`. */
  const SALT_ROUNDS: nat := 10

  /**
   * Configuration fixed at start-up. `kdf` is the bcrypt key derivation for
   * a password, cost and salt; `sign` is `jwt.sign` for a user id issued at
   * a given time under the server's secret; `verify` is `jwt.verify` for a
   * token checked at the current time. What they must satisfy is stated by
   * `TokensSound`.
   */
  datatype Env = Env(
    nodeEnv: Option<string>,
    kdf: (string, nat, Salt) -> string,
    sign: (UserId, Time) -> string,
    verify: (string, Time) -> Option<UserId>)

  /** A bcrypt hash string: cost and salt are carried with the derived key. */
  datatype PasswordHash = PasswordHash(rounds: nat, salt: Salt, key: string)

  /** `bcrypt.compare(password, hash)`: re-derive with the hash's own cost and salt. */
  predicate Matches(env: Env, password: string, hash: PasswordHash)
    ensures Matches(env, password, hash) <==>
      PasswordHash(hash.rounds, hash.salt, env.kdf(password, hash.rounds, hash.salt)) == hash
  {
    env.kdf(password, hash.rounds, hash.salt) == hash.key
  }

  /** `bcrypt.hash(password, salt)` with a salt of cost SALT_ROUNDS. */
  function Hash(env: Env, password: string, salt: Salt): (h: PasswordHash)
    ensures h.rounds == SALT_ROUNDS && h.salt == salt
    ensures Matches(env, password, h)
  {
    PasswordHash(SALT_ROUNDS, salt, env.kdf(password, SALT_ROUNDS, salt))
  }

  /** The idealised hash: different passwords never derive the same key. */
  ghost predicate CollisionFree(env: Env)
  {
    forall p, q, n, s :: env.kdf(p, n, s) == env.kdf(q, n, s) ==> p == q
  }

  /** Under a collision-free hash only the hashed password matches. */
  lemma OnlyHashedPasswordMatches(env: Env, password: string, other: string, salt: Salt)
    requires CollisionFree(env)
    ensures Matches(env, other, Hash(env, password, salt)) <==> other == password
  {
  }

  /** A token issued at `issuedAt` has not yet expired at `now`. */
  predicate Unexpired(issuedAt: Time, now: Time)
    ensures Unexpired(issuedAt, now) <==> now - issuedAt < TOKEN_LIFETIME
  {
    now < issuedAt + TOKEN_LIFETIME
  }

  /**
   * What `jwt.sign` and `jwt.verify` under one secret do with the tokens the
   * server issues: a token issued at time `t` verifies to its id exactly while
   * it is unexpired, and is rejected from then on; tokens look like JWTs,
   * non-empty and free of spaces; and any string `verify` accepts is a token
   * issued for that id and not yet expired, so a tampered or forged string
   * is refused.
   */
  ghost predicate TokensSound(env: Env)
  {
    && (forall id: UserId, t: Time :: env.sign(id, t) != "" && ' ' !in env.sign(id, t))
    && (forall id: UserId, t: Time, now: Time ::
          env.verify(env.sign(id, t), now) == (if Unexpired(t, now) then Some(id) else None))
    && (forall s: string, now: Time :: env.verify(s, now).Some? ==>
          exists t: Time :: s == env.sign(env.verify(s, now).value, t) && Unexpired(t, now))
  }
}

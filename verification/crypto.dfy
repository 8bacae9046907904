/**
 * bcrypt and jsonwebtoken, kept uninterpreted: the handlers receive them as
 * function values, and the facts the model relies on are collected in `Sound`.
 */
module Crypto {
  import opened Js

  /** `decoded.user` of a verified token: the authenticated caller. */
  datatype Principal = Principal(id: nat)

  /** The token payload `{ user: { id } }` signed at login. */
  datatype Payload = Payload(user: Principal)

  /**
   * The library functions. bcrypt's take string passwords only: given any
   * other value they reject, which the handlers turn into a 500.
   */
  datatype Crypto = Crypto(
    hash: (string, string) -> string,       // bcrypt.hash(password, salt)
    compare: (string, string) -> bool,      // bcrypt.compare(password, hash)
    sign: Payload -> string,                // jwt.sign(payload, secret, { expiresIn: '365d' })
    verify: string -> Option<Payload>)      // jwt.verify(token, secret); None when it throws

  /**
   * The assumed behaviour of the libraries: a password matches its own hash
   * under any salt, verification inverts signing, and a signed token is a
   * non-empty string.
   */
  ghost predicate Sound(c: Crypto) {
    && (forall p, salt :: c.compare(p, c.hash(p, salt)))
    && (forall p :: c.verify(c.sign(p)) == Some(p))
    && (forall p :: c.sign(p) != "")
  }
}

/**
 * The two cryptographic collaborators of the backend, kept opaque: the bcrypt
 * library (hash and compare) and the injected JWT service (sign, and the
 * verification its guard performs).  Each is a value holding functions; the
 * only facts assumed about them are the soundness predicates below.
 */
module Crypto {
  import opened Results

  /** `bcrypt.hash(p, 10)` and `bcrypt.compare(p, h)`.  Salting is left out, so
      `hash` is a fixed function; it is NOT assumed to be injective. */
  datatype Bcrypt = Bcrypt(hash: string -> string, compare: (string, string) -> bool) {
    /** A password always matches its own hash. */
    ghost predicate Sound() {
      forall p: string :: compare(p, hash(p))
    }
  }

  /** The claims `login` puts into a token; `None` is a claim that is `undefined`. */
  datatype TokenPayload = TokenPayload(email: string, sub: Option<int>, name: Option<string>)

  /** `jwtService.sign(payload)` and the decoding a token guard does with the same secret. */
  datatype JwtService = JwtService(sign: TokenPayload -> string, verify: string -> Option<TokenPayload>) {
    /** A signed token decodes to the payload it was signed from. */
    ghost predicate Sound() {
      forall p: TokenPayload :: verify(sign(p)) == Some(p)
    }
  }
}

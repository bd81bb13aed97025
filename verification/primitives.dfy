/** The cryptographic library calls the edge functions make, treated as
    uninterpreted deterministic functions supplied from outside: PBKDF2 via
    WebCrypto, the bcrypt module's `hash` and `compare`, and the HS256
    signature computed by djwt's `create`. Nothing is assumed about how they
    relate to one another. */
module Primitives {
  import opened Base
  import opened Records

  /** `crypto.getRandomValues(new Uint8Array(16))` */
  const SaltLength: nat := 16
  /** `deriveBits(..., 256)`: 32 bytes */
  const DigestLength: nat := 32

  type Salt = s: seq<Byte> | |s| == SaltLength
    witness [0, 0, 0, 0, 0, 0, 0, 0, 0, 0, 0, 0, 0, 0, 0, 0]

  type Digest = s: seq<Byte> | |s| == DigestLength
    witness [0, 0, 0, 0, 0, 0, 0, 0, 0, 0, 0, 0, 0, 0, 0, 0,
             0, 0, 0, 0, 0, 0, 0, 0, 0, 0, 0, 0, 0, 0, 0, 0]

  /** The characters of bcrypt's modular-crypt text ("$2a$10$" followed by its
      own base-64 alphabet). */
  predicate IsBcryptChar(c: char) {
    c == '$' || c == '.' || c == '/' || 'A' <= c <= 'Z' || 'a' <= c <= 'z' || '0' <= c <= '9'
  }

  /** The 60-character string `bcrypt.hash` returns. */
  predicate IsBcryptText(s: string) {
    |s| == 60 && s[0] == '$' && forall i :: 0 <= i < |s| ==> IsBcryptChar(s[i])
  }

  type BcryptText = s: string | IsBcryptText(s)
    witness "$" + seq(59, _ => 'a')

  /** The JOSE header djwt writes: `{ alg: "HS256", typ: "JWT" }`. */
  datatype JoseHeader = JoseHeader(alg: string, typ: string)

  /** The payload of a session token; `exp` is in Unix seconds. */
  datatype Claims = Claims(userId: string, email: string, role: Role, exp: int)

  datatype Crypto = Crypto(
    /** PBKDF2-HMAC-SHA256 with 100000 iterations over the UTF-8 bytes of a
        secret and a salt, 256 bits out. */
    pbkdf2: (string, seq<Byte>) -> Digest,
    /** `bcrypt.hash(secret)`, with the salt it draws internally made explicit. */
    bcryptHash: (string, Salt) -> BcryptText,
    /** `bcrypt.compare(secret, stored)`; `None` when the library throws. */
    bcryptCompare: (string, string) -> Option<bool>,
    /** HMAC-SHA256 under the `JWT_SECRET` key over the encoded header and payload. */
    hs256: (JoseHeader, Claims) -> seq<Byte>)
}

/** The signed token the service issues. The signing library is not modelled: its two
    operations are function-valued parameters of the handlers that use them. */
module Jwt {
  import opened Js

  /** What login signs: `{ userId, email }`. */
  datatype Payload = Payload(userId: nat, email: string)

  /** What a successful verification decodes: the payload with its issue and expiry times (seconds). */
  datatype Claims = Claims(userId: nat, email: string, iat: int, exp: int)

  /** `expiresIn: '24h'`, in seconds. */
  const TokenLifetime: nat := 24 * 60 * 60

  /** Signing with the server's secret: payload, issue time and lifetime to a token string. */
  type Signer = (Payload, int, nat) -> string

  /** Verifying with the server's secret at a given time: the decoded claims, or None when the
      signature does not match or the token has expired. */
  type Verifier = (string, int) -> Option<Claims>
}

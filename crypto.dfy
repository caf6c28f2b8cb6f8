/** The hash primitives the log uses, left uninterpreted: every fact proved
    about the log and the MAC chain holds for any choice of these functions. */
module Crypto {

  /** `sha256(x)` is crypto-js `SHA256(x).toString()`, a hex digest. Where the log
      hands the raw digest (a word array) to the Merkle tree instead, the model's
      leaves are the hex form of those bytes; the two forms are one-to-one, so
      no result depends on the choice.
      `hmacSha256(key, msg)` is Node's `createHmac('sha256', key).update(msg).digest('hex')`. */
  datatype Hashes = Hashes(
    sha256: string -> string,
    hmacSha256: (string, string) -> string)
}

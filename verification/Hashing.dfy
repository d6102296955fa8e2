/** SHA-256 taken as an injective function of the bytes fed to it. */
module Hashing {
  import opened Utf8

  datatype Digest = Sha256(preimage: seq<byte>)
}

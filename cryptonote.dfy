/**
 * The native LibCryptoNote entry points the job calls. Their code is not
 * part of this model: the job receives them as a value, so every property
 * proved here holds whatever blob conversion and hash functions are plugged in.
 */
module CryptoNote {
  import opened Wrappers
  import opened Bytes

  /** A CryptoNight digest: 32 bytes. */
  type Hash = h: seq<byte> | |h| == 32 witness Zeros(32)

  /**
   * `convertBlob` is `LibCryptoNote.ConvertBlob` (None where it returns null),
   * `slowHash` is `CryptonightHashSlow` and `fastHash` is `CryptonightHashFast`.
   */
  datatype Library = Library(
    convertBlob: seq<byte> -> Option<seq<byte>>,
    slowHash: seq<byte> -> Hash,
    fastHash: seq<byte> -> Hash)
}

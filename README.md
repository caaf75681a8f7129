# MoneroJob — a verified model of Monero work assignment and share validation

This project models `MoneroJob`, the class the MiningForce pool uses for one Monero block template. It does four things:

- **Blob templating.** The hex block blob from the daemon is decoded. The first three bytes of the pool instance id are written right after the four extranonce bytes at the start of the reserved area.
- **Worker job preparation.** A 32-bit extranonce counter is incremented. The worker job is stamped with the template height and the new extranonce. The worker receives two strings. The first is the blob with that extranonce written big-endian at the reserved offset, converted by the native CryptoNote library and hex-encoded. The second is the compact target.
- **Target encoding.** BouncyCastle computes `Diff1 / floor(difficulty)`. The result is right-aligned in 32 zero bytes, and the first four bytes are reversed and hex-encoded.
- **Share validation.** The bytes the worker hashed are rebuilt: template, extranonce and nonce. They are converted and hashed with the slow CryptoNight hash, and the result is compared with the worker's hash. The difficulty the hash achieves is then computed. The share is refused if it falls more than 1% below the stratum difficulty (a ratio of exactly 0.99 is accepted). It is marked as a block candidate when it reaches the network difficulty.

The model is imperative where the class is:

- `Monero.MoneroJob` is a Dafny class. Its blob template is an `array<byte>`, and its extranonce counter is a 32-bit field that `PrepareWorkerJob` updates.
- Each `Buffer.BlockCopy` call is the method `Bytes.BlockCopy`. That method is proved to leave exactly `Bytes.Splice` of the old contents behind.

Every method is proved against a specification function on values:
- `PreparedBlob`, `WithExtraNonce` and `RebuiltBlob` describe the three kinds of blob.
- `EncodedBlob` and `TargetBytes` describe the strings sent to the worker.
- `ShareOutcome` is the full decision ladder of `ProcessShare`.

Module `MoneroProperties` proves what the job guarantees across calls.

The native library (`ConvertBlob`, `CryptonightHashSlow`, `CryptonightHashFast`) is not part of this model. It is passed to every operation as a `CryptoNote.Library` value, so every property holds for any conversion and hash functions.

BouncyCastle's `BigInteger` is modelled exactly where the job relies on it:
- The byte-array constructor reads two's complement (`Difficulty.SignedValue`).
- `Divide` truncates toward zero (`Difficulty.TruncDiv`).
- `LongValue` keeps the low 64 bits as a signed number (`Difficulty.ToInt64`).
- `ToByteArray` writes the shortest two's complement form (`Difficulty.ToByteArray`).

`MoneroConstants` is not part of this model. The model uses these values for it:
- `Diff1` = 2^256 - 1
- `ExtraNonceSize` = 4
- `BlobNonceOffset` = 39
- a valid nonce is exactly eight lower-case hex digits

Where the code differs from the behaviour one would expect, the model follows the code:
- **Check order.** The nonce is checked before anything else, so a malformed nonce is refused as malformed even when the hash is also wrong (`MoneroProperties.MalformedNonceExactly`).
- **Signed hash value.** The hash value is read as a signed two's complement number, not an unsigned one. A hash whose last byte has its top bit set gives a negative 256-bit quotient (`Difficulty.HashQuotientNegative`). `LongValue` then keeps only the low 64 bits of that quotient, and they can read as a positive number. The all-0xFF hash reads as -1, and its difficulty comes out as 1 (`Difficulty.AllOnesHashDifficulty`), so it is accepted at stratum difficulty 1 (`MoneroProperties.NegativeHashAccepted`). Such a share is refused only when the truncated value falls below 0.99 times the stratum difficulty.
- **64-bit wrap of the best hashes.** `LongValue` keeps only the low 64 bits of `Diff1 / value`. For a hash value below about 2^193 the quotient no longer fits, and the difficulty wraps. The hash reading as 1 gets the difficulty -1 (`Difficulty.BestHashWraps`), so the best possible share is refused as a low-difficulty share (`MoneroProperties.BestHashRefused`).
- **Counter wrap-around.** The extranonce counter wraps to 0 after 2^32 - 1 (`Monero.NextExtraNonce`). Extranonces are distinct only within 2^32 assignments (`MoneroProperties.IssuedDistinct`).
- **Target byte order.** The target's four bytes are the most significant bytes of the quotient written in reverse, so read little-endian they are its top 32 bits (`Difficulty.TargetIsTopWord`). Below 2^32 the target and the share check agree: a hash whose top word lies below the target word reaches at least floor(difficulty), as long as its quotient fits 64 bits (`Difficulty.TargetAgreesWithHashDifficulty`).
- **Zero target for high difficulties.** The range `EncodeTarget` handles reaches 2^63, but the target keeps only 32 bits of the quotient. For floor(difficulty) of 2^32 or more the quotient falls below 2^224, and the worker is sent the target "00000000" (`Difficulty.TargetZeroExactly`, `MoneroProperties.ZeroTargetText`). No hash lies below that target.

## Model

| member | source | states |
|---|---|---|
| Bytes.Splice | src/MiningForce/Blockchain/Monero/MoneroJob.cs:79 | the spliced buffer keeps its length, holds `src` at the offset and the old bytes everywhere else |
| Bytes.BlockCopy | src/MiningForce/Blockchain/Monero/MoneroJob.cs:135 | copying `count` bytes into the array leaves exactly the old contents with that slice spliced in at the destination offset |
| Bytes.Reverse | src/MiningForce/Blockchain/Monero/MoneroJob.cs:98 | the reversed array has byte `n-1-i` at position `i` |
| Bytes.ReverseReverse | src/MiningForce/Blockchain/Monero/MoneroJob.cs:161-162 | reversing twice gives the original bytes back |
| Bytes.BigEndian | src/MiningForce/Blockchain/Monero/MoneroJob.cs:78 | the big-endian bytes of the extranonce have the requested width |
| Bytes.FromBigEndian | src/MiningForce/Blockchain/Monero/MoneroJob.cs:98 | the value of n big-endian bytes is below 256^n |
| Bytes.BigEndianRoundTrip | src/MiningForce/Blockchain/Monero/MoneroJob.cs:145-146 | a value that fits in the width is read back from its big-endian bytes |
| Bytes.FromBigEndianRoundTrip | src/MiningForce/Blockchain/Monero/MoneroJob.cs:78 | re-encoding decoded bytes at their own width gives the same bytes |
| Bytes.BigEndianPadded | src/MiningForce/Blockchain/Monero/MoneroJob.cs:157-159 | writing a number wider than it needs only adds leading zero bytes |
| Hex.ToHex | src/MiningForce/Blockchain/Monero/MoneroJob.cs:92 | hex text is lower-case, two digits per byte |
| Hex.HexToBytes | src/MiningForce/Blockchain/Monero/MoneroJob.cs:131 | decoding hex text gives one byte per two digits |
| Hex.HexRoundTrip | src/MiningForce/Blockchain/Monero/MoneroJob.cs:120 | the hex text of a blob decodes back to the blob |
| Hex.LowerHexRoundTrip | src/MiningForce/Blockchain/Monero/MoneroJob.cs:82 | lower-case hex text is the hex text of the bytes it decodes to |
| Hex.ToHexInjective | src/MiningForce/Blockchain/Monero/MoneroJob.cs:94 | two hashes have equal hex text if and only if they are equal |
| Difficulty.TruncDiv | src/MiningForce/Blockchain/Monero/MoneroJob.cs:98 | the quotient of Diff1 rounds toward zero: the remainder is non-negative and smaller than the divisor's magnitude |
| Difficulty.ToInt64 | src/MiningForce/Blockchain/Monero/MoneroJob.cs:99 | `LongValue` lies in the signed 64-bit range and agrees with the value modulo 2^64 |
| Difficulty.ToInt64Fits | src/MiningForce/Blockchain/Monero/MoneroJob.cs:99 | a value already in the signed 64-bit range is kept by `LongValue` |
| Difficulty.SignedValue | src/MiningForce/Blockchain/Monero/MoneroJob.cs:98 | the constructed integer is the unsigned reading or that minus 256^n, and is negative exactly when the first byte has its top bit set |
| Difficulty.SignedLen | src/MiningForce/Blockchain/Monero/MoneroJob.cs:156 | `ToByteArray` writes at least one byte |
| Difficulty.ToByteArray | src/MiningForce/Blockchain/Monero/MoneroJob.cs:156 | the byte array has the minimal signed length |
| Difficulty.SignedLenBound | src/MiningForce/Blockchain/Monero/MoneroJob.cs:156 | `ToByteArray` of q takes at most n bytes if and only if q < 2^(8n-1) |
| Difficulty.ToByteArrayRoundTrip | src/MiningForce/Blockchain/Monero/MoneroJob.cs:156 | reading `ToByteArray(q)` back as a signed number gives q |
| Difficulty.TargetFits | src/MiningForce/Blockchain/Monero/MoneroJob.cs:154-159 | the quotient fits the 32-byte target buffer if and only if floor(difficulty) is at least 2 |
| Difficulty.PaddedToByteArray | src/MiningForce/Blockchain/Monero/MoneroJob.cs:157-159 | right-aligning `ToByteArray(q)` in zeroed bytes gives the fixed-width big-endian q |
| Difficulty.TargetBytes | src/MiningForce/Blockchain/Monero/MoneroJob.cs:161-163 | the compact target is four bytes |
| Difficulty.TargetIsTopWord | src/MiningForce/Blockchain/Monero/MoneroJob.cs:154-163 | read little-endian, the compact target is the top 32 bits of `Diff1 / floor(difficulty)` |
| Difficulty.HashValue | src/MiningForce/Blockchain/Monero/MoneroJob.cs:98 | the reversed hash is negative exactly when the hash's last byte has its top bit set |
| Difficulty.HashDifficulty | src/MiningForce/Blockchain/Monero/MoneroJob.cs:98-99 | the achieved difficulty lies in the signed 64-bit range |
| Difficulty.HashDifficultyUnsigned | src/MiningForce/Blockchain/Monero/MoneroJob.cs:98-99 | for a hash with its top bit clear and a quotient that fits 64 bits, the difficulty is exactly floor(Diff1 / hash value) |
| Difficulty.HashQuotientNegative | src/MiningForce/Blockchain/Monero/MoneroJob.cs:98 | for a hash with its top bit set, the 256-bit quotient is negative |
| Difficulty.ToInt64Unique | src/MiningForce/Blockchain/Monero/MoneroJob.cs:99 | `LongValue` is the one number in the signed 64-bit range that agrees with the value modulo 2^64 |
| Difficulty.AllOnesLow64 | src/MiningForce/Blockchain/Monero/MoneroJob.cs:98-99 | for a width of at least eight bytes, the low 64 bits of 1 - 256^n read as 1 |
| Difficulty.AllOnesHashDifficulty | src/MiningForce/Blockchain/Monero/MoneroJob.cs:98-99 | the all-0xFF hash has its top bit set and reads as -1, yet its difficulty after `LongValue` is 1 |
| Difficulty.FullWidthLow64 | src/MiningForce/Blockchain/Monero/MoneroJob.cs:98-99 | for a width of at least eight bytes, the low 64 bits of 256^n - 1 read as -1 |
| Difficulty.BestHashWraps | src/MiningForce/Blockchain/Monero/MoneroJob.cs:98-99 | the hash reading as 1 has a quotient of at least 2^64, and its difficulty after `LongValue` is -1 |
| Difficulty.FullWidthWide | src/MiningForce/Blockchain/Monero/MoneroJob.cs:98-99 | for a width of at least nine bytes, 256^n - 1 is at least 2^64 |
| Difficulty.TargetZeroExactly | src/MiningForce/Blockchain/Monero/MoneroJob.cs:154-163 | the compact target is four zero bytes if and only if floor(difficulty) is at least 2^32 |
| Difficulty.HashTopWord | src/MiningForce/Blockchain/Monero/MoneroJob.cs:98 | the last four hash bytes read little-endian are the top 32 bits of the hash's unsigned value |
| Difficulty.TargetAgreesWithHashDifficulty | src/MiningForce/Blockchain/Monero/MoneroJob.cs:98-99 | a hash whose top word lies below the target word and whose quotient fits 64 bits has a difficulty of at least floor(difficulty) |
| Monero.NextExtraNonce | src/MiningForce/Blockchain/Monero/MoneroJob.cs:57 | the 32-bit pre-increment: one more, and 0 after 2^32 - 1 |
| Monero.PreparedBlob | src/MiningForce/Blockchain/Monero/MoneroJob.cs:129-136 | the blob template keeps the decoded length; its layout is stated by `MoneroProperties.ExtraNonceBlobLayout` |
| Monero.WithExtraNonce | src/MiningForce/Blockchain/Monero/MoneroJob.cs:145-146 | injecting the extranonce keeps the blob length; its layout is stated by `MoneroProperties.ExtraNonceBlobLayout` |
| Monero.RebuiltBlob | src/MiningForce/Blockchain/Monero/MoneroJob.cs:74-83 | the rebuilt blob keeps the template length; its layout is stated by `MoneroProperties.RebuiltBlobLayout` |
| Monero.ValidNonce | src/MiningForce/Blockchain/Monero/MoneroJob.cs:70 | a nonce matching the pattern is hex text that decodes to four bytes and is the hex text of those bytes |
| Monero.EncodedBlob | src/MiningForce/Blockchain/Monero/MoneroJob.cs:138-150 | the worker blob exists if and only if the template with the extranonce injected converts, and it is then lower-case hex that decodes to the converted bytes |
| Monero.BelowStratumDifficulty | src/MiningForce/Blockchain/Monero/MoneroJob.cs:101-105 | the ratio of the achieved difficulty to the stratum difficulty is below 0.99 if and only if 100 * hashDiff < 99 * stratumDifficulty |
| Monero.ShareOutcome | src/MiningForce/Blockchain/Monero/MoneroJob.cs:63-125 | a valid nonce is refused as out of range if and only if its bytes would run past the blob; past that, the share is a malformed blob if and only if the rebuilt blob does not convert, and a division by zero if and only if the worker's hash is right and reads as 0 |
| Monero.WorkerJob.constructor | src/MiningForce/Blockchain/Monero/MoneroJob.cs:54-57 | a worker job starts with its difficulty and no height or extranonce assigned |
| Monero.MoneroJob.constructor | src/MiningForce/Blockchain/Monero/MoneroJob.cs:19-37 | a new job keeps its template, starts its counter at 0 and holds the prepared blob template |
| Monero.StampInstanceId | src/MiningForce/Blockchain/Monero/MoneroJob.cs:131-135 | a fresh array holding exactly the decoded template with the instance id's first three bytes after the extranonce bytes |
| Monero.MoneroJob.PrepareBlobTemplate | src/MiningForce/Blockchain/Monero/MoneroJob.cs:129-136 | the blob template array is exactly the decoded template with the instance id's first three bytes after the extranonce bytes |
| Monero.MoneroJob.PrepareWorkerJob | src/MiningForce/Blockchain/Monero/MoneroJob.cs:54-61 | the counter advances by one (mod 2^32), the worker job gets the template height and the new extranonce, and the result is the encoded blob for that extranonce and the target for the worker's difficulty |
| Monero.MoneroJob.CloneWithExtraNonce | src/MiningForce/Blockchain/Monero/MoneroJob.cs:141-146 | a fresh array equal to the blob template with the extranonce big-endian at the reserved offset; the template is not modified |
| Monero.MoneroJob.ProcessShare | src/MiningForce/Blockchain/Monero/MoneroJob.cs:63-125 | the returned share or error is `ShareOutcome` of the unchanged blob template: malformed nonce, nonce out of range, malformed blob, bad hash, division by zero, low difficulty, or the accepted share |
| Monero.MoneroJob.EncodeBlob | src/MiningForce/Blockchain/Monero/MoneroJob.cs:138-150 | the hex of the converted template with the extranonce injected, or None when conversion fails |
| Monero.MoneroJob.EncodeTarget | src/MiningForce/Blockchain/Monero/MoneroJob.cs:152-166 | eight hex digits encoding the reversed top four bytes of `Diff1 / floor(difficulty)` padded to 32 bytes |
| MoneroProperties.Issued | src/MiningForce/Blockchain/Monero/MoneroJob.cs:57 | k successive assignments hand out k extranonces |
| MoneroProperties.IssuedAt | src/MiningForce/Blockchain/Monero/MoneroJob.cs:57 | the i-th extranonce handed out is start + i + 1 modulo 2^32 |
| MoneroProperties.IssuedDistinct | src/MiningForce/Blockchain/Monero/MoneroJob.cs:57 | up to 2^32 successive assignments hand out pairwise distinct extranonces |
| MoneroProperties.IssuedIncreasing | src/MiningForce/Blockchain/Monero/MoneroJob.cs:57 | before the counter wraps, assignments hand out start + 1, start + 2, … |
| MoneroProperties.ExtraNonceBlobLayout | src/MiningForce/Blockchain/Monero/MoneroJob.cs:131-146 | the encoded blob holds the extranonce in [R, R+4), readable back, the instance id in [R+4, R+7), and the decoded template everywhere else |
| MoneroProperties.DistinctExtraNoncesDistinctBlobs | src/MiningForce/Blockchain/Monero/MoneroJob.cs:145-146 | different extranonces rebuild different blobs (before conversion) |
| MoneroProperties.DistinctInstancesDistinctBlobs | src/MiningForce/Blockchain/Monero/MoneroJob.cs:133-135 | pool instances with different id prefixes never build the same blob (before conversion), whatever extranonces they use |
| MoneroProperties.RebuiltBlobLayout | src/MiningForce/Blockchain/Monero/MoneroJob.cs:73-83 | when the nonce offset lies outside the reserved area, the rebuilt blob keeps extranonce, instance id and nonce each in its own range and the template elsewhere |
| MoneroProperties.MalformedNonceExactly | src/MiningForce/Blockchain/Monero/MoneroJob.cs:69-71 | a share is refused as a malformed nonce if and only if the nonce does not match the pattern |
| MoneroProperties.BadHashExactly | src/MiningForce/Blockchain/Monero/MoneroJob.cs:90-95 | once the blob converts, a claimed hash is refused if and only if it is not the lower-case hex of the slow hash |
| MoneroProperties.DifficultyDecides | src/MiningForce/Blockchain/Monero/MoneroJob.cs:97-114 | after the hash check, the share is refused for low difficulty if and only if 100 * hashDiff < 99 * stratumDifficulty, and accepted otherwise (the 0.99 boundary is accepted) |
| MoneroProperties.NegativeHashAccepted | src/MiningForce/Blockchain/Monero/MoneroJob.cs:97-124 | a share whose slow hash is all 0xFF reads as a negative number and is still accepted at stratum difficulty 1 |
| MoneroProperties.BestHashRefused | src/MiningForce/Blockchain/Monero/MoneroJob.cs:97-105 | a share whose slow hash reads as 1 is refused as a low-difficulty share with difficulty -1, whatever the positive stratum difficulty |
| MoneroProperties.ZeroTargetText | src/MiningForce/Blockchain/Monero/MoneroJob.cs:152-166 | the target text is "00000000" if and only if floor(difficulty) is at least 2^32 |
| MoneroProperties.AcceptedShare | src/MiningForce/Blockchain/Monero/MoneroJob.cs:107-124 | an accepted share has a positive difficulty of at least 0.99 times the stratum difficulty, the template height, the worker hash equal to the slow hash of the converted rebuilt blob, and blob hex and fast hash set if and only if it is a block candidate, that is if and only if its difficulty reaches the network difficulty; the blob hex decodes to the rebuilt blob |

## Left out

- `Abstractions.cs` (the share interface, the network stats and the job-manager interface) is not part of this model. `MoneroShare` is modelled by the fields `ProcessShare` fills in, and `MoneroWorkerJob` by the height, extranonce and difficulty the job uses.
- The native `LibCryptoNote` functions are parameters (`CryptoNote.Library`), because their code is not part of this model.
- `MoneroConstants` is not part of this model. Its values are the ones given above.
- The regular expression engine and the `HexToByteArray`/`ToHexString` extensions are modelled by what they compute, not by their code. For `HexToByteArray` that is two hex digits of either case per byte.
- The pool and cluster configuration, the job id, the network type, `Init`, `ProcessShareInternal` and the commented-out JSON fixture in the constructor have no effect on the modelled behaviour, so they are left out.
- Concurrency: the `++extraNonce` in the source is not atomic. The model has sequential calls only.
- Monero.MoneroJob.ProcessShare: the `Contract.Requires` checks on the nonce, the worker hash and the job's counter are preconditions, not `ArgumentException`s. `stratumDifficulty` must be positive, because a zero or negative double divisor is floating-point behaviour not modelled here.
- Monero.MoneroJob.ProcessShare: the doubles are exact reals. The ratio `hashDiffLong / stratumDifficulty` ignores rounding of `long`-to-`double` conversion above 2^53.
- Monero.MoneroJob.EncodeTarget: requires 2 <= floor(difficulty) < 2^63. For a floor of 1 the quotient needs 33 bytes and `Buffer.BlockCopy` throws (`Difficulty.TargetFits`). The `(long)` cast truncates toward zero. For -1 < difficulty < 1 it gives 0 and `Divide` throws a division by zero. For -2 < difficulty <= -1 it gives -1, the quotient -Diff1 needs 33 bytes and `Buffer.BlockCopy` throws. For difficulty <= -2 the source returns a target built from the negative quotient's two's complement bytes. None of these cases is modelled; a difficulty of 0 or below is treated as a caller error. The `(long)` cast of a double outside the 64-bit range is floating-point behaviour not modelled here.
- Monero.MoneroJob.PrepareWorkerJob: requires the same difficulty range as `EncodeTarget`. When conversion fails, the source's `ToHexString` on a null array is modelled as `None`. The counter and the worker job are already updated at that point, as in the source.
- Monero.MoneroJob.constructor: takes a template whose decoded blob is long enough for the reserved area. For a shorter blob the source's `Buffer.BlockCopy` throws and no job exists. A well-formed hex blob is a caller precondition, because `HexToByteArray`'s code is not part of this model.
- Monero.MoneroJob.constructor: requires an instance id of at least three bytes. For a shorter id the source's `Buffer.BlockCopy` throws an `ArgumentException` and no job exists.
- Monero.MoneroJob.constructor: the instance id is a byte sequence, not a caller-owned array. The job only copies three bytes from it once, so aliasing plays no part.
- The `BitConverter.GetBytes(ToBigEndian())` pair is modelled as writing the extranonce big-endian. That is its effect on the little-endian hosts the pool runs on.
- A share whose hash reads as 0 makes `BigInteger.Divide` throw. The model returns the error `DivideByZero`. A nonce whose bytes would fall outside the blob makes `Buffer.BlockCopy` throw. The model returns the error `NonceOutOfRange`.

/**
 * What the Monero job guarantees across calls: distinct extranonces, the
 * layout of the blobs it hands out and rebuilds, and the decision ladder
 * of share validation.
 */
module MoneroProperties {
  import opened Wrappers
  import opened Bytes
  import opened Hex
  import opened Difficulty
  import opened CryptoNote
  import opened Monero

  // ----- Extranonce assignment -----

  /** The extranonces that k successive `PrepareWorkerJob` calls return, from counter value `start`. */
  function Issued(start: uint32, k: nat): (s: seq<uint32>)
    ensures |s| == k
    decreases k
  {
    if k == 0 then [] else [NextExtraNonce(start)] + Issued(NextExtraNonce(start), k - 1)
  }

  /** The i-th extranonce handed out is the start value plus i + 1, modulo 2^32. */
  lemma {:induction false} IssuedAt(start: uint32, k: nat, i: nat)
    requires i < k
    ensures Issued(start, k)[i] == (start + i + 1) % UInt32Limit
    decreases k
  {
    if i > 0 {
      IssuedAt(NextExtraNonce(start), k - 1, i - 1);
      ModShift(start + 1, i, UInt32Limit);
    } else {
      assert Issued(start, k)[0] == NextExtraNonce(start);
    }
  }

  /** Reducing the left operand first does not change a sum modulo m. */
  lemma ModShift(a: nat, b: nat, m: nat)
    requires m > 0
    ensures (a % m + b) % m == (a + b) % m
  {
    var q1, r1 := a / m, a % m;
    var q2, r2 := (r1 + b) / m, (r1 + b) % m;
    assert a + b == m * q1 + (r1 + b);
    assert r1 + b == m * q2 + r2;
    assert a + b == m * (q1 + q2) + r2;
    DivUniqueInt(a + b, m, q1 + q2, r2);
  }

  /** Two values less than m apart, but apart, differ modulo m. */
  lemma ModApart(x: nat, d: nat, m: nat)
    requires 0 < d < m
    ensures x % m != (x + d) % m
  {
    var r := x % m;
    ModShift(x, d, m);
    if r + d < m {
      DivUniqueInt(r + d, m, 0, r + d);
    } else {
      DivUniqueInt(r + d, m, 1, r + d - m);
    }
  }

  /** Up to 2^32 successive assignments hand out pairwise distinct extranonces. */
  lemma IssuedDistinct(start: uint32, k: nat)
    requires k <= UInt32Limit
    ensures forall i, j :: 0 <= i < j < k ==> Issued(start, k)[i] != Issued(start, k)[j]
  {
    forall i, j | 0 <= i < j < k
      ensures Issued(start, k)[i] != Issued(start, k)[j]
    {
      IssuedAt(start, k, i);
      IssuedAt(start, k, j);
      ModApart(start + i + 1, j - i, UInt32Limit);
    }
  }

  /** Before the counter reaches 2^32 - 1, each assignment hands out exactly one more than the last. */
  lemma IssuedIncreasing(start: uint32, k: nat)
    requires start + k < UInt32Limit
    ensures forall i :: 0 <= i < k ==> Issued(start, k)[i] == start + i + 1
  {
    forall i | 0 <= i < k
      ensures Issued(start, k)[i] == start + i + 1
    {
      IssuedAt(start, k, i);
    }
  }

  // ----- Blob layout -----

  /**
   * The blob `EncodeBlob` converts: the extranonce big-endian in
   * [R, R+4), the instance id in [R+4, R+7), the decoded template elsewhere;
   * the extranonce reads back from its four bytes.
   */
  lemma ExtraNonceBlobLayout(decoded: seq<byte>, r: nat, instanceId: seq<byte>, extraNonce: uint32)
    requires r + ExtraNonceSize + InstanceIdSize <= |decoded| && |instanceId| >= InstanceIdSize
    ensures var b := WithExtraNonce(PreparedBlob(decoded, r, instanceId), r, extraNonce);
      && |b| == |decoded|
      && b[r..r + 4] == BigEndian(extraNonce, 4)
      && FromBigEndian(b[r..r + 4]) == extraNonce
      && b[r + 4..r + 7] == instanceId[..3]
      && forall i :: 0 <= i < |decoded| && !(r <= i < r + 7) ==> b[i] == decoded[i]
  {
    var b := WithExtraNonce(PreparedBlob(decoded, r, instanceId), r, extraNonce);
    assert b[r..r + 4] == BigEndian(extraNonce, 4);
    assert b[r + 4..r + 7] == instanceId[..3];
    BigEndianRoundTrip(extraNonce, 4);
  }

  /** Workers given different extranonces for the same job rebuild different blobs (before conversion). */
  lemma DistinctExtraNoncesDistinctBlobs(template: seq<byte>, r: nat, a: uint32, b: uint32)
    requires r + ExtraNonceSize <= |template|
    requires a != b
    ensures WithExtraNonce(template, r, a) != WithExtraNonce(template, r, b)
  {
    var ba, bb := WithExtraNonce(template, r, a), WithExtraNonce(template, r, b);
    assert ba[r..r + 4] == BigEndian(a, 4);
    assert bb[r..r + 4] == BigEndian(b, 4);
    BigEndianRoundTrip(a, 4);
    BigEndianRoundTrip(b, 4);
  }

  /** Pool instances whose ids differ in the first three bytes never build the same blob (before conversion). */
  lemma DistinctInstancesDistinctBlobs(
    decoded: seq<byte>, r: nat, id1: seq<byte>, id2: seq<byte>, a: uint32, b: uint32)
    requires r + ExtraNonceSize + InstanceIdSize <= |decoded|
    requires |id1| >= InstanceIdSize && |id2| >= InstanceIdSize
    requires id1[..3] != id2[..3]
    ensures WithExtraNonce(PreparedBlob(decoded, r, id1), r, a) != WithExtraNonce(PreparedBlob(decoded, r, id2), r, b)
  {
    ExtraNonceBlobLayout(decoded, r, id1, a);
    ExtraNonceBlobLayout(decoded, r, id2, b);
  }

  /**
   * The blob `ProcessShare` hashes, when the nonce bytes lie outside the
   * reserved area: extranonce, instance id and nonce each in their own
   * range, the decoded template elsewhere.
   */
  lemma RebuiltBlobLayout(decoded: seq<byte>, r: nat, instanceId: seq<byte>, extraNonce: uint32, nonceBytes: seq<byte>)
    requires r + ExtraNonceSize + InstanceIdSize <= |decoded| && |instanceId| >= InstanceIdSize
    requires |nonceBytes| == 4 && BlobNonceOffset + 4 <= |decoded|
    requires BlobNonceOffset + 4 <= r || r + 7 <= BlobNonceOffset
    ensures var b := RebuiltBlob(PreparedBlob(decoded, r, instanceId), r, extraNonce, nonceBytes);
      && |b| == |decoded|
      && b[r..r + 4] == BigEndian(extraNonce, 4)
      && b[r + 4..r + 7] == instanceId[..3]
      && b[BlobNonceOffset..BlobNonceOffset + 4] == nonceBytes
      && forall i :: 0 <= i < |decoded| && !(r <= i < r + 7) && !(BlobNonceOffset <= i < BlobNonceOffset + 4) ==>
           b[i] == decoded[i]
  {
    var prepared := PreparedBlob(decoded, r, instanceId);
    var withExtra := WithExtraNonce(prepared, r, extraNonce);
    var b := RebuiltBlob(prepared, r, extraNonce, nonceBytes);
    ExtraNonceBlobLayout(decoded, r, instanceId, extraNonce);
    assert b[r..r + 4] == withExtra[r..r + 4];
    assert b[r + 4..r + 7] == withExtra[r + 4..r + 7];
    assert b[BlobNonceOffset..BlobNonceOffset + 4] == nonceBytes;
  }

  // ----- Share validation -----

  /** A nonce outside the pattern is refused first, and nothing else is refused as a malformed nonce. */
  lemma MalformedNonceExactly(
    blob: seq<byte>, template: BlockTemplate, nonce: string, extraNonce: uint32,
    workerHash: string, stratumDifficulty: real, lib: Library)
    requires template.reservedOffset + ExtraNonceSize <= |blob| && stratumDifficulty > 0.0
    ensures ShareOutcome(blob, template, nonce, extraNonce, workerHash, stratumDifficulty, lib) == Err(MalformedNonce)
            <==> !ValidNonce(nonce)
  {
  }

  /**
   * Once the rebuilt blob converts, a claimed hash given as the hex of 32
   * bytes is refused as a bad hash exactly when those bytes are not the
   * slow hash of the converted blob; a claim that is not lower-case hex
   * is always refused.
   */
  lemma BadHashExactly(
    blob: seq<byte>, template: BlockTemplate, nonce: string, extraNonce: uint32,
    workerHash: string, stratumDifficulty: real, lib: Library, converted: seq<byte>)
    requires template.reservedOffset + ExtraNonceSize <= |blob| && stratumDifficulty > 0.0
    requires ValidNonce(nonce) && BlobNonceOffset + NonceHexLength / 2 <= |blob|
    requires lib.convertBlob(RebuiltBlob(blob, template.reservedOffset, extraNonce, HexToBytes(nonce))) == Some(converted)
    ensures IsHex(workerHash) ==>
              (ShareOutcome(blob, template, nonce, extraNonce, workerHash, stratumDifficulty, lib) == Err(BadHash)
               <==> HexToBytes(workerHash) != lib.slowHash(converted) || !IsLowerHex(workerHash))
    ensures !IsHex(workerHash) ==>
              ShareOutcome(blob, template, nonce, extraNonce, workerHash, stratumDifficulty, lib) == Err(BadHash)
  {
    var hash := lib.slowHash(converted);
    if IsHex(workerHash) && IsLowerHex(workerHash) {
      LowerHexRoundTrip(workerHash);
      ToHexInjective(hash, HexToBytes(workerHash));
    }
  }

  /**
   * Past the hash check and a non-zero hash value, the share is refused
   * for low difficulty exactly when 100 * hashDiff < 99 * stratumDifficulty,
   * and accepted otherwise; a share exactly at the 0.99 boundary is accepted.
   */
  lemma DifficultyDecides(
    blob: seq<byte>, template: BlockTemplate, nonce: string, extraNonce: uint32,
    stratumDifficulty: real, lib: Library, converted: seq<byte>)
    requires template.reservedOffset + ExtraNonceSize <= |blob| && stratumDifficulty > 0.0
    requires ValidNonce(nonce) && BlobNonceOffset + NonceHexLength / 2 <= |blob|
    requires lib.convertBlob(RebuiltBlob(blob, template.reservedOffset, extraNonce, HexToBytes(nonce))) == Some(converted)
    requires HashValue(lib.slowHash(converted)) != 0
    ensures var hashDiff := HashDifficulty(lib.slowHash(converted));
      var outcome := ShareOutcome(blob, template, nonce, extraNonce, ToHex(lib.slowHash(converted)), stratumDifficulty, lib);
      && (outcome == Err(LowDifficulty(hashDiff)) <==> 100.0 * (hashDiff as real) < 99.0 * stratumDifficulty)
      && (outcome.Ok? <==> 100.0 * (hashDiff as real) >= 99.0 * stratumDifficulty)
  {
  }

  /**
   * A hash whose last byte has its top bit set reads as a negative number,
   * yet only the low 64 bits of the quotient are compared: the all-0xFF
   * hash gives the difficulty 1 and is accepted at stratum difficulty 1.
   */
  lemma NegativeHashAccepted(
    blob: seq<byte>, template: BlockTemplate, nonce: string, extraNonce: uint32,
    lib: Library, converted: seq<byte>)
    requires template.reservedOffset + ExtraNonceSize <= |blob|
    requires ValidNonce(nonce) && BlobNonceOffset + NonceHexLength / 2 <= |blob|
    requires lib.convertBlob(RebuiltBlob(blob, template.reservedOffset, extraNonce, HexToBytes(nonce))) == Some(converted)
    requires lib.slowHash(converted) == seq(32, _ => 255)
    ensures HashValue(lib.slowHash(converted)) < 0
    ensures ShareOutcome(blob, template, nonce, extraNonce, ToHex(lib.slowHash(converted)), 1.0, lib).Ok?
  {
    AllOnesHashDifficulty();
    DifficultyDecides(blob, template, nonce, extraNonce, 1.0, lib, converted);
  }

  /**
   * The best hashes are refused: a slow hash reading as 1 gives a quotient
   * whose low 64 bits read as -1, so the share is a low-difficulty share
   * whatever the stratum difficulty.
   */
  lemma BestHashRefused(
    blob: seq<byte>, template: BlockTemplate, nonce: string, extraNonce: uint32,
    stratumDifficulty: real, lib: Library, converted: seq<byte>)
    requires template.reservedOffset + ExtraNonceSize <= |blob| && stratumDifficulty > 0.0
    requires ValidNonce(nonce) && BlobNonceOffset + NonceHexLength / 2 <= |blob|
    requires lib.convertBlob(RebuiltBlob(blob, template.reservedOffset, extraNonce, HexToBytes(nonce))) == Some(converted)
    requires lib.slowHash(converted) == [1] + Zeros(31)
    ensures HashValue(lib.slowHash(converted)) == 1
    ensures ShareOutcome(blob, template, nonce, extraNonce, ToHex(lib.slowHash(converted)), stratumDifficulty, lib)
            == Err(LowDifficulty(-1))
  {
    BestHashWraps();
    DifficultyDecides(blob, template, nonce, extraNonce, stratumDifficulty, lib, converted);
  }

  /** Workers whose difficulty truncates to 2^32 or more are sent the all-zero target text. */
  lemma ZeroTargetText(difficulty: real)
    requires 2 <= difficulty.Floor
    ensures ToHex(TargetBytes(difficulty)) == "00000000" <==> difficulty.Floor >= Pow256(4)
  {
    TargetZeroExactly(difficulty);
    assert ToHex(Zeros(4)) == "00000000";
    ToHexInjective(TargetBytes(difficulty), Zeros(4));
  }

  /**
   * Every accepted share: the claimed hash is the slow hash of the
   * converted rebuilt blob, the difficulty is positive and at least 0.99
   * times the stratum difficulty, the height is the template's, and the blob hex and
   * fast hash are set exactly for block candidates, which are the shares
   * reaching the network difficulty; the blob hex decodes to the rebuilt blob.
   */
  lemma AcceptedShare(
    blob: seq<byte>, template: BlockTemplate, nonce: string, extraNonce: uint32,
    workerHash: string, stratumDifficulty: real, lib: Library)
    requires template.reservedOffset + ExtraNonceSize <= |blob| && stratumDifficulty > 0.0
    requires ShareOutcome(blob, template, nonce, extraNonce, workerHash, stratumDifficulty, lib).Ok?
    ensures ValidNonce(nonce) && BlobNonceOffset + NonceHexLength / 2 <= |blob|
    ensures var rebuilt := RebuiltBlob(blob, template.reservedOffset, extraNonce, HexToBytes(nonce));
      var s := ShareOutcome(blob, template, nonce, extraNonce, workerHash, stratumDifficulty, lib).value;
      && lib.convertBlob(rebuilt).Some?
      && workerHash == ToHex(lib.slowHash(lib.convertBlob(rebuilt).value))
      && s.difficulty == s.normalizedDifficulty == HashDifficulty(lib.slowHash(lib.convertBlob(rebuilt).value))
      && s.difficulty >= 1
      && 100.0 * (s.difficulty as real) >= 99.0 * stratumDifficulty
      && s.stratumDifficulty == stratumDifficulty
      && s.blockHeight == template.height
      && (s.isBlockCandidate <==> s.difficulty >= template.difficulty)
      && (s.blobHex.Some? <==> s.isBlockCandidate)
      && (s.blobHash.Some? <==> s.isBlockCandidate)
      && (s.isBlockCandidate ==>
            HexToBytes(s.blobHex.value) == rebuilt
            && s.blobHash == Some(ToHex(lib.fastHash(lib.convertBlob(rebuilt).value))))
  {
    var rebuilt := RebuiltBlob(blob, template.reservedOffset, extraNonce, HexToBytes(nonce));
    var converted := lib.convertBlob(rebuilt).value;
    var hashDiff := HashDifficulty(lib.slowHash(converted));
    HexRoundTrip(rebuilt);
  }

  /** Example: a fresh job hands its first worker the extranonce 1. */
  method FirstAssignment(blobHex: string, height: nat, difficulty: int, lib: Library)
    requires IsHex(blobHex) && 107 <= |blobHex| / 2
  {
    var job := new MoneroJob(BlockTemplate(blobHex, 100, height, difficulty), [0xAA, 0xBB, 0xCC, 0x00]);
    var workerJob := new WorkerJob(1000.0);
    var assignment := job.PrepareWorkerJob(workerJob, lib);
    assert workerJob.extraNonce == 1 && workerJob.height == height;
    assert job.blobTemplate[104..107] == [0xAA, 0xBB, 0xCC];
  }
}

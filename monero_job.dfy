/**
 * The Monero job: one block template turned into per-worker work, and the
 * checks applied to the shares workers submit for it.
 */
module Monero {
  import opened Wrappers
  import opened Bytes
  import opened Hex
  import opened Difficulty
  import opened CryptoNote

  /** Bytes of the extranonce at the start of the reserved area. */
  const ExtraNonceSize: nat := 4
  /** Bytes of the pool instance id written right after the extranonce. */
  const InstanceIdSize: nat := 3
  /** Where a worker's nonce sits in a Monero block blob. */
  const BlobNonceOffset: nat := 39
  /** Hex digits of a valid nonce. */
  const NonceHexLength: nat := 8

  const UInt32Limit: int := 0x1_0000_0000

  type uint32 = x: int | 0 <= x < 0x1_0000_0000

  /** What the job uses of the daemon's block template. */
  datatype BlockTemplate = BlockTemplate(blob: string, reservedOffset: nat, height: nat, difficulty: int)

  /** `MoneroShare`: the fields `ProcessShare` fills in. */
  datatype Share = Share(
    difficulty: int,
    normalizedDifficulty: int,
    stratumDifficulty: real,
    blockHeight: nat,
    isBlockCandidate: bool,
    blobHex: Option<string>,
    blobHash: Option<string>)

  /**
   * Why a share is refused. The first four are the stratum errors of the
   * job; the last two are the exceptions `Buffer.BlockCopy` and
   * `BigInteger.Divide` raise on the inputs named.
   */
  datatype ShareError =
    | MalformedNonce
    | MalformedBlob
    | BadHash
    | LowDifficulty(hashDiff: int)
    | NonceOutOfRange
    | DivideByZero

  /** The blob hex and target hex handed to a worker. */
  datatype WorkerAssignment = WorkerAssignment(blob: string, target: string)

  /**
   * `MoneroConstants.RegexValidNonce`: exactly eight lower-case hex digits.
   * A valid nonce decodes to the four bytes written into the blob, and is
   * the hex text of those bytes.
   */
  function ValidNonce(nonce: string): (ok: bool)
    ensures ok ==> IsHex(nonce) && |HexToBytes(nonce)| == NonceHexLength / 2
    ensures ok ==> ToHex(HexToBytes(nonce)) == nonce
  {
    if |nonce| == NonceHexLength && forall i :: 0 <= i < |nonce| ==> IsLowerHexDigit(nonce[i]) then
      LowerHexRoundTrip(nonce);
      true
    else
      false
  }

  /** The 32-bit `++extraNonce`: one more, wrapping to 0 after the largest value. */
  function NextExtraNonce(x: uint32): (r: uint32)
    ensures x + 1 < UInt32Limit ==> r == x + 1
    ensures x + 1 == UInt32Limit ==> r == 0
  {
    (x + 1) % UInt32Limit
  }

  /** The blob template: the decoded template with the instance id after the extranonce bytes. */
  function PreparedBlob(decoded: seq<byte>, reservedOffset: nat, instanceId: seq<byte>): (b: seq<byte>)
    requires reservedOffset + ExtraNonceSize + InstanceIdSize <= |decoded|
    requires |instanceId| >= InstanceIdSize
    ensures |b| == |decoded|
  {
    Splice(decoded, reservedOffset + ExtraNonceSize, instanceId[..InstanceIdSize])
  }

  /** A blob with the extranonce written big-endian at the reserved offset. */
  function WithExtraNonce(blob: seq<byte>, reservedOffset: nat, extraNonce: uint32): (b: seq<byte>)
    requires reservedOffset + ExtraNonceSize <= |blob|
    ensures |b| == |blob|
  {
    Splice(blob, reservedOffset, BigEndian(extraNonce, ExtraNonceSize))
  }

  /** The blob a worker hashed: extranonce at the reserved offset, then the nonce at its offset. */
  function RebuiltBlob(blob: seq<byte>, reservedOffset: nat, extraNonce: uint32, nonceBytes: seq<byte>): (b: seq<byte>)
    requires reservedOffset + ExtraNonceSize <= |blob|
    requires BlobNonceOffset + |nonceBytes| <= |blob|
    ensures |b| == |blob|
  {
    Splice(WithExtraNonce(blob, reservedOffset, extraNonce), BlobNonceOffset, nonceBytes)
  }

  /**
   * What `EncodeBlob` returns for a blob template and an extranonce: text
   * exactly when the blob with the extranonce converts, and then lower-case
   * hex that the worker decodes back to the converted blob.
   */
  function EncodedBlob(blob: seq<byte>, reservedOffset: nat, extraNonce: uint32, lib: Library): (r: Option<string>)
    requires reservedOffset + ExtraNonceSize <= |blob|
    ensures r.Some? <==> lib.convertBlob(WithExtraNonce(blob, reservedOffset, extraNonce)).Some?
    ensures r.Some? ==>
              IsLowerHex(r.value)
              && HexToBytes(r.value) == lib.convertBlob(WithExtraNonce(blob, reservedOffset, extraNonce)).value
  {
    match lib.convertBlob(WithExtraNonce(blob, reservedOffset, extraNonce))
    case None => None
    case Some(converted) =>
      HexRoundTrip(converted);
      Some(ToHex(converted))
  }

  /**
   * `hashDiffLong / stratumDifficulty < 0.99`, with exact reals for the
   * doubles: cross-multiplied, the share is short exactly when
   * 100 * hashDiff < 99 * stratumDifficulty.
   */
  function BelowStratumDifficulty(hashDiff: int, stratumDifficulty: real): (below: bool)
    requires stratumDifficulty > 0.0
    ensures below <==> 100.0 * (hashDiff as real) < 99.0 * stratumDifficulty
  {
    var ratio := (hashDiff as real) / stratumDifficulty;
    assert ratio * stratumDifficulty == hashDiff as real;
    if ratio < 0.99 then
      assert ratio * stratumDifficulty < 0.99 * stratumDifficulty;
      true
    else
      assert ratio * stratumDifficulty >= 0.99 * stratumDifficulty;
      false
  }

  /**
   * The outcome of `ProcessShare` for a blob template and a submission.
   * A valid nonce is refused as out of range exactly when its four bytes
   * would run past the blob; past that, the share is a malformed blob
   * exactly when the rebuilt blob does not convert, and a division by zero
   * exactly when the worker's hash is right and reads as the number 0.
   */
  function ShareOutcome(
    blob: seq<byte>, template: BlockTemplate, nonce: string, workerExtraNonce: uint32,
    workerHash: string, stratumDifficulty: real, lib: Library): (r: Result<Share, ShareError>)
    requires template.reservedOffset + ExtraNonceSize <= |blob|
    requires stratumDifficulty > 0.0
    ensures r == Err(NonceOutOfRange) <==> ValidNonce(nonce) && |blob| < BlobNonceOffset + NonceHexLength / 2
    ensures r == Err(MalformedBlob) <==>
              ValidNonce(nonce) && BlobNonceOffset + NonceHexLength / 2 <= |blob|
              && lib.convertBlob(RebuiltBlob(blob, template.reservedOffset, workerExtraNonce, HexToBytes(nonce))).None?
    ensures r == Err(DivideByZero) <==>
              ValidNonce(nonce) && BlobNonceOffset + NonceHexLength / 2 <= |blob|
              && (var converted := lib.convertBlob(RebuiltBlob(blob, template.reservedOffset, workerExtraNonce, HexToBytes(nonce)));
                  converted.Some?
                  && ToHex(lib.slowHash(converted.value)) == workerHash
                  && HashValue(lib.slowHash(converted.value)) == 0)
  {
    if !ValidNonce(nonce) then Err(MalformedNonce)
    else
      var nonceBytes := HexToBytes(nonce);
      if BlobNonceOffset + |nonceBytes| > |blob| then Err(NonceOutOfRange)
      else
        var rebuilt := RebuiltBlob(blob, template.reservedOffset, workerExtraNonce, nonceBytes);
        match lib.convertBlob(rebuilt)
        case None => Err(MalformedBlob)
        case Some(converted) =>
          var hashBytes := lib.slowHash(converted);
          if ToHex(hashBytes) != workerHash then Err(BadHash)
          else if HashValue(hashBytes) == 0 then Err(DivideByZero)
          else
            var hashDiff := HashDifficulty(hashBytes);
            if BelowStratumDifficulty(hashDiff, stratumDifficulty) then Err(LowDifficulty(hashDiff))
            else
              var candidate := hashDiff >= template.difficulty;
              Ok(Share(
                hashDiff, hashDiff, stratumDifficulty, template.height, candidate,
                if candidate then Some(ToHex(rebuilt)) else None,
                if candidate then Some(ToHex(lib.fastHash(converted))) else None))
  }

  /** `MoneroWorkerJob`: the fields the job reads and writes. */
  class WorkerJob {
    var height: nat
    var extraNonce: uint32
    var difficulty: real

    constructor (difficulty: real)
      ensures this.difficulty == difficulty && height == 0 && extraNonce == 0
    {
      this.difficulty := difficulty;
      height := 0;
      extraNonce := 0;
    }
  }

  /** A fresh copy of the decoded template with the instance id bytes written after the extranonce bytes. */
  method StampInstanceId(decoded: seq<byte>, reservedOffset: nat, instanceId: seq<byte>) returns (prepared: array<byte>)
    requires reservedOffset + ExtraNonceSize + InstanceIdSize <= |decoded|
    requires |instanceId| >= InstanceIdSize
    ensures fresh(prepared)
    ensures prepared[..] == PreparedBlob(decoded, reservedOffset, instanceId)
  {
    prepared := new byte[|decoded|](i requires 0 <= i < |decoded| => decoded[i]);
    assert prepared[..] == decoded;
    BlockCopy(instanceId, 0, prepared, reservedOffset + ExtraNonceSize, InstanceIdSize);
    assert instanceId[0..InstanceIdSize] == instanceId[..InstanceIdSize];
  }

  class MoneroJob {
    const template: BlockTemplate
    /** The pool instance id the blob template was built with. */
    ghost const instanceId: seq<byte>
    var blobTemplate: array<byte>
    var extraNonce: uint32

    /** The blob template is the decoded template with the instance id in place. */
    ghost predicate Valid()
      reads this, blobTemplate
    {
      IsHex(template.blob)
      && template.reservedOffset + ExtraNonceSize + InstanceIdSize <= |template.blob| / 2
      && |instanceId| >= InstanceIdSize
      && template.reservedOffset + ExtraNonceSize + InstanceIdSize <= blobTemplate.Length
      && blobTemplate[..] == PreparedBlob(HexToBytes(template.blob), template.reservedOffset, instanceId)
    }

    constructor (blockTemplate: BlockTemplate, instanceId: seq<byte>)
      requires IsHex(blockTemplate.blob)
      requires blockTemplate.reservedOffset + ExtraNonceSize + InstanceIdSize <= |blockTemplate.blob| / 2
      requires |instanceId| >= InstanceIdSize
      ensures Valid() && fresh(blobTemplate)
      ensures template == blockTemplate && this.instanceId == instanceId && extraNonce == 0
    {
      template := blockTemplate;
      this.instanceId := instanceId;
      extraNonce := 0;
      blobTemplate := new byte[0];
      new;
      PrepareBlobTemplate(instanceId);
    }

    /** Decodes the template and writes the first three instance id bytes after the extranonce bytes. */
    method PrepareBlobTemplate(instanceId: seq<byte>)
      requires IsHex(template.blob)
      requires template.reservedOffset + ExtraNonceSize + InstanceIdSize <= |template.blob| / 2
      requires |instanceId| >= InstanceIdSize
      modifies this`blobTemplate
      ensures fresh(blobTemplate)
      ensures blobTemplate[..] == PreparedBlob(HexToBytes(template.blob), template.reservedOffset, instanceId)
    {
      var decoded := HexToBytes(template.blob);
      blobTemplate := StampInstanceId(decoded, template.reservedOffset, instanceId);
    }

    /**
     * Stamps the worker job with the template height and the next
     * extranonce, then encodes the blob and the target for the worker.
     * None: the blob conversion failed after the counter had moved on.
     */
    method PrepareWorkerJob(workerJob: WorkerJob, lib: Library) returns (r: Option<WorkerAssignment>)
      requires Valid()
      requires 2 <= workerJob.difficulty.Floor < TwoPow63
      modifies this`extraNonce, workerJob`height, workerJob`extraNonce
      ensures Valid()
      ensures extraNonce == NextExtraNonce(old(extraNonce))
      ensures workerJob.height == template.height && workerJob.extraNonce == extraNonce
      ensures r == match EncodedBlob(blobTemplate[..], template.reservedOffset, extraNonce, lib)
                   case None => None
                   case Some(blob) => Some(WorkerAssignment(blob, ToHex(TargetBytes(workerJob.difficulty))))
    {
      workerJob.height := template.height;
      extraNonce := NextExtraNonce(extraNonce);
      workerJob.extraNonce := extraNonce;
      assert Valid();
      var blob := EncodeBlob(workerJob.extraNonce, lib);
      if blob.None? {
        return None;
      }
      var target := EncodeTarget(workerJob.difficulty);
      r := Some(WorkerAssignment(blob.value, target));
    }

    /** A fresh copy of the blob template with the extranonce written big-endian at the reserved offset. */
    method CloneWithExtraNonce(workerExtraNonce: uint32) returns (blob: array<byte>)
      requires Valid()
      ensures fresh(blob)
      ensures blob[..] == WithExtraNonce(blobTemplate[..], template.reservedOffset, workerExtraNonce)
    {
      var source := blobTemplate[..];
      blob := new byte[blobTemplate.Length];
      ghost var zeros := blob[..];
      BlockCopy(source, 0, blob, 0, |source|);
      assert source[0..|source|] == source;
      SpliceWhole(zeros, source);
      BlockCopy(BigEndian(workerExtraNonce, ExtraNonceSize), 0, blob, template.reservedOffset, ExtraNonceSize);
    }

    /** Rebuilds and checks a submitted share; the job itself is only read. */
    method ProcessShare(nonce: string, workerExtraNonce: uint32, workerHash: string, stratumDifficulty: real, lib: Library)
      returns (r: Result<Share, ShareError>)
      requires Valid()
      requires |nonce| > 0 && |workerHash| > 0 && extraNonce != 0
      requires stratumDifficulty > 0.0
      ensures r == ShareOutcome(blobTemplate[..], template, nonce, workerExtraNonce, workerHash, stratumDifficulty, lib)
    {
      if !ValidNonce(nonce) {
        return Err(MalformedNonce);
      }
      var blob := CloneWithExtraNonce(workerExtraNonce);
      var nonceBytes := HexToBytes(nonce);
      if BlobNonceOffset + |nonceBytes| > blob.Length {
        return Err(NonceOutOfRange);
      }
      BlockCopy(nonceBytes, 0, blob, BlobNonceOffset, |nonceBytes|);
      assert blob[..] == RebuiltBlob(blobTemplate[..], template.reservedOffset, workerExtraNonce, nonceBytes);

      var converted := lib.convertBlob(blob[..]);
      if converted.None? {
        return Err(MalformedBlob);
      }
      var hashBytes := lib.slowHash(converted.value);
      if ToHex(hashBytes) != workerHash {
        return Err(BadHash);
      }
      var value := HashValue(hashBytes);
      if value == 0 {
        return Err(DivideByZero);
      }
      var hashDiffLong := ToInt64(TruncDiv(Diff1, value));
      if (hashDiffLong as real) / stratumDifficulty < 0.99 {
        return Err(LowDifficulty(hashDiffLong));
      }
      var share := Share(hashDiffLong, hashDiffLong, stratumDifficulty, template.height, false, None, None);
      if hashDiffLong >= template.difficulty {
        share := share.(
          isBlockCandidate := true,
          blobHex := Some(ToHex(blob[..])),
          blobHash := Some(ToHex(lib.fastHash(converted.value))));
      }
      r := Ok(share);
    }

    /** A private copy of the blob template with the extranonce in place, converted and hex-encoded. */
    method EncodeBlob(workerExtraNonce: uint32, lib: Library) returns (r: Option<string>)
      requires Valid()
      ensures r == EncodedBlob(blobTemplate[..], template.reservedOffset, workerExtraNonce, lib)
    {
      var blob := CloneWithExtraNonce(workerExtraNonce);
      var converted := lib.convertBlob(blob[..]);
      if converted.None? {
        return None;
      }
      r := Some(ToHex(converted.value));
    }

    /**
     * The compact target for a difficulty: `Diff1 / floor(difficulty)`
     * right-aligned in 32 zero bytes, the first four reversed, in hex.
     */
    method EncodeTarget(difficulty: real) returns (r: string)
      requires 2 <= difficulty.Floor < TwoPow63
      ensures |r| == 8 && r == ToHex(TargetBytes(difficulty))
    {
      var diff := difficulty.Floor;
      var quotient := Diff1 / diff;
      var bytes := ToByteArray(quotient);
      TargetFits(diff);
      var padded := new byte[32](_ => 0);
      BlockCopy(bytes, 0, padded, padded.Length - |bytes|, |bytes|);
      PaddedToByteArray(quotient, 32);
      assert padded[..] == Zeros(32 - |bytes|) + bytes;
      r := ToHex(Reverse(padded[..4]));
    }
  }
}

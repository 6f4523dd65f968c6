/**
 * The client's side of the protocol: the bytes it frames around each
 * upload, how it takes the downloaded bytes apart again, and the top hash it
 * caches to check the server's Merkle tree. Randomness, the clock, the
 * crypto layer and the HTTP connection are parameters.
 */
module Client {
  import opened Bytes
  import opened ComplementingHashes
  import opened Nodes
  import MerkleTree

  /** `randomBytes(16)`: the nonce mixed into the key derivation. */
  const NonceLength: nat := 16
  /** `randomBytes(12)`: the AES-GCM initial value. */
  const IvLength: nat := 12
  /** Nonce, iv and the eight-byte timestamp. */
  const EnvelopeHeaderLength: nat := NonceLength + IvLength + 8
  /** The length of a cached top hash that `getClientTopHash` accepts (`256 / 8`). */
  const TopHashLength: nat := 32

  /** What `upload` encrypts and signs: the key nonce, the iv, the time of upload and the ciphertext. */
  datatype Envelope = Envelope(nonce: seq<byte>, iv: seq<byte>, timestamp: Int64, cipherText: seq<byte>)

  /** The nonce and iv have the lengths `upload` draws them with. */
  predicate WellFormedEnvelope(e: Envelope)
  {
    |e.nonce| == NonceLength && |e.iv| == IvLength
  }

  // ---------------------------------------------------------------------
  // Framing
  // ---------------------------------------------------------------------

  /** The inner bytes `upload` writes: nonce, iv, the timestamp as a big-endian long, ciphertext. */
  function EncodeEnvelope(e: Envelope): (s: seq<byte>)
    ensures |s| == |e.nonce| + |e.iv| + 8 + |e.cipherText|
    ensures WellFormedEnvelope(e) ==> |s| >= EnvelopeHeaderLength
  {
    e.nonce + e.iv + WriteLong(e.timestamp) + e.cipherText
  }

  /**
   * How `read` takes the inner bytes apart: `readNBytes(16)` and
   * `readNBytes(12)` (which return short arrays at the end of the data),
   * `readLong` (which throws EOF unless eight bytes remain), then the rest.
   */
  function ParseEnvelope(inner: seq<byte>): (r: Result<Envelope>)
    ensures r.Success? <==> |inner| >= EnvelopeHeaderLength
    ensures r.Failure? ==> r.error == EndOfStream
    ensures r.Success? ==> WellFormedEnvelope(r.value) && EncodeEnvelope(r.value) == inner
  {
    var (nonce, p) := ReadNBytes(inner, 0, NonceLength).value;
    var (iv, q) := ReadNBytes(inner, p, IvLength).value;
    match ReadLong(inner, q)
    case Failure(e) => Failure(e)
    case Success((timestamp, end)) =>
      WriteLongSigned(inner[q..end]);
      assert inner == nonce + iv + inner[q..end] + inner[end..];
      Success(Envelope(nonce, iv, timestamp, inner[end..]))
  }

  /** Reading back a framed envelope recovers every field. */
  lemma EnvelopeRoundTrip(e: Envelope)
    requires WellFormedEnvelope(e)
    ensures ParseEnvelope(EncodeEnvelope(e)) == Success(e)
  {
    var s := EncodeEnvelope(e);
    SignedWriteLong(e.timestamp, e.cipherText);
    assert s[..NonceLength] == e.nonce;
    assert s[NonceLength..NonceLength + IvLength] == e.iv;
    assert s[NonceLength + IvLength..EnvelopeHeaderLength] == WriteLong(e.timestamp);
    assert s[EnvelopeHeaderLength..] == e.cipherText;
  }

  /** The signed upload: the signature's length as a big-endian int, the signature, the envelope. */
  function EncodeSigned(signature: ByteArray, envelope: seq<byte>): (s: seq<byte>)
    ensures |s| == 4 + |signature| + |envelope|
  {
    WriteInt(|signature|) + signature + envelope
  }

  /**
   * How `read` splits the downloaded bytes: `readInt` (EOF unless four bytes
   * remain), `readNBytes` of that many bytes (a negative length throws, a
   * length past the end yields a short signature), then the rest.
   */
  function ParseSigned(data: seq<byte>): (r: Result<(seq<byte>, seq<byte>)>)
    ensures r.Success? <==> |data| >= 4 && Signed(data[..4]) >= 0
    ensures r.Failure? ==> r.error == (if |data| < 4 then EndOfStream else NegativeLength)
    ensures r.Success? ==>
      && r.value.0 + r.value.1 == data[4..]
      && |r.value.0| == (if Signed(data[..4]) <= |data| - 4 then Signed(data[..4]) else |data| - 4)
  {
    match ReadInt(data, 0)
    case Failure(e) => Failure(e)
    case Success((size, p)) =>
      assert data[0..4] == data[..4];
      match ReadNBytes(data, p, size)
      case Failure(e) => Failure(e)
      case Success((signature, q)) =>
        assert data[4..] == data[p..q] + data[q..];
        Success((signature, data[q..]))
  }

  /** Reading back a signed upload recovers the signature and the envelope. */
  lemma SignedRoundTrip(signature: ByteArray, envelope: seq<byte>)
    ensures ParseSigned(EncodeSigned(signature, envelope)) == Success((signature, envelope))
  {
    var s := EncodeSigned(signature, envelope);
    SignedWriteInt(|signature|, signature + envelope);
    assert s[..4] == WriteInt(|signature|);
    assert s[4..] == signature + envelope;
    var r := ParseSigned(s);
    assert r.value.0 == s[4..][..|signature|];
  }

  // ---------------------------------------------------------------------
  // The cryptographic layer, as parameters
  // ---------------------------------------------------------------------

  /**
   * `signWithRsa` under the client's private key, applied to a digest: the
   * signature, or None where the library throws.
   */
  type Signer = Digest -> Option<ByteArray>
  /**
   * The `cipher.doFinal(signature)` of `verifyWithRsa` under the client's
   * public key: the message the signature recovers, or None where the
   * library throws (a blob that is not a padded RSA value, or one longer
   * than the modulus). `verifyWithRsa` then compares that message with the
   * expected digest.
   */
  type SignatureRecovery = seq<byte> -> Option<seq<byte>>
  /**
   * `aesGcmDecrypt` under the key derived from the password and the nonce:
   * (nonce, iv, ciphertext, file id) to the plaintext, or None where the
   * library throws (a tag that does not authenticate, say).
   */
  type Decryptor = (seq<byte>, seq<byte>, seq<byte>, Digest) -> Option<seq<byte>>

  /** What `read` reports: the two checks it prints, and the plaintext it writes out. */
  datatype ReadReport = ReadReport(merkleOk: bool, signatureOk: bool, plainText: seq<byte>)

  /**
   * The outcome of `read` on the server's answer `reply` (None for a status
   * other than 200), given the cached top hash `cached` as
   * `getClientTopHash` returns it. The proof is read first; the rest of the
   * reply is the stored signed upload. A check that comes out false is only
   * reported: the envelope is still parsed and decrypted. A signature the
   * RSA layer cannot even process throws before the envelope is read.
   */
  function ReadOutcome(sha256: Hasher, recover: SignatureRecovery, decrypt: Decryptor, fileName: seq<byte>,
                       cached: Option<seq<byte>>, reply: Option<seq<byte>>): Result<ReadReport>
  {
    if reply.None? then Failure(UnexpectedStatus)
    else
      match Decode(reply.value, 0)
      case Failure(e) => Failure(e)
      case Success((proof, pos)) =>
        DecodeShape(reply.value, 0);
        var totalData := reply.value[pos..];
        match MerkleTree.Fold(sha256, sha256(totalData), proof)
        case Failure(e) => Failure(e)
        case Success(top) =>
          match ParseSigned(totalData)
          case Failure(e) => Failure(e)
          case Success((signature, inner)) =>
            match recover(signature)
            case None => Failure(SecurityFailure)
            case Some(found) =>
              match ParseEnvelope(inner)
              case Failure(e) => Failure(e)
              case Success(envelope) =>
                match decrypt(envelope.nonce, envelope.iv, envelope.cipherText, sha256(fileName))
                case None => Failure(SecurityFailure)
                case Some(plainText) =>
                  Success(ReadReport(cached == Some(top), found == sha256(inner), plainText))
  }

  /**
   * Whether `read` succeeds, and what it decrypts and how the signature
   * check comes out, does not depend on the cache; the cache decides only
   * the Merkle check, which passes exactly when it holds the folded hash.
   */
  lemma CacheDecidesOnlyMerkleCheck(sha256: Hasher, recover: SignatureRecovery, decrypt: Decryptor, fileName: seq<byte>,
                                    cached: Option<seq<byte>>, other: Option<seq<byte>>, reply: seq<byte>)
    ensures ReadOutcome(sha256, recover, decrypt, fileName, cached, Some(reply)).Success?
        <==> ReadOutcome(sha256, recover, decrypt, fileName, other, Some(reply)).Success?
    ensures ReadOutcome(sha256, recover, decrypt, fileName, cached, Some(reply)).Success? ==>
      var r := ReadOutcome(sha256, recover, decrypt, fileName, cached, Some(reply)).value;
      var s := ReadOutcome(sha256, recover, decrypt, fileName, other, Some(reply)).value;
      var proof := Decode(reply, 0).value.0;
      var pos := Decode(reply, 0).value.1;
      && r.signatureOk == s.signatureOk && r.plainText == s.plainText
      && pos <= |reply|
      && (r.merkleOk <==> cached == Some(MerkleTree.Fold(sha256, sha256(reply[pos..]), proof).value))
  {
    if Decode(reply, 0).Success? {
      DecodeShape(reply, 0);
      var (proof, pos) := Decode(reply, 0).value;
      var totalData := reply[pos..];
      var top := MerkleTree.Fold(sha256, sha256(totalData), proof);
      if top.Success? && ParseSigned(totalData).Success? {
        var (signature, inner) := ParseSigned(totalData).value;
        var found := recover(signature);
        if found.Some? && ParseEnvelope(inner).Success? {
          var envelope := ParseEnvelope(inner).value;
          var plain := decrypt(envelope.nonce, envelope.iv, envelope.cipherText, sha256(fileName));
          if plain.Some? {
            assert ReadOutcome(sha256, recover, decrypt, fileName, cached, Some(reply))
              == Success(ReadReport(cached == Some(top.value), found.value == sha256(inner), plain.value));
            assert ReadOutcome(sha256, recover, decrypt, fileName, other, Some(reply))
              == Success(ReadReport(other == Some(top.value), found.value == sha256(inner), plain.value));
          }
        }
      }
    }
  }

  /**
   * `read` on what the read endpoint sends, the written proof followed by
   * the stored signed upload, recovers what `upload` framed: the Merkle
   * check folds from the hash of the whole signed upload, the signature is
   * processed by the RSA layer (which may throw) and compared with the hash
   * of the envelope alone, and the envelope's fields go to the decryption.
   */
  lemma ReadRecoversUpload(sha256: Hasher, recover: SignatureRecovery, decrypt: Decryptor, fileName: seq<byte>,
                           cached: Option<seq<byte>>, proof: seq<ComplementingHash>,
                           signature: ByteArray, e: Envelope)
    requires |proof| <= MaxInt32 && WellFormed(proof) && WellFormedEnvelope(e)
    requires forall i :: 0 <= i < |proof| && proof[i].left ==> proof[i].sha256.Some?
    ensures var stored := EncodeSigned(signature, EncodeEnvelope(e));
      var top := MerkleTree.Fold(sha256, sha256(stored), proof);
      && top.Success?
      && ReadOutcome(sha256, recover, decrypt, fileName, cached, Some(Encode(proof) + stored))
         == match recover(signature)
            case None => Failure(SecurityFailure)
            case Some(found) =>
              match decrypt(e.nonce, e.iv, e.cipherText, sha256(fileName))
              case None => Failure(SecurityFailure)
              case Some(plainText) =>
                Success(ReadReport(cached == Some(top.value), found == sha256(EncodeEnvelope(e)), plainText))
  {
    var stored := EncodeSigned(signature, EncodeEnvelope(e));
    RoundTrip(proof, stored);
    assert (Encode(proof) + stored)[|Encode(proof)|..] == stored;
    MerkleTree.FoldDefined(sha256, sha256(stored), proof);
    SignedRoundTrip(signature, EncodeEnvelope(e));
    EnvelopeRoundTrip(e);
  }

  /**
   * A declared signature length past the end of the data goes unnoticed by
   * `readNBytes`: the signature swallows the rest and nothing is left for
   * the envelope. The read then throws in the RSA layer if it cannot process
   * that blob, and otherwise at the envelope's `readLong` with EOF.
   */
  lemma OverlongSignatureFails(sha256: Hasher, recover: SignatureRecovery, decrypt: Decryptor, fileName: seq<byte>,
                               cached: Option<seq<byte>>, proof: seq<ComplementingHash>, data: seq<byte>)
    requires |proof| <= MaxInt32 && WellFormed(proof)
    requires MerkleTree.Fold(sha256, sha256(data), proof).Success?
    requires |data| >= 4 && Signed(data[..4]) > |data| - 4
    ensures ParseSigned(data) == Success((data[4..], []))
    ensures ReadOutcome(sha256, recover, decrypt, fileName, cached, Some(Encode(proof) + data))
         == if recover(data[4..]).None? then Failure(SecurityFailure) else Failure(EndOfStream)
  {
    var r := ParseSigned(data);
    assert |r.value.0| == |data| - 4;
    assert r.value.1 == [];
    assert r.value.0 == r.value.0 + r.value.1 == data[4..];
    RoundTrip(proof, data);
    assert (Encode(proof) + data)[|Encode(proof)|..] == data;
    assert ParseEnvelope([]) == Failure(EndOfStream);
  }

  /** Every fold that succeeds from a leaf hash yields a 32-byte hash. */
  lemma FoldIsDigest(sha256: Hasher, leaf: seq<byte>, proof: seq<ComplementingHash>)
    requires MerkleTree.Fold(sha256, sha256(leaf), proof).Success?
    ensures |MerkleTree.Fold(sha256, sha256(leaf), proof).value| == TopHashLength
  {
    MerkleTree.FoldDefined(sha256, sha256(leaf), proof);
  }

  // ---------------------------------------------------------------------
  // The client and its cached top hash
  // ---------------------------------------------------------------------

  class Client {
    /** The contents of `top_hash.bin`, or None while the file does not exist. */
    var topHashFile: Option<seq<byte>>

    constructor (topHashFile: Option<seq<byte>>)
      ensures this.topHashFile == topHashFile
    {
      this.topHashFile := topHashFile;
    }

    /** `getClientTopHash`: the cached bytes, but only when they are exactly a SHA-256 digest long. */
    function GetClientTopHash(): (h: Option<seq<byte>>)
      reads this
      ensures h.Some? <==> topHashFile.Some? && |topHashFile.value| == TopHashLength
      ensures h.Some? ==> h == topHashFile
    {
      if topHashFile.Some? && |topHashFile.value| == TopHashLength then topHashFile else None
    }

    /** `setClientTopHash`: writes the file, or deletes it for null. */
    method SetClientTopHash(hash: Option<seq<byte>>)
      modifies this
      ensures topHashFile == hash
      ensures hash.Some? && |hash.value| == TopHashLength ==> GetClientTopHash() == hash
      ensures hash.None? ==> GetClientTopHash() == None
    {
      topHashFile := hash;
    }

    /**
     * `verify`: a status other than 200 (`reply` None) throws; otherwise
     * whether the top hash the server sends equals the cached one byte for
     * byte. A missing or malformed cache never matches.
     */
    function Verify(reply: Option<seq<byte>>): (r: Result<bool>)
      reads this
      ensures r.Success? <==> reply.Some?
      ensures r.Failure? ==> r.error == UnexpectedStatus
      ensures r.Success? ==> (r.value <==> topHashFile == Some(reply.value) && |reply.value| == TopHashLength)
    {
      if reply.None? then Failure(UnexpectedStatus) else Success(GetClientTopHash() == Some(reply.value))
    }

    /**
     * `upload`, once the nonce, iv, timestamp and ciphertext are known:
     * frames and signs the envelope (a signer that throws ends the upload
     * before anything is sent), frames the signed upload (returned as
     * `sent`) and, when the server answers 201 with a proof (`reply`), caches
     * the top hash of the tree reconstructed from the hash of `sent`. Any
     * failure leaves the cache as it was.
     */
    method Upload(sha256: Hasher, sign: Signer, nonce: seq<byte>, iv: seq<byte>, timestamp: Int64,
                  cipherText: seq<byte>, reply: Option<seq<byte>>)
      returns (sent: Option<seq<byte>>, r: Result<seq<byte>>)
      modifies this
      ensures var envelope := EncodeEnvelope(Envelope(nonce, iv, timestamp, cipherText));
        match sign(sha256(envelope))
        case None => sent == None && r == Failure(SecurityFailure)
        case Some(signature) => sent == Some(EncodeSigned(signature, envelope))
      ensures r.Success? <==>
        && sent.Some? && reply.Some? && Decode(reply.value, 0).Success?
        && MerkleTree.Fold(sha256, sha256(sent.value), Decode(reply.value, 0).value.0).Success?
      ensures r.Success? ==>
        && r.value == MerkleTree.Fold(sha256, sha256(sent.value), Decode(reply.value, 0).value.0).value
        && topHashFile == Some(r.value) && GetClientTopHash() == Some(r.value)
      ensures r.Failure? ==> topHashFile == old(topHashFile)
    {
      var outputBytes := EncodeEnvelope(Envelope(nonce, iv, timestamp, cipherText));
      var innerSha256 := sha256(outputBytes);
      var signature := sign(innerSha256);
      if signature.None? {
        return None, Failure(SecurityFailure);
      }
      var body := EncodeSigned(signature.value, outputBytes);
      sent := Some(body);
      if reply.None? {
        return sent, Failure(UnexpectedStatus);
      }
      var complementingHashes := ComplementingHashes.Read(reply.value, 0);
      if complementingHashes.Failure? {
        return sent, Failure(complementingHashes.error);
      }
      var merkleTree := MerkleTree.Reconstruct(sha256, sha256(body), complementingHashes.value.0);
      if merkleTree.Failure? {
        return sent, Failure(merkleTree.error);
      }
      var topHash := HashOf(sha256, merkleTree.value);
      FoldIsDigest(sha256, body, complementingHashes.value.0);
      SetClientTopHash(Some(topHash));
      r := Success(topHash);
    }

    /**
     * `read`: reads the proof from the reply, checks the rest against the
     * cached top hash, splits off the signature and has the RSA layer
     * recover the digest it signs, takes the envelope apart and decrypts the
     * ciphertext. Nothing is changed.
     */
    method Read(sha256: Hasher, recover: SignatureRecovery, decrypt: Decryptor, fileName: seq<byte>,
                reply: Option<seq<byte>>)
      returns (r: Result<ReadReport>)
      ensures r == ReadOutcome(sha256, recover, decrypt, fileName, GetClientTopHash(), reply)
    {
      if reply.None? {
        return Failure(UnexpectedStatus);
      }
      var complementingHashes := ComplementingHashes.Read(reply.value, 0);
      if complementingHashes.Failure? {
        return Failure(complementingHashes.error);
      }
      var (proof, pos) := complementingHashes.value;
      DecodeShape(reply.value, 0);
      var totalData := reply.value[pos..];
      var fileHash := sha256(totalData);
      var merkleOk := MerkleTree.VerifyFile(sha256, Leaf(fileHash), GetClientTopHash(), proof);
      if merkleOk.Failure? {
        return Failure(merkleOk.error);
      }

      var header := ReadInt(totalData, 0);
      if header.Failure? {
        return Failure(header.error);
      }
      var (signatureSize, p) := header.value;
      var signatureRead := ReadNBytes(totalData, p, signatureSize);
      if signatureRead.Failure? {
        return Failure(signatureRead.error);
      }
      var (signature, q) := signatureRead.value;
      var innerDataBytes := totalData[q..];
      var found := recover(signature);
      if found.None? {
        return Failure(SecurityFailure);
      }
      var signatureOk := found.value == sha256(innerDataBytes);

      var (nonce, p1) := ReadNBytes(innerDataBytes, 0, NonceLength).value;
      var (iv, p2) := ReadNBytes(innerDataBytes, p1, IvLength).value;
      var timestamp := ReadLong(innerDataBytes, p2);
      if timestamp.Failure? {
        return Failure(timestamp.error);
      }
      var cipherText := innerDataBytes[timestamp.value.1..];
      var plainText := decrypt(nonce, iv, cipherText, sha256(fileName));
      if plainText.None? {
        return Failure(SecurityFailure);
      }
      r := Success(ReadReport(merkleOk.value, signatureOk, plainText.value));
    }
  }

  /**
   * Upload followed by read: after an upload that cached the top hash for
   * the proof the server sent, reading the same file back with the same
   * proof passes the Merkle check, reports whether the signature recovers
   * the envelope's digest, and yields what the decryption yields.
   */
  lemma UploadThenReadPassesMerkleCheck(sha256: Hasher, recover: SignatureRecovery, decrypt: Decryptor,
                                        fileName: seq<byte>, proof: seq<ComplementingHash>,
                                        signature: ByteArray, e: Envelope)
    requires |proof| <= MaxInt32 && WellFormed(proof) && WellFormedEnvelope(e)
    requires MerkleTree.Fold(sha256, sha256(EncodeSigned(signature, EncodeEnvelope(e))), proof).Success?
    requires recover(signature).Some?
    requires decrypt(e.nonce, e.iv, e.cipherText, sha256(fileName)).Some?
    ensures var stored := EncodeSigned(signature, EncodeEnvelope(e));
      var cached := Some(MerkleTree.Fold(sha256, sha256(stored), proof).value);
      var r := ReadOutcome(sha256, recover, decrypt, fileName, cached, Some(Encode(proof) + stored));
      && r.Success? && r.value.merkleOk
      && (r.value.signatureOk <==> recover(signature) == Some(sha256(EncodeEnvelope(e))))
      && r.value.plainText == decrypt(e.nonce, e.iv, e.cipherText, sha256(fileName)).value
  {
    var stored := EncodeSigned(signature, EncodeEnvelope(e));
    RoundTrip(proof, stored);
    assert (Encode(proof) + stored)[|Encode(proof)|..] == stored;
    SignedRoundTrip(signature, EncodeEnvelope(e));
    EnvelopeRoundTrip(e);
  }
}

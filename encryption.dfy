/** The file-encryption envelope of the secure photo backup (js/encryption.js):
    a fresh AES-256-GCM key and 12-byte IV per file, and, with an additional
    password, the raw key wrapped under a PBKDF2-HMAC-SHA-256 key (RFC 8018,
    section 5.2) with its own salt and IV; then the batch driver that encrypts
    the selected files one after another.

    Web Crypto is not modelled inside: AES-GCM encryption and PBKDF2 key
    derivation are functions supplied in a `Platform` value (None is a rejected
    promise), and every random value, the generated key included, is read from
    an entropy stream in the order the source draws it. */
module Encryption {
  import opened Wrappers
  import opened JsBuiltins

  newtype byte = x: int | 0 <= x < 256
  type Bytes = seq<byte>

  // ---------------------------------------------------------------------------
  // Configuration

  /** The shape of `encryptionConfig`; lengths are in the units the source
      uses (key and tag in bits, IV and salt in bytes). */
  datatype Config = Config(
    algorithm: string,
    keyLength: nat,
    ivLength: nat,
    saltLength: nat,
    iterations: nat,
    tagLength: nat)

  const EncryptionConfig: Config := Config("AES-GCM", 256, 12, 16, 100000, 128)

  /** An AES-GCM parameter set of NIST SP 800-38D (AES key size, a full
      128- to 96-bit tag, the recommended 96-bit IV) together with a PBKDF2
      setting within NIST SP 800-132 (salt of at least 128 bits, at least
      1000 iterations). */
  predicate StandardParameters(c: Config) {
    && c.algorithm == "AES-GCM"
    && (c.keyLength == 128 || c.keyLength == 192 || c.keyLength == 256)
    && 96 <= c.tagLength <= 128 && c.tagLength % 8 == 0
    && c.ivLength * 8 == 96
    && c.saltLength * 8 >= 128
    && c.iterations >= 1000
  }

  /** The configuration is AES-256-GCM with a 128-bit tag, a 12-byte IV, a
      16-byte salt and 100 000 PBKDF2 iterations, a standard parameter set. */
  lemma ConfigIsStandard()
    ensures StandardParameters(EncryptionConfig)
    ensures EncryptionConfig.keyLength == 256 && EncryptionConfig.tagLength == 128
    ensures EncryptionConfig.ivLength == 12 && EncryptionConfig.saltLength == 16
    ensures EncryptionConfig.iterations == 100000
  {
  }

  const KeyBytes: nat := EncryptionConfig.keyLength / 8
  const IvBytes: nat := EncryptionConfig.ivLength
  const SaltBytes: nat := EncryptionConfig.saltLength

  // ---------------------------------------------------------------------------
  // The platform

  datatype Hash = Sha256

  /** `crypto.subtle` as used by the module.
      `aesGcmEncrypt(key, iv, tagLength, data)` and
      `pbkdf2(password, salt, iterations, hash, keyLength)` stand for
      `encrypt` and `importKey` followed by `deriveKey`. */
  datatype Platform = Platform(
    aesGcmEncrypt: (Bytes, Bytes, nat, Bytes) -> Option<Bytes>,
    pbkdf2: (string, Bytes, nat, Hash, nat) -> Option<Bytes>)

  /** Where each random value is read from the entropy stream: the key,
      the file IV, then (with a password) the salt and the key IV. */
  const KeyAt: nat := 0
  const IvAt: nat := KeyAt + KeyBytes
  const SaltAt: nat := IvAt + IvBytes
  const KeyIvAt: nat := SaltAt + SaltBytes

  /** How much of the entropy stream one call of `EncryptFile` reads. */
  function EntropyNeeded(password: Option<string>): nat {
    if Truthy(password) then KeyIvAt + IvBytes else SaltAt
  }

  /** `n` random bytes read at offset `at`. */
  function Draw(entropy: Bytes, at: nat, n: nat): Bytes
    requires at + n <= |entropy|
  {
    entropy[at..at + n]
  }

  /** `generateEncryptionKey` followed by `exportKey('raw')`: a fresh
      256-bit key, or a failure when no randomness is left. */
  function GenerateEncryptionKey(entropy: Bytes): (key: Option<Bytes>)
    ensures key.Some? ==> |key.value| * 8 == EncryptionConfig.keyLength
    ensures key.Some? <==> |entropy| >= KeyAt + KeyBytes
  {
    if |entropy| >= KeyAt + KeyBytes then Some(Draw(entropy, KeyAt, KeyBytes)) else None
  }

  /** A platform whose PBKDF2 derives keys of exactly the length (in bits)
      it is asked for, as `deriveKey` does for an AES key. */
  ghost predicate DerivesRequestedLength(platform: Platform) {
    forall password, salt, iterations, hash, length ::
      platform.pbkdf2(password, salt, iterations, hash, length).Some? ==>
        |platform.pbkdf2(password, salt, iterations, hash, length).value| * 8 == length
  }

  /** `deriveKeyFromPassword`: PBKDF2 with SHA-256, the configured iteration
      count and an AES key length; it reads nothing but the password and the
      salt (no randomness), so decrypting with the stored salt derives the
      same key again. On a platform that honours the requested length, the
      wrapping key is an AES-256 key. */
  function DeriveKeyFromPassword(platform: Platform, password: string, salt: Bytes): (key: Option<Bytes>)
    ensures DerivesRequestedLength(platform) && key.Some? ==> |key.value| * 8 == EncryptionConfig.keyLength
  {
    platform.pbkdf2(password, salt, EncryptionConfig.iterations, Sha256, EncryptionConfig.keyLength)
  }

  /** AES-GCM with the configured tag length. */
  function Seal(platform: Platform, key: Bytes, iv: Bytes, data: Bytes): Option<Bytes> {
    platform.aesGcmEncrypt(key, iv, EncryptionConfig.tagLength, data)
  }

  // ---------------------------------------------------------------------------
  // The envelope

  /** The object `encryptFile` resolves to; `keyIv` and `keySalt` are the
      properties only the protected form has. */
  datatype Envelope = Envelope(
    encryptedData: Bytes,
    encryptedKey: Bytes,
    iv: Bytes,
    keyIv: Option<Bytes>,
    keySalt: Option<Bytes>,
    isKeyProtected: bool)

  /** The envelope's shape: a 12-byte file IV; key IV and salt present
      exactly when the key is protected, with their configured lengths; an
      unprotected key is the 32 raw key bytes. */
  predicate WellFormed(e: Envelope) {
    && |e.iv| == IvBytes
    && (e.isKeyProtected <==> e.keyIv.Some?)
    && (e.isKeyProtected <==> e.keySalt.Some?)
    && (e.keyIv.Some? ==> |e.keyIv.value| == IvBytes)
    && (e.keySalt.Some? ==> |e.keySalt.value| == SaltBytes)
    && (!e.isKeyProtected ==> |e.encryptedKey| * 8 == EncryptionConfig.keyLength)
  }

  const EncryptFailedMessage := "Failed to encrypt file"

  /** `encryptFile(fileBuffer, password)`. Every failure, wherever it happens,
      becomes the one error "Failed to encrypt file" and no envelope. */
  function EncryptFile(platform: Platform, entropy: Bytes, fileBuffer: Bytes, password: Option<string>)
    : (r: Result<Envelope, string>)
    ensures r.Failure? ==> r.error == EncryptFailedMessage
    ensures r.Success? ==> WellFormed(r.value) && (r.value.isKeyProtected <==> Truthy(password))
    // the entropy it reads, and where each random value comes from
    ensures r.Success? ==> |entropy| >= EntropyNeeded(password)
    ensures r.Success? ==> r.value.iv == Draw(entropy, IvAt, IvBytes)
    ensures r.Success? && Truthy(password) ==>
      && r.value.keySalt == Some(Draw(entropy, SaltAt, SaltBytes))
      && r.value.keyIv == Some(Draw(entropy, KeyIvAt, IvBytes))
    // the file is sealed under the fresh key with the returned IV
    ensures r.Success? ==>
      Seal(platform, Draw(entropy, KeyAt, KeyBytes), r.value.iv, fileBuffer) == Some(r.value.encryptedData)
    // the key material: raw without a password, wrapped under the derived key with one
    ensures r.Success? && !Truthy(password) ==> r.value.encryptedKey == Draw(entropy, KeyAt, KeyBytes)
    ensures r.Success? && Truthy(password) ==>
      var wrappingKey := DeriveKeyFromPassword(platform, password.value, r.value.keySalt.value);
      && wrappingKey.Some?
      && Seal(platform, wrappingKey.value, r.value.keyIv.value, Draw(entropy, KeyAt, KeyBytes))
         == Some(r.value.encryptedKey)
    // when it fails
    ensures r.Failure? <==>
      || |entropy| < EntropyNeeded(password)
      || Seal(platform, Draw(entropy, KeyAt, KeyBytes), Draw(entropy, IvAt, IvBytes), fileBuffer).None?
      || (Truthy(password) &&
          (|| DeriveKeyFromPassword(platform, password.value, Draw(entropy, SaltAt, SaltBytes)).None?
           || Seal(platform, DeriveKeyFromPassword(platform, password.value, Draw(entropy, SaltAt, SaltBytes)).value,
                   Draw(entropy, KeyIvAt, IvBytes), Draw(entropy, KeyAt, KeyBytes)).None?))
  {
    match GenerateEncryptionKey(entropy)
    case None => Failure(EncryptFailedMessage)
    case Some(exportedKey) =>
      if |entropy| < IvAt + IvBytes then Failure(EncryptFailedMessage)
      else
        var iv := Draw(entropy, IvAt, IvBytes);
        match Seal(platform, exportedKey, iv, fileBuffer)
        case None => Failure(EncryptFailedMessage)
        case Some(encryptedBuffer) =>
          if Truthy(password) then
            if |entropy| < KeyIvAt + IvBytes then Failure(EncryptFailedMessage)
            else
              var keySalt := Draw(entropy, SaltAt, SaltBytes);
              match DeriveKeyFromPassword(platform, password.value, keySalt)
              case None => Failure(EncryptFailedMessage)
              case Some(passwordKey) =>
                var keyIv := Draw(entropy, KeyIvAt, IvBytes);
                match Seal(platform, passwordKey, keyIv, exportedKey)
                case None => Failure(EncryptFailedMessage)
                case Some(encryptedKey) =>
                  Success(Envelope(encryptedBuffer, encryptedKey, iv, Some(keyIv), Some(keySalt), true))
          else
            Success(Envelope(encryptedBuffer, exportedKey, iv, None, None, false))
  }

  /** `null`, `undefined` and the empty string all select the unprotected
      form: the password only matters through its truthiness. */
  lemma FalsyPasswordsAgree(platform: Platform, entropy: Bytes, fileBuffer: Bytes, password: Option<string>)
    requires !Truthy(password)
    ensures EncryptFile(platform, entropy, fileBuffer, password) == EncryptFile(platform, entropy, fileBuffer, None)
  {
  }

  /** The password touches only the key material: with the same randomness,
      a protected and an unprotected envelope carry the same ciphertext and
      the same file IV. */
  lemma PasswordOnlyAffectsKeyMaterial(platform: Platform, entropy: Bytes, fileBuffer: Bytes, p: Option<string>, q: Option<string>)
    requires EncryptFile(platform, entropy, fileBuffer, p).Success?
    requires EncryptFile(platform, entropy, fileBuffer, q).Success?
    ensures EncryptFile(platform, entropy, fileBuffer, p).value.encryptedData
         == EncryptFile(platform, entropy, fileBuffer, q).value.encryptedData
    ensures EncryptFile(platform, entropy, fileBuffer, p).value.iv
         == EncryptFile(platform, entropy, fileBuffer, q).value.iv
  {
  }

  /** What the protected form wraps is exactly the key the unprotected form
      would have stored raw: the exported key, not a re-derived one; it is
      wrapped under the key derived from the password and the envelope's own
      salt, with the envelope's own key IV. */
  lemma ProtectedWrapsRawKey(platform: Platform, entropy: Bytes, fileBuffer: Bytes, password: string)
    requires password != ""
    requires EncryptFile(platform, entropy, fileBuffer, Some(password)).Success?
    ensures EncryptFile(platform, entropy, fileBuffer, None).Success?
    ensures
      var protected := EncryptFile(platform, entropy, fileBuffer, Some(password)).value;
      var raw := EncryptFile(platform, entropy, fileBuffer, None).value;
      var wrappingKey := DeriveKeyFromPassword(platform, password, protected.keySalt.value);
      && wrappingKey.Some?
      && Seal(platform, wrappingKey.value, protected.keyIv.value, raw.encryptedKey) == Some(protected.encryptedKey)
  {
  }

  /** The random values behind an envelope, in the order they are drawn:
      the key, the file IV, then (for a protected key) the salt and the key
      IV. */
  function DrawnValues(key: Bytes, e: Envelope): Bytes
    requires WellFormed(e)
  {
    key + e.iv + (if e.isKeyProtected then e.keySalt.value + e.keyIv.value else [])
  }

  /** One call of `encryptFile` reads exactly the start of the entropy
      stream, and that start is the key, the file IV, the salt and the key
      IV one after another: the four are separate draws, so the key IV is
      never the file IV re-used and no byte is skipped. */
  lemma DrawsAreSeparate(platform: Platform, entropy: Bytes, fileBuffer: Bytes, password: Option<string>)
    requires EncryptFile(platform, entropy, fileBuffer, password).Success?
    ensures var e := EncryptFile(platform, entropy, fileBuffer, password).value;
      entropy[..EntropyNeeded(password)] == DrawnValues(Draw(entropy, KeyAt, KeyBytes), e)
    ensures var e := EncryptFile(platform, entropy, fileBuffer, password).value;
      !Truthy(password) ==> entropy[..EntropyNeeded(password)] == e.encryptedKey + e.iv
  {
    var e := EncryptFile(platform, entropy, fileBuffer, password).value;
    if Truthy(password) {
      assert entropy[..KeyIvAt + IvBytes]
          == entropy[KeyAt..IvAt] + entropy[IvAt..SaltAt] + entropy[SaltAt..KeyIvAt] + entropy[KeyIvAt..KeyIvAt + IvBytes];
    } else {
      assert entropy[..SaltAt] == entropy[KeyAt..IvAt] + entropy[IvAt..SaltAt];
    }
  }

  // ---------------------------------------------------------------------------
  // The batch driver: handleEncryptAndUpload

  /** A file of the file input; `contents` is None when `FileReader` fails. */
  datatype SelectedFile = SelectedFile(name: string, contents: Option<Bytes>)

  /** What `simulateUpload` is handed for one file. */
  datatype Upload = Upload(name: string, envelope: Envelope)

  /** How `handleEncryptAndUpload` ends. `progress` holds the percentages
      shown after each uploaded file. `Aborted` is the catch block: the files
      before the failing one were uploaded, none after it was touched. */
  datatype BatchOutcome =
    | NothingSelected
    | PasswordMissing
    | Completed(uploads: seq<Upload>, progress: seq<int>)
    | Aborted(uploads: seq<Upload>, progress: seq<int>)

  const ReadFailedMessage := "Failed to read file"

  /** The password handed to `encryptFile`: the input's value when the box
      is checked, `null` otherwise. */
  function AdditionalPassword(checked: bool, input: string): Option<string> {
    if checked then Some(input) else None
  }

  /** What processing the i-th file produces: its read, then `encryptFile` on
      the part of the entropy stream that follows the earlier files' draws. */
  function FileEnvelope(platform: Platform, entropy: Bytes, files: seq<SelectedFile>, password: Option<string>, i: nat)
    : Result<Envelope, string>
    requires i < |files|
  {
    var offset := i * EntropyNeeded(password);
    match files[i].contents
    case None => Failure(ReadFailedMessage)
    case Some(buffer) => EncryptFile(platform, if offset <= |entropy| then entropy[offset..] else [], buffer, password)
  }

  /** The progress label after `done` of `total` files:
      `Math.round(done / total * 100)`. */
  function Progress(done: nat, total: nat): int
    requires total > 0
  {
    RoundHalfUp(done * 100, total)
  }

  /** Progress stays within 0..100, never goes down, and the last file brings
      it to exactly 100. */
  lemma ProgressBounds(i: nat, j: nat, total: nat)
    requires 0 < total && i <= j <= total
    ensures 0 <= Progress(i, total) <= Progress(j, total) <= 100
    ensures Progress(total, total) == 100
  {
    RoundHalfUpExact(0, total);
    RoundHalfUpExact(100, total);
    MulMonotone(100, i, j);
    MulMonotone(100, j, total);
    RoundHalfUpMonotone(0, i * 100, total);
    RoundHalfUpMonotone(i * 100, j * 100, total);
    RoundHalfUpMonotone(j * 100, total * 100, total);
  }

  /** Each file of a batch draws its key and IVs from its own window of the
      entropy stream, `need` bytes at `i * need`: the windows of two
      different files do not overlap, so no two envelopes share a random
      value by construction. */
  lemma FilesDrawSeparately(
    platform: Platform, entropy: Bytes, files: seq<SelectedFile>, password: Option<string>, i: nat, j: nat)
    requires i < j < |files|
    requires FileEnvelope(platform, entropy, files, password, i).Success?
    requires FileEnvelope(platform, entropy, files, password, j).Success?
    ensures var need := EntropyNeeded(password);
      && i * need + need <= j * need
      && j * need + need <= |entropy|
      && entropy[i * need..i * need + need]
         == DrawnValues(entropy[i * need..i * need + KeyBytes], FileEnvelope(platform, entropy, files, password, i).value)
      && entropy[j * need..j * need + need]
         == DrawnValues(entropy[j * need..j * need + KeyBytes], FileEnvelope(platform, entropy, files, password, j).value)
  {
    var need := EntropyNeeded(password);
    FileWindow(platform, entropy, files, password, i);
    FileWindow(platform, entropy, files, password, j);
    MulMonotone(need, i + 1, j);
  }

  /** The window one file of a batch reads. */
  lemma FileWindow(platform: Platform, entropy: Bytes, files: seq<SelectedFile>, password: Option<string>, i: nat)
    requires i < |files|
    requires FileEnvelope(platform, entropy, files, password, i).Success?
    ensures var need := EntropyNeeded(password);
      && i * need + need <= |entropy|
      && entropy[i * need..i * need + need]
         == DrawnValues(entropy[i * need..i * need + KeyBytes], FileEnvelope(platform, entropy, files, password, i).value)
  {
    var need := EntropyNeeded(password);
    var offset := i * need;
    var slice := if offset <= |entropy| then entropy[offset..] else [];
    var buffer := files[i].contents.value;
    assert FileEnvelope(platform, entropy, files, password, i) == EncryptFile(platform, slice, buffer, password);
    DrawsAreSeparate(platform, slice, buffer, password);
    assert offset <= |entropy|;
    assert slice[..need] == entropy[offset..offset + need];
    assert Draw(slice, KeyAt, KeyBytes) == entropy[offset..offset + KeyBytes];
  }

  /** `handleEncryptAndUpload`: nothing happens without files; a checked
      password box with an empty password stops before any file is read;
      otherwise the files are encrypted and uploaded in order, the progress
      label follows each one, and the first error abandons the rest. */
  method HandleEncryptAndUpload(
    platform: Platform, entropy: Bytes, files: seq<SelectedFile>, passwordChecked: bool, passwordInput: string)
    returns (outcome: BatchOutcome)
    ensures outcome == NothingSelected <==> |files| == 0
    ensures outcome == PasswordMissing <==> |files| > 0 && passwordChecked && passwordInput == ""
    ensures outcome.Completed? || outcome.Aborted? ==>
      var password := AdditionalPassword(passwordChecked, passwordInput);
      && |outcome.progress| == |outcome.uploads| <= |files|
      && (forall i | 0 <= i < |outcome.uploads| ::
            && outcome.uploads[i].name == files[i].name
            && FileEnvelope(platform, entropy, files, password, i) == Success(outcome.uploads[i].envelope))
      && (forall i | 0 <= i < |outcome.progress| :: outcome.progress[i] == Progress(i + 1, |files|))
    ensures outcome.Completed? ==> |outcome.uploads| == |files|
    ensures outcome.Aborted? ==>
      && |outcome.uploads| < |files|
      && FileEnvelope(platform, entropy, files, AdditionalPassword(passwordChecked, passwordInput), |outcome.uploads|).Failure?
  {
    if |files| == 0 {
      return NothingSelected;
    }
    var password: Option<string> := None;
    if passwordChecked {
      password := Some(passwordInput);
      if !Truthy(password) {
        return PasswordMissing;
      }
    }
    var need := EntropyNeeded(password);
    var uploads: seq<Upload> := [];
    var progress: seq<int> := [];
    var offset := 0;
    for i := 0 to |files|
      invariant |uploads| == i && |progress| == i
      invariant offset == i * need
      invariant forall j | 0 <= j < i ::
        && uploads[j].name == files[j].name
        && FileEnvelope(platform, entropy, files, password, j) == Success(uploads[j].envelope)
      invariant forall j | 0 <= j < i :: progress[j] == Progress(j + 1, |files|)
    {
      var file := files[i];
      if file.contents.None? {
        return Aborted(uploads, progress);
      }
      var slice := if offset <= |entropy| then entropy[offset..] else [];
      var sealed := EncryptFile(platform, slice, file.contents.value, password);
      if sealed.Failure? {
        return Aborted(uploads, progress);
      }
      uploads := uploads + [Upload(file.name, sealed.value)];
      progress := progress + [Progress(i + 1, |files|)];
      offset := offset + need;
    }
    return Completed(uploads, progress);
  }
}

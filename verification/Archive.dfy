/** Encrypted backups and secrets: what is written can be read back, and nothing else is. */
module Archive {
  import opened Prelude

  type Bytes = seq<bv8>

  const TAG_LEN: nat := 16
  const SALT_LEN: nat := 16
  const IV_LEN: nat := 12

  type Tag = t: Bytes | |t| == TAG_LEN witness seq(TAG_LEN, _ => 0)

  // ------------------------------------------------------------------------
  // Authenticated encryption, as a key stream and an authenticator
  // ------------------------------------------------------------------------

  /**
   Counter mode adds a key stream that depends on the key, the nonce and the position; the tag
   authenticates the cipher text. Nothing else is assumed of either.
   */
  datatype Gcm = Gcm(stream: (Bytes, Bytes, nat) -> bv8, mac: (Bytes, Bytes, Bytes) -> Tag)

  /** Encrypts and decrypts the bytes that come at position `pos`. */
  function Mask(g: Gcm, key: Bytes, iv: Bytes, pos: nat, data: Bytes): (r: Bytes)
    ensures |r| == |data|
  {
    seq(|data|, i requires 0 <= i < |data| => data[i] ^ g.stream(key, iv, pos + i))
  }

  lemma MaskTwice(g: Gcm, key: Bytes, iv: Bytes, pos: nat, data: Bytes)
    ensures Mask(g, key, iv, pos, Mask(g, key, iv, pos, data)) == data
  {
    var once := Mask(g, key, iv, pos, data);
    forall i | 0 <= i < |data| ensures Mask(g, key, iv, pos, once)[i] == data[i] {
      var k := g.stream(key, iv, pos + i);
      assert (data[i] ^ k) ^ k == data[i];
    }
  }

  lemma MaskAppend(g: Gcm, key: Bytes, iv: Bytes, pos: nat, a: Bytes, b: Bytes)
    ensures Mask(g, key, iv, pos, a + b) == Mask(g, key, iv, pos, a) + Mask(g, key, iv, pos + |a|, b)
  {
    forall i | |a| <= i < |a| + |b|
      ensures Mask(g, key, iv, pos, a + b)[i] == Mask(g, key, iv, pos + |a|, b)[i - |a|]
    {
      assert (a + b)[i] == b[i - |a|];
      assert pos + i == pos + |a| + (i - |a|);
    }
  }

  /** Cipher text and tag. */
  function Seal(g: Gcm, key: Bytes, iv: Bytes, plain: Bytes): (r: Bytes)
    ensures |r| == |plain| + TAG_LEN
  {
    var text := Mask(g, key, iv, 0, plain);
    text + g.mac(key, iv, text)
  }

  function Open(g: Gcm, key: Bytes, iv: Bytes, text: Bytes, tag: Bytes): Option<Bytes> {
    if g.mac(key, iv, text) == tag then Some(Mask(g, key, iv, 0, text)) else None
  }

  /** Opens what is in `box`, a cipher text with its tag at the end. */
  function OpenBox(g: Gcm, key: Bytes, iv: Bytes, box: Bytes): Option<Bytes>
    requires |box| >= TAG_LEN
  {
    Open(g, key, iv, box[..|box| - TAG_LEN], box[|box| - TAG_LEN..])
  }

  /** A box opens to `plain` exactly when it is the sealed `plain`. */
  lemma OpensExactly(g: Gcm, key: Bytes, iv: Bytes, box: Bytes, plain: Bytes)
    requires |box| >= TAG_LEN
    ensures OpenBox(g, key, iv, box) == Some(plain) <==> box == Seal(g, key, iv, plain)
  {
    var text, tag := box[..|box| - TAG_LEN], box[|box| - TAG_LEN..];
    assert box == text + tag;
    MaskTwice(g, key, iv, 0, plain);
    MaskTwice(g, key, iv, 0, text);
    if box == Seal(g, key, iv, plain) {
      assert text == Mask(g, key, iv, 0, plain);
    }
  }

  /** The cipher object: bytes go in piece by piece, the tag comes at the end. */
  class Cipher {
    const g: Gcm
    const key: Bytes
    const iv: Bytes
    var text: Bytes
    ghost var fed: Bytes

    ghost predicate Valid()
      reads this
    {
      text == Mask(g, key, iv, 0, fed)
    }

    constructor (g: Gcm, key: Bytes, iv: Bytes)
      ensures this.g == g && this.key == key && this.iv == iv
      ensures Valid() && fed == []
    {
      this.g, this.key, this.iv, text, fed := g, key, iv, [], [];
    }

    method Update(piece: Bytes) returns (enc: Bytes)
      requires Valid()
      modifies this
      ensures Valid() && fed == old(fed) + piece && text == old(text) + enc
    {
      MaskAppend(g, key, iv, 0, fed, piece);
      enc := Mask(g, key, iv, |text|, piece);
      text, fed := text + enc, fed + piece;
    }

    method GetAuthTag() returns (tag: Tag)
      requires Valid()
      ensures text + tag == Seal(g, key, iv, fed)
    {
      tag := g.mac(key, iv, text);
    }
  }

  // ------------------------------------------------------------------------
  // The archive: magic, version, salt, nonce, cipher text, tag
  // ------------------------------------------------------------------------

  /** The ASCII codes of CGBACKUP. */
  const MAGIC: Bytes := [67, 71, 66, 65, 67, 75, 85, 80]
  const FORMAT_VERSION: bv8 := 1
  const HEADER_LEN: nat := |MAGIC| + 1 + SALT_LEN + IV_LEN

  function Header(salt: Bytes, iv: Bytes): Bytes {
    MAGIC + [FORMAT_VERSION] + salt + iv
  }

  /** `kdf` derives the key from the passphrase and the salt. */
  function ArchiveOf(g: Gcm, kdf: (string, Bytes) -> Bytes, passphrase: string,
                     salt: Bytes, iv: Bytes, plain: Bytes): Bytes
  {
    Header(salt, iv) + Seal(g, kdf(passphrase, salt), iv, plain)
  }

  /**
   The response body for the pieces of a tar stream; it does not depend on how the stream was
   cut. With nothing to back up, the header has gone out already and nothing follows it.
   */
  method HandleBackup(g: Gcm, kdf: (string, Bytes) -> Bytes, passphrase: string,
                      salt: Bytes, iv: Bytes, anyPath: bool, pieces: seq<Bytes>) returns (body: Bytes)
    ensures body == if anyPath then ArchiveOf(g, kdf, passphrase, salt, iv, Concat(pieces))
                    else Header(salt, iv)
  {
    var key := kdf(passphrase, salt);
    var header := Header(salt, iv);
    body := header;
    var cipher := new Cipher(g, key, iv);
    if !anyPath {
      return;
    }
    for n := 0 to |pieces|
      invariant cipher.g == g && cipher.key == key && cipher.iv == iv
      invariant cipher.Valid() && cipher.fed == Concat(pieces[..n])
      invariant body == header + cipher.text
    {
      hide Mask, Header;
      ghost var before := cipher.text;
      var enc := cipher.Update(pieces[n]);
      Associates(header, before, enc);
      assert pieces[..n + 1][..n] == pieces[..n];
      if |enc| > 0 {
        body := body + enc;
      }
    }
    assert pieces[..|pieces|] == pieces;
    var tag := cipher.GetAuthTag();
    Associates(header, cipher.text, tag);
    body := body + tag;
  }

  datatype RestoreError = TooShort | BadMagic | UnsupportedVersion | DataDirNotEmpty | DecryptFailed

  predicate HasHeader(buffer: Bytes) {
    && |buffer| >= HEADER_LEN + TAG_LEN
    && buffer[..|MAGIC|] == MAGIC
    && buffer[|MAGIC|] == FORMAT_VERSION
  }

  /** The tar file in an archive. `mayWrite`: no install in the way, or force. */
  function Restored(g: Gcm, kdf: (string, Bytes) -> Bytes, buffer: Bytes, passphrase: string,
                    mayWrite: bool): Result<Bytes, RestoreError>
  {
    if |buffer| < HEADER_LEN + TAG_LEN then Err(TooShort)
    else if buffer[..|MAGIC|] != MAGIC then Err(BadMagic)
    else if buffer[|MAGIC|] != FORMAT_VERSION then Err(UnsupportedVersion)
    else if !mayWrite then Err(DataDirNotEmpty)
    else
      var salt := buffer[|MAGIC| + 1..|MAGIC| + 1 + SALT_LEN];
      var iv := buffer[|MAGIC| + 1 + SALT_LEN..HEADER_LEN];
      match OpenBox(g, kdf(passphrase, salt), iv, buffer[HEADER_LEN..])
      case Some(tar) => Ok(tar)
      case None => Err(DecryptFailed)
  }

  function SaltOf(buffer: Bytes): Bytes
    requires |buffer| >= HEADER_LEN
  {
    buffer[|MAGIC| + 1..|MAGIC| + 1 + SALT_LEN]
  }

  function IvOf(buffer: Bytes): Bytes
    requires |buffer| >= HEADER_LEN
  {
    buffer[|MAGIC| + 1 + SALT_LEN..HEADER_LEN]
  }

  /** The frame is uniquely readable. */
  lemma HeaderExactly(buffer: Bytes, salt: Bytes, iv: Bytes, box: Bytes)
    requires |salt| == SALT_LEN && |iv| == IV_LEN && |box| >= TAG_LEN
    ensures buffer == Header(salt, iv) + box <==>
              HasHeader(buffer) && SaltOf(buffer) == salt && IvOf(buffer) == iv && buffer[HEADER_LEN..] == box
  {
    var framed := Header(salt, iv) + box;
    assert framed[..|MAGIC|] == MAGIC && framed[|MAGIC|] == FORMAT_VERSION;
    assert SaltOf(framed) == salt && IvOf(framed) == iv && framed[HEADER_LEN..] == box;
    if HasHeader(buffer) {
      assert buffer == buffer[..|MAGIC|] + [buffer[|MAGIC|]] + SaltOf(buffer) + IvOf(buffer) + buffer[HEADER_LEN..];
    }
  }

  /** Some backup of `plain` under this passphrase. */
  ghost predicate IsArchive(g: Gcm, kdf: (string, Bytes) -> Bytes, passphrase: string, plain: Bytes, buffer: Bytes) {
    exists salt: Bytes, iv: Bytes ::
      |salt| == SALT_LEN && |iv| == IV_LEN && buffer == ArchiveOf(g, kdf, passphrase, salt, iv, plain)
  }

  /** A file restores to `plain` exactly when it is a backup of `plain` and writing is allowed. */
  lemma RestoresExactlyBackups(g: Gcm, kdf: (string, Bytes) -> Bytes, buffer: Bytes, passphrase: string,
                               mayWrite: bool, plain: Bytes)
    ensures Restored(g, kdf, buffer, passphrase, mayWrite) == Ok(plain) <==>
              mayWrite && IsArchive(g, kdf, passphrase, plain, buffer)
  {
    if HasHeader(buffer) {
      var salt, iv, box := SaltOf(buffer), IvOf(buffer), buffer[HEADER_LEN..];
      HeaderExactly(buffer, salt, iv, box);
      OpensExactly(g, kdf(passphrase, salt), iv, box, plain);
      if Restored(g, kdf, buffer, passphrase, mayWrite) == Ok(plain) {
        assert buffer == ArchiveOf(g, kdf, passphrase, salt, iv, plain);
      }
    }
    if salt: Bytes, iv: Bytes :| |salt| == SALT_LEN && |iv| == IV_LEN
                                 && buffer == ArchiveOf(g, kdf, passphrase, salt, iv, plain) {
      var box := Seal(g, kdf(passphrase, salt), iv, plain);
      HeaderExactly(buffer, salt, iv, box);
      OpensExactly(g, kdf(passphrase, salt), iv, box, plain);
    }
  }

  /** Which refusal a file gets: the tests are made in this order, and decryption comes last. */
  lemma RefusalsExactly(g: Gcm, kdf: (string, Bytes) -> Bytes, buffer: Bytes, passphrase: string, mayWrite: bool)
    ensures var r := Restored(g, kdf, buffer, passphrase, mayWrite);
            if |buffer| < 53 then r == Err(TooShort)
            else if buffer[..8] != [67, 71, 66, 65, 67, 75, 85, 80] then r == Err(BadMagic)
            else if buffer[8] != 1 then r == Err(UnsupportedVersion)
            else if !mayWrite then r == Err(DataDirNotEmpty)
            else r == Err(DecryptFailed) <==> forall plain :: !IsArchive(g, kdf, passphrase, plain, buffer)
  {
    var r := Restored(g, kdf, buffer, passphrase, mayWrite);
    forall plain ensures r == Ok(plain) <==> mayWrite && IsArchive(g, kdf, passphrase, plain, buffer) {
      RestoresExactlyBackups(g, kdf, buffer, passphrase, mayWrite, plain);
    }
    hide IsArchive;
    if mayWrite && HasHeader(buffer) && r.Ok? {
      assert IsArchive(g, kdf, passphrase, r.value, buffer);
    }
  }

  /** Where everything is in a backup. */
  lemma LayoutExactly(g: Gcm, kdf: (string, Bytes) -> Bytes, passphrase: string,
                      salt: Bytes, iv: Bytes, plain: Bytes)
    requires |salt| == 16 && |iv| == 12
    ensures var key := kdf(passphrase, salt);
            var a := ArchiveOf(g, kdf, passphrase, salt, iv, plain);
            && |a| == 37 + |plain| + 16
            && a[..8] == [67, 71, 66, 65, 67, 75, 85, 80] && a[8] == 1
            && a[9..25] == salt && a[25..37] == iv
            && (forall i :: 0 <= i < |plain| ==> a[37 + i] == plain[i] ^ g.stream(key, iv, i))
            && a[37 + |plain|..] == g.mac(key, iv, a[37..37 + |plain|])
  {
    var key := kdf(passphrase, salt);
    var a := ArchiveOf(g, kdf, passphrase, salt, iv, plain);
    var text := Mask(g, key, iv, 0, plain);
    var tag := g.mac(key, iv, text);
    assert a == MAGIC + [FORMAT_VERSION] + salt + iv + (text + tag);
    assert |Header(salt, iv)| == 37;
    assert a[37..37 + |plain|] == text;
    forall i | 0 <= i < |plain| ensures a[37 + i] == plain[i] ^ g.stream(key, iv, i) {
      assert a[37 + i] == text[i];
    }
  }

  /** Whatever pieces a backup was written in, the empty one included, restoring gives them back. */
  lemma RestoreUndoesBackup(g: Gcm, kdf: (string, Bytes) -> Bytes, passphrase: string,
                            salt: Bytes, iv: Bytes, pieces: seq<Bytes>)
    requires |salt| == SALT_LEN && |iv| == IV_LEN
    ensures Restored(g, kdf, ArchiveOf(g, kdf, passphrase, salt, iv, Concat(pieces)), passphrase, true) ==
            Ok(Concat(pieces))
  {
    var buffer := ArchiveOf(g, kdf, passphrase, salt, iv, Concat(pieces));
    RestoresExactlyBackups(g, kdf, buffer, passphrase, true, Concat(pieces));
  }

  /** A backup that found nothing to back up is refused as too short. */
  lemma EmptyBackupIsTooShort(g: Gcm, kdf: (string, Bytes) -> Bytes, passphrase: string, salt: Bytes, iv: Bytes,
                              mayWrite: bool)
    requires |salt| == SALT_LEN && |iv| == IV_LEN
    ensures Restored(g, kdf, Header(salt, iv), passphrase, mayWrite) == Err(TooShort)
  {
  }

  type Files = map<string, Bytes>

  class DataDir {
    var files: Files

    predicate HasInstall()
      reads this
    {
      "db/db.sqlite" in files && "secrets/encryption.key" in files
    }

    /**
     `untar` extracts an archive over the files and tells whether it got to the end. A refusal
     happens before anything is written; `None` is an extraction that broke off.
     */
    method RestoreFromBuffer(g: Gcm, kdf: (string, Bytes) -> Bytes, untar: (Files, Bytes) -> (Files, bool),
                             buffer: Bytes, passphrase: string, force: bool)
      returns (outcome: Option<Result<Bytes, RestoreError>>)
      modifies this
      ensures var installed := "db/db.sqlite" in old(files) && "secrets/encryption.key" in old(files);
              var r := Restored(g, kdf, buffer, passphrase, force || !installed);
              match r
              case Err(_) => outcome == Some(r) && files == old(files)
              case Ok(tar) =>
                files == untar(old(files), tar).0
                && outcome == if untar(old(files), tar).1 then Some(r) else None
    {
      if |buffer| < |MAGIC| + 1 + SALT_LEN + IV_LEN + TAG_LEN {
        return Some(Err(TooShort));
      }
      if buffer[..|MAGIC|] != MAGIC {
        return Some(Err(BadMagic));
      }
      if buffer[|MAGIC|] != 1 {
        return Some(Err(UnsupportedVersion));
      }
      if HasInstall() && !force {
        return Some(Err(DataDirNotEmpty));
      }
      var i := |MAGIC| + 1;
      var salt := buffer[i..i + SALT_LEN];
      i := i + SALT_LEN;
      var iv := buffer[i..i + IV_LEN];
      i := i + IV_LEN;
      var text, tag := buffer[i..|buffer| - TAG_LEN], buffer[|buffer| - TAG_LEN..];
      ghost var box := buffer[HEADER_LEN..];
      assert box[..|box| - TAG_LEN] == text && box[|box| - TAG_LEN..] == tag;
      var plain := Open(g, kdf(passphrase, salt), iv, text, tag);
      if plain.None? {
        return Some(Err(DecryptFailed));
      }
      var (after, complete) := untar(files, plain.value);
      files := after;
      return if complete then Some(Ok(plain.value)) else None;
    }

    /** The marker is written after a complete restore only. */
    method RestoreAndMark(g: Gcm, kdf: (string, Bytes) -> Bytes, untar: (Files, Bytes) -> (Files, bool),
                          buffer: Bytes, passphrase: string, force: bool, marker: Bytes)
      returns (outcome: Option<Result<Bytes, RestoreError>>)
      modifies this
      ensures var installed := "db/db.sqlite" in old(files) && "secrets/encryption.key" in old(files);
              var r := Restored(g, kdf, buffer, passphrase, force || !installed);
              match r
              case Err(_) => outcome == Some(r) && files == old(files)
              case Ok(tar) =>
                var (after, complete) := untar(old(files), tar);
                if complete then outcome == Some(r) && files == after[".bootstrap-complete" := marker]
                else outcome == None && files == after
    {
      outcome := RestoreFromBuffer(g, kdf, untar, buffer, passphrase, force);
      if outcome.Some? && outcome.value.Ok? {
        files := files[".bootstrap-complete" := marker];
      }
    }
  }

  // ------------------------------------------------------------------------
  // Secrets in the database: nonce, cipher text, tag
  // ------------------------------------------------------------------------

  datatype DecryptError = CiphertextTooShort | NotAuthentic

  function Encrypt(g: Gcm, key: Bytes, nonce: Bytes, plain: Bytes): Bytes {
    nonce + Seal(g, key, nonce, plain)
  }

  function Decrypt(g: Gcm, key: Bytes, data: Bytes): Result<Bytes, DecryptError> {
    if |data| < IV_LEN + TAG_LEN then Err(CiphertextTooShort)
    else
      var nonce, tag := data[..IV_LEN], data[|data| - TAG_LEN..];
      var text := data[IV_LEN..|data| - TAG_LEN];
      match Open(g, key, nonce, text, tag)
      case Some(plain) => Ok(plain)
      case None => Err(NotAuthentic)
  }

  /** Decryption gives `plain` exactly for its encryptions. */
  lemma DecryptsExactly(g: Gcm, key: Bytes, data: Bytes, plain: Bytes)
    ensures Decrypt(g, key, data) == Ok(plain) <==>
            exists nonce: Bytes :: |nonce| == IV_LEN && data == Encrypt(g, key, nonce, plain)
  {
    if |data| >= IV_LEN + TAG_LEN {
      var nonce, box := data[..IV_LEN], data[IV_LEN..];
      assert box[..|box| - TAG_LEN] == data[IV_LEN..|data| - TAG_LEN];
      assert box[|box| - TAG_LEN..] == data[|data| - TAG_LEN..];
      OpensExactly(g, key, nonce, box, plain);
      assert data == nonce + box;
      if Decrypt(g, key, data) == Ok(plain) {
        assert data == Encrypt(g, key, nonce, plain);
      }
    }
    if nonce: Bytes :| |nonce| == IV_LEN && data == Encrypt(g, key, nonce, plain) {
      assert data[..IV_LEN] == nonce && data[IV_LEN..] == Seal(g, key, nonce, plain);
    }
  }

  /** The ASCII codes of cloudgate-key-check-v1. */
  const KEY_CHECK: Bytes := [99, 108, 111, 117, 100, 103, 97, 116, 101, 45, 107, 101, 121, 45,
                             99, 104, 101, 99, 107, 45, 118, 49]

  class Settings {
    var keyCheck: Option<Bytes>

    /** Seeds the check value at the first start, and afterwards only reads it. */
    method VerifyKeyOrSeed(g: Gcm, key: Bytes, nonce: Bytes) returns (ok: bool)
      requires |nonce| == IV_LEN
      modifies this
      ensures old(keyCheck).Some? ==> keyCheck == old(keyCheck)
      ensures keyCheck.Some?
      ensures ok <==> exists n: Bytes :: |n| == IV_LEN && keyCheck == Some(Encrypt(g, key, n, KEY_CHECK))
      ensures old(keyCheck).None? ==> ok
    {
      if keyCheck.None? {
        keyCheck := Some(Encrypt(g, key, nonce, KEY_CHECK));
        return true;
      }
      DecryptsExactly(g, key, keyCheck.value, KEY_CHECK);
      ok := Decrypt(g, key, keyCheck.value) == Ok(KEY_CHECK);
    }
  }
}

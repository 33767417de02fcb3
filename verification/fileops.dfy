/** The three per-file operations — `encrypt_file`, `decrypt_file` and
    the removal done by `secure_delete` — first as functions from a file
    system to a result and a new file system, then as methods on a
    mutable `FileSystem` that are proved to follow those functions. */
module FileOps {
  import opened Common
  import opened Container
  import opened Paths
  import opened Cipher

  /** The file system: the contents of every file, by path. */
  type Files = map<Path, Bytes>

  /** What a per-file operation returns (the path it wrote, or the
      exception it raised) and the file system it leaves behind. */
  datatype Effect = Effect(result: Result<Path>, files: Files)

  /** `encrypt_file(path, passphrase)` with its salt and nonce drawn in
      advance. Reading a missing file raises; otherwise the container is
      written beside the source and every other file is left alone. */
  function Encrypt(files: Files, path: Path, passphrase: string, suite: Suite,
                   salt: Block16, nonce: Block16): (e: Effect)
    ensures e.result.Ok? <==> path in files
    ensures e.result.Err? ==> e.result.error == IOFailure && e.files == files
    ensures e.result.Ok? ==>
      var out := EncryptedPath(path);
      var sealed := suite.seal(suite.derive(passphrase, salt), nonce, files[path]);
      && e.result.value == out
      && e.files.Keys == files.Keys + {out}
      && (forall q :: q in files && q != out ==> e.files[q] == files[q])
      && |e.files[out]| == 32 + |sealed.1| + |sealed.0|
      && e.files[out][..16] == salt
      && e.files[out][16..32] == nonce
      && e.files[out][32..] == sealed.1 + sealed.0
      && (|sealed.1| == TagLen ==>
            Split(e.files[out]) == Parts(salt, nonce, sealed.1, sealed.0))
  {
    if path !in files then Effect(Err(IOFailure), files)
    else
      var key := suite.derive(passphrase, salt);
      var (ciphertext, tag) := suite.seal(key, nonce, files[path]);
      var out := EncryptedPath(path);
      var parts := Parts(salt, nonce, tag, ciphertext);
      assert Frame(parts) == salt + nonce + (tag + ciphertext);
      assert |tag| == TagLen ==> Split(Frame(parts)) == parts by {
        if |tag| == TagLen { SplitFrame(parts); }
      }
      Effect(Ok(out), files[out := Frame(parts)])
  }

  /** What the cipher makes of a container: the plaintext, or `None`
      when `AES.new` or `decrypt_and_verify` raises. The key comes from
      the salt stored in the container, and the nonce, tag and ciphertext
      from their fixed offsets; a container of at most 16 bytes reaches
      the cipher with an empty nonce, tag and ciphertext. */
  function OpenContainer(container: Bytes, passphrase: string, suite: Suite): (r: Option<Bytes>)
    ensures |container| >= HeaderLen ==>
      r == suite.open(suite.derive(passphrase, container[..16]), container[16..32],
                      container[HeaderLen..], container[32..HeaderLen])
    ensures |container| <= SaltLen ==>
      r == suite.open(suite.derive(passphrase, container), [], [], [])
  {
    SplitAtOffsets(container);
    var p := Split(container);
    suite.open(suite.derive(passphrase, p.salt), p.nonce, p.ciphertext, p.tag)
  }

  /** The split read at fixed offsets: for a container at least as long
      as the header, the four pieces are the slices at 0, 16, 32 and 48. */
  lemma SplitAtOffsets(container: Bytes)
    ensures |container| >= HeaderLen ==>
      Split(container) == Parts(container[..16], container[16..32],
                                container[32..HeaderLen], container[HeaderLen..])
    ensures |container| <= SaltLen ==> Split(container) == Parts(container, [], [], [])
  {
    var p := Split(container);
    if |container| >= HeaderLen {
      assert container == p.salt + p.nonce + p.tag + p.ciphertext;
      assert p.salt == container[..16];
      assert p.nonce == container[16..32];
      assert p.tag == container[32..HeaderLen];
      assert p.ciphertext == container[HeaderLen..];
    } else if |container| <= SaltLen {
      assert |Frame(p)| == |container|;
    }
  }

  /** `decrypt_file(path, passphrase)`. The output file is written only
      when the tag verified, and then holds exactly the verified
      plaintext; on any failure the file system is untouched. */
  function Decrypt(files: Files, path: Path, passphrase: string, suite: Suite): (e: Effect)
    ensures e.result.Err? ==> e.files == files
    ensures e.result.Err? ==>
      (e.result.error == AuthenticationFailure <==> path in files)
    ensures e.result.Ok? ==>
      var out := DecryptedPath(path);
      && path in files
      && e.result.value == out
      && e.files.Keys == files.Keys + {out}
      && (forall q :: q in files && q != out ==> e.files[q] == files[q])
      && OpenContainer(files[path], passphrase, suite) == Some(e.files[out])
    ensures path in files && OpenContainer(files[path], passphrase, suite).Some? ==> e.result.Ok?
  {
    if path !in files then Effect(Err(IOFailure), files)
    else
      match OpenContainer(files[path], passphrase, suite)
      case None => Effect(Err(AuthenticationFailure), files)
      case Some(plaintext) =>
        var out := DecryptedPath(path);
        Effect(Ok(out), files[out := plaintext])
  }

  /** The end of `secure_delete(path)`: `os.remove(path)`. Opening in
      append mode first creates a missing file, so the removal never
      fails here; afterwards the path is gone and nothing else changed. */
  function Erase(files: Files, path: Path): (r: Files)
    ensures path !in r
    ensures forall q :: q != path ==> (q in r <==> q in files)
    ensures forall q :: q in r ==> r[q] == files[q]
  {
    files - {path}
  }

  /** Encrypting a file and then decrypting the container with the same
      passphrase writes the original bytes back, under the name that
      `rstrip` leaves. */
  lemma EncryptDecryptRoundTrip(files: Files, path: Path, passphrase: string, suite: Suite,
                                salt: Block16, nonce: Block16)
    requires GcmShape(suite) && OpensSealed(suite)
    requires path in files
    ensures
      var enc := Encrypt(files, path, passphrase, suite, salt, nonce);
      var dec := Decrypt(enc.files, EncryptedPath(path), passphrase, suite);
      && dec.result == Ok(RStrip(path, StripChars))
      && dec.files[RStrip(path, StripChars)] == files[path]
  {
    var key := suite.derive(passphrase, salt);
    var sealed := suite.seal(key, nonce, files[path]);
    var parts := Parts(salt, nonce, sealed.1, sealed.0);
    assert WellSized(parts);
    SplitFrame(parts);
    var enc := Encrypt(files, path, passphrase, suite, salt, nonce);
    assert enc.files[EncryptedPath(path)] == Frame(parts);
    assert OpenContainer(Frame(parts), passphrase, suite) == Some(files[path]);
    DecryptedEncryptedPath(path);
  }

  /** The mutable file system the program works on. */
  class FileSystem {
    var files: Files

    constructor (initial: Files)
      ensures files == initial
    {
      files := initial;
    }

    /** `open(path, 'rb').read()`: the whole file, or an I/O error when
        there is no such file. */
    method ReadAll(path: Path) returns (r: Result<Bytes>)
      ensures r.Ok? <==> path in files
      ensures r.Ok? ==> r.value == files[path]
      ensures r.Err? ==> r.error == IOFailure
    {
      if path in files {
        r := Ok(files[path]);
      } else {
        r := Err(IOFailure);
      }
    }

    /** `open(path, 'wb').write(data)`: creates or replaces the file. */
    method WriteAll(path: Path, data: Bytes)
      modifies this
      ensures files == old(files)[path := data]
    {
      files := files[path := data];
    }

    /** `secure_delete(path)`, whose overwrite is not modelled. */
    method SecureDelete(path: Path)
      modifies this
      ensures files == Erase(old(files), path)
    {
      files := files - {path};
    }
  }

  /** `encrypt_file` on the mutable file system. */
  method EncryptFile(fs: FileSystem, path: Path, passphrase: string, suite: Suite,
                     salt: Block16, nonce: Block16) returns (r: Result<Path>)
    modifies fs
    ensures Effect(r, fs.files) == Encrypt(old(fs.files), path, passphrase, suite, salt, nonce)
  {
    var key := suite.derive(passphrase, salt);
    var read := fs.ReadAll(path);
    if read.Err? {
      return Err(read.error);
    }
    var (ciphertext, tag) := suite.seal(key, nonce, read.value);
    var out := EncryptedPath(path);
    fs.WriteAll(out, Frame(Parts(salt, nonce, tag, ciphertext)));
    r := Ok(out);
  }

  /** `decrypt_file` on the mutable file system. */
  method DecryptFile(fs: FileSystem, path: Path, passphrase: string, suite: Suite)
    returns (r: Result<Path>)
    modifies fs
    ensures Effect(r, fs.files) == Decrypt(old(fs.files), path, passphrase, suite)
  {
    var read := fs.ReadAll(path);
    if read.Err? {
      return Err(read.error);
    }
    var parts := Split(read.value);
    var key := suite.derive(passphrase, parts.salt);
    var plain := suite.open(key, parts.nonce, parts.ciphertext, parts.tag);
    if plain.None? {
      return Err(AuthenticationFailure);
    }
    var out := DecryptedPath(path);
    fs.WriteAll(out, plain.value);
    r := Ok(out);
  }
}

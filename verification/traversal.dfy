/** `process_directory`: refuse a restricted root, otherwise apply one
    action to every file of the tree, in walk order, catching each file's
    exception and carrying on with the next. */
module Traversal {
  import opened Common
  import opened Container
  import opened Paths
  import opened Cipher
  import opened Guard
  import opened FileOps

  /** What happened to one listed file; each outcome names its file. */
  datatype Outcome =
    | Encrypted(path: Path, output: Path)
    | Decrypted(path: Path, output: Path)
    | Deleted(path: Path)
    | Failed(path: Path, error: Error)
    | Skipped(path: Path)

  /** The result of `process_directory`: the early return on a
      restricted root, or one outcome per listed file. */
  datatype Report = Restricted | Walked(log: seq<Outcome>)

  /** The random bytes one encryption draws: the salt and the nonce. */
  datatype Entropy = Entropy(salt: Block16, nonce: Block16)

  /** One file handled: its outcome and the file system afterwards. */
  datatype Visit = Visit(outcome: Outcome, files: Files)

  /** Everything walked so far: the file system and the outcomes in order. */
  datatype WalkState = WalkState(files: Files, log: seq<Outcome>)

  predicate KnownAction(action: string)
  {
    action == "encrypt" || action == "decrypt" || action == "delete"
  }

  /** The body of the inner loop for one file, with the `try`/`except`
      turning an exception into a `Failed` outcome. */
  function Step(files: Files, path: Path, action: string, passphrase: string,
                suite: Suite, entropy: Entropy): (v: Visit)
    ensures v.outcome.path == path
    ensures v.outcome.Failed? ==> v.files == files
    ensures v.outcome.Skipped? <==> !KnownAction(action)
    ensures v.outcome.Skipped? ==> v.files == files
  {
    if action == "encrypt" then
      var e := Encrypt(files, path, passphrase, suite, entropy.salt, entropy.nonce);
      match e.result
      case Ok(out) => Visit(Encrypted(path, out), Erase(e.files, path))
      case Err(err) => Visit(Failed(path, err), e.files)
    else if action == "decrypt" then
      var e := Decrypt(files, path, passphrase, suite);
      match e.result
      case Ok(out) => Visit(Decrypted(path, out), e.files)
      case Err(err) => Visit(Failed(path, err), e.files)
    else if action == "delete" then
      Visit(Deleted(path), Erase(files, path))
    else
      Visit(Skipped(path), files)
  }

  /** The walk over the listed files, the i-th file drawing `entropy(i)`:
      every file is attempted, in order, whatever happened to the earlier
      ones. */
  function WalkFiles(files: Files, listing: seq<Path>, action: string, passphrase: string,
                     suite: Suite, entropy: nat -> Entropy): (w: WalkState)
    ensures |w.log| == |listing|
    ensures forall i :: 0 <= i < |listing| ==> w.log[i].path == listing[i]
    decreases |listing|
  {
    if listing == [] then WalkState(files, [])
    else
      var last := |listing| - 1;
      var before := WalkFiles(files, listing[..last], action, passphrase, suite, entropy);
      var v := Step(before.files, listing[last], action, passphrase, suite, entropy(last));
      WalkState(v.files, before.log + [v.outcome])
  }

  /** For `encrypt`, the source is removed only once its container has
      been written: a failure leaves everything in place, and a success
      leaves the container, holding salt, nonce and the sealed data,
      where the source's name plus ".enc" points. */
  lemma EncryptRemovesSourceOnlyAfterSuccess(files: Files, path: Path, passphrase: string,
                                             suite: Suite, entropy: Entropy)
    ensures
      var v := Step(files, path, "encrypt", passphrase, suite, entropy);
      && (v.outcome.Encrypted? <==> path in files)
      && (v.outcome.Failed? ==> v.files == files)
      && (v.outcome.Encrypted? ==>
            var sealed := suite.seal(suite.derive(passphrase, entropy.salt), entropy.nonce, files[path]);
            && path !in v.files
            && v.outcome.output == EncryptedPath(path)
            && EncryptedPath(path) in v.files
            && v.files[EncryptedPath(path)][..16] == entropy.salt
            && v.files[EncryptedPath(path)][16..32] == entropy.nonce
            && v.files[EncryptedPath(path)][32..] == sealed.1 + sealed.0)
      && (forall q :: q != path && q != EncryptedPath(path) ==>
            (q in v.files <==> q in files) && (q in v.files ==> v.files[q] == files[q]))
  {
    var out := EncryptedPath(path);
    assert out != path by {
      assert |out| == |path| + |EncSuffix|;
    }
  }

  /** For `decrypt`, nothing is written unless the tag verified, and what
      is written is the verified plaintext. */
  lemma DecryptWritesOnlyAfterVerify(files: Files, path: Path, passphrase: string,
                                     suite: Suite, entropy: Entropy)
    ensures
      var v := Step(files, path, "decrypt", passphrase, suite, entropy);
      && (v.files != files ==> v.outcome.Decrypted?)
      && (v.outcome.Decrypted? ==>
            && path in files
            && v.outcome.output == DecryptedPath(path)
            && OpenContainer(files[path], passphrase, suite) == Some(v.files[DecryptedPath(path)]))
      && (path in files && OpenContainer(files[path], passphrase, suite).None? ==>
            v == Visit(Failed(path, AuthenticationFailure), files))
      && (forall q :: q != DecryptedPath(path) ==>
            (q in v.files <==> q in files) && (q in v.files ==> v.files[q] == files[q]))
  {
  }

  /** An action other than `encrypt`, `decrypt` or `delete` changes no
      file and skips every file. */
  lemma {:induction false} UnknownActionChangesNothing(files: Files, listing: seq<Path>, action: string,
                                                       passphrase: string, suite: Suite,
                                                       entropy: nat -> Entropy)
    requires !KnownAction(action)
    ensures WalkFiles(files, listing, action, passphrase, suite, entropy).files == files
    ensures forall i :: 0 <= i < |listing| ==>
      WalkFiles(files, listing, action, passphrase, suite, entropy).log[i] == Skipped(listing[i])
    decreases |listing|
  {
    if listing != [] {
      UnknownActionChangesNothing(files, listing[..|listing| - 1], action, passphrase, suite, entropy);
    }
  }

  /** Walking with `delete` removes exactly the listed files and leaves
      the others as they were. */
  lemma {:induction false} DeleteRemovesExactlyTheListed(files: Files, listing: seq<Path>,
                                                         passphrase: string, suite: Suite,
                                                         entropy: nat -> Entropy)
    ensures
      var w := WalkFiles(files, listing, "delete", passphrase, suite, entropy);
      && (forall q :: q in w.files <==> q in files && q !in listing)
      && (forall q :: q in w.files ==> w.files[q] == files[q])
    decreases |listing|
  {
    if listing != [] {
      var last := |listing| - 1;
      DeleteRemovesExactlyTheListed(files, listing[..last], passphrase, suite, entropy);
      assert forall q :: q in listing <==> q in listing[..last] || q == listing[last];
    }
  }

  /** The walk is a left fold: the i-th outcome is what the i-th file's
      step gives on the file system the first i files left behind. */
  lemma {:induction false} WalkVisitsEachInTurn(files: Files, listing: seq<Path>, action: string,
                                                passphrase: string, suite: Suite,
                                                entropy: nat -> Entropy, i: nat)
    requires i < |listing|
    ensures WalkFiles(files, listing, action, passphrase, suite, entropy).log[i]
         == Step(WalkFiles(files, listing[..i], action, passphrase, suite, entropy).files,
                 listing[i], action, passphrase, suite, entropy(i)).outcome
    decreases |listing|
  {
    var last := |listing| - 1;
    var before := WalkFiles(files, listing[..last], action, passphrase, suite, entropy);
    var v := Step(before.files, listing[last], action, passphrase, suite, entropy(last));
    var w := WalkFiles(files, listing, action, passphrase, suite, entropy);
    assert w == WalkState(v.files, before.log + [v.outcome]);
    if i < last {
      WalkVisitsEachInTurn(files, listing[..last], action, passphrase, suite, entropy, i);
      assert listing[..last][..i] == listing[..i];
      assert w.log[i] == before.log[i];
    } else {
      assert listing[..i] == listing[..last];
      assert w.log[i] == v.outcome;
    }
  }

  /** A file encrypted by the walk and then decrypted by the walk comes
      back with its original contents under its original name, provided
      the name does not end in a character `rstrip('.enc')` removes. */
  lemma EncryptThenDecryptRestores(files: Files, path: Path, passphrase: string, suite: Suite,
                                   e1: Entropy, e2: Entropy)
    requires GcmShape(suite) && OpensSealed(suite)
    requires path in files
    requires path != [] && path[|path| - 1] !in StripChars
    ensures
      var enc := Step(files, path, "encrypt", passphrase, suite, e1);
      var dec := Step(enc.files, EncryptedPath(path), "decrypt", passphrase, suite, e2);
      && dec.outcome == Decrypted(EncryptedPath(path), path)
      && path in dec.files
      && dec.files[path] == files[path]
  {
    var enc := Encrypt(files, path, passphrase, suite, e1.salt, e1.nonce);
    EncryptDecryptRoundTrip(files, path, passphrase, suite, e1.salt, e1.nonce);
    NameRoundTrip(path);
    var out := EncryptedPath(path);
    assert out != path by {
      assert |out| == |path| + |EncSuffix|;
    }
    var erased := Erase(enc.files, path);
    assert out in erased && erased[out] == enc.files[out];
    assert Decrypt(erased, out, passphrase, suite).result
        == Decrypt(enc.files, out, passphrase, suite).result;
  }

  /** The `try` block for one file on the mutable file system. */
  method ProcessFile(fs: FileSystem, path: Path, action: string, passphrase: string,
                     suite: Suite, entropy: Entropy) returns (outcome: Outcome)
    modifies fs
    ensures Visit(outcome, fs.files) == Step(old(fs.files), path, action, passphrase, suite, entropy)
  {
    if action == "encrypt" {
      var r := EncryptFile(fs, path, passphrase, suite, entropy.salt, entropy.nonce);
      if r.Ok? {
        fs.SecureDelete(path);
        outcome := Encrypted(path, r.value);
      } else {
        outcome := Failed(path, r.error);
      }
    } else if action == "decrypt" {
      var r := DecryptFile(fs, path, passphrase, suite);
      if r.Ok? {
        outcome := Decrypted(path, r.value);
      } else {
        outcome := Failed(path, r.error);
      }
    } else if action == "delete" {
      fs.SecureDelete(path);
      outcome := Deleted(path);
    } else {
      outcome := Skipped(path);
    }
  }

  /** `process_directory(directory, action, passphrase)` over the files
      the walk lists under `directory`. */
  method ProcessDirectory(fs: FileSystem, directory: Path, listing: seq<Path>, action: string,
                          passphrase: string, suite: Suite, host: Host,
                          entropy: nat -> Entropy) returns (report: Report)
    modifies fs
    ensures IsRestrictedDirectory(directory, host) ==>
      report == Restricted && fs.files == old(fs.files)
    ensures !IsRestrictedDirectory(directory, host) ==>
      var w := WalkFiles(old(fs.files), listing, action, passphrase, suite, entropy);
      report == Walked(w.log) && fs.files == w.files
  {
    if IsRestrictedDirectory(directory, host) {
      return Restricted;
    }
    var log: seq<Outcome> := [];
    var i := 0;
    while i < |listing|
      invariant 0 <= i <= |listing|
      invariant WalkFiles(old(fs.files), listing[..i], action, passphrase, suite, entropy)
             == WalkState(fs.files, log)
    {
      var outcome := ProcessFile(fs, listing[i], action, passphrase, suite, entropy(i));
      log := log + [outcome];
      assert listing[..i + 1][..i] == listing[..i];
      i := i + 1;
    }
    assert listing[..i] == listing;
    report := Walked(log);
  }
}

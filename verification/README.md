# PyCrypt file handling, modelled in Dafny

PyCrypt encrypts, decrypts and securely deletes single files, or every file under a
directory, with a key derived from a passphrase. This project models the logic around
the cryptography:
- the container layout and how it is read back;
- how encrypted and decrypted files are named;
- the guard that refuses to walk a protected directory;
- the walk that applies one action to every file and keeps going after a failure.

The cryptographic primitives are parameters. PBKDF2 and AES-GCM are the three function
fields of `Cipher.Suite`. The random salt and nonce are 16-byte values passed in,
indexed by the position of the file in the walk. The file system is a
`map<Path, Bytes>`, held in the `files` field of the class `FileOps.FileSystem`.

Modules, leaves first:
- `Common`: bytes, paths, `Result`, and the error kinds `IOFailure` and `AuthenticationFailure`.
- `Container`: `Frame` writes salt, nonce, tag and ciphertext back to back. `Split` is
  the four consecutive reads of 16, 16, 16 and "the rest" bytes. Each read returns
  short at end of file rather than failing.
- `Paths`: appending ".enc", and `rstrip('.enc')`. Python takes the argument of `rstrip`
  as a set of characters, so `rstrip('.enc')` trims every trailing '.', 'e', 'n' and 'c'.
  "dance.enc" therefore becomes "da". The model keeps this behaviour as written.
- `Cipher`: the abstract suite. It also has two predicates on it, standing for what the
  GCM library is trusted to do: the sizes it produces, and that opening what was sealed
  gives the plaintext back. Lemmas that need them take them as hypotheses.
- `Guard`: `is_restricted_directory`, which tests whether the resolved path is the home
  directory, "/" or, on Windows only, "C:\".
- `FileOps`: `encrypt_file`, `decrypt_file` and the removal in `secure_delete`. Encrypt
  and decrypt are functions from a file system to a result and a new file system; the
  removal is a function from a file system to a file system. Each also has a method on
  `FileSystem` proved to follow its function.
- `Traversal`: one step of the walk as a function, and the walk as a left fold over the
  listed files. `ProcessDirectory` is a loop method proved to follow the fold.

Three behaviours of the code are worth knowing, and the model keeps them as written:
- `rstrip('.enc')` trims any trailing '.', 'e', 'n' and 'c', not one exact ".enc" suffix,
  and nothing checks that the suffix was there.
- There is no length check on a container: one shorter than 48 bytes is split into short
  pieces, and only the cipher can reject it.
- `secure_delete` opens the file in append mode before writing random bytes, so whether
  the old bytes are overwritten depends on the platform. Only the removal is modelled.

## Model

| member | source | states |
|---|---|---|
| Container.Frame | pycrypt.py:22 | the container is salt, nonce, tag, ciphertext in that order: with 16-byte header fields they sit at offsets 0, 16, 32 and 48 |
| Container.Read | pycrypt.py:28 | `read(n)` returns the next min(n, remaining) bytes, or all remaining bytes for a negative n, and never fails |
| Container.ReadEach | pycrypt.py:28 | the list comprehension gives one piece per requested size |
| Container.ReadEachCovers | pycrypt.py:28 | consecutive reads return adjacent stretches of the file, and everything to the end when the last size is -1 |
| Container.Split | pycrypt.py:28 | the 16/16/16/rest split always succeeds and partitions its input, each header piece being as long as the bytes left allow |
| Container.SplitFrame | pycrypt.py:14-28 | splitting a framed container with 16-byte salt, nonce and tag returns exactly the four parts written |
| Container.SplitShort | pycrypt.py:28 | a container shorter than 48 bytes yields short header pieces and an empty ciphertext instead of an error |
| Paths.EncryptedPath | pycrypt.py:20 | the encrypted name is the original name followed by ".enc" |
| Paths.DecryptedPath | pycrypt.py:32 | the decrypted name is a prefix of the encrypted name, is empty or ends outside '.', 'e', 'n', 'c', and drops only those characters |
| Paths.RStrip | pycrypt.py:32 | `rstrip` returns a prefix of its input that is empty or ends outside the strip set, and drops only characters of the set |
| Paths.RStripIdempotent | pycrypt.py:32 | stripping twice equals stripping once |
| Paths.RStripUnique | pycrypt.py:32 | those three properties determine the result of `rstrip` uniquely |
| Paths.RStripAppend | pycrypt.py:32 | appending strippable characters does not change the result of `rstrip` |
| Paths.DecryptedEncryptedPath | pycrypt.py:20-32 | the decrypted name of an encrypted file is the original name with its own trailing '.', 'e', 'n', 'c' trimmed too |
| Paths.NameRoundTrip | pycrypt.py:20-32 | add-then-strip gives back the name if and only if the name is empty or does not end in '.', 'e', 'n' or 'c' |
| Paths.DanceLosesItsEnding | pycrypt.py:20-32 | "dance" is encrypted to "dance.enc", which decrypts to "da" |
| Guard.RestrictedPaths | pycrypt.py:57-62 | the protected list is the home directory and "/", plus "C:\" on Windows |
| Guard.IsRestrictedDirectory | pycrypt.py:56-63 | a directory is restricted if and only if its resolved path is the home directory, "/", or "C:\" on Windows |
| Guard.GuardSeesResolvedPath | pycrypt.py:63 | two spellings with the same resolved path are refused or admitted together |
| Guard.DriveRootOnlyOnWindows | pycrypt.py:61-63 | off Windows, "C:\" is refused only if it is the home directory |
| FileOps.Encrypt | pycrypt.py:12-23 | fails with an I/O error exactly when the source is missing (the cipher functions never fail), changing nothing. Otherwise it writes salt, nonce, tag and ciphertext to name+".enc", leaves every other file alone, and the container splits back into its parts when the tag is 16 bytes |
| FileOps.Decrypt | pycrypt.py:25-35 | the output is written only when the cipher opens the container. It then holds the verified plaintext under the `rstrip` name, and nothing else changes. Any failure leaves the file system unchanged, and the failure is a cipher rejection (reported as `AuthenticationFailure`) exactly when the file exists |
| FileOps.OpenContainer | pycrypt.py:28-31 | the key is derived from the stored salt and the cipher gets the nonce, tag and ciphertext at offsets 16, 32 and 48. A container of at most 16 bytes reaches the cipher with an empty nonce, tag and ciphertext |
| FileOps.SplitAtOffsets | pycrypt.py:28 | for a container of at least 48 bytes the four reads are the slices at 0, 16, 32 and 48. One of at most 16 bytes is all salt |
| FileOps.Erase | pycrypt.py:43 | after removal the path is absent and every other file is unchanged |
| FileOps.EncryptDecryptRoundTrip | pycrypt.py:12-35 | with a GCM-shaped suite whose open inverts seal, decrypting the container gives back the original bytes under the `rstrip` name |
| FileOps.FileSystem.ReadAll | pycrypt.py:17-18 | reading returns the file's bytes, or an I/O error when there is no such file |
| FileOps.FileSystem.WriteAll | pycrypt.py:21-22 | writing creates or replaces exactly one file |
| FileOps.FileSystem.SecureDelete | pycrypt.py:37-43 | the file system afterwards is the removal of the path |
| FileOps.EncryptFile | pycrypt.py:12-23 | the method's result and new file system are those of `FileOps.Encrypt` |
| FileOps.DecryptFile | pycrypt.py:25-35 | the method's result and new file system are those of `FileOps.Decrypt` |
| Traversal.Step | pycrypt.py:72-84 | each outcome names its file, a failed file leaves the file system unchanged, and an unknown action skips the file without changing anything |
| Traversal.WalkFiles | pycrypt.py:69-84 | every listed file gets exactly one outcome, in listing order, whatever happened to earlier files |
| Traversal.EncryptRemovesSourceOnlyAfterSuccess | pycrypt.py:73-75 | the source is removed only when encryption succeeded, which is exactly when it existed. The container then holds salt, nonce, tag and ciphertext at name+".enc", and no file other than the source and the container changes |
| Traversal.DecryptWritesOnlyAfterVerify | pycrypt.py:77-78 | a decrypt step changes the file system only on success, writing the verified plaintext. A container the cipher rejects gives an authentication failure and changes nothing. No file other than the output changes |
| Traversal.UnknownActionChangesNothing | pycrypt.py:72-84 | an action other than encrypt, decrypt or delete leaves every file unchanged and skips every file |
| Traversal.DeleteRemovesExactlyTheListed | pycrypt.py:80-81 | walking with delete removes exactly the listed files and leaves the rest as they were |
| Traversal.WalkVisitsEachInTurn | pycrypt.py:69-84 | the i-th outcome is the step on the file system the first i files left behind |
| Traversal.EncryptThenDecryptRestores | pycrypt.py:73-78 | a file encrypted by the walk and then decrypted comes back with its bytes under its own name, when the name does not end in '.', 'e', 'n' or 'c' |
| Traversal.ProcessFile | pycrypt.py:72-84 | the per-file dispatch on the mutable file system follows `Traversal.Step` |
| Traversal.ProcessDirectory | pycrypt.py:65-84 | a restricted root returns at once and changes no file. Otherwise the loop leaves the file system and the outcomes that `Traversal.WalkFiles` gives |

## Left out

- AES-GCM and PBKDF2 are abstract function parameters (`Cipher.Suite`). Tamper detection, rejection of a wrong passphrase, and salt and nonce uniqueness are cryptographic assumptions, not proved facts.
- `get_random_bytes` and the cipher's nonce generator are replaced by given 16-byte values; the walk draws `entropy(i)` for its i-th file.
- The overwrite in `secure_delete` (pycrypt.py:39-42) is not modelled. The file is opened in append mode, so whether the write replaces or extends the bytes depends on the platform. Only the removal is modelled. Because append mode creates a missing file first, the removal never fails here.
- `os.walk` is replaced by a given list of file paths in walk order. Directories, permissions and symbolic links are not modelled, so in the model a read fails only when the file is missing and writes and removals always succeed. As a result, an I/O failure in `secure_delete` after a successful `encrypt_file` is not represented.
- `Path.home()` and `Path.resolve()` are fields of `Guard.Host`, and `os.name` is `Guard.OsName`.
- FileOps.Encrypt, FileOps.Decrypt: the suite's functions never raise, so `derive_key` rejecting a passphrase it cannot encode is not modelled. `AES.new` rejecting an empty nonce (a container of at most 16 bytes) is reported as `AuthenticationFailure`, like a tag that does not verify.
- Guard.IsRestrictedDirectory: compares resolved paths as exact strings. `pathlib` compares Windows paths case-insensitively.
- A missing passphrase (`None`) is not modelled. The interactive loop always supplies one for encrypt and decrypt.
- The interactive `main` loop, `print_ascii_art` and the printed messages are I/O glue. The printed messages are represented by the `Traversal.Outcome` values.

/** The names of the files the cipher writes: `encrypt_file` appends
    ".enc", and `decrypt_file` calls `rstrip('.enc')`, which Python reads
    as "remove every trailing character that is one of '.', 'e', 'n', 'c'"
    rather than "remove the suffix .enc". */
module Paths {
  import opened Common

  const EncSuffix: string := ".enc"

  /** The argument of `rstrip('.enc')`, as the set of characters Python takes it for. */
  const StripChars: set<char> := {'.', 'e', 'n', 'c'}

  /** `file_path + '.enc'`. */
  function EncryptedPath(path: Path): (r: Path)
    ensures |r| == |path| + |EncSuffix|
    ensures r[..|path|] == path && r[|path|..] == EncSuffix
  {
    path + EncSuffix
  }

  /** `s.rstrip(chars)`: the longest prefix of `s` that does not end in a
      character of `chars`. */
  function RStrip(s: string, chars: set<char>): (r: string)
    ensures |r| <= |s| && r == s[..|r|]
    ensures r == [] || r[|r| - 1] !in chars
    ensures forall i :: |r| <= i < |s| ==> s[i] in chars
    decreases |s|
  {
    if |s| > 0 && s[|s| - 1] in chars then RStrip(s[..|s| - 1], chars) else s
  }

  /** `encrypted_file_path.rstrip('.enc')`: the name with every trailing
      '.', 'e', 'n' and 'c' removed, not just one ".enc". */
  function DecryptedPath(path: Path): (r: Path)
    ensures |r| <= |path| && r == path[..|r|]
    ensures r == [] || r[|r| - 1] !in {'.', 'e', 'n', 'c'}
    ensures forall i :: |r| <= i < |path| ==> path[i] in {'.', 'e', 'n', 'c'}
  {
    RStrip(path, StripChars)
  }

  /** Stripping is idempotent: a stripped string has nothing left to strip. */
  lemma RStripIdempotent(s: string, chars: set<char>)
    ensures RStrip(RStrip(s, chars), chars) == RStrip(s, chars)
  {
  }

  /** The result of `rstrip` is determined by its three defining
      properties: any prefix that keeps no strippable last character and
      drops only strippable ones is that result. */
  lemma RStripUnique(s: string, chars: set<char>, r: string)
    requires |r| <= |s| && r == s[..|r|]
    requires r == [] || r[|r| - 1] !in chars
    requires forall i :: |r| <= i < |s| ==> s[i] in chars
    ensures RStrip(s, chars) == r
  {
  }

  /** Appending characters that are all strippable does not change what
      `rstrip` returns. */
  lemma {:induction false} RStripAppend(s: string, t: string, chars: set<char>)
    requires forall i :: 0 <= i < |t| ==> t[i] in chars
    ensures RStrip(s + t, chars) == RStrip(s, chars)
  {
    var r := RStrip(s, chars);
    assert (s + t)[..|r|] == r;
    forall i | |r| <= i < |s + t|
      ensures (s + t)[i] in chars
    {
      if i >= |s| {
        assert (s + t)[i] == t[i - |s|];
      }
    }
    RStripUnique(s + t, chars, r);
  }

  /** Decrypting the name of an encrypted file strips the suffix and then
      keeps going into the original name. */
  lemma DecryptedEncryptedPath(path: Path)
    ensures DecryptedPath(EncryptedPath(path)) == RStrip(path, StripChars)
  {
    RStripAppend(path, EncSuffix, StripChars);
  }

  /** Adding ".enc" and stripping gives back the original name exactly
      when that name is empty or does not end in '.', 'e', 'n' or 'c'. */
  lemma NameRoundTrip(path: Path)
    ensures DecryptedPath(EncryptedPath(path)) == path
        <==> (path == [] || path[|path| - 1] !in StripChars)
  {
    DecryptedEncryptedPath(path);
  }

  /** "dance" is encrypted to "dance.enc", which decrypts to "da". */
  lemma DanceLosesItsEnding()
    ensures EncryptedPath("dance") == "dance.enc"
    ensures DecryptedPath("dance.enc") == "da"
  {
    DecryptedEncryptedPath("dance");
    RStripUnique("dance", StripChars, "da");
  }
}

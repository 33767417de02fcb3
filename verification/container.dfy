/** The on-disk layout of an encrypted file: salt, nonce, tag and
    ciphertext, written back to back by `encrypt_file` and read back by
    four consecutive `read` calls in `decrypt_file`. */
module Container {
  import opened Common

  const SaltLen: nat := 16
  const NonceLen: nat := 16
  const TagLen: nat := 16
  const HeaderLen: nat := SaltLen + NonceLen + TagLen

  /** The four fields of a container, in on-disk order. */
  datatype Parts = Parts(salt: Bytes, nonce: Bytes, tag: Bytes, ciphertext: Bytes)

  /** The header fields have the lengths the reader expects. */
  predicate WellSized(p: Parts)
  {
    |p.salt| == SaltLen && |p.nonce| == NonceLen && |p.tag| == TagLen
  }

  /** The bytes written to the encrypted file: `salt + nonce + tag + ciphertext`. */
  function Frame(p: Parts): (r: Bytes)
    ensures |r| == |p.salt| + |p.nonce| + |p.tag| + |p.ciphertext|
    ensures WellSized(p) ==>
      && r[..16] == p.salt
      && r[16..32] == p.nonce
      && r[32..48] == p.tag
      && r[HeaderLen..] == p.ciphertext
  {
    var r := p.salt + p.nonce + p.tag + p.ciphertext;
    assert WellSized(p) ==> r[16..32] == (p.salt + p.nonce)[16..32];
    r
  }

  /** `f.read(n)` on a file holding `data` whose position is `pos`: a
      non-negative `n` returns at most `n` bytes, a negative `n` returns
      everything up to the end, and neither fails at end of file. The
      second component is the new position. */
  function Read(data: Bytes, pos: nat, n: int): (r: (Bytes, nat))
    requires pos <= |data|
    ensures pos <= r.1 <= |data| && r.0 == data[pos..r.1]
    ensures n < 0 ==> r.1 == |data|
    ensures n >= 0 ==> |r.0| == Min(n, |data| - pos)
  {
    var end := if n < 0 || |data| - pos < n then |data| else pos + n;
    (data[pos..end], end)
  }

  /** One `read` per entry of `sizes`, each starting where the last one
      stopped: the list comprehension `[f.read(x) for x in sizes]`. */
  function ReadEach(data: Bytes, pos: nat, sizes: seq<int>): (pieces: seq<Bytes>)
    requires pos <= |data|
    ensures |pieces| == |sizes|
    decreases |sizes|
  {
    if sizes == [] then []
    else
      var (piece, next) := Read(data, pos, sizes[0]);
      [piece] + ReadEach(data, next, sizes[1..])
  }

  function Concat(pieces: seq<Bytes>): Bytes
  {
    if pieces == [] then [] else pieces[0] + Concat(pieces[1..])
  }

  /** Consecutive reads never skip or repeat a byte: what they return,
      put together, is the stretch of the file they moved over, and the
      whole rest of the file when the last read is unbounded. */
  lemma {:induction false} ReadEachCovers(data: Bytes, pos: nat, sizes: seq<int>)
    requires pos <= |data|
    ensures pos + |Concat(ReadEach(data, pos, sizes))| <= |data|
    ensures Concat(ReadEach(data, pos, sizes)) == data[pos..pos + |Concat(ReadEach(data, pos, sizes))|]
    ensures |sizes| > 0 && sizes[|sizes| - 1] < 0 ==> Concat(ReadEach(data, pos, sizes)) == data[pos..]
    decreases |sizes|
  {
    if sizes != [] {
      var (piece, next) := Read(data, pos, sizes[0]);
      var rest := ReadEach(data, next, sizes[1..]);
      ReadEachCovers(data, next, sizes[1..]);
      assert ReadEach(data, pos, sizes) == [piece] + rest;
      assert Concat([piece] + rest) == piece + Concat(rest);
      if |sizes| == 1 {
        assert rest == [];
      }
    }
  }

  /** `salt, nonce, tag, ciphertext = [f.read(x) for x in (16, 16, 16, -1)]`:
      the split always succeeds and always partitions the container; a
      container shorter than the header yields short pieces. */
  function Split(data: Bytes): (p: Parts)
    ensures Frame(p) == data
    ensures |p.salt| == Min(SaltLen, |data|)
    ensures |p.nonce| == Min(NonceLen, |data| - |p.salt|)
    ensures |p.tag| == Min(TagLen, |data| - |p.salt| - |p.nonce|)
  {
    var sizes := [SaltLen as int, NonceLen as int, TagLen as int, -1];
    var pieces := ReadEach(data, 0, sizes);
    ReadEachCovers(data, 0, sizes);
    var (s, p1) := Read(data, 0, sizes[0]);
    var (n, p2) := Read(data, p1, sizes[1]);
    var (t, p3) := Read(data, p2, sizes[2]);
    var (c, p4) := Read(data, p3, sizes[3]);
    assert pieces == [s, n, t, c] by {
      assert sizes[1..][1..][1..][1..] == [];
      assert pieces == [s] + ReadEach(data, p1, sizes[1..]);
      assert ReadEach(data, p1, sizes[1..]) == [n] + ReadEach(data, p2, sizes[1..][1..]);
      assert ReadEach(data, p2, sizes[1..][1..]) == [t] + ReadEach(data, p3, sizes[1..][1..][1..]);
      assert ReadEach(data, p3, sizes[1..][1..][1..]) == [c];
    }
    assert Concat(pieces) == s + n + t + c by {
      assert Concat(pieces) == s + Concat([n, t, c]);
      assert Concat([n, t, c]) == n + Concat([t, c]);
      assert Concat([t, c]) == t + Concat([c]);
      assert Concat([c]) == c + Concat([]);
    }
    Parts(s, n, t, c)
  }

  /** Reading back a framed container whose header fields have their
      fixed lengths returns exactly the four parts that were written. */
  lemma SplitFrame(p: Parts)
    requires WellSized(p)
    ensures Split(Frame(p)) == p
  {
    var q := Split(Frame(p));
    var d := Frame(p);
    assert d == q.salt + q.nonce + q.tag + q.ciphertext;
    assert q.salt == d[..16];
    assert q.nonce == d[16..32];
    assert q.tag == d[32..48];
    assert q.ciphertext == d[48..];
  }

  /** A container shorter than the header is not an error for the reader:
      every piece is short and the ciphertext is empty. */
  lemma SplitShort(data: Bytes)
    requires |data| < HeaderLen
    ensures Split(data).ciphertext == []
    ensures |Split(data).salt| + |Split(data).nonce| + |Split(data).tag| == |data|
    ensures |data| < SaltLen ==> Split(data).salt == data && Split(data).nonce == [] && Split(data).tag == []
  {
    var p := Split(data);
    assert |Frame(p)| == |data|;
  }
}

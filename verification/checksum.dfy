/** The truncated checksum of nfsync's hash: a digest of at most the first
    MaxHashBytes bytes of a file. The digest (hex of MD5) is a parameter of
    the model: any deterministic function of the bytes it is given. */
module Checksum {
  import opened FileSystem

  /** maxHashBytes: the cap on the bytes read for a checksum, 1 MiB. */
  const MaxHashBytes: nat := 1048576

  /** hex(md5(bytes)), left uninterpreted. */
  type Digest = Bytes -> string

  /** The bytes io.CopyN(h, f, maxHashBytes) feeds the digest: the whole file
      when it is short (end of file is not an error), else its first 1 MiB. */
  function HashedPrefix(c: Bytes): (h: Bytes)
    ensures |h| == Min(|c|, MaxHashBytes)
    ensures h <= c
  {
    if |c| <= MaxHashBytes then c else c[..MaxHashBytes]
  }

  function TruncatedChecksum(digest: Digest, c: Bytes): (r: string)
    ensures |c| <= MaxHashBytes ==> r == digest(c)
    ensures |c| > MaxHashBytes ==> r == digest(c[..MaxHashBytes])
  {
    digest(HashedPrefix(c))
  }

  /** hash(p): an error when the file cannot be opened or read (a missing
      file or an injected fault), else the digest of its first
      min(size, 1 MiB) bytes. */
  function Hash(digest: Digest, fs: Fs, p: Path, fault: bool): (r: Option<string>)
    ensures r.Some? <==> !fault && p in fs.files
    ensures r.Some? ==> r.value == digest(fs.files[p][..Min(|fs.files[p]|, MaxHashBytes)])
  {
    if fault || p !in fs.files then None
    else
      var c := fs.files[p];
      assert c[..|c|] == c;
      Some(TruncatedChecksum(digest, c))
  }

  /** The checksum depends on nothing but the hashed head of the contents. */
  lemma ChecksumDeterminedByHead(digest: Digest, a: Bytes, b: Bytes)
    requires a[..Min(|a|, MaxHashBytes)] == b[..Min(|b|, MaxHashBytes)]
    ensures TruncatedChecksum(digest, a) == TruncatedChecksum(digest, b)
  {
    assert HashedPrefix(a) == a[..Min(|a|, MaxHashBytes)];
    assert HashedPrefix(b) == b[..Min(|b|, MaxHashBytes)];
  }

  /** Two contents that agree on their first 1 MiB get the same checksum,
      however much they differ after it. */
  lemma ChecksumIgnoresTail(digest: Digest, a: Bytes, b: Bytes)
    requires |a| >= MaxHashBytes && |b| >= MaxHashBytes
    requires a[..MaxHashBytes] == b[..MaxHashBytes]
    ensures TruncatedChecksum(digest, a) == TruncatedChecksum(digest, b)
  {
    ChecksumDeterminedByHead(digest, a, b);
  }
}

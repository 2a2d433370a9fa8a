/** The chunk record, the hash dispatch and the store's file naming
    (src/chunks/mod.rs, src/chunks/hash.rs). */
module Chunks {
  import opened Base

  /** Hash algorithms a repository can declare. */
  datatype HashKind = Blake3 | Sha512 | Sha256

  /** `hash::hash`: the Blake3 hex digest (given as the function `blake3`,
      the library being outside the model) for `Blake3`; the other two kinds
      are unimplemented and always give the empty string. */
  function Hash(blake3: Bytes -> string, kind: HashKind, data: Bytes): (h: string)
    ensures kind != Blake3 ==> h == ""
  {
    match kind
    case Blake3 => blake3(data)
    case _ => ""
  }

  /** One file of a package: where it goes, the hash of its bytes, its Unix
      permission bits and its size in KiB rounded down. */
  datatype Chunk = Chunk(path: Path, hash: string, permissions: U32, size: nat)

  /** `get_chunk_filename`: the hash followed by the decimal rendering of
      the permissions. */
  function ChunkFilename(hash: string, permissions: U32): string
  {
    hash + Decimal(permissions)
  }

  /** The name is the hash followed by digits that parse back to the
      permissions. */
  lemma ChunkFilenameParses(hash: string, permissions: U32)
    ensures var name := ChunkFilename(hash, permissions);
      && |name| > |hash| && name[..|hash|] == hash
      && (forall i :: |hash| <= i < |name| ==> IsDigit(name[i]))
      && ParseDecimal(name[|hash|..]) == permissions
  {
    ParseDecimalInvertsDecimal(permissions);
    assert (hash + Decimal(permissions))[|hash|..] == Decimal(permissions);
  }

  /** The unit test's pinned name: 0o777 is rendered as "511", in decimal. */
  lemma ChunkFilenameIsDecimal()
    ensures ChunkFilename("a8sf799a8s6fa7f5", 0x1FF) == "a8sf799a8s6fa7f5511"
  {
    assert Decimal(5) == "5";
    assert Decimal(51) == "51";
    assert Decimal(511) == "511";
  }

  /** With hashes of one length (a Blake3 hex digest is always 64
      characters), the name determines hash and permissions. */
  lemma ChunkFilenameInjective(h1: string, p1: U32, h2: string, p2: U32)
    requires |h1| == |h2|
    ensures ChunkFilename(h1, p1) == ChunkFilename(h2, p2) <==> h1 == h2 && p1 == p2
  {
    if ChunkFilename(h1, p1) == ChunkFilename(h2, p2) {
      var n := ChunkFilename(h1, p1);
      assert h1 == n[..|h1|] == h2;
      assert Decimal(p1) == n[|h1|..] == Decimal(p2);
      DecimalInjective(p1, p2);
    }
  }

  /** Without equal lengths the name is ambiguous: hash "ab1" with mode 1
      and hash "ab" with mode 11 share one store entry. */
  lemma ChunkFilenameAmbiguousAcrossLengths()
    ensures ChunkFilename("ab1", 1) == ChunkFilename("ab", 11)
  {
    assert Decimal(11) == "11";
  }

  /** A directory entry's name: text when it is valid UTF-8, raw bytes
      otherwise (`OsStr::to_str` returning `None`). */
  datatype EntryName = Utf8(text: string) | NonUtf8(raw: Bytes)

  /** The chunk store directory: entry name to file contents. */
  type Store = map<EntryName, Bytes>

  /** The store entry that holds a chunk's bytes. */
  function StoreKey(c: Chunk): EntryName
  {
    Utf8(ChunkFilename(c.hash, c.permissions))
  }
}

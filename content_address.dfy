/**
 * `hash_file`: the content address of a source file, a digest of a bounded
 * prefix of its bytes. The file is given as its contents; SHA-256 itself is
 * kept symbolic: the hasher only accumulates the chunks it is fed, and the
 * digest is a term over their concatenation (streaming hashing depends only on
 * the concatenated input, never on how it was split).
 */
module ContentAddress {

  newtype byte = x: int | 0 <= x < 256

  /** Bytes asked of each `file.read` call. */
  const ChunkSize: nat := 256
  /** Iterations of the reading loop. */
  const MaxChunks: nat := 1024
  /** The longest prefix that can ever be hashed: 256 KiB. */
  const MaxPrefix: nat := MaxChunks * ChunkSize

  function Min(a: int, b: int): int { if a <= b then a else b }

  /** The hexadecimal digest, kept as the input it summarises. */
  datatype Digest = Digest(input: seq<byte>)

  /** A running SHA-256 hasher: the chunks passed to `update` so far. */
  datatype Sha256 = Sha256(fed: seq<seq<byte>>)

  function Concat(chunks: seq<seq<byte>>): seq<byte>
  {
    if chunks == [] then [] else chunks[0] + Concat(chunks[1..])
  }

  function Update(h: Sha256, chunk: seq<byte>): Sha256
  {
    Sha256(h.fed + [chunk])
  }

  function HexDigest(h: Sha256): Digest
  {
    Digest(Concat(h.fed))
  }

  /** `file.read(n)` at offset `pos`: at most `n` bytes, fewer at the end, none at EOF. */
  function Read(file: seq<byte>, pos: nat, n: nat): (chunk: seq<byte>)
    requires pos <= |file|
    ensures |chunk| == Min(n, |file| - pos)
    ensures chunk == file[pos..pos + |chunk|]
  {
    file[pos..Min(pos + n, |file|)]
  }

  /**
   * The chunks the reading loop hands to the hasher when it starts at offset
   * `pos` with `budget` iterations left: it stops at the first empty read or
   * when the iterations run out.
   */
  function ChunksFrom(file: seq<byte>, pos: nat, budget: nat): seq<seq<byte>>
    requires pos <= |file|
    decreases budget
  {
    if budget == 0 then []
    else
      var chunk := Read(file, pos, ChunkSize);
      if chunk == [] then [] else [chunk] + ChunksFrom(file, pos + |chunk|, budget - 1)
  }

  /** The digest `hash_file` returns, as a function of the file's contents. */
  function PrefixDigest(file: seq<byte>): Digest
  {
    HexDigest(Sha256(ChunksFrom(file, 0, MaxChunks)))
  }

  lemma {:induction false} ConcatAppend(a: seq<seq<byte>>, b: seq<seq<byte>>)
    ensures Concat(a + b) == Concat(a) + Concat(b)
  {
    if a == [] {
      assert a + b == b;
    } else {
      assert (a + b)[1..] == a[1..] + b;
      ConcatAppend(a[1..], b);
    }
  }

  /**
   * `sha256.update` streams: feeding a chunk extends the digested input by
   * exactly that chunk, so the digest depends only on the bytes fed so far
   * and not on how they were split into chunks.
   */
  lemma UpdateExtendsInput(h: Sha256, chunk: seq<byte>)
    ensures HexDigest(Update(h, chunk)).input == HexDigest(h).input + chunk
  {
    ConcatAppend(h.fed, [chunk]);
    assert [chunk][1..] == [];
  }

  /** The chunks read from `pos` are, concatenated, exactly the bytes from `pos` up to the budget's end or EOF. */
  lemma {:induction false} ChunksFromCover(file: seq<byte>, pos: nat, budget: nat)
    requires pos <= |file|
    ensures Concat(ChunksFrom(file, pos, budget)) == file[pos..Min(pos + budget * ChunkSize, |file|)]
    decreases budget
  {
    if budget == 0 {
    } else {
      var chunk := Read(file, pos, ChunkSize);
      if chunk == [] {
      } else {
        var rest := ChunksFrom(file, pos + |chunk|, budget - 1);
        ChunksFromCover(file, pos + |chunk|, budget - 1);
        assert ChunksFrom(file, pos, budget) == [chunk] + rest;
        assert ([chunk] + rest)[1..] == rest;
        assert Concat([chunk] + rest) == chunk + Concat(rest);
        if |chunk| < ChunkSize {
          assert pos + |chunk| == |file|;
          assert budget * ChunkSize >= ChunkSize;
        } else {
          assert pos + |chunk| + (budget - 1) * ChunkSize == pos + budget * ChunkSize;
        }
      }
    }
  }

  /**
   * Shape of what the hasher is fed: at most `budget` chunks, none empty, none
   * longer than 256 bytes, and every chunk but the last a full 256 bytes.
   */
  lemma {:induction false} ChunksFromShape(file: seq<byte>, pos: nat, budget: nat)
    requires pos <= |file|
    ensures var cs := ChunksFrom(file, pos, budget);
      && |cs| <= budget
      && (forall i :: 0 <= i < |cs| ==> 0 < |cs[i]| <= ChunkSize)
      && (forall i :: 0 <= i < |cs| - 1 ==> |cs[i]| == ChunkSize)
    decreases budget
  {
    if budget > 0 && Read(file, pos, ChunkSize) != [] {
      var chunk := Read(file, pos, ChunkSize);
      var rest := ChunksFrom(file, pos + |chunk|, budget - 1);
      ChunksFromShape(file, pos + |chunk|, budget - 1);
      var cs := [chunk] + rest;
      assert ChunksFrom(file, pos, budget) == cs;
      forall i | 0 <= i < |cs| - 1 ensures |cs[i]| == ChunkSize {
        if i == 0 {
          assert |chunk| < ChunkSize ==> pos + |chunk| == |file|;
          assert |chunk| < ChunkSize ==> rest == [];
        } else {
          assert cs[i] == rest[i - 1];
        }
      }
      forall i | 0 <= i < |cs| ensures 0 < |cs[i]| <= ChunkSize {
        if i > 0 { assert cs[i] == rest[i - 1]; }
      }
    }
  }

  /** `hash_file` digests exactly the first min(len(file), 256 KiB) bytes. */
  lemma PrefixDigestIsBoundedPrefix(file: seq<byte>)
    ensures PrefixDigest(file) == Digest(file[..Min(|file|, MaxPrefix)])
  {
    ChunksFromCover(file, 0, MaxChunks);
  }

  /** Files that agree on their first 256 KiB share a content address. */
  lemma SharedPrefixSameDigest(f1: seq<byte>, f2: seq<byte>)
    requires |f1| >= MaxPrefix && |f2| >= MaxPrefix
    requires f1[..MaxPrefix] == f2[..MaxPrefix]
    ensures PrefixDigest(f1) == PrefixDigest(f2)
  {
    PrefixDigestIsBoundedPrefix(f1);
    PrefixDigestIsBoundedPrefix(f2);
  }

  /** Files shorter than the bound are addressed by their whole content. */
  lemma ShortFileDigest(file: seq<byte>)
    requires |file| <= MaxPrefix
    ensures PrefixDigest(file) == Digest(file)
  {
    PrefixDigestIsBoundedPrefix(file);
    assert file[..|file|] == file;
  }

  /**
   * `hash_file(uri)`: at most 1024 reads of 256 bytes, each non-empty chunk
   * fed to the hasher, stopping at the first empty read.
   */
  method HashFile(file: seq<byte>) returns (digest: Digest)
    ensures digest == PrefixDigest(file)
    ensures digest.input == file[..Min(|file|, MaxPrefix)]
  {
    var sha256 := Sha256([]);
    var pos: nat := 0;
    var i := 0;
    while i < MaxChunks
      invariant 0 <= i <= MaxChunks
      invariant pos <= |file|
      invariant sha256.fed + ChunksFrom(file, pos, MaxChunks - i) == ChunksFrom(file, 0, MaxChunks)
    {
      var chunk := Read(file, pos, ChunkSize);
      if chunk == [] {
        break;
      }
      ghost var rest := ChunksFrom(file, pos + |chunk|, MaxChunks - i - 1);
      assert ChunksFrom(file, pos, MaxChunks - i) == [chunk] + rest;
      assert sha256.fed + [chunk] + rest == sha256.fed + ([chunk] + rest);
      sha256 := Update(sha256, chunk);
      pos := pos + |chunk|;
      i := i + 1;
    }
    assert ChunksFrom(file, pos, MaxChunks - i) == [];
    assert sha256.fed == ChunksFrom(file, 0, MaxChunks);
    digest := HexDigest(sha256);
    PrefixDigestIsBoundedPrefix(file);
  }
}

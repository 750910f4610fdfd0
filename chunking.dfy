/**
 * The sender's chunk arithmetic (`sendFileChunks`): how many chunks a file of a
 * given size has and which byte range each one covers.
 */
module Chunking {
  import opened Types

  /** The fixed chunk size set in the constructor: 32 KiB. */
  const CHUNK_SIZE: nat := 32768

  function Min(a: int, b: int): int {
    if a <= b then a else b
  }

  /** `Math.ceil(size / chunkSize)`: the least count of chunks whose combined capacity covers the file. */
  function ChunkCount(size: nat): (n: nat)
    ensures size <= n * CHUNK_SIZE
    ensures n > 0 ==> (n - 1) * CHUNK_SIZE < size
    ensures n == 0 <==> size == 0
  {
    (size + CHUNK_SIZE - 1) / CHUNK_SIZE
  }

  /** First byte of chunk `i`. */
  function ChunkStart(i: nat): nat {
    i * CHUNK_SIZE
  }

  /** One past the last byte of chunk `i`: the next chunk's start, clipped to the file size. */
  function ChunkEnd(i: nat, size: nat): (end: nat)
    requires i < ChunkCount(size)
    ensures ChunkStart(i) < end <= size
    ensures end - ChunkStart(i) <= CHUNK_SIZE
    ensures end == size <==> i == ChunkCount(size) - 1
    ensures end < size ==> end == ChunkStart(i + 1)
  {
    Min(ChunkStart(i) + CHUNK_SIZE, size)
  }

  /** `currentFile.slice(start, end)` for chunk `i`. */
  function Chunk(bytes: seq<Byte>, i: nat): (c: seq<Byte>)
    requires i < ChunkCount(|bytes|)
    ensures 0 < |c| <= CHUNK_SIZE
  {
    bytes[ChunkStart(i)..ChunkEnd(i, |bytes|)]
  }

  /** All chunks of a file, in index order. */
  function Chunks(bytes: seq<Byte>): (cs: seq<seq<Byte>>)
    ensures |cs| == ChunkCount(|bytes|)
  {
    seq(ChunkCount(|bytes|), i requires 0 <= i < ChunkCount(|bytes|) => Chunk(bytes, i))
  }

  /** Byte sequences joined end to end, as `new Blob(parts)` joins its parts. */
  function Concat(parts: seq<seq<Byte>>): seq<Byte> {
    if |parts| == 0 then [] else Concat(parts[..|parts| - 1]) + parts[|parts| - 1]
  }

  /** Consecutive chunks are contiguous and the last one ends at the end of the file. */
  lemma ChunksContiguous(size: nat, i: nat)
    requires i + 1 < ChunkCount(size)
    ensures ChunkEnd(i, size) == ChunkStart(i + 1) < ChunkEnd(i + 1, size)
  {
  }

  /** Joining the first `k` chunks gives the first `min(k * chunkSize, size)` bytes of the file. */
  lemma {:induction false} JoinPrefix(bytes: seq<Byte>, k: nat)
    requires k <= ChunkCount(|bytes|)
    ensures Concat(Chunks(bytes)[..k]) == bytes[..Min(k * CHUNK_SIZE, |bytes|)]
  {
    var cs := Chunks(bytes);
    if k > 0 {
      JoinPrefix(bytes, k - 1);
      assert cs[..k][..k - 1] == cs[..k - 1];
      var lo, hi := (k - 1) * CHUNK_SIZE, Min(k * CHUNK_SIZE, |bytes|);
      assert cs[k - 1] == bytes[lo..hi];
      assert bytes[..lo] + bytes[lo..hi] == bytes[..hi];
    }
  }

  /** The chunks cover the whole file with no gap and no overlap. */
  lemma JoinChunks(bytes: seq<Byte>)
    ensures Concat(Chunks(bytes)) == bytes
  {
    var n := ChunkCount(|bytes|);
    JoinPrefix(bytes, n);
    assert Chunks(bytes)[..n] == Chunks(bytes);
    assert bytes[..|bytes|] == bytes;
  }
}

/** `chunk(path)` of utils/read.py, on the decoded contents of the file. */
module Chunker {
  import opened Seqs

  /** `MAX_CHUNK_SIZE`: characters per chunk, 20 * 1024 written out. */
  const MAX_CHUNK_SIZE: nat := 20480

  function Min(a: int, b: int): int {
    if a <= b then a else b
  }

  /** How many starts `range(0, n, MAX_CHUNK_SIZE)` yields, i.e. ceil(n / MAX_CHUNK_SIZE). */
  function PieceCount(n: nat): (c: nat)
    ensures c * MAX_CHUNK_SIZE >= n
    ensures c == 0 || (c - 1) * MAX_CHUNK_SIZE < n
  {
    (n + MAX_CHUNK_SIZE - 1) / MAX_CHUNK_SIZE
  }

  /**
    The chunks of the decoded contents `data`: the whole of it when it fits in
    one chunk, otherwise the slices data[i:i+MAX_CHUNK_SIZE] for i in
    range(0, len(data), MAX_CHUNK_SIZE), Python slicing stopping at the end.
  */
  function Chunk(data: string): seq<string> {
    if |data| <= MAX_CHUNK_SIZE then [data]
    else
      var n := PieceCount(|data|);
      seq(n, k requires 0 <= k < n =>
        data[k * MAX_CHUNK_SIZE .. Min(k * MAX_CHUNK_SIZE + MAX_CHUNK_SIZE, |data|)])
  }

  /**
    Contents that fit give exactly one chunk, the whole contents (also when
    they are empty); longer contents give ceil(L / MAX_CHUNK_SIZE) chunks, all
    of length MAX_CHUNK_SIZE except the last, whose length is in
    [1, MAX_CHUNK_SIZE]. No chunk is longer than MAX_CHUNK_SIZE, and none is
    empty unless the contents are.
  */
  lemma ChunkShape(data: string)
    ensures var r := Chunk(data);
      (|data| <= MAX_CHUNK_SIZE ==> r == [data])
      && (|data| > MAX_CHUNK_SIZE ==>
        |r| == PieceCount(|data|)
        && (|r| - 1) * MAX_CHUNK_SIZE < |data| <= |r| * MAX_CHUNK_SIZE
        && (forall k :: 0 <= k < |r| - 1 ==> |r[k]| == MAX_CHUNK_SIZE)
        && 1 <= |r[|r| - 1]| <= MAX_CHUNK_SIZE)
      && (forall k :: 0 <= k < |r| ==> |r[k]| <= MAX_CHUNK_SIZE)
      && (|data| > 0 ==> forall k :: 0 <= k < |r| ==> |r[k]| >= 1)
  {
  }

  /** `"".join(chunks)` */
  function Concat(chunks: seq<string>): string {
    if chunks == [] then [] else Concat(chunks[..|chunks| - 1]) + chunks[|chunks| - 1]
  }

  /** The first n chunks of a long content are its first n * MAX_CHUNK_SIZE characters (or all of it). */
  lemma {:induction false} ChunkPrefix(data: string, n: nat)
    requires |data| > MAX_CHUNK_SIZE
    requires n <= |Chunk(data)|
    ensures Concat(Chunk(data)[..n]) == data[..Min(n * MAX_CHUNK_SIZE, |data|)]
  {
    var r := Chunk(data);
    if n > 0 {
      assert r[..n][..n - 1] == r[..n - 1];
      ChunkPrefix(data, n - 1);
      var lo := (n - 1) * MAX_CHUNK_SIZE;
      var hi := Min(lo + MAX_CHUNK_SIZE, |data|);
      assert Min(n * MAX_CHUNK_SIZE, |data|) == hi;
      assert r[n - 1] == data[lo..hi];
      PrefixSlice(data, lo, hi);
    }
  }

  /** Joining the chunks in order gives back the decoded contents exactly. */
  lemma ChunkConcat(data: string)
    ensures Concat(Chunk(data)) == data
  {
    var r := Chunk(data);
    if |data| <= MAX_CHUNK_SIZE {
      assert r[..0] == [];
    } else {
      ChunkPrefix(data, |r|);
      assert r[..|r|] == r;
    }
  }
}

/** The default chunking of `split`: a byte source of `fileSize` bytes is cut into
    `ceil(fileSize / chunkSize)` contiguous slices, numbered from 0 in source order.
    `Flatten` appends the slices in list order, which is what a later merge does;
    that is index order for a split whose indices run 0, 1, 2, … */
module Chunking {

  /** An octet, as stored in a Uint8Array. */
  newtype byte = b: int | 0 <= b < 256

  /** One slice of the source; `blob` holds the bytes the sliced view covers. */
  datatype Chunk = Chunk(index: nat, blob: seq<byte>)

  /** The value `split` resolves to. */
  datatype SplitResult = SplitResult(chunks: seq<Chunk>, fileSize: nat, totalChunks: nat)

  function Min(a: int, b: int): int {
    if a <= b then a else b
  }

  /** `Math.ceil(n / k)` on integers: the least count `c` of `k`-sized pieces covering
      `n`, that is `(c - 1) * k < n <= c * k`; it is 0 only for `n == 0`. */
  function CeilDiv(n: nat, k: nat): (c: nat)
    requires k > 0
    ensures c * k >= n
    ensures c == 0 <==> n == 0
    ensures c == 0 || (c - 1) * k < n
  {
    if n == 0 then 0
    else
      var rest := CeilDiv(n - Min(n, k), k);
      assert (rest + 1) * k == rest * k + k;
      1 + rest
  }

  /** No other count satisfies those bounds. */
  lemma CeilDivUnique(n: nat, k: nat, m: nat)
    requires k > 0
    requires m * k >= n
    requires m == 0 || (m - 1) * k < n
    ensures m == CeilDiv(n, k)
  {
    var c := CeilDiv(n, k);
    if m < c {
      MulMonotone(m, c - 1, k);
    } else if m > c {
      MulMonotone(c, m - 1, k);
    }
  }

  lemma MulMonotone(a: nat, b: nat, k: nat)
    requires a <= b
    ensures a * k <= b * k
  {
  }

  /** Every index the loop visits starts inside the source, and every index but the
      last is followed by a whole chunk. */
  lemma IndexInRange(n: nat, k: nat, i: nat)
    requires k > 0 && i < CeilDiv(n, k)
    ensures i * k < n
    ensures i + 1 < CeilDiv(n, k) ==> i * k + k < n
  {
    MulMonotone(i, CeilDiv(n, k) - 1, k);
    if i + 1 < CeilDiv(n, k) {
      MulMonotone(i + 1, CeilDiv(n, k) - 1, k);
    }
  }

  /** Chunk `i`: the slice from offset `i * k` to the smaller of `i * k + k` and the
      source length, both bounds clamped to the source as a blob slice clamps them. */
  function ChunkAt(src: seq<byte>, k: nat, i: nat): (c: Chunk)
    ensures c.index == i
    ensures |c.blob| <= k
    ensures |c.blob| > 0 <==> k > 0 && i * k < |src|
    ensures i * k < |src| ==> c.blob == src[i * k .. Min(i * k + k, |src|)]
  {
    Chunk(i, src[Min(i * k, |src|) .. Min(i * k + k, |src|)])
  }

  /** The default algorithm on the source bytes: `total` chunks, chunk `i` being the
      slice at offset `i * k`. */
  function DefaultSplit(src: seq<byte>, k: nat): (r: SplitResult)
    requires k > 0
    ensures r.fileSize == |src|
    ensures r.totalChunks == |r.chunks| == CeilDiv(|src|, k)
    ensures |src| <= r.totalChunks * k
    ensures r.totalChunks == 0 || (r.totalChunks - 1) * k < |src|
    ensures r.totalChunks == 0 <==> src == []
  {
    var total := CeilDiv(|src|, k);
    SplitResult(seq(total, i requires 0 <= i < total => ChunkAt(src, k, i)), |src|, total)
  }

  /** Chunk `i` covers exactly bytes `[i * k, min(i * k + k, fileSize))` of the source,
      unclamped at the start; it is non-empty, and holds `k` bytes unless it is the last. */
  lemma DefaultChunkBounds(src: seq<byte>, k: nat, i: nat)
    requires k > 0 && i < DefaultSplit(src, k).totalChunks
    ensures i * k < Min(i * k + k, |src|) <= |src|
    ensures DefaultSplit(src, k).chunks[i] == Chunk(i, src[i * k .. Min(i * k + k, |src|)])
    ensures 0 < |DefaultSplit(src, k).chunks[i].blob| <= k
    ensures i + 1 < DefaultSplit(src, k).totalChunks ==> |DefaultSplit(src, k).chunks[i].blob| == k
  {
    IndexInRange(|src|, k, i);
    assert DefaultSplit(src, k).chunks[i] == ChunkAt(src, k, i);
  }

  /** The chunks' bytes appended in sequence order. */
  function Flatten(cs: seq<Chunk>): seq<byte> {
    if cs == [] then [] else cs[0].blob + Flatten(cs[1..])
  }

  /** Sum of the chunks' lengths. */
  function TotalLength(cs: seq<Chunk>): nat {
    if cs == [] then 0 else |cs[0].blob| + TotalLength(cs[1..])
  }

  lemma FlattenCons(c: Chunk, rest: seq<Chunk>)
    ensures Flatten([c] + rest) == c.blob + Flatten(rest)
  {
    assert ([c] + rest)[1..] == rest;
  }

  lemma FlattenSingle(c: Chunk)
    ensures Flatten([c]) == c.blob
  {
    assert [c][1..] == [];
  }

  lemma {:induction false} FlattenAppend(a: seq<Chunk>, b: seq<Chunk>)
    ensures Flatten(a + b) == Flatten(a) + Flatten(b)
    decreases |a|
  {
    if a == [] {
      assert a + b == b;
    } else {
      assert (a + b)[1..] == a[1..] + b;
      FlattenAppend(a[1..], b);
    }
  }

  /** Flattening a chunk list with one chunk singled out. */
  lemma FlattenAround(before: seq<Chunk>, c: Chunk, rest: seq<Chunk>)
    ensures Flatten(before + [c] + rest) == Flatten(before) + c.blob + Flatten(rest)
  {
    FlattenAppend(before + [c], rest);
    FlattenAppend(before, [c]);
    FlattenSingle(c);
  }

  lemma {:induction false} FlattenLength(cs: seq<Chunk>)
    ensures |Flatten(cs)| == TotalLength(cs)
    decreases |cs|
  {
    if cs != [] {
      FlattenLength(cs[1..]);
    }
  }

  /** Chunks that each hold `k` bytes flatten to `|cs| * k` bytes. */
  lemma {:induction false} FullChunksLength(cs: seq<Chunk>, k: nat)
    requires forall i :: 0 <= i < |cs| ==> |cs[i].blob| == k
    ensures |Flatten(cs)| == |cs| * k
    decreases |cs|
  {
    if cs != [] {
      FullChunksLength(cs[1..], k);
    }
  }

  /** The chunks from index `i` on reassemble the source from byte `i * k` on. */
  lemma {:induction false} SuffixFlatten(src: seq<byte>, k: nat, i: nat)
    requires k > 0 && i <= CeilDiv(|src|, k)
    ensures Flatten(DefaultSplit(src, k).chunks[i..]) == src[Min(i * k, |src|)..]
    decreases CeilDiv(|src|, k) - i
  {
    var cs := DefaultSplit(src, k).chunks;
    if i == |cs| {
      assert cs[i..] == [];
    } else {
      var c := cs[i];
      assert cs[i..] == [c] + cs[i + 1..];
      FlattenCons(c, cs[i + 1..]);
      SuffixFlatten(src, k, i + 1);
      assert c == ChunkAt(src, k, i);
      ChunkThenRest(src, k, i);
    }
  }

  /** The source from chunk `i`'s offset on is chunk `i` followed by the source from
      chunk `i + 1`'s offset on. */
  lemma ChunkThenRest(src: seq<byte>, k: nat, i: nat)
    ensures src[Min(i * k, |src|)..] == ChunkAt(src, k, i).blob + src[Min((i + 1) * k, |src|)..]
  {
    var off := i * k;
    assert (i + 1) * k == off + k;
    var lo, hi := Min(off, |src|), Min(off + k, |src|);
    assert src[lo..] == src[lo..hi] + src[hi..];
  }

  /** Round trip: merging the default chunks in index order gives back the source. */
  lemma DefaultSplitRoundTrip(src: seq<byte>, k: nat)
    requires k > 0
    ensures Flatten(DefaultSplit(src, k).chunks) == src
  {
    SuffixFlatten(src, k, 0);
    assert DefaultSplit(src, k).chunks[0..] == DefaultSplit(src, k).chunks;
  }

  /** The layout a split must have: indices 0, 1, 2, …; every chunk but the last holds
      exactly `k` bytes; the last is non-empty and at most `k` long; appended in order the
      chunks give back the source; and the counts agree with the chunk list. */
  predicate IsPartition(src: seq<byte>, k: nat, r: SplitResult) {
    && r.fileSize == |src|
    && r.totalChunks == |r.chunks|
    && (forall i :: 0 <= i < |r.chunks| ==> r.chunks[i].index == i)
    && (forall i :: 0 <= i < |r.chunks| - 1 ==> |r.chunks[i].blob| == k)
    && (|r.chunks| > 0 ==> 0 < |r.chunks[|r.chunks| - 1].blob| <= k)
    && Flatten(r.chunks) == src
  }

  /** The default algorithm produces such a layout. */
  lemma DefaultSplitIsPartition(src: seq<byte>, k: nat)
    requires k > 0
    ensures IsPartition(src, k, DefaultSplit(src, k))
  {
    var r := DefaultSplit(src, k);
    DefaultSplitRoundTrip(src, k);
    forall i | 0 <= i < |r.chunks|
      ensures 0 < |r.chunks[i].blob| <= k
      ensures i < |r.chunks| - 1 ==> |r.chunks[i].blob| == k
    {
      DefaultChunkBounds(src, k, i);
    }
  }

  /** Sizes of any such layout: `totalChunks == ceil(fileSize / k)`, the chunk lengths
      sum to `fileSize`, and the last chunk holds `fileSize - k * (totalChunks - 1)` bytes;
      an empty source has no chunks. */
  lemma PartitionSizes(src: seq<byte>, k: nat, r: SplitResult)
    requires k > 0 && IsPartition(src, k, r)
    ensures r.totalChunks == CeilDiv(r.fileSize, k)
    ensures TotalLength(r.chunks) == r.fileSize
    ensures r.fileSize == 0 <==> r.chunks == []
    ensures r.chunks != [] ==> |r.chunks[|r.chunks| - 1].blob| == r.fileSize - k * (r.totalChunks - 1)
  {
    var cs := r.chunks;
    FlattenLength(cs);
    if cs != [] {
      var m, last := |cs|, |cs[|cs| - 1].blob|;
      LayoutLength(cs, k);
      var full := (m - 1) * k;
      assert |src| == full + last;
      assert m * k == full + k;
      assert k * (m - 1) == full;
      CeilDivUnique(|src|, k, m);
    } else {
      CeilDivUnique(|src|, k, 0);
    }
  }

  /** A layout of `m` chunks whose first `m - 1` hold `k` bytes each flattens to
      `(m - 1) * k` bytes plus the last chunk. */
  lemma LayoutLength(cs: seq<Chunk>, k: nat)
    requires cs != []
    requires forall i :: 0 <= i < |cs| - 1 ==> |cs[i].blob| == k
    ensures |Flatten(cs)| == (|cs| - 1) * k + |cs[|cs| - 1].blob|
  {
    var m := |cs|;
    FlattenAppend(cs[..m - 1], [cs[m - 1]]);
    assert cs[..m - 1] + [cs[m - 1]] == cs;
    FlattenSingle(cs[m - 1]);
    FullChunksLength(cs[..m - 1], k);
  }

  /** Any such layout IS the default split: the default algorithm is the only split
      with the required shape, so a strategy meeting it cannot differ from it. */
  lemma PartitionIsDefault(src: seq<byte>, k: nat, r: SplitResult)
    requires k > 0 && IsPartition(src, k, r)
    ensures r == DefaultSplit(src, k)
  {
    PartitionSizes(src, k, r);
    var d := DefaultSplit(src, k);
    var cs := r.chunks;
    forall i | 0 <= i < |cs|
      ensures cs[i] == d.chunks[i]
    {
      PartitionChunk(src, k, cs, i);
    }
  }

  /** Chunk `i` of a layout covers bytes `[i * k, min(i * k + k, |src|))`. */
  lemma PartitionChunk(src: seq<byte>, k: nat, cs: seq<Chunk>, i: nat)
    requires k > 0 && i < |cs|
    requires forall j :: 0 <= j < |cs| - 1 ==> |cs[j].blob| == k
    requires |cs[|cs| - 1].blob| <= k
    requires Flatten(cs) == src
    ensures i * k <= Min(i * k + k, |src|) <= |src|
    ensures cs[i].blob == src[i * k .. Min(i * k + k, |src|)]
  {
    var before, rest := cs[..i], cs[i + 1..];
    assert cs == before + [cs[i]] + rest;
    FlattenAround(before, cs[i], rest);
    FullChunksLength(before, k);
    var off, len := |Flatten(before)|, |cs[i].blob|;
    assert off == i * k;
    assert src[off..off + len] == cs[i].blob;
    if i < |cs| - 1 {
      assert len == k;
    } else {
      assert rest == [];
      assert |src| == off + len;
    }
  }

  /** A source no longer than one chunk gives one chunk holding all of it, or no chunk at
      all when it is empty. */
  lemma SmallSource(src: seq<byte>, k: nat)
    requires k > 0 && |src| <= k
    ensures DefaultSplit(src, k).chunks == if src == [] then [] else [Chunk(0, src)]
  {
    if src != [] {
      assert CeilDiv(|src|, k) == 1 + CeilDiv(0, k);
      DefaultChunkBounds(src, k, 0);
      assert 0 * k == 0 && Min(0 * k + k, |src|) == |src|;
      assert src[0 * k .. Min(0 * k + k, |src|)] == src;
      var cs := DefaultSplit(src, k).chunks;
      assert cs == [cs[0]];
    }
  }

  /** A source of exactly `m` chunk sizes gives `m` full chunks. */
  lemma ExactMultiple(src: seq<byte>, k: nat, m: nat)
    requires k > 0 && |src| == m * k
    ensures DefaultSplit(src, k).totalChunks == m
    ensures forall i :: 0 <= i < m ==> |DefaultSplit(src, k).chunks[i].blob| == k
  {
    if m > 0 {
      assert (m - 1) * k == m * k - k;
    }
    CeilDivUnique(|src|, k, m);
    forall i | 0 <= i < m
      ensures |DefaultSplit(src, k).chunks[i].blob| == k
    {
      DefaultChunkBounds(src, k, i);
      if i == m - 1 {
        assert i * k == m * k - k;
      }
    }
  }

  /** The chunk size the test fixtures use: 1 MiB. */
  const FixtureChunkSize: nat := 1 * 1024 * 1024

  /** The in-memory split applied to the sizes of the test fixtures, with their 1 MiB
      chunk size (the fixtures themselves feed the filesystem split): the empty file gives
      no chunk, a file of at most 1 MiB gives one holding all of it, and files of 2 MiB
      and 4 MiB give 2 and 4 full chunks. */
  lemma FixtureCounts(src: seq<byte>)
    ensures |src| == 0 ==> DefaultSplit(src, FixtureChunkSize).chunks == []
    ensures 0 < |src| <= FixtureChunkSize ==> DefaultSplit(src, FixtureChunkSize).chunks == [Chunk(0, src)]
    ensures |src| == 2 * FixtureChunkSize ==>
              && DefaultSplit(src, FixtureChunkSize).totalChunks == 2
              && forall i :: 0 <= i < 2 ==> |DefaultSplit(src, FixtureChunkSize).chunks[i].blob| == FixtureChunkSize
    ensures |src| == 4 * FixtureChunkSize ==>
              && DefaultSplit(src, FixtureChunkSize).totalChunks == 4
              && forall i :: 0 <= i < 4 ==> |DefaultSplit(src, FixtureChunkSize).chunks[i].blob| == FixtureChunkSize
  {
    if |src| <= FixtureChunkSize {
      SmallSource(src, FixtureChunkSize);
    } else if |src| == 2 * FixtureChunkSize {
      ExactMultiple(src, FixtureChunkSize, 2);
    } else if |src| == 4 * FixtureChunkSize {
      ExactMultiple(src, FixtureChunkSize, 4);
    }
  }
}

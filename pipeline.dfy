/**
 * The fan-out of compress_file and decompress_file. The source starts one
 * thread per chunk and joins them all; each thread reads only its own input
 * slot and writes only its own output slots, so running the tasks one after
 * another in index order gives the same slots. That sequential map is the
 * model.
 */
module Pipeline {
  import opened Bytes
  import opened Codec
  import opened Container

  /** Every chunk's length fits the 64-bit size fields. */
  ghost predicate SizesFit(chunks: seq<seq<byte>>)
  {
    |chunks| < TWO_TO_THE_64 && forall i :: 0 <= i < |chunks| ==> |chunks[i]| < TWO_TO_THE_64
  }

  /**
   * The metadata record the compress task of a chunk stores: the compressed
   * length on success and 0 on failure, and the chunk's length.
   */
  function MetaOf(z: Zlib, raw: seq<byte>): (m: ChunkMeta)
    requires Lawful(z) && |raw| < TWO_TO_THE_64
    ensures m.originalSize == |raw| && m.compressedSize <= z.compressBound(|raw|)
  {
    var d := Deflate(z, raw, Z_BEST_COMPRESSION);
    ChunkMeta(if d.ok then |d.buf| else 0, |raw|)
  }

  /** The compressed slots after the join. */
  function CompressedSlots(z: Zlib, chunks: seq<seq<byte>>): (bufs: seq<seq<byte>>)
    requires Lawful(z) && SizesFit(chunks)
    ensures |bufs| == |chunks|
  {
    seq(|chunks|, i requires 0 <= i < |chunks| => Deflate(z, chunks[i], Z_BEST_COMPRESSION).buf)
  }

  /** The metadata slots after the join. */
  function MetaSlots(z: Zlib, chunks: seq<seq<byte>>): (metas: seq<ChunkMeta>)
    requires Lawful(z) && SizesFit(chunks)
    ensures |metas| == |chunks|
  {
    seq(|chunks|, i requires 0 <= i < |chunks| => MetaOf(z, chunks[i]))
  }

  /** The decompressed slots after the join, each sized to its record's original size. */
  function DecompressedSlots(z: Zlib, blocks: seq<seq<byte>>, metas: seq<ChunkMeta>): (outs: seq<seq<byte>>)
    requires Lawful(z) && |blocks| == |metas|
    ensures |outs| == |metas|
  {
    seq(|metas|, i requires 0 <= i < |metas| => Inflate(z, blocks[i], metas[i].originalSize).buf)
  }

  /**
   * The compress fan-out: task `i` compresses chunk `i` at the best
   * compression level into slot `i` and records its metadata in slot `i`.
   */
  method CompressChunks(z: Zlib, chunks: seq<seq<byte>>) returns (compressed: seq<seq<byte>>, metas: seq<ChunkMeta>)
    requires Lawful(z) && SizesFit(chunks)
    ensures compressed == CompressedSlots(z, chunks)
    ensures metas == MetaSlots(z, chunks)
  {
    compressed := seq(|chunks|, _ => []);
    metas := seq(|chunks|, _ => ChunkMeta(0, 0));
    for i := 0 to |chunks|
      invariant |compressed| == |metas| == |chunks|
      invariant forall j :: 0 <= j < i ==>
                  compressed[j] == Deflate(z, chunks[j], Z_BEST_COMPRESSION).buf && metas[j] == MetaOf(z, chunks[j])
    {
      var ok, out := CompressChunk(z, chunks[i], Z_BEST_COMPRESSION);
      compressed := compressed[i := out];
      if !ok {
        metas := metas[i := ChunkMeta(0, |chunks[i]|)];
      } else {
        metas := metas[i := ChunkMeta(|out|, |chunks[i]|)];
      }
    }
  }

  /**
   * The decompress fan-out: task `i` decompresses block `i` against record
   * `i`'s original size into slot `i`. A failure is only reported; the slot
   * keeps whatever the call left in it.
   */
  method DecompressChunks(z: Zlib, blocks: seq<seq<byte>>, metas: seq<ChunkMeta>) returns (decompressed: seq<seq<byte>>)
    requires Lawful(z) && |blocks| == |metas|
    ensures decompressed == DecompressedSlots(z, blocks, metas)
  {
    decompressed := seq(|metas|, _ => []);
    for i := 0 to |metas|
      invariant |decompressed| == |metas|
      invariant forall j :: 0 <= j < i ==> decompressed[j] == Inflate(z, blocks[j], metas[j].originalSize).buf
    {
      var ok, out := DecompressChunk(z, blocks[i], metas[i].originalSize);
      decompressed := decompressed[i := out];
    }
  }

  /**
   * The records say what the slots hold: a record's compressed size is its
   * slot's length exactly when compression succeeded, and its original size is
   * its chunk's length.
   */
  lemma MetaSlotsDescribe(z: Zlib, chunks: seq<seq<byte>>, i: nat)
    requires Lawful(z) && SizesFit(chunks) && i < |chunks|
    ensures MetaSlots(z, chunks)[i].originalSize == |chunks[i]|
    ensures Deflate(z, chunks[i], Z_BEST_COMPRESSION).ok ==>
              MetaSlots(z, chunks)[i].compressedSize == |CompressedSlots(z, chunks)[i]|
    ensures !Deflate(z, chunks[i], Z_BEST_COMPRESSION).ok ==>
              MetaSlots(z, chunks)[i].compressedSize == 0 &&
              |CompressedSlots(z, chunks)[i]| == z.compressBound(|chunks[i]|)
  {
  }

  /**
   * When every chunk compressed, decompressing each slot against its record
   * gives the chunks back, in order.
   */
  lemma SlotsRoundTrip(z: Zlib, chunks: seq<seq<byte>>)
    requires Lawful(z) && SizesFit(chunks)
    requires forall i :: 0 <= i < |chunks| ==> Deflate(z, chunks[i], Z_BEST_COMPRESSION).ok
    ensures DecompressedSlots(z, CompressedSlots(z, chunks), MetaSlots(z, chunks)) == chunks
  {
    var outs := DecompressedSlots(z, CompressedSlots(z, chunks), MetaSlots(z, chunks));
    forall i | 0 <= i < |chunks|
      ensures outs[i] == chunks[i]
    {
      ChunkRoundTrip(z, chunks[i], Z_BEST_COMPRESSION);
    }
  }
}

/**
 * compress_file and decompress_file: the planner, the fan-out and the
 * container put together. A run's observable result is its exit code and the
 * bytes of the output file, if it wrote one.
 */
module Driver {
  import opened Bytes
  import opened Streams
  import opened Codec
  import opened Planner
  import opened Container
  import opened Pipeline

  /** The exit code of a run and the output file it wrote, if any. */
  datatype Run = Run(exit: int, written: Option<seq<byte>>)

  /** The chunks compress_file cuts the input into. */
  function Chunks(input: seq<byte>, threadsRequested: int): seq<seq<byte>>
    requires |input| > 0
  {
    Split(input, ChunkLayout(|input|, threadsRequested).idealChunk)
  }

  /** The planned chunks are at most `max(1, threadsRequested)` and each fits a 64-bit size. */
  lemma ChunksFit(input: seq<byte>, threadsRequested: int)
    requires |input| > 0 && InRange(|input|, threadsRequested)
    ensures SizesFit(Chunks(input, threadsRequested))
    ensures 1 <= |Chunks(input, threadsRequested)| <= Max(1, threadsRequested)
  {
    var k := ChunkLayout(|input|, threadsRequested).idealChunk;
    LayoutBounds(|input|, threadsRequested);
    SplitCount(input, k);
    forall i | 0 <= i < |Split(input, k)|
      ensures |Split(input, k)[i]| <= |input|
    {
      SplitPiece(input, k, i);
    }
  }

  /** The container compress_file writes for a non-empty input. */
  function ContainerOf(z: Zlib, chunks: seq<seq<byte>>): seq<byte>
    requires Lawful(z) && SizesFit(chunks)
  {
    HeaderBytes(MetaSlots(z, chunks)) + Flatten(CompressedSlots(z, chunks))
  }

  /**
   * What compress_file does with an input file: an empty input is an error
   * and writes nothing; otherwise the container is written and the run
   * succeeds, whether or not every chunk compressed.
   */
  function Encode(input: seq<byte>, threadsRequested: int, z: Zlib): (r: Run)
    requires Lawful(z) && InRange(|input|, threadsRequested)
    ensures (r.exit == 0 <==> |input| > 0) && (r.written.Some? <==> r.exit == 0)
  {
    if |input| == 0 then Run(1, None)
    else
      ChunksFit(input, threadsRequested);
      Run(0, Some(ContainerOf(z, Chunks(input, threadsRequested))))
  }

  /**
   * What decompress_file does with a container: a header or a block that
   * cannot be read is an error and writes nothing; otherwise the decompressed
   * slots are written one after another and the run succeeds, whether or not
   * every chunk decompressed.
   */
  function Decode(container: seq<byte>, z: Zlib): (r: Run)
    requires Lawful(z)
    ensures r.exit == 0 || r.exit == 1
    ensures r.written.Some? <==> r.exit == 0
    ensures ParseHeader(container).Invalid? ==> r.exit == 1
  {
    match ParseHeader(container)
    case Invalid => Run(1, None)
    case Parsed(metas, rest) =>
      match Unframe(rest, metas)
      case None => Run(1, None)
      case Some(Blocks(blocks, _)) =>
        Run(0, Some(Flatten(DecompressedSlots(z, blocks, metas))))
  }

  /** A container whose header and blocks can be read decodes to its decompressed slots. */
  lemma DecodeReadable(container: seq<byte>, z: Zlib, metas: seq<ChunkMeta>, rest: seq<byte>,
                       blocks: seq<seq<byte>>, tail: seq<byte>)
    requires Lawful(z)
    requires ParseHeader(container) == Parsed(metas, rest)
    requires Unframe(rest, metas) == Some(Blocks(blocks, tail))
    ensures |blocks| == |metas|
    ensures Decode(container, z) == Run(0, Some(Flatten(DecompressedSlots(z, blocks, metas))))
  {
  }

  /** Every chunk of the input compressed successfully. */
  ghost predicate AllCompressed(input: seq<byte>, threadsRequested: int, z: Zlib)
    requires Lawful(z) && |input| > 0 && InRange(|input|, threadsRequested)
  {
    ChunksFit(input, threadsRequested);
    var chunks := Chunks(input, threadsRequested);
    forall i :: 0 <= i < |chunks| ==> Deflate(z, chunks[i], Z_BEST_COMPRESSION).ok
  }

  /** Writes the buffers to the stream one after another, in slot order. */
  method WriteBlocks(out: OutStream, bufs: seq<seq<byte>>)
    modifies out
    ensures out.written == old(out.written) + Flatten(bufs)
  {
    for i := 0 to |bufs|
      invariant out.written == old(out.written) + Flatten(bufs[..i])
    {
      out.Write(bufs[i]);
      FlattenSnoc(bufs[..i], bufs[i]);
      assert bufs[..i + 1] == bufs[..i] + [bufs[i]];
    }
    assert bufs[..|bufs|] == bufs;
  }

  /**
   * The second half of compress_file: the compress fan-out over the chunks,
   * then the header and the blocks written to a fresh output file.
   */
  method CompressAndWrite(z: Zlib, chunks: seq<seq<byte>>) returns (written: seq<byte>)
    requires Lawful(z) && SizesFit(chunks)
    ensures written == ContainerOf(z, chunks)
  {
    var compressed, metas := CompressChunks(z, chunks);
    var out := new OutStream();
    WriteHeader(out, metas);
    WriteBlocks(out, compressed);
    written := out.written;
  }

  /** compress_file. */
  method CompressFile(input: seq<byte>, threadsRequested: int, z: Zlib) returns (r: Run)
    requires Lawful(z) && InRange(|input|, threadsRequested)
    ensures r == Encode(input, threadsRequested, z)
  {
    var totalSize := |input|;
    if totalSize == 0 {
      return Run(1, None);
    }
    var chunks, origSizes := ReadChunks(input, threadsRequested);
    ChunksFit(input, threadsRequested);
    var written := CompressAndWrite(z, chunks);
    return Run(0, Some(written));
  }

  /**
   * decompress_file. The requested thread count is not used: there is one
   * task per chunk recorded in the header.
   */
  method DecompressFile(container: seq<byte>, threadsRequested: int, z: Zlib) returns (r: Run)
    requires Lawful(z)
    ensures r == Decode(container, z)
  {
    var inp := new InStream(container);
    var ok, metas := ReadHeader(inp);
    if !ok {
      return Run(1, None);
    }
    ghost var rest := inp.Remaining();
    var blocks;
    ok, blocks := ReadBlocks(inp, metas);
    if !ok {
      return Run(1, None);
    }
    assert ParseHeader(container) == Parsed(metas, rest);
    assert Unframe(rest, metas) == Some(Blocks(blocks, inp.Remaining()));
    var decompressed := DecompressChunks(z, blocks, metas);
    var out := new OutStream();
    WriteBlocks(out, decompressed);
    assert out.written == Flatten(DecompressedSlots(z, blocks, metas));
    return Run(0, Some(out.written));
  }

  /**
   * The container written for a non-empty input: its header announces one
   * record per chunk, at most `max(1, threadsRequested)` of them, whose
   * original sizes add up to the input size and are each non-zero.
   */
  lemma EncodedHeader(input: seq<byte>, threadsRequested: int, z: Zlib)
    requires Lawful(z) && |input| > 0 && InRange(|input|, threadsRequested)
    ensures Encode(input, threadsRequested, z).exit == 0
    ensures var c := Encode(input, threadsRequested, z).written.value;
            ParseHeader(c).Parsed? &&
            1 <= |ParseHeader(c).metas| <= Max(1, threadsRequested) &&
            (forall i :: 0 <= i < |ParseHeader(c).metas| ==> ParseHeader(c).metas[i].originalSize > 0) &&
            SumOriginal(ParseHeader(c).metas) == |input|
  {
    ChunksFit(input, threadsRequested);
    var k := ChunkLayout(|input|, threadsRequested).idealChunk;
    LayoutBounds(|input|, threadsRequested);
    var chunks := Chunks(input, threadsRequested);
    var metas := MetaSlots(z, chunks);
    HeaderRoundTrip(metas, Flatten(CompressedSlots(z, chunks)));
    forall i | 0 <= i < |metas|
      ensures metas[i].originalSize > 0
    {
      SplitLengths(input, k, i);
    }
    SumOriginalLengths(metas, chunks);
    SplitFlatten(input, k);
    FlattenLength(chunks);
  }

  /** The sum of the records' original sizes: the length decompression restores. */
  function SumOriginal(metas: seq<ChunkMeta>): nat
  {
    if metas == [] then 0 else metas[0].originalSize + SumOriginal(metas[1..])
  }

  lemma {:induction false} SumOriginalLengths(metas: seq<ChunkMeta>, chunks: seq<seq<byte>>)
    requires |metas| == |chunks|
    requires forall i :: 0 <= i < |metas| ==> metas[i].originalSize == |chunks[i]|
    ensures SumOriginal(metas) == TotalLength(chunks)
  {
    if metas != [] {
      SumOriginalLengths(metas[1..], chunks[1..]);
    }
  }

  /**
   * When every chunk compressed, the container holds exactly the payload its
   * header announces.
   */
  lemma EncodedWellFramed(input: seq<byte>, threadsRequested: int, z: Zlib)
    requires Lawful(z) && |input| > 0 && InRange(|input|, threadsRequested)
    requires AllCompressed(input, threadsRequested, z)
    ensures Encode(input, threadsRequested, z).written.Some?
    ensures WellFramed(Encode(input, threadsRequested, z).written.value)
  {
    ChunksFit(input, threadsRequested);
    var chunks := Chunks(input, threadsRequested);
    var metas := MetaSlots(z, chunks);
    var bufs := CompressedSlots(z, chunks);
    HeaderRoundTrip(metas, Flatten(bufs));
    UnframeRoundTrip(bufs, metas, []);
    assert Flatten(bufs) + [] == Flatten(bufs);
    UnframeIff(Flatten(bufs), metas);
    FlattenLength(bufs);
    SumCompressedLengths(metas, bufs);
  }

  lemma {:induction false} SumCompressedLengths(metas: seq<ChunkMeta>, bufs: seq<seq<byte>>)
    requires SizedBy(bufs, metas)
    ensures SumCompressed(metas) == TotalLength(bufs)
  {
    if metas != [] {
      SumCompressedLengths(metas[1..], bufs[1..]);
    }
  }

  /**
   * End-to-end round trip: when every chunk compressed, decompressing the
   * container compress_file wrote succeeds and writes the original input.
   */
  lemma RoundTrip(input: seq<byte>, threadsRequested: int, z: Zlib)
    requires Lawful(z) && |input| > 0 && InRange(|input|, threadsRequested)
    requires AllCompressed(input, threadsRequested, z)
    ensures Encode(input, threadsRequested, z).written.Some?
    ensures Decode(Encode(input, threadsRequested, z).written.value, z) == Run(0, Some(input))
  {
    ChunksFit(input, threadsRequested);
    var chunks := Chunks(input, threadsRequested);
    var metas := MetaSlots(z, chunks);
    var bufs := CompressedSlots(z, chunks);
    HeaderRoundTrip(metas, Flatten(bufs));
    UnframeRoundTrip(bufs, metas, []);
    assert Flatten(bufs) + [] == Flatten(bufs);
    SlotsRoundTrip(z, chunks);
    SplitFlatten(input, ChunkLayout(|input|, threadsRequested).idealChunk);
  }

  /**
   * However the chunks fare in decompression, a container whose header and
   * blocks can be read decodes with exit code 0 to as many bytes as its
   * records' original sizes add up to.
   */
  lemma DecodedLength(container: seq<byte>, z: Zlib)
    requires Lawful(z)
    ensures Decode(container, z).exit == 0 <==>
              ParseHeader(container).Parsed? &&
              SumCompressed(ParseHeader(container).metas) <= |ParseHeader(container).rest|
    ensures Decode(container, z).exit == 0 ==>
              |Decode(container, z).written.value| == SumOriginal(ParseHeader(container).metas)
    ensures Decode(container, z).exit != 0 ==> Decode(container, z).written == None
  {
    var p := ParseHeader(container);
    if p.Parsed? {
      UnframeIff(p.rest, p.metas);
      if Unframe(p.rest, p.metas).Some? {
        var outs := DecompressedSlots(z, Unframe(p.rest, p.metas).value.blocks, p.metas);
        FlattenLength(outs);
        SumOriginalSlots(p.metas, outs);
      }
    }
  }

  lemma {:induction false} SumOriginalSlots(metas: seq<ChunkMeta>, outs: seq<seq<byte>>)
    requires |metas| == |outs|
    requires forall i :: 0 <= i < |metas| ==> |outs[i]| == metas[i].originalSize
    ensures SumOriginal(metas) == TotalLength(outs)
  {
    if metas != [] {
      SumOriginalSlots(metas[1..], outs[1..]);
    }
  }
}
